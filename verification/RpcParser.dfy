/** The scanner with its one pushed-back token, and the recursive-descent parser over it. */
module RpcParser {
  import opened Bytes
  import opened RpcSyntax
  import opened RpcGrammar
  import opened RpcComplete

  /** Only the scanner makes `Eof`, once the characters have run out. */
  predicate NoEof(ts: Tokens) {
    ts.Cons? ==> ts.head != Eof && NoEof(ts.tail)
  }

  class Scanner {
    var input: Tokens      // the tokens beyond `where`
    var pushed: bool
    var lasttok: Token

    ghost predicate Valid()
      reads this
    {
      NoEof(input) && (pushed && lasttok == Eof ==> input == Done)
    }

    /** The tokens still to be delivered, a pushed-back one first. */
    ghost function Remaining(): (ts: Tokens)
      reads this
      requires Valid()
      ensures NoEof(ts)
    {
      if pushed && lasttok != Eof then Cons(lasttok, input) else input
    }

    constructor (input: Tokens)
      requires NoEof(input)
      ensures Valid() && Remaining() == input
    {
      this.input, pushed, lasttok := input, false, Eof;
    }

    method GetToken() returns (tok: Token)
      requires Valid()
      modifies this
      ensures Valid() && !pushed && tok == Next(old(Remaining())) && Remaining() == Skip(old(Remaining()))
    {
      if pushed {
        pushed := false;
        return lasttok;
      }
      if input == Done {
        return Eof;
      }
      tok := input.head;
      input := input.tail;
    }

    /** Pushes back a token just delivered; there is room for one. */
    method Unget(tok: Token)
      requires Valid() && !pushed && (tok == Eof ==> Remaining() == Done)
      modifies this
      ensures Valid() && Remaining() == if tok == Eof then old(Remaining()) else Cons(tok, old(Remaining()))
    {
      lasttok := tok;
      pushed := true;
    }

    /** The next token, which stays where it is. */
    method Peek() returns (tok: Token)
      requires Valid()
      modifies this
      ensures Valid() && tok == Next(old(Remaining())) && Remaining() == old(Remaining())
    {
      tok := GetToken();
      Unget(tok);
    }

    /** Takes the next token if it is the expected one and leaves it otherwise. */
    method PeekScan(wanted: Token) returns (taken: bool)
      requires Valid() && wanted != Eof
      modifies this
      ensures Valid() && taken == (Next(old(Remaining())) == wanted)
      ensures Remaining() == if taken then old(Remaining()).tail else old(Remaining())
    {
      var tok := Peek();
      if tok == wanted {
        var _ := GetToken();
        return true;
      }
      taken := false;
    }

    method Scan(wanted: Token) returns (ok: bool)
      requires Valid() && wanted != Eof
      modifies this
      ensures Valid()
      ensures var r := Eat(wanted, old(Remaining())); ok == r.Parsed? && (ok ==> Remaining() == r.rest)
    {
      var tok := GetToken();
      ok := tok == wanted;
    }

    /** `scan(TOK_IDENT)` and `scan_num`, which ask for the same kind of token. */
    method ScanIdent() returns (name: Option<string>)
      requires Valid()
      modifies this
      ensures Valid() && Agrees(name, EatIdent(old(Remaining())), (n: string) => n, Remaining())
    {
      var tok := GetToken();
      name := if tok.Ident? then Some(tok.name) else None;
    }
  }

  /** A parsing procedure fails when the grammar does, and otherwise builds the tree and stops where it stops. */
  ghost predicate Agrees<T, U>(r: Option<U>, p: Parsed<T>, tree: T -> U, left: Tokens) {
    match p
    case Fail => r == None
    case Parsed(v, rest) => r == Some(tree(v)) && left == rest
  }

  method UnsignedDec(s: Scanner) returns (name: TypeName)
    requires s.Valid()
    modifies s
    ensures s.Valid() && Agrees(Some(TypeRef(None, name)), UnsignedType(old(s.Remaining())), TypeMeaning, s.Remaining())
  {
    var tok := s.Peek();
    match tok {
      case KwChar =>
        tok := s.GetToken();
        name := TUChar;
      case KwShort =>
        tok := s.GetToken();
        name := TUShort;
        var _ := s.PeekScan(KwInt);
      case KwLong =>
        tok := s.GetToken();
        name := TULong;
        var _ := s.PeekScan(KwInt);
      case KwInt =>
        tok := s.GetToken();
        name := TUInt;
      case _ =>
        name := TUInt;
    }
  }

  method TagName(s: Scanner, tag: Tag) returns (r: Option<TypeRef>)
    requires s.Valid()
    modifies s
    ensures s.Valid() && Agrees(r, TaggedType(tag, old(s.Remaining())), TypeMeaning, s.Remaining())
  {
    var name := s.ScanIdent();
    r := if name == None then None else Some(TypeRef(Some(tag), TypeNamed(name.value)));
  }

  /** `short` and `long`, which `int` may follow. */
  method GetSized(s: Scanner, tok: Token, ghost p: Place) returns (r: Option<TypeRef>)
    requires s.Valid() && (tok == KwShort || tok == KwLong)
    modifies s
    ensures s.Valid() && Agrees(r, Type(p, Cons(tok, old(s.Remaining()))), TypeMeaning, s.Remaining())
  {
    ghost var i := OptionalInt(s.Remaining());
    var _ := s.PeekScan(KwInt);
    assert s.Remaining() == i.rest;
    r := Some(TypeRef(None, if tok == KwShort then TShort else TLong));
  }

  /** `struct`, `union` or `enum`, and the name of the type. */
  method GetTagged(s: Scanner, tok: Token, ghost p: Place) returns (r: Option<TypeRef>)
    requires s.Valid() && tok in {KwStruct, KwEnum, KwUnion}
    modifies s
    ensures s.Valid() && Agrees(r, Type(p, Cons(tok, old(s.Remaining()))), TypeMeaning, s.Remaining())
  {
    r := TagName(s, if tok == KwStruct then StructTag else if tok == KwEnum then EnumTag else UnionTag);
  }

  /** An integer type that may be of several words. */
  method GetInteger(s: Scanner, tok: Token, ghost p: Place) returns (r: Option<TypeRef>)
    requires s.Valid() && tok in {KwUnsigned, KwShort, KwLong}
    modifies s
    ensures s.Valid() && Agrees(r, Type(p, Cons(tok, old(s.Remaining()))), TypeMeaning, s.Remaining())
  {
    if tok == KwUnsigned {
      var name := UnsignedDec(s);
      r := Some(TypeRef(None, name));
    } else {
      r := GetSized(s, tok, p);
    }
  }

  /** A type of one word. */
  function OneWord(tok: Token, p: Place): Option<TypeRef> {
    match tok
    case Ident(name) => Some(TypeRef(None, TypeNamed(name)))
    case KwVoid => if p == InUnion || p == InProgram then Some(TypeRef(None, TVoid)) else None
    case _ => if PlainWord(tok) then Some(TypeRef(None, PlainName(tok))) else None
  }

  lemma {:induction false} OneWordAgrees(tok: Token, p: Place, left: Tokens)
    requires tok !in {KwStruct, KwEnum, KwUnion, KwUnsigned, KwShort, KwLong}
    ensures Agrees(OneWord(tok, p), Type(p, Cons(tok, left)), TypeMeaning, left)
  {
  }

  lemma {:induction false} TypeAtToken(p: Place, ts: Tokens)
    ensures Type(p, ts) == Type(p, Cons(Next(ts), Skip(ts)))
  {
  }

  method GetType(s: Scanner, p: Place) returns (r: Option<TypeRef>)
    requires s.Valid()
    modifies s
    ensures s.Valid() && Agrees(r, Type(p, old(s.Remaining())), TypeMeaning, s.Remaining())
  {
    ghost var ts := s.Remaining();
    TypeAtToken(p, ts);
    var tok := s.GetToken();
    assert Type(p, ts) == Type(p, Cons(tok, s.Remaining()));
    if tok == KwStruct || tok == KwEnum || tok == KwUnion {
      r := GetTagged(s, tok, p);
    } else if tok == KwUnsigned || tok == KwShort || tok == KwLong {
      r := GetInteger(s, tok, p);
    } else {
      OneWordAgrees(tok, p, s.Remaining());
      r := OneWord(tok, p);
    }
  }

  /** The relation and limit a shape stands for. */
  function ShapeMeaning(shape: Shape): (Relation, Option<Limit>) {
    match shape
    case Alias => (RelAlias, None)
    case Pointer => (RelPointer, None)
    case Fixed(n) => (RelVector, Some(Size(n)))
    case Bounded(n) => (RelArray, Some(Size(n)))
    case Unbounded => (RelArray, Some(Unlimited))
  }

  method GetSuffix(s: Scanner, star: bool) returns (r: Option<(Relation, Option<Limit>)>)
    requires s.Valid()
    modifies s
    ensures s.Valid() && Agrees(r, Suffix(star, old(s.Remaining())), ShapeMeaning, s.Remaining())
  {
    r := None;
    var bracket := s.PeekScan(LBracket);
    if bracket {
      if star {
        return;
      }
      var n := s.ScanIdent();
      if n.Some? {
        var ok := s.Scan(RBracket);
        if ok {
          r := Some((RelVector, Some(Size(n.value))));
        }
      }
      return;
    }
    var angle := s.PeekScan(LAngle);
    if !angle {
      return Some((if star then RelPointer else RelAlias, None));
    }
    if star {
      return;
    }
    var empty := s.PeekScan(RAngle);
    if empty {
      return Some((RelArray, Some(Unlimited)));
    }
    var n := s.ScanIdent();
    if n.Some? {
      var ok := s.Scan(RAngle);
      if ok {
        r := Some((RelArray, Some(Size(n.value))));
      }
    }
  }

  /** The tests on the tree at the end of a declaration are those the grammar makes. */
  lemma {:induction false} ShapeOkOfTree(t: TypeSyntax, shape: Shape)
    requires t.Plain? ==> PlainWord(t.word)
    ensures var name, rel := TypeMeaning(t).name, ShapeMeaning(shape).0;
            ShapeOk(t, shape) <==>
              (name == TOpaque ==> rel == RelArray || rel == RelVector) && (name == TString ==> rel == RelArray)
  {
  }

  /** The suffix, and the two tests on what it makes of the type. */
  method GetShape(s: Scanner, t: TypeRef, star: bool, ghost syntax: TypeSyntax)
    returns (r: Option<(Relation, Option<Limit>)>)
    requires s.Valid() && t == TypeMeaning(syntax) && (syntax.Plain? ==> PlainWord(syntax.word))
    modifies s
    ensures s.Valid()
    ensures var shape := Suffix(star, old(s.Remaining()));
            if shape.Parsed? && ShapeOk(syntax, shape.value) then Agrees(r, shape, ShapeMeaning, s.Remaining())
            else r == None
  {
    ghost var shape := Suffix(star, s.Remaining());
    r := GetSuffix(s, star);
    if r == None {
      return;
    }
    ShapeOkOfTree(syntax, shape.value);
    var rel := r.value.0;
    if t.name == TOpaque && rel != RelArray && rel != RelVector {
      return None;
    }
    if t.name == TString && rel != RelArray {
      return None;
    }
  }

  /** The name, and whether a star stands before it. */
  method GetStarred(s: Scanner) returns (star: bool, name: Option<string>)
    requires s.Valid()
    modifies s
    ensures s.Valid() && star == (Next(old(s.Remaining())) == Star)
    ensures var ts := old(s.Remaining());
            Agrees(name, EatIdent(if star then ts.tail else ts), (n: string) => n, s.Remaining())
  {
    star := s.PeekScan(Star);
    name := s.ScanIdent();
  }

  /** The name and what surrounds it, after the type. */
  method GetNamed(s: Scanner, t: TypeRef, ghost syntax: TypeSyntax) returns (r: Option<Declaration>)
    requires s.Valid() && t == TypeMeaning(syntax) && (syntax.Plain? ==> PlainWord(syntax.word))
    modifies s
    ensures s.Valid() && Agrees(r, Named(syntax, old(s.Remaining())), DeclMeaning, s.Remaining())
  {
    var star, name := GetStarred(s);
    if name == None {
      return None;
    }
    var shape := GetShape(s, t, star, syntax);
    if shape.Some? {
      r := Some(Declaration(t, Some(name.value), shape.value.0, shape.value.1));
    } else {
      r := None;
    }
  }

  lemma {:induction false} VoidOfTree(p: Place, ts: Tokens)
    ensures var t := Type(p, ts);
            t.Parsed? ==>
              && (t.value.Plain? ==> PlainWord(t.value.word))
              && (TypeMeaning(t.value).name == TVoid <==> t.value == Plain(KwVoid))
  {
  }

  method GetDeclaration(s: Scanner, p: Place) returns (r: Option<Declaration>)
    requires s.Valid()
    modifies s
    ensures s.Valid() && Agrees(r, Declare(p, old(s.Remaining())), DeclMeaning, s.Remaining())
  {
    ghost var syntax := Type(p, s.Remaining());
    VoidOfTree(p, s.Remaining());
    var t := GetType(s, p);
    if t == None {
      return None;
    }
    if t.value.name == TVoid {
      return Some(Declaration(t.value, None, RelAlias, None));
    }
    r := GetNamed(s, t.value, syntax.value);
  }

  // ---------------------------------------------------------------- definitions

  /** A list already parsed in front of one still to come. */
  ghost function Onto<T>(done: seq<T>, r: Parsed<seq<T>>): Parsed<seq<T>> {
    if r.Fail? then r else Parsed(done + r.value, r.rest)
  }

  lemma {:induction false} OntoStep<T>(done: seq<T>, x: T, r: Parsed<seq<T>>)
    ensures Onto(done, Onto([x], r)) == Onto(done + [x], r) && Onto([], r) == r
  {
    if r.Parsed? {
      assert done + ([x] + r.value) == done + [x] + r.value;
      assert [] + r.value == r.value;
    }
  }

  lemma {:induction false} EachMore<A, B>(f: A -> B, s: seq<A>, x: A)
    ensures Each(f, s + [x]) == Each(f, s) + [f(x)]
  {
  }

  method GetMembers(s: Scanner) returns (r: Option<seq<Declaration>>)
    requires s.Valid()
    modifies s
    ensures s.Valid()
            && Agrees(r, Members(old(s.Remaining())), (ds: seq<DeclSyntax>) => Each(DeclMeaning, ds), s.Remaining())
  {
    var decls: seq<Declaration> := [];
    ghost var done: seq<DeclSyntax> := [];
    ghost var all := Members(s.Remaining());
    OntoStep(done, Nothing, all);
    while true
      invariant s.Valid() && decls == Each(DeclMeaning, done) && all == Onto(done, Members(s.Remaining()))
      decreases Length(s.Remaining())
    {
      ghost var ts := s.Remaining();
      DeclareShrinks(InStruct, ts);
      ghost var d := Declare(InStruct, ts);
      var decl := GetDeclaration(s, InStruct);
      if decl == None {
        return None;
      }
      var ok := s.Scan(Semicolon);
      if !ok {
        return None;
      }
      var tok := s.Peek();
      OntoStep(done, d.value, Members(s.Remaining()));
      EachMore(DeclMeaning, done, d.value);
      decls, done := decls + [decl.value], done + [d.value];
      if tok == RBrace {
        tok := s.GetToken();
        return Some(decls);
      }
    }
  }

  method GetCase(s: Scanner) returns (r: Option<CaseTree>)
    requires s.Valid()
    modifies s
    ensures s.Valid() && Agrees(r, Case(old(s.Remaining())), CaseMeaning, s.Remaining())
  {
    var value := s.ScanIdent();
    if value == None {
      return None;
    }
    var ok := s.Scan(Colon);
    if !ok {
      return None;
    }
    var decl := GetDeclaration(s, InUnion);
    if decl == None {
      return None;
    }
    ok := s.Scan(Semicolon);
    r := if ok then Some(CaseTree(value.value, decl.value)) else None;
  }

  /** What a list leaves behind it, when one of the tokens that may end it has been taken too. */
  ghost predicate AgreesBefore<T, U>(r: Option<U>, tok: Token, p: Parsed<T>, tree: T -> U, ends: set<Token>,
                                     left: Tokens)
  {
    match p
    case Fail => r == None
    case Parsed(v, rest) =>
      if Next(rest) in ends then r == Some(tree(v)) && tok == Next(rest) && left == Skip(rest) else r == None
  }

  method GetCases(s: Scanner) returns (r: Option<seq<CaseTree>>, tok: Token)
    requires s.Valid()
    modifies s
    ensures s.Valid() && AgreesBefore(r, tok, Cases(old(s.Remaining())), (cs: seq<CaseSyntax>) => Each(CaseMeaning, cs),
                                      {KwDefault, RBrace}, s.Remaining())
  {
    var cases: seq<CaseTree> := [];
    ghost var done: seq<CaseSyntax> := [];
    ghost var all := Cases(s.Remaining());
    OntoStep(done, CaseSyntax("", Nothing), all);
    while true
      invariant s.Valid() && cases == Each(CaseMeaning, done) && all == Onto(done, Cases(s.Remaining()))
      decreases Length(s.Remaining())
    {
      ghost var ts := s.Remaining();
      CaseShrinks(ts);
      ghost var c := Case(ts);
      var one := GetCase(s);
      if one == None {
        return None, Eof;
      }
      ghost var after := s.Remaining();
      tok := s.GetToken();
      EachMore(CaseMeaning, done, c.value);
      cases := cases + [one.value];
      if tok != KwCase {
        assert all == Onto(done, Parsed([c.value], after));
        r := if tok == KwDefault || tok == RBrace then Some(cases) else None;
        return;
      }
      OntoStep(done, c.value, Cases(s.Remaining()));
      done := done + [c.value];
    }
  }

  method ScanBoth(s: Scanner, a: Token, b: Token) returns (ok: bool)
    requires s.Valid() && a != Eof && b != Eof
    modifies s
    ensures s.Valid()
    ensures var x := Eat(a, old(s.Remaining()));
            var y := Eat(b, Left(x));
            ok == (x.Parsed? && y.Parsed?) && (ok ==> s.Remaining() == y.rest)
  {
    ok := s.Scan(a);
    if ok {
      ok := s.Scan(b);
    }
  }

  method GetDefaultBody(s: Scanner) returns (r: Option<Declaration>)
    requires s.Valid()
    modifies s
    ensures s.Valid() && Agrees(r, DefaultBody(old(s.Remaining())), DeclMeaning, s.Remaining())
  {
    var ok := s.Scan(Colon);
    if !ok {
      return None;
    }
    r := GetDeclaration(s, InUnion);
    if r == None {
      return;
    }
    ok := ScanBoth(s, Semicolon, RBrace);
    if !ok {
      r := None;
    }
  }

  /** The default, if `tok` announces one. */
  method GetDefault(s: Scanner, tok: Token) returns (r: Option<Option<Declaration>>)
    requires s.Valid() && tok in {KwDefault, RBrace}
    modifies s
    ensures s.Valid() && Agrees(r, Default(Cons(tok, old(s.Remaining()))), DefaultMeaning, s.Remaining())
  {
    if tok != KwDefault {
      return Some(None);
    }
    var decl := GetDefaultBody(s);
    r := if decl == None then None else Some(decl);
  }

  method GetVal(s: Scanner) returns (r: Option<EnumVal>, tok: Token)
    requires s.Valid()
    modifies s
    ensures s.Valid()
            && AgreesBefore(r, tok, Val(old(s.Remaining())), (v: EnumVal) => v, {Comma, RBrace}, s.Remaining())
  {
    tok := Eof;
    var name := s.ScanIdent();
    if name == None {
      return None, tok;
    }
    tok := s.GetToken();
    if tok != Comma && tok != RBrace && tok != Equal {
      return None, tok;
    }
    r := Some(EnumVal(name.value, None));
    if tok == Equal {
      var n := s.ScanIdent();
      if n == None {
        return None, tok;
      }
      r := Some(EnumVal(name.value, Some(n.value)));
      tok := s.GetToken();
      if tok != Comma && tok != RBrace {
        return None, tok;
      }
    }
  }

  method GetVals(s: Scanner) returns (r: Option<seq<EnumVal>>)
    requires s.Valid()
    modifies s
    ensures s.Valid() && Agrees(r, Vals(old(s.Remaining())), (vs: seq<EnumVal>) => vs, s.Remaining())
  {
    var vals: seq<EnumVal> := [];
    ghost var all := Vals(s.Remaining());
    OntoStep(vals, EnumVal("", None), all);
    var tok := Comma;
    while tok != RBrace
      invariant s.Valid() && tok in {Comma, RBrace}
      invariant tok == Comma ==> all == Onto(vals, Vals(s.Remaining()))
      invariant tok == RBrace ==> all == Parsed(vals, s.Remaining())
      decreases if tok == Comma then 1 + Length(s.Remaining()) else 0
    {
      ghost var ts := s.Remaining();
      ValShrinks(ts);
      var v;
      v, tok := GetVal(s);
      if v == None {
        return None;
      }
      OntoStep(vals, v.value, Vals(s.Remaining()));
      vals := vals + [v.value];
    }
    r := Some(vals);
  }

  lemma {:induction false} OpaqueOfTree(ts: Tokens)
    ensures var t := Type(InProgram, ts);
            t.Parsed? ==> (TypeMeaning(t.value).name == TOpaque <==> t.value == Plain(KwOpaque))
  {
  }

  method GetProcEnd(s: Scanner) returns (num: Option<string>)
    requires s.Valid()
    modifies s
    ensures s.Valid() && Agrees(num, ProcEnd(old(s.Remaining())), (n: string) => n, s.Remaining())
  {
    var ok := s.Scan(RParen);
    if !ok {
      return None;
    }
    ok := s.Scan(Equal);
    if !ok {
      return None;
    }
    num := s.ScanIdent();
    if num == None {
      return;
    }
    ok := s.Scan(Semicolon);
    num := if ok then num else None;
  }

  /** A type that may not be opaque. */
  method GetProcType(s: Scanner) returns (r: Option<TypeRef>)
    requires s.Valid()
    modifies s
    ensures s.Valid()
    ensures var t := Type(InProgram, old(s.Remaining()));
            if t.Parsed? && t.value != Plain(KwOpaque) then Agrees(r, t, TypeMeaning, s.Remaining()) else r == None
  {
    OpaqueOfTree(s.Remaining());
    r := GetType(s, InProgram);
    if r.Some? && r.value.name == TOpaque {
      r := None;
    }
  }

  method GetProc(s: Scanner) returns (r: Option<ProcTree>)
    requires s.Valid()
    modifies s
    ensures s.Valid() && Agrees(r, Proc(old(s.Remaining())), ProcMeaning, s.Remaining())
  {
    var result := GetProcType(s);
    if result == None {
      return None;
    }
    var name := s.ScanIdent();
    if name == None {
      return None;
    }
    var ok := s.Scan(LParen);
    if !ok {
      return None;
    }
    var arg := GetProcType(s);
    if arg == None {
      return None;
    }
    var num := GetProcEnd(s);
    r := if num == None then None else Some(ProcTree(result.value, name.value, arg.value, num.value));
  }

  method GetProcs(s: Scanner) returns (r: Option<seq<ProcTree>>)
    requires s.Valid()
    modifies s
    ensures s.Valid()
            && Agrees(r, Procs(old(s.Remaining())), (ps: seq<ProcSyntax>) => Each(ProcMeaning, ps), s.Remaining())
  {
    var procs: seq<ProcTree> := [];
    ghost var done: seq<ProcSyntax> := [];
    ghost var all := Procs(s.Remaining());
    OntoStep(done, ProcSyntax(UnsignedChar, "", UnsignedChar, ""), all);
    while true
      invariant s.Valid() && procs == Each(ProcMeaning, done) && all == Onto(done, Procs(s.Remaining()))
      decreases Length(s.Remaining())
    {
      ghost var ts := s.Remaining();
      ProcShrinks(ts);
      ghost var p := Proc(ts);
      var one := GetProc(s);
      if one == None {
        return None;
      }
      var tok := s.Peek();
      OntoStep(done, p.value, Procs(s.Remaining()));
      EachMore(ProcMeaning, done, p.value);
      procs, done := procs + [one.value], done + [p.value];
      if tok == RBrace {
        tok := s.GetToken();
        return Some(procs);
      }
    }
  }

  method GetVersion(s: Scanner) returns (r: Option<VersionTree>)
    requires s.Valid()
    modifies s
    ensures s.Valid() && Agrees(r, Version(old(s.Remaining())), VersionMeaning, s.Remaining())
  {
    var name := s.ScanIdent();
    if name == None {
      return None;
    }
    var ok := s.Scan(LBrace);
    if !ok {
      return None;
    }
    var procs := GetProcs(s);
    if procs == None {
      return None;
    }
    ok := s.Scan(Equal);
    if !ok {
      return None;
    }
    var num := s.ScanIdent();
    if num == None {
      return None;
    }
    ok := s.Scan(Semicolon);
    r := if ok then Some(VersionTree(name.value, procs.value, num.value)) else None;
  }

  method GetVersions(s: Scanner) returns (r: Option<seq<VersionTree>>)
    requires s.Valid()
    modifies s
    ensures s.Valid()
            && Agrees(r, Versions(old(s.Remaining())), (vs: seq<VersionSyntax>) => Each(VersionMeaning, vs),
                      s.Remaining())
  {
    var versions: seq<VersionTree> := [];
    ghost var done: seq<VersionSyntax> := [];
    ghost var all := Versions(s.Remaining());
    OntoStep(done, VersionSyntax("", [], ""), all);
    var tok := KwVersion;
    while tok == KwVersion
      invariant s.Valid() && versions == Each(VersionMeaning, done) && tok in {KwVersion, RBrace}
      invariant tok == KwVersion ==> all == Onto(done, Versions(s.Remaining()))
      invariant tok == RBrace ==> all == Parsed(done, s.Remaining())
      decreases if tok == KwVersion then 1 + Length(s.Remaining()) else 0
    {
      ghost var ts := s.Remaining();
      VersionShrinks(ts);
      ghost var v := Version(ts);
      var one := GetVersion(s);
      if one == None {
        return None;
      }
      OntoStep(done, v.value, Versions(Skip(s.Remaining())));
      EachMore(VersionMeaning, done, v.value);
      tok := s.GetToken();
      versions, done := versions + [one.value], done + [v.value];
      if tok != KwVersion && tok != RBrace {
        return None;
      }
    }
    r := Some(versions);
  }

  method DefStruct(s: Scanner) returns (r: Option<Definition>)
    requires s.Valid()
    modifies s
    ensures s.Valid() && Agrees(r, StructBody(old(s.Remaining())), DefMeaning, s.Remaining())
  {
    var name := s.ScanIdent();
    if name == None {
      return None;
    }
    var ok := s.Scan(LBrace);
    if !ok {
      return None;
    }
    var decls := GetMembers(s);
    r := if decls == None then None else Some(StructDef(name.value, decls.value));
  }

  method GetUnionHead(s: Scanner) returns (r: Option<(string, Declaration)>)
    requires s.Valid()
    modifies s
    ensures s.Valid()
            && Agrees(r, UnionHead(old(s.Remaining())), (h: (string, DeclSyntax)) => (h.0, DeclMeaning(h.1)),
                      s.Remaining())
  {
    var name := s.ScanIdent();
    if name == None {
      return None;
    }
    var ok := s.Scan(KwSwitch);
    if !ok {
      return None;
    }
    ok := s.Scan(LParen);
    if !ok {
      return None;
    }
    var enumDecl := GetDeclaration(s, InUnion);
    if enumDecl == None {
      return None;
    }
    ok := s.Scan(RParen);
    if !ok {
      return None;
    }
    ok := s.Scan(LBrace);
    if !ok {
      return None;
    }
    ok := s.Scan(KwCase);
    r := if ok then Some((name.value, enumDecl.value)) else None;
  }

  method DefUnion(s: Scanner) returns (r: Option<Definition>)
    requires s.Valid()
    modifies s
    ensures s.Valid() && Agrees(r, UnionBody(old(s.Remaining())), DefMeaning, s.Remaining())
  {
    var head := GetUnionHead(s);
    if head == None {
      return None;
    }
    var arms := GetUnionArms(s);
    r := if arms == None then None else Some(UnionDef(head.value.0, head.value.1, arms.value.0, arms.value.1));
  }

  ghost function ArmsMeaning(a: (seq<CaseSyntax>, Option<DeclSyntax>)): (seq<CaseTree>, Option<Declaration>) {
    (Each(CaseMeaning, a.0), DefaultMeaning(a.1))
  }

  method GetUnionArms(s: Scanner) returns (r: Option<(seq<CaseTree>, Option<Declaration>)>)
    requires s.Valid()
    modifies s
    ensures s.Valid() && Agrees(r, Arms(old(s.Remaining())), ArmsMeaning, s.Remaining())
  {
    ghost var all := Cases(s.Remaining());
    var cases, tok := GetCases(s);
    if cases == None {
      return None;
    }
    assert all.rest == Cons(tok, s.Remaining());
    var dflt := GetDefault(s, tok);
    r := if dflt == None then None else Some((cases.value, dflt.value));
  }

  method DefEnum(s: Scanner) returns (r: Option<Definition>)
    requires s.Valid()
    modifies s
    ensures s.Valid() && Agrees(r, EnumBody(old(s.Remaining())), DefMeaning, s.Remaining())
  {
    var name := s.ScanIdent();
    if name == None {
      return None;
    }
    var ok := s.Scan(LBrace);
    if !ok {
      return None;
    }
    var vals := GetVals(s);
    r := if vals == None then None else Some(EnumDef(name.value, vals.value));
  }

  method DefConst(s: Scanner) returns (r: Option<Definition>)
    requires s.Valid()
    modifies s
    ensures s.Valid() && Agrees(r, ConstBody(old(s.Remaining())), DefMeaning, s.Remaining())
  {
    r := None;
    var name := s.ScanIdent();
    if name == None {
      return None;
    }
    var ok := s.Scan(Equal);
    if !ok {
      return None;
    }
    var tok := s.GetToken();
    match tok {
      case Ident(n) => r := Some(ConstDef(name.value, Symbol(n)));
      case StrConst(text) => r := Some(ConstDef(name.value, Quoted(text)));
      case _ =>
    }
  }

  method DefTypedef(s: Scanner) returns (r: Option<Definition>)
    requires s.Valid()
    modifies s
    ensures s.Valid() && Agrees(r, TypedefBody(old(s.Remaining())), DefMeaning, s.Remaining())
  {
    var decl := GetDeclaration(s, InTypedef);
    r := if decl == None then None else Some(TypedefDef(decl.value));
  }

  method DefProgram(s: Scanner) returns (r: Option<Definition>)
    requires s.Valid()
    modifies s
    ensures s.Valid() && Agrees(r, ProgramBody(old(s.Remaining())), DefMeaning, s.Remaining())
  {
    var name := s.ScanIdent();
    if name == None {
      return None;
    }
    var ok := s.Scan(LBrace);
    if !ok {
      return None;
    }
    ok := s.Scan(KwVersion);
    if !ok {
      return None;
    }
    var versions := GetVersions(s);
    if versions == None {
      return None;
    }
    ok := s.Scan(Equal);
    if !ok {
      return None;
    }
    var num := s.ScanIdent();
    r := if num == None then None else Some(ProgramDef(name.value, versions.value, num.value));
  }

  method DefBody(s: Scanner, keyword: Token) returns (r: Option<Definition>)
    requires s.Valid()
    modifies s
    ensures s.Valid() && Agrees(r, Body(keyword, old(s.Remaining())), DefMeaning, s.Remaining())
  {
    match keyword {
      case KwStruct => r := DefStruct(s);
      case KwUnion => r := DefUnion(s);
      case KwTypedef => r := DefTypedef(s);
      case KwEnum => r := DefEnum(s);
      case KwProgram => r := DefProgram(s);
      case KwConst => r := DefConst(s);
      case _ => r := None;
    }
  }

  datatype Reading = EndOfInput | Malformed | Read(def: Definition)

  /** The next definition: the one the grammar finds there, with the tokens behind it left alone. */
  method GetDefinition(s: Scanner) returns (r: Reading)
    requires s.Valid()
    modifies s
    ensures s.Valid()
    ensures r == EndOfInput <==> old(s.Remaining()) == Done
    ensures var d := Define(old(s.Remaining()));
            match r
            case Read(def) => d.Parsed? && def == DefMeaning(d.value) && s.Remaining() == d.rest
            case _ => d.Fail?
  {
    var tok := s.GetToken();
    if tok == Eof {
      return EndOfInput;
    }
    var def := DefBody(s, tok);
    if def == None {
      return Malformed;
    }
    var ok := s.Scan(Semicolon);
    r := if ok then Read(def.value) else Malformed;
  }

  /** The driver's loop: every definition of the input, or nothing if one of them is malformed. */
  method ReadFile(s: Scanner) returns (r: Option<seq<Definition>>)
    requires s.Valid()
    modifies s
    ensures r == Translate(File(old(s.Remaining())))
  {
    var defs: seq<Definition> := [];
    ghost var done: seq<DefSyntax> := [];
    ghost var all := File(s.Remaining());
    InFrontStep(done, ConstSyntax("", Symbol("")), all);
    while true
      invariant s.Valid() && defs == Each(DefMeaning, done) && all == InFront(done, File(s.Remaining()))
      decreases Length(s.Remaining())
    {
      ghost var ts := s.Remaining();
      DefineShrinks(ts);
      ghost var d := Define(ts);
      var def := GetDefinition(s);
      match def {
        case EndOfInput =>
          assert done + [] == done;
          return Some(defs);
        case Malformed =>
          return None;
        case Read(one) =>
          InFrontStep(done, d.value, File(s.Remaining()));
          EachMore(DefMeaning, done, d.value);
          defs, done := defs + [one], done + [d.value];
      }
    }
  }

  ghost function Translate(ds: Option<seq<DefSyntax>>): Option<seq<Definition>> {
    if ds == None then None else Some(Each(DefMeaning, ds.value))
  }

  ghost function InFront(done: seq<DefSyntax>, r: Option<seq<DefSyntax>>): Option<seq<DefSyntax>> {
    if r == None then r else Some(done + r.value)
  }

  lemma {:induction false} InFrontStep(done: seq<DefSyntax>, d: DefSyntax, r: Option<seq<DefSyntax>>)
    ensures InFront(done, InFront([d], r)) == InFront(done + [d], r) && InFront([], r) == r
  {
    if r.Some? {
      assert done + ([d] + r.value) == done + [d] + r.value;
      assert [] + r.value == r.value;
    }
  }
}
