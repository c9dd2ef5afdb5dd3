/**
 * What the parser makes of a sequence of tokens, one function for each of its procedures; and
 * that it accepts the spellings of definitions, all of them, and nothing else.
 */
module RpcGrammar {
  import opened Bytes
  import opened RpcSyntax

  datatype Parsed<+T> = Fail | Parsed(value: T, rest: Tokens) {
    predicate IsFailure() {
      Fail?
    }

    function PropagateFailure<U>(): Parsed<U>
      requires Fail?
    {
      Fail
    }

    function Extract(): (T, Tokens)
      requires Parsed?
    {
      (value, rest)
    }
  }

  /** The next token; at the end of the input there is an endless supply of `Eof`. */
  function Next(ts: Tokens): Token {
    if ts.Done? then Eof else ts.head
  }

  function Skip(ts: Tokens): Tokens {
    if ts.Done? then ts else ts.tail
  }

  /** `scan` for one kind of token that carries no text. */
  function Eat(t: Token, ts: Tokens): (r: Parsed<Token>)
    ensures r.Parsed? ==> ts == Cons(t, r.rest)
  {
    if ts.Cons? && ts.head == t then Parsed(t, ts.tail) else Fail
  }

  /** `scan` for an identifier, or for a constant, which the scanner classes with them. */
  function EatIdent(ts: Tokens): (r: Parsed<string>)
    ensures r.Parsed? ==> ts == Cons(Ident(r.value), r.rest)
  {
    if ts.Cons? && ts.head.Ident? then Parsed(ts.head.name, ts.tail) else Fail
  }

  /** An `int` that may follow `short` or `long`. */
  function OptionalInt(ts: Tokens): (r: Parsed<bool>)
    ensures r.Parsed? && ts == OptInt(r.value, r.rest)
  {
    if Next(ts) == KwInt then Parsed(true, ts.tail) else Parsed(false, ts)
  }

  function UnsignedType(ts: Tokens): (r: Parsed<TypeSyntax>)
    ensures r.Parsed?
  {
    match Next(ts)
    case KwChar => Parsed(UnsignedChar, ts.tail)
    case KwShort => var i := OptionalInt(ts.tail); Parsed(UnsignedShort(i.value), i.rest)
    case KwLong => var i := OptionalInt(ts.tail); Parsed(UnsignedLong(i.value), i.rest)
    case KwInt => Parsed(Unsigned(true), ts.tail)
    case _ => Parsed(Unsigned(false), ts)
  }

  function TaggedType(tag: Tag, ts: Tokens): Parsed<TypeSyntax> {
    var (name, ts1) :- EatIdent(ts);
    Parsed(Tagged(tag, name), ts1)
  }

  function Type(p: Place, ts: Tokens): Parsed<TypeSyntax> {
    match Next(ts)
    case Ident(name) => Parsed(Ref(name), ts.tail)
    case KwStruct => TaggedType(StructTag, ts.tail)
    case KwEnum => TaggedType(EnumTag, ts.tail)
    case KwUnion => TaggedType(UnionTag, ts.tail)
    case KwUnsigned => UnsignedType(ts.tail)
    case KwShort => var i := OptionalInt(ts.tail); Parsed(Short(i.value), i.rest)
    case KwLong => var i := OptionalInt(ts.tail); Parsed(Long(i.value), i.rest)
    case KwVoid => if p == InUnion || p == InProgram then Parsed(Plain(KwVoid), ts.tail) else Fail
    case w => if PlainWord(w) then Parsed(Plain(w), ts.tail) else Fail
  }

  /** What may follow the name in a declaration; arrays of pointers are refused. */
  function Suffix(star: bool, ts: Tokens): Parsed<Shape> {
    if Next(ts) == LBracket then
      if star then Fail else
        var (n, ts1) :- EatIdent(ts.tail);
        var (_, ts2) :- Eat(RBracket, ts1);
        Parsed(Fixed(n), ts2)
    else if Next(ts) == LAngle then
      if star then Fail
      else if Next(ts.tail) == RAngle then Parsed(Unbounded, ts.tail.tail)
      else
        var (n, ts1) :- EatIdent(ts.tail);
        var (_, ts2) :- Eat(RAngle, ts1);
        Parsed(Bounded(n), ts2)
    else Parsed(if star then Pointer else Alias, ts)
  }

  function Named(t: TypeSyntax, ts: Tokens): Parsed<DeclSyntax> {
    var star := Next(ts) == Star;
    var (name, ts1) :- EatIdent(if star then ts.tail else ts);
    var (shape, ts2) :- Suffix(star, ts1);
    if ShapeOk(t, shape) then Parsed(Decl(t, name, shape), ts2) else Fail
  }

  function Declare(p: Place, ts: Tokens): Parsed<DeclSyntax> {
    var (t, ts1) :- Type(p, ts);
    if t == Plain(KwVoid) then Parsed(Nothing, ts1) else Named(t, ts1)
  }

  function Left<T>(r: Parsed<T>): Tokens {
    if r.Parsed? then r.rest else Done
  }

  lemma {:induction false} EatShrinks(t: Token, ts: Tokens)
    ensures Eat(t, ts).Parsed? ==> Length(Eat(t, ts).rest) < Length(ts)
    ensures EatIdent(ts).Parsed? ==> Length(EatIdent(ts).rest) < Length(ts)
    ensures Length(Skip(ts)) <= Length(ts)
  {
  }

  lemma {:induction false} TypeShrinks(p: Place, ts: Tokens)
    ensures Type(p, ts).Parsed? ==> Length(Type(p, ts).rest) < Length(ts)
  {
  }

  lemma {:induction false} SuffixShrinks(star: bool, ts: Tokens)
    ensures Suffix(star, ts).Parsed? ==> Length(Suffix(star, ts).rest) <= Length(ts)
  {
    if ts.Cons? {
      EatShrinks(RAngle, ts.tail);
      EatShrinks(RAngle, Left(EatIdent(ts.tail)));
      EatShrinks(RBracket, Left(EatIdent(ts.tail)));
    }
  }

  lemma {:induction false} NamedShrinks(t: TypeSyntax, ts: Tokens)
    ensures Named(t, ts).Parsed? ==> Length(Named(t, ts).rest) < Length(ts)
  {
    if Named(t, ts).Parsed? {
      var star := Next(ts) == Star;
      var ts1 := if star then ts.tail else ts;
      EatShrinks(Star, ts);
      EatShrinks(Star, ts1);
      SuffixShrinks(star, EatIdent(ts1).rest);
    }
  }

  lemma {:induction false} DeclareShrinks(p: Place, ts: Tokens)
    ensures Declare(p, ts).Parsed? ==> Length(Declare(p, ts).rest) < Length(ts)
  {
    TypeShrinks(p, ts);
    var t := Type(p, ts);
    if t.Parsed? {
      NamedShrinks(t.value, t.rest);
    }
  }

  /** The members of a structure, to the closing brace. */
  function Members(ts: Tokens): Parsed<seq<DeclSyntax>>
    decreases Length(ts)
  {
    DeclareShrinks(InStruct, ts);
    var (d, ts1) :- Declare(InStruct, ts);
    var (_, ts2) :- Eat(Semicolon, ts1);
    if Next(ts2) == RBrace then Parsed([d], ts2.tail) else
      var (ds, ts3) :- Members(ts2);
      Parsed([d] + ds, ts3)
  }

  /** One case, from after `case`. */
  function Case(ts: Tokens): Parsed<CaseSyntax> {
    var (v, ts1) :- EatIdent(ts);
    var (_, ts2) :- Eat(Colon, ts1);
    var (d, ts3) :- Declare(InUnion, ts2);
    var (_, ts4) :- Eat(Semicolon, ts3);
    Parsed(CaseSyntax(v, d), ts4)
  }

  lemma {:induction false} CaseShrinks(ts: Tokens)
    ensures Case(ts).Parsed? ==> Length(Case(ts).rest) < Length(ts)
  {
    if Case(ts).Parsed? {
      EatShrinks(Colon, ts);
      var ts1 := EatIdent(ts).rest;
      EatShrinks(Colon, ts1);
      var ts2 := Eat(Colon, ts1).rest;
      DeclareShrinks(InUnion, ts2);
      EatShrinks(Semicolon, Declare(InUnion, ts2).rest);
    }
  }

  /** The cases of a union, from after the first `case` to before what follows the last. */
  function Cases(ts: Tokens): Parsed<seq<CaseSyntax>>
    decreases Length(ts)
  {
    CaseShrinks(ts);
    var (c, ts1) :- Case(ts);
    if Next(ts1) != KwCase then Parsed([c], ts1) else
      var (cs, ts2) :- Cases(ts1.tail);
      Parsed([c] + cs, ts2)
  }

  /** A default, from after `default`, and the closing brace. */
  function DefaultBody(ts: Tokens): Parsed<DeclSyntax> {
    var (_, ts1) :- Eat(Colon, ts);
    var (d, ts2) :- Declare(InUnion, ts1);
    var (_, ts3) :- Eat(Semicolon, ts2);
    var (_, ts4) :- Eat(RBrace, ts3);
    Parsed(d, ts4)
  }

  /** A default, if there is one, and the closing brace. */
  function Default(ts: Tokens): Parsed<Option<DeclSyntax>> {
    if Next(ts) == KwDefault then
      var (d, ts1) :- DefaultBody(ts.tail);
      Parsed(Some(d), ts1)
    else
      var (_, ts1) :- Eat(RBrace, ts);
      Parsed(None, ts1)
  }

  function Val(ts: Tokens): Parsed<EnumVal> {
    var (name, ts1) :- EatIdent(ts);
    if Next(ts1) != Equal then Parsed(EnumVal(name, None), ts1) else
      var (n, ts2) :- EatIdent(ts1.tail);
      Parsed(EnumVal(name, Some(n)), ts2)
  }

  lemma {:induction false} ValShrinks(ts: Tokens)
    ensures Val(ts).Parsed? ==> Length(Val(ts).rest) < Length(ts)
  {
    if Val(ts).Parsed? {
      var name := EatIdent(ts);
      EatShrinks(Equal, ts);
      EatShrinks(Equal, name.rest);
      EatShrinks(Equal, Skip(name.rest));
    }
  }

  /** The values of an enumeration, to the closing brace. */
  function Vals(ts: Tokens): Parsed<seq<EnumVal>>
    decreases Length(ts)
  {
    ValShrinks(ts);
    var (v, ts1) :- Val(ts);
    if Next(ts1) == RBrace then Parsed([v], ts1.tail) else
      var (_, ts2) :- Eat(Comma, ts1);
      var (vs, ts3) :- Vals(ts2);
      Parsed([v] + vs, ts3)
  }

  /** The end of a procedure: a parenthesis, `=`, its number and a semicolon. */
  function ProcEnd(ts: Tokens): Parsed<string> {
    var (_, ts1) :- Eat(RParen, ts);
    var (_, ts2) :- Eat(Equal, ts1);
    var (num, ts3) :- EatIdent(ts2);
    var (_, ts4) :- Eat(Semicolon, ts3);
    Parsed(num, ts4)
  }

  function Proc(ts: Tokens): Parsed<ProcSyntax> {
    var (result, ts1) :- Type(InProgram, ts);
    var (name, ts2) :- EatIdent(ts1);
    var (_, ts3) :- Eat(LParen, ts2);
    var (arg, ts4) :- Type(InProgram, ts3);
    var (num, ts5) :- ProcEnd(ts4);
    if result == Plain(KwOpaque) || arg == Plain(KwOpaque) then Fail
    else Parsed(ProcSyntax(result, name, arg, num), ts5)
  }

  lemma {:induction false} ProcEndShrinks(ts: Tokens)
    ensures ProcEnd(ts).Parsed? ==> Length(ProcEnd(ts).rest) < Length(ts)
  {
    EatShrinks(RParen, ts);
    var ts1 := Left(Eat(RParen, ts));
    EatShrinks(Equal, ts1);
    var ts2 := Left(Eat(Equal, ts1));
    EatShrinks(Equal, ts2);
    EatShrinks(Semicolon, Left(EatIdent(ts2)));
  }

  lemma {:induction false} ProcShrinks(ts: Tokens)
    ensures Proc(ts).Parsed? ==> Length(Proc(ts).rest) < Length(ts)
  {
    if Proc(ts).Parsed? {
      TypeShrinks(InProgram, ts);
      var ts1 := Type(InProgram, ts).rest;
      EatShrinks(LParen, ts1);
      var ts2 := EatIdent(ts1).rest;
      EatShrinks(LParen, ts2);
      var ts3 := Eat(LParen, ts2).rest;
      TypeShrinks(InProgram, ts3);
      ProcEndShrinks(Type(InProgram, ts3).rest);
    }
  }

  /** The procedures of a version, to the closing brace. */
  function Procs(ts: Tokens): Parsed<seq<ProcSyntax>>
    decreases Length(ts)
  {
    ProcShrinks(ts);
    var (p, ts1) :- Proc(ts);
    if Next(ts1) == RBrace then Parsed([p], ts1.tail) else
      var (ps, ts2) :- Procs(ts1);
      Parsed([p] + ps, ts2)
  }

  /** One version, from after `version`. */
  function Version(ts: Tokens): Parsed<VersionSyntax> {
    var (name, ts1) :- EatIdent(ts);
    var (_, ts2) :- Eat(LBrace, ts1);
    var (ps, ts3) :- Procs(ts2);
    var (_, ts4) :- Eat(Equal, ts3);
    var (num, ts5) :- EatIdent(ts4);
    var (_, ts6) :- Eat(Semicolon, ts5);
    Parsed(VersionSyntax(name, ps, num), ts6)
  }

  lemma {:induction false} ProcsShrinks(ts: Tokens)
    ensures Procs(ts).Parsed? ==> Length(Procs(ts).rest) < Length(ts)
    decreases Length(ts)
  {
    ProcShrinks(ts);
    if Proc(ts).Parsed? {
      ProcsShrinks(Proc(ts).rest);
    }
  }

  lemma {:induction false} VersionShrinks(ts: Tokens)
    ensures Version(ts).Parsed? ==> Length(Version(ts).rest) < Length(ts)
  {
    if Version(ts).Parsed? {
      EatShrinks(LBrace, ts);
      var ts1 := EatIdent(ts).rest;
      EatShrinks(LBrace, ts1);
      var ts2 := Eat(LBrace, ts1).rest;
      ProcsShrinks(ts2);
      var ts3 := Procs(ts2).rest;
      EatShrinks(Equal, ts3);
      var ts4 := Eat(Equal, ts3).rest;
      EatShrinks(Equal, ts4);
      EatShrinks(Semicolon, EatIdent(ts4).rest);
    }
  }

  /** The versions of a program, from after the first `version` to the closing brace. */
  function Versions(ts: Tokens): Parsed<seq<VersionSyntax>>
    decreases Length(ts)
  {
    VersionShrinks(ts);
    var (v, ts1) :- Version(ts);
    if Next(ts1) == RBrace then Parsed([v], ts1.tail) else
      var (_, ts2) :- Eat(KwVersion, ts1);
      var (vs, ts3) :- Versions(ts2);
      Parsed([v] + vs, ts3)
  }

  function StructBody(ts: Tokens): Parsed<DefSyntax> {
    var (name, ts1) :- EatIdent(ts);
    var (_, ts2) :- Eat(LBrace, ts1);
    var (ds, ts3) :- Members(ts2);
    Parsed(StructSyntax(name, ds), ts3)
  }

  /** The name and the discriminant of a union, to after the first `case`. */
  function UnionHead(ts: Tokens): Parsed<(string, DeclSyntax)> {
    var (name, ts1) :- EatIdent(ts);
    var (_, ts2) :- Eat(KwSwitch, ts1);
    var (_, ts3) :- Eat(LParen, ts2);
    var (e, ts4) :- Declare(InUnion, ts3);
    var (_, ts5) :- Eat(RParen, ts4);
    var (_, ts6) :- Eat(LBrace, ts5);
    var (_, ts7) :- Eat(KwCase, ts6);
    Parsed((name, e), ts7)
  }

  /** Cases and then perhaps a default, from after the first `case`. */
  function Arms(ts: Tokens): Parsed<(seq<CaseSyntax>, Option<DeclSyntax>)> {
    var (cs, ts1) :- Cases(ts);
    var (dflt, ts2) :- Default(ts1);
    Parsed((cs, dflt), ts2)
  }

  function UnionBody(ts: Tokens): Parsed<DefSyntax> {
    var (head, ts1) :- UnionHead(ts);
    var (arms, ts2) :- Arms(ts1);
    Parsed(UnionSyntax(head.0, head.1, arms.0, arms.1), ts2)
  }

  function EnumBody(ts: Tokens): Parsed<DefSyntax> {
    var (name, ts1) :- EatIdent(ts);
    var (_, ts2) :- Eat(LBrace, ts1);
    var (vs, ts3) :- Vals(ts2);
    Parsed(EnumSyntax(name, vs), ts3)
  }

  function ConstBody(ts: Tokens): Parsed<DefSyntax> {
    var (name, ts1) :- EatIdent(ts);
    var (_, ts2) :- Eat(Equal, ts1);
    match Next(ts2)
    case Ident(n) => Parsed(ConstSyntax(name, Symbol(n)), ts2.tail)
    case StrConst(s) => Parsed(ConstSyntax(name, Quoted(s)), ts2.tail)
    case _ => Fail
  }

  function TypedefBody(ts: Tokens): Parsed<DefSyntax> {
    var (d, ts1) :- Declare(InTypedef, ts);
    Parsed(TypedefSyntax(d), ts1)
  }

  function ProgramBody(ts: Tokens): Parsed<DefSyntax> {
    var (name, ts1) :- EatIdent(ts);
    var (_, ts2) :- Eat(LBrace, ts1);
    var (_, ts3) :- Eat(KwVersion, ts2);
    var (vs, ts4) :- Versions(ts3);
    var (_, ts5) :- Eat(Equal, ts4);
    var (num, ts6) :- EatIdent(ts5);
    Parsed(ProgramSyntax(name, vs, num), ts6)
  }

  function Body(keyword: Token, ts: Tokens): Parsed<DefSyntax> {
    match keyword
    case KwStruct => StructBody(ts)
    case KwUnion => UnionBody(ts)
    case KwTypedef => TypedefBody(ts)
    case KwEnum => EnumBody(ts)
    case KwProgram => ProgramBody(ts)
    case KwConst => ConstBody(ts)
    case _ => Fail
  }

  /** One definition. */
  function Define(ts: Tokens): Parsed<DefSyntax> {
    if ts.Done? then Fail else
      var (d, ts1) :- Body(ts.head, ts.tail);
      var (_, ts2) :- Eat(Semicolon, ts1);
      Parsed(d, ts2)
  }
}
