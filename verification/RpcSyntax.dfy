/**
 * The language of protocol definitions: tokens, the spellings of a definition, and the trees the
 * compiler builds. A spelling keeps what the tree forgets, such as `int` after `unsigned`.
 */
module RpcSyntax {
  import opened Bytes

  datatype Token =
    | Ident(name: string)         // identifiers and numbers alike
    | StrConst(text: string)
    | LParen | RParen | LBrace | RBrace | LBracket | RBracket | LAngle | RAngle
    | Star | Comma | Equal | Colon | Semicolon
    | KwConst | KwStruct | KwUnion | KwSwitch | KwCase | KwDefault | KwEnum | KwTypedef
    | KwInt | KwShort | KwLong | KwUnsigned | KwFloat | KwDouble | KwOpaque | KwChar
    | KwString | KwBool | KwVoid | KwProgram | KwVersion
    | Eof

  /** What is left of the input. */
  datatype Tokens = Done | Cons(head: Token, tail: Tokens)

  function Length(ts: Tokens): nat {
    if ts.Done? then 0 else 1 + Length(ts.tail)
  }

  datatype Tag = StructTag | EnumTag | UnionTag

  /** The kind of definition a declaration stands in. */
  datatype Place = InStruct | InUnion | InTypedef | InProgram

  // ---------------------------------------------------------------- trees

  datatype TypeName =
    | Defined(name: string)
    | TVoid | TString | TOpaque | TChar | TInt | TFloat | TDouble | TBool
    | TShort | TLong | TUChar | TUShort | TUInt | TULong

  /** `prefix` and `type` of a declaration. */
  datatype TypeRef = TypeRef(tag: Option<Tag>, name: TypeName)

  datatype Relation = RelVector | RelArray | RelPointer | RelAlias

  /** `array_max`; a missing limit becomes `~0`. */
  datatype Limit = Size(name: string) | Unlimited

  datatype Declaration = Declaration(tref: TypeRef, name: Option<string>, rel: Relation, max: Option<Limit>)

  datatype CaseTree = CaseTree(value: string, decl: Declaration)

  datatype ProcTree = ProcTree(result: TypeRef, name: string, arg: TypeRef, num: string)

  datatype VersionTree = VersionTree(name: string, procs: seq<ProcTree>, num: string)

  datatype EnumVal = EnumVal(name: string, assignment: Option<string>)

  datatype Constant = Symbol(name: string) | Quoted(text: string)

  datatype Definition =
    | StructDef(name: string, decls: seq<Declaration>)
    | UnionDef(name: string, enumDecl: Declaration, cases: seq<CaseTree>, dflt: Option<Declaration>)
    | EnumDef(name: string, vals: seq<EnumVal>)
    | ConstDef(name: string, value: Constant)
    | TypedefDef(decl: Declaration)
    | ProgramDef(name: string, versions: seq<VersionTree>, num: string)

  // ---------------------------------------------------------------- spellings

  datatype TypeSyntax =
    | Plain(word: Token)
    | Ref(name: string)
    | Tagged(tag: Tag, name: string)
    | Short(withInt: bool)
    | Long(withInt: bool)
    | Unsigned(withInt: bool)
    | UnsignedChar
    | UnsignedShort(withInt: bool)
    | UnsignedLong(withInt: bool)

  datatype Shape = Alias | Pointer | Fixed(size: string) | Bounded(max: string) | Unbounded

  datatype DeclSyntax = Nothing | Decl(spec: TypeSyntax, name: string, shape: Shape)

  datatype CaseSyntax = CaseSyntax(value: string, decl: DeclSyntax)

  datatype ProcSyntax = ProcSyntax(result: TypeSyntax, name: string, arg: TypeSyntax, num: string)

  datatype VersionSyntax = VersionSyntax(name: string, procs: seq<ProcSyntax>, num: string)

  datatype DefSyntax =
    | StructSyntax(name: string, decls: seq<DeclSyntax>)
    | UnionSyntax(name: string, enumDecl: DeclSyntax, cases: seq<CaseSyntax>, dflt: Option<DeclSyntax>)
    | EnumSyntax(name: string, vals: seq<EnumVal>)
    | ConstSyntax(name: string, value: Constant)
    | TypedefSyntax(decl: DeclSyntax)
    | ProgramSyntax(name: string, versions: seq<VersionSyntax>, num: string)

  // ---------------------------------------------------------------- which spellings are allowed

  predicate PlainWord(t: Token) {
    t in {KwVoid, KwString, KwOpaque, KwChar, KwInt, KwFloat, KwDouble, KwBool}
  }

  /** Voids stand only in unions and programs. */
  predicate TypeOk(p: Place, t: TypeSyntax) {
    t.Plain? ==> PlainWord(t.word) && (t.word == KwVoid ==> p == InUnion || p == InProgram)
  }

  /** Opaque data needs an array, a string one of variable length. */
  predicate ShapeOk(t: TypeSyntax, s: Shape) {
    && (t == Plain(KwOpaque) ==> s.Fixed? || s.Bounded? || s.Unbounded?)
    && (t == Plain(KwString) ==> s.Bounded? || s.Unbounded?)
  }

  predicate DeclOk(p: Place, d: DeclSyntax) {
    match d
    case Nothing => p == InUnion
    case Decl(t, _, s) => TypeOk(p, t) && t != Plain(KwVoid) && ShapeOk(t, s)
  }

  predicate ProcOk(p: ProcSyntax) {
    && TypeOk(InProgram, p.result) && p.result != Plain(KwOpaque)
    && TypeOk(InProgram, p.arg) && p.arg != Plain(KwOpaque)
  }

  predicate VersionOk(v: VersionSyntax) {
    v.procs != [] && forall i :: 0 <= i < |v.procs| ==> ProcOk(v.procs[i])
  }

  predicate DefOk(d: DefSyntax) {
    match d
    case StructSyntax(_, ds) => ds != [] && forall i :: 0 <= i < |ds| ==> DeclOk(InStruct, ds[i])
    case UnionSyntax(_, e, cs, dflt) =>
      && DeclOk(InUnion, e) && cs != [] && (forall i :: 0 <= i < |cs| ==> DeclOk(InUnion, cs[i].decl))
      && (dflt.Some? ==> DeclOk(InUnion, dflt.value))
    case EnumSyntax(_, vs) => vs != []
    case ConstSyntax(_, _) => true
    case TypedefSyntax(d) => DeclOk(InTypedef, d)
    case ProgramSyntax(_, vs, _) => vs != [] && forall i :: 0 <= i < |vs| ==> VersionOk(vs[i])
  }

  // ---------------------------------------------------------------- the tokens of a spelling, before others

  function OptInt(withInt: bool, rest: Tokens): Tokens {
    if withInt then Cons(KwInt, rest) else rest
  }

  function TagToken(t: Tag): Token {
    match t
    case StructTag => KwStruct
    case EnumTag => KwEnum
    case UnionTag => KwUnion
  }

  function TypeTokens(t: TypeSyntax, rest: Tokens): Tokens {
    match t
    case Plain(w) => Cons(w, rest)
    case Ref(name) => Cons(Ident(name), rest)
    case Tagged(tag, name) => Cons(TagToken(tag), Cons(Ident(name), rest))
    case Short(withInt) => Cons(KwShort, OptInt(withInt, rest))
    case Long(withInt) => Cons(KwLong, OptInt(withInt, rest))
    case Unsigned(withInt) => Cons(KwUnsigned, OptInt(withInt, rest))
    case UnsignedChar => Cons(KwUnsigned, Cons(KwChar, rest))
    case UnsignedShort(withInt) => Cons(KwUnsigned, Cons(KwShort, OptInt(withInt, rest)))
    case UnsignedLong(withInt) => Cons(KwUnsigned, Cons(KwLong, OptInt(withInt, rest)))
  }

  function NameTokens(name: string, shape: Shape, rest: Tokens): Tokens {
    match shape
    case Alias => Cons(Ident(name), rest)
    case Pointer => Cons(Star, Cons(Ident(name), rest))
    case Fixed(n) => Cons(Ident(name), Cons(LBracket, Cons(Ident(n), Cons(RBracket, rest))))
    case Bounded(n) => Cons(Ident(name), Cons(LAngle, Cons(Ident(n), Cons(RAngle, rest))))
    case Unbounded => Cons(Ident(name), Cons(LAngle, Cons(RAngle, rest)))
  }

  function DeclTokens(d: DeclSyntax, rest: Tokens): Tokens {
    match d
    case Nothing => Cons(KwVoid, rest)
    case Decl(t, name, shape) => TypeTokens(t, NameTokens(name, shape, rest))
  }

  function DeclsTokens(ds: seq<DeclSyntax>, rest: Tokens): Tokens {
    if ds == [] then Cons(RBrace, rest) else DeclTokens(ds[0], Cons(Semicolon, DeclsTokens(ds[1..], rest)))
  }

  function DefaultTokens(dflt: Option<DeclSyntax>, rest: Tokens): Tokens {
    match dflt
    case None => Cons(RBrace, rest)
    case Some(d) => Cons(KwDefault, Cons(Colon, DeclTokens(d, Cons(Semicolon, Cons(RBrace, rest)))))
  }

  function CasesTokens(cs: seq<CaseSyntax>, dflt: Option<DeclSyntax>, rest: Tokens): Tokens {
    if cs == [] then DefaultTokens(dflt, rest) else
      Cons(KwCase, Cons(Ident(cs[0].value), Cons(Colon,
        DeclTokens(cs[0].decl, Cons(Semicolon, CasesTokens(cs[1..], dflt, rest))))))
  }

  function ValTokens(v: EnumVal, rest: Tokens): Tokens {
    match v.assignment
    case None => Cons(Ident(v.name), rest)
    case Some(n) => Cons(Ident(v.name), Cons(Equal, Cons(Ident(n), rest)))
  }

  function ValsTokens(vs: seq<EnumVal>, rest: Tokens): Tokens {
    if vs == [] then Cons(RBrace, rest) else
      ValTokens(vs[0], if |vs| == 1 then Cons(RBrace, rest) else Cons(Comma, ValsTokens(vs[1..], rest)))
  }

  function ProcTokens(p: ProcSyntax, rest: Tokens): Tokens {
    TypeTokens(p.result, Cons(Ident(p.name), Cons(LParen,
      TypeTokens(p.arg, Cons(RParen, Cons(Equal, Cons(Ident(p.num), Cons(Semicolon, rest))))))))
  }

  function ProcsTokens(ps: seq<ProcSyntax>, rest: Tokens): Tokens {
    if ps == [] then Cons(RBrace, rest) else ProcTokens(ps[0], ProcsTokens(ps[1..], rest))
  }

  function VersionsTokens(vs: seq<VersionSyntax>, rest: Tokens): Tokens {
    if vs == [] then Cons(RBrace, rest) else
      Cons(KwVersion, Cons(Ident(vs[0].name), Cons(LBrace,
        ProcsTokens(vs[0].procs, Cons(Equal, Cons(Ident(vs[0].num), Cons(Semicolon, VersionsTokens(vs[1..], rest))))))))
  }

  function ConstantToken(c: Constant): Token {
    match c
    case Symbol(name) => Ident(name)
    case Quoted(text) => StrConst(text)
  }

  function ProgramTokens(name: string, vs: seq<VersionSyntax>, num: string, after: Tokens): Tokens {
    Cons(Ident(name), Cons(LBrace, VersionsTokens(vs, Cons(Equal, Cons(Ident(num), after)))))
  }

  function DefTokens(d: DefSyntax, rest: Tokens): Tokens {
    match d
    case StructSyntax(name, ds) =>
      Cons(KwStruct, Cons(Ident(name), Cons(LBrace, DeclsTokens(ds, Cons(Semicolon, rest)))))
    case UnionSyntax(name, e, cs, dflt) =>
      Cons(KwUnion, Cons(Ident(name), Cons(KwSwitch, Cons(LParen,
        DeclTokens(e, Cons(RParen, Cons(LBrace, CasesTokens(cs, dflt, Cons(Semicolon, rest)))))))))
    case EnumSyntax(name, vs) =>
      Cons(KwEnum, Cons(Ident(name), Cons(LBrace, ValsTokens(vs, Cons(Semicolon, rest)))))
    case ConstSyntax(name, c) =>
      Cons(KwConst, Cons(Ident(name), Cons(Equal, Cons(ConstantToken(c), Cons(Semicolon, rest)))))
    case TypedefSyntax(d) => Cons(KwTypedef, DeclTokens(d, Cons(Semicolon, rest)))
    case ProgramSyntax(name, vs, num) => Cons(KwProgram, ProgramTokens(name, vs, num, Cons(Semicolon, rest)))
  }

  // ---------------------------------------------------------------- the tree of a spelling

  function PlainName(t: Token): TypeName {
    match t
    case KwVoid => TVoid
    case KwString => TString
    case KwOpaque => TOpaque
    case KwChar => TChar
    case KwFloat => TFloat
    case KwDouble => TDouble
    case KwBool => TBool
    case _ => TInt
  }

  /** The unsigned types are kept by names that may also be written out. */
  function TypeNamed(name: string): TypeName {
    if name == "u_char" then TUChar
    else if name == "u_short" then TUShort
    else if name == "u_int" then TUInt
    else if name == "u_long" then TULong
    else Defined(name)
  }

  function TypeMeaning(t: TypeSyntax): TypeRef {
    match t
    case Plain(w) => TypeRef(None, PlainName(w))
    case Ref(name) => TypeRef(None, TypeNamed(name))
    case Tagged(tag, name) => TypeRef(Some(tag), TypeNamed(name))
    case Short(_) => TypeRef(None, TShort)
    case Long(_) => TypeRef(None, TLong)
    case Unsigned(_) => TypeRef(None, TUInt)
    case UnsignedChar => TypeRef(None, TUChar)
    case UnsignedShort(_) => TypeRef(None, TUShort)
    case UnsignedLong(_) => TypeRef(None, TULong)
  }

  function DeclMeaning(d: DeclSyntax): Declaration {
    match d
    case Nothing => Declaration(TypeRef(None, TVoid), None, RelAlias, None)
    case Decl(t, name, Alias) => Declaration(TypeMeaning(t), Some(name), RelAlias, None)
    case Decl(t, name, Pointer) => Declaration(TypeMeaning(t), Some(name), RelPointer, None)
    case Decl(t, name, Fixed(n)) => Declaration(TypeMeaning(t), Some(name), RelVector, Some(Size(n)))
    case Decl(t, name, Bounded(n)) => Declaration(TypeMeaning(t), Some(name), RelArray, Some(Size(n)))
    case Decl(t, name, Unbounded) => Declaration(TypeMeaning(t), Some(name), RelArray, Some(Unlimited))
  }

  function DefaultMeaning(d: Option<DeclSyntax>): Option<Declaration> {
    if d == None then None else Some(DeclMeaning(d.value))
  }

  function CaseMeaning(c: CaseSyntax): CaseTree {
    CaseTree(c.value, DeclMeaning(c.decl))
  }

  function ProcMeaning(p: ProcSyntax): ProcTree {
    ProcTree(TypeMeaning(p.result), p.name, TypeMeaning(p.arg), p.num)
  }

  function Each<A, B>(f: A -> B, s: seq<A>): seq<B> {
    seq(|s|, i requires 0 <= i < |s| => f(s[i]))
  }

  function VersionMeaning(v: VersionSyntax): VersionTree {
    VersionTree(v.name, Each(ProcMeaning, v.procs), v.num)
  }

  function DefMeaning(d: DefSyntax): Definition {
    match d
    case StructSyntax(name, ds) => StructDef(name, Each(DeclMeaning, ds))
    case UnionSyntax(name, e, cs, dflt) =>
      UnionDef(name, DeclMeaning(e), Each(CaseMeaning, cs), DefaultMeaning(dflt))
    case EnumSyntax(name, vs) => EnumDef(name, vs)
    case ConstSyntax(name, c) => ConstDef(name, c)
    case TypedefSyntax(d) => TypedefDef(DeclMeaning(d))
    case ProgramSyntax(name, vs, num) => ProgramDef(name, Each(VersionMeaning, vs), num)
  }
}
