/** What the types of a protocol definition mean: a filter for each, as RFC 4506 prescribes. */
module RpcTypes {
  import opened Bytes
  import opened RpcSyntax
  import opened Xdr

  /** The type definitions of a file, in order, and the values of its constants. */
  datatype Program = Program(defs: seq<Definition>, num: string -> int)

  /** Constants and programs are no types. */
  predicate IsType(d: Definition) {
    !d.ConstDef? && !d.ProgramDef?
  }

  function TypeDefs(defs: seq<Definition>): (ts: seq<Definition>)
    ensures forall i :: 0 <= i < |ts| ==> IsType(ts[i])
    ensures |ts| <= |defs|
  {
    if defs == [] then [] else
      var d := defs[|defs| - 1];
      TypeDefs(defs[..|defs| - 1]) + if IsType(d) then [d] else []
  }

  /** The types of a file. `num` is what the C compiler makes of constants and enumerations. */
  function ProgramOf(defs: seq<Definition>, num: string -> int): (p: Program)
    ensures forall i :: 0 <= i < |p.defs| ==> IsType(p.defs[i])
  {
    Program(TypeDefs(defs), num)
  }

  function DefName(d: Definition): string {
    match d
    case TypedefDef(decl) => if decl.name.Some? then decl.name.value else ""
    case _ => d.name
  }

  /** The first definition with a name, or none of them. */
  function IndexOf(defs: seq<Definition>, name: string): (k: nat)
    ensures k <= |defs|
    ensures k < |defs| ==> DefName(defs[k]) == name
  {
    if defs == [] then 0
    else if DefName(defs[0]) == name then 0
    else 1 + IndexOf(defs[1..], name)
  }

  function ScalarOf(t: TypeName): Option<Scalar> {
    match t
    case TShort => Some(Scalar.Short)
    case TUShort => Some(UShort)
    case TInt => Some(Scalar.Long)
    case TLong => Some(Scalar.Long)
    case TUInt => Some(ULong)
    case TULong => Some(ULong)
    case TChar => Some(Char)
    case TUChar => Some(UChar)
    case TBool => Some(Bool)
    case _ => None
  }

  /**
   * The filter of a type by itself. A floating-point object stands for its bits, one word or two.
   * Types that cannot stand by themselves, and unknown names, are out of scope everywhere.
   */
  function BaseFilter(p: Program, t: TypeName): Filter {
    match t
    case Defined(n) => Named(IndexOf(p.defs, n))
    case TFloat => Basic(ULong)
    case TDouble => Vector(2, Basic(ULong))
    case _ =>
      var k := ScalarOf(t);
      if k.Some? then Basic(k.value) else Named(|p.defs|)
  }

  /** A constant where an unsigned count is wanted. */
  function Count(p: Program, max: Option<Limit>): Word {
    match max
    case None => 0
    case Some(Unlimited) => 0xFFFF_FFFF
    case Some(Size(n)) =>
      var i := p.num(n);
      if -TWO_TO_31 <= i < TWO_TO_32 then ToWord(i) else 0
  }

  function DeclFilter(p: Program, d: Declaration): Filter {
    var t, n := d.tref.name, Count(p, d.max);
    match d.rel
    case RelAlias => if t == TVoid then Void else BaseFilter(p, t)
    case RelPointer => Filter.Pointer(BaseFilter(p, t))
    case RelVector => if t == TOpaque then Opaque(n) else Vector(n, BaseFilter(p, t))
    case RelArray =>
      if t == TString then CString(n)
      else if t == TOpaque then CountedBytes(n)
      else Array(n, BaseFilter(p, t))
  }

  function DeclFilters(p: Program, ds: seq<Declaration>): (fs: seq<Filter>)
    ensures |fs| == |ds| && forall i :: 0 <= i < |ds| ==> fs[i] == DeclFilter(p, ds[i])
  {
    if ds == [] then [] else [DeclFilter(p, ds[0])] + DeclFilters(p, ds[1..])
  }

  function Arms(p: Program, cs: seq<CaseTree>): (arms: seq<Arm>)
    ensures |arms| == |cs|
    ensures forall i :: 0 <= i < |cs| ==> arms[i] == Arm(p.num(cs[i].value), DeclFilter(p, cs[i].decl))
  {
    if cs == [] then [] else [Arm(p.num(cs[0].value), DeclFilter(p, cs[0].decl))] + Arms(p, cs[1..])
  }

  function DefaultArm(p: Program, dflt: Option<Declaration>): Option<Filter> {
    if dflt == None then None else Some(DeclFilter(p, dflt.value))
  }

  /** The scalar that a discriminant of type `t` is, seen from definition number `i`. */
  function DiscKind(p: Program, i: nat, t: TypeName): Option<Scalar>
    requires i <= |p.defs|
    decreases i
  {
    if t.Defined? then
      var j := IndexOf(p.defs, t.name);
      if j >= i then None
      else if p.defs[j].EnumDef? then Some(Enum)
      else if p.defs[j].TypedefDef? && p.defs[j].decl.rel == RelAlias then DiscKind(p, j, p.defs[j].decl.tref.name)
      else None
    else ScalarOf(t)
  }

  function DefFilter(p: Program, i: nat): Filter
    requires i < |p.defs|
  {
    match p.defs[i]
    case StructDef(_, ds) => Struct(DeclFilters(p, ds))
    case UnionDef(_, e, cs, dflt) =>
      var k := DiscKind(p, i, e.tref.name);
      Union(if k.Some? then k.value else Enum, Arms(p, cs), DefaultArm(p, dflt))
    case EnumDef(_, _) => Basic(Enum)
    case TypedefDef(d) => DeclFilter(p, d)
    case _ => Void
  }

  function Filters(p: Program): (fs: seq<Filter>)
    ensures |fs| == |p.defs|
    ensures forall i :: 0 <= i < |p.defs| ==> fs[i] == DefFilter(p, i)
  {
    seq(|p.defs|, i requires 0 <= i < |p.defs| => DefFilter(p, i))
  }

  // ---------------------------------------------------------------- what the C compiler demands

  /** A declaration such as the parser lets through, with a name. */
  predicate DeclSane(d: Declaration) {
    && d.name.Some? && d.tref.name != TVoid
    && (d.tref.name == TOpaque ==> d.rel == RelArray || d.rel == RelVector)
    && (d.tref.name == TString ==> d.rel == RelArray)
  }

  predicate ArmSane(d: Declaration) {
    DeclSane(d) || (d.tref.name == TVoid && d.rel == RelAlias)
  }

  /** No two members of a structure have the same name. */
  predicate MembersDistinct(ds: seq<Declaration>) {
    forall i, j :: 0 <= i < j < |ds| ==> ds[i].name != ds[j].name
  }

  predicate DefSane(p: Program, i: nat)
    requires i < |p.defs|
  {
    match p.defs[i]
    case StructDef(_, ds) => (forall k :: 0 <= k < |ds| ==> DeclSane(ds[k])) && MembersDistinct(ds)
    case UnionDef(_, e, cs, dflt) =>
      && DeclSane(e) && e.rel == RelAlias && DiscKind(p, i, e.tref.name).Some?
      && (forall k :: 0 <= k < |cs| ==> ArmSane(cs[k].decl))
      && (dflt.Some? ==> ArmSane(dflt.value))
    case EnumDef(_, _) => true
    case TypedefDef(d) => DeclSane(d)
    case _ => false
  }

  predicate NamesDistinct(defs: seq<Definition>) {
    forall i, j :: 0 <= i < j < |defs| ==> DefName(defs[i]) != DefName(defs[j])
  }

  /**
   * Types are complete before they are embedded, types and members can be told apart by name, and
   * discriminants are integers.
   */
  ghost predicate Compiles(p: Program) {
    && WellFormed(Filters(p)) && NamesDistinct(p.defs)
    && forall i :: 0 <= i < |p.defs| ==> DefSane(p, i)
  }

  ghost function EnvOf(p: Program): Env
    requires Compiles(p)
  {
    Filters(p)
  }

  /** What the parser lets through meets the demands on single declarations. */
  lemma {:induction false} ParsedIsSane(p: Place, d: DeclSyntax)
    requires p != InProgram && DeclOk(p, d)
    ensures ArmSane(DeclMeaning(d)) && (p != InUnion ==> DeclSane(DeclMeaning(d)))
  {
    if d.Decl? {
      match d.spec {
        case Plain(w) => assert PlainName(w) == TVoid <==> w == KwVoid;
        case _ =>
      }
    }
  }
}
