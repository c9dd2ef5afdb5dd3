/**
 * Running the routines that the compiler writes. A routine reaches the parts of its object by
 * name; a call of `xdr_T` runs the routine written for `T`, and nothing here refers to what the
 * definitions mean. That they mean the declared types is then a theorem.
 */
module RpcRun {
  import opened Bytes
  import opened RpcSyntax
  import opened RpcTypes
  import opened RpcEmit
  import opened Xdr

  // ---------------------------------------------------------------- objects

  function Weight(v: Value): nat {
    match v
    case VSeq(items) => 1 + Weights(items)
    case VPtr(x) => 1 + Weight(x)
    case VUnion(_, x) => 1 + Weight(x)
    case _ => 0
  }

  function Weights(vs: seq<Value>): nat {
    if vs == [] then 0 else 1 + Weight(vs[0]) + Weights(vs[1..])
  }

  lemma {:induction false} WeightOf(vs: seq<Value>, k: nat)
    requires k < |vs|
    ensures Weight(vs[k]) < Weights(vs)
  {
    if k > 0 {
      WeightOf(vs[1..], k - 1);
    }
  }

  /** The position of the member with a name in the layout of a structure. */
  function MemberIndex(ds: seq<Declaration>, name: string): (k: nat)
    ensures k <= |ds|
  {
    if ds == [] then 0 else if ds[0].name == Some(name) then 0 else 1 + MemberIndex(ds[1..], name)
  }

  /** The C type is an array, so that the member's name alone is an address. */
  predicate IsArray(p: Program, i: nat, t: TypeName, rel: Relation)
    requires i <= |p.defs|
    decreases i
  {
    match rel
    case RelVector => true
    case RelAlias =>
      t.Defined? && var j := IndexOf(p.defs, t.name);
      j < i && p.defs[j].TypedefDef? && IsArray(p, j, p.defs[j].decl.tref.name, p.defs[j].decl.rel)
    case _ => false
  }

  /** The arm that is declared for a value of the discriminant. */
  function ActiveArm(p: Program, cs: seq<CaseTree>, dflt: Option<Declaration>, d: int): Option<Declaration> {
    if cs == [] then dflt
    else if p.num(cs[0].value) == d then Some(cs[0].decl)
    else ActiveArm(p, cs[1..], dflt, d)
  }

  /** The member of the inner union that is in use while the discriminant is `d`. */
  function ActiveMember(p: Program, cs: seq<CaseTree>, dflt: Option<Declaration>, d: int): Option<string> {
    var a := ActiveArm(p, cs, dflt, d);
    if a == None then None else a.value.name
  }

  /** The object that a routine's expression denotes, when it denotes one. */
  function Fetch(p: Program, i: nat, o: Object, v: Value): (u: Option<Value>)
    requires i < |p.defs|
    ensures u.Some? ==> if o == Whole then u.value == v else Weight(u.value) < Weight(v)
  {
    match o
    case Whole => Some(v)
    case Member(name, addressed) =>
      (match p.defs[i]
       case StructDef(_, ds) =>
         var k := MemberIndex(ds, name);
         if v.VSeq? && |v.items| == |ds| && k < |ds| && (addressed || IsArray(p, i, ds[k].tref.name, ds[k].rel)) then
           WeightOf(v.items, k);
           Some(v.items[k])
         else None
       case UnionDef(_, e, _, _) =>
         if v.VUnion? && e.name == Some(name) && addressed then Some(VInt(v.discriminant)) else None
       case _ => None)
    case ArmMember(name) =>
      match p.defs[i]
      case UnionDef(_, _, cs, dflt) =>
        if v.VUnion? && ActiveMember(p, cs, dflt, v.discriminant) == Some(name) then Some(v.arm) else None
      case _ => None
  }

  /** The members `_val` and `_len` that a call names are those of the array it is handed. */
  predicate PartOk(p: Program, i: nat, o: Object, part: string)
    requires i < |p.defs|
  {
    match o
    case Whole => DefName(p.defs[i]) == part
    case Member(name, _) => name == part
    case ArmMember(name) => name == part
  }

  // ---------------------------------------------------------------- encoding

  function PutInt(k: Scalar, v: Value): Option<seq<Byte>> {
    if v.VInt? && InRange(k, v.i) then Some(PutWord(PutScalar(k, v.i))) else None
  }

  /** `xdr_T` on an object. Only routines written before definition number `level` are embedded. */
  function RunProc(p: Program, level: nat, t: TypeName, v: Value): Option<seq<Byte>>
    decreases Weight(v), level, 0
  {
    match t
    case Defined(n) =>
      var j := IndexOf(p.defs, n);
      if j < level && j < |p.defs| then RunBody(p, j, Routines(p, j), v) else None
    case TFloat => PutInt(ULong, v)
    case TDouble =>
      if v.VSeq? && |v.items| == 2 then Join(PutInt(ULong, v.items[0]), PutInt(ULong, v.items[1])) else None
    case _ =>
      var k := ScalarOf(t);
      if k.Some? then PutInt(k.value, v) else None
  }

  function RunItems(p: Program, level: nat, t: TypeName, vs: seq<Value>): Option<seq<Byte>>
    decreases Weights(vs), level, 1
  {
    if vs == [] then Some([]) else Join(RunProc(p, level, t, vs[0]), RunItems(p, level, t, vs[1..]))
  }

  /** One library call, in the routine for definition number `i`, on the object its argument denotes. */
  function RunCall(p: Program, i: nat, c: LibCall, u: Value): Option<seq<Byte>>
    requires i < |p.defs|
    decreases Weight(u), i, 2
  {
    match c
    case Direct(_, t) => RunProc(p, i, t, u)
    case EnumCall(_) => PutInt(Enum, u)
    case PointerCall(_, t) =>
      if u == VNull then Some(PutWord(0))
      else if u.VPtr? then Prefix(1, RunProc(p, |p.defs|, t, u.target))
      else None
    case VectorCall(_, n, t) =>
      if u.VSeq? && |u.items| == Count(p, n) then RunItems(p, i, t, u.items) else None
    case OpaqueCall(_, n) =>
      if u.VBytes? && |u.bytes| == Count(p, n) then Some(Padded(u.bytes)) else None
    case ArrayCall(o, part, n, t) =>
      if PartOk(p, i, o, part) && u.VSeq? && |u.items| < TWO_TO_31 && |u.items| <= Count(p, n)
      then Prefix(|u.items|, RunItems(p, |p.defs|, t, u.items)) else None
    case BytesCall(o, part, n) => if PartOk(p, i, o, part) then PutCounted(u, Count(p, n)) else None
    case StringCall(_, n) => PutCounted(u, Count(p, n))
  }

  function PutCounted(u: Value, max: Word): Option<seq<Byte>> {
    if u.VBytes? && |u.bytes| < TWO_TO_31 && |u.bytes| <= max then Some(PutWord(|u.bytes|) + Padded(u.bytes)) else None
  }

  function RunOn(p: Program, i: nat, c: LibCall, v: Value): Option<seq<Byte>>
    requires i < |p.defs|
    decreases Weight(v), i, 3
  {
    var u := Fetch(p, i, c.obj, v);
    if u == None then None else RunCall(p, i, c, u.value)
  }

  /** The first label with the discriminant's value; a label without a call just breaks. */
  function RunSwitch(p: Program, i: nat, ls: seq<Label>, otherwise: Otherwise, v: Value): Option<seq<Byte>>
    requires i < |p.defs| && v.VUnion?
    decreases Weight(v), i, 4, |ls|
  {
    if ls == [] then
      match otherwise
      case NoLabel => Some([])
      case Refuses => None
      case Runs(c) => RunOn(p, i, c, v)
    else if p.num(ls[0].value) == v.discriminant then
      if ls[0].call == None then Some([]) else RunOn(p, i, ls[0].call.value, v)
    else RunSwitch(p, i, ls[1..], otherwise, v)
  }

  function RunStmt(p: Program, i: nat, s: Stmt, v: Value): Option<seq<Byte>>
    requires i < |p.defs|
    decreases Weight(v), i, 5
  {
    match s
    case IfFails(c) => RunOn(p, i, c, v)
    case Switch(disc, ls, otherwise) =>
      match p.defs[i]
      case UnionDef(_, e, _, _) => if v.VUnion? && e.name == Some(disc) then RunSwitch(p, i, ls, otherwise, v) else None
      case _ => None
  }

  /** The statements of a routine in order; it returns `FALSE` at the first that fails. */
  function RunBody(p: Program, i: nat, body: Routine, v: Value): Option<seq<Byte>>
    requires i < |p.defs|
    decreases Weight(v), i, 6, |body|
  {
    if body == [] then Some([]) else Join(RunStmt(p, i, body[0], v), RunBody(p, i, body[1..], v))
  }

  // ---------------------------------------------------------------- decoding

  /** An object while it is being decoded: what its parts, or the whole of it, have been set to. */
  datatype Draft = Draft(
    whole: Option<Value>,
    slots: seq<Option<Value>>,
    disc: Option<int>,
    arm: Option<Value>)

  function Blank(p: Program, i: nat): Draft
    requires i < |p.defs|
  {
    Draft(None, seq(if p.defs[i].StructDef? then |p.defs[i].decls| else 0, _ => None), None, None)
  }

  /** Sets the object that a routine's expression denotes. */
  function Store(p: Program, i: nat, o: Object, u: Value, draft: Draft): Option<Draft>
    requires i < |p.defs|
  {
    match o
    case Whole => Some(draft.(whole := Some(u)))
    case Member(name, addressed) =>
      (match p.defs[i]
       case StructDef(_, ds) =>
         var k := MemberIndex(ds, name);
         if k < |ds| == |draft.slots| && (addressed || IsArray(p, i, ds[k].tref.name, ds[k].rel))
         then Some(draft.(slots := draft.slots[k := Some(u)])) else None
       case UnionDef(_, e, _, _) =>
         if e.name == Some(name) && addressed && u.VInt? then Some(draft.(disc := Some(u.i))) else None
       case _ => None)
    case ArmMember(name) =>
      match p.defs[i]
      case UnionDef(_, _, cs, dflt) =>
        if draft.disc.Some? && ActiveMember(p, cs, dflt, draft.disc.value) == Some(name)
        then Some(draft.(arm := Some(u))) else None
      case _ => None
  }

  function AllSet(slots: seq<Option<Value>>): (vs: Option<seq<Value>>)
    ensures vs.Some? ==> |vs.value| == |slots|
  {
    if slots == [] then Some([]) else
      var rest := AllSet(slots[1..]);
      if slots[0] == None || rest == None then None else Some([slots[0].value] + rest.value)
  }

  /** The finished object, provided that nothing of it is still unset. */
  function Finish(p: Program, i: nat, draft: Draft): Option<Value>
    requires i < |p.defs|
  {
    match p.defs[i]
    case StructDef(_, _) =>
      var vs := AllSet(draft.slots);
      if vs == None then None else Some(VSeq(vs.value))
    case UnionDef(_, _, cs, dflt) =>
      if draft.disc == None then None else
        var a := ActiveArm(p, cs, dflt, draft.disc.value);
        if a.Some? && a.value.tref.name == TVoid then Some(VUnion(draft.disc.value, VVoid))
        else if draft.arm == None then None
        else Some(VUnion(draft.disc.value, draft.arm.value))
    case _ => draft.whole
  }

  function TakeInt(k: Scalar, s: seq<Byte>): (r: Option<(Value, seq<Byte>)>)
    ensures r.Some? ==> |r.value.1| <= |s|
  {
    if |s| < 4 then None else Some((VInt(GetScalar(k, GetWord(s[..4]))), s[4..]))
  }

  function GetProc(p: Program, level: nat, t: TypeName, s: seq<Byte>): (r: Option<(Value, seq<Byte>)>)
    ensures r.Some? ==> |r.value.1| <= |s|
    decreases |s|, level, 0
  {
    match t
    case Defined(n) =>
      var j := IndexOf(p.defs, n);
      if j < level && j < |p.defs| then GetObject(p, j, s) else None
    case TFloat => TakeInt(ULong, s)
    case TDouble =>
      var x := TakeInt(ULong, s);
      if x == None then None else
        var y := TakeInt(ULong, x.value.1);
        if y == None then None else Some((VSeq([x.value.0, y.value.0]), y.value.1))
    case _ =>
      var k := ScalarOf(t);
      if k.Some? then TakeInt(k.value, s) else None
  }

  function GetItems(p: Program, level: nat, t: TypeName, n: nat, s: seq<Byte>): (r: Option<(seq<Value>, seq<Byte>)>)
    ensures r.Some? ==> |r.value.1| <= |s|
    decreases |s|, level, 1, n
  {
    if n == 0 then Some(([], s)) else
      var x := GetProc(p, level, t, s);
      if x == None then None else
        var xs := GetItems(p, level, t, n - 1, x.value.1);
        if xs == None then None else Some(([x.value.0] + xs.value.0, xs.value.1))
  }

  function GetCounted(s: seq<Byte>, max: Word): (r: Option<(Value, seq<Byte>)>)
    ensures r.Some? ==> r.value.0.VBytes? && |r.value.1| <= |s|
  {
    if |s| < 4 then None else DecodeCounted(GetWord(s[..4]), max, s[4..])
  }

  /** What one library call, in the routine for definition number `i`, decodes. */
  function GetCall(p: Program, i: nat, c: LibCall, s: seq<Byte>): (r: Option<(Value, seq<Byte>)>)
    requires i < |p.defs|
    ensures r.Some? ==> |r.value.1| <= |s|
    decreases |s|, i, 2
  {
    match c
    case Direct(_, t) => GetProc(p, i, t, s)
    case EnumCall(_) => TakeInt(Enum, s)
    case PointerCall(_, t) =>
      if |s| < 4 then None
      else if GetWord(s[..4]) == 0 then Some((VNull, s[4..]))
      else
        var r := GetProc(p, |p.defs|, t, s[4..]);
        if r == None then None else Some((VPtr(r.value.0), r.value.1))
    case VectorCall(_, n, t) =>
      var r := GetItems(p, i, t, Count(p, n), s);
      if r == None then None else Some((VSeq(r.value.0), r.value.1))
    case OpaqueCall(_, n) => DecodeOpaque(Count(p, n), s)
    case ArrayCall(o, part, n, t) =>
      if !PartOk(p, i, o, part) || |s| < 4 || GetWord(s[..4]) > Count(p, n) || GetWord(s[..4]) >= TWO_TO_31 then
        None
      else
        var r := GetItems(p, |p.defs|, t, GetWord(s[..4]), s[4..]);
        if r == None then None else Some((VSeq(r.value.0), r.value.1))
    case BytesCall(o, part, n) => if PartOk(p, i, o, part) then GetCounted(s, Count(p, n)) else None
    case StringCall(_, n) => if |s| < 4 then None else DecodeString(GetWord(s[..4]), Count(p, n), s[4..])
  }

  function GetOn(p: Program, i: nat, c: LibCall, draft: Draft, s: seq<Byte>): (r: Option<(Draft, seq<Byte>)>)
    requires i < |p.defs|
    ensures r.Some? ==> |r.value.1| <= |s|
    decreases |s|, i, 3
  {
    var u := GetCall(p, i, c, s);
    if u == None then None else
      var d := Store(p, i, c.obj, u.value.0, draft);
      if d == None then None else Some((d.value, u.value.1))
  }

  function GetSwitch(p: Program, i: nat, ls: seq<Label>, otherwise: Otherwise, draft: Draft, s: seq<Byte>)
    : (r: Option<(Draft, seq<Byte>)>)
    requires i < |p.defs| && draft.disc.Some?
    ensures r.Some? ==> |r.value.1| <= |s|
    decreases |s|, i, 4, |ls|
  {
    if ls == [] then
      match otherwise
      case NoLabel => Some((draft, s))
      case Refuses => None
      case Runs(c) => GetOn(p, i, c, draft, s)
    else if p.num(ls[0].value) == draft.disc.value then
      if ls[0].call == None then Some((draft, s)) else GetOn(p, i, ls[0].call.value, draft, s)
    else GetSwitch(p, i, ls[1..], otherwise, draft, s)
  }

  function GetStmt(p: Program, i: nat, st: Stmt, draft: Draft, s: seq<Byte>): (r: Option<(Draft, seq<Byte>)>)
    requires i < |p.defs|
    ensures r.Some? ==> |r.value.1| <= |s|
    decreases |s|, i, 5
  {
    match st
    case IfFails(c) => GetOn(p, i, c, draft, s)
    case Switch(disc, ls, otherwise) =>
      match p.defs[i]
      case UnionDef(_, e, _, _) =>
        if draft.disc.Some? && e.name == Some(disc) then GetSwitch(p, i, ls, otherwise, draft, s) else None
      case _ => None
  }

  function GetBody(p: Program, i: nat, body: Routine, draft: Draft, s: seq<Byte>): (r: Option<(Draft, seq<Byte>)>)
    requires i < |p.defs|
    ensures r.Some? ==> |r.value.1| <= |s|
    decreases |s|, i, 6, |body|
  {
    if body == [] then Some((draft, s)) else
      var r := GetStmt(p, i, body[0], draft, s);
      if r == None then None else GetBody(p, i, body[1..], r.value.0, r.value.1)
  }

  /** The object that the routine for definition number `i` decodes, and what it leaves of the stream. */
  function GetObject(p: Program, i: nat, s: seq<Byte>): (r: Option<(Value, seq<Byte>)>)
    requires i < |p.defs|
    ensures r.Some? ==> |r.value.1| <= |s|
    decreases |s|, i, 7
  {
    var r := GetBody(p, i, Routines(p, i), Blank(p, i), s);
    if r == None then None else
      var v := Finish(p, i, r.value.0);
      if v == None then None else Some((v.value, r.value.1))
  }
}
