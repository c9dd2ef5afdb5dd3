/**
 * The routines that the compiler writes for a definition, as data: each statement is a library
 * call whose failure ends the routine, or a switch over such calls.
 */
module RpcEmit {
  import opened Bytes
  import opened RpcSyntax
  import opened RpcTypes
  import Xdr

  /** The object a call is handed: `objp`, a member with or without `&`, or a member of the inner union. */
  datatype Object =
    | Whole
    | Member(name: string, addressed: bool)
    | ArmMember(name: string)

  /** `part` names the `_val` and `_len` members of a counted array. */
  datatype LibCall =
    | Direct(obj: Object, proc: TypeName)
    | EnumCall(obj: Object)
    | PointerCall(obj: Object, elem: TypeName)
    | VectorCall(obj: Object, count: Option<Limit>, elem: TypeName)
    | OpaqueCall(obj: Object, count: Option<Limit>)
    | ArrayCall(obj: Object, part: string, max: Option<Limit>, elem: TypeName)
    | BytesCall(obj: Object, part: string, max: Option<Limit>)
    | StringCall(obj: Object, max: Option<Limit>)

  /** One label; its call, if any, is followed by a `break`. */
  datatype Label = Label(value: string, call: Option<LibCall>)

  datatype Otherwise = NoLabel | Runs(call: LibCall) | Refuses

  datatype Stmt =
    | IfFails(call: LibCall)
    | Switch(disc: string, labels: seq<Label>, otherwise: Otherwise)

  /** The statements before the final `return (TRUE)`. */
  type Routine = seq<Stmt>

  /** `print_ifstat`. */
  function IfStat(t: TypeName, rel: Relation, max: Option<Limit>, obj: Object, name: string): LibCall {
    match rel
    case RelPointer => PointerCall(obj, t)
    case RelVector =>
      if t == TString then StringCall(obj, max)
      else if t == TOpaque then OpaqueCall(obj, max)
      else VectorCall(obj, max, t)
    case RelArray =>
      if t == TString then StringCall(obj, max)
      else if t == TOpaque then BytesCall(obj, name, max)
      else ArrayCall(obj, name, max, t)
    case RelAlias => Direct(obj, t)
  }

  /** `isvectordef`, for a type used in definition number `i`: whether it was declared as an array. */
  function VectorDef(p: Program, i: nat, t: TypeName, rel: Relation): bool
    requires i <= |p.defs|
    decreases i
  {
    match rel
    case RelVector => t != TString
    case RelArray => false
    case RelPointer => false
    case RelAlias =>
      t.Defined? &&
      var j := IndexOf(p.defs, t.name);
      j < i && p.defs[j].TypedefDef? && p.defs[j].decl.tref.tag == None
      && VectorDef(p, j, p.defs[j].decl.tref.name, p.defs[j].decl.rel)
  }

  /** `typedefed`: a typedef without a `struct`, `union` or `enum` in front of its type. */
  predicate Typedefed(d: Definition, name: string) {
    d.TypedefDef? && d.decl.tref.tag == None && DefName(d) == name
  }

  /** `FINDVAL`: the first such typedef of what has been defined so far. */
  function FindTypedef(seen: seq<Definition>, name: string): (k: Option<nat>)
    ensures k.Some? ==> k.value < |seen| && Typedefed(seen[k.value], name)
    ensures k == None ==> forall j :: 0 <= j < |seen| ==> !Typedefed(seen[j], name)
  {
    if seen == [] then None
    else if Typedefed(seen[0], name) then Some(0)
    else
      var k := FindTypedef(seen[1..], name);
      if k == None then None else Some(1 + k.value)
  }

  /** Where the search goes on from the type `t`, if it does. */
  function Onwards(seen: seq<Definition>, t: TypeName): Option<nat> {
    if t.Defined? then FindTypedef(seen, t.name) else None
  }

  /** A typedef names only typedefs before it. */
  predicate Ordered(seen: seq<Definition>) {
    forall j :: 0 <= j < |seen| && seen[j].TypedefDef? && seen[j].decl.rel == RelAlias ==>
      var k := Onwards(seen, seen[j].decl.tref.name);
      k.Some? ==> k.value < j
  }

  /** Programs that compile are so, at every definition. */
  lemma {:induction false} CompiledIsOrdered(p: Program, i: nat)
    requires Compiles(p) && i <= |p.defs|
    ensures Ordered(p.defs[..i])
  {
    var seen := p.defs[..i];
    forall j | 0 <= j < i && seen[j].TypedefDef? && seen[j].decl.rel == RelAlias && seen[j].decl.tref.name.Defined?
      ensures var k := FindTypedef(seen, seen[j].decl.tref.name.name); k.Some? ==> k.value < j
    {
      var n := seen[j].decl.tref.name.name;
      assert Filters(p)[j] == Xdr.Named(IndexOf(p.defs, n));
      assert IndexOf(p.defs, n) < j;
      if FindTypedef(seen, n).Some? {
        assert DefName(p.defs[FindTypedef(seen, n).value]) == n;
      }
    }
  }

  /** The search in what has been defined so far finds what the names stand for. */
  lemma {:induction false} SameTypedef(p: Program, i: nat, name: string)
    requires i <= |p.defs| && NamesDistinct(p.defs)
    ensures var j := IndexOf(p.defs, name);
            FindTypedef(p.defs[..i], name) == if j < i && Typedefed(p.defs[j], name) then Some(j) else None
  {
    var k := FindTypedef(p.defs[..i], name);
    if k.Some? {
      FirstOfName(p.defs, name, k.value);
      assert IndexOf(p.defs, name) == k.value;
    }
  }

  lemma {:induction false} FirstOfName(defs: seq<Definition>, name: string, k: nat)
    requires k < |defs| && DefName(defs[k]) == name && NamesDistinct(defs)
    ensures IndexOf(defs, name) == k
  {
    if k > 0 {
      FirstOfName(defs[1..], name, k - 1);
    }
  }

  /** What the program looks like to the search when definition number `i` is written. */
  predicate Searchable(p: Program, i: nat) {
    i <= |p.defs| && NamesDistinct(p.defs) && Ordered(p.defs[..i])
  }

  /** The compiler's loop, which follows one typedef after another. */
  method IsVectorDef(p: Program, i: nat, t: TypeName, rel: Relation) returns (r: bool)
    requires Searchable(p, i)
    ensures r == VectorDef(p, i, t, rel)
  {
    var t', rel' := t, rel;
    ghost var bound: nat := i;
    while true
      invariant bound <= i && VectorDef(p, bound, t', rel') == VectorDef(p, i, t, rel)
      invariant rel' == RelAlias && Onwards(p.defs[..i], t').Some? ==> Onwards(p.defs[..i], t').value < bound
      decreases bound
    {
      match rel' {
        case RelVector => return t' != TString;
        case RelArray => return false;
        case RelPointer => return false;
        case RelAlias =>
          if t'.Defined? {
            SameTypedef(p, i, t'.name);
          }
          var def := Onwards(p.defs[..i], t');
          if def == None {
            return false;
          }
          t', rel', bound := p.defs[def.value].decl.tref.name, p.defs[def.value].decl.rel, def.value;
      }
    }
  }

  /** Out of order the loop need not end: from `typedef foo foo` it comes back to where it was. */
  lemma {:induction false} TurnsOnItself(name: string)
    ensures var d := Declaration(TypeRef(None, Defined(name)), Some(name), RelAlias, None);
            !Ordered([TypedefDef(d)])
            && Onwards([TypedefDef(d)], d.tref.name) == Some(0) && d.rel == RelAlias
  {
    var d := Declaration(TypeRef(None, Defined(name)), Some(name), RelAlias, None);
    assert [TypedefDef(d)][0] == TypedefDef(d) && Typedefed(TypedefDef(d), name);
  }

  function NameOf(d: Declaration): string {
    if d.name.Some? then d.name.value else ""
  }

  /** `print_stat`: a member of array type is already an address. */
  function Stat(p: Program, i: nat, d: Declaration): Stmt
    requires i <= |p.defs|
  {
    var obj := Member(NameOf(d), !VectorDef(p, i, d.tref.name, d.rel));
    IfFails(IfStat(d.tref.name, d.rel, d.max, obj, NameOf(d)))
  }

  method PrintStat(p: Program, i: nat, d: Declaration) returns (s: Stmt)
    requires Searchable(p, i)
    ensures s == Stat(p, i, d)
  {
    var vector := IsVectorDef(p, i, d.tref.name, d.rel);
    s := IfFails(IfStat(d.tref.name, d.rel, d.max, Member(NameOf(d), !vector), NameOf(d)));
  }

  function Stats(p: Program, i: nat, ds: seq<Declaration>): Routine
    requires i <= |p.defs|
  {
    if ds == [] then [] else [Stat(p, i, ds[0])] + Stats(p, i, ds[1..])
  }

  /** `emit_struct`: a statement for each member. */
  method EmitStruct(p: Program, i: nat, ds: seq<Declaration>) returns (out: Routine)
    requires Searchable(p, i)
    ensures out == Stats(p, i, ds)
  {
    out := [];
    var k := 0;
    assert ds[0..] == ds && [] + Stats(p, i, ds) == Stats(p, i, ds);
    while k < |ds|
      invariant 0 <= k <= |ds| && out + Stats(p, i, ds[k..]) == Stats(p, i, ds)
    {
      var s := PrintStat(p, i, ds[k]);
      assert ds[k..][0] == ds[k] && ds[k..][1..] == ds[k + 1..];
      Associative(out, [s], Stats(p, i, ds[k + 1..]));
      out := out + [s];
      k := k + 1;
    }
    assert out + [] == out;
  }

  /** The call for an arm of a union; a void arm has none. */
  function ArmCall(d: Declaration): Option<LibCall> {
    if d.tref.name == TVoid then None
    else Some(IfStat(d.tref.name, d.rel, d.max, ArmMember(NameOf(d)), NameOf(d)))
  }

  function Labels(cs: seq<CaseTree>): (ls: seq<Label>)
    ensures |ls| == |cs| && forall k :: 0 <= k < |cs| ==> ls[k] == Label(cs[k].value, ArmCall(cs[k].decl))
  {
    if cs == [] then [] else [Label(cs[0].value, ArmCall(cs[0].decl))] + Labels(cs[1..])
  }

  /** A void default has no label at all, so that other values fall out of the switch. */
  function DefaultLabel(dflt: Option<Declaration>): Otherwise {
    match dflt
    case None => Refuses
    case Some(d) => if ArmCall(d) == None then NoLabel else Runs(ArmCall(d).value)
  }

  method EmitArm(d: Declaration) returns (call: Option<LibCall>)
    ensures call == ArmCall(d)
  {
    call := None;
    if d.tref.name != TVoid {
      call := Some(IfStat(d.tref.name, d.rel, d.max, ArmMember(NameOf(d)), NameOf(d)));
    }
  }

  method EmitLabels(cs: seq<CaseTree>) returns (labels: seq<Label>)
    ensures labels == Labels(cs)
  {
    labels := [];
    while |labels| < |cs|
      invariant |labels| <= |cs|
      invariant forall k :: 0 <= k < |labels| ==> labels[k] == Label(cs[k].value, ArmCall(cs[k].decl))
    {
      var c := cs[|labels|];
      var call := EmitArm(c.decl);
      labels := labels + [Label(c.value, call)];
    }
    assert labels == Labels(cs);
  }

  /** `emit_union`: the discriminant, then a switch with a label for each case. */
  method EmitUnion(p: Program, i: nat, e: Declaration, cs: seq<CaseTree>, dflt: Option<Declaration>)
    returns (out: Routine)
    requires Searchable(p, i)
    ensures out == [Stat(p, i, e), Switch(NameOf(e), Labels(cs), DefaultLabel(dflt))]
  {
    var s := PrintStat(p, i, e);
    var labels := EmitLabels(cs);
    var otherwise := Refuses;
    if dflt.Some? {
      var call := EmitArm(dflt.value);
      otherwise := if call == None then NoLabel else Runs(call.value);
    }
    out := [s, Switch(NameOf(e), labels, otherwise)];
  }

  /** What is written for definition number `i`. */
  function Routines(p: Program, i: nat): Routine
    requires i < |p.defs|
  {
    match p.defs[i]
    case StructDef(_, ds) => Stats(p, i, ds)
    case UnionDef(_, e, cs, dflt) => [Stat(p, i, e), Switch(NameOf(e), Labels(cs), DefaultLabel(dflt))]
    case EnumDef(_, _) => [IfFails(EnumCall(Whole))]
    case TypedefDef(d) => [IfFails(IfStat(d.tref.name, d.rel, d.max, Whole, NameOf(d)))]
    case _ => []
  }

  /** `emit`. */
  method Emit(p: Program, i: nat) returns (out: Routine)
    requires i < |p.defs| && Searchable(p, i)
    ensures out == Routines(p, i)
  {
    match p.defs[i] {
      case StructDef(_, ds) => out := EmitStruct(p, i, ds);
      case UnionDef(_, e, cs, dflt) => out := EmitUnion(p, i, e, cs, dflt);
      case EnumDef(_, _) => out := [IfFails(EnumCall(Whole))];
      case TypedefDef(d) => out := [IfFails(IfStat(d.tref.name, d.rel, d.max, Whole, NameOf(d)))];
      case _ => out := [];
    }
  }
}
