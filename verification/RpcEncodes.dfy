/** Every routine the compiler writes encodes its object as the declared type prescribes. */
module RpcEncodes {
  import opened Bytes
  import opened RpcSyntax
  import opened RpcTypes
  import opened RpcEmit
  import opened RpcRun
  import opened Xdr

  /** Where the compiler leaves out the `&`, the member is an array. */
  lemma {:induction false} VectorDefIsArray(p: Program, i: nat, t: TypeName, rel: Relation)
    requires i <= |p.defs| && VectorDef(p, i, t, rel)
    ensures IsArray(p, i, t, rel)
    decreases i
  {
    if rel == RelAlias {
      var j := IndexOf(p.defs, t.name);
      VectorDefIsArray(p, j, p.defs[j].decl.tref.name, p.defs[j].decl.rel);
    }
  }

  /** The compiler's name for a member finds that member. */
  lemma {:induction false} MemberFound(ds: seq<Declaration>, k: nat)
    requires k < |ds| && MembersDistinct(ds) && forall j :: 0 <= j < |ds| ==> ds[j].name.Some?
    ensures MemberIndex(ds, NameOf(ds[k])) == k
  {
    if k > 0 {
      assert ds[0].name != ds[k].name;
      MemberFound(ds[1..], k - 1);
    }
  }

  lemma {:induction false} FetchMember(p: Program, i: nat, k: nat, v: Value)
    requires Compiles(p) && i < |p.defs| && p.defs[i].StructDef? && k < |p.defs[i].decls|
    requires v.VSeq? && |v.items| == |p.defs[i].decls|
    ensures var d := p.defs[i].decls[k];
            Fetch(p, i, Stat(p, i, d).call.obj, v) == Some(v.items[k])
            && PartOk(p, i, Stat(p, i, d).call.obj, NameOf(d))
  {
    assert DefSane(p, i);
    var d := p.defs[i].decls[k];
    MemberFound(p.defs[i].decls, k);
    if VectorDef(p, i, d.tref.name, d.rel) {
      VectorDefIsArray(p, i, d.tref.name, d.rel);
    }
  }

  lemma {:induction false} DoubleMeans(env: Env, level: nat, v: Value)
    requires level <= |env| && HasType(env, level, Vector(2, Basic(ULong)), v)
    ensures |v.items| == 2 && v.items[0].VInt? && v.items[1].VInt?
    ensures Encode(env, level, Vector(2, Basic(ULong)), v) == Join(PutInt(ULong, v.items[0]), PutInt(ULong, v.items[1]))
  {
    var vs, u := v.items, Basic(ULong);
    assert HasType(env, level, u, vs[0]) && ItemsTyped(env, level, u, vs[1..]);
    assert vs[1..][0] == vs[1] && vs[1..][1..] == [] && HasType(env, level, u, vs[1]);
    var y := Encode(env, level, u, vs[1]).value;
    assert y + [] == y;
    assert EncodeItems(env, level, u, vs[1..][1..]) == Some([]);
    assert EncodeItems(env, level, u, vs[1..]) == Some(y);
    assert EncodeItems(env, level, u, vs) == Join(PutInt(ULong, vs[0]), Some(y));
  }

  /** `xdr_T` encodes as type `T` prescribes. */
  lemma {:induction false} ProcMeans(p: Program, level: nat, t: TypeName, v: Value)
    requires Compiles(p) && InScope(EnvOf(p), level, BaseFilter(p, t))
    requires HasType(EnvOf(p), level, BaseFilter(p, t), v)
    ensures RunProc(p, level, t, v) == Encode(EnvOf(p), level, BaseFilter(p, t), v)
    decreases Weight(v), level, 0
  {
    match t
    case Defined(n) => BodyMeans(p, IndexOf(p.defs, n), v);
    case TDouble => DoubleMeans(EnvOf(p), level, v);
    case _ =>
  }

  lemma {:induction false} ItemsMean(p: Program, level: nat, t: TypeName, vs: seq<Value>)
    requires Compiles(p) && InScope(EnvOf(p), level, BaseFilter(p, t))
    requires ItemsTyped(EnvOf(p), level, BaseFilter(p, t), vs)
    ensures RunItems(p, level, t, vs) == EncodeItems(EnvOf(p), level, BaseFilter(p, t), vs)
    decreases Weights(vs), level, 1
  {
    if vs != [] {
      ProcMeans(p, level, t, vs[0]);
      ItemsMean(p, level, t, vs[1..]);
    }
  }

  lemma {:induction false} ArrayCallMeans(p: Program, i: nat, d: Declaration, obj: Object, name: string, u: Value)
    requires Compiles(p) && i < |p.defs| && DeclSane(d) && PartOk(p, i, obj, name) && d.rel == RelArray
    requires InScope(EnvOf(p), i, DeclFilter(p, d)) && HasType(EnvOf(p), i, DeclFilter(p, d), u)
    ensures RunCall(p, i, IfStat(d.tref.name, d.rel, d.max, obj, name), u) == Encode(EnvOf(p), i, DeclFilter(p, d), u)
    decreases Weight(u), i, 2
  {
    var t := d.tref.name;
    if t != TOpaque && t != TString {
      ItemsMean(p, |p.defs|, t, u.items);
    }
  }

  lemma {:induction false} VectorCallMeans(p: Program, i: nat, d: Declaration, obj: Object, name: string, u: Value)
    requires Compiles(p) && i < |p.defs| && DeclSane(d) && d.rel == RelVector
    requires InScope(EnvOf(p), i, DeclFilter(p, d)) && HasType(EnvOf(p), i, DeclFilter(p, d), u)
    ensures RunCall(p, i, IfStat(d.tref.name, d.rel, d.max, obj, name), u) == Encode(EnvOf(p), i, DeclFilter(p, d), u)
    decreases Weight(u), i, 2
  {
    if d.tref.name != TOpaque {
      ItemsMean(p, i, d.tref.name, u.items);
    }
  }

  /** A call written for a declaration encodes as the declaration prescribes. */
  lemma {:induction false} CallMeans(p: Program, i: nat, d: Declaration, obj: Object, name: string, u: Value)
    requires Compiles(p) && i < |p.defs| && DeclSane(d) && PartOk(p, i, obj, name)
    requires InScope(EnvOf(p), i, DeclFilter(p, d)) && HasType(EnvOf(p), i, DeclFilter(p, d), u)
    ensures RunCall(p, i, IfStat(d.tref.name, d.rel, d.max, obj, name), u) == Encode(EnvOf(p), i, DeclFilter(p, d), u)
    decreases Weight(u), i, 3
  {
    match d.rel
    case RelAlias => ProcMeans(p, i, d.tref.name, u);
    case RelPointer => if u.VPtr? { ProcMeans(p, |p.defs|, d.tref.name, u.target); }
    case RelVector => VectorCallMeans(p, i, d, obj, name, u);
    case RelArray => ArrayCallMeans(p, i, d, obj, name, u);
  }

  lemma {:induction false} BodyStep(p: Program, i: nat, s: Stmt, rest: Routine, v: Value)
    requires i < |p.defs|
    ensures RunBody(p, i, [s] + rest, v) == Join(RunStmt(p, i, s, v), RunBody(p, i, rest, v))
  {
    assert ([s] + rest)[1..] == rest;
  }

  lemma {:induction false} OneStatement(p: Program, i: nat, s: Stmt, v: Value)
    requires i < |p.defs|
    ensures RunBody(p, i, [s], v) == RunStmt(p, i, s, v)
  {
    var r := RunStmt(p, i, s, v);
    assert [s][1..] == [];
    assert r.Some? ==> r.value + [] == r.value;
  }

  lemma {:induction false} TailFields(p: Program, i: nat, ds: seq<Declaration>, vs: seq<Value>, k: nat)
    requires Compiles(p) && i < |p.defs| && p.defs[i].StructDef? && k < |p.defs[i].decls| && ds == p.defs[i].decls[k..]
    requires |vs| == |p.defs[i].decls|
    requires FieldsInScope(EnvOf(p), i, DeclFilters(p, ds)) && FieldsTyped(EnvOf(p), i, DeclFilters(p, ds), vs[k..])
    ensures ds[1..] == p.defs[i].decls[k + 1..]
    ensures InScope(EnvOf(p), i, DeclFilter(p, ds[0])) && HasType(EnvOf(p), i, DeclFilter(p, ds[0]), vs[k])
    ensures FieldsInScope(EnvOf(p), i, DeclFilters(p, ds[1..]))
            && FieldsTyped(EnvOf(p), i, DeclFilters(p, ds[1..]), vs[k + 1..])
    ensures EncodeFields(EnvOf(p), i, DeclFilters(p, ds), vs[k..])
         == Join(Encode(EnvOf(p), i, DeclFilter(p, ds[0]), vs[k]),
                 EncodeFields(EnvOf(p), i, DeclFilters(p, ds[1..]), vs[k + 1..]))
  {
    assert vs[k..][1..] == vs[k + 1..] && vs[k..][0] == vs[k];
    assert DeclFilters(p, ds)[1..] == DeclFilters(p, ds[1..]);
  }

  /** The statements for the members of a structure from number `k` on. */
  lemma {:induction false} StatsMean(p: Program, i: nat, ds: seq<Declaration>, k: nat, v: Value)
    requires Compiles(p) && i < |p.defs| && p.defs[i].StructDef? && k <= |p.defs[i].decls| && ds == p.defs[i].decls[k..]
    requires v.VSeq? && |v.items| == |p.defs[i].decls|
    requires FieldsInScope(EnvOf(p), i, DeclFilters(p, ds))
             && FieldsTyped(EnvOf(p), i, DeclFilters(p, ds), v.items[k..])
    ensures RunBody(p, i, Stats(p, i, ds), v) == EncodeFields(EnvOf(p), i, DeclFilters(p, ds), v.items[k..])
    decreases Weight(v), i, 6, |ds|
  {
    if ds != [] {
      assert DefSane(p, i) && ds[0] == p.defs[i].decls[k];
      TailFields(p, i, ds, v.items, k);
      BodyStep(p, i, Stat(p, i, ds[0]), Stats(p, i, ds[1..]), v);
      FetchMember(p, i, k, v);
      WeightOf(v.items, k);
      CallMeans(p, i, ds[0], Stat(p, i, ds[0]).call.obj, NameOf(ds[0]), v.items[k]);
      StatsMean(p, i, ds[1..], k + 1, v);
    }
  }

  /** The statement for the discriminant writes the word that its type prescribes. */
  lemma {:induction false} DiscMeans(p: Program, i: nat, t: TypeName, d: int)
    requires Compiles(p) && i <= |p.defs| && DiscKind(p, i, t).Some? && InRange(DiscKind(p, i, t).value, d)
    ensures RunProc(p, i, t, VInt(d)) == Some(PutWord(PutScalar(DiscKind(p, i, t).value, d)))
    decreases i
  {
    if t.Defined? {
      var j := IndexOf(p.defs, t.name);
      var s := Routines(p, j)[0];
      assert Routines(p, j) == [s];
      OneStatement(p, j, s, VInt(d));
      assert RunStmt(p, j, s, VInt(d)) == RunCall(p, j, s.call, VInt(d));
      if p.defs[j].TypedefDef? {
        DiscMeans(p, j, p.defs[j].decl.tref.name, d);
      }
    }
  }

  /** The switch does what the union of the declared arms does once its discriminant is out. */
  lemma {:induction false} SwitchMeans(p: Program, i: nat, cs: seq<CaseTree>, dflt: Option<Declaration>,
                                       all: seq<CaseTree>, v: Value)
    requires Compiles(p) && i < |p.defs| && p.defs[i].UnionDef? && v.VUnion?
    requires p.defs[i].cases == all && p.defs[i].dflt == dflt
    requires ActiveMember(p, all, dflt, v.discriminant) == ActiveMember(p, cs, dflt, v.discriminant)
    requires (forall k :: 0 <= k < |cs| ==> ArmSane(cs[k].decl)) && (dflt.Some? ==> ArmSane(dflt.value))
    requires var body := Select(Arms(p, cs), DefaultArm(p, dflt), v.discriminant);
             body.Some? ==> InScope(EnvOf(p), i, body.value) && HasType(EnvOf(p), i, body.value, v.arm)
    ensures var body := Select(Arms(p, cs), DefaultArm(p, dflt), v.discriminant);
            RunSwitch(p, i, Labels(cs), DefaultLabel(dflt), v)
            == if body == None then None else Encode(EnvOf(p), i, body.value, v.arm)
    decreases Weight(v), i, 5, |cs|
  {
    if cs == [] {
      if dflt.Some? {
        ArmMeans(p, i, dflt.value, v);
      }
    } else if p.num(cs[0].value) == v.discriminant {
      ArmMeans(p, i, cs[0].decl, v);
    } else {
      assert Arms(p, cs)[1..] == Arms(p, cs[1..]);
      assert Labels(cs)[1..] == Labels(cs[1..]);
      SwitchMeans(p, i, cs[1..], dflt, all, v);
    }
  }

  lemma {:induction false} ArmMeans(p: Program, i: nat, d: Declaration, v: Value)
    requires Compiles(p) && i < |p.defs| && p.defs[i].UnionDef? && v.VUnion? && ArmSane(d)
    requires ActiveMember(p, p.defs[i].cases, p.defs[i].dflt, v.discriminant) == d.name
    requires InScope(EnvOf(p), i, DeclFilter(p, d)) && HasType(EnvOf(p), i, DeclFilter(p, d), v.arm)
    ensures Encode(EnvOf(p), i, DeclFilter(p, d), v.arm)
         == if ArmCall(d) == None then Some([]) else RunOn(p, i, ArmCall(d).value, v)
    decreases Weight(v), i, 4
  {
    if d.tref.name != TVoid {
      CallMeans(p, i, d, ArmMember(NameOf(d)), NameOf(d), v.arm);
    }
  }

  lemma {:induction false} RunOneSwitch(p: Program, i: nat, w: Stmt, v: Value)
    requires i < |p.defs| && p.defs[i].UnionDef? && v.VUnion? && w.Switch? && p.defs[i].enumDecl.name == Some(w.disc)
    ensures RunStmt(p, i, w, v) == RunSwitch(p, i, w.labels, w.otherwise, v)
  {
  }

  lemma {:induction false} UnionStatements(p: Program, i: nat, v: Value)
    requires i < |p.defs| && p.defs[i].UnionDef? && v.VUnion?
    requires p.defs[i].enumDecl.name.Some? && p.defs[i].enumDecl.rel == RelAlias
    requires !VectorDef(p, i, p.defs[i].enumDecl.tref.name, RelAlias)
    ensures var UnionDef(_, e, cs, dflt) := p.defs[i];
            RunBody(p, i, Routines(p, i), v)
            == Join(RunProc(p, i, e.tref.name, VInt(v.discriminant)),
                    RunSwitch(p, i, Labels(cs), DefaultLabel(dflt), v))
  {
    var UnionDef(_, e, cs, dflt) := p.defs[i];
    var s, w := Stat(p, i, e), Switch(NameOf(e), Labels(cs), DefaultLabel(dflt));
    assert Routines(p, i) == [s] + [w];
    BodyStep(p, i, s, [w], v);
    OneStatement(p, i, w, v);
    assert s == IfFails(Direct(Member(NameOf(e), true), e.tref.name));
    assert Fetch(p, i, s.call.obj, v) == Some(VInt(v.discriminant));
    assert RunOn(p, i, s.call, v) == RunCall(p, i, s.call, VInt(v.discriminant));
    assert RunStmt(p, i, s, v) == RunProc(p, i, e.tref.name, VInt(v.discriminant));
    assert e.name == Some(w.disc);
    RunOneSwitch(p, i, w, v);
  }

  lemma {:induction false} UnionMeans(p: Program, i: nat, v: Value)
    requires Compiles(p) && i < |p.defs| && p.defs[i].UnionDef? && HasType(EnvOf(p), i, EnvOf(p)[i], v)
    ensures RunBody(p, i, Routines(p, i), v) == Encode(EnvOf(p), i, EnvOf(p)[i], v)
    decreases Weight(v), i, 6
  {
    assert DefSane(p, i);
    var UnionDef(_, e, cs, dflt) := p.defs[i];
    var kind := DiscKind(p, i, e.tref.name).value;
    var arms, d := Arms(p, cs), v.discriminant;
    assert EnvOf(p)[i] == Union(kind, arms, DefaultArm(p, dflt));
    SelectScoped(arms, DefaultArm(p, dflt), d, i, |p.defs|);
    DiscMeans(p, i, e.tref.name, d);
    SwitchMeans(p, i, cs, dflt, cs, v);
    DiscNotArray(p, i, e.tref.name);
    UnionStatements(p, i, v);
  }

  lemma {:induction false} DiscNotArray(p: Program, i: nat, t: TypeName)
    requires i <= |p.defs| && DiscKind(p, i, t).Some?
    ensures !VectorDef(p, i, t, RelAlias)
    decreases i
  {
    if t.Defined? {
      var j := IndexOf(p.defs, t.name);
      if p.defs[j].TypedefDef? {
        DiscNotArray(p, j, p.defs[j].decl.tref.name);
      }
    }
  }

  /**
   * The routine written for a definition, with those it calls, encodes exactly what the declared
   * type prescribes, and fails exactly when that has no encoding.
   */
  lemma {:induction false} BodyMeans(p: Program, i: nat, v: Value)
    requires Compiles(p) && i < |p.defs| && HasType(EnvOf(p), i, EnvOf(p)[i], v)
    ensures RunBody(p, i, Routines(p, i), v) == Encode(EnvOf(p), i, EnvOf(p)[i], v)
    decreases Weight(v), i, 7
  {
    assert DefSane(p, i);
    match p.defs[i]
    case StructDef(_, ds) =>
      assert ds[0..] == ds && v.items[0..] == v.items;
      StatsMean(p, i, ds, 0, v);
    case UnionDef(_, _, _, _) => UnionMeans(p, i, v);
    case EnumDef(_, _) =>
      OneStatement(p, i, IfFails(EnumCall(Whole)), v);
      assert RunOn(p, i, EnumCall(Whole), v) == RunCall(p, i, EnumCall(Whole), v) == PutInt(Enum, v);
    case TypedefDef(d) =>
      CallMeans(p, i, d, Whole, NameOf(d), v);
      var s := Routines(p, i)[0];
      assert Routines(p, i) == [s];
      OneStatement(p, i, s, v);
      assert RunStmt(p, i, s, v) == RunCall(p, i, s.call, v);
  }

  /** A union's routine gets past its switch exactly for declared values or when there is a default. */
  lemma {:induction false} UnionAccepts(p: Program, i: nat, v: Value)
    requires Compiles(p) && i < |p.defs| && p.defs[i].UnionDef? && HasType(EnvOf(p), i, EnvOf(p)[i], v)
    requires var body := Select(Arms(p, p.defs[i].cases), DefaultArm(p, p.defs[i].dflt), v.discriminant);
             body.Some? ==> InScope(EnvOf(p), i, body.value) && HasType(EnvOf(p), i, body.value, v.arm)
                            && Encode(EnvOf(p), i, body.value, v.arm).Some?
    ensures RunBody(p, i, Routines(p, i), v).Some? <==>
              || p.defs[i].dflt.Some?
              || exists k :: 0 <= k < |p.defs[i].cases| && p.num(p.defs[i].cases[k].value) == v.discriminant
  {
    var UnionDef(_, e, cs, dflt) := p.defs[i];
    var arms := Arms(p, cs);
    assert DefSane(p, i);
    var kind := DiscKind(p, i, e.tref.name).value;
    assert EnvOf(p)[i] == Union(kind, arms, DefaultArm(p, dflt));
    UnionMeans(p, i, v);
    ArmDeclared(p, cs, dflt, v.discriminant);
  }

  lemma {:induction false} ArmDeclared(p: Program, cs: seq<CaseTree>, dflt: Option<Declaration>, d: int)
    ensures Select(Arms(p, cs), DefaultArm(p, dflt), d).Some? <==>
              dflt.Some? || exists k :: 0 <= k < |cs| && p.num(cs[k].value) == d
  {
    var arms := Arms(p, cs);
    SelectSucceeds(arms, DefaultArm(p, dflt), d);
    if k :| 0 <= k < |cs| && p.num(cs[k].value) == d {
      assert arms[k].value == d;
    }
    if k :| 0 <= k < |arms| && arms[k].value == d {
      assert p.num(cs[k].value) == d;
    }
  }
}
