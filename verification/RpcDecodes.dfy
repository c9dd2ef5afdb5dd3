/** Every routine the compiler writes decodes what the declared type prescribes. */
module RpcDecodes {
  import opened Bytes
  import opened RpcSyntax
  import opened RpcTypes
  import opened RpcEmit
  import opened RpcRun
  import opened RpcEncodes
  import opened Xdr

  lemma {:induction false} DoubleDecodes(env: Env, level: nat, s: seq<Byte>)
    requires level <= |env|
    ensures InScope(env, level, Vector(2, Basic(ULong)))
    ensures Decode(env, level, Vector(2, Basic(ULong)), s)
         == var x := TakeInt(ULong, s);
            if x == None then None else
              var y := TakeInt(ULong, x.value.1);
              if y == None then None else Some((VSeq([x.value.0, y.value.0]), y.value.1))
  {
    var u := Basic(ULong);
    var x := TakeInt(ULong, s);
    assert Decode(env, level, u, s) == x;
    if x.Some? {
      var y := TakeInt(ULong, x.value.1);
      assert Decode(env, level, u, x.value.1) == y;
      if y.Some? {
        var none: seq<Value> := [];
        assert DecodeItems(env, level, u, 0, y.value.1) == Some((none, y.value.1));
        assert [y.value.0] + none == [y.value.0];
        assert DecodeItems(env, level, u, 1, x.value.1) == Some(([y.value.0], y.value.1));
        assert [x.value.0] + [y.value.0] == [x.value.0, y.value.0];
      } else {
        assert DecodeItems(env, level, u, 1, x.value.1) == None;
      }
    }
  }

  /** `xdr_T` decodes as type `T` prescribes. */
  lemma {:induction false} ProcDecodes(p: Program, level: nat, t: TypeName, s: seq<Byte>)
    requires Compiles(p) && InScope(EnvOf(p), level, BaseFilter(p, t))
    ensures GetProc(p, level, t, s) == Decode(EnvOf(p), level, BaseFilter(p, t), s)
    decreases |s|, level, 0
  {
    match t
    case Defined(n) => ObjectDecodes(p, IndexOf(p.defs, n), s);
    case TDouble => DoubleDecodes(EnvOf(p), level, s);
    case _ =>
  }

  lemma {:induction false} ItemsDecode(p: Program, level: nat, t: TypeName, n: nat, s: seq<Byte>)
    requires Compiles(p) && InScope(EnvOf(p), level, BaseFilter(p, t))
    ensures GetItems(p, level, t, n, s) == DecodeItems(EnvOf(p), level, BaseFilter(p, t), n, s)
    decreases |s|, level, 1, n
  {
    if n > 0 {
      ProcDecodes(p, level, t, s);
      var x := GetProc(p, level, t, s);
      if x.Some? {
        ItemsDecode(p, level, t, n - 1, x.value.1);
      }
    }
  }

  lemma {:induction false} ElementsDecode(p: Program, i: nat, n: Word, t: TypeName, obj: Object, part: string,
                                          max: Option<Limit>, s: seq<Byte>)
    requires Compiles(p) && i < |p.defs| && PartOk(p, i, obj, part) && n == Count(p, max)
    requires InScope(EnvOf(p), i, Xdr.Array(n, BaseFilter(p, t)))
    ensures GetCall(p, i, ArrayCall(obj, part, max, t), s) == Decode(EnvOf(p), i, Xdr.Array(n, BaseFilter(p, t)), s)
    decreases |s|, i, 1, 1
  {
    if |s| >= 4 {
      ItemsDecode(p, |p.defs|, t, GetWord(s[..4]), s[4..]);
    }
  }

  lemma {:induction false} ArrayCallDecodes(p: Program, i: nat, d: Declaration, obj: Object, name: string, s: seq<Byte>)
    requires Compiles(p) && i < |p.defs| && DeclSane(d) && PartOk(p, i, obj, name) && d.rel == RelArray
    requires InScope(EnvOf(p), i, DeclFilter(p, d))
    ensures GetCall(p, i, IfStat(d.tref.name, d.rel, d.max, obj, name), s) == Decode(EnvOf(p), i, DeclFilter(p, d), s)
    decreases |s|, i, 2
  {
    var t := d.tref.name;
    if t != TOpaque && t != TString {
      ElementsDecode(p, i, Count(p, d.max), t, obj, name, d.max, s);
    }
  }

  lemma {:induction false} VectorCallDecodes(p: Program, i: nat, d: Declaration, obj: Object, name: string,
                                             s: seq<Byte>)
    requires Compiles(p) && i < |p.defs| && DeclSane(d) && d.rel == RelVector
    requires InScope(EnvOf(p), i, DeclFilter(p, d))
    ensures GetCall(p, i, IfStat(d.tref.name, d.rel, d.max, obj, name), s) == Decode(EnvOf(p), i, DeclFilter(p, d), s)
    decreases |s|, i, 2
  {
    if d.tref.name != TOpaque {
      ItemsDecode(p, i, d.tref.name, Count(p, d.max), s);
    }
  }

  /** A call written for a declaration decodes as the declaration prescribes. */
  lemma {:induction false} CallDecodes(p: Program, i: nat, d: Declaration, obj: Object, name: string, s: seq<Byte>)
    requires Compiles(p) && i < |p.defs| && DeclSane(d) && PartOk(p, i, obj, name)
    requires InScope(EnvOf(p), i, DeclFilter(p, d))
    ensures GetCall(p, i, IfStat(d.tref.name, d.rel, d.max, obj, name), s) == Decode(EnvOf(p), i, DeclFilter(p, d), s)
    decreases |s|, i, 3
  {
    match d.rel
    case RelAlias => ProcDecodes(p, i, d.tref.name, s);
    case RelPointer => if |s| >= 4 { ProcDecodes(p, |p.defs|, d.tref.name, s[4..]); }
    case RelVector => VectorCallDecodes(p, i, d, obj, name, s);
    case RelArray => ArrayCallDecodes(p, i, d, obj, name, s);
  }

  lemma {:induction false} GetOneStatement(p: Program, i: nat, st: Stmt, draft: Draft, s: seq<Byte>)
    requires i < |p.defs|
    ensures GetBody(p, i, [st], draft, s) == GetStmt(p, i, st, draft, s)
  {
    assert [st][1..] == [];
  }

  lemma {:induction false} GetBodyStep(p: Program, i: nat, st: Stmt, rest: Routine, draft: Draft, s: seq<Byte>)
    requires i < |p.defs|
    ensures var r := GetStmt(p, i, st, draft, s);
            GetBody(p, i, [st] + rest, draft, s)
            == if r == None then None else GetBody(p, i, rest, r.value.0, r.value.1)
  {
    assert ([st] + rest)[1..] == rest;
  }

  // ---------------------------------------------------------------- structures

  function Filled(slots: seq<Option<Value>>, k: nat, vs: seq<Value>): (r: seq<Option<Value>>)
    requires k + |vs| == |slots|
    ensures |r| == |slots| && r[..k] == slots[..k]
  {
    slots[..k] + seq(|vs|, j requires 0 <= j < |vs| => Some(vs[j]))
  }

  lemma {:induction false} FilledMore(slots: seq<Option<Value>>, k: nat, v: Value, vs: seq<Value>)
    requires k + 1 + |vs| == |slots|
    ensures Filled(slots[k := Some(v)], k + 1, vs) == Filled(slots, k, [v] + vs)
  {
  }

  lemma {:induction false} FilledAll(slots: seq<Option<Value>>, vs: seq<Value>)
    requires |vs| == |slots|
    ensures AllSet(Filled(slots, 0, vs)) == Some(vs)
  {
    var all := Filled(slots, 0, vs);
    if vs != [] {
      FilledAll(slots[1..], vs[1..]);
      assert all[1..] == Filled(slots[1..], 0, vs[1..]);
      assert [vs[0]] + vs[1..] == vs;
    }
  }

  lemma {:induction false} TailFilters(p: Program, i: nat, ds: seq<Declaration>, k: nat)
    requires Compiles(p) && i < |p.defs| && p.defs[i].StructDef? && k < |p.defs[i].decls| && ds == p.defs[i].decls[k..]
    requires FieldsInScope(EnvOf(p), i, DeclFilters(p, ds))
    ensures ds[0] == p.defs[i].decls[k] && ds[1..] == p.defs[i].decls[k + 1..]
    ensures InScope(EnvOf(p), i, DeclFilter(p, ds[0])) && FieldsInScope(EnvOf(p), i, DeclFilters(p, ds[1..]))
    ensures DeclFilters(p, ds)[1..] == DeclFilters(p, ds[1..])
    ensures Stats(p, i, ds) == [Stat(p, i, ds[0])] + Stats(p, i, ds[1..])
  {
    assert DeclFilters(p, ds)[1..] == DeclFilters(p, ds[1..]);
  }

  lemma {:induction false} StoreMember(p: Program, i: nat, k: nat, u: Value, draft: Draft)
    requires Compiles(p) && i < |p.defs| && p.defs[i].StructDef? && k < |p.defs[i].decls| == |draft.slots|
    ensures var d := p.defs[i].decls[k];
            Store(p, i, Stat(p, i, d).call.obj, u, draft) == Some(draft.(slots := draft.slots[k := Some(u)]))
            && PartOk(p, i, Stat(p, i, d).call.obj, NameOf(d)) && DeclSane(d)
  {
    assert DefSane(p, i);
    var d := p.defs[i].decls[k];
    MemberFound(p.defs[i].decls, k);
    if VectorDef(p, i, d.tref.name, d.rel) {
      VectorDefIsArray(p, i, d.tref.name, d.rel);
    }
  }

  /** The statements for the members from number `k` on fill the slots from there on. */
  lemma {:induction false} StatsDecode(p: Program, i: nat, ds: seq<Declaration>, k: nat, draft: Draft, s: seq<Byte>)
    requires Compiles(p) && i < |p.defs| && p.defs[i].StructDef? && k <= |p.defs[i].decls| == |draft.slots|
    requires ds == p.defs[i].decls[k..] && FieldsInScope(EnvOf(p), i, DeclFilters(p, ds))
    ensures var r := DecodeFields(EnvOf(p), i, DeclFilters(p, ds), s);
            GetBody(p, i, Stats(p, i, ds), draft, s)
            == if r == None then None
               else Some((draft.(slots := Filled(draft.slots, k, r.value.0)), r.value.1))
    decreases |s|, i, 6, |ds|
  {
    if ds == [] {
      assert Filled(draft.slots, k, []) == draft.slots;
    } else {
      TailFilters(p, i, ds, k);
      var st := Stat(p, i, ds[0]);
      GetBodyStep(p, i, st, Stats(p, i, ds[1..]), draft, s);
      CallDecodesMember(p, i, k, draft, s);
      var x := Decode(EnvOf(p), i, DeclFilter(p, ds[0]), s);
      if x.Some? {
        var draft' := draft.(slots := draft.slots[k := Some(x.value.0)]);
        StatsDecode(p, i, ds[1..], k + 1, draft', x.value.1);
        var xs := DecodeFields(EnvOf(p), i, DeclFilters(p, ds[1..]), x.value.1);
        if xs.Some? {
          FilledMore(draft.slots, k, x.value.0, xs.value.0);
        }
      }
    }
  }

  lemma {:induction false} CallDecodesMember(p: Program, i: nat, k: nat, draft: Draft, s: seq<Byte>)
    requires Compiles(p) && i < |p.defs| && p.defs[i].StructDef? && k < |p.defs[i].decls| == |draft.slots|
    requires InScope(EnvOf(p), i, DeclFilter(p, p.defs[i].decls[k]))
    ensures var d := p.defs[i].decls[k];
            var x := Decode(EnvOf(p), i, DeclFilter(p, d), s);
            GetStmt(p, i, Stat(p, i, d), draft, s)
            == if x == None then None
               else Some((draft.(slots := draft.slots[k := Some(x.value.0)]), x.value.1))
    decreases |s|, i, 5
  {
    var d := p.defs[i].decls[k];
    var c := Stat(p, i, d).call;
    StoreMember(p, i, k, VVoid, draft);
    CallDecodes(p, i, d, c.obj, NameOf(d), s);
    var x := Decode(EnvOf(p), i, DeclFilter(p, d), s);
    assert GetCall(p, i, c, s) == x;
    if x.Some? {
      StoreMember(p, i, k, x.value.0, draft);
    }
  }

  // ---------------------------------------------------------------- unions

  lemma {:induction false} DiscDecodes(p: Program, i: nat, t: TypeName, s: seq<Byte>)
    requires Compiles(p) && i <= |p.defs| && DiscKind(p, i, t).Some?
    ensures GetProc(p, i, t, s) == TakeInt(DiscKind(p, i, t).value, s)
    decreases i
  {
    if t.Defined? {
      var j := IndexOf(p.defs, t.name);
      var st := Routines(p, j)[0];
      assert Routines(p, j) == [st];
      GetOneStatement(p, j, st, Blank(p, j), s);
      if p.defs[j].TypedefDef? {
        DiscDecodes(p, j, p.defs[j].decl.tref.name, s);
      }
      assert GetCall(p, j, st.call, s) == TakeInt(DiscKind(p, i, t).value, s);
      assert GetStmt(p, j, st, Blank(p, j), s) == GetOn(p, j, st.call, Blank(p, j), s);
    }
  }

  /** What the switch adds to a draft whose discriminant is known. */
  ghost function AfterArm(p: Program, i: nat, a: Option<Declaration>, draft: Draft, s: seq<Byte>)
    : Option<(Draft, seq<Byte>)>
    requires Compiles(p) && i < |p.defs| && (a.Some? ==> InScope(EnvOf(p), i, DeclFilter(p, a.value)))
  {
    if a == None then None else
      var r := Decode(EnvOf(p), i, DeclFilter(p, a.value), s);
      if a.value.tref.name == TVoid then Some((draft, s))
      else if r == None then None
      else Some((draft.(arm := Some(r.value.0)), r.value.1))
  }

  lemma {:induction false} SwitchDecodes(p: Program, i: nat, cs: seq<CaseTree>, dflt: Option<Declaration>,
                                         draft: Draft, s: seq<Byte>)
    requires Compiles(p) && i < |p.defs| && p.defs[i].UnionDef? && draft.disc.Some? && p.defs[i].dflt == dflt
    requires var d := draft.disc.value; ActiveArm(p, p.defs[i].cases, dflt, d) == ActiveArm(p, cs, dflt, d)
    requires (forall k :: 0 <= k < |cs| ==> ArmSane(cs[k].decl)) && (dflt.Some? ==> ArmSane(dflt.value))
    requires var a := ActiveArm(p, cs, dflt, draft.disc.value); a.Some? ==> InScope(EnvOf(p), i, DeclFilter(p, a.value))
    ensures GetSwitch(p, i, Labels(cs), DefaultLabel(dflt), draft, s)
         == AfterArm(p, i, ActiveArm(p, cs, dflt, draft.disc.value), draft, s)
    decreases |s|, i, 5, |cs|
  {
    if cs == [] {
      if dflt.Some? {
        ArmDecodes(p, i, dflt.value, draft, s);
      }
    } else if p.num(cs[0].value) == draft.disc.value {
      ArmDecodes(p, i, cs[0].decl, draft, s);
    } else {
      assert Labels(cs)[1..] == Labels(cs[1..]);
      SwitchDecodes(p, i, cs[1..], dflt, draft, s);
    }
  }

  lemma {:induction false} ArmDecodes(p: Program, i: nat, d: Declaration, draft: Draft, s: seq<Byte>)
    requires Compiles(p) && i < |p.defs| && p.defs[i].UnionDef? && draft.disc.Some? && ArmSane(d)
    requires ActiveArm(p, p.defs[i].cases, p.defs[i].dflt, draft.disc.value) == Some(d)
    requires InScope(EnvOf(p), i, DeclFilter(p, d))
    ensures (if ArmCall(d) == None then Some((draft, s)) else GetOn(p, i, ArmCall(d).value, draft, s))
         == AfterArm(p, i, Some(d), draft, s)
    decreases |s|, i, 4
  {
    if d.tref.name != TVoid {
      CallDecodes(p, i, d, ArmMember(NameOf(d)), NameOf(d), s);
    }
  }

  /** The arm that is active is the one that the declared union selects. */
  lemma {:induction false} ActiveIsSelected(p: Program, cs: seq<CaseTree>, dflt: Option<Declaration>, d: int)
    ensures var a := ActiveArm(p, cs, dflt, d);
            Select(Arms(p, cs), DefaultArm(p, dflt), d) == if a == None then None else Some(DeclFilter(p, a.value))
    ensures var a := ActiveArm(p, cs, dflt, d);
            (forall k :: 0 <= k < |cs| ==> ArmSane(cs[k].decl)) && (dflt.Some? ==> ArmSane(dflt.value)) && a.Some? ==>
              ArmSane(a.value)
  {
    if cs != [] && p.num(cs[0].value) != d {
      assert Arms(p, cs)[1..] == Arms(p, cs[1..]);
      ActiveIsSelected(p, cs[1..], dflt, d);
    }
  }

  /** After the discriminant: what the rest of a union's routine makes of the stream. */
  lemma {:induction false} UnionStatementsDecode(p: Program, i: nat, s: seq<Byte>)
    requires Compiles(p) && i < |p.defs| && p.defs[i].UnionDef?
    ensures DiscKind(p, i, p.defs[i].enumDecl.tref.name).Some?
    ensures var UnionDef(_, e, cs, dflt) := p.defs[i];
            var x := TakeInt(DiscKind(p, i, e.tref.name).value, s);
            GetBody(p, i, Routines(p, i), Blank(p, i), s)
            == if x == None then None
               else GetSwitch(p, i, Labels(cs), DefaultLabel(dflt), Blank(p, i).(disc := Some(x.value.0.i)), x.value.1)
  {
    assert DefSane(p, i);
    var UnionDef(_, e, cs, dflt) := p.defs[i];
    var st, w := Stat(p, i, e), Switch(NameOf(e), Labels(cs), DefaultLabel(dflt));
    DiscDecodes(p, i, e.tref.name, s);
    DiscNotArray(p, i, e.tref.name);
    assert st == IfFails(Direct(Member(NameOf(e), true), e.tref.name));
    assert Routines(p, i) == [st] + [w];
    GetBodyStep(p, i, st, [w], Blank(p, i), s);
    var x := TakeInt(DiscKind(p, i, e.tref.name).value, s);
    assert GetCall(p, i, st.call, s) == x;
    assert GetStmt(p, i, st, Blank(p, i), s) == GetOn(p, i, st.call, Blank(p, i), s);
    if x.Some? {
      var draft := Blank(p, i).(disc := Some(x.value.0.i));
      assert GetOn(p, i, st.call, Blank(p, i), s) == Some((draft, x.value.1));
      GetOneStatement(p, i, w, draft, x.value.1);
      GetOneSwitch(p, i, w, draft, x.value.1);
    }
  }

  lemma {:induction false} GetOneSwitch(p: Program, i: nat, w: Stmt, draft: Draft, s: seq<Byte>)
    requires i < |p.defs| && p.defs[i].UnionDef? && draft.disc.Some? && w.Switch?
             && p.defs[i].enumDecl.name == Some(w.disc)
    ensures GetStmt(p, i, w, draft, s) == GetSwitch(p, i, w.labels, w.otherwise, draft, s)
  {
  }

  /** The declared union in terms of the arm that is active. */
  lemma {:induction false} DeclaredUnion(p: Program, i: nat, s: seq<Byte>)
    requires Compiles(p) && i < |p.defs| && p.defs[i].UnionDef?
    ensures DiscKind(p, i, p.defs[i].enumDecl.tref.name).Some?
    ensures |s| < 4 ==> Decode(EnvOf(p), i, EnvOf(p)[i], s) == None
    ensures |s| >= 4 ==>
              var UnionDef(_, e, cs, dflt) := p.defs[i];
              var d := GetScalar(DiscKind(p, i, e.tref.name).value, GetWord(s[..4]));
              var a := ActiveArm(p, cs, dflt, d);
              && (a.Some? ==> InScope(EnvOf(p), i, DeclFilter(p, a.value)) && ArmSane(a.value))
              && Decode(EnvOf(p), i, EnvOf(p)[i], s) ==
                   if a == None then None else
                     var r := Decode(EnvOf(p), i, DeclFilter(p, a.value), s[4..]);
                     if r == None then None else Some((VUnion(d, r.value.0), r.value.1))
  {
    assert DefSane(p, i);
    var UnionDef(_, e, cs, dflt) := p.defs[i];
    var kind := DiscKind(p, i, e.tref.name).value;
    var arms, other := Arms(p, cs), DefaultArm(p, dflt);
    assert EnvOf(p)[i] == Union(kind, arms, other);
    if |s| >= 4 {
      var d := GetScalar(kind, GetWord(s[..4]));
      SelectScoped(arms, other, d, i, |p.defs|);
      ActiveIsSelected(p, cs, dflt, d);
    }
  }

  /** The union that a routine has put together once its switch is done. */
  lemma {:induction false} FinishArm(p: Program, i: nat, d: int, s: seq<Byte>)
    requires Compiles(p) && i < |p.defs| && p.defs[i].UnionDef?
    requires var a := ActiveArm(p, p.defs[i].cases, p.defs[i].dflt, d);
             a.Some? ==> InScope(EnvOf(p), i, DeclFilter(p, a.value)) && ArmSane(a.value)
    ensures var a := ActiveArm(p, p.defs[i].cases, p.defs[i].dflt, d);
            var r := AfterArm(p, i, a, Blank(p, i).(disc := Some(d)), s);
            && (a == None ==> r == None)
            && (a.Some? ==>
                  var x := Decode(EnvOf(p), i, DeclFilter(p, a.value), s);
                  if x == None then r == None
                  else r.Some? && Finish(p, i, r.value.0) == Some(VUnion(d, x.value.0)) && r.value.1 == x.value.1)
  {
  }

  lemma {:induction false} UnionDecodes(p: Program, i: nat, s: seq<Byte>)
    requires Compiles(p) && i < |p.defs| && p.defs[i].UnionDef?
    ensures GetObject(p, i, s) == Decode(EnvOf(p), i, EnvOf(p)[i], s)
    decreases |s|, i, 6
  {
    assert DefSane(p, i);
    var UnionDef(_, e, cs, dflt) := p.defs[i];
    UnionStatementsDecode(p, i, s);
    DeclaredUnion(p, i, s);
    if |s| >= 4 {
      var d := GetScalar(DiscKind(p, i, e.tref.name).value, GetWord(s[..4]));
      SwitchDecodes(p, i, cs, dflt, Blank(p, i).(disc := Some(d)), s[4..]);
      FinishArm(p, i, d, s[4..]);
    }
  }

  // ---------------------------------------------------------------- whole objects

  lemma {:induction false} StructDecodes(p: Program, i: nat, s: seq<Byte>)
    requires Compiles(p) && i < |p.defs| && p.defs[i].StructDef?
    ensures GetObject(p, i, s) == Decode(EnvOf(p), i, EnvOf(p)[i], s)
    decreases |s|, i, 7
  {
    var ds, draft := p.defs[i].decls, Blank(p, i);
    assert EnvOf(p)[i] == Struct(DeclFilters(p, ds)) && Scoped(EnvOf(p)[i], i, |p.defs|);
    assert ds[0..] == ds;
    StatsDecode(p, i, ds, 0, draft, s);
    var r := DecodeFields(EnvOf(p), i, DeclFilters(p, ds), s);
    if r.Some? {
      FilledAll(draft.slots, r.value.0);
    }
  }

  lemma {:induction false} SingleDecodes(p: Program, i: nat, s: seq<Byte>)
    requires Compiles(p) && i < |p.defs| && (p.defs[i].EnumDef? || p.defs[i].TypedefDef?)
    ensures GetObject(p, i, s) == GetCall(p, i, Routines(p, i)[0].call, s)
  {
    var st := Routines(p, i)[0];
    assert Routines(p, i) == [st];
    GetOneStatement(p, i, st, Blank(p, i), s);
    assert GetStmt(p, i, st, Blank(p, i), s) == GetOn(p, i, st.call, Blank(p, i), s);
  }

  /**
   * The routine written for a definition, with those it calls, decodes exactly what the declared
   * type prescribes, from any bytes.
   */
  lemma {:induction false} ObjectDecodes(p: Program, i: nat, s: seq<Byte>)
    requires Compiles(p) && i < |p.defs|
    ensures GetObject(p, i, s) == Decode(EnvOf(p), i, EnvOf(p)[i], s)
    decreases |s|, i, 8
  {
    assert DefSane(p, i) && Scoped(EnvOf(p)[i], i, |p.defs|);
    match p.defs[i]
    case StructDef(_, _) => StructDecodes(p, i, s);
    case UnionDef(_, _, _, _) => UnionDecodes(p, i, s);
    case EnumDef(_, _) => SingleDecodes(p, i, s);
    case TypedefDef(d) =>
      SingleDecodes(p, i, s);
      CallDecodes(p, i, d, Whole, NameOf(d), s);
  }

  /**
   * What a routine decodes is an object of the declared type exactly when no unlimited string of it
   * has met the count 2^32-1.
   */
  lemma {:induction false} ObjectIsTyped(p: Program, i: nat, s: seq<Byte>)
    requires Compiles(p) && i < |p.defs| && GetObject(p, i, s).Some?
    ensures HasType(EnvOf(p), i, EnvOf(p)[i], GetObject(p, i, s).value.0) <==> !MeetsNull(EnvOf(p), i, EnvOf(p)[i], s)
  {
    ObjectDecodes(p, i, s);
    assert Scoped(EnvOf(p)[i], i, |p.defs|);
    DecodedIsTyped(EnvOf(p), i, EnvOf(p)[i], s);
  }

  /** A constant and `typedef string s<>`. */
  function OneString(num: string -> int): Program {
    var d := Declaration(TypeRef(None, TString), Some("s"), RelArray, Some(Unlimited));
    ProgramOf([ConstDef("N", Symbol("5")), TypedefDef(d)], num)
  }

  lemma {:induction false} OneStringCompiles(num: string -> int)
    ensures var p := OneString(num); Compiles(p) && |p.defs| == 1 && EnvOf(p)[0] == CString(0xFFFF_FFFF)
  {
    var d := Declaration(TypeRef(None, TString), Some("s"), RelArray, Some(Unlimited));
    var defs := [ConstDef("N", Symbol("5")), TypedefDef(d)];
    assert defs[..1] == [ConstDef("N", Symbol("5"))] && defs[..1][..0] == [];
    assert TypeDefs(defs[..1][..0]) == [] && TypeDefs(defs[..1]) == [];
    assert OneString(num).defs == [TypedefDef(d)];
    assert Filters(OneString(num)) == [CString(0xFFFF_FFFF)];
  }

  lemma {:induction false} DecodesToNull(p: Program, t: seq<Byte>)
    requires Compiles(p) && |p.defs| == 1 && EnvOf(p)[0] == CString(0xFFFF_FFFF)
    ensures GetObject(p, 0, PutWord(0xFFFF_FFFF) + t) == Some((VNull, t))
  {
    WordFirst(0xFFFF_FFFF, t);
    ObjectDecodes(p, 0, PutWord(0xFFFF_FFFF) + t);
  }

  /** Of such a file, the routine for the string decodes four bytes to a null pointer. */
  lemma {:induction false} NullStringDecoded(num: string -> int, t: seq<Byte>)
    ensures var p := OneString(num);
            Compiles(p) && |p.defs| == 1 && GetObject(p, 0, PutWord(0xFFFF_FFFF) + t) == Some((VNull, t))
  {
    OneStringCompiles(num);
    DecodesToNull(OneString(num), t);
  }

  /**
   * The routines preserve meaning: what one of them encodes, run as an encoder, the same routine
   * run as a decoder turns back into the object, leaving whatever bytes stand behind.
   */
  lemma {:induction false} RoutinesRoundTrip(p: Program, i: nat, v: Value, t: seq<Byte>)
    requires Compiles(p) && i < |p.defs| && HasType(EnvOf(p), i, EnvOf(p)[i], v)
    requires RunBody(p, i, Routines(p, i), v).Some?
    ensures var b := RunBody(p, i, Routines(p, i), v).value;
            |b| % 4 == 0 && GetObject(p, i, b + t) == Some((v, t))
  {
    BodyMeans(p, i, v);
    EncodeThenDecode(EnvOf(p), i, EnvOf(p)[i], v, t);
    ObjectDecodes(p, i, RunBody(p, i, Routines(p, i), v).value + t);
  }
}
