/** The portmapper's registrations: what SET, UNSET and GETPORT mean. Section 3.2 of RFC 1833. */
module PortTable {
  import opened Bytes

  datatype Pmap = Pmap(prog: Word, vers: Word, prot: Word, port: Word)

  datatype Key = Key(prog: Word, vers: Word, prot: Word)

  function KeyOf(p: Pmap): Key {
    Key(p.prog, p.vers, p.prot)
  }

  /** A table, latest registration first. */
  type Table = seq<Pmap>

  datatype Command = Set(reg: Pmap) | Unset(reg: Pmap)

  /** The position of the first entry with this very key. */
  function Exact(t: Table, k: Key): Option<nat> {
    if t == [] then None
    else if KeyOf(t[0]) == k then Some(0)
    else
      var r := Exact(t[1..], k);
      if r == None then None else Some(r.value + 1)
  }

  /** The position of the last entry for this program and protocol, whatever its version. */
  function AnyVersion(t: Table, prog: Word, prot: Word): Option<nat> {
    if t == [] then None
    else if t[|t| - 1].prog == prog && t[|t| - 1].prot == prot then Some(|t| - 1)
    else AnyVersion(t[..|t| - 1], prog, prot)
  }

  /** `find_service`. */
  function Find(t: Table, k: Key): Option<nat> {
    if Exact(t, k).Some? then Exact(t, k) else AnyVersion(t, k.prog, k.prot)
  }

  function Keep(t: Table, prog: Word, vers: Word): Table {
    if t == [] then []
    else (if t[0].prog == prog && t[0].vers == vers then [] else [t[0]]) + Keep(t[1..], prog, vers)
  }

  function DoSet(t: Table, reg: Pmap): (Table, bool) {
    var e := Exact(t, KeyOf(reg));
    if e.Some? && e.value < |t| then (t, t[e.value].port == reg.port) else ([reg] + t, true)
  }

  function DoUnset(t: Table, reg: Pmap): (Table, bool) {
    var t' := Keep(t, reg.prog, reg.vers);
    (t', |t'| < |t|)
  }

  function Step(t: Table, c: Command): Table {
    match c
    case Set(r) => DoSet(t, r).0
    case Unset(r) => DoUnset(t, r).0
  }

  function Run(cs: seq<Command>): Table {
    if cs == [] then [] else Step(Run(cs[..|cs| - 1]), cs[|cs| - 1])
  }

  ghost predicate Unique(t: Table) {
    forall i, j :: 0 <= i < j < |t| ==> KeyOf(t[i]) != KeyOf(t[j])
  }

  // ---------------------------------------------------------------- lookups

  lemma {:induction false} ExactFinds(t: Table, k: Key)
    ensures Exact(t, k) == None <==> forall i :: 0 <= i < |t| ==> KeyOf(t[i]) != k
    ensures Exact(t, k).Some? ==> Exact(t, k).value < |t| && KeyOf(t[Exact(t, k).value]) == k
  {
    if t != [] && KeyOf(t[0]) != k {
      ExactFinds(t[1..], k);
      assert forall i :: 1 <= i < |t| ==> t[i] == t[1..][i - 1];
    }
  }

  lemma {:induction false} AnyVersionFinds(t: Table, prog: Word, prot: Word)
    ensures var r := AnyVersion(t, prog, prot);
            && (r == None <==> forall i :: 0 <= i < |t| ==> t[i].prog != prog || t[i].prot != prot)
            && (r.Some? ==> r.value < |t| && t[r.value].prog == prog && t[r.value].prot == prot
                            && forall j :: r.value < j < |t| ==> t[j].prog != prog || t[j].prot != prot)
  {
    if t != [] {
      AnyVersionFinds(t[..|t| - 1], prog, prot);
    }
  }

  lemma {:induction false} KeepMeaning(t: Table, prog: Word, vers: Word)
    ensures forall p :: p in Keep(t, prog, vers) <==> p in t && !(p.prog == prog && p.vers == vers)
    ensures |Keep(t, prog, vers)| <= |t|
    ensures |Keep(t, prog, vers)| == |t| <==> forall p :: p in t ==> !(p.prog == prog && p.vers == vers)
  {
    if t != [] {
      KeepMeaning(t[1..], prog, vers);
      assert t == [t[0]] + t[1..];
    }
  }

  lemma {:induction false} UniqueTail(t: Table)
    requires t != [] && Unique(t)
    ensures Unique(t[1..]) && forall p :: p in t[1..] ==> KeyOf(p) != KeyOf(t[0])
  {
  }

  lemma {:induction false} KeepUnique(t: Table, prog: Word, vers: Word)
    requires Unique(t)
    ensures Unique(Keep(t, prog, vers))
  {
    if t != [] {
      UniqueTail(t);
      KeepUnique(t[1..], prog, vers);
      KeepMeaning(t[1..], prog, vers);
      var rest := Keep(t[1..], prog, vers);
      forall i | 0 <= i < |rest| ensures KeyOf(rest[i]) != KeyOf(t[0]) {
        assert rest[i] in t[1..];
      }
    }
  }

  // ---------------------------------------------------------------- the table as a map

  /** The binding each key has. */
  function AsMap(t: Table): map<Key, Word> {
    if t == [] then map[] else AsMap(t[1..])[KeyOf(t[0]) := t[0].port]
  }

  lemma {:induction false} MapHasEntries(t: Table)
    ensures forall k :: k in AsMap(t) <==> Exact(t, k).Some?
    ensures forall k :: k in AsMap(t) ==> Exact(t, k).value < |t| && AsMap(t)[k] == t[Exact(t, k).value].port
  {
    if t != [] {
      MapHasEntries(t[1..]);
    }
  }

  /** In every run no key is registered twice. */
  lemma {:induction false} RunUnique(cs: seq<Command>)
    ensures Unique(Run(cs))
  {
    if cs != [] {
      var t, c := Run(cs[..|cs| - 1]), cs[|cs| - 1];
      RunUnique(cs[..|cs| - 1]);
      match c {
        case Set(r) =>
          ExactFinds(t, KeyOf(r));
        case Unset(r) =>
          KeepUnique(t, r.prog, r.vers);
      }
    }
  }

  /** SET answers yes exactly when the key was free or already had that port, and binds only a free key. */
  lemma {:induction false} SetOnMap(t: Table, reg: Pmap)
    ensures var (t', ans) := DoSet(t, reg);
            var m, k := AsMap(t), KeyOf(reg);
            && (ans <==> k !in m || m[k] == reg.port)
            && AsMap(t') == if k in m then m else m[k := reg.port]
  {
    MapHasEntries(t);
    ExactFinds(t, KeyOf(reg));
    assert ([reg] + t)[1..] == t;
  }

  /** UNSET removes every protocol of the program's version, and answers whether there was one. */
  lemma {:induction false} UnsetOnMap(t: Table, reg: Pmap)
    ensures var (t', ans) := DoUnset(t, reg);
            && (ans <==> exists k :: k in AsMap(t) && k.prog == reg.prog && k.vers == reg.vers)
            && AsMap(t') == map k | k in AsMap(t) && !(k.prog == reg.prog && k.vers == reg.vers) :: AsMap(t)[k]
  {
    KeepOnMap(t, reg.prog, reg.vers);
    KeepMeaning(t, reg.prog, reg.vers);
    MapHasEntries(t);
    if |Keep(t, reg.prog, reg.vers)| < |t| {
      var p :| p in t && p.prog == reg.prog && p.vers == reg.vers;
      ExactFinds(t, KeyOf(p));
      assert KeyOf(p) in AsMap(t);
    } else if k :| k in AsMap(t) && k.prog == reg.prog && k.vers == reg.vers {
      ExactFinds(t, k);
      assert t[Exact(t, k).value] in t;
    }
  }

  lemma {:induction false} InFront(r: Pmap, rest: Table)
    ensures AsMap([r] + rest) == AsMap(rest)[KeyOf(r) := r.port]
  {
    assert ([r] + rest)[1..] == rest;
  }

  lemma {:induction false} KeepOnMap(t: Table, prog: Word, vers: Word)
    ensures AsMap(Keep(t, prog, vers)) == map k | k in AsMap(t) && !(k.prog == prog && k.vers == vers) :: AsMap(t)[k]
  {
    if t != [] {
      KeepOnMap(t[1..], prog, vers);
      var rest := Keep(t[1..], prog, vers);
      if t[0].prog == prog && t[0].vers == vers {
        assert Keep(t, prog, vers) == [] + rest == rest;
      } else {
        assert Keep(t, prog, vers) == [t[0]] + rest;
        InFront(t[0], rest);
      }
    }
  }

  // ---------------------------------------------------------------- registration order

  /** A registration and the number of the SET that made it. */
  datatype Stamp = Stamp(reg: Pmap, time: nat)

  /** The registrations in force after `cs`, with the command each came from. */
  function Stamps(cs: seq<Command>): seq<Stamp> {
    if cs == [] then [] else
      var now := |cs| - 1;
      var s := Stamps(cs[..now]);
      match cs[now]
      case Set(r) => if Exact(Regs(s), KeyOf(r)).Some? then s else [Stamp(r, now)] + s
      case Unset(r) => KeepStamps(s, r.prog, r.vers)
  }

  function Regs(s: seq<Stamp>): (t: Table)
    ensures |t| == |s| && forall i :: 0 <= i < |s| ==> t[i] == s[i].reg
  {
    if s == [] then [] else [s[0].reg] + Regs(s[1..])
  }

  function KeepStamps(s: seq<Stamp>, prog: Word, vers: Word): seq<Stamp> {
    if s == [] then []
    else (if s[0].reg.prog == prog && s[0].reg.vers == vers then [] else [s[0]]) + KeepStamps(s[1..], prog, vers)
  }

  /** Every stamp names its own SET, before command `bound`, and they come latest first. */
  predicate LatestFirst(s: seq<Stamp>, cs: seq<Command>, bound: nat) {
    s == [] || (s[0].time < bound && s[0].time < |cs| && cs[s[0].time] == Set(s[0].reg)
                && LatestFirst(s[1..], cs, s[0].time))
  }

  lemma {:induction false} KeepStampsMeaning(s: seq<Stamp>, prog: Word, vers: Word, cs: seq<Command>, bound: nat)
    requires LatestFirst(s, cs, bound)
    ensures LatestFirst(KeepStamps(s, prog, vers), cs, bound)
  {
    if s != [] {
      var rest := KeepStamps(s[1..], prog, vers);
      KeepStampsMeaning(s[1..], prog, vers, cs, s[0].time);
      assert ([s[0]] + rest)[1..] == rest && [] + rest == rest;
    }
  }

  lemma {:induction false} KeepStampsKeeps(s: seq<Stamp>, prog: Word, vers: Word)
    ensures Regs(KeepStamps(s, prog, vers)) == Keep(Regs(s), prog, vers)
  {
    if s != [] {
      var rest := KeepStamps(s[1..], prog, vers);
      KeepStampsKeeps(s[1..], prog, vers);
      assert Regs(s)[1..] == Regs(s[1..]);
      assert ([s[0]] + rest)[1..] == rest && [] + rest == rest;
    }
  }

  lemma {:induction false} LongerRun(s: seq<Stamp>, cs: seq<Command>, cs': seq<Command>, bound: nat)
    requires LatestFirst(s, cs, bound) && cs <= cs'
    ensures LatestFirst(s, cs', bound)
  {
    if s != [] {
      LongerRun(s[1..], cs, cs', s[0].time);
    }
  }

  lemma {:induction false} InTimeOrder(s: seq<Stamp>, cs: seq<Command>, bound: nat)
    requires LatestFirst(s, cs, bound)
    ensures forall i :: 0 <= i < |s| ==> s[i].time < bound && s[i].time < |cs| && cs[s[i].time] == Set(s[i].reg)
    ensures forall i, j :: 0 <= i < j < |s| ==> s[i].time > s[j].time
  {
    if s != [] {
      InTimeOrder(s[1..], cs, s[0].time);
      assert forall i :: 1 <= i < |s| ==> s[i] == s[1..][i - 1];
    }
  }

  /** In every run the table lists the registrations in force, latest first. */
  lemma {:induction false} RunInOrder(cs: seq<Command>)
    ensures LatestFirst(Stamps(cs), cs, |cs|) && Regs(Stamps(cs)) == Run(cs)
  {
    if cs != [] {
      var now := |cs| - 1;
      var before, s := cs[..now], Stamps(cs[..now]);
      RunInOrder(before);
      LongerRun(s, before, cs, now);
      match cs[now] {
        case Set(r) =>
          ExactFinds(Run(before), KeyOf(r));
          assert ([Stamp(r, now)] + s)[1..] == s;
        case Unset(r) =>
          KeepStampsMeaning(s, r.prog, r.vers, cs, now);
          KeepStampsKeeps(s, r.prog, r.vers);
      }
    }
  }

  /** What GETPORT answers: zero stands for no registration. */
  function PortFor(t: Table, k: Key): Word {
    var f := Find(t, k);
    if f.Some? && f.value < |t| then t[f.value].port else 0
  }

  predicate SameService(x: Stamp, k: Key) {
    x.reg.prog == k.prog && x.reg.prot == k.prot
  }

  /** Of the stamps for this program and protocol, the one whose SET came first. */
  ghost predicate Earliest(s: seq<Stamp>, k: Key, x: Stamp) {
    x in s && SameService(x, k) && forall y :: y in s && SameService(y, k) ==> x.time <= y.time
  }

  /**
   * GETPORT after any run: the key's own binding if it has one; failing that the binding, of the
   * same program and protocol, whose SET came earliest; failing that zero.
   */
  lemma {:induction false} GetPortMeaning(cs: seq<Command>, k: Key)
    ensures var m, s, port := AsMap(Run(cs)), Stamps(cs), PortFor(Run(cs), k);
            && (k in m ==> port == m[k])
            && (k !in m && (forall x :: x in s ==> !SameService(x, k)) ==> port == 0)
            && (k !in m && (exists x :: x in s && SameService(x, k)) ==>
                  exists x :: Earliest(s, k, x) && port == x.reg.port)
  {
    var t, s := Run(cs), Stamps(cs);
    RunInOrder(cs);
    InTimeOrder(s, cs, |cs|);
    MapHasEntries(t);
    ExactFinds(t, k);
    Fallback(s, k);
  }

  /** The fallback of the search is the last stamp for the service. */
  lemma {:induction false} LastStamp(s: seq<Stamp>, k: Key)
    ensures var r := AnyVersion(Regs(s), k.prog, k.prot);
            && (r == None ==> forall j :: 0 <= j < |s| ==> !SameService(s[j], k))
            && (r.Some? ==> r.value < |s| && SameService(s[r.value], k)
                            && forall j :: r.value < j < |s| ==> !SameService(s[j], k))
  {
    var t := Regs(s);
    AnyVersionFinds(t, k.prog, k.prot);
    assert forall j :: 0 <= j < |s| ==> t[j] == s[j].reg;
  }

  /** Which is the earliest. */
  lemma {:induction false} Fallback(s: seq<Stamp>, k: Key)
    requires forall i, j :: 0 <= i < j < |s| ==> s[i].time > s[j].time
    ensures var r := AnyVersion(Regs(s), k.prog, k.prot);
            && (r == None <==> forall x :: x in s ==> !SameService(x, k))
            && (r.Some? ==> r.value < |s| && Earliest(s, k, s[r.value]))
  {
    LastStamp(s, k);
    var r := AnyVersion(Regs(s), k.prog, k.prot);
    if r.Some? {
      var x := s[r.value];
      forall y | y in s && SameService(y, k) ensures x.time <= y.time {
        var j :| 0 <= j < |s| && s[j] == y;
      }
    }
  }
}
