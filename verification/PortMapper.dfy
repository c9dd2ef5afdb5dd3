/** The portmapper's linked list of registrations, changed in place. */
module PortMapper {
  import opened Bytes
  import opened PortTable

  class PmapNode {
    const pmap: Pmap
    var next: PmapNode?

    constructor (pmap: Pmap, next: PmapNode?)
      ensures this.pmap == pmap && this.next == next
    {
      this.pmap, this.next := pmap, next;
    }
  }

  ghost function NodeAt(nodes: seq<PmapNode>, i: nat): PmapNode? {
    if i < |nodes| then nodes[i] else null
  }

  ghost predicate Linked(head: PmapNode?, nodes: seq<PmapNode>)
    reads set n | n in nodes
  {
    && head == NodeAt(nodes, 0)
    && (forall i {:trigger nodes[i].next} :: 0 <= i < |nodes| ==> nodes[i].next == NodeAt(nodes, i + 1))
    && forall i, j :: 0 <= i < j < |nodes| ==> nodes[i] != nodes[j]
  }

  ghost function Maps(nodes: seq<PmapNode>): (t: Table)
    ensures |t| == |nodes|
  {
    seq(|nodes|, i requires 0 <= i < |nodes| => nodes[i].pmap)
  }

  class Registry {
    var pmaplist: PmapNode?
    ghost var nodes: seq<PmapNode>

    ghost predicate Valid()
      reads this, set n | n in nodes
    {
      Linked(pmaplist, nodes)
    }

    ghost function Table(): Table
      reads this
    {
      Maps(nodes)
    }

    constructor ()
      ensures Valid() && Table() == [] && nodes == []
    {
      pmaplist, nodes := null, [];
    }

    /** One pass down the list: the last match so far, stopping at an exact one. */
    method FindService(prog: Word, vers: Word, prot: Word) returns (hit: PmapNode?, ghost at: Option<nat>)
      requires Valid()
      ensures at == Find(Table(), Key(prog, vers, prot))
      ensures hit == if at.Some? then NodeAt(nodes, at.value) else null
      ensures at.Some? ==> at.value < |nodes|
    {
      ghost var t, k := Table(), Key(prog, vers, prot);
      ghost var i := 0;
      hit, at := null, None;
      var pml := pmaplist;
      assert t[0..] == t && t[..0] == [];
      while pml != null
        invariant 0 <= i <= |nodes| && pml == NodeAt(nodes, i)
        invariant at == AnyVersion(t[..i], prog, prot) && (at.Some? ==> at.value < i)
        invariant hit == if at.Some? then NodeAt(nodes, at.value) else null
        invariant forall j :: 0 <= j < i ==> KeyOf(t[j]) != k
        decreases |nodes| - i
      {
        assert t[i] == pml.pmap && t[..i + 1][..i] == t[..i];
        i := i + 1;
        if pml.pmap.prog != prog || pml.pmap.prot != prot {
          pml := pml.next;
          continue;
        }
        hit, at := pml, Some(i - 1);
        if pml.pmap.vers == vers {
          ExactFinds(t, k);
          FirstExact(t, k, i - 1);
          return;
        }
        pml := pml.next;
      }
      assert t[..i] == t;
      ExactFinds(t, k);
    }

    lemma {:induction false} FirstExact(t: Table, k: Key, i: nat)
      requires i < |t| && KeyOf(t[i]) == k && forall j :: 0 <= j < i ==> KeyOf(t[j]) != k
      ensures Exact(t, k) == Some(i)
    {
      if i > 0 {
        FirstExact(t[1..], k, i - 1);
      }
    }

    /** PMAPPROC_SET. */
    method Set(reg: Pmap) returns (ans: bool)
      requires Valid()
      modifies this
      ensures Valid() && (Table(), ans) == DoSet(old(Table()), reg)
      ensures forall n :: n in nodes ==> n in old(nodes) || fresh(n)
    {
      ExactFinds(Table(), KeyOf(reg));
      AnyVersionFinds(Table(), reg.prog, reg.prot);
      var fnd, at := FindService(reg.prog, reg.vers, reg.prot);
      if fnd != null && fnd.pmap.vers == reg.vers {
        ans := fnd.pmap.port == reg.port;
      } else {
        var pml := new PmapNode(reg, pmaplist);
        ghost var rest := nodes;
        pmaplist := pml;
        nodes := [pml] + nodes;
        assert forall i :: 1 <= i < |nodes| ==> nodes[i] == rest[i - 1];
        assert Table() == [reg] + Maps(rest);
        ans := true;
      }
    }

    /** PMAPPROC_GETPORT. */
    method GetPort(reg: Pmap) returns (port: Word)
      requires Valid()
      ensures port == PortFor(Table(), KeyOf(reg))
    {
      var fnd, at := FindService(reg.prog, reg.vers, reg.prot);
      port := if fnd != null then fnd.pmap.port else 0;
    }

    /** Makes the link to the node at `k` lead past it; `prev` holds that link, or the head does. */
    method RemoveAt(prev: PmapNode?, next: PmapNode?, ghost k: nat)
      requires Valid() && k < |nodes| && next == nodes[k].next
      requires prev == if k == 0 then null else nodes[k - 1]
      modifies this`pmaplist, this`nodes, (if prev == null then {} else {prev})`next
      ensures Valid() && nodes == old(nodes[..k] + nodes[k + 1..])
    {
      ghost var before := nodes;
      nodes := nodes[..k] + nodes[k + 1..];
      if prev == null {
        pmaplist := next;
      } else {
        prev.next := next;
      }
      assert forall i :: 0 <= i < |nodes| ==> nodes[i] == if i < k then before[i] else before[i + 1];
    }

    lemma {:induction false} KeepNext(k: nat, reg: Pmap)
      requires k < |nodes|
      ensures var rest, p := Maps(nodes[k + 1..]), nodes[k].pmap;
              var kept := Keep(rest, reg.prog, reg.vers);
              Keep(Maps(nodes[k..]), reg.prog, reg.vers)
              == if p.prog == reg.prog && p.vers == reg.vers then kept else [p] + kept
      ensures Maps(nodes[..k + 1]) == Maps(nodes[..k]) + [nodes[k].pmap]
    {
      assert Maps(nodes[k..])[1..] == Maps(nodes[k + 1..]);
      var kept := Keep(Maps(nodes[k + 1..]), reg.prog, reg.vers);
      assert [] + kept == kept;
    }

    /** PMAPPROC_UNSET: relinks around every entry of the program's version. */
    method Unset(reg: Pmap) returns (ans: bool)
      requires Valid()
      modifies this, set n | n in nodes
      ensures Valid() && (Table(), ans) == DoUnset(old(Table()), reg)
      ensures forall n :: n in nodes ==> n in old(nodes)
    {
      ghost var goal := Keep(Table(), reg.prog, reg.vers);
      ghost var k := 0;
      ans := false;
      var prevpml: PmapNode?, pml := null, pmaplist;
      assert nodes[0..] == nodes && Maps(nodes[..0]) == [];
      assert [] + goal == goal;
      while pml != null
        invariant 0 <= k <= |nodes| && pml == NodeAt(nodes, k) && Valid()
        invariant prevpml == if k == 0 then null else nodes[k - 1]
        invariant forall n :: n in nodes ==> n in old(nodes)
        invariant goal == Maps(nodes[..k]) + Keep(Maps(nodes[k..]), reg.prog, reg.vers)
        invariant ans <==> |nodes| < old(|nodes|)
        invariant |nodes| <= old(|nodes|)
        decreases |nodes| - k
      {
        KeepNext(k, reg);
        assert nodes[k].next == NodeAt(nodes, k + 1);
        if pml.pmap.prog != reg.prog || pml.pmap.vers != reg.vers {
          Shift(goal, Maps(nodes[..k]), pml.pmap, Keep(Maps(nodes[k + 1..]), reg.prog, reg.vers));
          prevpml := pml;
          pml := pml.next;
          k := k + 1;
        } else {
          ans := true;
          ghost var before := nodes;
          pml := pml.next;
          assert prevpml != null ==> prevpml in nodes;
          RemoveAt(prevpml, pml, k);
          assert nodes[..k] == before[..k] && nodes[k..] == before[k + 1..];
          assert forall n :: n in nodes ==> n in before;
        }
      }
      assert Maps(nodes[k..]) == [] && nodes[..k] == nodes;
      assert goal == Table() + [] == Table();
    }

    lemma {:induction false} Shift(goal: Table, front: Table, p: Pmap, back: Table)
      requires goal == front + ([p] + back)
      ensures goal == front + [p] + back
    {
    }
  }

  /** A fresh portmapper after a run of SETs and UNSETs. */
  method After(cs: seq<Command>) returns (r: Registry)
    ensures fresh(r) && (forall n :: n in r.nodes ==> fresh(n))
    ensures r.Valid() && r.Table() == Run(cs)
  {
    r := new Registry();
    for i := 0 to |cs|
      invariant fresh(r) && (forall n :: n in r.nodes ==> fresh(n))
      invariant r.Valid() && r.Table() == Run(cs[..i])
    {
      assert cs[..i + 1][..i] == cs[..i];
      match cs[i] {
        case Set(s) => var _ := r.Set(s);
        case Unset(s) => var _ := r.Unset(s);
      }
    }
    assert cs[..|cs|] == cs;
  }

  /** A portmapper, after any run of SETs and UNSETs, answers GETPORT as the table says. */
  method Replay(cs: seq<Command>, reg: Pmap) returns (port: Word)
    ensures port == PortFor(Run(cs), KeyOf(reg))
  {
    var r := After(cs);
    port := r.GetPort(reg);
  }
}
