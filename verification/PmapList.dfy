/** `xdr_pmaplist`: the list of all mappings, filtered by a loop instead of by recursion. */
module PmapList {
  import opened Bytes
  import opened Xdr
  import opened XdrMem
  import opened XdrPairs
  import PortTable
  import opened PortMapper

  type Pmap = PortTable.Pmap

  const PMAP: nat := 0
  const PMAP_LIST_NODE: nat := 1

  /** The recursive description: "more follows", a mapping, and the same again. */
  function ListEnv(): Env {
    var pmap := Struct([Basic(ULong), Basic(ULong), Basic(ULong), Basic(ULong)]);
    var node := Struct([Named(PMAP), Pointer(Named(PMAP_LIST_NODE))]);
    EachScoped(pmap.fields, 0, 2);
    EachScoped(node.fields, 1, 2);
    [pmap, node]
  }

  const LIST: Filter := Pointer(Named(PMAP_LIST_NODE))

  function PmapValue(p: Pmap): Value {
    VSeq([VInt(p.prog), VInt(p.vers), VInt(p.prot), VInt(p.port)])
  }

  function ListValue(t: seq<Pmap>): Value {
    if t == [] then VNull else VPtr(VSeq([PmapValue(t[0]), ListValue(t[1..])]))
  }

  function PmapBytes(p: Pmap): (s: seq<Byte>)
    ensures |s| == 16
  {
    PutWord(p.prog) + PutWord(p.vers) + PutWord(p.prot) + PutWord(p.port)
  }

  function ListBytes(t: seq<Pmap>): seq<Byte> {
    if t == [] then PutWord(0) else PutWord(1) + PmapBytes(t[0]) + ListBytes(t[1..])
  }

  /** What the loop has written after some elements. */
  function FrontBytes(t: seq<Pmap>): seq<Byte> {
    if t == [] then [] else FrontBytes(t[..|t| - 1]) + (PutWord(1) + PmapBytes(t[|t| - 1]))
  }

  lemma {:induction false} FrontThenRest(t: seq<Pmap>, k: nat)
    requires k <= |t|
    ensures ListBytes(t) == FrontBytes(t[..k]) + ListBytes(t[k..])
  {
    if k == 0 {
      assert t[..0] == [] && t[0..] == t && [] + ListBytes(t) == ListBytes(t);
    } else {
      FrontThenRest(t, k - 1);
      assert t[..k][..k - 1] == t[..k - 1] && t[k - 1..][1..] == t[k..] && t[..k][k - 1] == t[k - 1];
      var x := PutWord(1) + PmapBytes(t[k - 1]);
      assert FrontBytes(t[..k - 1]) + (x + ListBytes(t[k..])) == FrontBytes(t[..k - 1]) + x + ListBytes(t[k..]);
    }
  }

  // ---------------------------------------------------------------- the recursive procedure

  lemma {:induction false} PmapEncodes(p: Pmap)
    ensures HasType(ListEnv(), 1, Named(PMAP), PmapValue(p))
    ensures Encode(ListEnv(), 1, Named(PMAP), PmapValue(p)) == Some(PmapBytes(p))
  {
    var env, u := ListEnv(), Basic(ULong);
    var f0: seq<Filter>, v0: seq<Value> := [], [];
    var f1, v1 := [u] + f0, [VInt(p.port)] + v0;
    var f2, v2 := [u] + f1, [VInt(p.prot)] + v1;
    var f3, v3 := [u] + f2, [VInt(p.vers)] + v2;
    NumberThen(env, f0, p.port, v0);
    NumberThen(env, f1, p.prot, v1);
    NumberThen(env, f2, p.vers, v2);
    NumberThen(env, f3, p.prog, v3);
    assert [u] + f3 == [u, u, u, u] && [VInt(p.prog)] + v3 == PmapValue(p).items;
    assert PutWord(p.prog) + (PutWord(p.vers) + (PutWord(p.prot) + (PutWord(p.port) + []))) == PmapBytes(p);
  }

  lemma {:induction false} NumberThen(env: Env, fs: seq<Filter>, w: Word, vs: seq<Value>)
    requires |fs| == |vs| && FieldsInScope(env, 0, fs) && FieldsTyped(env, 0, fs, vs)
    ensures FieldsInScope(env, 0, [Basic(ULong)] + fs) && FieldsTyped(env, 0, [Basic(ULong)] + fs, [VInt(w)] + vs)
    ensures EncodeFields(env, 0, [Basic(ULong)] + fs, [VInt(w)] + vs)
         == Join(Some(PutWord(w)), EncodeFields(env, 0, fs, vs))
  {
    assert ([Basic(ULong)] + fs)[1..] == fs && ([VInt(w)] + vs)[1..] == vs;
  }

  /** The recursive procedure encodes a list as `ListBytes` says. */
  lemma {:induction false} RecursiveEncoding(t: seq<Pmap>, level: nat)
    requires level <= 2
    ensures HasType(ListEnv(), level, LIST, ListValue(t))
    ensures Encode(ListEnv(), level, LIST, ListValue(t)) == Some(ListBytes(t))
  {
    if t != [] {
      RecursiveEncoding(t[1..], 1);
      PmapEncodes(t[0]);
      NodeEncodes(t[0], t[1..]);
      assert PutWord(1) + (PmapBytes(t[0]) + ListBytes(t[1..])) == ListBytes(t);
    }
  }

  lemma {:induction false} NodeEncodes(p: Pmap, rest: seq<Pmap>)
    requires HasType(ListEnv(), 1, LIST, ListValue(rest))
    requires Encode(ListEnv(), 1, LIST, ListValue(rest)) == Some(ListBytes(rest))
    ensures var v := VSeq([PmapValue(p), ListValue(rest)]);
            HasType(ListEnv(), 2, Named(PMAP_LIST_NODE), v)
            && Encode(ListEnv(), 2, Named(PMAP_LIST_NODE), v) == Some(PmapBytes(p) + ListBytes(rest))
  {
    PmapEncodes(p);
    var env, v := ListEnv(), VSeq([PmapValue(p), ListValue(rest)]);
    assert env[PMAP_LIST_NODE] == Struct([Named(PMAP), LIST]);
    PairTyped(env, 1, Named(PMAP), LIST, PmapValue(p), ListValue(rest));
    EncodePair(env, 1, Named(PMAP), LIST, v);
  }

  // ---------------------------------------------------------------- the loop, encoding

  /** What the loop has written when it comes to element number `i`. */
  ghost function Front(t: seq<Pmap>, i: nat): seq<Byte>
    requires i <= |t|
  {
    FrontBytes(t[..i])
  }

  ghost function Whole(t: seq<Pmap>): seq<Byte> {
    ListBytes(t)
  }

  lemma {:induction false} FrontStep(t: seq<Pmap>, i: nat)
    requires i <= |t|
    ensures i < |t| ==> Front(t, i + 1) == Front(t, i) + (PutWord(1) + PmapBytes(t[i]))
    ensures i == |t| ==> Whole(t) == Front(t, i) + PutWord(0)
    ensures |Whole(t)| >= |Front(t, i)| + if i == |t| then 4 else 24
  {
    FrontThenRest(t, i);
    if i < |t| {
      assert t[..i + 1][..i] == t[..i];
      assert |ListBytes(t[i..][1..])| >= 4;
    }
  }

  /** "More follows", then `xdr_pmap` by reference. */
  method EncodeOne(m: MemStream, p: Pmap) returns (ok: bool)
    requires m.Valid()
    modifies m, m.base
    ensures Encoded(m, ok, Some(PutWord(1) + PmapBytes(p)))
  {
    ok := m.PutLong(1);
    if !ok {
      return;
    }
    ghost var mid := m.base[..];
    PmapEncodes(p);
    ok := EncodeItem(m, ListEnv(), 1, Named(PMAP), PmapValue(p));
    AfterWord(m, 1, mid, ok, Some(PmapBytes(p)));
  }

  /** One turn of the loop: an element, or that there are no more. */
  method EncodeTurn(m: MemStream, cur: PmapNode?) returns (ok: bool, ghost x: seq<Byte>)
    requires m.Valid()
    modifies m, m.base
    ensures x == if cur == null then PutWord(0) else PutWord(1) + PmapBytes(cur.pmap)
    ensures Encoded(m, ok, Some(x))
  {
    if cur == null {
      x := PutWord(0);
      ok := m.PutLong(0);
    } else {
      x := PutWord(1) + PmapBytes(cur.pmap);
      ok := EncodeOne(m, cur.pmap);
    }
  }

  /** The loop down a linked list writes what the recursion would, and fails only for want of room. */
  method EncodePmapList(m: MemStream, rp: PmapNode?, ghost nodes: seq<PmapNode>) returns (ok: bool)
    requires m.Valid() && Linked(rp, nodes)
    modifies m, m.base
    ensures ok == (|ListBytes(Maps(nodes))| <= old(m.handy))
    ensures ok ==> m.Wrote(ListBytes(Maps(nodes)))
  {
    ghost var t := Maps(nodes);
    assert Whole(t) == ListBytes(t);
    var cur := rp;
    ghost var i := 0;
    assert Front(t, 0) == [];
    while true
      invariant 0 <= i <= |nodes| && cur == NodeAt(nodes, i) && Linked(rp, nodes)
      invariant m.Wrote(Front(t, i))
      decreases |nodes| - i
    {
      FrontStep(t, i);
      var moreElements := cur != null;
      ghost var mid := m.base[..];
      ghost var x;
      ok, x := EncodeTurn(m, cur);
      if !ok {
        return;
      }
      WroteBoth(m, Front(t, i), x, mid);
      if !moreElements {
        return;
      }
      assert nodes[i].next == NodeAt(nodes, i + 1);
      cur := cur.next;
      i := i + 1;
    }
  }

  // ---------------------------------------------------------------- the loop, decoding

  /** A list whose first elements are `t` and whose remainder is `v`. */
  function Append(t: seq<Pmap>, v: Value): Value {
    if t == [] then v else VPtr(VSeq([PmapValue(t[0]), Append(t[1..], v)]))
  }

  lemma {:induction false} AppendOne(t: seq<Pmap>, p: Pmap, v: Value)
    ensures Append(t + [p], v) == Append(t, VPtr(VSeq([PmapValue(p), v])))
    ensures Append(t, VNull) == ListValue(t)
  {
    if t == [] {
      assert [p][1..] == [];
      assert t + [p] == [p];
    } else {
      assert (t + [p])[1..] == t[1..] + [p];
      AppendOne(t[1..], p, v);
    }
  }

  ghost function DecodeList(s: seq<Byte>): Option<(Value, seq<Byte>)> {
    Decode(ListEnv(), 2, LIST, s)
  }

  ghost function DecodePmap(s: seq<Byte>): Option<(Value, seq<Byte>)> {
    Decode(ListEnv(), 1, Named(PMAP), s)
  }

  /** One turn of the recursion. */
  lemma {:induction false} ListTurn(s: seq<Byte>)
    ensures |s| < 4 ==> DecodeList(s) == None
    ensures |s| >= 4 && GetWord(s[..4]) == 0 ==> DecodeList(s) == Some((VNull, s[4..]))
    ensures |s| >= 4 && GetWord(s[..4]) != 0 && DecodePmap(s[4..]) == None ==> DecodeList(s) == None
    ensures |s| >= 4 && GetWord(s[..4]) != 0 && DecodePmap(s[4..]).Some? ==>
              var x := DecodePmap(s[4..]).value;
              var r := DecodeList(x.1);
              DecodeList(s) == if r == None then None else Some((VPtr(VSeq([x.0, r.value.0])), r.value.1))
  {
    if |s| >= 4 && GetWord(s[..4]) != 0 {
      var env := ListEnv();
      assert env[PMAP_LIST_NODE] == Struct([Named(PMAP), LIST]);
      DecodePair(env, 1, Named(PMAP), LIST, s[4..]);
      assert Decode(env, 2, Named(PMAP_LIST_NODE), s[4..]) == DecodeBoth(env, 1, Named(PMAP), LIST, s[4..]);
      var x := DecodePmap(s[4..]);
      assert x.Some? ==> Decode(env, 1, LIST, x.value.1) == DecodeList(x.value.1);
    }
  }

  lemma {:induction false} PmapTyped(v: Value)
    requires HasType(ListEnv(), 1, Named(PMAP), v)
    ensures v.VSeq? && |v.items| == 4
    ensures forall i :: 0 <= i < 4 ==> v.items[i].VInt? && 0 <= v.items[i].i < TWO_TO_32
  {
    var env, fs := ListEnv(), ListEnv()[PMAP].fields;
    assert HasType(env, 0, Struct(fs), v);
    forall i | 0 <= i < 4 ensures v.items[i].VInt? && 0 <= v.items[i].i < TWO_TO_32 {
      FieldTyped(env, 0, fs, v.items, i);
    }
  }

  /** `xdr_pmap` on a decoding stream. */
  method DecodeOne(m: MemStream) returns (ok: bool, p: Pmap)
    requires m.Valid()
    modifies m
    ensures var x := DecodePmap(old(m.Remaining()));
            && ok == x.Some?
            && (ok ==> m.Valid() && m.pos + m.handy == old(m.pos + m.handy) && x.value == (PmapValue(p), m.Remaining()))
  {
    p := PortTable.Pmap(0, 0, 0, 0);
    ghost var s := m.Remaining();
    var v;
    ok, v := DecodeItem(m, ListEnv(), 1, Named(PMAP));
    if ok {
      LimitedMeetsNone(ListEnv(), 1, Named(PMAP), s);
      DecodedIsTyped(ListEnv(), 1, Named(PMAP), s);
      PmapTyped(v);
      p := PortTable.Pmap(v.items[0].i, v.items[1].i, v.items[2].i, v.items[3].i);
      assert v.items == PmapValue(p).items;
    }
  }

  /** Links a new last node in; `last` is the present last node, if any. */
  method AddLast(head: PmapNode?, last: PmapNode?, p: Pmap, ghost nodes: seq<PmapNode>)
    returns (head': PmapNode, node: PmapNode, ghost all: seq<PmapNode>)
    requires Linked(head, nodes) && last == (if nodes == [] then null else nodes[|nodes| - 1])
    modifies (if last == null then {} else {last})`next
    ensures fresh(node) && all == nodes + [node] && Maps(all) == Maps(nodes) + [p]
    ensures Linked(head', all)
  {
    node := new PmapNode(p, null);
    all := nodes + [node];
    if last == null {
      head' := node;
    } else {
      last.next := node;
      head' := head;
    }
    assert forall i :: 0 <= i < |nodes| ==> all[i] == nodes[i];
  }

  /** One turn of the decoding loop: whether there is an element, and the element. */
  method DecodeTurn(m: MemStream) returns (ok: bool, more: bool, p: Pmap)
    requires m.Valid()
    modifies m
    ensures ok ==> m.Valid() && m.pos + m.handy == old(m.pos + m.handy) && m.handy < old(m.handy)
    ensures old(DecodeList(m.Remaining())) ==
              if !ok then None
              else if !more then Some((VNull, m.Remaining()))
              else InFront(p, DecodeList(m.Remaining()))
  {
    p := PortTable.Pmap(0, 0, 0, 0);
    ListTurn(m.Remaining());
    var moreElements;
    ok, moreElements := m.GetLong();
    more := moreElements != 0;
    if ok && more {
      ok, p := DecodeOne(m);
    }
  }

  /** A list with one more element in front. */
  ghost function InFront(p: Pmap, r: Option<(Value, seq<Byte>)>): Option<(Value, seq<Byte>)> {
    if r == None then None else Some((VPtr(VSeq([PmapValue(p), r.value.0])), r.value.1))
  }

  /** A list with the elements `t` in front. */
  ghost function Behind(t: seq<Pmap>, r: Option<(Value, seq<Byte>)>): Option<(Value, seq<Byte>)> {
    if r == None then None else Some((Append(t, r.value.0), r.value.1))
  }

  lemma {:induction false} BehindOne(t: seq<Pmap>, p: Pmap, r: Option<(Value, seq<Byte>)>)
    ensures Behind(t, InFront(p, r)) == Behind(t + [p], r)
  {
    if r.Some? {
      AppendOne(t, p, r.value.0);
    }
  }

  /**
   * The decoding loop accepts what the recursion accepts, rebuilds the same list in the same
   * order and stops at the same byte.
   */
  method DecodePmapList(m: MemStream) returns (ok: bool, head: PmapNode?, ghost nodes: seq<PmapNode>)
    requires m.Valid()
    modifies m
    ensures var r := DecodeList(old(m.Remaining()));
            && ok == r.Some?
            && (ok ==> Linked(head, nodes) && m.Valid() && r.value == (ListValue(Maps(nodes)), m.Remaining()))
  {
    head, nodes := null, [];
    var last: PmapNode? := null;
    ghost var goal := DecodeList(m.Remaining());
    while true
      invariant m.Valid() && m.pos + m.handy == old(m.pos + m.handy)
      invariant forall k :: 0 <= k < |nodes| ==> fresh(nodes[k])
      invariant Linked(head, nodes) && last == (if nodes == [] then null else nodes[|nodes| - 1])
      invariant goal == Behind(Maps(nodes), DecodeList(m.Remaining()))
      decreases m.handy
    {
      var more, p;
      ok, more, p := DecodeTurn(m);
      if !ok {
        return;
      }
      if !more {
        AppendOne(Maps(nodes), p, VNull);
        return;
      }
      BehindOne(Maps(nodes), p, DecodeList(m.Remaining()));
      head, last, nodes := AddLast(head, last, p, nodes);
    }
  }

  // ---------------------------------------------------------------- PMAPPROC_DUMP

  lemma {:induction false} SameList(t: seq<Pmap>, u: seq<Pmap>)
    requires ListValue(t) == ListValue(u)
    ensures t == u
  {
    if t != [] && u != [] {
      assert PmapValue(t[0]).items == PmapValue(u[0]).items;
      SameList(t[1..], u[1..]);
      assert t == [t[0]] + t[1..] && u == [u[0]] + u[1..];
    }
  }

  /** A list that is read back is the list that was written. */
  lemma {:induction false} ListRoundTrip(t: seq<Pmap>, rest: seq<Byte>)
    ensures DecodeList(ListBytes(t) + rest) == Some((ListValue(t), rest))
  {
    RecursiveEncoding(t, 2);
    RoundTrip(ListEnv(), 2, LIST, ListValue(t), rest);
  }

  /** After any run of SETs and UNSETs the reply to DUMP is the encoding of the table. */
  method Dump(cs: seq<PortTable.Command>, m: MemStream) returns (ok: bool)
    requires m.Valid()
    modifies m, m.base
    ensures ok == (|ListBytes(PortTable.Run(cs))| <= old(m.handy))
    ensures ok ==> m.Wrote(ListBytes(PortTable.Run(cs)))
  {
    var r := After(cs);
    ok := EncodePmapList(m, r.pmaplist, r.nodes);
  }

  /** And a client that decodes it holds a list of exactly the registrations in force, in their order. */
  method DumpAndList(cs: seq<PortTable.Command>, size: nat)
    returns (ok: bool, head: PmapNode?, ghost nodes: seq<PmapNode>)
    requires size < TWO_TO_31
    ensures ok == (|ListBytes(PortTable.Run(cs))| <= size)
    ensures ok ==> Linked(head, nodes) && Maps(nodes) == PortTable.Run(cs)
  {
    var buf := new Byte[size](i => 0);
    var enc := new MemStream(buf, size);
    head, nodes := null, [];
    ok := Dump(cs, enc);
    if !ok {
      return;
    }
    ghost var t := PortTable.Run(cs);
    var dec := new MemStream(buf, enc.pos);
    assert dec.Remaining() == ListBytes(t) + [];
    ListRoundTrip(t, []);
    ok, head, nodes := DecodePmapList(dec);
    SameList(Maps(nodes), t);
  }
}
