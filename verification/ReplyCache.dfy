/** The UDP transport's reply cache: a chained hash table, a circular FIFO and swapped buffers. */
module ReplyCache {
  import opened Bytes
  import opened ReplyLog
  import CallMsg

  const SPARSENESS: nat := 4

  class CacheNode {
    var key: Key
    var reply: array<Byte>
    var replyLen: nat
    var next: CacheNode?

    constructor (reply: array<Byte>)
      ensures this.reply == reply
    {
      this.key := Key(0, Call(0, 0, 0, Address(0, 0)));
      this.reply := reply;
      this.replyLen := 0;
      this.next := null;
    }
  }

  /** A cached entry together with the node and the buffer that hold it. */
  datatype Slot = Slot(node: CacheNode, buffer: array<Byte>, entry: Entry)

  function Hash(xid: Word, width: nat): nat
    requires width > 0
  {
    xid % width
  }

  /** The slots that belong in one hash chain, newest first. */
  ghost function Chain(slots: seq<Slot>, loc: nat, width: nat): (c: seq<Slot>)
    requires width > 0
    ensures forall i :: 0 <= i < |c| ==> c[i] in slots && Hash(c[i].entry.key.xid, width) == loc
    ensures |c| <= |slots|
  {
    if slots == [] then [] else
      var rest, s := slots[..|slots| - 1], slots[|slots| - 1];
      if Hash(s.entry.key.xid, width) == loc then [s] + Chain(rest, loc, width) else Chain(rest, loc, width)
  }

  ghost function Entries(slots: seq<Slot>): seq<Entry> {
    seq(|slots|, i requires 0 <= i < |slots| => slots[i].entry)
  }

  /** No two slots share a node or a buffer. */
  ghost predicate Distinct(slots: seq<Slot>) {
    forall i, j :: 0 <= i < j < |slots| ==>
      slots[i].node != slots[j].node && slots[i].buffer != slots[j].buffer
  }

  /** The list starting at `p` runs through exactly the nodes of `c`. */
  ghost function HeadOf(c: seq<Slot>): CacheNode? {
    if c == [] then null else c[0].node
  }

  ghost predicate Chained(p: CacheNode?, c: seq<Slot>)
    reads (set s | s in c :: s.node)`next
  {
    && p == HeadOf(c)
    && forall i {:trigger c[i].node.next} :: 0 <= i < |c| ==>
          c[i].node.next == if i + 1 < |c| then c[i + 1].node else null
  }

  /** The first slot of a chain with the key: what `cache_get`'s loop looks for. */
  ghost function First(c: seq<Slot>, key: Key): Option<Slot> {
    if c == [] then None else if c[0].entry.key == key then Some(c[0]) else First(c[1..], key)
  }

  lemma {:induction false} DistinctChain(slots: seq<Slot>, loc: nat, width: nat)
    requires width > 0 && Distinct(slots)
    ensures Distinct(Chain(slots, loc, width))
  {
    if slots != [] {
      var rest, s := slots[..|slots| - 1], slots[|slots| - 1];
      DistinctChain(rest, loc, width);
      forall t | t in Chain(rest, loc, width) ensures t.node != s.node && t.buffer != s.buffer {
        assert t in rest;
      }
    }
  }

  /** The oldest slot is the last of its own chain and in no other. */
  lemma {:induction false} OldestIsTail(slots: seq<Slot>, loc: nat, width: nat)
    requires width > 0 && slots != []
    ensures Hash(slots[0].entry.key.xid, width) == loc ==>
              Chain(slots, loc, width) == Chain(slots[1..], loc, width) + [slots[0]]
    ensures Hash(slots[0].entry.key.xid, width) != loc ==>
              Chain(slots, loc, width) == Chain(slots[1..], loc, width)
  {
    if |slots| == 1 {
      assert slots[..0] == [] && slots[1..] == [];
    } else {
      var rest := slots[..|slots| - 1];
      OldestIsTail(rest, loc, width);
      assert slots[1..][..|slots| - 2] == rest[1..];
      assert slots[1..][|slots| - 2] == slots[|slots| - 1];
    }
  }

  lemma {:induction false} NewestIsHead(slots: seq<Slot>, s: Slot, loc: nat, width: nat)
    requires width > 0
    ensures Hash(s.entry.key.xid, width) == loc ==>
              Chain(slots + [s], loc, width) == [s] + Chain(slots, loc, width)
    ensures Hash(s.entry.key.xid, width) != loc ==>
              Chain(slots + [s], loc, width) == Chain(slots, loc, width)
  {
    assert (slots + [s])[..|slots|] == slots;
  }

  /** Searching the one chain of the key's xid is searching all entries, newest first. */
  lemma {:induction false} ChainSearch(slots: seq<Slot>, key: Key, width: nat)
    requires width > 0
    ensures var f := First(Chain(slots, Hash(key.xid, width), width), key);
            Newest(Entries(slots), key) == if f == None then None else Some(f.value.entry)
  {
    if slots != [] {
      var rest, s := slots[..|slots| - 1], slots[|slots| - 1];
      ChainSearch(rest, key, width);
      assert Entries(slots)[..|slots| - 1] == Entries(rest);
      var c := Chain(rest, Hash(key.xid, width), width);
      if Hash(s.entry.key.xid, width) == Hash(key.xid, width) {
        assert ([s] + c)[1..] == c;
      } else {
        assert [] + c == c;
      }
    }
  }

  /**
   * The circular FIFO: the `|slots|` positions before `next`, wrapping around, hold the slots'
   * nodes oldest first, and the others are empty. Until it is full nothing has wrapped.
   */
  ghost predicate FifoOk(f: seq<CacheNode?>, slots: seq<Slot>, next: nat) {
    && next < |f| && |slots| <= |f|
    && (|slots| < |f| ==> next == |slots| && forall p :: next <= p < |f| ==> f[p] == null)
    && forall k :: 0 <= k < |slots| ==> f[Position(|slots|, next, |f|, k)] == slots[k].node
  }

  function Position(count: nat, next: nat, size: nat, k: nat): (p: nat)
    requires k < count <= size && next < size && (count < size ==> next == count)
    ensures p < size
  {
    if count <= next + k then next + k - count else next + k - count + size
  }

  function NextPosition(next: nat, size: nat): nat {
    if next + 1 == size then 0 else next + 1
  }

  lemma {:induction false} NextIsModulo(next: nat, size: nat)
    requires next < size
    ensures (next + 1) % size == NextPosition(next, size)
  {
  }

  ghost function Kept(slots: seq<Slot>, size: nat): seq<Slot> {
    if |slots| < size then slots else if slots == [] then [] else slots[1..]
  }

  /** What sits at the next position is the oldest slot's node, or nothing while there is room. */
  lemma {:induction false} FifoVictim(f: seq<CacheNode?>, slots: seq<Slot>, next: nat)
    requires FifoOk(f, slots, next)
    ensures f[next] == if |slots| < |f| then null else slots[0].node
  {
    if |slots| == |f| {
      assert Position(|slots|, next, |f|, 0) == next;
    }
  }

  lemma {:induction false} FifoStep(f: seq<CacheNode?>, slots: seq<Slot>, next: nat, s: Slot)
    requires FifoOk(f, slots, next)
    ensures FifoOk(f[next := s.node], Kept(slots, |f|) + [s], NextPosition(next, |f|))
  {
    var size, kept := |f|, Kept(slots, |f|);
    var f', slots', next' := f[next := s.node], kept + [s], NextPosition(next, size);
    forall k | 0 <= k < |slots'| ensures f'[Position(|slots'|, next', size, k)] == slots'[k].node {
      var p := Position(|slots'|, next', size, k);
      if k == |kept| {
        assert p == next;
      } else if |slots| < size {
        assert p == Position(|slots|, next, size, k);
      } else {
        assert p == Position(|slots|, next, size, k + 1) && p != next;
      }
    }
  }

  ghost predicate OwnedBy(slots: seq<Slot>, repr: set<object>) {
    forall i :: 0 <= i < |slots| ==> slots[i].node in repr && slots[i].buffer in repr
  }

  lemma {:induction false} OwnedByStep(slots: seq<Slot>, size: nat, s: Slot, repr: set<object>, repr': set<object>)
    requires OwnedBy(slots, repr) && repr <= repr' && s.node in repr' && s.buffer in repr'
    ensures OwnedBy(Kept(slots, size) + [s], repr')
  {
  }

  // ---------------------------------------------------------------- the live buffer

  function CallOf(m: CallMsg.Msg, from: Address): Call {
    Call(m.prog, m.vers, m.proc, from)
  }

  /**
   * The call header that a stream with this much room reads from the start of the buffer, and what
   * it costs the stream if there is none. Without room even the first word is not read.
   */
  function Header(buffer: seq<Byte>, room: int): (r: (Option<CallMsg.Msg>, nat))
    requires room <= |buffer|
    ensures r.1 <= MAX_AUTH_BYTES && (r.0.Some? ==> r.1 == 0)
  {
    if room < 0 then (None, 4) else CallMsg.Outcome(buffer[..room])
  }

  /** What the buffer takes of a datagram. */
  function Taken(data: seq<Byte>, iosz: nat): (d: seq<Byte>)
    ensures |d| <= iosz
  {
    if |data| > iosz then data[..iosz] else data
  }

  /** The buffer after a receive: what lies behind a datagram stays, and an error changes nothing. */
  function Overlaid(buffer: seq<Byte>, got: Option<seq<Byte>>): (b: seq<Byte>)
    ensures |b| == |buffer|
  {
    if got == None then buffer else
      var d := Taken(got.value, |buffer|);
      d + buffer[|d|..]
  }

  predicate LongEnough(got: Option<seq<Byte>>, iosz: nat) {
    got == None || |Taken(got.value, iosz)| >= 16
  }

  /** What a receive comes to when the live buffer held `before`. */
  function Heard(before: seq<Byte>, room: int, got: Option<seq<Byte>>): (r: (Option<CallMsg.Msg>, nat))
    requires room <= |before|
    ensures r.1 <= MAX_AUTH_BYTES && (r.0.Some? ==> r.1 == 0)
  {
    if LongEnough(got, |before|) then Header(Overlaid(before, got), room) else (None, 0)
  }

  /** The state after a request has been looked up, and what is sent again. */
  function Heeded(m: Model, msg: CallMsg.Msg, from: Address): (Model, Option<seq<Byte>>) {
    Lookup(m.(xid := msg.xid), CallOf(msg, from))
  }

  function Concat(pieces: seq<seq<Byte>>): seq<Byte> {
    if pieces == [] then [] else pieces[0] + Concat(pieces[1..])
  }

  /** The length of the first piece that does not fit into what is left, if there is one. */
  function FirstTooLong(room: int, pieces: seq<seq<Byte>>): Option<nat> {
    if pieces == [] then None
    else if |pieces[0]| <= room then FirstTooLong(room - |pieces[0]|, pieces[1..])
    else Some(|pieces[0]|)
  }

  /** The same for a reply, which begins with its id. */
  function Overrun(room: int, pieces: seq<seq<Byte>>): Option<nat> {
    if room < 4 then Some(4) else FirstTooLong(room - 4, pieces)
  }

  /** What it costs the stream if the reply does not fit. */
  function Lost(room: int, pieces: seq<seq<Byte>>): nat {
    if Overrun(room, pieces) == None then 0 else Overrun(room, pieces).value
  }

  /** The piece that does not fit is no longer than all of them. */
  lemma {:induction false} LostIsBounded(room: int, pieces: seq<seq<Byte>>)
    ensures Lost(room, pieces) <= 4 + |Concat(pieces)|
  {
    PieceIsBounded(room - 4, pieces);
  }

  lemma {:induction false} PieceIsBounded(room: int, pieces: seq<seq<Byte>>)
    ensures FirstTooLong(room, pieces).Some? ==> FirstTooLong(room, pieces).value <= |Concat(pieces)|
    decreases |pieces|
  {
    if pieces != [] {
      PieceIsBounded(room - |pieces[0]|, pieces[1..]);
    }
  }

  /** A reply fits piece by piece exactly when it fits as a whole. */
  lemma {:induction false} FitsAsAWhole(room: nat, pieces: seq<seq<Byte>>)
    ensures FirstTooLong(room, pieces) == None <==> |Concat(pieces)| <= room
  {
    if pieces != [] && |pieces[0]| <= room {
      FitsAsAWhole(room - |pieces[0]|, pieces[1..]);
    }
  }

  method PutPieces(room: nat, head: seq<Byte>, pieces: seq<seq<Byte>>)
    returns (bytes: seq<Byte>, tooLong: Option<nat>)
    requires |head| <= room
    ensures tooLong == FirstTooLong(room - |head|, pieces) && |bytes| <= room
    ensures tooLong == None ==> bytes == head + Concat(pieces)
  {
    bytes := head;
    var i := 0;
    assert pieces[0..] == pieces;
    while i < |pieces|
      invariant 0 <= i <= |pieces| && |bytes| <= room
      invariant FirstTooLong(room - |head|, pieces) == FirstTooLong(room - |bytes|, pieces[i..])
      invariant bytes + Concat(pieces[i..]) == head + Concat(pieces)
    {
      assert pieces[i..][0] == pieces[i] && pieces[i..][1..] == pieces[i + 1..];
      if |bytes| + |pieces[i]| > room {
        return bytes, Some(|pieces[i]|);
      }
      Associative(bytes, pieces[i], Concat(pieces[i + 1..]));
      bytes := bytes + pieces[i];
      i := i + 1;
    }
    assert bytes + [] == bytes;
    tooLong := None;
  }

  /** The room a reply leaves: a whole new buffer, or less by the piece that did not fit. */
  function RoomAfter(room: int, iosz: nat, pieces: seq<seq<Byte>>, sent: bool): (r: int)
    ensures room <= iosz ==> r <= iosz
  {
    if Overrun(room, pieces) == None && sent then iosz else room - Lost(room, pieces)
  }

  class UdpTransport {
    const iosz: nat
    const size: nat
    const entries: array<CacheNode?>
    const fifo: array<CacheNode?>
    var nextVictim: nat
    var xid: Word
    var saved: Call
    var rpcBuffer: array<Byte>
    var room: int                 // where the stream over that buffer believes it to end
    ghost var slots: seq<Slot>    // what is cached, oldest first
    ghost var repr: set<object>

    /** Every chain of the table holds exactly the slots that hash to it, newest first. */
    ghost predicate Table(sl: seq<Slot>)
      reads entries, (set s | s in sl :: s.node)`next
    {
      entries.Length > 0 &&
      forall loc :: 0 <= loc < entries.Length ==> Chained(entries[loc], Chain(sl, loc, entries.Length))
    }

    /** Each slot's node and buffer hold its entry. */
    ghost predicate Contents(sl: seq<Slot>)
      reads set s | s in sl :: s.buffer
      reads (set s | s in sl :: s.node)`key, (set s | s in sl :: s.node)`reply, (set s | s in sl :: s.node)`replyLen
    {
      Distinct(sl) && forall i :: 0 <= i < |sl| ==> Holds(sl[i])
    }

    ghost predicate NotIn(sl: seq<Slot>, buffer: array<Byte>) {
      forall i :: 0 <= i < |sl| ==> sl[i].buffer != buffer
    }

    ghost predicate Holds(s: Slot)
      reads s.node`key, s.node`reply, s.node`replyLen, s.buffer
    {
      && s.node.key == s.entry.key && s.node.reply == s.buffer
      && s.node.replyLen == |s.entry.reply| <= s.buffer.Length == iosz
      && s.buffer[..s.node.replyLen] == s.entry.reply
    }

    ghost predicate Valid()
      reads this`nextVictim, this`rpcBuffer, this`room, this`slots, this`repr, entries, fifo, rpcBuffer
      reads set s | s in slots :: s.node, set s | s in slots :: s.buffer
    {
      Sound() && Owns() && Leeway(0) && room <= iosz
    }

    /** The count of the stream can go down by `n` more without wrapping, wherever its position is. */
    predicate Leeway(n: nat)
      reads this`room
    {
      room - n >= iosz - TWO_TO_31
    }

    ghost predicate Sound()
      reads this`nextVictim, this`rpcBuffer, this`slots, entries, fifo, rpcBuffer
      reads set s | s in slots :: s.node, set s | s in slots :: s.buffer
    {
      && 0 < size && entries.Length == SPARSENESS * size && fifo.Length == size && entries != fifo
      && rpcBuffer.Length == iosz
      && Table(slots) && Contents(slots) && NotIn(slots, rpcBuffer)
      && FifoOk(fifo[..], slots, nextVictim)
    }

    ghost function State(): Model
      reads this`slots, this`xid, this`saved
    {
      Model(Entries(slots), xid, saved)
    }

    /** The objects the transport is made of are its own. */
    ghost predicate Owns()
      reads this`slots, this`rpcBuffer, this`repr
    {
      && entries in repr && fifo in repr && rpcBuffer in repr
      && OwnedBy(slots, repr)
    }

    constructor (iosz: nat, size: nat, call: Call)
      requires 0 < size
      ensures fresh(repr)
      ensures Valid() && State() == Model([], 0, call)
      ensures this.iosz == iosz == room && this.size == size
    {
      this.iosz, this.size, room := iosz, size, iosz;
      entries := new CacheNode?[SPARSENESS * size](i => null);
      fifo := new CacheNode?[size](i => null);
      rpcBuffer := new Byte[iosz](i => 0);
      nextVictim, xid, saved, slots := 0, 0, call, [];
      repr := {entries, fifo, rpcBuffer};
    }

    /** Looks for the link to `victim` in its chain. It never comes to the chain's end. */
    method FindLink(victim: CacheNode, loc: nat) returns (prev: CacheNode?, found: bool)
      requires slots != [] && Distinct(slots) && Table(slots)
      requires victim == slots[0].node && loc == Hash(slots[0].entry.key.xid, entries.Length)
      ensures found
      ensures var c := Chain(slots[1..], loc, entries.Length);
              prev == if c == [] then null else c[|c| - 1].node
    {
      ghost var c := Chain(slots, loc, entries.Length);
      ghost var c' := Chain(slots[1..], loc, entries.Length);
      OldestIsTail(slots, loc, entries.Length);
      DistinctChain(slots, loc, entries.Length);
      assert c == c' + [slots[0]] && c[|c'|] == slots[0];
      assert Chained(entries[loc], c);
      prev := null;
      var cur := entries[loc];
      ghost var i := 0;
      while cur != null && cur != victim
        invariant 0 <= i <= |c'| && cur == c[i].node
        invariant prev == if i == 0 then null else c'[i - 1].node
        decreases |c'| - i
      {
        prev := cur;
        cur := cur.next;
        i := i + 1;
      }
      found := cur != null;
    }

    /** Makes the link to the victim lead past it; `prev` holds that link, or the table does. */
    method Cut(prev: CacheNode?, victim: CacheNode, loc: nat, ghost c: seq<Slot>, ghost v: Slot)
      requires v.node == victim
      requires loc < entries.Length && Distinct(c + [v]) && Chained(entries[loc], c + [v])
      requires prev == if c == [] then null else c[|c| - 1].node
      modifies entries, (if prev == null then {} else {prev})`next
      ensures Chained(entries[loc], c)
      ensures forall l :: 0 <= l < entries.Length && l != loc ==> entries[l] == old(entries[l])
    {
      ghost var d := c + [v];
      assert d[|c|] == v && victim.next == null;
      assert forall i :: 0 <= i < |c| ==> d[i] == c[i];
      if prev == null {
        assert entries[loc] == v.node;
        entries[loc] := victim.next;
      } else {
        assert prev.next == v.node;
        prev.next := victim.next;
      }
    }

    /** A chain none of whose nodes had its link changed is still that chain. */
    twostate lemma Untouched(c: seq<Slot>)
      requires old(Chained(HeadOf(c), c))
      requires forall i :: 0 <= i < |c| ==> c[i].node.next == old(c[i].node.next)
      ensures Chained(HeadOf(c), c)
    {
    }

    /** A slot's node is in no chain but the slot's own. */
    lemma {:induction false} Apart(sl: seq<Slot>, s: Slot, loc: nat)
      requires entries.Length > 0 && Distinct(sl) && s in sl && Hash(s.entry.key.xid, entries.Length) != loc
      ensures var c := Chain(sl, loc, entries.Length); forall i :: 0 <= i < |c| ==> c[i].node != s.node
    {
    }

    /** Changing one node's link leaves every chain but that node's as it was. */
    twostate lemma OthersUntouched(sl: seq<Slot>, new k: nat, new loc: nat)
      requires loc < entries.Length && Distinct(sl) && k < |sl| && Hash(sl[k].entry.key.xid, entries.Length) != loc
      requires old(Table(sl)) && entries[loc] == old(entries[loc])
      requires forall i :: 0 <= i < |sl| && sl[i].node != sl[k].node ==> sl[i].node.next == old(sl[i].node.next)
      ensures Chained(entries[loc], Chain(sl, loc, entries.Length))
    {
      var c := Chain(sl, loc, entries.Length);
      Apart(sl, sl[k], loc);
      forall i | 0 <= i < |c| ensures c[i].node.next == old(c[i].node.next) {
        var j :| 0 <= j < |sl| && sl[j] == c[i];
      }
      Untouched(c);
    }

    /** Takes the oldest node out of its chain. */
    method Unlink(victim: CacheNode, loc: nat) returns (found: bool)
      requires slots != [] && Distinct(slots) && Table(slots)
      requires victim == slots[0].node && loc == Hash(slots[0].entry.key.xid, entries.Length)
      modifies entries, (set s | s in slots :: s.node)`next
      ensures found && Table(slots[1..])
    {
      ghost var width := entries.Length;
      ghost var c := Chain(slots[1..], loc, width);
      OldestIsTail(slots, loc, width);
      DistinctChain(slots, loc, width);
      assert Distinct(c + [slots[0]]);
      var prev;
      prev, found := FindLink(victim, loc);
      assert Chained(entries[loc], c + [slots[0]]) by { assert Chained(entries[loc], Chain(slots, loc, width)); }
      label Before:
      if found {
        Cut(prev, victim, loc, c, slots[0]);
      }
      ghost var cut := if c == [] then slots[0] else c[|c| - 1];
      assert cut in slots && Hash(cut.entry.key.xid, width) == loc;
      ghost var k :| 0 <= k < |slots| && slots[k] == cut;
      OthersLackOldest@Before(slots, k, loc);
    }

    /** When one chain alone has changed, the others are those without the oldest slot, not being its own. */
    twostate lemma OthersLackOldest(sl: seq<Slot>, new k: nat, new loc: nat)
      requires loc < entries.Length && Distinct(sl) && k < |sl| && old(Table(sl))
      requires Hash(sl[k].entry.key.xid, entries.Length) == Hash(sl[0].entry.key.xid, entries.Length) == loc
      requires forall l :: 0 <= l < entries.Length && l != loc ==> entries[l] == old(entries[l])
      requires forall i :: 0 <= i < |sl| && sl[i].node != sl[k].node ==> sl[i].node.next == old(sl[i].node.next)
      ensures forall l :: 0 <= l < entries.Length && l != loc ==>
                Chained(entries[l], Chain(sl[1..], l, entries.Length))
    {
      forall l | 0 <= l < entries.Length && l != loc
        ensures Chained(entries[l], Chain(sl[1..], l, entries.Length))
      {
        OldestIsTail(sl, l, entries.Length);
        OthersUntouched(sl, k, l);
      }
    }

    /** A slot linked to a chain makes a longer one. */
    lemma {:induction false} InFront(s: Slot, c: seq<Slot>)
      requires Chained(s.node.next, c)
      ensures Chained(s.node, [s] + c)
    {
      var d := [s] + c;
      assert forall i :: 1 <= i < |d| ==> d[i] == c[i - 1];
    }

    /** Puts a node that is in no chain at the head of the chain its xid selects. */
    method Link(node: CacheNode, loc: nat, ghost kept: seq<Slot>, ghost s: Slot)
      requires Table(kept) && s.node == node && loc == Hash(s.entry.key.xid, entries.Length)
      requires forall i :: 0 <= i < |kept| ==> kept[i].node != node
      modifies entries, node`next
      ensures Table(kept + [s])
    {
      ghost var width := entries.Length;
      ghost var c := Chain(kept, loc, width);
      NewestIsHead(kept, s, loc, width);
      label Before:
      node.next := entries[loc];
      entries[loc] := node;
      Untouched@Before(c);
      InFront(s, c);
      forall l | 0 <= l < width && l != loc ensures Chained(entries[l], Chain(kept + [s], l, width)) {
        NewestIsHead(kept, s, l, width);
        StillChained@Before(kept, l);
      }
    }

    /** Neither the node nor the buffer is in use by `sl`. */
    ghost predicate Spare(sl: seq<Slot>, node: CacheNode, newbuf: array<Byte>) {
      newbuf.Length == iosz && NotIn(sl, newbuf) && forall i :: 0 <= i < |sl| ==> sl[i].node != node
    }

    /** Relinking nodes does not disturb what they hold. */
    twostate lemma StillHeld(sl: seq<Slot>)
      requires forall i :: 0 <= i < |sl| ==> old(allocated(sl[i].node)) && old(allocated(sl[i].buffer))
      requires old(Contents(sl))
      requires forall i :: 0 <= i < |sl| ==> sl[i].node.key == old(sl[i].node.key)
      requires forall i :: 0 <= i < |sl| ==> sl[i].node.reply == old(sl[i].node.reply)
      requires forall i :: 0 <= i < |sl| ==> sl[i].node.replyLen == old(sl[i].node.replyLen)
      requires forall i :: 0 <= i < |sl| ==> sl[i].buffer[..] == old(sl[i].buffer[..])
      ensures Contents(sl)
    {
      forall i | 0 <= i < |sl| ensures Holds(sl[i]) {
        var s := sl[i];
        assert old(Holds(s));
        assert s.buffer[..s.node.replyLen] == s.buffer[..][..s.node.replyLen];
      }
    }

    /** Nor does filling nodes disturb a chain. */
    twostate lemma StillChained(sl: seq<Slot>, new l: nat)
      requires old(Table(sl)) && l < entries.Length && entries[l] == old(entries[l])
      requires forall i :: 0 <= i < |sl| ==> sl[i].node.next == old(sl[i].node.next)
      ensures Chained(entries[l], Chain(sl, l, entries.Length))
    {
      var c := Chain(sl, l, entries.Length);
      forall i | 0 <= i < |c| ensures c[i].node.next == old(c[i].node.next) {
        var j :| 0 <= j < |sl| && sl[j] == c[i];
      }
      Untouched(c);
    }

    twostate lemma StillLinked(sl: seq<Slot>)
      requires old(Table(sl)) && entries[..] == old(entries[..])
      requires forall i :: 0 <= i < |sl| ==> sl[i].node.next == old(sl[i].node.next)
      ensures Table(sl)
    {
      forall l | 0 <= l < entries.Length ensures Chained(entries[l], Chain(sl, l, entries.Length)) {
        assert entries[l] == entries[..][l];
        StillChained(sl, l);
      }
    }

    lemma {:induction false} WithoutOldest()
      requires Contents(slots) && slots != []
      ensures Contents(slots[1..]) && Spare(slots[1..], slots[0].node, slots[0].buffer)
    {
    }

    /** Finds a node and a buffer for a new entry: those of the oldest entry once the cache is full. */
    method MakeRoom() returns (node: CacheNode, newbuf: array<Byte>, found: bool)
      requires Sound()
      modifies entries, (set s | s in slots :: s.node)`next
      ensures found && Table(Kept(slots, size)) && Contents(Kept(slots, size))
      ensures Spare(Kept(slots, size), node, newbuf) && newbuf != rpcBuffer
      ensures fresh(node) || node in set s | s in slots :: s.node
      ensures if |slots| < size then fresh(newbuf) else newbuf == slots[0].buffer
    {
      FifoVictim(fifo[..], slots, nextVictim);
      var victim := fifo[nextVictim];
      if victim != null {
        assert slots[0].node == victim && Holds(slots[0]);
        WithoutOldest();
        var loc := Hash(victim.key.xid, entries.Length);
        node, newbuf := victim, victim.reply;
        label Before:
        found := Unlink(victim, loc);
        StillHeld@Before(slots[1..]);
      } else {
        label Full:
        newbuf := new Byte[iosz](i => 0);
        node := new CacheNode(newbuf);
        StillHeld@Full(slots);
        StillLinked@Full(slots);
        found := true;
      }
    }

    /** The live buffer, with the reply in it, goes into the node and the spare one takes its place. */
    method Fill(node: CacheNode, newbuf: array<Byte>, replyLen: nat, ghost kept: seq<Slot>) returns (ghost s: Slot)
      requires replyLen <= iosz == rpcBuffer.Length && Contents(kept) && NotIn(kept, rpcBuffer)
      requires Spare(kept, node, newbuf) && newbuf != rpcBuffer
      modifies this`rpcBuffer, this`room, node`key, node`reply, node`replyLen
      ensures rpcBuffer == newbuf && room == iosz && NotIn(kept + [s], newbuf) && Contents(kept + [s])
      ensures s == Slot(node, old(rpcBuffer), Entry(Key(xid, saved), old(rpcBuffer[..replyLen])))
      ensures node.key == s.entry.key
    {
      s := Slot(node, rpcBuffer, Entry(Key(xid, saved), rpcBuffer[..replyLen]));
      node.replyLen := replyLen;
      node.reply := rpcBuffer;
      rpcBuffer, room := newbuf, iosz;
      node.key := Key(xid, saved);
      assert Contents(kept) && Holds(s);
    }

    /** The new slot joins those that are kept. */
    method Place(node: CacheNode, newbuf: array<Byte>, replyLen: nat)
      requires replyLen <= iosz == rpcBuffer.Length && size == fifo.Length && entries != fifo
      requires Table(Kept(slots, size)) && Contents(Kept(slots, size)) && NotIn(slots, rpcBuffer)
      requires Spare(Kept(slots, size), node, newbuf) && newbuf != rpcBuffer && FifoOk(fifo[..], slots, nextVictim)
      modifies this`rpcBuffer, this`room, this`nextVictim, this`slots, entries, fifo, node
      ensures rpcBuffer == newbuf && room == iosz && Table(slots) && Contents(slots) && NotIn(slots, rpcBuffer)
      ensures FifoOk(fifo[..], slots, nextVictim)
      ensures slots == old(Kept(slots, size)) + [Slot(node, old(rpcBuffer),
                                                      Entry(Key(xid, saved), old(rpcBuffer[..replyLen])))]
    {
      ghost var kept := Kept(slots, size);
      ghost var s := Fill(node, newbuf, replyLen, kept);
      label Filled:
      Link(node, Hash(node.key.xid, entries.Length), kept, s);
      label Linked:
      Enter(node, s);
      StillHeld@Filled(slots);
      StillLinked@Linked(slots);
    }

    /** The node becomes the youngest of the FIFO. */
    method Enter(node: CacheNode, ghost s: Slot)
      requires size == fifo.Length && FifoOk(fifo[..], slots, nextVictim) && s.node == node
      modifies this`nextVictim, this`slots, fifo
      ensures slots == old(Kept(slots, size)) + [s] && FifoOk(fifo[..], slots, nextVictim)
    {
      FifoStep(fifo[..], slots, nextVictim, s);
      NextIsModulo(nextVictim, size);
      fifo[nextVictim] := node;
      nextVictim := (nextVictim + 1) % size;
      slots := Kept(slots, size) + [s];
    }

    /** Displaces the oldest entry, when the cache is full, by one for the reply in the live buffer. */
    method Displace(replyLen: nat) returns (stored: bool, ghost s: Slot)
      requires Sound() && replyLen <= iosz
      modifies this`rpcBuffer, this`room, this`nextVictim, this`slots, entries, fifo, set s | s in slots :: s.node
      ensures Sound() && stored && room == iosz && slots == old(Kept(slots, size)) + [s]
      ensures s.entry == Entry(Key(xid, saved), old(rpcBuffer[..replyLen])) && s.buffer == old(rpcBuffer)
      ensures fresh(s.node) || s.node in old(set s | s in slots :: s.node)
      ensures if old(|slots|) < size then fresh(rpcBuffer) else rpcBuffer == old(slots)[0].buffer
    {
      var node, newbuf;
      node, newbuf, stored := MakeRoom();
      if stored {
        Place(node, newbuf, replyLen);
      }
      s := slots[|slots| - 1];
    }

    /**
     * Caches the reply in the live buffer under the current xid and the saved call, displacing
     * the oldest entry when the cache is full. The search for a victim cannot fail.
     */
    method CacheSet(replyLen: nat) returns (stored: bool)
      requires Valid() && replyLen <= iosz
      modifies this`rpcBuffer, this`room, this`nextVictim, this`slots, this`repr, entries, fifo
      modifies set s | s in slots :: s.node
      ensures Valid() && stored && room == iosz
      ensures State() == Store(old(State()), old(rpcBuffer[..replyLen]), size)
      ensures if old(|slots|) < size then fresh(rpcBuffer) else rpcBuffer == old(slots)[0].buffer
      ensures fresh(repr - old(repr))
    {
      ghost var before := slots;
      ghost var s;
      stored, s := Displace(replyLen);
      Adopt(before, s);
      EntriesStep(before, size, s);
    }

    /** The new entry's node and the new live buffer become the transport's own. */
    ghost method Adopt(before: seq<Slot>, s: Slot)
      requires Sound() && Leeway(0) && room <= iosz && entries in repr && fifo in repr && s.buffer in repr
      requires OwnedBy(before, repr) && slots == Kept(before, size) + [s]
      modifies this`repr
      ensures Valid() && repr == old(repr) + {s.node, rpcBuffer}
    {
      repr := repr + {s.node, rpcBuffer};
      OwnedByStep(before, size, s, old(repr), repr);
    }

    /** The first node of the chain at `loc` with this key, found by following links. */
    method Search(loc: nat, key: Key) returns (ent: CacheNode?, ghost hit: Option<Slot>)
      requires Table(slots) && Contents(slots) && loc == Hash(key.xid, entries.Length)
      ensures hit == First(Chain(slots, loc, entries.Length), key)
      ensures hit == None <==> ent == null
      ensures hit.Some? ==> ent == hit.value.node && hit.value in slots
    {
      ghost var c := Chain(slots, loc, entries.Length);
      assert Chained(entries[loc], c);
      ent := entries[loc];
      ghost var i := 0;
      assert c[0..] == c;
      while ent != null
        invariant 0 <= i <= |c| && First(c, key) == First(c[i..], key)
        invariant ent == if i < |c| then c[i].node else null
        decreases |c| - i
      {
        assert c[i] in slots && Holds(c[i]) && c[i..][1..] == c[i + 1..];
        if ent.key == key {
          return ent, Some(c[i]);
        }
        ent := ent.next;
        i := i + 1;
      }
      hit := None;
    }

    /**
     * Looks the current xid and the saved call up. A hit returns the newest such reply among
     * those cached; a miss saves the call of this request.
     */
    method CacheGet(call: Call) returns (reply: Option<seq<Byte>>)
      requires Valid()
      modifies this`saved
      ensures Valid() && (State(), reply) == Lookup(old(State()), call)
    {
      reply := Cached();
      if reply == None {
        Remember(call);
      }
    }

    method Remember(call: Call)
      requires Valid()
      modifies this`saved
      ensures Valid() && saved == call
    {
      saved := call;
    }

    /** The loop over the chain that the current xid selects. */
    method Cached() returns (reply: Option<seq<Byte>>)
      requires Valid()
      ensures var e := Newest(State().log, Key(xid, saved));
              reply == if e == None then None else Some(e.value.reply)
    {
      var loc := Hash(xid, entries.Length);
      ChainSearch(slots, Key(xid, saved), entries.Length);
      var ent, hit := Search(loc, Key(xid, saved));
      if ent == null {
        return None;
      }
      assert Holds(hit.value);
      reply := Some(ent.reply[..ent.replyLen]);
    }

    method Retrieve(x: Word, call: Call) returns (reply: Option<seq<Byte>>)
      requires Valid()
      modifies this`xid, this`saved
      ensures Valid() && (State(), reply) == Lookup(old(State()).(xid := x), call)
    {
      xid := x;
      assert State() == old(State()).(xid := x);
      reply := CacheGet(call);
    }

    /** Writes a datagram or an encoded message into the live buffer; no cached reply is touched. */
    method FillBuffer(data: seq<Byte>)
      requires Valid() && |data| <= iosz
      modifies rpcBuffer
      ensures Valid() && rpcBuffer[..] == data + old(rpcBuffer[..])[|data|..]
    {
      label Before:
      forall i | 0 <= i < |data| {
        rpcBuffer[i] := data[i];
      }
      StillHeld@Before(slots);
    }

    /** The header that the stream would read, all of what it takes the buffer for being there. */
    ghost function Readable(): (Option<CallMsg.Msg>, nat)
      reads this`room, this`rpcBuffer, rpcBuffer
      requires room <= rpcBuffer.Length
    {
      Header(rpcBuffer[..], room)
    }

    /** Nothing is read when the stream could not be moved to the start of its buffer. */
    method ReadHeader() returns (msg: Option<CallMsg.Msg>)
      requires Valid() && Leeway(MAX_AUTH_BYTES)
      modifies this`room
      ensures Valid() && (msg, old(room) - room) == old(Readable())
    {
      if room < 0 {
        Lose(4);
        return None;
      }
      var s := new CallMsg.InStream(rpcBuffer[..room]);
      assert rpcBuffer[..room] == rpcBuffer[..][..room];
      var ok, m := CallMsg.DecodeCallMsg(s);
      Lose(s.cost);
      msg := if ok then Some(m) else None;
    }

    /**
     * What comes of the bytes in the live buffer. Moving the stream to its start fails unnoticed
     * when it has no room; nothing can then be read.
     */
    method Dispatch(from: Address) returns (ok: bool, resent: Option<seq<Byte>>)
      requires Valid() && Leeway(MAX_AUTH_BYTES)
      modifies this`xid, this`saved, this`room
      ensures Valid() && room == old(room - Readable().1) && ok == old(Readable().0.Some?)
      ensures ok ==> (State(), resent) == Heeded(old(State()), old(Readable().0.value), from)
      ensures !ok ==> State() == old(State()) && resent == None
    {
      var msg := ReadHeader();
      if msg == None {
        return false, None;
      }
      resent := Retrieve(msg.value.xid, CallOf(msg.value, from));
      ok := true;
    }

    /**
     * Receives a datagram, of which the buffer takes what it has room for; `None` is an error of
     * `recvfrom`, whose -1 is not below 16 when it is compared as unsigned. A cached reply is sent
     * again, and the message is passed on to the server either way.
     */
    method Recv(got: Option<seq<Byte>>, from: Address) returns (ok: bool, resent: Option<seq<Byte>>)
      requires Valid() && Leeway(MAX_AUTH_BYTES)
      modifies this`xid, this`saved, this`room, rpcBuffer
      ensures Valid() && rpcBuffer[..] == Overlaid(old(rpcBuffer[..]), got)
      ensures var (m, cost) := Heard(old(rpcBuffer[..]), old(room), got);
              && room == old(room) - cost && ok == m.Some?
              && (ok ==> (State(), resent) == Heeded(old(State()), m.value, from))
      ensures !ok ==> State() == old(State()) && resent == None
    {
      if got.Some? {
        var data := got.value;
        if |data| > iosz {
          data := data[..iosz];
        }
        FillBuffer(data);
        if |data| < 16 {
          return false, None;
        }
      }
      ok, resent := Dispatch(from);
    }

    /** A read or write of `n` bytes that the stream has no room for. */
    method Lose(n: nat)
      requires Valid() && Leeway(n)
      modifies this`room
      ensures Valid() && room == old(room) - n
    {
      room := room - n;
    }

    /** Filters put piece after piece into the live buffer, until one does not fit. */
    method Encode(pieces: seq<seq<Byte>>) returns (ok: bool, len: nat)
      requires Valid() && Leeway(Lost(room, pieces))
      modifies this`room, rpcBuffer
      ensures Valid() && ok == (Overrun(old(room), pieces) == None)
      ensures room == old(room) - Lost(old(room), pieces)
      ensures ok ==> len <= iosz && rpcBuffer[..len] == PutWord(xid) + Concat(pieces)
    {
      if room < 4 {
        Lose(4);
        return false, 0;
      }
      var bytes, tooLong := PutPieces(room, PutWord(xid), pieces);
      FillBuffer(bytes);
      assert rpcBuffer[..][..|bytes|] == bytes;
      if tooLong.Some? {
        Lose(tooLong.value);
      }
      ok, len := tooLong == None, |bytes|;
    }

    /**
     * Encodes a reply, given in the pieces that its filters put, under the current xid; sends it
     * and caches what was sent. The first piece that does not fit ends the encoding and costs the
     * stream room; it gets its room back with a new buffer.
     */
    method SendReply(pieces: seq<seq<Byte>>, sent: bool) returns (ok: bool)
      requires Valid() && Leeway(Lost(room, pieces))
      modifies this`rpcBuffer, this`room, this`nextVictim, this`slots, this`repr, repr
      ensures Valid() && ok == (Overrun(old(room), pieces) == None && sent)
      ensures State() == if ok then Step(old(State()), Reply(Concat(pieces)), size) else old(State())
      ensures room == RoomAfter(old(room), iosz, pieces, sent)
      ensures fresh(repr - old(repr))
    {
      var fit;
      ok, fit := Encode(pieces);
      if !ok || !sent {
        return false;
      }
      ok := CacheSet(fit);
    }
  }

  lemma {:induction false} EntriesStep(slots: seq<Slot>, size: nat, s: Slot)
    requires 0 < size && |slots| <= size
    ensures Entries(Kept(slots, size) + [s]) == LastN(Entries(slots) + [s.entry], size)
  {
  }

  ghost function Buffers(slots: seq<Slot>): set<array<Byte>> {
    set i | 0 <= i < |slots| :: slots[i].buffer
  }

  lemma {:induction false} NewestBuffer(slots: seq<Slot>)
    requires Distinct(slots) && slots != []
    ensures var rest, s := slots[..|slots| - 1], slots[|slots| - 1];
            s.buffer !in Buffers(rest) && Buffers(slots) == Buffers(rest) + {s.buffer}
  {
    var rest, s := slots[..|slots| - 1], slots[|slots| - 1];
    forall b ensures b in Buffers(slots) <==> b in Buffers(rest) || b == s.buffer {
      if b in Buffers(rest) {
        var i :| 0 <= i < |rest| && rest[i].buffer == b;
        assert slots[i].buffer == b;
      }
    }
  }

  /** The cached buffers and the live one are that many different buffers. */
  lemma {:induction false} BufferCount(slots: seq<Slot>, live: array<Byte>)
    requires Distinct(slots) && live !in Buffers(slots)
    ensures |Buffers(slots) + {live}| == |slots| + 1
  {
    if slots != [] {
      var rest, s := slots[..|slots| - 1], slots[|slots| - 1];
      NewestBuffer(slots);
      BufferCount(rest, live);
      assert Buffers(slots) + {live} == (Buffers(rest) + {live}) + {s.buffer};
    } else {
      assert Buffers(slots) + {live} == {live};
    }
  }
}
