/**
 * What failed operations leave of a memory stream that is used again. A UDP server has one stream
 * for all its requests and replies and moves it back to the start before each.
 */
module Exhaustion {
  import opened Bytes
  import opened XdrMem

  /** A read or write of `len` bytes, a view of them in place, or a move to a position. */
  datatype Op = Get(len: Word) | View(size: nat) | Seek(to: nat)

  /** The two counts that a stream keeps. */
  datatype Cursor = Cursor(pos: nat, handy: int) {
    /** Where the stream believes its buffer to end. */
    function End(): int {
      pos + handy
    }
  }

  predicate Succeeds(c: Cursor, op: Op) {
    match op
    case Get(len) => Passes(c.handy, len)
    case View(size) => size <= c.handy
    case Seek(to) => to <= c.End()
  }

  function Move(c: Cursor, op: Op): Cursor {
    match op
    case Get(len) => Cursor(if Succeeds(c, op) then c.pos + len else c.pos, Less(c.handy, len))
    case View(size) => if Succeeds(c, op) then Cursor(c.pos + size, c.handy - size) else c
    case Seek(to) => if Succeeds(c, op) then Cursor(to, c.End() - to) else c
  }

  /** The count goes below what 32 bits hold and comes out at the top. */
  predicate Wraps(c: Cursor, op: Op) {
    op.Get? && c.handy - op.len < -TWO_TO_31
  }

  /** The cursor after a run of operations, none of them looked at for success. */
  function Moves(c: Cursor, ops: seq<Op>): Cursor {
    if ops == [] then c else Move(Moves(c, ops[..|ops| - 1]), ops[|ops| - 1])
  }

  /** The lengths of all reads and writes of the run that failed. */
  function Lost(c: Cursor, ops: seq<Op>): nat {
    if ops == [] then 0 else
      var d, op := Moves(c, ops[..|ops| - 1]), ops[|ops| - 1];
      Lost(c, ops[..|ops| - 1]) + if op.Get? && !Succeeds(d, op) then op.len else 0
  }

  /** How often the count has wrapped. */
  function Wrapped(c: Cursor, ops: seq<Op>): nat {
    if ops == [] then 0 else
      Wrapped(c, ops[..|ops| - 1]) + if Wraps(Moves(c, ops[..|ops| - 1]), ops[|ops| - 1]) then 1 else 0
  }

  /**
   * Failed reads and writes move the end, each by its length, downwards and for good, and a count
   * that wraps moves it up by 2^32. Nothing else does.
   */
  lemma {:induction false} EndAfter(c: Cursor, ops: seq<Op>)
    ensures Moves(c, ops).End() == c.End() - Lost(c, ops) + TWO_TO_32 * Wrapped(c, ops)
  {
    if ops != [] {
      EndAfter(c, ops[..|ops| - 1]);
    }
  }

  /**
   * After any run in which no count wraps, moving back to the start succeeds exactly when the
   * failures together were no longer than the buffer, and what is left of it is smaller by as much.
   */
  lemma {:induction false} Rewinds(size: nat, ops: seq<Op>)
    requires Wrapped(Cursor(0, size), ops) == 0
    ensures var c, lost := Moves(Cursor(0, size), ops), Lost(Cursor(0, size), ops);
            && (Succeeds(c, Seek(0)) <==> lost <= size)
            && (lost <= size ==> Move(c, Seek(0)) == Cursor(0, size - lost))
  {
    EndAfter(Cursor(0, size), ops);
  }

  /**
   * Once it does not succeed, nothing on the stream ever does again before a count has wrapped:
   * what succeeds then is a read or write that takes the negative count through the bottom.
   */
  lemma {:induction false} DeadUntilWrap(dead: Cursor, more: seq<Op>, op: Op)
    requires !Succeeds(dead, Seek(0)) && Wrapped(dead, more) == 0
    ensures var c := Moves(dead, more);
            && c.handy < 0 && !Succeeds(c, Seek(0))
            && (Succeeds(c, op) <==> op.Get? && c.handy + TWO_TO_31 < op.len <= c.handy + TWO_TO_32)
  {
    EndAfter(dead, more);
  }

  /** A server tries to read `k` requests: to the start of the buffer, and then the first word. */
  function Requests(k: nat): seq<Op> {
    if k == 0 then [] else Requests(k - 1) + [Seek(0), Get(4)]
  }

  lemma {:induction false} TwoMore(c: Cursor, ops: seq<Op>, a: Op, b: Op)
    ensures Moves(c, ops + [a]) == Move(Moves(c, ops), a)
    ensures Moves(c, ops + [a, b]) == Move(Move(Moves(c, ops), a), b)
  {
    assert (ops + [a])[..|ops|] == ops;
    assert (ops + [a, b])[..|ops| + 1] == ops + [a];
  }

  /** As long as the count does not wrap, each request costs a dead stream four. */
  lemma {:induction false} EachCostsFour(dead: Cursor, k: nat)
    requires !Succeeds(dead, Seek(0)) && 4 * k <= dead.handy + TWO_TO_31
    ensures Moves(dead, Requests(k)) == Cursor(dead.pos, dead.handy - 4 * k)
  {
    if k > 0 {
      EachCostsFour(dead, k - 1);
      TwoMore(dead, Requests(k - 1), Seek(0), Get(4));
    }
  }

  /**
   * A server whose stream is dead comes back to life after a quarter of the counts that are left
   * above -2^31, not a request before: it reads a word, and believes that more than the largest
   * buffer is left behind it.
   */
  lemma {:induction false} Revives(dead: Cursor, k: nat)
    requires !Succeeds(dead, Seek(0)) && 4 * k <= dead.handy + TWO_TO_31
    ensures var c := Moves(dead, Requests(k) + [Seek(0)]);
            && (Succeeds(c, Get(4)) <==> k == (dead.handy + TWO_TO_31) / 4)
            && (Succeeds(c, Get(4)) ==> Move(c, Get(4)).handy >= TWO_TO_31 - 4)
  {
    EachCostsFour(dead, k);
    TwoMore(dead, Requests(k), Seek(0), Get(4));
  }

  /** One request with a length of its own choosing kills the stream, unless it is so long that it wraps. */
  lemma {:induction false} OneReadIsEnough(size: nat, len: Word)
    ensures Succeeds(Moves(Cursor(0, size), [Get(len)]), Seek(0)) <==> len <= size || len > size + TWO_TO_31
  {
    assert [Get(len)][..0] == [];
    assert Moves(Cursor(0, size), [Get(len)]) == Move(Cursor(0, size), Get(len));
  }

  /** Where the cursor is before operation number `i`. */
  function At(c: Cursor, ops: seq<Op>, i: nat): Cursor
    requires i <= |ops|
  {
    Moves(c, ops[..i])
  }

  /** The operation reads or writes what is not in the buffer. */
  predicate Beyond(c: Cursor, op: Op) {
    Wraps(c, op) && Succeeds(c, op)
  }

  lemma {:induction false} OneMore(c: Cursor, ops: seq<Op>, i: nat)
    requires i < |ops|
    ensures At(c, ops, i + 1) == Move(At(c, ops, i), ops[i])
  {
    assert ops[..i + 1][..i] == ops[..i];
  }

  /** Runs the operations on a stream, up to one that takes it beyond its buffer. */
  method Operate(m: MemStream, ops: seq<Op>) returns (oks: seq<bool>)
    requires m.Sane() && forall i :: 0 <= i < |ops| ==> !Beyond(At(Cursor(m.pos, m.handy), ops, i), ops[i])
    modifies m
    ensures m.Sane() && Cursor(m.pos, m.handy) == Moves(old(Cursor(m.pos, m.handy)), ops)
    ensures |oks| == |ops|
    ensures forall i :: 0 <= i < |ops| ==> oks[i] == Succeeds(At(old(Cursor(m.pos, m.handy)), ops, i), ops[i])
  {
    ghost var c := Cursor(m.pos, m.handy);
    oks := [];
    while |oks| < |ops|
      invariant |oks| <= |ops| && m.Sane() && Cursor(m.pos, m.handy) == At(c, ops, |oks|)
      invariant forall i :: 0 <= i < |oks| ==> oks[i] == Succeeds(At(c, ops, i), ops[i])
    {
      OneMore(c, ops, |oks|);
      var ok := Step(m, ops[|oks|]);
      oks := oks + [ok];
    }
    assert ops[..|ops|] == ops;
  }

  method Step(m: MemStream, op: Op) returns (ok: bool)
    requires m.Sane()
    modifies m
    ensures var c := old(Cursor(m.pos, m.handy));
            && ok == Succeeds(c, op) && Cursor(m.pos, m.handy) == Move(c, op)
            && (!Beyond(c, op) ==> m.Sane())
  {
    match op
    case Get(len) =>
      var data;
      ok, data := m.GetBytes(len);
    case View(size) =>
      var at := m.Inline(size);
      ok := at.Some?;
    case Seek(to) =>
      ok := m.SetPos(to);
  }
}
