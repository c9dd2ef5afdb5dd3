/** `clntudp_call`: send, wait, send again, until a reply with the right id, a timeout or an error. */
module UdpClient {
  import opened Bytes
  import opened UdpXid
  import opened Xids

  /** `k` lots of `w`, added up. */
  function Lots(k: nat, w: nat): nat {
    if k == 0 then 0 else Lots(k - 1, w) + w
  }

  lemma {:induction false} LotsMultiply(k: nat, w: nat)
    ensures Lots(k, w) == k * w
  {
    if k > 0 {
      LotsMultiply(k - 1, w);
      assert k * w == (k - 1) * w + w;
    }
  }

  /** Microseconds within a second, as in a normalised `struct timeval`. */
  type Usec = u: int | 0 <= u < 1_000_000

  /** The length, in microseconds, of a time given in seconds and microseconds. */
  function Micros(sec: nat, usec: nat): nat {
    Lots(sec, 1_000_000) + usec
  }

  /** The client's own comparison of two times. */
  predicate Less(sec: nat, usec: nat, sec': nat, usec': nat) {
    sec < sec' || (sec == sec' && usec < usec')
  }

  lemma {:induction false} LessIsLess(sec: nat, usec: Usec, sec': nat, usec': Usec)
    ensures Less(sec, usec, sec', usec') <==> Micros(sec, usec) < Micros(sec', usec')
  {
    LotsMultiply(sec, 1_000_000);
    LotsMultiply(sec', 1_000_000);
  }

  lemma {:induction false} AddMicros(sec: nat, usec: nat, sec': nat, usec': nat)
    ensures Micros(sec + sec', usec + usec') == Micros(sec, usec) + Micros(sec', usec')
  {
    LotsMultiply(sec, 1_000_000);
    LotsMultiply(sec', 1_000_000);
    LotsMultiply(sec + sec', 1_000_000);
  }

  /** What `select` and `recvfrom` may report to the waiting client. */
  datatype Event =
    | Timeout
    | Interrupted
    | WouldBlock
    | IoError
    | Datagram(data: seq<Byte>)

  /** What decoding and validating a datagram comes to. */
  datatype Outcome = Undecodable | Success | InvalidVerifier | Refused

  datatype Status =
    | RpcSuccess | RpcCantEncodeArgs | RpcCantSend | RpcCantRecv | RpcTimedOut
    | RpcCantDecodeRes | RpcAuthError | RpcServerError
    | Waiting      // the events have run out and the call is still waiting

  // ---------------------------------------------------------------- how many datagrams

  function CeilDiv(t: nat, w: nat): nat
    requires w > 0
  {
    (t + w - 1) / w
  }

  function Max(a: nat, b: nat): nat {
    if a < b then b else a
  }

  /** The most datagrams one call may send: one a waiting interval, and one for each refresh. */
  function SendBound(total: nat, wait: nat): nat
    requires wait > 0
  {
    Max(1, CeilDiv(total, wait)) + 2
  }

  lemma {:induction false} Products(a: nat, b: nat, w: nat)
    ensures a <= b ==> a * w <= b * w
  {
  }

  /** `k` whole intervals below the total are fewer than the intervals the total is rounded up to. */
  lemma {:induction false} IntervalsBelow(k: nat, w: nat, t: nat)
    requires w > 0 && Lots(k, w) < t
    ensures k + 1 <= CeilDiv(t, w)
  {
    LotsMultiply(k, w);
    var q := CeilDiv(t, w);
    assert q * w >= t by {
      var n := t + w - 1;
      assert n == w * (n / w) + n % w;
      assert w * (n / w) == q * w;
    }
    Products(q, k, w);
  }

  /** What ends one waiting interval. */
  datatype Wake = TimeUp | Failed | Silence | Answer(data: seq<Byte>)

  /** Events that do not end the waiting: interruptions, false alarms and strange datagrams. */
  predicate Passed(e: Event, xid: Xid) {
    e == Interrupted || e == WouldBlock || (e.Datagram? && (|e.data| < 4 || Head(e.data) != xid))
  }

  /** What an event that does end it means. */
  function Meaning(e: Event): Wake {
    match e
    case Timeout => TimeUp
    case Datagram(data) => Answer(data)
    case _ => Failed
  }

  /** Waits, from event number `from` on, for the first that is not passed over, and stops after it. */
  method Await(xid: Xid, events: seq<Event>, from: nat) returns (wake: Wake, next: nat)
    requires from <= |events|
    ensures from <= next <= |events|
    ensures wake == Silence ==> next == |events| && forall i :: from <= i < next ==> Passed(events[i], xid)
    ensures wake != Silence ==>
              && from < next && !Passed(events[next - 1], xid) && wake == Meaning(events[next - 1])
              && forall i :: from <= i < next - 1 ==> Passed(events[i], xid)
    ensures wake.Answer? ==> Bears(wake.data, xid)
  {
    next := from;
    while next < |events|
      invariant from <= next <= |events|
      invariant forall i :: from <= i < next ==> Passed(events[i], xid)
    {
      var event := events[next];
      next := next + 1;
      match event {
        case Timeout => return TimeUp, next;
        case Interrupted =>
        case WouldBlock =>
        case IoError => return Failed, next;
        case Datagram(data) =>
          if |data| >= 4 && Head(data) == xid {
            return Answer(data), next;
          }
      }
    }
    wake := Silence;
  }

  predicate Bears(data: seq<Byte>, xid: Xid) {
    |data| >= 4 && Head(data) == xid
  }

  /** `n` datagrams were sent, all under the one id. */
  ghost predicate Extended(before: seq<Xid>, after: seq<Xid>, xid: Xid, n: nat) {
    && before <= after && |after| == |before| + n
    && forall i :: |before| <= i < |after| ==> after[i] == xid
  }

  lemma {:induction false} ExtendedMore(before: seq<Xid>, after: seq<Xid>, xid: Xid, n: nat)
    requires Extended(before, after, xid, n)
    ensures Extended(before, after + [xid], xid, n + 1)
  {
  }

  /** Some attempt, of the first `n`, used this id. */
  ghost predicate FromAttempt(x: Xid, id: Xid, n: nat) {
    exists a :: 1 <= a <= n && id == XidAfter(x, a)
  }

  /** Datagrams were only added, each under the id of one of the first `n` attempts. */
  ghost predicate AllFrom(x: Xid, before: seq<Xid>, after: seq<Xid>, n: nat) {
    && before <= after
    && forall i :: |before| <= i < |after| ==> FromAttempt(x, after[i], n)
  }

  lemma {:induction false} OneMoreAttempt(x: Xid, s0: seq<Xid>, s1: seq<Xid>, s2: seq<Xid>, a: nat, n: nat)
    requires a > 0 && AllFrom(x, s0, s1, a - 1) && Extended(s1, s2, XidAfter(x, a), n)
    ensures AllFrom(x, s0, s2, a)
  {
    forall i | |s0| <= i < |s2| ensures FromAttempt(x, s2[i], a) {
      if i < |s1| {
        assert FromAttempt(x, s1[i], a - 1);
      }
    }
  }

  class Handle {
    const waitSec: nat       // cu_wait
    const waitUsec: nat
    var xid: Xid             // the first four bytes of cu_outbuf
    var sent: seq<Xid>       // the ids of the datagrams sent so far

    constructor (waitSec: nat, waitUsec: nat, xid: Xid)
      ensures this.waitSec == waitSec && this.waitUsec == waitUsec && this.xid == xid && sent == []
    {
      this.waitSec, this.waitUsec, this.xid, sent := waitSec, waitUsec, xid, [];
    }

    /** The length of one waiting interval. */
    ghost function Wait(): nat {
      Micros(waitSec, waitUsec)
    }

    /** `time_waited` at the beginning of a call. */
    static method StartTimer() returns (sec: nat, usec: Usec)
      ensures Micros(sec, usec) == 0
    {
      sec, usec := 0, 0;
    }

    /** Adds one waiting interval, carrying microseconds into seconds one at a time. */
    method AddWait(sec: nat, usec: nat) returns (sec': nat, usec': Usec)
      ensures Micros(sec', usec') == Micros(sec, usec) + Wait()
    {
      var u: nat;
      sec', u := sec + waitSec, usec + waitUsec;
      AddMicros(sec, usec, waitSec, waitUsec);
      while u >= 1_000_000
        invariant Micros(sec', u) == Micros(sec, usec) + Wait()
      {
        sec', u := sec' + 1, u - 1_000_000;
      }
      usec' := u;
    }

    /**
     * From `send_again` until something ends the waiting. `k` intervals had been waited for when
     * this began and `k'` when it ends, not counting one that reached the timeout: all of them
     * fell short of it. One datagram is sent at the start and one more after each of the new ones.
     */
    method SendAndWait(tsec: nat, tusec: Usec, sec: nat, usec: Usec, events: seq<Event>, from: nat, ghost k: nat)
      returns (status: Status, reply: Option<seq<Byte>>, sec': nat, usec': Usec, next: nat, ghost k': nat, ghost n: nat)
      requires from <= |events| && Micros(sec, usec) == Lots(k, Wait()) && Short(k, tsec, tusec)
      modifies this`sent
      ensures from <= next <= |events|
      ensures k <= k' && Short(k', tsec, tusec) && Extended(old(sent), sent, xid, n)
      ensures n <= k' - k + 1 && (status != RpcCantSend ==> n == k' - k + 1)
      ensures Micros(tsec, tusec) == 0 ==> reply == None && k' == k
      ensures reply.Some? ==> Micros(sec', usec') == Lots(k', Wait())
      ensures reply.Some? ==> n > 0 && Bears(reply.value, xid)
      ensures status == RpcTimedOut && Micros(tsec, tusec) > 0 ==> Micros(tsec, tusec) <= Lots(k' + 1, Wait())
      ensures status == RpcTimedOut ==> Micros(tsec, tusec) == 0 || Wait() > 0
      ensures status != RpcSuccess
    {
      sec', usec', k', reply, next, n := sec, usec, k, None, from, 0;
      while true
        invariant Micros(sec', usec') == Lots(k', Wait()) && k <= k'
        invariant Short(k', tsec, tusec)
        invariant n == k' - k && Extended(old(sent), sent, xid, n)
        invariant Micros(tsec, tusec) == 0 ==> k' == k
        invariant from <= next <= |events|
        decreases |events| - next
      {
        if * {
          return RpcCantSend, None, sec', usec', next, k', n;
        }
        ExtendedMore(old(sent), sent, xid, n);
        sent := sent + [xid];
        n := n + 1;
        if tsec == 0 && tusec == 0 {
          return RpcTimedOut, None, sec', usec', next, k', n;
        }
        var wake;
        wake, next := Await(xid, events, next);
        match wake {
          case TimeUp =>
            sec', usec' := AddWait(sec', usec');
            LessIsLess(sec', usec', tsec, tusec);
            if !Less(sec', usec', tsec, tusec) {
              NoLots(k' + 1);
              return RpcTimedOut, None, sec', usec', next, k', n;
            }
            k' := k' + 1;
          case Failed =>
            return RpcCantRecv, None, sec', usec', next, k', n;
          case Silence =>
            return Waiting, None, sec', usec', next, k', n;
          case Answer(data) =>
            return Waiting, Some(data), sec', usec', next, k', n;
        }
      }
    }

    /** `k` intervals fall short of the timeout. */
    ghost predicate Short(k: nat, tsec: nat, tusec: Usec) {
      k > 0 ==> Lots(k, Wait()) < Micros(tsec, tusec)
    }

    /** The attempts of one call, with their number and that of the intervals that fell short. */
    method Attempts(tsec: nat, tusec: Usec, events: seq<Event>, decode: seq<Byte> -> Outcome)
      returns (status: Status, reply: Option<seq<Byte>>, ghost attempts: nat, ghost k: nat)
      modifies this`xid, this`sent
      ensures 1 <= attempts <= 3 && xid == XidAfter(old(xid), attempts)
      ensures AllFrom(old(xid), old(sent), sent, attempts)
      ensures Short(k, tsec, tusec) && |sent| <= |old(sent)| + attempts + k
      ensures Micros(tsec, tusec) == 0 ==> attempts == 1 && k == 0 && reply == None
      ensures reply.Some? ==> Bears(reply.value, xid) && |sent| > |old(sent)| && sent[|sent| - 1] == xid
      ensures status == RpcSuccess ==> reply.Some? && decode(reply.value) == Success
      ensures status == RpcTimedOut ==> Micros(tsec, tusec) == 0 || Wait() > 0
    {
      attempts, reply, k := 0, None, 0;
      var sec, usec := StartTimer();
      var next: nat, refreshes := 0, 2;
      while true
        invariant next <= |events|
        invariant 0 <= refreshes <= 2 && attempts == 2 - refreshes && xid == XidAfter(old(xid), attempts)
        invariant AllFrom(old(xid), old(sent), sent, attempts) && |sent| <= |old(sent)| + k + attempts
        invariant Micros(sec, usec) == Lots(k, Wait()) && Short(k, tsec, tusec)
        invariant Micros(tsec, tusec) == 0 ==> attempts == 0 && k == 0
        decreases refreshes
      {
        ghost var before := sent;
        xid, attempts := NextXid(xid), attempts + 1;
        ghost var n;
        status, reply, sec, usec, next, k, n := Attempt(tsec, tusec, sec, usec, events, next, k);
        OneMoreAttempt(old(xid), old(sent), before, sent, attempts, n);
        if reply == None {
          return;
        }
        status := Decide(decode(reply.value));
        if status != RpcServerError || refreshes == 0 {
          return;
        }
        if * {
          return;
        }
        refreshes := refreshes - 1;
      }
    }

    /** Marshals the call, which may fail, and sends it. */
    method Attempt(tsec: nat, tusec: Usec, sec: nat, usec: Usec, events: seq<Event>, from: nat, ghost k: nat)
      returns (status: Status, reply: Option<seq<Byte>>, sec': nat, usec': Usec, next: nat, ghost k': nat, ghost n: nat)
      requires from <= |events| && Micros(sec, usec) == Lots(k, Wait()) && Short(k, tsec, tusec)
      modifies this`sent
      ensures from <= next <= |events|
      ensures k <= k' && Short(k', tsec, tusec) && Extended(old(sent), sent, xid, n) && n <= k' - k + 1
      ensures Micros(tsec, tusec) == 0 ==> reply == None && k' == k
      ensures reply.Some? ==> Micros(sec', usec') == Lots(k', Wait())
      ensures reply.Some? ==> n > 0 && Bears(reply.value, xid)
      ensures status == RpcTimedOut ==> Micros(tsec, tusec) == 0 || Wait() > 0
      ensures status != RpcSuccess
    {
      if * {
        return RpcCantEncodeArgs, None, sec, usec, from, k, 0;
      }
      status, reply, sec', usec', next, k', n := SendAndWait(tsec, tusec, sec, usec, events, from, k);
    }

    /**
     * One call: at most three attempts, each under the next id. Whatever mixture of strange
     * datagrams, interruptions and refreshes occurs, the datagrams sent are within the bound, which
     * there is unless the retry interval is zero: the call then never times out, if it waits. A
     * reply whose contents decide the call bears the id of the last attempt, which is the id of
     * the last datagram sent.
     */
    method Call(tsec: nat, tusec: Usec, events: seq<Event>, decode: seq<Byte> -> Outcome)
      returns (status: Status, reply: Option<seq<Byte>>, ghost attempts: nat)
      modifies this`xid, this`sent
      ensures 1 <= attempts <= 3 && xid == XidAfter(old(xid), attempts)
      ensures AllFrom(old(xid), old(sent), sent, attempts)
      ensures Wait() > 0 ==> |sent| - |old(sent)| <= SendBound(Micros(tsec, tusec), Wait())
      ensures status == RpcTimedOut ==> Micros(tsec, tusec) == 0 || Wait() > 0
      ensures Micros(tsec, tusec) == 0 ==> |sent| - |old(sent)| <= 1 && reply == None
      ensures reply.Some? ==> Bears(reply.value, xid) && sent != [] && sent[|sent| - 1] == xid
      ensures status == RpcSuccess ==> reply.Some? && decode(reply.value) == Success
    {
      ghost var k;
      status, reply, attempts, k := Attempts(tsec, tusec, events, decode);
      if Wait() > 0 {
        FewIntervals(k, Wait(), Micros(tsec, tusec));
      }
    }
  }

  /** What `_seterr_reply` and the verifier check make of a decoded reply. */
  function Decide(o: Outcome): (s: Status)
    ensures s == RpcSuccess <==> o == Success
  {
    match o
    case Undecodable => RpcCantDecodeRes
    case Success => RpcSuccess
    case InvalidVerifier => RpcAuthError
    case Refused => RpcServerError
  }

  /** However often, nothing is nothing. */
  lemma {:induction false} NoLots(k: nat)
    ensures Lots(k, 0) == 0
  {
    if k > 0 {
      NoLots(k - 1);
    }
  }

  /** So many intervals that fall short are one fewer than the bound allows for. */
  lemma {:induction false} FewIntervals(k: nat, w: nat, t: nat)
    requires w > 0 && (k > 0 ==> Lots(k, w) < t)
    ensures k + 3 <= SendBound(t, w)
  {
    if k > 0 {
      IntervalsBelow(k, w, t);
    }
  }
}
