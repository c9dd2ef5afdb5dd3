/** Transaction ids of the TCP client, and the replies a FIFO connection can bring back. */
module TcpXid {
  import opened Bytes
  import opened Xids

  /** The number the four bytes hold on the little-endian host that counts it down. */
  function Number(x: Xid): (n: int)
    ensures 0 <= n < TWO_TO_32
  {
    x.b0 as int + 0x100 * x.b1 as int + 0x1_0000 * x.b2 as int + 0x100_0000 * x.b3 as int
  }

  /** `--(*msg_x_id)`: the lowest byte is counted down, borrowing from the next while it is zero. */
  function PrevXid(x: Xid): Xid {
    if x.b0 > 0 then x.(b0 := x.b0 - 1)
    else if x.b1 > 0 then Xid(255, x.b1 - 1, x.b2, x.b3)
    else if x.b2 > 0 then Xid(255, 255, x.b2 - 1, x.b3)
    else if x.b3 > 0 then Xid(255, 255, 255, x.b3 - 1)
    else Xid(255, 255, 255, 255)
  }

  lemma {:induction false} PrevNumber(x: Xid)
    ensures Number(PrevXid(x)) == if Number(x) == 0 then TWO_TO_32 - 1 else Number(x) - 1
  {
  }

  /** The id of attempt number `n` of a handle created with id `x`. */
  function XidOf(x: Xid, n: nat): Xid {
    if n == 0 then x else PrevXid(XidOf(x, n - 1))
  }

  lemma {:induction false} NumberOf(x: Xid, n: nat)
    ensures Number(XidOf(x, n)) == (Number(x) - n) % TWO_TO_32
  {
    if n > 0 {
      NumberOf(x, n - 1);
      PrevNumber(XidOf(x, n - 1));
      CountDown(Number(x) - n);
    }
  }

  lemma {:induction false} CountDown(c: int)
    ensures var r := (c + 1) % TWO_TO_32; c % TWO_TO_32 == if r == 0 then TWO_TO_32 - 1 else r - 1
  {
    var q, r := (c + 1) / TWO_TO_32, (c + 1) % TWO_TO_32;
    assert c == TWO_TO_32 * q + (r - 1);
  }

  lemma {:induction false} SameNumber(x: Xid, y: Xid)
    requires Number(x) == Number(y)
    ensures x == y
  {
    var x3, y3 := x.b3 as int, y.b3 as int;
    var x2, y2 := x.b2 as int + 0x100 * x3, y.b2 as int + 0x100 * y3;
    LowOctet(x.b0, y.b0, x.b1 as int + 0x100 * x2, y.b1 as int + 0x100 * y2);
    LowOctet(x.b1, y.b1, x2, y2);
    LowOctet(x.b2, y.b2, x3, y3);
  }

  /** Two attempts of a handle carry the same id on the wire exactly when 2^32 divides their distance. */
  lemma {:induction false} SameXid(x: Xid, a: nat, b: nat)
    ensures Wire(XidOf(x, a)) == Wire(XidOf(x, b)) <==> (a - b) % TWO_TO_32 == 0
  {
    NumberOf(x, a);
    NumberOf(x, b);
    SameResidue(Number(x) - b, Number(x) - a, TWO_TO_32);
    WireInjective(XidOf(x, a), XidOf(x, b));
    if Number(XidOf(x, a)) == Number(XidOf(x, b)) {
      SameNumber(XidOf(x, a), XidOf(x, b));
    }
  }

  lemma {:induction false} Nearby(a: nat, b: nat)
    requires -TWO_TO_32 < a - b < TWO_TO_32
    ensures (a - b) % TWO_TO_32 == 0 <==> a == b
  {
  }

  // ---------------------------------------------------------------- the connection

  /**
   * A record on its way to the client: one whose header it cannot decode, or a reply made for an
   * attempt. The client decodes the header by itself, so a reply whose results were cut off
   * because they would not encode is a reply like any other until the results are looked at.
   */
  datatype Record = Garbage | Reply(xid: Word, attempt: nat, whole: bool)

  /** How far `xdr_replymsg` gets. The record is ended and sent whatever that is. */
  datatype Extent = All | HeaderOnly | Less

  datatype Step =
    | Attempt(waits: bool)      // the client counts its id down and writes a request
    | Receive(decoded: bool)    // the server reads the next request, which may not decode
    | Respond(extent: Extent)   // the server writes a reply, perhaps not its first, to the request it has
    | Take                      // the client, waiting for a reply, reads the next record
    | GiveUp                    // the client stops waiting

  /** A reply that the client took for that to attempt `at`, and the attempt it was made for. */
  datatype Taken = Taken(at: nat, attempt: nat)

  /**
   * Requests reach the server in the order written and replies reach the client in the order
   * written: the record streams lose and reorder nothing. Request number `i` is that of attempt
   * `i + 1`. `serverXid` is where the server keeps the id of the last call it decoded, and
   * `pending` is the attempt it may reply to, once, twice or not at all, until it reads the next.
   */
  datatype World = World(
    requests: seq<Word>,
    served: nat,
    serverXid: Word,
    pending: Option<nat>,
    replies: seq<Record>,
    taken: nat,
    waiting: bool,
    accepted: seq<Taken>)

  const CONNECTED: World := World([], 0, 0, None, [], 0, false, [])

  /** The client's test on a record: its header decodes, and bears the id last sent. */
  predicate Matches(r: Record, current: Word) {
    r.Reply? && r.xid == current
  }

  predicate Enabled(w: World, s: Step) {
    match s
    case Receive(_) => w.served < |w.requests|
    case Respond(_) => w.pending.Some?
    case Take => w.waiting && w.requests != [] && w.taken < |w.replies|
    case _ => true
  }

  /** The state after a step that is enabled; the others change nothing, so every list of steps is a run. */
  function After(x: Xid, w: World, s: Step): World {
    if !Enabled(w, s) then w else
    match s
    case Attempt(waits) => w.(requests := w.requests + [Wire(XidOf(x, |w.requests| + 1))], waiting := waits)
    case Receive(decoded) =>
      if decoded then w.(served := w.served + 1, serverXid := w.requests[w.served], pending := Some(w.served + 1))
      else w.(served := w.served + 1, pending := None)
    case Respond(extent) =>
      w.(replies := w.replies
                    + [if extent == Less then Garbage else Reply(w.serverXid, w.pending.value, extent == All)])
    case Take => AfterTake(w)
    case GiveUp => w.(waiting := false)
  }

  /** An accepted reply ends the wait. */
  function AfterTake(w: World): World
    requires w.requests != [] && w.taken < |w.replies|
  {
    var r, n := w.replies[w.taken], |w.requests|;
    if Matches(r, w.requests[n - 1])
    then w.(taken := w.taken + 1, waiting := false, accepted := w.accepted + [Taken(n, r.attempt)])
    else w.(taken := w.taken + 1)
  }

  function Run(x: Xid, ss: seq<Step>): World {
    if ss == [] then CONNECTED else After(x, Run(x, ss[..|ss| - 1]), ss[|ss| - 1])
  }

  /** Requests bear the ids of their attempts, and the server holds that of the one it may reply to. */
  ghost predicate Asked(x: Xid, w: World) {
    && w.served <= |w.requests|
    && (forall i :: 0 <= i < |w.requests| ==> w.requests[i] == Wire(XidOf(x, i + 1)))
    && (w.pending.Some? ==>
          w.pending.value == w.served && 0 < w.served && w.serverXid == Wire(XidOf(x, w.served)))
  }

  predicate MadeFor(x: Xid, r: Record, served: nat)
    requires r.Reply?
  {
    1 <= r.attempt <= served && r.xid == Wire(XidOf(x, r.attempt))
  }

  /** Replies are for requests the server has read, under their ids, and in their order. */
  ghost predicate Honest(x: Xid, w: World) {
    && w.taken <= |w.replies|
    && (forall i :: 0 <= i < |w.replies| && w.replies[i].Reply? ==> MadeFor(x, w.replies[i], w.served))
    && (forall i, j :: 0 <= i < j < |w.replies| && w.replies[i].Reply? && w.replies[j].Reply? ==>
          w.replies[i].attempt <= w.replies[j].attempt)
  }

  /** One accepted before another: for an earlier attempt, and made for one no later. */
  predicate Before(a: Taken, b: Taken) {
    a.at < b.at && a.attempt <= b.attempt
  }

  predicate Proper(a: Taken) {
    1 <= a.attempt <= a.at && (a.at - a.attempt) % TWO_TO_32 == 0
  }

  /** Each attempt has accepted at most one reply, and every reply yet to be read is for none earlier. */
  ghost predicate Rising(w: World) {
    && w.taken <= |w.replies|
    && (forall i :: 0 <= i < |w.accepted| ==>
          Proper(w.accepted[i]) && w.accepted[i].at <= |w.requests| - if w.waiting then 1 else 0)
    && (forall i, j :: 0 <= i < j < |w.accepted| ==> Before(w.accepted[i], w.accepted[j]))
    && (forall i, j :: 0 <= i < |w.accepted| && w.taken <= j < |w.replies| && w.replies[j].Reply? ==>
          w.accepted[i].attempt <= w.replies[j].attempt)
    && (forall i :: 0 <= i < |w.accepted| ==> w.accepted[i].attempt <= w.served)
  }

  lemma {:induction false} AskedStep(x: Xid, w: World, s: Step)
    requires Asked(x, w)
    ensures Asked(x, After(x, w, s))
  {
  }

  lemma {:induction false} HonestStep(x: Xid, w: World, s: Step)
    requires Asked(x, w) && Honest(x, w)
    ensures Honest(x, After(x, w, s))
  {
  }

  lemma {:induction false} RisingStep(x: Xid, w: World, s: Step)
    requires Asked(x, w) && Honest(x, w) && Rising(w)
    ensures Rising(After(x, w, s))
  {
    if s.Take? {
      TakeRising(x, w);
    }
  }

  lemma {:induction false} TakeRising(x: Xid, w: World)
    requires Asked(x, w) && Honest(x, w) && Rising(w)
    ensures Rising(After(x, w, Take))
  {
    if Enabled(w, Take) && w.replies[w.taken].Reply? {
      var r, n := w.replies[w.taken], |w.requests|;
      assert MadeFor(x, r, w.served);
      SameXid(x, n, r.attempt);
    }
  }

  /**
   * Over every run: replies are honest and in order, and a reply is accepted at most once for an
   * attempt, after those accepted for earlier ones. Two that are accepted were made for different
   * attempts unless the second was accepted 2^32 attempts or more after the one they were made for.
   */
  lemma {:induction false} RunIsHonest(x: Xid, ss: seq<Step>)
    ensures var w := Run(x, ss);
            && Asked(x, w) && Honest(x, w) && Rising(w)
            && forall i, j :: 0 <= i < j < |w.accepted| && w.accepted[j].at - w.accepted[i].attempt < TWO_TO_32 ==>
                 w.accepted[i].attempt < w.accepted[j].attempt
  {
    if ss != [] {
      var w := Run(x, ss[..|ss| - 1]);
      RunIsHonest(x, ss[..|ss| - 1]);
      AskedStep(x, w, ss[|ss| - 1]);
      HonestStep(x, w, ss[|ss| - 1]);
      RisingStep(x, w, ss[|ss| - 1]);
    }
    var w := Run(x, ss);
    forall i, j | 0 <= i < j < |w.accepted| && w.accepted[j].at - w.accepted[i].attempt < TWO_TO_32
      ensures w.accepted[i].attempt < w.accepted[j].attempt
    {
      var a, b := w.accepted[i], w.accepted[j];
      assert Proper(a) && Proper(b) && Before(a, b);
      if a.attempt == b.attempt {
        Nearby(b.at, b.attempt);
      }
    }
  }

  /**
   * When the client takes a record, it accepts it exactly when it is the server's reply, cut off
   * or not, to an attempt a multiple of 2^32 attempts back; so stale replies are discarded, whatever
   * calls left them behind, until the ids have gone all the way round.
   */
  lemma {:induction false} TakenReply(x: Xid, ss: seq<Step>)
    requires Enabled(Run(x, ss), Take)
    ensures var w := Run(x, ss);
            var r, n := w.replies[w.taken], |w.requests|;
            && (Matches(r, w.requests[n - 1]) <==> r.Reply? && (n - r.attempt) % TWO_TO_32 == 0)
            && (r.Reply? && n - r.attempt < TWO_TO_32 ==> (Matches(r, w.requests[n - 1]) <==> r.attempt == n))
  {
    RunIsHonest(x, ss);
    var w := Run(x, ss);
    var r, n := w.replies[w.taken], |w.requests|;
    if r.Reply? {
      assert MadeFor(x, r, w.served);
      SameXid(x, n, r.attempt);
      if n - r.attempt < TWO_TO_32 {
        Nearby(n, r.attempt);
      }
    }
  }

  function Takes(n: nat): (ss: seq<Step>)
    ensures |ss| == n
  {
    seq(n, i => Take)
  }

  /** The first reply to the current attempt is at position `p` of the stream, still to be read. */
  predicate Waits(w: World, p: nat) {
    && w.waiting && w.taken <= p < |w.replies| && |w.requests| < TWO_TO_32
    && w.replies[p].Reply? && w.replies[p].attempt == |w.requests|
    && forall q :: w.taken <= q < p && w.replies[q].Reply? ==> w.replies[q].attempt != |w.requests|
  }

  /** The client reads one record: the current reply is accepted, anything before it discarded. */
  lemma {:induction false} TakeBefore(x: Xid, ss: seq<Step>, p: nat)
    requires Waits(Run(x, ss), p)
    ensures var w, w' := Run(x, ss), Run(x, ss + [Take]);
            var n := |w.requests|;
            w' == if w.taken == p
                  then w.(taken := w.taken + 1, waiting := false, accepted := w.accepted + [Taken(n, n)])
                  else w.(taken := w.taken + 1)
  {
    var w := Run(x, ss);
    RunIsHonest(x, ss);
    assert MadeFor(x, w.replies[p], w.served);
    TakenReply(x, ss);
    assert (ss + [Take])[..|ss|] == ss;
    if w.replies[w.taken].Reply? {
      assert MadeFor(x, w.replies[w.taken], w.served);
    }
  }

  /**
   * Nothing stands in the way of the current reply: when it is in the stream, reading on from the
   * present place discards all that comes before it and accepts it.
   */
  lemma {:induction false} CurrentReplyReached(x: Xid, ss: seq<Step>, p: nat)
    requires Waits(Run(x, ss), p)
    ensures var w, w' := Run(x, ss), Run(x, ss + Takes(p + 1 - Run(x, ss).taken));
            && w'.taken == p + 1 && !w'.waiting && w'.accepted == w.accepted + [Taken(|w.requests|, |w.requests|)]
    decreases p - Run(x, ss).taken
  {
    var w, more := Run(x, ss), ss + [Take];
    TakeBefore(x, ss, p);
    assert ss + Takes(p + 1 - w.taken) == more + Takes(p - w.taken);
    if w.taken < p {
      CurrentReplyReached(x, more, p);
    } else {
      assert more + Takes(0) == more;
    }
  }

  lemma {:induction false} OneMoreStep(x: Xid, ss: seq<Step>, s: Step)
    ensures Run(x, ss + [s]) == After(x, Run(x, ss), s)
  {
    assert (ss + [s])[..|ss|] == ss;
  }

  /** A request whose results do not encode, and the error that the server then reports. */
  function Failing(): seq<Step> {
    [Attempt(true)] + [Receive(true)] + [Respond(HeaderOnly)] + [Respond(All)]
  }

  /**
   * When results do not encode, the client accepts what there is of the reply, and the error
   * reported behind it, under the same id, is left in the stream.
   */
  lemma {:induction false} CutOffReplyAccepted(x: Xid)
    ensures var w := Run(x, Failing() + [Take]);
            var id := Wire(XidOf(x, 1));
            && w.replies == [Reply(id, 1, false), Reply(id, 1, true)]
            && w.taken == 1 && !w.waiting && w.accepted == [Taken(1, 1)]
  {
    var none: seq<Step> := [];
    var s1 := none + [Attempt(true)];
    var s2, s3 := s1 + [Receive(true)], s1 + [Receive(true)] + [Respond(HeaderOnly)];
    OneMoreStep(x, none, Attempt(true));
    OneMoreStep(x, s1, Receive(true));
    OneMoreStep(x, s2, Respond(HeaderOnly));
    OneMoreStep(x, s3, Respond(All));
    assert s1 == [Attempt(true)] && Failing() == s3 + [Respond(All)];
    OneMoreStep(x, Failing(), Take);
  }
}
