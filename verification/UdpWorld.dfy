/**
 * A UDP client's handle, a network that loses, duplicates, delays and reorders datagrams, and a
 * server that keeps the last few replies and serves other callers too.
 */
module UdpWorld {
  import opened Bytes
  import opened Xids
  import opened UdpXid
  import opened ReplyLog

  /**
   * A datagram of the handle's: its first four bytes, and for a reply the attempt whose request
   * it was sent in answer to and the attempt, if any of this handle's, that it was made for.
   */
  datatype Packet =
    | Query(xid: Xid, attempt: nat, call: ReplyLog.Call)
    | Answer(xid: Xid, answering: nat, made: Option<nat>)

  datatype Step =
    | Attempt(call: ReplyLog.Call)                // the client counts its id up and sends
    | Receive(p: Packet)                          // a request of the handle's reaches the server
    | Foreign(xid: Word, call: ReplyLog.Call)     // another caller's request does
    | Respond(body: seq<Byte>)                    // the server replies to the request it received last
    | Deliver(p: Packet)                          // a reply reaches the client

  /**
   * Packets once sent may arrive any number of times, in any order, or never: `net` only grows,
   * and nothing obliges a step to be taken. `whose` says of each cached reply which attempt of the
   * handle's it was made for, and `current` says it of the request received last.
   */
  datatype World = World(
    attempts: nat,
    net: set<Packet>,
    cache: Model,
    whose: seq<Option<nat>>,
    received: bool,
    current: Option<nat>)

  function Start(saved: ReplyLog.Call): World {
    World(0, {}, Model([], 0, saved), [], false, None)
  }

  function Sent(x: Xid, n: nat, call: ReplyLog.Call): Packet {
    Query(XidAfter(x, n), n, call)
  }

  /** The attempt that the newest reply under a key was made for. */
  function MadeFor(log: seq<Entry>, whose: seq<Option<nat>>, key: Key): Option<nat>
    requires |log| == |whose|
  {
    if log == [] then None
    else if log[|log| - 1].key == key then whose[|log| - 1]
    else MadeFor(log[..|log| - 1], whose[..|log| - 1], key)
  }

  predicate Enabled(w: World, s: Step) {
    match s
    case Receive(p) => p in w.net && p.Query?
    case Respond(_) => w.received
    case Deliver(p) => p in w.net && p.Answer?
    case _ => true
  }

  /** `svcudp_recv` on a request: what is cached under its id is sent again, and the request is passed on. */
  function AfterReceive(w: World, p: Packet): World
    requires p.Query? && |w.whose| == |w.cache.log|
  {
    var m := w.cache.(xid := Wire(p.xid));
    var (m', hit) := Lookup(m, p.call);
    var w' := w.(cache := m', received := true, current := Some(p.attempt));
    if hit.Some? && |hit.value| >= 4
    then w'.(net := w.net + {Answer(Head(hit.value), p.attempt, MadeFor(m.log, w.whose, Key(m.xid, m.saved)))})
    else w'
  }

  /** `svcudp_reply`: the reply goes out under the current id and into the cache. */
  function AfterRespond(w: World, body: seq<Byte>, size: nat): World {
    var w' := w.(cache := Store(w.cache, PutWord(w.cache.xid) + body, size),
                 whose := LastN(w.whose + [w.current], size));
    if w.current == None then w'
    else w'.(net := w.net + {Answer(Head(PutWord(w.cache.xid)), w.current.value, w.current)})
  }

  /** The state after a step that is enabled; the others change nothing. A cache of size 0 is none. */
  function After(x: Xid, size: nat, w: World, s: Step): World {
    if !Enabled(w, s) || |w.whose| != |w.cache.log| then w else
    match s
    case Attempt(call) => w.(attempts := w.attempts + 1, net := w.net + {Sent(x, w.attempts + 1, call)})
    case Receive(p) => AfterReceive(w, p)
    case Foreign(id, call) => w.(cache := Lookup(w.cache.(xid := id), call).0, received := true, current := None)
    case Respond(body) => AfterRespond(w, body, size)
    case Deliver(_) => w
  }

  function Run(x: Xid, size: nat, saved: ReplyLog.Call, ss: seq<Step>): World {
    if ss == [] then Start(saved)
    else After(x, size, Run(x, size, saved, ss[..|ss| - 1]), ss[|ss| - 1])
  }

  // ---------------------------------------------------------------- what holds in every run

  /** The attempt was made, and its id is the one given. */
  predicate Bears(x: Xid, attempts: nat, n: nat, xid: Xid) {
    1 <= n <= attempts && xid == XidAfter(x, n)
  }

  predicate HonestPacket(x: Xid, attempts: nat, p: Packet) {
    match p
    case Query(xid, n, _) => Bears(x, attempts, n, xid)
    case Answer(xid, n, made) => Bears(x, attempts, n, xid) && (made.Some? ==> Bears(x, attempts, made.value, xid))
  }

  /** A cached reply begins with the id it is filed under, which is that of the attempt it was made for. */
  predicate HonestEntry(x: Xid, attempts: nat, e: Entry, made: Option<nat>) {
    && |e.reply| >= 4 && e.reply[..4] == PutWord(e.key.xid)
    && (made.Some? ==> 1 <= made.value <= attempts && e.key.xid == Wire(XidAfter(x, made.value)))
  }

  ghost predicate Honest(x: Xid, w: World) {
    && |w.whose| == |w.cache.log|
    && (forall p :: p in w.net ==> HonestPacket(x, w.attempts, p))
    && (forall i :: 0 <= i < |w.whose| ==> HonestEntry(x, w.attempts, w.cache.log[i], w.whose[i]))
    && (w.current.Some? ==> 1 <= w.current.value <= w.attempts && w.cache.xid == Wire(XidAfter(x, w.current.value)))
  }

  /** The first four bytes of a reply name the id whose word it was encoded from. */
  lemma {:induction false} EchoedHead(s: seq<Byte>, y: Xid)
    requires |s| >= 4 && s[..4] == PutWord(Wire(y))
    ensures Head(s) == y
  {
    WordOnto(y.Bytes());
    assert s[..4] == y.Bytes();
    assert Head(s) == Head(s[..4]) == y;
  }

  /** What the search finds is one of the entries, with the tag that belongs to it. */
  lemma {:induction false} FoundEntry(log: seq<Entry>, whose: seq<Option<nat>>, key: Key) returns (i: nat)
    requires |log| == |whose| && Newest(log, key).Some?
    ensures i < |log| && log[i] == Newest(log, key).value && log[i].key == key && whose[i] == MadeFor(log, whose, key)
  {
    var n := |log| - 1;
    if log[n].key == key {
      i := n;
    } else {
      i := FoundEntry(log[..n], whose[..n], key);
    }
  }

  lemma {:induction false} ReceiveHonest(x: Xid, w: World, p: Packet)
    requires Honest(x, w) && p in w.net && p.Query?
    ensures Honest(x, AfterReceive(w, p))
  {
    assert HonestPacket(x, w.attempts, p);
    var m := w.cache.(xid := Wire(p.xid));
    var key := Key(m.xid, m.saved);
    var found := Newest(m.log, key);
    if found.Some? {
      var i := FoundEntry(m.log, w.whose, key);
      var made := w.whose[i];
      assert HonestEntry(x, w.attempts, m.log[i], made);
      EchoedHead(found.value.reply, p.xid);
      if made.Some? {
        WireInjective(XidAfter(x, made.value), p.xid);
      }
      assert HonestPacket(x, w.attempts, Answer(Head(found.value.reply), p.attempt, made));
    }
  }

  lemma {:induction false} RespondHonest(x: Xid, w: World, body: seq<Byte>, size: nat)
    requires Honest(x, w)
    ensures Honest(x, AfterRespond(w, body, size))
  {
    var reply := PutWord(w.cache.xid) + body;
    var e := Entry(Key(w.cache.xid, w.cache.saved), reply);
    assert reply[..4] == PutWord(w.cache.xid);
    assert HonestEntry(x, w.attempts, e, w.current);
    if w.current.Some? {
      EchoedHead(PutWord(w.cache.xid), XidAfter(x, w.current.value));
      assert HonestPacket(x, w.attempts, Answer(Head(PutWord(w.cache.xid)), w.current.value, w.current));
    }
    var log, whose := w.cache.log + [e], w.whose + [w.current];
    assert forall i :: 0 <= i < |log| ==> HonestEntry(x, w.attempts, log[i], whose[i]);
  }

  /** One more attempt leaves what was honest honest. */
  lemma {:induction false} AttemptHonest(x: Xid, w: World, call: ReplyLog.Call)
    requires Honest(x, w)
    ensures Honest(x, w.(attempts := w.attempts + 1, net := w.net + {Sent(x, w.attempts + 1, call)}))
  {
    forall p | p in w.net ensures HonestPacket(x, w.attempts + 1, p) {
      assert HonestPacket(x, w.attempts, p);
    }
    forall i | 0 <= i < |w.whose| ensures HonestEntry(x, w.attempts + 1, w.cache.log[i], w.whose[i]) {
      assert HonestEntry(x, w.attempts, w.cache.log[i], w.whose[i]);
    }
  }

  /** In every run each packet bears the id of its attempt, and a reply also that of the attempt it was made for. */
  lemma {:induction false} RunIsHonest(x: Xid, size: nat, saved: ReplyLog.Call, ss: seq<Step>)
    ensures Honest(x, Run(x, size, saved, ss))
  {
    if ss != [] {
      var before, s := ss[..|ss| - 1], ss[|ss| - 1];
      RunIsHonest(x, size, saved, before);
      var w := Run(x, size, saved, before);
      if Enabled(w, s) {
        match s
        case Attempt(call) => AttemptHonest(x, w, call);
        case Receive(p) => ReceiveHonest(x, w, p);
        case Respond(body) => RespondHonest(x, w, body, size);
        case Foreign(_, _) =>
        case Deliver(_) =>
      }
    }
  }

  // ---------------------------------------------------------------- what the client accepts

  /** The client's test on a datagram. */
  predicate Accepts(x: Xid, attempts: nat, p: Packet) {
    p.xid == XidAfter(x, attempts)
  }

  /**
   * An accepted reply answers the client's current attempt exactly when it was sent in answer to
   * one less than 65536 attempts ago, and was made for the current attempt exactly when it was
   * made for an attempt of this handle's less than 65536 attempts ago.
   */
  lemma {:induction false} AcceptedReply(x: Xid, size: nat, saved: ReplyLog.Call, ss: seq<Step>, p: Packet)
    requires var w := Run(x, size, saved, ss); p in w.net && p.Answer? && Accepts(x, w.attempts, p)
    ensures var n := Run(x, size, saved, ss).attempts;
            && (p.answering == n <==> n - p.answering <= 65535)
            && (p.made == Some(n) <==> p.made.Some? && n - p.made.value <= 65535)
  {
    RunIsHonest(x, size, saved, ss);
    var w := Run(x, size, saved, ss);
    assert HonestPacket(x, w.attempts, p);
    SameXid(x, w.attempts, p.answering);
    if p.made.Some? {
      SameXid(x, w.attempts, p.made.value);
    }
  }

  /**
   * What the cache sends again when the request of attempt `p.attempt` comes in was made for that
   * attempt exactly when the newest reply filed under the request's id and the saved call was made
   * for this handle, less than 65536 attempts away.
   */
  lemma {:induction false} ResentReply(x: Xid, size: nat, saved: ReplyLog.Call, ss: seq<Step>, p: Packet)
    requires var w := Run(x, size, saved, ss);
             p in w.net && p.Query? && Newest(w.cache.log, Key(Wire(p.xid), w.cache.saved)).Some?
    ensures var w := Run(x, size, saved, ss);
            |w.whose| == |w.cache.log| &&
            var made := MadeFor(w.cache.log, w.whose, Key(Wire(p.xid), w.cache.saved));
            && Answer(p.xid, p.attempt, made) in After(x, size, w, Receive(p)).net
            && (made == Some(p.attempt) <==> made.Some? && -65536 < p.attempt - made.value < 65536)
  {
    RunIsHonest(x, size, saved, ss);
    var w := Run(x, size, saved, ss);
    var key := Key(Wire(p.xid), w.cache.saved);
    var i := FoundEntry(w.cache.log, w.whose, key);
    var made := w.whose[i];
    assert HonestEntry(x, w.attempts, w.cache.log[i], made) && HonestPacket(x, w.attempts, p);
    EchoedHead(w.cache.log[i].reply, p.xid);
    if made.Some? {
      WireInjective(XidAfter(x, made.value), p.xid);
      SameXid(x, p.attempt, made.value);
    }
  }

  /** The server replied to the request of attempt `n`. */
  ghost predicate RepliedTo(x: Xid, size: nat, saved: ReplyLog.Call, ss: seq<Step>, n: nat) {
    exists i :: 0 <= i < |ss| && ss[i].Respond? && Replying(Run(x, size, saved, ss[..i]), n)
  }

  predicate Replying(w: World, n: nat) {
    w.received && w.current == Some(n)
  }

  /** Some reply, on its way or in the cache, claims to have been made for attempt `n`. */
  ghost predicate Claimed(w: World, n: nat) {
    || (exists p :: p in w.net && p.Answer? && p.made == Some(n))
    || (exists i :: 0 <= i < |w.whose| && w.whose[i] == Some(n))
  }

  /** What a reply claims to have been made for, the server has replied to. */
  ghost predicate Made(x: Xid, size: nat, saved: ReplyLog.Call, ss: seq<Step>) {
    forall n :: Claimed(Run(x, size, saved, ss), n) ==> RepliedTo(x, size, saved, ss, n)
  }

  lemma {:induction false} ClaimedOnReceive(w: World, p: Packet, n: nat)
    requires p.Query? && |w.whose| == |w.cache.log| && Claimed(AfterReceive(w, p), n)
    ensures Claimed(w, n)
  {
    var key := Key(Wire(p.xid), w.cache.saved);
    if Newest(w.cache.log, key).Some? {
      var i := FoundEntry(w.cache.log, w.whose, key);
    }
  }

  lemma {:induction false} ClaimedOnRespond(w: World, body: seq<Byte>, size: nat, n: nat)
    requires Claimed(AfterRespond(w, body, size), n)
    ensures Claimed(w, n) || w.current == Some(n)
  {
    var w' := AfterRespond(w, body, size);
    if i :| 0 <= i < |w'.whose| && w'.whose[i] == Some(n) {
      assert Some(n) in w.whose + [w.current];
    }
  }

  /** Only a reply makes a new claim, and for the attempt whose request was received last. */
  lemma {:induction false} ClaimedOnStep(x: Xid, size: nat, w: World, s: Step, n: nat)
    requires Claimed(After(x, size, w, s), n)
    ensures Claimed(w, n) || (s.Respond? && Replying(w, n))
  {
    if Enabled(w, s) && |w.whose| == |w.cache.log| {
      match s
      case Receive(p) => ClaimedOnReceive(w, p, n);
      case Respond(body) => ClaimedOnRespond(w, body, size, n);
      case _ =>
    }
  }

  lemma {:induction false} RepliedBefore(x: Xid, size: nat, saved: ReplyLog.Call, ss: seq<Step>, n: nat)
    requires ss != [] && RepliedTo(x, size, saved, ss[..|ss| - 1], n)
    ensures RepliedTo(x, size, saved, ss, n)
  {
    var before := ss[..|ss| - 1];
    var i :| 0 <= i < |before| && before[i].Respond? && Replying(Run(x, size, saved, before[..i]), n);
    assert before[..i] == ss[..i] && before[i] == ss[i];
  }

  /** In every run a reply made for an attempt is one that the server made when it had received that attempt. */
  lemma {:induction false} RepliesAreMade(x: Xid, size: nat, saved: ReplyLog.Call, ss: seq<Step>)
    ensures Made(x, size, saved, ss)
  {
    if ss != [] {
      var before, s := ss[..|ss| - 1], ss[|ss| - 1];
      RepliesAreMade(x, size, saved, before);
      var w := Run(x, size, saved, before);
      forall n | Claimed(Run(x, size, saved, ss), n) ensures RepliedTo(x, size, saved, ss, n) {
        ClaimedOnStep(x, size, w, s, n);
        if Claimed(w, n) {
          RepliedBefore(x, size, saved, ss, n);
        } else {
          assert Replying(Run(x, size, saved, ss[..|ss| - 1]), n);
        }
      }
    }
  }

  /**
   * Whenever in the run a request of the handle's hit the cache, the newest reply filed under its
   * id and the saved call had been made for this handle, less than 65536 attempts away.
   */
  ghost predicate YoungResends(x: Xid, size: nat, saved: ReplyLog.Call, ss: seq<Step>) {
    ss == [] || (
      var before, s := ss[..|ss| - 1], ss[|ss| - 1];
      YoungResends(x, size, saved, before)
      && (s.Receive? ==> Young(Run(x, size, saved, before), s.p)))
  }

  predicate Young(w: World, p: Packet) {
    p in w.net && p.Query? && |w.whose| == |w.cache.log|
    && Newest(w.cache.log, Key(Wire(p.xid), w.cache.saved)).Some? ==>
      var made := MadeFor(w.cache.log, w.whose, Key(Wire(p.xid), w.cache.saved));
      made.Some? && -65536 < p.attempt - made.value < 65536
  }

  lemma {:induction false} YoungAnswers(x: Xid, size: nat, saved: ReplyLog.Call, ss: seq<Step>)
    requires YoungResends(x, size, saved, ss)
    ensures forall p :: p in Run(x, size, saved, ss).net && p.Answer? ==> p.made == Some(p.answering)
  {
    if ss != [] {
      var before, s := ss[..|ss| - 1], ss[|ss| - 1];
      YoungAnswers(x, size, saved, before);
      RunIsHonest(x, size, saved, before);
      var w := Run(x, size, saved, before);
      if s.Receive? && Enabled(w, s) && Newest(w.cache.log, Key(Wire(s.p.xid), w.cache.saved)).Some? {
        ResentReply(x, size, saved, before, s.p);
        ReceiveAdds(w, s.p);
      }
    }
  }

  lemma {:induction false} ReceiveAdds(w: World, p: Packet)
    requires p.Query? && |w.whose| == |w.cache.log|
    ensures forall q :: q in AfterReceive(w, p).net ==>
              q in w.net || (q.Answer? && q.answering == p.attempt
                             && Newest(w.cache.log, Key(Wire(p.xid), w.cache.saved)).Some?
                             && q.made == MadeFor(w.cache.log, w.whose, Key(Wire(p.xid), w.cache.saved)))
  {
  }

  /**
   * Safety: if no datagram is delayed past 65535 later attempts, and no reply that the cache sends
   * again is that old or another caller's, then a reply that the client accepts was made by the
   * server for the client's current attempt.
   */
  lemma {:induction false} AcceptedReplyIsCurrent(x: Xid, size: nat, saved: ReplyLog.Call, ss: seq<Step>, p: Packet)
    requires YoungResends(x, size, saved, ss)
    requires var w := Run(x, size, saved, ss);
             p in w.net && p.Answer? && Accepts(x, w.attempts, p) && w.attempts - p.answering <= 65535
    ensures var n := Run(x, size, saved, ss).attempts;
            p == Answer(XidAfter(x, n), n, Some(n)) && RepliedTo(x, size, saved, ss, n)
  {
    AcceptedReply(x, size, saved, ss, p);
    YoungAnswers(x, size, saved, ss);
    RepliesAreMade(x, size, saved, ss);
    assert Claimed(Run(x, size, saved, ss), p.answering);
  }

  // ---------------------------------------------------------------- the bounds are the best possible

  function Attempts(call: ReplyLog.Call, n: nat): (ss: seq<Step>)
    ensures |ss| == n
  {
    seq(n, i => Attempt(call))
  }

  lemma {:induction false} OneMoreStep(x: Xid, size: nat, saved: ReplyLog.Call, ss: seq<Step>, s: Step)
    ensures Run(x, size, saved, ss + [s]) == After(x, size, Run(x, size, saved, ss), s)
    ensures YoungResends(x, size, saved, ss + [s]) <==>
              YoungResends(x, size, saved, ss) && (s.Receive? ==> Young(Run(x, size, saved, ss), s.p))
  {
    assert (ss + [s])[..|ss|] == ss;
  }

  lemma {:induction false} MoreAttempts(x: Xid, size: nat, saved: ReplyLog.Call, ss: seq<Step>, call: ReplyLog.Call,
                                        n: nat)
    ensures var w, w' := Run(x, size, saved, ss), Run(x, size, saved, ss + Attempts(call, n));
            && w'.attempts == w.attempts + n && w.net <= w'.net
            && w'.cache == w.cache && w'.whose == w.whose && w'.received == w.received && w'.current == w.current
            && (n > 0 ==> Sent(x, w'.attempts, call) in w'.net)
    ensures YoungResends(x, size, saved, ss) ==> YoungResends(x, size, saved, ss + Attempts(call, n))
  {
    if n == 0 {
      assert ss + Attempts(call, 0) == ss;
    } else {
      MoreAttempts(x, size, saved, ss, call, n - 1);
      RunIsHonest(x, size, saved, ss + Attempts(call, n - 1));
      assert ss + Attempts(call, n) == ss + Attempts(call, n - 1) + [Attempt(call)];
      OneMoreStep(x, size, saved, ss + Attempts(call, n - 1), Attempt(call));
    }
  }

  /** One attempt, received and replied to. */
  function FirstReply(x: Xid, call: ReplyLog.Call, body: seq<Byte>): seq<Step> {
    [Attempt(call)] + [Receive(Sent(x, 1, call))] + [Respond(body)]
  }

  lemma {:induction false} AfterFirstReply(x: Xid, size: nat, call: ReplyLog.Call, body: seq<Byte>)
    requires size > 0
    ensures var w, id := Run(x, size, call, FirstReply(x, call, body)), Wire(XidAfter(x, 1));
            && w.attempts == 1 && Answer(XidAfter(x, 1), 1, Some(1)) in w.net
            && w.cache == Model([Entry(Key(id, call), PutWord(id) + body)], id, call) && w.whose == [Some(1)]
    ensures YoungResends(x, size, call, FirstReply(x, call, body))
  {
    AfterFirstRequest(x, size, call);
    var before, id := [Attempt(call)] + [Receive(Sent(x, 1, call))], Wire(XidAfter(x, 1));
    OneMoreStep(x, size, call, before, Respond(body));
    EchoedHead(PutWord(id), XidAfter(x, 1));
    var e, mine: Option<nat> := Entry(Key(id, call), PutWord(id) + body), Some(1);
    assert [] + [e] == [e] && LastN([e], size) == [e];
    assert [] + [mine] == [mine] && LastN([mine], size) == [mine];
  }

  lemma {:induction false} AfterFirstRequest(x: Xid, size: nat, call: ReplyLog.Call)
    ensures var ss, q := [Attempt(call)] + [Receive(Sent(x, 1, call))], Sent(x, 1, call);
            && Run(x, size, call, ss) == World(1, {q}, Model([], Wire(q.xid), call), [], true, Some(1))
            && YoungResends(x, size, call, ss)
  {
    var none: seq<Step>, q := [], Sent(x, 1, call);
    assert none + [Attempt(call)] == [Attempt(call)];
    OneMoreStep(x, size, call, none, Attempt(call));
    assert Run(x, size, call, [Attempt(call)]) == Start(call).(attempts := 1, net := {} + {q});
    OneMoreStep(x, size, call, [Attempt(call)], Receive(q));
  }

  /** A datagram a multiple of 65536 attempts late is taken for the current reply, though the cache is never asked. */
  lemma {:induction false} StaleReplyAccepted(x: Xid, size: nat, call: ReplyLog.Call, body: seq<Byte>, n: nat)
    requires size > 0 && n % 65536 == 0
    ensures var ss, p := FirstReply(x, call, body) + Attempts(call, n), Answer(XidAfter(x, 1), 1, Some(1));
            var w := Run(x, size, call, ss);
            && YoungResends(x, size, call, ss) && w.attempts == n + 1
            && p in w.net && Accepts(x, w.attempts, p)
  {
    AfterFirstReply(x, size, call, body);
    MoreAttempts(x, size, call, FirstReply(x, call, body), call, n);
    SameXid(x, n + 1, 1);
  }

  /** A request that hits the only cached reply, which was made for attempt 1, long before. */
  lemma {:induction false} OldReplyResent(x: Xid, size: nat, call: ReplyLog.Call, before: seq<Step>, n: nat)
    requires n > 65536
    requires var w := Run(x, size, call, before);
             && w.attempts == n && Sent(x, n, call) in w.net && w.whose == [Some(1)]
             && |w.cache.log| == 1 && w.cache.log[0].key == Key(Wire(XidAfter(x, n)), w.cache.saved)
    ensures var ss := before + [Receive(Sent(x, n, call))];
            var w := Run(x, size, call, ss);
            w.attempts == n && Answer(XidAfter(x, n), n, Some(1)) in w.net && !YoungResends(x, size, call, ss)
  {
    ResentReply(x, size, call, before, Sent(x, n, call));
    OneMoreStep(x, size, call, before, Receive(Sent(x, n, call)));
  }

  /**
   * A cached reply a multiple of 65536 attempts old is taken for the current one, though no datagram
   * is delayed: the request of attempt 65537, say, hits the reply made for attempt 1.
   */
  lemma {:induction false} StaleResendAccepted(x: Xid, size: nat, call: ReplyLog.Call, body: seq<Byte>, n: nat)
    requires size > 0 && n > 0 && n % 65536 == 0
    ensures var ss := FirstReply(x, call, body) + Attempts(call, n) + [Receive(Sent(x, n + 1, call))];
            var w, p := Run(x, size, call, ss), Answer(XidAfter(x, n + 1), n + 1, Some(1));
            && w.attempts == p.answering && p in w.net && Accepts(x, w.attempts, p)
            && !YoungResends(x, size, call, ss)
  {
    AfterFirstReply(x, size, call, body);
    MoreAttempts(x, size, call, FirstReply(x, call, body), call, n);
    SameXid(x, n + 1, 1);
    OldReplyResent(x, size, call, FirstReply(x, call, body) + Attempts(call, n), n + 1);
  }
}
