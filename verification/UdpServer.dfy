/** The UDP transport over whole runs, from bytes received to bytes sent again. */
module UdpServer {
  import opened Bytes
  import opened ReplyLog
  import opened ReplyCache
  import CallMsg
  import Leftovers

  /** One thing that happens to the transport. */
  datatype Happening =
    | Receive(got: Option<seq<Byte>>, from: Address)    // a datagram, or an error of `recvfrom`
    | Overread(len: nat)                                // arguments that run past the buffer's end
    | Answer(pieces: seq<seq<Byte>>, sent: bool)        // a reply, and whether `sendto` takes it

  /** The call header that a happening brings, if any, and what reading it has cost the stream. */
  type Result = (Option<CallMsg.Msg>, nat)

  /** What the stream has left of its buffer after it. */
  function Room(room: int, iosz: nat, h: Happening, r: Result): (left: int)
    ensures room <= iosz ==> left <= iosz
  {
    match h
    case Receive(_, _) => room - r.1
    case Overread(len) => room - len
    case Answer(pieces, sent) => RoomAfter(room, iosz, pieces, sent)
  }

  function RoomAt(iosz: nat, hs: seq<Happening>, rs: seq<Result>, n: nat): (room: int)
    requires n <= |rs| && n <= |hs|
    ensures room <= iosz
  {
    if n == 0 then iosz else Room(RoomAt(iosz, hs, rs, n - 1), iosz, hs[n - 1], rs[n - 1])
  }

  /** The most that a happening can cost the stream. */
  function Worst(h: Happening): nat {
    match h
    case Receive(_, _) => MAX_AUTH_BYTES
    case Overread(len) => len
    case Answer(pieces, _) => 4 + |Concat(pieces)|
  }

  function Spent(hs: seq<Happening>, n: nat): nat
    requires n <= |hs|
  {
    if n == 0 then 0 else Spent(hs, n - 1) + Worst(hs[n - 1])
  }

  /** What comes of a happening when the live buffer held `before`. */
  function ResultOf(before: seq<Byte>, room: int, h: Happening): (r: Result)
    requires room <= |before|
    ensures r.1 <= MAX_AUTH_BYTES
  {
    if h.Receive? then Heard(before, room, h.got) else (None, 0)
  }

  /** What one happening is to the reply log, when `m` is the header it brings, if any. */
  function Logged(m: Option<CallMsg.Msg>, room: int, h: Happening): (log: seq<Event>)
    ensures |log| <= 1
  {
    match h
    case Receive(_, from) => if m == None then [] else [Request(m.value.xid, CallOf(m.value, from))]
    case Overread(_) => []
    case Answer(pieces, sent) => if Overrun(room, pieces) == None && sent then [Reply(Concat(pieces))] else []
  }

  /** The events of the first `n` happenings of a run. */
  function Log(iosz: nat, hs: seq<Happening>, rs: seq<Result>, n: nat): seq<Event>
    requires n <= |rs| && n <= |hs|
  {
    if n == 0 then [] else
      Log(iosz, hs, rs, n - 1) + Logged(rs[n - 1].0, RoomAt(iosz, hs, rs, n - 1), hs[n - 1])
  }

  /** Result number `i` is what a buffer with the contents `bs[i]` gives. */
  ghost predicate ResultAt(iosz: nat, hs: seq<Happening>, bs: seq<seq<Byte>>, rs: seq<Result>, i: nat)
    requires i < |bs| == |rs| <= |hs|
  {
    |bs[i]| == iosz && rs[i] == ResultOf(bs[i], RoomAt(iosz, hs, rs, i), hs[i])
  }

  ghost predicate Explains(iosz: nat, hs: seq<Happening>, bs: seq<seq<Byte>>, rs: seq<Result>) {
    |bs| == |rs| <= |hs| && forall i :: 0 <= i < |rs| ==> ResultAt(iosz, hs, bs, rs, i)
  }

  /** Only the results before a happening matter for it. */
  lemma {:induction false} SameRoom(iosz: nat, hs: seq<Happening>, rs: seq<Result>, rs': seq<Result>, n: nat)
    requires n <= |rs| && n <= |rs'| && n <= |hs| && rs[..n] == rs'[..n]
    ensures RoomAt(iosz, hs, rs, n) == RoomAt(iosz, hs, rs', n) && Log(iosz, hs, rs, n) == Log(iosz, hs, rs', n)
  {
    if n > 0 {
      assert rs[..n - 1] == rs[..n][..n - 1] == rs'[..n - 1] && rs[n - 1] == rs[..n][n - 1] == rs'[n - 1];
      SameRoom(iosz, hs, rs, rs', n - 1);
    }
  }

  // ---------------------------------------------------------------- what a datagram comes to

  /** What the stream reads lies in the datagram first and then in the leftovers behind it. */
  lemma {:induction false} ReadOn(before: seq<Byte>, room: int, data: seq<Byte>)
    requires |data| <= room <= |before|
    ensures Overlaid(before, Some(data))[..room] == data + before[|data|..room]
  {
  }

  /** A datagram with a whole header is the request it says, whatever the buffer held before. */
  lemma {:induction false} WholeHeader(before: seq<Byte>, room: int, data: seq<Byte>)
    requires 16 <= |data| <= room <= |before| && CallMsg.Parse(data).Some?
    ensures Heard(before, room, Some(data)) == (Some(CallMsg.Parse(data).value.0), 0)
  {
    ReadOn(before, room, data);
    CallMsg.ParseMore(data, before[|data|..room]);
  }

  /** Nothing is heard any more once the stream has lost all of its buffer, and it only loses more. */
  lemma {:induction false} Deaf(before: seq<Byte>, room: int, h: Happening, iosz: nat)
    requires room < 0 <= |before|
    ensures var r := ResultOf(before, room, h);
            && r.0 == None && Logged(None, room, h) == [] && Room(room, iosz, h, r) <= room
            && (h.Receive? && LongEnough(h.got, |before|) ==> r.1 == 4)
            && (h.Answer? ==> Room(room, iosz, h, r) == room - 4)
  {
  }

  /**
   * The length of a datagram is tested against four words and then forgotten. The first sixteen
   * bytes of a call are completed from what the last one left in the buffer: they are heard as
   * that call under the new id.
   */
  lemma {:induction false} HeardFromLeftovers(m: CallMsg.Msg, credPad: seq<Byte>, verfPad: seq<Byte>,
                                              tail: seq<Byte>, xid: Word)
    requires CallMsg.Sendable(m) && CallMsg.PadFor(m.cred, credPad) && CallMsg.PadFor(m.verf, verfPad)
    ensures var before := CallMsg.MsgBytes(m, credPad, verfPad) + tail;
            var data := CallMsg.HeadBytes(m.(xid := xid))[..16];
            Heard(before, |before|, Some(data)) == (Some(m.(xid := xid)), 0)
  {
    var m' := m.(xid := xid);
    var before := CallMsg.MsgBytes(m, credPad, verfPad) + tail;
    var auths := CallMsg.AuthBytes(m.cred, credPad) + CallMsg.AuthBytes(m.verf, verfPad) + tail;
    assert before == CallMsg.HeadBytes(m) + auths;
    FirstWords(m, xid, auths);
    assert CallMsg.HeadBytes(m') + auths == CallMsg.MsgBytes(m', credPad, verfPad) + tail;
    CallMsg.ParseMsgBytes(m', credPad, verfPad, tail);
    HeardWhole(before, Some(CallMsg.HeadBytes(m')[..16]));
  }

  /** When `recvfrom` fails, a call that is still in the buffer is heard again, from whatever address. */
  lemma {:induction false} HeardAfterError(m: CallMsg.Msg, credPad: seq<Byte>, verfPad: seq<Byte>, tail: seq<Byte>)
    requires CallMsg.Sendable(m) && CallMsg.PadFor(m.cred, credPad) && CallMsg.PadFor(m.verf, verfPad)
    ensures var before := CallMsg.MsgBytes(m, credPad, verfPad) + tail;
            Heard(before, |before|, None) == (Some(m), 0)
  {
    CallMsg.ParseMsgBytes(m, credPad, verfPad, tail);
    HeardWhole(CallMsg.MsgBytes(m, credPad, verfPad) + tail, None);
  }

  lemma {:induction false} HeardWhole(before: seq<Byte>, got: Option<seq<Byte>>)
    requires LongEnough(got, |before|) && CallMsg.Parse(Overlaid(before, got)).Some?
    ensures Heard(before, |before|, got) == (Some(CallMsg.Parse(Overlaid(before, got)).value.0), 0)
  {
    var seen := Overlaid(before, got);
    assert seen[..|seen|] == seen;
  }

  lemma {:induction false} FirstWords(m: CallMsg.Msg, xid: Word, rest: seq<Byte>)
    ensures var h' := CallMsg.HeadBytes(m.(xid := xid));
            Overlaid(CallMsg.HeadBytes(m) + rest, Some(h'[..16])) == h' + rest
  {
    var h, h' := CallMsg.HeadBytes(m), CallMsg.HeadBytes(m.(xid := xid));
    assert h[16..] == h'[16..];
    assert (h + rest)[16..] == h[16..] + rest;
    Associative(h'[..16], h'[16..], rest);
    assert h' == h'[..16] + h'[16..];
  }

  // ---------------------------------------------------------------- when leftovers matter

  /** The two ways of filling up the datagram that come to different things if any two do. */
  predicate FillsAgree(d: seq<Byte>, n: nat) {
    CallMsg.Outcome(d + Zeros(n)) == CallMsg.Outcome(d + Leftovers.Ones(n))
  }

  /** A test on the datagram and the room, without the buffer. */
  predicate Determined(iosz: nat, room: int, h: Happening) {
    h.Receive? ==>
      if h.got == None then room < 8
      else
        var d := Taken(h.got.value, iosz);
        |d| < 16 || room <= |d| || FillsAgree(d, room - |d|)
  }

  /** What comes of the happening is the same whatever the buffer has held. */
  ghost predicate SameForAll(iosz: nat, room: int, h: Happening)
    requires room <= iosz
  {
    forall b: seq<Byte>, b': seq<Byte> :: |b| == |b'| == iosz ==> ResultOf(b, room, h) == ResultOf(b', room, h)
  }

  lemma {:induction false} ErrorDetermined(iosz: nat, room: nat, h: Happening)
    requires room <= iosz && h.Receive? && h.got == None
    ensures SameForAll(iosz, room, h) <==> room < 8
  {
    Leftovers.NothingDecides(room);
    var b, b' := Leftovers.QuietCall(iosz), Leftovers.Ones(iosz);
    assert b[..room] == Leftovers.QuietCall(room) && b'[..room] == Leftovers.Ones(room);
    if room >= 8 {
      assert ResultOf(b, room, h) != ResultOf(b', room, h);
    }
  }

  /** What the buffer `b` makes of a datagram that does not fill the room. */
  lemma {:induction false} FilledUp(b: seq<Byte>, room: nat, h: Happening, d: seq<Byte>)
    requires 16 <= |d| <= room <= |b| && h.Receive? && h.got.Some? && d == Taken(h.got.value, |b|)
    ensures ResultOf(b, room, h) == CallMsg.Outcome(d + b[|d|..room])
  {
    ReadOn(b, room, d);
    assert Overlaid(b, h.got) == Overlaid(b, Some(d));
  }

  lemma {:induction false} AsWithZeros(b: seq<Byte>, room: nat, h: Happening, d: seq<Byte>)
    requires 16 <= |d| <= room <= |b| && h.Receive? && h.got.Some? && d == Taken(h.got.value, |b|)
    requires FillsAgree(d, room - |d|)
    ensures ResultOf(b, room, h) == ResultOf(Zeros(|b|), room, h)
  {
    FilledUp(b, room, h, d);
    FilledUp(Zeros(|b|), room, h, d);
    assert Zeros(|b|)[|d|..room] == Zeros(room - |d|);
    Leftovers.TwoFillsDecide(d, b[|d|..room]);
  }

  lemma {:induction false} WithZeros(iosz: nat, room: nat, h: Happening, d: seq<Byte>)
    requires 16 <= |d| <= room <= iosz && h.Receive? && h.got.Some? && d == Taken(h.got.value, iosz)
    ensures ResultOf(Zeros(iosz), room, h) == CallMsg.Outcome(d + Zeros(room - |d|))
  {
    assert Zeros(iosz)[|d|..room] == Zeros(room - |d|);
    FilledUp(Zeros(iosz), room, h, d);
  }

  lemma {:induction false} WithOnes(iosz: nat, room: nat, h: Happening, d: seq<Byte>)
    requires 16 <= |d| <= room <= iosz && h.Receive? && h.got.Some? && d == Taken(h.got.value, iosz)
    ensures ResultOf(Leftovers.Ones(iosz), room, h) == CallMsg.Outcome(d + Leftovers.Ones(room - |d|))
  {
    assert Leftovers.Ones(iosz)[|d|..room] == Leftovers.Ones(room - |d|);
    FilledUp(Leftovers.Ones(iosz), room, h, d);
  }

  lemma {:induction false} NotIfDifferent(iosz: nat, room: nat, h: Happening)
    requires room <= iosz && h.Receive? && h.got.Some? && 16 <= |Taken(h.got.value, iosz)| <= room
    requires !FillsAgree(Taken(h.got.value, iosz), room - |Taken(h.got.value, iosz)|)
    ensures !SameForAll(iosz, room, h)
  {
    WithZeros(iosz, room, h, Taken(h.got.value, iosz));
    WithOnes(iosz, room, h, Taken(h.got.value, iosz));
  }

  /** The datagram fills the room. */
  lemma {:induction false} NothingLeft(b: seq<Byte>, b': seq<Byte>, room: nat, h: Happening)
    requires room <= |b| == |b'| && h.Receive? && h.got.Some? && room <= |Taken(h.got.value, |b|)|
    ensures ResultOf(b, room, h) == ResultOf(b', room, h)
  {
    assert Overlaid(b, h.got)[..room] == Overlaid(b', h.got)[..room];
  }

  lemma {:induction false} SameIfFull(iosz: nat, room: nat, h: Happening)
    requires room <= iosz && h.Receive? && h.got.Some? && room <= |Taken(h.got.value, iosz)|
    ensures SameForAll(iosz, room, h)
  {
    forall b: seq<Byte>, b': seq<Byte> | |b| == |b'| == iosz ensures ResultOf(b, room, h) == ResultOf(b', room, h) {
      NothingLeft(b, b', room, h);
    }
  }

  lemma {:induction false} SameIfAgree(iosz: nat, room: nat, h: Happening)
    requires room <= iosz && h.Receive? && h.got.Some? && 16 <= |Taken(h.got.value, iosz)| <= room
    requires FillsAgree(Taken(h.got.value, iosz), room - |Taken(h.got.value, iosz)|)
    ensures SameForAll(iosz, room, h)
  {
    forall b: seq<Byte> | |b| == iosz ensures ResultOf(b, room, h) == ResultOf(Zeros(iosz), room, h) {
      AsWithZeros(b, room, h, Taken(h.got.value, iosz));
    }
  }

  lemma {:induction false} SameAnyway(iosz: nat, room: int, h: Happening)
    requires room <= iosz
    requires !h.Receive? || (h.got.Some? && |Taken(h.got.value, iosz)| < 16) || room < 0
    ensures SameForAll(iosz, room, h)
  {
  }

  lemma {:induction false} SameIfDetermined(iosz: nat, room: int, h: Happening)
    requires room <= iosz && Determined(iosz, room, h)
    ensures SameForAll(iosz, room, h)
  {
    if !h.Receive? || (h.got.Some? && |Taken(h.got.value, iosz)| < 16) || room < 0 {
      SameAnyway(iosz, room, h);
    } else if h.got == None {
      ErrorDetermined(iosz, room, h);
    } else if room <= |Taken(h.got.value, iosz)| {
      SameIfFull(iosz, room, h);
    } else {
      SameIfAgree(iosz, room, h);
    }
  }

  lemma {:induction false} VariesOtherwise(iosz: nat, room: int, h: Happening)
    requires room <= iosz && !Determined(iosz, room, h)
    ensures !SameForAll(iosz, room, h)
  {
    if h.got == None {
      ErrorDetermined(iosz, room, h);
    } else {
      NotIfDifferent(iosz, room, h);
    }
  }

  /** That is so exactly when the test says it. */
  lemma {:induction false} ReceiveDetermined(iosz: nat, room: int, h: Happening)
    requires room <= iosz
    ensures SameForAll(iosz, room, h) <==> Determined(iosz, room, h)
  {
    if Determined(iosz, room, h) {
      SameIfDetermined(iosz, room, h);
    } else {
      VariesOtherwise(iosz, room, h);
    }
  }

  /** Some results for the rest of a run, whatever its beginning has come to. */
  lemma {:induction false} GoesOn(iosz: nat, hs: seq<Happening>, bs: seq<seq<Byte>>, rs: seq<Result>, n: nat)
    returns (bs': seq<seq<Byte>>, rs': seq<Result>)
    requires Explains(iosz, hs, bs, rs) && |rs| <= n <= |hs|
    ensures Explains(iosz, hs, bs', rs') && |rs'| == n && rs <= rs'
    decreases n - |rs|
  {
    if |rs| == n {
      return bs, rs;
    }
    var b := Zeros(iosz);
    var r := ResultOf(b, RoomAt(iosz, hs, rs, |rs|), hs[|rs|]);
    OneMoreResult(iosz, hs, bs, rs, b, r);
    bs', rs' := GoesOn(iosz, hs, bs + [b], rs + [r], n);
  }

  lemma {:induction false} Begins(iosz: nat, hs: seq<Happening>, bs: seq<seq<Byte>>, rs: seq<Result>, n: nat)
    requires Explains(iosz, hs, bs, rs) && n <= |rs|
    ensures Explains(iosz, hs, bs[..n], rs[..n])
  {
    forall i | 0 <= i < n ensures ResultAt(iosz, hs, bs[..n], rs[..n], i) {
      assert ResultAt(iosz, hs, bs, rs, i) && rs[..n][..i] == rs[..i];
      SameRoom(iosz, hs, rs, rs[..n], i);
    }
  }

  /** A receive that the buffer decides about could have come to something else. */
  lemma {:induction false} Otherwise(iosz: nat, hs: seq<Happening>, bs: seq<seq<Byte>>, rs: seq<Result>, i: nat)
    returns (bs': seq<seq<Byte>>, rs': seq<Result>)
    requires Explains(iosz, hs, bs, rs) && i < |rs| && !SameForAll(iosz, RoomAt(iosz, hs, rs, i), hs[i])
    ensures Explains(iosz, hs, bs', rs') && |rs'| == |rs| && rs' != rs
  {
    var room := RoomAt(iosz, hs, rs, i);
    var b: seq<Byte> :| |b| == iosz && ResultOf(b, room, hs[i]) != rs[i];
    var r := ResultOf(b, room, hs[i]);
    Begins(iosz, hs, bs, rs, i);
    assert rs[..i][..i] == rs[..i];
    SameRoom(iosz, hs, rs, rs[..i], i);
    OneMoreResult(iosz, hs, bs[..i], rs[..i], b, r);
    bs', rs' := GoesOn(iosz, hs, bs[..i] + [b], rs[..i] + [r], |rs|);
    assert rs'[i] == (rs[..i] + [r])[i];
  }

  /** Every receive passes the test, with the room that there is for it. */
  ghost predicate AllDetermined(iosz: nat, hs: seq<Happening>, rs: seq<Result>)
    requires |rs| <= |hs|
  {
    forall i :: 0 <= i < |rs| ==> Determined(iosz, RoomAt(iosz, hs, rs, i), hs[i])
  }

  lemma {:induction false} AgreeNext(iosz: nat, hs: seq<Happening>, bs: seq<seq<Byte>>, rs: seq<Result>,
                                     bs': seq<seq<Byte>>, rs': seq<Result>, i: nat)
    requires Explains(iosz, hs, bs, rs) && Explains(iosz, hs, bs', rs') && i < |rs| == |rs'| && rs[..i] == rs'[..i]
    requires AllDetermined(iosz, hs, rs)
    ensures rs[i] == rs'[i]
  {
    SameRoom(iosz, hs, rs, rs', i);
    assert ResultAt(iosz, hs, bs, rs, i) && ResultAt(iosz, hs, bs', rs', i);
    ReceiveDetermined(iosz, RoomAt(iosz, hs, rs, i), hs[i]);
  }

  /** Two explanations agree as long as every happening passes the test. */
  lemma {:induction false} Agree(iosz: nat, hs: seq<Happening>, bs: seq<seq<Byte>>, rs: seq<Result>,
                                 bs': seq<seq<Byte>>, rs': seq<Result>, n: nat)
    requires Explains(iosz, hs, bs, rs) && Explains(iosz, hs, bs', rs') && n <= |rs| == |rs'|
    requires AllDetermined(iosz, hs, rs)
    ensures rs[..n] == rs'[..n]
  {
    if n > 0 {
      Agree(iosz, hs, bs, rs, bs', rs', n - 1);
      AgreeNext(iosz, hs, bs, rs, bs', rs', n - 1);
      assert rs[..n] == rs[..n - 1] + [rs[n - 1]] && rs'[..n] == rs'[..n - 1] + [rs'[n - 1]];
    }
  }

  /** Any buffers, with the same happenings, come to the same. */
  ghost predicate OnlyResult(iosz: nat, hs: seq<Happening>, rs: seq<Result>) {
    forall bs', rs' :: Explains(iosz, hs, bs', rs') && |rs'| == |rs| ==> rs' == rs
  }

  /**
   * What a run has come to is the only thing it could, whatever the buffer has held, exactly when
   * every receive passes the test on its datagram and the room that there was for it.
   */
  lemma {:induction false} RunDetermined(iosz: nat, hs: seq<Happening>, bs: seq<seq<Byte>>, rs: seq<Result>)
    requires Explains(iosz, hs, bs, rs)
    ensures OnlyResult(iosz, hs, rs) <==> AllDetermined(iosz, hs, rs)
  {
    if AllDetermined(iosz, hs, rs) {
      forall bs', rs' | Explains(iosz, hs, bs', rs') && |rs'| == |rs| ensures rs' == rs {
        Agree(iosz, hs, bs, rs, bs', rs', |rs|);
        assert rs[..|rs|] == rs && rs'[..|rs|] == rs';
      }
    } else {
      var i :| 0 <= i < |rs| && !Determined(iosz, RoomAt(iosz, hs, rs, i), hs[i]);
      ReceiveDetermined(iosz, RoomAt(iosz, hs, rs, i), hs[i]);
      var bs', rs' := Otherwise(iosz, hs, bs, rs, i);
    }
  }

  // ---------------------------------------------------------------- runs

  /** What is sent again at one happening. */
  function Again(m: Model, log: seq<Event>): seq<Option<seq<Byte>>>
    requires |log| <= 1
  {
    if log == [] || log[0].Reply? then [] else [Lookup(m.(xid := log[0].xid), log[0].call).1]
  }

  function Next(m: Model, log: seq<Event>, size: nat): Model
    requires |log| <= 1
  {
    if log == [] then m else Step(m, log[0], size)
  }

  method Hear(t: UdpTransport, got: Option<seq<Byte>>, from: Address)
    returns (resent: seq<Option<seq<Byte>>>, ghost r: Result)
    requires t.Valid() && t.Leeway(MAX_AUTH_BYTES)
    modifies t`xid, t`saved, t`room, t.rpcBuffer
    ensures t.Valid() && r == Heard(old(t.rpcBuffer[..]), old(t.room), got) && t.room == old(t.room) - r.1
    ensures var log := Logged(r.0, old(t.room), Receive(got, from));
            t.State() == Next(old(t.State()), log, t.size) && resent == Again(old(t.State()), log)
  {
    r := Heard(t.rpcBuffer[..], t.room, got);
    var ok, again := t.Recv(got, from);
    resent := if ok then [again] else [];
  }

  method ServeOne(t: UdpTransport, h: Happening)
    returns (resent: seq<Option<seq<Byte>>>, ghost r: Result)
    requires t.Valid() && t.Leeway(Worst(h))
    modifies t, t.repr
    ensures t.Valid() && fresh(t.repr - old(t.repr)) && t.room == Room(old(t.room), t.iosz, h, r)
    ensures r == ResultOf(old(t.rpcBuffer[..]), old(t.room), h)
    ensures var log := Logged(r.0, old(t.room), h);
            t.State() == Next(old(t.State()), log, t.size) && resent == Again(old(t.State()), log)
  {
    match h {
      case Receive(got, from) =>
        resent, r := Hear(t, got, from);
      case Overread(len) =>
        t.Lose(len);
        resent, r := [], (None, 0);
      case Answer(pieces, sent) =>
        LostIsBounded(t.room, pieces);
        var ok := t.SendReply(pieces, sent);
        resent, r := [], (None, 0);
    }
  }

  lemma {:induction false} OneMoreResult(iosz: nat, hs: seq<Happening>, bs: seq<seq<Byte>>, rs: seq<Result>,
                                         b: seq<Byte>, r: Result)
    requires Explains(iosz, hs, bs, rs) && |rs| < |hs|
    requires |b| == iosz && r == ResultOf(b, RoomAt(iosz, hs, rs, |rs|), hs[|rs|])
    ensures Explains(iosz, hs, bs + [b], rs + [r])
    ensures RoomAt(iosz, hs, rs + [r], |rs| + 1) == Room(RoomAt(iosz, hs, rs, |rs|), iosz, hs[|rs|], r)
    ensures Log(iosz, hs, rs + [r], |rs| + 1) ==
              Log(iosz, hs, rs, |rs|) + Logged(r.0, RoomAt(iosz, hs, rs, |rs|), hs[|rs|])
  {
    forall i | 0 <= i <= |rs| ensures ResultAt(iosz, hs, bs + [b], rs + [r], i) {
      assert (rs + [r])[..i] == rs[..i];
      SameRoom(iosz, hs, rs, rs + [r], i);
      if i < |rs| {
        assert ResultAt(iosz, hs, bs, rs, i);
      }
    }
    assert (rs + [r])[..|rs|] == rs[..|rs|];
    SameRoom(iosz, hs, rs, rs + [r], |rs|);
  }

  /** The happenings before number `n` have cost no more than they can, and this one will not either. */
  lemma {:induction false} RoomBound(iosz: nat, hs: seq<Happening>, bs: seq<seq<Byte>>, rs: seq<Result>, n: nat)
    requires Explains(iosz, hs, bs, rs) && n <= |rs|
    ensures RoomAt(iosz, hs, rs, n) >= iosz - Spent(hs, n)
  {
    if n > 0 {
      RoomBound(iosz, hs, bs, rs, n - 1);
      assert ResultAt(iosz, hs, bs, rs, n - 1);
      if hs[n - 1].Answer? {
        LostIsBounded(RoomAt(iosz, hs, rs, n - 1), hs[n - 1].pieces);
      }
    }
  }

  lemma {:induction false} SpentGrows(hs: seq<Happening>, m: nat, n: nat)
    requires m <= n <= |hs|
    ensures Spent(hs, m) <= Spent(hs, n)
  {
    if m < n {
      SpentGrows(hs, m, n - 1);
    }
  }

  /** A run that cannot cost more than 2^31 has enough left for its next happening. */
  lemma {:induction false} EnoughLeft(iosz: nat, hs: seq<Happening>, bs: seq<seq<Byte>>, rs: seq<Result>)
    requires Explains(iosz, hs, bs, rs) && |rs| < |hs| && Spent(hs, |hs|) <= TWO_TO_31
    ensures RoomAt(iosz, hs, rs, |rs|) - Worst(hs[|rs|]) >= iosz - TWO_TO_31
  {
    RoomBound(iosz, hs, bs, rs, |rs|);
    SpentGrows(hs, |rs| + 1, |hs|);
  }

  /** The state after the logged events, and what was sent again. */
  function After(m: Model, es: seq<Event>, size: nat): (Model, seq<Option<seq<Byte>>>) {
    (Run(m, es, size), Outputs(m, es, size))
  }

  lemma {:induction false} OneMoreEvent(m: Model, es: seq<Event>, log: seq<Event>, size: nat)
    requires |log| <= 1
    ensures var (st, out) := After(m, es, size);
            After(m, es + log, size) == (Next(st, log, size), out + Again(st, log))
  {
    if log == [] {
      assert es + [] == es && Outputs(m, es, size) + [] == Outputs(m, es, size);
    } else {
      assert es + log == es + [log[0]] && (es + [log[0]])[..|es|] == es;
    }
  }

  /** What a transport has come to after the first `|rs|` happenings. */
  ghost predicate Served(t: UdpTransport, m0: Model, hs: seq<Happening>, rs: seq<Result>,
                         resent: seq<Option<seq<Byte>>>)
    requires t.Valid() && |rs| <= |hs|
    reads t, t.repr
  {
    && t.room == RoomAt(t.iosz, hs, rs, |rs|)
    && (t.State(), resent) == After(m0, Log(t.iosz, hs, rs, |rs|), t.size)
  }

  /** One more happening, with what it adds to the explanation of the run. */
  method ServeNext(t: UdpTransport, ghost m0: Model, hs: seq<Happening>, n: nat, ghost bs: seq<seq<Byte>>,
                   ghost rs: seq<Result>, ghost resent: seq<Option<seq<Byte>>>)
    returns (again: seq<Option<seq<Byte>>>, ghost b: seq<Byte>, ghost r: Result)
    requires t.Valid() && n == |rs| < |hs| && Spent(hs, |hs|) <= TWO_TO_31
    requires Explains(t.iosz, hs, bs, rs) && Served(t, m0, hs, rs, resent)
    modifies t, t.repr
    ensures t.Valid() && fresh(t.repr - old(t.repr))
    ensures Explains(t.iosz, hs, bs + [b], rs + [r]) && Served(t, m0, hs, rs + [r], resent + again)
  {
    EnoughLeft(t.iosz, hs, bs, rs);
    b := t.rpcBuffer[..];
    ghost var room := t.room;
    again, r := ServeOne(t, hs[n]);
    OneMoreResult(t.iosz, hs, bs, rs, b, r);
    OneMoreEvent(m0, Log(t.iosz, hs, rs, n), Logged(r.0, room, hs[n]), t.size);
  }

  /**
   * The transport, through any run of good, short, broken and failing receives, overlong arguments
   * and replies, and failing sends, sends again exactly what the log of the last replies says. The
   * stream's count has 32 bits; a run that could take it through the bottom is left out.
   */
  method Serve(iosz: nat, size: nat, call: Call, hs: seq<Happening>)
    returns (resent: seq<Option<seq<Byte>>>, ghost bs: seq<seq<Byte>>, ghost rs: seq<Result>)
    requires 0 < size && Spent(hs, |hs|) <= TWO_TO_31
    ensures |rs| == |hs| && Explains(iosz, hs, bs, rs)
    ensures resent == Outputs(Model([], 0, call), Log(iosz, hs, rs, |hs|), size)
  {
    var t := new UdpTransport(iosz, size, call);
    ghost var m0 := Model([], 0, call);
    resent, bs, rs := [], [], [];
    var i := 0;
    while i < |hs|
      invariant 0 <= i <= |hs| && t.Valid() && fresh(t.repr) && fresh(t) && t.iosz == iosz && t.size == size
      invariant |rs| == i && Explains(iosz, hs, bs, rs) && Served(t, m0, hs, rs, resent)
    {
      var again;
      ghost var b, r;
      again, b, r := ServeNext(t, m0, hs, i, bs, rs, resent);
      resent, bs, rs := resent + again, bs + [b], rs + [r];
      i := i + 1;
    }
  }
}
