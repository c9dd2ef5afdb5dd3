/** `clnttcp_call`: write a request, and read records until one bears its id. */
module TcpClient {
  import opened Bytes
  import opened Xids
  import opened TcpXid

  /** Why a read failed; `readtcp` leaves it in the handle. */
  datatype ReadError = TimedOut | CantReceive

  /** What decoding the rest of a reply, past its header, comes to. */
  datatype Outcome = Success | InvalidVerifier | BadResults(cause: Option<ReadError>) | Refused

  /** What reading the next record comes to; `Malformed` is a header rejected without a read error. */
  datatype Arrival = Broken(error: ReadError) | Malformed | Message(xid: Word, outcome: Outcome)

  datatype Status =
    | RpcSuccess | RpcCantEncodeArgs | RpcCantSend | RpcCantRecv | RpcTimedOut
    | RpcCantDecodeRes | RpcAuthError | RpcServerError
    | Waiting      // the arrivals have run out and the call is still waiting

  /** A record ended on the stream; one whose arguments would not encode is ended all the same. */
  datatype Written = Written(xid: Word, whole: bool)

  function ErrorStatus(e: ReadError): Status {
    match e
    case TimedOut => RpcTimedOut
    case CantReceive => RpcCantRecv
  }

  function OutcomeStatus(o: Outcome): Status {
    match o
    case Success => RpcSuccess
    case InvalidVerifier => RpcAuthError
    case BadResults(None) => RpcCantDecodeRes
    case BadResults(Some(e)) => ErrorStatus(e)
    case Refused => RpcServerError
  }

  /** Records that do not end the reading: malformed ones and replies to other requests. */
  predicate Skipped(a: Arrival, current: Word) {
    a == Malformed || (a.Message? && a.xid != current)
  }

  /** Reads on from record number `from` to the first that is not skipped. */
  method Await(current: Word, arrivals: seq<Arrival>, from: nat) returns (found: Option<Arrival>, next: nat)
    requires from <= |arrivals|
    ensures from <= next <= |arrivals|
    ensures found == None ==> next == |arrivals| && forall i :: from <= i < next ==> Skipped(arrivals[i], current)
    ensures found.Some? ==>
              && from < next && found.value == arrivals[next - 1] && !Skipped(found.value, current)
              && forall i :: from <= i < next - 1 ==> Skipped(arrivals[i], current)
  {
    next := from;
    while next < |arrivals|
      invariant from <= next <= |arrivals|
      invariant forall i :: from <= i < next ==> Skipped(arrivals[i], current)
    {
      var a := arrivals[next];
      next := next + 1;
      match a {
        case Broken(_) => return Some(a), next;
        case Malformed =>
        case Message(xid, _) =>
          if xid == current {
            return Some(a), next;
          }
      }
    }
    found := None;
  }

  /** The records added to the stream bear the ids of the attempts, in order; only the last may be cut short. */
  ghost predicate Added(x: Xid, before: seq<Written>, after: seq<Written>, n: nat) {
    && before <= after && |after| == |before| + n
    && (forall i :: |before| <= i < |after| ==> after[i].xid == Wire(XidOf(x, i - |before| + 1)))
    && (forall i :: |before| <= i < |after| - 1 ==> after[i].whole)
  }

  lemma {:induction false} AddedMore(x: Xid, before: seq<Written>, after: seq<Written>, n: nat, whole: bool)
    requires Added(x, before, after, n) && (forall i :: |before| <= i < |after| ==> after[i].whole)
    ensures Added(x, before, after + [Written(Wire(XidOf(x, n + 1)), whole)], n + 1)
  {
  }

  /** No two requests of one call bear the same id. */
  lemma {:induction false} AddedDistinct(x: Xid, before: seq<Written>, after: seq<Written>, n: nat)
    requires Added(x, before, after, n) && n < TWO_TO_32
    ensures forall i, j :: |before| <= i < j < |after| ==> after[i].xid != after[j].xid
  {
    forall i, j | |before| <= i < j < |after| ensures after[i].xid != after[j].xid {
      SameXid(x, i - |before| + 1, j - |before| + 1);
      Nearby(i - |before| + 1, j - |before| + 1);
    }
  }

  class Handle {
    var xid: Xid                 // the first four bytes of ct_mcall
    var written: seq<Written>    // the records ended on the stream so far
    var shipped: nat             // how many of them are known to have been handed to the connection

    constructor (xid: Xid)
      ensures this.xid == xid && written == [] && shipped == 0
    {
      this.xid, written, shipped := xid, [], 0;
    }

    /** `xdrrec_endofrecord`: the record is complete, and with `now` all batched ones leave with it. */
    method EndOfRecord(whole: bool, now: bool) returns (ok: bool)
      modifies this`written, this`shipped
      ensures ok ==> written == old(written) + [Written(Wire(xid), whole)]
      ensures ok ==> shipped == if now then |written| else old(shipped)
      ensures !ok ==> written == old(written) && shipped == old(shipped)
    {
      if * {
        return false;
      }
      written := written + [Written(Wire(xid), whole)];
      if now {
        shipped := |written|;
      }
      ok := true;
    }

    /**
     * From `call_again` to the first arrival that is not skipped. Without a results routine and
     * with no time to wait the request is only batched; with no time to wait it is sent but no
     * reply is looked for.
     */
    method Attempt(hasResults: bool, noWait: bool, arrivals: seq<Arrival>, from: nat, ghost x: Xid,
                   ghost before: seq<Written>, ghost a: nat)
      returns (status: Status, found: Option<Outcome>, next: nat)
      requires from <= |arrivals|
      requires xid == XidOf(x, a) && Added(x, before, written, a)
               && (forall i :: |before| <= i < |written| ==> written[i].whole)
      modifies this
      ensures xid == XidOf(x, a + 1) && from <= next <= |arrivals|
      ensures Added(x, before, written, a) || Added(x, before, written, a + 1)
      ensures noWait ==> found == None && next == from
      ensures noWait && status == RpcSuccess ==>
                !hasResults && written == old(written) + [Written(Wire(xid), true)] && shipped == old(shipped)
      ensures found.Some? || !noWait ==> forall i :: from <= i < next - 1 ==> Skipped(arrivals[i], Wire(xid))
      ensures found.Some? ==> from < next && arrivals[next - 1] == Message(Wire(xid), found.value)
      ensures found.Some? ==> written == old(written) + [Written(Wire(xid), true)] && shipped == |written|
      ensures status == RpcSuccess && !noWait ==> found == Some(Success)
    {
      var shipnow := hasResults || !noWait;
      next, found := from, None;
      xid := PrevXid(xid);
      AddedMore(x, before, written, a, false);
      AddedMore(x, before, written, a, true);
      if * {
        var _ := EndOfRecord(false, true);
        return RpcCantEncodeArgs, None, next;
      }
      var ok := EndOfRecord(true, shipnow);
      if !ok {
        return RpcCantSend, None, next;
      }
      if !shipnow {
        return RpcSuccess, None, next;
      }
      if noWait {
        return RpcTimedOut, None, next;
      }
      var arrival;
      arrival, next := Await(Wire(xid), arrivals, from);
      match arrival {
        case None => status := Waiting;
        case Some(Broken(e)) => status := ErrorStatus(e);
        case Some(Message(_, outcome)) => status, found := OutcomeStatus(outcome), Some(outcome);
      }
    }

    /**
     * One call writes at most three requests, under ids all different. A reply that decides it
     * bears the id of the last one, which is then in full on the connection, and every record
     * read since that request was written was malformed or a reply to another.
     */
    method Call(hasResults: bool, noWait: bool, arrivals: seq<Arrival>)
      returns (status: Status, found: Option<Outcome>, next: nat, ghost start: nat, ghost attempts: nat)
      modifies this
      ensures 1 <= attempts <= 3 && xid == XidOf(old(xid), attempts)
      ensures Added(old(xid), old(written), written, attempts - 1) || Added(old(xid), old(written), written, attempts)
      ensures forall i, j :: |old(written)| <= i < j < |written| ==> written[i].xid != written[j].xid
      ensures start <= next <= |arrivals|
      ensures noWait ==> attempts == 1 && found == None && next == 0
      ensures noWait && status == RpcSuccess ==>
                !hasResults && written == old(written) + [Written(Wire(xid), true)] && shipped == old(shipped)
      ensures !noWait ==> forall i :: start <= i < next - 1 ==> Skipped(arrivals[i], Wire(xid))
      ensures found.Some? ==> start < next && arrivals[next - 1] == Message(Wire(xid), found.value)
      ensures found.Some? ==>
                |written| == |old(written)| + attempts && shipped == |written|
                && written[|written| - 1] == Written(Wire(xid), true)
      ensures status == RpcSuccess && !noWait ==> found == Some(Success)
    {
      var refreshes := 2;
      attempts, next := 0, 0;
      while true
        invariant 0 <= refreshes <= 2 && attempts == 2 - refreshes && xid == XidOf(old(xid), attempts)
        invariant Added(old(xid), old(written), written, attempts)
                  && forall i :: |old(written)| <= i < |written| ==> written[i].whole
        invariant next <= |arrivals| && (noWait ==> attempts == 0 && next == 0)
        invariant attempts == 0 ==> shipped == old(shipped) && written == old(written)
        decreases refreshes
      {
        start := next;
        status, found, next := Attempt(hasResults, noWait, arrivals, next, old(xid), old(written), attempts);
        AddedIds(old(xid), old(written), written, attempts);
        attempts := attempts + 1;
        if found != Some(Refused) || refreshes == 0 {
          return;
        }
        if * {
          return;
        }
        refreshes := refreshes - 1;
      }
    }
  }

  lemma {:induction false} AddedIds(x: Xid, before: seq<Written>, after: seq<Written>, n: nat)
    requires n < 3 && (Added(x, before, after, n) || Added(x, before, after, n + 1))
    ensures forall i, j :: |before| <= i < j < |after| ==> after[i].xid != after[j].xid
  {
    AddedDistinct(x, before, after, if Added(x, before, after, n) then n else n + 1);
  }
}
