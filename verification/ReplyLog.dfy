/**
 * What the UDP server's reply cache is meant to be: the last few replies sent, searched newest
 * first. No hash table, no links, no buffers.
 */
module ReplyLog {
  import opened Bytes

  datatype Address = Address(host: Word, port: nat)

  /** The program, version, procedure and caller of a request. */
  datatype Call = Call(prog: Word, vers: Word, proc: Word, addr: Address)

  datatype Key = Key(xid: Word, call: Call)

  datatype Entry = Entry(key: Key, reply: seq<Byte>)

  /** The transport's memory between requests: the current xid and the call saved at the last miss. */
  datatype Model = Model(log: seq<Entry>, xid: Word, saved: Call)

  /** The newest entry of `log` with this key. */
  function Newest(log: seq<Entry>, key: Key): Option<Entry> {
    if log == [] then None
    else if log[|log| - 1].key == key then Some(log[|log| - 1])
    else Newest(log[..|log| - 1], key)
  }

  function LastN<T>(s: seq<T>, n: nat): (r: seq<T>)
    ensures |r| <= n && |r| <= |s|
  {
    if |s| <= n then s else s[|s| - n..]
  }

  /** `cache_get`: a hit gives the cached reply, a miss remembers the call for a later store. */
  function Lookup(m: Model, call: Call): (Model, Option<seq<Byte>>) {
    match Newest(m.log, Key(m.xid, m.saved))
    case Some(e) => (m, Some(e.reply))
    case None => (m.(saved := call), None)
  }

  /** `cache_set` with room for `size` entries. */
  function Store(m: Model, reply: seq<Byte>, size: nat): Model {
    m.(log := LastN(m.log + [Entry(Key(m.xid, m.saved), reply)], size))
  }

  /** One thing that happens to the transport. */
  datatype Event = Request(xid: Word, call: Call) | Reply(body: seq<Byte>)

  function Step(m: Model, e: Event, size: nat): Model {
    match e
    case Request(xid, call) => Lookup(m.(xid := xid), call).0
    case Reply(body) => Store(m, PutWord(m.xid) + body, size)
  }

  function Run(m: Model, es: seq<Event>, size: nat): Model {
    if es == [] then m else Step(Run(m, es[..|es| - 1], size), es[|es| - 1], size)
  }

  /** What is sent again, request by request. */
  function Outputs(m: Model, es: seq<Event>, size: nat): seq<Option<seq<Byte>>> {
    if es == [] then [] else
      var before, e := es[..|es| - 1], es[|es| - 1];
      Outputs(m, before, size)
      + if e.Request? then [Lookup(Run(m, before, size).(xid := e.xid), e.call).1] else []
  }

  /** `Newest` finds an entry with the key, and none stored later has that key. */
  lemma {:induction false} NewestIsNewest(log: seq<Entry>, key: Key)
    ensures Newest(log, key) == None <==> forall e :: e in log ==> e.key != key
    ensures Newest(log, key).Some? ==>
              exists i :: 0 <= i < |log| && log[i] == Newest(log, key).value && log[i].key == key
                          && forall j :: i < j < |log| ==> log[j].key != key
  {
    if log != [] && log[|log| - 1].key != key {
      var log' := log[..|log| - 1];
      NewestIsNewest(log', key);
      assert forall e :: e in log <==> e in log' || e == log[|log| - 1];
      if Newest(log', key).Some? {
        var i :| 0 <= i < |log'| && log'[i] == Newest(log', key).value && log'[i].key == key
                 && forall j :: i < j < |log'| ==> log'[j].key != key;
        assert log[i] == log'[i];
        assert forall j :: i < j < |log| ==> log[j].key != key;
      }
    } else if log != [] {
      assert log[|log| - 1] in log;
    }
  }

  /** Keeping the last `n` after each store is keeping the last `n` of everything stored. */
  lemma {:induction false} LastNStable<T>(s: seq<T>, t: T, n: nat)
    ensures LastN(LastN(s, n) + [t], n) == LastN(s + [t], n)
  {
  }

  /** All replies ever stored, with the keys they were stored under. */
  function History(m: Model, es: seq<Event>, size: nat): seq<Entry> {
    if es == [] then m.log else
      var before, e := es[..|es| - 1], es[|es| - 1];
      var st := Run(m, before, size);
      History(m, before, size)
      + if e.Reply? then [Entry(Key(st.xid, st.saved), PutWord(st.xid) + e.body)] else []
  }

  /** In every run the cache holds the last `size` replies ever stored, in order. */
  lemma {:induction false} RunKeepsLast(m: Model, es: seq<Event>, size: nat)
    requires m.log == LastN(m.log, size)
    ensures Run(m, es, size).log == LastN(History(m, es, size), size)
  {
    if es != [] {
      var before, e := es[..|es| - 1], es[|es| - 1];
      RunKeepsLast(m, before, size);
      var st := Run(m, before, size);
      if e.Reply? {
        LastNStable(History(m, before, size), Entry(Key(st.xid, st.saved), PutWord(st.xid) + e.body), size);
      } else {
        assert History(m, es, size) == History(m, before, size);
      }
    }
  }

  /**
   * In every run a request is answered from the cache exactly when one of the last `size` stored
   * replies was stored under its xid and the call saved by then, and with the newest of those.
   */
  lemma {:induction false} HitIsNewestOfLast(m: Model, es: seq<Event>, size: nat, xid: Word, call: Call)
    requires m.log == LastN(m.log, size)
    ensures var stored, key := LastN(History(m, es, size), size), Key(xid, Run(m, es, size).saved);
            var hit := Lookup(Run(m, es, size).(xid := xid), call).1;
            && (hit == None <==> forall e :: e in stored ==> e.key != key)
            && (hit.Some? ==> exists i :: 0 <= i < |stored| && stored[i] == Entry(key, hit.value)
                                          && forall j :: i < j < |stored| ==> stored[j].key != key)
  {
    RunKeepsLast(m, es, size);
    var last := Run(m, es, size);
    NewestIsNewest(last.log, Key(xid, last.saved));
  }

  /** In every run a reply that is sent again carries the xid of the request it answers. */
  lemma {:induction false} ResentReplyCarriesXid(m: Model, es: seq<Event>, size: nat, xid: Word, call: Call)
    requires m.log == []
    ensures forall e :: e in Run(m, es, size).log ==> |e.reply| >= 4 && e.reply[..4] == PutWord(e.key.xid)
    ensures var hit := Lookup(Run(m, es, size).(xid := xid), call).1;
            hit.Some? ==> |hit.value| >= 4 && hit.value[..4] == PutWord(xid)
  {
    if es != [] {
      ResentReplyCarriesXid(m, es[..|es| - 1], size, xid, call);
      var st, e := Run(m, es[..|es| - 1], size), es[|es| - 1];
      if e.Reply? {
        var n := Entry(Key(st.xid, st.saved), PutWord(st.xid) + e.body);
        assert n.reply[..4] == PutWord(st.xid);
        forall x | x in LastN(st.log + [n], size) ensures x in st.log || x == n {}
      }
    }
    var last := Run(m, es, size);
    NewestIsNewest(last.log, Key(xid, last.saved));
  }

  /** A request that missed, once answered, is answered from the cache when it is sent again. */
  lemma {:induction false} RetransmissionHits(m: Model, xid: Word, call: Call, body: seq<Byte>, size: nat)
    requires size > 0
    requires Lookup(m.(xid := xid), call).1 == None
    ensures var m' := Step(Step(m, Request(xid, call), size), Reply(body), size);
            Lookup(m'.(xid := xid), call) == (m', Some(PutWord(xid) + body))
  {
    var m1 := Step(m, Request(xid, call), size);
    var e := Entry(Key(xid, call), PutWord(xid) + body);
    var log := LastN(m1.log + [e], size);
    assert log[|log| - 1] == e;
  }

  /**
   * The key searched for uses the call saved at the last miss, not the request's own. In a given
   * state that makes no difference exactly when the two calls are the same or when nothing is
   * cached for either of them under this xid.
   */
  lemma {:induction false} SavedCallDecides(log: seq<Entry>, xid: Word, saved: Call, call: Call)
    ensures Newest(log, Key(xid, saved)) == Newest(log, Key(xid, call)) <==>
              saved == call || forall e :: e in log ==> e.key != Key(xid, saved) && e.key != Key(xid, call)
  {
    NewestIsNewest(log, Key(xid, saved));
    NewestIsNewest(log, Key(xid, call));
  }

  /** The search for a request finds a reply that was filed under another call. */
  ghost predicate AnsweredWrongly(m: Model, xid: Word, call: Call) {
    var hit := Newest(m.log, Key(xid, m.saved));
    hit.Some? && hit.value.key != Key(xid, call)
  }

  /** A reply is filed under this request, but the search for the request finds nothing. */
  ghost predicate Overlooked(m: Model, xid: Word, call: Call) {
    Newest(m.log, Key(xid, m.saved)) == None && exists e :: e in m.log && e.key == Key(xid, call)
  }

  /**
   * After every run: a request is answered with what is filed under another call exactly when the
   * saved call is not its own and one of the last `size` replies is filed under that one and the
   * request's xid; a reply filed under the request itself is overlooked exactly when none is.
   */
  lemma {:induction false} WhenSearchErrs(m: Model, es: seq<Event>, size: nat, xid: Word, call: Call)
    requires m.log == LastN(m.log, size)
    ensures var stored, st := LastN(History(m, es, size), size), Run(m, es, size);
            && (AnsweredWrongly(st, xid, call) <==>
                  st.saved != call && exists e :: e in stored && e.key == Key(xid, st.saved))
            && (Overlooked(st, xid, call) <==>
                  (exists e :: e in stored && e.key == Key(xid, call))
                  && forall e :: e in stored ==> e.key != Key(xid, st.saved))
            && (Overlooked(st, xid, call) ==> st.saved != call)
  {
    RunKeepsLast(m, es, size);
    var st := Run(m, es, size);
    NewestIsNewest(st.log, Key(xid, st.saved));
  }

  /**
   * The reply to a request, in every state, is filed under that request exactly when the request
   * was not answered wrongly from the cache before.
   */
  lemma {:induction false} WhenFiledRightly(m: Model, xid: Word, call: Call, body: seq<Byte>, size: nat)
    requires size > 0
    ensures var log := Step(Step(m, Request(xid, call), size), Reply(body), size).log;
            log != [] && (log[|log| - 1].key == Key(xid, call) <==> !AnsweredWrongly(m, xid, call))
  {
    NewestIsNewest(m.log, Key(xid, m.saved));
    var m' := Step(m, Request(xid, call), size);
    var e := Entry(Key(xid, m'.saved), PutWord(xid) + body);
    var log := LastN(m'.log + [e], size);
    assert log[|log| - 1] == e;
  }

  /** A request that is answered with the reply to another procedure's call, and how it comes about. */
  lemma {:induction false} MixedUpReply(a: Call, b: Call, xid: Word, body: seq<Byte>)
    requires a != b
    ensures var m := Run(Model([], 0, b), [Request(xid, a), Reply(body)], 1);
            Lookup(m.(xid := xid), b).1 == Some(PutWord(xid) + body)
  {
    var m0 := Model([], 0, b);
    var r, p := Request(xid, a), Reply(body);
    assert [r, p][..1] == [r] && [r][..0] == [];
    assert Run(m0, [], 1) == m0;
    var m1 := Run(m0, [r], 1);
    assert m1 == Step(m0, r, 1) == Model([], xid, a);
    var e := Entry(Key(xid, a), PutWord(xid) + body);
    assert Run(m0, [r, p], 1) == Step(m1, p, 1);
    assert [] + [e] == [e] && LastN([e], 1) == [e];
    assert Newest([e], Key(xid, a)) == Some(e);
  }
}
