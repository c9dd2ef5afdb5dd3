/** Both halves of the record-marked stream together: what is written is what is read. */
module RecordStream {
  import opened Bytes
  import opened RecordFormat
  import opened RecordWriting
  import opened RecordReading

  /** One call of the writer's interface. `ViaInline` fills reserved room, or falls back to putbytes. */
  datatype Op = PutLong(w: Word) | PutBytes(bytes: seq<Byte>) | ViaInline(bytes: seq<Byte>) | EndOfRecord(sendNow: bool)

  /** What the calls mean, with no buffers, fragments or flushes: the records and the open one. */
  datatype Log = Log(records: seq<seq<Byte>>, open: seq<Byte>)

  function Step(log: Log, op: Op): Log {
    match op
    case PutLong(w) => log.(open := log.open + PutWord(w))
    case PutBytes(b) => log.(open := log.open + b)
    case ViaInline(b) => log.(open := log.open + b)
    case EndOfRecord(_) => Log(log.records + [log.open], [])
  }

  function Run(log: Log, ops: seq<Op>): Log
    decreases |ops|
  {
    if ops == [] then log else Run(Step(log, ops[0]), ops[1..])
  }

  /** One call on the concrete writer does to its records what `Step` says. */
  method Perform(w: RecordWriter, op: Op)
    requires w.Valid() && w.sink.reliable
    modifies w, w.out, w.sink
    ensures w.Valid()
    ensures Log(w.Completed(), w.Current()) == Step(old(Log(w.Completed(), w.Current())), op)
    ensures op == EndOfRecord(true) ==> w.sink.sent == Encode(w.closed)
  {
    match op {
      case PutLong(v) =>
        var ok := w.PutLong(v);
      case PutBytes(b) =>
        var ok, taken := w.PutBytes(b);
        assert b[..taken] == b;
      case ViaInline(b) =>
        var at := w.Inline(|b|);
        match at {
          case Some(pos) =>
            ghost var before := old(w.Current());
            assert w.Current()[..|w.Current()| - |b|] == before;
            w.FillInline(pos, b);
          case None =>
            var ok, taken := w.PutBytes(b);
            assert b[..taken] == b;
        }
      case EndOfRecord(now) =>
        var ok := w.EndOfRecord(now);
    }
  }

  /** Reads some of the next `len` bytes of the current record by one of the reader's calls. */
  method ReadSome(r: RecordReader, len: nat) returns (part: seq<Byte>)
    requires r.Valid() && r.source.reliable && 0 < len <= |r.Record().data|
    modifies r, r.buf, r.source
    ensures r.Valid() && 0 < |part| <= len
    ensures old(r.Record()) == InFront(part, r.Record())
  {
    var ok;
    ghost var lost;
    if * {
      var n :| 1 <= n <= len;
      ok, part, lost := r.GetBytes(n);
      r.NoneLost();
    } else if len >= 4 {
      var w;
      ok, w, lost := r.GetLong();
      part := PutWord(w);
    } else {
      var at := r.Inline(len);
      if at.Some? {
        part := r.buf[at.value..at.value + len];
      } else {
        ok, part, lost := r.GetBytes(len);
        r.NoneLost();
      }
    }
  }

  /** Reads `len` bytes of the current record by any mixture of the reader's calls. */
  method ReadPart(r: RecordReader, len: nat) returns (data: seq<Byte>)
    requires r.Valid() && r.source.reliable && len <= |r.Record().data|
    modifies r, r.buf, r.source
    ensures r.Valid() && |data| == len
    ensures old(r.Record()) == InFront(data, r.Record())
  {
    data := [];
    ghost var all := r.Record();
    Taken(all, [], [], all);
    while |data| < len
      invariant r.Valid() && |data| <= len
      invariant Sees(all, data, r.Record())
    {
      var part := ReadSome(r, len - |data|);
      Taken(all, data, part, r.Record());
      data := data + part;
    }
  }

  /**
   * Any sequence of writer calls, ended by a record that is sent now, is received as exactly the
   * records written: for all buffer sizes on both sides, every batching choice, every way the
   * connection splits the reads and every way the reader takes the bytes.
   */
  method Transfer(ops: seq<Op>, sendsize: nat, recvsize: nat) returns (received: seq<seq<Byte>>)
    requires sendsize < TWO_TO_31 - 4 && recvsize < TWO_TO_31 - 4
    ensures received == Run(Log([], []), ops + [EndOfRecord(true)]).records
  {
    var sink := new Sink(true);
    var w := new RecordWriter(sendsize, sink);
    var all := ops + [EndOfRecord(true)];
    ghost var goal := Run(Log([], []), all);
    for i := 0 to |all|
      invariant w.Valid() && w.sink == sink && fresh(w) && fresh(w.out) && fresh(sink)
      invariant Run(Log(w.Completed(), w.Current()), all[i..]) == goal
      invariant i == |all| ==> sink.sent == Encode(w.closed)
    {
      assert all[i..][1..] == all[i + 1..];
      Perform(w, all[i]);
    }
    assert w.Completed() == goal.records;
    ParseEncode(w.closed);

    var source := new Source(true, sink.sent);
    var r := new RecordReader(recvsize, source);
    received := Receive(r, Lengths(Run(Log([], []), all).records));
  }

  function Lengths(records: seq<seq<Byte>>): (lens: seq<nat>)
    ensures |lens| == |records| && forall i :: 0 <= i < |lens| ==> lens[i] == |records[i]|
  {
    seq(|records|, i requires 0 <= i < |records| => |records[i]|)
  }

  /** Reads every record of a stream, told how many there are and how long each of them is. */
  method Receive(r: RecordReader, lens: seq<nat>) returns (received: seq<seq<Byte>>)
    requires r.Valid() && r.source.reliable && r.fbtbc == 0 && r.lastFrag
    requires |lens| == |Parse(r.Unread())|
    requires forall i :: 0 <= i < |lens| ==> lens[i] == |Parse(r.Unread())[i]|
    modifies r, r.buf, r.source
    ensures received == old(Parse(r.Unread()))
  {
    received := [];
    ghost var records := Parse(r.Unread());
    assert r.Unread()[0..] == r.Unread();
    for i := 0 to |lens|
      invariant r.Valid() && received == records[..i]
      invariant r.Record().whole && Parse(r.Record().after) == records[i..]
    {
      ghost var lost;
      var ok;
      ok, lost := r.SkipRecord();
      assert Parse(r.Unread())[0] == records[i] && Parse(r.Unread())[1..] == records[i + 1..];
      var data := ReadPart(r, lens[i]);
      assert data + r.Record().data == records[i];
      assert data == records[i];
      received := received + [data];
    }
  }
}
