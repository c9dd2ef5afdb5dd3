/** The sending half of a record-marked stream: one output buffer with back-patched headers. */
module RecordWriting {
  import opened Bytes
  import opened RecordFormat

  /**
   * The connection below the stream. `Write` stands for the `writeit` procedure: it takes all
   * of the bytes or reports an error. A reliable sink never reports one.
   */
  class Sink {
    const reliable: bool
    var sent: seq<Byte>

    constructor (reliable: bool)
      ensures this.reliable == reliable && sent == []
    {
      this.reliable := reliable;
      sent := [];
    }

    method Write(data: seq<Byte>) returns (n: int)
      modifies this
      ensures n == |data| || n == -1
      ensures n == |data| ==> sent == old(sent) + data
      ensures n == -1 ==> sent == old(sent) && !reliable
    {
      if !reliable {
        if * {
          return -1;
        }
      }
      sent := sent + data;
      n := |data|;
    }
  }

  function FixBufSize(s: nat): (r: nat)
    ensures r >= 100 && r % 4 == 0 && (s >= 100 ==> s <= r < s + 4)
  {
    RoundUp(if s < 100 then 4000 else s)
  }

  /** `b` with `data` written over it from `pos` on. */
  ghost function Splice(b: seq<Byte>, pos: nat, data: seq<Byte>): seq<Byte>
    requires pos + |data| <= |b|
  {
    b[..pos] + data + b[pos + |data|..]
  }

  /** The buffer `b` holds the fragments `held`, then room for a header, then open data. */
  ghost predicate Layout(b: seq<Byte>, header: nat, finger: nat, held: seq<Fragment>) {
    && header + 4 <= finger <= |b| && 100 <= |b| < TWO_TO_31
    && b[..header] == Encode(held)
  }

  lemma {:induction false} SpliceSlices(b: seq<Byte>, pos: nat, data: seq<Byte>, lo: nat, hi: nat)
    requires pos + |data| <= |b| && lo <= hi <= |b|
    ensures Splice(b, pos, data)[pos..pos + |data|] == data
    ensures hi <= pos || pos + |data| <= lo ==> Splice(b, pos, data)[lo..hi] == b[lo..hi]
  {
  }

  /** Writing behind or at the end of the open data leaves the held fragments alone. */
  lemma {:induction false} LayoutStore(b: seq<Byte>, header: nat, finger: nat, held: seq<Fragment>, at: nat,
                                       data: seq<Byte>)
    requires Layout(b, header, finger, held) && header + 4 <= at <= finger && at + |data| <= |b|
    ensures Layout(Splice(b, at, data), header, at + |data|, held)
    ensures Splice(b, at, data)[header + 4..at + |data|] == b[header + 4..at] + data
  {
    SpliceSlices(b, at, data, 0, header);
    assert Splice(b, at, data)[..header] == Splice(b, at, data)[0..header];
    SpliceSlices(b, at, data, header + 4, at);
    var s, hi := Splice(b, at, data), at + |data|;
    assert s[header + 4..hi] == s[header + 4..at] + s[at..hi];
  }

  /** Back-patching the header turns the open data into one more held fragment. */
  lemma {:induction false} LayoutClose(b: seq<Byte>, header: nat, finger: nat, held: seq<Fragment>, eor: bool)
    requires Layout(b, header, finger, held)
    ensures var f: Fragment := Fragment(eor, b[header + 4..finger]);
            var s := Splice(b, header, PutWord(Header(finger - header - 4, eor)));
            && s[..finger] == Encode(held) + EncodeOne(f)
            && s[header + 4..finger] == f.data && Layout(s, header, finger, held)
  {
    var f: Fragment, w := Fragment(eor, b[header + 4..finger]), PutWord(Header(finger - header - 4, eor));
    var s := Splice(b, header, w);
    SpliceSlices(b, header, w, 0, header);
    assert s[..header] == s[0..header] == b[0..header] == b[..header];
    SpliceSlices(b, header, w, header + 4, finger);
    assert s[..finger] == s[..header] + (s[header..header + 4] + s[header + 4..finger]);
  }

  /** One more closed fragment behind those in the buffer is one more behind all of them. */
  lemma {:induction false} CloseAfter(closed: seq<Fragment>, n: nat, f: Fragment)
    requires n <= |closed|
    ensures Encode(closed[n..]) + EncodeOne(f) == Encode((closed + [f])[n..])
    ensures Encode(closed[..n]) + (Encode(closed[n..]) + EncodeOne(f)) == Encode(closed + [f])
  {
    var sent, held := closed[..n], closed[n..];
    assert (closed + [f])[n..] == held + [f];
    assert closed + [f] == sent + (held + [f]);
    Snoc(held, f);
    EncodeConcat(sent, held + [f]);
  }

  /** The buffer after a record has been ended in it: one more held fragment, nothing open. */
  lemma {:induction false} HoldLayout(b: seq<Byte>, finger: nat, closed: seq<Fragment>, n: nat, f: Fragment)
    requires n <= |closed|
    requires finger + 4 < |b| && 100 <= |b| < TWO_TO_31
    requires b[..finger] == Encode(closed[n..]) + EncodeOne(f)
    ensures (closed + [f])[..n] == closed[..n]
    ensures Layout(b, finger, finger + 4, (closed + [f])[n..]) && b[finger + 4..finger + 4] == []
  {
    CloseAfter(closed, n, f);
  }

  /** The buffer after everything has been sent. */
  lemma {:induction false} FlushLayout(b: seq<Byte>, fs: seq<Fragment>)
    requires 100 <= |b| < TWO_TO_31
    ensures fs[..|fs|] == fs
    ensures Layout(b, 0, 4, fs[|fs|..]) && b[4..4] == []
  {
    assert fs[|fs|..] == [];
    assert b[..0] == [];
  }

  class RecordWriter {
    const sink: Sink
    const out: array<Byte>
    var finger: nat       // next output position
    var header: nat       // where the open fragment's header is
    var fragSent: bool    // part of the current record has left the buffer
    ghost var closed: seq<Fragment>      // the fragments closed so far
    ghost var gone: nat                  // how many of them are already in the sink

    ghost predicate Valid()
      reads this, out, sink
    {
      && Consistent()
      && (sink.reliable && MidRecord() ==> fragSent)
    }

    /** The invariant while the flag is being brought up to date. */
    ghost predicate Consistent()
      reads this, out, sink
    {
      && gone <= |closed|
      && Layout(out[..], header, finger, closed[gone..])
      && sink.sent == Encode(closed[..gone])
    }

    /** The receiver already holds a fragment of the record that is still being written. */
    ghost predicate MidRecord()
      reads this
    {
      gone == |closed| && closed != [] && !closed[|closed| - 1].last
    }

    /** The records ended so far, sent or still in the buffer. */
    ghost function Completed(): seq<seq<Byte>>
      reads this
    {
      Done(closed)
    }

    /** The bytes of the fragment that is still open. */
    ghost function OpenData(): seq<Byte>
      reads this, out
      requires header + 4 <= finger <= out.Length
    {
      out[..][header + 4..finger]
    }

    /** The bytes written since the last end of record. */
    ghost function Current(): seq<Byte>
      reads this, out
      requires header + 4 <= finger <= out.Length
    {
      Open(closed) + OpenData()
    }

    constructor (sendsize: nat, sink: Sink)
      requires sendsize < TWO_TO_31 - 4
      requires sink.sent == []
      ensures Valid() && this.sink == sink && fresh(out)
      ensures Completed() == [] && Current() == [] && closed == []
      ensures out.Length == FixBufSize(sendsize)
    {
      this.sink := sink;
      out := new Byte[FixBufSize(sendsize)](i => 0);
      header, finger, fragSent := 0, 4, false;
      closed, gone := [], 0;
    }

    /** Copies `data` into the buffer at `pos`. */
    method Store(pos: nat, data: seq<Byte>)
      requires pos + |data| <= out.Length
      modifies out
      ensures out[..] == Splice(old(out[..]), pos, data)
    {
      forall i | 0 <= i < |data| {
        out[pos + i] := data[i];
      }
    }

    /** Copies `data` to the end of the open fragment, where it fits. */
    method Append(data: seq<Byte>)
      requires Valid() && finger + |data| <= out.Length
      modifies this`finger, out
      ensures Valid() && finger == old(finger) + |data|
      ensures Current() == old(Current()) + data
    {
      LayoutStore(out[..], header, finger, closed[gone..], finger, data);
      Store(finger, data);
      finger := finger + |data|;
    }

    /** Back-patches the header of the open fragment. */
    method PatchHeader(eor: bool)
      requires Consistent()
      modifies out
      ensures Consistent() && OpenData() == old(OpenData())
      ensures var f: Fragment := Fragment(eor, OpenData());
              out[..][..finger] == Encode(closed[gone..]) + EncodeOne(f)
    {
      LayoutClose(out[..], header, finger, closed[gone..], eor);
      Store(header, PutWord(Header(finger - header - 4, eor)));
    }

    /** Once everything up to `fs` is in the sink, the buffer holds nothing but a header's room. */
    method StartOver(ghost fs: seq<Fragment>)
      requires sink.sent == Encode(fs) && 100 <= out.Length < TWO_TO_31
      requires sink.reliable && fs != [] && !fs[|fs| - 1].last ==> fragSent
      modifies this`finger, this`header, this`closed, this`gone
      ensures Valid() && header == 0 && finger == 4 && closed == fs && gone == |fs|
    {
      closed := fs;
      gone := |fs|;
      FlushLayout(out[..], fs);
      header, finger := 0, 4;
    }

    /**
     * Closes the open fragment, sends the whole buffer and opens a new fragment. When the sink
     * reports an error the fragment stays open and nothing of it counts as written.
     */
    method FlushOut(eor: bool) returns (ok: bool)
      requires Consistent() && (sink.reliable && !eor ==> fragSent)
      modifies this`finger, this`header, this`closed, this`gone, out, sink
      ensures Consistent()
      ensures ok ==> Valid() && header == 0 && finger == 4 && gone == |closed|
      ensures ok ==> closed == old(closed + [Fragment(eor, OpenData())])
      ensures !ok ==> !sink.reliable && finger == old(finger)
      ensures !ok ==> closed == old(closed) && Current() == old(Current())
    {
      ghost var f: Fragment := Fragment(eor, OpenData());
      ghost var fs := closed + [f];
      PatchHeader(eor);
      CloseAfter(closed, gone, f);
      var n := sink.Write(out[..finger]);
      if n != finger {
        return false;
      }
      StartOver(fs);
      ok := true;
    }

    /** Sends what there is of the current record as a fragment that is not its last. */
    method FlushMidRecord() returns (ok: bool)
      requires Valid()
      modifies this, out, sink
      ensures Valid() && Completed() == old(Completed()) && Current() == old(Current())
      ensures ok ==> finger == 4 && header == 0
      ensures !ok ==> !sink.reliable && finger == old(finger)
    {
      Snoc(closed, Fragment(false, OpenData()));
      fragSent := true;
      ok := FlushOut(false);
    }

    /** Appends one word to the current record, starting a new fragment when it does not fit. */
    method PutLong(w: Word) returns (ok: bool)
      requires Valid()
      modifies this, out, sink
      ensures Valid() && Completed() == old(Completed())
      ensures Current() == old(Current()) + if ok then PutWord(w) else []
      ensures sink.reliable ==> ok
    {
      if finger + 4 > out.Length {
        ok := FlushMidRecord();
        if !ok {
          return;
        }
      }
      Append(PutWord(w));
      ok := true;
    }

    /**
     * Appends bytes to the current record, sending a fragment each time the buffer fills.
     * On an error some prefix of the bytes has been appended.
     */
    method PutBytes(addr: seq<Byte>) returns (ok: bool, ghost taken: nat)
      requires Valid()
      modifies this, out, sink
      ensures Valid() && Completed() == old(Completed())
      ensures taken <= |addr| && Current() == old(Current()) + addr[..taken]
      ensures ok ==> taken == |addr|
      ensures sink.reliable ==> ok
    {
      var done := 0;
      taken := 0;
      ghost var records, bytes := Completed(), Current();
      while done < |addr|
        invariant done <= |addr| && taken == done
        invariant Valid() && Completed() == records
        invariant Current() == bytes + addr[..done]
        decreases |addr| - done, if finger == out.Length then 1 else 0
      {
        var room := out.Length - finger;
        var now := if |addr| - done < room then |addr| - done else room;
        assert bytes + addr[..done + now] == bytes + addr[..done] + addr[done..done + now];
        Append(addr[done..done + now]);
        done := done + now;
        taken := done;
        if finger == out.Length {
          ok := FlushMidRecord();
          if !ok {
            return;
          }
        }
      }
      assert addr[..done] == addr;
      ok := true;
    }

    /**
     * Reserves `length` bytes of the buffer for the caller to fill, if they fit without a flush;
     * until filled they are whatever the buffer held.
     */
    method Inline(length: nat) returns (at: Option<nat>)
      requires Valid()
      modifies this`finger
      ensures Valid() && Completed() == old(Completed())
      ensures at.Some? <==> old(finger) + length <= out.Length
      ensures at == None ==> finger == old(finger)
      ensures at.Some? ==> at.value == old(finger) && finger == old(finger) + length
      ensures at.Some? ==> Current() == old(Current()) + out[..][at.value..finger]
    {
      if finger + length <= out.Length {
        at := Some(finger);
        finger := finger + length;
        assert OpenData() == out[..][header + 4..at.value] + out[..][at.value..finger];
      } else {
        at := None;
      }
    }

    lemma {:induction false} OverOpen(front: seq<Byte>, b: seq<Byte>, lo: nat, at: nat, hi: nat)
      requires lo <= at <= hi <= |b|
      ensures (front + b[lo..hi])[..|front + b[lo..hi]| - (hi - at)] == front + b[lo..at]
    {
    }

    /** The caller's store through the pointer that `Inline` returned. */
    method FillInline(at: nat, data: seq<Byte>)
      requires Valid() && header + 4 <= at && at + |data| == finger
      modifies out
      ensures Valid() && Completed() == old(Completed())
      ensures Current() == old(Current()[..|Current()| - |data|]) + data
    {
      ghost var b := out[..];
      LayoutStore(b, header, finger, closed[gone..], at, data);
      OverOpen(Open(closed), b, header + 4, at, finger);
      Store(at, data);
      Associative(Open(closed), b[header + 4..at], data);
    }

    /** Ends the current record in the buffer and opens the next one's first fragment behind it. */
    method HoldRecord()
      requires Valid() && finger + 4 < out.Length && (sink.reliable ==> !MidRecord())
      modifies this`finger, this`header, this`closed, out
      ensures Valid()
      ensures Completed() == old(Completed() + [Current()]) && Current() == []
    {
      ghost var f: Fragment := Fragment(true, OpenData());
      Snoc(closed, f);
      PatchHeader(true);
      HoldLayout(out[..], finger, closed, gone, f);
      closed := closed + [f];
      header, finger := finger, finger + 4;
    }

    /**
     * Ends the current record. The record stays in the buffer only when the caller does not want
     * it sent now, none of it has been sent and another header fits behind it.
     */
    method EndOfRecord(sendNow: bool) returns (ok: bool)
      requires Valid()
      modifies this, out, sink
      ensures Valid()
      ensures ok ==> Completed() == old(Completed() + [Current()]) && Current() == []
      ensures !ok ==> !sink.reliable && Completed() == old(Completed()) && Current() == old(Current())
      ensures ok && (sendNow || old(fragSent)) ==> sink.sent == Encode(closed)
      ensures sink.reliable && old(MidRecord()) ==> sink.sent == Encode(closed)
    {
      Snoc(closed, Fragment(true, OpenData()));
      if sendNow || fragSent || finger + 4 >= out.Length {
        fragSent := false;
        ok := FlushOut(true);
        assert ok ==> closed[..gone] == closed;
      } else {
        HoldRecord();
        ok := true;
      }
    }
  }
}
