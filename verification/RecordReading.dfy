/** The receiving half of a record-marked stream: one input buffer refilled by short reads. */
module RecordReading {
  import opened Bytes
  import opened RecordFormat
  import RecordWriting

  /**
   * The connection below the stream. `Read` stands for the `readit` procedure: it reports an
   * error or delivers at least one byte, and how many is anybody's choice. A reliable source
   * reports an error only when nothing is left.
   */
  class Source {
    const reliable: bool
    var pending: seq<Byte>

    constructor (reliable: bool, pending: seq<Byte>)
      ensures this.reliable == reliable && this.pending == pending
    {
      this.reliable := reliable;
      this.pending := pending;
    }

    method Read(buf: array<Byte>, where: nat, len: nat) returns (n: int)
      requires 0 < len && where + len <= buf.Length
      modifies this, buf
      ensures n == -1 || 1 <= n <= len
      ensures n == -1 ==> pending == old(pending) && (reliable ==> pending == [])
      ensures n == -1 ==> buf[..] == old(buf[..])
      ensures n != -1 ==> n <= |old(pending)| && pending == old(pending)[n..]
      ensures n != -1 ==> buf[..][where..where + n] == old(pending)[..n]
    {
      if pending == [] {
        return -1;
      }
      if !reliable {
        if * {
          return -1;
        }
      }
      n :| 1 <= n <= len && n <= |pending|;
      forall i | 0 <= i < n {
        buf[where + i] := pending[i];
      }
      pending := pending[n..];
    }
  }

  /** A reader that saw `all` has since taken `data` and now sees `v`. */
  ghost predicate Sees(all: View, data: seq<Byte>, v: View) {
    all == InFront(data, v)
  }

  lemma {:induction false} Taken(all: View, data: seq<Byte>, part: seq<Byte>, v: View)
    requires Sees(all, data, InFront(part, v)) || (all == v && data == part == [])
    ensures Sees(all, data + part, v)
  {
    assert data + (part + v.data) == data + part + v.data;
  }

  /** The record ends in the same place, before the same bytes, or is cut off just as well. */
  ghost predicate SameEnd(v: View, w: View) {
    v.whole == w.whole && v.after == w.after
  }

  class RecordReader {
    const source: Source
    const buf: array<Byte>
    var finger: nat      // next byte to be had
    var boundary: nat    // end of what has been read
    var fbtbc: nat       // fragment bytes to be consumed
    var lastFrag: bool

    ghost predicate Valid()
      reads this
    {
      100 <= buf.Length && finger <= boundary <= buf.Length
    }

    /** Everything not yet consumed, buffered or still in the connection. */
    ghost function Unread(): seq<Byte>
      requires Valid()
      reads this, buf, source
    {
      buf[..][finger..boundary] + source.pending
    }

    /** What remains of the current record. */
    ghost function Record(): View
      requires Valid()
      reads this, buf, source
    {
      Rest(fbtbc, lastFrag, Unread())
    }

    constructor (recvsize: nat, source: Source)
      requires recvsize < TWO_TO_31 - 4
      ensures Valid() && this.source == source && fresh(buf)
      ensures Unread() == source.pending && fbtbc == 0 && lastFrag
    {
      this.source := source;
      var size := RecordWriting.FixBufSize(recvsize);
      buf := new Byte[size](i => 0);
      finger, boundary := size, size;
      fbtbc, lastFrag := 0, true;
    }

    /** Refills an empty buffer, at the same residue modulo four at which the last read ended. */
    method FillInputBuf() returns (ok: bool)
      requires Valid() && finger == boundary
      modifies this`finger, this`boundary, buf, source
      ensures Valid() && Unread() == old(Unread())
      ensures ok ==> finger < boundary && |source.pending| < old(|source.pending|)
      ensures !ok ==> finger == boundary && source.pending == old(source.pending)
      ensures !ok && source.reliable ==> Unread() == []
    {
      var where := boundary % 4;
      var len := source.Read(buf, where, buf.Length - where);
      if len == -1 {
        return false;
      }
      finger := where;
      boundary := where + len;
      ok := true;
    }

    lemma {:induction false} Advance(lo: nat, n: nat, hi: nat)
      requires lo + n <= hi <= buf.Length
      ensures buf[..][lo..hi] == buf[lo..lo + n] + buf[..][lo + n..hi]
    {
    }

    /** Takes `n` bytes that are in the buffer. */
    method TakeBuffered(n: nat) returns (part: seq<Byte>)
      requires Valid() && n <= boundary - finger
      modifies this`finger
      ensures Valid() && finger == old(finger) + n && part == buf[old(finger)..finger]
      ensures old(Unread()) == part + Unread() && |part| == n
    {
      Advance(finger, n, boundary);
      part := buf[finger..finger + n];
      finger := finger + n;
      Associative(part, buf[..][finger..boundary], source.pending);
    }

    /** Delivers exactly `len` bytes of the stream, whatever the sizes of the reads below. */
    method GetInputBytes(len: nat) returns (ok: bool, data: seq<Byte>)
      requires Valid()
      modifies this`finger, this`boundary, buf, source
      ensures Valid() && old(Unread()) == data + Unread()
      ensures ok ==> |data| == len
      ensures !ok ==> |data| < len && (source.reliable ==> Unread() == [])
    {
      data := [];
      ghost var all := Unread();
      while |data| < len
        invariant Valid() && |data| <= len
        invariant all == data + Unread()
        decreases len - |data|, |source.pending|
      {
        var current := boundary - finger;
        if current == 0 {
          ok := FillInputBuf();
          if !ok {
            return;
          }
          continue;
        }
        current := if len - |data| < current then len - |data| else current;
        var part := TakeBuffered(current);
        Associative(data, part, Unread());
        data := data + part;
      }
      ok := true;
    }

    /** Consumes `cnt` bytes of the stream; `gone` is what it has consumed when it fails. */
    method SkipInputBytes(cnt: nat) returns (ok: bool, ghost gone: seq<Byte>)
      requires Valid()
      modifies this`finger, this`boundary, buf, source
      ensures Valid() && old(Unread()) == gone + Unread()
      ensures if ok then |gone| == cnt else |gone| < cnt
      ensures !ok && source.reliable ==> Unread() == []
    {
      var left := cnt;
      ghost var all := Unread();
      gone := [];
      while left > 0
        invariant Valid() && 0 <= left <= cnt && |gone| == cnt - left
        invariant all == gone + Unread()
        decreases left, |source.pending|
      {
        var current := boundary - finger;
        if current == 0 {
          ok := FillInputBuf();
          if !ok {
            return;
          }
          continue;
        }
        current := if left < current then left else current;
        var part := TakeBuffered(current);
        Associative(gone, part, Unread());
        left, gone := left - current, gone + part;
      }
      ok := true;
    }

    /** Takes the next four bytes of the stream as a fragment header. */
    method SetInputFragment() returns (ok: bool, ghost lost: seq<Byte>)
      requires Valid() && fbtbc == 0 && !lastFrag
      modifies this, buf, source
      ensures Valid()
      ensures ok ==> Record() == old(Record()) && |Unread()| < |old(Unread())|
      ensures ok ==> lost == []
      ensures !ok ==> fbtbc == 0 && !lastFrag && |lost| < 4 && old(Unread()) == lost + Unread()
      ensures !ok && source.reliable ==> !old(Record()).whole && old(Record()).data == []
      ensures !ok && source.reliable ==> Unread() == []
    {
      var header;
      ok, header := GetInputBytes(4);
      if !ok {
        return false, header;
      }
      lost := [];
      var h := GetWord(header);
      lastFrag := h >= TWO_TO_31;
      fbtbc := h % TWO_TO_31;
      ghost var u := old(Unread());
      assert u[0..4] == header && u[4..] == Unread() && u[..0] == [];
      assert [] + Record().data == Record().data;
    }

    /** Delivers `len` bytes that all lie in the current fragment. */
    method TakePart(len: nat) returns (ok: bool, part: seq<Byte>)    // on failure, what is lost
      requires Valid() && len <= fbtbc
      modifies this, buf, source
      ensures Valid()
      ensures ok ==> |part| == len && |Unread()| == |old(Unread())| - len
      ensures ok ==> old(Record()) == InFront(part, Record())
      ensures !ok ==> fbtbc == old(fbtbc) && lastFrag == old(lastFrag)
      ensures !ok ==> |part| < len && old(Unread()) == part + Unread()
      ensures !ok && source.reliable ==> !old(Record()).whole && |old(Record()).data| < len
    {
      ghost var u := Unread();
      ok, part := GetInputBytes(len);
      if !ok {
        return;
      }
      RestConsume(fbtbc, lastFrag, u, len);
      Taking(part, Unread());
      fbtbc := fbtbc - len;
    }

    lemma {:induction false} Taking(part: seq<Byte>, rest: seq<Byte>)
      ensures (part + rest)[..|part|] == part && (part + rest)[|part|..] == rest
    {
    }

    /** The record as it would be if some bytes were put back. */
    ghost function WithLost(lost: seq<Byte>): View
      requires Valid()
      reads this, buf, source
    {
      Rest(fbtbc, lastFrag, lost + Unread())
    }

    /** Bytes of the part that is being read, or of the header, but not all of it. */
    ghost predicate Uncounted(lost: seq<Byte>)
      reads this
    {
      lost != [] ==> if fbtbc > 0 then |lost| < fbtbc else !lastFrag && |lost| < 4
    }

    lemma {:induction false} NoneLost()
      requires Valid()
      ensures WithLost([]) == Record()
    {
      assert [] + Unread() == Unread();
    }

    /**
     * Delivers the next `len` bytes of the current record and never a byte of the next one,
     * however the record is cut into fragments and the stream into reads. When it fails inside a
     * part or a header, the bytes `lost` have been taken from the stream but not counted.
     */
    method GetBytes(len: nat) returns (ok: bool, data: seq<Byte>, ghost lost: seq<Byte>)
      requires Valid()
      modifies this, buf, source
      ensures Valid() && Uncounted(lost) && (ok ==> lost == [])
      ensures Sees(old(Record()), data, WithLost(lost))
      ensures ok ==> |data| == len
      ensures ok ==> old(Record()) == InFront(data, Record())
      ensures !ok && source.reliable ==> |old(Record()).data| < len
      ensures source.reliable && old(Record()).whole ==> Record().whole && Record().after == old(Record()).after
    {
      data, lost := [], [];
      ghost var all := Record();
      Taken(all, [], [], all);
      NoneLost();
      while |data| < len
        invariant Valid() && |data| <= len && lost == [] && WithLost([]) == Record()
        invariant Sees(all, data, Record())
        decreases |Unread()|, len - |data|
      {
        var current := fbtbc;
        if current == 0 {
          if lastFrag {
            assert Unread()[..0] == [];
            return false, data, [];
          }
          ok, lost := SetInputFragment();
          if !ok {
            return;
          }
          NoneLost();
          continue;
        }
        current := if len - |data| < current then len - |data| else current;
        var part;
        ok, part := TakePart(current);
        if !ok {
          lost := part;
          return;
        }
        Taken(all, data, part, Record());
        NoneLost();
        data := data + part;
      }
      ok := true;
    }

    /**
     * The next word of the current record. The fast case, straight from the buffer, meets the
     * same contract as the slow one.
     */
    method GetLong() returns (ok: bool, w: Word, ghost lost: seq<Byte>)
      requires Valid()
      modifies this, buf, source
      ensures Valid() && Uncounted(lost) && (ok ==> lost == [])
      ensures SameEnd(old(Record()), WithLost(lost))
      ensures ok ==> old(Record()) == InFront(PutWord(w), Record())
      ensures !ok && source.reliable ==> |old(Record()).data| < 4
      ensures source.reliable && old(Record()).whole ==> Record().whole && Record().after == old(Record()).after
    {
      if fbtbc >= 4 && boundary - finger >= 4 {
        var data := Consume(4);
        ok, w, lost := true, GetWord(data), [];
        NoneLost();
        WordOnto(data);
      } else {
        var data;
        ok, data, lost := GetBytes(4);
        if !ok {
          return false, 0, lost;
        }
        w := GetWord(data);
        WordOnto(data);
      }
    }

    /** Takes `len` bytes that are both in the current fragment and in the buffer. */
    method Consume(len: nat) returns (data: seq<Byte>)
      requires Valid() && len <= fbtbc && len <= boundary - finger
      modifies this`finger, this`fbtbc
      ensures Valid() && finger == old(finger) + len && fbtbc == old(fbtbc) - len
      ensures data == buf[old(finger)..finger]
      ensures old(Record()) == InFront(data, Record())
    {
      RestConsume(fbtbc, lastFrag, Unread(), len);
      data := TakeBuffered(len);
      Taking(data, Unread());
      fbtbc := fbtbc - len;
    }

    /** A direct view of the next `len` bytes, granted when they need neither a read nor a header. */
    method Inline(len: nat) returns (at: Option<nat>)
      requires Valid()
      modifies this`finger, this`fbtbc
      ensures Valid()
      ensures at.Some? <==> len <= old(fbtbc) && len <= boundary - old(finger)
      ensures at == None ==> Record() == old(Record()) && finger == old(finger)
      ensures at.Some? ==> at.value + len == finger
      ensures at.Some? ==>
                old(Record()) == InFront(buf[at.value..finger], Record())
    {
      if len <= fbtbc && finger + len <= boundary {
        at := Some(finger);
        var _ := Consume(len);
      } else {
        at := None;
      }
    }

    /** Passes over the rest of the current fragment. */
    method SkipFragment() returns (ok: bool, ghost lost: seq<Byte>)
      requires Valid()
      modifies this`finger, this`boundary, this`fbtbc, buf, source
      ensures Valid()
      ensures ok ==> lost == [] && fbtbc == 0 && SameEnd(old(Record()), Record())
      ensures ok ==> |Unread()| == |old(Unread())| - old(fbtbc)
      ensures !ok ==> fbtbc == old(fbtbc) && |lost| < fbtbc && old(Unread()) == lost + Unread()
      ensures !ok && source.reliable ==> !old(Record()).whole
    {
      ghost var u := Unread();
      ok, lost := SkipInputBytes(fbtbc);
      if ok {
        RestConsume(fbtbc, lastFrag, u, fbtbc);
        Taking(lost, Unread());
        fbtbc, lost := 0, [];
      }
    }

    /** Passes over whatever is left of the current record, leaving its end as the position. */
    method DropRecord() returns (ok: bool, ghost lost: seq<Byte>)
      requires Valid()
      modifies this, buf, source
      ensures Valid() && Uncounted(lost) && (ok ==> lost == [])
      ensures SameEnd(old(Record()), WithLost(lost))
      ensures ok ==> old(Record()).whole && Unread() == old(Record()).after && fbtbc == 0 && lastFrag
      ensures !ok && source.reliable ==> !old(Record()).whole
    {
      lost := [];
      while fbtbc > 0 || !lastFrag
        invariant Valid() && lost == [] && SameEnd(old(Record()), Record())
        decreases |Unread()|, fbtbc
      {
        ok, lost := SkipFragment();
        if !ok {
          return;
        }
        if !lastFrag {
          ok, lost := SetInputFragment();
          if !ok {
            return;
          }
        }
      }
      NoneLost();
      assert Unread()[0..] == Unread();
      ok := true;
    }

    /** Moves to the beginning of the next record. */
    method SkipRecord() returns (ok: bool, ghost lost: seq<Byte>)
      requires Valid()
      modifies this, buf, source
      ensures Valid() && (ok ==> lost == [])
      ensures !ok ==> Uncounted(lost)
      ensures !ok ==> SameEnd(old(Record()), WithLost(lost))
      ensures ok ==> old(Record()).whole && Unread() == old(Record()).after && fbtbc == 0 && !lastFrag
      ensures !ok && source.reliable ==> !old(Record()).whole
    {
      ok, lost := DropRecord();
      if ok {
        lastFrag := false;
      }
    }

    /** Whether nothing more is in the buffer once the rest of the current record is consumed. */
    method Eof() returns (eof: bool)
      requires Valid()
      modifies this, buf, source
      ensures Valid()
      ensures !eof ==> old(Record()).whole && Unread() == old(Record()).after && finger < boundary
      ensures eof && source.reliable && old(Record()).whole ==>
                Unread() == old(Record()).after && finger == boundary
    {
      ghost var lost;
      var ok;
      ok, lost := DropRecord();
      if !ok {
        return true;
      }
      eof := finger == boundary;
    }
  }
}
