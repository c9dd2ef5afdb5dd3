/**
 * The record-marking standard: what a byte stream means as a sequence of records.
 * Section 11 of RFC 5531: a fragment is a four-byte header (top bit: last fragment of
 * its record, other 31 bits: length) followed by that many bytes.
 */
module RecordFormat {
  import opened Bytes

  datatype Piece = Fragment(last: bool, data: seq<Byte>)

  /** A fragment whose length fits the 31 bits its header has for it. */
  type Fragment = p: Piece | |p.data| < TWO_TO_31 witness Piece.Fragment(true, [])

  function Header(length: nat, last: bool): (w: Word)
    requires length < TWO_TO_31
    ensures w % TWO_TO_31 == length && (w >= TWO_TO_31 <==> last)
  {
    if last then TWO_TO_31 + length else length
  }

  function EncodeOne(f: Fragment): (s: seq<Byte>)
  {
    PutWord(Header(|f.data|, f.last)) + f.data
  }

  function Encode(fs: seq<Fragment>): seq<Byte>
  {
    if fs == [] then [] else Encode(fs[..|fs| - 1]) + EncodeOne(fs[|fs| - 1])
  }

  /** The records that `fs` completes. */
  function Done(fs: seq<Fragment>): seq<seq<Byte>> {
    if fs == [] then [] else
      var rest, f := fs[..|fs| - 1], fs[|fs| - 1];
      if f.last then Done(rest) + [Open(rest) + f.data] else Done(rest)
  }

  /** The bytes of the record that `fs` leaves unfinished. */
  function Open(fs: seq<Fragment>): seq<Byte> {
    if fs == [] then [] else
      var rest, f := fs[..|fs| - 1], fs[|fs| - 1];
      if f.last then [] else Open(rest) + f.data
  }

  /**
   * What is left of the current record: its bytes, whether its end is present,
   * and the bytes that follow it.
   */
  datatype View = View(data: seq<Byte>, whole: bool, after: seq<Byte>)

  /**
   * The rest of the current record when `need` bytes of its current fragment are still
   * to come, `last` tells whether that fragment is the record's last, and `u` is
   * everything not yet consumed. Reads no further than the record's own end.
   */
  function Rest(need: nat, last: bool, u: seq<Byte>): (v: View)
    ensures |v.data| + |v.after| <= |u|
    decreases |u|
  {
    if |u| < need then View(u, false, [])
    else if last then View(u[..need], true, u[need..])
    else if |u| < need + 4 then View(u[..need], false, [])
    else
      var h := GetWord(u[need..need + 4]);
      var r := Rest(h % TWO_TO_31, h >= TWO_TO_31, u[need + 4..]);
      View(u[..need] + r.data, r.whole, r.after)
  }

  /** All complete records of a byte stream read from its start: the receiver's meaning of it. */
  function Parse(u: seq<Byte>): seq<seq<Byte>>
    decreases |u|
  {
    var v := Rest(0, false, u);
    if v.whole && |v.after| < |u| then [v.data] + Parse(v.after) else []
  }

  /** What is left of the record behind a fragment that is, or is not, its last. */
  function Behind(last: bool, w: seq<Byte>): View {
    if last then View([], true, w)
    else if |w| < 4 then View([], false, [])
    else
      var h := GetWord(w[..4]);
      Rest(h % TWO_TO_31, h >= TWO_TO_31, w[4..])
  }

  function InFront(data: seq<Byte>, v: View): View {
    View(data + v.data, v.whole, v.after)
  }

  lemma {:induction false} RestInTwo(need: nat, last: bool, u: seq<Byte>)
    requires need <= |u|
    ensures Rest(need, last, u) == InFront(u[..need], Behind(last, u[need..]))
  {
    assert u[..need] + [] == u[..need];
    if need + 4 <= |u| {
      assert u[need..][..4] == u[need..need + 4] && u[need..][4..] == u[need + 4..];
    }
  }

  /** Consuming bytes inside the current fragment consumes them from the record and nothing else. */
  lemma {:induction false} RestConsume(need: nat, last: bool, u: seq<Byte>, n: nat)
    requires n <= need && n <= |u|
    ensures Rest(need, last, u) == InFront(u[..n], Rest(need - n, last, u[n..]))
  {
    if |u| < need {
      assert u[..n] + u[n..] == u;
    } else {
      RestInTwo(need, last, u);
      RestInTwo(need - n, last, u[n..]);
      Reslice(u, n, need - n, |u|);
      assert u[n..|u|] == u[n..] && u[need..|u|] == u[need..];
      var v := Behind(last, u[need..]);
      assert u[..need] == u[..n] + u[n..need];
      Associative(u[..n], u[n..need], v.data);
    }
  }

  /**
   * A reader that has lost bytes of the last fragment, taken but not counted, comes to rest that
   * many bytes behind the end of the record.
   */
  lemma {:induction false} LostBehind(need: nat, lost: seq<Byte>, u: seq<Byte>)
    requires need <= |u|
    ensures var v := Rest(need, true, lost + u);
            v.whole && Rest(need, true, u).whole && |lost| <= |v.after|
            && Rest(need, true, u).after == v.after[|lost|..]
  {
    assert (lost + u)[need..][|lost|..] == u[need..];
  }

  /** What one more closed fragment does. */
  lemma {:induction false} Snoc(fs: seq<Fragment>, f: Fragment)
    ensures f.last ==> Done(fs + [f]) == Done(fs) + [Open(fs) + f.data] && Open(fs + [f]) == []
    ensures !f.last ==> Done(fs + [f]) == Done(fs) && Open(fs + [f]) == Open(fs) + f.data
    ensures Encode(fs + [f]) == Encode(fs) + EncodeOne(f)
  {
    assert (fs + [f])[..|fs|] == fs;
  }

  lemma {:induction false} EncodeConcat(a: seq<Fragment>, b: seq<Fragment>)
    ensures Encode(a + b) == Encode(a) + Encode(b)
  {
    if b == [] {
      assert a + b == a;
    } else {
      var b' := b[..|b| - 1];
      assert (a + b)[..|a + b| - 1] == a + b';
      EncodeConcat(a, b');
      Associative(Encode(a), Encode(b'), EncodeOne(b[|b| - 1]));
    }
  }

  lemma {:induction false} DoneCons(f: Fragment, fs: seq<Fragment>)
    ensures f.last ==> Done([f] + fs) == [f.data] + Done(fs) && Open([f] + fs) == Open(fs)
    ensures !f.last && Done(fs) == [] ==> Done([f] + fs) == [] && Open([f] + fs) == f.data + Open(fs)
    ensures !f.last && Done(fs) != [] ==>
              Done([f] + fs) == [f.data + Done(fs)[0]] + Done(fs)[1..] && Open([f] + fs) == Open(fs)
  {
    if fs == [] {
      assert [f] + fs == [f] && [f][..0] == [];
      assert [] + f.data == f.data && f.data + [] == f.data;
    } else {
      var fs', g := fs[..|fs| - 1], fs[|fs| - 1];
      assert ([f] + fs)[..|fs|] == [f] + fs';
      DoneCons(f, fs');
      if !f.last && g.last {
        if Done(fs') == [] {
          assert f.data + (Open(fs') + g.data) == f.data + Open(fs') + g.data;
        } else {
          assert Done(fs)[1..] == Done(fs')[1..] + [Open(fs') + g.data];
        }
      } else if !f.last && Done(fs) == [] {
        assert f.data + (Open(fs') + g.data) == f.data + Open(fs') + g.data;
      }
    }
  }

  /** What a reader standing inside a fragment sees when whole fragments follow. */
  lemma {:induction false} RestPrepend(need: nat, f: Fragment, t: seq<Byte>)
    ensures var r := Rest(|f.data|, f.last, f.data + t);
            Rest(0, false, EncodeOne(f) + t) == r
  {
    var u := EncodeOne(f) + t;
    var h := Header(|f.data|, f.last);
    WordRoundTrip(h);
    assert u[0..4] == PutWord(h);
    assert u[4..] == f.data + t;
    assert u[..0] == [];
    var r := Rest(|f.data|, f.last, f.data + t);
    assert [] + r.data == r.data;
  }

  /**
   * A reader at a record boundary sees the first completed record, whole and nothing
   * else, and then stands exactly where the fragments of the next record begin.
   */
  lemma {:induction false} FirstRecord(fs: seq<Fragment>, t: seq<Byte>) returns (k: nat)
    requires Done(fs) != []
    ensures 0 < k <= |fs|
    ensures Rest(0, false, Encode(fs) + t) == View(Done(fs)[0], true, Encode(fs[k..]) + t)
    ensures Done(fs[k..]) == Done(fs)[1..] && Open(fs[k..]) == Open(fs)
    decreases |fs|
  {
    var f, fs' := fs[0], fs[1..];
    assert fs == [f] + fs';
    DoneCons(f, fs');
    EncodeConcat([f], fs');
    assert Encode([f]) == EncodeOne(f);
    var t' := Encode(fs') + t;
    assert Encode(fs) + t == EncodeOne(f) + t';
    RestPrepend(0, f, t');
    var u := f.data + t';
    assert u[..|f.data|] == f.data && u[|f.data|..] == t';
    if f.last {
      k := 1;
    } else {
      var k' := FirstRecord(fs', t);
      k := k' + 1;
      assert fs[k..] == fs'[k'..];
      RestSplit(|f.data|, f.data, t');
    }
  }

  /** Past the end of a fragment that is not the last one, the reader continues at a header. */
  lemma {:induction false} RestSplit(need: nat, d: seq<Byte>, t: seq<Byte>)
    requires |d| == need
    ensures Rest(need, false, d + t)
         == View(d + Rest(0, false, t).data, Rest(0, false, t).whole, Rest(0, false, t).after)
  {
    var u := d + t;
    assert u[..need] == d;
    if 4 <= |t| {
      assert u[need..need + 4] == t[0..4];
      assert u[need + 4..] == t[4..];
      assert t[..0] == [];
    } else {
      assert t[..0] == [];
      if |t| < 4 { assert d + [] == d; }
    }
  }

  /** If no record is complete, a reader that has all the bytes still does not see an end. */
  lemma {:induction false} NoRecord(fs: seq<Fragment>)
    requires Done(fs) == []
    ensures Rest(0, false, Encode(fs)) == View(Open(fs), false, [])
    decreases |fs|
  {
    if fs != [] {
      var f, fs' := fs[0], fs[1..];
      assert fs == [f] + fs';
      DoneCons(f, fs');
      EncodeConcat([f], fs');
      assert Encode([f]) == EncodeOne(f);
      RestPrepend(0, f, Encode(fs'));
      RestSplit(|f.data|, f.data, Encode(fs'));
      NoRecord(fs');
    }
  }

  /** Reading back what fragments encode gives exactly the records they complete. */
  lemma {:induction false} ParseEncode(fs: seq<Fragment>)
    ensures Parse(Encode(fs)) == Done(fs)
    decreases |fs|
  {
    var u := Encode(fs);
    if Done(fs) == [] {
      NoRecord(fs);
    } else {
      var k := FirstRecord(fs, []);
      assert Encode(fs) + [] == u && Encode(fs[k..]) + [] == Encode(fs[k..]);
      assert fs == fs[..k] + fs[k..];
      EncodeConcat(fs[..k], fs[k..]);
      assert |Encode(fs[..k])| >= 4;
      ParseEncode(fs[k..]);
    }
  }
}
