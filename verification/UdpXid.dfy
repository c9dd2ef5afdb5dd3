/** Transaction ids of the UDP client. */
module UdpXid {
  import opened Bytes
  import opened Xids

  /** The number in the first two bytes of the buffer, as the little-endian host sees it. */
  function Counter(x: Xid): (c: int)
    ensures 0 <= c < 0x1_0000
  {
    x.b0 as int + 256 * x.b1 as int
  }

  /** `(*(u_short *)outbuf)++`: the low byte is counted up, with a carry into the high one. */
  function NextXid(x: Xid): Xid {
    if x.b0 < 255 then x.(b0 := x.b0 + 1)
    else if x.b1 < 255 then x.(b0 := 0, b1 := x.b1 + 1)
    else x.(b0 := 0, b1 := 0)
  }

  /** The id after `n` more attempts. */
  function XidAfter(x: Xid, n: nat): Xid {
    if n == 0 then x else NextXid(XidAfter(x, n - 1))
  }

  lemma {:induction false} CounterAfter(x: Xid, n: nat)
    ensures Counter(XidAfter(x, n)) == (Counter(x) + n) % 0x1_0000
    ensures XidAfter(x, n).b2 == x.b2 && XidAfter(x, n).b3 == x.b3
  {
    if n > 0 {
      CounterAfter(x, n - 1);
      CountOn(Counter(x), n);
      NextCounter(XidAfter(x, n - 1));
    }
  }

  /** Counting up the two bytes counts up the number they hold, modulo 65536. */
  lemma {:induction false} NextCounter(x: Xid)
    ensures Counter(NextXid(x)) == (Counter(x) + 1) % 0x1_0000
  {
    assert Counter(NextXid(x)) == if Counter(x) == 0xFFFF then 0 else Counter(x) + 1;
  }

  lemma {:induction false} CountOn(c: int, n: nat)
    requires n > 0
    ensures ((c + n - 1) % 0x1_0000 + 1) % 0x1_0000 == (c + n) % 0x1_0000
  {
    var m := 0x1_0000;
    var q, r := (c + n - 1) / m, (c + n - 1) % m;
    assert c + n == m * q + (r + 1);
  }

  /** Two attempts of a handle carry the same id exactly when their numbers agree modulo 65536. */
  lemma {:induction false} SameXid(x: Xid, a: nat, b: nat)
    ensures XidAfter(x, a) == XidAfter(x, b) <==> (a - b) % 0x1_0000 == 0
  {
    CounterAfter(x, a);
    CounterAfter(x, b);
    SameResidue(Counter(x) + a, Counter(x) + b, 0x1_0000);
    SameCounter(XidAfter(x, a), XidAfter(x, b));
  }

  lemma {:induction false} SameCounter(u: Xid, v: Xid)
    ensures Counter(u) == Counter(v) <==> u.b0 == v.b0 && u.b1 == v.b1
  {
  }
}
