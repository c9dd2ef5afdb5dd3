/** A transaction id as the clients hold it: four bytes at the front of the pre-serialised call. */
module Xids {
  import opened Bytes

  /** The first four bytes of the output buffer. */
  datatype Xid = Xid(b0: Byte, b1: Byte, b2: Byte, b3: Byte) {
    function Bytes(): (s: seq<Byte>)
      ensures |s| == 4 && Head(s) == this
    {
      [b0, b1, b2, b3]
    }
  }

  /** The id at the front of a datagram. */
  function Head(s: seq<Byte>): Xid
    requires |s| >= 4
  {
    Xid(s[0], s[1], s[2], s[3])
  }

  /** The id as a number on the wire, which is what a decoded message holds. */
  function Wire(x: Xid): Word {
    GetWord(x.Bytes())
  }

  /** Numbers agree modulo `m` exactly when `m` divides their difference. */
  lemma {:induction false} SameResidue(a: int, b: int, m: int)
    requires m > 0
    ensures a % m == b % m <==> (a - b) % m == 0
  {
    var d := a - b;
    var p, q, r := a / m, b / m, d / m;
    assert a == m * p + a % m && b == m * q + b % m && d == m * r + d % m;
    if a % m == b % m {
      Multiple(d, p - q, m);
    } else if d % m == 0 {
      Between(a % m - b % m, r - p + q, m);
    }
  }

  lemma {:induction false} Multiple(d: int, k: int, m: int)
    requires m > 0 && d == m * k
    ensures d % m == 0
  {
    Between(d % m, k - d / m, m);
  }

  /** The only multiple of `m` closer to zero than `m` is zero. */
  lemma {:induction false} Between(d: int, k: int, m: int)
    requires m > 0 && -m < d < m && d == m * k
    ensures d == 0
  {
    assert k >= 1 ==> m * k >= m;
    assert k <= -1 ==> m * -k >= m;
  }

  /** Comparing decoded ids is comparing the bytes. */
  lemma {:induction false} WireInjective(x: Xid, y: Xid)
    ensures Wire(x) == Wire(y) <==> x == y
  {
    WordOnto(x.Bytes());
    WordOnto(y.Bytes());
    if Wire(x) == Wire(y) {
      assert x.Bytes() == y.Bytes();
      assert x == Head(x.Bytes()) == Head(y.Bytes()) == y;
    }
  }
}
