/** Octets, 32-bit words in network order, and the rounding to whole XDR units. */
module Bytes {

  type Byte = b: int | 0 <= b < 256

  const TWO_TO_31: int := 0x8000_0000
  const TWO_TO_32: int := 0x1_0000_0000

  /** The longest body of an authenticator. */
  const MAX_AUTH_BYTES: nat := 400

  type Word = w: int | 0 <= w < 0x1_0000_0000

  datatype Option<+T> = None | Some(value: T)

  /** The value that `ntohl` reads from four octets, the most significant first. */
  function GetWord(s: seq<Byte>): Word
    requires |s| == 4
  {
    s[0] as int * 0x100_0000 + s[1] as int * 0x1_0000 + s[2] as int * 256 + s[3] as int
  }

  /** The four octets that `htonl` leaves in memory for `w`: those that `ntohl` reads as `w`. */
  function PutWord(w: Word): (s: seq<Byte>)
    ensures |s| == 4
  {
    Representable(w);
    var s: seq<Byte> :| |s| == 4 && GetWord(s) == w;
    s
  }

  lemma {:induction false} Representable(w: Word)
    ensures exists s: seq<Byte> :: |s| == 4 && GetWord(s) == w
    ensures forall s: seq<Byte>, t: seq<Byte> :: |s| == 4 && |t| == 4 && GetWord(s) == w && GetWord(t) == w ==> s == t
  {
    var a, b, c := w / 0x100_0000, w / 0x1_0000, w / 256;
    assert b == a * 256 + b % 256;
    assert c == b * 256 + c % 256;
    var s: seq<Byte> := [a, b % 256, c % 256, w % 256];
    assert GetWord(s) == w;
    forall s: seq<Byte>, t: seq<Byte> | |s| == 4 && |t| == 4 && GetWord(s) == w && GetWord(t) == w ensures s == t {
      SameOctets(s, t);
    }
  }

  lemma {:induction false} SameOctets(s: seq<Byte>, t: seq<Byte>)
    requires |s| == 4 && |t| == 4 && GetWord(s) == GetWord(t)
    ensures s == t
  {
    var s1, t1 := s[1] as int + 256 * s[0] as int, t[1] as int + 256 * t[0] as int;
    LowOctet(s[3], t[3], s[2] as int + 256 * s1, t[2] as int + 256 * t1);
    LowOctet(s[2], t[2], s1, t1);
    LowOctet(s[1], t[1], s[0] as int, t[0] as int);
  }

  lemma {:induction false} LowOctet(d: Byte, d': Byte, r: int, r': int)
    requires d as int + 0x100 * r == d' as int + 0x100 * r'
    ensures d == d' && r == r'
  {
  }

  lemma {:induction false} WordRoundTrip(w: Word)
    ensures GetWord(PutWord(w)) == w
  {
    Representable(w);
  }

  lemma {:induction false} WordOnto(s: seq<Byte>)
    requires |s| == 4
    ensures PutWord(GetWord(s)) == s
  {
    WordRoundTrip(GetWord(s));
    SameOctets(PutWord(GetWord(s)), s);
  }

  /** `RNDUP`: the next multiple of four. */
  function RoundUp(n: nat): (r: nat)
    ensures n <= r < n + 4
  {
    (n + 3) / 4 * 4
  }

  function Zeros(n: nat): (s: seq<Byte>)
    ensures |s| == n && forall i :: 0 <= i < n ==> s[i] == 0
  {
    seq(n, i => 0)
  }

  lemma {:induction false} Associative<T>(a: seq<T>, b: seq<T>, c: seq<T>)
    ensures a + b + c == a + (b + c)
  {
  }

  /** A slice of a slice. */
  lemma {:induction false} Reslice<T>(s: seq<T>, lo: nat, n: nat, hi: nat)
    requires lo + n <= hi <= |s|
    ensures s[lo..hi][..n] == s[lo..lo + n] && s[lo..hi][n..] == s[lo + n..hi]
  {
  }
}
