/**
 * When the front of a call header decides what comes of reading all of it. A datagram that is
 * shorter than the buffer is read on into what an earlier one left there.
 */
module Leftovers {
  import opened Bytes
  import opened CallMsg

  function Ones(n: nat): (s: seq<Byte>)
    ensures |s| == n && forall i :: 0 <= i < n ==> s[i] == 255
  {
    seq(n, i => 255)
  }

  // ---------------------------------------------------------------- reading by position

  function At(s: seq<Byte>, i: nat): Word
    requires i + 4 <= |s|
  {
    GetWord(s[i..i + 4])
  }

  /** An authenticator, and where the next one is; or what being refused it costs. */
  datatype AuthRead = Refused(cost: nat) | Read(auth: Auth, next: nat)

  function AuthAt(s: seq<Byte>, i: nat): (r: AuthRead)
    requires i <= |s|
    ensures r.Read? ==> i + 8 <= r.next <= |s|
  {
    if |s| < i + 8 then Refused(4)
    else if At(s, i + 4) > MAX_AUTH_BYTES then Refused(0)
    else BodyAt(s, i, At(s, i + 4))
  }

  function BodyAt(s: seq<Byte>, i: nat, n: nat): (r: AuthRead)
    requires i + 8 <= |s|
    ensures r.Read? ==> r.next == i + 8 + RoundUp(n) <= |s| && |r.auth.body| == n
  {
    if |s| < i + 8 + RoundUp(n) then Refused(BodyCost(n, |s| - i - 8))
    else Read(Auth(At(s, i), s[i + 8..i + 8 + n]), i + 8 + RoundUp(n))
  }

  lemma {:induction false} AuthAtIs(s: seq<Byte>, i: nat)
    requires i <= |s|
    ensures match AuthAt(s, i)
            case Refused(c) => TakeAuth(s[i..]) == None && AuthCost(s[i..]) == c
            case Read(a, next) => TakeAuth(s[i..]) == Some((a, s[next..]))
  {
    if |s| >= i + 8 {
      Reslice(s, i, 4, |s|);
      assert s[i..|s|] == s[i..];
      assert s[i..][4..8] == s[i + 4..i + 8];
      var n := At(s, i + 4);
      if n <= MAX_AUTH_BYTES && |s| >= i + 8 + RoundUp(n) {
        assert s[i..][8..8 + n] == s[i + 8..i + 8 + n];
        assert s[i..][8 + RoundUp(n)..] == s[i + 8 + RoundUp(n)..];
      }
    }
  }

  /** What comes of a call once the words in front are right. */
  function Rest(s: seq<Byte>): (Option<Msg>, nat)
    requires |s| >= 24
  {
    match AuthAt(s, 24)
    case Refused(c) => (None, c)
    case Read(cred, next) => Last(s, cred, next)
  }

  function Last(s: seq<Byte>, cred: Auth, i: nat): (Option<Msg>, nat)
    requires 24 <= i <= |s|
  {
    match AuthAt(s, i)
    case Refused(c) => (None, c)
    case Read(verf, _) =>
      (Some(Msg(GetWord(s[..4]), CALL, RPC_MSG_VERSION, At(s, 12), At(s, 16), At(s, 20), cred, verf)), 0)
  }

  lemma {:induction false} OutcomeIs(s: seq<Byte>)
    ensures Outcome(s) == if HeadIsCall(s) then Rest(s) else (None, HeadCost(s))
  {
    if HeadIsCall(s) {
      AuthAtIs(s, 24);
      if AuthAt(s, 24).Read? {
        AuthAtIs(s, AuthAt(s, 24).next);
      }
    }
  }

  // ---------------------------------------------------------------- filling up

  /** `z`, `x` and `o` agree in the first `q` bytes, and go on with zeros, anything, and 255s. */
  ghost predicate Fills(q: nat, z: seq<Byte>, x: seq<Byte>, o: seq<Byte>) {
    && q <= |z| == |x| == |o|
    && (forall i :: 0 <= i < q ==> z[i] == x[i] == o[i])
    && (forall i :: q <= i < |z| ==> z[i] == 0 && o[i] == 255)
  }

  /** A length that is not all there: zeros make it least, and 255s make it at least 255 more. */
  lemma {:induction false} WordMissing(q: nat, z: seq<Byte>, x: seq<Byte>, o: seq<Byte>, i: nat)
    requires Fills(q, z, x, o) && q < i + 4 <= |z|
    ensures At(z, i) <= At(x, i) && At(o, i) >= At(z, i) + 255
    ensures At(z, i) <= MAX_AUTH_BYTES ==> At(z, i) == 0 || At(o, i) > MAX_AUTH_BYTES
    ensures At(o, i) <= MAX_AUTH_BYTES ==> At(o, i) == 255
  {
  }

  lemma {:induction false} WordThere(q: nat, z: seq<Byte>, x: seq<Byte>, o: seq<Byte>, i: nat)
    requires Fills(q, z, x, o) && i + 4 <= q
    ensures At(z, i) == At(x, i) == At(o, i)
  {
    assert z[i..i + 4] == x[i..i + 4] == o[i..i + 4];
  }

  lemma {:induction false} HeadThere(q: nat, z: seq<Byte>, x: seq<Byte>, o: seq<Byte>)
    requires Fills(q, z, x, o) && q >= 12
    ensures HeadIsCall(z) == HeadIsCall(x) == HeadIsCall(o) && HeadCost(z) == HeadCost(x) == HeadCost(o)
  {
    WordThere(q, z, x, o, 4);
    WordThere(q, z, x, o, 8);
  }

  /** Filled with zeros, an authenticator that is not there at all is an empty one. */
  lemma {:induction false} LastOfZeros(q: nat, z: seq<Byte>, cred: Auth, i: nat)
    requires 24 <= i <= |z| && q <= i && forall j :: q <= j < |z| ==> z[j] == 0
    ensures if |z| < i + 8 then Last(z, cred, i) == (None, 4) else Last(z, cred, i).0.Some?
  {
    assert i + 8 <= |z| ==> At(z, i + 4) == 0;
  }

  /** Filled with 255s, it is too long. */
  lemma {:induction false} LastOfOnes(q: nat, o: seq<Byte>, cred: Auth, i: nat)
    requires 24 <= i <= |o| && q <= i && forall j :: q <= j < |o| ==> o[j] == 255
    ensures Last(o, cred, i).0 == None
  {
    assert i + 8 <= |o| ==> At(o, i + 4) == 0xFFFF_FFFF;
  }

  /** The length of the credentials is not all there. */
  lemma {:induction false} CredMissing(q: nat, z: seq<Byte>, x: seq<Byte>, o: seq<Byte>)
    requires Fills(q, z, x, o) && q < 32 <= |z|
    ensures if At(z, 28) > MAX_AUTH_BYTES then Rest(z) == Rest(x) == Rest(o) == (None, 0) else Rest(z) != Rest(o)
  {
    WordMissing(q, z, x, o, 28);
    if At(z, 28) <= MAX_AUTH_BYTES {
      if AuthAt(z, 24).Read? {
        LastOfZeros(q, z, AuthAt(z, 24).auth, AuthAt(z, 24).next);
      }
      if AuthAt(o, 24).Read? {
        LastOfOnes(q, o, AuthAt(o, 24).auth, AuthAt(o, 24).next);
      }
    }
  }

  /** The length of the verifier is not all there. */
  lemma {:induction false} VerfMissing(q: nat, z: seq<Byte>, x: seq<Byte>, o: seq<Byte>, cz: Auth, cx: Auth, co: Auth,
                                       i: nat)
    requires Fills(q, z, x, o) && 24 <= i && q < i + 8 <= |z|
    ensures if At(z, i + 4) > MAX_AUTH_BYTES then Last(z, cz, i) == Last(x, cx, i) == Last(o, co, i) == (None, 0)
            else Last(z, cz, i) != Last(o, co, i)
  {
    WordMissing(q, z, x, o, i + 4);
  }

  /** The length of an authenticator is there: it is refused the same way, or ends at the same place. */
  lemma {:induction false} AuthEnds(q: nat, z: seq<Byte>, x: seq<Byte>, o: seq<Byte>, i: nat)
    requires Fills(q, z, x, o) && (i + 8 <= q || i <= |z| < i + 8)
    ensures var (a, b, c) := (AuthAt(z, i), AuthAt(x, i), AuthAt(o, i));
            if a.Refused? then a == b == c else b.Read? && c.Read? && a.next == b.next == c.next
  {
    if i + 8 <= q {
      WordThere(q, z, x, o, i + 4);
    }
  }

  /** If it is the same filled up with zeros and with 255s, no byte of it is missing. */
  lemma {:induction false} AuthThere(q: nat, z: seq<Byte>, x: seq<Byte>, o: seq<Byte>, i: nat)
    requires Fills(q, z, x, o) && i + 8 <= q && AuthAt(z, i) == AuthAt(o, i)
    ensures AuthAt(x, i) == AuthAt(z, i)
  {
    WordThere(q, z, x, o, i);
    WordThere(q, z, x, o, i + 4);
    if AuthAt(z, i).Read? {
      var n := At(z, i + 4);
      forall j | i + 8 <= j < i + 8 + n ensures z[j] == x[j] {
        assert z[i + 8..i + 8 + n][j - i - 8] == o[i + 8..i + 8 + n][j - i - 8];
      }
      assert z[i + 8..i + 8 + n] == x[i + 8..i + 8 + n];
    }
  }

  /** Nothing of it is missing if the next authenticator begins in what is there. */
  lemma {:induction false} AuthBefore(q: nat, z: seq<Byte>, x: seq<Byte>, o: seq<Byte>, i: nat)
    requires Fills(q, z, x, o) && i + 8 <= q && AuthAt(z, i).Read? && AuthAt(z, i).next <= q
    ensures AuthAt(z, i) == AuthAt(x, i) == AuthAt(o, i)
  {
    WordThere(q, z, x, o, i);
    WordThere(q, z, x, o, i + 4);
    var n := At(z, i + 4);
    assert z[i + 8..i + 8 + n] == x[i + 8..i + 8 + n] == o[i + 8..i + 8 + n];
  }

  lemma {:induction false} WordsThere(q: nat, z: seq<Byte>, x: seq<Byte>, o: seq<Byte>)
    requires Fills(q, z, x, o) && q >= 24
    ensures z[..4] == x[..4] == o[..4] && At(z, 12) == At(x, 12) == At(o, 12)
    ensures At(z, 16) == At(x, 16) == At(o, 16) && At(z, 20) == At(x, 20) == At(o, 20)
  {
    WordThere(q, z, x, o, 12);
    WordThere(q, z, x, o, 16);
    WordThere(q, z, x, o, 20);
  }

  /** The verifier begins at `i`, behind credentials that are there as far as they matter. */
  lemma {:induction false} LastSame(q: nat, z: seq<Byte>, x: seq<Byte>, o: seq<Byte>, i: nat)
    requires Fills(q, z, x, o) && q >= 32
    requires AuthAt(z, 24).Read? && AuthAt(x, 24).Read? && AuthAt(o, 24).Read?
    requires i == AuthAt(z, 24).next == AuthAt(x, 24).next == AuthAt(o, 24).next
    requires Last(z, AuthAt(z, 24).auth, i) == Last(o, AuthAt(o, 24).auth, i)
    ensures Last(x, AuthAt(x, 24).auth, i) == Last(z, AuthAt(z, 24).auth, i)
  {
    if q < i + 8 <= |z| {
      VerfMissing(q, z, x, o, AuthAt(z, 24).auth, AuthAt(x, 24).auth, AuthAt(o, 24).auth, i);
    } else {
      AuthEnds(q, z, x, o, i);
      if AuthAt(z, i).Read? {
        AuthBefore(q, z, x, o, 24);
        AuthThere(q, z, x, o, i);
        WordsThere(q, z, x, o);
      }
    }
  }

  lemma {:induction false} RestSame(q: nat, z: seq<Byte>, x: seq<Byte>, o: seq<Byte>)
    requires Fills(q, z, x, o) && |z| >= 24 && Rest(z) == Rest(o)
    ensures Rest(x) == Rest(z)
  {
    if q < 32 <= |z| {
      CredMissing(q, z, x, o);
    } else {
      AuthEnds(q, z, x, o, 24);
      if AuthAt(z, 24).Read? {
        LastSame(q, z, x, o, AuthAt(z, 24).next);
      }
    }
  }

  /**
   * At least four words of a datagram are there. If it comes to the same filled up with zeros and
   * filled up with 255s, it comes to that whatever it is filled up with.
   */
  lemma {:induction false} TwoFillsDecide(d: seq<Byte>, t: seq<Byte>)
    requires |d| >= 16 && Outcome(d + Zeros(|t|)) == Outcome(d + Ones(|t|))
    ensures Outcome(d + t) == Outcome(d + Zeros(|t|))
  {
    var z, x, o := d + Zeros(|t|), d + t, d + Ones(|t|);
    assert Fills(|d|, z, x, o);
    HeadThere(|d|, z, x, o);
    OutcomeIs(z);
    OutcomeIs(x);
    OutcomeIs(o);
    if HeadIsCall(z) {
      RestSame(|d|, z, x, o);
    }
  }

  /** A buffer that begins with a call without authenticators, all of whose numbers are zero. */
  function QuietCall(n: nat): (s: seq<Byte>)
    ensures |s| == n && forall i :: 0 <= i < n ==> s[i] == if i == 11 then 2 else 0
  {
    seq(n, i => if i == 11 then 2 else 0)
  }

  /** Where two words can be read, it depends on them what comes of it. */
  lemma {:induction false} NothingDecides(n: nat)
    ensures n < 8 ==> forall s: seq<Byte> :: |s| == n ==> Outcome(s) == (None, 4)
    ensures n >= 8 ==> Outcome(QuietCall(n)) != Outcome(Ones(n))
  {
    if n >= 8 {
      var s := QuietCall(n);
      OutcomeIs(s);
      OutcomeIs(Ones(n));
      assert n >= 12 ==> GetWord(s[8..12]) == RPC_MSG_VERSION;
      if HeadIsCall(s) && AuthAt(s, 24).Read? {
        LastOfZeros(12, s, AuthAt(s, 24).auth, AuthAt(s, 24).next);
      }
    }
  }
}
