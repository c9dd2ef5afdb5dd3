/** UNIX credentials: the server's unrolled decoder against the filter procedure for them. */
module UnixCred {
  import opened Bytes
  import opened Xdr

  const MAX_MACHINE_NAME: nat := 255
  const NGRPS: nat := 16

  datatype Parms = Parms(time: Word, machName: seq<Byte>, uid: int, gid: int, gids: seq<int>)

  /** `xdr_authunix_parms`. */
  function ParmsFilter(): Filter {
    Struct([Basic(ULong), CString(MAX_MACHINE_NAME), Basic(Long), Basic(Long), Array(NGRPS, Basic(Long))])
  }

  function Ints(xs: seq<int>): (vs: seq<Value>)
    ensures |vs| == |xs|
  {
    seq(|xs|, i requires 0 <= i < |xs| => VInt(xs[i]))
  }

  function ParmsValue(p: Parms): Value {
    VSeq([VInt(p.time), VBytes(p.machName), VInt(p.uid), VInt(p.gid), VSeq(Ints(p.gids))])
  }

  function WordAt(s: seq<Byte>, at: nat): Word
    requires at + 4 <= |s|
  {
    GetWord(s[at..at + 4])
  }

  /** The first `n` words of `s`, signed. */
  function FirstInts(s: seq<Byte>, n: nat): (r: seq<int>)
    requires 4 * n <= |s|
    ensures |r| == n
  {
    seq(n, i requires 0 <= i < n => ToSigned(WordAt(s, 4 * i)))
  }

  /** What the credential bytes mean, by position. */
  function Meaning(s: seq<Byte>): Option<Parms> {
    if |s| < 8 || WordAt(s, 4) > MAX_MACHINE_NAME then None else
      var n := WordAt(s, 4);
      var p := 8 + RoundUp(n);
      if |s| < p + 12 || WordAt(s, p + 8) > NGRPS then None else
        var g := WordAt(s, p + 8);
        if |s| < p + 12 + 4 * g then None else
          Some(Parms(WordAt(s, 0), UpToNul(s[8..8 + n]), ToSigned(WordAt(s, p)), ToSigned(WordAt(s, p + 4)),
                     FirstInts(s[p + 12..], g)))
  }

  // ---------------------------------------------------------------- the filter procedure

  lemma {:induction false} GidsDecode(s: seq<Byte>, n: nat)
    ensures DecodeItems([], 0, Basic(Long), n, s)
         == if |s| < 4 * n then None else Some((Ints(FirstInts(s, n)), s[4 * n..]))
  {
    if n == 0 {
      assert s[0..] == s && Ints(FirstInts(s, 0)) == [];
    } else if |s| >= 4 {
      GidsDecode(s[4..], n - 1);
      if |s[4..]| >= 4 * (n - 1) {
        OneMore(s, n);
      }
    }
  }

  lemma {:induction false} OneMore(s: seq<Byte>, n: nat)
    requires 0 < n && 4 * n <= |s|
    ensures Ints(FirstInts(s, n)) == [VInt(ToSigned(GetWord(s[..4])))] + Ints(FirstInts(s[4..], n - 1))
    ensures s[4..][4 * (n - 1)..] == s[4 * n..]
  {
    assert s[..4] == s[0..4];
    forall i | 0 <= i < n - 1 ensures WordAt(s[4..], 4 * i) == WordAt(s, 4 * (i + 1)) {
      assert s[4..][4 * i..4 * i + 4] == s[4 * (i + 1)..4 * (i + 1) + 4];
    }
  }

  /** The two numbers and the groups at the end. */
  function Tail(): seq<Filter> {
    [Basic(Long), Basic(Long), Array(NGRPS, Basic(Long))]
  }

  lemma {:induction false} FieldFirst(f: Filter, fs: seq<Filter>, s: seq<Byte>)
    requires FieldsInScope([], 0, [f] + fs)
    ensures InScope([], 0, f) && FieldsInScope([], 0, fs)
    ensures var x := Decode([], 0, f, s);
            DecodeFields([], 0, [f] + fs, s)
            == if x == None then None
               else var r := DecodeFields([], 0, fs, x.value.1);
                    if r == None then None else Some(([x.value.0] + r.value.0, r.value.1))
  {
    assert ([f] + fs)[1..] == fs;
  }

  lemma {:induction false} GroupsDecode(s: seq<Byte>)
    ensures var r := Decode([], 0, Array(NGRPS, Basic(Long)), s);
            && (r.Some? <==> |s| >= 4 && WordAt(s, 0) <= NGRPS && |s[4..]| >= 4 * WordAt(s, 0) as int)
            && (r.Some? ==> r.value.0 == VSeq(Ints(FirstInts(s[4..], WordAt(s, 0)))))
  {
    if |s| >= 4 {
      assert s[..4] == s[0..4];
      GidsDecode(s[4..], WordAt(s, 0));
    }
  }

  lemma {:induction false} TailDecode(s: seq<Byte>)
    ensures var r := DecodeFields([], 0, Tail(), s);
            && (r.Some? <==> |s| >= 12 && WordAt(s, 8) <= NGRPS && |s[12..]| >= 4 * WordAt(s, 8) as int)
            && (r.Some? ==> r.value.0 == [VInt(ToSigned(WordAt(s, 0))), VInt(ToSigned(WordAt(s, 4))),
                                          VSeq(Ints(FirstInts(s[12..], WordAt(s, 8))))])
  {
    var groups := Array(NGRPS, Basic(Long));
    EachScoped(Tail(), 0, 0);
    assert Tail() == [Basic(Long)] + ([Basic(Long)] + ([groups] + []));
    FieldFirst(Basic(Long), [Basic(Long)] + ([groups] + []), s);
    if |s| >= 4 {
      FieldFirst(Basic(Long), [groups] + [], s[4..]);
      if |s| >= 8 {
        assert s[..4] == s[0..4] && s[4..][..4] == s[4..8] && s[4..][4..] == s[8..];
        FieldFirst(groups, [], s[8..]);
        GroupsDecode(s[8..]);
        if |s| >= 12 {
          assert s[8..][0..4] == s[8..12] && s[8..][4..] == s[12..];
        }
      }
    }
  }

  lemma {:induction false} NameDecode(s: seq<Byte>)
    ensures Decode([], 0, CString(MAX_MACHINE_NAME), s)
         == if |s| < 4 || WordAt(s, 0) > MAX_MACHINE_NAME || |s[4..]| < RoundUp(WordAt(s, 0)) then None
            else Some((VBytes(UpToNul(s[4..][..WordAt(s, 0)])), s[4..][RoundUp(WordAt(s, 0))..]))
  {
    if |s| >= 4 {
      assert s[..4] == s[0..4];
    }
  }

  /** The filter procedure accepts exactly the bytes that have a meaning, and gives that meaning. */
  lemma {:induction false} FilterMeaning(s: seq<Byte>)
    ensures InScope([], 0, ParmsFilter())
    ensures var r := Decode([], 0, ParmsFilter(), s);
            && (r.Some? <==> Meaning(s).Some?)
            && (r.Some? ==> r.value.0 == ParmsValue(Meaning(s).value))
  {
    var name := CString(MAX_MACHINE_NAME);
    EachScoped(ParmsFilter().fields, 0, 0);
    assert ParmsFilter().fields == [Basic(ULong)] + ([name] + Tail());
    FieldFirst(Basic(ULong), [name] + Tail(), s);
    if |s| >= 4 {
      assert s[..4] == s[0..4];
      FieldFirst(name, Tail(), s[4..]);
      NameDecode(s[4..]);
      if |s| >= 8 {
        assert s[4..][0..4] == s[4..8] && s[4..][4..] == s[8..];
        NameThenTail(s);
      }
    }
  }

  /** What the name and the rest come to, by position. */
  lemma {:induction false} NameThenTail(s: seq<Byte>)
    requires |s| >= 8
    ensures var n := WordAt(s, 4);
            n <= MAX_MACHINE_NAME && |s[8..]| >= RoundUp(n) ==>
              var r := DecodeFields([], 0, Tail(), s[8..][RoundUp(n)..]);
              && (r.Some? <==> Meaning(s).Some?)
              && (r.Some? ==>
                    ParmsValue(Meaning(s).value).items
                    == [VInt(WordAt(s, 0))] + ([VBytes(UpToNul(s[8..][..n]))] + r.value.0))
  {
    var n := WordAt(s, 4);
    if n <= MAX_MACHINE_NAME && |s[8..]| >= RoundUp(n) {
      var p := 8 + RoundUp(n);
      assert s[8..][RoundUp(n)..] == s[p..] && s[8..][..n] == s[8..8 + n];
      TailDecode(s[p..]);
      if |s[p..]| >= 12 {
        TailAt(s, p);
      }
    }
  }

  lemma {:induction false} TailAt(s: seq<Byte>, p: nat)
    requires p + 12 <= |s|
    ensures WordAt(s[p..], 0) == WordAt(s, p) && WordAt(s[p..], 4) == WordAt(s, p + 4)
    ensures WordAt(s[p..], 8) == WordAt(s, p + 8) && s[p..][12..] == s[p + 12..]
  {
    assert s[p..][0..4] == s[p..p + 4] && s[p..][4..8] == s[p + 4..p + 8] && s[p..][8..12] == s[p + 8..p + 12];
  }

  // ---------------------------------------------------------------- the unrolled decoder

  /** The furthest byte the decoder may look at, whatever the credential says. */
  const REACH: nat := 340

  /** `IXDR_GET_LONG` at a place within reach. */
  function Look(area: seq<Byte>, at: nat): Word
    requires at + 4 <= REACH <= |area|
  {
    WordAt(area, at)
  }

  /** The place of the user's number, behind a name that is not too long. */
  function AfterName(area: seq<Byte>): (p: nat)
    requires REACH <= |area| && Look(area, 4) <= MAX_MACHINE_NAME
    ensures 8 <= p <= 8 + 256
  {
    8 + RoundUp(Look(area, 4))
  }

  /** The credential in place, at the front of the area, with such groups as it is found to have. */
  function WithGroups(area: seq<Byte>, gids: Option<seq<int>>): Option<Parms>
    requires REACH <= |area| && (gids.Some? ==> Look(area, 4) <= MAX_MACHINE_NAME)
  {
    if gids == None then None else
      var n, p := Look(area, 4), AfterName(area);
      Some(Parms(Look(area, 0), UpToNul(area[8..8 + n]), ToSigned(Look(area, p)), ToSigned(Look(area, p + 4)),
                 gids.value))
  }

  /** The groups at the end of a credential, if it is long enough for them. */
  function Groups(area: seq<Byte>, authLen: nat, p: nat): Option<seq<int>>
    requires p <= 8 + 256 && REACH <= |area| && authLen <= |area|
  {
    var g := Look(area, p + 8);
    if g > NGRPS || authLen < p + 12 + 4 * g then None else Some(FirstInts(area[p + 12..], g))
  }

  function MeaningInPlace(area: seq<Byte>, authLen: nat): Option<Parms>
    requires REACH <= |area| && authLen <= |area|
  {
    if authLen < 8 || Look(area, 4) > MAX_MACHINE_NAME then None
    else WithGroups(area, Groups(area, authLen, AfterName(area)))
  }

  lemma {:induction false} InPlace(area: seq<Byte>, authLen: nat)
    requires REACH <= |area| && authLen <= |area|
    ensures Meaning(area[..authLen]) == MeaningInPlace(area, authLen)
  {
    if authLen >= 8 {
      Same(area, authLen, 4);
      if Look(area, 4) <= MAX_MACHINE_NAME && authLen >= AfterName(area) + 12 {
        var n, p := Look(area, 4), AfterName(area);
        Same(area, authLen, 0);
        SameBytes(area, authLen, 8, n);
        IdsInPlace(area, authLen, p);
      }
    }
  }

  lemma {:induction false} IdsInPlace(area: seq<Byte>, authLen: nat, p: nat)
    requires p + 12 <= authLen <= |area|
    ensures WordAt(area[..authLen], p) == WordAt(area, p) && WordAt(area[..authLen], p + 4) == WordAt(area, p + 4)
    ensures var g: int := WordAt(area, p + 8);
            && WordAt(area[..authLen], p + 8) == g
            && (authLen >= p + 12 + 4 * g ==>
                  FirstInts(area[..authLen][p + 12..], g) == FirstInts(area[p + 12..], g))
  {
    Same(area, authLen, p);
    Same(area, authLen, p + 4);
    Same(area, authLen, p + 8);
    var g: int := WordAt(area, p + 8);
    if authLen >= p + 12 + 4 * g {
      SameInts(area, authLen, p + 12, g);
    }
  }

  lemma {:induction false} SameBytes(area: seq<Byte>, authLen: nat, at: nat, n: nat)
    requires at + n <= authLen <= |area|
    ensures area[..authLen][at..at + n] == area[at..at + n]
  {
  }

  lemma {:induction false} Same(area: seq<Byte>, authLen: nat, at: nat)
    requires at + 4 <= authLen <= |area|
    ensures WordAt(area[..authLen], at) == WordAt(area, at)
  {
    assert area[..authLen][at..at + 4] == area[at..at + 4];
  }

  /** Words behind a place, by their own places. */
  lemma {:induction false} IntsAt(s: seq<Byte>, at: nat, n: nat)
    requires at + 4 * n <= |s|
    ensures forall j :: 0 <= j < n ==> FirstInts(s[at..], n)[j] == ToSigned(WordAt(s, at + 4 * j))
  {
    forall j | 0 <= j < n ensures WordAt(s[at..], 4 * j) == WordAt(s, at + 4 * j) {
      WordBehind(s, at, 4 * j);
    }
  }

  lemma {:induction false} WordBehind(s: seq<Byte>, at: nat, k: nat)
    requires at + k + 4 <= |s|
    ensures WordAt(s[at..], k) == WordAt(s, at + k)
  {
    assert s[at..][k..k + 4] == s[at + k..at + k + 4];
  }

  lemma {:induction false} SameInts(area: seq<Byte>, authLen: nat, at: nat, n: nat)
    requires at + 4 * n <= authLen <= |area|
    ensures FirstInts(area[..authLen][at..], n) == FirstInts(area[at..], n)
  {
    IntsAt(area[..authLen], at, n);
    IntsAt(area, at, n);
    forall j | 0 <= j < n ensures WordAt(area[..authLen], at + 4 * j) == WordAt(area, at + 4 * j) {
      Same(area, authLen, at + 4 * j);
    }
  }

  /** The length that the decoder computes for the credential, in 32 bits. */
  function Computed(groups: Word, padded: nat): Word {
    ((5 + groups) * 4 + padded) % TWO_TO_32
  }

  /** The groups that the decoder takes the credential to have. */
  function GroupsInPlace(area: seq<Byte>, authLen: nat, p: nat): Option<seq<int>>
    requires 8 <= p <= 8 + 256 && REACH <= |area| && authLen <= |area|
  {
    var g := Look(area, p + 8);
    if g < TWO_TO_31 then Groups(area, authLen, p)
    else if Computed(g, p - 8) <= authLen then Some([])
    else None
  }

  /** The number of groups is negative as an `int`, and the computed length comes out small enough. */
  predicate Wraps(area: seq<Byte>, authLen: nat)
    requires REACH <= |area|
  {
    Look(area, 4) <= MAX_MACHINE_NAME &&
    var p := AfterName(area);
    Look(area, p + 8) >= TWO_TO_31 && Computed(Look(area, p + 8), p - 8) <= authLen
  }

  /**
   * `_svcauth_unix`. The whole credential area is at hand, of which the credential is the first
   * `authLen` bytes; what lies behind is anything. The decoder reads on as its counts tell it and
   * asks only at the end whether the credential was that long. It never reads beyond the first 340
   * bytes, and gives the credential the meaning that its own bytes have, which is the filter
   * procedure's, except exactly when a negative count of groups makes the computed length wrap:
   * then it accepts what has no meaning, with no groups and that count. `len` is `aup_len`.
   */
  method SvcAuthUnix(area: seq<Byte>, authLen: nat) returns (aup: Option<Parms>, len: Word)
    requires REACH <= |area| && authLen <= |area| && authLen < TWO_TO_31
    requires Look(area, 4) < TWO_TO_31
    ensures aup == Meaning(area[..authLen]) <==> !Wraps(area, authLen)
    ensures aup.Some? && !Wraps(area, authLen) ==> len == |aup.value.gids|
    ensures Wraps(area, authLen) ==>
              Meaning(area[..authLen]) == None && aup.Some? && aup.value.gids == [] && len >= TWO_TO_31
  {
    InPlace(area, authLen);
    var buf := 0;
    var time := Look(area, buf);
    var strLen := Look(area, buf + 4);
    buf := buf + 8;
    if strLen > MAX_MACHINE_NAME {
      return None, 0;
    }
    var machName := UpToNul(area[buf..buf + strLen]);
    var padded := RoundUp(strLen);
    buf := buf + padded;
    assert buf == AfterName(area);
    var uid := ToSigned(Look(area, buf));
    var gid := ToSigned(Look(area, buf + 4));
    len := Look(area, buf + 8);
    buf := buf + 12;
    var gids := CheckGroups(area, authLen, buf, len, padded);
    assert gids == GroupsInPlace(area, authLen, AfterName(area));
    if gids == None {
      return None, len;
    }
    aup := Some(Parms(time, machName, uid, gid, gids.value));
  }

  /** The number of groups, the groups, and the test on the length they all come to. */
  method CheckGroups(area: seq<Byte>, authLen: nat, buf: nat, len: Word, padded: nat) returns (gids: Option<seq<int>>)
    requires padded <= 256 && buf == 20 + padded && REACH <= |area| && authLen <= |area|
    requires len == Look(area, buf - 4)
    ensures gids == GroupsInPlace(area, authLen, buf - 12)
  {
    var gidLen := ToSigned(len);
    if gidLen > NGRPS {
      return None;
    }
    var read := ReadInts(area, buf, gidLen);
    gids := if Computed(len, padded) > authLen then None else Some(read);
  }

  /** The loop over the groups, which does nothing for a negative count. */
  method ReadInts(area: seq<Byte>, buf: nat, n: int) returns (gids: seq<int>)
    requires n <= NGRPS && buf + 4 * NGRPS <= REACH <= |area|
    ensures gids == if n >= 0 then FirstInts(area[buf..], n) else []
  {
    gids := [];
    var i := 0;
    while i < n
      invariant |gids| == i && (i == 0 || i <= n)
      invariant forall j :: 0 <= j < i ==> gids[j] == ToSigned(WordAt(area, buf + 4 * j))
    {
      gids := gids + [ToSigned(Look(area, buf + 4 * i))];
      i := i + 1;
    }
    if n >= 0 {
      IntsAt(area, buf, n);
    }
  }

  /** It can come to that: a count of -1 in a credential with no name. */
  lemma {:induction false} WrapsOnce(area: seq<Byte>)
    requires REACH <= |area| && Look(area, 4) == 0 && Look(area, 16) == TWO_TO_32 - 1
    ensures Wraps(area, 20)
  {
    assert AfterName(area) == 8;
  }
}
