/**
 * External data representation: what each filter procedure of the library puts on the wire and
 * takes off it. Sections 4.1 to 4.19 of RFC 4506.
 */
module Xdr {
  import opened Bytes

  /** The scalar filters; `int` and `long` are both 32 bits wide. */
  datatype Scalar = Long | ULong | Short | UShort | Char | UChar | Bool | Enum

  datatype Filter =
    | Basic(kind: Scalar)
    | Void
    | Opaque(size: nat)
    | CountedBytes(max: Word)
    | CString(max: Word)
    | Vector(count: nat, elem: Filter)
    | Array(max: Word, elem: Filter)
    | Pointer(obj: Filter)
    | Struct(fields: seq<Filter>)
    | Union(kind: Scalar, arms: seq<Arm>, dflt: Option<Filter>)    // `xdr_union` itself has `Enum`
    | Named(id: nat)

  /** One entry of a union's list of choices. */
  datatype Arm = Arm(value: int, body: Filter)

  datatype Value =
    | VVoid
    | VInt(i: int)
    | VBytes(bytes: seq<Byte>)
    | VSeq(items: seq<Value>)
    | VNull
    | VPtr(target: Value)
    | VUnion(discriminant: int, arm: Value)

  /** The procedures that filters may call by number, each for one defined type. */
  type Env = e: seq<Filter> | WellFormed(e) witness []

  // ---------------------------------------------------------------- scalars

  /** A C integer as a 32-bit word, negative ones in two's complement. */
  function ToWord(i: int): Word
    requires -TWO_TO_31 <= i < TWO_TO_32
  {
    if i >= 0 then i else i + TWO_TO_32
  }

  function ToSigned(w: Word): (i: int)
    ensures -TWO_TO_31 <= i < TWO_TO_31 && ToWord(i) == w
  {
    if w < TWO_TO_31 then w else w - TWO_TO_32
  }

  predicate InRange(k: Scalar, i: int) {
    match k
    case Long => -TWO_TO_31 <= i < TWO_TO_31
    case Enum => -TWO_TO_31 <= i < TWO_TO_31
    case ULong => 0 <= i < TWO_TO_32
    case Short => -0x8000 <= i < 0x8000
    case UShort => 0 <= i < 0x1_0000
    case Char => -128 <= i < 128
    case UChar => 0 <= i < 256
    case Bool => 0 <= i < 2
  }

  /** The value of a signed `char` that holds the low-order eight bits of `i`. */
  function SignedChar(i: int): (c: int)
    ensures -128 <= c < 128
  {
    if i % 256 < 128 then i % 256 else i % 256 - 256
  }

  /** The word that goes on the wire. Both byte filters read their object through a `char *`. */
  function PutScalar(k: Scalar, i: int): Word
    requires InRange(k, i)
  {
    if k == Char || k == UChar then ToWord(SignedChar(i)) else ToWord(i)
  }

  /** The C value the word becomes: narrower types keep its low-order bits. */
  function GetScalar(k: Scalar, w: Word): (i: int)
    ensures InRange(k, i)
  {
    match k
    case Long => ToSigned(w)
    case Enum => ToSigned(w)
    case ULong => w
    case Short => if w % 0x1_0000 < 0x8000 then w % 0x1_0000 else w % 0x1_0000 - 0x1_0000
    case UShort => w % 0x1_0000
    case Char => SignedChar(w)
    case UChar => w % 256
    case Bool => if w == 0 then 0 else 1
  }

  /** The low-order bits of a word that a narrower type keeps. */
  lemma {:induction false} LowOrder(w: Word, x: int)
    ensures w == x + 0xFFFF * 0x1_0000 && 0 <= x < 0x1_0000 ==> w % 0x1_0000 == x
    ensures w == x + 0xFF_FFFF * 256 && 0 <= x < 256 ==> w % 256 == x
  {
  }

  lemma {:induction false} ScalarRoundTrip(k: Scalar, i: int)
    requires InRange(k, i)
    ensures GetScalar(k, PutScalar(k, i)) == i
  {
    var w := PutScalar(k, i);
    match k {
      case Short => if i < 0 { LowOrder(w, i + 0x1_0000); }
      case Char => if i < 0 { LowOrder(w, i + 256); }
      case UChar => if i >= 128 { LowOrder(w, i); }
      case _ =>
    }
  }

  /**
   * RFC 4506 puts an unsigned value on the wire as itself. Of all the scalar filters only
   * `xdr_u_char` departs from that, and it does so exactly for bytes with the top bit set.
   */
  lemma {:induction false} WireWordIsValue(k: Scalar, i: int)
    requires InRange(k, i)
    ensures PutScalar(k, i) == i % TWO_TO_32 <==> !(k == UChar && i >= 128)
  {
    if k == UChar && i >= 128 {
      assert PutScalar(k, i) == i - 256 + TWO_TO_32;
    }
  }

  // ---------------------------------------------------------------- scoping

  /**
   * `f` refers only to procedures below `level`, except behind a pointer or a counted array.
   * No C object has 2^31 bytes or more.
   */
  predicate Scoped(f: Filter, level: nat, size: nat)
    decreases f
  {
    match f
    case Named(id) => id < level
    case Vector(_, e) => Scoped(e, level, size)
    case Array(_, e) => Scoped(e, size, size)
    case Pointer(o) => Scoped(o, size, size)
    case Struct(fs) => AllScoped(fs, level, size)
    case Opaque(n) => n < TWO_TO_31
    case Union(_, arms, d) =>
      && (forall i :: 0 <= i < |arms| ==> Scoped(arms[i].body, level, size))
      && (d.Some? ==> Scoped(d.value, level, size))
    case _ => true
  }

  predicate AllScoped(fs: seq<Filter>, level: nat, size: nat)
    decreases fs
  {
    fs == [] || (Scoped(fs[0], level, size) && AllScoped(fs[1..], level, size))
  }

  lemma {:induction false} EachScoped(fs: seq<Filter>, level: nat, size: nat)
    requires forall i :: 0 <= i < |fs| ==> Scoped(fs[i], level, size)
    ensures AllScoped(fs, level, size)
  {
    if fs != [] {
      EachScoped(fs[1..], level, size);
    }
  }

  /** Each type is complete before it is embedded in another, as C demands of declarations. */
  predicate WellFormed(env: seq<Filter>) {
    forall i :: 0 <= i < |env| ==> Scoped(env[i], i, |env|)
  }

  predicate InScope(env: Env, level: nat, f: Filter) {
    level <= |env| && Scoped(f, level, |env|)
  }

  predicate FieldsInScope(env: Env, level: nat, fs: seq<Filter>) {
    level <= |env| && AllScoped(fs, level, |env|)
  }

  /** The arm that `xdr_union` runs: the first with this value, else the default if there is one. */
  function Select(arms: seq<Arm>, dflt: Option<Filter>, d: int): (r: Option<Filter>)
  {
    if arms == [] then dflt
    else if arms[0].value == d then Some(arms[0].body)
    else Select(arms[1..], dflt, d)
  }

  lemma {:induction false} SelectScoped(arms: seq<Arm>, dflt: Option<Filter>, d: int, level: nat, size: nat)
    requires Scoped(Union(Enum, arms, dflt), level, size)
    ensures Select(arms, dflt, d).Some? ==> Scoped(Select(arms, dflt, d).value, level, size)
  {
    if arms != [] && arms[0].value != d {
      SelectScoped(arms[1..], dflt, d, level, size);
    }
  }

  /** A union accepts a discriminant exactly when it has a case for it or a default. */
  lemma {:induction false} SelectSucceeds(arms: seq<Arm>, dflt: Option<Filter>, d: int)
    ensures Select(arms, dflt, d).Some? <==> dflt.Some? || exists i :: 0 <= i < |arms| && arms[i].value == d
  {
    if arms != [] {
      SelectSucceeds(arms[1..], dflt, d);
      if arms[0].value != d && exists i :: 0 <= i < |arms| && arms[i].value == d {
        var i :| 0 <= i < |arms| && arms[i].value == d;
        assert arms[1..][i - 1].value == d;
      }
    }
  }

  // ---------------------------------------------------------------- values of a type

  /** `v` is a C object of the type that `f` filters. Lengths stay below 2^31. */
  ghost predicate HasType(env: Env, level: nat, f: Filter, v: Value)
    requires InScope(env, level, f)
    decreases v, level, f
  {
    match f
    case Basic(k) => v.VInt? && InRange(k, v.i)
    case Void => v == VVoid
    case Opaque(n) => v.VBytes? && |v.bytes| == n
    case CountedBytes(_) => v.VBytes? && |v.bytes| < TWO_TO_31
    case CString(_) => v.VBytes? && |v.bytes| + 1 < TWO_TO_31 && 0 !in v.bytes
    case Vector(n, e) =>
      v.VSeq? && |v.items| == n && ItemsTyped(env, level, e, v.items)
    case Array(_, e) =>
      v.VSeq? && |v.items| < TWO_TO_31 && ItemsTyped(env, |env|, e, v.items)
    case Pointer(o) => v == VNull || (v.VPtr? && HasType(env, |env|, o, v.target))
    case Struct(fs) =>
      v.VSeq? && |v.items| == |fs| && FieldsTyped(env, level, fs, v.items)
    case Union(k, arms, d) =>
      SelectScoped(arms, d, if v.VUnion? then v.discriminant else 0, level, |env|);
      && v.VUnion? && InRange(k, v.discriminant)
      && var body := Select(arms, d, v.discriminant);
         body.Some? ==> HasType(env, level, body.value, v.arm)
    case Named(id) => HasType(env, id, env[id], v)
  }

  ghost predicate ItemsTyped(env: Env, level: nat, e: Filter, vs: seq<Value>)
    requires InScope(env, level, e)
    decreases vs, level, e
  {
    vs == [] || (HasType(env, level, e, vs[0]) && ItemsTyped(env, level, e, vs[1..]))
  }

  ghost predicate FieldsTyped(env: Env, level: nat, fs: seq<Filter>, vs: seq<Value>)
    requires |fs| == |vs| && FieldsInScope(env, level, fs)
    decreases vs, level, fs
  {
    fs == [] || (HasType(env, level, fs[0], vs[0]) && FieldsTyped(env, level, fs[1..], vs[1..]))
  }

  lemma {:induction false} FieldTyped(env: Env, level: nat, fs: seq<Filter>, vs: seq<Value>, i: nat)
    requires |fs| == |vs| && FieldsInScope(env, level, fs) && FieldsTyped(env, level, fs, vs) && i < |fs|
    ensures InScope(env, level, fs[i]) && HasType(env, level, fs[i], vs[i])
  {
    if i > 0 {
      FieldTyped(env, level, fs[1..], vs[1..], i - 1);
    }
  }

  /** `xdr_opaque`: the bytes, then zeros up to a whole unit. */
  function Padded(b: seq<Byte>): (r: seq<Byte>)
    ensures |r| == RoundUp(|b|)
  {
    b + Zeros(RoundUp(|b|) - |b|)
  }

  /** What an encoding stream receives, or nothing when a limit or a discriminant is refused. */
  ghost function Encode(env: Env, level: nat, f: Filter, v: Value): (r: Option<seq<Byte>>)
    requires InScope(env, level, f) && HasType(env, level, f, v)
    decreases v, level, f
  {
    match f
    case Basic(k) => Some(PutWord(PutScalar(k, v.i)))
    case Void => Some([])
    case Opaque(_) => Some(Padded(v.bytes))
    case CountedBytes(max) => if |v.bytes| > max then None else Some(PutWord(|v.bytes|) + Padded(v.bytes))
    case CString(max) => if |v.bytes| > max then None else Some(PutWord(|v.bytes|) + Padded(v.bytes))
    case Vector(_, e) => EncodeItems(env, level, e, v.items)
    case Array(max, e) =>
      if |v.items| > max then None else Prefix(|v.items|, EncodeItems(env, |env|, e, v.items))
    case Pointer(o) =>
      if v == VNull then Some(PutWord(0)) else Prefix(1, Encode(env, |env|, o, v.target))
    case Struct(fs) => EncodeFields(env, level, fs, v.items)
    case Union(k, arms, d) =>
      SelectScoped(arms, d, v.discriminant, level, |env|);
      var body := Select(arms, d, v.discriminant);
      if body == None then None else Prefix(PutScalar(k, v.discriminant), Encode(env, level, body.value, v.arm))
    case Named(id) => Encode(env, id, env[id], v)
  }

  function Prefix(w: Word, r: Option<seq<Byte>>): Option<seq<Byte>> {
    if r == None then None else Some(PutWord(w) + r.value)
  }

  function Join(a: Option<seq<Byte>>, b: Option<seq<Byte>>): Option<seq<Byte>> {
    if a == None || b == None then None else Some(a.value + b.value)
  }

  ghost function EncodeItems(env: Env, level: nat, e: Filter, vs: seq<Value>): (r: Option<seq<Byte>>)
    requires InScope(env, level, e) && ItemsTyped(env, level, e, vs)
    decreases vs, level, e
  {
    if vs == [] then Some([]) else Join(Encode(env, level, e, vs[0]), EncodeItems(env, level, e, vs[1..]))
  }

  ghost function EncodeFields(env: Env, level: nat, fs: seq<Filter>, vs: seq<Value>): (r: Option<seq<Byte>>)
    requires |fs| == |vs| && FieldsInScope(env, level, fs)
    requires FieldsTyped(env, level, fs, vs)
    decreases vs, level, fs
  {
    if fs == [] then Some([]) else Join(Encode(env, level, fs[0], vs[0]), EncodeFields(env, level, fs[1..], vs[1..]))
  }

  /** What decoding `s` yields: the object and what is left of the stream. */
  ghost function Decode(env: Env, level: nat, f: Filter, s: seq<Byte>): (r: Option<(Value, seq<Byte>)>)
    requires InScope(env, level, f)
    ensures r.Some? ==> |r.value.1| <= |s|
    decreases |s|, level, f, 0
  {
    match f
    case Basic(k) => if |s| < 4 then None else Some((VInt(GetScalar(k, GetWord(s[..4]))), s[4..]))
    case Void => Some((VVoid, s))
    case Opaque(n) => DecodeOpaque(n, s)
    case CountedBytes(max) => if |s| < 4 then None else DecodeCounted(GetWord(s[..4]), max, s[4..])
    case CString(max) => if |s| < 4 then None else DecodeString(GetWord(s[..4]), max, s[4..])
    case Vector(n, e) =>
      var r := DecodeItems(env, level, e, n, s);
      if r == None then None else Some((VSeq(r.value.0), r.value.1))
    case Array(max, e) =>
      if |s| < 4 || GetWord(s[..4]) > max || GetWord(s[..4]) >= TWO_TO_31 then None else
        var r := DecodeItems(env, |env|, e, GetWord(s[..4]), s[4..]);
        if r == None then None else Some((VSeq(r.value.0), r.value.1))
    case Pointer(o) =>
      if |s| < 4 then None
      else if GetWord(s[..4]) == 0 then Some((VNull, s[4..]))
      else
        var r := Decode(env, |env|, o, s[4..]);
        if r == None then None else Some((VPtr(r.value.0), r.value.1))
    case Struct(fs) =>
      var r := DecodeFields(env, level, fs, s);
      if r == None then None else Some((VSeq(r.value.0), r.value.1))
    case Union(k, arms, d) =>
      if |s| < 4 then None else
        var x := GetScalar(k, GetWord(s[..4]));
        SelectScoped(arms, d, x, level, |env|);
        var body := Select(arms, d, x);
        if body == None then None else
          var r := Decode(env, level, body.value, s[4..]);
          if r == None then None else Some((VUnion(x, r.value.0), r.value.1))
    case Named(id) => Decode(env, id, env[id], s)
  }

  /** `n` bytes and their padding, whose contents are not looked at. */
  function DecodeOpaque(n: nat, s: seq<Byte>): (r: Option<(Value, seq<Byte>)>)
    ensures r.Some? ==> r.value.0.VBytes? && |r.value.1| <= |s|
  {
    if |s| < RoundUp(n) then None else Some((VBytes(s[..n]), s[RoundUp(n)..]))
  }

  /** Allocating 2^31 bytes or more fails. */
  function DecodeCounted(n: Word, max: Word, s: seq<Byte>): (r: Option<(Value, seq<Byte>)>)
    ensures r.Some? ==> r.value.0.VBytes? && |r.value.1| <= |s|
  {
    if n > max || n >= TWO_TO_31 then None else DecodeOpaque(n, s)
  }

  /**
   * `xdr_string` asks for one byte more than the count. That is none at all for the count 2^32-1,
   * on which it is done before it has allocated or read anything, and the string stays null.
   */
  function DecodeString(n: Word, max: Word, s: seq<Byte>): (r: Option<(Value, seq<Byte>)>)
    ensures r.Some? ==> |r.value.1| <= |s|
  {
    var nodesize := (n + 1) % TWO_TO_32;
    if n > max then None
    else if nodesize == 0 then Some((VNull, s))
    else if nodesize >= TWO_TO_31 then None
    else
      var r := DecodeOpaque(n, s);
      if r == None then None else Some((VBytes(UpToNul(r.value.0.bytes)), r.value.1))
  }

  /** The C string that a buffer holds. */
  function UpToNul(b: seq<Byte>): (r: seq<Byte>)
    ensures 0 !in r && |r| <= |b| && (0 !in b ==> r == b)
  {
    if b == [] || b[0] == 0 then [] else [b[0]] + UpToNul(b[1..])
  }

  ghost function DecodeItems(env: Env, level: nat, e: Filter, n: nat, s: seq<Byte>)
    : (r: Option<(seq<Value>, seq<Byte>)>)
    requires InScope(env, level, e)
    ensures r.Some? ==> |r.value.1| <= |s| && |r.value.0| == n
    decreases |s|, level, e, n
  {
    if n == 0 then Some(([], s)) else
      var x := Decode(env, level, e, s);
      if x == None then None else
        var xs := DecodeItems(env, level, e, n - 1, x.value.1);
        if xs == None then None else Some(([x.value.0] + xs.value.0, xs.value.1))
  }

  ghost function DecodeFields(env: Env, level: nat, fs: seq<Filter>, s: seq<Byte>)
    : (r: Option<(seq<Value>, seq<Byte>)>)
    requires FieldsInScope(env, level, fs)
    ensures r.Some? ==> |r.value.1| <= |s| && |r.value.0| == |fs|
    decreases |s|, level, fs, 0
  {
    if fs == [] then Some(([], s)) else
      var x := Decode(env, level, fs[0], s);
      if x == None then None else
        var xs := DecodeFields(env, level, fs[1..], x.value.1);
        if xs == None then None else Some(([x.value.0] + xs.value.0, xs.value.1))
  }

  // ---------------------------------------------------------------- round trip

  lemma {:induction false} OpaqueRoundTrip(b: seq<Byte>, t: seq<Byte>)
    ensures DecodeOpaque(|b|, Padded(b) + t) == Some((VBytes(b), t))
  {
    var s := Padded(b) + t;
    assert s[..|b|] == b && s[RoundUp(|b|)..] == t;
  }

  /** A leading word comes back and leaves the rest. */
  lemma {:induction false} WordFirst(w: Word, t: seq<Byte>)
    ensures var s := PutWord(w) + t; GetWord(s[..4]) == w && s[4..] == t
  {
    WordRoundTrip(w);
    assert (PutWord(w) + t)[..4] == PutWord(w);
  }

  lemma {:induction false} PrefixFirst(w: Word, rest: seq<Byte>, t: seq<Byte>)
    ensures var s := PutWord(w) + rest + t; |s| >= 4 && GetWord(s[..4]) == w && s[4..] == rest + t
  {
    assert PutWord(w) + rest + t == PutWord(w) + (rest + t);
    WordFirst(w, rest + t);
  }

  /**
   * Decoding what a filter encodes, with any bytes behind it, gives the object back and stops
   * exactly where the encoding ends.
   */
  lemma {:induction false} RoundTrip(env: Env, level: nat, f: Filter, v: Value, t: seq<Byte>)
    requires InScope(env, level, f) && HasType(env, level, f, v) && Encode(env, level, f, v).Some?
    ensures var b := Encode(env, level, f, v).value;
            Decode(env, level, f, b + t) == Some((v, t))
    decreases v, level, f
  {
    match f
    case Basic(k) =>
      WordFirst(PutScalar(k, v.i), t);
      ScalarRoundTrip(k, v.i);
    case Void =>
      assert [] + t == t;
    case Opaque(n) =>
      OpaqueRoundTrip(v.bytes, t);
    case CountedBytes(max) =>
      CountedRoundTrip(v.bytes, t);
    case CString(max) =>
      StringRoundTrip(v.bytes, max, t);
    case Vector(n, e) =>
      ItemsRoundTrip(env, level, e, v.items, t);
    case Array(max, e) =>
      ArrayRoundTrip(env, level, max, e, v, t);
    case Pointer(o) =>
      PointerRoundTrip(env, level, o, v, t);
    case Struct(fs) =>
      FieldsRoundTrip(env, level, fs, v.items, t);
    case Union(k, arms, d) =>
      UnionRoundTrip(env, level, k, arms, d, v, t);
    case Named(id) =>
      RoundTrip(env, id, env[id], v, t);
  }

  /** `f` round-trips on `v` before `t`. */
  ghost predicate RoundTrips(env: Env, level: nat, f: Filter, v: Value, t: seq<Byte>)
    requires InScope(env, level, f) && HasType(env, level, f, v)
  {
    var r := Encode(env, level, f, v);
    r.Some? ==> Decode(env, level, f, r.value + t) == Some((v, t))
  }

  lemma {:induction false} ArrayRoundTrip(env: Env, level: nat, max: Word, e: Filter, v: Value, t: seq<Byte>)
    requires InScope(env, level, Array(max, e)) && HasType(env, level, Array(max, e), v)
    ensures RoundTrips(env, level, Array(max, e), v, t)
    decreases v, level, Array(max, e), 0
  {
    if Encode(env, level, Array(max, e), v).Some? {
      PrefixFirst(|v.items|, EncodeItems(env, |env|, e, v.items).value, t);
      ItemsRoundTrip(env, |env|, e, v.items, t);
    }
  }

  lemma {:induction false} PointerRoundTrip(env: Env, level: nat, o: Filter, v: Value, t: seq<Byte>)
    requires InScope(env, level, Pointer(o)) && HasType(env, level, Pointer(o), v)
    ensures RoundTrips(env, level, Pointer(o), v, t)
    decreases v, level, Pointer(o), 0
  {
    if v == VNull {
      WordFirst(0, t);
    } else if Encode(env, |env|, o, v.target).Some? {
      PrefixFirst(1, Encode(env, |env|, o, v.target).value, t);
      RoundTrip(env, |env|, o, v.target, t);
    }
  }

  lemma {:induction false} UnionRoundTrip(env: Env, level: nat, k: Scalar, arms: seq<Arm>, d: Option<Filter>,
                                          v: Value, t: seq<Byte>)
    requires InScope(env, level, Union(k, arms, d)) && HasType(env, level, Union(k, arms, d), v)
    ensures RoundTrips(env, level, Union(k, arms, d), v, t)
    decreases v, level, Union(k, arms, d), 0
  {
    var u := Union(k, arms, d);
    SelectScoped(arms, d, v.discriminant, level, |env|);
    var body := Select(arms, d, v.discriminant);
    if body == None {
      assert Encode(env, level, u, v) == None;
    } else if Encode(env, level, body.value, v.arm).Some? {
      var b := Encode(env, level, body.value, v.arm).value;
      ScalarRoundTrip(k, v.discriminant);
      PrefixFirst(PutScalar(k, v.discriminant), b, t);
      assert Encode(env, level, u, v) == Some(PutWord(PutScalar(k, v.discriminant)) + b);
      RoundTrip(env, level, body.value, v.arm, t);
    }
  }

  lemma {:induction false} CountedRoundTrip(b: seq<Byte>, t: seq<Byte>)
    requires |b| < TWO_TO_31
    ensures var s := PutWord(|b|) + Padded(b) + t;
            |s| >= 4 && GetWord(s[..4]) == |b| && DecodeOpaque(|b|, s[4..]) == Some((VBytes(b), t))
  {
    assert PutWord(|b|) + Padded(b) + t == PutWord(|b|) + (Padded(b) + t);
    WordFirst(|b|, Padded(b) + t);
    OpaqueRoundTrip(b, t);
  }

  lemma {:induction false} StringRoundTrip(b: seq<Byte>, max: Word, t: seq<Byte>)
    requires |b| + 1 < TWO_TO_31 && |b| <= max && 0 !in b
    ensures var s := PutWord(|b|) + Padded(b) + t;
            |s| >= 4 && DecodeString(GetWord(s[..4]), max, s[4..]) == Some((VBytes(b), t))
  {
    CountedRoundTrip(b, t);
  }

  /** One more element: its encoding, then the others', before `t`. */
  lemma {:induction false} ItemThenItems(env: Env, level: nat, e: Filter, v: Value, vs: seq<Value>, x: seq<Byte>,
                                         xs: seq<Byte>, t: seq<Byte>)
    requires InScope(env, level, e)
    requires Decode(env, level, e, x + (xs + t)) == Some((v, xs + t))
    requires DecodeItems(env, level, e, |vs|, xs + t) == Some((vs, t))
    ensures DecodeItems(env, level, e, |vs| + 1, x + xs + t) == Some(([v] + vs, t))
  {
    assert x + xs + t == x + (xs + t);
  }

  lemma {:induction false} ItemsRoundTrip(env: Env, level: nat, e: Filter, vs: seq<Value>, t: seq<Byte>)
    requires InScope(env, level, e) && ItemsTyped(env, level, e, vs)
    requires EncodeItems(env, level, e, vs).Some?
    ensures DecodeItems(env, level, e, |vs|, EncodeItems(env, level, e, vs).value + t) == Some((vs, t))
    decreases vs, level, e
  {
    if vs == [] {
      assert [] + t == t;
    } else {
      var x, xs := Encode(env, level, e, vs[0]).value, EncodeItems(env, level, e, vs[1..]).value;
      RoundTrip(env, level, e, vs[0], xs + t);
      ItemsRoundTrip(env, level, e, vs[1..], t);
      ItemThenItems(env, level, e, vs[0], vs[1..], x, xs, t);
      assert [vs[0]] + vs[1..] == vs;
    }
  }

  lemma {:induction false} FieldsRoundTrip(env: Env, level: nat, fs: seq<Filter>, vs: seq<Value>, t: seq<Byte>)
    requires |fs| == |vs| && FieldsInScope(env, level, fs)
    requires FieldsTyped(env, level, fs, vs)
    requires EncodeFields(env, level, fs, vs).Some?
    ensures var b := EncodeFields(env, level, fs, vs).value;
            DecodeFields(env, level, fs, b + t) == Some((vs, t))
    decreases vs, level, fs
  {
    if fs == [] {
      assert [] + t == t && vs == [];
    } else {
      var x, xs := Encode(env, level, fs[0], vs[0]).value, EncodeFields(env, level, fs[1..], vs[1..]).value;
      assert x + xs + t == x + (xs + t);
      RoundTrip(env, level, fs[0], vs[0], xs + t);
      FieldsRoundTrip(env, level, fs[1..], vs[1..], t);
      assert [vs[0]] + vs[1..] == vs;
    }
  }

  // ---------------------------------------------------------------- whole units

  /** `n` is made up of fours. */
  predicate Fours(n: nat) {
    n == 0 || (n >= 4 && Fours(n - 4))
  }

  lemma {:induction false} FoursAre(n: nat)
    ensures Fours(n) <==> n % 4 == 0
  {
    if n >= 4 {
      FoursAre(n - 4);
    }
  }

  lemma {:induction false} FoursAdd(m: nat, n: nat)
    requires Fours(m) && Fours(n)
    ensures Fours(m + n)
  {
    if m > 0 {
      FoursAdd(m - 4, n);
    }
  }

  lemma {:induction false} PaddedFours(b: seq<Byte>)
    ensures Fours(|Padded(b)|) && Fours(4 + |Padded(b)|)
  {
    FoursAre(|Padded(b)|);
  }

  /** Whatever a filter encodes is a whole number of four-byte units. */
  lemma {:induction false} WholeUnits(env: Env, level: nat, f: Filter, v: Value)
    requires InScope(env, level, f) && HasType(env, level, f, v) && Encode(env, level, f, v).Some?
    ensures Fours(|Encode(env, level, f, v).value|)
    decreases v, level, f
  {
    match f
    case Opaque(_) => PaddedFours(v.bytes);
    case CountedBytes(_) => PaddedFours(v.bytes);
    case CString(_) => PaddedFours(v.bytes);
    case Vector(_, e) => ItemsUnits(env, level, e, v.items);
    case Array(_, e) =>
      ItemsUnits(env, |env|, e, v.items);
      FoursAdd(4, |EncodeItems(env, |env|, e, v.items).value|);
    case Pointer(o) =>
      if v != VNull {
        WholeUnits(env, |env|, o, v.target);
        FoursAdd(4, |Encode(env, |env|, o, v.target).value|);
      }
    case Struct(fs) => FieldsUnits(env, level, fs, v.items);
    case Union(_, arms, d) =>
      SelectScoped(arms, d, v.discriminant, level, |env|);
      var body := Select(arms, d, v.discriminant).value;
      WholeUnits(env, level, body, v.arm);
      FoursAdd(4, |Encode(env, level, body, v.arm).value|);
    case Named(id) => WholeUnits(env, id, env[id], v);
    case _ =>
  }

  lemma {:induction false} ItemsUnits(env: Env, level: nat, e: Filter, vs: seq<Value>)
    requires InScope(env, level, e) && ItemsTyped(env, level, e, vs) && EncodeItems(env, level, e, vs).Some?
    ensures Fours(|EncodeItems(env, level, e, vs).value|)
    decreases vs, level, e
  {
    if vs != [] {
      WholeUnits(env, level, e, vs[0]);
      ItemsUnits(env, level, e, vs[1..]);
      FoursAdd(|Encode(env, level, e, vs[0]).value|, |EncodeItems(env, level, e, vs[1..]).value|);
    }
  }

  lemma {:induction false} FieldsUnits(env: Env, level: nat, fs: seq<Filter>, vs: seq<Value>)
    requires |fs| == |vs| && FieldsInScope(env, level, fs)
    requires FieldsTyped(env, level, fs, vs) && EncodeFields(env, level, fs, vs).Some?
    ensures Fours(|EncodeFields(env, level, fs, vs).value|)
    decreases vs, level, fs
  {
    if fs != [] {
      WholeUnits(env, level, fs[0], vs[0]);
      FieldsUnits(env, level, fs[1..], vs[1..]);
      FoursAdd(|Encode(env, level, fs[0], vs[0]).value|, |EncodeFields(env, level, fs[1..], vs[1..]).value|);
    }
  }

  /** The law at the centre of the library, in one statement. */
  lemma {:induction false} EncodeThenDecode(env: Env, level: nat, f: Filter, v: Value, t: seq<Byte>)
    requires InScope(env, level, f) && HasType(env, level, f, v) && Encode(env, level, f, v).Some?
    ensures var b := Encode(env, level, f, v).value;
            |b| % 4 == 0 && Decode(env, level, f, b + t) == Some((v, t))
  {
    RoundTrip(env, level, f, v, t);
    WholeUnits(env, level, f, v);
    FoursAre(|Encode(env, level, f, v).value|);
  }

  // ---------------------------------------------------------------- what decoding can yield

  /** The decoder comes to a string without a limit and finds the count 2^32-1 there. */
  ghost predicate MeetsNull(env: Env, level: nat, f: Filter, s: seq<Byte>)
    requires InScope(env, level, f)
    decreases |s|, level, f, 0
  {
    match f
    case CString(max) => |s| >= 4 && GetWord(s[..4]) == 0xFFFF_FFFF && max == 0xFFFF_FFFF
    case Vector(n, e) => ItemMeetsNull(env, level, e, n, s)
    case Array(max, e) =>
      && |s| >= 4 && GetWord(s[..4]) <= max && GetWord(s[..4]) < TWO_TO_31
      && ItemMeetsNull(env, |env|, e, GetWord(s[..4]), s[4..])
    case Pointer(o) => |s| >= 4 && GetWord(s[..4]) != 0 && MeetsNull(env, |env|, o, s[4..])
    case Struct(fs) => FieldMeetsNull(env, level, fs, s)
    case Union(k, arms, d) =>
      |s| >= 4 &&
      var x := GetScalar(k, GetWord(s[..4]));
      SelectScoped(arms, d, x, level, |env|);
      var body := Select(arms, d, x);
      body.Some? && MeetsNull(env, level, body.value, s[4..])
    case Named(id) => MeetsNull(env, id, env[id], s)
    case _ => false
  }

  ghost predicate ItemMeetsNull(env: Env, level: nat, e: Filter, n: nat, s: seq<Byte>)
    requires InScope(env, level, e)
    decreases |s|, level, e, n
  {
    n > 0 && (
      || MeetsNull(env, level, e, s)
      || (Decode(env, level, e, s).Some? && ItemMeetsNull(env, level, e, n - 1, Decode(env, level, e, s).value.1)))
  }

  ghost predicate FieldMeetsNull(env: Env, level: nat, fs: seq<Filter>, s: seq<Byte>)
    requires FieldsInScope(env, level, fs)
    decreases |s|, level, fs, 0
  {
    fs != [] && (
      || MeetsNull(env, level, fs[0], s)
      || (Decode(env, level, fs[0], s).Some?
          && FieldMeetsNull(env, level, fs[1..], Decode(env, level, fs[0], s).value.1)))
  }

  /** One count is enough: the string is null, and only the count has been read. */
  lemma {:induction false} NullString(t: seq<Byte>)
    ensures Decode([], 0, CString(0xFFFF_FFFF), PutWord(0xFFFF_FFFF) + t) == Some((VNull, t))
    ensures MeetsNull([], 0, CString(0xFFFF_FFFF), PutWord(0xFFFF_FFFF) + t)
  {
    WordFirst(0xFFFF_FFFF, t);
  }

  /**
   * Whatever bytes are decoded, the result is an object of the type exactly when no string without
   * a limit has met the count 2^32-1; it can then be encoded again.
   */
  lemma {:induction false} DecodedIsTyped(env: Env, level: nat, f: Filter, s: seq<Byte>)
    requires InScope(env, level, f) && Decode(env, level, f, s).Some?
    ensures var v := Decode(env, level, f, s).value.0;
            && (HasType(env, level, f, v) <==> !MeetsNull(env, level, f, s))
            && (HasType(env, level, f, v) ==> Encode(env, level, f, v).Some?)
    decreases |s|, level, f, 0
  {
    match f
    case Vector(n, e) =>
      ItemsDecodedTyped(env, level, e, n, s);
    case Array(max, e) =>
      ItemsDecodedTyped(env, |env|, e, GetWord(s[..4]), s[4..]);
    case Pointer(o) =>
      if GetWord(s[..4]) != 0 {
        DecodedIsTyped(env, |env|, o, s[4..]);
      }
    case Struct(fs) =>
      FieldsDecodedTyped(env, level, fs, s);
    case Union(k, arms, d) =>
      var x := GetScalar(k, GetWord(s[..4]));
      SelectScoped(arms, d, x, level, |env|);
      DecodedIsTyped(env, level, Select(arms, d, x).value, s[4..]);
    case Named(id) =>
      DecodedIsTyped(env, id, env[id], s);
    case _ =>
  }

  lemma {:induction false} ItemInFront(env: Env, level: nat, e: Filter, v: Value, vs: seq<Value>)
    requires InScope(env, level, e)
    ensures ItemsTyped(env, level, e, [v] + vs) <==> HasType(env, level, e, v) && ItemsTyped(env, level, e, vs)
    ensures ItemsTyped(env, level, e, [v] + vs) ==>
              EncodeItems(env, level, e, [v] + vs) == Join(Encode(env, level, e, v), EncodeItems(env, level, e, vs))
  {
    assert ([v] + vs)[0] == v && ([v] + vs)[1..] == vs;
  }

  lemma {:induction false} FieldInFront(env: Env, level: nat, fs: seq<Filter>, v: Value, vs: seq<Value>)
    requires fs != [] && |vs| == |fs| - 1 && FieldsInScope(env, level, fs)
    ensures FieldsTyped(env, level, fs, [v] + vs) <==>
              HasType(env, level, fs[0], v) && FieldsTyped(env, level, fs[1..], vs)
    ensures FieldsTyped(env, level, fs, [v] + vs) ==>
              EncodeFields(env, level, fs, [v] + vs)
              == Join(Encode(env, level, fs[0], v), EncodeFields(env, level, fs[1..], vs))
  {
    assert ([v] + vs)[0] == v && ([v] + vs)[1..] == vs;
  }

  /** The elements are of their type exactly when none has met a null string, and can then be encoded. */
  ghost predicate ItemsFine(env: Env, level: nat, e: Filter, n: nat, s: seq<Byte>, vs: seq<Value>)
    requires InScope(env, level, e)
  {
    && (ItemsTyped(env, level, e, vs) <==> !ItemMeetsNull(env, level, e, n, s))
    && (ItemsTyped(env, level, e, vs) ==> EncodeItems(env, level, e, vs).Some?)
  }

  lemma {:induction false} OneMoreFine(env: Env, level: nat, e: Filter, n: nat, s: seq<Byte>, vs: seq<Value>)
    requires InScope(env, level, e) && n > 0 && Decode(env, level, e, s).Some?
    requires var x := Decode(env, level, e, s).value;
             && (HasType(env, level, e, x.0) <==> !MeetsNull(env, level, e, s))
             && (HasType(env, level, e, x.0) ==> Encode(env, level, e, x.0).Some?)
             && ItemsFine(env, level, e, n - 1, x.1, vs)
    ensures ItemsFine(env, level, e, n, s, [Decode(env, level, e, s).value.0] + vs)
  {
    ItemInFront(env, level, e, Decode(env, level, e, s).value.0, vs);
  }

  lemma {:induction false} ItemsDecodedTyped(env: Env, level: nat, e: Filter, n: nat, s: seq<Byte>)
    requires InScope(env, level, e) && DecodeItems(env, level, e, n, s).Some?
    ensures ItemsFine(env, level, e, n, s, DecodeItems(env, level, e, n, s).value.0)
    decreases |s|, level, e, n
  {
    if n > 0 {
      var x := Decode(env, level, e, s).value;
      DecodedIsTyped(env, level, e, s);
      ItemsDecodedTyped(env, level, e, n - 1, x.1);
      OneMoreFine(env, level, e, n, s, DecodeItems(env, level, e, n - 1, x.1).value.0);
    }
  }

  lemma {:induction false} FieldsDecodedTyped(env: Env, level: nat, fs: seq<Filter>, s: seq<Byte>)
    requires FieldsInScope(env, level, fs) && DecodeFields(env, level, fs, s).Some?
    ensures var vs := DecodeFields(env, level, fs, s).value.0;
            && (FieldsTyped(env, level, fs, vs) <==> !FieldMeetsNull(env, level, fs, s))
            && (FieldsTyped(env, level, fs, vs) ==> EncodeFields(env, level, fs, vs).Some?)
    decreases |s|, level, fs, 0
  {
    if fs != [] {
      var x := Decode(env, level, fs[0], s).value;
      var xs := DecodeFields(env, level, fs[1..], x.1).value;
      DecodedIsTyped(env, level, fs[0], s);
      FieldsDecodedTyped(env, level, fs[1..], x.1);
      FieldInFront(env, level, fs, x.0, xs.0);
      assert DecodeFields(env, level, fs, s).value.0 == [x.0] + xs.0;
    }
  }

  /**
   * Decoding ignores what follows, so decode after encode after decode changes nothing more. The
   * object can be encoded at all exactly when no string in it has come out null.
   */
  lemma {:induction false} Canonical(env: Env, level: nat, f: Filter, s: seq<Byte>, t: seq<Byte>)
    requires InScope(env, level, f) && Decode(env, level, f, s).Some?
    ensures var v := Decode(env, level, f, s).value.0;
            && (HasType(env, level, f, v) <==> !MeetsNull(env, level, f, s))
            && (HasType(env, level, f, v) ==>
                  Encode(env, level, f, v).Some?
                  && Decode(env, level, f, Encode(env, level, f, v).value + t) == Some((v, t)))
  {
    DecodedIsTyped(env, level, f, s);
    var v := Decode(env, level, f, s).value.0;
    if HasType(env, level, f, v) {
      RoundTrip(env, level, f, v, t);
    }
  }

  // ---------------------------------------------------------------- filters that cannot come to that

  /** Every string has a limit. */
  predicate Limited(f: Filter)
    decreases f
  {
    match f
    case CString(max) => max < 0xFFFF_FFFF
    case Vector(_, e) => Limited(e)
    case Array(_, e) => Limited(e)
    case Pointer(o) => Limited(o)
    case Struct(fs) => forall i :: 0 <= i < |fs| ==> Limited(fs[i])
    case Union(_, arms, d) =>
      && (forall i :: 0 <= i < |arms| ==> Limited(arms[i].body))
      && (d.Some? ==> Limited(d.value))
    case _ => true
  }

  lemma {:induction false} SelectLimited(arms: seq<Arm>, d: Option<Filter>, x: int)
    requires (forall i :: 0 <= i < |arms| ==> Limited(arms[i].body)) && (d.Some? ==> Limited(d.value))
    ensures Select(arms, d, x).Some? ==> Limited(Select(arms, d, x).value)
  {
    if arms != [] && arms[0].value != x {
      SelectLimited(arms[1..], d, x);
    }
  }

  /** Where every string has a limit, whatever is decoded is an object of its type. */
  lemma {:induction false} LimitedMeetsNone(env: Env, level: nat, f: Filter, s: seq<Byte>)
    requires InScope(env, level, f) && Limited(f) && forall i :: 0 <= i < |env| ==> Limited(env[i])
    ensures !MeetsNull(env, level, f, s)
    decreases |s|, level, f, 0
  {
    match f
    case Vector(n, e) => ItemsMeetNone(env, level, e, n, s);
    case Array(max, e) =>
      if |s| >= 4 {
        ItemsMeetNone(env, |env|, e, GetWord(s[..4]), s[4..]);
      }
    case Pointer(o) =>
      if |s| >= 4 {
        LimitedMeetsNone(env, |env|, o, s[4..]);
      }
    case Struct(fs) => FieldsMeetNone(env, level, fs, s);
    case Union(k, arms, d) =>
      if |s| >= 4 {
        var x := GetScalar(k, GetWord(s[..4]));
        SelectScoped(arms, d, x, level, |env|);
        SelectLimited(arms, d, x);
        if Select(arms, d, x).Some? {
          LimitedMeetsNone(env, level, Select(arms, d, x).value, s[4..]);
        }
      }
    case Named(id) => LimitedMeetsNone(env, id, env[id], s);
    case _ =>
  }

  lemma {:induction false} ItemsMeetNone(env: Env, level: nat, e: Filter, n: nat, s: seq<Byte>)
    requires InScope(env, level, e) && Limited(e) && forall i :: 0 <= i < |env| ==> Limited(env[i])
    ensures !ItemMeetsNull(env, level, e, n, s)
    decreases |s|, level, e, n
  {
    if n > 0 {
      LimitedMeetsNone(env, level, e, s);
      if Decode(env, level, e, s).Some? {
        ItemsMeetNone(env, level, e, n - 1, Decode(env, level, e, s).value.1);
      }
    }
  }

  lemma {:induction false} FieldsMeetNone(env: Env, level: nat, fs: seq<Filter>, s: seq<Byte>)
    requires FieldsInScope(env, level, fs) && forall i :: 0 <= i < |fs| ==> Limited(fs[i])
    requires forall i :: 0 <= i < |env| ==> Limited(env[i])
    ensures !FieldMeetsNull(env, level, fs, s)
    decreases |s|, level, fs, 0
  {
    if fs != [] {
      LimitedMeetsNone(env, level, fs[0], s);
      if Decode(env, level, fs[0], s).Some? {
        FieldsMeetNone(env, level, fs[1..], Decode(env, level, fs[0], s).value.1);
      }
    }
  }
}
