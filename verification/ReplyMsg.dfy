/**
 * Reply messages. The library writes out the unions of a reply by hand; each hand-written switch
 * is shown to do what the general union procedure would do for the declaration in section 9 of
 * RFC 5531.
 */
module ReplyMsg {
  import opened Bytes
  import opened Xdr
  import opened XdrMem
  import opened XdrPairs

  const REPLY := 1
  const MSG_ACCEPTED := 0
  const MSG_DENIED := 1
  const SUCCESS := 0
  const PROG_MISMATCH := 2
  const RPC_MISMATCH := 0
  const AUTH_ERROR := 1

  const OPAQUE_AUTH: Filter := Struct([Basic(Enum), CountedBytes(MAX_AUTH_BYTES)])
  const VERSIONS: Filter := Struct([Basic(ULong), Basic(ULong)])

  /** What follows the verifier; any status but the two with an arm stands alone. */
  function Answer(results: Filter): Filter {
    Union(Enum, [Arm(SUCCESS, results), Arm(PROG_MISMATCH, VERSIONS)], Some(Void))
  }

  function AcceptedReply(results: Filter): Filter {
    Struct([OPAQUE_AUTH, Answer(results)])
  }

  const REJECTED_REPLY: Filter := Union(Enum, [Arm(RPC_MISMATCH, VERSIONS), Arm(AUTH_ERROR, Basic(Enum))], None)

  function ReplyBody(results: Filter): Filter {
    Union(Enum, [Arm(MSG_ACCEPTED, AcceptedReply(results)), Arm(MSG_DENIED, REJECTED_REPLY)], None)
  }

  /** Only the arm for replies: the procedure fails on a call. */
  function Directed(results: Filter): Filter {
    Union(Enum, [Arm(REPLY, ReplyBody(results))], None)
  }

  function Message(results: Filter): Filter {
    Struct([Basic(ULong), Directed(results)])
  }

  /** The type of a results procedure makes all the parts of a message well formed. */
  lemma {:induction false} MessageInScope(env: Env, results: Filter)
    requires InScope(env, |env|, results)
    ensures InScope(env, |env|, OPAQUE_AUTH) && InScope(env, |env|, VERSIONS) && InScope(env, |env|, REJECTED_REPLY)
    ensures InScope(env, |env|, Answer(results)) && InScope(env, |env|, AcceptedReply(results))
    ensures InScope(env, |env|, ReplyBody(results)) && InScope(env, |env|, Directed(results))
            && InScope(env, |env|, Message(results))
  {
    PairScoped(env, |env|, Basic(Enum), CountedBytes(MAX_AUTH_BYTES));
    PairScoped(env, |env|, Basic(ULong), Basic(ULong));
    PairScoped(env, |env|, OPAQUE_AUTH, Answer(results));
    UnionScoped(env, Arm(SUCCESS, results), Arm(PROG_MISMATCH, VERSIONS), Some(Void));
    UnionScoped(env, Arm(RPC_MISMATCH, VERSIONS), Arm(AUTH_ERROR, Basic(Enum)), None);
    UnionScoped(env, Arm(MSG_ACCEPTED, AcceptedReply(results)), Arm(MSG_DENIED, REJECTED_REPLY), None);
    UnionScoped(env, Arm(REPLY, ReplyBody(results)), Arm(REPLY, ReplyBody(results)), None);
    PairScoped(env, |env|, Basic(ULong), Directed(results));
  }

  lemma {:induction false} UnionScoped(env: Env, a: Arm, b: Arm, dflt: Option<Filter>)
    requires InScope(env, |env|, a.body) && InScope(env, |env|, b.body)
             && (dflt.Some? ==> InScope(env, |env|, dflt.value))
    ensures InScope(env, |env|, Union(Enum, [a, b], dflt)) && InScope(env, |env|, Union(Enum, [a], dflt))
  {
  }

  /** One part of an encoding and then the rest. */
  twostate lemma AfterPart(m: MemStream, new x: seq<Byte>, new mid: seq<Byte>, new ok: bool, new r: Option<seq<Byte>>)
    requires old(m.Valid()) && |x| <= old(m.handy) && |mid| == m.base.Length
    requires mid == old(m.base[..])[..old(m.pos)] + x + old(m.base[..])[old(m.pos) + |x|..]
    requires ok == (r.Some? && |r.value| <= old(m.handy) - |x|)
    requires ok ==> m.Valid() && m.pos == old(m.pos) + |x| + |r.value| && m.handy == old(m.handy) - |x| - |r.value|
    requires ok ==> m.base[..] == mid[..old(m.pos) + |x|] + r.value + mid[m.pos..]
    requires !ok ==> old(m.pos) + |x| <= m.pos <= m.base.Length
    requires !ok ==> m.base[..][..old(m.pos) + |x|] == mid[..old(m.pos) + |x|]
    ensures Encoded(m, ok, Join(Some(x), r))
  {
    if ok {
      WroteBoth(m, x, r.value, mid);
    } else {
      assert m.base[..][..old(m.pos)] == m.base[..][..old(m.pos) + |x|][..old(m.pos)];
    }
  }

  /** A reply that encodes is one in direction `REPLY`, and decodes to itself before any bytes. */
  lemma {:induction false} ReplyRoundTrip(env: Env, results: Filter, v: Value, t: seq<Byte>)
    requires InScope(env, |env|, results) && InScope(env, |env|, Message(results))
    requires HasType(env, |env|, Message(results), v) && Encode(env, |env|, Message(results), v).Some?
    ensures var b := Encode(env, |env|, Message(results), v).value;
            |b| % 4 == 0 && Decode(env, |env|, Message(results), b + t) == Some((v, t))
    ensures |v.items| == 2 && v.items[1].VUnion? && v.items[1].discriminant == REPLY
    ensures v.items[1].arm.VUnion? && v.items[1].arm.discriminant in {MSG_ACCEPTED, MSG_DENIED}
  {
    MessageInScope(env, results);
    EncodePair(env, |env|, Basic(ULong), Directed(results), v);
    ChooseOfOne(Arm(REPLY, ReplyBody(results)), None, v.items[1].discriminant);
    ChooseOfTwo(Arm(MSG_ACCEPTED, AcceptedReply(results)), Arm(MSG_DENIED, REJECTED_REPLY), None,
                v.items[1].arm.discriminant);
    EncodeThenDecode(env, |env|, Message(results), v, t);
  }

  // ---------------------------------------------------------------- encoding

  /** Two unsigned words in a row, as for a range of versions. */
  method EncodeVersions(m: MemStream, env: Env, v: Value) returns (ok: bool)
    requires m.Valid() && InScope(env, |env|, VERSIONS) && HasType(env, |env|, VERSIONS, v)
    modifies m, m.base
    ensures Encoded(m, ok, Encode(env, |env|, VERSIONS, v))
  {
    PairScoped(env, |env|, Basic(ULong), Basic(ULong));
    EncodePair(env, |env|, Basic(ULong), Basic(ULong), v);
    ok := m.PutLong(PutScalar(ULong, v.items[0].i));
    if !ok {
      return;
    }
    ghost var x, mid := PutWord(PutScalar(ULong, v.items[0].i)), m.base[..];
    ok := m.PutLong(PutScalar(ULong, v.items[1].i));
    AfterPart(m, x, mid, ok, Some(PutWord(PutScalar(ULong, v.items[1].i))));
  }

  /** The discriminant, and what the caller's switch writes behind it. */
  twostate lemma UnionDone(m: MemStream, new env: Env, new u: Filter, new v: Value, new mid: seq<Byte>, new ok: bool)
    requires u.Union? && u.kind == Enum && InScope(env, |env|, u) && HasType(env, |env|, u, v)
    requires old(m.Valid()) && 4 <= old(m.handy) && |mid| == m.base.Length
    requires mid == old(m.base[..])[..old(m.pos)] + PutWord(ToWord(v.discriminant)) + old(m.base[..])[old(m.pos) + 4..]
    requires var r := ArmEncoding(env, |env|, u, v);
             && ok == (r.Some? && |r.value| <= old(m.handy) - 4)
             && (ok ==> m.Valid() && m.pos == old(m.pos) + 4 + |r.value| && m.handy == old(m.handy) - 4 - |r.value|
                        && m.base[..] == mid[..old(m.pos) + 4] + r.value + mid[m.pos..])
    requires !ok ==> old(m.pos) + 4 <= m.pos <= m.base.Length
    requires !ok ==> m.base[..][..old(m.pos) + 4] == mid[..old(m.pos) + 4]
    ensures Encoded(m, ok, Encode(env, |env|, u, v))
  {
    UnionEncoding(env, |env|, u, v);
    AfterWord(m, ToWord(v.discriminant), mid, ok, ArmEncoding(env, |env|, u, v));
  }

  /** The status and the switch on it, after the verifier. */
  method EncodeAnswer(m: MemStream, env: Env, results: Filter, v: Value) returns (ok: bool)
    requires m.Valid() && InScope(env, |env|, results) && InScope(env, |env|, Answer(results))
    requires HasType(env, |env|, Answer(results), v)
    modifies m, m.base
    ensures Encoded(m, ok, Encode(env, |env|, Answer(results), v))
  {
    UnionEncoding(env, |env|, Answer(results), v);
    ok := m.PutLong(ToWord(v.discriminant));
    if !ok {
      return;
    }
    ghost var mid := m.base[..];
    ok := EncodeAnswerArm(m, env, results, v);
    UnionDone(m, env, Answer(results), v, mid, ok);
  }

  /** The switch on the status of an accepted call. */
  method EncodeAnswerArm(m: MemStream, env: Env, results: Filter, v: Value) returns (ok: bool)
    requires m.Valid() && InScope(env, |env|, results) && InScope(env, |env|, Answer(results))
    requires HasType(env, |env|, Answer(results), v)
    modifies m, m.base
    ensures Encoded(m, ok, ArmEncoding(env, |env|, Answer(results), v))
  {
    ChooseAnswer(results, v.discriminant);
    if v.discriminant == SUCCESS {
      ok := EncodeItem(m, env, |env|, results, v.arm);
    } else if v.discriminant == PROG_MISMATCH {
      ok := EncodeVersions(m, env, v.arm);
    } else {
      ok := true;
    }
  }

  function Chosen(results: Filter, stat: int): Filter {
    if stat == SUCCESS then results else if stat == PROG_MISMATCH then VERSIONS else Void
  }

  lemma {:induction false} ChooseAnswer(results: Filter, stat: int)
    ensures Select([Arm(SUCCESS, results), Arm(PROG_MISMATCH, VERSIONS)], Some(Void), stat) ==
            Some(Chosen(results, stat))
  {
    ChooseOfTwo(Arm(SUCCESS, results), Arm(PROG_MISMATCH, VERSIONS), Some(Void), stat);
  }

  lemma {:induction false} ChooseOfTwo(a: Arm, b: Arm, dflt: Option<Filter>, d: int)
    ensures Select([a, b], dflt, d)
         == if d == a.value then Some(a.body) else if d == b.value then Some(b.body) else dflt
  {
    assert [a, b][1..] == [b] && [b][1..] == [];
    assert Select([b], dflt, d) == if d == b.value then Some(b.body) else Select([b][1..], dflt, d);
  }

  lemma {:induction false} ChooseOfOne(a: Arm, dflt: Option<Filter>, d: int)
    ensures Select([a], dflt, d) == if d == a.value then Some(a.body) else dflt
  {
    assert [a][1..] == [];
  }

  /** `xdr_accepted_reply`. */
  method EncodeAccepted(m: MemStream, env: Env, results: Filter, v: Value) returns (ok: bool)
    requires m.Valid() && InScope(env, |env|, results) && InScope(env, |env|, AcceptedReply(results))
    requires HasType(env, |env|, AcceptedReply(results), v)
    modifies m, m.base
    ensures Encoded(m, ok, Encode(env, |env|, AcceptedReply(results), v))
  {
    MessageInScope(env, results);
    EncodePair(env, |env|, OPAQUE_AUTH, Answer(results), v);
    ok := EncodeItem(m, env, |env|, OPAQUE_AUTH, v.items[0]);
    if !ok {
      return;
    }
    ghost var x, mid := Encode(env, |env|, OPAQUE_AUTH, v.items[0]).value, m.base[..];
    ok := EncodeAnswer(m, env, results, v.items[1]);
    AfterPart(m, x, mid, ok, Encode(env, |env|, Answer(results), v.items[1]));
  }

  /** `xdr_rejected_reply`. */
  method EncodeRejected(m: MemStream, env: Env, v: Value) returns (ok: bool)
    requires m.Valid() && InScope(env, |env|, REJECTED_REPLY) && HasType(env, |env|, REJECTED_REPLY, v)
    modifies m, m.base
    ensures Encoded(m, ok, Encode(env, |env|, REJECTED_REPLY, v))
  {
    UnionEncoding(env, |env|, REJECTED_REPLY, v);
    ok := m.PutLong(ToWord(v.discriminant));
    if !ok {
      return;
    }
    ghost var mid := m.base[..];
    ok := EncodeReason(m, env, v);
    UnionDone(m, env, REJECTED_REPLY, v, mid, ok);
  }

  method EncodeReason(m: MemStream, env: Env, v: Value) returns (ok: bool)
    requires m.Valid() && InScope(env, |env|, REJECTED_REPLY) && HasType(env, |env|, REJECTED_REPLY, v)
    modifies m, m.base
    ensures Encoded(m, ok, ArmEncoding(env, |env|, REJECTED_REPLY, v))
  {
    PairScoped(env, |env|, Basic(ULong), Basic(ULong));
    ChooseOfTwo(Arm(RPC_MISMATCH, VERSIONS), Arm(AUTH_ERROR, Basic(Enum)), None, v.discriminant);
    if v.discriminant == RPC_MISMATCH {
      ok := EncodeVersions(m, env, v.arm);
    } else if v.discriminant == AUTH_ERROR {
      ok := EncodeItem(m, env, |env|, Basic(Enum), v.arm);
    } else {
      ok := false;
    }
  }

  /** `xdr_union` on the two kinds of reply. */
  method EncodeBody(m: MemStream, env: Env, results: Filter, v: Value) returns (ok: bool)
    requires m.Valid() && InScope(env, |env|, results) && InScope(env, |env|, ReplyBody(results))
    requires HasType(env, |env|, ReplyBody(results), v)
    modifies m, m.base
    ensures Encoded(m, ok, Encode(env, |env|, ReplyBody(results), v))
  {
    UnionEncoding(env, |env|, ReplyBody(results), v);
    ok := m.PutLong(ToWord(v.discriminant));
    if !ok {
      return;
    }
    ghost var mid := m.base[..];
    ok := EncodeKind(m, env, results, v);
    UnionDone(m, env, ReplyBody(results), v, mid, ok);
  }

  method EncodeKind(m: MemStream, env: Env, results: Filter, v: Value) returns (ok: bool)
    requires m.Valid() && InScope(env, |env|, results) && InScope(env, |env|, ReplyBody(results))
    requires HasType(env, |env|, ReplyBody(results), v)
    modifies m, m.base
    ensures Encoded(m, ok, ArmEncoding(env, |env|, ReplyBody(results), v))
  {
    MessageInScope(env, results);
    ChooseOfTwo(Arm(MSG_ACCEPTED, AcceptedReply(results)), Arm(MSG_DENIED, REJECTED_REPLY), None, v.discriminant);
    if v.discriminant == MSG_ACCEPTED {
      ok := EncodeAccepted(m, env, results, v.arm);
    } else if v.discriminant == MSG_DENIED {
      ok := EncodeRejected(m, env, v.arm);
    } else {
      ok := false;
    }
  }

  /** The direction, which must be that of a reply, and the body. */
  method EncodeDirected(m: MemStream, env: Env, results: Filter, v: Value) returns (ok: bool)
    requires m.Valid() && InScope(env, |env|, results) && InScope(env, |env|, Directed(results))
    requires HasType(env, |env|, Directed(results), v)
    modifies m, m.base
    ensures Encoded(m, ok, Encode(env, |env|, Directed(results), v))
  {
    UnionEncoding(env, |env|, Directed(results), v);
    ok := m.PutLong(ToWord(v.discriminant));
    if !ok {
      return;
    }
    ghost var mid := m.base[..];
    ok := EncodeIfReply(m, env, results, v);
    UnionDone(m, env, Directed(results), v, mid, ok);
  }

  method EncodeIfReply(m: MemStream, env: Env, results: Filter, v: Value) returns (ok: bool)
    requires m.Valid() && InScope(env, |env|, results) && InScope(env, |env|, Directed(results))
    requires HasType(env, |env|, Directed(results), v)
    modifies m, m.base
    ensures Encoded(m, ok, ArmEncoding(env, |env|, Directed(results), v))
  {
    MessageInScope(env, results);
    ChooseOfOne(Arm(REPLY, ReplyBody(results)), None, v.discriminant);
    if v.discriminant != REPLY {
      return false;
    }
    ok := EncodeBody(m, env, results, v.arm);
  }

  /** `xdr_replymsg`, encoding: exactly what the declaration of the message prescribes. */
  method EncodeReplyMsg(m: MemStream, env: Env, results: Filter, v: Value) returns (ok: bool)
    requires m.Valid() && InScope(env, |env|, results) && InScope(env, |env|, Message(results))
    requires HasType(env, |env|, Message(results), v)
    modifies m, m.base
    ensures Encoded(m, ok, Encode(env, |env|, Message(results), v))
  {
    MessageInScope(env, results);
    EncodePair(env, |env|, Basic(ULong), Directed(results), v);
    ok := m.PutLong(PutScalar(ULong, v.items[0].i));
    if !ok {
      return;
    }
    ghost var x, mid := PutWord(PutScalar(ULong, v.items[0].i)), m.base[..];
    ok := EncodeDirected(m, env, results, v.items[1]);
    AfterPart(m, x, mid, ok, Encode(env, |env|, Directed(results), v.items[1]));
  }

  // ---------------------------------------------------------------- decoding

  method DecodeVersions(m: MemStream, env: Env) returns (ok: bool, v: Value)
    requires m.Valid() && InScope(env, |env|, VERSIONS)
    modifies m
    ensures Decoded(m, ok, v, Decode(env, |env|, VERSIONS, old(m.Remaining())))
  {
    PairScoped(env, |env|, Basic(ULong), Basic(ULong));
    DecodePair(env, |env|, Basic(ULong), Basic(ULong), m.Remaining());
    v := VVoid;
    var low, high;
    ok, low := m.GetLong();
    if !ok {
      return;
    }
    ok, high := m.GetLong();
    v := VSeq([VInt(GetScalar(ULong, low)), VInt(GetScalar(ULong, high))]);
  }

  method DecodeAnswer(m: MemStream, env: Env, results: Filter) returns (ok: bool, v: Value)
    requires m.Valid() && InScope(env, |env|, results) && InScope(env, |env|, Answer(results))
    modifies m
    ensures Decoded(m, ok, v, Decode(env, |env|, Answer(results), old(m.Remaining())))
  {
    v := VVoid;
    var stat;
    ok, stat := m.GetLong();
    if !ok {
      return;
    }
    ok, v := DecodeAnswerArm(m, env, results, ToSigned(stat));
    v := VUnion(ToSigned(stat), v);
  }

  method DecodeAnswerArm(m: MemStream, env: Env, results: Filter, stat: int) returns (ok: bool, v: Value)
    requires m.Valid() && InScope(env, |env|, results) && InScope(env, |env|, Answer(results))
    modifies m
    ensures Decoded(m, ok, v, old(ArmMeaning(m, env, |env|, Answer(results), stat)))
  {
    MessageInScope(env, results);
    ChooseAnswer(results, stat);
    ok, v := true, VVoid;
    if stat == SUCCESS {
      ok, v := DecodeItem(m, env, |env|, results);
    } else if stat == PROG_MISMATCH {
      ok, v := DecodeVersions(m, env);
    }
  }

  /** `xdr_accepted_reply`. */
  method DecodeAccepted(m: MemStream, env: Env, results: Filter) returns (ok: bool, v: Value)
    requires m.Valid() && InScope(env, |env|, results) && InScope(env, |env|, AcceptedReply(results))
    modifies m
    ensures Decoded(m, ok, v, Decode(env, |env|, AcceptedReply(results), old(m.Remaining())))
  {
    MessageInScope(env, results);
    DecodePair(env, |env|, OPAQUE_AUTH, Answer(results), m.Remaining());
    v := VVoid;
    var verf, answer;
    ok, verf := DecodeItem(m, env, |env|, OPAQUE_AUTH);
    if !ok {
      return;
    }
    ok, answer := DecodeAnswer(m, env, results);
    v := VSeq([verf, answer]);
  }

  /** `xdr_rejected_reply`. */
  method DecodeRejected(m: MemStream, env: Env) returns (ok: bool, v: Value)
    requires m.Valid() && InScope(env, |env|, REJECTED_REPLY)
    modifies m
    ensures Decoded(m, ok, v, Decode(env, |env|, REJECTED_REPLY, old(m.Remaining())))
  {
    v := VVoid;
    var stat;
    ok, stat := m.GetLong();
    if !ok {
      return;
    }
    ok, v := DecodeReason(m, env, ToSigned(stat));
    v := VUnion(ToSigned(stat), v);
  }

  method DecodeReason(m: MemStream, env: Env, stat: int) returns (ok: bool, v: Value)
    requires m.Valid() && InScope(env, |env|, REJECTED_REPLY)
    modifies m
    ensures Decoded(m, ok, v, old(ArmMeaning(m, env, |env|, REJECTED_REPLY, stat)))
  {
    PairScoped(env, |env|, Basic(ULong), Basic(ULong));
    ChooseOfTwo(Arm(RPC_MISMATCH, VERSIONS), Arm(AUTH_ERROR, Basic(Enum)), None, stat);
    ok, v := false, VVoid;
    if stat == RPC_MISMATCH {
      ok, v := DecodeVersions(m, env);
    } else if stat == AUTH_ERROR {
      ok, v := DecodeItem(m, env, |env|, Basic(Enum));
    }
  }

  method DecodeBody(m: MemStream, env: Env, results: Filter) returns (ok: bool, v: Value)
    requires m.Valid() && InScope(env, |env|, results) && InScope(env, |env|, ReplyBody(results))
    modifies m
    ensures Decoded(m, ok, v, Decode(env, |env|, ReplyBody(results), old(m.Remaining())))
  {
    v := VVoid;
    var stat;
    ok, stat := m.GetLong();
    if !ok {
      return;
    }
    ok, v := DecodeKind(m, env, results, ToSigned(stat));
    v := VUnion(ToSigned(stat), v);
  }

  method DecodeKind(m: MemStream, env: Env, results: Filter, stat: int) returns (ok: bool, v: Value)
    requires m.Valid() && InScope(env, |env|, results) && InScope(env, |env|, ReplyBody(results))
    modifies m
    ensures Decoded(m, ok, v, old(ArmMeaning(m, env, |env|, ReplyBody(results), stat)))
  {
    MessageInScope(env, results);
    ChooseOfTwo(Arm(MSG_ACCEPTED, AcceptedReply(results)), Arm(MSG_DENIED, REJECTED_REPLY), None, stat);
    ok, v := false, VVoid;
    if stat == MSG_ACCEPTED {
      ok, v := DecodeAccepted(m, env, results);
    } else if stat == MSG_DENIED {
      ok, v := DecodeRejected(m, env);
    }
  }

  method DecodeDirected(m: MemStream, env: Env, results: Filter) returns (ok: bool, v: Value)
    requires m.Valid() && InScope(env, |env|, results) && InScope(env, |env|, Directed(results))
    modifies m
    ensures Decoded(m, ok, v, Decode(env, |env|, Directed(results), old(m.Remaining())))
  {
    MessageInScope(env, results);
    v := VVoid;
    var w;
    ok, w := m.GetLong();
    if !ok {
      return;
    }
    var direction := ToSigned(w);
    ChooseOfOne(Arm(REPLY, ReplyBody(results)), None, direction);
    if direction != REPLY {
      return false, v;
    }
    ok, v := DecodeBody(m, env, results);
    v := VUnion(direction, v);
  }

  /** `xdr_replymsg`, decoding: exactly what the declaration of the message prescribes. */
  method DecodeReplyMsg(m: MemStream, env: Env, results: Filter) returns (ok: bool, v: Value)
    requires m.Valid() && InScope(env, |env|, results) && InScope(env, |env|, Message(results))
    modifies m
    ensures Decoded(m, ok, v, Decode(env, |env|, Message(results), old(m.Remaining())))
  {
    MessageInScope(env, results);
    DecodePair(env, |env|, Basic(ULong), Directed(results), m.Remaining());
    v := VVoid;
    var xid, directed;
    ok, xid := DecodeItem(m, env, |env|, Basic(ULong));
    if !ok {
      return;
    }
    ok, directed := DecodeDirected(m, env, results);
    v := VSeq([xid, directed]);
  }
}
