/**
 * XDR over a memory buffer: the stream operations, and the filter procedures run on it.
 */
module XdrMem {
  import opened Bytes
  import opened Xdr

  /** What `x_handy -= len` makes of the count, in 32 bits. */
  function Less(handy: int, len: Word): int {
    if handy - len < -TWO_TO_31 then handy - len + TWO_TO_32 else handy - len
  }

  /** The count is not negative afterwards: `len` bytes are left, or the subtraction has wrapped. */
  predicate Passes(handy: int, len: Word) {
    len <= handy || handy + TWO_TO_31 < len <= handy + TWO_TO_32
  }

  class MemStream {
    const base: array<Byte>
    var pos: nat      // x_private, as an offset from x_base
    var handy: int    // bytes that are left; negative once an operation has failed

    /** As operations find the stream, whatever has failed before them. */
    ghost predicate Sane()
      reads this
    {
      pos <= base.Length < TWO_TO_31 && pos + handy <= base.Length && -TWO_TO_31 <= handy
    }

    ghost predicate Valid()
      reads this
    {
      0 <= handy && Sane()
    }

    /** What has been written, or passed over, so far. */
    ghost function Before(): seq<Byte>
      reads this, base
      requires pos <= base.Length
    {
      base[..pos]
    }

    /** What is left to be decoded. */
    ghost function Remaining(): seq<Byte>
      reads this, base
      requires Valid()
    {
      base[..][pos..pos + handy]
    }

    constructor (addr: array<Byte>, size: nat)
      requires size <= addr.Length < TWO_TO_31
      ensures Valid() && base == addr && pos == 0 && handy == size
    {
      base, pos, handy := addr, 0, size;
    }

    /** Past the end of the buffer lies other memory, of which nothing is known. */
    method GetLong() returns (ok: bool, w: Word)
      requires Sane()
      modifies this
      ensures ok == Passes(old(handy), 4) && handy == Less(old(handy), 4)
      ensures pos == old(pos) + if ok then 4 else 0
      ensures 4 <= old(handy) ==> Valid() && Remaining() == old(Remaining())[4..]
      ensures 4 <= old(handy) ==> w == GetWord(old(Remaining())[..4])
      ensures ok && pos <= base.Length ==> w == GetWord(base[old(pos)..pos])
      ensures !ok ==> Sane()
    {
      ghost var b := base[..];
      if 4 <= handy {
        Reslice(b, pos, 4, pos + handy);
      }
      handy := Less(handy, 4);
      if handy < 0 {
        return false, 0;
      }
      w := *;
      if pos + 4 <= base.Length {
        w := GetWord(base[pos..pos + 4]);
      }
      pos := pos + 4;
      ok := true;
    }

    method PutLong(w: Word) returns (ok: bool)
      requires Sane()
      modifies this, base
      ensures ok == Passes(old(handy), 4) && handy == Less(old(handy), 4)
      ensures 4 <= old(handy) ==> Wrote(PutWord(w))
      ensures ok ==> Stored(PutWord(w))
      ensures !ok ==> Sane() && Kept()
    {
      handy := Less(handy, 4);
      if handy < 0 {
        return false;
      }
      Copy(PutWord(w));
      ok := true;
    }

    method GetBytes(len: Word) returns (ok: bool, data: seq<Byte>)
      requires Sane()
      modifies this
      ensures ok == Passes(old(handy), len) && handy == Less(old(handy), len)
      ensures pos == old(pos) + if ok then len else 0
      ensures len <= old(handy) ==> Valid() && Remaining() == old(Remaining())[len..]
      ensures len <= old(handy) ==> data == old(Remaining())[..len]
      ensures ok && pos <= base.Length ==> data == base[old(pos)..pos]
      ensures !ok ==> Sane()
    {
      ghost var b := base[..];
      if len <= handy {
        Reslice(b, pos, len, pos + handy);
      }
      handy := Less(handy, len);
      if handy < 0 {
        return false, [];
      }
      data := *;
      if pos + len <= base.Length {
        data := base[pos..pos + len];
      }
      pos := pos + len;
      ok := true;
    }

    method PutBytes(data: seq<Byte>) returns (ok: bool)
      requires Sane() && |data| < TWO_TO_32
      modifies this, base
      ensures ok == Passes(old(handy), |data|) && handy == Less(old(handy), |data|)
      ensures |data| <= old(handy) ==> Wrote(data)
      ensures ok ==> Stored(data)
      ensures !ok ==> Sane() && Kept()
    {
      handy := Less(handy, |data|);
      if handy < 0 {
        return false;
      }
      Copy(data);
      ok := true;
    }

    /** Copies `data` to the current position and steps over it; what is past the buffer goes elsewhere. */
    method Copy(data: seq<Byte>)
      requires pos <= base.Length
      modifies this`pos, base
      ensures Stored(data)
    {
      forall i | 0 <= i < |data| && pos + i < base.Length {
        base[pos + i] := data[i];
      }
      pos := pos + |data|;
    }

    /** `data` has been stored at the position, as far as the buffer reaches. */
    twostate predicate Stored(new data: seq<Byte>)
      requires old(pos) <= base.Length
      reads this`pos, base
    {
      && pos == old(pos) + |data|
      && base[..] == if pos <= base.Length then old(base[..])[..old(pos)] + data + old(base[..])[pos..]
                     else old(base[..])[..old(pos)] + data[..base.Length - old(pos)]
    }

    /** The bytes `data`, and nothing else, have been added at the position. */
    twostate predicate Wrote(new data: seq<Byte>)
      requires old(Sane())
      reads this, base
    {
      && Valid() && pos == old(pos) + |data| && handy == old(handy) - |data|
      && base[..] == old(base[..])[..old(pos)] + data + old(base[..])[pos..]
    }

    /** Neither the position nor the buffer has changed. */
    twostate predicate Kept()
      reads this, base
    {
      pos == old(pos) && base[..] == old(base[..])
    }

    /** Nothing before the position has changed. */
    twostate predicate Stuck()
      requires old(Sane())
      reads this, base
    {
      old(pos) <= pos <= base.Length && base[..][..old(pos)] == old(base[..])[..old(pos)]
    }

    function GetPos(): nat
      reads this
    {
      pos
    }

    /** Moves to `newPos` if that is not past the end, which stays where it was. */
    method SetPos(newPos: nat) returns (ok: bool)
      requires Sane()
      modifies this
      ensures ok == (newPos <= old(pos + handy))
      ensures pos + handy == old(pos + handy)
      ensures pos == if ok then newPos else old(pos)
      ensures if ok then Valid() else Sane()
    {
      if newPos > pos + handy {
        return false;
      }
      pos, handy := newPos, pos + handy - newPos;
      ok := true;
    }

    /** A direct view of the next `len` bytes, which the stream steps over. */
    method Inline(len: nat) returns (at: Option<nat>)
      requires Sane()
      modifies this
      ensures Sane() && pos + handy == old(pos + handy)
      ensures at == if len <= old(handy) then Some(old(pos)) else None
      ensures pos == old(pos) + if at.Some? then len else 0
    {
      if handy >= len {
        handy := handy - len;
        at := Some(pos);
        pos := pos + len;
      } else {
        at := None;
      }
    }
  }

  lemma {:induction false} SpliceTwice(b: seq<Byte>, p: nat, x: seq<Byte>, y: seq<Byte>)
    requires p + |x| + |y| <= |b|
    ensures var c := b[..p] + x + b[p + |x|..];
            var q := p + |x|;
            c[..q] + y + c[q + |y|..] == b[..p] + (x + y) + b[q + |y|..]
  {
  }

  /** Two writes in a row are one write. */
  twostate lemma WroteBoth(m: MemStream, new x: seq<Byte>, new y: seq<Byte>, new mid: seq<Byte>)
    requires old(m.Valid()) && m.Valid()
    requires |mid| == m.base.Length
    requires m.pos == old(m.pos) + |x| + |y| && m.handy == old(m.handy) - |x| - |y|
    requires mid == old(m.base[..])[..old(m.pos)] + x + old(m.base[..])[old(m.pos) + |x|..]
    requires m.base[..] == mid[..old(m.pos) + |x|] + y + mid[m.pos..]
    ensures m.Wrote(x + y)
  {
    SpliceTwice(old(m.base[..]), old(m.pos), x, y);
  }

  // ---------------------------------------------------------------- encoding

  /** `xdr_opaque` on an encoding stream. */
  method EncodeOpaque(m: MemStream, cp: seq<Byte>) returns (ok: bool)
    requires m.Valid() && |cp| < TWO_TO_31
    modifies m, m.base
    ensures ok == (|Padded(cp)| <= old(m.handy))
    ensures ok ==> m.Wrote(Padded(cp))
    ensures !ok ==> m.Stuck()
  {
    if |cp| == 0 {
      assert Padded(cp) == [];
      return true;
    }
    RoundUpBy(|cp|);
    var rndup := |cp| % 4;
    if rndup > 0 {
      rndup := 4 - rndup;
    }
    ok := m.PutBytes(cp);
    if !ok {
      return;
    }
    if rndup == 0 {
      assert Padded(cp) == cp;
      return true;
    }
    ghost var mid := m.base[..];
    assert Padded(cp) == cp + Zeros(rndup);
    ok := m.PutBytes(Zeros(rndup));
    if ok {
      WroteBoth(m, cp, Zeros(rndup), mid);
    }
  }

  /** An encoding procedure succeeds exactly when there is an encoding and room for it. */
  twostate predicate Encoded(m: MemStream, new ok: bool, new r: Option<seq<Byte>>)
    requires old(m.Valid())
    reads m, m.base
  {
    && ok == (r.Some? && |r.value| <= old(m.handy))
    && (ok ==> m.Wrote(r.value))
    && (!ok ==> m.Stuck())
  }

  /** A part that fails behind others makes the whole fail, and what was there before is untouched. */
  twostate lemma PartFailed(m: MemStream, new done: seq<Byte>, new mid: seq<Byte>, new x: Option<seq<Byte>>,
                            new rest: Option<seq<Byte>>)
    requires old(m.Valid()) && old(m.pos) + |done| <= m.pos <= m.base.Length == |mid|
    requires mid[..old(m.pos)] == old(m.base[..])[..old(m.pos)]
    requires m.base[..][..old(m.pos) + |done|] == mid[..old(m.pos) + |done|]
    requires x.Some? ==> |x.value| > old(m.handy) - |done|
    ensures Encoded(m, false, Join(Some(done), Join(x, rest)))
  {
    assert m.base[..][..old(m.pos)] == m.base[..][..old(m.pos) + |done|][..old(m.pos)];
  }

  /** One more part has been written behind others. */
  twostate lemma PartDone(m: MemStream, new done: seq<Byte>, new mid: seq<Byte>, new x: seq<Byte>,
                          new rest: Option<seq<Byte>>)
    requires old(m.Valid()) && m.Valid() && |mid| == m.base.Length
    requires m.pos == old(m.pos) + |done| + |x| && m.handy == old(m.handy) - |done| - |x|
    requires mid == old(m.base[..])[..old(m.pos)] + done + old(m.base[..])[old(m.pos) + |done|..]
    requires m.base[..] == mid[..old(m.pos) + |done|] + x + mid[m.pos..]
    ensures m.Wrote(done + x) && Join(Some(done), Join(Some(x), rest)) == Join(Some(done + x), rest)
  {
    WroteBoth(m, done, x, mid);
    JoinStep(done, x, rest);
  }

  /** A word and then the rest of an encoding. */
  twostate lemma AfterWord(m: MemStream, new w: Word, new mid: seq<Byte>, new ok: bool, new r: Option<seq<Byte>>)
    requires old(m.Valid()) && 4 <= old(m.handy) && |mid| == m.base.Length
    requires mid == old(m.base[..])[..old(m.pos)] + PutWord(w) + old(m.base[..])[old(m.pos) + 4..]
    requires ok == (r.Some? && |r.value| <= old(m.handy) - 4)
    requires ok ==> m.Valid() && m.pos == old(m.pos) + 4 + |r.value| && m.handy == old(m.handy) - 4 - |r.value|
    requires ok ==> m.base[..] == mid[..old(m.pos) + 4] + r.value + mid[m.pos..]
    requires !ok ==> old(m.pos) + 4 <= m.pos <= m.base.Length
    requires !ok ==> m.base[..][..old(m.pos) + 4] == mid[..old(m.pos) + 4]
    ensures Encoded(m, ok, Prefix(w, r))
  {
    if ok {
      WroteBoth(m, PutWord(w), r.value, mid);
    } else {
      assert m.base[..][..old(m.pos)] == m.base[..][..old(m.pos) + 4][..old(m.pos)];
    }
  }

  /** `xdr_bytes` and `xdr_string`: the length, its limit, then the opaque bytes. */
  method EncodeCounted(m: MemStream, cp: seq<Byte>, max: Word) returns (ok: bool)
    requires m.Valid() && |cp| < TWO_TO_31
    modifies m, m.base
    ensures Encoded(m, ok, if |cp| > max then None else Some(PutWord(|cp|) + Padded(cp)))
  {
    ok := m.PutLong(|cp|);
    if !ok {
      return;
    }
    if |cp| > max {
      return false;
    }
    ghost var mid := m.base[..];
    ok := EncodeOpaque(m, cp);
    AfterWord(m, |cp|, mid, ok, Some(Padded(cp)));
  }

  /** Runs the encoding side of the procedure that `f` stands for on the object `v`. */
  method EncodeItem(m: MemStream, env: Env, level: nat, f: Filter, v: Value) returns (ok: bool)
    requires m.Valid() && InScope(env, level, f) && HasType(env, level, f, v)
    modifies m, m.base
    ensures Encoded(m, ok, Encode(env, level, f, v))
    decreases v, level, f, 2
  {
    match f {
      case Basic(k) =>
        ok := m.PutLong(PutScalar(k, v.i));
      case Void =>
        ok := true;
      case Opaque(_) =>
        ok := EncodeOpaque(m, v.bytes);
      case CountedBytes(max) =>
        ok := EncodeCounted(m, v.bytes, max);
      case CString(max) =>
        ok := EncodeCounted(m, v.bytes, max);
      case Vector(_, e) =>
        ok := EncodeLoop(m, env, level, e, v.items);
      case Array(max, e) =>
        ok := EncodeArray(m, env, level, max, e, v);
      case Pointer(o) =>
        ok := EncodePointer(m, env, level, o, v);
      case Struct(fs) =>
        ok := EncodeMembers(m, env, level, fs, v.items);
      case Union(k, arms, d) =>
        ok := EncodeUnion(m, env, level, f, k, arms, d, v);
      case Named(id) =>
        ok := EncodeItem(m, env, id, env[id], v);
    }
  }

  lemma {:induction false} RestTyped(env: Env, level: nat, e: Filter, vs: seq<Value>, i: nat)
    requires i <= |vs| && InScope(env, level, e) && ItemsTyped(env, level, e, vs)
    ensures ItemsTyped(env, level, e, vs[i..])
  {
    if i == 0 {
      assert vs[0..] == vs;
    } else {
      RestTyped(env, level, e, vs[1..], i - 1);
      assert vs[1..][i - 1..] == vs[i..];
    }
  }

  /** What the elements from number `i` on are encoded as. */
  ghost function ItemsFrom(env: Env, level: nat, e: Filter, vs: seq<Value>, i: nat): Option<seq<Byte>>
    requires i <= |vs| && InScope(env, level, e) && ItemsTyped(env, level, e, vs)
  {
    RestTyped(env, level, e, vs, i);
    EncodeItems(env, level, e, vs[i..])
  }

  /** One turn of the loop over the elements; `x` is what this one is encoded as. */
  method EncodeNext(m: MemStream, env: Env, level: nat, e: Filter, vs: seq<Value>, i: nat)
    returns (ok: bool, ghost x: Option<seq<Byte>>)
    requires m.Valid() && i < |vs| && InScope(env, level, e) && ItemsTyped(env, level, e, vs)
    modifies m, m.base
    ensures Encoded(m, ok, x) && ItemsFrom(env, level, e, vs, i) == Join(x, ItemsFrom(env, level, e, vs, i + 1))
    decreases vs, level, e, 0
  {
    RestTyped(env, level, e, vs, i);
    assert vs[i..][0] == vs[i] && vs[i..][1..] == vs[i + 1..];
    x := Encode(env, level, e, vs[i]);
    ok := EncodeItem(m, env, level, e, vs[i]);
  }

  /** The loop of `xdr_vector` and `xdr_array`: the element procedure on each element in turn. */
  method EncodeLoop(m: MemStream, env: Env, level: nat, e: Filter, vs: seq<Value>) returns (ok: bool)
    requires m.Valid() && InScope(env, level, e) && ItemsTyped(env, level, e, vs)
    modifies m, m.base
    ensures Encoded(m, ok, EncodeItems(env, level, e, vs))
    decreases vs, level, e, 1
  {
    ghost var done: seq<Byte> := [];
    var i := 0;
    assert vs[0..] == vs;
    ghost var all := ItemsFrom(env, level, e, vs, 0);
    JoinStep([], [], all);
    while i < |vs|
      invariant 0 <= i <= |vs| && m.Wrote(done) && all == Join(Some(done), ItemsFrom(env, level, e, vs, i))
    {
      ghost var mid, x := m.base[..], None;
      ok, x := EncodeNext(m, env, level, e, vs, i);
      if !ok {
        PartFailed(m, done, mid, x, ItemsFrom(env, level, e, vs, i + 1));
        return;
      }
      PartDone(m, done, mid, x.value, ItemsFrom(env, level, e, vs, i + 1));
      done := done + x.value;
      i := i + 1;
    }
    assert done + [] == done;
    ok := true;
  }

  lemma {:induction false} JoinStep(done: seq<Byte>, x: seq<Byte>, r: Option<seq<Byte>>)
    ensures Join(Some(done), Join(Some(x), r)) == Join(Some(done + x), r)
    ensures Join(Some([]), r) == r
  {
    assert r.Some? ==> [] + r.value == r.value;
    if r.Some? {
      assert done + (x + r.value) == done + x + r.value;
    }
  }

  lemma {:induction false} MembersTyped(env: Env, level: nat, fs: seq<Filter>, vs: seq<Value>, i: nat)
    requires i <= |vs| == |fs| && FieldsInScope(env, level, fs) && FieldsTyped(env, level, fs, vs)
    ensures FieldsInScope(env, level, fs[i..]) && FieldsTyped(env, level, fs[i..], vs[i..])
  {
    if i == 0 {
      assert vs[0..] == vs && fs[0..] == fs;
    } else {
      MembersTyped(env, level, fs[1..], vs[1..], i - 1);
      assert vs[1..][i - 1..] == vs[i..] && fs[1..][i - 1..] == fs[i..];
    }
  }

  ghost function FieldsFrom(env: Env, level: nat, fs: seq<Filter>, vs: seq<Value>, i: nat): Option<seq<Byte>>
    requires i <= |vs| == |fs| && FieldsInScope(env, level, fs) && FieldsTyped(env, level, fs, vs)
  {
    MembersTyped(env, level, fs, vs, i);
    EncodeFields(env, level, fs[i..], vs[i..])
  }

  method EncodeNextField(m: MemStream, env: Env, level: nat, fs: seq<Filter>, vs: seq<Value>, i: nat)
    returns (ok: bool, ghost x: Option<seq<Byte>>)
    requires m.Valid() && i < |vs| == |fs| && FieldsInScope(env, level, fs) && FieldsTyped(env, level, fs, vs)
    modifies m, m.base
    ensures Encoded(m, ok, x) && FieldsFrom(env, level, fs, vs, i) == Join(x, FieldsFrom(env, level, fs, vs, i + 1))
    decreases vs, level, fs, 0
  {
    MembersTyped(env, level, fs, vs, i);
    assert vs[i..][0] == vs[i] && vs[i..][1..] == vs[i + 1..];
    assert fs[i..][0] == fs[i] && fs[i..][1..] == fs[i + 1..];
    x := Encode(env, level, fs[i], vs[i]);
    ok := EncodeItem(m, env, level, fs[i], vs[i]);
  }

  /** The same for the members of a structure, each with its own procedure. */
  method EncodeMembers(m: MemStream, env: Env, level: nat, fs: seq<Filter>, vs: seq<Value>) returns (ok: bool)
    requires |fs| == |vs| && m.Valid() && FieldsInScope(env, level, fs) && FieldsTyped(env, level, fs, vs)
    modifies m, m.base
    ensures Encoded(m, ok, EncodeFields(env, level, fs, vs))
    decreases vs, level, fs, 1
  {
    ghost var done: seq<Byte> := [];
    var i := 0;
    assert vs[0..] == vs && fs[0..] == fs;
    ghost var all := FieldsFrom(env, level, fs, vs, 0);
    JoinStep([], [], all);
    while i < |fs|
      invariant 0 <= i <= |fs| && m.Wrote(done) && all == Join(Some(done), FieldsFrom(env, level, fs, vs, i))
    {
      ghost var mid, x := m.base[..], None;
      ok, x := EncodeNextField(m, env, level, fs, vs, i);
      if !ok {
        PartFailed(m, done, mid, x, FieldsFrom(env, level, fs, vs, i + 1));
        return;
      }
      PartDone(m, done, mid, x.value, FieldsFrom(env, level, fs, vs, i + 1));
      done := done + x.value;
      i := i + 1;
    }
    assert done + [] == done;
    ok := true;
  }

  /** `xdr_array`: the count, its limit, then the elements. */
  method EncodeArray(m: MemStream, env: Env, level: nat, max: Word, e: Filter, v: Value) returns (ok: bool)
    requires m.Valid() && InScope(env, level, Array(max, e)) && HasType(env, level, Array(max, e), v)
    modifies m, m.base
    ensures Encoded(m, ok, Encode(env, level, Array(max, e), v))
    decreases v, level, Array(max, e), 0
  {
    ok := m.PutLong(|v.items|);
    if !ok {
      return;
    }
    if |v.items| > max {
      return false;
    }
    ghost var mid := m.base[..];
    ok := EncodeLoop(m, env, |env|, e, v.items);
    AfterWord(m, |v.items|, mid, ok, EncodeItems(env, |env|, e, v.items));
  }

  /** `xdr_pointer`: whether there is an object, then the object by reference. */
  method EncodePointer(m: MemStream, env: Env, level: nat, o: Filter, v: Value) returns (ok: bool)
    requires m.Valid() && InScope(env, level, Pointer(o)) && HasType(env, level, Pointer(o), v)
    modifies m, m.base
    ensures Encoded(m, ok, Encode(env, level, Pointer(o), v))
    decreases v, level, Pointer(o), 0
  {
    var moreData := v != VNull;
    ok := m.PutLong(if moreData then 1 else 0);
    if !ok || !moreData {
      return;
    }
    ghost var mid := m.base[..];
    ok := EncodeItem(m, env, |env|, o, v.target);
    AfterWord(m, 1, mid, ok, Encode(env, |env|, o, v.target));
  }

  /** What the arm in use is encoded as; without an arm there is no encoding. */
  ghost function ArmEncoding(env: Env, level: nat, u: Filter, v: Value): Option<seq<Byte>>
    requires u.Union? && InScope(env, level, u) && HasType(env, level, u, v)
  {
    SelectScoped(u.arms, u.dflt, v.discriminant, level, |env|);
    var body := Select(u.arms, u.dflt, v.discriminant);
    if body == None then None else Encode(env, level, body.value, v.arm)
  }

  lemma {:induction false} UnionEncoding(env: Env, level: nat, u: Filter, v: Value)
    requires u.Union? && InScope(env, level, u) && HasType(env, level, u, v)
    ensures Encode(env, level, u, v) == Prefix(PutScalar(u.kind, v.discriminant), ArmEncoding(env, level, u, v))
  {
  }

  /** `xdr_union`: the discriminant, then the first choice that matches it or the default. */
  method EncodeUnion(m: MemStream, env: Env, level: nat, ghost u: Filter, k: Scalar, arms: seq<Arm>,
                     dflt: Option<Filter>, v: Value)
    returns (ok: bool)
    requires m.Valid() && u == Union(k, arms, dflt) && InScope(env, level, u) && HasType(env, level, u, v)
    modifies m, m.base
    ensures Encoded(m, ok, Encode(env, level, u, v))
    decreases v, level, u, 1
  {
    var dscm := v.discriminant;
    UnionEncoding(env, level, u, v);
    ok := m.PutLong(PutScalar(k, dscm));
    if !ok {
      return;
    }
    ghost var mid := m.base[..];
    ok := EncodeArm(m, env, level, u, arms, dflt, v);
    AfterWord(m, PutScalar(k, dscm), mid, ok, ArmEncoding(env, level, u, v));
  }

  method EncodeArm(m: MemStream, env: Env, level: nat, ghost u: Filter, arms: seq<Arm>, dflt: Option<Filter>, v: Value)
    returns (ok: bool)
    requires m.Valid() && u.Union? && u.arms == arms && u.dflt == dflt
    requires InScope(env, level, u) && HasType(env, level, u, v)
    modifies m, m.base
    ensures Encoded(m, ok, ArmEncoding(env, level, u, v))
    decreases v, level, u, 0
  {
    var dscm, i := v.discriminant, 0;
    assert arms[0..] == arms;
    while i < |arms|
      invariant 0 <= i <= |arms| && Select(arms, dflt, dscm) == Select(arms[i..], dflt, dscm)
    {
      assert arms[i..][0] == arms[i] && arms[i..][1..] == arms[i + 1..];
      if arms[i].value == dscm {
        ok := EncodeItem(m, env, level, arms[i].body, v.arm);
        return;
      }
      i := i + 1;
    }
    if dflt == None {
      return false;
    }
    ok := EncodeItem(m, env, level, dflt.value, v.arm);
  }

  // ---------------------------------------------------------------- decoding

  /** A decoding procedure yields what the bytes left mean and leaves what lies behind them. */
  twostate predicate Decoded<T>(m: MemStream, new ok: bool, new v: T, new r: Option<(T, seq<Byte>)>)
    requires old(m.Valid())
    reads m, m.base
  {
    match r
    case None => !ok
    case Some((x, rest)) =>
      ok && m.Valid() && m.pos + m.handy == old(m.pos + m.handy) && v == x && m.Remaining() == rest
  }

  /** The padding bytes behind `n` others. */
  lemma {:induction false} RoundUpBy(n: nat)
    ensures RoundUp(n) == n + if n % 4 > 0 then 4 - n % 4 else 0
  {
  }

  /** `xdr_opaque` on a decoding stream. */
  method DecodeOpaqueItem(m: MemStream, cnt: nat) returns (ok: bool, v: Value)
    requires m.Valid() && cnt < TWO_TO_31
    modifies m
    ensures Decoded(m, ok, v, DecodeOpaque(cnt, old(m.Remaining())))
  {
    v := VBytes([]);
    ghost var s := m.Remaining();
    RoundUpBy(cnt);
    if cnt == 0 {
      assert s[..0] == [] && s[0..] == s;
      return true, v;
    }
    var rndup := cnt % 4;
    if rndup > 0 {
      rndup := 4 - rndup;
    }
    assert RoundUp(cnt) == cnt + rndup;
    if cnt + rndup <= |s| {
      Reslice(s, cnt, rndup, |s|);
      assert s[cnt..|s|] == s[cnt..] && s[cnt + rndup..|s|] == s[cnt + rndup..];
    }
    var cp;
    ok, cp := m.GetBytes(cnt);
    if !ok {
      return;
    }
    v := VBytes(cp);
    if rndup == 0 {
      return true, v;
    }
    var crud;
    ok, crud := m.GetBytes(rndup);
  }

  /** `xdr_bytes`: the length, its limit, then the opaque bytes. */
  method DecodeCountedItem(m: MemStream, max: Word) returns (ok: bool, v: Value)
    requires m.Valid()
    modifies m
    ensures var s := old(m.Remaining());
            Decoded(m, ok, v, if |s| < 4 then None else DecodeCounted(GetWord(s[..4]), max, s[4..]))
    ensures ok ==> v.VBytes?
  {
    v := VBytes([]);
    var nodesize;
    ok, nodesize := m.GetLong();
    if !ok {
      return;
    }
    if nodesize > max {
      return false, v;
    }
    if nodesize >= TWO_TO_31 {
      return false, v;
    }
    ok, v := DecodeOpaqueItem(m, nodesize);
  }

  /** `xdr_string`: one byte more than the count is allocated, or none if that wraps to nothing. */
  method DecodeStringItem(m: MemStream, max: Word) returns (ok: bool, v: Value)
    requires m.Valid()
    modifies m
    ensures var s := old(m.Remaining());
            Decoded(m, ok, v, if |s| < 4 then None else DecodeString(GetWord(s[..4]), max, s[4..]))
  {
    v := VNull;
    var size;
    ok, size := m.GetLong();
    if !ok {
      return;
    }
    if size > max {
      return false, v;
    }
    var nodesize := (size + 1) % TWO_TO_32;
    if nodesize == 0 {
      return true, v;
    }
    if nodesize >= TWO_TO_31 {
      return false, v;
    }
    var sp;
    ok, sp := DecodeOpaqueItem(m, size);
    if ok {
      v := VBytes(UpToNul(sp.bytes));
    }
  }

  /** Runs the decoding side of the procedure that `f` stands for. */
  method DecodeItem(m: MemStream, env: Env, level: nat, f: Filter) returns (ok: bool, v: Value)
    requires m.Valid() && InScope(env, level, f)
    modifies m
    ensures Decoded(m, ok, v, Decode(env, level, f, old(m.Remaining())))
    decreases |m.Remaining()|, level, f, 2
  {
    v := VVoid;
    match f {
      case Basic(k) =>
        var w;
        ok, w := m.GetLong();
        v := VInt(GetScalar(k, w));
      case Void =>
        ok := true;
      case Opaque(n) =>
        ok, v := DecodeOpaqueItem(m, n);
      case CountedBytes(max) =>
        ok, v := DecodeCountedItem(m, max);
      case CString(max) =>
        ok, v := DecodeStringItem(m, max);
      case Vector(n, e) =>
        var vs;
        ok, vs := DecodeLoop(m, env, level, e, n);
        v := VSeq(vs);
      case Array(max, e) =>
        ok, v := DecodeArray(m, env, level, max, e);
      case Pointer(o) =>
        ok, v := DecodePointer(m, env, level, o);
      case Struct(fs) =>
        var vs;
        ok, vs := DecodeMembers(m, env, level, fs);
        v := VSeq(vs);
      case Union(k, arms, d) =>
        ok, v := DecodeUnion(m, env, level, k, arms, d);
      case Named(id) =>
        ok, v := DecodeItem(m, env, id, env[id]);
    }
  }

  /** Elements already decoded in front of those still to come. */
  ghost function Behind(done: seq<Value>, r: Option<(seq<Value>, seq<Byte>)>): Option<(seq<Value>, seq<Byte>)> {
    if r == None then None else Some((done + r.value.0, r.value.1))
  }

  lemma {:induction false} BehindStep(done: seq<Value>, x: Value, r: Option<(seq<Value>, seq<Byte>)>)
    ensures Behind(done, Behind([x], r)) == Behind(done + [x], r) && Behind([], r) == r
  {
    if r.Some? {
      assert done + ([x] + r.value.0) == done + [x] + r.value.0;
      assert [] + r.value.0 == r.value.0;
    }
  }

  /** What the next `n` elements on the stream decode to. */
  ghost function Elements(m: MemStream, env: Env, level: nat, e: Filter, n: nat): Option<(seq<Value>, seq<Byte>)>
    requires m.Valid() && InScope(env, level, e)
    reads m, m.base
  {
    DecodeItems(env, level, e, n, m.Remaining())
  }

  /** One turn of the loop over the elements. */
  method DecodeNext(m: MemStream, env: Env, level: nat, e: Filter, n: nat) returns (ok: bool, x: Value)
    requires m.Valid() && InScope(env, level, e) && n > 0
    modifies m
    ensures ok ==> m.Valid() && m.pos + m.handy == old(m.pos + m.handy) && m.handy <= old(m.handy)
    ensures old(Elements(m, env, level, e, n)) == if ok then Behind([x], Elements(m, env, level, e, n - 1)) else None
    decreases |m.Remaining()|, level, e, 3
  {
    ok, x := DecodeItem(m, env, level, e);
  }

  method DecodeLoop(m: MemStream, env: Env, level: nat, e: Filter, n: nat) returns (ok: bool, vs: seq<Value>)
    requires m.Valid() && InScope(env, level, e)
    modifies m
    ensures Decoded(m, ok, vs, old(Elements(m, env, level, e, n)))
    decreases |m.Remaining()|, level, e, 4
  {
    vs := [];
    var i := 0;
    ghost var all := Elements(m, env, level, e, n);
    BehindStep([], VVoid, all);
    while i < n
      invariant 0 <= i <= n && m.Valid() && m.pos + m.handy == old(m.pos + m.handy) && m.handy <= old(m.handy)
      invariant all == Behind(vs, Elements(m, env, level, e, n - i))
    {
      var x;
      ok, x := DecodeNext(m, env, level, e, n - i);
      if !ok {
        return;
      }
      i := i + 1;
      BehindStep(vs, x, Elements(m, env, level, e, n - i));
      vs := vs + [x];
    }
    assert vs + [] == vs;
    ok := true;
  }

  /** What the members from number `i` on decode to. */
  ghost function Members(m: MemStream, env: Env, level: nat, fs: seq<Filter>, i: nat)
    : Option<(seq<Value>, seq<Byte>)>
    requires m.Valid() && i <= |fs| && FieldsInScope(env, level, fs[i..])
    reads m, m.base
  {
    DecodeFields(env, level, fs[i..], m.Remaining())
  }

  method DecodeNextField(m: MemStream, env: Env, level: nat, fs: seq<Filter>, i: nat) returns (ok: bool, x: Value)
    requires m.Valid() && i < |fs| && FieldsInScope(env, level, fs[i..])
    modifies m
    ensures FieldsInScope(env, level, fs[i + 1..])
    ensures ok ==> m.Valid() && m.pos + m.handy == old(m.pos + m.handy) && m.handy <= old(m.handy)
    ensures old(Members(m, env, level, fs, i)) == if ok then Behind([x], Members(m, env, level, fs, i + 1)) else None
    decreases |m.Remaining()|, level, fs, 0
  {
    assert fs[i..][0] == fs[i] && fs[i..][1..] == fs[i + 1..];
    ok, x := DecodeItem(m, env, level, fs[i]);
  }

  /** The members of a structure in turn, each with its own procedure. */
  method DecodeMembers(m: MemStream, env: Env, level: nat, fs: seq<Filter>) returns (ok: bool, vs: seq<Value>)
    requires m.Valid() && FieldsInScope(env, level, fs)
    modifies m
    ensures Decoded(m, ok, vs, DecodeFields(env, level, fs, old(m.Remaining())))
    decreases |m.Remaining()|, level, fs, 1
  {
    vs := [];
    var i := 0;
    assert fs[0..] == fs;
    ghost var all := Members(m, env, level, fs, 0);
    BehindStep([], VVoid, all);
    while i < |fs|
      invariant 0 <= i <= |fs| && m.Valid() && m.pos + m.handy == old(m.pos + m.handy) && m.handy <= old(m.handy)
      invariant FieldsInScope(env, level, fs[i..]) && all == Behind(vs, Members(m, env, level, fs, i))
    {
      var x;
      ok, x := DecodeNextField(m, env, level, fs, i);
      if !ok {
        return;
      }
      i := i + 1;
      BehindStep(vs, x, Members(m, env, level, fs, i));
      vs := vs + [x];
    }
    assert vs + [] == vs;
    ok := true;
  }

  method DecodeArray(m: MemStream, env: Env, level: nat, max: Word, e: Filter) returns (ok: bool, v: Value)
    requires m.Valid() && InScope(env, level, Array(max, e))
    modifies m
    ensures Decoded(m, ok, v, Decode(env, level, Array(max, e), old(m.Remaining())))
    decreases |m.Remaining()|, level, Array(max, e), 0
  {
    v := VSeq([]);
    var c;
    ok, c := m.GetLong();
    if !ok {
      return;
    }
    if c > max || c >= TWO_TO_31 {
      return false, v;
    }
    var vs;
    ok, vs := DecodeLoop(m, env, |env|, e, c);
    v := VSeq(vs);
  }

  method DecodePointer(m: MemStream, env: Env, level: nat, o: Filter) returns (ok: bool, v: Value)
    requires m.Valid() && InScope(env, level, Pointer(o))
    modifies m
    ensures Decoded(m, ok, v, Decode(env, level, Pointer(o), old(m.Remaining())))
    decreases |m.Remaining()|, level, Pointer(o), 0
  {
    v := VNull;
    var moreData;
    ok, moreData := m.GetLong();
    if !ok || moreData == 0 {
      return;
    }
    ok, v := DecodeItem(m, env, |env|, o);
    v := VPtr(v);
  }

  /** What the arm that the discriminant selects decodes to. */
  ghost function ArmMeaning(m: MemStream, env: Env, level: nat, u: Filter, dscm: int): Option<(Value, seq<Byte>)>
    requires m.Valid() && u.Union? && InScope(env, level, u)
    reads m, m.base
  {
    SelectScoped(u.arms, u.dflt, dscm, level, |env|);
    var body := Select(u.arms, u.dflt, dscm);
    if body == None then None else Decode(env, level, body.value, m.Remaining())
  }

  method DecodeUnion(m: MemStream, env: Env, level: nat, k: Scalar, arms: seq<Arm>, dflt: Option<Filter>)
    returns (ok: bool, v: Value)
    requires m.Valid() && InScope(env, level, Union(k, arms, dflt))
    modifies m
    ensures Decoded(m, ok, v, Decode(env, level, Union(k, arms, dflt), old(m.Remaining())))
    decreases |m.Remaining()|, level, Union(k, arms, dflt), 1
  {
    v := VVoid;
    var w;
    ok, w := m.GetLong();
    if !ok {
      return;
    }
    var dscm := GetScalar(k, w);
    ok, v := DecodeArm(m, env, level, Union(k, arms, dflt), arms, dflt, dscm);
    v := VUnion(dscm, v);
  }

  /** The first choice that matches `dscm` or the default. */
  method DecodeArm(m: MemStream, env: Env, level: nat, ghost u: Filter, arms: seq<Arm>, dflt: Option<Filter>, dscm: int)
    returns (ok: bool, v: Value)
    requires m.Valid() && u.Union? && u.arms == arms && u.dflt == dflt && InScope(env, level, u)
    modifies m
    ensures Decoded(m, ok, v, old(ArmMeaning(m, env, level, u, dscm)))
    decreases |m.Remaining()|, level, u, 0
  {
    SelectScoped(arms, dflt, dscm, level, |env|);
    var i := 0;
    assert arms[0..] == arms;
    while i < |arms|
      invariant 0 <= i <= |arms| && Select(arms, dflt, dscm) == Select(arms[i..], dflt, dscm)
    {
      assert arms[i..][0] == arms[i] && arms[i..][1..] == arms[i + 1..];
      if arms[i].value == dscm {
        ok, v := DecodeItem(m, env, level, arms[i].body);
        return;
      }
      i := i + 1;
    }
    if dflt == None {
      return false, VVoid;
    }
    ok, v := DecodeItem(m, env, level, dflt.value);
  }
}
