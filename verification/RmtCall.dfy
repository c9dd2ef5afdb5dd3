/** The portmapper's remote-call service: argument lengths that are found or patched in afterwards. */
module RmtCall {
  import opened Bytes
  import opened Xdr
  import opened XdrMem

  const ARGSIZE: nat := 9000

  // ---------------------------------------------------------------- the client's side

  function HeadBytes(prog: Word, vers: Word, proc: Word): (s: seq<Byte>)
    ensures |s| == 12
  {
    PutWord(prog) + PutWord(vers) + PutWord(proc)
  }

  /** What the portmapper decodes: three numbers and counted opaque arguments. */
  function RmtCallArgs(): Filter {
    Struct([Basic(ULong), Basic(ULong), Basic(ULong), CountedBytes(ARGSIZE)])
  }

  /** The three words before the length. */
  method EncodeHead(m: MemStream, prog: Word, vers: Word, proc: Word) returns (ok: bool)
    requires m.Valid()
    modifies m, m.base
    ensures Encoded(m, ok, Some(HeadBytes(prog, vers, proc)))
  {
    ok := m.PutLong(prog);
    if !ok {
      return;
    }
    ghost var mid := m.base[..];
    ok := m.PutLong(vers);
    if !ok {
      assert m.base[..][..old(m.pos)] == mid[..old(m.pos) + 4][..old(m.pos)];
      return;
    }
    WroteBoth(m, PutWord(prog), PutWord(vers), mid);
    mid := m.base[..];
    ok := m.PutLong(proc);
    if !ok {
      assert m.base[..][..old(m.pos)] == mid[..old(m.pos) + 8][..old(m.pos)];
      return;
    }
    WroteBoth(m, PutWord(prog) + PutWord(vers), PutWord(proc), mid);
  }

  /** The head, a place for the length, and the arguments. */
  method EncodeUnpatched(m: MemStream, head: (Word, Word, Word), arglen: Word, env: Env, args: Filter, v: Value)
    returns (ok: bool, lenposition: nat, argposition: nat)
    requires m.Valid() && InScope(env, |env|, args) && HasType(env, |env|, args, v)
    modifies m, m.base
    ensures var b := Encode(env, |env|, args, v);
            && ok == (b.Some? && 16 + |b.value| <= old(m.handy))
            && (ok ==> m.Wrote(HeadBytes(head.0, head.1, head.2) + PutWord(arglen) + b.value))
    ensures ok ==> lenposition == old(m.pos) + 12 && argposition == lenposition + 4
  {
    lenposition, argposition := 0, 0;
    ghost var h := HeadBytes(head.0, head.1, head.2);
    ok := EncodeHead(m, head.0, head.1, head.2);
    if !ok {
      return;
    }
    lenposition := m.GetPos();
    ghost var mid := m.base[..];
    ok := m.PutLong(arglen);
    if !ok {
      return;
    }
    WroteBoth(m, h, PutWord(arglen), mid);
    argposition := m.GetPos();
    mid := m.base[..];
    ok := EncodeItem(m, env, |env|, args, v);
    if ok {
      WroteBoth(m, h + PutWord(arglen), Encode(env, |env|, args, v).value, mid);
    }
  }

  /** Goes back to a place of four bytes, fills it in and returns. */
  method Patch(m: MemStream, at: nat, w: Word)
    requires m.Valid() && at + 4 <= m.pos
    modifies m, m.base
    ensures m.Valid() && m.pos == old(m.pos) && m.handy == old(m.handy)
    ensures m.base[..] == old(m.base[..])[..at] + PutWord(w) + old(m.base[..])[at + 4..]
  {
    var position := m.GetPos();
    var moved := m.SetPos(at);
    var ok := m.PutLong(w);
    moved := m.SetPos(position);
  }

  /**
   * `xdr_rmtcall_args`, written by the caller: a place for the length, the arguments, then back to
   * fill the length in. The outcome is that of encoding the arguments as counted opaque bytes,
   * whatever length the caller's structure held before.
   */
  method EncodeRmtCallArgs(m: MemStream, prog: Word, vers: Word, proc: Word, arglen: Word, env: Env, args: Filter,
                           v: Value)
    returns (ok: bool)
    requires m.Valid() && InScope(env, |env|, args) && HasType(env, |env|, args, v)
    modifies m, m.base
    ensures var b := Encode(env, |env|, args, v);
            && ok == (b.Some? && 16 + |b.value| <= old(m.handy))
            && (ok ==> m.Wrote(HeadBytes(prog, vers, proc) + PutWord(|b.value|) + b.value))
  {
    ghost var o, p := m.base[..], m.pos;
    var lenposition, argposition;
    ok, lenposition, argposition := EncodeUnpatched(m, (prog, vers, proc), arglen, env, args, v);
    if ok {
      var position := m.GetPos();
      ghost var b := Encode(env, |env|, args, v).value;
      Patched(o, p, HeadBytes(prog, vers, proc), PutWord(arglen), b, PutWord(|b|));
      Patch(m, lenposition, position - argposition);
    }
  }

  /** Replacing the middle one of three writes by another of its length. */
  lemma {:induction false} Patched(o: seq<Byte>, p: nat, x: seq<Byte>, y: seq<Byte>, z: seq<Byte>, y': seq<Byte>)
    requires p + |x| + |y| + |z| <= |o| && |y'| == |y|
    ensures var c := o[..p] + (x + y + z) + o[p + |x| + |y| + |z|..];
            c[..p + |x|] + y' + c[p + |x| + |y|..] == o[..p] + (x + y' + z) + o[p + |x| + |y| + |z|..]
  {
  }

  /**
   * What the caller writes is what the portmapper's procedure for counted opaque arguments
   * understands, with exactly the encoded arguments as the bytes, up to the limit and no further.
   */
  lemma {:induction false} PatchedLengthDecodes(prog: Word, vers: Word, proc: Word, env: Env, args: Filter, v: Value,
                                                t: seq<Byte>)
    requires InScope(env, |env|, args) && HasType(env, |env|, args, v) && Encode(env, |env|, args, v).Some?
    requires |Encode(env, |env|, args, v).value| < TWO_TO_31
    ensures var b := Encode(env, |env|, args, v).value;
            var s := HeadBytes(prog, vers, proc) + PutWord(|b|) + b + t;
            Decode([], 0, RmtCallArgs(), s)
            == if |b| > ARGSIZE then None
               else Some((VSeq([VInt(prog), VInt(vers), VInt(proc), VBytes(b)]), t))
  {
    EncodeThenDecode(env, |env|, args, v, []);
    CountedArgsDecode(prog, vers, proc, Encode(env, |env|, args, v).value, t);
  }

  /** Whole units behind their count and the three numbers. */
  lemma {:induction false} CountedArgsDecode(prog: Word, vers: Word, proc: Word, b: seq<Byte>, t: seq<Byte>)
    requires |b| % 4 == 0 && |b| < TWO_TO_31
    ensures Decode([], 0, RmtCallArgs(), HeadBytes(prog, vers, proc) + PutWord(|b|) + b + t)
         == if |b| > ARGSIZE then None else Some((VSeq([VInt(prog), VInt(vers), VInt(proc), VBytes(b)]), t))
  {
    assert RoundUp(|b|) == |b|;
    assert Padded(b) == b + [] == b;
    var s := PutWord(|b|) + b + t;
    assert HeadBytes(prog, vers, proc) + PutWord(|b|) + b + t
        == PutWord(prog) + (PutWord(vers) + (PutWord(proc) + s));
    var fs := [CountedBytes(ARGSIZE)];
    EachScoped(fs, 0, 0);
    LastField(b, t);
    ThreeNumbers(prog, vers, proc, fs, s);
    assert [Basic(ULong), Basic(ULong), Basic(ULong)] + fs == RmtCallArgs().fields;
    assert [VInt(prog), VInt(vers), VInt(proc)] + [VBytes(b)] == [VInt(prog), VInt(vers), VInt(proc), VBytes(b)];
  }

  lemma {:induction false} ThreeNumbers(prog: Word, vers: Word, proc: Word, fs: seq<Filter>, s: seq<Byte>)
    requires FieldsInScope([], 0, fs)
    ensures var u := Basic(ULong);
            && FieldsInScope([], 0, [u, u, u] + fs)
            && DecodeFields([], 0, [u, u, u] + fs, PutWord(prog) + (PutWord(vers) + (PutWord(proc) + s)))
               == Behind([VInt(prog), VInt(vers), VInt(proc)], DecodeFields([], 0, fs, s))
  {
    var u := Basic(ULong);
    var r := DecodeFields([], 0, fs, s);
    NumberField(proc, fs, s);
    NumberField(vers, [u] + fs, PutWord(proc) + s);
    NumberField(prog, [u] + ([u] + fs), PutWord(vers) + (PutWord(proc) + s));
    assert [u] + ([u] + ([u] + fs)) == [u, u, u] + fs;
    if r.Some? {
      assert [VInt(prog)] + ([VInt(vers)] + ([VInt(proc)] + r.value.0))
          == [VInt(prog), VInt(vers), VInt(proc)] + r.value.0;
    }
  }

  lemma {:induction false} NumberField(w: Word, fs: seq<Filter>, s: seq<Byte>)
    requires FieldsInScope([], 0, fs)
    ensures FieldsInScope([], 0, [Basic(ULong)] + fs)
    ensures DecodeFields([], 0, [Basic(ULong)] + fs, PutWord(w) + s) == Behind([VInt(w)], DecodeFields([], 0, fs, s))
  {
    assert ([Basic(ULong)] + fs)[1..] == fs;
    WordFirst(w, s);
  }

  lemma {:induction false} LastField(b: seq<Byte>, t: seq<Byte>)
    requires |b| < TWO_TO_31 && Padded(b) == b && FieldsInScope([], 0, [CountedBytes(ARGSIZE)])
    ensures DecodeFields([], 0, [CountedBytes(ARGSIZE)], PutWord(|b|) + b + t)
         == if |b| > ARGSIZE then None else Some(([VBytes(b)], t))
  {
    CountedRoundTrip(b, t);
    assert [CountedBytes(ARGSIZE)][1..] == [];
    var s := PutWord(|b|) + b + t;
    var x := Decode([], 0, CountedBytes(ARGSIZE), s);
    assert x == if |b| > ARGSIZE then None else Some((VBytes(b), t));
    assert [VBytes(b)] + [] == [VBytes(b)];
    assert DecodeFields([], 0, [], t) == Some(([], t));
  }

  // ---------------------------------------------------------------- finding a length

  /**
   * `xdr_len_opaque_parms`: a binary search for the last position the stream can be set to, within
   * ARGSIZE of the start. It finds the number of bytes left or ARGSIZE, whichever is less, and goes
   * back. Taking that many bytes as opaque data then fails exactly when their padding is not there.
   */
  method DecodeLenOpaque(m: MemStream) returns (ok: bool, arglen: nat, v: Value)
    requires m.Valid()
    modifies m
    ensures arglen == if old(m.handy) < ARGSIZE then old(m.handy) else ARGSIZE
    ensures ok == (old(m.handy) >= ARGSIZE || old(m.handy) % 4 == 0)
    ensures ok ==> m.Valid() && v == VBytes(old(m.Remaining())[..arglen])
                   && m.Remaining() == old(m.Remaining())[arglen..]
  {
    ghost var s := m.Remaining();
    arglen := FindLength(m);
    assert m.Remaining() == s;
    ok, v := DecodeOpaqueItem(m, arglen);
  }

  method FindLength(m: MemStream) returns (arglen: nat)
    requires m.Valid()
    modifies m
    ensures m.pos == old(m.pos) && m.handy == old(m.handy)
    ensures arglen == if m.handy < ARGSIZE then m.handy else ARGSIZE
  {
    var beginpos := m.GetPos();
    var lowpos, pos: nat := beginpos, beginpos;
    var highpos: int := lowpos + ARGSIZE;
    ghost var end := m.pos + m.handy;
    while highpos - lowpos >= 0
      invariant beginpos <= pos <= end && beginpos <= lowpos <= highpos + 1 && highpos <= beginpos + ARGSIZE
      invariant m.Valid() && m.pos + m.handy == end
      invariant pos == if lowpos == beginpos then beginpos else lowpos - 1
      invariant highpos == beginpos + ARGSIZE || highpos >= end
      invariant highpos < beginpos + ARGSIZE ==> highpos + 1 > end
      decreases highpos - lowpos
    {
      var currpos := (lowpos + highpos) / 2;
      assert lowpos <= currpos <= highpos;
      var there := m.SetPos(currpos);
      if there {
        pos := currpos;
        lowpos := currpos + 1;
      } else {
        highpos := currpos - 1;
      }
    }
    var back := m.SetPos(beginpos);
    arglen := pos - beginpos;
  }
}
