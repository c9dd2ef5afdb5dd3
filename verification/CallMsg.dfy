/** `xdr_callmsg`: call headers through in-line buffer access, or field by field when that is refused. */
module CallMsg {
  import opened Bytes

  const CALL: Word := 0
  const RPC_MSG_VERSION: Word := 2

  datatype Auth = Auth(flavor: Word, body: seq<Byte>)

  datatype Msg = Msg(xid: Word, direction: Word, rpcvers: Word, prog: Word, vers: Word, proc: Word,
                     cred: Auth, verf: Auth)

  // ---------------------------------------------------------------- what the bytes mean

  /** The longhand of the header: seven words, then two length-counted authenticators. */
  function Take(s: seq<Byte>): Option<(Word, seq<Byte>)> {
    if |s| < 4 then None else Some((GetWord(s[..4]), s[4..]))
  }

  /** `xdr_opaque_auth` on a decoding stream. */
  function TakeAuth(s: seq<Byte>): Option<(Auth, seq<Byte>)> {
    if |s| < 8 then None else
      var n := GetWord(s[4..8]);
      if n > MAX_AUTH_BYTES || |s| < 8 + RoundUp(n) then None
      else Some((Auth(GetWord(s[..4]), s[8..8 + n]), s[8 + RoundUp(n)..]))
  }

  /** The message a stream starts with, field by field, and what follows it. */
  function Parse(s: seq<Byte>): Option<(Msg, seq<Byte>)> {
    if |s| < 24 || GetWord(s[4..8]) != CALL || GetWord(s[8..12]) != RPC_MSG_VERSION then None else
      var c := TakeAuth(s[24..]);
      if c == None then None else
        var v := TakeAuth(c.value.1);
        if v == None then None else
          Some((Msg(GetWord(s[..4]), CALL, RPC_MSG_VERSION, GetWord(s[12..16]), GetWord(s[16..20]),
                    GetWord(s[20..24]), c.value.0, v.value.0), v.value.1))
  }

  /** The length of the read that fails when a body of `n` bytes and its padding are read from `left`, or 0. */
  function BodyCost(n: nat, left: nat): (c: nat)
    ensures c == 0 <==> RoundUp(n) <= left
  {
    if left < n then n else if left < RoundUp(n) then RoundUp(n) - n else 0
  }

  function AuthCost(s: seq<Byte>): (c: nat)
    ensures c <= MAX_AUTH_BYTES && (TakeAuth(s).Some? ==> c == 0)
  {
    if |s| < 8 then 4 else
      var n := GetWord(s[4..8]);
      if n > MAX_AUTH_BYTES then 0 else BodyCost(n, |s| - 8)
  }

  /** Of the six words in front, the second and the third are looked at before the next is read. */
  function HeadCost(s: seq<Byte>): nat {
    if |s| < 8 then 4
    else if GetWord(s[4..8]) != CALL then 0
    else if |s| < 12 then 4
    else if GetWord(s[8..12]) != RPC_MSG_VERSION then 0
    else if |s| < 24 then 4
    else 0
  }

  predicate HeadIsCall(s: seq<Byte>) {
    |s| >= 24 && GetWord(s[4..8]) == CALL && GetWord(s[8..12]) == RPC_MSG_VERSION
  }

  /** The length of the one read that fails when a header is refused for want of bytes, else 0. */
  function HeaderCost(s: seq<Byte>): (c: nat)
    ensures c <= MAX_AUTH_BYTES && (Parse(s).Some? ==> c == 0)
  {
    if !HeadIsCall(s) then HeadCost(s) else
      var c := TakeAuth(s[24..]);
      AuthCost(if c == None then s[24..] else c.value.1)
  }

  /** What comes of reading a header: the message, or what failing has cost. */
  function Outcome(s: seq<Byte>): (r: (Option<Msg>, nat))
    ensures r.1 <= MAX_AUTH_BYTES && (r.0.Some? ==> r.1 == 0)
  {
    (if Parse(s) == None then None else Some(Parse(s).value.0), HeaderCost(s))
  }

  function AuthBytes(a: Auth, pad: seq<Byte>): seq<Byte>
    requires |a.body| < TWO_TO_31
  {
    PutWord(a.flavor) + PutWord(|a.body|) + a.body + pad
  }

  predicate PadFor(a: Auth, pad: seq<Byte>) {
    |pad| == RoundUp(|a.body|) - |a.body|
  }

  function HeadBytes(m: Msg): (s: seq<Byte>)
    ensures |s| == 24
  {
    PutWord(m.xid) + PutWord(m.direction) + PutWord(m.rpcvers) + PutWord(m.prog) + PutWord(m.vers) + PutWord(m.proc)
  }

  /** The encoding of `m` with given bytes in the two places that only fill up a unit. */
  function MsgBytes(m: Msg, credPad: seq<Byte>, verfPad: seq<Byte>): seq<Byte>
    requires |m.cred.body| < TWO_TO_31 && |m.verf.body| < TWO_TO_31
  {
    HeadBytes(m) + AuthBytes(m.cred, credPad) + AuthBytes(m.verf, verfPad)
  }

  /** A message that may be sent: a call of version 2 with authenticators of at most 400 bytes. */
  predicate Sendable(m: Msg) {
    && m.direction == CALL && m.rpcvers == RPC_MSG_VERSION
    && |m.cred.body| <= MAX_AUTH_BYTES && |m.verf.body| <= MAX_AUTH_BYTES
  }

  lemma {:induction false} TakeAuthBytes(a: Auth, pad: seq<Byte>, t: seq<Byte>)
    requires |a.body| <= MAX_AUTH_BYTES && PadFor(a, pad)
    ensures TakeAuth(AuthBytes(a, pad) + t) == Some((a, t))
  {
    var s := AuthBytes(a, pad) + t;
    WordRoundTrip(a.flavor);
    WordRoundTrip(|a.body|);
    assert s[..4] == PutWord(a.flavor) && s[4..8] == PutWord(|a.body|);
    assert s[8..8 + |a.body|] == a.body;
    assert s[8 + RoundUp(|a.body|)..] == t;
  }

  /** Whatever fills the padding, the message comes back and nothing beyond it is consumed. */
  lemma {:induction false} ParseMsgBytes(m: Msg, credPad: seq<Byte>, verfPad: seq<Byte>, t: seq<Byte>)
    requires Sendable(m) && PadFor(m.cred, credPad) && PadFor(m.verf, verfPad)
    ensures Parse(MsgBytes(m, credPad, verfPad) + t) == Some((m, t))
  {
    var h, c, v := HeadBytes(m), AuthBytes(m.cred, credPad), AuthBytes(m.verf, verfPad);
    var s := MsgBytes(m, credPad, verfPad) + t;
    assert s[24..] == c + (v + t);
    HeadWords(m, s);
    TakeAuthBytes(m.cred, credPad, v + t);
    TakeAuthBytes(m.verf, verfPad, t);
  }

  lemma {:induction false} HeadWords(m: Msg, s: seq<Byte>)
    requires HeadBytes(m) <= s
    ensures GetWord(s[..4]) == m.xid && GetWord(s[4..8]) == m.direction && GetWord(s[8..12]) == m.rpcvers
    ensures GetWord(s[12..16]) == m.prog && GetWord(s[16..20]) == m.vers && GetWord(s[20..24]) == m.proc
  {
    var h := HeadBytes(m);
    assert s[..4] == h[..4] == PutWord(m.xid) && s[4..8] == h[4..8] == PutWord(m.direction);
    assert s[8..12] == h[8..12] == PutWord(m.rpcvers) && s[12..16] == h[12..16] == PutWord(m.prog);
    assert s[16..20] == h[16..20] == PutWord(m.vers) && s[20..24] == h[20..24] == PutWord(m.proc);
    WordRoundTrip(m.xid);
    WordRoundTrip(m.direction);
    WordRoundTrip(m.rpcvers);
    WordRoundTrip(m.prog);
    WordRoundTrip(m.vers);
    WordRoundTrip(m.proc);
  }

  lemma {:induction false} TakeAuthMore(s: seq<Byte>, t: seq<Byte>)
    requires TakeAuth(s).Some?
    ensures TakeAuth(s + t) == Some((TakeAuth(s).value.0, TakeAuth(s).value.1 + t))
  {
    var n := GetWord(s[4..8]);
    assert (s + t)[..4] == s[..4] && (s + t)[4..8] == s[4..8];
    assert (s + t)[8..8 + n] == s[8..8 + n];
    assert (s + t)[8 + RoundUp(n)..] == s[8 + RoundUp(n)..] + t;
  }

  lemma {:induction false} HeadMore(s: seq<Byte>, t: seq<Byte>)
    requires |s| >= 24
    ensures (s + t)[..4] == s[..4] && (s + t)[4..8] == s[4..8] && (s + t)[8..12] == s[8..12]
    ensures (s + t)[12..16] == s[12..16] && (s + t)[16..20] == s[16..20] && (s + t)[20..24] == s[20..24]
    ensures (s + t)[24..] == s[24..] + t
  {
  }

  /** A whole header means the same whatever lies behind it. */
  lemma {:induction false} ParseMore(s: seq<Byte>, t: seq<Byte>)
    requires Parse(s).Some?
    ensures Parse(s + t) == Some((Parse(s).value.0, Parse(s).value.1 + t))
  {
    HeadMore(s, t);
    TakeAuthMore(s[24..], t);
    TakeAuthMore(TakeAuth(s[24..]).value.1, t);
  }

  /** The longest header: ten words and two authenticators of the longest kind. */
  const HEADER_MAX: nat := 40 + 2 * MAX_AUTH_BYTES

  /** With so many bytes to read, no header is refused for want of more. */
  lemma {:induction false} HeaderFits(s: seq<Byte>, t: seq<Byte>)
    requires |s| >= HEADER_MAX
    ensures Parse(s + t).Some? == Parse(s).Some?
  {
    HeadMore(s, t);
    if Parse(s).Some? {
      ParseMore(s, t);
    } else if Parse(s + t).Some? {
      AuthFits(s[24..], t);
      TakeAuthMore(s[24..], t);
      AuthFits(TakeAuth(s[24..]).value.1, t);
      assert false;
    }
  }

  lemma {:induction false} AuthFits(s: seq<Byte>, t: seq<Byte>)
    requires |s| >= 8 + MAX_AUTH_BYTES && TakeAuth(s + t).Some?
    ensures TakeAuth(s).Some? && |TakeAuth(s).value.1| >= |s| - 8 - MAX_AUTH_BYTES
  {
    assert (s + t)[4..8] == s[4..8];
  }

  // ---------------------------------------------------------------- decoding

  /**
   * Any decoding stream. Direct access to the next bytes may be refused for the stream's own
   * reasons even when the bytes are there: at the end of a buffer, say, or of a fragment.
   */
  class InStream {
    var rem: seq<Byte>
    var cost: nat    // the lengths of the reads that have failed

    constructor (rem: seq<Byte>)
      ensures this.rem == rem && cost == 0
    {
      this.rem, cost := rem, 0;
    }

    method GetLong() returns (ok: bool, w: Word)
      modifies this
      ensures ok == Take(old(rem)).Some? && cost == old(cost) + if ok then 0 else 4
      ensures ok ==> (w, rem) == Take(old(rem)).value
    {
      if |rem| < 4 {
        cost := cost + 4;
        return false, 0;
      }
      ok, w, rem := true, GetWord(rem[..4]), rem[4..];
    }

    method GetOpaque(n: nat) returns (ok: bool, data: seq<Byte>)
      modifies this
      ensures ok == (RoundUp(n) <= |old(rem)|) && cost == old(cost) + BodyCost(n, |old(rem)|)
      ensures ok ==> data == old(rem)[..n] && rem == old(rem)[RoundUp(n)..]
    {
      if |rem| < RoundUp(n) {
        cost := cost + if |rem| < n then n else RoundUp(n) - n;
        return false, [];
      }
      ok, data, rem := true, rem[..n], rem[RoundUp(n)..];
    }

    method Inline(len: nat) returns (buf: Option<seq<Byte>>)
      modifies this`rem
      ensures buf == None ==> rem == old(rem)
      ensures buf.Some? ==> len <= |old(rem)| && buf.value == old(rem)[..len] && rem == old(rem)[len..]
    {
      if len <= |rem| {
        if * {
          buf := Some(rem[..len]);
          rem := rem[len..];
          return;
        }
      }
      buf := None;
    }
  }

  /** The body of an authenticator whose length word has been read. */
  method DecodeBody(s: InStream, n: Word) returns (ok: bool, body: seq<Byte>)
    modifies s
    ensures ok == (n <= MAX_AUTH_BYTES && RoundUp(n) <= |old(s.rem)|)
    ensures s.cost == old(s.cost) + if n > MAX_AUTH_BYTES then 0 else BodyCost(n, |old(s.rem)|)
    ensures ok ==> body == old(s.rem)[..n] && s.rem == old(s.rem)[RoundUp(n)..]
  {
    ok, body := true, [];
    if n != 0 {
      if n > MAX_AUTH_BYTES {
        return false, [];
      }
      var buf := s.Inline(RoundUp(n));
      if buf == None {
        ok, body := s.GetOpaque(n);
      } else {
        body := buf.value[..n];
      }
    }
  }

  /** `xdr_opaque_auth`, a word at a time. */
  method DecodeAuth(s: InStream) returns (ok: bool, a: Auth)
    modifies s
    ensures ok == TakeAuth(old(s.rem)).Some? && s.cost == old(s.cost) + AuthCost(old(s.rem))
    ensures ok ==> (a, s.rem) == TakeAuth(old(s.rem)).value
  {
    a := Auth(0, []);
    ghost var r := s.rem;
    assert 8 <= |r| ==> r[4..][..4] == r[4..8] && r[4..][4..] == r[8..];
    var flavor, n, body;
    ok, flavor := s.GetLong();
    if !ok {
      return;
    }
    ok, n := s.GetLong();
    if !ok {
      return;
    }
    assert s.rem == r[8..];
    if n > MAX_AUTH_BYTES {
      return false, a;
    }
    ok, body := s.GetOpaque(n);
    a := Auth(flavor, body);
    assert ok ==> r[8..][..n] == r[8..8 + n] && r[8..][RoundUp(n)..] == r[8 + RoundUp(n)..];
  }

  /** The last part of the in-line path: the verifier, in line or not. */
  method DecodeVerf(s: InStream) returns (ok: bool, a: Auth)
    modifies s
    ensures ok == TakeAuth(old(s.rem)).Some? && s.cost == old(s.cost) + AuthCost(old(s.rem))
    ensures ok ==> (a, s.rem) == TakeAuth(old(s.rem)).value
  {
    a := Auth(0, []);
    ghost var r := s.rem;
    assert 8 <= |r| ==> r[4..][..4] == r[4..8] && r[4..][4..] == r[8..];
    var flavor, n, body;
    var buf := s.Inline(8);
    if buf == None {
      ok, flavor := s.GetLong();
      if !ok {
        return;
      }
      ok, n := s.GetLong();
      if !ok {
        return;
      }
    } else {
      flavor, n := GetWord(buf.value[..4]), GetWord(buf.value[4..8]);
      assert buf.value[..4] == r[..4] && buf.value[4..8] == r[4..8];
    }
    assert s.rem == r[8..];
    ok, body := DecodeBody(s, n);
    a := Auth(flavor, body);
    assert ok ==> r[8..][..n] == r[8..8 + n] && r[8..][RoundUp(n)..] == r[8 + RoundUp(n)..];
  }

  /**
   * For every pattern of direct access being granted or refused, decoding gives the message that
   * the field-by-field reading gives, fails when that fails, and stops at the same byte. What a
   * failure costs the stream is the same for every pattern, too.
   */
  method DecodeCallMsg(s: InStream) returns (ok: bool, msg: Msg)
    modifies s
    ensures ok == Parse(old(s.rem)).Some? && s.cost == old(s.cost) + HeaderCost(old(s.rem))
    ensures ok ==> (msg, s.rem) == Parse(old(s.rem)).value
  {
    msg := Msg(0, 0, 0, 0, 0, 0, Auth(0, []), Auth(0, []));
    var buf := s.Inline(32);
    if buf != None {
      assert buf.value + s.rem == old(s.rem);
      ok, msg := DecodeInline(s, buf.value, msg);
    } else {
      ok, msg := DecodeGeneric(s, msg);
    }
  }

  method DecodeInline(s: InStream, b: seq<Byte>, m: Msg) returns (ok: bool, msg: Msg)
    requires |b| == 32
    modifies s
    ensures ok == Parse(b + old(s.rem)).Some? && s.cost == old(s.cost) + HeaderCost(b + old(s.rem))
    ensures ok ==> (msg, s.rem) == Parse(b + old(s.rem)).value
  {
    ghost var r := b + s.rem;
    assert r[..4] == b[..4] && r[4..8] == b[4..8] && r[8..12] == b[8..12];
    assert r[12..16] == b[12..16] && r[16..20] == b[16..20] && r[20..24] == b[20..24];
    ghost var c := r[24..];
    assert c[..4] == b[24..28] && c[4..8] == b[28..32] && c[8..] == s.rem;
    msg := m.(xid := GetWord(b[..4]), direction := GetWord(b[4..8]));
    if msg.direction != CALL {
      return false, msg;
    }
    msg := msg.(rpcvers := GetWord(b[8..12]));
    if msg.rpcvers != RPC_MSG_VERSION {
      return false, msg;
    }
    msg := msg.(prog := GetWord(b[12..16]), vers := GetWord(b[16..20]), proc := GetWord(b[20..24]));
    var n := GetWord(b[28..32]);
    var body;
    ok, body := DecodeBody(s, n);
    if !ok {
      return;
    }
    msg := msg.(cred := Auth(GetWord(b[24..28]), body));
    assert c[8..8 + n] == c[8..][..n] && c[8 + RoundUp(n)..] == c[8..][RoundUp(n)..];
    var verf;
    ok, verf := DecodeVerf(s);
    msg := msg.(verf := verf);
  }

  method DecodeGeneric(s: InStream, m: Msg) returns (ok: bool, msg: Msg)
    modifies s
    ensures ok == Parse(old(s.rem)).Some? && s.cost == old(s.cost) + HeaderCost(old(s.rem))
    ensures ok ==> (msg, s.rem) == Parse(old(s.rem)).value
  {
    ok, msg := DecodeHead(s, m);
    if !ok {
      return;
    }
    var a;
    ok, a := DecodeAuth(s);
    if !ok {
      return;
    }
    msg := msg.(cred := a);
    ok, a := DecodeAuth(s);
    msg := msg.(verf := a);
  }

  /** The six words before the authenticators, the second and third of which are checked. */
  method DecodeHead(s: InStream, m: Msg) returns (ok: bool, msg: Msg)
    modifies s
    ensures var r := old(s.rem);
            ok == HeadIsCall(r) && s.cost == old(s.cost) + HeadCost(r)
    ensures var r := old(s.rem);
            ok ==> s.rem == r[24..] && msg == m.(xid := GetWord(r[..4]), direction := CALL, rpcvers := RPC_MSG_VERSION,
                     prog := GetWord(r[12..16]), vers := GetWord(r[16..20]), proc := GetWord(r[20..24]))
  {
    ghost var r := s.rem;
    msg := m;
    var w: Word;
    ok, w := s.GetLong();
    if !ok {
      return;
    }
    msg := msg.(xid := w);
    ok, w := s.GetLong();
    if !ok || w != CALL {
      return false, msg;
    }
    assert s.rem == r[8..] && r[4..][..4] == r[4..8];
    msg := msg.(direction := w);
    ok, w := s.GetLong();
    if !ok || w != RPC_MSG_VERSION {
      return false, msg;
    }
    assert s.rem == r[12..] && r[8..][..4] == r[8..12];
    msg := msg.(rpcvers := w);
    ok, w := s.GetLong();
    if !ok {
      return;
    }
    assert s.rem == r[16..] && r[12..][..4] == r[12..16];
    msg := msg.(prog := w);
    ok, w := s.GetLong();
    if !ok {
      return;
    }
    assert s.rem == r[20..] && r[16..][..4] == r[16..20];
    msg := msg.(vers := w);
    ok, w := s.GetLong();
    assert ok ==> s.rem == r[24..] && r[20..][..4] == r[20..24];
    msg := msg.(proc := w);
  }

  // ---------------------------------------------------------------- encoding

  /**
   * Any encoding stream. Direct access may be refused; when it is granted the reserved bytes hold
   * whatever was there until they are stored to. An unreliable stream may refuse any write.
   */
  class OutStream {
    const reliable: bool
    var out: seq<Byte>

    constructor (reliable: bool)
      ensures this.reliable == reliable && out == []
    {
      this.reliable := reliable;
      out := [];
    }

    method PutLong(w: Word) returns (ok: bool)
      modifies this
      ensures ok ==> out == old(out) + PutWord(w)
      ensures !ok ==> !reliable && out == old(out)
    {
      ok := true;
      if !reliable {
        if * {
          return false;
        }
      }
      out := out + PutWord(w);
    }

    method PutOpaque(b: seq<Byte>) returns (ok: bool)
      modifies this
      ensures ok ==> out == old(out) + b + Zeros(RoundUp(|b|) - |b|)
      ensures !ok ==> !reliable && out == old(out)
    {
      ok := true;
      if !reliable {
        if * {
          return false;
        }
      }
      out := out + b + Zeros(RoundUp(|b|) - |b|);
    }

    method Inline(len: nat) returns (at: Option<nat>)
      modifies this
      ensures at == None ==> out == old(out)
      ensures at.Some? ==> at.value == |old(out)| && |out| == |old(out)| + len && out[..at.value] == old(out)
    {
      if * {
        at := Some(|out|);
        var junk: seq<Byte> := *;
        out := out + if |junk| == len then junk else Zeros(len);
      } else {
        at := None;
      }
    }

    /** A store through the pointer that `Inline` returned. */
    method Store(at: nat, b: seq<Byte>)
      requires at + |b| <= |out|
      modifies this
      ensures out == old(out)[..at] + b + old(out)[at + |b|..]
    {
      out := out[..at] + b + out[at + |b|..];
    }
  }

  /** The bytes `written` have been stored over `o` from `at` on. */
  ghost predicate Stored(o: seq<Byte>, out: seq<Byte>, at: nat, written: seq<Byte>) {
    at + |written| <= |o| && out == o[..at] + written + o[at + |written|..]
  }

  lemma {:induction false} StoredMore(o: seq<Byte>, out: seq<Byte>, at: nat, written: seq<Byte>, b: seq<Byte>)
    requires Stored(o, out, at, written) && at + |written| + |b| <= |o|
    ensures var k := at + |written|;
            Stored(o, out[..k] + b + out[k + |b|..], at, written + b)
  {
  }

  /** `IXDR_PUT_LONG`: stores one word at the cursor and steps over it. */
  method StoreWord(s: OutStream, buf: nat, w: Word, ghost o: seq<Byte>, ghost at: nat, ghost written: seq<Byte>)
    returns (next: nat)
    requires Stored(o, s.out, at, written) && buf == at + |written| && buf + 4 <= |s.out|
    modifies s
    ensures next == buf + 4 && Stored(o, s.out, at, written + PutWord(w))
  {
    StoredMore(o, s.out, at, written, PutWord(w));
    s.Store(buf, PutWord(w));
    next := buf + 4;
  }

  /** Stores the body of an authenticator; the bytes that fill up its last unit are left as they are. */
  method StoreBody(s: OutStream, buf: nat, body: seq<Byte>, ghost o: seq<Byte>, ghost at: nat,
                   ghost written: seq<Byte>)
    returns (next: nat, ghost pad: seq<Byte>)
    requires Stored(o, s.out, at, written) && buf == at + |written| && buf + RoundUp(|body|) <= |s.out|
    modifies s
    ensures next == buf + RoundUp(|body|) && |pad| == RoundUp(|body|) - |body|
    ensures Stored(o, s.out, at, written + body + pad)
  {
    next := buf;
    StoredMore(o, s.out, at, written, body);
    if |body| != 0 {
      s.Store(next, body);
      next := next + RoundUp(|body|);
    } else {
      assert written + body == written;
    }
    pad := o[buf + |body|..next];
    LeftAlone(o, s.out, at, written + body, pad);
  }

  method StoreAuth(s: OutStream, buf: nat, a: Auth, ghost o: seq<Byte>, ghost at: nat, ghost written: seq<Byte>)
    returns (next: nat, ghost pad: seq<Byte>)
    requires |a.body| <= MAX_AUTH_BYTES && buf == at + |written| && buf + 8 + RoundUp(|a.body|) <= |s.out|
    requires Stored(o, s.out, at, written)
    modifies s
    ensures next == buf + 8 + RoundUp(|a.body|) && PadFor(a, pad)
    ensures Stored(o, s.out, at, written + AuthBytes(a, pad))
  {
    ghost var w1 := written + PutWord(a.flavor);
    ghost var w2 := w1 + PutWord(|a.body|);
    next := StoreWord(s, buf, a.flavor, o, at, written);
    next := StoreWord(s, next, |a.body|, o, at, w1);
    next, pad := StoreBody(s, next, a.body, o, at, w2);
    assert w2 + a.body + pad == written + AuthBytes(a, pad);
  }

  lemma {:induction false} LeftAlone(o: seq<Byte>, out: seq<Byte>, at: nat, written: seq<Byte>, pad: seq<Byte>)
    requires Stored(o, out, at, written) && at + |written| + |pad| <= |o|
    requires pad == o[at + |written|..at + |written| + |pad|]
    ensures Stored(o, out, at, written + pad)
  {
  }

  /** `xdr_opaque_auth` on an encoding stream. */
  method EncodeAuth(s: OutStream, a: Auth) returns (ok: bool)
    requires |a.body| < TWO_TO_31
    modifies s
    ensures ok ==> |a.body| <= MAX_AUTH_BYTES
                   && s.out == old(s.out) + AuthBytes(a, Zeros(RoundUp(|a.body|) - |a.body|))
    ensures !ok ==> |a.body| > MAX_AUTH_BYTES || !s.reliable
  {
    ok := s.PutLong(a.flavor);
    if !ok {
      return;
    }
    ok := s.PutLong(|a.body|);
    if !ok {
      return;
    }
    if |a.body| > MAX_AUTH_BYTES {
      return false;
    }
    ok := s.PutOpaque(a.body);
  }

  /**
   * Encoding succeeds only on a message that may be sent, and on every such message if the stream
   * takes what it is given. Whether or not direct access is granted, what is written is the
   * message's encoding up to the bytes that only fill up units.
   */
  method EncodeCallMsg(s: OutStream, m: Msg) returns (ok: bool, ghost credPad: seq<Byte>, ghost verfPad: seq<Byte>)
    requires |m.cred.body| < TWO_TO_31 && |m.verf.body| < TWO_TO_31
    modifies s
    ensures ok ==> Sendable(m) && PadFor(m.cred, credPad) && PadFor(m.verf, verfPad)
                   && s.out == old(s.out) + MsgBytes(m, credPad, verfPad)
    ensures !ok ==> !Sendable(m) || !s.reliable
  {
    credPad, verfPad := Zeros(RoundUp(|m.cred.body|) - |m.cred.body|), Zeros(RoundUp(|m.verf.body|) - |m.verf.body|);
    if |m.cred.body| > MAX_AUTH_BYTES {
      return false, credPad, verfPad;
    }
    if |m.verf.body| > MAX_AUTH_BYTES {
      return false, credPad, verfPad;
    }
    var buf := s.Inline(32 + RoundUp(|m.cred.body|) + 8 + RoundUp(|m.verf.body|));
    if buf != None {
      ok, credPad, verfPad := EncodeInline(s, buf.value, m);
    } else {
      ok := EncodeGeneric(s, m);
    }
  }

  method EncodeInline(s: OutStream, at: nat, m: Msg)
    returns (ok: bool, ghost credPad: seq<Byte>, ghost verfPad: seq<Byte>)
    requires |m.cred.body| <= MAX_AUTH_BYTES && |m.verf.body| <= MAX_AUTH_BYTES
    requires |s.out| == at + 40 + RoundUp(|m.cred.body|) + RoundUp(|m.verf.body|)
    modifies s
    ensures ok == Sendable(m)
    ensures ok ==> PadFor(m.cred, credPad) && PadFor(m.verf, verfPad)
    ensures ok ==> s.out == old(s.out)[..at] + MsgBytes(m, credPad, verfPad)
  {
    ghost var o := s.out;
    credPad, verfPad := [], [];
    var buf;
    ok, buf := StoreHead(s, at, m);
    if !ok {
      return;
    }
    ghost var w := HeadBytes(m);
    buf, credPad := StoreAuth(s, buf, m.cred, o, at, w);
    w := w + AuthBytes(m.cred, credPad);
    buf, verfPad := StoreAuth(s, buf, m.verf, o, at, w);
    assert o[|o|..] == [];
  }

  method StoreHead(s: OutStream, at: nat, m: Msg) returns (ok: bool, buf: nat)
    requires at + 24 <= |s.out|
    modifies s
    ensures ok == (m.direction == CALL && m.rpcvers == RPC_MSG_VERSION)
    ensures ok ==> buf == at + 24 && Stored(old(s.out), s.out, at, HeadBytes(m))
  {
    ghost var o, w := s.out, [];
    buf := StoreWord(s, at, m.xid, o, at, w);
    w := w + PutWord(m.xid);
    buf := StoreWord(s, buf, m.direction, o, at, w);
    w := w + PutWord(m.direction);
    if m.direction != CALL {
      return false, buf;
    }
    buf := StoreWord(s, buf, m.rpcvers, o, at, w);
    w := w + PutWord(m.rpcvers);
    if m.rpcvers != RPC_MSG_VERSION {
      return false, buf;
    }
    buf := StoreWord(s, buf, m.prog, o, at, w);
    w := w + PutWord(m.prog);
    buf := StoreWord(s, buf, m.vers, o, at, w);
    w := w + PutWord(m.vers);
    buf := StoreWord(s, buf, m.proc, o, at, w);
    w := w + PutWord(m.proc);
    assert w == HeadBytes(m);
    ok := true;
  }

  method EncodeGeneric(s: OutStream, m: Msg) returns (ok: bool)
    requires |m.cred.body| < TWO_TO_31 && |m.verf.body| < TWO_TO_31
    modifies s
    ensures var c, v := Zeros(RoundUp(|m.cred.body|) - |m.cred.body|), Zeros(RoundUp(|m.verf.body|) - |m.verf.body|);
            ok ==> Sendable(m) && s.out == old(s.out) + MsgBytes(m, c, v)
    ensures !ok ==> !Sendable(m) || !s.reliable
  {
    ok := EncodeHead(s, m);
    if !ok {
      return;
    }
    ghost var o := s.out;
    ok := EncodeAuth(s, m.cred);
    if !ok {
      return;
    }
    ghost var c, v := Zeros(RoundUp(|m.cred.body|) - |m.cred.body|), Zeros(RoundUp(|m.verf.body|) - |m.verf.body|);
    ok := EncodeAuth(s, m.verf);
    assert ok ==> s.out == old(s.out) + (HeadBytes(m) + AuthBytes(m.cred, c) + AuthBytes(m.verf, v));
  }

  method EncodeHead(s: OutStream, m: Msg) returns (ok: bool)
    modifies s
    ensures ok ==> m.direction == CALL && m.rpcvers == RPC_MSG_VERSION && s.out == old(s.out) + HeadBytes(m)
    ensures !ok ==> !Sendable(m) || !s.reliable
  {
    ok := s.PutLong(m.xid);
    if !ok {
      return;
    }
    ok := s.PutLong(m.direction);
    if !ok || m.direction != CALL {
      return false;
    }
    ok := s.PutLong(m.rpcvers);
    if !ok || m.rpcvers != RPC_MSG_VERSION {
      return false;
    }
    ok := s.PutLong(m.prog);
    if !ok {
      return;
    }
    ok := s.PutLong(m.vers);
    if !ok {
      return;
    }
    ok := s.PutLong(m.proc);
    assert ok ==> s.out == old(s.out) + HeadBytes(m);
  }

  /**
   * Encoding by any mixture of paths, then decoding by any mixture of paths with anything behind,
   * gives the message back and leaves what is behind.
   */
  method CallRoundTrip(m: Msg, t: seq<Byte>) returns (received: Option<(Msg, seq<Byte>)>)
    requires |m.cred.body| < TWO_TO_31 && |m.verf.body| < TWO_TO_31
    ensures received == if Sendable(m) then Some((m, t)) else None
  {
    var enc := new OutStream(true);
    var ok, credPad, verfPad := EncodeCallMsg(enc, m);
    if !ok {
      return None;
    }
    assert enc.out == MsgBytes(m, credPad, verfPad);
    ParseMsgBytes(m, credPad, verfPad, t);
    var dec := new InStream(enc.out + t);
    var msg;
    ok, msg := DecodeCallMsg(dec);
    received := Some((msg, dec.rem));
  }
}
