/** Structures of two members. */
module XdrPairs {
  import opened Bytes
  import opened Xdr

  lemma {:induction false} PairScoped(env: Env, level: nat, a: Filter, b: Filter)
    ensures InScope(env, level, Struct([a, b])) <==> InScope(env, level, a) && InScope(env, level, b)
  {
    var fs, size := [a, b], |env|;
    assert fs[1..] == [b] && [b][1..] == [];
    assert AllScoped(fs, level, size) <==> Scoped(a, level, size) && AllScoped(fs[1..], level, size);
    assert AllScoped([b], level, size) <==> Scoped(b, level, size) && AllScoped([b][1..], level, size);
  }

  lemma {:induction false} PairTyped(env: Env, level: nat, a: Filter, b: Filter, x: Value, y: Value)
    requires InScope(env, level, a) && InScope(env, level, b) && HasType(env, level, a, x) && HasType(env, level, b, y)
    ensures InScope(env, level, Struct([a, b])) && HasType(env, level, Struct([a, b]), VSeq([x, y]))
  {
    PairScoped(env, level, a, b);
    var fs, vs := [a, b], [x, y];
    assert fs[1..] == [b] && vs[1..] == [y];
    LastTyped(env, level, b, y);
  }

  lemma {:induction false} LastTyped(env: Env, level: nat, b: Filter, y: Value)
    requires InScope(env, level, b) && HasType(env, level, b, y)
    ensures FieldsInScope(env, level, [b]) && FieldsTyped(env, level, [b], [y])
    ensures EncodeFields(env, level, [b], [y]) == Encode(env, level, b, y)
  {
    assert [b][1..] == [] && [y][1..] == [];
    var x := Encode(env, level, b, y);
    assert x.Some? ==> x.value + [] == x.value;
  }

  /** A structure of two members is one after the other. */
  lemma {:induction false} EncodePair(env: Env, level: nat, a: Filter, b: Filter, v: Value)
    requires InScope(env, level, a) && InScope(env, level, b)
    requires InScope(env, level, Struct([a, b])) && HasType(env, level, Struct([a, b]), v)
    ensures v.VSeq? && |v.items| == 2 && HasType(env, level, a, v.items[0]) && HasType(env, level, b, v.items[1])
    ensures Encode(env, level, Struct([a, b]), v)
         == Join(Encode(env, level, a, v.items[0]), Encode(env, level, b, v.items[1]))
  {
    var fs, vs := [a, b], v.items;
    FieldTyped(env, level, fs, vs, 0);
    FieldTyped(env, level, fs, vs, 1);
    assert fs[1..] == [b] && vs[1..] == [vs[1]];
    LastTyped(env, level, b, vs[1]);
  }

  ghost function DecodeBoth(env: Env, level: nat, a: Filter, b: Filter, s: seq<Byte>): Option<(Value, seq<Byte>)>
    requires InScope(env, level, a) && InScope(env, level, b)
  {
    var x := Decode(env, level, a, s);
    if x == None then None else
      var y := Decode(env, level, b, x.value.1);
      if y == None then None else Some((VSeq([x.value.0, y.value.0]), y.value.1))
  }

  lemma {:induction false} DecodePair(env: Env, level: nat, a: Filter, b: Filter, s: seq<Byte>)
    requires InScope(env, level, a) && InScope(env, level, b) && InScope(env, level, Struct([a, b]))
    ensures Decode(env, level, Struct([a, b]), s) == DecodeBoth(env, level, a, b, s)
  {
    var fs := [a, b];
    assert fs[1..] == [b];
    var x := Decode(env, level, a, s);
    if x.Some? {
      DecodeLast(env, level, b, x.value.1);
      var y := Decode(env, level, b, x.value.1);
      assert y.Some? ==> [x.value.0] + [y.value.0] == [x.value.0, y.value.0];
    }
  }

  lemma {:induction false} DecodeLast(env: Env, level: nat, b: Filter, s: seq<Byte>)
    requires InScope(env, level, b) && FieldsInScope(env, level, [b])
    ensures var y := Decode(env, level, b, s);
            DecodeFields(env, level, [b], s) == if y == None then None else Some(([y.value.0], y.value.1))
  {
    assert [b][1..] == [];
    var y := Decode(env, level, b, s);
    if y.Some? {
      var none: seq<Value> := [];
      assert DecodeFields(env, level, [], y.value.1) == Some((none, y.value.1));
      assert [y.value.0] + none == [y.value.0];
    }
  }
}
