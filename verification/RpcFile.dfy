/** The compiler on a whole file: what it reads, what it writes for it, and what that means. */
module RpcFile {
  import opened Bytes
  import opened RpcSyntax
  import opened RpcGrammar
  import opened RpcComplete
  import opened RpcParser
  import opened RpcTypes
  import opened RpcEmit
  import RpcRun
  import RpcEncodes
  import RpcDecodes
  import Xdr

  /** The definitions up to the end of the input or the first malformed one. */
  function Prefix(ts: Tokens): seq<DefSyntax>
    decreases Length(ts)
  {
    DefineShrinks(ts);
    var d := Define(ts);
    if d.Fail? then [] else [d.value] + Prefix(d.rest)
  }

  lemma {:induction false} PrefixOfFile(ts: Tokens)
    requires File(ts).Some?
    ensures Prefix(ts) == File(ts).value
    decreases Length(ts)
  {
    if ts.Cons? {
      DefineShrinks(ts);
      PrefixOfFile(Define(ts).rest);
    }
  }

  function FileProgram(ts: Tokens, num: string -> int): Program {
    ProgramOf(Each(DefMeaning, Prefix(ts)), num)
  }

  /** Every typedef refers to earlier ones, and no two types share a name. */
  ghost predicate Emittable(p: Program) {
    NamesDistinct(p.defs) && forall i :: 0 <= i <= |p.defs| ==> Ordered(p.defs[..i])
  }

  lemma {:induction false} CompiledIsEmittable(p: Program)
    requires Compiles(p)
    ensures Emittable(p)
  {
    forall i | 0 <= i <= |p.defs| ensures Ordered(p.defs[..i]) {
      CompiledIsOrdered(p, i);
    }
  }

  /** One routine for each type. */
  function AllRoutines(p: Program): (rs: seq<Routine>)
    ensures |rs| == |p.defs| && forall i :: 0 <= i < |rs| ==> rs[i] == Routines(p, i)
  {
    seq(|p.defs|, i requires 0 <= i < |p.defs| => Routines(p, i))
  }

  // ---------------------------------------------------------------- what later definitions do not change

  lemma {:induction false} IndexInPrefix(defs: seq<Definition>, n: nat, name: string)
    requires n <= |defs|
    ensures IndexOf(defs[..n], name) == if IndexOf(defs, name) < n then IndexOf(defs, name) else n
  {
    if n > 0 {
      assert defs[..n][0] == defs[0] && defs[..n][1..] == defs[1..][..n - 1];
      if DefName(defs[0]) != name {
        IndexInPrefix(defs[1..], n - 1, name);
      }
    }
  }

  lemma {:induction false} VectorDefInPrefix(p: Program, n: nat, i: nat, t: TypeName, rel: Relation)
    requires i <= n <= |p.defs|
    ensures VectorDef(p.(defs := p.defs[..n]), i, t, rel) == VectorDef(p, i, t, rel)
    decreases i
  {
    if rel == RelAlias && t.Defined? {
      IndexInPrefix(p.defs, n, t.name);
      var j := IndexOf(p.defs, t.name);
      if j < i && p.defs[j].TypedefDef? {
        VectorDefInPrefix(p, n, j, p.defs[j].decl.tref.name, p.defs[j].decl.rel);
      }
    }
  }

  lemma {:induction false} StatsInPrefix(p: Program, n: nat, i: nat, ds: seq<Declaration>)
    requires i <= n <= |p.defs|
    ensures Stats(p.(defs := p.defs[..n]), i, ds) == Stats(p, i, ds)
  {
    if ds != [] {
      VectorDefInPrefix(p, n, i, ds[0].tref.name, ds[0].rel);
      StatsInPrefix(p, n, i, ds[1..]);
    }
  }

  /** What is written for a definition depends on it and those before it. */
  lemma {:induction false} RoutinesInPrefix(p: Program, n: nat, i: nat)
    requires i < n <= |p.defs|
    ensures Routines(p.(defs := p.defs[..n]), i) == Routines(p, i)
  {
    match p.defs[i]
    case StructDef(_, ds) => StatsInPrefix(p, n, i, ds);
    case UnionDef(_, e, _, _) => VectorDefInPrefix(p, n, i, e.tref.name, e.rel);
    case _ =>
  }

  lemma {:induction false} TypeDefsGrow(defs: seq<Definition>, n: nat)
    requires n <= |defs|
    ensures var k := |TypeDefs(defs[..n])|; k <= |TypeDefs(defs)| && TypeDefs(defs[..n]) == TypeDefs(defs)[..k]
  {
    if n == |defs| {
      assert defs[..n] == defs;
    } else {
      TypeDefsGrow(defs[..|defs| - 1], n);
      assert defs[..|defs| - 1][..n] == defs[..n];
    }
  }

  // ---------------------------------------------------------------- the driver

  /** `emit` for one more definition of a file of which `defs` have been read. */
  method EmitNext(defs: seq<Definition>, d: Definition, num: string -> int) returns (out: seq<Routine>)
    requires Emittable(ProgramOf(defs + [d], num))
    ensures AllRoutines(ProgramOf(defs + [d], num)) == AllRoutines(ProgramOf(defs, num)) + out
  {
    var all := defs + [d];
    assert all[..|defs|] == defs;
    ghost var p, q := ProgramOf(defs, num), ProgramOf(all, num);
    forall i | 0 <= i < |p.defs| ensures Routines(p, i) == Routines(q, i) {
      assert p == q.(defs := q.defs[..|p.defs|]);
      RoutinesInPrefix(q, |p.defs|, i);
    }
    if !IsType(d) {
      return [];
    }
    var r := Emit(ProgramOf(all, num), |TypeDefs(defs)|);
    out := [r];
  }

  lemma {:induction false} EmittablePrefix(defs: seq<Definition>, n: nat, num: string -> int)
    requires n <= |defs| && Emittable(ProgramOf(defs, num))
    ensures Emittable(ProgramOf(defs[..n], num))
  {
    TypeDefsGrow(defs, n);
    var all, some := TypeDefs(defs), TypeDefs(defs[..n]);
    forall i | 0 <= i <= |some| ensures Ordered(some[..i]) {
      assert some[..i] == all[..i];
    }
  }

  /** What has been read of a file and what is still to come. */
  ghost predicate ReadSoFar(ts: Tokens, done: seq<DefSyntax>, left: Tokens) {
    && Prefix(ts) == done + Prefix(left)
    && (File(ts).Some? <==> File(left).Some?)
  }

  lemma {:induction false} ReadOne(ts: Tokens, done: seq<DefSyntax>, left: Tokens)
    requires ReadSoFar(ts, done, left) && Define(left).Parsed?
    ensures ReadSoFar(ts, done + [Define(left).value], Define(left).rest)
  {
    DefineShrinks(left);
    var d := Define(left);
    assert done + ([d.value] + Prefix(d.rest)) == done + [d.value] + Prefix(d.rest);
  }

  lemma {:induction false} EmittableSoFar(ts: Tokens, done: seq<DefSyntax>, left: Tokens, num: string -> int)
    requires ReadSoFar(ts, done, left) && Emittable(FileProgram(ts, num))
    ensures Emittable(ProgramOf(Each(DefMeaning, done), num))
  {
    var all := Each(DefMeaning, Prefix(ts));
    assert all[..|done|] == Each(DefMeaning, done);
    EmittablePrefix(all, |done|, num);
  }

  /**
   * The driver's loop: each definition is read and its routine written, to the end of the input or
   * the first malformed one, when the output is given up.
   */
  method Compile(s: Scanner, num: string -> int) returns (ok: bool, out: seq<Routine>)
    requires s.Valid() && Emittable(FileProgram(s.Remaining(), num))
    modifies s
    ensures ok <==> File(old(s.Remaining())).Some?
    ensures out == AllRoutines(FileProgram(old(s.Remaining()), num))
  {
    out := [];
    var defs: seq<Definition> := [];
    ghost var done: seq<DefSyntax>, ts := [], s.Remaining();
    assert done + Prefix(ts) == Prefix(ts);
    while true
      invariant s.Valid() && ReadSoFar(ts, done, s.Remaining()) && defs == Each(DefMeaning, done)
      invariant out == AllRoutines(ProgramOf(defs, num))
      decreases Length(s.Remaining())
    {
      ghost var left := s.Remaining();
      DefineShrinks(left);
      var def := GetDefinition(s);
      if !def.Read? {
        assert done + [] == done;
        return def.EndOfInput?, out;
      }
      ReadOne(ts, done, left);
      EmittableSoFar(ts, done + [Define(left).value], s.Remaining(), num);
      EachMore(DefMeaning, done, Define(left).value);
      var more := EmitNext(defs, def.def, num);
      out, defs, done := out + more, defs + [def.def], done + [Define(left).value];
    }
  }

  /**
   * From source text to the wire: of a file that spells these definitions, constants and programs
   * among them, every routine encodes an object of its type as the type prescribes, and decodes
   * that, before any bytes, to the same object.
   */
  lemma {:induction false} FileMeans(ds: seq<DefSyntax>, num: string -> int, i: nat, v: Xdr.Value, t: seq<Byte>)
    requires FileOk(ds) && Compiles(FileProgram(FileTokens(ds), num))
    requires var p := FileProgram(FileTokens(ds), num);
             i < |p.defs| && Xdr.HasType(EnvOf(p), i, EnvOf(p)[i], v)
    ensures var p := FileProgram(FileTokens(ds), num);
            var b := RpcRun.RunBody(p, i, AllRoutines(p)[i], v);
            && p == ProgramOf(Each(DefMeaning, ds), num) && Emittable(p)
            && b == Xdr.Encode(EnvOf(p), i, EnvOf(p)[i], v)
            && (b.Some? ==> RpcRun.GetObject(p, i, b.value + t) == Some((v, t)))
  {
    var p := FileProgram(FileTokens(ds), num);
    FileComplete(ds);
    PrefixOfFile(FileTokens(ds));
    CompiledIsEmittable(p);
    RpcEncodes.BodyMeans(p, i, v);
    if Xdr.Encode(EnvOf(p), i, EnvOf(p)[i], v).Some? {
      RpcDecodes.RoutinesRoundTrip(p, i, v, t);
    }
  }
}
