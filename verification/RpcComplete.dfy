/**
 * The parser is right for the grammar: what it accepts is the spelling of a definition, and it
 * accepts every spelling, whatever stands behind it.
 */
module RpcComplete {
  import opened Bytes
  import opened RpcSyntax
  import opened RpcGrammar

  // ---------------------------------------------------------------- sound: what is accepted is a spelling

  lemma {:induction false} UnsignedSound(ts: Tokens)
    ensures var r := UnsignedType(ts); TypeTokens(r.value, r.rest) == Cons(KwUnsigned, ts) && !r.value.Plain?
  {
    if ts.Cons? {
    }
  }

  lemma {:induction false} TypeSound(p: Place, ts: Tokens)
    ensures var r := Type(p, ts); r.Parsed? ==> TypeOk(p, r.value) && TypeTokens(r.value, r.rest) == ts
  {
    if ts.Cons? {
      match ts.head {
        case KwUnsigned => UnsignedSound(ts.tail);
        case _ =>
      }
    }
  }

  lemma {:induction false} SuffixSound(name: string, star: bool, ts: Tokens)
    ensures var r := Suffix(star, ts);
            r.Parsed? ==> NameTokens(name, r.value, r.rest) ==
                            if star then Cons(Star, Cons(Ident(name), ts)) else Cons(Ident(name), ts)
  {
    if Suffix(star, ts).Parsed? && ts.Cons? {
      if ts.tail.Cons? {
      }
    }
  }

  lemma {:induction false} NamedSound(t: TypeSyntax, ts: Tokens)
    ensures var r := Named(t, ts);
            r.Parsed? ==>
              && r.value.Decl? && r.value.spec == t && ShapeOk(t, r.value.shape)
              && NameTokens(r.value.name, r.value.shape, r.rest) == ts
  {
    if Named(t, ts).Parsed? {
      var star := Next(ts) == Star;
      var e := EatIdent(if star then ts.tail else ts);
      SuffixSound(e.value, star, e.rest);
    }
  }

  lemma {:induction false} DeclareSound(p: Place, ts: Tokens)
    requires p != InProgram
    ensures var r := Declare(p, ts); r.Parsed? ==> DeclOk(p, r.value) && DeclTokens(r.value, r.rest) == ts
  {
    TypeSound(p, ts);
    var t := Type(p, ts);
    if t.Parsed? {
      NamedSound(t.value, t.rest);
    }
  }

  ghost predicate MembersOk(ds: seq<DeclSyntax>) {
    ds != [] && forall i :: 0 <= i < |ds| ==> DeclOk(InStruct, ds[i])
  }

  lemma {:induction false} MemberInFront(d: DeclSyntax, ds: seq<DeclSyntax>, rest: Tokens)
    requires DeclOk(InStruct, d) && MembersOk(ds)
    ensures MembersOk([d] + ds)
    ensures DeclsTokens([d] + ds, rest) == DeclTokens(d, Cons(Semicolon, DeclsTokens(ds, rest)))
  {
    assert ([d] + ds)[1..] == ds;
  }

  lemma {:induction false} MembersSound(ts: Tokens)
    ensures var r := Members(ts); r.Parsed? ==> MembersOk(r.value) && DeclsTokens(r.value, r.rest) == ts
    decreases Length(ts)
  {
    if Members(ts).Parsed? {
      DeclareSound(InStruct, ts);
      DeclareShrinks(InStruct, ts);
      var d := Declare(InStruct, ts);
      var ts2 := Eat(Semicolon, d.rest).rest;
      if Next(ts2) == RBrace {
        assert [d.value][1..] == [];
      } else {
        MembersSound(ts2);
        var ds := Members(ts2);
        MemberInFront(d.value, ds.value, ds.rest);
      }
    }
  }

  ghost predicate CasesOk(cs: seq<CaseSyntax>) {
    cs != [] && forall i :: 0 <= i < |cs| ==> DeclOk(InUnion, cs[i].decl)
  }

  lemma {:induction false} CaseSound(ts: Tokens)
    ensures var r := Case(ts);
            r.Parsed? ==>
              && DeclOk(InUnion, r.value.decl)
              && ts == Cons(Ident(r.value.value), Cons(Colon, DeclTokens(r.value.decl, Cons(Semicolon, r.rest))))
  {
    if Case(ts).Parsed? {
      DeclareSound(InUnion, Eat(Colon, EatIdent(ts).rest).rest);
    }
  }

  lemma {:induction false} CaseInFront(c: CaseSyntax, cs: seq<CaseSyntax>, dflt: Option<DeclSyntax>, rest: Tokens)
    ensures CasesTokens([c] + cs, dflt, rest) ==
              Cons(KwCase, Cons(Ident(c.value), Cons(Colon,
                DeclTokens(c.decl, Cons(Semicolon, CasesTokens(cs, dflt, rest))))))
  {
    assert ([c] + cs)[0] == c && ([c] + cs)[1..] == cs;
  }

  lemma {:induction false} MoreCases(c: CaseSyntax, cs: seq<CaseSyntax>)
    requires DeclOk(InUnion, c.decl) && CasesOk(cs)
    ensures CasesOk([c] + cs)
  {
  }

  lemma {:induction false} CasesSound(ts: Tokens, dflt: Option<DeclSyntax>, rest: Tokens)
    ensures var r := Cases(ts);
            r.Parsed? ==>
              && CasesOk(r.value)
              && (DefaultTokens(dflt, rest) == r.rest ==> CasesTokens(r.value, dflt, rest) == Cons(KwCase, ts))
    decreases Length(ts)
  {
    if Cases(ts).Parsed? {
      CaseSound(ts);
      CaseShrinks(ts);
      var c := Case(ts);
      if Next(c.rest) != KwCase {
        CaseInFront(c.value, [], dflt, rest);
        assert [c.value] + [] == [c.value];
      } else {
        CasesSound(c.rest.tail, dflt, rest);
        var cs := Cases(c.rest.tail).value;
        CaseInFront(c.value, cs, dflt, rest);
        MoreCases(c.value, cs);
      }
    }
  }

  lemma {:induction false} DefaultBodySound(ts: Tokens)
    ensures var r := DefaultBody(ts);
            r.Parsed? ==>
              && DeclOk(InUnion, r.value)
              && ts == Cons(Colon, DeclTokens(r.value, Cons(Semicolon, Cons(RBrace, r.rest))))
  {
    if DefaultBody(ts).Parsed? {
      DeclareSound(InUnion, Eat(Colon, ts).rest);
    }
  }

  lemma {:induction false} DefaultSound(ts: Tokens)
    ensures var r := Default(ts);
            r.Parsed? ==>
              && (r.value.Some? ==> DeclOk(InUnion, r.value.value)) && DefaultTokens(r.value, r.rest) == ts
  {
    var r := Default(ts);
    if r.Parsed? && Next(ts) == KwDefault {
      DefaultBodySound(ts.tail);
    }
  }

  lemma {:induction false} ValSound(ts: Tokens)
    ensures var r := Val(ts); r.Parsed? ==> ValTokens(r.value, r.rest) == ts
  {
    if Val(ts).Parsed? {
      var name := EatIdent(ts);
      if Next(name.rest) == Equal {
      }
    }
  }

  lemma {:induction false} ValsSound(ts: Tokens)
    ensures var r := Vals(ts); r.Parsed? ==> r.value != [] && ValsTokens(r.value, r.rest) == ts
    decreases Length(ts)
  {
    if Vals(ts).Parsed? {
      ValSound(ts);
      ValShrinks(ts);
      var v := Val(ts);
      if Next(v.rest) == RBrace {
      } else {
        var ts2 := Eat(Comma, v.rest).rest;
        ValsSound(ts2);
        var vs := Vals(ts2).value;
        assert ([v.value] + vs)[1..] == vs;
      }
    }
  }

  lemma {:induction false} ProcEndSound(ts: Tokens)
    ensures var r := ProcEnd(ts);
            r.Parsed? ==> ts == Cons(RParen, Cons(Equal, Cons(Ident(r.value), Cons(Semicolon, r.rest))))
  {
  }

  lemma {:induction false} ProcSound(ts: Tokens)
    ensures var r := Proc(ts); r.Parsed? ==> ProcOk(r.value) && ProcTokens(r.value, r.rest) == ts
  {
    var r := Proc(ts);
    if r.Parsed? {
      TypeSound(InProgram, ts);
      var name := EatIdent(Type(InProgram, ts).rest);
      var ts3 := Eat(LParen, name.rest).rest;
      TypeSound(InProgram, ts3);
      ProcEndSound(Type(InProgram, ts3).rest);
    }
  }

  ghost predicate ProcsOk(ps: seq<ProcSyntax>) {
    ps != [] && forall i :: 0 <= i < |ps| ==> ProcOk(ps[i])
  }

  lemma {:induction false} ProcInFront(p: ProcSyntax, ps: seq<ProcSyntax>, rest: Tokens)
    requires ProcOk(p) && (ps == [] || ProcsOk(ps))
    ensures ProcsOk([p] + ps)
    ensures ProcsTokens([p] + ps, rest) == ProcTokens(p, ProcsTokens(ps, rest))
  {
    assert ([p] + ps)[1..] == ps;
  }

  lemma {:induction false} ProcsSound(ts: Tokens, r: Parsed<seq<ProcSyntax>>)
    requires r == Procs(ts) && r.Parsed?
    ensures ProcsOk(r.value) && ProcsTokens(r.value, r.rest) == ts
    decreases Length(ts)
  {
    ProcSound(ts);
    ProcShrinks(ts);
    var p := Proc(ts);
    if Next(p.rest) == RBrace {
      ProcInFront(p.value, [], r.rest);
      assert [p.value] + [] == [p.value] && p.rest == Cons(RBrace, r.rest);
    } else {
      var ps := Procs(p.rest);
      ProcsSound(p.rest, ps);
      ProcInFront(p.value, ps.value, ps.rest);
    }
  }

  ghost predicate VersionsOk(vs: seq<VersionSyntax>) {
    vs != [] && forall i :: 0 <= i < |vs| ==> VersionOk(vs[i])
  }

  lemma {:induction false} MoreVersions(v: VersionSyntax, vs: seq<VersionSyntax>)
    requires VersionOk(v) && VersionsOk(vs)
    ensures VersionsOk([v] + vs)
  {
  }

  lemma {:induction false} VersionInFront(v: VersionSyntax, vs: seq<VersionSyntax>, rest: Tokens)
    ensures VersionsTokens([v] + vs, rest) ==
              Cons(KwVersion, Cons(Ident(v.name), Cons(LBrace,
                ProcsTokens(v.procs, Cons(Equal, Cons(Ident(v.num), Cons(Semicolon, VersionsTokens(vs, rest))))))))
  {
    assert ([v] + vs)[0] == v && ([v] + vs)[1..] == vs;
  }

  lemma {:induction false} VersionSound(ts: Tokens)
    ensures var r := Version(ts);
            r.Parsed? ==>
              && VersionOk(r.value)
              && ts == Cons(Ident(r.value.name), Cons(LBrace,
                         ProcsTokens(r.value.procs, Cons(Equal, Cons(Ident(r.value.num), Cons(Semicolon, r.rest))))))
  {
    if Version(ts).Parsed? {
      var name := EatIdent(ts);
      var ts2 := Eat(LBrace, name.rest).rest;
      var ps := Procs(ts2);
      ProcsSound(ts2, ps);
      var num := EatIdent(Eat(Equal, ps.rest).rest);
      assert ps.rest == Cons(Equal, Cons(Ident(num.value), Cons(Semicolon, Version(ts).rest)));
    }
  }

  lemma {:induction false} VersionsSound(ts: Tokens)
    ensures var r := Versions(ts);
            r.Parsed? ==> VersionsOk(r.value) && VersionsTokens(r.value, r.rest) == Cons(KwVersion, ts)
    decreases Length(ts)
  {
    if Versions(ts).Parsed? {
      VersionSound(ts);
      VersionShrinks(ts);
      var v := Version(ts);
      if Next(v.rest) == RBrace {
        VersionInFront(v.value, [], v.rest.tail);
        assert [v.value] + [] == [v.value];
      } else {
        var ts2 := Eat(KwVersion, v.rest).rest;
        VersionsSound(ts2);
        var vs := Versions(ts2);
        MoreVersions(v.value, vs.value);
        VersionInFront(v.value, vs.value, vs.rest);
      }
    }
  }

  lemma {:induction false} UnionHeadSound(ts: Tokens)
    ensures var r := UnionHead(ts);
            r.Parsed? ==>
              && DeclOk(InUnion, r.value.1)
              && ts == Cons(Ident(r.value.0), Cons(KwSwitch, Cons(LParen,
                         DeclTokens(r.value.1, Cons(RParen, Cons(LBrace, Cons(KwCase, r.rest)))))))
  {
    var r := UnionHead(ts);
    if r.Parsed? {
      var ts3 := Eat(LParen, Eat(KwSwitch, EatIdent(ts).rest).rest).rest;
      DeclareSound(InUnion, ts3);
      assert Declare(InUnion, ts3).rest == Cons(RParen, Cons(LBrace, Cons(KwCase, r.rest)));
      assert ts == Cons(Ident(r.value.0), Cons(KwSwitch, Cons(LParen, ts3)));
    }
  }

  lemma {:induction false} ArmsSound(ts: Tokens)
    ensures var r := Arms(ts);
            r.Parsed? ==>
              && CasesOk(r.value.0) && (r.value.1.Some? ==> DeclOk(InUnion, r.value.1.value))
              && CasesTokens(r.value.0, r.value.1, r.rest) == Cons(KwCase, ts)
  {
    var r := Arms(ts);
    if r.Parsed? {
      DefaultSound(Cases(ts).rest);
      CasesSound(ts, r.value.1, r.rest);
    }
  }

  lemma {:induction false} UnionSound(ts: Tokens)
    ensures var r := UnionBody(ts);
            r.Parsed? && r.rest.Cons? && r.rest.head == Semicolon ==>
              DefOk(r.value) && DefTokens(r.value, r.rest.tail) == Cons(KwUnion, ts)
  {
    var r := UnionBody(ts);
    if r.Parsed? && r.rest.Cons? && r.rest.head == Semicolon {
      UnionHeadSound(ts);
      ArmsSound(UnionHead(ts).rest);
    }
  }

  lemma {:induction false} ProgramSound(ts: Tokens)
    ensures var r := ProgramBody(ts);
            r.Parsed? && r.rest.Cons? && r.rest.head == Semicolon ==>
              DefOk(r.value) && DefTokens(r.value, r.rest.tail) == Cons(KwProgram, ts)
  {
    var r := ProgramBody(ts);
    if r.Parsed? && r.rest.Cons? && r.rest.head == Semicolon {
      var name := EatIdent(ts);
      var ts2 := Eat(LBrace, name.rest).rest;
      var ts3 := Eat(KwVersion, ts2).rest;
      VersionsSound(ts3);
      var vs := Versions(ts3);
      var num := EatIdent(Eat(Equal, vs.rest).rest);
      assert r == Parsed(ProgramSyntax(name.value, vs.value, num.value), num.rest);
      assert vs.rest == Cons(Equal, Cons(Ident(num.value), Cons(Semicolon, r.rest.tail)));
    }
  }

  /** What the parser accepts as a definition is the spelling of that definition and no more. */
  lemma {:induction false} DefineSound(ts: Tokens)
    ensures var r := Define(ts); r.Parsed? ==> DefOk(r.value) && DefTokens(r.value, r.rest) == ts
  {
    if Define(ts).Parsed? {
      var b := Body(ts.head, ts.tail);
      match ts.head {
        case KwStruct => MembersSound(Eat(LBrace, EatIdent(ts.tail).rest).rest);
        case KwUnion => UnionSound(ts.tail);
        case KwTypedef => DeclareSound(InTypedef, ts.tail);
        case KwEnum => ValsSound(Eat(LBrace, EatIdent(ts.tail).rest).rest);
        case KwProgram => ProgramSound(ts.tail);
        case KwConst =>      }
    }
  }

  // ---------------------------------------------------------------- complete: every spelling is accepted

  /** Tokens that may follow a type. */
  predicate AfterType(t: Token) {
    t.Ident? || t == Star || t == RParen
  }

  /** Tokens that may follow a declaration. */
  predicate AfterDecl(t: Token) {
    t == Semicolon || t == RParen
  }

  lemma {:induction false} TypeComplete(p: Place, t: TypeSyntax, rest: Tokens)
    requires TypeOk(p, t) && (t == Plain(KwVoid) || AfterType(Next(rest)))
    ensures Type(p, TypeTokens(t, rest)) == Parsed(t, rest)
  {
  }

  lemma {:induction false} NamedComplete(t: TypeSyntax, name: string, shape: Shape, rest: Tokens)
    requires ShapeOk(t, shape) && AfterDecl(Next(rest))
    ensures Named(t, NameTokens(name, shape, rest)) == Parsed(Decl(t, name, shape), rest)
  {
  }

  lemma {:induction false} DeclareComplete(p: Place, d: DeclSyntax, rest: Tokens)
    requires DeclOk(p, d) && AfterDecl(Next(rest))
    ensures Declare(p, DeclTokens(d, rest)) == Parsed(d, rest)
  {
    match d
    case Nothing =>
      TypeComplete(p, Plain(KwVoid), rest);
    case Decl(t, name, shape) =>
      TypeComplete(p, t, NameTokens(name, shape, rest));
      NamedComplete(t, name, shape, rest);
  }

  /** No type begins with a closing brace, so a list that goes on is told from one that ends. */
  lemma {:induction false} TypeBegins(t: TypeSyntax, p: Place, rest: Tokens)
    requires TypeOk(p, t)
    ensures Next(TypeTokens(t, rest)) != RBrace
  {
  }

  lemma {:induction false} OneMember(d: DeclSyntax, more: Tokens)
    requires DeclOk(InStruct, d)
    ensures Members(DeclTokens(d, Cons(Semicolon, more))) ==
              if Next(more) == RBrace then Parsed([d], more.tail) else
                var r := Members(more); if r.Fail? then Fail else Parsed([d] + r.value, r.rest)
  {
    DeclareComplete(InStruct, d, Cons(Semicolon, more));
  }

  lemma {:induction false} TailMembers(ds: seq<DeclSyntax>)
    requires MembersOk(ds)
    ensures [ds[0]] + ds[1..] == ds && (|ds| > 1 ==> MembersOk(ds[1..]))
    ensures |ds| == 1 ==> ds[1..] == [] && [ds[0]] == ds
  {
  }

  lemma {:induction false} MembersBegin(ds: seq<DeclSyntax>, rest: Tokens)
    requires MembersOk(ds)
    ensures Next(DeclsTokens(ds, rest)) != RBrace
  {
    var d := ds[0];
    assert DeclOk(InStruct, d);
    TypeBegins(d.spec, InStruct, NameTokens(d.name, d.shape, Cons(Semicolon, DeclsTokens(ds[1..], rest))));
  }

  lemma {:induction false} MembersComplete(ds: seq<DeclSyntax>, rest: Tokens)
    requires MembersOk(ds)
    ensures Members(DeclsTokens(ds, rest)) == Parsed(ds, rest)
  {
    var more := DeclsTokens(ds[1..], rest);
    OneMember(ds[0], more);
    TailMembers(ds);
    if |ds| > 1 {
      MembersBegin(ds[1..], rest);
      MembersComplete(ds[1..], rest);
    } else {
      assert more == Cons(RBrace, rest);
    }
  }

  lemma {:induction false} TailProcs(ps: seq<ProcSyntax>)
    requires ProcsOk(ps)
    ensures [ps[0]] + ps[1..] == ps && (|ps| > 1 ==> ProcsOk(ps[1..])) && (|ps| == 1 ==> ps[1..] == [] && [ps[0]] == ps)
  {
  }

  lemma {:induction false} TailVersions(vs: seq<VersionSyntax>)
    requires VersionsOk(vs)
    ensures [vs[0]] + vs[1..] == vs && (|vs| > 1 ==> VersionsOk(vs[1..]))
    ensures |vs| == 1 ==> vs[1..] == [] && [vs[0]] == vs
  {
  }

  lemma {:induction false} TailCases(cs: seq<CaseSyntax>)
    requires CasesOk(cs)
    ensures [cs[0]] + cs[1..] == cs && (|cs| > 1 ==> CasesOk(cs[1..])) && (|cs| == 1 ==> cs[1..] == [] && [cs[0]] == cs)
  {
  }

  /** What `scan` does when the expected token is there. */
  lemma {:induction false} Eats(t: Token, ts: Tokens)
    ensures Eat(t, Cons(t, ts)) == Parsed(t, ts)
    ensures t.Ident? ==> EatIdent(Cons(t, ts)) == Parsed(t.name, ts)
  {
  }

  lemma {:induction false} OneCase(c: CaseSyntax, more: Tokens)
    requires DeclOk(InUnion, c.decl)
    ensures var ts := Cons(Ident(c.value), Cons(Colon, DeclTokens(c.decl, Cons(Semicolon, more))));
            Cases(ts) == if Next(more) != KwCase then Parsed([c], more) else
                           var r := Cases(more.tail); if r.Fail? then Fail else Parsed([c] + r.value, r.rest)
  {
    var decl := DeclTokens(c.decl, Cons(Semicolon, more));
    Eats(Ident(c.value), Cons(Colon, decl));
    Eats(Colon, decl);
    DeclareComplete(InUnion, c.decl, Cons(Semicolon, more));
    Eats(Semicolon, more);
  }

  lemma {:induction false} CasesComplete(cs: seq<CaseSyntax>, dflt: Option<DeclSyntax>, rest: Tokens)
    requires CasesOk(cs)
    ensures var ts := CasesTokens(cs, dflt, rest);
            ts.Cons? && ts.head == KwCase && Cases(ts.tail) == Parsed(cs, DefaultTokens(dflt, rest))
  {
    var more := CasesTokens(cs[1..], dflt, rest);
    OneCase(cs[0], more);
    TailCases(cs);
    if |cs| > 1 {
      CasesComplete(cs[1..], dflt, rest);
    } else {
      assert more == DefaultTokens(dflt, rest);
    }
  }

  lemma {:induction false} DefaultComplete(dflt: Option<DeclSyntax>, rest: Tokens)
    requires dflt.Some? ==> DeclOk(InUnion, dflt.value)
    ensures Default(DefaultTokens(dflt, rest)) == Parsed(dflt, rest)
  {
    if dflt.Some? {
      var decl := DeclTokens(dflt.value, Cons(Semicolon, Cons(RBrace, rest)));
      Eats(Colon, decl);
      DeclareComplete(InUnion, dflt.value, Cons(Semicolon, Cons(RBrace, rest)));
      Eats(Semicolon, Cons(RBrace, rest));
      Eats(RBrace, rest);
      assert DefaultBody(Cons(Colon, decl)) == Parsed(dflt.value, rest);
    }
  }

  lemma {:induction false} ValComplete(v: EnumVal, rest: Tokens)
    requires Next(rest) != Equal
    ensures Val(ValTokens(v, rest)) == Parsed(v, rest)
  {
  }

  lemma {:induction false} ValsComplete(vs: seq<EnumVal>, rest: Tokens)
    requires vs != []
    ensures Vals(ValsTokens(vs, rest)) == Parsed(vs, rest)
  {
    if |vs| > 1 {
      ValComplete(vs[0], Cons(Comma, ValsTokens(vs[1..], rest)));
      ValsComplete(vs[1..], rest);
      assert [vs[0]] + vs[1..] == vs;
    } else {
      ValComplete(vs[0], Cons(RBrace, rest));
      assert [vs[0]] == vs;
    }
  }

  lemma {:induction false} ProcEndComplete(num: string, rest: Tokens)
    ensures ProcEnd(Cons(RParen, Cons(Equal, Cons(Ident(num), Cons(Semicolon, rest))))) == Parsed(num, rest)
  {
  }

  lemma {:induction false} ProcComplete(p: ProcSyntax, rest: Tokens)
    requires ProcOk(p)
    ensures Proc(ProcTokens(p, rest)) == Parsed(p, rest) && Next(ProcTokens(p, rest)) != RBrace
  {
    var num := Cons(Ident(p.num), Cons(Semicolon, rest));
    var after := Cons(RParen, Cons(Equal, num));
    var arg := TypeTokens(p.arg, after);
    var named := Cons(Ident(p.name), Cons(LParen, arg));
    TypeComplete(InProgram, p.result, named);
    Eats(Ident(p.name), Cons(LParen, arg));
    Eats(LParen, arg);
    TypeComplete(InProgram, p.arg, after);
    ProcEndComplete(p.num, rest);
    TypeBegins(p.result, InProgram, named);
  }

  /** One more procedure in front, told from the end of the list by its first token. */
  lemma {:induction false} OneProc(p: ProcSyntax, more: Tokens)
    requires ProcOk(p)
    ensures Procs(ProcTokens(p, more)) ==
              if Next(more) == RBrace then Parsed([p], more.tail) else
                var r := Procs(more); if r.Fail? then Fail else Parsed([p] + r.value, r.rest)
  {
    ProcComplete(p, more);
  }

  lemma {:induction false} ProcsComplete(ps: seq<ProcSyntax>, rest: Tokens)
    requires ProcsOk(ps)
    ensures Procs(ProcsTokens(ps, rest)) == Parsed(ps, rest)
  {
    var more := ProcsTokens(ps[1..], rest);
    OneProc(ps[0], more);
    TailProcs(ps);
    if |ps| > 1 {
      ProcComplete(ps[1..][0], ProcsTokens(ps[1..][1..], rest));
      ProcsComplete(ps[1..], rest);
    } else {
      assert more == Cons(RBrace, rest);
    }
  }

  lemma {:induction false} VersionComplete(v: VersionSyntax, rest: Tokens)
    requires VersionOk(v)
    ensures var after := Cons(Equal, Cons(Ident(v.num), Cons(Semicolon, rest)));
            Version(Cons(Ident(v.name), Cons(LBrace, ProcsTokens(v.procs, after)))) == Parsed(v, rest)
  {
    var num := Cons(Ident(v.num), Cons(Semicolon, rest));
    var procs := ProcsTokens(v.procs, Cons(Equal, num));
    Eats(Ident(v.name), Cons(LBrace, procs));
    Eats(LBrace, procs);
    ProcsComplete(v.procs, Cons(Equal, num));
    Eats(Equal, num);
    Eats(Ident(v.num), Cons(Semicolon, rest));
    Eats(Semicolon, rest);
  }

  lemma {:induction false} OneVersion(v: VersionSyntax, more: Tokens)
    requires VersionOk(v)
    ensures var after := Cons(Equal, Cons(Ident(v.num), Cons(Semicolon, more)));
            var ts := Cons(Ident(v.name), Cons(LBrace, ProcsTokens(v.procs, after)));
            && (Next(more) == RBrace ==> Versions(ts) == Parsed([v], more.tail))
            && (Next(more) == KwVersion && Versions(more.tail).Parsed? ==>
                  Versions(ts) == Parsed([v] + Versions(more.tail).value, Versions(more.tail).rest))
  {
    VersionComplete(v, more);
  }

  lemma {:induction false} VersionsComplete(vs: seq<VersionSyntax>, rest: Tokens)
    requires VersionsOk(vs)
    ensures var ts := VersionsTokens(vs, rest);
            ts.Cons? && ts.head == KwVersion && Versions(ts.tail) == Parsed(vs, rest)
  {
    var more := VersionsTokens(vs[1..], rest);
    OneVersion(vs[0], more);
    TailVersions(vs);
    if |vs| > 1 {
      VersionsComplete(vs[1..], rest);
    } else {
      assert more == Cons(RBrace, rest);
    }
  }

  lemma {:induction false} UnionHeadComplete(name: string, e: DeclSyntax, ts: Tokens)
    requires DeclOk(InUnion, e)
    ensures var body := DeclTokens(e, Cons(RParen, Cons(LBrace, Cons(KwCase, ts))));
            UnionHead(Cons(Ident(name), Cons(KwSwitch, Cons(LParen, body)))) == Parsed((name, e), ts)
  {
    var body := DeclTokens(e, Cons(RParen, Cons(LBrace, Cons(KwCase, ts))));
    Eats(Ident(name), Cons(KwSwitch, Cons(LParen, body)));
    Eats(KwSwitch, Cons(LParen, body));
    Eats(LParen, body);
    DeclareComplete(InUnion, e, Cons(RParen, Cons(LBrace, Cons(KwCase, ts))));
    Eats(RParen, Cons(LBrace, Cons(KwCase, ts)));
    Eats(LBrace, Cons(KwCase, ts));
    Eats(KwCase, ts);
  }

  lemma {:induction false} UnionComplete(name: string, e: DeclSyntax, cs: seq<CaseSyntax>, dflt: Option<DeclSyntax>,
                                         after: Tokens)
    requires DefOk(UnionSyntax(name, e, cs, dflt))
    ensures var body := DeclTokens(e, Cons(RParen, Cons(LBrace, CasesTokens(cs, dflt, after))));
            UnionBody(Cons(Ident(name), Cons(KwSwitch, Cons(LParen, body))))
            == Parsed(UnionSyntax(name, e, cs, dflt), after)
  {
    CasesComplete(cs, dflt, after);
    UnionHeadComplete(name, e, CasesTokens(cs, dflt, after).tail);
    DefaultComplete(dflt, after);
  }

  lemma {:induction false} ProgramComplete(name: string, vs: seq<VersionSyntax>, num: string, after: Tokens)
    requires VersionsOk(vs)
    ensures ProgramBody(ProgramTokens(name, vs, num, after)) == Parsed(ProgramSyntax(name, vs, num), after)
  {
    var body := VersionsTokens(vs, Cons(Equal, Cons(Ident(num), after)));
    Eats(Ident(name), Cons(LBrace, body));
    Eats(LBrace, body);
    VersionsComplete(vs, Cons(Equal, Cons(Ident(num), after)));
    Eats(KwVersion, body.tail);
    Eats(Equal, Cons(Ident(num), after));
    Eats(Ident(num), after);
  }

  lemma {:induction false} BodyThen(keyword: Token, ts: Tokens, d: DefSyntax, rest: Tokens)
    requires Body(keyword, ts) == Parsed(d, Cons(Semicolon, rest))
    ensures Define(Cons(keyword, ts)) == Parsed(d, rest)
  {
    Eats(Semicolon, rest);
  }

  lemma {:induction false} StructComplete(name: string, ds: seq<DeclSyntax>, rest: Tokens)
    requires MembersOk(ds)
    ensures Define(DefTokens(StructSyntax(name, ds), rest)) == Parsed(StructSyntax(name, ds), rest)
  {
    var body := DeclsTokens(ds, Cons(Semicolon, rest));
    Eats(Ident(name), Cons(LBrace, body));
    Eats(LBrace, body);
    MembersComplete(ds, Cons(Semicolon, rest));
    BodyThen(KwStruct, Cons(Ident(name), Cons(LBrace, body)), StructSyntax(name, ds), rest);
  }

  lemma {:induction false} EnumComplete(name: string, vs: seq<EnumVal>, rest: Tokens)
    requires vs != []
    ensures Define(DefTokens(EnumSyntax(name, vs), rest)) == Parsed(EnumSyntax(name, vs), rest)
  {
    var body := ValsTokens(vs, Cons(Semicolon, rest));
    Eats(Ident(name), Cons(LBrace, body));
    Eats(LBrace, body);
    ValsComplete(vs, Cons(Semicolon, rest));
    BodyThen(KwEnum, Cons(Ident(name), Cons(LBrace, body)), EnumSyntax(name, vs), rest);
  }

  lemma {:induction false} ConstComplete(name: string, c: Constant, rest: Tokens)
    ensures Define(DefTokens(ConstSyntax(name, c), rest)) == Parsed(ConstSyntax(name, c), rest)
  {
    var value := Cons(ConstantToken(c), Cons(Semicolon, rest));
    Eats(Ident(name), Cons(Equal, value));
    Eats(Equal, value);
    BodyThen(KwConst, Cons(Ident(name), Cons(Equal, value)), ConstSyntax(name, c), rest);
  }

  lemma {:induction false} UnionDefined(name: string, e: DeclSyntax, cs: seq<CaseSyntax>, dflt: Option<DeclSyntax>,
                                        rest: Tokens)
    requires DefOk(UnionSyntax(name, e, cs, dflt))
    ensures Define(DefTokens(UnionSyntax(name, e, cs, dflt), rest)) == Parsed(UnionSyntax(name, e, cs, dflt), rest)
  {
    var after := Cons(Semicolon, rest);
    UnionComplete(name, e, cs, dflt, after);
    var body := DeclTokens(e, Cons(RParen, Cons(LBrace, CasesTokens(cs, dflt, after))));
    BodyThen(KwUnion, Cons(Ident(name), Cons(KwSwitch, Cons(LParen, body))), UnionSyntax(name, e, cs, dflt), rest);
  }

  lemma {:induction false} TypedefComplete(d: DeclSyntax, rest: Tokens)
    requires DeclOk(InTypedef, d)
    ensures Define(DefTokens(TypedefSyntax(d), rest)) == Parsed(TypedefSyntax(d), rest)
  {
    var after := Cons(Semicolon, rest);
    DeclareComplete(InTypedef, d, after);
    BodyThen(KwTypedef, DeclTokens(d, after), TypedefSyntax(d), rest);
  }

  lemma {:induction false} BodyOfProgram(ts: Tokens)
    ensures Body(KwProgram, ts) == ProgramBody(ts)
  {
  }

  lemma {:induction false} ProgramBegins(name: string, vs: seq<VersionSyntax>, num: string, rest: Tokens)
    ensures DefTokens(ProgramSyntax(name, vs, num), rest) ==
              Cons(KwProgram, ProgramTokens(name, vs, num, Cons(Semicolon, rest)))
  {
  }

  lemma {:induction false} ProgramDefined(name: string, vs: seq<VersionSyntax>, num: string, rest: Tokens)
    requires VersionsOk(vs)
    ensures Define(DefTokens(ProgramSyntax(name, vs, num), rest)) == Parsed(ProgramSyntax(name, vs, num), rest)
  {
    var ts := ProgramTokens(name, vs, num, Cons(Semicolon, rest));
    ProgramComplete(name, vs, num, Cons(Semicolon, rest));
    BodyOfProgram(ts);
    ProgramBegins(name, vs, num, rest);
    BodyThen(KwProgram, ts, ProgramSyntax(name, vs, num), rest);
  }

  /** Every spelling of a definition is accepted, as that definition, and nothing behind it is touched. */
  lemma {:induction false} DefineComplete(d: DefSyntax, rest: Tokens)
    requires DefOk(d)
    ensures Define(DefTokens(d, rest)) == Parsed(d, rest)
  {
    match d
    case StructSyntax(name, ds) => StructComplete(name, ds, rest);
    case UnionSyntax(name, e, cs, dflt) => UnionDefined(name, e, cs, dflt, rest);
    case EnumSyntax(name, vs) => EnumComplete(name, vs, rest);
    case ConstSyntax(name, c) => ConstComplete(name, c, rest);
    case TypedefSyntax(decl) => TypedefComplete(decl, rest);
    case ProgramSyntax(name, vs, num) => ProgramDefined(name, vs, num, rest);
  }

  /** So no sequence of tokens begins with the spellings of two definitions. */
  lemma {:induction false} Unambiguous(d: DefSyntax, rest: Tokens, d': DefSyntax, rest': Tokens)
    requires DefOk(d) && DefOk(d') && DefTokens(d, rest) == DefTokens(d', rest')
    ensures d == d' && rest == rest'
  {
    DefineComplete(d, rest);
    DefineComplete(d', rest');
  }

  // ---------------------------------------------------------------- whole inputs

  lemma {:induction false} Longer(a: Token, b: Token, c: Token, d: Token, ts: Tokens)
    ensures Length(Cons(d, ts)) == 1 + Length(ts)
    ensures Length(Cons(c, Cons(d, ts))) == 2 + Length(ts)
    ensures Length(Cons(b, Cons(c, Cons(d, ts)))) == 3 + Length(ts)
    ensures Length(Cons(a, Cons(b, Cons(c, Cons(d, ts))))) == 4 + Length(ts)
  {
    assert Length(Cons(d, ts)) == 1 + Length(ts);
    assert Length(Cons(c, Cons(d, ts))) == 2 + Length(ts);
    assert Length(Cons(b, Cons(c, Cons(d, ts)))) == 3 + Length(ts);
  }

  lemma {:induction false} TypeLonger(t: TypeSyntax, rest: Tokens)
    ensures Length(TypeTokens(t, rest)) > Length(rest)
  {
    Longer(Eof, KwUnsigned, KwChar, KwInt, rest);
    Longer(Eof, KwUnsigned, KwShort, KwInt, rest);
    Longer(Eof, KwUnsigned, KwLong, KwInt, rest);
    Longer(Eof, Eof, KwUnsigned, KwShort, rest);
    Longer(Eof, Eof, KwUnsigned, KwLong, rest);
    Longer(Eof, Eof, KwUnsigned, KwChar, rest);
    if t.Tagged? {
      Longer(Eof, Eof, TagToken(t.tag), Ident(t.name), rest);
    }
  }

  lemma {:induction false} NameLonger(name: string, shape: Shape, rest: Tokens)
    ensures Length(NameTokens(name, shape, rest)) > Length(rest)
  {
    match shape
    case Alias =>
    case Pointer => Longer(Eof, Eof, Star, Ident(name), rest);
    case Fixed(n) => Longer(Ident(name), LBracket, Ident(n), RBracket, rest);
    case Bounded(n) => Longer(Ident(name), LAngle, Ident(n), RAngle, rest);
    case Unbounded => Longer(Eof, Ident(name), LAngle, RAngle, rest);
  }

  lemma {:induction false} DeclLonger(d: DeclSyntax, rest: Tokens)
    ensures Length(DeclTokens(d, rest)) > Length(rest)
  {
    if d.Decl? {
      NameLonger(d.name, d.shape, rest);
      TypeLonger(d.spec, NameTokens(d.name, d.shape, rest));
    }
  }

  lemma {:induction false} DeclsLonger(ds: seq<DeclSyntax>, rest: Tokens)
    ensures Length(DeclsTokens(ds, rest)) > Length(rest)
  {
    if ds != [] {
      DeclsLonger(ds[1..], rest);
      DeclLonger(ds[0], Cons(Semicolon, DeclsTokens(ds[1..], rest)));
    }
  }

  lemma {:induction false} CasesLonger(cs: seq<CaseSyntax>, dflt: Option<DeclSyntax>, rest: Tokens)
    ensures Length(CasesTokens(cs, dflt, rest)) > Length(rest)
  {
    if cs == [] {
      if dflt.Some? {
        Longer(Eof, Eof, Semicolon, RBrace, rest);
        var decl := DeclTokens(dflt.value, Cons(Semicolon, Cons(RBrace, rest)));
        DeclLonger(dflt.value, Cons(Semicolon, Cons(RBrace, rest)));
        Longer(Eof, Eof, KwDefault, Colon, decl);
      }
    } else {
      CasesLonger(cs[1..], dflt, rest);
      var more := Cons(Semicolon, CasesTokens(cs[1..], dflt, rest));
      DeclLonger(cs[0].decl, more);
      Longer(Eof, KwCase, Ident(cs[0].value), Colon, DeclTokens(cs[0].decl, more));
    }
  }

  lemma {:induction false} ValLonger(v: EnumVal, rest: Tokens)
    ensures Length(ValTokens(v, rest)) > Length(rest)
  {
    if v.assignment.Some? {
      Longer(Eof, Ident(v.name), Equal, Ident(v.assignment.value), rest);
    }
  }

  lemma {:induction false} ValsLonger(vs: seq<EnumVal>, rest: Tokens)
    ensures Length(ValsTokens(vs, rest)) > Length(rest)
  {
    if |vs| > 1 {
      ValsLonger(vs[1..], rest);
      ValLonger(vs[0], Cons(Comma, ValsTokens(vs[1..], rest)));
    } else if |vs| == 1 {
      ValLonger(vs[0], Cons(RBrace, rest));
    }
  }

  lemma {:induction false} ProcsLonger(ps: seq<ProcSyntax>, rest: Tokens)
    ensures Length(ProcsTokens(ps, rest)) > Length(rest)
  {
    if ps != [] {
      var p, more := ps[0], ProcsTokens(ps[1..], rest);
      ProcsLonger(ps[1..], rest);
      var after := Cons(RParen, Cons(Equal, Cons(Ident(p.num), Cons(Semicolon, more))));
      Longer(RParen, Equal, Ident(p.num), Semicolon, more);
      TypeLonger(p.arg, after);
      var named := Cons(Ident(p.name), Cons(LParen, TypeTokens(p.arg, after)));
      Longer(Eof, Eof, Ident(p.name), LParen, TypeTokens(p.arg, after));
      TypeLonger(p.result, named);
    }
  }

  lemma {:induction false} VersionsLonger(vs: seq<VersionSyntax>, rest: Tokens)
    ensures Length(VersionsTokens(vs, rest)) > Length(rest)
  {
    if vs != [] {
      var more := VersionsTokens(vs[1..], rest);
      VersionsLonger(vs[1..], rest);
      var after := Cons(Equal, Cons(Ident(vs[0].num), Cons(Semicolon, more)));
      Longer(Eof, Equal, Ident(vs[0].num), Semicolon, more);
      ProcsLonger(vs[0].procs, after);
      Longer(Eof, KwVersion, Ident(vs[0].name), LBrace, ProcsTokens(vs[0].procs, after));
    }
  }

  lemma {:induction false} DefLonger(d: DefSyntax, rest: Tokens)
    ensures Length(DefTokens(d, rest)) > Length(rest)
  {
    var after := Cons(Semicolon, rest);
    match d
    case StructSyntax(name, ds) =>
      DeclsLonger(ds, after);
      Longer(Eof, KwStruct, Ident(name), LBrace, DeclsTokens(ds, after));
    case UnionSyntax(name, e, cs, dflt) =>
      var arms := CasesTokens(cs, dflt, after);
      CasesLonger(cs, dflt, after);
      Longer(Eof, Eof, RParen, LBrace, arms);
      DeclLonger(e, Cons(RParen, Cons(LBrace, arms)));
      Longer(KwUnion, Ident(name), KwSwitch, LParen, DeclTokens(e, Cons(RParen, Cons(LBrace, arms))));
    case EnumSyntax(name, vs) =>
      ValsLonger(vs, after);
      Longer(Eof, KwEnum, Ident(name), LBrace, ValsTokens(vs, after));
    case ConstSyntax(name, c) =>
      Longer(KwConst, Ident(name), Equal, ConstantToken(c), after);
    case TypedefSyntax(decl) =>
      DeclLonger(decl, after);
    case ProgramSyntax(name, vs, num) =>
      Longer(Eof, Equal, Ident(num), Semicolon, rest);
      VersionsLonger(vs, Cons(Equal, Cons(Ident(num), after)));
      Longer(Eof, KwProgram, Ident(name), LBrace, VersionsTokens(vs, Cons(Equal, Cons(Ident(num), after))));
  }

  lemma {:induction false} DefineShrinks(ts: Tokens)
    ensures Define(ts).Parsed? ==> Length(Define(ts).rest) < Length(ts)
  {
    if Define(ts).Parsed? {
      DefineSound(ts);
      DefLonger(Define(ts).value, Define(ts).rest);
    }
  }

  function FileTokens(ds: seq<DefSyntax>): Tokens {
    if ds == [] then Done else DefTokens(ds[0], FileTokens(ds[1..]))
  }

  ghost predicate FileOk(ds: seq<DefSyntax>) {
    forall i :: 0 <= i < |ds| ==> DefOk(ds[i])
  }

  /** The definitions of a whole input. */
  function File(ts: Tokens): Option<seq<DefSyntax>>
    decreases Length(ts)
  {
    DefineShrinks(ts);
    if ts.Done? then Some([]) else
      var d := Define(ts);
      if d.Fail? then None else
        var ds := File(d.rest);
        if ds == None then None else Some([d.value] + ds.value)
  }

  lemma {:induction false} FileComplete(ds: seq<DefSyntax>)
    requires FileOk(ds)
    ensures File(FileTokens(ds)) == Some(ds)
  {
    if ds != [] {
      DefineComplete(ds[0], FileTokens(ds[1..]));
      DefLonger(ds[0], FileTokens(ds[1..]));
      FileComplete(ds[1..]);
      assert [ds[0]] + ds[1..] == ds;
    }
  }

  lemma {:induction false} FileSound(ts: Tokens)
    requires File(ts).Some?
    ensures FileOk(File(ts).value) && FileTokens(File(ts).value) == ts
    decreases Length(ts)
  {
    if ts.Cons? {
      DefineSound(ts);
      DefineShrinks(ts);
      var d := Define(ts);
      FileSound(d.rest);
      var ds := File(d.rest).value;
      assert ([d.value] + ds)[0] == d.value && ([d.value] + ds)[1..] == ds;
    }
  }
}
