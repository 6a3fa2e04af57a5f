/** What an artifact holds, told from the calls made on it alone: no identifiers, no
    containers, only names and the calls that were accepted. */
module ArtifactCalls {
  import opened Collections
  import opened Decls
  import opened ArtifactModel

  /** The error of `c` after `calls`, if any. */
  function ErrorOf(calls: seq<Call>, c: Call): Option<Error> {
    Step(Run(Initial, calls), c).1
  }

  /** The calls that succeeded, in order. */
  function Accepted(calls: seq<Call>): seq<Call> {
    if calls == [] then []
    else
      var front, last := calls[..|calls| - 1], calls[|calls| - 1];
      Accepted(front) + if ErrorOf(front, last).None? then [last] else []
  }

  /** Among `accepted`, `d` is declared for `name` and refines everything else declared for it. */
  ghost predicate Strongest(accepted: seq<Call>, name: string, d: Decl) {
    Declare(name, d) in accepted && forall e :: Declare(name, e) in accepted ==> Refines(e, d)
  }

  /** The declaration in force: the strongest one that was accepted. */
  ghost predicate InForce(calls: seq<Call>, name: string, d: Decl) {
    Strongest(Accepted(calls), name, d)
  }

  ghost predicate Declared(calls: seq<Call>, name: string) {
    exists d :: InForce(calls, name, d)
  }

  ghost predicate HasDefinition(calls: seq<Call>, name: string) {
    exists data, symbols :: Define(name, data, symbols) in Accepted(calls)
  }

  /** Declared to be defined here, and not defined so far. */
  ghost predicate Awaits(calls: seq<Call>, name: string, decl: DefinedDecl) {
    InForce(calls, name, Defined(decl)) && !HasDefinition(calls, name)
  }

  ghost predicate Compatible(a: Decl, b: Decl) {
    exists u :: Refines(a, u) && Refines(b, u)
  }

  function LinksIn(calls: seq<Call>): (r: seq<Call>)
    ensures forall k :: 0 <= k < |r| ==> r[k].LinkWith?
  {
    if calls == [] then []
    else LinksIn(calls[..|calls| - 1]) + if calls[|calls| - 1].LinkWith? then [calls[|calls| - 1]] else []
  }

  /** The links that were accepted, in order. */
  function AcceptedLinks(calls: seq<Call>): (r: seq<Call>)
    ensures forall k :: 0 <= k < |r| ==> r[k].LinkWith?
  {
    LinksIn(Accepted(calls))
  }

  // ----- what the containers hold after a run -----

  /** Some stored definition of `name` has these contents and custom symbols. */
  ghost predicate Stored(s: State, name: string, data: Data, symbols: CustomSymbols) {
    exists d :: d in s.Definitions() && d.name < |s.strings| && s.strings[d.name] == name && d.data == data &&
      d.symbols == symbols
  }

  /** A stored link is the call, with its names interned. */
  ghost predicate LinkStored(s: State, l: Relocation, c: Call) {
    && c.LinkWith?
    && l.from < |s.strings| && s.strings[l.from] == c.from
    && l.to < |s.strings| && s.strings[l.to] == c.to
    && l.at == c.at && l.reloc == c.reloc
  }

  ghost predicate LinksStored(s: State, links: seq<Call>) {
    |s.links| == |links| && forall k :: 0 <= k < |links| ==> LinkStored(s, s.links[k], links[k])
  }

  /** The containers hold exactly what was accepted. */
  ghost predicate Mirrors(s: State, accepted: seq<Call>) {
    && Inv(s)
    && (forall name, d :: DeclaredAs(s, name, d) <==> Strongest(accepted, name, d))
    && (forall name, d :: Declare(name, d) in accepted ==> exists e :: Strongest(accepted, name, e))
    && (forall name, data, symbols :: Stored(s, name, data, symbols) <==> Define(name, data, symbols) in accepted)
    && LinksStored(s, LinksIn(accepted))
  }

  // ----- parts that a call leaves alone -----

  lemma DeclaredStays(s: State, t: State)
    requires Inv(s) && s.strings <= t.strings && s.declarations.Keys == t.declarations.Keys
    requires forall n :: n in s.declarations ==> t.declarations[n].decl == s.declarations[n].decl
    ensures forall name, d :: DeclaredAs(t, name, d) <==> DeclaredAs(s, name, d)
  {
    hide ImportsExact, LinksDeclared, DefinitionsExact, Distinct;
    forall name, d
      ensures DeclaredAs(t, name, d) <==> DeclaredAs(s, name, d)
    {
      if DeclaredAs(s, name, d) {
        var n :| n in s.declarations && n < |s.strings| && s.strings[n] == name && s.declarations[n].decl == d;
        assert t.strings[n] == name && n in t.declarations;
      }
      if DeclaredAs(t, name, d) {
        var n :| n in t.declarations && n < |t.strings| && t.strings[n] == name && t.declarations[n].decl == d;
        assert n in s.declarations && s.strings[n] == name;
      }
    }
  }

  lemma DefinitionsNamed(s: State)
    requires Inv(s)
    ensures forall d :: d in s.Definitions() ==> d.name < |s.strings|
  {
    hide ImportsExact, LinksDeclared, Distinct;
  }

  lemma StoredStays(s: State, t: State)
    requires Inv(s) && s.strings <= t.strings && s.Definitions() == t.Definitions()
    ensures forall name, data, symbols :: Stored(t, name, data, symbols) <==> Stored(s, name, data, symbols)
  {
    hide Inv, State.Definitions;
    DefinitionsNamed(s);
    forall name, data, symbols
      ensures Stored(t, name, data, symbols) <==> Stored(s, name, data, symbols)
    {
      if Stored(s, name, data, symbols) {
        var d :| d in s.Definitions() && d.name < |s.strings| && s.strings[d.name] == name && d.data == data &&
          d.symbols == symbols;
        assert t.strings[d.name] == name;
      }
      if Stored(t, name, data, symbols) {
        var d :| d in t.Definitions() && d.name < |t.strings| && t.strings[d.name] == name && d.data == data &&
          d.symbols == symbols;
        assert s.strings[d.name] == name;
      }
    }
  }

  lemma LinksStay(s: State, t: State, links: seq<Call>)
    requires LinksStored(s, links) && s.strings <= t.strings && t.links == s.links
    ensures LinksStored(t, links)
  {
  }

  // ----- one call more -----

  lemma FailedMirrors(s: State, c: Call, accepted: seq<Call>)
    requires Mirrors(s, accepted) && Step(s, c).1.Some?
    ensures Mirrors(Step(s, c).0, accepted)
  {
    hide Inv, DeclaredAs, Strongest, Stored, LinksStored, Extends, Step;
    var t := Step(s, c).0;
    StepKeeps(s, c);
    FailedCallChangesNothing(s, c);
    StepGrows(s, c);
    DeclaredStays(s, t);
    StoredStays(s, t);
    LinksStay(s, t, LinksIn(accepted));
  }

  lemma StepGrows(s: State, c: Call)
    ensures s.strings <= Step(s, c).0.strings
  {
    hide DeclareStep, DefineStep, LinkStep;
    StepExtends(s, c);
  }

  lemma StrongestOther(accepted: seq<Call>, c: Call, name: string)
    requires c.Declare? ==> c.name != name
    ensures forall d :: Strongest(accepted + [c], name, d) <==> Strongest(accepted, name, d)
  {
    assert forall d :: Declare(name, d) in accepted + [c] <==> Declare(name, d) in accepted;
  }

  lemma StrongestUnique(accepted: seq<Call>, name: string, d: Decl, e: Decl)
    requires Strongest(accepted, name, d) && Strongest(accepted, name, e)
    ensures d == e
  {
  }

  lemma StrongestAbsorbs(accepted: seq<Call>, name: string, c: Decl, e: Decl)
    requires Strongest(accepted, name, c) && Absorb(c, e).Some?
    ensures Strongest(accepted + [Declare(name, e)], name, Absorb(c, e).value)
  {
    hide Absorb, Refines;
    var j := Absorb(c, e).value;
    AbsorbIsJoin(c, e);
    JoinIsOneOf(c, e);
    forall x | Declare(name, x) in accepted + [Declare(name, e)]
      ensures Refines(x, j)
    {
      if Declare(name, x) in accepted {
        RefinesTransitive(x, c, j);
      }
    }
  }

  /** After a declare that succeeds, its name is at the strongest declaration. */
  lemma DeclaredMerges(s: State, name: string, decl: Decl, accepted: seq<Call>)
    requires Mirrors(s, accepted) && DeclareStep(s, name, decl).1.None?
    ensures var t, n := DeclareStep(s, name, decl).0, Intern(s.strings, name).1;
            && n in t.declarations
            && Strongest(accepted + [Declare(name, decl)], name, t.declarations[n].decl)
  {
    hide ImportsExact, LinksDeclared, DefinitionsExact, SwapRemove, ImportIndex, Intern, Stored, LinksStored, Strongest;
    var t, n := DeclareStep(s, name, decl).0, Intern(s.strings, name).1;
    if n in s.declarations {
      assert DeclaredAs(s, name, s.declarations[n].decl);
      StrongestAbsorbs(accepted, name, s.declarations[n].decl, decl);
    } else {
      assert forall d :: !DeclaredAs(s, name, d);
      FirstIsStrongest(accepted, name, decl);
    }
  }

  lemma FirstIsStrongest(accepted: seq<Call>, name: string, decl: Decl)
    requires forall d :: Declare(name, d) !in accepted
    ensures Strongest(accepted + [Declare(name, decl)], name, decl)
  {
  }

  lemma DeclareMirrors(s: State, name: string, decl: Decl, accepted: seq<Call>)
    requires Mirrors(s, accepted) && DeclareStep(s, name, decl).1.None?
    ensures Mirrors(DeclareStep(s, name, decl).0, accepted + [Declare(name, decl)])
  {
    hide Inv, Strongest, Stored, LinksStored, DeclaredAs, Intern, Absorb, SwapRemove, ImportIndex, LinksIn;
    var c := Declare(name, decl);
    var t := DeclareStep(s, name, decl).0;
    StepKeeps(s, c);
    StepGrows(s, c);
    DeclaredMerges(s, name, decl, accepted);
    forall other, d
      ensures DeclaredAs(t, other, d) <==> Strongest(accepted + [c], other, d)
    {
      StepDeclaredAs(s, (name, decl), other, d);
      if other == name {
        if Strongest(accepted + [c], name, d) {
          StrongestUnique(accepted + [c], name, d, t.declarations[Intern(s.strings, name).1].decl);
        }
      } else {
        StrongestOther(accepted, c, other);
      }
    }
    forall other, d | Declare(other, d) in accepted + [c]
      ensures exists e :: Strongest(accepted + [c], other, e)
    {
      if other != name {
        StrongestOther(accepted, c, other);
        var e :| Strongest(accepted, other, e);
        assert Strongest(accepted + [c], other, e);
      }
    }
    StoredStays(s, t);
    LinksStay(s, t, LinksIn(accepted));
    LinksSnoc(accepted, c);
    assert forall n, data, symbols ::
        Define(n, data, symbols) in accepted + [c] <==> Define(n, data, symbols) in accepted;
  }

  lemma LinksSnoc(accepted: seq<Call>, c: Call)
    ensures LinksIn(accepted + [c]) == if c.LinkWith? then LinksIn(accepted) + [c] else LinksIn(accepted)
  {
    assert (accepted + [c])[..|accepted|] == accepted;
  }

  lemma StrongestStays(accepted: seq<Call>, c: Call)
    requires !c.Declare?
    ensures forall name, d :: Strongest(accepted + [c], name, d) <==> Strongest(accepted, name, d)
    ensures forall name, d :: Declare(name, d) in accepted + [c] <==> Declare(name, d) in accepted
  {
    forall name, d
      ensures Strongest(accepted + [c], name, d) <==> Strongest(accepted, name, d)
    {
      StrongestOther(accepted, c, name);
    }
  }

  /** A define that succeeds adds its contents under its name, and nothing else. */
  lemma DefinedIsStored(s: State, name: string, data: Data, symbols: CustomSymbols)
    requires Inv(s) && DefineStep(s, name, data, symbols).1.None?
    ensures forall other, data', symbols' ::
              Stored(DefineStep(s, name, data, symbols).0, other, data', symbols') <==>
              Stored(s, other, data', symbols') || (other == name && data' == data && symbols' == symbols)
  {
    hide Inv, Intern;
    DefinitionsNamed(s);
    var n := Intern(s.strings, name).1;
    var t := DefineStep(s, name, data, symbols).0;
    var added := InternalDefinition(s.declarations[n].decl.def, n, symbols, data);
    assert t.Definitions() == s.Definitions() + {added};
    assert added in t.Definitions() && t.strings[n] == name;
    forall other, data', symbols'
      ensures Stored(t, other, data', symbols') <==>
              Stored(s, other, data', symbols') || (other == name && data' == data && symbols' == symbols)
    {
      if Stored(s, other, data', symbols') {
        var d :| d in s.Definitions() && d.name < |s.strings| && s.strings[d.name] == other && d.data == data' &&
          d.symbols == symbols';
        assert d in t.Definitions() && t.strings[d.name] == other;
      }
      if Stored(t, other, data', symbols') {
        var d :| d in t.Definitions() && d.name < |t.strings| && t.strings[d.name] == other && d.data == data' &&
          d.symbols == symbols';
        assert d != added ==> d in s.Definitions() && s.strings[d.name] == other;
      }
    }
  }

  lemma DefineMirrors(s: State, name: string, data: Data, symbols: CustomSymbols, accepted: seq<Call>)
    requires Mirrors(s, accepted) && DefineStep(s, name, data, symbols).1.None?
    ensures Mirrors(DefineStep(s, name, data, symbols).0, accepted + [Define(name, data, symbols)])
  {
    hide Inv, Strongest, Stored, LinksStored, DeclaredAs, Intern, LinksIn;
    var c := Define(name, data, symbols);
    var t := DefineStep(s, name, data, symbols).0;
    StepKeeps(s, c);
    StepGrows(s, c);
    DeclaredStays(s, t);
    StrongestStays(accepted, c);
    DefinedIsStored(s, name, data, symbols);
    LinksStay(s, t, LinksIn(accepted));
    LinksSnoc(accepted, c);
  }

  lemma LinkMirrors(s: State, from: string, to: string, at: nat, reloc: Reloc, accepted: seq<Call>)
    requires Mirrors(s, accepted) && LinkStep(s, from, to, at, reloc).1.None?
    ensures Mirrors(LinkStep(s, from, to, at, reloc).0, accepted + [LinkWith(from, to, at, reloc)])
  {
    hide Inv, Strongest, Stored, DeclaredAs, Intern, LinksIn, LinksStored;
    var c := LinkWith(from, to, at, reloc);
    var t := LinkStep(s, from, to, at, reloc).0;
    StepKeeps(s, c);
    StepGrows(s, c);
    DeclaredStays(s, t);
    StrongestStays(accepted, c);
    StoredStays(s, t);
    LinksSnoc(accepted, c);
    LinkAdded(s, from, to, at, reloc, LinksIn(accepted));
    assert forall name, data, symbols ::
        Define(name, data, symbols) in accepted + [c] <==> Define(name, data, symbols) in accepted;
  }

  /** A link that succeeds is stored last, with both names, its offset and its kind. */
  lemma LinkAdded(s: State, from: string, to: string, at: nat, reloc: Reloc, links: seq<Call>)
    requires LinksStored(s, links) && LinkStep(s, from, to, at, reloc).1.None?
    ensures LinksStored(LinkStep(s, from, to, at, reloc).0, links + [LinkWith(from, to, at, reloc)])
  {
    hide IndexOf, Distinct;
  }

  /** Whatever is called, the containers hold exactly what was accepted. */
  lemma {:induction false} RunMirrors(calls: seq<Call>)
    ensures Mirrors(Run(Initial, calls), Accepted(calls))
  {
    hide Mirrors, Step;
    if calls == [] {
      InitialMirrors();
    } else {
      var front, last := calls[..|calls| - 1], calls[|calls| - 1];
      var s, accepted := Run(Initial, front), Accepted(front);
      RunMirrors(front);
      if ErrorOf(front, last).None? {
        AcceptedMirrors(s, last, accepted);
      } else {
        FailedMirrors(s, last, accepted);
        assert accepted + [] == accepted;
      }
    }
  }

  lemma InitialMirrors()
    ensures Mirrors(Initial, [])
  {
  }

  lemma AcceptedMirrors(s: State, c: Call, accepted: seq<Call>)
    requires Mirrors(s, accepted) && Step(s, c).1.None?
    ensures Mirrors(Step(s, c).0, accepted + [c])
  {
    hide Mirrors, DeclareStep, DefineStep, LinkStep;
    match c
    case Declare(name, decl) => DeclareMirrors(s, name, decl, accepted);
    case Define(name, data, symbols) => DefineMirrors(s, name, data, symbols, accepted);
    case LinkWith(from, to, at, reloc) => LinkMirrors(s, from, to, at, reloc, accepted);
  }

  // ----- looking a name up -----

  lemma DefinedIff(s: State, n: Id)
    requires Inv(s) && n in s.declarations
    ensures n < |s.strings|
    ensures s.declarations[n].defined <==> exists data, symbols :: Stored(s, s.strings[n], data, symbols)
  {
    hide ImportsExact, LinksDeclared;
    if s.declarations[n].defined {
      var d :| Carries(s, n, d);
      assert Stored(s, s.strings[n], d.data, d.symbols);
    }
    if data, symbols :| Stored(s, s.strings[n], data, symbols) {
      var d :| d in s.Definitions() && d.name < |s.strings| && s.strings[d.name] == s.strings[n] && d.data == data &&
        d.symbols == symbols;
      assert d.name == n;
    }
  }

  /** The entry a name is looked up under is the one its calls call for. */
  lemma Lookup(calls: seq<Call>, name: string)
    ensures var s := Run(Initial, calls);
            var n := Intern(s.strings, name).1;
            && (n in s.declarations <==> Declared(calls, name))
            && (n in s.declarations ==>
                  && (forall d :: InForce(calls, name, d) <==> d == s.declarations[n].decl)
                  && (s.declarations[n].defined <==> HasDefinition(calls, name)))
  {
    hide Strongest, Stored, LinksStored, ImportsExact, LinksDeclared, DefinitionsExact, Run, Accepted, LinksIn, Intern;
    var s := Run(Initial, calls);
    RunMirrors(calls);
    var n := Intern(s.strings, name).1;
    if n in s.declarations {
      assert DeclaredAs(s, name, s.declarations[n].decl);
      forall d | InForce(calls, name, d)
        ensures d == s.declarations[n].decl
      {
        StrongestUnique(Accepted(calls), name, d, s.declarations[n].decl);
      }
      DefinedIff(s, n);
      assert InForce(calls, name, s.declarations[n].decl);
      assert HasDefinition(calls, name) <==> exists data, symbols :: Stored(s, name, data, symbols);
    } else {
      assert forall d :: !DeclaredAs(s, name, d);
    }
  }

  /** Only what is declared to be defined here can have been defined. */
  lemma DefinedIsDeclared(calls: seq<Call>, name: string)
    requires HasDefinition(calls, name)
    ensures exists decl :: InForce(calls, name, Defined(decl))
  {
    hide Strongest, LinksStored, ImportsExact, LinksDeclared, Run, Accepted;
    var s := Run(Initial, calls);
    RunMirrors(calls);
    var data, symbols :| Define(name, data, symbols) in Accepted(calls);
    assert Stored(s, name, data, symbols);
    var d :| d in s.Definitions() && d.name < |s.strings| && s.strings[d.name] == name && d.data == data &&
      d.symbols == symbols;
    assert DeclaredAs(s, name, Defined(d.decl));
    assert InForce(calls, name, Defined(d.decl));
  }

  // ----- when a call succeeds -----

  /** A declaration is refused exactly when the one in force is incompatible with it. */
  lemma DeclareOutcome(calls: seq<Call>, name: string, decl: Decl)
    ensures var e := ErrorOf(calls, Declare(name, decl));
            && (e.None? <==> forall c :: InForce(calls, name, c) ==> Compatible(c, decl))
            && (e.Some? ==> exists c :: InForce(calls, name, c) && e.value == IncompatibleDeclaration(c, decl))
  {
    hide InForce, Refines, Absorb, Run, SwapRemove, ImportIndex, Intern;
    var s := Run(Initial, calls);
    var n := Intern(s.strings, name).1;
    Lookup(calls, name);
    if n in s.declarations {
      AbsorbIsJoin(s.declarations[n].decl, decl);
      assert Absorb(s.declarations[n].decl, decl).Some? <==> Compatible(s.declarations[n].decl, decl);
    } else {
      AbsorbSelf(decl);
    }
  }

  lemma AbsorbSelf(d: Decl)
    ensures Absorb(d, d) == Some(d)
  {
  }

  /** A definition is accepted exactly when its name awaits one that these contents suit;
      each way of refusing it has its own error. */
  lemma DefineOutcome(calls: seq<Call>, name: string, data: Data, symbols: CustomSymbols)
    ensures var e := ErrorOf(calls, Define(name, data, symbols));
            && (e.None? <==>
                exists decl :: Awaits(calls, name, decl) && ContentsAllowed(Definition(name, data, symbols, decl)))
            && (e == Some(Undeclared(name)) <==> !Declared(calls, name))
            && (e == Some(DuplicateDefinition(name)) <==> HasDefinition(calls, name))
            && (e == Some(ImportDefined(name)) <==> exists kind :: InForce(calls, name, Import(kind)))
    ensures forall decl | Awaits(calls, name, decl) ::
              var e := ErrorOf(calls, Define(name, data, symbols));
              && (e == Some(NonSectionCustomSymbols(decl, symbols)) <==> symbols != [] && !decl.SectionDecl?)
              && (e == Some(InvalidZeroInit(decl)) <==>
                  data.ZeroInit? && !decl.DataDecl? && (symbols == [] || decl.SectionDecl?))
  {
    hide InForce, HasDefinition, Run, Intern;
    var s := Run(Initial, calls);
    var n := Intern(s.strings, name).1;
    Lookup(calls, name);
    if HasDefinition(calls, name) {
      DefinedIsDeclared(calls, name);
    }
    if n in s.declarations && s.declarations[n].decl.Defined? {
      assert Awaits(calls, name, s.declarations[n].decl.def) <==> !s.declarations[n].defined;
    }
  }

  /** A link is accepted exactly when both ends are declared and the first is no import. */
  lemma LinkOutcome(calls: seq<Call>, from: string, to: string, at: nat, reloc: Reloc)
    ensures var e := ErrorOf(calls, LinkWith(from, to, at, reloc));
            && (e.None? <==> Declared(calls, to) && exists d :: InForce(calls, from, Defined(d)))
            && (!Declared(calls, from) ==> e == Some(Undeclared(from)))
            && (Declared(calls, from) && !Declared(calls, to) ==> e == Some(Undeclared(to)))
            && (e == Some(RelocateImport(from)) <==>
                Declared(calls, to) && exists kind :: InForce(calls, from, Import(kind)))
  {
    hide InForce, Run, Intern, HasDefinition, Inv;
    var s := Run(Initial, calls);
    Lookup(calls, from);
    Lookup(calls, to);
    RunMirrors(calls);
    SecondIntern(s, from, to);
  }

  /** Interning one name first does not change what another is found under. */
  lemma SecondIntern(s: State, from: string, to: string)
    requires Inv(s)
    ensures var t := Intern(s.strings, from).0;
            Intern(t, to).1 in s.declarations <==> Intern(s.strings, to).1 in s.declarations
  {
    hide ImportsExact, LinksDeclared, DefinitionsExact, IndexOf;
    var t := Intern(s.strings, from).0;
    if to in s.strings {
      assert t[Intern(s.strings, to).1] == to;
    }
  }

  // ----- what emission is handed -----

  /** Exactly the names that await a definition are undefined. */
  lemma UndefinedIff(calls: seq<Call>, name: string)
    ensures var s := Run(Initial, calls);
            (exists n :: n in UndefinedSymbols(s) && n < |s.strings| && s.strings[n] == name) <==>
            exists decl :: Awaits(calls, name, decl)
  {
    hide InForce, HasDefinition, Run, Inv;
    var s := Run(Initial, calls);
    Lookup(calls, name);
    RunMirrors(calls);
    InternedOnce(s, name);
    var n := Intern(s.strings, name).1;
    if n in s.declarations && s.declarations[n].decl.Defined? {
      assert Awaits(calls, name, s.declarations[n].decl.def) <==> n in UndefinedSymbols(s);
    }
  }

  lemma InternedOnce(s: State, name: string)
    requires Inv(s)
    ensures forall n :: n in s.declarations && n < |s.strings| && s.strings[n] == name ==>
              n == Intern(s.strings, name).1
    ensures Intern(s.strings, name).1 in s.declarations ==>
            Intern(s.strings, name).1 < |s.strings| && s.strings[Intern(s.strings, name).1] == name
  {
    hide ImportsExact, LinksDeclared, DefinitionsExact, IndexOf;
  }

  /** `v` is what was accepted: a definition for each accepted `define`, under the
      declaration in force; an import for each name that an import declaration is in
      force for; and the accepted links, in order. */
  ghost predicate Reflects(calls: seq<Call>, v: Input) {
    && (forall d :: d in v.definitions <==>
          Define(d.name, d.data, d.symbols) in Accepted(calls) && InForce(calls, d.name, Defined(d.decl)))
    && (forall name, kind :: (name, kind) in v.imports <==> InForce(calls, name, Import(kind)))
    && Distinct(Names(v.definitions) + ImportNames(v.imports))
    && |v.links| == |AcceptedLinks(calls)|
    && (forall k :: 0 <= k < |v.links| ==> LinkReflects(calls, v.links[k], AcceptedLinks(calls)[k]))
  }

  ghost predicate LinkReflects(calls: seq<Call>, l: LinkAndDecl, c: Call) {
    && c == LinkWith(l.from.name, l.to.name, l.at, l.reloc)
    && InForce(calls, l.from.name, l.from.decl)
    && InForce(calls, l.to.name, l.to.decl)
  }

  lemma ViewReflects(calls: seq<Call>, name: string, locals: seq<InternalDefinition>,
                     nonlocals: seq<InternalDefinition>)
    requires var s := Run(Initial, calls); Enumerates(locals, s.locals) && Enumerates(nonlocals, s.nonlocals)
    ensures var s := Run(Initial, calls);
            && Resolvable(s)
            && View(s, name, locals, nonlocals).name == name
            && Reflects(calls, View(s, name, locals, nonlocals))
  {
    hide Inv, Mirrors, Run, Enumerates, Accepted, InForce, Resolvable, View, Distinct;
    var s := Run(Initial, calls);
    RunMirrors(calls);
    MirrorsInv(s, Accepted(calls));
    ViewNamesDistinct(s, name, locals, nonlocals);
    var v := View(s, name, locals, nonlocals);
    assert v.name == name by { ViewName(s, name, locals, nonlocals); }
    forall d
      ensures d in v.definitions <==>
              Define(d.name, d.data, d.symbols) in Accepted(calls) && InForce(calls, d.name, Defined(d.decl))
    {
      DefinitionReflects(calls, name, locals, nonlocals, d);
    }
    forall n, kind
      ensures (n, kind) in v.imports <==> InForce(calls, n, Import(kind))
    {
      ImportReflects(calls, name, locals, nonlocals, n, kind);
    }
    LinksReflect(calls, name, locals, nonlocals);
  }

  lemma MirrorsInv(s: State, accepted: seq<Call>)
    requires Mirrors(s, accepted)
    ensures Inv(s)
  {
  }

  lemma ViewName(s: State, name: string, locals: seq<InternalDefinition>, nonlocals: seq<InternalDefinition>)
    requires Resolvable(s) && Enumerates(locals, s.locals) && Enumerates(nonlocals, s.nonlocals)
    ensures View(s, name, locals, nonlocals).name == name
  {
  }

  /** The view's definitions are the stored ones, under their names. */
  lemma ViewDefinitions(s: State, name: string, locals: seq<InternalDefinition>, nonlocals: seq<InternalDefinition>)
    requires Resolvable(s) && Enumerates(locals, s.locals) && Enumerates(nonlocals, s.nonlocals)
    ensures forall d :: d in View(s, name, locals, nonlocals).definitions <==>
              exists e :: e in s.Definitions() && d == Resolve(s.strings, e)
  {
    hide Distinct, Resolve;
    var order, v := locals + nonlocals, View(s, name, locals, nonlocals);
    forall e | e in s.Definitions()
      ensures Resolve(s.strings, e) in v.definitions
    {
      assert e in order;
      var k :| 0 <= k < |order| && order[k] == e;
      assert v.definitions[k] == Resolve(s.strings, e);
    }
    forall d | d in v.definitions
      ensures exists e :: e in s.Definitions() && d == Resolve(s.strings, e)
    {
      var k :| 0 <= k < |v.definitions| && v.definitions[k] == d;
      assert order[k] in order && order[k] in s.Definitions();
    }
  }

  lemma DefinitionReflects(calls: seq<Call>, name: string, locals: seq<InternalDefinition>,
                           nonlocals: seq<InternalDefinition>, d: Definition)
    requires var s := Run(Initial, calls);
             Resolvable(s) && Enumerates(locals, s.locals) && Enumerates(nonlocals, s.nonlocals)
    ensures d in View(Run(Initial, calls), name, locals, nonlocals).definitions <==>
            Define(d.name, d.data, d.symbols) in Accepted(calls) && InForce(calls, d.name, Defined(d.decl))
  {
    hide View, Run, Enumerates, Accepted, Strongest, ImportsExact, LinksDeclared, LinksStored;
    var s := Run(Initial, calls);
    RunMirrors(calls);
    ViewDefinitions(s, name, locals, nonlocals);
    assert Stored(s, d.name, d.data, d.symbols) <==> Define(d.name, d.data, d.symbols) in Accepted(calls);
    if e :| e in s.Definitions() && d == Resolve(s.strings, e) {
      assert DeclaredAs(s, d.name, Defined(d.decl));
      assert Stored(s, d.name, d.data, d.symbols);
    }
    if Stored(s, d.name, d.data, d.symbols) && DeclaredAs(s, d.name, Defined(d.decl)) {
      var e :| e in s.Definitions() && e.name < |s.strings| && s.strings[e.name] == d.name && e.data == d.data &&
        e.symbols == d.symbols;
      var n :| n in s.declarations && n < |s.strings| && s.strings[n] == d.name &&
        s.declarations[n].decl == Defined(d.decl);
      assert n == e.name && d == Resolve(s.strings, e);
    }
  }

  lemma ImportReflects(calls: seq<Call>, name: string, locals: seq<InternalDefinition>,
                       nonlocals: seq<InternalDefinition>, n: string, kind: ImportKind)
    requires var s := Run(Initial, calls);
             Resolvable(s) && Enumerates(locals, s.locals) && Enumerates(nonlocals, s.nonlocals)
    ensures (n, kind) in View(Run(Initial, calls), name, locals, nonlocals).imports <==>
            InForce(calls, n, Import(kind))
  {
    hide Run, Enumerates, Accepted, Strongest, Inv, LinksStored, Stored;
    var s, v := Run(Initial, calls), View(Run(Initial, calls), name, locals, nonlocals);
    RunMirrors(calls);
    ImportsFollowDeclarations(s, n, kind);
    if ListsImport(s, n, kind) {
      var k :| 0 <= k < |s.imports| && s.imports[k].0 < |s.strings| && s.strings[s.imports[k].0] == n &&
        s.imports[k].1 == kind;
      assert v.imports[k] == (n, kind);
    }
    if (n, kind) in v.imports {
      var k :| 0 <= k < |v.imports| && v.imports[k] == (n, kind);
      assert s.strings[s.imports[k].0] == n;
    }
  }

  lemma LinksReflect(calls: seq<Call>, name: string, locals: seq<InternalDefinition>,
                     nonlocals: seq<InternalDefinition>)
    requires var s := Run(Initial, calls);
             Resolvable(s) && Enumerates(locals, s.locals) && Enumerates(nonlocals, s.nonlocals)
    ensures var v := View(Run(Initial, calls), name, locals, nonlocals);
            && |v.links| == |AcceptedLinks(calls)|
            && forall k :: 0 <= k < |v.links| ==> LinkReflects(calls, v.links[k], AcceptedLinks(calls)[k])
  {
    hide Run, Enumerates, Accepted, LinksIn, Strongest, Inv, Stored;
    var s, v := Run(Initial, calls), View(Run(Initial, calls), name, locals, nonlocals);
    RunMirrors(calls);
    forall k | 0 <= k < |v.links|
      ensures LinkReflects(calls, v.links[k], AcceptedLinks(calls)[k])
    {
      var l := s.links[k];
      assert LinkStored(s, l, AcceptedLinks(calls)[k]);
      assert DeclaredAs(s, s.strings[l.from], s.declarations[l.from].decl);
      assert DeclaredAs(s, s.strings[l.to], s.declarations[l.to].decl);
    }
  }
}
