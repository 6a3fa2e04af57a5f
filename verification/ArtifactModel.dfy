/** The artifact as a state machine over its API calls, and what every run keeps. */
module ArtifactModel {
  import opened Collections
  import opened Decls

  type Id = nat

  datatype InternalDecl = InternalDecl(decl: Decl, defined: bool)

  datatype InternalDefinition =
    InternalDefinition(decl: DefinedDecl, name: Id, symbols: CustomSymbols, data: Data)

  datatype Relocation = Relocation(from: Id, to: Id, at: nat, reloc: Reloc)

  datatype State = State(
    strings: seq<string>,
    imports: seq<(Id, ImportKind)>,
    links: seq<Relocation>,
    declarations: map<Id, InternalDecl>,
    locals: set<InternalDefinition>,
    nonlocals: set<InternalDefinition>)
  {
    function Definitions(): set<InternalDefinition> {
      locals + nonlocals
    }
  }

  const Initial := State([], [], [], map[], {}, {})

  datatype Error =
    | Undeclared(name: string)
    | ImportDefined(name: string)
    | RelocateImport(name: string)
    | IncompatibleDeclaration(old_: Decl, new_: Decl)
    | DuplicateDefinition(name: string)
    | InvalidZeroInit(decl: DefinedDecl)
    | NonSectionCustomSymbols(decl: DefinedDecl, symbols: CustomSymbols)

  datatype Call =
    | Declare(name: string, decl: Decl)
    | Define(name: string, data: Data, symbols: CustomSymbols)
    | LinkWith(from: string, to: string, at: nat, reloc: Reloc)

  // ----- one call -----

  /** `Vec::swap_remove`: the last element takes the vacated place. */
  function SwapRemove<T>(s: seq<T>, i: nat): seq<T>
    requires i < |s|
  {
    s[i := s[|s| - 1]][..|s| - 1]
  }

  function ImportIndex(imports: seq<(Id, ImportKind)>, n: Id): (r: Option<nat>)
    ensures r.None? <==> forall k :: 0 <= k < |imports| ==> imports[k].0 != n
    ensures r.Some? ==> r.value < |imports| && imports[r.value].0 == n
    ensures r.Some? ==> forall k :: r.value < k < |imports| ==> imports[k].0 != n
  {
    if imports == [] then None
    else if imports[|imports| - 1].0 == n then Some(|imports| - 1)
    else ImportIndex(imports[..|imports| - 1], n)
  }

  function DeclareStep(s: State, name: string, decl: Decl): (State, Option<Error>) {
    var (strings, n) := Intern(s.strings, name);
    var entry := if n in s.declarations then s.declarations[n] else InternalDecl(decl, false);
    match Absorb(entry.decl, decl)
    case None => (s.(strings := strings), Some(IncompatibleDeclaration(entry.decl, decl)))
    case Some(merged) =>
      var at := ImportIndex(s.imports, n);
      var imports :=
        if merged.Import? then
          if at.Some? then s.imports else s.imports + [(n, merged.kind)]
        else if entry.decl.Import? && at.Some? then SwapRemove(s.imports, at.value)
        else s.imports;
      (s.(strings := strings,
          declarations := s.declarations[n := entry.(decl := merged)],
          imports := imports), None)
  }

  function DefineStep(s: State, name: string, data: Data, symbols: CustomSymbols): (State, Option<Error>) {
    var (strings, n) := Intern(s.strings, name);
    var t := s.(strings := strings);
    if n !in s.declarations then (t, Some(Undeclared(name)))
    else if s.declarations[n].defined then (t, Some(DuplicateDefinition(name)))
    else
      match s.declarations[n].decl
      case Import(_) => (t, Some(ImportDefined(name)))
      case Defined(decl) =>
        if !decl.SectionDecl? && symbols != [] then (t, Some(NonSectionCustomSymbols(decl, symbols)))
        else if !decl.DataDecl? && data.ZeroInit? then (t, Some(InvalidZeroInit(decl)))
        else
          var d := InternalDefinition(decl, n, symbols, data);
          var u := t.(declarations := s.declarations[n := InternalDecl(Defined(decl), true)]);
          if decl.IsGlobal() then (u.(nonlocals := s.nonlocals + {d}), None)
          else (u.(locals := s.locals + {d}), None)
  }

  function LinkStep(s: State, from: string, to: string, at: nat, reloc: Reloc): (State, Option<Error>) {
    var (strings', f) := Intern(s.strings, from);
    var (strings, g) := Intern(strings', to);
    var t := s.(strings := strings);
    if f !in s.declarations then (t, Some(Undeclared(from)))
    else if g !in s.declarations then (t, Some(Undeclared(to)))
    else if s.declarations[f].decl.Import? then (t, Some(RelocateImport(from)))
    else (t.(links := s.links + [Relocation(f, g, at, reloc)]), None)
  }

  function Step(s: State, c: Call): (State, Option<Error>) {
    match c
    case Declare(name, decl) => DeclareStep(s, name, decl)
    case Define(name, data, symbols) => DefineStep(s, name, data, symbols)
    case LinkWith(from, to, at, reloc) => LinkStep(s, from, to, at, reloc)
  }

  function Run(s: State, calls: seq<Call>): State {
    if calls == [] then s
    else Step(Run(s, calls[..|calls| - 1]), calls[|calls| - 1]).0
  }

  // ----- the invariant -----

  /** `imports` lists, once each, exactly the names whose declaration is an import. */
  ghost predicate ImportsExact(s: State) {
    && Distinct(s.imports)
    && (forall i :: 0 <= i < |s.imports| ==>
          s.imports[i].0 in s.declarations && s.declarations[s.imports[i].0].decl == Import(s.imports[i].1))
    && (forall n :: n in s.declarations && s.declarations[n].decl.Import? ==>
          (n, s.declarations[n].decl.kind) in s.imports)
  }

  ghost predicate LinksDeclared(s: State) {
    forall i :: 0 <= i < |s.links| ==>
      && s.links[i].from in s.declarations
      && s.links[i].to in s.declarations
      && !s.declarations[s.links[i].from].decl.Import?
  }

  ghost predicate Carries(s: State, n: Id, d: InternalDefinition) {
    d in s.Definitions() && d.name == n
  }

  /** A stored definition carries its name's current declaration, sits in the set
      its scope calls for, and is the only one of its name; every name marked
      defined has one. */
  ghost predicate DefinitionsExact(s: State) {
    && (forall d :: d in s.Definitions() ==>
          && d.name in s.declarations
          && s.declarations[d.name] == InternalDecl(Defined(d.decl), true)
          && (d.data.ZeroInit? ==> d.decl.DataDecl?)
          && (d.symbols != [] ==> d.decl.SectionDecl?))
    && (forall d :: d in s.locals ==> !d.decl.IsGlobal())
    && (forall d :: d in s.nonlocals ==> d.decl.IsGlobal())
    && (forall d, e :: d in s.Definitions() && e in s.Definitions() && d.name == e.name ==> d == e)
    && (forall n :: n in s.declarations && s.declarations[n].defined ==> exists d :: Carries(s, n, d))
  }

  ghost predicate Inv(s: State) {
    && Distinct(s.strings)
    && (forall n :: n in s.declarations ==> n < |s.strings|)
    && ImportsExact(s)
    && LinksDeclared(s)
    && DefinitionsExact(s)
  }

  lemma SwapRemoveElements<T(!new)>(s: seq<T>, i: nat)
    requires i < |s| && Distinct(s)
    ensures Distinct(SwapRemove(s, i))
    ensures forall x :: x in SwapRemove(s, i) <==> x in s && x != s[i]
  {
    var r := SwapRemove(s, i);
    forall x | x in s && x != s[i]
      ensures x in r
    {
      var k :| 0 <= k < |s| && s[k] == x;
      assert r[if k == |s| - 1 then i else k] == x;
    }
  }

  lemma AddImportExact(s: State, t: State, n: Id, kind: ImportKind)
    requires ImportsExact(s) && n !in s.declarations
    requires n in t.declarations && t.declarations[n].decl == Import(kind)
    requires t.declarations == s.declarations[n := t.declarations[n]]
    requires t.imports == s.imports + [(n, kind)]
    ensures ImportsExact(t)
  {
  }

  lemma DropImportExact(s: State, t: State, n: Id, at: nat)
    requires ImportsExact(s) && n in s.declarations && at < |s.imports| && s.imports[at].0 == n
    requires n in t.declarations && t.declarations[n].decl.Defined?
    requires t.declarations == s.declarations[n := t.declarations[n]]
    requires t.imports == SwapRemove(s.imports, at)
    ensures ImportsExact(t)
  {
    SwapRemoveElements(s.imports, at);
    forall i | 0 <= i < |t.imports|
      ensures t.imports[i].0 in s.declarations && t.imports[i].0 != n
      ensures s.declarations[t.imports[i].0].decl == Import(t.imports[i].1)
    {
      assert t.imports[i] in t.imports;
      var k :| 0 <= k < |s.imports| && s.imports[k] == t.imports[i];
    }
  }

  lemma DeclareKeepsImports(s: State, name: string, decl: Decl)
    requires Inv(s)
    ensures ImportsExact(DeclareStep(s, name, decl).0)
  {
    var n := Intern(s.strings, name).1;
    var (t, e) := DeclareStep(s, name, decl);
    if e.None? {
      if n !in s.declarations {
        assert forall i :: 0 <= i < |s.imports| ==> s.imports[i].0 != n;
        if decl.Import? {
          AddImportExact(s, t, n, decl.kind);
        }
      } else if s.declarations[n].decl.Import? {
        assert (n, s.declarations[n].decl.kind) in s.imports;
        if t.declarations[n].decl.Defined? {
          DropImportExact(s, t, n, ImportIndex(s.imports, n).value);
        }
      }
    }
  }

  lemma DeclareKeepsDefinitions(s: State, name: string, decl: Decl)
    requires Inv(s)
    ensures DefinitionsExact(DeclareStep(s, name, decl).0)
    ensures LinksDeclared(DeclareStep(s, name, decl).0)
  {
    var t := DeclareStep(s, name, decl).0;
    forall n | n in t.declarations && t.declarations[n].defined
      ensures exists d :: Carries(t, n, d)
    {
      var d :| Carries(s, n, d);
      assert Carries(t, n, d);
    }
  }

  lemma DefineKeepsRest(s: State, name: string, data: Data, symbols: CustomSymbols)
    requires Inv(s)
    ensures ImportsExact(DefineStep(s, name, data, symbols).0)
    ensures LinksDeclared(DefineStep(s, name, data, symbols).0)
  {
  }

  lemma DefineKeepsDefinitions(s: State, name: string, data: Data, symbols: CustomSymbols)
    requires Inv(s)
    ensures DefinitionsExact(DefineStep(s, name, data, symbols).0)
  {
    var n := Intern(s.strings, name).1;
    var (t, e) := DefineStep(s, name, data, symbols);
    if e.None? {
      var d := InternalDefinition(s.declarations[n].decl.def, n, symbols, data);
      AddDefinitionExact(s, t, d);
    } else {
      SameDefinitions(s, t);
    }
  }

  lemma SameDefinitions(s: State, t: State)
    requires DefinitionsExact(s)
    requires t.declarations == s.declarations && t.locals == s.locals && t.nonlocals == s.nonlocals
    ensures DefinitionsExact(t)
  {
    forall n | n in t.declarations && t.declarations[n].defined
      ensures exists d :: Carries(t, n, d)
    {
      var d :| Carries(s, n, d);
      assert Carries(t, n, d);
    }
  }

  lemma AddDefinitionExact(s: State, t: State, d: InternalDefinition)
    requires DefinitionsExact(s) && d.name in s.declarations && !s.declarations[d.name].defined
    requires t.declarations == s.declarations[d.name := InternalDecl(Defined(d.decl), true)]
    requires d.data.ZeroInit? ==> d.decl.DataDecl?
    requires d.symbols != [] ==> d.decl.SectionDecl?
    requires t.locals == if d.decl.IsGlobal() then s.locals else s.locals + {d}
    requires t.nonlocals == if d.decl.IsGlobal() then s.nonlocals + {d} else s.nonlocals
    ensures DefinitionsExact(t)
  {
    hide State.Definitions, DefinedDecl.IsGlobal;
    AddedTo(s, t, d);
    assert forall e :: e in s.Definitions() ==> e.name != d.name;
    forall n | n in t.declarations && t.declarations[n].defined
      ensures exists e :: Carries(t, n, e)
    {
      if n == d.name {
        assert Carries(t, n, d);
      } else {
        var e :| Carries(s, n, e);
        assert Carries(t, n, e);
      }
    }
  }

  lemma AddedTo(s: State, t: State, d: InternalDefinition)
    requires t.locals == if d.decl.IsGlobal() then s.locals else s.locals + {d}
    requires t.nonlocals == if d.decl.IsGlobal() then s.nonlocals + {d} else s.nonlocals
    ensures t.Definitions() == s.Definitions() + {d}
  {
  }

  lemma DefineKeeps(s: State, name: string, data: Data, symbols: CustomSymbols)
    requires Inv(s)
    ensures Inv(DefineStep(s, name, data, symbols).0)
  {
    DefineKeepsRest(s, name, data, symbols);
    DefineKeepsDefinitions(s, name, data, symbols);
  }

  lemma LinkKeeps(s: State, from: string, to: string, at: nat, reloc: Reloc)
    requires Inv(s)
    ensures Inv(LinkStep(s, from, to, at, reloc).0)
  {
    hide DefinitionsExact, Distinct, IndexOf;
    SameDefinitions(s, LinkStep(s, from, to, at, reloc).0);
  }

  lemma StepKeeps(s: State, c: Call)
    requires Inv(s)
    ensures Inv(Step(s, c).0)
  {
    match c
    case Declare(name, decl) =>
      DeclareKeepsImports(s, name, decl);
      DeclareKeepsDefinitions(s, name, decl);
    case Define(name, data, symbols) =>
      DefineKeeps(s, name, data, symbols);
    case LinkWith(from, to, at, reloc) =>
      LinkKeeps(s, from, to, at, reloc);
  }

  /** Every state any sequence of calls can reach satisfies the invariant. */
  lemma {:induction false} RunKeeps(s: State, calls: seq<Call>)
    requires Inv(s)
    ensures Inv(Run(s, calls))
  {
    if calls != [] {
      RunKeeps(s, calls[..|calls| - 1]);
      StepKeeps(Run(s, calls[..|calls| - 1]), calls[|calls| - 1]);
    }
  }

  /** A call that fails leaves declarations, imports, links and definitions alone. */
  lemma FailedCallChangesNothing(s: State, c: Call)
    requires Step(s, c).1.Some?
    ensures Step(s, c).0 == s.(strings := Step(s, c).0.strings)
  {
  }

  /** Names, links and definitions are kept; a declaration only moves up the
      refinement order, so one that asks for a definition is final. */
  ghost predicate Extends(s: State, t: State) {
    && s.strings <= t.strings
    && s.locals <= t.locals && s.nonlocals <= t.nonlocals
    && s.links <= t.links
    && (forall n :: n in s.declarations ==> n in t.declarations && EntryExtends(s.declarations[n], t.declarations[n]))
  }

  predicate EntryExtends(a: InternalDecl, b: InternalDecl) {
    && Refines(a.decl, b.decl)
    && (a.decl.Defined? ==> b.decl == a.decl)
    && (a.defined ==> b.defined)
  }

  lemma StepExtends(s: State, c: Call)
    ensures Extends(s, Step(s, c).0)
  {
    match c
    case Declare(name, decl) => DeclareExtends(s, name, decl);
    case Define(name, data, symbols) => DefineExtends(s, name, data, symbols);
    case LinkWith(from, to, at, reloc) => LinkExtends(s, from, to, at, reloc);
  }

  lemma LinkExtends(s: State, from: string, to: string, at: nat, reloc: Reloc)
    ensures Extends(s, LinkStep(s, from, to, at, reloc).0)
  {
  }

  lemma DeclareExtends(s: State, name: string, decl: Decl)
    ensures Extends(s, DeclareStep(s, name, decl).0)
  {
  }

  lemma DefineExtends(s: State, name: string, data: Data, symbols: CustomSymbols)
    ensures Extends(s, DefineStep(s, name, data, symbols).0)
  {
  }

  /** Whatever is called afterwards, nothing an artifact holds is taken back. */
  lemma {:induction false} RunExtends(s: State, calls: seq<Call>)
    ensures Extends(s, Run(s, calls))
  {
    if calls != [] {
      var t := Run(s, calls[..|calls| - 1]);
      RunExtends(s, calls[..|calls| - 1]);
      StepExtends(t, calls[|calls| - 1]);
    }
  }

  // ----- order independence of declaration lists -----

  type DeclList = seq<(string, Decl)>

  /** `Artifact::declarations`: stop at the first error. */
  function DeclareFrom(start: State, list: DeclList): (State, Option<Error>) {
    if list == [] then (start, None)
    else
      var (s, e) := DeclareFrom(start, list[..|list| - 1]);
      if e.Some? then (s, e)
      else DeclareStep(s, list[|list| - 1].0, list[|list| - 1].1)
  }

  /** On a fresh artifact. */
  function DeclareAll(list: DeclList): (State, Option<Error>) {
    DeclareFrom(Initial, list)
  }

  /** `d` is declared for `name` and subsumes everything else declared for it. */
  ghost predicate Settles(list: DeclList, name: string, d: Decl) {
    (name, d) in list && forall e :: (name, e) in list ==> Refines(e, d)
  }

  ghost predicate Settled(list: DeclList, name: string) {
    exists d :: Settles(list, name, d)
  }

  ghost predicate DeclaredAs(s: State, name: string, decl: Decl) {
    exists n :: n in s.declarations && n < |s.strings| && s.strings[n] == name && s.declarations[n].decl == decl
  }

  ghost predicate ListsImport(s: State, name: string, kind: ImportKind) {
    exists i :: 0 <= i < |s.imports| && s.imports[i].0 < |s.strings| && s.strings[s.imports[i].0] == name &&
      s.imports[i].1 == kind
  }

  /** Anything with an upper bound settles on one of its own declarations. */
  lemma BoundedSettles(list: DeclList, name: string, d: Decl, u: Decl)
    requires (name, d) in list
    requires forall e :: (name, e) in list ==> Refines(e, u)
    ensures Settled(list, name)
  {
    if (name, u) in list {
      assert Settles(list, name, u);
    } else {
      assert forall e :: (name, e) in list ==> e == d;
      assert Settles(list, name, d);
    }
  }

  lemma SettlesSnoc(front: DeclList, name: string, e: Decl, c: Decl)
    requires Settles(front, name, c)
    ensures Absorb(c, e).Some? ==> Settles(front + [(name, e)], name, Absorb(c, e).value)
    ensures Absorb(c, e).None? ==> !Settled(front + [(name, e)], name)
  {
    hide Absorb, Refines;
    var list := front + [(name, e)];
    AbsorbIsJoin(c, e);
    if Absorb(c, e).Some? {
      var j := Absorb(c, e).value;
      JoinIsOneOf(c, e);
      assert (name, j) in list;
      forall x | (name, x) in list
        ensures Refines(x, j)
      {
        if x != e {
          RefinesTransitive(x, c, j);
        }
      }
    } else {
      forall u
        ensures !Settles(list, name, u)
      {
        assert (name, c) in list && (name, e) in list;
      }
    }
  }

  lemma SettlesOther(front: DeclList, last: (string, Decl), name: string, d: Decl)
    requires name != last.0
    ensures Settles(front + [last], name, d) <==> Settles(front, name, d)
  {
  }

  lemma UnsettledStays(front: DeclList, last: (string, Decl), name: string, d: Decl)
    requires (name, d) in front && !Settled(front, name)
    ensures !Settled(front + [last], name)
  {
    if Settled(front + [last], name) {
      var u :| Settles(front + [last], name, u);
      assert forall e :: (name, e) in front ==> (name, e) in front + [last];
      BoundedSettles(front, name, d, u);
    }
  }

  /** A successful run of declarations leaves each name at the declaration its list
      entries settle on; the run succeeds exactly when every name settles. */
  lemma {:induction false} DeclareAllCharacterized(list: DeclList)
    ensures DeclareAll(list).1.None? <==> forall i :: 0 <= i < |list| ==> Settled(list, list[i].0)
    ensures DeclareAll(list).1.None? ==> Inv(DeclareAll(list).0)
    ensures DeclareAll(list).1.None? ==>
              forall name, d :: DeclaredAs(DeclareAll(list).0, name, d) <==> Settles(list, name, d)
  {
    if list != [] {
      var front, last := list[..|list| - 1], list[|list| - 1];
      assert list == front + [last];
      DeclareAllCharacterized(front);
      var (s, e) := DeclareAll(front);
      if e.Some? {
        var i :| 0 <= i < |front| && !Settled(front, front[i].0);
        UnsettledStays(front, last, front[i].0, front[i].1);
        assert list[i] == front[i];
      } else {
        DeclareOneMore(front, last, s);
      }
    }
  }

  lemma ListedIsDeclared(list: DeclList, s: State, name: string, d: Decl)
    requires Inv(s) && (name, d) in list
    requires forall i :: 0 <= i < |list| ==> Settled(list, list[i].0)
    requires forall u :: Settles(list, name, u) ==> DeclaredAs(s, name, u)
    ensures name in s.strings && Intern(s.strings, name).1 in s.declarations
  {
  }

  lemma DeclareOneMore(front: DeclList, last: (string, Decl), s: State)
    requires Inv(s)
    requires forall i :: 0 <= i < |front| ==> Settled(front, front[i].0)
    requires forall name, d :: DeclaredAs(s, name, d) <==> Settles(front, name, d)
    ensures var (t, e) := DeclareStep(s, last.0, last.1);
            var list := front + [last];
            && (e.None? <==> forall i :: 0 <= i < |list| ==> Settled(list, list[i].0))
            && (e.None? ==> Inv(t))
            && (e.None? ==> forall name, d :: DeclaredAs(t, name, d) <==> Settles(list, name, d))
  {
    var list := front + [last];
    var (t, e) := DeclareStep(s, last.0, last.1);
    var n := Intern(s.strings, last.0).1;
    StepKeeps(s, Declare(last.0, last.1));
    if n in s.declarations {
      var c := s.declarations[n].decl;
      assert DeclaredAs(s, last.0, c);
      SettlesSnoc(front, last.0, last.1, c);
      if e.Some? {
        assert list[|front|] == last;
        assert !Settled(list, list[|front|].0);
      }
    } else {
      forall d
        ensures (last.0, d) !in front
      {
        if (last.0, d) in front {
          ListedIsDeclared(front, s, last.0, d);
          assert false;
        }
      }
      assert Settles(list, last.0, last.1);
    }
    if e.None? {
      assert Settled(list, last.0);
      forall i | 0 <= i < |list|
        ensures Settled(list, list[i].0)
      {
        if list[i].0 != last.0 {
          assert list[i] == front[i];
          var u :| Settles(front, front[i].0, u);
          SettlesOther(front, last, front[i].0, u);
        }
      }
      forall name, d
        ensures DeclaredAs(t, name, d) <==> Settles(list, name, d)
      {
        StepDeclaredAs(s, last, name, d);
        if name != last.0 {
          SettlesOther(front, last, name, d);
        } else {
          assert Settles(list, name, t.declarations[n].decl);
        }
      }
    }
  }

  /** A successful declare moves its own name and no other. */
  lemma StepDeclaredAs(s: State, last: (string, Decl), name: string, d: Decl)
    requires Inv(s) && DeclareStep(s, last.0, last.1).1.None?
    ensures var t := DeclareStep(s, last.0, last.1).0;
            var n := Intern(s.strings, last.0).1;
            if name == last.0 then DeclaredAs(t, name, d) <==> d == t.declarations[n].decl
            else DeclaredAs(t, name, d) <==> DeclaredAs(s, name, d)
  {
    hide LinksDeclared, DefinitionsExact, ImportsExact, SwapRemove, ImportIndex, Absorb, Intern, IndexOf;
    var t := DeclareStep(s, last.0, last.1).0;
    var n := Intern(s.strings, last.0).1;
    assert t.strings[n] == last.0 && Distinct(t.strings);
    if name != last.0 && DeclaredAs(s, name, d) {
      var m :| m in s.declarations && m < |s.strings| && s.strings[m] == name && s.declarations[m].decl == d;
      assert t.strings[m] == name;
    }
    if name != last.0 && DeclaredAs(t, name, d) {
      var m :| m in t.declarations && m < |t.strings| && t.strings[m] == name && t.declarations[m].decl == d;
      assert m != n && m in s.declarations;
    }
  }

  lemma ImportsFollowDeclarations(s: State, name: string, kind: ImportKind)
    requires Inv(s)
    ensures ListsImport(s, name, kind) <==> DeclaredAs(s, name, Import(kind))
  {
  }

  /** Two lists with the same entries, in any order and with any repetitions, agree
      on whether declaring them succeeds, on every final declaration and on every
      import. Permutations are the special case of equal multisets. */
  lemma OrderIndependent(a: DeclList, b: DeclList)
    requires forall p :: p in a <==> p in b
    ensures DeclareAll(a).1.None? <==> DeclareAll(b).1.None?
    ensures DeclareAll(a).1.None? ==>
              forall name, d :: DeclaredAs(DeclareAll(a).0, name, d) <==> DeclaredAs(DeclareAll(b).0, name, d)
    ensures DeclareAll(a).1.None? ==>
              forall name, k :: ListsImport(DeclareAll(a).0, name, k) <==> ListsImport(DeclareAll(b).0, name, k)
  {
    DeclareAllCharacterized(a);
    DeclareAllCharacterized(b);
    assert forall name, d :: Settles(a, name, d) <==> Settles(b, name, d);
    forall name
      ensures Settled(a, name) <==> Settled(b, name)
    {
      if d :| Settles(a, name, d) {
        assert Settles(b, name, d);
      }
      if d :| Settles(b, name, d) {
        assert Settles(a, name, d);
      }
    }
    SameSuccess(a, b);
    SameSuccess(b, a);
    if DeclareAll(a).1.None? {
      forall name, k
        ensures ListsImport(DeclareAll(a).0, name, k) <==> ListsImport(DeclareAll(b).0, name, k)
      {
        ImportsFollowDeclarations(DeclareAll(a).0, name, k);
        ImportsFollowDeclarations(DeclareAll(b).0, name, k);
      }
    }
  }

  lemma SameSuccess(a: DeclList, b: DeclList)
    requires forall p :: p in a <==> p in b
    requires forall name :: Settled(a, name) <==> Settled(b, name)
    ensures (forall i :: 0 <= i < |a| ==> Settled(a, a[i].0)) ==> (forall i :: 0 <= i < |b| ==> Settled(b, b[i].0))
  {
    if forall i :: 0 <= i < |a| ==> Settled(a, a[i].0) {
      forall i | 0 <= i < |b|
        ensures Settled(b, b[i].0)
      {
        assert b[i] in a;
        var j :| 0 <= j < |a| && a[j] == b[i];
      }
    }
  }

  // ----- emission -----

  function UndefinedSymbols(s: State): set<Id> {
    set n | n in s.declarations && !s.declarations[n].defined && !s.declarations[n].decl.Import?
  }

  /** `order` is an order a sorted set may iterate `defs` in: the derived comparison
      looks at the declaration's variant first. */
  ghost predicate Enumerates(order: seq<InternalDefinition>, defs: set<InternalDefinition>) {
    && Distinct(order)
    && (forall d :: d in defs <==> d in order)
    && (forall i, j :: 0 <= i < j < |order| ==> order[i].decl.Rank() <= order[j].decl.Rank())
  }

  ghost predicate Resolvable(s: State) {
    && (forall d :: d in s.Definitions() ==> d.name < |s.strings|)
    && (forall i :: 0 <= i < |s.imports| ==> s.imports[i].0 < |s.strings|)
    && (forall i :: 0 <= i < |s.links| ==>
          && s.links[i].from in s.declarations && s.links[i].from < |s.strings|
          && s.links[i].to in s.declarations && s.links[i].to < |s.strings|)
  }

  function Resolve(strings: seq<string>, d: InternalDefinition): Definition
    requires d.name < |strings|
  {
    Definition(strings[d.name], d.data, d.symbols, d.decl)
  }

  function ResolveLink(s: State, l: Relocation): LinkAndDecl
    requires l.from in s.declarations && l.from < |s.strings|
    requires l.to in s.declarations && l.to < |s.strings|
  {
    LinkAndDecl(
      Binding(s.strings[l.from], s.declarations[l.from].decl),
      Binding(s.strings[l.to], s.declarations[l.to].decl), l.at, l.reloc)
  }

  /** What `definitions`, `imports` and `links` yield, given the two set orders. */
  function View(s: State, name: string, locals: seq<InternalDefinition>, nonlocals: seq<InternalDefinition>): Input
    requires Resolvable(s)
    requires Enumerates(locals, s.locals) && Enumerates(nonlocals, s.nonlocals)
  {
    var order := locals + nonlocals;
    assert forall d :: d in order ==> d in s.Definitions();
    Input(name,
          seq(|order|, i requires 0 <= i < |order| => assert order[i] in order; Resolve(s.strings, order[i])),
          seq(|s.imports|, i requires 0 <= i < |s.imports| => (s.strings[s.imports[i].0], s.imports[i].1)),
          seq(|s.links|, i requires 0 <= i < |s.links| => ResolveLink(s, s.links[i])))
  }

  ghost predicate DefinedOnce(s: State, n: Id, decl: DefinedDecl) {
    && (exists d :: Carries(s, n, d))
    && (forall d :: Carries(s, n, d) ==> d.decl == decl)
    && (forall d, e :: Carries(s, n, d) && Carries(s, n, e) ==> d == e)
  }

  /** After any run that leaves nothing undefined, every non-import declaration has
      exactly one definition, carrying its current declaration, and the view handed
      to a backend is coherent: all its lookups succeed. */
  lemma EmissionIsSafe(calls: seq<Call>, name: string, locals: seq<InternalDefinition>,
                       nonlocals: seq<InternalDefinition>)
    requires var s := Run(Initial, calls);
             UndefinedSymbols(s) == {} && Enumerates(locals, s.locals) && Enumerates(nonlocals, s.nonlocals)
    ensures var s := Run(Initial, calls);
            && (forall n :: n in s.declarations && s.declarations[n].decl.Defined? ==>
                  DefinedOnce(s, n, s.declarations[n].decl.def))
            && Resolvable(s)
            && Coherent(View(s, name, locals, nonlocals))
  {
    hide Inv, Run, Coherent, DefinedOnce, View, Enumerates, Resolvable;
    var s := Run(Initial, calls);
    InitialInv();
    RunKeeps(Initial, calls);
    ViewIsCoherent(s, name, locals, nonlocals);
    forall n | n in s.declarations && s.declarations[n].decl.Defined?
      ensures DefinedOnce(s, n, s.declarations[n].decl.def)
    {
      NothingUndefined(s, n);
    }
  }

  lemma InitialInv()
    ensures Inv(Initial)
  {
  }

  lemma NothingUndefined(s: State, n: Id)
    requires Inv(s) && UndefinedSymbols(s) == {} && n in s.declarations && s.declarations[n].decl.Defined?
    ensures DefinedOnce(s, n, s.declarations[n].decl.def)
  {
    assert n !in UndefinedSymbols(s);
  }

  lemma DefinitionIdsDiffer(s: State, locals: seq<InternalDefinition>, nonlocals: seq<InternalDefinition>, i: nat,
                            j: nat)
    requires DefinitionsExact(s) && Enumerates(locals, s.locals) && Enumerates(nonlocals, s.nonlocals)
    requires i < j < |locals + nonlocals|
    ensures (locals + nonlocals)[i].name != (locals + nonlocals)[j].name
  {
    var order := locals + nonlocals;
    assert order[i] != order[j] by {
      if i < |locals| <= j {
        assert order[i] in s.locals && order[j] in s.nonlocals;
      }
    }
    assert order[i] in s.Definitions() && order[j] in s.Definitions();
  }

  lemma InvResolves(s: State)
    requires Inv(s)
    ensures Resolvable(s)
  {
    hide Distinct;
  }

  /** The ids of all definitions, then of all imports. */
  ghost function Ids(order: seq<InternalDefinition>, imports: seq<(Id, ImportKind)>): (r: seq<Id>)
    ensures |r| == |order| + |imports|
    ensures forall i :: 0 <= i < |order| ==> r[i] == order[i].name
    ensures forall i :: |order| <= i < |r| ==> r[i] == imports[i - |order|].0
  {
    seq(|order|, i requires 0 <= i < |order| => order[i].name)
    + seq(|imports|, i requires 0 <= i < |imports| => imports[i].0)
  }

  lemma IdsDistinct(s: State, locals: seq<InternalDefinition>, nonlocals: seq<InternalDefinition>)
    requires Inv(s) && Enumerates(locals, s.locals) && Enumerates(nonlocals, s.nonlocals)
    ensures Distinct(Ids(locals + nonlocals, s.imports))
  {
    hide LinksDeclared, Ids;
    var order := locals + nonlocals;
    var ids := Ids(order, s.imports);
    forall i, j | 0 <= i < j < |ids|
      ensures ids[i] != ids[j]
    {
      if j < |order| {
        DefinitionIdsDiffer(s, locals, nonlocals, i, j);
      } else if i < |order| {
        assert order[i] in order && order[i] in s.Definitions();
      } else {
        assert s.imports[i - |order|] != s.imports[j - |order|];
      }
    }
  }

  lemma ViewNamesDistinct(s: State, name: string, locals: seq<InternalDefinition>, nonlocals: seq<InternalDefinition>)
    requires Inv(s)
    requires Enumerates(locals, s.locals) && Enumerates(nonlocals, s.nonlocals)
    ensures Resolvable(s)
    ensures var v := View(s, name, locals, nonlocals);
            Distinct(Names(v.definitions) + ImportNames(v.imports))
  {
    hide Enumerates, ImportsExact, LinksDeclared, DefinitionsExact, Ids;
    InvResolves(s);
    IdsDistinct(s, locals, nonlocals);
    var v := View(s, name, locals, nonlocals);
    var ids, names := Ids(locals + nonlocals, s.imports), Names(v.definitions) + ImportNames(v.imports);
    NamesOfIds(s, name, locals, nonlocals);
    forall i, j | 0 <= i < j < |names|
      ensures names[i] != names[j]
    {
      assert ids[i] != ids[j] && s.strings[ids[i]] != s.strings[ids[j]];
    }
  }

  lemma NamesOfIds(s: State, name: string, locals: seq<InternalDefinition>, nonlocals: seq<InternalDefinition>)
    requires Resolvable(s) && Enumerates(locals, s.locals) && Enumerates(nonlocals, s.nonlocals)
    ensures var v, ids := View(s, name, locals, nonlocals), Ids(locals + nonlocals, s.imports);
            var names := Names(v.definitions) + ImportNames(v.imports);
            |names| == |ids| && forall i :: 0 <= i < |ids| ==> ids[i] < |s.strings| && names[i] == s.strings[ids[i]]
  {
    hide Distinct, Ids;
    var order := locals + nonlocals;
    assert forall d :: d in order ==> d in s.Definitions();
    assert forall i :: 0 <= i < |order| ==> order[i] in order;
  }

  lemma ViewIsCoherent(s: State, name: string, locals: seq<InternalDefinition>, nonlocals: seq<InternalDefinition>)
    requires Inv(s)
    requires UndefinedSymbols(s) == {}
    requires Enumerates(locals, s.locals) && Enumerates(nonlocals, s.nonlocals)
    ensures Resolvable(s)
    ensures Coherent(View(s, name, locals, nonlocals))
  {
    var order := locals + nonlocals;
    var v := View(s, name, locals, nonlocals);
    ViewNamesDistinct(s, name, locals, nonlocals);
    forall i | 0 <= i < |order|
      ensures order[i] in s.Definitions()
      ensures order[i].decl.IsGlobal() <==> |locals| <= i
    {
      assert if i < |locals| then order[i] in locals else order[i] in nonlocals;
    }
    forall i | 0 <= i < |s.links|
      ensures LinkResolves(v, v.links[i])
    {
      BindingFound(s, v, order, s.links[i].from);
      BindingFound(s, v, order, s.links[i].to);
    }
  }

  lemma BindingFound(s: State, v: Input, order: seq<InternalDefinition>, n: Id)
    requires Inv(s) && Resolvable(s) && UndefinedSymbols(s) == {} && n in s.declarations
    requires |v.definitions| == |order|
    requires forall d :: d in s.Definitions() <==> d in order
    requires forall i :: 0 <= i < |order| ==>
             order[i].name < |s.strings| && v.definitions[i] == Resolve(s.strings, order[i])
    requires |v.imports| == |s.imports|
    requires forall i :: 0 <= i < |s.imports| ==> v.imports[i] == (s.strings[s.imports[i].0], s.imports[i].1)
    ensures var b := Binding(s.strings[n], s.declarations[n].decl);
            if b.decl.Import? then ImportedAs(v.imports, b) else DefinedAs(v.definitions, b)
  {
    if s.declarations[n].decl.Import? {
      var i :| 0 <= i < |s.imports| && s.imports[i] == (n, s.declarations[n].decl.kind);
      assert v.imports[i].0 == s.strings[n];
    } else {
      assert n !in UndefinedSymbols(s);
      var d :| Carries(s, n, d);
      var i :| 0 <= i < |order| && order[i] == d;
      assert v.definitions[i].name == s.strings[n];
    }
  }
}
