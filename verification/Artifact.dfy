/** The artifact object: declarations, definitions and links, and their emission. */
module Artifact {
  import opened Collections
  import opened Decls
  import opened ArtifactModel
  import opened ArtifactCalls
  import ElfFormat
  import ElfBuild
  import ElfEmit
  import ElfProperties
  import MachFormat
  import MachLayout
  import MachRelocs
  import MachImage
  import MachEmit
  import MachProperties
  import MachPlacement
  import MachMeaning

  datatype Format = Elf(cls: ElfFormat.Class) | MachO(container: MachFormat.Container) | OtherFormat

  datatype Emission =
    | ElfFile(elf: ElfFormat.Image)
    | MachFile(mach: MachFormat.Image)
    | UndefinedSymbolsError(names: seq<string>)
    | UnsupportedBinaryFormat
    | Panicked

  ghost predicate IsView(s: State, name: string, v: Input) {
    && Resolvable(s)
    && exists locals, nonlocals ::
         Enumerates(locals, s.locals) && Enumerates(nonlocals, s.nonlocals) && v == View(s, name, locals, nonlocals)
  }

  /** `names` are the names of the given ids. */
  ghost predicate Lists(strings: seq<string>, names: seq<string>, ids: set<Id>) {
    forall s :: s in names <==> exists n :: n in ids && n < |strings| && strings[n] == s
  }

  lemma ListsNothing(strings: seq<string>)
    ensures Lists(strings, [], {})
  {
  }

  lemma ListsOneMore(strings: seq<string>, names: seq<string>, ids: set<Id>, n: Id)
    requires Lists(strings, names, ids) && n < |strings|
    ensures Lists(strings, names + [strings[n]], ids + {n})
  {
    assert n in ids + {n};
  }

  lemma {:induction false} LeastRank(defs: set<InternalDefinition>) returns (d: InternalDefinition)
    requires defs != {}
    ensures d in defs && forall e :: e in defs ==> d.decl.Rank() <= e.decl.Rank()
    decreases |defs|
  {
    d :| d in defs;
    if defs != {d} {
      var rest := defs - {d};
      var e := LeastRank(rest);
      if e.decl.Rank() < d.decl.Rank() {
        d := e;
      }
    }
  }

  /** Iterating a sorted set: some order that agrees with the variants' order. */
  method Iterate(defs: set<InternalDefinition>) returns (order: seq<InternalDefinition>)
    ensures Enumerates(order, defs)
  {
    order := [];
    var rest := defs;
    while rest != {}
      invariant rest <= defs
      invariant Distinct(order)
      invariant forall d :: d in order <==> d in defs && d !in rest
      invariant forall i, j :: 0 <= i < j < |order| ==> order[i].decl.Rank() <= order[j].decl.Rank()
      invariant forall i, d :: 0 <= i < |order| && d in rest ==> order[i].decl.Rank() <= d.decl.Rank()
      decreases |rest|
    {
      ghost var least := LeastRank(rest);
      var d :| d in rest && forall e :: e in rest ==> d.decl.Rank() <= e.decl.Rank();
      order := order + [d];
      rest := rest - {d};
    }
  }

  lemma RunSnoc(calls: seq<Call>, c: Call)
    ensures Run(Initial, calls + [c]) == Step(Run(Initial, calls), c).0
  {
    assert (calls + [c])[..|calls|] == calls;
  }

  function DeclareCalls(list: DeclList): seq<Call> {
    seq(|list|, k requires 0 <= k < |list| => Call.Declare(list[k].0, list[k].1))
  }

  class Artifact {
    const name: string
    var imports: seq<(Id, ImportKind)>
    var links: seq<Relocation>
    var declarations: map<Id, InternalDecl>
    var localDefinitions: set<InternalDefinition>
    var nonlocalDefinitions: set<InternalDefinition>
    var strings: seq<string>

    /** The calls made so far. */
    ghost var calls: seq<Call>

    function Fields(): State
      reads this
    {
      State(strings, imports, links, declarations, localDefinitions, nonlocalDefinitions)
    }

    ghost predicate Valid()
      reads this
    {
      Fields() == Run(Initial, calls) && Inv(Fields())
    }

    constructor (name: string)
      ensures Valid() && Fields() == Initial && this.name == name && calls == []
    {
      this.name := name;
      imports, links, declarations := [], [], map[];
      localDefinitions, nonlocalDefinitions, strings := {}, {}, [];
      calls := [];
    }

    /** The last position of a name among the imports. */
    method FindImport(n: Id) returns (index: Option<nat>)
      ensures index == ImportIndex(imports, n)
    {
      index := None;
      for i := 0 to |imports|
        invariant index == ImportIndex(imports[..i], n)
      {
        assert imports[..i + 1][..i] == imports[..i];
        if imports[i].0 == n {
          index := Some(i);
        }
      }
      assert imports[..|imports|] == imports;
    }

    method Declare(name: string, decl: Decl) returns (error: Option<Error>)
      requires Valid()
      modifies this
      ensures Valid()
      ensures (Fields(), error) == DeclareStep(old(Fields()), name, decl)
      ensures calls == old(calls) + [Call.Declare(name, decl)]
      ensures error == ErrorOf(old(calls), Call.Declare(name, decl))
    {
      hide Inv;
      StepKeeps(Fields(), Call.Declare(name, decl));
      RunSnoc(calls, Call.Declare(name, decl));
      calls := calls + [Call.Declare(name, decl)];
      ghost var before := Fields();
      var interned := Intern(strings, name);
      var n := interned.1;
      strings := interned.0;
      var entry := if n in declarations then declarations[n] else InternalDecl(decl, false);
      var previousWasImport := entry.decl.Import?;
      var merged := Absorb(entry.decl, decl);
      if merged.None? {
        return Some(IncompatibleDeclaration(entry.decl, decl));
      }
      declarations := declarations[n := entry.(decl := merged.value)];
      match merged.value {
        case Import(kind) =>
          var present := FindImport(n);
          if present.None? {
            imports := imports + [(n, kind)];
          }
        case Defined(_) =>
          if previousWasImport {
            var index := FindImport(n);
            UpgradedIsListed(before, name, decl);
            imports := SwapRemove(imports, index.value);
          }
      }
      error := None;
    }

    /** Declares a list, stopping at the first error. */
    method Declarations(list: seq<(string, Decl)>) returns (error: Option<Error>)
      requires Valid()
      modifies this
      ensures Valid()
      ensures (Fields(), error) == DeclareFrom(old(Fields()), list)
      ensures exists k ::
                0 <= k <= |list| && calls == old(calls) + DeclareCalls(list[..k]) && (error.None? ==> k == |list|)
    {
      hide Inv, DeclareStep;
      for k := 0 to |list|
        invariant Valid()
        invariant (Fields(), None) == DeclareFrom(old(Fields()), list[..k])
        invariant calls == old(calls) + DeclareCalls(list[..k])
      {
        assert list[..k + 1][..k] == list[..k];
        assert DeclareCalls(list[..k + 1]) == DeclareCalls(list[..k]) + [Call.Declare(list[k].0, list[k].1)];
        error := Declare(list[k].0, list[k].1);
        if error.Some? {
          StopsHere(old(Fields()), list, k);
          return;
        }
      }
      assert list[..|list|] == list;
      error := None;
    }

    method Define(name: string, data: Data, symbols: CustomSymbols) returns (error: Option<Error>)
      requires Valid()
      modifies this
      ensures Valid()
      ensures (Fields(), error) == DefineStep(old(Fields()), name, data, symbols)
      ensures calls == old(calls) + [Call.Define(name, data, symbols)]
      ensures error == ErrorOf(old(calls), Call.Define(name, data, symbols))
    {
      hide Inv;
      StepKeeps(Fields(), Call.Define(name, data, symbols));
      RunSnoc(calls, Call.Define(name, data, symbols));
      calls := calls + [Call.Define(name, data, symbols)];
      var interned := Intern(strings, name);
      var n := interned.1;
      strings := interned.0;
      if n !in declarations {
        return Some(Undeclared(name));
      }
      if declarations[n].defined {
        return Some(DuplicateDefinition(name));
      }
      match declarations[n].decl {
        case Import(_) =>
          error := Some(ImportDefined(name));
        case Defined(decl) =>
          if !decl.SectionDecl? && symbols != [] {
            return Some(NonSectionCustomSymbols(decl, symbols));
          }
          if !decl.DataDecl? && data.ZeroInit? {
            return Some(InvalidZeroInit(decl));
          }
          if decl.IsGlobal() {
            nonlocalDefinitions := nonlocalDefinitions + {InternalDefinition(decl, n, symbols, data)};
          } else {
            localDefinitions := localDefinitions + {InternalDefinition(decl, n, symbols, data)};
          }
          declarations := declarations[n := declarations[n].(defined := true)];
          error := None;
      }
    }

    method LinkWith(from: string, to: string, at: nat, reloc: Reloc) returns (error: Option<Error>)
      requires Valid()
      modifies this
      ensures Valid()
      ensures (Fields(), error) == LinkStep(old(Fields()), from, to, at, reloc)
      ensures calls == old(calls) + [Call.LinkWith(from, to, at, reloc)]
      ensures error == ErrorOf(old(calls), Call.LinkWith(from, to, at, reloc))
    {
      hide Inv;
      StepKeeps(Fields(), Call.LinkWith(from, to, at, reloc));
      RunSnoc(calls, Call.LinkWith(from, to, at, reloc));
      calls := calls + [Call.LinkWith(from, to, at, reloc)];
      var f := Intern(strings, from);
      strings := f.0;
      var t := Intern(strings, to);
      strings := t.0;
      if f.1 !in declarations {
        return Some(Undeclared(from));
      }
      if t.1 !in declarations {
        return Some(Undeclared(to));
      }
      if declarations[f.1].decl.Import? {
        return Some(RelocateImport(from));
      }
      links := links + [Relocation(f.1, t.1, at, reloc)];
      error := None;
    }

    /** The names of non-import declarations without a definition. */
    method UndefinedNames() returns (names: seq<string>)
      requires Valid()
      ensures names == [] <==> UndefinedSymbols(Fields()) == {}
      ensures Lists(strings, names, UndefinedSymbols(Fields()))
    {
      hide ImportsExact, LinksDeclared, DefinitionsExact, Lists;
      names := [];
      ListsNothing(strings);
      var rest := declarations.Keys;
      ghost var done := {};
      while rest != {}
        invariant rest <= declarations.Keys && done == declarations.Keys - rest
        invariant names == [] <==> UndefinedSymbols(Fields()) * done == {}
        invariant Lists(strings, names, UndefinedSymbols(Fields()) * done)
        decreases |rest|
      {
        var n :| n in rest;
        rest := rest - {n};
        ghost var was := UndefinedSymbols(Fields()) * done;
        done := done + {n};
        if !declarations[n].defined && !declarations[n].decl.Import? {
          assert UndefinedSymbols(Fields()) * done == was + {n};
          ListsOneMore(strings, names, was, n);
          names := names + [strings[n]];
        } else {
          assert UndefinedSymbols(Fields()) * done == was;
        }
      }
      assert UndefinedSymbols(Fields()) * done == UndefinedSymbols(Fields());
    }

    /** The undefined names are those that await a definition. */
    lemma UndefinedNamed(names: seq<string>)
      requires Valid() && Lists(strings, names, UndefinedSymbols(Fields()))
      ensures forall n :: n in names <==> exists decl :: Awaits(calls, n, decl)
      ensures names != [] <==> exists n, decl :: Awaits(calls, n, decl)
    {
      hide Inv, Awaits, UndefinedSymbols, Run;
      assert |names| == 0 || names[0] in names;
      forall n
        ensures n in names <==> exists decl :: Awaits(calls, n, decl)
      {
        UndefinedIff(calls, n);
      }
      if n, decl :| Awaits(calls, n, decl) {
        assert n in names;
      }
    }

    /** `emit_as`: refuse an artifact with something undefined; otherwise hand a
        coherent view of it to the backend. */
    method EmitAs(format: Format) returns (r: Emission, ghost v: Input)
      requires Valid()
      ensures r.UndefinedSymbolsError? <==> exists n, decl :: Awaits(calls, n, decl)
      ensures r.UndefinedSymbolsError? ==> forall n :: n in r.names <==> exists decl :: Awaits(calls, n, decl)
      ensures !r.UndefinedSymbolsError? ==>
              && v.name == name && Reflects(calls, v) && IsView(Fields(), name, v)
              && Coherent(v) && EmittedAs(format, v, r)
    {
      hide Inv, Coherent, View, Run, Awaits, Reflects, ElfEmit.Faithful, ElfBuild.SectionNames,
        MachProperties.Faithful, ElfEmit.Emits, ElfEmit.CountMatches, ElfFormat.Parse, MachEmit.WellNamed,
        MachEmit.FinalOf, MachImage.Whole, MachRelocs.NoPanics, MachLayout.ChunksOf, MachEmit.BuiltKeys,
        MachEmit.BuiltEntries, MachEmit.SectNamesFit, MachProperties.FaithfulAs, MachPlacement.NoneRefused, Distinct,
        UndefinedSymbols, MachFormat.Parse;
      v := Input(name, [], [], []);
      var undefined := UndefinedNames();
      UndefinedNamed(undefined);
      if undefined != [] {
        return UndefinedSymbolsError(undefined), v;
      }
      var locals := Iterate(localDefinitions);
      var nonlocals := Iterate(nonlocalDefinitions);
      ViewIsCoherent(Fields(), name, locals, nonlocals);
      ViewReflects(calls, name, locals, nonlocals);
      var view := View(Fields(), name, locals, nonlocals);
      v := view;
      match format {
        case Elf(cls) =>
          var file := ElfEmit.ToBytes(view, cls);
          if file.Some? && ElfFormat.Parse(cls, file.value).Some? {
            ElfSays(cls, view, file.value);
          }
          r := if file.Some? then ElfFile(file.value) else Panicked;
        case MachO(c) =>
          var file := MachEmit.ToBytes(view, c);
          MachPlacement.NoPanicsIff(view);
          if file.Some? {
            MachProperties.FaithfulIff(view, c, file.value);
            MachSays(c, view, file.value);
          }
          r := if file.Some? then MachFile(file.value) else Panicked;
        case OtherFormat =>
          r := UnsupportedBinaryFormat;
      }
    }
  }

  lemma ElfSays(cls: ElfFormat.Class, v: Input, file: ElfFormat.Image)
    requires Coherent(v) && ElfEmit.Emits(cls, v) && ElfEmit.Faithful(cls, v, file)
    ensures ElfProperties.FileSays(cls, v, ElfFormat.Parse(cls, file).value, file)
  {
    hide Coherent, ElfEmit.FaithfulAs, ElfProperties.FileSays, ElfFormat.Parse;
    ElfProperties.FaithfulSays(cls, v, ElfFormat.Parse(cls, file).value, file);
  }

  lemma MachSays(c: MachFormat.Container, v: Input, file: MachFormat.Image)
    requires Coherent(v) && MachPlacement.NoneRefused(v.links)
    requires MachProperties.Faithful(c, v, file) <==> MachEmit.WellNamed(v)
    ensures MachEmit.WellNamed(v) ==>
            && MachFormat.Parse(c, file).Some?
            && MachMeaning.FileSays(v, MachFormat.Parse(c, file).value, file)
  {
    hide Coherent, MachProperties.FaithfulAs, MachEmit.WellNamed, MachMeaning.FileSays, MachFormat.Parse,
      MachPlacement.Refused;
    if MachEmit.WellNamed(v) {
      MachMeaning.FaithfulSays(v, MachFormat.Parse(c, file).value, file);
    }
  }

  /** What emission promises for a coherent view: success exactly under the stated
      conditions, and a file that reads back as the artifact. */
  ghost predicate EmittedAs(format: Format, v: Input, r: Emission) {
    match format
    case Elf(cls) =>
      && (r.ElfFile? <==> ElfEmit.Emits(cls, v)) && (r.ElfFile? || r.Panicked?)
      && (r.ElfFile? ==> (ElfEmit.Faithful(cls, v, r.elf) <==> ElfEmit.WellNamed(v)))
      && (r.ElfFile? ==> (ElfFormat.Parse(cls, r.elf).Some? <==> ElfEmit.WellNamed(v)))
      && (r.ElfFile? && ElfEmit.WellNamed(v) ==>
            ElfProperties.FileSays(cls, v, ElfFormat.Parse(cls, r.elf).value, r.elf))
    case MachO(c) =>
      && (r.MachFile? <==> MachEmit.SectNamesFit(MachLayout.ChunksOf(v)) && MachPlacement.NoneRefused(v.links))
      && (r.MachFile? || r.Panicked?)
      && (r.MachFile? ==> (MachProperties.Faithful(c, v, r.mach) <==> MachEmit.WellNamed(v)))
      && (r.MachFile? && MachEmit.WellNamed(v) ==>
            && MachFormat.Parse(c, r.mach).Some?
            && MachMeaning.FileSays(v, MachFormat.Parse(c, r.mach).value, r.mach))
    case OtherFormat => r.UnsupportedBinaryFormat?
  }

  /** A declaration upgraded from an import was in the list, so it can be removed. */
  lemma UpgradedIsListed(s: State, name: string, decl: Decl)
    requires Inv(s)
    requires var n := Intern(s.strings, name).1;
             var entry := if n in s.declarations then s.declarations[n] else InternalDecl(decl, false);
             entry.decl.Import? && Absorb(entry.decl, decl).Some? && Absorb(entry.decl, decl).value.Defined?
    ensures ImportIndex(s.imports, Intern(s.strings, name).1).Some?
  {
  }

  lemma {:induction false} StopsHere(start: State, list: DeclList, k: nat)
    requires k < |list| && DeclareFrom(start, list[..k + 1]).1.Some?
    ensures DeclareFrom(start, list) == DeclareFrom(start, list[..k + 1])
    decreases |list|
  {
    if k + 1 < |list| {
      assert list[..|list| - 1][..k + 1] == list[..k + 1];
      StopsHere(start, list[..|list| - 1], k);
    } else {
      assert list[..k + 1] == list;
    }
  }
}
