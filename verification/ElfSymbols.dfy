/** Which symbol survives under a name, and so where the ends of a link are looked up. */
module ElfSymbols {
  import opened Collections
  import opened Decls
  import opened ElfFormat
  import opened ElfBuild
  import opened ElfClash
  import opened ElfEmit

  ghost predicate IsCustom(d: Definition, m: nat, name: string) {
    d.decl.SectionDecl? && m < |d.symbols| && d.symbols[m].0 == name
  }

  /** Some custom section symbol is called `name`. */
  ghost predicate CustomNamed(defs: seq<Definition>, name: string) {
    exists k: nat, m: nat :: k < |defs| && IsCustom(defs[k], m, name)
  }

  /** The definition keeps the symbol of its name. Custom sections come after local
      functions and data, so their symbols replace those; global ones come last. */
  ghost predicate OwnSymbol(i: Input, d: Definition) {
    d.decl.SectionDecl? || d.decl.IsGlobal() || !CustomNamed(i.definitions, d.name)
  }

  // ----- what a symbol says -----

  /** The symbol of a function or data object: bound as its scope asks, typed as what it
      is, at the start of its section, as long as its bytes. */
  ghost predicate StandsFor(s: Symbol, d: Definition) {
    && !d.decl.SectionDecl?
    && (s.bind == StbLocal <==> d.decl.scope == Local)
    && (s.bind == StbGlobal <==> d.decl.scope == Global)
    && (s.bind == StbWeak <==> d.decl.scope == Weak)
    && (s.typ == Func <==> d.decl.FunctionDecl?)
    && (s.typ == Object <==> d.decl.DataDecl?)
    && s.value == 0
    && s.size == (if d.data.Blob? then |d.data.bytes| else 0)
  }

  /** The symbol of an import: global, without a type, defined nowhere. */
  ghost predicate StandsForImport(s: Symbol) {
    s.bind == StbGlobal && s.typ == NoType && s.value == 0 && s.size == 0 && s.shndx == 0
  }

  /** A custom symbol: a local, untyped name of a place in its section. */
  ghost predicate StandsForPlace(s: Symbol, place: nat) {
    s.bind == StbLocal && s.typ == NoType && s.value == place && s.size == 0
  }

  // ----- the symbol made last -----

  lemma MakesCustom(d: Definition, name: string)
    requires d.decl.SectionDecl?
    ensures Makes(d, name) <==> exists m: nat :: IsCustom(d, m, name)
  {
    if Makes(d, name) {
      var m :| 0 <= m < |d.symbols| && d.symbols[m].0 == name;
      assert IsCustom(d, m, name);
    }
  }

  lemma SameName(i: Input, j: nat, k: nat)
    requires Coherent(i) && j < |i.definitions| && k < |i.definitions| && i.definitions[j].name == i.definitions[k].name
    ensures j == k
  {
    hide LinkResolves, EmitOrder, ContentsAllowed;
    DistinctPrefix(Names(i.definitions), ImportNames(i.imports));
    assert Names(i.definitions)[j] == Names(i.definitions)[k];
  }

  lemma Ordered(i: Input, j: nat, k: nat)
    requires Coherent(i) && j < k < |i.definitions|
    ensures EmitOrder(i.definitions[j].decl) <= EmitOrder(i.definitions[k].decl)
  {
    hide LinkResolves, ContentsAllowed, Distinct;
  }

  /** A function or data object makes the last symbol of its name exactly if it keeps it. */
  lemma LastMakerIff(i: Input, n: nat)
    requires Coherent(i) && n < |i.definitions| && !i.definitions[n].decl.SectionDecl?
    ensures LastMaker(i.definitions, n, i.definitions[n].name) <==> OwnSymbol(i, i.definitions[n])
  {
    hide Coherent;
    var defs, name := i.definitions, i.definitions[n].name;
    if LastMaker(defs, n, name) && CustomNamed(defs, name) {
      var k: nat, m: nat :| k < |defs| && IsCustom(defs[k], m, name);
      MakesCustom(defs[k], name);
      Ordered(i, k, n);
    }
    if OwnSymbol(i, defs[n]) {
      forall k | n < k < |defs|
        ensures !Makes(defs[k], name)
      {
        Ordered(i, n, k);
        if defs[k].decl.SectionDecl? {
          MakesCustom(defs[k], name);
        } else if defs[k].name == name {
          SameName(i, n, k);
        }
      }
    }
  }

  lemma {:induction false} LastDefined(defs: seq<Definition>, k: nat, name: string)
    requires LastMaker(defs, k, name)
    ensures LastSymbol(DefinedSymbols(defs), name) == LastSymbol(SymbolsFor(defs[k], FIRST_SECTION + k), name)
    ensures LastSymbol(DefinedSymbols(defs), name).Some?
    ensures LastSymbol(DefinedSymbols(defs), name).value.shndx == FIRST_SECTION + k
  {
    hide SymbolsFor, Makes, LastSymbol;
    var n := |defs| - 1;
    LastConcat(DefinedSymbols(defs[..n]), SymbolsFor(defs[n], FIRST_SECTION + n), name);
    MadeSymbol(defs[n], FIRST_SECTION + n, name);
    if k < n {
      LastDefined(defs[..n], k, name);
    }
  }

  lemma {:induction false} NobodyMakes(defs: seq<Definition>, name: string)
    requires forall k :: 0 <= k < |defs| ==> !Makes(defs[k], name)
    ensures LastSymbol(DefinedSymbols(defs), name).None?
  {
    hide SymbolsFor, Makes, LastSymbol;
    if defs == [] {
      LastAmong(DefinedSymbols(defs), name);
    } else {
      var n := |defs| - 1;
      LastConcat(DefinedSymbols(defs[..n]), SymbolsFor(defs[n], FIRST_SECTION + n), name);
      MadeSymbol(defs[n], FIRST_SECTION + n, name);
      NobodyMakes(defs[..n], name);
    }
  }

  /** An import always keeps its symbol: imports come last. */
  lemma UnderImport(i: Input, m: nat)
    requires m < |i.imports|
    ensures SymbolUnder(AllSymbols(i), i.imports[m].0) == SymbolForImport(i.imports[m].0).symbol
  {
    hide DefinedSymbols, LastSymbol;
    var name, imported := i.imports[m].0, ImportedSymbols(i.imports);
    LastConcat(DefinedSymbols(i.definitions), imported, name);
    LastAmong(imported, name);
    assert imported[m].name == name;
  }

  /** Under a name that is not an import's, the symbol is made by its last maker. */
  lemma UnderMaker(i: Input, k: nat, name: string)
    requires LastMaker(i.definitions, k, name) && name !in ImportNames(i.imports)
    ensures LastSymbol(SymbolsFor(i.definitions[k], FIRST_SECTION + k), name).Some?
    ensures SymbolUnder(AllSymbols(i), name) == LastSymbol(SymbolsFor(i.definitions[k], FIRST_SECTION + k), name).value
    ensures SymbolUnder(AllSymbols(i), name).shndx == FIRST_SECTION + k
  {
    hide DefinedSymbols, LastSymbol, SymbolsFor, Makes;
    LastConcat(DefinedSymbols(i.definitions), ImportedSymbols(i.imports), name);
    LastDefined(i.definitions, k, name);
    NoImport(i, name);
  }

  lemma NoImport(i: Input, name: string)
    requires name !in ImportNames(i.imports)
    ensures LastSymbol(ImportedSymbols(i.imports), name).None?
  {
    hide LastSymbol;
    LastAmong(ImportedSymbols(i.imports), name);
    assert forall m :: 0 <= m < |i.imports| ==> ImportNames(i.imports)[m] == ImportedSymbols(i.imports)[m].name;
  }

  lemma NotAnImport(i: Input, n: nat)
    requires Coherent(i) && n < |i.definitions|
    ensures i.definitions[n].name !in ImportNames(i.imports)
  {
    hide LinkResolves, EmitOrder, ContentsAllowed;
    DistinctPrefix(Names(i.definitions), ImportNames(i.imports));
    assert Names(i.definitions)[n] == i.definitions[n].name;
  }

  lemma FinalUnder(i: Input, name: string)
    requires PositionOf(i, name).Some?
    ensures FinalSymbols(i)[PositionOf(i, name).value].symbol == SymbolUnder(AllSymbols(i), name)
  {
    hide SymbolUnder, AllSymbols, Dedup;
  }

  // ----- the ends of a link -----

  function BindingOf(d: Definition): Binding {
    Binding(d.name, Defined(d.decl))
  }

  /** The end of a link is looked up in the definition's own section exactly if the
      definition keeps its symbol, and otherwise in a custom section's. */
  lemma OwnSectionIff(i: Input, n: nat)
    requires Coherent(i) && n < |i.definitions|
    ensures Landing(i, BindingOf(i.definitions[n])).Some?
    ensures var s := Landing(i, BindingOf(i.definitions[n])).value;
            && FIRST_SECTION <= s < FIRST_SECTION + |i.definitions|
            && (s == FIRST_SECTION + n <==> OwnSymbol(i, i.definitions[n]))
            && (s != FIRST_SECTION + n ==> Makes(i.definitions[s - FIRST_SECTION], i.definitions[n].name))
  {
    hide Coherent, PositionOf, FinalSymbols, OwnSymbol, Makes, SymbolUnder, AllSymbols, LastSymbol, SymbolsFor;
    var d := i.definitions[n];
    NamePositions(i);
    if !d.decl.SectionDecl? {
      EndHasSymbol(i, BindingOf(d));
      FinalUnder(i, d.name);
      NotAnImport(i, n);
      MakesOwn(d);
      var k := FindLastMaker(i.definitions, n, d.name);
      UnderMaker(i, k, d.name);
      LastMakerIff(i, n);
    } else {
      OwnSection(i, d);
    }
  }

  lemma MakesOwn(d: Definition)
    requires !d.decl.SectionDecl?
    ensures Makes(d, d.name)
  {
  }

  lemma OwnSection(i: Input, d: Definition)
    requires d.decl.SectionDecl?
    ensures OwnSymbol(i, d)
  {
  }

  /** The symbol a definition keeps: its own section, value 0, its size and type. */
  lemma OwnFinal(i: Input, n: nat)
    requires Coherent(i) && n < |i.definitions| && !i.definitions[n].decl.SectionDecl? && OwnSymbol(i, i.definitions[n])
    ensures var d := i.definitions[n];
            && PositionOf(i, d.name).Some?
            && FinalSymbols(i)[PositionOf(i, d.name).value]
               == NamedSymbol(d.name, CreateSymbol(FromDecl(d.decl), 0, d.data.FileSize(), FIRST_SECTION + n, 0))
            && StandsFor(FinalSymbols(i)[PositionOf(i, d.name).value].symbol, d)
            && FinalSymbols(i)[PositionOf(i, d.name).value].symbol.shndx == FIRST_SECTION + n
  {
    hide Coherent, PositionOf, FinalSymbols, OwnSymbol, Makes, AllSymbols, SymbolUnder;
    var d := i.definitions[n];
    assert DefinedAs(i.definitions, BindingOf(d));
    EndHasSymbol(i, BindingOf(d));
    FinalUnder(i, d.name);
    NotAnImport(i, n);
    LastMakerIff(i, n);
    UnderMaker(i, n, d.name);
    OneMade(d, FIRST_SECTION + n);
  }

  lemma OneMade(d: Definition, shndx: nat)
    requires !d.decl.SectionDecl?
    ensures LastSymbol(SymbolsFor(d, shndx), d.name) ==
            Some(CreateSymbol(FromDecl(d.decl), 0, d.data.FileSize(), shndx, 0))
  {
  }

  lemma ImportFinal(i: Input, m: nat)
    requires m < |i.imports|
    ensures var name := i.imports[m].0;
            && PositionOf(i, name).Some? && FinalSymbols(i)[PositionOf(i, name).value] == SymbolForImport(name)
            && StandsForImport(FinalSymbols(i)[PositionOf(i, name).value].symbol)
  {
    hide PositionOf, FinalSymbols, AllSymbols, SymbolUnder;
    EndHasSymbol(i, Binding(i.imports[m].0, Import(i.imports[m].1)));
    FinalUnder(i, i.imports[m].0);
    UnderImport(i, m);
  }

  /** What a symbol called `name` has to say: an import's name stands for the import, any
      other for what the last definition that makes a symbol of that name makes of it. */
  ghost predicate SaysRight(i: Input, name: string, s: Symbol) {
    if name in ImportNames(i.imports) then StandsForImport(s)
    else
      exists k: nat ::
        LastMaker(i.definitions, k, name) && s.shndx == FIRST_SECTION + k && SaysAs(i.definitions[k], name, s)
  }

  ghost predicate SaysAs(d: Definition, name: string, s: Symbol) {
    if d.decl.SectionDecl? then exists m: nat :: IsCustom(d, m, name) && StandsForPlace(s, d.symbols[m].1)
    else StandsFor(s, d)
  }

  lemma MadeSays(d: Definition, shndx: nat, name: string)
    requires Makes(d, name)
    ensures LastSymbol(SymbolsFor(d, shndx), name).Some?
    ensures SaysAs(d, name, LastSymbol(SymbolsFor(d, shndx), name).value)
  {
    hide LastSymbol;
    MadeSymbol(d, shndx, name);
    var specs := SymbolsFor(d, shndx);
    LastAmong(specs, name);
    var m :| 0 <= m < |specs| && specs[m].name == name && specs[m].symbol == LastSymbol(specs, name).value;
    if d.decl.SectionDecl? {
      assert IsCustom(d, m, name);
    }
  }

  /** Every symbol that survives says what it has to; and there is one for every name
      that an import has or a definition makes, and for no other. */
  lemma FinalSays(i: Input, q: nat)
    requires Coherent(i) && q < |FinalSymbols(i)|
    ensures SaysRight(i, FinalSymbols(i)[q].name, FinalSymbols(i)[q].symbol)
  {
    hide Coherent, SymbolUnder, Makes, LastSymbol, SymbolsFor, SaysAs, StandsForImport, Dedup, AllSymbols;
    var name := FinalSymbols(i)[q].name;
    assert name in Dedup(SymbolNames(AllSymbols(i)));
    if name in ImportNames(i.imports) {
      var m :| 0 <= m < |i.imports| && ImportNames(i.imports)[m] == name;
      UnderImport(i, m);
      ImportSays(name);
    } else {
      var n := SomeMaker(i, name);
      var k := FindLastMaker(i.definitions, n, name);
      UnderMaker(i, k, name);
      MadeSays(i.definitions[k], FIRST_SECTION + k, name);
    }
  }

  lemma ImportSays(name: string)
    ensures StandsForImport(SymbolForImport(name).symbol)
  {
  }

  lemma FinalNames(i: Input, name: string)
    ensures name in SymbolNames(FinalSymbols(i)) <==>
            name in ImportNames(i.imports) || exists k :: 0 <= k < |i.definitions| && Makes(i.definitions[k], name)
    ensures Distinct(SymbolNames(FinalSymbols(i)))
  {
    hide DefinedSymbols, Makes, LastSymbol, SymbolsFor;
    assert SymbolNames(FinalSymbols(i)) == Dedup(SymbolNames(AllSymbols(i)));
    if name in ImportNames(i.imports) {
      var m :| 0 <= m < |i.imports| && ImportNames(i.imports)[m] == name;
      assert SymbolNames(AllSymbols(i))[|DefinedSymbols(i.definitions)| + m] == name;
    } else if k :| 0 <= k < |i.definitions| && Makes(i.definitions[k], name) {
      MadeSymbol(i.definitions[k], FIRST_SECTION + k, name);
      var specs := SymbolsFor(i.definitions[k], FIRST_SECTION + k);
      LastAmong(specs, name);
      var j :| 0 <= j < |specs| && specs[j].name == name;
      DefinedSymbolAt(i.definitions, k, j);
      assert SymbolNames(AllSymbols(i))[|DefinedSymbols(i.definitions[..k])| + j] == name;
    } else if name in SymbolNames(AllSymbols(i)) {
      var n := SomeMaker(i, name);
    }
  }

  // ----- bindings -----

  /** A function or data object called `name`, of the given scope. */
  ghost predicate ScopedNamed(defs: seq<Definition>, name: string, scope: Scope) {
    exists k :: 0 <= k < |defs| && !defs[k].decl.SectionDecl? && defs[k].decl.scope == scope && defs[k].name == name
  }

  /** The symbol that survives under a name is local. */
  ghost predicate BoundLocally(i: Input, name: string) {
    && name !in ImportNames(i.imports)
    && !ScopedNamed(i.definitions, name, Global)
    && (CustomNamed(i.definitions, name) || ScopedNamed(i.definitions, name, Local))
  }

  lemma MadeBind(d: Definition, shndx: nat, name: string)
    requires Makes(d, name)
    ensures LastSymbol(SymbolsFor(d, shndx), name).Some?
    ensures LastSymbol(SymbolsFor(d, shndx), name).value.bind
            == if d.decl.SectionDecl? then StbLocal else ScopeBind(d.decl.scope)
  {
    MadeSymbol(d, shndx, name);
    var specs := SymbolsFor(d, shndx);
    LastAmong(specs, name);
    assert forall m :: 0 <= m < |specs| ==>
             specs[m].symbol.bind == if d.decl.SectionDecl? then StbLocal else ScopeBind(d.decl.scope);
  }

  /** Whoever makes the last symbol of a name decides how it is bound. */
  lemma MakerScope(i: Input, k: nat, name: string)
    requires Coherent(i) && LastMaker(i.definitions, k, name)
    ensures var d := i.definitions[k];
            if d.decl.SectionDecl? then CustomNamed(i.definitions, name) && !ScopedNamed(i.definitions, name, Global)
            else
              && ScopedNamed(i.definitions, name, d.decl.scope)
              && (d.decl.scope != Global ==>
                    && !CustomNamed(i.definitions, name)
                    && !ScopedNamed(i.definitions, name, Global)
                    && (ScopedNamed(i.definitions, name, Local) <==> d.decl.scope == Local))
  {
    hide Coherent;
    var defs, d := i.definitions, i.definitions[k];
    if d.decl.SectionDecl? {
      MakesCustom(d, name);
      var m: nat :| IsCustom(d, m, name);
      assert CustomNamed(defs, name);
      forall j | 0 <= j < |defs| && !defs[j].decl.SectionDecl? && defs[j].decl.scope == Global
        ensures defs[j].name != name
      {
        if j < k {
          Ordered(i, j, k);
        }
      }
    } else {
      LastMakerIff(i, k);
      forall j | 0 <= j < |defs| && !defs[j].decl.SectionDecl? && defs[j].name == name
        ensures j == k
      {
        SameName(i, j, k);
      }
    }
  }

  lemma BoundLocallyIff(i: Input, name: string)
    requires Coherent(i) && name in SymbolNames(AllSymbols(i))
    ensures SymbolUnder(AllSymbols(i), name).bind == StbLocal <==> BoundLocally(i, name)
  {
    hide Coherent, SymbolUnder, Makes, CustomNamed, ScopedNamed, LastSymbol, SymbolsFor;
    if name in ImportNames(i.imports) {
      var m :| 0 <= m < |i.imports| && ImportNames(i.imports)[m] == name;
      UnderImport(i, m);
    } else {
      var n := SomeMaker(i, name);
      var k := FindLastMaker(i.definitions, n, name);
      UnderMaker(i, k, name);
      MadeBind(i.definitions[k], FIRST_SECTION + k, name);
      MakerScope(i, k, name);
    }
  }

  lemma SomeMaker(i: Input, name: string) returns (n: nat)
    requires name in SymbolNames(AllSymbols(i)) && name !in ImportNames(i.imports)
    ensures n < |i.definitions| && Makes(i.definitions[n], name)
  {
    hide DefinedSymbols, Makes, LastSymbol;
    var defs := i.definitions;
    if forall k :: 0 <= k < |defs| ==> !Makes(defs[k], name) {
      NobodyMakes(defs, name);
      LastConcat(DefinedSymbols(defs), ImportedSymbols(i.imports), name);
      NoImport(i, name);
      LastAmong(AllSymbols(i), name);
      assert false;
    }
    n :| 0 <= n < |defs| && Makes(defs[n], name);
  }
}
