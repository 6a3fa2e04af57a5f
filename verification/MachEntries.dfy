/** Which symbol stands under a name in a Mach-O file, and where a definition lives. */
module MachEntries {
  import opened Collections
  import opened Decls
  import opened MachSymbols
  import opened MachLayout
  import opened MachEmit

  // ----- positions -----

  lemma ChunkPositions(i: Input)
    ensures forall part: Part ::
              && part.Index() < |ChunksOf(i)|
              && ChunksOf(i)[part.Index()] == BuiltIn(part, Select(i.definitions, Some(part)))
    ensures |ChunksOf(i)| == NUM_DEFAULT_SECTIONS + |Select(i.definitions, None)|
    ensures forall m :: 0 <= m < |Select(i.definitions, None)| ==>
              ChunksOf(i)[NUM_DEFAULT_SECTIONS + m] == Custom(Select(i.definitions, None)[m])
  {
    hide Select;
  }

  lemma SamePrefix(chunks: seq<Chunk>, j: nat)
    requires j < |chunks|
    ensures j <= |chunks| - 1 && AddrOf(chunks[..|chunks| - 1], j) == AddrOf(chunks, j)
  {
    hide DataCells;
    assert chunks[..|chunks| - 1][..j] == chunks[..j];
  }

  /** Absolute and section-relative offsets of every entry differ by its section's address. */
  lemma {:induction false} EntryAddresses(chunks: seq<Chunk>, q: nat)
    requires q < |EntriesOf(chunks)|
    ensures var kind := EntriesOf(chunks)[q].kind;
            && kind.DefinedIn? && kind.section < |chunks|
            && kind.absolute == AddrOf(chunks, kind.section) + kind.relative
  {
    hide OffsetAt, DataCells, AddrOf;
    var n := |chunks| - 1;
    var front := chunks[..n];
    if q < |EntriesOf(front)| {
      EntryAddresses(front, q);
      SamePrefix(chunks, EntriesOf(chunks)[q].kind.section);
    }
  }

  lemma {:induction false} EntryAt(chunks: seq<Chunk>, j: nat, k: nat)
    requires j < |chunks| && k < |ChunkEntries(chunks[j], j, AddrOf(chunks, j))|
    ensures |EntriesOf(chunks[..j])| + k < |EntriesOf(chunks)|
    ensures EntriesOf(chunks)[|EntriesOf(chunks[..j])| + k] == ChunkEntries(chunks[j], j, AddrOf(chunks, j))[k]
  {
    hide ChunkEntries, AddrOf;
    var n := |chunks| - 1;
    if j < n {
      SamePrefix(chunks, j);
      EntryAt(chunks[..n], j, k);
      assert chunks[..n][..j] == chunks[..j];
    }
  }

  lemma {:induction false} EntryOrigin(chunks: seq<Chunk>, q: nat) returns (j: nat, k: nat)
    requires q < |EntriesOf(chunks)|
    ensures j < |chunks| && k < |ChunkEntries(chunks[j], j, AddrOf(chunks, j))|
    ensures EntriesOf(chunks)[q] == ChunkEntries(chunks[j], j, AddrOf(chunks, j))[k]
    ensures q == |EntriesOf(chunks[..j])| + k
  {
    hide ChunkEntries, AddrOf;
    var n := |chunks| - 1;
    if q < |EntriesOf(chunks[..n])| {
      j, k := EntryOrigin(chunks[..n], q);
      SamePrefix(chunks, j);
      assert chunks[..n][..j] == chunks[..j];
    } else {
      j, k := n, q - |EntriesOf(chunks[..n])|;
    }
  }

  lemma {:induction false} EntriesPrefix(chunks: seq<Chunk>, j: nat)
    requires j <= |chunks|
    ensures EntriesOf(chunks[..j]) <= EntriesOf(chunks)
  {
    hide ChunkEntries, AddrOf;
    if j < |chunks| {
      var n := |chunks| - 1;
      EntriesPrefix(chunks[..n], j);
      assert chunks[..n][..j] == chunks[..j];
    } else {
      assert chunks[..j] == chunks;
    }
  }

  lemma Selected(defs: seq<Definition>, d: Definition) returns (k: nat)
    requires d in defs
    ensures k < |Select(defs, PartOf(d))| && Select(defs, PartOf(d))[k] == d
  {
    hide Select, PartOf;
    SelectMembers(defs, PartOf(d));
    k :| 0 <= k < |Select(defs, PartOf(d))| && Select(defs, PartOf(d))[k] == d;
  }

  lemma OneOfEachName(i: Input, d: Definition, e: Definition)
    requires Coherent(i) && d in i.definitions && e in i.definitions && d.name == e.name
    ensures d == e
  {
    hide LinkResolves, EmitOrder, ContentsAllowed;
    DistinctPrefix(Names(i.definitions), ImportNames(i.imports));
    var j :| 0 <= j < |i.definitions| && i.definitions[j] == d;
    var k :| 0 <= k < |i.definitions| && i.definitions[k] == e;
    assert Names(i.definitions)[j] == Names(i.definitions)[k];
  }

  lemma NotAnImport(i: Input, d: Definition)
    requires Coherent(i) && d in i.definitions
    ensures d.name !in ImportNames(i.imports)
  {
    hide LinkResolves, EmitOrder, ContentsAllowed;
    DistinctPrefix(Names(i.definitions), ImportNames(i.imports));
    var k :| 0 <= k < |i.definitions| && i.definitions[k] == d;
    assert Names(i.definitions)[k] == d.name;
  }

  // ----- where a definition lives -----

  /** The section that holds a definition, and the offset of its first byte there. */
  function HomeSection(i: Input, d: Definition): nat
    requires d in i.definitions
  {
    match PartOf(d)
    case Some(part) => part.Index()
    case None => NUM_DEFAULT_SECTIONS + PositionOf(i, d)
  }

  function HomeOffset(i: Input, d: Definition): nat
    requires d in i.definitions
  {
    match PartOf(d)
    case Some(part) => OffsetAt(Select(i.definitions, PartOf(d)), PositionOf(i, d), part.MinExp())
    case None => 0
  }

  function PositionOf(i: Input, d: Definition): (k: nat)
    requires d in i.definitions
    ensures k < |Select(i.definitions, PartOf(d))| && Select(i.definitions, PartOf(d))[k] == d
  {
    assert d in Select(i.definitions, PartOf(d)) by { SelectMembers(i.definitions, PartOf(d)); }
    IndexOf(Select(i.definitions, PartOf(d)), d).value
  }

  // ----- which names have symbols -----

  ghost predicate CustomSymbol(d: Definition, m: nat, name: string) {
    d.decl.SectionDecl? && m < |d.symbols| && d.symbols[m].0 == name
  }

  /** Some custom section symbol is called `name`. */
  ghost predicate CustomNamed(i: Input, name: string) {
    exists d, m :: d in i.definitions && CustomSymbol(d, m, name)
  }

  /** A section has no symbol of its own; it takes a custom symbol of the same name. */
  ghost predicate HasSymbol(i: Input, b: Binding) {
    b.name != "" && (b.decl.IsSection() ==> CustomNamed(i, b.name))
  }

  lemma ImportEntry(i: Input, m: nat)
    requires m < |i.imports|
    ensures i.imports[m].0 in EntryNames(AllEntries(i))
  {
    hide ChunksOf, EntriesOf;
    var q := |EntriesOf(ChunksOf(i))| + m;
    assert EntryNames(AllEntries(i))[q] == i.imports[m].0;
  }

  /** The entry of symbol `m` of a definition, where a function or data has just one. */
  lemma MadeEntry(i: Input, d: Definition, m: nat)
    requires d in i.definitions && (d.decl.SectionDecl? ==> m < |d.symbols|)
    ensures (if d.decl.SectionDecl? then d.symbols[m].0 else d.name) in EntryNames(AllEntries(i))
  {
    hide ChunksOf, EntriesOf, Select, AddrOf, OffsetAt;
    var chunks := ChunksOf(i);
    var k := Selected(i.definitions, d);
    ChunkPositions(i);
    var j := if d.decl.SectionDecl? then NUM_DEFAULT_SECTIONS + k else PartOf(d).value.Index();
    var r := if d.decl.SectionDecl? then m else k;
    EntryAt(chunks, j, r);
    assert EntryNames(AllEntries(i))[|EntriesOf(chunks[..j])| + r] ==
      EntriesOf(chunks)[|EntriesOf(chunks[..j])| + r].name;
  }

  lemma ChunkSource(i: Input, j: nat)
    requires j < |ChunksOf(i)|
    ensures var c := ChunksOf(i)[j];
            if c.BuiltIn? then forall d :: d in c.defs ==> d in i.definitions && !d.decl.SectionDecl?
            else c.def in i.definitions && c.def.decl.SectionDecl?
  {
    hide Select;
    SelectMembers(i.definitions, Some(TextPart));
    SelectMembers(i.definitions, Some(DataPart));
    SelectMembers(i.definitions, Some(CStringPart));
    SelectMembers(i.definitions, Some(BssPart));
    SelectMembers(i.definitions, None);
    if j >= NUM_DEFAULT_SECTIONS {
      assert Select(i.definitions, None)[j - NUM_DEFAULT_SECTIONS] in Select(i.definitions, None);
    }
  }

  /** Where an entry comes from: a definition, a custom symbol or an import. */
  lemma EntrySource(i: Input, name: string)
    requires name in EntryNames(AllEntries(i))
    ensures || (exists d :: d in i.definitions && !d.decl.SectionDecl? && d.name == name)
            || CustomNamed(i, name)
            || name in ImportNames(i.imports)
  {
    hide ChunksOf, EntriesOf, Select, AddrOf, OffsetAt;
    var chunks := ChunksOf(i);
    var q :| 0 <= q < |EntryNames(AllEntries(i))| && EntryNames(AllEntries(i))[q] == name;
    if q < |EntriesOf(chunks)| {
      var j, k := EntryOrigin(chunks, q);
      ChunkSource(i, j);
      if chunks[j].BuiltIn? {
        assert chunks[j].defs[k] in i.definitions;
      } else {
        assert CustomSymbol(chunks[j].def, k, name);
      }
    } else {
      assert ImportNames(i.imports)[q - |EntriesOf(chunks)|] == name;
    }
  }

  lemma {:induction false} AddedNames(es: seq<Entry>, name: string)
    ensures name in EntryNames(AddedAll([], es)) <==> name != "" && name in EntryNames(es)
  {
    if es != [] {
      var n := |es| - 1;
      AddedNames(es[..n], name);
      assert EntryNames(es) == EntryNames(es[..n]) + [es[n].name];
      var front := AddedAll([], es[..n]);
      if AddedAll([], es) != front {
        assert EntryNames(front + [es[n]]) == EntryNames(front) + [es[n].name];
      }
    }
  }

  /** The ends of links that are found in the symbol table. */
  lemma SymbolIff(i: Input, b: Binding)
    requires Coherent(i) && (DefinedAs(i.definitions, b) || ImportedAs(i.imports, b))
    ensures b.name in EntryNames(BuiltEntries(i)) <==> HasSymbol(i, b)
  {
    hide AllEntries, AddedAll, Coherent;
    AddedNames(AllEntries(i), b.name);
    if b.decl.IsSection() {
      SectionSymbolIff(i, b);
    } else if DefinedAs(i.definitions, b) {
      var n :| 0 <= n < |i.definitions| && i.definitions[n].name == b.name && b.decl == Defined(i.definitions[n].decl);
      MadeEntry(i, i.definitions[n], 0);
    } else {
      var m :| 0 <= m < |i.imports| && i.imports[m].0 == b.name;
      ImportEntry(i, m);
    }
  }

  lemma SectionSymbolIff(i: Input, b: Binding)
    requires Coherent(i) && DefinedAs(i.definitions, b) && b.decl.IsSection()
    ensures b.name in EntryNames(AllEntries(i)) <==> CustomNamed(i, b.name)
  {
    hide AllEntries, Coherent;
    var n :| 0 <= n < |i.definitions| && i.definitions[n].name == b.name && b.decl == Defined(i.definitions[n].decl);
    if b.name in EntryNames(AllEntries(i)) {
      EntrySource(i, b.name);
      NotAnImport(i, i.definitions[n]);
      forall d | d in i.definitions && d.name == b.name
        ensures d.decl.SectionDecl?
      {
        OneOfEachName(i, d, i.definitions[n]);
      }
    }
    if d: Definition, m: nat :| d in i.definitions && CustomSymbol(d, m, b.name) {
      MadeEntry(i, d, m);
    }
  }

  // ----- the symbol under a name -----

  /** Symbols are kept from first to last, so the first one of a name stays. */
  lemma {:induction false} FirstStays(es: seq<Entry>, name: string)
    requires name != "" && name in EntryNames(es)
    ensures name in EntryNames(AddedAll([], es))
    ensures AddedAll([], es)[IndexOf(EntryNames(AddedAll([], es)), name).value]
            == es[IndexOf(EntryNames(es), name).value]
  {
    var n := |es| - 1;
    var front, kept := es[..n], AddedAll([], es[..n]);
    assert EntryNames(es) == EntryNames(front) + [es[n].name];
    AddedNames(front, name);
    AddedNames(front, es[n].name);
    SnocIndex(EntryNames(front), es[n].name, name);
    if name in EntryNames(front) {
      FirstStays(front, name);
    }
    if AddedAll([], es) != kept {
      assert EntryNames(kept + [es[n]]) == EntryNames(kept) + [es[n].name];
      SnocIndex(EntryNames(kept), es[n].name, name);
    }
  }

  lemma SnocIndex(names: seq<string>, last: string, name: string)
    ensures IndexOf(names + [last], name)
            == if name in names then IndexOf(names, name) else if last == name then Some(|names|) else None
  {
    assert (names + [last])[..|names|] == names;
  }

  lemma {:induction false} KeptFrom(es: seq<Entry>, k: nat)
    requires k < |AddedAll([], es)|
    ensures AddedAll([], es)[k] in es
  {
    var n := |es| - 1;
    if k < |AddedAll([], es[..n])| {
      KeptFrom(es[..n], k);
    }
  }

  /** The symbol that stands under a name. */
  function SymbolNamed(i: Input, name: string): Entry
    requires name in EntryNames(BuiltEntries(i))
  {
    BuiltEntries(i)[IndexOf(EntryNames(BuiltEntries(i)), name).value]
  }

  /** The symbol of a function or data object. */
  function OwnEntry(i: Input, d: Definition): Entry
    requires d in i.definitions && PartOf(d).Some?
  {
    Entry(d.name,
          DefinedIn(HomeSection(i, d), AddrOf(ChunksOf(i), HomeSection(i, d)) + HomeOffset(i, d), HomeOffset(i, d),
                            d.decl.IsGlobal()))
  }

  lemma FourBuiltIn(i: Input)
    ensures |ChunksOf(i)| >= 4
    ensures forall j :: 0 <= j < 4 ==>
              && ChunksOf(i)[j].BuiltIn? && ChunksOf(i)[j].part.Index() == j
              && ChunksOf(i)[j].defs == Select(i.definitions, Some(ChunksOf(i)[j].part))
  {
    hide Select;
  }

  /** Among the built-in sections only the definition itself makes an entry of its name. */
  lemma OnlyOwn(i: Input, d: Definition, r: nat)
    requires Coherent(i) && d in i.definitions && PartOf(d).Some?
    requires |ChunksOf(i)| >= 4 && r < |EntriesOf(ChunksOf(i)[..4])| && EntriesOf(ChunksOf(i)[..4])[r].name == d.name
    ensures EntriesOf(ChunksOf(i)[..4])[r] == OwnEntry(i, d)
  {
    hide Coherent, ChunksOf, EntriesOf, Select, DataCells, OffsetAt, IndexOf;
    var four := ChunksOf(i)[..4];
    var j, k := EntryOrigin(four, r);
    FourBuiltIn(i);
    assert four[..j] == ChunksOf(i)[..j];
    var c := ChunksOf(i)[j];
    SelectMembers(i.definitions, Some(c.part));
    assert c.defs[k] in c.defs;
    OneOfEachName(i, c.defs[k], d);
    SelectedOnce(i, Some(c.part), k, PositionOf(i, d));
    PartIndices(c.part, PartOf(d).value);
  }

  lemma PartIndices(a: Part, b: Part)
    ensures a.Index() == b.Index() <==> a == b
  {
  }

  lemma SelectedOnce(i: Input, part: Option<Part>, j: nat, k: nat)
    requires Coherent(i) && j < |Select(i.definitions, part)| && k < |Select(i.definitions, part)|
    requires Select(i.definitions, part)[j] == Select(i.definitions, part)[k]
    ensures j == k
  {
    hide Select, LinkResolves, EmitOrder, ContentsAllowed;
    DistinctPrefix(Names(i.definitions), ImportNames(i.imports));
    SelectDistinct(i.definitions, part);
    assert Names(Select(i.definitions, part))[j] == Names(Select(i.definitions, part))[k];
  }

  /** A function or data object always keeps its symbol: built-in sections come first. */
  lemma OwnSymbol(i: Input, d: Definition)
    requires Coherent(i) && d in i.definitions && PartOf(d).Some? && d.name != ""
    ensures d.name in EntryNames(BuiltEntries(i)) && SymbolNamed(i, d.name) == OwnEntry(i, d)
  {
    hide Coherent, ChunksOf, EntriesOf, Select, DataCells, OffsetAt, AddedAll, OwnEntry, IndexOf, HomeSection,
      HomeOffset;
    var es, chunks := AllEntries(i), ChunksOf(i);
    MadeEntry(i, d, 0);
    FirstStays(es, d.name);
    FourBuiltIn(i);
    EntriesPrefix(chunks, 4);
    var part, k := PartOf(d).value, PositionOf(i, d);
    var four := chunks[..4];
    ChunkPositions(i);
    EntryAt(four, part.Index(), k);
    var q := |EntriesOf(four[..part.Index()])| + k;
    assert EntriesOf(four)[q].name == d.name;
    assert EntryNames(es)[q] == d.name;
    var r := IndexOf(EntryNames(es), d.name).value;
    IndexOfFirst(EntryNames(es), q);
    OnlyOwn(i, d, r);
  }

  /** An import keeps its symbol exactly if no custom symbol has its name; otherwise the
      custom symbol, which comes first, stands for it. */
  lemma ImportIff(i: Input, m: nat)
    requires Coherent(i) && m < |i.imports| && i.imports[m].0 != ""
    ensures i.imports[m].0 in EntryNames(BuiltEntries(i))
    ensures SymbolNamed(i, i.imports[m].0) == Entry(i.imports[m].0, UndefinedSymbol) <==>
            !CustomNamed(i, i.imports[m].0)
  {
    hide Coherent, ChunksOf, EntriesOf, AddedAll;
    var es, name := AllEntries(i), i.imports[m].0;
    var n := |EntriesOf(ChunksOf(i))|;
    ImportEntry(i, m);
    FirstStays(es, name);
    var r := IndexOf(EntryNames(es), name).value;
    if d: Definition, k: nat :| d in i.definitions && CustomSymbol(d, k, name) {
      var q := CustomPosition(i, d, k);
      assert EntryNames(es)[q] == name;
      IndexOfFirst(EntryNames(es), q);
    }
    if r < n {
      EntryAddresses(ChunksOf(i), r);
      InChunks(i, r);
      NotADefinition(i, name);
    }
  }

  lemma NotADefinition(i: Input, name: string)
    requires Coherent(i) && name in ImportNames(i.imports)
    ensures forall d :: d in i.definitions ==> d.name != name
  {
    hide Coherent;
    forall d | d in i.definitions
      ensures d.name != name
    {
      NotAnImport(i, d);
    }
  }

  /** An entry of the sections is a definition's or a custom symbol. */
  lemma InChunks(i: Input, r: nat)
    requires r < |EntriesOf(ChunksOf(i))|
    ensures var name := EntriesOf(ChunksOf(i))[r].name;
            (exists d :: d in i.definitions && d.name == name) || CustomNamed(i, name)
  {
    hide ChunksOf, EntriesOf, AddrOf, OffsetAt;
    var chunks := ChunksOf(i);
    var j, k := EntryOrigin(chunks, r);
    ChunkSource(i, j);
    if chunks[j].BuiltIn? {
      assert chunks[j].defs[k] in i.definitions;
    } else {
      assert CustomSymbol(chunks[j].def, k, EntriesOf(chunks)[r].name);
    }
  }

  /** Among symbols of a name that only custom sections give, the first one stays. */
  lemma CustomStays(i: Input, name: string) returns (d: Definition, m: nat)
    requires Coherent(i) && name != "" && CustomNamed(i, name)
    requires forall e :: e in i.definitions && !e.decl.SectionDecl? ==> e.name != name
    ensures d in i.definitions && CustomSymbol(d, m, name) && name in EntryNames(BuiltEntries(i))
    ensures SymbolNamed(i, name) == CustomEntry(i, d, m)
    ensures forall e, k :: e in i.definitions && CustomSymbol(e, k, name) ==> HomeSection(i, d) <= HomeSection(i, e)
  {
    hide Coherent, ChunksOf, EntriesOf, AddedAll, Select, AddrOf, OffsetAt, IndexOf;
    var es, chunks := AllEntries(i), ChunksOf(i);
    var n := |EntriesOf(chunks)|;
    var e: Definition, k: nat :| e in i.definitions && CustomSymbol(e, k, name);
    var q := CustomPosition(i, e, k);
    assert EntryNames(es)[q] == name;
    IndexOfFirst(EntryNames(es), q);
    FirstStays(es, name);
    var r := IndexOf(EntryNames(es), name).value;
    var j;
    j, m := EntryOrigin(chunks, r);
    ChunkSource(i, j);
    assert chunks[j].Custom?;
    d := chunks[j].def;
    ChunkHome(i, j);
    forall e', k' | e' in i.definitions && CustomSymbol(e', k', name)
      ensures j <= HomeSection(i, e')
    {
      var q' := CustomPosition(i, e', k');
      assert EntryNames(es)[q'] == name;
      IndexOfFirst(EntryNames(es), q');
      if HomeSection(i, e') < j {
        EntriesBefore(chunks, HomeSection(i, e'), j);
      }
    }
  }

  /** The entry of custom symbol `m`. */
  function CustomEntry(i: Input, d: Definition, m: nat): Entry
    requires d in i.definitions && m < |d.symbols|
  {
    var j := HomeSection(i, d);
    assert j <= |ChunksOf(i)| by { ChunkPositions(i); }
    Entry(d.symbols[m].0, DefinedIn(j, AddrOf(ChunksOf(i), j) + d.symbols[m].1, d.symbols[m].1, true))
  }

  lemma ChunkHome(i: Input, j: nat)
    requires Coherent(i) && j < |ChunksOf(i)| && ChunksOf(i)[j].Custom?
    ensures ChunksOf(i)[j].def in i.definitions && HomeSection(i, ChunksOf(i)[j].def) == j
  {
    hide Coherent, ChunksOf, Select, IndexOf;
    FourBuiltIn(i);
    ChunkPositions(i);
    ChunkSource(i, j);
    SelectedOnce(i, None, j - NUM_DEFAULT_SECTIONS, PositionOf(i, ChunksOf(i)[j].def));
  }

  lemma EntriesBefore(chunks: seq<Chunk>, a: nat, b: nat)
    requires a < b <= |chunks|
    ensures |EntriesOf(chunks[..a])| + |ChunkEntries(chunks[a], a, AddrOf(chunks, a))| <= |EntriesOf(chunks[..b])|
  {
    hide ChunkEntries, AddrOf, EntriesOf;
    EntriesPrefix(chunks[..b], a + 1);
    assert chunks[..b][..a + 1] == chunks[..a + 1];
    LastEntries(chunks, a);
  }

  lemma LastEntries(chunks: seq<Chunk>, a: nat)
    requires a < |chunks|
    ensures |EntriesOf(chunks[..a + 1])| ==
            |EntriesOf(chunks[..a])| + |ChunkEntries(chunks[a], a, AddrOf(chunks, a))|
  {
    assert chunks[..a + 1][..a] == chunks[..a];
  }

  lemma CustomPosition(i: Input, d: Definition, m: nat) returns (q: nat)
    requires d in i.definitions && d.decl.SectionDecl? && m < |d.symbols|
    ensures q < |EntriesOf(ChunksOf(i))| && EntriesOf(ChunksOf(i))[q].name == d.symbols[m].0
    ensures var j := HomeSection(i, d);
            j < |ChunksOf(i)| && ChunksOf(i)[j] == Custom(d) && q == |EntriesOf(ChunksOf(i)[..j])| + m
  {
    hide ChunksOf, EntriesOf, Select, AddrOf, IndexOf;
    var k := PositionOf(i, d);
    ChunkPositions(i);
    EntryAt(ChunksOf(i), NUM_DEFAULT_SECTIONS + k, m);
    q := |EntriesOf(ChunksOf(i)[..NUM_DEFAULT_SECTIONS + k])| + m;
  }
}
