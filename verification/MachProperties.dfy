/** What a reader of an emitted Mach-O file finds. */
module MachProperties {
  import opened Collections
  import opened ObjectFile
  import opened Decls
  import opened MachFormat
  import opened MachSymbols
  import opened MachLayout
  import opened MachRelocs
  import opened MachImage
  import opened MachEmit
  import opened MachEntries

  // ----- what "faithful" means -----

  /** Definition `k` of a built-in section: its bytes are at the section's file
      offset plus the offset the allocator gave it. */
  ghost predicate ContentsFaithful(defs: seq<Definition>, part: Part, p: Parsed, file: Image) {
    && part.Index() < |p.sections|
    && forall k :: 0 <= k < |defs| ==>
         Holds(file, p.sections[part.Index()].offset + OffsetAt(defs, k, part.MinExp()), ContentsOf(defs[k]))
  }

  ghost predicate CustomFaithful(d: Definition, j: nat, p: Parsed, file: Image) {
    && j < |p.sections|
    && p.sections[j].size == d.data.FileSize()
    && Holds(file, p.sections[j].offset, ContentsOf(d))
  }

  /** Symbol `k`: its address is its section's address plus its offset there. */
  ghost predicate SymbolFaithful(e: Entry, k: nat, p: Parsed, file: Image) {
    && k < |p.symbols|
    && (TextAt(file, p.symtab.stroff + p.symbols[k].strx) == Codes("_" + e.name) <==> NoNul(e.name))
    && match e.kind
       case UndefinedSymbol =>
         p.symbols[k].undefined && p.symbols[k].external && p.symbols[k].value == 0 && p.symbols[k].sect == 0
       case DefinedIn(section, _, relative, global) =>
         && section < |p.sections|
         && !p.symbols[k].undefined
         && p.symbols[k].external == global
         && p.symbols[k].sect == section + 1
         && p.symbols[k].value == p.sections[section].addr + relative
  }

  /** A section header names its section and gives its size and alignment. */
  predicate Describes(s: Section, c: Chunk) {
    s.sectname == c.SectName() && s.segname == c.SegName() && s.size == |c.Cells()| && s.align == c.Exp()
  }

  ghost predicate FaithfulAs(i: Input, p: Parsed, file: Image) {
    var chunks := ChunksOf(i);
    && |p.sections| == |chunks|
    && (forall j :: 0 <= j < |chunks| ==> Describes(p.sections[j], chunks[j]))
    && (forall j :: 0 <= j < |chunks| ==> Holds(file, p.sections[j].offset, chunks[j].Cells()))
    && (forall part: Part :: ContentsFaithful(Select(i.definitions, Some(part)), part, p, file))
    && (forall m :: 0 <= m < |Select(i.definitions, None)| ==>
          CustomFaithful(Select(i.definitions, None)[m], NUM_DEFAULT_SECTIONS + m, p, file))
    && |p.symbols| == |BuiltEntries(i)|
    && (forall k :: 0 <= k < |BuiltEntries(i)| ==> SymbolFaithful(BuiltEntries(i)[k], k, p, file))
    && (forall j :: 0 <= j < |chunks| ==>
          RelocationsIn(file, p.sections[j]) == Some(RelocsOf(Keys(chunks), BuiltEntries(i), i.links, j)))
    && Tiled(p)
    && Announced(i, p)
    && Holds(file, p.symtab.stroff, StrCells(EntryNames(BuiltEntries(i))))
    && p.symtab.strsize == |StrCells(EntryNames(BuiltEntries(i)))|
  }

  /** The header announces two load commands of the right size, and the segment is as
      much larger in memory as the zero-initialised data is long. */
  ghost predicate Announced(i: Input, p: Parsed) {
    && p.header.ncmds == 2 && p.header.sizeofcmds == p.segment.cmdsize + SYMTAB_COMMAND_SIZE
    && p.segment.nsects == |p.sections| && p.symtab.nsyms == |p.symbols|
    && p.segment.vmsize == p.segment.filesize + BssTotal(i.definitions)
  }

  ghost predicate Faithful(c: Container, i: Input, file: Image) {
    Parse(c, file).Some? && FaithfulAs(i, Parse(c, file).value, file)
  }

  /** Sections follow one another through the segment; symbols and strings come
      right after it. */
  ghost predicate Tiled(p: Parsed) {
    && (forall j :: 0 <= j < |p.sections| - 1 ==> Follows(p.sections[j], p.sections[j + 1]))
    && (p.sections != [] ==>
          && p.sections[0].addr == 0 && p.sections[0].offset == p.segment.fileoff
          && var last := p.sections[|p.sections| - 1];
             last.addr + last.size == p.segment.filesize)
    && p.segment.fileoff + p.segment.filesize == p.symtab.symoff <= p.symtab.stroff
  }

  // ----- symbols -----

  lemma SymbolReads(f: Final, i: Input, file: Image, k: nat)
    requires f.Valid() && Regions(f, file) && f.chunks == ChunksOf(i) && f.entries == BuiltEntries(i)
    requires k < |BuiltEntries(i)|
    ensures SymbolFaithful(BuiltEntries(i)[k], k, ParsedAs(f), file)
  {
    hide Commands, DataCells, Records, RelocCells, StrCells, ChunksOf, EntriesOf, AddrOf, Holds, TextAt, NoNul,
      RelocStart, Chunk.Cells, Chunk.Exp, BuiltEntries;
    NameReads(EntryNames(f.entries), k, file, StrOff(f));
    EntryPlaced(i, k);
  }

  /** A symbol of a section has that section's address plus its offset there. */
  lemma EntryPlaced(i: Input, k: nat)
    requires k < |BuiltEntries(i)|
    ensures var kind := BuiltEntries(i)[k].kind;
            kind.UndefinedSymbol? ||
            (kind.section < |ChunksOf(i)| && kind.absolute == AddrOf(ChunksOf(i), kind.section) + kind.relative)
  {
    hide ChunksOf, EntriesOf, AddrOf, AddedAll;
    var es, n := AllEntries(i), |EntriesOf(ChunksOf(i))|;
    KeptFrom(es, k);
    var q :| 0 <= q < |es| && es[q] == BuiltEntries(i)[k];
    if q < n {
      EntryAddresses(ChunksOf(i), q);
    }
  }

  // ----- contents -----

  lemma ChunkReads(f: Final, file: Image, j: nat)
    requires f.Valid() && Regions(f, file) && j < |f.chunks|
    ensures Holds(file, SectionAt(f, j).offset, f.chunks[j].Cells())
  {
    hide Commands, Records, RelocCells, StrCells, Holds, RelocStart, Chunk.Cells, Chunk.Exp, Chunk.SectName,
      Chunk.SegName, DataCells;
    ChunkHeld(f.chunks, j, file, DataStart(f));
  }

  lemma ContentsRead(f: Final, file: Image, part: Part, defs: seq<Definition>)
    requires f.Valid() && Regions(f, file) && part.Index() < |f.chunks| && f.chunks[part.Index()] == BuiltIn(part, defs)
    ensures ContentsFaithful(defs, part, ParsedAs(f), file)
  {
    hide Regions, CellsUpTo, OffsetAt, Holds, RelocStart, DataStart, AddrOf, StrOff, SymOff;
    ChunkReads(f, file, part.Index());
    forall k | 0 <= k < |defs|
      ensures Holds(file, SectionAt(f, part.Index()).offset + OffsetAt(defs, k, part.MinExp()), ContentsOf(defs[k]))
    {
      ContentsHeld(defs, k, |defs|, part.MinExp(), part.Filler(), file, SectionAt(f, part.Index()).offset);
    }
  }

  lemma CustomReads(f: Final, file: Image, j: nat, d: Definition)
    requires f.Valid() && Regions(f, file) && j < |f.chunks| && f.chunks[j] == Custom(d)
    ensures CustomFaithful(d, j, ParsedAs(f), file)
  {
    hide Regions, Holds, RelocStart, DataStart, AddrOf, StrOff, SymOff;
    ChunkReads(f, file, j);
  }

  // ----- all together -----

  /** The file `ToBytes` writes, read back, is the artifact: contents, addresses,
      names, relocation runs and tiling. */
  lemma WholeIsFaithful(i: Input, c: Container)
    ensures FinalOf(i, c).Valid()
    ensures Parse(c, Whole(FinalOf(i, c))) == Some(ParsedAs(FinalOf(i, c)))
    ensures FaithfulAs(i, ParsedAs(FinalOf(i, c)), Whole(FinalOf(i, c)))
  {
    hide Whole, Regions, ChunksOf, EntriesOf, BuiltEntries, SymbolFaithful, ContentsFaithful, CustomFaithful, RelocsOf,
      Select, Keys, BssTotal, SectionAt, NlistsOf, RelocationsIn, SymtabOf, SegmentOf, DataStart, Tiled, Describes,
      Announced, StrCells, Holds;
    var f := FinalOf(i, c);
    var file := Whole(f);
    WholeHasRegions(f);
    ParseWhole(f, file);
    ChunkPositions(i);
    forall part: Part
      ensures ContentsFaithful(Select(i.definitions, Some(part)), part, ParsedAs(f), file)
    {
      ContentsRead(f, file, part, Select(i.definitions, Some(part)));
    }
    forall m | 0 <= m < |Select(i.definitions, None)|
      ensures CustomFaithful(Select(i.definitions, None)[m], NUM_DEFAULT_SECTIONS + m, ParsedAs(f), file)
    {
      CustomReads(f, file, NUM_DEFAULT_SECTIONS + m, Select(i.definitions, None)[m]);
    }
    forall k | 0 <= k < |BuiltEntries(i)|
      ensures SymbolFaithful(BuiltEntries(i)[k], k, ParsedAs(f), file)
    {
      SymbolReads(f, i, file, k);
    }
    forall j | 0 <= j < |f.chunks|
      ensures RelocationsIn(file, SectionAt(f, j)) == Some(f.relocs[j])
    {
      RelocationsRead(f, file, j);
    }
    forall j | 0 <= j < |f.chunks|
      ensures Describes(SectionAt(f, j), f.chunks[j])
    {
      HeaderDescribes(f, j);
    }
    forall j | 0 <= j < |f.chunks|
      ensures Holds(file, SectionAt(f, j).offset, f.chunks[j].Cells())
    {
      ChunkReads(f, file, j);
    }
    FinalTiles(f);
    FinalAnnounces(i, c);
    StringsHeld(f, file);
  }

  lemma FinalAnnounces(i: Input, c: Container)
    ensures FinalOf(i, c).Valid() && Announced(i, ParsedAs(FinalOf(i, c)))
  {
    hide DataCells, StrCells, BssTotal, ChunksOf, BuiltEntries, SectionAt, RelocsOf, NlistAt;
  }

  lemma StringsHeld(f: Final, file: Image)
    requires f.Valid() && Regions(f, file)
    ensures Holds(file, SymtabOf(f).stroff, StrCells(EntryNames(f.entries)))
    ensures SymtabOf(f).strsize == |StrCells(EntryNames(f.entries))|
  {
    hide Holds, StrCells, Commands, DataCells, Records, RelocCells;
  }

  lemma HeaderDescribes(f: Final, j: nat)
    requires f.Valid() && j < |f.chunks|
    ensures Describes(SectionAt(f, j), f.chunks[j])
  {
    hide Chunk.SectName, Chunk.SegName, Chunk.Cells, Chunk.Exp, AddrOf, DataStart, RelocStart, RelocCells;
  }

  lemma FinalTiles(f: Final)
    requires f.Valid()
    ensures Tiled(ParsedAs(f))
  {
    hide SectionAt, DataStart, RelocStart, StrCells, NlistsOf, DataCells;
    SectionsTile(f);
    TablesTile(f);
  }

  /** A file that announces a section for every chunk, and is laid out as planned, reads
      back as the artifact; one that announces fewer does not. */
  lemma FaithfulIff(i: Input, c: Container, file: Image)
    requires Announces(c, file, |BuiltKeys(i)|)
    requires WellNamed(i) ==> FinalOf(i, c).Valid() && file == Whole(FinalOf(i, c))
    ensures Faithful(c, i, file) <==> WellNamed(i)
  {
    hide Whole, WellNamed, BuiltKeys, ChunksOf, ContentsFaithful, CustomFaithful, SymbolFaithful, RelocsOf, Tiled,
      Describes, RelocationsIn, FinalOf, NlistsIn, SymtabIn;
    KeysAsNamed(i);
    if WellNamed(i) {
      WholeIsFaithful(i, c);
    }
  }

  // ----- from a symbol to its bytes -----

  /** A definition's symbol, read from the file, leads to the definition's bytes: they
      lie as far into the section's part of the file as the symbol's address lies above
      the section's. */
  ghost predicate LeadsTo(p: Parsed, file: Image, at: nat, d: Definition) {
    && at < |p.symbols|
    && (TextAt(file, p.symtab.stroff + p.symbols[at].strx) == Codes("_" + d.name) <==> NoNul(d.name))
    && !p.symbols[at].undefined && p.symbols[at].external == (!d.decl.SectionDecl? && d.decl.scope == Global)
    && 1 <= p.symbols[at].sect <= |p.sections|
    && var s := p.sections[p.symbols[at].sect - 1];
       p.symbols[at].value >= s.addr && Holds(file, s.offset + (p.symbols[at].value - s.addr), ContentsOf(d))
  }

  lemma SymbolLeadsToContents(i: Input, p: Parsed, file: Image, d: Definition)
    requires Coherent(i) && FaithfulAs(i, p, file) && d in i.definitions && PartOf(d).Some?
    ensures d.name != "" <==> d.name in EntryNames(BuiltEntries(i))
    ensures d.name != "" ==>
            exists at: nat :: LeadsTo(p, file, at, d) && at < |BuiltEntries(i)| && BuiltEntries(i)[at].name == d.name
  {
    hide Coherent, ChunksOf, Select, AddrOf, OffsetAt, Holds, TextAt, RelocationsIn, RelocsOf, Tiled, CustomFaithful,
      Keys, NoNul, Describes, BuiltEntries, IndexOf, Announced, StrCells, Chunk.Cells;
    HasEntry(i, d);
    if d.name != "" {
      OwnSymbol(i, d);
      var at := IndexOf(EntryNames(BuiltEntries(i)), d.name).value;
      assert SymbolFaithful(BuiltEntries(i)[at], at, p, file);
      assert ContentsFaithful(Select(i.definitions, PartOf(d)), PartOf(d).value, p, file);
      assert LeadsTo(p, file, at, d);
    }
  }

  lemma HasEntry(i: Input, d: Definition)
    requires d in i.definitions && PartOf(d).Some?
    ensures d.name != "" <==> d.name in EntryNames(BuiltEntries(i))
  {
    hide AllEntries, AddedAll;
    AddedNames(AllEntries(i), d.name);
    MadeEntry(i, d, 0);
  }
}
