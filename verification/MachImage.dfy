/** The Mach-O file a finished segment, symbol table and relocations describe,
    and the proof that the reader gets them back. */
module MachImage {
  import opened Collections
  import opened ObjectFile
  import opened MachFormat
  import opened MachSymbols
  import opened MachLayout

  /** Everything the writer is given; `relocs[j]` belongs to chunk `j`. */
  datatype Final = Final(
    c: Container,
    chunks: seq<Chunk>,
    entries: seq<Entry>,
    relocs: seq<seq<RelocationInfo>>,
    bssSize: nat)
  {
    ghost predicate Valid() {
      |relocs| == |chunks|
    }
  }

  function LoadCommandsSize(f: Final): nat {
    f.c.SegmentSize() + |f.chunks| * f.c.SectionSize() + SYMTAB_COMMAND_SIZE
  }

  function DataStart(f: Final): nat {
    f.c.HeaderSize() + LoadCommandsSize(f)
  }

  function DataSize(f: Final): nat {
    |DataCells(f.chunks)|
  }

  function SymOff(f: Final): nat {
    DataStart(f) + DataSize(f)
  }

  function StrOff(f: Final): nat {
    SymOff(f) + |f.entries| * f.c.NlistSize()
  }

  function RelocStart(f: Final): nat {
    StrOff(f) + |StrCells(EntryNames(f.entries))|
  }

  function RelocCells(relocs: seq<seq<RelocationInfo>>): Image {
    if relocs == [] then []
    else RelocCells(relocs[..|relocs| - 1]) + Records(RelocRecords(relocs[|relocs| - 1]), RELOCATION_SIZE)
  }

  function SectionAt(f: Final, j: nat): Section
    requires f.Valid() && j < |f.chunks|
  {
    var n := |f.relocs[j]|;
    Section(f.chunks[j].SectName(), f.chunks[j].SegName(), AddrOf(f.chunks, j), |f.chunks[j].Cells()|,
            DataStart(f) + AddrOf(f.chunks, j), f.chunks[j].Exp(),
            if n == 0 then 0 else RelocStart(f) + |RelocCells(f.relocs[..j])|, n)
  }

  function SectionsOf(f: Final): (r: seq<Section>)
    requires f.Valid()
    ensures |r| == |f.chunks| && forall j :: 0 <= j < |r| ==> r[j] == SectionAt(f, j)
  {
    seq(|f.chunks|, j requires 0 <= j < |f.chunks| => SectionAt(f, j))
  }

  function SegmentOf(f: Final): SegmentCommand {
    SegmentCommand(f.c.SegmentSize() + |f.chunks| * f.c.SectionSize(), |f.chunks|, DataStart(f), DataSize(f),
                   DataSize(f) + f.bssSize)
  }

  function SymtabOf(f: Final): SymtabCommand {
    SymtabCommand(SymOff(f), |f.entries|, StrOff(f), |StrCells(EntryNames(f.entries))|)
  }

  function NlistAt(es: seq<Entry>, k: nat): Nlist
    requires k < |es|
  {
    CreateNlist(BuilderFor(|StrCells(EntryNames(es)[..k])|, es[k].kind))
  }

  function NlistsOf(es: seq<Entry>): (r: seq<Nlist>)
    ensures |r| == |es| && forall k :: 0 <= k < |r| ==> r[k] == NlistAt(es, k)
  {
    seq(|es|, k requires 0 <= k < |es| => NlistAt(es, k))
  }

  // ----- the file, written front to back -----

  /** The header announces the segment and the symbol table. */
  function HeaderOf(f: Final): Header {
    Header(2, LoadCommandsSize(f))
  }

  function Commands(f: Final): Image
    requires f.Valid()
  {
    Encode(HeaderRecord(HeaderOf(f)), f.c.HeaderSize())
    + Encode(SegmentRecord(SegmentOf(f)), f.c.SegmentSize())
    + Records(SectionRecords(SectionsOf(f)), f.c.SectionSize())
    + Encode(SymtabRecord(SymtabOf(f)), SYMTAB_COMMAND_SIZE)
  }

  function Whole(f: Final): Image
    requires f.Valid()
  {
    Commands(f)
    + DataCells(f.chunks)
    + Records(NlistRecords(NlistsOf(f.entries)), f.c.NlistSize())
    + StrCells(EntryNames(f.entries))
    + RelocCells(f.relocs)
    + [Byte(0)]
  }

  lemma CommandsLength(f: Final)
    requires f.Valid()
    ensures |Commands(f)| == DataStart(f)
  {
  }

  /** Each region lies where the load commands announce it, end to end. */
  ghost predicate Regions(f: Final, file: Image)
    requires f.Valid()
  {
    && Holds(file, 0, Commands(f))
    && Holds(file, DataStart(f), DataCells(f.chunks))
    && Holds(file, SymOff(f), Records(NlistRecords(NlistsOf(f.entries)), f.c.NlistSize()))
    && Holds(file, StrOff(f), StrCells(EntryNames(f.entries)))
    && Holds(file, RelocStart(f), RelocCells(f.relocs))
    && |file| == RelocStart(f) + |RelocCells(f.relocs)| + 1
  }

  lemma SixParts<T>(a: seq<T>, b: seq<T>, c: seq<T>, d: seq<T>, e: seq<T>, z: seq<T>)
    ensures var all := a + b + c + d + e + z;
            && |all| == |a| + |b| + |c| + |d| + |e| + |z|
            && all[0..|a|] == a
            && all[|a|..|a| + |b|] == b
            && all[|a| + |b|..|a| + |b| + |c|] == c
            && all[|a| + |b| + |c|..|a| + |b| + |c| + |d|] == d
            && all[|a| + |b| + |c| + |d|..|a| + |b| + |c| + |d| + |e|] == e
  {
  }

  lemma WholeHasRegions(f: Final)
    requires f.Valid()
    ensures Regions(f, Whole(f))
  {
    hide Commands, DataCells, Records, StrCells, RelocCells, DataStart, NlistsOf;
    CommandsLength(f);
    SixParts(Commands(f), DataCells(f.chunks), Records(NlistRecords(NlistsOf(f.entries)), f.c.NlistSize()),
             StrCells(EntryNames(f.entries)), RelocCells(f.relocs), [Byte(0)]);
  }

  // ----- reading it back -----

  lemma CommandsHeld(f: Final, file: Image)
    requires f.Valid() && Holds(file, 0, Commands(f))
    ensures Holds(file, 0, Encode(HeaderRecord(HeaderOf(f)), f.c.HeaderSize()))
    ensures Holds(file, f.c.HeaderSize(), Encode(SegmentRecord(SegmentOf(f)), f.c.SegmentSize()))
    ensures Holds(file, f.c.HeaderSize() + f.c.SegmentSize(), Records(SectionRecords(SectionsOf(f)), f.c.SectionSize()))
    ensures Holds(file, f.c.HeaderSize() + SegmentOf(f).cmdsize, Encode(SymtabRecord(SymtabOf(f)), SYMTAB_COMMAND_SIZE))
  {
    hide Holds, Records, SectionsOf, SymtabOf;
    var a := Encode(HeaderRecord(HeaderOf(f)), f.c.HeaderSize());
    var b := Encode(SegmentRecord(SegmentOf(f)), f.c.SegmentSize());
    var c := Records(SectionRecords(SectionsOf(f)), f.c.SectionSize());
    var d := Encode(SymtabRecord(SymtabOf(f)), SYMTAB_COMMAND_SIZE);
    HoldsPart(file, 0, a + b + c, d);
    HoldsPart(file, 0, a + b, c);
    HoldsPart(file, 0, a, b);
  }

  function ParsedAs(f: Final): Parsed
    requires f.Valid()
  {
    Parsed(HeaderOf(f), SegmentOf(f), SectionsOf(f), SymtabOf(f), NlistsOf(f.entries))
  }

  lemma SectionsRead(c: Container, file: Image, ss: seq<Section>)
    requires Holds(file, c.HeaderSize() + c.SegmentSize(), Records(SectionRecords(ss), c.SectionSize()))
    ensures SectionsIn(c, file, |ss|) == Some(ss)
  {
    RecordsRoundTrip(file, c.HeaderSize() + c.SegmentSize(), SectionRecords(ss), c.SectionSize());
    assert SectionsIn(c, file, |ss|).value == ss;
  }

  lemma NlistsRead(c: Container, file: Image, off: nat, ss: seq<Nlist>)
    requires Holds(file, off, Records(NlistRecords(ss), c.NlistSize()))
    ensures NlistsIn(c, file, off, |ss|) == Some(ss)
  {
    RecordsRoundTrip(file, off, NlistRecords(ss), c.NlistSize());
    assert NlistsIn(c, file, off, |ss|).value == ss;
  }

  /** The reader recovers the commands, every section and every symbol. */
  lemma ParseWhole(f: Final, file: Image)
    requires f.Valid() && Regions(f, file)
    ensures Parse(f.c, file) == Some(ParsedAs(f))
  {
    hide Holds, Records, Commands, SectionsIn, NlistsIn, RecordAt, RecordsAt, StrCells, DataCells, RelocCells;
    CommandsHeld(f, file);
    RecordRead(file, 0, HeaderRecord(HeaderOf(f)), f.c.HeaderSize());
    RecordRead(file, f.c.HeaderSize(), SegmentRecord(SegmentOf(f)), f.c.SegmentSize());
    RecordRead(file, f.c.HeaderSize() + SegmentOf(f).cmdsize, SymtabRecord(SymtabOf(f)), SYMTAB_COMMAND_SIZE);
    SectionsRead(f.c, file, SectionsOf(f));
    NlistsRead(f.c, file, SymOff(f), NlistsOf(f.entries));
  }

  lemma {:induction false} RelocsHeld(relocs: seq<seq<RelocationInfo>>, j: nat, file: Image, start: nat)
    requires j < |relocs| && Holds(file, start, RelocCells(relocs))
    ensures Holds(file, start + |RelocCells(relocs[..j])|, Records(RelocRecords(relocs[j]), RELOCATION_SIZE))
  {
    hide Holds, Records;
    var front, last := relocs[..|relocs| - 1], relocs[|relocs| - 1];
    HoldsPart(file, start, RelocCells(front), Records(RelocRecords(last), RELOCATION_SIZE));
    if j < |front| {
      RelocsHeld(front, j, file, start);
      assert front[..j] == relocs[..j];
    }
  }

  /** A section's announced run is exactly its relocations. */
  lemma RelocationsRead(f: Final, file: Image, j: nat)
    requires f.Valid() && Regions(f, file) && j < |f.chunks|
    ensures RelocationsIn(file, SectionAt(f, j)) == Some(f.relocs[j])
  {
    hide Holds, Records, Commands, StrCells, DataCells, RelocCells, DataStart, Chunk.Cells, Chunk.Exp, RecordAt;
    var rs := f.relocs[j];
    if rs != [] {
      RelocsHeld(f.relocs, j, file, RelocStart(f));
      RecordsRoundTrip(file, SectionAt(f, j).reloff, RelocRecords(rs), RELOCATION_SIZE);
    }
    assert RelocationsIn(file, SectionAt(f, j)).value == rs;
  }

  lemma NextAddr(chunks: seq<Chunk>, j: nat)
    requires j < |chunks|
    ensures AddrOf(chunks, j + 1) == AddrOf(chunks, j) + |chunks[j].Cells()|
  {
    hide Chunk.Cells;
    assert chunks[..j + 1][..j] == chunks[..j];
  }

  ghost predicate Follows(a: Section, b: Section) {
    b.addr == a.addr + a.size && b.offset == a.offset + a.size
  }

  /** The sections tile the segment's data, in order and without gaps. */
  lemma SectionsTile(f: Final)
    requires f.Valid()
    ensures forall j :: 0 <= j < |f.chunks| - 1 ==> Follows(SectionsOf(f)[j], SectionsOf(f)[j + 1])
    ensures f.chunks != [] ==>
              var first, last := SectionsOf(f)[0], SectionsOf(f)[|f.chunks| - 1];
              && first.addr == 0 && first.offset == SegmentOf(f).fileoff
              && last.addr + last.size == SegmentOf(f).filesize
  {
    hide Chunk.Cells, Chunk.Exp, Chunk.SectName, Chunk.SegName, StrCells, RelocCells, DataStart, RelocStart, AddrOf;
    forall j | 0 <= j < |f.chunks| - 1
      ensures Follows(SectionsOf(f)[j], SectionsOf(f)[j + 1])
    {
      NextAddr(f.chunks, j);
    }
    EndAddrs(f.chunks);
    if f.chunks != [] {
      NextAddr(f.chunks, |f.chunks| - 1);
    }
  }

  lemma EndAddrs(chunks: seq<Chunk>)
    ensures AddrOf(chunks, 0) == 0 && AddrOf(chunks, |chunks|) == |DataCells(chunks)|
  {
    assert chunks[..|chunks|] == chunks;
  }

  /** The tables follow the data without gaps. */
  lemma TablesTile(f: Final)
    ensures SegmentOf(f).fileoff + SegmentOf(f).filesize == SymtabOf(f).symoff
    ensures SymtabOf(f).symoff + SymtabOf(f).nsyms * f.c.NlistSize() == SymtabOf(f).stroff
    ensures SymtabOf(f).stroff + SymtabOf(f).strsize == RelocStart(f)
  {
  }
}
