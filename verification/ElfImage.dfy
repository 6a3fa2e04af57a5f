/** The file an ELF builder's fields describe, region by region, and the proof
    that the reader gets back what the builder held. */
module ElfImage {
  import opened Collections
  import opened ObjectFile
  import opened ElfFormat

  datatype SectionInfo = SectionInfo(header: Shdr, symbol: Symbol, name: nat)

  datatype RelocGroup = RelocGroup(header: Shdr, relocs: seq<Relocation>)

  /** The fields of the builder. */
  datatype State = State(
    cls: Class,
    strings: seq<string>,
    offsets: map<nat, nat>,
    sizeofStrtab: nat,
    code: IndexMap<nat, seq<byte>>,
    sections: IndexMap<nat, SectionInfo>,
    symbols: IndexMap<nat, Symbol>,
    special: seq<Symbol>,
    relocations: IndexMap<nat, RelocGroup>,
    sizeofBits: nat,
    nsections: nat,
    nlocals: nat)

  // ----- the first pass: sizes and offsets -----

  function SymbolCount(e: State): nat {
    |e.symbols.values| + |e.special| + |e.sections.values|
  }

  function SizeofSymtab(e: State): nat {
    SymbolCount(e) * e.cls.SymSize()
  }

  function SizeofShndx(e: State, extended: bool): nat {
    if extended then SymbolCount(e) * 4 else 0
  }

  function RelocCount(groups: seq<RelocGroup>): nat {
    if groups == [] then 0
    else RelocCount(groups[..|groups| - 1]) + |groups[|groups| - 1].relocs|
  }

  function SymtabOffset(e: State): nat {
    AlignUp(e.sizeofBits + e.sizeofStrtab, e.cls.Ptr())
  }

  function ShndxOffset(e: State, extended: bool): nat {
    var end := SymtabOffset(e) + SizeofSymtab(e);
    if extended then AlignUp(end, 4) else end
  }

  function RelocOffset(e: State, extended: bool): nat {
    AlignUp(ShndxOffset(e, extended) + SizeofShndx(e, extended), e.cls.Ptr())
  }

  function ShOffset(e: State, extended: bool): nat {
    AlignUp(RelocOffset(e, extended) + RelocCount(e.relocations.values) * e.cls.RelaSize(), e.cls.Ptr())
  }

  // ----- the regions -----

  function HeaderOf(e: State, extended: bool): Ehdr {
    Ehdr(ShOffset(e, extended), if e.nsections >= SHN_LORESERVE then 0 else e.nsections, STRTAB_LINK)
  }

  function StrtabBody(strings: seq<string>): Image {
    if strings == [] then []
    else StrtabBody(strings[..|strings| - 1]) + Text(strings[|strings| - 1]) + [Byte(0)]
  }

  function Strtab(strings: seq<string>): (r: Image)
    ensures |r| > 0
  {
    [Byte(0)] + StrtabBody(strings)
  }

  function SectionSymbols(sections: seq<SectionInfo>): (r: seq<Symbol>)
    ensures |r| == |sections| && forall i :: 0 <= i < |r| ==> r[i] == sections[i].symbol
  {
    seq(|sections|, i requires 0 <= i < |sections| => sections[i].symbol)
  }

  /** The symbol table as built, with true section indices. */
  function BuiltSymbols(e: State): (r: seq<Symbol>)
    ensures |r| == SymbolCount(e)
  {
    e.special + SectionSymbols(e.sections.values) + e.symbols.values
  }

  function Escape(s: Symbol): Symbol {
    if s.shndx >= SHN_LORESERVE then s.(shndx := SHN_XINDEX) else s
  }

  function EscapeAll(ss: seq<Symbol>): (r: seq<Symbol>)
    ensures |r| == |ss| && forall i :: 0 <= i < |r| ==> r[i] == Escape(ss[i])
  {
    seq(|ss|, i requires 0 <= i < |ss| => Escape(ss[i]))
  }

  /** The symbol table as written: large indices escaped, special symbols raw. */
  function WrittenSymbols(e: State): (r: seq<Symbol>)
    ensures |r| == SymbolCount(e)
  {
    e.special + EscapeAll(SectionSymbols(e.sections.values)) + EscapeAll(e.symbols.values)
  }

  function Indices(ss: seq<Symbol>): (r: seq<nat>)
    ensures |r| == |ss| && forall i :: 0 <= i < |r| ==> r[i] == ss[i].shndx
  {
    seq(|ss|, i requires 0 <= i < |ss| => ss[i].shndx)
  }

  function RelaCells(cls: Class, groups: seq<RelocGroup>): Image {
    if groups == [] then []
    else
      var last := groups[|groups| - 1];
      RelaCells(cls, groups[..|groups| - 1]) + Records(RelaRecords(last.relocs), cls.RelaSize())
  }

  lemma Distributes(a: nat, b: nat, size: nat)
    ensures (a + b) * size == a * size + b * size
  {
  }

  lemma {:induction false} RelaCellsLength(cls: Class, groups: seq<RelocGroup>)
    ensures |RelaCells(cls, groups)| == RelocCount(groups) * cls.RelaSize()
  {
    if groups != [] {
      var front, last := groups[..|groups| - 1], groups[|groups| - 1];
      RelaCellsLength(cls, front);
      Distributes(RelocCount(front), |last.relocs|, cls.RelaSize());
    }
  }

  function SizeSum(groups: seq<RelocGroup>): nat {
    if groups == [] then 0 else SizeSum(groups[..|groups| - 1]) + groups[|groups| - 1].header.size
  }

  /** Each group's header is given the running sum of announced sizes. */
  function RelaHeaders(groups: seq<RelocGroup>, start: nat): (r: seq<Shdr>)
    ensures |r| == |groups|
  {
    seq(|groups|, i requires 0 <= i < |groups| => groups[i].header.(offset := start + SizeSum(groups[..i])))
  }

  function SectionHeadersOf(sections: seq<SectionInfo>): (r: seq<Shdr>)
    ensures |r| == |sections| && forall i :: 0 <= i < |r| ==> r[i] == sections[i].header
  {
    seq(|sections|, i requires 0 <= i < |sections| => sections[i].header)
  }

  /** The string-table offset recorded for `s`. */
  function OffsetOf(strings: seq<string>, offsets: map<nat, nat>, s: string): nat {
    match IndexOf(strings, s)
    case Some(i) => if i in offsets then offsets[i] else 0
    case None => 0
  }

  function NullHeaderOf(e: State): Shdr {
    if e.nsections >= SHN_LORESERVE then NullHeader.(size := e.nsections) else NullHeader
  }

  function StrtabHeader(e: State): Shdr {
    CreateSection(e.cls, StrTab, e.sizeofStrtab, if 0 in e.offsets then e.offsets[0] else 0).(offset := e.sizeofBits)
  }

  function SymtabHeader(e: State): Shdr {
    CreateSection(e.cls, SymTab, SizeofSymtab(e), if 1 in e.offsets then e.offsets[1] else 0).(
      offset := SymtabOffset(e), link := 1, info := |e.special| + |e.sections.values| + e.nlocals)
  }

  function ShndxHeaders(e: State, extended: bool): (r: seq<Shdr>)
    ensures |r| == if extended then 1 else 0
  {
    if !extended then []
    else [CreateSection(e.cls, SymTabShndx, SizeofShndx(e, extended), OffsetOf(e.strings, e.offsets, ".symtab_shndx")).(
            link := 2, offset := ShndxOffset(e, extended))]
  }

  function SectionHeaders(e: State, extended: bool): seq<Shdr> {
    [NullHeaderOf(e), StrtabHeader(e), SymtabHeader(e)]
    + SectionHeadersOf(e.sections.values)
    + ShndxHeaders(e, extended)
    + RelaHeaders(e.relocations.values, RelocOffset(e, extended))
    + [NoteHeader(e)]
  }

  function NoteHeader(e: State): (r: Shdr)
    ensures r.typ == ProgBits
  {
    CreateSection(e.cls, ProgBits, 0, OffsetOf(e.strings, e.offsets, ".note.GNU-stack"))
  }

  // ----- the second pass: the file after each region -----

  function AfterCode(e: State, extended: bool): Image {
    Encode(EhdrRecord(HeaderOf(e, extended)), e.cls.EhdrSize()) + Bytes(Flatten(e.code.values))
  }

  function AfterStrtab(e: State, extended: bool): Image {
    Overwrite(AfterCode(e, extended), e.sizeofBits, Strtab(e.strings))
  }

  function AfterSymtab(e: State, extended: bool): Image {
    Overwrite(AfterStrtab(e, extended), SymtabOffset(e), Records(SymRecords(WrittenSymbols(e)), e.cls.SymSize()))
  }

  function AfterShndx(e: State, extended: bool): Image {
    if extended
    then Overwrite(AfterSymtab(e, extended), ShndxOffset(e, extended),
                   Records(WordRecords(Indices(BuiltSymbols(e))), 4))
    else AfterSymtab(e, extended)
  }

  function AfterRelocs(e: State, extended: bool): Image {
    Overwrite(AfterShndx(e, extended), RelocOffset(e, extended), RelaCells(e.cls, e.relocations.values))
  }

  function Whole(e: State, extended: bool): Image {
    Overwrite(AfterRelocs(e, extended), ShOffset(e, extended),
              Records(ShdrRecords(SectionHeaders(e, extended)), e.cls.ShdrSize()))
  }

  // ----- growing the regions by one element -----

  lemma FlattenSnoc(pieces: seq<seq<byte>>, i: nat)
    requires i < |pieces|
    ensures Bytes<Record>(Flatten(pieces[..i + 1])) == Bytes(Flatten(pieces[..i])) + Bytes(pieces[i])
  {
    assert pieces[..i + 1][..i] == pieces[..i];
  }

  lemma FlattenNothing()
    ensures Bytes<Record>(Flatten<byte>([])) == []
  {
  }

  lemma StrtabSnoc(strings: seq<string>, i: nat)
    requires i < |strings|
    ensures Strtab(strings[..i + 1]) == Strtab(strings[..i]) + Text(strings[i]) + [Byte(0)]
  {
    assert strings[..i + 1][..i] == strings[..i];
  }

  lemma RecordsSnoc<R>(rs: seq<R>, r: R, size: nat)
    ensures Records(rs + [r], size) == Records(rs, size) + Encode(r, size)
  {
  }

  lemma ThreeBatches(e: State)
    ensures var secs := SectionSymbols(e.sections.values);
            && WrittenSymbols(e) == e.special + EscapeAll(secs) + EscapeAll(e.symbols.values)
            && Indices(BuiltSymbols(e)) == [] + Indices(e.special) + Indices(secs) + Indices(e.symbols.values)
            && [] + e.special == e.special && [] + Indices(e.special) == Indices(e.special)
  {
  }

  lemma SymtabSize(e: State)
    ensures SizeofSymtab(e) == |WrittenSymbols(e)| * e.cls.SymSize()
  {
  }

  lemma NothingWritten(cells: Image, start: nat, size: nat)
    ensures Overwrite(cells, start, Records(SymRecords([]), size)) == cells
    ensures Records(WordRecords([]), 4) == []
  {
  }

  lemma SymbolsSnoc(ss: seq<Symbol>, s: Symbol, size: nat)
    ensures Records(SymRecords(ss + [s]), size) == Records(SymRecords(ss), size) + Encode(SymRecord(s), size)
    ensures |ss + [s]| * size == |ss| * size + size
  {
    assert SymRecords(ss + [s]) == SymRecords(ss) + [SymRecord(s)];
    RecordsSnoc(SymRecords(ss), SymRecord(s), size);
  }

  lemma WordsSnoc(ws: seq<nat>, w: nat)
    ensures Records(WordRecords(ws + [w]), 4) == Records(WordRecords(ws), 4) + Encode(WordRecord(w), 4)
  {
    assert WordRecords(ws + [w]) == WordRecords(ws) + [WordRecord(w)];
    RecordsSnoc(WordRecords(ws), WordRecord(w), 4);
  }

  lemma RelocsSnoc(relocs: seq<Relocation>, i: nat, size: nat, before: Image)
    requires i < |relocs|
    ensures before + Records(RelaRecords(relocs[..i + 1]), size)
            == before + Records(RelaRecords(relocs[..i]), size) + Encode(RelaRecord(relocs[i]), size)
  {
    assert RelaRecords(relocs[..i + 1]) == RelaRecords(relocs[..i]) + [RelaRecord(relocs[i])];
    RecordsSnoc(RelaRecords(relocs[..i]), RelaRecord(relocs[i]), size);
  }

  lemma HeadersSnoc(hs: seq<Shdr>, i: nat, size: nat)
    requires i < |hs|
    ensures Records(ShdrRecords(hs[..i + 1]), size) ==
            Records(ShdrRecords(hs[..i]), size) + Encode(ShdrRecord(hs[i]), size)
  {
    assert ShdrRecords(hs[..i + 1]) == ShdrRecords(hs[..i]) + [ShdrRecord(hs[i])];
    RecordsSnoc(ShdrRecords(hs[..i]), ShdrRecord(hs[i]), size);
  }

  lemma RelaHeadersSnoc(groups: seq<RelocGroup>, i: nat, start: nat)
    requires i < |groups|
    ensures RelaHeaders(groups[..i + 1], start)
            == RelaHeaders(groups[..i], start) + [groups[i].header.(offset := start + SizeSum(groups[..i]))]
    ensures SizeSum(groups[..i + 1]) == SizeSum(groups[..i]) + groups[i].header.size
  {
    assert groups[..i + 1][..i] == groups[..i];
    assert forall j :: 0 <= j <= i ==> groups[..i + 1][..j] == groups[..j];
    assert forall j :: 0 <= j < i ==> groups[..i][..j] == groups[..j];
  }

  /** The two layout assertions that depend on separately kept counters: the code
      ends where the string table was computed to start, and the string table ends
      where the symbol table was computed to start. */
  predicate Agrees(e: State) {
    && e.cls.EhdrSize() + |Flatten(e.code.values)| == e.sizeofBits
    && AlignUp(e.sizeofBits + |Strtab(e.strings)|, e.cls.Ptr()) == SymtabOffset(e)
  }

  /** The whole file, region by region, at the offsets of the first pass. */
  ghost predicate Regions(e: State, extended: bool, file: Image) {
    && Holds(file, 0, Encode(EhdrRecord(HeaderOf(e, extended)), e.cls.EhdrSize()))
    && Holds(file, e.cls.EhdrSize(), Bytes(Flatten(e.code.values)))
    && Holds(file, e.sizeofBits, Strtab(e.strings))
    && Holds(file, SymtabOffset(e), Records(SymRecords(WrittenSymbols(e)), e.cls.SymSize()))
    && (extended ==> Holds(file, ShndxOffset(e, extended), Records(WordRecords(Indices(BuiltSymbols(e))), 4)))
    && Holds(file, RelocOffset(e, extended), RelaCells(e.cls, e.relocations.values))
    && Holds(file, ShOffset(e, extended), Records(ShdrRecords(SectionHeaders(e, extended)), e.cls.ShdrSize()))
    && |file| == ShOffset(e, extended) + |SectionHeaders(e, extended)| * e.cls.ShdrSize()
  }

  /** The regions follow one another without overlap, aligned where readers ask. */
  ghost predicate Ordered(e: State, extended: bool) {
    && e.cls.EhdrSize() + |Flatten(e.code.values)| == e.sizeofBits
    && e.sizeofBits + |Strtab(e.strings)| <= SymtabOffset(e)
    && SymtabOffset(e) + SizeofSymtab(e) <= ShndxOffset(e, extended)
    && ShndxOffset(e, extended) + SizeofShndx(e, extended) <= RelocOffset(e, extended)
    && RelocOffset(e, extended) + RelocCount(e.relocations.values) * e.cls.RelaSize() <= ShOffset(e, extended)
    && SymtabOffset(e) % e.cls.Ptr() == 0
    && RelocOffset(e, extended) % e.cls.Ptr() == 0
    && ShOffset(e, extended) % e.cls.Ptr() == 0
    && (extended ==> ShndxOffset(e, extended) % 4 == 0)
  }

  lemma OffsetsOrdered(e: State, extended: bool)
    requires Agrees(e)
    ensures Ordered(e, extended)
  {
  }

  lemma StageLengths(e: State, extended: bool)
    requires Agrees(e) && e.special != []
    ensures |AfterCode(e, extended)| == e.sizeofBits
    ensures |AfterStrtab(e, extended)| == e.sizeofBits + |Strtab(e.strings)|
    ensures |AfterSymtab(e, extended)| == SymtabOffset(e) + SizeofSymtab(e)
    ensures |AfterShndx(e, extended)| == ShndxOffset(e, extended) + SizeofShndx(e, extended)
    ensures |AfterRelocs(e, extended)| <= RelocOffset(e, extended) + RelocCount(e.relocations.values) * e.cls.RelaSize()
  {
    OffsetsOrdered(e, extended);
    OverwriteHolds(AfterCode(e, extended), e.sizeofBits, Strtab(e.strings));
    assert SymbolCount(e) > 0;
    NonEmptyRecords(SymRecords(WrittenSymbols(e)), e.cls.SymSize());
    OverwriteHolds(AfterStrtab(e, extended), SymtabOffset(e), Records(SymRecords(WrittenSymbols(e)), e.cls.SymSize()));
    if extended {
      OverwriteHolds(AfterSymtab(e, extended), ShndxOffset(e, extended),
                     Records(WordRecords(Indices(BuiltSymbols(e))), 4));
    }
    OverwriteHolds(AfterShndx(e, extended), RelocOffset(e, extended), RelaCells(e.cls, e.relocations.values));
    RelaCellsLength(e.cls, e.relocations.values);
  }

  lemma NonEmptyRecords<R>(rs: seq<R>, size: nat)
    requires rs != [] && size > 0
    ensures Records(rs, size) != []
  {
  }

  lemma EarlyStages(e: State, extended: bool)
    requires Agrees(e) && e.special != []
    ensures AfterCode(e, extended) <= AfterStrtab(e, extended) <= AfterSymtab(e, extended)
    ensures Holds(AfterStrtab(e, extended), e.sizeofBits, Strtab(e.strings))
    ensures Holds(AfterSymtab(e, extended), SymtabOffset(e), Records(SymRecords(WrittenSymbols(e)), e.cls.SymSize()))
  {
    StageLengths(e, extended);
    OffsetsOrdered(e, extended);
    OverwriteHolds(AfterCode(e, extended), e.sizeofBits, Strtab(e.strings));
    NonEmptyRecords(SymRecords(WrittenSymbols(e)), e.cls.SymSize());
    OverwriteHolds(AfterStrtab(e, extended), SymtabOffset(e), Records(SymRecords(WrittenSymbols(e)), e.cls.SymSize()));
  }

  lemma LateStages(e: State, extended: bool)
    requires Agrees(e) && e.special != []
    ensures AfterSymtab(e, extended) <= AfterShndx(e, extended) <= AfterRelocs(e, extended) <= Whole(e, extended)
    ensures extended ==>
              Holds(AfterShndx(e, extended), ShndxOffset(e, extended),
                    Records(WordRecords(Indices(BuiltSymbols(e))), 4))
    ensures RelaCells(e.cls, e.relocations.values) == [] ||
              Holds(AfterRelocs(e, extended), RelocOffset(e, extended), RelaCells(e.cls, e.relocations.values))
  {
    StageLengths(e, extended);
    OffsetsOrdered(e, extended);
    if extended {
      NonEmptyRecords(WordRecords(Indices(BuiltSymbols(e))), 4);
      OverwriteHolds(AfterSymtab(e, extended), ShndxOffset(e, extended),
                     Records(WordRecords(Indices(BuiltSymbols(e))), 4));
    }
    OverwriteHolds(AfterShndx(e, extended), RelocOffset(e, extended), RelaCells(e.cls, e.relocations.values));
    OverwriteHolds(AfterRelocs(e, extended), ShOffset(e, extended),
                   Records(ShdrRecords(SectionHeaders(e, extended)), e.cls.ShdrSize()));
  }

  lemma SomeHeader(e: State, extended: bool)
    ensures |SectionHeaders(e, extended)| > 0
  {
    hide SectionHeadersOf, ShndxHeaders, RelaHeaders, NoteHeader, StrtabHeader, SymtabHeader, NullHeaderOf;
  }

  lemma LastStage(e: State, extended: bool)
    requires Agrees(e) && e.special != []
    ensures Holds(Whole(e, extended), ShOffset(e, extended),
                  Records(ShdrRecords(SectionHeaders(e, extended)), e.cls.ShdrSize()))
    ensures |Whole(e, extended)| == ShOffset(e, extended) + |SectionHeaders(e, extended)| * e.cls.ShdrSize()
    ensures RelocOffset(e, extended) <= ShOffset(e, extended)
  {
    hide Agrees, Holds, Overwrite, Records, SectionHeaders, AfterRelocs, RelocOffset, ShOffset;
    SomeHeader(e, extended);
    StageLengths(e, extended);
    OffsetsOrdered(e, extended);
    NonEmptyRecords(ShdrRecords(SectionHeaders(e, extended)), e.cls.ShdrSize());
    OverwriteHolds(AfterRelocs(e, extended), ShOffset(e, extended),
                   Records(ShdrRecords(SectionHeaders(e, extended)), e.cls.ShdrSize()));
  }

  lemma FirstStage(e: State, extended: bool, later: Image)
    requires AfterCode(e, extended) <= later
    ensures Holds(later, 0, Encode(EhdrRecord(HeaderOf(e, extended)), e.cls.EhdrSize()))
    ensures Holds(later, e.cls.EhdrSize(), Bytes(Flatten(e.code.values)))
  {
  }

  /** When the counters agree, the writer's output holds every region, each at the
      offset computed for it beforehand, and ends with the section headers. */
  lemma WholeHasRegions(e: State, extended: bool)
    requires Agrees(e) && e.special != []
    ensures Regions(e, extended, Whole(e, extended))
  {
    hide Whole, AfterCode, AfterStrtab, AfterSymtab, AfterShndx, AfterRelocs, Strtab, RelaCells, SectionHeaders,
      SymtabOffset, ShndxOffset, ShOffset, RelocOffset, WrittenSymbols, BuiltSymbols, HeaderOf, Agrees;
    var whole := Whole(e, extended);
    EarlyStages(e, extended);
    LateStages(e, extended);
    LastStage(e, extended);
    FirstStage(e, extended, whole);
    HoldsLater(AfterStrtab(e, extended), whole, e.sizeofBits, Strtab(e.strings));
    HoldsLater(AfterSymtab(e, extended), whole, SymtabOffset(e),
               Records(SymRecords(WrittenSymbols(e)), e.cls.SymSize()));
    if extended {
      HoldsLater(AfterShndx(e, extended), whole, ShndxOffset(e, extended),
                 Records(WordRecords(Indices(BuiltSymbols(e))), 4));
    }
    if RelaCells(e.cls, e.relocations.values) != [] {
      HoldsLater(AfterRelocs(e, extended), whole, RelocOffset(e, extended), RelaCells(e.cls, e.relocations.values));
    }
  }

  // ----- reading it back -----

  /** Section headers have types a reader cannot mistake for a table. */
  ghost predicate PlainSections(e: State) {
    && (forall i :: 0 <= i < |e.sections.values| ==> e.sections.values[i].header.typ in {ProgBits, NoBits})
    && (forall i :: 0 <= i < |e.relocations.values| ==> e.relocations.values[i].header.typ == Rela)
  }

  /** Both sides of SHN_LORESERVE decode to the builder's section counter. */
  lemma SectionCountDecodes(e: State, extended: bool, file: Image)
    requires Regions(e, extended, file) && e.nsections > 0
    ensures EhdrOf(e.cls, file) == Some(HeaderOf(e, extended))
    ensures SectionCount(e.cls, file) == Some(e.nsections)
  {
    var ehdr := EhdrRecord(HeaderOf(e, extended));
    assert Records([ehdr], e.cls.EhdrSize()) == Encode(ehdr, e.cls.EhdrSize());
    RecordsRoundTrip(file, 0, [ehdr], e.cls.EhdrSize());
    FirstRecord(file, 0, [ehdr], e.cls.EhdrSize());
    var hs := SectionHeaders(e, extended);
    assert hs[0] == NullHeaderOf(e);
    RecordsRoundTrip(file, ShOffset(e, extended), ShdrRecords(hs), e.cls.ShdrSize());
    FirstRecord(file, ShOffset(e, extended), ShdrRecords(hs), e.cls.ShdrSize());
  }

  lemma {:induction false} FirstRecord<R>(file: File<R>, off: nat, rs: seq<R>, size: nat)
    requires rs != [] && RecordsAt(file, off, |rs|, size) == Some(rs)
    ensures RecordAt(file, off, size) == Some(rs[0])
  {
    if |rs| > 1 {
      FirstRecord(file, off, rs[..|rs| - 1], size);
    } else {
      assert RecordsAt(file, off, 0, size) == Some([]);
    }
  }

  lemma TypesFound(e: State, extended: bool)
    requires PlainSections(e)
    ensures IndexOf(Types(SectionHeaders(e, extended)), SymTab) == Some(2)
    ensures IndexOf(Types(SectionHeaders(e, extended)), SymTabShndx)
            == if extended then Some(FIRST_SECTION + |e.sections.values|) else None
  {
    var hs := SectionHeaders(e, extended);
    var n := |e.sections.values|;
    var ts := Types(hs);
    assert ts[0] == ShtNull && ts[1] == StrTab && ts[2] == SymTab;
    forall i | 0 <= i < |hs| && i != 2
      ensures ts[i] != SymTab
      ensures ts[i] == SymTabShndx <==> extended && i == 3 + n
    {
      if 3 <= i < 3 + n {
        assert hs[i] == e.sections.values[i - 3].header;
      } else if i > 3 + n + |ShndxHeaders(e, extended)| - 1 && i >= 3 && i < |hs| - 1 {
        var g := i - 3 - n - |ShndxHeaders(e, extended)|;
        assert hs[i] == RelaHeaders(e.relocations.values, RelocOffset(e, extended))[g];
      }
    }
    First(ts, 2);
    if extended {
      First(ts, 3 + n);
    }
  }

  lemma First<T>(s: seq<T>, i: nat)
    requires i < |s| && forall j :: 0 <= j < |s| && j != i ==> s[j] != s[i]
    ensures IndexOf(s, s[i]) == Some(i)
  {
  }

  /** The reader recovers every header, the symbol table and the index table. */
  lemma ParseWhole(e: State, extended: bool, file: Image)
    requires Regions(e, extended, file) && PlainSections(e) && e.special != []
    requires e.nsections == |SectionHeaders(e, extended)|
    ensures Parse(e.cls, file) ==
            Some(Parsed(SectionHeaders(e, extended), STRTAB_LINK, SYMTAB_LINK, WrittenSymbols(e),
                        if extended then Some(Indices(BuiltSymbols(e))) else None))
  {
    hide Regions, SectionHeaders, WrittenSymbols, BuiltSymbols, Indices, Holds, ShOffset, SymtabOffset, ShndxOffset,
      SymbolsIn, WordsIn, IndexOf, PlainSections, Headers;
    var hs := SectionHeaders(e, extended);
    TablesHeld(e, extended, file);
    HeadersRead(e, extended, file);
    TypesFound(e, extended);
    SymbolsRead(e.cls, file, hs[2], WrittenSymbols(e));
    if extended {
      WordsRead(file, hs[3 + |e.sections.values|], Indices(BuiltSymbols(e)));
    }
  }

  lemma HeadersRead(e: State, extended: bool, file: Image)
    requires Regions(e, extended, file) && e.nsections == |SectionHeaders(e, extended)| > 0
    ensures Headers(e.cls, file) == Some(SectionHeaders(e, extended))
    ensures EhdrOf(e.cls, file).Some? && EhdrOf(e.cls, file).value.shstrndx == STRTAB_LINK
  {
    hide SectionHeaders, WrittenSymbols, BuiltSymbols, Strtab, RelaCells, ShOffset, RecordsAt, Holds;
    var hs := SectionHeaders(e, extended);
    SectionCountDecodes(e, extended, file);
    RecordsRoundTrip(file, ShOffset(e, extended), ShdrRecords(hs), e.cls.ShdrSize());
    assert Headers(e.cls, file).value == hs;
  }

  /** The headers of the symbol table and of the index table lead to those tables. */
  lemma TablesHeld(e: State, extended: bool, file: Image)
    requires Regions(e, extended, file)
    ensures var hs := SectionHeaders(e, extended);
            && |hs| > 3 + |e.sections.values|
            && hs[2].entsize == e.cls.SymSize() && hs[2].size == |WrittenSymbols(e)| * e.cls.SymSize()
            && Holds(file, hs[2].offset, Records(SymRecords(WrittenSymbols(e)), e.cls.SymSize()))
            && (extended ==>
                  && hs[3 + |e.sections.values|].link == 2
                  && hs[3 + |e.sections.values|].size == |Indices(BuiltSymbols(e))| * 4
                  && Holds(file, hs[3 + |e.sections.values|].offset, Records(WordRecords(Indices(BuiltSymbols(e))), 4)))
  {
    hide Holds, Records, Strtab, RelaCells, ShOffset, SymtabOffset, ShndxOffset, RelocOffset, RelaHeaders, HeaderOf;
    assert SectionHeaders(e, extended)[2] == SymtabHeader(e);
    if extended {
      assert SectionHeaders(e, extended)[3 + |e.sections.values|] == ShndxHeaders(e, extended)[0];
    }
  }

  lemma SymbolsRead(cls: Class, file: Image, h: Shdr, ss: seq<Symbol>)
    requires h.entsize == cls.SymSize() && h.size == |ss| * cls.SymSize()
    requires Holds(file, h.offset, Records(SymRecords(ss), cls.SymSize()))
    ensures SymbolsIn(cls, file, h) == Some(ss)
  {
    DivMultiple(|ss|, cls.SymSize());
    RecordsRoundTrip(file, h.offset, SymRecords(ss), cls.SymSize());
    assert SymbolsIn(cls, file, h).value == ss;
  }

  lemma WordsRead(file: Image, h: Shdr, ws: seq<nat>)
    requires h.size == |ws| * 4
    requires Holds(file, h.offset, Records(WordRecords(ws), 4))
    ensures WordsIn(file, h) == Some(ws)
  {
    hide Holds, Records, RecordsAt;
    RecordsRoundTrip(file, h.offset, WordRecords(ws), 4);
    assert WordsIn(file, h).value == ws;
  }

  ghost predicate GroupsSized(cls: Class, groups: seq<RelocGroup>) {
    forall i :: 0 <= i < |groups| ==>
      groups[i].header.entsize == cls.RelaSize() && groups[i].header.size == |groups[i].relocs| * cls.RelaSize()
  }

  lemma {:induction false} AnnouncedSizes(cls: Class, groups: seq<RelocGroup>)
    requires GroupsSized(cls, groups)
    ensures SizeSum(groups) == |RelaCells(cls, groups)|
  {
    if groups != [] {
      AnnouncedSizes(cls, groups[..|groups| - 1]);
    }
  }

  lemma {:induction false} LastGroupCells(cls: Class, groups: seq<RelocGroup>, file: Image, start: nat)
    requires groups != []
    requires Holds(file, start, RelaCells(cls, groups))
    ensures Holds(file, start, RelaCells(cls, groups[..|groups| - 1]))
    ensures Holds(file, start + |RelaCells(cls, groups[..|groups| - 1])|,
                  Records(RelaRecords(groups[|groups| - 1].relocs), cls.RelaSize()))
  {
    HoldsPart(file, start, RelaCells(cls, groups[..|groups| - 1]),
              Records(RelaRecords(groups[|groups| - 1].relocs), cls.RelaSize()));
  }

  lemma {:induction false} EarlierGroupCells(cls: Class, groups: seq<RelocGroup>, k: nat, file: Image, start: nat)
    requires k <= |groups|
    requires Holds(file, start, RelaCells(cls, groups))
    ensures Holds(file, start, RelaCells(cls, groups[..k]))
  {
    if k < |groups| {
      LastGroupCells(cls, groups, file, start);
      EarlierGroupCells(cls, groups[..|groups| - 1], k, file, start);
      assert groups[..|groups| - 1][..k] == groups[..k];
    } else {
      assert groups[..k] == groups;
    }
  }

  lemma GroupCells(cls: Class, groups: seq<RelocGroup>, i: nat, file: Image, start: nat)
    requires GroupsSized(cls, groups) && i < |groups|
    requires Holds(file, start, RelaCells(cls, groups))
    ensures Holds(file, start + SizeSum(groups[..i]), Records(RelaRecords(groups[i].relocs), cls.RelaSize()))
  {
    EarlierGroupCells(cls, groups, i + 1, file, start);
    LastGroupCells(cls, groups[..i + 1], file, start);
    assert groups[..i + 1][..i] == groups[..i];
    AnnouncedSizes(cls, groups[..i]);
  }

  /** Relocation header number `i` announces exactly group `i`'s entries. */
  lemma GroupReads(e: State, extended: bool, file: Image, i: nat)
    requires Regions(e, extended, file) && GroupsSized(e.cls, e.relocations.values) && i < |e.relocations.values|
    ensures var h := RelaHeaders(e.relocations.values, RelocOffset(e, extended))[i];
            RelocationsIn(e.cls, file, h) == Some(e.relocations.values[i].relocs)
  {
    var h := RelaHeaders(e.relocations.values, RelocOffset(e, extended))[i];
    var rs := e.relocations.values[i].relocs;
    GroupCells(e.cls, e.relocations.values, i, file, RelocOffset(e, extended));
    DivMultiple(|rs|, e.cls.RelaSize());
    RecordsRoundTrip(file, h.offset, RelaRecords(rs), e.cls.RelaSize());
    assert RelocationsIn(e.cls, file, h).value == rs;
  }
}
