/** From an artifact's view to a Mach-O file. */
module MachEmit {
  import opened Collections
  import opened ObjectFile
  import opened Decls
  import opened MachFormat
  import opened MachSymbols
  import opened MachLayout
  import opened MachBuilder
  import opened MachRelocs
  import opened MachImage

  // ----- sorting the definitions into parts -----

  function BssTotal(defs: seq<Definition>): nat {
    if defs == [] then 0
    else
      var last := defs[|defs| - 1];
      BssTotal(defs[..|defs| - 1]) + if PartOf(last) == Some(BssPart) && last.data.ZeroInit? then last.data.size else 0
  }

  method Partition(defs: seq<Definition>)
    returns (code: seq<Definition>, data: seq<Definition>, bss: seq<Definition>, cstrings: seq<Definition>,
             sections: seq<Definition>, bssSize: nat)
    ensures code == Select(defs, Some(TextPart)) && data == Select(defs, Some(DataPart))
    ensures bss == Select(defs, Some(BssPart)) && cstrings == Select(defs, Some(CStringPart))
    ensures sections == Select(defs, None) && bssSize == BssTotal(defs)
  {
    code, data, bss, cstrings, sections, bssSize := [], [], [], [], [], 0;
    for k := 0 to |defs|
      invariant code == Select(defs[..k], Some(TextPart)) && data == Select(defs[..k], Some(DataPart))
      invariant bss == Select(defs[..k], Some(BssPart)) && cstrings == Select(defs[..k], Some(CStringPart))
      invariant sections == Select(defs[..k], None) && bssSize == BssTotal(defs[..k])
    {
      var d := defs[k];
      assert defs[..k + 1][..k] == defs[..k];
      match d.decl {
        case FunctionDecl(_, _, _) =>
          code := code + [d];
        case DataDecl(_, _, _, datatyp, _) =>
          if d.data.ZeroInit? {
            bss := bss + [d];
            bssSize := bssSize + d.data.size;
          } else if datatyp == CString {
            cstrings := cstrings + [d];
          } else {
            data := data + [d];
          }
        case SectionDecl(_, _, _) =>
          sections := sections + [d];
      }
    }
    assert defs[..|defs|] == defs;
  }

  lemma {:induction false} SelectMembers(defs: seq<Definition>, part: Option<Part>)
    ensures forall d :: d in Select(defs, part) <==> d in defs && PartOf(d) == part
  {
    if defs != [] {
      SelectMembers(defs[..|defs| - 1], part);
      assert defs == defs[..|defs| - 1] + [defs[|defs| - 1]];
    }
  }

  lemma {:induction false} SelectDistinct(defs: seq<Definition>, part: Option<Part>)
    requires Distinct(Names(defs))
    ensures Distinct(Names(Select(defs, part)))
  {
    hide PartOf;
    if defs != [] {
      var front, last := defs[..|defs| - 1], defs[|defs| - 1];
      assert Names(defs) == Names(front) + [last.name];
      DistinctPrefix(Names(front), [last.name]);
      SelectDistinct(front, part);
      var sel := Select(front, part);
      forall k | 0 <= k < |sel|
        ensures sel[k].name != last.name
      {
        SelectMembers(front, part);
        assert sel[k] in sel;
        var m :| 0 <= m < |front| && front[m] == sel[k];
        assert Names(front)[m] in Names(front);
      }
    }
  }

  /** Definitions of different parts have different names. */
  lemma PartsDiffer(defs: seq<Definition>, p: Option<Part>, q: Option<Part>, k: nat)
    requires Distinct(Names(defs)) && p != q && k < |Select(defs, p)|
    ensures Select(defs, p)[k].name !in Names(Select(defs, q))
  {
    hide Select, PartOf;
    SelectMembers(defs, p);
    SelectMembers(defs, q);
    var d := Select(defs, p)[k];
    assert d in Select(defs, p);
    var m :| 0 <= m < |defs| && defs[m] == d;
    forall n | 0 <= n < |Select(defs, q)|
      ensures Select(defs, q)[n].name != d.name
    {
      var e := Select(defs, q)[n];
      assert e in Select(defs, q);
      var o :| 0 <= o < |defs| && defs[o] == e;
      assert Names(defs)[m] == d.name && Names(defs)[o] == e.name && m != o;
    }
  }

  // ----- the padding map -----

  /** The recorded padding is right for every definition of a built-in section. */
  ghost predicate PadsRight(pads: map<string, nat>, defs: seq<Definition>, min: nat) {
    forall k :: 0 <= k < |defs| ==> defs[k].name in pads && pads[defs[k].name] == PadAfter(defs, k, min)
  }

  lemma PadsStay(pads: map<string, nat>, defs: seq<Definition>, min: nat, later: seq<Definition>, min': nat)
    requires PadsRight(pads, defs, min)
    requires forall k :: 0 <= k < |defs| ==> defs[k].name !in Names(later)
    ensures PadsRight(Pads(pads, later, |later|, min'), defs, min)
  {
    hide PadAfter, Pads;
    forall k | 0 <= k < |defs|
      ensures defs[k].name in Pads(pads, later, |later|, min')
      ensures Pads(pads, later, |later|, min')[defs[k].name] == PadAfter(defs, k, min)
    {
      PadsElsewhere(pads, later, |later|, min', defs[k].name);
    }
  }

  lemma PadsStart(pads: map<string, nat>, defs: seq<Definition>, min: nat)
    requires Distinct(Names(defs))
    ensures PadsRight(Pads(pads, defs, |defs|, min), defs, min)
  {
    hide PadAfter, Pads;
    forall k | 0 <= k < |defs|
      ensures defs[k].name in Pads(pads, defs, |defs|, min)
      ensures Pads(pads, defs, |defs|, min)[defs[k].name] == PadAfter(defs, k, min)
    {
      PadsExact(pads, defs, |defs|, min, k);
    }
  }

  function FourPads(text: seq<Definition>, data: seq<Definition>, cstrings: seq<Definition>,
                    bss: seq<Definition>): map<string, nat> {
    var a := Pads(map[], text, |text|, 4);
    var b := Pads(a, data, |data|, 3);
    var c := Pads(b, cstrings, |cstrings|, 0);
    Pads(c, bss, |bss|, 0)
  }

  lemma FourPadsRight(defs: seq<Definition>)
    requires Distinct(Names(defs))
    ensures var text, data := Select(defs, Some(TextPart)), Select(defs, Some(DataPart));
            var cstrings, bss := Select(defs, Some(CStringPart)), Select(defs, Some(BssPart));
            var pads := FourPads(text, data, cstrings, bss);
            && PadsRight(pads, text, 4) && PadsRight(pads, data, 3) && PadsRight(pads, cstrings, 0)
            && forall k :: 0 <= k < |Select(defs, None)| ==> Select(defs, None)[k].name !in pads
  {
    hide PadAfter, Pads, Select, PadsRight, Distinct;
    var text, data := Select(defs, Some(TextPart)), Select(defs, Some(DataPart));
    var cstrings, bss, custom := Select(defs, Some(CStringPart)), Select(defs, Some(BssPart)), Select(defs, None);
    SelectDistinct(defs, Some(TextPart));
    SelectDistinct(defs, Some(DataPart));
    SelectDistinct(defs, Some(CStringPart));
    Apart(defs, Some(TextPart), Some(DataPart));
    Apart(defs, Some(TextPart), Some(CStringPart));
    Apart(defs, Some(TextPart), Some(BssPart));
    Apart(defs, Some(DataPart), Some(CStringPart));
    Apart(defs, Some(DataPart), Some(BssPart));
    Apart(defs, Some(CStringPart), Some(BssPart));
    var a := Pads(map[], text, |text|, 4);
    var b := Pads(a, data, |data|, 3);
    var c := Pads(b, cstrings, |cstrings|, 0);
    PadsStart(map[], text, 4);
    PadsStay(a, text, 4, data, 3);
    PadsStart(a, data, 3);
    PadsStay(b, text, 4, cstrings, 0);
    PadsStay(b, data, 3, cstrings, 0);
    PadsStart(b, cstrings, 0);
    PadsStay(c, text, 4, bss, 0);
    PadsStay(c, data, 3, bss, 0);
    PadsStay(c, cstrings, 0, bss, 0);
    forall k | 0 <= k < |custom|
      ensures custom[k].name !in Pads(c, bss, |bss|, 0)
    {
      PartsDiffer(defs, None, Some(TextPart), k);
      PartsDiffer(defs, None, Some(DataPart), k);
      PartsDiffer(defs, None, Some(CStringPart), k);
      PartsDiffer(defs, None, Some(BssPart), k);
      PadsElsewhere(map[], text, |text|, 4, custom[k].name);
      PadsElsewhere(a, data, |data|, 3, custom[k].name);
      PadsElsewhere(b, cstrings, |cstrings|, 0, custom[k].name);
      PadsElsewhere(c, bss, |bss|, 0, custom[k].name);
    }
  }

  lemma Apart(defs: seq<Definition>, p: Option<Part>, q: Option<Part>)
    requires Distinct(Names(defs)) && p != q
    ensures forall k :: 0 <= k < |Select(defs, p)| ==> Select(defs, p)[k].name !in Names(Select(defs, q))
  {
    hide Select, Distinct;
    forall k | 0 <= k < |Select(defs, p)|
      ensures Select(defs, p)[k].name !in Names(Select(defs, q))
    {
      PartsDiffer(defs, p, q, k);
    }
  }

  // ----- symbols of the whole segment -----

  lemma {:induction false} AddedAllAppend(es: seq<Entry>, a: seq<Entry>, b: seq<Entry>)
    ensures AddedAll(AddedAll(es, a), b) == AddedAll(es, a + b)
  {
    hide Added;
    if b == [] {
      assert a + b == a;
    } else {
      AddedAllAppend(es, a, b[..|b| - 1]);
      assert (a + b)[..|a + b| - 1] == a + b[..|b| - 1];
    }
  }

  lemma EntriesSnoc(chunks: seq<Chunk>, c: Chunk)
    ensures EntriesOf(chunks + [c]) == EntriesOf(chunks) + ChunkEntries(c, |chunks|, |DataCells(chunks)|)
  {
  }

  /** The table holds what inserting the chunks' symbols in order leaves. */
  ghost predicate SymbolsInserted(entries: seq<Entry>, chunks: seq<Chunk>) {
    entries == AddedAll([], EntriesOf(chunks))
  }

  lemma ChunkInserted(entries: seq<Entry>, chunks: seq<Chunk>, c: Chunk)
    requires SymbolsInserted(entries, chunks)
    ensures SymbolsInserted(AddedAll(entries, ChunkEntries(c, |chunks|, |DataCells(chunks)|)), chunks + [c])
  {
    hide ChunkEntries, DataCells, EntriesOf, AddedAll;
    EntriesSnoc(chunks, c);
    AddedAllAppend([], EntriesOf(chunks), ChunkEntries(c, |chunks|, |DataCells(chunks)|));
  }

  /** `SegmentBuilder::new`. */
  method BuildSegment(c: Container, code: seq<Definition>, data: seq<Definition>, bss: seq<Definition>,
                      cstrings: seq<Definition>, custom: seq<Definition>, imports: seq<(string, ImportKind)>,
                      symtab: SymbolTable)
    returns (segment: SegmentBuilder)
    requires symtab.Valid() && symtab.entries == []
    requires forall d :: d in code || d in data || d in bss || d in cstrings ==> !d.decl.SectionDecl?
    requires forall k :: 0 <= k < |custom| ==> custom[k].decl.SectionDecl?
    modifies symtab
    ensures fresh(segment) && segment.Valid() && symtab.Valid() && segment.header == c.HeaderSize()
    ensures segment.chunks ==
            [BuiltIn(TextPart, code), BuiltIn(DataPart, data), BuiltIn(CStringPart, cstrings), BuiltIn(BssPart, bss)]
                              + CustomChunks(custom)
    ensures segment.alignPadMap == FourPads(code, data, cstrings, bss)
    ensures symtab.entries == AddedAll([], EntriesOf(segment.chunks) + ImportEntries(imports))
  {
    hide Inv, SectionsInv, DataCells, SectionEntries, Pads, AddedAll, EntriesOf, CustomEntries, SymbolsInserted,
      ChunkEntries;
    segment := new SegmentBuilder(c);
    NothingInserted();
    ChunkInserted([], [], BuiltIn(TextPart, code));
    segment.BuildSection(symtab, TextPart, 0, code);
    ChunkInserted(symtab.entries, segment.chunks, BuiltIn(DataPart, data));
    segment.BuildSection(symtab, DataPart, 1, data);
    ChunkInserted(symtab.entries, segment.chunks, BuiltIn(CStringPart, cstrings));
    segment.BuildSection(symtab, CStringPart, 2, cstrings);
    ChunkInserted(symtab.entries, segment.chunks, BuiltIn(BssPart, bss));
    segment.BuildSection(symtab, BssPart, 3, bss);
    ghost var four := segment.chunks;
    assert four ==
      [BuiltIn(TextPart, code), BuiltIn(DataPart, data), BuiltIn(CStringPart, cstrings), BuiltIn(BssPart, bss)];
    BuildCustoms(segment, symtab, custom);
    InsertImports(symtab, imports, segment.chunks);
  }

  lemma NothingInserted()
    ensures SymbolsInserted([], []) && |DataCells([])| == 0
  {
  }

  method BuildCustoms(segment: SegmentBuilder, symtab: SymbolTable, custom: seq<Definition>)
    requires segment.Valid() && symtab.Valid() && |segment.chunks| == NUM_DEFAULT_SECTIONS
    requires SymbolsInserted(symtab.entries, segment.chunks)
    requires forall k :: 0 <= k < |custom| ==> custom[k].decl.SectionDecl?
    modifies segment, symtab
    ensures segment.Valid() && symtab.Valid()
    ensures segment.chunks == old(segment.chunks) + CustomChunks(custom)
    ensures segment.alignPadMap == old(segment.alignPadMap)
    ensures SymbolsInserted(symtab.entries, segment.chunks)
  {
    hide Inv, SectionsInv, DataCells, AddedAll, EntriesOf, CustomEntries, SymbolsInserted, ChunkEntries;
    assert old(segment.chunks) + CustomChunks(custom[..0]) == old(segment.chunks);
    for k := 0 to |custom|
      invariant segment.Valid() && symtab.Valid()
      invariant segment.chunks == old(segment.chunks) + CustomChunks(custom[..k])
      invariant segment.alignPadMap == old(segment.alignPadMap)
      invariant SymbolsInserted(symtab.entries, segment.chunks)
    {
      ChunkInserted(symtab.entries, segment.chunks, Custom(custom[k]));
      segment.BuildCustomSection(symtab, k + NUM_DEFAULT_SECTIONS, custom[k]);
      assert old(segment.chunks) + CustomChunks(custom[..k]) + [Custom(custom[k])] ==
        old(segment.chunks) + CustomChunks(custom[..k + 1]);
    }
    assert custom[..|custom|] == custom;
  }

  method InsertImports(symtab: SymbolTable, imports: seq<(string, ImportKind)>, ghost chunks: seq<Chunk>)
    requires symtab.Valid() && SymbolsInserted(symtab.entries, chunks)
    modifies symtab
    ensures symtab.Valid() && symtab.entries == AddedAll([], EntriesOf(chunks) + ImportEntries(imports))
  {
    hide Inv, EntriesOf, Added;
    ghost var es := ImportEntries(imports);
    for k := 0 to |imports|
      invariant symtab.Valid()
      invariant symtab.entries == AddedAll(old(symtab.entries), es[..k])
    {
      symtab.Insert(imports[k].0, UndefinedSymbol);
      assert es[..k + 1][..k] == es[..k];
    }
    assert es[..|imports|] == es;
    AddedAllAppend([], EntriesOf(chunks), es);
  }

  // ----- writing -----

  /** The definitions of one part, each followed by its padding. */
  method WriteDefinitions(out: Output<Record>, defs: seq<Definition>, pads: map<string, nat>, ghost min: nat,
                          filler: int)
    requires out.pos == |out.cells| && PadsRight(pads, defs, min)
    modifies out
    ensures out.pos == |out.cells| && out.cells == old(out.cells) + CellsUpTo(defs, |defs|, min, filler)
  {
    hide PadAfter, OffsetAt, Overwrite, CellsUpTo, ContentsOf;
    CellsStart(defs, min, filler);
    for k := 0 to |defs|
      invariant out.pos == |out.cells| && out.cells == old(out.cells) + CellsUpTo(defs, k, min, filler)
    {
      ghost var before := out.cells;
      ContentsAre(defs[k]);
      if defs[k].data.Blob? {
        out.Write(Bytes(defs[k].data.bytes));
      }
      assert out.cells == before + ContentsOf(defs[k]);
      WritePadding(out, filler, pads[defs[k].name]);
      CellsStep(defs, k, min, filler);
      assert out.cells ==
        old(out.cells) +
          (CellsUpTo(defs, k, min, filler) + (ContentsOf(defs[k]) + Fill(filler, PadAfter(defs, k, min))));
    }
  }

  lemma CellsStart(defs: seq<Definition>, min: nat, filler: int)
    ensures CellsUpTo(defs, 0, min, filler) == []
  {
  }

  lemma CellsStep(defs: seq<Definition>, k: nat, min: nat, filler: int)
    requires k < |defs|
    ensures CellsUpTo(defs, k + 1, min, filler)
            == CellsUpTo(defs, k, min, filler) + (ContentsOf(defs[k]) + Fill(filler, PadAfter(defs, k, min)))
  {
  }

  method WritePadding(out: Output<Record>, filler: int, pad: nat)
    requires out.pos == |out.cells|
    modifies out
    ensures out.pos == |out.cells| && out.cells == old(out.cells) + Fill(filler, pad)
  {
    for n := 0 to pad
      invariant out.pos == |out.cells| && out.cells == old(out.cells) + Fill(filler, n)
    {
      out.Write([Byte(filler)]);
      FillSnoc(filler, n);
      assert out.cells == old(out.cells) + (Fill(filler, n) + [Byte(filler)]);
    }
  }

  lemma FillSnoc(value: int, n: nat)
    ensures Fill<Record>(value, n) + [Byte(value)] == Fill(value, n + 1)
  {
  }

  /** Custom sections; none of them has a recorded padding. */
  method WriteCustoms(out: Output<Record>, custom: seq<Definition>, pads: map<string, nat>, ghost before: seq<Chunk>)
    requires out.pos == |out.cells| && forall k :: 0 <= k < |custom| ==> custom[k].name !in pads
    modifies out
    ensures out.pos == |out.cells|
    ensures old(out.cells) == DataCells(before) ==> out.cells == DataCells(before + CustomChunks(custom))
    ensures out.cells == old(out.cells) + DataCells(CustomChunks(custom))
  {
    hide Overwrite, DataCells, ContentsOf;
    ConcatChunks(before, CustomChunks(custom));
    NoChunks();
    for k := 0 to |custom|
      invariant out.pos == |out.cells| && out.cells == old(out.cells) + DataCells(CustomChunks(custom[..k]))
    {
      ghost var cells := out.cells;
      if custom[k].data.Blob? {
        out.Write(Bytes(custom[k].data.bytes));
      }
      CustomCells(custom, k);
      assert out.cells == cells + ContentsOf(custom[k]) by { ContentsAre(custom[k]); }
      if custom[k].name in pads {
        assert false;
      }
    }
    assert custom[..|custom|] == custom;
  }

  lemma NoChunks()
    ensures DataCells([]) == []
  {
  }

  lemma ContentsAre(d: Definition)
    ensures ContentsOf(d) == if d.data.Blob? then Bytes(d.data.bytes) else []
  {
  }

  lemma CustomCells(custom: seq<Definition>, k: nat)
    requires k < |custom|
    ensures DataCells(CustomChunks(custom[..k + 1])) == DataCells(CustomChunks(custom[..k])) + ContentsOf(custom[k])
  {
    hide ContentsOf;
    assert CustomChunks(custom[..k + 1]) == CustomChunks(custom[..k]) + [Custom(custom[k])];
    DataCellsSnoc(CustomChunks(custom[..k]), Custom(custom[k]));
  }

  lemma {:induction false} ConcatChunks(a: seq<Chunk>, b: seq<Chunk>)
    ensures DataCells(a + b) == DataCells(a) + DataCells(b)
  {
    hide Chunk.Cells, DataCells;
    if b == [] {
      NoChunks();
      assert a + b == a;
    } else {
      var front, last := b[..|b| - 1], b[|b| - 1];
      ConcatChunks(a, front);
      DataCellsSnoc(a + front, last);
      DataCellsSnoc(front, last);
      assert a + b == (a + front) + [last] && b == front + [last];
    }
  }

  lemma {:induction false} BuiltInCells(text: seq<Definition>, data: seq<Definition>, cstrings: seq<Definition>)
    ensures BuiltIn(TextPart, text).Cells() == CellsUpTo(text, |text|, 4, 0xcc)
    ensures BuiltIn(DataPart, data).Cells() == CellsUpTo(data, |data|, 3, 0xaa)
    ensures BuiltIn(CStringPart, cstrings).Cells() == CellsUpTo(cstrings, |cstrings|, 0, 0xaa)
  {
  }

  lemma BssCells(bss: seq<Definition>)
    requires forall k :: 0 <= k < |bss| ==> bss[k].data.ZeroInit?
    ensures BuiltIn(BssPart, bss).Cells() == []
  {
    hide CellsUpTo, OffsetAt;
    BssIsEmpty(bss, |bss|);
  }

  lemma OneMoreChunk(chunks: seq<Chunk>, c: Chunk, all: seq<Chunk>)
    requires all == chunks + [c]
    ensures DataCells(all) == DataCells(chunks) + c.Cells()
  {
  }

  lemma FourCells(a: Chunk, b: Chunk, c: Chunk, d: Chunk)
    ensures DataCells([a, b, c, d]) == a.Cells() + b.Cells() + c.Cells() + d.Cells()
  {
    hide DataCells, Chunk.Cells;
    NoChunks();
    OneMoreChunk([], a, [a]);
    OneMoreChunk([a], b, [a, b]);
    OneMoreChunk([a, b], c, [a, b, c]);
    OneMoreChunk([a, b, c], d, [a, b, c, d]);
  }

  lemma {:induction false} FourChunks(text: seq<Definition>, data: seq<Definition>, cstrings: seq<Definition>,
                                      bss: seq<Definition>)
    requires forall k :: 0 <= k < |bss| ==> bss[k].data.ZeroInit?
    ensures DataCells([BuiltIn(TextPart, text), BuiltIn(DataPart, data), BuiltIn(CStringPart, cstrings),
                       BuiltIn(BssPart, bss)])
            == CellsUpTo(text, |text|, 4, 0xcc) + CellsUpTo(data, |data|, 3, 0xaa) +
              CellsUpTo(cstrings, |cstrings|, 0, 0xaa)
  {
    hide CellsUpTo, DataCells, Chunk.Cells;
    var a, b, c, d := BuiltIn(TextPart, text), BuiltIn(DataPart, data), BuiltIn(CStringPart, cstrings),
      BuiltIn(BssPart, bss);
    BuiltInCells(text, data, cstrings);
    BssCells(bss);
    FourCells(a, b, c, d);
    AppendNothing(a.Cells() + b.Cells() + c.Cells());
  }

  lemma AppendNothing<T>(s: seq<T>)
    ensures s + [] == s
  {
  }

  /** `Mach::write`'s data regions. */
  method WriteData(out: Output<Record>, segment: SegmentBuilder, code: seq<Definition>, data: seq<Definition>,
                   cstrings: seq<Definition>, custom: seq<Definition>, ghost bss: seq<Definition>)
    requires out.pos == |out.cells|
    requires PadsRight(segment.alignPadMap, code, 4) && PadsRight(segment.alignPadMap, data, 3)
    requires PadsRight(segment.alignPadMap, cstrings, 0)
    requires forall k :: 0 <= k < |custom| ==> custom[k].name !in segment.alignPadMap
    requires forall k :: 0 <= k < |bss| ==> bss[k].data.ZeroInit?
    requires segment.chunks ==
             [BuiltIn(TextPart, code), BuiltIn(DataPart, data), BuiltIn(CStringPart, cstrings), BuiltIn(BssPart, bss)]
                               + CustomChunks(custom)
    modifies out
    ensures out.pos == |out.cells| && out.cells == old(out.cells) + DataCells(segment.chunks)
  {
    hide PadsRight, CellsUpTo, DataCells;
    WriteDefinitions(out, code, segment.alignPadMap, 4, 0xcc);
    WriteDefinitions(out, data, segment.alignPadMap, 3, 0xaa);
    WriteDefinitions(out, cstrings, segment.alignPadMap, 0, 0xaa);
    ghost var four := [BuiltIn(TextPart, code), BuiltIn(DataPart, data), BuiltIn(CStringPart, cstrings),
                       BuiltIn(BssPart, bss)];
    FourChunks(code, data, cstrings, bss);
    ConcatChunks(four, CustomChunks(custom));
    ghost var middle := out.cells;
    assert middle == old(out.cells) + DataCells(four);
    WriteCustoms(out, custom, segment.alignPadMap, four);
    assert out.cells == old(out.cells) + (DataCells(four) + DataCells(CustomChunks(custom)));
  }

  method WriteNlists(out: Output<Record>, c: Container, symtab: SymbolTable)
    requires out.pos == |out.cells| && symtab.Valid()
    modifies out
    ensures out.pos == |out.cells|
    ensures out.cells == old(out.cells) + Records(NlistRecords(NlistsOf(symtab.entries)), c.NlistSize())
  {
    hide Inv, Records, StrCells, Overwrite, BuilderFor, CreateNlist;
    ghost var es := symtab.entries;
    ghost var ns := NlistsOf(es);
    TableShape(symtab.Fields(), es);
    NoRecords(c.NlistSize());
    for k := 0 to |symtab.symbols.values|
      invariant out.pos == |out.cells|
      invariant out.cells == old(out.cells) + Records(NlistRecords(ns[..k]), c.NlistSize())
    {
      var nlist := CreateNlist(symtab.symbols.values[k]);
      assert nlist == ns[k];
      out.Write(Encode(NlistRecord(nlist), c.NlistSize()));
      NlistsSnoc(ns, k, c.NlistSize());
      assert out.cells ==
        old(out.cells) + (Records(NlistRecords(ns[..k]), c.NlistSize()) + Encode(NlistRecord(ns[k]), c.NlistSize()));
    }
    assert ns[..|ns|] == ns;
  }

  /** All strings but the first, each after an underscore. */
  method WriteStrings(out: Output<Record>, symtab: SymbolTable)
    requires out.pos == |out.cells| && symtab.Valid()
    modifies out
    ensures out.pos == |out.cells| && out.cells == old(out.cells) + StrCells(EntryNames(symtab.entries))
  {
    hide Inv, StrCells, Overwrite, BuilderFor;
    ghost var names := EntryNames(symtab.entries);
    TableShape(symtab.Fields(), symtab.entries);
    StrNothing();
    out.Write([Byte(0)]);
    assert names[..0] == [];
    for k := 1 to |symtab.strtable|
      invariant out.pos == |out.cells|
      invariant out.cells == old(out.cells) + StrCells(names[..k - 1])
    {
      out.Write([Byte(0x5f)]);
      out.Write(Text(symtab.strtable[k]));
      out.Write([Byte(0)]);
      assert symtab.strtable[k] == names[k - 1];
      StrSnoc(names, k - 1);
      assert out.cells == old(out.cells) + (StrCells(names[..k - 1]) + ([Byte(0x5f)] + Text(names[k - 1]) + [Byte(0)]));
    }
    assert names[..|names|] == names;
  }

  method WriteSymbols(out: Output<Record>, c: Container, symtab: SymbolTable)
    requires out.pos == |out.cells| && symtab.Valid()
    modifies out
    ensures out.pos == |out.cells|
    ensures out.cells ==
            old(out.cells) + Records(NlistRecords(NlistsOf(symtab.entries)), c.NlistSize()) +
              StrCells(EntryNames(symtab.entries))
  {
    hide *;
    WriteNlists(out, c, symtab);
    WriteStrings(out, symtab);
  }

  lemma TableShape(t: Table, es: seq<Entry>)
    requires Inv(t, es)
    ensures |t.symbols.values| == |es| && t.strtable == [""] + EntryNames(es)
    ensures forall k :: 0 <= k < |es| ==> t.symbols.values[k] == BuilderFor(|StrCells(EntryNames(es)[..k])|, es[k].kind)
  {
  }

  lemma NoRecords(size: nat)
    ensures Records(NlistRecords([]), size) == []
  {
  }

  lemma NlistsSnoc(ns: seq<Nlist>, k: nat, size: nat)
    requires k < |ns|
    ensures Records(NlistRecords(ns[..k + 1]), size) ==
            Records(NlistRecords(ns[..k]), size) + Encode(NlistRecord(ns[k]), size)
  {
    var rs := NlistRecords(ns[..k + 1]);
    assert rs[..|rs| - 1] == NlistRecords(ns[..k]);
  }

  lemma StrNothing()
    ensures StrCells([]) == [Byte(0)]
  {
  }

  lemma StrSnoc(names: seq<string>, k: nat)
    requires k < |names|
    ensures StrCells(names[..k + 1]) == StrCells(names[..k]) + ([Byte(0x5f)] + Text(names[k]) + [Byte(0)])
  {
    assert names[..k + 1][..k] == names[..k];
    var under: Image := Text("_" + names[k]);
    assert under == [Byte(0x5f)] + Text(names[k]);
  }

  /** The relocations each section ended up with. */
  function RelocLists(bs: seq<SectionBuilder>): (r: seq<seq<RelocationInfo>>)
    ensures |r| == |bs| && forall j :: 0 <= j < |r| ==> r[j] == bs[j].relocations
  {
    seq(|bs|, j requires 0 <= j < |bs| => bs[j].relocations)
  }

  method WriteRelocations(out: Output<Record>, segment: SegmentBuilder)
    requires out.pos == |out.cells|
    modifies out
    ensures out.pos == |out.cells| && out.cells == old(out.cells) + RelocCells(RelocLists(segment.sections.values))
  {
    hide Records, Overwrite;
    ghost var lists := RelocLists(segment.sections.values);
    for j := 0 to |segment.sections.values|
      invariant out.pos == |out.cells| && out.cells == old(out.cells) + RelocCells(lists[..j])
    {
      WriteRun(out, segment.sections.values[j].relocations);
      assert lists[..j + 1][..j] == lists[..j];
      assert out.cells == old(out.cells) + (RelocCells(lists[..j]) + Records(RelocRecords(lists[j]), RELOCATION_SIZE));
    }
    assert lists[..|lists|] == lists;
  }

  method WriteRun(out: Output<Record>, rs: seq<RelocationInfo>)
    requires out.pos == |out.cells|
    modifies out
    ensures out.pos == |out.cells| && out.cells == old(out.cells) + Records(RelocRecords(rs), RELOCATION_SIZE)
  {
    hide Overwrite;
    for k := 0 to |rs|
      invariant out.pos == |out.cells| && out.cells == old(out.cells) + Records(RelocRecords(rs[..k]), RELOCATION_SIZE)
    {
      out.Write(Encode(RelocRecord(rs[k]), RELOCATION_SIZE));
      assert RelocRecords(rs[..k + 1])[..k] == RelocRecords(rs[..k]);
      assert out.cells ==
        old(out.cells) +
          (Records(RelocRecords(rs[..k]), RELOCATION_SIZE) + Encode(RelocRecord(rs[k]), RELOCATION_SIZE));
    }
    assert rs[..|rs|] == rs;
  }

  // ----- section headers -----

  function SizesBefore(bs: seq<SectionBuilder>, j: nat): nat
    requires j <= |bs|
  {
    if j == 0 then 0 else SizesBefore(bs, j - 1) + bs[j - 1].size
  }

  /** `SectionBuilder::create`: both offsets are running sums. */
  function HeaderFrom(bs: seq<SectionBuilder>, j: nat, first: nat, relocStart: nat): Section
    requires j < |bs|
  {
    var b := bs[j];
    var n := |b.relocations|;
    Section(b.sectname, b.segname, b.addr, b.size, first + SizesBefore(bs, j), b.align,
            if n == 0 then 0 else relocStart + |RelocCells(RelocLists(bs)[..j])|, n)
  }

  function HeadersFrom(bs: seq<SectionBuilder>, first: nat, relocStart: nat): (r: seq<Section>)
    ensures |r| == |bs| && forall j :: 0 <= j < |r| ==> r[j] == HeaderFrom(bs, j, first, relocStart)
  {
    seq(|bs|, j requires 0 <= j < |bs| => HeaderFrom(bs, j, first, relocStart))
  }

  /** Names are written into sixteen bytes; a longer one panics. */
  predicate NamesFit(bs: seq<SectionBuilder>) {
    forall j :: 0 <= j < |bs| ==> |bs[j].sectname| <= 16
  }

  method CreateSections(c: Container, bs: seq<SectionBuilder>, first: nat, relocStart: nat) returns (r: Option<Image>)
    ensures r.Some? <==> NamesFit(bs)
    ensures r.Some? ==> r.value == Records(SectionRecords(HeadersFrom(bs, first, relocStart)), c.SectionSize())
  {
    hide Records, RelocCells;
    var sectionOffset, relocationOffset := first, relocStart;
    var cells: Image := [];
    ghost var hs := HeadersFrom(bs, first, relocStart);
    NoSections(bs, hs, c.SectionSize());
    for j := 0 to |bs|
      invariant NamesFit(bs[..j])
      invariant sectionOffset == first + SizesBefore(bs, j)
      invariant relocationOffset == relocStart + |RelocCells(RelocLists(bs)[..j])|
      invariant cells == Records(SectionRecords(hs[..j]), c.SectionSize())
    {
      var b := bs[j];
      if |b.sectname| > 16 {
        return None;
      }
      var n := |b.relocations|;
      var section := Section(b.sectname, b.segname, b.addr, b.size, sectionOffset, b.align,
                             if n == 0 then 0 else relocationOffset, n);
      sectionOffset := sectionOffset + b.size;
      RunLength(bs, j);
      if n != 0 {
        relocationOffset := relocationOffset + n * RELOCATION_SIZE;
      }
      assert section == hs[j];
      SectionsSnoc(hs, j, c.SectionSize());
      cells := cells + Encode(SectionRecord(section), c.SectionSize());
    }
    assert hs[..|bs|] == hs && bs[..|bs|] == bs;
    r := Some(cells);
  }

  lemma NoSections(bs: seq<SectionBuilder>, hs: seq<Section>, size: nat)
    ensures Records(SectionRecords(hs[..0]), size) == [] && |RelocCells(RelocLists(bs)[..0])| == 0
  {
  }

  lemma RunLength(bs: seq<SectionBuilder>, j: nat)
    requires j < |bs|
    ensures |RelocCells(RelocLists(bs)[..j + 1])| ==
            |RelocCells(RelocLists(bs)[..j])| + |bs[j].relocations| * RELOCATION_SIZE
  {
    hide Records;
    assert RelocLists(bs)[..j + 1][..j] == RelocLists(bs)[..j];
  }

  lemma SectionsSnoc(hs: seq<Section>, j: nat, size: nat)
    requires j < |hs|
    ensures Records(SectionRecords(hs[..j + 1]), size) ==
            Records(SectionRecords(hs[..j]), size) + Encode(SectionRecord(hs[j]), size)
  {
    var rs := SectionRecords(hs[..j + 1]);
    assert rs[..|rs| - 1] == SectionRecords(hs[..j]);
  }

  // ----- the whole file -----

  ghost predicate Exact(bs: seq<SectionBuilder>, f: Final, header: nat) {
    && |bs| == |f.chunks| == |f.relocs|
    && forall j :: 0 <= j < |bs| ==> bs[j] == BuilderOf(f.chunks, j, header).(relocations := f.relocs[j])
  }

  lemma {:induction false} SizesAreAddresses(bs: seq<SectionBuilder>, f: Final, header: nat, j: nat)
    requires Exact(bs, f, header) && j <= |bs|
    ensures SizesBefore(bs, j) == AddrOf(f.chunks, j)
  {
    hide Chunk.Cells, Chunk.Exp, Chunk.SectName, Chunk.SegName, AddrOf;
    if j == 0 {
      EndAddrs(f.chunks);
    } else {
      SizesAreAddresses(bs, f, header, j - 1);
      NextAddr(f.chunks, j - 1);
    }
  }

  lemma HeadersAreSections(bs: seq<SectionBuilder>, f: Final, header: nat)
    requires Exact(bs, f, header)
    ensures f.Valid() && HeadersFrom(bs, DataStart(f), RelocStart(f)) == SectionsOf(f)
    ensures RelocLists(bs) == f.relocs
  {
    hide Chunk.Cells, Chunk.Exp, Chunk.SectName, Chunk.SegName, AddrOf, RelocCells, DataStart, RelocStart;
    assert RelocLists(bs) == f.relocs;
    forall j | 0 <= j < |bs|
      ensures HeaderFrom(bs, j, DataStart(f), RelocStart(f)) == SectionAt(f, j)
    {
      SizesAreAddresses(bs, f, header, j);
    }
  }

  /** The segment command announces `n` sections. */
  predicate Announces(c: Container, file: Image, n: nat) {
    SegmentIn(c, file).Some? && SegmentIn(c, file).value.nsects == n
  }

  lemma CommandAnnounces(c: Container, header: Image, command: SegmentCommand, rest: Image)
    requires |header| == c.HeaderSize()
    ensures Announces(c, header + Encode(SegmentRecord(command), c.SegmentSize()) + rest, command.nsects)
  {
    var file := header + Encode(SegmentRecord(command), c.SegmentSize()) + rest;
    assert forall k :: 0 <= k < c.SegmentSize() ==> file[c.HeaderSize() + k] == Part(SegmentRecord(command), k);
  }

  lemma AnnouncesLater(c: Container, file: Image, later: Image, n: nat)
    requires Announces(c, file, n)
    ensures Announces(c, file + later, n)
  {
  }

  /** The header and load commands, with every offset computed beforehand. `ok` is
      false when a section name does not fit. */
  method WriteCommands(out: Output<Record>, c: Container, segment: SegmentBuilder, symtab: SymbolTable, bssSize: nat)
    returns (ok: bool)
    requires symtab.Valid() && out.cells == [] && out.pos == 0
    requires segment.size == |DataCells(segment.chunks)| && segment.offset == c.HeaderSize() + segment.size
    modifies out
    ensures ok <==> NamesFit(segment.sections.values)
    ensures out.pos == |out.cells|
    ensures ok ==> Announces(c, out.cells, |segment.sections.values|)
    ensures var f := Final(c, segment.chunks, symtab.entries, RelocLists(segment.sections.values), bssSize);
            ok && Exact(segment.sections.values, f, c.HeaderSize()) ==> f.Valid() && out.cells == Commands(f)
  {
    hide DataCells, Records, StrCells, RelocCells, Inv, NlistsOf, HeadersFrom, Exact, Overwrite, SectionsOf, Announces,
      Encode;
    TableSizes(symtab.Fields(), symtab.entries);
    ghost var f := Final(c, segment.chunks, symtab.entries, RelocLists(segment.sections.values), bssSize);
    var n := |segment.sections.values|;
    var segmentCommandSize := c.SegmentSize() + n * c.SectionSize();
    var sizeofCommands := segmentCommandSize + SYMTAB_COMMAND_SIZE;
    var symtableOffset := segment.offset + sizeofCommands;
    var strtableOffset := symtableOffset + |symtab.symbols.values| * c.NlistSize();
    var relocationStart := strtableOffset + symtab.strtableSize;
    var firstSection := c.HeaderSize() + sizeofCommands;
    var raw := CreateSections(c, segment.sections.values, firstSection, relocationStart);
    if raw.None? {
      return false;
    }
    var command := SegmentCommand(c.SegmentSize() + |raw.value|, n, firstSection, segment.size, segment.size + bssSize);
    assert symtableOffset == segment.offset + command.cmdsize + SYMTAB_COMMAND_SIZE;
    var symtabCommand := SymtabCommand(symtableOffset, |symtab.symbols.values|, strtableOffset, symtab.strtableSize);
    out.Write(Encode(HeaderRecord(Header(2, sizeofCommands)), c.HeaderSize()));
    out.Write(Encode(SegmentRecord(command), c.SegmentSize()));
    out.Write(raw.value);
    out.Write(Encode(SymtabRecord(symtabCommand), SYMTAB_COMMAND_SIZE));
    ok := true;
    ghost var first := Encode(HeaderRecord(Header(2, sizeofCommands)), c.HeaderSize());
    ghost var rest := raw.value + Encode(SymtabRecord(symtabCommand), SYMTAB_COMMAND_SIZE);
    CommandAnnounces(c, first, command, rest);
    assert out.cells == first + Encode(SegmentRecord(command), c.SegmentSize()) + rest;
    if Exact(segment.sections.values, f, c.HeaderSize()) {
      HeadersAreSections(segment.sections.values, f, c.HeaderSize());
      ExactCount(segment.sections.values, f, c.HeaderSize());
    }
  }

  /** `Mach::write`. The file is the one described, front to back. */
  method WriteFile(c: Container, segment: SegmentBuilder, symtab: SymbolTable, code: seq<Definition>,
                   data: seq<Definition>, cstrings: seq<Definition>, custom: seq<Definition>,
                   ghost bss: seq<Definition>, bssSize: nat)
    returns (r: Option<Image>)
    requires symtab.Valid()
    requires PadsRight(segment.alignPadMap, code, 4) && PadsRight(segment.alignPadMap, data, 3)
    requires PadsRight(segment.alignPadMap, cstrings, 0)
    requires forall k :: 0 <= k < |custom| ==> custom[k].name !in segment.alignPadMap
    requires forall k :: 0 <= k < |bss| ==> bss[k].data.ZeroInit?
    requires segment.chunks ==
             [BuiltIn(TextPart, code), BuiltIn(DataPart, data), BuiltIn(CStringPart, cstrings), BuiltIn(BssPart, bss)]
                               + CustomChunks(custom)
    requires segment.size == |DataCells(segment.chunks)| && segment.offset == c.HeaderSize() + segment.size
    ensures r.Some? <==> NamesFit(segment.sections.values)
    ensures var f := Final(c, segment.chunks, symtab.entries, RelocLists(segment.sections.values), bssSize);
            r.Some? && Exact(segment.sections.values, f, c.HeaderSize()) ==> f.Valid() && r.value == Whole(f)
    ensures r.Some? ==> Announces(c, r.value, |segment.sections.values|)
  {
    hide Announces, PadsRight, DataCells, Records, StrCells, RelocCells, Inv, NlistsOf, Exact, Overwrite, Commands;
    var out := new Output<Record>();
    var ok := WriteCommands(out, c, segment, symtab, bssSize);
    if !ok {
      return None;
    }
    ghost var commands := out.cells;
    WriteData(out, segment, code, data, cstrings, custom, bss);
    WriteSymbols(out, c, symtab);
    WriteRelocations(out, segment);
    out.Write([Byte(0)]);
    assert out.cells == commands + DataCells(segment.chunks)
      + Records(NlistRecords(NlistsOf(symtab.entries)), c.NlistSize()) + StrCells(EntryNames(symtab.entries))
      + RelocCells(RelocLists(segment.sections.values)) + [Byte(0)];
    ghost var later := out.cells[|commands|..];
    assert out.cells == commands + later;
    AnnouncesLater(c, commands, later, |segment.sections.values|);
    r := Some(out.cells);
  }

  lemma TableSizes(t: Table, es: seq<Entry>)
    requires Inv(t, es)
    ensures |t.symbols.values| == |es| && t.size == |StrCells(EntryNames(es))|
  {
  }

  lemma ExactCount(bs: seq<SectionBuilder>, f: Final, header: nat)
    requires Exact(bs, f, header)
    ensures |bs| == |f.chunks|
  {
  }

  // ----- emission -----

  /** What the caller has to see to: no custom section takes a built-in section's name. */
  ghost predicate WellNamed(i: Input) {
    Distinct(Keys(ChunksOf(i)))
  }

  predicate SectNamesFit(chunks: seq<Chunk>) {
    forall j :: 0 <= j < |chunks| ==> |chunks[j].SectName()| <= 16
  }

  /** The section keys and symbols that are left once repeated names are dropped. */
  function BuiltKeys(i: Input): seq<string> {
    Dedup(Keys(ChunksOf(i)))
  }

  function BuiltEntries(i: Input): seq<Entry> {
    AddedAll([], AllEntries(i))
  }

  /** With distinct keys no section is dropped. */
  lemma KeysAsNamed(i: Input)
    ensures |BuiltKeys(i)| == |ChunksOf(i)| <==> WellNamed(i)
    ensures WellNamed(i) ==> BuiltKeys(i) == Keys(ChunksOf(i))
  {
    hide Dedup, Distinct, ChunksOf;
    DedupIdentity(Keys(ChunksOf(i)));
  }

  /** With distinct, non-empty names no symbol is dropped. */
  lemma EntriesAsNamed(i: Input)
    requires Insertable(AllEntries(i))
    ensures BuiltEntries(i) == AllEntries(i)
  {
    hide Insertable, AddedAll, AllEntries;
    assert [] + AllEntries(i) == AllEntries(i);
    AddedAllExact([], AllEntries(i));
  }

  function FinalOf(i: Input, c: Container): (f: Final)
    ensures |f.relocs| == |f.chunks|
  {
    var chunks := ChunksOf(i);
    var es := BuiltEntries(i);
    Final(c, chunks, es,
          seq(|chunks|, j requires 0 <= j < |chunks| => RelocsOf(Keys(chunks), es, i.links, j)),
          BssTotal(i.definitions))
  }

  lemma BuiltInKeysFirst(chunks: seq<Chunk>, four: seq<Chunk>, rest: seq<Chunk>)
    requires chunks == four + rest && |four| == 4 && four[0].Key() == "__text" && four[1].Key() == "__data"
    ensures |Dedup(Keys(chunks))| >= 2 && Dedup(Keys(chunks))[0] == "__text" && Dedup(Keys(chunks))[1] == "__data"
  {
    hide Chunk.Key, Dedup;
    assert Keys(chunks) == [four[0].Key(), four[1].Key()] + Keys(chunks)[2..];
    TwoFirst("__text", "__data", Keys(chunks)[2..]);
  }

  lemma {:induction false} TwoFirst(a: string, b: string, rest: seq<string>)
    requires a != b
    ensures |Dedup([a, b] + rest)| >= 2 && Dedup([a, b] + rest)[0] == a && Dedup([a, b] + rest)[1] == b
  {
    if rest == [] {
      hide Dedup;
      assert [a, b] + rest == [a, b];
      TwoOnly(a, b);
    } else {
      TwoFirst(a, b, rest[..|rest| - 1]);
      assert [a, b] + rest == ([a, b] + rest[..|rest| - 1]) + [rest[|rest| - 1]];
      DedupSnoc([a, b] + rest[..|rest| - 1], rest[|rest| - 1]);
    }
  }

  lemma TwoOnly(a: string, b: string)
    requires a != b
    ensures Dedup([a, b]) == [a, b]
  {
  }

  lemma PartsAreAllowed(i: Input)
    requires Coherent(i)
    ensures forall d, part: Part :: d in Select(i.definitions, Some(part)) ==> !d.decl.SectionDecl?
    ensures forall k :: 0 <= k < |Select(i.definitions, None)| ==> Select(i.definitions, None)[k].decl.SectionDecl?
    ensures forall k :: 0 <= k < |Select(i.definitions, Some(BssPart))| ==>
            Select(i.definitions, Some(BssPart))[k].data.ZeroInit?
    ensures Distinct(Names(i.definitions))
  {
    hide Select, LinkResolves;
    forall part: Part
      ensures forall d :: d in Select(i.definitions, Some(part)) ==> !d.decl.SectionDecl?
    {
      SelectMembers(i.definitions, Some(part));
    }
    SelectMembers(i.definitions, Some(BssPart));
    SelectMembers(i.definitions, None);
    DistinctPrefix(Names(i.definitions), ImportNames(i.imports));
    forall k | 0 <= k < |Select(i.definitions, None)|
      ensures Select(i.definitions, None)[k].decl.SectionDecl?
    {
      assert Select(i.definitions, None)[k] in Select(i.definitions, None);
    }
    forall k | 0 <= k < |Select(i.definitions, Some(BssPart))|
      ensures Select(i.definitions, Some(BssPart))[k].data.ZeroInit?
    {
      assert Select(i.definitions, Some(BssPart))[k] in Select(i.definitions, Some(BssPart));
    }
  }

  /** `to_bytes`. `None` is a panic: a section name that is too long, or a link the
      relocation match refuses. Otherwise the file is the described one. */
  method ToBytes(i: Input, c: Container) returns (r: Option<Image>)
    requires Coherent(i)
    ensures r.Some? <==> SectNamesFit(ChunksOf(i)) && NoPanics(BuiltKeys(i), BuiltEntries(i), i.links)
    ensures WellNamed(i) && r.Some? ==> FinalOf(i, c).Valid() && r.value == Whole(FinalOf(i, c))
    ensures r.Some? ==> Announces(c, r.value, |BuiltKeys(i)|)
  {
    hide Announces, Coherent, Inv, SectionsInv, DataCells, EntriesOf, AddedAll, Whole, WellNamed, Select, PadsRight,
      NoPanics, Relocated, Distinct, Dedup, Pads, BssTotal, Exact, RelocsOf, FourPads, SectNamesFit, NamesFit,
      Insertable, CellsUpTo;
    PartsAreAllowed(i);
    FourPadsRight(i.definitions);
    var code, data, bss, cstrings, custom, bssSize := Partition(i.definitions);
    var symtab := new SymbolTable();
    var segment := BuildSegment(c, code, data, bss, cstrings, custom, i.imports, symtab);
    assert segment.chunks == ChunksOf(i);
    BuiltInKeysFirst(segment.chunks, segment.chunks[..4], segment.chunks[4..]);
    SectionsKeys(segment.sections, segment.chunks, segment.header);
    ghost var was := segment.sections;
    var ok := BuildRelocations(segment, i.links, symtab);
    if WellNamed(i) {
      KeysAsNamed(i);
      NamedSegment(i, was, segment.header);
    }
    if !ok {
      return None;
    }
    NamesFitIff(was, segment.sections, ChunksOf(i), segment.header, symtab.entries, i.links);
    r := WriteFile(c, segment, symtab, code, data, cstrings, custom, bss, bssSize);
    if WellNamed(i) {
      RelocatedIsExact(i, c, was, segment.sections);
    }
  }

  /** The names written are those of all chunks, however many share a key. */
  lemma NamesFitIff(was: IndexMap<string, SectionBuilder>, now: IndexMap<string, SectionBuilder>, chunks: seq<Chunk>,
                    header: nat, es: seq<Entry>, links: seq<LinkAndDecl>)
    requires SectionsInv(was, chunks, header) && Relocated(was.values, now.values, was.keys, es, links)
    ensures NamesFit(now.values) <==> SectNamesFit(chunks)
  {
    hide Chunk.SectName, Chunk.Key, SectNameFor, Dedup, Distinct, RelocsOf, SectionsExact;
    forall j | 0 <= j < |chunks|
      ensures chunks[j].SectName() == SectNameFor(Keys(chunks)[j]) && Keys(chunks)[j] in was.keys
    {
      SectNameOfKey(chunks[j]);
    }
    if SectNamesFit(chunks) {
      forall q | 0 <= q < |now.values|
        ensures |now.values[q].sectname| <= 16
      {
        assert was.keys[q] in Keys(chunks);
        var j :| 0 <= j < |chunks| && Keys(chunks)[j] == was.keys[q];
        assert |chunks[j].SectName()| <= 16;
      }
    }
    if NamesFit(now.values) {
      forall j | 0 <= j < |chunks|
        ensures |chunks[j].SectName()| <= 16
      {
        var q :| 0 <= q < |was.keys| && was.keys[q] == Keys(chunks)[j];
        assert now.values[q].sectname == was.values[q].sectname;
      }
    }
  }

  lemma SectionsKeys(sections: IndexMap<string, SectionBuilder>, chunks: seq<Chunk>, header: nat)
    requires SectionsInv(sections, chunks, header)
    ensures sections.Valid() && sections.keys == Dedup(Keys(chunks))
  {
  }

  lemma NamedSegment(i: Input, sections: IndexMap<string, SectionBuilder>, header: nat)
    requires WellNamed(i) && SectionsInv(sections, ChunksOf(i), header)
    ensures SectionsExact(sections, ChunksOf(i), header)
  {
    hide Insertable, SectionsExact, ChunksOf, Keys, Distinct, SectNamesKept;
  }

  lemma RelocatedIsExact(i: Input, c: Container, was: IndexMap<string, SectionBuilder>,
                         now: IndexMap<string, SectionBuilder>)
    requires SectionsExact(was, ChunksOf(i), c.HeaderSize())
    requires Relocated(was.values, now.values, Keys(ChunksOf(i)), BuiltEntries(i), i.links)
    ensures RelocLists(now.values) == FinalOf(i, c).relocs
    ensures Exact(now.values, FinalOf(i, c), c.HeaderSize())
  {
    hide Chunk.Cells, Chunk.Exp, Chunk.SectName, Chunk.SegName, AddrOf, RelocsOf, ChunksOf, BuiltEntries, Keys,
      BssTotal;
    var f := FinalOf(i, c);
    forall j | 0 <= j < |now.values|
      ensures now.values[j] == BuilderOf(f.chunks, j, c.HeaderSize()).(relocations := f.relocs[j])
    {
      assert was.values[j].relocations + f.relocs[j] == f.relocs[j];
    }
  }
}
