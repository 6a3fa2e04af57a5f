/** The Mach-O segment builder: it allocates sections and fills the symbol table. */
module MachBuilder {
  import opened Collections
  import opened ObjectFile
  import opened Decls
  import opened MachFormat
  import opened MachSymbols
  import opened MachLayout

  datatype SectionBuilder = SectionBuilder(
    addr: nat, align: nat, offset: nat, size: nat, sectname: string, segname: string, relocations: seq<RelocationInfo>)

  /** The builder of chunk `j`: its address is the sum of the sizes before it. */
  function BuilderOf(chunks: seq<Chunk>, j: nat, header: nat): SectionBuilder
    requires j < |chunks|
  {
    SectionBuilder(AddrOf(chunks, j), chunks[j].Exp(), header + AddrOf(chunks, j), |chunks[j].Cells()|,
                   chunks[j].SectName(), chunks[j].SegName(), [])
  }

  ghost predicate SectionsExact(sections: IndexMap<string, SectionBuilder>, chunks: seq<Chunk>, header: nat) {
    && |sections.values| == |chunks|
    && forall j :: 0 <= j < |chunks| ==> sections.values[j] == BuilderOf(chunks, j, header)
  }

  /** The name a section gets in the file, from its key. */
  function SectNameFor(key: string): string {
    if ".debug" <= key then "__debug" + key[6..] else key
  }

  lemma SectNameOfKey(c: Chunk)
    ensures c.SectName() == SectNameFor(c.Key())
  {
    if c.BuiltIn? {
      assert c.Key()[0] == '_' && ".debug"[0] == '.';
    }
  }

  ghost predicate SectNamesKept(sections: IndexMap<string, SectionBuilder>) {
    && |sections.keys| == |sections.values|
    && forall j :: 0 <= j < |sections.keys| ==> sections.values[j].sectname == SectNameFor(sections.keys[j])
  }

  ghost predicate SectionsInv(sections: IndexMap<string, SectionBuilder>, chunks: seq<Chunk>, header: nat) {
    && sections.Valid() && SectNamesKept(sections)
    && sections.keys == Dedup(Keys(chunks))
    && (Distinct(Keys(chunks)) ==> SectionsExact(sections, chunks, header))
  }

  /** A new chunk keeps the map exact while keys differ. */
  lemma ChunkAdded(sections: IndexMap<string, SectionBuilder>, chunks: seq<Chunk>, header: nat, c: Chunk)
    requires SectionsInv(sections, chunks, header)
    ensures var b := SectionBuilder(|DataCells(chunks)|, c.Exp(), header + |DataCells(chunks)|, |c.Cells()|,
                                    c.SectName(), c.SegName(), []);
            SectionsInv(sections.Insert(c.Key(), b), chunks + [c], header)
  {
    hide Chunk.Exp, Chunk.Cells, Chunk.SectName, Chunk.SegName, Chunk.Key, Dedup, SectionsExact, DataCells, IndexOf,
      Distinct, Keys, SectNamesKept, SectNameFor, IndexMap.Insert;
    var b := SectionBuilder(|DataCells(chunks)|, c.Exp(), header + |DataCells(chunks)|, |c.Cells()|, c.SectName(),
                            c.SegName(), []);
    DataCellsSnoc(chunks, c);
    DedupSnoc(Keys(chunks), c.Key());
    SectNameOfKey(c);
    SectNameInserted(sections, c.Key(), b);
    if Distinct(Keys(chunks + [c])) {
      DistinctPrefix(Keys(chunks), [c.Key()]);
      ExactAdded(sections, chunks, header, c, b);
    }
  }

  lemma SectNameInserted(sections: IndexMap<string, SectionBuilder>, key: string, b: SectionBuilder)
    requires sections.Valid() && SectNamesKept(sections) && b.sectname == SectNameFor(key)
    ensures SectNamesKept(sections.Insert(key, b))
  {
    hide SectNameFor;
  }

  lemma ExactAdded(sections: IndexMap<string, SectionBuilder>, chunks: seq<Chunk>, header: nat, c: Chunk,
                   b: SectionBuilder)
    requires sections.Valid() && SectionsExact(sections, chunks, header) && c.Key() !in sections.keys
    requires b ==
             SectionBuilder(|DataCells(chunks)|, c.Exp(), header + |DataCells(chunks)|, |c.Cells()|, c.SectName(),
                            c.SegName(), [])
    ensures SectionsExact(sections.Insert(c.Key(), b), chunks + [c], header)
  {
    hide Chunk.Exp, Chunk.Cells, Chunk.SectName, Chunk.SegName, Chunk.Key;
    DataCellsSnoc(chunks, c);
    assert (chunks + [c])[..|chunks|] == chunks;
  }

  /** The pads recorded for the first `k` definitions of a section. */
  function Pads(pads: map<string, nat>, defs: seq<Definition>, k: nat, min: nat): map<string, nat>
    requires k <= |defs|
  {
    if k == 0 then pads else Pads(pads, defs, k - 1, min)[defs[k - 1].name := PadAfter(defs, k - 1, min)]
  }

  lemma {:induction false} PadsExact(pads: map<string, nat>, defs: seq<Definition>, n: nat, min: nat, k: nat)
    requires k < n <= |defs| && Distinct(Names(defs))
    ensures defs[k].name in Pads(pads, defs, n, min) && Pads(pads, defs, n, min)[defs[k].name] == PadAfter(defs, k, min)
  {
    hide PadAfter;
    if k < n - 1 {
      PadsExact(pads, defs, n - 1, min, k);
      assert Names(defs)[k] != Names(defs)[n - 1];
    }
  }

  lemma {:induction false} PadsElsewhere(pads: map<string, nat>, defs: seq<Definition>, n: nat, min: nat, name: string)
    requires n <= |defs| && name !in Names(defs)
    ensures name in Pads(pads, defs, n, min) <==> name in pads
    ensures name in pads ==> Pads(pads, defs, n, min)[name] == pads[name]
  {
    hide PadAfter;
    if n > 0 {
      PadsElsewhere(pads, defs, n - 1, min, name);
      assert Names(defs)[n - 1] == defs[n - 1].name;
    }
  }

  function ChunkPads(pads: map<string, nat>, c: Chunk): map<string, nat> {
    if c.BuiltIn? then Pads(pads, c.defs, |c.defs|, c.part.MinExp()) else pads
  }

  lemma NothingAdded(es: seq<Entry>)
    ensures AddedAll(es, []) == es
  {
  }

  lemma OneMoreAdded(es: seq<Entry>, more: seq<Entry>, k: nat)
    requires k < |more|
    ensures AddedAll(es, more[..k + 1]) == Added(AddedAll(es, more[..k]), more[k])
  {
    assert more[..k + 1][..k] == more[..k];
  }

  lemma AllocatorStarts(pads: map<string, nat>, defs: seq<Definition>, min: nat)
    ensures OffsetAt(defs, 0, min) == 0 && ExpUpTo(defs, 0, min) == min && Pads(pads, defs, 0, min) == pads
  {
  }

  lemma AllocatorStep(pads: map<string, nat>, defs: seq<Definition>, k: nat, min: nat)
    requires k < |defs|
    ensures OffsetAt(defs, k + 1, min) ==
            AlignUp(OffsetAt(defs, k, min) + defs[k].data.FileSize(), Pow2(NextExp(defs, k, min)))
    ensures OffsetAt(defs, k + 1, min) == OffsetAt(defs, k, min) + defs[k].data.FileSize() + PadAfter(defs, k, min)
    ensures ExpUpTo(defs, k + 1, min) == Max(ExpUpTo(defs, k, min), NextExp(defs, k, min))
    ensures Pads(pads, defs, k + 1, min) == Pads(pads, defs, k, min)[defs[k].name := PadAfter(defs, k, min)]
  {
  }

  class SegmentBuilder {
    const header: nat
    var sections: IndexMap<string, SectionBuilder>
    var offset: nat
    var size: nat
    var symbolOffset: nat
    var alignPadMap: map<string, nat>
    ghost var chunks: seq<Chunk>

    /** The four counters advance separately; they stay in step. */
    ghost predicate Valid()
      reads this
    {
      && SectionsInv(sections, chunks, header)
      && size == symbolOffset == |DataCells(chunks)|
      && offset == header + size
    }

    constructor (c: Container)
      ensures Valid() && chunks == [] && alignPadMap == map[] && header == c.HeaderSize()
    {
      header := c.HeaderSize();
      sections := IndexMap([], []);
      offset := c.HeaderSize();
      size := 0;
      symbolOffset := 0;
      alignPadMap := map[];
      chunks := [];
    }

    /** Records a finished section and moves both cursors past it. */
    method Finish(key: string, sectname: string, segname: string, exponent: nat, localSize: nat, ghost c: Chunk)
      requires SectionsInv(sections, chunks, header) && size == |DataCells(chunks)| && offset == header + size
      requires symbolOffset == size + localSize
      requires key == c.Key() && sectname == c.SectName() && segname == c.SegName()
      requires exponent == c.Exp() && localSize == |c.Cells()|
      modifies this
      ensures Valid() && chunks == old(chunks) + [c] && alignPadMap == old(alignPadMap)
    {
      hide SectionsInv, Chunk.Exp, Chunk.Cells, Chunk.SectName, Chunk.SegName, Chunk.Key;
      ChunkAdded(sections, chunks, header, c);
      DataCellsSnoc(chunks, c);
      SectionsShape(sections, chunks, header);
      sections := sections.Insert(key, SectionBuilder(size, exponent, offset, localSize, sectname, segname, []));
      offset := offset + localSize;
      size := size + localSize;
      chunks := chunks + [c];
    }

    static method Padding(relative: nat, exp: nat) returns (pad: nat)
      ensures relative + pad == AlignUp(relative, Pow2(exp))
    {
      pad := Pow2(exp) - relative % Pow2(exp);
      if pad == Pow2(exp) {
        pad := 0;
      }
    }

    /** Allocates the definitions of one built-in section, padding each to the
        alignment of the next, and inserts their symbols. */
    method BuildSection(symtab: SymbolTable, part: Part, section: nat, defs: seq<Definition>)
      requires Valid() && symtab.Valid()
      requires forall k :: 0 <= k < |defs| ==> !defs[k].decl.SectionDecl?
      modifies this, symtab
      ensures Valid() && symtab.Valid()
      ensures chunks == old(chunks) + [BuiltIn(part, defs)]
      ensures alignPadMap == ChunkPads(old(alignPadMap), BuiltIn(part, defs))
      ensures symtab.entries == AddedAll(old(symtab.entries), ChunkEntries(BuiltIn(part, defs), section, old(size)))
    {
      hide SectionsInv, Inv, ExpOf, Pow2, AlignUp, DataCells, CellsUpTo, Added, AddedAll, WithSymbol, IndexOf, OffsetAt,
        NextExp, PadAfter, ExpUpTo, Pads, SectionEntries;
      AllocatorStarts(alignPadMap, defs, part.MinExp());
      NothingAdded(symtab.entries);
      var min := part.MinExp();
      var localSize, exponent := 0, min;
      ghost var es := SectionEntries(defs, min, section, size);
      assert es[..0] == [];
      for k := 0 to |defs|
        invariant localSize == OffsetAt(defs, k, min) && exponent == ExpUpTo(defs, k, min)
        invariant symbolOffset == old(symbolOffset) + localSize
        invariant symtab.Valid() && symtab.entries == AddedAll(old(symtab.entries), es[..k])
        invariant alignPadMap == Pads(old(alignPadMap), defs, k, min)
        invariant sections == old(sections) && chunks == old(chunks) && offset == old(offset) && size == old(size)
      {
        AllocatorStep(old(alignPadMap), defs, k, min);
        OneMoreAdded(old(symtab.entries), es, k);
        localSize, exponent := Allocate(symtab, section, defs, k, min, localSize, exponent);
      }
      assert es[..|defs|] == es;
      Finish(part.SectName(), part.SectName(), part.SegName(), exponent, localSize, BuiltIn(part, defs));
    }

    /** One definition: its symbol, its size and the padding after it. The offset in the
        section and the section's size so far are the same number. */
    method Allocate(symtab: SymbolTable, section: nat, defs: seq<Definition>, k: nat, min: nat, relative: nat,
                    exponent: nat)
      returns (relative': nat, exponent': nat)
      requires symtab.Valid() && k < |defs|
      modifies symtab, this`symbolOffset, this`alignPadMap
      ensures symtab.Valid()
      ensures symtab.entries == Added(old(symtab.entries),
                Entry(defs[k].name, DefinedIn(section, old(symbolOffset), relative, defs[k].decl.IsGlobal())))
      ensures relative' == AlignUp(relative + defs[k].data.FileSize(), Pow2(NextExp(defs, k, min)))
      ensures symbolOffset - old(symbolOffset) == relative' - relative
      ensures exponent' == Max(exponent, NextExp(defs, k, min))
      ensures alignPadMap == old(alignPadMap)[defs[k].name := relative' - relative - defs[k].data.FileSize()]
    {
      hide Inv, ExpOf, Pow2, AlignUp, Added, WithSymbol, NextExp;
      symtab.Insert(defs[k].name, DefinedIn(section, symbolOffset, relative, defs[k].decl.IsGlobal()));
      var fileSize := defs[k].data.FileSize();
      var nextExp := LookAhead(defs, k, min);
      exponent' := Max(exponent, nextExp);
      var alignPad := Padding(relative + fileSize, nextExp);
      alignPadMap := alignPadMap[defs[k].name := alignPad];
      symbolOffset := symbolOffset + fileSize + alignPad;
      relative' := relative + fileSize + alignPad;
    }

    static method LookAhead(defs: seq<Definition>, k: nat, min: nat) returns (exp: nat)
      requires k < |defs|
      ensures exp == NextExp(defs, k, min)
    {
      var next := 0;
      if k + 1 < |defs| {
        var align: Align := if defs[k + 1].decl.align.Some? then defs[k + 1].decl.align.value else 1;
        next := AlignExponent(align);
      }
      exp := Max(min, next);
    }

    /** A custom section is one definition; its symbols are the custom ones. */
    method BuildCustomSection(symtab: SymbolTable, section: nat, d: Definition)
      requires Valid() && symtab.Valid() && d.decl.SectionDecl?
      modifies this, symtab
      ensures Valid() && symtab.Valid()
      ensures chunks == old(chunks) + [Custom(d)] && alignPadMap == old(alignPadMap)
      ensures symtab.entries == AddedAll(old(symtab.entries), ChunkEntries(Custom(d), section, old(size)))
    {
      hide SectionsInv, Inv, DataCells, Added, WithSymbol, IndexOf, Exponent;
      var segname :=
        match d.decl.kind
        case DataSection => "__DATA"
        case DebugSection => "__DWARF"
        case TextSection => "__TEXT";
      var sectname := if ".debug" <= d.name then "__debug" + d.name[6..] else d.name;
      ghost var es := CustomEntries(d, section, old(size));
      for k := 0 to |d.symbols|
        invariant symtab.Valid() && symtab.entries == AddedAll(old(symtab.entries), es[..k])
        invariant unchanged(this)
      {
        symtab.Insert(d.symbols[k].0, DefinedIn(section, symbolOffset + d.symbols[k].1, d.symbols[k].1, true));
        assert es[..k + 1][..k] == es[..k];
      }
      assert es[..|d.symbols|] == es;
      var localSize := d.data.FileSize();
      symbolOffset := symbolOffset + localSize;
      var align: Align := if d.decl.align.Some? then d.decl.align.value else 1;
      var exponent := AlignExponent(align);
      NoAlignment();
      Finish(d.name, sectname, segname, exponent, localSize, Custom(d));
    }
  }

  lemma NoAlignment()
    ensures Exponent(1) == 0
  {
  }

  lemma SectionsShape(sections: IndexMap<string, SectionBuilder>, chunks: seq<Chunk>, header: nat)
    requires SectionsInv(sections, chunks, header)
    ensures sections.Valid()
  {
  }
}
