/** A Mach-O file told in the artifact's own terms: what the sections and symbols of a
    faithful file say about the definitions and imports. */
module MachMeaning {
  import opened Collections
  import opened ObjectFile
  import opened Decls
  import opened MachFormat
  import opened MachSymbols
  import opened MachLayout
  import opened MachRelocs
  import opened MachEmit
  import opened MachEntries
  import opened MachProperties
  import opened MachPlacement

  // ----- sections -----

  /** The names of the section and segment that a definition belongs in. */
  ghost predicate BelongsIn(d: Definition, sectname: string, segname: string) {
    match d.decl
    case FunctionDecl(_, _, _) => sectname == "__text" && segname == "__TEXT"
    case DataDecl(_, _, _, datatyp, _) =>
      && (sectname == "__bss" <==> d.data.ZeroInit?)
      && (sectname == "__cstring" <==> d.data.Blob? && datatyp == CString)
      && (sectname == "__data" <==> d.data.Blob? && datatyp == RawBytes)
      && (segname == "__TEXT" <==> d.data.Blob? && datatyp == CString)
      && (segname == "__DATA" <==> d.data.ZeroInit? || datatyp == RawBytes)
    case SectionDecl(kind, _, _) =>
      && (segname == "__DATA" <==> kind == DataSection)
      && (segname == "__DWARF" <==> kind == DebugSection)
      && (segname == "__TEXT" <==> kind == TextSection)
      && (if ".debug" <= d.name then exists rest :: d.name == ".debug" + rest && sectname == "__debug" + rest
          else sectname == d.name)
  }

  function AlignOf(d: Definition): (a: nat)
    ensures a > 0
  {
    match d.decl.align
    case None => 1
    case Some(a) => assert IsPow2(a); a
  }

  function LengthOf(d: Definition): nat {
    match d.data
    case Blob(bytes) => |bytes|
    case ZeroInit(_) => 0
  }

  /** A definition's section: it has the right name, holds the definition's bytes where
      the definition lives, and the definition is aligned there. A custom section holds
      nothing else. */
  ghost predicate SectionSays(i: Input, d: Definition, p: Parsed, file: Image)
    requires d in i.definitions
  {
    && HomeSection(i, d) < |p.sections|
    && var s, at := p.sections[HomeSection(i, d)], HomeOffset(i, d);
       && BelongsIn(d, s.sectname, s.segname)
       && at + LengthOf(d) <= s.size
       && (d.data.Blob? ==> Holds(file, s.offset + at, Bytes(d.data.bytes)))
       && at % AlignOf(d) == 0
       && (d.decl.FunctionDecl? ==> at % 16 == 0)
       && (d.decl.DataDecl? && d.data.Blob? && d.decl.datatyp == RawBytes ==> at % 8 == 0)
       && (d.decl.SectionDecl? ==> at == 0 && s.size == LengthOf(d) && Pow2(s.align) == AlignOf(d))
  }

  lemma ExpIsAlign(d: Definition)
    ensures Pow2(ExpOf(d)) == AlignOf(d)
  {
  }

  lemma MinAligns()
    ensures Pow2(TextPart.MinExp()) == 16 && Pow2(DataPart.MinExp()) == 8
  {
    assert Pow2(1) == 2 && Pow2(2) == 4 && Pow2(3) == 8;
  }

  lemma ChunkBelongs(i: Input, d: Definition, c: Chunk)
    requires ContentsAllowed(d)
    requires match PartOf(d) case Some(part) => c.BuiltIn? && c.part == part case None => c == Custom(d)
    ensures BelongsIn(d, c.SectName(), c.SegName())
  {
    hide Chunk.Cells, Chunk.Exp;
    assert "__data"[2] != "__bss"[2] && "__data"[2] != "__cstring"[2] && "__bss"[2] != "__cstring"[2];
    assert "__TEXT"[2] != "__DATA"[2] && "__DWARF"[3] != "__DATA"[3] && "__DWARF"[2] != "__TEXT"[2];
    if PartOf(d).None? && ".debug" <= d.name {
      assert d.name == ".debug" + d.name[6..];
    }
  }

  /** The chunk a definition lives in. */
  lemma HomeChunk(i: Input, d: Definition)
    requires d in i.definitions
    ensures var j := HomeSection(i, d);
            && j < |ChunksOf(i)|
            && match PartOf(d)
               case Some(part) => ChunksOf(i)[j] == BuiltIn(part, Select(i.definitions, Some(part)))
               case None => ChunksOf(i)[j] == Custom(d)
  {
    hide ChunksOf, Select, IndexOf;
    ChunkPositions(i);
    var k := PositionOf(i, d);
  }

  lemma AllowedIn(i: Input, d: Definition)
    requires Coherent(i) && d in i.definitions
    ensures ContentsAllowed(d)
  {
  }

  lemma SectionIsSaid(i: Input, d: Definition, p: Parsed, file: Image)
    requires Coherent(i) && FaithfulAs(i, p, file) && d in i.definitions
    ensures SectionSays(i, d, p, file)
  {
    hide Coherent, ChunksOf, Select, OffsetAt, Holds, BelongsIn, BuiltEntries, SymbolFaithful, ContentsFaithful,
      CustomFaithful, RelocationsIn, RelocsOf, Tiled, Announced, Keys, IndexOf, CellsUpTo, ExpUpTo, ExpOf, Pow2,
      StrCells, Chunk.SectName, Chunk.SegName;
    var j := HomeSection(i, d);
    AllowedIn(i, d);
    HomeChunk(i, d);
    HomeHolds(i, p, file, d);
    assert Describes(p.sections[j], ChunksOf(i)[j]);
    ChunkBelongs(i, d, ChunksOf(i)[j]);
    ExpIsAlign(d);
    MinAligns();
    match PartOf(d) {
      case Some(part) =>
        var defs, k := Select(i.definitions, PartOf(d)), PositionOf(i, d);
        AllocatorAligns(defs, k, part.MinExp());
        RangesDisjoint(defs, k, |defs|, part.MinExp());
      case None =>
        OneMultiple(AlignOf(d));
    }
  }

  lemma OneMultiple(a: nat)
    requires a > 0
    ensures 0 % a == 0
  {
  }

  /** Two definitions of one section do not overlap. */
  lemma HomesApart(i: Input, d: Definition, e: Definition)
    requires Coherent(i) && d in i.definitions && e in i.definitions && d != e && HomeSection(i, d) == HomeSection(i, e)
    ensures HomeOffset(i, d) + LengthOf(d) <= HomeOffset(i, e) || HomeOffset(i, e) + LengthOf(e) <= HomeOffset(i, d)
  {
    hide Coherent, Select, OffsetAt, IndexOf, ChunksOf;
    HomeChunk(i, d);
    HomeChunk(i, e);
    var defs, j, k := Select(i.definitions, PartOf(d)), PositionOf(i, d), PositionOf(i, e);
    var min := PartOf(d).value.MinExp();
    if j < k {
      RangesDisjoint(defs, j, k, min);
    } else {
      RangesDisjoint(defs, k, j, min);
    }
  }

  // ----- alignment -----

  /** The exponent a section claims: the least that covers the section's minimum and every
      definition but the first. */
  ghost predicate ClaimSays(defs: seq<Definition>, min: nat, exp: nat) {
    && min <= exp
    && (forall k :: 1 <= k < |defs| ==> AlignOf(defs[k]) <= Pow2(exp))
    && (exp == min || exists k :: 1 <= k < |defs| && AlignOf(defs[k]) == Pow2(exp))
  }

  lemma {:induction false} ExpSays(defs: seq<Definition>, k: nat, min: nat)
    requires k <= |defs|
    ensures min <= ExpUpTo(defs, k, min)
    ensures forall j :: 1 <= j <= k && j < |defs| ==> ExpOf(defs[j]) <= ExpUpTo(defs, k, min)
    ensures ExpUpTo(defs, k, min) == min ||
            exists j :: 1 <= j <= k && j < |defs| && ExpOf(defs[j]) == ExpUpTo(defs, k, min)
  {
    hide ExpOf;
    if k > 0 {
      ExpSays(defs, k - 1, min);
    }
  }

  lemma ClaimIsSaid(defs: seq<Definition>, min: nat)
    ensures ClaimSays(defs, min, ExpUpTo(defs, |defs|, min))
  {
    hide ExpOf, ExpUpTo, Pow2;
    var exp := ExpUpTo(defs, |defs|, min);
    ExpSays(defs, |defs|, min);
    forall k | 1 <= k < |defs|
      ensures AlignOf(defs[k]) <= Pow2(exp)
      ensures ExpOf(defs[k]) == exp ==> AlignOf(defs[k]) == Pow2(exp)
    {
      ExpIsAlign(defs[k]);
      if ExpOf(defs[k]) < exp {
        Pow2Monotone(ExpOf(defs[k]), exp);
      }
    }
  }

  /** The claims of the built-in sections, whose minima are 16 bytes for functions, 8 for
      data and 1 for strings and zero-initialised data. */
  ghost predicate ClaimsSay(i: Input, p: Parsed) {
    forall part: Part ::
      && part.Index() < |p.sections|
      && ClaimSays(Select(i.definitions, Some(part)), if part == TextPart then 4 else if part == DataPart then 3 else 0,
                   p.sections[part.Index()].align)
  }

  lemma ClaimsAreSaid(i: Input, p: Parsed, file: Image)
    requires FaithfulAs(i, p, file)
    ensures ClaimsSay(i, p)
  {
    hide ChunksOf, Select, BuiltEntries, SymbolFaithful, ContentsFaithful, CustomFaithful, RelocationsIn, RelocsOf,
      Tiled, Announced, Keys, StrCells, ExpUpTo, Holds, ClaimSays, Chunk.SectName, Chunk.SegName, Chunk.Cells;
    ChunkPositions(i);
    forall part: Part
      ensures part.Index() < |p.sections|
      ensures ClaimSays(Select(i.definitions, Some(part)), part.MinExp(), p.sections[part.Index()].align)
    {
      assert Describes(p.sections[part.Index()], ChunksOf(i)[part.Index()]);
      ClaimIsSaid(Select(i.definitions, Some(part)), part.MinExp());
    }
  }

  // ----- padding -----

  /** Byte `x` of a built-in section belongs to one of its definitions. */
  ghost predicate Covered(defs: seq<Definition>, n: nat, min: nat, x: nat)
    requires n <= |defs|
  {
    exists k: nat :: k < n && OffsetAt(defs, k, min) <= x < OffsetAt(defs, k, min) + LengthOf(defs[k])
  }

  lemma {:induction false} RestIsPadding(defs: seq<Definition>, n: nat, min: nat, fill: int, x: nat)
    requires n <= |defs| && x < OffsetAt(defs, n, min) && !Covered(defs, n, min, x)
    ensures CellsUpTo(defs, n, min, fill)[x] == Byte(fill)
  {
    hide PadAfter, AlignUp, NextExp;
    var before := CellsUpTo(defs, n - 1, min, fill);
    if x < |before| {
      assert !Covered(defs, n - 1, min, x);
      RestIsPadding(defs, n - 1, min, fill, x);
    } else {
      assert x >= OffsetAt(defs, n - 1, min) + LengthOf(defs[n - 1]);
    }
  }

  /** Between functions the file traps; between data it holds a filler that is no pointer. */
  lemma PaddingSays(i: Input, p: Parsed, file: Image, part: Part, x: nat)
    requires FaithfulAs(i, p, file) && part.Index() < |p.sections| && x < p.sections[part.Index()].size
    requires var defs := Select(i.definitions, Some(part)); !Covered(defs, |defs|, part.MinExp(), x)
    ensures var at := p.sections[part.Index()].offset + x;
            at < |file| && file[at] == Byte(if part == TextPart then 0xcc else 0xaa)
  {
    hide ChunksOf, Select, OffsetAt, BuiltEntries, SymbolFaithful, ContentsFaithful, CustomFaithful, RelocationsIn,
      RelocsOf, Tiled, Announced, Keys, CellsUpTo, Covered, StrCells, Chunk.SectName, Chunk.SegName, Chunk.Exp;
    var defs, j := Select(i.definitions, Some(part)), part.Index();
    ChunkPositions(i);
    assert Describes(p.sections[j], ChunksOf(i)[j]);
    RestIsPadding(defs, |defs|, part.MinExp(), part.Filler(), x);
    assert file[p.sections[j].offset + x] == ChunksOf(i)[j].Cells()[x];
  }

  // ----- memory -----

  /** The extra memory of the segment is the sum of the zero-initialised sizes. */
  lemma BssGrows(defs: seq<Definition>, d: Definition)
    requires ContentsAllowed(d)
    ensures BssTotal(defs + [d]) == BssTotal(defs) + match d.data case ZeroInit(size) => size case Blob(_) => 0
    ensures BssTotal([]) == 0
  {
    assert (defs + [d])[..|defs|] == defs;
  }

  // ----- symbols -----

  ghost predicate ObjectNamed(i: Input, name: string) {
    exists d :: d in i.definitions && !d.decl.SectionDecl? && d.name == name
  }

  /** Symbol `at` lies at offset `place` of section `j`. */
  predicate LiesAt(p: Parsed, at: nat, j: nat, place: nat, external: bool) {
    && at < |p.symbols| && j < |p.sections|
    && !p.symbols[at].undefined && p.symbols[at].external == external
    && p.symbols[at].sect == j + 1 && p.symbols[at].value == p.sections[j].addr + place
  }

  /** What symbol `at` has to say about its name: where the function or data object of that
      name lives; failing that, the place that the first custom symbol of that name gives;
      failing that, that it is undefined here. */
  ghost predicate SaysName(i: Input, p: Parsed, at: nat, name: string) {
    if ObjectNamed(i, name) then
      exists d :: d in i.definitions && !d.decl.SectionDecl? && d.name == name &&
        LiesAt(p, at, HomeSection(i, d), HomeOffset(i, d), d.decl.scope == Global)
    else if CustomNamed(i, name) then
      exists d, m: nat :: d in i.definitions && CustomSymbol(d, m, name) && FirstCustom(i, d, name) &&
        LiesAt(p, at, HomeSection(i, d), d.symbols[m].1, true)
    else
      && name in ImportNames(i.imports) && at < |p.symbols|
      && p.symbols[at].undefined && p.symbols[at].external && p.symbols[at].sect == 0 && p.symbols[at].value == 0
  }

  ghost predicate FirstCustom(i: Input, d: Definition, name: string)
    requires d in i.definitions
  {
    forall e, k :: e in i.definitions && CustomSymbol(e, k, name) ==> HomeSection(i, d) <= HomeSection(i, e)
  }

  ghost predicate SymbolSays(i: Input, p: Parsed, file: Image, at: nat, name: string) {
    && at < |p.symbols|
    && (TextAt(file, p.symtab.stroff + p.symbols[at].strx) == Codes("_" + name) <==> NoNul(name))
    && SaysName(i, p, at, name)
  }

  lemma NamesBuilt(i: Input, name: string)
    ensures name in EntryNames(BuiltEntries(i)) <==>
            name != "" && (ObjectNamed(i, name) || CustomNamed(i, name) || name in ImportNames(i.imports))
  {
    hide AllEntries, AddedAll;
    AddedNames(AllEntries(i), name);
    if name in EntryNames(AllEntries(i)) {
      EntrySource(i, name);
    }
    if d :| d in i.definitions && !d.decl.SectionDecl? && d.name == name {
      MadeEntry(i, d, 0);
    }
    if d: Definition, m: nat :| d in i.definitions && CustomSymbol(d, m, name) {
      MadeEntry(i, d, m);
    }
    if name in ImportNames(i.imports) {
      var m :| 0 <= m < |i.imports| && ImportNames(i.imports)[m] == name;
      ImportEntry(i, m);
    }
  }

  lemma {:induction false} AddedDistinct(es: seq<Entry>)
    ensures Distinct(EntryNames(AddedAll([], es)))
  {
    hide Distinct;
    if es == [] {
      DistinctEmpty(EntryNames(AddedAll([], es)));
    } else {
      var n := |es| - 1;
      var front := AddedAll([], es[..n]);
      AddedDistinct(es[..n]);
      DistinctSnoc(EntryNames(front), es[n].name);
      assert EntryNames(front + [es[n]]) == EntryNames(front) + [es[n].name];
    }
  }

  lemma EntrySays(i: Input, p: Parsed, file: Image, at: nat)
    requires Coherent(i) && FaithfulAs(i, p, file) && at < |BuiltEntries(i)|
    ensures SymbolSays(i, p, file, at, BuiltEntries(i)[at].name)
  {
    hide Coherent, ChunksOf, Select, OffsetAt, Holds, AllEntries, AddedAll, ContentsFaithful, CustomFaithful,
      RelocationsIn, RelocsOf, Tiled, Announced, Keys, IndexOf, StrCells, TextAt, NoNul, ObjectNamed, CustomNamed,
      Describes, HomeSection, HomeOffset, Chunk.Cells, AddrOf, Distinct;
    var e := BuiltEntries(i)[at];
    assert SymbolFaithful(e, at, p, file);
    AddedDistinct(AllEntries(i));
    IndexOfDistinct(EntryNames(BuiltEntries(i)), at);
    assert EntryNames(BuiltEntries(i))[at] == e.name && SymbolNamed(i, e.name) == e;
    NamesBuilt(i, e.name);
    NameSays(i, p, file, at);
  }

  lemma NameSays(i: Input, p: Parsed, file: Image, at: nat)
    requires Coherent(i) && at < |BuiltEntries(i)| && SymbolFaithful(BuiltEntries(i)[at], at, p, file)
    requires var name := BuiltEntries(i)[at].name;
             && name in EntryNames(BuiltEntries(i)) && SymbolNamed(i, name) == BuiltEntries(i)[at] && name != ""
             && (ObjectNamed(i, name) || CustomNamed(i, name) || name in ImportNames(i.imports))
    ensures SaysName(i, p, at, BuiltEntries(i)[at].name)
  {
    hide Coherent, BuiltEntries, SymbolNamed, CustomNamed, HomeSection, HomeOffset, AddrOf, TextAt, NoNul, ChunksOf;
    var name := BuiltEntries(i)[at].name;
    if ObjectNamed(i, name) {
      var d :| d in i.definitions && !d.decl.SectionDecl? && d.name == name;
      OwnSymbol(i, d);
      assert LiesAt(p, at, HomeSection(i, d), HomeOffset(i, d), d.decl.scope == Global);
    } else if CustomNamed(i, name) {
      var d, m := CustomStays(i, name);
      assert FirstCustom(i, d, name) && LiesAt(p, at, HomeSection(i, d), d.symbols[m].1, true);
    } else {
      var m :| 0 <= m < |i.imports| && ImportNames(i.imports)[m] == name;
      ImportIff(i, m);
    }
  }

  /** The file in the artifact's own terms: every definition is in the right section, aligned
      and with its bytes; there is one symbol for each name, saying what it stands for; and
      every link that is not dropped has a relocation. */
  ghost predicate FileSays(i: Input, p: Parsed, file: Image) {
    && (forall d :: d in i.definitions ==> SectionSays(i, d, p, file))
    && ClaimsSay(i, p)
    && (exists names :: NamesSay(i, p, file, names))
    && (forall k :: 0 <= k < |i.links| && !Dropped(i, i.links[k]) ==> LinkSays(i, p, file, k))
  }

  ghost predicate NamesSay(i: Input, p: Parsed, file: Image, names: seq<string>) {
    && |p.symbols| == |names| && Distinct(names)
    && (forall name :: name in names <==>
          name != "" && (ObjectNamed(i, name) || CustomNamed(i, name) || name in ImportNames(i.imports)))
    && (forall at :: 0 <= at < |names| ==> SymbolSays(i, p, file, at, names[at]))
  }

  ghost predicate LinkSays(i: Input, p: Parsed, file: Image, k: nat)
    requires k < |i.links|
  {
    exists d, j: nat, at: nat, r: RelocationInfo ::
      d in i.definitions && i.links[k].from == Binding(d.name, Defined(d.decl)) && PatchIn(i, p, file, k, d, j, at, r)
  }

  lemma FaithfulSays(i: Input, p: Parsed, file: Image)
    requires Coherent(i) && WellNamed(i) && NoneRefused(i.links) && FaithfulAs(i, p, file)
    ensures FileSays(i, p, file)
  {
    hide FaithfulAs, SectionSays, NamesSay, PatchIn, Coherent, WellNamed, Dropped, Refused, ClaimsSay;
    ContentsSay(i, p, file);
    ClaimsAreSaid(i, p, file);
    forall k | 0 <= k < |i.links| && !Dropped(i, i.links[k])
      ensures LinkSays(i, p, file, k)
    {
      var l := i.links[k];
      LinksResolve(i, k);
      var n :| 0 <= n < |i.definitions| && i.definitions[n].name == l.from.name &&
        l.from.decl == Defined(i.definitions[n].decl);
      PlacementInFile(i, p, file, k, i.definitions[n]);
    }
  }

  lemma ContentsSay(i: Input, p: Parsed, file: Image)
    requires Coherent(i) && FaithfulAs(i, p, file)
    ensures forall d :: d in i.definitions ==> SectionSays(i, d, p, file)
    ensures NamesSay(i, p, file, EntryNames(BuiltEntries(i)))
  {
    hide Coherent, ChunksOf, Select, Holds, AllEntries, AddedAll, ContentsFaithful, CustomFaithful, SymbolFaithful,
      RelocationsIn, RelocsOf, Tiled, Announced, Keys, StrCells, SectionSays, SymbolSays, ObjectNamed, CustomNamed,
      Describes, Distinct, Chunk.Cells;
    forall d | d in i.definitions
      ensures SectionSays(i, d, p, file)
    {
      SectionIsSaid(i, d, p, file);
    }
    AddedDistinct(AllEntries(i));
    forall name
      ensures name in EntryNames(BuiltEntries(i)) <==>
              name != "" && (ObjectNamed(i, name) || CustomNamed(i, name) || name in ImportNames(i.imports))
    {
      NamesBuilt(i, name);
    }
    forall at | 0 <= at < |BuiltEntries(i)|
      ensures SymbolSays(i, p, file, at, BuiltEntries(i)[at].name)
    {
      EntrySays(i, p, file, at);
    }
  }
}
