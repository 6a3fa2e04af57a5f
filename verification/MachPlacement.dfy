/** What becomes of each link in a Mach-O file: which links panic, which are dropped,
    and which relocations are filed under the section that holds the patched bytes. */
module MachPlacement {
  import opened Collections
  import opened ObjectFile
  import opened Decls
  import opened MachFormat
  import opened MachSymbols
  import opened MachLayout
  import opened MachRelocs
  import opened MachEmit
  import opened MachEntries
  import opened MachProperties

  // ----- which names are section keys -----

  function BuiltInNames(): seq<string> {
    ["__text", "__data", "__cstring", "__bss"]
  }

  /** The keys of the segment's sections are the built-in names and the custom sections. */
  lemma KeyIff(i: Input, b: Binding)
    requires Coherent(i) && DefinedAs(i.definitions, b)
    ensures b.name in BuiltKeys(i) <==>
            b.decl.IsSection() || b.name in BuiltInNames()
  {
    hide Select, Coherent, ChunksOf, Dedup, BuiltInNames;
    var n :| 0 <= n < |i.definitions| && i.definitions[n].name == b.name && b.decl == Defined(i.definitions[n].decl);
    ChunkKeys(i);
    if b.decl.IsSection() {
      var m := Selected(i.definitions, i.definitions[n]);
      assert Names(Select(i.definitions, None))[m] == b.name;
    } else {
      NoCustomOf(i, i.definitions[n]);
    }
  }

  /** No custom section has the name of a function or data object. */
  lemma NoCustomOf(i: Input, d: Definition)
    requires Coherent(i) && d in i.definitions && !d.decl.SectionDecl?
    ensures d.name !in Names(Select(i.definitions, None))
  {
    hide Coherent, Select;
    var custom := Select(i.definitions, None);
    SelectMembers(i.definitions, None);
    forall m | 0 <= m < |custom|
      ensures custom[m].name != d.name
    {
      assert custom[m] in custom;
      if custom[m].name == d.name {
        OneOfEachName(i, custom[m], d);
      }
    }
  }

  lemma ChunkKeys(i: Input)
    ensures Keys(ChunksOf(i)) == BuiltInNames() + Names(Select(i.definitions, None))
  {
    hide Select, Chunk.Cells, Chunk.Exp;
  }

  // ----- panics and drops -----

  /** The links on which emission panics, told from the artifact alone: automatic ones
      that touch a section, raw ones with an addend, and debug ones to a symbol that
      start outside the segment's sections or have an odd size. */
  predicate Refused(l: LinkAndDecl) {
    match l.reloc
    case Auto => l.from.decl.IsSection() || l.to.decl.IsSection()
    case Raw(_, addend) => addend != 0
    case Debug(size, _) =>
      && !l.to.decl.IsSection() && l.to.name != ""
      && (size !in {0, 4, 8} || !(l.from.decl.IsSection() || l.from.name in BuiltInNames()))
  }

  /** The links that are passed over silently: an end without a symbol, or a debug link
      to a section. */
  ghost predicate Dropped(i: Input, l: LinkAndDecl) {
    && !Refused(l)
    && match l.reloc
       case Debug(_, _) => l.to.decl.IsSection() || l.to.name == ""
       case _ => !HasSymbol(i, l.from) || !HasSymbol(i, l.to)
  }

  /** Whatever the names: each link panics, is dropped, or becomes one relocation. */
  lemma FateOfLink(i: Input, l: LinkAndDecl)
    requires Coherent(i) && LinkResolves(i, l)
    ensures var x := EffectOf(BuiltKeys(i), BuiltEntries(i), l);
            && (x.Panics? <==> Refused(l))
            && (x.Skipped? <==> Dropped(i, l))
            && (x.Patch? <==> !Refused(l) && !Dropped(i, l))
  {
    hide Coherent, BuiltEntries, ChunksOf, Keys, Pack, Word, Octet, DefinedAs, ImportedAs, HasSymbol, Dedup, Distinct,
      RelativeOf;
    SymbolIff(i, l.from);
    SymbolIff(i, l.to);
    KeyIff(i, l.from);
    if l.reloc.Auto? && !Refused(l) {
      ResolvedKind(i, l);
    }
    if !l.to.decl.IsSection() {
      PlainHasSymbol(i, l.to);
    }
  }

  lemma PlainHasSymbol(i: Input, b: Binding)
    requires !b.decl.IsSection()
    ensures HasSymbol(i, b) <==> b.name != ""
  {
  }

  lemma ResolvedKind(i: Input, l: LinkAndDecl)
    requires LinkResolves(i, l) && !l.from.decl.IsSection() && !l.to.decl.IsSection()
    ensures AutoKind(l.from.decl, l.to.decl).Some?
    ensures AutoKind(l.from.decl, l.to.decl).value.1 < 16
    ensures AutoKind(l.from.decl, l.to.decl).value.0 <==> l.from.decl.def.DataDecl?
  {
  }

  predicate NoneRefused(links: seq<LinkAndDecl>) {
    forall k :: 0 <= k < |links| ==> !Refused(links[k])
  }

  lemma NoPanicsIff(i: Input)
    requires Coherent(i)
    ensures NoPanics(BuiltKeys(i), BuiltEntries(i), i.links) <==> NoneRefused(i.links)
  {
    hide BuiltEntries, BuiltKeys, EffectOf, Refused, LinkResolves, Distinct, Dropped;
    forall k | 0 <= k < |i.links|
      ensures EffectOf(BuiltKeys(i), BuiltEntries(i), i.links[k]).Panics? <==> Refused(i.links[k])
    {
      FateOfLink(i, i.links[k]);
    }
  }

  // ----- the place a relocation patches -----

  /** The relocation patches `d` at the link's offset. */
  predicate RightPlace(i: Input, d: Definition, l: LinkAndDecl, x: Effect)
    requires d in i.definitions
  {
    x.Patch? && x.section == HomeSection(i, d) && x.reloc.address == HomeOffset(i, d) + l.at
  }

  /** When that is so. Automatic relocations know text and data only; a raw one is filed
      by its type, not by where it starts; a debug one by name, without an offset. */
  predicate PlacedWell(i: Input, d: Definition, l: LinkAndDecl)
    requires d in i.definitions
  {
    match l.reloc
    case Auto => PartOf(d) == Some(TextPart) || PartOf(d) == Some(DataPart)
    case Raw(reloc, _) => PartOf(d) == Some(if reloc % 0x100 == R_ABS then DataPart else TextPart)
    case Debug(_, _) => PartOf(d).None? || (d.name == PartOf(d).value.SectName() && HomeOffset(i, d) == 0)
  }

  /** The number of the symbol that stands under the target's name, as long as it fits. */
  predicate AgainstTarget(es: seq<Entry>, l: LinkAndDecl, r: RelocationInfo) {
    var to := IndexOf(EntryNames(es), l.to.name);
    to.Some? && (to.value < 0x100_0000 ==> SymbolNumber(r) == to.value)
  }

  /** What a relocation has to say about its link. An automatic one calls a function,
      loads data directly or through the GOT, or stores an address, according to the
      declarations at its ends; a raw one has the link's number, as far as it fits; a
      debug one stores an address of the link's size. */
  predicate SaysLink(l: LinkAndDecl, r: RelocationInfo) {
    var code := l.from.decl.Defined? && l.from.decl.def.FunctionDecl?;
    && Unpack(r.info).external
    && match l.reloc
       case Auto =>
         && (TypeNumber(r) == X86_64_RELOC_BRANCH <==>
             code && (l.to.decl == Import(FunctionImport) || (l.to.decl.Defined? && l.to.decl.def.FunctionDecl?)))
         && (TypeNumber(r) == X86_64_RELOC_SIGNED <==> code && l.to.decl.Defined? && l.to.decl.def.DataDecl?)
         && (TypeNumber(r) == X86_64_RELOC_GOT_LOAD <==> code && l.to.decl == Import(DataImport))
         && (TypeNumber(r) == X86_64_RELOC_UNSIGNED <==> l.from.decl.Defined? && l.from.decl.def.DataDecl?)
         && (Unpack(r.info).pcrel <==> code)
         && FieldWidth(r) == if code then 4 else 8
       case Raw(reloc, _) =>
         && TypeNumber(r) == reloc % 16
         && (Unpack(r.info).pcrel <==> reloc % 0x100 != R_ABS)
         && FieldWidth(r) == if reloc % 0x100 == R_ABS then 8 else 4
       case Debug(size, _) =>
         && TypeNumber(r) == X86_64_RELOC_UNSIGNED && !Unpack(r.info).pcrel
         && FieldWidth(r) == if size == 0 then 8 else size
  }

  /** It does, as long as the number of its symbol fits. */
  predicate SaysRight(es: seq<Entry>, l: LinkAndDecl, r: RelocationInfo) {
    var to := IndexOf(EntryNames(es), l.to.name);
    to.Some? && (to.value < 0x100_0000 ==> SaysLink(l, r))
  }

  lemma AutoSays(i: Input, l: LinkAndDecl, r: RelocationInfo)
    requires LinkResolves(i, l) && !Refused(l) && l.reloc.Auto?
    requires var kind := AutoKind(l.from.decl, l.to.decl);
             kind.Some? && MadeWith(r, kind.value.0, 0, kind.value.1)
    ensures SaysLink(l, r)
  {
    hide TypeNumber, FieldWidth, Unpack, ImportedAs;
    ResolvedKind(i, l);
  }

  lemma RawSays(l: LinkAndDecl, r: RelocationInfo)
    requires l.reloc.Raw? && MadeWith(r, l.reloc.reloc % 0x100 == R_ABS, 0, l.reloc.reloc % 0x100)
    ensures SaysLink(l, r)
  {
    hide TypeNumber, FieldWidth, Unpack;
    Mod16(l.reloc.reloc);
  }

  lemma DebugSays(l: LinkAndDecl, r: RelocationInfo)
    requires l.reloc.Debug? && MadeWith(r, true, l.reloc.size, X86_64_RELOC_UNSIGNED)
    ensures SaysLink(l, r)
  {
    hide TypeNumber, FieldWidth, Unpack;
  }

  /** That symbol is the target's own. */
  ghost predicate IsOwn(i: Input, b: Binding, e: Entry) {
    if b.decl.Import? then e == Entry(b.name, UndefinedSymbol)
    else
      exists d ::
        d in i.definitions && PartOf(d).Some? && b == Binding(d.name, Defined(d.decl)) && e == OwnEntry(i, d)
  }

  /** When it is: a section has no symbol, and an import loses its to a custom symbol. */
  ghost predicate KeepsSymbol(i: Input, b: Binding) {
    !b.decl.IsSection() && (b.decl.Import? ==> !CustomNamed(i, b.name))
  }

  lemma OwnTargetIff(i: Input, b: Binding)
    requires Coherent(i) && (DefinedAs(i.definitions, b) || ImportedAs(i.imports, b))
    requires b.name in EntryNames(BuiltEntries(i))
    ensures IsOwn(i, b, SymbolNamed(i, b.name)) <==> KeepsSymbol(i, b)
  {
    hide Coherent, BuiltEntries, SymbolNamed, OwnEntry, CustomNamed;
    NotNameless(i, b.name);
    if DefinedAs(i.definitions, b) {
      var n :| 0 <= n < |i.definitions| && i.definitions[n].name == b.name && b.decl == Defined(i.definitions[n].decl);
      if !b.decl.IsSection() {
        OwnSymbol(i, i.definitions[n]);
      }
    } else {
      var m :| 0 <= m < |i.imports| && i.imports[m].0 == b.name && b.decl == Import(i.imports[m].1);
      ImportIff(i, m);
    }
  }

  lemma NotNameless(i: Input, name: string)
    requires name in EntryNames(BuiltEntries(i))
    ensures name != ""
  {
    hide AllEntries, AddedAll;
    AddedNames(AllEntries(i), name);
  }

  /** Every link that is neither refused nor dropped becomes one relocation. It refers to
      the target's own symbol, and patches the bytes of `from`, exactly as told above. */
  lemma PlacementIff(i: Input, l: LinkAndDecl, d: Definition)
    requires Coherent(i) && WellNamed(i) && LinkResolves(i, l) && !Refused(l) && !Dropped(i, l)
    requires d in i.definitions && l.from == Binding(d.name, Defined(d.decl))
    ensures var x := EffectOf(Keys(ChunksOf(i)), BuiltEntries(i), l);
            && x.Patch?
            && (RightPlace(i, d, l, x) <==> PlacedWell(i, d, l))
            && AgainstTarget(BuiltEntries(i), l, x.reloc) && SaysRight(BuiltEntries(i), l, x.reloc)
            && (IsOwn(i, l.to, SymbolNamed(i, l.to.name)) <==> KeepsSymbol(i, l.to))
  {
    hide Coherent, BuiltEntries, WellNamed, Select, CreateRelocation, OffsetAt, ChunksOf, Keys, IndexOf, SymbolNumber,
      Refused, Dropped, HomeOffset, DefinedAs, ImportedAs, Distinct, RelativeOf, AutoKind, IsOwn, KeepsSymbol,
      SymbolNamed, BuiltKeys, SaysLink, MadeWith;
    FateOfLink(i, l);
    KeysAsNamed(i);
    var keys, es := Keys(ChunksOf(i)), BuiltEntries(i);
    match l.reloc {
      case Auto =>
        NotRefusedAuto(i, l);
        PlacedSymbol(i, l, d, AutoKind(l.from.decl, l.to.decl).value.0, AutoKind(l.from.decl, l.to.decl).value.1);
        if IndexOf(EntryNames(es), l.to.name).value < 0x100_0000 {
          AutoSays(i, l, EffectOf(keys, es, l).reloc);
        }
      case Raw(reloc, _) =>
        PlacedSymbol(i, l, d, reloc % 0x100 == R_ABS, reloc % 0x100);
        if IndexOf(EntryNames(es), l.to.name).value < 0x100_0000 {
          RawSays(l, EffectOf(keys, es, l).reloc);
        }
      case Debug(size, _) =>
        DebugSection(i, d);
        if PartOf(d).None? {
          SectionStart(i, d);
        }
        Created(IndexOf(EntryNames(es), l.to.name).value, l.at, true, size, X86_64_RELOC_UNSIGNED);
        if IndexOf(EntryNames(es), l.to.name).value < 0x100_0000 {
          DebugSays(l, EffectOf(keys, es, l).reloc);
        }
    }
    OwnTargetIff(i, l.to);
  }

  lemma NotRefusedAuto(i: Input, l: LinkAndDecl)
    requires LinkResolves(i, l) && !Refused(l) && l.reloc.Auto?
    ensures !l.from.decl.IsSection() && AutoKind(l.from.decl, l.to.decl).Some?
    ensures AutoKind(l.from.decl, l.to.decl).value.0 <==> l.from.decl.def.DataDecl?
  {
    ResolvedKind(i, l);
  }

  /** An automatic or raw relocation: its address is that of the symbol called like
      `from`, its section is text or data. */
  lemma PlacedSymbol(i: Input, l: LinkAndDecl, d: Definition, absolute: bool, typ: nat)
    requires Coherent(i) && d in i.definitions && l.from == Binding(d.name, Defined(d.decl))
    requires Placed(BuiltEntries(i), l, absolute, typ).Patch?
    ensures var x := Placed(BuiltEntries(i), l, absolute, typ);
            && (RightPlace(i, d, l, x) <==> PartOf(d) == Some(if absolute then DataPart else TextPart))
            && AgainstTarget(BuiltEntries(i), l, x.reloc)
            && (IndexOf(EntryNames(BuiltEntries(i)), l.to.name).value < 0x100_0000 ==>
                  MadeWith(x.reloc, absolute, 0, typ))
  {
    hide Coherent, BuiltEntries, Select, OffsetAt, ChunksOf, Keys, Distinct, Pack, Word, Octet, SymbolNumber, IndexOf,
      AddrOf, MadeWith;
    var es := BuiltEntries(i);
    if PartOf(d).Some? {
      NotNameless(i, d.name);
      OwnSymbol(i, d);
    }
    Created(IndexOf(EntryNames(es), l.to.name).value, RelativeOf(es, l.from.name) + l.at, absolute, 0, typ);
  }

  lemma SectionStart(i: Input, d: Definition)
    requires d in i.definitions && PartOf(d).None?
    ensures HomeOffset(i, d) == 0
  {
  }

  /** A key leads to the section itself, or to a built-in section of that name. */
  lemma DebugSection(i: Input, d: Definition)
    requires WellNamed(i) && d in i.definitions && d.name in Keys(ChunksOf(i))
    ensures var j := IndexOf(Keys(ChunksOf(i)), d.name).value;
            j == HomeSection(i, d) <==> PartOf(d).None? || d.name == PartOf(d).value.SectName()
  {
    hide Select, BuiltEntries, ChunksOf, Chunk.Cells, Chunk.Exp;
    var keys := Keys(ChunksOf(i));
    ChunkPositions(i);
    var h := HomeSection(i, d);
    IndexOfDistinct(keys, h);
  }

  lemma Created(symbol: nat, address: nat, absolute: bool, size: nat, typ: nat)
    ensures var r := CreateRelocation(symbol, address, absolute, size, typ);
            && (r.Some? <==> size in {0, 4, 8})
            && (r.Some? ==> r.value.address == address && (symbol < 0x100_0000 ==> SymbolNumber(r.value) == symbol))
            && (r.Some? && symbol < 0x100_0000 ==> MadeWith(r.value, absolute, size, typ))
  {
    hide Pack, Unpack, Word, SymbolNumber, Octet, TypeNumber, FieldWidth;
    if symbol < 0x100_0000 && size in {0, 4, 8} {
      SymbolSurvives(symbol, address, absolute, size, typ);
      FieldsSurvive(symbol, address, absolute, size, typ);
    }
  }

  predicate MadeWith(r: RelocationInfo, absolute: bool, size: nat, typ: nat) {
    && Unpack(r.info).external && Unpack(r.info).pcrel == !absolute
    && TypeNumber(r) == typ % 16
    && FieldWidth(r) == if size == 0 then (if absolute then 8 else 4) else size
  }

  // ----- the relocations in the file -----

  /** The place of link `k` in the run of its section: after the earlier links there. */
  function RunPosition(keys: seq<string>, es: seq<Entry>, links: seq<LinkAndDecl>, k: nat): nat
    requires k < |links| && EffectOf(keys, es, links[k]).Patch?
  {
    |RelocsOf(keys, es, links[..k], EffectOf(keys, es, links[k]).section)|
  }

  lemma {:induction false} RunGrows(keys: seq<string>, es: seq<Entry>, links: seq<LinkAndDecl>, a: nat, b: nat, j: nat)
    requires a <= b <= |links|
    ensures RelocsOf(keys, es, links[..a], j) <= RelocsOf(keys, es, links[..b], j)
  {
    hide EffectOf, RelocsOf;
    if a < b {
      RunGrows(keys, es, links, a, b - 1, j);
      RelocsSnoc(keys, es, links, b - 1, j);
    }
  }

  /** Both links become relocations of one section. */
  predicate SameSection(keys: seq<string>, es: seq<Entry>, l: LinkAndDecl, l': LinkAndDecl) {
    var x, y := EffectOf(keys, es, l), EffectOf(keys, es, l');
    x.Patch? && y.Patch? && x.section == y.section
  }

  /** Each link has its place in a run, and later links of a section come later. */
  lemma RunHolds(keys: seq<string>, es: seq<Entry>, links: seq<LinkAndDecl>, k: nat)
    requires k < |links| && EffectOf(keys, es, links[k]).Patch?
    ensures var x, at := EffectOf(keys, es, links[k]), RunPosition(keys, es, links, k);
            && at < |RelocsOf(keys, es, links, x.section)| && RelocsOf(keys, es, links, x.section)[at] == x.reloc
            && forall m :: k < m < |links| && SameSection(keys, es, links[k], links[m]) ==>
                 at < RunPosition(keys, es, links, m)
  {
    hide EffectOf, RelocsOf;
    var x := EffectOf(keys, es, links[k]);
    RelocsSnoc(keys, es, links, k, x.section);
    RunGrows(keys, es, links, k + 1, |links|, x.section);
    assert links[..|links|] == links;
    forall m | k < m < |links|
      ensures RelocsOf(keys, es, links[..k + 1], x.section) <= RelocsOf(keys, es, links[..m], x.section)
    {
      RunGrows(keys, es, links, k + 1, m, x.section);
    }
  }

  /** Every relocation of a run is that of a link, at its place. */
  lemma {:induction false} RunOrigin(keys: seq<string>, es: seq<Entry>, links: seq<LinkAndDecl>, j: nat, at: nat)
    returns (k: nat)
    requires at < |RelocsOf(keys, es, links, j)|
    ensures k < |links| && EffectOf(keys, es, links[k]).Patch? && EffectOf(keys, es, links[k]).section == j
    ensures RunPosition(keys, es, links, k) == at
  {
    hide EffectOf;
    var n := |links| - 1;
    if at < |RelocsOf(keys, es, links[..n], j)| {
      k := RunOrigin(keys, es, links[..n], j, at);
      assert links[..n][..k] == links[..k];
    } else {
      k := n;
    }
  }

  /** Relocation `at` in the run read for section `j`. */
  ghost predicate InRun(p: Parsed, file: Image, j: nat, at: nat, r: RelocationInfo) {
    && j < |p.sections| && RelocationsIn(file, p.sections[j]).Some?
    && at < |RelocationsIn(file, p.sections[j]).value| && RelocationsIn(file, p.sections[j]).value[at] == r
  }

  /** Link `k` has place `at` in the run of section `j`, and is there in the file. */
  ghost predicate Occupies(i: Input, p: Parsed, file: Image, k: nat, j: nat, at: nat) {
    && k < |i.links|
    && var x := EffectOf(Keys(ChunksOf(i)), BuiltEntries(i), i.links[k]);
       && x.Patch? && x.section == j
       && at == RunPosition(Keys(ChunksOf(i)), BuiltEntries(i), i.links, k)
       && InRun(p, file, j, at, x.reloc)
  }

  lemma LinkOccupies(i: Input, p: Parsed, file: Image, k: nat)
    requires Coherent(i) && WellNamed(i) && FaithfulAs(i, p, file) && k < |i.links| && !Refused(i.links[k])
    requires !Dropped(i, i.links[k])
    ensures var keys, es := Keys(ChunksOf(i)), BuiltEntries(i);
            var x := EffectOf(keys, es, i.links[k]);
            x.Patch? && Occupies(i, p, file, k, x.section, RunPosition(keys, es, i.links, k))
  {
    hide BuiltEntries, Keys, WellNamed, EffectOf, RelocsOf, LinkResolves, Refused, Dropped, ContentsFaithful,
      CustomFaithful, SymbolFaithful, Tiled, Describes, RelocationsIn, Select, Distinct, ChunksOf;
    var keys, es := Keys(ChunksOf(i)), BuiltEntries(i);
    KeysAsNamed(i);
    FateOfLink(i, i.links[k]);
    RunHolds(keys, es, i.links, k);
    ChunkPositions(i);
    EffectInRange(keys, es, i.links[k]);
  }

  lemma DroppedIsNowhere(i: Input, p: Parsed, file: Image, k: nat)
    requires Coherent(i) && WellNamed(i) && k < |i.links| && Dropped(i, i.links[k])
    ensures forall j: nat, at: nat :: !Occupies(i, p, file, k, j, at)
  {
    hide BuiltEntries, Keys, WellNamed, EffectOf, RelocsOf, LinkResolves, Dropped, RelocationsIn, Distinct, ChunksOf;
    KeysAsNamed(i);
    FateOfLink(i, i.links[k]);
  }

  /** One place has one link. */
  lemma PlacesDiffer(i: Input, p: Parsed, file: Image, k: nat, m: nat, j: nat, at: nat)
    requires Occupies(i, p, file, k, j, at) && Occupies(i, p, file, m, j, at)
    ensures k == m
  {
    hide BuiltEntries, Keys, EffectOf, RelocsOf, RelocationsIn, ChunksOf, RunPosition;
    RunHolds(Keys(ChunksOf(i)), BuiltEntries(i), i.links, k);
    RunHolds(Keys(ChunksOf(i)), BuiltEntries(i), i.links, m);
  }

  lemma PlaceHasLink(i: Input, p: Parsed, file: Image, j: nat, at: nat, r: RelocationInfo)
    requires FaithfulAs(i, p, file) && InRun(p, file, j, at, r)
    ensures exists k: nat :: Occupies(i, p, file, k, j, at)
  {
    hide BuiltEntries, Keys, EffectOf, RelocsOf, RelocationsIn, ChunksOf, ContentsFaithful, CustomFaithful,
      SymbolFaithful, Tiled, Describes, Select;
    var keys, es := Keys(ChunksOf(i)), BuiltEntries(i);
    var k := RunOrigin(keys, es, i.links, j, at);
    RunHolds(keys, es, i.links, k);
    assert Occupies(i, p, file, k, j, at);
  }

  /** The runs of the file hold exactly the links that are not dropped: each of those
      has a place, the others have none, and each place has one link. */
  lemma RunsAreLinks(i: Input, p: Parsed, file: Image)
    requires Coherent(i) && WellNamed(i) && NoneRefused(i.links) && FaithfulAs(i, p, file)
    ensures forall k :: 0 <= k < |i.links| ==>
              (Dropped(i, i.links[k]) <==> !exists j: nat, at: nat :: Occupies(i, p, file, k, j, at))
    ensures forall k: nat, m: nat, j: nat, at: nat ::
              Occupies(i, p, file, k, j, at) && Occupies(i, p, file, m, j, at) ==> k == m
    ensures forall j: nat, at: nat, r :: InRun(p, file, j, at, r) ==> exists k: nat :: Occupies(i, p, file, k, j, at)
  {
    hide Coherent, WellNamed, FaithfulAs, Occupies, InRun, Dropped, Refused;
    forall k | 0 <= k < |i.links|
      ensures Dropped(i, i.links[k]) <==> !exists j: nat, at: nat :: Occupies(i, p, file, k, j, at)
    {
      if Dropped(i, i.links[k]) {
        DroppedIsNowhere(i, p, file, k);
      } else {
        LinkOccupies(i, p, file, k);
      }
    }
    forall k: nat, m: nat, j: nat, at: nat | Occupies(i, p, file, k, j, at) && Occupies(i, p, file, m, j, at)
      ensures k == m
    {
      PlacesDiffer(i, p, file, k, m, j, at);
    }
    forall j: nat, at: nat, r | InRun(p, file, j, at, r)
      ensures exists k: nat :: Occupies(i, p, file, k, j, at)
    {
      PlaceHasLink(i, p, file, j, at, r);
    }
  }

  /** The bytes of a definition in the file. */
  lemma HomeHolds(i: Input, p: Parsed, file: Image, d: Definition)
    requires FaithfulAs(i, p, file) && d in i.definitions
    ensures HomeSection(i, d) < |p.sections|
    ensures Holds(file, p.sections[HomeSection(i, d)].offset + HomeOffset(i, d), ContentsOf(d))
  {
    hide BuiltEntries, Select, OffsetAt, ChunksOf, SymbolFaithful, RelocsOf, Holds, Keys, Tiled, Describes,
      RelocationsIn, IndexOf, Announced, StrCells, Chunk.Cells, ContentsOf;
    var k := PositionOf(i, d);
    match PartOf(d) {
      case Some(part) =>
        assert ContentsFaithful(Select(i.definitions, Some(part)), part, p, file);
      case None =>
        assert CustomFaithful(Select(i.definitions, None)[k], NUM_DEFAULT_SECTIONS + k, p, file);
    }
  }

  /** Link `k`, which starts in `d`, in the file: its relocation is in the run of a
      section, and if it is placed well it patches the byte of `d` at the link's offset. */
  lemma PlacementInFile(i: Input, p: Parsed, file: Image, k: nat, d: Definition)
    requires Coherent(i) && WellNamed(i) && FaithfulAs(i, p, file) && k < |i.links| && !Refused(i.links[k])
    requires !Dropped(i, i.links[k])
    requires d in i.definitions && i.links[k].from == Binding(d.name, Defined(d.decl))
    ensures exists j: nat, at: nat, r: RelocationInfo :: PatchIn(i, p, file, k, d, j, at, r)
  {
    hide Coherent, BuiltEntries, WellNamed, ChunksOf, LinkResolves, EffectOf, Keys, FaithfulAs, Refused, Dropped, Holds,
      HomeOffset, HomeSection, InRun, RunPosition, RelocsOf, IsOwn, KeepsSymbol, SymbolNamed, SymbolNumber, SaysLink;
    var keys, es := Keys(ChunksOf(i)), BuiltEntries(i);
    var x := EffectOf(keys, es, i.links[k]);
    LinksResolve(i, k);
    PlacementIff(i, i.links[k], d);
    LinkOccupies(i, p, file, k);
    HomeHolds(i, p, file, d);
    assert PatchIn(i, p, file, k, d, x.section, RunPosition(keys, es, i.links, k), x.reloc);
  }

  ghost predicate PatchIn(i: Input, p: Parsed, file: Image, k: nat, d: Definition, j: nat, at: nat, r: RelocationInfo)
    requires d in i.definitions && k < |i.links|
  {
    && Occupies(i, p, file, k, j, at) && InRun(p, file, j, at, r)
    && AgainstTarget(BuiltEntries(i), i.links[k], r) && SaysRight(BuiltEntries(i), i.links[k], r)
    && i.links[k].to.name in EntryNames(BuiltEntries(i))
    && (IsOwn(i, i.links[k].to, SymbolNamed(i, i.links[k].to.name)) <==> KeepsSymbol(i, i.links[k].to))
    && HomeSection(i, d) < |p.sections|
    && var first := p.sections[HomeSection(i, d)].offset + HomeOffset(i, d);
       && Holds(file, first, ContentsOf(d))
       && (PlacedWell(i, d, i.links[k]) <==>
           j == HomeSection(i, d) && p.sections[j].offset + r.address == first + i.links[k].at)
  }

  lemma LinksResolve(i: Input, k: nat)
    requires Coherent(i) && k < |i.links|
    ensures LinkResolves(i, i.links[k])
  {
  }

  // ----- links that go wrong -----

  /** A string that refers to an import: its relocation is filed under plain data. */
  function StringWithLink(): Input {
    var decl := DataDecl(Local, Default, false, CString, None);
    Input("t.o", [Definition("s", Blob([0]), [], decl)], [("g", DataImport)],
          [LinkAndDecl(Binding("s", Defined(decl)), Binding("g", Import(DataImport)), 0, Auto)])
  }

  lemma StringRelocationMisfiled()
    ensures var i := StringWithLink();
            && Coherent(i) && WellNamed(i) && PartOf(i.definitions[0]) == Some(CStringPart)
            && var x := EffectOf(BuiltKeys(i), BuiltEntries(i), i.links[0]);
               x.Patch? && x.section == DataPart.Index()
  {
    hide BuiltKeys, BuiltEntries, CreateRelocation, SymbolNumber, Coherent, WellNamed, RelativeOf;
    var i := StringWithLink();
    StringIsCoherent();
    LinksResolve(i, 0);
    FateOfLink(i, i.links[0]);
  }

  lemma StringIsCoherent()
    ensures Coherent(StringWithLink()) && WellNamed(StringWithLink())
  {
    hide ChunksOf, Select;
    var i := StringWithLink();
    assert "s"[0] != "g"[0];
    assert i.definitions[0].name == "s" && DefinedAs(i.definitions, i.links[0].from);
    assert i.imports[0] == ("g", DataImport) && ImportedAs(i.imports, i.links[0].to);
    KeysClashIff(i);
  }

  /** A custom section with a raw link to an import: nothing in the file stands for it. */
  function SectionWithLink(): Input {
    var decl := SectionDecl(DataSection, RawBytes, None);
    Input("t.o", [Definition("s", Blob([0]), [], decl)], [("g", DataImport)],
          [LinkAndDecl(Binding("s", Defined(decl)), Binding("g", Import(DataImport)), 0, Raw(1, 0))])
  }

  lemma SectionLinkDropped()
    ensures var i := SectionWithLink();
            Coherent(i) && !Refused(i.links[0]) && Dropped(i, i.links[0])
            && EffectOf(BuiltKeys(i), BuiltEntries(i), i.links[0]).Skipped?
  {
    hide BuiltKeys, BuiltEntries, EffectOf;
    var i := SectionWithLink();
    assert Coherent(i) by {
      assert "s"[0] != "g"[0];
      assert i.definitions[0].name == "s" && DefinedAs(i.definitions, i.links[0].from);
      assert i.imports[0] == ("g", DataImport) && ImportedAs(i.imports, i.links[0].to);
    }
    forall d, m: nat | d in i.definitions
      ensures !CustomSymbol(d, m, "s")
    {
      assert d == i.definitions[0];
    }
    LinksResolve(i, 0);
    FateOfLink(i, i.links[0]);
  }

  /** A function that refers to an import, and a custom section with a symbol called like
      the import: the link is bound to the custom symbol. */
  function ImportWithCustom(): Input {
    var decl := FunctionDecl(Local, Default, None);
    Input("t.o",
          [Definition("f", Blob([0xe8]), [], decl),
           Definition(".s", Blob([0]), [("g", 0)], SectionDecl(DataSection, RawBytes, None))], [("g", FunctionImport)],
          [LinkAndDecl(Binding("f", Defined(decl)), Binding("g", Import(FunctionImport)), 1, Auto)])
  }

  lemma ImportReplaced()
    ensures var i := ImportWithCustom();
            && Coherent(i) && !Refused(i.links[0]) && !Dropped(i, i.links[0])
            && "g" in EntryNames(BuiltEntries(i)) && !IsOwn(i, i.links[0].to, SymbolNamed(i, "g"))
  {
    hide BuiltEntries, SymbolNamed, IsOwn;
    var i := ImportWithCustom();
    assert Coherent(i) by {
      assert |"f"| != |".s"| && "f"[0] != "g"[0];
      assert i.definitions[0].name == "f" && DefinedAs(i.definitions, i.links[0].from);
      assert i.imports[0] == ("g", FunctionImport) && ImportedAs(i.imports, i.links[0].to);
    }
    assert CustomSymbol(i.definitions[1], 0, "g");
    LinksResolve(i, 0);
    SymbolIff(i, i.links[0].to);
    OwnTargetIff(i, i.links[0].to);
  }

  // ----- section names -----

  /** Section keys are distinct exactly if no custom section is called like a built-in one. */
  lemma KeysClashIff(i: Input)
    requires Coherent(i)
    ensures WellNamed(i) <==>
            forall d :: d in i.definitions && d.decl.SectionDecl? ==> d.name !in BuiltInNames()
  {
    hide WellNamed, Coherent, BuiltInNames;
    if WellNamed(i) {
      forall d | d in i.definitions && d.decl.SectionDecl?
        ensures d.name !in BuiltInNames()
      {
        CustomDiffers(i, d);
      }
    } else {
      var d := CustomClash(i);
    }
  }

  lemma BuiltInNamesDiffer()
    ensures Distinct(BuiltInNames())
  {
    assert |"__text"| == 6 && |"__data"| == 6 && |"__cstring"| == 9 && |"__bss"| == 5;
    assert "__text"[2] != "__data"[2];
  }

  lemma CustomDiffers(i: Input, d: Definition)
    requires WellNamed(i) && d in i.definitions && d.decl.SectionDecl?
    ensures d.name !in BuiltInNames()
  {
    hide Select, ChunksOf, BuiltInNames;
    ChunkKeys(i);
    var m := Selected(i.definitions, d);
    DistinctPrefix(BuiltInNames(), Names(Select(i.definitions, None)));
    assert Names(Select(i.definitions, None))[m] == d.name;
  }

  /** Where keys clash, a custom section has a built-in one's. */
  lemma CustomClash(i: Input) returns (d: Definition)
    requires Coherent(i) && !WellNamed(i)
    ensures d in i.definitions && d.decl.SectionDecl? && d.name in BuiltInNames()
  {
    hide Coherent, Select, ChunksOf, Distinct, BuiltInNames;
    var custom := Select(i.definitions, None);
    ChunkKeys(i);
    BuiltInNamesDiffer();
    CustomNamesDiffer(i);
    var k := Clash(BuiltInNames(), Names(custom));
    d := custom[k];
    SelectMembers(i.definitions, None);
    assert d in custom;
  }

  lemma Clash(a: seq<string>, b: seq<string>) returns (k: nat)
    requires Distinct(a) && Distinct(b) && !Distinct(a + b)
    ensures k < |b| && b[k] in a
  {
    var j, m :| 0 <= j < m < |a + b| && (a + b)[j] == (a + b)[m];
    k := m - |a|;
  }

  lemma CustomNamesDiffer(i: Input)
    requires Coherent(i)
    ensures Distinct(Names(Select(i.definitions, None)))
  {
    hide Select, LinkResolves, EmitOrder, ContentsAllowed;
    DistinctPrefix(Names(i.definitions), ImportNames(i.imports));
    SelectDistinct(i.definitions, None);
  }
}
