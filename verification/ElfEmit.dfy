/** From an artifact's view to an ELF file, and what a reader of that file finds. */
module ElfEmit {
  import opened Collections
  import opened ObjectFile
  import opened Decls
  import opened ElfFormat
  import opened ElfImage
  import opened ElfBuild
  import opened ElfBuilder
  import opened ElfClash

  // ----- what the input asks for -----

  /** The symbols of all definitions: definition `k` lives in section 3 + `k`. */
  function DefinedSymbols(defs: seq<Definition>): seq<NamedSymbol> {
    if defs == [] then []
    else DefinedSymbols(defs[..|defs| - 1]) + SymbolsFor(defs[|defs| - 1], FIRST_SECTION + |defs| - 1)
  }

  function AllSymbols(i: Input): seq<NamedSymbol> {
    DefinedSymbols(i.definitions) + ImportedSymbols(i.imports)
  }

  /** The symbols the file ends up with: those that survive repeated names. */
  function FinalSymbols(i: Input): seq<NamedSymbol> {
    Survivors(AllSymbols(i))
  }

  /** What the caller has to see to for the file to be readable: no two sections share
      a name. */
  ghost predicate WellNamed(i: Input) {
    Distinct(SectionNames(i.definitions))
  }

  ghost predicate Supported(cls: Class, links: seq<LinkAndDecl>) {
    forall k :: 0 <= k < |links| ==> RelocKind(cls, links[k]).Some?
  }

  /** The section of the definition called `name`. */
  function SectionOf(i: Input, name: string): Option<nat> {
    match IndexOf(Names(i.definitions), name)
    case Some(k) => Some(FIRST_SECTION + k)
    case None => None
  }

  /** Position of the symbol called `name` among those that survive. */
  function PositionOf(i: Input, name: string): (r: Option<nat>)
    ensures r.Some? ==> r.value < |FinalSymbols(i)| && FinalSymbols(i)[r.value].name == name
  {
    IndexOf(SymbolNames(FinalSymbols(i)), name)
  }

  /** The section a link end is looked up in: a custom section is found by its name,
      anything else through the symbol that survives under its name. */
  function Landing(i: Input, b: Binding): Option<nat> {
    if b.decl.IsSection() then SectionOf(i, b.name)
    else
      match PositionOf(i, b.name)
      case Some(q) => Some(FinalSymbols(i)[q].symbol.shndx)
      case None => None
  }

  /** The symbol a link to `b` refers to: an import's symbol, or the symbol of the
      section that `b` is looked up in. */
  function TargetSymbol(i: Input, b: Binding): Option<nat> {
    if b.decl.Import? then
      match PositionOf(i, b.name)
      case Some(q) => Some(2 + |i.definitions| + q)
      case None => None
    else
      match Landing(i, b)
      case Some(s) => if s < FIRST_SECTION then None else Some(s - FIRST_SECTION + 2)
      case None => None
  }

  /** The relocation a link stands for: at its offset in the section of `from`. */
  function Expected(cls: Class, i: Input, l: LinkAndDecl): Option<Entry> {
    match Landing(i, l.from)
    case None => None
    case Some(from) =>
      match TargetSymbol(i, l.to)
      case None => None
      case Some(symbol) =>
        match RelocKind(cls, l)
        case None => None
        case Some((typ, addend)) => Some(Entry(from, Relocation(l.at, symbol, typ, addend)))
  }

  /** One entry per link, in link order. */
  function ExpectedEntries(cls: Class, i: Input, links: seq<LinkAndDecl>): seq<Entry> {
    if links == [] then []
    else
      var front := ExpectedEntries(cls, i, links[..|links| - 1]);
      match Expected(cls, i, links[|links| - 1])
      case Some(x) => front + [x]
      case None => front
  }

  lemma ExpectedSnoc(cls: Class, i: Input, links: seq<LinkAndDecl>, k: nat)
    requires k < |links| && Expected(cls, i, links[k]).Some?
    ensures ExpectedEntries(cls, i, links[..k + 1]) ==
            ExpectedEntries(cls, i, links[..k]) + [Expected(cls, i, links[k]).value]
  {
    assert links[..k + 1][..k] == links[..k];
  }

  // ----- positions of a definition's parts -----

  lemma {:induction false} DefinedSymbolAt(defs: seq<Definition>, k: nat, j: nat)
    requires k < |defs| && j < |SymbolsFor(defs[k], FIRST_SECTION + k)|
    ensures |DefinedSymbols(defs[..k])| + j < |DefinedSymbols(defs)|
    ensures DefinedSymbols(defs)[|DefinedSymbols(defs[..k])| + j] == SymbolsFor(defs[k], FIRST_SECTION + k)[j]
  {
    hide SymbolsFor;
    var front := defs[..|defs| - 1];
    if k < |front| {
      DefinedSymbolAt(front, k, j);
      assert front[..k] == defs[..k];
    }
  }

  /** The history a build of `i` has reached. */
  ghost predicate Built(i: Input, h: History) {
    && h.name == i.name
    && h.defs == i.definitions
    && h.specs == AllSymbols(i)
  }

  lemma ExactMaps(e: State, h: History, i: Input)
    requires Core(e, h) && Built(i, h) && WellNamed(i)
    ensures KeyNames(e.strings, e.sections.keys) == SectionNames(i.definitions)
    ensures KeyNames(e.strings, e.symbols.keys) == SymbolNames(FinalSymbols(i))
    ensures SectionsExact(e.cls, e.offsets, e.sections, e.code, i.definitions)
    ensures SymbolsExact(e.offsets, e.symbols, FinalSymbols(i))
    ensures |e.special| == 2 && Distinct(e.strings)
    ensures Distinct(e.sections.keys) && KeysIn(e.strings, e.sections.keys)
    ensures Distinct(e.symbols.keys) && KeysIn(e.strings, e.symbols.keys) && e.symbols.Valid()
  {
    hide Dedup, SectionShapes, KeyNames, KeysIn, GroupsNamed, GroupsExact, SectionsExact, SymbolsExact, AllSymbols,
      Named, SymbolUnder;
    SectionsDistinct(e, h);
    DedupIdentity(SectionNames(i.definitions));
    assert SymbolNames(FinalSymbols(i)) == Dedup(SymbolNames(AllSymbols(i)));
  }

  lemma SectionsDistinct(e: State, h: History)
    requires Core(e, h)
    ensures Distinct(e.sections.keys) && KeysIn(e.strings, e.sections.keys)
  {
  }

  lemma LocateSection(e: State, h: History, i: Input, k: nat)
    requires Core(e, h) && Built(i, h) && WellNamed(i)
    requires k < |i.definitions| && i.definitions[k].decl.SectionDecl?
    ensures e.symbols.Valid()
    ensures Locate(e, Binding(i.definitions[k].name, Defined(i.definitions[k].decl))) ==
            Some((2 + k, FIRST_SECTION + k))
  {
    hide Core, WellNamed, SectionsExact, SymbolsExact, AllSymbols, Distinct, KeysIn;
    ExactMaps(e, h, i);
    KeyAt(e.strings, e.sections.keys, SectionNames(i.definitions), k, i.definitions[k].name);
  }

  /** Anything but a section is found exactly if a symbol of its name survives. */
  lemma LocateSymbol(e: State, h: History, i: Input, b: Binding)
    requires Core(e, h) && Built(i, h) && WellNamed(i) && !b.decl.IsSection() && PositionOf(i, b.name).Some?
    ensures e.symbols.Valid()
    ensures var q := PositionOf(i, b.name).value;
            Locate(e, b) == Some((2 + |i.definitions| + q, FinalSymbols(i)[q].symbol.shndx))
  {
    hide Core, WellNamed, SectionsExact, SymbolsExact, Distinct, KeysIn, FinalSymbols, KeyNames, SectionNames, IndexOf,
      SymbolNames, Built;
    ExactMaps(e, h, i);
    SectionsCounted(e, i.definitions);
    SymbolsCounted(e, FinalSymbols(i));
    var q := PositionOf(i, b.name).value;
    KeyAt(e.strings, e.symbols.keys, SymbolNames(FinalSymbols(i)), q, b.name);
  }

  lemma NamePositions(i: Input)
    requires Coherent(i)
    ensures forall k :: 0 <= k < |i.definitions| ==> SectionOf(i, i.definitions[k].name) == Some(FIRST_SECTION + k)
  {
    hide LinkResolves, IndexOf, Distinct, EmitOrder, ContentsAllowed;
    DistinctPrefix(Names(i.definitions), ImportNames(i.imports));
    forall k | 0 <= k < |i.definitions|
      ensures SectionOf(i, i.definitions[k].name) == Some(FIRST_SECTION + k)
    {
      IndexOfDistinct(Names(i.definitions), k);
    }
  }

  /** Every end of a link has a symbol that survives, unless it is a section. */
  lemma EndHasSymbol(i: Input, b: Binding)
    requires !b.decl.IsSection() && (DefinedAs(i.definitions, b) || ImportedAs(i.imports, b))
    ensures PositionOf(i, b.name).Some?
  {
    hide DefinedSymbols, Dedup, Survivors;
    var specs := AllSymbols(i);
    assert b.name in SymbolNames(specs) by {
      if DefinedAs(i.definitions, b) {
        var k :| 0 <= k < |i.definitions| && i.definitions[k].name == b.name &&
          b.decl == Defined(i.definitions[k].decl);
        DefinedSymbolAt(i.definitions, k, 0);
        assert SymbolNames(specs)[|DefinedSymbols(i.definitions[..k])|] == b.name;
      } else {
        var m :| 0 <= m < |i.imports| && i.imports[m].0 == b.name;
        assert SymbolNames(specs)[|DefinedSymbols(i.definitions)| + m] == b.name;
      }
    }
    assert SymbolNames(FinalSymbols(i)) == Dedup(SymbolNames(specs));
  }

  /** Each end of a link is found where the artifact says. */
  lemma LocateEnd(e: State, h: History, i: Input, b: Binding)
    requires Core(e, h) && Built(i, h) && WellNamed(i) && Coherent(i)
    requires DefinedAs(i.definitions, b) || ImportedAs(i.imports, b)
    ensures e.symbols.Valid()
    ensures Locate(e, b).Some? && Landing(i, b) == Some(Locate(e, b).value.1)
    ensures b.decl.Import? ==> TargetSymbol(i, b) == Some(Locate(e, b).value.0)
  {
    hide Core, WellNamed, Coherent, Locate, SectionOf, Distinct, PositionOf, FinalSymbols;
    CoreShapes(e, h);
    if b.decl.IsSection() {
      NamePositions(i);
      var k :| 0 <= k < |i.definitions| && i.definitions[k].name == b.name && b.decl == Defined(i.definitions[k].decl);
      assert b == Binding(i.definitions[k].name, Defined(i.definitions[k].decl));
      LocateSection(e, h, i, k);
    } else {
      EndHasSymbol(i, b);
      LocateSymbol(e, h, i, b);
    }
  }

  /** With distinct section names every link resolves to exactly the expected entry, and
      the only way it can fail is an unsupported pair. */
  lemma LinkIsExpected(e: State, h: History, i: Input, l: LinkAndDecl)
    requires Inv(e, h) && Built(i, h) && WellNamed(i) && Coherent(i) && LinkResolves(i, l)
    ensures e.symbols.Valid() && e.relocations.Valid()
    ensures EntryFor(e, l) == Expected(e.cls, i, l)
    ensures RelocKind(e.cls, l).Some? <==> WithLink(e, l).Some?
  {
    hide Inv, Core, Coherent, Locate, Landing, PositionOf, RelocKind, Distinct, DefinedAs, ImportedAs, WithLink, Lands,
      LaidSymbols, DefinedSymbols;
    BuiltIsLaid(i, h);
    LinkSucceedsIff(e, h, i, l);
    DistinctLands(i.definitions, l.from);
    InvCore(e, h);
    CoreShapes(e, h);
    LocateEnd(e, h, i, l.from);
    LocateEnd(e, h, i, l.to);
    SpecialTwo(e, h);
  }

  lemma SpecialTwo(e: State, h: History)
    requires Core(e, h)
    ensures |e.special| == 2
  {
  }

  // ----- what a reader finds -----

  /** Every definition's section: its type, its size, exactly its bytes, its name. */
  ghost predicate SectionsFaithful(i: Input, p: Parsed, file: Image) {
    && FIRST_SECTION + |i.definitions| <= |p.headers|
    && forall k :: 0 <= k < |i.definitions| ==> SectionFaithful(i.definitions[k], p, file, FIRST_SECTION + k)
  }

  ghost predicate SectionFaithful(d: Definition, p: Parsed, file: Image, at: nat) {
    && at < |p.headers|
    && p.headers[at].typ == SectionTypeFor(d)
    && p.headers[at].size == d.data.FileSize()
    && p.headers[at].link == 0 && p.headers[at].info == 0 && p.headers[at].entsize == 0
    && (d.data.Blob? ==> Contents(p, file, at) == Some(Bytes(d.data.bytes)))
    && (SectionName(p, file, at) == Codes(SectionNameFor(d)) <==> NoNul(SectionNameFor(d)))
  }

  /** A symbol as asked for: same binding, type, size and value, in the same
      section once the extended index table is consulted, under the same name. */
  ghost predicate SymbolFaithful(s: NamedSymbol, p: Parsed, file: Image, at: nat) {
    && at < |p.symbols| && p.symtab < |p.headers|
    && EffectiveIndex(p, at) == s.symbol.shndx
    && p.symbols[at] == s.symbol.(name := p.symbols[at].name, shndx := p.symbols[at].shndx)
    && (SymbolName(p, file, at) == Codes(s.name) <==> NoNul(s.name))
  }

  /** The section symbol of definition `k` names section 3 + `k`. */
  ghost predicate SectionSymbolFaithful(p: Parsed, k: nat) {
    && 2 + k < |p.symbols|
    && EffectiveIndex(p, 2 + k) == FIRST_SECTION + k
    && p.symbols[2 + k] == SectionSymbol(p.symbols[2 + k].shndx)
  }

  /** The symbol table: null, file, one section symbol per definition, the rest. */
  ghost predicate SymbolsFaithful(i: Input, p: Parsed, file: Image) {
    var n := |i.definitions|;
    && |p.symbols| == 2 + n + |FinalSymbols(i)|
    && p.symbols[0] == NullSymbol
    && p.symbols[1] == CreateSymbol(FromFile, p.symbols[1].name, 0, 0, 0)
    && (forall k :: 0 <= k < n ==> SectionSymbolFaithful(p, k))
    && (forall k :: 0 <= k < |FinalSymbols(i)| ==> SymbolFaithful(FinalSymbols(i)[k], p, file, 2 + n + k))
  }

  /** Behind the file symbol, section fields stay below the reserved values, except for the
      escape value, which is used only with a table to look it up in; and that table covers
      the symbol table exactly. */
  ghost predicate IndicesFit(p: Parsed) {
    && (forall k :: 2 <= k < |p.symbols| ==> p.symbols[k].shndx < 0xff00 || p.symbols[k].shndx == SHN_XINDEX)
    && (p.words.None? ==> forall k :: 0 <= k < |p.symbols| ==> p.symbols[k].shndx != SHN_XINDEX)
    && (p.words.Some? ==> |p.words.value| == |p.symbols|)
  }

  ghost predicate IsRela(p: Parsed, j: nat, shndx: nat) {
    j < |p.headers| && p.headers[j].typ == Rela && p.headers[j].info == shndx
  }

  /** Relocation sections group the entries by patched section: one for every
      section that has any, holding exactly its entries in order. */
  ghost predicate RelocationsFaithful(cls: Class, p: Parsed, file: Image, entries: seq<Entry>) {
    && (forall j :: 0 <= j < |p.headers| && p.headers[j].typ == Rela ==>
          && p.headers[j].link == p.symtab
          && RelocationsIn(cls, file, p.headers[j]) == Some(EntriesFor(entries, p.headers[j].info)))
    && (forall shndx :: shndx in Patched(entries) <==> exists j :: IsRela(p, j, shndx))
    && (forall j, k, shndx :: IsRela(p, j, shndx) && IsRela(p, k, shndx) ==> j == k)
  }

  /** The other sections: how many there are, and what they are called. */
  ghost predicate TablesFaithful(i: Input, p: Parsed, file: Image, entries: seq<Entry>) {
    var n := |i.definitions|;
    var m := if p.words.Some? then 1 else 0;
    && |p.headers| == 4 + n + m + |Dedup(Patched(entries))|
    && p.headers[0].typ == ShtNull && p.headers[1].typ == StrTab && p.headers[2].typ == SymTab
    && (exists strings :: Distinct(strings) && Contents(p, file, 1) == Some(Strtab(strings)))
    && SectionName(p, file, 1) == Codes(".strtab") && SectionName(p, file, 2) == Codes(".symtab")
    && (p.words.Some? ==> p.headers[3 + n].typ == SymTabShndx && p.headers[3 + n].entsize == 4)
    && (p.words.Some? ==> SectionName(p, file, 3 + n) == Codes(".symtab_shndx"))
    && p.headers[|p.headers| - 1].typ == ProgBits && p.headers[|p.headers| - 1].size == 0
    && SectionName(p, file, |p.headers| - 1) == Codes(".note.GNU-stack")
    && (forall j: nat, shndx: nat :: IsRela(p, j, shndx) ==> RelaNamed(i, p, file, j, shndx))
  }

  /** A relocation section is called after the section it patches. */
  ghost predicate RelaNamed(i: Input, p: Parsed, file: Image, j: nat, shndx: nat) {
    && j < |p.headers| && FIRST_SECTION <= shndx < FIRST_SECTION + |i.definitions|
    && var name := ".rela" + SectionNameFor(i.definitions[shndx - FIRST_SECTION]);
       SectionName(p, file, j) == Codes(name) <==> NoNul(name)
  }

  /** A file that parses as `p` is the artifact, nothing lost and nothing added. */
  ghost predicate FaithfulAs(cls: Class, i: Input, p: Parsed, file: Image) {
    && SectionsFaithful(i, p, file)
    && SymbolsFaithful(i, p, file)
    && IndicesFit(p)
    && RelocationsFaithful(cls, p, file, ExpectedEntries(cls, i, i.links))
    && TablesFaithful(i, p, file, ExpectedEntries(cls, i, i.links))
    && p.symtab < |p.headers|
    && (SymbolName(p, file, 1) == Codes(i.name) <==> NoNul(i.name))
    && p.headers[p.symtab].info == 2 + |i.definitions| + LocalCount(i.definitions)
  }

  ghost predicate Faithful(cls: Class, i: Input, file: Image) {
    Parse(cls, file).Some? && FaithfulAs(cls, i, Parse(cls, file).value, file)
  }

  // ----- the string table -----

  lemma {:induction false} StrtabHolds(strings: Strings, i: nat, file: Image, start: nat)
    requires i < |strings| && Holds(file, start, Strtab(strings))
    ensures Holds(file, start + |Strtab(strings[..i])|, Text(strings[i]) + [Byte(0)])
  {
    hide Strtab, Holds;
    var n := |strings| - 1;
    StrtabSnoc(strings, n);
    assert strings[..n + 1] == strings;
    var text: Image := Text(strings[n]) + [Byte(0)];
    assert Strtab(strings) == Strtab(strings[..n]) + text;
    HoldsPart(file, start, Strtab(strings[..n]), text);
    if i < n {
      StrtabHolds(strings[..n], i, file, start);
      assert strings[..n][..i] == strings[..i];
    }
  }

  /** Any offset the builder recorded for a string reads back as that string. */
  lemma NameReads(e: State, name: string, file: Image, idx: nat)
    requires StringsInv(e.strings, e.offsets, e.sizeofStrtab, name) && !Reserved(name)
    requires Holds(file, e.sizeofBits, Strtab(e.strings)) && idx in e.offsets
    ensures idx < |e.strings|
    ensures TextAt(file, e.sizeofBits + e.offsets[idx]) == Codes(e.strings[idx]) <==> NoNul(e.strings[idx])
  {
    StrtabHolds(e.strings, idx, file, e.sizeofBits);
    TextRoundTrip(file, e.sizeofBits + e.offsets[idx], e.strings[idx]);
  }

  lemma BytesSlice(bytes: seq<byte>, at: nat, n: nat)
    requires at + n <= |bytes|
    ensures Bytes<Record>(bytes)[at..at + n] == Bytes(bytes[at..at + n])
  {
  }

  // ----- the proof, part by part -----

  /** Everything known about a finished, well-named build and its file. */
  ghost predicate Finished(e: State, h: History, i: Input, file: Image) {
    && Inv(e, h) && Built(i, h) && WellNamed(i) && !Reserved(i.name)
    && Regions(e, h.extended, file)
    && (h.extended <==> e.nsections > SHN_LORESERVE)
    && (e.nsections >= SHN_LORESERVE ==> h.extended)
    && LateNames(e.strings, h.extended)
  }

  function ParsedAs(e: State, extended: bool): Parsed {
    Parsed(SectionHeaders(e, extended), STRTAB_LINK, SYMTAB_LINK, WrittenSymbols(e),
           if extended then Some(Indices(BuiltSymbols(e))) else None)
  }

  lemma HeaderPositions(e: State, extended: bool)
    ensures var hs := SectionHeaders(e, extended);
            var n := |e.sections.values|;
            var m := |ShndxHeaders(e, extended)|;
            && |hs| == 4 + n + m + |e.relocations.values|
            && m == (if extended then 1 else 0)
            && hs[0] == NullHeaderOf(e) && hs[1] == StrtabHeader(e) && hs[2] == SymtabHeader(e)
            && (forall k :: 0 <= k < n ==> hs[3 + k] == e.sections.values[k].header)
            && (extended ==> hs[3 + n] == ShndxHeaders(e, extended)[0])
            && (forall g :: 0 <= g < |e.relocations.values| ==>
                  hs[3 + n + m + g] == RelaHeaders(e.relocations.values, RelocOffset(e, extended))[g])
            && hs[3 + n + m + |e.relocations.values|] == NoteHeader(e)
  {
    hide NullHeaderOf, StrtabHeader, SymtabHeader, RelocOffset, ShndxHeaders, RelaHeaders, SectionHeadersOf,
      SectionHeaders, Concatenates, NoteHeader;
    HeaderPieces(e, extended);
    FiveParts(SectionHeaders(e, extended), [NullHeaderOf(e), StrtabHeader(e), SymtabHeader(e)],
              SectionHeadersOf(e.sections.values), ShndxHeaders(e, extended),
              RelaHeaders(e.relocations.values, RelocOffset(e, extended)), [NoteHeader(e)]);
  }

  lemma HeaderPieces(e: State, extended: bool)
    ensures Concatenates(SectionHeaders(e, extended), [NullHeaderOf(e), StrtabHeader(e), SymtabHeader(e)],
                         SectionHeadersOf(e.sections.values), ShndxHeaders(e, extended),
                         RelaHeaders(e.relocations.values, RelocOffset(e, extended)), [NoteHeader(e)])
  {
    hide NullHeaderOf, StrtabHeader, SymtabHeader, NoteHeader, RelocOffset, ShndxHeaders, RelaHeaders, SectionHeadersOf;
  }

  ghost predicate Concatenates<T>(all: seq<T>, a: seq<T>, b: seq<T>, c: seq<T>, d: seq<T>, f: seq<T>) {
    all == a + b + c + d + f
  }

  lemma FiveParts<T>(all: seq<T>, a: seq<T>, b: seq<T>, c: seq<T>, d: seq<T>, f: seq<T>)
    requires Concatenates(all, a, b, c, d, f) && |a| == 3 && |c| <= 1 && |f| == 1
    ensures |all| == 4 + |b| + |c| + |d|
    ensures all[0] == a[0] && all[1] == a[1] && all[2] == a[2]
    ensures forall k :: 0 <= k < |b| ==> all[3 + k] == b[k]
    ensures |c| > 0 ==> all[3 + |b|] == c[0]
    ensures forall k :: 0 <= k < |d| ==> all[3 + |b| + |c| + k] == d[k]
    ensures all[3 + |b| + |c| + |d|] == f[0]
  {
  }

  lemma FinishedFacts(e: State, h: History, i: Input, file: Image)
    requires Finished(e, h, i, file)
    ensures StringsInv(e.strings, e.offsets, e.sizeofStrtab, i.name)
    ensures SectionShapes(e.strings, e.sections) && e.sections.Valid()
    ensures GroupsExact(e.cls, e.relocations, h.entries)
    ensures SpecialInv(e.strings, e.offsets, e.special, i.name)
    ensures e.nsections == 4 + |i.definitions| + |e.relocations.keys| + (if h.extended then 1 else 0)
    ensures e.nlocals == LocalCount(i.definitions) && Core(e, h)
    ensures Built(i, h) && WellNamed(i) && LateNames(e.strings, h.extended)
    ensures GroupsNamed(e.strings, e.offsets, e.sections.keys, e.relocations)
  {
  }

  lemma FinishedParses(e: State, h: History, i: Input, file: Image)
    requires Finished(e, h, i, file)
    ensures Parse(e.cls, file) == Some(ParsedAs(e, h.extended))
  {
    hide Inv, WellNamed, Regions, StringsInv, SectionsExact, SymbolsExact, FinalSymbols, GroupExact, Distinct,
      SpecialInv, KeyNames, Core, Named, GroupsExact;
    FinishedFacts(e, h, i, file);
    GroupTypes(e, h.entries);
    ExactMaps(e, h, i);
    SectionsCounted(e, i.definitions);
    HeaderPositions(e, h.extended);
    SpecialTwo(e, h);
    ParseWhole(e, h.extended, file);
  }

  lemma SectionsCounted(e: State, defs: seq<Definition>)
    requires SectionsExact(e.cls, e.offsets, e.sections, e.code, defs)
    ensures |e.sections.values| == |e.sections.keys| == |defs| && e.code.values == Blobs(defs)
    ensures forall k :: 0 <= k < |defs| ==> e.sections.values[k].symbol == SectionSymbol(FIRST_SECTION + k)
  {
  }

  lemma GroupTypes(e: State, entries: seq<Entry>)
    requires GroupsExact(e.cls, e.relocations, entries)
    ensures |e.relocations.keys| == |e.relocations.values|
    ensures GroupsSized(e.cls, e.relocations.values)
    ensures forall g :: 0 <= g < |e.relocations.values| ==>
              && e.relocations.values[g].header.typ == Rela
              && e.relocations.values[g].header.link == SYMTAB_LINK
              && e.relocations.values[g].header.info == e.relocations.keys[g]
              && e.relocations.values[g].relocs == EntriesFor(entries, e.relocations.keys[g])
  {
  }

  // -- sections --

  lemma {:induction false} BlobPosition(cls: Class, defs: seq<Definition>, k: nat)
    requires k < |defs| && defs[k].data.Blob?
    ensures |Flatten(Blobs(defs[..k]))| + |defs[k].data.bytes| <= |Flatten(Blobs(defs))|
    ensures Flatten(Blobs(defs))[|Flatten(Blobs(defs[..k]))|..|Flatten(Blobs(defs[..k]))| + |defs[k].data.bytes|] ==
            defs[k].data.bytes
  {
    hide Flatten, Blobs;
    var front, last := defs[..|defs| - 1], defs[|defs| - 1];
    assert defs == front + [last];
    DefinitionSnoc(front, last);
    if last.data.Blob? {
      FlattenLast(Blobs(front), last.data.bytes);
    }
    var all := Flatten(Blobs(defs));
    assert all == Flatten(Blobs(front)) + (if last.data.Blob? then last.data.bytes else []);
    if k < |front| {
      BlobPosition(cls, front, k);
      assert front[..k] == defs[..k];
    } else {
      assert defs[..k] == front;
    }
  }

  lemma HoldsSlice(file: Image, off: nat, piece: Image, at: nat, n: nat)
    requires Holds(file, off, piece) && at + n <= |piece|
    ensures Holds(file, off + at, piece[at..at + n])
  {
    hide Holds;
    assert piece == piece[..at] + piece[at..];
    HoldsPart(file, off, piece[..at], piece[at..]);
    assert piece[at..] == piece[at..at + n] + piece[at + n..];
    HoldsPart(file, off + at, piece[at..at + n], piece[at + n..]);
  }

  lemma BlobHeld(cls: Class, defs: seq<Definition>, k: nat, file: Image)
    requires k < |defs| && defs[k].data.Blob?
    requires Holds(file, cls.EhdrSize(), Bytes(Flatten(Blobs(defs))))
    ensures Holds(file, Bits(cls, defs[..k]), Bytes(defs[k].data.bytes))
  {
    hide Holds, Bytes, Flatten, Blobs;
    var at, n := |Flatten(Blobs(defs[..k]))|, |defs[k].data.bytes|;
    BlobPosition(cls, defs, k);
    HoldsSlice(file, cls.EhdrSize(), Bytes(Flatten(Blobs(defs))), at, n);
    BytesSlice(Flatten(Blobs(defs)), at, n);
  }

  lemma RegionsStrtab(e: State, extended: bool, file: Image)
    requires Regions(e, extended, file)
    ensures Holds(file, e.sizeofBits, Strtab(e.strings))
  {
  }

  /** Names in the linked string table, at any offset the builder recorded. */
  lemma TableNameReads(e: State, h: History, i: Input, file: Image, idx: nat)
    requires Finished(e, h, i, file) && idx in e.offsets
    ensures idx < |e.strings|
    ensures NameIn(ParsedAs(e, h.extended), file, STRTAB_LINK, e.offsets[idx]) == Codes(e.strings[idx]) <==>
            NoNul(e.strings[idx])
    ensures SectionHeaders(e, h.extended)[SYMTAB_LINK].link == STRTAB_LINK
  {
    hide Inv, WellNamed, RelaHeaders, SectionHeaders, TextAt, NoNul, Strtab, Regions, WrittenSymbols, BuiltSymbols,
      StringsInv, Holds, Core;
    FinishedFacts(e, h, i, file);
    RegionsStrtab(e, h.extended, file);
    HeaderPositions(e, h.extended);
    NameReads(e, i.name, file, idx);
  }

  lemma BlobReads(e: State, h: History, i: Input, file: Image, k: nat)
    requires Finished(e, h, i, file) && k < |i.definitions| && i.definitions[k].data.Blob?
    ensures Holds(file, Bits(e.cls, i.definitions[..k]), Bytes(i.definitions[k].data.bytes))
  {
    hide Inv, WellNamed, SectionsExact, SymbolsExact, Core, RelaHeaders, SectionHeaders, Strtab, Records, RelaCells,
      WrittenSymbols, BuiltSymbols, Flatten, StringsInv;
    FinishedFacts(e, h, i, file);
    ExactMaps(e, h, i);
    SectionsCounted(e, i.definitions);
    BlobHeld(e.cls, i.definitions, k, file);
  }

  lemma NameOfKey(strings: Strings, keys: seq<nat>, defs: seq<Definition>, k: nat)
    requires KeyNames(strings, keys) == SectionNames(defs) && KeysIn(strings, keys) && k < |defs|
    ensures k < |keys| && keys[k] < |strings| && strings[keys[k]] == SectionNameFor(defs[k])
  {
    assert KeyNames(strings, keys)[k] == SectionNames(defs)[k];
  }

  lemma HeaderFor(cls: Class, offsets: Offsets, sections: Sections, code: Code, defs: seq<Definition>, k: nat)
    requires SectionsExact(cls, offsets, sections, code, defs) && k < |defs|
    ensures k < |sections.values| == |sections.keys| && sections.keys[k] in offsets
    ensures var h := sections.values[k].header;
            && h.typ == SectionTypeFor(defs[k]) && h.size == defs[k].data.FileSize()
            && h.link == 0 && h.info == 0 && h.entsize == 0
            && h.offset == Bits(cls, defs[..k]) && h.name == offsets[sections.keys[k]]
  {
    hide SectionTypeFor, Bits, Blobs;
    TypeIsPlain(defs[k]);
  }

  lemma SectionReads(e: State, h: History, i: Input, file: Image, k: nat)
    requires Finished(e, h, i, file) && k < |i.definitions|
    ensures SectionFaithful(i.definitions[k], ParsedAs(e, h.extended), file, FIRST_SECTION + k)
  {
    hide Inv, WellNamed, SymbolsExact, FinalSymbols, Distinct, SpecialInv, Core, Flatten, Blobs, WrittenSymbols,
      BuiltSymbols, SectionHeaders, RelaHeaders, StringsInv, NoNul, NameIn, SectionTypeFor, SectionNameFor,
      SectionShapes, Named, GroupsExact, GroupsNamed, Finished, Bits, KeyNames, SectionNames, KeysIn, IndexOf,
      NullHeaderOf, StrtabHeader, SymtabHeader, NoteHeader, SectionsExact, CreateSection;
    FinishedFacts(e, h, i, file);
    ExactMaps(e, h, i);
    HeaderPositions(e, h.extended);
    HeaderFor(e.cls, e.offsets, e.sections, e.code, i.definitions, k);
    var id := e.sections.keys[k];
    TableNameReads(e, h, i, file, id);
    NameOfKey(e.strings, e.sections.keys, i.definitions, k);
    if i.definitions[k].data.Blob? {
      BlobReads(e, h, i, file, k);
    }
  }

  // -- symbols --

  lemma SymbolNameReads(e: State, h: History, i: Input, file: Image, k: nat)
    requires Finished(e, h, i, file) && k < |FinalSymbols(i)|
    ensures SymbolsExact(e.offsets, e.symbols, FinalSymbols(i))
    ensures var s := FinalSymbols(i)[k].name;
            NameIn(ParsedAs(e, h.extended), file, STRTAB_LINK, e.symbols.values[k].name) == Codes(s) <==> NoNul(s)
    ensures SectionHeaders(e, h.extended)[SYMTAB_LINK].link == STRTAB_LINK
  {
    hide Inv, WellNamed, FinalSymbols, Distinct, Core, SectionHeaders, StringsInv, NoNul, NameIn, SectionShapes,
      Finished, SectionsExact, Named, GroupsExact, WrittenSymbols, BuiltSymbols, SpecialInv;
    FinishedFacts(e, h, i, file);
    ExactMaps(e, h, i);
    var id := e.symbols.keys[k];
    TableNameReads(e, h, i, file, id);
    assert e.strings[id] == FinalSymbols(i)[k].name by {
      assert KeyNames(e.strings, e.symbols.keys)[k] == SymbolNames(FinalSymbols(i))[k];
    }
  }

  lemma SymbolReads(e: State, h: History, i: Input, file: Image, k: nat)
    requires Finished(e, h, i, file) && k < |FinalSymbols(i)|
    ensures SymbolFaithful(FinalSymbols(i)[k], ParsedAs(e, h.extended), file, 2 + |i.definitions| + k)
  {
    hide GroupsNamed, LateNames, Built, Inv, WellNamed, FinalSymbols, Distinct, Core, RelaHeaders, SectionHeaders,
      StringsInv, NoNul, NameIn, SectionShapes, Finished, SectionsExact, Named, GroupsExact, WrittenSymbols,
      BuiltSymbols, SpecialInv, KeyNames, KeysIn, SymbolNames, SectionNames;
    FinishedFacts(e, h, i, file);
    ExactMaps(e, h, i);
    SectionsCounted(e, i.definitions);
    EnoughHeaders(e, h, i, file);
    AllShndx(e, h, i, file);
    NormalSymbols(e, k);
    SymbolNameReads(e, h, i, file, k);
  }

  lemma NormalSymbols(e: State, k: nat)
    requires k < |e.symbols.values|
    ensures var at := |e.special| + |e.sections.values| + k;
            && at < |WrittenSymbols(e)| == |BuiltSymbols(e)|
            && WrittenSymbols(e)[at] == Escape(e.symbols.values[k])
            && BuiltSymbols(e)[at] == e.symbols.values[k]
  {
  }

  /** A symbol that had to be escaped means there is an index table. */
  lemma AllShndx(e: State, h: History, i: Input, file: Image)
    requires Finished(e, h, i, file)
    ensures !h.extended ==> FIRST_SECTION + |i.definitions| < SHN_LORESERVE
    ensures forall k :: 0 <= k < |FinalSymbols(i)| ==>
              FinalSymbols(i)[k].symbol.shndx < FIRST_SECTION + |i.definitions|
  {
    hide Inv, WellNamed, Regions, Core, SectionShapes, StringsInv, SpecialInv, GroupsExact, FinalSymbols;
    FinishedFacts(e, h, i, file);
    FinalShndx(i);
  }

  lemma FinalShndx(i: Input)
    ensures forall k :: 0 <= k < |FinalSymbols(i)| ==>
              FinalSymbols(i)[k].symbol.shndx < FIRST_SECTION + |i.definitions|
  {
    hide DefinedSymbols, Dedup;
    DefinedShndx(i.definitions);
    forall k | 0 <= k < |FinalSymbols(i)|
      ensures FinalSymbols(i)[k].symbol.shndx < FIRST_SECTION + |i.definitions|
    {
      LastAmong(AllSymbols(i), FinalSymbols(i)[k].name);
    }
  }

  lemma {:induction false} DefinedShndx(defs: seq<Definition>)
    ensures forall k :: 0 <= k < |DefinedSymbols(defs)| ==>
              FIRST_SECTION <= DefinedSymbols(defs)[k].symbol.shndx < FIRST_SECTION + |defs|
  {
    if defs != [] {
      DefinedShndx(defs[..|defs| - 1]);
    }
  }

  lemma SectionSymbolAt(e: State, k: nat)
    requires k < |e.sections.values|
    ensures var at := |e.special| + k;
            && at < |WrittenSymbols(e)| == |BuiltSymbols(e)|
            && WrittenSymbols(e)[at] == Escape(e.sections.values[k].symbol)
            && BuiltSymbols(e)[at] == e.sections.values[k].symbol
  {
  }

  lemma ReadSectionSymbol(e: State, extended: bool, k: nat)
    requires |e.special| == 2 && k < |e.sections.values|
    requires e.sections.values[k].symbol == SectionSymbol(FIRST_SECTION + k)
    requires !extended ==> FIRST_SECTION + k < SHN_LORESERVE
    ensures SectionSymbolFaithful(ParsedAs(e, extended), k)
  {
    hide WrittenSymbols, BuiltSymbols, SectionHeaders;
    SectionSymbolAt(e, k);
  }

  lemma SymbolOfSection(cls: Class, offsets: Offsets, sections: Sections, code: Code, defs: seq<Definition>, k: nat)
    requires SectionsExact(cls, offsets, sections, code, defs) && k < |defs|
    ensures k < |sections.values| && sections.values[k].symbol == SectionSymbol(FIRST_SECTION + k)
  {
    hide CreateSection, SectionTypeFor, Bits, Blobs;
  }

  lemma SectionSymbolReads(e: State, h: History, i: Input, file: Image, k: nat)
    requires Finished(e, h, i, file) && k < |i.definitions|
    ensures SectionSymbolFaithful(ParsedAs(e, h.extended), k)
  {
    hide Finished, Inv, WellNamed, FinalSymbols, Distinct, Core, RelaHeaders, SectionHeaders, StringsInv, SectionShapes,
      Regions, SymbolsExact, SectionsExact, GroupsExact, GroupsNamed, SpecialInv, Built, LateNames, KeyNames, KeysIn,
      SectionNames, SymbolNames, WrittenSymbols, BuiltSymbols, ParsedAs, SectionSymbolFaithful, SectionSymbol;
    FinishedFacts(e, h, i, file);
    ExactMaps(e, h, i);
    AllShndx(e, h, i, file);
    SymbolOfSection(e.cls, e.offsets, e.sections, e.code, i.definitions, k);
    ReadSectionSymbol(e, h.extended, k);
  }

  lemma SymbolTableReads(e: State, h: History, i: Input, file: Image)
    requires Finished(e, h, i, file)
    ensures SymbolsFaithful(i, ParsedAs(e, h.extended), file)
    ensures IndicesFit(ParsedAs(e, h.extended))
  {
    hide Inv, WellNamed, FinalSymbols, Distinct, Core, RelaHeaders, SectionHeaders, StringsInv, SectionShapes, Regions,
      Finished, SymbolFaithful, SectionSymbolFaithful, SectionSymbol, SymbolsExact, SectionsExact, Named, GroupsExact,
      WrittenSymbols, BuiltSymbols, Indices, IndicesFit, KeyNames, KeysIn, SymbolNames, SectionNames, GroupsNamed,
      Built, LateNames;
    FinishedFacts(e, h, i, file);
    ExactMaps(e, h, i);
    SectionsCounted(e, i.definitions);
    SymbolsCounted(e, FinalSymbols(i));
    SpecialWritten(e);
    assert |WrittenSymbols(e)| == 2 + |i.definitions| + |FinalSymbols(i)|;
    forall k | 0 <= k < |i.definitions|
      ensures SectionSymbolFaithful(ParsedAs(e, h.extended), k)
    {
      SectionSymbolReads(e, h, i, file, k);
    }
    forall k | 0 <= k < |FinalSymbols(i)|
      ensures SymbolFaithful(FinalSymbols(i)[k], ParsedAs(e, h.extended), file, 2 + |i.definitions| + k)
    {
      SymbolReads(e, h, i, file, k);
    }
    FieldsFit(e, h, i, file);
  }

  lemma SymbolsCounted(e: State, specs: seq<NamedSymbol>)
    requires SymbolsExact(e.offsets, e.symbols, specs)
    ensures |e.symbols.values| == |e.symbols.keys| == |specs|
    ensures forall k :: 0 <= k < |specs| ==> e.symbols.values[k].shndx == specs[k].symbol.shndx
  {
  }

  /** Nothing below the reserved range is escaped, and everything in it is. */
  lemma WrittenFits(e: State, limit: nat)
    requires |e.special| == 2 && e.special[0].shndx == 0 && e.special[1].shndx == SHN_ABS
    requires forall k :: 0 <= k < |e.sections.values| ==> e.sections.values[k].symbol.shndx < limit
    requires forall k :: 0 <= k < |e.symbols.values| ==> e.symbols.values[k].shndx < limit
    ensures forall k :: 2 <= k < |WrittenSymbols(e)| ==>
              WrittenSymbols(e)[k].shndx < 0xff00 || WrittenSymbols(e)[k].shndx == SHN_XINDEX
    ensures limit <= SHN_LORESERVE ==> forall k :: 0 <= k < |WrittenSymbols(e)| ==>
            WrittenSymbols(e)[k].shndx != SHN_XINDEX
  {
  }

  lemma SpecialFits(strings: Strings, offsets: Offsets, special: seq<Symbol>, name: string)
    requires SpecialInv(strings, offsets, special, name)
    ensures |special| == 2 && special[0].shndx == 0 && special[1].shndx == SHN_ABS
  {
  }

  lemma SectionSymbolIndex(k: nat)
    ensures SectionSymbol(k).shndx == k
  {
  }

  lemma FieldsFit(e: State, h: History, i: Input, file: Image)
    requires Finished(e, h, i, file)
    ensures IndicesFit(ParsedAs(e, h.extended))
  {
    hide Inv, WellNamed, FinalSymbols, Distinct, Core, StringsInv, SectionShapes, SymbolsExact, Finished, Blobs, Named,
      GroupsExact, WrittenSymbols, SpecialInv, SectionSymbol, BuiltSymbols, KeyNames, KeysIn, Built, SectionsExact,
      SectionHeaders, Indices;
    FinishedFacts(e, h, i, file);
    ExactMaps(e, h, i);
    SectionsCounted(e, i.definitions);
    SymbolsCounted(e, FinalSymbols(i));
    SpecialFits(e.strings, e.offsets, e.special, i.name);
    AllShndx(e, h, i, file);
    var limit := FIRST_SECTION + |i.definitions|;
    forall k | 0 <= k < |e.sections.values|
      ensures e.sections.values[k].symbol.shndx < limit
    {
      SectionSymbolIndex(FIRST_SECTION + k);
    }
    WrittenFits(e, limit);
  }

  // -- relocations --

  lemma RelaTypes(e: State, extended: bool, entries: seq<Entry>, j: nat)
    requires SectionShapes(e.strings, e.sections) && GroupsExact(e.cls, e.relocations, entries)
    requires j < |SectionHeaders(e, extended)|
    ensures var base := 3 + |e.sections.values| + (if extended then 1 else 0);
            SectionHeaders(e, extended)[j].typ == Rela <==> base <= j < base + |e.relocations.values|
  {
    hide SectionHeaders, RelaHeaders, GroupsExact, KeysIn, SizeofSymtab, SymtabOffset, ShndxOffset, RelocOffset;
    HeaderPositions(e, extended);
    RelaHeadersTyped(e, entries, RelocOffset(e, extended));
    var hs := SectionHeaders(e, extended);
    var n, m := |e.sections.values|, if extended then 1 else 0;
    if 3 <= j < 3 + n {
      assert hs[3 + (j - 3)] == e.sections.values[j - 3].header;
    } else if 3 + n + m <= j < 3 + n + m + |e.relocations.values| {
      var g := j - (3 + n + m);
      assert hs[3 + n + m + g] == RelaHeaders(e.relocations.values, RelocOffset(e, extended))[g];
    }
  }

  lemma RelaPosition(e: State, h: History, i: Input, file: Image, j: nat)
    requires Finished(e, h, i, file) && j < |SectionHeaders(e, h.extended)|
    ensures var base := 3 + |i.definitions| + (if h.extended then 1 else 0);
            SectionHeaders(e, h.extended)[j].typ == Rela <==> base <= j < base + |e.relocations.values|
  {
    hide Inv, WellNamed, FinalSymbols, Distinct, Core, SectionHeaders, StringsInv, SectionsExact, SymbolsExact,
      Finished, SpecialInv, GroupsExact, SectionShapes, KeysIn, KeyNames;
    FinishedFacts(e, h, i, file);
    ExactMaps(e, h, i);
    SectionsCounted(e, i.definitions);
    RelaTypes(e, h.extended, h.entries, j);
  }

  lemma RelaHeadersTyped(e: State, entries: seq<Entry>, start: nat)
    requires GroupsExact(e.cls, e.relocations, entries)
    ensures |e.relocations.keys| == |e.relocations.values|
    ensures forall g :: 0 <= g < |e.relocations.values| ==>
              var r := RelaHeaders(e.relocations.values, start)[g];
              r.typ == Rela && r.link == SYMTAB_LINK && r.info == e.relocations.keys[g]
  {
  }

  lemma RelaReads(e: State, h: History, i: Input, file: Image, g: nat)
    requires Finished(e, h, i, file) && g < |e.relocations.values|
    ensures |e.relocations.keys| == |e.relocations.values|
    ensures var j := 3 + |i.definitions| + (if h.extended then 1 else 0) + g;
            && j < |SectionHeaders(e, h.extended)|
            && var r := SectionHeaders(e, h.extended)[j];
               && r.typ == Rela && r.link == SYMTAB_LINK && r.info == e.relocations.keys[g]
               && RelocationsIn(e.cls, file, r) == Some(EntriesFor(h.entries, e.relocations.keys[g]))
  {
    hide Finished, Regions, GroupExact, RelaHeaders, GroupsExact, SectionHeaders, RelocationsIn, GroupsSized,
      RelocOffset, EntriesFor, Inv, WellNamed, Core, StringsInv, SectionShapes, SpecialInv, GroupsNamed, Built,
      LateNames;
    FinishedFacts(e, h, i, file);
    FinishedRegions(e, h, i, file);
    RelaAt(e, h, i, file, g);
    RelaHeadersTyped(e, h.entries, RelocOffset(e, h.extended));
    GroupTypes(e, h.entries);
    GroupReads(e, h.extended, file, g);
  }

  lemma RelaAt(e: State, h: History, i: Input, file: Image, g: nat)
    requires Finished(e, h, i, file) && g < |e.relocations.values|
    ensures var j := 3 + |i.definitions| + (if h.extended then 1 else 0) + g;
            && j < |SectionHeaders(e, h.extended)|
            && SectionHeaders(e, h.extended)[j] == RelaHeaders(e.relocations.values, RelocOffset(e, h.extended))[g]
  {
    hide Finished, SectionsExact, SymbolsExact, FinalSymbols, Core, Inv, WellNamed, StringsInv, SectionShapes,
      GroupsExact, SpecialInv, GroupsNamed, SectionHeaders, RelaHeaders, RelocOffset, KeyNames, KeysIn, Distinct,
      SectionNames, NullHeaderOf, StrtabHeader, SymtabHeader, NoteHeader, ShndxHeaders;
    FinishedFacts(e, h, i, file);
    ExactMaps(e, h, i);
    SectionsCounted(e, i.definitions);
    HeaderPositions(e, h.extended);
  }

  lemma FinishedRegions(e: State, h: History, i: Input, file: Image)
    requires Finished(e, h, i, file)
    ensures Regions(e, h.extended, file)
  {
  }

  lemma GroupKeys(e: State, entries: seq<Entry>)
    requires GroupsExact(e.cls, e.relocations, entries)
    ensures |e.relocations.keys| == |e.relocations.values|
    ensures forall j, k :: 0 <= j < k < |e.relocations.keys| ==> e.relocations.keys[j] != e.relocations.keys[k]
    ensures forall shndx :: shndx in Patched(entries) <==> shndx in e.relocations.keys
  {
  }

  lemma RelocationTablesRead(e: State, h: History, i: Input, file: Image)
    requires Finished(e, h, i, file)
    ensures RelocationsFaithful(e.cls, ParsedAs(e, h.extended), file, h.entries)
  {
    hide Inv, WellNamed, FinalSymbols, Core, StringsInv, SectionsExact, Regions, SymbolsExact, Finished, GroupExact,
      SpecialInv, RelaHeaders, Named, SectionHeaders, SectionShapes, RelocationsIn, WrittenSymbols, BuiltSymbols,
      EntriesFor, GroupsExact, GroupsNamed;
    FinishedFacts(e, h, i, file);
    GroupKeys(e, h.entries);
    var p := ParsedAs(e, h.extended);
    var base := 3 + |i.definitions| + (if h.extended then 1 else 0);
    forall j | 0 <= j < |p.headers| && p.headers[j].typ == Rela
      ensures base <= j < base + |e.relocations.keys| && p.headers[j].info == e.relocations.keys[j - base]
      ensures p.headers[j].link == SYMTAB_LINK
      ensures RelocationsIn(e.cls, file, p.headers[j]) == Some(EntriesFor(h.entries, p.headers[j].info))
    {
      RelaPosition(e, h, i, file, j);
      RelaReads(e, h, i, file, j - base);
    }
    forall shndx
      ensures shndx in Patched(h.entries) <==> exists j :: IsRela(p, j, shndx)
    {
      if shndx in Patched(h.entries) {
        var g :| 0 <= g < |e.relocations.keys| && e.relocations.keys[g] == shndx;
        RelaReads(e, h, i, file, g);
        assert IsRela(p, base + g, shndx);
      }
    }
  }

  // -- the tables --

  /** A name recorded in the string table reads back. */
  lemma RecordedNameReads(e: State, h: History, i: Input, file: Image, s: string)
    requires Finished(e, h, i, file) && s in e.strings
    ensures NameIn(ParsedAs(e, h.extended), file, STRTAB_LINK, OffsetOf(e.strings, e.offsets, s)) == Codes(s) <==>
            NoNul(s)
  {
    hide Finished, StringsInv, NameIn, NoNul, Inv, WellNamed, Core, Codes, ParsedAs;
    FinishedFacts(e, h, i, file);
    StringIds(e, i.name, s);
    TableNameReads(e, h, i, file, IndexOf(e.strings, s).value);
  }

  lemma StringIds(e: State, name: string, s: string)
    requires StringsInv(e.strings, e.offsets, e.sizeofStrtab, name) && s in e.strings
    ensures IndexOf(e.strings, s).value in e.offsets
    ensures OffsetOf(e.strings, e.offsets, s) == e.offsets[IndexOf(e.strings, s).value]
  {
  }

  lemma TableNames(e: State, name: string)
    requires StringsInv(e.strings, e.offsets, e.sizeofStrtab, name)
    ensures ".strtab" in e.strings && ".symtab" in e.strings && 0 in e.offsets && 1 in e.offsets
    ensures OffsetOf(e.strings, e.offsets, ".strtab") == e.offsets[0]
    ensures OffsetOf(e.strings, e.offsets, ".symtab") == e.offsets[1]
  {
    hide Strtab, Distinct, IndexOf;
    IndexOfDistinct(e.strings, 0);
    IndexOfDistinct(e.strings, 1);
  }

  lemma PlainNames()
    ensures NoNul(".strtab") && NoNul(".symtab") && NoNul(".symtab_shndx") && NoNul(".note.GNU-stack")
  {
  }

  lemma RelaNameReads(e: State, h: History, i: Input, file: Image, g: nat)
    requires Finished(e, h, i, file) && g < |e.relocations.values|
    ensures |e.relocations.keys| == |e.relocations.values|
    ensures RelaNamed(i, ParsedAs(e, h.extended), file, 3 + |i.definitions| + (if h.extended then 1 else 0) + g,
                      e.relocations.keys[g])
  {
    hide Finished, NameIn, NoNul, Codes, SectionHeaders, SectionNameFor, RelaHeaders, RelocOffset, WrittenSymbols,
      BuiltSymbols, OffsetOf;
    GroupName(e, h, i, file, g);
    RelaAt(e, h, i, file, g);
    var k := e.relocations.keys[g] - FIRST_SECTION;
    RecordedNameReads(e, h, i, file, ".rela" + SectionNameFor(i.definitions[k]));
    RelaHeaderName(e.relocations.values, RelocOffset(e, h.extended), g);
  }

  lemma GroupName(e: State, h: History, i: Input, file: Image, g: nat)
    requires Finished(e, h, i, file) && g < |e.relocations.values|
    ensures |e.relocations.keys| == |e.relocations.values|
    ensures FIRST_SECTION <= e.relocations.keys[g] < FIRST_SECTION + |i.definitions|
    ensures var name := ".rela" + SectionNameFor(i.definitions[e.relocations.keys[g] - FIRST_SECTION]);
            name in e.strings && e.relocations.values[g].header.name == OffsetOf(e.strings, e.offsets, name)
  {
    hide Finished, Inv, WellNamed, Core, Distinct, StringsInv, SectionsExact, SymbolsExact, FinalSymbols,
      SectionNameFor, KeyNames, KeysIn, SectionShapes, SpecialInv, GroupsExact, OffsetOf, IndexOf;
    FinishedFacts(e, h, i, file);
    ExactMaps(e, h, i);
    SectionsCounted(e, i.definitions);
    var shndx := e.relocations.keys[g];
    assert GroupNamed(e.strings, e.offsets, e.sections.keys, shndx, e.relocations.values[g].header.name);
    NameOfKey(e.strings, e.sections.keys, i.definitions, shndx - FIRST_SECTION);
  }

  lemma RelaHeaderName(groups: seq<RelocGroup>, start: nat, g: nat)
    requires g < |groups|
    ensures RelaHeaders(groups, start)[g].name == groups[g].header.name
  {
  }

  /** The number of headers, and the names of those that no definition asks for. */
  lemma TableHeaders(e: State, h: History, i: Input, file: Image)
    requires Finished(e, h, i, file)
    ensures var p, n := ParsedAs(e, h.extended), |i.definitions|;
            && |p.headers| == 4 + n + (if h.extended then 1 else 0) + |e.relocations.values|
            && p.headers[0].typ == ShtNull && p.headers[1].typ == StrTab && p.headers[2].typ == SymTab
            && p.headers[1].name == OffsetOf(e.strings, e.offsets, ".strtab")
            && p.headers[2].name == OffsetOf(e.strings, e.offsets, ".symtab")
            && (h.extended ==> p.headers[3 + n].typ == SymTabShndx && p.headers[3 + n].entsize == 4)
            && (h.extended ==> p.headers[3 + n].name == OffsetOf(e.strings, e.offsets, ".symtab_shndx"))
            && p.headers[|p.headers| - 1].typ == ProgBits && p.headers[|p.headers| - 1].size == 0
            && p.headers[|p.headers| - 1].name == OffsetOf(e.strings, e.offsets, ".note.GNU-stack")
  {
    hide Finished, Inv, WellNamed, Core, Distinct, StringsInv, SectionsExact, SymbolsExact, FinalSymbols,
      SectionHeaders, KeyNames, KeysIn, SectionShapes, SpecialInv, RelaHeaders, WrittenSymbols, BuiltSymbols, OffsetOf,
      IndexOf, GroupsExact, GroupsNamed, Built, LateNames, SectionNames, SymbolNames;
    FinishedFacts(e, h, i, file);
    ExactMaps(e, h, i);
    SectionsCounted(e, i.definitions);
    HeaderPositions(e, h.extended);
    TableNames(e, i.name);
  }

  /** The string table section is the whole string table, and no more. */
  lemma StrtabReads(e: State, h: History, i: Input, file: Image)
    requires Finished(e, h, i, file)
    ensures Distinct(e.strings) && 1 < |SectionHeaders(e, h.extended)|
    ensures Contents(ParsedAs(e, h.extended), file, 1) == Some(Strtab(e.strings))
  {
    hide Finished, Core, SectionHeaders, Strtab, StrtabHeader, SectionShapes, SpecialInv, GroupsExact, GroupsNamed,
      Built, LateNames, WellNamed, WrittenSymbols, BuiltSymbols, ShndxHeaders, RelaHeaders, NullHeaderOf, SymtabHeader,
      NoteHeader, Holds, Distinct;
    FinishedFacts(e, h, i, file);
    FinishedStrtab(e, h, i, file);
    HeaderPositions(e, h.extended);
    StrtabSized(e, i.name);
    HeldIsContents(file, StrtabHeader(e), Strtab(e.strings));
  }

  lemma FinishedStrtab(e: State, h: History, i: Input, file: Image)
    requires Finished(e, h, i, file)
    ensures Holds(file, e.sizeofBits, Strtab(e.strings)) && !Reserved(i.name)
  {
    hide Inv, Built, WellNamed, LateNames, Holds, Strtab, Records, RelaCells, SectionHeaders;
  }

  lemma StrtabSized(e: State, name: string)
    requires StringsInv(e.strings, e.offsets, e.sizeofStrtab, name) && !Reserved(name)
    ensures StrtabHeader(e).offset == e.sizeofBits && StrtabHeader(e).size == |Strtab(e.strings)|
    ensures Distinct(e.strings)
  {
    hide Strtab, Distinct;
  }

  lemma HeldIsContents(file: Image, h: Shdr, piece: Image)
    requires Holds(file, h.offset, piece) && h.size == |piece|
    ensures h.offset + h.size <= |file| && file[h.offset..h.offset + h.size] == piece
  {
  }

  lemma TablesRead(e: State, h: History, i: Input, file: Image)
    requires Finished(e, h, i, file)
    ensures TablesFaithful(i, ParsedAs(e, h.extended), file, h.entries)
  {
    hide Finished, Inv, WellNamed, Core, StringsInv, NameIn, NoNul, Codes, SectionHeaders, SectionShapes, SpecialInv,
      WrittenSymbols, BuiltSymbols, OffsetOf, RelaNamed, GroupsExact, Dedup, GroupsNamed, Built;
    FinishedFacts(e, h, i, file);
    TableHeaders(e, h, i, file);
    StrtabReads(e, h, i, file);
    GroupCount(e, h.entries);
    PlainNames();
    TableNames(e, i.name);
    RecordedNameReads(e, h, i, file, ".strtab");
    RecordedNameReads(e, h, i, file, ".symtab");
    RecordedNameReads(e, h, i, file, ".note.GNU-stack");
    if h.extended {
      RecordedNameReads(e, h, i, file, ".symtab_shndx");
    }
    forall j: nat, shndx: nat | IsRela(ParsedAs(e, h.extended), j, shndx)
      ensures RelaNamed(i, ParsedAs(e, h.extended), file, j, shndx)
    {
      RelaPosition(e, h, i, file, j);
      var g := j - (3 + |i.definitions| + (if h.extended then 1 else 0));
      RelaReads(e, h, i, file, g);
      RelaNameReads(e, h, i, file, g);
    }
  }

  lemma GroupCount(e: State, entries: seq<Entry>)
    requires GroupsExact(e.cls, e.relocations, entries)
    ensures |e.relocations.values| == |Dedup(Patched(entries))|
  {
  }

  // -- all together --

  lemma FileNameReads(e: State, h: History, i: Input, file: Image)
    requires Finished(e, h, i, file)
    ensures var p := ParsedAs(e, h.extended);
            && |p.symbols| > 1 && p.symtab < |p.headers|
            && (SymbolName(p, file, 1) == Codes(i.name) <==> NoNul(i.name))
            && p.headers[p.symtab].info == 2 + |i.definitions| + LocalCount(i.definitions)
  {
    hide Inv, WellNamed, FinalSymbols, Distinct, Core, StringsInv, SymbolsExact, RelaHeaders, SectionHeaders,
      SectionShapes, NameIn, NoNul, GroupsExact, SectionsExact, WrittenSymbols, BuiltSymbols, Finished, Built,
      LocalCount;
    FinishedFacts(e, h, i, file);
    ExactMaps(e, h, i);
    SectionsCounted(e, i.definitions);
    HeaderPositions(e, h.extended);
    var id := IndexOf(e.strings, i.name).value;
    TableNameReads(e, h, i, file, id);
    SpecialWritten(e);
  }

  lemma SpecialWritten(e: State)
    ensures |e.special| <= |WrittenSymbols(e)|
    ensures forall k :: 0 <= k < |e.special| ==> WrittenSymbols(e)[k] == e.special[k]
  {
  }

  /** The emitted file, read back, is the artifact. */
  lemma FinishedIsFaithful(e: State, h: History, i: Input, file: Image)
    requires Finished(e, h, i, file) && h.entries == ExpectedEntries(e.cls, i, i.links)
    ensures Faithful(e.cls, i, file)
  {
    hide ExpectedEntries, Finished, Inv, TablesFaithful, SectionFaithful, SymbolsFaithful, IndicesFit,
      RelocationsFaithful, FinalSymbols, WrittenSymbols, BuiltSymbols, SymbolName, SectionHeaders;
    FinishedParses(e, h, i, file);
    SymbolTableReads(e, h, i, file);
    RelocationTablesRead(e, h, i, file);
    TablesRead(e, h, i, file);
    FileNameReads(e, h, i, file);
    EnoughHeaders(e, h, i, file);
    forall k | 0 <= k < |i.definitions|
      ensures SectionFaithful(i.definitions[k], ParsedAs(e, h.extended), file, FIRST_SECTION + k)
    {
      SectionReads(e, h, i, file, k);
    }
  }

  lemma EnoughHeaders(e: State, h: History, i: Input, file: Image)
    requires Finished(e, h, i, file)
    ensures FIRST_SECTION + |i.definitions| <= |SectionHeaders(e, h.extended)|
  {
    hide Finished, Inv, SectionsExact, SymbolsExact, FinalSymbols, Core, Distinct, SectionHeaders, RelaHeaders;
    FinishedFacts(e, h, i, file);
    ExactMaps(e, h, i);
    SectionsCounted(e, i.definitions);
    HeaderPositions(e, h.extended);
  }

  // ----- emission -----

  /** The count a reader decodes is the number of headers in the file. */
  ghost predicate CountMatches(cls: Class, file: Image) {
    && EhdrOf(cls, file).Some? && SectionCount(cls, file).Some?
    && |file| == EhdrOf(cls, file).value.shoff + SectionCount(cls, file).value * cls.ShdrSize()
  }

  /** That is so exactly when no two definitions derive the same section name. */
  lemma CountMatchesIff(e: State, h: History, file: Image)
    requires Inv(e, h) && Regions(e, h.extended, file)
    ensures CountMatches(e.cls, file) <==> Distinct(SectionNames(h.defs))
  {
    hide Regions, Core, SectionHeaders, RelaHeaders, Distinct, Dedup;
    RegionsLength(e, h.extended, file);
    SectionKeyCount(e, h);
    SectionCountDecodes(e, h.extended, file);
    HeaderPositions(e, h.extended);
    DedupIdentity(SectionNames(h.defs));
    SameMultiple(|SectionHeaders(e, h.extended)|, e.nsections, e.cls.ShdrSize());
  }

  /** A reader gets through the headers exactly when there are as many as announced. */
  lemma ParsesIff(e: State, h: History, file: Image)
    requires Inv(e, h) && Regions(e, h.extended, file)
    ensures Parse(e.cls, file).Some? <==> Distinct(SectionNames(h.defs))
  {
    hide Regions, Core, SectionHeaders, RelaHeaders, Distinct, Dedup, WrittenSymbols, Indices, SectionShapes;
    InvCore(e, h);
    InvSpecial(e, h);
    RegionsLength(e, h.extended, file);
    SectionKeyCount(e, h);
    SectionCountDecodes(e, h.extended, file);
    HeaderPositions(e, h.extended);
    DedupIdentity(SectionNames(h.defs));
    if Distinct(SectionNames(h.defs)) {
      PlainShapes(e, h);
      ParseWhole(e, h.extended, file);
    } else {
      HeadersRunOut(e.cls, file, e.nsections, |SectionHeaders(e, h.extended)|);
    }
  }

  lemma PlainShapes(e: State, h: History)
    requires Core(e, h)
    ensures PlainSections(e)
  {
    hide CodeInv, SymbolsInv, GroupsNamed, SpecialInv, StringsInv, SectionsExact, Dedup, Distinct;
  }

  lemma HeadersRunOut(cls: Class, file: Image, announced: nat, present: nat)
    requires SectionCount(cls, file) == Some(announced) && EhdrOf(cls, file).Some?
    requires |file| == EhdrOf(cls, file).value.shoff + present * cls.ShdrSize() && present < announced
    ensures Parse(cls, file).None?
  {
    var off := EhdrOf(cls, file).value.shoff;
    Multiply(present, announced - 1, cls.ShdrSize());
    assert RecordsAt(file, off, announced, cls.ShdrSize()).None?;
  }

  lemma Multiply(a: nat, b: nat, size: nat)
    requires a <= b
    ensures a * size <= b * size
  {
  }

  lemma SectionKeyCount(e: State, h: History)
    requires Core(e, h)
    ensures |e.sections.values| == |Dedup(SectionNames(h.defs))|
    ensures |e.relocations.values| == |e.relocations.keys|
    ensures e.nsections == 4 + |h.defs| + |e.relocations.keys| + (if h.extended then 1 else 0)
  {
  }

  lemma RegionsLength(e: State, extended: bool, file: Image)
    requires Regions(e, extended, file)
    ensures |file| == ShOffset(e, extended) + |SectionHeaders(e, extended)| * e.cls.ShdrSize()
  {
  }

  lemma SameMultiple(a: nat, b: nat, size: nat)
    requires size > 0
    ensures a * size == b * size <==> a == b
  {
  }

  lemma LaidSymbolsSnoc(defs: seq<Definition>, k: nat)
    requires k < |defs|
    ensures LaidSymbols(defs[..k + 1])
            == LaidSymbols(defs[..k]) + SymbolsFor(defs[k], FIRST_SECTION + |Dedup(SectionNames(defs[..k]))|)
    ensures defs[..k] + [defs[k]] == defs[..k + 1]
  {
    hide SymbolsFor, Dedup, SectionNames;
    assert defs[..k + 1][..k] == defs[..k];
  }

  lemma NothingLaid(defs: seq<Definition>)
    ensures LaidSymbols(defs[..0]) == [] && defs[..0] == []
  {
  }

  /** While section names are distinct, definition `k` gets section 3 + `k`. */
  lemma {:induction false} LaidAsDefined(defs: seq<Definition>, k: nat)
    requires Distinct(SectionNames(defs)) && k <= |defs|
    ensures LaidSymbols(defs[..k]) == DefinedSymbols(defs[..k])
  {
    hide Distinct, SymbolsFor, Dedup, SectionNames;
    if k > 0 {
      LaidAsDefined(defs, k - 1);
      LaidCount(defs, k - 1);
      LaidSymbolsSnoc(defs, k - 1);
      DefinedSymbolsSnoc(defs, k - 1);
    }
  }

  lemma DefinedSymbolsSnoc(defs: seq<Definition>, k: nat)
    requires k < |defs|
    ensures DefinedSymbols(defs[..k + 1]) == DefinedSymbols(defs[..k]) + SymbolsFor(defs[k], FIRST_SECTION + k)
    ensures defs[..k] + [defs[k]] == defs[..k + 1]
  {
    assert defs[..k + 1][..k] == defs[..k];
  }

  method AddAll(elf: Elf, defs: seq<Definition>)
    requires elf.Valid() && elf.history.defs == [] && elf.history.specs == []
    requires forall k :: 0 <= k < |defs| ==> ContentsAllowed(defs[k])
    modifies elf
    ensures elf.Valid() && elf.history == old(elf.history).(defs := defs, specs := LaidSymbols(defs))
  {
    hide Inv, Core, Distinct, SymbolsFor, Dedup, SectionNames, LaidSymbols;
    NothingLaid(defs);
    for k := 0 to |defs|
      invariant elf.Valid()
      invariant elf.history == old(elf.history).(defs := defs[..k], specs := LaidSymbols(defs[..k]))
    {
      InvCore(elf.Fields(), elf.history);
      SectionsHeld(elf.Fields(), elf.history);
      LaidSymbolsSnoc(defs, k);
      elf.AddDefinition(defs[k]);
    }
    assert defs[..|defs|] == defs;
  }

  method ImportAll(elf: Elf, imports: seq<(string, ImportKind)>)
    requires elf.Valid()
    modifies elf
    ensures elf.Valid()
    ensures elf.history == old(elf.history).(specs := old(elf.history).specs + ImportedSymbols(imports))
  {
    hide Inv, WithSymbol, SymbolForImport;
    assert old(elf.history).specs + ImportedSymbols([]) == old(elf.history).specs;
    for k := 0 to |imports|
      invariant elf.Valid()
      invariant elf.history == old(elf.history).(specs := old(elf.history).specs + ImportedSymbols(imports[..k]))
    {
      elf.Import(imports[k].0, imports[k].1);
      assert old(elf.history).specs + ImportedSymbols(imports[..k]) + [SymbolForImport(imports[k].0)]
          == old(elf.history).specs + ImportedSymbols(imports[..k + 1]);
    }
    assert imports[..|imports|] == imports;
  }

  /** `ok` is false when a link panics. */
  method LinkAll(elf: Elf, i: Input) returns (ok: bool)
    requires elf.Valid() && elf.history.entries == [] && Coherent(i) && Laid(i, elf.history)
    modifies elf
    ensures ok ==> elf.Valid() && elf.history == old(elf.history).(entries := elf.history.entries)
    ensures ok <==> LinksWork(elf.cls, i, i.links)
    ensures WellNamed(i) && ok ==> elf.history.entries == ExpectedEntries(elf.cls, i, i.links)
  {
    hide Inv, WellNamed, RelocKind, FinalSymbols, LinkResolves, EntryFor, WithLink, Expected, Distinct, LaidSymbols,
      Lands;
    for k := 0 to |i.links|
      invariant elf.Valid()
      invariant elf.history == old(elf.history).(entries := elf.history.entries)
      invariant LinksWork(elf.cls, i, i.links[..k])
      invariant WellNamed(i) ==> elf.history.entries == ExpectedEntries(elf.cls, i, i.links[..k])
    {
      ghost var before, h := elf.Fields(), elf.history;
      LinkSucceedsIff(before, h, i, i.links[k]);
      if WellNamed(i) {
        LaidIsBuilt(i, h);
        LinkIsExpected(before, h, i, i.links[k]);
      }
      ok := elf.Link(i.links[k]);
      if !ok {
        return;
      }
      if WellNamed(i) {
        ExpectedSnoc(elf.cls, i, i.links, k);
      }
    }
    assert i.links[..|i.links|] == i.links;
    ok := true;
  }

  /** Every link is of a supported kind and starts in an existing section. */
  ghost predicate LinksWork(cls: Class, i: Input, links: seq<LinkAndDecl>) {
    forall k :: 0 <= k < |links| ==> RelocKind(cls, links[k]).Some? && Lands(i.definitions, links[k].from)
  }

  /** The artifacts that are emitted without a panic. */
  ghost predicate Emits(cls: Class, i: Input) {
    && !Reserved(i.name)
    && NothingOverwritten(i.definitions)
    && LinksWork(cls, i, i.links)
  }

  /** With distinct section names only the name and the kinds of the links matter. */
  lemma EmitsIff(cls: Class, i: Input)
    requires Coherent(i) && Distinct(SectionNames(i.definitions))
    ensures Emits(cls, i) <==> !Reserved(i.name) && Supported(cls, i.links)
  {
    hide RelocKind, Lands, Reserved, Distinct, DefinedAs, EmitOrder, ContentsAllowed, SectionNames;
    DistinctLosesNothing(i.definitions);
    forall k | 0 <= k < |i.links|
      ensures Lands(i.definitions, i.links[k].from)
    {
      assert LinkResolves(i, i.links[k]);
      DistinctLands(i.definitions, i.links[k].from);
    }
  }

  /** `to_bytes`. `None` is a panic. */
  method ToBytes(i: Input, cls: Class) returns (r: Option<Image>)
    requires Coherent(i)
    // Which artifacts are emitted, whatever their names.
    ensures r.Some? <==> Emits(cls, i)
    // Reading it back gives the artifact exactly when section names are distinct.
    ensures r.Some? ==> (Faithful(cls, i, r.value) <==> Distinct(SectionNames(i.definitions)))
    // The section count is right, and the file can be read, exactly when section names are distinct.
    ensures r.Some? ==> (CountMatches(cls, r.value) <==> Distinct(SectionNames(i.definitions)))
    ensures r.Some? ==> (Parse(cls, r.value).Some? <==> Distinct(SectionNames(i.definitions)))
  {
    hide Inv, Distinct, FinalSymbols, LinkResolves, Reserved, Faithful, CountMatches, LinksWork, ExpectedEntries,
      NewState, Agrees, Whole, NothingOverwritten, LaidSymbols, Parse;
    var elf := new Elf(i.name, cls);
    AddAll(elf, i.definitions);
    ImportAll(elf, i.imports);
    var ok := LinkAll(elf, i);
    if !ok {
      return None;
    }
    r := elf.Write();
    EmissionEnds(elf.Fields(), elf.history, i, r);
  }

  lemma BuiltIsLaid(i: Input, h: History)
    requires WellNamed(i) && Built(i, h)
    ensures Laid(i, h)
  {
    hide Distinct, DefinedSymbols, LaidSymbols;
    LaidAsDefined(i.definitions, |i.definitions|);
    assert i.definitions[..|i.definitions|] == i.definitions;
  }

  lemma LaidIsBuilt(i: Input, h: History)
    requires WellNamed(i) && Laid(i, h)
    ensures Built(i, h)
  {
    hide Distinct, DefinedSymbols, LaidSymbols;
    LaidAsDefined(i.definitions, |i.definitions|);
    assert i.definitions[..|i.definitions|] == i.definitions;
  }

  lemma EmissionEnds(e: State, h: History, i: Input, r: Option<Image>)
    requires Inv(e, h) && Laid(i, h)
    requires WellNamed(i) ==> h.entries == ExpectedEntries(e.cls, i, i.links)
    requires h.extended <==> e.nsections > SHN_LORESERVE
    requires e.nsections >= SHN_LORESERVE ==> h.extended
    requires LateNames(e.strings, h.extended)
    requires r.Some? <==> Agrees(e)
    requires r.Some? ==> r.value == Whole(e, h.extended)
    ensures r.Some? <==> !Reserved(i.name) && NothingOverwritten(i.definitions)
    ensures r.Some? ==> (Faithful(e.cls, i, r.value) <==> Distinct(SectionNames(i.definitions)))
    ensures r.Some? ==> (CountMatches(e.cls, r.value) <==> Distinct(SectionNames(i.definitions)))
    ensures r.Some? ==> (Parse(e.cls, r.value).Some? <==> Distinct(SectionNames(i.definitions)))
  {
    hide Inv, Distinct, Agrees, Whole, FaithfulAs, CountMatches, Regions, Reserved, FinalSymbols, ExpectedEntries,
      NothingOverwritten, Parse;
    AgreesIff(e, h);
    if r.Some? {
      InvSpecial(e, h);
      WholeHasRegions(e, h.extended);
      CountMatchesIff(e, h, r.value);
      ParsesIff(e, h, r.value);
      if WellNamed(i) {
        LaidIsBuilt(i, h);
        FinishedIsFaithful(e, h, i, r.value);
      }
    }
  }
}
