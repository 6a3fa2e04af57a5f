/** Consequences of a faithful ELF file: what relocations denote, where the local
    symbols end, and which artifacts go wrong. */
module ElfProperties {
  import opened Collections
  import opened ObjectFile
  import opened Decls
  import opened ElfFormat
  import opened ElfImage
  import opened ElfBuild
  import opened ElfClash
  import opened ElfEmit
  import opened ElfSymbols

  // ----- relocations -----

  /** Each link becomes exactly one entry, the expected one, in link order. */
  lemma {:induction false} OneEntryPerLink(cls: Class, i: Input, links: seq<LinkAndDecl>)
    requires Coherent(i) && Supported(cls, links)
    requires forall k :: 0 <= k < |links| ==> LinkResolves(i, links[k])
    ensures |ExpectedEntries(cls, i, links)| == |links|
    ensures forall k :: 0 <= k < |links| ==> Expected(cls, i, links[k]) == Some(ExpectedEntries(cls, i, links)[k])
  {
    hide Coherent, LinkResolves, RelocKind, Expected;
    if links != [] {
      var front := links[..|links| - 1];
      OneEntryPerLink(cls, i, front);
      ResolvedIsExpected(cls, i, links[|links| - 1]);
    }
  }

  lemma ResolvedIsExpected(cls: Class, i: Input, l: LinkAndDecl)
    requires Coherent(i) && LinkResolves(i, l) && RelocKind(cls, l).Some?
    ensures Expected(cls, i, l).Some?
  {
    hide Coherent, Landing, PositionOf, RelocKind, ImportedAs, OwnSymbol, Makes;
    var n := DefinitionOf(i, l.from);
    OwnSectionIff(i, n);
    if DefinedAs(i.definitions, l.to) {
      var m := DefinitionOf(i, l.to);
      OwnSectionIff(i, m);
    } else {
      ImportedTarget(i, l.to);
      EndHasSymbol(i, l.to);
    }
  }

  lemma ImportedTarget(i: Input, b: Binding)
    requires ImportedAs(i.imports, b)
    ensures b.decl.Import?
  {
  }

  /** The definition that a link end is bound to. */
  lemma DefinitionOf(i: Input, b: Binding) returns (n: nat)
    requires DefinedAs(i.definitions, b)
    ensures n < |i.definitions| && b == BindingOf(i.definitions[n])
  {
    n :| 0 <= n < |i.definitions| && i.definitions[n].name == b.name && b.decl == Defined(i.definitions[n].decl);
  }

  /** What a symbol stands for: a place in a section, or something undefined here. */
  datatype Place = InSection(section: nat, value: nat) | Undefined(symbol: nat)

  function PlaceOf(p: Parsed, k: nat): Place
    requires k < |p.symbols|
  {
    if EffectiveIndex(p, k) == 0 then Undefined(k) else InSection(EffectiveIndex(p, k), p.symbols[k].value)
  }

  /** `q` is the position of the symbol called `name` in the symbol table. */
  ghost predicate Called(i: Input, q: nat, name: string) {
    var base := 2 + |i.definitions|;
    base <= q < base + |FinalSymbols(i)| && FinalSymbols(i)[q - base].name == name
  }

  /** Some definition that `b` is bound to keeps the symbol of its name. */
  ghost predicate Kept(i: Input, b: Binding) {
    exists n: nat :: n < |i.definitions| && b == BindingOf(i.definitions[n]) && OwnSymbol(i, i.definitions[n])
  }

  /** The width of the address that an absolute relocation stores. */
  function AddressWidth(typ: nat): Option<nat> {
    if typ == R_X86_64_64 then Some(8) else if typ == R_X86_64_32 then Some(4) else None
  }

  /** What a relocation has to say about its link: a raw one repeats the link's numbers, a
      debug one stores an address of the link's size, an automatic one calls, loads or
      stores an address according to the declarations at its ends. */
  ghost predicate SaysLink(cls: Class, l: LinkAndDecl, r: Relocation) {
    && r.offset == l.at
    && match l.reloc
       case Raw(reloc, addend) => r.typ == reloc && r.addend == addend
       case Debug(size, addend) => r.addend == addend && AddressWidth(r.typ) == Some(size)
       case Auto =>
         if l.from.decl.Defined? && l.from.decl.def.FunctionDecl? then
           && r.addend == -4
           && (r.typ == R_X86_64_PLT32 <==>
               l.to.decl == Import(FunctionImport) || (l.to.decl.Defined? && l.to.decl.def.FunctionDecl?))
           && (r.typ == R_X86_64_GOTPCREL <==> l.to.decl == Import(DataImport))
           && (r.typ == R_X86_64_PC32 <==> l.to.decl.Defined? && l.to.decl.def.DataDecl?)
         else
           && l.from.decl.Defined? && l.from.decl.def.DataDecl?
           && r.addend == 0 && AddressWidth(r.typ) == Some(cls.Ptr())
  }

  lemma KindSaysLink(cls: Class, i: Input, l: LinkAndDecl, r: Relocation)
    requires LinkResolves(i, l) && RelocKind(cls, l) == Some((r.typ, r.addend)) && r.offset == l.at
    ensures SaysLink(cls, l, r)
  {
    hide ImportedAs;
    if l.reloc.Auto? {
      AutoKinds(cls, i, l);
    }
  }

  /** Link `k` in a faithful file. Its entry is in a relocation table, at the link's
      offset, and says what the link asks for. It patches the section that holds `from` exactly if `from` keeps its
      symbol, and it refers to what `to` denotes exactly if `to` is an import or keeps
      its symbol. */
  lemma RelocationMeaning(cls: Class, i: Input, p: Parsed, file: Image, k: nat)
    requires Coherent(i) && Supported(cls, i.links) && FaithfulAs(cls, i, p, file) && k < |i.links|
    ensures |ExpectedEntries(cls, i, i.links)| == |i.links|
    ensures var l, x := i.links[k], ExpectedEntries(cls, i, i.links)[k];
            && InTable(cls, p, file, x) && SaysLink(cls, l, x.reloc)
            && (Some(x.shndx) == SectionOf(i, l.from.name) <==> Kept(i, l.from))
            && (Kept(i, l.from) ==> StartsIn(i, p, file, l.from, x.shndx))
            && (Denotes(i, p, l.to, x.reloc.sym) <==> l.to.decl.Import? || Kept(i, l.to))
  {
    hide Coherent, Supported, RelocKind, FinalSymbols, SectionsFaithful, IndicesFit, RelocationsFaithful,
      SymbolsFaithful, ExpectedEntries, LinkResolves, SectionOf, Landing, TargetSymbol, Kept, Denotes, Distinct,
      TablesFaithful, InTable, StartsIn, SaysLink;
    CoherentLinks(i);
    OneEntryPerLink(cls, i, i.links);
    EntryInTable(cls, p, file, ExpectedEntries(cls, i, i.links), k);
    Origin(i, p, file, i.links[k]);
    Target(i, p, file, i.links[k]);
    KindSaysLink(cls, i, i.links[k], ExpectedEntries(cls, i, i.links)[k].reloc);
  }

  /** A link, as read: some entry of a relocation table says what the link asks for, and
      starts and ends where the link does exactly as far as its ends keep their symbols. */
  ghost predicate LinkSays(cls: Class, i: Input, p: Parsed, file: Image, l: LinkAndDecl) {
    exists x: Entry ::
      && InTable(cls, p, file, x) && SaysLink(cls, l, x.reloc)
      && (Some(x.shndx) == SectionOf(i, l.from.name) <==> Kept(i, l.from))
      && (Kept(i, l.from) ==> StartsIn(i, p, file, l.from, x.shndx))
      && (Denotes(i, p, l.to, x.reloc.sym) <==> l.to.decl.Import? || Kept(i, l.to))
  }

  /** Symbol `q` stands for what `b` stands for: the import itself, or the start of the
      section `b` was defined in, where the symbol called like `b` points too. */
  ghost predicate Denotes(i: Input, p: Parsed, b: Binding, q: nat) {
    && q < |p.symbols|
    && if b.decl.Import? then Called(i, q, b.name) && PlaceOf(p, q) == Undefined(q)
       else
         && SectionOf(i, b.name).Some?
         && PlaceOf(p, q) == InSection(SectionOf(i, b.name).value, 0)
         && (b.decl.IsSection() || NamedPlace(i, p, b.name, PlaceOf(p, q)))
  }

  /** The entry is in the one relocation section for the section it patches. */
  ghost predicate InTable(cls: Class, p: Parsed, file: Image, x: Entry) {
    exists j: nat, m: nat :: IsRela(p, j, x.shndx) && EntryAt(cls, p, file, j, m, x.reloc)
  }

  ghost predicate EntryAt(cls: Class, p: Parsed, file: Image, j: nat, m: nat, r: Relocation) {
    && j < |p.headers| && RelocationsIn(cls, file, p.headers[j]).Some?
    && m < |RelocationsIn(cls, file, p.headers[j]).value| && RelocationsIn(cls, file, p.headers[j]).value[m] == r
  }

  /** Section `shndx` holds the bytes of the definition that a link starts in. */
  ghost predicate StartsIn(i: Input, p: Parsed, file: Image, from: Binding, shndx: nat) {
    exists k: nat :: k < |i.definitions| && i.definitions[k].name == from.name &&
      from.decl == Defined(i.definitions[k].decl)
      && SectionFaithful(i.definitions[k], p, file, shndx)
  }

  lemma {:induction false} EntriesAt(entries: seq<Entry>, k: nat, n: nat) returns (m: nat)
    requires k < n <= |entries|
    ensures m < |EntriesFor(entries[..n], entries[k].shndx)|
    ensures EntriesFor(entries[..n], entries[k].shndx)[m] == entries[k].reloc
  {
    hide EntriesFor;
    EntriesSnoc(entries[..n - 1], entries[n - 1], entries[k].shndx);
    assert entries[..n] == entries[..n - 1] + [entries[n - 1]];
    if k == n - 1 {
      m := |EntriesFor(entries[..n - 1], entries[k].shndx)|;
    } else {
      m := EntriesAt(entries, k, n - 1);
    }
  }

  lemma EntryInTable(cls: Class, p: Parsed, file: Image, entries: seq<Entry>, k: nat)
    requires RelocationsFaithful(cls, p, file, entries) && k < |entries|
    ensures InTable(cls, p, file, entries[k])
  {
    hide RelocationsIn, EntriesFor;
    var shndx := entries[k].shndx;
    assert Patched(entries)[k] == shndx && shndx in Patched(entries);
    var j: nat :| IsRela(p, j, shndx);
    var m := EntriesAt(entries, k, |entries|);
    assert entries[..|entries|] == entries;
    assert EntryAt(cls, p, file, j, m, entries[k].reloc);
  }

  lemma KeptIff(i: Input, n: nat)
    requires Coherent(i) && n < |i.definitions|
    ensures Kept(i, BindingOf(i.definitions[n])) <==> OwnSymbol(i, i.definitions[n])
  {
    hide Coherent, OwnSymbol;
    if Kept(i, BindingOf(i.definitions[n])) {
      var m: nat :| m < |i.definitions| && BindingOf(i.definitions[n]) == BindingOf(i.definitions[m]) &&
        OwnSymbol(i, i.definitions[m]);
      SameName(i, n, m);
    }
  }

  lemma Origin(i: Input, p: Parsed, file: Image, l: LinkAndDecl)
    requires Coherent(i) && SectionsFaithful(i, p, file) && LinkResolves(i, l)
    ensures Landing(i, l.from).Some?
    ensures Landing(i, l.from) == SectionOf(i, l.from.name) <==> Kept(i, l.from)
    ensures Kept(i, l.from) ==> StartsIn(i, p, file, l.from, Landing(i, l.from).value)
  {
    hide Coherent, SectionFaithful, SectionOf, Landing, OwnSymbol, Kept, Makes;
    NamePositions(i);
    var n := DefinitionOf(i, l.from);
    OwnSectionIff(i, n);
    KeptIff(i, n);
  }

  lemma Target(i: Input, p: Parsed, file: Image, l: LinkAndDecl)
    requires Coherent(i) && SymbolsFaithful(i, p, file) && LinkResolves(i, l)
    ensures TargetSymbol(i, l.to).Some?
    ensures Denotes(i, p, l.to, TargetSymbol(i, l.to).value) <==> l.to.decl.Import? || Kept(i, l.to)
  {
    hide Coherent, SymbolsFaithful, Denotes, TargetSymbol, Kept, Makes;
    if DefinedAs(i.definitions, l.to) {
      var n := DefinitionOf(i, l.to);
      DefinedTarget(i, p, file, n);
    } else {
      ImportTarget(i, p, file, l);
    }
  }

  /** The symbol called `name` stands for `place`. */
  ghost predicate NamedPlace(i: Input, p: Parsed, name: string, place: Place) {
    exists q: nat :: Called(i, q, name) && q < |p.symbols| && PlaceOf(p, q) == place
  }

  lemma CoherentLinks(i: Input)
    requires Coherent(i)
    ensures forall k :: 0 <= k < |i.links| ==> LinkResolves(i, i.links[k])
  {
  }

  lemma ImportTarget(i: Input, p: Parsed, file: Image, l: LinkAndDecl)
    requires SymbolsFaithful(i, p, file) && ImportedAs(i.imports, l.to)
    ensures l.to.decl.Import? && TargetSymbol(i, l.to).Some? && Denotes(i, p, l.to, TargetSymbol(i, l.to).value)
  {
    hide PositionOf, FinalSymbols, SymbolName;
    var m :| 0 <= m < |i.imports| && i.imports[m].0 == l.to.name && l.to.decl == Import(i.imports[m].1);
    ImportFinal(i, m);
    var q := PositionOf(i, l.to.name).value;
    assert SymbolFaithful(FinalSymbols(i)[q], p, file, 2 + |i.definitions| + q);
  }

  lemma DefinedTarget(i: Input, p: Parsed, file: Image, n: nat)
    requires Coherent(i) && SymbolsFaithful(i, p, file) && n < |i.definitions|
    ensures var b := BindingOf(i.definitions[n]);
            TargetSymbol(i, b).Some? && (Denotes(i, p, b, TargetSymbol(i, b).value) <==> Kept(i, b))
  {
    hide Coherent, SectionOf, Landing, OwnSymbol, Kept, Makes, FinalSymbols, SymbolsFaithful, NamedPlace;
    var b := BindingOf(i.definitions[n]);
    NamePositions(i);
    OwnSectionIff(i, n);
    KeptIff(i, n);
    SectionSymbolPlace(i, p, file, Landing(i, b).value - FIRST_SECTION);
    if Kept(i, b) && !b.decl.IsSection() {
      OwnPlace(i, p, file, n);
    }
  }

  lemma SectionSymbolPlace(i: Input, p: Parsed, file: Image, k: nat)
    requires SymbolsFaithful(i, p, file) && k < |i.definitions|
    ensures 2 + k < |p.symbols| && PlaceOf(p, 2 + k) == InSection(FIRST_SECTION + k, 0)
  {
    hide FinalSymbols, SymbolFaithful;
    assert SectionSymbolFaithful(p, k);
  }

  /** The symbol a definition keeps stands for the start of its section. */
  lemma OwnPlace(i: Input, p: Parsed, file: Image, n: nat)
    requires Coherent(i) && SymbolsFaithful(i, p, file)
    requires n < |i.definitions| && !i.definitions[n].decl.SectionDecl? && OwnSymbol(i, i.definitions[n])
    ensures NamedPlace(i, p, i.definitions[n].name, InSection(FIRST_SECTION + n, 0))
  {
    hide Coherent, PositionOf, FinalSymbols, OwnSymbol, SymbolName;
    OwnFinal(i, n);
    var q := PositionOf(i, i.definitions[n].name).value;
    assert SymbolFaithful(FinalSymbols(i)[q], p, file, 2 + |i.definitions| + q);
    assert Called(i, 2 + |i.definitions| + q, i.definitions[n].name);
  }

  // ----- local symbols first -----

  /** Below the symbol table's `sh_info` every symbol is local, from there on none is. */
  ghost predicate SplitAtInfo(p: Parsed) {
    p.symtab < |p.headers| &&
    forall k :: 0 <= k < |p.symbols| ==> (p.symbols[k].bind == StbLocal <==> k < p.headers[p.symtab].info)
  }

  /** What that takes: a weak definition, which is counted with the locals, has lost its
      symbol to a custom one, which is local; and a custom symbol, which is not counted,
      has taken or lost the place of another symbol. */
  ghost predicate Splits(i: Input) {
    && (forall k :: 0 <= k < |i.definitions| && !i.definitions[k].decl.SectionDecl? &&
                    i.definitions[k].decl.scope == Weak ==>
          CustomNamed(i.definitions, i.definitions[k].name))
    && (forall name :: CustomNamed(i.definitions, name) ==> name in ImportNames(i.imports) || ObjectNamed(i, name))
  }

  ghost predicate ObjectNamed(i: Input, name: string) {
    exists k :: 0 <= k < |i.definitions| && !i.definitions[k].decl.SectionDecl? && i.definitions[k].name == name
  }

  ghost predicate InEmitOrder(defs: seq<Definition>) {
    forall j, k :: 0 <= j < k < |defs| ==> EmitOrder(defs[j].decl) <= EmitOrder(defs[k].decl)
  }

  /** The definitions counted as local are exactly the first ones. */
  lemma {:induction false} LocalsAreFirst(defs: seq<Definition>)
    requires InEmitOrder(defs)
    ensures LocalCount(defs) <= |defs|
    ensures forall k :: 0 <= k < |defs| ==> (k < LocalCount(defs) <==> EmitOrder(defs[k].decl) <= 1)
  {
    if defs != [] {
      var front := defs[..|defs| - 1];
      LocalsAreFirst(front);
      assert forall k :: 0 <= k < |front| ==> front[k] == defs[k];
      if EmitOrder(defs[|front|].decl) <= 1 && front != [] {
        assert EmitOrder(front[|front| - 1].decl) <= 1;
      }
    }
  }

  lemma {:induction false} OneSymbolEach(defs: seq<Definition>, k: nat)
    requires InEmitOrder(defs) && k <= LocalCount(defs) <= |defs|
    ensures |DefinedSymbols(defs[..k])| == k
    ensures k < LocalCount(defs) ==>
              && !defs[k].decl.SectionDecl?
              && k < |DefinedSymbols(defs)|
              && DefinedSymbols(defs)[k] == SymbolsFor(defs[k], FIRST_SECTION + k)[0]
  {
    hide LocalCount, DefinedSymbols, InEmitOrder;
    LocalsAreFirst(defs);
    if k > 0 {
      OneSymbolEach(defs, k - 1);
      DefinedSymbolsSnoc(defs, k - 1);
    } else {
      NoSymbols(defs[..k]);
    }
    if k < LocalCount(defs) {
      DefinedSymbolAt(defs, k, 0);
    }
  }

  lemma NoSymbols(defs: seq<Definition>)
    requires defs == []
    ensures DefinedSymbols(defs) == []
  {
  }

  /** Elements that are distinct at the front stay in front. */
  lemma {:induction false} DedupFront<T(!new)>(s: seq<T>, n: nat)
    requires n <= |s| && Distinct(s[..n])
    ensures |Dedup(s)| >= n && Dedup(s)[..n] == s[..n]
  {
    hide Distinct, Dedup;
    if n == |s| {
      assert s[..n] == s;
      DedupIdentity(s);
    } else {
      var k := |s| - 1;
      assert s[..k][..n] == s[..n];
      DedupFront(s[..k], n);
      DedupSnoc(s[..k], s[k]);
      assert s == s[..k] + [s[k]];
    }
  }

  /** The first symbols are those called like the definitions counted as local. */
  lemma CountedFirst(i: Input)
    requires Coherent(i)
    ensures LocalCount(i.definitions) <= |i.definitions| && LocalCount(i.definitions) <= |FinalSymbols(i)|
    ensures forall q :: 0 <= q < LocalCount(i.definitions) ==> FinalSymbols(i)[q].name == i.definitions[q].name
  {
    hide LinkResolves, DefinedSymbols, LocalCount, SymbolUnder, Dedup, SymbolsFor;
    var defs, names := i.definitions, SymbolNames(AllSymbols(i));
    var n := LocalCount(defs);
    LocalsAreFirst(defs);
    EnoughSymbols(defs);
    DistinctPrefix(Names(defs), ImportNames(i.imports));
    forall q | 0 <= q < n
      ensures q < |names| && names[q] == defs[q].name
    {
      OneSymbolEach(defs, q);
      OwnName(defs[q], FIRST_SECTION + q);
    }
    assert names[..n] == Names(defs)[..n];
    DedupFront(names, n);
    assert forall q :: 0 <= q < n ==> Dedup(names)[q] == Dedup(names)[..n][q];
  }

  lemma OwnName(d: Definition, shndx: nat)
    requires !d.decl.SectionDecl?
    ensures SymbolsFor(d, shndx) != [] && SymbolsFor(d, shndx)[0].name == d.name
  {
  }

  lemma {:induction false} SymbolsMonotone(defs: seq<Definition>, a: nat, b: nat)
    requires a <= b <= |defs|
    ensures |DefinedSymbols(defs[..a])| <= |DefinedSymbols(defs[..b])|
  {
    hide DefinedSymbols, SymbolsFor;
    if a < b {
      SymbolsMonotone(defs, a, b - 1);
      DefinedSymbolsSnoc(defs, b - 1);
    }
  }

  lemma EnoughSymbols(defs: seq<Definition>)
    requires InEmitOrder(defs)
    ensures LocalCount(defs) <= |DefinedSymbols(defs)|
  {
    LocalsAreFirst(defs);
    OneSymbolEach(defs, LocalCount(defs));
    SymbolsMonotone(defs, LocalCount(defs), |defs|);
    assert defs[..|defs|] == defs;
  }

  /** Symbol `q` is local exactly if its name is bound locally. */
  lemma FinalBind(i: Input, q: nat)
    requires Coherent(i) && q < |FinalSymbols(i)|
    ensures FinalSymbols(i)[q].symbol.bind == StbLocal <==> BoundLocally(i, FinalSymbols(i)[q].name)
  {
    hide Coherent, BoundLocally, AllSymbols, SymbolUnder;
    var name := FinalSymbols(i)[q].name;
    assert name in Dedup(SymbolNames(AllSymbols(i)));
    BoundLocallyIff(i, name);
  }

  lemma FinalNamesDiffer(i: Input, q: nat, r: nat)
    requires q < |FinalSymbols(i)| && r < |FinalSymbols(i)| && FinalSymbols(i)[q].name == FinalSymbols(i)[r].name
    ensures q == r
  {
    hide AllSymbols, SymbolUnder;
  }

  lemma NormalBind(i: Input, p: Parsed, file: Image, k: nat)
    requires SymbolsFaithful(i, p, file) && k < |FinalSymbols(i)|
    ensures 2 + |i.definitions| + k < |p.symbols|
    ensures p.symbols[2 + |i.definitions| + k].bind == FinalSymbols(i)[k].symbol.bind
  {
    hide FinalSymbols, SymbolName;
    assert SymbolFaithful(FinalSymbols(i)[k], p, file, 2 + |i.definitions| + k);
  }

  /** The surviving symbols are split at the number of definitions counted as local. */
  ghost predicate SplitAtCount(i: Input) {
    forall k :: 0 <= k < |FinalSymbols(i)| ==>
      (FinalSymbols(i)[k].symbol.bind == StbLocal <==> k < LocalCount(i.definitions))
  }

  lemma SplitOfSymbols(cls: Class, i: Input, p: Parsed, file: Image)
    requires FaithfulAs(cls, i, p, file)
    ensures SplitAtInfo(p) <==> SplitAtCount(i)
  {
    hide FinalSymbols, SectionsFaithful, IndicesFit, RelocationsFaithful, SymbolFaithful, SymbolName, EffectiveIndex,
      LocalCount, TablesFaithful;
    var base := 2 + |i.definitions|;
    forall k | 0 <= k < |FinalSymbols(i)|
      ensures p.symbols[base + k].bind == FinalSymbols(i)[k].symbol.bind
    {
      NormalBind(i, p, file, k);
    }
    forall k | 0 <= k < base
      ensures p.symbols[k].bind == StbLocal
    {
      if k >= 2 {
        assert SectionSymbolFaithful(p, k - 2);
      }
    }
    if SplitAtInfo(p) {
      forall k | 0 <= k < |FinalSymbols(i)|
        ensures FinalSymbols(i)[k].symbol.bind == StbLocal <==> k < LocalCount(i.definitions)
      {
        assert p.symbols[base + k].bind == StbLocal <==> base + k < p.headers[p.symtab].info;
      }
    }
    if SplitAtCount(i) {
      forall k | 0 <= k < |p.symbols|
        ensures p.symbols[k].bind == StbLocal <==> k < p.headers[p.symtab].info
      {
        if k >= base {
          assert FinalSymbols(i)[k - base].symbol.bind == p.symbols[base + (k - base)].bind;
        }
      }
    }
  }

  /** The split promised by `sh_info` holds exactly for artifacts that split. */
  lemma SplitIff(cls: Class, i: Input, p: Parsed, file: Image)
    requires Coherent(i) && FaithfulAs(cls, i, p, file)
    ensures SplitAtInfo(p) <==> Splits(i)
  {
    hide FaithfulAs, SplitAtInfo, Coherent, SplitAtCount, Splits;
    SplitOfSymbols(cls, i, p, file);
    if SplitAtCount(i) {
      SplitNeeds(i);
    }
    if Splits(i) {
      SplitSuffices(i);
    }
  }

  predicate NoWeak(defs: seq<Definition>) {
    forall k :: 0 <= k < |defs| ==> defs[k].decl.SectionDecl? || defs[k].decl.scope != Weak
  }

  predicate NoCustomSymbols(defs: seq<Definition>) {
    forall k :: 0 <= k < |defs| ==> defs[k].symbols == []
  }

  /** While symbol names are distinct, that means no weak definition and no custom
      symbol at all. */
  lemma SplitsIff(i: Input)
    requires Coherent(i) && Distinct(SymbolNames(AllSymbols(i)))
    ensures Splits(i) <==> NoWeak(i.definitions) && NoCustomSymbols(i.definitions)
  {
    hide LinkResolves, EmitOrder, AllSymbols;
    var defs := i.definitions;
    if NoCustomSymbols(defs) {
      assert forall name :: !CustomNamed(defs, name);
    } else {
      var k :| 0 <= k < |defs| && defs[k].symbols != [];
      assert ContentsAllowed(defs[k]);
      var name := defs[k].symbols[0].0;
      assert IsCustom(defs[k], 0, name) && CustomNamed(defs, name);
      UniqueName(i, k, 0, name);
    }
  }

  lemma UniqueName(i: Input, k: nat, m: nat, name: string)
    requires Distinct(SymbolNames(AllSymbols(i))) && k < |i.definitions| && IsCustom(i.definitions[k], m, name)
    ensures name !in ImportNames(i.imports) && !ObjectNamed(i, name)
  {
    hide DefinedSymbols;
    var defs, names := i.definitions, SymbolNames(AllSymbols(i));
    DefinedSymbolAt(defs, k, m);
    var at := |DefinedSymbols(defs[..k])| + m;
    assert names[at] == name && AllSymbols(i)[at].symbol.shndx == FIRST_SECTION + k;
    forall j | 0 <= j < |i.imports|
      ensures ImportNames(i.imports)[j] != name
    {
      assert names[|DefinedSymbols(defs)| + j] == i.imports[j].0;
    }
    forall j | 0 <= j < |defs| && !defs[j].decl.SectionDecl?
      ensures defs[j].name != name
    {
      DefinedSymbolAt(defs, j, 0);
      var q := |DefinedSymbols(defs[..j])|;
      assert names[q] == defs[j].name && AllSymbols(i)[q].symbol.shndx == FIRST_SECTION + j;
      assert q != at;
    }
  }

  lemma LocalFirst(i: Input, k: nat)
    requires Coherent(i) && k < |i.definitions|
    ensures k < LocalCount(i.definitions) <==>
            !i.definitions[k].decl.SectionDecl? && i.definitions[k].decl.scope != Global
  {
    hide LinkResolves, LocalCount, Distinct, ContentsAllowed;
    LocalsAreFirst(i.definitions);
  }

  lemma SplitNeeds(i: Input)
    requires Coherent(i) && SplitAtCount(i)
    ensures Splits(i)
  {
    hide Coherent, LocalCount, CustomNamed, FinalSymbols;
    var defs := i.definitions;
    CountedFirst(i);
    forall k | 0 <= k < |defs| && !defs[k].decl.SectionDecl? && defs[k].decl.scope == Weak
      ensures CustomNamed(defs, defs[k].name)
    {
      LocalFirst(i, k);
      FinalBind(i, k);
      OnlyScope(i, k);
    }
    forall name | CustomNamed(defs, name) && name !in ImportNames(i.imports)
      ensures ObjectNamed(i, name)
    {
      var q := CustomPosition(i, name);
      FinalBind(i, q);
      if q < LocalCount(defs) {
        LocalFirst(i, q);
      } else {
        assert ScopedNamed(defs, name, Global);
      }
    }
  }

  lemma OnlyScope(i: Input, k: nat)
    requires Coherent(i) && k < |i.definitions| && !i.definitions[k].decl.SectionDecl?
    ensures forall scope :: ScopedNamed(i.definitions, i.definitions[k].name, scope) <==>
            scope == i.definitions[k].decl.scope
  {
    hide Coherent;
    forall j | 0 <= j < |i.definitions| && i.definitions[j].name == i.definitions[k].name
      ensures j == k
    {
      SameName(i, j, k);
    }
  }

  lemma CustomPosition(i: Input, name: string) returns (q: nat)
    requires CustomNamed(i.definitions, name)
    ensures q < |FinalSymbols(i)| && FinalSymbols(i)[q].name == name
  {
    hide DefinedSymbols, Dedup, SymbolUnder;
    var k: nat, m: nat :| k < |i.definitions| && IsCustom(i.definitions[k], m, name);
    DefinedSymbolAt(i.definitions, k, m);
    var names := SymbolNames(AllSymbols(i));
    assert names[|DefinedSymbols(i.definitions[..k])| + m] == name;
    assert name in Dedup(names);
    q :| 0 <= q < |Dedup(names)| && Dedup(names)[q] == name;
  }

  lemma SplitSuffices(i: Input)
    requires Coherent(i) && Splits(i)
    ensures SplitAtCount(i)
  {
    hide Coherent, LocalCount, CustomNamed, FinalSymbols, ScopedNamed;
    var defs := i.definitions;
    CountedFirst(i);
    forall q | 0 <= q < |FinalSymbols(i)|
      ensures FinalSymbols(i)[q].symbol.bind == StbLocal <==> q < LocalCount(defs)
    {
      FinalBind(i, q);
      if q < LocalCount(defs) {
        LocalFirst(i, q);
        NotAnImport(i, q);
        OnlyScope(i, q);
      } else {
        Uncounted(i, q);
      }
    }
  }

  /** A symbol after the counted ones is not bound locally. */
  lemma Uncounted(i: Input, q: nat)
    requires Coherent(i) && Splits(i) && LocalCount(i.definitions) <= q < |FinalSymbols(i)|
    ensures !BoundLocally(i, FinalSymbols(i)[q].name)
  {
    hide Coherent, LocalCount, CustomNamed, FinalSymbols;
    var defs, name := i.definitions, FinalSymbols(i)[q].name;
    CountedFirst(i);
    forall k | 0 <= k < |defs| && !defs[k].decl.SectionDecl? && defs[k].name == name
      ensures defs[k].decl.scope == Global
    {
      LocalFirst(i, k);
      if k < LocalCount(defs) {
        FinalNamesDiffer(i, k, q);
      }
    }
    if CustomNamed(defs, name) && ObjectNamed(i, name) {
      assert ScopedNamed(defs, name, Global);
    }
  }

  /** One weak function is enough to break the split. */
  lemma WeakBreaksSplit(cls: Class, p: Parsed, file: Image)
    requires FaithfulAs(cls, OneWeakFunction(), p, file)
    ensures Coherent(OneWeakFunction()) && WellNamed(OneWeakFunction()) && !Reserved(OneWeakFunction().name)
    ensures !SplitAtInfo(p)
  {
    hide FaithfulAs, SplitAtInfo;
    var i := OneWeakFunction();
    assert i.definitions[0].decl.scope == Weak;
    assert !CustomNamed(i.definitions, "f");
    SplitIff(cls, i, p, file);
  }

  function OneWeakFunction(): Input {
    Input("t.o", [Definition("f", Blob([0xc3]), [], FunctionDecl(Weak, Default, None))], [], [])
  }

  // ----- section names -----

  /** Functions and data never share a section name; only custom sections can clash. */
  lemma DerivedNamesDiffer(d: Definition, e: Definition)
    requires !d.decl.SectionDecl? && !e.decl.SectionDecl? && d.name != e.name
    ensures SectionNameFor(d) != SectionNameFor(e)
  {
    var s, t := SectionNameFor(d), SectionNameFor(e);
    Derived(d);
    Derived(e);
  }

  function PrefixLength(d: Definition): nat {
    match d.decl
    case FunctionDecl(_, _, _) => 6
    case DataDecl(_, _, writable, _, _) => if d.data.ZeroInit? then 5 else if writable then 6 else 8
    case SectionDecl(_, _, _) => 0
  }

  lemma Derived(d: Definition)
    ensures PrefixLength(d) <= |SectionNameFor(d)|
    ensures SectionNameFor(d)[PrefixLength(d)..] == d.name
    ensures !d.decl.SectionDecl? ==>
              && |SectionNameFor(d)| >= 2
              && SectionNameFor(d)[1] == (if PrefixLength(d) == 5 then 'b' else if PrefixLength(d) == 8 then 'r'
                                          else if d.decl.FunctionDecl? then 't' else 'd')
  {
  }

  /** A custom section named like a derived one. */
  ghost predicate CustomClash(defs: seq<Definition>) {
    exists j, k :: 0 <= j < |defs| && 0 <= k < |defs| && j != k &&
      defs[j].decl.SectionDecl? && SectionNameFor(defs[k]) == defs[j].name
  }

  lemma SectionNamesClashIff(i: Input)
    requires Coherent(i)
    ensures Distinct(SectionNames(i.definitions)) <==> !CustomClash(i.definitions)
  {
    hide LinkResolves;
    var defs := i.definitions;
    DistinctPrefix(Names(defs), ImportNames(i.imports));
    if CustomClash(defs) {
      var j, k :| 0 <= j < |defs| && 0 <= k < |defs| && j != k &&
        defs[j].decl.SectionDecl? && SectionNameFor(defs[k]) == defs[j].name;
      assert SectionNames(defs)[j] == SectionNames(defs)[k];
    } else {
      forall j, k | 0 <= j < k < |defs|
        ensures SectionNames(defs)[j] != SectionNames(defs)[k]
      {
        assert Names(defs)[j] != Names(defs)[k];
        if !defs[j].decl.SectionDecl? && !defs[k].decl.SectionDecl? {
          DerivedNamesDiffer(defs[j], defs[k]);
        }
      }
    }
  }

  // ----- artifacts that are emitted wrongly or not at all -----

  function TextNamedTwice(code: seq<byte>, more: seq<byte>): Input {
    Input("t.o",
          [Definition("f", Blob(code), [], FunctionDecl(Local, Default, None)),
           Definition(".text.f", Blob(more), [], SectionDecl(TextSection, RawBytes, None))], [], [])
  }

  lemma TextIsCoherent(code: seq<byte>, more: seq<byte>)
    ensures Coherent(TextNamedTwice(code, more)) && !Reserved("t.o")
    ensures !Distinct(SectionNames(TextNamedTwice(code, more).definitions))
  {
    var i := TextNamedTwice(code, more);
    assert |"f"| != |".text.f"|;
    assert "t.o"[0] != ".strtab"[0] == ".symtab"[0];
    assert SectionNames(i.definitions)[0] == SectionNames(i.definitions)[1];
  }

  /** An empty function and a custom section named after its text section: the file is
      emitted, announces more section headers than it has, and cannot be read. */
  lemma Miscounted(cls: Class) returns (e: State, h: History)
    ensures var i := TextNamedTwice([], [0xc3]);
            && Coherent(i) && Emits(cls, i)
            && e.cls == cls && Inv(e, h) && h.name == i.name && h.defs == i.definitions
    ensures Agrees(e) && !CountMatches(cls, Whole(e, h.extended)) && Parse(cls, Whole(e, h.extended)).None?
  {
    hide Inv, Agrees, NewState, WithDefinition, CountMatches, Parse, Whole, Regions, Distinct, SectionNames,
      HistoryWith, Coherent;
    var i := TextNamedTwice([], [0xc3]);
    TextIsCoherent([], [0xc3]);
    assert NothingOverwritten(i.definitions);
    e, h := BuildTwo(cls, i.name, i.definitions[0], i.definitions[1]);
    assert h.defs == i.definitions;
    AgreesIff(e, h);
    InvSpecial(e, h);
    WholeHasRegions(e, h.extended);
    CountMatchesIff(e, h, Whole(e, h.extended));
    ParsesIff(e, h, Whole(e, h.extended));
  }

  lemma BuildTwo(cls: Class, name: string, a: Definition, b: Definition)
    returns (e: State, h: History)
    ensures Inv(e, h) && e.cls == cls && h.name == name && h.defs == [a, b]
  {
    hide Inv, Core, WithDefinition, NewState;
    e, h := NewState(cls, name), History(name, [], [], [], false);
    NewStateInv(cls, name);
    NewClass(cls, name);
    InvCore(e, h);
    CoreShapes(e, h);
    DefinitionKeeps(e, h, a);
    ClassKept(e, a);
    e, h := WithDefinition(e, a), HistoryWith(e, h, a);
    InvCore(e, h);
    CoreShapes(e, h);
    DefinitionKeeps(e, h, b);
    ClassKept(e, b);
    e, h := WithDefinition(e, b), HistoryWith(e, h, b);
  }

  lemma NewClass(cls: Class, name: string)
    ensures NewState(cls, name).cls == cls
  {
  }

  lemma ClassKept(e: State, d: Definition)
    requires e.sections.Valid() && e.code.Valid() && e.symbols.Valid()
    ensures WithDefinition(e, d).cls == e.cls
  {
    var (f, shndx) := WithContents(e, d);
    SymbolsKeepClass(f, SymbolsFor(d, shndx));
  }

  lemma {:induction false} SymbolsKeepClass(e: State, specs: seq<NamedSymbol>)
    requires e.symbols.Valid()
    ensures WithSymbols(e, specs).cls == e.cls
  {
    if specs != [] {
      SymbolsKeepClass(e, specs[..|specs| - 1]);
    }
  }

  /** The same names the other way round: the bytes of the function are overwritten but
      stay counted, and the writer panics. */
  lemma OverwrittenText(cls: Class)
    ensures var i := TextNamedTwice([0xc3], []);
            Coherent(i) && !Reserved(i.name) && Supported(cls, i.links) && !Emits(cls, i)
  {
    var i := TextNamedTwice([0xc3], []);
    TextIsCoherent([0xc3], []);
    assert Overwrites(i.definitions[0], i.definitions[1]);
  }

  /** A custom section that takes the name of a global function's section first: the
      function's symbol names a section that is never made, and a link from it panics. */
  function StrandedLink(): Input {
    var g := FunctionDecl(Global, Default, None);
    var b := Binding("g", Defined(g));
    Input("t.o",
          [Definition(".text.g", Blob([]), [], SectionDecl(TextSection, RawBytes, None)),
           Definition("g", Blob([0xe8]), [], g)], [],
          [LinkAndDecl(b, b, 1, Auto)])
  }

  lemma StrandedPanics(cls: Class)
    ensures var i := StrandedLink();
            && Coherent(i) && !Reserved(i.name) && Supported(cls, i.links) && NothingOverwritten(i.definitions)
            && !Emits(cls, i)
  {
    hide Coherent, NothingOverwritten, Lands;
    StrandedIsCoherent();
    StrandedDoesNotLand();
    assert "t.o"[0] != ".strtab"[0] == ".symtab"[0];
  }

  lemma StrandedIsCoherent()
    ensures Coherent(StrandedLink()) && NothingOverwritten(StrandedLink().definitions)
  {
    var i := StrandedLink();
    assert |"g"| != |".text.g"|;
    assert DefinedAs(i.definitions, i.links[0].from) by {
      assert i.definitions[1].name == "g";
    }
  }

  lemma StrandedDoesNotLand()
    ensures !Lands(StrandedLink().definitions, StrandedLink().links[0].from)
  {
    var defs := StrandedLink().definitions;
    assert LastMaker(defs, 1, "g");
    assert SectionNames(defs[..1])[0] == SectionNameFor(defs[1]);
  }

  /** A local function `g` that refers to itself, and a custom section with a symbol of
      the same name, which replaces the function's. */
  function ReplacedSymbol(): Input {
    var g := FunctionDecl(Local, Default, None);
    var b := Binding("g", Defined(g));
    Input("t.o",
          [Definition("g", Blob([0xe8]), [], g),
           Definition(".s", Blob([]), [("g", 0)], SectionDecl(DataSection, RawBytes, None))], [],
          [LinkAndDecl(b, b, 1, Auto)])
  }

  lemma ReplacedIsCoherent(cls: Class)
    ensures Coherent(ReplacedSymbol()) && Emits(cls, ReplacedSymbol())
    ensures Distinct(SectionNames(ReplacedSymbol().definitions))
    ensures !OwnSymbol(ReplacedSymbol(), ReplacedSymbol().definitions[0])
  {
    hide Lands, NothingOverwritten, OwnSymbol;
    var i := ReplacedSymbol();
    var defs := i.definitions;
    assert |"g"| != |".s"| && |".text.g"| != |".s"|;
    assert "t.o"[0] != ".strtab"[0] == ".symtab"[0];
    assert defs[0].name == "g" && DefinedAs(defs, i.links[0].from);
    EmitsIff(cls, i);
    ReplacedHasCustom();
  }

  lemma ReplacedHasCustom()
    ensures !OwnSymbol(ReplacedSymbol(), ReplacedSymbol().definitions[0])
  {
    assert IsCustom(ReplacedSymbol().definitions[1], 0, "g");
  }

  /** It is emitted and reads back, but the link is filed under the custom section, which
      does not hold the byte it is meant to patch, and refers to that section too. */
  lemma MisfiledLink(cls: Class, p: Parsed, file: Image)
    requires FaithfulAs(cls, ReplacedSymbol(), p, file)
    ensures Coherent(ReplacedSymbol()) && Emits(cls, ReplacedSymbol())
    ensures Distinct(SectionNames(ReplacedSymbol().definitions))
    ensures var i := ReplacedSymbol();
            && |ExpectedEntries(cls, i, i.links)| == 1
            && var x := ExpectedEntries(cls, i, i.links)[0];
               && InTable(cls, p, file, x) && x.shndx == FIRST_SECTION + 1 && SectionOf(i, "g") == Some(FIRST_SECTION)
               && !Denotes(i, p, i.links[0].to, x.reloc.sym)
  {
    hide Coherent, Emits, FaithfulAs, ExpectedEntries, InTable, Denotes, SectionOf, Landing, TargetSymbol, Kept,
      OwnSymbol, RelocKind, Distinct, LinksWork, Makes;
    var i := ReplacedSymbol();
    ReplacedIsCoherent(cls);
    EmitsIff(cls, i);
    RelocationMeaning(cls, i, p, file, 0);
    NamePositions(i);
    CoherentLinks(i);
    OneEntryPerLink(cls, i, i.links);
    OwnSectionIff(i, 0);
    KeptIff(i, 0);
  }

  /** An artifact called like a table is laid out wrong from the start. */
  lemma ReservedNameBreaksLayout(cls: Class)
    ensures !Agrees(NewState(cls, ".strtab"))
  {
    hide Inv, Agrees, NewState;
    NewStateInv(cls, ".strtab");
    AgreesIff(NewState(cls, ".strtab"), History(".strtab", [], [], [], false));
  }

  // ----- contents -----

  /** Following a function or data symbol to its section, through the extended index
      table if need be, gives the bytes the definition was given. */
  ghost predicate LeadsTo(p: Parsed, file: Image, at: nat, d: Definition) {
    && at < |p.symbols| && p.symtab < |p.headers|
    && (SymbolName(p, file, at) == Codes(d.name) <==> NoNul(d.name))
    && StandsFor(p.symbols[at], d)
    && EffectiveIndex(p, at) < |p.headers|
    && p.headers[EffectiveIndex(p, at)].size == d.data.FileSize()
    && (d.data.Blob? ==> Contents(p, file, EffectiveIndex(p, at)) == Some(Bytes(d.data.bytes)))
  }

  /** The symbol called like a function or data object belongs to its section exactly if
      the definition keeps it, and then leads to its bytes. */
  lemma SymbolLeadsToContents(cls: Class, i: Input, p: Parsed, file: Image, k: nat)
    requires Coherent(i) && FaithfulAs(cls, i, p, file) && k < |i.definitions| && !i.definitions[k].decl.SectionDecl?
    ensures exists at: nat ::
              && at < |p.symbols| && Called(i, at, i.definitions[k].name)
              && (EffectiveIndex(p, at) == FIRST_SECTION + k <==> OwnSymbol(i, i.definitions[k]))
              && (OwnSymbol(i, i.definitions[k]) ==> LeadsTo(p, file, at, i.definitions[k]))
  {
    hide Coherent, RelocationsFaithful, IndicesFit, NameIn, Contents, EffectiveIndex, SectionNameFor, SectionTypeFor,
      NoNul, FinalSymbols, PositionOf, OwnSymbol, TablesFaithful, LocalCount, Makes;
    var d := i.definitions[k];
    assert DefinedAs(i.definitions, BindingOf(d));
    EndHasSymbol(i, BindingOf(d));
    OwnSectionIff(i, k);
    var q := PositionOf(i, d.name).value;
    var at := 2 + |i.definitions| + q;
    assert SymbolFaithful(FinalSymbols(i)[q], p, file, at);
    assert SectionFaithful(d, p, file, FIRST_SECTION + k);
    if OwnSymbol(i, d) {
      OwnFinal(i, k);
    }
    assert Called(i, at, d.name);
  }

  /** The section of a definition, as read: its type tells whether it has contents, and
      its name is derived from the definition's by what it is. */
  ghost predicate SectionSays(d: Definition, p: Parsed, file: Image, at: nat) {
    && at < |p.headers|
    && (p.headers[at].typ == NoBits <==> d.data.ZeroInit?)
    && (p.headers[at].typ == ProgBits <==> d.data.Blob?)
    && (d.data.Blob? ==> Contents(p, file, at) == Some(Bytes(d.data.bytes)))
    && (d.data.ZeroInit? ==> p.headers[at].size == 0)
    && exists name :: DerivedName(d, name) && (SectionName(p, file, at) == Codes(name) <==> NoNul(name))
  }

  /** A custom section keeps its name, any other is called after what it holds. */
  ghost predicate DerivedName(d: Definition, name: string) {
    if d.decl.SectionDecl? then name == d.name
    else
      exists prefix ::
        && name == prefix + d.name
        && (prefix == ".text." <==> d.decl.FunctionDecl?)
        && (prefix == ".bss." <==> d.decl.DataDecl? && d.data.ZeroInit?)
        && (prefix == ".data." <==> d.decl.DataDecl? && d.data.Blob? && d.decl.writable)
        && (prefix == ".rodata." <==> d.decl.DataDecl? && d.data.Blob? && !d.decl.writable)
  }

  lemma SectionNameDerived(d: Definition)
    requires ContentsAllowed(d)
    ensures DerivedName(d, SectionNameFor(d))
  {
    assert ".text."[1] != ".bss."[1] && ".text."[1] != ".data."[1] && ".text."[1] != ".rodata."[1];
    assert ".bss."[1] != ".data."[1] && ".bss."[1] != ".rodata."[1] && ".data."[1] != ".rodata."[1];
  }

  /** The whole symbol table of a faithful file, after the section symbols: one symbol
      for each name, saying what that name stands for. */
  ghost predicate SymbolSays(i: Input, p: Parsed, file: Image, at: nat, name: string) {
    && at < |p.symbols| && p.symtab < |p.headers|
    && (SymbolName(p, file, at) == Codes(name) <==> NoNul(name))
    && SaysRight(i, name, p.symbols[at].(shndx := EffectiveIndex(p, at)))
  }

  /** The symbols in front: the null symbol, the file, and a local symbol for the start of
      each definition's section. */
  ghost predicate FrontSays(i: Input, p: Parsed) {
    && |p.symbols| >= 2 + |i.definitions|
    && p.symbols[0] == Symbol(0, StbLocal, NoType, 0, 0, 0)
    && p.symbols[1] == Symbol(p.symbols[1].name, StbLocal, FileType, 0, 0xfff1, 0)
    && forall at :: 2 <= at < 2 + |i.definitions| ==>
         && EffectiveIndex(p, at) == at - 2 + FIRST_SECTION
         && p.symbols[at] == Symbol(0, StbLocal, SectionType, 0, p.symbols[at].shndx, 0)
  }

  lemma FrontIsSaid(i: Input, p: Parsed, file: Image)
    requires SymbolsFaithful(i, p, file)
    ensures FrontSays(i, p)
  {
    hide FinalSymbols, SymbolFaithful, EffectiveIndex;
    forall at | 2 <= at < 2 + |i.definitions|
      ensures EffectiveIndex(p, at) == at - 2 + FIRST_SECTION
      ensures p.symbols[at] == Symbol(0, StbLocal, SectionType, 0, p.symbols[at].shndx, 0)
    {
      assert SectionSymbolFaithful(p, at - 2);
    }
  }

  lemma SaysIgnoresName(i: Input, name: string, s: Symbol, t: Symbol)
    requires SaysRight(i, name, s) && t == s.(name := t.name)
    ensures SaysRight(i, name, t)
  {
    if name !in ImportNames(i.imports) {
      var k: nat :| LastMaker(i.definitions, k, name) && s.shndx == FIRST_SECTION + k &&
        SaysAs(i.definitions[k], name, s);
      assert SaysAs(i.definitions[k], name, t);
    }
  }

  /** The file in the artifact's own terms: every definition has its section, every name
      has one symbol, and every link has a relocation. */
  ghost predicate FileSays(cls: Class, i: Input, p: Parsed, file: Image) {
    && (forall k :: 0 <= k < |i.definitions| ==> SectionSays(i.definitions[k], p, file, FIRST_SECTION + k))
    && FrontSays(i, p)
    && (exists names :: NamesSay(i, p, file, names))
    && (forall k :: 0 <= k < |i.links| ==> LinkSays(cls, i, p, file, i.links[k]))
  }

  /** `names` are the names of imports and of symbols that definitions make, once each, and
      the symbols called so say what those stand for. */
  ghost predicate NamesSay(i: Input, p: Parsed, file: Image, names: seq<string>) {
    && |p.symbols| == 2 + |i.definitions| + |names|
    && Distinct(names)
    && (forall name :: name in names <==>
          name in ImportNames(i.imports) || exists k :: 0 <= k < |i.definitions| && Makes(i.definitions[k], name))
    && (forall q :: 0 <= q < |names| ==> SymbolSays(i, p, file, 2 + |i.definitions| + q, names[q]))
  }

  lemma FaithfulSays(cls: Class, i: Input, p: Parsed, file: Image)
    requires Coherent(i) && Supported(cls, i.links) && FaithfulAs(cls, i, p, file)
    ensures FileSays(cls, i, p, file)
  {
    hide FaithfulAs, SectionSays, FrontSays, NamesSay, LinkSays, Coherent, Supported, InTable, SaysLink, Kept, StartsIn,
      Denotes, ExpectedEntries, SectionOf;
    ContentsSay(cls, i, p, file);
    forall k | 0 <= k < |i.links|
      ensures LinkSays(cls, i, p, file, i.links[k])
    {
      RelocationMeaning(cls, i, p, file, k);
      SaidByEntry(cls, i, p, file, i.links[k], ExpectedEntries(cls, i, i.links)[k]);
    }
  }

  lemma SaidByEntry(cls: Class, i: Input, p: Parsed, file: Image, l: LinkAndDecl, x: Entry)
    requires InTable(cls, p, file, x) && SaysLink(cls, l, x.reloc)
    requires Some(x.shndx) == SectionOf(i, l.from.name) <==> Kept(i, l.from)
    requires Kept(i, l.from) ==> StartsIn(i, p, file, l.from, x.shndx)
    requires Denotes(i, p, l.to, x.reloc.sym) <==> l.to.decl.Import? || Kept(i, l.to)
    ensures LinkSays(cls, i, p, file, l)
  {
    hide InTable, SaysLink, Kept, StartsIn, Denotes, SectionOf;
  }

  lemma ContentsSay(cls: Class, i: Input, p: Parsed, file: Image)
    requires Coherent(i) && FaithfulAs(cls, i, p, file)
    ensures forall k :: 0 <= k < |i.definitions| ==> SectionSays(i.definitions[k], p, file, FIRST_SECTION + k)
    ensures FrontSays(i, p)
    ensures NamesSay(i, p, file, SymbolNames(FinalSymbols(i)))
  {
    hide Coherent, RelocationsFaithful, TablesFaithful, IndicesFit, FinalSymbols, SaysRight, SectionSays, SymbolSays,
      SectionFaithful, SymbolFaithful, SectionSymbolFaithful, LocalCount, Makes, Distinct, SymbolName, FrontSays;
    FrontIsSaid(i, p, file);
    forall k | 0 <= k < |i.definitions|
      ensures SectionSays(i.definitions[k], p, file, FIRST_SECTION + k)
    {
      SectionIsSaid(i, p, file, k);
    }
    forall name
      ensures name in SymbolNames(FinalSymbols(i)) <==>
              name in ImportNames(i.imports) || exists k :: 0 <= k < |i.definitions| && Makes(i.definitions[k], name)
    {
      FinalNames(i, name);
    }
    FinalNames(i, "");
    forall q | 0 <= q < |FinalSymbols(i)|
      ensures SymbolSays(i, p, file, 2 + |i.definitions| + q, FinalSymbols(i)[q].name)
    {
      SymbolIsSaid(i, p, file, q);
    }
  }

  lemma SectionIsSaid(i: Input, p: Parsed, file: Image, k: nat)
    requires Coherent(i) && SectionsFaithful(i, p, file) && k < |i.definitions|
    ensures SectionSays(i.definitions[k], p, file, FIRST_SECTION + k)
  {
    hide SectionName, Contents, NoNul, SectionNameFor, DerivedName, LinkResolves, Distinct, EmitOrder;
    var d := i.definitions[k];
    assert ContentsAllowed(d) && SectionFaithful(d, p, file, FIRST_SECTION + k);
    SectionNameDerived(d);
  }

  lemma SymbolIsSaid(i: Input, p: Parsed, file: Image, q: nat)
    requires Coherent(i) && SymbolsFaithful(i, p, file) && q < |FinalSymbols(i)|
    ensures SymbolSays(i, p, file, 2 + |i.definitions| + q, FinalSymbols(i)[q].name)
  {
    hide Coherent, FinalSymbols, SaysRight, SymbolName, NoNul, SectionSymbolFaithful, EffectiveIndex;
    var at, s := 2 + |i.definitions| + q, FinalSymbols(i)[q];
    assert SymbolFaithful(s, p, file, at);
    FinalSays(i, q);
    SaysIgnoresName(i, s.name, s.symbol, p.symbols[at].(shndx := EffectiveIndex(p, at)));
  }

  // ----- supported links -----

  /** Among coherent links the relocation match refuses exactly automatic links that
      start in a section, or lead from a function to one, and odd debug sizes. */
  lemma SupportedIff(cls: Class, i: Input, l: LinkAndDecl)
    requires LinkResolves(i, l)
    ensures RelocKind(cls, l).None? <==>
            || (l.reloc.Auto? && (l.from.decl.IsSection() || (l.from.decl.def.FunctionDecl? && l.to.decl.IsSection())))
            || (l.reloc.Debug? && l.reloc.size != 4 && l.reloc.size != 8)
  {
  }

  /** An automatic link from code is relative to the end of a four-byte field and
      goes through the PLT just for functions, the GOT just for imported data; one
      from data stores an address of the container's pointer size. */
  lemma AutoKinds(cls: Class, i: Input, l: LinkAndDecl)
    requires LinkResolves(i, l) && l.reloc == Auto && RelocKind(cls, l).Some?
    ensures var (typ, addend) := RelocKind(cls, l).value;
            if l.from.decl.def.FunctionDecl? then
              && addend == -4
              && (typ == R_X86_64_PLT32 <==>
                  l.to.decl == Import(FunctionImport) || (l.to.decl.Defined? && l.to.decl.def.FunctionDecl?))
              && (typ == R_X86_64_GOTPCREL <==> l.to.decl == Import(DataImport))
              && typ in {R_X86_64_PLT32, R_X86_64_GOTPCREL, R_X86_64_PC32}
            else
              addend == 0 && typ == (if cls.Ptr() == 8 then R_X86_64_64 else R_X86_64_32)
  {
  }
}
