/** What each builder call does to the builder's fields, and the invariant that
    ties the fields to everything added so far. */
module ElfBuild {
  import opened Collections
  import opened Decls
  import opened ElfFormat
  import opened ElfImage

  // ----- what a definition asks for -----

  function SectionNameFor(d: Definition): string {
    match d.decl
    case FunctionDecl(_, _, _) => ".text." + d.name
    case DataDecl(_, _, writable, _, _) =>
      if d.data.ZeroInit? then ".bss." + d.name
      else if writable then ".data." + d.name
      else ".rodata." + d.name
    case SectionDecl(_, _, _) => d.name
  }

  function SectionTypeFor(d: Definition): ShType {
    match d.decl
    case FunctionDecl(_, _, _) => ProgBits
    case DataDecl(_, _, _, _, _) => if d.data.ZeroInit? then NoBits else ProgBits
    case SectionDecl(_, _, _) =>
      if d.name == ".debug_str" || d.name == ".debug_line_str" then ProgBits
      else if d.data.ZeroInit? then NoBits else ProgBits
  }

  function SectionNames(defs: seq<Definition>): (r: seq<string>)
    ensures |r| == |defs| && forall i :: 0 <= i < |r| ==> r[i] == SectionNameFor(defs[i])
  {
    seq(|defs|, i requires 0 <= i < |defs| => SectionNameFor(defs[i]))
  }

  function Blobs(defs: seq<Definition>): seq<seq<byte>> {
    if defs == [] then []
    else
      var front := Blobs(defs[..|defs| - 1]);
      var last := defs[|defs| - 1];
      if last.data.Blob? then front + [last.data.bytes] else front
  }

  function Bits(cls: Class, defs: seq<Definition>): nat {
    cls.EhdrSize() + |Flatten(Blobs(defs))|
  }

  /** The contents given last to the section called `name`. */
  function LastBlob(defs: seq<Definition>, name: string): Option<seq<byte>> {
    if defs == [] then None
    else
      var last := defs[|defs| - 1];
      if last.data.Blob? && SectionNameFor(last) == name then Some(last.data.bytes)
      else LastBlob(defs[..|defs| - 1], name)
  }

  /** The number of bytes that a later definition of the same section overwrites. */
  function Lost(defs: seq<Definition>): nat {
    if defs == [] then 0
    else
      var front, last := defs[..|defs| - 1], defs[|defs| - 1];
      Lost(front) + if last.data.Blob? then LengthOf(LastBlob(front, SectionNameFor(last))) else 0
  }

  function LengthOf(bytes: Option<seq<byte>>): nat {
    match bytes
    case Some(b) => |b|
    case None => 0
  }

  function LocalCount(defs: seq<Definition>): nat {
    if defs == [] then 0
    else
      var last := defs[|defs| - 1].decl;
      LocalCount(defs[..|defs| - 1]) + if !last.SectionDecl? && !last.IsGlobal() then 1 else 0
  }

  /** A symbol before its name has been turned into a string-table offset. */
  datatype NamedSymbol = NamedSymbol(name: string, symbol: Symbol)

  function SymbolsFor(d: Definition, shndx: nat): (r: seq<NamedSymbol>) {
    if d.decl.SectionDecl? then
      seq(|d.symbols|, i requires 0 <= i < |d.symbols| =>
        NamedSymbol(d.symbols[i].0, CreateSymbol(FromNothing, 0, 0, shndx, d.symbols[i].1)))
    else [NamedSymbol(d.name, CreateSymbol(FromDecl(d.decl), 0, d.data.FileSize(), shndx, 0))]
  }

  function SymbolForImport(name: string): NamedSymbol {
    NamedSymbol(name, CreateSymbol(FromImport, 0, 0, 0, 0))
  }

  function SymbolNames(specs: seq<NamedSymbol>): (r: seq<string>)
    ensures |r| == |specs| && forall i :: 0 <= i < |r| ==> r[i] == specs[i].name
  {
    seq(|specs|, i requires 0 <= i < |specs| => specs[i].name)
  }

  /** The symbol made last under `name`. */
  function LastSymbol(specs: seq<NamedSymbol>, name: string): Option<Symbol> {
    if specs == [] then None
    else if specs[|specs| - 1].name == name then Some(specs[|specs| - 1].symbol)
    else LastSymbol(specs[..|specs| - 1], name)
  }

  function SymbolUnder(specs: seq<NamedSymbol>, name: string): Symbol {
    match LastSymbol(specs, name)
    case Some(symbol) => symbol
    case None => NullSymbol
  }

  /** What is left of the symbols made: one for each name, in the order the names first
      came up, and under each name the symbol made last. */
  function Survivors(specs: seq<NamedSymbol>): (r: seq<NamedSymbol>)
    ensures |r| == |Dedup(SymbolNames(specs))|
    ensures forall i :: 0 <= i < |r| ==>
              && r[i].name == Dedup(SymbolNames(specs))[i]
              && r[i].symbol == SymbolUnder(specs, r[i].name)
  {
    var names := Dedup(SymbolNames(specs));
    seq(|names|, i requires 0 <= i < |names| => NamedSymbol(names[i], SymbolUnder(specs, names[i])))
  }

  // ----- the calls -----

  /** `new_string`: intern, and give a new string the current end of the table. */
  function WithString(e: State, s: string): (State, nat, nat) {
    var (strings, idx) := Intern(e.strings, s);
    if idx in e.offsets then (e.(strings := strings), idx, e.offsets[idx])
    else (e.(strings := strings, offsets := e.offsets[idx := e.sizeofStrtab], sizeofStrtab := e.sizeofStrtab + |s| + 1),
          idx, e.sizeofStrtab)
  }

  function SectionSymbol(shndx: nat): Symbol {
    CreateSymbol(FromSection, 0, 0, shndx, 0)
  }

  function WithSection(e: State, name: string, typ: ShType, size: nat): (State, nat, nat)
    requires e.sections.Valid()
  {
    var (e1, idx, off) := WithString(e, name);
    var shndx := |e1.sections.keys| + FIRST_SECTION;
    var header := CreateSection(e1.cls, typ, size, off).(offset := e1.sizeofBits);
    (e1.(sections := e1.sections.Insert(idx, SectionInfo(header, SectionSymbol(shndx), idx)),
         nsections := e1.nsections + 1), idx, shndx)
  }

  function WithProgbits(e: State, name: string, typ: ShType, size: nat, bytes: seq<byte>): (State, nat)
    requires e.sections.Valid() && e.code.Valid()
  {
    var (e1, idx, shndx) := WithSection(e, name, typ, size);
    (e1.(sizeofBits := e1.sizeofBits + |bytes|, code := e1.code.Insert(idx, bytes)), shndx)
  }

  /** The section half of `add_definition`. */
  function WithContents(e: State, d: Definition): (State, nat)
    requires e.sections.Valid() && e.code.Valid()
  {
    if d.data.Blob? then WithProgbits(e, SectionNameFor(d), SectionTypeFor(d), d.data.FileSize(), d.data.bytes)
    else
      var (e1, _, shndx) := WithSection(e, SectionNameFor(d), SectionTypeFor(d), d.data.FileSize());
      (e1, shndx)
  }

  function WithSymbol(e: State, s: NamedSymbol): (f: State)
    requires e.symbols.Valid()
    ensures f.symbols.Valid()
  {
    var (e1, idx, off) := WithString(e, s.name);
    e1.(symbols := e1.symbols.Insert(idx, s.symbol.(name := off)))
  }

  /** `add_reloc`; `None` is one of its two `expect`s failing. */
  function WithReloc(e: State, shndx: nat, r: Relocation): Option<State>
    requires e.relocations.Valid()
  {
    match IndexOf(e.relocations.keys, shndx)
    case Some(g) =>
      var group := e.relocations.values[g];
      var grown := RelocGroup(group.header.(size := group.header.size + group.header.entsize), group.relocs + [r]);
      Some(e.(relocations := e.relocations.Insert(shndx, grown)))
    case None =>
      if shndx < FIRST_SECTION || shndx - FIRST_SECTION >= |e.sections.values| then None
      else
        var id := e.sections.values[shndx - FIRST_SECTION].name;
        if id >= |e.strings| then None
        else
          var (e1, _, off) := WithString(e, ".rela" + e.strings[id]);
          var header := CreateSection(e1.cls, Rela, e1.cls.RelaSize(), off).(link := SYMTAB_LINK, info := shndx);
          Some(e1.(relocations := e1.relocations.Insert(shndx, RelocGroup(header, [r])), nsections := e1.nsections + 1))
  }

  // ----- the invariant -----

  /** `Elf::new` pushes three strings without looking for repetitions, so a name
      equal to one of the first two is counted twice. */
  predicate Reserved(name: string) {
    name == ".strtab" || name == ".symtab"
  }

  type Strings = seq<string>
  type Offsets = map<nat, nat>

  /** String `i` starts where the table of the strings before it ends. */
  ghost predicate StringsInv(strings: Strings, offsets: Offsets, size: nat, name: string) {
    && Distinct(strings)
    && |strings| >= 2 && strings[0] == ".strtab" && strings[1] == ".symtab"
    && (forall i :: i in offsets <==> 0 <= i < |strings|)
    && size == |Strtab(strings)| + (if Reserved(name) then |name| + 1 else 0)
    && (!Reserved(name) ==> forall i :: 0 <= i < |strings| ==> offsets[i] == |Strtab(strings[..i])|)
  }

  function KeyNames(strings: Strings, keys: seq<nat>): (r: seq<string>)
    ensures |r| == |keys|
    ensures forall i :: 0 <= i < |r| ==> r[i] == if keys[i] < |strings| then strings[keys[i]] else []
  {
    seq(|keys|, i requires 0 <= i < |keys| => if keys[i] < |strings| then strings[keys[i]] else [])
  }

  ghost predicate KeysIn(strings: Strings, keys: seq<nat>) {
    forall i :: 0 <= i < |keys| ==> keys[i] < |strings|
  }

  /** The entry of definition `k`: its header and section symbol. */
  function SectionFor(cls: Class, defs: seq<Definition>, k: nat, id: nat, off: nat): SectionInfo
    requires k < |defs|
  {
    SectionInfo(
      CreateSection(cls, SectionTypeFor(defs[k]), defs[k].data.FileSize(), off).(offset := Bits(cls, defs[..k])),
      SectionSymbol(FIRST_SECTION + k), id)
  }

  type Sections = IndexMap<nat, SectionInfo>
  type Code = IndexMap<nat, seq<byte>>

  ghost predicate SectionShapes(strings: Strings, sections: Sections) {
    && sections.Valid()
    && KeysIn(strings, sections.keys)
    && (forall i :: 0 <= i < |sections.keys| ==> sections.values[i].name == sections.keys[i])
    && (forall i :: 0 <= i < |sections.values| ==> sections.values[i].header.typ in {ProgBits, NoBits})
  }

  /** Section `k` is definition `k`'s, with its bytes right after the earlier ones. */
  ghost predicate SectionsExact(cls: Class, offsets: Offsets, sections: Sections, code: Code, defs: seq<Definition>) {
    && |sections.keys| == |sections.values| == |defs|
    && code.values == Blobs(defs)
    && (forall k :: 0 <= k < |defs| ==>
          && sections.keys[k] in offsets
          && sections.values[k] == SectionFor(cls, defs, k, sections.keys[k], offsets[sections.keys[k]]))
  }

  /** The code map holds the latest contents of every section, and nothing else. */
  ghost predicate CodeInv(strings: Strings, code: Code, defs: seq<Definition>) {
    && code.Valid()
    && KeysIn(strings, code.keys)
    && (forall i :: 0 <= i < |code.keys| ==> LastBlob(defs, strings[code.keys[i]]) == Some(code.values[i]))
    && (forall name :: LastBlob(defs, name).Some? ==> name in KeyNames(strings, code.keys))
    && |Flatten(code.values)| + Lost(defs) == |Flatten(Blobs(defs))|
  }

  ghost predicate SectionsInv(cls: Class, strings: Strings, offsets: Offsets, sections: Sections, code: Code, bits: nat,
                              defs: seq<Definition>) {
    && SectionShapes(strings, sections)
    && CodeInv(strings, code, defs)
    && (forall k :: k in code.keys ==> k in sections.keys)
    && KeyNames(strings, sections.keys) == Dedup(SectionNames(defs))
    && bits == Bits(cls, defs)
    && (Distinct(SectionNames(defs)) ==> SectionsExact(cls, offsets, sections, code, defs))
  }

  type Symbols = IndexMap<nat, Symbol>

  ghost predicate SymbolsExact(offsets: Offsets, symbols: Symbols, specs: seq<NamedSymbol>) {
    && |symbols.keys| == |symbols.values| == |specs|
    && (forall i :: 0 <= i < |specs| ==>
          && symbols.keys[i] in offsets
          && symbols.values[i] == specs[i].symbol.(name := offsets[symbols.keys[i]]))
  }

  ghost predicate SymbolsInv(strings: Strings, offsets: Offsets, symbols: Symbols, specs: seq<NamedSymbol>) {
    && symbols.Valid()
    && KeysIn(strings, symbols.keys)
    && KeyNames(strings, symbols.keys) == Dedup(SymbolNames(specs))
    && SymbolsExact(offsets, symbols, Survivors(specs))
  }

  /** A relocation together with the section it patches. */
  datatype Entry = Entry(shndx: nat, reloc: Relocation)

  function Patched(entries: seq<Entry>): (r: seq<nat>)
    ensures |r| == |entries| && forall i :: 0 <= i < |r| ==> r[i] == entries[i].shndx
  {
    seq(|entries|, i requires 0 <= i < |entries| => entries[i].shndx)
  }

  /** The relocations of one section, in the order they were added. */
  function EntriesFor(entries: seq<Entry>, shndx: nat): seq<Relocation> {
    if entries == [] then []
    else
      var front := EntriesFor(entries[..|entries| - 1], shndx);
      var last := entries[|entries| - 1];
      if last.shndx == shndx then front + [last.reloc] else front
  }

  type Groups = IndexMap<nat, RelocGroup>

  ghost predicate Named(strings: Strings, offsets: Offsets, s: string, off: nat) {
    s in strings && IndexOf(strings, s).value in offsets && OffsetOf(strings, offsets, s) == off
  }

  ghost predicate GroupNamed(strings: Strings, offsets: Offsets, keys: seq<nat>, shndx: nat, off: nat) {
    && FIRST_SECTION <= shndx < FIRST_SECTION + |keys|
    && keys[shndx - FIRST_SECTION] < |strings|
    && Named(strings, offsets, ".rela" + strings[keys[shndx - FIRST_SECTION]], off)
  }

  ghost predicate GroupExact(cls: Class, entries: seq<Entry>, shndx: nat, g: RelocGroup) {
    && g.relocs == EntriesFor(entries, shndx)
    && g.header == CreateSection(cls, Rela, |g.relocs| * cls.RelaSize(), g.header.name).(
         link := SYMTAB_LINK, info := shndx)
  }

  ghost predicate GroupsNamed(strings: Strings, offsets: Offsets, keys: seq<nat>, groups: Groups) {
    && |groups.keys| == |groups.values|
    && (forall i :: 0 <= i < |groups.keys| ==>
          GroupNamed(strings, offsets, keys, groups.keys[i], groups.values[i].header.name))
  }

  ghost predicate GroupsExact(cls: Class, groups: Groups, entries: seq<Entry>) {
    && groups.Valid()
    && groups.keys == Dedup(Patched(entries))
    && (forall i :: 0 <= i < |groups.keys| ==> GroupExact(cls, entries, groups.keys[i], groups.values[i]))
  }

  /** The history of a build: the artifact name and everything added. */
  datatype History = History(
    name: string,
    defs: seq<Definition>,
    specs: seq<NamedSymbol>,
    entries: seq<Entry>,
    extended: bool)

  ghost predicate SpecialInv(strings: Strings, offsets: Offsets, special: seq<Symbol>, name: string) {
    && |special| == 2
    && special[0] == NullSymbol
    && special[1] == CreateSymbol(FromFile, special[1].name, 0, 0, 0)
    && Named(strings, offsets, name, special[1].name)
  }

  ghost predicate Core(e: State, h: History) {
    && StringsInv(e.strings, e.offsets, e.sizeofStrtab, h.name)
    && SectionsInv(e.cls, e.strings, e.offsets, e.sections, e.code, e.sizeofBits, h.defs)
    && SymbolsInv(e.strings, e.offsets, e.symbols, h.specs)
    && GroupsExact(e.cls, e.relocations, h.entries)
    && GroupsNamed(e.strings, e.offsets, e.sections.keys, e.relocations)
    && SpecialInv(e.strings, e.offsets, e.special, h.name)
    && e.nsections == 4 + |h.defs| + |e.relocations.keys| + (if h.extended then 1 else 0)
  }

  /** The names that `write` adds last. */
  ghost predicate LateNames(strings: Strings, extended: bool) {
    ".note.GNU-stack" in strings && (extended ==> ".symtab_shndx" in strings)
  }

  ghost predicate Inv(e: State, h: History) {
    Core(e, h) && e.nlocals == LocalCount(h.defs)
  }

  lemma CoreShapes(e: State, h: History)
    requires Core(e, h)
    ensures e.sections.Valid() && e.code.Valid() && e.symbols.Valid() && e.relocations.Valid()
    ensures Distinct(e.strings)
  {
  }

  lemma InvCore(e: State, h: History)
    requires Inv(e, h)
    ensures Core(e, h) && e.nlocals == LocalCount(h.defs)
  {
  }

  lemma CoreInv(e: State, h: History)
    requires Core(e, h) && e.nlocals == LocalCount(h.defs)
    ensures Inv(e, h)
  {
  }

  lemma InvSpecial(e: State, h: History)
    requires Inv(e, h)
    ensures e.special != [] && 0 in e.offsets && 1 in e.offsets
    ensures e.nsections >= 4 + (if h.extended then 1 else 0)
  {
  }

  lemma CoreKeys(e: State, h: History)
    requires Core(e, h)
    ensures KeysIn(e.strings, e.sections.keys) && KeysIn(e.strings, e.symbols.keys)
  {
  }

  // ----- strings -----

  /** Later strings neither move nor rename earlier ones. */
  ghost predicate Grown(strings: Strings, offsets: Offsets, strings': Strings, offsets': Offsets) {
    && strings <= strings'
    && (forall i :: i in offsets ==> i in offsets' && offsets'[i] == offsets[i])
  }

  lemma StringFound(e: State, name: string, s: string)
    requires StringsInv(e.strings, e.offsets, e.sizeofStrtab, name)
    ensures var (f, idx, off) := WithString(e, s);
            && Grown(e.strings, e.offsets, f.strings, f.offsets)
            && f == e.(strings := f.strings, offsets := f.offsets, sizeofStrtab := f.sizeofStrtab)
            && idx < |f.strings| && f.strings[idx] == s && idx in f.offsets && f.offsets[idx] == off
            && Named(f.strings, f.offsets, s, off)
  {
    var (f, idx, off) := WithString(e, s);
    IndexOfDistinct(f.strings, idx);
  }

  lemma TableGrows(strings: Strings, s: string)
    ensures |Strtab(strings + [s])| == |Strtab(strings)| + |s| + 1
    ensures forall i :: 0 <= i <= |strings| ==> (strings + [s])[..i] == strings[..i]
  {
  }

  lemma StringAdded(e: State, name: string, s: string)
    requires StringsInv(e.strings, e.offsets, e.sizeofStrtab, name)
    ensures var f := WithString(e, s).0;
            StringsInv(f.strings, f.offsets, f.sizeofStrtab, name)
  {
    TableGrows(e.strings, s);
    var f := WithString(e, s).0;
    if s !in e.strings && !Reserved(name) {
      forall i | 0 <= i < |f.strings|
        ensures f.offsets[i] == |Strtab(f.strings[..i])|
      {
        assert f.strings[..i] == e.strings[..i];
      }
    }
  }

  lemma NamedGrown(strings: Strings, offsets: Offsets, strings': Strings, offsets': Offsets, s: string, off: nat)
    requires Grown(strings, offsets, strings', offsets') && Named(strings, offsets, s, off)
    ensures Named(strings', offsets', s, off)
  {
  }

  lemma CodeGrown(strings: Strings, strings': Strings, code: Code, defs: seq<Definition>)
    requires CodeInv(strings, code, defs) && strings <= strings'
    ensures CodeInv(strings', code, defs)
  {
    hide LastBlob, Lost, Blobs, Flatten, Distinct;
    assert KeyNames(strings', code.keys) == KeyNames(strings, code.keys);
  }

  lemma SectionsGrown(cls: Class, strings: Strings, offsets: Offsets, strings': Strings, offsets': Offsets,
                      sections: Sections, code: Code, bits: nat, defs: seq<Definition>)
    requires SectionsInv(cls, strings, offsets, sections, code, bits, defs)
    requires Grown(strings, offsets, strings', offsets')
    ensures SectionsInv(cls, strings', offsets', sections, code, bits, defs)
  {
    hide CodeInv, Bits, Blobs, Distinct, Dedup;
    CodeGrown(strings, strings', code, defs);
    assert KeyNames(strings', sections.keys) == KeyNames(strings, sections.keys);
  }

  lemma SymbolsGrown(strings: Strings, offsets: Offsets, strings': Strings, offsets': Offsets, symbols: Symbols,
                     specs: seq<NamedSymbol>)
    requires SymbolsInv(strings, offsets, symbols, specs)
    requires Grown(strings, offsets, strings', offsets')
    ensures SymbolsInv(strings', offsets', symbols, specs)
  {
    hide Survivors, SymbolUnder, Distinct, Dedup;
    assert KeyNames(strings', symbols.keys) == KeyNames(strings, symbols.keys);
  }

  lemma GroupsGrown(strings: Strings, offsets: Offsets, strings': Strings, offsets': Offsets, keys: seq<nat>,
                    keys': seq<nat>, groups: Groups)
    requires GroupsNamed(strings, offsets, keys, groups)
    requires Grown(strings, offsets, strings', offsets') && keys <= keys'
    ensures GroupsNamed(strings', offsets', keys', groups)
  {
  }

  lemma StringKeeps(e: State, h: History, s: string)
    requires Core(e, h)
    ensures Core(WithString(e, s).0, h)
  {
    hide StringsInv, SectionsInv, SymbolsInv, GroupsExact, GroupsNamed, Named, Grown;
    var f := WithString(e, s).0;
    StringAdded(e, h.name, s);
    StringFound(e, h.name, s);
    SectionsGrown(e.cls, e.strings, e.offsets, f.strings, f.offsets, e.sections, e.code, e.sizeofBits, h.defs);
    SymbolsGrown(e.strings, e.offsets, f.strings, f.offsets, e.symbols, h.specs);
    GroupsGrown(e.strings, e.offsets, f.strings, f.offsets, e.sections.keys, e.sections.keys, e.relocations);
    NamedGrown(e.strings, e.offsets, f.strings, f.offsets, h.name, e.special[1].name);
  }

  // ----- sections and symbols -----

  lemma KeyNamed(strings: Strings, keys: seq<nat>, idx: nat)
    requires Distinct(strings) && KeysIn(strings, keys) && idx < |strings|
    ensures idx in keys <==> strings[idx] in KeyNames(strings, keys)
  {
  }

  /** Inserting under a name's id appends the name unless it was there already. */
  lemma NamesInserted<V>(strings: Strings, m: IndexMap<nat, V>, names: seq<string>, idx: nat, v: V)
    requires Distinct(strings) && m.Valid() && KeysIn(strings, m.keys) && idx < |strings|
    requires KeyNames(strings, m.keys) == Dedup(names)
    ensures KeysIn(strings, m.Insert(idx, v).keys)
    ensures KeyNames(strings, m.Insert(idx, v).keys) == Dedup(names + [strings[idx]])
    ensures Distinct(names + [strings[idx]]) ==> idx !in m.keys && Distinct(names)
  {
    hide Dedup, Distinct;
    KeyNamed(strings, m.keys, idx);
    DedupSnoc(names, strings[idx]);
    if idx !in m.keys {
      assert KeyNames(strings, m.keys + [idx]) == KeyNames(strings, m.keys) + [strings[idx]];
    }
    if Distinct(names + [strings[idx]]) {
      DistinctPrefix(names, [strings[idx]]);
    }
  }

  lemma DefinitionSnoc(defs: seq<Definition>, d: Definition)
    ensures Blobs(defs + [d]) == if d.data.Blob? then Blobs(defs) + [d.data.bytes] else Blobs(defs)
    ensures |Flatten(Blobs(defs + [d]))| == |Flatten(Blobs(defs))| + d.data.FileSize()
    ensures LocalCount(defs + [d]) == LocalCount(defs) + if !d.decl.SectionDecl? && !d.decl.IsGlobal() then 1 else 0
    ensures SectionNames(defs + [d]) == SectionNames(defs) + [SectionNameFor(d)]
  {
  }

  function InfoFor(cls: Class, d: Definition, bits: nat, off: nat, shndx: nat, idx: nat): SectionInfo {
    SectionInfo(CreateSection(cls, SectionTypeFor(d), d.data.FileSize(), off).(offset := bits), SectionSymbol(shndx),
                idx)
  }

  lemma TypeIsPlain(d: Definition)
    ensures SectionTypeFor(d) in {ProgBits, NoBits}
  {
  }

  lemma ExactLength(cls: Class, offsets: Offsets, sections: Sections, code: Code, defs: seq<Definition>)
    requires SectionsExact(cls, offsets, sections, code, defs)
    ensures |sections.keys| == |defs|
  {
  }

  lemma ShapesInserted(strings: Strings, sections: Sections, idx: nat, info: SectionInfo)
    requires SectionShapes(strings, sections)
    requires idx < |strings| && info.name == idx && info.header.typ in {ProgBits, NoBits}
    ensures SectionShapes(strings, sections.Insert(idx, info))
  {
  }

  lemma ExactInserted(cls: Class, offsets: Offsets, sections: Sections, code: Code, defs: seq<Definition>,
                      d: Definition, idx: nat)
    requires sections.Valid() && code.Valid() && SectionsExact(cls, offsets, sections, code, defs)
    requires idx !in sections.keys && idx !in code.keys && idx in offsets
    ensures var info := SectionFor(cls, defs + [d], |defs|, idx, offsets[idx]);
            SectionsExact(cls, offsets, sections.Insert(idx, info),
                          if d.data.Blob? then code.Insert(idx, d.data.bytes) else code, defs + [d])
  {
    DefinitionSnoc(defs, d);
    forall k | 0 <= k < |defs|
      ensures SectionFor(cls, defs + [d], k, sections.keys[k], offsets[sections.keys[k]])
              == SectionFor(cls, defs, k, sections.keys[k], offsets[sections.keys[k]])
    {
      assert (defs + [d])[..k] == defs[..k];
    }
  }

  lemma CodeShapes(strings: Strings, code: Code, defs: seq<Definition>)
    requires CodeInv(strings, code, defs)
    ensures code.Valid()
  {
  }

  lemma ShapesKeys(strings: Strings, sections: Sections)
    requires SectionShapes(strings, sections)
    ensures sections.Valid() && KeysIn(strings, sections.keys)
  {
  }

  lemma {:induction false} FlattenUpdate<T>(pieces: seq<seq<T>>, i: nat, piece: seq<T>)
    requires i < |pieces|
    ensures |Flatten(pieces[i := piece])| == |Flatten(pieces)| - |pieces[i]| + |piece|
  {
    var n := |pieces| - 1;
    if i < n {
      FlattenUpdate(pieces[..n], i, piece);
      assert pieces[i := piece][..n] == pieces[..n][i := piece];
    } else {
      assert pieces[i := piece][..n] == pieces[..n];
    }
  }

  lemma LatestSnoc(defs: seq<Definition>, d: Definition)
    ensures forall name :: LastBlob(defs + [d], name)
                           == if d.data.Blob? && SectionNameFor(d) == name then Some(d.data.bytes)
                              else LastBlob(defs, name)
    ensures Lost(defs + [d]) == Lost(defs) + if d.data.Blob? then LengthOf(LastBlob(defs, SectionNameFor(d))) else 0
  {
    hide SectionNameFor;
    assert (defs + [d])[..|defs|] == defs;
  }

  /** New contents replace the old ones of the same section, which are lost. */
  lemma CodeInserted(strings: Strings, code: Code, defs: seq<Definition>, d: Definition, idx: nat)
    requires Distinct(strings) && CodeInv(strings, code, defs)
    requires idx < |strings| && strings[idx] == SectionNameFor(d)
    ensures CodeInv(strings, if d.data.Blob? then code.Insert(idx, d.data.bytes) else code, defs + [d])
  {
    hide LastBlob, Lost, Blobs, Flatten, SectionNameFor, LocalCount, IndexOf, SectionNames, IndexMap.Insert, KeyNames,
      Distinct;
    DefinitionSnoc(defs, d);
    LatestSnoc(defs, d);
    KeyNamed(strings, code.keys, idx);
    if d.data.Blob? {
      if idx in code.keys {
        var i :| 0 <= i < |code.keys| && code.keys[i] == idx;
        InsertAt(code, i, d.data.bytes);
        FlattenUpdate(code.values, i, d.data.bytes);
        OthersDiffer(strings, code.keys, i);
      } else {
        FlattenLast(code.values, d.data.bytes);
        AbsentDiffers(strings, code.keys, idx);
        assert KeyNames(strings, code.keys + [idx]) == KeyNames(strings, code.keys) + [strings[idx]];
      }
    }
  }

  lemma OthersDiffer(strings: Strings, keys: seq<nat>, i: nat)
    requires Distinct(strings) && Distinct(keys) && KeysIn(strings, keys) && i < |keys|
    ensures forall j :: 0 <= j < |keys| && j != i ==> strings[keys[j]] != strings[keys[i]]
  {
  }

  lemma AbsentDiffers(strings: Strings, keys: seq<nat>, idx: nat)
    requires Distinct(strings) && KeysIn(strings, keys) && idx < |strings| && idx !in keys
    ensures forall j :: 0 <= j < |keys| ==> strings[keys[j]] != strings[idx]
  {
  }

  /** A new section keeps the bookkeeping, and keeps it exact while names differ. */
  lemma SectionInserted(cls: Class, strings: Strings, offsets: Offsets, sections: Sections, code: Code, bits: nat,
                        defs: seq<Definition>, d: Definition, idx: nat)
    requires Distinct(strings) && SectionsInv(cls, strings, offsets, sections, code, bits, defs)
    requires idx < |strings| && strings[idx] == SectionNameFor(d) && idx in offsets
    ensures var info := InfoFor(cls, d, bits, offsets[idx], |sections.keys| + FIRST_SECTION, idx);
            SectionsInv(cls, strings, offsets, sections.Insert(idx, info),
                        if d.data.Blob? then code.Insert(idx, d.data.bytes) else code,
                        bits + d.data.FileSize(), defs + [d])
  {
    hide Distinct, Dedup, KeyNames, SectionsExact, SectionTypeFor, SectionNameFor, Blobs, Flatten, LocalCount, IndexOf,
      SectionNames, IndexMap.Insert, SectionShapes, KeysIn, CodeInv;
    CodeInserted(strings, code, defs, d, idx);
    CodeShapes(strings, code, defs);
    var info := InfoFor(cls, d, bits, offsets[idx], |sections.keys| + FIRST_SECTION, idx);
    TypeIsPlain(d);
    ShapesKeys(strings, sections);
    ShapesInserted(strings, sections, idx, info);
    NamesInserted(strings, sections, SectionNames(defs), idx, info);
    DefinitionSnoc(defs, d);
    if Distinct(SectionNames(defs + [d])) {
      assert (defs + [d])[..|defs|] == defs;
      ExactLength(cls, offsets, sections, code, defs);
      ExactInserted(cls, offsets, sections, code, defs, d, idx);
    }
  }

  lemma ContentsKeep(e: State, h: History, d: Definition)
    requires Core(e, h)
    ensures Core(WithContents(e, d).0, h.(defs := h.defs + [d]))
    ensures WithContents(e, d).1 == FIRST_SECTION + |e.sections.keys|
    ensures WithContents(e, d).0.nlocals == e.nlocals
  {
    hide SymbolsInv, GroupsExact, GroupsNamed, Named, SectionTypeFor, SectionNameFor, SectionsInv, StringsInv,
      SpecialInv, Intern, Distinct, IndexOf;
    var name := SectionNameFor(d);
    CoreShapes(e, h);
    var (g, idx, off) := WithString(e, name);
    StringFound(e, h.name, name);
    StringKeeps(e, h, name);
    CoreShapes(g, h);
    var f := WithContents(e, d).0;
    SectionInserted(g.cls, g.strings, g.offsets, g.sections, g.code, g.sizeofBits, h.defs, d, idx);
    GroupsGrown(g.strings, g.offsets, f.strings, f.offsets, g.sections.keys, f.sections.keys, g.relocations);
  }

  lemma SymbolSnoc(specs: seq<NamedSymbol>, s: NamedSymbol)
    ensures forall name :: SymbolUnder(specs + [s], name)
                           == if s.name == name then s.symbol else SymbolUnder(specs, name)
    ensures SymbolNames(specs + [s]) == SymbolNames(specs) + [s.name]
  {
    assert (specs + [s])[..|specs|] == specs;
  }

  /** A symbol under a known name replaces the earlier one in its place. */
  lemma SurvivorsInserted(strings: Strings, offsets: Offsets, symbols: Symbols, specs: seq<NamedSymbol>, s: NamedSymbol,
                          idx: nat)
    requires Distinct(strings) && SymbolsInv(strings, offsets, symbols, specs)
    requires idx < |strings| && strings[idx] == s.name && idx in offsets
    ensures SymbolsExact(offsets, symbols.Insert(idx, s.symbol.(name := offsets[idx])), Survivors(specs + [s]))
  {
    hide SymbolUnder, IndexOf, IndexMap.Insert, Distinct, Dedup, SymbolNames, Survivors;
    var names, v := Dedup(SymbolNames(specs)), s.symbol.(name := offsets[idx]);
    SymbolSnoc(specs, s);
    DedupSnoc(SymbolNames(specs), s.name);
    KeyNamed(strings, symbols.keys, idx);
    if idx in symbols.keys {
      var i :| 0 <= i < |symbols.keys| && symbols.keys[i] == idx;
      InsertAt(symbols, i, v);
      OthersDiffer(strings, symbols.keys, i);
      assert forall j :: 0 <= j < |names| ==> names[j] == strings[symbols.keys[j]];
    } else {
      AbsentDiffers(strings, symbols.keys, idx);
      assert forall j :: 0 <= j < |names| ==> names[j] == strings[symbols.keys[j]];
    }
  }

  lemma SymbolInserted(strings: Strings, offsets: Offsets, symbols: Symbols, specs: seq<NamedSymbol>, s: NamedSymbol,
                       idx: nat)
    requires Distinct(strings) && SymbolsInv(strings, offsets, symbols, specs)
    requires idx < |strings| && strings[idx] == s.name && idx in offsets
    ensures SymbolsInv(strings, offsets, symbols.Insert(idx, s.symbol.(name := offsets[idx])), specs + [s])
  {
    hide Distinct, Dedup, KeyNames, KeysIn, SymbolsExact, SymbolUnder, Survivors, IndexMap.Insert, IndexOf, SymbolNames;
    NamesInserted(strings, symbols, SymbolNames(specs), idx, s.symbol.(name := offsets[idx]));
    SurvivorsInserted(strings, offsets, symbols, specs, s, idx);
    SymbolSnoc(specs, s);
  }

  lemma SymbolKeeps(e: State, h: History, s: NamedSymbol)
    requires Core(e, h)
    ensures Core(WithSymbol(e, s), h.(specs := h.specs + [s]))
    ensures WithSymbol(e, s).nlocals == e.nlocals && WithSymbol(e, s).sections == e.sections
  {
    hide SectionsInv, GroupsExact, GroupsNamed, Named;
    var (g, idx, off) := WithString(e, s.name);
    StringFound(e, h.name, s.name);
    StringKeeps(e, h, s.name);
    SymbolInserted(g.strings, g.offsets, g.symbols, h.specs, s, idx);
  }

  function WithSymbols(e: State, specs: seq<NamedSymbol>): (f: State)
    requires e.symbols.Valid()
    ensures f.symbols.Valid()
  {
    if specs == [] then e
    else WithSymbol(WithSymbols(e, specs[..|specs| - 1]), specs[|specs| - 1])
  }

  lemma {:induction false} SymbolsKeep(e: State, h: History, specs: seq<NamedSymbol>)
    requires Core(e, h)
    ensures Core(WithSymbols(e, specs), h.(specs := h.specs + specs))
    ensures WithSymbols(e, specs).nlocals == e.nlocals
  {
    hide Core, WithSymbol;
    CoreShapes(e, h);
    if specs == [] {
      assert h.specs + specs == h.specs;
    } else {
      var front, last := specs[..|specs| - 1], specs[|specs| - 1];
      SymbolsKeep(e, h, front);
      SymbolKeeps(WithSymbols(e, front), h.(specs := h.specs + front), last);
      assert h.specs + front + [last] == h.specs + specs;
    }
  }

  /** The symbol half of `add_definition`. */
  function WithSymbolsAndCount(e: State, d: Definition, shndx: nat): State
    requires e.symbols.Valid()
  {
    var f := WithSymbols(e, SymbolsFor(d, shndx));
    if !d.decl.SectionDecl? && !d.decl.IsGlobal() then f.(nlocals := f.nlocals + 1) else f
  }

  /** All of `add_definition`. */
  function WithDefinition(e: State, d: Definition): State
    requires e.sections.Valid() && e.code.Valid() && e.symbols.Valid()
  {
    var (e1, shndx) := WithContents(e, d);
    WithSymbolsAndCount(e1, d, shndx)
  }

  function HistoryWith(e: State, h: History, d: Definition): History {
    h.(defs := h.defs + [d], specs := h.specs + SymbolsFor(d, FIRST_SECTION + |e.sections.keys|))
  }

  lemma NlocalsFree(e: State, h: History)
    requires Core(e, h)
    ensures forall n: nat :: Core(e.(nlocals := n), h)
  {
  }

  lemma DefinitionKeeps(e: State, h: History, d: Definition)
    requires Inv(e, h)
    ensures Inv(WithDefinition(e, d), HistoryWith(e, h, d))
  {
    hide Core, WithContents, WithSymbols, WithSymbol, SymbolsFor;
    CoreShapes(e, h);
    var (e1, shndx) := WithContents(e, d);
    ContentsKeep(e, h, d);
    CoreShapes(e1, h.(defs := h.defs + [d]));
    SymbolsKeep(e1, h.(defs := h.defs + [d]), SymbolsFor(d, shndx));
    NlocalsFree(WithSymbols(e1, SymbolsFor(d, shndx)), HistoryWith(e, h, d));
    DefinitionSnoc(h.defs, d);
  }

  // ----- relocations -----

  lemma EntriesSnoc(entries: seq<Entry>, x: Entry, shndx: nat)
    ensures EntriesFor(entries + [x], shndx)
            == if x.shndx == shndx then EntriesFor(entries, shndx) + [x.reloc] else EntriesFor(entries, shndx)
    ensures Patched(entries + [x]) == Patched(entries) + [x.shndx]
  {
  }

  lemma {:induction false} NoEntries(entries: seq<Entry>, shndx: nat)
    requires shndx !in Patched(entries)
    ensures EntriesFor(entries, shndx) == []
  {
    if entries != [] {
      var front := entries[..|entries| - 1];
      assert Patched(entries) == Patched(front) + [entries[|entries| - 1].shndx];
      NoEntries(front, shndx);
    }
  }

  lemma GroupOther(cls: Class, entries: seq<Entry>, x: Entry, shndx: nat, g: RelocGroup)
    requires GroupExact(cls, entries, shndx, g) && shndx != x.shndx
    ensures GroupExact(cls, entries + [x], shndx, g)
  {
  }

  lemma GroupSame(cls: Class, entries: seq<Entry>, x: Entry, g: RelocGroup)
    requires GroupExact(cls, entries, x.shndx, g)
    ensures GroupExact(cls, entries + [x], x.shndx,
                       RelocGroup(g.header.(size := g.header.size + g.header.entsize), g.relocs + [x.reloc]))
  {
  }

  lemma GroupExtended(cls: Class, groups: Groups, entries: seq<Entry>, x: Entry, i: nat)
    requires GroupsExact(cls, groups, entries) && i < |groups.keys| && groups.keys[i] == x.shndx
    ensures var g := groups.values[i];
            GroupsExact(cls, groups.Insert(x.shndx,
              RelocGroup(g.header.(size := g.header.size + g.header.entsize), g.relocs + [x.reloc])), entries + [x])
  {
    hide GroupExact, Dedup, EntriesFor;
    var g := groups.values[i];
    var grown := RelocGroup(g.header.(size := g.header.size + g.header.entsize), g.relocs + [x.reloc]);
    EntriesSnoc(entries, x, x.shndx);
    DedupSnoc(Patched(entries), x.shndx);
    InsertAt(groups, i, grown);
    GroupSame(cls, entries, x, g);
    forall j | 0 <= j < |groups.keys|
      ensures GroupExact(cls, entries + [x], groups.keys[j], groups.values[i := grown][j])
    {
      if j != i {
        GroupOther(cls, entries, x, groups.keys[j], groups.values[j]);
      }
    }
  }

  lemma InsertAt<V>(m: IndexMap<nat, V>, i: nat, v: V)
    requires m.Valid() && i < |m.keys|
    ensures m.Insert(m.keys[i], v) == IndexMap(m.keys, m.values[i := v])
  {
  }

  lemma FirstOfGroup(cls: Class, entries: seq<Entry>, x: Entry, off: nat)
    requires x.shndx !in Patched(entries)
    ensures var header := CreateSection(cls, Rela, cls.RelaSize(), off).(link := SYMTAB_LINK, info := x.shndx);
            GroupExact(cls, entries + [x], x.shndx, RelocGroup(header, [x.reloc]))
  {
    NoEntries(entries, x.shndx);
    EntriesSnoc(entries, x, x.shndx);
  }

  lemma GroupStarted(cls: Class, groups: Groups, entries: seq<Entry>, x: Entry, off: nat)
    requires GroupsExact(cls, groups, entries) && x.shndx !in groups.keys
    ensures var header := CreateSection(cls, Rela, cls.RelaSize(), off).(link := SYMTAB_LINK, info := x.shndx);
            GroupsExact(cls, groups.Insert(x.shndx, RelocGroup(header, [x.reloc])), entries + [x])
  {
    hide GroupExact, Dedup, EntriesFor, Distinct;
    EntriesSnoc(entries, x, x.shndx);
    DedupSnoc(Patched(entries), x.shndx);
    FirstOfGroup(cls, entries, x, off);
    forall j | 0 <= j < |groups.keys|
      ensures GroupExact(cls, entries + [x], groups.keys[j], groups.values[j])
    {
      GroupOther(cls, entries, x, groups.keys[j], groups.values[j]);
    }
  }

  lemma GroupsNamedExtended(strings: Strings, offsets: Offsets, keys: seq<nat>, groups: Groups, i: nat, g: RelocGroup)
    requires GroupsNamed(strings, offsets, keys, groups) && groups.Valid()
    requires i < |groups.keys| && g.header.name == groups.values[i].header.name
    ensures GroupsNamed(strings, offsets, keys, groups.Insert(groups.keys[i], g))
  {
  }

  lemma GroupsNamedStarted(strings: Strings, offsets: Offsets, keys: seq<nat>, groups: Groups, shndx: nat,
                           g: RelocGroup)
    requires GroupsNamed(strings, offsets, keys, groups) && groups.Valid() && shndx !in groups.keys
    requires GroupNamed(strings, offsets, keys, shndx, g.header.name)
    ensures GroupsNamed(strings, offsets, keys, groups.Insert(shndx, g))
  {
  }

  /** The groups stay what grouping the added relocations by section gives. */
  lemma RelocKeeps(e: State, h: History, x: Entry)
    requires Core(e, h) && WithReloc(e, x.shndx, x.reloc).Some?
    ensures Core(WithReloc(e, x.shndx, x.reloc).value, h.(entries := h.entries + [x]))
    ensures WithReloc(e, x.shndx, x.reloc).value.nlocals == e.nlocals
  {
    if x.shndx in e.relocations.keys {
      RelocExtends(e, h, x);
    } else {
      RelocStarts(e, h, x);
    }
  }

  lemma RelocExtends(e: State, h: History, x: Entry)
    requires Core(e, h) && x.shndx in e.relocations.keys
    ensures WithReloc(e, x.shndx, x.reloc).Some?
    ensures Core(WithReloc(e, x.shndx, x.reloc).value, h.(entries := h.entries + [x]))
    ensures WithReloc(e, x.shndx, x.reloc).value.nlocals == e.nlocals
  {
    hide StringsInv, SectionsInv, SymbolsInv, GroupsExact, GroupsNamed, SpecialInv;
    CoreShapes(e, h);
    var i := IndexOf(e.relocations.keys, x.shndx).value;
    var g := e.relocations.values[i];
    var grown := RelocGroup(g.header.(size := g.header.size + g.header.entsize), g.relocs + [x.reloc]);
    GroupExtended(e.cls, e.relocations, h.entries, x, i);
    GroupsNamedExtended(e.strings, e.offsets, e.sections.keys, e.relocations, i, grown);
  }

  lemma SectionIds(e: State, h: History, shndx: nat)
    requires Core(e, h) && FIRST_SECTION <= shndx < FIRST_SECTION + |e.sections.values|
    ensures |e.sections.keys| == |e.sections.values|
    ensures e.sections.values[shndx - FIRST_SECTION].name == e.sections.keys[shndx - FIRST_SECTION] < |e.strings|
  {
  }

  lemma RelocStarts(e: State, h: History, x: Entry)
    requires Core(e, h) && x.shndx !in e.relocations.keys && WithReloc(e, x.shndx, x.reloc).Some?
    ensures Core(WithReloc(e, x.shndx, x.reloc).value, h.(entries := h.entries + [x]))
    ensures WithReloc(e, x.shndx, x.reloc).value.nlocals == e.nlocals
  {
    hide StringsInv, SectionsInv, SymbolsInv, GroupsExact, GroupsNamed, SpecialInv, Named, Intern, WithString, Distinct,
      IndexMap.Insert, IndexOf;
    CoreShapes(e, h);
    SectionIds(e, h, x.shndx);
    var id := e.sections.values[x.shndx - FIRST_SECTION].name;
    var s := ".rela" + e.strings[id];
    var (f, _, off) := WithString(e, s);
    var header := CreateSection(f.cls, Rela, f.cls.RelaSize(), off).(link := SYMTAB_LINK, info := x.shndx);
    StringKeeps(e, h, s);
    CoreShapes(f, h);
    StringFound(e, h.name, s);
    assert f.strings[id] == e.strings[id];
    assert GroupNamed(f.strings, f.offsets, f.sections.keys, x.shndx, off);
    GroupStarted(f.cls, f.relocations, h.entries, x, off);
    GroupsNamedStarted(f.strings, f.offsets, f.sections.keys, f.relocations, x.shndx, RelocGroup(header, [x.reloc]));
  }

  lemma ContentsAre(e: State, d: Definition)
    requires e.sections.Valid() && e.code.Valid()
    ensures d.data.Blob? ==>
              WithContents(e, d) ==
                WithProgbits(e, SectionNameFor(d), SectionTypeFor(d), d.data.FileSize(), d.data.bytes)
    ensures d.data.ZeroInit? ==>
              var (f, _, shndx) := WithSection(e, SectionNameFor(d), SectionTypeFor(d), d.data.FileSize());
              WithContents(e, d) == (f, shndx)
  {
  }

  // ----- links -----

  /** Symbol-table index and section index of a link endpoint; `None` is a failed
      `expect` (a name interned only now is in neither map). */
  function Locate(e: State, b: Binding): Option<(nat, nat)>
    requires e.symbols.Valid()
  {
    match IndexOf(e.strings, b.name)
    case None => None
    case Some(id) =>
      if b.decl.IsSection() then
        match IndexOf(e.sections.keys, id)
        case None => None
        case Some(i) => Some((i + |e.special|, i + FIRST_SECTION))
      else
        match IndexOf(e.symbols.keys, id)
        case None => None
        case Some(i) => Some((i + |e.special| + |e.sections.keys|, e.symbols.values[i].shndx))
  }

  const R_X86_64_64: nat := 1
  const R_X86_64_PC32: nat := 2
  const R_X86_64_PLT32: nat := 4
  const R_X86_64_GOTPCREL: nat := 9
  const R_X86_64_32: nat := 10

  /** Relocation type and addend; `None` is the unsupported-relocation panic. */
  function RelocKind(cls: Class, l: LinkAndDecl): Option<(nat, int)> {
    match l.reloc
    case Auto =>
      (match l.from.decl
       case Defined(FunctionDecl(_, _, _)) =>
         (match l.to.decl
          case Defined(FunctionDecl(_, _, _)) => Some((R_X86_64_PLT32, -4))
          case Import(FunctionImport) => Some((R_X86_64_PLT32, -4))
          case Defined(DataDecl(_, _, _, _, _)) => Some((R_X86_64_PC32, -4))
          case Import(DataImport) => Some((R_X86_64_GOTPCREL, -4))
          case _ => None)
       case Defined(DataDecl(_, _, _, _, _)) => if cls.Elf64? then Some((R_X86_64_64, 0)) else Some((R_X86_64_32, 0))
       case _ => None)
    case Raw(reloc, addend) => Some((reloc, addend))
    case Debug(size, addend) =>
      if size == 4 then Some((R_X86_64_32, addend))
      else if size == 8 then Some((R_X86_64_64, addend))
      else None
  }

  function EntryFor(e: State, l: LinkAndDecl): Option<Entry>
    requires e.symbols.Valid()
  {
    match Locate(e, l.to)
    case None => None
    case Some((toIdx, toShndx)) =>
      match Locate(e, l.from)
      case None => None
      case Some((_, fromShndx)) =>
        match RelocKind(e.cls, l)
        case None => None
        case Some((typ, addend)) =>
          if l.to.decl.Import? then Some(Entry(fromShndx, Relocation(l.at, toIdx, typ, addend)))
          else if toShndx < FIRST_SECTION then None
          else Some(Entry(fromShndx, Relocation(l.at, toShndx - FIRST_SECTION + |e.special|, typ, addend)))
  }

  function WithLink(e: State, l: LinkAndDecl): Option<State>
    requires e.symbols.Valid() && e.relocations.Valid()
  {
    match EntryFor(e, l)
    case None => None
    case Some(x) => WithReloc(e, x.shndx, x.reloc)
  }

  /** The strings `write` still adds, and the header it may still count. */
  lemma WriteKeeps(e: State, h: History)
    requires Inv(e, h) && !h.extended
    ensures var extended := e.nsections >= SHN_LORESERVE;
            var f := if extended then WithString(e.(nsections := e.nsections + 1), ".symtab_shndx").0 else e;
            var g := WithString(f, ".note.GNU-stack").0;
            && Inv(g, h.(extended := extended))
            && (extended ==> Named(g.strings, g.offsets, ".symtab_shndx",
                                   WithString(e.(nsections := e.nsections + 1), ".symtab_shndx").2))
            && Named(g.strings, g.offsets, ".note.GNU-stack", WithString(f, ".note.GNU-stack").2)
  {
    hide StringsInv, SectionsInv, SymbolsInv, GroupsExact, GroupsNamed, SpecialInv, Intern, Named, Grown;
    var extended := e.nsections >= SHN_LORESERVE;
    var h' := h.(extended := extended);
    var e' := if extended then e.(nsections := e.nsections + 1) else e;
    assert Core(e', h');
    var f := if extended then WithString(e', ".symtab_shndx").0 else e;
    var g := WithString(f, ".note.GNU-stack").0;
    if extended {
      StringKeeps(e', h', ".symtab_shndx");
      StringFound(e', h.name, ".symtab_shndx");
    }
    StringKeeps(f, h', ".note.GNU-stack");
    StringFound(f, h.name, ".note.GNU-stack");
    if extended {
      NamedGrown(f.strings, f.offsets, g.strings, g.offsets, ".symtab_shndx", WithString(e', ".symtab_shndx").2);
    }
  }

  // ----- a new builder -----

  /** `push_strtab`: append to the table's size without looking for the name. */
  function PushString(strings: Strings, offsets: Offsets, size: nat, s: string): (Strings, Offsets, nat) {
    var (strings', idx) := Intern(strings, s);
    (strings', offsets[idx := size], size + |s| + 1)
  }

  function FirstStrings(): (Strings, Offsets, nat) {
    var (s1, o1, n1) := PushString([], map[], 1, ".strtab");
    PushString(s1, o1, n1, ".symtab")
  }

  lemma PushNew(strings: Strings, offsets: Offsets, size: nat, s: string)
    requires s !in strings
    ensures PushString(strings, offsets, size, s) == (strings + [s], offsets[|strings| := size], size + |s| + 1)
  {
  }

  lemma FirstStringsAre()
    ensures FirstStrings() == ([".strtab", ".symtab"], map[0 := 1, 1 := 9], 17)
  {
    hide Intern, PushString, IndexOf;
    assert ".strtab"[2] != ".symtab"[2];
    PushNew([], map[], 1, ".strtab");
    PushNew([".strtab"], map[0 := 1], 9, ".symtab");
    assert [] + [".strtab"] == [".strtab"];
    assert [".strtab"] + [".symtab"] == [".strtab", ".symtab"];
    var none: Offsets := map[];
    assert none[0 := 1] == map[0 := 1];
    assert map[0 := 1][1 := 9] == map[0 := 1, 1 := 9];
  }

  function NewState(cls: Class, name: string): State {
    var (s2, o2, n2) := FirstStrings();
    var (s3, o3, n3) := PushString(s2, o2, n2, name);
    State(cls, s3, o3, n3, IndexMap([], []), IndexMap([], []), IndexMap([], []),
          [NullSymbol, CreateSymbol(FromFile, n2, 0, 0, 0)], IndexMap([], []), cls.EhdrSize(), 4, 0)
  }

  lemma Empties(cls: Class)
    ensures Distinct<nat>([])
    ensures Bits(cls, []) == cls.EhdrSize() && LocalCount([]) == 0 && Blobs([]) == []
  {
  }

  lemma NewStateInv(cls: Class, name: string)
    ensures Inv(NewState(cls, name), History(name, [], [], [], false))
  {
    hide StringsInv, FirstStrings, Strtab, PushString, Named, Distinct, IndexOf;
    FirstStringsAre();
    ThirdString(name);
    var e := NewState(cls, name);
    assert SectionNames([]) == [] && SymbolNames([]) == [] && Patched([]) == [];
    assert Dedup(SectionNames([])) == [] && Dedup(SymbolNames([])) == [] && Dedup(Patched([])) == [];
    assert KeyNames(e.strings, []) == [];
    Empties(e.cls);
  }

  /** The artifact name is interned third, or found again and counted twice. */
  lemma ThirdString(name: string)
    ensures var (s, o, n) := PushString([".strtab", ".symtab"], map[0 := 1, 1 := 9], 17, name);
            StringsInv(s, o, n, name) && Named(s, o, name, 17)
  {
    hide FirstStrings, IndexOf, Strtab, Intern;
    var two := [".strtab", ".symtab"];
    var (s, o, n) := PushString(two, map[0 := 1, 1 := 9], 17, name);
    TwoStrings();
    TableGrows(two, name);
    IndexOfDistinct(s, Intern(two, name).1);
    if !Reserved(name) {
      assert s == two + [name];
      forall i | 0 <= i < |s|
        ensures o[i] == |Strtab(s[..i])|
      {
        assert s[..i] == two[..i];
      }
    }
  }

  lemma TwoStrings()
    ensures var two := [".strtab", ".symtab"];
            && Distinct(two)
            && |Strtab(two[..0])| == 1 && |Strtab(two[..1])| == 9 && |Strtab(two[..2])| == |Strtab(two)| == 17
  {
    var two := [".strtab", ".symtab"];
    assert ".strtab"[2] != ".symtab"[2];
    TableGrows([], ".strtab");
    TableGrows([".strtab"], ".symtab");
    assert [] + [".strtab"] == [".strtab"] == two[..1] && [".strtab"] + [".symtab"] == two == two[..2];
    assert two[..0] == [];
  }
}
