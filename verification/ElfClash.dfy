/** What becomes of an artifact whose section or symbol names clash: which bytes are
    lost, where a link lands, and when the two passes of the writer still agree. */
module ElfClash {
  import opened Collections
  import opened ObjectFile
  import opened Decls
  import opened ElfFormat
  import opened ElfImage
  import opened ElfBuild

  // ----- overwritten contents -----

  /** Contents that a later definition puts under the same section name are empty. */
  ghost predicate NothingOverwritten(defs: seq<Definition>) {
    forall j, k :: 0 <= j < k < |defs| ==> !Overwrites(defs[j], defs[k])
  }

  predicate Overwrites(earlier: Definition, later: Definition) {
    && later.data.Blob?
    && SectionNameFor(earlier) == SectionNameFor(later)
    && earlier.data.Blob? && earlier.data.bytes != []
  }

  lemma {:induction false} LatestBlob(defs: seq<Definition>, name: string)
    ensures LastBlob(defs, name).None? ==>
              forall j :: 0 <= j < |defs| && defs[j].data.Blob? ==> SectionNameFor(defs[j]) != name
    ensures LastBlob(defs, name).Some? ==>
              exists j :: 0 <= j < |defs| && IsLatest(defs, j, name) && defs[j].data.bytes == LastBlob(defs, name).value
  {
    hide SectionNameFor;
    if defs != [] {
      var n := |defs| - 1;
      LatestBlob(defs[..n], name);
      if defs[n].data.Blob? && SectionNameFor(defs[n]) == name {
        assert IsLatest(defs, n, name);
      } else if LastBlob(defs[..n], name).Some? {
        var j :| 0 <= j < n && IsLatest(defs[..n], j, name) &&
          defs[..n][j].data.bytes == LastBlob(defs[..n], name).value;
        assert IsLatest(defs, j, name);
      }
    }
  }

  ghost predicate IsLatest(defs: seq<Definition>, j: nat, name: string) {
    && j < |defs| && defs[j].data.Blob? && SectionNameFor(defs[j]) == name
    && forall k :: j < k < |defs| && defs[k].data.Blob? ==> SectionNameFor(defs[k]) != name
  }

  lemma {:induction false} LostIff(defs: seq<Definition>)
    ensures Lost(defs) == 0 <==> NothingOverwritten(defs)
  {
    hide SectionNameFor, LastBlob;
    if defs != [] {
      var n := |defs| - 1;
      LostIff(defs[..n]);
      OverwrittenSnoc(defs[..n], defs[n]);
      assert defs == defs[..n] + [defs[n]];
    }
  }

  lemma OverwrittenSnoc(defs: seq<Definition>, d: Definition)
    ensures NothingOverwritten(defs + [d]) <==>
            NothingOverwritten(defs) && (d.data.Blob? ==> LengthOf(LastBlob(defs, SectionNameFor(d))) == 0)
  {
    hide SectionNameFor, LastBlob;
    var all := defs + [d];
    LatestBlob(defs, SectionNameFor(d));
    assert forall j :: 0 <= j < |defs| ==> all[j] == defs[j];
    if d.data.Blob? && LastBlob(defs, SectionNameFor(d)).Some? {
      var j :| 0 <= j < |defs| && IsLatest(defs, j, SectionNameFor(d)) &&
        defs[j].data.bytes == LastBlob(defs, SectionNameFor(d)).value;
      if NothingOverwritten(all) {
        assert !Overwrites(all[j], all[|defs|]);
      }
      if NothingOverwritten(defs) && defs[j].data.bytes == [] {
        forall i | 0 <= i < |defs|
          ensures !Overwrites(defs[i], d)
        {
          if i < j {
            assert !Overwrites(defs[i], defs[j]);
          }
        }
      }
    }
  }

  /** The two passes agree, in every build, exactly when the artifact is not named like
      one of the two tables (that name is counted twice) and no contents were
      overwritten (those bytes stay counted). */
  lemma AgreesIff(e: State, h: History)
    requires Inv(e, h)
    ensures Agrees(e) <==> !Reserved(h.name) && NothingOverwritten(h.defs)
  {
    hide SymbolsInv, GroupsExact, GroupsNamed, SpecialInv, SectionShapes, SectionsExact, Dedup, Strtab, Flatten,
      Distinct, LastBlob, Lost, Blobs, NothingOverwritten;
    LostIff(h.defs);
    if Reserved(h.name) {
      assert |h.name| == 7;
      Slack(e.sizeofBits + |Strtab(e.strings)|, e.cls.Ptr());
    }
  }

  lemma Slack(n: nat, ptr: nat)
    requires ptr == 4 || ptr == 8
    ensures AlignUp(n + 8, ptr) != AlignUp(n, ptr)
  {
  }

  // ----- where links land -----

  /** The symbols as built: the section index is the number of sections so far. */
  function LaidSymbols(defs: seq<Definition>): seq<NamedSymbol> {
    if defs == [] then []
    else
      var front := defs[..|defs| - 1];
      LaidSymbols(front) + SymbolsFor(defs[|defs| - 1], FIRST_SECTION + |Dedup(SectionNames(front))|)
  }

  /** The definition makes a symbol called `name`. */
  ghost predicate Makes(d: Definition, name: string) {
    if d.decl.SectionDecl? then exists m :: 0 <= m < |d.symbols| && d.symbols[m].0 == name else d.name == name
  }

  ghost predicate LastMaker(defs: seq<Definition>, k: nat, name: string) {
    k < |defs| && Makes(defs[k], name) && forall m :: k < m < |defs| ==> !Makes(defs[m], name)
  }

  /** A link from `b` lands in an existing section: a section is found by its name, and
      a symbol belongs to a section as long as the definition that made it last, or a
      later one, brings a section name not seen before. */
  ghost predicate Lands(defs: seq<Definition>, b: Binding) {
    b.decl.IsSection() ||
    exists k: nat, j: nat :: LastMaker(defs, k, b.name) && k <= j < |defs| &&
      SectionNameFor(defs[j]) !in SectionNames(defs[..k])
  }

  lemma MadeSymbol(d: Definition, shndx: nat, name: string)
    ensures Makes(d, name) <==> LastSymbol(SymbolsFor(d, shndx), name).Some?
    ensures Makes(d, name) ==> LastSymbol(SymbolsFor(d, shndx), name).value.shndx == shndx
  {
    var specs := SymbolsFor(d, shndx);
    LastAmong(specs, name);
    assert forall m :: 0 <= m < |specs| ==> specs[m].symbol.shndx == shndx;
    if d.decl.SectionDecl? {
      assert forall m :: 0 <= m < |specs| ==> specs[m].name == d.symbols[m].0;
    } else {
      assert specs[0].name == d.name;
    }
  }

  lemma {:induction false} LastAmong(specs: seq<NamedSymbol>, name: string)
    ensures LastSymbol(specs, name).Some? <==> exists m :: 0 <= m < |specs| && specs[m].name == name
    ensures LastSymbol(specs, name).Some? ==>
              exists m :: 0 <= m < |specs| && specs[m].name == name && specs[m].symbol == LastSymbol(specs, name).value
  {
    if specs != [] {
      LastAmong(specs[..|specs| - 1], name);
    }
  }

  lemma {:induction false} LastConcat(a: seq<NamedSymbol>, b: seq<NamedSymbol>, name: string)
    ensures LastSymbol(a + b, name) == if LastSymbol(b, name).Some? then LastSymbol(b, name) else LastSymbol(a, name)
  {
    if b == [] {
      assert a + b == a;
    } else {
      var n := |b| - 1;
      LastConcat(a, b[..n], name);
      assert (a + b)[..|a + b| - 1] == a + b[..n];
    }
  }

  /** The symbol a name ends up with belongs to the section of its last maker. */
  lemma {:induction false} LastLaid(defs: seq<Definition>, k: nat, name: string)
    requires LastMaker(defs, k, name)
    ensures LastSymbol(LaidSymbols(defs), name).Some?
    ensures LastSymbol(LaidSymbols(defs), name).value.shndx == FIRST_SECTION + |Dedup(SectionNames(defs[..k]))|
  {
    hide SymbolsFor, Dedup, SectionNames, Makes, LastSymbol;
    var n := |defs| - 1;
    var shndx := FIRST_SECTION + |Dedup(SectionNames(defs[..n]))|;
    LastConcat(LaidSymbols(defs[..n]), SymbolsFor(defs[n], shndx), name);
    MadeSymbol(defs[n], shndx, name);
    if k < n {
      assert defs[..n][..k] == defs[..k];
      LastLaid(defs[..n], k, name);
    }
  }

  lemma DedupStep<T(!new)>(s: seq<T>)
    requires s != []
    ensures var n := |s| - 1;
            && (s[n] in s[..n] ==> Dedup(s) == Dedup(s[..n]))
            && (s[n] !in s[..n] ==> |Dedup(s)| == |Dedup(s[..n])| + 1)
  {
    hide Distinct;
  }

  /** Later elements add to a list without repetitions exactly if one of them is new. */
  lemma {:induction false} DedupGrows<T(!new)>(s: seq<T>, k: nat)
    requires k <= |s|
    ensures |Dedup(s[..k])| <= |Dedup(s)|
    ensures (forall j :: k <= j < |s| ==> s[j] in s[..k]) ==> |Dedup(s)| == |Dedup(s[..k])|
  {
    hide Distinct, Dedup;
    if k == |s| {
      assert s[..k] == s;
    } else {
      var n := |s| - 1;
      assert s[..n][..k] == s[..k];
      DedupGrows(s[..n], k);
      DedupStep(s);
      if s[n] in s[..k] {
        assert s[n] in s[..n];
      }
    }
  }

  lemma {:induction false} DedupNew<T(!new)>(s: seq<T>, k: nat, j: nat)
    requires k <= j < |s| && s[j] !in s[..k]
    ensures |Dedup(s[..k])| < |Dedup(s)|
  {
    hide Distinct, Dedup;
    var n := |s| - 1;
    assert s[..n][..k] == s[..k];
    DedupStep(s);
    DedupGrows(s[..n], k);
    if j < n {
      DedupNew(s[..n], k, j);
    } else if s[n] in s[..n] {
      var i :| 0 <= i < n && s[..n][i] == s[n];
      assert forall m :: 0 <= m < k ==> s[..k][m] == s[m];
      DedupNew(s[..n], k, i);
    }
  }

  /** With distinct section names every defined name lands in its own section. */
  lemma DistinctLands(defs: seq<Definition>, b: Binding)
    requires Distinct(SectionNames(defs)) && DefinedAs(defs, b)
    ensures Lands(defs, b)
  {
    hide SectionNameFor;
    assert forall j, k :: 0 <= j < k < |defs| ==> SectionNames(defs)[j] != SectionNames(defs)[k];
    if !b.decl.IsSection() {
      var n :| 0 <= n < |defs| && defs[n].name == b.name && b.decl == Defined(defs[n].decl);
      var k := FindLastMaker(defs, n, b.name);
    }
  }

  lemma DistinctLosesNothing(defs: seq<Definition>)
    requires Distinct(SectionNames(defs))
    ensures NothingOverwritten(defs)
  {
    hide SectionNameFor;
    assert forall j, k :: 0 <= j < k < |defs| ==> SectionNames(defs)[j] != SectionNames(defs)[k];
  }

  lemma FindLastMaker(defs: seq<Definition>, n: nat, name: string) returns (k: nat)
    requires n < |defs| && Makes(defs[n], name)
    ensures LastMaker(defs, k, name)
  {
    hide Makes;
    k := |defs| - 1;
    while !Makes(defs[k], name)
      decreases k
      invariant n <= k < |defs|
      invariant forall m :: k < m < |defs| ==> !Makes(defs[m], name)
    {
      k := k - 1;
    }
  }

  lemma LaidCount(defs: seq<Definition>, k: nat)
    requires Distinct(SectionNames(defs)) && k <= |defs|
    ensures |Dedup(SectionNames(defs[..k]))| == k
  {
    hide Distinct, Dedup;
    assert SectionNames(defs) == SectionNames(defs[..k]) + SectionNames(defs[k..]);
    DistinctPrefix(SectionNames(defs[..k]), SectionNames(defs[k..]));
    DedupIdentity(SectionNames(defs[..k]));
  }

  function ImportedSymbols(imports: seq<(string, ImportKind)>): (r: seq<NamedSymbol>)
    ensures |r| == |imports| && forall i :: 0 <= i < |r| ==> r[i] == SymbolForImport(imports[i].0)
  {
    seq(|imports|, i requires 0 <= i < |imports| => SymbolForImport(imports[i].0))
  }

  /** What a build of `i` has reached once everything but the links is added. */
  ghost predicate Laid(i: Input, h: History) {
    && h.name == i.name
    && h.defs == i.definitions
    && h.specs == LaidSymbols(i.definitions) + ImportedSymbols(i.imports)
  }

  /** The id of a name at position `q` of an exact map. */
  lemma KeyAt(strings: Strings, keys: seq<nat>, names: seq<string>, q: nat, s: string)
    requires Distinct(strings) && Distinct(keys) && KeysIn(strings, keys)
    requires KeyNames(strings, keys) == names && q < |names| && names[q] == s
    ensures IndexOf(strings, s) == Some(keys[q])
    ensures IndexOf(keys, keys[q]) == Some(q)
  {
  }

  lemma FindSection(e: State, h: History, name: string)
    requires Core(e, h) && name in SectionNames(h.defs)
    ensures IndexOf(e.strings, name).Some? && IndexOf(e.sections.keys, IndexOf(e.strings, name).value).Some?
  {
    hide Dedup, SectionNames, StringsInv, SymbolsInv, CodeInv, GroupsExact, GroupsNamed, SpecialInv, SectionsExact,
      Distinct;
    CoreShapes(e, h);
    var names := KeyNames(e.strings, e.sections.keys);
    assert name in names;
    var q :| 0 <= q < |names| && names[q] == name;
    KeyAt(e.strings, e.sections.keys, names, q, name);
  }

  lemma FindSymbol(e: State, h: History, name: string)
    requires Core(e, h) && LastSymbol(h.specs, name).Some?
    ensures e.symbols.Valid()
    ensures IndexOf(e.strings, name).Some? && IndexOf(e.symbols.keys, IndexOf(e.strings, name).value).Some?
    ensures e.symbols.values[IndexOf(e.symbols.keys, IndexOf(e.strings, name).value).value].shndx ==
            LastSymbol(h.specs, name).value.shndx
  {
    hide Dedup, StringsInv, SectionsInv, GroupsExact, GroupsNamed, SpecialInv, Distinct, LastSymbol, IndexOf;
    CoreShapes(e, h);
    LastAmong(h.specs, name);
    assert name in SymbolNames(h.specs) by {
      var m :| 0 <= m < |h.specs| && h.specs[m].name == name;
      assert SymbolNames(h.specs)[m] == name;
    }
    var names := KeyNames(e.strings, e.symbols.keys);
    assert name in names;
    var q :| 0 <= q < |names| && names[q] == name;
    KeyAt(e.strings, e.symbols.keys, names, q, name);
    assert Survivors(h.specs)[q].name == name;
  }

  lemma NotImported(i: Input, d: Definition)
    requires Coherent(i) && d in i.definitions
    ensures LastSymbol(ImportedSymbols(i.imports), d.name).None?
  {
    hide LinkResolves, EmitOrder, ContentsAllowed, LastSymbol;
    DistinctPrefix(Names(i.definitions), ImportNames(i.imports));
    var k :| 0 <= k < |i.definitions| && i.definitions[k] == d;
    assert Names(i.definitions)[k] == d.name;
    LastAmong(ImportedSymbols(i.imports), d.name);
    forall m | 0 <= m < |i.imports|
      ensures ImportedSymbols(i.imports)[m].name != d.name
    {
      assert ImportNames(i.imports)[m] == i.imports[m].0;
      assert d.name in Names(i.definitions);
    }
  }

  lemma SectionsHeld(e: State, h: History)
    requires Core(e, h)
    ensures |e.sections.keys| == |e.sections.values| == |Dedup(SectionNames(h.defs))|
    ensures forall k :: 0 <= k < |e.sections.values| ==> e.sections.values[k].name < |e.strings|
  {
    hide CodeInv, SymbolsInv, GroupsExact, GroupsNamed, SpecialInv, StringsInv, SectionsExact, Dedup, Distinct;
  }

  /** Every defined end of a link is found, and it names an existing section exactly
      if it lands. */
  lemma LocateAny(e: State, h: History, i: Input, b: Binding)
    requires Core(e, h) && Laid(i, h) && Coherent(i) && DefinedAs(i.definitions, b)
    ensures e.symbols.Valid()
    ensures Locate(e, b).Some? && Locate(e, b).value.1 >= FIRST_SECTION
    ensures Locate(e, b).value.1 < FIRST_SECTION + |e.sections.keys| <==> Lands(i.definitions, b)
  {
    hide Core, Coherent, LastSymbol, LaidSymbols, Dedup, SectionNames, SymbolsFor, Distinct, ImportedSymbols;
    CoreShapes(e, h);
    var n :| 0 <= n < |i.definitions| && i.definitions[n].name == b.name && b.decl == Defined(i.definitions[n].decl);
    if b.decl.IsSection() {
      assert SectionNames(h.defs)[n] == b.name;
      FindSection(e, h, b.name);
    } else {
      var defs := i.definitions;
      var k := FindLastMaker(defs, n, b.name);
      NotImported(i, defs[n]);
      LastConcat(LaidSymbols(defs), ImportedSymbols(i.imports), b.name);
      LastLaid(defs, k, b.name);
      FindSymbol(e, h, b.name);
      SectionsHeld(e, h);
      LandsIff(defs, b, k);
    }
  }

  lemma LandsIff(defs: seq<Definition>, b: Binding, k: nat)
    requires !b.decl.IsSection() && LastMaker(defs, k, b.name)
    ensures Lands(defs, b) <==> |Dedup(SectionNames(defs[..k]))| < |Dedup(SectionNames(defs))|
  {
    hide Dedup, Makes, SectionNameFor;
    var names := SectionNames(defs);
    assert names[..k] == SectionNames(defs[..k]);
    DedupGrows(names, k);
    if Lands(defs, b) {
      var k': nat, j: nat :| LastMaker(defs, k', b.name) && k' <= j < |defs| &&
        SectionNameFor(defs[j]) !in SectionNames(defs[..k']);
      assert k' == k;
      DedupNew(names, k, j);
    } else {
      assert forall j :: k <= j < |names| ==> names[j] in names[..k];
    }
  }

  lemma RelocFits(e: State, h: History, shndx: nat, r: Relocation)
    requires Core(e, h) && shndx >= FIRST_SECTION
    ensures e.relocations.Valid()
    ensures WithReloc(e, shndx, r).Some? <==> shndx < FIRST_SECTION + |e.sections.keys|
  {
    hide CodeInv, SymbolsInv, SpecialInv, StringsInv, SectionsInv, Dedup, Distinct, WithString, GroupExact, Named,
      IndexMap.Insert;
    SectionsHeld(e, h);
    CoreShapes(e, h);
  }

  /** A link of a coherent artifact succeeds exactly if its kind is supported and it
      lands, whatever the names. */
  lemma LinkSucceedsIff(e: State, h: History, i: Input, l: LinkAndDecl)
    requires Inv(e, h) && Laid(i, h) && Coherent(i) && LinkResolves(i, l)
    ensures e.symbols.Valid() && e.relocations.Valid()
    ensures WithLink(e, l).Some? <==> RelocKind(e.cls, l).Some? && Lands(i.definitions, l.from)
    ensures WithLink(e, l).Some? ==> EntryFor(e, l).Some?
  {
    hide Inv, Core, Coherent, Locate, RelocKind, WithReloc, DefinedAs, ImportedAs, Laid, Lands;
    InvCore(e, h);
    CoreShapes(e, h);
    LocateAny(e, h, i, l.from);
    TargetFound(e, h, i, l.to);
    var (_, shndx) := Locate(e, l.from).value;
    if EntryFor(e, l).Some? {
      RelocFits(e, h, shndx, EntryFor(e, l).value.reloc);
    }
  }

  lemma TargetFound(e: State, h: History, i: Input, b: Binding)
    requires Core(e, h) && Laid(i, h) && Coherent(i)
    requires DefinedAs(i.definitions, b) || ImportedAs(i.imports, b)
    ensures e.symbols.Valid()
    ensures Locate(e, b).Some?
    ensures b.decl.Defined? ==> Locate(e, b).value.1 >= FIRST_SECTION
  {
    hide Core, Coherent, LastSymbol, LaidSymbols, Lands, Distinct;
    CoreShapes(e, h);
    if DefinedAs(i.definitions, b) {
      LocateAny(e, h, i, b);
    } else {
      var m :| 0 <= m < |i.imports| && i.imports[m].0 == b.name && b.decl == Import(i.imports[m].1);
      LastAmong(ImportedSymbols(i.imports), b.name);
      assert ImportedSymbols(i.imports)[m].name == b.name;
      LastConcat(LaidSymbols(i.definitions), ImportedSymbols(i.imports), b.name);
      FindSymbol(e, h, b.name);
    }
  }
}
