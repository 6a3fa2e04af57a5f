/** The ELF builder object: it collects an artifact's parts and then writes them. */
module ElfBuilder {
  import opened Collections
  import opened ObjectFile
  import opened Decls
  import opened ElfFormat
  import opened ElfImage
  import opened ElfBuild

  class Elf {
    const cls: Class
    var strings: seq<string>
    var offsets: map<nat, nat>
    var sizeofStrtab: nat
    var code: IndexMap<nat, seq<byte>>
    var sections: IndexMap<nat, SectionInfo>
    var symbols: IndexMap<nat, Symbol>
    var special: seq<Symbol>
    var imports: map<nat, ImportKind>
    var relocations: IndexMap<nat, RelocGroup>
    var sizeofBits: nat
    var nsections: nat
    var nlocals: nat
    ghost var history: History

    ghost function Fields(): State
      reads this
    {
      State(cls, strings, offsets, sizeofStrtab, code, sections, symbols, special, relocations, sizeofBits, nsections,
            nlocals)
    }

    ghost predicate Valid()
      reads this
    {
      Inv(Fields(), history)
    }

    static method PushStrtab(strings: seq<string>, offsets: map<nat, nat>, size: nat, name: string)
      returns (strings': seq<string>, offsets': map<nat, nat>, size': nat, offset: nat)
      ensures (strings', offsets', size') == PushString(strings, offsets, size, name)
      ensures offset == size
    {
      var idx: nat;
      strings', idx := Intern(strings, name).0, Intern(strings, name).1;
      offset := size;
      offsets' := offsets[idx := offset];
      size' := size + (|name| + 1);
    }

    static method FirstTable(name: string)
      returns (strings: seq<string>, offsets: map<nat, nat>, size: nat, offset: nat)
      ensures var (s, o, n) := FirstStrings();
              (strings, offsets, size) == PushString(s, o, n, name) && offset == n
    {
      hide PushString;
      strings, offsets, size := [], map[], 1;
      strings, offsets, size, offset := PushStrtab(strings, offsets, size, ".strtab");
      strings, offsets, size, offset := PushStrtab(strings, offsets, size, ".symtab");
      strings, offsets, size, offset := PushStrtab(strings, offsets, size, name);
    }

    constructor (name: string, cls: Class)
      ensures Valid()
      ensures history == History(name, [], [], [], false) && this.cls == cls
      ensures Fields() == NewState(cls, name)
    {
      hide Inv, PushString, Intern, IndexOf, FirstStrings;
      var strs, offs, size, off := FirstTable(name);
      this.cls := cls;
      strings, offsets, sizeofStrtab := strs, offs, size;
      special := [NullSymbol, CreateSymbol(FromFile, off, 0, 0, 0)];
      code := IndexMap([], []);
      relocations := IndexMap([], []);
      imports := map[];
      symbols := IndexMap([], []);
      sections := IndexMap([], []);
      nsections := 4;
      sizeofBits := cls.EhdrSize();
      nlocals := 0;
      history := History(name, [], [], [], false);
      new;
      NewStateInv(cls, name);
    }

    method NewString(s: string) returns (idx: nat, offset: nat)
      modifies this`strings, this`offsets, this`sizeofStrtab
      ensures (Fields(), idx, offset) == WithString(old(Fields()), s)
    {
      var interned := Intern(strings, s);
      strings, idx := interned.0, interned.1;
      if idx in offsets {
        offset := offsets[idx];
      } else {
        offset := sizeofStrtab;
        sizeofStrtab := sizeofStrtab + (|s| + 1);
        offsets := offsets[idx := offset];
      }
    }

    method AddSection(name: string, typ: ShType, size: nat) returns (idx: nat, shndx: nat)
      requires sections.Valid()
      modifies this`strings, this`offsets, this`sizeofStrtab, this`sections, this`nsections
      ensures (Fields(), idx, shndx) == WithSection(old(Fields()), name, typ, size)
    {
      hide WithString, IndexMap.Insert, Distinct;
      var offset;
      idx, offset := NewString(name);
      shndx := |sections.keys| + FIRST_SECTION;
      var symbol := CreateSymbol(FromSection, 0, 0, shndx, 0);
      var header := CreateSection(cls, typ, size, offset).(offset := sizeofBits);
      sections := sections.Insert(idx, SectionInfo(header, symbol, idx));
      nsections := nsections + 1;
    }

    method AddProgbits(name: string, typ: ShType, size: nat, bytes: seq<byte>) returns (shndx: nat)
      requires sections.Valid() && code.Valid()
      modifies this`strings, this`offsets, this`sizeofStrtab, this`sections, this`nsections, this`code, this`sizeofBits
      ensures (Fields(), shndx) == WithProgbits(old(Fields()), name, typ, size, bytes)
    {
      hide WithSection, WithString, IndexMap.Insert, Distinct;
      var idx;
      idx, shndx := AddSection(name, typ, size);
      sizeofBits := sizeofBits + |bytes|;
      code := code.Insert(idx, bytes);
    }

    method InsertSymbol(s: NamedSymbol)
      requires symbols.Valid()
      modifies this`strings, this`offsets, this`sizeofStrtab, this`symbols
      ensures Fields() == WithSymbol(old(Fields()), s)
    {
      var idx, offset := NewString(s.name);
      symbols := symbols.Insert(idx, s.symbol.(name := offset));
    }

    /** The symbol half of `add_definition`. */
    method AddSymbols(d: Definition, shndx: nat)
      requires symbols.Valid()
      modifies this`strings, this`offsets, this`sizeofStrtab, this`symbols, this`nlocals
      ensures Fields() == WithSymbolsAndCount(old(Fields()), d, shndx)
    {
      hide WithSymbol;
      ghost var middle := Fields();
      ghost var specs := SymbolsFor(d, shndx);
      match d.decl {
        case SectionDecl(_, _, _) =>
          for i := 0 to |d.symbols|
            invariant symbols.Valid() && nlocals == old(nlocals)
            invariant Fields() == WithSymbols(middle, specs[..i])
          {
            InsertSymbol(NamedSymbol(d.symbols[i].0, CreateSymbol(FromNothing, 0, 0, shndx, d.symbols[i].1)));
            assert specs[..i + 1][..i] == specs[..i];
          }
          assert specs[..|d.symbols|] == specs;
        case _ =>
          InsertSymbol(NamedSymbol(d.name, CreateSymbol(FromDecl(d.decl), 0, d.data.FileSize(), shndx, 0)));
          assert specs[..0] == [] && WithSymbols(middle, specs) == WithSymbol(middle, specs[0]);
          if !d.decl.IsGlobal() {
            nlocals := nlocals + 1;
          }
      }
    }

    /** Adds the definition's section and its symbols. */
    method AddDefinition(d: Definition)
      requires Valid()
      requires !(d.data.ZeroInit? && d.decl.FunctionDecl?)
      modifies this
      ensures Valid()
      ensures history == HistoryWith(old(Fields()), old(history), d)
    {
      hide Core, Inv, WithContents, WithSection, WithProgbits, WithSymbolsAndCount;
      InvCore(Fields(), history);
      CoreShapes(Fields(), history);
      ghost var before := Fields();
      var shndx;
      if d.data.Blob? {
        shndx := AddProgbits(SectionNameFor(d), SectionTypeFor(d), d.data.FileSize(), d.data.bytes);
      } else {
        var idx;
        idx, shndx := AddSection(SectionNameFor(d), SectionTypeFor(d), d.data.FileSize());
      }
      ContentsAre(before, d);
      ContentsKeep(before, history, d);
      CoreShapes(Fields(), history.(defs := history.defs + [d]));
      AddSymbols(d, shndx);
      DefinitionKeeps(before, history, d);
      history := HistoryWith(before, history, d);
    }

    method Import(name: string, kind: ImportKind)
      requires Valid()
      modifies this
      ensures Valid()
      ensures Fields() == WithSymbol(old(Fields()), SymbolForImport(name))
      ensures history == old(history).(specs := old(history).specs + [SymbolForImport(name)])
    {
      hide Core, Inv;
      InvCore(Fields(), history);
      CoreShapes(Fields(), history);
      SymbolKeeps(Fields(), history, SymbolForImport(name));
      var idx, offset := NewString(name);
      var symbol := CreateSymbol(FromImport, offset, 0, 0, 0);
      imports := imports[idx := kind];
      symbols := symbols.Insert(idx, symbol);
      history := history.(specs := history.specs + [SymbolForImport(name)]);
      CoreInv(Fields(), history);
    }

    /** `ok` is false where the original panics. */
    method AddReloc(r: Relocation, shndx: nat) returns (ok: bool)
      requires relocations.Valid()
      modifies this
      ensures history == old(history)
      ensures ok <==> WithReloc(old(Fields()), shndx, r).Some?
      ensures ok ==> Fields() == WithReloc(old(Fields()), shndx, r).value
    {
      var found := IndexOf(relocations.keys, shndx);
      if found.Some? {
        var group := relocations.values[found.value];
        var header := group.header.(size := group.header.size + group.header.entsize);
        relocations := relocations.Insert(shndx, RelocGroup(header, group.relocs + [r]));
      } else {
        if shndx < FIRST_SECTION || shndx - FIRST_SECTION >= |sections.values| {
          return false;
        }
        var id := sections.values[shndx - FIRST_SECTION].name;
        if id >= |strings| {
          return false;
        }
        var _, offset := NewString(".rela" + strings[id]);
        var header := CreateSection(cls, Rela, cls.RelaSize(), offset).(link := SYMTAB_LINK, info := shndx);
        relocations := relocations.Insert(shndx, RelocGroup(header, [r]));
        nsections := nsections + 1;
      }
      ok := true;
    }

    /** Table position and section of a link endpoint. Interns the name first, which
        adds nothing when the endpoint exists. */
    method Find(b: Binding) returns (found: Option<(nat, nat)>)
      requires symbols.Valid() && KeysIn(strings, sections.keys) && KeysIn(strings, symbols.keys)
      modifies this`strings
      ensures found == Locate(old(Fields()), b)
      ensures found.Some? ==> strings == old(strings)
    {
      var interned := Intern(strings, b.name);
      var id := interned.1;
      strings := interned.0;
      if b.decl.IsSection() {
        var at := IndexOf(sections.keys, id);
        if at.None? {
          return None;
        }
        found := Some((at.value + |special|, at.value + FIRST_SECTION));
      } else {
        var at := IndexOf(symbols.keys, id);
        if at.None? {
          return None;
        }
        found := Some((at.value + |special| + |sections.keys|, symbols.values[at.value].shndx));
      }
    }

    /** `ok` is false where the original panics. */
    method Link(l: LinkAndDecl) returns (ok: bool)
      requires Valid()
      modifies this
      ensures old(Fields()).symbols.Valid() && old(Fields()).relocations.Valid()
      ensures ok <==> WithLink(old(Fields()), l).Some?
      ensures ok ==> Valid() && Fields() == WithLink(old(Fields()), l).value
      ensures ok ==> history == old(history).(entries := old(history).entries + [EntryFor(old(Fields()), l).value])
    {
      hide Core, Inv, Locate, RelocKind, WithReloc;
      InvCore(Fields(), history);
      CoreShapes(Fields(), history);
      CoreKeys(Fields(), history);
      ghost var before := Fields();
      var to := Find(l.to);
      if to.None? {
        return false;
      }
      var from := Find(l.from);
      if from.None? {
        return false;
      }
      var kind := RelocKind(cls, l);
      if kind.None? {
        return false;
      }
      var symIdx;
      match l.to.decl {
        case Import(_) =>
          symIdx := to.value.0;
        case Defined(_) =>
          if to.value.1 < FIRST_SECTION {
            return false;
          }
          symIdx := to.value.1 - FIRST_SECTION + |special|;
      }
      var reloc := Relocation(l.at, symIdx, kind.value.0, kind.value.1);
      assert EntryFor(before, l) == Some(Entry(from.value.1, reloc));
      ok := AddReloc(reloc, from.value.1);
      if ok {
        RelocKeeps(before, history, Entry(from.value.1, reloc));
        history := history.(entries := history.entries + [Entry(from.value.1, reloc)]);
        CoreInv(Fields(), history);
      }
    }

    // ----- writing -----

    /** Adds the last strings and settles whether an index table is needed. */
    method Prepare() returns (shndxName: nat, noteName: nat)
      requires Valid() && !history.extended
      modifies this
      ensures Valid()
      ensures history == old(history).(extended := old(nsections) >= SHN_LORESERVE)
      ensures history.extended ==> shndxName == OffsetOf(strings, offsets, ".symtab_shndx")
      ensures noteName == OffsetOf(strings, offsets, ".note.GNU-stack")
      ensures nsections == old(nsections) + (if history.extended then 1 else 0)
      ensures LateNames(strings, history.extended)
    {
      hide Inv, WithString;
      WriteKeeps(Fields(), history);
      shndxName := 0;
      ghost var extended := nsections >= SHN_LORESERVE;
      if nsections >= SHN_LORESERVE {
        nsections := nsections + 1;
        var _, name := NewString(".symtab_shndx");
        shndxName := name;
      }
      var _, name := NewString(".note.GNU-stack");
      noteName := name;
      history := history.(extended := extended);
    }

    method WriteCode(out: Output<Record>)
      requires out.pos == |out.cells|
      modifies out
      ensures out.cells == old(out.cells) + Bytes(Flatten(code.values)) && out.pos == |out.cells|
    {
      hide Flatten, Bytes, Overwrite;
      FlattenNothing();
      for i := 0 to |code.values|
        invariant out.pos == |out.cells|
        invariant out.cells == old(out.cells) + Bytes(Flatten(code.values[..i]))
      {
        FlattenSnoc(code.values, i);
        out.Write(Bytes(code.values[i]));
        assert out.cells == old(out.cells) + Bytes(Flatten(code.values[..i])) + Bytes(code.values[i]);
      }
      assert code.values[..|code.values|] == code.values;
    }

    method WriteStrtab(out: Output<Record>, start: nat)
      requires start >= |out.cells|
      modifies out
      ensures out.cells == Overwrite(old(out.cells), start, Strtab(strings))
      ensures out.pos == start + |Strtab(strings)|
    {
      out.Seek(start);
      out.Write([Byte(0)]);
      for i := 0 to |strings|
        invariant out.cells == Overwrite(old(out.cells), start, Strtab(strings[..i]))
        invariant out.pos == start + |Strtab(strings[..i])|
      {
        OverwriteTwice(old(out.cells), start, Strtab(strings[..i]), Text(strings[i]));
        out.Write(Text(strings[i]));
        OverwriteTwice(old(out.cells), start, Strtab(strings[..i]) + Text(strings[i]), [Byte(0)]);
        out.Write([Byte(0)]);
        StrtabSnoc(strings, i);
      }
      assert strings[..|strings|] == strings;
    }

    /** Writes one symbol and, when the index table is needed, its word. */
    method WriteSymbol(out: Output<Record>, symbol: Symbol, shndx: nat, need: bool, data: Image, offset: nat,
                       ghost base: Image, ghost start: nat, ghost written: seq<Symbol>, ghost words: seq<nat>)
      returns (data': Image, offset': nat)
      requires start >= |base|
      requires out.cells == Overwrite(base, start, Records(SymRecords(written), cls.SymSize()))
      requires out.pos == start + |written| * cls.SymSize()
      requires need ==>
               offset == 4 * |words| && offset + 4 <= |data| && data[..offset] == Records(WordRecords(words), 4)
      modifies out
      ensures out.cells == Overwrite(base, start, Records(SymRecords(written + [symbol]), cls.SymSize()))
      ensures out.pos == start + |written + [symbol]| * cls.SymSize()
      ensures need ==> offset' == 4 * |words + [shndx]| && |data'| == |data|
      ensures need ==> data'[..offset'] == Records(WordRecords(words + [shndx]), 4)
    {
      data', offset' := data, offset;
      if need {
        data' := data[..offset] + Encode(WordRecord(shndx), 4) + data[offset + 4..];
        offset' := offset + 4;
        WordsSnoc(words, shndx);
        assert data'[..offset'] == data[..offset] + Encode(WordRecord(shndx), 4);
      }
      SymbolsSnoc(written, symbol, cls.SymSize());
      OverwriteTwice(base, start, Records(SymRecords(written), cls.SymSize()),
                     Encode(SymRecord(symbol), cls.SymSize()));
      out.Write(Encode(SymRecord(symbol), cls.SymSize()));
    }

    /** One of the three symbol loops; all but the first escape large indices. */
    method WriteSymbols(out: Output<Record>, batch: seq<Symbol>, escape: bool, need: bool, data: Image, offset: nat,
                        ghost base: Image, ghost start: nat, ghost written: seq<Symbol>, ghost words: seq<nat>)
      returns (data': Image, offset': nat)
      requires start >= |base|
      requires out.cells == Overwrite(base, start, Records(SymRecords(written), cls.SymSize()))
      requires out.pos == start + |written| * cls.SymSize()
      requires need ==>
               offset == 4 * |words| && 4 * (|words| + |batch|) <= |data| &&
                 data[..offset] == Records(WordRecords(words), 4)
      modifies out
      ensures var all := written + (if escape then EscapeAll(batch) else batch);
              && out.cells == Overwrite(base, start, Records(SymRecords(all), cls.SymSize()))
              && out.pos == start + |all| * cls.SymSize()
      ensures need ==> offset' == 4 * |words + Indices(batch)| && |data'| == |data|
      ensures need ==> data'[..offset'] == Records(WordRecords(words + Indices(batch)), 4)
    {
      hide Records, Overwrite;
      data', offset' := data, offset;
      ghost var target := if escape then EscapeAll(batch) else batch;
      assert written + target[..0] == written && words + Indices(batch)[..0] == words;
      for i := 0 to |batch|
        invariant out.cells == Overwrite(base, start, Records(SymRecords(written + target[..i]), cls.SymSize()))
        invariant out.pos == start + |written + target[..i]| * cls.SymSize()
        invariant need ==> offset' == 4 * |words + Indices(batch)[..i]| && |data'| == |data|
        invariant need ==> data'[..offset'] == Records(WordRecords(words + Indices(batch)[..i]), 4)
      {
        var sym := batch[i];
        if escape && sym.shndx >= SHN_LORESERVE {
          sym := sym.(shndx := SHN_XINDEX);
        }
        data', offset' := WriteSymbol(out, sym, batch[i].shndx, need, data', offset', base, start,
          written + target[..i], words + Indices(batch)[..i]);
        assert written + target[..i] + [sym] == written + target[..i + 1];
        assert words + Indices(batch)[..i] + [batch[i].shndx] == words + Indices(batch)[..i + 1];
      }
      assert target[..|batch|] == target && Indices(batch)[..|batch|] == Indices(batch);
    }

    /** Special symbols, then section symbols, then the others; the true section
        indices of all of them go to `data`, filling it exactly. */
    method WriteSymtab(out: Output<Record>, start: nat, need: bool) returns (data: Image)
      requires start >= |out.cells|
      modifies out
      ensures out.cells ==
              Overwrite(old(out.cells), start, Records(SymRecords(WrittenSymbols(Fields())), cls.SymSize()))
      ensures out.pos == start + SizeofSymtab(Fields())
      ensures need ==> data == Records(WordRecords(Indices(BuiltSymbols(Fields()))), 4)
    {
      hide Records, Overwrite, WrittenSymbols, BuiltSymbols, SizeofSymtab, EscapeAll, Escape, Indices;
      ThreeBatches(Fields());
      NothingWritten(out.cells, start, cls.SymSize());
      assert SizeofSymtab(Fields()) == |WrittenSymbols(Fields())| * cls.SymSize() by { SymtabSize(Fields()); }
      var count := |symbols.values| + |special| + |sections.values|;
      data := if need then Fill(0, count * 4) else [];
      var offset: nat := 0;
      ghost var base := out.cells;
      var secs := SectionSymbols(sections.values);
      out.Seek(start);
      assert data[..0] == [];
      data, offset := WriteSymbols(out, special, false, need, data, offset, base, start, [], []);
      data, offset := WriteSymbols(out, secs, true, need, data, offset, base, start, special, Indices(special));
      data, offset := WriteSymbols(out, symbols.values, true, need, data, offset, base, start,
        special + EscapeAll(secs), Indices(special) + Indices(secs));
      assert need ==> data[..offset] == data;
    }

    /** Every group's header gets the running offset; its entries follow in place. */
    method WriteRelocs(out: Output<Record>, start: nat) returns (headers: seq<Shdr>)
      requires start >= |out.cells|
      modifies out
      ensures out.cells == Overwrite(old(out.cells), start, RelaCells(cls, relocations.values))
      ensures out.pos == start + |RelaCells(cls, relocations.values)|
      ensures headers == RelaHeaders(relocations.values, start)
    {
      var groups := relocations.values;
      var roffset := start;
      headers := [];
      out.Seek(start);
      for i := 0 to |groups|
        invariant out.cells == Overwrite(old(out.cells), start, RelaCells(cls, groups[..i]))
        invariant out.pos == start + |RelaCells(cls, groups[..i])|
        invariant roffset == start + SizeSum(groups[..i])
        invariant headers == RelaHeaders(groups[..i], start)
      {
        headers := headers + [groups[i].header.(offset := roffset)];
        roffset := roffset + groups[i].header.size;
        RelaHeadersSnoc(groups, i, start);
        WriteGroup(out, groups[i].relocs, old(out.cells), start, RelaCells(cls, groups[..i]));
        assert groups[..i + 1][..i] == groups[..i];
      }
      assert groups[..|groups|] == groups;
    }

    method WriteGroup(out: Output<Record>, relocs: seq<Relocation>, ghost base: Image, ghost start: nat,
                      ghost before: Image)
      requires start >= |base|
      requires out.cells == Overwrite(base, start, before) && out.pos == start + |before|
      modifies out
      ensures out.cells == Overwrite(base, start, before + Records(RelaRecords(relocs), cls.RelaSize()))
      ensures out.pos == start + |before + Records(RelaRecords(relocs), cls.RelaSize())|
    {
      assert before + Records(RelaRecords(relocs[..0]), cls.RelaSize()) == before;
      for i := 0 to |relocs|
        invariant out.cells == Overwrite(base, start, before + Records(RelaRecords(relocs[..i]), cls.RelaSize()))
        invariant out.pos == start + |before + Records(RelaRecords(relocs[..i]), cls.RelaSize())|
      {
        RelocsSnoc(relocs, i, cls.RelaSize(), before);
        OverwriteTwice(base, start, before + Records(RelaRecords(relocs[..i]), cls.RelaSize()),
                       Encode(RelaRecord(relocs[i]), cls.RelaSize()));
        out.Write(Encode(RelaRecord(relocs[i]), cls.RelaSize()));
      }
      assert relocs[..|relocs|] == relocs;
    }

    method WriteHeaders(out: Output<Record>, start: nat, headers: seq<Shdr>)
      requires start >= |out.cells|
      modifies out
      ensures out.cells == Overwrite(old(out.cells), start, Records(ShdrRecords(headers), cls.ShdrSize()))
      ensures out.pos == start + |headers| * cls.ShdrSize()
    {
      out.Seek(start);
      for i := 0 to |headers|
        invariant out.cells == Overwrite(old(out.cells), start, Records(ShdrRecords(headers[..i]), cls.ShdrSize()))
        invariant out.pos == start + |Records(ShdrRecords(headers[..i]), cls.ShdrSize())|
      {
        HeadersSnoc(headers, i, cls.ShdrSize());
        OverwriteTwice(old(out.cells), start, Records(ShdrRecords(headers[..i]), cls.ShdrSize()),
                       Encode(ShdrRecord(headers[i]), cls.ShdrSize()));
        out.Write(Encode(ShdrRecord(headers[i]), cls.ShdrSize()));
      }
      assert headers[..|headers|] == headers;
    }

    /** The two-pass writer. `None` is a failed layout assertion; the five that
        remain as `assert` cannot fail. */
    method Write() returns (file: Option<Image>)
      requires Valid() && !history.extended
      modifies this
      ensures Valid()
      ensures history == old(history).(extended := old(nsections) >= SHN_LORESERVE)
      ensures file.Some? <==> Agrees(Fields())
      ensures file.Some? ==> file.value == Whole(Fields(), history.extended)
      ensures history.extended <==> nsections > SHN_LORESERVE
      ensures nsections >= SHN_LORESERVE ==> history.extended
      ensures LateNames(strings, history.extended)
    {
      hide Inv;
      var shndxName, noteName := Prepare();
      InvSpecial(Fields(), history);
      file := Emit(shndxName, noteName, nsections > SHN_LORESERVE);
    }

    /** The first pass. */
    method ComputeOffsets(need: bool) returns (symtabOffset: nat, shndxOffset: nat, relocOffset: nat, shOffset: nat)
      ensures symtabOffset == SymtabOffset(Fields()) && shndxOffset == ShndxOffset(Fields(), need)
      ensures relocOffset == RelocOffset(Fields(), need) && shOffset == ShOffset(Fields(), need)
    {
      hide RelocCount, AlignUp;
      var symbolCount := |symbols.values| + |special| + |sections.values|;
      var sizeofSymtab := symbolCount * cls.SymSize();
      var sizeofShndx := if need then symbolCount * 4 else 0;
      var sizeofRelocs := RelocCount(relocations.values) * cls.RelaSize();
      var strtabOffset := sizeofBits;
      symtabOffset := AlignUp(strtabOffset + sizeofStrtab, cls.Ptr());
      shndxOffset := symtabOffset + sizeofSymtab;
      if need {
        shndxOffset := AlignUp(shndxOffset, 4);
      }
      relocOffset := AlignUp(shndxOffset + sizeofShndx, cls.Ptr());
      shOffset := AlignUp(relocOffset + sizeofRelocs, cls.Ptr());
    }

    method Emit(shndxName: nat, noteName: nat, need: bool) returns (file: Option<Image>)
      requires 0 in offsets && 1 in offsets && special != []
      requires need ==> shndxName == OffsetOf(strings, offsets, ".symtab_shndx")
      requires noteName == OffsetOf(strings, offsets, ".note.GNU-stack")
      ensures file.Some? <==> Agrees(Fields())
      ensures file.Some? ==> file.value == Whole(Fields(), need)
    {
      hide Records, Strtab, RelaCells, Flatten, Overwrite, RelocCount, IndexOf, ElfImage.SymtabOffset,
        ElfImage.ShndxOffset, ElfImage.RelocOffset, ElfImage.ShOffset, Encode, Bytes;
      var symtabOffset, shndxOffset, relocOffset, shOffset := ComputeOffsets(need);
      var strtabOffset := sizeofBits;
      // Header
      var out := new Output<Record>();
      var header := Ehdr(shOffset, if nsections >= SHN_LORESERVE then 0 else nsections, STRTAB_LINK);
      out.Write(Encode(EhdrRecord(header), cls.EhdrSize()));
      assert out.pos == cls.EhdrSize();
      // Code
      WriteCode(out);
      if out.pos != strtabOffset {
        return None;
      }
      assert out.cells == AfterCode(Fields(), need);
      // Strtab
      WriteStrtab(out, strtabOffset);
      if AlignUp(out.pos, cls.Ptr()) != symtabOffset {
        return None;
      }
      assert Agrees(Fields());
      EmitTables(out, shndxName, noteName, need, symtabOffset, shndxOffset, relocOffset, shOffset);
      file := Some(out.cells);
    }

    /** The regions after the string table. */
    method EmitTables(out: Output<Record>, shndxName: nat, noteName: nat, need: bool, symtabOffset: nat,
                      shndxOffset: nat, relocOffset: nat, shOffset: nat)
      requires 0 in offsets && 1 in offsets && special != []
      requires need ==> shndxName == OffsetOf(strings, offsets, ".symtab_shndx")
      requires noteName == OffsetOf(strings, offsets, ".note.GNU-stack")
      requires Agrees(Fields()) && out.cells == AfterStrtab(Fields(), need)
      requires symtabOffset == SymtabOffset(Fields()) && shndxOffset == ShndxOffset(Fields(), need)
      requires relocOffset == RelocOffset(Fields(), need) && shOffset == ShOffset(Fields(), need)
      modifies out
      ensures out.cells == Whole(Fields(), need)
    {
      hide Records, Strtab, RelaCells, Flatten, Overwrite, RelocCount, WrittenSymbols, BuiltSymbols, RelaHeaders,
        IndexOf, Agrees, AfterStrtab, AlignUp;
      ghost var e := Fields();
      StageLengths(e, need);
      OffsetsOrdered(e, need);
      // Symtab
      var data := WriteSymtab(out, symtabOffset, need);
      assert out.cells == AfterSymtab(e, need);
      if need {
        assert AlignUp(out.pos, 4) == shndxOffset;
        out.Seek(shndxOffset);
        out.Write(data);
      }
      assert out.cells == AfterShndx(e, need);
      assert AlignUp(out.pos, cls.Ptr()) == relocOffset;
      // Relocations
      var relaHeaders := WriteRelocs(out, relocOffset);
      assert out.cells == AfterRelocs(e, need);
      RelaCellsLength(cls, relocations.values);
      assert AlignUp(out.pos, cls.Ptr()) == shOffset;
      // Sections
      var headers := AllHeaders(shndxName, noteName, need, symtabOffset, shndxOffset, relaHeaders, relocOffset);
      WriteHeaders(out, shOffset, headers);
      assert out.pos == shOffset + |headers| * cls.ShdrSize();
    }

    /** The section headers in the order they are pushed. */
    method AllHeaders(shndxName: nat, noteName: nat, need: bool, symtabOffset: nat, shndxOffset: nat,
                      relaHeaders: seq<Shdr>, ghost relocOffset: nat) returns (headers: seq<Shdr>)
      requires 0 in offsets && 1 in offsets
      requires need ==> shndxName == OffsetOf(strings, offsets, ".symtab_shndx")
      requires noteName == OffsetOf(strings, offsets, ".note.GNU-stack")
      requires symtabOffset == SymtabOffset(Fields()) && shndxOffset == ShndxOffset(Fields(), need)
      requires relocOffset == RelocOffset(Fields(), need) && relaHeaders == RelaHeaders(relocations.values, relocOffset)
      ensures headers == SectionHeaders(Fields(), need)
    {
      hide RelaHeaders, IndexOf, AlignUp, OffsetOf;
      var symbolCount := |symbols.values| + |special| + |sections.values|;
      var nul := if nsections >= SHN_LORESERVE then NullHeader.(size := nsections) else NullHeader;
      var strtab := CreateSection(cls, StrTab, sizeofStrtab, offsets[0]).(offset := sizeofBits);
      var symtab := CreateSection(cls, SymTab, symbolCount * cls.SymSize(), offsets[1]).(
        offset := symtabOffset, link := 1, info := |special| + |sections.values| + nlocals);
      headers := [nul, strtab, symtab] + SectionHeadersOf(sections.values);
      if need {
        var section := CreateSection(cls, SymTabShndx, symbolCount * 4, shndxName).(link := 2, offset := shndxOffset);
        headers := headers + [section];
      }
      headers := headers + relaHeaders + [CreateSection(cls, ProgBits, 0, noteName)];
    }
  }
}
