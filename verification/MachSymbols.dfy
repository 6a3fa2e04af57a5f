/** The Mach-O symbol table with its interned string table. */
module MachSymbols {
  import opened Collections
  import opened ObjectFile
  import opened MachFormat

  datatype SymbolKind =
    | DefinedIn(section: nat, absolute: nat, relative: nat, global: bool)
    | UndefinedSymbol

  datatype SymbolBuilder = SymbolBuilder(
    name: nat, section: Option<nat>, global: bool, imported: bool, offset: nat, relative: nat)

  function CreateNlist(b: SymbolBuilder): Nlist {
    if b.imported then Nlist(b.name, true, true, 0, 0)
    else Nlist(b.name, b.global, false, if b.section.Some? then b.section.value + 1 else 0, b.offset)
  }

  function BuilderFor(strx: nat, kind: SymbolKind): SymbolBuilder {
    match kind
    case UndefinedSymbol => SymbolBuilder(strx, None, true, true, 0, 0)
    case DefinedIn(section, absolute, relative, global) =>
      SymbolBuilder(strx, Some(section), global, false, absolute, relative)
  }

  /** The fields of the table. */
  datatype Table = Table(
    symbols: IndexMap<nat, SymbolBuilder>,
    strtable: seq<string>,
    indexes: IndexMap<nat, nat>,
    size: nat)

  /** One inserted symbol. */
  datatype Entry = Entry(name: string, kind: SymbolKind)

  function EntryNames(es: seq<Entry>): (r: seq<string>)
    ensures |r| == |es| && forall i :: 0 <= i < |r| ==> r[i] == es[i].name
  {
    seq(|es|, i requires 0 <= i < |es| => es[i].name)
  }

  /** The string table as written: a NUL, then every name with an underscore. */
  function StrCells(names: seq<string>): (r: Image)
    ensures |r| > 0
  {
    if names == [] then [Byte(0)]
    else StrCells(names[..|names| - 1]) + (Text("_" + names[|names| - 1]) + [Byte(0)])
  }

  function WithSymbol(t: Table, name: string, kind: SymbolKind): Table
    requires t.symbols.Valid() && t.indexes.Valid()
  {
    var last := |t.strtable|;
    var (strtable, id) := Intern(t.strtable, name);
    if id == last then
      var symbols := t.symbols.Insert(id, BuilderFor(t.size, kind));
      Table(symbols, strtable, t.indexes.Insert(id, |symbols.keys| - 1), t.size + |name| + 1 + 1)
    else t.(strtable := strtable)
  }

  function IndexFor(t: Table, name: string): Option<nat>
    requires t.indexes.Valid()
  {
    match IndexOf(t.strtable, name)
    case None => None
    case Some(id) =>
      match IndexOf(t.indexes.keys, id)
      case None => None
      case Some(i) => Some(t.indexes.values[i])
  }

  function OffsetFor(t: Table, name: string): Option<nat>
    requires t.symbols.Valid()
  {
    match IndexOf(t.strtable, name)
    case None => None
    case Some(id) =>
      match IndexOf(t.symbols.keys, id)
      case None => None
      case Some(i) => Some(t.symbols.values[i].relative)
  }

  // ----- the invariant -----

  ghost predicate Counting(keys: seq<nat>) {
    forall i :: 0 <= i < |keys| ==> keys[i] == i + 1
  }

  /** Symbol `i` is string `i` + 1; its name starts where the earlier ones end. */
  ghost predicate Inv(t: Table, es: seq<Entry>) {
    && t.strtable == [""] + EntryNames(es)
    && Distinct(t.strtable)
    && t.symbols.Valid() && t.indexes.Valid()
    && |t.symbols.keys| == |t.indexes.keys| == |es|
    && Counting(t.symbols.keys) && Counting(t.indexes.keys)
    && (forall i :: 0 <= i < |es| ==> t.indexes.values[i] == i)
    && (forall i :: 0 <= i < |es| ==>
          t.symbols.values[i] == BuilderFor(|StrCells(EntryNames(es)[..i])|, es[i].kind))
    && t.size == |StrCells(EntryNames(es))|
  }

  lemma InvShapes(t: Table, es: seq<Entry>)
    requires Inv(t, es)
    ensures t.symbols.Valid() && t.indexes.Valid()
  {
  }

  function Added(es: seq<Entry>, e: Entry): seq<Entry> {
    if e.name == "" || e.name in EntryNames(es) then es else es + [e]
  }

  lemma StrCellsSnoc(names: seq<string>, s: string)
    ensures StrCells(names + [s]) == StrCells(names) + (Text("_" + s) + [Byte(0)])
    ensures |StrCells(names + [s])| == |StrCells(names)| + |s| + 2
  {
  }

  lemma CountingKeys(keys: seq<nat>)
    requires Counting(keys)
    ensures Distinct(keys) && |keys| + 1 !in keys
  {
  }

  lemma KnownNames(t: Table, es: seq<Entry>, name: string)
    requires Inv(t, es)
    ensures name in t.strtable <==> name == "" || name in EntryNames(es)
    ensures name in t.strtable ==> Intern(t.strtable, name).1 < |t.strtable|
  {
  }

  /** Inserting a new name appends one symbol; a known one changes nothing. */
  lemma InsertKeeps(t: Table, es: seq<Entry>, e: Entry)
    requires Inv(t, es)
    ensures Inv(WithSymbol(t, e.name, e.kind), Added(es, e))
    ensures Added(es, e) == es ==> WithSymbol(t, e.name, e.kind) == t
  {
    hide StrCells, Counting, BuilderFor, IndexOf, Distinct;
    KnownNames(t, es, e.name);
    if e.name !in t.strtable {
      InsertNew(t, es, e);
    }
  }

  lemma InsertNew(t: Table, es: seq<Entry>, e: Entry)
    requires Inv(t, es) && e.name !in t.strtable
    ensures Inv(WithSymbol(t, e.name, e.kind), es + [e])
  {
    hide StrCells, IndexOf;
    var names := EntryNames(es);
    CountingKeys(t.symbols.keys);
    CountingKeys(t.indexes.keys);
    StrCellsSnoc(names, e.name);
    assert EntryNames(es + [e]) == names + [e.name];
    assert forall i :: 0 <= i <= |names| ==> (names + [e.name])[..i] == names[..i];
    assert names[..|names|] == names;
  }

  /** `index` is the position in the written table, `offset` what was inserted. */
  lemma LookupExact(t: Table, es: seq<Entry>, k: nat)
    requires Inv(t, es) && k < |es|
    ensures IndexFor(t, es[k].name) == Some(k)
    ensures OffsetFor(t, es[k].name) == Some(if es[k].kind.DefinedIn? then es[k].kind.relative else 0)
  {
    hide StrCells;
    assert t.strtable[k + 1] == EntryNames(es)[k];
    IndexOfDistinct(t.strtable, k + 1);
    assert t.indexes.keys[k] == k + 1 && t.symbols.keys[k] == k + 1;
    IndexOfDistinct(t.indexes.keys, k);
    IndexOfDistinct(t.symbols.keys, k);
  }

  lemma LookupMissing(t: Table, es: seq<Entry>, name: string)
    requires Inv(t, es) && name !in EntryNames(es)
    ensures IndexFor(t, name) == None && OffsetFor(t, name) == None
  {
  }

  // ----- reading names -----

  lemma {:induction false} StrHolds(names: seq<string>, k: nat, file: Image, start: nat)
    requires k < |names| && Holds(file, start, StrCells(names))
    ensures Holds(file, start + |StrCells(names[..k])|, Text("_" + names[k]) + [Byte(0)])
  {
    hide Holds;
    var front, last := names[..|names| - 1], names[|names| - 1];
    HoldsPart(file, start, StrCells(front), Text("_" + last) + [Byte(0)]);
    if k < |front| {
      StrHolds(front, k, file, start);
      assert front[..k] == names[..k];
    }
  }

  /** Reading at a symbol's name offset gives underscore plus the name. */
  lemma NameReads(names: seq<string>, k: nat, file: Image, start: nat)
    requires k < |names| && Holds(file, start, StrCells(names))
    ensures TextAt(file, start + |StrCells(names[..k])|) == Codes("_" + names[k]) <==> NoNul(names[k])
  {
    hide Holds, StrCells, TextAt;
    StrHolds(names, k, file, start);
    TextRoundTrip(file, start + |StrCells(names[..k])|, "_" + names[k]);
    UnderscoreNul(names[k]);
  }

  lemma UnderscoreNul(s: string)
    ensures NoNul("_" + s) <==> NoNul(s)
  {
    var t := "_" + s;
    assert forall i :: 0 <= i < |s| ==> s[i] == t[i + 1];
    assert forall i :: 1 <= i < |t| ==> t[i] == s[i - 1];
  }

  // ----- inserting a list -----

  function AddedAll(es: seq<Entry>, more: seq<Entry>): seq<Entry> {
    if more == [] then es
    else Added(AddedAll(es, more[..|more| - 1]), more[|more| - 1])
  }

  /** Names that are distinct and not empty are all appended. */
  ghost predicate Insertable(es: seq<Entry>) {
    Distinct(EntryNames(es)) && forall i :: 0 <= i < |es| ==> es[i].name != ""
  }

  lemma {:induction false} AddedAllExact(es: seq<Entry>, more: seq<Entry>)
    requires Insertable(es + more)
    ensures AddedAll(es, more) == es + more
  {
    if more == [] {
      assert es + more == es;
    } else {
      var front, last := more[..|more| - 1], more[|more| - 1];
      assert es + more == (es + front) + [last];
      InsertablePrefix(es + front, last);
      AddedAllExact(es, front);
    }
  }

  lemma InsertablePrefix(es: seq<Entry>, e: Entry)
    requires Insertable(es + [e])
    ensures Insertable(es) && e.name != "" && e.name !in EntryNames(es)
  {
    assert EntryNames(es + [e]) == EntryNames(es) + [e.name];
    DistinctPrefix(EntryNames(es), [e.name]);
    assert (es + [e])[|es|] == e;
    assert forall i :: 0 <= i < |es| ==> (es + [e])[i] == es[i];
  }

  class SymbolTable {
    var symbols: IndexMap<nat, SymbolBuilder>
    var strtable: seq<string>
    var indexes: IndexMap<nat, nat>
    var strtableSize: nat
    ghost var entries: seq<Entry>

    ghost function Fields(): Table
      reads this
    {
      Table(symbols, strtable, indexes, strtableSize)
    }

    ghost predicate Valid()
      reads this
    {
      Inv(Fields(), entries)
    }

    constructor ()
      ensures Valid() && entries == []
    {
      strtable := Intern([], "").0;
      strtableSize := 1;
      symbols := IndexMap([], []);
      indexes := IndexMap([], []);
      entries := [];
    }

    method Insert(name: string, kind: SymbolKind)
      requires Valid()
      modifies this
      ensures Valid() && entries == Added(old(entries), Entry(name, kind))
      ensures Fields() == WithSymbol(old(Fields()), name, kind)
    {
      hide Inv, StrCells, IndexOf, IndexMap.Insert, Distinct, BuilderFor, Added;
      InvShapes(Fields(), entries);
      InsertKeeps(Fields(), entries, Entry(name, kind));
      var nameLen := |name| + 1 + 1;
      var lastIndex := |strtable|;
      var interned := Intern(strtable, name);
      var nameIndex := interned.1;
      strtable := interned.0;
      if nameIndex == lastIndex {
        symbols := symbols.Insert(nameIndex, BuilderFor(strtableSize, kind));
        indexes := indexes.Insert(nameIndex, |symbols.keys| - 1);
        strtableSize := strtableSize + nameLen;
      }
      entries := Added(entries, Entry(name, kind));
    }

    method Index(name: string) returns (r: Option<nat>)
      requires Valid()
      ensures r == IndexFor(Fields(), name)
      ensures r == IndexOf(EntryNames(entries), name)
    {
      LookupAnswers(Fields(), entries, name);
      var id := IndexOf(strtable, name);
      if id.None? {
        return None;
      }
      var i := IndexOf(indexes.keys, id.value);
      r := if i.Some? then Some(indexes.values[i.value]) else None;
    }

    method Offset(name: string) returns (r: Option<nat>)
      requires Valid()
      ensures r == OffsetFor(Fields(), name)
      ensures r.Some? <==> name in EntryNames(entries)
      ensures r.Some? ==> r == Some(RelativeOf(entries, name))
    {
      LookupAnswers(Fields(), entries, name);
      var id := IndexOf(strtable, name);
      if id.None? {
        return None;
      }
      var i := IndexOf(symbols.keys, id.value);
      r := if i.Some? then Some(symbols.values[i.value].relative) else None;
    }
  }

  /** The section-relative offset recorded for a name. */
  function RelativeOf(es: seq<Entry>, name: string): nat
    requires name in EntryNames(es)
  {
    var e := es[IndexOf(EntryNames(es), name).value];
    if e.kind.DefinedIn? then e.kind.relative else 0
  }

  lemma LookupAnswers(t: Table, es: seq<Entry>, name: string)
    requires Inv(t, es)
    ensures IndexFor(t, name) == IndexOf(EntryNames(es), name)
    ensures OffsetFor(t, name) == if name in EntryNames(es) then Some(RelativeOf(es, name)) else None
  {
    hide Inv;
    if name in EntryNames(es) {
      LookupExact(t, es, IndexOf(EntryNames(es), name).value);
    } else {
      LookupMissing(t, es, name);
    }
  }
}
