/** Where the Mach-O backend puts each definition: the padding allocator of a
    section, the sections of the segment, and the symbols they give rise to. */
module MachLayout {
  import opened Collections
  import opened ObjectFile
  import opened Decls
  import opened MachFormat
  import opened MachSymbols

  // ----- powers of two -----

  function Pow2(n: nat): (r: nat)
    ensures r > 0
  {
    if n == 0 then 1 else 2 * Pow2(n - 1)
  }

  function Exponent(a: Align): (e: nat)
    ensures Pow2(e) == a
  {
    assert IsPow2(a);
    if a == 1 then 0
    else
      assert a % 2 == 0 && IsPow2(a / 2);
      1 + Exponent(a / 2)
  }

  lemma {:induction false} Pow2Monotone(a: nat, b: nat)
    requires a < b
    ensures Pow2(a) < Pow2(b)
  {
    if a + 1 < b {
      Pow2Monotone(a, b - 1);
    }
  }

  /** `align_to_align_exp`: count up until the power is reached. */
  method AlignExponent(align: Align) returns (exp: nat)
    ensures exp == Exponent(align)
  {
    exp := 0;
    while Pow2(exp) != align
      invariant exp <= Exponent(align)
      decreases Exponent(align) - exp
    {
      exp := exp + 1;
    }
    if exp < Exponent(align) {
      Pow2Monotone(exp, Exponent(align));
    }
  }

  lemma {:induction false} Pow2Divides(small: nat, large: nat)
    requires small <= large
    ensures exists q: nat :: Pow2(large) == q * Pow2(small)
  {
    if small == large {
      assert Pow2(large) == 1 * Pow2(small);
    } else {
      Pow2Divides(small, large - 1);
      var q: nat :| Pow2(large - 1) == q * Pow2(small);
      assert Pow2(large) == (2 * q) * Pow2(small);
    }
  }

  /** A multiple of a larger power of two is one of every smaller. */
  lemma MultipleOfSmaller(x: nat, small: nat, large: nat)
    requires small <= large && x % Pow2(large) == 0
    ensures x % Pow2(small) == 0
  {
    Pow2Divides(small, large);
    var q: nat :| Pow2(large) == q * Pow2(small);
    var n := x / Pow2(large);
    assert x == n * Pow2(large);
    Regroup(n, q, Pow2(small));
    Multiple(n * q, Pow2(small));
  }

  lemma Regroup(a: nat, b: nat, c: nat)
    ensures a * (b * c) == (a * b) * c
  {
  }

  // ----- the padding allocator -----

  function Max(a: nat, b: nat): nat { if a < b then b else a }

  function ExpOf(d: Definition): nat {
    match d.decl.align
    case None => 0
    case Some(a) => Exponent(a)
  }

  /** The alignment the place after definition `k` is padded to: looks ahead. */
  function NextExp(defs: seq<Definition>, k: nat, min: nat): nat {
    Max(min, if k + 1 < |defs| then ExpOf(defs[k + 1]) else 0)
  }

  /** Section-relative offset of definition `k`; at `|defs|`, the section's size. */
  function OffsetAt(defs: seq<Definition>, k: nat, min: nat): nat
    requires k <= |defs|
  {
    if k == 0 then 0
    else AlignUp(OffsetAt(defs, k - 1, min) + defs[k - 1].data.FileSize(), Pow2(NextExp(defs, k - 1, min)))
  }

  function PadAfter(defs: seq<Definition>, k: nat, min: nat): nat
    requires k < |defs|
  {
    OffsetAt(defs, k + 1, min) - OffsetAt(defs, k, min) - defs[k].data.FileSize()
  }

  /** The exponent recorded for the section: the largest one padded to. */
  function ExpUpTo(defs: seq<Definition>, k: nat, min: nat): nat
    requires k <= |defs|
  {
    if k == 0 then min else Max(ExpUpTo(defs, k - 1, min), NextExp(defs, k - 1, min))
  }

  lemma OffsetIsMultiple(defs: seq<Definition>, k: nat, min: nat)
    requires 0 < k <= |defs|
    ensures OffsetAt(defs, k, min) % Pow2(NextExp(defs, k - 1, min)) == 0
  {
  }

  /** Every definition lands on its own alignment and on the section's minimum. */
  lemma AllocatorAligns(defs: seq<Definition>, k: nat, min: nat)
    requires k <= |defs|
    ensures OffsetAt(defs, k, min) % Pow2(min) == 0
    ensures k < |defs| ==> OffsetAt(defs, k, min) % Pow2(ExpOf(defs[k])) == 0
  {
    hide ExpOf, Pow2, AlignUp;
    if k > 0 {
      var exp := NextExp(defs, k - 1, min);
      OffsetIsMultiple(defs, k, min);
      MultipleOfSmaller(OffsetAt(defs, k, min), min, exp);
      if k < |defs| {
        MultipleOfSmaller(OffsetAt(defs, k, min), ExpOf(defs[k]), exp);
      }
    }
  }

  /** Definitions lie in order, do not overlap, and waste less than one alignment. */
  lemma AllocatorOrders(defs: seq<Definition>, k: nat, min: nat)
    requires k < |defs|
    ensures OffsetAt(defs, k, min) + defs[k].data.FileSize() <= OffsetAt(defs, k + 1, min)
    ensures PadAfter(defs, k, min) < Pow2(NextExp(defs, k, min))
  {
  }

  /** The ranges are disjoint and lie in definition order. */
  lemma {:induction false} RangesDisjoint(defs: seq<Definition>, j: nat, k: nat, min: nat)
    requires j < k <= |defs|
    ensures OffsetAt(defs, j, min) + defs[j].data.FileSize() <= OffsetAt(defs, k, min)
  {
    hide OffsetAt, PadAfter, NextExp;
    AllocatorOrders(defs, k - 1, min);
    if j < k - 1 {
      RangesDisjoint(defs, j, k - 1, min);
    }
  }

  function MaxExp(defs: seq<Definition>, min: nat): nat {
    if defs == [] then min else Max(MaxExp(defs[..|defs| - 1], min), ExpOf(defs[|defs| - 1]))
  }

  lemma {:induction false} MaxExpCovers(defs: seq<Definition>, j: nat, min: nat)
    requires j < |defs|
    ensures ExpOf(defs[j]) <= MaxExp(defs, min)
  {
    hide ExpOf;
    if j < |defs| - 1 {
      MaxExpCovers(defs[..|defs| - 1], j, min);
    }
  }

  lemma {:induction false} MinCovered(defs: seq<Definition>, min: nat)
    ensures min <= MaxExp(defs, min)
  {
    if defs != [] {
      MinCovered(defs[..|defs| - 1], min);
    }
  }

  /** The section's exponent is the largest of all definitions but the first. */
  lemma {:induction false} ExpIsMaxOfRest(defs: seq<Definition>, k: nat, min: nat)
    requires k < |defs|
    ensures ExpUpTo(defs, k, min) == MaxExp(defs[1..k + 1], min)
    ensures ExpUpTo(defs, |defs|, min) == ExpUpTo(defs, |defs| - 1, min)
  {
    hide ExpOf;
    if k > 0 {
      ExpIsMaxOfRest(defs, k - 1, min);
      assert defs[1..k + 1][..k - 1] == defs[1..k];
      MinCovered(defs[1..k], min);
    }
    MinBelow(defs, |defs| - 1, min);
  }

  lemma MinBelow(defs: seq<Definition>, k: nat, min: nat)
    requires k <= |defs|
    ensures min <= ExpUpTo(defs, k, min)
  {
  }

  /** The section claims at least every definition's alignment. */
  ghost predicate SectionCovers(defs: seq<Definition>, min: nat) {
    forall j :: 0 <= j < |defs| ==> ExpOf(defs[j]) <= ExpUpTo(defs, |defs|, min)
  }

  /** The first definition is never looked ahead to: the claim holds exactly when a
      later definition, or the minimum, is at least as aligned as the first. */
  lemma SectionCoversIff(defs: seq<Definition>, min: nat)
    ensures SectionCovers(defs, min) <==> (defs == [] || ExpOf(defs[0]) <= MaxExp(defs[1..], min))
  {
    hide ExpOf, ExpUpTo, MaxExp;
    if defs != [] {
      ExpIsMaxOfRest(defs, |defs| - 1, min);
      assert defs[1..|defs|] == defs[1..];
      forall j | 0 < j < |defs|
        ensures ExpOf(defs[j]) <= ExpUpTo(defs, |defs|, min)
      {
        MaxExpCovers(defs[1..], j - 1, min);
      }
    }
  }

  /** A lone 32-byte aligned function in the text section is under-claimed. */
  lemma FirstAlignmentDropped()
    ensures !SectionCovers(LoneAligned(), 4)
  {
    assert Exponent(32) == 5;
    assert ExpOf(LoneAligned()[0]) == 5;
    assert LoneAligned()[1..] == [];
    SectionCoversIff(LoneAligned(), 4);
  }

  function LoneAligned(): seq<Definition> {
    assert IsPow2(2) && IsPow2(4) && IsPow2(8) && IsPow2(16) && IsPow2(32);
    [Definition("f", Blob([0xc3]), [], FunctionDecl(Local, Default, Some(32)))]
  }

  // ----- section contents -----

  function ContentsOf(d: Definition): (r: Image)
    ensures |r| == d.data.FileSize()
  {
    if d.data.Blob? then Bytes(d.data.bytes) else []
  }

  /** The first `k` definitions with the padding after each. */
  function CellsUpTo(defs: seq<Definition>, k: nat, min: nat, fill: int): (r: Image)
    requires k <= |defs|
    ensures |r| == OffsetAt(defs, k, min)
  {
    if k == 0 then []
    else CellsUpTo(defs, k - 1, min, fill) + (ContentsOf(defs[k - 1]) + Fill(fill, PadAfter(defs, k - 1, min)))
  }

  /** Definition `k`'s bytes are at its offset. */
  lemma {:induction false} ContentsHeld(defs: seq<Definition>, k: nat, n: nat, min: nat, fill: int, file: Image,
                                        start: nat)
    requires k < n <= |defs| && Holds(file, start, CellsUpTo(defs, n, min, fill))
    ensures Holds(file, start + OffsetAt(defs, k, min), ContentsOf(defs[k]))
  {
    hide Holds, OffsetAt, PadAfter, ContentsOf;
    var pad: Image := Fill(fill, PadAfter(defs, n - 1, min));
    HoldsPart(file, start, CellsUpTo(defs, n - 1, min, fill), ContentsOf(defs[n - 1]) + pad);
    if k < n - 1 {
      ContentsHeld(defs, k, n - 1, min, fill, file, start);
    } else {
      HoldsPart(file, start + OffsetAt(defs, k, min), ContentsOf(defs[k]), pad);
    }
  }

  // ----- the sections of the segment -----

  datatype Part = TextPart | DataPart | CStringPart | BssPart {
    function SectName(): string {
      match this
      case TextPart => "__text"
      case DataPart => "__data"
      case CStringPart => "__cstring"
      case BssPart => "__bss"
    }

    function SegName(): string {
      if TextPart? || CStringPart? then "__TEXT" else "__DATA"
    }

    function MinExp(): nat {
      if TextPart? then 4 else if DataPart? then 3 else 0
    }

    /** The byte written between definitions. */
    function Filler(): int {
      if TextPart? then 0xcc else 0xaa
    }

    function Index(): nat {
      match this
      case TextPart => 0
      case DataPart => 1
      case CStringPart => 2
      case BssPart => 3
    }
  }

  const NUM_DEFAULT_SECTIONS: nat := 4

  function PartOf(d: Definition): Option<Part> {
    match d.decl
    case FunctionDecl(_, _, _) => Some(TextPart)
    case DataDecl(_, _, _, datatyp, _) =>
      if d.data.ZeroInit? then Some(BssPart)
      else if datatyp == CString then Some(CStringPart)
      else Some(DataPart)
    case SectionDecl(_, _, _) => None
  }

  /** The definitions that go to one part, in order; `None` selects custom sections. */
  function Select(defs: seq<Definition>, part: Option<Part>): seq<Definition> {
    if defs == [] then []
    else
      var front := Select(defs[..|defs| - 1], part);
      if PartOf(defs[|defs| - 1]) == part then front + [defs[|defs| - 1]] else front
  }

  datatype Chunk = BuiltIn(part: Part, defs: seq<Definition>) | Custom(def: Definition) {
    /** The key in the segment's map of sections. */
    function Key(): string {
      if BuiltIn? then part.SectName() else def.name
    }

    function SectName(): string {
      if BuiltIn? then part.SectName()
      else if ".debug" <= def.name then "__debug" + def.name[6..]
      else def.name
    }

    function SegName(): string {
      if BuiltIn? then part.SegName()
      else if !def.decl.SectionDecl? then ""
      else
        match def.decl.kind
        case DataSection => "__DATA"
        case DebugSection => "__DWARF"
        case TextSection => "__TEXT"
    }

    function Cells(): Image {
      if BuiltIn? then CellsUpTo(defs, |defs|, part.MinExp(), part.Filler()) else ContentsOf(def)
    }

    function Exp(): nat {
      if BuiltIn? then ExpUpTo(defs, |defs|, part.MinExp()) else ExpOf(def)
    }
  }

  function DataCells(chunks: seq<Chunk>): Image {
    if chunks == [] then [] else DataCells(chunks[..|chunks| - 1]) + chunks[|chunks| - 1].Cells()
  }

  /** Segment address of chunk `j`: the sizes before it. */
  function AddrOf(chunks: seq<Chunk>, j: nat): nat
    requires j <= |chunks|
  {
    |DataCells(chunks[..j])|
  }

  function Keys(chunks: seq<Chunk>): (r: seq<string>)
    ensures |r| == |chunks| && forall j :: 0 <= j < |r| ==> r[j] == chunks[j].Key()
  {
    seq(|chunks|, j requires 0 <= j < |chunks| => chunks[j].Key())
  }

  lemma {:induction false} ChunkHeld(chunks: seq<Chunk>, j: nat, file: Image, start: nat)
    requires j < |chunks| && Holds(file, start, DataCells(chunks))
    ensures Holds(file, start + AddrOf(chunks, j), chunks[j].Cells())
  {
    hide Holds, Chunk.Cells;
    var front, last := chunks[..|chunks| - 1], chunks[|chunks| - 1];
    HoldsPart(file, start, DataCells(front), last.Cells());
    if j < |front| {
      ChunkHeld(front, j, file, start);
      assert front[..j] == chunks[..j];
    }
  }

  lemma {:induction false} DataCellsSnoc(chunks: seq<Chunk>, c: Chunk)
    ensures DataCells(chunks + [c]) == DataCells(chunks) + c.Cells()
    ensures forall j :: 0 <= j <= |chunks| ==> AddrOf(chunks + [c], j) == AddrOf(chunks, j)
    ensures Keys(chunks + [c]) == Keys(chunks) + [c.Key()]
  {
    hide Chunk.Cells, Chunk.Key;
    assert (chunks + [c])[..|chunks + [c]| - 1] == chunks;
    assert forall j :: 0 <= j <= |chunks| ==> (chunks + [c])[..j] == chunks[..j];
  }

  /** Zero-initialised data takes no space in the file. */
  lemma {:induction false} BssIsEmpty(defs: seq<Definition>, k: nat)
    requires k <= |defs| && forall j :: 0 <= j < |defs| ==> defs[j].data.ZeroInit?
    ensures OffsetAt(defs, k, 0) == 0
  {
    hide ExpOf;
    if k > 0 {
      BssIsEmpty(defs, k - 1);
    }
  }

  // ----- symbols -----

  /** One symbol per definition of a built-in section starting at `base`. */
  function SectionEntries(defs: seq<Definition>, min: nat, section: nat, base: nat): (r: seq<Entry>)
    ensures |r| == |defs|
    ensures forall k :: 0 <= k < |r| ==>
              r[k] ==
                Entry(defs[k].name,
                      DefinedIn(section, base + OffsetAt(defs, k, min), OffsetAt(defs, k, min),
                                defs[k].decl.IsGlobal()))
  {
    seq(|defs|, k requires 0 <= k < |defs| =>
      Entry(defs[k].name,
            DefinedIn(section, base + OffsetAt(defs, k, min), OffsetAt(defs, k, min), defs[k].decl.IsGlobal())))
  }

  function CustomEntries(d: Definition, section: nat, base: nat): (r: seq<Entry>)
    ensures |r| == |d.symbols|
    ensures forall k :: 0 <= k < |r| ==>
              r[k] == Entry(d.symbols[k].0, DefinedIn(section, base + d.symbols[k].1, d.symbols[k].1, true))
  {
    seq(|d.symbols|, k requires 0 <= k < |d.symbols| =>
      Entry(d.symbols[k].0, DefinedIn(section, base + d.symbols[k].1, d.symbols[k].1, true)))
  }

  function ChunkEntries(c: Chunk, section: nat, base: nat): seq<Entry> {
    if c.BuiltIn? then SectionEntries(c.defs, c.part.MinExp(), section, base) else CustomEntries(c.def, section, base)
  }

  function EntriesOf(chunks: seq<Chunk>): seq<Entry> {
    if chunks == [] then []
    else
      var n := |chunks| - 1;
      EntriesOf(chunks[..n]) + ChunkEntries(chunks[n], n, AddrOf(chunks, n))
  }

  function ImportEntries(imports: seq<(string, ImportKind)>): (r: seq<Entry>)
    ensures |r| == |imports| && forall k :: 0 <= k < |r| ==> r[k] == Entry(imports[k].0, UndefinedSymbol)
  {
    seq(|imports|, k requires 0 <= k < |imports| => Entry(imports[k].0, UndefinedSymbol))
  }

  function CustomChunks(defs: seq<Definition>): (r: seq<Chunk>)
    ensures |r| == |defs| && forall k :: 0 <= k < |r| ==> r[k] == Custom(defs[k])
  {
    seq(|defs|, k requires 0 <= k < |defs| => Custom(defs[k]))
  }

  /** The segment an artifact becomes. */
  function ChunksOf(i: Input): seq<Chunk> {
    [BuiltIn(TextPart, Select(i.definitions, Some(TextPart))),
     BuiltIn(DataPart, Select(i.definitions, Some(DataPart))),
     BuiltIn(CStringPart, Select(i.definitions, Some(CStringPart))),
     BuiltIn(BssPart, Select(i.definitions, Some(BssPart)))]
    + CustomChunks(Select(i.definitions, None))
  }

  function AllEntries(i: Input): seq<Entry> {
    EntriesOf(ChunksOf(i)) + ImportEntries(i.imports)
  }
}
