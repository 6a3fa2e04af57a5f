/** Declarations and how a repeated declaration merges into the earlier one. */
module Decls {
  import opened Collections

  datatype ImportKind = FunctionImport | DataImport

  datatype Scope = Global | Local | Weak

  datatype Visibility = Default | Protected | Hidden

  datatype DataType = RawBytes | CString

  datatype SectionKind = DataSection | DebugSection | TextSection

  /** Alignments are powers of two; debug builds of the setters insist on it. */
  ghost predicate IsPow2(n: nat) {
    n == 1 || (n > 1 && n % 2 == 0 && IsPow2(n / 2))
  }

  type Align = n: nat | IsPow2(n) witness 1

  datatype DefinedDecl =
    | FunctionDecl(scope: Scope, visibility: Visibility, align: Option<Align>)
    | DataDecl(scope: Scope, visibility: Visibility, writable: bool, datatyp: DataType, align: Option<Align>)
    | SectionDecl(kind: SectionKind, datatyp: DataType, align: Option<Align>)
  {
    predicate IsGlobal() {
      !SectionDecl? && scope == Global
    }

    /** Variant order of the derived comparison, which sorts definitions. */
    function Rank(): nat {
      match this
      case FunctionDecl(_, _, _) => 0
      case DataDecl(_, _, _, _, _) => 1
      case SectionDecl(_, _, _) => 2
    }
  }

  datatype Decl = Import(kind: ImportKind) | Defined(def: DefinedDecl) {
    predicate IsSection() {
      Defined? && def.SectionDecl?
    }
  }

  /** Merge `other` into `prev`; `None` is the incompatible-declaration error. */
  function Absorb(prev: Decl, other: Decl): (r: Option<Decl>) {
    match prev
    case Import(DataImport) =>
      (match other
       case Defined(DataDecl(_, _, _, _, _)) => Some(other)
       case Import(DataImport) => Some(prev)
       case _ => None)
    case Import(FunctionImport) =>
      (match other
       case Defined(FunctionDecl(_, _, _)) => Some(other)
       case Import(FunctionImport) => Some(prev)
       case _ => None)
    case Defined(DataDecl(_, _, _, _, _)) =>
      if other == Import(DataImport) || other == prev then Some(prev) else None
    case Defined(FunctionDecl(_, _, _)) =>
      if other == Import(FunctionImport) || other == prev then Some(prev) else None
    case _ =>
      if other == prev then Some(prev) else None
  }

  /** `b` says everything `a` does: it is `a`, or the definition `a` imports. */
  predicate Refines(a: Decl, b: Decl) {
    || a == b
    || (a == Import(DataImport) && b.Defined? && b.def.DataDecl?)
    || (a == Import(FunctionImport) && b.Defined? && b.def.FunctionDecl?)
  }

  /** `Absorb` computes exactly the least upper bound of the refinement order, and
      fails exactly when the two declarations have no upper bound at all. */
  lemma AbsorbIsJoin(a: Decl, b: Decl)
    ensures Absorb(a, b).None? <==> forall u :: !(Refines(a, u) && Refines(b, u))
    ensures Absorb(a, b).Some? ==>
              var j := Absorb(a, b).value;
              Refines(a, j) && Refines(b, j) && (forall u :: Refines(a, u) && Refines(b, u) ==> Refines(j, u))
  {
    if Absorb(a, b).Some? {
      assert Refines(a, Absorb(a, b).value) && Refines(b, Absorb(a, b).value);
    }
  }

  lemma JoinIsOneOf(a: Decl, b: Decl)
    ensures Absorb(a, b).Some? ==> Absorb(a, b).value == a || Absorb(a, b).value == b
  {
  }

  lemma RefinesTransitive(a: Decl, b: Decl, c: Decl)
    requires Refines(a, b) && Refines(b, c)
    ensures Refines(a, c)
  {
  }

  function Then(first: Option<Decl>, other: Decl): Option<Decl> {
    if first.Some? then Absorb(first.value, other) else None
  }

  function Before(prev: Decl, second: Option<Decl>): Option<Decl> {
    if second.Some? then Absorb(prev, second.value) else None
  }

  lemma AbsorbLaws(a: Decl, b: Decl, c: Decl)
    ensures Absorb(a, a) == Some(a)
    ensures Absorb(a, b) == Absorb(b, a)
    ensures Then(Absorb(a, b), c) == Before(a, Absorb(b, c))
  {
  }

  // ----- what the backends are handed -----

  datatype Data = Blob(bytes: seq<byte>) | ZeroInit(size: nat) {
    function FileSize(): nat {
      if Blob? then |bytes| else 0
    }
  }

  /** A `BTreeMap` from custom symbol name to section offset, in key order. */
  type CustomSymbols = s: seq<(string, nat)> | forall i, j :: 0 <= i < j < |s| ==> s[i].0 != s[j].0

  datatype Definition = Definition(name: string, data: Data, symbols: CustomSymbols, decl: DefinedDecl)

  datatype Reloc = Auto | Raw(reloc: nat, addend: int) | Debug(size: nat, dbgAddend: int)

  datatype Binding = Binding(name: string, decl: Decl)

  datatype LinkAndDecl = LinkAndDecl(from: Binding, to: Binding, at: nat, reloc: Reloc)

  /** The three iterations an emitter makes over an artifact, and its name. */
  datatype Input = Input(
    name: string,
    definitions: seq<Definition>,
    imports: seq<(string, ImportKind)>,
    links: seq<LinkAndDecl>)

  function Names(defs: seq<Definition>): (r: seq<string>)
    ensures |r| == |defs|
    ensures forall i :: 0 <= i < |defs| ==> r[i] == defs[i].name
  {
    seq(|defs|, i requires 0 <= i < |defs| => defs[i].name)
  }

  function ImportNames(imports: seq<(string, ImportKind)>): (r: seq<string>)
    ensures |r| == |imports|
    ensures forall i :: 0 <= i < |imports| ==> r[i] == imports[i].0
  {
    seq(|imports|, i requires 0 <= i < |imports| => imports[i].0)
  }

  /** Zero-initialised contents only for data, custom symbols only for sections. */
  predicate ContentsAllowed(d: Definition) {
    && (d.data.ZeroInit? ==> d.decl.DataDecl?)
    && (d.symbols != [] ==> d.decl.SectionDecl?)
  }

  /** Non-global definitions come first, each part sorted by variant. */
  function EmitOrder(d: DefinedDecl): nat {
    (if d.IsGlobal() then 3 else 0) + d.Rank()
  }

  ghost predicate DefinedAs(defs: seq<Definition>, b: Binding) {
    exists k :: 0 <= k < |defs| && defs[k].name == b.name && b.decl == Defined(defs[k].decl)
  }

  ghost predicate ImportedAs(imports: seq<(string, ImportKind)>, b: Binding) {
    exists k :: 0 <= k < |imports| && imports[k].0 == b.name && b.decl == Import(imports[k].1)
  }

  ghost predicate LinkResolves(i: Input, l: LinkAndDecl) {
    && DefinedAs(i.definitions, l.from)
    && (DefinedAs(i.definitions, l.to) || ImportedAs(i.imports, l.to))
  }

  /** What every artifact that may be emitted guarantees to a backend. */
  ghost predicate Coherent(i: Input) {
    && Distinct(Names(i.definitions) + ImportNames(i.imports))
    && (forall k :: 0 <= k < |i.definitions| ==> ContentsAllowed(i.definitions[k]))
    && (forall j, k :: 0 <= j < k < |i.definitions| ==>
          EmitOrder(i.definitions[j].decl) <= EmitOrder(i.definitions[k].decl))
    && (forall k :: 0 <= k < |i.links| ==> LinkResolves(i, i.links[k]))
  }
}
