/** ELF records, the two small record builders, and a reader of ELF files. */
module ElfFormat {
  import opened Collections
  import opened ObjectFile
  import opened Decls

  /** The container size; it fixes every record size and the pointer size. */
  datatype Class = Elf32 | Elf64 {
    function EhdrSize(): (n: nat) ensures n > 0 { if Elf64? then 64 else 52 }
    function ShdrSize(): (n: nat) ensures n > 0 { if Elf64? then 64 else 40 }
    function SymSize(): (n: nat) ensures n > 0 { if Elf64? then 24 else 16 }
    function RelaSize(): (n: nat) ensures n > 0 { if Elf64? then 24 else 12 }
    function Ptr(): (n: nat) ensures n == 4 || n == 8 { if Elf64? then 8 else 4 }
  }

  const BYTE: nat := 1
  const HALF: nat := 2
  const WORD: nat := 4

  /** The records are as long as their fields, in the order the System V gABI lists them. */
  lemma RecordSizes(cls: Class)
    ensures cls.EhdrSize() == 16 * BYTE + 2 * HALF + WORD + 3 * cls.Ptr() + WORD + 6 * HALF
    ensures cls.ShdrSize() == 2 * WORD + 4 * cls.Ptr() + 2 * WORD + 2 * cls.Ptr()
    ensures cls.SymSize() == WORD + 2 * BYTE + HALF + 2 * cls.Ptr()
    ensures cls.RelaSize() == 3 * cls.Ptr()
  {
  }

  const SHN_LORESERVE: nat := 0xff00
  const SHN_ABS: nat := 0xfff1
  const SHN_XINDEX: nat := 0xffff

  const STRTAB_LINK: nat := 1
  const SYMTAB_LINK: nat := 2
  /** Null, `.strtab` and `.symtab` precede the artifact's own sections. */
  const FIRST_SECTION: nat := 3

  datatype Bind = StbLocal | StbGlobal | StbWeak

  datatype SymType = NoType | Object | Func | SectionType | FileType

  datatype Symbol = Symbol(name: nat, bind: Bind, typ: SymType, size: nat, shndx: nat, value: nat)

  datatype ShType = ShtNull | ProgBits | SymTab | StrTab | Rela | NoBits | SymTabShndx

  datatype Shdr = Shdr(name: nat, typ: ShType, offset: nat, size: nat, link: nat, info: nat, entsize: nat)

  datatype Relocation = Relocation(offset: nat, sym: nat, typ: nat, addend: int)

  datatype Ehdr = Ehdr(shoff: nat, shnum: nat, shstrndx: nat)

  datatype Record =
    | EhdrRecord(ehdr: Ehdr)
    | ShdrRecord(shdr: Shdr)
    | SymRecord(symbol: Symbol)
    | RelaRecord(rela: Relocation)
    | WordRecord(word: nat)

  type Image = File<Record>

  const NullSymbol := Symbol(0, StbLocal, NoType, 0, 0, 0)
  const NullHeader := Shdr(0, ShtNull, 0, 0, 0, 0, 0)

  // ----- SymbolBuilder and SectionBuilder -----

  datatype SymbolSource = FromDecl(decl: DefinedDecl) | FromImport | FromSection | FromFile | FromNothing

  function ScopeBind(s: Scope): Bind {
    match s
    case Local => StbLocal
    case Global => StbGlobal
    case Weak => StbWeak
  }

  function CreateSymbol(src: SymbolSource, name: nat, size: nat, shndx: nat, value: nat): Symbol {
    match src
    case FromDecl(FunctionDecl(scope, _, _)) => Symbol(name, ScopeBind(scope), Func, size, shndx, value)
    case FromDecl(DataDecl(scope, _, _, _, _)) => Symbol(name, ScopeBind(scope), Object, size, shndx, value)
    case FromImport => Symbol(name, StbGlobal, NoType, size, shndx, value)
    case FromDecl(SectionDecl(_, _, _)) => Symbol(name, StbLocal, SectionType, size, shndx, value)
    case FromSection => Symbol(name, StbLocal, SectionType, size, shndx, value)
    case FromFile => Symbol(name, StbLocal, FileType, size, SHN_ABS, value)
    case FromNothing => Symbol(name, StbLocal, NoType, size, shndx, value)
  }

  /** Size, type and entry size as `SectionBuilder::create` fills them in. */
  function CreateSection(cls: Class, typ: ShType, size: nat, name: nat): (r: Shdr)
    ensures r.typ == typ
  {
    var entsize :=
      match typ
      case SymTab => cls.SymSize()
      case Rela => cls.RelaSize()
      case SymTabShndx => 4
      case _ => 0;
    Shdr(name, typ, 0, size, 0, 0, entsize)
  }

  // ----- record lists -----

  function ShdrRecords(hs: seq<Shdr>): (r: seq<Record>)
    ensures |r| == |hs| && forall i :: 0 <= i < |hs| ==> r[i] == ShdrRecord(hs[i])
  {
    seq(|hs|, i requires 0 <= i < |hs| => ShdrRecord(hs[i]))
  }

  function SymRecords(ss: seq<Symbol>): (r: seq<Record>)
    ensures |r| == |ss| && forall i :: 0 <= i < |ss| ==> r[i] == SymRecord(ss[i])
  {
    seq(|ss|, i requires 0 <= i < |ss| => SymRecord(ss[i]))
  }

  function RelaRecords(rs: seq<Relocation>): (r: seq<Record>)
    ensures |r| == |rs| && forall i :: 0 <= i < |rs| ==> r[i] == RelaRecord(rs[i])
  {
    seq(|rs|, i requires 0 <= i < |rs| => RelaRecord(rs[i]))
  }

  function WordRecords(ws: seq<nat>): (r: seq<Record>)
    ensures |r| == |ws| && forall i :: 0 <= i < |ws| ==> r[i] == WordRecord(ws[i])
  {
    seq(|ws|, i requires 0 <= i < |ws| => WordRecord(ws[i]))
  }

  // ----- the reader, following the System V gABI, chapter 4 -----

  function EhdrOf(cls: Class, file: Image): Option<Ehdr> {
    var r := RecordAt(file, 0, cls.EhdrSize());
    if r.Some? && r.value.EhdrRecord? then Some(r.value.ehdr) else None
  }

  function ShdrAt(cls: Class, file: Image, off: nat): Option<Shdr> {
    var r := RecordAt(file, off, cls.ShdrSize());
    if r.Some? && r.value.ShdrRecord? then Some(r.value.shdr) else None
  }

  /** `e_shnum`, which stays below the reserved values, or the size field of header 0 when
      it is zero. */
  function SectionCount(cls: Class, file: Image): Option<nat> {
    match EhdrOf(cls, file)
    case None => None
    case Some(e) =>
      if e.shnum >= 0xff00 then None
      else if e.shnum != 0 then Some(e.shnum)
      else
        match ShdrAt(cls, file, e.shoff)
        case Some(h) => Some(h.size)
        case None => None
  }

  function Headers(cls: Class, file: Image): Option<seq<Shdr>> {
    match SectionCount(cls, file)
    case None => None
    case Some(n) =>
      match RecordsAt(file, EhdrOf(cls, file).value.shoff, n, cls.ShdrSize())
      case Some(rs) =>
        if forall i :: 0 <= i < |rs| ==> rs[i].ShdrRecord?
        then Some(seq(|rs|, i requires 0 <= i < |rs| => rs[i].shdr)) else None
      case None => None
  }

  function SymbolsIn(cls: Class, file: Image, h: Shdr): Option<seq<Symbol>> {
    if h.entsize == 0 then None
    else
      match RecordsAt(file, h.offset, h.size / h.entsize, cls.SymSize())
      case Some(rs) =>
        if forall i :: 0 <= i < |rs| ==> rs[i].SymRecord?
        then Some(seq(|rs|, i requires 0 <= i < |rs| => rs[i].symbol)) else None
      case None => None
  }

  function WordsIn(file: Image, h: Shdr): Option<seq<nat>> {
    match RecordsAt(file, h.offset, h.size / 4, 4)
    case Some(rs) =>
      if forall i :: 0 <= i < |rs| ==> rs[i].WordRecord?
      then Some(seq(|rs|, i requires 0 <= i < |rs| => rs[i].word)) else None
    case None => None
  }

  function RelocationsIn(cls: Class, file: Image, h: Shdr): Option<seq<Relocation>> {
    if h.entsize == 0 then None
    else
      match RecordsAt(file, h.offset, h.size / h.entsize, cls.RelaSize())
      case Some(rs) =>
        if forall i :: 0 <= i < |rs| ==> rs[i].RelaRecord?
        then Some(seq(|rs|, i requires 0 <= i < |rs| => rs[i].rela)) else None
      case None => None
  }

  function Types(hs: seq<Shdr>): (r: seq<ShType>)
    ensures |r| == |hs| && forall i :: 0 <= i < |hs| ==> r[i] == hs[i].typ
  {
    seq(|hs|, i requires 0 <= i < |hs| => hs[i].typ)
  }

  /** A file as read: its headers, its symbol table, and the extended section
      indices if it has a table of them. */
  datatype Parsed = Parsed(
    headers: seq<Shdr>,
    shstrndx: nat,
    symtab: nat,
    symbols: seq<Symbol>,
    words: Option<seq<nat>>)

  function Parse(cls: Class, file: Image): Option<Parsed> {
    match Headers(cls, file)
    case None => None
    case Some(hs) =>
      match IndexOf(Types(hs), SymTab)
      case None => None
      case Some(t) =>
        match SymbolsIn(cls, file, hs[t])
        case None => None
        case Some(symbols) =>
          var strndx := EhdrOf(cls, file).value.shstrndx;
          match IndexOf(Types(hs), SymTabShndx)
          case None => Some(Parsed(hs, strndx, t, symbols, None))
          case Some(x) =>
            if hs[x].link != t then None else
            match WordsIn(file, hs[x])
            case Some(ws) => Some(Parsed(hs, strndx, t, symbols, Some(ws)))
            case None => None
  }

  /** The section a symbol belongs to: `st_shndx`, or its word in the
      SHT_SYMTAB_SHNDX table when that field holds SHN_XINDEX. */
  function EffectiveIndex(p: Parsed, i: nat): nat
    requires i < |p.symbols|
  {
    if p.symbols[i].shndx == SHN_XINDEX && p.words.Some? && i < |p.words.value|
    then p.words.value[i]
    else p.symbols[i].shndx
  }

  /** Text at offset `name` of the string table in section `strtab`. */
  function NameIn(p: Parsed, file: Image, strtab: nat, name: nat): seq<int> {
    if strtab < |p.headers| then TextAt(file, p.headers[strtab].offset + name) else []
  }

  function SymbolName(p: Parsed, file: Image, i: nat): seq<int>
    requires i < |p.symbols| && p.symtab < |p.headers|
  {
    NameIn(p, file, p.headers[p.symtab].link, p.symbols[i].name)
  }

  function SectionName(p: Parsed, file: Image, i: nat): seq<int>
    requires i < |p.headers|
  {
    NameIn(p, file, p.shstrndx, p.headers[i].name)
  }

  function Contents(p: Parsed, file: Image, i: nat): Option<Image>
    requires i < |p.headers|
  {
    var h := p.headers[i];
    if h.offset + h.size <= |file| then Some(file[h.offset..h.offset + h.size]) else None
  }
}
