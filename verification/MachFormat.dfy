/** Mach-O records, relocation packing, and a reader of Mach-O object files. */
module MachFormat {
  import opened Collections
  import opened ObjectFile

  datatype Container = Little | Big {
    function HeaderSize(): (n: nat) ensures n > 0 { if Big? then 32 else 28 }
    function SegmentSize(): (n: nat) ensures n > 0 { if Big? then 72 else 56 }
    function SectionSize(): (n: nat) ensures n > 0 { if Big? then 80 else 68 }
    function NlistSize(): (n: nat) ensures n > 0 { if Big? then 16 else 12 }
  }

  const SYMTAB_COMMAND_SIZE: nat := 24
  const RELOCATION_SIZE: nat := 8

  const NAME: nat := 16
  const WORD: nat := 4

  /** The records are as long as their fields; with `ptr` bytes for an address, 64-bit
      headers and sections have one more word in reserve. */
  lemma RecordSizes(c: Container)
    ensures var ptr, reserve := if c.Big? then 8 else 4, if c.Big? then WORD else 0;
            && c.HeaderSize() == 7 * WORD + reserve
            && c.SegmentSize() == 2 * WORD + NAME + 4 * ptr + 4 * WORD
            && c.SectionSize() == 2 * NAME + 2 * ptr + 7 * WORD + reserve
            && c.NlistSize() == WORD + 2 + 2 + ptr
    ensures SYMTAB_COMMAND_SIZE == 6 * WORD && RELOCATION_SIZE == 2 * WORD
  {
  }

  datatype Header = Header(ncmds: nat, sizeofcmds: nat)

  datatype SegmentCommand = SegmentCommand(cmdsize: nat, nsects: nat, fileoff: nat, filesize: nat, vmsize: nat)

  datatype Section = Section(
    sectname: string, segname: string, addr: nat, size: nat, offset: nat, align: nat, reloff: nat, nreloc: nat)

  datatype SymtabCommand = SymtabCommand(symoff: nat, nsyms: nat, stroff: nat, strsize: nat)

  /** `undefined` symbols have neither section nor value. */
  datatype Nlist = Nlist(strx: nat, external: bool, undefined: bool, sect: nat, value: nat)

  datatype RelocationInfo = RelocationInfo(address: nat, info: bv32)

  datatype Record =
    | HeaderRecord(header: Header)
    | SegmentRecord(segment: SegmentCommand)
    | SectionRecord(section: Section)
    | SymtabRecord(symtab: SymtabCommand)
    | NlistRecord(nlist: Nlist)
    | RelocRecord(reloc: RelocationInfo)

  type Image = File<Record>

  // ----- relocation packing -----

  /** The bit fields of `r_info`: 24 bits symbol, 1 pc-relative, 2 length, 1 extern, 4 type. */
  datatype RelocFields = RelocFields(symbol: bv32, pcrel: bool, length: bv32, external: bool, typ: bv32)

  function Bit(b: bool): bv32 { if b then 1 else 0 }

  function Pack(f: RelocFields): bv32 {
    f.symbol | (Bit(f.pcrel) << 24) | (f.length << 25) | (Bit(f.external) << 27) | (f.typ << 28)
  }

  function Unpack(info: bv32): RelocFields {
    RelocFields(info & 0xff_ffff, (info >> 24) & 1 == 1, (info >> 25) & 3, (info >> 27) & 1 == 1, info >> 28)
  }

  predicate InFields(f: RelocFields) {
    f.symbol < 0x100_0000 && f.length < 4 && f.typ < 16
  }

  /** Unpacking recovers the fields exactly when each fits its width. */
  lemma PackRoundTrip(f: RelocFields)
    ensures Unpack(Pack(f)) == f <==> InFields(f)
  {
  }

  /** So distinct fields give distinct words. */
  lemma PackInjective(f: RelocFields, g: RelocFields)
    requires InFields(f) && InFields(g) && Pack(f) == Pack(g)
    ensures f == g
  {
  }

  function Octet(n: nat): bv8 {
    (n % 0x100) as bv8
  }

  function OctetValue(o: bv8): nat {
    o as int
  }

  /** `n as u32`, octet by octet. */
  function Word(n: nat): bv32 {
    ((Octet(n / 0x100_0000) as bv32) << 24) | ((Octet(n / 0x1_0000) as bv32) << 16)
    | ((Octet(n / 0x100) as bv32) << 8) | (Octet(n) as bv32)
  }

  /** The number in the low 24 bits. */
  function Low24(w: bv32): nat {
    OctetValue(((w >> 16) & 0xff) as bv8) * 0x1_0000 + OctetValue(((w >> 8) & 0xff) as bv8) * 0x100 +
      OctetValue((w & 0xff) as bv8)
  }

  lemma OctetRoundTrip(n: nat)
    requires n < 0x100
    ensures OctetValue(Octet(n)) == n
  {
  }

  lemma OctetsOf(a: bv8, b: bv8, c: bv8)
    ensures var w := ((0 as bv8 as bv32) << 24) | ((a as bv32) << 16) | ((b as bv32) << 8) | (c as bv32);
            && w < 0x100_0000
            && ((w >> 16) & 0xff) as bv8 == a
            && ((w >> 8) & 0xff) as bv8 == b
            && (w & 0xff) as bv8 == c
  {
  }

  lemma ZeroOctet()
    ensures Octet(0) == 0
  {
  }

  lemma OctetMod(n: nat)
    ensures Octet(n) == Octet(n % 0x100)
  {
  }

  /** Below 2^24 the word keeps the number. */
  lemma WordExact(n: nat)
    requires n < 0x100_0000
    ensures Word(n) < 0x100_0000
    ensures Low24(Word(n)) == n
  {
    hide Octet, OctetValue;
    var a, b, c := n / 0x1_0000, n / 0x100 % 0x100, n % 0x100;
    assert n / 0x100_0000 == 0 && a < 0x100;
    assert n == a * 0x1_0000 + b * 0x100 + c;
    ZeroOctet();
    OctetMod(n / 0x100);
    OctetMod(n);
    OctetRoundTrip(a);
    OctetRoundTrip(b);
    OctetRoundTrip(c);
    OctetsOf(Octet(a), Octet(b), Octet(c));
  }

  /** `RelocationBuilder::create`; `None` is the unsupported-size panic. */
  function CreateRelocation(symbol: nat, address: nat, absolute: bool, size: nat, typ: nat): Option<RelocationInfo> {
    if size != 0 && size != 4 && size != 8 then None
    else
      var length: bv32 := if size == 0 then (if absolute then 3 else 2) else if size == 4 then 2 else 3;
      Some(RelocationInfo(address, Pack(RelocFields(Word(symbol), !absolute, length, true, Octet(typ) as bv32))))
  }

  function SymbolNumber(r: RelocationInfo): nat {
    Low24(r.info)
  }

  lemma PackKeepsSymbol(f: RelocFields)
    ensures Low24(Pack(f)) == Low24(f.symbol)
  {
  }

  lemma TypeWord(typ: nat)
    requires typ < 16
    ensures (Octet(typ) as bv32) < 16
  {
    hide Octet, OctetValue;
    OctetRoundTrip(typ);
    SmallOctet(Octet(typ));
  }

  lemma SmallOctet(o: bv8)
    requires OctetValue(o) < 16
    ensures (o as bv32) < 16
  {
  }

  /** A relocation built for a symbol and a type that fit reads back as built. */
  lemma RelocationReads(symbol: nat, address: nat, absolute: bool, size: nat, typ: nat)
    requires symbol < 0x100_0000 && typ < 16 && size in {0, 4, 8}
    ensures var r := CreateRelocation(symbol, address, absolute, size, typ).value;
            && r.address == address
            && SymbolNumber(r) == symbol
            && Unpack(r.info).external
            && Unpack(r.info).pcrel == !absolute
            && Unpack(r.info).typ == Octet(typ) as bv32
            && Unpack(r.info).length == (if size == 8 || (size == 0 && absolute) then 3 else 2)
  {
    hide Word, Pack, Unpack, Low24, Octet;
    WordExact(symbol);
    TypeWord(typ);
    var length: bv32 := if size == 0 then (if absolute then 3 else 2) else if size == 4 then 2 else 3;
    var f := RelocFields(Word(symbol), !absolute, length, true, Octet(typ) as bv32);
    PackRoundTrip(f);
    PackKeepsSymbol(f);
  }

  /** The symbol number survives even a type that does not fit its bits. */
  lemma SymbolSurvives(symbol: nat, address: nat, absolute: bool, size: nat, typ: nat)
    requires symbol < 0x100_0000 && size in {0, 4, 8}
    ensures SymbolNumber(CreateRelocation(symbol, address, absolute, size, typ).value) == symbol
  {
    hide Word, Pack, Low24, Octet;
    WordExact(symbol);
    var length: bv32 := if size == 0 then (if absolute then 3 else 2) else if size == 4 then 2 else 3;
    PackKeepsSymbol(RelocFields(Word(symbol), !absolute, length, true, Octet(typ) as bv32));
  }

  /** The number in the type field: four bits of the type are left. */
  function TypeNumber(r: RelocationInfo): nat {
    OctetValue((r.info >> 28) as bv8)
  }

  /** The bytes of the field that a relocation patches. */
  function FieldWidth(r: RelocationInfo): nat {
    var length := Unpack(r.info).length;
    if length == 0 then 1 else if length == 1 then 2 else if length == 2 then 4 else 8
  }

  lemma LowNibble(o: bv8)
    ensures OctetValue(o & 15) == OctetValue(o) % 16
  {
  }

  lemma PackKeepsRest(f: RelocFields, o: bv8)
    requires f.symbol < 0x100_0000 && f.length < 4 && f.typ == o as bv32
    ensures var g := Unpack(Pack(f));
            && g.pcrel == f.pcrel && g.length == f.length && g.external == f.external
            && (Pack(f) >> 28) as bv8 == o & 15
  {
  }

  lemma Mod16(n: nat)
    ensures n % 0x100 % 16 == n % 16
  {
  }

  lemma TypeNibble(typ: nat)
    ensures OctetValue(Octet(typ) & 15) == typ % 16
  {
    hide Octet, OctetValue;
    LowNibble(Octet(typ));
    OctetMod(typ);
    OctetRoundTrip(typ % 0x100);
    Mod16(typ);
  }

  /** All other fields survive too; of the type, four bits do. */
  lemma FieldsSurvive(symbol: nat, address: nat, absolute: bool, size: nat, typ: nat)
    requires symbol < 0x100_0000 && size in {0, 4, 8}
    ensures var r := CreateRelocation(symbol, address, absolute, size, typ).value;
            && Unpack(r.info).external
            && Unpack(r.info).pcrel == !absolute
            && TypeNumber(r) == typ % 16
            && FieldWidth(r) == if size == 0 then (if absolute then 8 else 4) else size
  {
    hide Word, Pack, Unpack, Octet, OctetValue;
    WordExact(symbol);
    var length: bv32 := if size == 0 then (if absolute then 3 else 2) else if size == 4 then 2 else 3;
    PackKeepsRest(RelocFields(Word(symbol), !absolute, length, true, Octet(typ) as bv32), Octet(typ));
    TypeNibble(typ);
  }

  // ----- record lists -----

  function SectionRecords(ss: seq<Section>): (r: seq<Record>)
    ensures |r| == |ss| && forall i :: 0 <= i < |ss| ==> r[i] == SectionRecord(ss[i])
  {
    seq(|ss|, i requires 0 <= i < |ss| => SectionRecord(ss[i]))
  }

  function NlistRecords(ss: seq<Nlist>): (r: seq<Record>)
    ensures |r| == |ss| && forall i :: 0 <= i < |ss| ==> r[i] == NlistRecord(ss[i])
  {
    seq(|ss|, i requires 0 <= i < |ss| => NlistRecord(ss[i]))
  }

  function RelocRecords(rs: seq<RelocationInfo>): (r: seq<Record>)
    ensures |r| == |rs| && forall i :: 0 <= i < |rs| ==> r[i] == RelocRecord(rs[i])
  {
    seq(|rs|, i requires 0 <= i < |rs| => RelocRecord(rs[i]))
  }

  // ----- the reader -----

  function HeaderIn(c: Container, file: Image): Option<Header> {
    var r := RecordAt(file, 0, c.HeaderSize());
    if r.Some? && r.value.HeaderRecord? then Some(r.value.header) else None
  }

  function SegmentIn(c: Container, file: Image): Option<SegmentCommand> {
    var r := RecordAt(file, c.HeaderSize(), c.SegmentSize());
    if r.Some? && r.value.SegmentRecord? then Some(r.value.segment) else None
  }

  function SectionsIn(c: Container, file: Image, n: nat): Option<seq<Section>> {
    match RecordsAt(file, c.HeaderSize() + c.SegmentSize(), n, c.SectionSize())
    case Some(rs) =>
      if forall i :: 0 <= i < |rs| ==> rs[i].SectionRecord?
      then Some(seq(|rs|, i requires 0 <= i < |rs| => rs[i].section)) else None
    case None => None
  }

  function SymtabIn(file: Image, off: nat): Option<SymtabCommand> {
    var r := RecordAt(file, off, SYMTAB_COMMAND_SIZE);
    if r.Some? && r.value.SymtabRecord? then Some(r.value.symtab) else None
  }

  function NlistsIn(c: Container, file: Image, off: nat, n: nat): Option<seq<Nlist>> {
    match RecordsAt(file, off, n, c.NlistSize())
    case Some(rs) =>
      if forall i :: 0 <= i < |rs| ==> rs[i].NlistRecord?
      then Some(seq(|rs|, i requires 0 <= i < |rs| => rs[i].nlist)) else None
    case None => None
  }

  function RelocationsIn(file: Image, s: Section): Option<seq<RelocationInfo>> {
    match RecordsAt(file, s.reloff, s.nreloc, RELOCATION_SIZE)
    case Some(rs) =>
      if forall i :: 0 <= i < |rs| ==> rs[i].RelocRecord?
      then Some(seq(|rs|, i requires 0 <= i < |rs| => rs[i].reloc)) else None
    case None => None
  }

  datatype Parsed = Parsed(
    header: Header,
    segment: SegmentCommand,
    sections: seq<Section>,
    symtab: SymtabCommand,
    symbols: seq<Nlist>)

  function Parse(c: Container, file: Image): Option<Parsed> {
    match HeaderIn(c, file)
    case None => None
    case Some(header) =>
      match SegmentIn(c, file)
      case None => None
      case Some(segment) =>
        match SectionsIn(c, file, segment.nsects)
        case None => None
        case Some(sections) =>
          match SymtabIn(file, c.HeaderSize() + segment.cmdsize)
          case None => None
          case Some(symtab) =>
            match NlistsIn(c, file, symtab.symoff, symtab.nsyms)
            case None => None
            case Some(symbols) => Some(Parsed(header, segment, sections, symtab, symbols))
  }
}
