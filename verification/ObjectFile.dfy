/** The byte image of an object file. Every cell is one byte of the file: either
    a plain byte, or byte number `index` of a fixed-size record whose field
    encoding is foreign code. Positions are byte-exact; records are opaque. */
module ObjectFile {
  import opened Collections

  datatype Cell<R> = Byte(value: int) | Part(record: R, index: nat)

  type File<R> = seq<Cell<R>>

  // ----- pieces a writer emits -----

  function Encode<R>(r: R, size: nat): (c: File<R>)
    ensures |c| == size
  {
    seq(size, i requires 0 <= i => Part(r, i))
  }

  function Records<R>(rs: seq<R>, size: nat): (c: File<R>)
    ensures |c| == |rs| * size
  {
    if rs == [] then []
    else
      assert |rs| * size == (|rs| - 1) * size + size;
      Records(rs[..|rs| - 1], size) + Encode(rs[|rs| - 1], size)
  }

  function Bytes<R>(b: seq<byte>): (c: File<R>)
    ensures |c| == |b|
    ensures forall i :: 0 <= i < |b| ==> c[i] == Byte(b[i])
  {
    seq(|b|, i requires 0 <= i < |b| => Byte(b[i]))
  }

  /** The character codes of a name; each character stands for one byte of it. */
  function Codes(s: string): (c: seq<int>)
    ensures |c| == |s|
    ensures forall i :: 0 <= i < |s| ==> c[i] == s[i] as int
  {
    seq(|s|, i requires 0 <= i < |s| => s[i] as int)
  }

  lemma CodesInjective(s: string, t: string)
    requires Codes(s) == Codes(t)
    ensures s == t
  {
  }

  function Text<R>(s: string): (c: File<R>)
    ensures |c| == |s|
    ensures forall i :: 0 <= i < |s| ==> c[i] == Byte(s[i] as int)
  {
    seq(|s|, i requires 0 <= i < |s| => Byte(s[i] as int))
  }

  function Fill<R>(value: int, n: nat): (c: File<R>)
    ensures |c| == n
    ensures forall i :: 0 <= i < n ==> c[i] == Byte(value)
  {
    seq(n, i requires 0 <= i => Byte(value))
  }

  // ----- the reader -----

  /** The record whose first byte is at `off`, if a whole one is there. */
  function RecordAt<R(==)>(file: File<R>, off: nat, size: nat): Option<R> {
    if 0 < size && off + size <= |file| && file[off].Part? &&
       forall i :: 0 <= i < size ==> file[off + i] == Part(file[off].record, i)
    then Some(file[off].record)
    else None
  }

  /** `count` consecutive records starting at `off`. */
  function RecordsAt<R(==)>(file: File<R>, off: nat, count: nat, size: nat): (r: Option<seq<R>>)
    ensures r.Some? ==> |r.value| == count
  {
    if count == 0 then Some([])
    else
      var front := RecordsAt(file, off, count - 1, size);
      var last := RecordAt(file, off + (count - 1) * size, size);
      if front.Some? && last.Some? then Some(front.value + [last.value]) else None
  }

  /** The byte values from `off` up to the next NUL (or the end of the bytes). */
  function TextAt<R>(file: File<R>, off: nat): seq<int>
    decreases |file| - off
  {
    if off < |file| && file[off].Byte? && file[off].value != 0
    then [file[off].value] + TextAt(file, off + 1)
    else []
  }

  ghost predicate Holds<R>(file: File<R>, off: nat, piece: File<R>) {
    off + |piece| <= |file| && file[off..off + |piece|] == piece
  }

  lemma HoldsPart<R>(file: File<R>, off: nat, a: File<R>, b: File<R>)
    requires Holds(file, off, a + b)
    ensures Holds(file, off, a) && Holds(file, off + |a|, b)
  {
    assert file[off..off + |a|] == (a + b)[..|a|];
    assert file[off + |a|..off + |a| + |b|] == (a + b)[|a|..];
  }

  lemma RecordRead<R>(file: File<R>, off: nat, r: R, size: nat)
    requires 0 < size && Holds(file, off, Encode(r, size))
    ensures RecordAt(file, off, size) == Some(r)
  {
  }

  /** Reading back a run of records gives the records that were written. */
  lemma {:induction false} RecordsRoundTrip<R>(file: File<R>, off: nat, rs: seq<R>, size: nat)
    requires 0 < size
    requires Holds(file, off, Records(rs, size))
    ensures RecordsAt(file, off, |rs|, size) == Some(rs)
  {
    hide Holds, RecordAt, Encode;
    if rs != [] {
      var front, last := rs[..|rs| - 1], rs[|rs| - 1];
      HoldsPart(file, off, Records(front, size), Encode(last, size));
      RecordsRoundTrip(file, off, front, size);
      RecordRead(file, off + |Records(front, size)|, last, size);
      assert rs == front + [last];
    }
  }

  predicate NoNul(s: string) {
    forall i :: 0 <= i < |s| ==> s[i] as int != 0
  }

  function UpToNul(s: string): (r: string)
    ensures NoNul(s) <==> r == s
  {
    if s == [] || s[0] as int == 0 then []
    else
      assert NoNul(s) ==> NoNul(s[1..]);
      assert NoNul(s[1..]) ==> NoNul(s) by {
        assert forall i :: 0 < i < |s| ==> s[i] == s[1..][i - 1];
      }
      [s[0]] + UpToNul(s[1..])
  }

  /** Reading at the start of NUL-terminated text gives it up to its first NUL. */
  lemma {:induction false} TextRead<R>(file: File<R>, off: nat, s: string)
    requires Holds(file, off, Text(s) + [Byte(0)])
    ensures TextAt(file, off) == Codes(UpToNul(s))
    decreases |s|
  {
    var piece: File<R> := Text(s) + [Byte(0)];
    assert file[off] == file[off..off + |piece|][0] == piece[0];
    if s != [] && s[0] as int != 0 {
      var rest: File<R> := Text(s[1..]) + [Byte(0)];
      assert rest == piece[1..];
      assert file[off + 1..off + 1 + |rest|] == file[off..off + |piece|][1..];
      TextRead(file, off + 1, s[1..]);
      assert Codes(UpToNul(s)) == [s[0] as int] + Codes(UpToNul(s[1..]));
    }
  }

  /** A name is recovered exactly when it contains no NUL. */
  lemma TextRoundTrip<R>(file: File<R>, off: nat, s: string)
    requires Holds(file, off, Text(s) + [Byte(0)])
    ensures TextAt(file, off) == Codes(s) <==> NoNul(s)
  {
    TextRead(file, off, s);
    if TextAt(file, off) == Codes(s) {
      CodesInjective(UpToNul(s), s);
    }
  }

  // ----- the seekable output -----

  /** What a write of `data` at `pos` leaves: bytes past the end are zero-filled. */
  function Overwrite<R>(cells: File<R>, pos: nat, data: File<R>): (r: File<R>)
    ensures pos == |cells| ==> r == cells + data
    ensures pos >= |cells| && data != [] ==> r == cells + Fill(0, pos - |cells|) + data
  {
    if data == [] then cells
    else if pos >= |cells| then cells + Fill(0, pos - |cells|) + data
    else if pos + |data| >= |cells| then cells[..pos] + data
    else cells[..pos] + data + cells[pos + |data|..]
  }

  /** Two writes in a row are one write. */
  lemma OverwriteTwice<R>(cells: File<R>, pos: nat, a: File<R>, b: File<R>)
    requires pos >= |cells|
    ensures Overwrite(Overwrite(cells, pos, a), pos + |a|, b) == Overwrite(cells, pos, a + b)
  {
  }

  /** Writing at or past the end keeps everything and places the data. */
  lemma OverwriteHolds<R>(cells: File<R>, pos: nat, data: File<R>)
    requires pos >= |cells|
    ensures var r := Overwrite(cells, pos, data);
            && cells <= r
            && (data == [] ==> r == cells)
            && (data != [] ==> |r| == pos + |data| && Holds(r, pos, data))
  {
  }

  lemma HoldsLater<R>(file: File<R>, later: File<R>, off: nat, piece: File<R>)
    requires Holds(file, off, piece) && file <= later
    ensures Holds(later, off, piece)
  {
  }

  class Output<R> {
    var cells: File<R>
    var pos: nat

    constructor ()
      ensures cells == [] && pos == 0
    {
      cells, pos := [], 0;
    }

    method Seek(start: nat)
      modifies this
      ensures pos == start && cells == old(cells)
    {
      pos := start;
    }

    method Write(data: File<R>)
      modifies this
      ensures cells == Overwrite(old(cells), old(pos), data)
      ensures pos == old(pos) + |data|
    {
      cells := Overwrite(cells, pos, data);
      pos := pos + |data|;
    }
  }

  // ----- alignment -----

  /** `offset` rounded up, the way `Elf::align` bumps it in place. */
  function AlignUp(offset: nat, to: nat): (r: nat)
    requires to > 0
    ensures r % to == 0
    ensures offset <= r < offset + to
  {
    var rem := offset % to;
    if rem != 0 then
      assert (offset + (to - rem)) % to == 0 by { AlignUpMod(offset, to); }
      offset + (to - rem)
    else offset
  }

  lemma AlignUpMod(offset: nat, to: nat)
    requires to > 0
    ensures (offset + (to - offset % to)) % to == 0
  {
    var q := offset / to;
    assert offset - offset % to == q * to;
    assert q * to + to == (q + 1) * to;
    Multiple(q + 1, to);
  }

  lemma Multiple(q: nat, to: nat)
    requires to > 0
    ensures (q * to) % to == 0
  {
    var n := q * to;
    var d := q - n / to;
    assert n == to * (n / to) + n % to;
    assert d * to == n % to;
    assert d == 0;
  }

  lemma DivMultiple(q: nat, to: nat)
    requires to > 0
    ensures (q * to) / to == q
  {
    Multiple(q, to);
    var n := q * to;
    assert n == to * (n / to) + n % to;
    assert (q - n / to) * to == 0;
  }
}
