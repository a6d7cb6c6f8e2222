/** The row-packing matrix of src/modules/day-1.ts: ragged rows laid out in one
    zero-filled buffer of width * height cells, row i starting at offset i * width. */
module Day1 {
  import opened Utils
  import opened Strings

  type Uint32 = x: int | 0 <= x < 0x1_0000_0000
  type Byte = x: int | 0 <= x < 0x100

  /** The conversion a `Uint32Array` applies to each stored integer: modulo 2^32. */
  function ToUint32(x: int): (r: Uint32)
    ensures 0 <= x < 0x1_0000_0000 ==> r == x
    ensures (x - r) % 0x1_0000_0000 == 0
  {
    x % 0x1_0000_0000
  }

  /** The fold over the rows that keeps the larger of the running maximum and each
      row's length, starting from `acc`. */
  function FoldMaxLength(acc: nat, rows: seq<seq<int>>): (r: nat)
    ensures acc <= r
    ensures forall i :: 0 <= i < |rows| ==> |rows[i]| <= r
    ensures r == acc || exists i :: 0 <= i < |rows| && |rows[i]| == r
    decreases |rows|
  {
    if rows == [] then acc
    else
      var r := FoldMaxLength(if acc > |rows[0]| then acc else |rows[0]|, rows[1..]);
      assert forall i :: 0 <= i < |rows[1..]| ==> rows[1..][i] == rows[i + 1];
      r
  }

  /** The matrix width: the longest row's length, 0 when there is no row. */
  function MaxLength(rows: seq<seq<int>>): (width: nat)
    ensures forall i :: 0 <= i < |rows| ==> |rows[i]| <= width
    ensures rows == [] ==> width == 0
    ensures rows != [] ==> exists i :: 0 <= i < |rows| && |rows[i]| == width
  {
    var r := FoldMaxLength(0, rows);
    if r == 0 && rows != [] then
      assert |rows[0]| == 0;
      r
    else r
  }

  /** The start of row i, i * w, written as repeated addition so that the layout
      lemmas stay linear; OffsetIsProduct connects it to the product. */
  function Offset(i: nat, w: nat): nat
  {
    if i == 0 then 0 else Offset(i - 1, w) + w
  }

  lemma {:induction false} OffsetIsProduct(i: nat, w: nat)
    ensures Offset(i, w) == i * w
  {
    if i > 0 {
      OffsetIsProduct(i - 1, w);
    }
  }

  /** `i * width`, the offset the constructor copies row i to. */
  function RowStart(i: nat, w: nat): (o: nat)
    ensures o == Offset(i, w)
  {
    OffsetIsProduct(i, w);
    i * w
  }

  /** Row blocks follow one another: a later row starts at least one block later. */
  lemma {:induction false} OffsetMonotone(i: nat, n: nat, w: nat)
    requires i < n
    ensures Offset(i, w) + w <= Offset(n, w)
    decreases n - i
  {
    if i + 1 < n {
      OffsetMonotone(i + 1, n, w);
    }
  }

  /** Distinct (row, column) pairs inside the width name distinct cells. */
  lemma OffsetInjective(w: nat, i: nat, j: nat, i': nat, j': nat)
    requires j < w && j' < w
    requires Offset(i, w) + j == Offset(i', w) + j'
    ensures i == i' && j == j'
  {
    if i < i' {
      OffsetMonotone(i, i', w);
    } else if i' < i {
      OffsetMonotone(i', i, w);
    }
  }

  /** A row's elements as stored in a `Uint32Array`: a row whose values all fit in 32
      unsigned bits is stored unchanged. */
  function Cells(row: seq<int>): (cells: seq<Uint32>)
    ensures (forall j :: 0 <= j < |row| ==> 0 <= row[j] < 0x1_0000_0000) ==> cells == row
  {
    seq(|row|, j requires 0 <= j < |row| => ToUint32(row[j]))
  }

  /** The packed buffer of the first n rows, as an independent description of what
      the constructor builds: every row's cells padded with 0 to the width, one after
      the other. */
  function Layout(rows: seq<seq<int>>, w: nat, n: nat): (cells: seq<Uint32>)
    requires n <= |rows|
    ensures |cells| == Offset(n, w)
  {
    if n == 0 then [] else Layout(rows, w, n - 1) + Pad(Cells(rows[n - 1]), w, 0)
  }

  /** Cell j of row i's block holds the row's element j, or 0 past the row's end. */
  lemma {:induction false} LayoutAt(rows: seq<seq<int>>, w: nat, n: nat, i: nat, j: nat)
    requires i < n <= |rows| && j < w
    ensures Offset(i, w) + j < |Layout(rows, w, n)|
    ensures Layout(rows, w, n)[Offset(i, w) + j] == if j < |rows[i]| then ToUint32(rows[i][j]) else 0
  {
    if i < n - 1 {
      LayoutAt(rows, w, n - 1, i, j);
    }
  }

  /** Every cell of the buffer lies in the block of some row, inside the width. */
  lemma {:induction false} LayoutCovered(rows: seq<seq<int>>, w: nat, n: nat, k: nat)
    requires n <= |rows| && k < |Layout(rows, w, n)|
    ensures exists i :: 0 <= i < n && Offset(i, w) <= k < Offset(i, w) + w
  {
    if k < Offset(n - 1, w) {
      LayoutCovered(rows, w, n - 1, k);
    }
  }

  /** n zero cells: a freshly allocated `Uint32Array`. */
  function Zeros(n: nat): seq<Uint32>
  {
    seq(n, _ => 0)
  }

  /** The buffer once the first i rows are copied: their layout, then zeros. */
  predicate Filled(s: seq<Uint32>, rows: seq<seq<int>>, w: nat, i: nat)
  {
    i <= |rows| && Offset(i, w) <= |s| && s == Layout(rows, w, i) + Zeros(|s| - Offset(i, w))
  }

  /** One iteration of the constructor's loop: copying row i over the zeros at its
      offset extends the finished prefix by that row's padded block. */
  lemma RowCopied(rows: seq<seq<int>>, w: nat, i: nat, before: seq<Uint32>)
    requires i < |rows| && |rows[i]| <= w && Offset(i + 1, w) <= |before|
    requires Filled(before, rows, w, i)
    ensures Filled(before[..Offset(i, w)] + Cells(rows[i]) + before[Offset(i, w) + |rows[i]|..], rows, w, i + 1)
  {
    var n := |before|;
    var o := Offset(i, w);
    var row := Cells(rows[i]);
    var prefix := Layout(rows, w, i);
    assert before[..o] == prefix;
    assert before[o + |row|..] == Zeros(n - o - |row|);
    assert Pad(row, w, 0) == row + Zeros(w - |row|);
    assert Zeros(w - |row|) + Zeros(n - Offset(i + 1, w)) == Zeros(n - o - |row|);
    assert prefix + Pad(row, w, 0) + Zeros(n - Offset(i + 1, w)) == prefix + row + Zeros(n - o - |row|);
  }

  /** `a.set(row, offset)` on a `Uint32Array`: the row's elements, converted, overwrite
      the cells from the offset on; every other cell keeps its value. */
  method Set(a: array<Uint32>, row: seq<int>, offset: nat)
    requires offset + |row| <= a.Length
    modifies a
    ensures a[..] == old(a[..])[..offset] + Cells(row) + old(a[..])[offset + |row|..]
  {
    forall k | offset <= k < offset + |row| {
      a[k] := ToUint32(row[k - offset]);
    }
    assert a[..] == old(a[..])[..offset] + Cells(row) + old(a[..])[offset + |row|..];
  }

  /** `Uint32Matrix`: a `width * height` buffer of 32-bit cells. */
  class Uint32Matrix {
    var data: array<Uint32>
    var width: nat
    var height: nat

    /** `new Uint32Matrix(rows)`: width is the longest row, height the number of rows,
        the buffer starts zero-filled and `data.set(rows[i], i * width)` copies row i
        to offset i * width. */
    constructor (rows: seq<seq<int>>)
      ensures width == MaxLength(rows) && height == |rows|
      ensures data.Length == width * height
      ensures data[..] == Layout(rows, width, height)
      ensures fresh(data)
    {
      var w := MaxLength(rows);
      width := w;
      height := |rows|;
      data := new Uint32[w * |rows|](_ => 0);
      new;
      OffsetIsProduct(|rows|, w);
      assert data[..] == Zeros(Offset(|rows|, w));
      CopyRows(data, rows, w);
    }
  }

  /** The constructor's loop: `data.set(rows[i], i * width)` for every row, into a
      zero-filled buffer of exactly `width * height` cells. */
  method CopyRows(data: array<Uint32>, rows: seq<seq<int>>, w: nat)
    requires forall i :: 0 <= i < |rows| ==> |rows[i]| <= w
    requires data[..] == Zeros(Offset(|rows|, w))
    modifies data
    ensures data[..] == Layout(rows, w, |rows|)
  {
    var i := 0;
    assert Filled(data[..], rows, w, 0);
    while i < |rows|
      invariant 0 <= i <= |rows| && data.Length == Offset(|rows|, w)
      invariant Filled(data[..], rows, w, i)
    {
      OffsetMonotone(i, |rows|, w);
      CopyRow(data, rows, w, i);
      i := i + 1;
    }
    assert Zeros(0) == [];
  }

  /** One iteration of the constructor's loop: `data.set(rows[i], i * width)`. */
  method CopyRow(data: array<Uint32>, rows: seq<seq<int>>, w: nat, i: nat)
    requires i < |rows| && |rows[i]| <= w && Offset(i + 1, w) <= data.Length
    requires Filled(data[..], rows, w, i)
    modifies data
    ensures Filled(data[..], rows, w, i + 1)
  {
    RowCopied(rows, w, i, data[..]);
    var offset := RowStart(i, w);
    Set(data, rows[i], offset);
  }

  /** Each encoded line padded with 0 to `pow2round` of its length. */
  function PadRows(lines: seq<seq<Byte>>): (rows: seq<seq<int>>)
    ensures |rows| == |lines|
    ensures forall i :: 0 <= i < |lines| ==>
      |rows[i]| == Pow2Round(|lines[i]|) &&
      (if lines[i] == [] then rows[i] == [] else IsPowerOfTwo(|rows[i]|) && |lines[i]| <= |rows[i]|) &&
      rows[i][..|lines[i]|] == lines[i] &&
      forall j :: |lines[i]| <= j < |rows[i]| ==> rows[i][j] == 0
  {
    seq(|lines|, i requires 0 <= i < |lines| => Pad(lines[i], Pow2Round(|lines[i]|), 0))
  }

  /** `parse(input)`, with the input given as its UTF-8 encoding: the encoding of '\n'
      is the single byte 10, which no other character's encoding contains, so splitting
      the text and then encoding each line gives the lines of the encoded text. */
  method Parse(input: seq<Byte>) returns (m: Uint32Matrix)
    ensures fresh(m) && fresh(m.data)
    ensures m.height == Count(input, 10) + 1
    ensures m.width == MaxLength(PadRows(Split(input, 10)))
    ensures m.data[..] == Layout(PadRows(Split(input, 10)), m.width, m.height)
  {
    m := new Uint32Matrix(PadRows(Split(input, 10)));
  }

  /** Every byte of line i lands at cell i * width + j of the parsed buffer (the
      offset `Offset(i, width)`), and the width is a power of two or 0. */
  lemma ParsedByte(lines: seq<seq<Byte>>, i: nat, j: nat)
    requires i < |lines| && j < |lines[i]|
    ensures var rows := PadRows(lines); var w := MaxLength(rows);
      Offset(i, w) + j < |Layout(rows, w, |rows|)| && Layout(rows, w, |rows|)[Offset(i, w) + j] == lines[i][j]
    ensures MaxLength(PadRows(lines)) == 0 || IsPowerOfTwo(MaxLength(PadRows(lines)))
  {
    var rows := PadRows(lines);
    var w := MaxLength(rows);
    assert rows[i][j] == rows[i][..|lines[i]|][j];
    LayoutAt(rows, w, |rows|, i, j);
  }

  /** Past the end of line i its row holds zeros, up to the width. */
  lemma ParsedPadding(lines: seq<seq<Byte>>, i: nat, j: nat)
    requires i < |lines| && |lines[i]| <= j < MaxLength(PadRows(lines))
    ensures var rows := PadRows(lines); var w := MaxLength(rows);
      Offset(i, w) + j < |Layout(rows, w, |rows|)| && Layout(rows, w, |rows|)[Offset(i, w) + j] == 0
  {
    var rows := PadRows(lines);
    LayoutAt(rows, MaxLength(rows), |rows|, i, j);
  }

  /** `parse('')`: the empty text is one empty line, so the matrix is 0 x 1 with an
      empty buffer. */
  lemma ParseEmptyInput()
    ensures Split<Byte>([], 10) == [[]]
    ensures PadRows([[]]) == [[]] && MaxLength(PadRows([[]])) == 0
    ensures Layout(PadRows([[]]), 0, 1) == []
  {
    assert PadRows([[]])[0] == [];
  }
}
