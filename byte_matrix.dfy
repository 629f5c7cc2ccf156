/** A fixed-size two-dimensional store of bytes, addressed (x, y) with x the
    column and y the row, kept row-major as rows of cells. */
module ByteMatrices {

  /** A signed byte. The matrix builder stores -1 (empty), 0 (light) and 1
      (dark) in it; the store itself holds any byte. */
  type Byte = b: int | -128 <= b < 128

  /** Value view of a matrix: g[y][x] is the cell in column x of row y. */
  type Grid = seq<seq<Byte>>

  /** The low eight bits of v read as a signed byte: the unchecked narrowing
      cast Set(int) applies. The C# `ByteMatrix` declares its cells as
      unsigned `byte`, so -1 would read back as 255; the signed reading is the one
      the builder's -1/0/1 cell codes rely on, and is the one modelled. */
  function ToByte(v: int): (b: Byte)
    ensures (v - b) % 256 == 0
    ensures -128 <= v < 128 ==> b == v
  {
    var u := v % 256;
    if u < 128 then u else u - 256
  }

  /** The low eight bits of v read as an unsigned byte: what the C#
      `ByteMatrix`'s unsigned `byte` cells hold after the same narrowing cast. */
  function UnsignedByte(v: int): (u: int)
    ensures 0 <= u < 256 && (v - u) % 256 == 0
  {
    v % 256
  }

  /** g with the cell at column x, row y replaced by v. */
  function SetCell(g: Grid, x: int, y: int, v: Byte): (r: Grid)
    requires 0 <= y < |g| && 0 <= x < |g[y]|
    ensures |r| == |g| && forall yy :: 0 <= yy < |g| ==> |r[yy]| == |g[yy]|
  {
    var row: seq<Byte> := g[y][x := v];
    g[y := row]
  }

  /** The character that shows a cell: '0' for 0, '1' for 1, a blank otherwise. */
  function CellChar(b: Byte): char
  {
    if b == 0 then '0' else if b == 1 then '1' else ' '
  }

  /** The text of one cell: " 0" for 0, " 1" for 1, two blanks otherwise. */
  function CellText(b: Byte): string
  {
    [' ', CellChar(b)]
  }

  function RowText(row: seq<Byte>): string
    decreases |row|
  {
    if row == [] then "" else RowText(row[..|row| - 1]) + CellText(row[|row| - 1])
  }

  /** The text of the whole matrix: every row's cells, then a line feed. */
  function GridText(g: Grid): string
    decreases |g|
  {
    if g == [] then "" else GridText(g[..|g| - 1]) + RowText(g[|g| - 1]) + "\n"
  }

  class ByteMatrix {
    const width: nat
    const height: nat
    /** bytes[y, x] is the cell at column x, row y. */
    const bytes: array2<Byte>

    ghost predicate Valid()
    {
      bytes.Length0 == height && bytes.Length1 == width
    }

    /** The current contents as a value. */
    ghost function Cells(): (g: Grid)
      requires Valid()
      reads bytes
      ensures |g| == height
      ensures forall y :: 0 <= y < height ==> |g[y]| == width
      ensures forall y, x :: 0 <= y < height && 0 <= x < width ==> g[y][x] == bytes[y, x]
    {
      seq(height, y requires 0 <= y < height reads bytes =>
        seq(width, x requires 0 <= x < width reads bytes => bytes[y, x]))
    }

    /** A new matrix: height rows of width cells, every cell 0 (not the empty code -1). */
    constructor (width: nat, height: nat)
      ensures Valid() && fresh(bytes)
      ensures this.width == width && this.height == height
      ensures forall y, x :: 0 <= y < height && 0 <= x < width ==> bytes[y, x] == 0
    {
      this.width := width;
      this.height := height;
      bytes := new Byte[height, width]((y, x) => 0);
    }

    /** The cell at column x, row y: row y, entry x of the value view. */
    function Get(x: int, y: int): (b: Byte)
      requires Valid() && 0 <= x < width && 0 <= y < height
      reads bytes
      ensures b == Cells()[y][x]
    {
      bytes[y, x]
    }

    /** Writes one cell; every other cell keeps its value. */
    method Set(x: int, y: int, value: Byte)
      requires Valid() && 0 <= x < width && 0 <= y < height
      modifies bytes
      ensures bytes[y, x] == value
      ensures forall yy, xx :: 0 <= yy < height && 0 <= xx < width && (yy, xx) != (y, x) ==>
        bytes[yy, xx] == old(bytes[yy, xx])
    {
      bytes[y, x] := value;
    }

    /** Writes one cell with an int narrowed to a byte by an unchecked cast; as a value, the grid with that one cell replaced. */
    method SetInt(x: int, y: int, value: int)
      requires Valid() && 0 <= x < width && 0 <= y < height
      modifies bytes
      ensures Cells() == SetCell(old(Cells()), x, y, ToByte(value))
    {
      ghost var g' := SetCell(Cells(), x, y, ToByte(value));
      Set(x, y, ToByte(value));
      assert forall yy :: 0 <= yy < height ==> Cells()[yy] == g'[yy];
    }

    /** Sets every cell to value; the dimensions never change. */
    method Clear(value: Byte)
      requires Valid()
      modifies bytes
      ensures forall y, x :: 0 <= y < height && 0 <= x < width ==> bytes[y, x] == value
    {
      for y := 0 to height
        invariant forall yy, xx :: 0 <= yy < y && 0 <= xx < width ==> bytes[yy, xx] == value
      {
        for x := 0 to width
          invariant forall yy, xx :: 0 <= yy < y && 0 <= xx < width ==> bytes[yy, xx] == value
          invariant forall xx :: 0 <= xx < x ==> bytes[y, xx] == value
        {
          bytes[y, x] := value;
        }
      }
    }

    /** The text form, built row by row and cell by cell. */
    method ToString() returns (s: string)
      requires Valid()
      ensures s == GridText(Cells())
    {
      ghost var g := Cells();
      s := "";
      for y := 0 to height
        invariant s == GridText(g[..y])
      {
        ghost var prefix := s;
        for x := 0 to width
          invariant s == prefix + RowText(g[y][..x])
        {
          RowTextSnoc(g[y], x);
          assert s + CellText(g[y][x]) == prefix + RowText(g[y][..x + 1]);
          var b := bytes[y, x];
          if b == 0 {
            s := s + " 0";
          } else if b == 1 {
            s := s + " 1";
          } else {
            s := s + "  ";
          }
        }
        assert g[y][..width] == g[y];
        GridTextSnoc(g, y);
        s := s + "\n";
      }
      assert g[..height] == g;
    }
  }

  lemma RowTextSnoc(row: seq<Byte>, x: nat)
    requires x < |row|
    ensures RowText(row[..x + 1]) == RowText(row[..x]) + CellText(row[x])
  {
    assert row[..x + 1][..x] == row[..x];
  }

  lemma GridTextSnoc(g: Grid, y: nat)
    requires y < |g|
    ensures GridText(g[..y + 1]) == GridText(g[..y]) + RowText(g[y]) + "\n"
  {
    assert g[..y + 1][..y] == g[..y];
  }

  /** Length of the text of n rows of width w, counted row by row. */
  function TextLength(n: nat, w: nat): nat
  {
    if n == 0 then 0 else TextLength(n - 1, w) + 2 * w + 1
  }

  lemma {:induction false} TextLengthIsProduct(n: nat, w: nat)
    ensures TextLength(n, w) == n * (2 * w + 1)
  {
    if n > 0 {
      TextLengthIsProduct(n - 1, w);
    }
  }

  lemma {:induction false} TextLengthMono(a: nat, b: nat, w: nat)
    requires a <= b
    ensures TextLength(a, w) <= TextLength(b, w)
  {
    if a < b {
      TextLengthMono(a, b - 1, w);
    }
  }

  lemma {:induction false} GridTextLengthRows(g: Grid, w: nat)
    requires forall y :: 0 <= y < |g| ==> |g[y]| == w
    ensures |GridText(g)| == TextLength(|g|, w)
    decreases |g|
  {
    if g != [] {
      GridTextLengthRows(g[..|g| - 1], w);
      RowTextLength(g[|g| - 1]);
    }
  }

  /** Every row contributes 2w + 1 characters. */
  lemma GridTextLength(g: Grid, w: nat)
    requires forall y :: 0 <= y < |g| ==> |g[y]| == w
    ensures |GridText(g)| == |g| * (2 * w + 1)
  {
    GridTextLengthRows(g, w);
    TextLengthIsProduct(|g|, w);
  }

  lemma {:induction false} RowTextLength(row: seq<Byte>)
    ensures |RowText(row)| == 2 * |row|
    decreases |row|
  {
    if row != [] {
      RowTextLength(row[..|row| - 1]);
    }
  }

  /** Cell x of a row is rendered at positions 2x and 2x + 1: a blank, then '0', '1' or a blank. */
  lemma {:induction false} RowTextAt(row: seq<Byte>, x: nat)
    requires x < |row|
    ensures |RowText(row)| == 2 * |row|
    ensures RowText(row)[2 * x] == ' '
    ensures RowText(row)[2 * x + 1] == CellChar(row[x])
    decreases |row|
  {
    RowTextLength(row);
    var init := row[..|row| - 1];
    RowTextLength(init);
    if x < |row| - 1 {
      RowTextAt(init, x);
    }
  }

  /** Row y starts at offset TextLength(y, w): two characters per cell, then a line feed. */
  lemma {:induction false} GridTextAtRows(g: Grid, w: nat, x: nat, y: nat)
    requires forall yy :: 0 <= yy < |g| ==> |g[yy]| == w
    requires x < w && y < |g|
    ensures |GridText(g)| == TextLength(|g|, w)
    ensures TextLength(y, w) + 2 * w < TextLength(|g|, w)
    ensures GridText(g)[TextLength(y, w) + 2 * x] == ' '
    ensures GridText(g)[TextLength(y, w) + 2 * x + 1] == CellChar(g[y][x])
    ensures GridText(g)[TextLength(y, w) + 2 * w] == '\n'
    decreases |g|
  {
    GridTextLengthRows(g, w);
    var init := g[..|g| - 1];
    GridTextLengthRows(init, w);
    var prefix, row := GridText(init), RowText(g[|g| - 1]);
    RowTextLength(g[|g| - 1]);
    var text := prefix + row + "\n";
    assert GridText(g) == text;
    var i := TextLength(y, w) + 2 * x;
    if y < |g| - 1 {
      GridTextAtRows(init, w, x, y);
      assert init[y] == g[y];
      TextLengthMono(y + 1, |init|, w);
      assert text[i] == prefix[i] && text[i + 1] == prefix[i + 1];
      assert text[TextLength(y, w) + 2 * w] == prefix[TextLength(y, w) + 2 * w];
    } else {
      RowTextAt(g[y], x);
      assert TextLength(y, w) == |prefix|;
      assert text[i] == row[2 * x] && text[i + 1] == row[2 * x + 1];
      assert text[|prefix| + |row|] == '\n';
    }
  }

  /** Cell (x, y) of a grid of width w is rendered at offset y(2w + 1) + 2x, and each row ends with a line feed. */
  lemma GridTextAt(g: Grid, w: nat, x: nat, y: nat)
    requires forall yy :: 0 <= yy < |g| ==> |g[yy]| == w
    requires x < w && y < |g|
    ensures |GridText(g)| == |g| * (2 * w + 1)
    ensures y * (2 * w + 1) + 2 * w < |g| * (2 * w + 1)
    ensures GridText(g)[y * (2 * w + 1) + 2 * x] == ' '
    ensures GridText(g)[y * (2 * w + 1) + 2 * x + 1] ==
      (if g[y][x] == 0 then '0' else if g[y][x] == 1 then '1' else ' ')
    ensures GridText(g)[y * (2 * w + 1) + 2 * w] == '\n'
  {
    GridTextAtRows(g, w, x, y);
    TextLengthIsProduct(y, w);
    TextLengthIsProduct(|g|, w);
  }
}
