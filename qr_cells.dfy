/** The three cell states of a QR matrix under construction and the grid
    operations the builder is specified with: stamping a pattern into an
    empty region, and the "set cells stay set" order between grids. */
module QrCells {
  import opened ByteMatrices
  import opened Faults

  /** The byte code of a cell that has not been set yet. The C#
      `ByteMatrix` declares its cells as unsigned `byte`, so the -1 written by ClearMatrix
      would read back as 255 and never compare equal to -1; the intended
      signed reading is the one modelled. */
  const EMPTY: Byte := -1

  datatype Cell = Empty | Light | Dark
  {
    /** The byte the builder stores for this cell. */
    function Code(): (b: Byte)
      ensures -1 <= b <= 1
    {
      match this
      case Empty => -1
      case Light => 0
      case Dark => 1
    }
  }

  /** The cell a valid byte code stands for. */
  function CellOf(b: Byte): (c: Cell)
    requires IsValidValue(b)
    ensures c.Code() == b
  {
    if b == -1 then Empty else if b == 0 then Light else Dark
  }

  /** The cell code of a bit: 1 (dark) for a set bit, 0 (light) otherwise. */
  function BitCode(b: bool): (v: Byte)
    ensures IsValidValue(v) && !IsEmpty(v)
    ensures (v == 1) == b
  {
    if b then 1 else 0
  }

  predicate IsEmpty(v: int)
  {
    v == -1
  }

  predicate IsValidValue(v: int)
  {
    v == -1 || v == 0 || v == 1
  }

  /** With unsigned cells the sentinel written by ClearMatrix reads back as
      255, which is neither empty nor valid: the first emptiness check of a
      pattern stamp on a cleared matrix fails. With the signed cells of
      this model it reads back as the empty code. */
  lemma UnsignedSentinel()
    ensures UnsignedByte(EMPTY) == 255
    ensures !IsEmpty(UnsignedByte(EMPTY)) && !IsValidValue(UnsignedByte(EMPTY))
    ensures ToByte(EMPTY) == EMPTY && IsEmpty(ToByte(EMPTY))
  {
  }

  /** The codes are exactly the valid values, the empty code is the Empty cell's, and decoding inverts encoding. */
  lemma CellCodes(c: Cell, v: int)
    ensures IsValidValue(c.Code()) && CellOf(c.Code()) == c
    ensures IsEmpty(c.Code()) <==> c == Empty
    ensures IsValidValue(v) <==> (exists d: Cell :: d.Code() == v)
  {
    if IsValidValue(v) {
      assert CellOf(v as Byte).Code() == v;
    }
  }

  /** h rows of w cells. */
  predicate IsGrid(g: Grid, w: nat, h: nat)
  {
    |g| == h && forall y :: 0 <= y < h ==> |g[y]| == w
  }

  /** An n-by-n grid. */
  predicate IsSquare(g: Grid, n: nat)
  {
    |g| == n && forall y :: 0 <= y < n ==> |g[y]| == n
  }

  /** A non-empty rectangular pattern. */
  predicate IsPattern(p: Grid)
  {
    |p| > 0 && |p[0]| > 0 && forall i :: 0 <= i < |p| ==> |p[i]| == |p[0]|
  }

  /** The pattern p placed with its top-left cell at (x0, y0) lies inside g. */
  predicate Fits(g: Grid, x0: int, y0: int, p: Grid)
    requires IsPattern(p)
  {
    0 <= y0 && y0 + |p| <= |g| && 0 <= x0 &&
    forall y :: y0 <= y < y0 + |p| ==> x0 + |p[0]| <= |g[y]|
  }

  /** Cell (x, y) lies under the pattern p placed at (x0, y0). */
  predicate Covers(p: Grid, x0: int, y0: int, x: int, y: int)
    requires IsPattern(p)
  {
    y0 <= y < y0 + |p| && x0 <= x < x0 + |p[0]|
  }

  /** Every cell under the placed pattern is empty. */
  predicate RegionEmpty(g: Grid, x0: int, y0: int, p: Grid)
    requires IsPattern(p) && Fits(g, x0, y0, p)
  {
    forall y, x :: y0 <= y < y0 + |p| && x0 <= x < x0 + |p[0]| ==> g[y][x] == EMPTY
  }

  /** The cleared n-by-n matrix: every cell empty. */
  function Cleared(n: nat): (g: Grid)
    ensures IsSquare(g, n)
    ensures forall y, x :: 0 <= y < n && 0 <= x < n ==> g[y][x] == EMPTY
  {
    seq(n, _ => seq(n, _ => EMPTY))
  }

  /** g with the pattern written over the region at (x0, y0). */
  function Overlay(g: Grid, x0: int, y0: int, p: Grid): (r: Grid)
    requires IsPattern(p)
    ensures |r| == |g| && forall y :: 0 <= y < |g| ==> |r[y]| == |g[y]|
  {
    seq(|g|, y requires 0 <= y < |g| =>
      seq(|g[y]|, x requires 0 <= x < |g[y]| =>
        if Covers(p, x0, y0, x, y) then p[y - y0][x - x0] else g[y][x]))
  }

  /** A stamp: the pattern, written cell by cell, is refused as soon as a target cell is already set. */
  function Stamp(g: Grid, x0: int, y0: int, p: Grid): (r: Result<Grid>)
    requires IsPattern(p) && Fits(g, x0, y0, p)
    ensures r.Ok? ==> SameShape(g, r.value)
    ensures r.Err? ==> r.fault == CellNotEmpty
  {
    if RegionEmpty(g, x0, y0, p) then Ok(Overlay(g, x0, y0, p)) else Err(CellNotEmpty)
  }

  /** Same number of rows, and rows of the same lengths. */
  predicate SameShape(a: Grid, b: Grid)
  {
    |a| == |b| && forall y :: 0 <= y < |a| ==> |a[y]| == |b[y]|
  }

  /** After is before with some empty cells filled: same shape, and every cell set in before is unchanged. */
  predicate Keeps(before: Grid, after: Grid)
  {
    SameShape(before, after) &&
    forall y, x :: 0 <= y < |before| && 0 <= x < |before[y]| && before[y][x] != EMPTY ==>
      after[y][x] == before[y][x]
  }

  /** Every cell holds a valid code. */
  predicate AllValid(g: Grid)
  {
    forall y, x :: 0 <= y < |g| && 0 <= x < |g[y]| ==> IsValidValue(g[y][x])
  }

  /** The outcome of a routine and the matrix it leaves agree with its specification. */
  predicate Realizes(o: Outcome, spec: Result<Grid>, after: Grid)
  {
    match spec
    case Ok(g) => o == Success && after == g
    case Err(f) => o == Failure(f)
  }

  lemma KeepsTrans(a: Grid, b: Grid, c: Grid)
    requires Keeps(a, b) && Keeps(b, c)
    ensures Keeps(a, c)
  {
  }

  /** A stamp succeeds exactly when its region is empty; it then writes the pattern there, keeps every other cell, keeps every set cell, and keeps a valid grid valid when the pattern is valid. */
  lemma StampSpec(g: Grid, x0: int, y0: int, p: Grid)
    requires IsPattern(p) && Fits(g, x0, y0, p)
    ensures Stamp(g, x0, y0, p).Ok? <==> RegionEmpty(g, x0, y0, p)
    ensures Stamp(g, x0, y0, p).Ok? ==>
      var r := Stamp(g, x0, y0, p).value;
      Keeps(g, r) &&
      (forall y, x :: y0 <= y < y0 + |p| && x0 <= x < x0 + |p[0]| ==> r[y][x] == p[y - y0][x - x0]) &&
      (forall y, x :: 0 <= y < |g| && 0 <= x < |g[y]| && !Covers(p, x0, y0, x, y) ==> r[y][x] == g[y][x]) &&
      (AllValid(g) && AllValid(p) ==> AllValid(r))
  {
  }

  /** Two grids of the same shape that agree cell by cell are equal. */
  lemma GridExt(a: Grid, b: Grid)
    requires |a| == |b| && forall y :: 0 <= y < |a| ==> |a[y]| == |b[y]|
    requires forall y, x :: 0 <= y < |a| && 0 <= x < |a[y]| ==> a[y][x] == b[y][x]
    ensures a == b
  {
    forall y | 0 <= y < |a|
      ensures a[y] == b[y]
    {
    }
  }
}
