/** Placement of the data bits: the symbol is scanned in pairs of columns
    from the right edge, the first pair upwards, the next downwards and so
    on, skipping the vertical timing column 6; in each row of a pair the
    right cell comes before the left one. Every empty cell the scan meets
    receives the next data bit (0 once the data is exhausted), flipped
    where the data mask says so; the routine fails if the data does not
    fit. */
module DataPlacement {
  import opened ByteMatrices
  import opened Faults
  import opened QrCells

  /** The symbols the scan is defined for: odd sides of at least 7, so that the column pairs
      from the right edge meet column 6 and step over it. */
  predicate ScanSize(n: int)
  {
    n >= 7 && n % 2 == 1
  }

  /** The number of column pairs: (n - 1) / 2, all columns but the timing one. */
  function PairCount(n: int): int
  {
    (n - 1) / 2
  }

  /** The right column of pair p: n - 1 - 2p until that would be the timing column, one further left after it. */
  function RightColumn(n: int, p: int): int
  {
    if n - 1 - 2 * p > 6 then n - 1 - 2 * p else n - 2 - 2 * p
  }

  /** The row at step s of pair p: even pairs go upwards from the bottom, odd pairs downwards from the top. */
  function Row(n: int, p: int, s: int): int
  {
    if p % 2 == 0 then n - 1 - s else s
  }

  /** The cells the scan visits from cell i of step s of pair p on, in order. */
  function ScanFrom(n: int, p: int, s: int, i: int): (cells: seq<(int, int)>)
    requires 0 <= p && 0 <= s && 0 <= i
    decreases PairCount(n) - p, n - s, 2 - i
  {
    if p >= PairCount(n) then []
    else if s >= n then ScanFrom(n, p + 1, 0, 0)
    else if i >= 2 then ScanFrom(n, p, s + 1, 0)
    else [(RightColumn(n, p) - i, Row(n, p, s))] + ScanFrom(n, p, s, i + 1)
  }

  /** The whole scan of an n-by-n symbol. */
  function Scan(n: int): (cells: seq<(int, int)>)
    requires ScanSize(n)
    ensures InSquare(n, cells)
  {
    ScanFromCells(n, 0, 0, 0);
    ScanFrom(n, 0, 0, 0)
  }

  /** The pair a column other than 6 belongs to. */
  function PairOf(n: int, x: int): int
  {
    if x > 6 then (n - 1 - x) / 2 else (n - 2 - x) / 2
  }

  /** The step at which pair p reaches row y. */
  function StepOf(n: int, p: int, y: int): int
  {
    if p % 2 == 0 then n - 1 - y else y
  }

  /** Cell c comes at or after cell i of step s of pair p in the scan order. */
  predicate AtOrAfter(n: int, p: int, s: int, i: int, c: (int, int))
  {
    var q := PairOf(n, c.0);
    q > p || (q == p && (StepOf(n, p, c.1) > s || (StepOf(n, p, c.1) == s && RightColumn(n, p) - c.0 >= i)))
  }

  /** A cell inside the symbol outside the timing column. */
  predicate Scannable(n: int, c: (int, int))
  {
    0 <= c.0 < n && 0 <= c.1 < n && c.0 != 6
  }

  /** Column x lies in its pair: it is the right column or the one left of it. */
  lemma PairOfColumn(n: int, x: int)
    requires ScanSize(n) && 0 <= x < n && x != 6
    ensures 0 <= PairOf(n, x) < PairCount(n)
    ensures RightColumn(n, PairOf(n, x)) - x == 0 || RightColumn(n, PairOf(n, x)) - x == 1
  {
  }

  /** The right column of pair p and the one left of it belong to pair p, and neither is column 6. */
  lemma ColumnOfPair(n: int, p: int, i: int)
    requires ScanSize(n) && 0 <= p < PairCount(n) && 0 <= i < 2
    ensures 0 <= RightColumn(n, p) - i < n && RightColumn(n, p) - i != 6
    ensures PairOf(n, RightColumn(n, p) - i) == p
  {
  }

  /** Every cell the scan visits from (p, s, i) on lies in the symbol outside column 6, at or after (p, s, i). */
  lemma {:induction false} ScanFromCells(n: int, p: int, s: int, i: int)
    requires ScanSize(n) && 0 <= p && 0 <= s <= n && 0 <= i <= 2
    ensures forall k :: 0 <= k < |ScanFrom(n, p, s, i)| ==>
      Scannable(n, ScanFrom(n, p, s, i)[k]) && AtOrAfter(n, p, s, i, ScanFrom(n, p, s, i)[k])
    decreases PairCount(n) - p, n - s, 2 - i
  {
    if p >= PairCount(n) {
    } else if s >= n {
      var rest := ScanFrom(n, p + 1, 0, 0);
      assert ScanFrom(n, p, s, i) == rest;
      ScanFromCells(n, p + 1, 0, 0);
      forall k | 0 <= k < |rest|
        ensures AtOrAfter(n, p, s, i, rest[k])
      {
        AtOrAfterLater(n, p, s, i, rest[k]);
      }
    } else if i >= 2 {
      var rest := ScanFrom(n, p, s + 1, 0);
      assert ScanFrom(n, p, s, i) == rest;
      ScanFromCells(n, p, s + 1, 0);
      forall k | 0 <= k < |rest|
        ensures AtOrAfter(n, p, s, i, rest[k])
      {
        AtOrAfterLater(n, p, s, i, rest[k]);
      }
    } else {
      var c, rest := (RightColumn(n, p) - i, Row(n, p, s)), ScanFrom(n, p, s, i + 1);
      var cells := [c] + rest;
      assert ScanFrom(n, p, s, i) == cells;
      ScanFromCells(n, p, s, i + 1);
      forall k | 0 <= k < |cells|
        ensures Scannable(n, cells[k]) && AtOrAfter(n, p, s, i, cells[k])
      {
        if k == 0 {
          ColumnOfPair(n, p, i);
          assert StepOf(n, p, c.1) == s;
        } else {
          assert cells[k] == rest[k - 1];
          AtOrAfterLater(n, p, s, i, rest[k - 1]);
        }
      }
    }
  }

  /** A cell at or after a later scan position is at or after an earlier one. */
  lemma AtOrAfterLater(n: int, p: int, s: int, i: int, c: (int, int))
    ensures AtOrAfter(n, p + 1, 0, 0, c) ==> AtOrAfter(n, p, s, i, c)
    ensures AtOrAfter(n, p, s + 1, 0, c) ==> AtOrAfter(n, p, s, i, c)
    ensures AtOrAfter(n, p, s, i + 1, c) ==> AtOrAfter(n, p, s, i, c)
  {
  }

  /** No cell is visited twice. */
  lemma {:induction false} ScanFromDistinct(n: int, p: int, s: int, i: int)
    requires ScanSize(n) && 0 <= p && 0 <= s <= n && 0 <= i <= 2
    ensures Distinct(ScanFrom(n, p, s, i))
    decreases PairCount(n) - p, n - s, 2 - i
  {
    if p >= PairCount(n) {
    } else if s >= n {
      ScanFromDistinct(n, p + 1, 0, 0);
    } else if i >= 2 {
      ScanFromDistinct(n, p, s + 1, 0);
    } else {
      var c, rest := (RightColumn(n, p) - i, Row(n, p, s)), ScanFrom(n, p, s, i + 1);
      ScanFromDistinct(n, p, s, i + 1);
      ScanFromCells(n, p, s, i + 1);
      CellNotAfter(n, p, s, i);
      forall k | 0 <= k < |rest| ensures rest[k] != c {
        assert AtOrAfter(n, p, s, i + 1, rest[k]);
      }
      DistinctCons(c, rest);
    }
  }

  /** The cell visited at (p, s, i) does not come at or after (p, s, i + 1). */
  lemma CellNotAfter(n: int, p: int, s: int, i: int)
    requires ScanSize(n) && 0 <= p < PairCount(n) && 0 <= s < n && 0 <= i < 2
    ensures !AtOrAfter(n, p, s, i + 1, (RightColumn(n, p) - i, Row(n, p, s)))
  {
    ColumnOfPair(n, p, i);
  }

  lemma DistinctCons(c: (int, int), rest: seq<(int, int)>)
    requires Distinct(rest) && forall k :: 0 <= k < |rest| ==> rest[k] != c
    ensures Distinct([c] + rest)
  {
    var cells := [c] + rest;
    forall a, b | 0 <= a < b < |cells| ensures cells[a] != cells[b] {
      assert cells[b] == rest[b - 1];
      if a > 0 {
        assert cells[a] == rest[a - 1];
      }
    }
  }

  predicate Distinct(cells: seq<(int, int)>)
  {
    forall a, b :: 0 <= a < b < |cells| ==> cells[a] != cells[b]
  }

  /** Every cell outside column 6 that comes at or after (p, s, i) is visited from there on. */
  lemma {:induction false} ScanFromCovers(n: int, p: int, s: int, i: int, c: (int, int))
    requires ScanSize(n) && 0 <= p && 0 <= s <= n && 0 <= i <= 2
    requires Scannable(n, c) && AtOrAfter(n, p, s, i, c)
    ensures c in ScanFrom(n, p, s, i)
    decreases PairCount(n) - p, n - s, 2 - i
  {
    PairOfColumn(n, c.0);
    if p >= PairCount(n) {
    } else if s >= n {
      ScanFromCovers(n, p + 1, 0, 0, c);
    } else if i >= 2 {
      ScanFromCovers(n, p, s + 1, 0, c);
    } else if c != (RightColumn(n, p) - i, Row(n, p, s)) {
      ScanFromCovers(n, p, s, i + 1, c);
    }
  }

  /** The scan visits every cell outside the timing column exactly once, and no other cell. */
  lemma ScanVisitsEachOnce(n: int)
    requires ScanSize(n)
    ensures Distinct(Scan(n))
    ensures forall k :: 0 <= k < |Scan(n)| ==> Scannable(n, Scan(n)[k])
    ensures forall x, y :: Scannable(n, (x, y)) ==> (x, y) in Scan(n)
  {
    ScanFromDistinct(n, 0, 0, 0);
    ScanFromCells(n, 0, 0, 0);
    forall x, y | Scannable(n, (x, y))
      ensures (x, y) in Scan(n)
    {
      PairOfColumn(n, x);
      ScanFromCovers(n, 0, 0, 0, (x, y));
    }
  }

  /** All cells lie in an n-by-n grid. */
  predicate InSquare(n: int, cells: seq<(int, int)>)
  {
    forall k :: 0 <= k < |cells| ==> 0 <= cells[k].0 < n && 0 <= cells[k].1 < n
  }

  /** The placement state: the grid so far and the number of data bits consumed. */
  datatype Placing = Placing(grid: Grid, consumed: nat)

  /** Data bit k, or the padding bit 0 once the data is exhausted. */
  function DataBit(data: seq<bool>, k: nat): bool
  {
    if k < |data| then data[k] else false
  }

  /** A bit as written at (x, y): flipped where the mask says so, unless the mask id is -1 (no masking).
      The mask function stands for the data-mask rule of the given mask id. */
  function Masked(bit: bool, maskPattern: int, maskBit: (int, int, int) -> bool, x: int, y: int): bool
  {
    if maskPattern != -1 && maskBit(maskPattern, x, y) then !bit else bit
  }

  /** One visited cell: a set cell is skipped; an empty one receives the next bit, masked. (A cell
      outside the grid, which the scan never visits, is skipped as well.) */
  function PlaceCell(st: Placing, c: (int, int), data: seq<bool>, maskPattern: int,
                     maskBit: (int, int, int) -> bool): Placing
  {
    var (x, y) := c;
    if !(0 <= y < |st.grid| && 0 <= x < |st.grid[y]|) || !IsEmpty(st.grid[y][x]) then st
    else
      var b := Masked(DataBit(data, st.consumed), maskPattern, maskBit, x, y);
      Placing(SetCell(st.grid, x, y, BitCode(b)), if st.consumed < |data| then st.consumed + 1 else st.consumed)
  }

  /** The cells visited in order, starting from state st. */
  function PlaceAll(st: Placing, cells: seq<(int, int)>, data: seq<bool>, maskPattern: int,
                    maskBit: (int, int, int) -> bool): Placing
    decreases |cells|
  {
    if cells == [] then st
    else PlaceAll(PlaceCell(st, cells[0], data, maskPattern, maskBit), cells[1..], data, maskPattern, maskBit)
  }

  /** Placement keeps the shape of the grid. */
  lemma {:induction false} PlaceAllShape(st: Placing, cells: seq<(int, int)>, data: seq<bool>, maskPattern: int,
                                         maskBit: (int, int, int) -> bool)
    requires IsSquare(st.grid, |st.grid|)
    ensures IsSquare(PlaceAll(st, cells, data, maskPattern, maskBit).grid, |st.grid|)
    decreases |cells|
  {
    if cells != [] {
      PlaceAllShape(PlaceCell(st, cells[0], data, maskPattern, maskBit), cells[1..], data, maskPattern, maskBit);
    }
  }

  /** Data placement over the scan: fails unless every data bit found an empty cell. */
  function DataBits(g: Grid, data: seq<bool>, maskPattern: int, maskBit: (int, int, int) -> bool): (r: Result<Grid>)
    requires IsSquare(g, |g|) && ScanSize(|g|)
    ensures r.Ok? ==> IsSquare(r.value, |g|)
  {
    PlaceAllShape(Placing(g, 0), Scan(|g|), data, maskPattern, maskBit);
    var st := PlaceAll(Placing(g, 0), Scan(|g|), data, maskPattern, maskBit);
    if st.consumed != |data| then Err(NotAllBitsConsumed(st.consumed, |data|)) else Ok(st.grid)
  }

  /** The cell at c = (x, y). */
  function At(g: Grid, c: (int, int)): Byte
    requires 0 <= c.1 < |g| && 0 <= c.0 < |g[c.1]|
  {
    g[c.1][c.0]
  }

  /** How many of the listed cells are empty in g: the room the scan has for data bits. */
  function EmptyCount(g: Grid, cells: seq<(int, int)>): (count: nat)
    requires IsSquare(g, |g|) && InSquare(|g|, cells)
    ensures count <= |cells|
    decreases |cells|
  {
    if cells == [] then 0
    else (if IsEmpty(At(g, cells[0])) then 1 else 0) + EmptyCount(g, cells[1..])
  }

  /** The bits read back, in scan order, from the listed cells of r that were empty in g, with the mask undone. */
  function ReadBits(g: Grid, r: Grid, cells: seq<(int, int)>, maskPattern: int,
                    maskBit: (int, int, int) -> bool): (bits: seq<bool>)
    requires IsSquare(g, |g|) && IsSquare(r, |g|) && InSquare(|g|, cells)
    ensures |bits| == EmptyCount(g, cells)
    decreases |cells|
  {
    if cells == [] then []
    else
      var c := cells[0];
      (if IsEmpty(At(g, c)) then [Masked(At(r, c) == 1, maskPattern, maskBit, c.0, c.1)] else []) +
        ReadBits(g, r, cells[1..], maskPattern, maskBit)
  }

  function Min(a: int, b: int): int
  {
    if a <= b then a else b
  }

  /** What placement leaves in the k-th listed cell: a set cell keeps its value; an empty one gets data bit
      consumed + (empty cells before it), masked. */
  function PlacedAt(st: Placing, cells: seq<(int, int)>, k: int, data: seq<bool>, maskPattern: int,
                    maskBit: (int, int, int) -> bool): Byte
    requires IsSquare(st.grid, |st.grid|) && InSquare(|st.grid|, cells) && 0 <= k < |cells|
  {
    var c := cells[k];
    if IsEmpty(At(st.grid, c)) then
      BitCode(Masked(DataBit(data, st.consumed + EmptyCount(st.grid, cells[..k])), maskPattern, maskBit, c.0, c.1))
    else At(st.grid, c)
  }

  /** Two grids that agree on the listed cells have the same number of empty cells among them. */
  lemma {:induction false} EmptyCountAgree(g: Grid, h: Grid, cells: seq<(int, int)>)
    requires IsSquare(g, |g|) && IsSquare(h, |g|) && InSquare(|g|, cells)
    requires forall k :: 0 <= k < |cells| ==> At(g, cells[k]) == At(h, cells[k])
    ensures EmptyCount(g, cells) == EmptyCount(h, cells)
    decreases |cells|
  {
    if cells != [] {
      EmptyCountAgree(g, h, cells[1..]);
    }
  }

  /** One step: the cell is written exactly when it is empty, with the next data bit masked, and a bit is
      consumed exactly when one is left; no other cell changes. */
  lemma PlaceCellSpec(st: Placing, c: (int, int), data: seq<bool>, maskPattern: int, maskBit: (int, int, int) -> bool)
    requires IsSquare(st.grid, |st.grid|) && 0 <= c.0 < |st.grid| && 0 <= c.1 < |st.grid|
    requires st.consumed <= |data|
    ensures var r := PlaceCell(st, c, data, maskPattern, maskBit);
      IsSquare(r.grid, |st.grid|) &&
      r.consumed == (if IsEmpty(At(st.grid, c)) then Min(|data|, st.consumed + 1) else st.consumed) &&
      At(r.grid, c) == (if IsEmpty(At(st.grid, c))
        then BitCode(Masked(DataBit(data, st.consumed), maskPattern, maskBit, c.0, c.1)) else At(st.grid, c)) &&
      (forall x, y :: 0 <= x < |st.grid| && 0 <= y < |st.grid| && (x, y) != c ==> r.grid[y][x] == st.grid[y][x])
  {
  }

  /** The tail of a list of distinct cells misses its head. */
  lemma DistinctTail(cells: seq<(int, int)>)
    requires Distinct(cells) && cells != []
    ensures Distinct(cells[1..]) && cells[0] !in cells[1..]
  {
    forall k | 0 <= k < |cells| - 1 ensures cells[1..][k] != cells[0] {
      assert cells[1..][k] == cells[k + 1];
    }
  }

  /** Placement consumes one bit per empty listed cell until the data runs out. */
  lemma {:induction false} PlaceAllConsumed(st: Placing, cells: seq<(int, int)>, data: seq<bool>, maskPattern: int,
                                            maskBit: (int, int, int) -> bool)
    requires IsSquare(st.grid, |st.grid|) && InSquare(|st.grid|, cells) && Distinct(cells)
    requires st.consumed <= |data|
    ensures PlaceAll(st, cells, data, maskPattern, maskBit).consumed ==
      Min(|data|, st.consumed + EmptyCount(st.grid, cells))
    decreases |cells|
  {
    if cells != [] {
      var c, rest := cells[0], cells[1..];
      var st1 := PlaceCell(st, c, data, maskPattern, maskBit);
      PlaceCellSpec(st, c, data, maskPattern, maskBit);
      DistinctTail(cells);
      assert forall k :: 0 <= k < |rest| ==> At(st1.grid, rest[k]) == At(st.grid, rest[k]);
      EmptyCountAgree(st1.grid, st.grid, rest);
      PlaceAllConsumed(st1, rest, data, maskPattern, maskBit);
    }
  }

  /** Placement leaves every cell off the list as it was. */
  lemma {:induction false} PlaceAllOthers(st: Placing, cells: seq<(int, int)>, data: seq<bool>, maskPattern: int,
                                          maskBit: (int, int, int) -> bool, x: int, y: int)
    requires IsSquare(st.grid, |st.grid|) && InSquare(|st.grid|, cells)
    requires 0 <= x < |st.grid| && 0 <= y < |st.grid| && (x, y) !in cells
    ensures IsSquare(PlaceAll(st, cells, data, maskPattern, maskBit).grid, |st.grid|)
    ensures PlaceAll(st, cells, data, maskPattern, maskBit).grid[y][x] == st.grid[y][x]
    decreases |cells|
  {
    PlaceAllShape(st, cells, data, maskPattern, maskBit);
    if cells != [] {
      var st1 := PlaceCell(st, cells[0], data, maskPattern, maskBit);
      assert (x, y) !in cells[1..];
      PlaceAllOthers(st1, cells[1..], data, maskPattern, maskBit, x, y);
    }
  }

  /** Placement writes the k-th listed cell as PlacedAt says. */
  lemma {:induction false} PlaceAllListed(st: Placing, cells: seq<(int, int)>, data: seq<bool>, maskPattern: int,
                                          maskBit: (int, int, int) -> bool, k: int)
    requires IsSquare(st.grid, |st.grid|) && InSquare(|st.grid|, cells) && Distinct(cells)
    requires st.consumed <= |data| && 0 <= k < |cells|
    ensures IsSquare(PlaceAll(st, cells, data, maskPattern, maskBit).grid, |st.grid|)
    ensures At(PlaceAll(st, cells, data, maskPattern, maskBit).grid, cells[k]) ==
      PlacedAt(st, cells, k, data, maskPattern, maskBit)
    decreases |cells|
  {
    PlaceAllShape(st, cells, data, maskPattern, maskBit);
    var c, rest := cells[0], cells[1..];
    var st1 := PlaceCell(st, c, data, maskPattern, maskBit);
    PlaceCellSpec(st, c, data, maskPattern, maskBit);
    DistinctTail(cells);
    if k == 0 {
      PlaceAllOthers(st1, rest, data, maskPattern, maskBit, c.0, c.1);
    } else {
      PlaceAllListed(st1, rest, data, maskPattern, maskBit, k - 1);
      PlacedAtTail(st, cells, data, maskPattern, maskBit, k);
    }
  }

  /** After the first cell is placed, the k-th cell's placement is the (k-1)-th of the rest. */
  lemma PlacedAtTail(st: Placing, cells: seq<(int, int)>, data: seq<bool>, maskPattern: int,
                     maskBit: (int, int, int) -> bool, k: int)
    requires IsSquare(st.grid, |st.grid|) && InSquare(|st.grid|, cells) && Distinct(cells)
    requires st.consumed <= |data| && 0 < k < |cells|
    ensures var st1 := PlaceCell(st, cells[0], data, maskPattern, maskBit);
      IsSquare(st1.grid, |st.grid|) && st1.consumed <= |data| &&
      PlacedAt(st1, cells[1..], k - 1, data, maskPattern, maskBit) == PlacedAt(st, cells, k, data, maskPattern, maskBit)
  {
    var g0, c, rest := st.grid, cells[0], cells[1..];
    var st1 := PlaceCell(st, c, data, maskPattern, maskBit);
    PlaceCellSpec(st, c, data, maskPattern, maskBit);
    DistinctTail(cells);
    assert cells[k] == rest[k - 1];
    var pre := rest[..k - 1];
    assert cells[..k][1..] == pre;
    assert forall j :: 0 <= j < |pre| ==> At(st1.grid, pre[j]) == At(g0, pre[j]) by {
      forall j | 0 <= j < |pre| ensures At(st1.grid, pre[j]) == At(g0, pre[j]) {
        assert pre[j] == rest[j];
      }
    }
    EmptyCountAgree(st1.grid, g0, pre);
    var e0 := if IsEmpty(At(g0, c)) then 1 else 0;
    assert EmptyCount(g0, cells[..k]) == e0 + EmptyCount(g0, pre);
    DataBitSaturates(data, st.consumed, e0, EmptyCount(g0, pre));
  }

  /** Bits past the end of the data all read as 0, so the consumed count may stop at the data length. */
  lemma DataBitSaturates(data: seq<bool>, b: nat, e: nat, j: nat)
    requires b <= |data|
    ensures DataBit(data, Min(|data|, b + e) + j) == DataBit(data, b + e + j)
  {
  }

  /** Undoing the mask on what was written gives back the bit. */
  lemma MaskedTwice(bit: bool, maskPattern: int, maskBit: (int, int, int) -> bool, x: int, y: int)
    ensures Masked(BitCode(Masked(bit, maskPattern, maskBit, x, y)) == 1, maskPattern, maskBit, x, y) == bit
  {
  }

  /** Reading back cells written as PlacedAt says yields the data bits from the start count on, one per
      empty cell, 0 past the end of the data. */
  lemma {:induction false} ReadBitsPlaced(g: Grid, r: Grid, cells: seq<(int, int)>, data: seq<bool>, b: nat,
                                          maskPattern: int, maskBit: (int, int, int) -> bool)
    requires IsSquare(g, |g|) && IsSquare(r, |g|) && InSquare(|g|, cells)
    requires forall k :: 0 <= k < |cells| && IsEmpty(At(g, cells[k])) ==>
      At(r, cells[k]) == BitCode(Masked(DataBit(data, b + EmptyCount(g, cells[..k])), maskPattern, maskBit,
                                        cells[k].0, cells[k].1))
    ensures forall j :: 0 <= j < |ReadBits(g, r, cells, maskPattern, maskBit)| ==>
      ReadBits(g, r, cells, maskPattern, maskBit)[j] == DataBit(data, b + j)
    decreases |cells|
  {
    if cells != [] {
      var c, rest := cells[0], cells[1..];
      var e0 := if IsEmpty(At(g, c)) then 1 else 0;
      forall k | 0 <= k < |rest| && IsEmpty(At(g, rest[k]))
        ensures At(r, rest[k]) == BitCode(Masked(DataBit(data, b + e0 + EmptyCount(g, rest[..k])), maskPattern,
                                                 maskBit, rest[k].0, rest[k].1))
      {
        assert rest[k] == cells[k + 1];
        assert cells[..k + 1][1..] == rest[..k];
      }
      ReadBitsPlaced(g, r, rest, data, b + e0, maskPattern, maskBit);
      var head := if e0 == 1 then [Masked(At(r, c) == 1, maskPattern, maskBit, c.0, c.1)] else [];
      var tail := ReadBits(g, r, rest, maskPattern, maskBit);
      assert ReadBits(g, r, cells, maskPattern, maskBit) == head + tail;
      if e0 == 1 {
        assert cells[..0] == [];
        MaskedTwice(DataBit(data, b), maskPattern, maskBit, c.0, c.1);
      }
      forall j | 0 <= j < |head + tail| ensures (head + tail)[j] == DataBit(data, b + j) {
        if j >= |head| {
          assert (head + tail)[j] == tail[j - e0];
        }
      }
    }
  }

  /** Data placement succeeds exactly when the data fits in the empty cells outside the timing column;
      a failure reports that room and the data length. */
  lemma DataBitsOutcome(g: Grid, data: seq<bool>, maskPattern: int, maskBit: (int, int, int) -> bool)
    requires IsSquare(g, |g|) && ScanSize(|g|)
    ensures var r := DataBits(g, data, maskPattern, maskBit);
      var capacity := EmptyCount(g, Scan(|g|));
      (r.Ok? <==> |data| <= capacity) &&
      (r.Err? ==> r.fault == NotAllBitsConsumed(capacity, |data|))
  {
    ScanVisitsEachOnce(|g|);
    PlaceAllConsumed(Placing(g, 0), Scan(|g|), data, maskPattern, maskBit);
  }

  /** One cell after data placement: a set cell and a timing-column cell keep their value; any other
      empty cell holds a light or dark module. */
  lemma DataBitsCell(g: Grid, data: seq<bool>, maskPattern: int, maskBit: (int, int, int) -> bool, x: int, y: int)
    requires IsSquare(g, |g|) && ScanSize(|g|) && 0 <= x < |g| && 0 <= y < |g|
    ensures IsSquare(PlaceAll(Placing(g, 0), Scan(|g|), data, maskPattern, maskBit).grid, |g|)
    ensures var r := PlaceAll(Placing(g, 0), Scan(|g|), data, maskPattern, maskBit).grid;
      (x == 6 || !IsEmpty(g[y][x]) ==> r[y][x] == g[y][x]) &&
      (x != 6 && IsEmpty(g[y][x]) ==> IsValidValue(r[y][x]) && !IsEmpty(r[y][x]))
  {
    var cells := Scan(|g|);
    PlaceAllShape(Placing(g, 0), cells, data, maskPattern, maskBit);
    ScanVisitsEachOnce(|g|);
    if (x, y) in cells {
      var k := IndexOf(cells, (x, y));
      PlaceAllListed(Placing(g, 0), cells, data, maskPattern, maskBit, k);
    } else {
      PlaceAllOthers(Placing(g, 0), cells, data, maskPattern, maskBit, x, y);
    }
  }

  /** On success every set cell and the whole timing column are unchanged and every other empty cell
      holds a light or dark module. */
  lemma DataBitsSpec(g: Grid, data: seq<bool>, maskPattern: int, maskBit: (int, int, int) -> bool)
    requires IsSquare(g, |g|) && ScanSize(|g|)
    ensures var r := DataBits(g, data, maskPattern, maskBit);
      r.Ok? ==>
        Keeps(g, r.value) &&
        (forall y :: 0 <= y < |g| ==> r.value[y][6] == g[y][6]) &&
        (forall y, x :: 0 <= y < |g| && 0 <= x < |g| && x != 6 && IsEmpty(g[y][x]) ==>
          IsValidValue(r.value[y][x]) && !IsEmpty(r.value[y][x]))
  {
    PlaceAllShape(Placing(g, 0), Scan(|g|), data, maskPattern, maskBit);
    var r := PlaceAll(Placing(g, 0), Scan(|g|), data, maskPattern, maskBit).grid;
    forall y, x | 0 <= y < |g| && 0 <= x < |g|
      ensures x == 6 || !IsEmpty(g[y][x]) ==> r[y][x] == g[y][x]
      ensures x != 6 && IsEmpty(g[y][x]) ==> IsValidValue(r[y][x]) && !IsEmpty(r[y][x])
    {
      DataBitsCell(g, data, maskPattern, maskBit, x, y);
    }
  }

  /** Masking changes only data cells: the same data placed with mask id k and with no mask (-1)
      succeeds alike, and the two symbols differ exactly at the cells outside the timing column that
      were empty and where the mask bit of k is set, which hold opposite modules there. */
  lemma MaskRoundTrip(g: Grid, data: seq<bool>, k: int, maskBit: (int, int, int) -> bool)
    requires IsSquare(g, |g|) && ScanSize(|g|) && k != -1
    ensures var plain := DataBits(g, data, -1, maskBit);
      var masked := DataBits(g, data, k, maskBit);
      (masked.Ok? <==> plain.Ok?) &&
      (masked.Ok? ==> forall y, x :: 0 <= y < |g| && 0 <= x < |g| ==>
        masked.value[y][x] ==
          if x != 6 && IsEmpty(g[y][x]) && maskBit(k, x, y) then 1 - plain.value[y][x] as int else plain.value[y][x] as int)
  {
    DataBitsOutcome(g, data, -1, maskBit);
    DataBitsOutcome(g, data, k, maskBit);
    forall y, x | 0 <= y < |g| && 0 <= x < |g|
      ensures IsSquare(PlaceAll(Placing(g, 0), Scan(|g|), data, -1, maskBit).grid, |g|)
      ensures IsSquare(PlaceAll(Placing(g, 0), Scan(|g|), data, k, maskBit).grid, |g|)
      ensures PlaceAll(Placing(g, 0), Scan(|g|), data, k, maskBit).grid[y][x] ==
        var plain := PlaceAll(Placing(g, 0), Scan(|g|), data, -1, maskBit).grid;
        if x != 6 && IsEmpty(g[y][x]) && maskBit(k, x, y) then 1 - plain[y][x] as int else plain[y][x] as int
    {
      MaskCell(g, data, k, maskBit, x, y);
    }
  }

  /** One cell of MaskRoundTrip. */
  lemma MaskCell(g: Grid, data: seq<bool>, k: int, maskBit: (int, int, int) -> bool, x: int, y: int)
    requires IsSquare(g, |g|) && ScanSize(|g|) && k != -1 && 0 <= x < |g| && 0 <= y < |g|
    ensures IsSquare(PlaceAll(Placing(g, 0), Scan(|g|), data, -1, maskBit).grid, |g|)
    ensures IsSquare(PlaceAll(Placing(g, 0), Scan(|g|), data, k, maskBit).grid, |g|)
    ensures PlaceAll(Placing(g, 0), Scan(|g|), data, k, maskBit).grid[y][x] ==
      var plain := PlaceAll(Placing(g, 0), Scan(|g|), data, -1, maskBit).grid;
      if x != 6 && IsEmpty(g[y][x]) && maskBit(k, x, y) then 1 - plain[y][x] as int else plain[y][x] as int
  {
    var cells := Scan(|g|);
    PlaceAllShape(Placing(g, 0), cells, data, -1, maskBit);
    PlaceAllShape(Placing(g, 0), cells, data, k, maskBit);
    ScanVisitsEachOnce(|g|);
    if (x, y) in cells {
      var i := IndexOf(cells, (x, y));
      PlaceAllListed(Placing(g, 0), cells, data, -1, maskBit, i);
      PlaceAllListed(Placing(g, 0), cells, data, k, maskBit, i);
    } else {
      PlaceAllOthers(Placing(g, 0), cells, data, -1, maskBit, x, y);
      PlaceAllOthers(Placing(g, 0), cells, data, k, maskBit, x, y);
    }
  }

  /** The position of c in a list that holds it. */
  function IndexOf(cells: seq<(int, int)>, c: (int, int)): (k: nat)
    requires c in cells
    ensures k < |cells| && cells[k] == c
  {
    if cells[0] == c then 0 else 1 + IndexOf(cells[1..], c)
  }

  /** Reading the placed bits back in scan order gives the data followed by the 0 padding bits. */
  lemma DataBitsReadBack(g: Grid, data: seq<bool>, maskPattern: int, maskBit: (int, int, int) -> bool)
    requires IsSquare(g, |g|) && ScanSize(|g|)
    ensures var r := DataBits(g, data, maskPattern, maskBit);
      r.Ok? ==>
        |data| <= EmptyCount(g, Scan(|g|)) &&
        ReadBits(g, r.value, Scan(|g|), maskPattern, maskBit) == data + seq(EmptyCount(g, Scan(|g|)) - |data|, _ => false)
  {
    var cells := Scan(|g|);
    ScanFromDistinct(|g|, 0, 0, 0);
    var st := Placing(g, 0);
    PlaceAllConsumed(st, cells, data, maskPattern, maskBit);
    if |data| <= EmptyCount(g, cells) {
      PlaceAllReadBack(st, cells, data, maskPattern, maskBit);
      var read := ReadBits(st.grid, PlaceAll(st, cells, data, maskPattern, maskBit).grid, cells, maskPattern, maskBit);
      assert var read := ReadBits(st.grid, PlaceAll(st, cells, data, maskPattern, maskBit).grid, cells, maskPattern, maskBit);
        forall j :: 0 <= j < |read| ==> read[j] == DataBit(data, st.consumed + j);
      forall j | 0 <= j < |read| ensures read[j] == DataBit(data, j) {
        assert read[j] == DataBit(data, st.consumed + j);
      }
      Padded(read, data);
    }
  }

  /** Reading back the cells placement wrote gives the data bits from the start count on. */
  lemma PlaceAllReadBack(st: Placing, cells: seq<(int, int)>, data: seq<bool>, maskPattern: int,
                         maskBit: (int, int, int) -> bool)
    requires IsSquare(st.grid, |st.grid|) && InSquare(|st.grid|, cells) && Distinct(cells)
    requires st.consumed <= |data|
    ensures IsSquare(PlaceAll(st, cells, data, maskPattern, maskBit).grid, |st.grid|)
    ensures var read := ReadBits(st.grid, PlaceAll(st, cells, data, maskPattern, maskBit).grid, cells, maskPattern, maskBit);
      forall j :: 0 <= j < |read| ==> read[j] == DataBit(data, st.consumed + j)
  {
    PlaceAllShape(st, cells, data, maskPattern, maskBit);
    var g, r := st.grid, PlaceAll(st, cells, data, maskPattern, maskBit).grid;
    forall k | 0 <= k < |cells| && IsEmpty(At(g, cells[k]))
      ensures At(r, cells[k]) == BitCode(Masked(DataBit(data, st.consumed + EmptyCount(g, cells[..k])), maskPattern,
                                                maskBit, cells[k].0, cells[k].1))
    {
      PlaceAllListed(st, cells, data, maskPattern, maskBit, k);
    }
    ReadBitsPlaced(g, r, cells, data, st.consumed, maskPattern, maskBit);
  }

  /** A sequence that reads data bit j at every position j is the data followed by 0 bits. */
  lemma Padded(read: seq<bool>, data: seq<bool>)
    requires |data| <= |read|
    requires forall j :: 0 <= j < |read| ==> read[j] == DataBit(data, j)
    ensures read == data + seq(|read| - |data|, _ => false)
  {
    var want := data + seq(|read| - |data|, _ => false);
    forall j | 0 <= j < |read| ensures read[j] == want[j] {
      if j < |data| {
        assert want[j] == data[j];
      } else {
        assert want[j] == false;
      }
    }
  }

  /** Placement walked the way the embedding loops walk it: from cell i of step s of pair p on, each
      cell placed in turn. The same placement as PlaceAll over ScanFrom (PlaceFromScan). */
  function PlaceFrom(st: Placing, n: int, p: int, s: int, i: int, data: seq<bool>, maskPattern: int,
                     maskBit: (int, int, int) -> bool): Placing
    requires 0 <= p && 0 <= s && 0 <= i
    decreases PairCount(n) - p, n - s, 2 - i
  {
    if p >= PairCount(n) then st
    else if s >= n then PlaceFrom(st, n, p + 1, 0, 0, data, maskPattern, maskBit)
    else if i >= 2 then PlaceFrom(st, n, p, s + 1, 0, data, maskPattern, maskBit)
    else PlaceFrom(PlaceCell(st, (RightColumn(n, p) - i, Row(n, p, s)), data, maskPattern, maskBit),
                   n, p, s, i + 1, data, maskPattern, maskBit)
  }

  /** The loop-shaped placement agrees with placement over the scan list. */
  lemma {:induction false} PlaceFromScan(st: Placing, n: int, p: int, s: int, i: int, data: seq<bool>,
                                         maskPattern: int, maskBit: (int, int, int) -> bool)
    requires 0 <= p && 0 <= s && 0 <= i
    ensures PlaceFrom(st, n, p, s, i, data, maskPattern, maskBit) ==
      PlaceAll(st, ScanFrom(n, p, s, i), data, maskPattern, maskBit)
    decreases PairCount(n) - p, n - s, 2 - i
  {
    if p >= PairCount(n) {
      assert ScanFrom(n, p, s, i) == [];
    } else if s >= n {
      assert ScanFrom(n, p, s, i) == ScanFrom(n, p + 1, 0, 0);
      assert PlaceFrom(st, n, p, s, i, data, maskPattern, maskBit) ==
        PlaceFrom(st, n, p + 1, 0, 0, data, maskPattern, maskBit);
      PlaceFromScan(st, n, p + 1, 0, 0, data, maskPattern, maskBit);
    } else if i >= 2 {
      assert ScanFrom(n, p, s, i) == ScanFrom(n, p, s + 1, 0);
      assert PlaceFrom(st, n, p, s, i, data, maskPattern, maskBit) ==
        PlaceFrom(st, n, p, s + 1, 0, data, maskPattern, maskBit);
      PlaceFromScan(st, n, p, s + 1, 0, data, maskPattern, maskBit);
    } else {
      var c := (RightColumn(n, p) - i, Row(n, p, s));
      var st' := PlaceCell(st, c, data, maskPattern, maskBit);
      assert ScanFrom(n, p, s, i) == [c] + ScanFrom(n, p, s, i + 1);
      assert PlaceFrom(st, n, p, s, i, data, maskPattern, maskBit) ==
        PlaceFrom(st', n, p, s, i + 1, data, maskPattern, maskBit);
      PlaceFromScan(st', n, p, s, i + 1, data, maskPattern, maskBit);
      PlaceAllCons(st, c, ScanFrom(n, p, s, i + 1), data, maskPattern, maskBit);
    }
  }

  lemma PlaceAllCons(st: Placing, c: (int, int), rest: seq<(int, int)>, data: seq<bool>, maskPattern: int,
                     maskBit: (int, int, int) -> bool)
    ensures PlaceAll(st, [c] + rest, data, maskPattern, maskBit) ==
      PlaceAll(PlaceCell(st, c, data, maskPattern, maskBit), rest, data, maskPattern, maskBit)
  {
    assert ([c] + rest)[1..] == rest;
  }

  /** The row step of pair p: -1 (upwards) for even pairs, +1 (downwards) for odd ones. */
  function Direction(p: int): int
  {
    if p % 2 == 0 then -1 else 1
  }

  /** Each step moves one row in the pair's direction. */
  lemma RowStep(n: int, p: int, s: int)
    ensures Row(n, p, s) + Direction(p) == Row(n, p, s + 1)
  {
  }

  /** At the end of a pair the scan turns round and moves two columns left, or three when it steps over
      the timing column. */
  lemma ScanTurns(n: nat, p: int)
    requires ScanSize(n) && 0 <= p < PairCount(n)
    ensures Direction(p + 1) == -Direction(p) && Row(n, p, n) + Direction(p + 1) == Row(n, p + 1, 0)
    ensures RightColumn(n, p) == (if PairStart(n, p) == 6 then 5 else PairStart(n, p))
    ensures RightColumn(n, p) - 2 == PairStart(n, p + 1)
  {
  }

  /** The column the outer loop holds when it reaches pair p, before it steps over the timing column. */
  function PairStart(n: int, p: int): int
  {
    if n - 1 - 2 * p >= 6 then n - 1 - 2 * p else n - 2 - 2 * p
  }

  /** The walk along a pair stays inside the symbol for its first n steps and leaves it after. */
  lemma RowInside(n: int, p: int, s: int)
    requires ScanSize(n) && 0 <= s <= n
    ensures 0 <= Row(n, p, s) < n <==> s < n
  {
  }

  /** The outer loop runs exactly over the pairs: the column stays positive until the last pair is done. */
  lemma PairsEnd(n: int, p: int)
    requires ScanSize(n) && 0 <= p <= PairCount(n)
    ensures PairStart(n, p) > 0 <==> p < PairCount(n)
  {
  }

  /** DataBits restated over the loop-shaped placement. */
  lemma DataBitsByPairs(g: Grid, data: seq<bool>, maskPattern: int, maskBit: (int, int, int) -> bool)
    requires IsSquare(g, |g|) && ScanSize(|g|)
    ensures var st := PlaceFrom(Placing(g, 0), |g|, 0, 0, 0, data, maskPattern, maskBit);
      DataBits(g, data, maskPattern, maskBit) ==
        if st.consumed != |data| then Err(NotAllBitsConsumed(st.consumed, |data|)) else Ok(st.grid)
  {
    PlaceFromScan(Placing(g, 0), |g|, 0, 0, 0, data, maskPattern, maskBit);
  }

  /** Places the data bits along the scan, masking each with the data-mask rule unless the mask id is
      -1, and fails when bits are left over. The matrix ends as DataBits says. */
  method EmbedDataBits(dataBits: seq<bool>, maskPattern: int, maskBit: (int, int, int) -> bool, m: ByteMatrix)
    returns (o: Outcome)
    requires m.Valid() && m.width == m.height && ScanSize(m.width)
    modifies m.bytes
    ensures Realizes(o, DataBits(old(m.Cells()), dataBits, maskPattern, maskBit), m.Cells())
  {
    ghost var n: nat := m.height;
    ghost var final := PlaceFrom(Placing(m.Cells(), 0), n, 0, 0, 0, dataBits, maskPattern, maskBit);
    DataBitsByPairs(m.Cells(), dataBits, maskPattern, maskBit);
    ghost var p := 0;
    var bitIndex: nat := 0;
    var direction := -1;
    // Start from the bottom-right cell.
    var x := m.width - 1;
    var y := m.height - 1;
    while x > 0
      invariant 0 <= p <= PairCount(n)
      invariant x == PairStart(n, p) && y == Row(n, p, 0) && direction == Direction(p)
      invariant bitIndex <= |dataBits|
      invariant PlaceFrom(Placing(m.Cells(), bitIndex), n, p, 0, 0, dataBits, maskPattern, maskBit) == final
      decreases x
    {
      PairsEnd(n, p);
      // Step over the vertical timing column.
      if x == 6 {
        x := x - 1;
      }
      y, bitIndex := EmbedColumnPair(dataBits, maskPattern, maskBit, m, x, y, direction, bitIndex, p, final);
      ScanTurns(n, p);
      // Turn round and move to the next pair of columns.
      direction := -direction;
      y := y + direction;
      x := x - 2;
      p := p + 1;
    }
    PairsEnd(n, p);
    assert PlaceFrom(Placing(m.Cells(), bitIndex), n, p, 0, 0, dataBits, maskPattern, maskBit) ==
      Placing(m.Cells(), bitIndex);
    // Every data bit must have been placed.
    if bitIndex != |dataBits| {
      return Failure(NotAllBitsConsumed(bitIndex, |dataBits|));
    }
    return Success;
  }

  /** The inner loop of the placement: pair p of columns, x its right column, walked from row y in the
      given direction until the scan leaves the symbol; each row visits the right cell, then the left. */
  method EmbedColumnPair(dataBits: seq<bool>, maskPattern: int, maskBit: (int, int, int) -> bool, m: ByteMatrix,
                         x: int, y0: int, direction: int, bitIndex0: nat, ghost p: int, ghost final: Placing)
    returns (y: int, bitIndex: nat)
    requires m.Valid() && m.width == m.height && ScanSize(m.width) && 0 <= p < PairCount(m.width)
    requires x == RightColumn(m.width, p) && y0 == Row(m.width, p, 0) && direction == Direction(p)
    requires bitIndex0 <= |dataBits|
    requires PlaceFrom(Placing(m.Cells(), bitIndex0), m.width, p, 0, 0, dataBits, maskPattern, maskBit) == final
    modifies m.bytes
    ensures y == Row(m.width, p, m.width) && bitIndex <= |dataBits|
    ensures PlaceFrom(Placing(m.Cells(), bitIndex), m.width, p + 1, 0, 0, dataBits, maskPattern, maskBit) == final
  {
    ghost var n: nat := m.width;
    ghost var s := 0;
    y, bitIndex := y0, bitIndex0;
    RowInside(n, p, s);
    while 0 <= y < m.height
      invariant 0 <= s <= n && y == Row(n, p, s) && bitIndex <= |dataBits|
      invariant 0 <= y < n <==> s < n
      invariant PlaceFrom(Placing(m.Cells(), bitIndex), n, p, s, 0, dataBits, maskPattern, maskBit) == final
      decreases n - s
    {
      bitIndex := EmbedRowOfPair(dataBits, maskPattern, maskBit, m, x, y, bitIndex, p, s, final);
      RowStep(n, p, s);
      y := y + direction;
      s := s + 1;
      RowInside(n, p, s);
    }
  }

  /** One row of a pair of columns: the right cell (column x), then the left one (column x - 1). */
  method EmbedRowOfPair(dataBits: seq<bool>, maskPattern: int, maskBit: (int, int, int) -> bool, m: ByteMatrix,
                        x: int, y: int, bitIndex0: nat, ghost p: int, ghost s: int, ghost final: Placing)
    returns (bitIndex: nat)
    requires m.Valid() && m.width == m.height && ScanSize(m.width) && 0 <= p < PairCount(m.width) && 0 <= s < m.width
    requires x == RightColumn(m.width, p) && y == Row(m.width, p, s) && bitIndex0 <= |dataBits|
    requires PlaceFrom(Placing(m.Cells(), bitIndex0), m.width, p, s, 0, dataBits, maskPattern, maskBit) == final
    modifies m.bytes
    ensures bitIndex <= |dataBits|
    ensures PlaceFrom(Placing(m.Cells(), bitIndex), m.width, p, s + 1, 0, dataBits, maskPattern, maskBit) == final
  {
    bitIndex := bitIndex0;
    for i := 0 to 2
      invariant bitIndex <= |dataBits|
      invariant PlaceFrom(Placing(m.Cells(), bitIndex), m.width, p, s, i, dataBits, maskPattern, maskBit) == final
    {
      var xx := x - i;
      // Skip a cell that is already set.
      if !IsEmpty(m.Get(xx, y)) {
        continue;
      }
      ghost var b := Masked(DataBit(dataBits, bitIndex), maskPattern, maskBit, xx, y);
      var bit;
      if bitIndex < |dataBits| {
        bit := if dataBits[bitIndex] then 1 else 0;
        bitIndex := bitIndex + 1;
      } else {
        // Padding bit: cells left over once the data is exhausted get 0.
        bit := 0;
      }
      if maskPattern != -1 {
        if maskBit(maskPattern, xx, y) {
          bit := 1 - bit;  // bit ^= 1 on a 0/1 value
        }
      }
      assert ToByte(bit) == BitCode(b);
      m.SetInt(xx, y, bit);
    }
  }
}
