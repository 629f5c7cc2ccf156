/** What the basic patterns leave in a symbol: where the alignment patterns of a row of centres land,
    the finder patterns and separators on a cleared symbol, and why the basic patterns of every version
    succeed on a cleared symbol. */
module PatternLayout {
  import opened ByteMatrices
  import opened Faults
  import opened QrCells
  import opened QrTables
  import opened PatternEmbedding

  /** Cell (x, y) lies under the 5x5 alignment square centred on (cx, cy). */
  predicate UnderSquare(cx: int, cy: int, x: int, y: int)
  {
    cx - 2 <= x <= cx + 2 && cy - 2 <= y <= cy + 2
  }

  /** Pair (a, b) of a row of centres (y entry a, x entry b) comes at or after pair (i, j) in the
      order of the source's two loops. */
  predicate NotBefore(a: int, b: int, i: int, j: int)
  {
    a > i || (a == i && b >= j)
  }

  /** Pair (a, b) gets an alignment pattern on g: both entries are real centres and the centre cell
      (coords[b], coords[a]) is empty. */
  predicate Stamped(g: Grid, coords: seq<int>, a: int, b: int)
    requires IsSquare(g, |g|) && CentresFit(coords, |g|)
  {
    0 <= a < |coords| && 0 <= b < |coords| && coords[a] != -1 && coords[b] != -1 &&
    IsEmpty(g[coords[a]][coords[b]])
  }

  /** Every cell of the alignment square centred on (cx, cy) is empty. */
  predicate SquareEmpty(g: Grid, cx: int, cy: int)
    requires IsSquare(g, |g|) && 2 <= cx < |g| - 2 && 2 <= cy < |g| - 2
  {
    forall y, x :: cy - 2 <= y <= cy + 2 && cx - 2 <= x <= cx + 2 ==> g[y][x] == EMPTY
  }

  /** The squares of two different pairs of a spaced row share no cell. */
  lemma SquaresApart(coords: seq<int>, a: int, b: int, a2: int, b2: int, x: int, y: int)
    requires Spaced(coords)
    requires 0 <= a < |coords| && 0 <= b < |coords| && 0 <= a2 < |coords| && 0 <= b2 < |coords|
    requires coords[a] != -1 && coords[b] != -1 && coords[a2] != -1 && coords[b2] != -1
    requires (a, b) != (a2, b2)
    ensures !(UnderSquare(coords[b], coords[a], x, y) && UnderSquare(coords[b2], coords[a2], x, y))
  {
  }

  /** The alignment pattern at a real centre whose cell is empty is placed exactly when its whole
      square is empty; the square then holds the pattern and every other cell is as it was. */
  lemma AlignAtSpec(g: Grid, cx: int, cy: int)
    requires IsSquare(g, |g|) && CentreFits(cx, |g|) && CentreFits(cy, |g|) && cx != -1 && cy != -1
    requires IsEmpty(g[cy][cx])
    ensures AlignAt(g, cx, cy).Ok? <==> SquareEmpty(g, cx, cy)
    ensures AlignAt(g, cx, cy).Ok? ==>
      var r := AlignAt(g, cx, cy).value;
      IsSquare(r, |g|) &&
      forall y, x :: 0 <= y < |g| && 0 <= x < |g| ==>
        r[y][x] == if UnderSquare(cx, cy, x, y) then POSITION_ADJUSTMENT_PATTERN[y - cy + 2][x - cx + 2] else g[y][x]
  {
    PatternShapes();
    AlignAtCases(g, cx, cy);
    StampSpec(g, cx - 2, cy - 2, POSITION_ADJUSTMENT_PATTERN);
  }

  /** After the pattern of pair (i, j) of a spaced row is placed, every later pair has the same centre
      cell and, if it is stamped, the same square emptiness as before. */
  lemma AlignStampStep(g: Grid, coords: seq<int>, i: nat, j: nat) returns (g1: Grid)
    requires IsSquare(g, |g|) && CentresFit(coords, |g|) && Spaced(coords)
    requires i < |coords| && j < |coords| && Stamped(g, coords, i, j)
    requires SquareEmpty(g, coords[j], coords[i])
    ensures AlignAt(g, coords[j], coords[i]) == Ok(g1) && IsSquare(g1, |g|)
    ensures SquareHolds(g1, coords[j], coords[i])
    ensures forall y, x :: 0 <= y < |g| && 0 <= x < |g| ==>
      g1[y][x] == if UnderSquare(coords[j], coords[i], x, y)
        then POSITION_ADJUSTMENT_PATTERN[y - coords[i] + 2][x - coords[j] + 2] else g[y][x]
    ensures forall a, b :: NotBefore(a, b, i, j + 1) ==> (Stamped(g1, coords, a, b) <==> Stamped(g, coords, a, b))
    ensures forall a, b :: NotBefore(a, b, i, j + 1) && Stamped(g, coords, a, b) ==>
      (SquareEmpty(g1, coords[b], coords[a]) <==> SquareEmpty(g, coords[b], coords[a]))
  {
    var cx, cy := coords[j], coords[i];
    AlignAtSpec(g, cx, cy);
    g1 := AlignAt(g, cx, cy).value;
    forall a, b | NotBefore(a, b, i, j + 1) && 0 <= a < |coords| && 0 <= b < |coords| &&
      coords[a] != -1 && coords[b] != -1
      ensures g1[coords[a]][coords[b]] == g[coords[a]][coords[b]]
      ensures SquareEmpty(g1, coords[b], coords[a]) <==> SquareEmpty(g, coords[b], coords[a])
    {
      SquaresApart(coords, a, b, i, j, coords[b], coords[a]);
      forall y, x | UnderSquare(coords[b], coords[a], x, y)
        ensures g1[y][x] == g[y][x]
      {
        SquaresApart(coords, a, b, i, j, x, y);
      }
    }
  }

  /** Every pair from (i, j) on that gets an alignment pattern on g has an empty square. */
  predicate SquaresClear(g: Grid, coords: seq<int>, i: int, j: int)
    requires IsSquare(g, |g|) && CentresFit(coords, |g|)
  {
    forall a, b :: 0 <= a < |coords| && 0 <= b < |coords| && NotBefore(a, b, i, j) && Stamped(g, coords, a, b) ==>
      SquareEmpty(g, coords[b], coords[a])
  }

  /** The alignment patterns of a spaced row of centres from pair (i, j) on succeed exactly when the
      square of every pair with both entries real and an empty centre is empty. Pairs with a -1 entry
      or a set centre are skipped. */
  lemma {:induction false} AlignFromOk(g: Grid, coords: seq<int>, i: nat, j: nat)
    requires IsSquare(g, |g|) && CentresFit(coords, |g|) && Spaced(coords)
    ensures AlignFrom(g, coords, i, j).Ok? <==> SquaresClear(g, coords, i, j)
    decreases |coords| - i, |coords| - j
  {
    if i < |coords| {
      if j >= |coords| {
        AlignFromOk(g, coords, i + 1, 0);
        RowEnd(g, g, coords, i, j);
      } else {
        var s := AlignAt(g, coords[j], coords[i]);
        if s.Ok? {
          AlignFromOk(s.value, coords, i, j + 1);
        }
        OkStep(g, coords, i, j);
      }
    }
  }

  /** The step of AlignFromOk at pair (i, j), from what holds after it. */
  lemma OkStep(g: Grid, coords: seq<int>, i: nat, j: nat)
    requires IsSquare(g, |g|) && CentresFit(coords, |g|) && Spaced(coords) && i < |coords| && j < |coords|
    requires var s := AlignAt(g, coords[j], coords[i]);
      s.Ok? ==> (AlignFrom(s.value, coords, i, j + 1).Ok? <==> SquaresClear(s.value, coords, i, j + 1))
    ensures AlignFrom(g, coords, i, j).Ok? <==> SquaresClear(g, coords, i, j)
  {
    if !Stamped(g, coords, i, j) {
      SkipClear(g, coords, i, j);
    } else if !SquareEmpty(g, coords[j], coords[i]) {
      AlignAtSpec(g, coords[j], coords[i]);
      assert !SquaresClear(g, coords, i, j);
    } else {
      StampClear(g, coords, i, j);
    }
  }

  /** A skipped pair leaves the grid as it is and adds no square to clear. */
  lemma SkipClear(g: Grid, coords: seq<int>, i: nat, j: nat)
    requires IsSquare(g, |g|) && CentresFit(coords, |g|) && i < |coords| && j < |coords|
    requires !Stamped(g, coords, i, j)
    ensures AlignAt(g, coords[j], coords[i]) == Ok(g)
    ensures SquaresClear(g, coords, i, j) == SquaresClear(g, coords, i, j + 1)
  {
    AlignAtCases(g, coords[j], coords[i]);
  }

  /** A stamped pair with an empty square moves the clearance of the later pairs onto the new grid. */
  lemma StampClear(g: Grid, coords: seq<int>, i: nat, j: nat)
    requires IsSquare(g, |g|) && CentresFit(coords, |g|) && Spaced(coords) && i < |coords| && j < |coords|
    requires Stamped(g, coords, i, j) && SquareEmpty(g, coords[j], coords[i])
    ensures AlignAt(g, coords[j], coords[i]).Ok?
    ensures var g1 := AlignAt(g, coords[j], coords[i]).value;
      SquaresClear(g, coords, i, j) == SquaresClear(g1, coords, i, j + 1)
  {
    var g1 := AlignStampStep(g, coords, i, j);
  }

  /** The square centred on (cx, cy) holds the 5x5 alignment pattern. */
  predicate SquareHolds(g: Grid, cx: int, cy: int)
    requires IsSquare(g, |g|) && 2 <= cx < |g| - 2 && 2 <= cy < |g| - 2
  {
    forall y, x :: cy - 2 <= y <= cy + 2 && cx - 2 <= x <= cx + 2 ==>
      g[y][x] == POSITION_ADJUSTMENT_PATTERN[y - cy + 2][x - cx + 2]
  }

  /** In r, the square of every pair from (i, j) on that gets an alignment pattern on g holds it. */
  predicate SquaresHold(r: Grid, g: Grid, coords: seq<int>, i: int, j: int)
    requires IsSquare(g, |g|) && IsSquare(r, |g|) && CentresFit(coords, |g|)
  {
    forall a, b :: 0 <= a < |coords| && 0 <= b < |coords| && NotBefore(a, b, i, j) && Stamped(g, coords, a, b) ==>
      SquareHolds(r, coords[b], coords[a])
  }

  /** Cell (x, y) lies under the square of no pair from (i, j) on that gets an alignment pattern on g. */
  predicate Unstamped(g: Grid, coords: seq<int>, i: int, j: int, x: int, y: int)
    requires IsSquare(g, |g|) && CentresFit(coords, |g|)
  {
    forall a, b :: 0 <= a < |coords| && 0 <= b < |coords| && NotBefore(a, b, i, j) && Stamped(g, coords, a, b) ==>
      !UnderSquare(coords[b], coords[a], x, y)
  }

  /** When they succeed, the alignment patterns from pair (i, j) on put the 5x5 pattern on the square
      of every stamped pair, centred on (coords[b], coords[a]). */
  lemma {:induction false} AlignFromWrites(g: Grid, coords: seq<int>, i: nat, j: nat)
    requires IsSquare(g, |g|) && CentresFit(coords, |g|) && Spaced(coords)
    ensures AlignFrom(g, coords, i, j).Ok? ==> SquaresHold(AlignFrom(g, coords, i, j).value, g, coords, i, j)
    decreases |coords| - i, |coords| - j
  {
    if i < |coords| {
      if j >= |coords| {
        AlignFromWrites(g, coords, i + 1, 0);
        WritesRowEnd(g, coords, i, j);
      } else {
        var s := AlignAt(g, coords[j], coords[i]);
        if s.Ok? {
          AlignFromWrites(s.value, coords, i, j + 1);
        }
        WritesStep(g, coords, i, j);
      }
    } else {
      WritesDone(g, coords, i, j);
    }
  }

  /** With no pairs left, nothing is written and nothing has to hold. */
  lemma WritesDone(g: Grid, coords: seq<int>, i: nat, j: nat)
    requires IsSquare(g, |g|) && CentresFit(coords, |g|) && |coords| <= i
    ensures AlignFrom(g, coords, i, j).Ok? ==> SquaresHold(AlignFrom(g, coords, i, j).value, g, coords, i, j)
  {
    assert AlignFrom(g, coords, i, j) == Ok(g);
  }

  /** Past the last x entry of row i, the pairs from (i, j) on are those from (i + 1, 0) on. */
  lemma RowEnd(g: Grid, r: Grid, coords: seq<int>, i: nat, j: nat)
    requires IsSquare(g, |g|) && IsSquare(r, |g|) && CentresFit(coords, |g|) && i < |coords| <= j
    ensures AlignFrom(g, coords, i, j) == AlignFrom(g, coords, i + 1, 0)
    ensures SquaresClear(g, coords, i, j) == SquaresClear(g, coords, i + 1, 0)
    ensures SquaresHold(r, g, coords, i, j) == SquaresHold(r, g, coords, i + 1, 0)
    ensures LeavesAlone(r, g, coords, i, j) == LeavesAlone(r, g, coords, i + 1, 0)
  {
    assert forall a, b :: 0 <= b < |coords| ==> (NotBefore(a, b, i, j) <==> NotBefore(a, b, i + 1, 0));
    assert forall x, y :: Unstamped(g, coords, i, j, x, y) == Unstamped(g, coords, i + 1, 0, x, y);
  }

  /** AlignFromWrites past the last x entry of row i, from the next row. */
  lemma WritesRowEnd(g: Grid, coords: seq<int>, i: nat, j: nat)
    requires IsSquare(g, |g|) && CentresFit(coords, |g|) && i < |coords| <= j
    requires AlignFrom(g, coords, i + 1, 0).Ok? ==> SquaresHold(AlignFrom(g, coords, i + 1, 0).value, g, coords, i + 1, 0)
    ensures AlignFrom(g, coords, i, j).Ok? ==> SquaresHold(AlignFrom(g, coords, i, j).value, g, coords, i, j)
  {
    if AlignFrom(g, coords, i, j).Ok? {
      RowEnd(g, AlignFrom(g, coords, i, j).value, coords, i, j);
    }
  }

  /** The step of AlignFromWrites at pair (i, j), from what holds after it. */
  lemma WritesStep(g: Grid, coords: seq<int>, i: nat, j: nat)
    requires IsSquare(g, |g|) && CentresFit(coords, |g|) && Spaced(coords) && i < |coords| && j < |coords|
    requires var s := AlignAt(g, coords[j], coords[i]);
      s.Ok? && AlignFrom(s.value, coords, i, j + 1).Ok? ==>
        SquaresHold(AlignFrom(s.value, coords, i, j + 1).value, s.value, coords, i, j + 1)
    ensures AlignFrom(g, coords, i, j).Ok? ==> SquaresHold(AlignFrom(g, coords, i, j).value, g, coords, i, j)
  {
    var s := AlignAt(g, coords[j], coords[i]);
    if s.Err? {
      return;
    }
    var g1 := s.value;
    AlignFromLeaves(g1, coords, i, j + 1);
    var r := AlignFrom(g1, coords, i, j + 1);
    assert AlignFrom(g, coords, i, j) == r;
    if !Stamped(g, coords, i, j) {
      AlignAtCases(g, coords[j], coords[i]);
      if r.Ok? {
        assert SquaresHold(r.value, g, coords, i, j + 1);
      }
    } else {
      AlignAtSpec(g, coords[j], coords[i]);
      var g2 := AlignStampStep(g, coords, i, j);
      if r.Ok? {
        StampedSquareKept(g1, r.value, coords, i, j);
        SquaresHoldBack(g, g1, r.value, coords, i, j);
      }
    }
  }

  /** What holds in r for the pairs after (i, j) on g1 = AlignAt(g, ...) and for pair (i, j) itself
      holds for the pairs from (i, j) on g. */
  lemma SquaresHoldBack(g: Grid, g1: Grid, r: Grid, coords: seq<int>, i: nat, j: nat)
    requires IsSquare(g, |g|) && IsSquare(r, |g|) && CentresFit(coords, |g|) && Spaced(coords)
    requires i < |coords| && j < |coords| && Stamped(g, coords, i, j) && SquareEmpty(g, coords[j], coords[i])
    requires AlignAt(g, coords[j], coords[i]) == Ok(g1)
    requires SquareHolds(r, coords[j], coords[i]) && SquaresHold(r, g1, coords, i, j + 1)
    ensures SquaresHold(r, g, coords, i, j)
  {
    var g2 := AlignStampStep(g, coords, i, j);
    assert g2 == g1;
  }

  /** In r, every cell of g under no square of a pair from (i, j) on that gets a pattern is as it was. */
  predicate LeavesAlone(r: Grid, g: Grid, coords: seq<int>, i: int, j: int)
    requires IsSquare(g, |g|) && IsSquare(r, |g|) && CentresFit(coords, |g|)
  {
    forall y, x :: 0 <= y < |g| && 0 <= x < |g| && Unstamped(g, coords, i, j, x, y) ==> r[y][x] == g[y][x]
  }

  /** The pattern placed for pair (i, j) survives the later pairs: no later square overlaps it. */
  lemma StampedSquareKept(g1: Grid, r: Grid, coords: seq<int>, i: nat, j: nat)
    requires IsSquare(g1, |g1|) && IsSquare(r, |g1|) && CentresFit(coords, |g1|) && Spaced(coords)
    requires i < |coords| && j < |coords| && coords[i] != -1 && coords[j] != -1
    requires SquareHolds(g1, coords[j], coords[i])
    requires LeavesAlone(r, g1, coords, i, j + 1)
    ensures SquareHolds(r, coords[j], coords[i])
  {
    var cx, cy := coords[j], coords[i];
    forall y, x | cy - 2 <= y <= cy + 2 && cx - 2 <= x <= cx + 2
      ensures r[y][x] == g1[y][x]
    {
      forall a2, b2 | 0 <= a2 < |coords| && 0 <= b2 < |coords| && NotBefore(a2, b2, i, j + 1) &&
        Stamped(g1, coords, a2, b2)
        ensures !UnderSquare(coords[b2], coords[a2], x, y)
      {
        SquaresApart(coords, i, j, a2, b2, x, y);
      }
      assert Unstamped(g1, coords, i, j + 1, x, y);
    }
  }

  /** When they succeed, the alignment patterns from pair (i, j) on leave every cell under no stamped
      pair's square as it was. */
  lemma {:induction false} AlignFromLeaves(g: Grid, coords: seq<int>, i: nat, j: nat)
    requires IsSquare(g, |g|) && CentresFit(coords, |g|) && Spaced(coords)
    ensures AlignFrom(g, coords, i, j).Ok? ==> LeavesAlone(AlignFrom(g, coords, i, j).value, g, coords, i, j)
    decreases |coords| - i, |coords| - j
  {
    if i < |coords| {
      if j >= |coords| {
        AlignFromLeaves(g, coords, i + 1, 0);
        LeavesRowEnd(g, coords, i, j);
      } else {
        var s := AlignAt(g, coords[j], coords[i]);
        if s.Ok? {
          AlignFromLeaves(s.value, coords, i, j + 1);
        }
        LeavesStep(g, coords, i, j);
      }
    } else {
      assert LeavesAlone(g, g, coords, i, j);
    }
  }

  /** AlignFromLeaves past the last x entry of row i, from the next row. */
  lemma LeavesRowEnd(g: Grid, coords: seq<int>, i: nat, j: nat)
    requires IsSquare(g, |g|) && CentresFit(coords, |g|) && i < |coords| <= j
    requires AlignFrom(g, coords, i + 1, 0).Ok? ==> LeavesAlone(AlignFrom(g, coords, i + 1, 0).value, g, coords, i + 1, 0)
    ensures AlignFrom(g, coords, i, j).Ok? ==> LeavesAlone(AlignFrom(g, coords, i, j).value, g, coords, i, j)
  {
    if AlignFrom(g, coords, i, j).Ok? {
      RowEnd(g, AlignFrom(g, coords, i, j).value, coords, i, j);
    }
  }

  /** The step of AlignFromLeaves at pair (i, j), from what holds after it. */
  lemma LeavesStep(g: Grid, coords: seq<int>, i: nat, j: nat)
    requires IsSquare(g, |g|) && CentresFit(coords, |g|) && Spaced(coords) && i < |coords| && j < |coords|
    requires var s := AlignAt(g, coords[j], coords[i]);
      s.Ok? && AlignFrom(s.value, coords, i, j + 1).Ok? ==>
        LeavesAlone(AlignFrom(s.value, coords, i, j + 1).value, s.value, coords, i, j + 1)
    ensures AlignFrom(g, coords, i, j).Ok? ==> LeavesAlone(AlignFrom(g, coords, i, j).value, g, coords, i, j)
  {
    if !Stamped(g, coords, i, j) {
      LeavesSkip(g, coords, i, j);
    } else if !SquareEmpty(g, coords[j], coords[i]) {
      AlignAtSpec(g, coords[j], coords[i]);
    } else {
      LeavesStamp(g, coords, i, j);
    }
  }

  /** A pair that gets no pattern changes nothing, and its cells stay unstamped by the later pairs. */
  lemma LeavesSkip(g: Grid, coords: seq<int>, i: nat, j: nat)
    requires IsSquare(g, |g|) && CentresFit(coords, |g|) && i < |coords| && j < |coords|
    requires !Stamped(g, coords, i, j)
    requires AlignFrom(g, coords, i, j + 1).Ok? ==> LeavesAlone(AlignFrom(g, coords, i, j + 1).value, g, coords, i, j + 1)
    ensures AlignFrom(g, coords, i, j).Ok? ==> LeavesAlone(AlignFrom(g, coords, i, j).value, g, coords, i, j)
  {
    AlignAtCases(g, coords[j], coords[i]);
    assert AlignFrom(g, coords, i, j) == AlignFrom(g, coords, i, j + 1);
    assert forall y, x :: Unstamped(g, coords, i, j, x, y) ==> Unstamped(g, coords, i, j + 1, x, y);
  }

  /** A pair whose square is stamped leaves every cell outside that square to the later pairs. */
  lemma LeavesStamp(g: Grid, coords: seq<int>, i: nat, j: nat)
    requires IsSquare(g, |g|) && CentresFit(coords, |g|) && Spaced(coords) && i < |coords| && j < |coords|
    requires Stamped(g, coords, i, j) && SquareEmpty(g, coords[j], coords[i])
    requires var s := AlignAt(g, coords[j], coords[i]);
      s.Ok? && AlignFrom(s.value, coords, i, j + 1).Ok? ==>
        LeavesAlone(AlignFrom(s.value, coords, i, j + 1).value, s.value, coords, i, j + 1)
    ensures AlignFrom(g, coords, i, j).Ok? ==> LeavesAlone(AlignFrom(g, coords, i, j).value, g, coords, i, j)
  {
    var g1 := AlignStampStep(g, coords, i, j);
    var r := AlignFrom(g1, coords, i, j + 1);
    assert AlignFrom(g, coords, i, j) == r;
    if r.Ok? {
      forall y, x | 0 <= y < |g| && 0 <= x < |g| && Unstamped(g, coords, i, j, x, y)
        ensures r.value[y][x] == g[y][x]
      {
        assert !UnderSquare(coords[j], coords[i], x, y);
        assert Unstamped(g1, coords, i, j + 1, x, y);
      }
    }
  }

  /** The alignment patterns of a version, as its table row gives them: none below version 2; from
      version 2 on they succeed exactly when every pair of real centres whose centre cell is empty has
      an empty square, and then each such square holds the 5x5 pattern with its top-left cell at
      (coords[b] - 2, coords[a] - 2) and every cell under no such square is as it was. */
  lemma AlignmentSpec(g: Grid, version: int)
    requires 1 <= version <= 40 && IsSquare(g, SymbolSize(version))
    ensures version < 2 ==> Alignment(g, version) == Ok(g)
    ensures 2 <= version ==>
      var coords := POSITION_ADJUSTMENT_PATTERN_COORDINATE_TABLE[version - 1];
      var r := Alignment(g, version);
      CentresFit(coords, |g|) && Spaced(coords) &&
      (r.Ok? <==> SquaresClear(g, coords, 0, 0)) &&
      (r.Ok? ==> SquaresHold(r.value, g, coords, 0, 0) && LeavesAlone(r.value, g, coords, 0, 0))
  {
    if 2 <= version {
      CentreTableFits(version);
      CentreTableApart(version);
      var coords := POSITION_ADJUSTMENT_PATTERN_COORDINATE_TABLE[version - 1];
      AlignFromOk(g, coords, 0, 0);
      AlignFromWrites(g, coords, 0, 0);
      AlignFromLeaves(g, coords, 0, 0);
    }
  }

  /** Every entry of the pattern is a set code, light or dark. */
  predicate AllSet(p: Grid)
  {
    forall y, x :: 0 <= y < |p| && 0 <= x < |p[y]| ==> p[y][x] == Light.Code() || p[y][x] == Dark.Code()
  }

  /** The four fixed patterns hold only set codes; the separators are light; the alignment pattern's middle row and column
      alternate dark, light, dark, light, dark. */
  lemma PatternsSet()
    ensures AllSet(POSITION_DETECTION_PATTERN) && AllSet(HORIZONTAL_SEPARATION_PATTERN)
    ensures AllSet(VERTICAL_SEPARATION_PATTERN) && AllSet(POSITION_ADJUSTMENT_PATTERN)
    ensures forall k :: 0 <= k < 8 ==> HORIZONTAL_SEPARATION_PATTERN[0][k] == Light.Code()
    ensures forall k :: 0 <= k < 7 ==> VERTICAL_SEPARATION_PATTERN[k][0] == Light.Code()
    ensures forall k :: 0 <= k < 5 ==>
      POSITION_ADJUSTMENT_PATTERN[2][k] == (k + 1) % 2 && POSITION_ADJUSTMENT_PATTERN[k][2] == (k + 1) % 2
  {
  }

  /** Stamp k of the nine finder and separator stamps of an n-by-n symbol, in the source's order (three
      finders, three separator rows, three separator columns): its top-left cell and its pattern. */
  function FinderStamp(n: int, k: int): (s: (int, int, Grid))
    ensures IsPattern(s.2)
  {
    PatternShapes();
    if k == 0 then (0, 0, POSITION_DETECTION_PATTERN)
    else if k == 1 then (n - 7, 0, POSITION_DETECTION_PATTERN)
    else if k == 2 then (0, n - 7, POSITION_DETECTION_PATTERN)
    else if k == 3 then (0, 7, HORIZONTAL_SEPARATION_PATTERN)
    else if k == 4 then (n - 8, 7, HORIZONTAL_SEPARATION_PATTERN)
    else if k == 5 then (0, n - 8, HORIZONTAL_SEPARATION_PATTERN)
    else if k == 6 then (7, 0, VERTICAL_SEPARATION_PATTERN)
    else if k == 7 then (n - 8, 0, VERTICAL_SEPARATION_PATTERN)
    else (7, n - 7, VERTICAL_SEPARATION_PATTERN)
  }

  /** Stamp k covers cell (x, y). */
  predicate StampCovers(n: int, k: int, x: int, y: int)
  {
    var s := FinderStamp(n, k);
    Covers(s.2, s.0, s.1, x, y)
  }

  /** The code stamp k writes at a cell it covers. */
  function StampValue(n: int, k: int, x: int, y: int): Byte
    requires StampCovers(n, k, x, y)
  {
    var s := FinderStamp(n, k);
    s.2[y - s.1][x - s.0]
  }

  /** Cell (x, y) after the first k stamps on a cleared n-by-n symbol. */
  function StageCell(n: int, k: nat, x: int, y: int): Byte
  {
    if k == 0 then EMPTY
    else if StampCovers(n, k - 1, x, y) then StampValue(n, k - 1, x, y)
    else StageCell(n, k - 1, x, y)
  }

  /** The cleared n-by-n symbol after its first k stamps. */
  function Stage(n: nat, k: nat): (g: Grid)
    ensures IsSquare(g, n)
  {
    seq(n, y => seq(n, x => StageCell(n, k, x, y)))
  }

  /** Two different stamps never cover the same cell of a symbol of side at least 21. */
  lemma StampsApart(n: int, i: int, k: int, x: int, y: int)
    requires n >= 21 && 0 <= i < k < 9
    ensures !(StampCovers(n, i, x, y) && StampCovers(n, k, x, y))
  {
    PatternShapes();
  }

  /** A cell that a later stamp m covers is still empty after the first k stamps. */
  lemma {:induction false} StageEmptyFor(n: int, k: nat, m: int, x: int, y: int)
    requires n >= 21 && k <= m < 9 && StampCovers(n, m, x, y)
    ensures StageCell(n, k, x, y) == EMPTY
  {
    if k > 0 {
      StampsApart(n, k - 1, m, x, y);
      StageEmptyFor(n, k - 1, m, x, y);
    }
  }

  /** A cell that stamp m covers holds stamp m's code once m is placed. */
  lemma {:induction false} StageCovered(n: int, k: nat, m: int, x: int, y: int)
    requires n >= 21 && 0 <= m < k <= 9 && StampCovers(n, m, x, y)
    ensures StageCell(n, k, x, y) == StampValue(n, m, x, y)
  {
    if m < k - 1 {
      StampsApart(n, m, k - 1, x, y);
      StageCovered(n, k - 1, m, x, y);
    }
  }

  /** A cell that none of the first k stamps covers is still empty. */
  lemma {:induction false} StageUncovered(n: int, k: nat, x: int, y: int)
    requires forall m :: 0 <= m < k ==> !StampCovers(n, m, x, y)
    ensures StageCell(n, k, x, y) == EMPTY
  {
    if k > 0 {
      StageUncovered(n, k - 1, x, y);
    }
  }

  /** Stamp k meets only empty cells of the symbol after the first k stamps, so it succeeds and gives
      the next stage. */
  lemma StageStep(n: nat, k: nat)
    requires n >= 21 && k < 9
    ensures var s := FinderStamp(n, k);
      Fits(Stage(n, k), s.0, s.1, s.2) && Stamp(Stage(n, k), s.0, s.1, s.2) == Ok(Stage(n, k + 1))
  {
    StageRegionEmpty(n, k);
    StageOverlay(n, k);
  }

  lemma StageRegionEmpty(n: nat, k: nat)
    requires n >= 21 && k < 9
    ensures var s := FinderStamp(n, k);
      Fits(Stage(n, k), s.0, s.1, s.2) && RegionEmpty(Stage(n, k), s.0, s.1, s.2)
  {
    PatternShapes();
    var s := FinderStamp(n, k);
    forall y, x | s.1 <= y < s.1 + |s.2| && s.0 <= x < s.0 + |s.2[0]|
      ensures Stage(n, k)[y][x] == EMPTY
    {
      StageEmptyFor(n, k, k, x, y);
    }
  }

  lemma StageOverlay(n: nat, k: nat)
    requires k < 9
    ensures var s := FinderStamp(n, k);
      Overlay(Stage(n, k), s.0, s.1, s.2) == Stage(n, k + 1)
  {
    var s := FinderStamp(n, k);
    var r := Overlay(Stage(n, k), s.0, s.1, s.2);
    forall y, x | 0 <= y < n && 0 <= x < n
      ensures r[y][x] == Stage(n, k + 1)[y][x]
    {
    }
    GridExt(r, Stage(n, k + 1));
  }

  /** On a cleared symbol of side at least 21, the finders and separators all succeed, giving the
      symbol after all nine stamps. */
  lemma FindersOnCleared(n: nat)
    requires n >= 21
    ensures FindersAndSeparators(Cleared(n)) == Ok(Stage(n, 9))
  {
    forall y, x | 0 <= y < n && 0 <= x < n
      ensures Cleared(n)[y][x] == Stage(n, 0)[y][x]
    {
    }
    GridExt(Cleared(n), Stage(n, 0));
    DetectionStages(n);
    HorizontalStages(n);
    VerticalStages(n);
  }

  /** The three finders are stamps 0 to 2. */
  lemma DetectionStages(n: nat)
    requires n >= 21
    ensures DetectionPatterns(Stage(n, 0)) == Ok(Stage(n, 3))
  {
    StageStep(n, 0);
    StageStep(n, 1);
    StageStep(n, 2);
  }

  /** The three separator rows are stamps 3 to 5. */
  lemma HorizontalStages(n: nat)
    requires n >= 21
    ensures HorizontalSeparators(Stage(n, 3)) == Ok(Stage(n, 6))
  {
    StageStep(n, 3);
    StageStep(n, 4);
    StageStep(n, 5);
  }

  /** The three separator columns are stamps 6 to 8. */
  lemma VerticalStages(n: nat)
    requires n >= 21
    ensures VerticalSeparators(Stage(n, 6)) == Ok(Stage(n, 9))
  {
    StageStep(n, 6);
    StageStep(n, 7);
    StageStep(n, 8);
  }

  /** Cell (x, y) lies in one of the three 8x8 corners (a finder with its separators) of an n-by-n symbol. */
  predicate InFinderCorner(n: int, x: int, y: int)
  {
    (x < 8 && y < 8) || (n - 8 <= x && y < 8) || (x < 8 && n - 8 <= y)
  }

  /** The stamp that covers a corner cell. */
  function CoveringStamp(n: int, x: int, y: int): (m: int)
    requires n >= 21 && 0 <= x < n && 0 <= y < n && InFinderCorner(n, x, y)
    ensures 0 <= m < 9 && StampCovers(n, m, x, y)
  {
    PatternShapes();
    if x < 7 && y < 7 then 0
    else if n - 7 <= x && y < 7 then 1
    else if x < 7 && n - 7 <= y then 2
    else if y == 7 && x < 8 then 3
    else if y == 7 then 4
    else if y == n - 8 then 5
    else if x == 7 && y < 7 then 6
    else if x == n - 8 then 7
    else 8
  }

  /** A stamp writes a set code on every cell it covers. */
  lemma StampValueSet(n: int, m: int, x: int, y: int)
    requires StampCovers(n, m, x, y)
    ensures StampValue(n, m, x, y) == Light.Code() || StampValue(n, m, x, y) == Dark.Code()
  {
    PatternsSet();
  }

  /** After the nine stamps exactly the cells of the three corners are set, each light or dark. */
  lemma FinderCorners(n: nat)
    requires n >= 21
    ensures forall y, x :: 0 <= y < n && 0 <= x < n ==>
      (Stage(n, 9)[y][x] != EMPTY <==> InFinderCorner(n, x, y))
    ensures AllValid(Stage(n, 9))
  {
    forall y, x | 0 <= y < n && 0 <= x < n
      ensures Stage(n, 9)[y][x] != EMPTY <==> InFinderCorner(n, x, y)
      ensures IsValidValue(Stage(n, 9)[y][x])
    {
      if InFinderCorner(n, x, y) {
        var m := CoveringStamp(n, x, y);
        StageCovered(n, 9, m, x, y);
        StampValueSet(n, m, x, y);
      } else {
        forall m | 0 <= m < 9
          ensures !StampCovers(n, m, x, y)
        {
          PatternShapes();
        }
        StageUncovered(n, 9, x, y);
      }
    }
  }

  /** The three finder patterns sit in the corners of the n-by-n grid g, and the separator cells that
      border them are light: row 7 and column 7 at both of their ends, row n - 8 and column n - 8 at
      their starts. */
  predicate FindersInPlace(g: Grid, n: nat)
    requires IsSquare(g, n) && n >= 21
  {
    (forall y, x :: 0 <= y < 7 && 0 <= x < 7 ==> g[y][x] == POSITION_DETECTION_PATTERN[y][x]) &&
    (forall y, x :: 0 <= y < 7 && n - 7 <= x < n ==> g[y][x] == POSITION_DETECTION_PATTERN[y][x - (n - 7)]) &&
    (forall y, x :: n - 7 <= y < n && 0 <= x < 7 ==> g[y][x] == POSITION_DETECTION_PATTERN[y - (n - 7)][x]) &&
    (forall k :: 0 <= k < n && (k < 8 || n - 8 <= k) ==> g[7][k] == Light.Code() && g[k][7] == Light.Code()) &&
    (forall y, k :: y == n - 8 && 0 <= k < 8 ==> g[y][k] == Light.Code()) &&
    (forall k :: 0 <= k < 8 ==> g[k][n - 8] == Light.Code())
  }

  /** The nine stamps put the finders and their separators in place. */
  lemma FindersPlaced(n: nat)
    requires n >= 21
    ensures FindersInPlace(Stage(n, 9), n)
  {
    FinderPatternsPlaced(n);
    SeparatorsPlaced(n);
  }

  lemma FinderPatternsPlaced(n: nat)
    requires n >= 21
    ensures var g := Stage(n, 9);
      (forall y, x :: 0 <= y < 7 && 0 <= x < 7 ==> g[y][x] == POSITION_DETECTION_PATTERN[y][x]) &&
      (forall y, x :: 0 <= y < 7 && n - 7 <= x < n ==> g[y][x] == POSITION_DETECTION_PATTERN[y][x - (n - 7)]) &&
      (forall y, x :: n - 7 <= y < n && 0 <= x < 7 ==> g[y][x] == POSITION_DETECTION_PATTERN[y - (n - 7)][x])
  {
    forall y, x | 0 <= y < 7 && 0 <= x < 7
      ensures Stage(n, 9)[y][x] == POSITION_DETECTION_PATTERN[y][x]
    {
      FinderCell(n, 0, x, y);
    }
    forall y, x | 0 <= y < 7 && n - 7 <= x < n
      ensures Stage(n, 9)[y][x] == POSITION_DETECTION_PATTERN[y][x - (n - 7)]
    {
      FinderCell(n, 1, x, y);
    }
    forall y, x | n - 7 <= y < n && 0 <= x < 7
      ensures Stage(n, 9)[y][x] == POSITION_DETECTION_PATTERN[y - (n - 7)][x]
    {
      FinderCell(n, 2, x, y);
    }
  }

  /** A cell that finder stamp m covers holds the finder pattern's code after the nine stamps. */
  lemma FinderCell(n: nat, m: int, x: int, y: int)
    requires n >= 21 && 0 <= m < 3 && 0 <= x < n && 0 <= y < n && StampCovers(n, m, x, y)
    ensures Stage(n, 9)[y][x] ==
      POSITION_DETECTION_PATTERN[y - FinderStamp(n, m).1][x - FinderStamp(n, m).0]
  {
    StageCovered(n, 9, m, x, y);
  }

  lemma SeparatorsPlaced(n: nat)
    requires n >= 21
    ensures var g := Stage(n, 9);
      (forall k :: 0 <= k < n && (k < 8 || n - 8 <= k) ==> g[7][k] == Light.Code() && g[k][7] == Light.Code()) &&
      (forall y, k :: y == n - 8 && 0 <= k < 8 ==> g[y][k] == Light.Code()) &&
      (forall k :: 0 <= k < 8 ==> g[k][n - 8] == Light.Code())
  {
    PatternsSet();
    var g := Stage(n, 9);
    forall k | 0 <= k < n && (k < 8 || n - 8 <= k)
      ensures g[7][k] == Light.Code() && g[k][7] == Light.Code()
    {
      SeparatorCell(n, if k < 8 then 3 else 4, k, 7);
      SeparatorCell(n, if k < 7 then 6 else if k == 7 then 3 else if k == n - 8 then 5 else 8, 7, k);
    }
    forall y, k | y == n - 8 && 0 <= k < 8
      ensures g[y][k] == Light.Code()
    {
      SeparatorCell(n, 5, k, y);
    }
    forall k | 0 <= k < 8
      ensures g[k][n - 8] == Light.Code()
    {
      SeparatorCell(n, if k < 7 then 7 else 4, n - 8, k);
    }
  }

  /** A cell that a separator stamp covers is light after the nine stamps. */
  lemma SeparatorCell(n: nat, m: int, x: int, y: int)
    requires n >= 21 && 3 <= m < 9 && 0 <= x < n && 0 <= y < n && StampCovers(n, m, x, y)
    ensures Stage(n, 9)[y][x] == Light.Code()
  {
    PatternsSet();
    StageCovered(n, 9, m, x, y);
  }

  /** Every cell of the finders and separators is set, so a grid that keeps every set cell keeps them. */
  lemma FindersKept(a: Grid, b: Grid, n: nat)
    requires IsSquare(a, n) && n >= 21 && Keeps(a, b) && FindersInPlace(a, n)
    ensures IsSquare(b, n) && FindersInPlace(b, n)
  {
    PatternShapes();
    PatternsSet();
  }

  /** The finders and separators on a cleared symbol with the dark dot added. */
  function Dotted(n: nat): (g: Grid)
    requires n >= 21
    ensures IsSquare(g, n)
  {
    SetCell(Stage(n, 9), 8, n - 8, Dark.Code())
  }

  /** The timing cells (i, 6) and (6, i) between the separators are empty or already hold the
      alternating bit (i + 1) mod 2. */
  predicate TimingReady(g: Grid, n: nat)
    requires IsSquare(g, n)
  {
    forall i :: 8 <= i < n - 8 ==>
      (g[6][i] == EMPTY || g[6][i] == (i + 1) % 2) && (g[i][6] == EMPTY || g[i][6] == (i + 1) % 2)
  }

  /** The dark dot goes on the finders and separators of a cleared symbol: its cell is outside the
      corners, so it is empty. The cells then set are those of the corners and the dot. */
  lemma DottedStage(n: nat)
    requires n >= 21
    ensures DarkDot(Stage(n, 9)) == Ok(Dotted(n))
    ensures forall y, x :: 0 <= y < n && 0 <= x < n ==>
      (Dotted(n)[y][x] != EMPTY <==> InFinderCorner(n, x, y) || (x, y) == (8, n - 8))
    ensures AllValid(Dotted(n)) && Keeps(Stage(n, 9), Dotted(n)) && TimingReady(Dotted(n), n)
  {
    FinderCorners(n);
    DarkDotSpec(Stage(n, 9));
  }

  /** An alignment square with centres clear of the corners meets a corner cell or the dark dot only
      when its centre lies in a corner. */
  lemma SquareMeetsCorner(n: int, cx: int, cy: int, x: int, y: int)
    requires n >= 21 && ClearOfCorners(cx, n) && ClearOfCorners(cy, n) && cx != -1 && cy != -1
    requires UnderSquare(cx, cy, x, y)
    ensures InFinderCorner(n, x, y) || (x, y) == (8, n - 8) ==> InFinderCorner(n, cx, cy)
  {
  }

  /** On the finders, separators and dark dot of a cleared symbol, every pair of a row of centres clear
      of the corners whose centre cell is empty has an empty square. */
  lemma DottedSquaresClear(n: nat, coords: seq<int>)
    requires n >= 21 && CentresFit(coords, n) && Spaced(coords) && CentresClear(coords, n)
    ensures SquaresClear(Dotted(n), coords, 0, 0)
  {
    var g := Dotted(n);
    DottedStage(n);
    forall a, b | 0 <= a < |coords| && 0 <= b < |coords| && NotBefore(a, b, 0, 0) && Stamped(g, coords, a, b)
      ensures SquareEmpty(g, coords[b], coords[a])
    {
      var cx, cy := coords[b], coords[a];
      assert ClearOfCorners(cx, n) && ClearOfCorners(cy, n);
      assert !InFinderCorner(n, cx, cy);
      forall y, x | cy - 2 <= y <= cy + 2 && cx - 2 <= x <= cx + 2
        ensures g[y][x] == EMPTY
      {
        SquareMeetsCorner(n, cx, cy, x, y);
      }
    }
  }

  /** Every cell the alignment patterns leave is either as it was or a cell of a placed pattern. */
  lemma AlignedValid(g: Grid, r: Grid, coords: seq<int>)
    requires IsSquare(g, |g|) && IsSquare(r, |g|) && CentresFit(coords, |g|) && AllValid(g)
    requires SquaresHold(r, g, coords, 0, 0) && LeavesAlone(r, g, coords, 0, 0)
    ensures AllValid(r)
  {
    forall y, x | 0 <= y < |r| && 0 <= x < |r[y]|
      ensures IsValidValue(r[y][x])
    {
      if !Unstamped(g, coords, 0, 0, x, y) {
        var a, b :| 0 <= a < |coords| && 0 <= b < |coords| && NotBefore(a, b, 0, 0) && Stamped(g, coords, a, b) &&
          UnderSquare(coords[b], coords[a], x, y);
        SquareCellSet(r, coords[b], coords[a], x, y);
      }
    }
  }

  /** A cell of a square that holds the alignment pattern is light or dark. */
  lemma SquareCellSet(r: Grid, cx: int, cy: int, x: int, y: int)
    requires IsSquare(r, |r|) && 2 <= cx < |r| - 2 && 2 <= cy < |r| - 2
    requires SquareHolds(r, cx, cy) && UnderSquare(cx, cy, x, y)
    ensures r[y][x] == Light.Code() || r[y][x] == Dark.Code()
  {
    PatternsSet();
    PatternShapes();
    assert r[y][x] == POSITION_ADJUSTMENT_PATTERN[y - cy + 2][x - cx + 2];
  }

  /** An alignment square of a row of centres clear of the corners meets the timing lines only along its
      middle row or column, whose alternating cells agree with the timing bit (i + 1) mod 2. */
  lemma AlignedTiming(g: Grid, r: Grid, coords: seq<int>, n: nat)
    requires IsSquare(g, n) && IsSquare(r, n) && n >= 21 && CentresFit(coords, n) && CentresClear(coords, n)
    requires SquaresHold(r, g, coords, 0, 0) && LeavesAlone(r, g, coords, 0, 0) && TimingReady(g, n)
    ensures TimingReady(r, n)
  {
    forall i | 8 <= i < n - 8
      ensures r[6][i] == EMPTY || r[6][i] == (i + 1) % 2
      ensures r[i][6] == EMPTY || r[i][6] == (i + 1) % 2
    {
      if !Unstamped(g, coords, 0, 0, i, 6) {
        var a, b :| 0 <= a < |coords| && 0 <= b < |coords| && NotBefore(a, b, 0, 0) && Stamped(g, coords, a, b) &&
          UnderSquare(coords[b], coords[a], i, 6);
        SquareOnTimingRow(r, n, coords[b], coords[a], i);
      }
      if !Unstamped(g, coords, 0, 0, 6, i) {
        var a, b :| 0 <= a < |coords| && 0 <= b < |coords| && NotBefore(a, b, 0, 0) && Stamped(g, coords, a, b) &&
          UnderSquare(coords[b], coords[a], 6, i);
        SquareOnTimingColumn(r, n, coords[b], coords[a], i);
      }
    }
  }

  /** A square clear of the corners that covers timing cell (i, 6) has its centre on row 6, and its
      middle row gives the cell the timing bit. */
  lemma SquareOnTimingRow(r: Grid, n: nat, cx: int, cy: int, i: int)
    requires IsSquare(r, n) && n >= 21 && 6 <= cx <= n - 7 && 6 <= cy <= n - 7
    requires ClearOfCorners(cx, n) && ClearOfCorners(cy, n)
    requires SquareHolds(r, cx, cy) && UnderSquare(cx, cy, i, 6)
    ensures r[6][i] == (i + 1) % 2
  {
    PatternsSet();
    assert cy == 6 && cx % 2 == 0;
    assert r[6][i] == POSITION_ADJUSTMENT_PATTERN[2][i - cx + 2];
  }

  /** A square clear of the corners that covers timing cell (6, i) has its centre on column 6, and its
      middle column gives the cell the timing bit. */
  lemma SquareOnTimingColumn(r: Grid, n: nat, cx: int, cy: int, i: int)
    requires IsSquare(r, n) && n >= 21 && 6 <= cx <= n - 7 && 6 <= cy <= n - 7
    requires ClearOfCorners(cx, n) && ClearOfCorners(cy, n)
    requires SquareHolds(r, cx, cy) && UnderSquare(cx, cy, 6, i)
    ensures r[i][6] == (i + 1) % 2
  {
    PatternsSet();
    assert cx == 6 && cy % 2 == 0;
    assert r[i][6] == POSITION_ADJUSTMENT_PATTERN[i - cy + 2][2];
  }

  /** The alignment patterns of versions 2 to 40 succeed on the finders, separators and dark dot of a
      cleared symbol: a square that would meet a corner or the dot has its centre in a corner, where
      the centre cell is set and the pair is skipped. They keep every set cell, leave every cell valid,
      and put only the alternating bit on the timing lines. */
  lemma AlignOnDotted(version: int)
    requires 2 <= version <= 40
    ensures var n := SymbolSize(version);
      Alignment(Dotted(n), version).Ok? &&
      var r := Alignment(Dotted(n), version).value;
      Keeps(Dotted(n), r) && AllValid(r) && TimingReady(r, n)
  {
    var n := SymbolSize(version);
    CentreTableFits(version);
    CentreTableApart(version);
    var coords := POSITION_ADJUSTMENT_PATTERN_COORDINATE_TABLE[version - 1];
    var g := Dotted(n);
    DottedStage(n);
    DottedSquaresClear(n, coords);
    AlignFromOk(g, coords, 0, 0);
    AlignFromWrites(g, coords, 0, 0);
    AlignFromLeaves(g, coords, 0, 0);
    AlignFromKeeps(g, coords, 0, 0);
    var r := AlignFrom(g, coords, 0, 0).value;
    assert Alignment(g, version) == AlignFrom(g, coords, 0, 0);
    AlignedValid(g, r, coords);
    AlignedTiming(g, r, coords, n);
  }

  /** The timing lines alternate between the separators: cells (i, 6) and (6, i) hold (i + 1) mod 2,
      dark at i = 8. */
  predicate TimingInPlace(g: Grid, n: nat)
    requires IsSquare(g, n)
  {
    forall i :: 8 <= i < n - 8 ==> g[6][i] == (i + 1) % 2 && g[i][6] == (i + 1) % 2
  }

  /** The timing cells are set, so a grid that keeps every set cell keeps the timing lines. */
  lemma TimingKept(a: Grid, b: Grid, n: nat)
    requires IsSquare(a, n) && Keeps(a, b) && TimingInPlace(a, n)
    ensures IsSquare(b, n) && TimingInPlace(b, n)
  {
    forall i | 8 <= i < n - 8
      ensures b[6][i] == a[6][i] && b[i][6] == a[i][6]
    {
      assert a[6][i] != EMPTY && a[i][6] != EMPTY;
    }
  }

  /** The timing lines on a grid of valid codes whose line cells are empty or already hold the timing
      bit succeed, keep every set cell, and leave cells (i, 6) and (6, i) holding (i + 1) mod 2. */
  lemma TimingAlternates(g: Grid, n: nat)
    requires IsSquare(g, n) && n >= 21 && AllValid(g) && TimingReady(g, n)
    ensures Timing(g).Ok? && Keeps(g, Timing(g).value) && AllValid(Timing(g).value)
    ensures TimingInPlace(Timing(g).value, n)
  {
    TimingKeeps(g);
    TimingFromSpec(g, 8);
    var r := Timing(g).value;
    forall i | 8 <= i < n - 8
      ensures r[6][i] == (i + 1) % 2 && r[i][6] == (i + 1) % 2
    {
      assert OnTimingLine(n, 8, i, 6) && OnTimingLine(n, 8, 6, i);
    }
  }

  /** The basic patterns of every version succeed on a cleared symbol. They leave the finders and their
      separators in the three corners, the dark dot at (8, n - 8), a valid code in every cell, and the
      timing lines alternating between the separators, dark at (8, 6) and (6, 8). */
  lemma BasicPatternsSucceed(version: int)
    requires 1 <= version <= 40
    ensures var n := SymbolSize(version);
      BasicPatterns(Cleared(n), version).Ok? &&
      var r := BasicPatterns(Cleared(n), version).value;
      FindersInPlace(r, n) && r[n - 8][8] == Dark.Code() && AllValid(r) && TimingInPlace(r, n)
  {
    var n := SymbolSize(version);
    FindersOnCleared(n);
    DottedStage(n);
    var g2 := Dotted(n);
    if version >= 2 {
      AlignOnDotted(version);
    } else {
      assert Alignment(g2, version) == Ok(g2);
    }
    var g3 := Alignment(g2, version).value;
    TimingAlternates(g3, n);
    var r := Timing(g3).value;
    assert BasicPatterns(Cleared(n), version) == Ok(r);
    FindersPlaced(n);
    KeepsTrans(Stage(n, 9), g2, g3);
    KeepsTrans(Stage(n, 9), g3, r);
    FindersKept(Stage(n, 9), r, n);
    KeepsTrans(g2, g3, r);
  }
}
