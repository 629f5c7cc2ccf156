/** The fixed structure of a QR symbol, written into a cleared matrix: the
    three finder patterns with their separators, the dark dot, the
    alignment patterns and the two timing lines. Each routine is proved
    against a specification function over grid values. */
module PatternEmbedding {
  import opened ByteMatrices
  import opened Faults
  import opened QrCells
  import opened QrTables

  /** Sets every cell to the empty code. */
  method ClearMatrix(m: ByteMatrix)
    requires m.Valid()
    modifies m.bytes
    ensures forall y, x :: 0 <= y < m.height && 0 <= x < m.width ==> m.bytes[y, x] == EMPTY
  {
    m.Clear(EMPTY);
  }

  /** Writes the pattern p with its top-left cell at (x0, y0), row by row; refuses at the first target cell that is already set. */
  method StampPattern(m: ByteMatrix, x0: int, y0: int, p: Grid) returns (o: Outcome)
    requires m.Valid() && IsPattern(p) && Fits(m.Cells(), x0, y0, p)
    modifies m.bytes
    ensures Realizes(o, Stamp(old(m.Cells()), x0, y0, p), m.Cells())
  {
    ghost var g0 := m.Cells();
    var ph := |p|;
    for dy := 0 to ph
      invariant StampedUpTo(m, g0, x0, y0, p, dy, 0)
      invariant CheckedUpTo(g0, x0, y0, p, dy, 0)
    {
      var ok := StampRow(m, x0, y0, p, dy, g0);
      if !ok {
        return Failure(CellNotEmpty);
      }
    }
    assert RegionEmpty(g0, x0, y0, p);
    GridExt(m.Cells(), Overlay(g0, x0, y0, p));
    o := Success;
  }

  /** The cells of p before row dy, and those of row dy before column dx, are written over g0; nothing else changed. */
  ghost predicate StampedUpTo(m: ByteMatrix, g0: Grid, x0: int, y0: int, p: Grid, dy: int, dx: int)
    requires m.Valid() && IsPattern(p) && IsGrid(g0, m.width, m.height)
    reads m.bytes
  {
    forall y, x :: 0 <= y < m.height && 0 <= x < m.width ==>
      m.bytes[y, x] ==
        if Covers(p, x0, y0, x, y) && (y < y0 + dy || (y == y0 + dy && x < x0 + dx))
        then p[y - y0][x - x0] else g0[y][x]
  }

  /** The target cells of those pattern cells were all empty in g0. */
  ghost predicate CheckedUpTo(g0: Grid, x0: int, y0: int, p: Grid, dy: int, dx: int)
    requires IsPattern(p) && Fits(g0, x0, y0, p)
  {
    forall y, x :: Covers(p, x0, y0, x, y) && (y < y0 + dy || (y == y0 + dy && x < x0 + dx)) ==> g0[y][x] == EMPTY
  }

  /** Row dy of StampPattern: writes the row cell by cell, refusing at the first target cell already set. */
  method StampRow(m: ByteMatrix, x0: int, y0: int, p: Grid, dy: int, ghost g0: Grid) returns (ok: bool)
    requires m.Valid() && IsPattern(p) && IsGrid(g0, m.width, m.height) && Fits(g0, x0, y0, p)
    requires 0 <= dy < |p|
    requires StampedUpTo(m, g0, x0, y0, p, dy, 0) && CheckedUpTo(g0, x0, y0, p, dy, 0)
    modifies m.bytes
    ensures ok ==> StampedUpTo(m, g0, x0, y0, p, dy + 1, 0) && CheckedUpTo(g0, x0, y0, p, dy + 1, 0)
    ensures !ok ==> !RegionEmpty(g0, x0, y0, p)
  {
    var pw := |p[0]|;
    assert x0 + pw <= |g0[y0 + dy]| == m.width && y0 + dy < m.height;
    for dx := 0 to pw
      invariant StampedUpTo(m, g0, x0, y0, p, dy, dx)
      invariant CheckedUpTo(g0, x0, y0, p, dy, dx)
    {
      if !IsEmpty(m.Get(x0 + dx, y0 + dy)) {
        return false;
      }
      m.Set(x0 + dx, y0 + dy, p[dy][dx]);
    }
    return true;
  }

  method EmbedPositionDetectionPattern(xStart: int, yStart: int, m: ByteMatrix) returns (o: Outcome)
    requires m.Valid() && Fits(m.Cells(), xStart, yStart, POSITION_DETECTION_PATTERN)
    modifies m.bytes
    ensures Realizes(o, Stamp(old(m.Cells()), xStart, yStart, POSITION_DETECTION_PATTERN), m.Cells())
  {
    o := StampPattern(m, xStart, yStart, POSITION_DETECTION_PATTERN);
  }

  method EmbedHorizontalSeparationPattern(xStart: int, yStart: int, m: ByteMatrix) returns (o: Outcome)
    requires m.Valid() && Fits(m.Cells(), xStart, yStart, HORIZONTAL_SEPARATION_PATTERN)
    modifies m.bytes
    ensures Realizes(o, Stamp(old(m.Cells()), xStart, yStart, HORIZONTAL_SEPARATION_PATTERN), m.Cells())
  {
    o := StampPattern(m, xStart, yStart, HORIZONTAL_SEPARATION_PATTERN);
  }

  method EmbedVerticalSeparationPattern(xStart: int, yStart: int, m: ByteMatrix) returns (o: Outcome)
    requires m.Valid() && Fits(m.Cells(), xStart, yStart, VERTICAL_SEPARATION_PATTERN)
    modifies m.bytes
    ensures Realizes(o, Stamp(old(m.Cells()), xStart, yStart, VERTICAL_SEPARATION_PATTERN), m.Cells())
  {
    o := StampPattern(m, xStart, yStart, VERTICAL_SEPARATION_PATTERN);
  }

  method EmbedPositionAdjustmentPattern(xStart: int, yStart: int, m: ByteMatrix) returns (o: Outcome)
    requires m.Valid() && Fits(m.Cells(), xStart, yStart, POSITION_ADJUSTMENT_PATTERN)
    modifies m.bytes
    ensures Realizes(o, Stamp(old(m.Cells()), xStart, yStart, POSITION_ADJUSTMENT_PATTERN), m.Cells())
  {
    o := StampPattern(m, xStart, yStart, POSITION_ADJUSTMENT_PATTERN);
  }

  /** The three finders, at the top-left, top-right and bottom-left corners of an n-by-n symbol. The
      source writes the bottom-left y coordinate with the width; on a square symbol it is the height. */
  function DetectionPatterns(g: Grid): (r: Result<Grid>)
    requires IsSquare(g, |g|) && |g| >= 8
    ensures r.Ok? ==> IsSquare(r.value, |g|)
  {
    PatternShapes();
    var n := |g|;
    var g1 :- Stamp(g, 0, 0, POSITION_DETECTION_PATTERN);
    var g2 :- Stamp(g1, n - 7, 0, POSITION_DETECTION_PATTERN);
    Stamp(g2, 0, n - 7, POSITION_DETECTION_PATTERN)
  }

  /** The separator rows under the two top finders and over the bottom one. */
  function HorizontalSeparators(g: Grid): (r: Result<Grid>)
    requires IsSquare(g, |g|) && |g| >= 8
    ensures r.Ok? ==> IsSquare(r.value, |g|)
  {
    PatternShapes();
    var n := |g|;
    var g1 :- Stamp(g, 0, 7, HORIZONTAL_SEPARATION_PATTERN);
    var g2 :- Stamp(g1, n - 8, 7, HORIZONTAL_SEPARATION_PATTERN);
    Stamp(g2, 0, n - 8, HORIZONTAL_SEPARATION_PATTERN)
  }

  /** The separator columns beside the three finders. */
  function VerticalSeparators(g: Grid): (r: Result<Grid>)
    requires IsSquare(g, |g|) && |g| >= 8
    ensures r.Ok? ==> IsSquare(r.value, |g|)
  {
    PatternShapes();
    var n := |g|;
    var g1 :- Stamp(g, 7, 0, VERTICAL_SEPARATION_PATTERN);
    var g2 :- Stamp(g1, n - 8, 0, VERTICAL_SEPARATION_PATTERN);
    Stamp(g2, 7, n - 7, VERTICAL_SEPARATION_PATTERN)
  }

  /** The finders, then the horizontal separators, then the vertical ones, each stamp refused if it
      meets a set cell. */
  function FindersAndSeparators(g: Grid): (r: Result<Grid>)
    requires IsSquare(g, |g|) && |g| >= 8
    ensures r.Ok? ==> IsSquare(r.value, |g|)
  {
    var g1 :- DetectionPatterns(g);
    var g2 :- HorizontalSeparators(g1);
    VerticalSeparators(g2)
  }

  method EmbedPositionDetectionPatterns(m: ByteMatrix) returns (o: Outcome)
    requires m.Valid() && m.width == m.height >= 8
    modifies m.bytes
    ensures Realizes(o, DetectionPatterns(old(m.Cells())), m.Cells())
  {
    PatternShapes();
    var pdpWidth := |POSITION_DETECTION_PATTERN[0]|;
    o := EmbedPositionDetectionPattern(0, 0, m);
    if o.Failure? { return; }
    o := EmbedPositionDetectionPattern(m.width - pdpWidth, 0, m);
    if o.Failure? { return; }
    o := EmbedPositionDetectionPattern(0, m.width - pdpWidth, m);
  }

  method EmbedHorizontalSeparationPatterns(m: ByteMatrix) returns (o: Outcome)
    requires m.Valid() && m.width == m.height >= 8
    modifies m.bytes
    ensures Realizes(o, HorizontalSeparators(old(m.Cells())), m.Cells())
  {
    PatternShapes();
    var hspWidth := |HORIZONTAL_SEPARATION_PATTERN[0]|;
    o := EmbedHorizontalSeparationPattern(0, hspWidth - 1, m);
    if o.Failure? { return; }
    o := EmbedHorizontalSeparationPattern(m.width - hspWidth, hspWidth - 1, m);
    if o.Failure? { return; }
    o := EmbedHorizontalSeparationPattern(0, m.width - hspWidth, m);
  }

  method EmbedVerticalSeparationPatterns(m: ByteMatrix) returns (o: Outcome)
    requires m.Valid() && m.width == m.height >= 8
    modifies m.bytes
    ensures Realizes(o, VerticalSeparators(old(m.Cells())), m.Cells())
  {
    PatternShapes();
    var vspSize := |VERTICAL_SEPARATION_PATTERN|;
    o := EmbedVerticalSeparationPattern(vspSize, 0, m);
    if o.Failure? { return; }
    o := EmbedVerticalSeparationPattern(m.height - vspSize - 1, 0, m);
    if o.Failure? { return; }
    o := EmbedVerticalSeparationPattern(vspSize, m.height - vspSize, m);
  }

  /** Stamps the finders and their separators, in the source's three groups of three. */
  method EmbedPositionDetectionPatternsAndSeparators(m: ByteMatrix) returns (o: Outcome)
    requires m.Valid() && m.width == m.height >= 8
    modifies m.bytes
    ensures Realizes(o, FindersAndSeparators(old(m.Cells())), m.Cells())
  {
    o := EmbedPositionDetectionPatterns(m);
    if o.Failure? { return; }
    o := EmbedHorizontalSeparationPatterns(m);
    if o.Failure? { return; }
    o := EmbedVerticalSeparationPatterns(m);
  }

  /** The dark dot at (8, n - 8): refused if that cell is light, otherwise set dark. */
  function DarkDot(g: Grid): (r: Result<Grid>)
    requires IsSquare(g, |g|) && |g| >= 9
    ensures r.Ok? ==> IsSquare(r.value, |g|)
  {
    var n := |g|;
    if g[n - 8][8] == 0 then Err(DarkDotOnLight) else Ok(SetCell(g, 8, n - 8, 1))
  }

  /** The dark dot is refused exactly when its cell is light; otherwise that cell becomes dark, every
      other cell is unchanged, and on a grid of valid codes every set cell is kept. */
  lemma DarkDotSpec(g: Grid)
    requires IsSquare(g, |g|) && |g| >= 9
    ensures DarkDot(g).Ok? <==> g[|g| - 8][8] != Light.Code()
    ensures DarkDot(g).Ok? ==>
      var r := DarkDot(g).value;
      r[|g| - 8][8] == Dark.Code() &&
      (forall y, x :: 0 <= y < |g| && 0 <= x < |g| && (x, y) != (8, |g| - 8) ==> r[y][x] == g[y][x]) &&
      (IsValidValue(g[|g| - 8][8]) ==> Keeps(g, r))
  {
  }

  method EmbedDarkDotAtLeftBottomCorner(m: ByteMatrix) returns (o: Outcome)
    requires m.Valid() && m.width == m.height >= 9
    modifies m.bytes
    ensures Realizes(o, DarkDot(old(m.Cells())), m.Cells())
  {
    if m.Get(8, m.height - 8) == 0 {
      return Failure(DarkDotOnLight);
    }
    m.SetInt(8, m.height - 8, 1);
    o := Success;
  }

  /** The alignment pattern centred on (x, y), where -1 marks an unused coordinate. It is stamped
      with its top-left cell at (x - 2, y - 2) only if the centre is still empty. */
  function AlignAt(g: Grid, x: int, y: int): (r: Result<Grid>)
    requires IsSquare(g, |g|) && CentreFits(x, |g|) && CentreFits(y, |g|)
    ensures r.Ok? ==> IsSquare(r.value, |g|)
  {
    if x == -1 || y == -1 then Ok(g)
    else if IsEmpty(g[y][x]) then Stamp(g, x - 2, y - 2, POSITION_ADJUSTMENT_PATTERN)
    else Ok(g)
  }

  /** The alignment patterns of a row of centres from entry i (the y coordinate), entry j (the x
      coordinate) on, in the order of the source's two loops; the first refusal ends it. */
  function AlignFrom(g: Grid, coords: seq<int>, i: nat, j: nat): (r: Result<Grid>)
    requires IsSquare(g, |g|) && CentresFit(coords, |g|)
    ensures r.Ok? ==> IsSquare(r.value, |g|)
    decreases |coords| - i, |coords| - j
  {
    if i >= |coords| then Ok(g)
    else if j >= |coords| then AlignFrom(g, coords, i + 1, 0)
    else
      var g1 :- AlignAt(g, coords[j], coords[i]);
      AlignFrom(g1, coords, i, j + 1)
  }

  /** One step of AlignFrom, as the loop body takes it: a pair that is skipped leaves the grid alone,
      a pair that is stamped either refuses, ending AlignFrom with the same fault, or moves it on. */
  lemma AlignFromStep(g: Grid, coords: seq<int>, i: nat, j: nat, stamped: bool, o: Outcome, after: Grid)
    requires IsSquare(g, |g|) && CentresFit(coords, |g|) && i < |coords| && j < |coords|
    requires var x, y := coords[j], coords[i];
      stamped == (x != -1 && y != -1 && IsEmpty(g[y][x])) &&
      (stamped ==> Realizes(o, Stamp(g, x - 2, y - 2, POSITION_ADJUSTMENT_PATTERN), after)) &&
      (!stamped ==> after == g && o == Success)
    ensures o.Failure? ==> Realizes(o, AlignFrom(g, coords, i, j), after)
    ensures o.Success? ==> IsSquare(after, |g|) && AlignFrom(after, coords, i, j + 1) == AlignFrom(g, coords, i, j)
  {
    AlignAtCases(g, coords[j], coords[i]);
  }

  /** Past the last x entry, AlignFrom moves on to the next y entry. */
  lemma AlignFromRowEnd(g: Grid, coords: seq<int>, i: nat)
    requires IsSquare(g, |g|) && CentresFit(coords, |g|) && i < |coords|
    ensures AlignFrom(g, coords, i, |coords|) == AlignFrom(g, coords, i + 1, 0)
  {
  }

  /** AlignAt either stamps (both coordinates used and the centre empty) or leaves the grid as it is. */
  lemma AlignAtCases(g: Grid, x: int, y: int)
    requires IsSquare(g, |g|) && CentreFits(x, |g|) && CentreFits(y, |g|)
    ensures x != -1 && y != -1 && IsEmpty(g[y][x]) ==>
      AlignAt(g, x, y) == Stamp(g, x - 2, y - 2, POSITION_ADJUSTMENT_PATTERN)
    ensures !(x != -1 && y != -1 && IsEmpty(g[y][x])) ==> AlignAt(g, x, y) == Ok(g)
  {
  }

  /** The alignment patterns of a version: none below version 2, otherwise one per pair of centres from
      the version's table row whose centre cell is still empty. */
  function Alignment(g: Grid, version: int): (r: Result<Grid>)
    requires 1 <= version <= 40 && IsSquare(g, SymbolSize(version))
    ensures r.Ok? ==> IsSquare(r.value, |g|)
  {
    if version < 2 then Ok(g)
    else
      CentreTableFits(version);
      AlignFrom(g, POSITION_ADJUSTMENT_PATTERN_COORDINATE_TABLE[version - 1], 0, 0)
  }

  /** Embeds the alignment patterns of a version: nothing below version 2, otherwise those of its table row. */
  method MaybeEmbedPositionAdjustmentPatterns(version: int, m: ByteMatrix) returns (o: Outcome)
    requires 1 <= version <= 40 && m.Valid() && m.width == m.height == SymbolSize(version)
    modifies m.bytes
    ensures Realizes(o, Alignment(old(m.Cells()), version), m.Cells())
  {
    if version < 2 {
      return Success;
    }
    var index := version - 1;
    CentreTableFits(version);
    o := EmbedPositionAdjustmentPatternsOfRow(POSITION_ADJUSTMENT_PATTERN_COORDINATE_TABLE[index], m);
  }

  /** The source's two loops over one row of the centre table: y from entry i, x from entry j. A pair is
      skipped when either entry is -1 or when its centre cell is already set. */
  method EmbedPositionAdjustmentPatternsOfRow(coordinates: seq<int>, m: ByteMatrix) returns (o: Outcome)
    requires m.Valid() && m.width == m.height && CentresFit(coordinates, m.width)
    modifies m.bytes
    ensures Realizes(o, AlignFrom(old(m.Cells()), coordinates, 0, 0), m.Cells())
  {
    var numCoordinates := |coordinates|;
    ghost var spec := AlignFrom(m.Cells(), coordinates, 0, 0);
    for i := 0 to numCoordinates
      invariant AlignFrom(m.Cells(), coordinates, i, 0) == spec
    {
      o := EmbedPositionAdjustmentPatternsAtY(coordinates, i, m);
      if o.Failure? {
        return;
      }
    }
    o := Success;
  }

  /** The inner loop for entry i: every x entry j with y from entry i. */
  method EmbedPositionAdjustmentPatternsAtY(coordinates: seq<int>, i: int, m: ByteMatrix) returns (o: Outcome)
    requires m.Valid() && m.width == m.height && CentresFit(coordinates, m.width) && 0 <= i < |coordinates|
    modifies m.bytes
    ensures o.Failure? ==> Realizes(o, AlignFrom(old(m.Cells()), coordinates, i, 0), m.Cells())
    ensures o.Success? ==> AlignFrom(m.Cells(), coordinates, i + 1, 0) == AlignFrom(old(m.Cells()), coordinates, i, 0)
  {
    var numCoordinates := |coordinates|;
    ghost var spec := AlignFrom(m.Cells(), coordinates, i, 0);
    o := Success;
    for j := 0 to numCoordinates
      invariant o == Success
      invariant AlignFrom(m.Cells(), coordinates, i, j) == spec
    {
      var y := coordinates[i];
      var x := coordinates[j];
      ghost var before := m.Cells();
      var stamped := x != -1 && y != -1 && IsEmpty(m.Get(x, y));
      if stamped {
        o := EmbedPositionAdjustmentPattern(x - 2, y - 2, m);
      }
      AlignFromStep(before, coordinates, i, j, stamped, o, m.Cells());
      if o.Failure? {
        return;
      }
    }
    AlignFromRowEnd(m.Cells(), coordinates, i);
  }

  /** One timing cell: refused if it holds an invalid code, set to bit if empty, otherwise left as it is. */
  function TimingCell(g: Grid, x: int, y: int, bit: Byte): (r: Result<Grid>)
    requires 0 <= y < |g| && 0 <= x < |g[y]|
    ensures r.Ok? ==> SameShape(g, r.value)
  {
    if !IsValidValue(g[y][x]) then Err(InvalidCellValue)
    else if IsEmpty(g[y][x]) then Ok(SetCell(g, x, y, bit))
    else Ok(g)
  }

  /** The timing lines from position i on, as the source's loop takes them: at each i the horizontal
      cell (i, 6), then the vertical cell (6, i), both with bit (i + 1) mod 2, up to n - 9. */
  function TimingFrom(g: Grid, i: int): (r: Result<Grid>)
    requires IsSquare(g, |g|) && |g| > 6 && 8 <= i
    ensures r.Ok? ==> IsSquare(r.value, |g|)
    decreases |g| - i
  {
    if i >= |g| - 8 then Ok(g)
    else
      var g1 :- TimingCell(g, i, 6, (i + 1) % 2);
      var g2 :- TimingCell(g1, 6, i, (i + 1) % 2);
      TimingFrom(g2, i + 1)
  }

  function Timing(g: Grid): (r: Result<Grid>)
    requires IsSquare(g, |g|) && |g| > 6
    ensures r.Ok? ==> IsSquare(r.value, |g|)
  {
    TimingFrom(g, 8)
  }

  /** Cell (x, y) of an n-by-n symbol lies on a timing line at position from or later. */
  predicate OnTimingLine(n: int, from: int, x: int, y: int)
  {
    (y == 6 && from <= x < n - 8) || (x == 6 && from <= y < n - 8)
  }

  /** The timing lines from position i succeed exactly when every cell on them holds a valid code; they
      then give each empty line cell (x, y) the alternating bit (x + y + 1) mod 2 and leave every other
      cell as it was. */
  lemma {:induction false} TimingFromSpec(g: Grid, i: int)
    requires IsSquare(g, |g|) && |g| > 6 && 8 <= i
    ensures TimingFrom(g, i).Ok? <==>
      forall y, x :: 0 <= y < |g| && 0 <= x < |g| && OnTimingLine(|g|, i, x, y) ==> IsValidValue(g[y][x])
    ensures TimingFrom(g, i).Ok? ==> forall y, x :: 0 <= y < |g| && 0 <= x < |g| ==>
      TimingFrom(g, i).value[y][x] ==
        if OnTimingLine(|g|, i, x, y) && IsEmpty(g[y][x]) then (x + y + 1) % 2 else g[y][x]
    decreases |g| - i
  {
    var n := |g|;
    if i < n - 8 {
      TimingStep(g, i);
      var s1 := TimingCell(g, i, 6, (i + 1) % 2);
      if s1.Ok? && TimingCell(s1.value, 6, i, (i + 1) % 2).Ok? {
        TimingFromSpec(TimingCell(s1.value, 6, i, (i + 1) % 2).value, i + 1);
      }
    }
  }

  /** The two cells of timing position i: both must hold valid codes; each is set to the bit if empty. */
  lemma TimingStep(g: Grid, i: int)
    requires IsSquare(g, |g|) && |g| > 6 && 8 <= i < |g| - 8
    ensures var s1 := TimingCell(g, i, 6, (i + 1) % 2);
      (s1.Ok? && TimingCell(s1.value, 6, i, (i + 1) % 2).Ok?) <==> IsValidValue(g[6][i]) && IsValidValue(g[i][6])
    ensures var s1 := TimingCell(g, i, 6, (i + 1) % 2);
      s1.Ok? && TimingCell(s1.value, 6, i, (i + 1) % 2).Ok? ==>
      var g2 := TimingCell(s1.value, 6, i, (i + 1) % 2).value;
      IsSquare(g2, |g|) &&
      forall y, x :: 0 <= y < |g| && 0 <= x < |g| ==>
        g2[y][x] == if ((x, y) == (i, 6) || (x, y) == (6, i)) && IsEmpty(g[y][x]) then (x + y + 1) % 2 else g[y][x]
  {
  }

  /** The timing lines on a grid of valid codes always succeed, keep every set cell, and leave the grid valid. */
  lemma TimingKeeps(g: Grid)
    requires IsSquare(g, |g|) && |g| > 6 && AllValid(g)
    ensures Timing(g).Ok? && Keeps(g, Timing(g).value) && AllValid(Timing(g).value)
  {
    TimingFromSpec(g, 8);
  }

  /** Writes the two timing lines between the separators. */
  method EmbedTimingPatterns(m: ByteMatrix) returns (o: Outcome)
    requires m.Valid() && m.width == m.height > 6
    modifies m.bytes
    ensures Realizes(o, Timing(old(m.Cells())), m.Cells())
  {
    ghost var spec := Timing(m.Cells());
    var i := 8;
    while i < m.width - 8
      invariant 8 <= i
      invariant TimingFrom(m.Cells(), i) == spec
      decreases m.width - i
    {
      var bit := (i + 1) % 2;
      if !IsValidValue(m.Get(i, 6)) {
        return Failure(InvalidCellValue);
      }
      if IsEmpty(m.Get(i, 6)) {
        m.SetInt(i, 6, bit);
      }
      if !IsValidValue(m.Get(6, i)) {
        return Failure(InvalidCellValue);
      }
      if IsEmpty(m.Get(6, i)) {
        m.SetInt(6, i, bit);
      }
      i := i + 1;
    }
    o := Success;
  }

  /** The basic patterns of a version, in the source's order: finders with separators, dark dot,
      alignment patterns, timing lines; the first refusal ends it. */
  function BasicPatterns(g: Grid, version: int): (r: Result<Grid>)
    requires 1 <= version <= 40 && IsSquare(g, SymbolSize(version))
    ensures r.Ok? ==> IsSquare(r.value, |g|)
  {
    var g1 :- FindersAndSeparators(g);
    var g2 :- DarkDot(g1);
    var g3 :- Alignment(g2, version);
    Timing(g3)
  }

  method EmbedBasicPatterns(version: int, m: ByteMatrix) returns (o: Outcome)
    requires 1 <= version <= 40 && m.Valid() && m.width == m.height == SymbolSize(version)
    modifies m.bytes
    ensures Realizes(o, BasicPatterns(old(m.Cells()), version), m.Cells())
  {
    o := EmbedPositionDetectionPatternsAndSeparators(m);
    if o.Failure? { return; }
    o := EmbedDarkDotAtLeftBottomCorner(m);
    if o.Failure? { return; }
    o := MaybeEmbedPositionAdjustmentPatterns(version, m);
    if o.Failure? { return; }
    o := EmbedTimingPatterns(m);
  }

  /** One alignment step keeps every set cell: it either leaves the grid alone or stamps empty cells. */
  lemma AlignAtKeeps(g: Grid, x: int, y: int)
    requires IsSquare(g, |g|) && CentreFits(x, |g|) && CentreFits(y, |g|)
    ensures AlignAt(g, x, y).Ok? ==> Keeps(g, AlignAt(g, x, y).value)
  {
    AlignAtCases(g, x, y);
    if x != -1 && y != -1 && IsEmpty(g[y][x]) {
      StampSpec(g, x - 2, y - 2, POSITION_ADJUSTMENT_PATTERN);
    }
  }

  /** The alignment patterns from any point of the two loops on keep every set cell. */
  lemma {:induction false} AlignFromKeeps(g: Grid, coords: seq<int>, i: nat, j: nat)
    requires IsSquare(g, |g|) && CentresFit(coords, |g|)
    ensures AlignFrom(g, coords, i, j).Ok? ==> Keeps(g, AlignFrom(g, coords, i, j).value)
    decreases |coords| - i, |coords| - j
  {
    if i >= |coords| {
    } else if j >= |coords| {
      AlignFromKeeps(g, coords, i + 1, 0);
    } else {
      var s := AlignAt(g, coords[j], coords[i]);
      if s.Ok? {
        AlignAtKeeps(g, coords[j], coords[i]);
        AlignFromKeeps(s.value, coords, i, j + 1);
        if AlignFrom(s.value, coords, i, j + 1).Ok? {
          KeepsTrans(g, s.value, AlignFrom(s.value, coords, i, j + 1).value);
        }
      }
    }
  }

  /** The timing lines, when they succeed, keep every set cell (they only fill empty ones). */
  lemma TimingKeepsSet(g: Grid)
    requires IsSquare(g, |g|) && |g| > 6
    ensures Timing(g).Ok? ==> Keeps(g, Timing(g).value)
  {
    TimingFromSpec(g, 8);
  }

  /** Once the basic patterns are in place the dark dot at (8, n - 8) is dark: the alignment patterns
      and the timing lines that follow it only write empty cells. */
  lemma BasicPatternsDarkDot(g: Grid, version: int)
    requires 1 <= version <= 40 && IsSquare(g, SymbolSize(version))
    ensures BasicPatterns(g, version).Ok? ==> BasicPatterns(g, version).value[SymbolSize(version) - 8][8] == Dark.Code()
  {
    var n := |g|;
    var s1 := FindersAndSeparators(g);
    if s1.Ok? {
      var s2 := DarkDot(s1.value);
      if s2.Ok? {
        assert s2.value[n - 8][8] == Dark.Code();
        var s3 := Alignment(s2.value, version);
        if version >= 2 {
          CentreTableFits(version);
          AlignFromKeeps(s2.value, POSITION_ADJUSTMENT_PATTERN_COORDINATE_TABLE[version - 1], 0, 0);
        }
        if s3.Ok? {
          TimingKeepsSet(s3.value);
        }
      }
    }
  }
}
