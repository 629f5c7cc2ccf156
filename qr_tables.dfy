/** The constant tables of the matrix builder: the four stamp patterns, the
    alignment-pattern centre table, the type-info cell list and the BCH
    generator polynomials with the type-info mask. */
module QrTables {
  import opened ByteMatrices
  import opened QrCells

  /** The 7x7 finder (position detection) pattern. */
  const POSITION_DETECTION_PATTERN: Grid := [
    [1, 1, 1, 1, 1, 1, 1],
    [1, 0, 0, 0, 0, 0, 1],
    [1, 0, 1, 1, 1, 0, 1],
    [1, 0, 1, 1, 1, 0, 1],
    [1, 0, 1, 1, 1, 0, 1],
    [1, 0, 0, 0, 0, 0, 1],
    [1, 1, 1, 1, 1, 1, 1]]

  /** One row of eight light cells under or over a finder. */
  const HORIZONTAL_SEPARATION_PATTERN: Grid := [[0, 0, 0, 0, 0, 0, 0, 0]]

  /** One column of seven light cells beside a finder. */
  const VERTICAL_SEPARATION_PATTERN: Grid := [[0], [0], [0], [0], [0], [0], [0]]

  /** The 5x5 alignment (position adjustment) pattern. */
  const POSITION_ADJUSTMENT_PATTERN: Grid := [
    [1, 1, 1, 1, 1],
    [1, 0, 0, 0, 1],
    [1, 0, 1, 0, 1],
    [1, 0, 0, 0, 1],
    [1, 1, 1, 1, 1]]

  /** Row v - 1 lists the alignment-pattern centre coordinates of version v; -1 pads unused slots. */
  const POSITION_ADJUSTMENT_PATTERN_COORDINATE_TABLE: seq<seq<int>> := [
    [-1, -1, -1, -1, -1, -1, -1],
    [6, 18, -1, -1, -1, -1, -1],
    [6, 22, -1, -1, -1, -1, -1],
    [6, 26, -1, -1, -1, -1, -1],
    [6, 30, -1, -1, -1, -1, -1],
    [6, 34, -1, -1, -1, -1, -1],
    [6, 22, 38, -1, -1, -1, -1],
    [6, 24, 42, -1, -1, -1, -1],
    [6, 26, 46, -1, -1, -1, -1],
    [6, 28, 50, -1, -1, -1, -1],
    [6, 30, 54, -1, -1, -1, -1],
    [6, 32, 58, -1, -1, -1, -1],
    [6, 34, 62, -1, -1, -1, -1],
    [6, 26, 46, 66, -1, -1, -1],
    [6, 26, 48, 70, -1, -1, -1],
    [6, 26, 50, 74, -1, -1, -1],
    [6, 30, 54, 78, -1, -1, -1],
    [6, 30, 56, 82, -1, -1, -1],
    [6, 30, 58, 86, -1, -1, -1],
    [6, 34, 62, 90, -1, -1, -1],
    [6, 28, 50, 72, 94, -1, -1],
    [6, 26, 50, 74, 98, -1, -1],
    [6, 30, 54, 78, 102, -1, -1],
    [6, 28, 54, 80, 106, -1, -1],
    [6, 32, 58, 84, 110, -1, -1],
    [6, 30, 58, 86, 114, -1, -1],
    [6, 34, 62, 90, 118, -1, -1],
    [6, 26, 50, 74, 98, 122, -1],
    [6, 30, 54, 78, 102, 126, -1],
    [6, 26, 52, 78, 104, 130, -1],
    [6, 30, 56, 82, 108, 134, -1],
    [6, 34, 60, 86, 112, 138, -1],
    [6, 30, 58, 86, 114, 142, -1],
    [6, 34, 62, 90, 118, 146, -1],
    [6, 30, 54, 78, 102, 126, 150],
    [6, 24, 50, 76, 102, 128, 154],
    [6, 28, 54, 80, 106, 132, 158],
    [6, 32, 58, 84, 110, 136, 162],
    [6, 26, 54, 82, 110, 138, 166],
    [6, 30, 58, 86, 114, 142, 170]]

  /** Where the 15 type-info bits go next to the top-left finder, as (x, y). */
  const TYPE_INFO_COORDINATES: seq<(int, int)> := [
    (8, 0), (8, 1), (8, 2), (8, 3), (8, 4), (8, 5), (8, 7), (8, 8),
    (7, 8), (5, 8), (4, 8), (3, 8), (2, 8), (1, 8), (0, 8)]

  /** Generator of the 18-bit version-info BCH code. */
  const VERSION_INFO_POLY: nat := 0x1f25

  /** Generator of the 15-bit type-info BCH code. */
  const TYPE_INFO_POLY: nat := 0x537

  /** XORed into the type-info word. */
  const TYPE_INFO_MASK_PATTERN: nat := 0x5412

  /** The side of a version's symbol: 21 for version 1, four more per version. */
  function SymbolSize(version: int): (n: int)
    ensures 1 <= version ==> n >= 21
    ensures n % 2 == 1
  {
    OddSize(version);
    17 + 4 * version
  }

  /** 17 + 4v is odd: it is 2(8 + 2v) + 1. */
  lemma OddSize(version: int)
    ensures (17 + 4 * version) % 2 == 1
  {
    var k := 8 + 2 * version;
    assert 17 + 4 * version == 2 * k + 1;
  }

  /** The four stamps have the shapes the stamping routines check for (7x7, 1 row of 8, 7 rows of 1, 5x5) and hold only light and dark codes. */
  lemma PatternShapes()
    ensures IsPattern(POSITION_DETECTION_PATTERN) && |POSITION_DETECTION_PATTERN| == 7 && |POSITION_DETECTION_PATTERN[0]| == 7
    ensures IsPattern(HORIZONTAL_SEPARATION_PATTERN) && |HORIZONTAL_SEPARATION_PATTERN| == 1 && |HORIZONTAL_SEPARATION_PATTERN[0]| == 8
    ensures IsPattern(VERTICAL_SEPARATION_PATTERN) && |VERTICAL_SEPARATION_PATTERN| == 7 && |VERTICAL_SEPARATION_PATTERN[0]| == 1
    ensures IsPattern(POSITION_ADJUSTMENT_PATTERN) && |POSITION_ADJUSTMENT_PATTERN| == 5 && |POSITION_ADJUSTMENT_PATTERN[0]| == 5
    ensures AllValid(POSITION_DETECTION_PATTERN) && AllValid(HORIZONTAL_SEPARATION_PATTERN)
    ensures AllValid(VERTICAL_SEPARATION_PATTERN) && AllValid(POSITION_ADJUSTMENT_PATTERN)
  {
  }

  /** Every entry of a row is -1 or a centre whose 5x5 pattern lies inside an n-by-n symbol, clear of the outer four cells. */
  predicate CentresFit(row: seq<int>, n: int)
  {
    forall k :: 0 <= k < |row| ==> CentreFits(row[k], n)
  }

  /** -1 (unused), or a centre whose 5x5 pattern lies inside an n-by-n symbol, clear of the outer four cells. */
  predicate CentreFits(c: int, n: int)
  {
    c == -1 || 6 <= c <= n - 7
  }

  /** The centre table has a row of seven entries for each of the 40 versions, and every centre of version v fits a symbol of side 17 + 4v. */
  lemma CentreTableFits(version: int)
    requires 1 <= version <= 40
    ensures |POSITION_ADJUSTMENT_PATTERN_COORDINATE_TABLE| == 40
    ensures |POSITION_ADJUSTMENT_PATTERN_COORDINATE_TABLE[version - 1]| == 7
    ensures CentresFit(POSITION_ADJUSTMENT_PATTERN_COORDINATE_TABLE[version - 1], SymbolSize(version))
  {
    if version <= 10 {
      CentreRowsFit1To10(version);
    } else if version <= 20 {
      CentreRowsFit11To20(version);
    } else if version <= 30 {
      CentreRowsFit21To30(version);
    } else {
      CentreRowsFit31To40(version);
    }
  }

  /** The centre table checked one block of ten versions at a time. */
  lemma CentreRowsFit1To10(version: int)
    requires 1 <= version <= 10
    ensures |POSITION_ADJUSTMENT_PATTERN_COORDINATE_TABLE[version - 1]| == 7
    ensures CentresFit(POSITION_ADJUSTMENT_PATTERN_COORDINATE_TABLE[version - 1], SymbolSize(version))
  {
  }

  lemma CentreRowsFit11To20(version: int)
    requires 11 <= version <= 20
    ensures |POSITION_ADJUSTMENT_PATTERN_COORDINATE_TABLE[version - 1]| == 7
    ensures CentresFit(POSITION_ADJUSTMENT_PATTERN_COORDINATE_TABLE[version - 1], SymbolSize(version))
  {
  }

  lemma CentreRowsFit21To30(version: int)
    requires 21 <= version <= 30
    ensures |POSITION_ADJUSTMENT_PATTERN_COORDINATE_TABLE[version - 1]| == 7
    ensures CentresFit(POSITION_ADJUSTMENT_PATTERN_COORDINATE_TABLE[version - 1], SymbolSize(version))
  {
  }

  lemma CentreRowsFit31To40(version: int)
    requires 31 <= version <= 40
    ensures |POSITION_ADJUSTMENT_PATTERN_COORDINATE_TABLE[version - 1]| == 7
    ensures CentresFit(POSITION_ADJUSTMENT_PATTERN_COORDINATE_TABLE[version - 1], SymbolSize(version))
  {
  }

  /** The real entries of a row of centres increase by at least five from one to the next, so the
      alignment squares of two different pairs of centres never share a cell. */
  predicate Spaced(row: seq<int>)
  {
    forall k, l :: 0 <= k < l < |row| && row[k] != -1 && row[l] != -1 ==> row[k] + 5 <= row[l]
  }

  /** Every real entry is even, is 6 or at least 12, and is n - 7 or at most n - 11: an alignment square
      reaches into a finder corner, or onto the dark dot, only when its centre lies in a finder corner. */
  predicate CentresClear(row: seq<int>, n: int)
  {
    forall k :: 0 <= k < |row| && row[k] != -1 ==>
      row[k] % 2 == 0 && (row[k] == 6 || 12 <= row[k]) && (row[k] == n - 7 || row[k] <= n - 11)
  }

  /** A real centre c fits CentresClear's bounds for side n. */
  predicate ClearOfCorners(c: int, n: int)
  {
    c == -1 || (c % 2 == 0 && (c == 6 || 12 <= c) && (c == n - 7 || c <= n - 11))
  }

  /** b follows a by at least five, or b is unused (unused entries only follow unused or real ones). */
  predicate Follows(a: int, b: int)
  {
    b == -1 || (a != -1 && a + 5 <= b)
  }

  /** A row of seven centres, checked entry by entry without quantifiers. */
  predicate RowApart(row: seq<int>, n: int)
  {
    |row| == 7 &&
    Follows(row[0], row[1]) && Follows(row[1], row[2]) && Follows(row[2], row[3]) &&
    Follows(row[3], row[4]) && Follows(row[4], row[5]) && Follows(row[5], row[6]) &&
    ClearOfCorners(row[0], n) && ClearOfCorners(row[1], n) && ClearOfCorners(row[2], n) &&
    ClearOfCorners(row[3], n) && ClearOfCorners(row[4], n) && ClearOfCorners(row[5], n) &&
    ClearOfCorners(row[6], n)
  }

  lemma RowApartSpaced(row: seq<int>, n: int)
    requires RowApart(row, n)
    ensures Spaced(row) && CentresClear(row, n)
  {
    forall k, l | 0 <= k < l < |row| && row[k] != -1 && row[l] != -1
      ensures row[k] + 5 <= row[l]
    {
      var m := k;
      while m < l - 1
        invariant k <= m < l && row[m] != -1 && row[k] + 5 * (m - k) <= row[m]
      {
        m := m + 1;
      }
    }
  }

  /** The centres of every version are spaced apart and clear of the finder corners. */
  lemma CentreTableApart(version: int)
    requires 1 <= version <= 40
    ensures Spaced(POSITION_ADJUSTMENT_PATTERN_COORDINATE_TABLE[version - 1])
    ensures CentresClear(POSITION_ADJUSTMENT_PATTERN_COORDINATE_TABLE[version - 1], SymbolSize(version))
  {
    if version <= 5 {
      CentreRowsApart1To5(version);
    } else if version <= 10 {
      CentreRowsApart6To10(version);
    } else if version <= 15 {
      CentreRowsApart11To15(version);
    } else if version <= 20 {
      CentreRowsApart16To20(version);
    } else if version <= 25 {
      CentreRowsApart21To25(version);
    } else if version <= 30 {
      CentreRowsApart26To30(version);
    } else if version <= 35 {
      CentreRowsApart31To35(version);
    } else {
      CentreRowsApart36To40(version);
    }
    RowApartSpaced(POSITION_ADJUSTMENT_PATTERN_COORDINATE_TABLE[version - 1], SymbolSize(version));
  }

  lemma CentreRowsApart1To5(version: int)
    requires 1 <= version <= 5
    ensures RowApart(POSITION_ADJUSTMENT_PATTERN_COORDINATE_TABLE[version - 1], SymbolSize(version))
  {
  }

  lemma CentreRowsApart6To10(version: int)
    requires 6 <= version <= 10
    ensures RowApart(POSITION_ADJUSTMENT_PATTERN_COORDINATE_TABLE[version - 1], SymbolSize(version))
  {
  }

  lemma CentreRowsApart11To15(version: int)
    requires 11 <= version <= 15
    ensures RowApart(POSITION_ADJUSTMENT_PATTERN_COORDINATE_TABLE[version - 1], SymbolSize(version))
  {
  }

  lemma CentreRowsApart16To20(version: int)
    requires 16 <= version <= 20
    ensures RowApart(POSITION_ADJUSTMENT_PATTERN_COORDINATE_TABLE[version - 1], SymbolSize(version))
  {
  }

  lemma CentreRowsApart21To25(version: int)
    requires 21 <= version <= 25
    ensures RowApart(POSITION_ADJUSTMENT_PATTERN_COORDINATE_TABLE[version - 1], SymbolSize(version))
  {
  }

  lemma CentreRowsApart26To30(version: int)
    requires 26 <= version <= 30
    ensures RowApart(POSITION_ADJUSTMENT_PATTERN_COORDINATE_TABLE[version - 1], SymbolSize(version))
  {
  }

  lemma CentreRowsApart31To35(version: int)
    requires 31 <= version <= 35
    ensures RowApart(POSITION_ADJUSTMENT_PATTERN_COORDINATE_TABLE[version - 1], SymbolSize(version))
  {
  }

  lemma CentreRowsApart36To40(version: int)
    requires 36 <= version <= 40
    ensures RowApart(POSITION_ADJUSTMENT_PATTERN_COORDINATE_TABLE[version - 1], SymbolSize(version))
  {
  }
}
