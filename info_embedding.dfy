/** The two format areas of a QR symbol: the 15-bit type information,
    written twice (around the top-left finder, and split between the
    top-right and bottom-left ones), and from version 7 on the 18-bit
    version information, written twice as 6x3 blocks beside the top-right
    and bottom-left finders. Both routines are proved against a cell-wise
    specification, and reading the written cells back gives the word. */
module InfoEmbedding {
  import opened ByteMatrices
  import opened Faults
  import opened QrCells
  import opened QrTables
  import opened BitVectors
  import opened Bch
  import opened GF2

  /** The second copy of type-info bit i (i counted from the least significant): along row 8 under the
      top-right finder for i < 8, otherwise down column 8 beside the bottom-left finder. */
  function TypeInfoMirror(n: int, i: int): (int, int)
  {
    if i < 8 then (n - i - 1, 8) else (8, n - 7 + (i - 8))
  }

  /** Which type-info bit an n-by-n symbol keeps in cell (x, y), or -1 for none. Both copies avoid the
      timing cells (6, 8) and (8, 6). */
  function TypeInfoIndex(n: int, x: int, y: int): (k: int)
    ensures -1 <= k < 15
  {
    if x == 8 && 0 <= y <= 5 then y
    else if x == 8 && y == 7 then 6
    else if x == 8 && y == 8 then 7
    else if y == 8 && x == 7 then 8
    else if y == 8 && 0 <= x <= 5 then 14 - x
    else if y == 8 && n - 8 <= x < n then n - 1 - x
    else if x == 8 && n - 7 <= y < n then y - n + 15
    else -1
  }

  /** The cell around the top-left finder that holds type-info bit i, in closed form: up column 8
      skipping the timing cell (8, 6), then left along row 8 skipping (6, 8). */
  function TypeInfoCoordinate(i: int): (int, int)
  {
    if i <= 5 then (8, i)
    else if i == 6 then (8, 7)
    else if i == 7 then (8, 8)
    else if i == 8 then (7, 8)
    else (14 - i, 8)
  }

  /** The coordinate table lists exactly these cells. */
  lemma TypeInfoTable(i: int)
    requires 0 <= i < 15
    ensures TYPE_INFO_COORDINATES[i] == TypeInfoCoordinate(i)
  {
  }

  /** Both cells of type-info bit i lie in the symbol and carry index i: the thirty cells are distinct. */
  lemma TypeInfoCells(n: int, i: int, x1: int, y1: int, x2: int, y2: int)
    requires n >= 17 && 0 <= i < 15
    requires (x1, y1) == TypeInfoCoordinate(i) && (x2, y2) == TypeInfoMirror(n, i)
    ensures 0 <= x1 < n && 0 <= y1 < n && TypeInfoIndex(n, x1, y1) == i
    ensures 0 <= x2 < n && 0 <= y2 < n && TypeInfoIndex(n, x2, y2) == i
  {
  }

  /** A cell with a type-info index is one of the two cells of that bit. */
  lemma TypeInfoIndexInverse(n: int, x: int, y: int)
    requires n >= 17
    ensures var k := TypeInfoIndex(n, x, y);
      0 <= k ==> (x, y) == TypeInfoCoordinate(k) || (x, y) == TypeInfoMirror(n, k)
  {
  }

  /** The grid g with both copies of the first count bits of the 15-bit word written (bit positions
      counted from the least significant): the cells of position i hold word[14 - i], since the word
      lists its most significant bit first. */
  function TypeInfoGrid(g: Grid, word: seq<bool>, count: int): (r: Grid)
    requires |word| == 15
    ensures SameShape(g, r)
  {
    seq(|g|, y requires 0 <= y < |g| =>
      seq(|g[y]|, x requires 0 <= x < |g[y]| => TypeInfoCell(g[y][x], word, count, TypeInfoIndex(|g|, x, y))))
  }

  /** A cell of TypeInfoGrid: the bit of its index k if k is one of the first count positions, otherwise its old code v. */
  function TypeInfoCell(v: Byte, word: seq<bool>, count: int, k: int): Byte
    requires |word| == 15 && k < 15
  {
    if 0 <= k < count then BitCode(word[14 - k]) else v
  }

  /** Writing both cells of position i to a grid holding positions below i gives positions up to i. */
  lemma TypeInfoGridStep(g: Grid, word: seq<bool>, i: int, x1: int, y1: int, x2: int, y2: int, b: Byte)
    requires IsSquare(g, |g|) && |g| >= 17 && |word| == 15 && 0 <= i < 15
    requires (x1, y1) == TypeInfoCoordinate(i) && (x2, y2) == TypeInfoMirror(|g|, i)
    requires b == BitCode(word[14 - i])
    ensures 0 <= x1 < |g| && 0 <= y1 < |g| && 0 <= x2 < |g| && 0 <= y2 < |g|
    ensures SetCell(SetCell(TypeInfoGrid(g, word, i), x1, y1, b), x2, y2, b) == TypeInfoGrid(g, word, i + 1)
  {
    TypeInfoCells(|g|, i, x1, y1, x2, y2);
    var n := |g|;
    var a := SetCell(SetCell(TypeInfoGrid(g, word, i), x1, y1, b), x2, y2, b);
    var c := TypeInfoGrid(g, word, i + 1);
    var t := TypeInfoGrid(g, word, i);
    forall y, x | 0 <= y < n && 0 <= x < n
      ensures a[y][x] == c[y][x]
    {
      var k := TypeInfoIndex(n, x, y);
      if (x, y) != (x1, y1) && (x, y) != (x2, y2) {
        TypeInfoIndexInverse(n, x, y);
        assert k != i;
        assert a[y][x] == t[y][x];
      }
    }
    GridExt(a, c);
  }

  lemma TypeInfoGridNone(g: Grid, word: seq<bool>)
    requires |word| == 15
    ensures TypeInfoGrid(g, word, 0) == g
  {
    GridExt(TypeInfoGrid(g, word, 0), g);
  }

  /** The type information for an error correction level and a mask: refused for an invalid mask,
      otherwise both copies of its word. */
  function TypeInfo(g: Grid, ecBits: EcBits, mask: int): (r: Result<Grid>)
    ensures r.Ok? <==> IsValidMaskPattern(mask)
    ensures r.Err? ==> r.fault == InvalidMaskPattern
  {
    var word :- TypeInfoBits(ecBits, mask, []);
    Ok(TypeInfoGrid(g, word, 15))
  }

  method EmbedTypeInfo(ecBits: EcBits, maskPattern: int, m: ByteMatrix) returns (o: Outcome)
    requires m.Valid() && m.width == m.height >= 17
    modifies m.bytes
    ensures Realizes(o, TypeInfo(old(m.Cells()), ecBits, maskPattern), m.Cells())
  {
    var made := MakeTypeInfoBits(ecBits, maskPattern, []);
    if made.Err? {
      return Failure(made.fault);
    }
    EmbedTypeInfoWord(made.value, m);
    o := Success;
  }

  /** The source's loop over the 15 bits of the word, least significant first: bit i goes to its cell
      around the top-left finder, then to its second cell. */
  method EmbedTypeInfoWord(typeInfoBits: seq<bool>, m: ByteMatrix)
    requires m.Valid() && m.width == m.height >= 17 && |typeInfoBits| == 15
    modifies m.bytes
    ensures m.Cells() == TypeInfoGrid(old(m.Cells()), typeInfoBits, 15)
  {
    ghost var g0 := m.Cells();
    TypeInfoGridNone(g0, typeInfoBits);
    for i := 0 to |typeInfoBits|
      invariant m.Cells() == TypeInfoGrid(g0, typeInfoBits, i)
    {
      // the word's last element is its least significant bit
      var bit := if typeInfoBits[|typeInfoBits| - 1 - i] then 1 else 0;
      var x1 := TYPE_INFO_COORDINATES[i].0;
      var y1 := TYPE_INFO_COORDINATES[i].1;
      var x2, y2;
      if i < 8 {
        x2, y2 := m.width - i - 1, 8;
      } else {
        x2, y2 := 8, m.height - 7 + (i - 8);
      }
      TypeInfoTable(i);
      TypeInfoGridStep(g0, typeInfoBits, i, x1, y1, x2, y2, ToByte(bit));
      m.SetInt(x1, y1, bit);
      m.SetInt(x2, y2, bit);
    }
  }

  /** The word read back from the copy around the top-left finder, most significant bit first. */
  function ReadTypeInfo(g: Grid): (word: seq<bool>)
    requires IsSquare(g, |g|) && |g| >= 17
    ensures |word| == 15
  {
    seq(15, j requires 0 <= j < 15 =>
      TypeInfoTable(14 - j);
      var (x, y) := TYPE_INFO_COORDINATES[14 - j];
      TypeInfoCells(|g|, 14 - j, x, y, TypeInfoMirror(|g|, 14 - j).0, TypeInfoMirror(|g|, 14 - j).1);
      g[y][x] == 1)
  }

  /** The word read back from the copy split between the top-right and bottom-left finders. */
  function ReadTypeInfoMirror(g: Grid): (word: seq<bool>)
    requires IsSquare(g, |g|) && |g| >= 17
    ensures |word| == 15
  {
    seq(15, j requires 0 <= j < 15 =>
      var (x, y) := TypeInfoMirror(|g|, 14 - j);
      TypeInfoCells(|g|, 14 - j, TypeInfoCoordinate(14 - j).0, TypeInfoCoordinate(14 - j).1, x, y);
      g[y][x] == 1)
  }

  /** Both copies read back as the word written; every cell outside the two copies is unchanged. */
  lemma TypeInfoReadBack(g: Grid, word: seq<bool>)
    requires IsSquare(g, |g|) && |g| >= 17 && |word| == 15
    ensures IsSquare(TypeInfoGrid(g, word, 15), |g|)
    ensures ReadTypeInfo(TypeInfoGrid(g, word, 15)) == word
    ensures ReadTypeInfoMirror(TypeInfoGrid(g, word, 15)) == word
    ensures forall y, x :: 0 <= y < |g| && 0 <= x < |g| && TypeInfoIndex(|g|, x, y) == -1 ==>
      TypeInfoGrid(g, word, 15)[y][x] == g[y][x]
  {
    var r := TypeInfoGrid(g, word, 15);
    forall j | 0 <= j < 15
      ensures ReadTypeInfo(r)[j] == word[j] && ReadTypeInfoMirror(r)[j] == word[j]
    {
      TypeInfoReadBit(g, word, j);
    }
  }

  /** Bit j of either copy, read back. */
  lemma TypeInfoReadBit(g: Grid, word: seq<bool>, j: int)
    requires IsSquare(g, |g|) && |g| >= 17 && |word| == 15 && 0 <= j < 15
    ensures IsSquare(TypeInfoGrid(g, word, 15), |g|)
    ensures ReadTypeInfo(TypeInfoGrid(g, word, 15))[j] == word[j]
    ensures ReadTypeInfoMirror(TypeInfoGrid(g, word, 15))[j] == word[j]
  {
    TypeInfoTable(14 - j);
    var (x1, y1) := TypeInfoCoordinate(14 - j);
    var (x2, y2) := TypeInfoMirror(|g|, 14 - j);
    TypeInfoCells(|g|, 14 - j, x1, y1, x2, y2);
  }

  /** For a valid mask, both copies in the symbol read back as the type-info word; unmasking it gives a
      type-info codeword whose first five bits are the error correction bits and the mask id, so the
      two can be recovered from either copy. An invalid mask is refused. */
  lemma TypeInfoDecodes(g: Grid, ecBits: EcBits, mask: int)
    requires IsSquare(g, |g|) && |g| >= 17
    ensures TypeInfo(g, ecBits, mask).Ok? <==> IsValidMaskPattern(mask)
    ensures TypeInfo(g, ecBits, mask).Ok? ==>
      var r := TypeInfo(g, ecBits, mask).value;
      IsSquare(r, |g|) &&
      ReadTypeInfo(r) == ReadTypeInfoMirror(r) &&
      var u := XorBits(ReadTypeInfo(r), BitsOf(TYPE_INFO_MASK_PATTERN, 15));
      ValueOf(u[..5]) == 8 * ecBits + mask && ValueOf(u[..2]) == ecBits &&
      PolyMod(ValueOf(u), TYPE_INFO_POLY) == 0
  {
    if IsValidMaskPattern(mask) {
      TypeInfoWord(ecBits, mask);
      TypeInfoReadBack(g, TypeInfoBits(ecBits, mask, []).value);
    }
  }

  /** Which version-info bit an n-by-n symbol keeps in cell (x, y), or -1 for none: block A has six
      columns of three cells above the bottom-left finder, block B its transpose left of the
      top-right finder; bit positions run 0 to 17 down each column, then column by column. */
  function VersionInfoIndex(n: int, x: int, y: int): (k: int)
    ensures -1 <= k < 18
  {
    if 0 <= x < 6 && n - 11 <= y < n - 8 then 3 * x + (y - (n - 11))
    else if 0 <= y < 6 && n - 11 <= x < n - 8 then 3 * y + (x - (n - 11))
    else -1
  }

  /** The grid g with both blocks of the first count positions of the 18-bit word written: the cells
      of position k hold word[17 - k]. */
  function VersionInfoGrid(g: Grid, word: seq<bool>, count: int): (r: Grid)
    requires |word| == 18
    ensures SameShape(g, r)
  {
    seq(|g|, y requires 0 <= y < |g| =>
      seq(|g[y]|, x requires 0 <= x < |g[y]| => VersionInfoCell(g[y][x], word, count, VersionInfoIndex(|g|, x, y))))
  }

  /** A cell of VersionInfoGrid: the bit of its position k if k is one of the first count, otherwise its old code v. */
  function VersionInfoCell(v: Byte, word: seq<bool>, count: int, k: int): Byte
    requires |word| == 18 && k < 18
  {
    if 0 <= k < count then BitCode(word[17 - k]) else v
  }

  lemma VersionInfoGridNone(g: Grid, word: seq<bool>)
    requires |word| == 18
    ensures VersionInfoGrid(g, word, 0) == g
  {
    GridExt(VersionInfoGrid(g, word, 0), g);
  }

  /** Writing both cells of position 3i + j, (i, n - 11 + j) and its transpose, to a grid holding the
      positions below it gives the positions up to it. */
  lemma VersionInfoGridStep(g: Grid, n: nat, word: seq<bool>, i: int, y: int, k: int, b: Byte)
    requires IsSquare(g, n) && n >= 17 && |word| == 18 && 0 <= i < 6 && n - 11 <= y < n - 8
    requires k == 3 * i + (y - (n - 11)) && b == BitCode(word[17 - k])
    ensures 0 <= y < n
    ensures SetCell(SetCell(VersionInfoGrid(g, word, k), i, y, b), y, i, b) == VersionInfoGrid(g, word, k + 1)
  {
    var j := y - (n - 11);
    var t := VersionInfoGrid(g, word, k);
    var a := SetCell(SetCell(t, i, y, b), y, i, b);
    var c := VersionInfoGrid(g, word, k + 1);
    forall y, x | 0 <= y < n && 0 <= x < n
      ensures a[y][x] == c[y][x]
    {
      if (x, y) != (i, n - 11 + j) && (x, y) != (n - 11 + j, i) {
        VersionInfoIndexOther(n, x, y, i, j);
        assert a[y][x] == t[y][x];
        assert c[y][x] == t[y][x];
      } else {
        assert VersionInfoIndex(n, x, y) == k;
      }
    }
    GridExt(a, c);
  }

  /** Only the two cells of position 3i + j carry that position. */
  lemma VersionInfoIndexOther(n: int, x: int, y: int, i: int, j: int)
    requires n >= 17 && 0 <= i < 6 && 0 <= j < 3
    requires (x, y) != (i, n - 11 + j) && (x, y) != (n - 11 + j, i)
    ensures VersionInfoIndex(n, x, y) != 3 * i + j
  {
  }

  /** The version information: nothing below version 7, otherwise both blocks of the version's word. */
  function VersionInfo(g: Grid, version: int): (r: Result<Grid>)
    requires version < 64
    ensures r.Ok?
  {
    if version < 7 then Ok(g)
    else
      VersionInfoWord(version);
      Ok(VersionInfoGrid(g, VersionInfoBits(version, []).value, 18))
  }

  method MaybeEmbedVersionInfo(version: int, m: ByteMatrix) returns (o: Outcome)
    requires version < 64 && m.Valid() && m.width == m.height >= 17
    modifies m.bytes
    ensures Realizes(o, VersionInfo(old(m.Cells()), version), m.Cells())
  {
    if version < 7 {
      return Success;
    }
    var made := MakeVersionInfoBits(version, []);
    EmbedVersionInfoWord(made.value, m);
    o := Success;
  }

  /** The source's two loops over the 18 bits of the word, least significant first: bit 3i + j goes to
      (i, n - 11 + j) beside the bottom-left finder and to (n - 11 + j, i) beside the top-right one. */
  method EmbedVersionInfoWord(versionInfoBits: seq<bool>, m: ByteMatrix)
    requires m.Valid() && m.width == m.height >= 17 && |versionInfoBits| == 18
    modifies m.bytes
    ensures m.Cells() == VersionInfoGrid(old(m.Cells()), versionInfoBits, 18)
  {
    ghost var g0 := m.Cells();
    VersionInfoGridNone(g0, versionInfoBits);
    var bitIndex := 6 * 3 - 1;
    for i := 0 to 6
      invariant bitIndex == 17 - 3 * i
      invariant m.Cells() == VersionInfoGrid(g0, versionInfoBits, 3 * i)
    {
      bitIndex := EmbedVersionInfoColumn(versionInfoBits, m, i, bitIndex, g0);
    }
  }

  /** The source's inner loop: the three bits 3i to 3i + 2 of the word, in column i of block A and row i
      of block B. */
  method EmbedVersionInfoColumn(versionInfoBits: seq<bool>, m: ByteMatrix, i: int, bitIndex0: int, ghost g0: Grid)
    returns (bitIndex: int)
    requires m.Valid() && m.width == m.height >= 17 && |versionInfoBits| == 18 && IsSquare(g0, m.height)
    requires 0 <= i < 6 && bitIndex0 == 17 - 3 * i
    requires m.Cells() == VersionInfoGrid(g0, versionInfoBits, 3 * i)
    modifies m.bytes
    ensures bitIndex == bitIndex0 - 3
    ensures m.Cells() == VersionInfoGrid(g0, versionInfoBits, 3 * i + 3)
  {
    bitIndex := bitIndex0;
    ghost var written := 3 * i;
    for j := 0 to 3
      invariant written == 3 * i + j && bitIndex == 17 - written
      invariant m.Cells() == VersionInfoGrid(g0, versionInfoBits, written)
    {
      var bit := if versionInfoBits[bitIndex] then 1 else 0;
      bitIndex := bitIndex - 1;
      var y := m.height - 11 + j;
      EmbedVersionInfoBit(versionInfoBits, m, i, y, bit, g0, written);
      written := written + 1;
    }
  }

  /** The two writes of bit 17 - k of the word: (i, y) in block A and (y, i) in block B. */
  method EmbedVersionInfoBit(versionInfoBits: seq<bool>, m: ByteMatrix, i: int, y: int, bit: int, ghost g0: Grid,
                             ghost k: int)
    requires m.Valid() && m.width == m.height >= 17 && |versionInfoBits| == 18 && IsSquare(g0, m.height)
    requires 0 <= i < 6 && m.height - 11 <= y < m.height - 8 && k == 3 * i + (y - (m.height - 11))
    requires bit == if versionInfoBits[17 - k] then 1 else 0
    requires m.Cells() == VersionInfoGrid(g0, versionInfoBits, k)
    modifies m.bytes
    ensures m.Cells() == VersionInfoGrid(g0, versionInfoBits, k + 1)
  {
    VersionInfoGridStep(g0, m.height, versionInfoBits, i, y, k, ToByte(bit));
    m.SetInt(i, y, bit);
    m.SetInt(y, i, bit);
  }

  /** The word read back from block A, most significant bit first. */
  function ReadVersionInfo(g: Grid): (word: seq<bool>)
    requires IsSquare(g, |g|) && |g| >= 17
    ensures |word| == 18
  {
    var n := |g|;
    seq(18, j requires 0 <= j < 18 => g[n - 11 + (17 - j) % 3][(17 - j) / 3] == 1)
  }

  /** The word read back from block B. */
  function ReadVersionInfoMirror(g: Grid): (word: seq<bool>)
    requires IsSquare(g, |g|) && |g| >= 17
    ensures |word| == 18
  {
    var n := |g|;
    seq(18, j requires 0 <= j < 18 => g[(17 - j) / 3][n - 11 + (17 - j) % 3] == 1)
  }

  /** Position k of the word sits in column k / 3, row n - 11 + k mod 3 of block A. */
  lemma VersionInfoPosition(n: int, k: int)
    requires n >= 17 && 0 <= k < 18
    ensures 0 <= k / 3 < 6 && 0 <= k % 3 < 3
    ensures VersionInfoIndex(n, k / 3, n - 11 + k % 3) == k
    ensures VersionInfoIndex(n, n - 11 + k % 3, k / 3) == k
  {
  }

  /** Both blocks read back as the word written; every cell outside them is unchanged. */
  lemma VersionInfoReadBack(g: Grid, word: seq<bool>)
    requires IsSquare(g, |g|) && |g| >= 17 && |word| == 18
    ensures IsSquare(VersionInfoGrid(g, word, 18), |g|)
    ensures ReadVersionInfo(VersionInfoGrid(g, word, 18)) == word
    ensures ReadVersionInfoMirror(VersionInfoGrid(g, word, 18)) == word
    ensures forall y, x :: 0 <= y < |g| && 0 <= x < |g| && VersionInfoIndex(|g|, x, y) == -1 ==>
      VersionInfoGrid(g, word, 18)[y][x] == g[y][x]
  {
    var r := VersionInfoGrid(g, word, 18);
    forall j | 0 <= j < 18
      ensures ReadVersionInfo(r)[j] == word[j] && ReadVersionInfoMirror(r)[j] == word[j]
    {
      VersionInfoPosition(|g|, 17 - j);
    }
  }

  /** From version 7 on, both blocks read back as a version-info codeword whose first six bits are the
      version; below version 7 the grid is untouched. */
  lemma VersionInfoDecodes(g: Grid, version: int)
    requires IsSquare(g, |g|) && |g| >= 17 && version < 64
    ensures version < 7 ==> VersionInfo(g, version) == Ok(g)
    ensures 7 <= version ==>
      var r := VersionInfo(g, version).value;
      IsSquare(r, |g|) &&
      ReadVersionInfo(r) == ReadVersionInfoMirror(r) &&
      ValueOf(ReadVersionInfo(r)[..6]) == version &&
      PolyMod(ValueOf(ReadVersionInfo(r)), VERSION_INFO_POLY) == 0
  {
    if 7 <= version {
      VersionInfoWord(version);
      VersionInfoReadBack(g, VersionInfoBits(version, []).value);
    }
  }

  /** Copies of type info are read from the type-info cells alone: grids that agree there read the same. */
  lemma ReadTypeInfoKept(a: Grid, b: Grid)
    requires IsSquare(a, |a|) && IsSquare(b, |a|) && |a| >= 17
    requires forall y, x :: 0 <= y < |a| && 0 <= x < |a| && TypeInfoIndex(|a|, x, y) >= 0 ==> b[y][x] == a[y][x]
    ensures ReadTypeInfo(b) == ReadTypeInfo(a) && ReadTypeInfoMirror(b) == ReadTypeInfoMirror(a)
  {
    forall j | 0 <= j < 15
      ensures ReadTypeInfo(b)[j] == ReadTypeInfo(a)[j] && ReadTypeInfoMirror(b)[j] == ReadTypeInfoMirror(a)[j]
    {
      TypeInfoTable(14 - j);
      var (x1, y1) := TypeInfoCoordinate(14 - j);
      var (x2, y2) := TypeInfoMirror(|a|, 14 - j);
      TypeInfoCells(|a|, 14 - j, x1, y1, x2, y2);
    }
  }

  /** Likewise the version-info blocks are read from the version-info cells alone. */
  lemma ReadVersionInfoKept(a: Grid, b: Grid)
    requires IsSquare(a, |a|) && IsSquare(b, |a|) && |a| >= 17
    requires forall y, x :: 0 <= y < |a| && 0 <= x < |a| && VersionInfoIndex(|a|, x, y) >= 0 ==> b[y][x] == a[y][x]
    ensures ReadVersionInfo(b) == ReadVersionInfo(a) && ReadVersionInfoMirror(b) == ReadVersionInfoMirror(a)
  {
    forall j | 0 <= j < 18
      ensures ReadVersionInfo(b)[j] == ReadVersionInfo(a)[j] && ReadVersionInfoMirror(b)[j] == ReadVersionInfoMirror(a)[j]
    {
      VersionInfoPosition(|a|, 17 - j);
    }
  }

  /** From side 21 on (every symbol size), the type-info cells, the version-info cells and the dark-dot cell
      (8, n - 8) are pairwise apart. On a side of 17 to 19 the block left of the top-right finder would
      reach column 8, where the type info is. */
  lemma InfoCellsApart(n: int, x: int, y: int)
    requires n >= 21
    ensures TypeInfoIndex(n, x, y) >= 0 ==> VersionInfoIndex(n, x, y) == -1
    ensures (x, y) == (8, n - 8) ==> TypeInfoIndex(n, x, y) == -1 && VersionInfoIndex(n, x, y) == -1
  {
  }
}
