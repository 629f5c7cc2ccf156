/** The whole builder: clear the matrix, stamp the basic patterns, write the type information, the
    version information and, last, the data bits. Each stage works on the matrix the one before left;
    the first refusal ends the build with that fault. */
module MatrixBuilder {
  import opened ByteMatrices
  import opened Faults
  import opened QrCells
  import opened QrTables
  import opened Bch
  import opened PatternEmbedding
  import opened InfoEmbedding
  import opened DataPlacement
  import opened PatternLayout

  /** Every symbol side admits the data scan: 17 + 4v is odd and at least 21. */
  lemma SymbolSizeScans(version: int)
    requires 1 <= version <= 40
    ensures ScanSize(SymbolSize(version)) && SymbolSize(version) >= 21
  {
  }

  /** The function-pattern layout of a symbol: everything the builder writes before the data bits. */
  function Layout(ecBits: EcBits, version: int, maskPattern: int): (r: Result<Grid>)
    requires 1 <= version <= 40
    ensures r.Ok? ==> IsSquare(r.value, SymbolSize(version))
  {
    var g1 :- BasicPatterns(Cleared(SymbolSize(version)), version);
    var g2 :- TypeInfo(g1, ecBits, maskPattern);
    VersionInfo(g2, version)
  }

  /** The symbol built from the data bits, the error correction bits, the version and the mask. */
  function Build(dataBits: seq<bool>, ecBits: EcBits, version: int, maskPattern: int,
                 maskBit: (int, int, int) -> bool): (r: Result<Grid>)
    requires 1 <= version <= 40
    ensures r.Ok? ==> IsSquare(r.value, SymbolSize(version))
  {
    SymbolSizeScans(version);
    var g3 :- Layout(ecBits, version, maskPattern);
    DataBits(g3, dataBits, maskPattern, maskBit)
  }

  /** Builds the symbol into m, stage by stage; the matrix ends as Build says, and a refusal is Build's. */
  method BuildMatrix(dataBits: seq<bool>, ecBits: EcBits, version: int, maskPattern: int,
                     maskBit: (int, int, int) -> bool, m: ByteMatrix) returns (o: Outcome)
    requires 1 <= version <= 40 && m.Valid() && m.width == m.height == SymbolSize(version)
    modifies m.bytes
    ensures Realizes(o, Build(dataBits, ecBits, version, maskPattern, maskBit), m.Cells())
  {
    SymbolSizeScans(version);
    ClearMatrix(m);
    GridExt(m.Cells(), Cleared(m.height));
    o := EmbedBasicPatterns(version, m);
    if o.Failure? {
      return;
    }
    // Type information appears in every version.
    o := EmbedTypeInfo(ecBits, maskPattern, m);
    if o.Failure? {
      return;
    }
    // Version information appears from version 7 on.
    o := MaybeEmbedVersionInfo(version, m);
    // The data bits go in last.
    o := EmbedDataBits(dataBits, maskPattern, maskBit, m);
  }

  /** A mask id outside 0..7 never yields a symbol: the build reports InvalidMaskPattern, since the
      basic patterns before the type information always succeed. */
  lemma BuildRefusesInvalidMask(dataBits: seq<bool>, ecBits: EcBits, version: int, maskPattern: int,
                                maskBit: (int, int, int) -> bool)
    requires 1 <= version <= 40
    ensures Build(dataBits, ecBits, version, maskPattern, maskBit).Ok? ==> IsValidMaskPattern(maskPattern)
    ensures !IsValidMaskPattern(maskPattern) ==>
      Build(dataBits, ecBits, version, maskPattern, maskBit) == Err(InvalidMaskPattern)
  {
    SymbolSizeScans(version);
    BasicPatternsSucceed(version);
  }

  /** The layout of every version succeeds exactly when the mask id is valid. */
  lemma LayoutSucceeds(ecBits: EcBits, version: int, maskPattern: int)
    requires 1 <= version <= 40
    ensures Layout(ecBits, version, maskPattern).Ok? <==> IsValidMaskPattern(maskPattern)
  {
    BasicPatternsSucceed(version);
  }

  /** A build succeeds exactly when the mask id is valid and the data bits fit in the cells the layout
      leaves empty along the scan. Data of any length up to that room builds (the rest is padded with
      0); longer data is refused with the room and the data length. */
  lemma BuildSucceeds(dataBits: seq<bool>, ecBits: EcBits, version: int, maskPattern: int,
                      maskBit: (int, int, int) -> bool)
    requires 1 <= version <= 40
    ensures var l := Layout(ecBits, version, maskPattern);
      var b := Build(dataBits, ecBits, version, maskPattern, maskBit);
      (l.Ok? <==> IsValidMaskPattern(maskPattern)) &&
      (b.Ok? <==> l.Ok? && |dataBits| <= EmptyCount(l.value, Scan(SymbolSize(version)))) &&
      (l.Ok? && b.Err? ==> b.fault == NotAllBitsConsumed(EmptyCount(l.value, Scan(SymbolSize(version))), |dataBits|))
  {
    SymbolSizeScans(version);
    LayoutSucceeds(ecBits, version, maskPattern);
    var l := Layout(ecBits, version, maskPattern);
    if l.Ok? {
      DataBitsOutcome(l.value, dataBits, maskPattern, maskBit);
    }
  }

  /** Cell (x, y) of an n-by-n symbol holds neither type information nor version information. */
  predicate OffInfo(n: int, x: int, y: int)
  {
    TypeInfoIndex(n, x, y) == -1 && VersionInfoIndex(n, x, y) == -1
  }

  /** The finders, separators and timing lines lie off the information cells, so a grid that agrees
      with one holding them on every other cell holds them too. */
  lemma FindersOffInfo(a: Grid, b: Grid, n: nat)
    requires IsSquare(a, n) && IsSquare(b, n) && n >= 21
    requires forall y, x :: 0 <= y < n && 0 <= x < n && OffInfo(n, x, y) ==> b[y][x] == a[y][x]
    requires FindersInPlace(a, n) && TimingInPlace(a, n)
    ensures FindersInPlace(b, n) && TimingInPlace(b, n)
  {
    assert forall y, x ::
      (0 <= y < n && 0 <= x < n && (y < 8 || n - 8 <= y) && (x < 8 || n - 8 <= x) && x != 8 && y != 8) ==>
        OffInfo(n, x, y);
    assert forall i :: 8 <= i < n - 8 ==> OffInfo(n, i, 6) && OffInfo(n, 6, i);
  }

  /** The layout keeps the finders, their separators and the timing lines of the basic patterns. */
  lemma LayoutFinders(ecBits: EcBits, version: int, maskPattern: int)
    requires 1 <= version <= 40
    ensures var l := Layout(ecBits, version, maskPattern);
      l.Ok? ==> FindersInPlace(l.value, SymbolSize(version)) && TimingInPlace(l.value, SymbolSize(version))
  {
    var n := SymbolSize(version);
    var l := Layout(ecBits, version, maskPattern);
    if l.Ok? {
      var g1, word, vword := LayoutStages(ecBits, version, maskPattern);
      BasicPatternsSucceed(version);
      LayoutOffInfo(n, g1, TypeInfoGrid(g1, word, 15), l.value, word, vword, 7 <= version);
      FindersOffInfo(g1, l.value, n);
    }
  }

  /** The information passes change no cell off the information cells. */
  lemma LayoutOffInfo(n: nat, g1: Grid, g2: Grid, g3: Grid, word: seq<bool>, vword: seq<bool>, withVersion: bool)
    requires IsSquare(g1, n) && n >= 21 && |word| == 15 && |vword| == 18
    requires g2 == TypeInfoGrid(g1, word, 15)
    requires g3 == if withVersion then VersionInfoGrid(g2, vword, 18) else g2
    ensures IsSquare(g3, n)
    ensures forall y, x :: 0 <= y < n && 0 <= x < n && OffInfo(n, x, y) ==> g3[y][x] == g1[y][x]
  {
    TypeInfoReadBack(g1, word);
    if withVersion {
      VersionInfoReadBack(g2, vword);
    }
  }

  /** A built symbol holds the three finder patterns in its corners, their light separators, and the
      alternating timing lines. */
  lemma BuildFinders(dataBits: seq<bool>, ecBits: EcBits, version: int, maskPattern: int,
                     maskBit: (int, int, int) -> bool)
    requires 1 <= version <= 40
    ensures var b := Build(dataBits, ecBits, version, maskPattern, maskBit);
      b.Ok? ==> FindersInPlace(b.value, SymbolSize(version)) && TimingInPlace(b.value, SymbolSize(version))
  {
    var b := Build(dataBits, ecBits, version, maskPattern, maskBit);
    if b.Ok? {
      var l := BuildStages(dataBits, ecBits, version, maskPattern, maskBit);
      LayoutFinders(ecBits, version, maskPattern);
      DataBitsSpec(l, dataBits, maskPattern, maskBit);
      FindersKept(l, b.value, |l|);
      TimingKept(l, b.value, |l|);
    }
  }

  /** Cell (x, y) of an n-by-n symbol of the version holds type information or version information. */
  predicate InfoCell(n: int, version: int, x: int, y: int)
  {
    0 <= y < n && 0 <= x < n &&
    (TypeInfoIndex(n, x, y) >= 0 || (7 <= version && VersionInfoIndex(n, x, y) >= 0))
  }

  /** What the layout holds: the mask id is valid; both type-info copies read back as the type-info
      word of the error correction bits and the mask; from version 7 on both version-info blocks read
      back as the version-info word; and every type-info and version-info cell is set. */
  lemma LayoutSpec(ecBits: EcBits, version: int, maskPattern: int)
    requires 1 <= version <= 40
    ensures var l := Layout(ecBits, version, maskPattern);
      l.Ok? ==>
        IsValidMaskPattern(maskPattern) &&
        ReadTypeInfo(l.value) == TypeInfoBits(ecBits, maskPattern, []).value &&
        ReadTypeInfoMirror(l.value) == TypeInfoBits(ecBits, maskPattern, []).value &&
        (7 <= version ==>
          ReadVersionInfo(l.value) == VersionInfoBits(version, []).value &&
          ReadVersionInfoMirror(l.value) == VersionInfoBits(version, []).value)
    ensures var l := Layout(ecBits, version, maskPattern);
      l.Ok? ==>
        forall y, x :: InfoCell(SymbolSize(version), version, x, y) ==> l.value[y][x] != EMPTY
  {
    SymbolSizeScans(version);
    var l := Layout(ecBits, version, maskPattern);
    if l.Ok? {
      var g1, word, vword := LayoutStages(ecBits, version, maskPattern);
      var g2 := TypeInfoGrid(g1, word, 15);
      LayoutInfo(SymbolSize(version), g1, g2, l.value, word, vword, 7 <= version);
    }
  }

  /** The dark dot of the basic patterns is still dark in the layout: the information cells are elsewhere. */
  lemma LayoutDarkDot(ecBits: EcBits, version: int, maskPattern: int)
    requires 1 <= version <= 40
    ensures var l := Layout(ecBits, version, maskPattern);
      l.Ok? ==> l.value[SymbolSize(version) - 8][8] == Dark.Code()
  {
    SymbolSizeScans(version);
    var l := Layout(ecBits, version, maskPattern);
    if l.Ok? {
      var g1, word, vword := LayoutStages(ecBits, version, maskPattern);
      BasicPatternsDarkDot(Cleared(SymbolSize(version)), version);
      var g2 := TypeInfoGrid(g1, word, 15);
      LayoutDotKept(version, g1, g2, l.value, word, vword, 7 <= version);
    }
  }

  /** The stages of a layout that succeeds: the basic patterns g1, then both copies of the type-info word,
      then, from version 7 on, both blocks of the version-info word. */
  lemma LayoutStages(ecBits: EcBits, version: int, maskPattern: int) returns (g1: Grid, word: seq<bool>, vword: seq<bool>)
    requires 1 <= version <= 40 && Layout(ecBits, version, maskPattern).Ok?
    ensures BasicPatterns(Cleared(SymbolSize(version)), version) == Ok(g1) && IsSquare(g1, SymbolSize(version))
    ensures IsValidMaskPattern(maskPattern) && TypeInfoBits(ecBits, maskPattern, []) == Ok(word) && |word| == 15
    ensures VersionInfoBits(version, []) == Ok(vword) && |vword| == 18
    ensures Layout(ecBits, version, maskPattern).value ==
      if 7 <= version then VersionInfoGrid(TypeInfoGrid(g1, word, 15), vword, 18) else TypeInfoGrid(g1, word, 15)
  {
    g1 := BasicPatterns(Cleared(SymbolSize(version)), version).value;
    word := TypeInfoBits(ecBits, maskPattern, []).value;
    vword := VersionInfoBits(version, []).value;
  }

  /** A built symbol keeps every cell its layout set, and the layout and the mask pattern were valid. */
  lemma BuildKeepsLayout(dataBits: seq<bool>, ecBits: EcBits, version: int, maskPattern: int,
                         maskBit: (int, int, int) -> bool)
    requires 1 <= version <= 40
    ensures var b := Build(dataBits, ecBits, version, maskPattern, maskBit);
      b.Ok? ==>
        var l := Layout(ecBits, version, maskPattern);
        l.Ok? && IsValidMaskPattern(maskPattern) && Keeps(l.value, b.value)
  {
    var b := Build(dataBits, ecBits, version, maskPattern, maskBit);
    if b.Ok? {
      var l := BuildStages(dataBits, ecBits, version, maskPattern, maskBit);
      LayoutSpec(ecBits, version, maskPattern);
      DataBitsSpec(l, dataBits, maskPattern, maskBit);
    }
  }

  /** A built symbol carries both copies of the type information of its error correction level and
      mask pattern and, from version 7 on, both copies of the version information of its version. */
  lemma BuildInfo(dataBits: seq<bool>, ecBits: EcBits, version: int, maskPattern: int,
                  maskBit: (int, int, int) -> bool)
    requires 1 <= version <= 40
    ensures var b := Build(dataBits, ecBits, version, maskPattern, maskBit);
      b.Ok? ==>
        ReadTypeInfo(b.value) == TypeInfoBits(ecBits, maskPattern, []).value &&
        ReadTypeInfoMirror(b.value) == TypeInfoBits(ecBits, maskPattern, []).value &&
        (7 <= version ==>
          ReadVersionInfo(b.value) == VersionInfoBits(version, []).value &&
          ReadVersionInfoMirror(b.value) == VersionInfoBits(version, []).value)
  {
    var b := Build(dataBits, ecBits, version, maskPattern, maskBit);
    if b.Ok? {
      var l := BuildStages(dataBits, ecBits, version, maskPattern, maskBit);
      LayoutSpec(ecBits, version, maskPattern);
      DataBitsSpec(l, dataBits, maskPattern, maskBit);
      InfoKept(version, l, b.value);
    }
  }

  /** The dark module above the lower-left finder pattern is dark in a built symbol. */
  lemma BuildDarkDot(dataBits: seq<bool>, ecBits: EcBits, version: int, maskPattern: int,
                     maskBit: (int, int, int) -> bool)
    requires 1 <= version <= 40
    ensures var b := Build(dataBits, ecBits, version, maskPattern, maskBit);
      b.Ok? ==> b.value[SymbolSize(version) - 8][8] == Dark.Code()
  {
    var b := Build(dataBits, ecBits, version, maskPattern, maskBit);
    if b.Ok? {
      var l := BuildStages(dataBits, ecBits, version, maskPattern, maskBit);
      LayoutDarkDot(ecBits, version, maskPattern);
      DataBitsSpec(l, dataBits, maskPattern, maskBit);
    }
  }

  /** A grid that keeps every set cell of a layout whose information cells are all set reads the
      same type information and version information as the layout. */
  lemma InfoKept(version: int, l: Grid, b: Grid)
    requires 1 <= version <= 40 && IsSquare(l, SymbolSize(version)) && Keeps(l, b)
    requires forall y, x :: InfoCell(SymbolSize(version), version, x, y) ==> l[y][x] != EMPTY
    ensures ReadTypeInfo(b) == ReadTypeInfo(l) && ReadTypeInfoMirror(b) == ReadTypeInfoMirror(l)
    ensures 7 <= version ==> ReadVersionInfo(b) == ReadVersionInfo(l) && ReadVersionInfoMirror(b) == ReadVersionInfoMirror(l)
  {
    forall y, x | 0 <= y < |l| && 0 <= x < |l| && TypeInfoIndex(|l|, x, y) >= 0
      ensures b[y][x] == l[y][x]
    {
      assert InfoCell(SymbolSize(version), version, x, y);
    }
    ReadTypeInfoKept(l, b);
    if 7 <= version {
      forall y, x | 0 <= y < |l| && 0 <= x < |l| && VersionInfoIndex(|l|, x, y) >= 0
        ensures b[y][x] == l[y][x]
      {
        assert InfoCell(SymbolSize(version), version, x, y);
      }
      ReadVersionInfoKept(l, b);
    }
  }

  /** The data bits of a built symbol read back, in placement order over the cells the layout left
      empty, as the given bits followed by padding zeros. */
  lemma BuildReadBack(dataBits: seq<bool>, ecBits: EcBits, version: int, maskPattern: int,
                      maskBit: (int, int, int) -> bool)
    requires 1 <= version <= 40
    ensures var b := Build(dataBits, ecBits, version, maskPattern, maskBit);
      b.Ok? ==>
        var l := Layout(ecBits, version, maskPattern).value;
        var cells := Scan(SymbolSize(version));
        |dataBits| <= EmptyCount(l, cells) &&
        ReadBits(l, b.value, cells, maskPattern, maskBit) == dataBits + seq(EmptyCount(l, cells) - |dataBits|, _ => false)
  {
    var b := Build(dataBits, ecBits, version, maskPattern, maskBit);
    if b.Ok? {
      var l := BuildStages(dataBits, ecBits, version, maskPattern, maskBit);
      DataBitsReadBack(l, dataBits, maskPattern, maskBit);
    }
  }

  /** A successful build is the data placement over a successful layout. */
  lemma BuildStages(dataBits: seq<bool>, ecBits: EcBits, version: int, maskPattern: int,
                    maskBit: (int, int, int) -> bool) returns (l: Grid)
    requires 1 <= version <= 40
    requires Build(dataBits, ecBits, version, maskPattern, maskBit).Ok?
    ensures Layout(ecBits, version, maskPattern) == Ok(l)
    ensures IsSquare(l, |l|) && ScanSize(|l|) && |l| == SymbolSize(version)
    ensures Build(dataBits, ecBits, version, maskPattern, maskBit) == DataBits(l, dataBits, maskPattern, maskBit)
  {
    SymbolSizeScans(version);
    l := Layout(ecBits, version, maskPattern).value;
  }

  /** The layout after the version information (written when withVersion holds): the type-info copies
      and the dark dot are as the type information left them, and every type-info and version-info
      cell is set. */
  lemma LayoutInfo(n: nat, g1: Grid, g2: Grid, g3: Grid, word: seq<bool>, vword: seq<bool>, withVersion: bool)
    requires IsSquare(g1, n) && n >= 21 && |word| == 15 && |vword| == 18
    requires g2 == TypeInfoGrid(g1, word, 15)
    requires g3 == if withVersion then VersionInfoGrid(g2, vword, 18) else g2
    ensures IsSquare(g3, n)
    ensures ReadTypeInfo(g3) == word && ReadTypeInfoMirror(g3) == word
    ensures forall y, x :: 0 <= y < n && 0 <= x < n && TypeInfoIndex(n, x, y) >= 0 ==> g3[y][x] != EMPTY
    ensures withVersion ==>
      ReadVersionInfo(g3) == vword && ReadVersionInfoMirror(g3) == vword &&
      forall y, x :: 0 <= y < n && 0 <= x < n && VersionInfoIndex(n, x, y) >= 0 ==> g3[y][x] != EMPTY
  {
    TypeInfoReadBack(g1, word);
    if withVersion {
      VersionInfoReadBack(g2, vword);
      forall y, x | 0 <= y < n && 0 <= x < n && TypeInfoIndex(n, x, y) >= 0
        ensures g3[y][x] == g2[y][x]
      {
        InfoCellsApart(n, x, y);
      }
      ReadTypeInfoKept(g2, g3);
    }
  }

  /** The dark-dot cell (8, n - 8) is neither a type-info nor a version-info cell. */
  lemma LayoutDotKept(version: int, g1: Grid, g2: Grid, g3: Grid, word: seq<bool>, vword: seq<bool>, withVersion: bool)
    requires 1 <= version <= 40 && IsSquare(g1, SymbolSize(version)) && |word| == 15 && |vword| == 18
    requires g2 == TypeInfoGrid(g1, word, 15)
    requires g3 == if withVersion then VersionInfoGrid(g2, vword, 18) else g2
    ensures |g3| == SymbolSize(version) && |g3[SymbolSize(version) - 8]| == SymbolSize(version)
    ensures g3[SymbolSize(version) - 8][8] == g1[SymbolSize(version) - 8][8]
  {
    InfoCellsApart(SymbolSize(version), 8, SymbolSize(version) - 8);
  }

  /** The information passes write light or dark codes, so a valid grid stays valid. */
  lemma LayoutAllValid(n: nat, g1: Grid, g2: Grid, g3: Grid, word: seq<bool>, vword: seq<bool>, withVersion: bool)
    requires IsSquare(g1, n) && n >= 21 && |word| == 15 && |vword| == 18 && AllValid(g1)
    requires g2 == TypeInfoGrid(g1, word, 15)
    requires g3 == if withVersion then VersionInfoGrid(g2, vword, 18) else g2
    ensures IsSquare(g3, n) && AllValid(g3)
  {
    assert AllValid(g2);
  }

  /** Column 6 is set once the finders, separators and timing lines are in place. */
  lemma ColumnSixSet(g: Grid, n: nat)
    requires IsSquare(g, n) && n >= 21 && FindersInPlace(g, n) && TimingInPlace(g, n)
    ensures forall y :: 0 <= y < n ==> g[y][6] != EMPTY
  {
    PatternsSet();
    PatternShapes();
    forall y | 0 <= y < n
      ensures g[y][6] != EMPTY
    {
      if y < 7 {
        assert g[y][6] == POSITION_DETECTION_PATTERN[y][6];
      } else if n - 7 <= y {
        assert g[y][6] == POSITION_DETECTION_PATTERN[y - (n - 7)][6];
      } else if y == n - 8 {
        assert g[y][6] == Light.Code();
      }
    }
  }

  /** Every cell of a built symbol is a light or dark module: the layout sets column 6 whole, and the
      data bits fill every other cell it leaves empty. */
  lemma BuildFilled(dataBits: seq<bool>, ecBits: EcBits, version: int, maskPattern: int,
                    maskBit: (int, int, int) -> bool)
    requires 1 <= version <= 40
    ensures var b := Build(dataBits, ecBits, version, maskPattern, maskBit);
      b.Ok? ==> forall y, x :: 0 <= y < SymbolSize(version) && 0 <= x < SymbolSize(version) ==>
        b.value[y][x] == Light.Code() || b.value[y][x] == Dark.Code()
  {
    var b := Build(dataBits, ecBits, version, maskPattern, maskBit);
    if b.Ok? {
      var l := BuildStages(dataBits, ecBits, version, maskPattern, maskBit);
      LayoutReady(ecBits, version, maskPattern);
      DataFills(l, dataBits, maskPattern, maskBit);
    }
  }

  /** A layout that succeeds holds only valid codes, and its column 6 is set. */
  lemma LayoutReady(ecBits: EcBits, version: int, maskPattern: int)
    requires 1 <= version <= 40
    ensures var l := Layout(ecBits, version, maskPattern);
      l.Ok? ==> AllValid(l.value) && forall y :: 0 <= y < SymbolSize(version) ==> l.value[y][6] != EMPTY
  {
    var n := SymbolSize(version);
    var l := Layout(ecBits, version, maskPattern);
    if l.Ok? {
      var g1, word, vword := LayoutStages(ecBits, version, maskPattern);
      BasicPatternsSucceed(version);
      LayoutAllValid(n, g1, TypeInfoGrid(g1, word, 15), l.value, word, vword, 7 <= version);
      LayoutFinders(ecBits, version, maskPattern);
      ColumnSixSet(l.value, n);
    }
  }

  /** Data placement on a valid grid whose column 6 is set leaves a light or dark module in every cell. */
  lemma DataFills(l: Grid, dataBits: seq<bool>, maskPattern: int, maskBit: (int, int, int) -> bool)
    requires IsSquare(l, |l|) && ScanSize(|l|) && AllValid(l)
    requires forall y :: 0 <= y < |l| ==> l[y][6] != EMPTY
    ensures var b := DataBits(l, dataBits, maskPattern, maskBit);
      b.Ok? ==> forall y, x :: 0 <= y < |l| && 0 <= x < |l| ==> b.value[y][x] == Light.Code() || b.value[y][x] == Dark.Code()
  {
    DataBitsSpec(l, dataBits, maskPattern, maskBit);
  }
}
