# QR code matrix construction (iText barcodes)

This project models the part of the iText barcode library that lays out a QR code symbol. It covers two source files.

`MatrixUtil` takes a `ByteMatrix` of side `17 + 4 * version`. Every cell starts empty (`-1`). The routines then fill the matrix in this order:

- the three position-detection squares, with their separators;
- the dark dot;
- the alignment patterns from the version's centre table;
- the timing lines;
- the 15-bit format ("type") information, in two mirrored copies;
- the 18-bit version information, in two mirrored copies, for versions 7 and up;
- the data bits. They go into the remaining empty cells along the two-column zig-zag scan, masked and padded with 0.

Any violated precondition of the source raises a `WriterException`. The model returns a `Failure` outcome or an `Err` result instead.

How the model is laid out:

- `ByteMatrices` models the `ByteMatrix` class. It is a class over an `array2<Byte>`. A ghost `Cells()` view gives the grid as a sequence of rows.
- Each mutating routine of `MatrixUtil` is a module-level method that takes the `ByteMatrix` as its parameter `m`, as the static methods of the source take `matrix`. Each method is proved to `Realize` a pure specification function over grids (`Stamp`, `DarkDot`, `Alignment`, `Timing`, `TypeInfo`, `VersionInfo`, `DataBits`, `Build`).
- Lemmas then state what those functions guarantee:
  - which cells are written and with what;
  - that cells already set are never changed (`Keeps`);
  - that the format and version words can be read back from both copies and decode to the inputs;
  - that the basic patterns succeed on a cleared symbol of every version, and that a build succeeds exactly when the mask is valid and the data fits;
  - that the zig-zag scan visits each data cell exactly once;
  - that the data bits read back, unmasked, are the input followed by zero padding.
- The BCH arithmetic is modelled as polynomial arithmetic over GF(2) on naturals (`GF2`).

Module map:

| module | file | models |
|---|---|---|
| `Faults` | faults.dfy | `WriterException` as a `Fault`, `Result` and `Outcome` |
| `GF2` | gf2.dfy | bit length, carry-less XOR, multiplication and remainder |
| `BitVectors` | bit_vector.dfy | the bit vector as `seq<bool>`: append and XOR |
| `Bch` | bch.dfy | `FindMSBSet`, `CalculateBCHCode`, `MakeTypeInfoBits`, `MakeVersionInfoBits` |
| `ByteMatrices` | byte_matrix.dfy | `ByteMatrix` |
| `QrCells` | qr_cells.dfy | cell codes, `IsEmpty`, `IsValidValue`, and stamping a pattern on a grid |
| `QrTables` | qr_tables.dfy | the pattern and coordinate tables, and the constants |
| `PatternEmbedding` | basic_patterns.dfy | `ClearMatrix`, `EmbedBasicPatterns` and its helpers |
| `PatternLayout` | pattern_layout.dfy | what the basic patterns leave: where the alignment squares land, the finders and separators, the timing lines, and why all of it succeeds on a cleared symbol |
| `InfoEmbedding` | info_embedding.dfy | `EmbedTypeInfo`, `MaybeEmbedVersionInfo` |
| `DataPlacement` | data_placement.dfy | `EmbedDataBits` |
| `MatrixBuilder` | matrix_builder.dfy | `BuildMatrix` |

## Model

In this table, `MatrixUtil.cs` and `ByteMatrix.cs` both live in `barcodes/src/com/itextpdf/barcodes/qrcode/`.

| member | source | states |
|---|---|---|
| ByteMatrices.ToByte | barcodes/src/com/itextpdf/barcodes/qrcode/ByteMatrix.cs:102-105 | the narrowing cast keeps the value modulo 256, and leaves a value already in byte range unchanged |
| ByteMatrices.UnsignedByte | barcodes/src/com/itextpdf/barcodes/qrcode/MatrixUtil.cs:155-158 | the unsigned reading of a stored byte is in 0..255 and congruent to the value modulo 256 (the as-written storage of the finding below) |
| ByteMatrices.ByteMatrix.constructor | barcodes/src/com/itextpdf/barcodes/qrcode/ByteMatrix.cs:66-75 | a new matrix has the given width and height, and every cell is 0 |
| ByteMatrices.ByteMatrix.Get | barcodes/src/com/itextpdf/barcodes/qrcode/ByteMatrix.cs:87-90 | `Get(x, y)` reads column x of row y |
| ByteMatrices.ByteMatrix.Set | barcodes/src/com/itextpdf/barcodes/qrcode/ByteMatrix.cs:97-100 | cell (x, y) takes the value, and every other cell is unchanged |
| ByteMatrices.ByteMatrix.SetInt | barcodes/src/com/itextpdf/barcodes/qrcode/ByteMatrix.cs:102-105 | the new grid is the old one with (x, y) set to the cast of the int |
| ByteMatrices.ByteMatrix.Clear | barcodes/src/com/itextpdf/barcodes/qrcode/ByteMatrix.cs:107-116 | every cell equals the given value |
| ByteMatrices.ByteMatrix.ToString | barcodes/src/com/itextpdf/barcodes/qrcode/ByteMatrix.cs:118-149 | the result is the rendering `GridText` of the current cells |
| ByteMatrices.GridTextLength | barcodes/src/com/itextpdf/barcodes/qrcode/ByteMatrix.cs:118-149 | the rendering of an h-by-w grid has length h * (2w + 1) |
| ByteMatrices.GridTextAt | barcodes/src/com/itextpdf/barcodes/qrcode/ByteMatrix.cs:118-149 | at offset y(2w+1)+2x the rendering has a space, then '0', '1' or ' ' according to cell (x, y); each row ends with a line feed |
| QrCells.CellCodes | barcodes/src/com/itextpdf/barcodes/qrcode/MatrixUtil.cs:422-431 | the valid values are exactly the codes of the three cell states; decoding a code gives its state back; only the empty state is empty |
| QrCells.UnsignedSentinel | barcodes/src/com/itextpdf/barcodes/qrcode/MatrixUtil.cs:155-158 | the unsigned reading of the cleared cell is 255, which is neither empty nor valid; the signed reading is -1, which is empty |
| QrCells.StampSpec | barcodes/src/com/itextpdf/barcodes/qrcode/MatrixUtil.cs:477-563 | a stamp succeeds iff every covered cell is empty; on success it writes the pattern exactly, leaves uncovered cells alone, keeps set cells, and preserves validity |
| QrTables.PatternShapes | barcodes/src/com/itextpdf/barcodes/qrcode/MatrixUtil.cs:55-69 | the patterns are 7x7, 1x8, 7x1 and 5x5, and every entry is a valid code |
| QrTables.CentreTableFits | barcodes/src/com/itextpdf/barcodes/qrcode/MatrixUtil.cs:71-92 | the table has 40 rows of 7 entries; each entry is -1 or a centre whose 5x5 square lies inside the symbol of that version |
| QrTables.CentreTableApart | barcodes/src/com/itextpdf/barcodes/qrcode/MatrixUtil.cs:71-92 | in every row the real centres rise by at least 5, so no two alignment squares overlap, and each is even, 6 or at least 12, and n-7 or at most n-11, so a square meets a finder corner or the dark dot only when its centre lies in a corner |
| QrTables.RowApartSpaced | barcodes/src/com/itextpdf/barcodes/qrcode/MatrixUtil.cs:71-92 | centres that each follow the one before by 5 or more (with -1 only at the end) are pairwise 5 apart |
| GF2.BitLengthBounds | barcodes/src/com/itextpdf/barcodes/qrcode/MatrixUtil.cs:325-339 | a positive value with bit length n lies in [2^(n-1), 2^n); only 0 has length 0 |
| GF2.PolyModIsRemainder | barcodes/src/com/itextpdf/barcodes/qrcode/MatrixUtil.cs:341-365 | the GF(2) remainder is shorter than the divisor, and XOR-ing it onto the dividend gives a carry-less multiple of the divisor |
| GF2.PolyModUnique | barcodes/src/com/itextpdf/barcodes/qrcode/MatrixUtil.cs:341-365 | any value shorter than the divisor that differs from the dividend by a multiple is that remainder |
| Bch.FindMsbSet | barcodes/src/com/itextpdf/barcodes/qrcode/MatrixUtil.cs:330-339 | the count is the bit length of the value read as unsigned 32-bit, at most 32 |
| Bch.FindMsbSetExamples | barcodes/src/com/itextpdf/barcodes/qrcode/MatrixUtil.cs:325-329 | 0, 1 and 255 have bit lengths 0, 1 and 8 |
| Bch.CalculateBchCode | barcodes/src/com/itextpdf/barcodes/qrcode/MatrixUtil.cs:366-379 | the loop returns the GF(2) remainder of value * 2^(deg poly) by poly, which is shorter than poly |
| Bch.ReductionStep | barcodes/src/com/itextpdf/barcodes/qrcode/MatrixUtil.cs:372-377 | one XOR with the shifted poly stays in 31 bits, shortens the value and keeps its remainder |
| Bch.BchCodeRemainder | barcodes/src/com/itextpdf/barcodes/qrcode/MatrixUtil.cs:341-379 | the shifted value XOR the code is a multiple of poly, and the code is the only short value with that property |
| Bch.BchCodeOfVersion7 | barcodes/src/com/itextpdf/barcodes/qrcode/MatrixUtil.cs:341-365 | the BCH code of 7 under 0x1f25 is 0xc94 |
| Bch.GeneratorLengths | barcodes/src/com/itextpdf/barcodes/qrcode/MatrixUtil.cs:100-102 | the generators 0x537 and 0x1f25 have degrees 10 and 12 |
| Bch.TypeInfoBits | barcodes/src/com/itextpdf/barcodes/qrcode/MatrixUtil.cs:385-404 | fails iff the mask is outside 0..7 (with `InvalidMaskPattern`) or the target vector is not empty (the size check); otherwise 15 bits |
| Bch.MakeTypeInfoBits | barcodes/src/com/itextpdf/barcodes/qrcode/MatrixUtil.cs:385-404 | the routine yields exactly `TypeInfoBits` |
| Bch.TypeInfoUnmasked | barcodes/src/com/itextpdf/barcodes/qrcode/MatrixUtil.cs:392-398 | the word XOR 0x5412 is the 5-bit (ec << 3) \| mask followed by its 10-bit BCH code |
| Bch.TypeInfoWord | barcodes/src/com/itextpdf/barcodes/qrcode/MatrixUtil.cs:385-404 | the unmasked word has mask-and-ec prefix (ec << 3) \| mask, ec in its first 2 bits, and is divisible by 0x537 |
| Bch.TypeInfoInjective | barcodes/src/com/itextpdf/barcodes/qrcode/MatrixUtil.cs:385-404 | distinct (ec, mask) pairs give distinct type-information words |
| Bch.VersionInfoBits | barcodes/src/com/itextpdf/barcodes/qrcode/MatrixUtil.cs:409-419 | fails iff the target vector is not empty; otherwise 18 bits |
| Bch.MakeVersionInfoBits | barcodes/src/com/itextpdf/barcodes/qrcode/MatrixUtil.cs:409-419 | the routine yields exactly `VersionInfoBits` |
| Bch.VersionInfoWord | barcodes/src/com/itextpdf/barcodes/qrcode/MatrixUtil.cs:409-419 | the first 6 bits are the version, and the 18-bit word is divisible by 0x1f25 |
| Bch.VersionInfoOfVersion7 | barcodes/src/com/itextpdf/barcodes/qrcode/MatrixUtil.cs:341-365 | version 7 encodes as 0x07c94 |
| BitVectors.ValueOfBitsOf | barcodes/src/com/itextpdf/barcodes/qrcode/MatrixUtil.cs:393-395 | appending a value in n bits and reading them back gives the value |
| BitVectors.ValueOfConcat | barcodes/src/com/itextpdf/barcodes/qrcode/MatrixUtil.cs:393-395 | the value of a concatenation is the first part shifted by the second's length plus the second |
| BitVectors.XorBitsTwice | barcodes/src/com/itextpdf/barcodes/qrcode/MatrixUtil.cs:396-398 | XOR with the mask vector undoes itself |
| PatternEmbedding.ClearMatrix | barcodes/src/com/itextpdf/barcodes/qrcode/MatrixUtil.cs:155-158 | every cell is empty (-1) |
| PatternEmbedding.StampPattern | barcodes/src/com/itextpdf/barcodes/qrcode/MatrixUtil.cs:520-563 | the nested loop realizes `Stamp`: it fails on the first covered non-empty cell, or it writes the pattern |
| PatternEmbedding.EmbedPositionDetectionPattern | barcodes/src/com/itextpdf/barcodes/qrcode/MatrixUtil.cs:543-563 | realizes the stamp of the 7x7 finder at the given corner |
| PatternEmbedding.EmbedHorizontalSeparationPattern | barcodes/src/com/itextpdf/barcodes/qrcode/MatrixUtil.cs:477-494 | realizes the stamp of the 1x8 light separator |
| PatternEmbedding.EmbedVerticalSeparationPattern | barcodes/src/com/itextpdf/barcodes/qrcode/MatrixUtil.cs:497-514 | realizes the stamp of the 7x1 light separator |
| PatternEmbedding.EmbedPositionAdjustmentPattern | barcodes/src/com/itextpdf/barcodes/qrcode/MatrixUtil.cs:520-540 | realizes the stamp of the 5x5 alignment square |
| PatternEmbedding.EmbedPositionDetectionPatterns | barcodes/src/com/itextpdf/barcodes/qrcode/MatrixUtil.cs:570-577 | realizes the three finder stamps in source order |
| PatternEmbedding.EmbedHorizontalSeparationPatterns | barcodes/src/com/itextpdf/barcodes/qrcode/MatrixUtil.cs:578-586 | realizes the three horizontal separator stamps in source order |
| PatternEmbedding.EmbedVerticalSeparationPatterns | barcodes/src/com/itextpdf/barcodes/qrcode/MatrixUtil.cs:587-594 | realizes the three vertical separator stamps in source order |
| PatternEmbedding.EmbedPositionDetectionPatternsAndSeparators | barcodes/src/com/itextpdf/barcodes/qrcode/MatrixUtil.cs:567-595 | realizes finders, then horizontal separators, then vertical separators |
| PatternEmbedding.DarkDotSpec | barcodes/src/com/itextpdf/barcodes/qrcode/MatrixUtil.cs:467-474 | fails iff cell (8, n-8) is light; otherwise that cell becomes dark and nothing else changes |
| PatternEmbedding.EmbedDarkDotAtLeftBottomCorner | barcodes/src/com/itextpdf/barcodes/qrcode/MatrixUtil.cs:467-474 | realizes `DarkDot` |
| PatternEmbedding.AlignFromStep | barcodes/src/com/itextpdf/barcodes/qrcode/MatrixUtil.cs:612-627 | one inner iteration either fails as the whole remainder would, or advances the remaining work by one centre |
| PatternEmbedding.AlignFromKeeps | barcodes/src/com/itextpdf/barcodes/qrcode/MatrixUtil.cs:599-629 | placing alignment squares never changes a cell that was already set |
| PatternEmbedding.MaybeEmbedPositionAdjustmentPatterns | barcodes/src/com/itextpdf/barcodes/qrcode/MatrixUtil.cs:599-629 | realizes `Alignment` for the version's row of the centre table, which `PatternLayout.AlignmentSpec` characterises cell by cell |
| PatternEmbedding.EmbedPositionAdjustmentPatternsOfRow | barcodes/src/com/itextpdf/barcodes/qrcode/MatrixUtil.cs:610-628 | the outer loop realizes `AlignFrom` over all centre pairs, whose squares `PatternLayout.AlignFromOk`, `AlignFromWrites` and `AlignFromLeaves` give |
| PatternEmbedding.EmbedPositionAdjustmentPatternsAtY | barcodes/src/com/itextpdf/barcodes/qrcode/MatrixUtil.cs:612-627 | the inner loop either fails as the specification does or leaves exactly the remaining rows to do |
| PatternEmbedding.TimingFromSpec | barcodes/src/com/itextpdf/barcodes/qrcode/MatrixUtil.cs:437-463 | fails iff some timing-line cell is invalid; otherwise empty timing-line cells get (x + y + 1) mod 2 and every other cell is unchanged |
| PatternEmbedding.TimingStep | barcodes/src/com/itextpdf/barcodes/qrcode/MatrixUtil.cs:443-461 | one iteration succeeds iff both cells are valid, and then writes (i + 1) mod 2 into whichever of them is empty |
| PatternEmbedding.TimingKeeps | barcodes/src/com/itextpdf/barcodes/qrcode/MatrixUtil.cs:437-463 | on an all-valid grid the timing pass succeeds, keeps set cells and leaves the grid valid |
| PatternEmbedding.TimingKeepsSet | barcodes/src/com/itextpdf/barcodes/qrcode/MatrixUtil.cs:437-463 | a successful timing pass never changes a set cell |
| PatternEmbedding.EmbedTimingPatterns | barcodes/src/com/itextpdf/barcodes/qrcode/MatrixUtil.cs:437-463 | realizes `Timing` |
| PatternEmbedding.EmbedBasicPatterns | barcodes/src/com/itextpdf/barcodes/qrcode/MatrixUtil.cs:183-193 | realizes finders and separators, then the dark dot, then alignment, then timing, stopping at the first failure; on a cleared symbol of every version this succeeds and leaves the finders, separators, dark dot and timing lines in place (`PatternLayout.BasicPatternsSucceed`) |
| PatternEmbedding.BasicPatternsDarkDot | barcodes/src/com/itextpdf/barcodes/qrcode/MatrixUtil.cs:183-193 | after the basic patterns, cell (8, n-8) is dark |
| PatternLayout.AlignAtSpec | barcodes/src/com/itextpdf/barcodes/qrcode/MatrixUtil.cs:614-626 | at a real centre whose cell is empty, the square is stamped iff it is empty; it then holds the 5x5 pattern with its top-left at (x-2, y-2), and every other cell is unchanged |
| PatternLayout.AlignStampStep | barcodes/src/com/itextpdf/barcodes/qrcode/MatrixUtil.cs:614-626 | on a spaced row, stamping pair (i, j) changes no later pair's centre cell or square emptiness |
| PatternLayout.AlignFromOk | barcodes/src/com/itextpdf/barcodes/qrcode/MatrixUtil.cs:610-628 | on a spaced row, the loops succeed iff every pair of real centres whose centre cell is empty has an empty square; pairs with -1 or a set centre are skipped |
| PatternLayout.AlignFromWrites | barcodes/src/com/itextpdf/barcodes/qrcode/MatrixUtil.cs:610-628 | on success, the square of every stamped pair holds the 5x5 pattern at (coords[j]-2, coords[i]-2) |
| PatternLayout.AlignFromLeaves | barcodes/src/com/itextpdf/barcodes/qrcode/MatrixUtil.cs:610-628 | on success, every cell under no stamped square is unchanged |
| PatternLayout.StampedSquareKept | barcodes/src/com/itextpdf/barcodes/qrcode/MatrixUtil.cs:610-628 | a square placed earlier survives the later pairs of a spaced row |
| PatternLayout.AlignmentSpec | barcodes/src/com/itextpdf/barcodes/qrcode/MatrixUtil.cs:599-629 | none below version 2; from version 2 the version's row is spaced, and the alignment pass succeeds iff every stamped pair's square is empty, then holds the pattern on each such square and leaves every other cell alone |
| PatternLayout.PatternsSet | barcodes/src/com/itextpdf/barcodes/qrcode/MatrixUtil.cs:55-69 | the four patterns hold only light and dark codes; the separators are light; the alignment pattern's middle row and column alternate dark and light |
| PatternLayout.FindersOnCleared | barcodes/src/com/itextpdf/barcodes/qrcode/MatrixUtil.cs:567-595 | on a cleared symbol of side at least 21 the nine finder and separator stamps all succeed, one after the other, in source order |
| PatternLayout.FinderCorners | barcodes/src/com/itextpdf/barcodes/qrcode/MatrixUtil.cs:567-595 | after those stamps exactly the cells of the three 8x8 corners are set, each light or dark |
| PatternLayout.FindersPlaced | barcodes/src/com/itextpdf/barcodes/qrcode/MatrixUtil.cs:567-595 | the finder pattern sits at (0, 0), (n-7, 0) and (0, n-7), and the separator row and column beside each finder are light |
| PatternLayout.FindersKept | barcodes/src/com/itextpdf/barcodes/qrcode/MatrixUtil.cs:567-595 | a grid that keeps every set cell keeps the finders and separators |
| PatternLayout.DottedStage | barcodes/src/com/itextpdf/barcodes/qrcode/MatrixUtil.cs:467-474 | the dark dot then succeeds: the cells set are the three corners and (8, n-8), all valid, with the timing cells still empty |
| PatternLayout.SquareMeetsCorner | barcodes/src/com/itextpdf/barcodes/qrcode/MatrixUtil.cs:599-629 | a square whose centres are clear of the corners meets a corner cell or the dark dot only if its centre is in a corner |
| PatternLayout.DottedSquaresClear | barcodes/src/com/itextpdf/barcodes/qrcode/MatrixUtil.cs:599-629 | on the finders and dark dot of a cleared symbol, every pair with an empty centre cell has an empty square |
| PatternLayout.AlignedValid | barcodes/src/com/itextpdf/barcodes/qrcode/MatrixUtil.cs:599-629 | the alignment squares leave a valid grid valid |
| PatternLayout.AlignedTiming | barcodes/src/com/itextpdf/barcodes/qrcode/MatrixUtil.cs:599-629 | a square meets a timing line only along its middle row or column, which agrees with the timing bit |
| PatternLayout.AlignOnDotted | barcodes/src/com/itextpdf/barcodes/qrcode/MatrixUtil.cs:599-629 | for versions 2 to 40 the alignment pass succeeds after the finders and dark dot, keeps every set cell, leaves the grid valid and the timing cells empty or holding their bit |
| PatternLayout.TimingKept | barcodes/src/com/itextpdf/barcodes/qrcode/MatrixUtil.cs:437-463 | a grid that keeps every set cell keeps the timing lines |
| PatternLayout.TimingAlternates | barcodes/src/com/itextpdf/barcodes/qrcode/MatrixUtil.cs:437-463 | when the timing cells are empty or already hold their bit, the timing pass succeeds and cells (i, 6) and (6, i) hold (i + 1) mod 2 |
| PatternLayout.BasicPatternsSucceed | barcodes/src/com/itextpdf/barcodes/qrcode/MatrixUtil.cs:183-193 | on a cleared symbol of every version 1..40 the basic patterns succeed, with the finders and separators in place, (8, n-8) dark, every cell valid, and the timing lines alternating, so (8, 6) is dark and (9, 6) light |
| InfoEmbedding.TypeInfoTable | barcodes/src/com/itextpdf/barcodes/qrcode/MatrixUtil.cs:94-98 | the coordinate table equals the closed form used by the model |
| InfoEmbedding.TypeInfoCells | barcodes/src/com/itextpdf/barcodes/qrcode/MatrixUtil.cs:206-224 | both cells that bit i goes to lie inside the symbol, and both are indexed as position i |
| InfoEmbedding.TypeInfoIndexInverse | barcodes/src/com/itextpdf/barcodes/qrcode/MatrixUtil.cs:206-224 | a cell with a type-information index is one of the two cells of that index |
| InfoEmbedding.TypeInfoGridStep | barcodes/src/com/itextpdf/barcodes/qrcode/MatrixUtil.cs:206-224 | one iteration writes bit 14-i to the top-left cell and to its mirror, as the specification grid says |
| InfoEmbedding.TypeInfo | barcodes/src/com/itextpdf/barcodes/qrcode/MatrixUtil.cs:197-201 | embedding fails iff the mask is outside 0..7, and then with `InvalidMaskPattern` |
| InfoEmbedding.EmbedTypeInfo | barcodes/src/com/itextpdf/barcodes/qrcode/MatrixUtil.cs:197-226 | realizes `TypeInfo` |
| InfoEmbedding.EmbedTypeInfoWord | barcodes/src/com/itextpdf/barcodes/qrcode/MatrixUtil.cs:202-225 | the loop writes all 15 bits, least significant first, into both copies |
| InfoEmbedding.TypeInfoReadBack | barcodes/src/com/itextpdf/barcodes/qrcode/MatrixUtil.cs:202-225 | both copies read back as the word, and cells outside them are unchanged |
| InfoEmbedding.TypeInfoDecodes | barcodes/src/com/itextpdf/barcodes/qrcode/MatrixUtil.cs:197-226 | after embedding, the two copies agree, and unmasked they carry (ec << 3) \| mask, the ec bits and a word divisible by 0x537 |
| InfoEmbedding.VersionInfoGridStep | barcodes/src/com/itextpdf/barcodes/qrcode/MatrixUtil.cs:245-254 | one inner iteration writes bit 17-k to (i, n-11+j) and to its transpose |
| InfoEmbedding.VersionInfoIndexOther | barcodes/src/com/itextpdf/barcodes/qrcode/MatrixUtil.cs:243-255 | only the two cells of position 3i+j carry that index |
| InfoEmbedding.MaybeEmbedVersionInfo | barcodes/src/com/itextpdf/barcodes/qrcode/MatrixUtil.cs:231-256 | realizes `VersionInfo`: nothing below version 7, both copies otherwise |
| InfoEmbedding.EmbedVersionInfoWord | barcodes/src/com/itextpdf/barcodes/qrcode/MatrixUtil.cs:241-255 | the outer loop writes all 18 bits into both 6x3 blocks |
| InfoEmbedding.EmbedVersionInfoColumn | barcodes/src/com/itextpdf/barcodes/qrcode/MatrixUtil.cs:245-254 | the inner loop writes three bits and moves the bit index down by 3 |
| InfoEmbedding.EmbedVersionInfoBit | barcodes/src/com/itextpdf/barcodes/qrcode/MatrixUtil.cs:248-253 | one bit is written to a cell and to its transpose |
| InfoEmbedding.VersionInfoPosition | barcodes/src/com/itextpdf/barcodes/qrcode/MatrixUtil.cs:243-255 | bit k sits at (k / 3, n-11 + k mod 3) and at its transpose |
| InfoEmbedding.VersionInfoReadBack | barcodes/src/com/itextpdf/barcodes/qrcode/MatrixUtil.cs:241-255 | both blocks read back as the word, and other cells are unchanged |
| InfoEmbedding.VersionInfoDecodes | barcodes/src/com/itextpdf/barcodes/qrcode/MatrixUtil.cs:231-256 | below version 7 the grid is unchanged; otherwise both copies agree, start with the version and are divisible by 0x1f25 |
| InfoEmbedding.InfoCellsApart | barcodes/src/com/itextpdf/barcodes/qrcode/MatrixUtil.cs:197-256 | type and version cells never overlap, and neither covers the dark dot |
| InfoEmbedding.ReadTypeInfoKept | barcodes/src/com/itextpdf/barcodes/qrcode/MatrixUtil.cs:197-226 | the type-information reading depends only on its 30 cells |
| InfoEmbedding.ReadVersionInfoKept | barcodes/src/com/itextpdf/barcodes/qrcode/MatrixUtil.cs:231-256 | the version-information reading depends only on its 36 cells |
| DataPlacement.ScanVisitsEachOnce | barcodes/src/com/itextpdf/barcodes/qrcode/MatrixUtil.cs:265-315 | the zig-zag scan lists each cell off column 6 exactly once and lists nothing else |
| DataPlacement.ScanFromCovers | barcodes/src/com/itextpdf/barcodes/qrcode/MatrixUtil.cs:265-315 | every cell still ahead of the scan position is listed in the rest of the scan |
| DataPlacement.ScanFromDistinct | barcodes/src/com/itextpdf/barcodes/qrcode/MatrixUtil.cs:265-315 | the scan never repeats a cell |
| DataPlacement.PlaceCellSpec | barcodes/src/com/itextpdf/barcodes/qrcode/MatrixUtil.cs:279-307 | a non-empty cell is skipped; an empty one gets the next data bit (0 once data runs out), masked, and consumes a bit; other cells are unchanged |
| DataPlacement.MaskRoundTrip | barcodes/src/com/itextpdf/barcodes/qrcode/MatrixUtil.cs:299-306 | placing the same data with mask k and with no mask (-1) succeeds alike, and the two symbols differ exactly at the empty cells off column 6 where the mask bit of k is set |
| DataPlacement.MaskedTwice | barcodes/src/com/itextpdf/barcodes/qrcode/MatrixUtil.cs:299-306 | applying the mask again to a placed bit recovers the data bit |
| DataPlacement.PlaceAllConsumed | barcodes/src/com/itextpdf/barcodes/qrcode/MatrixUtil.cs:265-315 | the bit index ends at min(data length, start + empty cells visited) |
| DataPlacement.PlaceAllOthers | barcodes/src/com/itextpdf/barcodes/qrcode/MatrixUtil.cs:265-315 | cells not on the scan are unchanged |
| DataPlacement.DataBitsOutcome | barcodes/src/com/itextpdf/barcodes/qrcode/MatrixUtil.cs:316-322 | fails iff there are more data bits than empty scanned cells, with the counts of the exception message |
| DataPlacement.DataBitsSpec | barcodes/src/com/itextpdf/barcodes/qrcode/MatrixUtil.cs:262-323 | a successful placement keeps set cells and column 6, and turns every other empty cell into a valid non-empty one |
| DataPlacement.DataBitsReadBack | barcodes/src/com/itextpdf/barcodes/qrcode/MatrixUtil.cs:262-323 | reading the empty cells in scan order and unmasking gives the data followed by zero padding |
| DataPlacement.PlaceFromScan | barcodes/src/com/itextpdf/barcodes/qrcode/MatrixUtil.cs:270-315 | the loop's pair-by-pair order is the placement along the scan |
| DataPlacement.ScanTurns | barcodes/src/com/itextpdf/barcodes/qrcode/MatrixUtil.cs:270-315 | at the end of a column pair the direction reverses, y steps back in, x moves left by 2, and column 6 is skipped |
| DataPlacement.RowInside | barcodes/src/com/itextpdf/barcodes/qrcode/MatrixUtil.cs:277 | the row stays inside the matrix until the pair's n rows are done |
| DataPlacement.PairsEnd | barcodes/src/com/itextpdf/barcodes/qrcode/MatrixUtil.cs:270 | the outer loop runs exactly once per column pair |
| DataPlacement.DataBitsByPairs | barcodes/src/com/itextpdf/barcodes/qrcode/MatrixUtil.cs:262-323 | the loop-shaped placement and the final bit-count check give `DataBits` |
| DataPlacement.EmbedDataBits | barcodes/src/com/itextpdf/barcodes/qrcode/MatrixUtil.cs:262-323 | realizes `DataBits` |
| DataPlacement.EmbedColumnPair | barcodes/src/com/itextpdf/barcodes/qrcode/MatrixUtil.cs:277-310 | the middle loop places one column pair from top to bottom or bottom to top |
| DataPlacement.EmbedRowOfPair | barcodes/src/com/itextpdf/barcodes/qrcode/MatrixUtil.cs:279-308 | the inner loop places the right cell of a row, then the left one |
| MatrixBuilder.BuildMatrix | barcodes/src/com/itextpdf/barcodes/qrcode/MatrixUtil.cs:163-174 | realizes `Build`: clear, basic patterns, type info, version info, then data, stopping at the first failure; `Build` succeeds exactly for a mask in 0..7 and data no longer than the room the layout leaves (`MatrixBuilder.BuildSucceeds`) |
| MatrixBuilder.BuildRefusesInvalidMask | barcodes/src/com/itextpdf/barcodes/qrcode/MatrixUtil.cs:163-174 | a successful build had a mask in 0..7; for every version an invalid mask fails with `InvalidMaskPattern`, with no hypothesis on the earlier stages |
| MatrixBuilder.LayoutSucceeds | barcodes/src/com/itextpdf/barcodes/qrcode/MatrixUtil.cs:166-171 | the layout before the data succeeds iff the mask is in 0..7 |
| MatrixBuilder.BuildSucceeds | barcodes/src/com/itextpdf/barcodes/qrcode/MatrixUtil.cs:163-174 | a build succeeds iff the mask is in 0..7 and the data fits the layout's empty scanned cells; too much data fails with the room and the data length |
| MatrixBuilder.FindersOffInfo | barcodes/src/com/itextpdf/barcodes/qrcode/MatrixUtil.cs:197-256 | the finders, separators and timing lines lie off the type and version information cells |
| MatrixBuilder.LayoutOffInfo | barcodes/src/com/itextpdf/barcodes/qrcode/MatrixUtil.cs:197-256 | the information passes change no other cell |
| MatrixBuilder.LayoutFinders | barcodes/src/com/itextpdf/barcodes/qrcode/MatrixUtil.cs:166-171 | the layout keeps the finders, separators and timing lines |
| MatrixBuilder.BuildFinders | barcodes/src/com/itextpdf/barcodes/qrcode/MatrixUtil.cs:163-174 | a built symbol holds the finders in its corners, their light separators and the alternating timing lines |
| MatrixBuilder.LayoutAllValid | barcodes/src/com/itextpdf/barcodes/qrcode/MatrixUtil.cs:197-256 | the information passes keep a valid grid valid |
| MatrixBuilder.ColumnSixSet | barcodes/src/com/itextpdf/barcodes/qrcode/MatrixUtil.cs:183-193 | column 6 is set once the finders, separators and timing lines are in place |
| MatrixBuilder.LayoutReady | barcodes/src/com/itextpdf/barcodes/qrcode/MatrixUtil.cs:166-171 | a layout that succeeds holds only valid codes, and its column 6 is set |
| MatrixBuilder.DataFills | barcodes/src/com/itextpdf/barcodes/qrcode/MatrixUtil.cs:262-323 | data placement on such a grid leaves a light or dark module in every cell |
| MatrixBuilder.BuildFilled | barcodes/src/com/itextpdf/barcodes/qrcode/MatrixUtil.cs:163-174 | every cell of a built symbol is a light or dark module |
| MatrixBuilder.LayoutSpec | barcodes/src/com/itextpdf/barcodes/qrcode/MatrixUtil.cs:166-171 | the layout before data carries the type word in both copies and, from version 7, the version word in both copies; all of those cells are set |
| MatrixBuilder.LayoutDarkDot | barcodes/src/com/itextpdf/barcodes/qrcode/MatrixUtil.cs:166-171 | the dark dot survives the information passes |
| MatrixBuilder.BuildKeepsLayout | barcodes/src/com/itextpdf/barcodes/qrcode/MatrixUtil.cs:163-174 | a successful build keeps every cell the layout had set |
| MatrixBuilder.BuildInfo | barcodes/src/com/itextpdf/barcodes/qrcode/MatrixUtil.cs:163-174 | the finished symbol reads back the type word, and from version 7 the version word, in both copies |
| MatrixBuilder.BuildDarkDot | barcodes/src/com/itextpdf/barcodes/qrcode/MatrixUtil.cs:163-174 | the finished symbol has the dark dot |
| MatrixBuilder.BuildReadBack | barcodes/src/com/itextpdf/barcodes/qrcode/MatrixUtil.cs:163-174 | the data fit the layout's free cells, and read back, unmasked, as the data followed by zero padding |

## Left out

- `ByteMatrix.GetHeight`, `GetWidth` (ByteMatrix.cs:77-85) are the `height` and `width` fields of the class.
- `ByteMatrix.GetArray` (ByteMatrix.cs:92-95) hands out the backing array. That would let callers write through an alias, so it is not modelled. The ghost `Cells()` gives read access.
- The `BitVector` class is not part of this model. Bit vectors are `seq<bool>` values, and `AppendBits`/`Xor` are functions over them rather than in-place updates.
- `BitVector.Xor` is assumed to fail on vectors of different lengths (`SizesDiffer`). Because of that, a non-empty target buffer makes `MakeTypeInfoBits` fail before its own size check.
- `MaskUtil.GetDataMaskBit` is not part of this model. It is the parameter `maskBit`, so every property holds for any mask function.
- `QRCode.IsValidMaskPattern` is not part of this model. It is taken to accept exactly 0..7, the eight data-mask patterns of the QR standard.
- `ErrorCorrectionLevel` is not part of this model. Only its two-bit code (`EcBits`, 0..3) is used.
- Bch.CalculateBchCode: requires a non-negative value, a positive poly, and a shifted value that fits in 31 bits. The source only ever calls it with 5- and 6-bit values and the two fixed generators (`ShiftFits`). Behaviour under 32-bit overflow is not modelled.
- Bch.VersionInfoBits: requires version < 64, so that the version fits the 6-bit field. The source writes only versions 7..40.
- PatternEmbedding.EmbedBasicPatterns: requires a square matrix of side `17 + 4 * version` and a version in 1..40. The source indexes the centre table with `version - 1` and assumes that size. The same holds for `MatrixBuilder.BuildMatrix`.
- The pattern-dimension checks inside the stamping routines (MatrixUtil.cs:481-484, 501-504, 524-527, 547-550) compare the constant tables with their own lengths and never fire. The model replaces them with `QrTables.PatternShapes` and the `Fits` precondition.
- EmbedPositionAdjustmentPatternsOfRow: it accepts any row of centres that fit the symbol. Which cells it writes (`PatternLayout.AlignFromOk`, `AlignFromWrites`, `AlignFromLeaves`) is proved only for spaced rows, whose squares cannot overlap. For other rows only `AlignFromKeeps` is proved. Every row of the centre table is spaced (`QrTables.CentreTableApart`).
- Realizes: when a routine throws part-way through a stamp, the model says nothing about the partially written matrix. It only says that the outcome is the failure.
- DataPlacement.EmbedDataBits: requires `ScanSize(n)`, an odd side of at least 7, which every QR size satisfies (`MatrixBuilder.SymbolSizeScans`).
- Short data: the code pads every empty cell left after the data with 0 (MatrixUtil.cs:288-298) and fails only when data bits are left over (MatrixUtil.cs:318). Data shorter than the capacity therefore builds. The model follows the code (`DataPlacement.DataBitsOutcome`, `MatrixBuilder.BuildSucceeds`).
- `ByteMatrix.ToString` builds its text with a `StringBuilder`. The model gives the resulting string, not the builder.
- Exceptions (`WriterException`) become `Failure`/`Err` values. Exception messages are kept only as the counts carried by `NotAllBitsConsumed`.

## Findings

| source | as written | input that shows it | evidently intended | confidence | as-written member | corrected member |
|---|---|---|---|---|---|---|
| barcodes/src/com/itextpdf/barcodes/qrcode/MatrixUtil.cs:155-158 with ByteMatrix.cs:60-64, 87-90 and MatrixUtil.cs:422-431 | `ClearMatrix` stores `unchecked((byte)-1)` in a C# `byte[][]`, which is unsigned. `Get` then returns 255. So `IsEmpty` (`== -1`) is false for every cleared cell, `IsValidValue` is false, and the first stamp throws. | any version, e.g. `BuildMatrix` on a cleared 21x21 matrix: `Get(0, 0)` is 255 | cells hold the signed codes -1, 0 and 1, as in the Java original with `byte` signed | not executed | QrCells.UnsignedSentinel (with ByteMatrices.UnsignedByte) | ByteMatrices.ToByte, the signed store used by `ByteMatrix` throughout the model |
