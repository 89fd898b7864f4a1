/**
 * bmp.c's bitmap-font preview: `ReadCell` prints one cell of a font image as
 * ASCII art, one character per sampled pixel chosen by the pixel's first byte;
 * `BitmapFont` picks the cell of a character and prints it. The printed lines
 * are returned instead of written to standard output.
 */
module GlyphCell {
  import opened LittleEndian
  import opened Arithmetic
  import opened BmpLayout

  /** `intenseChars`: darkest first, one character per intensity level. */
  const IntenseChars: string := "-~=a#"

  /** The divisor the source turns a byte into an intensity level with. */
  const IntensityStep: nat := 63

  /** The first character of the font image, and the one `BitmapFont` previews. */
  const StartChar: nat := 32
  const WhichChar: nat := 1

  /**
   * `r / 63`: the level whose band of 63 byte values holds `r`. A byte has
   * five levels, so the level always indexes `intenseChars`.
   */
  function Intensity(r: byte): (k: nat)
    ensures k < |IntenseChars|
    ensures k * IntensityStep <= r < k * IntensityStep + IntensityStep
  {
    r / IntensityStep
  }

  /** The character printed for a pixel whose first byte is `r`. */
  function Shade(r: byte): (c: char)
    ensures c in IntenseChars
  {
    IntenseChars[Intensity(r)]
  }

  /** Brighter bytes never get a lower level. */
  lemma IntensityMonotone(r: byte, s: byte)
    requires r <= s
    ensures Intensity(r) <= Intensity(s)
  {
  }

  /**
   * Where each character is printed: `-` for 0..62, `~` for 63..125, `=` for
   * 126..188, `a` for 189..251 and `#` only for the four bytes 252..255.
   */
  lemma ShadeBands(r: byte)
    ensures Shade(r) == '-' <==> r < 63
    ensures Shade(r) == '~' <==> 63 <= r < 126
    ensures Shade(r) == '=' <==> 126 <= r < 189
    ensures Shade(r) == 'a' <==> 189 <= r < 252
    ensures Shade(r) == '#' <==> 252 <= r
  {
    var k := Intensity(r);
    assert Shade(r) == IntenseChars[k];
    assert k == 0 <==> r < 63;
    assert k == 4 <==> 252 <= r;
  }

  /** Offset of pixel (`column`, `row`) in an unpadded buffer of `rowSize`-byte rows, top row first. */
  function PixelOffset(rowSize: nat, bytesPerPixel: nat, column: nat, row: nat): nat
  {
    MulNonNegative(row, rowSize);
    MulNonNegative(column, bytesPerPixel);
    row * rowSize + column * bytesPerPixel
  }

  /**
   * In the buffer `ReadImage` fills, where row 0 is the top row of the image,
   * the offset of pixel (`column`, `row`) is its first byte within buffer row `row`.
   */
  lemma PixelOffsetInRow(pixels: seq<byte>, rowSize: nat, bytesPerPixel: nat, height: nat, column: nat, row: nat)
    requires row < height && |pixels| == rowSize * height && column * bytesPerPixel < rowSize
    ensures PixelOffset(rowSize, bytesPerPixel, column, row) < |pixels|
    ensures pixels[PixelOffset(rowSize, bytesPerPixel, column, row)]
         == BufferRow(pixels, rowSize, height, row)[column * bytesPerPixel]
  {
    RowEnd(row, height, rowSize);
  }

  /**
   * The offset `ReadCell` reads sample (`cpa`, `pd`) of cell (`cellX`, `cellY`)
   * from: the cell's start, `pd` rows down, `cpa` pixels across.
   */
  function SampleOffset(rowSize: nat, bytesPerPixel: nat, cellWidth: nat, cellHeight: nat,
                        cellX: nat, cellY: nat, pd: nat, cpa: nat): (o: nat)
    ensures pd * rowSize + cpa * bytesPerPixel <= o
  {
    MulNonNegative(cellY * rowSize, cellHeight);
    MulNonNegative(cellX, cellWidth * bytesPerPixel);
    MulNonNegative(pd, rowSize);
    MulNonNegative(cpa, bytesPerPixel);
    cellY * rowSize * cellHeight + cellX * (cellWidth * bytesPerPixel) + pd * rowSize + cpa * bytesPerPixel
  }

  /**
   * The source's pointer arithmetic reads pixel (`cellX * cellWidth + cpa`,
   * `cellY * cellHeight + pd`): cells are `cellWidth` by `cellHeight` pixels,
   * laid out left to right and top to bottom.
   */
  lemma SampleOffsetIsPixel(rowSize: nat, bytesPerPixel: nat, cellWidth: nat, cellHeight: nat,
                            cellX: nat, cellY: nat, pd: nat, cpa: nat)
    ensures SampleOffset(rowSize, bytesPerPixel, cellWidth, cellHeight, cellX, cellY, pd, cpa)
         == PixelOffset(rowSize, bytesPerPixel, cellX * cellWidth + cpa, cellY * cellHeight + pd)
  {
    assert cellY * rowSize * cellHeight + pd * rowSize == (cellY * cellHeight + pd) * rowSize by {
      MulSwap(cellY, rowSize, cellHeight);
    }
    assert cellX * (cellWidth * bytesPerPixel) + cpa * bytesPerPixel
        == (cellX * cellWidth + cpa) * bytesPerPixel;
  }

  /** Every sample of the cell, up to and including row `cellHeight` and column `cellWidth`, lies in a buffer of `length` bytes. */
  predicate CellInBuffer(length: nat, rowSize: nat, bytesPerPixel: nat, cellWidth: nat, cellHeight: nat,
                         cellX: nat, cellY: nat)
  {
    SampleOffset(rowSize, bytesPerPixel, cellWidth, cellHeight, cellX, cellY, cellHeight, cellWidth) < length
  }

  /** Samples further down or across lie further into the buffer, so the last one bounds them all. */
  lemma SampleBefore(rowSize: nat, bytesPerPixel: nat, cellWidth: nat, cellHeight: nat,
                     cellX: nat, cellY: nat, pd: nat, cpa: nat)
    requires pd <= cellHeight && cpa <= cellWidth
    ensures SampleOffset(rowSize, bytesPerPixel, cellWidth, cellHeight, cellX, cellY, pd, cpa)
         <= SampleOffset(rowSize, bytesPerPixel, cellWidth, cellHeight, cellX, cellY, cellHeight, cellWidth)
  {
    MulLe(pd, cellHeight, rowSize);
    MulLe(cpa, cellWidth, bytesPerPixel);
  }

  /**
   * The lines `ReadCell` prints: `cellHeight + 1` rows of `cellWidth + 1`
   * characters, since both of its loops run up to and including the cell size.
   */
  function CellGlyphs(pixels: seq<byte>, rowSize: nat, bytesPerPixel: nat, cellWidth: nat, cellHeight: nat,
                      cellX: nat, cellY: nat): (lines: seq<string>)
    requires CellInBuffer(|pixels|, rowSize, bytesPerPixel, cellWidth, cellHeight, cellX, cellY)
    ensures |lines| == cellHeight + 1
    ensures forall pd :: 0 <= pd < |lines| ==> |lines[pd]| == cellWidth + 1
  {
    seq(cellHeight + 1, pd requires 0 <= pd <= cellHeight =>
      seq(cellWidth + 1, cpa requires 0 <= cpa <= cellWidth =>
        SampleBefore(rowSize, bytesPerPixel, cellWidth, cellHeight, cellX, cellY, pd, cpa);
        Shade(pixels[SampleOffset(rowSize, bytesPerPixel, cellWidth, cellHeight, cellX, cellY, pd, cpa)])))
  }

  /**
   * Character `cpa` of line `pd` shades pixel (`cellX * cellWidth + cpa`,
   * `cellY * cellHeight + pd`) of the image.
   */
  lemma CellGlyphsAt(pixels: seq<byte>, rowSize: nat, bytesPerPixel: nat, cellWidth: nat, cellHeight: nat,
                     cellX: nat, cellY: nat, pd: nat, cpa: nat)
    requires CellInBuffer(|pixels|, rowSize, bytesPerPixel, cellWidth, cellHeight, cellX, cellY)
    requires pd <= cellHeight && cpa <= cellWidth
    ensures PixelOffset(rowSize, bytesPerPixel, cellX * cellWidth + cpa, cellY * cellHeight + pd) < |pixels|
    ensures CellGlyphs(pixels, rowSize, bytesPerPixel, cellWidth, cellHeight, cellX, cellY)[pd][cpa]
         == Shade(pixels[PixelOffset(rowSize, bytesPerPixel, cellX * cellWidth + cpa, cellY * cellHeight + pd)])
  {
    SampleBefore(rowSize, bytesPerPixel, cellWidth, cellHeight, cellX, cellY, pd, cpa);
    SampleOffsetIsPixel(rowSize, bytesPerPixel, cellWidth, cellHeight, cellX, cellY, pd, cpa);
  }

  /**
   * Since both loops run one step past the cell size, the last column printed
   * for a cell is the first column of the cell to its right, and the last line
   * is the first line of the cell below it.
   */
  lemma CellGlyphsShareEdges(pixels: seq<byte>, rowSize: nat, bytesPerPixel: nat, cellWidth: nat, cellHeight: nat,
                             cellX: nat, cellY: nat, pd: nat, cpa: nat)
    requires CellInBuffer(|pixels|, rowSize, bytesPerPixel, cellWidth, cellHeight, cellX + 1, cellY)
    requires CellInBuffer(|pixels|, rowSize, bytesPerPixel, cellWidth, cellHeight, cellX, cellY + 1)
    requires CellInBuffer(|pixels|, rowSize, bytesPerPixel, cellWidth, cellHeight, cellX, cellY)
    requires pd <= cellHeight && cpa <= cellWidth
    ensures CellGlyphs(pixels, rowSize, bytesPerPixel, cellWidth, cellHeight, cellX, cellY)[pd][cellWidth]
         == CellGlyphs(pixels, rowSize, bytesPerPixel, cellWidth, cellHeight, cellX + 1, cellY)[pd][0]
    ensures CellGlyphs(pixels, rowSize, bytesPerPixel, cellWidth, cellHeight, cellX, cellY)[cellHeight][cpa]
         == CellGlyphs(pixels, rowSize, bytesPerPixel, cellWidth, cellHeight, cellX, cellY + 1)[0][cpa]
  {
    CellGlyphsAt(pixels, rowSize, bytesPerPixel, cellWidth, cellHeight, cellX, cellY, pd, cellWidth);
    CellGlyphsAt(pixels, rowSize, bytesPerPixel, cellWidth, cellHeight, cellX + 1, cellY, pd, 0);
    assert cellX * cellWidth + cellWidth == (cellX + 1) * cellWidth + 0;
    CellGlyphsAt(pixels, rowSize, bytesPerPixel, cellWidth, cellHeight, cellX, cellY, cellHeight, cpa);
    CellGlyphsAt(pixels, rowSize, bytesPerPixel, cellWidth, cellHeight, cellX, cellY + 1, 0, cpa);
    assert cellY * cellHeight + cellHeight == (cellY + 1) * cellHeight + 0;
  }

  /**
   * `ReadCell` (bmp.c:179-227): moves a pointer to the cell's first pixel, then
   * for each of `cellHeight + 1` rows prints the shade of `cellWidth + 1`
   * pixels and steps the pointer one buffer row down.
   */
  method ReadCell(pixels: array<byte>, rowSize: nat, bytesPerPixel: nat, cellWidth: nat, cellHeight: nat,
                  cellX: byte, cellY: byte) returns (lines: seq<string>)
    requires cellWidth < ShortLimit && cellHeight < ShortLimit
    requires CellInBuffer(pixels.Length, rowSize, bytesPerPixel, cellWidth, cellHeight, cellX, cellY)
    ensures lines == CellGlyphs(pixels[..], rowSize, bytesPerPixel, cellWidth, cellHeight, cellX, cellY)
  {
    ghost var glyphs := CellGlyphs(pixels[..], rowSize, bytesPerPixel, cellWidth, cellHeight, cellX, cellY);
    var pixelPointer := cellY * rowSize * cellHeight;
    pixelPointer := pixelPointer + cellX * (cellWidth * bytesPerPixel);
    assert pixelPointer == SampleOffset(rowSize, bytesPerPixel, cellWidth, cellHeight, cellX, cellY, 0, 0);
    lines := [];
    var pd := 0;
    while pd <= cellHeight
      invariant pd <= cellHeight + 1
      invariant pixelPointer == SampleOffset(rowSize, bytesPerPixel, cellWidth, cellHeight, cellX, cellY, pd, 0)
      invariant lines == glyphs[..pd]
    {
      var line := "";
      var cpa := 0;
      while cpa <= cellWidth
        invariant cpa <= cellWidth + 1
        invariant line == glyphs[pd][..cpa]
      {
        SampleBefore(rowSize, bytesPerPixel, cellWidth, cellHeight, cellX, cellY, pd, cpa);
        var r := pixels[pixelPointer + cpa * bytesPerPixel];
        var intensity := r / IntensityStep;
        line := line + [IntenseChars[intensity]];
        cpa := cpa + 1;
      }
      assert line == glyphs[pd];
      assert glyphs[..pd + 1] == glyphs[..pd] + [glyphs[pd]];
      lines := lines + [line];
      pixelPointer := pixelPointer + rowSize;
      NextRow(pd, rowSize);
      pd := pd + 1;
    }
  }

  /** The cell `BitmapFont` computes for character `n`: column `n % cellsAcross`, but row `n / cellsDown`. */
  function FontCellAsWritten(n: nat, cellsAcross: nat, cellsDown: nat): (cell: (nat, nat))
    requires 1 <= cellsAcross && 1 <= cellsDown
    ensures cell.0 < cellsAcross
  {
    (n % cellsAcross, n / cellsDown)
  }

  /** The cell of character `n` in a font laid out row by row, `cellsAcross` characters to a row. */
  function FontCell(n: nat, cellsAcross: nat): (cell: (nat, nat))
    requires 1 <= cellsAcross
    ensures cell.0 < cellsAcross && cell.1 * cellsAcross + cell.0 == n
  {
    (n % cellsAcross, n / cellsAcross)
  }

  /**
   * `FontCell` is the row-major layout: it inverts `y * cellsAcross + x`, and
   * every character of a full grid lands inside the grid.
   */
  lemma FontCellInverse(n: nat, cellsAcross: nat, cellsDown: nat)
    requires 1 <= cellsAcross && 1 <= cellsDown
    ensures FontCell(n, cellsAcross).1 * cellsAcross + FontCell(n, cellsAcross).0 == n
    ensures FontCell(n, cellsAcross).0 < cellsAcross
    ensures n < cellsAcross * cellsDown ==> FontCell(n, cellsAcross).1 < cellsDown
  {
    var (x, y) := FontCell(n, cellsAcross);
    assert y * cellsAcross + x == n;
    if n < cellsAcross * cellsDown && cellsDown <= y {
      MulLe(cellsDown, y, cellsAcross);
      assert false;
    }
  }

  /** Each cell of the grid belongs to exactly one character under `FontCell`. */
  lemma FontCellOneToOne(m: nat, n: nat, cellsAcross: nat)
    requires 1 <= cellsAcross && FontCell(m, cellsAcross) == FontCell(n, cellsAcross)
    ensures m == n
  {
    FontCellInverse(m, cellsAcross, 1);
    FontCellInverse(n, cellsAcross, 1);
  }

  /** The two agree on a square grid of cells, and only the row can differ. */
  lemma FontCellAsWrittenSquare(n: nat, cellsAcross: nat, cellsDown: nat)
    requires 1 <= cellsAcross && 1 <= cellsDown
    ensures FontCellAsWritten(n, cellsAcross, cellsDown).0 == FontCell(n, cellsAcross).0
    ensures cellsAcross == cellsDown ==> FontCellAsWritten(n, cellsAcross, cellsDown) == FontCell(n, cellsAcross)
  {
  }

  /**
   * A font image two cells across and one down (say 64 by 32 pixels in 32 by 32
   * cells): character 1 is the cell at (1, 0), but the source computes (1, 1),
   * a row below the only row of cells.
   */
  lemma FontCellAsWrittenExample()
    ensures FontCellAsWritten(WhichChar, 2, 1) == (1, 1)
    ensures FontCell(WhichChar, 2) == (1, 0)
  {
  }

  /**
   * `BitmapFont` (bmp.c:230-261): from the image's width and height and the
   * cell size, computes the grid, the cell of character `WhichChar` as the
   * source does, and prints that cell with `ReadCell`. Also returns the
   * character whose cell it is (`startChar + whichChar`).
   */
  method BitmapFont(pixels: array<byte>, width: nat, height: nat, bytesPerPixel: nat,
                    cellWidth: nat, cellHeight: nat)
    returns (x: nat, y: nat, shown: char, lines: seq<string>)
    requires 1 <= cellWidth < ShortLimit && 1 <= cellHeight < ShortLimit
    requires cellWidth <= width && cellHeight <= height
    requires var cell := FontCellAsWritten(WhichChar, width / cellWidth, height / cellHeight);
      CellInBuffer(pixels.Length, width * bytesPerPixel, bytesPerPixel, cellWidth, cellHeight,
                   cell.0 % 256, cell.1 % 256)
    ensures (x, y) == FontCellAsWritten(WhichChar, width / cellWidth, height / cellHeight)
    ensures shown == (StartChar + WhichChar) as char
    ensures lines == CellGlyphs(pixels[..], width * bytesPerPixel, bytesPerPixel, cellWidth, cellHeight,
                                x % 256, y % 256)
  {
    var unpaddedRowSize := width * bytesPerPixel;
    MulNonNegative(width, bytesPerPixel);
    var startChar := StartChar;
    var whichChar := WhichChar;
    var cellsAcross := width / cellWidth;
    var cellsDown := height / cellHeight;
    x := whichChar % cellsAcross;
    y := whichChar / cellsDown;
    shown := (startChar + whichChar) as char;
    // ReadCell takes the cell coordinates as `byte`s.
    lines := ReadCell(pixels, unpaddedRowSize, bytesPerPixel, cellWidth, cellHeight, x % 256, y % 256);
  }
}
