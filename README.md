# bmp.c in Dafny

A verified model of `bmp.c`, a small C library for uncompressed Windows BMP
images and bitmap-font previews:

- `ReadImage` reads the header fields of a BMP file. It then copies the pixel
  rows, which are stored bottom-up and padded on disk, into an unpadded
  top-down buffer.
- `WriteImage` writes the 14-byte BITMAPFILEHEADER and the 40-byte
  BITMAPINFOHEADER, then writes the rows back bottom-up with padding.
- `ReadCell` prints one cell of a font image as ASCII art. Each sampled pixel
  becomes one of five characters, `-~=a#`, chosen by its first byte divided by 63.
- `BitmapFont` picks the cell of one character and prints it.

Files are byte sequences (`seq<byte>`), and pixel buffers are arrays. Printed
text is returned as a sequence of lines. The project has five modules:

- `LittleEndian`: the 16- and 32-bit little-endian fields.
- `Arithmetic`: facts about products of naturals.
- `BmpLayout`: the specification functions and the lemmas about them. These
  are the stride, the header, `Decode` (what the decoder yields), `Encode`
  (the corrected encoder) and `EncodeAsWritten` (what the C encoder writes).
- `BmpCodec`: the C loops of `ReadImage` and `WriteImage` as methods, proved
  against those functions.
- `GlyphCell`: `ReadCell` and `BitmapFont`.

Facts about `bmp.c` that the model records:

- **Row stride.** The code pads the pixel count to a multiple of 4 and then
  multiplies by the bytes per pixel (`4 * ceil(width / 4) * bytesPerPixel`,
  bmp.c:62 and bmp.c:114). The BMP format instead rounds the row's byte
  count up to a multiple of 4.
  - Both are multiples of 4 and hold the row.
  - They are equal exactly when the code pads by fewer than 4 bytes, for
    example whenever the width is a multiple of 4.
  - Otherwise the code's stride is larger: for a 1-pixel-wide image with 4
    bytes per pixel it is 16 bytes where the format says 4
    (`PaddedRowSizeVsStandard`, `PaddedRowSizeExample`).
  - So the decoder reads files written by other programs from the wrong
    offsets unless the strides agree. Its own files round-trip either way.
- **Intensity divisor.** The code divides by 63 (bmp.c:210), so only the
  bytes 252..255 print as `#`.
- **Cell size.** Both loops of `ReadCell` run up to and including the bound
  (bmp.c:197, bmp.c:201), so a cell prints `(cellWidth + 1)` by
  `(cellHeight + 1)` samples. The extra column and row belong to the
  neighbouring cells (`CellGlyphsShareEdges`).
- **Padding.** The BMP format pads rows with zero bytes; the code copies
  whatever follows each buffer row (bmp.c:171-172). Both encoders are
  modelled; see Findings.

## Model

| member | source | states |
|---|---|---|
| LittleEndian.Le32 | bmp.c:34-44 | a 32-bit field read with `fread` is below 2^32 |
| LittleEndian.Le16 | bmp.c:50-52 | a 16-bit field read with `fread` is below 2^16 |
| LittleEndian.Le32Bytes | bmp.c:115-116 | the 4 bytes `fwrite` emits for a 32-bit field read back as that value |
| LittleEndian.Le16Bytes | bmp.c:136-141 | the 2 bytes `fwrite` emits for a 16-bit field read back as that value |
| LittleEndian.Le32BytesOfLe32 | bmp.c:34-36 | the other direction: the 4 bytes of any field are the encoding of the value read from them |
| LittleEndian.Le16BytesOfLe16 | bmp.c:50-52 | the other direction for 16-bit fields: the 2 bytes of any field are the encoding of the value read from them |
| BmpLayout.PaddedRowSize | bmp.c:62 | the padded row size is at least the unpadded row size `width * bytesPerPixel` |
| BmpLayout.PaddedRowSizeBounds | bmp.c:59-66 | the padded row size is a multiple of 4; the padding is at most 3 pixels; there is no padding exactly when the width is a multiple of 4 |
| BmpLayout.StandardRowSizeIsLeast | bmp.c:60 | the BMP format's row size is the least multiple of 4 that holds the row |
| BmpLayout.PaddedRowSizeVsStandard | bmp.c:114 | the code's row size is never below the format's and equals it exactly when it pads by fewer than 4 bytes |
| BmpLayout.PaddedRowSizeExample | bmp.c:62 | at width 1 with 3 or 4 bytes per pixel the code's row size is 12 or 16 bytes where the format's is 4 |
| BmpLayout.FlattenLength | bmp.c:66-71 | `height` rows of `unpaddedRowSize` bytes make a buffer of `unpaddedRowSize * height` bytes |
| BmpLayout.FlattenRow | bmp.c:78-79 | row `r` of the buffer is the `r`-th block of `unpaddedRowSize` bytes |
| BmpLayout.ReadHeader | bmp.c:33-52 | the data offset, width and height are below 2^32 and bits per pixel below 2^16, read from offsets 10, 18, 22 and 28 |
| BmpLayout.DiskRow | bmp.c:83-86 | the bytes `fread` takes for disk row `i` after seeking to `dataOffset + i * paddedRowSize` are exactly `unpaddedRowSize` bytes; the padding after them is not read |
| BmpLayout.DecodedRows | bmp.c:79-90 | the decoded buffer has `height` rows of `unpaddedRowSize` bytes, disk row `i` landing in buffer row `height - 1 - i` (bottom-up on disk, top-down in memory) |
| BmpLayout.DecodedRowAt | bmp.c:83-86 | decoded row `height - 1 - i` is the `unpaddedRowSize` bytes at `dataOffset + i * paddedRowSize`, which lie inside the file |
| BmpLayout.Decode | bmp.c:28-93 | the decoded width and height are the 32-bit fields at 18 and 22; bytes per pixel is the 16-bit field at 28 divided by 8; the buffer holds exactly `width * bytesPerPixel * height` bytes |
| BmpLayout.DecodePlacesRows | bmp.c:79-90 | a buffer is the decoded one if and only if, for every disk row `i`, buffer row `height - 1 - i` holds the file bytes `[dataOffset + i * padded, dataOffset + i * padded + unpadded)` |
| BmpLayout.DecodeIgnoresPadding | bmp.c:85-86 | changing any file byte from offset 30 on that is not a pixel byte of a row, such as a padding byte, leaves the decoded image unchanged |
| BmpLayout.GeometryBounds | bmp.c:148 | the unpadded image size `width * height * bytesPerPixel` is at most the padded pixel data, so it fits in 32 bits |
| BmpLayout.BitmapFileHeader | bmp.c:107-124 | the file header is 14 bytes |
| BmpLayout.BitmapInfoHeader | bmp.c:126-163 | the info header is 40 bytes |
| BmpLayout.FileHeader | bmp.c:107-163 | the encoder's header is 54 bytes |
| BmpLayout.PaddedRows | bmp.c:166-173 | the corrected disk rows: `height` rows of exactly `paddedRowSize` bytes, disk row `i` being buffer row `height - 1 - i` followed by zeros |
| BmpLayout.CopiedRow | bmp.c:170-172 | the bytes `fwrite(&pixels[pixelOffset], 1, paddedRowSize)` takes for disk row `i` are exactly `paddedRowSize` bytes of memory from buffer row `height - 1 - i` on |
| BmpLayout.CopiedRows | bmp.c:166-173 | the C encoder writes `height` disk rows of exactly `paddedRowSize` bytes each |
| BmpLayout.BitmapFileHeaderFields | bmp.c:107-124 | the file header is "BM", then the file size, reserved 0 and data offset 54 |
| BmpLayout.BitmapInfoHeaderFields | bmp.c:126-163 | the info header holds size 40, width, height, planes 1, `bytesPerPixel * 8`, compression 0, the unpadded image size, resolutions 11811 and 11811, and colors 0 and 0, at their offsets |
| BmpLayout.FileHeaderFields | bmp.c:109-124 | in the 54-byte header: "BM" at 0, `padded * height + 54` at 2, 0 at 6, 54 at 10 |
| BmpLayout.InfoHeaderFields | bmp.c:128-163 | in the 54-byte header: each info header field at 14 + its offset, so width at 18, height at 22 and bits per pixel at 28, where the decoder reads them |
| BmpLayout.Encode | bmp.c:113-115 | the corrected encoder's output is `padded * height + 54` bytes |
| BmpLayout.EncodeAsWritten | bmp.c:113-115 | the C encoder's output is `padded * height + 54` bytes |
| BmpLayout.HeaderThenRows | bmp.c:166-173 | after the 54-byte header, the rows written one after another are the file's disk rows, disk row `i` at `54 + i * padded` |
| BmpLayout.EncodePlacesRows | bmp.c:166-173 | the corrected encoder writes buffer row `height - 1 - i` followed by zero bytes as disk row `i` |
| BmpLayout.EncodeAsWrittenPlacesRows | bmp.c:168-173 | the C encoder writes as disk row `i` the `padded` bytes of memory that start at buffer row `height - 1 - i` |
| BmpLayout.CopiedRowStartsWithRow | bmp.c:170-172 | those bytes begin with buffer row `height - 1 - i`; only the padding comes from elsewhere |
| BmpLayout.ReadHeaderOfEncoded | bmp.c:123-141 | the decoder reads back from the encoder's header the data offset 54, the width, the height and `bytesPerPixel * 8` |
| BmpLayout.DecodeOfEncoded | bmp.c:166-173 | any file made of the encoder's header and disk rows that begin with the buffer rows, bottom row first, decodes to the image, whatever the padding holds |
| BmpLayout.DecodeEncode | bmp.c:102-175 | decoding what the corrected encoder writes gives back the image: width, height, bytes per pixel and every pixel byte |
| BmpLayout.DecodeEncodeAsWritten | bmp.c:102-175 | decoding what the C encoder writes gives back the image too |
| BmpLayout.EncodedSizeFields | bmp.c:113-149 | the file size field of both encoders' output equals its length; the image size field equals the buffer's length |
| BmpLayout.AsWrittenPaddingExample | bmp.c:171-172 | for a 3x2 image, the C encoder pads the bottom disk row with the byte past the buffer and the top disk row with the next row's first pixel |
| BmpLayout.ZeroPaddingExample | bmp.c:166-173 | the corrected encoder pads the same rows with 0 |
| BmpCodec.ReadImage | bmp.c:28-93 | the method's width, height, bytes per pixel and filled buffer are exactly `Decode(file)` |
| BmpCodec.RowToRead | bmp.c:79-89 | in iteration `i`, `currentRowPointer` is at buffer row `height - 1 - i`, and disk row `i` at `dataOffset + i * paddedRowSize` lies inside the file and is that decoded row |
| BmpCodec.ReadInto | bmp.c:86 | `fread` of `unpaddedRowSize` bytes writes exactly those file bytes at the row pointer and changes nothing else in the buffer |
| BmpCodec.WriteHeader | bmp.c:107-163 | the header bytes written field after field are `FileHeader` |
| BmpCodec.CopyOut | bmp.c:171-172 | `fwrite` from `&pixels[pixelOffset]` emits the `paddedRowSize` bytes of memory from that offset on |
| BmpCodec.WriteImage | bmp.c:102-175 | the output is `EncodeAsWritten` of the image, and it decodes back to the image |
| BmpCodec.WriteImageZeroPadded | bmp.c:102-175 | with zero padding the output is `Encode` of the image, and it decodes back to the image |
| BmpCodec.CopiedRowAt | bmp.c:170-172 | `pixelOffset = (height - i - 1) * unpaddedRowSize` lies inside the buffer, and the bytes from it are disk row `i` |
| BmpCodec.PaddedRowAt | bmp.c:170-172 | the same offset gives buffer row `height - 1 - i`, which padded with zeros is the corrected disk row `i` |
| GlyphCell.Intensity | bmp.c:210 | `r / 63` is the level whose band of 63 byte values holds `r`, and it is below 5, so it always indexes `intenseChars` |
| GlyphCell.IntensityMonotone | bmp.c:210 | a brighter byte never gets a lower level |
| GlyphCell.Shade | bmp.c:211 | the character printed for a pixel is always one of `intenseChars`, `-~=a#` |
| GlyphCell.ShadeBands | bmp.c:177 | which byte values print as each of `-`, `~`, `=`, `a` and `#`, in both directions |
| GlyphCell.PixelOffsetInRow | bmp.c:233 | in the unpadded buffer with rows of `width * bytesPerPixel` bytes, pixel (column, row) starts at byte `column * bytesPerPixel` of buffer row `row` |
| GlyphCell.SampleOffset | bmp.c:188-207 | the offset of sample (`cpa`, `pd`): the cell's start plus `pd` rows plus `cpa` pixels, so at least `pd * rowSize + cpa * bytesPerPixel` |
| GlyphCell.SampleOffsetIsPixel | bmp.c:188-207 | the pointer arithmetic of sample (`cpa`, `pd`) reaches pixel (`cellX * cellWidth + cpa`, `cellY * cellHeight + pd`) |
| GlyphCell.SampleBefore | bmp.c:197-224 | every sample lies at or before the last one, so one bound on the last sample keeps all reads inside the buffer |
| GlyphCell.CellGlyphs | bmp.c:197-224 | the printed cell has `cellHeight + 1` lines of `cellWidth + 1` characters |
| GlyphCell.CellGlyphsAt | bmp.c:207-211 | character `cpa` of line `pd` is the shade of pixel (`cellX * cellWidth + cpa`, `cellY * cellHeight + pd`) |
| GlyphCell.CellGlyphsShareEdges | bmp.c:197-201 | the last column and line printed for a cell are the first column of the cell to its right and the first line of the cell below |
| GlyphCell.ReadCell | bmp.c:179-227 | the lines the nested loops produce are exactly `CellGlyphs` |
| GlyphCell.FontCellAsWritten | bmp.c:252-253 | the column is below `cellsAcross` |
| GlyphCell.FontCell | bmp.c:252-253 | the corrected row-major cell `(n % cellsAcross, n / cellsAcross)`: its column is below `cellsAcross` and `y * cellsAcross + x == n` |
| GlyphCell.FontCellInverse | bmp.c:238-253 | the row-major cell of character `n` satisfies `y * cellsAcross + x == n` with `x < cellsAcross`, and lies inside a grid that holds `n` |
| GlyphCell.FontCellOneToOne | bmp.c:238-253 | no two characters share a row-major cell |
| GlyphCell.FontCellAsWrittenSquare | bmp.c:252-253 | the code's cell has the right column, and it is the row-major cell whenever the grid is as many cells across as down |
| GlyphCell.FontCellAsWrittenExample | bmp.c:253 | for a grid of 2 by 1 cells, the code gives character 1 the cell (1, 1) where the row-major cell is (1, 0) |
| GlyphCell.BitmapFont | bmp.c:230-261 | the cell is computed from `cellsAcross = width / cellWidth` and `cellsDown = height / cellHeight` as the code does; the character is `startChar + whichChar`; the lines are that cell's `CellGlyphs` with the coordinates passed as bytes |

## Left out

- File I/O (`fopen`, `fseek`, `fread`, `fwrite`, `fclose`): the decoder takes
  the file as a byte sequence and the encoders return one.
- Diagnostic `printf`s (bmp.c:46-47, bmp.c:57, bmp.c:255) are not modelled.
  `ReadCell`'s printed characters are returned as lines, each printed
  followed by a newline.
- `malloc` and `main` are not modelled. `ReadImage` returns a fresh array.
- The float `ceil` of the stride is modelled by exact integer rounding. The
  decoder and the encoder require a width of at most 2^24, where the `float`
  conversion is exact.
- The fields are read and written in little-endian order. The source gets
  this from `fread`/`fwrite` of host integers on a little-endian machine.
- ReadImage: requires `Decodable`. This excludes files too short for a field
  or a row (a short `fread`), bits per pixel of 2^15 or more (a negative
  `short`), widths above 2^24, sizes of 2^31 or more (C `int` overflow) and
  files longer than 2^32 bytes, so that no row offset reaches 2^32.
- WriteImage: requires `Geometry`, which excludes sizes whose C `int` or
  `short` arithmetic would overflow.
- WriteImage: the bytes it copies from past the end of the buffer are an
  explicit `beyond` parameter. In C this read is undefined behaviour and the
  bytes are unknown.
- ReadImage: the model does not state that each buffer byte is written
  exactly once. `ReadInto` states that each iteration writes only its own row,
  and the loop invariant states that the rows written so far fill the buffer's
  tail.
- ReadCell: negative cell sizes (an `int16`) are excluded. The source's
  unsigned 32-bit offset arithmetic is modelled with unbounded integers. The
  last sample must lie inside the buffer; otherwise the source reads past it.
- BitmapFont: requires a cell size of at least 1 and no larger than the
  image. The source divides by the cell size and by the cell counts, so zero
  is undefined behaviour. Negative sizes are excluded as in `ReadCell`.
- BitmapFont: also requires `CellInBuffer` of the cell as the code computes
  it, because the `<=` loops of `ReadCell` read one row and one column past
  the cell. This excludes every call on a sheet exactly one cell tall: there
  the last sampled row lies past the buffer even for the row-major cell
  (1, 0), and so does the code's cell (1, 1) of the 64x32 sheet in Findings.
  On such inputs the source reads past the buffer.
- BitmapFont: `whichChar` is the constant 1, as in the source. The unused
  `maxCells` and the commented-out loop are not modelled.

## Findings

| source | as written | input that shows it | evidently intended | confidence | as-written member | corrected member |
|---|---|---|---|---|---|---|
| bmp.c:171-172 | writes `paddedRowSize` bytes straight from the unpadded buffer, so the padding is the next row's first pixels, or bytes past the end of the buffer for the last buffer row | a 3x2 image with 1 byte per pixel: the disk rows are `4 5 6 ?` and `1 2 3 4`, where `?` lies past the buffer | each row's pixel bytes followed by zero bytes up to the padded size | high; not executed | BmpLayout.AsWrittenPaddingExample | BmpCodec.WriteImageZeroPadded |
| bmp.c:253 | `y = whichChar / cellsDown` | a 64x32 font image with 32x32 cells (2 across, 1 down): character 1 gets cell (1, 1), below the only row of cells, instead of (1, 0) | `y = whichChar / cellsAcross`, the row-major layout the column `whichChar % cellsAcross` implies | medium; not executed | GlyphCell.FontCellAsWrittenExample | GlyphCell.FontCell (with GlyphCell.FontCellInverse) |
