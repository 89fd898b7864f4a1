/**
 * The on-disk layout of an uncompressed BMP file as bmp.c reads and writes it:
 * the 14-byte BITMAPFILEHEADER, the 40-byte BITMAPINFOHEADER (all fields
 * little-endian), then the pixel rows stored bottom-up, each followed by padding.
 * The in-memory image is the unpadded buffer with its rows top-down.
 *
 * This module holds the specification functions: the stride, the header, what
 * decoding a file yields (`Decode`) and what the two encoders emit (`Encode`,
 * `EncodeAsWritten`), with the lemmas relating them.
 */
module BmpLayout {
  import opened LittleEndian
  import opened Arithmetic

  // Header field offsets and sizes (bmp.c:5-13).
  const DataOffsetOffset: nat := 0x000A
  const WidthOffset: nat := 0x0012
  const HeightOffset: nat := 0x0016
  const BitsPerPixelOffset: nat := 0x001C
  const HeaderSize: nat := 14
  const InfoHeaderSize: nat := 40
  const NoCompression: nat := 0
  const MaxNumberOfColors: nat := 0
  const AllColorsRequired: nat := 0

  // Constant fields the encoder writes (bmp.c:109, 119, 136, 152-153).
  const Signature: seq<byte> := [0x42, 0x4D]  // "BM"
  const Reserved: nat := 0
  const Planes: nat := 1
  const ResolutionPerMeter: nat := 11811  // 300 dpi

  /** Offset of the pixel data in every file the encoder writes. */
  const DataStart: nat := HeaderSize + InfoHeaderSize

  /** The decoder's header reads end with the 16-bit bits-per-pixel field. */
  const HeaderFieldsEnd: nat := BitsPerPixelOffset + 2

  /** Up to 2^24 a width converts to `float` exactly, so the source's `ceil` is exact. */
  const MaxExactWidth: nat := 0x100_0000
  /** Sizes and offsets the source keeps in a C `int` stay below 2^31. */
  const IntLimit: nat := 0x8000_0000
  /** A `short` (the source's `int16`) that is not negative is below 2^15. */
  const ShortLimit: nat := 0x8000


  /**
   * A decoded image: `height` rows of `width` pixels, `bytesPerPixel` bytes each,
   * stored top row first with no padding (the source's `pixels` buffer).
   */
  datatype Image = Image(width: nat, height: nat, bytesPerPixel: nat, pixels: seq<byte>)
  {
    /** Bytes of one buffer row (the source's `unpaddedRowSize`). */
    function RowSize(): nat { width * bytesPerPixel }

    /** Bytes of one row on disk (the source's `paddedRowSize`). */
    function Padded(): nat { PaddedRowSize(width, bytesPerPixel) }
  }

  /** The four header fields the decoder reads. */
  datatype Header = Header(dataOffset: nat, width: nat, height: nat, bitsPerPixel: nat)
  {
    /** Whole bytes per pixel; the division truncates. */
    function BytesPerPixel(): nat { bitsPerPixel / 8 }

    /** Bytes of one buffer row. */
    function RowSize(): nat { width * BytesPerPixel() }

    /** Bytes of one row on disk. */
    function Padded(): nat { PaddedRowSize(width, BytesPerPixel()) }
  }

  // ---------------------------------------------------------------------------
  // Row stride
  // ---------------------------------------------------------------------------

  /**
   * The padded row size as the source computes it: the pixel count is rounded up
   * to a multiple of 4, then multiplied by the bytes per pixel. It always holds
   * the whole row.
   */
  function PaddedRowSize(width: nat, bytesPerPixel: nat): (p: nat)
    ensures width * bytesPerPixel <= p
  {
    MulLe(width, ((width + 3) / 4) * 4, bytesPerPixel);
    ((width + 3) / 4) * 4 * bytesPerPixel
  }

  /** The row size of the BMP format: the byte count of a row rounded up to a multiple of 4. */
  function StandardRowSize(width: nat, bytesPerPixel: nat): nat
  {
    ((width * bytesPerPixel + 3) / 4) * 4
  }

  /**
   * Each padded row is a multiple of 4 bytes and adds at most three pixels' worth
   * of padding; it adds none exactly when the width is a multiple of 4.
   */
  lemma PaddedRowSizeBounds(width: nat, bytesPerPixel: nat)
    ensures PaddedRowSize(width, bytesPerPixel) % 4 == 0
    ensures PaddedRowSize(width, bytesPerPixel) - width * bytesPerPixel <= 3 * bytesPerPixel
    ensures 1 <= bytesPerPixel ==>
      (PaddedRowSize(width, bytesPerPixel) == width * bytesPerPixel <==> width % 4 == 0)
  {
    var c := (width + 3) / 4;
    var p := PaddedRowSize(width, bytesPerPixel);
    assert width <= 4 * c <= width + 3;
    assert p == 4 * (c * bytesPerPixel);
    assert p - width * bytesPerPixel == (4 * c - width) * bytesPerPixel;
    MulLe(4 * c - width, 3, bytesPerPixel);
    if 1 <= bytesPerPixel && width % 4 != 0 {
      assert 1 <= 4 * c - width;
      MulLe(1, 4 * c - width, bytesPerPixel);
    }
  }

  /** The BMP row size is the least multiple of 4 that holds the row. */
  lemma StandardRowSizeIsLeast(width: nat, bytesPerPixel: nat, m: nat)
    ensures StandardRowSize(width, bytesPerPixel) % 4 == 0
    ensures width * bytesPerPixel <= StandardRowSize(width, bytesPerPixel) < width * bytesPerPixel + 4
    ensures m % 4 == 0 && width * bytesPerPixel <= m ==> StandardRowSize(width, bytesPerPixel) <= m
  {
  }

  /**
   * The source's row size equals the BMP row size exactly when it pads by fewer
   * than 4 bytes; it is never smaller.
   */
  lemma PaddedRowSizeVsStandard(width: nat, bytesPerPixel: nat)
    ensures StandardRowSize(width, bytesPerPixel) <= PaddedRowSize(width, bytesPerPixel)
    ensures PaddedRowSize(width, bytesPerPixel) == StandardRowSize(width, bytesPerPixel)
        <==> PaddedRowSize(width, bytesPerPixel) - width * bytesPerPixel < 4
  {
    PaddedRowSizeBounds(width, bytesPerPixel);
    StandardRowSizeIsLeast(width, bytesPerPixel, PaddedRowSize(width, bytesPerPixel));
  }

  /**
   * One pixel wide, 3 and 4 bytes per pixel: the source spaces the rows 12 and 16
   * bytes apart, the BMP format 4 bytes apart, so a BMP file written by another
   * program has its rows read from the wrong offsets.
   */
  lemma PaddedRowSizeExample()
    ensures PaddedRowSize(1, 3) == 12 && StandardRowSize(1, 3) == 4
    ensures PaddedRowSize(1, 4) == 16 && StandardRowSize(1, 4) == 4
  {
  }

  // ---------------------------------------------------------------------------
  // Buffers as rows laid end to end
  // ---------------------------------------------------------------------------

  /** The rows laid end to end, first row first. */
  function Flatten(rows: seq<seq<byte>>): seq<byte>
    decreases |rows|
  {
    if rows == [] then [] else Flatten(rows[..|rows| - 1]) + rows[|rows| - 1]
  }

  /** Every row is `n` bytes long. */
  ghost predicate RowsOfSize(rows: seq<seq<byte>>, n: nat)
  {
    forall r :: 0 <= r < |rows| ==> |rows[r]| == n
  }

  /** Row `r` of `pixels`, a buffer of `height` rows of `rowSize` bytes each. */
  function BufferRow(pixels: seq<byte>, rowSize: nat, height: nat, r: nat): (row: seq<byte>)
    requires r < height && |pixels| == rowSize * height
    ensures |row| == rowSize
  {
    RowEnd(r, height, rowSize);
    pixels[r * rowSize .. r * rowSize + rowSize]
  }

  /** Laying `m` rows of `n` bytes end to end gives `m * n` bytes. */
  lemma {:induction false} FlattenLength(rows: seq<seq<byte>>, n: nat)
    requires RowsOfSize(rows, n)
    ensures |Flatten(rows)| == |rows| * n
    decreases |rows|
  {
    if rows != [] {
      var m := |rows| - 1;
      FlattenLength(rows[..m], n);
      NextRow(m, n);
    }
  }

  /** Row `r` of the rows laid end to end is the `r`-th block of `n` bytes. */
  lemma {:induction false} FlattenRow(rows: seq<seq<byte>>, n: nat, r: nat)
    requires RowsOfSize(rows, n) && r < |rows|
    ensures |Flatten(rows)| == n * |rows|
    ensures BufferRow(Flatten(rows), n, |rows|, r) == rows[r]
    decreases |rows|
  {
    var m := |rows| - 1;
    var init := rows[..m];
    var front := Flatten(init);
    var flat := Flatten(rows);
    assert |front| == m * n by { FlattenLength(init, n); }
    assert flat == front + rows[m];
    assert |flat| == n * |rows| by { NextRow(m, n); }
    var at := r * n;
    assert BufferRow(flat, n, |rows|, r) == flat[at .. at + n];
    if r < m {
      assert at + n <= |front| && front[at .. at + n] == rows[r] by {
        FlattenRow(init, n, r);
        RowEnd(r, m, n);
      }
      assert flat[at .. at + n] == front[at .. at + n];
    } else {
      assert flat[at .. at + n] == rows[m];
    }
  }

  /** Putting a row in front puts its bytes in front. */
  lemma {:induction false} FlattenCons(row: seq<byte>, rows: seq<seq<byte>>)
    ensures Flatten([row] + rows) == row + Flatten(rows)
    decreases |rows|
  {
    if rows == [] {
      assert ([row] + rows)[..0] == [];
    } else {
      var m := |rows| - 1;
      assert ([row] + rows)[..|rows|] == [row] + rows[..m];
      FlattenCons(row, rows[..m]);
    }
  }

  /** A buffer of the right size whose every row is the corresponding row is those rows laid end to end. */
  lemma {:induction false} FlattenUnique(s: seq<byte>, rows: seq<seq<byte>>, n: nat)
    requires RowsOfSize(rows, n) && |s| == n * |rows|
    requires forall r :: 0 <= r < |rows| ==> BufferRow(s, n, |rows|, r) == rows[r]
    ensures s == Flatten(rows)
    decreases |rows|
  {
    if rows != [] {
      var m := |rows| - 1;
      var init := rows[..m];
      var cut := m * n;
      assert cut + n == |s| by { NextRow(m, n); }
      var front := s[..cut];
      forall r | 0 <= r < m
        ensures BufferRow(front, n, m, r) == init[r]
      {
        var at := r * n;
        assert at + n <= cut by { RowEnd(r, m, n); }
        assert BufferRow(s, n, |rows|, r) == rows[r];
        assert front[at .. at + n] == s[at .. at + n];
      }
      FlattenUnique(front, init, n);
      assert BufferRow(s, n, |rows|, m) == rows[m];
      assert s == front + s[cut .. cut + n];
    }
  }

  // ---------------------------------------------------------------------------
  // Decoding
  // ---------------------------------------------------------------------------

  /** The four header fields at their fixed offsets. */
  function ReadHeader(file: seq<byte>): (hd: Header)
    requires HeaderFieldsEnd <= |file|
    ensures hd.dataOffset < TwoTo32 && hd.width < TwoTo32 && hd.height < TwoTo32
    ensures hd.bitsPerPixel < TwoTo16
  {
    Header(Le32(file, DataOffsetOffset), Le32(file, WidthOffset),
           Le32(file, HeightOffset), Le16(file, BitsPerPixelOffset))
  }

  /**
   * Every disk row lies inside a file of `fileLength` bytes: the last one, which
   * starts furthest in, ends by the end of the file.
   */
  predicate RowsInFile(fileLength: nat, hd: Header)
  {
    hd.height == 0 || hd.dataOffset + (hd.height - 1) * hd.Padded() + hd.RowSize() <= fileLength
  }

  /**
   * What `ReadImage` takes for granted, since it checks nothing: the header
   * fields and every row it reads lie inside the file, bits per pixel is a
   * non-negative `short`, and the sizes and offsets fit the C types the source
   * computes them in (the 32-bit row offsets among them, hence at most 2^32 bytes).
   */
  predicate Decodable(file: seq<byte>)
  {
    HeaderFieldsEnd <= |file| <= TwoTo32 &&
    var hd := ReadHeader(file);
    hd.width <= MaxExactWidth && hd.bitsPerPixel < ShortLimit &&
    hd.Padded() * hd.height < IntLimit && RowsInFile(|file|, hd)
  }

  /** Where disk row `i` starts: `Padded()` bytes further in per row. */
  function RowStart(hd: Header, i: nat): nat
  {
    hd.dataOffset + i * hd.Padded()
  }

  /** The `RowSize()` bytes of disk row `i`; the padding after them is not part of it. */
  function DiskRow(file: seq<byte>, hd: Header, i: nat): (row: seq<byte>)
    requires RowsInFile(|file|, hd) && i < hd.height
    ensures |row| == hd.RowSize()
  {
    MulLe(i, hd.height - 1, hd.Padded());
    file[RowStart(hd, i) .. RowStart(hd, i) + hd.RowSize()]
  }

  /** The rows of the decoded buffer, top first: disk row `height - 1 - r` becomes row `r`. */
  function DecodedRows(file: seq<byte>, hd: Header): (rows: seq<seq<byte>>)
    requires RowsInFile(|file|, hd)
    ensures |rows| == hd.height && RowsOfSize(rows, hd.RowSize())
  {
    seq(hd.height, r requires 0 <= r < hd.height => DiskRow(file, hd, hd.height - 1 - r))
  }

  /** Row `height - 1 - i` of the decoded rows is read from `RowSize()` bytes at `RowStart(hd, i)`, inside the file. */
  lemma DecodedRowAt(file: seq<byte>, hd: Header, i: nat)
    requires RowsInFile(|file|, hd) && i < hd.height
    ensures RowStart(hd, i) + hd.RowSize() <= |file|
    ensures DecodedRows(file, hd)[hd.height - 1 - i] == file[RowStart(hd, i) .. RowStart(hd, i) + hd.RowSize()]
  {
    MulLe(i, hd.height - 1, hd.Padded());
    assert DecodedRows(file, hd)[hd.height - 1 - i] == DiskRow(file, hd, i);
  }

  /** Buffer row `height - 1 - i` holds the bytes of disk row `i`, for every disk row. */
  ghost predicate RowsPlaced(file: seq<byte>, hd: Header, pixels: seq<byte>)
    requires RowsInFile(|file|, hd)
  {
    |pixels| == hd.RowSize() * hd.height &&
    forall i :: 0 <= i < hd.height ==>
      DiskRow(file, hd, i) == BufferRow(pixels, hd.RowSize(), hd.height, hd.height - 1 - i)
  }

  /** The image `ReadImage` yields: header fields at their offsets, rows reordered top-down. */
  function Decode(file: seq<byte>): (img: Image)
    requires Decodable(file)
    ensures img.width == Le32(file, WidthOffset) && img.height == Le32(file, HeightOffset)
    ensures img.bytesPerPixel == Le16(file, BitsPerPixelOffset) / 8
    ensures |img.pixels| == img.width * img.bytesPerPixel * img.height
  {
    var hd := ReadHeader(file);
    var rows := DecodedRows(file, hd);
    FlattenLength(rows, hd.RowSize());
    Image(hd.width, hd.height, hd.BytesPerPixel(), Flatten(rows))
  }

  /**
   * Decoding places file bytes `[dataOffset + i * padded, dataOffset + i * padded + rowSize)`
   * in buffer row `height - 1 - i`, for every disk row `i`; and those placements
   * determine the buffer: it is the only buffer of its size that has them.
   */
  lemma DecodePlacesRows(file: seq<byte>, pixels: seq<byte>)
    requires Decodable(file)
    ensures pixels == Decode(file).pixels <==> RowsPlaced(file, ReadHeader(file), pixels)
  {
    var hd := ReadHeader(file);
    var n := hd.RowSize();
    var rows := DecodedRows(file, hd);
    var decoded := Decode(file).pixels;
    assert decoded == Flatten(rows);
    forall i | 0 <= i < hd.height
      ensures DiskRow(file, hd, i) == BufferRow(decoded, n, hd.height, hd.height - 1 - i)
    {
      FlattenRow(rows, n, hd.height - 1 - i);
    }
    assert RowsPlaced(file, hd, decoded);
    if RowsPlaced(file, hd, pixels) {
      forall r | 0 <= r < hd.height
        ensures BufferRow(pixels, n, hd.height, r) == rows[r]
      {
        assert DiskRow(file, hd, hd.height - 1 - r)
            == BufferRow(pixels, n, hd.height, hd.height - 1 - (hd.height - 1 - r));
      }
      FlattenUnique(pixels, rows, n);
    }
  }

  /**
   * Only the header fields and the row bytes reach the image: changing any byte
   * outside them, such as a padding byte, leaves the decoded image unchanged.
   */
  lemma DecodeIgnoresPadding(file: seq<byte>, k: nat, v: byte)
    requires Decodable(file) && HeaderFieldsEnd <= k < |file|
    requires forall i :: 0 <= i < ReadHeader(file).height ==>
      k < RowStart(ReadHeader(file), i) || RowStart(ReadHeader(file), i) + ReadHeader(file).RowSize() <= k
    ensures Decodable(file[k := v]) && Decode(file[k := v]) == Decode(file)
  {
    var other := file[k := v];
    var hd := ReadHeader(file);
    assert ReadHeader(other) == hd by {
      assert forall j :: 0 <= j < HeaderFieldsEnd ==> other[j] == file[j];
    }
    forall i | 0 <= i < hd.height
      ensures DiskRow(other, hd, i) == DiskRow(file, hd, i)
    {
      var start := RowStart(hd, i);
      var end := start + hd.RowSize();
      assert k < start || end <= k;
      assert end <= |file| by { MulLe(i, hd.height - 1, hd.Padded()); }
      assert forall j :: start <= j < end ==> other[j] == file[j];
      assert other[start .. end] == file[start .. end];
    }
    assert DecodedRows(other, hd) == DecodedRows(file, hd);
  }

  // ---------------------------------------------------------------------------
  // Encoding
  // ---------------------------------------------------------------------------

  /**
   * What `WriteImage` takes for granted: dimensions that fit its unsigned 32-bit
   * parameters, a width whose `float` conversion is exact, a bit count that
   * fits the `short` it is written from, and a padded row and file size that
   * fit the C `int` they are computed in.
   */
  predicate Geometry(width: nat, height: nat, bytesPerPixel: nat)
  {
    width <= MaxExactWidth && height < TwoTo32 && bytesPerPixel * 8 < ShortLimit &&
    PaddedRowSize(width, bytesPerPixel) < IntLimit &&
    PaddedRowSize(width, bytesPerPixel) * height + DataStart < IntLimit
  }

  /** An image the encoder accepts: supported geometry and a buffer of exactly the image's size. */
  predicate Encodable(img: Image)
  {
    Geometry(img.width, img.height, img.bytesPerPixel) &&
    |img.pixels| == img.RowSize() * img.height
  }

  /** The image size the header stores is no larger than the padded pixel data, so it fits like the file size. */
  lemma GeometryBounds(width: nat, height: nat, bytesPerPixel: nat)
    requires Geometry(width, height, bytesPerPixel)
    ensures 0 <= width * height * bytesPerPixel <= PaddedRowSize(width, bytesPerPixel) * height
  {
    var padded := PaddedRowSize(width, bytesPerPixel);
    var rowSize := width * bytesPerPixel;
    MulLe(rowSize, padded, height);
    MulSwap(width, height, bytesPerPixel);
  }

  /** BITMAPFILEHEADER: signature, file size, reserved word, offset of the pixel data. */
  function BitmapFileHeader(fileSize: nat): (hdr: seq<byte>)
    requires fileSize < TwoTo32
    ensures |hdr| == HeaderSize
  {
    Signature + Le32Bytes(fileSize) + Le32Bytes(Reserved) + Le32Bytes(DataStart)
  }

  /**
   * BITMAPINFOHEADER: its own size, width, height, planes, bits per pixel,
   * compression, image size (unpadded), two resolutions, colors used and
   * important colors.
   */
  function BitmapInfoHeader(width: nat, height: nat, bytesPerPixel: nat): (hdr: seq<byte>)
    requires width < TwoTo32 && height < TwoTo32 && bytesPerPixel * 8 < TwoTo16
    requires width * height * bytesPerPixel < TwoTo32
    ensures |hdr| == InfoHeaderSize
  {
    Le32Bytes(InfoHeaderSize) + Le32Bytes(width) + Le32Bytes(height) +
    Le16Bytes(Planes) + Le16Bytes(bytesPerPixel * 8) + Le32Bytes(NoCompression) +
    Le32Bytes(width * height * bytesPerPixel) +
    Le32Bytes(ResolutionPerMeter) + Le32Bytes(ResolutionPerMeter) +
    Le32Bytes(MaxNumberOfColors) + Le32Bytes(AllColorsRequired)
  }

  /** The 54 header bytes the encoder writes for an image of this geometry. */
  function FileHeader(width: nat, height: nat, bytesPerPixel: nat): (hdr: seq<byte>)
    requires Geometry(width, height, bytesPerPixel)
    ensures |hdr| == DataStart
  {
    GeometryBounds(width, height, bytesPerPixel);
    BitmapFileHeader(PaddedRowSize(width, bytesPerPixel) * height + HeaderSize + InfoHeaderSize) +
    BitmapInfoHeader(width, height, bytesPerPixel)
  }

  /** Every BITMAPFILEHEADER field, at its offset. */
  lemma BitmapFileHeaderFields(fileSize: nat)
    requires fileSize < TwoTo32
    ensures var fh := BitmapFileHeader(fileSize);
      fh[..2] == Signature && Le32(fh, 2) == fileSize &&
      Le32(fh, 6) == Reserved && Le32(fh, DataOffsetOffset) == DataStart
  {
    var fh := BitmapFileHeader(fileSize);
    assert Le32(fh, 2) == Le32(Le32Bytes(fileSize), 0);
    assert Le32(fh, 6) == Le32(Le32Bytes(Reserved), 0);
    assert Le32(fh, 10) == Le32(Le32Bytes(DataStart), 0);
  }

  /** Every BITMAPINFOHEADER field, at its offset from the start of that header. */
  lemma BitmapInfoHeaderFields(width: nat, height: nat, bytesPerPixel: nat)
    requires width < TwoTo32 && height < TwoTo32 && bytesPerPixel * 8 < TwoTo16
    requires width * height * bytesPerPixel < TwoTo32
    ensures var ih := BitmapInfoHeader(width, height, bytesPerPixel);
      Le32(ih, 0) == InfoHeaderSize && Le32(ih, 4) == width && Le32(ih, 8) == height &&
      Le16(ih, 12) == Planes && Le16(ih, 14) == bytesPerPixel * 8 &&
      Le32(ih, 16) == NoCompression && Le32(ih, 20) == width * height * bytesPerPixel &&
      Le32(ih, 24) == ResolutionPerMeter && Le32(ih, 28) == ResolutionPerMeter &&
      Le32(ih, 32) == MaxNumberOfColors && Le32(ih, 36) == AllColorsRequired
  {
    var ih := BitmapInfoHeader(width, height, bytesPerPixel);
    assert Le32(ih, 0) == Le32(Le32Bytes(InfoHeaderSize), 0);
    assert Le32(ih, 4) == Le32(Le32Bytes(width), 0);
    assert Le32(ih, 8) == Le32(Le32Bytes(height), 0);
    assert Le16(ih, 12) == Le16(Le16Bytes(Planes), 0);
    assert Le16(ih, 14) == Le16(Le16Bytes(bytesPerPixel * 8), 0);
    assert Le32(ih, 16) == Le32(Le32Bytes(NoCompression), 0);
    assert Le32(ih, 20) == Le32(Le32Bytes(width * height * bytesPerPixel), 0);
    assert Le32(ih, 24) == Le32(Le32Bytes(ResolutionPerMeter), 0);
    assert Le32(ih, 28) == Le32(Le32Bytes(ResolutionPerMeter), 0);
    assert Le32(ih, 32) == Le32(Le32Bytes(MaxNumberOfColors), 0);
    assert Le32(ih, 36) == Le32(Le32Bytes(AllColorsRequired), 0);
  }

  /** The encoder's header is the BITMAPFILEHEADER for its file size, then the BITMAPINFOHEADER. */
  lemma FileHeaderSplit(width: nat, height: nat, bytesPerPixel: nat)
    requires Geometry(width, height, bytesPerPixel)
    ensures 0 <= PaddedRowSize(width, bytesPerPixel) * height
    ensures width * height * bytesPerPixel < TwoTo32
    ensures FileHeader(width, height, bytesPerPixel)
         == BitmapFileHeader(PaddedRowSize(width, bytesPerPixel) * height + HeaderSize + InfoHeaderSize)
          + BitmapInfoHeader(width, height, bytesPerPixel)
  {
    GeometryBounds(width, height, bytesPerPixel);
  }

  /** The BITMAPFILEHEADER fields of the encoder's header, at their offsets. */
  lemma FileHeaderFields(width: nat, height: nat, bytesPerPixel: nat)
    requires Geometry(width, height, bytesPerPixel)
    ensures var hdr := FileHeader(width, height, bytesPerPixel);
      hdr[..2] == Signature &&
      Le32(hdr, 2) == PaddedRowSize(width, bytesPerPixel) * height + DataStart &&
      Le32(hdr, 6) == Reserved && Le32(hdr, DataOffsetOffset) == DataStart
  {
    FileHeaderSplit(width, height, bytesPerPixel);
    var fileSize := PaddedRowSize(width, bytesPerPixel) * height + HeaderSize + InfoHeaderSize;
    var fh := BitmapFileHeader(fileSize);
    var ih := BitmapInfoHeader(width, height, bytesPerPixel);
    BitmapFileHeaderFields(fileSize);
    assert (fh + ih)[..2] == fh[..2];
    Le32Prefix(fh, ih, 2);
    Le32Prefix(fh, ih, 6);
    Le32Prefix(fh, ih, DataOffsetOffset);
  }

  /** The BITMAPINFOHEADER fields of the encoder's header, at their offsets. */
  lemma InfoHeaderFields(width: nat, height: nat, bytesPerPixel: nat)
    requires Geometry(width, height, bytesPerPixel)
    ensures var hdr := FileHeader(width, height, bytesPerPixel);
      Le32(hdr, 14) == InfoHeaderSize &&
      Le32(hdr, WidthOffset) == width && Le32(hdr, HeightOffset) == height &&
      Le16(hdr, 26) == Planes && Le16(hdr, BitsPerPixelOffset) == bytesPerPixel * 8 &&
      Le32(hdr, 30) == NoCompression && Le32(hdr, 34) == width * height * bytesPerPixel &&
      Le32(hdr, 38) == ResolutionPerMeter && Le32(hdr, 42) == ResolutionPerMeter &&
      Le32(hdr, 46) == MaxNumberOfColors && Le32(hdr, 50) == AllColorsRequired
  {
    FileHeaderSplit(width, height, bytesPerPixel);
    var fileSize := PaddedRowSize(width, bytesPerPixel) * height + HeaderSize + InfoHeaderSize;
    var fh := BitmapFileHeader(fileSize);
    var ih := BitmapInfoHeader(width, height, bytesPerPixel);
    BitmapInfoHeaderFields(width, height, bytesPerPixel);
    Le32Shift(fh, ih, 0);
    Le32Shift(fh, ih, 4);
    Le32Shift(fh, ih, 8);
    Le16Shift(fh, ih, 12);
    Le16Shift(fh, ih, 14);
    Le32Shift(fh, ih, 16);
    Le32Shift(fh, ih, 20);
    Le32Shift(fh, ih, 24);
    Le32Shift(fh, ih, 28);
    Le32Shift(fh, ih, 32);
    Le32Shift(fh, ih, 36);
  }

  /** `n` zero bytes. */
  function Zeros(n: nat): (z: seq<byte>)
    ensures |z| == n && forall k :: 0 <= k < n ==> z[k] == 0
  {
    seq(n, _ => 0)
  }

  /**
   * The disk rows as the corrected encoder writes them: disk row `i` is buffer
   * row `height - 1 - i` followed by zero bytes up to the padded size.
   */
  function PaddedRows(pixels: seq<byte>, rowSize: nat, padded: nat, height: nat): (rows: seq<seq<byte>>)
    requires rowSize <= padded && |pixels| == rowSize * height
    ensures |rows| == height && RowsOfSize(rows, padded)
  {
    seq(height, i requires 0 <= i < height =>
      BufferRow(pixels, rowSize, height, height - 1 - i) + Zeros(padded - rowSize))
  }

  /**
   * The `padded` bytes the source copies for disk row `i`: they start at buffer
   * row `height - 1 - i` and run on into whatever follows it in `memory`, which is
   * the buffer followed by the bytes that lie past its end.
   */
  function CopiedRow(memory: seq<byte>, rowSize: nat, padded: nat, height: nat, i: nat): (row: seq<byte>)
    requires rowSize <= padded && |memory| == rowSize * height + (padded - rowSize) && i < height
    ensures |row| == padded
  {
    RowEnd(height - 1 - i, height, rowSize);
    memory[(height - 1 - i) * rowSize .. (height - 1 - i) * rowSize + padded]
  }

  /** The disk rows as the source writes them, `CopiedRow` for each. */
  function CopiedRows(memory: seq<byte>, rowSize: nat, padded: nat, height: nat): (rows: seq<seq<byte>>)
    requires rowSize <= padded && |memory| == rowSize * height + (padded - rowSize)
    ensures |rows| == height && RowsOfSize(rows, padded)
  {
    seq(height, i requires 0 <= i < height => CopiedRow(memory, rowSize, padded, height, i))
  }

  /** The corrected encoder's file: the header, then every row padded with zero bytes. */
  function Encode(img: Image): (file: seq<byte>)
    requires Encodable(img)
    ensures |file| == img.Padded() * img.height + DataStart
  {
    var rows := PaddedRows(img.pixels, img.RowSize(), img.Padded(), img.height);
    FlattenLength(rows, img.Padded());
    FileHeader(img.width, img.height, img.bytesPerPixel) + Flatten(rows)
  }

  /**
   * The file bmp.c's `WriteImage` writes, where `beyond` stands for the
   * `Padded() - RowSize()` bytes that lie past the end of the pixel buffer.
   */
  function EncodeAsWritten(img: Image, beyond: seq<byte>): (file: seq<byte>)
    requires Encodable(img) && |beyond| == img.Padded() - img.RowSize()
    ensures |file| == img.Padded() * img.height + DataStart
  {
    var rows := CopiedRows(img.pixels + beyond, img.RowSize(), img.Padded(), img.height);
    FlattenLength(rows, img.Padded());
    FileHeader(img.width, img.height, img.bytesPerPixel) + Flatten(rows)
  }

  /** Disk row `i` of a file the encoder writes: `padded` bytes at `54 + i * padded`. */
  function FileRow(file: seq<byte>, padded: nat, height: nat, i: nat): (row: seq<byte>)
    requires i < height && |file| == padded * height + DataStart
    ensures |row| == padded
  {
    RowEnd(i, height, padded);
    file[DataStart + i * padded .. DataStart + i * padded + padded]
  }

  /** After a 54-byte header, the rows laid end to end are the file's disk rows. */
  lemma HeaderThenRows(hdr: seq<byte>, rows: seq<seq<byte>>, padded: nat, i: nat)
    requires |hdr| == DataStart && RowsOfSize(rows, padded) && i < |rows|
    ensures |hdr + Flatten(rows)| == padded * |rows| + DataStart
    ensures FileRow(hdr + Flatten(rows), padded, |rows|, i) == rows[i]
  {
    var flat := Flatten(rows);
    var at := i * padded;
    assert |flat| == padded * |rows| && at + padded <= |flat| && flat[at .. at + padded] == rows[i] by {
      FlattenRow(rows, padded, i);
      RowEnd(i, |rows|, padded);
      assert BufferRow(flat, padded, |rows|, i) == flat[at .. at + padded];
    }
    var file := hdr + flat;
    assert file[DataStart + at .. DataStart + at + padded] == flat[at .. at + padded];
    assert FileRow(file, padded, |rows|, i) == file[DataStart + at .. DataStart + at + padded];
  }

  /** The corrected encoder writes buffer row `height - 1 - i` as disk row `i`, then zero padding. */
  lemma EncodePlacesRows(img: Image, i: nat)
    requires Encodable(img) && i < img.height
    ensures FileRow(Encode(img), img.Padded(), img.height, i)
         == BufferRow(img.pixels, img.RowSize(), img.height, img.height - 1 - i) + Zeros(img.Padded() - img.RowSize())
  {
    var rows := PaddedRows(img.pixels, img.RowSize(), img.Padded(), img.height);
    var hdr := FileHeader(img.width, img.height, img.bytesPerPixel);
    assert Encode(img) == hdr + Flatten(rows);
    HeaderThenRows(hdr, rows, img.Padded(), i);
  }

  /**
   * The source writes as disk row `i` the `padded` bytes that start at buffer
   * row `height - 1 - i` (see `CopiedRowStartsWithRow`).
   */
  lemma EncodeAsWrittenPlacesRows(img: Image, beyond: seq<byte>, i: nat)
    requires Encodable(img) && |beyond| == img.Padded() - img.RowSize() && i < img.height
    ensures FileRow(EncodeAsWritten(img, beyond), img.Padded(), img.height, i)
         == CopiedRow(img.pixels + beyond, img.RowSize(), img.Padded(), img.height, i)
  {
    var rows := CopiedRows(img.pixels + beyond, img.RowSize(), img.Padded(), img.height);
    var hdr := FileHeader(img.width, img.height, img.bytesPerPixel);
    assert EncodeAsWritten(img, beyond) == hdr + Flatten(rows);
    HeaderThenRows(hdr, rows, img.Padded(), i);
  }

  /** The bytes copied for disk row `i` begin with buffer row `height - 1 - i`; only the padding comes from elsewhere. */
  lemma CopiedRowStartsWithRow(pixels: seq<byte>, beyond: seq<byte>, rowSize: nat, padded: nat, height: nat, i: nat)
    requires rowSize <= padded && |pixels| == rowSize * height && |beyond| == padded - rowSize && i < height
    ensures CopiedRow(pixels + beyond, rowSize, padded, height, i)[..rowSize]
         == BufferRow(pixels, rowSize, height, height - 1 - i)
  {
    var at := (height - 1 - i) * rowSize;
    assert at + rowSize <= |pixels| by { RowEnd(height - 1 - i, height, rowSize); }
    assert (pixels + beyond)[at .. at + rowSize] == pixels[at .. at + rowSize];
  }

  // ---------------------------------------------------------------------------
  // Round trip
  // ---------------------------------------------------------------------------

  /** The decoder reads back the header fields the encoder wrote, whatever follows the header. */
  lemma ReadHeaderOfEncoded(width: nat, height: nat, bytesPerPixel: nat, rest: seq<byte>)
    requires Geometry(width, height, bytesPerPixel)
    ensures ReadHeader(FileHeader(width, height, bytesPerPixel) + rest)
         == Header(DataStart, width, height, bytesPerPixel * 8)
  {
    var hdr := FileHeader(width, height, bytesPerPixel);
    FileHeaderFields(width, height, bytesPerPixel);
    InfoHeaderFields(width, height, bytesPerPixel);
    Le32Prefix(hdr, rest, DataOffsetOffset);
    Le32Prefix(hdr, rest, WidthOffset);
    Le32Prefix(hdr, rest, HeightOffset);
    Le16Prefix(hdr, rest, BitsPerPixelOffset);
  }

  /** In a file laid out as the encoder lays it out, disk row `i` is the start of `FileRow`. */
  lemma DiskRowOfEncoded(file: seq<byte>, hd: Header, i: nat)
    requires hd.dataOffset == DataStart && |file| == hd.Padded() * hd.height + DataStart && i < hd.height
    requires RowsInFile(|file|, hd)
    ensures DiskRow(file, hd, i) == FileRow(file, hd.Padded(), hd.height, i)[..hd.RowSize()]
  {
    var padded := hd.Padded();
    var start := DataStart + i * padded;
    assert start + padded <= |file| by { RowEnd(i, hd.height, padded); }
    assert RowStart(hd, i) == start;
    assert DiskRow(file, hd, i) == file[start .. start + hd.RowSize()];
    assert FileRow(file, padded, hd.height, i) == file[start .. start + padded];
  }

  /**
   * Disk rows that each begin with the corresponding buffer row (bottom row
   * first), after a 54-byte header, are placed where `hd` says the decoder
   * reads them.
   */
  lemma EncodedRowsPlaced(hdr: seq<byte>, rows: seq<seq<byte>>, hd: Header, pixels: seq<byte>)
    requires |hdr| == DataStart && hd.dataOffset == DataStart
    requires hd.height == |rows| && RowsOfSize(rows, hd.Padded())
    requires |pixels| == hd.RowSize() * hd.height
    requires forall i :: 0 <= i < hd.height ==>
      rows[i][..hd.RowSize()] == BufferRow(pixels, hd.RowSize(), hd.height, hd.height - 1 - i)
    ensures |hdr + Flatten(rows)| == hd.Padded() * hd.height + DataStart
    ensures RowsInFile(|hdr + Flatten(rows)|, hd)
    ensures RowsPlaced(hdr + Flatten(rows), hd, pixels)
  {
    var file := hdr + Flatten(rows);
    var padded := hd.Padded();
    assert |file| == padded * hd.height + DataStart by { FlattenLength(rows, padded); }
    assert RowsInFile(|file|, hd) by {
      if 1 <= hd.height { RowEnd(hd.height - 1, hd.height, padded); }
    }
    forall i | 0 <= i < hd.height
      ensures DiskRow(file, hd, i) == BufferRow(pixels, hd.RowSize(), hd.height, hd.height - 1 - i)
    {
      HeaderThenRows(hdr, rows, padded, i);
      DiskRowOfEncoded(file, hd, i);
    }
  }

  /**
   * A file made of the encoder's header and disk rows that each begin with the
   * corresponding buffer row (bottom row first) decodes to the image, whatever
   * the padding bytes are.
   */
  lemma DecodeOfEncoded(img: Image, rows: seq<seq<byte>>)
    requires Encodable(img)
    requires |rows| == img.height && RowsOfSize(rows, img.Padded())
    requires forall i :: 0 <= i < img.height ==>
      rows[i][..img.RowSize()] == BufferRow(img.pixels, img.RowSize(), img.height, img.height - 1 - i)
    ensures Decodable(FileHeader(img.width, img.height, img.bytesPerPixel) + Flatten(rows))
    ensures Decode(FileHeader(img.width, img.height, img.bytesPerPixel) + Flatten(rows)) == img
  {
    var hdr := FileHeader(img.width, img.height, img.bytesPerPixel);
    var file := hdr + Flatten(rows);
    var hd := Header(DataStart, img.width, img.height, img.bytesPerPixel * 8);
    assert ReadHeader(file) == hd by {
      ReadHeaderOfEncoded(img.width, img.height, img.bytesPerPixel, Flatten(rows));
    }
    assert hd.BytesPerPixel() == img.bytesPerPixel;
    EncodedRowsPlaced(hdr, rows, hd, img.pixels);
    assert Decodable(file);
    DecodePlacesRows(file, img.pixels);
    var d := Decode(file);
    assert d.width == img.width && d.height == img.height && d.bytesPerPixel == img.bytesPerPixel;
  }

  /** Decoding what the corrected encoder writes gives back the image. */
  lemma DecodeEncode(img: Image)
    requires Encodable(img)
    ensures Decodable(Encode(img)) && Decode(Encode(img)) == img
  {
    var n := img.RowSize();
    var rows := PaddedRows(img.pixels, n, img.Padded(), img.height);
    forall i | 0 <= i < img.height
      ensures rows[i][..n] == BufferRow(img.pixels, n, img.height, img.height - 1 - i)
    {
    }
    DecodeOfEncoded(img, rows);
  }

  /**
   * Decoding what the source's encoder writes also gives back the image: the
   * bytes it copies from past the buffer land only in padding, which the
   * decoder skips.
   */
  lemma DecodeEncodeAsWritten(img: Image, beyond: seq<byte>)
    requires Encodable(img) && |beyond| == img.Padded() - img.RowSize()
    ensures Decodable(EncodeAsWritten(img, beyond)) && Decode(EncodeAsWritten(img, beyond)) == img
  {
    var n := img.RowSize();
    var rows := CopiedRows(img.pixels + beyond, n, img.Padded(), img.height);
    forall i | 0 <= i < img.height
      ensures rows[i][..n] == BufferRow(img.pixels, n, img.height, img.height - 1 - i)
    {
      CopiedRowStartsWithRow(img.pixels, beyond, n, img.Padded(), img.height, i);
    }
    DecodeOfEncoded(img, rows);
  }

  /** The file size field of every encoded file is its length, and the image size field the buffer's. */
  lemma EncodedSizeFields(img: Image, beyond: seq<byte>)
    requires Encodable(img) && |beyond| == img.Padded() - img.RowSize()
    ensures Le32(Encode(img), 2) == |Encode(img)|
    ensures Le32(EncodeAsWritten(img, beyond), 2) == |EncodeAsWritten(img, beyond)|
    ensures Le32(Encode(img), 34) == |img.pixels|
    ensures Le32(EncodeAsWritten(img, beyond), 34) == |img.pixels|
  {
    var hdr := FileHeader(img.width, img.height, img.bytesPerPixel);
    FileHeaderFields(img.width, img.height, img.bytesPerPixel);
    InfoHeaderFields(img.width, img.height, img.bytesPerPixel);
    var rows := PaddedRows(img.pixels, img.RowSize(), img.Padded(), img.height);
    assert Encode(img) == hdr + Flatten(rows);
    Le32Prefix(hdr, Flatten(rows), 2);
    Le32Prefix(hdr, Flatten(rows), 34);
    var copied := CopiedRows(img.pixels + beyond, img.RowSize(), img.Padded(), img.height);
    assert EncodeAsWritten(img, beyond) == hdr + Flatten(copied);
    Le32Prefix(hdr, Flatten(copied), 2);
    Le32Prefix(hdr, Flatten(copied), 34);
    assert img.width * img.height * img.bytesPerPixel == img.RowSize() * img.height by {
      MulSwap(img.width, img.height, img.bytesPerPixel);
    }
  }

  /**
   * A 3x2 grey image, one byte per pixel, with the byte 9 lying past its buffer:
   * the source pads the bottom disk row with that byte and the top disk row
   * with the first pixel of the top row, where the BMP format calls for zeros.
   */
  lemma AsWrittenPaddingExample()
    ensures var img := Image(3, 2, 1, [1, 2, 3, 4, 5, 6]);
      Encodable(img) && img.Padded() == 4 &&
      FileRow(EncodeAsWritten(img, [9]), 4, 2, 0) == [4, 5, 6, 9] &&
      FileRow(EncodeAsWritten(img, [9]), 4, 2, 1) == [1, 2, 3, 4]
  {
    var img := Image(3, 2, 1, [1, 2, 3, 4, 5, 6]);
    assert img.Padded() == 4;
    var memory := img.pixels + [9];
    EncodeAsWrittenPlacesRows(img, [9], 0);
    EncodeAsWrittenPlacesRows(img, [9], 1);
    assert CopiedRow(memory, 3, 4, 2, 0) == memory[3..7] == [4, 5, 6, 9];
    assert CopiedRow(memory, 3, 4, 2, 1) == memory[0..4] == [1, 2, 3, 4];
  }

  /** The same image as the corrected encoder writes it: each disk row padded with a zero byte. */
  lemma ZeroPaddingExample()
    ensures var img := Image(3, 2, 1, [1, 2, 3, 4, 5, 6]);
      Encodable(img) && img.Padded() == 4 &&
      FileRow(Encode(img), 4, 2, 0) == [4, 5, 6, 0] &&
      FileRow(Encode(img), 4, 2, 1) == [1, 2, 3, 0]
  {
    var img := Image(3, 2, 1, [1, 2, 3, 4, 5, 6]);
    assert img.Padded() == 4;
    EncodePlacesRows(img, 0);
    EncodePlacesRows(img, 1);
    assert BufferRow(img.pixels, 3, 2, 1) == [4, 5, 6];
    assert BufferRow(img.pixels, 3, 2, 0) == [1, 2, 3];
  }
}
