/**
 * bmp.c's `ReadImage` and `WriteImage` as step-by-step methods: the file is a
 * byte sequence (what `fread` sees and `fwrite` produces), the pixel buffer an
 * array. Each method is proved against the specification functions of `BmpLayout`.
 */
module BmpCodec {
  import opened LittleEndian
  import opened Arithmetic
  import opened BmpLayout

  /**
   * `ReadImage` (bmp.c:28-93): reads the four header fields, allocates the
   * unpadded buffer and fills it from its last row upwards, one disk row per
   * iteration, copying only the row's pixel bytes.
   */
  method ReadImage(file: seq<byte>) returns (pixels: array<byte>, width: nat, height: nat, bytesPerPixel: nat)
    requires Decodable(file)
    ensures fresh(pixels)
    ensures Image(width, height, bytesPerPixel, pixels[..]) == Decode(file)
  {
    var dataOffset := Le32(file, DataOffsetOffset);
    width := Le32(file, WidthOffset);
    height := Le32(file, HeightOffset);
    var bitsPerPixel := Le16(file, BitsPerPixelOffset);
    bytesPerPixel := bitsPerPixel / 8;
    var paddedRowSize := PaddedRowSize(width, bytesPerPixel);
    var unpaddedRowSize := width * bytesPerPixel;
    var totalSize := unpaddedRowSize * height;
    assert 0 <= unpaddedRowSize && 0 <= totalSize by {
      MulNonNegative(width, bytesPerPixel);
      MulNonNegative(unpaddedRowSize, height);
    }
    pixels := new byte[totalSize];

    ghost var hd := ReadHeader(file);
    ghost var rows := DecodedRows(file, hd);
    assert hd == Header(dataOffset, width, height, bitsPerPixel);
    assert hd.Padded() == paddedRowSize && hd.RowSize() == unpaddedRowSize && RowsInFile(|file|, hd);
    // The source's `currentRowPointer`, as an index into the buffer: the last row first.
    var currentRow: int := (height - 1) * unpaddedRowSize;
    assert currentRow + unpaddedRowSize == height * unpaddedRowSize by {
      if 1 <= height { NextRow(height - 1, unpaddedRowSize); }
    }
    assert rows[height ..] == [];
    for i := 0 to height
      invariant currentRow + unpaddedRowSize == (height - i) * unpaddedRowSize
      invariant 0 <= currentRow + unpaddedRowSize <= totalSize
      invariant pixels[currentRow + unpaddedRowSize ..] == Flatten(rows[height - i ..])
    {
      var start := dataOffset + i * paddedRowSize;
      RowToRead(file, hd, height, unpaddedRowSize, i, currentRow, start);
      // fseek to the disk row, then fread its unpadded bytes into the current row.
      ReadInto(pixels, currentRow, file, start, unpaddedRowSize);
      FlattenCons(rows[height - (i + 1)], rows[height - i ..]);
      currentRow := currentRow - unpaddedRowSize;
    }
    assert currentRow + unpaddedRowSize == (height - height) * unpaddedRowSize;
    assert rows[0 ..] == rows && currentRow + unpaddedRowSize == 0;
    assert pixels[..] == Flatten(rows) by { assert pixels[..] == pixels[0 ..]; }
    assert Decode(file) == Image(width, height, bytesPerPixel, Flatten(rows));
  }

  /**
   * Where iteration `i` of `ReadImage`'s loop reads and writes: disk row `i`
   * lies inside the file and becomes decoded row `height - (i + 1)`, which
   * `currentRow` indexes in the buffer.
   */
  lemma RowToRead(file: seq<byte>, hd: Header, height: nat, rowSize: nat, i: nat, currentRow: int, start: int)
    requires RowsInFile(|file|, hd) && height == hd.height && rowSize == hd.RowSize() && i < height
    requires currentRow + rowSize == (height - i) * rowSize
    requires start == hd.dataOffset + i * hd.Padded()
    ensures 0 <= currentRow == (height - (i + 1)) * rowSize
    ensures currentRow + rowSize <= rowSize * height
    ensures 0 <= start && start + rowSize <= |file|
    ensures DecodedRows(file, hd)[height - (i + 1)] == file[start .. start + rowSize]
    ensures [DecodedRows(file, hd)[height - (i + 1)]] + DecodedRows(file, hd)[height - i ..]
         == DecodedRows(file, hd)[height - (i + 1) ..]
  {
    var r := height - (i + 1);
    NextRow(r, rowSize);
    RowEnd(r, height, rowSize);
    DecodedRowAt(file, hd, i);
  }

  /** `fread` of `count` bytes from `file[start ..]` into the buffer at `at`. */
  method ReadInto(pixels: array<byte>, at: nat, file: seq<byte>, start: nat, count: nat)
    requires at + count <= pixels.Length && start + count <= |file|
    modifies pixels
    ensures pixels[..at] == old(pixels[..at])
    ensures pixels[at ..] == file[start .. start + count] + old(pixels[at + count ..])
  {
    forall k | 0 <= k < count {
      pixels[at + k] := file[start + k];
    }
    assert pixels[at .. at + count] == file[start .. start + count];
    assert pixels[at + count ..] == old(pixels[at + count ..]);
    assert pixels[at ..] == pixels[at .. at + count] + pixels[at + count ..];
  }

  /**
   * `count` bytes of memory from offset `at` on, the way `fwrite` reads them:
   * the buffer's own bytes while they last, then whatever lies past its end.
   */
  method CopyOut(pixels: array<byte>, beyond: seq<byte>, at: nat, count: nat) returns (bytes: seq<byte>)
    requires at + count <= pixels.Length + |beyond|
    ensures bytes == (pixels[..] + beyond)[at .. at + count]
  {
    bytes := [];
    for k := 0 to count
      invariant bytes == (pixels[..] + beyond)[at .. at + k]
    {
      var b := if at + k < pixels.Length then pixels[at + k] else beyond[at + k - pixels.Length];
      bytes := bytes + [b];
    }
  }

  /**
   * The header `WriteImage` writes (bmp.c:107-163), field after field: the
   * BITMAPFILEHEADER, then the BITMAPINFOHEADER.
   */
  method WriteHeader(width: nat, height: nat, bytesPerPixel: nat) returns (out: seq<byte>)
    requires Geometry(width, height, bytesPerPixel)
    ensures out == FileHeader(width, height, bytesPerPixel)
  {
    var paddedRowSize := PaddedRowSize(width, bytesPerPixel);
    var fileSize := paddedRowSize * height + HeaderSize + InfoHeaderSize;
    var imageSize := width * height * bytesPerPixel;
    assert 0 <= fileSize < TwoTo32 && 0 <= imageSize < TwoTo32 by {
      MulNonNegative(paddedRowSize, height);
      GeometryBounds(width, height, bytesPerPixel);
    }
    out := Signature;
    out := out + Le32Bytes(fileSize);
    out := out + Le32Bytes(Reserved);
    out := out + Le32Bytes(HeaderSize + InfoHeaderSize);
    assert out == BitmapFileHeader(fileSize);
    var info := Le32Bytes(InfoHeaderSize);
    info := info + Le32Bytes(width);
    info := info + Le32Bytes(height);
    info := info + Le16Bytes(Planes);
    info := info + Le16Bytes(bytesPerPixel * 8);
    info := info + Le32Bytes(NoCompression);
    info := info + Le32Bytes(imageSize);
    info := info + Le32Bytes(ResolutionPerMeter);
    info := info + Le32Bytes(ResolutionPerMeter);
    info := info + Le32Bytes(MaxNumberOfColors);
    info := info + Le32Bytes(AllColorsRequired);
    assert info == BitmapInfoHeader(width, height, bytesPerPixel);
    out := out + info;
  }

  /**
   * `WriteImage` (bmp.c:102-175) as written: after the header, disk row `i` is
   * the `paddedRowSize` bytes starting at buffer row `height - 1 - i`, read
   * straight out of memory, where `beyond` stands for the bytes past the buffer.
   * Decoding the result gives back the image.
   */
  method WriteImage(pixels: array<byte>, beyond: seq<byte>, width: nat, height: nat, bytesPerPixel: nat)
    returns (out: seq<byte>)
    requires Geometry(width, height, bytesPerPixel) && pixels.Length == width * bytesPerPixel * height
    requires |beyond| == PaddedRowSize(width, bytesPerPixel) - width * bytesPerPixel
    ensures out == EncodeAsWritten(Image(width, height, bytesPerPixel, pixels[..]), beyond)
    ensures Decodable(out) && Decode(out) == Image(width, height, bytesPerPixel, pixels[..])
  {
    out := WriteHeader(width, height, bytesPerPixel);
    ghost var header := out;
    var paddedRowSize := PaddedRowSize(width, bytesPerPixel);
    var unpaddedRowSize := width * bytesPerPixel;
    assert 0 <= unpaddedRowSize by { MulNonNegative(width, bytesPerPixel); }
    ghost var rows := CopiedRows(pixels[..] + beyond, unpaddedRowSize, paddedRowSize, height);
    for i := 0 to height
      invariant out == header + Flatten(rows[..i])
    {
      var pixelOffset := (height - 1 - i) * unpaddedRowSize;
      CopiedRowAt(pixels[..] + beyond, unpaddedRowSize, paddedRowSize, height, i, pixelOffset);
      var row := CopyOut(pixels, beyond, pixelOffset, paddedRowSize);
      FlattenNext(rows, i);
      out := out + row;
    }
    assert rows[..height] == rows;
    DecodeEncodeAsWritten(Image(width, height, bytesPerPixel, pixels[..]), beyond);
  }

  /**
   * `WriteImage` as evidently intended: each disk row is the buffer row's own
   * bytes followed by zero padding, so nothing is read past the buffer.
   * Decoding the result gives back the image.
   */
  method WriteImageZeroPadded(pixels: array<byte>, width: nat, height: nat, bytesPerPixel: nat)
    returns (out: seq<byte>)
    requires Geometry(width, height, bytesPerPixel) && pixels.Length == width * bytesPerPixel * height
    ensures out == Encode(Image(width, height, bytesPerPixel, pixels[..]))
    ensures Decodable(out) && Decode(out) == Image(width, height, bytesPerPixel, pixels[..])
  {
    out := WriteHeader(width, height, bytesPerPixel);
    ghost var header := out;
    var paddedRowSize := PaddedRowSize(width, bytesPerPixel);
    var unpaddedRowSize := width * bytesPerPixel;
    assert 0 <= unpaddedRowSize by { MulNonNegative(width, bytesPerPixel); }
    ghost var rows := PaddedRows(pixels[..], unpaddedRowSize, paddedRowSize, height);
    for i := 0 to height
      invariant out == header + Flatten(rows[..i])
    {
      var pixelOffset := (height - 1 - i) * unpaddedRowSize;
      PaddedRowAt(pixels[..], unpaddedRowSize, paddedRowSize, height, i, pixelOffset);
      var row := pixels[pixelOffset .. pixelOffset + unpaddedRowSize] + Zeros(paddedRowSize - unpaddedRowSize);
      FlattenNext(rows, i);
      out := out + row;
    }
    assert rows[..height] == rows;
    DecodeEncode(Image(width, height, bytesPerPixel, pixels[..]));
  }

  /**
   * Where iteration `i` of the corrected encoder reads: buffer row
   * `height - 1 - i`, at `pixelOffset`, which padded with zeros is disk row `i`.
   */
  lemma PaddedRowAt(pixels: seq<byte>, rowSize: nat, padded: nat, height: nat, i: nat, pixelOffset: int)
    requires rowSize <= padded && |pixels| == rowSize * height && i < height
    requires pixelOffset == (height - 1 - i) * rowSize
    ensures 0 <= pixelOffset && pixelOffset + rowSize <= |pixels|
    ensures PaddedRows(pixels, rowSize, padded, height)[i]
         == pixels[pixelOffset .. pixelOffset + rowSize] + Zeros(padded - rowSize)
  {
    RowEnd(height - 1 - i, height, rowSize);
    assert pixels[pixelOffset .. pixelOffset + rowSize] == BufferRow(pixels, rowSize, height, height - 1 - i);
  }

  /**
   * Where iteration `i` of `WriteImage` reads: the `padded` bytes of `memory`
   * from `pixelOffset`, buffer row `height - 1 - i`, are disk row `i`.
   */
  lemma CopiedRowAt(memory: seq<byte>, rowSize: nat, padded: nat, height: nat, i: nat, pixelOffset: int)
    requires rowSize <= padded && |memory| == rowSize * height + (padded - rowSize) && i < height
    requires pixelOffset == (height - 1 - i) * rowSize
    ensures 0 <= pixelOffset && pixelOffset + padded <= |memory|
    ensures CopiedRows(memory, rowSize, padded, height)[i] == memory[pixelOffset .. pixelOffset + padded]
  {
    RowEnd(height - 1 - i, height, rowSize);
  }

  /** Appending row `i` to the first `i` rows laid end to end gives the first `i + 1`. */
  lemma FlattenNext(rows: seq<seq<byte>>, i: nat)
    requires i < |rows|
    ensures Flatten(rows[..i + 1]) == Flatten(rows[..i]) + rows[i]
  {
    assert rows[..i + 1][..i] == rows[..i];
  }
}
