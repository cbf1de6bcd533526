/** The 54-byte header of a Windows BMP file as the reader sees it: the
    14-byte BITMAPFILEHEADER followed by the 40-byte BITMAPINFOHEADER, every
    field little-endian and read in declaration order. */
module Header {
  import opened LittleEndian
  import opened Optional
  import opened MemStream

  const FileHeaderBytes: nat := 14
  const InfoHeaderBytes: nat := 40
  const HeaderBytes: nat := FileHeaderBytes + InfoHeaderBytes

  /** The header fields, in file order. Width and height are unsigned. */
  datatype BmpHeader = BmpHeader(
    magic: u16,
    fileSize: u32,
    reserved1: u16,
    reserved2: u16,
    dataOffset: u32,
    headerSize: u32,
    width: u32,
    height: u32,
    planes: u16,
    bitsPerPixel: u16,
    compressionType: u32,
    imageDataSize: u32,
    hPixelsPerMeter: u32,
    vPixelsPerMeter: u32,
    colorsUsed: u32,
    colorsRequired: u32)

  /** Outcome of reading the header: the fields, or a short read. */
  datatype HeaderRead = Read(header: BmpHeader) | IoError

  /** The 16-bit field at offset `at`, least significant byte first. */
  function U16At(s: seq<byte>, at: nat): (x: u16)
    requires at + 2 <= |s|
    ensures x == s[at] as int + 0x100 * s[at + 1] as int
  {
    DecodeUint16(s[at..at + 2])
  }

  /** The 32-bit field at offset `at`, least significant byte first. */
  function U32At(s: seq<byte>, at: nat): (x: u32)
    requires at + 4 <= |s|
    ensures x == s[at] as int + 0x100 * s[at + 1] as int + 0x1_0000 * s[at + 2] as int + 0x100_0000 * s[at + 3] as int
  {
    DecodeUint32(s[at..at + 4])
  }

  /** The header stored at offset `p`: each field decoded at its fixed
      offset (Magic 0, FileSize 2, DataOffset 10, HeaderSize 14, Width 18,
      Height 22, Planes 26, BitsPerPixel 28, CompressionType 30, ...). */
  function HeaderAt(s: seq<byte>, p: nat): (h: BmpHeader)
    requires p + HeaderBytes <= |s|
    ensures h.magic == s[p] as int + 0x100 * s[p + 1] as int
    ensures h.fileSize == s[p + 2] as int + 0x100 * s[p + 3] as int + 0x1_0000 * s[p + 4] as int + 0x100_0000 * s[p + 5] as int
    ensures h.dataOffset == s[p + 10] as int + 0x100 * s[p + 11] as int + 0x1_0000 * s[p + 12] as int + 0x100_0000 * s[p + 13] as int
    ensures h.headerSize == s[p + 14] as int + 0x100 * s[p + 15] as int + 0x1_0000 * s[p + 16] as int + 0x100_0000 * s[p + 17] as int
    ensures h.width == s[p + 18] as int + 0x100 * s[p + 19] as int + 0x1_0000 * s[p + 20] as int + 0x100_0000 * s[p + 21] as int
    ensures h.height == s[p + 22] as int + 0x100 * s[p + 23] as int + 0x1_0000 * s[p + 24] as int + 0x100_0000 * s[p + 25] as int
    ensures h.planes == s[p + 26] as int + 0x100 * s[p + 27] as int
    ensures h.bitsPerPixel == s[p + 28] as int + 0x100 * s[p + 29] as int
    ensures h.compressionType == s[p + 30] as int + 0x100 * s[p + 31] as int + 0x1_0000 * s[p + 32] as int + 0x100_0000 * s[p + 33] as int
  {
    BmpHeader(
      U16At(s, p), U32At(s, p + 2), U16At(s, p + 6), U16At(s, p + 8),
      U32At(s, p + 10),
      U32At(s, p + 14), U32At(s, p + 18), U32At(s, p + 22),
      U16At(s, p + 26), U16At(s, p + 28), U32At(s, p + 30),
      U32At(s, p + 34), U32At(s, p + 38), U32At(s, p + 42),
      U32At(s, p + 46), U32At(s, p + 50))
  }

  /** The 14 bytes of the BITMAPFILEHEADER, each field written with the
      WriteUSHORT or WriteUINT split, in file order, with no gaps. */
  function EncodeFileHeader(h: BmpHeader): (b: seq<byte>)
    ensures |b| == FileHeaderBytes
  {
    EncodeUint16(h.magic) + EncodeUint32(h.fileSize) + EncodeUint16(h.reserved1)
    + EncodeUint16(h.reserved2) + EncodeUint32(h.dataOffset)
  }

  /** The first 16 bytes of the BITMAPINFOHEADER: its size, the geometry
      and the pixel depth. */
  function EncodeGeometry(h: BmpHeader): (b: seq<byte>)
    ensures |b| == 16
  {
    EncodeUint32(h.headerSize) + EncodeUint32(h.width) + EncodeUint32(h.height)
    + EncodeUint16(h.planes) + EncodeUint16(h.bitsPerPixel)
  }

  /** The last 24 bytes of the BITMAPINFOHEADER: compression, image size,
      resolution and colour counts. */
  function EncodeImageInfo(h: BmpHeader): (b: seq<byte>)
    ensures |b| == 24
  {
    EncodeUint32(h.compressionType) + EncodeUint32(h.imageDataSize)
    + EncodeUint32(h.hPixelsPerMeter) + EncodeUint32(h.vPixelsPerMeter)
    + EncodeUint32(h.colorsUsed) + EncodeUint32(h.colorsRequired)
  }

  /** The 40 bytes of the BITMAPINFOHEADER, written the same way. */
  function EncodeInfoHeader(h: BmpHeader): (b: seq<byte>)
    ensures |b| == InfoHeaderBytes
  {
    EncodeGeometry(h) + EncodeImageInfo(h)
  }

  /** The whole 54-byte header as the writer lays it out. */
  function EncodeHeader(h: BmpHeader): (b: seq<byte>)
    ensures |b| == HeaderBytes
  {
    EncodeFileHeader(h) + EncodeInfoHeader(h)
  }

  lemma U16AtEncoded(s: seq<byte>, at: nat, x: u16)
    requires at + 2 <= |s|
    requires s[at] == EncodeUint16(x)[0] && s[at + 1] == EncodeUint16(x)[1]
    ensures U16At(s, at) == x
  {
    assert s[at..at + 2] == EncodeUint16(x);
  }

  lemma U32AtEncoded(s: seq<byte>, at: nat, x: u32)
    requires at + 4 <= |s|
    requires s[at] == EncodeUint32(x)[0] && s[at + 1] == EncodeUint32(x)[1]
    requires s[at + 2] == EncodeUint32(x)[2] && s[at + 3] == EncodeUint32(x)[3]
    ensures U32At(s, at) == x
  {
    assert s[at..at + 4] == EncodeUint32(x);
  }

  /** A field read inside a part `t` of `s` that starts at `at` is the field
      read from `s` at the shifted offset. */
  lemma FieldsOfPart(s: seq<byte>, at: nat, t: seq<byte>, k: nat)
    requires at + |t| <= |s| && s[at..at + |t|] == t
    ensures k + 2 <= |t| ==> U16At(s, at + k) == U16At(t, k)
    ensures k + 4 <= |t| ==> U32At(s, at + k) == U32At(t, k)
  {
    assert forall i | 0 <= i < |t| :: s[at + i] == t[i];
    if k + 2 <= |t| {
      assert s[at + k..at + k + 2] == t[k..k + 2];
    }
    if k + 4 <= |t| {
      assert s[at + k..at + k + 4] == t[k..k + 4];
    }
  }

  /** The file-header writer puts each field where HeaderAt reads it. */
  lemma ReadEncodedFileHeader(h: BmpHeader)
    ensures var fh := EncodeFileHeader(h);
      U16At(fh, 0) == h.magic && U32At(fh, 2) == h.fileSize && U16At(fh, 6) == h.reserved1
      && U16At(fh, 8) == h.reserved2 && U32At(fh, 10) == h.dataOffset
  {
    var fh := EncodeFileHeader(h);
    U16AtEncoded(fh, 0, h.magic);
    U32AtEncoded(fh, 2, h.fileSize);
    U16AtEncoded(fh, 6, h.reserved1);
    U16AtEncoded(fh, 8, h.reserved2);
    U32AtEncoded(fh, 10, h.dataOffset);
  }

  /** The geometry writer puts each field where HeaderAt reads it
      (offsets relative to the start of the info header). */
  lemma ReadEncodedGeometry(h: BmpHeader)
    ensures var g := EncodeGeometry(h);
      U32At(g, 0) == h.headerSize && U32At(g, 4) == h.width && U32At(g, 8) == h.height
      && U16At(g, 12) == h.planes && U16At(g, 14) == h.bitsPerPixel
  {
    var g := EncodeGeometry(h);
    U32AtEncoded(g, 0, h.headerSize);
    U32AtEncoded(g, 4, h.width);
    U32AtEncoded(g, 8, h.height);
    U16AtEncoded(g, 12, h.planes);
    U16AtEncoded(g, 14, h.bitsPerPixel);
  }

  /** The image-info writer puts each field where HeaderAt reads it
      (offsets relative to byte 30 of the header). */
  lemma ReadEncodedImageInfo(h: BmpHeader)
    ensures var ii := EncodeImageInfo(h);
      U32At(ii, 0) == h.compressionType && U32At(ii, 4) == h.imageDataSize
      && U32At(ii, 8) == h.hPixelsPerMeter && U32At(ii, 12) == h.vPixelsPerMeter
      && U32At(ii, 16) == h.colorsUsed && U32At(ii, 20) == h.colorsRequired
  {
    var ii := EncodeImageInfo(h);
    U32AtEncoded(ii, 0, h.compressionType);
    U32AtEncoded(ii, 4, h.imageDataSize);
    U32AtEncoded(ii, 8, h.hPixelsPerMeter);
    U32AtEncoded(ii, 12, h.vPixelsPerMeter);
    U32AtEncoded(ii, 16, h.colorsUsed);
    U32AtEncoded(ii, 20, h.colorsRequired);
  }

  /** Reading an encoded header gives back every field: the offsets that
      HeaderAt uses are exactly where the writer puts each field. */
  lemma ReadEncodedHeader(h: BmpHeader)
    ensures HeaderAt(EncodeHeader(h), 0) == h
  {
    var b := EncodeHeader(h);
    var fh, g, ii := EncodeFileHeader(h), EncodeGeometry(h), EncodeImageInfo(h);
    assert b[0..14] == fh;
    assert b[14..30] == g;
    assert b[30..54] == ii;
    ReadEncodedFileHeader(h);
    ReadEncodedGeometry(h);
    ReadEncodedImageInfo(h);
    FieldsOfPart(b, 0, fh, 0);
    FieldsOfPart(b, 0, fh, 2);
    FieldsOfPart(b, 0, fh, 6);
    FieldsOfPart(b, 0, fh, 8);
    FieldsOfPart(b, 0, fh, 10);
    FieldsOfPart(b, 14, g, 0);
    FieldsOfPart(b, 14, g, 4);
    FieldsOfPart(b, 14, g, 8);
    FieldsOfPart(b, 14, g, 12);
    FieldsOfPart(b, 14, g, 14);
    FieldsOfPart(b, 30, ii, 0);
    FieldsOfPart(b, 30, ii, 4);
    FieldsOfPart(b, 30, ii, 8);
    FieldsOfPart(b, 30, ii, 12);
    FieldsOfPart(b, 30, ii, 16);
    FieldsOfPart(b, 30, ii, 20);
  }

  /** The 14 file-header bytes are recovered from the fields read there. */
  lemma EncodeReadFileHeader(s: seq<byte>)
    requires |s| == HeaderBytes
    ensures EncodeFileHeader(HeaderAt(s, 0)) == s[0..14]
  {
    EncodeDecodeUint16(s[0..2]);
    EncodeDecodeUint32(s[2..6]);
    EncodeDecodeUint16(s[6..8]);
    EncodeDecodeUint16(s[8..10]);
    EncodeDecodeUint32(s[10..14]);
    assert s[0..14] == s[0..2] + s[2..6] + s[6..8] + s[8..10] + s[10..14];
  }

  /** The 16 geometry bytes are recovered from the fields read there. */
  lemma EncodeReadGeometry(s: seq<byte>)
    requires |s| == HeaderBytes
    ensures EncodeGeometry(HeaderAt(s, 0)) == s[14..30]
  {
    EncodeDecodeUint32(s[14..18]);
    EncodeDecodeUint32(s[18..22]);
    EncodeDecodeUint32(s[22..26]);
    EncodeDecodeUint16(s[26..28]);
    EncodeDecodeUint16(s[28..30]);
    assert s[14..30] == s[14..18] + s[18..22] + s[22..26] + s[26..28] + s[28..30];
  }

  /** The 24 image-info bytes are recovered from the fields read there. */
  lemma EncodeReadImageInfo(s: seq<byte>)
    requires |s| == HeaderBytes
    ensures EncodeImageInfo(HeaderAt(s, 0)) == s[30..54]
  {
    EncodeDecodeUint32(s[30..34]);
    EncodeDecodeUint32(s[34..38]);
    EncodeDecodeUint32(s[38..42]);
    EncodeDecodeUint32(s[42..46]);
    EncodeDecodeUint32(s[46..50]);
    EncodeDecodeUint32(s[50..54]);
    assert s[30..54] == s[30..34] + s[34..38] + s[38..42] + s[42..46] + s[46..50] + s[50..54];
  }

  /** Every 54-byte sequence is the encoding of the header read from it: the
      sixteen fields cover the header exactly, with no gap and no overlap. */
  lemma EncodeReadHeader(s: seq<byte>)
    requires |s| == HeaderBytes
    ensures EncodeHeader(HeaderAt(s, 0)) == s
  {
    var h := HeaderAt(s, 0);
    EncodeReadGeometry(s);
    EncodeReadImageInfo(s);
    assert EncodeInfoHeader(h) == s[14..54] by {
      assert s[14..54] == s[14..30] + s[30..54];
    }
    EncodeReadFileHeader(s);
    assert s == s[0..14] + s[14..54];
  }

  /** ReadUSHORT: two bytes, or nothing on a short read (which consumes
      what was left). */
  method ReadUint16(f: Stream) returns (x: Option<u16>)
    requires f.Valid()
    modifies f
    ensures f.Valid()
    ensures old(f.Remaining()) >= 2 ==> x == Some(U16At(f.data, old(f.pos))) && f.pos == old(f.pos) + 2
    ensures old(f.Remaining()) < 2 ==> x == None && f.pos == |f.data|
  {
    var little := new byte[2];
    var count := f.ReadInto(little, 2);
    if count != 2 {
      return None;
    }
    return Some(DecodeUint16(little[..]));
  }

  /** ReadUINT: four bytes, or nothing on a short read (which consumes what
      was left). */
  method ReadUint32(f: Stream) returns (x: Option<u32>)
    requires f.Valid()
    modifies f
    ensures f.Valid()
    ensures old(f.Remaining()) >= 4 ==> x == Some(U32At(f.data, old(f.pos))) && f.pos == old(f.pos) + 4
    ensures old(f.Remaining()) < 4 ==> x == None && f.pos == |f.data|
  {
    var little := new byte[4];
    var count := f.ReadInto(little, 4);
    if count != 4 {
      return None;
    }
    return Some(DecodeUint32(little[..]));
  }

  /** ReadHeader: the sixteen fields one after another, stopping with an
      I/O error at the first short read. It succeeds exactly when 54 bytes
      remain, and then yields the header stored at the old position. */
  method ReadHeader(f: Stream) returns (r: HeaderRead)
    requires f.Valid()
    modifies f
    ensures f.Valid()
    ensures old(f.Remaining()) >= HeaderBytes ==>
              r == Read(HeaderAt(f.data, old(f.pos))) && f.pos == old(f.pos) + HeaderBytes
    ensures old(f.Remaining()) < HeaderBytes ==> r == IoError && f.pos == |f.data|
  {
    var magic := ReadUint16(f);           if magic.None? { return IoError; }
    var fileSize := ReadUint32(f);        if fileSize.None? { return IoError; }
    var reserved1 := ReadUint16(f);       if reserved1.None? { return IoError; }
    var reserved2 := ReadUint16(f);       if reserved2.None? { return IoError; }
    var dataOffset := ReadUint32(f);      if dataOffset.None? { return IoError; }
    var headerSize := ReadUint32(f);      if headerSize.None? { return IoError; }
    var width := ReadUint32(f);           if width.None? { return IoError; }
    var height := ReadUint32(f);          if height.None? { return IoError; }
    var planes := ReadUint16(f);          if planes.None? { return IoError; }
    var bitsPerPixel := ReadUint16(f);    if bitsPerPixel.None? { return IoError; }
    var compressionType := ReadUint32(f); if compressionType.None? { return IoError; }
    var imageDataSize := ReadUint32(f);   if imageDataSize.None? { return IoError; }
    var hPixelsPerMeter := ReadUint32(f); if hPixelsPerMeter.None? { return IoError; }
    var vPixelsPerMeter := ReadUint32(f); if vPixelsPerMeter.None? { return IoError; }
    var colorsUsed := ReadUint32(f);      if colorsUsed.None? { return IoError; }
    var colorsRequired := ReadUint32(f);  if colorsRequired.None? { return IoError; }
    return Read(BmpHeader(
      magic.value, fileSize.value, reserved1.value, reserved2.value, dataOffset.value,
      headerSize.value, width.value, height.value, planes.value, bitsPerPixel.value,
      compressionType.value, imageDataSize.value, hPixelsPerMeter.value, vPixelsPerMeter.value,
      colorsUsed.value, colorsRequired.value));
  }
}
