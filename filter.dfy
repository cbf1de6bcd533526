/** The BMP decoding filter: the format probe, and the decision logic of the
    process step that turns one input packet (a whole BMP file) into one
    output frame. */
module QdbmpFilter {
  import opened LittleEndian
  import opened Optional
  import opened MemStream
  import opened Header

  /** "BM" read as a little-endian 16-bit value. */
  const BmpMagic: u16 := 0x4D42

  /** Palette bytes for 8 bpp (256 entries) and 4 bpp (16 entries), 4 bytes each. */
  const PaletteSize8Bpp: nat := 256 * 4
  const PaletteSize4Bpp: nat := 16 * 4

  /** What the probe reports: a supported MIME type with a "supported"
      score, or nothing (the score is left untouched). */
  datatype Probe = Declined | Supported(mime: string)

  /** The filter errors the process step returns. */
  datatype FilterError = CorruptedData | NotSupported

  /** Pixel format property of the output PID. It is set to `Rgb` when the
      PID is configured and to `Rgbx` by every 32-bpp packet; nothing in the
      process step sets it back, so between two configurations of the PID
      it carries over from one packet to the next. */
  datatype PixelFormat = Rgb | Rgbx

  /** The frame sent downstream, with the width, height and stride
      properties set on the output PID. */
  datatype Frame = Frame(width: u32, height: u32, stride: u32, format: PixelFormat, pixels: seq<byte>)

  datatype Outcome = Failed(err: FilterError) | Sent(frame: Frame)

  /** What the process step decides for an input: an error, or a frame of
      `size` bytes whose first bytes are `copied` (the rest of the output
      buffer is never written). */
  datatype Decision =
    | Reject(err: FilterError)
    | Accept(width: u32, height: u32, stride: u32, format: PixelFormat, size: u32, copied: seq<byte>)

  /** QDBMP_probe_data: a BMP when at least a header's worth of bytes is
      there and it starts with "BM". That is exactly when the header read
      by the process step succeeds with the right magic number. */
  function ProbeData(data: seq<byte>): (r: Probe)
    ensures r.Supported? ==> r.mime == "image/bmp"
    ensures r.Supported? <==> |data| >= HeaderBytes && HeaderAt(data, 0).magic == BmpMagic
  {
    if |data| >= HeaderBytes && data[0] == 'B' as int && data[1] == 'M' as int then
      assert data[0..2] == EncodeUint16(BmpMagic);
      Supported("image/bmp")
    else
      if |data| >= HeaderBytes then
        DecodeUint16Injective(data[0..2], EncodeUint16(BmpMagic));
        Declined
      else
        Declined
  }

  /** The probe looks at the length and the first two bytes only. */
  lemma ProbeInspectsOnlyMagic(a: seq<byte>, b: seq<byte>)
    requires |a| == |b| && |a| >= 2 && a[0] == b[0] && a[1] == b[1]
    ensures ProbeData(a) == ProbeData(b)
  {
  }

  /** The variant check: a known depth, no compression, a 40-byte info
      header. Planes is not looked at. A supported header is exactly the 54
      bytes the reader consumed, so the palette or the pixels follow it
      directly; the depth is one of 32, 24, 8 and 4, and a palette is
      needed exactly below 24 bpp. */
  function IsSupportedVariant(h: BmpHeader): (ok: bool)
    ensures ok ==> FileHeaderBytes + h.headerSize == HeaderBytes
    ensures ok ==> h.compressionType == 0 && h.bitsPerPixel in {32, 24, 8, 4}
    ensures ok ==> (PaletteSize(h.bitsPerPixel) > 0 <==> h.bitsPerPixel < 24)
    ensures h.headerSize != InfoHeaderBytes ==> !ok
  {
    (h.bitsPerPixel == 32 || h.bitsPerPixel == 24 || h.bitsPerPixel == 8 || h.bitsPerPixel == 4)
    && h.compressionType == 0 && h.headerSize == 40
  }

  /** Palette size by depth. The source leaves it uninitialised for other
      depths; the model takes 0 there (no palette read). */
  function PaletteSize(bitsPerPixel: u16): (n: nat)
    ensures n > 0 <==> bitsPerPixel == 8 || bitsPerPixel == 4
    ensures n % 4 == 0
    ensures bitsPerPixel == 8 ==> n == PaletteSize8Bpp == 1024
    ensures bitsPerPixel == 4 ==> n == PaletteSize4Bpp == 64
  {
    if bitsPerPixel == 8 then PaletteSize8Bpp
    else if bitsPerPixel == 4 then PaletteSize4Bpp
    else 0
  }

  /** `width * height * 4` in unsigned 32-bit arithmetic. */
  function OutputSize(h: BmpHeader): (n: u32)
    ensures h.width * h.height * 4 < 0x1_0000_0000 ==> n == h.width * h.height * 4
  {
    Wrap32(h.width * h.height * 4)
  }

  /** The advertised stride `4 * width` in unsigned 32-bit arithmetic. */
  function Stride(h: BmpHeader): (n: u32)
    ensures h.width < 0x4000_0000 ==> n == 4 * h.width
  {
    Wrap32(4 * h.width)
  }

  /** The decision the process step takes for one input packet, given the
      pixel format the output PID holds before it. */
  function Decode(data: seq<byte>, pidFormat: PixelFormat): (d: Decision)
    ensures d.Accept? ==> |d.copied| <= d.size
    ensures d.Accept? ==> HeaderBytes + |d.copied| <= |data|
                           && d.copied == data[HeaderBytes..HeaderBytes + |d.copied|]
  {
    if |data| < HeaderBytes then Reject(CorruptedData)
    else
      var h := HeaderAt(data, 0);
      if h.magic != BmpMagic then Reject(CorruptedData)
      else if !IsSupportedVariant(h) then Reject(NotSupported)
      else if |data| - HeaderBytes < PaletteSize(h.bitsPerPixel) then Reject(CorruptedData)
      else if h.bitsPerPixel == 24 || h.bitsPerPixel == 8 then Reject(NotSupported)
      else if h.bitsPerPixel == 32 then
        var size := OutputSize(h);
        Accept(h.width, h.height, Stride(h), Rgbx, size,
               data[HeaderBytes..HeaderBytes + Min(size, |data| - HeaderBytes)])
      else
        Accept(h.width, h.height, Stride(h), pidFormat, OutputSize(h), [])
  }

  /** An outcome carries out a decision: the same error, or a frame with the
      decided properties whose buffer starts with the copied bytes. */
  predicate Realises(out: Outcome, d: Decision) {
    match d
    case Reject(err) => out == Failed(err)
    case Accept(width, height, stride, format, size, copied) =>
      out.Sent? && out.frame.width == width && out.frame.height == height
      && out.frame.stride == stride && out.frame.format == format
      && |out.frame.pixels| == size && |copied| <= size
      && out.frame.pixels[..|copied|] == copied
  }

  /** Allocating and reading the palette: no palette when its size is 0;
      otherwise exactly the next `paletteSize` bytes, or a failure when
      fewer remain. */
  method ReadPalette(f: Stream, paletteSize: nat) returns (ok: bool, palette: Option<seq<byte>>)
    requires f.Valid()
    modifies f
    ensures f.Valid()
    ensures paletteSize == 0 ==> ok && palette == None && f.pos == old(f.pos)
    ensures paletteSize > 0 ==> (ok <==> old(f.Remaining()) >= paletteSize)
    ensures paletteSize > 0 && !ok ==> palette == None && f.pos == |f.data|
    ensures paletteSize > 0 && ok ==>
              f.pos == old(f.pos) + paletteSize
              && palette == Some(f.data[old(f.pos)..old(f.pos) + paletteSize])
  {
    if paletteSize > 0 {
      var buffer := new byte[paletteSize];
      var count := f.ReadInto(buffer, paletteSize);
      if count != paletteSize {
        return false, None;
      }
      assert buffer[..] == buffer[..count];
      return true, Some(buffer[..]);
    }
    return true, None;
  }

  /** QDBMP_process on one input packet: open the packet as a stream, read
      and check the header, read the palette, allocate the output and fill
      it according to the depth. `pidFormat` is the output PID's pixel
      format before the packet; a sent frame carries the format after it. */
  method Process(data: seq<byte>, pidFormat: PixelFormat) returns (out: Outcome)
    ensures |data| < HeaderBytes ==> out == Failed(CorruptedData)
    ensures out.Sent? ==>
              |data| >= HeaderBytes && HeaderAt(data, 0).magic == BmpMagic
              && out.frame.width == HeaderAt(data, 0).width
              && out.frame.height == HeaderAt(data, 0).height
              && |out.frame.pixels| == OutputSize(HeaderAt(data, 0))
    ensures Realises(out, Decode(data, pidFormat))
  {
    var f := new Stream.Open(data);
    var read := ReadHeader(f);
    if read.IoError? || read.header.magic != BmpMagic {
      return Failed(CorruptedData);
    }
    var h := read.header;

    // left uninitialised by the source for 24 and 32 bpp
    var paletteSize: nat := 0;
    if h.bitsPerPixel == 8 { paletteSize := PaletteSize8Bpp; }
    if h.bitsPerPixel == 4 { paletteSize := PaletteSize4Bpp; }

    if !IsSupportedVariant(h) {
      return Failed(NotSupported);
    }

    var ok, palette := ReadPalette(f, paletteSize);
    if !ok {
      return Failed(CorruptedData);
    }

    var size := OutputSize(h);
    var output := new byte[size];
    var format := pidFormat;
    match h.bitsPerPixel {
      case 32 =>
        format := Rgbx;
        // the number of bytes actually read is not checked
        var _ := f.ReadInto(output, size);
      case 24 =>
        return Failed(NotSupported);
      case 8 =>
        return Failed(NotSupported);
      case _ =>
    }
    return Sent(Frame(h.width, h.height, Stride(h), format, output[..]));
  }

  /** Rejection order: a short input or a wrong magic number is corrupted
      data whatever the depth, compression and header size say. */
  lemma CorruptBeforeVariantCheck(data: seq<byte>, fmt: PixelFormat)
    requires |data| < HeaderBytes || HeaderAt(data, 0).magic != BmpMagic
    ensures Decode(data, fmt) == Reject(CorruptedData)
  {
  }

  /** An input the probe declines is rejected as corrupted data. */
  lemma ProbeDeclinedIsCorrupt(data: seq<byte>, fmt: PixelFormat)
    requires ProbeData(data).Declined?
    ensures Decode(data, fmt) == Reject(CorruptedData)
  {
  }

  /** With a valid header, an unknown depth, any compression or an info
      header other than 40 bytes is not supported, however long the input. */
  lemma UnsupportedVariantRejected(data: seq<byte>, fmt: PixelFormat)
    requires |data| >= HeaderBytes && HeaderAt(data, 0).magic == BmpMagic
    ensures Decode(data, fmt) == Reject(NotSupported) <==>
              !IsSupportedVariant(HeaderAt(data, 0))
              || (HeaderAt(data, 0).bitsPerPixel in {24, 8}
                  && |data| - HeaderBytes >= PaletteSize(HeaderAt(data, 0).bitsPerPixel))
    ensures var h := HeaderAt(data, 0);
      h.bitsPerPixel !in {32, 24, 8, 4} || h.compressionType != 0 || h.headerSize != 40 ==>
        Decode(data, fmt) == Reject(NotSupported)
  {
  }

  /** For indexed depths the palette must follow the header in full: fewer
      remaining bytes is corrupted data. A complete palette then leads to
      "not supported" for 8 bpp and to an unfilled frame for 4 bpp, in
      the format the PID already has. */
  lemma PaletteRule(data: seq<byte>, fmt: PixelFormat)
    requires |data| >= HeaderBytes
    requires var h := HeaderAt(data, 0);
      h.magic == BmpMagic && IsSupportedVariant(h) && (h.bitsPerPixel == 8 || h.bitsPerPixel == 4)
    ensures var h := HeaderAt(data, 0);
      Decode(data, fmt) == Reject(CorruptedData) <==> |data| - HeaderBytes < PaletteSize(h.bitsPerPixel)
    ensures var h := HeaderAt(data, 0);
      h.bitsPerPixel == 8 && |data| - HeaderBytes >= PaletteSize8Bpp ==> Decode(data, fmt) == Reject(NotSupported)
    ensures var h := HeaderAt(data, 0);
      h.bitsPerPixel == 4 && |data| - HeaderBytes >= PaletteSize4Bpp ==>
        Decode(data, fmt) == Accept(h.width, h.height, Stride(h), fmt, OutputSize(h), [])
  {
  }

  /** 32 bpp: a frame of `width * height * 4` bytes (modulo 2^32) in RGBX,
      stride `4 * width`, whose bytes are the input bytes right after the
      54-byte header, as many as fit and as many as there are. */
  lemma Copy32Bpp(data: seq<byte>, fmt: PixelFormat)
    requires |data| >= HeaderBytes
    requires var h := HeaderAt(data, 0);
      h.magic == BmpMagic && IsSupportedVariant(h) && h.bitsPerPixel == 32
    ensures var h := HeaderAt(data, 0);
      var n := Min(OutputSize(h), |data| - HeaderBytes);
      Decode(data, fmt) == Accept(h.width, h.height, Stride(h), Rgbx, OutputSize(h), data[HeaderBytes..HeaderBytes + n])
    ensures var h := HeaderAt(data, 0);
      |data| >= HeaderBytes + OutputSize(h) ==>
        Decode(data, fmt).copied == data[HeaderBytes..HeaderBytes + OutputSize(h)]
  {
  }

  /** Only 32 and 4 bpp produce a frame, and only from a header that passed
      every check; 32 bpp sets RGBX, 4 bpp keeps the PID's format. */
  lemma AcceptedInputs(data: seq<byte>, fmt: PixelFormat)
    ensures Decode(data, fmt).Accept? ==> |data| >= HeaderBytes
    ensures Decode(data, fmt).Accept? ==> var h := HeaderAt(data, 0);
      h.magic == BmpMagic && h.headerSize == 40 && h.compressionType == 0
      && (h.bitsPerPixel == 32 || h.bitsPerPixel == 4)
      && (h.bitsPerPixel == 32 ==> Decode(data, fmt).format == Rgbx)
      && (h.bitsPerPixel == 4 ==> Decode(data, fmt).format == fmt)
      && Decode(data, fmt).width == h.width && Decode(data, fmt).height == h.height
  {
  }

  /** The header bytes the decision depends on: the magic number, the info
      header size, width, height, depth and compression. File size,
      reserved words, data offset, planes, image size, resolution and colour
      counts are never looked at. */
  predicate IsCheckedByte(i: nat) {
    i < 2 || (14 <= i < 26) || (28 <= i < 34) || i >= HeaderBytes
  }

  /** Two inputs of the same length that agree on the checked header bytes
      and on everything after the header get the same decision: in
      particular the pixel copy ignores DataOffset and Planes is never
      validated. */
  lemma DecodeIgnoresUncheckedFields(a: seq<byte>, b: seq<byte>, fmt: PixelFormat)
    requires |a| == |b|
    requires forall i | 0 <= i < |a| && IsCheckedByte(i) :: a[i] == b[i]
    ensures Decode(a, fmt) == Decode(b, fmt)
  {
    if |a| >= HeaderBytes {
      assert a[0..2] == b[0..2];
      assert a[14..18] == b[14..18];
      assert a[18..22] == b[18..22];
      assert a[22..26] == b[22..26];
      assert a[28..30] == b[28..30];
      assert a[30..34] == b[30..34];
      assert a[HeaderBytes..] == b[HeaderBytes..];
      var ha, hb := HeaderAt(a, 0), HeaderAt(b, 0);
      assert ha.magic == hb.magic && ha.headerSize == hb.headerSize;
      assert ha.width == hb.width && ha.height == hb.height;
      assert ha.bitsPerPixel == hb.bitsPerPixel && ha.compressionType == hb.compressionType;
    }
  }

  /** The pixel format of the output PID after a packet: a sent frame's
      format; a failed packet leaves it as it was. */
  function NextFormat(pidFormat: PixelFormat, d: Decision): (next: PixelFormat)
    ensures d.Reject? ==> next == pidFormat
  {
    if d.Accept? then d.format else pidFormat
  }

  /** The format carries over: after a 32-bpp frame, a later 4-bpp frame
      with no reconfiguration of the PID in between is sent as RGBX, although a 4-bpp frame on a freshly configured PID is
      sent as RGB. */
  lemma FormatCarriesOver(first: seq<byte>, second: seq<byte>)
    requires |first| >= HeaderBytes && |second| >= HeaderBytes
    requires var h := HeaderAt(first, 0);
      h.magic == BmpMagic && IsSupportedVariant(h) && h.bitsPerPixel == 32
    requires var h := HeaderAt(second, 0);
      h.magic == BmpMagic && IsSupportedVariant(h) && h.bitsPerPixel == 4
      && |second| - HeaderBytes >= PaletteSize4Bpp
    ensures Decode(second, Rgb).format == Rgb
    ensures Decode(second, NextFormat(Rgb, Decode(first, Rgb))).format == Rgbx
  {
    Copy32Bpp(first, Rgb);
    PaletteRule(second, Rgbx);
  }

  /** An input that the process step accepts as a 32-bpp frame, which sets
      the PID's format to RGBX. Whether a packet is accepted does not depend
      on the format the PID holds. */
  predicate SetsRgbx(data: seq<byte>) {
    |data| >= HeaderBytes && HeaderAt(data, 0).bitsPerPixel == 32 && Decode(data, Rgb).Accept?
  }

  /** The PID's pixel format after a run of packets, starting from `pidFormat`. */
  function FormatAfter(pidFormat: PixelFormat, packets: seq<seq<byte>>): (fmt: PixelFormat)
    ensures |packets| == 0 ==> fmt == pidFormat
  {
    if |packets| == 0 then pidFormat
    else
      var before := FormatAfter(pidFormat, packets[..|packets| - 1]);
      NextFormat(before, Decode(packets[|packets| - 1], before))
  }

  /** One packet sets RGBX exactly when it is a 32-bpp frame, and a PID
      that is RGBX stays so. */
  lemma NextFormatRgbx(before: PixelFormat, data: seq<byte>)
    ensures NextFormat(before, Decode(data, before)) == Rgbx <==> before == Rgbx || SetsRgbx(data)
  {
    AcceptedInputs(data, before);
    AcceptedInputs(data, Rgb);
  }

  /** RGBX is sticky: after a run of packets the PID is RGBX exactly when it
      was before the run or some packet of the run was a 32-bpp frame. */
  lemma {:induction false} RgbxIsSticky(pidFormat: PixelFormat, packets: seq<seq<byte>>)
    ensures FormatAfter(pidFormat, packets) == Rgbx <==>
              pidFormat == Rgbx || exists i :: 0 <= i < |packets| && SetsRgbx(packets[i])
  {
    if |packets| > 0 {
      var n := |packets| - 1;
      var init := packets[..n];
      RgbxIsSticky(pidFormat, init);
      NextFormatRgbx(FormatAfter(pidFormat, init), packets[n]);
    }
  }

  /** Both products are taken modulo 2^32, as unsigned 32-bit `UINT`
      arithmetic does. */
  lemma ProductsWrap(h: BmpHeader)
    ensures OutputSize(h) == h.width * h.height * 4 % 0x1_0000_0000
    ensures Stride(h) == 4 * h.width % 0x1_0000_0000
  {
  }

  /** The output size wraps: a 0x40000000 x 1 image at 32 bpp advertises
      that width with a stride of 0 and a 0-byte buffer. */
  lemma OutputSizeWraps(h: BmpHeader)
    requires h.width == 0x4000_0000 && h.height == 1
    ensures OutputSize(h) == 0 && h.width * h.height * 4 == 0x1_0000_0000
    ensures Stride(h) == 0 && 4 * h.width == 0x1_0000_0000
  {
  }

  /** The row-stride rounding in the unreachable code after the 24-bpp
      `return` (dead code): the width rounded up to a multiple of 4, in
      unsigned 32-bit arithmetic. */
  function DeadStride24(width: u32): (stride: u32)
    ensures stride % 4 == 0
    ensures width <= 0xFFFF_FFFC ==> width <= stride < width + 4
    ensures width > 0xFFFF_FFFC ==> stride == 0
  {
    if width % 4 != 0 then Wrap32(width + (4 - width % 4)) else width
  }
}
