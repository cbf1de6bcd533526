# qdbmp BMP decoder — Dafny model

This project models the decoding core of the QDBMP filter (`qdbmp.c`), a
small Windows BMP reader wrapped as a GPAC media filter. For each input
packet it does these steps:

1. It opens the packet bytes as a read-only memory stream (`fmemopen`).
2. It reads the 54-byte header field by field, in little-endian order.
   The header is the 14-byte BITMAPFILEHEADER followed by the 40-byte
   BITMAPINFOHEADER.
3. It checks the magic number `"BM"`, then the variant: depth 32, 24, 8 or
   4, no compression, and a 40-byte info header.
4. For 8 and 4 bpp it reads a palette of 1024 or 64 bytes.
5. It allocates an output buffer of `width * height * 4` bytes.
6. For 32 bpp it copies the pixel bytes verbatim. It gives up with "not
   supported" for 24 and 8 bpp, and sends an unfilled buffer for 4 bpp.

The model is split into four modules:

- `LittleEndian` (`little_endian.dfy`) holds the byte codecs of ReadUINT,
  ReadUSHORT, WriteUINT and WriteUSHORT as pure functions. It proves the
  round trips in both directions.
- `MemStream` (`mem_stream.dfy`) is the `FILE*` that `fmemopen` returns. It
  is a class with an immutable byte sequence and a read position. Its
  `ReadInto` method is `fread`: it copies as many of the requested bytes as
  remain into an array and advances past them. A short read therefore
  consumes the rest of the stream.
- `Header` (`header.dfy`) holds the header record, the field readers and
  `ReadHeader`. `ReadHeader` is proved equal to `HeaderAt`, a reference
  definition that decodes each field at its fixed offset. `HeaderAt` and
  the field-by-field writer `EncodeHeader` are proved mutual inverses on
  54-byte sequences.
- `QdbmpFilter` (`filter.dfy`) holds the probe and the decode decision.
  `Decode` is a pure function of the input bytes and of the pixel format
  the output PID holds before the packet. `Process` is the
  imperative step: it keeps a mutable palette size, fills the palette and
  output arrays in place, and branches on the depth. It is proved to carry
  out exactly what `Decode` decides. The lemmas about `Decode` state the
  decoder's rules.

The header fields are `UINT` and `USHORT` values. The model takes `UINT` to
be 32 bits wide, as on a 32-bit target such as wasm32. Its arithmetic is
written out: `width * height * 4` and `4 * width` are taken modulo 2^32
(`Wrap32`).

The output PID's pixel format is state that outlives a packet. The PID is
configured as RGB, and a 32-bpp packet sets it to RGBX. Nothing in the process step
sets it back, so until the PID is configured again a 4-bpp frame is sent in
whatever format the previous frames left.

The model follows the code where it departs from what a complete BMP
decoder would do:

- Height is read as an unsigned `UINT`, and there is no row-order handling.
- `Planes` is never checked.
- A short header and a wrong magic both give "corrupted data". There is no
  separate I/O-error or invalid-magic outcome.
- 24 and 8 bpp are rejected as not supported after the palette check.
- 4 bpp succeeds with an unfilled buffer.
- The 32-bpp copy starts right after the 54-byte header, not at
  `DataOffset`.
- The output size is not checked against the input length.
- The probe requires at least 54 bytes, even when the input starts with
  "BM".

## Model

| member | source | states |
|---|---|---|
| `LittleEndian.DecodeUint16` | qdbmp.c:84 | the value's low byte is the first byte and its high byte the second (least significant first) |
| `LittleEndian.DecodeUint32` | qdbmp.c:60 | byte k of the value (k = 0..3, from the least significant) is the k-th input byte |
| `LittleEndian.EncodeUint16` | qdbmp.c:111-119 | WriteUSHORT's split yields 2 bytes that ReadUSHORT's assembly turns back into the value |
| `LittleEndian.EncodeUint32` | qdbmp.c:94-104 | WriteUINT's split yields 4 bytes that ReadUINT's assembly turns back into the value, for every 32-bit value |
| `LittleEndian.EncodeDecodeUint16` | qdbmp.c:84 | splitting a decoded 16-bit value gives back the same two bytes |
| `LittleEndian.EncodeDecodeUint32` | qdbmp.c:60 | splitting a decoded 32-bit value gives back the same four bytes |
| `LittleEndian.DecodeUint16Injective` | qdbmp.c:84 | two byte pairs decode to the same value if and only if they are equal |
| `LittleEndian.DecodeUint32Injective` | qdbmp.c:60 | two byte quadruples decode to the same value if and only if they are equal |
| `MemStream.Stream.Open` | qdbmp.c:274 | the stream reads the packet bytes from the first one |
| `MemStream.Stream.ReadInto` | qdbmp.c:310 | fread copies min(n, remaining) bytes into the front of the buffer, leaves the rest of the buffer alone, advances by that count and returns it |
| `Header.ReadUint16` | qdbmp.c:70-87 | with 2 bytes left it yields their little-endian value and advances by 2; otherwise it yields nothing and the stream is at its end |
| `Header.ReadUint32` | qdbmp.c:46-63 | with 4 bytes left it yields their little-endian value and advances by 4; otherwise it yields nothing and the stream is at its end |
| `Header.ReadHeader` | qdbmp.c:125-152 | succeeds if and only if 54 bytes remain, then consumes exactly 54 and yields the fields at their fixed offsets (Magic 0, FileSize 2, DataOffset 10, HeaderSize 14, Width 18, Height 22, Planes 26, BitsPerPixel 28, CompressionType 30, ...); otherwise an I/O error |
| `Header.HeaderAt` | qdbmp.c:134-149 | each field is the little-endian value of the bytes at its fixed offset: Magic 0-1, FileSize 2-5, DataOffset 10-13, HeaderSize 14-17, Width 18-21, Height 22-25, Planes 26-27, BitsPerPixel 28-29, CompressionType 30-33 |
| `Header.EncodeHeader` | qdbmp.c:134-149 | the sixteen fields written in read order take exactly 54 bytes |
| `Header.ReadEncodedFileHeader` | qdbmp.c:134-138 | the five file-header fields are read back from the offsets where they are written |
| `Header.ReadEncodedGeometry` | qdbmp.c:139-143 | header size, width, height, planes and depth are read back from where they are written |
| `Header.ReadEncodedImageInfo` | qdbmp.c:144-149 | compression, image size, resolutions and colour counts are read back from where they are written |
| `Header.ReadEncodedHeader` | qdbmp.c:125-152 | reading the header from the bytes of any header gives that header back |
| `Header.EncodeReadFileHeader` | qdbmp.c:134-138 | the 14 file-header bytes are recovered from the fields read there |
| `Header.EncodeReadGeometry` | qdbmp.c:139-143 | the 16 geometry bytes are recovered from the fields read there |
| `Header.EncodeReadImageInfo` | qdbmp.c:144-149 | the 24 remaining info-header bytes are recovered from the fields read there |
| `Header.EncodeReadHeader` | qdbmp.c:125-152 | every 54-byte sequence is the encoding of the header read from it, so the fields cover the header with no gap or overlap |
| `QdbmpFilter.ProbeData` | qdbmp.c:156-163 | reports "image/bmp" if and only if at least 54 bytes are present and the little-endian magic at offset 0 is 0x4D42 ("BM") |
| `QdbmpFilter.ProbeInspectsOnlyMagic` | qdbmp.c:158 | inputs of equal length that agree on their first two bytes get the same probe answer |
| `QdbmpFilter.ProbeDeclinedIsCorrupt` | qdbmp.c:276-282 | every input the probe declines is rejected by the process step as corrupted data |
| `QdbmpFilter.IsSupportedVariant` | qdbmp.c:288-290 | a supported header has no compression and a 40-byte info header, so the 14 + 40 header bytes read are the whole header and the palette or pixels follow them; its depth is one of 32, 24, 8 and 4, and it needs a palette exactly below 24 bpp |
| `QdbmpFilter.PaletteSize` | qdbmp.c:284-285 | a palette is read exactly for 8 and 4 bpp: 1024 bytes (256 entries) for 8 bpp and 64 bytes (16 entries) for 4 bpp, whole 4-byte entries |
| `QdbmpFilter.OutputSize` | qdbmp.c:324 | the buffer size is width*height*4 whenever that fits in 32 bits |
| `QdbmpFilter.Stride` | qdbmp.c:368 | the advertised stride is 4*width whenever that fits in 32 bits |
| `QdbmpFilter.ProductsWrap` | qdbmp.c:324 | for every header the buffer size is width*height*4 modulo 2^32 and the stride 4*width modulo 2^32 |
| `QdbmpFilter.OutputSizeWraps` | qdbmp.c:324 | a 0x40000000 x 1 image advertises that width with a stride of 0 and gets a 0-byte buffer, because both products wrap |
| `QdbmpFilter.Decode` | qdbmp.c:267-372 | an accepted frame's copied bytes fit in its buffer and are the input bytes starting at offset 54 |
| `QdbmpFilter.ReadPalette` | qdbmp.c:298-322 | no palette when the size is 0; otherwise success if and only if enough bytes remain, and then the palette is exactly the next palettesize bytes; on a short read there is no palette and the stream is at its end |
| `QdbmpFilter.Process` | qdbmp.c:267-372 | an input shorter than the header is corrupted data; a sent frame comes from a "BM" header and carries its width and height and a buffer of `OutputSize` bytes; in all cases the outcome realises `Decode`: the same error, or a frame with the decided width, height, stride and format (the PID's format before the packet for 4 bpp), a buffer of the decided size, and the copied bytes at its front |
| `QdbmpFilter.CorruptBeforeVariantCheck` | qdbmp.c:276-296 | a short input or a wrong magic is corrupted data whatever the variant fields hold |
| `QdbmpFilter.UnsupportedVariantRejected` | qdbmp.c:287-349 | with a valid magic the result is "not supported" exactly for an unsupported variant, or for 24 or 8 bpp once a palette needed by 8 bpp is complete; in particular a depth other than 32, 24, 8 or 4, a compression other than 0 or an info header other than 40 bytes is "not supported" |
| `QdbmpFilter.PaletteRule` | qdbmp.c:299-317 | for 8 and 4 bpp: corrupted data if and only if fewer palette bytes than needed follow the header; then 8 bpp is not supported and 4 bpp yields a frame with nothing copied, in the PID's current format |
| `QdbmpFilter.Copy32Bpp` | qdbmp.c:326-330 | 32 bpp yields an RGBX frame with stride 4*width, width*height*4 bytes (mod 2^32), and its buffer starts with the input bytes after the header, as many as fit and as many as there are |
| `QdbmpFilter.AcceptedInputs` | qdbmp.c:276-351 | a frame is produced only for a "BM" header with a 40-byte info header, no compression and depth 32 or 4; 32 bpp sends RGBX and 4 bpp keeps the PID's current format; width and height are the header's |
| `QdbmpFilter.NextFormat` | qdbmp.c:326-328 | the PID's format after a packet: a failed packet leaves it unchanged |
| `QdbmpFilter.FormatCarriesOver` | qdbmp.c:326-328 | a 4-bpp frame on a PID configured as RGB is sent as RGB, but after a 32-bpp frame the same input is sent as RGBX |
| `QdbmpFilter.NextFormatRgbx` | qdbmp.c:326-328 | after one packet the PID is RGBX if and only if it was RGBX before or the packet was an accepted 32-bpp frame |
| `QdbmpFilter.RgbxIsSticky` | qdbmp.c:326-328 | after any run of packets the PID is RGBX if and only if it started as RGBX or some packet of the run was an accepted 32-bpp frame; the process step never sets RGB back |
| `QdbmpFilter.FormatAfter` | qdbmp.c:326-328 | the PID's format after successive process calls is the fold of `NextFormat` over the packets; an empty run leaves the format unchanged |
| `QdbmpFilter.DecodeIgnoresUncheckedFields` | qdbmp.c:276-290 | inputs that agree on the magic, header size, width, height, depth, compression and everything after the header get the same decision, so DataOffset, Planes and FileSize have no effect |
| `QdbmpFilter.DeadStride24` | qdbmp.c:335-337 | unreachable code: the width rounded up to a multiple of 4 (less than 4 above it) when no wrap occurs, and 0 when the rounding wraps |

## Left out

- GPAC filter plumbing is not modelled: PID configuration, event handling, the capability table, filter registration, and packet fetch, EOS, property setting and sending. The model returns the frame's width, height, stride, pixel format and buffer instead, and takes the PID's pixel format before the packet as a parameter.
- Allocation failures are not modelled. These are the `GF_OUT_OF_MEM` paths for the BMP record and the palette, and a failed output packet allocation. Memory release is also left out. On the 24 and 8 bpp returns the source leaks the output packet, the open `FILE*`, the BMP record and, for 8 bpp, the palette.
- FormatAfter: the runs of packets it folds over lie between two configurations of the PID. `QDBMP_configure_pid`, which runs again when the input PID is reconfigured, sets the format back to RGB; reconfiguration is not modelled.
- FormatAfter: any sequence of packets is allowed. In the source a failed packet is not dropped (the input packet is dropped only on success), so the same packet comes back on the next process call; the model's runs over-approximate this.
- NULL-argument checks in ReadUINT, ReadUSHORT and ReadHeader (`BMP_INVALID_ARGUMENT`) are not modelled, because Dafny references are never null. A failed `fmemopen` is left out for the same reason.
- The global `BMP_LAST_ERROR_CODE` is not modelled. It is write-only, and the status is returned instead.
- WriteUINT and WriteUSHORT are modelled as pure encoders. Their `fwrite` and its return value are I/O.
- QdbmpFilter.Process: `palettesize` is uninitialised in the source for 24 and 32 bpp. The model takes 0, so no palette is read for those depths.
- QdbmpFilter.Process: output bytes the decoder never writes are left unspecified. These are the tail of a 32-bpp buffer on short input, and all of a 4-bpp buffer. The source leaves them as whatever the allocator returned.
- Header.ReadHeader: the header fields already filled before a short read are not modelled, because the only caller discards the header on failure.
- LittleEndian.DecodeUint32 gives the unsigned value of the four bytes. The C code shifts a promoted signed `int` left by 24, which is undefined for a top byte of 0x80 or more; the model uses the intended unsigned result.
- QdbmpFilter.DeadStride24 covers only the rounding. The conversion to `int`, the `diff` check against FileSize and the `printf` of the unreachable 24-bpp block are not modelled, since the block never runs.
- QdbmpFilter.OutputSize assumes a 32-bit `UINT`; the type is defined in `qdbmp.h`, which is not part of this model. With a 64-bit `UINT` (`unsigned long` on LP64 hosts) the `fread` count would not wrap, while the allocation size, a 32-bit parameter, still would.
- The commented-out decoder (row flip, BGR to RGB reorder, 8-bpp palette expansion) is not modelled, because it is not live code.
