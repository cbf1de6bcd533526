/** The little-endian field codecs of the BMP reader: how a 16- or 32-bit
    unsigned field is assembled from, and split into, its bytes, least
    significant byte first. */
module LittleEndian {

  type byte = x: int | 0 <= x < 0x100
  type u16 = x: int | 0 <= x < 0x1_0000
  type u32 = x: int | 0 <= x < 0x1_0000_0000

  /** The unsigned 32-bit value of a non-negative integer (C `unsigned int`
      arithmetic wraps modulo 2^32). */
  function Wrap32(x: nat): (r: u32)
    ensures x < 0x1_0000_0000 ==> r == x
    ensures exists k: nat :: x == k * 0x1_0000_0000 + r
  {
    var r := x % 0x1_0000_0000;
    assert x == (x / 0x1_0000_0000) * 0x1_0000_0000 + r;
    r
  }

  /** Division with remainder is unique. */
  lemma DivMod(q: int, r: int, d: int)
    requires d > 0 && 0 <= r < d
    ensures (q * d + r) / d == q && (q * d + r) % d == r
  {
    var x := q * d + r;
    var q', r' := x / d, x % d;
    assert q' * d + r' == q * d + r;
    if q > q' {
      MulAtLeast(q - q', d);
    } else if q < q' {
      MulAtLeast(q' - q, d);
    }
  }

  lemma MulAtLeast(a: int, d: int)
    requires a >= 1 && d > 0
    ensures a * d >= d
  {
    assert a * d == (a - 1) * d + d;
  }

  /** Dividing twice is dividing by the product. */
  lemma DivDiv(x: nat, d: int, e: int)
    requires d > 0 && e > 0
    ensures x / (d * e) == x / d / e
  {
    var q := x / d / e;
    var r := x / d % e;
    var s := x % d;
    assert x == (q * e + r) * d + s;
    assert x == q * (d * e) + (r * d + s);
    assert r * d + s < d * e by {
      assert r * d <= (e - 1) * d;
    }
    DivMod(q, r * d + s, d * e);
  }

  /** ReadUSHORT's assembly `little[1] << 8 | little[0]`: the two shifted
      bytes occupy disjoint bits, so the OR is a sum. */
  function DecodeUint16(b: seq<byte>): (x: u16)
    requires |b| == 2
    ensures x % 0x100 == b[0] && x / 0x100 == b[1]
  {
    b[1] as int * 0x100 + b[0]
  }

  /** ReadUINT's assembly
      `little[3] << 24 | little[2] << 16 | little[1] << 8 | little[0]`. */
  function DecodeUint32(b: seq<byte>): (x: u32)
    requires |b| == 4
    ensures x % 0x100 == b[0]
    ensures x / 0x100 % 0x100 == b[1]
    ensures x / 0x1_0000 % 0x100 == b[2]
    ensures x / 0x100_0000 == b[3]
  {
    var hi := b[3] as int * 0x100 + b[2];
    var mid := hi * 0x100 + b[1];
    var x := mid * 0x100 + b[0];
    DivMod(mid, b[0], 0x100);
    DivMod(hi, b[1], 0x100);
    DivMod(b[3], b[2], 0x100);
    DivDiv(x, 0x100, 0x100);
    DivDiv(x, 0x1_0000, 0x100);
    x
  }

  /** WriteUSHORT's split: `(x & 0x00ff) >> 0` first, `(x & 0xff00) >> 8`
      second. Reading the bytes back gives `x`. */
  function EncodeUint16(x: u16): (b: seq<byte>)
    ensures |b| == 2 && DecodeUint16(b) == x
  {
    [x % 0x100, x / 0x100]
  }

  /** WriteUINT's split: byte k is `(x & (0xff << 8k)) >> 8k`, least
      significant first. Reading the bytes back gives `x`. */
  function EncodeUint32(x: u32): (b: seq<byte>)
    ensures |b| == 4 && DecodeUint32(b) == x
  {
    var lo := x % 0x1_0000;
    var hi := x / 0x1_0000;
    [lo % 0x100, lo / 0x100, hi % 0x100, hi / 0x100]
  }

  /** Decoding loses nothing: the two bytes are recovered from the value. */
  lemma EncodeDecodeUint16(b: seq<byte>)
    requires |b| == 2
    ensures EncodeUint16(DecodeUint16(b)) == b
  {
  }

  /** Decoding loses nothing: the four bytes are recovered from the value. */
  lemma EncodeDecodeUint32(b: seq<byte>)
    requires |b| == 4
    ensures EncodeUint32(DecodeUint32(b)) == b
  {
  }

  /** Two byte pairs decode to the same 16-bit value only if they are equal. */
  lemma DecodeUint16Injective(a: seq<byte>, b: seq<byte>)
    requires |a| == 2 && |b| == 2
    ensures DecodeUint16(a) == DecodeUint16(b) <==> a == b
  {
    EncodeDecodeUint16(a);
    EncodeDecodeUint16(b);
  }

  /** Two byte quadruples decode to the same 32-bit value only if they are equal. */
  lemma DecodeUint32Injective(a: seq<byte>, b: seq<byte>)
    requires |a| == 4 && |b| == 4
    ensures DecodeUint32(a) == DecodeUint32(b) <==> a == b
  {
    EncodeDecodeUint32(a);
    EncodeDecodeUint32(b);
  }
}
