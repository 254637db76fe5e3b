/** The bit layouts the decoders read: the sign bit, the 15-bit exponent
    field of the extended and quadruple formats, and the mantissa field that
    follows them, together with what the decoders keep of each. Input
    buffers are big-endian: byte 0 holds the sign bit. */
module Formats {
  import opened Bytes

  /** Bit 7 of a byte: the sign bit of a format's leading byte. It is set
      exactly in the bytes worth 128 or more. */
  function TopBit(b: bv8): (set7: bool)
    ensures set7 <==> Num(b) >= 128
  {
    NumIsValue(b);
    b & 0x80 != 0
  }

  // ---------------------------------------------------------------------
  // Mantissa fields

  /** Bytes spanned by a mantissa field of `size` bits: size/8, rounded up. */
  function MantissaCount(size: nat): (n: nat)
    ensures 8 * n - 8 < size <= 8 * n
  {
    if size % 8 != 0 then size / 8 + 1 else size / 8
  }

  /** The mask with bits 0 .. k-1 set. */
  function LowBits(k: nat): bv8
    requires k <= 8
  {
    match k
    case 0 => 0x00 case 1 => 0x01 case 2 => 0x03 case 3 => 0x07 case 4 => 0x0F
    case 5 => 0x1F case 6 => 0x3F case 7 => 0x7F case _ => 0xFF
  }

  /** Masking with LowBits(k) keeps the value modulo 2^k. */
  lemma LowBitsMod(b: bv8, k: nat)
    requires 1 <= k <= 7
    ensures Num(b & LowBits(k)) == Num(b) % Pow2(k)
  {
    var masked := b & LowBits(k);
    NumIsValue(b);
    NumIsValue(masked);
    MaskedValue(b, k);
  }

  lemma MaskedValue(b: bv8, k: nat)
    requires 1 <= k <= 7
    ensures (b & LowBits(k)) as nat == b as nat % Pow2(k)
  {
    var p := Pow2(k);
    assert Pow2(1) == 2 && Pow2(2) == 4 && Pow2(3) == 8 && Pow2(4) == 16;
    assert Pow2(5) == 32 && Pow2(6) == 64 && Pow2(7) == 128;
    assert LowBits(k) as nat == p - 1;
    MaskMod(b, LowBits(k), p);
  }

  lemma MaskMod(b: bv8, mask: bv8, p: nat)
    requires (p == 2 && mask == 1)
          || (p == 4 && mask == 3)
          || (p == 8 && mask == 7)
          || (p == 16 && mask == 15)
          || (p == 32 && mask == 31)
          || (p == 64 && mask == 63)
          || (p == 128 && mask == 127)
    ensures (b & mask) as nat == b as nat % p
  {
    if p == 2 { Mask1(b); }
    else if p == 4 { Mask3(b); }
    else if p == 8 { Mask7(b); }
    else if p == 16 { Mask15(b); }
    else if p == 32 { Mask31(b); }
    else if p == 64 { Mask63(b); }
    else if p == 128 { Mask127(b); }
  }

  // One bit-blasting fact per mask width, each checked on its own.
  lemma Mask1(b: bv8) ensures (b & 1) as nat == b as nat % 2 {}
  lemma Mask3(b: bv8) ensures (b & 3) as nat == b as nat % 4 {}
  lemma Mask7(b: bv8) ensures (b & 7) as nat == b as nat % 8 {}
  lemma Mask15(b: bv8) ensures (b & 15) as nat == b as nat % 16 {}
  lemma Mask31(b: bv8) ensures (b & 31) as nat == b as nat % 32 {}
  lemma Mask63(b: bv8) ensures (b & 63) as nat == b as nat % 64 {}
  lemma Mask127(b: bv8) ensures (b & 127) as nat == b as nat % 128 {}

  /** How many bits of the leading byte belong to the stored field: for a
      byte-aligned field all but bit 7, which the decoder takes for the
      normalisation bit (the explicit integer bit of the 80-bit extended
      format; in binary128 it is the top fraction bit); otherwise the size % 8
      low bits, the rest belonging to the exponent. */
  function LeadBits(size: nat): (k: nat)
    ensures 1 <= k <= 7
  {
    if size % 8 == 0 then 7 else size % 8
  }

  /** The leading mantissa byte as stored: bit 7 cleared for byte-aligned
      sizes, masked to the field's bits otherwise. */
  function LeadByte(m0: bv8, size: nat): (b: bv8)
    ensures Num(b) == Num(m0) % Pow2(LeadBits(size))
  {
    LeadByteMasks(m0, size);
    if size % 8 == 0 then m0 & 0x7F else m0 & LowBits(size % 8)
  }

  lemma LeadByteMasks(m0: bv8, size: nat)
    ensures Num(if size % 8 == 0 then m0 & 0x7F else m0 & LowBits(size % 8))
            == Num(m0) % Pow2(LeadBits(size))
  {
    if size % 8 == 0 {
      LowSeven(m0);
      assert Pow2(7) == 128 by {
        assert Pow2(4) == 16;
      }
    } else {
      LowBitsMod(m0, size % 8);
    }
  }

  /** The bytes fromIEEEMantissa stores: the MantissaCount(size) bytes of the
      field in input order, the leading one passed through LeadByte. */
  function MantissaBytes(m: seq<bv8>, size: nat): (r: seq<bv8>)
    requires MantissaCount(size) <= |m|
    ensures |r| == MantissaCount(size)
    ensures forall i :: 1 <= i < |r| ==> r[i] == m[i]
  {
    var n := MantissaCount(size);
    if n == 0 then [] else [LeadByte(m[0], size)] + m[1..n]
  }

  /** The first stored byte is the leading byte passed through LeadByte. */
  lemma MantissaBytesHead(m: seq<bv8>, size: nat)
    requires 1 <= MantissaCount(size) <= |m|
    ensures MantissaBytes(m, size)[0] == LeadByte(m[0], size)
  {
  }

  /** Setting bit k of the k-bit mask gives the (k+1)-bit mask. */
  lemma LowBitsStep(k: nat)
    requires 1 <= k < 8
    ensures LowBits(k) | (1 << k) == LowBits(k + 1)
  {
    if k == 1 { assert LowBits(1) == 1 && LowBits(2) == 3; }
    else if k == 2 { assert LowBits(2) == 3 && LowBits(3) == 7; }
    else if k == 3 { assert LowBits(3) == 7 && LowBits(4) == 15; }
    else if k == 4 { assert LowBits(4) == 15 && LowBits(5) == 31; }
    else if k == 5 { assert LowBits(5) == 31 && LowBits(6) == 63; }
    else if k == 6 { assert LowBits(6) == 63 && LowBits(7) == 127; }
    else { assert LowBits(7) == 127 && LowBits(8) == 255; }
  }

  /** LowBits(k) denotes 2^k - 1. */
  lemma LowBitsValue(k: nat)
    requires 1 <= k <= 8
    ensures Num(LowBits(k)) + 1 == Pow2(k)
  {
    NumIsValue(LowBits(k));
    assert Pow2(1) == 2 && Pow2(2) == 4 && Pow2(3) == 8 && Pow2(4) == 16;
    assert Pow2(5) == 32 && Pow2(6) == 64 && Pow2(7) == 128 && Pow2(8) == 256;
  }

  /** Number of field bits the stored mantissa keeps. */
  function FieldBits(size: nat): nat
    requires 0 < size
  {
    8 * (MantissaCount(size) - 1) + LeadBits(size)
  }

  /** A byte-aligned field loses bit 7 of its first byte; any other keeps all its bits. */
  lemma FieldBitsOfSize(size: nat)
    requires size > 0
    ensures FieldBits(size) == if size % 8 == 0 then size - 1 else size
  {
  }

  // ---------------------------------------------------------------------
  // Big-endian reading

  /** The number a big-endian buffer denotes: byte 0 is the most significant. */
  function BigEndian(s: seq<bv8>): nat
  {
    if |s| == 0 then 0 else Num(s[0]) * Pow256(|s| - 1) + BigEndian(s[1..])
  }

  lemma {:induction false} BigEndianBound(s: seq<bv8>)
    ensures BigEndian(s) < Pow256(|s|)
  {
    if |s| > 0 {
      BigEndianBound(s[1..]);
      var p := Pow256(|s| - 1);
      MulLe(Num(s[0]), 255, p);
      assert Pow256(|s|) == 256 * p;
    }
  }

  /** 2^FieldBits(size) splits into the leading byte's part and whole bytes. */
  lemma FieldPower(size: nat)
    requires 0 < size
    ensures Pow2(FieldBits(size)) == Pow2(LeadBits(size)) * Pow256(MantissaCount(size) - 1)
  {
    Pow2Split(FieldBits(size), MantissaCount(size) - 1, LeadBits(size));
  }

  /** Pow2Bytes with the exponent given by name. */
  lemma Pow2Split(f: nat, n: nat, a: nat)
    requires f == 8 * n + a
    ensures Pow2(f) == Pow2(a) * Pow256(n)
  {
    Pow2Bytes(n, a);
  }

  /** The digit step of MantissaField, on plain integers. */
  lemma TruncateLead(m0: nat, j: nat, p: nat, rest: nat)
    requires j >= 1 && p >= 1 && rest < p
    ensures (m0 * p + rest) % (j * p) == (m0 % j) * p + rest
  {
    var a, c := m0 / j, m0 % j;
    assert m0 * p == a * (j * p) + c * p by {
      assert m0 == a * j + c;
      assert (a * j + c) * p == a * (j * p) + c * p;
    }
    assert c * p + rest < j * p by {
      MulLe(c, j - 1, p);
      assert (j - 1) * p == j * p - p;
    }
    DivModUnique(m0 * p + rest, j * p, a, c * p + rest);
  }

  /** The stored mantissa bytes, read big-endian, are exactly the low
      FieldBits(size) bits of the input field: nothing of the exponent that
      shares the leading byte, and not bit 7 of an aligned field's first byte. */
  lemma MantissaField(m: seq<bv8>, size: nat)
    requires 0 < size && MantissaCount(size) <= |m|
    ensures BigEndian(MantissaBytes(m, size))
         == BigEndian(m[..MantissaCount(size)]) % Pow2(FieldBits(size))
  {
    var n := MantissaCount(size);
    var r, t := MantissaBytes(m, size), m[1..n];
    var p, j := Pow256(n - 1), Pow2(LeadBits(size));
    assert r[1..] == t && m[..n][1..] == t;
    assert BigEndian(r) == Num(r[0]) * p + BigEndian(t);
    assert BigEndian(m[..n]) == Num(m[0]) * p + BigEndian(t);
    assert Num(r[0]) == Num(m[0]) % j by {
      MantissaBytesHead(m, size);
    }
    BigEndianBound(t);
    FieldPower(size);
    TruncateLead(Num(m[0]), j, p, BigEndian(t));
  }

  // ---------------------------------------------------------------------
  // Sign and exponent header of the extended and quadruple formats

  /** The scale the extended and quadruple decoders store, as written:
      ((hi & 0x7F) << 8) ^ (1 << 7), then plus lo. The shifted value fits in
      16 bits, so a 16-bit word holds it without loss. The scale is the
      15-bit exponent field plus 128: the XOR only sets bit 7, which the
      shifted field leaves clear, and no bias is removed. */
  function ExponentScale(hi: bv8, lo: bv8): (scale: nat)
    ensures scale == 128 + (Num(hi) % 128) * 256 + Num(lo)
  {
    ShiftedExponent(hi);
    LowSeven(hi);
    Num16((((hi & 0x7F) as bv16) << 8) ^ 0x80) + Num(lo)
  }

  /** The shifted field with bit 7 set denotes 128 plus 256 times the field. */
  lemma ShiftedExponent(hi: bv8)
    ensures Num16(((hi & 0x7F) as bv16 << 8) ^ 0x80) == 128 + 256 * Num(hi & 0x7F)
  {
    var w: bv16 := ((hi & 0x7F) as bv16 << 8) ^ 0x80;
    assert (w >> 8) as bv8 == hi & 0x7F;
    assert (w & 0xFF) as bv8 == 0x80;
    NumIsValue(0x80);
  }

  /** Clearing bit 7 keeps the value modulo 128. */
  lemma LowSeven(b: bv8)
    ensures Num(b & 0x7F) == Num(b) % 128
  {
    LowBitsMod(b, 7);
    assert LowBits(7) == 0x7F;
  }

  /** Header and field bytes rebuilt from what a decoder stores. */
  function PackFields(negative: bool, scale: nat, mantissa: seq<bv8>): (r: seq<bv8>)
    requires 128 <= scale < 128 + 0x8000
    ensures |r| == 2 + |mantissa|
  {
    var e := scale - 128;
    [(if negative then 0x80 else 0) | AsByte(e / 256), AsByte(e % 256)] + mantissa
  }

  /** For byte-aligned mantissas (the 64-bit extended and 112-bit quadruple
      fields), sign, scale and stored mantissa determine every input byte
      the decoder reads except bit 7 of the field's first byte: decoding
      loses that bit and nothing else. For the extended format that bit is
      the explicit integer bit; for binary128 it is a fraction bit, and
      AsWritten.QuadrupleDropsFractionBit shows the loss. (The code as
      written inverts that bit instead; see AsWritten.) */
  lemma DecodeRoundTrip(data: seq<bv8>, size: nat)
    requires 0 < size && size % 8 == 0 && 2 + size / 8 <= |data|
    ensures 128 <= ExponentScale(data[0], data[1]) < 128 + 0x8000
    ensures PackFields(TopBit(data[0]), ExponentScale(data[0], data[1]), MantissaBytes(data[2..], size))
         == data[..2] + [data[2] & 0x7F] + data[3..2 + size / 8]
  {
    HeaderRoundTrip(data[0], data[1]);
    var sign, sc := TopBit(data[0]), ExponentScale(data[0], data[1]);
    var m := MantissaBytes(data[2..], size);
    var tail := data[3..2 + size / 8];
    StoredAligned(data, size);
    PackAppend(sign, sc, m);
    assert data[..2] == [data[0], data[1]];
    Regroup([data[0], data[1]], [data[2] & 0x7F], tail);
  }

  /** The 112-bit trailing significand of a binary128 value (section 3.4 of
      IEEE 754-2008): the fourteen bytes after the sign and exponent, none of
      them an integer bit, so all of them are kept. */
  function Binary128Fraction(data: seq<bv8>): (r: seq<bv8>)
    requires |data| >= 16
    ensures |r| == 14
  {
    data[2..16]
  }

  /** Kept whole, the fraction together with sign and scale gives back every
      one of the sixteen input bytes: no two binary128 inputs collide. */
  lemma Binary128RoundTrip(data: seq<bv8>)
    requires |data| >= 16
    ensures 128 <= ExponentScale(data[0], data[1]) < 128 + 0x8000
    ensures PackFields(TopBit(data[0]), ExponentScale(data[0], data[1]), Binary128Fraction(data)) == data[..16]
  {
    assert data[..16] == [data[0], data[1]] + data[2..16];
    PackHeader(data[0], data[1], data[2..16]);
  }

  /** Header bytes come back ahead of whatever bytes follow them. */
  lemma PackHeader(hi: bv8, lo: bv8, rest: seq<bv8>)
    ensures 128 <= ExponentScale(hi, lo) < 128 + 0x8000
    ensures PackFields(TopBit(hi), ExponentScale(hi, lo), rest) == [hi, lo] + rest
  {
    HeaderRoundTrip(hi, lo);
    PackAppend(TopBit(hi), ExponentScale(hi, lo), rest);
  }

  // ---------------------------------------------------------------------
  // Motorola Fast Floating Point, single precision

  /** The sign of an FFP32 value: bit 7 of byte 3, the byte it shares with
      the excess-64 exponent; bytes 0 to 2 hold the 24-bit mantissa, whose
      top bit is set in every non-zero value. */
  function FFP32Sign(data: seq<bv8>): bool
    requires |data| >= 4
  {
    TopBit(data[3])
  }

  /** Sign and exponent split byte 3 between them: the byte comes back from
      the sign and its low seven bits, and no mantissa byte is involved. */
  lemma FFP32SignByte(data: seq<bv8>)
    requires |data| >= 4
    ensures (if FFP32Sign(data) then 0x80 else 0) | (data[3] & 0x7F) == data[3]
  {
    HeaderByte(data[3]);
  }

  /** What the decoders store of an aligned field that follows a two-byte header. */
  lemma StoredAligned(data: seq<bv8>, size: nat)
    requires 0 < size && size % 8 == 0 && 2 + size / 8 <= |data|
    ensures MantissaBytes(data[2..], size) == [data[2] & 0x7F] + data[3..2 + size / 8]
  {
    AlignedMantissa(data[2..], size);
    assert data[2..][1..size / 8] == data[3..2 + size / 8];
  }

  lemma Regroup(x: seq<bv8>, y: seq<bv8>, z: seq<bv8>)
    ensures x + (y + z) == x + y + z
  {
  }

  lemma PackAppend(negative: bool, scale: nat, mantissa: seq<bv8>)
    requires 128 <= scale < 128 + 0x8000
    ensures PackFields(negative, scale, mantissa) == PackFields(negative, scale, []) + mantissa
  {
  }

  /** A byte-aligned field is stored with only bit 7 of its first byte cleared. */
  lemma AlignedMantissa(m: seq<bv8>, size: nat)
    requires 0 < size && size % 8 == 0 && size / 8 <= |m|
    ensures MantissaCount(size) == size / 8
    ensures MantissaBytes(m, size) == [m[0] & 0x7F] + m[1..size / 8]
  {
    assert LeadByte(m[0], size) == m[0] & 0x7F;
  }

  /** The two header bytes come back from the sign and the stored scale. */
  lemma HeaderRoundTrip(hi: bv8, lo: bv8)
    ensures 128 <= ExponentScale(hi, lo) < 128 + 0x8000
    ensures PackFields(TopBit(hi), ExponentScale(hi, lo), []) == [hi, lo]
  {
    ScaleDigits(hi, lo);
    HeaderByte(hi);
  }

  /** The stored scale, less 128, splits back into the exponent's two bytes. */
  lemma ScaleDigits(hi: bv8, lo: bv8)
    ensures 128 <= ExponentScale(hi, lo) < 128 + 0x8000
    ensures (ExponentScale(hi, lo) - 128) / 256 < 256
    ensures AsByte((ExponentScale(hi, lo) - 128) / 256) == hi & 0x7F
    ensures AsByte((ExponentScale(hi, lo) - 128) % 256) == lo
  {
    var e := ExponentScale(hi, lo) - 128;
    assert e / 256 == Num(hi) % 128 && e % 256 == Num(lo) by {
      DivModUnique(e, 256, Num(hi) % 128, Num(lo));
    }
    LowSeven(hi);
    SameByte(AsByte(e / 256), hi & 0x7F);
    SameByte(AsByte(e % 256), lo);
  }

  /** Rebuilding a header byte from its sign bit and its low seven bits. */
  lemma HeaderByte(b: bv8)
    ensures (if TopBit(b) then 0x80 else 0) | (b & 0x7F) == b
  {
  }
}
