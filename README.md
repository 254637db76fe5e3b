# CBigValue in Dafny

A model of `CBigValue`, a sign-magnitude number held as a little-endian byte
buffer (`m_pBuffer`, `m_nBufferSize`) with an unsigned scale (`m_nScale`)
and a sign flag (`m_bNegative`), and of the operations that fill and combine
such buffers: buffer creation and growth, the `int64_t`/`uint64_t`
constructors, the IEEE mantissa helper, the FFP32, 80-bit extended and
128-bit quadruple decoders, the raw buffer load, and `operator+`.

Files:

- `bytes.dfy` (module `Bytes`): what a buffer denotes. `Value(s)` is
  the sum of `s[i] * 256^i`. `LittleEndian(v, n)` gives the n low bytes of `v`,
  and byte k is `(v & (0xFF << 8k)) >> 8k`, with `&` and `>>` defined on
  unsigned numbers (`BitAnd`, `Shr`). The module proves the round trips
  between the two, zero extension, and bounds.
- `formats.dfy` (module `Formats`): the bit layouts the decoders read.
  - the sign bit;
  - the bytes `fromIEEEMantissa` keeps (`MantissaCount`, `LeadByte`, `MantissaBytes`);
  - the scale the extended and quadruple decoders compute (`ExponentScale`).

  It also proves what is kept of the input:
  - `MantissaField`: the stored mantissa is the field modulo `2^FieldBits`;
  - `DecodeRoundTrip`: for byte-aligned fields, header and mantissa come back
    from sign, scale and stored bytes, all but bit 7 of the field's first
    byte. For the extended format that bit is the explicit integer bit; for
    binary128 it is a fraction bit (see Findings).
- `bigvalue.dfy` (module `BigValues`): class `BigValue` with the four fields.
  - Every core operation is a constructor or a method that updates them in place.
  - The byte loops are written as loops over arrays, each proved against a
    specification function: `LittleEndian`, `MantissaBytes`, and
    `AddSteps`/`AddSum` for the addition.
  - Lemmas tie the addition to the sum of the operands' values.
- `aswritten.dfy` (module `AsWritten`): the code paths listed under Findings,
  modelled as written, with the inputs on which they go wrong.
- `demo.dfy` (module `Demo`): the values the `arbitrarymath` demo builds, and
  the carry example `[0xFF] + [0x01] == [0x00, 0x01]`.

Where the code disagrees with its comments, or with the format it reads,
the model follows the intent, and Findings records each such place. The
one exception is the binary128 fraction bit, listed under Left out.
Elsewhere the model follows the code:

- **FFP32 buffer.** `fromFFP32` leaves the buffer zero. On a non-zero input
  it also leaves the scale as it was, because the exponent and mantissa it
  computes are never stored.
- **Extended and quadruple scale.** The stored scale is
  `((data[0] & 0x7F) << 8) ^ 0x80` plus `data[1]`. That is the 15-bit
  exponent field plus 128; no bias is removed.
- **Mantissa byte order.** Mantissa bytes are stored in input order, with
  no byte reversal.
- **Leading-byte mask.** For a mantissa that is not byte-aligned, the
  leading byte keeps its `size % 8` low bits, as the comment at
  BigValue/BigValue.cpp:99-100 describes ("mask of suitable size"). The
  formula written there is dealt with under Findings.

## Model

| member | source | states |
|---|---|---|
| BigValues.BigValue.Bytes | BigValue/BigValue.h:35-36 | the buffer's bytes in index order, exactly `m_nBufferSize` many |
| BigValues.BigValue.constructor | BigValue/BigValue.cpp:226-231 | the default value has no buffer, is positive and has scale 0 |
| BigValues.BigValue.CreateBuffer | BigValue/BigValue.cpp:34-39 | a fresh buffer of exactly n zero bytes with `m_nBufferSize == n`; sign and scale unchanged |
| BigValues.BigValue.GrowBuffer | BigValue/BigValue.cpp:41-62 | no buffer: as CreateBuffer; n larger: a fresh buffer holding every old byte at its offset and zeros above, so the value is unchanged; otherwise buffer and bytes unchanged |
| Bytes.ValueZeroExtend | BigValue/BigValue.cpp:49-51 | zero bytes added at the high end leave the buffer's value unchanged |
| BigValues.BigValue.FromUInt64 | BigValue/BigValue.cpp:161-186 | eight bytes, byte i stored as `(v & bitmask) >> (maskshift * 8)` with the mask shifted 8 bits per byte, which are the little-endian encoding of v; positive, scale 0 |
| Bytes.MaskedShift | BigValue/BigValue.cpp:139-143 | `(value & bitmask) >> (maskshift * 8)` stored into a `uint8_t`: the low eight bits of the masked value shifted right; the same masked byte is the operand of `~` at line 139, and line 175 stores it for the `uint64_t` constructor. Its meaning as a base-256 digit is given by MaskedShiftByte |
| Bytes.MaskedShiftByte | BigValue/BigValue.cpp:175 | `(v & (0xFF << 8k)) >> 8k`, cut to a byte, is digit k of v in base 256 |
| Bytes.MaskedDigit | BigValue/BigValue.cpp:175 | masking with `0xFF * 256^k` and shifting right by 8k leaves `(v / 256^k) mod 256` |
| Bytes.BitAndLow | BigValue/BigValue.cpp:175 | and-ing with `2^n - 1` keeps v modulo 2^n |
| Bytes.BitAndShifted | BigValue/BigValue.cpp:175 | and-ing with a mask shifted left by j bits equals and-ing v shifted right by j with the mask, shifted back |
| BigValues.NextMask | BigValue/BigValue.cpp:153-154 | `bitmask <<= 8` moves the mask `0xFF * 256^i` to the next byte |
| Bytes.LittleEndianValue | BigValue/BigValue.cpp:170-185 | the n bytes of v denote v modulo 256^n |
| Bytes.LittleEndianRoundTrip | BigValue/BigValue.cpp:170-185 | a value below 256^n survives encoding into n bytes and reading back |
| Bytes.LittleEndianOfValue | BigValue/BigValue.cpp:170-185 | re-encoding a buffer's value in its own width gives the buffer back |
| Bytes.ValueBound | BigValue/BigValue.h:35-36 | an n-byte buffer denotes less than 256^n |
| BigValues.BigValue.FromInt64 | BigValue/BigValue.cpp:119-159 | sign set exactly for negative values, scale 0, and the eight bytes are the little-endian encoding of abs(value); the most negative value gives 2^63 |
| BigValues.Pattern | BigValue/BigValue.cpp:139-143 | `value & bitmask` reads the 64-bit two's-complement pattern: v itself if v >= 0, else 2^64 - abs(v) |
| BigValues.SignBitOfPattern | BigValue/BigValue.cpp:127 | bit 63 of the pattern is set exactly for negative values |
| BigValues.Int64Bytes | BigValue/BigValue.cpp:132-155 | the byte loop writes bytes denoting the pattern, or for a negative value 2^64 minus the pattern (complement plus one, carried) |
| BigValues.Int64Digit | BigValue/BigValue.cpp:137-144 | one pass of the byte loop: the masked byte, complemented and carried for a negative pattern, keeps the invariant that the written bytes denote the pattern (or 2^64 minus it, less the pending carry) modulo the next power of 256; the carry stays at most 1 |
| BigValues.PlainByte | BigValue/BigValue.cpp:143 | after i plain bytes the prefix denotes the pattern modulo 256^i |
| BigValues.NegatedByte | BigValue/BigValue.cpp:139 | after i complemented bytes the prefix plus the pending carry denotes 256^i minus the pattern modulo 256^i; the carry stays at most 1 |
| BigValues.Complement | BigValue/BigValue.cpp:139 | the complement of a byte denotes 255 minus the byte |
| BigValues.Int64Wraps | BigValue/BigValue.cpp:135-155 | after eight bytes no carry is left for a negative pattern, so the bytes denote 2^64 minus the pattern |
| BigValues.Int64Magnitude | BigValue/BigValue.cpp:127-143 | 2^64 minus a negative pattern, or a non-negative pattern itself, is abs(value), below 2^64 |
| Formats.TopBit | BigValue/BigValue.cpp:254 | bit 7 of a byte, the sign bit the decoders test, is set exactly when the byte is at least 128 |
| Formats.MantissaCount | BigValue/BigValue.cpp:72-78 | the byte count is size/8 rounded up |
| Formats.LeadByte | BigValue/BigValue.cpp:90-108 | the stored leading byte keeps the leading byte modulo 2^LeadBits: bit 7 cleared for aligned sizes, the size % 8 low bits otherwise |
| Formats.MantissaBytes | BigValue/BigValue.cpp:88-113 | the stored bytes: count many, all but the first copied unchanged |
| Formats.MantissaBytesHead | BigValue/BigValue.cpp:90-108 | the first stored byte is the leading byte through LeadByte |
| Formats.FieldBitsOfSize | BigValue/BigValue.cpp:64-65 | an aligned field keeps size - 1 bits (bit 7 of its first byte is dropped), any other all size bits |
| Formats.MantissaField | BigValue/BigValue.cpp:66-114 | read big-endian, the stored bytes are exactly the field modulo 2^FieldBits(size) |
| Formats.AlignedMantissa | BigValue/BigValue.cpp:90-95 | an aligned field is stored with only bit 7 of its first byte cleared |
| BigValues.BigValue.FromIEEEMantissa | BigValue/BigValue.cpp:66-114 | the buffer's first ceil(size/8) bytes become MantissaBytes, and every byte above stays as it was |
| BigValues.StoredByte | BigValue/BigValue.cpp:90-112 | the three branches of the loop body store byte i of MantissaBytes |
| BigValues.FieldMask | BigValue/BigValue.cpp:102-106 | the or-ed mask has bits 0 .. bits-1 set, so it denotes 2^bits - 1 |
| Formats.LowBitsStep | BigValue/BigValue.cpp:103-106 | or-ing in bit k extends the k-bit mask to k + 1 bits |
| Formats.LowBitsValue | BigValue/BigValue.cpp:102-106 | the k-bit mask denotes 2^k - 1 |
| Formats.LowBitsMod | BigValue/BigValue.cpp:107 | masking with the k-bit mask keeps the byte modulo 2^k |
| BigValues.BigValue.FromFFP32 | BigValue/BigValue.cpp:248-275 | four zero bytes, sign from bit 7 of data[3], the FFP32 sign bit; an all-zero input gives scale 0; otherwise the scale is left as it was; returns the same object |
| BigValues.BigValue.FromExtended | BigValue/BigValue.cpp:291-306 | eight bytes holding the stored 64-bit mantissa that follows the header, sign from bit 7 of data[0], scale from the exponent; returns the same object |
| BigValues.BigValue.FromQuadruple | BigValue/BigValue.cpp:311-326 | sixteen bytes, the low fourteen holding the stored 112-bit mantissa, the top two zero; sign and scale as for the extended format; returns the same object |
| Formats.ExponentScale | BigValue/BigValue.cpp:297-300 | the stored scale is 128 plus the 15-bit exponent field: the xor only sets bit 7 and no bias is removed |
| Formats.ShiftedExponent | BigValue/BigValue.cpp:298 | the shifted field with bit 7 set is 128 plus 256 times the field's high seven bits |
| Formats.LowSeven | BigValue/BigValue.cpp:298 | `& 0x7F` keeps a byte modulo 128 |
| Formats.HeaderRoundTrip | BigValue/BigValue.cpp:294-300 | the two header bytes come back from the sign and the stored scale |
| Formats.ScaleDigits | BigValue/BigValue.cpp:296-300 | the stored scale less 128 splits back into the exponent's two bytes |
| Formats.DecodeRoundTrip | BigValue/BigValue.cpp:291-326 | for the aligned formats, sign, scale and stored mantissa give back every input byte read except bit 7 of the field's first byte |
| Formats.StoredAligned | BigValue/BigValue.cpp:303 | what is stored of an aligned field after the two header bytes |
| Formats.Binary128RoundTrip | BigValue/BigValue.cpp:311-326 | kept whole, the 112-bit binary128 fraction with the sign and the scale gives back all sixteen input bytes |
| Formats.FFP32SignByte | BigValue/BigValue.cpp:245-266 | the FFP32 sign and the exponent's seven bits together give back byte 3; no mantissa byte is involved |
| BigValues.BigValue.FromBuffer | BigValue/BigValue.cpp:329-337 | the buffer is the first n input bytes in order, sign and scale as given (scale 0 by default); returns the same object |
| BigValues.BigValue.Plus | BigValue/BigValue.cpp:339-366 | a fresh value one byte wider than the wider operand, holding AddSum of the operands' bytes; positive, scale 0; the operands are not changed |
| BigValues.AddBytes | BigValue/BigValue.cpp:352-358 | the carry loop writes the bytes AddSteps gives and leaves its carry; the top byte is untouched |
| BigValues.StoreDigit | BigValue/BigValue.cpp:353-358 | one pass of the loop stores byte i and extends the written prefix by one step |
| BigValues.AddDigit | BigValue/BigValue.cpp:355-357 | the stored byte plus 256 times the new carry equals carry + a_i + b_i; the carry stays at most 1, so the 16-bit accumulator never overflows |
| BigValues.StoreCarry | BigValue/BigValue.cpp:359-363 | the left-over carry ends up in the top byte |
| BigValues.AddSteps | BigValue/BigValue.cpp:352-358 | after i steps, i bytes have been written and the carry is at most 1 |
| BigValues.AddStep | BigValue/BigValue.cpp:355-357 | one pass of the addition loop on values: append the low byte of carry + a_i + b_i and carry the rest. It has no contract of its own; AddStepsNext unfolds it inside the loop and AddedByte shows that it keeps the invariant that bytes plus carry denote the sum |
| BigValues.AddStepsNext | BigValue/BigValue.cpp:355-357 | step i + 1 appends the low byte of the sum and carries the rest |
| BigValues.AddStepsParts | BigValue/BigValue.cpp:355-357 | the bytes after step i are those after step i - 1 plus the new low byte, and the carry is the rest of the sum |
| BigValues.AddedByte | BigValue/BigValue.cpp:355-357 | one byte of the addition keeps the invariant that written bytes plus carry denote the sum of the operands' prefixes |
| BigValues.AddStepsValue | BigValue/BigValue.cpp:352-358 | loop invariant: the bytes written and the carry weighted 256^i denote the sum of both operands' first i bytes |
| BigValues.SumMagnitude | BigValue/BigValue.cpp:359-363 | with the carry in the top byte, the n + 1 bytes denote the sum of the operands |
| BigValues.AddSumValue | BigValue/BigValue.cpp:339-366 | the result of operator+ denotes `Value(a) + Value(b)` exactly |
| BigValues.AddSumEncoding | BigValue/BigValue.cpp:339-366 | the result is the (n + 1)-byte little-endian encoding of `Value(a) + Value(b)` |
| BigValues.AddSum | BigValue/BigValue.cpp:352-363 | the result has n + 1 bytes: the loop's n bytes and the left-over carry on top |
| Demo.DemoValues | BigValue/arbitrarymath.cpp:8-21 | the six demo values hold 1234, 1234, 1100110011001100110 twice, 1234 and 1100110011001100110, and only -1234 and -1100110011001100110 are negative |
| Demo.CarryExample | BigValue/BigValue.cpp:339-366 | `[0xFF] + [0x01]` gives `[0x00, 0x01]` |
| AsWritten.Int64ByteAsWritten | BigValue/BigValue.cpp:139-158 | below byte 7, a negative pattern's byte is complemented with no 1 added (the two add up to 255) and a non-negative one is copied; byte 7 ends below 128 exactly when the value is negative and the pattern's byte 7 is below 128, or non-negative and it is not, since bit 7 is flipped whatever the sign |
| AsWritten.Int64BytesAsWritten | BigValue/BigValue.cpp:132-158 | the eight bytes as the constructor writes them |
| AsWritten.Int64AsWrittenWrong | BigValue/BigValue.cpp:135-158 | for every int64 value the bytes written differ from abs(value)'s encoding |
| AsWritten.LowByteOfNegation | BigValue/BigValue.cpp:139 | the complement of the pattern's low byte is never the low byte of the magnitude |
| AsWritten.OddMaskAsWritten | BigValue/BigValue.cpp:101-106 | the written mask is 0xFF for sizes above 8, and has size - 1 low bits set below 8 (one bit for size 1) |
| AsWritten.LeadByteAsWritten | BigValue/BigValue.cpp:90-108 | aligned sizes: the byte changes while its low seven bits are kept, so bit 7 is flipped; odd sizes above 8: the whole byte kept, exponent bits included; sizes 2 to 7: the byte modulo 2^(size - 1) |
| AsWritten.AlignedLeadAsWritten | BigValue/BigValue.cpp:90-95 | the xor agrees with clearing bit 7 exactly when bit 7 is set, and otherwise sets it |
| AsWritten.AlignedLeadCounterexample | BigValue/BigValue.cpp:94 | a leading 0x00 of a 64-bit field is stored as 0x80 |
| AsWritten.OddLeadCounterexample | BigValue/BigValue.cpp:101-107 | a 23-bit field whose leading byte is 0x80 keeps bit 7 |
| AsWritten.PlusLoopAsWritten | BigValue/BigValue.cpp:352-358 | the written loop only moves `m_pBuffer`; its carry stays at most 1 |
| AsWritten.PlusStepAsWritten | BigValue/BigValue.cpp:355-357 | one pass moves the address forward by the low byte of carry + a_i + b_i and carries the rest; a carry of at most 1 stays at most 1 |
| AsWritten.PlusAsWritten | BigValue/BigValue.cpp:347-363 | the block operator+ allocates, as written: size of this + 1 bytes, nothing stored by the loop |
| AsWritten.PlusStoreCounterexample | BigValue/BigValue.cpp:353-358 | `[1] + [1]` leaves a block denoting 0 |
| AsWritten.PlusLoopIgnoresHigh | BigValue/BigValue.cpp:353 | other's bytes beyond this operand's size are never read |
| AsWritten.PlusBoundCounterexample | BigValue/BigValue.cpp:349-355 | `[1] + [0, 1]` gives the same result as `[1] + [0]` |
| AsWritten.QuadrupleFractionInverted | BigValue/BigValue.cpp:90-95 | as written, the stored leading byte of the binary128 fraction always differs from data[2] in bit 7 and agrees in the other seven; 0x00 is stored as 0x80 |
| AsWritten.QuadrupleDropsFractionBit | BigValue/BigValue.cpp:64-65 | under the design the comments describe (bit 7 cleared), two binary128 inputs that differ only in bit 7 of data[2] would give the same sign, scale and stored bytes |
| AsWritten.FFP32SignAsWritten | BigValue/BigValue.cpp:254 | the sign as read: every value whose mantissa has its top bit set, as every non-zero FFP32 value does, is read as negative |
| AsWritten.FFP32SignCounterexample | BigValue/BigValue.cpp:254 | FFP32 1.0, bytes 0x80 0x00 0x00 0x41, is read as negative though its sign bit is clear |

## Left out

- The `double` and `float` constructors (BigValue/BigValue.cpp:188-224) are left out.
  - They apply integer bit operators to floating values, which does not compile.
  - They read the host's memory layout through a `uint8_t*` cast.
  - The remark at BigValue/BigValue.cpp:202-203, which treats 52 as byte-aligned, belongs to them.
- `operator-` and the two `operator()` extractors (BigValue/BigValue.cpp:368-398) are left out: they are stubs returning an empty value or 0. `Bytes.Value` plays the role of reading a magnitude out.
- The destructor, `delete` versus `delete[]`, and the buffer leaked when `CreateBuffer` replaces an existing buffer are left out. Memory is managed by Dafny's heap.
- `fromFFP32`'s exponent and mantissa locals (BigValue/BigValue.cpp:263-271) are computed and discarded. Only their absence from the stored state is modelled.
- The sign test `value & (1 << 63)` (BigValue/BigValue.cpp:127) shifts an `int` by 63, which is undefined behaviour. The model tests bit 63 of the 64-bit pattern, which is what the line evidently means.
- Raw `uint8_t*` inputs become sequences. The source reads them unchecked, so the model requires the lengths that the source reads:
  - 4, 10 and 16 bytes for `fromFFP32`, `fromExtended` and `fromQuadruple`;
  - n bytes for `fromBuffer`;
  - ceil(size/8) bytes in both the mantissa and the buffer for `fromIEEEMantissa`.
- `size_t` and `int` counters and `m_nScale` are unbounded naturals. No value the core stores comes near their limits.
- `BigValues.BigValue.Plus`: its contract gives the result bytes as `AddSum` of the operands' bytes. That these bytes denote `Value(a) + Value(b)` is proved separately, by `AddSumValue` and `AddSumEncoding`, rather than in the method's own postcondition.
- `BigValues.BigValue.Plus`: it reads both operands as they are on entry. Since `operator+` is `const`, aliasing between `this` and `other` changes nothing.
- The copy made when `operator+` returns by value is left out. `Plus` returns a fresh object instead.
- `BigValues.BigValue.FromQuadruple`: it stores the 112-bit field through the mantissa helper, as the comments at BigValue/BigValue.cpp:64-65 and 93 intend (the code xors it), so bit 7 of the field's first byte is lost. Findings records this; `Formats.Binary128RoundTrip` states what keeping the whole fraction gives.
- `BigValues.BigValue.FromFFP32`, `FromExtended`, `FromQuadruple` and `FromBuffer` return `this`, standing in for the `CBigValue&` the source returns for chaining.

## Findings

| source | as written | input that shows it | evidently intended | confidence | as-written member | corrected member |
|---|---|---|---|---|---|---|
| BigValue/BigValue.cpp:139-158 | a negative value's bytes are complemented without adding 1, and byte 7 is then xor-ed with 0x80 whatever the sign | 1234 stores bytes denoting 2^63 + 1234; -1 stores bytes denoting 2^63 | the eight bytes hold abs(value) little-endian (complement plus one, carried), so -2^63 gives 2^63 | not executed | AsWritten.Int64AsWrittenWrong | BigValues.BigValue.FromInt64 |
| BigValue/BigValue.cpp:94 | `mantissa[0] ^ (1 << 7)` toggles bit 7 of the field's first byte instead of clearing it | an aligned field leading with 0x00 is stored as 0x80 | clear bit 7 (`& 0x7F`), as the comment at line 93 says | not executed | AsWritten.AlignedLeadCounterexample | Formats.MantissaField |
| BigValue/BigValue.cpp:101 | with `i == 0` the mask width is `size - 1`, so for any odd size above 8 the whole leading byte is kept | size 23 with leading byte 0x80 stores 0x80 | a mask of the `size % 8` bits the field has in that byte | not executed | AsWritten.OddLeadCounterexample | Formats.MantissaField |
| BigValue/BigValue.cpp:356 | `value.m_pBuffer += (carry & 0xFF)` moves the result's buffer address instead of storing the byte | `[1] + [1]`: the allocated block holds 0, 0, and the result's buffer pointer has moved past it | `value.m_pBuffer[i] = (carry & 0xFF)` | not executed | AsWritten.PlusStoreCounterexample | BigValues.AddSumValue |
| BigValue/BigValue.cpp:349-353 | the loop and the allocation use this operand's size only: other's higher bytes are ignored, and a shorter other is read past its end | `[1] + [0, 1]` gives what `[1] + [0]` gives | walk the wider operand with missing bytes read as zero, into one byte more than the wider size | not executed | AsWritten.PlusBoundCounterexample | BigValues.AddSumValue |
| BigValue/BigValue.cpp:323 | line 94 xors bit 7 of `data[2]`, the top binary128 fraction bit, so the stored fraction always has that bit inverted; the comments at 64-65 and 93 would clear it instead | `data[2] = 0x00` is stored as `0x80` | keep all 112 fraction bits: binary128 (section 3.4 of IEEE 754-2008) stores no integer bit | not executed | AsWritten.QuadrupleFractionInverted | Formats.Binary128RoundTrip |
| BigValue/BigValue.cpp:254 | the sign is read from bit 7 of data[0], which in FFP32 is the top bit of the mantissa | 1.0, bytes 0x80 0x00 0x00 0x41, is read as negative | the FFP32 sign bit, bit 7 of data[3], the byte line 263 reads the exponent from | not executed | AsWritten.FFP32SignCounterexample | BigValues.BigValue.FromFFP32 |
