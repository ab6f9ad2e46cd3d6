# Link-layer error detection, modelled in Dafny

This project models the error-detection core of a teaching network stack:
the `ErrorDetector` class of `CamadaEnlace/deteccao_erros.py`, together with
the two text helpers in `Utilidades/utils.py` that turn text into bit strings
and back. The detector offers three codes:

- **even parity**: one bit is appended so that the number of '1's is even;
- **CRC-32**: modulo-2 polynomial long division by the 33-bit generator
  `0x104C11DB7`. The sender appends the remainder of the zero-padded data.
  The receiver divides the whole frame and reads the remainder as an integer.
- **checksum**: the data is right-padded to whole words of `w` bits (16 by
  default). The words are summed, the carries are folded back in (end-around
  carry) and the sum is complemented, as in the Internet checksum.

A bit string is a `seq<bool>`, with `true` for the character '1'
(`BitString.Bits`). Python's `int(s, 2)`, `format(v, '0wb')`, `s.count('1')`
and the negative slices `s[-k:]` and `s[:-k]` are written out in `bits.dfy`.
The module layout follows the source:

| file | module | models |
|---|---|---|
| `bits.dfy` | `BitString` | the string conversions the code relies on |
| `parity.dfy` | `Parity` | `add_even_parity`, `check_even_parity` |
| `crc.dfy` | `Crc` | `CRC32_POLY`, `_crc_division_engine`, `generate_crc`, `check_crc` |
| `checksum.dfy` | `Checksums` | `CHECKSUM_SIZE`, `calculate_checksum`, `add_checksum`, `verify_checksum`, `verify_checksum_simple` |
| `codec.dfy` | `TextCodec` | `text_to_binary`, `binary_to_text` |
| `demo.dfy` | `ChecksumDemo` | the "ABC" example of `demonstrate_checksum_example` |

Some parts of the source update state step by step, and these are imperative
Dafny:

- The division engine copies its input into a fresh `array<bool>` and xors
  the polynomial into it in place (`Crc.DivisionEngine`, `Crc.XorPolyAt`).
- The word loop and the carry loop of the checksum are methods with loop
  invariants (`Checksums.SumWords`, `Checksums.EndAroundCarry`).
  `Checksums.CalculateChecksum` and `Checksums.VerifyChecksum` call them.

Each method is proved equal to a specification function:

- `Crc.ReduceFrom` is the whole scan, and `Crc.Remainder` is its tail.
- `Checksums.WordSum` is the word sum, and `Checksums.Fold` is the carry fold.
- `Checksums.Checksum` is the checksum.

The properties the code promises are lemmas about those functions. The other
operations are pure and become functions. The two fields of `ErrorDetector`
are constants, because nothing ever changes them.

## Model

| member | source | states |
|---|---|---|
| BitString.Value | CamadaEnlace/deteccao_erros.py:97 | `int(word, 2)` of a string of `n` digits is below 2^n |
| BitString.FromNat | CamadaEnlace/deteccao_erros.py:111 | `format(v, '0wb')` of a value below 2^w has exactly `w` digits and reads back as `v` |
| BitString.FromNatValue | CamadaEnlace/deteccao_erros.py:111 | formatting a string's own value at its own width gives the string back, so `format` and `int` are inverse |
| BitString.ValueFlip | CamadaEnlace/deteccao_erros.py:97 | inverting one bit of an `n`-digit word always changes `int(word, 2)`, and by at most 2^(n-1) either way |
| BitString.ValueAllSet | CamadaEnlace/deteccao_erros.py:100 | `'1' * n` has the value `(1 << n) - 1`, the `max_value` of the checksum |
| Parity.AddEvenParity | CamadaEnlace/deteccao_erros.py:12-17 | the result is the chunk plus one bit, the chunk is kept as its prefix, and its count of '1's is even |
| Parity.CheckMatchesParityBit | CamadaEnlace/deteccao_erros.py:12-24 | `check_even_parity` accepts a non-empty chunk exactly when its last bit is the bit `add_even_parity` appends to the bits before it |
| Parity.ParityDetectsOddErrors | CamadaEnlace/deteccao_erros.py:19-24 | an error pattern flips the verdict of `check_even_parity` exactly when it inverts an odd number of bits |
| Parity.ParityDetectsSingleFlip | CamadaEnlace/deteccao_erros.py:12-24 | every output of `add_even_parity` passes the check, and inverting any one of its bits fails it |
| Parity.ParityMissesDoubleFlip | CamadaEnlace/deteccao_erros.py:12-24 | two inverted bits at distinct positions always pass the check |
| Crc.Bin | CamadaEnlace/deteccao_erros.py:49 | `bin(n)[2:]` is non-empty, reads back as `n` and starts with '1' when `n >= 1` |
| Crc.PolyBitsShape | CamadaEnlace/deteccao_erros.py:9 | the generator as bits is 33 long, and its first and last bits are 1 |
| Crc.XorPolyAt | CamadaEnlace/deteccao_erros.py:38-39 | the inner loop xors the polynomial into the window at `i` and leaves every other element unchanged |
| Crc.DivisionEngine | CamadaEnlace/deteccao_erros.py:26-43 | the engine's array loop returns exactly `Remainder(data, poly)`, the tail of the specified scan |
| Crc.ReduceFrom | CamadaEnlace/deteccao_erros.py:36-39 | the division loop never changes the length of the working list |
| Crc.RemainderShape | CamadaEnlace/deteccao_erros.py:42 | the slice `data[-(n-1):]` is the last `n - 1` bits of the working list when the data is that long, and the whole data otherwise |
| Crc.ReduceClearsHead | CamadaEnlace/deteccao_erros.py:36-39 | with a leading 1 in the polynomial, every position the scan visits ends as 0 |
| Crc.ReduceIdle | CamadaEnlace/deteccao_erros.py:36-39 | the scan changes nothing when every bit it inspects is 0 |
| Crc.ReduceLinear | CamadaEnlace/deteccao_erros.py:36-39 | the division is linear: dividing `x xor y` gives the xor of the two working lists |
| Crc.GenerateCrc | CamadaEnlace/deteccao_erros.py:45-59 | the CRC is always exactly 32 bits, the empty data included |
| Crc.ZFill | CamadaEnlace/deteccao_erros.py:59 | `zfill(width)` gives at least `width` digits ending with the string itself, and the string unchanged when it is already that long |
| Crc.ZFillValue | CamadaEnlace/deteccao_erros.py:59 | zero-filling never changes the value the string stands for |
| Crc.CheckCrc | CamadaEnlace/deteccao_erros.py:61-68 | `check_crc` of a non-empty frame is below 2^32: the remainder has at most 32 digits |
| Crc.GenerateCrcShape | CamadaEnlace/deteccao_erros.py:53-59 | the frame data + CRC is the data followed by the remainder of the data padded with 32 zeros (`zfill` never pads) |
| Crc.FrameDivides | CamadaEnlace/deteccao_erros.py:53-56 | dividing such a frame leaves a working list whose last `n - 1` bits are all 0, for any generator |
| Crc.FrameRemainderZero | CamadaEnlace/deteccao_erros.py:61-68 | the remainder of such a frame has value 0, for any generator of at least two bits |
| Crc.CrcRoundTrip | CamadaEnlace/deteccao_erros.py:45-68 | `check_crc(d + generate_crc(d)) == 0` for every bit string `d` |
| Crc.BurstLeavesRemainder | CamadaEnlace/deteccao_erros.py:36-42 | for a generator with first and last bits 1, any non-zero error confined to `n - 1` consecutive bits leaves a '1' in the remainder |
| Crc.CrcDetectsBurst | CamadaEnlace/deteccao_erros.py:61-68 | any non-zero error burst within 32 consecutive bits of a valid frame makes `check_crc` non-zero |
| Crc.CrcDetectsSingleFlip | CamadaEnlace/deteccao_erros.py:61-68 | inverting any single bit of a valid frame makes `check_crc` non-zero |
| Checksums.PadShape | CamadaEnlace/deteccao_erros.py:83-86 | the padded data is whole words, keeps the data as its prefix, and adds fewer than `w` bits, all '0' |
| Checksums.Pad | CamadaEnlace/deteccao_erros.py:83-86 | the padding keeps the data in front and appends fewer than `w` bits |
| Checksums.SumWords | CamadaEnlace/deteccao_erros.py:89-97 | the word loop returns the sum of the values of the first `numWords` words |
| Checksums.Fold | CamadaEnlace/deteccao_erros.py:99-106 | the folded total fits in `w` bits, and it is 0 exactly when the raw sum is 0 |
| Checksums.FoldCongruent | CamadaEnlace/deteccao_erros.py:99-106 | folding keeps the total modulo 2^w - 1, so the result is the one's complement sum |
| Checksums.EndAroundCarry | CamadaEnlace/deteccao_erros.py:99-106 | the carry loop terminates with the folded total |
| Checksums.ComplementFits | CamadaEnlace/deteccao_erros.py:108 | `(~total) & max_value` of a total below 2^w is `2^w - 1 - total` |
| Checksums.Complement | CamadaEnlace/deteccao_erros.py:108 | `(~total) & max_value` always fits in `w` bits, whatever the total |
| Checksums.CalculateChecksum | CamadaEnlace/deteccao_erros.py:70-113 | the method computes exactly the checksum of the padded, summed, folded and complemented data |
| Checksums.ChecksumComplementsSum | CamadaEnlace/deteccao_erros.py:99-111 | the checksum is `w` bits long, and its value plus the folded data sum is 2^w - 1 |
| Checksums.AddChecksum | CamadaEnlace/deteccao_erros.py:115-127 | the frame is the data followed by a field of exactly `w` bits |
| Checksums.ChecksumIgnoresZeroPadding | CamadaEnlace/deteccao_erros.py:83-86 | appending any number of '0' bits to the data leaves its checksum unchanged |
| Checksums.WordSumZero | CamadaEnlace/deteccao_erros.py:153-161 | a sum of words is 0 exactly when all their bits are '0' |
| Checksums.ZeroDataSum | CamadaEnlace/deteccao_erros.py:83-97 | data holding no '1' sums to 0 |
| Checksums.VerifyChecksum | CamadaEnlace/deteccao_erros.py:129-169 | `verify_checksum` returns true exactly when every bit of every complete word of its input is '0' |
| Checksums.VerifyChecksumRejectsEveryFrame | CamadaEnlace/deteccao_erros.py:150-169 | as written, `verify_checksum` rejects every frame that `add_checksum` builds, at every width |
| Checksums.VerifySimpleRoundTrip | CamadaEnlace/deteccao_erros.py:171-190 | `verify_checksum_simple(add_checksum(d, w), w)` is `(True, c, c)` with `c` the checksum of `d` |
| Checksums.VerifyChecksumSimple | CamadaEnlace/deteccao_erros.py:171-190 | the first component is true exactly when the input is at least `w` bits long and equals `add_checksum` of its data part, so it accepts exactly the frames `add_checksum` builds |
| Checksums.VerifySimpleImpliesOnesSum | CamadaEnlace/deteccao_erros.py:183-188 | every frame `verify_checksum_simple` accepts also passes the corrected one's-complement rule |
| Checksums.OnesSumAcceptsNegativeZero | CamadaEnlace/deteccao_erros.py:183-188 | the converse fails: two all-ones words pass the one's-complement rule, but `verify_checksum_simple` rejects them, since the checksum of an all-ones word is all zeros |
| Checksums.VerifyOnesSumRoundTrip | CamadaEnlace/deteccao_erros.py:147-149 | the corrected rule (the folded sum of data words and received checksum is all ones) accepts every `add_checksum` frame |
| Checksums.WordSumFlip | CamadaEnlace/deteccao_erros.py:89-97 | inverting one bit inside the summed words changes the word sum, by at most 2^(w-1) either way |
| Checksums.DataSumFlip | CamadaEnlace/deteccao_erros.py:83-97 | the same holds for the sum of the padded data, for a bit inside the data |
| Checksums.FrameTotalMultiple | CamadaEnlace/deteccao_erros.py:99-127 | the data sum plus the value of the checksum `add_checksum` appends is a multiple of 2^w - 1 |
| Checksums.FlippedFrameTotal | CamadaEnlace/deteccao_erros.py:115-127 | inverting one bit of the data followed by any `w`-bit field changes the data sum plus the field value, by at most 2^(w-1) either way |
| Checksums.OnesSumNeighbour | CamadaEnlace/deteccao_erros.py:99-106 | a total that differs from a multiple of 2^w - 1 by 1 to 2^(w-1) never folds to all ones, for `w >= 2` |
| Checksums.OnesSumDetectsSingleFlip | CamadaEnlace/deteccao_erros.py:147-149 | for `w >= 2`, the one's-complement rule rejects every `add_checksum` frame with any one bit inverted |
| Checksums.VerifyChecksumAcceptsCorruptedFrame | CamadaEnlace/deteccao_erros.py:150-169 | as written, `verify_checksum` accepts a corrupted frame: data '1' followed by `w - 2` zeros, with its first bit inverted, leaves an all-zero complete word |
| TextCodec.CharBits | Utilidades/utils.py:15 | `format(ord(c), '08b')` has eight digits whose value is the character's code |
| TextCodec.TextToBinary | Utilidades/utils.py:4-15 | the encoding has exactly 8 bits per character |
| TextCodec.TextToBinaryBlock | Utilidades/utils.py:15 | byte `k` of the encoding is the eight-bit binary of character `k` |
| TextCodec.TextToBinaryConcat | Utilidades/utils.py:15 | the encoding of a concatenation is the concatenation of the encodings |
| TextCodec.DecodeBytes | Utilidades/utils.py:34-35 | every decoded character has a code from 1 to 255, so `chr(0)` never appears |
| TextCodec.BinaryToText | Utilidades/utils.py:17-35 | the text has at most one character per complete byte of the input, and every character has a code from 1 to 255 |
| TextCodec.BinaryToTextDropsPartialByte | Utilidades/utils.py:28-31 | a trailing partial byte never affects the decoded text |
| TextCodec.DecodeBytesLength | Utilidades/utils.py:34-35 | the length of the text plus the number of zero bytes is the number of complete bytes, so the text has one character per byte exactly when no byte is zero |
| TextCodec.TextRoundTrip | Utilidades/utils.py:4-35 | `binary_to_text(text_to_binary(t)) == t` for text with codes 1 to 255 |
| TextCodec.BinaryRoundTrip | Utilidades/utils.py:4-35 | `text_to_binary(binary_to_text(s)) == s` for whole bytes none of which is zero |
| ChecksumDemo.AbcIsText | Utilidades/utils.py:173 | the example data is `text_to_binary("ABC")` |
| ChecksumDemo.ThreeBytesSum8 | Utilidades/utils.py:183 | at 8 bits, three bytes sum to the sum of their values |
| ChecksumDemo.ThreeBytesSum16 | Utilidades/utils.py:184 | at 16 bits, bytes `a b c` sum to `(a + c) * 0x100 + b` |
| ChecksumDemo.AbcSum8 | Utilidades/utils.py:183 | the 8-bit word sum of "ABC" is 0xC6 |
| ChecksumDemo.AbcSum16 | Utilidades/utils.py:184 | the 16-bit word sum of "ABC" is 0x4142 + 0x4300 = 0x8442 |
| ChecksumDemo.ChecksumVectorAbc8 | Utilidades/utils.py:183 | the 8-bit checksum of "ABC" is 8 bits long with value 0x39 (00111001) |
| ChecksumDemo.ChecksumVectorAbc16 | Utilidades/utils.py:184 | the 16-bit checksum of "ABC" is 16 bits long with value 0x7BBD (0111101110111101) |
| ChecksumDemo.DemoCorruptionDetected | Utilidades/utils.py:189-195 | after bit 5 of "ABC" plus its 16-bit checksum is inverted, `verify_checksum` reports an error |
| ChecksumDemo.EmptyFrameAllOnes | CamadaEnlace/deteccao_erros.py:115-127 | `add_checksum` of empty data is `w` ones |

## Left out

- Everything else in `Utilidades/utils.py` is not part of this model: plotting, `format_checksum_info` and the printing in `demonstrate_checksum_example`.
- Bit strings hold only '0' and '1'. The source passes other characters to `int(s, 2)` and `list(map(int, ...))`, which raise; the type rules them out here.
- BitString.Value gives the empty string the value 0, where Python's `int('', 2)` raises. No modelled path reaches it: every word has at least one bit, and CRC frames are non-empty.
- Crc.CheckCrc requires a non-empty frame, because `int('', 2)` on the remainder of an empty frame raises.
- Checksums: the default `checksum_bits=16` is a default parameter, `ChecksumSize` (line 10). The lemmas state their properties for every width.
- Checksums: every width is positive (`requires checksumBits > 0`). A width of 0 raises `ZeroDivisionError` at line 83, and negative widths are not modelled.
- Checksums.VerifyChecksum omits lines 141-145. They compute a checksum of the data part that is never used, and they cannot change the result.
- TextCodec.TextToBinary: covers only characters with codes below 256. For larger code points `format(ord(c), '08b')` gives more than eight digits.
- TextCodec.TextRoundTrip excludes `chr(0)`, which `binary_to_text` drops by design. `DecodeBytesLength` counts the characters lost: one per zero byte.
- Crc: the model proves the round trip and burst and single-bit detection for this code. It does not prove conformance to the reflected CRC-32 of IEEE 802.3, which this code does not compute: there is no bit reflection, initial value or final xor.
- The comment on line 8 calls `CRC32_POLY` the generator without its implicit x^32 bit. The constant on line 9 does hold that bit: it is 33 bits long, as `Crc.PolyBitsShape` states. The model follows the constant.
- ChecksumDemo.ChecksumVectorAbc8 and ChecksumDemo.ChecksumVectorAbc16 state the checksums as their length and value (0x39 and 0x7BBD). A fixed width and value determine the digits.

## Findings

| source | as written | input that shows it | evidently intended | confidence | as-written member | corrected member |
|---|---|---|---|---|---|---|
| CamadaEnlace/deteccao_erros.py:150-169 | `verify_checksum` sums every complete word of data plus checksum and accepts only a folded total of 0. That holds only when all those bits are '0', so every frame `add_checksum` builds is rejected. | empty data at width 16: `add_checksum("", 16)` is `1111111111111111`, whose folded sum is 0xFFFF, not 0 | the one's complement check of lines 147-149: the data, padded as `calculate_checksum` pads it, plus the received checksum folds to all ones (negative zero) | not executed | Checksums.VerifyChecksumRejectsEveryFrame | Checksums.VerifyOnesSumRoundTrip |
| CamadaEnlace/deteccao_erros.py:150-169 | Because `verify_checksum` accepts whenever the complete words are all '0', it also accepts some corrupted frames. | data `1` followed by 14 zeros at width 16: `add_checksum` appends `0111111111111111`, and inverting bit 0 leaves the only complete word all '0' | the one's complement check of lines 147-149, which rejects every frame with a single inverted bit for `w >= 2` | not executed | Checksums.VerifyChecksumAcceptsCorruptedFrame | Checksums.OnesSumDetectsSingleFlip |
