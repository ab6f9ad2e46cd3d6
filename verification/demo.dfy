/** The worked example of the checksum: the text "ABC" as bits and its 8-bit
    and 16-bit checksums. */
module ChecksumDemo {
  import opened BitString
  import opened Checksums
  import opened TextCodec

  /** The demonstration data of `demonstrate_checksum_example`: the bytes
      0x41 0x42 0x43, eight bits each, that is 010000010100001001000011. */
  function AbcBits(): (r: Bits)
  {
    assert Pow2(8) == 0x100;
    FromNat(0x41, 8) + FromNat(0x42, 8) + FromNat(0x43, 8)
  }

  lemma {:induction false} TextToBinaryThree(a: char, b: char, c: char)
    requires a as int < 256 && b as int < 256 && c as int < 256
    ensures TextToBinary([a, b, c]) == CharBits(a) + CharBits(b) + CharBits(c)
  {
    EncodeCons(c, []);
    EncodeCons(b, [c]);
    EncodeCons(a, [b, c]);
    assert [a] + [b, c] == [a, b, c];
    assert [b] + [c] == [b, c];
    assert [c] + [] == [c];
  }

  /** Encoding a character in front of a text puts its byte in front. */
  lemma {:induction false} EncodeCons(x: char, t: string)
    requires x as int < 256 && IsByteText(t)
    ensures IsByteText([x] + t)
    ensures TextToBinary([x] + t) == CharBits(x) + TextToBinary(t)
  {
    assert ([x] + t)[1..] == t;
  }

  /** The data is the text "ABC" in eight-bit ASCII. */
  lemma {:induction false} AbcIsText()
    ensures TextToBinary("ABC") == AbcBits()
  {
    TextToBinaryThree('A', 'B', 'C');
  }

  lemma {:induction false} ThreeBytesSum8(a: Bits, b: Bits, c: Bits)
    requires |a| == 8 && |b| == 8 && |c| == 8
    ensures DataSum(a + b + c, 8) == Value(a) + Value(b) + Value(c)
  {
    var d := a + b + c;
    assert |d| == 24;
    assert Pad(d, 8) == d;
    WordSumLast(d, 8, 1);
    WordSumLast(d, 8, 2);
    WordSumLast(d, 8, 3);
    assert d[0..8] == a;
    assert d[8..16] == b;
    assert d[16..24] == c;
  }

  /** Three bytes padded to 16-bit words form the words `a + b` and
      `c + 00000000`. */
  lemma {:induction false} ThreeBytesWords16(a: Bits, b: Bits, c: Bits)
    requires |a| == 8 && |b| == 8 && |c| == 8
    ensures DataSum(a + b + c, 16) == Value(a + b) + Value(c + Zeros(8))
  {
    var d := a + b + c;
    var p := d + Zeros(8);
    assert Pad(d, 16) == p by {
      assert |d| == 24;
    }
    TwoWords(p, 16);
    assert p[..16] == a + b;
    assert p[16..] == c + Zeros(8);
  }

  /** A string of two words sums to the values of its halves. */
  lemma {:induction false} TwoWords(p: Bits, w: nat)
    requires w > 0 && |p| == 2 * w
    ensures WordSum(p, w, |p| / w) == Value(p[..w]) + Value(p[w..])
  {
    ModUnique(|p|, w, 2, 0);
    WordSumLast(p, w, 2);
    WordSumLast(p, w, 1);
    assert p[0..w] == p[..w];
    assert p[w..2 * w] == p[w..];
  }

  lemma {:induction false} ThreeBytesSum16(a: Bits, b: Bits, c: Bits)
    requires |a| == 8 && |b| == 8 && |c| == 8
    ensures DataSum(a + b + c, 16) == (Value(a) + Value(c)) * 0x100 + Value(b)
  {
    ThreeBytesWords16(a, b, c);
    Pow2Values();
    var z := Zeros(8);
    ValueConcat(a, b);
    ValueConcat(c, z);
    ValueZero(z);
    assert Value(z) == 0;
    Distribute(Value(a), Value(c), Value(b));
  }

  /** The arithmetic step of `ThreeBytesSum16`. */
  lemma {:induction false} Distribute(x: int, y: int, b: int)
    ensures x * 0x100 + b + (y * 0x100 + 0) == (x + y) * 0x100 + b
  {
  }

  lemma {:induction false} AbcSum8()
    ensures DataSum(AbcBits(), 8) == 0xC6
  {
    Pow2Values();
    ThreeBytesSum8(FromNat(0x41, 8), FromNat(0x42, 8), FromNat(0x43, 8));
  }

  lemma {:induction false} AbcSum16()
    ensures DataSum(AbcBits(), 16) == 0x8442
  {
    Pow2Values();
    ThreeBytesSum16(FromNat(0x41, 8), FromNat(0x42, 8), FromNat(0x43, 8));
  }

  /** `calculate_checksum(d, 8)` is 00111001, that is 0x39. */
  lemma {:induction false} ChecksumVectorAbc8()
    ensures |Checksum(AbcBits(), 8)| == 8 && Value(Checksum(AbcBits(), 8)) == 0x39
  {
    Pow2Values();
    AbcSum8();
    ChecksumComplementsSum(AbcBits(), 8);
  }

  /** `calculate_checksum(d, 16)` is 0111101110111101, that is 0x7BBD, the
      complement of 0x4142 + 0x4300. */
  lemma {:induction false} ChecksumVectorAbc16()
    ensures |Checksum(AbcBits(), 16)| == 16 && Value(Checksum(AbcBits(), 16)) == 0x7BBD
  {
    Pow2Values();
    AbcSum16();
    ChecksumComplementsSum(AbcBits(), 16);
  }

  /** Empty data gives the all-ones checksum, so the frame `add_checksum`
      builds from it is `w` ones (1111111111111111 at 16 bits). */
  lemma {:induction false} EmptyFrameAllOnes(checksumBits: nat)
    requires checksumBits > 0
    ensures |AddChecksum([], checksumBits)| == checksumBits
    ensures Value(AddChecksum([], checksumBits)) == Pow2(checksumBits) - 1
  {
    var c := Checksum([], checksumBits);
    ZeroDataSum([], checksumBits);
    ChecksumComplementsSum([], checksumBits);
    assert [] + c == c;
  }
  /** A byte with value 0x41 has a '1' among its first five bits. */
  lemma {:induction false} HighBitsOf41(a: Bits)
    requires |a| == 8 && Value(a) == 0x41
    ensures exists k | 0 <= k < 5 :: a[k]
  {
    var high, low := a[..5], a[5..];
    assert high + low == a;
    ValueConcat(high, low);
    assert Pow2(8) == 0x100;
    assert Pow2(3) == 8;
    assert Value(high) != 0;
    ValueZero(high);
    var k :| 0 <= k < 5 && high[k];
    assert a[k] == high[k];
  }

  /** The corruption test of the example: inverting bit 5 of "ABC" followed by
      its 16-bit checksum leaves a '1' in a complete word, so
      `verify_checksum` reports the error. */
  lemma {:induction false} DemoCorruptionDetected()
    ensures !CompleteWordsZero(Flip(AddChecksum(AbcBits(), 16), 5), 16)
  {
    var d := AbcBits();
    AbcHead();
    var x := AddChecksum(d, 16);
    HighBitsOf41(d[..8]);
    var k :| 0 <= k < 5 && d[..8][k];
    assert x[k] == d[k];
    assert Flip(x, 5)[k] == x[k];
    assert k < |x| / 16 * 16;
  }

  lemma {:induction false} HeadOfThree(a: Bits, b: Bits, c: Bits)
    requires |a| == 8 && |b| == 8 && |c| == 8
    ensures |a + b + c| == 24 && (a + b + c)[..8] == a
  {
  }

  /** The example data is three bytes, the first of them 0x41 ('A'). */
  lemma {:induction false} AbcHead()
    ensures |AbcBits()| == 24 && Value(AbcBits()[..8]) == 0x41
  {
    assert Pow2(8) == 0x100;
    var a, b, c := FromNat(0x41, 8), FromNat(0x42, 8), FromNat(0x43, 8);
    assert AbcBits() == a + b + c;
    HeadOfThree(a, b, c);
  }
}
