/** The text helpers the layers above the link layer use: text to a string of
    bits, eight per character, and back. */
module TextCodec {
  import opened BitString

  /** Text whose every character has a code below 256, so that it takes
      exactly eight bits. */
  predicate IsByteText(text: string)
  {
    forall k | 0 <= k < |text| :: text[k] as int < 256
  }

  /** `format(ord(c), '08b')` for a character below 256: eight digits whose
      value is the character's code. */
  function CharBits(c: char): (r: Bits)
    requires c as int < 256
    ensures |r| == 8 && Value(r) == c as int
  {
    assert Pow2(8) == 0x100;
    FromNat(c as int, 8)
  }

  /** `text_to_binary`: the eight-bit binary of each character, joined. */
  function TextToBinary(text: string): (r: Bits)
    requires IsByteText(text)
    ensures |r| == 8 * |text| && |r| % 8 == 0
  {
    if |text| == 0 then [] else CharBits(text[0]) + TextToBinary(text[1..])
  }

  /** Byte number `k` of a bit string: the slice `s[8k : 8k + 8]`. */
  function Byte(s: Bits, k: nat): Bits
    requires 8 * k + 8 <= |s|
  {
    s[8 * k..8 * k + 8]
  }

  /** Past an eight-bit head, byte `k + 1` is byte `k` of the rest. */
  lemma ByteAfterHead(head: Bits, rest: Bits, k: nat)
    requires |head| == 8 && 8 * k + 8 <= |rest|
    ensures Byte(head + rest, k + 1) == Byte(rest, k)
  {
    var lo := 8 * k;
    assert 8 * (k + 1) == lo + 8;
    assert (head + rest)[lo + 8..lo + 16] == rest[lo..lo + 8];
  }

  /** Block `k` of the encoding is the eight-bit binary of character `k`. */
  lemma {:induction false} TextToBinaryBlock(text: string, k: nat)
    requires IsByteText(text) && k < |text|
    ensures Byte(TextToBinary(text), k) == CharBits(text[k])
  {
    var head, rest := CharBits(text[0]), TextToBinary(text[1..]);
    assert TextToBinary(text) == head + rest;
    if k == 0 {
      assert Byte(head + rest, 0) == head;
    } else {
      TextToBinaryBlock(text[1..], k - 1);
      ByteAfterHead(head, rest, k - 1);
      assert Byte(TextToBinary(text), k) == Byte(rest, k - 1);
      assert text[1..][k - 1] == text[k];
    }
  }

  /** The encoding of a concatenation is the concatenation of the encodings. */
  lemma {:induction false} TextToBinaryConcat(a: string, b: string)
    requires IsByteText(a) && IsByteText(b)
    ensures IsByteText(a + b)
    ensures TextToBinary(a + b) == TextToBinary(a) + TextToBinary(b)
  {
    if |a| > 0 {
      assert (a + b)[1..] == a[1..] + b;
      TextToBinaryConcat(a[1..], b);
    } else {
      assert a + b == b;
    }
  }

  /** Lines 34-35 on complete bytes: each byte becomes the character with its
      value, and all-zero bytes are skipped. */
  function DecodeBytes(s: Bits): (r: string)
    requires |s| % 8 == 0
    ensures forall k | 0 <= k < |r| :: 0 < r[k] as int < 256
    decreases |s|
  {
    if |s| == 0 then ""
    else
      assert Pow2(8) == 0x100;
      var v := Value(s[..8]);
      (if v != 0 then [v as char] else []) + DecodeBytes(s[8..])
  }

  /** `binary_to_text`: drops a trailing partial byte (lines 29-31) and
      decodes the complete bytes. */
  function BinaryToText(binaryStr: Bits): (r: string)
    ensures |r| <= |binaryStr| / 8
    ensures forall k | 0 <= k < |r| :: 0 < r[k] as int < 256
  {
    var padding := |binaryStr| % 8;
    var s := if padding != 0 then binaryStr[..|binaryStr| - padding] else binaryStr;
    assert |s| == |binaryStr| / 8 * 8;
    DecodeBytesLength(s);
    DecodeBytes(s)
  }

  /** A trailing partial byte never reaches the text. */
  lemma BinaryToTextDropsPartialByte(binaryStr: Bits)
    ensures BinaryToText(binaryStr) == BinaryToText(binaryStr[..|binaryStr| - |binaryStr| % 8])
  {
    var n, r := |binaryStr| / 8, |binaryStr| % 8;
    assert |binaryStr| == 8 * n + r;
    var t := binaryStr[..|binaryStr| - r];
    assert |t| == 8 * n;
    assert |t| % 8 == 0;
    assert BinaryToText(t) == DecodeBytes(t);
    if r == 0 {
      assert t == binaryStr;
    }
  }

  /** The bytes after the first one are the bytes of the rest. */
  lemma ByteShift(s: Bits, k: nat)
    requires 8 * k + 16 <= |s|
    ensures Byte(s[8..], k) == Byte(s, k + 1)
  {
  }

  /** Some byte among the first `n` is zero. */
  predicate SomeZeroByte(s: Bits, n: nat)
    requires 8 * n <= |s|
  {
    exists k | 0 <= k < n :: Value(Byte(s, k)) == 0
  }

  /** How many of the first `n` bytes are zero, counted from the last. */
  function ZeroBytes(s: Bits, n: nat): (r: nat)
    requires 8 * n <= |s|
    ensures r <= n
  {
    if n == 0 then 0
    else ZeroBytes(s, n - 1) + (if Value(Byte(s, n - 1)) == 0 then 1 else 0)
  }

  /** Counted from the first byte instead: the first byte, then the rest. */
  lemma {:induction false} ZeroBytesShift(s: Bits, n: nat)
    requires 8 * n + 8 <= |s|
    ensures ZeroBytes(s, n + 1) == (if Value(s[..8]) == 0 then 1 else 0) + ZeroBytes(s[8..], n)
  {
    if n == 0 {
      assert Byte(s, 0) == s[..8];
    } else {
      ZeroBytesShift(s, n - 1);
      ByteShift(s, n - 1);
    }
  }

  /** No byte is counted exactly when no byte is zero. */
  lemma {:induction false} ZeroBytesNone(s: Bits, n: nat)
    requires 8 * n <= |s|
    ensures ZeroBytes(s, n) == 0 <==> !SomeZeroByte(s, n)
  {
    if n > 0 {
      ZeroBytesNone(s, n - 1);
      if SomeZeroByte(s, n) && Value(Byte(s, n - 1)) != 0 {
        var k :| 0 <= k < n && Value(Byte(s, k)) == 0;
        assert SomeZeroByte(s, n - 1);
      }
    }
  }

  /** The decoded text has exactly one character per non-zero complete byte:
      every zero byte is lost. So it has at most one character per byte, and
      exactly one per byte precisely when no byte is zero (with the codes
      1 to 255 that `DecodeBytes` promises, `chr(0)` never appears). */
  lemma {:induction false} DecodeBytesLength(s: Bits)
    requires |s| % 8 == 0
    ensures |DecodeBytes(s)| + ZeroBytes(s, |s| / 8) == |s| / 8
    ensures |DecodeBytes(s)| <= |s| / 8
    ensures |DecodeBytes(s)| == |s| / 8 <==> !SomeZeroByte(s, |s| / 8)
    decreases |s|
  {
    if |s| > 0 {
      var rest := s[8..];
      DecodeBytesLength(rest);
      ZeroBytesShift(s, |rest| / 8);
      assert |rest| / 8 + 1 == |s| / 8;
      assert |DecodeBytes(s)| == (if Value(s[..8]) != 0 then 1 else 0) + |DecodeBytes(rest)|;
    }
    ZeroBytesNone(s, |s| / 8);
  }

  /** `binary_to_text(text_to_binary(t)) == t` for characters with codes
      1 to 255. */
  lemma {:induction false} TextRoundTrip(text: string)
    requires forall k | 0 <= k < |text| :: 0 < text[k] as int < 256
    ensures BinaryToText(TextToBinary(text)) == text
  {
    var s := TextToBinary(text);
    assert |s| % 8 == 0;
    assert BinaryToText(s) == DecodeBytes(s);
    DecodeEncoded(text);
  }

  lemma {:induction false} DecodeEncoded(text: string)
    requires forall k | 0 <= k < |text| :: 0 < text[k] as int < 256
    ensures DecodeBytes(TextToBinary(text)) == text
  {
    if |text| > 0 {
      var s := TextToBinary(text);
      assert s[..8] == CharBits(text[0]);
      assert s[8..] == TextToBinary(text[1..]);
      DecodeEncoded(text[1..]);
    }
  }

  /** A nonzero byte is the eight-bit binary of the character with its value. */
  lemma CharOfByte(b: Bits)
    requires |b| == 8 && Value(b) != 0
    ensures 0 < Value(b) < 256 && CharBits(Value(b) as char) == b
  {
    assert Pow2(8) == 0x100;
    FromNatValue(b);
  }

  /** `text_to_binary(binary_to_text(s)) == s` for a whole number of bytes
      none of which is zero. */
  lemma {:induction false} BinaryRoundTrip(s: Bits)
    requires |s| % 8 == 0 && !SomeZeroByte(s, |s| / 8)
    ensures IsByteText(BinaryToText(s))
    ensures TextToBinary(BinaryToText(s)) == s
  {
    if |s| > 0 {
      var head, rest := s[..8], s[8..];
      if SomeZeroByte(rest, |rest| / 8) {
        var k :| 0 <= k < |rest| / 8 && Value(Byte(rest, k)) == 0;
        ByteShift(s, k);
      }
      BinaryRoundTrip(rest);
      assert Byte(s, 0) == head;
      CharOfByte(head);
      var c := Value(head) as char;
      var tail := DecodeBytes(rest);
      var text := DecodeBytes(s);
      assert text == [c] + tail;
      assert text[1..] == tail;
      assert TextToBinary(text) == head + TextToBinary(tail);
      assert s == head + rest;
    }
  }
}
