/** The CRC path of the error detector: modulo-2 polynomial long division of
    a bit string by a generator, the CRC-32 generator as a bit string, CRC
    generation over zero-padded data and the check of a received frame. */
module Crc {
  import opened BitString

  /** `CRC32_POLY`: the CRC-32 generator of IEEE 802.3, clause 3.2.9, with its
      leading x^32 term written out, so 33 bits long. */
  const Crc32Poly: nat := 0x1_04C1_1DB7

  /** `bin(n)[2:]`: the shortest binary numeral of `n`. */
  function Bin(n: nat): (r: Bits)
    ensures |r| >= 1 && Value(r) == n
    ensures n >= 1 ==> r[0]
  {
    if n < 2 then [n == 1]
    else
      var high := Bin(n / 2);
      var r := high + [n % 2 == 1];
      assert r[..|r| - 1] == high;
      r
  }

  /** A number between 2^(w-1) and 2^w has a numeral of exactly `w` digits. */
  lemma {:induction false} BinLength(n: nat, w: nat)
    requires 1 <= w && Pow2(w - 1) <= n < Pow2(w)
    ensures |Bin(n)| == w
  {
    if w > 1 {
      BinLength(n / 2, w - 1);
    }
  }

  /** The generator as the division engine receives it. */
  const PolyBits: Bits := Bin(Crc32Poly)

  /** The generator is 33 bits long and both its x^32 and x^0 terms are set. */
  lemma PolyBitsShape()
    ensures |PolyBits| == 33 && PolyBits[0] && PolyBits[32]
  {
    Pow2Values();
    BinLength(Crc32Poly, 33);
    var high := Bin(Crc32Poly / 2);
    assert PolyBits == high + [Crc32Poly % 2 == 1];
  }

  /** The window `d[i..i+|poly|)` xored with the polynomial, in place. */
  function XorWindow(d: Bits, poly: Bits, i: nat): (r: Bits)
    requires i + |poly| <= |d|
  {
    seq(|d|, k requires 0 <= k < |d| => if i <= k < i + |poly| then d[k] != poly[k - i] else d[k])
  }

  /** One iteration of the outer loop: xor the window at `i` when bit `i` is 1. */
  function Step(d: Bits, poly: Bits, i: nat): Bits
    requires 1 <= |poly| && i + |poly| <= |d|
  {
    if d[i] then XorWindow(d, poly, i) else d
  }

  /** The working list after the iterations `i .. |d| - |poly|` of the outer
      loop; `ReduceFrom(d, poly, 0)` is the whole long division. */
  function ReduceFrom(d: Bits, poly: Bits, i: nat): (r: Bits)
    requires 1 <= |poly|
    ensures |r| == |d|
    decreases |d| - i
  {
    if i + |poly| > |d| then d else ReduceFrom(Step(d, poly, i), poly, i + 1)
  }

  /** What the division engine returns: the last `|poly| - 1` bits of the
      working list, with Python's slice `data[-(n - 1):]`. */
  function Remainder(d: Bits, poly: Bits): Bits
    requires 1 <= |poly|
  {
    PySuffix(ReduceFrom(d, poly, 0), |poly| - 1)
  }

  /** One more iteration of the outer loop. */
  lemma ReduceFromUnfold(d: Bits, poly: Bits, i: nat)
    requires 1 <= |poly| && i + |poly| <= |d|
    ensures ReduceFrom(d, poly, i) == ReduceFrom(Step(d, poly, i), poly, i + 1)
  {
  }

  /** The inner loop of lines 38-39: xors the polynomial into the window
      of `data` that starts at `i`, in place. */
  method XorPolyAt(data: array<bool>, poly: Bits, i: nat)
    requires i + |poly| <= data.Length
    modifies data
    ensures data[..] == XorWindow(old(data[..]), poly, i)
  {
    for j := 0 to |poly|
      invariant forall k | 0 <= k < data.Length ::
        data[k] == if i <= k < i + j then old(data[k]) != poly[k - i] else old(data[k])
    {
      data[i + j] := data[i + j] != poly[j];
    }
  }

  /** `_crc_division_engine`: copies the data into a fresh list, xors the
      polynomial into every window whose first bit is 1, scanning left to
      right, and returns the tail. The caller's bits are never changed. */
  method DivisionEngine(dataBitsStr: Bits, polyBitsStr: Bits) returns (remainder: Bits)
    requires 1 <= |polyBitsStr|
    ensures remainder == Remainder(dataBitsStr, polyBitsStr)
  {
    var poly := polyBitsStr;
    var data := new bool[|dataBitsStr|](k requires 0 <= k < |dataBitsStr| => dataBitsStr[k]);
    var n := |poly|;
    assert data[..] == dataBitsStr;
    var i := 0;
    while i < data.Length - n + 1
      invariant 0 <= i
      invariant i > 0 ==> i <= data.Length - n + 1
      invariant ReduceFrom(data[..], poly, i) == ReduceFrom(dataBitsStr, poly, 0)
    {
      ghost var before := data[..];
      ReduceFromUnfold(before, poly, i);
      if data[i] {
        XorPolyAt(data, poly, i);
      }
      assert data[..] == Step(before, poly, i);
      i := i + 1;
    }
    remainder := PySuffix(data[..], n - 1);
  }

  /** `str.zfill`: left-pads with '0' up to `width` characters. The string
      ends the result, and is returned as it is when already that long. */
  function ZFill(s: Bits, width: nat): (r: Bits)
    ensures |r| >= width && |r| >= |s| && r[|r| - |s|..] == s
    ensures |s| >= width ==> r == s
  {
    if |s| >= width then s
    else
      var pad := Zeros(width - |s|);
      assert (pad + s)[|pad|..] == s;
      pad + s
  }

  /** Zero-filling never changes the value the string stands for. */
  lemma {:induction false} ZFillValue(s: Bits, width: nat)
    ensures Value(ZFill(s, width)) == Value(s)
  {
    if |s| < width {
      var pad := Zeros(width - |s|);
      assert ZFill(s, width) == pad + s;
      ValueConcat(pad, s);
      ValueZero(pad);
      assert Value(pad) == 0;
    }
  }

  /** `generate_crc`: the remainder of the data followed by 32 zero bits,
      always exactly 32 bits long (the empty data included). */
  function GenerateCrc(dataBits: Bits): (crc: Bits)
    ensures |crc| == 32
  {
    var numPolyBits := |PolyBits|;
    var paddedData := dataBits + Zeros(numPolyBits - 1);
    PolyBitsShape();
    RemainderShape(paddedData, PolyBits);
    ZFill(Remainder(paddedData, PolyBits), numPolyBits - 1)
  }

  /** `check_crc`: the remainder of the received frame, as an integer. The
      frame must not be empty: `int('', 2)` raises. */
  function CheckCrc(frameWithCrc: Bits): (r: nat)
    requires |frameWithCrc| >= 1
    ensures r < Pow2(32)
  {
    var remainder := Remainder(frameWithCrc, PolyBits);
    PolyBitsShape();
    RemainderShape(frameWithCrc, PolyBits);
    Pow2Monotone(|remainder|, 32);
    Value(remainder)
  }

  /** The remainder is the last `|poly| - 1` bits of the working list when
      the data is at least that long, and the data itself otherwise. */
  lemma RemainderShape(d: Bits, poly: Bits)
    requires 2 <= |poly|
    ensures |d| >= |poly| - 1 ==>
      Remainder(d, poly) == ReduceFrom(d, poly, 0)[|d| - (|poly| - 1)..] && |Remainder(d, poly)| == |poly| - 1
    ensures |d| < |poly| - 1 ==> Remainder(d, poly) == d
  {
    var r := ReduceFrom(d, poly, 0);
    if |d| < |poly| - 1 {
      assert r == d;
    } else {
      assert Remainder(d, poly) == PySuffix(r, |poly| - 1);
    }
  }

  /** With a polynomial whose leading bit is 1, every position the scan
      visits ends as 0: the scan is a true long division. */
  lemma {:induction false} ReduceClearsHead(d: Bits, poly: Bits, i: nat)
    requires 1 <= |poly| && poly[0]
    requires forall k | 0 <= k < i && k + |poly| <= |d| :: !d[k]
    ensures forall k | 0 <= k && k + |poly| <= |d| :: !ReduceFrom(d, poly, i)[k]
    decreases |d| - i
  {
    if i + |poly| <= |d| {
      ReduceClearsHead(Step(d, poly, i), poly, i + 1);
    }
  }

  /** The scan changes nothing when every bit it would inspect is 0. */
  lemma {:induction false} ReduceIdle(x: Bits, poly: Bits, i: nat)
    requires 1 <= |poly|
    requires forall k | i <= k && k + |poly| <= |x| :: !x[k]
    ensures ReduceFrom(x, poly, i) == x
    decreases |x| - i
  {
    if i + |poly| <= |x| {
      ReduceIdle(x, poly, i + 1);
    }
  }

  lemma StepLinear(x: Bits, y: Bits, poly: Bits, i: nat)
    requires |x| == |y| && 1 <= |poly| && i + |poly| <= |x|
    ensures Xor(Step(x, poly, i), Step(y, poly, i)) == Step(Xor(x, y), poly, i)
  {
    var lhs := Xor(Step(x, poly, i), Step(y, poly, i));
    var rhs := Step(Xor(x, y), poly, i);
    forall k | 0 <= k < |x| ensures lhs[k] == rhs[k] {
    }
  }

  /** Modulo-2 division is linear: dividing `x xor y` leaves the xor of the
      working lists of `x` and `y`. */
  lemma {:induction false} ReduceLinear(x: Bits, y: Bits, poly: Bits, i: nat)
    requires |x| == |y| && 1 <= |poly|
    ensures Xor(ReduceFrom(x, poly, i), ReduceFrom(y, poly, i)) == ReduceFrom(Xor(x, y), poly, i)
    decreases |x| - i
  {
    if i + |poly| <= |x| {
      StepLinear(x, y, poly, i);
      ReduceLinear(Step(x, poly, i), Step(y, poly, i), poly, i + 1);
    } else {
      assert Xor(ReduceFrom(x, poly, i), ReduceFrom(y, poly, i)) == Xor(x, y);
    }
  }

  /** The data followed by the remainder of its division with
      `|poly| - 1` zero bits appended: what a sender transmits. */
  function Frame(d: Bits, poly: Bits): Bits
    requires 1 <= |poly|
  {
    d + Remainder(d + Zeros(|poly| - 1), poly)
  }

  /** The zero-padded data xored with the remainder shifted under the
      padding is the frame's bits. */
  lemma PaddedXorShifted(d: Bits, crc: Bits)
    ensures Xor(d + Zeros(|crc|), Zeros(|d|) + crc) == d + crc
  {
  }

  /** The scan leaves `t` placed under zeros untouched: it only inspects the
      zeros. */
  lemma ShiftedIdle(d: Bits, t: Bits, poly: Bits)
    requires 1 <= |poly| && |t| == |poly| - 1
    ensures ReduceFrom(Zeros(|d|) + t, poly, 0) == Zeros(|d|) + t
  {
    var shifted := Zeros(|d|) + t;
    forall k | 0 <= k && k + |poly| <= |shifted| ensures !shifted[k] {
      assert k < |d|;
    }
    ReduceIdle(shifted, poly, 0);
  }

  /** Xoring in a string the scan leaves untouched commutes with the scan. */
  lemma ReduceXorIdle(x: Bits, y: Bits, z: Bits, poly: Bits)
    requires |x| == |y| && 1 <= |poly|
    requires ReduceFrom(y, poly, 0) == y && Xor(x, y) == z
    ensures ReduceFrom(z, poly, 0) == Xor(ReduceFrom(x, poly, 0), y)
  {
    ReduceLinear(x, y, poly, 0);
  }

  /** Dividing the data followed by `t` leaves the working list of the
      zero-padded data xored with `t` placed under the padding: the scan
      never inspects the tail, and it is linear. */
  lemma ReduceWithTail(d: Bits, t: Bits, poly: Bits)
    requires 1 <= |poly| && |t| == |poly| - 1
    ensures ReduceFrom(d + t, poly, 0) == Xor(ReduceFrom(d + Zeros(|t|), poly, 0), Zeros(|d|) + t)
  {
    var padded, shifted := d + Zeros(|t|), Zeros(|d|) + t;
    assert ReduceFrom(shifted, poly, 0) == shifted by {
      ShiftedIdle(d, t, poly);
    }
    assert Xor(padded, shifted) == d + t by {
      PaddedXorShifted(d, t);
    }
    ReduceXorIdle(padded, shifted, d + t, poly);
  }

  /** Dividing a frame leaves a working list whose last `|poly| - 1` bits
      are 0. */
  lemma FrameDivides(d: Bits, poly: Bits)
    requires 2 <= |poly|
    ensures |Frame(d, poly)| == |d| + |poly| - 1
    ensures forall k | |d| <= k < |Frame(d, poly)| :: !ReduceFrom(Frame(d, poly), poly, 0)[k]
  {
    var m := |poly| - 1;
    var padded := d + Zeros(m);
    var reduced := ReduceFrom(padded, poly, 0);
    RemainderShape(padded, poly);
    var crc := Remainder(padded, poly);
    assert crc == reduced[|d|..];
    ReduceWithTail(d, crc, poly);
    var frame := ReduceFrom(d + crc, poly, 0);
    var shifted := Zeros(|d|) + crc;
    var x := Xor(reduced, shifted);
    assert frame == x;
    forall k | |d| <= k < |d| + m ensures !frame[k] {
      assert shifted[k] == crc[k - |d|] == reduced[k];
      assert x[k] == (reduced[k] != shifted[k]);
    }
  }

  /** The invariant of the burst argument while the scan stands at `i`: some
      bit is still 1, no bit from `max(i, s) + |poly| - 1` on is 1, and the
      bits between `i` and `s` are 0. */
  ghost predicate Pending(x: Bits, poly: Bits, i: nat, s: nat)
  {
    var top := if i < s then s else i;
    && (exists k | 0 <= k < |x| :: x[k])
    && (forall k | 0 <= k < |x| && top + |poly| - 1 <= k :: !x[k])
    && (forall k | i <= k < s && k < |x| :: !x[k])
  }

  /** Dividing a non-zero error pattern that spans fewer bits than the
      polynomial never leaves the working list all zero: after the last
      xor the polynomial's x^0 term stays set. */
  lemma {:induction false} ReducePending(x: Bits, poly: Bits, i: nat, s: nat)
    requires 2 <= |poly| && poly[|poly| - 1]
    requires Pending(x, poly, i, s)
    ensures exists k | 0 <= k < |x| :: ReduceFrom(x, poly, i)[k]
    decreases |x| - i
  {
    if i + |poly| <= |x| {
      var next := Step(x, poly, i);
      if x[i] {
        assert next[i + |poly| - 1];
      }
      assert Pending(next, poly, i + 1, s);
      ReducePending(next, poly, i + 1, s);
      assert ReduceFrom(x, poly, i) == ReduceFrom(next, poly, i + 1);
    } else {
      assert ReduceFrom(x, poly, i) == x;
    }
  }

  /** Dividing a non-zero error pattern confined to `|poly| - 1` consecutive
      bits leaves a 1 among its last `|poly| - 1` bits, for a generator whose
      first and last bits are 1. */
  lemma ErrorLeavesTail(m: nat, poly: Bits, e: Bits, s: nat)
    requires 2 <= |poly| && poly[0] && poly[|poly| - 1]
    requires |e| == m + |poly| - 1
    requires exists k | 0 <= k < |e| :: e[k]
    requires forall k | 0 <= k < |e| && e[k] :: s <= k < s + |poly| - 1
    ensures exists k | m <= k < |e| :: ReduceFrom(e, poly, 0)[k]
  {
    assert Pending(e, poly, 0, s);
    ReducePending(e, poly, 0, s);
    var k :| 0 <= k < |e| && ReduceFrom(e, poly, 0)[k];
    ReduceClearsHead(e, poly, 0);
    assert m <= k;
  }

  /** Burst detection for any generator whose first and last bits are 1:
      corrupting a divisible frame with a non-zero error pattern confined to
      `|poly| - 1` consecutive bits (those from `s` on) leaves a remainder
      with a 1 in it. */
  lemma BurstLeavesRemainder(d: Bits, poly: Bits, e: Bits, s: nat)
    requires 2 <= |poly| && poly[0] && poly[|poly| - 1]
    requires |e| == |d| + |poly| - 1
    requires exists k | 0 <= k < |e| :: e[k]
    requires forall k | 0 <= k < |e| && e[k] :: s <= k < s + |poly| - 1
    ensures |Remainder(Xor(Frame(d, poly), e), poly)| == |poly| - 1
    ensures exists k | 0 <= k < |poly| - 1 :: Remainder(Xor(Frame(d, poly), e), poly)[k]
  {
    ErrorLeavesTail(|d|, poly, e, s);
    var k :| |d| <= k < |e| && ReduceFrom(e, poly, 0)[k];
    FrameDivides(d, poly);
    var frame := Frame(d, poly);
    var received := Xor(frame, e);
    ReduceLinear(frame, e, poly, 0);
    var reduced := ReduceFrom(received, poly, 0);
    assert !ReduceFrom(frame, poly, 0)[k];
    assert reduced[k];
    RemainderShape(received, poly);
    var rem := Remainder(received, poly);
    assert rem == reduced[|d|..];
    assert rem[k - |d|];
  }

  /** `generate_crc` appends exactly the remainder of the zero-padded data:
      `zfill` never pads. */
  lemma GenerateCrcShape(dataBits: Bits)
    ensures dataBits + GenerateCrc(dataBits) == Frame(dataBits, PolyBits)
  {
    PolyBitsShape();
    FrameDivides(dataBits, PolyBits);
    assert dataBits + GenerateCrc(dataBits) == Frame(dataBits, PolyBits);
  }

  /** For any generator, a frame made of the data and its remainder has a
      remainder of value 0. */
  lemma FrameRemainderZero(d: Bits, poly: Bits)
    requires 2 <= |poly|
    ensures |Frame(d, poly)| >= 1 && Value(Remainder(Frame(d, poly), poly)) == 0
  {
    var frame := Frame(d, poly);
    FrameDivides(d, poly);
    RemainderShape(frame, poly);
    var r := Remainder(frame, poly);
    assert forall k | 0 <= k < |r| :: r[k] == ReduceFrom(frame, poly, 0)[|d| + k];
    ValueZero(r);
  }

  /** The generate/verify symmetry: a frame made of the data and its CRC
      checks to 0, for every data string, the empty one included. */
  lemma CrcRoundTrip(dataBits: Bits)
    ensures CheckCrc(dataBits + GenerateCrc(dataBits)) == 0
  {
    PolyBitsShape();
    GenerateCrcShape(dataBits);
    FrameRemainderZero(dataBits, PolyBits);
  }

  /** Burst detection: corrupting a valid frame with any non-zero error
      pattern confined to 32 consecutive bits (those from `s` on) gives a
      non-zero `check_crc`. */
  lemma CrcDetectsBurst(dataBits: Bits, e: Bits, s: nat)
    requires |e| == |dataBits| + 32
    requires exists k | 0 <= k < |e| :: e[k]
    requires forall k | 0 <= k < |e| && e[k] :: s <= k < s + 32
    ensures CheckCrc(Xor(dataBits + GenerateCrc(dataBits), e)) != 0
  {
    PolyBitsShape();
    GenerateCrcShape(dataBits);
    BurstLeavesRemainder(dataBits, PolyBits, e, s);
    ValueZero(Remainder(Xor(Frame(dataBits, PolyBits), e), PolyBits));
  }

  /** Every single-bit error in a frame is detected. */
  /** The error pattern of one inverted bit has a '1' there and nowhere
      else. */
  lemma SingleBitError(e: Bits, k: nat)
    requires k < |e| && e == Zeros(|e|)[k := true]
    ensures e[k] && forall j | 0 <= j < |e| && e[j] :: j == k
  {
  }

  lemma CrcDetectsSingleFlip(dataBits: Bits, k: nat)
    requires k < |dataBits| + 32
    ensures CheckCrc(Flip(dataBits + GenerateCrc(dataBits), k)) != 0
  {
    var frame := dataBits + GenerateCrc(dataBits);
    var e := Zeros(|frame|)[k := true];
    FlipAsXor(frame, k);
    SingleBitError(e, k);
    CrcDetectsBurst(dataBits, e, k);
  }
}
