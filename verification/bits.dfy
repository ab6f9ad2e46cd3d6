/** Bit strings as the error-detection code handles them: a string over
    {'0','1'}, written here as a sequence of booleans with `true` for '1'.
    The module also gives the few Python conversions the code relies on:
    `int(s, 2)`, `format(v, '0wb')`, `s.count('1')` and negative slices. */
module BitString {

  type Bits = seq<bool>

  /** The digit a bit stands for. */
  function Bit(b: bool): nat
  {
    if b then 1 else 0
  }

  function Pow2(n: nat): (r: nat)
    ensures r >= 1
  {
    if n == 0 then 1 else 2 * Pow2(n - 1)
  }

  lemma {:induction false} Pow2Add(a: nat, b: nat)
    ensures Pow2(a + b) == Pow2(a) * Pow2(b)
  {
    if a > 0 {
      Pow2Add(a - 1, b);
    }
  }

  lemma {:induction false} Pow2Monotone(a: nat, b: nat)
    requires a <= b
    ensures Pow2(a) <= Pow2(b)
  {
    if a < b {
      Pow2Monotone(a, b - 1);
    }
  }

  lemma Pow2Values()
    ensures Pow2(8) == 0x100 && Pow2(16) == 0x1_0000
    ensures Pow2(32) == 0x1_0000_0000 && Pow2(33) == 0x2_0000_0000
  {
    assert Pow2(8) == 0x100;
    Pow2Add(8, 8);
    Pow2Add(16, 16);
    Pow2Add(32, 1);
  }

  /** `'0' * n`. */
  function Zeros(n: nat): (r: Bits)
  {
    seq(n, _ => false)
  }

  /** `int(s, 2)`: the unsigned value of `s`, most significant bit first
      (the empty string, on which Python raises, is given the value 0). */
  function Value(s: Bits): (v: nat)
    ensures v < Pow2(|s|)
  {
    if |s| == 0 then 0 else 2 * Value(s[..|s| - 1]) + Bit(s[|s| - 1])
  }

  /** `format(v, '0{w}b')` for a value that fits in `w` bits: exactly `w`
      digits, most significant first, zero-filled on the left. */
  function FromNat(v: nat, w: nat): (r: Bits)
    requires v < Pow2(w)
    ensures |r| == w && Value(r) == v
  {
    if w == 0 then [] else FromNat(v / 2, w - 1) + [v % 2 == 1]
  }

  /** Formatting a string's own value at its own width gives the string back. */
  lemma {:induction false} FromNatValue(s: Bits)
    ensures FromNat(Value(s), |s|) == s
  {
    if |s| > 0 {
      var init := s[..|s| - 1];
      FromNatValue(init);
      assert Value(s) / 2 == Value(init);
      assert s == init + [s[|s| - 1]];
    }
  }

  /** The arithmetic step of `ValueConcat`, kept apart from the sequences. */
  lemma ShiftAlgebra(va: int, p: int, vi: int, c: int)
    ensures 2 * (va * p + vi) + c == va * (2 * p) + (2 * vi + c)
  {
  }

  lemma {:induction false} ValueConcat(a: Bits, b: Bits)
    ensures Value(a + b) == Value(a) * Pow2(|b|) + Value(b)
  {
    if |b| > 0 {
      var init, last := b[..|b| - 1], b[|b| - 1];
      var ab := a + b;
      assert ab[..|ab| - 1] == a + init;
      assert ab[|ab| - 1] == last;
      ValueConcat(a, init);
      ShiftAlgebra(Value(a), Pow2(|init|), Value(init), Bit(last));
    } else {
      assert a + b == a;
    }
  }

  /** A bit string has value 0 exactly when it holds no '1'. */
  lemma {:induction false} ValueZero(s: Bits)
    ensures Value(s) == 0 <==> forall k | 0 <= k < |s| :: !s[k]
  {
    if |s| > 0 {
      var init := s[..|s| - 1];
      ValueZero(init);
      assert (forall k | 0 <= k < |s| :: !s[k])
        <==> (forall k | 0 <= k < |init| :: !init[k]) && !s[|s| - 1];
    }
  }

  /** `s.count('1')`. */
  function Ones(s: Bits): nat
  {
    if |s| == 0 then 0 else Ones(s[..|s| - 1]) + Bit(s[|s| - 1])
  }

  /** The same string with the bit at `k` inverted. */
  function Flip(s: Bits, k: nat): Bits
    requires k < |s|
  {
    s[k := !s[k]]
  }

  /** Inverting one bit changes the value of a string of `n` digits by a
      power of two: never by 0, and by at most `2^(n-1)` either way. */
  lemma {:induction false} ValueFlip(s: Bits, i: nat)
    requires i < |s|
    ensures Value(Flip(s, i)) != Value(s)
    ensures Value(Flip(s, i)) <= Value(s) + Pow2(|s| - 1)
    ensures Value(s) <= Value(Flip(s, i)) + Pow2(|s| - 1)
  {
    var n := |s| - 1;
    var f := Flip(s, i);
    assert Value(s) == 2 * Value(s[..n]) + Bit(s[n]);
    assert Value(f) == 2 * Value(f[..n]) + Bit(f[n]);
    if i == n {
      assert f[..n] == s[..n];
      assert Bit(f[n]) != Bit(s[n]);
    } else {
      assert f[..n] == Flip(s[..n], i);
      assert f[n] == s[n];
      ValueFlip(s[..n], i);
      assert Pow2(n) == 2 * Pow2(n - 1);
    }
  }

  /** `'1' * n`. */
  function AllSet(n: nat): (r: Bits)
  {
    seq(n, _ => true)
  }

  /** The string of `n` ones has the largest value of `n` digits. */
  lemma {:induction false} ValueAllSet(n: nat)
    ensures Value(AllSet(n)) == Pow2(n) - 1
  {
    if n > 0 {
      assert AllSet(n)[..n - 1] == AllSet(n - 1);
      ValueAllSet(n - 1);
    }
  }

  /** Bitwise exclusive or of two strings of the same length. */
  function Xor(a: Bits, b: Bits): (r: Bits)
    requires |a| == |b|
  {
    seq(|a|, k requires 0 <= k < |a| => a[k] != b[k])
  }

  /** Inverting one bit is xoring with a string that has a single '1'. */
  lemma FlipAsXor(s: Bits, k: nat)
    requires k < |s|
    ensures Flip(s, k) == Xor(s, Zeros(|s|)[k := true])
  {
  }

  /** Python's `s[-k:]` for `k >= 0`: `s[-0:]` is the whole string, and so is
      a slice reaching past its start. */
  function PySuffix(s: Bits, k: nat): (r: Bits)
  {
    if k == 0 || k >= |s| then s else s[|s| - k..]
  }

  /** Python's `s[:-k]` for `k >= 0`: `s[:-0]` is empty, and so is a slice
      reaching past its start. */
  function PyDropSuffix(s: Bits, k: nat): (r: Bits)
  {
    if k == 0 || k >= |s| then [] else s[..|s| - k]
  }
}
