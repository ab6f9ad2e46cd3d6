/** Even parity: one bit appended so that the number of '1's is even. */
module Parity {
  import opened BitString

  /** `add_even_parity`: the chunk followed by a '1' when its count of '1's
      is odd and by a '0' when it is even. */
  function AddEvenParity(bitChunk: Bits): (r: Bits)
    ensures |r| == |bitChunk| + 1 && r[..|bitChunk|] == bitChunk
    ensures Ones(r) % 2 == 0
  {
    var r := bitChunk + [Ones(bitChunk) % 2 != 0];
    assert r[..|r| - 1] == bitChunk;
    r
  }

  /** `check_even_parity`: true when the count of '1's is even. */
  function CheckEvenParity(chunkWithParity: Bits): bool
  {
    Ones(chunkWithParity) % 2 == 0
  }

  /** The check accepts a non-empty chunk exactly when its last bit is the
      parity bit `add_even_parity` appends to the bits before it. */
  lemma {:induction false} CheckMatchesParityBit(chunkWithParity: Bits)
    requires |chunkWithParity| > 0
    ensures CheckEvenParity(chunkWithParity)
      <==> AddEvenParity(chunkWithParity[..|chunkWithParity| - 1]) == chunkWithParity
  {
    var n := |chunkWithParity|;
    assert chunkWithParity == chunkWithParity[..n - 1] + [chunkWithParity[n - 1]];
  }

  /** Inverting one bit moves the count of '1's by exactly one. */
  lemma {:induction false} OnesFlip(s: Bits, k: nat)
    requires k < |s|
    ensures Ones(Flip(s, k)) == if s[k] then Ones(s) - 1 else Ones(s) + 1
  {
    var f := Flip(s, k);
    var n := |s| - 1;
    if k == n {
      assert f[..n] == s[..n];
    } else {
      assert f[..n] == Flip(s[..n], k);
      OnesFlip(s[..n], k);
    }
  }

  /** The parity of the '1's of `a` xor `e` is the sum of the two parities. */
  lemma {:induction false} OnesXorParity(a: Bits, e: Bits)
    requires |a| == |e|
    ensures Ones(Xor(a, e)) % 2 == (Ones(a) + Ones(e)) % 2
  {
    if |a| > 0 {
      var n := |a| - 1;
      assert Xor(a, e)[..n] == Xor(a[..n], e[..n]);
      OnesXorParity(a[..n], e[..n]);
    }
  }

  /** Corrupting a chunk with error pattern `e` (a '1' where a bit is
      inverted) changes the verdict of the check exactly when `e` inverts an
      odd number of bits: odd-weight errors are detected, even-weight ones
      are not. */
  lemma ParityDetectsOddErrors(chunk: Bits, e: Bits)
    requires |e| == |chunk|
    ensures CheckEvenParity(Xor(chunk, e)) == (CheckEvenParity(chunk) == (Ones(e) % 2 == 0))
  {
    OnesXorParity(chunk, e);
  }

  /** Every chunk produced by `AddEvenParity` passes the check, and inverting
      any single one of its bits makes the check fail. */
  lemma ParityDetectsSingleFlip(bitChunk: Bits, k: nat)
    requires k <= |bitChunk|
    ensures CheckEvenParity(AddEvenParity(bitChunk))
    ensures !CheckEvenParity(Flip(AddEvenParity(bitChunk), k))
  {
    OnesFlip(AddEvenParity(bitChunk), k);
  }

  /** The inherent limitation: two inverted bits cancel out. */
  lemma ParityMissesDoubleFlip(bitChunk: Bits, j: nat, k: nat)
    requires j <= |bitChunk| && k <= |bitChunk| && j != k
    ensures CheckEvenParity(Flip(Flip(AddEvenParity(bitChunk), j), k))
  {
    var once := Flip(AddEvenParity(bitChunk), j);
    OnesFlip(AddEvenParity(bitChunk), j);
    OnesFlip(once, k);
  }
}
