/** Bit strings, most significant bit first, as the transmitter sends them and
    the receiver shifts them into its accumulator. */
module Bits {

  import opened Arith

  function Pow2(n: nat): (r: nat)
    ensures r >= 1
  {
    if n == 0 then 1 else 2 * Pow2(n - 1)
  }

  lemma Pow2Sixteen()
    ensures Pow2(16) == TWO_16
  {
    assert Pow2(2) == 4;
    assert Pow2(4) == 16;
    assert Pow2(6) == 64;
    assert Pow2(8) == 256;
    assert Pow2(10) == 1024;
    assert Pow2(12) == 4096;
    assert Pow2(14) == 16384;
  }

  /** Bit `i` of `x`, the test `x & (1L << i)` of RCSwitch.c's send loop. */
  predicate Bit(x: nat, i: nat)
  {
    if i == 0 then x % 2 == 1 else Bit(x / 2, i - 1)
  }

  /** The number whose binary digits, most significant first, are `bits`:
      what `code <<= 1; code |= b` accumulates in an unbounded register. */
  function ValueOf(bits: seq<bool>): (v: nat)
    ensures v < Pow2(|bits|)
  {
    if |bits| == 0 then 0
    else
      var init := bits[..|bits| - 1];
      assert Pow2(|bits|) == 2 * Pow2(|init|);
      2 * ValueOf(init) + (if bits[|bits| - 1] then 1 else 0)
  }

  /** The low `n` bits of `x`, bit `n - 1` first. */
  function MsbFirst(x: nat, n: nat): (bits: seq<bool>)
    ensures |bits| == n
  {
    seq(n, k requires 0 <= k < n => Bit(x, n - 1 - k))
  }

  /** The low `n` bits of `x` are the low `n - 1` bits of `x / 2` followed
      by the lowest bit of `x`. */
  lemma MsbFirstSplit(x: nat, n: nat)
    requires n > 0
    ensures MsbFirst(x, n) == MsbFirst(x / 2, n - 1) + [x % 2 == 1]
  {
    var lhs, rhs := MsbFirst(x, n), MsbFirst(x / 2, n - 1) + [x % 2 == 1];
    forall k | 0 <= k < n
      ensures lhs[k] == rhs[k]
    {
      if k < n - 1 {
        assert Bit(x, n - 1 - k) == Bit(x / 2, n - 2 - k);
      }
    }
  }

  lemma {:induction false} ValueOfAppend(bits: seq<bool>, b: bool)
    ensures ValueOf(bits + [b]) == 2 * ValueOf(bits) + (if b then 1 else 0)
  {
    assert (bits + [b])[..|bits|] == bits;
  }

  lemma ValueOfAppendTwo(bits: seq<bool>, a: bool, b: bool)
    ensures ValueOf(bits + [a] + [b]) == 4 * ValueOf(bits) + (if a then 2 else 0) + (if b then 1 else 0)
  {
    ValueOfAppend(bits, a);
    ValueOfAppend(bits + [a], b);
  }

  /** One step of a `uint16_t` accumulator, `code <<= 1; code |= b`,
      appends one bit to the bits it holds the low 16 of. */
  lemma AccumulateBit(prefix: seq<bool>, b: bool)
    ensures Wrap16(2 * (ValueOf(prefix) % TWO_16) + (if b then 1 else 0)) == ValueOf(prefix + [b]) % TWO_16
  {
    ValueOfAppend(prefix, b);
    ShiftIn(ValueOf(prefix), 2, if b then 1 else 0, ValueOf(prefix + [b]));
  }

  /** Reading back the bits `send` emits for `x` recovers `x` modulo 2^n. */
  lemma {:induction false} ValueOfMsbFirst(x: nat, n: nat)
    ensures ValueOf(MsbFirst(x, n)) == x % Pow2(n)
  {
    if n > 0 {
      var rest := MsbFirst(x / 2, n - 1);
      MsbFirstSplit(x, n);
      ValueOfMsbFirst(x / 2, n - 1);
      ValueOfAppend(rest, x % 2 == 1);
      assert (if x % 2 == 1 then 1 else 0) == x % 2;
      assert Pow2(n) == 2 * Pow2(n - 1);
      HalveMod(x, Pow2(n - 1));
    }
  }

  /** Taking the low bit off and the rest modulo m is taking x modulo 2m. */
  lemma HalveMod(x: nat, m: nat)
    requires m > 0
    ensures 2 * ((x / 2) % m) + x % 2 == x % (2 * m)
  {
    var a, b := (x / 2) / m, (x / 2) % m;
    assert x / 2 == a * m + b;
    assert x == a * (2 * m) + (2 * b + x % 2);
    ModUnique(x, 2 * m, a, 2 * b + x % 2);
  }

  /** A number below 2^n has no bit set at position n or above: the bits of
      a 16-bit code beyond bit 15 are all zero. */
  lemma {:induction false} BitAboveWidth(x: nat, n: nat, i: nat)
    requires x < Pow2(n) && n <= i
    ensures !Bit(x, i)
  {
    if i > 0 {
      assert Bit(x, i) == Bit(x / 2, i - 1);
      if n == 0 {
        BitAboveWidth(x / 2, 0, i - 1);
      } else {
        BitAboveWidth(x / 2, n - 1, i - 1);
      }
    }
  }

  /** A bit string reads as zero exactly when no bit in it is set. */
  lemma {:induction false} ValueOfZero(bits: seq<bool>)
    ensures ValueOf(bits) == 0 <==> forall k :: 0 <= k < |bits| ==> !bits[k]
  {
    if |bits| > 0 {
      var init := bits[..|bits| - 1];
      ValueOfZero(init);
      assert forall k :: 0 <= k < |init| ==> init[k] == bits[k];
    }
  }

  /** `Pow2` grows with its exponent. */
  lemma {:induction false} Pow2Monotone(a: nat, b: nat)
    requires a <= b
    ensures Pow2(a) <= Pow2(b)
    decreases b
  {
    if a < b {
      Pow2Monotone(a, b - 1);
    }
  }

  /** Concatenation is associative. */
  lemma ConcatAssoc<T>(a: seq<T>, b: seq<T>, c: seq<T>)
    ensures a + (b + c) == (a + b) + c
  {
  }
}
