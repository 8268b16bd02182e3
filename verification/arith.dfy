/** Machine integers as the AVR build of RCSwitch sees them.

    On AVR `int` is 16 bits wide, so `uint16_t` is `unsigned int`: it is not
    promoted, and every `+`, `-`, `*` and `<<` on two `uint16_t` operands wraps
    modulo 2^16. This module makes that wrap-around explicit. */
module Arith {

  const TWO_16: int := 0x1_0000

  type uint8 = x: int | 0 <= x < 0x100
  type int8 = x: int | -0x80 <= x < 0x80
  type uint16 = x: int | 0 <= x < 0x1_0000
  type int32 = x: int | -0x8000_0000 <= x < 0x8000_0000

  function Abs(x: int): (r: nat)
    ensures r == x || r == -x
  {
    if x < 0 then -x else x
  }

  /** Reduction of an unbounded result to `uint16_t`. */
  function Wrap16(x: int): (r: uint16)
    ensures 0 <= x < TWO_16 ==> r == x
    ensures (x - r) % TWO_16 == 0
  {
    x % TWO_16
  }

  /** `a * b` on two `uint16_t` operands: the product modulo 2^16. */
  function Mul16(a: uint16, b: uint16): (r: uint16)
    ensures a * b < TWO_16 ==> r == a * b
    ensures r <= a * b
    ensures (a * b - r) % TWO_16 == 0
  {
    Wrap16(a * b)
  }

  /** Conversion of a byte to `int8_t`: the byte read as two's complement. */
  function Int8Of(x: uint8): (r: int8)
    ensures (x - r) % 0x100 == 0
    ensures x < 0x80 <==> r >= 0
  {
    if x < 0x80 then x else x - 0x100
  }

  /** `diff(A, B)` of RCSwitch.c: `abs(A - B)` where `A - B` wraps as
      `unsigned int`, is handed to `abs` as a 16-bit `int`, and the result
      goes back to `uint16_t`. It is the true distance only while that
      distance fits in 15 bits (plus the single value 32768); beyond it
      measures the distance the other way round the 16-bit circle. */
  function Diff(a: uint16, b: uint16): uint16
  {
    var w := Wrap16(a - b);
    var s := if w < 0x8000 then w else w - TWO_16;
    // abs(-32768) overflows back to -32768, which reads as 32768 again
    if s >= 0 then s else Wrap16(-s)
  }

  /** `Diff` is the distance of `a` and `b` when that is at most 32768, and
      the distance round the 16-bit circle otherwise; never above 32768. */
  lemma DiffDistance(a: uint16, b: uint16)
    ensures Diff(a, b) <= 0x8000
    ensures Diff(a, b) == Abs(a - b) <==> Abs(a - b) <= 0x8000
    ensures Abs(a - b) > 0x8000 ==> Diff(a, b) == TWO_16 - Abs(a - b)
  {
  }

  lemma DiffSymmetric(a: uint16, b: uint16)
    ensures Diff(a, b) == Diff(b, a)
  {
    DiffDistance(a, b);
    DiffDistance(b, a);
  }

  /** Uniqueness of the Euclidean quotient and remainder. */
  lemma ModUnique(x: int, m: int, q: int, r: int)
    requires m > 0 && 0 <= r < m && x == q * m + r
    ensures x % m == r
  {
    var q0, r0 := x / m, x % m;
    assert x == q0 * m + r0;
    var d := q - q0;
    assert d * m == r0 - r by {
      assert q * m - q0 * m == (q - q0) * m;
    }
  }

  /** A `uint16_t` counter that has wrapped still wraps the same way after
      `d` more. */
  lemma WrapAdd(n: int, d: int)
    ensures Wrap16(Wrap16(n) + d) == Wrap16(n + d)
  {
    ModShift(n, 1, d, TWO_16);
  }

  /** Shifting a `uint16_t` register left by a factor `c` and adding `d`
      keeps the low 16 bits of the unbounded result `y`. */
  lemma ShiftIn(x: int, c: int, d: int, y: int)
    requires y == c * x + d
    ensures Wrap16(c * (x % TWO_16) + d) == y % TWO_16
  {
    ModShift(x, c, d, TWO_16);
  }

  /** Reducing an accumulator before shifting it gives the same residue as
      shifting the unbounded value. */
  lemma ModShift(x: int, c: int, b: int, m: int)
    requires m > 0
    ensures (c * (x % m) + b) % m == (c * x + b) % m
  {
    var q, r := x / m, x % m;
    assert x == q * m + r;
    var y := c * r + b;
    var q1, r1 := y / m, y % m;
    assert y == q1 * m + r1;
    assert c * x + b == (c * q + q1) * m + r1 by {
      assert c * x == c * q * m + c * r;
    }
    ModUnique(c * x + b, m, c * q + q1, r1);
  }
}
