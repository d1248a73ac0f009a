/** `pow2gt`: smearing the top bit of x - 1 over the bits below it gives the least power of two that
    is not below x. Integers stand for the non-negative half of C's `int`. */
module Pow2gt {
  function Pow2(n: nat): (p: nat)
    ensures p >= 1
  {
    if n == 0 then 1 else 2 * Pow2(n - 1)
  }

  function Bit(a: nat, i: nat): nat { if i == 0 then a % 2 else Bit(a / 2, i - 1) }

  /** `a >> k` */
  function Shift(a: nat, k: nat): nat { if k == 0 then a else Shift(a / 2, k - 1) }

  /** `a | b` */
  function Or(a: nat, b: nat): nat {
    if a == 0 && b == 0 then 0
    else 2 * Or(a / 2, b / 2) + if a % 2 == 1 || b % 2 == 1 then 1 else 0
  }

  lemma {:induction false} BitOfShift(a: nat, k: nat, i: nat)
    ensures Bit(Shift(a, k), i) == Bit(a, i + k)
  {
    if k > 0 { BitOfShift(a / 2, k - 1, i); }
  }

  lemma {:induction false} BitOfOr(a: nat, b: nat, i: nat)
    ensures Bit(Or(a, b), i) == if Bit(a, i) == 1 || Bit(b, i) == 1 then 1 else 0
  {
    assert Or(a, b) % 2 == (if a % 2 == 1 || b % 2 == 1 then 1 else 0) && Or(a, b) / 2 == Or(a / 2, b / 2);
    if i > 0 { BitOfOr(a / 2, b / 2, i - 1); }
  }

  lemma {:induction false} OrBounded(a: nat, b: nat, n: nat)
    requires a < Pow2(n) && b < Pow2(n)
    ensures Or(a, b) < Pow2(n)
  {
    if n > 0 && (a > 0 || b > 0) { OrBounded(a / 2, b / 2, n - 1); }
  }

  lemma {:induction false} ShiftBounded(a: nat, k: nat)
    ensures Shift(a, k) <= a
  {
    if k > 0 { ShiftBounded(a / 2, k - 1); }
  }

  lemma {:induction false} TopBit(a: nat, n: nat)
    requires n > 0 && Pow2(n - 1) <= a < Pow2(n)
    ensures Bit(a, n - 1) == 1
  {
    if n > 1 { TopBit(a / 2, n - 1); }
  }

  lemma {:induction false} AllOnes(a: nat, n: nat)
    requires a < Pow2(n) && forall i :: 0 <= i < n ==> Bit(a, i) == 1
    ensures a == Pow2(n) - 1
  {
    if n > 0 {
      assert Bit(a, 0) == 1;
      forall i | 0 <= i < n - 1 ensures Bit(a / 2, i) == 1 { assert Bit(a, i + 1) == 1; }
      AllOnes(a / 2, n - 1);
    }
  }

  /** The top `k` of the `n` bits are set. */
  ghost predicate Smeared(a: nat, n: nat, k: nat) {
    a < Pow2(n) && forall i :: 0 <= i < n && n - k <= i ==> Bit(a, i) == 1
  }

  /** One line of the source doubles the run of ones. */
  lemma Double(a: nat, n: nat, k: nat)
    requires Smeared(a, n, k)
    ensures Smeared(Or(a, Shift(a, k)), n, 2 * k)
  {
    var r := Or(a, Shift(a, k));
    ShiftBounded(a, k);
    OrBounded(a, Shift(a, k), n);
    forall i | 0 <= i < n && n - 2 * k <= i ensures Bit(r, i) == 1 {
      BitOfOr(a, Shift(a, k), i);
      BitOfShift(a, k, i);
    }
  }

  lemma {:induction false} Monotonic(m: nat, n: nat)
    requires m <= n
    ensures Pow2(m) <= Pow2(n)
    decreases n
  {
    if m < n { Monotonic(m, n - 1); }
  }

  /** The number of bits of a. */
  function Width(a: nat): (n: nat)
    ensures a < Pow2(n) && (n > 0 ==> Pow2(n - 1) <= a)
  {
    if a == 0 then 0 else 1 + Width(a / 2)
  }

  const TWO_30: nat := 0x4000_0000

  lemma Thirty()
    ensures Pow2(30) == TWO_30
  {
    assert Pow2(10) == 1024;
    assert Pow2(20) == 1024 * 1024;
  }

  method Compute(x: int) returns (r: int, ghost n: nat)
    requires 1 <= x <= TWO_30
    ensures r == Pow2(n) && x <= r <= TWO_30
    ensures forall m: nat :: x <= Pow2(m) ==> r <= Pow2(m)
  {
    Thirty();
    var y := x - 1;
    n := Width(y);
    if n > 30 { Monotonic(30, n - 1); }
    if n > 0 { TopBit(y, n); }
    assert Smeared(y, n, 1);
    Double(y, n, 1);
    y := Or(y, Shift(y, 1));
    Double(y, n, 2);
    y := Or(y, Shift(y, 2));
    Double(y, n, 4);
    y := Or(y, Shift(y, 4));
    Double(y, n, 8);
    y := Or(y, Shift(y, 8));
    Double(y, n, 16);
    y := Or(y, Shift(y, 16));
    AllOnes(y, n);
    r := y + 1;
    Monotonic(n, 30);
    forall m: nat | x <= Pow2(m) ensures r <= Pow2(m) {
      if m < n { Monotonic(m, n - 1); } else { Monotonic(n, m); }
    }
  }

  /** A power of two above another is at least twice as large. */
  lemma Apart(m: nat, n: nat)
    requires Pow2(m) < Pow2(n)
    ensures 2 * Pow2(m) <= Pow2(n)
  {
    if n <= m { Monotonic(n, m); } else { Monotonic(m + 1, n); }
  }
}
