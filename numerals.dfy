/** Natural numbers written as digit sequences in a base, most significant digit first. */
module Numerals {

  function Pow(b: nat, k: nat): (r: nat)
    ensures b > 0 ==> r > 0
  {
    if k == 0 then 1 else b * Pow(b, k - 1)
  }

  lemma {:induction false} PowAdd(b: nat, m: nat, n: nat)
    ensures Pow(b, m + n) == Pow(b, m) * Pow(b, n)
  {
    if m > 0 {
      PowAdd(b, m - 1, n);
      assert Pow(b, m + n) == b * Pow(b, m - 1 + n);
      MulAssoc(b, Pow(b, m - 1), Pow(b, n));
    }
  }

  /** The powers of two the address arithmetic meets. */
  lemma PowersOfTwo()
    ensures Pow(2, 8) == 0x100 && Pow(2, 15) == 0x8000 && Pow(2, 16) == 0x1_0000
    ensures Pow(2, 22) == 0x40_0000 && Pow(2, 24) == 0x100_0000
    ensures Pow(2, 32) == 0x1_0000_0000
    ensures Pow(2, 128) == 0x1_0000_0000_0000_0000_0000_0000_0000_0000
  {
    PowAdd(2, 8, 7);
    PowAdd(2, 8, 8);
    PowAdd(2, 16, 6);
    PowAdd(2, 16, 8);
    PowAdd(2, 16, 16);
    PowAdd(2, 32, 32);
    PowAdd(2, 64, 64);
  }

  lemma MulAssoc(x: nat, y: nat, z: nat)
    ensures x * (y * z) == (x * y) * z
  {
  }

  lemma {:induction false} PowMul(b: nat, m: nat, n: nat)
    ensures Pow(Pow(b, m), n) == Pow(b, m * n)
  {
    if n > 0 {
      PowMul(b, m, n - 1);
      PowAdd(b, m, m * (n - 1));
      assert m + m * (n - 1) == m * n;
    }
  }

  lemma MulCancelLess(base: nat, q: nat, p: nat)
    requires base > 0 && base * q < base * p
    ensures q < p
  {
  }

  lemma DivMod(a: nat, b: nat)
    requires b > 0
    ensures a == (a / b) * b + a % b && a % b < b
  {
  }

  /** Quotient bound: `a < base * p` leaves `a / base < p`. */
  lemma DivBelow(a: nat, base: nat, p: nat)
    requires base > 0 && a < base * p
    ensures a / base < p
  {
    assert base * (a / base) <= a;
    MulCancelLess(base, a / base, p);
  }

  /** The quotient is the one multiple of `b` that `a` lies in the block of. */
  lemma DivUnique(a: nat, b: nat, q: nat)
    requires b > 0 && q * b <= a < q * b + b
    ensures a / b == q
  {
    DivMod(a, b);
    var d := a / b;
    assert (d + 1) * b == d * b + b;
    assert (q + 1) * b == q * b + b;
    assert b * d < b * (q + 1);
    MulCancelLess(b, d, q + 1);
    assert b * q < b * (d + 1);
    MulCancelLess(b, q, d + 1);
  }

  /** The multiple of `b` after a multiple of `b` is one too. */
  lemma NextMultiple(x: nat, b: nat)
    requires b > 0 && x % b == 0
    ensures (x + b) % b == 0
  {
    var q := x / b;
    DivMod(x, b);
    assert x + b == (q + 1) * b;
    DivUnique(x + b, b, q + 1);
    DivMod(x + b, b);
  }

  lemma MulNonneg(x: nat, y: nat)
    ensures x * y >= 0
  {
  }

  /** `a` rounded down to a multiple of `b`: `a` with its low digits in base `b` cleared. */
  function RoundDown(a: nat, b: nat): (r: nat)
    requires b > 0
  {
    MulNonneg(a / b, b);
    (a / b) * b
  }

  lemma MulMono(x: nat, y: nat, b: nat)
    requires x <= y
    ensures x * b <= y * b
  {
  }

  /**
   * Rounding `a` down to a multiple of `b`: the multiple lies within `b` below
   * `a`, and a whole block of `b` still fits below `m * b`.
   */
  lemma FloorBlock(a: nat, b: nat, m: nat)
    requires b > 0 && a < m * b
    ensures RoundDown(a, b) <= a < RoundDown(a, b) + b
    ensures RoundDown(a, b) + b <= m * b
    ensures RoundDown(a, b) / b == a / b
  {
    var q := a / b;
    DivMod(a, b);
    assert m * b == b * m;
    DivBelow(a, b, m);
    MulMono(q + 1, m, b);
    assert (q + 1) * b == q * b + b;
    DivUnique(q * b, b, q);
  }

  /** The number whose base-`base` digits, most significant first, are `ds`. */
  function Value(ds: seq<nat>, base: nat): nat
  {
    if |ds| == 0 then 0 else Value(ds[..|ds| - 1], base) * base + ds[|ds| - 1]
  }

  /**
   * The last `k` base-`base` digits of `a`, most significant first and padded
   * with leading zeros: the fixed-width groups of an address (octets, hextets).
   */
  function Groups(a: nat, base: nat, k: nat): (gs: seq<nat>)
    requires base > 1
    ensures |gs| == k
    ensures forall i :: 0 <= i < k ==> gs[i] < base
    decreases k
  {
    if k == 0 then [] else Groups(a / base, base, k - 1) + [a % base]
  }

  /** Reading back the `k` groups of a number below `base^k` gives the number. */
  lemma {:induction false} GroupsRoundTrip(a: nat, base: nat, k: nat)
    requires base > 1 && a < Pow(base, k)
    ensures Value(Groups(a, base, k), base) == a
    decreases k
  {
    if k > 0 {
      DivPow(a, base, k);
      GroupsRoundTrip(a / base, base, k - 1);
      GroupsStep(a, base, k);
    }
  }

  lemma DivPow(a: nat, base: nat, k: nat)
    requires base > 1 && a < Pow(base, k) && k > 0
    ensures a / base < Pow(base, k - 1)
  {
    assert Pow(base, k) == base * Pow(base, k - 1);
    DivBelow(a, base, Pow(base, k - 1));
  }

  lemma GroupsStep(a: nat, base: nat, k: nat)
    requires base > 1 && k > 0
    requires Value(Groups(a / base, base, k - 1), base) == a / base
    ensures Value(Groups(a, base, k), base) == a
  {
    var gs := Groups(a, base, k);
    assert gs[..k - 1] == Groups(a / base, base, k - 1);
    assert Value(gs, base) == (a / base) * base + a % base;
    DivMod(a, base);
  }

  /**
   * The shortest base-`base` digit sequence of `n` (no leading zero unless `n`
   * is zero), as `{:x}` and `{}` print an integer.
   */
  function Digits(n: nat, base: nat): (ds: seq<nat>)
    requires base > 1
    ensures |ds| >= 1
    ensures forall i :: 0 <= i < |ds| ==> ds[i] < base
    ensures |ds| > 1 ==> ds[0] != 0
    ensures Value(ds, base) == n
    decreases n
  {
    if n < base then [n]
    else
      DivBelow(n, base, n);
      DivMod(n, base);
      var ds := Digits(n / base, base) + [n % base];
      assert ds[..|ds| - 1] == Digits(n / base, base);
      assert Value(ds, base) == (n / base) * base + n % base;
      ds
  }
}
