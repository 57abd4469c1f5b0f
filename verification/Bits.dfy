/** Bit-level arithmetic on unsigned words, defined one bit at a time on the integers. */
module Bits {
  import opened Prelude

  function Pow2(n: nat): (r: nat)
    ensures r >= 1
  {
    if n == 0 then 1 else 2 * Pow2(n - 1)
  }

  /** Bitwise `x & y`. */
  function And(x: nat, y: nat): nat
    decreases x
  {
    if x == 0 then 0
    else 2 * And(x / 2, y / 2) + (if x % 2 == 1 && y % 2 == 1 then 1 else 0)
  }

  /** Bitwise `x | y`. */
  function Or(x: nat, y: nat): nat
    decreases x
  {
    if x == 0 then y
    else 2 * Or(x / 2, y / 2) + (if x % 2 == 1 || y % 2 == 1 then 1 else 0)
  }

  /** `!x` on a 32-bit word. */
  function Not32(x: u32): u32 { 0xFFFF_FFFF - x }

  /** `x << k` on a 32-bit word; bits shifted past the top are lost. */
  function Shl32(x: u32, k: nat): u32
    requires k < 32
  {
    x * Pow2(k) % 0x1_0000_0000
  }

  lemma Pow2At32()
    ensures Pow2(32) == 0x1_0000_0000 && Pow2(16) == 0x1_0000
  {
    assert Pow2(8) == 0x100;
    assert Pow2(16) == 0x100 * Pow2(8);
    assert Pow2(24) == 0x100 * Pow2(16);
    assert Pow2(32) == 0x100 * Pow2(24);
  }

  lemma {:induction false} Pow2Add(a: nat, b: nat)
    ensures Pow2(a + b) == Pow2(a) * Pow2(b)
  {
    if a > 0 {
      Pow2Add(a - 1, b);
      assert Pow2(a + b) == 2 * (Pow2(a - 1) * Pow2(b));
      MulAssoc(2, Pow2(a - 1), Pow2(b));
    }
  }

  lemma {:induction false} Pow2Strict(a: nat, b: nat)
    requires a < b
    ensures Pow2(a) < Pow2(b)
  {
    if a + 1 < b { Pow2Strict(a, b - 1); }
  }

  lemma MulAssoc(a: int, b: int, c: int)
    ensures (a * b) * c == a * (b * c)
  {
  }

  lemma MulMono(a: nat, b: nat, c: nat)
    requires a <= b
    ensures a * c <= b * c
  {
  }

  /** `q * b + r` with `r < b` has quotient `q` and remainder `r`. */
  lemma DivModUnique(q: nat, r: nat, b: nat)
    requires r < b
    ensures (q * b + r) / b == q && (q * b + r) % b == r
  {
    var x := q * b + r;
    var q' := x / b;
    assert x == q' * b + x % b;
    assert (q + 1) * b == q * b + b && (q' + 1) * b == q' * b + b;
    if q < q' {
      MulMono(q + 1, q', b);
    } else if q' < q {
      MulMono(q' + 1, q, b);
    }
  }

  lemma QuotNonNegative(x: nat, b: nat)
    requires b > 0
    ensures x / b >= 0
  {
  }

  /** Integer division of non-negative numbers, with what characterises it. */
  function Quot(x: nat, b: nat): (q: nat)
    requires b > 0
    ensures q * b <= x < q * b + b
  {
    QuotNonNegative(x, b);
    assert x == x / b * b + x % b;
    x / b
  }

  lemma QuotUnique(x: nat, b: nat, q: nat)
    requires b > 0 && q * b <= x < q * b + b
    ensures Quot(x, b) == q
  {
    DivModUnique(q, x - q * b, b);
  }

  /** Halving a quotient doubles the divisor. */
  lemma QuotHalf(x: nat, b: nat)
    requires b > 0
    ensures Quot(x, 2 * b) == Quot(x, b) / 2
  {
    var q := Quot(x, b);
    var h := q / 2;
    assert q * b == h * (2 * b) + (q % 2) * b by {
      assert q == 2 * h + q % 2;
      assert (2 * h + q % 2) * b == h * (2 * b) + (q % 2) * b;
    }
    assert q % 2 == 0 || q % 2 == 1;
    QuotUnique(x, 2 * b, h);
  }

  /** Two numbers with the same quotient lie in the same block of `b` numbers. */
  lemma QuotBlock(x: nat, b: nat, q: nat)
    requires b > 0
    ensures Quot(x, b) == q <==> q * b <= x < q * b + b
  {
    if q * b <= x < q * b + b { QuotUnique(x, b, q); }
  }

  lemma AndStep(x: nat, b: nat, y: nat, c: nat)
    requires b < 2 && c < 2
    ensures And(2 * x + b, 2 * y + c) == 2 * And(x, y) + (if b == 1 && c == 1 then 1 else 0)
  {
    assert (2 * x + b) / 2 == x && (2 * y + c) / 2 == y;
  }

  lemma OrStep(x: nat, b: nat, y: nat, c: nat)
    requires b < 2 && c < 2
    ensures Or(2 * x + b, 2 * y + c) == 2 * Or(x, y) + (if b == 1 || c == 1 then 1 else 0)
  {
    assert (2 * x + b) / 2 == x && (2 * y + c) / 2 == y;
  }

  /** A mask of `n` ones keeps a number of at most `n` bits. */
  lemma {:induction false} AndOnes(x: nat, n: nat)
    requires x < Pow2(n)
    ensures And(x, Pow2(n) - 1) == x
  {
    if n > 0 {
      AndOnes(x / 2, n - 1);
      AndStep(x / 2, x % 2, Pow2(n - 1) - 1, 1);
    }
  }

  /** Masking with `2^n - 2^k` keeps exactly the bits from `k` up. */
  lemma {:induction false} AndHighMask(q: nat, r: nat, k: nat, n: nat)
    requires k <= n && r < Pow2(k) && q * Pow2(k) + r < Pow2(n)
    ensures Pow2(k) <= Pow2(n)
    ensures And(q * Pow2(k) + r, Pow2(n) - Pow2(k)) == q * Pow2(k)
  {
    hide And;
    if k == 0 {
      AndOnes(q, n);
    } else {
      var t := q * Pow2(k - 1);
      assert q * Pow2(k) == 2 * t;
      AndHighMask(q, r / 2, k - 1, n - 1);
      AndStep(t + r / 2, r % 2, Pow2(n - 1) - Pow2(k - 1), 0);
    }
  }

  /** Or-ing with `2^k - 1` sets exactly the bits below `k`. */
  lemma {:induction false} OrLowMask(q: nat, r: nat, k: nat)
    requires r < Pow2(k)
    ensures Or(q * Pow2(k) + r, Pow2(k) - 1) == q * Pow2(k) + (Pow2(k) - 1)
  {
    hide Or;
    if k == 0 {
      OrZero(q);
    } else {
      var t := q * Pow2(k - 1);
      assert q * Pow2(k) == 2 * t;
      OrLowMask(q, r / 2, k - 1);
      OrStep(t + r / 2, r % 2, Pow2(k - 1) - 1, 1);
    }
  }

  /** The bits of `x` from `k` up, and `x` with all bits below `k` set. */
  lemma MaskedParts(x: nat, k: nat, n: nat)
    requires k <= n && x < Pow2(n)
    ensures Pow2(k) <= Pow2(n)
    ensures And(x, Pow2(n) - Pow2(k)) == Quot(x, Pow2(k)) * Pow2(k)
    ensures Or(x, Pow2(k) - 1) == Quot(x, Pow2(k)) * Pow2(k) + (Pow2(k) - 1)
  {
    hide And, Or;
    var q := Quot(x, Pow2(k));
    AndHighMask(q, x - q * Pow2(k), k, n);
    OrLowMask(q, x - q * Pow2(k), k);
  }

  lemma {:induction false} OrZero(x: nat)
    ensures Or(x, 0) == x
  {
    if x > 0 { OrZero(x / 2); }
  }
}
