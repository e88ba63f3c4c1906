/** 32-bit machine words and the alignment macros of bit_utils.h. */
module Words {
  type uint32 = x: int | 0 <= x < 0x1_0000_0000

  type byte = bv8

  const UINT32_MAX: uint32 := 0xFFFF_FFFF

  /** Conversion to uint32_t. */
  function Wrap(x: int): (w: uint32)
    ensures 0 <= x < 0x1_0000_0000 ==> w == x
  {
    x % 0x1_0000_0000
  }
}

module BitUtils {
  import opened Words

  function Pow2(k: nat): (p: nat)
    ensures p > 0
  {
    if k == 0 then 1 else 2 * Pow2(k - 1)
  }

  /** The C operator `&`, digit by binary digit. */
  function And(x: nat, y: nat): (r: nat)
    ensures r <= x && r <= y
  {
    if x == 0 || y == 0 then 0 else (if x % 2 == 1 && y % 2 == 1 then 1 else 0) + 2 * And(x / 2, y / 2)
  }

  /** The C operator `~` on 32 bits. */
  function Complement(x: uint32): uint32 {
    UINT32_MAX - x
  }

  function AlignDown(x: uint32, a: uint32): uint32 {
    And(x, Complement(Wrap(a - 1)))
  }

  predicate IsAligned(x: uint32, a: uint32) {
    And(x, Wrap(a - 1)) == 0
  }

  /** The C operator `>>` on unsigned operands. */
  function ShiftRight(x: uint32, k: nat): uint32 {
    QuotientBound(x, Pow2(k));
    x / Pow2(k)
  }

  lemma QuotientBound(x: nat, d: nat)
    requires d > 0
    ensures 0 <= x / d <= x
  {
    var q := x / d;
    assert x == d * q + x % d;
    if q < 0 { MulAtLeast(d, -q); }
    if q > 0 { MulAtLeast(q, d); }
  }

  function Min(a: nat, b: nat): nat {
    if a < b then a else b
  }

  lemma AndDigit(x: nat, y: nat)
    ensures And(x, y) == (if x % 2 == 1 && y % 2 == 1 then 1 else 0) + 2 * And(x / 2, y / 2)
  {
  }

  /** The number made of the low k binary digits. */
  function LowBits(x: nat, k: nat): nat {
    if k == 0 then 0 else x % 2 + 2 * LowBits(x / 2, k - 1)
  }

  lemma {:induction false} LowBitsAreRemainder(x: nat, k: nat)
    ensures LowBits(x, k) == x % Pow2(k)
  {
    if k == 0 {
      DivModUnique(x, 1, x, 0);
    } else {
      LowBitsAreRemainder(x / 2, k - 1);
      HalfMod(x, Pow2(k - 1));
    }
  }

  lemma {:induction false} LowBitsAll(x: nat, n: nat)
    requires x < Pow2(n)
    ensures LowBits(x, n) == x
  {
    if n > 0 { LowBitsAll(x / 2, n - 1); }
  }

  lemma {:induction false} AndLowMask(x: nat, k: nat)
    ensures And(x, Pow2(k) - 1) == LowBits(x, k)
  {
    if k > 0 {
      hide And;
      AndLowMask(x / 2, k - 1);
      AndDigit(x, Pow2(k) - 1);
    }
  }

  lemma HalfMod(x: nat, h: nat)
    requires h > 0
    ensures x % (2 * h) == x % 2 + 2 * ((x / 2) % h)
  {
    var q := (x / 2) / h;
    var r := (x / 2) % h;
    assert x / 2 == h * q + r;
    assert x == (2 * h) * q + (x % 2 + 2 * r) by {
      assert 2 * (h * q) == (2 * h) * q;
    }
    DivModUnique(x, 2 * h, q, x % 2 + 2 * r);
  }

  lemma MulAtLeast(d: int, k: int)
    requires d > 0 && k >= 1
    ensures d * k >= d
  {
  }

  lemma MulNat(a: nat, b: nat)
    ensures a * b >= 0
  {
  }

  lemma MulSum(a: int, b: int, p: int)
    ensures (a + b) * p == a * p + b * p
  {
  }

  lemma DivModUnique(x: int, d: int, q: int, r: int)
    requires d > 0 && 0 <= r < d && x == d * q + r
    ensures x / d == q && x % d == r
  {
    var q', r' := x / d, x % d;
    assert x == d * q' + r';
    if q > q' {
      MulAtLeast(d, q - q');
    } else if q < q' {
      MulAtLeast(d, q' - q);
    }
  }

  lemma QuotientBelow(d: nat, p: nat, k: nat)
    requires p > 0
    ensures d / p < k <==> d < k * p
  {
    var q := d / p;
    assert d == p * q + d % p;
    if q < k {
      MulAtLeast(p, k - q);
    } else if q > k {
      MulAtLeast(p, q - k);
    }
  }

  lemma {:induction false} AndHighMask(x: nat, k: nat, n: nat)
    requires k <= n && x < Pow2(n)
    ensures Pow2(k) <= Pow2(n) && LowBits(x, k) <= x
    ensures And(x, Pow2(n) - Pow2(k)) == x - LowBits(x, k)
  {
    if k == 0 {
      AndLowMask(x, n);
      LowBitsAll(x, n);
    } else {
      AndHighMask(x / 2, k - 1, n - 1);
      AndDigit(x, Pow2(n) - Pow2(k));
    }
  }

  lemma Pow2Step(k: nat)
    ensures Pow2(k + 1) == 2 * Pow2(k) && Pow2(k + 2) == 4 * Pow2(k)
    ensures Pow2(k + 3) == 8 * Pow2(k) && Pow2(k + 4) == 16 * Pow2(k)
  {
  }

  lemma Pow2Values()
    ensures Pow2(2) == 4 && Pow2(4) == 16 && Pow2(12) == 0x1000
    ensures Pow2(13) == 0x2000 && Pow2(14) == 0x4000 && Pow2(15) == 0x8000
    ensures Pow2(16) == 0x1_0000 && Pow2(17) == 0x2_0000 && Pow2(18) == 0x4_0000
    ensures Pow2(32) == 0x1_0000_0000
  {
    Pow2Step(0); Pow2Step(4); Pow2Step(8); Pow2Step(12);
    Pow2Step(16); Pow2Step(20); Pow2Step(24); Pow2Step(28);
  }

  /** The mask form of ALIGN_DOWN and IS_ALIGNED is rounding and divisibility, at every power of two below 2^32. */
  lemma AlignMacros(x: uint32, a: uint32, k: nat)
    requires k < 32 && a == Pow2(k)
    ensures AlignDown(x, a) == x - x % a
    ensures IsAligned(x, a) <==> x % a == 0
  {
    Pow2Values();
    AndHighMask(x, k, 32);
    AndLowMask(x, k);
    LowBitsAreRemainder(x, k);
    assert Complement(Wrap(a - 1)) == Pow2(32) - Pow2(k);
  }
}
