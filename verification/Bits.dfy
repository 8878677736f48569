/** Bitwise operations on naturals, the way C's `&`, `|`, `~`, `>>` act on unsigned words.
    They are defined bit by bit, so the masks and flags of the boot code can be written as the
    code writes them and their arithmetic meaning is proved rather than presumed. */
module Bits {
  const TWO64: nat := 0x1_0000_0000_0000_0000
  type u64 = x: int | 0 <= x < TWO64
  type byte = x: int | 0 <= x < 256

  datatype Option<+T> = None | Some(value: T)

  function Pow2(k: nat): (p: nat)
    ensures p > 0
  {
    if k == 0 then 1 else 2 * Pow2(k - 1)
  }

  function And(a: nat, b: nat): nat {
    if a == 0 || b == 0 then 0
    else 2 * And(a / 2, b / 2) + (if a % 2 == 1 && b % 2 == 1 then 1 else 0)
  }

  function Or(a: nat, b: nat): nat {
    if a == 0 then b
    else if b == 0 then a
    else 2 * Or(a / 2, b / 2) + (if a % 2 == 1 || b % 2 == 1 then 1 else 0)
  }

  /** `~a` of a 64-bit word. */
  function Not64(a: u64): u64 { TWO64 - 1 - a }

  /** `a >> k`. */
  function Shr(a: nat, k: nat): nat {
    DivIsNat(a, Pow2(k));
    a / Pow2(k)
  }

  lemma DivIsNat(a: nat, d: nat)
    requires d > 0
    ensures a / d >= 0
  {}

  /** `a + b` and `a - b` of 64-bit words: they wrap around. */
  function Add64(a: u64, b: u64): u64 { (a + b) % TWO64 }

  function Sub64(a: u64, b: u64): u64 { (a - b) % TWO64 }

  lemma WrapsOnce(a: u64, b: u64)
    ensures Add64(a, b) == if a + b < TWO64 then a + b else a + b - TWO64
    ensures Sub64(a, b) == if a >= b then a - b else a - b + TWO64
    ensures Sub64(Add64(a, b), b) == a
  {}

  lemma Pow2Values()
    ensures Pow2(1) == 2 && Pow2(2) == 4 && Pow2(3) == 8 && Pow2(7) == 128 && Pow2(9) == 512
    ensures Pow2(12) == 0x1000 && Pow2(21) == 0x20_0000 && Pow2(30) == 0x4000_0000
    ensures Pow2(39) == 0x80_0000_0000 && Pow2(64) == TWO64
  {
    Pow2Add(1, 1); Pow2Add(2, 1); Pow2Add(3, 3); Pow2Add(6, 1); Pow2Add(6, 3); Pow2Add(9, 3);
    Pow2Add(12, 9); Pow2Add(21, 9); Pow2Add(30, 9); Pow2Add(39, 21); Pow2Add(60, 3); Pow2Add(63, 1);
  }

  lemma {:induction false} Pow2Add(a: nat, b: nat)
    ensures Pow2(a + b) == Pow2(a) * Pow2(b)
  {
    if b > 0 {
      Pow2Add(a, b - 1);
      assert Pow2(a) * Pow2(b) == 2 * (Pow2(a) * Pow2(b - 1));
    }
  }

  lemma {:induction false} Pow2Monotone(j: nat, k: nat)
    requires j <= k
    ensures Pow2(j) <= Pow2(k)
  {
    if j < k { Pow2Monotone(j, k - 1); }
  }

  /** Halving a multiple of 2^k, or a number's remainder by 2^k, drops to 2^(k-1). */
  lemma HalveMod(a: nat, k: nat)
    requires k > 0
    ensures a % Pow2(k) == 2 * (a / 2 % Pow2(k - 1)) + a % 2
  {
    var p := Pow2(k - 1);
    var q, r := a / 2 / p, a / 2 % p;
    assert a == 2 * (q * p + r) + a % 2;
    assert a == q * (2 * p) + (2 * r + a % 2);
    DivModUnique(a, 2 * p, q, 2 * r + a % 2);
  }

  lemma DivModUnique(a: nat, d: nat, q: nat, r: nat)
    requires d > 0 && r < d && a == q * d + r
    ensures a / d == q && a % d == r
  {
    var q', r' := a / d, a % d;
    MulDiff(q, q', d);
    assert q' * d + r' == a;
    if q > q' {
      MulAtLeast(q - q', d);
    } else if q < q' {
      MulAtLeast(q' - q, d);
    }
  }

  lemma MulDiff(x: int, y: int, d: int)
    ensures x * d - y * d == (x - y) * d && (y - x) * d == -((x - y) * d)
  {}

  lemma MulAtLeast(x: nat, d: nat)
    requires x > 0
    ensures x * d >= d
  {}

  /** Or-ing flags into the low k bits of a 2^k-aligned address leaves the address alone. */
  lemma {:induction false} OrFlags(a: nat, f: nat, g: nat, k: nat)
    requires a % Pow2(k) == 0 && f < Pow2(k) && g < Pow2(k)
    ensures Or(f, g) < Pow2(k)
    ensures Or(a + f, g) == a + Or(f, g)
  {
    if k > 0 {
      HalveMod(a, k);
      OrFlags(a / 2, f / 2, g / 2, k - 1);
      assert (a + f) / 2 == a / 2 + f / 2 && (a + f) % 2 == f % 2;
    }
  }

  lemma OrZero(a: nat)
    ensures Or(0, a) == a && Or(a, 0) == a
  {}

  lemma {:induction false} OrCommutes(a: nat, b: nat)
    ensures Or(a, b) == Or(b, a)
  {
    if a > 0 && b > 0 { OrCommutes(a / 2, b / 2); }
  }

  /** `a & (2^k - 1)` is the remainder by 2^k. */
  lemma {:induction false} AndLowMask(a: nat, k: nat)
    ensures And(a, Pow2(k) - 1) == a % Pow2(k)
  {
    if k == 0 {
      assert a % 1 == 0;
    } else if a == 0 {
      DivModUnique(0, Pow2(k), 0, 0);
    } else {
      HalveMod(a, k);
      AndLowMask(a / 2, k - 1);
      var m := Pow2(k - 1) - 1;
      assert Pow2(k) - 1 == 2 * m + 1 && (2 * m + 1) / 2 == m && (2 * m + 1) % 2 == 1;
      assert And(a, 2 * m + 1) == 2 * And(a / 2, m) + a % 2;
    }
  }

  /** Masking with the word whose low k bits are clear rounds down to a multiple of 2^k. */
  lemma {:induction false} AndHighMaskWide(a: nat, w: nat, k: nat)
    requires k <= w && a < Pow2(w)
    ensures Pow2(k) <= Pow2(w)
    ensures And(a, Pow2(w) - Pow2(k)) == a - a % Pow2(k)
  {
    if k == 0 {
      AndLowMask(a, w);
      Pow2Add(0, w);
      DivModUnique(a, Pow2(w), 0, a);
      assert a % 1 == 0;
    } else {
      HalveMod(a, k);
      AndHighMaskWide(a / 2, w - 1, k - 1);
      assert (Pow2(w) - Pow2(k)) / 2 == Pow2(w - 1) - Pow2(k - 1);
      assert (Pow2(w) - Pow2(k)) % 2 == 0;
    }
  }

  lemma AndHighMask(a: u64, k: nat)
    requires k <= 64
    ensures 0 <= Pow2(k) - 1 < TWO64
    ensures And(a, Not64(Pow2(k) - 1)) == a - a % Pow2(k)
  {
    Pow2Values();
    AndHighMaskWide(a, 64, k);
  }

  lemma {:induction false} AndSelf(a: nat)
    ensures And(a, a) == a
  {
    if a > 0 { AndSelf(a / 2); }
  }

  lemma {:induction false} PowerPasses(k: nat)
    ensures And(Pow2(k), Pow2(k) - 1) == 0
  {
    if k > 0 {
      PowerPasses(k - 1);
      var half := Pow2(k - 1);
      assert Pow2(k) == 2 * half && (2 * half - 1) / 2 == half - 1;
    }
  }

  lemma OddFails(a: nat)
    ensures a > 1 && a % 2 == 1 ==> And(a, a - 1) != 0
  {
    if a > 1 && a % 2 == 1 {
      AndSelf(a / 2);
      assert (a - 1) / 2 == a / 2;
    }
  }

  lemma {:induction false} PassesIsPower(a: nat) returns (k: nat)
    requires a > 0 && And(a, a - 1) == 0
    ensures a == Pow2(k)
  {
    OddFails(a);
    if a == 1 {
      k := 0;
    } else {
      assert (a - 1) / 2 == a / 2 - 1;
      k := PassesIsPower(a / 2);
      k := k + 1;
    }
  }

  /** The classic test `a & (a - 1) == 0` recognises exactly the powers of two. */
  lemma PowerOfTwoTest(a: nat)
    requires a > 0
    ensures And(a, a - 1) == 0 <==> exists k: nat :: a == Pow2(k)
  {
    if And(a, a - 1) == 0 {
      var k := PassesIsPower(a);
    }
    forall k: nat | a == Pow2(k) ensures And(a, a - 1) == 0 { PowerPasses(k); }
  }
}
