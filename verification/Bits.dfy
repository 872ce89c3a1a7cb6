/** Machine words as natural numbers, read bit by bit.
    `Shr(s, k)` is `s >> k` and `Bit(s, k)` is `(s >> k) & 1`; both halve step by step,
    so that the verifier only ever divides by the constant 2. */
module Bits {

  function Pow2(k: nat): (p: nat)
    ensures p > 0
  {
    if k == 0 then 1 else 2 * Pow2(k - 1)
  }

  function Shr(s: nat, k: nat): nat {
    if k == 0 then s else Shr(s, k - 1) / 2
  }

  function Bit(s: nat, k: nat): nat {
    Shr(s, k) % 2
  }

  /** Bitwise and of two words. */
  function And(a: nat, b: nat): nat {
    if a == 0 || b == 0 then 0 else 2 * And(a / 2, b / 2) + (if a % 2 == 1 && b % 2 == 1 then 1 else 0)
  }

  /** Bitwise or of two words. */
  function Or(a: nat, b: nat): nat {
    if a == 0 then b else if b == 0 then a
    else 2 * Or(a / 2, b / 2) + (if a % 2 == 1 || b % 2 == 1 then 1 else 0)
  }

  /** `x << n` in a word of `w` bits. */
  function Shl(x: nat, n: nat, w: nat): (r: nat)
    ensures r < Pow2(w)
  {
    (x * Pow2(n)) % Pow2(w)
  }

  /** Index of the highest set bit (`lj_fls`). */
  function Fls(x: nat): nat
  {
    if x < 2 then 0 else 1 + Fls(x / 2)
  }

  /** Index of the lowest set bit (`lj_ffs`). */
  function Ffs(x: nat): nat
    requires x > 0
  {
    if x % 2 == 1 then 0 else 1 + Ffs(x / 2)
  }

  lemma {:induction false} ShrHalf(s: nat, k: nat)
    ensures Shr(s / 2, k) == Shr(s, k + 1)
  {
    if k > 0 {
      ShrHalf(s, k - 1);
    }
  }

  lemma {:induction false} ShrMonotone(s: nat, t: nat, k: nat)
    requires s <= t
    ensures Shr(s, k) <= Shr(t, k)
  {
    if k > 0 {
      ShrMonotone(s, t, k - 1);
    }
  }

  /** Two words that agree from bit `k` up agree from every higher bit up. */
  lemma {:induction false} ShrAgree(s: nat, t: nat, k: nat, m: nat)
    requires k <= m && Shr(s, k) == Shr(t, k)
    ensures Shr(s, m) == Shr(t, m)
  {
    if k < m {
      ShrAgree(s, t, k, m - 1);
    }
  }

  lemma {:induction false} ShrShr(s: nat, k: nat, m: nat)
    ensures Shr(Shr(s, k), m) == Shr(s, k + m)
  {
    if m > 0 {
      ShrShr(s, k, m - 1);
    }
  }

  lemma {:induction false} ShrSmall(s: nat, k: nat)
    ensures Shr(s, k) == 0 <==> s < Pow2(k)
  {
    if k > 0 {
      ShrSmall(s / 2, k - 1);
      ShrHalf(s, k - 1);
    }
  }

  lemma {:induction false} BitDouble(x: nat, b: nat, k: nat)
    requires b < 2
    ensures Bit(2 * x + b, 0) == b
    ensures Bit(2 * x + b, k + 1) == Bit(x, k)
  {
    ShrHalf(2 * x + b, k);
    assert (2 * x + b) / 2 == x;
  }

  lemma {:induction false} BitZero(k: nat)
    ensures Bit(0, k) == 0 && Shr(0, k) == 0
  {
    if k > 0 {
      BitZero(k - 1);
    }
  }

  lemma {:induction false} AndBit(a: nat, b: nat, k: nat)
    ensures Bit(And(a, b), k) == 1 <==> Bit(a, k) == 1 && Bit(b, k) == 1
    decreases a
  {
    if a == 0 || b == 0 {
      BitZero(k);
    } else {
      BitDouble(And(a / 2, b / 2), if a % 2 == 1 && b % 2 == 1 then 1 else 0, if k == 0 then 0 else k - 1);
      if k > 0 {
        AndBit(a / 2, b / 2, k - 1);
        ShrHalf(a, k - 1);
        ShrHalf(b, k - 1);
      }
    }
  }

  lemma {:induction false} OrBit(a: nat, b: nat, k: nat)
    ensures Bit(Or(a, b), k) == 1 <==> Bit(a, k) == 1 || Bit(b, k) == 1
    decreases a
  {
    if a == 0 || b == 0 {
      BitZero(k);
    } else {
      BitDouble(Or(a / 2, b / 2), if a % 2 == 1 || b % 2 == 1 then 1 else 0, if k == 0 then 0 else k - 1);
      if k > 0 {
        OrBit(a / 2, b / 2, k - 1);
        ShrHalf(a, k - 1);
        ShrHalf(b, k - 1);
      }
    }
  }

  /** Two words are equal when all their bits are. */
  lemma {:induction false} BitsEqual(a: nat, b: nat)
    requires forall k: nat :: Bit(a, k) == Bit(b, k)
    ensures a == b
    decreases a + b
  {
    if a + b > 0 {
      assert Bit(a, 0) == Bit(b, 0);
      forall k: nat
        ensures Bit(a / 2, k) == Bit(b / 2, k)
      {
        ShrHalf(a, k);
        ShrHalf(b, k);
        assert Bit(a, k + 1) == Bit(b, k + 1);
      }
      BitsEqual(a / 2, b / 2);
    }
  }

  lemma {:induction false} Pow2Bit(i: nat, k: nat)
    ensures Bit(Pow2(i), k) == 1 <==> i == k
  {
    if i == 0 {
      if k > 0 {
        BitDouble(0, 1, k - 1);
        BitZero(k - 1);
      }
    } else {
      BitDouble(Pow2(i - 1), 0, if k == 0 then 0 else k - 1);
      if k > 0 {
        Pow2Bit(i - 1, k - 1);
      }
    }
  }

  /** `2^w - 2^i` has exactly the bits `i .. w-1`. */
  lemma {:induction false} HighOnes(i: nat, w: nat, k: nat)
    requires i <= w
    ensures Pow2(w) >= Pow2(i)
    ensures Bit(Pow2(w) - Pow2(i), k) == 1 <==> i <= k < w
  {
    if w == 0 {
      BitZero(k);
    } else if i == 0 {
      HighOnes(0, w - 1, if k == 0 then 0 else k - 1);
      BitDouble(Pow2(w - 1) - 1, 1, if k == 0 then 0 else k - 1);
      assert Pow2(w) - Pow2(0) == 2 * (Pow2(w - 1) - 1) + 1;
    } else {
      HighOnes(i - 1, w - 1, if k == 0 then 0 else k - 1);
      BitDouble(Pow2(w - 1) - Pow2(i - 1), 0, if k == 0 then 0 else k - 1);
      assert Pow2(w) - Pow2(i) == 2 * (Pow2(w - 1) - Pow2(i - 1));
    }
  }

  /** Reducing a word to `w` bits keeps its low `w` bits. */
  lemma {:induction false} ModBit(x: nat, w: nat, k: nat)
    ensures k < w ==> Bit(x % Pow2(w), k) == Bit(x, k)
    ensures k >= w ==> Bit(x % Pow2(w), k) == 0
  {
    if w == 0 {
      assert x % 1 == 0;
      BitZero(k);
    } else {
      ModDouble(x, Pow2(w - 1));
      var y := (x / 2) % Pow2(w - 1);
      BitDouble(y, x % 2, if k == 0 then 0 else k - 1);
      if k > 0 {
        ModBit(x / 2, w - 1, k - 1);
        ShrHalf(x, k - 1);
      }
    }
  }

  lemma {:induction false} ModDouble(x: nat, m: nat)
    requires m > 0
    ensures x % (2 * m) == 2 * ((x / 2) % m) + x % 2
  {
    var q, r := (x / 2) / m, (x / 2) % m;
    assert x == (2 * m) * q + (2 * r + x % 2);
    DivModUnique(x, 2 * m, q, 2 * r + x % 2);
  }

  lemma {:induction false} DivModUnique(x: nat, d: nat, q: nat, r: nat)
    requires d > 0 && x == d * q + r && r < d
    ensures x / d == q && x % d == r
  {
    var q' := x / d;
    assert d * (q - q') == x % d - r;
    assert d * (q' - q) == r - x % d;
    assert q == q' by {
      if q > q' {
        MulFar(d, q - q');
      } else if q < q' {
        MulFar(d, q' - q);
      }
    }
  }

  lemma {:induction false} MulFar(d: nat, z: nat)
    requires z > 0
    ensures d * z >= d
  {
    if z > 1 {
      MulFar(d, z - 1);
      assert d * z == d * (z - 1) + d;
    }
  }

  /** Bit `k + n` of `x * 2^n` is bit `k` of `x`; the low `n` bits are clear. */
  lemma {:induction false} MulPow2Bit(x: nat, n: nat, k: nat)
    ensures k >= n ==> Bit(x * Pow2(n), k) == Bit(x, k - n)
    ensures k < n ==> Bit(x * Pow2(n), k) == 0
  {
    if n > 0 {
      assert x * Pow2(n) == 2 * (x * Pow2(n - 1)) + 0;
      BitDouble(x * Pow2(n - 1), 0, if k == 0 then 0 else k - 1);
      if k > 0 {
        MulPow2Bit(x, n - 1, k - 1);
      }
    }
  }

  /** The bits of a left-shifted word. */
  lemma {:induction false} ShlBit(x: nat, n: nat, w: nat, k: nat)
    ensures Bit(Shl(x, n, w), k) == if n <= k < w then Bit(x, k - n) else 0
  {
    ModBit(x * Pow2(n), w, k);
    MulPow2Bit(x, n, k);
  }

  lemma {:induction false} Pow2Sum(a: nat, b: nat)
    ensures Pow2(a + b) == Pow2(a) * Pow2(b)
  {
    if a > 0 {
      Pow2Sum(a - 1, b);
    }
  }

  lemma Pow2Values()
    ensures Pow2(8) == 0x100 && Pow2(16) == 0x1_0000
    ensures Pow2(22) == 0x40_0000 && Pow2(32) == 0x1_0000_0000
    ensures Pow2(40) == 0x100_0000_0000 && Pow2(64) == 0x1_0000_0000_0000_0000
  {
    assert Pow2(8) == 0x100;
    Pow2Sum(8, 8);
    assert Pow2(6) == 64;
    Pow2Sum(6, 16);
    Pow2Sum(16, 16);
    Pow2Sum(8, 32);
    Pow2Sum(32, 32);
  }

  lemma Regroup(h: nat, p: nat)
    ensures h * (2 * p) == (2 * h) * p
  {
  }

  lemma {:induction false} ShrBounds(s: nat, k: nat)
    ensures Shr(s, k) * Pow2(k) <= s < (Shr(s, k) + 1) * Pow2(k)
  {
    if k > 0 {
      ShrBounds(s, k - 1);
      var p, q := Pow2(k - 1), Shr(s, k - 1);
      Regroup(q / 2, p);
      Regroup(q / 2 + 1, p);
      MulMonotone(2 * (q / 2), q, p);
      MulMonotone(q + 1, 2 * (q / 2 + 1), p);
    }
  }

  lemma MulMonotone(a: nat, b: nat, p: nat)
    requires a <= b
    ensures a * p <= b * p
  {
    assert b * p == a * p + (b - a) * p;
  }

  lemma {:induction false} FlsTop(x: nat)
    requires x > 0
    ensures Shr(x, Fls(x)) == 1
  {
    if x >= 2 {
      FlsTop(x / 2);
      ShrHalf(x, Fls(x / 2));
    }
  }

  lemma {:induction false} FlsMonotone(x: nat, y: nat)
    requires x <= y
    ensures Fls(x) <= Fls(y)
    decreases y
  {
    if x >= 2 {
      FlsMonotone(x / 2, y / 2);
    }
  }

  lemma {:induction false} FfsLeast(x: nat, k: nat)
    requires x > 0
    ensures Bit(x, Ffs(x)) == 1
    ensures k < Ffs(x) ==> Bit(x, k) == 0
  {
    if x % 2 == 0 {
      FfsLeast(x / 2, if k == 0 then 0 else k - 1);
      ShrHalf(x, Ffs(x / 2));
      if k > 0 {
        ShrHalf(x, k - 1);
      }
    }
  }
}
