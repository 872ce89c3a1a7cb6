/** The encoder for logical immediates of the ARM64 DynASM engine (`dasm_arm64.h`), against `DecodeBitMasks`
    (chapter J1 of the Arm Architecture Reference Manual, DDI 0487). */
module Imm13 {
  import opened Bits

  const W64 := 0x1_0000_0000_0000_0000

  type Word32 = x: nat | x < 0x1_0000_0000
  type Word64 = x: nat | x < W64

  // ---- DecodeBitMasks.

  /** A word with a one at every multiple of w. */
  function Every(w: nat): (m: nat)
    requires w in {2, 4, 8, 16, 32, 64}
    ensures m > 0
  {
    if w == 2 then 0x5555555555555555
    else if w == 4 then 0x1111111111111111
    else if w == 8 then 0x0101010101010101
    else if w == 16 then 0x0001000100010001
    else if w == 32 then 0x0000000100000001
    else 1
  }

  datatype Mask = Reserved | Mask(n: int)

  /** `ROR(x, r)` in w bits */
  function Ror(x: nat, r: nat, w: nat): nat
    requires r <= w
  {
    Rotated(x, Pow2(r), Pow2(w - r))
  }

  /** The high part of x is moved down, the low part up. */
  function Rotated(x: nat, p: nat, q: nat): nat
    requires p > 0
  {
    Sum(x / p, x % p, q)
  }

  function Sum(a: nat, b: nat, p: nat): nat {
    a + b * p
  }

  /** The value of N:immr:imms. Elements have 2 bits or more, and are not all ones. */
  function DecodeBitMasks(e: int): Mask {
    if e < 0 || e >= 8192 then Reserved
    else
      var x := e / 4096 * 64 + 63 - e % 64;
      if x < 2 then Reserved
      else
        var w := Esize(x);
        var s, r := e % w, e / 64 % w;
        if s == w - 1 then Reserved else Mask(Ror(Pow2(s + 1) - 1, r, w) * Every(w))
  }

  /** `1 << HighestSetBit(x)` */
  function Esize(x: nat): (w: nat)
    requires 2 <= x < 128
    ensures w in {2, 4, 8, 16, 32, 64}
  {
    if x < 4 then 2 else if x < 8 then 4 else if x < 16 then 8 else if x < 32 then 16 else if x < 64 then 32 else 64
  }

  lemma EsizeIsHighest(x: nat)
    requires 2 <= x < 128
    ensures Esize(x) == Pow2(Fls(x))
  {
    if x >= 4 {
      if x >= 8 {
        EsizeHalf(x);
        EsizeIsHighest(x / 2);
      }
    }
  }

  lemma EsizeHalf(x: nat)
    requires 8 <= x < 128
    ensures Esize(x) == 2 * Esize(x / 2)
  {
  }

  /** Some instruction has the immediate. */
  ghost predicate Encodable(n: nat) {
    exists e :: DecodeBitMasks(e) == Mask(n)
  }

  // ---- The lowest set bit.

  lemma {:induction false} FfsSplit(x: nat)
    requires x > 0
    ensures x % Pow2(Ffs(x)) == 0 && x / Pow2(Ffs(x)) % 2 == 1
    ensures x == Pow2(Ffs(x)) * (x / Pow2(Ffs(x)))
  {
    if x % 2 == 0 {
      FfsSplit(x / 2);
      var p, y := Pow2(Ffs(x / 2)), x / 2 / Pow2(Ffs(x / 2));
      assert x == (2 * p) * y by {
        assert 2 * (p * y) == (2 * p) * y;
      }
      DivModUnique(x, 2 * p, y, 0);
    }
  }

  lemma {:induction false} FfsOf(k: nat, y: nat)
    requires y % 2 == 1
    ensures Pow2(k) * y > 0 && Ffs(Pow2(k) * y) == k
  {
    if k > 0 {
      FfsOf(k - 1, y);
      var p := Pow2(k - 1);
      assert (2 * p) * y == 2 * (p * y);
    }
  }

  lemma {:induction false} FlsOf(k: nat)
    ensures Fls(Pow2(k)) == k
  {
    if k > 0 {
      FlsOf(k - 1);
    }
  }

  /** `x & ~x` */
  lemma {:induction false} AndNot(x: nat, w: nat)
    requires x < Pow2(w)
    ensures And(x, Pow2(w) - 1 - x) == 0
  {
    if x > 0 {
      AndNot(x / 2, w - 1);
      var y := Pow2(w) - 1 - x;
      assert y / 2 == Pow2(w - 1) - 1 - x / 2 && (x % 2 == 1 ==> y % 2 == 0);
    }
  }

  /** `x & -x` */
  lemma {:induction false} AndNeg(x: nat, w: nat)
    requires 0 < x < Pow2(w)
    ensures And(x, Pow2(w) - x) == Pow2(Ffs(x))
  {
    var y := Pow2(w) - x;
    if x % 2 == 1 {
      AndNot(x / 2, w - 1);
      assert y / 2 == Pow2(w - 1) - 1 - x / 2 && y % 2 == 1;
    } else {
      AndNeg(x / 2, w - 1);
      assert y / 2 == Pow2(w - 1) - x / 2 && y % 2 == 0;
    }
  }

  function Neg(x: Word64): Word64 {
    (W64 - x) % W64
  }

  lemma LowestBit(x: Word64)
    ensures And(x, Neg(x)) == if x == 0 then 0 else Pow2(Ffs(x))
  {
    hide And, Ffs, Pow2;
    Pow2Values();
    if x == 0 {
      AndZero();
    } else {
      AndNeg(x, 64);
    }
  }

  lemma AndZero()
    ensures And(0, 0) == 0
  {
  }

  // ---- Runs of ones.

  /** Odd words are complemented. */
  function Evened(n: Word64): Word64 {
    if n % 2 == 1 then W64 - 1 - n else n
  }

  /** The first run of ones is from bit Xa up to bit Xb; the next one starts at bit Xc. */
  function Xa(n: Word64): nat
    requires n > 0
  {
    Ffs(n)
  }

  function Xb(n: Word64): nat
    requires n > 0
  {
    Ffs(n + Pow2(Xa(n)))
  }

  /** What is left of the word without its first run. */
  function Rest(n: Word64): int
    requires n > 0
  {
    n + Pow2(Xa(n)) - Pow2(Xb(n))
  }

  lemma FirstRun(n: Word64)
    requires n > 0
    ensures Xa(n) < Xb(n) <= 64 && 0 <= Rest(n) < W64 && (Xb(n) == 64 ==> Rest(n) == 0)
    ensures n + Pow2(Xa(n)) <= W64 && (n + Pow2(Xa(n)) == W64 <==> Xb(n) == 64) && Pow2(Xa(n)) < W64
  {
    hide Pow2, Ffs;
    Pow2Values();
    var xa := Xa(n);
    var y := OddPart(n);
    AtLeast(Pow2(xa), y);
    Pow2Below(xa, n);
    Fits(xa, y);
    var k, z := RunEnd(xa, y);
    Bounded(xa + k, z);
  }

  lemma OddPart(x: nat) returns (y: nat)
    requires x > 0
    ensures y % 2 == 1 && x == Pow2(Ffs(x)) * y
  {
    FfsSplit(x);
    y := x / Pow2(Ffs(x));
  }

  lemma AtLeast(p: nat, y: nat)
    requires y % 2 == 1
    ensures p <= p * y
  {
    MulMonotone(1, y, p);
  }

  /** Adding the lowest bit carries through the first run. */
  lemma RunEnd(xa: nat, y: nat) returns (k: nat, z: nat)
    requires y % 2 == 1
    ensures k > 0 && z % 2 == 1 && Ffs(Pow2(xa) * y + Pow2(xa)) == xa + k
    ensures Pow2(xa) * y + Pow2(xa) == Pow2(xa + k) * z == Pow2(xa) * (y + 1)
  {
    hide Pow2;
    k := Ffs(y + 1);
    z := OddPart(y + 1);
    Joins(xa, k, z, y);
    FfsOf(xa + k, z);
  }

  lemma Pow2Below(k: nat, n: Word64)
    requires Pow2(k) <= n || Pow2(k) <= W64
    ensures k <= 64 && (Pow2(k) <= n ==> k < 64)
  {
    hide Pow2;
    Pow2Values();
    if k >= 64 {
      Mono(64, k);
    }
    if k > 64 {
      Mono(65, k);
      Pow2Sum(1, 64);
      assert Pow2(1) == 2 by {
        PowOne();
      }
    }
  }

  lemma PowOne()
    ensures Pow2(1) == 2 && Pow2(0) == 1
  {
  }

  lemma {:induction false} Mono(a: nat, b: nat)
    requires a <= b
    ensures Pow2(a) <= Pow2(b)
  {
    if a < b {
      Mono(a, b - 1);
    }
  }

  /** An odd multiple of 2^xa below 2^64 is at least 2^xa away from it. */
  lemma Fits(xa: nat, y: nat)
    requires xa < 64 && Pow2(xa) * y < W64
    ensures Pow2(xa) * (y + 1) <= W64
  {
    hide Pow2;
    Pow2Values();
    Pow2Sum(xa, 64 - xa);
    var p, q := Pow2(xa), Pow2(64 - xa);
    if y >= q {
      MulMonotone(q, y, p);
    }
    MulMonotone(y + 1, q, p);
  }

  lemma Joins(xa: nat, k: nat, z: nat, y: nat)
    requires y + 1 == Pow2(k) * z
    ensures Pow2(xa) * (y + 1) == Pow2(xa + k) * z && Pow2(xa) * y + Pow2(xa) == Pow2(xa + k) * z
  {
    hide Pow2;
    Pow2Sum(xa, k);
    var p, q := Pow2(xa), Pow2(k);
    assert p * (q * z) == (p * q) * z;
    assert p * (y + 1) == p * y + p;
  }

  lemma Bounded(k: nat, z: nat)
    requires z % 2 == 1 && Pow2(k) * z <= W64
    ensures k <= 64 && Pow2(k) <= Pow2(k) * z && (Pow2(k) * z == W64 <==> k == 64)
  {
    hide Pow2;
    Pow2Values();
    MulMonotone(1, z, Pow2(k));
    Pow2Below(k, 0);
    if Pow2(k) * z == W64 {
      FfsOf(k, z);
      FfsOf(64, 1);
    }
  }

  // ---- What the encoder makes of a run.

  predicate IsWidth(w: int) {
    w in {2, 4, 8, 16, 32, 64}
  }

  /** The distance of the first two runs. */
  function Width(n: Word64): int
    requires n > 0 && Rest(n) >= 0
  {
    if Rest(n) == 0 then 64 else Ffs(Rest(n)) - Xa(n)
  }

  /** The ones from bit xa up to bit xb */
  function Ones(xa: nat, xb: nat): (e: nat)
    requires xa <= xb
    ensures xa < xb ==> e > 0
  {
    OnesFit(xa, xb);
    Pow2(xb) - Pow2(xa)
  }

  lemma OnesFit(xa: nat, xb: nat)
    requires xa <= xb
    ensures Pow2(xa) <= Pow2(xb) && (xa < xb ==> Pow2(xa) < Pow2(xb))
  {
    Mono(xa, xb);
    if xa < xb {
      Mono(xa + 1, xb);
    }
  }

  function Pattern(w: nat, xa: nat, xb: nat): nat
    requires IsWidth(w) && xa <= xb
  {
    Ones(xa, xb) * Every(w)
  }

  /** The run is the only one in its element, and its element starts with a zero. */
  predicate Element(w: int, xa: nat, xb: nat) {
    IsWidth(w) && 1 <= xa < xb <= w
  }

  /** The 13 bits of an immediate: N, the rotation and the number of ones. */
  function Code(w: nat, rot: int, ones: int): int {
    rot * 64 + (if w == 64 then 0xfff else -2 * w % 64 - 1) + ones
  }

  predicate Holds(e: int, w: nat, rot: nat, ones: nat) {
    && IsWidth(w) && 0 <= e < 8192 && (w < 64 ==> rot * 64 <= e < rot * 64 + 64)
    && var x := e / 4096 * 64 + 63 - e % 64;
       2 <= x < 128 && Esize(x) == w && e % w == ones - 1 && e / 64 % w == rot
  }

  lemma CodeFields(w: nat, rot: nat, ones: nat)
    requires IsWidth(w) && rot < w && 1 <= ones < w
    ensures Holds(Code(w, rot, ones), w, rot, ones)
  {
    hide Holds;
    if w == 64 {
      WideFields(rot, ones);
    } else {
      NarrowFields(w, rot, ones);
    }
  }

  lemma WideFields(rot: nat, ones: nat)
    requires rot < 64 && 1 <= ones < 64
    ensures Holds(Code(64, rot, ones), 64, rot, ones)
  {
    var e := Code(64, rot, ones);
    assert e == 4096 + rot * 64 + (ones - 1) && e / 64 == 64 + rot;
  }

  lemma NarrowFields(w: nat, rot: nat, ones: nat)
    requires IsWidth(w) && w < 64 && rot < w && 1 <= ones < w
    ensures Holds(Code(w, rot, ones), w, rot, ones)
  {
    hide Esize;
    var e, k := Code(w, rot, ones), 64 - 2 * w;
    assert -2 * w % 64 == if w == 32 then 0 else k;
    assert e == rot * 64 + k + (ones - 1) && e / 64 == rot && e / 4096 == 0 && e % 64 == k + (ones - 1);
    NarrowSize(w, 2 * w - 1 - (ones - 1));
    LowField(w, rot, ones - 1);
    assert e % w == ones - 1;
    Small(rot, w);
  }

  lemma Small(x: nat, w: nat)
    requires x < w
    ensures x % w == x
  {
  }

  lemma LowField(w: nat, rot: nat, k: nat)
    requires IsWidth(w) && w < 64 && k < w
    ensures (rot * 64 + (if w == 32 then 0 else 64 - 2 * w) + k) % w == k
  {
    if w == 32 {
      DivModUnique((2 * rot) * 32 + k, 32, 2 * rot, k);
    } else if w == 16 {
      DivModUnique((4 * rot + 2) * 16 + k, 16, 4 * rot + 2, k);
    } else if w == 8 {
      DivModUnique((8 * rot + 6) * 8 + k, 8, 8 * rot + 6, k);
    } else if w == 4 {
      DivModUnique((16 * rot + 14) * 4 + k, 4, 16 * rot + 14, k);
    } else {
      DivModUnique((32 * rot + 30) * 2 + k, 2, 32 * rot + 30, k);
    }
  }

  lemma NarrowSize(w: nat, x: nat)
    requires IsWidth(w) && w < 64 && w < x < 2 * w
    ensures Esize(x) == w
  {
  }

  lemma DecodeCode(w: nat, rot: nat, ones: nat)
    requires IsWidth(w) && rot < w && 1 <= ones < w
    ensures DecodeBitMasks(Code(w, rot, ones)) == Mask(Ror(Pow2(ones) - 1, rot, w) * Every(w))
  {
    hide Ror, Pow2, Every, Code;
    CodeFields(w, rot, ones);
  }

  lemma RorOf(x: nat, r: nat, w: nat, a: nat, b: nat)
    requires r <= w && x == a * Pow2(r) + b && b < Pow2(r)
    ensures Ror(x, r, w) == a + b * Pow2(w - r)
  {
    hide Pow2;
    DivModUnique(x, Pow2(r), a, b);
  }

  /** A run of ones at the bottom, rotated to its place. */
  lemma RorRun(w: nat, xa: nat, xb: nat)
    requires xa < xb <= w
    ensures Ror(Pow2(xb - xa) - 1, w - xa, w) == Ones(xa, xb)
  {
    hide Pow2, Ror;
    OnesFit(0, xb - xa);
    PowOne();
    Mono(xb - xa, w - xa);
    RorOf(Pow2(xb - xa) - 1, w - xa, w, 0, Pow2(xb - xa) - 1);
    assert w - (w - xa) == xa;
    Pow2Sum(xb - xa, xa);
    OneLess(Pow2(xb - xa), Pow2(xa));
  }

  lemma OneLess(x: int, p: nat)
    ensures (x - 1) * p == x * p - p
  {
  }

  /** So is the complement of a run. */
  lemma RorAround(w: nat, xa: nat, xb: nat)
    requires xa < xb <= w
    ensures Ror(Pow2(w - xb + xa) - 1, w - xb, w) == Pow2(w) - 1 - Ones(xa, xb)
  {
    hide Pow2, Ror;
    PowOne();
    OnesFit(0, xa);
    OnesFit(0, w - xb);
    Pow2Sum(xa, w - xb);
    Pow2Sum(w - xb, xb);
    OneLess(Pow2(xa), Pow2(w - xb));
    assert xa + (w - xb) == w - xb + xa;
    RorOf(Pow2(w - xb + xa) - 1, w - xb, w, Pow2(xa) - 1, Pow2(w - xb) - 1);
    assert w - (w - xb) == xb;
    OneLess(Pow2(w - xb), Pow2(xb));
    assert w - xb + xb == w;
  }

  lemma EveryWhole(w: nat)
    requires IsWidth(w)
    ensures (Pow2(w) - 1) * Every(w) == W64 - 1
  {
    hide Pow2;
    Pow2Values();
    SmallPowers();
  }

  lemma SmallPowers()
    ensures Pow2(2) == 4 && Pow2(4) == 16
  {
  }

  lemma Complement(a: nat, b: nat, m: nat)
    requires b <= a
    ensures (a - b) * m == a * m - b * m && b * m <= a * m
  {
    MulMonotone(b, a, m);
  }

  lemma PatternFits(w: nat, xa: nat, xb: nat)
    requires Element(w, xa, xb)
    ensures 0 < Pattern(w, xa, xb) < W64 && Pattern(w, xa, xb) % 2 == 0
    ensures (Pow2(w) - 1 - Ones(xa, xb)) * Every(w) == W64 - 1 - Pattern(w, xa, xb)
  {
    hide Pow2, Every;
    EveryWhole(w);
    Mono(xb, w);
    PowOne();
    OnesFit(0, xa);
    Complement(Pow2(w) - 1, Ones(xa, xb), Every(w));
    MulMonotone(1, Ones(xa, xb), Every(w));
    var y := EvenOnes(xa, xb);
    Doubles(y, Every(w));
  }

  lemma Doubles(y: nat, m: nat)
    ensures (2 * y) * m == 2 * (y * m) && (2 * y) * m % 2 == 0
  {
  }

  lemma EvenOnes(xa: nat, xb: nat) returns (y: nat)
    requires 1 <= xa < xb
    ensures Ones(xa, xb) == 2 * y
  {
    OnesFit(xa - 1, xb - 1);
    y := Pow2(xb - 1) - Pow2(xa - 1);
  }

  /** Decoding gives the pattern, or its complement. */
  lemma DecodePattern(w: nat, xa: nat, xb: nat)
    requires Element(w, xa, xb)
    ensures DecodeBitMasks(Code(w, w - xa, xb - xa)) == Mask(Pattern(w, xa, xb))
    ensures DecodeBitMasks(Code(w, w - xb, w + xa - xb)) == Mask(W64 - 1 - Pattern(w, xa, xb))
  {
    hide DecodeBitMasks, Code, Ror, Pow2, Every, Ones;
    RorRun(w, xa, xb);
    DecodeCode(w, w - xa, xb - xa);
    RorAround(w, xa, xb);
    assert w - xb + xa == w + xa - xb;
    DecodeCode(w, w - xb, w + xa - xb);
    PatternFits(w, xa, xb);
  }

  /** The element size, the rotation and the number of ones of an immediate. */
  lemma Fields(e: int) returns (w: nat, rot: nat, ones: nat)
    requires DecodeBitMasks(e).Mask?
    ensures IsWidth(w) && rot < w && 1 <= ones < w && DecodeBitMasks(e) == Mask(Ror(Pow2(ones) - 1, rot, w) * Every(w))
  {
    hide Ror, Pow2, Every;
    w := Esize(e / 4096 * 64 + 63 - e % 64);
    ones, rot := e % w + 1, e / 64 % w;
  }

  /** Every immediate is a pattern or the complement of one. */
  lemma Encoded(e: int) returns (w: nat, xa: nat, xb: nat)
    requires DecodeBitMasks(e).Mask?
    ensures Element(w, xa, xb) && 0 <= DecodeBitMasks(e).n < W64 && Evened(DecodeBitMasks(e).n) == Pattern(w, xa, xb)
  {
    hide DecodeBitMasks, Ror, Pow2, Every, Ones;
    var rot, ones;
    w, rot, ones := Fields(e);
    if rot >= ones {
      xa, xb := w - rot, w - rot + ones;
      RorRun(w, xa, xb);
      assert w - xa == rot && xb - xa == ones;
    } else {
      xa, xb := ones - rot, w - rot;
      RorAround(w, xa, xb);
      assert w - xb + xa == ones && w - xb == rot;
    }
    PatternFits(w, xa, xb);
  }

  // ---- The runs of a pattern.

  /** The word without its lowest one, w bits down. */
  function More(w: nat): nat
    requires IsWidth(w)
  {
    if w == 2 then 0x1555555555555555
    else if w == 4 then 0x0111111111111111
    else if w == 8 then 0x0001010101010101
    else if w == 16 then 0x0000000100010001
    else if w == 32 then 1
    else 0
  }

  lemma EveryMore(w: nat)
    requires IsWidth(w)
    ensures Every(w) == 1 + Times(Pow2(w), More(w)) && Every(w) % 2 == 1 && (w < 64 ==> More(w) % 2 == 1)
  {
    hide Pow2, Times;
    Pow2Values();
    SmallPowers();
    Products();
  }

  lemma Products()
    ensures Times(4, 0x1555555555555555) == 0x5555555555555554
    ensures Times(16, 0x0111111111111111) == 0x1111111111111110
    ensures Times(0x100, 0x0001010101010101) == 0x0101010101010100
    ensures Times(0x1_0000, 0x0000000100010001) == 0x0001000100010000
    ensures Times(0x1_0000_0000, 1) == 0x0000000100000000
    ensures forall p: nat {:trigger Times(p, 0)} :: Times(p, 0) == 0
  {
  }

  function Times(a: nat, b: nat): nat {
    a * b
  }

  /** What follows the first element. */
  function Tail(w: nat, xa: nat, xb: nat): nat
    requires IsWidth(w) && xa <= xb
  {
    Times(Pow2(w), Times(Ones(xa, xb), More(w)))
  }

  lemma OddTimesOdd(a: nat, b: nat)
    requires a % 2 == 1 && b % 2 == 1
    ensures a * b % 2 == 1
  {
    var x := a / 2;
    assert a * b == x * (2 * b) + b by {
      assert a == 2 * x + 1;
      assert (2 * x + 1) * b == (2 * x) * b + b;
      assert (2 * x) * b == x * (2 * b);
    }
    assert x * (2 * b) == 2 * (x * b);
    OddSum(x * b, b);
  }

  lemma OddSum(m: nat, b: nat)
    requires b % 2 == 1
    ensures (2 * m + b) % 2 == 1
  {
  }

  lemma OnesParts(xa: nat, xb: nat) returns (y: nat)
    requires xa < xb
    ensures y % 2 == 1 && Ones(xa, xb) == Pow2(xa) * y
  {
    hide Pow2;
    Pow2Sum(xa, xb - xa);
    OnesFit(0, xb - xa);
    PowOne();
    y := Pow2(xb - xa) - 1;
    OddPower(xb - xa);
    OneLess(Pow2(xb - xa), Pow2(xa));
  }

  lemma OddPower(k: nat)
    requires k > 0
    ensures Pow2(k) % 2 == 0
  {
  }

  lemma Shuffle(a: nat, b: nat, c: nat)
    ensures (a * b) * c == a * (b * c)
  {
  }

  lemma PatternStart(w: nat, xa: nat, xb: nat)
    requires Element(w, xa, xb)
    ensures Ffs(Pattern(w, xa, xb)) == xa
  {
    hide Pow2, Every, Ffs;
    var y := OnesParts(xa, xb);
    EveryMore(w);
    OddTimesOdd(y, Every(w));
    Shuffle(Pow2(xa), y, Every(w));
    FfsOf(xa, y * Every(w));
  }

  /** Behind the first run, the pattern goes on w bits up. */
  lemma PatternMore(w: nat, xa: nat, xb: nat)
    requires Element(w, xa, xb)
    ensures Pattern(w, xa, xb) == Ones(xa, xb) + Tail(w, xa, xb)
  {
    hide Pow2, Every, More;
    EveryMore(w);
    var e, p, m := Ones(xa, xb), Pow2(w), More(w);
    assert e * (1 + p * m) == e + e * (p * m);
    assert e * (p * m) == p * (e * m);
  }

  lemma PatternRuns(w: nat, xa: nat, xb: nat)
    requires Element(w, xa, xb)
    ensures var n := Pattern(w, xa, xb);
            0 < n < W64 && n % 2 == 0 && Xa(n) == xa && Xb(n) == xb && Rest(n) >= 0 && Width(n) == w
  {
    hide Pow2, Every, Ffs, More;
    PatternFits(w, xa, xb);
    PatternStart(w, xa, xb);
    PatternMore(w, xa, xb);
    var n, e := Pattern(w, xa, xb), Ones(xa, xb);
    RunEnds(w, xa, xb);
    if w < 64 {
      RestStart(w, xa, xb);
    } else {
      NoTail(xa, xb);
    }
  }

  lemma NoTail(xa: nat, xb: nat)
    requires xa <= xb
    ensures Tail(64, xa, xb) == 0
  {
    hide Pow2;
  }

  lemma RunEnds(w: nat, xa: nat, xb: nat)
    requires Element(w, xa, xb)
    ensures Pow2(xb) + Tail(w, xa, xb) > 0 && Ffs(Pow2(xb) + Tail(w, xa, xb)) == xb
  {
    hide Pow2, Ffs, More;
    var y := EvenOnes(xa, xb);
    var k, t := Pow2(w - xb), Times(Ones(xa, xb), More(w));
    Pow2Sum(xb, w - xb);
    Doubles(y, More(w));
    Shuffle(Pow2(xb), k, t);
    EvenTimes(k, t);
    OneMore(Pow2(xb), k * t);
    FfsOf(xb, 1 + k * t);
  }

  lemma OneMore(p: nat, x: nat)
    ensures p * (1 + x) == p + p * x
  {
  }

  lemma EvenTimes(k: nat, x: nat)
    requires x % 2 == 0
    ensures k * x % 2 == 0
  {
    assert k * x == 2 * (k * (x / 2));
  }

  lemma RestStart(w: nat, xa: nat, xb: nat)
    requires Element(w, xa, xb) && w < 64
    ensures Tail(w, xa, xb) > 0 && Ffs(Tail(w, xa, xb)) == w + xa
  {
    hide Pow2, Ffs, More;
    var y := OnesParts(xa, xb);
    EveryMore(w);
    OddTimesOdd(y, More(w));
    Pow2Sum(w, xa);
    Shuffle(Pow2(xa), y, More(w));
    Shuffle(Pow2(w), Pow2(xa), y * More(w));
    FfsOf(w + xa, y * More(w));
  }

  // ---- The encoder.

  /** The word is made of copies of its first run, at the distance of the second one. */
  predicate Accepted(n: Word64)
    requires n > 0 && Rest(n) >= 0 && Xa(n) <= Xb(n)
  {
    IsWidth(Width(n)) && Ones(Xa(n), Xb(n)) * Every(Width(n)) % W64 == n
  }

  /** What `dasm_imm13` returns. */
  function Result(n: Word64): int {
    var e, inv := Evened(n), n % 2 == 1;
    if e == 0 then -1
    else
      FirstRun(e);
      if !Accepted(e) then -1
      else if inv then Code(Width(e), Width(e) - Xb(e), Width(e) + Xa(e) - Xb(e))
      else Code(Width(e), Width(e) - Xa(e), Xb(e) - Xa(e))
  }

  /** The first run crosses into the next element: the check on line 207 does not see that. */
  predicate Crosses(n: Word64) {
    var e := Evened(n);
    e > 0 && Rest(e) >= 0 && Xb(e) > Width(e)
  }

  /** An immediate of some instruction is always found. */
  lemma Finds(n: Word64)
    requires Encodable(n)
    ensures DecodeBitMasks(Result(n)) == Mask(n) && Result(n) >= 0 && !Crosses(n)
  {
    hide DecodeBitMasks, Pow2, Every, Ones, Code, Ffs, Width, Xa, Xb, Rest;
    var i :| DecodeBitMasks(i) == Mask(n);
    var w, xa, xb := Encoded(i);
    PatternRuns(w, xa, xb);
    PatternFits(w, xa, xb);
    DecodePattern(w, xa, xb);
    FirstRun(Evened(n));
    InRange(Result(n));
  }

  lemma InRange(e: int)
    ensures DecodeBitMasks(e).Mask? ==> 0 <= e < 8192
  {
  }

  /** Unless its first run crosses, an accepted word is an immediate, and the result stands for it. */
  lemma Sound(n: Word64)
    requires Result(n) != -1 && !Crosses(n)
    ensures DecodeBitMasks(Result(n)) == Mask(n)
  {
    hide DecodeBitMasks, Pow2, Every, Ones, Code, Ffs, Width, Xa, Xb, Rest;
    var e := Evened(n);
    FirstRun(e);
    EvenStarts(e);
    var w, xa, xb := Width(e), Xa(e), Xb(e);
    PatternFits(w, xa, xb);
    Same(Pattern(w, xa, xb));
    DecodePattern(w, xa, xb);
  }

  lemma EvenStarts(e: Word64)
    requires e > 0 && e % 2 == 0
    ensures Xa(e) >= 1
  {
  }

  lemma Same(x: nat)
    requires x < W64
    ensures x % W64 == x
  {
  }

  /** What the encoder does for all words. It refuses no immediate; and its result is right just if the first run
      of the word does not cross. */
  lemma Exact(n: Word64)
    ensures Result(n) == -1 ==> !Encodable(n)
    ensures Result(n) != -1 ==> (DecodeBitMasks(Result(n)) == Mask(n) <==> !Crosses(n))
    ensures Encodable(n) <==> Result(n) != -1 && !Crosses(n)
  {
    hide DecodeBitMasks, Result, Crosses;
    if Encodable(n) {
      Finds(n);
    } else if Result(n) != -1 && !Crosses(n) {
      Sound(n);
    }
  }

  /** A word that is taken for an immediate, and is none. */
  lemma WrongImmediate()
    ensures Result(0xC3C3C3C3C3C3C3C0) == 179 && !Encodable(0xC3C3C3C3C3C3C3C0)
  {
    hide Pow2, Ffs, DecodeBitMasks;
    var n: Word64 := 0xC3C3C3C3C3C3C3C0;
    MorePowers();
    FfsOf(6, 0x030F0F0F0F0F0F0F);
    FfsOf(10, 0x0030F0F0F0F0F0F1);
    FfsOf(14, 0x00030F0F0F0F0F0F);
    assert Pow2(6) * 0x030F0F0F0F0F0F0F == n && Pow2(10) * 0x0030F0F0F0F0F0F1 == n + 64;
    assert Rest(n) == Pow2(14) * 0x00030F0F0F0F0F0F;
    assert Width(n) == 8 && Crosses(n);
    Exact(n);
  }

  lemma MorePowers()
    ensures Pow2(6) == 64 && Pow2(10) == 1024 && Pow2(14) == 16384
  {
    hide Pow2;
    SmallPowers();
    Pow2Sum(2, 4);
    Pow2Sum(6, 4);
    Pow2Sum(10, 4);
  }

  // ---- 32 bit immediates: both halves are the same.

  const TWICE := 0x1_0000_0001

  predicate Repeats(n: Word64, l: Word32) {
    n == l * TWICE
  }

  lemma RepeatsEven(n: Word64, l: Word32)
    requires Repeats(n, l)
    ensures Repeats(Evened(n), if n % 2 == 1 then 0xFFFF_FFFF - l else l) && Evened(n) % 2 == 0
  {
    if n % 2 == 1 {
      assert (0xFFFF_FFFF - l) * TWICE == W64 - 1 - l * TWICE;
    }
  }

  /** The first run starts in the low half. */
  lemma LowStart(n: Word64, l: Word32)
    requires n > 0 && Repeats(n, l)
    ensures l > 0 && Xa(n) < 32 && Xa(n) == Ffs(l)
  {
    hide Pow2;
    var y := OddPart(l);
    OddTimesOdd(y, TWICE);
    Shuffle(Pow2(Ffs(l)), y, TWICE);
    FfsOf(Ffs(l), y * TWICE);
    AtLeast(Pow2(Ffs(l)), y);
    Pow2Values();
    if Ffs(l) >= 32 {
      Mono(32, Ffs(l));
    }
  }

  /** It is not the only one. */
  lemma TwoRuns(n: Word64, l: Word32)
    requires n > 0 && Repeats(n, l) && n % 2 == 0
    ensures Rest(n) > 0
  {
    hide Pow2, Ffs;
    FirstRun(n);
    LowStart(n, l);
    EvenStarts(n);
    var xa, xb := Xa(n), Xb(n);
    Pow2Values();
    OnesFit(xa, xb);
    Mono(xa, 32);
    if Rest(n) == 0 {
      if xb <= 32 {
        Mono(xb, 32);
      } else {
        Pow2Sum(32, xb - 32);
        OnesFit(xa, 32);
        Halves(n, l, Pow2(xb - 32) - 1, 0x1_0000_0000 - Pow2(xa));
        OddPower(xb - 32);
        OddPower(xa);
      }
    }
  }

  lemma Halves(n: nat, l: Word32, h: int, k: int)
    requires n == l * TWICE && n == h * 0x1_0000_0000 + k && 0 <= k < 0x1_0000_0000
    ensures l == h == k
  {
  }

  /** Half of the copies */
  function Half(w: nat): nat
    requires IsWidth(w) && w < 64
  {
    if w == 2 then 0x55555555 else if w == 4 then 0x11111111 else if w == 8 then 0x01010101
    else if w == 16 then 0x00010001 else 1
  }

  lemma HalfFacts(w: nat)
    requires IsWidth(w) && w < 64
    ensures Every(w) == Half(w) * TWICE && Half(w) > 0
    ensures 0x1_0000_0000 <= Times(Pow2(w), Half(w)) < 0x2_0000_0000
  {
    hide Pow2, Times;
    Pow2Values();
    SmallPowers();
    HalfProducts();
  }

  lemma HalfProducts()
    ensures Times(4, 0x55555555) == 0x155555554 && Times(16, 0x11111111) == 0x111111110
    ensures Times(0x100, 0x01010101) == 0x101010100
    ensures Times(0x1_0000, 0x00010001) == 0x1_0001_0000 && Times(0x1_0000_0000, 1) == 0x1_0000_0000
  {
  }

  /** If copies of x in both halves make up a word with equal halves, x fits one half. */
  lemma FitsHalf(x: nat, l: Word32)
    requires x < W64 && (x * TWICE) % W64 == l * TWICE
    ensures x == l
  {
    var x1, x0 := x / 0x1_0000_0000, x % 0x1_0000_0000;
    var t, u := (x1 + x0) / 0x1_0000_0000, (x1 + x0) % 0x1_0000_0000;
    Spread(x, x1, x0, t, u);
    DivModUnique(x * TWICE, W64, x1 + t, u * 0x1_0000_0000 + x0);
    Halves(l * TWICE, l, u, x0);
  }

  lemma Spread(x: nat, x1: nat, x0: nat, t: nat, u: nat)
    requires x == x1 * 0x1_0000_0000 + x0 && x1 + x0 == t * 0x1_0000_0000 + u
    ensures x * TWICE == (x1 + t) * W64 + (u * 0x1_0000_0000 + x0)
  {
  }

  /** The next run starts behind the first one. */
  lemma RunsApart(n: Word64)
    requires n > 0 && Rest(n) > 0
    ensures Ffs(Rest(n)) > Xb(n)
  {
    hide Pow2, Ffs;
    var xb := Xb(n);
    var z := OddPart(n + Pow2(Xa(n)));
    NextRun(Pow2(xb), z, Rest(n));
    var y := OddPart(z - 1);
    FfsPositive(z - 1);
    Joins2(xb, Ffs(z - 1), y, z - 1);
    FfsOf(xb + Ffs(z - 1), y);
  }

  lemma NextRun(p: nat, z: nat, rest: int)
    requires z % 2 == 1 && rest == p * z - p && rest > 0
    ensures z > 1 && (z - 1) % 2 == 0 && rest == p * (z - 1)
  {
    assert p * (z - 1) == p * z - p;
  }

  lemma FfsPositive(x: nat)
    requires x > 0 && x % 2 == 0
    ensures Ffs(x) > 0
  {
  }

  lemma Joins2(a: nat, k: nat, y: nat, x: nat)
    requires x == Pow2(k) * y
    ensures Pow2(a) * x == Pow2(a + k) * y
  {
    hide Pow2;
    Pow2Sum(a, k);
    Shuffle(Pow2(a), Pow2(k), y);
  }

  /** With equal halves, the first run does not cross. */
  lemma NoCrossing(n: Word64, l: Word32)
    requires n > 0 && Repeats(n, l) && n % 2 == 0 && Rest(n) > 0 && Xa(n) < Xb(n) && Accepted(n)
    ensures Xb(n) <= Width(n) < 64
  {
    hide Pow2, Ffs, Every, Half;
    LowStart(n, l);
    RunsApart(n);
    EvenStarts(n);
    FirstRun(n);
    var w, xa, xb := Width(n), Xa(n), Xb(n);
    Narrow(n);
    HalfFacts(w);
    var e, h := Ones(xa, xb), Half(w);
    Shuffle(e, h, TWICE);
    SmallHalf(w, xa, xb);
    FitsHalf(e * h, l);
    if xb > w {
      LargeHalf(w, xa, xb);
    }
  }

  /** 64 bit elements have one run. */
  lemma Narrow(n: Word64)
    requires n > 0 && Rest(n) > 0 && Xa(n) >= 1
    ensures Width(n) < 64
  {
    hide Pow2, Ffs;
    FirstRun(n);
    var y := OddPart(Rest(n));
    AtLeast(Pow2(Ffs(Rest(n))), y);
    Pow2Below(Ffs(Rest(n)), Rest(n));
  }

  lemma SmallHalf(w: nat, xa: nat, xb: nat)
    requires IsWidth(w) && w < 64 && xa < 32 && xa < xb < xa + w
    ensures Ones(xa, xb) * Half(w) < W64
  {
    hide Pow2, Half;
    HalfFacts(w);
    Pow2Values();
    Mono(xb, 30 + w);
    SmallPowers();
    Pow2Sum(30, w);
    Pow2Sum(30, 2);
    assert 30 + 2 == 32;
    MulMonotone(Ones(xa, xb), Pow2(30) * Pow2(w), Half(w));
    Shuffle(Pow2(30), Pow2(w), Half(w));
    ScaleBound(Pow2(30), Times(Pow2(w), Half(w)));
  }

  lemma ScaleBound(p: nat, x: nat)
    requires 4 * p == 0x1_0000_0000 && x < 0x2_0000_0000
    ensures p * x < W64
  {
    assert p == 0x4000_0000;
  }

  lemma LargeHalf(w: nat, xa: nat, xb: nat)
    requires IsWidth(w) && w < 64 && xa < xb && xb > w
    ensures Ones(xa, xb) * Half(w) >= 0x1_0000_0000
  {
    hide Pow2, Half;
    HalfFacts(w);
    Mono(w, xb - 1);
    Mono(xa, xb - 1);
    PowStep(xb);
    MulMonotone(Pow2(w), Ones(xa, xb), Half(w));
  }

  lemma PowStep(k: nat)
    requires k > 0
    ensures Pow2(k) == 2 * Pow2(k - 1)
  {
  }

  /** For 32 bit immediates the encoder is right for all words: it finds the ones that some instruction has, with a
      result of 12 bits, and refuses the others. */
  lemma Exact32(l: Word32)
    ensures var n := l * TWICE;
            && (Result(n) == -1 <==> !Encodable(n))
            && (Result(n) != -1 ==> 0 <= Result(n) < 4096 && DecodeBitMasks(Result(n)) == Mask(n))
  {
    hide Result, DecodeBitMasks, Crosses;
    var n: Word64 := l * TWICE;
    Exact(n);
    if Result(n) != -1 {
      NotCrossing32(n, l);
    }
  }

  lemma NotCrossing32(n: Word64, l: Word32)
    requires Repeats(n, l) && Result(n) != -1
    ensures !Crosses(n) && 0 <= Result(n) < 4096
  {
    hide Pow2, Ffs, Every, Ones, Code, Width, Xa, Xb, Rest, Evened;
    RepeatsEven(n, l);
    var e, l2: Word32 := Evened(n), if n % 2 == 1 then 0xFFFF_FFFF - l else l;
    FirstRun(e);
    TwoRuns(e, l2);
    EvenStarts(e);
    NoCrossing(e, l2);
    var w, xa, xb := Width(e), Xa(e), Xb(e);
    CodeBelow(w, w - xb, w + xa - xb);
    CodeBelow(w, w - xa, xb - xa);
  }

  lemma CodeBelow(w: nat, rot: nat, ones: nat)
    requires IsWidth(w) && w < 64 && rot < w && 1 <= ones < w
    ensures 0 <= Code(w, rot, ones) < 4096
  {
    hide Code;
    NarrowFields(w, rot, ones);
  }

  // ---- The code.

  /** `dasm_ffs` of a power of two or of 0 */
  method DasmFfs(x0: Word64) returns (n: int)
    ensures n == if x0 == 0 then -1 else Fls(x0)
  {
    var x := x0;
    n := -1;
    while x > 0
      invariant n + (if x == 0 then 0 else Fls(x) + 1) == (if x0 == 0 then -1 else Fls(x0))
    {
      x := x / 2;
      n := n + 1;
    }
  }

  /** `x & -x`, and the bit that it is */
  method Lowest(x: Word64) returns (a: Word64, k: int)
    ensures if x == 0 then a == 0 && k == -1 else a == Pow2(Ffs(x)) && k == Ffs(x)
  {
    hide Pow2, Ffs, Fls, And;
    LowestBit(x);
    if x > 0 {
      FlsOf(Ffs(x));
      var y := OddPart(x);
      AtLeast(Pow2(Ffs(x)), y);
    }
    a := And(x, Neg(x));
    k := DasmFfs(a);
  }

  /** `dasm_imm13` */
  method DasmImm13(lo: Word32, hi: Word32) returns (r: int)
    ensures r == Result(hi * 0x1_0000_0000 + lo)
  {
    hide Pow2, Ffs, Every, Code, Accepted;
    var n: Word64 := hi * 0x1_0000_0000 + lo;
    var inv := false;
    if n % 2 == 1 {
      n, inv := W64 - 1 - n, true;
    }
    var a, xa := Lowest(n);
    if a == 0 {
      return -1;
    }
    r := Encode(n, inv, a, xa);
  }

  /** What is left to do for an even word with a run. In the last lines the bits do not overlap, so that `|` adds. */
  method Encode(n: Word64, inv: bool, a: nat, xa: nat) returns (r: int)
    requires n > 0 && n % 2 == 0 && a == Pow2(Ffs(n)) && xa == Ffs(n)
    ensures Rest(n) >= 0 && Xa(n) < Xb(n)
    ensures r == if !Accepted(n) then -1
                 else if inv then Code(Width(n), Width(n) - Xb(n), Width(n) + Xa(n) - Xb(n))
                 else Code(Width(n), Width(n) - Xa(n), Xb(n) - Xa(n))
  {
    hide Pow2, Ffs, Every;
    var b, xb := Lowest((n + a) % W64);
    RunBits(n, a, b);
    var c, xc := Lowest((n + a - b) % W64);
    var w, s, m := 64, 0xfff, 1;
    OneCopy();
    if c != 0 {
      w := xc - xa;
      EvenStarts(n);
      Narrow(n);
      if w !in {2, 4, 8, 16, 32} {
        return -1;
      }
      m, s := Every(w), -2 * w % 64 - 1;
    } else if xb == -1 {
      xb := 64;
    }
    if (b - a) % W64 * m % W64 != n {
      return -1;
    }
    if inv {
      r := (w - xb) * 64 + (s + w + xa - xb);
    } else {
      r := (w - xa) * 64 + (s + xb - xa);
    }
  }

  lemma OneCopy()
    ensures Every(64) == 1
  {
  }

  /** The words that the encoder takes apart. */
  lemma RunBits(n: Word64, a: nat, b: nat)
    requires n > 0 && a == Pow2(Xa(n))
    requires var x := (n + a) % W64; if x == 0 then b == 0 else b == Pow2(Ffs(x))
    ensures Xa(n) < Xb(n) <= 64 && Rest(n) >= 0
    ensures (n + a) % W64 == 0 <==> Xb(n) == 64
    ensures (n + a) % W64 != 0 ==> (n + a) % W64 == n + a && b == Pow2(Xb(n))
    ensures (n + a - b) % W64 == Rest(n) && (b - a) % W64 == Ones(Xa(n), Xb(n))
  {
    hide Pow2, Ffs;
    FirstRun(n);
    Pow2Values();
    OnesFit(Xa(n), Xb(n));
    Mono(Xb(n), 64);
    if n + a < W64 {
      Same(n + a);
      Same(Rest(n));
      Same(Ones(Xa(n), Xb(n)));
    } else {
      DivModUnique(n + a, W64, 1, 0);
    }
  }
}
