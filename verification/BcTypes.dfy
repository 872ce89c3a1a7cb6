/** Prototypes and constants as `lj_obj.h` has them, and how the bytecode dump (`lj_bcdump.h`) lays out constants. */
module BcTypes {
  import opened Bits
  import opened Leb

  const LJ_MAX_BUF := 0x7fff_ff00

  const BCDUMP_KTAB_NIL := 0
  const BCDUMP_KTAB_FALSE := 1
  const BCDUMP_KTAB_TRUE := 2
  const BCDUMP_KTAB_INT := 3
  const BCDUMP_KTAB_NUM := 4
  const BCDUMP_KTAB_STR := 5

  /** A tagged value: an integer as its 32 bits, and a double as its low and high word. */
  datatype TV = Nil | False | True | Int(k: Word) | Num(lo: Word, hi: Word) | Str(s: seq<Byte>)

  // ---- Doubles that are integers.

  datatype Narrowed = Whole(k: Word) | Fraction

  function Magnitude(k: Word): Word {
    if k < 0x8000_0000 then k else 0x1_0000_0000 - k
  }

  function Sign(k: Word): Word {
    if k < 0x8000_0000 then 0 else 0x8000_0000
  }

  /** The mantissa of an integer of the given magnitude, without the leading one. */
  function Mantissa(a: Word): (m: nat)
    requires a > 0
    ensures m < 0x10_0000_0000_0000
  {
    MantissaFits(a);
    Scaled(a, Pow2(Fls(a)), Pow2(52 - Fls(a)))
  }

  function Scaled(a: nat, p: nat, q: nat): nat
    requires p <= a
  {
    (a - p) * q
  }

  lemma MantissaFits(a: Word)
    requires a > 0
    ensures Fls(a) <= 31 && Pow2(Fls(a)) <= a
    ensures Scaled(a, Pow2(Fls(a)), Pow2(52 - Fls(a))) < 0x10_0000_0000_0000
  {
    hide Pow2;
    WordFls(a);
    FlsTop(a);
    ShrBounds(a, Fls(a));
    var p, q := Pow2(Fls(a)), Pow2(52 - Fls(a));
    Pow2Sum(Fls(a), 52 - Fls(a));
    Pow52();
    Below(a, p, q);
  }

  lemma WordFls(a: Word)
    ensures Fls(a) <= 31
  {
    hide Pow2, Fls;
    Pow2Values();
    FlsWord(a, 31);
  }

  lemma Pow52()
    ensures Pow2(52) == 0x10_0000_0000_0000
  {
    hide Pow2;
    Pow2Values();
    Pow2Sum(32, 8);
    Pow2Sum(40, 8);
    Pow2Sum(48, 4);
    Pow4();
  }

  lemma Pow4()
    ensures Pow2(4) == 16
  {
  }

  lemma Below(a: nat, p: nat, q: nat)
    requires 0 < q && p <= a < 2 * p
    ensures Scaled(a, p, q) < p * q
  {
    MulMonotone(a - p + 1, p, q);
    assert (a - p + 1) * q == (a - p) * q + q;
  }

  /** `(lua_Number)k`: section 3.4 of IEEE 754 */
  function Widen(k: Word): (o: TV)
    ensures o.Num?
  {
    var a := Magnitude(k);
    if a == 0 then Num(0, 0)
    else
      WordFls(a);
      var m := Mantissa(a);
      Num(m % 0x1_0000_0000, Sign(k) + (1023 + Fls(a)) * 0x10_0000 + m / 0x1_0000_0000)
  }

  /** The only integer that the double can be: its sign, exponent and mantissa taken apart. */
  function Candidate(lo: Word, hi: Word): Word {
    var e := hi % 0x8000_0000 / 0x10_0000 - 1023;
    if 0 <= e <= 31 then
      var a := (Pow2(e) + (hi % 0x10_0000 * 0x1_0000_0000 + lo) / Pow2(52 - e)) % 0x1_0000_0000;
      if hi < 0x8000_0000 || a == 0 then a else 0x1_0000_0000 - a
    else
      0
  }

  /** Whether the double equals an integer, as `num == (lua_Number)lj_num2int(num)` tells: -0 equals 0. */
  function Narrow(lo: Word, hi: Word): Narrowed {
    var k := Candidate(lo, hi);
    if Widen(k) == Num(lo, hi) then Whole(k)
    else if lo == 0 && hi == 0x8000_0000 then Whole(0)
    else Fraction
  }

  predicate MinusZero(o: TV) {
    o == Num(0, 0x8000_0000)
  }

  lemma WidenNarrowed(lo: Word, hi: Word)
    requires Narrow(lo, hi).Whole?
    ensures Widen(Narrow(lo, hi).k) == Num(lo, hi) <==> !MinusZero(Num(lo, hi))
    ensures MinusZero(Num(lo, hi)) ==> Widen(Narrow(lo, hi).k) == Num(0, 0)
  {
    assert Widen(0) == Num(0, 0);
  }

  lemma MantissaBack(a: Word, e: nat, p: nat, q: nat)
    requires 0 < q && p <= a
    ensures Scaled(a, p, q) / q == a - p
  {
    DivModUnique((a - p) * q, q, a - p, 0);
  }

  /** The candidate, from the sign, the exponent and the mantissa of a double. */
  lemma CandidateIs(k: Word, lo: Word, h: Word, e: nat, m: nat)
    requires 0 < Magnitude(k) && e <= 31 && Pow2(e) <= Magnitude(k)
    requires h % 0x8000_0000 / 0x10_0000 == 1023 + e && h % 0x10_0000 * 0x1_0000_0000 + lo == m
    requires (h < 0x8000_0000) == (k < 0x8000_0000) && m / Pow2(52 - e) == Magnitude(k) - Pow2(e)
    ensures Candidate(lo, h) == k
  {
    hide Pow2;
    assert h % 0x8000_0000 / 0x10_0000 - 1023 == e;
    assert (Pow2(e) + m / Pow2(52 - e)) % 0x1_0000_0000 == Magnitude(k);
  }

  /** No integer is lost. */
  lemma NarrowWidened(k: Word)
    ensures var o := Widen(k); Narrow(o.lo, o.hi) == Whole(k)
  {
    hide Pow2, Fls, Scaled, Candidate;
    var a, o := Magnitude(k), Widen(k);
    if a > 0 {
      MantissaFits(a);
      var e, m := Fls(a), Mantissa(a);
      MantissaBack(a, e, Pow2(e), Pow2(52 - e));
      var top := m / 0x1_0000_0000;
      assert top < 0x10_0000 && m == top * 0x1_0000_0000 + o.lo;
      HighWord(Sign(k), 1023 + e, top);
      CandidateIs(k, o.lo, o.hi, e, m);
    } else {
      CandidateZero();
    }
  }

  lemma CandidateZero()
    ensures Candidate(0, 0) == 0
  {
  }

  lemma HighWord(s: Word, x: nat, top: nat)
    requires s in {0, 0x8000_0000} && x < 0x800 && top < 0x10_0000
    ensures var h := s + x * 0x10_0000 + top;
            h % 0x8000_0000 / 0x10_0000 == x && h % 0x10_0000 == top && (h < 0x8000_0000 <==> s == 0)
  {
    assert (s + x * 0x10_0000 + top) % 0x8000_0000 == x * 0x10_0000 + top;
  }
}
