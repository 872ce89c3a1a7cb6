/** ULEB128 numbers as the bytecode dump has them, and the hand-patched form for 33 bits
    (`lj_strfmt_wuleb128`, `lj_buf_ruleb128`, `bcread_uleb128_33` and `bcwrite_knum`). */
module Leb {
  import opened Bits

  type Byte = x: nat | x < 0x100
  type Half = x: nat | x < 0x10000
  type Word = x: nat | x < 0x1_0000_0000

  datatype Parsed<T> = Bad | Done(value: T, rest: seq<Byte>)

  /** The unsigned little endian base 128 form of n. */
  function Uleb(n: nat): (b: seq<Byte>)
    ensures b != []
  {
    if n < 128 then [n] else [n % 128 + 128] + Uleb(n / 128)
  }

  /** The value of a number's bytes. */
  function UlebValue(b: seq<Byte>): nat {
    if b == [] then 0 else b[0] % 128 + 128 * UlebValue(b[1..])
  }

  /** How many bytes the number at the front of b takes, or 0 if it does not end. */
  function UlebLen(b: seq<Byte>): (n: nat)
    ensures n <= |b|
  {
    if b == [] then 0
    else if b[0] < 128 then 1
    else
      var n := UlebLen(b[1..]);
      if n == 0 then 0 else n + 1
  }

  /** A 32 bit number. One of more than five bytes, for which the C code shifts by more than 31 bits, is bad. */
  function ReadUleb(b: seq<Byte>): Parsed<Word> {
    var n := UlebLen(b);
    if n == 0 || n > 5 then Bad else Done(UlebValue(b[..n]) % 0x1_0000_0000, b[n..])
  }

  /** The top 32 bits of a 33 bit number. */
  function ReadUleb33(b: seq<Byte>): Parsed<Word> {
    var n := UlebLen(b);
    if n == 0 || n > 5 then Bad else Done((UlebValue(b[..n]) / 2) % 0x1_0000_0000, b[n..])
  }

  lemma {:induction false} UlebRound(n: nat, rest: seq<Byte>)
    ensures UlebLen(Uleb(n) + rest) == |Uleb(n)| && UlebValue(Uleb(n)) == n
    decreases n
  {
    if n < 128 {
      assert UlebValue([n]) == n % 128 + 128 * UlebValue([]);
    } else {
      UlebRound(n / 128, rest);
      var b, t := Uleb(n), Uleb(n / 128);
      assert b[1..] == t && (b + rest)[1..] == t + rest;
    }
  }

  lemma {:induction false} UlebLength(n: nat)
    ensures |Uleb(n)| == Fls(n) / 7 + 1
    decreases n
  {
    if n >= 128 {
      UlebLength(n / 128);
      Fls128(n);
    } else {
      FlsSmall(n);
    }
  }

  lemma Fls128(n: nat)
    requires n >= 128
    ensures Fls(n) == 7 + Fls(n / 128)
  {
    var n2, n4, n8 := n / 2, n / 2 / 2, n / 2 / 2 / 2;
    var n16, n32, n64 := n8 / 2, n8 / 2 / 2, n8 / 2 / 2 / 2;
    assert Fls(n) == 1 + Fls(n2) && Fls(n2) == 1 + Fls(n4) && Fls(n4) == 1 + Fls(n8);
    assert Fls(n8) == 1 + Fls(n16) && Fls(n16) == 1 + Fls(n32) && Fls(n32) == 1 + Fls(n64);
    assert n64 / 2 == n / 128;
  }

  lemma FlsSmall(n: nat)
    requires n < 128
    ensures Fls(n) < 7
  {
    FlsMonotone(n, 127);
    assert Fls(127) == 1 + Fls(63) && Fls(63) == 1 + Fls(31) && Fls(31) == 1 + Fls(15);
    assert Fls(15) == 1 + Fls(7) && Fls(7) == 1 + Fls(3) && Fls(3) == 1 + Fls(1);
  }

  lemma {:induction false} FlsWord(n: nat, k: nat)
    requires n < Pow2(k + 1)
    ensures Fls(n) <= k
  {
    if k > 0 {
      FlsWord(n / 2, k - 1);
    }
  }

  /** The length that `bcwrite_proto` computes for the size field, without a loop, is exact. */
  lemma SizeField(n: Word)
    ensures |Uleb(n)| == (Fls(n) + 8) * 9 / 64 && |Uleb(n)| <= 5
  {
    UlebLength(n);
    Pow2Values();
    assert Pow2(32) == 0x1_0000_0000;
    FlsWord(n, 31);
  }

  lemma {:induction false} UlebShort(n: nat)
    requires n < 0x8_0000_0000
    ensures |Uleb(n)| <= 5
  {
    var a, b, c, d := n / 128, n / 128 / 128, n / 128 / 128 / 128, n / 128 / 128 / 128 / 128;
    assert |Uleb(d)| == 1;
    assert |Uleb(c)| <= 2;
    assert |Uleb(b)| <= 3;
    assert |Uleb(a)| <= 4;
  }

  lemma ReadBack(w: Word, rest: seq<Byte>)
    ensures ReadUleb(Uleb(w) + rest) == Done(w, rest)
  {
    UlebRound(w, rest);
    UlebShort(w);
    assert (Uleb(w) + rest)[..|Uleb(w)|] == Uleb(w);
  }

  // ---- 33 bits.

  /** Five bytes for numbers of 29 to 35 bits. */
  lemma UlebFive(v: nat)
    requires 0x1000_0000 <= v < 0x8_0000_0000
    ensures Uleb(v) == [v % 128 + 128, v / 0x80 % 128 + 128, v / 0x4000 % 128 + 128, v / 0x20_0000 % 128 + 128,
                        v / 0x1000_0000]
  {
    var a, b, c, d := v / 0x80, v / 0x4000, v / 0x20_0000, v / 0x1000_0000;
    assert Uleb(d) == [d];
    assert Uleb(c) == [c % 128 + 128] + Uleb(d);
    assert Uleb(b) == [b % 128 + 128] + Uleb(c);
    assert Uleb(a) == [a % 128 + 128] + Uleb(b);
    assert Uleb(v) == [v % 128 + 128] + Uleb(a);
  }

  /** `2*w | (w & 0x80000000)` in 32 bits */
  function Doubled(w: Word): Word {
    if w < 0x8000_0000 then 2 * w else (2 * w) % 0x8000_0000 + 0x8000_0000
  }

  /** The last byte, after `(b & 7) | ((w>>27) & 0x18)`. */
  function PatchedByte(b: Byte, w: Word): Byte {
    b % 8 + w / 0x800_0000 % 32 / 8 * 8
  }

  /** The bytes that `bcwrite_knum` leaves for a word and a tag bit are those of the 33 bit number 2w + tag. */
  lemma Patched33(w: Word, tag: nat)
    requires tag < 2
    ensures var b := Uleb(tag + Doubled(w));
            Uleb(2 * w + tag) == if w >= 0x8000_0000 then b[|b| - 1 := PatchedByte(b[|b| - 1], w)] else b
  {
    if w >= 0x8000_0000 {
      var v, x := tag + Doubled(w), 2 * w + tag;
      TopBits(w, tag);
      SameLow(v, x, w);
      Patch(v, x, w);
    }
  }

  lemma Patch(v: nat, x: nat, w: Word)
    requires 0x1000_0000 <= v < 0x1_0000_0000 && 0x1000_0000 <= x < 0x8_0000_0000
    requires x % 128 == v % 128 && x / 0x80 % 128 == v / 0x80 % 128
    requires x / 0x4000 % 128 == v / 0x4000 % 128 && x / 0x20_0000 % 128 == v / 0x20_0000 % 128
    requires x / 0x1000_0000 == PatchedByte(v / 0x1000_0000, w)
    ensures var b := Uleb(v); Uleb(x) == b[|b| - 1 := PatchedByte(b[|b| - 1], w)]
  {
    hide Uleb, PatchedByte;
    UlebFive(v);
    UlebFive(x);
  }

  lemma SameLow(v: nat, x: nat, w: Word)
    requires x >= v && x - v == 0x8000_0000 * (w / 0x4000_0000 - 1) && w >= 0x8000_0000
    ensures x % 128 == v % 128 && x / 0x80 % 128 == v / 0x80 % 128
    ensures x / 0x4000 % 128 == v / 0x4000 % 128 && x / 0x20_0000 % 128 == v / 0x20_0000 % 128
  {
    var j := w / 0x4000_0000 - 1;
    Higher(v, 0x100_0000 * j);
    Higher(v / 0x80, 0x2_0000 * j);
    Higher(v / 0x80 / 0x80, 0x400 * j);
    Higher(v / 0x80 / 0x80 / 0x80, 8 * j);
    DivTwice(v);
    DivTwice(x);
    DivThrice(v);
    DivThrice(x);
  }

  /** Adding to the digits above leaves the lowest one alone. */
  lemma Higher(v: nat, k: nat)
    ensures (v + 0x80 * k) % 128 == v % 128 && (v + 0x80 * k) / 0x80 == v / 0x80 + k
  {
  }

  lemma DivTwice(x: nat)
    ensures x / 0x4000 == x / 0x80 / 0x80
  {
  }

  lemma DivThrice(x: nat)
    ensures x / 0x20_0000 == x / 0x80 / 0x80 / 0x80
  {
  }

  lemma TopBits(w: Word, tag: nat)
    requires tag < 2 && w >= 0x8000_0000
    ensures var v, x := tag + Doubled(w), 2 * w + tag;
            && 0x8000_0000 <= v < 0x1_0000_0000 && x - v == 0x8000_0000 * (w / 0x4000_0000 - 1) && x < 0x8_0000_0000
            && x / 0x1000_0000 == PatchedByte(v / 0x1000_0000, w)
  {
    var h := w - 0x8000_0000;
    var q, r := h / 0x4000_0000, h % 0x4000_0000;
    assert w / 0x4000_0000 == 2 + q && q < 2;
    var v := tag + Doubled(w);
    assert v == 0x8000_0000 + 2 * r + tag;
    assert 2 * w + tag == v + 0x8000_0000 * (1 + q);
    assert w / 0x800_0000 % 32 / 8 == w / 0x4000_0000;
  }

  /** Reading them gives the word and the tag back. */
  lemma ReadBack33(w: Word, tag: nat, rest: seq<Byte>)
    requires tag < 2
    ensures ReadUleb33(Uleb(2 * w + tag) + rest) == Done(w, rest)
    ensures (Uleb(2 * w + tag) + rest)[0] % 2 == tag
  {
    var v := 2 * w + tag;
    UlebRound(v, rest);
    UlebShort(v);
    assert (Uleb(v) + rest)[..|Uleb(v)|] == Uleb(v);
    assert v / 2 == w;
  }

  // ---- The loops.

  /** `v | (b << sh)` where v has no bits from sh on, in 32 bits */
  function Joined(v: Word, b: nat, sh: nat): Word {
    Or(v, Shl(b, sh, 32)) % 0x1_0000_0000
  }

  lemma {:induction false} OrIsSum(v: nat, x: nat, sh: nat)
    requires v < Pow2(sh)
    ensures Or(v, x * Pow2(sh)) == v + x * Pow2(sh)
    decreases sh
  {
    if sh > 0 && v != 0 && x * Pow2(sh) != 0 {
      var p := Pow2(sh - 1);
      assert x * Pow2(sh) == 2 * (x * p) by {
        assert x * (2 * p) == 2 * (x * p);
      }
      OrIsSum(v / 2, x, sh - 1);
      assert (x * Pow2(sh)) % 2 == 0 && x * Pow2(sh) / 2 == x * p;
    }
  }

  /** Where the bits do not overlap, it is a sum. */
  lemma JoinedIsSum(v: Word, b: nat, sh: nat, p: nat)
    requires p == Pow2(sh) && v < p && sh <= 32
    ensures Joined(v, b, sh) == (v + b * p) % 0x1_0000_0000
  {
    hide Pow2, Or;
    Pow2Values();
    Pow2Sum(sh, 32 - sh);
    var top := Pow2(32 - sh);
    var q, r := b / top, b % top;
    Split(b, p, top, q, r);
    DivModUnique(b * p, 0x1_0000_0000, q, r * p);
    OrIsSum(v, r, sh);
    DivModUnique(v + b * p, 0x1_0000_0000, q, v + r * p);
  }

  lemma Split(b: nat, p: nat, top: nat, q: nat, r: nat)
    requires top > 0 && q == b / top && r == b % top
    ensures b * p == q * (p * top) + r * p && r * p + p <= p * top
  {
    assert b == q * top + r;
    assert (q * top + r) * p == (q * top) * p + r * p;
    assert (q * top) * p == q * (p * top);
    MulMonotone(r + 1, top, p);
    assert (r + 1) * p == r * p + p;
  }

  /** One more byte. */
  lemma {:induction false} ValueMore(b: seq<Byte>, n: nat)
    requires n < |b|
    ensures UlebValue(b[..n + 1]) == UlebValue(b[..n]) + (b[n] % 128) * Pow2(7 * n)
    ensures UlebValue(b[..n]) < Pow2(7 * n)
    decreases n
  {
    hide Pow2;
    if n == 0 {
      OneByte(b);
      assert Pow2(0) == 1 by {
        PowZero();
      }
    } else {
      var t := b[1..];
      ValueMore(t, n - 1);
      assert b[..n + 1][1..] == t[..n] && b[..n][1..] == t[..n - 1];
      Pow2Seven(n);
      Times128(b[n] % 128, Pow2(7 * n - 7));
    }
  }

  lemma PowSeven()
    ensures Pow2(7) == 128
  {
  }

  lemma PowZero()
    ensures Pow2(0) == 1
  {
  }

  lemma Pow2Seven(n: nat)
    requires n > 0
    ensures Pow2(7 * n) == 128 * Pow2(7 * (n - 1))
  {
    hide Pow2;
    Pow2Sum(7, 7 * (n - 1));
    PowSeven();
  }

  lemma Times128(d: nat, p: nat)
    ensures 128 * (d * p) == d * (128 * p)
  {
  }

  lemma OneByte(b: seq<Byte>)
    requires b != []
    ensures UlebValue(b[..1]) == b[0] % 128
  {
    assert b[..1][1..] == [];
  }

  /** The first n bytes all have successors. */
  predicate Open(b: seq<Byte>, n: nat) {
    n <= |b| && forall i {:trigger b[i]} :: 0 <= i < n ==> b[i] >= 128
  }

  lemma {:induction false} LenMore(b: seq<Byte>, n: nat)
    requires Open(b, n)
    ensures UlebLen(b) == 0 || UlebLen(b) > n
    ensures n < |b| && b[n] < 128 ==> UlebLen(b) == n + 1
    ensures n == |b| ==> UlebLen(b) == 0
    decreases n
  {
    if n > 0 {
      assert b[0] >= 128;
      assert forall i :: 0 <= i < n - 1 ==> b[1..][i] == b[i + 1];
      LenMore(b[1..], n - 1);
    }
  }

  /** `lj_strfmt_wuleb128` */
  method WriteUleb(p: seq<Byte>, v0: Word) returns (p': seq<Byte>)
    ensures p' == p + Uleb(v0)
  {
    var v := v0;
    p' := p;
    while v >= 0x80
      invariant p' + Uleb(v) == p + Uleb(v0)
      decreases v
    {
      p' := p' + [v % 128 + 128];
      v := v / 128;
    }
    p' := p' + [v];
  }

  /** `lj_buf_ruleb128`: from the front of the buffer b, of which n bytes are read. It fails where the buffer
      is read past its end. */
  method RUleb(b: seq<Byte>) returns (ok: bool, v: Word, n: nat)
    ensures ok == ReadUleb(b).Done?
    ensures ok ==> n <= |b| && ReadUleb(b) == Done(v, b[n..])
  {
    hide Joined, UlebValue, UlebLen;
    ok, v, n := false, 0, 0;
    LenMore(b, 0);
    if b == [] {
      return;
    }
    v, n := b[0], 1;
    OneByte(b);
    if v >= 0x80 {
      v := v % 128;
      var sh := 0;
      while b[n - 1] >= 0x80
        invariant 1 <= n <= 5 && n <= |b| && sh == 7 * (n - 1)
        invariant v == UlebValue(b[..n]) % 0x1_0000_0000 && Open(b, n - 1)
        decreases |b| - n
      {
        LenMore(b, n);
        if n == |b| || n == 5 {
          return;
        }
        sh := sh + 7;
        JoinMore(b, n, v);
        v := Joined(v, b[n] % 128, sh);
        n := n + 1;
      }
      LenMore(b, n - 1);
    }
    ok := true;
  }

  lemma JoinMore(b: seq<Byte>, n: nat, v: Word)
    requires 1 <= n < |b| && n <= 4 && v == UlebValue(b[..n]) % 0x1_0000_0000
    ensures Joined(v, b[n] % 128, 7 * n) == UlebValue(b[..n + 1]) % 0x1_0000_0000
  {
    hide Joined, UlebValue, Pow2;
    ValueMore(b, n);
    ShiftBound(n);
    JoinedIsSum(v, b[n] % 128, 7 * n, Pow2(7 * n));
  }

  lemma ShiftBound(n: nat)
    requires 1 <= n <= 4
    ensures Pow2(7 * n) <= 0x1000_0000 && Pow2(7 * n) == 2 * Pow2(7 * n - 1)
  {
    PowZero();
    Pow2Seven(1);
    Pow2Seven(2);
    Pow2Seven(3);
    Pow2Seven(4);
  }

  /** `bcread_uleb128_33`: the top 32 bits of a 33 bit number. */
  method RUleb33(b: seq<Byte>) returns (ok: bool, v: Word, n: nat)
    ensures ok == ReadUleb33(b).Done?
    ensures ok ==> n <= |b| && ReadUleb33(b) == Done(v, b[n..])
  {
    hide Joined, UlebValue, UlebLen;
    ok, v, n := false, 0, 0;
    LenMore(b, 0);
    if b == [] {
      return;
    }
    v, n := b[0] / 2, 1;
    OneByte(b);
    if v >= 0x40 {
      v := v % 0x40;
      var sh := -1;
      while b[n - 1] >= 0x80
        invariant 1 <= n <= 5 && n <= |b| && sh == 7 * (n - 1) - 1
        invariant v == UlebValue(b[..n]) / 2 % 0x1_0000_0000 && Open(b, n - 1)
        decreases |b| - n
      {
        LenMore(b, n);
        if n == |b| || n == 5 {
          return;
        }
        sh := sh + 7;
        JoinMore33(b, n, v);
        v := Joined(v, b[n] % 128, sh);
        n := n + 1;
      }
      LenMore(b, n - 1);
    }
    ok := true;
  }

  lemma JoinMore33(b: seq<Byte>, n: nat, v: Word)
    requires 1 <= n < |b| && n <= 4 && v == UlebValue(b[..n]) / 2 % 0x1_0000_0000
    ensures Joined(v, b[n] % 128, 7 * n - 1) == UlebValue(b[..n + 1]) / 2 % 0x1_0000_0000
  {
    hide Joined, UlebValue, Pow2;
    ValueMore(b, n);
    ShiftBound(n);
    var p, d := Pow2(7 * n - 1), b[n] % 128;
    assert d * (2 * p) == 2 * (d * p);
    JoinedIsSum(v, d, 7 * n - 1, p);
  }
}
