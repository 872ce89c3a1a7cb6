/** The bin bitmaps of the allocator: 32-bit words with one bit per bin, and the
    word tricks that pick the next non-empty bin. */
module BinMap {
  import opened Bits

  const WORD := 32

  function Not32(x: nat): (r: nat)
    requires x < Pow2(WORD)
    ensures r < Pow2(WORD)
  {
    Pow2(WORD) - 1 - x
  }

  function Inc32(x: nat): (r: nat)
    ensures r < Pow2(WORD)
  {
    (x + 1) % Pow2(WORD)
  }

  /** `idx2bit(i)` */
  function IdxBit(i: nat): nat {
    Shl(1, i, WORD)
  }

  predicate Marked(m: nat, i: nat) {
    And(m, IdxBit(i)) != 0
  }

  function Mark(m: nat, i: nat): nat {
    Or(m, IdxBit(i))
  }

  function Clear(m: nat, i: nat): nat {
    And(m, Not32(IdxBit(i)))
  }

  /** `left_bits(x)`: every bit above the lowest bit of x */
  function LeftBits(x: nat): nat {
    var y := Shl(x, 1, WORD);
    Or(y, Inc32(Not32(y)))
  }

  /** The smallest marked index at or above `lo`, stated without any word trick. */
  ghost predicate LeastMarked(m: nat, lo: nat, i: nat) {
    lo <= i < WORD && Marked(m, i) && forall j :: lo <= j < i ==> !Marked(m, j)
  }

  lemma {:induction false} IdxBitBits(i: nat, k: nat)
    ensures Bit(IdxBit(i), k) == 1 <==> i == k && k < WORD
  {
    ShlBit(1, i, WORD, k);
    if i <= k {
      Pow2Bit(0, k - i);
    }
  }

  lemma {:induction false} MarkedBit(m: nat, i: nat)
    requires i < WORD
    ensures Marked(m, i) <==> Bit(m, i) == 1
  {
    var x := And(m, IdxBit(i));
    AndBit(m, IdxBit(i), i);
    IdxBitBits(i, i);
    if x != 0 {
      FfsLeast(x, 0);
      AndBit(m, IdxBit(i), Ffs(x));
      IdxBitBits(i, Ffs(x));
    } else {
      BitZero(i);
    }
  }

  lemma {:induction false} NotBit(x: nat, w: nat, k: nat)
    requires x < Pow2(w)
    ensures Bit(Pow2(w) - 1 - x, k) == 1 <==> k < w && Bit(x, k) == 0
  {
    if w == 0 {
      BitZero(k);
    } else {
      BitDouble(Pow2(w - 1) - 1 - x / 2, 1 - x % 2, if k == 0 then 0 else k - 1);
      assert Pow2(w) - 1 - x == 2 * (Pow2(w - 1) - 1 - x / 2) + (1 - x % 2);
      if k > 0 {
        NotBit(x / 2, w - 1, k - 1);
        ShrHalf(x, k - 1);
      }
    }
  }

  /** Marking and clearing change the mark of that one bin and of no other. */
  lemma {:induction false} MarkChangesOne(m: nat, i: nat, j: nat)
    requires i < WORD && j < WORD
    ensures Marked(Mark(m, i), j) <==> i == j || Marked(m, j)
    ensures Marked(Clear(m, i), j) <==> i != j && Marked(m, j)
  {
    hide And, Or, Pow2, Shl, Marked;
    MarkedBit(m, j);
    MarkedBit(Mark(m, i), j);
    MarkedBit(Clear(m, i), j);
    OrBit(m, IdxBit(i), j);
    AndBit(m, Not32(IdxBit(i)), j);
    IdxBitBits(i, j);
    NotBit(IdxBit(i), WORD, j);
  }

  lemma {:induction false} OrSmall(a: nat, b: nat, w: nat)
    requires a < Pow2(w) && b < Pow2(w)
    ensures Or(a, b) < Pow2(w)
  {
    if a != 0 && b != 0 {
      OrSmall(a / 2, b / 2, w - 1);
    }
  }

  lemma {:induction false} AndSmall(a: nat, b: nat)
    ensures And(a, b) <= a
  {
    if a != 0 && b != 0 {
      AndSmall(a / 2, b / 2);
    }
  }

  /** The maps stay 32-bit words. */
  lemma {:induction false} MapsStayWords(m: nat, i: nat)
    requires m < Pow2(WORD) && i < WORD
    ensures Mark(m, i) < Pow2(WORD) && Clear(m, i) < Pow2(WORD)
  {
    OrSmall(m, IdxBit(i), WORD);
    AndSmall(m, Not32(IdxBit(i)));
  }

  /** `left_bits(idx2bit(i))` has exactly the bits above i. */
  lemma {:induction false} LeftBitsBits(i: nat, k: nat)
    requires i < WORD
    ensures Bit(LeftBits(IdxBit(i)), k) == 1 <==> i < k < WORD
  {
    var y := Shl(IdxBit(i), 1, WORD);
    assert y == if i == WORD - 1 then 0 else Pow2(i + 1) by {
      ShiftedBit(i);
    }
    OrBit(y, Inc32(Not32(y)), k);
    NegWord(y);
    if i == WORD - 1 {
      BitZero(k);
    } else {
      HighOnes(i + 1, WORD, k);
      Pow2Bit(i + 1, k);
    }
  }

  /** `~y + 1` is the two's complement of y. */
  lemma {:induction false} NegWord(y: nat)
    requires y < Pow2(WORD)
    ensures Inc32(Not32(y)) == if y == 0 then 0 else Pow2(WORD) - y
  {
    ComplementMod(y, Pow2(WORD));
  }

  lemma {:induction false} ComplementMod(y: nat, p: nat)
    requires y < p
    ensures (p - 1 - y + 1) % p == if y == 0 then 0 else p - y
  {
    DivModUnique(p - y, p, if y == 0 then 1 else 0, if y == 0 then 0 else p - y);
  }

  lemma {:induction false} ShiftedBit(i: nat)
    requires i < WORD
    ensures Shl(IdxBit(i), 1, WORD) == if i == WORD - 1 then 0 else Pow2(i + 1)
  {
    var y := Shl(IdxBit(i), 1, WORD);
    var z := if i == WORD - 1 then 0 else Pow2(i + 1);
    forall k: nat
      ensures Bit(y, k) == Bit(z, k)
    {
      ShlBit(IdxBit(i), 1, WORD, k);
      if k >= 1 {
        IdxBitBits(i, k - 1);
      }
      Pow2Bit(i + 1, k);
      BitZero(k);
    }
    BitsEqual(y, z);
  }

  lemma {:induction false} HighBitClear(m: nat, k: nat)
    requires m < Pow2(WORD) && k >= WORD
    ensures Bit(m, k) == 0
  {
    ShrSmall(m, WORD);
    BitZero(0);
    ShrAgree(m, 0, WORD, k) by {
      BitZero(WORD);
    }
    BitZero(k);
  }

  /** `lj_ffs(left_bits(idx2bit(idx)) & map)` is the least marked bin above idx, and the
      masked word is 0 exactly when there is none. */
  lemma {:induction false} NextBin(m: nat, idx: nat)
    requires m < Pow2(WORD) && idx < WORD
    ensures var leftbits := And(LeftBits(IdxBit(idx)), m);
            if leftbits != 0 then LeastMarked(m, idx + 1, Ffs(leftbits))
            else forall j :: idx < j < WORD ==> !Marked(m, j)
  {
    var leftbits := And(LeftBits(IdxBit(idx)), m);
    forall j | idx < j < WORD
      ensures Marked(m, j) <==> Bit(leftbits, j) == 1
    {
      MarkedBit(m, j);
      AndBit(LeftBits(IdxBit(idx)), m, j);
      LeftBitsBits(idx, j);
    }
    if leftbits != 0 {
      var i := Ffs(leftbits);
      FfsLeast(leftbits, i);
      AndBit(LeftBits(IdxBit(idx)), m, i);
      LeftBitsBits(idx, i);
      forall j | idx + 1 <= j < i
        ensures !Marked(m, j)
      {
        FfsLeast(leftbits, j);
      }
    } else {
      forall j | idx < j < WORD
        ensures !Marked(m, j)
      {
        BitZero(j);
      }
    }
  }

  /** `lj_ffs(map)` is the least marked bin. */
  lemma {:induction false} FirstBin(m: nat)
    requires 0 < m < Pow2(WORD)
    ensures LeastMarked(m, 0, Ffs(m))
  {
    var i := Ffs(m);
    FfsLeast(m, i);
    if i >= WORD {
      HighBitClear(m, i);
    }
    MarkedBit(m, i);
    forall j | 0 <= j < i
      ensures !Marked(m, j)
    {
      FfsLeast(m, j);
      MarkedBit(m, j);
    }
  }

  /** The remainderless small fit: when bit 0 or 1 of `smallmap >> idx` is set,
      `idx + (~smallbits & 1)` is the least marked bin at or above idx. */
  lemma {:induction false} NearSmallBin(m: nat, idx: nat)
    requires m < Pow2(WORD) && idx < WORD
    ensures var smallbits := Shr(m, idx);
            And(smallbits, 3) != 0 ==>
              smallbits < Pow2(WORD) && LeastMarked(m, idx, idx + And(Not32(smallbits), 1))
    ensures And(Shr(m, idx), 3) == 0 ==> !Marked(m, idx) && (idx + 1 < WORD ==> !Marked(m, idx + 1))
  {
    hide And, Pow2;
    var smallbits := Shr(m, idx);
    ShrSmaller(m, idx);
    LowTwoBits(smallbits);
    NextBit(m, idx);
    MarkedBit(m, idx);
    if idx + 1 < WORD {
      MarkedBit(m, idx + 1);
    }
    if And(smallbits, 3) != 0 {
      NotLowBit(smallbits);
      AndOne(Not32(smallbits));
      var i := idx + And(Not32(smallbits), 1);
      assert Bit(m, i) == 1;
      if i >= WORD {
        HighBitClear(m, i);
      }
      MarkedBit(m, i);
      MarkedBit(m, idx);
    }
  }

  lemma NotLowBit(x: nat)
    requires x < Pow2(WORD)
    ensures Not32(x) % 2 == 1 - x % 2
  {
    NotBit(x, WORD, 0);
  }

  lemma NextBit(m: nat, k: nat)
    ensures Shr(m, k) % 2 == Bit(m, k) && Shr(m, k) / 2 % 2 == Bit(m, k + 1)
  {
  }

  lemma {:induction false} ShrSmaller(m: nat, k: nat)
    ensures Shr(m, k) <= m
  {
    if k > 0 {
      ShrSmaller(m, k - 1);
    }
  }

  lemma {:induction false} LowTwoBits(x: nat)
    ensures And(x, 3) != 0 <==> x % 2 == 1 || (x / 2) % 2 == 1
  {
    if x != 0 {
      assert And(x, 3) == 2 * And(x / 2, 1) + x % 2;
      AndOne(x / 2);
    }
  }

  lemma {:induction false} AndOne(x: nat)
    ensures And(x, 1) == x % 2
  {
    if x != 0 {
      assert And(x, 1) == 2 * And(x / 2, 0) + x % 2;
    }
  }

  /** The bits that are looked at: those of the map from idx on, of which the first is clear. */
  lemma FarBit(m: nat, idx: nat, k: nat)
    requires m < Pow2(WORD) && idx < WORD && And(Shr(m, idx), 3) == 0
    ensures Bit(And(Shl(Shr(m, idx), idx, WORD), LeftBits(IdxBit(idx))), k) == 1 <==> idx <= k < WORD && Bit(m, k) == 1
    ensures k >= idx ==> Bit(Shr(m, idx), k - idx) == Bit(m, k)
  {
    hide And, Pow2, LeftBits, IdxBit, Shl;
    var smallbits := Shr(m, idx);
    LowTwoBits(smallbits);
    AndBit(Shl(smallbits, idx, WORD), LeftBits(IdxBit(idx)), k);
    ShlBit(smallbits, idx, WORD, k);
    LeftBitsBits(idx, k);
    if k >= idx {
      ShrShr(m, idx, k - idx);
    }
  }

  /** The next small bin: `lj_ffs((smallbits << idx) & left_bits(idx2bit(idx)))`. */
  lemma {:induction false} FarSmallBin(m: nat, idx: nat)
    requires m < Pow2(WORD) && idx < WORD
    requires And(Shr(m, idx), 3) == 0
    ensures var smallbits := Shr(m, idx);
            var leftbits := And(Shl(smallbits, idx, WORD), LeftBits(IdxBit(idx)));
            (leftbits != 0 <==> smallbits != 0) &&
            if smallbits != 0 then LeastMarked(m, idx, Ffs(leftbits))
            else forall j :: idx <= j < WORD ==> !Marked(m, j)
  {
    hide And, Pow2, LeftBits, IdxBit, Shl, Marked;
    var smallbits := Shr(m, idx);
    var leftbits := And(Shl(smallbits, idx, WORD), LeftBits(IdxBit(idx)));
    forall k: nat
      ensures Bit(leftbits, k) == 1 <==> idx <= k < WORD && Bit(m, k) == 1
      ensures k >= idx ==> Bit(smallbits, k - idx) == Bit(m, k)
    {
      FarBit(m, idx, k);
    }
    forall j | idx <= j < WORD
      ensures Marked(m, j) <==> Bit(leftbits, j) == 1
    {
      MarkedBit(m, j);
    }
    if smallbits != 0 {
      FfsLeast(smallbits, 0);
      var k := Ffs(smallbits) + idx;
      assert Bit(m, k) == 1;
      if k >= WORD {
        HighBitClear(m, k);
      }
      assert Bit(leftbits, k) == 1;
      BitZero(k);
      var i := Ffs(leftbits);
      FfsLeast(leftbits, i);
      forall j | idx <= j < i
        ensures !Marked(m, j)
      {
        FfsLeast(leftbits, j);
      }
    } else {
      if leftbits != 0 {
        FfsLeast(leftbits, 0);
        BitZero(Ffs(leftbits) - idx);
      }
      forall j | idx <= j < WORD
        ensures !Marked(m, j)
      {
        BitZero(j - idx);
      }
    }
  }
}
