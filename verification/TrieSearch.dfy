/** Why the two searches of the tree bins find a smallest chunk. */
module TrieSearch {
  import opened AllocSizes
  import opened Bits
  import opened Trie

  /** `chunksize(t) - nb` in size_t arithmetic */
  function Sub64(a: nat, b: nat): (r: nat)
    requires a < WORD64 && b < WORD64
    ensures r < WORD64
  {
    if a >= b then a - b else WORD64 - b + a
  }

  /** v is the best chunk so far, rsize its remainder; 0 and `~nb+1` before the first. */
  ghost predicate Best(t: Bins, nb: nat, v: int, rsize: nat) {
    if v == 0 then rsize == WORD64 - nb
    else InTree(t, v) && t.nodes[v].size >= nb && rsize == t.nodes[v].size - nb
  }

  ghost predicate Candidate(t: Bins, i: nat, nb: nat, y: int) {
    InTree(t, y) && t.nodes[y].index == i && t.nodes[y].size >= nb
  }

  /** What is left of bin i is at least as large as the best chunk v, or lies below cur,
      or is larger than cur itself. */
  ghost predicate Covered(t: Bins, i: nat, nb: nat, v: int, cur: int)
    requires t.dep.Keys == t.nodes.Keys
  {
    (v != 0 ==> v in t.nodes) && (cur != 0 ==> InTree(t, cur)) &&
    forall y {:trigger InTree(t, y)} :: Candidate(t, i, nb, y) ==>
      || (v != 0 && t.nodes[v].size <= t.nodes[y].size)
      || (cur != 0 && (Below(t, cur, y) || t.nodes[cur].size < t.nodes[y].size))
  }

  /** Looking at a chunk: the wrapped remainder of one that is too small is never below rsize. */
  lemma Look(t: Bins, nb: nat, v: int, rsize: nat, cur: int)
    requires Wf(t) && nb < WORD64 && Best(t, nb, v, rsize) && InTree(t, cur)
    ensures t.nodes[cur].size < WORD64
    ensures var trem := Sub64(t.nodes[cur].size, nb);
            (trem < rsize <==> t.nodes[cur].size >= nb && (v != 0 ==> t.nodes[cur].size < t.nodes[v].size)) &&
            (trem < rsize ==> Best(t, nb, cur, trem))
  {
    assert Sized(t, cur);
    if v != 0 {
      assert Sized(t, v);
    }
  }

  /** Everything below the 1-child is larger than everything below the 0-child. */
  lemma LeftIsSmaller(t: Bins, x: int, a: int, b: int)
    requires Wf(t) && Below(t, x, a) && Below(t, x, b) && t.dep[x] < Width(t.nodes[x].index)
    requires Bit(t.nodes[a].size, Width(t.nodes[x].index) - 1 - t.dep[x]) == 0
    requires Bit(t.nodes[b].size, Width(t.nodes[x].index) - 1 - t.dep[x]) == 1
    ensures t.nodes[a].size < t.nodes[b].size
  {
    var k := Width(t.nodes[x].index) - 1 - t.dep[x];
    var p, q := t.nodes[a].size, t.nodes[b].size;
    assert Shr(p, k) == 2 * Shr(p, k + 1) && Shr(q, k) == 2 * Shr(q, k + 1) + 1;
    if q <= p {
      ShrMonotone(q, p, k);
    }
  }

  function Leftmost(n: TChunk): int {
    if n.child0 != 0 then n.child0 else n.child1
  }

  lemma ChildBelow(t: Bins, x: int, b: nat)
    requires Wf(t) && InTree(t, x) && b < 2 && Child(t.nodes[x], b) != 0
    ensures var c := Child(t.nodes[x], b);
            && Below(t, x, c) && t.dep[c] == t.dep[x] + 1 <= Width(t.nodes[x].index)
            && Bit(t.nodes[c].size, Width(t.nodes[x].index) - 1 - t.dep[x]) == b
  {
    assert Forked(t, x, b) && Sized(t, x);
    var c := Child(t.nodes[x], b);
    assert Placed(t, c) && Sized(t, c);
  }

  /** Nothing below cur is too small (or an exact fit has been found already). */
  ghost predicate Big(t: Bins, nb: nat, v: int, cur: int)
    requires t.dep.Keys == t.nodes.Keys
  {
    (v != 0 && v in t.nodes && t.nodes[v].size == nb) ||
    forall y {:trigger InTree(t, y)} :: cur != 0 && Below(t, cur, y) ==> t.nodes[y].size >= nb
  }

  /** One step of the leftmost walk, after cur itself has been looked at. */
  lemma LeftmostStep(t: Bins, i: nat, nb: nat, v: int, cur: int, y: int)
    requires Wf(t) && Covered(t, i, nb, v, cur) && cur != 0
    requires v != 0 && (t.nodes[v].size == nb || t.nodes[v].size <= t.nodes[cur].size)
    requires Candidate(t, i, nb, y)
    ensures var c := Leftmost(t.nodes[cur]);
            || (v != 0 && t.nodes[v].size <= t.nodes[y].size)
            || (c != 0 && InTree(t, c) && (Below(t, c, y) || t.nodes[c].size < t.nodes[y].size))
  {
    if Below(t, cur, y) && y != cur && !(v != 0 && t.nodes[v].size <= t.nodes[y].size) {
      Descend(t, cur, y);
      var c := Leftmost(t.nodes[cur]);
      ChildBelow(t, cur, if t.nodes[cur].child0 != 0 then 0 else 1);
      if !Below(t, c, y) {
        LeftIsSmaller(t, cur, c, y);
      }
    }
  }

  lemma LeftmostCovers(t: Bins, i: nat, nb: nat, v: int, cur: int)
    requires Wf(t) && Covered(t, i, nb, v, cur) && cur != 0
    requires v != 0 && (t.nodes[v].size == nb || t.nodes[v].size <= t.nodes[cur].size)
    requires Big(t, nb, v, cur)
    ensures Big(t, nb, v, Leftmost(t.nodes[cur]))
    ensures Covered(t, i, nb, v, Leftmost(t.nodes[cur]))
    ensures var c := Leftmost(t.nodes[cur]); c != 0 ==> InTree(t, c) && t.dep[cur] < t.dep[c] <= 64
  {
    var c := Leftmost(t.nodes[cur]);
    if c != 0 {
      ChildBelow(t, cur, if t.nodes[cur].child0 != 0 then 0 else 1);
      assert Sized(t, cur);
    }
    forall y | c != 0 && Below(t, c, y) && t.nodes[v].size != nb
      ensures t.nodes[y].size >= nb
    {
      ShrAgree(t.nodes[y].size, t.nodes[c].size, Width(t.nodes[c].index) - t.dep[c],
               Width(t.nodes[c].index) - t.dep[cur]);
      assert Below(t, cur, y);
    }
    forall y | Candidate(t, i, nb, y)
      ensures || (v != 0 && t.nodes[v].size <= t.nodes[y].size)
              || (c != 0 && (Below(t, c, y) || t.nodes[c].size < t.nodes[y].size))
    {
      LeftmostStep(t, i, nb, v, cur, y);
    }
  }

  // ---- Phase 1: the descent along the bits of nb in the bin of nb.

  /** The deepest untaken right subtree: it branched off the path of nb upwards. */
  ghost predicate Untaken(t: Bins, i: nat, nb: nat, cur: int, rst: int)
    requires t.dep.Keys == t.nodes.Keys && cur in t.nodes
  {
    rst != 0 ==>
      && InTree(t, rst) && t.nodes[rst].index == i && 0 < t.dep[rst] <= t.dep[cur] <= Width(i)
      && Shr(t.nodes[rst].size, Width(i) - t.dep[rst]) > Shr(nb, Width(i) - t.dep[rst])
  }

  ghost predicate Hunted(t: Bins, i: nat, nb: nat, v: int, cur: int, rst: int, y: int)
    requires t.dep.Keys == t.nodes.Keys && y in t.nodes && (v != 0 ==> v in t.nodes) && (rst != 0 ==> rst in t.nodes)
  {
    || (v != 0 && t.nodes[v].size <= t.nodes[y].size)
    || (cur != 0 && Below(t, cur, y))
    || (rst != 0 && (Below(t, rst, y) || t.nodes[rst].size < t.nodes[y].size))
  }

  ghost predicate Hunt(t: Bins, i: nat, nb: nat, v: int, cur: int, rst: int)
    requires t.dep.Keys == t.nodes.Keys
  {
    && i < NTREEBINS && InTree(t, cur) && t.nodes[cur].index == i && t.dep[cur] <= Width(i)
    && Agree(nb, t.nodes[cur].size, Width(i) - t.dep[cur])
    && (v != 0 ==> v in t.nodes) && Untaken(t, i, nb, cur, rst)
    && forall y {:trigger InTree(t, y)} :: Candidate(t, i, nb, y) ==> Hunted(t, i, nb, v, cur, rst, y)
  }

  /** The new deepest untaken right subtree after leaving cur towards bit b. */
  function Deeper(t: Bins, cur: int, b: nat, rst: int): int
    requires cur in t.nodes
  {
    var rt := t.nodes[cur].child1;
    if rt != 0 && rt != Child(t.nodes[cur], b) then rt else rst
  }

  lemma UntakenStep(t: Bins, i: nat, nb: nat, v: int, cur: int, rst: int)
    requires Wf(t) && Hunt(t, i, nb, v, cur, rst) && t.dep[cur] < Width(i)
    ensures var b := Bit(nb, Width(i) - 1 - t.dep[cur]);
            var rst' := Deeper(t, cur, b, rst);
            rst' != 0 ==>
              && InTree(t, rst') && t.nodes[rst'].index == i && 0 < t.dep[rst'] <= t.dep[cur] + 1
              && Shr(t.nodes[rst'].size, Width(i) - t.dep[rst']) > Shr(nb, Width(i) - t.dep[rst'])
              && (rst != 0 && rst' != rst ==> b == 0 && t.nodes[rst'].size < t.nodes[rst].size)
  {
    var k := Width(i) - 1 - t.dep[cur];
    var b := Bit(nb, k);
    var rst' := Deeper(t, cur, b, rst);
    if rst' != rst {
      ChildBelow(t, cur, 1);
      assert Shr(nb, k) == 2 * Shr(nb, k + 1) + b;
      assert Shr(t.nodes[rst'].size, k) == 2 * Shr(t.nodes[rst'].size, k + 1) + 1;
      if rst != 0 {
        ShrAgree(t.nodes[rst'].size, t.nodes[cur].size, k + 1, Width(i) - t.dep[rst]);
        ShrAgree(nb, t.nodes[cur].size, k + 1, Width(i) - t.dep[rst]);
        if t.nodes[rst].size <= t.nodes[rst'].size {
          ShrMonotone(t.nodes[rst].size, t.nodes[rst'].size, Width(i) - t.dep[rst]);
        }
      }
    }
  }

  /** The descent keeps every candidate in sight. */
  lemma HuntStepAt(t: Bins, i: nat, nb: nat, v: int, cur: int, rst: int, y: int)
    requires Wf(t) && Hunt(t, i, nb, v, cur, rst) && t.dep[cur] < Width(i)
    requires t.nodes[cur].size >= nb ==> v != 0 && t.nodes[v].size <= t.nodes[cur].size
    requires Candidate(t, i, nb, y)
    ensures var b := Bit(nb, Width(i) - 1 - t.dep[cur]);
            var rst' := Deeper(t, cur, b, rst);
            (rst' != 0 ==> rst' in t.nodes) && Hunted(t, i, nb, v, Child(t.nodes[cur], b), rst', y)
  {
    var k := Width(i) - 1 - t.dep[cur];
    var b := Bit(nb, k);
    var rst' := Deeper(t, cur, b, rst);
    UntakenStep(t, i, nb, v, cur, rst);
    if v != 0 && t.nodes[v].size <= t.nodes[y].size {
    } else if Below(t, cur, y) {
      assert y != cur;
      Descend(t, cur, y);
      var bit := Bit(t.nodes[y].size, k);
      if bit != b {
        assert Shr(nb, k) == 2 * Shr(nb, k + 1) + b;
        assert Shr(t.nodes[y].size, k) == 2 * Shr(t.nodes[y].size, k + 1) + bit;
        ShrMonotone(nb, t.nodes[y].size, k);
      }
    } else if rst' != rst {
      if Below(t, rst, y) {
        ChildBelow(t, cur, 1);
        RightIsLarger(t, i, nb, cur, rst, rst', y);
      }
    }
  }

  lemma RightIsLarger(t: Bins, i: nat, nb: nat, cur: int, rst: int, r: int, y: int)
    requires Wf(t) && InTree(t, cur) && t.nodes[cur].index == i && t.dep[cur] < Width(i) && rst != 0
    requires Agree(nb, t.nodes[cur].size, Width(i) - t.dep[cur]) && Untaken(t, i, nb, cur, rst)
    requires Below(t, cur, r) && Below(t, rst, y)
    ensures t.nodes[r].size < t.nodes[y].size
  {
    var k := Width(i) - t.dep[rst];
    ShrAgree(t.nodes[r].size, t.nodes[cur].size, Width(i) - t.dep[cur], k);
    ShrAgree(nb, t.nodes[cur].size, Width(i) - t.dep[cur], k);
    if t.nodes[y].size <= t.nodes[r].size {
      ShrMonotone(t.nodes[y].size, t.nodes[r].size, k);
    }
  }

  lemma HuntStep(t: Bins, i: nat, nb: nat, v: int, cur: int, rst: int)
    requires Wf(t) && Hunt(t, i, nb, v, cur, rst) && t.nodes[cur].size != nb
    requires t.nodes[cur].size >= nb ==> v != 0 && t.nodes[v].size <= t.nodes[cur].size
    ensures t.dep[cur] < Width(i)
    ensures var b := Bit(nb, Width(i) - 1 - t.dep[cur]);
            var c, rst' := Child(t.nodes[cur], b), Deeper(t, cur, b, rst);
            if c != 0 then Hunt(t, i, nb, v, c, rst') && t.dep[c] == t.dep[cur] + 1
            else Covered(t, i, nb, v, rst') && Big(t, nb, v, rst')
  {
    assert Shr(nb, 0) == nb && Shr(t.nodes[cur].size, 0) == t.nodes[cur].size;
    var k := Width(i) - 1 - t.dep[cur];
    var b := Bit(nb, k);
    var c, rst' := Child(t.nodes[cur], b), Deeper(t, cur, b, rst);
    UntakenStep(t, i, nb, v, cur, rst);
    forall y | Candidate(t, i, nb, y)
      ensures (rst' != 0 ==> rst' in t.nodes) && Hunted(t, i, nb, v, c, rst', y)
    {
      HuntStepAt(t, i, nb, v, cur, rst, y);
    }
    if c != 0 {
      ChildBelow(t, cur, b);
      assert Shr(nb, k) == 2 * Shr(nb, k + 1) + b;
      assert Shr(t.nodes[c].size, k) == 2 * Shr(t.nodes[c].size, k + 1) + b;
    } else if rst' != 0 {
      forall y | Below(t, rst', y)
        ensures t.nodes[y].size >= nb
      {
        if t.nodes[y].size < nb {
          ShrMonotone(t.nodes[y].size, nb, Width(i) - t.dep[rst']);
        }
      }
    }
  }

  // ---- From the bin to all chunks.

  /** v is a smallest chunk of size nb or more, and 0 if there is none. */
  ghost predicate BestFit(t: Bins, nb: nat, v: int) {
    if v == 0 then forall x :: x in t.nodes ==> t.nodes[x].size < nb
    else
      && InTree(t, v) && t.nodes[v].size >= nb
      && forall x :: x in t.nodes && t.nodes[x].size >= nb ==> t.nodes[v].size <= t.nodes[x].size
  }

  /** v is best within bin i, and no smaller bin holds a candidate. */
  lemma BestInBin(t: Bins, i: nat, nb: nat, v: int)
    requires Wf(t) && InTree(t, v) && t.nodes[v].index == i && t.nodes[v].size >= nb && Covered(t, i, nb, v, 0)
    requires forall y {:trigger InTree(t, y)} :: InTree(t, y) && t.nodes[y].index < i ==> t.nodes[y].size < nb
    ensures BestFit(t, nb, v)
  {
    forall x | x in t.nodes && t.nodes[x].size >= nb
      ensures t.nodes[v].size <= t.nodes[x].size
    {
      var y := RingReachesTrie(t, x);
      assert Sized(t, y) && Sized(t, v);
      if t.nodes[y].index > i {
        IndexOrder(t.nodes[v].size, t.nodes[y].size);
      } else if t.nodes[y].index == i {
        assert Candidate(t, i, nb, y);
      }
    }
  }

  lemma NoFit(t: Bins, nb: nat)
    requires Wf(t)
    requires forall y {:trigger InTree(t, y)} :: InTree(t, y) ==> t.nodes[y].size < nb
    ensures BestFit(t, nb, 0)
  {
    forall x | x in t.nodes
      ensures t.nodes[x].size < nb
    {
      var y := RingReachesTrie(t, x);
    }
  }

  /** Chunks in bins below that of nb are too small; those in bins above are large enough. */
  lemma BinsAreOrdered(t: Bins, nb: nat)
    requires Wf(t) && MIN_LARGE_SIZE <= nb < SIZE_LIMIT
    ensures forall y {:trigger InTree(t, y)} :: InTree(t, y) ==>
              && (t.nodes[y].index < TreeIndex(nb) ==> t.nodes[y].size < nb)
              && (t.nodes[y].index > TreeIndex(nb) ==> t.nodes[y].size > nb)
  {
    forall y | InTree(t, y)
      ensures t.nodes[y].index < TreeIndex(nb) ==> t.nodes[y].size < nb
      ensures t.nodes[y].index > TreeIndex(nb) ==> t.nodes[y].size > nb
    {
      assert Sized(t, y);
      if t.nodes[y].index < TreeIndex(nb) {
        IndexOrder(t.nodes[y].size, nb);
      } else if t.nodes[y].index > TreeIndex(nb) {
        IndexOrder(nb, t.nodes[y].size);
      }
    }
  }

  lemma TooLarge(t: Bins, nb: nat)
    requires Wf(t) && nb >= SIZE_LIMIT
    ensures forall y {:trigger InTree(t, y)} :: InTree(t, y) ==> t.nodes[y].size < nb
  {
    forall y | InTree(t, y)
      ensures t.nodes[y].size < nb
    {
      assert Sized(t, y);
    }
  }

  lemma IndexBound(s: nat)
    ensures TreeIndex(s) < NTREEBINS
  {
    var x := Shr(s, TREEBIN_SHIFT) % 0x1_0000_0000;
    if 0 < x <= 0xFFFF {
      FlsMonotone(x, 0xFFFF);
      assert Fls(0xFFFF) == 15;
    }
  }

  // ---- The loops.

  /** Where the search of bin i stands: v is of that bin, t is the subtree still to be looked at. */
  ghost predicate Searched(t: Bins, i: nat, nb: nat, v: int, cur: int)
    requires t.dep.Keys == t.nodes.Keys
  {
    Covered(t, i, nb, v, cur) && Big(t, nb, v, cur) &&
    (v != 0 ==> t.nodes[v].index == i) && (cur != 0 ==> t.nodes[cur].index == i)
  }

  ghost predicate Hunting(t: Bins, i: nat, nb: nat, v: int, cur: int, rst: int, sizebits: nat)
    requires t.dep.Keys == t.nodes.Keys
  {
    Hunt(t, i, nb, v, cur, rst) && (v != 0 ==> t.nodes[v].index == i) &&
    sizebits == Shl(nb, LeftShift(i) + t.dep[cur], 64)
  }
}
