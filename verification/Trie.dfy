/** The tree bins of the allocator as a value: 32 bitwise tries over chunk sizes, with
    chunks of equal size kept in a ring, and what it means for them to be well formed. */
module Trie {
  import opened AllocSizes
  import opened Bits

  const NTREEBINS := 32
  const TREEBIN_SHIFT := 8
  const SIZE_T_BITSIZE := 64

  /** `compute_tree_index`, with its cast of `S >> 8` to 32 bits. */
  function TreeIndex(s: nat): (i: nat)
  {
    var x := Shr(s, TREEBIN_SHIFT) % 0x1_0000_0000;
    if x == 0 then 0
    else if x > 0xFFFF then NTREEBINS - 1
    else
      var k := Fls(x);
      2 * k + Bit(s, k + TREEBIN_SHIFT - 1)
  }

  /** `leftshift_for_tree_index` */
  function LeftShift(i: nat): nat
    requires i < NTREEBINS
  {
    if i == NTREEBINS - 1 then 0 else SIZE_T_BITSIZE - 1 - (i / 2 + TREEBIN_SHIFT - 2)
  }

  /** Number of low size bits that bin i leaves undecided; depth d looks at bit `Width(i)-1-d`. */
  function Width(i: nat): nat {
    if i == NTREEBINS - 1 then 64 else i / 2 + TREEBIN_SHIFT - 1
  }

  lemma IndexPrefix(s: nat)
    requires MIN_LARGE_SIZE <= s < SIZE_LIMIT
    ensures var i := TreeIndex(s);
            i < NTREEBINS && Shr(s, Width(i)) == (if i < NTREEBINS - 1 then 2 + i % 2 else 0) &&
            (i == NTREEBINS - 1 ==> s >= 0xC0_0000)
  {
    var x := Shr(s, 8);
    ShiftedSize(s);
    BigShr(s);
    if x <= 0xFFFF {
      var k := Fls(x);
      TopBits(s);
      assert TreeIndex(s) == 2 * k + Bit(s, k + 7);
    }
    if TreeIndex(s) == 31 {
      SmallWord(s);
    }
  }

  lemma ShiftedSize(s: nat)
    requires MIN_LARGE_SIZE <= s < SIZE_LIMIT
    ensures 0 < Shr(s, 8) < 0x1_0000_0000 && Shr(s, 8) % 0x1_0000_0000 == Shr(s, 8)
    ensures Shr(s, 8) > 0xFFFF ==> s >= 0x100_0000
  {
    Pow2Values();
    ShrBounds(s, 8);
  }

  /** Below 2^24, the two leading bits of the size are 1 and the low bit of the index. */
  lemma TopBits(s: nat)
    requires 0 < Shr(s, 8) <= 0xFFFF
    ensures var k := Fls(Shr(s, 8)); k <= 15 && Shr(s, k + 7) == 2 + Bit(s, k + 7)
  {
    var x := Shr(s, 8);
    var k := Fls(x);
    FlsTop(x);
    FlsMonotone(x, 0xFFFF);
    assert Fls(0xFFFF) == 15;
    ShrShr(s, 8, k);
    assert Shr(s, k + 7) / 2 == Shr(s, k + 8);
  }

  lemma SmallWord(s: nat)
    requires s < SIZE_LIMIT
    ensures Shr(s, 64) == 0
  {
    Pow2Values();
    ShrSmall(s, 64);
  }

  lemma BigShr(s: nat)
    ensures Shr(s, 22) * 0x40_0000 <= s < Shr(s, 22) * 0x40_0000 + 0x40_0000
  {
    Pow2Values();
    ShrBounds(s, 22);
  }

  lemma IndexOrder(s: nat, t: nat)
    requires MIN_LARGE_SIZE <= s < SIZE_LIMIT && MIN_LARGE_SIZE <= t < SIZE_LIMIT
    requires TreeIndex(s) < TreeIndex(t)
    ensures s < t
  {
    var i, j := TreeIndex(s), TreeIndex(t);
    IndexPrefix(s);
    IndexPrefix(t);
    if s >= t {
      ShrMonotone(t, s, Width(i));
      ShrMonotone(t, s, 8);
      if j < NTREEBINS - 1 {
        ShrMonotone(t, s, Width(j));
        if i / 2 < j / 2 {
          ShrStep(s, Width(i), Width(j));
        }
      } else {
        if Width(i) < 22 {
          ShrStep(s, Width(i), 22);
        }
        BigShr(s);
      }
      assert false;
    }
  }

  lemma {:induction false} ShrStep(s: nat, k: nat, m: nat)
    requires k < m && Shr(s, k) < 4
    ensures Shr(s, m) < 2
  {
    if k + 1 < m {
      ShrStep(s, k, m - 1);
    }
  }

  /** `struct malloc_tree_chunk`; `size` is what `chunksize()` reads from its head word. Null is 0. */
  datatype TChunk = TChunk(size: nat, fd: int, bk: int, child0: int, child1: int, parent: int, index: nat)

  /** The tree bins, with two ghost labels per chunk: its depth in the trie, and a rank that
      falls along `fd` until the chunk of the ring that sits in the trie, which has rank 0. */
  datatype Bins = Bins(nodes: map<int, TChunk>, roots: seq<int>, dep: map<int, nat>, rank: map<int, nat>)

  /** The abstract value: which chunks are binned, and their sizes. */
  function SizesOf(t: Bins): map<int, nat> {
    map x | x in t.nodes :: t.nodes[x].size
  }

  /** The address of `treebins[i]`, which is what a root has as its parent. */
  function BinAddr(i: nat): int {
    -1 - i
  }

  function Child(n: TChunk, b: nat): int {
    if b == 0 then n.child0 else n.child1
  }

  /** a and b agree on every bit from k up. */
  predicate Agree(a: nat, b: nat, k: int) {
    k >= 0 && Shr(a, k) == Shr(b, k)
  }

  predicate InTree(t: Bins, x: int) {
    x in t.nodes && t.nodes[x].parent != 0
  }

  predicate Sized(t: Bins, x: int)
    requires x in t.nodes
  {
    var n := t.nodes[x];
    0 < x && MIN_LARGE_SIZE <= n.size < SIZE_LIMIT && n.index == TreeIndex(n.size) && n.index < NTREEBINS
  }

  /** Equal sizes form one ring: the links are mutual, and following `fd` reaches the trie chunk. */
  predicate Ringed(t: Bins, x: int)
    requires x in t.nodes && t.rank.Keys == t.nodes.Keys
  {
    var n := t.nodes[x];
    && n.fd in t.nodes && t.nodes[n.fd].bk == x && t.nodes[n.fd].size == n.size
    && n.bk in t.nodes && t.nodes[n.bk].fd == x
    && (t.rank[x] == 0 <==> n.parent != 0)
    && (t.rank[x] > 0 ==> t.rank[n.fd] < t.rank[x] && n.child0 == 0 && n.child1 == 0)
  }

  /** A chunk of the trie hangs where the bits of its size say. */
  predicate Placed(t: Bins, x: int)
    requires x in t.nodes && t.dep.Keys == t.nodes.Keys
  {
    var n := t.nodes[x];
    var w := Width(n.index);
    n.parent != 0 ==>
      && t.dep[x] <= w
      && if t.dep[x] == 0 then
           n.parent == BinAddr(n.index) && n.index < |t.roots| && t.roots[n.index] == x
         else
           && InTree(t, n.parent)
           && t.dep[n.parent] == t.dep[x] - 1
           && t.nodes[n.parent].index == n.index
           && Agree(n.size, t.nodes[n.parent].size, w - t.dep[n.parent])
           && Child(t.nodes[n.parent], Bit(n.size, w - t.dep[x])) == x
  }

  /** A child link leads to a chunk that points back, and whose next size bit picks that link. */
  predicate Forked(t: Bins, x: int, b: nat)
    requires x in t.nodes && t.dep.Keys == t.nodes.Keys
  {
    var c := Child(t.nodes[x], b);
    var k := Width(t.nodes[x].index) - 1 - t.dep[x];
    c != 0 ==> c in t.nodes && t.nodes[c].parent == x && k >= 0 && Bit(t.nodes[c].size, k) == b
  }

  predicate Rooted(t: Bins, i: nat)
    requires i < |t.roots| && t.dep.Keys == t.nodes.Keys
  {
    var r := t.roots[i];
    r != 0 ==> r in t.nodes && t.nodes[r].parent == BinAddr(i) && t.nodes[r].index == i && t.dep[r] == 0
  }

  ghost predicate Distinct(t: Bins) {
    forall x, y {:trigger InTree(t, x), InTree(t, y)} ::
      InTree(t, x) && InTree(t, y) && t.nodes[x].size == t.nodes[y].size ==> x == y
  }

  ghost predicate Shape(t: Bins) {
    t.dep.Keys == t.nodes.Keys && t.rank.Keys == t.nodes.Keys && |t.roots| == NTREEBINS
  }

  ghost predicate AllSized(t: Bins) {
    forall x {:trigger Sized(t, x)} :: x in t.nodes ==> Sized(t, x)
  }

  ghost predicate AllRinged(t: Bins)
    requires Shape(t)
  {
    forall x {:trigger Ringed(t, x)} :: x in t.nodes ==> Ringed(t, x)
  }

  ghost predicate AllPlaced(t: Bins)
    requires Shape(t)
  {
    forall x {:trigger Placed(t, x)} :: x in t.nodes ==> Placed(t, x)
  }

  ghost predicate AllForked(t: Bins)
    requires Shape(t)
  {
    forall x, b {:trigger Forked(t, x, b)} :: x in t.nodes && 0 <= b < 2 ==> Forked(t, x, b)
  }

  ghost predicate AllRooted(t: Bins)
    requires Shape(t)
  {
    forall i {:trigger Rooted(t, i)} :: 0 <= i < NTREEBINS ==> Rooted(t, i)
  }

  ghost predicate Wf(t: Bins) {
    Shape(t) && AllSized(t) && AllRinged(t) && AllPlaced(t) && AllForked(t) && AllRooted(t) && Distinct(t)
  }

  /** y lies in the subtree of x: same bin, no higher in it, same leading size bits. */
  predicate Below(t: Bins, x: int, y: int)
    requires t.dep.Keys == t.nodes.Keys
  {
    && InTree(t, x) && InTree(t, y)
    && t.nodes[y].index == t.nodes[x].index
    && t.dep[x] <= t.dep[y]
    && Agree(t.nodes[y].size, t.nodes[x].size, Width(t.nodes[x].index) - t.dep[x])
  }

  /** At each depth, the leading bits of the size determine the chunk. */
  lemma {:induction false} PositionUnique(t: Bins, x: int, y: int)
    requires Wf(t) && Below(t, x, y) && t.dep[x] == t.dep[y]
    ensures x == y
    decreases t.dep[x]
  {
    assert Placed(t, x) && Placed(t, y);
    if t.dep[x] > 0 {
      var p, q := t.nodes[x].parent, t.nodes[y].parent;
      var w := Width(t.nodes[x].index);
      ShrAgree(t.nodes[x].size, t.nodes[y].size, w - t.dep[x], w - t.dep[p]);
      PositionUnique(t, p, q);
    }
  }

  /** A chunk strictly below x lies below the child that its next bit picks. */
  lemma {:induction false} Descend(t: Bins, x: int, y: int)
    requires Wf(t) && Below(t, x, y) && x != y
    ensures t.dep[x] < t.dep[y] <= Width(t.nodes[x].index)
    ensures var c := Child(t.nodes[x], Bit(t.nodes[y].size, Width(t.nodes[x].index) - 1 - t.dep[x]));
            c != 0 && Below(t, c, y) && t.nodes[c].parent == x && t.dep[c] == t.dep[x] + 1
    decreases t.dep[y]
  {
    assert Placed(t, x) && Placed(t, y);
    var w := Width(t.nodes[x].index);
    if t.dep[x] == t.dep[y] {
      PositionUnique(t, x, y);
    } else {
      var p := t.nodes[y].parent;
      ShrAgree(t.nodes[y].size, t.nodes[p].size, w - t.dep[p], w - t.dep[x]);
      assert Below(t, x, p);
      if p == x {
        assert Sized(t, y);
      } else {
        Descend(t, x, p);
        var k := w - 1 - t.dep[x];
        ShrAgree(t.nodes[y].size, t.nodes[p].size, w - t.dep[p], k);
        var c := Child(t.nodes[x], Bit(t.nodes[p].size, k));
        assert Placed(t, c);
      }
    }
  }

  function SetChild(n: TChunk, b: nat, c: int): TChunk {
    if b == 0 then n.(child0 := c) else n.(child1 := c)
  }

  /** x may enter the bins with size s. */
  predicate Fresh(t: Bins, x: int, s: nat) {
    x > 0 && x !in t.nodes && MIN_LARGE_SIZE <= s < SIZE_LIMIT
  }

  ghost predicate NewSize(t: Bins, s: nat) {
    forall y {:trigger InTree(t, y)} :: InTree(t, y) ==> t.nodes[y].size != s
  }

  function WithRoot(t: Bins, x: int, s: nat): Bins
    requires TreeIndex(s) < |t.roots|
  {
    var i := TreeIndex(s);
    Bins(t.nodes[x := TChunk(s, x, x, 0, 0, BinAddr(i), i)], t.roots[i := x], t.dep[x := 0], t.rank[x := 0])
  }

  function WithLeaf(t: Bins, x: int, s: nat, p: int, b: nat): Bins
    requires p in t.nodes && p in t.dep
  {
    Bins(t.nodes[p := SetChild(t.nodes[p], b, x)][x := TChunk(s, x, x, 0, 0, p, TreeIndex(s))],
         t.roots, t.dep[x := t.dep[p] + 1], t.rank[x := 0])
  }

  function WithTwin(t: Bins, x: int, s: nat, p: int): Bins
    requires p in t.nodes && t.nodes[p].fd in t.nodes && t.nodes[p].fd in t.rank
  {
    var f := t.nodes[p].fd;
    var m := t.nodes[p := t.nodes[p].(fd := x)];
    Bins(m[f := m[f].(bk := x)][x := TChunk(s, f, p, 0, 0, 0, TreeIndex(s))],
         t.roots, t.dep[x := 0], t.rank[x := t.rank[f] + 1])
  }

  predicate RootFits(t: Bins, x: int, s: nat) {
    Fresh(t, x, s) && TreeIndex(s) < |t.roots| && t.roots[TreeIndex(s)] == 0
  }

  predicate LeafFits(t: Bins, x: int, s: nat, p: int, b: nat) {
    var i := TreeIndex(s);
    && Fresh(t, x, s) && InTree(t, p) && p > 0 && t.nodes[p].index == i < NTREEBINS
    && p in t.dep && t.dep[p] < Width(i) && Agree(s, t.nodes[p].size, Width(i) - t.dep[p])
    && b == Bit(s, Width(i) - 1 - t.dep[p]) && Child(t.nodes[p], b) == 0
  }

  predicate TwinFits(t: Bins, x: int, s: nat, p: int) {
    && Fresh(t, x, s) && InTree(t, p) && t.nodes[p].size == s && t.nodes[p].index == TreeIndex(s) < NTREEBINS
    && t.nodes[p].fd in t.nodes && t.nodes[p].fd in t.rank && t.nodes[p].bk in t.nodes
  }

  lemma RootKeepsSized(t: Bins, x: int, s: nat)
    requires Shape(t) && AllSized(t) && RootFits(t, x, s)
    ensures Shape(WithRoot(t, x, s)) && AllSized(WithRoot(t, x, s))
  {
    var t' := WithRoot(t, x, s);
    IndexPrefix(s);
    forall y | y in t'.nodes
      ensures Sized(t', y)
    {
      if y != x {
        assert Sized(t, y);
      }
    }
  }

  lemma RootKeepsRinged(t: Bins, x: int, s: nat)
    requires Shape(t) && AllRinged(t) && RootFits(t, x, s)
    ensures Shape(WithRoot(t, x, s)) && AllRinged(WithRoot(t, x, s))
  {
    var t' := WithRoot(t, x, s);
    forall y | y in t'.nodes
      ensures Ringed(t', y)
    {
      if y != x {
        assert Ringed(t, y);
      }
    }
  }

  lemma RootKeepsPlaced(t: Bins, x: int, s: nat)
    requires Shape(t) && AllSized(t) && AllPlaced(t) && RootFits(t, x, s)
    ensures Shape(WithRoot(t, x, s)) && AllPlaced(WithRoot(t, x, s))
  {
    var t' := WithRoot(t, x, s);
    forall y | y in t'.nodes
      ensures Placed(t', y)
    {
      if y != x {
        assert Sized(t, y) && Placed(t, y);
      }
    }
  }

  lemma RootKeepsForked(t: Bins, x: int, s: nat)
    requires Shape(t) && AllForked(t) && RootFits(t, x, s)
    ensures Shape(WithRoot(t, x, s)) && AllForked(WithRoot(t, x, s))
  {
    var t' := WithRoot(t, x, s);
    forall y, c | y in t'.nodes && 0 <= c < 2
      ensures Forked(t', y, c)
    {
      if y != x {
        assert Forked(t, y, c);
      }
    }
  }

  lemma RootKeepsRooted(t: Bins, x: int, s: nat)
    requires Shape(t) && AllRooted(t) && RootFits(t, x, s)
    ensures Shape(WithRoot(t, x, s)) && AllRooted(WithRoot(t, x, s))
  {
    var t' := WithRoot(t, x, s);
    forall i | 0 <= i < NTREEBINS
      ensures Rooted(t', i)
    {
      assert Rooted(t, i);
    }
  }

  lemma InsertRoot(t: Bins, x: int, s: nat)
    requires Wf(t) && RootFits(t, x, s) && NewSize(t, s)
    ensures Wf(WithRoot(t, x, s))
  {
    RootKeepsSized(t, x, s);
    RootKeepsRinged(t, x, s);
    RootKeepsPlaced(t, x, s);
    RootKeepsForked(t, x, s);
    RootKeepsRooted(t, x, s);
    DistinctGrows(t, WithRoot(t, x, s), x);
  }

  lemma LeafKeepsSized(t: Bins, x: int, s: nat, p: int, b: nat)
    requires Shape(t) && AllSized(t) && LeafFits(t, x, s, p, b)
    ensures Shape(WithLeaf(t, x, s, p, b)) && AllSized(WithLeaf(t, x, s, p, b))
  {
    var t' := WithLeaf(t, x, s, p, b);
    IndexPrefix(s);
    forall y | y in t'.nodes
      ensures Sized(t', y)
    {
      if y != x {
        assert Sized(t, y);
      }
    }
  }

  lemma LeafKeepsRinged(t: Bins, x: int, s: nat, p: int, b: nat)
    requires Shape(t) && AllRinged(t) && LeafFits(t, x, s, p, b)
    ensures Shape(WithLeaf(t, x, s, p, b)) && AllRinged(WithLeaf(t, x, s, p, b))
  {
    var t' := WithLeaf(t, x, s, p, b);
    forall y | y in t'.nodes
      ensures Ringed(t', y)
    {
      if y != x {
        assert Ringed(t, y);
      }
    }
  }

  lemma LeafKeepsPlaced(t: Bins, x: int, s: nat, p: int, b: nat)
    requires Shape(t) && AllSized(t) && AllPlaced(t) && LeafFits(t, x, s, p, b)
    ensures Shape(WithLeaf(t, x, s, p, b)) && AllPlaced(WithLeaf(t, x, s, p, b))
  {
    var t' := WithLeaf(t, x, s, p, b);
    forall y | y in t'.nodes
      ensures Placed(t', y)
    {
      if y != x {
        assert Sized(t, y) && Placed(t, y);
      }
    }
  }

  lemma LeafKeepsForked(t: Bins, x: int, s: nat, p: int, b: nat)
    requires Shape(t) && AllForked(t) && LeafFits(t, x, s, p, b)
    ensures Shape(WithLeaf(t, x, s, p, b)) && AllForked(WithLeaf(t, x, s, p, b))
  {
    var t' := WithLeaf(t, x, s, p, b);
    forall y, c | y in t'.nodes && 0 <= c < 2
      ensures Forked(t', y, c)
    {
      if y != x {
        assert Forked(t, y, c);
      }
    }
  }

  lemma LeafKeepsRooted(t: Bins, x: int, s: nat, p: int, b: nat)
    requires Shape(t) && AllRooted(t) && LeafFits(t, x, s, p, b)
    ensures Shape(WithLeaf(t, x, s, p, b)) && AllRooted(WithLeaf(t, x, s, p, b))
  {
    var t' := WithLeaf(t, x, s, p, b);
    forall i | 0 <= i < NTREEBINS
      ensures Rooted(t', i)
    {
      assert Rooted(t, i);
    }
  }

  lemma InsertLeaf(t: Bins, x: int, s: nat, p: int, b: nat)
    requires Wf(t) && LeafFits(t, x, s, p, b) && NewSize(t, s)
    ensures Wf(WithLeaf(t, x, s, p, b))
  {
    LeafKeepsSized(t, x, s, p, b);
    LeafKeepsRinged(t, x, s, p, b);
    LeafKeepsPlaced(t, x, s, p, b);
    LeafKeepsForked(t, x, s, p, b);
    LeafKeepsRooted(t, x, s, p, b);
    DistinctGrows(t, WithLeaf(t, x, s, p, b), x);
  }

  lemma TwinKeepsSized(t: Bins, x: int, s: nat, p: int)
    requires Shape(t) && AllSized(t) && TwinFits(t, x, s, p)
    ensures Shape(WithTwin(t, x, s, p)) && AllSized(WithTwin(t, x, s, p))
  {
    var t' := WithTwin(t, x, s, p);
    IndexPrefix(s);
    forall y | y in t'.nodes
      ensures Sized(t', y)
    {
      if y != x {
        assert Sized(t, y);
      }
    }
  }

  lemma TwinKeepsRinged(t: Bins, x: int, s: nat, p: int)
    requires Shape(t) && AllRinged(t) && TwinFits(t, x, s, p)
    ensures Shape(WithTwin(t, x, s, p)) && AllRinged(WithTwin(t, x, s, p))
  {
    var t' := WithTwin(t, x, s, p);
    assert Ringed(t, p);
    assert Ringed(t, t.nodes[p].fd);
    forall y | y in t'.nodes
      ensures Ringed(t', y)
    {
      if y != x {
        assert Ringed(t, y);
      }
    }
  }

  lemma TwinKeepsPlaced(t: Bins, x: int, s: nat, p: int)
    requires Shape(t) && AllSized(t) && AllPlaced(t) && TwinFits(t, x, s, p)
    ensures Shape(WithTwin(t, x, s, p)) && AllPlaced(WithTwin(t, x, s, p))
  {
    var t' := WithTwin(t, x, s, p);
    forall y | y in t'.nodes
      ensures Placed(t', y)
    {
      if y != x {
        assert Sized(t, y) && Placed(t, y);
      }
    }
  }

  lemma TwinKeepsForked(t: Bins, x: int, s: nat, p: int)
    requires Shape(t) && AllForked(t) && TwinFits(t, x, s, p)
    ensures Shape(WithTwin(t, x, s, p)) && AllForked(WithTwin(t, x, s, p))
  {
    var t' := WithTwin(t, x, s, p);
    forall y, c | y in t'.nodes && 0 <= c < 2
      ensures Forked(t', y, c)
    {
      if y != x {
        assert Forked(t, y, c);
      }
    }
  }

  lemma TwinKeepsRooted(t: Bins, x: int, s: nat, p: int)
    requires Shape(t) && AllRooted(t) && TwinFits(t, x, s, p)
    ensures Shape(WithTwin(t, x, s, p)) && AllRooted(WithTwin(t, x, s, p))
  {
    var t' := WithTwin(t, x, s, p);
    forall i | 0 <= i < NTREEBINS
      ensures Rooted(t', i)
    {
      assert Rooted(t, i);
    }
  }

  lemma InsertTwin(t: Bins, x: int, s: nat, p: int)
    requires Wf(t) && TwinFits(t, x, s, p)
    ensures Wf(WithTwin(t, x, s, p))
  {
    TwinKeepsSized(t, x, s, p);
    TwinKeepsRinged(t, x, s, p);
    TwinKeepsPlaced(t, x, s, p);
    TwinKeepsForked(t, x, s, p);
    TwinKeepsRooted(t, x, s, p);
    DistinctShrinks(t, WithTwin(t, x, s, p));
  }

  lemma DistinctGrows(t: Bins, t': Bins, x: int)
    requires Distinct(t) && InTree(t', x) && NewSize(t, t'.nodes[x].size)
    requires forall y {:trigger InTree(t', y)} ::
               InTree(t', y) && y != x ==> InTree(t, y) && t'.nodes[y].size == t.nodes[y].size
    ensures Distinct(t')
  {
  }

  lemma DistinctShrinks(t: Bins, t': Bins)
    requires Distinct(t)
    requires forall y {:trigger InTree(t', y)} ::
               InTree(t', y) ==> InTree(t, y) && t'.nodes[y].size == t.nodes[y].size
    ensures Distinct(t')
  {
  }

  /** Every chunk in the bins has a chunk of its size in the trie. */
  lemma {:induction false} RingReachesTrie(t: Bins, x: int) returns (r: int)
    requires Wf(t) && x in t.nodes
    ensures InTree(t, r) && t.nodes[r].size == t.nodes[x].size
    decreases t.rank[x]
  {
    assert Ringed(t, x);
    if t.rank[x] == 0 {
      r := x;
    } else {
      r := RingReachesTrie(t, t.nodes[x].fd);
    }
  }

  /** A child link after x has been replaced by r, which has first been cut from its old place. */
  function Relink(c: int, x: int, r: int): int {
    if c == x then r else if c == r then 0 else c
  }

  function Replaced(t: Bins, x: int, r: int, y: int): TChunk
    requires x in t.nodes && y in t.nodes
  {
    var n, nx := t.nodes[y], t.nodes[x];
    var place := if y == r then nx else n;
    TChunk(n.size,
           if n.fd == x then nx.fd else n.fd,
           if n.bk == x then nx.bk else n.bk,
           Relink(place.child0, x, r),
           Relink(place.child1, x, r),
           if place.parent == x then r else place.parent,
           n.index)
  }

  /** The bins without x, whose place in the trie (if any) r takes over; r is 0 if nothing does. */
  function Without(t: Bins, x: int, r: int): Bins
    requires x in t.nodes && x in t.dep
  {
    Bins(map y | y in t.nodes && y != x :: Replaced(t, x, r, y),
         seq(|t.roots|, i requires 0 <= i < |t.roots| => if t.roots[i] == x then r else t.roots[i]),
         map y | y in t.dep && y != x :: if y == r then t.dep[x] else t.dep[y],
         map y | y in t.rank && y != x :: if y == r then 0 else t.rank[y])
  }

  /** r may take over the place of x: its ring neighbour, or else a leaf below it. */
  predicate Heir(t: Bins, x: int, r: int)
    requires t.dep.Keys == t.nodes.Keys
  {
    x in t.nodes &&
    var n := t.nodes[x];
    if n.parent == 0 then r == 0
    else if n.bk != x then r == n.bk
    else if n.child0 == 0 && n.child1 == 0 then r == 0
    else Below(t, x, r) && t.dep[x] < t.dep[r] && t.nodes[r].child0 == 0 && t.nodes[r].child1 == 0
  }

  /** Nothing in the trie hangs from the heir, nor from an x without heir. */
  lemma HeirFacts(t: Bins, x: int, r: int)
    requires Wf(t) && Heir(t, x, r)
    ensures t.nodes[x].parent != x && x > 0 && 0 !in t.nodes
    ensures r != 0 ==>
              && r in t.nodes && r != x && t.nodes[x].parent != 0 && t.nodes[r].index == t.nodes[x].index
              && Agree(t.nodes[r].size, t.nodes[x].size, Width(t.nodes[x].index) - t.dep[x])
              && t.nodes[r].child0 == 0 && t.nodes[r].child1 == 0
              && if InTree(t, r) then t.dep[x] < t.dep[r] else t.nodes[r].size == t.nodes[x].size
    ensures forall y :: y in t.nodes ==>
              (t.nodes[y].parent == x ==> r != 0) && (r != 0 ==> t.nodes[y].parent != r)
  {
    assert Sized(t, x) && Ringed(t, x) && Placed(t, x);
    assert 0 !in t.nodes by {
      assert 0 in t.nodes ==> Sized(t, 0);
    }
    if r != 0 {
      assert Sized(t, r) && Ringed(t, r);
      assert InTree(t, x) && (InTree(t, r) ==> t.nodes[x].bk == x);
    }
    forall y | y in t.nodes
      ensures (t.nodes[y].parent == x ==> r != 0) && (r != 0 ==> t.nodes[y].parent != r)
    {
      assert Sized(t, y) && Placed(t, y);
    }
  }

  lemma UnlinkKeepsSized(t: Bins, x: int, r: int)
    requires Shape(t) && AllSized(t) && Heir(t, x, r)
    ensures Shape(Without(t, x, r)) && AllSized(Without(t, x, r))
  {
    var t' := Without(t, x, r);
    forall y | y in t'.nodes
      ensures Sized(t', y)
    {
      assert Sized(t, y);
    }
  }

  lemma UnlinkKeepsRinged(t: Bins, x: int, r: int)
    requires Wf(t) && Heir(t, x, r)
    ensures Shape(Without(t, x, r)) && AllRinged(Without(t, x, r))
  {
    var t' := Without(t, x, r);
    HeirFacts(t, x, r);
    assert Ringed(t, x);
    forall y | y in t'.nodes
      ensures Ringed(t', y)
    {
      assert Ringed(t, y) && Sized(t, y);
      assert Ringed(t, t.nodes[y].fd) && Ringed(t, t.nodes[y].bk);
    }
  }

  lemma UnlinkPlacesHeir(t: Bins, x: int, r: int)
    requires Wf(t) && Heir(t, x, r) && r != 0
    ensures Shape(Without(t, x, r)) && r in Without(t, x, r).nodes && Placed(Without(t, x, r), r)
  {
    HeirFacts(t, x, r);
    assert Placed(t, x) && Sized(t, x);
    var w, p := Width(t.nodes[x].index), t.nodes[x].parent;
    ShrAgree(t.nodes[r].size, t.nodes[x].size, w - t.dep[x], w - t.dep[x]);
    if t.dep[x] > 0 {
      ShrAgree(t.nodes[r].size, t.nodes[x].size, w - t.dep[x], w - t.dep[p]);
      assert p != x && p != r;
    }
  }

  lemma UnlinkPlacesChild(t: Bins, x: int, r: int, y: int)
    requires Wf(t) && Heir(t, x, r)
    requires y in t.nodes && y != x && y != r && t.nodes[y].parent == x
    ensures Shape(Without(t, x, r)) && Placed(Without(t, x, r), y)
  {
    HeirFacts(t, x, r);
    assert Placed(t, y) && Sized(t, y) && Placed(t, x);
  }

  lemma UnlinkPlacesOther(t: Bins, x: int, r: int, y: int)
    requires Wf(t) && Heir(t, x, r)
    requires y in t.nodes && y != x && y != r && t.nodes[y].parent != x
    ensures Shape(Without(t, x, r)) && Placed(Without(t, x, r), y)
  {
    HeirFacts(t, x, r);
    assert Placed(t, y) && Sized(t, y);
    var p := t.nodes[y].parent;
    if InTree(t, p) {
      assert t.nodes[p].parent == x ==> r != 0;
    }
  }

  lemma UnlinkKeepsPlaced(t: Bins, x: int, r: int)
    requires Wf(t) && Heir(t, x, r)
    ensures Shape(Without(t, x, r)) && AllPlaced(Without(t, x, r))
  {
    var t' := Without(t, x, r);
    forall y | y in t'.nodes
      ensures Placed(t', y)
    {
      if y == r {
        assert r == 0 ==> Sized(t, 0);
        UnlinkPlacesHeir(t, x, r);
      } else if t.nodes[y].parent == x {
        UnlinkPlacesChild(t, x, r, y);
      } else {
        UnlinkPlacesOther(t, x, r, y);
      }
    }
  }

  lemma UnlinkForksHeir(t: Bins, x: int, r: int, c: nat)
    requires Wf(t) && Heir(t, x, r) && r != 0 && c < 2
    ensures Shape(Without(t, x, r)) && r in Without(t, x, r).nodes && Forked(Without(t, x, r), r, c)
  {
    HeirFacts(t, x, r);
    assert Forked(t, x, c);
  }

  lemma UnlinkForksOther(t: Bins, x: int, r: int, y: int, c: nat)
    requires Wf(t) && Heir(t, x, r) && y in t.nodes && y != x && y != r && c < 2
    ensures Shape(Without(t, x, r)) && Forked(Without(t, x, r), y, c)
  {
    HeirFacts(t, x, r);
    assert Forked(t, y, c);
    if Child(t.nodes[y], c) == x {
      assert Placed(t, x) && Sized(t, y);
    }
  }

  lemma UnlinkKeepsForked(t: Bins, x: int, r: int)
    requires Wf(t) && Heir(t, x, r)
    ensures Shape(Without(t, x, r)) && AllForked(Without(t, x, r))
  {
    var t' := Without(t, x, r);
    forall y, c | y in t'.nodes && 0 <= c < 2
      ensures Forked(t', y, c)
    {
      if y == r {
        assert r == 0 ==> Sized(t, 0);
        UnlinkForksHeir(t, x, r, c);
      } else {
        UnlinkForksOther(t, x, r, y, c);
      }
    }
  }

  lemma UnlinkKeepsRooted(t: Bins, x: int, r: int)
    requires Wf(t) && Heir(t, x, r)
    ensures Shape(Without(t, x, r)) && AllRooted(Without(t, x, r))
  {
    var t' := Without(t, x, r);
    HeirFacts(t, x, r);
    assert Sized(t, x) && Placed(t, x);
    forall i | 0 <= i < NTREEBINS
      ensures Rooted(t', i)
    {
      assert Rooted(t, i);
      if t.roots[i] in t.nodes {
        assert Placed(t, t.roots[i]);
      }
    }
  }

  lemma UnlinkKeepsDistinct(t: Bins, x: int, r: int)
    requires Wf(t) && Heir(t, x, r)
    ensures Distinct(Without(t, x, r))
  {
    var t' := Without(t, x, r);
    HeirFacts(t, x, r);
    assert Ringed(t, x);
    forall y, z | InTree(t', y) && InTree(t', z) && t'.nodes[y].size == t'.nodes[z].size
      ensures y == z
    {
      assert y == r || InTree(t, y);
      assert z == r || InTree(t, z);
      assert t.nodes[y].size == t.nodes[z].size && x != y && x != z;
      if (y == r || z == r) && !InTree(t, r) {
        assert InTree(t, x) && t.nodes[r].size == t.nodes[x].size;
      }
    }
  }

  lemma Unlink(t: Bins, x: int, r: int)
    requires Wf(t) && Heir(t, x, r)
    ensures Wf(Without(t, x, r))
  {
    UnlinkKeepsSized(t, x, r);
    UnlinkKeepsRinged(t, x, r);
    UnlinkKeepsPlaced(t, x, r);
    UnlinkKeepsForked(t, x, r);
    UnlinkKeepsRooted(t, x, r);
    UnlinkKeepsDistinct(t, x, r);
  }
}
