/** `unlink_large_chunk` store by store: the pointer updates amount to `Trie.Without`. */
module TrieUnlink {
  import opened Bits
  import opened Trie

  type Mem = map<int, TChunk>

  /** `F = X->fd; R = X->bk; F->bk = R; R->fd = F` */
  function RingOut(m: Mem, x: int): Mem
    requires x in m && m[x].fd in m && m[x].bk in m
  {
    var f, r := m[x].fd, m[x].bk;
    var m1 := m[f := m[f].(bk := r)];
    m1[r := m1[r].(fd := f)]
  }

  /** `*RP = 0`, where RP is the slot of chunk `owner` that leads to the leaf */
  function CutSlot(m: Mem, owner: int, side: nat): Mem
    requires owner in m
  {
    m[owner := SetChild(m[owner], side, 0)]
  }

  /** The slot that led to x now leads to r; x is not a root. */
  function Reslot(m: Mem, x: int, xp: int, r: int): Mem
    requires xp in m
  {
    m[xp := if m[xp].child0 == x then m[xp].(child0 := r) else m[xp].(child1 := r)]
  }

  /** r takes over the child of x on one side, if there is one. */
  function Adopt(m: Mem, x: int, r: int, b: nat): Mem
    requires x in m && r in m && (Child(m[x], b) != 0 ==> Child(m[x], b) in m)
  {
    var c := Child(m[x], b);
    if c == 0 then m
    else
      var m1 := m[r := SetChild(m[r], b, c)];
      m1[c := m1[c].(parent := r)]
  }

  /** The links of y once x has left its ring and r its old slot. */
  function CutNode(t: Bins, x: int, r: int, y: int): TChunk
    requires x in t.nodes && y in t.nodes
  {
    var n, nx := t.nodes[y], t.nodes[x];
    TChunk(n.size,
           if n.fd == x then nx.fd else n.fd,
           if n.bk == x then nx.bk else n.bk,
           if n.child0 == r then 0 else n.child0,
           if n.child1 == r then 0 else n.child1,
           n.parent,
           n.index)
  }

  ghost predicate IsCut(t: Bins, x: int, r: int, m: Mem)
    requires x in t.nodes
  {
    m.Keys == t.nodes.Keys &&
    forall y {:trigger m[y]} :: y in m && y != x ==> m[y] == CutNode(t, x, r, y)
  }

  /** x keeps its own links, except that a child link to r is cut. */
  ghost predicate KeepsLinks(t: Bins, x: int, r: int, m: Mem)
    requires x in t.nodes
  {
    x in m && m[x].parent == t.nodes[x].parent && m[x].index == t.nodes[x].index &&
    m[x].child0 == (if t.nodes[x].child0 == r then 0 else t.nodes[x].child0) &&
    m[x].child1 == (if t.nodes[x].child1 == r then 0 else t.nodes[x].child1)
  }

  lemma RingOutCuts(t: Bins, x: int)
    requires Wf(t) && x in t.nodes && t.nodes[x].bk != x
    ensures t.nodes[x].fd in t.nodes && t.nodes[x].bk in t.nodes
    ensures var r := if t.nodes[x].parent == 0 then 0 else t.nodes[x].bk;
            IsCut(t, x, r, RingOut(t.nodes, x)) && KeepsLinks(t, x, r, RingOut(t.nodes, x))
  {
    assert Ringed(t, x) && Sized(t, x);
    var f, b := t.nodes[x].fd, t.nodes[x].bk;
    assert Ringed(t, b) && Sized(t, b);
    var r := if t.nodes[x].parent == 0 then 0 else b;
    if r != 0 {
      assert InTree(t, x) && !InTree(t, r);
    }
    var m := RingOut(t.nodes, x);
    forall y | y in t.nodes
      ensures t.nodes[y].child0 == r ==> r == 0
      ensures t.nodes[y].child1 == r ==> r == 0
      ensures t.nodes[y].fd == x <==> y == b
      ensures t.nodes[y].bk == x <==> y == f
    {
      assert Ringed(t, y) && Forked(t, y, 0) && Forked(t, y, 1) && Sized(t, y);
    }
  }

  lemma CutSlotCuts(t: Bins, x: int, r: int, side: nat)
    requires Wf(t) && x in t.nodes && t.nodes[x].bk == x
    requires InTree(t, r) && t.dep[r] > 0 && t.nodes[r].parent in t.nodes && r != x
    requires side < 2 && Child(t.nodes[t.nodes[r].parent], side) == r
    ensures var m := CutSlot(t.nodes, t.nodes[r].parent, side); IsCut(t, x, r, m) && KeepsLinks(t, x, r, m)
  {
    assert Ringed(t, x) && Sized(t, r);
    var q := t.nodes[r].parent;
    assert Forked(t, q, 0) && Forked(t, q, 1);
    forall y | y in t.nodes
      ensures t.nodes[y].child0 == r || t.nodes[y].child1 == r ==> y == q
      ensures t.nodes[y].fd == x || t.nodes[y].bk == x ==> y == x
    {
      assert Ringed(t, y) && Forked(t, y, 0) && Forked(t, y, 1);
    }
  }

  /** x's kin in the trie are where the links say, and all different. */
  lemma Kin(t: Bins, x: int, r: int)
    requires Wf(t) && Heir(t, x, r) && t.nodes[x].parent != 0
    ensures t.nodes[x].index < NTREEBINS
    ensures var xp := t.nodes[x].parent;
            && xp != x && (r != 0 ==> xp != r)
            && (t.roots[t.nodes[x].index] == x <==> xp !in t.nodes)
            && (xp in t.nodes ==> (t.nodes[xp].child0 == x) != (t.nodes[xp].child1 == x))
    ensures forall b :: 0 <= b < 2 ==>
              var c := Child(t.nodes[x], b);
              c != 0 ==> c in t.nodes && c != x && c != t.nodes[x].parent && t.nodes[c].parent == x
    ensures t.nodes[x].child0 != 0 ==> t.nodes[x].child0 != t.nodes[x].child1
  {
    assert Sized(t, x) && Placed(t, x) && Rooted(t, t.nodes[x].index);
    HeirFacts(t, x, r);
    assert Forked(t, x, 0) && Forked(t, x, 1);
    var xp := t.nodes[x].parent;
    if xp in t.nodes {
      assert Sized(t, xp) && Forked(t, xp, 0) && Forked(t, xp, 1);
    }
    forall b | 0 <= b < 2
      ensures var c := Child(t.nodes[x], b);
              c != 0 ==> c in t.nodes && c != x && c != t.nodes[x].parent && t.nodes[c].parent == x
    {
      assert Forked(t, x, b);
      var c := Child(t.nodes[x], b);
      if c != 0 {
        assert Placed(t, c) && Sized(t, c);
      }
    }
  }

  /** Who links to x in the trie. */
  lemma Pointers(t: Bins, x: int, r: int, y: int)
    requires Wf(t) && Heir(t, x, r) && t.nodes[x].parent != 0 && y in t.nodes
    ensures t.nodes[y].child0 == x || t.nodes[y].child1 == x ==> y == t.nodes[x].parent
    ensures t.nodes[y].parent == x ==> y == t.nodes[x].child0 || y == t.nodes[x].child1
  {
    assert Sized(t, x) && Sized(t, y) && Placed(t, y) && Forked(t, y, 0) && Forked(t, y, 1);
  }

  /** What the replacement below needs of the memory it runs on. */
  ghost predicate Ready(m: Mem, x: int, root: bool, r: int) {
    && x in m && r != x && (r != 0 ==> r in m && m[r].child0 == 0 && m[r].child1 == 0)
    && (!root ==> m[x].parent in m && m[x].parent != x && (r != 0 ==> m[x].parent != r))
    && m[x].child0 != x && m[x].child1 != x
    && (m[x].child0 != 0 ==> m[x].child0 in m && m[x].child0 != r && m[x].child0 != m[x].parent)
    && (m[x].child1 != 0 ==> m[x].child1 in m && m[x].child1 != r && m[x].child1 != m[x].parent)
    && (m[x].child0 != 0 ==> m[x].child0 != m[x].child1)
  }

  /** The replacement part of the macro: xp's slot, then r's parent and children. */
  function TakePlace(m: Mem, x: int, root: bool, r: int): Mem
    requires Ready(m, x, root, r)
  {
    var xp := m[x].parent;
    var m1 := if root then m else Reslot(m, x, xp, r);
    if r == 0 then m1
    else
      var m2 := m1[r := m1[r].(parent := xp)];
      var m3 := Adopt(m2, x, r, 0);
      Adopt(m3, x, r, 1)
  }

  lemma TakePlaceAt(m: Mem, x: int, root: bool, r: int, y: int)
    requires Ready(m, x, root, r) && y in m && y != x
    ensures TakePlace(m, x, root, r).Keys == m.Keys
    ensures var xp, c0, c1 := m[x].parent, m[x].child0, m[x].child1;
            TakePlace(m, x, root, r)[y] ==
              if r != 0 && y == r then m[y].(parent := xp, child0 := c0, child1 := c1)
              else if r != 0 && y != 0 && (y == c0 || y == c1) then m[y].(parent := r)
              else if !root && y == xp then
                if m[y].child0 == x then m[y].(child0 := r) else m[y].(child1 := r)
              else m[y]
  {
  }

  lemma TakePlaceKeys(m: Mem, x: int, root: bool, r: int)
    requires Ready(m, x, root, r)
    ensures TakePlace(m, x, root, r).Keys == m.Keys
  {
  }

  lemma ReadyToTake(t: Bins, x: int, r: int, m: Mem)
    requires Wf(t) && Heir(t, x, r) && t.nodes[x].parent != 0
    requires IsCut(t, x, r, m) && KeepsLinks(t, x, r, m)
    ensures t.nodes[x].index < NTREEBINS && Ready(m, x, t.roots[t.nodes[x].index] == x, r)
  {
    HeirFacts(t, x, r);
    Kin(t, x, r);
    assert Child(t.nodes[x], 0) == t.nodes[x].child0 && Child(t.nodes[x], 1) == t.nodes[x].child1;
    if r != 0 {
      assert m[r] == CutNode(t, x, r, r);
    }
  }

  lemma TakePlaceIsWithout(t: Bins, x: int, r: int, m: Mem)
    requires Wf(t) && Heir(t, x, r) && t.nodes[x].parent != 0
    requires IsCut(t, x, r, m) && KeepsLinks(t, x, r, m)
    ensures t.nodes[x].index < NTREEBINS && Ready(m, x, t.roots[t.nodes[x].index] == x, r)
    ensures TakePlace(m, x, t.roots[t.nodes[x].index] == x, r) - {x} == Without(t, x, r).nodes
  {
    hide TakePlace, Replaced, KeepsLinks;
    ReadyToTake(t, x, r, m);
    TakePlaceKeys(m, x, t.roots[t.nodes[x].index] == x, r);
    var m' := TakePlace(m, x, t.roots[t.nodes[x].index] == x, r);
    forall y | y in t.nodes && y != x
      ensures m'.Keys == t.nodes.Keys && m'[y] == Replaced(t, x, r, y)
    {
      ReplacedAt(t, x, r, m, y);
    }
  }

  lemma ReplacedAt(t: Bins, x: int, r: int, m: Mem, y: int)
    requires Wf(t) && Heir(t, x, r) && t.nodes[x].parent != 0
    requires IsCut(t, x, r, m) && KeepsLinks(t, x, r, m)
    requires t.nodes[x].index < NTREEBINS && Ready(m, x, t.roots[t.nodes[x].index] == x, r)
    requires y in t.nodes && y != x
    ensures var m' := TakePlace(m, x, t.roots[t.nodes[x].index] == x, r);
            m'.Keys == t.nodes.Keys && m'[y] == Replaced(t, x, r, y)
  {
    HeirFacts(t, x, r);
    Kin(t, x, r);
    Pointers(t, x, r, y);
    TakePlaceAt(m, x, t.roots[t.nodes[x].index] == x, r, y);
    assert m[y] == CutNode(t, x, r, y);
    assert Child(t.nodes[x], 0) == t.nodes[x].child0 && Child(t.nodes[x], 1) == t.nodes[x].child1;
  }

  lemma WithoutRoots(t: Bins, x: int, r: int)
    requires Wf(t) && Heir(t, x, r)
    ensures t.nodes[x].index < NTREEBINS
    ensures Without(t, x, r).roots ==
            if t.roots[t.nodes[x].index] == x then t.roots[t.nodes[x].index := r] else t.roots
    ensures t.nodes[x].parent == 0 ==> t.roots[t.nodes[x].index] != x
  {
    assert Sized(t, x);
    forall i | 0 <= i < NTREEBINS && t.roots[i] == x
      ensures i == t.nodes[x].index && t.nodes[x].parent != 0
    {
      assert Rooted(t, i);
    }
  }

  lemma WithoutSizes(t: Bins, x: int, r: int)
    requires Wf(t) && Heir(t, x, r)
    ensures SizesOf(Without(t, x, r)) == SizesOf(t) - {x}
  {
  }

  /** Leaving the ring is all there is to do for an x outside the trie. */
  lemma RingOutIsWithout(t: Bins, x: int, m: Mem)
    requires Wf(t) && Heir(t, x, 0) && t.nodes[x].parent == 0 && IsCut(t, x, 0, m)
    ensures m - {x} == Without(t, x, 0).nodes
  {
    HeirFacts(t, x, 0);
    var m' := m - {x};
    forall y | y in m'
      ensures m'[y] == Replaced(t, x, 0, y)
    {
      assert m[y] == CutNode(t, x, 0, y);
      assert Sized(t, y) && Forked(t, y, 0) && Forked(t, y, 1) && Placed(t, y);
    }
  }

  lemma BelowStep(t: Bins, x: int, r: int, b: nat)
    requires Wf(t) && Below(t, x, r) && b < 2 && Child(t.nodes[r], b) != 0
    ensures var c := Child(t.nodes[r], b);
            Below(t, x, c) && t.dep[c] == t.dep[r] + 1 <= Width(t.nodes[x].index) && t.nodes[c].parent == r
  {
    assert Forked(t, r, b);
    var c := Child(t.nodes[r], b);
    assert Sized(t, r) && Placed(t, c) && Sized(t, c);
    var w := Width(t.nodes[x].index);
    ShrAgree(t.nodes[c].size, t.nodes[r].size, w - t.dep[r], w - t.dep[x]);
  }
}
