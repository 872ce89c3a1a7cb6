/** The tree bins as the allocator keeps them: chunk records linked by address, one root per
    bin and the bitmap of non-empty bins, updated in place. */
module TreeBins {
  import opened AllocSizes
  import opened Bits
  import opened BinMap
  import opened Trie
  import opened TrieUnlink
  import opened TrieSearch

  /** Both shifts of the descent key: the top bit of the word is the next undecided size bit. */
  lemma KeyBit(s: nat, i: nat, d: nat)
    requires i < NTREEBINS && d < Width(i)
    ensures Bit(Shl(s, LeftShift(i) + d, 64), 63) == Bit(s, Width(i) - 1 - d)
  {
    ShlBit(s, LeftShift(i) + d, 64, 63);
  }

  lemma KeyShift(s: nat, n: nat)
    ensures Shl(Shl(s, n, 64), 1, 64) == Shl(s, n + 1, 64)
  {
    var a, b := Shl(Shl(s, n, 64), 1, 64), Shl(s, n + 1, 64);
    forall k: nat
      ensures Bit(a, k) == Bit(b, k)
    {
      ShlBit(Shl(s, n, 64), 1, 64, k);
      ShlBit(s, n + 1, 64, k);
      if k >= 1 {
        ShlBit(s, n, 64, k - 1);
      }
    }
    BitsEqual(a, b);
  }

  /** x sits in bin i on the path of size s. */
  ghost predicate OnPath(t: Bins, i: nat, s: nat, x: int)
    requires t.dep.Keys == t.nodes.Keys
  {
    InTree(t, x) && t.nodes[x].index == i && Agree(s, t.nodes[x].size, Width(i) - t.dep[x])
  }

  lemma RootOnPath(t: Bins, s: nat)
    requires Wf(t) && MIN_LARGE_SIZE <= s < SIZE_LIMIT
    ensures var i := TreeIndex(s);
            i < NTREEBINS && (t.roots[i] != 0 ==> OnPath(t, i, s, t.roots[i]) && t.dep[t.roots[i]] == 0)
  {
    var i := TreeIndex(s);
    IndexPrefix(s);
    assert Rooted(t, i);
    if t.roots[i] != 0 {
      assert Sized(t, t.roots[i]);
      IndexPrefix(t.nodes[t.roots[i]].size);
    }
  }

  /** Every trie chunk lies below the root of its bin. */
  lemma {:induction false} BelowRoot(t: Bins, y: int)
    requires Wf(t) && InTree(t, y)
    ensures t.nodes[y].index < NTREEBINS
    ensures var r := t.roots[t.nodes[y].index]; r != 0 && Below(t, r, y) && t.dep[r] == 0
    decreases t.dep[y]
  {
    assert Placed(t, y) && Sized(t, y);
    var n := t.nodes[y];
    if t.dep[y] > 0 {
      BelowRoot(t, n.parent);
      var w := Width(n.index);
      ShrAgree(n.size, t.nodes[n.parent].size, w - t.dep[n.parent], w);
    }
  }

  /** One step down the path of s. */
  lemma PathStep(t: Bins, i: nat, s: nat, x: int)
    requires Wf(t) && i < NTREEBINS && OnPath(t, i, s, x) && t.nodes[x].size != s
    ensures t.dep[x] < Width(i)
    ensures var c := Child(t.nodes[x], Bit(s, Width(i) - 1 - t.dep[x]));
            c != 0 ==> OnPath(t, i, s, c) && t.dep[c] == t.dep[x] + 1
  {
    assert Placed(t, x);
    assert Shr(s, 0) == s && Shr(t.nodes[x].size, 0) == t.nodes[x].size;
    var k := Width(i) - 1 - t.dep[x];
    var c := Child(t.nodes[x], Bit(s, k));
    if c != 0 {
      assert Forked(t, x, Bit(s, k));
      assert Placed(t, c) && Sized(t, c) && Sized(t, x);
      hide Wf;
      ShrStep(s, k);
      ShrStep(t.nodes[c].size, k);
    }
  }

  lemma ShrStep(s: nat, k: nat)
    ensures Shr(s, k) == 2 * Shr(s, k + 1) + Bit(s, k)
  {
  }

  /** A chunk whose size takes the same next bit stays below the child. */
  lemma PathStepKeeps(t: Bins, i: nat, s: nat, x: int, y: int)
    requires Wf(t) && i < NTREEBINS && OnPath(t, i, s, x) && t.nodes[x].size != s
    requires Below(t, x, y) && t.nodes[y].size == s
    ensures t.dep[x] < Width(i)
    ensures var c := Child(t.nodes[x], Bit(s, Width(i) - 1 - t.dep[x])); c != 0 && Below(t, c, y)
  {
    PathStep(t, i, s, x);
    Descend(t, x, y);
  }

  /** A bin is marked in the bitmap iff it is not empty. */
  ghost predicate MapMatches(map_: nat, roots: seq<int>) {
    map_ < Pow2(WORD) && |roots| == NTREEBINS &&
    forall i :: 0 <= i < NTREEBINS ==> (Marked(map_, i) <==> roots[i] != 0)
  }

  lemma MarkMatches(m: nat, roots: seq<int>, i: nat, x: int)
    requires MapMatches(m, roots) && i < NTREEBINS && x != 0
    ensures MapMatches(Mark(m, i), roots[i := x])
  {
    MapsStayWords(m, i);
    forall j | 0 <= j < NTREEBINS
      ensures Marked(Mark(m, i), j) <==> roots[i := x][j] != 0
    {
      MarkChangesOne(m, i, j);
    }
  }

  lemma ClearMatches(m: nat, roots: seq<int>, i: nat)
    requires MapMatches(m, roots) && i < NTREEBINS
    ensures MapMatches(Clear(m, i), roots[i := 0])
  {
    MapsStayWords(m, i);
    forall j | 0 <= j < NTREEBINS
      ensures Marked(Clear(m, i), j) <==> roots[i := 0][j] != 0
    {
      MarkChangesOne(m, i, j);
    }
  }

  lemma RootSizes(t: Bins, x: int, s: nat)
    requires TreeIndex(s) < |t.roots|
    ensures SizesOf(WithRoot(t, x, s)) == SizesOf(t)[x := s]
  {
  }

  class TreeBins {
    var nodes: map<int, TChunk>
    var treebins: seq<int>
    var treemap: nat
    ghost var dep: map<int, nat>
    ghost var rank: map<int, nat>

    ghost function View(): Bins
      reads this
    {
      Bins(nodes, treebins, dep, rank)
    }

    /** The trie is well formed, and a bin is marked in the bitmap iff it is not empty. */
    ghost predicate Valid()
      reads this
    {
      Wf(View()) && MapMatches(treemap, treebins)
    }

    /** The abstract value: which chunks are binned, and their sizes. */
    ghost function Sizes(): map<int, nat>
      reads this
    {
      SizesOf(View())
    }

    constructor ()
      ensures Valid() && Sizes() == map[]
    {
      nodes, treebins, treemap := map[], seq(NTREEBINS, _ => 0), 0;
      dep, rank := map[], map[];
      new;
      forall i | 0 <= i < NTREEBINS
        ensures !Marked(treemap, i)
      {
        MarkedBit(0, i);
        BitZero(i);
      }
    }

    /** `insert_large_chunk` */
    method InsertLargeChunk(x: int, s: nat)
      requires Valid() && x > 0 && x !in nodes && MIN_LARGE_SIZE <= s < SIZE_LIMIT
      modifies this
      ensures Valid() && Sizes() == old(Sizes())[x := s]
    {
      var i := TreeIndex(s);
      IndexPrefix(s);
      if !Marked(treemap, i) {
        PlantRoot(x, s);
      } else {
        var p, side := FindSpot(s);
        if nodes[p].size != s {
          assert Sized(View(), p);
          HangLeaf(x, s, p, side);
        } else {
          assert Sized(View(), p) && Ringed(View(), p);
          JoinRing(x, s, p);
        }
      }
    }

    /** The descent of `insert_large_chunk`: to the chunk of size s, or to the last chunk on its path. */
    method FindSpot(s: nat) returns (p: int, side: nat)
      requires Valid() && MIN_LARGE_SIZE <= s < SIZE_LIMIT
      requires TreeIndex(s) < NTREEBINS && treebins[TreeIndex(s)] != 0
      ensures OnPath(View(), TreeIndex(s), s, p)
      ensures nodes[p].size != s ==> NewSize(View(), s) && dep[p] < Width(TreeIndex(s)) &&
                                     side == Bit(s, Width(TreeIndex(s)) - 1 - dep[p]) && Child(nodes[p], side) == 0
    {
      ghost var t := View();
      var i := TreeIndex(s);
      WalkStart(t, s);
      p := treebins[i];
      var k := Shl(s, LeftShift(i), 64);
      while nodes[p].size != s && Child(nodes[p], Bit(k, 63)) != 0
        invariant Walk(t, i, s, p, k)
        decreases Width(i) - dep[p]
      {
        WalkStep(t, i, s, p, k);
        p, k := Child(nodes[p], Bit(k, 63)), Shl(k, 1, 64);
      }
      side := Bit(k, 63);
      if nodes[p].size != s {
        WalkStep(t, i, s, p, k);
      }
    }

    method PlantRoot(x: int, s: nat)
      requires Valid() && Fresh(View(), x, s) && TreeIndex(s) < NTREEBINS && !Marked(treemap, TreeIndex(s))
      modifies this
      ensures Valid() && Sizes() == old(Sizes())[x := s]
    {
      hide Wf, Mark, TreeIndex, BinAddr, SizesOf;
      ghost var t := View();
      var i := TreeIndex(s);
      NoneInEmptyBin(t, s);
      InsertRoot(t, x, s);
      RootSizes(t, x, s);
      MarkMatches(treemap, treebins, i, x);
      treemap := Mark(treemap, i);
      treebins := treebins[i := x];
      nodes := nodes[x := TChunk(s, x, x, 0, 0, BinAddr(i), i)];
      dep, rank := dep[x := 0], rank[x := 0];
      assert View() == WithRoot(t, x, s);
    }

    method HangLeaf(x: int, s: nat, p: int, side: nat)
      requires Valid() && LeafFits(View(), x, s, p, side) && NewSize(View(), s)
      modifies this
      ensures Valid() && Sizes() == old(Sizes())[x := s]
    {
      InsertLeaf(View(), x, s, p, side);
      nodes := nodes[p := SetChild(nodes[p], side, x)];
      nodes := nodes[x := TChunk(s, x, x, 0, 0, p, TreeIndex(s))];
      dep, rank := dep[x := dep[p] + 1], rank[x := 0];
    }

    method JoinRing(x: int, s: nat, p: int)
      requires Valid() && TwinFits(View(), x, s, p)
      modifies this
      ensures Valid() && Sizes() == old(Sizes())[x := s]
    {
      ghost var t := View();
      InsertTwin(t, x, s, p);
      TwinSizes(t, x, s, p);
      var f := nodes[p].fd;
      nodes := nodes[p := nodes[p].(fd := x)];
      nodes := nodes[f := nodes[f].(bk := x)];
      nodes := nodes[x := TChunk(s, f, p, 0, 0, 0, TreeIndex(s))];
      dep, rank := dep[x := 0], rank[x := rank[f] + 1];
      assert View() == WithTwin(t, x, s, p);
    }

    /** `unlink_large_chunk` */
    method UnlinkLargeChunk(x: int)
      requires Valid() && x in nodes
      modifies this
      ensures Valid() && Sizes() == old(Sizes()) - {x}
    {
      ghost var t := View();
      assert Ringed(t, x) && Sized(t, x);
      var xp := nodes[x].parent;
      var r;
      if nodes[x].bk != x {
        r := LeaveRing(x);
      } else {
        r := DetachLeaf(x);
      }
      if xp != 0 {
        TakePlaceOf(t, x, r);
      } else {
        RingOutIsWithout(t, x, nodes);
        WithoutRoots(t, x, 0);
      }
      Forget(t, x, if xp == 0 then 0 else r);
    }

    method LeaveRing(x: int) returns (r: int)
      requires Valid() && x in nodes && nodes[x].bk != x
      modifies this`nodes
      ensures var t, heir := old(View()), if old(nodes)[x].parent == 0 then 0 else r;
              Heir(t, x, heir) && IsCut(t, x, heir, nodes) && KeepsLinks(t, x, heir, nodes)
    {
      RingOutCuts(View(), x);
      var f := nodes[x].fd;
      r := nodes[x].bk;
      nodes := nodes[f := nodes[f].(bk := r)];
      nodes := nodes[r := nodes[r].(fd := f)];
    }

    /** The leaf that replaces a chunk with no ring: cut out of its slot, 0 if x is a leaf itself. */
    method DetachLeaf(x: int) returns (r: int)
      requires Valid() && x in nodes && nodes[x].bk == x
      modifies this`nodes
      ensures nodes.Keys == old(nodes).Keys
      ensures old(nodes)[x].parent != 0 && Heir(old(View()), x, r)
      ensures IsCut(old(View()), x, r, nodes) && KeepsLinks(old(View()), x, r, nodes)
    {
      ghost var t := View();
      assert Ringed(t, x) && Sized(t, x);
      var owner, side := x, 1;
      r := nodes[x].child1;
      if r == 0 {
        side, r := 0, nodes[x].child0;
      }
      if r != 0 {
        assert Placed(t, x);
        BelowStep(t, x, x, side);
        while nodes[r].child1 != 0 || nodes[r].child0 != 0
          invariant nodes == old(nodes) && Below(t, x, r) && t.dep[x] < t.dep[r] <= Width(t.nodes[x].index)
          invariant side < 2 && owner == nodes[r].parent && owner in nodes && Child(nodes[owner], side) == r
          decreases Width(t.nodes[x].index) - t.dep[r]
        {
          BelowStep(t, x, r, if nodes[r].child1 != 0 then 1 else 0);
          owner, side := r, if nodes[r].child1 != 0 then 1 else 0;
          r := Child(nodes[r], side);
        }
        CutSlotCuts(t, x, r, side);
        nodes := nodes[owner := SetChild(nodes[owner], side, 0)];
      } else {
        NothingToCut(t, x);
      }
    }

    /** The heir r takes x's place in the trie. */
    method TakePlaceOf(ghost t: Bins, x: int, r: int)
      requires Wf(t) && Heir(t, x, r) && t.nodes[x].parent != 0
      requires IsCut(t, x, r, nodes) && KeepsLinks(t, x, r, nodes)
      requires treebins == t.roots && MapMatches(treemap, treebins)
      modifies this`nodes, this`treebins, this`treemap
      ensures nodes.Keys == t.nodes.Keys && nodes - {x} == Without(t, x, r).nodes
      ensures treebins == Without(t, x, r).roots && MapMatches(treemap, treebins)
    {
      TakePlaceIsWithout(t, x, r, nodes);
      WithoutRoots(t, x, r);
      assert Sized(t, x);
      Substitute(x, r);
    }

    method Substitute(x: int, r: int)
      requires x in nodes && x != 0 && nodes[x].index < NTREEBINS && MapMatches(treemap, treebins)
      requires Ready(nodes, x, treebins[nodes[x].index] == x, r)
      modifies this`nodes, this`treebins, this`treemap
      ensures var i := old(nodes)[x].index;
              && nodes == TakePlace(old(nodes), x, old(treebins)[i] == x, r)
              && treebins == if old(treebins)[i] == x then old(treebins)[i := r] else old(treebins)
      ensures MapMatches(treemap, treebins)
    {
      var xp, i := nodes[x].parent, nodes[x].index;
      if treebins[i] == x {
        ReplaceRoot(x, i, r);
      } else {
        nodes := nodes[xp := if nodes[xp].child0 == x then nodes[xp].(child0 := r) else nodes[xp].(child1 := r)];
      }
      if r != 0 {
        nodes := nodes[r := nodes[r].(parent := xp)];
        AdoptChild(x, r, 0);
        AdoptChild(x, r, 1);
      }
    }

    method ReplaceRoot(x: int, i: nat, r: int)
      requires MapMatches(treemap, treebins) && i < NTREEBINS && treebins[i] == x && x != 0
      modifies this`treebins, this`treemap
      ensures treebins == old(treebins)[i := r] && MapMatches(treemap, treebins)
    {
      treebins := treebins[i := r];
      if r == 0 {
        ClearMatches(treemap, old(treebins), i);
        treemap := Clear(treemap, i);
      }
    }

    method AdoptChild(x: int, r: int, b: nat)
      requires x in nodes && r in nodes && (Child(nodes[x], b) != 0 ==> Child(nodes[x], b) in nodes)
      modifies this`nodes
      ensures nodes == Adopt(old(nodes), x, r, b)
    {
      var c := Child(nodes[x], b);
      if c != 0 {
        nodes := nodes[r := SetChild(nodes[r], b, c)];
        nodes := nodes[c := nodes[c].(parent := r)];
      }
    }

    /** x is no tree chunk any more. */
    method Forget(ghost t: Bins, x: int, ghost heir: int)
      requires Wf(t) && Heir(t, x, heir)
      requires nodes - {x} == Without(t, x, heir).nodes && treebins == Without(t, x, heir).roots
      requires MapMatches(treemap, treebins)
      modifies this
      ensures Valid() && Sizes() == SizesOf(t) - {x}
    {
      Unlink(t, x, heir);
      WithoutSizes(t, x, heir);
      nodes := nodes - {x};
      dep, rank := Without(t, x, heir).dep, Without(t, x, heir).rank;
      assert View() == Without(t, x, heir);
    }

    /** The search of `tmalloc_large`: a smallest chunk of size nb or more and its remainder. */
    method FindBestFit(nb: nat) returns (v: int, rsize: nat)
      requires Valid() && MIN_LARGE_SIZE <= nb < WORD64
      ensures BestFit(View(), nb, v) && Best(View(), nb, v, rsize)
    {
      ghost var b := View();
      var idx := TreeIndex(nb);
      IndexBound(nb);
      v, rsize := 0, WORD64 - nb;
      var t := treebins[idx];
      var bin := idx;
      BinsAreOrderedIf(b, nb);
      if t != 0 {
        v, rsize, t := SearchBin(nb, idx);
      } else {
        EmptyBin(b, idx, nb);
      }
      if t == 0 && v == 0 {  // no fit in this bin: go to the root of the next non-empty one
        var leftbits := And(LeftBits(IdxBit(idx)), treemap);
        NextBin(treemap, idx);
        if leftbits != 0 {
          bin := Ffs(leftbits);
          t := treebins[bin];
          EnterBin(b, treemap, nb, idx, bin);
        } else {
          NothingLeft(b, treemap, nb, idx);
        }
      }
      v, rsize := SearchLeftmost(nb, v, rsize, t, bin);
      FindDone(b, nb, bin, v);
    }

    /** Follow the bits of nb in its bin; t is then the least subtree left to look at. */
    method SearchBin(nb: nat, idx: nat) returns (v: int, rsize: nat, t: int)
      requires Valid() && MIN_LARGE_SIZE <= nb < WORD64 && idx == TreeIndex(nb) < NTREEBINS && treebins[idx] != 0
      ensures Best(View(), nb, v, rsize) && (t != 0 ==> InTree(View(), t))
      ensures nb < SIZE_LIMIT ==> Searched(View(), idx, nb, v, t)
    {
      ghost var b := View();
      v, rsize, t := 0, WORD64 - nb, treebins[idx];
      var sizebits := Shl(nb, LeftShift(idx), 64);
      var rst := 0;
      SearchStart(b, nb);
      while true
        invariant Searching(b, idx, nb, v, rsize, t, rst, sizebits)
        decreases 64 - dep[t]
      {
        SearchStep(b, idx, nb, v, rsize, t, rst, sizebits);
        var trem := Sub64(nodes[t].size, nb);
        if trem < rsize {
          v, rsize := t, trem;
          if rsize == 0 {
            break;
          }
        }
        var rt := nodes[t].child1;
        t := Child(nodes[t], Bit(sizebits, 63));
        if rt != 0 && rt != t {
          rst := rt;
        }
        if t == 0 {
          t := rst;
          break;
        }
        sizebits := Shl(sizebits, 1, 64);
      }
    }

    /** Find the smallest chunk of a tree or subtree. */
    method SearchLeftmost(nb: nat, v0: int, rsize0: nat, t0: int, ghost i: nat) returns (v: int, rsize: nat)
      requires Valid() && nb < WORD64 && Best(View(), nb, v0, rsize0) && (t0 != 0 ==> InTree(View(), t0))
      requires nb < SIZE_LIMIT ==> Searched(View(), i, nb, v0, t0)
      ensures Best(View(), nb, v, rsize)
      ensures nb < SIZE_LIMIT ==> Searched(View(), i, nb, v, 0) && (v0 != 0 || t0 != 0 ==> v != 0)
    {
      ghost var b := View();
      v, rsize := v0, rsize0;
      var t := t0;
      assert t0 != 0 ==> Sized(b, t0) && Placed(b, t0);
      while t != 0
        invariant Best(b, nb, v, rsize) && (t != 0 ==> InTree(b, t) && dep[t] <= 64)
        invariant nb < SIZE_LIMIT ==> Searched(b, i, nb, v, t) && (v0 != 0 || t != t0 ==> v != 0)
        decreases if t == 0 then 0 else 65 - dep[t]
      {
        Look(b, nb, v, rsize, t);
        var trem := Sub64(nodes[t].size, nb);
        ghost var v1 := v;
        if trem < rsize {
          v, rsize := t, trem;
        }
        SearchedStep(b, i, nb, v1, v, t);
        t := Leftmost(nodes[t]);
      }
    }

    /** The search of `tmalloc_small`: the smallest tree chunk of all. */
    method FindSmallest(nb: nat) returns (v: int, rsize: nat)
      requires Valid() && treemap != 0 && nb < MIN_LARGE_SIZE
      ensures v != 0 && BestFit(View(), nb, v) && Best(View(), nb, v, rsize)
    {
      ghost var b := View();
      var i := Ffs(treemap);
      FirstBin(treemap);
      SmallestStart(b, treemap, nb, i);
      v := treebins[i];
      var t := v;
      rsize := nodes[t].size - nb;
      SearchedStep(b, i, nb, 0, v, t);
      t := Leftmost(nodes[t]);
      while t != 0
        invariant v != 0 && Best(b, nb, v, rsize) && (t != 0 ==> InTree(b, t) && dep[t] <= 64)
        invariant Searched(b, i, nb, v, t)
        decreases if t == 0 then 0 else 65 - dep[t]
      {
        Look(b, nb, v, rsize, t);
        ghost var v0 := v;
        var trem := Sub64(nodes[t].size, nb);
        if trem < rsize {
          rsize, v := trem, t;
        }
        SearchedStep(b, i, nb, v0, v, t);
        t := Leftmost(nodes[t]);
      }
      BestInBin(b, i, nb, v);
    }
  }

  lemma SmallestStart(t: Bins, m: nat, nb: nat, i: nat)
    requires Wf(t) && MapMatches(m, t.roots) && nb < MIN_LARGE_SIZE && LeastMarked(m, 0, i)
    ensures InTree(t, t.roots[i]) && t.nodes[t.roots[i]].size >= nb && t.roots[i] != 0
    ensures Searched(t, i, nb, 0, t.roots[i]) && NoneBefore(t, nb, i)
  {
    assert Rooted(t, i) && Sized(t, t.roots[i]);
    forall y | InTree(t, y)
      ensures t.nodes[y].size >= nb && t.nodes[y].index >= i
      ensures t.nodes[y].index == i ==> Below(t, t.roots[i], y)
    {
      assert Sized(t, y);
      BelowRoot(t, y);
    }
  }

  lemma HuntStart(t: Bins, nb: nat)
    requires Wf(t) && MIN_LARGE_SIZE <= nb < SIZE_LIMIT
    requires TreeIndex(nb) < NTREEBINS && t.roots[TreeIndex(nb)] != 0
    ensures var i := TreeIndex(nb); Hunting(t, i, nb, 0, t.roots[i], 0, Shl(nb, LeftShift(i), 64))
  {
    var i := TreeIndex(nb);
    RootOnPath(t, nb);
    forall y | Candidate(t, i, nb, y)
      ensures Hunted(t, i, nb, 0, t.roots[i], 0, y)
    {
      BelowRoot(t, y);
    }
  }

  lemma HuntImproved(t: Bins, i: nat, nb: nat, v: int, v': int, cur: int, rst: int)
    requires Wf(t) && Hunt(t, i, nb, v, cur, rst)
    requires v' == v || (v' == cur && (v != 0 ==> t.nodes[v'].size < t.nodes[v].size))
    ensures Hunt(t, i, nb, v', cur, rst)
  {
    assert Sized(t, cur);
    forall y | Candidate(t, i, nb, y)
      ensures (v' != 0 ==> v' in t.nodes) && Hunted(t, i, nb, v', cur, rst, y)
    {
      assert Hunted(t, i, nb, v, cur, rst, y);
    }
  }

  lemma IndexAt(t: Bins, x: int)
    requires Wf(t) && InTree(t, x)
    ensures t.nodes[x].index < NTREEBINS && t.dep.Keys == t.nodes.Keys
  {
    assert Sized(t, x);
  }

  /** An iteration that does not find an exact fit. */
  lemma HuntingStep(t: Bins, i: nat, nb: nat, v0: int, v: int, rsize: nat, cur: int, rst: int, sizebits: nat)
    requires Wf(t) && i < NTREEBINS && InTree(t, cur) && Best(t, nb, v, rsize) && rsize != 0 && nb < WORD64
    requires v == v0 || (v == cur && (v0 != 0 ==> v0 in t.nodes && t.nodes[v].size < t.nodes[v0].size))
    requires t.nodes[cur].size >= nb ==> v != 0 && t.nodes[v].size <= t.nodes[cur].size
    requires nb < SIZE_LIMIT ==> Hunting(t, i, nb, v0, cur, rst, sizebits)
    ensures var c, rt := Child(t.nodes[cur], Bit(sizebits, 63)), t.nodes[cur].child1;
            && (c != 0 ==> InTree(t, c) && t.dep[c] == t.dep[cur] + 1 <= 64)
            && (rt != 0 ==> InTree(t, rt))
            && (nb < SIZE_LIMIT ==>
                  var rst' := if rt != 0 && rt != c then rt else rst;
                  if c != 0 then Hunting(t, i, nb, v, c, rst', Shl(sizebits, 1, 64)) else Searched(t, i, nb, v, rst'))
  {
    hide Wf, Searched, Hunting;
    IndexAt(t, cur);
    var b := Bit(sizebits, 63);
    if t.nodes[cur].child1 != 0 {
      ChildBelow(t, cur, 1);
    }
    if Child(t.nodes[cur], b) != 0 {
      ChildBelow(t, cur, b);
    }
    if nb < SIZE_LIMIT {
      NoExactFit(t, nb, v, rsize, cur);
      HuntingOn(t, i, nb, v0, v, cur, rst, sizebits);
    }
  }

  /** The chunk looked at has not the size asked for, or the search would be over. */
  lemma NoExactFit(t: Bins, nb: nat, v: int, rsize: nat, cur: int)
    requires Wf(t) && InTree(t, cur) && Best(t, nb, v, rsize) && rsize != 0 && nb < WORD64
    requires t.nodes[cur].size >= nb ==> v != 0 && t.nodes[v].size <= t.nodes[cur].size
    ensures t.nodes[cur].size != nb
  {
  }

  lemma HuntingOn(t: Bins, i: nat, nb: nat, v0: int, v: int, cur: int, rst: int, sizebits: nat)
    requires Wf(t) && i < NTREEBINS && InTree(t, cur) && t.nodes[cur].size != nb
    requires v == v0 || (v == cur && (v0 != 0 ==> v0 in t.nodes && t.nodes[v].size < t.nodes[v0].size))
    requires t.nodes[cur].size >= nb ==> v in t.nodes && v != 0 && t.nodes[v].size <= t.nodes[cur].size
    requires t.dep.Keys == t.nodes.Keys && Hunting(t, i, nb, v0, cur, rst, sizebits)
    ensures var c, rt := Child(t.nodes[cur], Bit(sizebits, 63)), t.nodes[cur].child1;
            var rst' := if rt != 0 && rt != c then rt else rst;
            if c != 0 then c in t.nodes && Hunting(t, i, nb, v, c, rst', Shl(sizebits, 1, 64))
              else Searched(t, i, nb, v, rst')
  {
    hide Wf, Covered, Big, Shl;
    HuntImproved(t, i, nb, v0, v, cur, rst);
    HuntStep(t, i, nb, v, cur, rst);
    KeyBit(nb, i, t.dep[cur]);
    KeyShift(nb, LeftShift(i) + t.dep[cur]);
    if t.nodes[cur].child1 != 0 {
      ChildBelow(t, cur, 1);
    }
  }

  /** An exact fit settles the bin. */
  lemma ExactFit(t: Bins, i: nat, nb: nat, v: int)
    requires Wf(t) && InTree(t, v) && t.nodes[v].index == i && t.nodes[v].size == nb
    ensures Searched(t, i, nb, v, v)
  {
    assert Sized(t, v);
    forall y | Candidate(t, i, nb, y)
      ensures t.nodes[v].size <= t.nodes[y].size
    {
    }
  }

  /** What the loop of the bin search keeps. */
  ghost predicate Searching(t: Bins, i: nat, nb: nat, v: int, rsize: nat, cur: int, rst: int, sizebits: nat)
    requires t.dep.Keys == t.nodes.Keys
  {
    && Best(t, nb, v, rsize) && rsize != 0 && InTree(t, cur) && t.dep[cur] <= 64 && (rst != 0 ==> InTree(t, rst))
    && (nb < SIZE_LIMIT ==> Hunting(t, i, nb, v, cur, rst, sizebits))
  }

  lemma SearchStart(t: Bins, nb: nat)
    requires Wf(t) && MIN_LARGE_SIZE <= nb < WORD64
    requires TreeIndex(nb) < NTREEBINS && t.roots[TreeIndex(nb)] != 0
    ensures var i := TreeIndex(nb);
            Searching(t, i, nb, 0, WORD64 - nb, t.roots[i], 0, Shl(nb, LeftShift(i), 64))
  {
    assert Rooted(t, TreeIndex(nb));
    if nb < SIZE_LIMIT {
      HuntStart(t, nb);
    }
  }

  lemma SearchStep(t: Bins, i: nat, nb: nat, v: int, rsize: nat, cur: int, rst: int, sizebits: nat)
    requires Wf(t) && i < NTREEBINS && nb < WORD64 && Searching(t, i, nb, v, rsize, cur, rst, sizebits)
    ensures t.nodes[cur].size < WORD64
    ensures var trem := Sub64(t.nodes[cur].size, nb);
            var (v', rsize') := if trem < rsize then (cur, trem) else (v, rsize);
            var c, rt := Child(t.nodes[cur], Bit(sizebits, 63)), t.nodes[cur].child1;
            var rst' := if rt != 0 && rt != c then rt else rst;
            && Best(t, nb, v', rsize')
            && if rsize' == 0 then v' == cur && (nb < SIZE_LIMIT ==> Searched(t, i, nb, v', v'))
               else if c != 0 then
                 Searching(t, i, nb, v', rsize', c, rst', Shl(sizebits, 1, 64)) && t.dep[c] > t.dep[cur]
               else (rst' != 0 ==> InTree(t, rst')) && (nb < SIZE_LIMIT ==> Searched(t, i, nb, v', rst'))
  {
    Look(t, nb, v, rsize, cur);
    var trem := Sub64(t.nodes[cur].size, nb);
    var (v', rsize') := if trem < rsize then (cur, trem) else (v, rsize);
    if rsize' == 0 {
      if nb < SIZE_LIMIT {
        ExactFit(t, i, nb, v');
      }
    } else {
      HuntingStep(t, i, nb, v, v', rsize', cur, rst, sizebits);
    }
  }

  lemma SearchedImproved(t: Bins, i: nat, nb: nat, v0: int, v: int, cur: int)
    requires Wf(t) && InTree(t, cur) && Searched(t, i, nb, v0, cur)
    requires if t.nodes[cur].size >= nb && (v0 != 0 ==> t.nodes[cur].size < t.nodes[v0].size)
             then v == cur else v == v0
    ensures v != 0 && Searched(t, i, nb, v, cur)
    ensures t.nodes[v].size == nb || t.nodes[v].size <= t.nodes[cur].size
  {
    assert Sized(t, cur) && Placed(t, cur) && Below(t, cur, cur);
    forall y | Candidate(t, i, nb, y)
      ensures v != 0 && v in t.nodes
      ensures t.nodes[v].size <= t.nodes[y].size || Below(t, cur, y) || t.nodes[cur].size < t.nodes[y].size
    {
    }
  }

  lemma SearchedStep(t: Bins, i: nat, nb: nat, v0: int, v: int, cur: int)
    requires Wf(t) && InTree(t, cur) && nb < WORD64
    requires if t.nodes[cur].size >= nb && (v0 != 0 ==> v0 in t.nodes && t.nodes[cur].size < t.nodes[v0].size)
             then v == cur else v == v0
    requires v != 0 ==> v in t.nodes
    requires nb < SIZE_LIMIT ==> Searched(t, i, nb, v0, cur)
    ensures var c := Leftmost(t.nodes[cur]); c != 0 ==> InTree(t, c) && t.dep[cur] < t.dep[c] <= 64
    ensures nb < SIZE_LIMIT ==> Searched(t, i, nb, v, Leftmost(t.nodes[cur])) && v != 0
  {
    var c := Leftmost(t.nodes[cur]);
    assert Sized(t, cur) && Placed(t, cur);
    if c != 0 {
      ChildBelow(t, cur, if t.nodes[cur].child0 != 0 then 0 else 1);
    }
    if nb < SIZE_LIMIT {
      assert Below(t, cur, cur);
      SearchedImproved(t, i, nb, v0, v, cur);
      LeftmostCovers(t, i, nb, v, cur);
    }
  }

  /** No chunk in a bin before this one is large enough. */
  ghost predicate NoneBefore(t: Bins, nb: nat, bin: nat) {
    forall y {:trigger InTree(t, y)} :: InTree(t, y) && t.nodes[y].index < bin ==> t.nodes[y].size < nb
  }

  lemma BinsAreOrderedIf(t: Bins, nb: nat)
    requires Wf(t) && MIN_LARGE_SIZE <= nb
    ensures nb < SIZE_LIMIT ==> NoneBefore(t, nb, TreeIndex(nb))
  {
    if nb < SIZE_LIMIT {
      BinsAreOrdered(t, nb);
    }
  }

  lemma EmptyBin(t: Bins, i: nat, nb: nat)
    requires Wf(t) && i < NTREEBINS && t.roots[i] == 0
    ensures Searched(t, i, nb, 0, 0)
  {
    forall y | Candidate(t, i, nb, y)
      ensures false
    {
      BelowRoot(t, y);
    }
  }

  /** The next non-empty bin is where to look, from its root, once the bin of nb is exhausted. */
  lemma EnterBin(t: Bins, m: nat, nb: nat, idx: nat, bin: nat)
    requires Wf(t) && MapMatches(m, t.roots) && MIN_LARGE_SIZE <= nb && idx == TreeIndex(nb) < NTREEBINS
    requires LeastMarked(m, idx + 1, bin)
    requires nb < SIZE_LIMIT ==> Searched(t, idx, nb, 0, 0)
    ensures InTree(t, t.roots[bin])
    ensures nb < SIZE_LIMIT ==> Searched(t, bin, nb, 0, t.roots[bin]) && NoneBefore(t, nb, bin)
  {
    assert Rooted(t, bin);
    if nb < SIZE_LIMIT {
      BinsAreOrdered(t, nb);
      forall y | Candidate(t, bin, nb, y)
        ensures Below(t, t.roots[bin], y)
      {
        BelowRoot(t, y);
      }
      forall y | InTree(t, y) && t.nodes[y].index < bin
        ensures t.nodes[y].size < nb
      {
        BelowRoot(t, y);
        assert !Candidate(t, t.nodes[y].index, nb, y);
      }
    }
  }

  lemma NothingLeft(t: Bins, m: nat, nb: nat, idx: nat)
    requires Wf(t) && MapMatches(m, t.roots) && MIN_LARGE_SIZE <= nb && idx == TreeIndex(nb) < NTREEBINS
    requires forall j :: idx < j < WORD ==> !Marked(m, j)
    requires nb < SIZE_LIMIT ==> Searched(t, idx, nb, 0, 0)
    ensures nb < SIZE_LIMIT ==> AllTooSmall(t, nb)
  {
    if nb < SIZE_LIMIT {
      BinsAreOrdered(t, nb);
      forall y | InTree(t, y)
        ensures t.nodes[y].size < nb
      {
        BelowRoot(t, y);
        assert !Candidate(t, t.nodes[y].index, nb, y);
      }
    }
  }

  ghost predicate AllTooSmall(t: Bins, nb: nat) {
    forall y {:trigger InTree(t, y)} :: InTree(t, y) ==> t.nodes[y].size < nb
  }

  lemma FindDone(t: Bins, nb: nat, bin: nat, v: int)
    requires Wf(t) && (v != 0 ==> InTree(t, v) && t.nodes[v].size >= nb)
    requires nb < SIZE_LIMIT ==>
               NoneBefore(t, nb, bin) && Searched(t, bin, nb, v, 0) && (v == 0 ==> AllTooSmall(t, nb))
    ensures BestFit(t, nb, v)
  {
    if nb >= SIZE_LIMIT {
      TooLarge(t, nb);
      NoFit(t, nb);
    } else if v == 0 {
      NoFit(t, nb);
    } else {
      BestInBin(t, bin, nb, v);
    }
  }

  lemma NothingToCut(t: Bins, x: int)
    requires Wf(t) && x in t.nodes && t.nodes[x].bk == x && t.nodes[x].child0 == 0 && t.nodes[x].child1 == 0
    ensures IsCut(t, x, 0, t.nodes) && KeepsLinks(t, x, 0, t.nodes)
  {
    assert Ringed(t, x);
    forall y | y in t.nodes && y != x
      ensures t.nodes[y].fd != x && t.nodes[y].bk != x
    {
      assert Ringed(t, y);
    }
  }

  lemma TwinSizes(t: Bins, x: int, s: nat, p: int)
    requires TwinFits(t, x, s, p)
    ensures SizesOf(WithTwin(t, x, s, p)) == SizesOf(t)[x := s]
  {
  }

  /** The descent of the insertion: p is on the path of s, k is s with the bits above p's
      depth shifted out, and whatever has size s lies below p. */
  ghost predicate Walk(t: Bins, i: nat, s: nat, p: int, k: nat)
    requires t.dep.Keys == t.nodes.Keys && i < NTREEBINS
  {
    OnPath(t, i, s, p) && k == Shl(s, LeftShift(i) + t.dep[p], 64) && AllBelow(t, p, s)
  }

  lemma WalkStart(t: Bins, s: nat)
    requires Wf(t) && MIN_LARGE_SIZE <= s < SIZE_LIMIT
    requires TreeIndex(s) < NTREEBINS && t.roots[TreeIndex(s)] != 0
    ensures var i := TreeIndex(s); Walk(t, i, s, t.roots[i], Shl(s, LeftShift(i), 64))
  {
    RootOnPath(t, s);
    AllBelowRoot(t, s);
  }

  lemma WalkStep(t: Bins, i: nat, s: nat, p: int, k: nat)
    requires Wf(t) && i < NTREEBINS && Walk(t, i, s, p, k) && t.nodes[p].size != s
    ensures t.dep[p] < Width(i) && Bit(k, 63) == Bit(s, Width(i) - 1 - t.dep[p])
    ensures var c := Child(t.nodes[p], Bit(k, 63));
            if c != 0 then Walk(t, i, s, c, Shl(k, 1, 64)) && t.dep[c] == t.dep[p] + 1 else NewSize(t, s)
  {
    PathStep(t, i, s, p);
    KeyBit(s, i, t.dep[p]);
    KeyShift(s, LeftShift(i) + t.dep[p]);
    if Child(t.nodes[p], Bit(k, 63)) != 0 {
      AllStayBelow(t, i, s, p);
    } else {
      NoneBelowGap(t, i, s, p);
    }
  }

  /** Every trie chunk of size s lies below p. */
  ghost predicate AllBelow(t: Bins, p: int, s: nat)
    requires t.dep.Keys == t.nodes.Keys
  {
    forall y {:trigger InTree(t, y)} :: InTree(t, y) && t.nodes[y].size == s ==> Below(t, p, y)
  }

  lemma AllBelowRoot(t: Bins, s: nat)
    requires Wf(t) && TreeIndex(s) < NTREEBINS && t.roots[TreeIndex(s)] != 0
    ensures AllBelow(t, t.roots[TreeIndex(s)], s)
  {
    forall y | InTree(t, y) && t.nodes[y].size == s
      ensures Below(t, t.roots[TreeIndex(s)], y)
    {
      assert Sized(t, y);
      BelowRoot(t, y);
    }
  }

  lemma AllStayBelow(t: Bins, i: nat, s: nat, p: int)
    requires Wf(t) && i < NTREEBINS && OnPath(t, i, s, p) && t.nodes[p].size != s && AllBelow(t, p, s)
    requires t.dep[p] < Width(i)
    ensures AllBelow(t, Child(t.nodes[p], Bit(s, Width(i) - 1 - t.dep[p])), s)
  {
    forall y | InTree(t, y) && t.nodes[y].size == s
      ensures Below(t, Child(t.nodes[p], Bit(s, Width(i) - 1 - t.dep[p])), y)
    {
      PathStepKeeps(t, i, s, p, y);
    }
  }

  lemma NoneBelowGap(t: Bins, i: nat, s: nat, p: int)
    requires Wf(t) && i < NTREEBINS && OnPath(t, i, s, p) && t.nodes[p].size != s && AllBelow(t, p, s)
    requires t.dep[p] < Width(i) && Child(t.nodes[p], Bit(s, Width(i) - 1 - t.dep[p])) == 0
    ensures NewSize(t, s)
  {
    forall y | InTree(t, y)
      ensures t.nodes[y].size != s
    {
      if t.nodes[y].size == s {
        PathStepKeeps(t, i, s, p, y);
      }
    }
  }

  lemma NoneInEmptyBin(t: Bins, s: nat)
    requires Wf(t) && TreeIndex(s) < NTREEBINS && t.roots[TreeIndex(s)] == 0
    ensures NewSize(t, s)
  {
    forall y | InTree(t, y)
      ensures t.nodes[y].size != s
    {
      assert Sized(t, y);
      BelowRoot(t, y);
    }
  }
}
