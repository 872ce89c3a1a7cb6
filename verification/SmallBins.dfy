/** The small bins: 32 doubly linked rings through sentinels, one per chunk size, with the
    bitmap of non-empty bins. The links of an empty bin's sentinel are stale and never read. */
module SmallBins {
  import opened AllocSizes
  import opened Bits
  import opened BinMap

  const NSMALLBINS := 32

  datatype Link = Link(fd: int, bk: int)

  /** `size` and `rank` are ghost labels: the size of each member, and a number that falls along
      `fd` until the sentinel; `marked` is the set of bins whose bit is set. */
  datatype Rings = Rings(links: map<int, Link>, size: map<int, nat>, rank: map<int, nat>, marked: set<nat>)

  /** `smallbin_at(i)` */
  function Sentinel(i: nat): int {
    -1 - i
  }

  function SmallIndex(s: nat): nat {
    s / 8
  }

  predicate SmallSize(s: nat) {
    MIN_CHUNK_SIZE <= s < MIN_LARGE_SIZE && s % 8 == 0
  }

  /** The forward link of x leads to its sentinel or to a member of the same ring and lower rank. */
  ghost predicate Linked(t: Rings, x: int)
    requires x in t.size && Shape(t)
  {
    var i := SmallIndex(t.size[x]);
    var n := t.links[x];
    && x > 0 && SmallSize(t.size[x]) && i in t.marked
    && n.fd in t.links && t.links[n.fd].bk == x
    && (n.fd == Sentinel(i) || (n.fd in t.size && t.size[n.fd] == t.size[x] && t.rank[n.fd] < t.rank[x]))
    && n.bk in t.links && t.links[n.bk].fd == x
    && (n.bk == Sentinel(i) || (n.bk in t.size && t.size[n.bk] == t.size[x]))
  }

  /** A marked bin has a first and a last member. */
  ghost predicate Headed(t: Rings, i: nat)
    requires Shape(t)
  {
    Sentinel(i) in t.links &&
    (i in t.marked ==>
       var b := t.links[Sentinel(i)];
       && b.fd in t.size && SmallIndex(t.size[b.fd]) == i && t.links[b.fd].bk == Sentinel(i)
       && b.bk in t.size && SmallIndex(t.size[b.bk]) == i && t.links[b.bk].fd == Sentinel(i))
  }

  ghost predicate Shape(t: Rings) {
    t.links.Keys >= t.size.Keys && t.rank.Keys == t.size.Keys
  }

  ghost predicate Wf(t: Rings) {
    && Shape(t)
    && (forall x {:trigger Linked(t, x)} :: x in t.size ==> Linked(t, x))
    && (forall i {:trigger Headed(t, i)} :: 0 <= i < NSMALLBINS ==> Headed(t, i))
  }

  /** `insert_small_chunk`: x goes between the sentinel and its first member. */
  function WithFirst(t: Rings, x: int, s: nat): Rings
    requires Sentinel(SmallIndex(s)) in t.links
  {
    var b := Sentinel(SmallIndex(s));
    var f := if SmallIndex(s) in t.marked then t.links[b].fd else b;
    var l1 := t.links[b := t.links[b].(fd := x)];
    var l2 := if f in l1 then l1[f := l1[f].(bk := x)] else l1;
    Rings(l2[x := Link(f, b)], t.size[x := s], t.rank[x := if f in t.rank then t.rank[f] + 1 else 0],
          t.marked + {SmallIndex(s)})
  }

  /** `unlink_small_chunk`: if both links lead to the same place, x is alone in its bin. */
  function WithoutMember(t: Rings, x: int): Rings
    requires x in t.links && x in t.size && t.links[x].fd in t.links && t.links[x].bk in t.links
  {
    var f, b := t.links[x].fd, t.links[x].bk;
    if f == b then
      Rings(t.links - {x}, t.size - {x}, t.rank - {x}, t.marked - {SmallIndex(t.size[x])})
    else
      var l := t.links[f := t.links[f].(bk := b)];
      Rings(l[b := l[b].(fd := f)] - {x}, t.size - {x}, t.rank - {x}, t.marked)
  }

  lemma InsertLinkedNew(t: Rings, x: int, s: nat)
    requires Wf(t) && x > 0 && x !in t.size && SmallSize(s)
    ensures Sentinel(SmallIndex(s)) in t.links && Shape(WithFirst(t, x, s)) && Linked(WithFirst(t, x, s), x)
  {
    var i := SmallIndex(s);
    assert Headed(t, i);
    if i in t.marked {
      assert Linked(t, t.links[Sentinel(i)].fd);
    }
  }

  lemma InsertLinkedOld(t: Rings, x: int, s: nat, y: int)
    requires Wf(t) && x > 0 && x !in t.size && SmallSize(s) && y in t.size
    ensures Sentinel(SmallIndex(s)) in t.links && Shape(WithFirst(t, x, s)) && Linked(WithFirst(t, x, s), y)
  {
    var i := SmallIndex(s);
    assert Headed(t, i) && Linked(t, y);
    assert Sentinel(i) in t.size ==> Linked(t, Sentinel(i));
    if i in t.marked {
      assert Linked(t, t.links[Sentinel(i)].fd);
    }
  }

  lemma InsertHeaded(t: Rings, x: int, s: nat, j: nat)
    requires Wf(t) && x > 0 && x !in t.size && SmallSize(s) && j < NSMALLBINS
    ensures Sentinel(SmallIndex(s)) in t.links && Shape(WithFirst(t, x, s)) && Headed(WithFirst(t, x, s), j)
  {
    var i := SmallIndex(s);
    assert Headed(t, i) && Headed(t, j);
    var b := Sentinel(j);
    if j in t.marked {
      assert Linked(t, t.links[b].fd) && Linked(t, t.links[b].bk);
    }
    if i in t.marked {
      assert Linked(t, t.links[Sentinel(i)].fd);
    }
  }

  lemma Insert(t: Rings, x: int, s: nat)
    requires Wf(t) && x > 0 && x !in t.size && SmallSize(s)
    ensures Sentinel(SmallIndex(s)) in t.links && Wf(WithFirst(t, x, s))
  {
    var t' := WithFirst(t, x, s) by {
      assert Headed(t, SmallIndex(s));
    }
    InsertLinkedNew(t, x, s);
    forall y | y in t'.size
      ensures Linked(t', y)
    {
      if y != x {
        InsertLinkedOld(t, x, s, y);
      }
    }
    forall j | 0 <= j < NSMALLBINS
      ensures Headed(t', j)
    {
      InsertHeaded(t, x, s, j);
    }
  }

  /** When both links of x lead to the same place, x is the only member of its bin. */
  lemma {:induction false} OnlyMember(t: Rings, x: int, y: int)
    requires Wf(t) && x in t.size && t.links[x].fd == t.links[x].bk
    requires y in t.size && SmallIndex(t.size[y]) == SmallIndex(t.size[x])
    ensures y == x
    decreases t.rank[y]
  {
    assert Linked(t, x) && Linked(t, y);
    if t.links[x].fd in t.size {
      assert Linked(t, t.links[x].fd);
    }
    if t.links[y].fd in t.size {
      assert Linked(t, t.links[y].fd);
      OnlyMember(t, x, t.links[y].fd);
    }
  }

  lemma UnlinkLinked(t: Rings, x: int, y: int)
    requires Wf(t) && x in t.size && y in t.size && y != x
    ensures t.links[x].fd in t.links && t.links[x].bk in t.links
    ensures Shape(WithoutMember(t, x)) && Linked(WithoutMember(t, x), y)
  {
    assert Linked(t, x) && Linked(t, y);
    if t.links[x].fd == t.links[x].bk && SmallIndex(t.size[y]) == SmallIndex(t.size[x]) {
      OnlyMember(t, x, y);
    }
    if t.links[y].fd in t.size {
      assert Linked(t, t.links[y].fd);
    }
    if t.links[x].fd in t.size {
      assert Linked(t, t.links[x].fd);
    }
  }

  lemma UnlinkHeaded(t: Rings, x: int, j: nat)
    requires Wf(t) && x in t.size && j < NSMALLBINS
    ensures t.links[x].fd in t.links && t.links[x].bk in t.links
    ensures Shape(WithoutMember(t, x)) && Headed(WithoutMember(t, x), j)
  {
    assert Linked(t, x) && Headed(t, j);
    assert Sentinel(j) in t.size ==> Linked(t, Sentinel(j));
    if t.links[x].fd in t.size {
      assert Linked(t, t.links[x].fd);
    }
    if t.links[x].bk in t.size {
      assert Linked(t, t.links[x].bk);
    }
    var b := t.links[Sentinel(j)];
    if j in t.marked {
      assert Linked(t, b.fd) && Linked(t, b.bk);
    }
  }

  lemma Unlink(t: Rings, x: int)
    requires Wf(t) && x in t.size
    ensures t.links[x].fd in t.links && t.links[x].bk in t.links && Wf(WithoutMember(t, x))
  {
    UnlinkHeaded(t, x, 0);
    var t' := WithoutMember(t, x);
    forall y | y in t'.size
      ensures Linked(t', y)
    {
      UnlinkLinked(t, x, y);
    }
    forall j | 0 <= j < NSMALLBINS
      ensures Headed(t', j)
    {
      UnlinkHeaded(t, x, j);
    }
  }

  lemma FirstMember(t: Rings, i: nat)
    requires Wf(t) && i in t.marked && i < NSMALLBINS
    ensures Sentinel(i) in t.links
    ensures var b, p := Sentinel(i), t.links[Sentinel(i)].fd;
            && p in t.size && p in t.links && t.size[p] == 8 * i && SmallIndex(t.size[p]) == i
            && t.links[p].bk == b && t.links[p].fd in t.links
  {
    assert Headed(t, i) && Linked(t, t.links[Sentinel(i)].fd);
  }

  /** Two distinct neighbours may be relinked in either order. */
  lemma RelinkOrder(l: map<int, Link>, b: int, f: int)
    requires b in l && f in l && b != f
    ensures var l' := l[b := l[b].(fd := f)]; l'[f := l'[f].(bk := b)] == l[f := l[f].(bk := b)][b := l[b].(fd := f)]
  {
  }

  function MarkedSet(m: nat): set<nat> {
    set i: nat | 0 <= i < NSMALLBINS && Marked(m, i)
  }

  lemma MarkedSets(m: nat, i: nat)
    requires i < NSMALLBINS && m < Pow2(WORD)
    ensures MarkedSet(Mark(m, i)) == MarkedSet(m) + {i} && MarkedSet(Clear(m, i)) == MarkedSet(m) - {i}
    ensures Mark(m, i) < Pow2(WORD) && Clear(m, i) < Pow2(WORD)
  {
    MapsStayWords(m, i);
    forall j: nat | j < NSMALLBINS
      ensures Marked(Mark(m, i), j) <==> i == j || Marked(m, j)
      ensures Marked(Clear(m, i), j) <==> i != j && Marked(m, j)
    {
      MarkChangesOne(m, i, j);
    }
  }

  class SmallBins {
    var links: map<int, Link>
    var smallmap: nat
    ghost var size: map<int, nat>
    ghost var rank: map<int, nat>

    ghost function View(): Rings
      reads this
    {
      Rings(links, size, rank, MarkedSet(smallmap))
    }

    ghost predicate Valid()
      reads this
    {
      Wf(View()) && smallmap < Pow2(WORD)
    }

    /** The abstract value: which chunks are binned, and their sizes. */
    ghost function Sizes(): map<int, nat>
      reads this
    {
      size
    }

    /** `init_bins` */
    constructor ()
      ensures Valid() && Sizes() == map[]
    {
      links := map b: int | -NSMALLBINS <= b < 0 :: Link(b, b);
      smallmap, size, rank := 0, map[], map[];
      new;
      forall i: nat | i < NSMALLBINS
        ensures !Marked(smallmap, i)
      {
        MarkedBit(0, i);
        BitZero(i);
      }
    }

    /** `insert_small_chunk` */
    method InsertSmallChunk(p: int, s: nat)
      requires Valid() && p > 0 && p !in Sizes() && SmallSize(s)
      modifies this
      ensures Valid() && Sizes() == old(Sizes())[p := s]
    {
      var i := SmallIndex(s);
      Insert(View(), p, s);
      InsertLinkedNew(View(), p, s);
      MarkedSets(smallmap, i);
      ghost var t := WithFirst(View(), p, s);
      var b := Sentinel(i);
      var f := b;
      if !Marked(smallmap, i) {
        smallmap := Mark(smallmap, i);
      } else {
        assert Headed(old(View()), i);
        f := links[b].fd;
      }
      links := links[b := links[b].(fd := p)];
      links := links[f := links[f].(bk := p)];
      links := links[p := Link(f, b)];
      size, rank := t.size, t.rank;
      assert View() == t;
    }

    /** `unlink_small_chunk` */
    method UnlinkSmallChunk(p: int, s: nat)
      requires Valid() && p in Sizes() && Sizes()[p] == s
      modifies this
      ensures Valid() && Sizes() == old(Sizes()) - {p}
    {
      Unlink(View(), p);
      assert Linked(View(), p);
      ghost var t := WithoutMember(View(), p);
      var f, b, i := links[p].fd, links[p].bk, SmallIndex(s);
      MarkedSets(smallmap, i);
      if f == b {
        smallmap := Clear(smallmap, i);
      } else {
        links := links[f := links[f].(bk := b)];
        links := links[b := links[b].(fd := f)];
      }
      links := links - {p};
      size, rank := t.size, t.rank;
      assert View() == t;
    }

    /** The first member of a non-empty bin, taken out by `unlink_first_small_chunk`. */
    method UnlinkFirstSmallChunk(i: nat) returns (p: int)
      requires Valid() && i < NSMALLBINS && Marked(smallmap, i)
      modifies this
      ensures Valid() && p in old(Sizes()) && old(Sizes())[p] == 8 * i
      ensures Sizes() == old(Sizes()) - {p}
    {
      hide Wf;
      FirstMember(View(), i);
      var b := Sentinel(i);
      p := links[b].fd;
      Unlink(View(), p);
      ghost var t := WithoutMember(View(), p);
      var f := links[p].fd;
      MarkedSets(smallmap, i);
      if b == f {
        smallmap := Clear(smallmap, i);
      } else {
        RelinkOrder(links, b, f);
        links := links[b := links[b].(fd := f)];
        links := links[f := links[f].(bk := b)];
      }
      links := links - {p};
      size, rank := t.size, t.rank;
      assert View() == t;
    }
  }
}
