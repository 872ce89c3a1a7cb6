/** How the heap gains and loses memory: the top grows or shrinks, a segment is added, extended
    downwards or released. */
module HeapSystem {
  import opened AllocSizes
  import opened Heap
  import opened HeapSegments

  /** The stretch of the top. */
  function TopEnd(a: Arena): int {
    a.top + a.topsize
  }

  /** [lo, hi) touches no segment except possibly the one that ends at e. */
  ghost predicate Vacant(a: Arena, lo: int, hi: int, e: int) {
    forall f :: f in a.spans && f != e ==> a.spans[f].limit <= lo || hi <= a.spans[f].base
  }

  // ---- `init_top` after the segment of the top was extended or trimmed.

  function ResizeTop(a: Arena, ts: nat): Arena
    requires TopEnd(a) in a.spans
  {
    var e := a.top + ts;
    a.(head := a.head[a.top := Head(ts, true, false)], topsize := ts,
       spans := (a.spans - {TopEnd(a)})[e := Span(a.spans[TopEnd(a)].base, e + TOP_FOOT_SIZE)])
  }

  predicate TopFits(a: Arena, ts: nat) {
    && 8 <= ts && ts % 8 == 0 && TopEnd(a) in a.spans
    && Region(a.spans[TopEnd(a)].base, a.top + ts + TOP_FOOT_SIZE)
  }

  /** Nothing lies behind the top in its stretch. */
  lemma BehindTop(a: Arena, x: int)
    requires Inv(a) && x in a.head
    ensures x < a.top ==> Next(a, x) <= a.top
    ensures x > a.top ==> exists f :: f in a.spans && f > TopEnd(a) && a.spans[f].base <= x && Next(a, x) <= f
  {
    assert Apart(a, x, a.top) && Apart(a, a.top, x) && Inside(a, x) && Sized(a, x);
  }

  lemma ResizeTopTiled(a: Arena, ts: nat)
    requires Inv(a) && TopFits(a, ts)
    requires Vacant(a, a.top, a.top + ts + TOP_FOOT_SIZE, TopEnd(a))
    ensures AllSized(ResizeTop(a, ts)) && AllChained(ResizeTop(a, ts)) && AllApart(ResizeTop(a, ts))
  {
    var a' := ResizeTop(a, ts);
    assert Sized(a, a.top);
    TopSpan(a);
    forall x | x in a'.head
      ensures Sized(a', x)
    {
      assert Sized(a, x);
    }
    forall x | x in a'.head
      ensures Chained(a', x)
    {
      assert Chained(a, x);
      if Next(a, x) == TopEnd(a) {
        TopEndIsTops(a, x);
      }
    }
    forall x, y | x in a'.head && y in a'.head
      ensures Apart(a', x, y)
    {
      assert Apart(a, x, y);
      if x == a.top && y > x {
        BehindTop(a, y);
      }
    }
  }

  lemma TopEndIsTops(a: Arena, x: int)
    requires Inv(a) && x in a.head && Next(a, x) == TopEnd(a)
    ensures x == a.top
  {
    assert Apart(a, x, a.top) && Apart(a, a.top, x) && Sized(a, x) && Sized(a, a.top);
  }

  lemma ResizeTopInsideAt(a: Arena, ts: nat, x: int, e: int)
    requires Inv(a) && TopFits(a, ts)
    requires Vacant(a, a.top, a.top + ts + TOP_FOOT_SIZE, TopEnd(a))
    requires x in a.head && e in a.spans && a.spans[e].base <= x && Next(a, x) <= e
    ensures Inside(ResizeTop(a, ts), x)
  {
    var a' := ResizeTop(a, ts);
    var e' := a.top + ts;
    TopSpan(a);
    assert e' in a'.spans;
    if x == a.top {
      assert a'.spans[e'].base <= x && Next(a', x) <= e';
    } else if e == TopEnd(a) {
      BehindTop(a, x);
      assert a'.spans[e'].base <= x && Next(a', x) <= e';
    } else {
      assert e in a'.spans && e != e';
    }
  }

  lemma ResizeTopInside(a: Arena, ts: nat)
    requires Inv(a) && TopFits(a, ts)
    requires Vacant(a, a.top, a.top + ts + TOP_FOOT_SIZE, TopEnd(a))
    ensures AllInside(ResizeTop(a, ts))
  {
    forall x | x in a.head
      ensures Inside(ResizeTop(a, ts), x)
    {
      assert Inside(a, x);
      var e :| e in a.spans && a.spans[e].base <= x && Next(a, x) <= e;
      ResizeTopInsideAt(a, ts, x, e);
    }
  }

  lemma TopSpan(a: Arena)
    requires Inv(a)
    ensures a.spans[TopEnd(a)].base <= a.top
  {
    assert Inside(a, a.top) && Sized(a, a.top);
  }

  lemma ResizeTopOk(a: Arena, ts: nat)
    requires Inv(a) && TopFits(a, ts)
    requires Vacant(a, a.top, a.top + ts + TOP_FOOT_SIZE, TopEnd(a))
    ensures Inv(ResizeTop(a, ts))
  {
    var a' := ResizeTop(a, ts);
    ResizeTopTiled(a, ts);
    ResizeTopInside(a, ts);
    ResizeTopSpanned(a, ts);
    TopSpan(a);
    forall x | x in a'.head
      ensures Flagged(a', x) && Footed(a', x) && Classed(a', x)
    {
      assert Flagged(a, x) && Footed(a, x) && Classed(a, x) && Classed(a, a.top);
    }
  }

  lemma ResizeTopSpanned(a: Arena, ts: nat)
    requires Inv(a) && TopFits(a, ts)
    requires Vacant(a, a.top, a.top + ts + TOP_FOOT_SIZE, TopEnd(a))
    ensures Spanned(ResizeTop(a, ts))
  {
    hide AllSized, AllInside, AllChained, AllApart, AllFlagged, AllFooted, AllClassed;
    TopSpan(a);
    EndBehindTop(a, ts);
    var a' := ResizeTop(a, ts);
    var e0 := a.top + ts;
    forall e, f | e in a'.spans && f in a'.spans && e < f
      ensures a'.spans[e].limit <= a'.spans[f].base
    {
      assert e != e0 ==> e in a.spans && e != TopEnd(a);
      assert f != e0 ==> f in a.spans && f != TopEnd(a);
    }
  }

  lemma EndBehindTop(a: Arena, ts: nat)
    requires Inv(a) && TopFits(a, ts)
    requires Vacant(a, a.top, a.top + ts + TOP_FOOT_SIZE, TopEnd(a))
    ensures a.top + ts !in a.head && a.top > 0
  {
    assert Sized(a, a.top);
    if a.top + ts in a.head {
      BehindTop(a, a.top + ts);
    }
  }

  // ---- `add_segment`: the old top is retired, a new segment becomes the top.

  function Retired(a: Arena): int {
    if a.topsize < MIN_CHUNK_SIZE then a.top else a.top + a.topsize
  }

  function AddSegment(a: Arena, tbase: int, tsize: nat): Arena
    requires TopEnd(a) in a.spans && tsize > TOP_FOOT_SIZE && a.top in a.head
  {
    var sp := Retired(a);
    var big := a.topsize >= MIN_CHUNK_SIZE;
    var e := TopEnd(a);
    var ts := tsize - TOP_FOOT_SIZE;
    a.(head := a.head[sp := Head(RECORD_SIZE, !big, true)][tbase := Head(ts, true, false)],
       foot := if big then a.foot[sp := a.topsize] else a.foot,
       binned := if big then a.binned[a.top := a.topsize] else a.binned,
       spans := (a.spans - {e})[sp + RECORD_SIZE := a.spans[e]][tbase + ts := Span(tbase, tbase + tsize)],
       top := tbase, topsize := ts, pinned := a.pinned + {sp})
  }

  ghost predicate SegmentFits(a: Arena, tbase: int, tsize: nat) {
    && Region(tbase, tbase + tsize) && tbase % 8 == 0 && tsize % 8 == 0 && tsize >= 2 * TOP_FOOT_SIZE
    && (forall f :: f in a.spans ==> a.spans[f].limit <= tbase || tbase + tsize <= a.spans[f].base)
  }

  /** Where the record chunk and the new segment go, there was no chunk, except the old top. */
  lemma RoomForRecord(a: Arena, tbase: int, tsize: nat)
    requires Inv(a) && SegmentFits(a, tbase, tsize)
    ensures var sp := Retired(a);
            && sp >= a.top > 0 && sp % 8 == 0 && TopEnd(a) < sp + RECORD_SIZE < a.spans[TopEnd(a)].limit
            && (sp in a.head ==> sp == a.top) && tbase !in a.head && sp != tbase
            && a.spans[TopEnd(a)].base <= a.top
  {
    TopSpan(a);
    assert Sized(a, a.top);
    assert tbase in a.head ==> Sized(a, tbase);
    assert tbase in a.head ==> Inside(a, tbase);
  }

  /** Every other chunk ends before the old top or lies in another segment than both. */
  lemma Elsewhere(a: Arena, tbase: int, tsize: nat, x: int)
    requires Inv(a) && SegmentFits(a, tbase, tsize) && x in a.head && x != a.top
    ensures Next(a, x) <= a.top || x >= a.spans[TopEnd(a)].limit
    ensures Next(a, x) <= tbase || x >= tbase + tsize
    ensures Next(a, x) != TopEnd(a)
  {
    BehindTop(a, x);
    TopSpan(a);
    assert Inside(a, x) && Sized(a, x) && Sized(a, a.top);
  }

  lemma AddSized(a: Arena, tbase: int, tsize: nat)
    requires Inv(a) && SegmentFits(a, tbase, tsize)
    ensures AllSized(AddSegment(a, tbase, tsize))
  {
    var a' := AddSegment(a, tbase, tsize);
    RoomForRecord(a, tbase, tsize);
    forall x | x in a'.head
      ensures Sized(a', x)
    {
      if x in a.head {
        assert Sized(a, x);
      }
    }
  }

  lemma AddChained(a: Arena, tbase: int, tsize: nat)
    requires Inv(a) && SegmentFits(a, tbase, tsize)
    ensures AllChained(AddSegment(a, tbase, tsize))
  {
    var a' := AddSegment(a, tbase, tsize);
    RoomForRecord(a, tbase, tsize);
    forall x | x in a'.head
      ensures Chained(a', x)
    {
      if x in a.head && x != a.top {
        assert Chained(a, x);
        Elsewhere(a, tbase, tsize, x);
      }
    }
  }

  lemma AddApart(a: Arena, tbase: int, tsize: nat)
    requires Inv(a) && SegmentFits(a, tbase, tsize)
    ensures AllApart(AddSegment(a, tbase, tsize))
  {
    var a' := AddSegment(a, tbase, tsize);
    RoomForRecord(a, tbase, tsize);
    forall x, y | x in a'.head && y in a'.head
      ensures Apart(a', x, y)
    {
      if x in a.head && x != a.top {
        Elsewhere(a, tbase, tsize, x);
      }
      if y in a.head && y != a.top {
        Elsewhere(a, tbase, tsize, y);
      }
      assert x in a.head && y in a.head ==> Apart(a, x, y);
    }
  }

  lemma AddInside(a: Arena, tbase: int, tsize: nat)
    requires Inv(a) && SegmentFits(a, tbase, tsize)
    ensures AllInside(AddSegment(a, tbase, tsize))
  {
    var a' := AddSegment(a, tbase, tsize);
    RoomForRecord(a, tbase, tsize);
    var sp := Retired(a);
    NewEnds(a, tbase, tsize);
    forall x | x in a'.head
      ensures Inside(a', x)
    {
      if x == tbase {
        var e := tbase + (tsize - TOP_FOOT_SIZE);
        assert e in a'.spans && a'.spans[e].base <= x && Next(a', x) <= e;
      } else if x == sp || x == a.top {
        assert sp + RECORD_SIZE in a'.spans && a'.spans[sp + RECORD_SIZE].base <= x && Next(a', x) <= sp + RECORD_SIZE;
      } else {
        InsideStill(a, tbase, tsize, x);
      }
    }
  }

  /** The two new ends are no ends of the old heap. */
  lemma NewEnds(a: Arena, tbase: int, tsize: nat)
    requires Inv(a) && SegmentFits(a, tbase, tsize)
    ensures var e1, e2 := Retired(a) + RECORD_SIZE, tbase + (tsize - TOP_FOOT_SIZE);
            && e1 != e2 && e2 !in a.spans && (e1 in a.spans ==> e1 == TopEnd(a))
            && e1 !in a.head && e2 !in a.head
  {
    RoomForRecord(a, tbase, tsize);
    TopSpan(a);
    var e1, e2 := Retired(a) + RECORD_SIZE, tbase + (tsize - TOP_FOOT_SIZE);
    assert (e1 in a.head ==> Sized(a, e1)) && (e2 in a.head ==> Sized(a, e2));
    if e1 in a.head {
      Elsewhere(a, tbase, tsize, e1);
    }
    if e2 in a.head && e2 != a.top {
      Elsewhere(a, tbase, tsize, e2);
    }
  }

  lemma InsideStill(a: Arena, tbase: int, tsize: nat, x: int)
    requires Inv(a) && SegmentFits(a, tbase, tsize) && x in a.head && x != a.top
    ensures x in AddSegment(a, tbase, tsize).head && Inside(AddSegment(a, tbase, tsize), x)
  {
    hide AllChained, AllApart, AllFlagged, AllFooted, AllClassed, Spanned;
    var a' := AddSegment(a, tbase, tsize);
    RoomForRecord(a, tbase, tsize);
    NewEnds(a, tbase, tsize);
    Elsewhere(a, tbase, tsize, x);
    assert Inside(a, x);
    var e :| e in a.spans && a.spans[e].base <= x && Next(a, x) <= e;
    var f := if e == TopEnd(a) then Retired(a) + RECORD_SIZE else e;
    assert f in a'.spans && a'.spans[f].base <= x && Next(a', x) <= f;
  }

  lemma AddSpansApart(a: Arena, tbase: int, tsize: nat)
    requires Inv(a) && SegmentFits(a, tbase, tsize)
    ensures var a' := AddSegment(a, tbase, tsize);
            forall e, f :: e in a'.spans && f in a'.spans && e < f ==> a'.spans[e].limit <= a'.spans[f].base
  {
    hide AllSized, AllInside, AllChained, AllApart, AllFlagged, AllFooted, AllClassed;
    RoomForRecord(a, tbase, tsize);
    NewEnds(a, tbase, tsize);
  }

  lemma AddSpanned(a: Arena, tbase: int, tsize: nat)
    requires Inv(a) && SegmentFits(a, tbase, tsize)
    ensures Spanned(AddSegment(a, tbase, tsize))
  {
    RoomForRecord(a, tbase, tsize);
    NewEnds(a, tbase, tsize);
    var a' := AddSegment(a, tbase, tsize);
    forall e | e in a'.spans
      ensures Region(a'.spans[e].base, a'.spans[e].limit) && a'.spans[e].base < e < a'.spans[e].limit
      ensures a'.spans[e].base in a'.head && e !in a'.head
    {
      if e in a.spans && e != TopEnd(a) {
        EndIsFree(a, tbase, tsize, e);
      }
    }
    AddSpansApart(a, tbase, tsize);
  }

  lemma EndIsFree(a: Arena, tbase: int, tsize: nat, e: int)
    requires Inv(a) && SegmentFits(a, tbase, tsize) && e in a.spans && e != TopEnd(a)
    ensures e != Retired(a) && e != tbase
  {
    RoomForRecord(a, tbase, tsize);
  }

  lemma AddTags(a: Arena, tbase: int, tsize: nat)
    requires Inv(a) && SegmentFits(a, tbase, tsize)
    ensures AllFlagged(AddSegment(a, tbase, tsize)) && AllFooted(AddSegment(a, tbase, tsize))
  {
    hide AllInside, AllChained, AllApart, AllClassed, Spanned;
    var a' := AddSegment(a, tbase, tsize);
    RoomForRecord(a, tbase, tsize);
    NewEnds(a, tbase, tsize);
    var sp := Retired(a);
    assert Sized(a, a.top) && Footed(a, a.top);
    forall x | x in a'.head
      ensures Flagged(a', x)
    {
      if x in a.head && x != a.top {
        assert Flagged(a, x) && Sized(a, x);
        Elsewhere(a, tbase, tsize, x);
        NotBehind(a, tbase, tsize, x);
      }
    }
    forall x: int | x in a'.head
      ensures Footed(a', x)
    {
      if x in a.head && x != a.top {
        assert Footed(a, x);
        if !a.head[x].pinuse && x - a.foot[x] == a.top {
          Elsewhere(a, tbase, tsize, x);
        }
      }
    }
  }

  /** No old chunk ends where the new segment begins. */
  lemma NotBehind(a: Arena, tbase: int, tsize: nat, x: int)
    requires Inv(a) && SegmentFits(a, tbase, tsize) && x in a.head
    ensures Next(a, x) != tbase
  {
    assert Inside(a, x) && Sized(a, x);
  }

  lemma AddClasses(a: Arena, tbase: int, tsize: nat)
    requires Inv(a) && SegmentFits(a, tbase, tsize)
    ensures AllClassed(AddSegment(a, tbase, tsize)) && Named(AddSegment(a, tbase, tsize))
  {
    var a' := AddSegment(a, tbase, tsize);
    RoomForRecord(a, tbase, tsize);
    assert Classed(a, a.top);
    assert a.dv != 0 ==> Classed(a, a.dv);
    forall x | x in a'.head
      ensures Classed(a', x)
    {
      if x in a.head {
        assert Classed(a, x) && Sized(a, x);
      }
    }
  }

  lemma AddSegmentOk(a: Arena, tbase: int, tsize: nat)
    requires Inv(a) && SegmentFits(a, tbase, tsize)
    ensures Inv(AddSegment(a, tbase, tsize))
  {
    AddSized(a, tbase, tsize);
    AddChained(a, tbase, tsize);
    AddApart(a, tbase, tsize);
    AddInside(a, tbase, tsize);
    AddSpanned(a, tbase, tsize);
    AddTags(a, tbase, tsize);
    AddClasses(a, tbase, tsize);
  }

  // ---- `prepend_alloc`: a segment grows downwards by a live block and a remainder to be freed.

  function Prepend(a: Arena, e: int, tsize: nat, nb: nat, n: nat): Arena
    requires e in a.spans && nb < tsize
  {
    var p := a.spans[e].base - tsize;
    a.(head := a.head[p := Head(nb, true, true)][p + nb := Head(tsize - nb, true, true)],
       spans := a.spans[e := Span(p, a.spans[e].limit)],
       live := a.live[p := n][p + nb := 0])
  }

  ghost predicate PrependFits(a: Arena, e: int, tsize: nat, nb: nat, n: nat) {
    && e in a.spans && Region(a.spans[e].base - tsize, a.spans[e].limit) && tsize % 8 == 0 && nb % 8 == 0
    && MIN_CHUNK_SIZE <= nb && nb + MIN_CHUNK_SIZE <= tsize && n + CHUNK_OVERHEAD <= nb
    && Vacant(a, a.spans[e].base - tsize, a.spans[e].base, e)
  }

  lemma BelowBase(a: Arena, e: int, tsize: nat, nb: nat, n: nat, x: int)
    requires Inv(a) && PrependFits(a, e, tsize, nb, n) && x in a.head
    ensures Next(a, x) <= a.spans[e].base - tsize || x >= a.spans[e].base
    ensures Next(a, x) != a.spans[e].base - tsize && Next(a, x) != a.spans[e].base
    ensures tsize < SIZE_LIMIT && a.spans[e].base in a.head && a.spans[e].base % 8 == 0
  {
    assert Inside(a, x) && Sized(a, x) && Sized(a, a.spans[e].base);
    if Next(a, x) == a.spans[e].base {
      BaseNotBehind(a, x, e);
    }
  }

  lemma PrependTiled(a: Arena, e: int, tsize: nat, nb: nat, n: nat)
    requires Inv(a) && PrependFits(a, e, tsize, nb, n)
    ensures var a' := Prepend(a, e, tsize, nb, n); AllSized(a') && AllChained(a') && AllApart(a')
  {
    hide Inv, Prepend, Sized, Chained, Apart;
    var a' := Prepend(a, e, tsize, nb, n);
    forall x | x in a'.head
      ensures Sized(a', x) && Chained(a', x)
    {
      PrependTiledAt(a, e, tsize, nb, n, x);
    }
    forall x, y | x in a'.head && y in a'.head
      ensures Apart(a', x, y)
    {
      PrependApartAt(a, e, tsize, nb, n, x, y);
    }
  }

  lemma PrependTiledAt(a: Arena, e: int, tsize: nat, nb: nat, n: nat, x: int)
    requires Inv(a) && PrependFits(a, e, tsize, nb, n) && x in Prepend(a, e, tsize, nb, n).head
    ensures var a' := Prepend(a, e, tsize, nb, n); Sized(a', x) && Chained(a', x)
  {
    hide AllInside, AllFlagged, AllFooted, AllClassed, AllApart, Apart;
    BelowBase(a, e, tsize, nb, n, a.top);
    if x in a.head {
      BelowBase(a, e, tsize, nb, n, x);
      assert Sized(a, x) && Chained(a, x);
    }
  }

  lemma PrependApartAt(a: Arena, e: int, tsize: nat, nb: nat, n: nat, x: int, y: int)
    requires Inv(a) && PrependFits(a, e, tsize, nb, n)
    requires x in Prepend(a, e, tsize, nb, n).head && y in Prepend(a, e, tsize, nb, n).head
    ensures Apart(Prepend(a, e, tsize, nb, n), x, y)
  {
    hide AllInside, AllFlagged, AllFooted, AllClassed, AllChained;
    if x in a.head {
      BelowBase(a, e, tsize, nb, n, x);
    }
    if y in a.head {
      BelowBase(a, e, tsize, nb, n, y);
    }
    assert x in a.head && y in a.head ==> Apart(a, x, y);
  }

  lemma PrependInside(a: Arena, e: int, tsize: nat, nb: nat, n: nat)
    requires Inv(a) && PrependFits(a, e, tsize, nb, n)
    ensures AllInside(Prepend(a, e, tsize, nb, n))
  {
    var a' := Prepend(a, e, tsize, nb, n);
    BelowBase(a, e, tsize, nb, n, a.top);
    forall x | x in a'.head
      ensures Inside(a', x)
    {
      if x in a.head {
        BelowBase(a, e, tsize, nb, n, x);
        assert Inside(a, x);
        var f :| f in a.spans && a.spans[f].base <= x && Next(a, x) <= f;
        assert f in a'.spans && a'.spans[f].base <= x && Next(a', x) <= f;
      } else {
        assert e in a'.spans && a'.spans[e].base <= x && Next(a', x) <= e;
      }
    }
  }

  lemma PrependSpanned(a: Arena, e: int, tsize: nat, nb: nat, n: nat)
    requires Inv(a) && PrependFits(a, e, tsize, nb, n)
    ensures Spanned(Prepend(a, e, tsize, nb, n))
  {
    var a' := Prepend(a, e, tsize, nb, n);
    var p := a.spans[e].base - tsize;
    forall f | f in a'.spans
      ensures f !in a'.head && a'.spans[f].base in a'.head
    {
      if f != e {
        assert a.spans[f].limit <= p || a.spans[e].base <= a.spans[f].base;
      }
    }
  }

  lemma PrependTags(a: Arena, e: int, tsize: nat, nb: nat, n: nat)
    requires Inv(a) && PrependFits(a, e, tsize, nb, n)
    ensures var a' := Prepend(a, e, tsize, nb, n); AllFlagged(a') && AllFooted(a')
  {
    var a' := Prepend(a, e, tsize, nb, n);
    var b := a.spans[e].base;
    BelowBase(a, e, tsize, nb, n, b);
    assert Footed(a, b);
    if !a.head[b].pinuse {
      BelowBase(a, e, tsize, nb, n, b - a.foot[b]);
    }
    forall x | x in a'.head
      ensures Flagged(a', x)
    {
      if x in a.head {
        BelowBase(a, e, tsize, nb, n, x);
        assert Flagged(a, x) && Sized(a, x);
      }
    }
    forall x: int | x in a'.head
      ensures Footed(a', x)
    {
      if x in a.head {
        BelowBase(a, e, tsize, nb, n, x);
        assert Footed(a, x);
        if !a.head[x].pinuse {
          BelowBase(a, e, tsize, nb, n, x - a.foot[x]);
        }
      }
    }
  }

  lemma PrependClasses(a: Arena, e: int, tsize: nat, nb: nat, n: nat)
    requires Inv(a) && PrependFits(a, e, tsize, nb, n)
    ensures var a' := Prepend(a, e, tsize, nb, n); AllClassed(a') && Named(a')
  {
    var a' := Prepend(a, e, tsize, nb, n);
    var p := a.spans[e].base - tsize;
    BelowBase(a, e, tsize, nb, n, a.top);
    assert p !in a.head && p + nb !in a.head by {
      assert p in a.head ==> Sized(a, p);
      assert p + nb in a.head ==> Sized(a, p + nb);
      if p in a.head {
        BelowBase(a, e, tsize, nb, n, p);
      }
      if p + nb in a.head {
        BelowBase(a, e, tsize, nb, n, p + nb);
      }
    }
    forall x | x in a'.head
      ensures Classed(a', x)
    {
      if x in a.head {
        assert Classed(a, x);
      }
    }
  }

  lemma PrependOk(a: Arena, e: int, tsize: nat, nb: nat, n: nat)
    requires Inv(a) && PrependFits(a, e, tsize, nb, n)
    ensures Inv(Prepend(a, e, tsize, nb, n))
  {
    PrependTiled(a, e, tsize, nb, n);
    PrependInside(a, e, tsize, nb, n);
    PrependSpanned(a, e, tsize, nb, n);
    PrependTags(a, e, tsize, nb, n);
    PrependClasses(a, e, tsize, nb, n);
  }

  // ---- `release_unused_segments`: a segment whose only block is its record goes away.

  function Release(a: Arena, e: int): Arena
    requires e in a.spans && a.spans[e].base in a.head
  {
    var b := a.spans[e].base;
    var r := Next(a, b);
    Declassed(a, b).(head := a.head - {b, r}, spans := a.spans - {e}, pinned := a.pinned - {r})
  }

  predicate Releasable(a: Arena, e: int) {
    && e in a.spans && a.spans[e].base in a.head
    && var b := a.spans[e].base;
       b != a.top && Free(a, b) && Next(a, b) in a.pinned && Next(a, b) in a.head && Next(a, Next(a, b)) == e
  }

  lemma InReleased(a: Arena, e: int, x: int)
    requires Inv(a) && Releasable(a, e) && x in a.head
    ensures var b := a.spans[e].base;
            x == b || x == Next(a, b) || ((Next(a, x) <= b || x >= e) && Next(a, x) != b)
    ensures a.top + a.topsize != e && a.top != Next(a, a.spans[e].base)
  {
    var b := a.spans[e].base;
    var r := Next(a, b);
    assert Apart(a, x, b) && Apart(a, b, x) && Apart(a, x, r) && Apart(a, r, x) && Sized(a, x) && Sized(a, b);
    assert Classed(a, r) && Classed(a, a.top) && Apart(a, a.top, r) && Apart(a, r, a.top) && Sized(a, a.top)
           && Sized(a, r);
    if Next(a, x) == b {
      BaseNotBehind(a, x, e);
    }
  }

  lemma ReleaseTiled(a: Arena, e: int)
    requires Inv(a) && Releasable(a, e)
    ensures AllSized(Release(a, e)) && AllChained(Release(a, e)) && AllApart(Release(a, e))
  {
    var a' := Release(a, e);
    forall x | x in a'.head
      ensures Sized(a', x) && Chained(a', x)
    {
      InReleased(a, e, x);
      assert Sized(a, x) && Chained(a, x);
      assert Sized(a, a.spans[e].base) && Sized(a, Next(a, a.spans[e].base));
    }
    forall x, y | x in a'.head && y in a'.head
      ensures Apart(a', x, y)
    {
      assert Apart(a, x, y);
    }
  }

  lemma ReleaseInside(a: Arena, e: int)
    requires Inv(a) && Releasable(a, e)
    ensures AllInside(Release(a, e)) && Spanned(Release(a, e))
  {
    var a' := Release(a, e);
    var b := a.spans[e].base;
    assert Sized(a, b);
    forall x | x in a'.head
      ensures Inside(a', x)
    {
      InReleased(a, e, x);
      assert Inside(a, x) && Sized(a, x);
      var f :| f in a.spans && a.spans[f].base <= x && Next(a, x) <= f;
      assert f in a'.spans && a'.spans[f].base <= x && Next(a', x) <= f;
    }
    forall f | f in a'.spans
      ensures a'.spans[f].base in a'.head
    {
      BaseNotBehind(a, b, f);
    }
  }

  lemma ReleaseTags(a: Arena, e: int)
    requires Inv(a) && Releasable(a, e)
    ensures AllFlagged(Release(a, e)) && AllFooted(Release(a, e))
  {
    var a' := Release(a, e);
    var b := a.spans[e].base;
    forall x | x in a'.head
      ensures Flagged(a', x)
    {
      assert Flagged(a, x);
    }
    forall x: int | x in a'.head
      ensures Footed(a', x)
    {
      assert Footed(a, x) && Classed(a, Next(a, b));
      if !a.head[x].pinuse && x - a.foot[x] == b {
        InReleased(a, e, x);
      }
    }
  }

  lemma ReleaseClasses(a: Arena, e: int)
    requires Inv(a) && Releasable(a, e)
    ensures AllClassed(Release(a, e)) && Named(Release(a, e))
  {
    var a' := Release(a, e);
    var b := a.spans[e].base;
    InReleased(a, e, a.top);
    assert Classed(a, b) && Sized(a, b) && Classed(a, Next(a, b));
    assert a.dv != 0 ==> Classed(a, a.dv);
    forall x | x in a'.head
      ensures Classed(a', x)
    {
      assert Classed(a, x) && Sized(a, x);
    }
  }

  lemma ReleaseOk(a: Arena, e: int)
    requires Inv(a) && Releasable(a, e)
    ensures Inv(Release(a, e))
  {
    ReleaseTiled(a, e);
    ReleaseInside(a, e);
    ReleaseTags(a, e);
    ReleaseClasses(a, e);
  }
}
