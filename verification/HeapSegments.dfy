/** Steps of the heap that resize blocks or change the segments it is made of. */
module HeapSegments {
  import opened AllocSizes
  import opened Heap

  const RECORD_SIZE := 32  // pad_request(sizeof(struct malloc_segment))

  // ---- Resizing a live block in place.

  /** Only the request changes. */
  function Rename(a: Arena, p: int, n: nat): Arena {
    a.(live := a.live[p := n])
  }

  lemma RenameOk(a: Arena, p: int, n: nat)
    requires Inv(a) && p in a.live && n + CHUNK_OVERHEAD <= a.head[p].size
    ensures Inv(Rename(a, p, n))
  {
    var a' := Rename(a, p, n);
    SameTiling(a, a');
    forall x | x in a'.head
      ensures Flagged(a', x) && Footed(a', x) && Classed(a', x)
    {
      assert Flagged(a, x) && Footed(a, x) && Classed(a, x);
    }
  }

  /** The tail of p becomes a live block of its own, to be freed. */
  function CutLive(a: Arena, p: int, nb: nat, n: nat): Arena
    requires p in a.head && nb < a.head[p].size
  {
    var r := p + nb;
    a.(head := a.head[p := Head(nb, a.head[p].pinuse, true)][r := Head(a.head[p].size - nb, true, true)],
       live := a.live[p := n][r := 0])
  }

  lemma CutLiveOk(a: Arena, p: int, nb: nat, n: nat)
    requires Inv(a) && p in a.live && nb % 8 == 0 && MIN_CHUNK_SIZE <= nb
    requires nb + MIN_CHUNK_SIZE <= a.head[p].size && n + CHUNK_OVERHEAD <= nb
    ensures p + nb !in a.head && Inv(CutLive(a, p, nb, n))
  {
    var a' := CutLive(a, p, nb, n);
    assert Classed(a, p) && Sized(a, p) && Flagged(a, p) && Footed(a, p) && Chained(a, p);
    assert p + nb in a.head ==> Apart(a, p, p + nb);
    CutTiled(a, a', p, nb);
    forall x | x in a'.head
      ensures Flagged(a', x)
    {
      if x != p + nb {
        assert Flagged(a, x) && Apart(a, x, p) && Apart(a, p, x) && Sized(a, x);
      }
    }
    forall x | x in a'.head
      ensures Footed(a', x)
    {
      if x != p + nb {
        assert Footed(a, x);
      }
    }
    CutLiveClasses(a, p, nb, n);
  }

  lemma CutLiveClasses(a: Arena, p: int, nb: nat, n: nat)
    requires Inv(a) && p in a.live && MIN_CHUNK_SIZE <= nb
    requires nb + MIN_CHUNK_SIZE <= a.head[p].size && n + CHUNK_OVERHEAD <= nb && p + nb !in a.head
    ensures AllClassed(CutLive(a, p, nb, n)) && Named(CutLive(a, p, nb, n))
  {
    var a' := CutLive(a, p, nb, n);
    assert Classed(a, p) && Classed(a, a.top);
    assert Sized(a, p);
    assert a.dv != 0 ==> Classed(a, a.dv);
    forall x | x in a'.head
      ensures Classed(a', x)
    {
      if x != p + nb {
        assert Classed(a, x);
      }
    }
  }

  /** p grows into the top behind it. */
  function GrowIntoTop(a: Arena, p: int, nb: nat, n: nat): Arena
    requires p in a.head
  {
    var r := p + nb;
    var rs := if a.head[p].size + a.topsize > nb then a.head[p].size + a.topsize - nb else 0;
    a.(head := (a.head - {a.top})[p := Head(nb, a.head[p].pinuse, true)][r := Head(rs, true, false)],
       top := r, topsize := rs, live := a.live[p := n])
  }

  predicate Growable(a: Arena, p: int, nb: nat, n: nat) {
    && p in a.live && p in a.head && Next(a, p) == a.top && nb % 8 == 0
    && a.head[p].size < nb < a.head[p].size + a.topsize && n + CHUNK_OVERHEAD <= nb
  }

  /** No chunk other than the top lies behind p's end in its stretch. */
  lemma AboveTop(a: Arena, p: int, x: int)
    requires Inv(a) && p in a.live && Next(a, p) == a.top && x in a.head
    ensures x == p || x == a.top || Next(a, x) <= p || x >= a.top + a.topsize
    ensures x != p && x != a.top ==> Next(a, x) != a.top
  {
    assert Apart(a, x, p) && Apart(a, p, x) && Apart(a, a.top, x) && Apart(a, x, a.top) && Sized(a, x) && Sized(a, p);
  }

  /** The grown block and the new top fit where the old ones were. */
  lemma GrowFits(a: Arena, p: int, nb: nat, n: nat)
    requires Inv(a) && Growable(a, p, nb, n)
    ensures nb >= MIN_CHUNK_SIZE && p + nb > a.top && p > 0 && p % 8 == 0 && p != a.top
    ensures (p + nb) % 8 == 0 && (a.head[p].size + a.topsize - nb) % 8 == 0
    ensures a.head[p].size + a.topsize < SIZE_LIMIT
  {
    assert Sized(a, p) && Sized(a, a.top) && Classed(a, p);
    Multiples(p, nb, a.head[p].size, a.topsize);
    MergedWithTop(a, p);
  }

  lemma Multiples(p: int, nb: nat, s: nat, t: nat)
    requires p % 8 == 0 && nb % 8 == 0 && s % 8 == 0 && t % 8 == 0
    ensures (p + nb) % 8 == 0 && (s + t - nb) % 8 == 0
  {
  }

  lemma MergedWithTop(a: Arena, p: int)
    requires Inv(a) && p in a.live && p in a.head && Next(a, p) == a.top
    ensures a.head[p].size + a.topsize < SIZE_LIMIT
  {
    assert Inside(a, p) && Sized(a, p);
    var e :| e in a.spans && a.spans[e].base <= p && Next(a, p) <= e;
    NextInside(a, p, e);
  }

  lemma GrowSized(a: Arena, p: int, nb: nat, n: nat)
    requires Inv(a) && Growable(a, p, nb, n)
    ensures AllSized(GrowIntoTop(a, p, nb, n)) && AllChained(GrowIntoTop(a, p, nb, n))
  {
    var a' := GrowIntoTop(a, p, nb, n);
    GrowFits(a, p, nb, n);
    assert Classed(a, p) && Classed(a, a.top);
    forall x | x in a'.head
      ensures Sized(a', x)
    {
      if x != p + nb {
        assert Sized(a, x);
      }
    }
    forall x | x in a'.head
      ensures Chained(a', x)
    {
      if x != p + nb {
        assert Chained(a, x);
        AboveTop(a, p, x);
      }
    }
  }

  lemma GrowInside(a: Arena, p: int, nb: nat, n: nat)
    requires Inv(a) && Growable(a, p, nb, n)
    ensures AllInside(GrowIntoTop(a, p, nb, n))
  {
    var a' := GrowIntoTop(a, p, nb, n);
    assert Sized(a, p) && Inside(a, p);
    var e :| e in a.spans && a.spans[e].base <= p && Next(a, p) <= e;
    NextInside(a, p, e);
    forall x | x in a'.head
      ensures Inside(a', x)
    {
      if x != p && x != p + nb {
        assert Inside(a, x);
      }
    }
  }

  lemma GrowSpanned(a: Arena, p: int, nb: nat, n: nat)
    requires Inv(a) && Growable(a, p, nb, n)
    ensures Spanned(GrowIntoTop(a, p, nb, n))
  {
    var a' := GrowIntoTop(a, p, nb, n);
    assert Sized(a, p);
    forall f | f in a'.spans
      ensures a'.spans[f].base in a'.head && f !in a'.head
    {
      BaseNotBehind(a, p, f);
      SpanEndOutside(a, a.top, f);
      SpanEndOutside(a, p, f);
    }
  }

  lemma GrowApart(a: Arena, p: int, nb: nat, n: nat)
    requires Inv(a) && Growable(a, p, nb, n)
    ensures AllApart(GrowIntoTop(a, p, nb, n))
  {
    var a' := GrowIntoTop(a, p, nb, n);
    assert Sized(a, p);
    forall x, y | x in a'.head && y in a'.head
      ensures Apart(a', x, y)
    {
      if x in a.head {
        AboveTop(a, p, x);
      }
      if y in a.head {
        AboveTop(a, p, y);
      }
      assert x in a.head && y in a.head ==> Apart(a, x, y);
    }
  }

  lemma GrowTags(a: Arena, p: int, nb: nat, n: nat)
    requires Inv(a) && Growable(a, p, nb, n)
    ensures AllFlagged(GrowIntoTop(a, p, nb, n)) && AllFooted(GrowIntoTop(a, p, nb, n))
  {
    var a' := GrowIntoTop(a, p, nb, n);
    assert Sized(a, p) && Classed(a, p) && Footed(a, p) && Spanned(a);
    forall x | x in a'.head
      ensures Flagged(a', x)
    {
      if x != p + nb {
        assert Flagged(a, x) && Sized(a, x);
        AboveTop(a, p, x);
      }
    }
    forall x: int | x in a'.head
      ensures Footed(a', x)
    {
      if x != p + nb {
        assert Footed(a, x);
        if !a.head[x].pinuse {
          AboveTop(a, p, x - a.foot[x]);
        }
      }
    }
  }

  lemma GrowClasses(a: Arena, p: int, nb: nat, n: nat)
    requires Inv(a) && Growable(a, p, nb, n)
    ensures AllClassed(GrowIntoTop(a, p, nb, n)) && Named(GrowIntoTop(a, p, nb, n))
  {
    var a' := GrowIntoTop(a, p, nb, n);
    var r := p + nb;
    assert Sized(a, p) && Classed(a, p) && Classed(a, a.top);
    assert a.dv != 0 ==> Classed(a, a.dv);
    assert r in a.head ==> r == a.top by {
      if r in a.head {
        AboveTop(a, p, r);
      }
    }
    forall x | x in a'.head
      ensures Classed(a', x)
    {
      if x in a.head {
        assert Classed(a, x) && Sized(a, x);
      }
    }
  }

  lemma GrowOk(a: Arena, p: int, nb: nat, n: nat)
    requires Inv(a) && Growable(a, p, nb, n)
    ensures Inv(GrowIntoTop(a, p, nb, n))
  {
    GrowSized(a, p, nb, n);
    GrowInside(a, p, nb, n);
    GrowSpanned(a, p, nb, n);
    GrowApart(a, p, nb, n);
    GrowTags(a, p, nb, n);
    GrowClasses(a, p, nb, n);
  }
}
