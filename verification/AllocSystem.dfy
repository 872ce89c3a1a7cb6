/** What system memory does to the segment list and to the direct mappings. */
module AllocSystem {
  import opened AllocSizes
  import opened Heap
  import opened HeapSegments
  import opened HeapSystem

  const PAGE := 4096
  const DEFAULT_GRANULARITY := 0x2_0000
  const DEFAULT_MMAP_THRESHOLD := 0x2_0000

  /** A record of the segment list. The first one is kept in the allocator state, each other one
      in the pinned chunk `rec` at the end of its own segment. */
  datatype Segment = Segment(base: int, size: nat, rec: int)

  /** A block with a mapping of its own. */
  datatype Direct = Direct(psize: nat, mmsize: nat, request: nat)

  function SegEnd(segs: seq<Segment>, i: nat, te: int): int
    requires i < |segs|
  {
    if i == 0 then te else segs[i].rec + RECORD_SIZE
  }

  ghost predicate SegOk(segs: seq<Segment>, a: Arena, i: nat)
    requires i < |segs|
  {
    var e := SegEnd(segs, i, TopEnd(a));
    && e in a.spans && a.spans[e] == Span(segs[i].base, segs[i].base + segs[i].size)
    && segs[i].base % PAGE == 0 && segs[i].size % PAGE == 0
    && (i > 0 ==> segs[i].rec in a.pinned && segs[i].rec in a.head && a.head[segs[i].rec].size == RECORD_SIZE)
    && (i > 0 ==> segs[i].rec + TOP_FOOT_SIZE <= segs[i].base + segs[i].size)
  }

  ghost predicate SegsDistinct(segs: seq<Segment>) {
    forall i, j :: 0 <= i < j < |segs| ==> segs[i].base != segs[j].base
  }

  ghost predicate SegsCover(segs: seq<Segment>, a: Arena) {
    |segs| > 0 && forall e :: e in a.spans ==> exists i :: 0 <= i < |segs| && SegEnd(segs, i, TopEnd(a)) == e
  }

  /** The segment list is the list of all stretches; the first segment is the one of the top. */
  ghost predicate SegsOk(segs: seq<Segment>, a: Arena) {
    && SegsCover(segs, a) && SegsDistinct(segs)
    && (forall i {:trigger SegOk(segs, a, i)} :: 0 <= i < |segs| ==> SegOk(segs, a, i))
  }

  /** Direct mappings are apart from the segments and from each other. */
  ghost predicate DirectOk(direct: map<int, Direct>, segs: seq<Segment>) {
    && (forall p :: p in direct ==>
          && 0 < p && p % PAGE == 0 && direct[p].mmsize % PAGE == 0 && direct[p].psize + 32 == direct[p].mmsize
          && direct[p].request + 16 <= direct[p].psize)
    && (forall p, i :: p in direct && 0 <= i < |segs| ==>
          p + direct[p].mmsize <= segs[i].base || segs[i].base + segs[i].size <= p)
    && (forall p, q :: p in direct && q in direct && p < q ==> p + direct[p].mmsize <= q)
  }

  /** The region [b, b + s) is not part of any mapping; nor is it too large for a segment, alone or with one
      that it adjoins. */
  predicate Unmapped(segs: seq<Segment>, direct: map<int, Direct>, b: int, s: nat) {
    && 0 < b && b % PAGE == 0 && b + s <= ADDRESS_LIMIT && s <= SIZE_LIMIT
    && (forall i :: 0 <= i < |segs| && (segs[i].base + segs[i].size == b || b + s == segs[i].base) ==>
        segs[i].size + s <= SIZE_LIMIT)
    && (forall i :: 0 <= i < |segs| ==> segs[i].base + segs[i].size <= b || b + s <= segs[i].base)
    && (forall p :: p in direct ==> p + direct[p].mmsize <= b || b + s <= p)
  }

  // ---- Size rounding, with the wrap-around of size_t.

  function PageAlign(s: nat): nat {
    ((s + (PAGE - 1)) % WORD64) / PAGE * PAGE
  }

  function GranularityAlign(s: nat): nat {
    ((s + (DEFAULT_GRANULARITY - 1)) % WORD64) / DEFAULT_GRANULARITY * DEFAULT_GRANULARITY
  }

  /** The check for wrap around 0 in `direct_alloc` is complete. */
  lemma DirectSize(nb: nat)
    requires nb < WORD64
    ensures var mmsize := PageAlign((nb + 55) % WORD64);
            && mmsize % PAGE == 0 && (mmsize > nb <==> nb + 55 + (PAGE - 1) < WORD64)
            && (mmsize > nb ==> nb + 55 <= mmsize < nb + 55 + PAGE)
  {
  }

  /** So is the one in `alloc_sys`. */
  lemma SegmentSize(nb: nat)
    requires nb < WORD64
    ensures var rsize := GranularityAlign((nb + TOP_FOOT_SIZE + 1) % WORD64);
            && rsize % DEFAULT_GRANULARITY == 0 && (rsize > nb <==> nb + 65 + (DEFAULT_GRANULARITY - 1) < WORD64)
            && (rsize > nb ==> nb + 65 <= rsize < nb + 65 + DEFAULT_GRANULARITY)
  {
  }

  lemma GranularityIsPages(ext: nat)
    requires ext % DEFAULT_GRANULARITY == 0
    ensures ext % PAGE == 0
  {
    assert ext == PAGE * (32 * (ext / DEFAULT_GRANULARITY));
  }

  // ---- The segment of the top.

  lemma EndsDistinct(segs: seq<Segment>, a: Arena, i: nat, j: nat)
    requires SegsOk(segs, a) && i < |segs| && j < |segs| && i != j
    ensures SegEnd(segs, i, TopEnd(a)) != SegEnd(segs, j, TopEnd(a))
  {
    assert SegOk(segs, a, i) && SegOk(segs, a, j);
  }

  /** Where a segment lies, seen from the heap. */
  lemma UnmappedSpans(segs: seq<Segment>, direct: map<int, Direct>, a: Arena, b: int, s: nat)
    requires SegsOk(segs, a) && Unmapped(segs, direct, b, s)
    ensures forall f :: f in a.spans ==> a.spans[f].limit <= b || b + s <= a.spans[f].base
  {
    forall f | f in a.spans
      ensures a.spans[f].limit <= b || b + s <= a.spans[f].base
    {
      var i :| 0 <= i < |segs| && SegEnd(segs, i, TopEnd(a)) == f;
      assert SegOk(segs, a, i);
    }
  }

  /** Only the first segment holds the top. */
  lemma TopInFirst(segs: seq<Segment>, a: Arena, i: nat)
    requires SegsOk(segs, a) && Inv(a) && i < |segs|
    ensures segs[i].base <= a.top < segs[i].base + segs[i].size <==> i == 0
  {
    assert SegOk(segs, a, 0) && SegOk(segs, a, i);
    TopSpan(a);
    assert Sized(a, a.top);
    if i > 0 {
      EndsDistinct(segs, a, 0, i);
    }
  }

  /** The top's segment grows by a mapping right behind it. */
  lemma ExtendOk(segs: seq<Segment>, direct: map<int, Direct>, a: Arena, ext: nat)
    requires SegsOk(segs, a) && Inv(a) && ext % PAGE == 0
    requires Unmapped(segs, direct, segs[0].base + segs[0].size, ext)
    ensures TopFits(a, a.topsize + ext)
    ensures Vacant(a, a.top, a.top + a.topsize + ext + TOP_FOOT_SIZE, TopEnd(a))
    ensures Inv(ResizeTop(a, a.topsize + ext))
    ensures LiveKept(a, ResizeTop(a, a.topsize + ext))
  {
    hide SegsOk;
    TopSegment(segs, a);
    UnmappedSpans(segs, direct, a, segs[0].base + segs[0].size, ext);
    TopSpan(a);
    Classes8(a.topsize, ext);
    TopVacant(a, ext);
    hide Heap.Inv, SegsOk;
    ResizeTopOk(a, a.topsize + ext);
    ResizeKeepsLive(a, a.topsize + ext);
  }

  /** The first segment of the list is the one of the top. */
  lemma TopSegment(segs: seq<Segment>, a: Arena)
    requires SegsOk(segs, a) && Inv(a)
    ensures |segs| > 0 && TopEnd(a) in a.spans && a.spans[TopEnd(a)] == Span(segs[0].base, segs[0].base + segs[0].size)
    ensures segs[0].base + segs[0].size == a.top + a.topsize + TOP_FOOT_SIZE && a.topsize >= 8 && a.topsize % 8 == 0
  {
    assert SegOk(segs, a, 0) && Sized(a, a.top);
  }

  lemma TopVacant(a: Arena, ext: nat)
    requires Inv(a)
    requires forall f :: f in a.spans ==>
               a.spans[f].limit <= TopEnd(a) + TOP_FOOT_SIZE || TopEnd(a) + TOP_FOOT_SIZE + ext <= a.spans[f].base
    ensures Vacant(a, a.top, a.top + a.topsize + ext + TOP_FOOT_SIZE, TopEnd(a))
  {
    TopSpan(a);
  }

  lemma ResizeKeepsLive(a: Arena, ts: nat)
    requires Inv(a) && TopEnd(a) in a.spans
    ensures LiveKept(a, ResizeTop(a, ts))
  {
    assert Classed(a, a.top);
  }

  lemma Classes8(x: nat, y: nat)
    requires x % 8 == 0 && y % PAGE == 0
    ensures (x + y) % 8 == 0 && y % 8 == 0
  {
    EightDivides(y, y / PAGE);
  }

  lemma EightDivides(y: nat, k: nat)
    requires y == 4096 * k
    ensures y % 8 == 0
  {
    assert y == (512 * k) * 8;
  }

  /** No block was moved, resized, handed out or taken back. */
  ghost predicate LiveKept(a: Arena, a': Arena) {
    a'.live == a.live && forall q :: q in a.live && q in a.head ==> q in a'.head && a'.head[q].size == a.head[q].size
  }

  lemma ResizeSegs(segs: seq<Segment>, a: Arena, ts: nat, size: nat)
    requires SegsOk(segs, a) && Inv(a) && size % PAGE == 0
    requires segs[0].base + size == a.top + ts + TOP_FOOT_SIZE
    requires Inv(ResizeTop(a, ts)) && a.top + ts > segs[0].base
    requires forall f :: f in a.spans && f != TopEnd(a) ==> a.top + ts != f
    ensures SegsOk(segs[0 := segs[0].(size := size)], ResizeTop(a, ts))
  {
    var a', segs' := ResizeTop(a, ts), segs[0 := segs[0].(size := size)];
    TopSegment(segs, a);
    FirstPages(segs, a);
    forall i | 0 <= i < |segs'|
      ensures SegOk(segs', a', i)
    {
      if i > 0 {
        ResizedSegAt(segs, a, ts, i);
        SegmentMoves(segs, segs', a, a', i, i);
      }
    }
    hide Heap.Inv, SegOk;
    forall e | e in a'.spans
      ensures exists i :: 0 <= i < |segs'| && SegEnd(segs', i, TopEnd(a')) == e
    {
      if e == a.top + ts {
        assert SegEnd(segs', 0, TopEnd(a')) == e;
      } else {
        var i :| 0 <= i < |segs| && SegEnd(segs, i, TopEnd(a)) == e;
        assert SegEnd(segs', i, TopEnd(a')) == e;
      }
    }
  }

  lemma ResizedSegAt(segs: seq<Segment>, a: Arena, ts: nat, i: nat)
    requires SegsOk(segs, a) && Inv(a) && 0 < i < |segs| && TopEnd(a) in a.spans
    requires forall f :: f in a.spans && f != TopEnd(a) ==> a.top + ts != f
    ensures SegOk(segs, a, i)
    ensures var a', r := ResizeTop(a, ts), segs[i].rec;
            && r + RECORD_SIZE in a'.spans && r + RECORD_SIZE in a.spans
               && a'.spans[r + RECORD_SIZE] == a.spans[r + RECORD_SIZE]
            && r in a'.pinned && r in a.head && r in a'.head && a'.head[r].size == a.head[r].size
  {
    assert SegOk(segs, a, i);
    EndsDistinct(segs, a, 0, i);
    assert Classed(a, segs[i].rec) && Classed(a, a.top);
  }

  // ---- `add_segment` and the segment list.

  function Added(segs: seq<Segment>, a: Arena, tbase: int, tsize: nat): seq<Segment>
    requires |segs| > 0
  {
    [Segment(tbase, tsize, 0), segs[0].(rec := Retired(a))] + segs[1..]
  }

  lemma AddFits(segs: seq<Segment>, direct: map<int, Direct>, a: Arena, tbase: int, tsize: nat)
    requires SegsOk(segs, a) && Inv(a) && Unmapped(segs, direct, tbase, tsize)
    requires tsize % DEFAULT_GRANULARITY == 0 && tsize > 0
    ensures SegmentFits(a, tbase, tsize) && tsize % PAGE == 0
    ensures Inv(AddSegment(a, tbase, tsize)) && LiveKept(a, AddSegment(a, tbase, tsize))
  {
    hide Heap.Inv, SegsOk;
    UnmappedSpans(segs, direct, a, tbase, tsize);
    GranularityIsPages(tsize);
    Classes8(0, tbase);
    Classes8(0, tsize);
    AddSegmentOk(a, tbase, tsize);
    AddKeepsLive(a, tbase, tsize);
  }

  lemma AddKeepsLive(a: Arena, tbase: int, tsize: nat)
    requires Inv(a) && SegmentFits(a, tbase, tsize)
    ensures LiveKept(a, AddSegment(a, tbase, tsize))
  {
    RoomForRecord(a, tbase, tsize);
    assert Classed(a, a.top);
  }

  lemma AddedSegAt(segs: seq<Segment>, direct: map<int, Direct>, a: Arena, tbase: int, tsize: nat, i: nat)
    requires SegsOk(segs, a) && Inv(a) && Unmapped(segs, direct, tbase, tsize)
    requires SegmentFits(a, tbase, tsize) && tsize % PAGE == 0
    requires Inv(AddSegment(a, tbase, tsize)) && i < |segs| + 1
    ensures SegOk(Added(segs, a, tbase, tsize), AddSegment(a, tbase, tsize), i)
  {
    hide Heap.Inv, SegsOk, AddSegment, Retired;
    TopSegment(segs, a);
    FirstPages(segs, a);
    AddShape(a, tbase, tsize);
    var segs' := Added(segs, a, tbase, tsize);
    if i > 1 {
      OldSegAt(segs, a, tbase, tsize, i - 1);
      SegmentMoves(segs, segs', a, AddSegment(a, tbase, tsize), i - 1, i);
    } else if i == 1 {
      assert segs'[1] == segs[0].(rec := Retired(a));
    }
  }

  /** The two ends of stretches that are new, and the new record. */
  lemma AddShape(a: Arena, tbase: int, tsize: nat)
    requires Inv(a) && SegmentFits(a, tbase, tsize)
    ensures TopEnd(a) in a.spans && tsize > TOP_FOOT_SIZE && a.top in a.head
    ensures var a', sp, e := AddSegment(a, tbase, tsize), Retired(a), tbase + (tsize - TOP_FOOT_SIZE);
            && TopEnd(a') == e && e in a'.spans && a'.spans[e] == Span(tbase, tbase + tsize)
            && sp + RECORD_SIZE in a'.spans && a'.spans[sp + RECORD_SIZE] == a.spans[TopEnd(a)]
            && sp in a'.pinned && sp in a'.head && a'.head[sp].size == RECORD_SIZE && sp <= TopEnd(a)
  {
    RoomForRecord(a, tbase, tsize);
    NewEnds(a, tbase, tsize);
  }

  /** A segment other than the one of the old top. */
  lemma OldSegAt(segs: seq<Segment>, a: Arena, tbase: int, tsize: nat, j: nat)
    requires SegsOk(segs, a) && Inv(a) && SegmentFits(a, tbase, tsize) && 0 < j < |segs|
    ensures SegOk(segs, a, j) && TopEnd(a) in a.spans && tsize > TOP_FOOT_SIZE && a.top in a.head
    ensures var a', r := AddSegment(a, tbase, tsize), segs[j].rec;
            && r + RECORD_SIZE in a'.spans && r + RECORD_SIZE in a.spans
               && a'.spans[r + RECORD_SIZE] == a.spans[r + RECORD_SIZE]
            && r in a'.pinned && r in a.head && r in a'.head && a'.head[r].size == a.head[r].size
  {
    assert SegOk(segs, a, j);
    EndsDistinct(segs, a, 0, j);
    RoomForRecord(a, tbase, tsize);
    NewEnds(a, tbase, tsize);
    RecordStays(a, tbase, tsize, segs[j].rec);
    hide Heap.Inv, SegsOk, SegmentFits;
    SpanStays(a, tbase, tsize, segs[j].rec + RECORD_SIZE);
  }

  lemma SegmentMoves(segs: seq<Segment>, segs': seq<Segment>, a: Arena, a': Arena, j: nat, i: nat)
    requires 0 < j < |segs| && 0 < i < |segs'| && segs'[i] == segs[j] && SegOk(segs, a, j)
    requires var r := segs[j].rec;
             && r + RECORD_SIZE in a'.spans && r + RECORD_SIZE in a.spans
                && a'.spans[r + RECORD_SIZE] == a.spans[r + RECORD_SIZE]
             && r in a'.pinned && r in a.head && r in a'.head && a'.head[r].size == a.head[r].size
    ensures SegOk(segs', a', i)
  {
  }

  lemma FirstPages(segs: seq<Segment>, a: Arena)
    requires SegsOk(segs, a)
    ensures |segs| > 0 && segs[0].base % PAGE == 0 && segs[0].size % PAGE == 0
  {
    assert SegOk(segs, a, 0);
  }

  /** An older record chunk stays. */
  lemma RecordStays(a: Arena, tbase: int, tsize: nat, r: int)
    requires Inv(a) && SegmentFits(a, tbase, tsize) && r in a.pinned && r in a.head && TopEnd(a) in a.spans
    requires a.top in a.head
    ensures var a' := AddSegment(a, tbase, tsize); r in a'.pinned && r in a'.head && a'.head[r].size == a.head[r].size
  {
    RoomForRecord(a, tbase, tsize);
    assert Classed(a, r) && Classed(a, a.top);
  }

  /** So does the segment that ends behind it. */
  lemma SpanStays(a: Arena, tbase: int, tsize: nat, e: int)
    requires TopEnd(a) in a.spans && tsize > TOP_FOOT_SIZE && a.top in a.head && e in a.spans && e != TopEnd(a)
    requires var e1, e2 := Retired(a) + RECORD_SIZE, tbase + (tsize - TOP_FOOT_SIZE);
             e2 !in a.spans && (e1 in a.spans ==> e1 == TopEnd(a))
    ensures e in AddSegment(a, tbase, tsize).spans && AddSegment(a, tbase, tsize).spans[e] == a.spans[e]
  {
  }

  lemma AddedSegs(segs: seq<Segment>, direct: map<int, Direct>, a: Arena, tbase: int, tsize: nat)
    requires SegsOk(segs, a) && Inv(a) && Unmapped(segs, direct, tbase, tsize)
    requires SegmentFits(a, tbase, tsize) && tsize % PAGE == 0
    requires Inv(AddSegment(a, tbase, tsize))
    ensures SegsOk(Added(segs, a, tbase, tsize), AddSegment(a, tbase, tsize))
  {
    AddShape(a, tbase, tsize);
    hide Heap.Inv, SegOk, AddSegment;
    var a', segs' := AddSegment(a, tbase, tsize), Added(segs, a, tbase, tsize);
    forall i | 0 <= i < |segs'|
      ensures SegOk(segs', a', i)
    {
      AddedSegAt(segs, direct, a, tbase, tsize, i);
    }
    AddedCover(segs, a, tbase, tsize);
    AddedDistinct(segs, direct, a, tbase, tsize);
  }

  lemma AddedDistinct(segs: seq<Segment>, direct: map<int, Direct>, a: Arena, tbase: int, tsize: nat)
    requires SegsOk(segs, a) && Inv(a) && Unmapped(segs, direct, tbase, tsize) && tsize > 0
    ensures SegsDistinct(Added(segs, a, tbase, tsize))
  {
    var segs' := Added(segs, a, tbase, tsize);
    forall i | 1 <= i < |segs'|
      ensures segs'[i].base == segs[i - 1].base != tbase
    {
      SegmentNotEmpty(segs, a, i - 1);
    }
  }

  lemma SegmentNotEmpty(segs: seq<Segment>, a: Arena, i: nat)
    requires SegsOk(segs, a) && Inv(a) && i < |segs|
    ensures segs[i].size > 0
  {
    assert SegOk(segs, a, i);
  }

  lemma AddedCover(segs: seq<Segment>, a: Arena, tbase: int, tsize: nat)
    requires SegsOk(segs, a) && Inv(a) && SegmentFits(a, tbase, tsize)
    ensures SegsCover(Added(segs, a, tbase, tsize), AddSegment(a, tbase, tsize))
  {
    var a', segs' := AddSegment(a, tbase, tsize), Added(segs, a, tbase, tsize);
    forall e | e in a'.spans
      ensures exists i :: 0 <= i < |segs'| && SegEnd(segs', i, TopEnd(a')) == e
    {
      if e == TopEnd(a') {
        assert SegEnd(segs', 0, TopEnd(a')) == e;
      } else if e == Retired(a) + RECORD_SIZE {
        assert SegEnd(segs', 1, TopEnd(a')) == e;
      } else {
        var i :| 0 <= i < |segs| && SegEnd(segs, i, TopEnd(a)) == e;
        assert i > 0 && segs'[i + 1] == segs[i];
        assert SegEnd(segs', i + 1, TopEnd(a')) == e;
      }
    }
  }

  // ---- `prepend_alloc` and the segment list.

  function Lowered(segs: seq<Segment>, i: nat, tbase: int, tsize: nat): seq<Segment>
    requires i < |segs|
  {
    segs[i := Segment(tbase, segs[i].size + tsize, segs[i].rec)]
  }

  lemma LowerFits(segs: seq<Segment>, direct: map<int, Direct>, a: Arena, i: nat, tbase: int, tsize: nat, nb: nat,
                  n: nat)
    requires SegsOk(segs, a) && Inv(a) && Unmapped(segs, direct, tbase, tsize) && i < |segs|
    requires tsize % DEFAULT_GRANULARITY == 0 && segs[i].base == tbase + tsize
    requires nb % 8 == 0 && MIN_CHUNK_SIZE <= nb && nb + TOP_FOOT_SIZE + 1 <= tsize && n + CHUNK_OVERHEAD <= nb
    ensures PrependFits(a, SegEnd(segs, i, TopEnd(a)), tsize, nb, n) && tsize % PAGE == 0
    ensures var a' := Prepend(a, SegEnd(segs, i, TopEnd(a)), tsize, nb, n);
            Inv(a') && tbase !in a.head && tbase + nb !in a.head && tbase + nb in a'.live && a'.head[tbase + nb].pinuse
  {
    hide Heap.Inv, SegsOk;
    UnmappedSpans(segs, direct, a, tbase, tsize);
    SegAt(segs, a, i);
    GranularityIsPages(tsize);
    Classes8(0, tsize);
    var e := SegEnd(segs, i, TopEnd(a));
    RegionAt(a, e);
    PrependOk(a, e, tsize, nb, n);
    PrependFresh(a, e, tsize, nb, n);
  }

  lemma RegionAt(a: Arena, e: int)
    requires Inv(a) && e in a.spans
    ensures Region(a.spans[e].base, a.spans[e].limit)
  {
  }

  lemma PrependFresh(a: Arena, e: int, tsize: nat, nb: nat, n: nat)
    requires Inv(a) && PrependFits(a, e, tsize, nb, n)
    ensures var p := a.spans[e].base - tsize; p !in a.head && p + nb !in a.head
  {
    var p := a.spans[e].base - tsize;
    assert (p in a.head ==> Sized(a, p)) && (p + nb in a.head ==> Sized(a, p + nb));
    if p in a.head {
      BelowBase(a, e, tsize, nb, n, p);
    }
    if p + nb in a.head {
      BelowBase(a, e, tsize, nb, n, p + nb);
    }
  }

  ghost predicate Lowerable(segs: seq<Segment>, a: Arena, i: nat, tsize: nat, nb: nat, n: nat) {
    && SegsOk(segs, a) && Inv(a) && i < |segs| && tsize % PAGE == 0
    && PrependFits(a, SegEnd(segs, i, TopEnd(a)), tsize, nb, n)
    && (forall j :: 0 <= j < |segs| ==> segs[j].base != segs[i].base - tsize)
    && segs[i].base - tsize !in a.head && segs[i].base - tsize + nb !in a.head
  }

  lemma LoweredSegAt(segs: seq<Segment>, a: Arena, i: nat, tsize: nat, nb: nat, n: nat, j: nat)
    requires Lowerable(segs, a, i, tsize, nb, n) && j < |segs|
    ensures SegOk(Lowered(segs, i, segs[i].base - tsize, tsize), Prepend(a, SegEnd(segs, i, TopEnd(a)), tsize, nb, n),
                  j)
  {
    hide Heap.Inv, SegsOk;
    SegAt(segs, a, i);
    SegAt(segs, a, j);
    if j != i {
      EndsDistinct(segs, a, i, j);
    }
    RecordApart(a, SegEnd(segs, i, TopEnd(a)), tsize, nb, n);
  }

  lemma SegAt(segs: seq<Segment>, a: Arena, i: nat)
    requires SegsOk(segs, a) && i < |segs|
    ensures SegOk(segs, a, i)
  {
  }

  /** The new chunks are none that were there. */
  lemma RecordApart(a: Arena, e: int, tsize: nat, nb: nat, n: nat)
    requires PrependFits(a, e, tsize, nb, n)
    ensures var a', p := Prepend(a, e, tsize, nb, n), a.spans[e].base - tsize;
            && a'.pinned == a.pinned && TopEnd(a') == TopEnd(a) && a'.spans == a.spans[e := Span(p, a.spans[e].limit)]
            && forall r :: r in a.head && r != p && r != p + nb ==> r in a'.head && a'.head[r] == a.head[r]
  {
  }

  lemma LoweredSegs(segs: seq<Segment>, a: Arena, i: nat, tsize: nat, nb: nat, n: nat)
    requires Lowerable(segs, a, i, tsize, nb, n)
    ensures SegsOk(Lowered(segs, i, segs[i].base - tsize, tsize), Prepend(a, SegEnd(segs, i, TopEnd(a)), tsize, nb, n))
  {
    hide Heap.Inv, SegOk;
    var e := SegEnd(segs, i, TopEnd(a));
    var a', segs' := Prepend(a, e, tsize, nb, n), Lowered(segs, i, segs[i].base - tsize, tsize);
    forall j | 0 <= j < |segs'|
      ensures SegOk(segs', a', j)
    {
      LoweredSegAt(segs, a, i, tsize, nb, n, j);
    }
    forall f | f in a'.spans
      ensures exists j :: 0 <= j < |segs'| && SegEnd(segs', j, TopEnd(a')) == f
    {
      var j :| 0 <= j < |segs| && SegEnd(segs, j, TopEnd(a)) == f;
      assert SegEnd(segs', j, TopEnd(a')) == f;
    }
  }

  // ---- `release_unused_segments` and the segment list.

  /** The first chunk of a later segment is free and reaches its record. */
  lemma Unused(segs: seq<Segment>, a: Arena, i: nat)
    requires SegsOk(segs, a) && Inv(a) && 0 < i < |segs|
    requires segs[i].base in a.head && Free(a, segs[i].base)
    requires Next(a, segs[i].base) >= segs[i].base + segs[i].size - TOP_FOOT_SIZE
    ensures Releasable(a, SegEnd(segs, i, TopEnd(a))) && Next(a, segs[i].base) == segs[i].rec
    ensures a.head[segs[i].base].size >= PAGE - TOP_FOOT_SIZE && segs[i].base != a.top
  {
    var b, r := segs[i].base, segs[i].rec;
    assert SegOk(segs, a, i) && Classed(a, r) && Sized(a, b) && Sized(a, r) && Inside(a, r);
    assert Apart(a, b, r) && Apart(a, r, b);
    TopInFirst(segs, a, i);
    BaseBefore(segs, a, i);
  }

  lemma BaseBefore(segs: seq<Segment>, a: Arena, i: nat)
    requires SegsOk(segs, a) && Inv(a) && 0 < i < |segs|
    ensures segs[i].base in a.head && segs[i].base <= segs[i].rec && segs[i].size >= PAGE
  {
    assert SegOk(segs, a, i) && Sized(a, segs[i].rec) && Inside(a, segs[i].rec);
  }

  lemma BaseIsChunk(segs: seq<Segment>, a: Arena, i: nat)
    requires SegsOk(segs, a) && Inv(a) && i < |segs|
    ensures segs[i].base in a.head
  {
    assert SegOk(segs, a, i);
  }

  function Dropped(segs: seq<Segment>, i: nat): seq<Segment>
    requires i < |segs|
  {
    segs[..i] + segs[i + 1..]
  }

  // ---- What is given back to the system.

  function TotalSize(segs: seq<Segment>): nat {
    if segs == [] then 0 else segs[0].size + TotalSize(segs[1..])
  }

  lemma {:induction false} DroppedTotal(segs: seq<Segment>, i: nat)
    requires i < |segs|
    ensures TotalSize(Dropped(segs, i)) + segs[i].size == TotalSize(segs)
  {
    if i > 0 {
      DroppedTotal(segs[1..], i - 1);
      assert Dropped(segs, i)[1..] == Dropped(segs[1..], i - 1);
    } else {
      assert Dropped(segs, 0) == segs[1..];
    }
  }

  lemma {:induction false} ReplacedTotal(segs: seq<Segment>, i: nat, s: Segment)
    requires i < |segs|
    ensures TotalSize(segs[i := s]) + segs[i].size == TotalSize(segs) + s.size
  {
    if i == 0 {
      assert segs[0 := s][1..] == segs[1..];
    } else {
      ReplacedTotal(segs[1..], i - 1, s);
      assert segs[i := s][1..] == segs[1..][i - 1 := s];
    }
  }

  lemma AddedTotal(segs: seq<Segment>, s: Segment, rec: int)
    requires segs != []
    ensures TotalSize([s, segs[0].(rec := rec)] + segs[1..]) == TotalSize(segs) + s.size
  {
    var t := segs[0 := segs[0].(rec := rec)];
    ReplacedTotal(segs, 0, segs[0].(rec := rec));
    assert [s, segs[0].(rec := rec)] + segs[1..] == [s] + t;
    assert ([s] + t)[1..] == t;
  }

  ghost predicate NoBlockIn(live: map<int, nat>, s: Segment) {
    forall q :: q in live ==> !(s.base <= q < s.base + s.size)
  }

  /** A segment that is taken up by one free chunk holds no block. */
  lemma UnusedNoBlock(segs: seq<Segment>, a: Arena, i: nat)
    requires SegsOk(segs, a) && Inv(a) && 0 < i < |segs|
    requires segs[i].base in a.head && Free(a, segs[i].base)
    requires Next(a, segs[i].base) >= segs[i].base + segs[i].size - TOP_FOOT_SIZE
    ensures NoBlockIn(a.live, segs[i])
  {
    Unused(segs, a, i);
    assert SegOk(segs, a, i);
    forall q | q in a.live
      ensures !(segs[i].base <= q < segs[i].base + segs[i].size)
    {
      NoBlockAt(segs, a, i, q);
    }
  }

  lemma NoBlockAt(segs: seq<Segment>, a: Arena, i: nat, q: int)
    requires 0 < i < |segs| && SegOk(segs, a, i) && Inv(a) && q in a.live
    requires segs[i].base in a.head && Free(a, segs[i].base) && Next(a, segs[i].base) == segs[i].rec
    ensures !(segs[i].base <= q < segs[i].base + segs[i].size)
  {
    hide AllFlagged, AllFooted, AllChained;
    var b, r := segs[i].base, segs[i].rec;
    assert Classed(a, q) && Classed(a, b) && Classed(a, r) && Inside(a, q);
    assert Apart(a, b, q) && Apart(a, r, q) && Sized(a, q);
  }

  /** The segments are those of segs0 but for some without blocks, of the size `released` altogether. */
  ghost predicate Pruned(segs0: seq<Segment>, segs: seq<Segment>, live: map<int, nat>, released: nat) {
    && segs0 != [] && segs != [] && segs[0] == segs0[0] && TotalSize(segs) + released == TotalSize(segs0)
    && (forall s :: s in segs ==> s in segs0)
    && (forall s :: s in segs0 && s !in segs ==> NoBlockIn(live, s))
  }

  lemma PrunedOne(segs0: seq<Segment>, segs: seq<Segment>, live: map<int, nat>, released: nat, i: nat)
    requires Pruned(segs0, segs, live, released) && 0 < i < |segs| && NoBlockIn(live, segs[i])
    ensures Pruned(segs0, Dropped(segs, i), live, released + segs[i].size)
  {
    DroppedTotal(segs, i);
    var t := Dropped(segs, i);
    forall s | s in segs
      ensures s == segs[i] || s in t
    {
      var k :| 0 <= k < |segs| && segs[k] == s;
      if k < i {
        assert t[k] == s;
      } else if k > i {
        assert t[k - 1] == s;
      }
    }
  }

  lemma DroppedSegs(segs: seq<Segment>, a: Arena, i: nat)
    requires SegsOk(segs, a) && Inv(a) && 0 < i < |segs|
    requires Releasable(a, SegEnd(segs, i, TopEnd(a)))
    requires segs[i].base in a.head && Next(a, segs[i].base) == segs[i].rec
    ensures SegsOk(Dropped(segs, i), Release(a, SegEnd(segs, i, TopEnd(a))))
  {
    hide Heap.Inv, SegOk, SegsDistinct;
    var e := SegEnd(segs, i, TopEnd(a));
    var a', segs' := Release(a, e), Dropped(segs, i);
    forall j | 0 <= j < |segs'|
      ensures SegOk(segs', a', j)
    {
      DroppedSegAt(segs, a, i, j);
    }
    DroppedDistinct(segs, i);
    forall f | f in a'.spans
      ensures exists j :: 0 <= j < |segs'| && SegEnd(segs', j, TopEnd(a')) == f
    {
      var j :| 0 <= j < |segs| && SegEnd(segs, j, TopEnd(a)) == f;
      var j' := if j < i then j else j - 1;
      assert j != i && segs'[j'] == segs[j];
      assert SegEnd(segs', j', TopEnd(a')) == f;
    }
  }

  lemma DroppedDistinct(segs: seq<Segment>, i: nat)
    requires SegsDistinct(segs) && i < |segs|
    ensures SegsDistinct(Dropped(segs, i))
  {
  }

  lemma DroppedSegAt(segs: seq<Segment>, a: Arena, i: nat, j: nat)
    requires SegsOk(segs, a) && Inv(a) && 0 < i < |segs| && j < |segs| - 1
    requires Releasable(a, SegEnd(segs, i, TopEnd(a)))
    requires segs[i].base in a.head && Next(a, segs[i].base) == segs[i].rec
    ensures SegOk(Dropped(segs, i), Release(a, SegEnd(segs, i, TopEnd(a))), j)
  {
    var k := if j < i then j else j + 1;
    assert Dropped(segs, i)[j] == segs[k];
    assert SegOk(segs, a, i) && SegOk(segs, a, k);
    EndsDistinct(segs, a, i, k);
    if k > 0 {
      assert Classed(a, segs[k].rec) && Classed(a, segs[i].base);
    }
  }

  lemma DroppedDirect(direct: map<int, Direct>, segs: seq<Segment>, i: nat)
    requires DirectOk(direct, segs) && i < |segs|
    ensures DirectOk(direct, Dropped(segs, i))
  {
    forall p, j | p in direct && 0 <= j < |segs| - 1
      ensures p + direct[p].mmsize <= Dropped(segs, i)[j].base
              || Dropped(segs, i)[j].base + Dropped(segs, i)[j].size <= p
    {
      assert Dropped(segs, i)[j] == segs[if j < i then j else j + 1];
    }
  }

  /** A victim that is binned instead, after a failed attempt to unmap its segment. */
  function BinVictim(a: Arena): Arena {
    a.(dv := 0, dvsize := 0, binned := a.binned[a.dv := a.dvsize])
  }

  lemma BinVictimOk(a: Arena)
    requires Inv(a) && a.dv != 0
    ensures Inv(BinVictim(a))
  {
    var a' := BinVictim(a);
    SameTiling(a, a');
    assert Classed(a, a.dv) && Sized(a, a.dv);
    forall x | x in a'.head
      ensures Flagged(a', x) && Footed(a', x) && Classed(a', x)
    {
      assert Flagged(a, x) && Footed(a, x) && Classed(a, x) && Sized(a, x);
    }
  }
}
