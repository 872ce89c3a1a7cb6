/** The boundary-tagged heap as a value: chunk heads and footers, the designated victim, the top
    chunk, and which chunks are binned, live or held by the allocator itself. */
module Heap {
  import opened AllocSizes

  const TOP_FOOT_SIZE := 64  // room for a segment record chunk and fenceposts behind the top

  /** The head word of a chunk: its size with the PINUSE and CINUSE bits. */
  datatype Head = Head(size: nat, pinuse: bool, cinuse: bool)

  /** The bounds of a segment. */
  datatype Span = Span(base: int, limit: int)

  /** `head` and `foot` are the boundary tags by chunk address. `binned` gives the sizes of the
      chunks in the bins. `spans` maps the end of the tiled stretch of each segment to the bounds
      of the segment; what lies between the end and the limit is padding.
      `live` maps the chunks handed out to the bytes asked for; `pinned` chunks hold the
      allocator's own records. */
  datatype Arena = Arena(
    head: map<int, Head>, foot: map<int, nat>,
    dv: int, dvsize: nat, top: int, topsize: nat,
    binned: map<int, nat>, spans: map<int, Span>,
    live: map<int, nat>, pinned: set<int>)

  function Next(a: Arena, c: int): int
    requires c in a.head
  {
    c + a.head[c].size
  }

  predicate Free(a: Arena, c: int)
    requires c in a.head
  {
    !a.head[c].cinuse
  }

  predicate Sized(a: Arena, c: int)
    requires c in a.head
  {
    var s := a.head[c].size;
    0 < c && c % 8 == 0 && s % 8 == 0 && 8 <= s < SIZE_LIMIT && (c != a.top ==> s >= MIN_CHUNK_SIZE)
  }

  /** The chunk lies in a tiled stretch. */
  ghost predicate Inside(a: Arena, c: int)
    requires c in a.head
  {
    exists e :: e in a.spans && a.spans[e].base <= c && Next(a, c) <= e
  }

  /** Behind every chunk starts the next one; only the top and pinned chunks end a stretch. */
  predicate Chained(a: Arena, c: int)
    requires c in a.head
  {
    Next(a, c) in a.head || (Next(a, c) in a.spans && (c == a.top || c in a.pinned))
  }

  /** The PINUSE bit of a chunk equals the CINUSE bit of the chunk before it. */
  predicate Flagged(a: Arena, c: int)
    requires c in a.head
  {
    Next(a, c) in a.head ==> a.head[Next(a, c)].pinuse == a.head[c].cinuse
  }

  /** Behind a free chunk, the footer holds its size; and no two free chunks are adjacent. */
  predicate Footed(a: Arena, c: int)
    requires c in a.head
  {
    if a.head[c].pinuse then true
    else
      && a.head[c].cinuse
      && c in a.foot && a.foot[c] > 0 && c - a.foot[c] in a.head
      && a.head[c - a.foot[c]].size == a.foot[c] && !a.head[c - a.foot[c]].cinuse
  }

  /** A chunk is exactly one of: the top, the designated victim, binned, live, pinned. */
  predicate Classed(a: Arena, c: int)
    requires c in a.head
  {
    && (Free(a, c) <==> c == a.top || c == a.dv || c in a.binned)
    && (c in a.binned ==> c != a.top && c != a.dv && a.binned[c] == a.head[c].size)
    && (c == a.dv ==> c != a.top && a.dvsize == a.head[c].size)
    && (!Free(a, c) <==> c in a.live || c in a.pinned)
    && (c in a.live ==> c !in a.pinned && a.live[c] + CHUNK_OVERHEAD <= a.head[c].size)
  }

  predicate Apart(a: Arena, c: int, d: int)
    requires c in a.head && d in a.head
  {
    c < d ==> Next(a, c) <= d
  }

  ghost predicate AllSized(a: Arena) {
    forall c {:trigger Sized(a, c)} :: c in a.head ==> Sized(a, c)
  }

  ghost predicate AllInside(a: Arena) {
    forall c {:trigger Inside(a, c)} :: c in a.head ==> Inside(a, c)
  }

  ghost predicate AllChained(a: Arena) {
    forall c {:trigger Chained(a, c)} :: c in a.head ==> Chained(a, c)
  }

  ghost predicate AllFlagged(a: Arena) {
    forall c {:trigger Flagged(a, c)} :: c in a.head ==> Flagged(a, c)
  }

  ghost predicate AllFooted(a: Arena) {
    forall c {:trigger Footed(a, c)} :: c in a.head ==> Footed(a, c)
  }

  ghost predicate AllClassed(a: Arena) {
    forall c {:trigger Classed(a, c)} :: c in a.head ==> Classed(a, c)
  }

  ghost predicate AllApart(a: Arena) {
    forall c, d {:trigger Apart(a, c, d)} :: c in a.head && d in a.head ==> Apart(a, c, d)
  }

  /** The fields that name chunks name chunks. */
  predicate Named(a: Arena) {
    && a.top in a.head && a.head[a.top] == Head(a.topsize, true, false) && a.top + a.topsize in a.spans
    && a.spans[a.top + a.topsize].limit == a.top + a.topsize + TOP_FOOT_SIZE
    && (a.dv == 0 <==> a.dvsize == 0) && (a.dv != 0 ==> a.dv in a.head)
    && a.binned.Keys <= a.head.Keys && a.live.Keys <= a.head.Keys && a.pinned <= a.head.Keys
  }

  /** A region for a segment. */
  predicate Region(base: int, limit: int) {
    0 < base < limit <= ADDRESS_LIMIT && limit - base <= SIZE_LIMIT
  }

  /** Tiled stretches are apart, padded at the end, and begin with a chunk. */
  ghost predicate Spanned(a: Arena) {
    && (forall e :: e in a.spans ==>
          && Region(a.spans[e].base, a.spans[e].limit) && a.spans[e].base < e < a.spans[e].limit
          && a.spans[e].base in a.head && e !in a.head)
    && (forall e, f :: e in a.spans && f in a.spans && e < f ==> a.spans[e].limit <= a.spans[f].base)
  }

  /** Chunks exactly tile the stretches. */
  ghost predicate Tiled(a: Arena) {
    AllSized(a) && AllInside(a) && AllChained(a) && AllApart(a) && Spanned(a)
  }

  ghost predicate Inv(a: Arena) {
    Tiled(a) && AllFlagged(a) && AllFooted(a) && AllClassed(a) && Named(a)
  }

  // ---- Tilings.

  /** Only tags changed. */
  ghost predicate SameChunks(a: Arena, a': Arena) {
    && a'.head.Keys == a.head.Keys && a'.spans == a.spans && a'.top == a.top && a'.pinned == a.pinned
    && forall x {:trigger a'.head[x]} {:trigger a.head[x]} :: x in a.head ==> a'.head[x].size == a.head[x].size
  }

  lemma SameInside(a: Arena, a': Arena)
    requires AllInside(a) && SameChunks(a, a')
    ensures AllInside(a')
  {
    forall x | x in a'.head
      ensures Inside(a', x)
    {
      assert Inside(a, x);
    }
  }

  lemma SameApart(a: Arena, a': Arena)
    requires AllApart(a) && SameChunks(a, a')
    ensures AllApart(a')
  {
    forall x, y | x in a'.head && y in a'.head
      ensures Apart(a', x, y)
    {
      assert Apart(a, x, y);
    }
  }

  lemma SameTiling(a: Arena, a': Arena)
    requires Tiled(a) && SameChunks(a, a')
    ensures Tiled(a')
  {
    SameInside(a, a');
    SameApart(a, a');
    forall x | x in a'.head
      ensures Sized(a', x) && Chained(a', x)
    {
      assert Sized(a, x) && Chained(a, x);
    }
  }

  /** c has been cut in two at offset nb. */
  ghost predicate CutAt(a: Arena, a': Arena, c: int, nb: nat) {
    && c in a.head && 0 < nb < a.head[c].size && nb % 8 == 0
    && a'.head.Keys == a.head.Keys + {c + nb} && a'.spans == a.spans && a'.pinned == a.pinned
    && c !in a.pinned
    && a'.head[c].size == nb && a'.head[c + nb].size == a.head[c].size - nb
    && (forall x {:trigger a'.head[x]} {:trigger a.head[x]} :: x in a.head && x != c ==>
        a'.head[x].size == a.head[x].size)
    && nb >= MIN_CHUNK_SIZE && a'.top == (if a.top == c then c + nb else a.top)
    && (a.top != c ==> a.head[c].size - nb >= MIN_CHUNK_SIZE)
  }

  lemma CutSized(a: Arena, a': Arena, c: int, nb: nat)
    requires Tiled(a) && CutAt(a, a', c, nb) && c + nb !in a.head
    ensures AllSized(a') && AllChained(a')
  {
    hide AllInside, AllApart, Spanned;
    assert Sized(a, c) && Chained(a, c);
    forall x | x in a'.head
      ensures Sized(a', x)
    {
      if x != c + nb {
        assert Sized(a, x);
      }
    }
    forall x | x in a'.head
      ensures Chained(a', x)
    {
      if x != c + nb {
        assert Chained(a, x);
      }
    }
  }

  lemma CutInside(a: Arena, a': Arena, c: int, nb: nat)
    requires Tiled(a) && CutAt(a, a', c, nb) && c + nb !in a.head
    ensures AllInside(a')
  {
    assert Inside(a, c);
    forall x | x in a'.head
      ensures Inside(a', x)
    {
      if x != c + nb {
        assert Inside(a, x);
      }
    }
  }

  lemma CutApart(a: Arena, a': Arena, c: int, nb: nat)
    requires Tiled(a) && CutAt(a, a', c, nb) && c + nb !in a.head
    ensures AllApart(a')
  {
    forall x, y | x in a'.head && y in a'.head
      ensures Apart(a', x, y)
    {
      var x', y' := if x == c + nb then c else x, if y == c + nb then c else y;
      assert Apart(a, x', y') && Apart(a, y', x');
      assert Sized(a, c) && Sized(a, x') && Sized(a, y');
    }
  }

  lemma CutTiled(a: Arena, a': Arena, c: int, nb: nat)
    requires Tiled(a) && CutAt(a, a', c, nb)
    ensures c + nb !in a.head && Tiled(a')
  {
    assert c + nb in a.head ==> Apart(a, c, c + nb);
    CutSized(a, a', c, nb);
    CutInside(a, a', c, nb);
    CutApart(a, a', c, nb);
    assert Inside(a, c);
    forall e | e in a'.spans
      ensures e !in a'.head
    {
      SpanEndOutside(a, c, e);
    }
  }

  /** The end of a stretch is in no chunk. */
  lemma SpanEndOutside(a: Arena, c: int, e: int)
    requires Tiled(a) && c in a.head && e in a.spans
    ensures !(c < e < Next(a, c))
  {
    assert Inside(a, c);
  }

  // ---- Taking a free chunk whole: `set_inuse_and_pinuse`.

  /** c stops being the victim or a binned chunk. */
  function Declassed(a: Arena, c: int): Arena {
    a.(dv := if c == a.dv then 0 else a.dv, dvsize := if c == a.dv then 0 else a.dvsize, binned := a.binned - {c})
  }

  function TakeWhole(a: Arena, c: int, n: nat): Arena
    requires c in a.head
  {
    var h := a.head[c := Head(a.head[c].size, true, true)];
    var d := Next(a, c);
    var h' := if d in h then h[d := h[d].(pinuse := true)] else h;
    Declassed(a, c).(head := h', live := a.live[c := n])
  }

  lemma TakeWholeTags(a: Arena, c: int, n: nat)
    requires Inv(a) && c in a.head && Free(a, c) && c != a.top
    ensures AllFlagged(TakeWhole(a, c, n)) && AllFooted(TakeWhole(a, c, n))
  {
    var a' := TakeWhole(a, c, n);
    assert Sized(a, c) && Footed(a, c);
    forall x | x in a'.head
      ensures Flagged(a', x)
    {
      assert Flagged(a, x) && Apart(a, x, c) && Apart(a, c, x) && Sized(a, x);
    }
    forall x | x in a'.head
      ensures Footed(a', x)
    {
      assert Footed(a, x) && Flagged(a, x);
    }
  }

  lemma TakeWholeClasses(a: Arena, c: int, n: nat)
    requires Inv(a) && c in a.head && Free(a, c) && c != a.top && n + CHUNK_OVERHEAD <= a.head[c].size
    ensures AllClassed(TakeWhole(a, c, n)) && Named(TakeWhole(a, c, n))
  {
    var a' := TakeWhole(a, c, n);
    assert Sized(a, c) && Classed(a, c);
    forall x | x in a'.head
      ensures Classed(a', x)
    {
      assert Classed(a, x) && Sized(a, x);
    }
    assert Sized(a, a.top) && Flagged(a, c) && Footed(a, a.top);
  }

  lemma TakeWholeOk(a: Arena, c: int, n: nat)
    requires Inv(a) && c in a.head && Free(a, c) && c != a.top && n + CHUNK_OVERHEAD <= a.head[c].size
    ensures Inv(TakeWhole(a, c, n))
  {
    SameTiling(a, TakeWhole(a, c, n));
    TakeWholeTags(a, c, n);
    TakeWholeClasses(a, c, n);
  }

  // ---- Taking the front of a free chunk; the rest stays free.

  datatype Class = AsTop | AsDv | AsBin

  /** The classes when the chunk c is gone and the free chunk r of size rs has arrived. A victim
      that makes room is binned (`replace_dv`). */
  function Reclass(a: Arena, c: int, r: int, rs: nat, class_: Class): Arena {
    var d := Declassed(a, c);
    match class_
    case AsTop => d.(top := r, topsize := rs)
    case AsDv => d.(dv := r, dvsize := rs, binned := if d.dv != 0 then d.binned[d.dv := d.dvsize] else d.binned)
    case AsBin => d.(binned := d.binned[r := rs])
  }

  function SplitFree(a: Arena, c: int, nb: nat, n: nat, rest: Class): Arena
    requires c in a.head && nb < a.head[c].size
  {
    var r, rs := c + nb, a.head[c].size - nb;
    Reclass(a, c, r, rs, rest).(
      head := a.head[c := Head(nb, true, true)][r := Head(rs, true, false)],
      foot := if rest.AsTop? then a.foot else a.foot[Next(a, c) := rs],
      live := a.live[c := n])
  }

  /** The front of c may be cut off. */
  predicate Splittable(a: Arena, c: int, nb: nat, n: nat, rest: Class) {
    && c in a.head && Free(a, c) && nb % 8 == 0 && MIN_CHUNK_SIZE <= nb < a.head[c].size
    && n + CHUNK_OVERHEAD <= nb
    && (rest.AsTop? <==> c == a.top) && (c != a.top ==> a.head[c].size - nb >= MIN_CHUNK_SIZE)
    && (c == a.dv ==> !rest.AsBin?)
  }

  lemma SplitTags(a: Arena, c: int, nb: nat, n: nat, rest: Class)
    requires Inv(a) && Splittable(a, c, nb, n, rest) && c + nb !in a.head
    ensures AllFlagged(SplitFree(a, c, nb, n, rest)) && AllFooted(SplitFree(a, c, nb, n, rest))
  {
    hide Inv, SplitFree, Flagged, Footed;
    forall x | x in SplitFree(a, c, nb, n, rest).head
      ensures Flagged(SplitFree(a, c, nb, n, rest), x) && Footed(SplitFree(a, c, nb, n, rest), x)
    {
      SplitFlagAt(a, c, nb, n, rest, x);
      SplitFootAt(a, c, nb, n, rest, x);
    }
  }

  lemma SplitFlagAt(a: Arena, c: int, nb: nat, n: nat, rest: Class, x: int)
    requires Inv(a) && Splittable(a, c, nb, n, rest) && c + nb !in a.head && x in SplitFree(a, c, nb, n, rest).head
    ensures Flagged(SplitFree(a, c, nb, n, rest), x)
  {
    assert Sized(a, c) && Flagged(a, c) && Footed(a, c) && Chained(a, c) && Classed(a, c);
    if x != c + nb {
      assert Flagged(a, x) && Apart(a, x, c) && Apart(a, c, x) && Sized(a, x);
    }
  }

  lemma SplitFootAt(a: Arena, c: int, nb: nat, n: nat, rest: Class, x: int)
    requires Inv(a) && Splittable(a, c, nb, n, rest) && c + nb !in a.head && x in SplitFree(a, c, nb, n, rest).head
    ensures Footed(SplitFree(a, c, nb, n, rest), x)
  {
    assert Sized(a, c) && Footed(a, c) && Flagged(a, c) && Chained(a, c) && Classed(a, c);
    if x != c + nb {
      assert Footed(a, x) && Sized(a, x);
    }
  }

  lemma SplitClasses(a: Arena, c: int, nb: nat, n: nat, rest: Class)
    requires Inv(a) && Splittable(a, c, nb, n, rest) && c + nb !in a.head
    ensures AllClassed(SplitFree(a, c, nb, n, rest)) && Named(SplitFree(a, c, nb, n, rest))
  {
    hide Inv, SplitFree, Classed;
    SplitNamed(a, c, nb, n, rest);
    forall x | x in SplitFree(a, c, nb, n, rest).head
      ensures Classed(SplitFree(a, c, nb, n, rest), x)
    {
      SplitClassAt(a, c, nb, n, rest, x);
    }
  }

  lemma SplitNamed(a: Arena, c: int, nb: nat, n: nat, rest: Class)
    requires Inv(a) && Splittable(a, c, nb, n, rest) && c + nb !in a.head
    ensures Named(SplitFree(a, c, nb, n, rest))
  {
    hide AllFlagged, AllInside, AllChained, AllApart, Spanned;
    assert Sized(a, c) && Classed(a, c) && Classed(a, a.top) && Sized(a, a.top) && Footed(a, a.top);
    assert a.dv != 0 ==> Classed(a, a.dv) && Sized(a, a.dv);
  }

  lemma SplitClassAt(a: Arena, c: int, nb: nat, n: nat, rest: Class, x: int)
    requires Inv(a) && Splittable(a, c, nb, n, rest) && c + nb !in a.head && x in SplitFree(a, c, nb, n, rest).head
    ensures Classed(SplitFree(a, c, nb, n, rest), x)
  {
    hide AllFlagged, AllFooted, AllInside, AllChained, AllApart, Spanned;
    assert Sized(a, c) && Classed(a, c) && Classed(a, a.top) && Sized(a, a.top);
    assert a.dv != 0 ==> Classed(a, a.dv) && Sized(a, a.dv);
    if x != c + nb {
      assert Classed(a, x) && Sized(a, x);
    }
  }

  lemma SplitOk(a: Arena, c: int, nb: nat, n: nat, rest: Class)
    requires Inv(a) && Splittable(a, c, nb, n, rest)
    ensures c + nb !in a.head && Inv(SplitFree(a, c, nb, n, rest))
  {
    var a' := SplitFree(a, c, nb, n, rest);
    assert Classed(a, c) && Sized(a, c);
    assert c + nb in a.head ==> Apart(a, c, c + nb);
    CutTiled(a, a', c, nb);
    SplitTags(a, c, nb, n, rest);
    SplitClasses(a, c, nb, n, rest);
  }

  // ---- Freeing a chunk and coalescing it with its free neighbours.

  /** Where the free chunk starts that p becomes part of. */
  function Low(a: Arena, p: int): int
    requires p in a.head
  {
    if a.head[p].pinuse then p else if p in a.foot then p - a.foot[p] else p
  }

  /** Where it ends. */
  function High(a: Arena, p: int): int
    requires p in a.head
  {
    var d := Next(a, p);
    if d in a.head && Free(a, d) then Next(a, d) else d
  }

  /** What becomes of it. */
  function Fate(a: Arena, p: int): Class
    requires p in a.head
  {
    var d := Next(a, p);
    if d == a.top then AsTop else if Low(a, p) == a.dv || d == a.dv then AsDv else AsBin
  }

  function FreeChunk(a: Arena, p: int): Arena
    requires p in a.head
  {
    var lo, hi, fate := Low(a, p), High(a, p), Fate(a, p);
    var s := if hi > lo then hi - lo else 0;
    var stays := a.binned - {lo, Next(a, p)};
    var h := a.head - {p, Next(a, p)};
    var h1 := if hi in a.head then h[hi := a.head[hi].(pinuse := false)] else h;
    Arena(
      h1[lo := Head(s, true, false)],
      if fate.AsTop? then a.foot else a.foot[hi := s],
      if fate.AsDv? then lo else if lo == a.dv then 0 else a.dv,
      if fate.AsDv? then s else if lo == a.dv then 0 else a.dvsize,
      if fate.AsTop? then lo else a.top,
      if fate.AsTop? then s else a.topsize,
      if fate.AsBin? then stays[lo := s] else stays,
      a.spans, a.live - {p}, a.pinned)
  }

  /** What becomes of a chunk when it is freed, merged with its free neighbours: the top if it borders on the top;
      else the victim if it borders on the victim; else a binned chunk, and the neighbours are not binned any more. */
  lemma FreedBecomes(a: Arena, p: int)
    requires Inv(a) && p in a.live
    ensures p in a.head
    ensures var a', lo, hi, next := FreeChunk(a, p), Low(a, p), High(a, p), p + a.head[p].size;
            && lo in a'.head && a'.head[lo].size == hi - lo && !a'.head[lo].cinuse && hi > lo
            && if next == a.top then a'.top == lo && a'.topsize == hi - lo && lo !in a'.binned
               else
                 && a'.top == a.top && a'.topsize == a.topsize
                 && if lo == a.dv || next == a.dv then a'.dv == lo && a'.dvsize == hi - lo && lo !in a'.binned
                    else
                      && a'.dv == a.dv && a'.dvsize == a.dvsize
                      && a'.binned == (a.binned - {lo, next})[lo := hi - lo]
  {
    Neighbours(a, p);
    assert Classed(a, Low(a, p)) && Sized(a, p) && Classed(a, p) && Classed(a, Next(a, p));
  }

  /** The neighbours: p's free predecessor starts at lo, its free successor ends at hi. */
  lemma Neighbours(a: Arena, p: int)
    requires Inv(a) && p in a.live
    ensures var lo, hi, d := Low(a, p), High(a, p), Next(a, p);
            && lo in a.head && lo <= p < d <= hi && d in a.head && 0 < lo
            && (lo < p ==> Next(a, lo) == p && Free(a, lo) && lo != a.top)
            && (Free(a, d) <==> d != hi) && (Free(a, d) ==> hi == Next(a, d))
            && a.head[lo].pinuse && (hi in a.head ==> a.head[hi].cinuse)
            && (hi in a.head <==> d != a.top) && (hi !in a.head ==> hi in a.spans)
            && !Free(a, p) && p !in a.pinned && p != a.top
  {
    var lo, hi, d := Low(a, p), High(a, p), Next(a, p);
    assert Classed(a, p) && Sized(a, p) && Footed(a, p) && Chained(a, p);
    assert Sized(a, lo) && Footed(a, lo) && Flagged(a, lo) && Flagged(a, p);
    assert Sized(a, d) && Footed(a, d) && Chained(a, d) && Flagged(a, d) && Classed(a, d) && Classed(a, a.top);
    if hi in a.head {
      assert Footed(a, hi);
    }
    if Free(a, d) && d != a.top {
      assert hi in a.head;
    }
  }

  /** No chunk starts strictly inside the merged one, except p and its successor. */
  lemma Interior(a: Arena, p: int, x: int)
    requires Inv(a) && p in a.live && x in a.head
    ensures Low(a, p) < x < High(a, p) ==> x == p || x == Next(a, p)
  {
    Neighbours(a, p);
    var lo, d := Low(a, p), Next(a, p);
    assert Apart(a, x, p) && Apart(a, p, x) && Apart(a, lo, x) && Apart(a, x, d) && Apart(a, d, x);
    assert Sized(a, x);
  }

  lemma MergedSize(a: Arena, p: int)
    requires Inv(a) && p in a.live
    ensures var s := High(a, p) - Low(a, p); MIN_CHUNK_SIZE <= s < SIZE_LIMIT && s % 8 == 0
    ensures Low(a, p) > 0 && Low(a, p) % 8 == 0
  {
    Neighbours(a, p);
    MergedFits(a, p);
    var lo, d := Low(a, p), Next(a, p);
    assert Sized(a, p) && Sized(a, lo) && Sized(a, d);
    SumOf8(a.head[lo].size, a.head[p].size, a.head[d].size);
  }

  lemma SumOf8(x: nat, y: nat, z: nat)
    requires x % 8 == 0 && y % 8 == 0 && z % 8 == 0
    ensures (x + y) % 8 == 0 && (y + z) % 8 == 0 && (x + y + z) % 8 == 0
  {
  }

  lemma FreeSized(a: Arena, p: int)
    requires Inv(a) && p in a.live
    ensures AllSized(FreeChunk(a, p))
  {
    var a' := FreeChunk(a, p);
    Neighbours(a, p);
    MergedSize(a, p);
    forall x | x in a'.head
      ensures Sized(a', x)
    {
      if x != Low(a, p) {
        assert Sized(a, x);
      }
    }
  }

  lemma FreeChained(a: Arena, p: int)
    requires Inv(a) && p in a.live
    ensures AllChained(FreeChunk(a, p))
  {
    var a' := FreeChunk(a, p);
    Neighbours(a, p);
    var lo, d := Low(a, p), Next(a, p);
    assert Sized(a, p) && Sized(a, d);
    forall x | x in a'.head
      ensures Chained(a', x)
    {
      if x != lo {
        assert Chained(a, x) && Apart(a, x, lo) && Apart(a, lo, x) && Apart(a, x, p) && Apart(a, p, x);
        assert Apart(a, x, d) && Apart(a, d, x) && Sized(a, x);
      }
    }
  }

  /** A chunk and the one behind it lie in the same stretch. */
  lemma NextInside(a: Arena, c: int, e: int)
    requires Tiled(a) && c in a.head && Next(a, c) in a.head
    requires e in a.spans && a.spans[e].base <= c && Next(a, c) <= e
    ensures Next(a, Next(a, c)) <= e
  {
    var d := Next(a, c);
    assert Inside(a, d) && Sized(a, c) && Sized(a, d);
  }

  lemma MergedFits(a: Arena, p: int)
    requires Inv(a) && p in a.live
    ensures exists e :: e in a.spans && a.spans[e].base <= Low(a, p) && High(a, p) <= e
    ensures High(a, p) - Low(a, p) < SIZE_LIMIT
  {
    Neighbours(a, p);
    var lo, d := Low(a, p), Next(a, p);
    assert Inside(a, lo) && Sized(a, lo) && Sized(a, p) && Sized(a, d);
    var e :| e in a.spans && a.spans[e].base <= lo && Next(a, lo) <= e;
    if lo < p {
      NextInside(a, lo, e);
    }
    NextInside(a, p, e);
  }

  lemma FreeInside(a: Arena, p: int)
    requires Inv(a) && p in a.live
    ensures AllInside(FreeChunk(a, p))
  {
    var a' := FreeChunk(a, p);
    Neighbours(a, p);
    MergedFits(a, p);
    assert Sized(a, p);
    forall x | x in a'.head
      ensures Inside(a', x)
    {
      if x != Low(a, p) {
        assert Inside(a, x);
      }
    }
  }

  lemma FreeApart(a: Arena, p: int)
    requires Inv(a) && p in a.live
    ensures AllApart(FreeChunk(a, p))
  {
    var a' := FreeChunk(a, p);
    Neighbours(a, p);
    var lo := Low(a, p);
    assert Sized(a, p) && Sized(a, Next(a, p));
    forall x, y | x in a'.head && y in a'.head
      ensures Apart(a', x, y)
    {
      assert Apart(a, x, y);
      if x == lo {
        Interior(a, p, y);
      }
    }
  }

  lemma FreeSpanned(a: Arena, p: int)
    requires Inv(a) && p in a.live
    ensures Spanned(FreeChunk(a, p))
  {
    var a' := FreeChunk(a, p);
    Neighbours(a, p);
    forall e | e in a'.spans
      ensures a'.spans[e].base in a'.head && e !in a'.head
    {
      if Low(a, p) < p {
        BaseNotBehind(a, Low(a, p), e);
      }
      BaseNotBehind(a, p, e);
    }
  }

  lemma BaseNotBehind(a: Arena, c: int, e: int)
    requires Tiled(a) && c in a.head && Next(a, c) in a.head && e in a.spans
    ensures a.spans[e].base != Next(a, c)
  {
    assert Inside(a, c) && Sized(a, c);
  }

  lemma FreeFlagged(a: Arena, p: int)
    requires Inv(a) && p in a.live
    ensures AllFlagged(FreeChunk(a, p))
  {
    var a' := FreeChunk(a, p);
    Neighbours(a, p);
    var lo, d := Low(a, p), Next(a, p);
    assert Sized(a, p) && Sized(a, d) && Sized(a, lo);
    forall x | x in a'.head
      ensures Flagged(a', x)
    {
      if x != lo {
        assert Flagged(a, x) && Sized(a, x) && Apart(a, x, lo) && Apart(a, lo, x) && Apart(a, x, p) && Apart(a, p, x);
        assert Apart(a, x, d) && Apart(a, d, x);
      }
    }
  }

  lemma FreeFooted(a: Arena, p: int)
    requires Inv(a) && p in a.live
    ensures AllFooted(FreeChunk(a, p))
  {
    var a' := FreeChunk(a, p);
    Neighbours(a, p);
    forall x | x in a'.head
      ensures Footed(a', x)
    {
      assert Footed(a, x);
    }
  }

  lemma FreeClasses(a: Arena, p: int)
    requires Inv(a) && p in a.live
    ensures AllClassed(FreeChunk(a, p)) && Named(FreeChunk(a, p))
  {
    hide Inv, FreeChunk, Classed;
    FreeNamed(a, p);
    forall x | x in FreeChunk(a, p).head
      ensures Classed(FreeChunk(a, p), x)
    {
      if x == Low(a, p) {
        FreeClassOfMerged(a, p);
      } else {
        FreeClassOfOther(a, p, x);
      }
    }
  }

  lemma FreeNamed(a: Arena, p: int)
    requires Inv(a) && p in a.live
    ensures p in a.head && Named(FreeChunk(a, p))
  {
    Neighbours(a, p);
    assert Classed(a, p) && Classed(a, Low(a, p)) && Classed(a, Next(a, p));
    assert Sized(a, p) && Sized(a, Next(a, p)) && Sized(a, a.top);
    assert a.dv != 0 ==> Classed(a, a.dv) && Sized(a, a.dv);
    hide AllSized, AllInside, AllChained, AllApart, AllFlagged, AllFooted, AllClassed, Spanned;
  }

  lemma FreeClassOfMerged(a: Arena, p: int)
    requires Inv(a) && p in a.live
    ensures p in a.head && Low(a, p) in FreeChunk(a, p).head && Classed(FreeChunk(a, p), Low(a, p))
  {
    Neighbours(a, p);
    assert Classed(a, p) && Classed(a, Low(a, p)) && Classed(a, Next(a, p));
    assert Sized(a, p) && Sized(a, Next(a, p)) && Sized(a, a.top);
    hide AllSized, AllInside, AllChained, AllApart, AllFlagged, AllFooted, AllClassed, Spanned;
  }

  lemma FreeClassOfOther(a: Arena, p: int, x: int)
    requires Inv(a) && p in a.live && p in a.head && x in FreeChunk(a, p).head && x != Low(a, p)
    ensures Classed(FreeChunk(a, p), x)
  {
    Neighbours(a, p);
    assert Classed(a, p) && Classed(a, Low(a, p)) && Classed(a, Next(a, p));
    assert Sized(a, p) && Sized(a, Next(a, p)) && Sized(a, a.top);
    assert x in a.head && Classed(a, x) && Sized(a, x);
    hide AllSized, AllInside, AllChained, AllApart, AllFlagged, AllFooted, AllClassed, Spanned;
  }

  /** Freeing keeps the heap in order. */
  lemma FreeOk(a: Arena, p: int)
    requires Inv(a) && p in a.live
    ensures Inv(FreeChunk(a, p))
  {
    FreeSized(a, p);
    FreeChained(a, p);
    FreeInside(a, p);
    FreeApart(a, p);
    FreeSpanned(a, p);
    FreeFlagged(a, p);
    FreeFooted(a, p);
    FreeClasses(a, p);
  }

  // ---- What the invariant means.

  /** Every byte of a stretch belongs to a chunk (to exactly one, as chunks are apart). */
  lemma {:induction false} EveryByteInAChunk(a: Arena, e: int, c: int, x: int) returns (d: int)
    requires Inv(a) && e in a.spans && c in a.head && a.spans[e].base <= c && Next(a, c) <= e && c <= x < e
    ensures d in a.head && a.spans[e].base <= d <= x < Next(a, d) <= e
    ensures forall y :: y in a.head && y <= x < Next(a, y) ==> y == d
    decreases e - c
  {
    assert Sized(a, c) && Chained(a, c) && Inside(a, c);
    if x < Next(a, c) {
      d := c;
      forall y | y in a.head && y <= x < Next(a, y)
        ensures y == d
      {
        assert Apart(a, y, d) && Apart(a, d, y);
      }
    } else {
      NextInside(a, c, e);
      d := EveryByteInAChunk(a, e, Next(a, c), x);
    }
  }

  /** The chunks of a segment exactly tile the stretch from its base to its end. */
  lemma SegmentsTiled(a: Arena, e: int, x: int) returns (d: int)
    requires Inv(a) && e in a.spans && a.spans[e].base <= x < e
    ensures d in a.head && a.spans[e].base <= d <= x < Next(a, d) <= e
    ensures forall y :: y in a.head && y <= x < Next(a, y) ==> y == d
  {
    var b := a.spans[e].base;
    assert Inside(a, b) && Sized(a, b);
    d := EveryByteInAChunk(a, e, b, x);
  }

  /** The bytes of block p that belong to its user: behind the head, including the footer word of
      the chunk that follows. */
  predicate UserByte(a: Arena, p: int, x: int)
    requires p in a.head
  {
    p + 16 <= x < Next(a, p) + CHUNK_OVERHEAD
  }

  /** User regions hold what was asked for, are aligned, and overlap neither each other nor a head word. */
  lemma BlocksApart(a: Arena, p: int, q: int)
    requires Inv(a) && p in a.live && q in a.head
    ensures (p + 16) % 8 == 0
    ensures forall x :: p + 16 <= x < p + 16 + a.live[p] ==> UserByte(a, p, x)
    ensures forall x :: UserByte(a, p, x) ==> !(q + 8 <= x < q + 16)
    ensures q in a.live && q != p ==> forall x :: !(UserByte(a, p, x) && UserByte(a, q, x))
  {
    assert Sized(a, p) && Classed(a, p) && Apart(a, p, q) && Apart(a, q, p) && Sized(a, q);
  }
}
