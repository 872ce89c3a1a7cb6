/** The allocator itself (`lj_alloc.c`): the heap of boundary-tagged chunks together with the
    small bins, the tree bins, the segment list and the directly mapped chunks. */
module Alloc {
  import opened AllocSizes
  import opened Heap
  import opened HeapSegments
  import opened HeapSystem
  import opened AllocSystem
  import opened SystemCalls
  import SB = SmallBins
  import TB = TreeBins
  import Trie
  import TrieSearch
  import BinMap
  import Bits

  const DEFAULT_TRIM_THRESHOLD := 0x20_0000
  const MAX_RELEASE_CHECK_RATE := 255
  const IS_DIRECT_BIT := 1
  const MAX_SMALL_REQUEST := 240
  const MIN_REQUEST := 23
  const MAX_SIZE_T := WORD64 - 1
  const MAX_REQUEST := WORD64 - 128
  const SEG_OFFSET := 840  // of the first segment record in struct malloc_state
  const MSTATE_SIZE := 880  // pad_request(sizeof(struct malloc_state))

  predicate IsSmall(s: nat) {
    s / 8 < 32
  }

  function PadRequest(n: nat): nat {
    (n + 15) / 8 * 8
  }

  function Request2Size(n: nat): (nb: nat)
    ensures nb % 8 == 0 && nb >= MIN_CHUNK_SIZE && nb >= n + CHUNK_OVERHEAD
    ensures nb == MIN_CHUNK_SIZE || nb < n + 16
  {
    if n < MIN_REQUEST then MIN_CHUNK_SIZE else PadRequest(n)
  }

  /** No free chunk is large enough; from the top something must remain. */
  ghost predicate NoneFits(a: Arena, nb: nat) {
    a.dvsize < nb && a.topsize <= nb && forall c :: c in a.binned ==> a.binned[c] < nb
  }

  /** What is left of the chunk p that serves a request of nb bytes: a remainder too small for a chunk stays with it;
      else, of a binned chunk it becomes the victim if the request is small, and the old victim is binned, and it is
      binned itself if the request is large; what is left of the victim or of the top goes on to be that. */
  ghost predicate Remains(a: Arena, a': Arena, nb: nat, p: int) {
    var same := a'.dv == a.dv && a'.dvsize == a.dvsize;
    if p in a.binned then
      var rest, others := a.binned[p] - nb, a.binned - {p};
      && a'.top == a.top && a'.topsize == a.topsize
      && if rest < MIN_CHUNK_SIZE then same && a'.binned == others
         else if nb < MIN_LARGE_SIZE then
           a'.dv == p + nb && a'.dvsize == rest && a'.binned == if a.dv == 0 then others else others[a.dv := a.dvsize]
         else same && a'.binned == others[p + nb := rest]
    else if p == a.dv then
      && a'.top == a.top && a'.topsize == a.topsize && a'.binned == a.binned
      && if a.dvsize - nb < MIN_CHUNK_SIZE then a'.dv == 0 && a'.dvsize == 0
         else a'.dv == p + nb && a'.dvsize == a.dvsize - nb
    else p == a.top && same && a'.binned == a.binned && a'.top == p + nb && a'.topsize == a.topsize - nb
  }

  /** No small chunk of just this size, or 8 bytes more, is binned. */
  ghost predicate NoneNear(b: map<int, nat>, nb: nat) {
    forall c {:trigger b[c]} :: c in b ==> !(nb <= b[c] <= nb + 8 && b[c] < MIN_LARGE_SIZE)
  }

  /** The victim, which fits, is used before any binned chunk: for a small request unless there is one of just that
      size, or the next; for a large one unless there is one that fits better. */
  ghost predicate VictimFirst(b: map<int, nat>, nb: nat, dvsize: nat) {
    && nb <= dvsize
    && if nb < MIN_LARGE_SIZE then NoneNear(b, nb) else forall c :: c in b && b[c] >= nb ==> dvsize <= b[c]
  }

  lemma ItIsNear(b: map<int, nat>, nb: nat, p: int)
    requires p in b && nb <= b[p] <= nb + 8 && b[p] < MIN_LARGE_SIZE
    ensures !NoneNear(b, nb)
  {
  }

  lemma TakenRemains(a: Arena, p: int, nb: nat, n: nat)
    requires Inv(a) && p in a.head && (p in a.binned || p == a.dv) && p != a.top && p != 0
    requires a.head[p].size - nb < MIN_CHUNK_SIZE
    ensures Remains(a, TakeWhole(a, p, n), nb, p)
  {
    assert Classed(a, p) && Sized(a, p);
    assert p == a.dv ==> a.binned - {p} == a.binned;
  }

  lemma SplitRemains(a: Arena, p: int, nb: nat, n: nat, rest: Class)
    requires Inv(a) && Splittable(a, p, nb, n, rest) && (rest.AsTop? <==> p == a.top) && p != 0
    requires p != a.top ==> if p == a.dv then rest.AsDv? else p in a.binned && (rest.AsDv? <==> nb < MIN_LARGE_SIZE)
    ensures Remains(a, SplitFree(a, p, nb, n, rest), nb, p)
  {
    assert Classed(a, p) && Sized(a, p) && Classed(a, a.top);
    assert p !in a.binned ==> a.binned - {p} == a.binned;
  }

  /** The size of the chunk that goes to a bin when p is freed, or 0 if the top or the victim takes it. */
  function SizeToBin(a: Arena, p: int): nat
    requires p in a.head
  {
    if Fate(a, p).AsBin? && High(a, p) >= Low(a, p) then High(a, p) - Low(a, p) else 0
  }

  /** A request is served from the heap if a free chunk fits, and else by the system, if it helps. */
  ghost predicate Provided(a: Arena, n: nat, p: int, asked: seq<Call>) {
    if n >= MAX_REQUEST then p == 0 && asked == []
    else if NoneFits(a, Request2Size(n)) then Helped(asked, Request2Size(n), p)
    else p != 0 && asked == []
  }

  /** A mapping can be merged with a segment: with the one of the top if it lies behind it, or with any in front. */
  predicate Adjoins(segs: seq<Segment>, tbase: int, tsize: nat) {
    && segs != []
    && (tbase == segs[0].base + segs[0].size || exists i :: 0 <= i < |segs| && segs[i].base == tbase + tsize)
  }

  lemma TooLarge(asked: seq<Call>, nb: nat, p: int)
    requires Helped(asked, nb, p)
    ensures nb == MAX_SIZE_T ==> p == 0 && asked == []
    ensures asked == [] ==> p == 0
  {
  }

  /** The first chunk of a segment is free and goes up to its end. */
  predicate Empty(head: map<int, Head>, s: Segment) {
    s.base in head && !head[s.base].cinuse && s.base + head[s.base].size >= s.base + s.size - TOP_FOOT_SIZE
  }

  /** The address of record i: the first one lies in the allocator state, in the chunk at `home`. */
  function RecordAt(segs: seq<Segment>, home: int, i: nat): int
    requires i < |segs|
  {
    if i == 0 then home + 16 + SEG_OFFSET else segs[i].rec + 16
  }

  /** The first segment holds a record of the list, and has to stay as it is. */
  predicate Linked(segs: seq<Segment>, home: int) {
    && segs != []
    && exists i :: 0 <= i < |segs| && segs[0].base <= RecordAt(segs, home, i) < segs[0].base + segs[0].size
  }

  /** Each empty segment, but for the first one, is still there only because the system has refused to take it. */
  ghost predicate AllAsked(head: map<int, Head>, segs: seq<Segment>, asked: seq<Call>, n: nat) {
    forall i {:trigger segs[i]} :: 0 < i < n && i < |segs| && Empty(head, segs[i]) ==>
      Unmap(segs[i].base, segs[i].size, false) in asked
  }

  lemma AskedOne(head: map<int, Head>, segs: seq<Segment>, asked: seq<Call>, i: nat)
    requires AllAsked(head, segs, asked, i) && i < |segs|
    requires Empty(head, segs[i]) ==> Unmap(segs[i].base, segs[i].size, false) in asked
    ensures AllAsked(head, segs, asked, i + 1)
  {
  }

  lemma AskedNone(head: map<int, Head>, segs: seq<Segment>, asked: seq<Call>)
    ensures AllAsked(head, segs, asked, 1)
  {
  }

  lemma AskedMore(head: map<int, Head>, segs: seq<Segment>, asked: seq<Call>, head': map<int, Head>,
                  segs': seq<Segment>, more: seq<Call>, n: nat)
    requires AllAsked(head, segs, asked, n) && n <= |segs| && n <= |segs'| && segs'[..n] == segs[..n]
    requires forall c :: c in head' ==> c in head && head[c] == head'[c]
    ensures AllAsked(head', segs', asked + more, n)
  {
    forall i | 0 < i < n && Empty(head', segs'[i])
      ensures Unmap(segs'[i].base, segs'[i].size, false) in asked + more
    {
      assert segs'[i] == segs'[..n][i] == segs[i];
    }
  }

  /** The memory words that hold boundary tags, lie inside free chunks or pad a segment. */
  ghost predicate StoreOk(a: Arena, w: int) {
    w % 8 == 0 && (ChunkWord(a, w) || PadWord(a, w))
  }

  ghost predicate ChunkWord(a: Arena, w: int) {
    exists c :: c in a.head && (w == c + 8 || ((Free(a, c) || c in a.pinned) && c + 8 <= w <= Next(a, c)))
  }

  ghost predicate PadWord(a: Arena, w: int) {
    exists e :: e in a.spans && e <= w < a.spans[e].limit
  }

  /** Storing to the word w leaves the bytes of all live blocks alone. */
  ghost predicate Spares(a: Arena, w: int) {
    forall q, x :: q in a.live && q in a.head && UserByte(a, q, x) ==> !(w <= x < w + 8)
  }

  lemma ChunkWordSpares(a: Arena, w: int, q: int, x: int)
    requires Inv(a) && w % 8 == 0 && ChunkWord(a, w) && q in a.live && UserByte(a, q, x)
    ensures !(w <= x < w + 8)
  {
    var c :| c in a.head && (w == c + 8 || ((Free(a, c) || c in a.pinned) && c + 8 <= w <= Next(a, c)));
    assert Apart(a, c, q) && Apart(a, q, c) && Sized(a, c) && Sized(a, q) && Classed(a, q) && Classed(a, c);
  }

  lemma PadWordSpares(a: Arena, w: int, q: int, x: int)
    requires Inv(a) && w % 8 == 0 && PadWord(a, w) && q in a.live && UserByte(a, q, x)
    ensures !(w <= x < w + 8)
  {
    var e :| e in a.spans && e <= w < a.spans[e].limit;
    assert Classed(a, q) && Sized(a, q) && Chained(a, q) && Classed(a, a.top) && Inside(a, q);
    var f :| f in a.spans && a.spans[f].base <= q && Next(a, q) <= f;
    NextInside(a, q, f);
    assert Sized(a, Next(a, q));
  }

  lemma StoresSpareUsers(a: Arena, w: int)
    requires Inv(a) && StoreOk(a, w)
    ensures Spares(a, w)
  {
    forall q, x | q in a.live && UserByte(a, q, x)
      ensures !(w <= x < w + 8)
    {
      if ChunkWord(a, w) {
        ChunkWordSpares(a, w, q, x);
      } else {
        PadWordSpares(a, w, q, x);
      }
    }
  }

  /** The live blocks of b are live blocks of c, of the same size. */
  ghost predicate LiveWithin(b: Arena, c: Arena) {
    forall q :: q in b.live && q in b.head ==> q in c.live && q in c.head && c.head[q].size == b.head[q].size
  }

  /** p has been handed out for n bytes (0 for failure), and every other block has kept its place and size. */
  ghost predicate Handed(a: Arena, a': Arena, p: int, n: nat) {
    if p == 0 then a' == a
    else
      && p !in a.live && a'.live == a.live[p := n] && p in a'.head && p > 0
      && forall q :: q in a.live ==> q in a.head && q in a'.head && a'.head[q].size == a.head[q].size
  }

  lemma TakeWholeHands(a: Arena, c: int, n: nat)
    requires Inv(a) && c in a.head && Free(a, c) && c != a.top && n + CHUNK_OVERHEAD <= a.head[c].size
    ensures Inv(TakeWhole(a, c, n)) && Handed(a, TakeWhole(a, c, n), c, n)
    ensures Next(a, c) in a.head && StoreOk(a, c + 8) && StoreOk(a, Next(a, c) + 8)
  {
    TakeWholeOk(a, c, n);
    assert Classed(a, c) && Sized(a, c) && Chained(a, c);
    assert ChunkWord(a, c + 8) && ChunkWord(a, Next(a, c) + 8);
    assert Sized(a, Next(a, c));
  }

  lemma SplitHands(a: Arena, c: int, nb: nat, n: nat, rest: Class)
    requires Inv(a) && Splittable(a, c, nb, n, rest)
    ensures c + nb !in a.head && Inv(SplitFree(a, c, nb, n, rest)) && Handed(a, SplitFree(a, c, nb, n, rest), c, n)
    ensures StoreOk(a, c + 8) && StoreOk(a, Next(a, c)) && StoreOk(SplitFree(a, c, nb, n, rest), c + nb + 8)
  {
    hide Heap.Inv, SplitFree, StoreOk, Handed;
    SplitOk(a, c, nb, n, rest);
    SplitHead(a, c, nb, n, rest);
    HeadStored(a, c);
    EndStored(a, c);
    HeadStored(SplitFree(a, c, nb, n, rest), c + nb);
    SplitHanded(a, c, nb, n, rest);
  }

  lemma SplitHanded(a: Arena, c: int, nb: nat, n: nat, rest: Class)
    requires Inv(a) && Splittable(a, c, nb, n, rest) && c + nb !in a.head
    ensures Handed(a, SplitFree(a, c, nb, n, rest), c, n)
  {
    hide AllInside, AllChained, AllApart, AllFlagged, AllFooted, Spanned;
    assert Classed(a, c) && Sized(a, c);
  }

  /** The footer of a free chunk. */
  lemma EndStored(a: Arena, c: int)
    requires Inv(a) && c in a.head && Free(a, c)
    ensures StoreOk(a, Next(a, c))
  {
    assert Sized(a, c) && ChunkWord(a, Next(a, c));
  }

  lemma SplitHead(a: Arena, c: int, nb: nat, n: nat, rest: Class)
    requires Inv(a) && Splittable(a, c, nb, n, rest)
    ensures c + nb in SplitFree(a, c, nb, n, rest).head
  {
  }

  /** The words of binned chunks that may hold their links. */
  ghost predicate LinkWord(b: map<int, nat>, w: int) {
    exists c :: c in b && w % 8 == 0 && c + 16 <= w <= c + b[c] - 8
  }

  ghost function Links(b: map<int, nat>): iset<int> {
    iset w: int | LinkWord(b, w)
  }

  /** The word lies in a segment. */
  ghost predicate InHeap(a: Arena, w: int) {
    w % 8 == 0 && exists e :: e in a.spans && a.spans[e].base <= w < a.spans[e].limit
  }

  /** The segments of b lie in the segments of a. */
  ghost predicate Covers(a: Arena, b: Arena) {
    forall w :: InHeap(b, w) ==> InHeap(a, w)
  }

  /** Every head and every footer that is not as before has been stored to. */
  ghost predicate TagsIn(s: iset<int>, a: Arena, a': Arena) {
    && (forall c {:trigger c in a'.head} :: c in a'.head && (c !in a.head || a'.head[c] != a.head[c]) ==> c + 8 in s)
    && (forall d {:trigger d in a'.foot} :: d in a'.foot && (d !in a.foot || a'.foot[d] != a.foot[d]) ==> d in s)
  }

  /** The words stored to are among those of s, which lie in the heap and spare the blocks live before or those
      live after the step. */
  ghost predicate Logged(s0: iset<int>, s: iset<int>, a: Arena, a': Arena) {
    && s0 <= s && TagsIn(s, a, a')
    && forall w :: w in s ==> w in s0 || ((Spares(a, w) || Spares(a', w)) && (InHeap(a, w) || InHeap(a', w)))
  }

  lemma TagsMore(s: iset<int>, t: iset<int>, a: Arena, a': Arena)
    requires TagsIn(s, a, a') && s <= t
    ensures TagsIn(t, a, a')
  {
  }

  lemma TagsVia(s1: iset<int>, s2: iset<int>, a: Arena, b: Arena, c: Arena)
    requires TagsIn(s1, a, b) && TagsIn(s2, b, c) && s1 <= s2
    ensures TagsIn(s2, a, c)
  {
  }

  lemma StoreInHeap(a: Arena, w: int)
    requires Inv(a) && StoreOk(a, w)
    ensures InHeap(a, w)
  {
    if ChunkWord(a, w) {
      var c :| c in a.head && (w == c + 8 || ((Free(a, c) || c in a.pinned) && c + 8 <= w <= Next(a, c)));
      assert Inside(a, c) && Sized(a, c);
      var e :| e in a.spans && a.spans[e].base <= c && Next(a, c) <= e;
      assert a.spans[e].base <= w < a.spans[e].limit;
    }
  }

  /** Two steps in a row, where one of them keeps all live blocks. */
  lemma LoggedVia(s0: iset<int>, s1: iset<int>, s2: iset<int>, a: Arena, b: Arena, c: Arena)
    requires Logged(s0, s1, a, b) && Logged(s1, s2, b, c)
    requires LiveWithin(a, b) || LiveWithin(c, b)
    requires Covers(a, b) || Covers(c, b)
    ensures Logged(s0, s2, a, c)
  {
    hide TagsIn;
    TagsVia(s1, s2, a, b, c);
    forall w | Spares(b, w)
      ensures LiveWithin(a, b) ==> Spares(a, w)
      ensures LiveWithin(c, b) ==> Spares(c, w)
    {
      SparesWithin(a, b, w);
      SparesWithin(c, b, w);
    }
  }

  lemma SparesWithin(a: Arena, b: Arena, w: int)
    requires Spares(b, w)
    ensures LiveWithin(a, b) ==> Spares(a, w)
  {
    if LiveWithin(a, b) {
      forall q, x | q in a.live && q in a.head && UserByte(a, q, x)
        ensures !(w <= x < w + 8)
      {
        assert UserByte(b, q, x);
      }
    }
  }

  lemma LinksOk(a: Arena, w: int)
    requires Inv(a) && w in Links(a.binned)
    ensures StoreOk(a, w)
  {
    var c :| c in a.binned && w % 8 == 0 && c + 16 <= w <= c + a.binned[c] - 8;
    assert Classed(a, c);
    assert ChunkWord(a, w);
  }

  /** A step that stores the given tags and links in the bins. */
  lemma LogOk(s0: iset<int>, a: Arena, a': Arena, tags: iset<int>)
    requires Inv(a) && Inv(a')
    requires TagsIn(tags, a, a') && forall w :: w in tags ==> StoreOk(a, w) || StoreOk(a', w)
    ensures Logged(s0, s0 + tags + Links(a.binned) + Links(a'.binned), a, a')
  {
    hide Heap.Inv, StoreOk, Spares, LinkWord, InHeap, TagsIn;
    TagsMore(tags, s0 + tags + Links(a.binned) + Links(a'.binned), a, a');
    forall w | w in tags || w in Links(a.binned) || w in Links(a'.binned)
      ensures Spares(a, w) || Spares(a', w)
      ensures InHeap(a, w) || InHeap(a', w)
    {
      if w in Links(a.binned) {
        LinksOk(a, w);
      } else if w in Links(a'.binned) {
        LinksOk(a', w);
      }
      if StoreOk(a, w) {
        StoresSpareUsers(a, w);
        StoreInHeap(a, w);
      } else {
        StoresSpareUsers(a', w);
        StoreInHeap(a', w);
      }
    }
  }

  /** Steps that leave the segments alone keep the segment list right. */
  lemma SegsKept(segs: seq<Segment>, a: Arena, a': Arena)
    requires SegsOk(segs, a) && Inv(a) && Inv(a') && a'.spans == a.spans && TopEnd(a') == TopEnd(a)
    requires a'.pinned == a.pinned
    requires forall r :: r in a.pinned ==> r in a.head && r in a'.head && a'.head[r].size == a.head[r].size
    ensures SegsOk(segs, a')
  {
    forall i | 0 <= i < |segs|
      ensures SegOk(segs, a', i)
    {
      assert SegOk(segs, a, i);
    }
  }

  lemma TakeWholeSegs(segs: seq<Segment>, a: Arena, c: int, n: nat)
    requires SegsOk(segs, a) && Inv(a) && c in a.head && Free(a, c) && c != a.top
    requires n + CHUNK_OVERHEAD <= a.head[c].size
    ensures SegsOk(segs, TakeWhole(a, c, n))
  {
    TakeWholeOk(a, c, n);
    SegsKept(segs, a, TakeWhole(a, c, n));
  }

  lemma SplitSegs(segs: seq<Segment>, a: Arena, c: int, nb: nat, n: nat, rest: Class)
    requires SegsOk(segs, a) && Inv(a) && Splittable(a, c, nb, n, rest)
    ensures SegsOk(segs, SplitFree(a, c, nb, n, rest))
  {
    SplitOk(a, c, nb, n, rest);
    assert Classed(a, c);
    SegsKept(segs, a, SplitFree(a, c, nb, n, rest));
  }

  lemma TopFacts(a: Arena)
    requires Inv(a)
    ensures a.top in a.head && a.head[a.top] == Head(a.topsize, true, false) && a.top > 0 && a.topsize % 8 == 0
    ensures a.top != a.dv && a.top !in a.binned
    ensures a.topsize >= 8 && TopEnd(a) in a.spans
  {
    assert Classed(a, a.top) && Sized(a, a.top);
  }

  lemma SplitIs(a: Arena, c: int, nb: nat, n: nat, rest: Class)
    requires Splittable(a, c, nb, n, rest) && rest != AsTop
    ensures c in a.head && nb < a.head[c].size
    ensures var b := Reclass(a, c, c + nb, a.head[c].size - nb, rest);
            && b.head == a.head && b.foot == a.foot && b.live == a.live
            && SplitFree(a, c, nb, n, rest) ==
               b.(head := a.head[c := Head(nb, true, true)][c + nb := Head(a.head[c].size - nb, true, false)],
                  foot := a.foot[Next(a, c) := a.head[c].size - nb],
                  live := a.live[c := n])
  {
  }

  lemma SplitTopIs(a: Arena, nb: nat, n: nat)
    requires a.top in a.head && nb < a.head[a.top].size == a.topsize && a.top != a.dv && a.top !in a.binned
    ensures SplitFree(a, a.top, nb, n, AsTop) ==
            a.(top := a.top + nb, topsize := a.topsize - nb,
               head := a.head[a.top := Head(nb, true, true)][a.top + nb := Head(a.topsize - nb, true, false)],
               live := a.live[a.top := n])
  {
    assert a.binned - {a.top} == a.binned;
  }

  lemma VictimFacts(a: Arena)
    requires Inv(a) && a.dvsize > 0
    ensures a.dv in a.head && Free(a, a.dv) && a.head[a.dv].size == a.dvsize && a.dv != a.top && a.dv !in a.binned
    ensures a.dvsize % 8 == 0 && a.dvsize >= MIN_CHUNK_SIZE && a.dv > 0
  {
    assert Classed(a, a.dv) && Sized(a, a.dv);
  }

  // ---- Freeing, case by case.

  /** All words that freeing p may store to: tags of the merged chunk and of its successor, links. */
  ghost function FreeStores(s0: iset<int>, a: Arena, p: int): iset<int>
    requires p in a.head
  {
    var lo, hi := Low(a, p), High(a, p);
    s0 + (iset{lo + 8, hi} + if hi in a.head then iset{hi + 8} else iset{})
      + Links(a.binned) + Links(FreeChunk(a, p).binned)
  }

  /** What freeing p comes to. */
  lemma FreeStep(segs: seq<Segment>, a: Arena, p: int, s0: iset<int>)
    requires SegsOk(segs, a) && Inv(a) && p in a.live
    ensures p in a.head && Inv(FreeChunk(a, p)) && SegsOk(segs, FreeChunk(a, p))
    ensures Logged(s0, FreeStores(s0, a, p), a, FreeChunk(a, p))
    ensures MIN_CHUNK_SIZE <= High(a, p) - Low(a, p) < SIZE_LIMIT && (High(a, p) - Low(a, p)) % 8 == 0 && Low(a, p) > 0
  {
    hide Heap.Inv, SegsOk, Logged, StoreOk, FreeChunk;
    FreeTags(a, p);
    FreeBins(a, p);
    FreeHands(a, p);
    FreeSegs(segs, a, p);
    var lo, hi := Low(a, p), High(a, p);
    FreeTagsIn(a, p);
    LogOk(s0, a, FreeChunk(a, p), iset{lo + 8, hi} + if hi in a.head then iset{hi + 8} else iset{});
  }

  /** The boundary tags after p has been freed: its successor d was in use, or was free and merged. */
  lemma FreeTags(a: Arena, p: int)
    requires Inv(a) && p in a.live
    ensures p in a.head
    ensures var lo, d, hi := Low(a, p), Next(a, p), High(a, p);
            && lo in a.head && d in a.head && lo <= p < d <= hi
            && FreeChunk(a, p).head ==
                 (if hi == d then (a.head - {p})[d := a.head[d].(pinuse := false)] else a.head - {p, d})
                 [lo := Head(hi - lo, true, false)]
  {
    Neighbours(a, p);
    var d, hi := Next(a, p), High(a, p);
    assert Flagged(a, d);
  }

  lemma FreeTagsIn(a: Arena, p: int)
    requires Inv(a) && p in a.live && p in a.head
    ensures var lo, hi := Low(a, p), High(a, p);
            TagsIn(iset{lo + 8, hi} + if hi in a.head then iset{hi + 8} else iset{}, a, FreeChunk(a, p))
  {
    FreeTags(a, p);
  }

  /** Which bins the merged neighbours were in. */
  lemma FreeBins(a: Arena, p: int)
    requires Inv(a) && p in a.live
    ensures var lo, d := Low(a, p), Next(a, p);
            && lo in a.head && d in a.head
            && (lo in a.binned <==> lo < p && lo != a.dv) && (lo in a.binned ==> a.binned[lo] == p - lo)
            && (d in a.binned <==> Free(a, d) && d != a.dv && d != a.top)
            && (d in a.binned ==> a.binned[d] == a.head[d].size)
            && (lo == a.dv ==> lo < p && a.dvsize == p - lo) && (d == a.dv ==> Free(a, d) && a.dvsize == a.head[d].size)
            && (d == a.top ==> Free(a, d) && a.head[d].size == a.topsize && High(a, p) == TopEnd(a))
            && lo != a.top && d > 0 && lo > 0 && lo != d && a.top != a.dv
  {
    Neighbours(a, p);
    var lo, d := Low(a, p), Next(a, p);
    assert Classed(a, lo) && Classed(a, d) && Classed(a, p) && Classed(a, a.top) && Sized(a, lo) && Sized(a, d);
  }

  lemma FreeHands(a: Arena, p: int)
    requires Inv(a) && p in a.live
    ensures Inv(FreeChunk(a, p)) && LiveWithin(FreeChunk(a, p), a)
    ensures var lo, hi := Low(a, p), High(a, p);
            && StoreOk(FreeChunk(a, p), lo + 8) && StoreOk(FreeChunk(a, p), hi)
            && (hi in a.head ==> StoreOk(FreeChunk(a, p), hi + 8))
    ensures MIN_CHUNK_SIZE <= High(a, p) - Low(a, p) < SIZE_LIMIT && (High(a, p) - Low(a, p)) % 8 == 0
  {
    FreeOk(a, p);
    MergedSize(a, p);
    FreeTags(a, p);
    FreeBins(a, p);
    FreedWithin(a, p);
    hide Heap.Inv;
    FreedWords(FreeChunk(a, p), Low(a, p), High(a, p));
  }

  /** The words of a free chunk that reaches hi, and the head behind it. */
  lemma FreedWords(a: Arena, lo: int, hi: int)
    requires Inv(a) && lo in a.head && Next(a, lo) == hi && Free(a, lo)
    ensures StoreOk(a, lo + 8) && StoreOk(a, hi) && (hi in a.head ==> StoreOk(a, hi + 8))
  {
    assert Sized(a, lo) && ChunkWord(a, lo + 8) && ChunkWord(a, hi);
    if hi in a.head {
      assert ChunkWord(a, hi + 8) && Sized(a, hi);
    }
  }

  lemma FreedWithin(a: Arena, p: int)
    requires Inv(a) && p in a.live
    ensures LiveWithin(FreeChunk(a, p), a)
  {
    FreeTags(a, p);
    FreeBins(a, p);
    assert Classed(a, Low(a, p)) && Classed(a, Next(a, p));
    assert forall q :: q in a.live && q in a.head ==> Classed(a, q);
  }

  lemma FreeSegs(segs: seq<Segment>, a: Arena, p: int)
    requires SegsOk(segs, a) && Inv(a) && p in a.live
    ensures SegsOk(segs, FreeChunk(a, p))
  {
    FreeOk(a, p);
    FreeBins(a, p);
    Neighbours(a, p);
    var a' := FreeChunk(a, p);
    forall r | r in a.pinned
      ensures r in a.head && r in a'.head && a'.head[r].size == a.head[r].size
    {
      assert Classed(a, r) && Classed(a, Low(a, p)) && Classed(a, Next(a, p));
    }
    SegsKept(segs, a, a');
  }

  /** The heap right after `lj_alloc_create`: the chunk of the state itself, and the top. */
  function Created(tbase: int): Arena {
    var ts := DEFAULT_GRANULARITY - MSTATE_SIZE - TOP_FOOT_SIZE;
    var t := tbase + MSTATE_SIZE;
    Arena(map[tbase := Head(MSTATE_SIZE, true, true), t := Head(ts, true, false)], map[],
          0, 0, t, ts, map[], map[t + ts := Span(tbase, tbase + DEFAULT_GRANULARITY)], map[], {tbase})
  }

  lemma CreatedTiled(tbase: int)
    requires 0 < tbase && tbase % PAGE == 0 && tbase + DEFAULT_GRANULARITY <= ADDRESS_LIMIT
    ensures Tiled(Created(tbase)) && TopEnd(Created(tbase)) == tbase + DEFAULT_GRANULARITY - TOP_FOOT_SIZE
  {
    var a := Created(tbase);
    var e := a.top + a.topsize;
    assert a.head.Keys == {tbase, a.top} && a.spans.Keys == {e};
    CreatedInside(tbase, tbase);
    CreatedInside(tbase, a.top);
    assert tbase % 8 == 0;
  }

  lemma CreatedInside(tbase: int, c: int)
    requires tbase > 0 && c in Created(tbase).head
    ensures Inside(Created(tbase), c)
  {
    var a := Created(tbase);
    var e := a.top + a.topsize;
    assert e in a.spans && a.spans[e].base <= c && Next(a, c) <= e;
  }

  lemma CreatedOk(tbase: int)
    requires 0 < tbase && tbase % PAGE == 0 && tbase + DEFAULT_GRANULARITY <= ADDRESS_LIMIT
    ensures Inv(Created(tbase)) && SegsOk([Segment(tbase, DEFAULT_GRANULARITY, 0)], Created(tbase))
  {
    var a := Created(tbase);
    CreatedTiled(tbase);
    assert a.head.Keys == {tbase, a.top};
    var segs := [Segment(tbase, DEFAULT_GRANULARITY, 0)];
    assert SegEnd(segs, 0, TopEnd(a)) == TopEnd(a);
  }

  class MState {
    var head: map<int, Head>
    var foot: map<int, nat>
    var dv: int
    var dvsize: nat
    var top: int
    var topsize: nat
    var trim_check: nat
    var release_checks: nat
    const home: int  // the chunk that holds this state
    const small: SB.SmallBins
    const tree: TB.TreeBins
    const sys: System
    var segs: seq<Segment>
    var direct: map<int, Direct>

    ghost var spans: map<int, Span>
    ghost var live: map<int, nat>
    ghost var pinned: set<int>
    ghost var stores: iset<int>

    ghost function Binned(): map<int, nat>
      reads small, tree
    {
      small.Sizes() + tree.Sizes()
    }

    ghost function View(): Arena
      reads this, small, tree
    {
      Arena(head, foot, dv, dvsize, top, topsize, Binned(), spans, live, pinned)
    }

    ghost predicate BinsValid()
      reads small, tree
    {
      small.Valid() && tree.Valid() && small.Sizes().Keys !! tree.Sizes().Keys
    }

    ghost predicate Valid()
      reads this, small, tree
    {
      BinsValid() && Inv(View()) && SegsOk(segs, View()) && DirectOk(direct, segs)
    }

    /** `lj_alloc_create`, once the first segment has been mapped at tbase */
    constructor (tbase: int)
      requires 0 < tbase && tbase % PAGE == 0 && tbase + DEFAULT_GRANULARITY <= ADDRESS_LIMIT
      ensures Valid() && live == map[] && direct == map[] && fresh(small) && fresh(tree) && fresh(sys)
    {
      var a := Created(tbase);
      head, foot, dv, dvsize, top, topsize := a.head, a.foot, a.dv, a.dvsize, a.top, a.topsize;
      trim_check, release_checks := DEFAULT_TRIM_THRESHOLD, MAX_RELEASE_CHECK_RATE;
      segs, direct := [Segment(tbase, DEFAULT_GRANULARITY, 0)], map[];
      spans, live, pinned, stores := a.spans, a.live, a.pinned, iset{};
      home := tbase;
      small := new SB.SmallBins();
      tree := new TB.TreeBins();
      sys := new System();
      new;
      CreatedOk(tbase);
      assert View() == a;
    }

    /** `insert_chunk` */
    method InsertChunk(p: int, s: nat)
      requires BinsValid() && p > 0 && p !in Binned() && s % 8 == 0 && MIN_CHUNK_SIZE <= s < SIZE_LIMIT
      modifies small, tree
      ensures BinsValid() && Binned() == old(Binned())[p := s]
    {
      if IsSmall(s) {
        small.InsertSmallChunk(p, s);
      } else {
        tree.InsertLargeChunk(p, s);
      }
    }

    /** `unlink_chunk` */
    method UnlinkChunk(p: int, s: nat)
      requires BinsValid() && p in Binned() && Binned()[p] == s
      modifies small, tree
      ensures BinsValid() && Binned() == old(Binned()) - {p}
    {
      BinSizes(p);
      if IsSmall(s) {
        small.UnlinkSmallChunk(p, s);
      } else {
        tree.UnlinkLargeChunk(p);
      }
    }

    /** The size of a binned chunk tells which kind of bin holds it. */
    lemma BinSizes(p: int)
      requires BinsValid() && p in Binned()
      ensures IsSmall(Binned()[p]) <==> p in small.Sizes()
      ensures !IsSmall(Binned()[p]) <==> p in tree.Sizes()
    {
      if p in small.Sizes() {
        assert SB.Linked(small.View(), p);
      } else {
        assert Trie.Sized(tree.View(), p);
      }
    }

    /** A block at chunk p has been handed out for n bytes (or, if p is 0, nothing has happened). */
    twostate predicate HandedOut(p: int, n: nat)
      reads this, small, tree
    {
      && Valid() && Handed(old(View()), View(), p, n) && direct == old(direct) && segs == old(segs)
         && spans == old(spans)
      && Logged(old(stores), stores, old(View()), View())
    }

    /** `set_inuse_and_pinuse` on a free chunk that has left its bin or the victim's place */
    method TakeChunk(p: int, s: nat, n: nat, ghost a: Arena)
      requires Inv(a) && SegsOk(segs, a) && DirectOk(direct, segs) && BinsValid()
      requires p in a.head && Free(a, p) && p != a.top && a.head[p].size == s && n + CHUNK_OVERHEAD <= s
      requires View() == Declassed(a, p)
      modifies this`head, this`live, this`stores
      ensures Valid() && View() == TakeWhole(a, p, n) && Handed(a, View(), p, n)
      ensures Logged(old(stores), stores, a, View())
    {
      hide Heap.Inv, SegsOk, DirectOk, Handed, Logged, Spares, StoreOk, BinsValid, Binned;
      TakeWholeHands(a, p, n);
      TakeWholeSegs(segs, a, p, n);
      var next := p + s;
      head := head[p := Head(s, true, true)];
      head := head[next := head[next].(pinuse := true)];
      live := live[p := n];
      assert View() == TakeWhole(a, p, n);
      ghost var tags := iset{p + 8, next + 8};
      LogOk(stores, a, View(), tags);
      stores := stores + tags + Links(a.binned) + Links(Binned());
    }

    /** The front of a free chunk becomes a block; where its rest goes is up to the caller. */
    method CarveChunk(p: int, s: nat, nb: nat, n: nat, ghost rest: Class, ghost a: Arena)
      requires Inv(a) && SegsOk(segs, a) && DirectOk(direct, segs) && BinsValid()
      requires Splittable(a, p, nb, n, rest) && a.head[p].size == s && rest != AsTop
      requires View() == Reclass(a, p, p + nb, s - nb, rest)
      modifies this`head, this`foot, this`live, this`stores
      ensures Valid() && View() == SplitFree(a, p, nb, n, rest) && Handed(a, View(), p, n)
      ensures Logged(old(stores), stores, a, View())
    {
      hide Heap.Inv, SegsOk, DirectOk, Handed, Logged, Spares, StoreOk, BinsValid, Binned,
           Heap.Splittable, SplitFree, Reclass;
      SplitHands(a, p, nb, n, rest);
      SplitSegs(segs, a, p, nb, n, rest);
      SplitIs(a, p, nb, n, rest);
      ghost var a' := SplitFree(a, p, nb, n, rest);
      var r, rsize := p + nb, s - nb;
      ghost var tags := iset{p + 8, r + 8, r + rsize};
      LogOk(stores, a, a', tags);
      stores := stores + tags + Links(a.binned) + Links(a'.binned);
      head := head[p := Head(nb, true, true)][r := Head(rsize, true, false)];
      foot := foot[r + rsize := rsize];
      live := live[p := n];
      assert View() == a';
    }

    /** A request that the designated victim can serve. */
    method FromVictim(nb: nat, n: nat) returns (p: int)
      requires Valid() && nb % 8 == 0 && MIN_CHUNK_SIZE <= nb <= dvsize && n + CHUNK_OVERHEAD <= nb
      modifies this
      ensures HandedOut(p, n) && p != 0 && p == old(dv) && Remains(old(View()), View(), nb, p)
    {
      hide Heap.Inv, SegsOk, DirectOk, Handed, Logged, Spares, StoreOk, BinsValid, Binned;
      ghost var a := View();
      VictimFacts(a);
      var rsize := dvsize - nb;
      p := dv;
      var s := dvsize;
      if rsize >= MIN_CHUNK_SIZE {  // split dv
        dv, dvsize := p + nb, rsize;
        CarveChunk(p, s, nb, n, AsDv, a);
        SplitRemains(a, p, nb, n, AsDv);
      } else {  // exhaust dv
        dv, dvsize := 0, 0;
        TakeChunk(p, s, n, a);
        TakenRemains(a, p, nb, n);
      }
    }

    /** A request that the top can serve. */
    method FromTop(nb: nat, n: nat) returns (p: int)
      requires Valid() && nb % 8 == 0 && MIN_CHUNK_SIZE <= nb < topsize && n + CHUNK_OVERHEAD <= nb
      modifies this
      ensures HandedOut(p, n) && p != 0 && p == old(top) && Remains(old(View()), View(), nb, p)
    {
      hide Heap.Inv, SegsOk, DirectOk, Handed, Logged, SplitFree, StoreOk, Spares, BinsValid, Binned;
      ghost var a := View();
      TopFacts(a);
      ghost var a' := SplitFree(a, top, nb, n, AsTop);
      SplitTopIs(a, nb, n);
      SplitHands(a, top, nb, n, AsTop);
      SplitSegs(segs, a, top, nb, n, AsTop);
      ghost var tags := iset{top + 8, top + nb + 8};
      LogOk(stores, a, a', tags);
      stores := stores + tags + Links(a.binned) + Links(a'.binned);
      p := top;
      CutTop(nb, n);
      assert View() == a';
      SplitRemains(a, p, nb, n, AsTop);
    }

    /** The top chunk gives its front to a block of n bytes. */
    method CutTop(nb: nat, n: nat)
      requires nb < topsize
      modifies this`top, this`topsize, this`head, this`live
      ensures top == old(top) + nb && topsize == old(topsize) - nb && live == old(live)[old(top) := n]
      ensures head == old(head)[old(top) := Head(nb, true, true)][top := Head(topsize, true, false)]
    {
      var rsize := topsize - nb;
      var p := top;
      var r := p + nb;
      topsize, top := rsize, r;
      head := head[p := Head(nb, true, true)][r := Head(rsize, true, false)];
      live := live[p := n];
    }

    /** The first chunk of small bin i, unlinked. */
    method FirstOfSmallBin(i: nat) returns (p: int)
      requires BinsValid() && i < 32 && BinMap.Marked(small.smallmap, i)
      modifies small
      ensures BinsValid() && p in old(Binned()) && old(Binned())[p] == 8 * i && Binned() == old(Binned()) - {p}
    {
      p := small.UnlinkFirstSmallChunk(i);
    }

    /** A binned chunk has left its bin: the rest of the heap is as before. */
    lemma BinnedFacts(a: Arena, p: int)
      requires Inv(a) && p in a.binned
      ensures p in a.head && Free(a, p) && p != a.top && p != a.dv && a.head[p].size == a.binned[p] && p > 0
      ensures a.binned[p] % 8 == 0 && MIN_CHUNK_SIZE <= a.binned[p] < SIZE_LIMIT
      ensures Declassed(a, p) == a.(binned := a.binned - {p})
    {
      assert Classed(a, p) && Sized(a, p);
    }

    /** The chunk p of size s, just taken from its bin, serves a small request; a remainder that
        is large enough replaces the victim (`replace_dv`). */
    method UseSmall(p: int, s: nat, nb: nat, n: nat, ghost a: Arena)
      requires Inv(a) && SegsOk(segs, a) && DirectOk(direct, segs) && BinsValid()
      requires p in a.binned && a.binned[p] == s && View() == a.(binned := a.binned - {p})
      requires nb % 8 == 0 && MIN_CHUNK_SIZE <= nb <= s && n + CHUNK_OVERHEAD <= nb && dvsize < nb < 256
      modifies this, small, tree
      ensures Valid() && Handed(a, View(), p, n) && direct == old(direct) && segs == old(segs) && spans == old(spans)
      ensures Logged(old(stores), stores, a, View()) && Remains(a, View(), nb, p)
    {
      hide Heap.Inv, SegsOk, DirectOk, Handed, Logged, Spares, StoreOk, BinsValid, Binned, Remains;
      BinnedFacts(a, p);
      var rsize := s - nb;
      if rsize < MIN_CHUNK_SIZE {
        TakeChunk(p, s, n, a);
        TakenRemains(a, p, nb, n);
      } else {
        ReplaceVictim(p + nb, rsize, a, p);
        CarveChunk(p, s, nb, n, AsDv, a);
        SplitRemains(a, p, nb, n, AsDv);
      }
    }

    /** `replace_dv` */
    method ReplaceVictim(r: int, rsize: nat, ghost a: Arena, ghost p: int)
      requires Inv(a) && BinsValid() && p in a.binned && View() == a.(binned := a.binned - {p}) && dvsize < 256
      modifies this`dv, this`dvsize, small, tree
      ensures BinsValid() && View() == Reclass(a, p, r, rsize, AsDv)
    {
      hide Heap.Inv, StoreOk, BinsValid, Binned;
      BinnedFacts(a, p);
      if dvsize != 0 {
        VictimFacts(a);
        InsertChunk(dv, dvsize);
      }
      VictimIsNull(a);
      dv, dvsize := r, rsize;
      assert View() == Reclass(a, p, r, rsize, AsDv);
    }

    lemma VictimIsNull(a: Arena)
      requires Inv(a)
      ensures a.dv == 0 <==> a.dvsize == 0
    {
    }

    /** `tmalloc_small` */
    method TmallocSmall(nb: nat, n: nat) returns (p: int)
      requires Valid() && tree.treemap != 0
      requires nb % 8 == 0 && MIN_CHUNK_SIZE <= nb < 256 && n + CHUNK_OVERHEAD <= nb && dvsize < nb
      modifies this, small, tree
      ensures HandedOut(p, n) && p != 0 && Remains(old(View()), View(), nb, p)
      ensures p in old(tree.Sizes())
      ensures forall x :: x in old(tree.Sizes()) ==> old(tree.Sizes())[p] <= old(tree.Sizes())[x]
    {
      hide Heap.Inv, SegsOk, DirectOk, Handed, Logged, Spares, StoreOk;
      ghost var a := View();
      var rsize;
      p, rsize := tree.FindSmallest(nb);
      SmallestTree(p, rsize, nb);
      BinnedFacts(a, p);
      tree.UnlinkLargeChunk(p);
      UseSmall(p, nb + rsize, nb, n, a);
    }

    lemma SmallestTree(v: int, rsize: nat, nb: nat)
      requires BinsValid() && v != 0 && nb < 256
      requires TrieSearch.BestFit(tree.View(), nb, v) && TrieSearch.Best(tree.View(), nb, v, rsize)
      ensures v in tree.Sizes() && v in tree.nodes && tree.Sizes()[v] == nb + rsize
      ensures forall x :: x in tree.Sizes() ==> tree.Sizes()[v] <= tree.Sizes()[x]
      ensures v in Binned() && Binned()[v] == nb + rsize
      ensures Binned() - {v} == small.Sizes() + (tree.Sizes() - {v})
    {
      forall x | x in tree.Sizes()
        ensures tree.Sizes()[v] <= tree.Sizes()[x]
      {
        assert Trie.Sized(tree.View(), x);
      }
    }

    /** `tmalloc_large`: the best fitting tree chunk, unless the victim fits at least as well. */
    method TmallocLarge(nb: nat, n: nat) returns (p: int)
      requires Valid() && nb % 8 == 0 && 256 <= nb < WORD64 && n + CHUNK_OVERHEAD <= nb
      modifies this, small, tree
      ensures HandedOut(p, n) && (p != 0 ==> Remains(old(View()), View(), nb, p))
      ensures p != 0 ==> p in old(tree.Sizes()) && old(tree.Sizes())[p] >= nb
      ensures p != 0 ==> forall x :: x in old(tree.Sizes()) && old(tree.Sizes())[x] >= nb ==>
                                       old(tree.Sizes())[p] <= old(tree.Sizes())[x]
      ensures p != 0 && nb <= old(dvsize) ==> old(tree.Sizes())[p] < old(dvsize)
      ensures p == 0 ==> forall x :: x in old(tree.Sizes()) && old(tree.Sizes())[x] >= nb ==>
                                       nb <= old(dvsize) <= old(tree.Sizes())[x]
    {
      hide Heap.Inv, SegsOk, DirectOk, Handed, Logged, Spares, StoreOk;
      ghost var a := View();
      var v, rsize := tree.FindBestFit(nb);
      LargeTree(v, rsize, nb);
      SizesBounded(a);
      if v != 0 && rsize < TrieSearch.Sub64(dvsize, nb) {
        BinnedFacts(a, v);
        tree.UnlinkLargeChunk(v);
        UseLarge(v, nb + rsize, nb, n, a);
        p := v;
      } else {
        p := 0;
        HandedNothing(a, n, stores);
      }
    }

    lemma HandedNothing(a: Arena, n: nat, s: iset<int>)
      ensures Handed(a, a, 0, n) && Logged(s, s, a, a)
    {
    }

    lemma HandedZero(a: Arena, a': Arena, n: nat)
      requires Handed(a, a', 0, n)
      ensures a' == a
    {
    }

    lemma SizesBounded(a: Arena)
      requires Inv(a)
      ensures a.dvsize < SIZE_LIMIT && a.topsize < SIZE_LIMIT
    {
      assert Sized(a, a.top);
      assert a.dv != 0 ==> Sized(a, a.dv) && Classed(a, a.dv);
    }

    lemma LargeTree(v: int, rsize: nat, nb: nat)
      requires BinsValid() && nb < WORD64
      requires TrieSearch.BestFit(tree.View(), nb, v) && TrieSearch.Best(tree.View(), nb, v, rsize)
      ensures v == 0 ==> forall x :: x in tree.Sizes() ==> tree.Sizes()[x] < nb
      ensures v != 0 ==>
                && v in tree.Sizes() && v in tree.nodes && tree.Sizes()[v] == nb + rsize < SIZE_LIMIT
                && v in Binned() && Binned()[v] == nb + rsize
                && Binned() - {v} == small.Sizes() + (tree.Sizes() - {v})
                && forall x :: x in tree.Sizes() && tree.Sizes()[x] >= nb ==> tree.Sizes()[v] <= tree.Sizes()[x]
    {
      assert v != 0 ==> Trie.Sized(tree.View(), v);
    }

    /** The chunk p of size s, just taken from a tree bin, serves a large request; a remainder that
        is large enough is binned. */
    method UseLarge(p: int, s: nat, nb: nat, n: nat, ghost a: Arena)
      requires Inv(a) && SegsOk(segs, a) && DirectOk(direct, segs) && BinsValid()
      requires p in a.binned && a.binned[p] == s && View() == a.(binned := a.binned - {p})
      requires nb % 8 == 0 && MIN_LARGE_SIZE <= nb <= s && n + CHUNK_OVERHEAD <= nb
      modifies this, small, tree
      ensures Valid() && Handed(a, View(), p, n) && direct == old(direct) && segs == old(segs) && spans == old(spans)
      ensures Logged(old(stores), stores, a, View()) && Remains(a, View(), nb, p)
    {
      hide Heap.Inv, SegsOk, DirectOk, Handed, Logged, Spares, StoreOk, BinsValid, Binned, Remains;
      BinnedFacts(a, p);
      var rsize := s - nb;
      if rsize < MIN_CHUNK_SIZE {
        TakeChunk(p, s, n, a);
        TakenRemains(a, p, nb, n);
      } else {
        FreshRemainder(a, p, nb, n);
        InsertChunk(p + nb, rsize);
        CarveChunk(p, s, nb, n, AsBin, a);
        SplitRemains(a, p, nb, n, AsBin);
      }
    }

    lemma FreshRemainder(a: Arena, c: int, nb: nat, n: nat)
      requires Inv(a) && Splittable(a, c, nb, n, AsBin)
      ensures c + nb !in a.binned && c + nb > 0
    {
      SplitOk(a, c, nb, n, AsBin);
      assert Sized(a, c);
    }

    /** The remainderless fit to a small bin. */
    method FromSmallBin(i: nat, n: nat) returns (p: int)
      requires Valid() && i < 32 && BinMap.Marked(small.smallmap, i) && n + CHUNK_OVERHEAD <= 8 * i
      modifies this, small, tree
      ensures HandedOut(p, n) && p != 0 && p in old(Binned()) && old(Binned())[p] == 8 * i
      ensures forall nb: nat :: 8 * i - nb < MIN_CHUNK_SIZE ==> Remains(old(View()), View(), nb, p)
    {
      hide Heap.Inv, SegsOk, DirectOk, Handed, Logged, Spares, StoreOk, BinsValid, Binned, Remains;
      ghost var a := View();
      p := FirstOfSmallBin(i);
      BinnedFacts(a, p);
      TakeChunk(p, 8 * i, n, a);
      forall nb: nat | 8 * i - nb < MIN_CHUNK_SIZE
        ensures Remains(a, View(), nb, p)
      {
        TakenRemains(a, p, nb, n);
      }
    }

    /** A chunk from a small bin with larger chunks is split. */
    method SplitSmallBin(i: nat, nb: nat, n: nat) returns (p: int)
      requires Valid() && i < 32 && BinMap.Marked(small.smallmap, i)
      requires nb % 8 == 0 && MIN_CHUNK_SIZE <= nb <= 8 * i && n + CHUNK_OVERHEAD <= nb && dvsize < nb
      modifies this, small, tree
      ensures HandedOut(p, n) && p != 0 && p in old(Binned()) && old(Binned())[p] == 8 * i
      ensures Remains(old(View()), View(), nb, p)
    {
      hide Heap.Inv, SegsOk, DirectOk, Handed, Logged, Spares, StoreOk, BinsValid, Binned, Remains;
      ghost var a := View();
      p := FirstOfSmallBin(i);
      BinnedFacts(a, p);
      UseSmall(p, 8 * i, nb, n, a);
    }

    /** The least marked bin from nb upwards holds the smallest binned chunks that fit. */
    lemma LeastSmallBin(nb: nat, i: nat)
      requires BinsValid() && nb % 8 == 0 && BinMap.LeastMarked(small.smallmap, SB.SmallIndex(nb), i)
      ensures nb <= 8 * i && i < 32
      ensures forall c :: c in Binned() && Binned()[c] >= nb ==> 8 * i <= Binned()[c]
    {
      forall c | c in Binned() && Binned()[c] >= nb
        ensures 8 * i <= Binned()[c]
      {
        if c in small.Sizes() {
          assert SB.Linked(small.View(), c);
        } else {
          assert Trie.Sized(tree.View(), c);
        }
      }
    }

    lemma NoSmallBin(nb: nat)
      requires BinsValid() && nb % 8 == 0
      requires forall j :: SB.SmallIndex(nb) <= j < 32 ==> !BinMap.Marked(small.smallmap, j)
      ensures forall c :: c in small.Sizes() ==> small.Sizes()[c] < nb
    {
      forall c | c in small.Sizes()
        ensures small.Sizes()[c] < nb
      {
        assert SB.Linked(small.View(), c);
      }
    }

    lemma NoTree()
      requires BinsValid() && tree.treemap == 0
      ensures tree.Sizes() == map[]
    {
      forall x | x in tree.Sizes()
        ensures false
      {
        var y := Trie.RingReachesTrie(tree.View(), x);
        var i := tree.nodes[y].index;
        Bits.BitZero(i);
        TB.BelowRoot(tree.View(), y);
        BinMap.MarkedBit(0, i);
      }
    }

    /** p is a smallest of the binned chunks (given by their sizes) that hold nb bytes. */
    ghost predicate BestBinned(b: map<int, nat>, nb: nat, p: int) {
      p in b && b[p] >= nb && forall c :: c in b && b[c] >= nb ==> b[p] <= b[c]
    }

    /** Only chunks in the trees fit a large request. */
    lemma LargeInTrees(nb: nat)
      requires BinsValid() && nb >= 256
      ensures forall p :: p in tree.Sizes() && tree.Sizes()[p] >= nb
                && (forall x :: x in tree.Sizes() && tree.Sizes()[x] >= nb ==> tree.Sizes()[p] <= tree.Sizes()[x])
                ==> BestBinned(Binned(), nb, p)
      ensures forall c :: c in Binned() && Binned()[c] >= nb ==> c in tree.Sizes() && tree.Sizes()[c] == Binned()[c]
    {
      forall c | c in Binned() && Binned()[c] >= nb
        ensures c in tree.Sizes()
      {
        assert c in small.Sizes() ==> SB.Linked(small.View(), c);
      }
    }

    /** The part of `lj_alloc_malloc` that serves a small request from the bins: with a best fitting
        chunk, or not at all (0) if there is none or the victim is to be used. */
    method MallocSmall(nb: nat, n: nat) returns (p: int)
      requires Valid() && nb % 8 == 0 && MIN_CHUNK_SIZE <= nb < 256 && n + CHUNK_OVERHEAD <= nb
      modifies this, small, tree
      ensures HandedOut(p, n)
      ensures p != 0 ==> BestBinned(old(Binned()), nb, p) && Remains(old(View()), View(), nb, p)
      ensures p == 0 ==> nb <= old(dvsize) || forall c :: c in old(Binned()) ==> old(Binned())[c] < nb
      ensures p == 0 ==> NoneNear(old(Binned()), nb)
      ensures p != 0 ==> old(dvsize) < nb || !NoneNear(old(Binned()), nb)
    {
      hide Heap.Inv, SegsOk, DirectOk, Handed, Logged, Spares, StoreOk, BinsValid, Binned, NoneNear;
      ghost var a := View();
      NearBins(nb);
      var idx := SB.SmallIndex(nb);
      SmallMapWord();
      var smallbits := Bits.Shr(small.smallmap, idx);
      BinMap.NearSmallBin(small.smallmap, idx);
      if Bits.And(smallbits, 3) != 0 {  // remainderless fit to a small bin, or to the next one
        idx := idx + Bits.And(BinMap.Not32(smallbits), 1);
        LeastSmallBin(nb, idx);
        p := FromSmallBin(idx, n);
        ItIsNear(a.binned, nb, p);
      } else if nb > dvsize {
        p := MallocLarger(nb, n, smallbits);
      } else {
        p := 0;
        HandedNothing(a, n, stores);
      }
    }

    lemma NearBins(nb: nat)
      requires BinsValid() && nb % 8 == 0 && MIN_CHUNK_SIZE <= nb < 256
      ensures Bits.And(Bits.Shr(small.smallmap, SB.SmallIndex(nb)), 3) == 0 ==> NoneNear(Binned(), nb)
    {
      var idx := SB.SmallIndex(nb);
      BinMap.NearSmallBin(small.smallmap, idx);
      if Bits.And(Bits.Shr(small.smallmap, idx), 3) == 0 {
        forall c | c in Binned()
          ensures !(nb <= Binned()[c] <= nb + 8 && Binned()[c] < MIN_LARGE_SIZE)
        {
          if c in small.Sizes() {
            assert SB.Linked(small.View(), c);
          } else {
            assert Trie.Sized(tree.View(), c);
          }
        }
      }
    }

    lemma SmallMapWord()
      requires BinsValid()
      ensures small.smallmap < Bits.Pow2(32)
    {
    }

    /** No bin of the size asked for: use the next non-empty small bin, or else the trees. */
    method MallocLarger(nb: nat, n: nat, smallbits: nat) returns (p: int)
      requires Valid() && nb % 8 == 0 && MIN_CHUNK_SIZE <= nb < 256 && n + CHUNK_OVERHEAD <= nb && dvsize < nb
      requires smallbits == Bits.Shr(small.smallmap, SB.SmallIndex(nb)) && Bits.And(smallbits, 3) == 0
      modifies this, small, tree
      ensures HandedOut(p, n)
      ensures p != 0 ==> BestBinned(old(Binned()), nb, p) && Remains(old(View()), View(), nb, p)
      ensures p == 0 ==> forall c :: c in old(Binned()) ==> old(Binned())[c] < nb
    {
      hide Heap.Inv, SegsOk, DirectOk, Handed, Logged, Spares, StoreOk, BinsValid, Binned;
      ghost var a := View();
      var idx := SB.SmallIndex(nb);
      SmallMapWord();
      BinMap.FarSmallBin(small.smallmap, idx);
      if smallbits != 0 {
        var leftbits := Bits.And(Bits.Shl(smallbits, idx, 32), BinMap.LeftBits(BinMap.IdxBit(idx)));
        var i := Bits.Ffs(leftbits);
        LeastSmallBin(nb, i);
        p := SplitSmallBin(i, nb, n);
      } else {
        NoSmallBin(nb);
        if tree.treemap != 0 {
          OnlyTrees(nb);
          p := TmallocSmall(nb, n);
        } else {
          NoTree();
          OnlyTrees(nb);
          p := 0;
          HandedNothing(a, n, stores);
        }
      }
    }

    /** With no small chunk that fits, a smallest tree chunk is a best fit. */
    lemma OnlyTrees(nb: nat)
      requires BinsValid() && nb < 256 && forall c :: c in small.Sizes() ==> small.Sizes()[c] < nb
      ensures forall p :: p in tree.Sizes() && (forall x :: x in tree.Sizes() ==> tree.Sizes()[p] <= tree.Sizes()[x])
                ==> BestBinned(Binned(), nb, p)
      ensures tree.Sizes() == map[] ==> forall c :: c in Binned() ==> Binned()[c] < nb
    {
      forall p | p in tree.Sizes() && (forall x :: x in tree.Sizes() ==> tree.Sizes()[p] <= tree.Sizes()[x])
        ensures BestBinned(Binned(), nb, p)
      {
        assert Trie.Sized(tree.View(), p);
      }
    }

    // ---- lj_alloc_free

    /** p is being freed: q is where the merged chunk starts, psize its size up to the successor;
        a binned predecessor has been unlinked already. */
    ghost predicate Freeing(a: Arena, p: int, q: int, psize: nat)
      reads this, small, tree
    {
      && Inv(a) && SegsOk(segs, a) && DirectOk(direct, segs) && BinsValid()
      && p in a.live && p in a.head && q == Low(a, p) && q + psize == Next(a, p)
      && View() == a.(binned := a.binned - {q})
    }

    /** p is free, and whatever was stored spares the others. */
    twostate predicate Freed(a: Arena, p: int)
      reads this, small, tree
    {
      && Valid() && p in a.head && View() == FreeChunk(a, p) && direct == old(direct) && segs == old(segs)
      && trim_check == old(trim_check) && release_checks == old(release_checks)
      && Logged(old(stores), stores, a, View())
    }

    /** The successor is in use and the predecessor was the victim, which grows. */
    method FreeToVictim(p: int, q: int, psize: nat, ghost a: Arena)
      requires Freeing(a, p, q, psize) && q == dv && q + psize in head && head[q + psize].cinuse
      modifies this
      ensures Freed(a, p)
    {
      hide Heap.Inv, SegsOk, DirectOk, Logged, Spares, StoreOk, BinsValid, Binned, FreeChunk, FreeStores;
      FreeStep(segs, a, p, stores);
      FreeToVictimIs(a, p);
      var next := q + psize;
      ghost var a' := FreeChunk(a, p);
      stores := FreeStores(stores, a, p);
      dvsize := psize;
      head := (head - {p})[next := head[next].(pinuse := false)][q := Head(psize, true, false)];
      foot := foot[next := psize];
      live := live - {p};
      assert View() == a';
    }

    /** The successor is the top, which grows downwards. */
    method FreeToTop(p: int, q: int, psize: nat, ghost a: Arena)
      requires Freeing(a, p, q, psize) && q + psize == top
      modifies this
      ensures Freed(a, p) && top == q
    {
      hide Heap.Inv, SegsOk, DirectOk, Logged, Spares, StoreOk, BinsValid, Binned, FreeChunk, FreeStores;
      FreeStep(segs, a, p, stores);
      FreeToTopIs(a, p);
      ghost var a' := FreeChunk(a, p);
      MergeTop(p, q, psize, a);
      if q == dv {
        dv, dvsize := 0, 0;
      }
      assert View() == a';
    }

    /** The top chunk takes in the chunk q before it, of which p was a part. */
    method MergeTop(p: int, q: int, psize: nat, ghost a: Arena)
      requires p in a.head
      modifies this`top, this`topsize, this`head, this`live, this`stores
      ensures top == q && topsize == old(topsize) + psize && live == old(live) - {p}
      ensures head == (old(head) - {p, old(top)})[q := Head(topsize, true, false)]
      ensures stores == FreeStores(old(stores), a, p)
    {
      stores := FreeStores(stores, a, p);
      var next := top;
      topsize := topsize + psize;
      top := q;
      head := (head - {p, next})[q := Head(topsize, true, false)];
      live := live - {p};
    }

    /** The successor is the victim, which grows downwards. */
    method FreeIntoVictim(p: int, q: int, psize: nat, ghost a: Arena)
      requires Freeing(a, p, q, psize) && q + psize == dv && dvsize > 0
      modifies this
      ensures Freed(a, p)
    {
      hide Heap.Inv, SegsOk, DirectOk, Logged, Spares, StoreOk, BinsValid, Binned, FreeChunk, FreeStores;
      FreeStep(segs, a, p, stores);
      FreeIntoVictimIs(a, p);
      var next := dv;
      var dsize := dvsize + psize;
      ghost var a' := FreeChunk(a, p);
      stores := FreeStores(stores, a, p);
      dvsize, dv := dsize, q;
      head := (head - {p, next})[q := Head(dsize, true, false)];
      foot := foot[q + dsize := dsize];
      live := live - {p};
      assert View() == a';
    }

    /** The successor is a binned chunk, which is merged. */
    method FreeWithNext(p: int, q: int, psize: nat, ghost a: Arena) returns (size: nat)
      requires Freeing(a, p, q, psize) && q + psize in a.head
      requires Free(a, q + psize) && q + psize != top && q + psize != dv
      modifies this, small, tree
      ensures Freed(a, p) && size == (if q == old(dv) then 0 else High(a, p) - q)
    {
      hide Heap.Inv, SegsOk, DirectOk, Logged, Spares, StoreOk, BinsValid, Binned, FreeChunk, FreeStores;
      FreeStep(segs, a, p, stores);
      FreeWithNextIs(a, p);
      var next := q + psize;
      var nsize := head[next].size;
      UnlinkChunk(next, nsize);
      var s := psize + nsize;
      MergedTags(p, next, q, s, a);
      if q == dv {
        dvsize := s;
        size := 0;
      } else {
        InsertChunk(q, s);
        size := s;
      }
      assert View() == FreeChunk(a, p);
    }

    /** The tags of a chunk merged from p and both neighbours, or from p and its successor. */
    method MergedTags(p: int, next: int, q: int, s: nat, ghost a: Arena)
      requires p in a.head
      modifies this`head, this`foot, this`live, this`stores
      ensures head == (old(head) - {p, next})[q := Head(s, true, false)] && foot == old(foot)[q + s := s]
      ensures live == old(live) - {p} && stores == FreeStores(old(stores), a, p)
    {
      stores := FreeStores(stores, a, p);
      head := (head - {p, next})[q := Head(s, true, false)];
      foot := foot[q + s := s];
      live := live - {p};
    }

    /** The successor is in use, and the predecessor was not the victim. */
    method FreePlain(p: int, q: int, psize: nat, ghost a: Arena) returns (size: nat)
      requires Freeing(a, p, q, psize) && q != dv && q + psize in head && head[q + psize].cinuse
      modifies this, small, tree
      ensures Freed(a, p) && size == High(a, p) - q
    {
      hide Heap.Inv, SegsOk, DirectOk, Logged, Spares, StoreOk, BinsValid, Binned, FreeChunk, FreeStores;
      FreeStep(segs, a, p, stores);
      FreePlainIs(a, p);
      var next := q + psize;
      ghost var a' := FreeChunk(a, p);
      stores := FreeStores(stores, a, p);
      head := (head - {p})[next := head[next].(pinuse := false)][q := Head(psize, true, false)];
      foot := foot[next := psize];
      live := live - {p};
      InsertChunk(q, psize);
      size := psize;
      assert View() == a';
    }

    /** `lj_alloc_free` for a chunk of the heap, up to the housekeeping: coalesce p with its free
        neighbours. `size` is the size of the chunk if it was binned, else 0; `toTop` tells whether
        it went to the top. */
    method FreeChunkAt(p: int) returns (size: nat, toTop: bool)
      requires Valid() && p in live
      ensures p in old(head) && (toTop <==> p + old(head)[p].size == old(top))
      modifies this, small, tree
      ensures Freed(old(View()), p)
      ensures size == SizeToBin(old(View()), p)
    {
      hide Heap.Inv, SegsOk, DirectOk, Logged, Spares, StoreOk, BinsValid, Binned, FreeChunk;
      ghost var a := View();
      FreeShape(a, p);
      var psize := head[p].size;
      var next := p + psize;
      var q := p;
      size, toTop := 0, false;
      if !head[p].pinuse {
        var prevsize := foot[p];
        q := p - prevsize;
        psize := psize + prevsize;
        if q != dv {
          UnlinkChunk(q, prevsize);
        } else if head[next].pinuse && head[next].cinuse {
          FreeToVictim(p, q, psize, a);
          return;
        }
      }
      if !head[next].cinuse {
        if next == top {
          FreeToTop(p, q, psize, a);
          toTop := true;
        } else if next == dv {
          FreeIntoVictim(p, q, psize, a);
        } else {
          size := FreeWithNext(p, q, psize, a);
        }
      } else {
        size := FreePlain(p, q, psize, a);
      }
    }

    // ---- Memory from the system

    /** `CALL_MMAP`: the system refuses, or maps a page-aligned region that was not mapped. */
    method Mmap(size: nat) returns (ok: bool, b: int)
      modifies sys
      ensures ok ==> Unmapped(segs, direct, b, size)
      ensures sys.calls == old(sys.calls) + [Map(size, ok)]
    {
      b := *;
      ok := Unmapped(segs, direct, b, size);
      sys.calls := sys.calls + [Map(size, ok)];
    }

    /** `CALL_MUNMAP`: the system obeys or refuses. */
    method Munmap(base: int, size: nat) returns (ok: bool)
      modifies sys
      ensures sys.calls == old(sys.calls) + [Unmap(base, size, ok)]
    {
      ok := *;
      sys.calls := sys.calls + [Unmap(base, size, ok)];
    }

    /** `CALL_MREMAP` without leave to move the pages */
    method MremapHere(base: int, size: nat, newsize: nat) returns (ok: bool)
      modifies sys
      ensures sys.calls == old(sys.calls) + [Remap(base, size, newsize, ok)]
    {
      ok := *;
      sys.calls := sys.calls + [Remap(base, size, newsize, ok)];
    }

    /** `direct_alloc` */
    method DirectAlloc(nb: nat, n: nat) returns (p: int, ghost asked: seq<Call>)
      requires Valid() && nb < WORD64 && (nb == MAX_SIZE_T || n + CHUNK_OVERHEAD <= nb)
      modifies this`direct, sys
      ensures sys.calls == old(sys.calls) + asked
      ensures if Wraps(nb + 55, PAGE) then p == 0 && asked == []
              else |asked| == 1 && MapsFor(asked[0], nb + 55, PAGE) && (p != 0 <==> asked[0].ok)
      ensures p != 0 ==> p > 0 && p in direct && direct[p].mmsize == asked[0].size
      ensures Valid() && View() == old(View())
      ensures if p == 0 then direct == old(direct)
              else p !in old(direct) && p in direct && direct == old(direct)[p := direct[p]] && direct[p].request == n
    {
      hide Heap.Inv, SegsOk, BinsValid, Binned;
      p, asked := 0, [];
      DirectSize(nb);
      LargestRequest(nb);
      var mmsize := PageAlign((nb + 55) % WORD64);
      if mmsize > nb {  // check for wrap around 0
        var ok, mm := Mmap(mmsize);
        asked := [Map(mmsize, ok)];
        if ok {  // page-aligned, so the offset to the chunk is 0
          p := mm;
          direct := direct[p := Direct(mmsize - 32, mmsize, n)];
        }
      }
    }

    lemma HasSegment(segs: seq<Segment>, a: Arena)
      requires SegsOk(segs, a)
      ensures |segs| > 0
    {
    }

    /** Append a new mapping to the segment of the top. */
    method ExtendTop(ext: nat)
      requires Valid() && ext % DEFAULT_GRANULARITY == 0
      requires Unmapped(segs, direct, segs[0].base + segs[0].size, ext)
      modifies this
      ensures Valid() && View() == ResizeTop(old(View()), old(topsize) + ext) && direct == old(direct) && topsize >= ext
      ensures LiveKept(old(View()), View()) && Logged(old(stores), stores, old(View()), View())
      ensures TotalSize(segs) == old(TotalSize(segs)) + ext && |segs| == |old(segs)|
    {
      hide Heap.Inv, SegsOk, DirectOk, Logged, Spares, StoreOk, BinsValid, Binned, TotalSize;
      ghost var a := View();
      HasSegment(segs, a);
      ReplacedTotal(segs, 0, segs[0].(size := segs[0].size + ext));
      ExtendStep(segs, direct, a, ext, stores);
      var ts := topsize + ext;
      StretchTop(ext, a);
      assert View() == ResizeTop(a, ts);
    }

    /** The first segment and the top chunk in it grow by ext (`init_top`). */
    method StretchTop(ext: nat, ghost a: Arena)
      requires |segs| > 0 && TopEnd(a) in a.spans
      modifies this`segs, this`stores, this`spans, this`topsize, this`head, this`trim_check
      ensures segs == old(segs)[0 := old(segs)[0].(size := old(segs)[0].size + ext)]
      ensures topsize == old(topsize) + ext && spans == ResizeTop(a, topsize).spans
      ensures head == old(head)[top := Head(topsize, true, false)]
      ensures stores == old(stores) + iset{top + 8, top + topsize + 8}
    {
      hide ResizeTop;
      var ts := topsize + ext;
      segs := segs[0 := segs[0].(size := segs[0].size + ext)];
      stores := stores + iset{top + 8, top + ts + 8};
      spans := ResizeTop(a, ts).spans;
      topsize := ts;
      head := head[top := Head(ts, true, false)];
      trim_check := DEFAULT_TRIM_THRESHOLD;
    }

    /** Where the record of the segment of the top is to go: over the padding, or over a top that
        is too small for a chunk. */
    method RecordAddress() returns (csp: int)
      requires Inv(View()) && SegsOk(segs, View())
      ensures csp == Retired(View()) && (csp == top <==> topsize < MIN_CHUNK_SIZE)
    {
      hide Heap.Inv, SegsOk, Binned;
      HasSegment(segs, View());
      RecordPlace(segs, View());
      var old_end := segs[0].base + segs[0].size;
      var rawsp := old_end - (RECORD_SIZE + 32 + 7);
      var asp := rawsp + AlignOffset(rawsp + 16);
      csp := if asp < top + MIN_CHUNK_SIZE then top else asp;
    }

    /** `add_segment`: record the old segment at its end, start a new one with a new top. */
    method AddNewSegment(tbase: int, tsize: nat)
      requires Valid() && tsize % DEFAULT_GRANULARITY == 0 && tsize > 0 && Unmapped(segs, direct, tbase, tsize)
      modifies this, small, tree
      ensures Valid() && TopEnd(old(View())) in old(View()).spans && tsize > TOP_FOOT_SIZE && old(top) in old(head)
      ensures View() == AddSegment(old(View()), tbase, tsize) && direct == old(direct)
      ensures topsize == tsize - TOP_FOOT_SIZE
      ensures LiveKept(old(View()), View()) && Logged(old(stores), stores, old(View()), View())
      ensures TotalSize(segs) == old(TotalSize(segs)) + tsize && |segs| == |old(segs)| + 1
    {
      hide Heap.Inv, SegsOk, DirectOk, Logged, Spares, StoreOk, BinsValid, Binned, Unmapped, LiveKept, AddStores,
           AddSegment, TotalSize;
      ghost var a := View();
      HasSegment(segs, a);
      AddStep(segs, direct, a, tbase, tsize, stores);
      TopFacts(a);
      FirstSegment(segs, a);
      ghost var a' := AddSegment(a, tbase, tsize);
      SizesBounded(a);
      var old_top, old_size := top, topsize;
      var csp := RecordAddress();
      AddSegmentIs(a, tbase, tsize);
      AddedTotal(segs, Segment(tbase, tsize, 0), csp);
      StartSegment(csp, tbase, tsize, a);
      if csp != old_top {  // insert the rest of the old top into a bin
        foot := foot[csp := old_size];
        InsertChunk(old_top, old_size);
      }
      assert View() == a';
    }

    /** Reset the top to new space, and set up the segment record and the fenceposts behind it. */
    method StartSegment(csp: int, tbase: int, tsize: nat, ghost a: Arena)
      requires |segs| > 0 && TopEnd(a) in a.spans && tsize > TOP_FOOT_SIZE && a.top in a.head
      modifies this`top, this`topsize, this`trim_check, this`segs, this`head, this`spans, this`pinned, this`stores
      ensures top == tbase && topsize == tsize - TOP_FOOT_SIZE
      ensures segs == [Segment(tbase, tsize, 0), old(segs)[0].(rec := csp)] + old(segs)[1..]
      ensures head == old(head)[csp := Head(RECORD_SIZE, csp == old(top), true)]
                               [tbase := Head(tsize - TOP_FOOT_SIZE, true, false)]
      ensures spans == AddSegment(a, tbase, tsize).spans && pinned == AddSegment(a, tbase, tsize).pinned
      ensures stores == AddStores(old(stores), a, tbase, tsize)
    {
      hide AddSegment, AddStores;
      var old_top := top;
      top, topsize := tbase, tsize - TOP_FOOT_SIZE;
      trim_check := DEFAULT_TRIM_THRESHOLD;
      segs := [Segment(tbase, tsize, 0), segs[0].(rec := csp)] + segs[1..];
      head := head[csp := Head(RECORD_SIZE, csp == old_top, true)][tbase := Head(tsize - TOP_FOOT_SIZE, true, false)];
      spans, pinned := AddSegment(a, tbase, tsize).spans, AddSegment(a, tbase, tsize).pinned;
      stores := AddStores(stores, a, tbase, tsize);
    }

    /** `prepend_alloc`: serve the request from a new mapping right below segment i and merge the
        remainder with the first chunk of the segment. */
    method PrependAlloc(i: nat, tbase: int, tsize: nat, nb: nat, n: nat) returns (p: int)
      requires Valid() && tsize % DEFAULT_GRANULARITY == 0 && Unmapped(segs, direct, tbase, tsize)
      requires i < |segs| && segs[i].base == tbase + tsize
      requires nb % 8 == 0 && MIN_CHUNK_SIZE <= nb && nb + TOP_FOOT_SIZE + 1 <= tsize && n + CHUNK_OVERHEAD <= nb
      modifies this, small, tree
      ensures Valid() && p != 0 && Handed(old(View()), View(), p, n) && direct == old(direct)
      ensures Logged(old(stores), stores, old(View()), View()) && TotalSize(segs) == old(TotalSize(segs)) + tsize
      ensures |segs| == |old(segs)|
    {
      hide Heap.Inv, SegsOk, DirectOk, Logged, Spares, StoreOk, BinsValid, Binned, Unmapped, Handed, Freeing;
      hide TotalSize;
      ghost var a := View();
      ghost var s0 := stores;
      ReplacedTotal(segs, i, Segment(tbase, segs[i].size + tsize, segs[i].rec));
      PrependStep(segs, direct, a, i, tbase, tsize, nb, n, stores);
      p := tbase;
      var q, qsize, oldfirst := p + nb, tsize - nb, segs[i].base;
      ghost var a1 := Prepend(a, SegEnd(segs, i, TopEnd(a)), tsize, nb, n);
      LowerSegment(i, tbase, tsize, nb, n, a1);
      assert View() == a1;
      PrependShape(a, a1, SegEnd(old(segs), i, TopEnd(a)), tsize, nb, n);
      StartFreeing(a1, q, qsize);
      ghost var s1 := stores;
      if oldfirst == top {
        FreeToTop(q, q, qsize, a1);
      } else if oldfirst == dv {
        FreeIntoVictim(q, q, qsize, a1);
      } else if !head[oldfirst].cinuse {
        var _ := FreeWithNext(q, q, qsize, a1);
      } else {
        var _ := FreePlain(q, q, qsize, a1);
      }
      PrependHands(a, SegEnd(old(segs), i, TopEnd(a)), tsize, nb, n, s0, s1, stores);
    }

    /** The segment starts lower, with the new block and the remainder still to be freed. */
    method LowerSegment(i: nat, tbase: int, tsize: nat, nb: nat, n: nat, ghost a1: Arena)
      requires i < |segs| && nb < tsize
      modifies this`segs, this`head, this`spans, this`live, this`stores
      ensures segs == Lowered(old(segs), i, tbase, tsize)
      ensures head == old(head)[tbase := Head(nb, true, true)][tbase + nb := Head(tsize - nb, true, true)]
      ensures spans == a1.spans && live == old(live)[tbase := n][tbase + nb := 0]
      ensures stores == old(stores) + iset{tbase + 8, tbase + nb + 8}
    {
      stores := stores + iset{tbase + 8, tbase + nb + 8};
      segs := segs[i := Segment(tbase, segs[i].size + tsize, segs[i].rec)];
      head := head[tbase := Head(nb, true, true)][tbase + nb := Head(tsize - nb, true, true)];
      spans, live := a1.spans, live[tbase := n][tbase + nb := 0];
    }

    lemma StartFreeing(a: Arena, q: int, qsize: nat)
      requires Inv(a) && SegsOk(segs, a) && DirectOk(direct, segs) && BinsValid() && View() == a
      requires q in a.live && q in a.head && a.head[q] == Head(qsize, true, true)
      ensures Freeing(a, q, q, qsize)
      ensures q + qsize in a.head && (q + qsize == a.dv ==> a.dvsize > 0) && a.dv != q
    {
      FreeShape(a, q);
    }

    /** A request has been served: from the heap, by a direct mapping, or not at all. */
    twostate predicate Served(p: int, n: nat)
      reads this, small, tree
    {
      && Valid() && Logged(old(stores), stores, old(View()), View())
      && ((direct == old(direct) && Handed(old(View()), View(), p, n)) || ServedDirectly(p, n))
    }

    twostate predicate ServedDirectly(p: int, n: nat)
      reads this, small, tree
    {
      && View() == old(View()) && p !in old(direct) && p in direct && p > 0
      && direct == old(direct)[p := direct[p]] && direct[p].request == n
    }

    /** `alloc_sys`: a direct mapping for a large request, else a new, appended or prepended segment. */
    method AllocSys(nb: nat, n: nat) returns (p: int, ghost asked: seq<Call>)
      requires Valid() && nb < WORD64 && (nb == MAX_SIZE_T || Padded(nb, n))
      modifies this, small, tree, sys
      ensures Served(p, n) && sys.calls == old(sys.calls) + asked && Helped(asked, nb, p)
      ensures nb >= DEFAULT_MMAP_THRESHOLD && asked != [] && asked[0].ok ==> ServedDirectly(p, n)
      ensures Held(segs, direct) == old(Held(segs, direct)) + Net(asked)
    {
      hide Heap.Inv, SegsOk, DirectOk, Logged, Spares, StoreOk, BinsValid, Binned, Handed, PageAlign, GranularityAlign;
      hide Unmapped, TotalSize, DirectTotal, Net;
      ghost var a := View();
      HandedNothing(a, n, stores);
      LargestRequest(nb);
      asked := [];
      if nb >= DEFAULT_MMAP_THRESHOLD {
        p, asked := DirectAlloc(nb, n);
        NetOfFew(asked);
        if p != 0 {
          DirectTotalWith(old(direct), p, direct[p]);
          return;
        }
      }
      SegmentSize(nb);
      var rsize := GranularityAlign((nb + TOP_FOOT_SIZE + 1) % WORD64);
      NetOfFew(asked);
      if rsize > nb {  // fail if wraps around zero
        var ok, tbase := Mmap(rsize);
        NetOfBoth(asked, [Map(rsize, ok)]);
        NetOfFew([Map(rsize, ok)]);
        asked := asked + [Map(rsize, ok)];
        if ok {
          p := UseMapping(tbase, rsize, nb, n);
          return;
        }
      }
      p := 0;
    }

    /** Merge a new mapping with an existing segment or start a new one, and serve the request. */
    method UseMapping(tbase: int, tsize: nat, nb: nat, n: nat) returns (p: int)
      requires Valid() && Padded(nb, n) && Unmapped(segs, direct, tbase, tsize)
      requires tsize % DEFAULT_GRANULARITY == 0 && tsize >= nb + TOP_FOOT_SIZE + 1
      modifies this, small, tree
      ensures Valid() && direct == old(direct) && p != 0 && Handed(old(View()), View(), p, n)
      ensures Logged(old(stores), stores, old(View()), View()) && TotalSize(segs) == old(TotalSize(segs)) + tsize
      ensures |segs| == |old(segs)| + if Adjoins(old(segs), tbase, tsize) then 0 else 1
    {
      hide Heap.Inv, SegsOk, DirectOk, Logged, Spares, StoreOk, BinsValid, Binned, Handed, Unmapped, LiveKept;
      hide TotalSize;
      ghost var a, s0 := View(), stores;
      HasSegment(segs, a);
      var i := 0;
      while i < |segs| && tbase != segs[i].base + segs[i].size
        invariant 0 <= i <= |segs| && (i > 0 ==> tbase != segs[0].base + segs[0].size)
      {
        i := i + 1;
      }
      TopInFirst(segs, a, if i < |segs| then i else 0);
      if i < |segs| && segs[i].base <= top < segs[i].base + segs[i].size {  // append
        ExtendTop(tsize);
      } else {
        i := 0;
        while i < |segs| && segs[i].base != tbase + tsize
          invariant 0 <= i <= |segs| && forall k :: 0 <= k < i ==> segs[k].base != tbase + tsize
        {
          i := i + 1;
        }
        if i < |segs| {
          p := PrependAlloc(i, tbase, tsize, nb, n);
          return;
        }
        AddNewSegment(tbase, tsize);
      }
      ghost var a1, s1 := View(), stores;
      assert nb < topsize;
      p := FromTop(nb, n);
      HandedVia(a, a1, View(), p, n);
      LoggedAfter(s0, s1, stores, a, a1, View());
    }

    /** `lj_alloc_malloc`: which free chunk is used, and what is left of it; there is no failure while one fits, or
        while the system helps. */
    method Malloc(nsize: nat) returns (p: int, ghost asked: seq<Call>)
      requires Valid() && nsize < WORD64
      modifies this, small, tree, sys
      ensures Served(p, nsize) && sys.calls == old(sys.calls) + asked && Provided(old(View()), nsize, p, asked)
      ensures Held(segs, direct) == old(Held(segs, direct)) + Net(asked)
      ensures p != 0 && asked == [] ==> Remains(old(View()), View(), Request2Size(nsize), p)
      ensures var nb, b := Request2Size(nsize), old(Binned());
              nsize < MAX_REQUEST ==>
                && (VictimFirst(b, nb, old(dvsize)) ==> p == old(dv))
                && (!VictimFirst(b, nb, old(dvsize)) && (exists c :: c in b && b[c] >= nb) ==> BestBinned(b, nb, p))
                && (old(dvsize) < nb && nb < old(topsize) && (forall c :: c in b ==> b[c] < nb) ==> p == old(top))
    {
      hide Heap.Inv, SegsOk, Logged, Spares, StoreOk, BinsValid, Binned, Handed, DirectOk, TotalSize, DirectTotal;
      hide Helped, Net, Remains;
      ghost var a, s0 := View(), stores;
      asked := [];
      NetOfFew(asked);
      var nb;
      nb, p := MallocFromBins(nsize);
      if p != 0 {
        return;
      }
      HandedZero(a, View(), nsize);
      ghost var s1 := stores;
      SizesBounded(a);
      if nb <= dvsize {
        p := FromVictim(nb, nsize);
      } else if nb < topsize {
        p := FromTop(nb, nsize);
      } else {
        p, asked := AllocSys(nb, nsize);
        TooLarge(asked, nb, p);
      }
      LoggedAfter(s0, s1, stores, a, a, View());
    }

    /** The padded size, and a best fitting chunk from the bins, or 0 if there is none or the victim is to be used. */
    method MallocFromBins(nsize: nat) returns (nb: nat, p: int)
      requires Valid() && nsize < WORD64
      modifies this, small, tree
      ensures HandedOut(p, nsize) && nb == if nsize >= MAX_REQUEST then MAX_SIZE_T else Request2Size(nsize)
      ensures p != 0 ==> nsize < MAX_REQUEST && BestBinned(old(Binned()), nb, p) && Remains(old(View()), View(), nb, p)
      ensures p == 0 && nsize < MAX_REQUEST ==>
                nb <= old(dvsize) || forall c :: c in old(Binned()) ==> old(Binned())[c] < nb
      ensures p != 0 ==> !VictimFirst(old(Binned()), nb, old(dvsize))
      ensures p == 0 && nb < MIN_LARGE_SIZE ==> NoneNear(old(Binned()), nb)
      ensures p == 0 && MIN_LARGE_SIZE <= nb < WORD64 - 1 ==>
                forall c :: c in old(Binned()) && old(Binned())[c] >= nb ==> nb <= old(dvsize) <= old(Binned())[c]
    {
      hide Heap.Inv, SegsOk, Logged, Spares, StoreOk, BinsValid, Binned, Handed, DirectOk, NoneNear;
      HandedNothing(View(), nsize, stores);
      p := 0;
      if nsize <= MAX_SMALL_REQUEST {
        nb := if nsize < MIN_REQUEST then MIN_CHUNK_SIZE else PadRequest(nsize);
        p := MallocSmall(nb, nsize);
      } else if nsize >= MAX_REQUEST {
        nb := MAX_SIZE_T;  // too big to allocate
      } else {
        nb := PadRequest(nsize);
        LargeInTrees(nb);
        if tree.treemap != 0 {
          p := TmallocLarge(nb, nsize);
        } else {
          NoTree();
        }
      }
    }

    // ---- Giving memory back to the system

    /** The first chunk of segment i is free and takes up the whole segment: unmap it, if the
        system lets us, or put the chunk back. */
    method TryRelease(i: nat) returns (ok: bool)
      requires Valid() && 0 < i < |segs| && Empty(head, segs[i])
      modifies this, small, tree, sys
      ensures Housekept()
      ensures segs == if ok then Dropped(old(segs), i) else old(segs)
      ensures top == old(top) && topsize == old(topsize) && trim_check == old(trim_check)
      ensures sys.calls == old(sys.calls) + [Unmap(old(segs)[i].base, old(segs)[i].size, ok)]
      ensures head == if ok then old(head) - {old(segs)[i].base, old(segs)[i].rec} else old(head)
    {
      hide Heap.Inv, SegsOk, Logged, Spares, StoreOk, BinsValid, Binned, DirectOk, LiveKept, Covers, Release;
      hide Releasable, Kept, ReleaseStores, Dropped, Empty;
      ghost var a, s0 := View(), stores;
      ReleaseStep(segs, direct, a, i, s0);
      var p := segs[i].base;
      var psize := head[p].size;
      ghost var e := SegEnd(segs, i, TopEnd(a));
      Withdraw(p, psize);
      ok := Munmap(p, segs[i].size);
      stores := ReleaseStores(stores, a, i, segs, ok);
      DropOrKeep(i, ok, e, a);
    }

    /** The first chunk of segment i has been withdrawn; forget the segment, or put the chunk back. */
    method DropOrKeep(i: nat, ok: bool, ghost e: int, ghost a: Arena)
      requires 0 < i < |segs| && BinsValid() && e == SegEnd(segs, i, TopEnd(a)) && e in a.spans
      requires var p := segs[i].base;
               && a.spans[e].base == p && p in a.head && p > 0 && Next(a, p) == segs[i].rec && a.head == head
               && a.head[p].size % 8 == 0 && MIN_CHUNK_SIZE <= a.head[p].size < SIZE_LIMIT
               && (p == a.dv ==> a.dvsize == a.head[p].size && a.binned - {p} == a.binned)
               && (p != a.dv ==> p in a.binned && (a.binned - {p})[p := a.head[p].size] == a.binned)
               && View() == a.(dv := if p == a.dv then 0 else a.dv, dvsize := if p == a.dv then 0 else a.dvsize,
                               binned := a.binned - {p})
      modifies this`head, this`spans, this`pinned, this`segs, small, tree
      ensures BinsValid() && View() == if ok then Release(a, e) else Kept(a, i, old(segs))
      ensures segs == if ok then Dropped(old(segs), i) else old(segs)
      ensures head == if ok then old(head) - {old(segs)[i].base, old(segs)[i].rec} else old(head)
    {
      hide BinsValid, Binned, Release, Kept, Dropped;
      ReleaseIs(a, i, segs);
      if ok {
        DropSegment(i, e);
      } else {  // back out if cannot unmap
        InsertChunk(segs[i].base, head[segs[i].base].size);
      }
    }

    /** The chunk p, in a bin or the victim, becomes neither. */
    method Withdraw(p: int, psize: nat)
      requires BinsValid()
      requires if p == dv then Binned() - {p} == Binned() else p in Binned() && Binned()[p] == psize
      modifies this`dv, this`dvsize, small, tree
      ensures BinsValid() && Binned() == old(Binned()) - {p}
      ensures dv == (if p == old(dv) then 0 else old(dv)) && dvsize == if p == old(dv) then 0 else old(dvsize)
    {
      if p == dv {
        dv, dvsize := 0, 0;
      } else {
        UnlinkChunk(p, psize);
      }
    }

    /** Unlink the obsolete record, forget the chunks of the segment. */
    method DropSegment(i: nat, ghost e: int)
      requires 0 < i < |segs|
      modifies this`head, this`spans, this`pinned, this`segs
      ensures head == old(head) - {old(segs)[i].base, old(segs)[i].rec} && segs == Dropped(old(segs), i)
      ensures spans == old(spans) - {e} && pinned == old(pinned) - {old(segs)[i].rec}
    {
      head := head - {segs[i].base, segs[i].rec};
      spans, pinned := spans - {e}, pinned - {segs[i].rec};
      segs := Dropped(segs, i);
    }

    /** Blocks, and what is stored, after a housekeeping step. */
    twostate predicate Housekept()
      reads this, small, tree
    {
      && Valid() && direct == old(direct) && LiveKept(old(View()), View()) && Covers(old(View()), View())
      && Logged(old(stores), stores, old(View()), View())
    }

    /** `release_unused_segments`: unmap every later segment that holds no block. */
    method ReleaseUnused() returns (released: nat, ghost asked: seq<Call>)
      requires Valid()
      modifies this, small, tree, sys
      ensures Housekept() && Pruned(old(segs), segs, old(live), released)
      ensures top == old(top) && topsize == old(topsize) && trim_check == old(trim_check)
      ensures sys.calls == old(sys.calls) + asked && Net(asked) == 0 - released && AllAsked(head, segs, asked, |segs|)
    {
      hide Heap.Inv, SegsOk, Logged, Spares, StoreOk, BinsValid, Binned, DirectOk, LiveKept, Covers, Pruned, Net;
      hide AllAsked;
      ghost var a, s0 := View(), stores;
      asked := [];
      NetOfFew(asked);
      AskedNone(head, segs, asked);
      SameHouse(a, s0);
      HasSegment(segs, a);
      NonePruned(segs, a.live);
      released := 0;
      var nsegs, i := 0, 1;
      while i < |segs|
        invariant i >= 1 && Valid() && direct == old(direct)
        invariant LiveKept(a, View()) && Covers(a, View()) && Logged(s0, stores, a, View())
        invariant Pruned(old(segs), segs, a.live, released)
        invariant top == old(top) && topsize == old(topsize) && trim_check == old(trim_check)
        invariant sys.calls == old(sys.calls) + asked && Net(asked) == 0 - released && i <= |segs|
        invariant AllAsked(head, segs, asked, i)
        decreases |segs| - i
      {
        nsegs := nsegs + 1;
        var size := segs[i].size;
        var dropped;
        dropped, asked := ReleaseAt(i, old(segs), a, s0, asked, released);
        if dropped {
          released := released + size;
        } else {
          i := i + 1;
        }
      }
      release_checks := if nsegs > MAX_RELEASE_CHECK_RATE then nsegs else MAX_RELEASE_CHECK_RATE;
    }

    /** One segment of the list; since the housekeeping began, `asked0` has been asked for. */
    method ReleaseAt(i: nat, ghost segs0: seq<Segment>, ghost a: Arena, ghost s0: iset<int>, ghost asked0: seq<Call>,
                     ghost released: nat)
      returns (dropped: bool, ghost asked: seq<Call>)
      requires Valid() && Inv(a) && 0 < i < |segs|
      requires LiveKept(a, View()) && Covers(a, View()) && Logged(s0, stores, a, View())
      requires Pruned(segs0, segs, a.live, released) && Net(asked0) == 0 - released && AllAsked(head, segs, asked0, i)
      modifies this, small, tree, sys
      ensures Valid() && direct == old(direct) && |segs| == |old(segs)| - if dropped then 1 else 0
      ensures LiveKept(a, View()) && Covers(a, View()) && Logged(s0, stores, a, View())
      ensures top == old(top) && topsize == old(topsize) && trim_check == old(trim_check)
      ensures var now := released + if dropped then old(segs)[i].size else 0;
              Pruned(segs0, segs, a.live, now) && Net(asked) == 0 - now
      ensures asked0 <= asked && sys.calls == old(sys.calls) + asked[|asked0|..]
      ensures AllAsked(head, segs, asked, if dropped then i else i + 1)
    {
      hide Heap.Inv, SegsOk, Logged, Spares, StoreOk, BinsValid, Binned, DirectOk, LiveKept, Covers, Pruned, Net;
      hide AllAsked;
      ghost var b, s1 := View(), stores;
      BaseIsChunk(segs, b, i);
      var base, size := segs[i].base, segs[i].size;
      dropped, asked := false, asked0;
      if !head[base].cinuse && base + head[base].size >= base + size - TOP_FOOT_SIZE {
        UnusedNoBlock(segs, b, i);
        SameLive(a, b);
        PrunedOne(segs0, segs, a.live, released, i);
        dropped := TryRelease(i);
        HouseVia(a, b, View(), s0, s1, stores);
        ghost var call := Unmap(base, size, dropped);
        NetOfFew([call]);
        NetOfBoth(asked0, [call]);
        AskedMore(b.head, old(segs), asked0, head, segs, [call], i);
        asked := asked0 + [call];
      }
      if !dropped {
        AskedOne(head, segs, asked, i);
      }
    }

    lemma SameLive(a: Arena, a': Arena)
      requires LiveKept(a, a')
      ensures a'.live == a.live
    {
    }

    lemma NonePruned(segs: seq<Segment>, live: map<int, nat>)
      requires segs != []
      ensures Pruned(segs, segs, live, 0)
    {
    }

    /** `has_segment_link`: does the segment hold a record of the list? */
    method HasSegmentLink(base: int, size: nat) returns (found: bool)
      ensures found <==> exists i :: 0 <= i < |segs| && base <= RecordAt(segs, home, i) < base + size
    {
      var i := 0;
      while i < |segs|
        invariant 0 <= i <= |segs|
        invariant forall k :: 0 <= k < i ==> !(base <= RecordAt(segs, home, k) < base + size)
      {
        if base <= RecordAt(segs, home, i) < base + size {
          return true;
        }
        i := i + 1;
      }
      return false;
    }

    /** `alloc_trim` (with no padding): shrink the top by whole granularity units, then unmap unused segments. */
    method AllocTrim() returns (trimmed: bool, ghost asked: seq<Call>)
      requires Valid()
      modifies this, small, tree, sys
      ensures Housekept() && TotalSize(segs) <= TotalSize(old(segs))
      ensures trimmed <==> TotalSize(segs) < TotalSize(old(segs))
      ensures sys.calls == old(sys.calls) + asked && Net(asked) == TotalSize(segs) - TotalSize(old(segs))
      ensures AllAsked(head, segs, asked, |segs|) && TopTried(Linked(old(segs), home), asked)
    {
      hide Heap.Inv, SegsOk, Logged, Spares, StoreOk, BinsValid, Binned, DirectOk, LiveKept, Covers, TotalSize, Net;
      hide AllAsked, RecordAt;
      ghost var a, s0 := View(), stores;
      var released;
      released, asked := ShrinkTop();
      ghost var b, s1, first := View(), stores, asked;
      var more;
      ghost var others;
      more, others := ReleaseUnused();
      HouseVia(a, b, View(), s0, s1, stores);
      NetOfBoth(asked, others);
      asked := asked + others;
      MoreAsked(head, segs, first, others);
      released := released + more;
      if released == 0 && topsize > trim_check {
        trim_check := MAX_SIZE_T;  // disable autotrim
      }
      trimmed := released != 0;
    }

    /** The first half of it, about the top */
    method ShrinkTop() returns (released: nat, ghost asked: seq<Call>)
      requires Valid()
      modifies this, sys
      ensures Housekept() && TotalSize(segs) + released == TotalSize(old(segs))
      ensures sys.calls == old(sys.calls) + asked && Net(asked) == 0 - released
      ensures TopTried(Linked(old(segs), home), asked)
    {
      hide Heap.Inv, SegsOk, Logged, Spares, StoreOk, BinsValid, Binned, DirectOk, LiveKept, Covers, TotalSize, Net;
      hide RecordAt;
      ghost var a := View();
      released, asked := 0, [];
      NetOfFew(asked);
      SameHouse(a, stores);
      if topsize > TOP_FOOT_SIZE {
        HasSegment(segs, a);
        var unit := DEFAULT_GRANULARITY;
        var extra := ((topsize - TOP_FOOT_SIZE + (unit - 1)) / unit - 1) * unit;
        var link := HasSegmentLink(segs[0].base, segs[0].size);
        TrimExtra(topsize, extra);
        TopSegment(segs, a);
        TopInFirst(segs, a, 0);
        if segs[0].size >= extra && !link {
          var ok;
          ok, asked := CutMapping(segs[0].base, segs[0].size, extra);
          if ok {
            released := extra;
          }
        }
        if released != 0 {
          ReplacedTotal(segs, 0, segs[0].(size := segs[0].size - extra));
          TrimTop(extra);
        }
      }
    }

    /** The top is small, or it has been tried in vain to give back the end of its segment. */
    ghost predicate TopTried(linked: bool, asked: seq<Call>)
      reads this
    {
      || topsize <= TOP_FOOT_SIZE + DEFAULT_GRANULARITY || linked
      || exists c :: c in asked && c.Unmap? && !c.ok && c.base + c.size == top + topsize + TOP_FOOT_SIZE
    }

    /** Give back the last bytes of a mapping: prefer mremap, fall back to munmap. */
    method CutMapping(base: int, size: nat, extra: nat) returns (ok: bool, ghost asked: seq<Call>)
      requires extra <= size
      modifies sys
      ensures sys.calls == old(sys.calls) + asked && Net(asked) == if ok then 0 - extra else 0
      ensures !ok ==> Unmap(base + (size - extra), extra, false) in asked
    {
      var newsize := size - extra;
      ok := MremapHere(base, size, newsize);
      asked := [Remap(base, size, newsize, ok)];
      NetOfFew(asked);
      if !ok {
        ok := Munmap(base + newsize, extra);
        NetOfBoth(asked, [Unmap(base + newsize, extra, ok)]);
        NetOfFew([Unmap(base + newsize, extra, ok)]);
        asked := asked + [Unmap(base + newsize, extra, ok)];
      }
    }

    /** The segment of the top ends earlier by whole granularity units. */
    method TrimTop(extra: nat)
      requires Valid() && extra % DEFAULT_GRANULARITY == 0 && extra + 8 <= topsize && extra % 8 == 0
      requires segs != [] && extra <= segs[0].size
      modifies this
      ensures topsize == old(topsize) - extra && top == old(top)
      ensures Housekept() && segs == old(segs)[0 := old(segs)[0].(size := old(segs)[0].size - extra)]
    {
      hide Heap.Inv, SegsOk, Logged, Spares, StoreOk, BinsValid, Binned, DirectOk, LiveKept, Covers;
      ghost var a := View();
      HasSegment(segs, a);
      TrimStep(segs, direct, a, extra, stores);
      var ts := topsize - extra;
      segs := segs[0 := segs[0].(size := segs[0].size - extra)];
      stores := stores + iset{top + 8, top + ts + 8};
      spans := ResizeTop(a, ts).spans;
      topsize := ts;
      head := head[top := Head(ts, true, false)];
      trim_check := DEFAULT_TRIM_THRESHOLD;
      assert View() == ResizeTop(a, ts);
    }

    // ---- lj_alloc_free and the in-place part of lj_alloc_realloc

    /** The head word at p. */
    function HeadAt(p: int): Head
      requires p in head || p in direct
      reads this
    {
      if p in direct then Head(direct[p].psize, false, true) else head[p]
    }

    /** The word before it, which marks direct chunks with IS_DIRECT_BIT and else, if the chunk
        before p is free, holds its size. */
    function PrevFoot(p: int): nat
      reads this
    {
      if p in direct then IS_DIRECT_BIT else if p in foot then foot[p] else 0
    }

    lemma DirectBit(p: int)
      requires Valid() && (p in live || p in direct)
      ensures p in direct ==> p !in live && p !in head
      ensures p in live ==> p in head
      ensures !HeadAt(p).pinuse && PrevFoot(p) % 2 == IS_DIRECT_BIT <==> p in direct
    {
      if p in direct {
        DirectOutside(direct, segs, View(), p);
      } else {
        FreeShape(View(), p);
      }
    }

    /** `lj_alloc_free` */
    method FreeBlock(p: int) returns (ghost asked: seq<Call>)
      requires Valid() && (p == 0 || p in live || p in direct)
      modifies this, small, tree, sys
      ensures Valid() && Gone(old(View()), View(), p) && direct == old(direct) - {p}
      ensures Logged(old(stores), stores, old(View()), View())
      ensures sys.calls == old(sys.calls) + asked
      ensures Accounted(old(Held(segs, direct)), Held(segs, direct), asked)
      ensures p in old(direct) ==> |asked| == 1 && asked[0] == Unmap(p, old(direct)[p].mmsize, asked[0].ok)
      ensures p in old(live) && p in old(head) ==>
                if p + old(head)[p].size == old(top) then
                  topsize <= old(trim_check) || TopTried(Linked(old(segs), home), asked)
                else if SizeToBin(old(View()), p) < MIN_LARGE_SIZE then asked == []
                else if old(release_checks) == 1 then AllAsked(head, segs, asked, |segs|)
                else asked == [] && release_checks == if old(release_checks) == 0 then MAX_SIZE_T
                                                      else old(release_checks) - 1
    {
      hide Heap.Inv, SegsOk, Logged, Spares, StoreOk, BinsValid, Binned, DirectOk, LiveKept, Covers, FreeChunk, Gone;
      hide TotalSize, DirectTotal, Net, TopTried, AllAsked, Pruned;
      ghost var a, s0 := View(), stores;
      asked := [];
      NetOfFew(asked);
      GoneNone(a, p, stores);
      NullOutside();
      if p != 0 {
        DirectBit(p);
        if !HeadAt(p).pinuse && PrevFoot(p) % 2 == IS_DIRECT_BIT {
          var unmapped := Munmap(p, direct[p].mmsize);
          asked := [Unmap(p, direct[p].mmsize, unmapped)];
          NetOfFew(asked);
          DirectTotalWithout(direct, p);
          DirectDropped(direct, segs, p);
          direct := direct - {p};
        } else {
          var size, toTop := FreeChunkAt(p);
          ghost var s1 := stores;
          SameHouse(View(), s1);
          if toTop && topsize > trim_check {
            var trimmed;
            trimmed, asked := AllocTrim();
          } else if size != 0 && !IsSmall(size) {
            release_checks := if release_checks == 0 then MAX_SIZE_T else release_checks - 1;
            if release_checks == 0 {
              var released;
              ghost var before, blocks := segs, live;
              released, asked := ReleaseUnused();
              PrunedTotal(before, segs, blocks, released);
            }
          }
          FreeThenHouse(a, p, View(), s0, s1, stores);
        }
      }
    }

    /** The part of `lj_alloc_realloc` that keeps a block of the heap where it is: shrink it and free
        the rest, or extend it into the top. */
    method ResizeInPlace(p: int, nb: nat, n: nat) returns (ok: bool, ghost asked: seq<Call>)
      requires Valid() && p in live && p in head && Padded(nb, n)
      modifies this, small, tree, sys
      ensures sys.calls == old(sys.calls) + asked && (!ok ==> asked == [])
      ensures Accounted(old(Held(segs, direct)), Held(segs, direct), asked)
      ensures Valid() && direct == old(direct)
      ensures ok <==> nb <= old(head[p].size) || (p + old(head[p].size) == old(top)
                                                  && nb < old(head[p].size) + old(topsize))
      ensures if ok then Resized(old(View()), View(), p, n) else View() == old(View()) && segs == old(segs)
      ensures ok ==>
                && p in head
                && head[p].size == if nb <= old(head)[p].size < nb + MIN_CHUNK_SIZE then old(head)[p].size else nb
      ensures Logged(old(stores), stores, old(View()), View())
    {
      hide Heap.Inv, SegsOk, Logged, Spares, StoreOk, BinsValid, Binned, DirectOk, Gone, Resized, Held, Accounted;
      ghost var a := View();
      HandedNothing(a, n, stores);
      NothingAsked(Held(segs, direct));
      asked := [];
      var oldsize := head[p].size;
      ok := true;
      if oldsize >= nb {  // already big enough
        if oldsize - nb >= MIN_CHUNK_SIZE {
          asked := ShrinkBlock(p, nb, n);
        } else {
          RenameStep(segs, a, p, n);
          live := live[p := n];
          assert View() == Rename(a, p, n);
        }
      } else if p + oldsize == top && oldsize + topsize > nb {  // expand into top
        GrowBlock(p, nb, n);
      } else {
        ok := false;
      }
    }

    method ShrinkBlock(p: int, nb: nat, n: nat) returns (ghost asked: seq<Call>)
      requires Valid() && p in live && p in head && Padded(nb, n) && nb + MIN_CHUNK_SIZE <= head[p].size
      modifies this, small, tree, sys
      ensures Valid() && direct == old(direct) && Resized(old(View()), View(), p, n)
      ensures p in head && head[p].size == nb && Logged(old(stores), stores, old(View()), View())
      ensures sys.calls == old(sys.calls) + asked
      ensures Accounted(old(Held(segs, direct)), Held(segs, direct), asked)
    {
      hide Heap.Inv, SegsOk, Logged, Spares, StoreOk, BinsValid, Binned, DirectOk, Gone, Resized, CutLive;
      hide Held, Accounted, TopTried, Linked;
      ghost var a, s0 := View(), stores;
      CutStep(segs, a, p, nb, n, s0);
      ghost var a1 := CutLive(a, p, nb, n);
      var rem, rsize := p + nb, head[p].size - nb;
      stores := stores + iset{p + 8, rem + 8, rem + rsize + 8};
      head := head[p := Head(nb, head[p].pinuse, true)][rem := Head(rsize, true, true)];
      live := live[p := n][rem := 0];
      assert View() == a1;
      ghost var s1 := stores;
      DirectBit(rem);
      asked := FreeBlock(rem);
      CutThenFree(a, p, nb, n, View(), s0, s1, stores);
    }

    method GrowBlock(p: int, nb: nat, n: nat)
      requires Valid() && Growable(View(), p, nb, n)
      modifies this
      ensures Valid() && direct == old(direct) && Resized(old(View()), View(), p, n) && segs == old(segs)
      ensures p in head && head[p].size == nb
      ensures Logged(old(stores), stores, old(View()), View())
    {
      hide Heap.Inv, SegsOk, Logged, Spares, StoreOk, BinsValid, Binned, DirectOk, Resized;
      ghost var a := View();
      GrowStep(segs, a, p, nb, n, stores);
      var newsize := head[p].size + topsize;
      var newtop, newtopsize := p + nb, newsize - nb;
      stores := stores + iset{p + 8, newtop + 8};
      head := (head - {top})[p := Head(nb, head[p].pinuse, true)][newtop := Head(newtopsize, true, false)];
      top, topsize := newtop, newtopsize;
      live := live[p := n];
      assert View() == GrowIntoTop(a, p, nb, n);
    }

    /** `CALL_MREMAP`: the system refuses, or moves the pages of p to a region that was not mapped
        otherwise. A size of 0 is always refused. */
    method Mremap(p: int, size: nat, newsize: nat) returns (ok: bool, b: int)
      modifies sys
      ensures ok ==> newsize > 0 && Unmapped(segs, direct - {p}, b, newsize)
      ensures sys.calls == old(sys.calls) + [Remap(p, size, newsize, ok)]
    {
      b := *;
      ok := newsize > 0 && Unmapped(segs, direct - {p}, b, newsize);
      sys.calls := sys.calls + [Remap(p, size, newsize, ok)];
    }

    /** The direct chunk is big enough but not too big. */
    predicate Fitting(psize: nat, nb: nat) {
      psize >= nb + 8 && psize - nb <= DEFAULT_GRANULARITY / 2
    }

    /** A direct chunk that fits well stays; unless the new size is small, another one is remapped to a multiple
        of the page size, at least what is needed and no page more (or 0, if that is too large for size_t). It
        fails only if the system refuses that. */
    ghost predicate DirectAsked(d: Direct, p: int, nb: nat, r: int, asked: seq<Call>) {
      if IsSmall(nb) then r == 0 && asked == []
      else if Fitting(d.psize, nb) then r == p && asked == []
      else
        && |asked| == 1 && asked[0].Remap? && asked[0].base == p && asked[0].size == d.mmsize
        && (if Wraps(nb + 55, PAGE) then asked[0].newsize == 0
            else asked[0].newsize % PAGE == 0 && nb + 55 <= asked[0].newsize < nb + 55 + PAGE)
        && (r != 0 <==> asked[0].ok)
    }

    /** `direct_resize`: keep the mapping if it fits well, else remap it. */
    method DirectResize(p: int, nb: nat, n: nat) returns (r: int, ghost asked: seq<Call>)
      requires Valid() && p in direct && Padded(nb, n) && nb < WORD64 - 112
      modifies this`direct, sys
      ensures sys.calls == old(sys.calls) + asked && DirectAsked(old(direct)[p], p, nb, r, asked)
      ensures Held(segs, direct) == old(Held(segs, direct)) + Net(asked)
      ensures Valid() && View() == old(View())
      ensures if r == 0 then direct == old(direct)
              else && (r == p || r !in old(direct)) && r in direct && r > 0
                   && direct == (old(direct) - {p})[r := direct[r]] && direct[r].request == n
      ensures IsSmall(nb) ==> r == 0
      ensures !IsSmall(nb) && Fitting(old(direct)[p].psize, nb) ==>
                r == p && direct[p] == old(direct)[p].(request := n)
      ensures r != 0 && !Fitting(old(direct)[p].psize, nb) ==> direct[r].mmsize == PageAlign(nb + 55)
    {
      hide Heap.Inv, SegsOk, BinsValid, Binned, DirectOk, Unmapped, DirectTotal, Net, TotalSize, PageAlign;
      r, asked := 0, [];
      NetOfFew(asked);
      DirectTotalWithout(direct, p);
      var oldsize := direct[p].psize;
      DirectFacts(direct, segs, p);
      if IsSmall(nb) {  // can't shrink direct regions below small size
      } else if Fitting(oldsize, nb) {
        DirectRenamed(direct, segs, p, n);
        DirectTotalWith(direct - {p}, p, direct[p].(request := n));
        r := p;
        direct := (direct - {p})[p := direct[p].(request := n)];
      } else {
        var newmmsize := PageAlign((nb + 55) % WORD64);
        NoWrap(nb);
        var ok, cp := Mremap(p, direct[p].mmsize, newmmsize);
        asked := [Remap(p, direct[p].mmsize, newmmsize, ok)];
        NetOfFew(asked);
        if ok {
          DirectMoved(direct, segs, p, cp, newmmsize, n);
          DirectTotalWith(direct - {p}, cp, Direct(newmmsize - 32, newmmsize, n));
          r := cp;
          direct := (direct - {p})[cp := Direct(newmmsize - 32, newmmsize, n)];
        }
      }
    }

    lemma NullOutside()
      requires Valid()
      ensures 0 !in live && 0 !in direct
    {
      LiveAreChunks(View());
    }
  }

  /** The number of units to trim leaves more than the padding. */
  lemma TrimExtra(topsize: nat, extra: int)
    requires topsize > TOP_FOOT_SIZE
    requires extra
             == ((topsize - TOP_FOOT_SIZE + (DEFAULT_GRANULARITY - 1)) / DEFAULT_GRANULARITY - 1) * DEFAULT_GRANULARITY
    ensures 0 <= extra < topsize - TOP_FOOT_SIZE && extra % DEFAULT_GRANULARITY == 0 && extra % 8 == 0
  {
  }

  lemma SameHouse(a: Arena, s: iset<int>)
    ensures LiveKept(a, a) && Covers(a, a) && Logged(s, s, a, a)
  {
  }

  lemma HouseVia(a: Arena, b: Arena, c: Arena, s0: iset<int>, s1: iset<int>, s2: iset<int>)
    requires Inv(a) && LiveKept(a, b) && LiveKept(b, c) && Logged(s0, s1, a, b) && Logged(s1, s2, b, c)
    requires Covers(a, b) && Covers(b, c)
    ensures LiveKept(a, c) && Logged(s0, s2, a, c) && Covers(a, c)
  {
    LiveAreChunks(a);
    LoggedAfter(s0, s1, s2, a, b, c);
  }

  lemma NothingAsked(h: int)
    ensures Accounted(h, h, [])
  {
  }

  lemma PrunedTotal(segs0: seq<Segment>, segs: seq<Segment>, live: map<int, nat>, released: nat)
    requires Pruned(segs0, segs, live, released)
    ensures TotalSize(segs) + released == TotalSize(segs0)
  {
  }

  lemma MoreAsked(head: map<int, Head>, segs: seq<Segment>, first: seq<Call>, others: seq<Call>)
    requires AllAsked(head, segs, others, |segs|)
    ensures AllAsked(head, segs, first + others, |segs|)
  {
    forall i | 0 < i < |segs| && Empty(head, segs[i])
      ensures Unmap(segs[i].base, segs[i].size, false) in first + others
    {
    }
  }

  lemma ReleaseIs(a: Arena, i: nat, segs: seq<Segment>)
    requires i < |segs|
    requires var e, p := SegEnd(segs, i, TopEnd(a)), segs[i].base;
             && e in a.spans && a.spans[e].base == p && p in a.head && Next(a, p) == segs[i].rec
             && (p == a.dv ==> a.dvsize == a.head[p].size && a.binned - {p} == a.binned)
             && (p != a.dv ==> p in a.binned && (a.binned - {p})[p := a.head[p].size] == a.binned)
    ensures var e, p := SegEnd(segs, i, TopEnd(a)), segs[i].base;
            var dv, dvsize := if p == a.dv then 0 else a.dv, if p == a.dv then 0 else a.dvsize;
            && Release(a, e) == a.(dv := dv, dvsize := dvsize, binned := a.binned - {p},
                                   head := a.head - {p, segs[i].rec},
                                   spans := a.spans - {e}, pinned := a.pinned - {segs[i].rec})
            && Kept(a, i, segs) == a.(dv := dv, dvsize := dvsize, binned := (a.binned - {p})[p := a.head[p].size])
  {
  }

  /** The heap after a failed attempt to unmap segment i. */
  function Kept(a: Arena, i: nat, segs: seq<Segment>): Arena
    requires i < |segs|
  {
    if segs[i].base == a.dv then BinVictim(a) else a
  }

  ghost function ReleaseStores(s0: iset<int>, a: Arena, i: nat, segs: seq<Segment>, ok: bool): iset<int>
    requires i < |segs|
  {
    s0 + Links(a.binned) + if ok then iset{} else Links(Kept(a, i, segs).binned)
  }

  lemma ReleaseStep(segs: seq<Segment>, direct: map<int, Direct>, a: Arena, i: nat, s0: iset<int>)
    requires Inv(a) && SegsOk(segs, a) && DirectOk(direct, segs) && 0 < i < |segs| && Empty(a.head, segs[i])
    ensures segs[i].base in a.head
    ensures var e, p := SegEnd(segs, i, TopEnd(a)), segs[i].base;
            && Releasable(a, e) && e in a.spans && a.spans[e].base == p && Next(a, p) == segs[i].rec && p > 0
            && a.head[p].size % 8 == 0 && MIN_CHUNK_SIZE <= a.head[p].size < SIZE_LIMIT
            && (p == a.dv ==> a.dvsize == a.head[p].size && p !in a.binned && a.binned - {p} == a.binned)
            && (p != a.dv ==> p in a.binned && a.binned[p] == a.head[p].size
                              && (a.binned - {p})[p := a.head[p].size] == a.binned)
            && Inv(Release(a, e)) && SegsOk(Dropped(segs, i), Release(a, e)) && LiveKept(a, Release(a, e))
            && Inv(Kept(a, i, segs)) && SegsOk(segs, Kept(a, i, segs)) && LiveKept(a, Kept(a, i, segs))
            && DirectOk(direct, Dropped(segs, i)) && Covers(a, Release(a, e)) && Covers(a, Kept(a, i, segs))
            && Logged(s0, ReleaseStores(s0, a, i, segs, true), a, Release(a, e))
            && Logged(s0, ReleaseStores(s0, a, i, segs, false), a, Kept(a, i, segs))
  {
    hide Heap.Inv, SegsOk, DirectOk, Logged, SegsDistinct, SegsCover, Releasable, LiveKept;
    var e, p := SegEnd(segs, i, TopEnd(a)), segs[i].base;
    Unused(segs, a, i);
    SegmentAt(segs, a, i);
    FreeClass(a, p);
    ReleaseTagsIn(a, e);
    ReleaseKeeps(segs, a, i);
    DroppedDirect(direct, segs, i);
    LogOk(s0, a, Release(a, e), iset{});
    LogOk(s0, a, Kept(a, i, segs), iset{});
    ReleasedLinks(a, e, s0, Release(a, e));
    assert s0 + iset{} + Links(a.binned) == s0 + Links(a.binned) + iset{};
    assert s0 + iset{} + Links(a.binned) + Links(Kept(a, i, segs).binned) == ReleaseStores(s0, a, i, segs, false);
  }

  /** A free chunk other than the top is the victim, or in a bin. */
  lemma FreeClass(a: Arena, p: int)
    requires Inv(a) && p in a.head && Free(a, p) && p != a.top
    ensures p > 0 && a.head[p].size % 8 == 0 && MIN_CHUNK_SIZE <= a.head[p].size < SIZE_LIMIT
    ensures p == a.dv ==> a.dvsize == a.head[p].size && p !in a.binned && a.binned - {p} == a.binned
    ensures p != a.dv ==>
            p in a.binned && a.binned[p] == a.head[p].size && (a.binned - {p})[p := a.head[p].size] == a.binned
  {
    assert Classed(a, p) && Sized(a, p);
  }

  lemma ReleaseTagsIn(a: Arena, e: int)
    requires Releasable(a, e)
    ensures e in a.spans && a.spans[e].base in a.head && TagsIn(iset{}, a, Release(a, e)) && Covers(a, Release(a, e))
  {
  }

  lemma ReleasedLinks(a: Arena, e: int, s0: iset<int>, a': Arena)
    requires Logged(s0, s0 + iset{} + Links(a.binned) + Links(a'.binned), a, a') && TagsIn(iset{}, a, a')
    ensures Logged(s0, s0 + Links(a.binned) + iset{}, a, a')
  {
    TagsMore(iset{}, s0 + Links(a.binned) + iset{}, a, a');
  }

  lemma ReleaseKeeps(segs: seq<Segment>, a: Arena, i: nat)
    requires Inv(a) && SegsOk(segs, a) && 0 < i < |segs|
    requires Releasable(a, SegEnd(segs, i, TopEnd(a))) && segs[i].base in a.head && Next(a, segs[i].base) == segs[i].rec
    requires a.spans[SegEnd(segs, i, TopEnd(a))].base == segs[i].base
    ensures var e := SegEnd(segs, i, TopEnd(a));
            && Inv(Release(a, e)) && SegsOk(Dropped(segs, i), Release(a, e)) && LiveKept(a, Release(a, e))
            && Inv(Kept(a, i, segs)) && SegsOk(segs, Kept(a, i, segs)) && LiveKept(a, Kept(a, i, segs))
  {
    var e := SegEnd(segs, i, TopEnd(a));
    ReleaseOk(a, e);
    DroppedSegs(segs, a, i);
    ReleaseLive(a, e);
    if segs[i].base == a.dv {
      assert Sized(a, a.dv);
      BinVictimOk(a);
      SegsKept(segs, a, BinVictim(a));
    }
  }

  lemma ReleaseLive(a: Arena, e: int)
    requires Inv(a) && Releasable(a, e)
    ensures LiveKept(a, Release(a, e))
  {
    forall q | q in a.live && q in a.head
      ensures q in Release(a, e).head
    {
      assert Classed(a, q);
    }
  }

  predicate Padded(nb: nat, n: nat) {
    nb % 8 == 0 && MIN_CHUNK_SIZE <= nb && n + CHUNK_OVERHEAD <= nb
  }

  /** The size that stands for an impossible request is refused by both overflow checks. */
  lemma LargestRequest(nb: nat)
    requires nb < WORD64
    ensures nb == MAX_SIZE_T ==>
            PageAlign((nb + 55) % WORD64) <= nb && GranularityAlign((nb + TOP_FOOT_SIZE + 1) % WORD64) <= nb
  {
  }

  /** `align_offset` */
  function AlignOffset(x: int): nat {
    (8 - x % 8) % 8
  }

  lemma FreeToVictimIs(a: Arena, p: int)
    requires Inv(a) && p in a.live && Low(a, p) == a.dv
    requires p in a.head && Next(a, p) in a.head && !Free(a, Next(a, p))
    ensures var lo, d := Low(a, p), Next(a, p);
            && d > lo
            && FreeChunk(a, p) ==
               a.(binned := a.binned - {lo}, dvsize := d - lo, live := a.live - {p}, foot := a.foot[d := d - lo],
                  head := (a.head - {p})[d := a.head[d].(pinuse := false)][lo := Head(d - lo, true, false)])
  {
    FreeTags(a, p);
    FreeBins(a, p);
  }

  lemma FreeToTopIs(a: Arena, p: int)
    requires Inv(a) && p in a.live && p in a.head && Next(a, p) == a.top
    ensures var lo, d := Low(a, p), Next(a, p);
            && TopEnd(a) > lo && d > lo
            && FreeChunk(a, p) ==
               a.(binned := a.binned - {lo}, dv := if lo == a.dv then 0 else a.dv,
                  dvsize := if lo == a.dv then 0 else a.dvsize,
                  top := lo, topsize := TopEnd(a) - lo, live := a.live - {p},
                  head := (a.head - {p, d})[lo := Head(TopEnd(a) - lo, true, false)])
  {
    FreeTags(a, p);
    FreeBins(a, p);
    assert a.binned - {Low(a, p), Next(a, p)} == a.binned - {Low(a, p)};
  }

  lemma FreeIntoVictimIs(a: Arena, p: int)
    requires Inv(a) && p in a.live && p in a.head && Next(a, p) == a.dv
    ensures a.dv in a.head
    ensures var lo, d, hi := Low(a, p), Next(a, p), Next(a, a.dv);
            && hi > d > lo && a.dvsize == hi - d
            && FreeChunk(a, p) ==
               a.(binned := a.binned - {lo}, dv := lo, dvsize := hi - lo, live := a.live - {p},
                  foot := a.foot[hi := hi - lo],
                  head := (a.head - {p, d})[lo := Head(hi - lo, true, false)])
  {
    FreeTags(a, p);
    FreeBins(a, p);
    Neighbours(a, p);
    assert Sized(a, a.dv);
    assert a.binned - {Low(a, p), Next(a, p)} == a.binned - {Low(a, p)};
  }

  lemma FreeWithNextIs(a: Arena, p: int)
    requires Inv(a) && p in a.live && p in a.head && Next(a, p) in a.head
    requires Free(a, Next(a, p)) && Next(a, p) != a.top && Next(a, p) != a.dv
    ensures Next(a, p) in a.binned && a.binned[Next(a, p)] == a.head[Next(a, p)].size
    ensures var lo, d, hi := Low(a, p), Next(a, p), Next(a, Next(a, p));
            && hi > d > lo && High(a, p) == hi && lo !in a.binned - {lo}
            && a.binned - {lo} - {d} == a.binned - {lo, d}
            && FreeChunk(a, p) ==
               a.(binned := if lo == a.dv then a.binned - {lo, d} else (a.binned - {lo, d})[lo := hi - lo],
                  dvsize := if lo == a.dv then hi - lo else a.dvsize, live := a.live - {p},
                  foot := a.foot[hi := hi - lo],
                  head := (a.head - {p, d})[lo := Head(hi - lo, true, false)])
  {
    FreeTags(a, p);
    FreeBins(a, p);
    Neighbours(a, p);
    assert Sized(a, Next(a, p));
  }

  lemma FreePlainIs(a: Arena, p: int)
    requires Inv(a) && p in a.live && p in a.head && Next(a, p) in a.head && !Free(a, Next(a, p)) && Low(a, p) != a.dv
    ensures var lo, d := Low(a, p), Next(a, p);
            && d > lo && High(a, p) == d
            && FreeChunk(a, p) ==
               a.(binned := (a.binned - {lo})[lo := d - lo], live := a.live - {p}, foot := a.foot[d := d - lo],
                  head := (a.head - {p})[d := a.head[d].(pinuse := false)][lo := Head(d - lo, true, false)])
  {
    FreeTags(a, p);
    FreeBins(a, p);
    assert a.binned - {Low(a, p), Next(a, p)} == a.binned - {Low(a, p)};
  }

  /** What `lj_alloc_free` finds around p. */
  lemma FreeShape(a: Arena, p: int)
    requires Inv(a) && p in a.live
    ensures p in a.head && Next(a, p) in a.head && a.head[Next(a, p)].pinuse && p !in a.binned && p != a.dv
    ensures a.head[p].pinuse ==> Low(a, p) == p && a.binned - {p} == a.binned
    ensures !a.head[p].pinuse ==>
              && p in a.foot && a.foot[p] % 8 == 0 && Low(a, p) == p - a.foot[p] && Low(a, p) in a.head
              && (Low(a, p) != a.dv ==> Low(a, p) in a.binned && a.binned[Low(a, p)] == a.foot[p])
              && (Low(a, p) == a.dv ==> a.binned - {Low(a, p)} == a.binned)
    ensures Next(a, p) == a.dv ==> a.dvsize > 0 && Free(a, a.dv)
    ensures Next(a, p) == a.top ==> Free(a, a.top)
    ensures Next(a, p) in a.binned && Free(a, Next(a, p)) ==> Next(a, p) != a.top && Next(a, p) != a.dv
    ensures Free(a, Next(a, p)) && Next(a, p) != a.top && Next(a, p) != a.dv ==> Low(a, p) != Next(a, p)
    ensures High(a, p) >= Low(a, p)
  {
    FreeBins(a, p);
    FreeTags(a, p);
    assert Footed(a, p) && Flagged(a, p) && Classed(a, p);
    if !a.head[p].pinuse {
      assert Sized(a, Low(a, p));
    }
  }

  lemma ExtendStep(segs: seq<Segment>, direct: map<int, Direct>, a: Arena, ext: nat, s0: iset<int>)
    requires Inv(a) && |segs| > 0 && SegsOk(segs, a) && DirectOk(direct, segs) && ext % DEFAULT_GRANULARITY == 0
    requires Unmapped(segs, direct, segs[0].base + segs[0].size, ext)
    ensures TopEnd(a) in a.spans
    ensures var a' := ResizeTop(a, a.topsize + ext);
            var segs' := segs[0 := segs[0].(size := segs[0].size + ext)];
            && Inv(a') && SegsOk(segs', a') && DirectOk(direct, segs') && LiveKept(a, a')
            && Logged(s0, s0 + iset{a.top + 8, a.top + a.topsize + ext + 8}, a, a')
  {
    hide Heap.Inv, SegsOk, DirectOk, Logged, LiveKept, Unmapped, Vacant;
    GranularityIsPages(ext);
    TopFacts(a);
    ExtendOk(segs, direct, a, ext);
    ExtendSegs(segs, direct, a, ext);
    ResizeStores(s0, a, a.topsize + ext);
  }

  lemma ResizeStores(s0: iset<int>, a: Arena, ts: nat)
    requires Inv(a) && TopEnd(a) in a.spans && Inv(ResizeTop(a, ts)) && ts % 8 == 0
    ensures Logged(s0, s0 + iset{a.top + 8, a.top + ts + 8}, a, ResizeTop(a, ts))
  {
    hide Heap.Inv, ChunkWord, PadWord;
    var a' := ResizeTop(a, ts);
    TopWords(a, ts);
    TagsLogged(s0, a, a', iset{a.top + 8, a.top + ts + 8});
  }

  lemma TopWords(a: Arena, ts: nat)
    requires Inv(a) && TopEnd(a) in a.spans && Inv(ResizeTop(a, ts)) && ts % 8 == 0
    ensures ChunkWord(ResizeTop(a, ts), a.top + 8) && PadWord(ResizeTop(a, ts), a.top + ts + 8) && a.top % 8 == 0
  {
    var a' := ResizeTop(a, ts);
    assert Sized(a', a'.top);
    hide Heap.Inv;
    assert a.top in a'.head && a.top + ts in a'.spans;
  }

  lemma ExtendSegs(segs: seq<Segment>, direct: map<int, Direct>, a: Arena, ext: nat)
    requires Inv(a) && |segs| > 0 && SegsOk(segs, a) && DirectOk(direct, segs) && ext % PAGE == 0
    requires Unmapped(segs, direct, segs[0].base + segs[0].size, ext)
    requires TopEnd(a) in a.spans && Inv(ResizeTop(a, a.topsize + ext))
    ensures var segs' := segs[0 := segs[0].(size := segs[0].size + ext)];
            SegsOk(segs', ResizeTop(a, a.topsize + ext)) && DirectOk(direct, segs')
  {
    hide Heap.Inv, SegsOk, DirectOk;
    FirstSegment(segs, a);
    UnmappedSpans(segs, direct, a, segs[0].base + segs[0].size, ext);
    EndsElsewhere(a, ext);
    PagesMore(segs[0].size, ext);
    ResizeSegs(segs, a, a.topsize + ext, segs[0].size + ext);
    ExtendDirect(direct, segs, ext);
  }

  lemma PagesMore(x: nat, y: nat)
    requires x % PAGE == 0 && y % PAGE == 0
    ensures (x + y) % PAGE == 0
  {
  }

  lemma ExtendDirect(direct: map<int, Direct>, segs: seq<Segment>, ext: nat)
    requires DirectOk(direct, segs) && |segs| > 0 && Unmapped(segs, direct, segs[0].base + segs[0].size, ext)
    ensures DirectOk(direct, segs[0 := segs[0].(size := segs[0].size + ext)])
  {
  }

  lemma FirstSegment(segs: seq<Segment>, a: Arena)
    requires Inv(a) && |segs| > 0 && SegsOk(segs, a)
    ensures segs[0].base <= a.top && segs[0].base + segs[0].size == a.top + a.topsize + TOP_FOOT_SIZE
    ensures segs[0].size % PAGE == 0 && a.topsize > 0 && a.topsize % 8 == 0
  {
    assert SegOk(segs, a, 0) && Sized(a, a.top);
    TopSpan(a);
  }

  lemma EndsElsewhere(a: Arena, ext: nat)
    requires Inv(a)
    requires forall f :: f in a.spans ==>
               a.spans[f].limit <= TopEnd(a) + TOP_FOOT_SIZE || TopEnd(a) + TOP_FOOT_SIZE + ext <= a.spans[f].base
    ensures forall f :: f in a.spans && f != TopEnd(a) ==> TopEnd(a) + ext != f
  {
  }

  lemma AddSegmentIs(a: Arena, tbase: int, tsize: nat)
    requires TopEnd(a) in a.spans && tsize > TOP_FOOT_SIZE && a.top in a.head
    ensures var sp, ts, a' := Retired(a), tsize - TOP_FOOT_SIZE, AddSegment(a, tbase, tsize);
            a' == a.(head := a.head[sp := Head(RECORD_SIZE, sp == a.top, true)][tbase := Head(ts, true, false)],
                     foot := if sp != a.top then a.foot[sp := a.topsize] else a.foot,
                     binned := if sp != a.top then a.binned[a.top := a.topsize] else a.binned,
                     spans := a'.spans, top := tbase, topsize := ts, pinned := a'.pinned)
  {
  }

  /** The record goes where the code computes it. */
  lemma RecordPlace(segs: seq<Segment>, a: Arena)
    requires Inv(a) && |segs| > 0 && SegsOk(segs, a)
    ensures var old_end := segs[0].base + segs[0].size;
            var rawsp := old_end - (RECORD_SIZE + 32 + 7);
            var asp := rawsp + AlignOffset(rawsp + 16);
            && asp == TopEnd(a) && (asp < a.top + MIN_CHUNK_SIZE <==> a.topsize < MIN_CHUNK_SIZE)
            && (if asp < a.top + MIN_CHUNK_SIZE then a.top else asp) == Retired(a)
    ensures a.topsize < SIZE_LIMIT && a.topsize > 0
  {
    FirstSegment(segs, a);
    assert Sized(a, a.top);
    hide Heap.Inv, SegsOk;
    RecordOffset(segs[0].base + segs[0].size);
  }

  lemma RecordOffset(end: int)
    requires end % 8 == 0
    ensures var rawsp := end - (RECORD_SIZE + 32 + 7);
            rawsp + AlignOffset(rawsp + 16) == end - TOP_FOOT_SIZE
  {
  }

  /** All words that adding a segment may store to. */
  ghost function AddStores(s0: iset<int>, a: Arena, tbase: int, tsize: nat): iset<int>
    requires TopEnd(a) in a.spans && tsize > TOP_FOOT_SIZE && a.top in a.head
  {
    s0 + AddTags(a, tbase, tsize) + Links(a.binned) + Links(AddSegment(a, tbase, tsize).binned)
  }

  ghost function AddTags(a: Arena, tbase: int, tsize: nat): iset<int> {
    var sp := Retired(a);
    iset w: int | w % 8 == 0 && (sp + 8 <= w < sp + RECORD_SIZE  // the record chunk
                              || sp + RECORD_SIZE <= w < TopEnd(a) + TOP_FOOT_SIZE  // fenceposts
                              || w == a.top + 8 || (w == sp && sp != a.top)  // the old top
                              || w == tbase + 8 || w == tbase + tsize - TOP_FOOT_SIZE + 8)
  }

  lemma AddStep(segs: seq<Segment>, direct: map<int, Direct>, a: Arena, tbase: int, tsize: nat, s0: iset<int>)
    requires Inv(a) && |segs| > 0 && SegsOk(segs, a) && DirectOk(direct, segs)
    requires tsize % DEFAULT_GRANULARITY == 0 && tsize > 0 && Unmapped(segs, direct, tbase, tsize)
    ensures TopEnd(a) in a.spans && tsize > TOP_FOOT_SIZE && a.top in a.head && tbase > 0 && tbase !in a.head
    ensures var a' := AddSegment(a, tbase, tsize);
            && Inv(a') && SegsOk(Added(segs, a, tbase, tsize), a') && DirectOk(direct, Added(segs, a, tbase, tsize))
            && LiveKept(a, a') && Logged(s0, AddStores(s0, a, tbase, tsize), a, a')
  {
    hide Heap.Inv, SegsOk, DirectOk, Logged, LiveKept, Unmapped;
    GranularityIsPages(tsize);
    assert tsize >= DEFAULT_GRANULARITY;
    TopFacts(a);
    AddFits(segs, direct, a, tbase, tsize);
    RoomForRecord(a, tbase, tsize);
    AddedSegs(segs, direct, a, tbase, tsize);
    AddedDirect(direct, segs, a, tbase, tsize);
    AddLogged(a, tbase, tsize, s0);
  }

  lemma AddedDirect(direct: map<int, Direct>, segs: seq<Segment>, a: Arena, tbase: int, tsize: nat)
    requires DirectOk(direct, segs) && |segs| > 0 && Unmapped(segs, direct, tbase, tsize)
    ensures DirectOk(direct, Added(segs, a, tbase, tsize))
  {
    var segs' := Added(segs, a, tbase, tsize);
    forall p, i | p in direct && 0 <= i < |segs'|
      ensures p + direct[p].mmsize <= segs'[i].base || segs'[i].base + segs'[i].size <= p
    {
      if i > 0 {
        assert segs'[i].base == segs[i - 1].base && segs'[i].size == segs[i - 1].size;
      }
    }
  }

  lemma AddLogged(a: Arena, tbase: int, tsize: nat, s0: iset<int>)
    requires Inv(a) && SegmentFits(a, tbase, tsize) && TopEnd(a) in a.spans && a.top in a.head
    requires Inv(AddSegment(a, tbase, tsize))
    ensures Logged(s0, AddStores(s0, a, tbase, tsize), a, AddSegment(a, tbase, tsize))
  {
    hide Heap.Inv, Logged, Spares, StoreOk, TagsIn, AddSegment;
    var a' := AddSegment(a, tbase, tsize);
    RoomForRecord(a, tbase, tsize);
    var tags := AddTags(a, tbase, tsize);
    forall w | w in tags
      ensures StoreOk(a, w) || StoreOk(a', w)
    {
      AddStoreAt(a, tbase, tsize, w);
    }
    AddTagsIn(a, tbase, tsize);
    LogOk(s0, a, a', tags);
  }

  lemma AddTagsIn(a: Arena, tbase: int, tsize: nat)
    requires Inv(a) && SegmentFits(a, tbase, tsize) && TopEnd(a) in a.spans && a.top in a.head
    ensures TagsIn(AddTags(a, tbase, tsize), a, AddSegment(a, tbase, tsize))
  {
    AddTagsHas(a, tbase, tsize);
    hide Heap.Inv, AddTags;
  }

  lemma AddTagsHas(a: Arena, tbase: int, tsize: nat)
    requires Inv(a) && SegmentFits(a, tbase, tsize) && TopEnd(a) in a.spans && a.top in a.head
    ensures var sp, tags := Retired(a), AddTags(a, tbase, tsize);
            sp + 8 in tags && tbase + 8 in tags && (sp != a.top ==> sp in tags)
  {
    RoomForRecord(a, tbase, tsize);
    hide Heap.Inv;
  }

  lemma AddStoreAt(a: Arena, tbase: int, tsize: nat, w: int)
    requires Inv(a) && SegmentFits(a, tbase, tsize) && TopEnd(a) in a.spans && a.top in a.head
    requires w % 8 == 0 && Retired(a) >= a.top
    requires var sp := Retired(a);
             || sp + 8 <= w < sp + RECORD_SIZE || sp + RECORD_SIZE <= w < TopEnd(a) + TOP_FOOT_SIZE
             || w == a.top + 8 || (w == sp && sp != a.top) || w == tbase + 8 || w == tbase + tsize - TOP_FOOT_SIZE + 8
    ensures StoreOk(a, w) || StoreOk(AddSegment(a, tbase, tsize), w)
  {
    var a' := AddSegment(a, tbase, tsize);
    var sp := Retired(a);
    RoomForRecord(a, tbase, tsize);
    TopFacts(a);
    if sp + 8 <= w < sp + RECORD_SIZE {
      assert sp in a'.head && sp in a'.pinned && Next(a', sp) == sp + RECORD_SIZE;
      assert ChunkWord(a', w);
    } else if sp + RECORD_SIZE <= w < TopEnd(a) + TOP_FOOT_SIZE {
      assert sp + RECORD_SIZE in a'.spans && a'.spans[sp + RECORD_SIZE].limit == TopEnd(a) + TOP_FOOT_SIZE by {
        NewEnds(a, tbase, tsize);
      }
      assert PadWord(a', w);
    } else if w == a.top + 8 || w == sp {
      assert ChunkWord(a, w);
    } else if w == tbase + 8 {
      assert tbase in a'.head && ChunkWord(a', w);
    } else {
      var e := tbase + (tsize - TOP_FOOT_SIZE);
      assert e in a'.spans && PadWord(a', w);
    }
  }

  lemma PrependStep(segs: seq<Segment>, direct: map<int, Direct>, a: Arena, i: nat, tbase: int, tsize: nat,
                    nb: nat, n: nat, s0: iset<int>)
    requires Inv(a) && SegsOk(segs, a) && DirectOk(direct, segs)
    requires tsize % DEFAULT_GRANULARITY == 0 && Unmapped(segs, direct, tbase, tsize)
    requires i < |segs| && segs[i].base == tbase + tsize
    requires nb % 8 == 0 && MIN_CHUNK_SIZE <= nb && nb + TOP_FOOT_SIZE + 1 <= tsize && n + CHUNK_OVERHEAD <= nb
    ensures tbase > 0
    ensures var e := SegEnd(segs, i, TopEnd(a));
            && PrependFits(a, e, tsize, nb, n) && a.spans[e].base == tbase + tsize
            && var a1 := Prepend(a, e, tsize, nb, n);
               && Inv(a1) && SegsOk(Lowered(segs, i, tbase, tsize), a1)
                  && DirectOk(direct, Lowered(segs, i, tbase, tsize))
               && Logged(s0, s0 + iset{tbase + 8, tbase + nb + 8}, a, a1)
               && tbase !in a.head && tbase + nb !in a.head
  {
    hide Heap.Inv, SegsOk, Logged;
    var e := SegEnd(segs, i, TopEnd(a));
    GranularityIsPages(tsize);
    LowerFits(segs, direct, a, i, tbase, tsize, nb, n);
    SegmentAt(segs, a, i);
    SegmentSizes(segs, a);
    LoweredSegs(segs, a, i, tsize, nb, n);
    var a1 := Prepend(a, e, tsize, nb, n);
    HeadStored(a1, tbase);
    HeadStored(a1, tbase + nb);
    TagsLogged(s0, a, a1, iset{tbase + 8, tbase + nb + 8});
  }

  lemma HeadStored(a: Arena, c: int)
    requires Inv(a) && c in a.head
    ensures StoreOk(a, c + 8)
  {
    assert Sized(a, c) && ChunkWord(a, c + 8);
  }

  lemma SegmentAt(segs: seq<Segment>, a: Arena, i: nat)
    requires SegsOk(segs, a) && i < |segs|
    ensures SegEnd(segs, i, TopEnd(a)) in a.spans
    ensures a.spans[SegEnd(segs, i, TopEnd(a))] == Span(segs[i].base, segs[i].base + segs[i].size)
  {
    assert SegOk(segs, a, i);
  }

  lemma SegmentSizes(segs: seq<Segment>, a: Arena)
    requires SegsOk(segs, a) && Inv(a)
    ensures forall j :: 0 <= j < |segs| ==> segs[j].size > 0
  {
    forall j | 0 <= j < |segs|
      ensures segs[j].size > 0
    {
      assert SegOk(segs, a, j);
    }
  }

  lemma PrependShape(a: Arena, a1: Arena, e: int, tsize: nat, nb: nat, n: nat)
    requires Inv(a) && PrependFits(a, e, tsize, nb, n) && a1 == Prepend(a, e, tsize, nb, n)
    ensures var q := a.spans[e].base - tsize + nb;
            q in a1.live && q in a1.head && a1.head[q] == Head(tsize - nb, true, true)
  {
  }

  /** The block at the bottom of the new mapping has been handed out. */
  lemma PrependHands(a: Arena, e: int, tsize: nat, nb: nat, n: nat, s0: iset<int>, s1: iset<int>, s2: iset<int>)
    requires Inv(a) && PrependFits(a, e, tsize, nb, n) && Inv(Prepend(a, e, tsize, nb, n))
    requires a.spans[e].base - tsize !in a.head && a.spans[e].base - tsize + nb !in a.head && a.spans[e].base > tsize
    requires var a1 := Prepend(a, e, tsize, nb, n);
             var q := a.spans[e].base - tsize + nb;
             Logged(s0, s1, a, a1) && Logged(s1, s2, a1, FreeChunk(a1, q))
    ensures var a1 := Prepend(a, e, tsize, nb, n);
            var q := a.spans[e].base - tsize + nb;
            Handed(a, FreeChunk(a1, q), a.spans[e].base - tsize, n) && Logged(s0, s2, a, FreeChunk(a1, q))
  {
    hide Heap.Inv, Logged;
    var a1 := Prepend(a, e, tsize, nb, n);
    var p, q := a.spans[e].base - tsize, a.spans[e].base - tsize + nb;
    LiveAreChunks(a);
    FreeHands(a1, q);
    KeptByFree(a1, q);
    LoggedVia(s0, s1, s2, a, a1, FreeChunk(a1, q));
  }

  lemma LiveAreChunks(a: Arena)
    requires Inv(a)
    ensures a.live.Keys <= a.head.Keys && 0 !in a.head
  {
    assert 0 in a.head ==> Sized(a, 0);
  }

  /** Freeing p leaves all other blocks in place. */
  lemma KeptByFree(a: Arena, p: int)
    requires Inv(a) && p in a.live
    ensures p in a.head
    ensures forall q :: q in a.live && q != p ==>
              q in a.head && q in FreeChunk(a, p).head && FreeChunk(a, p).head[q].size == a.head[q].size
  {
    FreeTags(a, p);
    FreeBins(a, p);
    forall q | q in a.live && q != p
      ensures q in a.head && q in FreeChunk(a, p).head && FreeChunk(a, p).head[q].size == a.head[q].size
    {
      Neighbours(a, p);
      assert Classed(a, q) && Classed(a, Low(a, p)) && Classed(a, Next(a, p));
    }
  }

  lemma HandedVia(a: Arena, a1: Arena, a2: Arena, p: int, n: nat)
    requires Inv(a) && LiveKept(a, a1) && Handed(a1, a2, p, n) && p != 0
    ensures Handed(a, a2, p, n)
  {
    LiveAreChunks(a);
  }

  lemma LoggedAfter(s0: iset<int>, s1: iset<int>, s2: iset<int>, a: Arena, a1: Arena, a2: Arena)
    requires Logged(s0, s1, a, a1) && Logged(s1, s2, a1, a2) && LiveKept(a, a1)
    requires a1.spans == a2.spans || Covers(a, a1)
    ensures Logged(s0, s2, a, a2)
  {
    LoggedVia(s0, s1, s2, a, a1, a2);
  }

  lemma TrimStep(segs: seq<Segment>, direct: map<int, Direct>, a: Arena, extra: nat, s0: iset<int>)
    requires Inv(a) && |segs| > 0 && SegsOk(segs, a) && DirectOk(direct, segs)
    requires extra % DEFAULT_GRANULARITY == 0 && extra % 8 == 0 && extra + 8 <= a.topsize
    ensures TopEnd(a) in a.spans && segs[0].size >= extra
    ensures var ts := a.topsize - extra;
            var a', segs' := ResizeTop(a, ts), segs[0 := segs[0].(size := segs[0].size - extra)];
            && Inv(a') && SegsOk(segs', a') && DirectOk(direct, segs') && LiveKept(a, a') && Covers(a, a')
            && Logged(s0, s0 + iset{a.top + 8, a.top + ts + 8}, a, a')
  {
    hide Heap.Inv, SegsOk, DirectOk, Logged, LiveKept, Covers;
    var ts := a.topsize - extra;
    GranularityIsPages(extra);
    TopFacts(a);
    LessOf8(a.topsize, extra);
    FirstSegment(segs, a);
    SegmentAt(segs, a, 0);
    TrimOk(a, ts);
    TrimSegs(segs, direct, a, extra);
    ResizeStores(s0, a, ts);
  }

  lemma LessOf8(x: nat, y: nat)
    requires x % 8 == 0 && y % 8 == 0
    ensures (x - y) % 8 == 0
  {
  }

  lemma TrimOk(a: Arena, ts: nat)
    requires Inv(a) && 8 <= ts <= a.topsize && ts % 8 == 0
    ensures TopEnd(a) in a.spans && Inv(ResizeTop(a, ts)) && LiveKept(a, ResizeTop(a, ts))
    ensures Covers(a, ResizeTop(a, ts))
    ensures forall f :: f in a.spans && f != TopEnd(a) ==> a.top + ts != f
  {
    TopFacts(a);
    TopSpan(a);
    ResizeTopOk(a, ts);
    assert Classed(a, a.top) && Sized(a, a.top);
    TrimCovers(a, ts);
  }

  lemma TrimCovers(a: Arena, ts: nat)
    requires TopEnd(a) in a.spans && 8 <= ts <= a.topsize
    requires a.spans[TopEnd(a)].limit == TopEnd(a) + TOP_FOOT_SIZE
    ensures Covers(a, ResizeTop(a, ts))
  {
    forall w | InHeap(ResizeTop(a, ts), w)
      ensures InHeap(a, w)
    {
      var e :| e in ResizeTop(a, ts).spans && ResizeTop(a, ts).spans[e].base <= w < ResizeTop(a, ts).spans[e].limit;
      var f := if e == a.top + ts then TopEnd(a) else e;
      assert f in a.spans && a.spans[f].base <= w < a.spans[f].limit;
    }
  }

  lemma TrimSegs(segs: seq<Segment>, direct: map<int, Direct>, a: Arena, extra: nat)
    requires Inv(a) && |segs| > 0 && SegsOk(segs, a) && DirectOk(direct, segs) && extra % PAGE == 0
    requires extra + 8 <= a.topsize && TopEnd(a) in a.spans && Inv(ResizeTop(a, a.topsize - extra))
    requires forall f :: f in a.spans && f != TopEnd(a) ==> a.top + (a.topsize - extra) != f
    ensures segs[0].size >= extra
    ensures var segs' := segs[0 := segs[0].(size := segs[0].size - extra)];
            SegsOk(segs', ResizeTop(a, a.topsize - extra)) && DirectOk(direct, segs')
  {
    FirstSegment(segs, a);
    hide Heap.Inv, SegsOk;
    ResizeSegs(segs, a, a.topsize - extra, segs[0].size - extra);
  }

  /** p is no block any more; every other block has kept its place and size. */
  ghost predicate Gone(a: Arena, a': Arena, p: int) {
    && a'.live == a.live - {p}
    && forall q :: q in a.live && q != p ==> q in a.head && q in a'.head && a'.head[q].size == a.head[q].size
  }

  lemma GoneNone(a: Arena, p: int, s: iset<int>)
    requires Inv(a)
    ensures p !in a.live ==> Gone(a, a, p)
    ensures Logged(s, s, a, a)
  {
    LiveAreChunks(a);
    assert p !in a.live ==> a.live - {p} == a.live;
  }

  lemma FreeThenHouse(a: Arena, p: int, c: Arena, s0: iset<int>, s1: iset<int>, s2: iset<int>)
    requires Inv(a) && Inv(c) && p in a.live && p in a.head && LiveKept(FreeChunk(a, p), c)
    requires Logged(s0, s1, a, FreeChunk(a, p)) && Logged(s1, s2, FreeChunk(a, p), c)
    ensures Gone(a, c, p) && Logged(s0, s2, a, c)
  {
    hide Heap.Inv, Logged, FreeChunk;
    var b := FreeChunk(a, p);
    FreeHands(a, p);
    FreedLive(a, p);
    LiveAreChunks(a);
    LiveAreChunks(b);
    LiveAreChunks(c);
    KeptByFree(a, p);
    LoggedVia(s0, s1, s2, a, b, c);
  }

  lemma FreedLive(a: Arena, p: int)
    requires p in a.head
    ensures FreeChunk(a, p).live == a.live - {p} && Covers(a, FreeChunk(a, p))
  {
  }

  /** A direct mapping lies outside all segments. */
  lemma DirectOutside(direct: map<int, Direct>, segs: seq<Segment>, a: Arena, p: int)
    requires Inv(a) && SegsOk(segs, a) && DirectOk(direct, segs) && p in direct
    ensures p !in a.head
    ensures forall e :: e in a.spans ==> p + direct[p].mmsize <= a.spans[e].base || a.spans[e].limit <= p
  {
    forall e | e in a.spans
      ensures p + direct[p].mmsize <= a.spans[e].base || a.spans[e].limit <= p
    {
      var i :| 0 <= i < |segs| && SegEnd(segs, i, TopEnd(a)) == e;
      assert SegOk(segs, a, i);
    }
    assert p in a.head ==> Inside(a, p);
  }

  lemma DirectDropped(direct: map<int, Direct>, segs: seq<Segment>, p: int)
    requires DirectOk(direct, segs)
    ensures DirectOk(direct - {p}, segs)
  {
  }

  /** The block p has been given room for n bytes; every other block has kept its place and size. */
  ghost predicate Resized(a: Arena, a': Arena, p: int, n: nat) {
    && p in a.head && p in a'.head && a'.live == a.live[p := n] && n + CHUNK_OVERHEAD <= a'.head[p].size
    && forall q :: q in a.live && q != p ==> q in a.head && q in a'.head && a'.head[q].size == a.head[q].size
  }

  lemma RenameStep(segs: seq<Segment>, a: Arena, p: int, n: nat)
    requires Inv(a) && SegsOk(segs, a) && p in a.live && p in a.head && n + CHUNK_OVERHEAD <= a.head[p].size
    ensures Inv(Rename(a, p, n)) && SegsOk(segs, Rename(a, p, n)) && Resized(a, Rename(a, p, n), p, n)
    ensures forall s :: Logged(s, s, a, Rename(a, p, n))
  {
    RenameOk(a, p, n);
    SegsKept(segs, a, Rename(a, p, n));
  }

  lemma CutStep(segs: seq<Segment>, a: Arena, p: int, nb: nat, n: nat, s0: iset<int>)
    requires Inv(a) && SegsOk(segs, a) && p in a.live && p in a.head && Padded(nb, n)
    requires nb + MIN_CHUNK_SIZE <= a.head[p].size
    ensures var a1 := CutLive(a, p, nb, n);
            && Inv(a1) && SegsOk(segs, a1) && p + nb in a1.live && p + nb > 0
            && a1 == a.(head := a.head[p := Head(nb, a.head[p].pinuse, true)]
                                   [p + nb := Head(a.head[p].size - nb, true, true)],
                        live := a.live[p := n][p + nb := 0])
            && Logged(s0, s0 + iset{p + 8, p + nb + 8, Next(a, p) + 8}, a, a1)
  {
    hide Heap.Inv, SegsOk, Logged;
    var a1 := CutLive(a, p, nb, n);
    CutFacts(a, p, nb, n);
    CutSegs(segs, a, p, nb, n);
    FreeShape(a, p);
    HeadStored(a1, p);
    HeadStored(a1, p + nb);
    HeadStored(a1, Next(a, p));
    TagsLogged(s0, a, a1, iset{p + 8, p + nb + 8, Next(a, p) + 8});
  }

  lemma CutFacts(a: Arena, p: int, nb: nat, n: nat)
    requires Inv(a) && p in a.live && p in a.head && Padded(nb, n) && nb + MIN_CHUNK_SIZE <= a.head[p].size
    ensures var a1 := CutLive(a, p, nb, n);
            && Inv(a1) && p + nb !in a.head && p > 0
            && a1 == a.(head := a.head[p := Head(nb, a.head[p].pinuse, true)]
                                   [p + nb := Head(a.head[p].size - nb, true, true)],
                        live := a.live[p := n][p + nb := 0])
  {
    CutLiveOk(a, p, nb, n);
    assert Classed(a, p) && Sized(a, p);
  }

  lemma CutSegs(segs: seq<Segment>, a: Arena, p: int, nb: nat, n: nat)
    requires Inv(a) && SegsOk(segs, a) && p in a.live && p in a.head && nb < a.head[p].size
    requires p + nb !in a.head && Inv(CutLive(a, p, nb, n))
    ensures SegsOk(segs, CutLive(a, p, nb, n))
  {
    var a1 := CutLive(a, p, nb, n);
    forall r | r in a.pinned
      ensures r in a.head && r in a1.head && a1.head[r].size == a.head[r].size
    {
      assert Classed(a, r);
    }
    SegsKept(segs, a, a1);
  }

  lemma TagsLogged(s0: iset<int>, a: Arena, a': Arena, tags: iset<int>)
    requires Inv(a') && TagsIn(tags, a, a') && forall w :: w in tags ==> StoreOk(a', w)
    ensures Logged(s0, s0 + tags, a, a')
  {
    hide Heap.Inv, StoreOk, Spares, InHeap, TagsIn;
    TagsMore(tags, s0 + tags, a, a');
    forall w | w in tags
      ensures Spares(a', w) && InHeap(a', w)
    {
      StoresSpareUsers(a', w);
      StoreInHeap(a', w);
    }
  }

  lemma CutThenFree(a: Arena, p: int, nb: nat, n: nat, c: Arena, s0: iset<int>, s1: iset<int>, s2: iset<int>)
    requires Inv(a) && p in a.live && p in a.head && Padded(nb, n) && nb + MIN_CHUNK_SIZE <= a.head[p].size
    requires Inv(CutLive(a, p, nb, n)) && Inv(c) && Gone(CutLive(a, p, nb, n), c, p + nb)
    requires Logged(s0, s1, a, CutLive(a, p, nb, n)) && Logged(s1, s2, CutLive(a, p, nb, n), c)
    ensures Resized(a, c, p, n) && p in c.head && c.head[p].size == nb && Logged(s0, s2, a, c)
  {
    var a1 := CutLive(a, p, nb, n);
    CutLiveOk(a, p, nb, n);
    hide Heap.Inv, Logged;
    LiveAreChunks(a);
    assert a1.live - {p + nb} == a.live[p := n];
    LoggedVia(s0, s1, s2, a, a1, c);
  }

  /** Growing into the top leaves all other chunks in place. */
  lemma GrowKeeps(a: Arena, p: int, nb: nat, n: nat)
    requires Inv(a) && Growable(a, p, nb, n)
    ensures var a1 := GrowIntoTop(a, p, nb, n);
            && p !in a.pinned && p in a1.head && p + nb in a1.head && TopEnd(a1) == TopEnd(a)
            && forall r :: (r in a.pinned || r in a.live) && r != p ==>
               r in a.head && r in a1.head && a1.head[r].size == a.head[r].size
  {
    var a1 := GrowIntoTop(a, p, nb, n);
    GrowFits(a, p, nb, n);
    forall r | (r in a.pinned || r in a.live) && r != p
      ensures r in a.head && r in a1.head && a1.head[r].size == a.head[r].size
    {
      assert Classed(a, r) && Classed(a, a.top) && Classed(a, p);
      AboveTop(a, p, r);
    }
    assert Classed(a, p);
  }

  lemma GrowStep(segs: seq<Segment>, a: Arena, p: int, nb: nat, n: nat, s0: iset<int>)
    requires Inv(a) && SegsOk(segs, a) && Growable(a, p, nb, n)
    ensures a.head[p].size + a.topsize > nb
    ensures var a1 := GrowIntoTop(a, p, nb, n);
            && Inv(a1) && SegsOk(segs, a1) && Resized(a, a1, p, n)
            && Logged(s0, s0 + iset{p + 8, p + nb + 8}, a, a1)
  {
    hide Heap.Inv, SegsOk, Logged;
    var a1 := GrowIntoTop(a, p, nb, n);
    GrowOk(a, p, nb, n);
    GrowFits(a, p, nb, n);
    GrowKeeps(a, p, nb, n);
    SegsKept(segs, a, a1);
    HeadStored(a1, p);
    HeadStored(a1, p + nb);
    TagsLogged(s0, a, a1, iset{p + 8, p + nb + 8});
  }

  lemma DirectFacts(direct: map<int, Direct>, segs: seq<Segment>, p: int)
    requires DirectOk(direct, segs) && p in direct
    ensures p > 0 && direct[p].psize + 32 == direct[p].mmsize
  {
  }

  lemma DirectRenamed(direct: map<int, Direct>, segs: seq<Segment>, p: int, n: nat)
    requires DirectOk(direct, segs) && p in direct && n + 16 <= direct[p].psize
    ensures DirectOk((direct - {p})[p := direct[p].(request := n)], segs)
  {
  }

  lemma DirectMoved(direct: map<int, Direct>, segs: seq<Segment>, p: int, r: int, mmsize: nat, n: nat)
    requires DirectOk(direct, segs) && p in direct && Unmapped(segs, direct - {p}, r, mmsize)
    requires mmsize % PAGE == 0 && mmsize >= n + 48
    ensures r > 0 && (r == p || r !in direct)
    ensures DirectOk((direct - {p})[r := Direct(mmsize - 32, mmsize, n)], segs)
  {
    forall q | q in direct && q != p
      ensures q != r
    {
      assert q in direct - {p};
    }
  }

  /** Page alignment wraps to 0 or not at all. */
  lemma NoWrap(nb: nat)
    requires nb < WORD64 - 112
    ensures var s := PageAlign((nb + 55) % WORD64);
            s % PAGE == 0 && if Wraps(nb + 55, PAGE) then s == 0 else nb + 55 <= s < nb + 55 + PAGE
  {
  }
}
