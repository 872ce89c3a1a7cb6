/** The bytes behind the allocator (`lj_alloc.c`): what a program wrote to its blocks stays there
    through every later malloc, free and realloc. */
module AllocMemory {
  import opened AllocSizes
  import opened Heap
  import opened HeapSystem
  import opened AllocSystem
  import opened SystemCalls
  import opened Alloc

  /** The blocks a program holds, with the bytes it asked for. */
  ghost function BlocksOf(a: Arena, d: map<int, Direct>): map<int, nat> {
    a.live + map p | p in d :: d[p].request
  }

  /** The bytes that a block can hold (`oldsize - overhead_for(oldp)`). */
  function Room(a: Arena, d: map<int, Direct>, p: int): int {
    if p in d then d[p].psize - 2 * CHUNK_OVERHEAD
    else if p in a.head then a.head[p].size - CHUNK_OVERHEAD
    else 0
  }

  predicate BlockByte(a: Arena, d: map<int, Direct>, p: int, x: int) {
    p + 16 <= x < p + 16 + Room(a, d, p)
  }

  ghost predicate Sane(a: Arena, d: map<int, Direct>, segs: seq<Segment>) {
    Inv(a) && SegsOk(segs, a) && DirectOk(d, segs)
  }

  /** Blocks are aligned, hold what was asked for, and share no byte. */
  lemma BlocksSeparate(a: Arena, d: map<int, Direct>, segs: seq<Segment>, p: int, q: int, x: int)
    requires Sane(a, d, segs) && p in BlocksOf(a, d) && q in BlocksOf(a, d)
    ensures p > 0 && (p + 16) % 8 == 0 && BlocksOf(a, d)[p] <= Room(a, d, p)
    ensures p != q ==> !(BlockByte(a, d, p, x) && BlockByte(a, d, q, x))
  {
    OneKind(a, d, segs, p);
    OneKind(a, d, segs, q);
    if BlockByte(a, d, p, x) && BlockByte(a, d, q, x) {
      if p in d && q !in d {
        UserInSegment(a, q, x);
      } else if q in d && p !in d {
        UserInSegment(a, p, x);
      } else if p !in d {
        BlocksApart(a, p, q);
        assert UserByte(a, p, x) && UserByte(a, q, x);
      }
    }
  }

  lemma OneKind(a: Arena, d: map<int, Direct>, segs: seq<Segment>, p: int)
    requires Sane(a, d, segs) && p in BlocksOf(a, d)
    ensures p in d ==> p !in a.live && p !in a.head && p > 0 && p % 8 == 0 && d[p].psize + 32 == d[p].mmsize
    ensures p in d ==> d[p].request + 16 <= d[p].psize
    ensures p in d ==> forall e :: e in a.spans ==> p + d[p].mmsize <= a.spans[e].base || a.spans[e].limit <= p
    ensures p !in d ==> p in a.live && p in a.head && p > 0 && p % 8 == 0 && a.live[p] + 8 <= a.head[p].size
  {
    hide Heap.Inv, SegsOk, DirectOk;
    LiveAreChunks(a);
    if p in d {
      DirectOutside(d, segs, a, p);
      DirectFields(d, segs, p);
    } else {
      LiveFields(a, p);
    }
  }

  lemma DirectFields(d: map<int, Direct>, segs: seq<Segment>, p: int)
    requires DirectOk(d, segs) && p in d
    ensures p > 0 && p % 8 == 0 && d[p].psize + 32 == d[p].mmsize && d[p].request + 16 <= d[p].psize
  {
    Classes8(0, p);
  }

  lemma LiveFields(a: Arena, p: int)
    requires Inv(a) && p in a.live
    ensures p in a.head && p > 0 && p % 8 == 0 && a.live[p] + 8 <= a.head[p].size
  {
    assert Sized(a, p) && Classed(a, p);
  }

  lemma UserInSegment(a: Arena, p: int, x: int)
    requires Inv(a) && p in a.live && p in a.head && UserByte(a, p, x)
    ensures exists e :: e in a.spans && a.spans[e].base <= x < a.spans[e].limit
  {
    assert Inside(a, p) && Sized(a, p) && Classed(a, p) && Chained(a, p) && Classed(a, a.top);
    var e :| e in a.spans && a.spans[e].base <= p && Next(a, p) <= e;
    NextInside(a, p, e);
    assert Sized(a, Next(a, p));
    assert a.spans[e].base <= x < a.spans[e].limit;
  }

  /** A logged store leaves a block alone that is there before and after the step. */
  lemma StoreKeeps(a: Arena, d: map<int, Direct>, segs: seq<Segment>, a': Arena, d': map<int, Direct>,
                   segs': seq<Segment>,
                   stores: iset<int>, w: int, q: int, x: int)
    requires Sane(a, d, segs) && Sane(a', d', segs') && Logged(iset{}, stores, a, a') && w in stores
    requires q in BlocksOf(a, d) && q in BlocksOf(a', d') && (q in d <==> q in d')
    requires BlockByte(a, d, q, x) && BlockByte(a', d', q, x)
    ensures !(w <= x < w + 8)
  {
    OneKind(a, d, segs, q);
    OneKind(a', d', segs', q);
    if q in d {
      if InHeap(a, w) {
        HeapWord(a, segs, w);
      } else {
        HeapWord(a', segs', w);
      }
    } else if Spares(a, w) {
      assert UserByte(a, q, x);
    } else {
      assert UserByte(a', q, x);
    }
  }

  lemma HeapWord(a: Arena, segs: seq<Segment>, w: int)
    requires SegsOk(segs, a) && InHeap(a, w)
    ensures exists e :: e in a.spans && a.spans[e].base <= w && w + 8 <= a.spans[e].limit
  {
    var e :| e in a.spans && a.spans[e].base <= w < a.spans[e].limit;
    var i :| 0 <= i < |segs| && SegEnd(segs, i, TopEnd(a)) == e;
    assert SegOk(segs, a, i);
    var b, s := segs[i].base / PAGE, segs[i].size / PAGE;
    assert segs[i].base + segs[i].size == 8 * (512 * (b + s));
  }

  // ---- What happens to bytes.

  /** Some bytes of the words stored to change. */
  ghost function Smear(bytes: int -> int, stores: iset<int>, junk: int -> int): int -> int {
    x => if exists w :: w in stores && w <= x < w + 8 then junk(x) else bytes(x)
  }

  /** `memcpy` */
  ghost function Copied(bytes: int -> int, dst: int, src: int, len: int): int -> int {
    x => if dst <= x < dst + len then bytes(src + x - dst) else bytes(x)
  }

  /** Pages have moved from p to r; what is new there is unknown, and the tags are stored. */
  ghost function Remapped(bytes: int -> int, p: int, psize: int, r: int, rsize: int, junk: int -> int): int -> int {
    x => if r <= x < r + rsize + 32 then
           if r + 16 <= x < r + rsize && x < r + psize then bytes(p + x - r) else junk(x)
         else bytes(x)
  }

  /** The tag words of a direct chunk. */
  ghost function DirectTags(d: map<int, Direct>, p: int): iset<int> {
    if p in d then iset{p, p + 8, p + d[p].psize + 8, p + d[p].psize + 16} else iset{}
  }

  lemma TagKeeps(a: Arena, d: map<int, Direct>, segs: seq<Segment>, p: int, w: int, q: int, x: int)
    requires Sane(a, d, segs) && p in BlocksOf(a, d) && q in BlocksOf(a, d) && w in DirectTags(d, p)
    requires BlockByte(a, d, q, x)
    ensures !(w <= x < w + 8)
  {
    OneKind(a, d, segs, p);
    OneKind(a, d, segs, q);
    if q !in d {
      UserInSegment(a, q, x);
    }
  }

  // ---- The program's view.

  /** The heap, the direct mappings and the segment list, and the bytes in memory. */
  datatype Memory = Memory(a: Arena, d: map<int, Direct>, segs: seq<Segment>, bytes: int -> int)

  ghost function Blocks(m: Memory): map<int, nat> {
    BlocksOf(m.a, m.d)
  }

  ghost predicate Good(m: Memory) {
    Sane(m.a, m.d, m.segs)
  }

  ghost predicate SamePlace(m: Memory, m': Memory, q: int)
    requires q in Blocks(m)
  {
    q in Blocks(m') && Blocks(m')[q] == Blocks(m)[q] && Room(m'.a, m'.d, q) == Room(m.a, m.d, q)
      && (q in m.d <==> q in m'.d)
  }

  /** Every block other than p has kept its place and size. */
  ghost predicate PlacesKept(m: Memory, m': Memory, p: int) {
    forall q {:trigger SamePlace(m, m', q)} {:trigger q in Blocks(m)} :: q in Blocks(m) && q != p ==>
      SamePlace(m, m', q)
  }

  /** Every block other than p still holds the same bytes. */
  ghost predicate BytesKept(m: Memory, m': Memory, p: int) {
    forall q, x :: q in Blocks(m) && q != p && BlockByte(m'.a, m'.d, q, x) ==> m'.bytes(x) == m.bytes(x)
  }

  ghost predicate OthersKept(m: Memory, m': Memory, p: int) {
    PlacesKept(m, m', p) && BytesKept(m, m', p)
  }

  lemma NullIsNoBlock(m: Memory)
    requires Good(m)
    ensures 0 !in Blocks(m)
  {
    if 0 in Blocks(m) {
      OneKind(m.a, m.d, m.segs, 0);
    }
  }

  /** The step has stored to the given words, and set up the direct chunk r if there is one. */
  lemma SmearKeeps(m: Memory, m': Memory, stores: iset<int>, r: int, junk: int -> int, p: int)
    requires Good(m) && Good(m') && Logged(iset{}, stores, m.a, m'.a) && PlacesKept(m, m', p)
    requires r in m'.d ==> r !in Blocks(m)
    requires m'.bytes == Smear(m.bytes, stores + DirectTags(m'.d, r), junk)
    ensures OthersKept(m, m', p)
  {
    hide Inv, Logged, SegsOk, DirectOk, BlocksOf;
    forall q, x | q in Blocks(m) && q != p && BlockByte(m'.a, m'.d, q, x)
      ensures m'.bytes(x) == m.bytes(x)
    {
      forall w | w in stores + DirectTags(m'.d, r)
        ensures !(w <= x < w + 8)
      {
        if w in stores {
          StoreKeeps(m.a, m.d, m.segs, m'.a, m'.d, m'.segs, stores, w, q, x);
        } else {
          DirectIsBlock(m', r);
          TagKeeps(m'.a, m'.d, m'.segs, r, w, q, x);
        }
      }
    }
  }

  lemma DirectIsBlock(m: Memory, r: int)
    ensures r in m.d ==> r in Blocks(m)
  {
  }

  lemma MallocBlocks(m: Memory, m': Memory, p: int, n: nat)
    requires Good(m) && Good(m')
    requires (m'.d == m.d && Handed(m.a, m'.a, p, n))
          || (m'.a == m.a && p !in m.d && p in m'.d && p > 0 && m'.d == m.d[p := m'.d[p]] && m'.d[p].request == n)
    ensures PlacesKept(m, m', 0)
    ensures if p == 0 then Blocks(m') == Blocks(m) else p !in Blocks(m) && Blocks(m') == Blocks(m)[p := n]
  {
    hide SegsOk, DirectOk, Inv, Handed;
    if m'.d == m.d && Handed(m.a, m'.a, p, n) {
      HeapBlocks(m, m', p, n);
    } else {
      DirectBlocks(m, m', p, n);
    }
  }

  lemma HeapBlocks(m: Memory, m': Memory, p: int, n: nat)
    requires Good(m) && Good(m') && m'.d == m.d && Handed(m.a, m'.a, p, n)
    ensures PlacesKept(m, m', 0)
    ensures if p == 0 then Blocks(m') == Blocks(m) else p !in Blocks(m) && Blocks(m') == Blocks(m)[p := n]
  {
    hide SegsOk, DirectOk, Inv;
    if p != 0 {
      LiveIsNotDirect(m', p);
    }
    forall q | q in Blocks(m) && q != 0
      ensures SamePlace(m, m', q)
    {
      OneKind(m.a, m.d, m.segs, q);
    }
  }

  lemma DirectBlocks(m: Memory, m': Memory, p: int, n: nat)
    requires Good(m) && Good(m') && m'.a == m.a && p !in m.d && p in m'.d
    requires m'.d == m.d[p := m'.d[p]] && m'.d[p].request == n
    ensures PlacesKept(m, m', 0) && p !in Blocks(m) && Blocks(m') == Blocks(m)[p := n]
  {
    hide SegsOk, DirectOk, Inv;
    DirectIsBlock(m', p);
    OneKind(m'.a, m'.d, m'.segs, p);
    forall q | q in Blocks(m) && q != 0
      ensures SamePlace(m, m', q)
    {
    }
  }

  lemma LiveIsNotDirect(m: Memory, p: int)
    requires Good(m) && p in m.a.live
    ensures p !in m.d
  {
    hide SegsOk, DirectOk, Inv;
    if p in m.d {
      OneKind(m.a, m.d, m.segs, p);
    }
  }

  lemma FreeBlocks(m: Memory, m': Memory, p: int)
    requires Good(m) && Good(m') && (p == 0 || p in Blocks(m)) && Gone(m.a, m'.a, p) && m'.d == m.d - {p}
    ensures PlacesKept(m, m', p) && Blocks(m') == Blocks(m) - {p}
  {
    hide SegsOk, DirectOk;
    LiveAreChunks(m.a);
    forall q | q in Blocks(m) && q != p
      ensures SamePlace(m, m', q)
    {
      OneKind(m.a, m.d, m.segs, q);
    }
  }

  lemma ResizeBlocks(m: Memory, m': Memory, p: int, n: nat)
    requires Good(m) && Good(m') && p in Blocks(m) && p !in m.d && m'.d == m.d && Resized(m.a, m'.a, p, n)
    ensures PlacesKept(m, m', p) && Blocks(m') == (Blocks(m) - {p})[p := n]
  {
    hide SegsOk, DirectOk;
    LiveAreChunks(m.a);
    OneKind(m.a, m.d, m.segs, p);
    forall q | q in Blocks(m) && q != p
      ensures SamePlace(m, m', q)
    {
      OneKind(m.a, m.d, m.segs, q);
    }
  }

  /** The bytes of a block of the heap that is resized in place survive as far as they fit. */
  lemma ResizeBytes(m: Memory, m': Memory, p: int, n: nat, stores: iset<int>, junk: int -> int)
    requires Good(m) && Good(m') && p in Blocks(m) && p !in m.d && m'.d == m.d && Resized(m.a, m'.a, p, n)
    requires Logged(iset{}, stores, m.a, m'.a) && m'.bytes == Smear(m.bytes, stores, junk)
    ensures Moved(m, m', p, p, n)
  {
    hide Inv, Logged, SegsOk, DirectOk;
    forall k: nat | k < n && k < Room(m.a, m.d, p)
      ensures ByteMoved(m, m', p, p, k)
    {
      var x := p + 16 + k;
      forall w | w in stores
        ensures !(w <= x < w + 8)
      {
        StoreKeeps(m.a, m.d, m.segs, m'.a, m'.d, m'.segs, stores, w, p, x);
      }
    }
  }

  /** The first bytes of the old block p, as far as both old and new size go, are in the block r now. */
  ghost predicate Moved(m: Memory, m': Memory, p: int, r: int, n: nat) {
    forall k: nat {:trigger ByteMoved(m, m', p, r, k)} :: k < n && k < Room(m.a, m.d, p) ==> ByteMoved(m, m', p, r, k)
  }

  /** The byte at offset k of the old block p is the one of the block r now. */
  ghost predicate ByteMoved(m: Memory, m': Memory, p: int, r: int, k: nat) {
    m'.bytes(r + 16 + k) == m.bytes(p + 16 + k)
  }

  ghost predicate RemapStep(m: Memory, m': Memory, p: int, r: int, n: nat) {
    && Good(m) && Good(m') && p in m.d && m'.a == m.a && (r == p || r !in m.d) && r in m'.d
    && m'.d == (m.d - {p})[r := m'.d[r]] && m'.d[r].request == n
  }

  lemma RemapPlaces(m: Memory, m': Memory, p: int, r: int, n: nat)
    requires RemapStep(m, m', p, r, n)
    ensures PlacesKept(m, m', p) && Blocks(m') == (Blocks(m) - {p})[r := n] && (r == p || r !in Blocks(m))
  {
    hide SegsOk, DirectOk, Inv;
    OneKind(m.a, m.d, m.segs, p);
    DirectIsBlock(m', r);
    OneKind(m'.a, m'.d, m'.segs, r);
    forall q | q in Blocks(m) && q != p
      ensures SamePlace(m, m', q)
    {
      OneKind(m.a, m.d, m.segs, q);
    }
  }

  lemma RemapBytes(m: Memory, m': Memory, p: int, r: int, n: nat, junk: int -> int)
    requires RemapStep(m, m', p, r, n) && PlacesKept(m, m', p) && (r == p || r !in Blocks(m))
    requires m'.bytes == Remapped(m.bytes, p, m.d[p].psize, r, m'.d[r].psize, junk)
    ensures BytesKept(m, m', p)
  {
    hide SegsOk, DirectOk, Inv, BlocksOf, Room;
    forall q, x | q in Blocks(m) && q != p && BlockByte(m'.a, m'.d, q, x)
      ensures m'.bytes(x) == m.bytes(x)
    {
      assert SamePlace(m, m', q);
      RemapApart(m'.a, m'.d, m'.segs, r, q, x);
    }
  }

  lemma RemapKeeps(m: Memory, m': Memory, p: int, r: int, n: nat, junk: int -> int)
    requires RemapStep(m, m', p, r, n)
    requires m'.bytes == Remapped(m.bytes, p, m.d[p].psize, r, m'.d[r].psize, junk)
    ensures OthersKept(m, m', p) && Moved(m, m', p, r, n) && Blocks(m') == (Blocks(m) - {p})[r := n]
    ensures r == p || r !in Blocks(m)
  {
    hide SegsOk, DirectOk, Inv, PlacesKept, BytesKept, BlocksOf, Moved, Remapped;
    RemapPlaces(m, m', p, r, n);
    RemapBytes(m, m', p, r, n, junk);
    RemapMoves(m, m', p, r, n, junk);
  }

  lemma RemapMoves(m: Memory, m': Memory, p: int, r: int, n: nat, junk: int -> int)
    requires RemapStep(m, m', p, r, n)
    requires m'.bytes == Remapped(m.bytes, p, m.d[p].psize, r, m'.d[r].psize, junk)
    ensures Moved(m, m', p, r, n)
  {
    hide SegsOk, DirectOk, Inv;
    DirectIsBlock(m', r);
    OneKind(m'.a, m'.d, m'.segs, r);
    hide Good, BlocksOf;
    forall k: nat | k < n && k < Room(m.a, m.d, p)
      ensures ByteMoved(m, m', p, r, k)
    {
      RemappedAt(m.bytes, p, m.d[p].psize, r, m'.d[r].psize, junk, k);
    }
  }

  lemma RemappedAt(bytes: int -> int, p: int, psize: int, r: int, rsize: int, junk: int -> int, k: nat)
    requires 16 + k < rsize && 16 + k < psize
    ensures Remapped(bytes, p, psize, r, rsize, junk)(r + 16 + k) == bytes(p + 16 + k)
  {
    assert p + (r + 16 + k) - r == p + 16 + k;
  }

  /** No byte of another block lies in the mapping of a direct chunk. */
  lemma RemapApart(a: Arena, d: map<int, Direct>, segs: seq<Segment>, r: int, q: int, x: int)
    requires Sane(a, d, segs) && r in d && q in BlocksOf(a, d) && q != r && BlockByte(a, d, q, x)
    ensures !(r <= x < r + d[r].psize + 32)
  {
    OneKind(a, d, segs, r);
    OneKind(a, d, segs, q);
    if q !in d {
      UserInSegment(a, q, x);
    }
  }

  lemma CopyKeeps(m: Memory, m': Memory, p: int, r: int, len: nat)
    requires Good(m) && p in Blocks(m) && r in Blocks(m) && p != r && len <= Room(m.a, m.d, p) && len <= Blocks(m)[r]
    requires m' == m.(bytes := Copied(m.bytes, r + 16, p + 16, len))
    ensures OthersKept(m, m', r) && Moved(m, m', p, r, len)
  {
    hide Inv, SegsOk, DirectOk, BlocksOf, Room, Moved;
    forall q, x | q in Blocks(m) && q != r && BlockByte(m'.a, m'.d, q, x)
      ensures m'.bytes(x) == m.bytes(x)
    {
      BlocksSeparate(m.a, m.d, m.segs, r, q, x);
      assert BlockByte(m.a, m.d, q, x);
    }
    forall q | q in Blocks(m) && q != r
      ensures SamePlace(m, m', q)
    {
    }
    CopyMoves(m, m', p, r, len);
  }

  lemma CopyMoves(m: Memory, m': Memory, p: int, r: int, len: nat)
    requires m'.bytes == Copied(m.bytes, r + 16, p + 16, len)
    ensures Moved(m, m', p, r, len)
  {
    hide Copied, Room;
    forall k: nat | k < len
      ensures ByteMoved(m, m', p, r, k)
    {
      CopiedAt(m.bytes, r + 16, p + 16, len, k);
    }
  }

  lemma CopiedAt(bytes: int -> int, dst: int, src: int, len: int, k: nat)
    requires k < len
    ensures Copied(bytes, dst, src, len)(dst + k) == bytes(src + k)
  {
    assert src + (dst + k) - dst == src + k;
  }

  lemma PlaceOf(m: Memory, m': Memory, p: int)
    requires OthersKept(m, m', 0) && p in Blocks(m) && p != 0
    ensures SamePlace(m, m', p)
  {
  }

  /** `lj_alloc_realloc`, third way: malloc, copy, free. */
  lemma CopiedOver(m: Memory, m1: Memory, m2: Memory, m3: Memory, p: int, r: int, n: nat, len: nat)
    requires Good(m) && Good(m1) && Good(m3) && p in Blocks(m) && r !in Blocks(m) && r != 0
    requires OthersKept(m, m1, 0) && Blocks(m1) == Blocks(m)[r := n]
    requires OthersKept(m1, m2, r) && Moved(m1, m2, p, r, len) && Blocks(m2) == Blocks(m1)
    requires OthersKept(m2, m3, p) && Blocks(m3) == Blocks(m2) - {p}
    requires len == if Room(m.a, m.d, p) < n then Room(m.a, m.d, p) else n
    ensures OthersKept(m, m3, p) && Moved(m, m3, p, r, n) && Blocks(m3) == (Blocks(m) - {p})[r := n]
  {
    hide Inv, SegsOk, DirectOk, BlocksOf;
    NullIsNoBlock(m);
    forall q, x | q in Blocks(m) && q != p && BlockByte(m3.a, m3.d, q, x)
      ensures m3.bytes(x) == m.bytes(x)
    {
      assert BlockByte(m2.a, m2.d, q, x) && BlockByte(m1.a, m1.d, q, x);
    }
    BlocksSeparate(m3.a, m3.d, m3.segs, r, r, 0);
    PlaceOf(m, m1, p);
    forall k: nat | k < n && k < Room(m.a, m.d, p)
      ensures ByteMoved(m, m3, p, r, k)
    {
      assert ByteMoved(m1, m2, p, r, k);
      assert BlockByte(m3.a, m3.d, r, r + 16 + k) && BlockByte(m1.a, m1.d, p, p + 16 + k);
    }
  }

  /** The block p is now the block r with room for n bytes, and holds what it held as far as it
      goes; nothing has happened to the other blocks. */
  ghost predicate Reallocated(m: Memory, m': Memory, p: int, r: int, n: nat) {
    && OthersKept(m, m', p) && Moved(m, m', p, r, n) && Blocks(m') == (Blocks(m) - {p})[r := n]
    && (r == p || r !in Blocks(m))
  }

  ghost predicate Undisturbed(m: Memory, m': Memory) {
    OthersKept(m, m', 0) && Blocks(m') == Blocks(m)
  }

  lemma NothingHappened(m: Memory)
    ensures Undisturbed(m, m)
  {
  }

  lemma NoTags(d: map<int, Direct>, stores: iset<int>)
    requires 0 !in d
    ensures stores + DirectTags(d, 0) == stores
  {
  }

  lemma RoomIs(m: Memory, p: int)
    requires Good(m) && p in Blocks(m)
    ensures p in m.d ==> Room(m.a, m.d, p) == m.d[p].psize - 16 >= 0
    ensures p !in m.d ==> p in m.a.head && Room(m.a, m.d, p) == m.a.head[p].size - 8 >= 0
  {
    OneKind(m.a, m.d, m.segs, p);
  }

  class LjAlloc {
    const ms: MState
    ghost var bytes: int -> int

    constructor (tbase: int)
      requires 0 < tbase && tbase % PAGE == 0 && tbase + DEFAULT_GRANULARITY <= ADDRESS_LIMIT
      ensures Valid() && Blocks(Now()) == map[] && fresh(ms) && fresh(ms.small) && fresh(ms.tree) && fresh(ms.sys)
    {
      ms := new MState(tbase);
      bytes := x => 0;
    }

    ghost predicate Valid()
      reads ms, ms.small, ms.tree
    {
      ms.Valid()
    }

    ghost function Now(): Memory
      reads this, ms, ms.small, ms.tree
    {
      Memory(ms.View(), ms.direct, ms.segs, bytes)
    }

    /** All the memory the allocator has from the system. */
    ghost function Taken(): int
      reads ms
    {
      Held(ms.segs, ms.direct)
    }

    lemma NoDirectAtNull()
      requires Valid()
      ensures 0 !in ms.direct
    {
    }

    lemma GoodNow()
      requires Valid()
      ensures Good(Now())
    {
    }

    /** What the words stored to hold now, and the tags of the direct chunk r if it is new, is unknown. */
    ghost method Store(r: int) returns (junk: int -> int)
      modifies this`bytes
      ensures bytes == Smear(old(bytes), ms.stores + DirectTags(ms.direct, r), junk)
    {
      junk := *;
      bytes := Smear(bytes, ms.stores + DirectTags(ms.direct, r), junk);
    }

    /** `lj_alloc_malloc`: it fails only when no free chunk fits and the system does not help. */
    method Malloc(n: nat) returns (p: int, ghost asked: seq<Call>)
      requires Valid() && n < WORD64
      modifies this, ms, ms.small, ms.tree, ms.sys
      ensures Valid() && OthersKept(old(Now()), Now(), 0)
      ensures if p == 0 then Blocks(Now()) == old(Blocks(Now()))
              else p !in old(Blocks(Now())) && Blocks(Now()) == old(Blocks(Now()))[p := n]
      ensures ms.sys.calls == old(ms.sys.calls) + asked && Provided(old(ms.View()), n, p, asked)
      ensures Accounted(old(Taken()), Taken(), asked)
    {
      hide Heap.Inv, Handed, Logged, DirectOk, SegsOk, Smear, BlocksOf, Room, MState.Binned, MState.BinsValid;
      hide NoneFits, OthersKept, PlacesKept, Provided, Held, Net;
      ghost var m := Now();
      GoodNow();
      NullIsNoBlock(m);
      ms.stores := iset{};
      p, asked := ms.Malloc(n);
      ghost var r := if p in ms.direct then p else 0;
      ghost var junk := Store(r);
      GoodNow();
      MallocBlocks(m, Now(), p, n);
      NullIsNoBlock(Now());
      SmearKeeps(m, Now(), ms.stores, r, junk, 0);
    }

    /** `lj_alloc_free` */
    method Free(p: int) returns (ghost asked: seq<Call>)
      requires Valid() && (p == 0 || p in Blocks(Now()))
      modifies this, ms, ms.small, ms.tree, ms.sys
      ensures Valid() && OthersKept(old(Now()), Now(), p) && Blocks(Now()) == old(Blocks(Now())) - {p}
      ensures ms.sys.calls == old(ms.sys.calls) + asked && Accounted(old(Taken()), Taken(), asked)
      ensures p in old(ms.direct) ==> |asked| == 1 && asked[0] == Unmap(p, old(ms.direct)[p].mmsize, asked[0].ok)
    {
      hide Heap.Inv, Gone, Logged, DirectOk, SegsOk, Smear, Room, MState.Binned, MState.BinsValid, OthersKept;
      hide PlacesKept, Held, Accounted, MState.TopTried, Linked;
      ghost var m := Now();
      GoodNow();
      ms.stores := iset{};
      asked := ms.FreeBlock(p);
      ghost var junk := Store(0);
      GoodNow();
      FreeBlocks(m, Now(), p);
      NullIsNoBlock(Now());
      SmearKeeps(m, Now(), ms.stores, 0, junk, p);
    }

    /** The chunk of the block p is large enough, or becomes so with a part of the top behind it. */
    predicate CanStay(a: Arena, p: int, nb: nat) {
      p in a.head && (nb <= a.head[p].size || (Next(a, p) == a.top && nb < a.head[p].size + a.topsize))
    }

    /** A block of the heap, resized where it is, if possible. */
    method Resize(p: int, nb: nat, n: nat) returns (ok: bool, ghost asked: seq<Call>)
      requires Valid() && p in Blocks(Now()) && p !in ms.direct && Padded(nb, n)
      modifies this, ms, ms.small, ms.tree, ms.sys
      ensures ms.sys.calls == old(ms.sys.calls) + asked && (!ok ==> asked == [])
      ensures Accounted(old(Taken()), Taken(), asked)
      ensures Valid() && if ok then Reallocated(old(Now()), Now(), p, p, n) else Now() == old(Now())
      ensures ok <==> CanStay(old(ms.View()), p, nb)
    {
      hide Heap.Inv, Resized, Logged, DirectOk, SegsOk, Smear, Room, MState.Binned, MState.BinsValid, OthersKept;
      hide PlacesKept, Moved, Held, Accounted;
      ghost var m := Now();
      GoodNow();
      OneKind(m.a, m.d, m.segs, p);
      ms.stores := iset{};
      ok, asked := ms.ResizeInPlace(p, nb, n);
      if ok {
        ghost var junk := Store(0);
        GoodNow();
        NullIsNoBlock(Now());
        ResizeBlocks(m, Now(), p, n);
        SmearKeeps(m, Now(), ms.stores, 0, junk, p);
        NoTags(ms.direct, ms.stores);
        ResizeBytes(m, Now(), p, n, ms.stores, junk);
      }
    }

    /** A direct chunk, kept or remapped, if possible. */
    method ResizeDirect(p: int, nb: nat, n: nat) returns (r: int, ghost asked: seq<Call>)
      requires Valid() && p in ms.direct && Padded(nb, n) && nb < WORD64 - 112
      modifies this`bytes, ms`direct, ms.sys
      ensures ms.sys.calls == old(ms.sys.calls) + asked && ms.DirectAsked(old(ms.direct)[p], p, nb, r, asked)
      ensures Accounted(old(Taken()), Taken(), asked)
      ensures Valid() && if r == 0 then Now() == old(Now()) else Reallocated(old(Now()), Now(), p, r, n)
    {
      hide Heap.Inv, DirectOk, SegsOk, Remapped, Room, MState.Binned, MState.BinsValid, OthersKept, PlacesKept, Moved;
      hide BlocksOf, Held, Net, MState.DirectAsked;
      ghost var m := Now();
      GoodNow();
      r, asked := ms.DirectResize(p, nb, n);
      if r != 0 {
        ghost var junk: int -> int := *;
        bytes := Remapped(bytes, p, m.d[p].psize, r, ms.direct[r].psize, junk);
        GoodNow();
        RemapKeeps(m, Now(), p, r, n, junk);
      }
    }

    /** The request to resize p (or just to allocate) has been refused: no free chunk fits, and the system has
        neither remapped the block, if it is a direct one, nor mapped memory for a new one. */
    ghost predicate Refused(a: Arena, d: map<int, Direct>, p: int, n: nat, asked: seq<Call>) {
      var nb := Request2Size(n);
      && NoneFits(a, nb)
      && if p in d && !IsSmall(nb) then
           asked != [] && ms.DirectAsked(d[p], p, nb, 0, asked[..1]) && Helped(asked[1..], nb, 0)
         else Helped(asked, nb, 0)
    }

    /** `lj_alloc_realloc`: on failure nothing has happened to any block; and a block of the heap that can stay where
        it is stays there. */
    method Realloc(p: int, n: nat) returns (r: int, ghost asked: seq<Call>)
      requires Valid() && p in Blocks(Now()) && n < WORD64
      modifies this, ms, ms.small, ms.tree, ms.sys
      ensures Valid() && if r == 0 then Undisturbed(old(Now()), Now()) else Reallocated(old(Now()), Now(), p, r, n)
      ensures r == 0 && n < MAX_REQUEST ==> Refused(old(ms.View()), old(ms.direct), p, n, asked)
      ensures ms.sys.calls == old(ms.sys.calls) + asked && Accounted(old(Taken()), Taken(), asked)
      ensures n < MAX_REQUEST && p !in old(ms.direct) && CanStay(old(ms.View()), p, Request2Size(n)) ==> r == p
    {
      hide Heap.Inv, DirectOk, SegsOk, Remapped, MState.Binned, MState.BinsValid, OthersKept, PlacesKept, Moved;
      hide BlocksOf, Room, NoneFits, CanStay, Held, Accounted, Helped;
      ghost var m := Now();
      ghost var taken := Taken();
      GoodNow();
      NullIsNoBlock(m);
      NothingHappened(m);
      NothingAsked(Taken());
      if n >= MAX_REQUEST {
        return 0, [];
      }
      r, asked := ResizeInPlace(p, Request2Size(n), n);
      if r == 0 {
        ghost var first, more, between := asked, [], Taken();
        r, more := MallocAndMove(p, n);
        asked := first + more;
        AccountedBoth(taken, between, Taken(), first, more);
        Parts(first, more);
      }
    }

    /** The second half of it: malloc, copy, free. */
    method MallocAndMove(p: int, n: nat) returns (r: int, ghost asked: seq<Call>)
      requires Valid() && p in Blocks(Now()) && n < MAX_REQUEST
      modifies this, ms, ms.small, ms.tree, ms.sys
      ensures Valid() && if r == 0 then Undisturbed(old(Now()), Now()) else Reallocated(old(Now()), Now(), p, r, n)
      ensures r == 0 ==> NoneFits(old(ms.View()), Request2Size(n)) && Helped(asked, Request2Size(n), 0)
      ensures ms.sys.calls == old(ms.sys.calls) + asked && Accounted(old(Taken()), Taken(), asked)
    {
      hide Heap.Inv, DirectOk, SegsOk, MState.Binned, MState.BinsValid, OthersKept, PlacesKept, Moved;
      hide BlocksOf, Room, NoneFits, Held, Accounted, Helped;
      ghost var m, taken := Now(), Taken();
      GoodNow();
      r, asked := Malloc(n);
      if r != 0 {
        ghost var first, between := asked, Taken();
        ghost var more;
        more := CopyAndFree(p, r, n, m);
        AccountedBoth(taken, between, Taken(), first, more);
        asked := first + more;
      }
    }

    /** The first half of it: shrink the block or extend it into the top, or remap it if it is a direct one. */
    method ResizeInPlace(p: int, nb: nat, n: nat) returns (r: int, ghost asked: seq<Call>)
      requires Valid() && p in Blocks(Now()) && Padded(nb, n) && nb < WORD64 - 112
      modifies this, ms, ms.small, ms.tree, ms.sys
      ensures Valid() && if r == 0 then Now() == old(Now()) else Reallocated(old(Now()), Now(), p, r, n)
      ensures ms.sys.calls == old(ms.sys.calls) + asked && Accounted(old(Taken()), Taken(), asked)
      ensures r == 0 ==>
                if p in old(ms.direct) then ms.DirectAsked(old(ms.direct)[p], p, nb, 0, asked) else asked == []
      ensures p !in old(ms.direct) && CanStay(old(ms.View()), p, nb) ==> r == p
    {
      hide Heap.Inv, DirectOk, SegsOk, MState.Binned, MState.BinsValid, BlocksOf, CanStay, Held, Accounted, Reallocated;
      hide MState.DirectAsked;
      BlockKind(p);
      NullIsNoBlock(Now());
      ms.DirectBit(p);
      // is_direct
      if !ms.HeadAt(p).pinuse && ms.PrevFoot(p) % 2 == IS_DIRECT_BIT {
        r, asked := ResizeDirect(p, nb, n);
      } else {
        var ok;
        ok, asked := Resize(p, nb, n);
        r := if ok then p else 0;
      }
    }

    lemma Parts(a: seq<Call>, b: seq<Call>)
      ensures a == [] ==> a + b == b
      ensures |a| == 1 ==> (a + b)[..1] == a && (a + b)[1..] == b
    {
    }

    /** What follows the malloc */
    method CopyAndFree(p: int, r: int, n: nat, ghost m: Memory) returns (ghost asked: seq<Call>)
      requires Valid() && Good(m) && p in Blocks(m) && r !in Blocks(m) && r != 0
      requires OthersKept(m, Now(), 0) && Blocks(Now()) == Blocks(m)[r := n]
      modifies this, ms, ms.small, ms.tree, ms.sys
      ensures Valid() && Reallocated(m, Now(), p, r, n)
      ensures ms.sys.calls == old(ms.sys.calls) + asked && Accounted(old(Taken()), Taken(), asked)
    {
      hide Heap.Inv, DirectOk, SegsOk, Copied, MState.Binned, MState.BinsValid, OthersKept, Moved, BlocksOf, Room;
      hide Held, Accounted;
      ghost var m1 := Now();
      GoodNow();
      NullIsNoBlock(m);
      PlaceOf(m, m1, p);
      BlockKind(p);
      ms.DirectBit(p);
      var oldsize := ms.HeadAt(p).size;
      var oc := oldsize - if !ms.HeadAt(p).pinuse && ms.PrevFoot(p) % 2 == IS_DIRECT_BIT
                          then 2 * CHUNK_OVERHEAD else CHUNK_OVERHEAD;
      RoomIs(m1, p);
      ghost var len: nat := if oc < n then oc else n;
      bytes := Copied(bytes, r + 16, p + 16, len);
      CopyKeeps(m1, Now(), p, r, len);
      ghost var m2 := Now();
      asked := Free(p);
      GoodNow();
      CopiedOver(m, m1, m2, Now(), p, r, n, len);
    }

    lemma BlockKind(p: int)
      requires Valid() && p in Blocks(Now())
      ensures p in ms.live || p in ms.direct
    {
    }

    /** `lj_alloc_f`: what `lua_Alloc` functions are to do. */
    method AllocF(ptr: int, osize: nat, nsize: nat) returns (r: int, ghost asked: seq<Call>)
      requires Valid() && (ptr == 0 || ptr in Blocks(Now())) && nsize < WORD64
      modifies this, ms, ms.small, ms.tree, ms.sys
      ensures Valid()
      ensures nsize == 0 ==> r == 0 && OthersKept(old(Now()), Now(), ptr) && Blocks(Now()) == old(Blocks(Now())) - {ptr}
      ensures nsize > 0 && r == 0 ==> Undisturbed(old(Now()), Now())
      ensures nsize > 0 && r != 0 && ptr != 0 ==> Reallocated(old(Now()), Now(), ptr, r, nsize)
      ensures nsize > 0 && r != 0 && ptr == 0 ==>
                r !in old(Blocks(Now())) && Blocks(Now()) == old(Blocks(Now()))[r := nsize]
                  && OthersKept(old(Now()), Now(), 0)
      ensures 0 < nsize < MAX_REQUEST && r == 0 ==> Refused(old(ms.View()), old(ms.direct), ptr, nsize, asked)
      ensures ms.sys.calls == old(ms.sys.calls) + asked && Accounted(old(Taken()), Taken(), asked)
    {
      hide Heap.Inv, DirectOk, SegsOk, MState.Binned, MState.BinsValid, OthersKept, PlacesKept, Moved, BlocksOf, Room;
      hide Held, Accounted, Helped, NoneFits;
      if nsize == 0 {
        asked := Free(ptr);
        r := 0;
      } else if ptr == 0 {
        NoDirectAtNull();
        r, asked := Malloc(nsize);
      } else {
        r, asked := Realloc(ptr, nsize);
      }
    }
  }
}
