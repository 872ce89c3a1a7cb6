/** What the allocator asks the operating system for (`CALL_MMAP`, `CALL_MREMAP`, `CALL_MUNMAP`), and what
    that comes to. */
module SystemCalls {
  import opened AllocSizes
  import opened AllocSystem

  /** A call, and whether the system obeyed. */
  datatype Call = Map(size: nat, ok: bool)
                | Remap(base: int, size: nat, newsize: nat, ok: bool)
                | Unmap(base: int, size: nat, ok: bool)

  class System {
    ghost var calls: seq<Call>

    constructor ()
      ensures calls == []
    {
      calls := [];
    }
  }

  /** The bytes that the system has mapped, less those that it has unmapped. */
  function Net(calls: seq<Call>): int {
    if calls == [] then 0 else Gain(calls[0]) + Net(calls[1..])
  }

  function Gain(c: Call): int {
    if !c.ok then 0
    else if c.Map? then c.size
    else if c.Remap? then c.newsize - c.size
    else 0 - c.size
  }

  lemma {:induction false} NetOfBoth(a: seq<Call>, b: seq<Call>)
    ensures Net(a + b) == Net(a) + Net(b)
  {
    if a == [] {
      assert a + b == b;
    } else {
      NetOfBoth(a[1..], b);
      assert (a + b)[1..] == a[1..] + b;
    }
  }

  lemma NetOfFew(calls: seq<Call>)
    ensures calls == [] ==> Net(calls) == 0
    ensures |calls| == 1 ==> Net(calls) == Gain(calls[0])
  {
  }

  /** The sizes of all direct mappings together. */
  ghost function DirectTotal(d: map<int, Direct>): int {
    if p :| p in d then d[p].mmsize + DirectTotal(d - {p}) else 0
  }

  lemma {:induction false} DirectTotalWithout(d: map<int, Direct>, p: int)
    requires p in d
    ensures DirectTotal(d) == d[p].mmsize + DirectTotal(d - {p})
  {
    var q :| q in d && DirectTotal(d) == d[q].mmsize + DirectTotal(d - {q});
    if q != p {
      DirectTotalWithout(d - {q}, p);
      DirectTotalWithout(d - {p}, q);
      assert d - {q} - {p} == d - {p} - {q};
    }
  }

  lemma DirectTotalWith(d: map<int, Direct>, p: int, x: Direct)
    requires p !in d
    ensures DirectTotal(d[p := x]) == DirectTotal(d) + x.mmsize
  {
    DirectTotalWithout(d[p := x], p);
    assert d[p := x] - {p} == d;
  }

  /** All that the allocator has from the system. */
  ghost function Held(segs: seq<Segment>, d: map<int, Direct>): int {
    TotalSize(segs) + DirectTotal(d)
  }

  /** The allocator holds what it held before and what the system has given it in these calls, less what it has
      given back; if the system refuses to unmap memory, it may hold less. */
  predicate Accounted(before: int, after: int, calls: seq<Call>) {
    && after <= before + Net(calls)
    && ((forall c :: c in calls && c.Unmap? ==> c.ok) ==> after == before + Net(calls))
  }

  lemma AccountedBoth(before: int, between: int, after: int, a: seq<Call>, b: seq<Call>)
    requires Accounted(before, between, a) && Accounted(between, after, b)
    ensures Accounted(before, after, a + b)
  {
    hide Net;
    NetOfBoth(a, b);
    if forall c :: c in a + b && c.Unmap? ==> c.ok {
      forall c | c in a && c.Unmap?
        ensures c.ok
      {
        assert c in a + b;
      }
      forall c | c in b && c.Unmap?
        ensures c.ok
      {
        assert c in a + b;
      }
    }
  }

  // ---- What a request that the heap cannot serve leads to.

  /** The size of size_t is too small for the size, rounded up to a multiple of the unit. */
  predicate Wraps(size: nat, unit: nat) {
    size + unit - 1 >= WORD64
  }

  /** Memory has been asked for: as much as needed, in whole units, and no unit more. */
  predicate MapsFor(c: Call, size: nat, unit: nat)
    requires unit > 0
  {
    c.Map? && c.size % unit == 0 && size <= c.size < size + unit
  }

  /** The request for a chunk of nb bytes has been brought to the system: from a threshold on a mapping of its
      own comes first; then a segment with room for the chunk is asked for, unless the sizes are too large for
      size_t. The result is null only if all that was refused. */
  predicate Helped(calls: seq<Call>, nb: nat, p: int) {
    var i := if nb >= DEFAULT_MMAP_THRESHOLD && !Wraps(nb + 55, PAGE) then 1 else 0;
    && (i == 1 ==> calls != [] && MapsFor(calls[0], nb + 55, PAGE))
    && if i == 1 && calls[0].ok then |calls| == 1 && p != 0
       else if Wraps(nb + 65, DEFAULT_GRANULARITY) then |calls| == i && p == 0
       else |calls| == i + 1 && MapsFor(calls[i], nb + 65, DEFAULT_GRANULARITY) && (p != 0 <==> calls[i].ok)
  }
}
