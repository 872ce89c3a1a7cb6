/** `table.sort` (`lib_table.c`): the in-place quicksort, for any comparison function. */
module TableSort {
  import opened Bits

  /** What `sort_comp` is to be: a strict weak order. */
  ghost predicate StrictWeak<T(!new)>(lt: (T, T) -> bool) {
    && (forall x :: !lt(x, x))
    && (forall x, y, z :: lt(x, y) && lt(y, z) ==> lt(x, z))
    && (forall x, y, z :: !lt(x, y) && !lt(y, z) ==> !lt(x, z))
  }

  predicate Le<T>(lt: (T, T) -> bool, x: T, y: T) {
    !lt(y, x)
  }

  /** All elements are among the first `lo` ones, or else in order with those behind them. */
  ghost predicate Ordered<T>(lt: (T, T) -> bool, s: seq<T>, x: int, y: int)
    requires 0 <= x <= y < |s|
  {
    Le(lt, s[x], s[y])
  }

  ghost predicate Sorted<T>(lt: (T, T) -> bool, s: seq<T>, l: int, u: int)
    requires 0 <= l && u < |s|
  {
    forall x, y {:trigger Ordered(lt, s, x, y)} :: l <= x <= y <= u ==> Ordered(lt, s, x, y)
  }

  /** t is s with the elements from l to u in another order. */
  ghost predicate Permuted<T>(s: seq<T>, t: seq<T>, l: int, u: int)
    requires 0 <= l <= u + 1 <= |s|
  {
    |t| == |s| && s[..l] == t[..l] && s[u + 1..] == t[u + 1..] && multiset(s[l..u + 1]) == multiset(t[l..u + 1])
  }

  lemma PermutedTwice<T>(s: seq<T>, t: seq<T>, v: seq<T>, l: int, u: int)
    requires 0 <= l <= u + 1 <= |s| && Permuted(s, t, l, u) && Permuted(t, v, l, u)
    ensures Permuted(s, v, l, u)
  {
  }

  /** A permutation of a part of a range is one of the range. */
  lemma PermutedPart<T>(s: seq<T>, t: seq<T>, l0: int, u0: int, l: int, u: int)
    requires 0 <= l0 <= l <= u + 1 <= u0 + 1 <= |s| && Permuted(s, t, l, u)
    ensures Permuted(s, t, l0, u0)
  {
    assert s[l0..u0 + 1] == s[l0..l] + s[l..u + 1] + s[u + 1..u0 + 1];
    assert t[l0..u0 + 1] == t[l0..l] + t[l..u + 1] + t[u + 1..u0 + 1];
    assert s[l0..l] == s[..l][l0..] && t[l0..l] == t[..l][l0..];
    assert s[u + 1..u0 + 1] == s[u + 1..][..u0 - u] && t[u + 1..u0 + 1] == t[u + 1..][..u0 - u];
    assert s[..l0] == s[..l][..l0] && t[..l0] == t[..l][..l0];
    assert s[u0 + 1..] == s[u + 1..][u0 - u..] && t[u0 + 1..] == t[u + 1..][u0 - u..];
  }

  lemma SwapPermutes<T>(s: seq<T>, x: int, y: int, l: int, u: int)
    requires 0 <= l <= x <= u < |s| && l <= y <= u
    ensures Permuted(s, s[x := s[y]][y := s[x]], l, u)
  {
    var t := s[x := s[y]][y := s[x]];
    var s', t' := s[l..u + 1], t[l..u + 1];
    assert t' == s'[x - l := s'[y - l]][y - l := s'[x - l]];
  }

  /** Where an element of the range comes from. */
  lemma Source<T>(s: seq<T>, t: seq<T>, l: int, u: int, k: int) returns (m: int)
    requires 0 <= l <= u + 1 <= |s| && Permuted(s, t, l, u) && 0 <= k < |t|
    ensures 0 <= m < |s| && s[m] == t[k] && (if l <= k <= u then l <= m <= u else m == k)
  {
    if l <= k <= u {
      assert t[l..u + 1][k - l] == t[k] && t[k] in multiset(t[l..u + 1]);
      assert t[k] in s[l..u + 1];
      var d :| 0 <= d < u + 1 - l && s[l..u + 1][d] == t[k];
      m := l + d;
    } else {
      m := k;
      if k < l {
        assert s[..l][k] == t[..l][k];
      } else {
        assert s[u + 1..][k - u - 1] == t[u + 1..][k - u - 1];
      }
    }
  }

  /** Pairs from l0 to u0 that are not both in the range from l to u are in order. */
  ghost predicate Around<T>(lt: (T, T) -> bool, s: seq<T>, l0: int, u0: int, l: int, u: int)
    requires 0 <= l0 && u0 < |s|
  {
    forall x, y {:trigger Ordered(lt, s, x, y)} :: l0 <= x <= y <= u0 && !(l <= x && y <= u) ==> Ordered(lt, s, x, y)
  }

  /** They stay so when the range is permuted. */
  lemma AroundPermuted<T>(lt: (T, T) -> bool, s: seq<T>, t: seq<T>, l0: int, u0: int, l: int, u: int)
    requires 0 <= l0 <= l <= u + 1 <= u0 + 1 <= |s| && Permuted(s, t, l, u) && Around(lt, s, l0, u0, l, u)
    ensures Around(lt, t, l0, u0, l, u)
  {
    forall x, y | l0 <= x <= y <= u0 && !(l <= x && y <= u)
      ensures Ordered(lt, t, x, y)
    {
      var x' := Source(s, t, l, u, x);
      var y' := Source(s, t, l, u, y);
      assert Ordered(lt, s, x', y');
    }
  }

  /** A sorted part within such a range. */
  lemma AroundPart<T>(lt: (T, T) -> bool, s: seq<T>, l0: int, u0: int, l: int, u: int, l1: int, u1: int)
    requires 0 <= l0 <= l && u <= u0 < |s| && l <= l1 && u1 <= u && l1 <= u1 + 1
    requires Around(lt, s, l0, u0, l, u) && Around(lt, s, l, u, l1, u1)
    ensures Around(lt, s, l0, u0, l1, u1)
  {
    forall x, y | l0 <= x <= y <= u0 && !(l1 <= x && y <= u1)
      ensures Ordered(lt, s, x, y)
    {
    }
  }

  /** A pivot between smaller and larger elements. */
  ghost predicate Split<T>(lt: (T, T) -> bool, s: seq<T>, l: int, u: int, i: int)
    requires 0 <= l <= i <= u < |s|
  {
    && (forall k :: l <= k < i ==> Le(lt, s[k], s[i]))
    && (forall k :: i < k <= u ==> Le(lt, s[i], s[k]))
  }

  /** Once one half is sorted, only the other one is left. */
  lemma HalfDone<T(!new)>(lt: (T, T) -> bool, s: seq<T>, t: seq<T>, l: int, u: int, i: int, left: bool)
    requires StrictWeak(lt) && 0 <= l <= i <= u < |s| && Split(lt, s, l, u, i)
    requires var j, k := if left then l else i + 1, if left then i - 1 else u;
             Permuted(s, t, j, k) && Sorted(lt, t, j, k)
    ensures Around(lt, t, l, u, if left then i + 1 else l, if left then u else i - 1)
  {
    var j, k := if left then l else i + 1, if left then i - 1 else u;
    forall x, y | l <= x <= y <= u && !((if left then i + 1 else l) <= x && y <= (if left then u else i - 1))
      ensures Ordered(lt, t, x, y)
    {
      var x' := Source(s, t, j, k, x);
      var y' := Source(s, t, j, k, y);
      if j <= x && y <= k {
        assert Ordered(lt, t, x, y);
      } else {
        assert Le(lt, s[x'], s[i]) && Le(lt, s[i], s[y']);
      }
    }
  }

  /** `set2` after two values have been pushed: exchange two elements. */
  method Swap<T>(a: array<T>, i: int, j: int)
    requires 0 <= i < a.Length && 0 <= j < a.Length
    modifies a
    ensures a[..] == old(a[..])[i := old(a[j])][j := old(a[i])]
  {
    a[i], a[j] := a[j], a[i];
  }

  lemma SamePermuted<T>(s: seq<T>, l: int, u: int)
    requires 0 <= l <= u + 1 <= |s|
    ensures Permuted(s, s, l, u)
  {
  }

  /** Compare two elements, and exchange them if they are out of order. */
  method Order<T(!new)>(a: array<T>, lt: (T, T) -> bool, x: int, y: int, ghost l: int, ghost u: int)
    returns (swapped: bool)
    requires 0 <= l <= x < y <= u < a.Length
    modifies a
    ensures swapped == old(lt(a[y], a[x])) && Permuted(old(a[..]), a[..], l, u)
    ensures a[x] == (if swapped then old(a[y]) else old(a[x])) && a[y] == if swapped then old(a[x]) else old(a[y])
    ensures forall k :: 0 <= k < a.Length && k != x && k != y ==> a[k] == old(a[k])
  {
    SamePermuted(a[..], l, u);
    SwapPermutes(a[..], x, y, l, u);
    swapped := lt(a[y], a[x]);
    if swapped {
      Swap(a, x, y);
    }
  }

  lemma TwoOrdered<T(!new)>(lt: (T, T) -> bool, x: T, y: T)
    requires StrictWeak(lt) && lt(x, y)
    ensures Le(lt, x, y)
  {
    assert !lt(x, x);
  }

  lemma LeTransitive<T(!new)>(lt: (T, T) -> bool, x: T, y: T, z: T)
    requires StrictWeak(lt) && Le(lt, x, y) && Le(lt, y, z)
    ensures Le(lt, x, z)
  {
  }

  /** Sort elements a[l], a[(l+u)/2] and a[u]. */
  method MedianOfThree<T(!new)>(a: array<T>, lt: (T, T) -> bool, l: int, u: int) returns (i: int)
    requires 0 <= l < u < a.Length
    modifies a
    ensures Permuted(old(a[..]), a[..], l, u) && i == (l + u) / 2
    ensures StrictWeak(lt) ==> Le(lt, a[l], a[u]) && (u - l > 1 ==> Le(lt, a[l], a[i]) && Le(lt, a[i], a[u]))
  {
    hide Permuted, StrictWeak;
    ghost var s := a[..];
    var swapped := Order(a, lt, l, u, l, u);  // swap a[l] - a[u]
    i := (l + u) / 2;
    ghost var t := a[..];
    if StrictWeak(lt) && swapped {
      TwoOrdered(lt, t[l], t[u]);
    }
    if u - l == 1 {
      return;  // only 2 elements
    }
    swapped := Order(a, lt, l, i, l, u);
    PermutedTwice(s, t, a[..], l, u);
    ghost var v := a[..];
    if !swapped {
      swapped := Order(a, lt, i, u, l, u);
      PermutedTwice(s, v, a[..], l, u);
      if StrictWeak(lt) && swapped {
        TwoOrdered(lt, a[i], a[u]);
      }
    } else if StrictWeak(lt) {
      TwoOrdered(lt, a[l], a[i]);
      LeTransitive(lt, a[l], a[i], a[u]);
    }
  }

  /** Repeat ++i until a[i] >= P. Fails rather than leave the range. */
  method ScanUp<T>(a: array<T>, lt: (T, T) -> bool, i0: int, u: int, pivot: T) returns (ok: bool, i: int)
    requires 0 <= i0 < u < a.Length
    ensures ok ==> i0 < i <= u && !lt(a[i], pivot) && forall k :: i0 < k < i ==> lt(a[k], pivot)
    ensures i0 + 1 < u && !lt(a[u - 1], pivot) ==> ok && i <= u - 1
  {
    i, ok := i0 + 1, true;
    while lt(a[i], pivot)
      invariant i0 < i <= u && forall k :: i0 < k < i ==> lt(a[k], pivot)
      decreases u - i
    {
      if i >= u {
        return false, i;  // invalid order function for sorting
      }
      i := i + 1;
    }
  }

  /** Repeat --j until a[j] <= P. Fails rather than leave the range. */
  method ScanDown<T>(a: array<T>, lt: (T, T) -> bool, l: int, j0: int, pivot: T) returns (ok: bool, j: int)
    requires 0 <= l < j0 < a.Length
    ensures ok ==> l <= j < j0 && !lt(pivot, a[j]) && forall k :: j < k < j0 ==> lt(pivot, a[k])
    ensures !lt(pivot, a[l]) ==> ok
  {
    j, ok := j0 - 1, true;
    while lt(pivot, a[j])
      invariant l <= j < j0 && forall k :: j < k < j0 ==> lt(pivot, a[k])
      decreases j
    {
      if j <= l {
        return false, j;
      }
      j := j - 1;
    }
  }

  /** What holds of the elements that have been looked at, if the order is valid: a[l..i] <= P <= a[j..u]. */
  ghost predicate Parted<T(!new)>(lt: (T, T) -> bool, s: seq<T>, l: int, u: int, i: int, j: int, pivot: T)
    requires 0 <= l <= i && j <= u < |s| && l <= j && i <= u && 0 < u
  {
    StrictWeak(lt) ==>
      && s[u - 1] == pivot && Le(lt, s[l], pivot)
      && (forall k :: l <= k <= i ==> Le(lt, s[k], pivot)) && (forall k :: j <= k <= u ==> Le(lt, pivot, s[k]))
  }

  /** Exchange elements across the pivot a[u-1], then put it between them: the pivot ends up at i.
      Fails, for an invalid order function only, rather than leave the range. */
  method Partition<T(!new)>(a: array<T>, lt: (T, T) -> bool, l: int, u: int) returns (ok: bool, i: int)
    requires 0 <= l && l + 2 < u < a.Length
    requires StrictWeak(lt) ==> Le(lt, a[l], a[u - 1]) && Le(lt, a[u - 1], a[u])
    modifies a
    ensures Permuted(old(a[..]), a[..], l, u)
    ensures StrictWeak(lt) ==> ok
    ensures ok ==> l < i <= u
    ensures ok && StrictWeak(lt) ==> i < u && Split(lt, a[..], l, u, i)
  {
    hide Permuted, StrictWeak, Parted, Split;
    var pivot := a[u - 1];
    ghost var s := a[..];
    i := l;
    var j := u - 1;
    StartParted(lt, s, l, u);
    while true
      invariant l <= i <= j <= u - 1 && l < j && (i == l || j < u - 1)
      invariant Permuted(s, a[..], l, u) && Parted(lt, a[..], l, u, i, j, pivot)
      decreases j - l
    {
      var i', j';
      Sentinels(lt, a[..], l, u, i, j, pivot);
      ok, i' := ScanUp(a, lt, i, u, pivot);
      if !ok {
        return;
      }
      ok, j' := ScanDown(a, lt, l, j, pivot);
      if !ok {
        return;
      }
      if j' < i' {
        PivotPlaced(lt, a[..], l, u, i, j, i', j', pivot);
        i := i';
        break;
      }
      Exchanged(lt, a[..], l, u, i, j, i', j', pivot);
      ghost var t := a[..];
      SwapPermutes(t, i', j', l, u);
      i, j := i', j';
      Swap(a, i, j);
      PermutedTwice(s, t, a[..], l, u);
    }
    ghost var t := a[..];
    SwapPermutes(t, u - 1, i, l, u);
    Swap(a, u - 1, i);  // swap pivot (a[u-1]) with a[i]
    PermutedTwice(s, t, a[..], l, u);
  }

  lemma StartParted<T(!new)>(lt: (T, T) -> bool, s: seq<T>, l: int, u: int)
    requires 0 <= l && l + 2 < u < |s|
    requires StrictWeak(lt) ==> Le(lt, s[l], s[u - 1]) && Le(lt, s[u - 1], s[u])
    ensures Permuted(s, s, l, u) && Parted(lt, s, l, u, l, u - 1, s[u - 1])
  {
  }

  /** The scans of a valid order stop in the range. */
  lemma Sentinels<T(!new)>(lt: (T, T) -> bool, s: seq<T>, l: int, u: int, i: int, j: int, pivot: T)
    requires 0 <= l <= i && j <= u < |s| && l <= j && i <= u && 0 < u && Parted(lt, s, l, u, i, j, pivot)
    ensures StrictWeak(lt) ==> !lt(s[u - 1], pivot) && !lt(pivot, s[l])
  {
  }

  lemma PivotPlaced<T(!new)>(lt: (T, T) -> bool, s: seq<T>, l: int, u: int, i: int, j: int, i': int, j': int, pivot: T)
    requires 0 <= l <= i < i' <= u && l <= j' < i' && j' < j <= u - 1 && u < |s| && Parted(lt, s, l, u, i, j, pivot)
    requires !lt(s[i'], pivot) && !lt(pivot, s[j'])
    requires forall k :: i < k < i' ==> lt(s[k], pivot)
    requires forall k :: j' < k < j ==> lt(pivot, s[k])
    ensures StrictWeak(lt) && i' < u ==> Split(lt, s[u - 1 := s[i']][i' := s[u - 1]], l, u, i')
  {
    if StrictWeak(lt) && i' < u {
      var t := s[u - 1 := s[i']][i' := s[u - 1]];
      forall k | l <= k < i'
        ensures Le(lt, t[k], t[i'])
      {
        assert k > i ==> lt(s[k], pivot) && !lt(pivot, pivot);
      }
      forall k | i' < k <= u
        ensures Le(lt, t[i'], t[k])
      {
        assert j' < k < j ==> lt(pivot, s[k]) && !lt(pivot, pivot);
      }
    }
  }

  lemma Exchanged<T(!new)>(lt: (T, T) -> bool, s: seq<T>, l: int, u: int, i: int, j: int, i': int, j': int, pivot: T)
    requires 0 <= l <= i < i' <= j' < j <= u - 1 && u < |s| && Parted(lt, s, l, u, i, j, pivot)
    requires Le(lt, pivot, s[i']) && Le(lt, s[j'], pivot)
    requires forall k :: i < k < i' ==> lt(s[k], pivot)
    requires forall k :: j' < k < j ==> lt(pivot, s[k])
    ensures Parted(lt, s[i' := s[j']][j' := s[i']], l, u, i', j', pivot)
  {
  }

  lemma AFew<T(!new)>(lt: (T, T) -> bool, s: seq<T>, l: int, u: int)
    requires 0 <= l < u < |s| && u - l <= 2
    requires StrictWeak(lt) ==>
             Le(lt, s[l], s[u]) && (u - l > 1 ==> Le(lt, s[l], s[(l + u) / 2]) && Le(lt, s[(l + u) / 2], s[u]))
    ensures StrictWeak(lt) ==> Sorted(lt, s, l, u)
  {
  }

  /** One round of `auxsort`: two or three elements are sorted; more are parted by a pivot, at i. */
  method Round<T(!new)>(a: array<T>, lt: (T, T) -> bool, l: int, u: int) returns (ok: bool, i: int)
    requires 0 <= l < u < a.Length
    modifies a
    ensures Permuted(old(a[..]), a[..], l, u)
    ensures StrictWeak(lt) ==> ok
    ensures ok && u - l > 2 ==> l < i <= u && (StrictWeak(lt) ==> Split(lt, a[..], l, u, i))
    ensures ok && u - l <= 2 && StrictWeak(lt) ==> Sorted(lt, a[..], l, u)
  {
    hide Permuted, StrictWeak, Split;
    ghost var s := a[..];
    ok := true;
    i := MedianOfThree(a, lt, l, u);
    if u - l <= 2 {
      AFew(lt, a[..], l, u);
      return;
    }
    ghost var t := a[..];
    ok, i := PartAround(a, lt, l, u, i);
    PermutedTwice(s, t, a[..], l, u);
  }

  /** Put the pivot a[i] out of the way, then part the others. */
  method PartAround<T(!new)>(a: array<T>, lt: (T, T) -> bool, l: int, u: int, i0: int) returns (ok: bool, i: int)
    requires 0 <= l && l + 2 < u < a.Length && l < i0 < u - 1
    requires StrictWeak(lt) ==> Le(lt, a[l], a[i0]) && Le(lt, a[i0], a[u])
    modifies a
    ensures Permuted(old(a[..]), a[..], l, u)
    ensures StrictWeak(lt) ==> ok
    ensures ok ==> l < i <= u && (StrictWeak(lt) ==> Split(lt, a[..], l, u, i))
  {
    hide Permuted, StrictWeak, Split;
    ghost var s := a[..];
    SwapPermutes(s, i0, u - 1, l, u);
    Swap(a, i0, u - 1);
    // a[l] <= P == a[u-1] <= a[u], only need to sort from l+1 to u-2
    ghost var t := a[..];
    ok, i := Partition(a, lt, l, u);
    PermutedTwice(s, t, a[..], l, u);
  }

  /** `auxsort`, with at most d more calls inside: less than 2^d elements need no more than that, since
      only the smaller part is sorted by another call. For any comparison function the elements are
      permuted, and none outside of the range is touched; for a strict weak order, they are sorted, and
      no error is raised. */
  method AuxSort<T(!new)>(a: array<T>, lt: (T, T) -> bool, l0: int, u0: int, ghost d: nat) returns (ok: bool)
    requires 0 <= l0 <= u0 + 1 <= a.Length && u0 - l0 + 1 < Pow2(d)
    modifies a
    ensures Permuted(old(a[..]), a[..], l0, u0)
    ensures StrictWeak(lt) ==> ok && Sorted(lt, a[..], l0, u0)
    decreases d
  {
    hide Permuted, Split, StrictWeak, Sorted, Around;
    ok := true;
    var l, u := l0, u0;
    ghost var s := a[..];
    Untouched(lt, s, l0, u0);
    while l < u  // for tail recursion
      invariant l0 <= l <= u + 1 <= u0 + 1 && Permuted(s, a[..], l0, u0)
      invariant StrictWeak(lt) ==> ok && Around(lt, a[..], l0, u0, l, u)
      decreases u - l
    {
      ghost var t := a[..];
      var i;
      ok, i := Round(a, lt, l, u);
      RangeDone(lt, s, t, a[..], l0, u0, l, u);
      if !ok || u - l <= 2 {
        if ok {
          AllDone(lt, a[..], l0, u0, l, u);
        }
        return;
      }
      t := a[..];
      var j;
      ghost var l1, u1, m := l, u, i;
      // adjust so that smaller half is in [j..i] and larger one in [l..u]
      if i - l < u - i {
        j := l;
        i := i - 1;
        l := i + 2;
      } else {
        j := i + 1;
        i := u;
        u := j - 2;
      }
      ok := AuxSort(a, lt, j, i, d - 1);  // call recursively the smaller one
      RangeDone(lt, s, t, a[..], l0, u0, l1, u1) by {
        PermutedPart(t, a[..], l1, u1, j, i);
      }
      if StrictWeak(lt) {
        HalfDone(lt, t, a[..], l1, u1, m, j == l1);
        AroundPart(lt, a[..], l0, u0, l1, u1, l, u);
      }
      if !ok {
        return;
      }
    }
    AllDone(lt, a[..], l0, u0, l, u);
  }

  lemma Untouched<T>(lt: (T, T) -> bool, s: seq<T>, l: int, u: int)
    requires 0 <= l <= u + 1 <= |s|
    ensures Permuted(s, s, l, u) && Around(lt, s, l, u, l, u)
  {
  }

  lemma RangeDone<T>(lt: (T, T) -> bool, s: seq<T>, t: seq<T>, v: seq<T>, l0: int, u0: int, l: int, u: int)
    requires 0 <= l0 <= l <= u + 1 <= u0 + 1 <= |s| && Permuted(s, t, l0, u0) && Permuted(t, v, l, u)
    ensures Permuted(s, v, l0, u0)
    ensures Around(lt, t, l0, u0, l, u) ==> Around(lt, v, l0, u0, l, u)
  {
    PermutedPart(t, v, l0, u0, l, u);
    PermutedTwice(s, t, v, l0, u0);
    if Around(lt, t, l0, u0, l, u) {
      AroundPermuted(lt, t, v, l0, u0, l, u);
    }
  }

  lemma AllDone<T(!new)>(lt: (T, T) -> bool, s: seq<T>, l0: int, u0: int, l: int, u: int)
    requires 0 <= l0 <= l <= u + 1 <= u0 + 1 <= |s|
    requires StrictWeak(lt) ==> Around(lt, s, l0, u0, l, u) && (l < u ==> Sorted(lt, s, l, u))
    ensures StrictWeak(lt) ==> Sorted(lt, s, l0, u0)
  {
    if StrictWeak(lt) {
      forall x, y | l0 <= x <= y <= u0
        ensures Ordered(lt, s, x, y)
      {
        assert l <= x && y <= u ==> x == y || Ordered(lt, s, x, y);
      }
    }
  }

  /** `table.sort`. With less than 2^d elements no more than d calls are pending. */
  method Sort<T(!new)>(a: array<T>, lt: (T, T) -> bool, ghost d: nat) returns (ok: bool)
    requires a.Length < Pow2(d)
    modifies a
    ensures multiset(a[..]) == multiset(old(a[..]))
    ensures StrictWeak(lt) ==> ok && forall x, y :: 0 <= x <= y < a.Length ==> !lt(a[y], a[x])
  {
    ok := AuxSort(a, lt, 0, a.Length - 1, d);
    assert a[0..a.Length] == a[..] && old(a[0..a.Length]) == old(a[..]);
    if StrictWeak(lt) {
      forall x, y | 0 <= x <= y < a.Length
        ensures !lt(a[y], a[x])
      {
        assert Ordered(lt, a[..], x, y);
      }
    }
  }
}
