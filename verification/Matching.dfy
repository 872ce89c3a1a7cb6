/** Matching a pattern (`match` in `lib_string.c`): the result that backtracking finds is the first
    decomposition of the subject in priority order. */
module Matching {
  import opened Pattern

  datatype Outcome = Found(e: nat, caps: seq<Cap>) | Fail | Raise(err: Error)

  /** How many characters from s on are in the class at i. */
  function Count(src: seq<Byte>, s: nat, p: seq<Byte>, i: nat, ep: nat): (n: nat)
    requires s <= |src| && i < |p| && ClassEnd(p, i) == EndAt(ep)
    ensures s + n <= |src|
    decreases |src| - s
  {
    if s < |src| && Single(src[s], p, i, ep) then 1 + Count(src, s + 1, p, i, ep) else 0
  }

  /** The moves that leave no choice and call nobody. */
  function Straight(src: seq<Byte>, p: seq<Byte>, s: nat, i: nat, caps: seq<Cap>): (r: Move)
    requires s <= |src| && i <= |p| && CapsOk(caps, s)
    ensures r.To? ==> s <= r.s <= |src| && !Final(ItemAt(p, i))
    ensures r.Stay? <==> Final(ItemAt(p, i)) || ItemAt(p, i).Open? || ItemAt(p, i).Close?
                         || (ItemAt(p, i).Chars? && ItemAt(p, i).q != One)
  {
    ItemMoves(p, i);
    match ItemAt(p, i)
    case Balance(x, y, _) => BalanceTo(src, s, x, y)
    case Frontier(set_, next) => if FrontierHere(src, s, p, set_, next) then To(s) else Stuck
    case Back(l, _) => BackTo(src, s, caps, l)
    case Chars(ep, q, _) =>
      if q != One then Stay
      else if s < |src| && Single(src[s], p, i, ep) then To(s + 1) else Stuck
    case _ => Stay
  }

  function Opened(caps: seq<Cap>, position: bool, s: nat): seq<Cap> {
    caps + [Cap(s, if position then CAP_POSITION else CAP_UNFINISHED)]
  }

  // ---- What backtracking finds.

  /** `match`, called with d calls pending */
  function Match(src: seq<Byte>, p: seq<Byte>, s: nat, i: nat, caps: seq<Cap>, d: nat): (r: Outcome)
    requires s <= |src| && i <= |p| && CapsOk(caps, s)
    ensures r.Found? ==> s <= r.e <= |src| && CapsOk(r.caps, r.e)
    decreases |p| - i, 2, 0
  {
    if d >= LJ_MAX_XLEVEL then Raise(StrPatX) else Run(src, p, s, i, caps, d + 1)
  }

  function Run(src: seq<Byte>, p: seq<Byte>, s: nat, i: nat, caps: seq<Cap>, d: nat): (r: Outcome)
    requires s <= |src| && i <= |p| && CapsOk(caps, s)
    ensures r.Found? ==> s <= r.e <= |src| && CapsOk(r.caps, r.e)
    decreases |p| - i, 1, 0
  {
    ItemMoves(p, i);
    match ItemAt(p, i)
    case Bad(err) => Raise(err)
    case End => Found(s, caps)
    case Dollar => if s == |src| then Found(s, caps) else Fail
    case Open(position, next) =>
      if |caps| >= LUA_MAXCAPTURES then Raise(StrCapN) else Match(src, p, s, next, Opened(caps, position, s), d)
    case Close(next) =>
      var l := ToClose(caps);
      if l < 0 then Raise(StrPatC) else Match(src, p, s, next, Closed(caps, l, s), d)
    case Chars(ep, Optional, next) =>
      if s < |src| && Single(src[s], p, i, ep) then
        var r := Match(src, p, s + 1, next, caps, d);
        if r.Fail? then Run(src, p, s, next, caps, d) else r
      else Run(src, p, s, next, caps, d)
    case Chars(ep, Star, next) => Longest(src, p, s, i, caps, d, Count(src, s, p, i, ep))
    case Chars(ep, Plus, next) =>
      if s < |src| && Single(src[s], p, i, ep) then
        Longest(src, p, s + 1, i, caps, d, Count(src, s + 1, p, i, ep))
      else Fail
    case Chars(ep, Minus, next) => Shortest(src, p, s, i, caps, d)
    case _ =>
      match Straight(src, p, s, i, caps)
      case To(s') => Run(src, p, s', ItemAt(p, i).next, caps, d)
      case Fault(err) => Raise(err)
      case _ => Fail
  }

  /** `max_expand`: k repetitions, or else fewer */
  function Longest(src: seq<Byte>, p: seq<Byte>, s: nat, i: nat, caps: seq<Cap>, d: nat, k: nat): (r: Outcome)
    requires i <= |p| && ItemAt(p, i).Chars? && s + k <= |src| && CapsOk(caps, s)
    ensures r.Found? ==> s <= r.e <= |src| && CapsOk(r.caps, r.e)
    decreases |p| - i, 0, k
  {
    ItemMoves(p, i);
    var r := Match(src, p, s + k, ItemAt(p, i).next, caps, d);
    if r.Fail? && k > 0 then Longest(src, p, s, i, caps, d, k - 1) else r
  }

  /** `min_expand`: no repetition, or else more */
  function Shortest(src: seq<Byte>, p: seq<Byte>, s: nat, i: nat, caps: seq<Cap>, d: nat): (r: Outcome)
    requires s <= |src| && i <= |p| && ItemAt(p, i).Chars? && CapsOk(caps, s)
    ensures r.Found? ==> s <= r.e <= |src| && CapsOk(r.caps, r.e)
    decreases |p| - i, 0, |src| - s
  {
    ItemMoves(p, i);
    var r := Match(src, p, s, ItemAt(p, i).next, caps, d);
    if r.Fail? && s < |src| && Single(src[s], p, i, ItemAt(p, i).ep) then Shortest(src, p, s + 1, i, caps, d) else r
  }

  // ---- Decompositions.

  /** Take the pattern from i on to match from s on with just the given repetitions of its quantified
      items: a decomposition of the subject, if it is found; a way that leads to an error; or neither. */
  function FollowMatch(src: seq<Byte>, p: seq<Byte>, s: nat, i: nat, caps: seq<Cap>, d: nat, c: seq<nat>): Outcome
    requires s <= |src| && i <= |p| && CapsOk(caps, s)
    decreases |p| - i, 1
  {
    if d >= LJ_MAX_XLEVEL then (if c == [] then Raise(StrPatX) else Fail) else Follow(src, p, s, i, caps, d + 1, c)
  }

  function Follow(src: seq<Byte>, p: seq<Byte>, s: nat, i: nat, caps: seq<Cap>, d: nat, c: seq<nat>): Outcome
    requires s <= |src| && i <= |p| && CapsOk(caps, s)
    decreases |p| - i, 0
  {
    ItemMoves(p, i);
    match ItemAt(p, i)
    case Bad(err) => if c == [] then Raise(err) else Fail
    case End => if c == [] then Found(s, caps) else Fail
    case Dollar => if c == [] && s == |src| then Found(s, caps) else Fail
    case Open(position, next) =>
      if |caps| >= LUA_MAXCAPTURES then (if c == [] then Raise(StrCapN) else Fail)
      else FollowMatch(src, p, s, next, Opened(caps, position, s), d, c)
    case Close(next) =>
      var l := ToClose(caps);
      if l < 0 then (if c == [] then Raise(StrPatC) else Fail)
      else FollowMatch(src, p, s, next, Closed(caps, l, s), d, c)
    case Chars(ep, q, next) =>
      if q == One then
        if s < |src| && Single(src[s], p, i, ep) then Follow(src, p, s + 1, next, caps, d, c) else Fail
      else if c == [] || !Admissible(q, c[0], Count(src, s, p, i, ep)) then Fail
      else if q == Optional && c[0] == 0 then Follow(src, p, s, next, caps, d, c[1..])
      else FollowMatch(src, p, s + c[0], next, caps, d, c[1..])
    case _ =>
      match Straight(src, p, s, i, caps)
      case To(s') => Follow(src, p, s', ItemAt(p, i).next, caps, d, c)
      case Fault(err) => if c == [] then Raise(err) else Fail
      case _ => Fail
  }

  /** How often a quantified class may be repeated when n characters in a row are in the class. */
  predicate Admissible(q: Quantifier, k: nat, n: nat) {
    k <= n && (q == Optional ==> k <= 1) && (q == Plus ==> k >= 1)
  }

  /** For each quantified item of the pattern from i on: does it prefer more repetitions? */
  function Greedy(p: seq<Byte>, i: nat): seq<bool>
    requires i <= |p|
    decreases |p| - i
  {
    ItemMoves(p, i);
    var t := ItemAt(p, i);
    if Final(t) then []
    else if t.Chars? && t.q != One then [t.q != Minus] + Greedy(p, t.next)
    else Greedy(p, t.next)
  }

  /** c comes before x: at the first item where they differ, it has more repetitions (fewer for `-`). */
  predicate Before(greedy: seq<bool>, c: seq<nat>, x: seq<nat>) {
    && c != [] && x != [] && greedy != []
    && if c[0] == x[0] then Before(greedy[1..], c[1..], x[1..]) else (c[0] > x[0]) == greedy[0]
  }

  /** c is the first way through that leads somewhere, and r is where it leads; or there is none. */
  ghost predicate FirstMatch(src: seq<Byte>, p: seq<Byte>, s: nat, i: nat, caps: seq<Cap>, d: nat, r: Outcome,
                             c: seq<nat>)
    requires s <= |src| && i <= |p| && CapsOk(caps, s)
  {
    if r.Fail? then
      forall x {:trigger FollowMatch(src, p, s, i, caps, d, x)} :: FollowMatch(src, p, s, i, caps, d, x).Fail?
    else
      && FollowMatch(src, p, s, i, caps, d, c) == r
      && forall x {:trigger FollowMatch(src, p, s, i, caps, d, x)} ::
           FollowMatch(src, p, s, i, caps, d, x).Fail? || x == c || Before(Greedy(p, i), c, x)
  }

  ghost predicate First(src: seq<Byte>, p: seq<Byte>, s: nat, i: nat, caps: seq<Cap>, d: nat, r: Outcome, c: seq<nat>)
    requires s <= |src| && i <= |p| && CapsOk(caps, s)
  {
    if r.Fail? then forall x {:trigger Follow(src, p, s, i, caps, d, x)} :: Follow(src, p, s, i, caps, d, x).Fail?
    else
      && Follow(src, p, s, i, caps, d, c) == r
      && forall x {:trigger Follow(src, p, s, i, caps, d, x)} ::
           Follow(src, p, s, i, caps, d, x).Fail? || x == c || Before(Greedy(p, i), c, x)
  }

  /** `match` finds the first decomposition of the subject, and fails just if there is none. */
  lemma {:induction false} MatchIsFirst(src: seq<Byte>, p: seq<Byte>, s: nat, i: nat, caps: seq<Cap>, d: nat)
    returns (c: seq<nat>)
    requires s <= |src| && i <= |p| && CapsOk(caps, s)
    ensures FirstMatch(src, p, s, i, caps, d, Match(src, p, s, i, caps, d), c)
    decreases |p| - i, 2, 0
  {
    c := [];
    if d < LJ_MAX_XLEVEL {
      c := RunIsFirst(src, p, s, i, caps, d + 1);
    }
  }

  lemma {:induction false} RunIsFirst(src: seq<Byte>, p: seq<Byte>, s: nat, i: nat, caps: seq<Cap>, d: nat)
    returns (c: seq<nat>)
    requires s <= |src| && i <= |p| && CapsOk(caps, s)
    ensures First(src, p, s, i, caps, d, Run(src, p, s, i, caps, d), c)
    decreases |p| - i, 1, 0
  {
    ItemMoves(p, i);
    c := [];
    var t := ItemAt(p, i);
    if t.Open? {
      if |caps| < LUA_MAXCAPTURES {
        c := MatchIsFirst(src, p, s, t.next, Opened(caps, t.position, s), d);
      }
    } else if t.Close? {
      if ToClose(caps) >= 0 {
        c := MatchIsFirst(src, p, s, t.next, Closed(caps, ToClose(caps), s), d);
      }
    } else if t.Chars? && t.q != One {
      c := QuantifiedIsFirst(src, p, s, i, caps, d);
    } else if !Final(t) {
      var move := Straight(src, p, s, i, caps);
      if move.To? {
        c := RunIsFirst(src, p, move.s, t.next, caps, d);
      }
    }
  }

  /** j repetitions of a class that starts at s, and then x */
  function FollowRep(src: seq<Byte>, p: seq<Byte>, s: nat, next: nat, caps: seq<Cap>, d: nat, j: nat,
                     x: seq<nat>): Outcome
    requires next <= |p| && s + j <= |src| && CapsOk(caps, s)
  {
    FollowMatch(src, p, s + j, next, caps, d, x)
  }

  /** The way with j repetitions that goes on with x leads nowhere, or is the one with k0 and c0, or
      comes after it. */
  ghost predicate Behind(src: seq<Byte>, p: seq<Byte>, s: nat, next: nat, caps: seq<Cap>, d: nat,
                         greedy: bool, r: Outcome, k0: nat, c0: seq<nat>, j: nat, x: seq<nat>)
    requires next <= |p| && s + j <= |src| && CapsOk(caps, s)
  {
    || FollowRep(src, p, s, next, caps, d, j, x).Fail?
    || (!r.Fail? && (if j == k0 then x == c0 || Before(Greedy(p, next), c0, x) else (k0 > j) == greedy))
  }

  /** A way that starts with at least lo and at most hi repetitions of a class leads somewhere only if
      k0 repetitions followed by c0 come before it, or are it. */
  ghost predicate Preferred(src: seq<Byte>, p: seq<Byte>, s: nat, next: nat, caps: seq<Cap>, d: nat,
                            greedy: bool, lo: nat, hi: nat, r: Outcome, k0: nat, c0: seq<nat>)
    requires next <= |p| && s + hi <= |src| && CapsOk(caps, s)
  {
    && (!r.Fail? ==> lo <= k0 <= hi && FollowRep(src, p, s, next, caps, d, k0, c0) == r)
    && forall j: nat, x {:trigger Behind(src, p, s, next, caps, d, greedy, r, k0, c0, j, x)} ::
         lo <= j <= hi ==> Behind(src, p, s, next, caps, d, greedy, r, k0, c0, j, x)
  }

  lemma {:induction false} LongestIsFirst(src: seq<Byte>, p: seq<Byte>, s: nat, i: nat, caps: seq<Cap>, d: nat, k: nat)
    returns (k0: nat, c0: seq<nat>)
    requires i <= |p| && ItemAt(p, i).Chars? && s + k <= |src| && CapsOk(caps, s) && i < ItemAt(p, i).next <= |p|
    ensures Preferred(src, p, s, ItemAt(p, i).next, caps, d, true, 0, k, Longest(src, p, s, i, caps, d, k), k0, c0)
    decreases |p| - i, 0, k
  {
    var next := ItemAt(p, i).next;
    var r := Match(src, p, s + k, next, caps, d);
    k0 := k;
    c0 := MatchIsFirst(src, p, s + k, next, caps, d);
    assert r.Fail? || FollowRep(src, p, s, next, caps, d, k, c0) == r;
    if r.Fail? && k > 0 {
      k0, c0 := LongestIsFirst(src, p, s, i, caps, d, k - 1);
    }
    var r' := Longest(src, p, s, i, caps, d, k);
    forall j: nat, x {:trigger Behind(src, p, s, next, caps, d, true, r', k0, c0, j, x)} | 0 <= j <= k
      ensures Behind(src, p, s, next, caps, d, true, r', k0, c0, j, x)
    {
      if j == k {
        assert FollowRep(src, p, s, next, caps, d, j, x) == FollowMatch(src, p, s + k, next, caps, d, x);
      } else if r.Fail? {
        assert Behind(src, p, s, next, caps, d, true, r', k0, c0, j, x);
      }
    }
  }

  /** Repetitions lo and more of the class that starts at s. */
  lemma {:induction false} ShortestIsFirst(src: seq<Byte>, p: seq<Byte>, s: nat, i: nat, caps: seq<Cap>, d: nat,
                                           lo: nat)
    returns (k0: nat, c0: seq<nat>)
    requires s + lo <= |src| && i <= |p| && ItemAt(p, i).Chars? && CapsOk(caps, s) && i < ItemAt(p, i).next <= |p|
    requires i < |p| && ClassEnd(p, i) == EndAt(ItemAt(p, i).ep)
    ensures Preferred(src, p, s, ItemAt(p, i).next, caps, d, false, lo, lo + Count(src, s + lo, p, i, ItemAt(p, i).ep),
                      Shortest(src, p, s + lo, i, caps, d), k0, c0)
    decreases |p| - i, 0, |src| - (s + lo)
  {
    var next, ep := ItemAt(p, i).next, ItemAt(p, i).ep;
    var r := Match(src, p, s + lo, next, caps, d);
    k0 := lo;
    c0 := MatchIsFirst(src, p, s + lo, next, caps, d);
    assert r.Fail? || FollowRep(src, p, s, next, caps, d, lo, c0) == r;
    var hi := lo + Count(src, s + lo, p, i, ep);
    if r.Fail? && hi > lo {
      assert s + lo + 1 == s + (lo + 1);
      k0, c0 := ShortestIsFirst(src, p, s, i, caps, d, lo + 1);
    }
    var r' := Shortest(src, p, s + lo, i, caps, d);
    forall j: nat, x {:trigger Behind(src, p, s, next, caps, d, false, r', k0, c0, j, x)} | lo <= j <= hi
      ensures Behind(src, p, s, next, caps, d, false, r', k0, c0, j, x)
    {
      if j == lo {
        assert FollowRep(src, p, s, next, caps, d, j, x) == FollowMatch(src, p, s + lo, next, caps, d, x);
      } else if r.Fail? {
        assert Behind(src, p, s, next, caps, d, false, r', k0, c0, j, x);
      }
    }
  }

  /** Choosing the repetitions of a quantified class. */
  lemma {:induction false} QuantifiedIsFirst(src: seq<Byte>, p: seq<Byte>, s: nat, i: nat, caps: seq<Cap>, d: nat)
    returns (c: seq<nat>)
    requires s <= |src| && i <= |p| && CapsOk(caps, s) && ItemAt(p, i).Chars? && ItemAt(p, i).q != One
    ensures First(src, p, s, i, caps, d, Run(src, p, s, i, caps, d), c)
    decreases |p| - i, 0, |src| + 1
  {
    ItemMoves(p, i);
    var q, ep, next := ItemAt(p, i).q, ItemAt(p, i).ep, ItemAt(p, i).next;
    var n := Count(src, s, p, i, ep);
    if q == Optional {
      c := OptionalIsFirst(src, p, s, i, caps, d);
      return;
    }
    c := [];
    var k0, c0;
    if q == Star {
      k0, c0 := LongestIsFirst(src, p, s, i, caps, d, n);
      FromPreferred(src, p, s, i, caps, d, 0, k0, c0);
    } else if q == Minus {
      k0, c0 := ShortestIsFirst(src, p, s, i, caps, d, 0);
      FromPreferred(src, p, s, i, caps, d, 0, k0, c0);
    } else if n > 0 {
      k0, c0 := LongestIsFirst(src, p, s + 1, i, caps, d, n - 1);
      OneMore(src, p, s, next, caps, d, n, Run(src, p, s, i, caps, d), k0, c0);
      k0 := k0 + 1;
      FromPreferred(src, p, s, i, caps, d, 1, k0, c0);
    } else {
      return;
    }
    c := [k0] + c0;
  }

  lemma OneMore(src: seq<Byte>, p: seq<Byte>, s: nat, next: nat, caps: seq<Cap>, d: nat, n: nat, r: Outcome, k0: nat,
                c0: seq<nat>)
    requires next <= |p| && n > 0 && s + n <= |src| && CapsOk(caps, s)
    requires Preferred(src, p, s + 1, next, caps, d, true, 0, n - 1, r, k0, c0)
    ensures Preferred(src, p, s, next, caps, d, true, 1, n, r, k0 + 1, c0)
  {
    forall j: nat, x {:trigger Behind(src, p, s, next, caps, d, true, r, k0 + 1, c0, j, x)} | 1 <= j <= n
      ensures Behind(src, p, s, next, caps, d, true, r, k0 + 1, c0, j, x)
    {
      assert s + 1 + (j - 1) == s + j;
      assert Behind(src, p, s + 1, next, caps, d, true, r, k0, c0, j - 1, x);
    }
    if !r.Fail? {
      assert s + 1 + k0 == s + (k0 + 1);
      assert FollowRep(src, p, s + 1, next, caps, d, k0, c0) == FollowRep(src, p, s, next, caps, d, k0 + 1, c0);
    }
  }

  lemma FromPreferred(src: seq<Byte>, p: seq<Byte>, s: nat, i: nat, caps: seq<Cap>, d: nat, lo: nat, k0: nat,
                      c0: seq<nat>)
    requires s <= |src| && i < |p| && CapsOk(caps, s) && ItemAt(p, i).Chars? && ItemAt(p, i).q in {Star, Plus, Minus}
    requires lo == (if ItemAt(p, i).q == Plus then 1 else 0)
    requires i < ItemAt(p, i).next <= |p| && ClassEnd(p, i) == EndAt(ItemAt(p, i).ep)
    requires var n := Count(src, s, p, i, ItemAt(p, i).ep);
             lo <= n && Preferred(src, p, s, ItemAt(p, i).next, caps, d, ItemAt(p, i).q != Minus, lo, n,
                                  Run(src, p, s, i, caps, d), k0, c0)
    ensures First(src, p, s, i, caps, d, Run(src, p, s, i, caps, d), [k0] + c0)
  {
    var r, c, next := Run(src, p, s, i, caps, d), [k0] + c0, ItemAt(p, i).next;
    assert c[1..] == c0;
    assert Greedy(p, i)[1..] == Greedy(p, next);
    forall x | !Follow(src, p, s, i, caps, d, x).Fail?
      ensures !r.Fail? && (x == c || Before(Greedy(p, i), c, x))
    {
      assert Behind(src, p, s, next, caps, d, ItemAt(p, i).q != Minus, r, k0, c0, x[0], x[1..]);
      assert x == [x[0]] + x[1..];
    }
  }

  lemma {:induction false} OptionalIsFirst(src: seq<Byte>, p: seq<Byte>, s: nat, i: nat, caps: seq<Cap>, d: nat)
    returns (c: seq<nat>)
    requires s <= |src| && i <= |p| && CapsOk(caps, s) && ItemAt(p, i).Chars? && ItemAt(p, i).q == Optional
    ensures First(src, p, s, i, caps, d, Run(src, p, s, i, caps, d), c)
    decreases |p| - i, 0, 0
  {
    ItemMoves(p, i);
    var ep, next := ItemAt(p, i).ep, ItemAt(p, i).next;
    var m := s < |src| && Single(src[s], p, i, ep);
    var r := Run(src, p, s, i, caps, d);
    var c0 := RunIsFirst(src, p, s, next, caps, d);
    c := [0] + c0;
    if m {
      var c1 := MatchIsFirst(src, p, s + 1, next, caps, d);
      if !Match(src, p, s + 1, next, caps, d).Fail? {
        c := [1] + c1;
        assert c[1..] == c1;
      }
    }
    assert ([0] + c0)[1..] == c0;
    assert Greedy(p, i)[1..] == Greedy(p, next);
    forall x | !Follow(src, p, s, i, caps, d, x).Fail?
      ensures !r.Fail? && (x == c || Before(Greedy(p, i), c, x))
    {
      assert x == [x[0]] + x[1..];
      if x[0] == 0 {
        assert Follow(src, p, s, i, caps, d, x) == Follow(src, p, s, next, caps, d, x[1..]);
      } else {
        assert Follow(src, p, s, i, caps, d, x) == FollowMatch(src, p, s + 1, next, caps, d, x[1..]);
      }
    }
  }

  // ---- Decompositions as the manual has them, without a limit on the depth of calls.

  /** Where the pattern from i on leads from s on with just the given repetitions of its quantified items. */
  function Decomposed(src: seq<Byte>, p: seq<Byte>, s: nat, i: nat, caps: seq<Cap>, c: seq<nat>): Outcome
    requires s <= |src| && i <= |p| && CapsOk(caps, s)
    decreases |p| - i
  {
    ItemMoves(p, i);
    match ItemAt(p, i)
    case Bad(err) => if c == [] then Raise(err) else Fail
    case End => if c == [] then Found(s, caps) else Fail
    case Dollar => if c == [] && s == |src| then Found(s, caps) else Fail
    case Open(position, next) =>
      if |caps| >= LUA_MAXCAPTURES then (if c == [] then Raise(StrCapN) else Fail)
      else Decomposed(src, p, s, next, Opened(caps, position, s), c)
    case Close(next) =>
      var l := ToClose(caps);
      if l < 0 then (if c == [] then Raise(StrPatC) else Fail)
      else Decomposed(src, p, s, next, Closed(caps, l, s), c)
    case Chars(ep, q, next) =>
      if q == One then
        if s < |src| && Single(src[s], p, i, ep) then Decomposed(src, p, s + 1, next, caps, c) else Fail
      else if c == [] || !Admissible(q, c[0], Count(src, s, p, i, ep)) then Fail
      else Decomposed(src, p, s + c[0], next, caps, c[1..])
    case _ =>
      match Straight(src, p, s, i, caps)
      case To(s') => Decomposed(src, p, s', ItemAt(p, i).next, caps, c)
      case Fault(err) => if c == [] then Raise(err) else Fail
      case _ => Fail
  }

  /** c is the first decomposition that leads somewhere, and r is where it leads; or there is none. */
  ghost predicate FirstDecomposition(src: seq<Byte>, p: seq<Byte>, s: nat, i: nat, caps: seq<Cap>, r: Outcome,
                                     c: seq<nat>)
    requires s <= |src| && i <= |p| && CapsOk(caps, s)
  {
    if r.Fail? then forall x {:trigger Decomposed(src, p, s, i, caps, x)} :: Decomposed(src, p, s, i, caps, x).Fail?
    else
      && Decomposed(src, p, s, i, caps, c) == r
      && forall x {:trigger Decomposed(src, p, s, i, caps, x)} ::
           Decomposed(src, p, s, i, caps, x).Fail? || x == c || Before(Greedy(p, i), c, x)
  }

  /** With pending calls a decomposition leads where it does without, unless the start of it, of length n, runs
      into the limit. */
  ghost predicate CutAt(src: seq<Byte>, p: seq<Byte>, s: nat, i: nat, caps: seq<Cap>, d: nat, x: seq<nat>, n: nat)
    requires s <= |src| && i <= |p| && CapsOk(caps, s)
  {
    || FollowMatch(src, p, s, i, caps, d, x) == Decomposed(src, p, s, i, caps, x)
    || (n <= |x| && FollowMatch(src, p, s, i, caps, d, x[..n]) == Raise(StrPatX))
  }

  ghost predicate CutIn(src: seq<Byte>, p: seq<Byte>, s: nat, i: nat, caps: seq<Cap>, d: nat, x: seq<nat>, n: nat)
    requires s <= |src| && i <= |p| && CapsOk(caps, s)
  {
    || Follow(src, p, s, i, caps, d, x) == Decomposed(src, p, s, i, caps, x)
    || (n <= |x| && Follow(src, p, s, i, caps, d, x[..n]) == Raise(StrPatX))
  }

  lemma {:induction false} Cut(src: seq<Byte>, p: seq<Byte>, s: nat, i: nat, caps: seq<Cap>, d: nat, x: seq<nat>)
    returns (n: nat)
    requires s <= |src| && i <= |p| && CapsOk(caps, s)
    ensures CutAt(src, p, s, i, caps, d, x, n)
    decreases |p| - i, 1
  {
    n := 0;
    if d < LJ_MAX_XLEVEL {
      n := CutInside(src, p, s, i, caps, d + 1, x);
    } else {
      assert x[..0] == [];
    }
  }

  lemma {:induction false} CutInside(src: seq<Byte>, p: seq<Byte>, s: nat, i: nat, caps: seq<Cap>, d: nat, x: seq<nat>)
    returns (n: nat)
    requires s <= |src| && i <= |p| && CapsOk(caps, s)
    ensures CutIn(src, p, s, i, caps, d, x, n)
    decreases |p| - i, 0
  {
    ItemMoves(p, i);
    n := 0;
    var t := ItemAt(p, i);
    if t.Open? {
      if |caps| < LUA_MAXCAPTURES {
        n := Cut(src, p, s, t.next, Opened(caps, t.position, s), d, x);
      }
    } else if t.Close? {
      if ToClose(caps) >= 0 {
        n := Cut(src, p, s, t.next, Closed(caps, ToClose(caps), s), d, x);
      }
    } else if t.Chars? && t.q != One {
      if x != [] && Admissible(t.q, x[0], Count(src, s, p, i, t.ep)) {
        n := CutRepeated(src, p, s, i, caps, d, x);
      }
    } else if !Final(t) {
      var move := Straight(src, p, s, i, caps);
      if move.To? {
        n := CutInside(src, p, move.s, t.next, caps, d, x);
      }
    }
  }

  lemma {:induction false} CutRepeated(src: seq<Byte>, p: seq<Byte>, s: nat, i: nat, caps: seq<Cap>, d: nat,
                                       x: seq<nat>) returns (n: nat)
    requires s <= |src| && i < |p| && CapsOk(caps, s) && ItemAt(p, i).Chars? && ItemAt(p, i).q != One && x != []
    requires i < ItemAt(p, i).next <= |p| && ClassEnd(p, i) == EndAt(ItemAt(p, i).ep)
    requires Admissible(ItemAt(p, i).q, x[0], Count(src, s, p, i, ItemAt(p, i).ep))
    ensures CutIn(src, p, s, i, caps, d, x, n)
    decreases |p| - i, 0, 0
  {
    var t := ItemAt(p, i);
    var n1;
    if t.q == Optional && x[0] == 0 {
      n1 := CutInside(src, p, s, t.next, caps, d, x[1..]);
    } else {
      n1 := Cut(src, p, s + x[0], t.next, caps, d, x[1..]);
    }
    n := n1 + 1;
    if n <= |x| {
      assert x[..n][0] == x[0] && x[..n][1..] == x[1..][..n1];
    }
  }

  lemma {:induction false} NotBeforeStart(greedy: seq<bool>, c: seq<nat>, n: nat)
    requires n <= |c|
    ensures !Before(greedy, c, c[..n])
    decreases |c|
  {
    if c != [] && n > 0 && greedy != [] {
      assert c[..n][1..] == c[1..][..n - 1];
      NotBeforeStart(greedy[1..], c[1..], n - 1);
    }
  }

  lemma {:induction false} BeforeLonger(greedy: seq<bool>, c: seq<nat>, x: seq<nat>, n: nat)
    requires n <= |x| && Before(greedy, c, x[..n])
    ensures Before(greedy, c, x)
    decreases |x|
  {
    if n > 0 && c[0] == x[0] {
      assert x[..n][1..] == x[1..][..n - 1];
      BeforeLonger(greedy[1..], c[1..], x[1..], n - 1);
    }
  }

  /** Unless `match` gives up with "pattern too complex", it finds the first decomposition in priority order, and
      fails just if there is none. */
  lemma MatchIsFirstDecomposition(src: seq<Byte>, p: seq<Byte>, s: nat, i: nat, caps: seq<Cap>, d: nat)
    returns (c: seq<nat>)
    requires s <= |src| && i <= |p| && CapsOk(caps, s)
    requires Match(src, p, s, i, caps, d) != Raise(StrPatX)
    ensures FirstDecomposition(src, p, s, i, caps, Match(src, p, s, i, caps, d), c)
  {
    hide Match, FollowMatch, Decomposed, Greedy, Before;
    var r := Match(src, p, s, i, caps, d);
    c := MatchIsFirst(src, p, s, i, caps, d);
    if !r.Fail? {
      var n := Cut(src, p, s, i, caps, d, c);
      if n <= |c| {
        assert FollowMatch(src, p, s, i, caps, d, c[..n]).Fail? || c[..n] == c || Before(Greedy(p, i), c, c[..n]);
        NotBeforeStart(Greedy(p, i), c, n);
      }
    }
    forall x | !Decomposed(src, p, s, i, caps, x).Fail?
      ensures !r.Fail? && (x == c || Before(Greedy(p, i), c, x))
    {
      var n := Cut(src, p, s, i, caps, d, x);
      if FollowMatch(src, p, s, i, caps, d, x) != Decomposed(src, p, s, i, caps, x) {
        assert !FollowMatch(src, p, s, i, caps, d, x[..n]).Fail?;
        BeforeLonger(Greedy(p, i), c, x, n);
      }
    }
  }

  // ---- When a pattern is not too complex.

  /** How many items of the pattern from i on make `match` call itself: captures and quantified classes. */
  function Calls(p: seq<Byte>, i: nat): (n: nat)
    requires i <= |p|
    ensures n <= |p| - i
    decreases |p| - i
  {
    ItemMoves(p, i);
    var t := ItemAt(p, i);
    if Final(t) then 0
    else (if t.Open? || t.Close? || (t.Chars? && t.q != One) then 1 else 0) + Calls(p, t.next)
  }

  /** Errors in the pattern are other ones. */
  lemma OtherErrors(p: seq<Byte>, i: nat)
    requires i <= |p|
    ensures ItemAt(p, i) != Bad(StrPatX)
  {
  }

  lemma {:induction false} ShallowMatch(src: seq<Byte>, p: seq<Byte>, s: nat, i: nat, caps: seq<Cap>, d: nat)
    requires s <= |src| && i <= |p| && CapsOk(caps, s) && d + Calls(p, i) < LJ_MAX_XLEVEL
    ensures Match(src, p, s, i, caps, d) != Raise(StrPatX)
    decreases |p| - i, 2, 0
  {
    ShallowRun(src, p, s, i, caps, d + 1);
  }

  lemma {:induction false} ShallowRun(src: seq<Byte>, p: seq<Byte>, s: nat, i: nat, caps: seq<Cap>, d: nat)
    requires s <= |src| && i <= |p| && CapsOk(caps, s) && d + Calls(p, i) <= LJ_MAX_XLEVEL
    ensures Run(src, p, s, i, caps, d) != Raise(StrPatX)
    decreases |p| - i, 1, 0
  {
    ItemMoves(p, i);
    OtherErrors(p, i);
    var t := ItemAt(p, i);
    var here := t.Chars? && s < |src| && Single(src[s], p, i, t.ep);
    var m := Straight(src, p, s, i, caps);
    if t.Open? && |caps| < LUA_MAXCAPTURES {
      ShallowMatch(src, p, s, t.next, Opened(caps, t.position, s), d);
    } else if t.Close? && ToClose(caps) >= 0 {
      ShallowMatch(src, p, s, t.next, Closed(caps, ToClose(caps), s), d);
    } else if t.Chars? && t.q == Optional {
      if here {
        ShallowMatch(src, p, s + 1, t.next, caps, d);
      }
      ShallowRun(src, p, s, t.next, caps, d);
    } else if t.Chars? && t.q == Star {
      ShallowLongest(src, p, s, i, caps, d, Count(src, s, p, i, t.ep));
    } else if t.Chars? && t.q == Plus && here {
      ShallowLongest(src, p, s + 1, i, caps, d, Count(src, s + 1, p, i, t.ep));
    } else if t.Chars? && t.q == Minus {
      ShallowShortest(src, p, s, i, caps, d);
    } else if m.To? {
      ShallowRun(src, p, m.s, t.next, caps, d);
    }
  }

  lemma {:induction false} ShallowLongest(src: seq<Byte>, p: seq<Byte>, s: nat, i: nat, caps: seq<Cap>, d: nat, k: nat)
    requires i <= |p| && ItemAt(p, i).Chars? && s + k <= |src| && CapsOk(caps, s)
    requires ItemAt(p, i).q != One && d + Calls(p, i) <= LJ_MAX_XLEVEL
    ensures Longest(src, p, s, i, caps, d, k) != Raise(StrPatX)
    decreases |p| - i, 0, k
  {
    ItemMoves(p, i);
    ShallowMatch(src, p, s + k, ItemAt(p, i).next, caps, d);
    if k > 0 {
      ShallowLongest(src, p, s, i, caps, d, k - 1);
    }
  }

  lemma {:induction false} ShallowShortest(src: seq<Byte>, p: seq<Byte>, s: nat, i: nat, caps: seq<Cap>, d: nat)
    requires s <= |src| && i <= |p| && ItemAt(p, i).Chars? && CapsOk(caps, s)
    requires ItemAt(p, i).q != One && d + Calls(p, i) <= LJ_MAX_XLEVEL
    ensures Shortest(src, p, s, i, caps, d) != Raise(StrPatX)
    decreases |p| - i, 0, |src| - s
  {
    ItemMoves(p, i);
    ShallowMatch(src, p, s, ItemAt(p, i).next, caps, d);
    if s < |src| {
      ShallowShortest(src, p, s + 1, i, caps, d);
    }
  }

  /** A pattern with fewer captures and quantified classes than the limit is never too complex: from the start
      of it, `match` finds the first decomposition for every subject. */
  lemma SimpleIsFirst(src: seq<Byte>, p: seq<Byte>, s: nat) returns (c: seq<nat>)
    requires s <= |src| && (Calls(p, 0) < LJ_MAX_XLEVEL || |p| < LJ_MAX_XLEVEL)
    ensures FirstDecomposition(src, p, s, 0, [], Match(src, p, s, 0, [], 0), c)
  {
    ShallowMatch(src, p, s, 0, [], 0);
    c := MatchIsFirstDecomposition(src, p, s, 0, [], 0);
  }
}
