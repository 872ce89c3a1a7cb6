/** The matcher of `lib_string.c`, with its captures and depth counter in mutable state. */
module Matcher {
  import opened Pattern
  import M = Matching

  /** What a call returns: NULL, a position, or it raises an error. */
  datatype Result = Null | Pos(e: nat) | Throw(err: Error)

  /** `classend`, with its result as a position or an error */
  method ClassEndOf(p: seq<Byte>, i: nat) returns (r: EndOf)
    requires i < |p|
    ensures r == ClassEnd(p, i)
  {
    var k := i + 1;
    if p[i] == ESC {
      if At(p, k) == 0 {
        return NoEnd(StrPatE);
      }
      return EndAt(k + 1);
    } else if p[i] == 91 {
      if At(p, k) == 94 {
        k := k + 1;
      }
      ghost var k0 := k;
      while true
        invariant k <= |p| && SetEnd(p, k) == SetEnd(p, k0)
        decreases |p| - k
      {
        // look for a ']'
        if At(p, k) == 0 {
          return NoEnd(StrPatM);
        }
        k := k + 1;
        if p[k - 1] == ESC && At(p, k) != 0 {  // skip escapes (e.g. '%]')
          k := k + 1;
        }
        if At(p, k) == 93 {
          break;
        }
      }
      return EndAt(k + 1);
    }
    return EndAt(k);
  }

  /** `matchbracketclass` */
  method InBracketClass(c: Byte, p: seq<Byte>, i: nat, ec: nat) returns (b: bool)
    requires i + 1 < ec < |p|
    ensures b == InSet(c, p, i, ec)
  {
    var sig := true;
    var k := i;
    if p[k + 1] == 94 {
      sig := false;
      k := k + 1;  // skip the '^'
    }
    ghost var k0 := k + 1;
    k := k + 1;
    while k < ec
      invariant k0 <= k && InElements(c, p, k0, ec) == InElements(c, p, k, ec)
      decreases ec - k
    {
      if p[k] == ESC {
        k := k + 1;
        if MatchClass(c, p[k]) {
          return sig;
        }
      } else if p[k + 1] == 45 && k + 2 < ec {
        k := k + 2;
        if p[k - 2] <= c <= p[k] {
          return sig;
        }
      } else if p[k] == c {
        return sig;
      }
      k := k + 1;
    }
    return !sig;
  }

  /** `singlematch` */
  method SingleMatch(c: Byte, p: seq<Byte>, i: nat, ep: nat) returns (b: bool)
    requires i < |p| && ClassEnd(p, i) == EndAt(ep)
    ensures b == Single(c, p, i, ep)
  {
    if p[i] == 46 {
      return true;  // matches any char
    } else if p[i] == ESC {
      return MatchClass(c, p[i + 1]);
    } else if p[i] == 91 {
      b := InBracketClass(c, p, i, ep - 1);
    } else {
      return p[i] == c;
    }
  }

  /** `matchbalance`, after its check of the pattern */
  method MatchBalance(src: seq<Byte>, s: nat, x: Byte, y: Byte) returns (r: Result)
    requires s <= |src| && x != 0
    ensures r == (match BalanceTo(src, s, x, y) case To(e) => Pos(e) case _ => Null)
  {
    if At(src, s) != x {
      return Null;
    }
    var cont, k := 1, s + 1;
    while k < |src|
      invariant s < k <= |src| && cont > 0
      invariant BalanceEnd(src, s + 1, x, y, 1) == BalanceEnd(src, k, x, y, cont)
    {
      if src[k] == y {
        cont := cont - 1;
        if cont == 0 {
          return Pos(k + 1);
        }
      } else if src[k] == x {
        cont := cont + 1;
      }
      k := k + 1;
    }
    return Null;  // string ends out of balance
  }

  class MatchState {
    const src: seq<Byte>
    const p: seq<Byte>
    const capture: array<Cap>
    var level: nat
    var depth: nat

    constructor (src: seq<Byte>, p: seq<Byte>)
      ensures Valid() && this.src == src && this.p == p && level == 0 && depth == 0 && fresh(capture)
    {
      this.src, this.p := src, p;
      capture := new Cap[LUA_MAXCAPTURES];
      level, depth := 0, 0;
    }

    ghost predicate Valid()
      reads this
    {
      capture.Length == LUA_MAXCAPTURES && level <= LUA_MAXCAPTURES
    }

    ghost function Caps(): seq<Cap>
      requires Valid()
      reads this, capture
    {
      capture[..level]
    }

    /** The result is the outcome. After a failure, the level and all captures below it are as before. */
    twostate predicate Does(r: Result, o: M.Outcome)
      requires old(Valid())
      reads this, capture
    {
      && Valid()
      && match o
         case Found(e, caps) => r == Pos(e) && Caps() == caps && depth == old(depth)
         case Fail => r == Null && Caps() == old(Caps()) && depth == old(depth)
         case Raise(err) => r == Throw(err)
    }

    /** `match` */
    method Match(s0: nat, i0: nat) returns (r: Result)
      requires Valid() && s0 <= |src| && i0 <= |p| && CapsOk(Caps(), s0)
      modifies this, capture
      ensures Does(r, M.Match(src, p, s0, i0, old(Caps()), old(depth)))
      decreases |p| - i0, 2, 0
    {
      depth := depth + 1;
      if depth > LJ_MAX_XLEVEL {
        return Throw(StrPatX);
      }
      r := MatchItems(s0, i0);
      if !r.Throw? {
        depth := depth - 1;
      }
    }

    /** The items of the pattern one by one, where `match` would call itself last. */
    method MatchItems(s0: nat, i0: nat) returns (r: Result)
      requires Valid() && s0 <= |src| && i0 <= |p| && CapsOk(Caps(), s0)
      modifies this, capture
      ensures Does(r, M.Run(src, p, s0, i0, old(Caps()), old(depth)))
      decreases |p| - i0, 1, 1
    {
      var s, i := s0, i0;
      ghost var caps := Caps();
      while true
        invariant s0 <= s <= |src| && i0 <= i <= |p| && Valid() && Caps() == caps && depth == old(depth)
        invariant M.Run(src, p, s, i, caps, depth) == M.Run(src, p, s0, i0, caps, depth)
        decreases |p| - i
      {
        ItemMoves(p, i);
        var c := At(p, i);
        if c == 40 {  // start capture
          if At(p, i + 1) == 41 {  // position capture?
            r := StartCapture(s, i + 2, CAP_POSITION);
          } else {
            r := StartCapture(s, i + 1, CAP_UNFINISHED);
          }
          return;
        } else if c == 41 {  // end capture
          r := EndCapture(s, i + 1);
          return;
        } else if c == 0 || (c == 36 && At(p, i + 1) == 0) {
          // end of pattern, or '$' that is the last char in the pattern: check end of string
          return if c == 36 && s != |src| then Null else Pos(s);
        } else if c == ESC && (At(p, i + 1) in {98, 102} || Digit(At(p, i + 1))) {
          var next;
          r, next := Special(s, i);
          if !r.Pos? {
            return;
          }
          s, i := r.e, next;
        } else {  // it is a pattern item
          var more;
          r, more, s, i := CharsItem(s, i);
          if !more {
            return;
          }
        }
      }
    }

    /** A single character class and its quantifier: the result, or where to go on. */
    method CharsItem(s: nat, i: nat) returns (r: Result, more: bool, s': nat, i': nat)
      requires Valid() && s <= |src| && i < |p| && CapsOk(Caps(), s) && ItemAt(p, i) == CharsAt(p, i)
      modifies this, capture
      ensures more ==> Valid() && Caps() == old(Caps()) && depth == old(depth) && s <= s' <= |src| && i < i' <= |p|
                       && M.Run(src, p, s', i', Caps(), depth) == M.Run(src, p, s, i, Caps(), depth)
      ensures !more ==> Does(r, M.Run(src, p, s, i, old(Caps()), old(depth)))
      decreases |p| - i, 1, 0
    {
      ItemMoves(p, i);
      r, more, s', i' := Null, false, s, i;
      var end := ClassEndOf(p, i);
      if end.NoEnd? {
        r := Throw(end.err);
        return;
      }
      var ep := end.ep;
      var m := false;
      if s < |src| {
        m := SingleMatch(src[s], p, i, ep);
      }
      var q := At(p, ep);
      if q == 63 {  // optional
        if m {
          r := Match(s + 1, ep + 1);
          if r != Null {
            return;
          }
        }
        more, i' := true, ep + 1;
      } else if q == 42 {  // 0 or more repetitions
        r := MaxExpand(s, i, ep);
      } else if q == 43 {  // 1 or more repetitions
        if m {
          r := MaxExpand(s + 1, i, ep);
        }
      } else if q == 45 {  // 0 or more repetitions (minimum)
        r := MinExpand(s, i, ep);
      } else if m {
        more, s', i' := true, s + 1, ep;
      }
    }

    /** Balanced strings, frontiers and back references. */
    method Special(s: nat, i: nat) returns (r: Result, next: nat)
      requires Valid() && s <= |src| && i < |p| && CapsOk(Caps(), s)
      requires p[i] == ESC && (At(p, i + 1) in {98, 102} || Digit(At(p, i + 1)))
      ensures ItemAt(p, i).Bad? ==> r == Throw(ItemAt(p, i).err)
      ensures !ItemAt(p, i).Bad? ==>
                match M.Straight(src, p, s, i, Caps())
                case To(e) => r == Pos(e) && next == ItemAt(p, i).next
                case Fault(err) => r == Throw(err)
                case _ => r == Null
    {
      ItemMoves(p, i);
      next := i + 2;
      if p[i + 1] == 98 {  // balanced string?
        if At(p, i + 2) == 0 || At(p, i + 3) == 0 {
          return Throw(StrPatU), next;
        }
        r := MatchBalance(src, s, p[i + 2], p[i + 3]);
        next := i + 4;
      } else if p[i + 1] == 102 {  // frontier?
        if At(p, i + 2) != 91 {
          return Throw(StrPatB), next;
        }
        var end := ClassEndOf(p, i + 2);
        if end.NoEnd? {
          return Throw(end.err), next;
        }
        var ep := end.ep;
        var previous: Byte := if s == 0 then 0 else src[s - 1];
        var before := InBracketClass(previous, p, i + 2, ep - 1);
        var here := InBracketClass(At(src, s), p, i + 2, ep - 1);
        r := if before || !here then Null else Pos(s);
        next := ep;
      } else {  // capture results (%0-%9)?
        r := MatchCapture(s, p[i + 1]);
      }
    }

    /** `match_capture` */
    method MatchCapture(s: nat, c: Byte) returns (r: Result)
      requires Valid() && s <= |src| && CapsOk(Caps(), s)
      ensures match BackTo(src, s, Caps(), c - 49)
              case To(e) => r == Pos(e)
              case Fault(err) => r == Throw(err)
              case _ => r == Null
    {
      var l := c - 49;
      assert forall k :: 0 <= k < level ==> Caps()[k] == capture[k];
      if l < 0 || l >= level || capture[l].len == CAP_UNFINISHED {
        return Throw(StrCapI);
      }
      var len := capture[l].len;
      // a position capture has the length 2^64 - 2
      if 0 <= len <= |src| - s && src[capture[l].init..capture[l].init + len] == src[s..s + len] {
        return Pos(s + len);
      }
      return Null;
    }

    /** `max_expand` */
    method MaxExpand(s: nat, i: nat, ep: nat) returns (r: Result)
      requires Valid() && s <= |src| && i < |p| && CapsOk(Caps(), s)
      requires ItemAt(p, i).Chars? && ItemAt(p, i).ep == ep && ItemAt(p, i).next == ep + 1
      requires ClassEnd(p, i) == EndAt(ep)
      modifies this, capture
      ensures Does(r, M.Longest(src, p, s, i, old(Caps()), old(depth), M.Count(src, s, p, i, ep)))
      decreases |p| - i, 0
    {
      ItemMoves(p, i);
      ghost var caps := Caps();
      var k: int := 0;  // counts maximum expand for item
      while s + k < |src|
        invariant 0 <= k <= |src| - s && Valid() && Caps() == caps && depth == old(depth)
        invariant M.Count(src, s, p, i, ep) == k + M.Count(src, s + k, p, i, ep)
      {
        var m := SingleMatch(src[s + k], p, i, ep);
        if !m {
          break;
        }
        k := k + 1;
      }
      ghost var n := k;
      // keeps trying to match with the maximum repetitions
      while k >= 0
        invariant -1 <= k <= n && Valid() && Caps() == caps && depth == old(depth)
        invariant M.Longest(src, p, s, i, caps, depth, n)
                  == if k >= 0 then M.Longest(src, p, s, i, caps, depth, k) else M.Fail
      {
        r := Match(s + k, ep + 1);
        if r != Null {
          return;
        }
        k := k - 1;  // else didn't match; reduce 1 repetition to try again
      }
      return Null;
    }

    /** `min_expand` */
    method MinExpand(s0: nat, i: nat, ep: nat) returns (r: Result)
      requires Valid() && s0 <= |src| && i < |p| && CapsOk(Caps(), s0)
      requires ItemAt(p, i).Chars? && ItemAt(p, i).ep == ep && ItemAt(p, i).next == ep + 1
      requires ClassEnd(p, i) == EndAt(ep)
      modifies this, capture
      ensures Does(r, M.Shortest(src, p, s0, i, old(Caps()), old(depth)))
      decreases |p| - i, 0
    {
      ItemMoves(p, i);
      ghost var caps := Caps();
      var s := s0;
      while true
        invariant s0 <= s <= |src| && Valid() && Caps() == caps && depth == old(depth)
        invariant M.Shortest(src, p, s, i, caps, depth) == M.Shortest(src, p, s0, i, caps, depth)
        decreases |src| - s
      {
        r := Match(s, ep + 1);
        if r != Null {
          return;
        }
        var m := false;
        if s < |src| {
          m := SingleMatch(src[s], p, i, ep);
        }
        if !m {
          return Null;
        }
        s := s + 1;  // try with one more repetition
      }
    }

    /** `start_capture` */
    method StartCapture(s: nat, i: nat, what: int) returns (r: Result)
      requires Valid() && s <= |src| && i <= |p| && CapsOk(Caps(), s) && what in {CAP_POSITION, CAP_UNFINISHED}
      modifies this, capture
      ensures Does(r, if |old(Caps())| >= LUA_MAXCAPTURES then M.Raise(StrCapN)
                      else M.Match(src, p, s, i, M.Opened(old(Caps()), what == CAP_POSITION, s), old(depth)))
      decreases |p| - i, 3
    {
      ghost var caps := Caps();
      if level >= LUA_MAXCAPTURES {
        return Throw(StrCapN);
      }
      capture[level] := Cap(s, what);
      level := level + 1;
      assert Caps() == M.Opened(caps, what == CAP_POSITION, s);
      r := Match(s, i);
      if r == Null {  // match failed?
        level := level - 1;  // undo capture
        assert Caps() == M.Opened(caps, what == CAP_POSITION, s)[..level] == caps;
      }
    }

    /** `end_capture` */
    method EndCapture(s: nat, i: nat) returns (r: Result)
      requires Valid() && s <= |src| && i <= |p| && CapsOk(Caps(), s)
      modifies this, capture
      ensures var l := ToClose(old(Caps()));
              Does(r, if l < 0 then M.Raise(StrPatC) else M.Match(src, p, s, i, Closed(old(Caps()), l, s), old(depth)))
      decreases |p| - i, 3
    {
      ghost var caps := Caps();
      // capture_to_close
      var l: int := level - 1;
      while l >= 0 && capture[l].len != CAP_UNFINISHED
        invariant Valid() && Caps() == caps && depth == old(depth)
        invariant -1 <= l < level && ToClose(caps) == ToClose(caps[..l + 1])
      {
        assert caps[..l + 1][..l] == caps[..l];
        l := l - 1;
      }
      if l < 0 {
        return Throw(StrPatC);
      }
      var init := capture[l].init;
      capture[l] := Cap(init, s - init);  // close capture
      assert Caps() == Closed(caps, l, s);
      r := Match(s, i);
      if r == Null {  // match failed?
        capture[l] := Cap(capture[l].init, CAP_UNFINISHED);  // undo capture
        assert Caps() == caps;
      }
    }
  }
}
