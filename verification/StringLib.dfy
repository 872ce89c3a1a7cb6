/** `string.find`, `string.match`, `string.gmatch` and `string.gsub` (`lib_string.c`) on top of the matcher. */
module StringLib {
  import opened Pattern
  import opened Buffers
  import M = Matching
  import Matcher

  // ---- Captures as values.

  datatype CapValue = TextValue(t: Text) | PosValue(n: int)

  datatype OrError<T> = Ok(v: T) | Err(err: Error)

  /** `push_onecapture`: without captures, the first one is the whole match. */
  function OneCapture(src: Text, caps: seq<Cap>, l: nat, s: nat, e: nat): OrError<CapValue>
    requires s <= e <= |src| && CapsOk(caps, e)
  {
    if l >= |caps| then
      if l == 0 then Ok(TextValue(src[s..e])) else Err(StrCapI)
    else if caps[l].len == CAP_UNFINISHED then Err(StrCapU)
    else if caps[l].len == CAP_POSITION then Ok(PosValue(caps[l].init + 1))
    else Ok(TextValue(src[caps[l].init..caps[l].init + caps[l].len]))
  }

  /** `push_captures` from number l on */
  function Captures(src: Text, caps: seq<Cap>, l: nat, s: nat, e: nat): OrError<seq<CapValue>>
    requires s <= e <= |src| && CapsOk(caps, e)
    decreases |caps| + 1 - l
  {
    if l > 0 && l >= |caps| then Ok([])
    else
      var first := OneCapture(src, caps, l, s, e);
      if first.Err? then Err(first.err)
      else
        var rest := Captures(src, caps, l + 1, s, e);
        if rest.Err? then rest else Ok([first.v] + rest.v)
  }

  function Decimal(n: nat): Text {
    if n < 10 then [48 + n] else Decimal(n / 10) + [48 + n % 10]
  }

  /** The conversion of a value to a string by `lua_tolstring` */
  function TextOf(v: CapValue): Text {
    match v
    case TextValue(t) => t
    case PosValue(n) => if n >= 0 then Decimal(n) else [45] + Decimal(-n)
  }

  // ---- What a match is replaced with.

  /** What a Lua function or table yields: nil or false, a string or number, or something else. */
  datatype Value = Falsy | Str(t: Text) | Other

  datatype Repl = Template(news: Text) | Function(call: seq<CapValue> -> Value) | Table(get: CapValue -> Value)

  /** `add_s` from position i of the replacement string on */
  function Expand(news: Text, i: nat, src: Text, caps: seq<Cap>, s: nat, e: nat): OrError<Text>
    requires s <= e <= |src| && CapsOk(caps, e)
    decreases |news| - i
  {
    if i >= |news| then Ok([])
    else if news[i] != ESC then Prefixed([news[i]], Expand(news, i + 1, src, caps, s, e))
    else
      var c := At(news, i + 1);
      if !Digit(c) then Prefixed([c], Expand(news, i + 2, src, caps, s, e))
      else if c == 48 then Prefixed(src[s..e], Expand(news, i + 2, src, caps, s, e))
      else
        match OneCapture(src, caps, c - 49, s, e)
        case Err(err) => Err(err)
        case Ok(v) => Prefixed(TextOf(v), Expand(news, i + 2, src, caps, s, e))
  }

  function Prefixed(t: Text, r: OrError<Text>): OrError<Text> {
    if r.Ok? then Ok(t + r.v) else r
  }

  /** The original text is kept for nil or false. */
  function Chosen(v: Value, original: Text): OrError<Text> {
    match v
    case Falsy => Ok(original)
    case Str(t) => Ok(t)
    case Other => Err(StrGsrV)
  }

  /** `add_value` */
  function Replacement(repl: Repl, src: Text, caps: seq<Cap>, s: nat, e: nat): OrError<Text>
    requires s <= e <= |src| && CapsOk(caps, e)
  {
    match repl
    case Template(news) => Expand(news, 0, src, caps, s, e)
    case Function(call) =>
      var args := Captures(src, caps, 0, s, e);
      if args.Err? then Err(args.err) else Chosen(call(args.v), src[s..e])
    case Table(get) =>
      var key := OneCapture(src, caps, 0, s, e);
      if key.Err? then Err(key.err) else Chosen(get(key.v), src[s..e])
  }

  // ---- gsub

  datatype Gsubbed = Done(text: Text, n: nat) | Raised(err: Error)

  function Behind(t: Text, g: Gsubbed): Gsubbed {
    if g.Done? then Done(t + g.text, g.n) else g
  }

  /** What `gsub` makes of the subject from s on, after n substitutions. */
  function GsubFrom(src: Text, p: seq<Byte>, anchor: bool, repl: Repl, s: nat, n: nat, max: int): (g: Gsubbed)
    requires s <= |src|
    decreases |src| - s
  {
    if n >= max then Done(src[s..], n)
    else
      match M.Match(src, p, s, 0, [], 0)
      case Raise(err) => Raised(err)
      case Fail => SkipFrom(src, p, anchor, repl, s, n, max)
      case Found(e, caps) =>
        var v := Replacement(repl, src, caps, s, e);
        if v.Err? then Raised(v.err)
        else if e > s then
          Behind(v.v, if anchor then Done(src[e..], n + 1) else GsubFrom(src, p, anchor, repl, e, n + 1, max))
        else Behind(v.v, SkipFrom(src, p, anchor, repl, s, n + 1, max))
  }

  /** Copy one character, if there is one left. */
  function SkipFrom(src: Text, p: seq<Byte>, anchor: bool, repl: Repl, s: nat, n: nat, max: int): (g: Gsubbed)
    requires s <= |src|
    decreases |src| - s, 0
  {
    if s == |src| then Done([], n)
    else if anchor then Done(src[s..], n)
    else Behind([src[s]], GsubFrom(src, p, anchor, repl, s + 1, n, max))
  }

  /** If every match is replaced with itself, the result is the subject, whatever the pattern and the limit. */
  lemma {:induction false} GsubIdentity(src: Text, p: seq<Byte>, anchor: bool, repl: Repl, s: nat, n: nat, max: int)
    requires s <= |src|
    requires forall i, e, caps :: 0 <= i <= e <= |src| && CapsOk(caps, e) ==>
               Replacement(repl, src, caps, i, e).Err? || Replacement(repl, src, caps, i, e).v == src[i..e]
    ensures var g := GsubFrom(src, p, anchor, repl, s, n, max); g.Done? ==> g.text == src[s..]
    decreases |src| - s
  {
    var o := M.Match(src, p, s, 0, [], 0);
    if n < max && !o.Raise? {
      var k := if o.Found? then n + 1 else n;
      if o.Found? && o.e > s {
        assert Replacement(repl, src, o.caps, s, o.e).Err? || Replacement(repl, src, o.caps, s, o.e).v == src[s..o.e];
        assert src[s..] == src[s..o.e] + src[o.e..];
        GsubIdentity(src, p, anchor, repl, o.e, k, max);
      } else if s < |src| {
        assert src[s..] == [src[s]] + src[s + 1..];
        GsubIdentity(src, p, anchor, repl, s + 1, k, max);
        if o.Found? {
          assert Replacement(repl, src, o.caps, s, s).Err? || Replacement(repl, src, o.caps, s, s).v == [];
          assert [] + src[s..] == src[s..];
        }
      }
    }
  }

  /** The replacement "%0" replaces every match with itself, and raises no error. */
  lemma WholeMatch(src: Text, caps: seq<Cap>, s: nat, e: nat)
    requires s <= e <= |src| && CapsOk(caps, e)
    ensures Replacement(Template([ESC, 48]), src, caps, s, e) == Ok(src[s..e])
  {
    assert Expand([ESC, 48], 2, src, caps, s, e) == Ok([]);
    assert src[s..e] + [] == src[s..e];
  }

  /** There are no more substitutions than the limit says, and never more than positions left. */
  lemma {:induction false} GsubCount(src: Text, p: seq<Byte>, anchor: bool, repl: Repl, s: nat, n: nat, max: int)
    requires s <= |src| && n <= max
    ensures var g := GsubFrom(src, p, anchor, repl, s, n, max);
            g.Done? ==> n <= g.n <= max && g.n - n <= |src| - s + 1 && (anchor ==> g.n - n <= 1)
    decreases |src| - s
  {
    var o := M.Match(src, p, s, 0, [], 0);
    if n < max && !o.Raise? {
      var k := if o.Found? then n + 1 else n;
      if o.Found? && o.e > s {
        GsubCount(src, p, anchor, repl, o.e, k, max);
      } else if s < |src| {
        GsubCount(src, p, anchor, repl, s + 1, k, max);
      }
    }
  }

  lemma PrefixedTwice(a: Text, b: Text, r: OrError<Text>)
    ensures Prefixed(a + b, r) == Prefixed(a, Prefixed(b, r)) && Prefixed([], r) == r
  {
    if r.Ok? {
      assert a + b + r.v == a + (b + r.v);
      assert [] + r.v == r.v;
    }
  }

  lemma BehindTwice(a: Text, b: Text, g: Gsubbed)
    ensures Behind(a + b, g) == Behind(a, Behind(b, g)) && Behind([], g) == g
  {
    if g.Done? {
      assert a + b + g.text == a + (b + g.text);
      assert [] + g.text == g.text;
    }
  }

  // ---- The code.

  /** `add_s` */
  method AddS(b: Buffer, news: Text, src: Text, caps: seq<Cap>, s: nat, e: nat) returns (r: OrError<bool>)
    requires b.Valid() && b.Small() && s <= e <= |src| && CapsOk(caps, e)
    modifies b, b.buffer
    ensures match Expand(news, 0, src, caps, s, e)
            case Ok(t) => r.Ok? && b.Appended(t)
            case Err(err) => r == Err(err)
  {
    hide Expand, Concat;
    var i := 0;
    ghost var done: Text := [];
    PrefixedTwice([], [], Expand(news, 0, src, caps, s, e));
    assert b.Content() + [] == b.Content();
    while i < |news|
      invariant b.Appended(done)
      invariant Expand(news, 0, src, caps, s, e) == Prefixed(done, Expand(news, i, src, caps, s, e))
      decreases |news| - i
    {
      ghost var text := b.Content();
      ghost var x;
      var next;
      next, x := AddPiece(b, news, i, src, caps, s, e);
      if next.Err? {
        return Err(next.err);
      }
      i := next.v;
      PrefixedTwice(done, x, Expand(news, i, src, caps, s, e));
      assert text + x == old(b.Content()) + (done + x);
      done := done + x;
    }
    NothingLeft(news, i, src, caps, s, e);
    assert done + [] == done;
    r := Ok(true);
  }

  lemma NothingLeft(news: Text, i: nat, src: Text, caps: seq<Cap>, s: nat, e: nat)
    requires s <= e <= |src| && CapsOk(caps, e) && i >= |news|
    ensures Expand(news, i, src, caps, s, e) == Ok([])
  {
  }

  /** A character of the replacement string, or an escape. */
  method AddPiece(b: Buffer, news: Text, i: nat, src: Text, caps: seq<Cap>, s: nat, e: nat)
    returns (next: OrError<nat>, ghost x: Text)
    requires b.Valid() && b.Small() && s <= e <= |src| && CapsOk(caps, e) && i < |news|
    modifies b, b.buffer
    ensures next.Ok? ==> next.v > i && b.Appended(x)
                         && Expand(news, i, src, caps, s, e) == Prefixed(x, Expand(news, next.v, src, caps, s, e))
    ensures next.Err? ==> Expand(news, i, src, caps, s, e) == Err(next.err)
  {
    hide Concat;
    if news[i] != ESC {
      b.AddChar(news[i]);
      return Ok(i + 1), [news[i]];
    }
    var c := At(news, i + 1);  // skip ESC
    next := Ok(i + 2);
    if !Digit(c) {
      x := [c];
      b.AddChar(c);
    } else if c == 48 {
      x := src[s..e];
      b.AddLString(src[s..e]);
    } else {
      var v := OneCapture(src, caps, c - 49, s, e);
      if v.Err? {
        return Err(v.err), [];
      }
      x := TextOf(v.v);
      PushAndAdd(b, TextOf(v.v));  // add capture to accumulated result
    }
  }

  method PushAndAdd(b: Buffer, x: Text)
    requires b.Valid() && b.Small()
    modifies b, b.buffer
    ensures b.Appended(x)
  {
    ghost var pieces, below := b.Pieces(), b.Below();
    b.Push(x);
    assert b.PiecesUnder() == pieces && b.BelowUnder() == below;
    b.AddValue();
  }

  /** `add_value` */
  method AddReplacement(b: Buffer, repl: Repl, src: Text, caps: seq<Cap>, s: nat, e: nat) returns (r: OrError<bool>)
    requires b.Valid() && b.Small() && s <= e <= |src| && CapsOk(caps, e)
    modifies b, b.buffer
    ensures match Replacement(repl, src, caps, s, e)
            case Ok(t) => r.Ok? && b.Appended(t)
            case Err(err) => r == Err(err)
  {
    if repl.Template? {
      r := AddS(b, repl.news, src, caps, s, e);
      return;
    }
    var v: Value;
    if repl.Function? {
      var args := Captures(src, caps, 0, s, e);
      if args.Err? {
        return Err(args.err);
      }
      v := repl.call(args.v);
    } else {
      var key := OneCapture(src, caps, 0, s, e);
      if key.Err? {
        return Err(key.err);
      }
      v := repl.get(key.v);
    }
    if v.Other? {
      return Err(StrGsrV);
    }
    // keep original text for nil or false
    PushAndAdd(b, if v.Falsy? then src[s..e] else v.t);
    r := Ok(true);
  }

  /** `match` at position s of the subject, with fresh captures */
  method MatchAt(src: Text, p: seq<Byte>, s: nat) returns (o: M.Outcome)
    requires s <= |src|
    ensures o == M.Match(src, p, s, 0, [], 0)
  {
    var ms := new Matcher.MatchState(src, p);
    var r := ms.Match(s, 0);
    match r {
      case Null => o := M.Fail;
      case Pos(e) => o := M.Found(e, ms.capture[..ms.level]);
      case Throw(err) => o := M.Raise(err);
    }
  }

  /** What is left for `gsub` to do. */
  function Rest(src: Text, p: seq<Byte>, anchor: bool, repl: Repl, s: nat, n: nat, max: int, more: bool): Gsubbed
    requires s <= |src|
  {
    if more then GsubFrom(src, p, anchor, repl, s, n, max) else Done(src[s..], n)
  }

  /** One turn: what is put in place of the match at s, if there is one, and what follows it. */
  lemma Turn(src: Text, p: seq<Byte>, anchor: bool, repl: Repl, s: nat, n: nat, max: int)
    requires s <= |src| && n < max
    ensures var o, g := M.Match(src, p, s, 0, [], 0), GsubFrom(src, p, anchor, repl, s, n, max);
            if o.Raise? then g == Raised(o.err)
            else if o.Fail? then g == SkipFrom(src, p, anchor, repl, s, n, max)
            else var v := Replacement(repl, src, o.caps, s, o.e);
              if v.Err? then g == Raised(v.err)
              else if o.e > s then g == Behind(v.v, Rest(src, p, anchor, repl, o.e, n + 1, max, !anchor))
              else g == Behind(v.v, SkipFrom(src, p, anchor, repl, s, n + 1, max))
  {
    hide Replacement, SkipFrom;
  }

  lemma Skipped(src: Text, p: seq<Byte>, anchor: bool, repl: Repl, s: nat, n: nat, max: int)
    requires s <= |src|
    ensures SkipFrom(src, p, anchor, repl, s, n, max) ==
            if s < |src| then Behind([src[s]], Rest(src, p, anchor, repl, s + 1, n, max, !anchor))
            else Rest(src, p, anchor, repl, s, n, max, false)
  {
    if s < |src| {
      assert src[s..] == [src[s]] + src[s + 1..];
    } else {
      assert src[s..] == [];
    }
  }

  /** One round of `gsub`. */
  method GsubStep(b: Buffer, src: Text, p: seq<Byte>, anchor: bool, repl: Repl, s: nat, n: nat, max: int)
    returns (r: OrError<bool>, s': nat, n': nat)
    requires b.Valid() && b.Small() && s <= |src| && n < max
    modifies b, b.buffer
    ensures r.Ok? ==> s <= s' <= |src| && (r.v ==> s < s') && b.Valid() && b.Small() && b.Below() == old(b.Below())
    ensures r.Ok? ==> Behind(b.Content(), Rest(src, p, anchor, repl, s', n', max, r.v))
                      == Behind(old(b.Content()), GsubFrom(src, p, anchor, repl, s, n, max))
    ensures r.Err? ==> GsubFrom(src, p, anchor, repl, s, n, max) == Raised(r.err)
  {
    hide GsubFrom, SkipFrom, Replacement, Behind, Rest;
    ghost var text := b.Content();
    s', n' := s, n;
    Turn(src, p, anchor, repl, s, n, max);
    var o := MatchAt(src, p, s);
    if o.Raise? {
      return Err(o.err), s, n;
    }
    ghost var v: Text := [];
    if o.Found? {
      n' := n + 1;
      var done := AddReplacement(b, repl, src, o.caps, s, o.e);
      if done.Err? {
        return Err(done.err), s, n;
      }
      v := Replacement(repl, src, o.caps, s, o.e).v;
    }
    assert b.Content() == text + v;
    if o.Found? && o.e > s {  // non empty match?
      s' := o.e;  // skip it
      r := Ok(!anchor);
      BehindTwice(text, v, Rest(src, p, anchor, repl, s', n', max, r.v));
    } else {
      ghost var skipped := SkipFrom(src, p, anchor, repl, s, n', max);
      Skipped(src, p, anchor, repl, s, n', max);
      BehindTwice(text, [], skipped);
      BehindTwice(text, v, skipped);
      if s < |src| {
        b.AddChar(src[s]);
        s' := s + 1;
        r := Ok(!anchor);
        BehindTwice(text + v, [src[s]], Rest(src, p, anchor, repl, s', n', max, r.v));
      } else {
        r := Ok(false);
      }
    }
  }

  lemma NoMore(t: Text, src: Text, p: seq<Byte>, anchor: bool, repl: Repl, s: nat, n: nat, max: int, more: bool)
    requires s <= |src| && (n >= max || !more)
    ensures Behind(t, Rest(src, p, anchor, repl, s, n, max, more)) == Done(t + src[s..], n)
  {
  }

  lemma Stopped(t: Text, err: Error)
    ensures Behind(t, Raised(err)) == Raised(err)
  {
  }

  lemma StillLeft(src: Text, p: seq<Byte>, anchor: bool, repl: Repl, s: nat, n: nat, max: int)
    requires s <= |src|
    ensures Rest(src, p, anchor, repl, s, n, max, true) == GsubFrom(src, p, anchor, repl, s, n, max)
  {
  }

  /** `string.gsub`: the limit is the length of the subject plus one by default. */
  method Gsub(src: Text, pattern: seq<Byte>, repl: Repl, max: int) returns (g: Gsubbed)
    ensures var anchor := pattern != [] && pattern[0] == 94;
            g == GsubFrom(src, if anchor then pattern[1..] else pattern, anchor, repl, 0, 0, max)
  {
    hide GsubFrom, Concat, Rest, Behind;
    var anchor := pattern != [] && pattern[0] == 94;
    var p := if anchor then pattern[1..] else pattern;
    var n: nat, s: nat, more := 0, 0, true;
    StillLeft(src, p, anchor, repl, 0, 0, max);
    var b := new Buffer([]);
    BehindTwice([], [], GsubFrom(src, p, anchor, repl, 0, 0, max));
    while more && n < max
      invariant b.Valid() && b.Small() && b.Below() == [] && fresh(b) && fresh(b.buffer) && s <= |src|
      invariant GsubFrom(src, p, anchor, repl, 0, 0, max) ==
                Behind(b.Content(), Rest(src, p, anchor, repl, s, n, max, more))
      decreases |src| - s, more
    {
      var r;
      ghost var text := b.Content();
      StillLeft(src, p, anchor, repl, s, n, max);
      r, s, n := GsubStep(b, src, p, anchor, repl, s, n, max);
      if r.Err? {
        Stopped(text, r.err);
        return Raised(r.err);
      }
      more := r.v;
    }
    NoMore(b.Content(), src, p, anchor, repl, s, n, max, more);
    var text := Finish(b, src[s..]);
    g := Done(text, n);
  }

  method Finish(b: Buffer, left: Text) returns (text: Text)
    requires b.Valid() && b.Small() && b.Below() == []
    modifies b, b.buffer
    ensures text == old(b.Content()) + left
  {
    b.AddLString(left);
    b.PushResult();
    text := b.stack[|b.stack| - 1];
  }

  /** What a run of `gsub` comes to, for every pattern and limit: no more substitutions than the limit says, nor
      than one more than the subject has characters; and with "%0" the subject itself. */
  lemma GsubWhole(src: Text, p: seq<Byte>, anchor: bool, max: int)
    ensures var g := GsubFrom(src, p, anchor, Template([ESC, 48]), 0, 0, max);
            g.Done? ==> g.text == src && g.n <= |src| + 1 && (g.n <= max || g.n == 0)
  {
    forall i, e, caps | 0 <= i <= e <= |src| && CapsOk(caps, e)
      ensures Replacement(Template([ESC, 48]), src, caps, i, e) == Ok(src[i..e])
    {
      WholeMatch(src, caps, i, e);
    }
    GsubIdentity(src, p, anchor, Template([ESC, 48]), 0, 0, max);
    if max >= 0 {
      GsubCount(src, p, anchor, Template([ESC, 48]), 0, 0, max);
    }
    assert src[0..] == src;
  }

  // ---- find, match and gmatch

  /** Nothing matches at the positions from lo up to hi. */
  ghost predicate NoMatch(src: Text, p: seq<Byte>, lo: nat, hi: nat)
    requires hi <= |src| + 1
  {
    forall j {:trigger M.Match(src, p, j, 0, [], 0)} :: lo <= j < hi ==> M.Match(src, p, j, 0, [], 0).Fail?
  }

  datatype Find = NotFound | FoundAt(s: nat, e: nat, caps: seq<Cap>) | FindError(err: Error)

  /** f is the first match from st on. */
  ghost predicate Leftmost(src: Text, p: seq<Byte>, st: nat, f: Find)
    requires f.FoundAt?
  {
    && st <= f.s <= f.e <= |src| && NoMatch(src, p, st, f.s)
    && M.Match(src, p, f.s, 0, [], 0) == M.Found(f.e, f.caps)
  }

  /** There is no match from st on. */
  ghost predicate NoneFrom(src: Text, p: seq<Byte>, st: nat) {
    st > |src| || NoMatch(src, p, st, |src| + 1)
  }

  /** Where the search from st on stops, the matcher raises an error. */
  ghost predicate ErrorFrom(src: Text, p: seq<Byte>, st: nat, err: Error) {
    exists i {:trigger M.Match(src, p, i, 0, [], 0)} ::
      st <= i <= |src| && NoMatch(src, p, st, i) && M.Match(src, p, i, 0, [], 0) == M.Raise(err)
  }

  /** Where `str_find_aux` starts to search, from an initial position that counts from 1, or from the
      end if it is negative. */
  function StartAt(len: nat, init: int): (st: nat)
    ensures st <= len
  {
    var start := if init < 0 then init + len else init - 1;
    if start < 0 then 0 else if start > len then len else start
  }

  /** `str_find_aux`, for patterns: the leftmost match; an anchored pattern is tried at the start only. */
  method FindPattern(src: Text, pattern: seq<Byte>, init: int) returns (f: Find)
    ensures var anchor, st := pattern != [] && pattern[0] == 94, StartAt(|src|, init);
            var p := if anchor then pattern[1..] else pattern;
            && (f.NotFound? ==> NoMatch(src, p, st, if anchor then st + 1 else |src| + 1))
            && (f.FoundAt? ==> Leftmost(src, p, st, f) && (anchor ==> f.s == st))
            && (f.FindError? ==> ErrorFrom(src, p, st, f.err))
  {
    var s := StartAt(|src|, init);
    ghost var st := s;
    var anchor := pattern != [] && pattern[0] == 94;
    var p := if anchor then pattern[1..] else pattern;
    while true  // loop through string and try to match the pattern
      invariant st <= s <= |src| && NoMatch(src, p, st, s) && (anchor ==> s == st)
      decreases |src| - s
    {
      var o := MatchAt(src, p, s);
      match o {
        case Found(e, caps) => return FoundAt(s, e, caps);
        case Raise(err) => return FindError(err);
        case Fail =>
      }
      if s >= |src| || anchor {
        return NotFound;
      }
      s := s + 1;
    }
  }

  /** `gmatch_aux`: the next match from pos on, and where to go on after it. */
  method GmatchNext(src: Text, p: seq<Byte>, pos: nat) returns (f: Find, pos': nat)
    ensures f.NotFound? ==> NoneFrom(src, p, pos)
    ensures f.FoundAt? ==> Leftmost(src, p, pos, f) && pos' == AfterMatch(f)
    ensures f.FindError? ==> ErrorFrom(src, p, pos, f.err)
  {
    var s := pos;
    pos' := pos;
    while s <= |src|
      invariant pos <= s && (s <= |src| + 1 ==> NoMatch(src, p, pos, s)) && (pos <= |src| ==> s <= |src| + 1)
    {
      var o := MatchAt(src, p, s);
      match o {
        case Found(e, caps) =>
          pos' := if e == s then e + 1 else e;  // ensure progress for empty match
          return FoundAt(s, e, caps), pos';
        case Raise(err) => return FindError(err), pos;
        case Fail =>
      }
      s := s + 1;
    }
    return NotFound, pos;
  }

  /** Where the search goes on after a match. */
  function AfterMatch(f: Find): nat
    requires f.FoundAt?
  {
    if f.e == f.s then f.e + 1 else f.e
  }

  /** Where the search for the k-th match starts. */
  function StartOf(ms: seq<Find>, k: nat): nat
    requires k <= |ms|
  {
    if k > 0 && ms[k - 1].FoundAt? then AfterMatch(ms[k - 1]) else 0
  }

  ghost predicate IsNext(src: Text, p: seq<Byte>, ms: seq<Find>, k: nat)
    requires k < |ms|
  {
    ms[k].FoundAt? && Leftmost(src, p, StartOf(ms, k), ms[k])
  }

  /** Each of these is the first match from where the search goes on after the one before it. */
  ghost predicate AllMatches(src: Text, p: seq<Byte>, ms: seq<Find>) {
    forall k {:trigger IsNext(src, p, ms, k)} :: 0 <= k < |ms| ==> IsNext(src, p, ms, k)
  }

  /** A loop over `string.gmatch`: it ends, and it sees all matches one after the other, up to an error if
      there is one. */
  method GmatchAll(src: Text, p: seq<Byte>) returns (ms: seq<Find>, ok: bool)
    ensures AllMatches(src, p, ms)
    ensures ok ==> NoneFrom(src, p, StartOf(ms, |ms|))
    ensures !ok ==> exists err :: ErrorFrom(src, p, StartOf(ms, |ms|), err)
  {
    hide NoneFrom, ErrorFrom, Leftmost, AllMatches;
    ms, ok := [], true;
    var pos := 0;
    NoMatches(src, p);
    while true
      invariant AllMatches(src, p, ms) && pos == StartOf(ms, |ms|) <= |src| + 1
      decreases |src| + 1 - pos
    {
      var f;
      ghost var pos0 := pos;
      f, pos := GmatchNext(src, p, pos);
      match f {
        case NotFound => return;
        case FindError(_) => return ms, false;
        case FoundAt(_, _, _) =>
          OneMoreMatch(src, p, ms, f);
          ms := ms + [f];
      }
    }
  }

  lemma NoMatches(src: Text, p: seq<Byte>)
    ensures AllMatches(src, p, [])
  {
  }

  lemma OneMoreMatch(src: Text, p: seq<Byte>, ms: seq<Find>, f: Find)
    requires AllMatches(src, p, ms) && f.FoundAt? && Leftmost(src, p, StartOf(ms, |ms|), f)
    ensures AllMatches(src, p, ms + [f]) && StartOf(ms, |ms|) < AfterMatch(f) <= |src| + 1
  {
    assert StartOf(ms, |ms|) <= f.s <= f.e <= |src|;
    hide Leftmost;
    var t := ms + [f];
    forall k | 0 <= k < |t|
      ensures IsNext(src, p, t, k)
    {
      assert StartOf(t, k) == StartOf(ms, k);
      assert k < |ms| ==> IsNext(src, p, ms, k);
    }
  }

  /** The matches follow each other: none starts before the one before it ends, nor at the same place. */
  predicate InOrder(ms: seq<Find>) {
    && (forall k {:trigger ms[k]} :: 0 <= k < |ms| ==> ms[k].FoundAt? && ms[k].s <= ms[k].e)
    && (forall k {:trigger Later(ms, k)} :: 0 < k < |ms| ==> Later(ms, k))
  }

  predicate Later(ms: seq<Find>, k: int)
    requires 0 < k < |ms|
  {
    ms[k - 1].FoundAt? && ms[k].FoundAt? && ms[k - 1].e <= ms[k].s && ms[k - 1].s < ms[k].s
  }

  /** So there is at most one more match than the subject has characters. */
  lemma {:induction false} MatchesAdvance(src: Text, p: seq<Byte>, ms: seq<Find>)
    requires AllMatches(src, p, ms)
    ensures InOrder(ms) && |ms| <= StartOf(ms, |ms|) <= |src| + 1
  {
    if ms != [] {
      var n := |ms| - 1;
      var init := ms[..n];
      forall k | 0 <= k < n
        ensures IsNext(src, p, init, k)
      {
        assert IsNext(src, p, ms, k) && StartOf(init, k) == StartOf(ms, k);
      }
      MatchesAdvance(src, p, init);
      assert IsNext(src, p, ms, n) && StartOf(init, n) == StartOf(ms, n);
      hide Leftmost;
      LeftmostAt(src, p, StartOf(ms, n), ms[n]);
      forall k | 0 < k < |ms|
        ensures Later(ms, k)
      {
        assert k < n ==> Later(init, k);
      }
      assert forall k :: 0 <= k < n ==> ms[k] == init[k];
    }
  }

  lemma LeftmostAt(src: Text, p: seq<Byte>, st: nat, f: Find)
    requires f.FoundAt? && Leftmost(src, p, st, f)
    ensures st <= f.s <= f.e <= |src|
  {
  }
}
