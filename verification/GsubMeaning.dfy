/** What `string.gsub` and its relatives come to, told without the functions they are specified with: templates,
    captures as values, and the substitution of just the matches that `string.gmatch` finds. */
module GsubMeaning {
  import opened Pattern
  import opened Buffers
  import opened StringLib
  import M = Matching

  // ---- Numerals.

  function NumberOf(t: Text): nat {
    if t == [] then 0 else 10 * NumberOf(t[..|t| - 1]) + if 48 <= t[|t| - 1] <= 57 then t[|t| - 1] - 48 else 0
  }

  /** The text is the number n, written with digits and without leading zeros. */
  predicate IsNumeral(t: Text, n: nat) {
    && t != [] && NumberOf(t) == n && (forall k :: 0 <= k < |t| ==> '0' as int <= t[k] <= '9' as int)
    && (n > 0 ==> t[0] != '0' as int)
  }

  lemma {:induction false} DecimalIs(n: nat)
    ensures IsNumeral(Decimal(n), n)
    decreases n
  {
    var t := Decimal(n);
    if n >= 10 {
      DecimalIs(n / 10);
      var d := Decimal(n / 10);
      assert t[..|t| - 1] == d && t[|t| - 1] == 48 + n % 10;
      assert 10 * (n / 10) + n % 10 == n;
    } else {
      assert t[..0] == [];
    }
  }

  // ---- Captures as values.

  /** What the capture of number k, counted from 1, is: for a pattern without captures the whole match is the first
      one; a position capture is a number that counts from 1; any other one is the text that it spans. */
  predicate IsCapture(r: OrError<CapValue>, k: nat, src: Text, caps: seq<Cap>, s: nat, e: nat)
    requires s <= e <= |src| && CapsOk(caps, e) && k >= 1
  {
    if k > |caps| then
      r == if k == 1 then Ok(TextValue(src[s..e])) else Err(StrCapI)
    else
      var c := caps[k - 1];
      if c.len == CAP_UNFINISHED then r == Err(StrCapU)
      else if c.len == CAP_POSITION then r == Ok(PosValue(c.init + 1))
      else r == Ok(TextValue(src[c.init..c.init + c.len]))
  }

  lemma OneCaptureIs(k: nat, src: Text, caps: seq<Cap>, s: nat, e: nat)
    requires s <= e <= |src| && CapsOk(caps, e) && k >= 1
    ensures IsCapture(OneCapture(src, caps, k - 1, s, e), k, src, caps, s, e)
  {
  }

  /** All captures from number l + 1 on are pushed in order; the first one that is unfinished raises the error. */
  lemma {:induction false} CapturesAre(src: Text, caps: seq<Cap>, l: nat, s: nat, e: nat)
    requires s <= e <= |src| && CapsOk(caps, e) && (l <= |caps| || l == 1)
    ensures var r, n := Captures(src, caps, l, s, e), if caps == [] then 1 else |caps|;
            if r.Ok? then
              && |r.v| == n - l
              && forall k {:trigger r.v[k]} :: 0 <= k < n - l ==>
                   IsCapture(Ok(r.v[k]), l + k + 1, src, caps, s, e)
            else r.err == StrCapU && exists k :: l <= k < |caps| && caps[k].len == CAP_UNFINISHED
    decreases |caps| + 1 - l
  {
    var n := if caps == [] then 1 else |caps|;
    if l < n {
      OneCaptureIs(l + 1, src, caps, s, e);
      CapturesAre(src, caps, l + 1, s, e);
      var r, rest := Captures(src, caps, l, s, e), Captures(src, caps, l + 1, s, e);
      if r.Ok? {
        forall k | 0 <= k < n - l
          ensures IsCapture(Ok(r.v[k]), l + k + 1, src, caps, s, e)
        {
          assert k > 0 ==> r.v[k] == rest.v[k - 1];
        }
      }
    }
  }

  // ---- Templates.

  /** The parts of a template: a plain character, one behind a %, the whole match %0, or a capture %1 to %9. */
  datatype Part = Plain(c: Byte) | Escaped(c: Byte) | Whole | Nth(k: nat)

  predicate PartOk(t: Part) {
    match t
    case Plain(c) => c != '%' as int
    case Escaped(c) => !('0' as int <= c <= '9' as int)
    case Whole => true
    case Nth(k) => 1 <= k <= 9
  }

  function PartText(t: Part): Text
    requires PartOk(t)
  {
    match t
    case Plain(c) => [c]
    case Escaped(c) => ['%' as int, c]
    case Whole => ['%' as int, '0' as int]
    case Nth(k) => ['%' as int, '0' as int + k]
  }

  function TemplateText(ts: seq<Part>): Text
    requires forall k :: 0 <= k < |ts| ==> PartOk(ts[k])
  {
    if ts == [] then [] else PartText(ts[0]) + TemplateText(ts[1..])
  }

  /** What a part contributes */
  predicate Contributes(r: OrError<Text>, t: Part, src: Text, caps: seq<Cap>, s: nat, e: nat)
    requires s <= e <= |src| && CapsOk(caps, e) && PartOk(t)
  {
    match t
    case Plain(c) => r == Ok([c])
    case Escaped(c) => r == Ok([c])
    case Whole => r == Ok(src[s..e])
    case Nth(k) =>
      || (r.Err? && IsCapture(Err(r.err), k, src, caps, s, e))
      || (r.Ok? && IsCapture(Ok(TextValue(r.v)), k, src, caps, s, e))
      || (r.Ok? && k <= |caps| && caps[k - 1].len == CAP_POSITION && IsNumeral(r.v, caps[k - 1].init + 1))
  }

  /** All parts one after the other, or the error of the first one that raises one */
  function Joined(rs: seq<OrError<Text>>): OrError<Text> {
    if rs == [] then Ok([])
    else if rs[0].Err? then rs[0]
    else
      var rest := Joined(rs[1..]);
      if rest.Err? then rest else Ok(rs[0].v + rest.v)
  }

  /** A template is expanded part by part. */
  lemma TemplateMeans(ts: seq<Part>, src: Text, caps: seq<Cap>, s: nat, e: nat) returns (rs: seq<OrError<Text>>)
    requires s <= e <= |src| && CapsOk(caps, e) && forall k :: 0 <= k < |ts| ==> PartOk(ts[k])
    ensures |rs| == |ts| && forall k :: 0 <= k < |ts| ==> Contributes(rs[k], ts[k], src, caps, s, e)
    ensures Replacement(Template(TemplateText(ts)), src, caps, s, e) == Joined(rs)
  {
    hide Expand;
    var news := TemplateText(ts);
    assert news[0..] == news;
    rs := PartsMean(news, 0, ts, src, caps, s, e);
  }

  lemma {:induction false} PartsMean(news: Text, i: nat, ts: seq<Part>, src: Text, caps: seq<Cap>, s: nat, e: nat)
    returns (rs: seq<OrError<Text>>)
    requires s <= e <= |src| && CapsOk(caps, e) && forall k :: 0 <= k < |ts| ==> PartOk(ts[k])
    requires i <= |news| && news[i..] == TemplateText(ts)
    ensures |rs| == |ts| && forall k :: 0 <= k < |ts| ==> Contributes(rs[k], ts[k], src, caps, s, e)
    ensures Expand(news, i, src, caps, s, e) == Joined(rs)
    decreases |ts|
  {
    hide FirstPart, Contributes, PartText, PartOk;
    rs := [];
    if ts != [] {
      hide Expand;
      var t := PartText(ts[0]);
      assert news[i..][..|t|] == (t + TemplateText(ts[1..]))[..|t|] == t;
      assert news[i + |t|..] == news[i..][|t|..] == (t + TemplateText(ts[1..]))[|t|..] == TemplateText(ts[1..]);
      PartSize(ts[0]);
      assert news[i] == news[i..][..|t|][0] && (|t| > 1 ==> news[i + 1] == news[i..][..|t|][1]);
      var rest := PartsMean(news, i + |t|, ts[1..], src, caps, s, e);
      PartMeans(news, i, ts[0], src, caps, s, e);
      rs := [FirstPart(ts[0], src, caps, s, e)] + rest;
      assert rs[1..] == rest;
    }
  }

  lemma PartSize(t: Part)
    requires PartOk(t)
    ensures |PartText(t)| > 0
  {
  }

  function FirstPart(t: Part, src: Text, caps: seq<Cap>, s: nat, e: nat): OrError<Text>
    requires s <= e <= |src| && CapsOk(caps, e) && PartOk(t)
  {
    match t
    case Plain(c) => Ok([c])
    case Escaped(c) => Ok([c])
    case Whole => Ok(src[s..e])
    case Nth(k) =>
      var r := OneCapture(src, caps, k - 1, s, e);
      if r.Err? then Err(r.err) else Ok(TextOf(r.v))
  }

  lemma PartMeans(news: Text, i: nat, t: Part, src: Text, caps: seq<Cap>, s: nat, e: nat)
    requires s <= e <= |src| && CapsOk(caps, e) && PartOk(t) && i + |PartText(t)| <= |news|
    requires news[i] == PartText(t)[0] && (|PartText(t)| > 1 ==> news[i + 1] == PartText(t)[1])
    ensures Contributes(FirstPart(t, src, caps, s, e), t, src, caps, s, e)
    ensures var first, rest := FirstPart(t, src, caps, s, e), Expand(news, i + |PartText(t)|, src, caps, s, e);
            Expand(news, i, src, caps, s, e)
            == if first.Err? then first else if rest.Ok? then Ok(first.v + rest.v) else rest
  {
    hide OneCapture, Decimal, IsNumeral;
    if t.Nth? {
      OneCaptureIs(t.k, src, caps, s, e);
      if t.k <= |caps| && caps[t.k - 1].len == CAP_POSITION {
        DecimalIs(caps[t.k - 1].init + 1);
      }
    }
  }

  /** A lone % at the end of a template stands for a NUL character. */
  lemma LonePercent(src: Text, caps: seq<Cap>, s: nat, e: nat)
    requires s <= e <= |src| && CapsOk(caps, e)
    ensures Replacement(Template(['%' as int]), src, caps, s, e) == Ok([0])
  {
    assert Expand([37], 2, src, caps, s, e) == Ok([]) && At([37], 1) == 0;
    assert [0] + [] == [0];
  }

  // ---- What a match is replaced with.

  /** What a Lua value makes of a match: nil and false leave it as it is. */
  predicate Yields(v: Value, r: OrError<Text>, whole: Text) {
    match v
    case Falsy => r == Ok(whole)
    case Str(t) => r == Ok(t)
    case Other => r == Err(StrGsrV)
  }

  /** A function gets all captures; an unfinished one is an error. */
  lemma FunctionMeans(call: seq<CapValue> -> Value, src: Text, caps: seq<Cap>, s: nat, e: nat)
    returns (args: seq<CapValue>)
    requires s <= e <= |src| && CapsOk(caps, e)
    ensures var r := Replacement(Function(call), src, caps, s, e);
            if exists k :: 0 <= k < |caps| && caps[k].len == CAP_UNFINISHED then r == Err(StrCapU)
            else
              && |args| == (if caps == [] then 1 else |caps|)
              && (forall k :: 0 <= k < |args| ==> IsCapture(Ok(args[k]), k + 1, src, caps, s, e))
              && Yields(call(args), r, src[s..e])
  {
    hide IsCapture, Captures;
    CapturesAre(src, caps, 0, s, e);
    var r := Captures(src, caps, 0, s, e);
    args := if r.Ok? then r.v else [];
    if r.Ok? {
      AllFinished(src, caps, s, e, args);
    }
  }

  /** A table is indexed with the first capture. */
  lemma TableMeans(get: CapValue -> Value, src: Text, caps: seq<Cap>, s: nat, e: nat) returns (key: OrError<CapValue>)
    requires s <= e <= |src| && CapsOk(caps, e)
    ensures var r := Replacement(Table(get), src, caps, s, e);
            && IsCapture(key, 1, src, caps, s, e)
            && if key.Err? then r == Err(key.err) else Yields(get(key.v), r, src[s..e])
  {
    hide IsCapture, OneCapture;
    OneCaptureIs(1, src, caps, s, e);
    key := OneCapture(src, caps, 0, s, e);
  }

  lemma AllFinished(src: Text, caps: seq<Cap>, s: nat, e: nat, v: seq<CapValue>)
    requires s <= e <= |src| && CapsOk(caps, e) && |v| == if caps == [] then 1 else |caps|
    requires forall k {:trigger v[k]} :: 0 <= k < |v| ==> IsCapture(Ok(v[k]), k + 1, src, caps, s, e)
    ensures !exists k :: 0 <= k < |caps| && caps[k].len == CAP_UNFINISHED
  {
    forall k | 0 <= k < |caps|
      ensures caps[k].len != CAP_UNFINISHED
    {
      assert IsCapture(Ok(v[k]), k + 1, src, caps, s, e);
    }
  }

  // ---- gsub substitutes what gmatch finds.

  /** All matches from st on, one after the other: each is leftmost, and the search goes on behind it, one further if
      it is empty. */
  ghost predicate Chain(src: Text, p: seq<Byte>, st: nat, ms: seq<Find>)
    decreases |ms|
  {
    ms == [] || (ms[0].FoundAt? && Leftmost(src, p, st, ms[0])
                 && Chain(src, p, if ms[0].e > ms[0].s then ms[0].e else ms[0].e + 1, ms[1..]))
  }

  /** Where the search goes on behind the last match */
  function StopOf(st: nat, ms: seq<Find>): nat
    decreases |ms|
  {
    if ms == [] then st
    else StopOf(if !ms[0].FoundAt? then st else if ms[0].e > ms[0].s then ms[0].e else ms[0].e + 1, ms[1..])
  }

  predicate Within(src: Text, from: nat, ms: seq<Find>)
    decreases |ms|
  {
    && from <= |src|
    && (ms == [] || (ms[0].FoundAt? && from <= ms[0].s <= ms[0].e <= |src| && CapsOk(ms[0].caps, ms[0].e)
                     && Within(src, ms[0].e, ms[1..])))
  }

  /** The subject from there on with its matches replaced */
  function Spliced(src: Text, repl: Repl, from: nat, ms: seq<Find>): OrError<Text>
    requires Within(src, from, ms)
    decreases |ms|
  {
    if ms == [] then Ok(src[from..])
    else
      var r := Replacement(repl, src, ms[0].caps, ms[0].s, ms[0].e);
      var rest := Spliced(src, repl, ms[0].e, ms[1..]);
      if r.Err? then Err(r.err) else if rest.Err? then rest else Ok(src[from..ms[0].s] + r.v + rest.v)
  }

  lemma SpliceShift(src: Text, repl: Repl, from: nat, ms: seq<Find>)
    requires from < |src| && Within(src, from, ms) && Within(src, from + 1, ms)
    ensures var r, r1 := Spliced(src, repl, from, ms), Spliced(src, repl, from + 1, ms);
            if r1.Err? then r == r1 else r == Ok([src[from]] + r1.v)
  {
    if ms == [] {
      assert src[from..] == [src[from]] + src[from + 1..];
    } else {
      var a := src[from + 1..ms[0].s];
      assert src[from..ms[0].s] == [src[from]] + a;
      forall x: Text, y: Text
        ensures [src[from]] + a + x + y == [src[from]] + (a + x + y)
      {
      }
    }
  }

  lemma {:induction false} ChainIsWithin(src: Text, p: seq<Byte>, st: nat, ms: seq<Find>)
    requires Chain(src, p, st, ms) && st <= |src| + 1
    ensures forall from: nat :: from <= st && from <= |src| ==> Within(src, from, ms)
    ensures StopOf(st, ms) <= |src| + 1 && (ms != [] ==> st <= |src|)
    decreases |ms|
  {
    if ms != [] {
      LeftmostFacts(src, p, st, ms[0]);
      var next := if ms[0].e > ms[0].s then ms[0].e else ms[0].e + 1;
      ChainIsWithin(src, p, next, ms[1..]);
    }
  }

  lemma LeftmostFacts(src: Text, p: seq<Byte>, st: nat, f: Find)
    requires f.FoundAt? && Leftmost(src, p, st, f)
    ensures st <= f.s <= f.e <= |src| && CapsOk(f.caps, f.e) && NoMatch(src, p, st, f.s)
    ensures M.Match(src, p, f.s, 0, [], 0) == M.Found(f.e, f.caps)
  {
  }

  /** What the end of it is: no match is left, or no more are wanted, or the matcher raises an error. */
  ghost predicate Ends(src: Text, p: seq<Byte>, stop: nat, n: int, max: int, err: OrError<nat>) {
    if err.Ok? then n == max || NoneFrom(src, p, stop) else n < max && ErrorFrom(src, p, stop, err.err)
  }

  /** The substitutions are those of the matches in the chain, and their number is the length of it. */
  function Total(sp: OrError<Text>, n: nat, err: OrError<nat>): Gsubbed {
    if sp.Err? then Raised(sp.err) else if err.Err? then Raised(err.err) else Done(sp.v, n)
  }

  lemma {:induction false} GsubSplices(src: Text, p: seq<Byte>, repl: Repl, s: nat, n: nat, max: int, ms: seq<Find>,
                                       err: OrError<nat>)
    requires s <= |src| && Chain(src, p, s, ms) && Within(src, s, ms) && n + |ms| <= max
    requires Ends(src, p, StopOf(s, ms), n + |ms|, max, err)
    ensures GsubFrom(src, p, false, repl, s, n, max) == Total(Spliced(src, repl, s, ms), n + |ms|, err)
    decreases |src| - s, 2
  {
    hide GsubFrom, Spliced, Leftmost, NoneFrom, ErrorFrom, Within, Chain, Ends;
    var o := M.Match(src, p, s, 0, [], 0);
    if n == max {
      EnoughDone(src, p, repl, s, n, max, ms, err);
    } else if o.Fail? {
      SkipSplices(src, p, repl, s, n, max, ms, err);
    } else if o.Found? {
      FirstHere(src, p, s, ms, n, max, err);
      MatchSplices(src, p, repl, s, n, max, ms, err);
    } else {
      ErrorHere(src, p, s, ms, n, max, err);
      RaisedHere(src, p, repl, s, n, max, err);
    }
  }

  lemma EnoughDone(src: Text, p: seq<Byte>, repl: Repl, s: nat, n: nat, max: int, ms: seq<Find>, err: OrError<nat>)
    requires s <= |src| && n + |ms| <= max && n == max && Ends(src, p, StopOf(s, ms), n + |ms|, max, err)
    requires Within(src, s, ms)
    ensures GsubFrom(src, p, false, repl, s, n, max) == Total(Spliced(src, repl, s, ms), n + |ms|, err)
  {
  }

  lemma RaisedHere(src: Text, p: seq<Byte>, repl: Repl, s: nat, n: nat, max: int, err: OrError<nat>)
    requires s <= |src| && n < max && M.Match(src, p, s, 0, [], 0).Raise?
    requires err == Err(M.Match(src, p, s, 0, [], 0).err)
    ensures Within(src, s, []) && GsubFrom(src, p, false, repl, s, n, max) == Total(Spliced(src, repl, s, []), n, err)
  {
  }

  /** The first match of the chain is at s. */
  lemma {:induction false} MatchSplices(src: Text, p: seq<Byte>, repl: Repl, s: nat, n: nat, max: int, ms: seq<Find>,
                                        err: OrError<nat>)
    requires s <= |src| && Chain(src, p, s, ms) && Within(src, s, ms) && n + |ms| <= max && n < max
    requires Ends(src, p, StopOf(s, ms), n + |ms|, max, err) && ms != [] && ms[0].FoundAt? && ms[0].s == s
    requires M.Match(src, p, s, 0, [], 0) == M.Found(ms[0].e, ms[0].caps)
    ensures GsubFrom(src, p, false, repl, s, n, max) == Total(Spliced(src, repl, s, ms), n + |ms|, err)
    decreases |src| - s, 1
  {
    hide Replacement, Leftmost, NoneFrom, ErrorFrom, SkipFrom;
    var e, caps, rest := ms[0].e, ms[0].caps, ms[1..];
    var r := Replacement(repl, src, caps, s, e);
    assert src[s..s] == [];
    if r.Ok? && e > s {
      GsubSplices(src, p, repl, e, n + 1, max, rest, err);
      assert [] + r.v == r.v;
    } else if r.Ok? {
      EmptyMatch(src, p, repl, s, n, max, ms, err);
    }
  }

  /** There is no match at s: one character is copied. */
  lemma {:induction false} SkipSplices(src: Text, p: seq<Byte>, repl: Repl, s: nat, n: nat, max: int, ms: seq<Find>,
                                       err: OrError<nat>)
    requires s <= |src| && Chain(src, p, s, ms) && Within(src, s, ms) && n + |ms| <= max && n < max
    requires Ends(src, p, StopOf(s, ms), n + |ms|, max, err) && M.Match(src, p, s, 0, [], 0).Fail?
    ensures GsubFrom(src, p, false, repl, s, n, max) == Total(Spliced(src, repl, s, ms), n + |ms|, err)
    decreases |src| - s, 0
  {
    hide Replacement;
    if ms != [] {
      LeftmostFacts(src, p, s, ms[0]);
    }
    if s < |src| {
      NotHere(src, p, s, ms, n, max, err);
      GsubSplices(src, p, repl, s + 1, n, max, ms, err);
      SpliceShift(src, repl, s, ms);
    } else {
      NothingMore(src, p, s, err);
    }
  }

  /** At the end of the subject */
  lemma NothingMore(src: Text, p: seq<Byte>, s: nat, err: OrError<nat>)
    requires s >= |src| && (s == |src| ==> M.Match(src, p, s, 0, [], 0).Fail?)
    ensures !exists err :: ErrorFrom(src, p, s, err)
  {
  }

  lemma NotHere(src: Text, p: seq<Byte>, s: nat, ms: seq<Find>, n: nat, max: int, err: OrError<nat>)
    requires s < |src| && Chain(src, p, s, ms) && Within(src, s, ms) && M.Match(src, p, s, 0, [], 0).Fail?
    requires Ends(src, p, StopOf(s, ms), n + |ms|, max, err)
    ensures Chain(src, p, s + 1, ms) && Within(src, s + 1, ms)
    ensures Ends(src, p, StopOf(s + 1, ms), n + |ms|, max, err)
  {
    if ms != [] {
      LeftmostFacts(src, p, s, ms[0]);
      assert Leftmost(src, p, s + 1, ms[0]);
    } else if err.Err? && n < max {
      var i :| s <= i <= |src| && NoMatch(src, p, s, i) && M.Match(src, p, i, 0, [], 0) == M.Raise(err.err);
      assert NoMatch(src, p, s + 1, i);
    }
  }

  /** There is a match at s: it is the first one of the chain. */
  lemma FirstHere(src: Text, p: seq<Byte>, s: nat, ms: seq<Find>, n: nat, max: int, err: OrError<nat>)
    requires s <= |src| && Chain(src, p, s, ms) && M.Match(src, p, s, 0, [], 0).Found? && n < max
    requires Ends(src, p, StopOf(s, ms), n + |ms|, max, err)
    ensures ms != [] && var o := M.Match(src, p, s, 0, [], 0); ms[0] == FoundAt(s, o.e, o.caps)
  {
    Blocked(src, p, s);
    if ms != [] {
      LeftmostFacts(src, p, s, ms[0]);
    }
  }

  /** The matcher raises an error at s. */
  lemma ErrorHere(src: Text, p: seq<Byte>, s: nat, ms: seq<Find>, n: nat, max: int, err: OrError<nat>)
    requires s <= |src| && Chain(src, p, s, ms) && M.Match(src, p, s, 0, [], 0).Raise? && n < max
    requires Ends(src, p, StopOf(s, ms), n + |ms|, max, err)
    ensures ms == [] && err == Err(M.Match(src, p, s, 0, [], 0).err)
  {
    Blocked(src, p, s);
  }

  /** A search from s on does not get past s. */
  lemma Blocked(src: Text, p: seq<Byte>, s: nat)
    requires s <= |src| && !M.Match(src, p, s, 0, [], 0).Fail?
    ensures !NoneFrom(src, p, s) && forall i: nat :: s < i <= |src| + 1 ==> !NoMatch(src, p, s, i)
  {
  }

  /** The match at s is empty: one character is copied behind it. */
  lemma {:induction false} EmptyMatch(src: Text, p: seq<Byte>, repl: Repl, s: nat, n: nat, max: int, ms: seq<Find>,
                                      err: OrError<nat>)
    requires s <= |src| && Chain(src, p, s, ms) && Within(src, s, ms) && n + |ms| <= max && n < max
    requires Ends(src, p, StopOf(s, ms), n + |ms|, max, err) && ms != [] && ms[0] == FoundAt(s, s, ms[0].caps)
    requires M.Match(src, p, s, 0, [], 0) == M.Found(s, ms[0].caps)
    requires CapsOk(ms[0].caps, s) && Replacement(repl, src, ms[0].caps, s, s).Ok?
    ensures GsubFrom(src, p, false, repl, s, n, max) == Total(Spliced(src, repl, s, ms), n + |ms|, err)
    decreases |src| - s, 0
  {
    hide Replacement, GsubFrom, Leftmost, Chain, Ends, StopOf;
    var rest, v := ms[1..], Replacement(repl, src, ms[0].caps, s, s).v;
    assert src[s..s] == [] && [] + v == v;
    EmptyFacts(src, p, repl, s, n, max, ms, err);
    if s < |src| {
      GsubSplices(src, p, repl, s + 1, n + 1, max, rest, err);
      SpliceShift(src, repl, s, rest);
    }
  }

  lemma EmptyFacts(src: Text, p: seq<Byte>, repl: Repl, s: nat, n: nat, max: int, ms: seq<Find>, err: OrError<nat>)
    requires s <= |src| && Chain(src, p, s, ms) && Within(src, s, ms) && n + |ms| <= max && n < max
    requires Ends(src, p, StopOf(s, ms), n + |ms|, max, err) && ms != [] && ms[0] == FoundAt(s, s, ms[0].caps)
    requires M.Match(src, p, s, 0, [], 0) == M.Found(s, ms[0].caps)
    requires CapsOk(ms[0].caps, s) && Replacement(repl, src, ms[0].caps, s, s).Ok?
    ensures var v, rest := Replacement(repl, src, ms[0].caps, s, s).v, ms[1..];
            && Chain(src, p, s + 1, rest) && Ends(src, p, StopOf(s + 1, rest), n + |ms|, max, err)
            && (s < |src| ==> Within(src, s + 1, rest) && GsubFrom(src, p, false, repl, s, n, max)
                              == Behind(v, Behind([src[s]], GsubFrom(src, p, false, repl, s + 1, n + 1, max))))
            && (s == |src| ==> rest == [] && err.Ok? && GsubFrom(src, p, false, repl, s, n, max) == Done(v + [], n + 1))
  {
    hide Replacement;
    ChainIsWithin(src, p, s + 1, ms[1..]);
    if s == |src| {
      NothingMore(src, p, s + 1, err);
    }
  }

  // ---- Over the whole subject

  lemma {:induction false} ChainOfAll(src: Text, p: seq<Byte>, ms: seq<Find>, k: nat)
    requires AllMatches(src, p, ms) && k <= |ms|
    ensures Chain(src, p, StartOf(ms, k), ms[k..]) && StopOf(StartOf(ms, k), ms[k..]) == StartOf(ms, |ms|)
    decreases |ms| - k
  {
    if k < |ms| {
      assert IsNext(src, p, ms, k);
      ChainOfAll(src, p, ms, k + 1);
      assert ms[k..][0] == ms[k] && ms[k..][1..] == ms[k + 1..];
    }
  }

  /** `gsub` substitutes just the matches that `gmatch` finds, up to the limit, and copies what is between them. */
  lemma GsubIsGmatch(src: Text, p: seq<Byte>, repl: Repl, max: int, ms: seq<Find>)
    requires AllMatches(src, p, ms) && |ms| <= max && (|ms| == max || NoneFrom(src, p, StartOf(ms, |ms|)))
    ensures Within(src, 0, ms)
    ensures GsubFrom(src, p, false, repl, 0, 0, max) ==
            var sp := Spliced(src, repl, 0, ms);
            if sp.Ok? then Done(sp.v, |ms|) else Raised(sp.err)
  {
    hide GsubFrom, Spliced, NoneFrom, ErrorFrom;
    ChainOfAll(src, p, ms, 0);
    assert ms[0..] == ms;
    ChainIsWithin(src, p, 0, ms);
    GsubSplices(src, p, repl, 0, 0, max, ms, Ok(0));
  }

  /** An error of the matcher behind those matches is raised, unless the limit comes first. */
  lemma GsubStops(src: Text, p: seq<Byte>, repl: Repl, max: int, ms: seq<Find>, err: Error)
    requires AllMatches(src, p, ms) && |ms| < max && ErrorFrom(src, p, StartOf(ms, |ms|), err)
    ensures Within(src, 0, ms)
    ensures GsubFrom(src, p, false, repl, 0, 0, max) ==
            var sp := Spliced(src, repl, 0, ms);
            if sp.Ok? then Raised(err) else Raised(sp.err)
  {
    hide GsubFrom, Spliced, NoneFrom, ErrorFrom;
    ChainOfAll(src, p, ms, 0);
    assert ms[0..] == ms;
    ChainIsWithin(src, p, 0, ms);
    GsubSplices(src, p, repl, 0, 0, max, ms, Err(err));
  }

  /** An anchored pattern is tried at the start only. */
  lemma GsubAnchored(src: Text, p: seq<Byte>, repl: Repl, max: int)
    ensures GsubFrom(src, p, true, repl, 0, 0, max) ==
            match M.Match(src, p, 0, 0, [], 0)
            case Raise(err) => if max > 0 then Raised(err) else Done(src, 0)
            case Fail => Done(src, 0)
            case Found(e, caps) =>
              if max <= 0 then Done(src, 0)
              else
                var r := Replacement(repl, src, caps, 0, e);
                if r.Err? then Raised(r.err) else Done(r.v + src[e..], 1)
  {
    hide Replacement;
    assert src[0..] == src;
  }

  // ---- Where a search starts

  /** Positions of the subject count from 1 on, or from -1 at its end backwards; beyond either end they are the
      nearest one there is. */
  lemma StartIs(len: nat, k: nat, init: int)
    requires k < len
    ensures StartAt(len, 1 + k) == k && StartAt(len, -1 - k) == len - 1 - k
    ensures init > len ==> StartAt(len, init) == len
    ensures init == 0 || init + len < 0 ==> StartAt(len, init) == 0
  {
  }
}
