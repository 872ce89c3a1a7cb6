/** What a pattern as a whole means, and that the matcher finds it: the first decomposition of the subject, with the
    preferences of the quantifiers, for every pattern that is composed of the pieces of the manual. */
module PatternMeaning {
  import opened Pattern
  import opened Matching
  import opened PatternText

  /** How often a class is repeated: just once, `?`, `*`, `+`, `-` */
  datatype Repeat = Once | AtMostOnce | AnyNumber | AtLeastOnce | AsFewAsPossible

  datatype Piece =
    | Chars(cl: Class, q: Repeat)
    | Opening
    | Closing
    | Position
    | Same(n: nat)  // as the n-th capture
    | Balanced(x: Byte, y: Byte)
    | Boundary(els: seq<Elem>, not: bool)

  /** How a pattern ends: plainly, with a $ that asks for the end of the subject, or badly. */
  datatype Ending = Plain | AtEnd | LonePercent | OpenSet(els: seq<Elem>) | NoPair | HalfPair(x: Byte) | NoSet

  // ---- How patterns are written.

  function RepeatText(q: Repeat): seq<Byte> {
    match q
    case Once => []
    case AtMostOnce => ['?' as int]
    case AnyNumber => ['*' as int]
    case AtLeastOnce => ['+' as int]
    case AsFewAsPossible => ['-' as int]
  }

  function PieceText(t: Piece): seq<Byte>
    requires PieceOk(t)
  {
    match t
    case Chars(cl, q) => ClassText(cl) + RepeatText(q)
    case Opening => ['(' as int]
    case Closing => [')' as int]
    case Position => ['(' as int, ')' as int]
    case Same(n) => ['%' as int, '0' as int + n]
    case Balanced(x, y) => ['%' as int, 'b' as int, x, y]
    case Boundary(els, not) => ['%' as int, 'f' as int] + SetText(els, not)
  }

  predicate PieceOk(t: Piece) {
    match t
    case Chars(cl, _) => ClassOk(cl)
    case Same(n) => 1 <= n <= 9
    case Balanced(x, y) => x != 0 && y != 0
    case Boundary(els, not) => ClassOk(InBrackets(els, not))
    case _ => true
  }

  function EndingText(e: Ending): seq<Byte> {
    match e
    case Plain => []
    case AtEnd => ['$' as int]
    case LonePercent => ['%' as int]
    case OpenSet(els) => ['[' as int] + ElemsText(els)
    case NoPair => ['%' as int, 'b' as int]
    case HalfPair(x) => ['%' as int, 'b' as int, x]
    case NoSet => ['%' as int, 'f' as int]
  }

  /** Pieces are well formed; an opening parenthesis right before a closing one would be a position capture. */
  predicate PatternOk(ps: seq<Piece>, e: Ending) {
    && (forall k :: 0 <= k < |ps| ==> PieceOk(ps[k]))
    && (forall k :: 0 < k < |ps| && ps[k - 1].Opening? ==> !ps[k].Closing?)
    && (e.OpenSet? ==> forall k :: 0 <= k < |e.els| ==> ElemOk(e.els[k]))
  }

  /** The text from piece k on */
  function TextFrom(ps: seq<Piece>, e: Ending, k: nat): seq<Byte>
    requires PatternOk(ps, e) && k <= |ps|
    decreases |ps| - k
  {
    if k == |ps| then EndingText(e) else PieceText(ps[k]) + TextFrom(ps, e, k + 1)
  }

  // ---- What patterns mean.

  predicate Allows(q: Repeat, k: nat) {
    match q
    case Once => k == 1
    case AtMostOnce => k <= 1
    case AnyNumber => true
    case AtLeastOnce => k >= 1
    case AsFewAsPossible => true
  }

  /** The k characters from s on are there, and are all in the class. */
  predicate AllHave(src: seq<Byte>, s: nat, k: nat, cl: Class) {
    s + k <= |src| && forall j :: s <= j < s + k ==> Has(src[j], cl)
  }

  /** An error, once all repetitions given have been used up. */
  function Wrong(c: seq<nat>, err: Error): Outcome {
    if c == [] then Raise(err) else Fail
  }

  /** Where the pieces from the k-th one on lead from position s of the subject, if the classes that have a
      quantifier are repeated as often as c says. */
  function Meaning(ps: seq<Piece>, e: Ending, k: nat, src: seq<Byte>, s: nat, caps: seq<Cap>, c: seq<nat>): Outcome
    requires k <= |ps| && s <= |src| && CapsOk(caps, s)
    decreases |ps| - k
  {
    if k == |ps| then
      match e
      case Plain => if c == [] then Found(s, caps) else Fail
      case AtEnd => if c == [] && s == |src| then Found(s, caps) else Fail
      case LonePercent => Wrong(c, StrPatE)
      case OpenSet(_) => Wrong(c, StrPatM)
      case NoPair => Wrong(c, StrPatU)
      case HalfPair(_) => Wrong(c, StrPatU)
      case NoSet => Wrong(c, StrPatB)
    else
      match ps[k]
      case Chars(cl, Once) =>
        if s < |src| && Has(src[s], cl) then Meaning(ps, e, k + 1, src, s + 1, caps, c) else Fail
      case Chars(cl, q) =>
        if c != [] && Allows(q, c[0]) && AllHave(src, s, c[0], cl) then
          Meaning(ps, e, k + 1, src, s + c[0], caps, c[1..])
        else Fail
      case Opening =>
        if |caps| >= LUA_MAXCAPTURES then Wrong(c, StrCapN)
        else Meaning(ps, e, k + 1, src, s, caps + [Cap(s, CAP_UNFINISHED)], c)
      case Position =>
        if |caps| >= LUA_MAXCAPTURES then Wrong(c, StrCapN)
        else Meaning(ps, e, k + 1, src, s, caps + [Cap(s, CAP_POSITION)], c)
      case Closing =>
        var l := ToClose(caps);  // the innermost one that is open
        if l < 0 then Wrong(c, StrPatC)
        else Meaning(ps, e, k + 1, src, s, caps[l := Cap(caps[l].init, s - caps[l].init)], c)
      case Same(n) =>
        if n == 0 || n > |caps| || caps[n - 1].len == CAP_UNFINISHED then Wrong(c, StrCapI)
        else
          var len := caps[n - 1].len;
          if len >= 0 && s + len <= |src| && src[s..s + len] == src[caps[n - 1].init..caps[n - 1].init + len] then
            Meaning(ps, e, k + 1, src, s + len, caps, c)
          else Fail
      case Balanced(x, y) =>
        if s < |src| && src[s] == x && BalanceEnd(src, s + 1, x, y, 1) >= 0 then
          Meaning(ps, e, k + 1, src, BalanceEnd(src, s + 1, x, y, 1), caps, c)
        else Fail
      case Boundary(els, not) =>
        var before, behind := if s == 0 then 0 else src[s - 1], if s == |src| then 0 else src[s];
        if !Has(before, InBrackets(els, not)) && Has(behind, InBrackets(els, not)) then
          Meaning(ps, e, k + 1, src, s, caps, c)
        else Fail
  }

  /** For each class with a quantifier: does it prefer more repetitions? */
  function Prefers(ps: seq<Piece>, k: nat): seq<bool>
    requires k <= |ps|
    decreases |ps| - k
  {
    if k == |ps| then []
    else if ps[k].Chars? && ps[k].q != Once then [ps[k].q != AsFewAsPossible] + Prefers(ps, k + 1)
    else Prefers(ps, k + 1)
  }

  // ---- The matcher reads the pieces.

  function QuantifierOf(q: Repeat): Quantifier {
    match q
    case Once => One
    case AtMostOnce => Optional
    case AnyNumber => Star
    case AtLeastOnce => Plus
    case AsFewAsPossible => Minus
  }

  /** The item that the matcher finds for a piece at i, if the next piece is at `next` */
  predicate Reads(t: Item, pc: Piece, i: nat, next: nat)
    requires PieceOk(pc)
  {
    match pc
    case Chars(cl, q) => t == Item.Chars(i + |ClassText(cl)|, QuantifierOf(q), next)
    case Opening => t == Open(false, next)
    case Closing => t == Close(next)
    case Position => t == Open(true, next)
    case Same(n) => t == Back(n - 1, next)
    case Balanced(x, y) => t == Balance(x, y, next)
    case Boundary(_, _) => t == Frontier(i + 2, next)
  }

  lemma PieceStarts(t: Piece)
    requires PieceOk(t)
    ensures PieceText(t) != [] && PieceText(t)[0] !in {0, 63, 42, 43, 45} && (PieceText(t)[0] == 41 <==> t.Closing?)
  {
    if t.Chars? {
      ClassStarts(t.cl);
    }
  }

  lemma ClassStarts(cl: Class)
    requires ClassOk(cl)
    ensures ClassText(cl) != [] && ClassText(cl)[0] !in {0, 63, 42, 43, 45, 36, 40, 41}
    ensures ClassText(cl)[0] == ESC ==> |ClassText(cl)| == 2 && ClassText(cl)[1] !in {0, 98, 102}
                                        && !Digit(ClassText(cl)[1])
  {
    if cl.Just? {
      MagicIs(cl.c);
    }
  }

  /** What follows a piece is never taken for a quantifier. */
  lemma TextStarts(ps: seq<Piece>, e: Ending, k: nat)
    requires PatternOk(ps, e) && k <= |ps|
    ensures var t := TextFrom(ps, e, k);
            t != [] ==> t[0] !in {63, 42, 43, 45} && (t[0] == 41 <==> k < |ps| && ps[k].Closing?)
  {
    if k < |ps| {
      PieceStarts(ps[k]);
    }
  }

  /** Where the text of the piece k and of those behind it are in the pattern */
  lemma TextParts(p: seq<Byte>, i: nat, ps: seq<Piece>, e: Ending, k: nat)
    requires PatternOk(ps, e) && k < |ps| && i <= |p| && p[i..] == TextFrom(ps, e, k)
    ensures Stands(p, i, PieceText(ps[k])) && p[i + |PieceText(ps[k])|..] == TextFrom(ps, e, k + 1)
  {
    var t, rest := PieceText(ps[k]), TextFrom(ps, e, k + 1);
    assert p[i..][..|t|] == (t + rest)[..|t|] == t && p[i..][|t|..] == (t + rest)[|t|..] == rest;
  }

  lemma PieceIs(p: seq<Byte>, i: nat, ps: seq<Piece>, e: Ending, k: nat)
    requires PatternOk(ps, e) && k < |ps| && i <= |p| && p[i..] == TextFrom(ps, e, k)
    ensures var next := i + |PieceText(ps[k])|;
            next <= |p| && p[next..] == TextFrom(ps, e, k + 1) && Reads(ItemAt(p, i), ps[k], i, next)
  {
    hide TextFrom, ClassText, SetText, ItemAt;
    var t := PieceText(ps[k]);
    var next := i + |t|;
    TextParts(p, i, ps, e, k);
    TextStarts(ps, e, k + 1);
    assert next < |p| ==> p[next] == p[next..][0];
    match ps[k] {
      case Chars(cl, q) => CharsIs(p, i, cl, q);
      case Boundary(els, not) => BoundaryIs(p, i, els, not);
      case _ => ShortPieceIs(p, i, ps[k]);
    }
  }

  lemma ShortPieceIs(p: seq<Byte>, i: nat, pc: Piece)
    requires PieceOk(pc) && !pc.Chars? && !pc.Boundary? && Stands(p, i, PieceText(pc))
    requires pc.Opening? ==> At(p, i + 1) != 41
    ensures Reads(ItemAt(p, i), pc, i, i + |PieceText(pc)|)
  {
    var t := PieceText(pc);
    StandsAt(p, i, t, 0);
    if |t| > 1 {
      StandsAt(p, i, t, 1);
    }
    if |t| == 4 {
      StandsAt(p, i, t, 2);
      StandsAt(p, i, t, 3);
    }
  }

  lemma CharsIs(p: seq<Byte>, i: nat, cl: Class, q: Repeat)
    requires ClassOk(cl) && Stands(p, i, ClassText(cl) + RepeatText(q))
    requires At(p, i + |ClassText(cl) + RepeatText(q)|) !in {63, 42, 43, 45}
    ensures ItemAt(p, i) == Item.Chars(i + |ClassText(cl)|, QuantifierOf(q), i + |ClassText(cl) + RepeatText(q)|)
  {
    hide ClassText;
    var t := ClassText(cl);
    StandsParts(p, i, t, RepeatText(q));
    ClassStarts(cl);
    ClassIs(0, p, i, cl);
    StandsAt(p, i, t, 0);
    if |t| == 2 {
      StandsAt(p, i, t, 1);
    }
    if q != Once {
      StandsAt(p, i + |t|, RepeatText(q), 0);
    }
  }

  lemma BoundaryIs(p: seq<Byte>, i: nat, els: seq<Elem>, not: bool)
    requires ClassOk(InBrackets(els, not)) && Stands(p, i, [37, 102] + SetText(els, not))
    ensures ItemAt(p, i) == Frontier(i + 2, i + 2 + |SetText(els, not)|)
  {
    StandsParts(p, i, [37, 102], SetText(els, not));
    StandsAt(p, i, [37, 102], 0);
    StandsAt(p, i, [37, 102], 1);
    SetIs(0, p, i + 2, els, not);
    StandsAt(p, i + 2, SetText(els, not), 0);
  }

  lemma EndingIs(p: seq<Byte>, i: nat, e: Ending)
    requires i <= |p| && p[i..] == EndingText(e) && (e.OpenSet? ==> forall k :: 0 <= k < |e.els| ==> ElemOk(e.els[k]))
    ensures match e
            case Plain => ItemAt(p, i) == End
            case AtEnd => ItemAt(p, i) == Dollar
            case LonePercent => ItemAt(p, i) == Bad(StrPatE)
            case OpenSet(_) => ItemAt(p, i) == Bad(StrPatM)
            case NoPair => ItemAt(p, i) == Bad(StrPatU)
            case HalfPair(_) => ItemAt(p, i) == Bad(StrPatU)
            case NoSet => ItemAt(p, i) == Bad(StrPatB)
  {
    var t := p[i..];
    assert forall k :: 0 <= k < |t| ==> p[i + k] == t[k];
    if e.OpenSet? {
      assert t[0] == 91 && p[i + 1..] == t[1..] == ElemsText(e.els);
      if e.els != [] {
        ElemStarts(e.els[0]);
        assert p[i + 1] == ElemText(e.els[0])[0];
      }
      NoSetEnd(p, i + 1, e.els);
    } else if |t| > 0 {
      assert p[i + 0] == t[0];
    }
  }

  lemma NothingLeft(p: seq<Byte>)
    ensures SetEnd(p, |p|) == NoEnd(StrPatM)
  {
  }

  lemma {:induction false} NoSetEnd(p: seq<Byte>, j: nat, els: seq<Elem>)
    requires (forall k :: 0 <= k < |els| ==> ElemOk(els[k])) && j <= |p| && p[j..] == ElemsText(els)
    ensures SetEnd(p, j) == NoEnd(StrPatM)
    decreases |els|
  {
    hide SetEnd, ElemText;
    if els == [] {
      NothingLeft(p);
    } else {
      var first, rest := ElemText(els[0]), ElemsText(els[1..]);
      assert p[j..][..|first|] == (first + rest)[..|first|] == first;
      assert p[j + |first|..] == p[j..][|first|..] == (first + rest)[|first|..] == rest;
      SetEndStep(p, j, els[0]);
      if |els| > 1 {
        ElemStarts(els[1]);
        assert p[j + |first|] == p[j + |first|..][0];
      }
      NoSetEnd(p, j + |first|, els[1..]);
    }
  }

  // ---- And it goes the ways that are meant.

  lemma AllFirst(src: seq<Byte>, s: nat, k: nat, cl: Class)
    ensures k > 0 ==> (AllHave(src, s, k, cl) <==> s < |src| && Has(src[s], cl) && AllHave(src, s + 1, k - 1, cl))
  {
    hide Has;
  }

  lemma {:induction false} CountIs(src: seq<Byte>, s: nat, p: seq<Byte>, i: nat, cl: Class, k: nat)
    requires s <= |src| && ClassOk(cl) && Stands(p, i, ClassText(cl))
    ensures i < |p| && ClassEnd(p, i) == EndAt(i + |ClassText(cl)|)
    ensures k <= Count(src, s, p, i, i + |ClassText(cl)|) <==> AllHave(src, s, k, cl)
    decreases |src| - s
  {
    hide ClassText;
    ClassIs(if s < |src| then src[s] else 0, p, i, cl);
    AllFirst(src, s, k, cl);
    if s < |src| && Has(src[s], cl) && k > 0 {
      CountIs(src, s + 1, p, i, cl, k - 1);
    }
  }

  /** The decompositions of the text are the ways through the pieces. */
  lemma {:induction false} TextMeans(p: seq<Byte>, i: nat, ps: seq<Piece>, e: Ending, k: nat, src: seq<Byte>, s: nat,
                                     caps: seq<Cap>, c: seq<nat>)
    requires PatternOk(ps, e) && k <= |ps| && i <= |p| && p[i..] == TextFrom(ps, e, k)
    requires s <= |src| && CapsOk(caps, s)
    ensures Decomposed(src, p, s, i, caps, c) == Meaning(ps, e, k, src, s, caps, c)
    decreases |ps| - k
  {
    hide PieceText, ClassText, SetText, ItemAt, TextFrom, EndingText, ToClose;
    if k == |ps| {
      EndingRead(p, i, ps, e);
      return;
    }
    PieceIs(p, i, ps, e, k);
    var next := i + |PieceText(ps[k])|;
    match ps[k] {
      case Chars(cl, q) =>
        if q == Once {
          OnceMeans(p, i, ps, e, k, src, s, caps, c);
        } else {
          RepeatMeans(p, i, ps, e, k, src, s, caps, c);
        }
      case Opening =>
        if |caps| < LUA_MAXCAPTURES {
          TextMeans(p, next, ps, e, k + 1, src, s, Opened(caps, false, s), c);
        }
      case Position =>
        if |caps| < LUA_MAXCAPTURES {
          TextMeans(p, next, ps, e, k + 1, src, s, Opened(caps, true, s), c);
        }
      case Closing =>
        if ToClose(caps) >= 0 {
          TextMeans(p, next, ps, e, k + 1, src, s, Closed(caps, ToClose(caps), s), c);
        }
      case _ =>
        StraightMeans(p, i, ps, e, k, src, s, caps, c);
        var m := Straight(src, p, s, i, caps);
        if m.To? {
          TextMeans(p, next, ps, e, k + 1, src, m.s, caps, c);
        }
    }
  }

  lemma EndingRead(p: seq<Byte>, i: nat, ps: seq<Piece>, e: Ending)
    requires PatternOk(ps, e) && i <= |p| && p[i..] == TextFrom(ps, e, |ps|)
    ensures match e
            case Plain => ItemAt(p, i) == End
            case AtEnd => ItemAt(p, i) == Dollar
            case LonePercent => ItemAt(p, i) == Bad(StrPatE)
            case OpenSet(_) => ItemAt(p, i) == Bad(StrPatM)
            case NoPair => ItemAt(p, i) == Bad(StrPatU)
            case HalfPair(_) => ItemAt(p, i) == Bad(StrPatU)
            case NoSet => ItemAt(p, i) == Bad(StrPatB)
  {
    EndingIs(p, i, e);
  }

  lemma {:induction false} OnceMeans(p: seq<Byte>, i: nat, ps: seq<Piece>, e: Ending, k: nat, src: seq<Byte>, s: nat,
                                     caps: seq<Cap>, c: seq<nat>)
    requires PatternOk(ps, e) && k < |ps| && i <= |p| && p[i..] == TextFrom(ps, e, k) && ps[k].Chars? && ps[k].q == Once
    requires s <= |src| && CapsOk(caps, s)
    ensures Decomposed(src, p, s, i, caps, c) == Meaning(ps, e, k, src, s, caps, c)
    decreases |ps| - k, 0
  {
    hide ClassText, SetText, ItemAt, TextFrom, ToClose, Single, Count, Has, AllHave;
    PieceIs(p, i, ps, e, k);
    TextParts(p, i, ps, e, k);
    var cl, q, next := ps[k].cl, ps[k].q, i + |PieceText(ps[k])|;
    StandsParts(p, i, ClassText(cl), RepeatText(q));
    ClassIs(if s < |src| then src[s] else 0, p, i, cl);
    if s < |src| && Has(src[s], cl) {
      TextMeans(p, next, ps, e, k + 1, src, s + 1, caps, c);
    }
  }

  lemma {:induction false} RepeatMeans(p: seq<Byte>, i: nat, ps: seq<Piece>, e: Ending, k: nat, src: seq<Byte>, s: nat,
                                     caps: seq<Cap>, c: seq<nat>)
    requires PatternOk(ps, e) && k < |ps| && i <= |p| && p[i..] == TextFrom(ps, e, k) && ps[k].Chars? && ps[k].q != Once
    requires s <= |src| && CapsOk(caps, s)
    ensures Decomposed(src, p, s, i, caps, c) == Meaning(ps, e, k, src, s, caps, c)
    decreases |ps| - k, 0
  {
    hide ClassText, SetText, ItemAt, TextFrom, ToClose, Single, Count, Has, AllHave;
    PieceIs(p, i, ps, e, k);
    TextParts(p, i, ps, e, k);
    var cl, q, next := ps[k].cl, ps[k].q, i + |PieceText(ps[k])|;
    StandsParts(p, i, ClassText(cl), RepeatText(q));
    if c != [] {
      CountIs(src, s, p, i, cl, c[0]);
      AllThere(src, s, c[0], cl);
      if Allows(q, c[0]) && AllHave(src, s, c[0], cl) {
        TextMeans(p, next, ps, e, k + 1, src, s + c[0], caps, c[1..]);
      }
    }
  }

  lemma AllThere(src: seq<Byte>, s: nat, k: nat, cl: Class)
    ensures AllHave(src, s, k, cl) ==> s + k <= |src|
  {
  }

  /** The moves that leave no choice */
  function MoveOf(pc: Piece, src: seq<Byte>, s: nat, caps: seq<Cap>): Move
    requires s <= |src| && CapsOk(caps, s) && (pc.Same? || pc.Balanced? || pc.Boundary?)
  {
    match pc
    case Same(n) => BackTo(src, s, caps, n - 1)
    case Balanced(x, y) => BalanceTo(src, s, x, y)
    case Boundary(els, not) =>
      var before, behind := if s == 0 then 0 else src[s - 1], if s == |src| then 0 else src[s];
      if !Has(before, InBrackets(els, not)) && Has(behind, InBrackets(els, not)) then To(s) else Stuck
  }

  lemma StraightMeans(p: seq<Byte>, i: nat, ps: seq<Piece>, e: Ending, k: nat, src: seq<Byte>, s: nat,
                      caps: seq<Cap>, c: seq<nat>)
    requires PatternOk(ps, e) && k < |ps| && i <= |p| && p[i..] == TextFrom(ps, e, k)
    requires s <= |src| && CapsOk(caps, s) && (ps[k].Same? || ps[k].Balanced? || ps[k].Boundary?)
    ensures Meaning(ps, e, k, src, s, caps, c) ==
            match Straight(src, p, s, i, caps)
            case To(s') => Meaning(ps, e, k + 1, src, s', caps, c)
            case Fault(err) => Wrong(c, err)
            case _ => Fail
  {
    hide Straight, TextFrom, Has, BackTo, BalanceTo, MoveOf, PieceText;
    StraightIs(p, i, ps, e, k, src, s, caps);
    MoveMeans(ps, e, k, src, s, caps, c);
  }

  lemma StraightIs(p: seq<Byte>, i: nat, ps: seq<Piece>, e: Ending, k: nat, src: seq<Byte>, s: nat, caps: seq<Cap>)
    requires PatternOk(ps, e) && k < |ps| && i <= |p| && p[i..] == TextFrom(ps, e, k)
    requires s <= |src| && CapsOk(caps, s) && (ps[k].Same? || ps[k].Balanced? || ps[k].Boundary?)
    ensures Straight(src, p, s, i, caps) == MoveOf(ps[k], src, s, caps)
  {
    hide SetText, ItemAt, TextFrom, InSet, BackTo, BalanceTo, HasElem, ElemOk;
    PieceIs(p, i, ps, e, k);
    TextParts(p, i, ps, e, k);
    ItemMoves(p, i);
    if ps[k].Boundary? {
      var els, not := ps[k].els, ps[k].not;
      StandsParts(p, i, [37, 102], SetText(els, not));
      SetIs(if s == 0 then 0 else src[s - 1], p, i + 2, els, not);
      SetIs(At(src, s), p, i + 2, els, not);
    }
  }

  lemma MoveMeans(ps: seq<Piece>, e: Ending, k: nat, src: seq<Byte>, s: nat, caps: seq<Cap>, c: seq<nat>)
    requires k < |ps| && PieceOk(ps[k])
    requires s <= |src| && CapsOk(caps, s) && (ps[k].Same? || ps[k].Balanced? || ps[k].Boundary?)
    ensures Meaning(ps, e, k, src, s, caps, c) ==
            match MoveOf(ps[k], src, s, caps)
            case To(s') => Meaning(ps, e, k + 1, src, s', caps, c)
            case Fault(err) => Wrong(c, err)
            case _ => Fail
  {
    hide Has, BalanceEnd;
  }

  lemma {:induction false} TextPrefers(p: seq<Byte>, i: nat, ps: seq<Piece>, e: Ending, k: nat)
    requires PatternOk(ps, e) && k <= |ps| && i <= |p| && p[i..] == TextFrom(ps, e, k)
    ensures Greedy(p, i) == Prefers(ps, k)
    decreases |ps| - k
  {
    hide PieceText, ItemAt, TextFrom;
    if k == |ps| {
      EndingRead(p, i, ps, e);
    } else {
      PieceIs(p, i, ps, e, k);
      TextPrefers(p, i + |PieceText(ps[k])|, ps, e, k + 1);
    }
  }

  // ---- What `match` does with the text of a pattern.

  /** How many pieces make it call itself */
  function Weight(ps: seq<Piece>, k: nat): nat
    requires k <= |ps|
    decreases |ps| - k
  {
    if k == |ps| then 0
    else
      (if ps[k].Opening? || ps[k].Position? || ps[k].Closing? || (ps[k].Chars? && ps[k].q != Once) then 1 else 0)
      + Weight(ps, k + 1)
  }

  lemma {:induction false} CallsAre(p: seq<Byte>, i: nat, ps: seq<Piece>, e: Ending, k: nat)
    requires PatternOk(ps, e) && k <= |ps| && i <= |p| && p[i..] == TextFrom(ps, e, k)
    ensures Calls(p, i) == Weight(ps, k)
    decreases |ps| - k
  {
    hide PieceText, ItemAt, TextFrom;
    if k == |ps| {
      EndingRead(p, i, ps, e);
    } else {
      PieceIs(p, i, ps, e, k);
      CallsAre(p, i + |PieceText(ps[k])|, ps, e, k + 1);
    }
  }

  /** c is the preferred one of all ways through the pieces that lead somewhere, and r is where it leads; or there is
      none. */
  ghost predicate Preferred(ps: seq<Piece>, e: Ending, src: seq<Byte>, s: nat, r: Outcome, c: seq<nat>)
    requires s <= |src|
  {
    if r.Fail? then forall x {:trigger Meaning(ps, e, 0, src, s, [], x)} :: Meaning(ps, e, 0, src, s, [], x).Fail?
    else
      && Meaning(ps, e, 0, src, s, [], c) == r
      && forall x {:trigger Meaning(ps, e, 0, src, s, [], x)} ::
           Meaning(ps, e, 0, src, s, [], x).Fail? || x == c || Before(Prefers(ps, 0), c, x)
  }

  /** Of all ways through the pieces of a pattern, `match` goes the preferred one, for every subject. */
  lemma MatchMeans(ps: seq<Piece>, e: Ending, src: seq<Byte>, s: nat) returns (c: seq<nat>)
    requires PatternOk(ps, e) && Weight(ps, 0) < LJ_MAX_XLEVEL && s <= |src|
    ensures Preferred(ps, e, src, s, Match(src, TextFrom(ps, e, 0), s, 0, [], 0), c)
  {
    hide Match, Decomposed, Greedy, Meaning, Before, TextFrom, Weight, Prefers;
    var p := TextFrom(ps, e, 0);
    assert p[0..] == p;
    CallsAre(p, 0, ps, e, 0);
    TextPrefers(p, 0, ps, e, 0);
    c := SimpleIsFirst(src, p, s);
    forall x
      ensures Decomposed(src, p, s, 0, [], x) == Meaning(ps, e, 0, src, s, [], x)
    {
      TextMeans(p, 0, ps, e, 0, src, s, [], x);
    }
  }

  // ---- A single class with a quantifier

  /** If just n characters from s on are in the class: `*` and `+` take them all, `-` takes none, and `?` at most
      one; only `+` fails if there are none. */
  lemma QuantifierLaws(cl: Class, src: seq<Byte>, s: nat, n: nat)
    requires ClassOk(cl) && AllHave(src, s, n, cl) && !AllHave(src, s, n + 1, cl)
    ensures Match(src, ClassText(cl) + ['*' as int], s, 0, [], 0) == Found(s + n, [])
    ensures Match(src, ClassText(cl) + ['+' as int], s, 0, [], 0) == if n > 0 then Found(s + n, []) else Fail
    ensures Match(src, ClassText(cl) + ['-' as int], s, 0, [], 0) == Found(s, [])
    ensures Match(src, ClassText(cl) + ['?' as int], s, 0, [], 0) == Found(if n > 0 then s + 1 else s, [])
  {
    hide ClassText, AllHave;
    OnlyLaw(cl, AnyNumber, src, s, n);
    OnlyLaw(cl, AtLeastOnce, src, s, n);
    OnlyLaw(cl, AsFewAsPossible, src, s, n);
    OnlyLaw(cl, AtMostOnce, src, s, n);
  }

  lemma OnlyLaw(cl: Class, q: Repeat, src: seq<Byte>, s: nat, n: nat)
    requires ClassOk(cl) && AllHave(src, s, n, cl) && !AllHave(src, s, n + 1, cl) && q != Once
    ensures s + n <= |src|
    ensures Match(src, ClassText(cl) + RepeatText(q), s, 0, [], 0) == Law(q, s, n)
  {
    hide ClassText, ItemAt, Count, Single, Match, Has, RepeatText, ClassEnd, Law;
    var t := ClassText(cl);
    var p := t + RepeatText(q);
    StandsWhole(p);
    StandsParts(p, 0, t, RepeatText(q));
    CharsIs(p, 0, cl, q);
    CountIs(src, s, p, 0, cl, n);
    CountIs(src, s, p, 0, cl, n + 1);
    EndingIs(p, |p|, Plain);
    RunLaw(src, p, s, |t|, q, n);
  }

  /** Where n characters that are in the class, and no more, lead */
  function Law(q: Repeat, s: nat, n: nat): Outcome {
    match q
    case AtLeastOnce => if n > 0 then Found(s + n, []) else Fail
    case AsFewAsPossible => Found(s, [])
    case AtMostOnce => Found(if n > 0 then s + 1 else s, [])
    case _ => Found(s + n, [])
  }

  lemma RunLaw(src: seq<Byte>, p: seq<Byte>, s: nat, ep: nat, q: Repeat, n: nat)
    requires p != [] && s + n <= |src| && ClassEnd(p, 0) == EndAt(ep) && Count(src, s, p, 0, ep) == n && q != Once
    requires ItemAt(p, 0) == Item.Chars(ep, QuantifierOf(q), |p|) && ItemAt(p, |p|) == End
    ensures Match(src, p, s, 0, [], 0) == Law(q, s, n)
  {
    hide ItemAt, ClassEnd, Single, Count;
    CountStep(src, s, p, 0, ep);
    EndFound(src, p, s + n);
    EndFound(src, p, s);
    assert Match(src, p, s, 0, [], 0) == Run(src, p, s, 0, [], 1);
    if n > 0 {
      EndFound(src, p, s + 1);
      assert q == AtLeastOnce ==> Longest(src, p, s + 1, 0, [], 1, n - 1) == Found(s + 1 + (n - 1), []);
    }
    assert q == AnyNumber ==> Longest(src, p, s, 0, [], 1, n) == Found(s + n, []);
    assert q == AsFewAsPossible ==> Shortest(src, p, s, 0, [], 1) == Found(s, []);
  }

  lemma EndFound(src: seq<Byte>, p: seq<Byte>, s: nat)
    requires s <= |src| && ItemAt(p, |p|) == End
    ensures Match(src, p, s, |p|, [], 1) == Found(s, []) && Run(src, p, s, |p|, [], 1) == Found(s, [])
  {
  }

  lemma StandsWhole(p: seq<Byte>)
    ensures Stands(p, 0, p)
  {
    assert p[0..0 + |p|] == p;
  }

  lemma CountStep(src: seq<Byte>, s: nat, p: seq<Byte>, i: nat, ep: nat)
    requires s <= |src| && i < |p| && ClassEnd(p, i) == EndAt(ep)
    ensures s < |src| && Single(src[s], p, i, ep) ==> Count(src, s, p, i, ep) == 1 + Count(src, s + 1, p, i, ep)
    ensures !(s < |src| && Single(src[s], p, i, ep)) ==> Count(src, s, p, i, ep) == 0
  {
  }
}
