/** What the text of a pattern means: patterns as they are composed, how they are written, and what they match
    (section 5.4.1 of the Lua 5.1 Reference Manual), told apart from how the matcher reads its text. */
module PatternText {
  import opened Pattern
  import opened Matching

  // ---- Classes of characters.

  datatype Name =
    | Letters | Controls | Digits | Graphic | LowerCase | Punctuation | Spaces | UpperCase | Alphanumeric
    | HexDigits | Zero

  datatype Elem = OneChar(c: Byte) | FromTo(lo: Byte, hi: Byte) | Part(name: Name, not: bool)

  datatype Class =
    | Any
    | Just(c: Byte)
    | Named(name: Name, not: bool)
    | InBrackets(els: seq<Elem>, not: bool)

  const PUNCTUATION := "!\"#$%&'()*+,-./:;<=>?@[\\]^_`{|}~"

  /** The character belongs to the class of that name. */
  predicate Belongs(c: Byte, name: Name) {
    var ch := c as char;
    match name
    case Letters => 'A' <= ch <= 'Z' || 'a' <= ch <= 'z'
    case Controls => ch < ' ' || c == 0x7f
    case Digits => '0' <= ch <= '9'
    case Graphic => '!' <= ch <= '~'
    case LowerCase => 'a' <= ch <= 'z'
    case Punctuation => ch in PUNCTUATION
    case Spaces => ch == ' ' || ch == '\t' || ch == '\n' || ch == '\r' || c == 0x0b || c == 0x0c
    case UpperCase => 'A' <= ch <= 'Z'
    case Alphanumeric => '0' <= ch <= '9' || 'A' <= ch <= 'Z' || 'a' <= ch <= 'z'
    case HexDigits => '0' <= ch <= '9' || 'A' <= ch <= 'F' || 'a' <= ch <= 'f'
    case Zero => c == 0
  }

  predicate HasElem(c: Byte, el: Elem) {
    match el
    case OneChar(x) => c == x
    case FromTo(lo, hi) => lo <= c <= hi
    case Part(name, not) => Belongs(c, name) != not
  }

  /** A set has what one of its elements has; its complement has all the rest. */
  predicate Has(c: Byte, cl: Class) {
    match cl
    case Any => true
    case Just(x) => c == x
    case Named(name, not) => Belongs(c, name) != not
    case InBrackets(els, not) => (exists k :: 0 <= k < |els| && HasElem(c, els[k])) != not
  }

  // ---- How classes are written.

  /** The characters that stand for themselves only behind a %. */
  predicate Magic(c: Byte) {
    (c as char) in "^$()%.[]*+-?"
  }

  function Letter(name: Name): char {
    match name
    case Letters => 'a'
    case Controls => 'c'
    case Digits => 'd'
    case Graphic => 'g'
    case LowerCase => 'l'
    case Punctuation => 'p'
    case Spaces => 's'
    case UpperCase => 'u'
    case Alphanumeric => 'w'
    case HexDigits => 'x'
    case Zero => 'z'
  }

  /** A letter stands for a class of characters, the upper case letter for its complement. */
  function NameText(name: Name, not: bool): seq<Byte> {
    var letter := Letter(name) as int;
    ['%' as int, if not then letter - 32 else letter]
  }

  function CharText(c: Byte): seq<Byte> {
    if Magic(c) then ['%' as int, c] else [c]
  }

  predicate ElemOk(el: Elem) {
    match el
    case OneChar(c) => c != 0
    case FromTo(lo, hi) => lo != 0 && hi != 0 && !Magic(lo) && !Magic(hi)
    case Part(_, _) => true
  }

  function ElemText(el: Elem): seq<Byte> {
    match el
    case OneChar(c) => CharText(c)
    case FromTo(lo, hi) => [lo, '-' as int, hi]
    case Part(name, not) => NameText(name, not)
  }

  function ElemsText(els: seq<Elem>): seq<Byte> {
    if els == [] then [] else ElemText(els[0]) + ElemsText(els[1..])
  }

  predicate ClassOk(cl: Class) {
    match cl
    case Just(c) => c != 0
    case InBrackets(els, _) => els != [] && forall k :: 0 <= k < |els| ==> ElemOk(els[k])
    case _ => true
  }

  function SetText(els: seq<Elem>, not: bool): seq<Byte> {
    (if not then ['[' as int, '^' as int] else ['[' as int]) + ElemsText(els) + [']' as int]
  }

  function ClassText(cl: Class): seq<Byte> {
    match cl
    case Any => ['.' as int]
    case Just(c) => CharText(c)
    case Named(name, not) => NameText(name, not)
    case InBrackets(els, not) => SetText(els, not)
  }

  // ---- The matcher reads classes as they are meant.

  /** The text t is at position i of the pattern. */
  predicate Stands(p: seq<Byte>, i: nat, t: seq<Byte>) {
    i + |t| <= |p| && p[i..i + |t|] == t
  }

  lemma StandsAt(p: seq<Byte>, i: nat, t: seq<Byte>, k: nat)
    requires Stands(p, i, t) && k < |t|
    ensures p[i + k] == t[k]
  {
    assert p[i..i + |t|][k] == t[k];
  }

  lemma StandsParts(p: seq<Byte>, i: nat, a: seq<Byte>, b: seq<Byte>)
    requires Stands(p, i, a + b)
    ensures Stands(p, i, a) && Stands(p, i + |a|, b)
  {
    var t := p[i..i + |a + b|];
    assert t[..|a|] == (a + b)[..|a|] == a && t[|a|..] == (a + b)[|a|..] == b;
  }

  lemma PunctuationIs(c: Byte)
    ensures (c as char) in PUNCTUATION <==> Punct(c)
  {
  }

  lemma MagicIs(c: Byte)
    ensures Magic(c) ==> Punct(c) && c != 0
    ensures Magic(c) <==> c in {94, 36, 40, 41, 37, 46, 91, 93, 42, 43, 45, 63}
  {
  }

  lemma NameMeans(c: Byte, name: Name, not: bool)
    ensures MatchClass(c, NameText(name, not)[1]) == (Belongs(c, name) != not)
  {
    PunctuationIs(c);
  }

  lemma EscapedMeans(c: Byte, x: Byte)
    requires Magic(x)
    ensures MatchClass(c, x) == (c == x)
  {
    MagicIs(x);
  }

  lemma ElemStarts(el: Elem)
    requires ElemOk(el)
    ensures ElemText(el) != [] && ElemText(el)[0] != 0 && ElemText(el)[0] != 93 && ElemText(el)[0] != 45
    ensures ElemText(el)[0] != 94 && (ElemText(el)[0] == ESC ==> |ElemText(el)| == 2 && ElemText(el)[1] != 0)
  {
    if el.OneChar? {
      MagicIs(el.c);
    } else if el.FromTo? {
      MagicIs(el.lo);
    }
  }

  /** One element further, the end of the set is the same. */
  lemma SetEndStep(p: seq<Byte>, j: nat, el: Elem)
    requires ElemOk(el) && Stands(p, j, ElemText(el))
    ensures var n := j + |ElemText(el)|;
            n <= |p| && SetEnd(p, j) == if At(p, n) == 93 then EndAt(n + 1) else SetEnd(p, n)
  {
    var t := ElemText(el);
    StandsAt(p, j, t, 0);
    ElemStarts(el);
    if |t| > 1 {
      StandsAt(p, j, t, 1);
    }
    if el.FromTo? {
      StandsAt(p, j, t, 2);
      MagicIs(el.hi);
      RangeEnd(p, j, el.lo, el.hi);
    } else if el.OneChar? {
      MagicIs(el.c);
    }
  }

  lemma RangeEnd(p: seq<Byte>, j: nat, lo: Byte, hi: Byte)
    requires j + 3 <= |p| && p[j] == lo && p[j + 1] == 45 && p[j + 2] == hi
    requires lo != 0 && lo != ESC && hi != 0 && hi != ESC && hi != 93
    ensures SetEnd(p, j) == if At(p, j + 3) == 93 then EndAt(j + 4) else SetEnd(p, j + 3)
  {
    assert SetEnd(p, j) == SetEnd(p, j + 1);
    assert SetEnd(p, j + 1) == SetEnd(p, j + 2);
  }

  lemma {:induction false} SetEndIs(p: seq<Byte>, j: nat, els: seq<Elem>)
    requires els != [] && (forall k :: 0 <= k < |els| ==> ElemOk(els[k])) && Stands(p, j, ElemsText(els) + [93])
    ensures SetEnd(p, j) == EndAt(j + |ElemsText(els)| + 1)
    decreases |els|
  {
    hide SetEnd, ElemText;
    var first, rest := ElemText(els[0]), ElemsText(els[1..]);
    assert ElemsText(els) + [93] == first + (rest + [93]);
    StandsParts(p, j, first, rest + [93]);
    SetEndStep(p, j, els[0]);
    StandsAt(p, j + |first|, rest + [93], 0);
    if |els| > 1 {
      ElemStarts(els[1]);
      assert (rest + [93])[0] == ElemText(els[1])[0];
      SetEndIs(p, j + |first|, els[1..]);
    }
  }

  /** The matcher takes an element apart from what follows. */
  lemma ElementIs(c: Byte, p: seq<Byte>, j: nat, ec: nat, el: Elem)
    requires ElemOk(el) && Stands(p, j, ElemText(el)) && j + |ElemText(el)| <= ec < |p|
    requires p[j + |ElemText(el)|] != 45
    ensures ElementAt(p, j, ec).next == j + |ElemText(el)| && InElement(c, ElementAt(p, j, ec)) == HasElem(c, el)
  {
    var t := ElemText(el);
    StandsAt(p, j, t, 0);
    ElemStarts(el);
    if |t| > 1 {
      StandsAt(p, j, t, 1);
    }
    match el {
      case OneChar(x) =>
        MagicIs(x);
        if Magic(x) {
          EscapedMeans(c, x);
        }
      case FromTo(lo, hi) =>
        StandsAt(p, j, t, 2);
        MagicIs(lo);
      case Part(name, not) => NameMeans(c, name, not);
    }
  }

  lemma {:induction false} ElementsAre(c: Byte, p: seq<Byte>, j: nat, ec: nat, els: seq<Elem>)
    requires (forall k :: 0 <= k < |els| ==> ElemOk(els[k])) && Stands(p, j, ElemsText(els) + [93])
    requires ec == j + |ElemsText(els)|
    ensures InElements(c, p, j, ec) == exists k :: 0 <= k < |els| && HasElem(c, els[k])
    decreases |els|
  {
    hide ElemText, HasElem, InElement, ElementAt;
    if els != [] {
      var first, rest := ElemText(els[0]), ElemsText(els[1..]);
      assert ElemsText(els) + [93] == first + (rest + [93]);
      StandsParts(p, j, first, rest + [93]);
      StandsAt(p, j + |first|, rest + [93], 0);
      ElemStarts(els[0]);
      if |els| > 1 {
        ElemStarts(els[1]);
        assert (rest + [93])[0] == ElemText(els[1])[0];
      }
      ElementIs(c, p, j, ec, els[0]);
      ElementsAre(c, p, j + |first|, ec, els[1..]);
      SomeElem(c, els);
    }
  }

  lemma SomeElem(c: Byte, els: seq<Elem>)
    requires els != []
    ensures (exists k :: 0 <= k < |els| && HasElem(c, els[k]))
            == (HasElem(c, els[0]) || exists k :: 0 <= k < |els[1..]| && HasElem(c, els[1..][k]))
  {
    if k :| 0 <= k < |els| && HasElem(c, els[k]) && k > 0 {
      assert HasElem(c, els[1..][k - 1]);
    }
    if k :| 0 <= k < |els[1..]| && HasElem(c, els[1..][k]) {
      assert HasElem(c, els[k + 1]);
    }
  }

  /** The parts of a set */
  lemma SetParts(p: seq<Byte>, i: nat, els: seq<Elem>, not: bool)
    requires ClassOk(InBrackets(els, not)) && Stands(p, i, SetText(els, not))
    ensures var j := if not then i + 2 else i + 1;
            && Stands(p, j, ElemsText(els) + [93]) && |SetText(els, not)| == j - i + |ElemsText(els)| + 1
            && j + 1 < |p| && p[i] == 91 && (p[i + 1] == 94 <==> not)
  {
    hide ElemText;
    var open: seq<Byte> := if not then [91, 94] else [91];
    assert SetText(els, not) == open + (ElemsText(els) + [93]);
    StandsParts(p, i, open, ElemsText(els) + [93]);
    StandsAt(p, i, open, 0);
    if not {
      StandsAt(p, i, open, 1);
    }
    ElemStarts(els[0]);
    StandsAt(p, i + |open|, ElemsText(els) + [93], 0);
  }

  lemma SetIs(c: Byte, p: seq<Byte>, i: nat, els: seq<Elem>, not: bool)
    requires ClassOk(InBrackets(els, not)) && Stands(p, i, SetText(els, not))
    ensures var ep := i + |SetText(els, not)|;
            ClassEnd(p, i) == EndAt(ep) && i + 2 < ep <= |p| && InSet(c, p, i, ep - 1) == Has(c, InBrackets(els, not))
  {
    hide SetText, ElemsText, SetEnd, InElements, ElemOk, HasElem;
    SetParts(p, i, els, not);
    var j := if not then i + 2 else i + 1;
    SetEndIs(p, j, els);
    ElementsAre(c, p, j, j + |ElemsText(els)|, els);
  }

  /** The class at i ends where its text ends, and has the characters that it is meant to have. */
  lemma ClassIs(c: Byte, p: seq<Byte>, i: nat, cl: Class)
    requires ClassOk(cl) && Stands(p, i, ClassText(cl))
    ensures i < |p| && ClassText(cl) != [] && ClassEnd(p, i) == EndAt(i + |ClassText(cl)|)
    ensures Single(c, p, i, i + |ClassText(cl)|) == Has(c, cl)
  {
    var t := ClassText(cl);
    match cl {
      case Any => StandsAt(p, i, t, 0);
      case Just(x) =>
        MagicIs(x);
        StandsAt(p, i, t, 0);
        if Magic(x) {
          StandsAt(p, i, t, 1);
          EscapedMeans(c, x);
        }
      case Named(name, not) =>
        StandsAt(p, i, t, 0);
        StandsAt(p, i, t, 1);
        NameMeans(c, name, not);
      case InBrackets(els, not) =>
        SetIs(c, p, i, els, not);
        assert SetText(els, not)[0] == 91;
        StandsAt(p, i, t, 0);
    }
  }
}
