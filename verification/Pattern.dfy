/** Lua patterns (`lib_string.c`; section 5.4.1 of the Lua 5.1 Reference Manual): what a pattern item is,
    how a pattern decomposes a subject, and which decomposition comes first. */
module Pattern {

  type Byte = x: int | 0 <= x < 256

  const LUA_MAXCAPTURES := 32
  const LJ_MAX_XLEVEL := 200
  const CAP_UNFINISHED := -1
  const CAP_POSITION := -2

  const ESC := 37  // '%'

  datatype Error =
    | StrCapI  // invalid capture index
    | StrPatC  // invalid pattern capture
    | StrPatE  // malformed pattern (ends with '%')
    | StrPatM  // malformed pattern (missing ']')
    | StrPatU  // unbalanced pattern
    | StrPatB  // missing '[' after '%f' in pattern
    | StrPatX  // pattern too complex
    | StrCapN  // too many captures
    | StrCapU  // unfinished capture
    | StrGsrV  // invalid replacement value

  /** A C string: the terminator is read behind the end. */
  function At(p: seq<Byte>, i: nat): Byte {
    if i < |p| then p[i] else 0
  }

  // ---- Character classes.

  predicate Digit(c: Byte) { 48 <= c <= 57 }

  predicate Upper(c: Byte) { 65 <= c <= 90 }

  predicate Lower(c: Byte) { 97 <= c <= 122 }

  predicate Alnum(c: Byte) { Digit(c) || Upper(c) || Lower(c) }

  predicate Punct(c: Byte) { 33 <= c <= 126 && !Alnum(c) }

  /** The classes by lower case letter. */
  predicate IsA(c: Byte, letter: Byte) {
    match letter
    case 97 => Upper(c) || Lower(c)
    case 99 => c < 32 || c == 127
    case 100 => Digit(c)
    case 103 => Alnum(c) || Punct(c)
    case 108 => Lower(c)
    case 112 => Punct(c)
    case 115 => 9 <= c <= 13 || c == 32
    case 117 => Upper(c)
    case 119 => Alnum(c)
    case 120 => Digit(c) || 65 <= c <= 70 || 97 <= c <= 102
    case 122 => c == 0
    case _ => false
  }

  predicate IsClass(letter: Byte) {
    letter in {97, 99, 100, 103, 108, 112, 115, 117, 119, 120, 122}
  }

  /** `match_class`: an upper case letter stands for the complement. */
  predicate MatchClass(c: Byte, cl: Byte) {
    if Lower(cl) && IsClass(cl) then IsA(c, cl)
    else if Upper(cl) && IsClass(cl + 32) then !IsA(c, cl + 32)
    else cl == c
  }

  // ---- Sets in brackets.

  datatype EndOf = EndAt(ep: nat) | NoEnd(err: Error)

  /** Where the set goes on after position i: behind the closing bracket. */
  function SetEnd(p: seq<Byte>, i: nat): (r: EndOf)
    requires i <= |p|
    ensures r.EndAt? ==> i + 1 < r.ep <= |p| && p[r.ep - 1] == 93
    ensures r.NoEnd? ==> r.err == StrPatM
    decreases |p| - i
  {
    if At(p, i) == 0 then NoEnd(StrPatM)
    else
      var j := if p[i] == ESC && At(p, i + 1) != 0 then i + 2 else i + 1;
      if At(p, j) == 93 then EndAt(j + 1) else SetEnd(p, j)
  }

  /** `classend`: the end of the single character class at i. */
  function ClassEnd(p: seq<Byte>, i: nat): (r: EndOf)
    requires i < |p|
    ensures r.EndAt? ==> i < r.ep <= |p|
    ensures r.NoEnd? ==> r.err == StrPatM || r.err == StrPatE
    ensures r.EndAt? && p[i] == 91 ==> i + 2 < r.ep && p[r.ep - 1] == 93
  {
    if p[i] == ESC then
      if At(p, i + 1) == 0 then NoEnd(StrPatE) else EndAt(i + 2)
    else if p[i] == 91 then SetEnd(p, if At(p, i + 1) == 94 then i + 2 else i + 1)
    else EndAt(i + 1)
  }

  /** An element of a set: a class, a range or a character, and where the next one is. */
  datatype Element = Class(cl: Byte, next: nat) | Range(lo: Byte, hi: Byte, next: nat)

  function ElementAt(p: seq<Byte>, k: nat, ec: nat): (r: Element)
    requires k < ec < |p|
    ensures r.next > k
  {
    if p[k] == ESC then Class(p[k + 1], k + 2)
    else if p[k + 1] == 45 && k + 2 < ec then Range(p[k], p[k + 2], k + 3)
    else Range(p[k], p[k], k + 1)
  }

  predicate InElement(c: Byte, e: Element) {
    match e
    case Class(cl, _) => MatchClass(c, cl)
    case Range(lo, hi, _) => lo <= c <= hi
  }

  /** Some element from position k on, up to the closing bracket at ec, has the character. */
  predicate InElements(c: Byte, p: seq<Byte>, k: nat, ec: nat)
    requires ec < |p|
    decreases ec - k
  {
    k < ec && (InElement(c, ElementAt(p, k, ec)) || InElements(c, p, ElementAt(p, k, ec).next, ec))
  }

  /** The set that starts at i and whose closing bracket is at ec has the character. */
  predicate InSet(c: Byte, p: seq<Byte>, i: nat, ec: nat)
    requires i + 1 < ec < |p|
  {
    if p[i + 1] == 94 then !InElements(c, p, i + 2, ec) else InElements(c, p, i + 1, ec)
  }

  /** `singlematch` */
  predicate Single(c: Byte, p: seq<Byte>, i: nat, ep: nat)
    requires i < |p| && ClassEnd(p, i) == EndAt(ep)
  {
    if p[i] == 46 then true
    else if p[i] == ESC then MatchClass(c, p[i + 1])
    else if p[i] == 91 then InSet(c, p, i, ep - 1)
    else p[i] == c
  }

  // ---- The grammar.

  datatype Quantifier = One | Optional | Star | Plus | Minus

  datatype Item =
    | Open(position: bool, next: nat)
    | Close(next: nat)
    | Balance(x: Byte, y: Byte, next: nat)
    | Frontier(set_: nat, next: nat)
    | Back(l: int, next: nat)
    | End
    | Dollar
    | Chars(ep: nat, q: Quantifier, next: nat)
    | Bad(err: Error)

  function QuantifierAt(p: seq<Byte>, ep: nat): Quantifier {
    match At(p, ep)
    case 63 => Optional
    case 42 => Star
    case 43 => Plus
    case 45 => Minus
    case _ => One
  }

  function CharsAt(p: seq<Byte>, i: nat): Item
    requires i < |p|
  {
    match ClassEnd(p, i)
    case NoEnd(err) => Bad(err)
    case EndAt(ep) =>
      var q := QuantifierAt(p, ep);
      Chars(ep, q, if q == One then ep else ep + 1)
  }

  /** The pattern item at i. */
  function ItemAt(p: seq<Byte>, i: nat): Item
    requires i <= |p|
  {
    var c := At(p, i);
    if c == 0 then End
    else if c == 40 then
      if At(p, i + 1) == 41 then Open(true, i + 2) else Open(false, i + 1)
    else if c == 41 then Close(i + 1)
    else if c == 36 && At(p, i + 1) == 0 then Dollar
    else if c == ESC && At(p, i + 1) == 98 then
      if At(p, i + 2) == 0 || At(p, i + 3) == 0 then Bad(StrPatU) else Balance(At(p, i + 2), At(p, i + 3), i + 4)
    else if c == ESC && At(p, i + 1) == 102 then
      if At(p, i + 2) != 91 then Bad(StrPatB)
      else
        match ClassEnd(p, i + 2)
        case NoEnd(err) => Bad(err)
        case EndAt(ep) => Frontier(i + 2, ep)
    else if c == ESC && Digit(At(p, i + 1)) then Back(At(p, i + 1) - 49, i + 2)
    else CharsAt(p, i)
  }

  predicate Final(t: Item) {
    t.End? || t.Dollar? || t.Bad?
  }

  lemma ItemMoves(p: seq<Byte>, i: nat)
    requires i <= |p|
    ensures !Final(ItemAt(p, i)) ==> i < ItemAt(p, i).next <= |p|
    ensures ItemAt(p, i).Chars? ==> i < |p| && ClassEnd(p, i) == EndAt(ItemAt(p, i).ep)
    ensures ItemAt(p, i).Frontier? ==> ClassEnd(p, i + 2) == EndAt(ItemAt(p, i).next) && p[i + 2] == 91 && i + 2 < |p|
  {
  }

  // ---- Captures.

  datatype Cap = Cap(init: int, len: int)

  predicate CapOk(c: Cap, s: nat) {
    0 <= c.init <= s && (c.len == CAP_UNFINISHED || c.len == CAP_POSITION || 0 <= c.len <= s - c.init)
  }

  /** The captures lie before position s of the subject. */
  predicate CapsOk(caps: seq<Cap>, s: nat) {
    forall k :: 0 <= k < |caps| ==> CapOk(caps[k], s)
  }

  /** `capture_to_close`: the innermost open capture, or -1. */
  function ToClose(caps: seq<Cap>): (l: int)
    ensures -1 <= l < |caps|
    ensures l >= 0 ==> caps[l].len == CAP_UNFINISHED
    ensures forall k :: l < k < |caps| ==> caps[k].len != CAP_UNFINISHED
  {
    if caps == [] then -1
    else if caps[|caps| - 1].len == CAP_UNFINISHED then |caps| - 1
    else ToClose(caps[..|caps| - 1])
  }

  function Closed(caps: seq<Cap>, l: nat, s: nat): seq<Cap>
    requires l < |caps|
  {
    caps[l := Cap(caps[l].init, s - caps[l].init)]
  }

  // ---- Balanced strings.

  /** `matchbalance` from position s on, with `cont` open: the end of the balanced string, or -1. */
  function BalanceEnd(src: seq<Byte>, s: nat, x: Byte, y: Byte, cont: nat): (e: int)
    requires s <= |src| && cont > 0
    ensures e == -1 || s < e <= |src|
    decreases |src| - s
  {
    if s >= |src| then -1
    else if src[s] == y then
      if cont == 1 then s + 1 else BalanceEnd(src, s + 1, x, y, cont - 1)
    else BalanceEnd(src, s + 1, x, y, if src[s] == x then cont + 1 else cont)
  }

  /** How much opens and closes balance; a character that does both closes. */
  function Net(t: seq<Byte>, x: Byte, y: Byte): int {
    if t == [] then 0
    else Net(t[..|t| - 1], x, y) + (if t[|t| - 1] == y then -1 else if t[|t| - 1] == x then 1 else 0)
  }

  lemma NetStep(src: seq<Byte>, from: nat, s: nat, x: Byte, y: Byte)
    requires from <= s < |src|
    ensures Net(src[from..s + 1], x, y) == Net(src[from..s], x, y)
            + (if src[s] == y then -1 else if src[s] == x then 1 else 0)
  {
    assert src[from..s + 1][..s - from] == src[from..s];
  }

  ghost predicate StaysOpen(src: seq<Byte>, from: nat, s: nat, e: int, x: Byte, y: Byte) {
    from <= s && e <= |src| + 1 && forall j :: s <= j < e ==> Net(src[from..j], x, y) >= 0
  }

  /** The balanced string ends where opens and closes are even for the first time; `from` is the
      position behind the opening character. */
  lemma {:induction false} BalanceEndsFirst(src: seq<Byte>, s: nat, x: Byte, y: Byte, cont: nat, from: nat)
    requires from <= s <= |src| && cont > 0 && Net(src[from..s], x, y) + 1 == cont
    ensures var e := BalanceEnd(src, s, x, y, cont);
            && (e >= 0 ==> e > from && Net(src[from..e], x, y) == -1)
            && StaysOpen(src, from, s, if e >= 0 then e else |src| + 1, x, y)
    decreases |src| - s
  {
    hide Net;
    if s < |src| {
      NetStep(src, from, s, x, y);
      if src[s] == y {
        if cont > 1 {
          BalanceEndsFirst(src, s + 1, x, y, cont - 1, from);
        }
      } else {
        BalanceEndsFirst(src, s + 1, x, y, if src[s] == x then cont + 1 else cont, from);
      }
    }
  }

  // ---- Single steps of a match that leave no choice.

  datatype Move = Stay | To(s: nat) | Stuck | Fault(err: Error)

  /** Position captures and back references included: `match_capture` compares with the text of the
      capture; a position capture never matches. */
  function BackTo(src: seq<Byte>, s: nat, caps: seq<Cap>, l: int): Move
    requires s <= |src| && CapsOk(caps, s)
  {
    if !(0 <= l < |caps|) || caps[l].len == CAP_UNFINISHED then Fault(StrCapI)
    else
      var len := caps[l].len;
      if len >= 0 && len <= |src| - s && src[caps[l].init..caps[l].init + len] == src[s..s + len] then To(s + len)
      else Stuck
  }

  function BalanceTo(src: seq<Byte>, s: nat, x: Byte, y: Byte): Move
    requires s <= |src|
  {
    if s == |src| || src[s] != x then Stuck
    else
      var e := BalanceEnd(src, s + 1, x, y, 1);
      if e < 0 then Stuck else To(e)
  }

  predicate FrontierHere(src: seq<Byte>, s: nat, p: seq<Byte>, i: nat, ep: nat)
    requires s <= |src| && i + 2 < ep <= |p|
  {
    !InSet(if s == 0 then 0 else src[s - 1], p, i, ep - 1) && InSet(At(src, s), p, i, ep - 1)
  }
}
