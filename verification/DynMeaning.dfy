/** What action lists are, as `dasm_x86.lua` writes them, and what the code made from them says. */
module DynMeaning {
  import opened DynAsm
  import opened DynLabels
  import opened DynBuffers
  import opened DynLink
  import opened DynEncode

  // ---- Action lists.

  /** A label: the last or the next local one of that number, a global one, or a PC label given by an operand. */
  datatype LabelName = Last(n: int) | Next(n: int) | Global(n: int) | Pc

  datatype Item =
    | Code(b: int)
    | SByte
    | UByte
    | UWord
    | DWord
    | Fill(b: int)
    | Relative
    | Branch(to: LabelName)
    | Address(of: LabelName)
    | Define(n: int)
    | DefinePc
    | AlignTo(n: int)
    | External(x: int, y: int)
    | GoTo(section: int)
    | End

  predicate LabelNameOk(l: LabelName) {
    match l
    case Last(n) => 1 <= n <= 9
    case Next(n) => 1 <= n <= 9
    case Global(n) => 10 <= n <= 246
    case Pc => true
  }

  predicate ItemOk(it: Item) {
    match it
    case Code(b) => 0 <= b < 256
    case Branch(l) => LabelNameOk(l)
    case Address(l) => LabelNameOk(l)
    case AlignTo(n) => n in {2, 4, 8, 16, 32, 64, 128, 256}
    case _ => true
  }

  function SpellLabel(l: LabelName): seq<int> {
    match l
    case Last(n) => [n]
    case Next(n) => [n + 246]
    case Global(n) => [n]
    case Pc => []
  }

  /** The bytes that an item is written as; code that could be taken for an action is escaped. */
  function Spell(it: Item): seq<int> {
    match it
    case Code(b) => if b >= 233 then [252, b] else [b]
    case SByte => [234]
    case UByte => [235]
    case UWord => [236]
    case DWord => [237]
    case Fill(b) => [241, b]
    case Relative => [243]
    case Branch(l) => [if l.Pc? then 245 else 244] + SpellLabel(l)
    case Address(l) => [if l.Pc? then 247 else 246] + SpellLabel(l)
    case Define(n) => [248, n]
    case DefinePc => [249]
    case AlignTo(n) => [250, n - 1]
    case External(x, y) => [251, x, y]
    case GoTo(n) => [254, n]
    case End => [255]
  }

  predicate Spelled(al: seq<int>, p: nat, it: Item) {
    ItemOk(it) && p + |Spell(it)| <= |al| && al[p..p + |Spell(it)|] == Spell(it)
  }

  /** Items that an argument of `dasm_put` goes with */
  predicate HasOperand(it: Item) {
    || it in {SByte, UByte, UWord, DWord, Relative, Branch(Pc), Address(Pc), DefinePc} || it.Fill?
  }

  /** The action that the engine finds is the item that was written. */
  predicate Found(it: Item, a: Act) {
    match it
    case Code(b) => a == Byte(b)
    case SByte => a == Imm(1, true)
    case UByte => a == Imm(1, false)
    case UWord => a == Imm(2, false)
    case DWord => a == Imm(4, true)
    case Fill(b) => a == Space(b)
    case Relative => a == RelA
    case Branch(l) => if l.Pc? then a == RefPC(true) else a == RefLG(true, SpellLabel(l)[0])
    case Address(l) => if l.Pc? then a == RefPC(false) else a == RefLG(false, SpellLabel(l)[0])
    case Define(n) => a == LabelLG(n)
    case DefinePc => a == LabelPC
    case AlignTo(n) => a == Align(n - 1)
    case External(x, y) => a == Extern(x, y)
    case GoTo(n) => a == Section(n)
    case End => a == Stop
  }

  lemma SpellBack(al: seq<int>, p: nat, it: Item)
    requires Spelled(al, p, it)
    ensures ItemOk(it) && Found(it, ActAt(al, p)) && NextAct(al, p) == p + |Spell(it)|
    ensures TakesArg(ActAt(al, p)) == HasOperand(it)
  {
    var s := Spell(it);
    forall k | 0 <= k < |s|
      ensures At(al, p + k) == s[k]
    {
      assert al[p + k] == al[p..p + |s|][k];
    }
    assert At(al, p + 0) == s[0];
    if |s| > 1 {
      assert At(al, p + 1) == s[1];
    }
    if |s| > 2 {
      assert At(al, p + 2) == s[2];
    }
  }

  /** Items in a row, up to the first one that ends a call. */
  predicate SpelledAll(al: seq<int>, p: nat, items: seq<Item>)
    decreases |items|
  {
    && items != [] && Spelled(al, p, items[0])
    && if items[0].End? || items[0].GoTo? then |items| == 1 else SpelledAll(al, p + |Spell(items[0])|, items[1..])
  }

  /** The operands of the first k items are that many arguments. */
  function Operands(items: seq<Item>, k: nat): nat
    requires k <= |items|
  {
    if k == 0 then 0 else Operands(items, k - 1) + if HasOperand(items[k - 1]) then 1 else 0
  }

  /** Entry e is for the item, and has the next argument if it takes one. */
  predicate EntryFor(al: seq<int>, e: Entry, it: Item, args: seq<int>, n: nat) {
    && Spelled(al, e.p, it) && e.act == ActAt(al, e.p)
    && (HasOperand(it) ==> n < |args| && e.arg == args[n])
  }

  // ---- Code.

  /** Equal as numbers of 32 bits */
  predicate Same32(x: int, y: int) {
    (x - y) % 0x1_0000_0000 == 0
  }

  /** The label that the entry is about is the one of that name. */
  predicate About(e: Entry, l: LabelName) {
    match l
    case Last(n) => KeyOf(e) == LG(n) && !IsFwd(e)
    case Next(n) => KeyOf(e) == LG(n) && IsFwd(e)
    case Global(n) => KeyOf(e) == LG(n) && !IsFwd(e)
    case Pc => KeyOf(e) == PC(e.arg) && !IsFwd(e)
  }

  /** A branch that has been shrunk takes two bytes from where its opcode began: e9 has become eb, and 0f 8x has
      become a byte with the same condition. */
  predicate ShortForm(t: Linking, out: seq<int>, i: nat, j: nat)
    requires Shape(t) && i < t.s && j < |t.progs[i]|
  {
    var es, end := t.progs[i], t.fins[i][j + 1];
    && j > 0 && es[j - 1].act.Byte? && 2 <= end <= |out|
    && if es[j - 1].act.b == 0xe9 then t.fins[i][j - 1] == end - 2 && out[end - 2] == 0xeb
       else
         && j > 1 && es[j - 2].act == Byte(0x0f) && 0x80 <= es[j - 1].act.b <= 0x8f && t.fins[i][j - 2] == end - 2
         && out[end - 2] / 16 == 7 && out[end - 2] % 16 == es[j - 1].act.b % 16
  }

  /** What the code of an entry says; opcodes of branches may have been rewritten. */
  ghost predicate Says(it: Item, t: Linking, out: seq<int>, w: World, i: nat, j: nat)
    requires Shape(t) && t.s == |t.progs| && i < t.s && j < |t.progs[i]| && ItemOk(it)
  {
    var e, fin, end := t.progs[i][j], t.fins[i][j], t.fins[i][j + 1];
    && 0 <= fin <= end <= |out|
    && match it
       case Code(b) => end == fin + 1 && (out[fin] == b || Covered(t, i, j))
       case SByte => end == fin + 1 && Signed8(out[fin]) == e.arg
       case UByte => end == fin + 1 && out[fin] == e.arg
       case UWord => end == fin + 2 && Value(out[fin..end]) == e.arg
       case DWord => end == fin + 4 && Same32(Value(out[fin..end]), e.arg)
       case Fill(b) => end == fin + e.arg && Filled(out, fin, end, b)
       case Relative => end == fin + 4 && Same32(w.base + end + Value(out[fin..end]), e.arg)
       case Branch(l) =>
         && About(e, l) && IsRel(e.act)
         && if t.shrinks[i][j] != 0 then ShortForm(t, out, i, j)
            else end == fin + 4 && RefersTo(t, out, w, i, j, w.base + end + Value(out[fin..end]))
       case Address(l) =>
         About(e, l) && !IsRel(e.act) && end == fin + 4 && RefersTo(t, out, w, i, j, Value(out[fin..end]))
       case Define(n) => end == fin && KeyOf(e) == LG(n) && IsLabel(e.act)
       case DefinePc => end == fin && KeyOf(e) == PC(e.arg) && IsLabel(e.act)
       case AlignTo(n) => end % n == 0 && end < fin + n && Filled(out, fin, end, 0x90)
       case External(x, y) => end == fin + 4 && Same32(Value(out[fin..end]), w.ext(fin, x, y))
       case GoTo(_) => end == fin
       case End => end == fin
  }

  /** The address x is that of the label that the buffer holds for a reference, or, for the number of a label that
      is defined elsewhere, what the table of globals tells. */
  ghost predicate RefersTo(t: Linking, out: seq<int>, w: World, i: nat, j: nat, x: int)
    requires Shape(t) && t.s == |t.progs| && i < t.s && j < |t.progs[i]|
  {
    var e := t.progs[i][j];
    && e.at in t.m0
    && (t.m0[e.at] < 0 ==> Same32(x, Outer(w, -t.m0[e.at])))
    && forall i2: nat, j2: nat {:trigger IsTarget(t, t.m0[e.at], i2, j2)} ::
         IsTarget(t, t.m0[e.at], i2, j2) ==> Same32(x, w.base + t.fins[i2][j2])
  }

  lemma FourBytesSay(out: seq<int>, fin: int, n: int)
    requires Chunk(out, fin, Bytes(n, 4))
    ensures 0 <= fin && fin + 4 <= |out| && Same32(Value(out[fin..fin + 4]), n)
  {
    hide Bytes, Value;
    assert out[fin..fin + 4] == Bytes(n, 4);
    FourBytes(n);
  }

  lemma Shifted32(x: int, d: int, y: int)
    requires Same32(x, y - d)
    ensures Same32(d + x, y)
  {
    assert d + x - y == x - (y - d);
  }

  lemma CodeSays(al: seq<int>, t: Linking, mem: map<int, int>, out: seq<int>, w: World, i: nat, j: nat, it: Item)
    requires AllLinked(al, t, mem) && i < t.s && j < |t.progs[i]| && CodeAt(t, out, w, i, j)
    requires Spelled(al, t.progs[i][j].p, it) && ItemOk(it)
    ensures Says(it, t, out, w, i, j)
  {
    hide ProgsOk, Laid, MemOk, AllShrinks, PlainCode, RefCode, LaidAt, Spelled, Spell, Bytes, Value, ActAt, SectionOk;
    var e, fin, end := t.progs[i][j], t.fins[i][j], t.fins[i][j + 1];
    SpellBack(al, e.p, it);
    ActIsRead(al, t, mem, i, j);
    StillLaid(al, t, mem, i, j);
    Lengths(t, i, j);
    if it.Branch? || it.Address? {
      RefSays(al, t, mem, out, w, i, j, it);
    } else {
      PlainSays(al, t, mem, out, w, i, j, it);
    }
  }

  lemma ActIsRead(al: seq<int>, t: Linking, mem: map<int, int>, i: nat, j: nat)
    requires AllLinked(al, t, mem) && i < t.s && j < |t.progs[i]|
    ensures t.progs[i][j].act == ActAt(al, t.progs[i][j].p) && EntryOk(al, t.progs[i][j]) && t.fins[i][j] >= 0
  {
    assert SectionOk(al, t.progs[i], i) && EntryOk(al, t.progs[i][j]);
    StartsPositive(al, t, i);
    SectionPlaced(t, i);
    Shorter(al, t.progs[i], i, t.fins[i], t.shrinks[i], 0, j);
  }

  lemma PlainSays(al: seq<int>, t: Linking, mem: map<int, int>, out: seq<int>, w: World, i: nat, j: nat, it: Item)
    requires AllLinked(al, t, mem) && i < t.s && j < |t.progs[i]| && CodeAt(t, out, w, i, j)
    requires ItemOk(it) && !it.Branch? && !it.Address? && Found(it, t.progs[i][j].act) && Exists(t, i, j)
    requires LaidAt(t, i, j)
    ensures Says(it, t, out, w, i, j)
  {
    hide ProgsOk, Laid, MemOk, AllShrinks, RefCode, Bytes, Value, SectionOk;
    var e, fin, end := t.progs[i][j], t.fins[i][j], t.fins[i][j + 1];
    Lengths(t, i, j);
    ImmediateIs(al, t, mem, out, w, i, j);
    match it {
      case Relative =>
        FourBytesSay(out, fin, e.arg - (w.base + fin + 4));
        Shifted32(Value(out[fin..end]), w.base + end, e.arg);
      case External(x, y) => FourBytesSay(out, fin, w.ext(fin, x, y));
      case AlignTo(n) => AlignedUp(fin, n);
      case UByte => ValueOfOne(out, fin);
      case _ =>
    }
  }

  lemma ValueOfOne(out: seq<int>, k: nat)
    requires k < |out|
    ensures Value(out[k..k + 1]) == out[k]
  {
    var s := out[k..k + 1];
    assert s[0] == out[k] && s[1..] == [];
  }

  lemma AlignedUp(fin: int, n: int)
    requires n > 0
    ensures var end := fin + (n - 1 - (fin + (n - 1)) % n); end % n == 0 && end < fin + n
  {
    var x := fin + (n - 1);
    assert x - x % n == x / n * n;
    DivUnique(x / n * n, n, x / n, 0);
  }

  lemma RefSays(al: seq<int>, t: Linking, mem: map<int, int>, out: seq<int>, w: World, i: nat, j: nat, it: Item)
    requires AllLinked(al, t, mem) && i < t.s && j < |t.progs[i]| && CodeAt(t, out, w, i, j)
    requires ItemOk(it) && (it.Branch? || it.Address?) && Found(it, t.progs[i][j].act) && Exists(t, i, j)
    requires LaidAt(t, i, j)
    ensures Says(it, t, out, w, i, j)
  {
    hide ProgsOk, Laid, AllShrinks, PlainCode, Bytes, Value, SectionOk, ShortForm, Near, StaysLong;
    var e, fin, end := t.progs[i][j], t.fins[i][j], t.fins[i][j + 1];
    Lengths(t, i, j);
    assert MemAt(t, mem, i, j);
    if IsRel(e.act) && t.shrinks[i][j] != 0 {
      ShortSays(al, t, mem, out, w, i, j);
      return;
    }
    var d := if IsRel(e.act) then w.base + end else 0;
    if t.m0[e.at] < 0 {
      FourBytesSay(out, fin, Outer(w, -t.m0[e.at]) - d);
      Shifted32(Value(out[fin..end]), d, Outer(w, -t.m0[e.at]));
    }
    forall i2: nat, j2: nat | IsTarget(t, t.m0[e.at], i2, j2)
      ensures Same32(d + Value(out[fin..end]), w.base + t.fins[i2][j2])
    {
      assert RefCode(t, out, w, i, j, i2, j2);
      FourBytesSay(out, fin, w.base + t.fins[i2][j2] - d);
      Shifted32(Value(out[fin..end]), d, w.base + t.fins[i2][j2]);
    }
  }

  lemma ShortSays(al: seq<int>, t: Linking, mem: map<int, int>, out: seq<int>, w: World, i: nat, j: nat)
    requires AllLinked(al, t, mem) && i < t.s && j < |t.progs[i]| && CodeAt(t, out, w, i, j)
    requires IsRel(t.progs[i][j].act) && t.shrinks[i][j] != 0
    ensures ShortForm(t, out, i, j)
  {
    hide ProgsOk, Laid, MemOk, PlainCode, SectionOk;
    assert Exists(t, i, j) && Done(t, i, j);
    var i2, j2 := LinkingReaches(al, t, mem, i, j);
    assert RefCode(t, out, w, i, j, i2, j2);
    ShrinkIs(al, t, mem, i, j);
    OpcodesBefore(al, t, mem, i, j);
  }

  lemma LinkingReaches(al: seq<int>, t: Linking, mem: map<int, int>, i: nat, j: nat) returns (i2: nat, j2: nat)
    requires AllLinked(al, t, mem) && Exists(t, i, j) && IsRel(t.progs[i][j].act) && t.shrinks[i][j] != 0
    ensures t.progs[i][j].at in t.m0 && IsTarget(t, t.m0[t.progs[i][j].at], i2, j2)
  {
    i2, j2 := ShortBranchReaches(al, t, i, j);
  }

  /** A branch is shrunk just if its opcode allows it and its label is near: by the estimates, if the label comes
      behind; by final offsets, counted from the end of the short branch, if it comes before. */
  lemma ShrunkIff(al: seq<int>, t: Linking, mem: map<int, int>, i: nat, j: nat, i2: nat, j2: nat)
    requires AllLinked(al, t, mem) && Exists(t, i, j) && IsRel(t.progs[i][j].act) && t.progs[i][j].at in t.m0
    requires IsTarget(t, t.m0[t.progs[i][j].at], i2, j2)
    ensures var e := t.progs[i][j];
            t.shrinks[i][j] != 0 <==>
              && (e.last == 0xe9 || 0x80 <= e.last <= 0x8f)
              && if Precedes(i, j, i2, j2) then
                   SectionEsts(t.progs, i, i2) + t.progs[i2][j2].est - (e.est + 4) <= 127
                 else t.fins[i2][j2] - (t.fins[i][j] + if e.last == 0xe9 then 1 else 0) >= -128
  {
    var e := t.progs[i][j];
    assert Done(t, i, j) && ShrinkAt(t, i, j);
    if t.shrinks[i][j] != 0 {
      var i3: nat, j3: nat :| IsTarget(t, t.m0[e.at], i3, j3) && Near(t, i, j, i3, j3);
      TargetUnique(al, t, t.m0[e.at], i2, j2, i3, j3);
    }
    if Precedes(i, j, i2, j2) {
      Distances(al, t, i, j, i2, j2);
    } else {
      Distances(al, t, i2, j2, i, j);
      assert LaidAt(t, i2, j2);
    }
  }

  /** Where the opcode of a shrunk branch was */
  lemma OpcodesBefore(al: seq<int>, t: Linking, mem: map<int, int>, i: nat, j: nat)
    requires AllLinked(al, t, mem) && i < t.s && j < |t.progs[i]|
    requires IsRel(t.progs[i][j].act) && t.shrinks[i][j] != 0 && t.shrinks[i][j] == Shrinkable(t.progs[i][j].last)
    ensures var es, op, end := t.progs[i], t.progs[i][j].last, t.fins[i][j + 1];
            && j > 0 && es[j - 1].act == Byte(op)
            && if op == 0xe9 then t.fins[i][j - 1] == end - 2
               else j > 1 && 0x80 <= op <= 0x8f && es[j - 2].act == Byte(0x0f) && t.fins[i][j - 2] == end - 2
  {
    hide ProgsOk, Laid, MemOk, AllShrinks, SectionOk, LaidAt;
    SectionFacts(al, t.progs, i);
    OpcodeBefore(al, t.progs[i], i, j);
    StillLaid(al, t, mem, i, j);
    Lengths(t, i, j);
    StillLaid(al, t, mem, i, j - 1);
    Lengths(t, i, j - 1);
    if t.shrinks[i][j] == 4 {
      StillLaid(al, t, mem, i, j - 2);
      Lengths(t, i, j - 2);
    }
  }
}
