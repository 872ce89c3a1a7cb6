/** The DynASM x86 engine (`dasm_x86.h`): action lists, and the layout of the code they stand for. */
module DynAsm {

  // ---- Actions.

  const DASM_DISP := 233
  const DASM_IMM_S := 234
  const DASM_IMM_B := 235
  const DASM_IMM_W := 236
  const DASM_IMM_D := 237
  const DASM_SPACE := 241
  const DASM_REL_A := 243
  const DASM_REL_LG := 244
  const DASM_REL_PC := 245
  const DASM_IMM_LG := 246
  const DASM_IMM_PC := 247
  const DASM_LABEL_LG := 248
  const DASM_LABEL_PC := 249
  const DASM_ALIGN := 250
  const DASM_EXTERN := 251
  const DASM_ESC := 252
  const DASM_SECTION := 254
  const DASM_STOP := 255

  /** The actions by what they do; `size` is that of an immediate operand in bytes, `signed` is its kind,
      and `rel` tells a relative branch target from an absolute address. */
  datatype Act =
    | Byte(b: int)
    | Imm(size: nat, signed: bool)
    | RelA
    | Space(fill: int)
    | RefLG(rel: bool, n: int)
    | RefPC(rel: bool)
    | LabelLG(n: int)
    | LabelPC
    | Align(mask: int)
    | Extern(x: int, y: int)
    | Section(n: int)
    | Stop
    | Unknown

  /** An action list: bytes, with all operands in place. */
  predicate ListOk(al: seq<int>) {
    forall k :: 0 <= k < |al| ==> 0 <= al[k] < 256
  }

  function At(al: seq<int>, p: int): int {
    if 0 <= p < |al| then al[p] else DASM_STOP
  }

  /** The action at p. */
  function ActAt(al: seq<int>, p: nat): Act {
    var a := At(al, p);
    if a < DASM_DISP then Byte(a)
    else if a == DASM_ESC then Byte(At(al, p + 1))
    else if a == DASM_IMM_S || a == DASM_IMM_B then Imm(1, a == DASM_IMM_S)
    else if a == DASM_IMM_W then Imm(2, false)
    else if a == DASM_IMM_D then Imm(4, true)
    else if a == DASM_REL_A then RelA
    else if a == DASM_SPACE then Space(At(al, p + 1))
    else if a == DASM_REL_LG || a == DASM_IMM_LG then RefLG(a == DASM_REL_LG, At(al, p + 1))
    else if a == DASM_REL_PC || a == DASM_IMM_PC then RefPC(a == DASM_REL_PC)
    else if a == DASM_LABEL_LG then LabelLG(At(al, p + 1))
    else if a == DASM_LABEL_PC then LabelPC
    else if a == DASM_ALIGN then Align(At(al, p + 1))
    else if a == DASM_EXTERN then Extern(At(al, p + 1), At(al, p + 2))
    else if a == DASM_SECTION then Section(At(al, p + 1))
    else if a == DASM_STOP then Stop
    else Unknown
  }

  /** Where the next action is. */
  function NextAct(al: seq<int>, p: nat): nat {
    match ActAt(al, p)
    case Byte(_) => if At(al, p) == DASM_ESC then p + 2 else p + 1
    case Space(_) => p + 2
    case RefLG(_, _) => p + 2
    case LabelLG(_) => p + 2
    case Align(_) => p + 2
    case Extern(_, _) => p + 3
    case Section(_) => p + 2
    case _ => p + 1
  }

  predicate IsRef(a: Act) {
    a.RefLG? || a.RefPC?
  }

  predicate IsRel(a: Act) {
    IsRef(a) && a.rel
  }

  predicate IsLabel(a: Act) {
    a.LabelLG? || a.LabelPC?
  }

  /** The argument is in the range of the immediate operand; a number of four bytes is taken as it is. */
  predicate InRange(a: Act, n: int) {
    a.Imm? && a.size < 4 ==> if a.signed then -128 <= n < 128 else 0 <= n < if a.size == 1 then 0x100 else 0x10000
  }

  /** An argument of `dasm_put` goes with the action. */
  predicate TakesArg(a: Act) {
    a.Imm? || a.RelA? || a.Space? || a.RefPC? || a.LabelPC?
  }

  predicate Ends(a: Act) {
    a.Section? || a.Stop?
  }

  /** How many buffer positions the action takes. */
  function Slots(a: Act): nat {
    match a
    case Byte(_) => 0
    case Extern(_, _) => 0
    case Section(_) => 0
    case Stop => 0
    case RefLG(rel, _) => if rel then 2 else 1
    case RefPC(rel) => if rel then 2 else 1
    case _ => 1
  }

  /** How many bytes of code it may take. */
  function MaxSize(a: Act, arg: int): int {
    match a
    case Byte(_) => 1
    case Imm(size, _) => size
    case RelA => 4
    case Space(_) => arg
    case RefLG(_, _) => 4
    case RefPC(_) => 4
    case Align(mask) => mask
    case Extern(_, _) => 4
    case _ => 0
  }

  // ---- Sections.

  /** The first buffer position of a section: 8 bit section + 24 bit index */
  function Base(s: int): int {
    s * 0x1000000
  }

  /** An action as it was put: its place p in the action list, the buffer position `at` of its operands
      (behind that of `start`, if it is the first one of a call), the estimate of its offset, its
      argument, the last two opcode bytes right before it in the same call (or -1), and the last one
      anywhere before it in the call (or 0). */
  datatype Entry = Entry(act: Act, p: nat, first: bool, at: int, est: int, arg: int, op: int, op2: int, last: int)

  /** The position of the operands of the entry behind e. */
  function AfterAt(e: Entry): int {
    e.at + Slots(e.act) + if Ends(e.act) then 1 else 0
  }

  function AfterEst(e: Entry): int {
    e.est + MaxSize(e.act, e.arg)
  }

  /** Alignment arguments are one less than a power of two; space is not negative, immediate operands are in
      range; and a branch that can be shrunk comes right behind its opcode, e9 or 0f 8x. */
  predicate EntryOk(al: seq<int>, e: Entry) {
    && e.act == ActAt(al, e.p) && e.act != Unknown
    && (e.act.Align? ==> AlignMask(e.act.mask))
    && (e.act.Space? ==> e.arg >= 0) && InRange(e.act, e.arg)
    && (IsRel(e.act) && Shrinkable(e.last) > 0 ==> e.op == e.last)
    && (IsRel(e.act) && Shrinkable(e.last) == 4 ==> e.op2 == 0x0f)
  }

  /** A branch opcode that `dasm_link` shrinks: by how many bytes. */
  function Shrinkable(op: int): int {
    if op == 0xe9 then 3 else if 0x80 <= op < 0x90 then 4 else 0
  }

  /** Entry f follows entry e in a section. */
  predicate Follows(al: seq<int>, e: Entry, f: Entry) {
    && f.at == AfterAt(e) && f.est == AfterEst(e) && f.first == Ends(e.act)
    && (!Ends(e.act) ==> f.p == NextAct(al, e.p))
    && (if e.act.Byte? then f.op == e.act.b && f.op2 == e.op else f.op == -1 && f.op2 == -1)
    && f.last == (if e.act.Byte? then e.act.b else if Ends(e.act) then 0 else e.last)
  }

  ghost predicate SectionOk(al: seq<int>, es: seq<Entry>, s: nat) {
    && (forall k {:trigger EntryOk(al, es[k])} :: 0 <= k < |es| ==> EntryOk(al, es[k]))
    && (es != [] ==>
        es[0].at == Base(s) + 1 && es[0].est == 0 && es[0].first && es[0].op == -1 && es[0].op2 == -1
        && es[0].last == 0)
    && (forall k {:trigger es[k]} :: 0 < k < |es| ==> Follows(al, es[k - 1], es[k]))
  }

  // ---- Final offsets.

  /** The size of an entry at the final offset fin, if it is a branch shrunk by `shrink` bytes. */
  function Size(e: Entry, fin: int, shrink: int): int {
    if e.act.Align? && e.act.mask >= 0 then e.act.mask - (fin + e.act.mask) % (e.act.mask + 1)
    else if IsRel(e.act) then 4 - shrink
    else MaxSize(e.act, e.arg)
  }

  /** The final offsets of the entries of a section, and of its end, given by how much the branches shrink. */
  ghost predicate Placed(es: seq<Entry>, fins: seq<int>, shrinks: seq<int>) {
    && |fins| == |es| + 1 && |shrinks| == |es|
    && forall k {:trigger PlacedAt(es, fins, shrinks, k)} :: 0 <= k < |es| ==> PlacedAt(es, fins, shrinks, k)
  }

  predicate PlacedAt(es: seq<Entry>, fins: seq<int>, shrinks: seq<int>, k: nat)
    requires k < |es| && |fins| == |es| + 1 && |shrinks| == |es|
  {
    fins[k + 1] == fins[k] + Size(es[k], fins[k], shrinks[k]) && shrinks[k] in {0, 3, 4}
  }

  lemma SizeBounds(al: seq<int>, e: Entry, fin: int, shrink: int)
    requires EntryOk(al, e) && fin >= 0 && shrink in {0, 3, 4}
    ensures 0 <= Size(e, fin, shrink) <= MaxSize(e.act, e.arg)
  {
  }

  /** The estimate is the least one: some offset needs it. */
  lemma SizeAttained(al: seq<int>, e: Entry)
    requires EntryOk(al, e)
    ensures exists fin :: fin >= 0 && Size(e, fin, 0) == MaxSize(e.act, e.arg)
  {
    if e.act.Align? {
      var n := e.act.mask + 1;
      assert (1 + e.act.mask) % n == 0;
      assert Size(e, 1, 0) == MaxSize(e.act, e.arg);
    } else {
      assert Size(e, 0, 0) == MaxSize(e.act, e.arg);
    }
  }

  predicate AlignMask(mask: int) {
    mask in {1, 3, 7, 15, 31, 63, 127, 255}
  }

  lemma DivUnique(x: int, m: int, q: int, r: int)
    requires m > 0 && x == q * m + r && 0 <= r < m
    ensures x % m == r && x / m == q
  {
    var d := x / m - q;
    assert d * m == r - x % m;
    assert d > 0 ==> d * m >= m;
    assert d < 0 ==> d * m <= -m;
  }

  /** Rounding up to a multiple: no offset below that is one. */
  lemma AlignUp(fin: int, mask: int, x: int)
    requires fin >= 0 && mask > 0
    ensures var r := fin + mask - (fin + mask) % (mask + 1);
            fin <= r && r % (mask + 1) == 0 && (fin <= x < r ==> x % (mask + 1) != 0)
  {
    var m := mask + 1;
    var q := (fin + mask) / m;
    var r := fin + mask - (fin + mask) % m;
    assert r == q * m;
    DivUnique(r, m, q, 0);
    if fin <= x < r {
      assert x == (q - 1) * m + (x - r + m);
      DivUnique(x, m, q - 1, x - r + m);
    }
  }

  /** Code gets no longer than estimated, and not of negative length. */
  lemma {:induction false} Shorter(al: seq<int>, es: seq<Entry>, s: nat, fins: seq<int>, shrinks: seq<int>, i: nat,
                                   j: nat)
    requires SectionOk(al, es, s) && Placed(es, fins, shrinks) && i <= j < |es| && fins[0] >= 0
    ensures 0 <= fins[i] <= fins[j] && fins[j] - fins[i] <= es[j].est - es[i].est
    decreases j
  {
    if i < j {
      Shorter(al, es, s, fins, shrinks, i, j - 1);
      assert PlacedAt(es, fins, shrinks, j - 1);
      SizeBounds(al, es[j - 1], fins[j - 1], shrinks[j - 1]);
      assert Follows(al, es[j - 1], es[j]);
    } else if 0 < i {
      Shorter(al, es, s, fins, shrinks, i - 1, i - 1);
      assert PlacedAt(es, fins, shrinks, i - 1);
      SizeBounds(al, es[i - 1], fins[i - 1], shrinks[i - 1]);
    }
  }

  /** The same up to the end of the section. */
  lemma ShorterToEnd(al: seq<int>, es: seq<Entry>, s: nat, fins: seq<int>, shrinks: seq<int>, i: nat)
    requires SectionOk(al, es, s) && Placed(es, fins, shrinks) && i <= |es| && fins[0] >= 0
    ensures 0 <= fins[i] <= fins[|es|]
    ensures fins[|es|] - fins[i] <= EndEst(es) - (if i < |es| then es[i].est else EndEst(es))
  {
    if i < |es| {
      var n := |es| - 1;
      Shorter(al, es, s, fins, shrinks, i, n);
      assert PlacedAt(es, fins, shrinks, n);
      SizeBounds(al, es[n], fins[n], shrinks[n]);
    } else if i > 0 {
      ShorterToEnd(al, es, s, fins, shrinks, i - 1);
    }
  }

  function EndEst(es: seq<Entry>): int {
    if es == [] then 0 else AfterEst(es[|es| - 1])
  }

  function EndAt(es: seq<Entry>, s: nat): int {
    if es == [] then Base(s) + 1 else AfterAt(es[|es| - 1])
  }

  lemma {:induction false} EndPositive(al: seq<int>, es: seq<Entry>, s: nat)
    requires SectionOk(al, es, s)
    ensures EndAt(es, s) > 0 && EndAt(es, s) > Base(s)
    decreases |es|
  {
    if es != [] {
      PositionsGrow(al, es, s, 0, |es| - 1);
    }
  }

  /** The positions of the entries go up; those of entries with slots are apart. */
  lemma {:induction false} PositionsGrow(al: seq<int>, es: seq<Entry>, s: nat, i: nat, j: nat)
    requires SectionOk(al, es, s) && i <= j < |es|
    ensures es[i].at <= es[j].at && (i < j ==> es[i].at + Slots(es[i].act) <= es[j].at)
    ensures es[i].at > Base(s)
    decreases j
  {
    hide SectionOk;
    if i < j {
      PositionsGrow(al, es, s, i, j - 1);
      FollowsAt(al, es, s, j);
    } else if i > 0 {
      PositionsGrow(al, es, s, i - 1, i - 1);
      FollowsAt(al, es, s, i);
    } else {
      FirstPosition(al, es, s);
    }
  }

  lemma FollowsAt(al: seq<int>, es: seq<Entry>, s: nat, j: nat)
    requires SectionOk(al, es, s) && 0 < j < |es|
    ensures Follows(al, es[j - 1], es[j])
  {
  }

  lemma FirstPosition(al: seq<int>, es: seq<Entry>, s: nat)
    requires SectionOk(al, es, s) && es != []
    ensures es[0].at == Base(s) + 1
  {
  }
}
