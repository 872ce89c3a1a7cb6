/** Pass 3 of the DynASM engine: the bytes for each entry. */
module DynEncode {
  import opened DynAsm
  import opened DynLabels
  import opened DynBuffers
  import opened DynLink

  /** What pass 3 is given: where the code will be, the answers of `DASM_EXTERN` for an offset and two operands,
      and the table of global labels, which tells of those that are defined elsewhere. */
  datatype World = World(base: int, ext: (int, int, int) -> int, globals: map<int, int>)

  /** The address of a global label that is defined elsewhere */
  function Outer(w: World, idx: int): int {
    if idx in w.globals then w.globals[idx] else 0
  }

  /** The low bytes of a number, the lowest one first. */
  function Bytes(n: int, size: nat): (r: seq<int>)
    ensures |r| == size
    decreases size
  {
    if size == 0 then [] else [n % 256] + Bytes(n / 256, size - 1)
  }

  predicate Chunk(out: seq<int>, at: int, bytes: seq<int>) {
    0 <= at && at + |bytes| <= |out| && out[at..at + |bytes|] == bytes
  }

  predicate Filled(out: seq<int>, from: int, to: int, b: int) {
    0 <= from && to <= |out| && forall x :: from <= x < to ==> out[x] == b
  }

  /** Pass 2 is over. */
  ghost predicate AllLinked(al: seq<int>, t: Linking, mem: map<int, int>) {
    LinkingOk(al, t, mem) && t.s == |t.progs|
  }

  /** The byte was an opcode of a branch that has been shrunk. */
  predicate Covered(t: Linking, i: nat, j: nat)
    requires Shape(t) && i < t.s && j < |t.progs[i]|
  {
    var es := t.progs[i];
    || (j + 1 < |es| && IsRel(es[j + 1].act) && t.shrinks[i][j + 1] != 0)
    || (j + 2 < |es| && IsRel(es[j + 2].act) && t.shrinks[i][j + 2] == 4)
  }

  /** The opcode of a short branch. */
  function ShortOp(op: int): int {
    if op == 0xe9 then 0xeb else op - 0x10
  }

  /** The bytes of an entry other than a reference are in place. */
  predicate PlainCode(t: Linking, out: seq<int>, w: World, i: nat, j: nat)
    requires Shape(t) && i < t.s && j < |t.progs[i]|
  {
    var e, fin, end := t.progs[i][j], t.fins[i][j], t.fins[i][j + 1];
    match e.act
    case Byte(b) => (0 <= fin < |out| && out[fin] == b) || Covered(t, i, j)
    case Imm(size, _) => Chunk(out, fin, Bytes(e.arg, size))
    case RelA => Chunk(out, fin, Bytes(e.arg - (w.base + fin + 4), 4))
    case Space(fill) => Filled(out, fin, end, fill)
    case Align(_) => Filled(out, fin, end, 0x90)
    case Extern(x, y) => Chunk(out, fin, Bytes(w.ext(fin, x, y), 4))
    case _ => true
  }

  /** A reference is to where its label at (i2, j2) really is: the code of a branch holds the distance of
      the label from the end of the branch. */
  predicate RefCode(t: Linking, out: seq<int>, w: World, i: nat, j: nat, i2: nat, j2: nat)
    requires Shape(t) && t.s == |t.progs| && i < t.s && j < |t.progs[i]| && Exists(t, i2, j2)
  {
    var e, fin, end, target := t.progs[i][j], t.fins[i][j], t.fins[i][j + 1], t.fins[i2][j2];
    if !IsRel(e.act) then Chunk(out, fin, Bytes(w.base + target, 4))
    else if t.shrinks[i][j] == 0 then Chunk(out, fin, Bytes(target - end, 4))
    else 2 <= end <= |out| && out[end - 2] == ShortOp(e.last) && out[end - 1] == (target - end) % 256
  }

  /** The code of an entry is in place. */
  ghost predicate CodeAt(t: Linking, out: seq<int>, w: World, i: nat, j: nat)
    requires Shape(t) && t.s == |t.progs| && i < t.s && j < |t.progs[i]|
  {
    && 0 <= t.fins[i][j] <= t.fins[i][j + 1] <= |out| && PlainCode(t, out, w, i, j)
    && (IsRef(t.progs[i][j].act) && t.progs[i][j].at in t.m0 ==>
          forall i2: nat, j2: nat {:trigger RefCode(t, out, w, i, j, i2, j2)} ::
            IsTarget(t, t.m0[t.progs[i][j].at], i2, j2) ==> RefCode(t, out, w, i, j, i2, j2))
    && (IsRef(t.progs[i][j].act) && t.progs[i][j].at in t.m0 && t.m0[t.progs[i][j].at] < 0 ==>
          OuterCode(t, out, w, i, j))
  }

  /** A reference to a global label that is defined elsewhere, whose number is in the buffer. */
  predicate OuterCode(t: Linking, out: seq<int>, w: World, i: nat, j: nat)
    requires Shape(t) && i < t.s && j < |t.progs[i]| && t.progs[i][j].at in t.m0
  {
    var e, fin := t.progs[i][j], t.fins[i][j];
    var v := Outer(w, -t.m0[e.at]);
    Chunk(out, fin, Bytes(if IsRel(e.act) then v - (w.base + fin + 4) else v, 4)) && t.fins[i][j + 1] == fin + 4
  }

  lemma ChunkStays(out: seq<int>, out': seq<int>, at: int, bytes: seq<int>, n: int)
    requires Chunk(out, at, bytes) && at + |bytes| <= n <= |out| && n <= |out'| && out[..n] == out'[..n]
    ensures Chunk(out', at, bytes)
  {
    assert out[at..at + |bytes|] == out[..n][at..at + |bytes|];
    assert out'[at..at + |bytes|] == out'[..n][at..at + |bytes|];
  }

  lemma Lengths(t: Linking, i: nat, j: nat)
    requires Shape(t) && i < t.s && j < |t.progs[i]| && Exists(t, i, j) && LaidAt(t, i, j)
    ensures var e, n := t.progs[i][j], t.fins[i][j + 1] - t.fins[i][j];
            && (e.act.Imm? ==> n == e.act.size) && (e.act.RelA? || e.act.Extern? ==> n == 4) && (e.act.Byte? ==> n == 1)
            && (IsRef(e.act) ==> n == if IsRel(e.act) then 4 - t.shrinks[i][j] else 4)
            && (IsLabel(e.act) || Ends(e.act) ==> n == 0) && (e.act.Space? ==> n == e.arg)
  {
  }

  lemma PlainStays(t: Linking, out: seq<int>, out': seq<int>, w: World, i: nat, j: nat)
    requires Shape(t) && i < t.s && j < |t.progs[i]| && PlainCode(t, out, w, i, j) && Exists(t, i, j)
    requires LaidAt(t, i, j)
    requires 0 <= t.fins[i][j] <= t.fins[i][j + 1] <= |out|
    requires t.fins[i][j + 1] <= |out'| && out[..t.fins[i][j + 1]] == out'[..t.fins[i][j + 1]]
    ensures PlainCode(t, out', w, i, j)
  {
    hide Bytes, Size, LaidAt, Covered;
    var e, fin, end := t.progs[i][j], t.fins[i][j], t.fins[i][j + 1];
    Lengths(t, i, j);
    assert forall x :: 0 <= x < end ==> out[x] == out[..end][x] && out'[x] == out'[..end][x];
    match e.act {
      case Imm(size, _) => ChunkStays(out, out', fin, Bytes(e.arg, size), end);
      case RelA => ChunkStays(out, out', fin, Bytes(e.arg - (w.base + fin + 4), 4), end);
      case Extern(x, y) => ChunkStays(out, out', fin, Bytes(w.ext(fin, x, y), 4), end);
      case _ =>
    }
  }

  lemma RefStays(t: Linking, out: seq<int>, out': seq<int>, w: World, i: nat, j: nat, i2: nat, j2: nat)
    requires Shape(t) && t.s == |t.progs| && i < t.s && j < |t.progs[i]| && Exists(t, i2, j2)
    requires IsRef(t.progs[i][j].act)
    requires RefCode(t, out, w, i, j, i2, j2) && Exists(t, i, j) && LaidAt(t, i, j)
    requires 0 <= t.fins[i][j] <= t.fins[i][j + 1] <= |out|
    requires t.fins[i][j + 1] <= |out'| && out[..t.fins[i][j + 1]] == out'[..t.fins[i][j + 1]]
    ensures RefCode(t, out', w, i, j, i2, j2)
  {
    hide Bytes, Size, LaidAt;
    var e, fin, end := t.progs[i][j], t.fins[i][j], t.fins[i][j + 1];
    Lengths(t, i, j);
    assert forall x :: 0 <= x < end ==> out[x] == out[..end][x] && out'[x] == out'[..end][x];
    if !IsRel(e.act) {
      ChunkStays(out, out', fin, Bytes(w.base + t.fins[i2][j2], 4), end);
    } else if t.shrinks[i][j] == 0 {
      ChunkStays(out, out', fin, Bytes(t.fins[i2][j2] - end, 4), end);
    }
  }

  /** Code that is in place stays so while code is added behind it. */
  lemma CodeStays(t: Linking, out: seq<int>, out': seq<int>, w: World, i: nat, j: nat)
    requires Shape(t) && t.s == |t.progs| && i < t.s && j < |t.progs[i]| && CodeAt(t, out, w, i, j)
    requires Exists(t, i, j) && LaidAt(t, i, j)
    requires t.fins[i][j + 1] <= |out'| && out[..t.fins[i][j + 1]] == out'[..t.fins[i][j + 1]]
    ensures CodeAt(t, out', w, i, j)
  {
    hide PlainCode, RefCode, LaidAt;
    PlainStays(t, out, out', w, i, j);
    var e := t.progs[i][j];
    if IsRef(e.act) && e.at in t.m0 {
      forall i2: nat, j2: nat | IsTarget(t, t.m0[e.at], i2, j2)
        ensures RefCode(t, out', w, i, j, i2, j2)
      {
        assert RefCode(t, out, w, i, j, i2, j2);
        RefStays(t, out, out', w, i, j, i2, j2);
      }
      if t.m0[e.at] < 0 {
        OuterStays(t, out, out', w, i, j);
      }
    }
  }

  lemma OuterStays(t: Linking, out: seq<int>, out': seq<int>, w: World, i: nat, j: nat)
    requires Shape(t) && i < t.s && j < |t.progs[i]| && t.progs[i][j].at in t.m0 && OuterCode(t, out, w, i, j)
    requires t.fins[i][j + 1] <= |out| && t.fins[i][j + 1] <= |out'|
    requires out[..t.fins[i][j + 1]] == out'[..t.fins[i][j + 1]]
    ensures OuterCode(t, out', w, i, j)
  {
    hide Bytes;
    var e, fin := t.progs[i][j], t.fins[i][j];
    var v := Outer(w, -t.m0[e.at]);
    ChunkStays(out, out', fin, Bytes(if IsRel(e.act) then v - (w.base + fin + 4) else v, 4), fin + 4);
  }

  // ---- The code so far.

  /** The code of the sections before i and of j entries of section i is in place, except for opcodes of
      branches to be shrunk. */
  ghost predicate Emitted(t: Linking, out: seq<int>, w: World, i: nat, j: nat)
    requires Shape(t) && t.s == |t.progs|
  {
    && (i < t.s ==> j <= |t.progs[i]| && |out| == t.fins[i][j]) && (i == t.s ==> j == 0 && |out| == t.fins[i][0])
       && i <= t.s
    && (i < t.s && j > 0 && t.progs[i][j - 1].act.Byte? ==> |out| >= 1 && out[|out| - 1] == t.progs[i][j - 1].act.b)
    && (forall i2: nat, j2: nat {:trigger CodeAt(t, out, w, i2, j2)} ::
          i2 < t.s && j2 < |t.progs[i2]| && Precedes(i2, j2, i, j) ==> CodeAt(t, out, w, i2, j2))
  }

  /** An entry whose code is added behind the code so far. */
  lemma Appended(al: seq<int>, t: Linking, mem: map<int, int>, out: seq<int>, code: seq<int>,
                 w: World, i: nat, j: nat)
    requires AllLinked(al, t, mem) && i < t.s && j < |t.progs[i]| && Emitted(t, out, w, i, j)
    requires |out + code| == t.fins[i][j + 1] && CodeAt(t, out + code, w, i, j)
    requires t.progs[i][j].act.Byte? ==> code == [t.progs[i][j].act.b]
    ensures Emitted(t, out + code, w, i, j + 1)
  {
    forall i2: nat, j2: nat | i2 < t.s && j2 < |t.progs[i2]| && Precedes(i2, j2, i, j + 1)
      ensures CodeAt(t, out + code, w, i2, j2)
    {
      if i2 != i || j2 != j {
        assert CodeAt(t, out, w, i2, j2) && Exists(t, i2, j2) && LaidAt(t, i2, j2);
        EndsBefore(al, t, mem, i2, j2, i, j);
        assert (out + code)[..t.fins[i2][j2 + 1]] == out[..t.fins[i2][j2 + 1]];
        CodeStays(t, out, out + code, w, i2, j2);
      }
    }
  }

  lemma EndsBefore(al: seq<int>, t: Linking, mem: map<int, int>, i2: nat, j2: nat, i: nat, j: nat)
    requires AllLinked(al, t, mem) && Exists(t, i, j) && Exists(t, i2, j2) && Precedes(i2, j2, i, j)
    ensures 0 <= t.fins[i2][j2 + 1] <= t.fins[i][j]
  {
    Distances(al, t, i2, j2, i, j);
    StartsPositive(al, t, i2);
    SectionPlaced(t, i2);
    assert SectionOk(al, t.progs[i2], i2);
    ShorterToEnd(al, t.progs[i2], i2, t.fins[i2], t.shrinks[i2], j2 + 1);
  }

  // ---- Shrunk branches.

  /** A branch that can be shrunk comes right behind its opcode. */
  lemma OpcodeBefore(al: seq<int>, es: seq<Entry>, s: nat, j: nat)
    requires SectionOk(al, es, s) && j < |es| && IsRel(es[j].act) && Shrinkable(es[j].last) > 0
    ensures j > 0 && es[j - 1].act == Byte(es[j].last)
    ensures Shrinkable(es[j].last) == 4 ==> j > 1 && es[j - 2].act == Byte(0x0f)
  {
    assert EntryOk(al, es[j]);
    if j > 0 {
      assert Follows(al, es[j - 1], es[j]);
      if j > 1 {
        assert Follows(al, es[j - 2], es[j - 1]);
      }
    }
  }

  /** How many opcode bytes a shrunk branch rewrites. */
  function Rewritten(shrink: int): nat {
    if shrink == 4 then 2 else 1
  }

  /** The code with the short form of a branch, at the end. */
  function Shortened(out: seq<int>, op: int, shrink: int, disp: int): seq<int>
    requires |out| >= Rewritten(shrink)
  {
    out[..|out| - Rewritten(shrink)] + [ShortOp(op), disp % 256]
  }

  /** What is there when a branch is about to be shrunk: its opcode is the last code. */
  lemma ShortFacts(al: seq<int>, t: Linking, mem: map<int, int>, out: seq<int>, w: World,
                   i: nat, j: nat)
    requires AllLinked(al, t, mem) && i < t.s && j < |t.progs[i]| && Emitted(t, out, w, i, j)
    requires IsRel(t.progs[i][j].act) && t.shrinks[i][j] != 0
    ensures var e, c := t.progs[i][j], Rewritten(t.shrinks[i][j]);
            && t.shrinks[i][j] == Shrinkable(e.last) && c <= j && t.fins[i][j - c] == |out| - c && c <= |out|
            && out[|out| - 1] == e.last && t.fins[i][j + 1] == |out| - c + 2
            && (forall j2 :: j - c <= j2 < j ==> t.progs[i][j2].act.Byte? && Covered(t, i, j2))
  {
    hide ProgsOk, Laid, MemOk, AllShrinks, PlainCode, RefCode, LaidAt, SectionOk, Emitted;
    ShrinkIs(al, t, mem, i, j);
    SectionFacts(al, t.progs, i);
    OpcodeBefore(al, t.progs[i], i, j);
    StillLaid(al, t, mem, i, j);
    Lengths(t, i, j);
    CodeBefore(al, t, mem, out, w, i, j);
    if t.shrinks[i][j] == 4 {
      OneBefore(al, t, mem, out, w, i, j - 1);
    }
  }

  lemma ShrinkIs(al: seq<int>, t: Linking, mem: map<int, int>, i: nat, j: nat)
    requires AllLinked(al, t, mem) && i < t.s && j < |t.progs[i]| && IsRel(t.progs[i][j].act) && t.shrinks[i][j] != 0
    ensures t.shrinks[i][j] == Shrinkable(t.progs[i][j].last)
  {
    hide ProgsOk, Laid, MemOk;
    assert Exists(t, i, j) && ShrinkAt(t, i, j);
  }

  /** The byte right before the entry. */
  lemma CodeBefore(al: seq<int>, t: Linking, mem: map<int, int>, out: seq<int>, w: World,
                   i: nat, j: nat)
    requires AllLinked(al, t, mem) && i < t.s && j < |t.progs[i]| && Emitted(t, out, w, i, j)
    requires j > 0 && t.progs[i][j - 1].act.Byte?
    ensures |out| >= 1 && out[|out| - 1] == t.progs[i][j - 1].act.b
    ensures |out| == t.fins[i][j] && 0 <= t.fins[i][j - 1] == |out| - 1
  {
    hide ProgsOk, Laid, MemOk, AllShrinks, PlainCode, RefCode;
    assert CodeAt(t, out, w, i, j - 1);
    StillLaid(al, t, mem, i, j - 1);
    Lengths(t, i, j - 1);
  }

  /** The byte before that. */
  lemma OneBefore(al: seq<int>, t: Linking, mem: map<int, int>, out: seq<int>, w: World,
                  i: nat, j: nat)
    requires AllLinked(al, t, mem) && i < t.s && j + 1 < |t.progs[i]| && Emitted(t, out, w, i, j + 1)
    requires j > 0 && t.progs[i][j - 1].act.Byte?
    ensures 0 <= t.fins[i][j - 1] == t.fins[i][j] - 1
  {
    hide ProgsOk, Laid, MemOk, AllShrinks, PlainCode, RefCode;
    assert CodeAt(t, out, w, i, j - 1);
    StillLaid(al, t, mem, i, j - 1);
    Lengths(t, i, j - 1);
  }

  lemma ShortenedOk(al: seq<int>, t: Linking, mem: map<int, int>, out: seq<int>, disp: int,
                    w: World, i: nat, j: nat)
    requires AllLinked(al, t, mem) && i < t.s && j < |t.progs[i]| && Emitted(t, out, w, i, j)
    requires var e := t.progs[i][j];
             IsRel(e.act) && t.shrinks[i][j] != 0 && |out| >= Rewritten(t.shrinks[i][j])
             && e.at in t.m0 && t.m0[e.at] >= 0
             && forall i2: nat, j2: nat {:trigger IsTarget(t, t.m0[e.at], i2, j2)} ::
                                  IsTarget(t, t.m0[e.at], i2, j2) ==> disp == t.fins[i2][j2] - t.fins[i][j + 1]
    ensures Emitted(t, Shortened(out, t.progs[i][j].last, t.shrinks[i][j], disp), w, i, j + 1)
  {
    hide ProgsOk, Laid, MemOk, AllShrinks, PlainCode, RefCode, LaidAt;
    var e, c := t.progs[i][j], Rewritten(t.shrinks[i][j]);
    var out' := Shortened(out, e.last, t.shrinks[i][j], disp);
    ShortFacts(al, t, mem, out, w, i, j);
    ShortCode(t, out', disp, w, i, j);
    forall i2: nat, j2: nat | i2 < t.s && j2 < |t.progs[i2]| && Precedes(i2, j2, i, j)
      ensures CodeAt(t, out', w, i2, j2)
    {
      assert CodeAt(t, out, w, i2, j2);
      if i2 == i && j2 >= j - c {
        CoveredCode(al, t, mem, out, out', w, i, j2, j);
      } else {
        EndsBefore(al, t, mem, i2, j2, i, j - c);
        StillLaid(al, t, mem, i2, j2);
        assert out'[..t.fins[i2][j2 + 1]] == out[..t.fins[i2][j2 + 1]];
        CodeStays(t, out, out', w, i2, j2);
      }
    }
  }

  lemma StillLaid(al: seq<int>, t: Linking, mem: map<int, int>, i: nat, j: nat)
    requires AllLinked(al, t, mem) && i < t.s && j < |t.progs[i]|
    ensures Exists(t, i, j) && LaidAt(t, i, j)
  {
    assert Exists(t, i, j) && Done(t, i, j);
  }

  lemma ShortCode(t: Linking, out: seq<int>, disp: int, w: World, i: nat, j: nat)
    requires Shape(t) && t.s == |t.progs| && i < t.s && j < |t.progs[i]|
    requires var e, end := t.progs[i][j], t.fins[i][j + 1];
             && IsRel(e.act) && t.shrinks[i][j] != 0 && 0 <= t.fins[i][j] <= end == |out| && end >= 2
             && out[end - 2] == ShortOp(e.last) && out[end - 1] == disp % 256
             && e.at in t.m0 && t.m0[e.at] >= 0
             && forall i2: nat, j2: nat {:trigger IsTarget(t, t.m0[e.at], i2, j2)} ::
                                  IsTarget(t, t.m0[e.at], i2, j2) ==> disp == t.fins[i2][j2] - end
    ensures CodeAt(t, out, w, i, j)
  {
    var e := t.progs[i][j];
    forall i2: nat, j2: nat | IsTarget(t, t.m0[e.at], i2, j2)
      ensures RefCode(t, out, w, i, j, i2, j2)
    {
    }
  }

  /** Opcode bytes that have been rewritten. */
  lemma CoveredCode(al: seq<int>, t: Linking, mem: map<int, int>, out: seq<int>, out': seq<int>, w: World, i: nat,
                    j2: nat, j: nat)
    requires AllLinked(al, t, mem) && i < t.s && j2 < j < |t.progs[i]| && t.progs[i][j2].act.Byte? && Covered(t, i, j2)
    requires CodeAt(t, out, w, i, j2) && t.fins[i][j2 + 1] <= |out'|
    ensures CodeAt(t, out', w, i, j2)
  {
  }

  // ---- Walking the buffers once more.

  predicate BetweenIn(es: seq<Entry>, s: nat, k: nat, at: int) {
    if k < |es| then es[k].first && at == es[k].at - 1 else at == EndAt(es, s) - 1
  }

  lemma WalkBegin(al: seq<int>, t: Linking, mem: map<int, int>, s: nat)
    requires AllLinked(al, t, mem) && s < |t.progs|
    ensures BetweenIn(t.progs[s], s, 0, Base(s))
  {
    assert SectionOk(al, t.progs[s], s);
  }

  lemma WalkCall(al: seq<int>, t: Linking, mem: map<int, int>, s: nat, k: nat, at: int)
    requires AllLinked(al, t, mem) && s < |t.progs| && k <= |t.progs[s]| && BetweenIn(t.progs[s], s, k, at)
    ensures at != EndAt(t.progs[s], s) - 1 <==> k < |t.progs[s]|
    ensures k < |t.progs[s]| ==> at in mem && mem[at] == t.progs[s][k].p
  {
    hide SectionOk, Laid, AllShrinks, Complete, EndAt, Slots;
    if k < |t.progs[s]| {
      SectionFacts(al, t.progs, s);
      assert MemAt(t, mem, s, k);
      CallStart(al, t.progs[s], s, k);
    }
  }

  lemma WalkEntry(al: seq<int>, t: Linking, mem: map<int, int>, s: nat, k: nat)
    requires AllLinked(al, t, mem) && s < |t.progs| && k < |t.progs[s]|
    ensures EntryOk(al, t.progs[s][k])
  {
    assert SectionOk(al, t.progs[s], s) && EntryOk(al, t.progs[s][k]);
  }

  lemma WalkInside(al: seq<int>, t: Linking, mem: map<int, int>, s: nat, k: nat)
    requires AllLinked(al, t, mem) && s < |t.progs| && k < |t.progs[s]| && !Ends(t.progs[s][k].act)
    ensures k + 1 < |t.progs[s]| && Follows(al, t.progs[s][k], t.progs[s][k + 1])
  {
    hide SectionOk, Follows, MemOk, AllShrinks, Laid, Ends;
    var es := t.progs[s];
    assert SectionOk(al, es, s) && EndAt(es, s) - 1 <= Base(s + 1) && Complete(es);
    NotLast(al, es, s, k);
  }

  lemma WalkBehind(al: seq<int>, t: Linking, mem: map<int, int>, s: nat, k: nat)
    requires AllLinked(al, t, mem) && s < |t.progs| && k < |t.progs[s]| && Ends(t.progs[s][k].act)
    ensures BetweenIn(t.progs[s], s, k + 1, t.progs[s][k].at + Slots(t.progs[s][k].act))
  {
    var es := t.progs[s];
    assert SectionOk(al, es, s);
    if k + 1 < |es| {
      assert Follows(al, es[k], es[k + 1]);
    }
  }

  // ---- From section to section.

  lemma NothingEmitted(al: seq<int>, t: Linking, mem: map<int, int>, w: World)
    requires AllLinked(al, t, mem)
    ensures Shape(t) && t.s == |t.progs| && Emitted(t, [], w, 0, 0)
  {
  }

  lemma SectionEmitted(al: seq<int>, t: Linking, mem: map<int, int>, out: seq<int>, w: World, i: nat)
    requires AllLinked(al, t, mem) && i < t.s && Emitted(t, out, w, i, |t.progs[i]|)
    ensures Emitted(t, out, w, i + 1, 0)
  {
    assert t.fins[i + 1][0] == t.fins[i][|t.shrinks[i]|];
    forall i2: nat, j2: nat | i2 < t.s && j2 < |t.progs[i2]| && Precedes(i2, j2, i + 1, 0)
      ensures CodeAt(t, out, w, i2, j2)
    {
      assert Precedes(i2, j2, i, |t.progs[i]|);
    }
  }

  lemma AllEmitted(t: Linking, out: seq<int>, w: World)
    requires Shape(t) && t.s == |t.progs| && Emitted(t, out, w, t.s, 0)
    ensures |out| == t.fins[t.s][0]
    ensures forall i: nat, j: nat {:trigger CodeAt(t, out, w, i, j)} :: Exists(t, i, j) ==>
            CodeAt(t, out, w, i, j)
  {
    forall i: nat, j: nat | Exists(t, i, j)
      ensures CodeAt(t, out, w, i, j)
    {
      assert Precedes(i, j, t.s, 0);
    }
  }

  // ---- One entry.

  lemma EntryFacts(al: seq<int>, t: Linking, mem: map<int, int>, out: seq<int>, w: World,
                   i: nat, j: nat)
    requires AllLinked(al, t, mem) && i < t.s && j < |t.progs[i]| && Emitted(t, out, w, i, j)
    ensures var e := t.progs[i][j];
            && (Slots(e.act) > 0 ==> e.at in mem) && (e.act.Space? ==> e.arg >= 0)
               && (e.act.Align? ==> AlignMask(e.act.mask))
            && (e.act.Imm? || e.act.RelA? || e.act.Space? ==> mem[e.at] == e.arg)
            && (IsLabel(e.act) ==> mem[e.at] == |out|) && |out| == t.fins[i][j]
  {
    assert SectionOk(al, t.progs[i], i) && EntryOk(al, t.progs[i][j]) && MemAt(t, mem, i, j);
  }

  /** What the code adds for an entry that is no reference. */
  function PlainBytes(e: Entry, fin: int, w: World): seq<int> {
    match e.act
    case Byte(b) => [b]
    case Imm(size, _) => Bytes(e.arg, size)
    case RelA => Bytes(e.arg - (w.base + fin + 4), 4)
    case Extern(x, y) => Bytes(w.ext(fin, x, y), 4)
    case _ => []
  }

  lemma PlainOk(al: seq<int>, t: Linking, mem: map<int, int>, out: seq<int>, code: seq<int>,
                w: World, i: nat, j: nat)
    requires AllLinked(al, t, mem) && i < t.s && j < |t.progs[i]| && Emitted(t, out, w, i, j)
    requires !IsRef(t.progs[i][j].act)
    requires var e := t.progs[i][j];
             if e.act.Space? then |code| == e.arg && forall x :: 0 <= x < |code| ==> code[x] == e.act.fill
             else if e.act.Align? then
               AlignMask(e.act.mask) && |code| == e.act.mask - (|out| + e.act.mask) % (e.act.mask + 1)
               && forall x :: 0 <= x < |code| ==> code[x] == 0x90
             else code == PlainBytes(e, |out|, w)
    ensures Emitted(t, out + code, w, i, j + 1)
  {
    var e, fin := t.progs[i][j], t.fins[i][j];
    StillLaid(al, t, mem, i, j);
    WalkEntry(al, t, mem, i, j);
    assert (out + code)[fin..fin + |code|] == code;
    PlainNow(al, t, mem, out, code, w, i, j);
    Appended(al, t, mem, out, code, w, i, j);
  }

  lemma PlainNow(al: seq<int>, t: Linking, mem: map<int, int>, out: seq<int>, code: seq<int>,
                 w: World, i: nat, j: nat)
    requires AllLinked(al, t, mem) && i < t.s && j < |t.progs[i]| && |out| == t.fins[i][j] && !IsRef(t.progs[i][j].act)
    requires t.progs[i][j].act != Unknown
    requires var e := t.progs[i][j];
             if e.act.Space? then |code| == e.arg && forall x :: 0 <= x < |code| ==> code[x] == e.act.fill
             else if e.act.Align? then
               AlignMask(e.act.mask) && |code| == e.act.mask - (|out| + e.act.mask) % (e.act.mask + 1)
               && forall x :: 0 <= x < |code| ==> code[x] == 0x90
             else code == PlainBytes(e, |out|, w)
    ensures |out + code| == t.fins[i][j + 1] && CodeAt(t, out + code, w, i, j)
  {
    hide ProgsOk, MemOk, AllShrinks, Bytes;
    var e, fin := t.progs[i][j], t.fins[i][j];
    StillLaid(al, t, mem, i, j);
    assert (out + code)[fin..fin + |code|] == code;
  }

  /** What the code finds for a reference. */
  lemma RefFound(al: seq<int>, t: Linking, mem: map<int, int>, out: seq<int>, w: World,
                 i: nat, j: nat)
    requires AllLinked(al, t, mem) && i < t.s && j < |t.progs[i]| && Emitted(t, out, w, i, j)
    requires IsRef(t.progs[i][j].act)
    ensures var e := t.progs[i][j];
            && |out| == t.fins[i][j] && e.at in mem && e.at in t.m0 && mem[e.at] == t.m0[e.at]
            && t.fins[i][j + 1] == |out| + (if IsRel(e.act) then 4 - t.shrinks[i][j] else 4)
            && (IsRel(e.act) ==> e.at + 1 in mem && mem[e.at + 1] == t.shrinks[i][j] && t.shrinks[i][j] in {0, 3, 4})
            && forall i2: nat, j2: nat {:trigger IsTarget(t, t.m0[e.at], i2, j2)} ::
                 IsTarget(t, t.m0[e.at], i2, j2) ==>
                   t.m0[e.at] > 0 && t.m0[e.at] in mem && mem[t.m0[e.at]] == t.fins[i2][j2]
    ensures IsRel(t.progs[i][j].act) && t.m0[t.progs[i][j].at] < 0 ==> t.shrinks[i][j] == 0
  {
    assert MemAt(t, mem, i, j);
    StillLaid(al, t, mem, i, j);
    Lengths(t, i, j);
    var e := t.progs[i][j];
    forall i2: nat, j2: nat | IsTarget(t, t.m0[e.at], i2, j2)
      ensures t.m0[e.at] in mem && mem[t.m0[e.at]] == t.fins[i2][j2] && t.m0[e.at] > 0
    {
      assert MemAt(t, mem, i2, j2) && SectionOk(al, t.progs[i2], i2);
      PositionsGrow(al, t.progs[i2], i2, j2, j2);
    }
    assert ShrinkAt(t, i, j);
  }

  /** A reference to an undefined global label. */
  lemma OuterOk(al: seq<int>, t: Linking, mem: map<int, int>, out: seq<int>, code: seq<int>,
                w: World, i: nat, j: nat)
    requires AllLinked(al, t, mem) && i < t.s && j < |t.progs[i]| && Emitted(t, out, w, i, j)
    requires IsRef(t.progs[i][j].act)
    requires t.progs[i][j].at in t.m0 && t.m0[t.progs[i][j].at] < 0
    requires var v := Outer(w, -t.m0[t.progs[i][j].at]);
             code == Bytes(if IsRel(t.progs[i][j].act) then v - (w.base + |out| + 4) else v, 4)
    ensures Emitted(t, out + code, w, i, j + 1)
  {
    assert Shape(t);
    hide LinkingOk, Emitted, Bytes;
    RefFound(al, t, mem, out, w, i, j);
    OuterNow(t, mem, out, code, w, i, j);
    Appended(al, t, mem, out, code, w, i, j);
  }

  lemma OuterNow(t: Linking, mem: map<int, int>, out: seq<int>, code: seq<int>, w: World, i: nat, j: nat)
    requires Shape(t) && t.s == |t.progs| && i < t.s && j < |t.progs[i]| && IsRef(t.progs[i][j].act)
    requires t.progs[i][j].at in t.m0 && t.m0[t.progs[i][j].at] < 0
    requires var v := Outer(w, -t.m0[t.progs[i][j].at]);
             code == Bytes(if IsRel(t.progs[i][j].act) then v - (w.base + |out| + 4) else v, 4)
    requires |out| == t.fins[i][j] && t.fins[i][j + 1] == |out| + 4
    requires forall i2: nat, j2: nat {:trigger IsTarget(t, t.m0[t.progs[i][j].at], i2, j2)} ::
               !IsTarget(t, t.m0[t.progs[i][j].at], i2, j2)
    ensures CodeAt(t, out + code, w, i, j)
  {
    hide Bytes;
    assert (out + code)[|out|..|out| + 4] == code;
    assert OuterCode(t, out + code, w, i, j);
  }

  /** A reference that takes four bytes. */
  lemma LongOk(al: seq<int>, t: Linking, mem: map<int, int>, out: seq<int>, code: seq<int>,
               w: World, i: nat, j: nat)
    requires AllLinked(al, t, mem) && i < t.s && j < |t.progs[i]| && Emitted(t, out, w, i, j)
    requires IsRef(t.progs[i][j].act)
    requires var e := t.progs[i][j];
             && (IsRel(e.act) ==> t.shrinks[i][j] == 0) && e.at in t.m0 && t.m0[e.at] >= 0 && |code| == 4
             && forall i2: nat, j2: nat {:trigger IsTarget(t, t.m0[e.at], i2, j2)} ::
                IsTarget(t, t.m0[e.at], i2, j2) ==>
                  code == Bytes(if IsRel(e.act) then t.fins[i2][j2] - t.fins[i][j + 1] else w.base + t.fins[i2][j2], 4)
    ensures Emitted(t, out + code, w, i, j + 1)
  {
    RefFound(al, t, mem, out, w, i, j);
    var e := t.progs[i][j];
    assert (out + code)[|out|..|out| + 4] == code;
    forall i2: nat, j2: nat | IsTarget(t, t.m0[e.at], i2, j2)
      ensures RefCode(t, out + code, w, i, j, i2, j2)
    {
    }
    Appended(al, t, mem, out, code, w, i, j);
  }

  // ---- The table of global labels.

  /** The table when the sections before i and j entries of section i have been encoded. */
  function GlobalsTo(t: Linking, w: World, i: nat, j: nat): map<int, int>
    requires Shape(t) && t.s == |t.progs| && i <= t.s && if i < t.s then j <= |t.progs[i]| else j == 0
    decreases i, j
  {
    if j > 0 then
      var a, g := t.progs[i][j - 1].act, GlobalsTo(t, w, i, j - 1);
      if a.LabelLG? && a.n >= 10 then g[a.n := w.base + t.fins[i][j - 1]] else g
    else if i > 0 then GlobalsTo(t, w, i - 1, |t.progs[i - 1]|)
    else w.globals
  }

  predicate DefinedIn(t: Linking, idx: int, i: nat, j: nat) {
    Exists(t, i, j) && t.progs[i][j].act == LabelLG(idx)
  }

  /** The definition at (i, j) is the last one of the label in the code. */
  ghost predicate LastIn(t: Linking, idx: int, i: nat, j: nat) {
    && DefinedIn(t, idx, i, j)
    && forall i2: nat, j2: nat {:trigger DefinedIn(t, idx, i2, j2)} ::
         DefinedIn(t, idx, i2, j2) ==> !Precedes(i, j, i2, j2)
  }

  /** What the table tells of a label in the end: where its last definition in the code is, or what it told
      before if there is none. */
  ghost predicate GlobalIs(t: Linking, w: World, g: map<int, int>, idx: int)
    requires Shape(t) && t.s == |t.progs|
  {
    if exists i: nat, j: nat {:trigger DefinedIn(t, idx, i, j)} :: DefinedIn(t, idx, i, j) && idx >= 10 then
      exists i: nat, j: nat {:trigger LastIn(t, idx, i, j)} ::
        LastIn(t, idx, i, j) && idx in g && g[idx] == w.base + t.fins[i][j]
    else (idx in g <==> idx in w.globals) && (idx in g ==> g[idx] == w.globals[idx])
  }

  /** The last definition of a label so far, and what the table tells. */
  lemma {:induction false} LatestDefinition(t: Linking, w: World, i: nat, j: nat, idx: int)
    returns (found: bool, i2: nat, j2: nat)
    requires Shape(t) && t.s == |t.progs| && i <= t.s && if i < t.s then j <= |t.progs[i]| else j == 0
    ensures var g := GlobalsTo(t, w, i, j);
            if found then
              DefinedIn(t, idx, i2, j2) && Precedes(i2, j2, i, j) && idx in g && g[idx] == w.base + t.fins[i2][j2]
            else (idx in g <==> idx in w.globals) && (idx in g ==> g[idx] == w.globals[idx])
    ensures idx >= 10 ==>
              forall i3: nat, j3: nat {:trigger DefinedIn(t, idx, i3, j3)} ::
                DefinedIn(t, idx, i3, j3) && Precedes(i3, j3, i, j) ==> found && !Precedes(i2, j2, i3, j3)
    ensures idx < 10 ==> !found
    decreases i, j
  {
    if j > 0 {
      found, i2, j2 := LatestDefinition(t, w, i, j - 1, idx);
      if idx >= 10 && t.progs[i][j - 1].act == LabelLG(idx) {
        found, i2, j2 := true, i, j - 1;
      }
    } else if i > 0 {
      found, i2, j2 := LatestDefinition(t, w, i - 1, |t.progs[i - 1]|, idx);
    } else {
      found, i2, j2 := false, 0, 0;
    }
  }

  /** The table tells nothing new of a label without a definition. */
  lemma StillOuter(t: Linking, w: World, i: nat, j: nat, idx: int)
    requires Shape(t) && t.s == |t.progs| && i <= t.s && if i < t.s then j <= |t.progs[i]| else j == 0
    requires forall i2: nat, j2: nat {:trigger DefinedIn(t, idx, i2, j2)} :: !DefinedIn(t, idx, i2, j2)
    ensures var g := GlobalsTo(t, w, i, j); Outer(w, idx) == if idx in g then g[idx] else 0
  {
    var found, i2, j2 := LatestDefinition(t, w, i, j, idx);
  }

  /** The table in the end. */
  lemma GlobalsAre(t: Linking, w: World, idx: int)
    requires Shape(t) && t.s == |t.progs|
    ensures GlobalIs(t, w, GlobalsTo(t, w, t.s, 0), idx)
  {
    hide GlobalsTo;
    var found, i, j := LatestDefinition(t, w, t.s, 0, idx);
    forall i2: nat, j2: nat | DefinedIn(t, idx, i2, j2)
      ensures Precedes(i2, j2, t.s, 0)
    {
    }
    if found {
      assert LastIn(t, idx, i, j);
    }
  }

  // ---- Where branches land.

  /** A byte as a signed number */
  function Signed8(b: int): int {
    if b >= 128 then b - 256 else b
  }

  /** The number spelled by some bytes, the lowest one first. */
  function Value(bytes: seq<int>): int {
    if bytes == [] then 0 else bytes[0] + 256 * Value(bytes[1..])
  }

  lemma ValueOfBytes(n: int)
    ensures Value(Bytes(n, 4)) == n % 0x1_0000_0000
  {
    var b0, b1, b2, b3 := n % 256, n / 256 % 256, n / 256 / 256 % 256, n / 256 / 256 / 256 % 256;
    assert Bytes(n, 4) == [b0] + Bytes(n / 256, 3);
    assert Bytes(n / 256, 3) == [b1] + Bytes(n / 256 / 256, 2);
    assert Bytes(n / 256 / 256, 2) == [b2] + Bytes(n / 256 / 256 / 256, 1);
    assert Bytes(n / 256 / 256 / 256, 1) == [b3];
    assert Value([b3]) == b3 by {
      assert [b3][1..] == [];
    }
    assert Value([b2, b3]) == b2 + 256 * b3 by {
      assert [b2, b3][1..] == [b3];
    }
    assert Value([b1, b2, b3]) == b1 + 256 * (b2 + 256 * b3) by {
      assert [b1, b2, b3][1..] == [b2, b3];
    }
    assert Value([b0, b1, b2, b3]) == b0 + 256 * (b1 + 256 * (b2 + 256 * b3)) by {
      assert [b0, b1, b2, b3][1..] == [b1, b2, b3];
    }
    assert Bytes(n, 4) == [b0, b1, b2, b3];
  }

  /** Every branch to a label lands on the byte offset of the label: the distance that its code holds, of
      one byte if it has been shrunk and of four bytes otherwise, leads there from its end. */
  lemma BranchLands(al: seq<int>, t: Linking, mem: map<int, int>, out: seq<int>, w: World,
                    i: nat, j: nat, i2: nat, j2: nat)
    requires AllLinked(al, t, mem) && Exists(t, i, j) && IsRel(t.progs[i][j].act) && CodeAt(t, out, w, i, j)
    requires t.progs[i][j].at in t.m0 && IsTarget(t, t.m0[t.progs[i][j].at], i2, j2)
    ensures var end := t.fins[i][j + 1];
            if t.shrinks[i][j] != 0 then 1 <= end <= |out| && end + Signed8(out[end - 1]) == t.fins[i2][j2]
            else 4 <= end <= |out| && (end + Value(out[end - 4..end]) - t.fins[i2][j2]) % 0x1_0000_0000 == 0
  {
    hide ProgsOk, Laid, MemOk, AllShrinks, LaidAt, PlainCode, Bytes, Value;
    var e, end := t.progs[i][j], t.fins[i][j + 1];
    StillLaid(al, t, mem, i, j);
    Lengths(t, i, j);
    assert RefCode(t, out, w, i, j, i2, j2);
    if t.shrinks[i][j] != 0 {
      var i3, j3 := ShortBranchReaches(al, t, i, j);
      TargetUnique(al, t, t.m0[e.at], i2, j2, i3, j3);
      SignedByte(t.fins[i2][j2] - end);
    } else {
      LongLands(out, end, t.fins[i2][j2]);
    }
  }

  lemma SignedByte(d: int)
    requires -128 <= d <= 127
    ensures Signed8(d % 256) == d
  {
  }

  /** The code of an immediate operand holds the argument itself; four bytes hold it modulo 2^32. */
  predicate ImmCode(e: Entry, out: seq<int>, fin: int) {
    e.act.Imm? ==>
      && 0 <= fin && fin + e.act.size <= |out|
      && if e.act.size == 4 then (Value(out[fin..fin + 4]) - e.arg) % 0x1_0000_0000 == 0
         else if e.act.signed then e.act.size == 1 && Signed8(out[fin]) == e.arg
         else Value(out[fin..fin + e.act.size]) == e.arg
  }

  lemma ImmediateIs(al: seq<int>, t: Linking, mem: map<int, int>, out: seq<int>, w: World, i: nat, j: nat)
    requires AllLinked(al, t, mem) && Exists(t, i, j) && CodeAt(t, out, w, i, j)
    ensures ImmCode(t.progs[i][j], out, t.fins[i][j])
  {
    var e, fin := t.progs[i][j], t.fins[i][j];
    assert SectionOk(al, t.progs[i], i) && EntryOk(al, e);
    hide AllLinked, ProgsOk, SectionOk, LinkingOk, Bytes, Value;
    if e.act.Imm? {
      assert Chunk(out, fin, Bytes(e.arg, e.act.size));
      ImmediateBytes(e.arg, e.act.size, e.act.signed);
    }
  }

  lemma ImmediateBytes(n: int, size: nat, signed: bool)
    requires size in {1, 2, 4} && (signed ==> size != 2) && InRange(Imm(size, signed), n)
    ensures |Bytes(n, size)| == size
    ensures if size == 4 then (Value(Bytes(n, 4)) - n) % 0x1_0000_0000 == 0
            else if signed then Signed8(Bytes(n, 1)[0]) == n
            else Value(Bytes(n, size)) == n
  {
    hide Bytes, Value, Signed8;
    if size == 4 {
      FourBytes(n);
    } else if size == 1 {
      OneByte(n);
      if signed {
        SignedByte(n);
      }
    } else {
      TwoBytes(n);
    }
  }

  lemma FourBytes(n: int)
    ensures |Bytes(n, 4)| == 4 && (Value(Bytes(n, 4)) - n) % 0x1_0000_0000 == 0
  {
    hide Bytes, Value;
    ValueOfBytes(n);
    Wraps(0, n);
  }

  lemma TwoBytes(n: int)
    requires 0 <= n < 65536
    ensures |Bytes(n, 2)| == 2 && Value(Bytes(n, 2)) == n
  {
    var low, high := n % 256, n / 256;
    assert 0 <= high < 256;
    OneByte(high);
    assert Bytes(n, 2) == [low] + Bytes(high, 1);
    assert Bytes(n, 2)[1..] == Bytes(high, 1);
  }

  /** The range of an immediate operand is just what its bytes can say. */
  lemma RangeIff(n: int, size: nat, signed: bool)
    requires size in {1, 2} && (signed ==> size == 1)
    ensures InRange(Imm(size, signed), n) <==>
            exists b: seq<int> :: |b| == size && (forall k :: 0 <= k < size ==> 0 <= b[k] < 256)
                                  && n == if signed then Signed8(b[0]) else Value(b)
  {
    if InRange(Imm(size, signed), n) {
      var b := Bytes(n, size);
      ImmediateBytes(n, size, signed);
      BytesInRange(n, size);
      assert |b| == size && n == if signed then Signed8(b[0]) else Value(b);
    }
    forall b: seq<int> | |b| == size && (forall k :: 0 <= k < size ==> 0 <= b[k] < 256)
      ensures Value(b) == if size == 1 then b[0] else b[0] + 256 * b[1]
    {
      ValueOfTwo(b);
    }
  }

  lemma ValueOfTwo(b: seq<int>)
    requires |b| in {1, 2}
    ensures Value(b) == if |b| == 1 then b[0] else b[0] + 256 * b[1]
  {
    if |b| == 1 {
      assert b[1..] == [];
    } else {
      assert b[1..] == [b[1]] && b[1..][1..] == [];
      assert Value(b[1..]) == b[1];
    }
  }

  lemma {:induction false} BytesInRange(n: int, size: nat)
    ensures forall k :: 0 <= k < size ==> 0 <= Bytes(n, size)[k] < 256
    decreases size
  {
    if size > 0 {
      BytesInRange(n / 256, size - 1);
    }
  }

  lemma OneByte(n: int)
    ensures Bytes(n, 1) == [n % 256] && Value(Bytes(n, 1)) == n % 256
  {
    assert Bytes(n, 1) == [n % 256] + Bytes(n / 256, 0);
    assert Bytes(n, 1)[1..] == [];
  }

  lemma LongLands(out: seq<int>, end: int, target: int)
    requires Chunk(out, end - 4, Bytes(target - end, 4))
    ensures 4 <= end <= |out| && (end + Value(out[end - 4..end]) - target) % 0x1_0000_0000 == 0
  {
    ValueOfBytes(target - end);
    assert out[end - 4..end] == Bytes(target - end, 4);
    Wraps(end, target);
  }

  lemma Wraps(end: int, target: int)
    ensures (end + (target - end) % 0x1_0000_0000 - target) % 0x1_0000_0000 == 0
  {
    var m := 0x1_0000_0000;
    var d := target - end;
    assert d == d / m * m + d % m;
    assert end + d % m - target == (-(d / m)) * m;
  }
}
