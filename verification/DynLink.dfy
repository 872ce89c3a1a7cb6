/** Pass 2 of the DynASM engine: final offsets, and which branches may be shrunk. */
module DynLink {
  import opened DynAsm
  import opened DynLabels
  import opened DynBuffers

  /** How far pass 2 has come: sections before s are done, and k entries of section s. `fins` and
      `shrinks` are the final offsets and the savings of the entries done; `m0` are the section
      buffers before the pass. */
  datatype Linking = Linking(progs: seq<seq<Entry>>, m0: map<int, int>, fins: seq<seq<int>>, shrinks: seq<seq<int>>,
                             s: nat, k: nat)

  predicate Shape(t: Linking) {
    && t.s <= |t.progs| && |t.fins| == t.s + 1 && |t.shrinks| == t.s + 1
    && (t.s < |t.progs| ==> t.k <= |t.progs[t.s]|) && (t.s == |t.progs| ==> t.k == 0)
    && (forall i {:trigger t.fins[i]} {:trigger t.shrinks[i]} :: 0 <= i <= t.s ==>
          |t.fins[i]| == |t.shrinks[i]| + 1 && |t.shrinks[i]| == if i < t.s then |t.progs[i]| else t.k)
  }

  predicate Exists(t: Linking, i: nat, j: nat) {
    i < |t.progs| && j < |t.progs[i]|
  }

  predicate Done(t: Linking, i: nat, j: nat) {
    i < t.s || (i == t.s && j < t.k)
  }

  /** Each section starts where the one before it ends, and each entry behind the one before it. */
  ghost predicate Laid(t: Linking)
    requires Shape(t)
  {
    && t.fins[0][0] == 0
    && (forall i {:trigger t.fins[i]} :: 0 < i <= t.s ==> t.fins[i][0] == t.fins[i - 1][|t.shrinks[i - 1]|])
    && (forall i: nat, j: nat {:trigger LaidAt(t, i, j)} :: Exists(t, i, j) && Done(t, i, j) ==> LaidAt(t, i, j))
  }

  predicate LaidAt(t: Linking, i: nat, j: nat)
    requires Shape(t) && Exists(t, i, j) && Done(t, i, j)
  {
    t.fins[i][j + 1] == t.fins[i][j] + Size(t.progs[i][j], t.fins[i][j], t.shrinks[i][j])
      && t.shrinks[i][j] in {0, 3, 4}
  }

  /** What the buffers hold for an entry while linking: the final offset of a label and the savings of a
      branch once they are known, and else the estimates. */
  predicate MemAt(t: Linking, mem: map<int, int>, i: nat, j: nat)
    requires Shape(t) && Exists(t, i, j)
  {
    var e := t.progs[i][j];
    && (e.first ==> e.at - 1 in mem && mem[e.at - 1] == e.p)
    && (Slots(e.act) > 0 ==> e.at in mem && e.at in t.m0)
    && (IsLabel(e.act) ==> mem[e.at] == if Done(t, i, j) then t.fins[i][j] else e.est)
    && (Slots(e.act) > 0 && !IsLabel(e.act) ==> mem[e.at] == t.m0[e.at])
    && (e.act.Imm? || e.act.RelA? || e.act.Space? ==> mem[e.at] == e.arg)
    && (e.act.Align? ==> mem[e.at] == AfterEst(e))
    && (IsRel(e.act) ==> e.at + 1 in mem && mem[e.at + 1] == if Done(t, i, j) then t.shrinks[i][j] else AfterEst(e))
  }

  ghost predicate MemOk(t: Linking, mem: map<int, int>)
    requires Shape(t)
  {
    forall i: nat, j: nat {:trigger MemAt(t, mem, i, j)} :: Exists(t, i, j) ==> MemAt(t, mem, i, j)
  }

  /** The label entry at a buffer position. */
  predicate IsTarget(t: Linking, lpos: int, i: nat, j: nat) {
    Exists(t, i, j) && IsLabel(t.progs[i][j].act) && t.progs[i][j].at == lpos
  }

  predicate Precedes(i: nat, j: nat, i2: nat, j2: nat) {
    i < i2 || (i == i2 && j < j2)
  }

  /** The estimates of the sizes of the sections from i up to i2. */
  function SectionEsts(progs: seq<seq<Entry>>, i: nat, i2: nat): int
    requires i <= i2 <= |progs|
    decreases i2 - i
  {
    if i == i2 then 0 else EndEst(progs[i]) + SectionEsts(progs, i + 1, i2)
  }

  /** How far the entry at (i2, j2) is from the end of a branch of full size: by estimates if it comes behind,
      by final offsets if it comes before. */
  function Distance(t: Linking, i: nat, j: nat, i2: nat, j2: nat): int
    requires Shape(t) && Exists(t, i, j) && (Done(t, i, j) || (i == t.s && j == t.k)) && Exists(t, i2, j2)
  {
    if Precedes(i, j, i2, j2) then SectionEsts(t.progs, i, i2) + t.progs[i2][j2].est - AfterEst(t.progs[i][j])
    else if Done(t, i2, j2) then t.fins[i2][j2] - t.fins[i][j] - 4
    else 0
  }

  /** Near enough for a branch that gets shorter by that many bytes */
  predicate Near(t: Linking, i: nat, j: nat, i2: nat, j2: nat)
    requires Shape(t) && Exists(t, i, j) && (Done(t, i, j) || (i == t.s && j == t.k)) && Exists(t, i2, j2)
  {
    -128 - Shrinkable(t.progs[i][j].last) <= Distance(t, i, j, i2, j2) <= 127
  }

  /** A branch with an opcode that can be shrunk has been shrunk just if its label is near. */
  ghost predicate ShrinkAt(t: Linking, i: nat, j: nat)
    requires Shape(t) && Exists(t, i, j) && Done(t, i, j)
  {
    var e, sh := t.progs[i][j], t.shrinks[i][j];
    IsRel(e.act) ==>
      if sh != 0 then
        && sh == Shrinkable(e.last) && e.at in t.m0
        && exists i2: nat, j2: nat :: IsTarget(t, t.m0[e.at], i2, j2) && Near(t, i, j, i2, j2)
      else StaysLong(t, i, j)
  }

  ghost predicate StaysLong(t: Linking, i: nat, j: nat)
    requires Shape(t) && Exists(t, i, j) && (Done(t, i, j) || (i == t.s && j == t.k))
  {
    var e := t.progs[i][j];
    Shrinkable(e.last) > 0 && e.at in t.m0 ==>
      forall i2: nat, j2: nat {:trigger IsTarget(t, t.m0[e.at], i2, j2)} :: IsTarget(t, t.m0[e.at], i2, j2) ==>
        !Near(t, i, j, i2, j2)
  }

  ghost predicate AllShrinks(t: Linking)
    requires Shape(t)
  {
    forall i: nat, j: nat {:trigger ShrinkAt(t, i, j)} :: Exists(t, i, j) && Done(t, i, j) ==> ShrinkAt(t, i, j)
  }

  ghost predicate ProgsOk(al: seq<int>, progs: seq<seq<Entry>>) {
    && (forall s {:trigger SectionOk(al, progs[s], s)} :: 0 <= s < |progs| ==> SectionOk(al, progs[s], s))
    && (forall s {:trigger EndAt(progs[s], s)} :: 0 <= s < |progs| ==>
        EndAt(progs[s], s) - 1 <= Base(s + 1) && Complete(progs[s]))
  }

  ghost predicate LinkingOk(al: seq<int>, t: Linking, mem: map<int, int>) {
    Shape(t) && ProgsOk(al, t.progs) && Laid(t) && MemOk(t, mem) && AllShrinks(t)
  }

  // ---- Buffer positions of different entries.

  /** The lowest position that belongs to an entry, that of the start of a call included. */
  function LowAt(e: Entry): int {
    if e.first then e.at - 1 else e.at
  }

  lemma LowOfNext(al: seq<int>, es: seq<Entry>, s: nat, j: nat)
    requires SectionOk(al, es, s) && 0 < j < |es|
    ensures LowAt(es[j]) == es[j - 1].at + Slots(es[j - 1].act)
  {
    assert Follows(al, es[j - 1], es[j]);
  }

  lemma FirstLow(al: seq<int>, es: seq<Entry>, s: nat)
    requires SectionOk(al, es, s) && es != []
    ensures LowAt(es[0]) == Base(s)
  {
  }

  lemma Owned(al: seq<int>, es: seq<Entry>, s: nat, i: nat, j: nat)
    requires SectionOk(al, es, s) && i <= j < |es|
    ensures Base(s) <= LowAt(es[i]) && LowAt(es[i]) <= es[j].at
    ensures i < j ==> es[i].at + Slots(es[i].act) <= LowAt(es[j])
  {
    hide SectionOk, LowAt, Slots;
    PositionsGrow(al, es, s, i, j);
    LowIsBelow(es[i]);
    if i == 0 {
      FirstLow(al, es, s);
    } else {
      PositionsGrow(al, es, s, i - 1, i - 1);
      LowOfNext(al, es, s, i);
    }
    if i < j {
      PositionsGrow(al, es, s, i, j - 1);
      LowOfNext(al, es, s, j);
    }
  }

  lemma OwnedInSection(al: seq<int>, es: seq<Entry>, s: nat, j: nat)
    requires SectionOk(al, es, s) && j < |es| && EndAt(es, s) - 1 <= Base(s + 1) && Complete(es)
    ensures Base(s) <= LowAt(es[j]) && es[j].at + Slots(es[j].act) <= Base(s + 1)
  {
    hide SectionOk, LowAt, Slots;
    var n := |es| - 1;
    Owned(al, es, s, j, n);
    LowIsBelow(es[n]);
  }

  lemma LowIsBelow(e: Entry)
    ensures LowAt(e) <= e.at && (Ends(e.act) ==> Slots(e.act) == 0)
  {
  }

  lemma OwnedEnd(al: seq<int>, progs: seq<seq<Entry>>, i: nat, j: nat)
    requires ProgsOk(al, progs) && i < |progs| && j < |progs[i]|
    ensures Base(i) <= LowAt(progs[i][j]) && progs[i][j].at + Slots(progs[i][j].act) <= Base(i + 1)
  {
    var es := progs[i];
    assert SectionOk(al, es, i) && EndAt(es, i) - 1 <= Base(i + 1) && Complete(es);
    hide *;
    OwnedInSection(al, es, i, j);
  }

  /** Entries come in the order of their positions. */
  lemma InOrder(al: seq<int>, progs: seq<seq<Entry>>, i: nat, j: nat, i2: nat, j2: nat)
    requires ProgsOk(al, progs) && i < |progs| && j < |progs[i]| && i2 < |progs| && j2 < |progs[i2]|
    requires Precedes(i, j, i2, j2)
    ensures progs[i][j].at + Slots(progs[i][j].act) <= LowAt(progs[i2][j2])
  {
    OwnedEnd(al, progs, i, j);
    OwnedEnd(al, progs, i2, j2);
    if i == i2 {
      assert SectionOk(al, progs[i], i);
      Owned(al, progs[i], i, j, j2);
    } else {
      assert Base(i + 1) <= Base(i2);
    }
  }

  // ---- One entry.

  predicate Current(t: Linking) {
    Shape(t) && Exists(t, t.s, t.k)
  }

  /** The current entry is done, and saves `shrink` bytes. */
  function Stepped(t: Linking, shrink: int): Linking
    requires Current(t)
  {
    var fin := t.fins[t.s][t.k];
    t.(fins := t.fins[t.s := t.fins[t.s] + [fin + Size(t.progs[t.s][t.k], fin, shrink)]],
       shrinks := t.shrinks[t.s := t.shrinks[t.s] + [shrink]], k := t.k + 1)
  }

  function SteppedMem(t: Linking, mem: map<int, int>, shrink: int): map<int, int>
    requires Current(t)
  {
    var e := t.progs[t.s][t.k];
    if IsLabel(e.act) then mem[e.at := t.fins[t.s][t.k]]
    else if IsRel(e.act) then mem[e.at + 1 := shrink]
    else mem
  }

  lemma SteppedShape(t: Linking, shrink: int)
    requires Current(t)
    ensures Shape(Stepped(t, shrink))
    ensures forall i: nat, j: nat :: Exists(t, i, j) ==>
            (Done(Stepped(t, shrink), i, j) <==> Done(t, i, j) || (i == t.s && j == t.k))
    ensures forall i: nat, j: nat :: Exists(t, i, j) && Done(t, i, j) ==>
              && Stepped(t, shrink).fins[i][j] == t.fins[i][j] && Stepped(t, shrink).fins[i][j + 1] == t.fins[i][j + 1]
              && Stepped(t, shrink).shrinks[i][j] == t.shrinks[i][j]
    ensures Stepped(t, shrink).fins[t.s][t.k] == t.fins[t.s][t.k]
  {
  }

  lemma SteppedLaid(t: Linking, shrink: int)
    requires Current(t) && Laid(t) && shrink in {0, 3, 4}
    ensures Shape(Stepped(t, shrink)) && Laid(Stepped(t, shrink))
  {
    var t' := Stepped(t, shrink);
    SteppedShape(t, shrink);
    forall i: nat, j: nat | Exists(t', i, j) && Done(t', i, j)
      ensures LaidAt(t', i, j)
    {
      assert Exists(t, i, j) && Done(t, i, j) ==> LaidAt(t, i, j);
    }
    forall i | 0 < i <= t'.s
      ensures t'.fins[i][0] == t'.fins[i - 1][|t'.shrinks[i - 1]|]
    {
      assert t.fins[i][0] == t.fins[i - 1][|t.shrinks[i - 1]|];
    }
  }

  lemma SteppedMemOk(al: seq<int>, t: Linking, mem: map<int, int>, shrink: int)
    requires Current(t) && ProgsOk(al, t.progs) && MemOk(t, mem)
    ensures Shape(Stepped(t, shrink)) && MemOk(Stepped(t, shrink), SteppedMem(t, mem, shrink))
  {
    var t', mem' := Stepped(t, shrink), SteppedMem(t, mem, shrink);
    SteppedShape(t, shrink);
    forall i: nat, j: nat | Exists(t', i, j)
      ensures MemAt(t', mem', i, j)
    {
      assert MemAt(t, mem, i, j);
      assert MemAt(t, mem, t.s, t.k);
      if i == t.s && j == t.k {
        LowIsBelow(t.progs[i][j]);
      } else if Precedes(i, j, t.s, t.k) {
        InOrder(al, t.progs, i, j, t.s, t.k);
      } else {
        InOrder(al, t.progs, t.s, t.k, i, j);
      }
    }
  }

  /** The choice for a branch that is done does not depend on what comes behind it. */
  lemma ShrinkStays(t: Linking, t': Linking, i: nat, j: nat)
    requires Shape(t) && Shape(t') && t'.progs == t.progs && t'.m0 == t.m0
    requires Exists(t, i, j) && Done(t, i, j) && ShrinkAt(t, i, j)
    requires forall i2: nat, j2: nat {:trigger Done(t, i2, j2)} :: Exists(t, i2, j2) && Done(t, i2, j2) ==>
               && Done(t', i2, j2) && t'.fins[i2][j2] == t.fins[i2][j2]
               && t'.shrinks[i2][j2] == t.shrinks[i2][j2]
    ensures Done(t', i, j) && ShrinkAt(t', i, j)
  {
    var e := t.progs[i][j];
    assert Done(t, i, j);
    if IsRel(e.act) && t.shrinks[i][j] != 0 {
      var i2: nat, j2: nat :| IsTarget(t, t.m0[e.at], i2, j2) && Near(t, i, j, i2, j2);
      NearStays(t, t', i, j, i2, j2);
      assert IsTarget(t', t.m0[e.at], i2, j2) && Near(t', i, j, i2, j2);
    } else if IsRel(e.act) && Shrinkable(e.last) > 0 && e.at in t.m0 {
      forall i2: nat, j2: nat | IsTarget(t', t'.m0[e.at], i2, j2)
        ensures !Near(t', i, j, i2, j2)
      {
        assert IsTarget(t, t.m0[e.at], i2, j2) && !Near(t, i, j, i2, j2);
        NearStays(t, t', i, j, i2, j2);
      }
    }
  }

  lemma NearStays(t: Linking, t': Linking, i: nat, j: nat, i2: nat, j2: nat)
    requires Shape(t) && Shape(t') && t'.progs == t.progs && Exists(t, i, j) && Exists(t, i2, j2)
    requires Done(t, i, j) && Done(t', i, j) && t'.fins[i][j] == t.fins[i][j]
    requires Done(t, i2, j2) ==> Done(t', i2, j2) && t'.fins[i2][j2] == t.fins[i2][j2]
    ensures Near(t', i, j, i2, j2) == Near(t, i, j, i2, j2)
  {
  }

  lemma SteppedShrinks(t: Linking, shrink: int)
    requires Current(t) && AllShrinks(t) && shrink in {0, 3, 4}
    requires Shape(Stepped(t, shrink)) && Done(Stepped(t, shrink), t.s, t.k) && ShrinkAt(Stepped(t, shrink), t.s, t.k)
    ensures AllShrinks(Stepped(t, shrink))
  {
    var t' := Stepped(t, shrink);
    SteppedShape(t, shrink);
    forall i: nat, j: nat | Exists(t', i, j) && Done(t', i, j)
      ensures ShrinkAt(t', i, j)
    {
      if i != t.s || j != t.k {
        assert ShrinkAt(t, i, j);
        ShrinkStays(t, t', i, j);
      }
    }
  }

  /** An entry that is no branch, or a branch that saves nothing or may be shrunk. */
  lemma SteppedNext(t: Linking, shrink: int)
    requires Current(t) && Shape(Stepped(t, shrink))
    ensures var t' := Stepped(t, shrink);
            && t'.progs == t.progs && t'.m0 == t.m0 && t'.s == t.s && t'.k == t.k + 1
            && t'.fins[t.s][t.k + 1] == t.fins[t.s][t.k] + Size(t.progs[t.s][t.k], t.fins[t.s][t.k], shrink)
  {
  }

  lemma SteppedOk(al: seq<int>, t: Linking, mem: map<int, int>, shrink: int)
    requires LinkingOk(al, t, mem) && Current(t) && shrink in {0, 3, 4}
    requires Shape(Stepped(t, shrink)) && Done(Stepped(t, shrink), t.s, t.k) && ShrinkAt(Stepped(t, shrink), t.s, t.k)
    ensures LinkingOk(al, Stepped(t, shrink), SteppedMem(t, mem, shrink))
  {
    hide ProgsOk, Laid, MemOk, AllShrinks, ShrinkAt, SteppedMem, Shape, Done;
    SteppedLaid(t, shrink);
    SteppedMemOk(al, t, mem, shrink);
    SteppedShrinks(t, shrink);
  }

  // ---- Sections.

  /** The next section starts right after the current one. */
  function NextSection(t: Linking): Linking
    requires Shape(t) && t.s < |t.progs| && t.k == |t.progs[t.s]|
  {
    t.(fins := t.fins + [[t.fins[t.s][t.k]]], shrinks := t.shrinks + [[]], s := t.s + 1, k := 0)
  }

  lemma NextSectionOk(al: seq<int>, t: Linking, mem: map<int, int>)
    requires LinkingOk(al, t, mem) && t.s < |t.progs| && t.k == |t.progs[t.s]|
    ensures LinkingOk(al, NextSection(t), mem) && Shape(NextSection(t))
  {
    hide ShrinkAt, ProgsOk, MemOk, MemAt;
    var t' := NextSection(t);
    forall i: nat, j: nat | Exists(t', i, j) && Done(t', i, j)
      ensures LaidAt(t', i, j)
    {
      assert LaidAt(t, i, j);
    }
    NextSectionMem(t, mem);
    NextSectionShrinks(t);
  }

  lemma NextSectionShrinks(t: Linking)
    requires Shape(t) && AllShrinks(t) && t.s < |t.progs| && t.k == |t.progs[t.s]| && Shape(NextSection(t))
    ensures AllShrinks(NextSection(t))
  {
    hide ShrinkAt;
    var t' := NextSection(t);
    forall i: nat, j: nat | Exists(t', i, j) && Done(t', i, j)
      ensures ShrinkAt(t', i, j)
    {
      assert ShrinkAt(t, i, j);
      ShrinkStays(t, t', i, j);
    }
  }

  lemma NextSectionMem(t: Linking, mem: map<int, int>)
    requires Shape(t) && MemOk(t, mem) && t.s < |t.progs| && t.k == |t.progs[t.s]| && Shape(NextSection(t))
    ensures MemOk(NextSection(t), mem)
  {
    var t' := NextSection(t);
    forall i: nat, j: nat | Exists(t', i, j)
      ensures MemAt(t', mem, i, j)
    {
      assert MemAt(t, mem, i, j);
    }
  }

  // ---- When all sections are done.

  lemma SectionPlaced(t: Linking, i: nat)
    requires Shape(t) && Laid(t) && i < t.s
    ensures Placed(t.progs[i], t.fins[i], t.shrinks[i])
  {
    forall k: nat | k < |t.progs[i]|
      ensures PlacedAt(t.progs[i], t.fins[i], t.shrinks[i], k)
    {
      assert LaidAt(t, i, k);
    }
  }

  lemma {:induction false} StartsPositive(al: seq<int>, t: Linking, i: nat)
    requires Shape(t) && ProgsOk(al, t.progs) && Laid(t) && i <= t.s
    ensures t.fins[i][0] >= 0
  {
    if i > 0 {
      StartsPositive(al, t, i - 1);
      SectionPlaced(t, i - 1);
      assert SectionOk(al, t.progs[i - 1], i - 1);
      ShorterToEnd(al, t.progs[i - 1], i - 1, t.fins[i - 1], t.shrinks[i - 1], 0);
    }
  }

  /** From the end of an entry to the end of its section. */
  lemma ToSectionEnd(al: seq<int>, t: Linking, i: nat, j: nat)
    requires Shape(t) && ProgsOk(al, t.progs) && Laid(t) && i < t.s && j < |t.progs[i]|
    ensures 0 <= t.fins[i + 1][0] - t.fins[i][j + 1] <= EndEst(t.progs[i]) - AfterEst(t.progs[i][j])
  {
    var es := t.progs[i];
    StartsPositive(al, t, i);
    SectionPlaced(t, i);
    assert SectionOk(al, es, i);
    ShorterToEnd(al, es, i, t.fins[i], t.shrinks[i], j + 1);
    assert j + 1 < |es| ==> Follows(al, es[j], es[j + 1]);
    assert t.fins[i + 1][0] == t.fins[i][|t.shrinks[i]|];
  }

  /** Whole sections. */
  lemma {:induction false} AcrossSections(al: seq<int>, t: Linking, i: nat, i2: nat)
    requires Shape(t) && ProgsOk(al, t.progs) && Laid(t) && i <= i2 <= t.s
    ensures 0 <= t.fins[i2][0] - t.fins[i][0] <= SectionEsts(t.progs, i, i2)
    decreases i2 - i
  {
    if i < i2 {
      AcrossSections(al, t, i + 1, i2);
      StartsPositive(al, t, i);
      SectionPlaced(t, i);
      assert SectionOk(al, t.progs[i], i);
      ShorterToEnd(al, t.progs[i], i, t.fins[i], t.shrinks[i], 0);
      assert t.fins[i + 1][0] == t.fins[i][|t.shrinks[i]|];
    }
  }

  /** Final distances are not longer than estimated ones, and in the same direction. */
  lemma Distances(al: seq<int>, t: Linking, i: nat, j: nat, i2: nat, j2: nat)
    requires Shape(t) && ProgsOk(al, t.progs) && Laid(t) && t.s == |t.progs|
    requires Exists(t, i, j) && Exists(t, i2, j2) && Precedes(i, j, i2, j2)
    ensures 0 <= t.fins[i2][j2] - t.fins[i][j + 1]
                 <= SectionEsts(t.progs, i, i2) + t.progs[i2][j2].est - AfterEst(t.progs[i][j])
  {
    StartsPositive(al, t, i2);
    SectionPlaced(t, i2);
    assert SectionOk(al, t.progs[i2], i2);
    if i == i2 {
      Shorter(al, t.progs[i2], i2, t.fins[i2], t.shrinks[i2], j + 1, j2);
      assert Follows(al, t.progs[i][j], t.progs[i][j + 1]);
    } else {
      ToSectionEnd(al, t, i, j);
      AcrossSections(al, t, i + 1, i2);
      Shorter(al, t.progs[i2], i2, t.fins[i2], t.shrinks[i2], 0, j2);
    }
  }

  /** Every shrunk branch reaches its label with a displacement of one byte. */
  lemma ShortBranchReaches(al: seq<int>, t: Linking, i: nat, j: nat) returns (i2: nat, j2: nat)
    requires Shape(t) && ProgsOk(al, t.progs) && Laid(t) && AllShrinks(t) && t.s == |t.progs|
    requires Exists(t, i, j) && IsRel(t.progs[i][j].act) && t.shrinks[i][j] != 0
    ensures t.progs[i][j].at in t.m0 && IsTarget(t, t.m0[t.progs[i][j].at], i2, j2)
    ensures -128 <= t.fins[i2][j2] - t.fins[i][j + 1] <= 127
  {
    assert ShrinkAt(t, i, j);
    var e := t.progs[i][j];
    i2, j2 :| IsTarget(t, t.m0[e.at], i2, j2) && Near(t, i, j, i2, j2);
    if Precedes(i2, j2, i, j) {
      Distances(al, t, i2, j2, i, j);
      assert LaidAt(t, i, j) && LaidAt(t, i2, j2);
    } else {
      Distances(al, t, i, j, i2, j2);
    }
  }

  // ---- References when pass 2 begins.

  lemma {:induction false} LastIsDef(defs: seq<Def>, key: Key, n: nat)
    requires n <= |defs| && LastDef(defs, key, n) > 0
    ensures exists i :: 0 <= i < |defs| && defs[i].at == LastDef(defs, key, n) && defs[i].key == key
  {
    if n > 0 && defs[n - 1].key != key {
      LastIsDef(defs, key, n - 1);
    }
  }

  lemma {:induction false} NextIsDef(defs: seq<Def>, key: Key, n: nat)
    requires n <= |defs| && NextDef(defs, key, n) > 0
    ensures exists i :: 0 <= i < |defs| && defs[i].at == NextDef(defs, key, n) && defs[i].key == key
    decreases |defs| - n
  {
    if n < |defs| && defs[n].key != key {
      NextIsDef(defs, key, n + 1);
    }
  }

  /** What a reference is bound to is a label entry. */
  lemma TargetIsLabel(b: Build, r: Ref)
    requires DefsPlaced(b) && r.time <= |b.l.defs| && Target(b.l.defs, r) > 0
    ensures LabelAt(b, Target(b.l.defs, r))
  {
    var t := Target(b.l.defs, r);
    if t == LastDef(b.l.defs, r.key, r.time) {
      LastIsDef(b.l.defs, r.key, r.time);
    } else {
      NextIsDef(b.l.defs, r.key, r.time);
    }
    var i :| 0 <= i < |b.l.defs| && b.l.defs[i].at == t;
    assert LabelAt(b, b.l.defs[i].at);
  }

  /** References hold the position of their label, or the number of an undefined global label. */
  predicate Resolved(l: Links, m0: map<int, int>, r: int)
    requires r in l.refs
  {
    && r in m0 && l.refs[r].time <= |l.defs|
    && var t := Target(l.defs, l.refs[r]);
       if t > 0 then m0[r] == t else l.refs[r].key.LG? && l.refs[r].key.i >= 10 && m0[r] == -l.refs[r].key.i
  }

  ghost predicate AllResolved(l: Links, m0: map<int, int>) {
    && (forall r {:trigger Resolved(l, m0, r)} :: r in l.refs ==> Resolved(l, m0, r))
    && m0.Keys == l.mem.Keys
    && (forall x {:trigger m0[x]} :: x in l.mem && x !in l.refs ==> m0[x] == l.mem[x])
  }

  /** Undefined global labels: the chains of the keys that are not in `work` any more have been replaced
      with markers. */
  predicate MarkedAt(l: Links, mem: map<int, int>, work: set<Key>, x: int)
    requires x in l.mem && x in mem && (x in l.refs ==> l.refs[x].time <= |l.defs|)
  {
    if x in l.refs && Target(l.defs, l.refs[x]) <= 0 && l.refs[x].key !in work then
      l.refs[x].key.LG? && l.refs[x].key.i >= 10 && mem[x] == -l.refs[x].key.i
    else mem[x] == l.mem[x]
  }

  ghost predicate Marked(l: Links, mem: map<int, int>, work: set<Key>) {
    && mem.Keys == l.mem.Keys && (forall r :: r in l.refs ==> l.refs[r].time <= |l.defs|)
    && (forall x {:trigger MarkedAt(l, mem, work, x)} :: x in l.mem ==> MarkedAt(l, mem, work, x))
  }

  lemma MarkedBegin(l: Links, work: set<Key>)
    requires LinksOk(l) && forall key :: key in l.labels && l.labels[key] > 0 ==> key in work
    ensures Marked(l, l.mem, work)
  {
    forall r | r in l.refs
      ensures l.refs[r].time <= |l.defs| && (Target(l.defs, l.refs[r]) <= 0 ==> l.refs[r].key in work)
    {
      assert RefOk(l, r);
      TargetMore(l.defs, Def(l.refs[r].key, 1), l.refs[r]);
      var key := l.refs[r].key;
      if Target(l.defs, l.refs[r]) <= 0 {
        assert ChainOk(l, key) && LabelOk(l, key) && LinkAt(l, key, 0);
      }
    }
    forall x | x in l.mem
      ensures MarkedAt(l, l.mem, work, x)
    {
    }
  }

  lemma MarkedThread(l: Links, mem: map<int, int>, work: set<Key>, key: Key)
    requires LinksOk(l) && Marked(l, mem, work) && key in work && key in l.labels
    ensures key in l.chains && Threaded(mem, l.chains[key])
  {
    KeyFacts(l, key);
    ChainInMem(l, key);
    var c := l.chains[key];
    forall i | 0 <= i < |c|
      ensures LinkIn(mem, c, i)
    {
      assert LinkIn(l.mem, c, i) && MarkedAt(l, mem, work, c[i]);
    }
  }

  lemma MarkedStep(l: Links, mem: map<int, int>, work: set<Key>, key: Key)
    requires LinksOk(l) && Marked(l, mem, work) && key in work && key in l.labels && key.LG? && key.i >= 10
    ensures key in l.chains
    ensures Marked(l, Collapsed(mem, l.chains[key], |l.chains[key]|, -key.i), work - {key})
  {
    var c := l.chains[key];
    var mem' := Collapsed(mem, c, |c|, -key.i);
    MarkedThread(l, mem, work, key);
    assert c[..|c|] == c;
    forall x | x in l.mem
      ensures mem'.Keys == mem.Keys && MarkedAt(l, mem', work - {key}, x)
    {
      assert MarkedAt(l, mem, work, x);
      CollapsedAt(mem, c, |c|, -key.i, x);
      if x in c {
        var i :| 0 <= i < |c| && c[i] == x;
        assert ChainOk(l, key) && LinkAt(l, key, i) && RefOk(l, x);
        TargetMore(l.defs, Def(key, 1), l.refs[x]);
      } else if x in l.refs && l.refs[x].key == key {
        assert RefOk(l, x);
      }
    }
    CollapsedAt(mem, c, |c|, -key.i, 0);
  }

  lemma MarkedEnd(l: Links, mem: map<int, int>)
    requires LinksOk(l) && Marked(l, mem, {})
    ensures AllResolved(l, mem)
  {
    forall r | r in l.refs
      ensures Resolved(l, mem, r)
    {
      assert RefOk(l, r) && MarkedAt(l, mem, {}, r);
    }
    forall x | x in l.mem && x !in l.refs
      ensures x in mem && mem[x] == l.mem[x]
    {
      assert MarkedAt(l, mem, {}, x);
    }
  }

  /** The state when the first section is about to be linked. */
  function Beginning(progs: seq<seq<Entry>>, m0: map<int, int>): Linking {
    Linking(progs, m0, [[0]], [[]], 0, 0)
  }

  lemma BeginningOk(al: seq<int>, b: Build, m0: map<int, int>)
    requires BuildOk(al, b) && !b.busy && AllResolved(b.l, m0)
    ensures LinkingOk(al, Beginning(b.progs, m0), m0)
  {
    BeginningProgs(al, b);
    BeginningMem(al, b, m0);
    hide ProgsOk, MemOk, BuildOk, AllResolved;
  }

  lemma BeginningProgs(al: seq<int>, b: Build)
    requires BuildOk(al, b) && !b.busy
    ensures ProgsOk(al, b.progs)
  {
    hide SectionOk, LinksOk, AllVacant, AllStored, Complete;
    forall s | 0 <= s < |b.progs|
      ensures SectionOk(al, b.progs[s], s) && EndAt(b.progs[s], s) - 1 <= Base(s + 1) && Complete(b.progs[s])
    {
      assert SectionOk(al, b.progs[s], s) && Complete(b.progs[s]) && Free(b, s) <= Base(s + 1);
    }
  }

  lemma BeginningMem(al: seq<int>, b: Build, m0: map<int, int>)
    requires BuildOk(al, b) && !b.busy && AllResolved(b.l, m0)
    ensures Shape(Beginning(b.progs, m0)) && MemOk(Beginning(b.progs, m0), m0)
  {
    hide LinksOk, AllVacant, Follows;
    var t := Beginning(b.progs, m0);
    RefsAreInMem(b);
    forall i: nat, j: nat | Exists(t, i, j)
      ensures MemAt(t, m0, i, j)
    {
      assert SectionOk(al, b.progs[i], i) && EntryOk(al, b.progs[i][j]) && Stored(b.l, b.progs[i][j]);
    }
  }

  lemma RefsAreInMem(b: Build)
    requires LinksOk(b.l)
    ensures forall r :: r in b.l.refs ==> r in b.l.mem
  {
    RefsInMem(b.l);
  }

  // ---- The choice for a branch.

  lemma ChoiceOk(al: seq<int>, t: Linking, mem: map<int, int>, i2: nat, j2: nat, shrink: int)
    requires LinkingOk(al, t, mem) && Current(t)
    requires var e := t.progs[t.s][t.k];
             && IsRel(e.act) && e.at in t.m0 && IsTarget(t, t.m0[e.at], i2, j2)
             && shrink == Shrinkable(e.last) > 0 && Near(t, t.s, t.k, i2, j2)
    ensures Shape(Stepped(t, shrink)) && Done(Stepped(t, shrink), t.s, t.k) && ShrinkAt(Stepped(t, shrink), t.s, t.k)
  {
    var t', e := Stepped(t, shrink), t.progs[t.s][t.k];
    SteppedShape(t, shrink);
    assert t'.fins[t.s][t.k + 1] == t.fins[t.s][t.k] + 4 - shrink;
    assert IsTarget(t', t'.m0[e.at], i2, j2) && Near(t', t.s, t.k, i2, j2);
  }

  lemma NoChoiceOk(t: Linking)
    requires Current(t) && (IsRel(t.progs[t.s][t.k].act) ==> StaysLong(t, t.s, t.k))
    ensures Shape(Stepped(t, 0)) && Done(Stepped(t, 0), t.s, t.k) && ShrinkAt(Stepped(t, 0), t.s, t.k)
  {
    SteppedShape(t, 0);
    var t', e := Stepped(t, 0), t.progs[t.s][t.k];
    if IsRel(e.act) && Shrinkable(e.last) > 0 && e.at in t.m0 {
      forall i2: nat, j2: nat | IsTarget(t', t'.m0[e.at], i2, j2)
        ensures !Near(t', t.s, t.k, i2, j2)
      {
        assert IsTarget(t, t.m0[e.at], i2, j2) && !Near(t, t.s, t.k, i2, j2);
      }
    }
  }

  /** Another opcode, a label that is not near, or no label at all: the branch keeps its size. */
  lemma FarStaysLong(al: seq<int>, t: Linking, mem: map<int, int>, i2: nat, j2: nat)
    requires LinkingOk(al, t, mem) && Current(t) && t.progs[t.s][t.k].at in t.m0
    requires var e := t.progs[t.s][t.k];
             Shrinkable(e.last) > 0 && t.m0[e.at] >= 0 ==>
               IsTarget(t, t.m0[e.at], i2, j2) && !Near(t, t.s, t.k, i2, j2)
    ensures StaysLong(t, t.s, t.k)
  {
    var e := t.progs[t.s][t.k];
    var lpos := t.m0[e.at];
    forall i3: nat, j3: nat | Shrinkable(e.last) > 0 && IsTarget(t, lpos, i3, j3)
      ensures !Near(t, t.s, t.k, i3, j3)
    {
      OwnedEnd(al, t.progs, i3, j3);
      LowIsBelow(t.progs[i3][j3]);
      TargetUnique(al, t, lpos, i2, j2, i3, j3);
    }
  }

  /** Only one label is at a buffer position. */
  lemma TargetUnique(al: seq<int>, t: Linking, lpos: int, i: nat, j: nat, i2: nat, j2: nat)
    requires ProgsOk(al, t.progs) && IsTarget(t, lpos, i, j) && IsTarget(t, lpos, i2, j2)
    ensures i == i2 && j == j2
  {
    LowIsBelow(t.progs[i][j]);
    LowIsBelow(t.progs[i2][j2]);
    if Precedes(i, j, i2, j2) {
      InOrder(al, t.progs, i, j, i2, j2);
    } else if Precedes(i2, j2, i, j) {
      InOrder(al, t.progs, i2, j2, i, j);
    }
  }

  /** What the code finds in the buffers for a branch to the label at (i2, j2). */
  lemma LabelFound(al: seq<int>, t: Linking, mem: map<int, int>, i2: nat, j2: nat)
    requires LinkingOk(al, t, mem) && Current(t) && Exists(t, i2, j2)
    requires IsRel(t.progs[t.s][t.k].act) && IsLabel(t.progs[i2][j2].act)
    ensures var lpos, pos := t.progs[i2][j2].at, t.progs[t.s][t.k].at;
            && lpos in mem && Base(i2) <= lpos < Base(i2 + 1)
            && (lpos > pos <==> Precedes(t.s, t.k, i2, j2))
               && (lpos > pos ==> t.s <= i2 && mem[lpos] == t.progs[i2][j2].est)
            && (lpos <= pos ==> Done(t, i2, j2) && mem[lpos] == t.fins[i2][j2])
            && pos + 1 in mem && mem[pos + 1] == AfterEst(t.progs[t.s][t.k])
  {
    assert MemAt(t, mem, i2, j2) && MemAt(t, mem, t.s, t.k);
    OwnedEnd(al, t.progs, i2, j2);
    LowIsBelow(t.progs[i2][j2]);
    LowIsBelow(t.progs[t.s][t.k]);
    if Precedes(t.s, t.k, i2, j2) {
      InOrder(al, t.progs, t.s, t.k, i2, j2);
    } else {
      InOrder(al, t.progs, i2, j2, t.s, t.k);
    }
  }

  lemma {:induction false} OneMoreSection(progs: seq<seq<Entry>>, i: nat, i2: nat)
    requires i <= i2 < |progs|
    ensures SectionEsts(progs, i, i2 + 1) == SectionEsts(progs, i, i2) + EndEst(progs[i2])
    decreases i2 - i
  {
    if i < i2 {
      OneMoreSection(progs, i + 1, i2);
    }
  }

  lemma CurrentFacts(al: seq<int>, t: Linking, mem: map<int, int>)
    requires LinkingOk(al, t, mem) && Current(t)
    ensures EntryOk(al, t.progs[t.s][t.k]) && MemAt(t, mem, t.s, t.k)
  {
    assert SectionOk(al, t.progs[t.s], t.s);
    assert EntryOk(al, t.progs[t.s][t.k]);
  }

  /** The label of a reference, unless it is to an undefined global label. */
  lemma RefTarget(al: seq<int>, b: Build, t: Linking, mem: map<int, int>, i: nat, j: nat) returns (i2: nat, j2: nat)
    requires BuildOk(al, b) && DefsPlaced(b) && t.progs == b.progs && AllResolved(b.l, t.m0) && LinkingOk(al, t, mem)
    requires Exists(t, i, j) && IsRef(t.progs[i][j].act)
    ensures var e := t.progs[i][j]; e.at in mem && e.at in t.m0 && mem[e.at] == t.m0[e.at]
    ensures var e := t.progs[i][j]; t.m0[e.at] > 0 ==> IsTarget(t, t.m0[e.at], i2, j2)
    ensures var e := t.progs[i][j]; t.m0[e.at] != 0
  {
    i2, j2 := 0, 0;
    var e := t.progs[i][j];
    assert MemAt(t, mem, i, j) && Stored(b.l, b.progs[i][j]);
    assert RefOk(b.l, e.at) && Resolved(b.l, t.m0, e.at);
    var target := Target(b.l.defs, b.l.refs[e.at]);
    if target > 0 {
      TargetIsLabel(b, b.l.refs[e.at]);
      i2, j2 :| Exists(t, i2, j2) && IsLabel(t.progs[i2][j2].act) && t.progs[i2][j2].at == target;
    }
  }

  // ---- Walking the buffers.

  /** The estimate for the current entry, or for the end of the section. */
  function CurEst(t: Linking): int
    requires Shape(t) && t.s < |t.progs|
  {
    if t.k < |t.progs[t.s]| then t.progs[t.s][t.k].est else EndEst(t.progs[t.s])
  }

  /** The position `at` is that of the start of the next call in the section, or its end. */
  predicate Between(t: Linking, at: int)
    requires Shape(t) && t.s < |t.progs|
  {
    var es := t.progs[t.s];
    if t.k < |es| then es[t.k].first && at == es[t.k].at - 1 else at == EndAt(es, t.s) - 1
  }

  lemma BeginSection(al: seq<int>, t: Linking, mem: map<int, int>)
    requires LinkingOk(al, t, mem) && t.s < |t.progs| && t.k == 0
    ensures Between(t, Base(t.s)) && CurEst(t) == 0
  {
    assert SectionOk(al, t.progs[t.s], t.s);
  }

  lemma AtCall(al: seq<int>, t: Linking, mem: map<int, int>, at: int)
    requires LinkingOk(al, t, mem) && t.s < |t.progs| && Between(t, at)
    ensures at != EndAt(t.progs[t.s], t.s) - 1 <==> Current(t)
    ensures Current(t) ==> at in mem && mem[at] == t.progs[t.s][t.k].p && t.progs[t.s][t.k].last == 0
  {
    hide SectionOk, Laid, AllShrinks, Complete, EndAt, Slots;
    if Current(t) {
      SectionFacts(al, t.progs, t.s);
      assert MemAt(t, mem, t.s, t.k);
      CallStart(al, t.progs[t.s], t.s, t.k);
    }
  }

  lemma SectionFacts(al: seq<int>, progs: seq<seq<Entry>>, s: nat)
    requires ProgsOk(al, progs) && s < |progs|
    ensures SectionOk(al, progs[s], s) && EndAt(progs[s], s) - 1 <= Base(s + 1) && Complete(progs[s])
  {
    hide SectionOk, Complete;
  }

  /** An entry that starts a call is not at the end of the section. */
  lemma CallStart(al: seq<int>, es: seq<Entry>, s: nat, k: nat)
    requires SectionOk(al, es, s) && Complete(es) && k < |es|
    ensures es[k].at < EndAt(es, s) && (es[k].first ==> es[k].last == 0)
  {
    PositionsGrow(al, es, s, k, |es| - 1);
    assert k > 0 ==> Follows(al, es[k - 1], es[k]);
  }

  lemma NotLast(al: seq<int>, es: seq<Entry>, s: nat, k: nat)
    requires SectionOk(al, es, s) && Complete(es) && k < |es| && !Ends(es[k].act)
    ensures k + 1 < |es| && Follows(al, es[k], es[k + 1])
  {
  }

  /** The entry before the current one did not end a call. */
  lemma InsideCall(al: seq<int>, t: Linking, mem: map<int, int>)
    requires LinkingOk(al, t, mem) && t.s < |t.progs| && t.k > 0 && !Ends(t.progs[t.s][t.k - 1].act)
    ensures Current(t) && Follows(al, t.progs[t.s][t.k - 1], t.progs[t.s][t.k])
  {
    hide SectionOk, Follows, MemOk, AllShrinks, Laid, Ends;
    var es := t.progs[t.s];
    assert SectionOk(al, es, t.s) && EndAt(es, t.s) - 1 <= Base(t.s + 1) && Complete(es);
    NotLast(al, es, t.s, t.k - 1);
  }

  /** It did. */
  lemma BehindCall(al: seq<int>, t: Linking, mem: map<int, int>)
    requires LinkingOk(al, t, mem) && t.s < |t.progs| && t.k > 0 && Ends(t.progs[t.s][t.k - 1].act)
    ensures var e := t.progs[t.s][t.k - 1]; Between(t, e.at + Slots(e.act)) && CurEst(t) == AfterEst(e)
  {
    var es := t.progs[t.s];
    assert SectionOk(al, es, t.s);
    if t.k < |es| {
      assert Follows(al, es[t.k - 1], es[t.k]);
    }
  }

  lemma SteppedOn(t: Linking, t': Linking)
    requires Current(t) && exists shrink :: t' == Stepped(t, shrink)
    ensures t'.s == t.s && t'.k == t.k + 1 && t'.progs == t.progs && t'.m0 == t.m0
  {
  }
}
