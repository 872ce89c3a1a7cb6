/** The section buffers of the DynASM engine: what pass 1 stores for each action. */
module DynBuffers {
  import opened DynAsm
  import opened DynLabels

  /** The label that a reference or a label action is about. */
  function KeyOf(e: Entry): Key {
    match e.act
    case RefLG(_, n) => LG(if n > 246 then n - 246 else n)
    case LabelLG(n) => LG(n)
    case _ => PC(e.arg)
  }

  function IsFwd(e: Entry): bool {
    e.act.RefLG? && e.act.n > 246
  }

  /** What the buffer holds for an entry. */
  predicate Stored(l: Links, e: Entry) {
    && (e.first ==> Plain(l, e.at - 1, e.p))
    && (IsRef(e.act) ==> e.at in l.refs && l.refs[e.at].key == KeyOf(e) && l.refs[e.at].fwd == IsFwd(e))
    && (IsRel(e.act) ==> Plain(l, e.at + 1, AfterEst(e)))
    && (IsLabel(e.act) ==> Plain(l, e.at, e.est))
    && (e.act.Align? ==> Plain(l, e.at, AfterEst(e)))
    && (e.act.Imm? || e.act.RelA? || e.act.Space? ==> Plain(l, e.at, e.arg))
  }

  /** A buffer position that is no reference. */
  predicate Plain(l: Links, x: int, v: int) {
    x in l.mem && x !in l.refs && l.mem[x] == v
  }

  /** All sections; `busy` while a call of `dasm_put` is under way in the section `cur`. */
  datatype Build = Build(l: Links, progs: seq<seq<Entry>>, cur: nat, busy: bool)

  /** The next free buffer position of a section. */
  function Free(b: Build, s: nat): int
    requires s < |b.progs|
  {
    EndAt(b.progs[s], s) - if b.busy && s == b.cur then 0 else 1
  }

  predicate Vacant(b: Build, s: nat, x: int)
    requires s < |b.progs|
  {
    Free(b, s) <= x < Base(s + 1) ==> x !in b.l.mem
  }

  predicate Complete(es: seq<Entry>) {
    es == [] || Ends(es[|es| - 1].act)
  }

  ghost predicate SectionsOk(al: seq<int>, b: Build) {
    && (forall s {:trigger SectionOk(al, b.progs[s], s)} :: 0 <= s < |b.progs| ==> SectionOk(al, b.progs[s], s))
    && (forall s {:trigger Complete(b.progs[s])} :: 0 <= s < |b.progs| && (s != b.cur || !b.busy) ==>
        Complete(b.progs[s]))
    && (forall s {:trigger Free(b, s)} :: 0 <= s < |b.progs| ==> Base(s) <= Free(b, s) <= Base(s + 1))
  }

  ghost predicate AllStored(b: Build) {
    forall s, k {:trigger b.progs[s][k]} :: 0 <= s < |b.progs| && 0 <= k < |b.progs[s]| ==> Stored(b.l, b.progs[s][k])
  }

  ghost predicate AllVacant(b: Build) {
    forall s, x {:trigger Vacant(b, s, x)} :: 0 <= s < |b.progs| ==> Vacant(b, s, x)
  }

  ghost predicate BuildOk(al: seq<int>, b: Build) {
    LinksOk(b.l) && b.cur < |b.progs| && SectionsOk(al, b) && AllStored(b) && AllVacant(b)
  }

  // ---- Adding an entry.

  /** The entry e can be next in the current section. */
  ghost predicate Fitting(al: seq<int>, b: Build, e: Entry) {
    && b.cur < |b.progs| && b.busy && EntryOk(al, e)
    && var es := b.progs[b.cur];
       && e.at == EndAt(es, b.cur) && e.est == EndEst(es) && e.first == Complete(es)
       && (if es == [] then e.op == -1 && e.op2 == -1 && e.last == 0 else Follows(al, es[|es| - 1], e))
       && e.at + Slots(e.act) <= Base(b.cur + 1)
  }

  function Grown(b: Build, e: Entry, l: Links): Build
    requires b.cur < |b.progs|
  {
    b.(l := l, progs := b.progs[b.cur := b.progs[b.cur] + [e]], busy := !Ends(e.act))
  }

  /** The buffers have changed at references and at the positions of the entry only. */
  ghost predicate Extends(l: Links, l': Links, e: Entry) {
    && (forall x {:trigger x in l'.refs} :: x in l.refs ==> x in l'.refs && l'.refs[x] == l.refs[x])
    && (forall x {:trigger x in l'.refs} :: x in l'.refs ==> x in l.refs || (x == e.at && x !in l.mem))
    && (forall x {:trigger x in l'.mem} :: x in l.mem && x !in l.refs ==> x in l'.mem && l'.mem[x] == l.mem[x])
    && (forall x {:trigger x in l'.mem} :: x in l'.mem ==> x in l.mem || e.at <= x < e.at + Slots(e.act))
  }

  lemma StillStored(l: Links, l': Links, e: Entry, f: Entry)
    requires Extends(l, l', e) && Stored(l, f)
    ensures Stored(l', f)
  {
    assert forall x, v :: Plain(l, x, v) ==> Plain(l', x, v);
  }

  lemma GrownSections(al: seq<int>, b: Build, e: Entry, l: Links)
    requires b.cur < |b.progs| && SectionsOk(al, b) && Fitting(al, b, e)
    ensures SectionsOk(al, Grown(b, e, l))
  {
    var b' := Grown(b, e, l);
    forall s | 0 <= s < |b'.progs|
      ensures SectionOk(al, b'.progs[s], s)
    {
      assert SectionOk(al, b.progs[s], s);
    }
    forall s | 0 <= s < |b'.progs| && (s != b'.cur || !b'.busy)
      ensures Complete(b'.progs[s])
    {
      assert s != b.cur ==> Complete(b.progs[s]);
    }
    forall s | 0 <= s < |b'.progs|
      ensures Base(s) <= Free(b', s) <= Base(s + 1)
    {
      assert Base(s) <= Free(b, s);
    }
  }

  lemma GrownOk(al: seq<int>, b: Build, e: Entry, l: Links)
    requires BuildOk(al, b) && Fitting(al, b, e) && LinksOk(l) && Extends(b.l, l, e) && Stored(l, e)
    ensures BuildOk(al, Grown(b, e, l))
  {
    var b' := Grown(b, e, l);
    GrownSections(al, b, e, l);
    forall s, k | 0 <= s < |b'.progs| && 0 <= k < |b'.progs[s]|
      ensures Stored(l, b'.progs[s][k])
    {
      if s != b.cur || k < |b.progs[s]| {
        assert b'.progs[s][k] == b.progs[s][k];
        StillStored(b.l, l, e, b.progs[s][k]);
      }
    }
    forall s, x | 0 <= s < |b'.progs|
      ensures Vacant(b', s, x)
    {
      assert Vacant(b, s, x) && Base(s) <= Free(b, s) && Base(b.cur) <= Free(b, b.cur);
    }
  }

  /** The position of the start of a call is stored. */
  lemma StartedOk(al: seq<int>, b: Build, start: int)
    requires BuildOk(al, b) && !b.busy && Free(b, b.cur) < Base(b.cur + 1)
    ensures var x := Free(b, b.cur);
            x !in b.l.mem && BuildOk(al, b.(l := b.l.(mem := b.l.mem[x := start]), busy := true))
  {
    var x := Free(b, b.cur);
    var l' := b.l.(mem := b.l.mem[x := start]);
    var b' := b.(l := l', busy := true);
    assert Vacant(b, b.cur, x);
    WrittenOk(b.l, x, start);
    forall s | 0 <= s < |b'.progs|
      ensures Base(s) <= Free(b', s) <= Base(s + 1)
    {
      assert Base(s) <= Free(b, s);
    }
    forall s | 0 <= s < |b'.progs|
      ensures SectionOk(al, b'.progs[s], s) && (s != b'.cur ==> Complete(b'.progs[s]))
    {
      assert SectionOk(al, b.progs[s], s) && Complete(b.progs[s]);
    }
    forall s, k | 0 <= s < |b'.progs| && 0 <= k < |b'.progs[s]|
      ensures Stored(l', b'.progs[s][k])
    {
      assert Stored(b.l, b.progs[s][k]);
      WrittenStored(b.l, x, start, b.progs[s][k]);
    }
    forall s, y | 0 <= s < |b'.progs|
      ensures Vacant(b', s, y)
    {
      assert Vacant(b, s, y) && Base(s) <= Free(b, s) <= Base(s + 1);
    }
  }

  lemma RefsInMem(l: Links)
    requires LinksOk(l)
    ensures l.refs.Keys <= l.mem.Keys
  {
    forall r | r in l.refs
      ensures r in l.mem
    {
      assert RefOk(l, r);
    }
  }

  lemma WrittenStored(l: Links, x: int, v: int, e: Entry)
    requires x !in l.mem && Stored(l, e)
    ensures Stored(l.(mem := l.mem[x := v]), e)
  {
  }

  /** Storing to a fresh position does nothing to the labels. */
  lemma WrittenOk(l: Links, x: int, v: int)
    requires LinksOk(l) && x !in l.mem
    ensures LinksOk(l.(mem := l.mem[x := v])) && x !in l.refs
  {
    var l' := l.(mem := l.mem[x := v]);
    RefsInMem(l);
    forall r | r in l'.refs
      ensures RefOk(l', r)
    {
      assert RefOk(l, r);
    }
    forall key | key in l'.chains
      ensures ChainOk(l', key) && LabelOk(l', key)
    {
      assert ChainOk(l, key) && LabelOk(l, key);
      SameChain(l, l', key);
    }
  }

  // ---- Where labels are defined.

  /** Some label entry has its slot there. */
  ghost predicate LabelAt(b: Build, x: int) {
    exists s, k {:trigger b.progs[s][k]} :: 0 <= s < |b.progs| && 0 <= k < |b.progs[s]| && IsLabel(b.progs[s][k].act)
      && b.progs[s][k].at == x
  }

  ghost predicate DefsPlaced(b: Build) {
    forall i {:trigger b.l.defs[i]} :: 0 <= i < |b.l.defs| ==> LabelAt(b, b.l.defs[i].at)
  }

  lemma GrownPlaced(b: Build, e: Entry, l: Links)
    requires b.cur < |b.progs| && DefsPlaced(b)
    requires if IsLabel(e.act) then l.defs == b.l.defs + [Def(KeyOf(e), e.at)] else l.defs == b.l.defs
    ensures DefsPlaced(Grown(b, e, l))
  {
    var b' := Grown(b, e, l);
    forall i | 0 <= i < |l.defs|
      ensures LabelAt(b', l.defs[i].at)
    {
      if i < |b.l.defs| {
        var s, k :| 0 <= s < |b.progs| && 0 <= k < |b.progs[s]| && IsLabel(b.progs[s][k].act)
          && b.progs[s][k].at == b.l.defs[i].at;
        assert b'.progs[s][k] == b.progs[s][k];
      } else {
        assert b'.progs[b.cur][|b.progs[b.cur]|] == e;
      }
    }
  }

  lemma SameLinks(l: Links, e: Entry)
    ensures Extends(l, l, e)
  {
  }

  lemma WrittenExtends(l: Links, e: Entry, x: int, v: int)
    requires x !in l.mem && e.at <= x < e.at + Slots(e.act)
    ensures Extends(l, l.(mem := l.mem[x := v]), e)
  {
  }

  /** Forward references are to local labels. */
  lemma FwdIsLocal(al: seq<int>, e: Entry)
    requires ListOk(al) && EntryOk(al, e)
    ensures IsRef(e.act) && IsFwd(e) ==> IsLocal(KeyOf(e))
  {
  }

  /** What has been stored for a reference. */
  lemma RefStored(l: Links, l1: Links, l2: Links, e: Entry, ref: Ref)
    requires LinksOk(l) && IsRef(e.act) && e.at !in l.mem && (IsRel(e.act) ==> e.at + 1 !in l.mem)
    requires ref.key == KeyOf(e) && ref.fwd == IsFwd(e) && ref.key in l.chains && ref.time <= |l.defs|
    requires l1 == Bound(l, e.at, ref) || l1 == Chained(l, e.at, ref)
    requires l2 == if IsRel(e.act) then l1.(mem := l1.mem[e.at + 1 := AfterEst(e)]) else l1
    requires e.first ==> Plain(l, e.at - 1, e.p)
    ensures Extends(l, l2, e) && Stored(l2, e)
  {
    RefsInMem(l);
  }

  lemma LabelStored(l: Links, e: Entry)
    requires LinksOk(l) && IsLabel(e.act) && e.at !in l.mem && KeyOf(e) in l.chains
    requires e.first ==> Plain(l, e.at - 1, e.p)
    ensures Extends(l, Defined(l, KeyOf(e), e.at, e.est), e) && Stored(Defined(l, KeyOf(e), e.at, e.est), e)
  {
    var key := KeyOf(e);
    var c, l' := l.chains[key], Defined(l, key, e.at, e.est);
    ChainInMem(l, key);
    RefsInMem(l);
    assert c[..|c|] == c;
    forall x
      ensures x in l'.mem <==> x in l.mem || x == e.at
      ensures x in l.mem && x !in l.refs ==> l'.mem[x] == l.mem[x]
    {
      CollapsedAt(l.mem, c, |c|, e.at, x);
    }
  }

  lemma RefPut(al: seq<int>, b: Build, e: Entry, ref: Ref, l1: Links, l2: Links)
    requires BuildOk(al, b) && DefsPlaced(b) && Fitting(al, b, e) && IsRef(e.act) && LinksOk(l1)
    requires e.at !in b.l.mem && (IsRel(e.act) ==> e.at + 1 !in b.l.mem) && (e.first ==> Plain(b.l, e.at - 1, e.p))
    requires ref.key == KeyOf(e) && ref.fwd == IsFwd(e) && ref.key in b.l.chains && ref.time <= |b.l.defs|
    requires l1 == Bound(b.l, e.at, ref) || l1 == Chained(b.l, e.at, ref)
    requires l2 == if IsRel(e.act) then l1.(mem := l1.mem[e.at + 1 := AfterEst(e)]) else l1
    ensures BuildOk(al, Grown(b, e, l2)) && DefsPlaced(Grown(b, e, l2))
  {
    RefStored(b.l, l1, l2, e, ref);
    if IsRel(e.act) {
      WrittenOk(l1, e.at + 1, AfterEst(e));
    }
    GrownOk(al, b, e, l2);
    GrownPlaced(b, e, l2);
  }

  lemma LabelPut(al: seq<int>, b: Build, e: Entry, l: Links)
    requires BuildOk(al, b) && DefsPlaced(b) && Fitting(al, b, e) && IsLabel(e.act) && e.at > 0
    requires e.at !in b.l.mem && (e.first ==> Plain(b.l, e.at - 1, e.p)) && KeyOf(e) in b.l.chains
    requires l == Defined(b.l, KeyOf(e), e.at, e.est)
    ensures BuildOk(al, Grown(b, e, l)) && DefsPlaced(Grown(b, e, l))
  {
    DefinedOk(b.l, KeyOf(e), e.at, e.est);
    LabelStored(b.l, e);
    GrownOk(al, b, e, l);
    GrownPlaced(b, e, l);
  }

  /** Another section becomes the current one. */
  lemma SwitchedOk(al: seq<int>, b: Build, n: nat)
    requires BuildOk(al, b) && DefsPlaced(b) && !b.busy && n < |b.progs|
    ensures BuildOk(al, b.(cur := n)) && DefsPlaced(b.(cur := n))
  {
    var b' := b.(cur := n);
    forall s | 0 <= s < |b'.progs|
      ensures Base(s) <= Free(b', s) <= Base(s + 1)
    {
      assert Base(s) <= Free(b, s);
    }
    forall s, x | 0 <= s < |b'.progs|
      ensures Vacant(b', s, x)
    {
      assert Vacant(b, s, x);
    }
    forall i | 0 <= i < |b.l.defs|
      ensures LabelAt(b', b.l.defs[i].at)
    {
      assert LabelAt(b, b.l.defs[i].at);
    }
  }

  /** The positions and offset estimates of the sections are those of the entries. */
  ghost predicate Tracks(b: Build, pos: seq<int>, ofs: seq<int>) {
    && |pos| == |ofs| == |b.progs|
    && forall s {:trigger pos[s]} {:trigger ofs[s]} :: 0 <= s < |b.progs| ==>
       pos[s] == Free(b, s) && ofs[s] == EndEst(b.progs[s])
  }

  lemma TracksGrown(al: seq<int>, b: Build, e: Entry, l: Links, pos: seq<int>, ofs: seq<int>)
    requires Tracks(b, pos, ofs) && Fitting(al, b, e)
    ensures b.cur < |pos| == |ofs| == |b.progs| && pos[b.cur] == e.at && ofs[b.cur] == e.est
    ensures Tracks(Grown(b, e, l), pos[b.cur := e.at + Slots(e.act)], ofs[b.cur := AfterEst(e)])
  {
    var b' := Grown(b, e, l);
    forall s | 0 <= s < |b.progs|
      ensures pos[b.cur := e.at + Slots(e.act)][s] == Free(b', s) && ofs[b.cur := AfterEst(e)][s] == EndEst(b'.progs[s])
    {
      assert pos[s] == Free(b, s);
    }
  }

  lemma TracksStarted(b: Build, pos: seq<int>, ofs: seq<int>, l: Links)
    requires Tracks(b, pos, ofs) && !b.busy && b.cur < |b.progs|
    ensures Tracks(b.(l := l, busy := true), pos[b.cur := pos[b.cur] + 1], ofs)
  {
  }

  lemma TracksSwitched(b: Build, pos: seq<int>, ofs: seq<int>, n: nat)
    requires Tracks(b, pos, ofs) && !b.busy && n < |b.progs|
    ensures Tracks(b.(cur := n), pos, ofs)
  {
  }

  lemma NothingPut(al: seq<int>, b: Build, e: Entry)
    requires BuildOk(al, b) && DefsPlaced(b) && Fitting(al, b, e) && Slots(e.act) == 0
    requires e.first ==> Plain(b.l, e.at - 1, e.p)
    ensures BuildOk(al, Grown(b, e, b.l)) && DefsPlaced(Grown(b, e, b.l))
  {
    SameLinks(b.l, e);
    GrownOk(al, b, e, b.l);
    GrownPlaced(b, e, b.l);
  }

  lemma NumberPut(al: seq<int>, b: Build, e: Entry, v: int)
    requires BuildOk(al, b) && DefsPlaced(b) && Fitting(al, b, e) && e.at !in b.l.mem
    requires e.first ==> Plain(b.l, e.at - 1, e.p)
    requires ((e.act.Imm? || e.act.RelA? || e.act.Space?) && v == e.arg) || (e.act.Align? && v == AfterEst(e))
    ensures var l := b.l.(mem := b.l.mem[e.at := v]); BuildOk(al, Grown(b, e, l)) && DefsPlaced(Grown(b, e, l))
  {
    var l := b.l.(mem := b.l.mem[e.at := v]);
    WrittenOk(b.l, e.at, v);
    WrittenExtends(b.l, e, e.at, v);
    GrownOk(al, b, e, l);
    GrownPlaced(b, e, l);
  }
}
