/** The three passes of the DynASM engine (`dasm_x86.h`). */
module DynEngine {
  import opened DynAsm
  import opened DynLabels
  import opened DynBuffers
  import opened DynLink
  import opened DynEncode
  import opened DynBinding
  import opened DynMeaning

  const DASM_MAXSECPOS := 25

  /** Where a call of `dasm_put` stands: its place in the action list, the arguments to come and the buffer
      positions left of those set aside for it; `op`, `op2` and `last` are as in an entry. */
  datatype Step = Step(p: nat, args: seq<int>, slots: int, op: int, op2: int, last: int)

  function NextStep(al: seq<int>, c: Step): Step {
    var a := ActAt(al, c.p);
    var args := if TakesArg(a) && c.args != [] then c.args[1..] else c.args;
    if a.Byte? then Step(NextAct(al, c.p), args, c.slots - Slots(a), a.b, c.op, a.b)
    else Step(NextAct(al, c.p), args, c.slots - Slots(a), -1, -1, c.last)
  }

  function ArgOf(al: seq<int>, c: Step): int {
    if TakesArg(ActAt(al, c.p)) && c.args != [] then c.args[0] else 0
  }

  /** What the next action must be like. */
  predicate ActOk(al: seq<int>, c: Step) {
    var a := ActAt(al, c.p);
    && a != Unknown && Slots(a) <= c.slots
    && (a.Space? ==> ArgOf(al, c) >= 0)
    && (a.Align? ==> AlignMask(a.mask))
    && (IsRel(a) && Shrinkable(c.last) > 0 ==> c.op == c.last)
    && (IsRel(a) && Shrinkable(c.last) == 4 ==> c.op2 == 0x0f)
  }

  /** What a call of `dasm_put` may be given: known actions up to a final stop, arguments for them, and
      no more than the buffer positions set aside for a call. */
  predicate PutOk(al: seq<int>, c: Step)
    decreases |al| - c.p
  {
    var a := ActAt(al, c.p);
    ActOk(al, c) && (TakesArg(a) ==> c.args != []) && (Ends(a) || PutOk(al, NextStep(al, c)))
  }

  /** The call at its start. */
  function Start(start: nat, args: seq<int>): Step {
    Step(start, args, DASM_MAXSECPOS - 1, -1, -1, 0)
  }

  function EntryOf(al: seq<int>, c: Step, first: bool, at: int, est: int): Entry {
    Entry(ActAt(al, c.p), c.p, first, at, est, ArgOf(al, c), c.op, c.op2, c.last)
  }

  /** The entries that the rest of a call stands for. */
  function Entries(al: seq<int>, c: Step, first: bool, at: int, est: int): seq<Entry>
    requires PutOk(al, c)
    decreases |al| - c.p
  {
    var e := EntryOf(al, c, first, at, est);
    if Ends(e.act) then [e] else [e] + Entries(al, NextStep(al, c), false, AfterAt(e), AfterEst(e))
  }

  lemma NextEntries(al: seq<int>, c: Step, first: bool, at: int, est: int)
    requires PutOk(al, c)
    ensures ActOk(al, c) && (TakesArg(ActAt(al, c.p)) ==> c.args != [])
    ensures var e := EntryOf(al, c, first, at, est);
            if Ends(e.act) then Entries(al, c, first, at, est) == [e]
            else
              && PutOk(al, NextStep(al, c)) && c.p < |al|
              && Entries(al, c, first, at, est)
                 == [e] + Entries(al, NextStep(al, c), false, at + Slots(e.act), est + MaxSize(e.act, e.arg))
  {
  }

  lemma {:induction false} OperandsShift(items: seq<Item>, k: nat)
    requires 0 < k <= |items|
    ensures Operands(items, k) == Operands(items[1..], k - 1) + if HasOperand(items[0]) then 1 else 0
  {
    if k > 1 {
      OperandsShift(items, k - 1);
    }
  }

  /** What a call of `dasm_put` stores: an entry for each item, with the arguments in order. */
  lemma {:induction false} PutReads(al: seq<int>, c: Step, items: seq<Item>, first: bool, at: int, est: int)
    requires PutOk(al, c) && SpelledAll(al, c.p, items)
    ensures var es := Entries(al, c, first, at, est);
            && |es| == |items|
            && forall k :: 0 <= k < |es| ==> EntryFor(al, es[k], items[k], c.args, Operands(items, k))
    decreases |items|
  {
    hide ActAt, NextAct, Spelled, Spell, HasOperand, TakesArg, ActOk, Operands, EntryFor;
    SpellBack(al, c.p, items[0]);
    NextEntries(al, c, first, at, est);
    var e, es := EntryOf(al, c, first, at, est), Entries(al, c, first, at, est);
    FirstEntryFor(al, c, items[0], first, at, est);
    NoOperands(items);
    if !Ends(e.act) {
      var c', rest := NextStep(al, c), Entries(al, NextStep(al, c), false, AfterAt(e), AfterEst(e));
      PutReads(al, c', items[1..], false, AfterAt(e), AfterEst(e));
      forall k | 0 < k < |es|
        ensures EntryFor(al, es[k], items[k], c.args, Operands(items, k))
      {
        OperandsShift(items, k);
        assert es[k] == rest[k - 1] && items[1..][k - 1] == items[k];
        OneLess(al, es[k], items[k], c.args, Operands(items[1..], k - 1), HasOperand(items[0]));
      }
    }
  }

  lemma FirstEntryFor(al: seq<int>, c: Step, it: Item, first: bool, at: int, est: int)
    requires Spelled(al, c.p, it) && TakesArg(ActAt(al, c.p)) == HasOperand(it) && (HasOperand(it) ==> c.args != [])
    ensures EntryFor(al, EntryOf(al, c, first, at, est), it, c.args, 0)
  {
    hide ActAt, Spelled, HasOperand, TakesArg;
  }

  lemma NoOperands(items: seq<Item>)
    ensures Operands(items, 0) == 0
  {
  }

  lemma OneLess(al: seq<int>, e: Entry, it: Item, args: seq<int>, n: nat, one: bool)
    requires one ==> args != []
    requires EntryFor(al, e, it, if one then args[1..] else args, n)
    ensures EntryFor(al, e, it, args, n + if one then 1 else 0)
  {
  }

  lemma RefEntered(l: Links, e: Entry, ref: Ref, l1: Links)
    requires LinksOk(l) && IsRef(e.act) && e.at !in l.mem && ref == Ref(KeyOf(e), IsFwd(e), |l.defs|)
    requires ref.key in l.chains
    requires l1 == Bound(l, e.at, ref) || l1 == Chained(l, e.at, ref)
    ensures Entered(e, l.defs, l.refs, l1.defs, l1.refs)
  {
    RefsInMem(l);
    assert l.defs + [] == l.defs;
  }

  lemma LabelEntered(l: Links, e: Entry)
    requires IsLabel(e.act) && KeyOf(e) in l.chains
    ensures var l' := Defined(l, KeyOf(e), e.at, e.est); Entered(e, l.defs, l.refs, l'.defs, l'.refs)
  {
  }

  /** No action has been put yet. */
  ghost function NoCode(maxsection: nat, keys: set<Key>): Build {
    Build(Links(map[], map k | k in keys :: 0, [], map[], map k | k in keys :: []), seq(maxsection, s => []), 0, false)
  }

  lemma NoCodeOk(al: seq<int>, maxsection: nat, keys: set<Key>)
    requires maxsection > 0 && ListOk(al)
    ensures var b := NoCode(maxsection, keys);
            BuildOk(al, b) && DefsPlaced(b) && Tracks(b, seq(maxsection, s => Base(s)), seq(maxsection, s => 0))
  {
    var b := NoCode(maxsection, keys);
    assert LinksOk(b.l);
    forall s | 0 <= s < |b.progs|
      ensures SectionOk(al, b.progs[s], s) && Complete(b.progs[s]) && Base(s) <= Free(b, s) <= Base(s + 1)
    {
    }
    forall s, x | 0 <= s < |b.progs|
      ensures Vacant(b, s, x)
    {
    }
  }

  /** The labels there are: ten local ones, global ones, and PC labels. */
  function LabelKeys(maxgl: nat, maxpc: nat): set<Key> {
    (set i | 0 <= i < 10 + maxgl :: LG(i)) + (set i | 0 <= i < maxpc :: PC(i))
  }

  /** The section that is current after a call with these entries. */
  function SectionAfter(all: seq<Entry>, sec: int): int {
    if all != [] && all[|all| - 1].act.Section? then all[|all| - 1].act.n else sec
  }

  class DasmState {
    const al: seq<int>  // the action list
    var mem: map<int, int>  // the section buffers, by position
    var labels: map<Key, int>
    var section: nat
    var pos: seq<int>
    var ofs: seq<int>
    var ok: bool  // the status is DASM_S_OK

    ghost var progs: seq<seq<Entry>>
    ghost var log: seq<Place>  // the places of the entries in the order they were put
    ghost var busy: bool
    ghost var defs: seq<Def>
    ghost var refs: map<int, Ref>
    ghost var chains: map<Key, seq<int>>
    var codesize: int
    ghost var stored: map<int, int>  // the section buffers after pass 1
    ghost var t: Linking

    ghost function LinksView(): Links
      reads this
    {
      Links(mem, labels, defs, refs, chains)
    }

    ghost function View(): Build
      reads this
    {
      Build(LinksView(), progs, section, busy)
    }

    ghost predicate Valid()
      reads this
    {
      && ListOk(al) && BuildOk(al, View()) && DefsPlaced(View()) && Tracks(View(), pos, ofs)
      && LogOk(progs, log, defs, refs)
    }

    /** `dasm_init`, `dasm_setupglobal`, `dasm_growpc` and `dasm_setup` */
    constructor (al: seq<int>, maxsection: nat, maxgl: nat, maxpc: nat)
      requires maxsection > 0 && ListOk(al)
      ensures Valid() && ok && !busy && this.al == al && section == 0 && log == [] && refs == map[]
      ensures labels.Keys == LabelKeys(maxgl, maxpc) && forall key :: key in labels ==> labels[key] == 0
      ensures |progs| == |pos| == |ofs| == maxsection
      ensures forall s :: 0 <= s < maxsection ==> progs[s] == [] && pos[s] == Base(s) && ofs[s] == 0
    {
      hide BuildOk, DefsPlaced, Tracks, LogOk;
      this.al := al;
      var keys := LabelKeys(maxgl, maxpc);
      mem, labels := map[], map k | k in keys :: 0;
      section, ok, busy := 0, true, false;
      pos := seq(maxsection, s => Base(s));
      ofs := seq(maxsection, s => 0);
      progs := seq(maxsection, s => []);
      log := [];
      defs, refs, chains := [], map[], map k | k in keys :: [];
      new;
      assert View() == NoCode(maxsection, keys);
      NoLog(progs);
      NoCodeOk(al, maxsection, keys);
    }

    /** The entry can be put next. */
    ghost predicate Fits(e: Entry)
      reads this
    {
      Valid() && busy && Fitting(al, View(), e) && (e.first ==> Plain(LinksView(), e.at - 1, e.p))
    }

    /** The next action of the call is c's. */
    ghost predicate Ready(c: Step)
      reads this
    {
      && busy && section < |progs|
      && var es := progs[section];
         if Complete(es) then
           c.op == -1 && c.op2 == -1 && c.last == 0 && section < |pos| && Plain(LinksView(), pos[section] - 1, c.p)
         else
           var e := es[|es| - 1];
           && c.p == NextAct(al, e.p)
           && if e.act.Byte? then c.op == e.act.b && c.op2 == e.op && c.last == e.act.b
              else c.op == -1 && c.op2 == -1 && c.last == e.last
    }

    /** The entry for the next action. */
    ghost function Coming(c: Step): Entry
      requires section < |progs| == |pos| == |ofs|
      reads this
    {
      EntryOf(al, c, Complete(progs[section]), pos[section], ofs[section])
    }

    lemma ComingFits(c: Step)
      requires Valid() && Ready(c) && pos[section] + c.slots <= Base(section + 1) && ActOk(al, c)
      requires InRange(ActAt(al, c.p), ArgOf(al, c))
      ensures Fits(Coming(c))
      ensures Coming(c).at !in mem || Slots(ActAt(al, c.p)) == 0
      ensures Slots(ActAt(al, c.p)) == 2 ==> Coming(c).at + 1 !in mem
    {
      hide LinksOk, LogOk, DefsPlaced;
      var s := section;
      assert SectionOk(al, progs[s], s) && Vacant(View(), s, pos[s]) && Vacant(View(), s, pos[s] + 1);
    }

    lemma TrackedLengths()
      requires Valid()
      ensures section < |progs| == |pos| == |ofs| && Within(progs, log)
    {
    }

    lemma OfsTracked()
      requires Valid() && section < |progs| && progs[section] != []
      ensures section < |ofs| && var es := progs[section]; ofs[section] == AfterEst(es[|es| - 1])
    {
    }

    /** What remains the same in a call. */
    twostate predicate InCall()
      reads this
    {
      section == old(section) && |pos| == old(|pos|) && labels.Keys == old(labels).Keys
    }

    /** The entry e has been put: the buffers hold it, and the estimate goes on behind it. */
    twostate predicate Did(e: Entry)
      reads this
    {
      && Valid() && InCall() && old(section) < |old(progs)| && old(section) < |pos| && old(section) < |old(pos)|
      && View() == Grown(old(View()), e, LinksView())
      && pos == old(pos)[section := old(pos[section]) + Slots(e.act)]
      && log == old(log) + [Place(section, |old(progs)[old(section)]|)]
    }

    /** Actions without buffer positions, except for the last one of a call. */
    method PutNone(size: int, ghost e: Entry)
      requires Fits(e) && Slots(e.act) == 0 && size == MaxSize(e.act, e.arg)
      modifies this`ofs, this`progs, this`busy, this`log
      ensures Did(e)
    {
      hide BuildOk, DefsPlaced, Fitting, Tracks, LogOk;
      ghost var b := View();
      NothingPut(al, b, e);
      TracksGrown(al, b, e, b.l, pos, ofs);
      ofs := ofs[section := ofs[section] + size];
      assert pos[section := pos[section]] == pos;
      AddEntry(e, b, old(pos), old(ofs));
    }

    /** The entry e has been put in the section buffers; b, pos0 and ofs0 are as before that. */
    ghost method AddEntry(e: Entry, b: Build, pos0: seq<int>, ofs0: seq<int>)
      requires ListOk(al) && Fitting(al, b, e) && Tracks(b, pos0, ofs0) && b.progs == progs && b.cur == section
      requires BuildOk(al, Grown(b, e, LinksView())) && DefsPlaced(Grown(b, e, LinksView()))
      requires section < |pos0| == |ofs0|
      requires pos == pos0[section := e.at + Slots(e.act)] && ofs == ofs0[section := AfterEst(e)]
      requires LogOk(progs, log, b.l.defs, b.l.refs) && Entered(e, b.l.defs, b.l.refs, defs, refs)
      modifies this`progs, this`busy, this`log
      ensures Valid() && View() == Grown(b, e, LinksView()) && section < |old(progs)|
      ensures log == old(log) + [Place(section, |old(progs)[section]|)]
    {
      hide BuildOk, DefsPlaced, Fitting, Tracks, LinksOk, LogOk, Entered;
      TracksGrown(al, b, e, LinksView(), pos0, ofs0);
      LogGrown(progs, log, b.l.defs, b.l.refs, section, e, defs, refs);
      log := log + [Place(section, |progs[section]|)];
      progs := progs[section := progs[section] + [e]];
      busy := !Ends(e.act);
      assert View() == Grown(b, e, LinksView());
    }

    /** Actions with one buffer position for a number. */
    method PutNumber(v: int, size: int, ghost e: Entry)
      requires Fits(e) && size == MaxSize(e.act, e.arg) && pos[section] !in mem
      requires ((e.act.Imm? || e.act.RelA? || e.act.Space?) && v == e.arg) || (e.act.Align? && v == e.est + size)
      modifies this`mem, this`pos, this`ofs, this`progs, this`busy, this`log
      ensures Did(e)
    {
      hide BuildOk, DefsPlaced, Fitting, Tracks, LogOk;
      ghost var b := View();
      TracksGrown(al, b, e, b.l, pos, ofs);
      NumberPut(al, b, e, v);
      mem := mem[pos[section] := v];
      pos := pos[section := pos[section] + 1];
      ofs := ofs[section := ofs[section] + size];
      AddEntry(e, b, old(pos), old(ofs));
    }

    /** A reference: bound to the label if it exists, else linked to its chain. The key is checked. */
    method PutRef(key: Key, fwd: bool, rel: bool, ghost e: Entry)
      requires Fits(e) && IsRef(e.act) && rel == IsRel(e.act) && key == KeyOf(e) && fwd == IsFwd(e) && ok
      requires pos[section] !in mem && (rel ==> pos[section] + 1 !in mem)
      modifies this
      ensures old(Within(progs, log)) && (ok <==> !old(Refused(labels.Keys, progs, log, e)))
      ensures ok ==> Did(e)
    {
      hide BuildOk, LinksOk, DefsPlaced, Fitting, Tracks, LogOk, Refused, Did, Fits;
      Refusal(e);
      if key !in labels || (!fwd && IsLocal(key) && labels[key] >= 0) {
        ok := false;
        return;
      }
      EnterRef(key, fwd, rel, e);
    }

    lemma Refusal(e: Entry)
      requires Fits(e)
      ensures Within(progs, log)
      ensures IsRef(e.act) ==>
                (Refused(labels.Keys, progs, log, e) <==>
                 KeyOf(e) !in labels || (!IsFwd(e) && IsLocal(KeyOf(e)) && labels[KeyOf(e)] >= 0))
      ensures !IsRef(e.act) ==> (Refused(labels.Keys, progs, log, e) <==> IsLabel(e.act) && KeyOf(e) !in labels)
    {
      if IsRef(e.act) {
        RefusedRef(LinksView(), progs, log, e);
      }
    }

    method EnterRef(key: Key, fwd: bool, rel: bool, ghost e: Entry)
      requires Fits(e) && IsRef(e.act) && rel == IsRel(e.act) && key == KeyOf(e) && fwd == IsFwd(e)
      requires key in labels && (!fwd && IsLocal(key) ==> labels[key] < 0)
      requires pos[section] !in mem && (rel ==> pos[section] + 1 !in mem)
      modifies this`mem, this`labels, this`pos, this`ofs, this`refs, this`chains, this`progs, this`busy, this`log
      ensures Did(e)
    {
      hide BuildOk, LinksOk, DefsPlaced, Fitting, Tracks, Chained, Bound, LogOk, Entered, Grown, Slots, MaxSize;
      hide AfterEst;
      ghost var b, ref := View(), Ref(key, fwd, |defs|);
      RefFacts(e);
      LinkRef(key, fwd, pos[section]);
      ghost var l1 := LinksView();
      PassRef(rel);
      RefPut(al, b, e, ref, l1, LinksView());
      RefEntered(b.l, e, ref, l1);
      assert pos == old(pos)[section := e.at + Slots(e.act)];
      AddEntry(e, b, old(pos), old(ofs));
    }

    method PassRef(rel: bool)
      requires section < |pos| == |ofs|
      modifies this`mem, this`pos, this`ofs
      ensures pos == old(pos)[section := old(pos)[section] + if rel then 2 else 1]
      ensures ofs == old(ofs)[section := old(ofs)[section] + 4]
      ensures LinksView() ==
              if rel then old(LinksView()).(mem := old(mem)[old(pos)[section] + 1 := old(ofs)[section] + 4])
                             else old(LinksView())
    {
      pos := pos[section := pos[section] + 1];
      ofs := ofs[section := ofs[section] + 4];  // maximum offset needed
      if rel {
        mem := mem[pos[section] := ofs[section]];  // store pass1 offset estimate
        pos := pos[section := pos[section] + 1];
      }
    }

    lemma RefFacts(e: Entry)
      requires Fits(e) && IsRef(e.act)
      ensures section < |progs| == |pos| == |ofs| && pos[section] > 0 && e.at == pos[section] && e.est == ofs[section]
      ensures LinksOk(LinksView()) && (IsFwd(e) ==> IsLocal(KeyOf(e))) && (KeyOf(e) in labels ==> KeyOf(e) in chains)
      ensures Slots(e.act) == (if IsRel(e.act) then 2 else 1) && AfterEst(e) == e.est + 4
    {
      FwdIsLocal(al, e);
      PositionsPositive();
    }

    lemma PositionsPositive()
      requires Valid() && busy
      ensures pos[section] > 0
    {
      var es := progs[section];
      assert SectionOk(al, es, section);
      EndPositive(al, es, section);
    }

    /** The label or its chain is stored, and the reference becomes the head of the chain. */
    method LinkRef(key: Key, fwd: bool, x: int)
      requires LinksOk(LinksView()) && x > 0 && x !in mem && key in labels
      requires if fwd then IsLocal(key) else IsLocal(key) ==> labels[key] < 0
      modifies this`mem, this`labels, this`refs, this`chains
      ensures LinksOk(LinksView()) && labels.Keys == old(labels).Keys
      ensures var l, ref := old(LinksView()), Ref(key, fwd, |defs|);
              && key in l.chains && key in l.labels
              && LinksView() == if !fwd && l.labels[key] < 0 then Bound(l, x, ref) else Chained(l, x, ref)
    {
      hide LinksOk;
      ghost var l, ref := LinksView(), Ref(key, fwd, |defs|);
      KeyFacts(l, key);
      var n := labels[key];
      refs := refs[x := ref];
      if !fwd && n < 0 {  // label exists: get label pos and store it
        BoundOk(l, x, ref);
        mem := mem[x := -n];
        assert LinksView() == Bound(l, x, ref);
      } else {
        ChainedOk(l, x, ref);
        if n < 0 {
          n := 0;  // start new chain for fwd rel if label exists
        }
        mem := mem[x := n];  // else link to rel chain, anchored at label
        labels := labels[key := x];
        chains := chains[key := [x] + chains[key]];
        assert LinksView() == Chained(l, x, ref);
      }
    }

    /** A label: collapse its chain and replace each link with the position of the label. */
    method PutLabel(key: Key, ghost e: Entry)
      requires Fits(e) && IsLabel(e.act) && key == KeyOf(e) && ok && pos[section] !in mem
      modifies this
      ensures old(Within(progs, log)) && (ok <==> !old(Refused(labels.Keys, progs, log, e)))
      ensures ok ==> Did(e)
    {
      hide BuildOk, LinksOk, DefsPlaced, Fitting, Tracks, Defined, LogOk, Refused;
      Refusal(e);
      if key !in labels {
        ok := false;
        return;
      }
      ghost var b := View();
      LabelFacts(e);
      DefineLabel(key);
      pos := pos[section := pos[section] + 1];
      LabelPut(al, b, e, LinksView());
      LabelEntered(b.l, e);
      assert ofs[section := ofs[section]] == ofs;
      AddEntry(e, b, old(pos), old(ofs));
    }

    method DefineLabel(key: Key)
      requires LinksOk(LinksView()) && key in labels && section < |pos| == |ofs|
      modifies this`mem, this`labels, this`defs, this`chains
      ensures key in old(chains) && labels.Keys == old(labels).Keys
      ensures LinksView() == Defined(old(LinksView()), key, pos[section], ofs[section])
    {
      hide LinksOk, Collapsed;
      KeyFacts(LinksView(), key);
      Collapse(labels[key], pos[section], chains[key]);
      labels := labels[key := -pos[section]];  // label exists now
      mem := mem[pos[section] := ofs[section]];  // store pass1 offset estimate
      defs := defs + [Def(key, pos[section])];
      chains := chains[key := []];
    }

    lemma LabelFacts(e: Entry)
      requires Fits(e) && IsLabel(e.act)
      ensures section < |progs| == |pos| == |ofs| && pos[section] > 0 && e.at == pos[section] && e.est == ofs[section]
      ensures LinksOk(LinksView())
    {
      PositionsPositive();
    }

    method Collapse(head: int, at: int, ghost c: seq<int>)
      requires Threaded(mem, c) && if c == [] then head <= 0 else head == c[0]
      modifies this`mem
      ensures mem == Collapsed(old(mem), c, |c|, at)
    {
      ghost var m0 := mem;
      var n := head;
      ghost var k := 0;
      while n > 0
        invariant 0 <= k <= |c| && mem == Collapsed(m0, c, k, at)
        invariant if k < |c| then n == c[k] else n <= 0
        decreases |c| - k
      {
        CollapseStep(m0, c, k, at);
        var next := mem[n];
        mem := mem[n := at];
        n := next;
        k := k + 1;
      }
    }

    /** Pass 1: store actions and args, link branches and labels, estimate offsets. */
    method Put(start: nat, args0: seq<int>)
      requires PutOk(al, Start(start, args0))
      requires ok ==> Valid() && !busy && section < |pos| && pos[section] + DASM_MAXSECPOS <= Base(section + 1)
      modifies this
      ensures ok ==> Valid() && !busy && old(section) < |old(progs)| == |old(pos)| == |old(ofs)|
      ensures ok ==> labels.Keys == old(labels).Keys && |pos| == old(|pos|)
      ensures ok ==> old(pos[section]) < pos[old(section)] <= old(pos[section]) + DASM_MAXSECPOS
                     && forall s :: 0 <= s < |pos| && s != old(section) ==> pos[s] == old(pos)[s]
      ensures ok ==> section == SectionAfter(Entries(al, Start(start, args0), true,
                                                     old(pos[section]) + 1, old(ofs[section])), old(section))
      ensures ok ==> progs == old(progs)[old(section) := old(progs[section])
                                                         + Entries(al, Start(start, args0), true,
                                                                   old(pos[section]) + 1, old(ofs[section]))]
      ensures ok ==> log == old(log) + Row(old(section), |old(progs[section])|,
                                           |progs[old(section)]| - |old(progs[section])|)
      ensures old(ok) ==> old(section) < |old(progs)| == |old(pos)| == |old(ofs)|
      ensures ok <==>
              && old(ok)
              && var all := Entries(al, Start(start, args0), true, old(pos[section]) + 1, old(ofs[section]));
                 && NoneRefused(old(labels.Keys), old(progs), old(log), old(section), all, |all|)
                 && SectionKnown(all, old(|pos|))
    {
      hide BuildOk, DefsPlaced, Tracks, Ready, Entries, PutOk, ActOk, Added, Complete, ActAt, Slots, MaxSize, LogOk;
      hide Row, Ends, TakesArg, ListOk, Going, Gone, NoneRefused, RefusedAt;
      if !ok {  // what is stored once the status is an error is never linked
        return;
      }
      TrackedLengths();
      Begin(start, args0);
      var p, args := start, args0;
      ghost var c, sec, progs0, log0, done := Start(start, args0), section, progs, log, [];
      ghost var keys := labels.Keys;
      ghost var all := Entries(al, c, true, pos[sec], ofs[sec]);
      AddedNone(progs0, log0, sec);
      StartGoing(c, progs0, log0, all);
      while true
        invariant Going(c, sec, keys, progs0, log0, done, all) && p == c.p && args == c.args && |pos| == old(|pos|)
        invariant sec == old(section) < |pos| && pos == old(pos)[sec := pos[sec]]
        invariant old(pos[section]) < pos[sec] && pos[sec] + c.slots == old(pos[section]) + DASM_MAXSECPOS
        decreases |al| - p
      {
        var a := ActAt(al, p);
        NextArg(c, sec, keys, progs0, log0, done, all);
        done := PutNext(p, if TakesArg(a) then args[0] else 0, c, sec, keys, progs0, log0, done, all);
        if !ok {
          return;
        }
        if Ends(a) {
          FinishGone(a, sec, keys, progs0, log0, all);
          Finish(p);
          return;
        }
        c := NextStep(al, c);
        args := if TakesArg(a) then args[1..] else args;
        p := NextAct(al, p);
      }
    }

    /** In the middle of a call: `done` has been put, of `all`. */
    ghost predicate Going(c: Step, sec: nat, keys: set<Key>, progs0: seq<seq<Entry>>, log0: seq<Place>,
                          done: seq<Entry>, all: seq<Entry>)
      reads this
    {
      && Valid() && ok && section == sec && Added(progs0, log0, sec, done, progs, log)
      && sec < |pos| == |ofs| && Ready(c) && PutOk(al, c) && pos[sec] + c.slots <= Base(sec + 1)
      && all == done + Entries(al, c, done == [], pos[sec], ofs[sec])
      && labels.Keys == keys && NoneRefused(keys, progs0, log0, sec, all, |done|)
    }

    /** At the end of it. */
    ghost predicate Gone(a: Act, sec: nat, keys: set<Key>, progs0: seq<seq<Entry>>, log0: seq<Place>, all: seq<Entry>)
      reads this
    {
      && Valid() && ok && !busy && section == sec && sec < |progs0| == |pos| == |ofs|
      && progs == progs0[sec := progs0[sec] + all] && log == log0 + Row(sec, |progs0[sec]|, |all|)
      && all != [] && all[|all| - 1].act == a && NoneRefused(keys, progs0, log0, sec, all, |all|)
      && labels.Keys == keys
    }

    lemma StartGoing(c: Step, progs0: seq<seq<Entry>>, log0: seq<Place>, all: seq<Entry>)
      requires Valid() && ok && section < |pos| == |ofs| && Added(progs0, log0, section, [], progs, log)
      requires Ready(c) && PutOk(al, c) && pos[section] + c.slots <= Base(section + 1)
      requires all == Entries(al, c, true, pos[section], ofs[section])
      ensures Going(c, section, labels.Keys, progs0, log0, [], all)
    {
      assert [] + all == all;
    }

    lemma NextArg(c: Step, sec: nat, keys: set<Key>, progs0: seq<seq<Entry>>, log0: seq<Place>, done: seq<Entry>,
                  all: seq<Entry>)
      requires Going(c, sec, keys, progs0, log0, done, all)
      ensures (!Ends(ActAt(al, c.p)) ==> c.p < |al|) && (TakesArg(ActAt(al, c.p)) ==> c.args != [])
      ensures sec < |pos| == |ofs| && Slots(ActAt(al, c.p)) <= c.slots && labels.Keys == keys
    {
      NextEntries(al, c, done == [], pos[sec], ofs[sec]);
    }

    lemma FinishGone(a: Act, sec: nat, keys: set<Key>, progs0: seq<seq<Entry>>, log0: seq<Place>, all: seq<Entry>)
      requires Gone(a, sec, keys, progs0, log0, all)
      ensures Valid() && ok && !busy && sec < |progs0| == |pos| == |ofs|
      ensures progs == progs0[sec := progs0[sec] + all] && log == log0 + Row(sec, |progs0[sec]|, |all|)
      ensures all != [] && all[|all| - 1].act == a && NoneRefused(keys, progs0, log0, sec, all, |all|)
      ensures labels.Keys == keys && section == sec
    {
    }

    /** One action of a call */
    method PutNext(p: nat, arg: int, ghost c: Step, ghost sec: nat, ghost keys: set<Key>,
                   ghost progs0: seq<seq<Entry>>, ghost log0: seq<Place>, ghost done: seq<Entry>, ghost all: seq<Entry>)
      returns (ghost done': seq<Entry>)
      requires Going(c, sec, keys, progs0, log0, done, all) && p == c.p
      requires TakesArg(ActAt(al, p)) ==> c.args != []
      requires arg == if TakesArg(ActAt(al, p)) then c.args[0] else 0
      modifies this
      ensures ok && Ends(ActAt(al, p)) ==> Gone(ActAt(al, p), sec, keys, progs0, log0, all) && |pos| == old(|pos|)
      ensures ok && !Ends(ActAt(al, p)) ==>
                Going(NextStep(al, c), sec, keys, progs0, log0, done', all) && |pos| == old(|pos|)
      ensures ok ==> sec < |old(pos)| && pos == old(pos)[sec := old(pos)[sec] + Slots(ActAt(al, p))]
      ensures !ok ==> sec < |progs0| && !NoneRefused(keys, progs0, log0, sec, all, |all|)
    {
      hide BuildOk, DefsPlaced, Tracks, Ready, Entries, PutOk, ActOk, Added, Complete, ActAt, Slots, MaxSize, LogOk;
      hide Row, Ends, TakesArg, NextAct, ListOk, NoneRefused, RefusedAt, Refused;
      TrackedLengths();
      AddedFirst(progs0, log0, sec, done, progs, log);
      ghost var e := Coming(c);
      NextEntries(al, c, done == [], pos[sec], ofs[sec]);
      AddedOne(progs0, log0, sec, done, progs, log, e);
      assert done + [e] <= all;
      RefusedNext(keys, progs0, log0, sec, done, progs, log, all, e);
      RefusedMore(keys, progs0, log0, sec, all, |done|);
      PutAct(p, arg, c);
      done' := done + [e];
    }

    /** Store where the call starts in the action list. */
    method Begin(start: nat, ghost args: seq<int>)
      requires Valid() && ok && !busy && section < |pos| && pos[section] < Base(section + 1)
      modifies this`mem, this`pos, this`busy
      ensures Valid() && section < |pos| && Ready(Start(start, args))
      ensures pos == old(pos)[section := old(pos[section]) + 1]
      ensures section < |progs| && Complete(progs[section])
    {
      ghost var b := View();
      StartedOk(al, b, start);
      RefsInMem(b.l);
      TracksStarted(b, pos, ofs, b.l.(mem := b.l.mem[pos[section] := start]));
      mem := mem[pos[section] := start];
      pos := pos[section := pos[section] + 1];
      busy := true;
    }

    method Finish(p: nat)
      requires Valid() && !busy
      modifies this`section, this`ok
      ensures ok ==> old(ok) && Valid()
      ensures ok <==> old(ok) && (ActAt(al, p).Section? ==> ActAt(al, p).n < |pos|)
      ensures ok ==> section == if ActAt(al, p).Section? then ActAt(al, p).n else old(section)
    {
      var a := ActAt(al, p);
      if a.Section? {
        SectionArg(p);
        Switch(a.n);
      }
    }

    lemma SectionArg(p: nat)
      requires Valid() && ActAt(al, p).Section?
      ensures ActAt(al, p).n >= 0
    {
    }

    /** `DASM_SECTION` */
    method Switch(n: nat)
      requires Valid() && !busy
      modifies this`section, this`ok
      ensures ok ==> old(ok) && Valid()
      ensures ok <==> old(ok) && n < |pos|
      ensures ok ==> section == n
    {
      if n >= |pos| {
        ok := false;
      } else {
        SwitchedOk(al, View(), n);
        TracksSwitched(View(), pos, ofs, n);
        section := n;
      }
    }

    /** One action of the list. */
    method PutAct(p: nat, arg: int, ghost c: Step)
      requires Valid() && ok && Ready(c) && pos[section] + c.slots <= Base(section + 1)
      requires ActOk(al, c) && p == c.p && arg == ArgOf(al, c)
      modifies this
      ensures old(section < |progs| == |pos| == |ofs|)
      ensures old(Within(progs, log)) && (ok <==> !old(Refused(labels.Keys, progs, log, Coming(c))))
      ensures ok ==> Valid() && InCall() && section < |pos| == |ofs| && busy == !Ends(ActAt(al, p))
      ensures ok ==> pos == old(pos)[section := old(pos[section]) + Slots(ActAt(al, p))]
      ensures ok ==> ofs[section] == old(ofs[section]) + MaxSize(ActAt(al, p), arg)
      ensures ok ==> progs == old(progs)[section := old(progs[section]) + [old(Coming(c))]]
      ensures ok ==> log == old(log) + [Place(section, |old(progs[section])|)]
      ensures ok && busy ==> Ready(NextStep(al, c))
    {
      hide BuildOk, DefsPlaced, Fitting, Tracks, Ready, Plain, Fits;
      TrackedLengths();
      ghost var e := Coming(c);
      if !InRange(ActAt(al, p), arg) {
        ok := false;
        return;
      }
      hide Refused;
      ComingFits(c);
      PutOp(p, arg, e);
      if ok {
        OfsTracked();
        TrackedLengths();
        ReadyNext(c, e);
      }
    }

    method PutOp(p: nat, arg: int, ghost e: Entry)
      requires Fits(e) && ok && section < |pos| == |ofs| && e.act == ActAt(al, p) && e.act != Unknown
      requires e.arg == (if TakesArg(e.act) then arg else 0)
      requires e.at == pos[section] && e.est == ofs[section]
      requires (e.at !in mem || Slots(e.act) == 0) && (Slots(e.act) == 2 ==> e.at + 1 !in mem)
      modifies this
      ensures old(Within(progs, log)) && (ok <==> !old(Refused(labels.Keys, progs, log, e)))
      ensures ok ==> Did(e)
    {
      hide BuildOk, DefsPlaced, Fitting, Tracks, Fits, Did, Refused;
      Refusal(e);
      match ActAt(al, p) {
        case Byte(_) => PutNone(1, e);
        case Extern(_, _) => PutNone(4, e);
        case Section(_) => PutNone(0, e);
        case Stop => PutNone(0, e);
        case Imm(size, _) => PutNumber(arg, size, e);
        case RelA => PutNumber(arg, 4, e);
        case Space(_) => PutNumber(arg, arg, e);
        case Align(mask) => PutNumber(ofs[section] + mask, mask, e);
        case RefLG(rel, n) => PutRef(LG(if n > 246 then n - 246 else n), n > 246, rel, e);
        case RefPC(rel) => PutRef(PC(arg), false, rel, e);
        case LabelLG(n) => PutLabel(LG(n), e);
        case LabelPC => PutLabel(PC(arg), e);
      }
    }

    lemma ReadyNext(c: Step, e: Entry)
      requires section < |progs| && progs[section] != [] && var es := progs[section]; es[|es| - 1] == e
      requires exists first: bool, at: int, est: int :: e == EntryOf(al, c, first, at, est)
      ensures busy && !Ends(e.act) ==> Ready(NextStep(al, c))
    {
    }

    // ---- Pass 2

    /** The state of the labels after pass 1. */
    ghost function Stored(): Build
      reads this
    {
      View().(l := LinksView().(mem := stored))
    }

    /** Pass 1 is over, and pass 2 has come as far as t says. */
    ghost predicate Passing()
      reads this
    {
      && ListOk(al) && BuildOk(al, Stored()) && !busy && DefsPlaced(Stored()) && Tracks(Stored(), pos, ofs)
      && t.progs == progs && AllResolved(Stored().l, t.m0) && LinkingOk(al, t, mem) && LogOk(progs, log, defs, refs)
    }

    /** Pass 2 is over. */
    ghost predicate Linked()
      reads this
    {
      Passing() && t.s == |progs| && codesize == t.fins[|progs|][0]
    }

    /** By how much the branch at pos can be shrunk. */
    method Shrink(secnum: nat, pos: int, ofs0: int, op: int) returns (sh: int)
      requires Passing() && Current(t) && secnum == t.s
      requires var e := t.progs[t.s][t.k];
               IsRel(e.act) && pos == e.at && ofs0 == t.fins[t.s][t.k] - e.est && op == e.last
      ensures sh in {0, 3, 4} && Shape(Stepped(t, sh)) && Done(Stepped(t, sh), t.s, t.k)
      ensures ShrinkAt(Stepped(t, sh), t.s, t.k)
    {
      hide LinkingOk, BuildOk, DefsPlaced, AllResolved, ShrinkAt, Stepped, LogOk;
      ghost var i2, j2 := RefTarget(al, Stored(), t, mem, t.s, t.k);
      var shrink := if op == 0xe9 then 3 else if 0x80 <= op < 0x90 then 4 else 0;
      if shrink == 0 || mem[pos] < 0 {  // not a shrinkable branch opcode, or ext global
        FarStaysLong(al, t, mem, i2, j2);
        NoChoiceOk(t);
        return 0;
      }
      LabelFound(al, t, mem, i2, j2);
      var lpos := mem[pos];
      var lofs := mem[lpos];
      if lpos > pos {  // fwd label: add cumulative section offsets
        var i: nat := secnum;
        while i < lpos / 0x1000000
          invariant secnum <= i <= i2 && lofs == mem[lpos] + SectionEsts(t.progs, secnum, i)
        {
          OneMoreSection(t.progs, secnum, i);
          lofs := lofs + ofs[i];
          i := i + 1;
        }
      } else {
        lofs := lofs - ofs0;  // bkwd label: unfix offset
      }
      lofs := lofs - mem[pos + 1];  // short branch ok?
      if -128 - shrink <= lofs <= 127 {
        ChoiceOk(al, t, mem, i2, j2, shrink);
        return shrink;
      }
      FarStaysLong(al, t, mem, i2, j2);
      NoChoiceOk(t);
      return 0;  // no, cannot shrink op
    }

    /** One action of pass 2; `ofs` is what to add to estimates. */
    method LinkAct(secnum: nat, p: nat, pos: int, ofs0: int, op: int) returns (pos': int, ofs': int)
      requires Passing() && Current(t) && secnum == t.s
      requires var e := t.progs[t.s][t.k];
               p == e.p && pos == e.at && ofs0 == t.fins[t.s][t.k] - e.est && op == e.last
      modifies this`mem, this`t
      ensures Passing() && old(Current(t)) && (exists shrink :: t == Stepped(old(t), shrink)) && Shape(t)
      ensures t.s == old(t.s)
      ensures pos' == old(t.progs[t.s][t.k].at + Slots(t.progs[t.s][t.k].act)) && t.k == old(t.k) + 1
      ensures ofs' == t.fins[t.s][t.k] - old(AfterEst(t.progs[t.s][t.k]))
    {
      hide BuildOk, DefsPlaced, Tracks, AllResolved, LinkingOk, LogOk, ShrinkAt, Stepped, SteppedMem;
      ghost var t0, mem0, shrink := t, mem, 0;
      pos', ofs', shrink := FixAct(secnum, p, pos, ofs0, op);
      SteppedOk(al, t0, mem0, shrink);
      SteppedNext(t0, shrink);
      t := Stepped(t0, shrink);
    }

    /** The number of an action in the buffer is made final; a branch may get shorter. */
    method FixAct(secnum: nat, p: nat, pos: int, ofs0: int, op: int) returns (pos': int, ofs': int, ghost shrink: int)
      requires Passing() && Current(t) && secnum == t.s
      requires var e := t.progs[t.s][t.k];
               p == e.p && pos == e.at && ofs0 == t.fins[t.s][t.k] - e.est && op == e.last
      modifies this`mem
      ensures shrink in {0, 3, 4} && Shape(Stepped(t, shrink)) && Done(Stepped(t, shrink), t.s, t.k)
      ensures ShrinkAt(Stepped(t, shrink), t.s, t.k) && mem == SteppedMem(t, old(mem), shrink)
      ensures var e, fin := t.progs[t.s][t.k], t.fins[t.s][t.k];
              pos' == e.at + Slots(e.act) && ofs' == fin + Size(e, fin, shrink) - AfterEst(e)
    {
      hide BuildOk, DefsPlaced, Tracks, AllResolved, LinkingOk, LogOk, ShrinkAt, Stepped, Shape;
      CurrentFacts(al, t, mem);
      shrink := 0;
      if !IsRel(t.progs[t.s][t.k].act) {
        NoChoiceOk(t);
      }
      pos', ofs' := pos, ofs0;
      var a := ActAt(al, p);
      if IsRel(a) {
        var sh := Shrink(secnum, pos, ofs0, op);
        shrink := sh;
        ofs' := ofs0 - sh;
        mem := mem[pos + 1 := sh];
        pos' := pos + 2;
      } else if IsLabel(a) {
        mem := mem[pos := mem[pos] + ofs0];  // fix label offset
        pos' := pos + 1;
      } else if a.Align? {
        ofs' := ofs0 - (mem[pos] + ofs0) % (a.mask + 1);  // adjust ofs
        pos' := pos + 1;
      } else {
        pos' := pos + Slots(a);
      }
    }

    /** Handle globals not defined in this translation unit. */
    method MarkGlobals()
      requires Valid() && !busy && forall key :: key in labels && labels[key] > 0 ==> key.LG? && key.i >= 10
      modifies this`mem
      ensures AllResolved(old(LinksView()), mem)
    {
      hide BuildOk, DefsPlaced, Tracks, Marked, LinksOk, AllResolved, LogOk;
      ghost var l := LinksView();
      LinksNow();
      var work := set key | key in labels && labels[key] > 0;
      MarkedBegin(l, work);
      while work != {}
        invariant Marked(l, mem, work) && forall key :: key in work ==>
                  key in labels && key.LG? && key.i >= 10 && labels[key] > 0
        decreases |work|
      {
        var key := AnyKey(work);
        KeyFacts(l, key);
        MarkedThread(l, mem, work, key);
        MarkedStep(l, mem, work, key);
        // undefined label: collapse rel chain and replace with marker (< 0)
        Collapse(labels[key], -key.i, chains[key]);
        work := work - {key};
      }
      MarkedEnd(l, mem);
    }

    lemma LinksNow()
      requires Valid()
      ensures LinksOk(LinksView())
    {
    }

    /** Pass 2: link sections, shrink branches and alignment, fix label offsets. */
    method Link() returns (r: LinkResult)
      requires ok ==> Valid() && !busy && forall key :: key in labels && IsLocal(key) ==> labels[key] <= 0
      modifies this
      ensures r.Linked? ==> Linked() && r.size == codesize && progs == old(progs) && log == old(log)
      ensures r.Failed? <==> !old(ok)
      ensures old(ok) ==> old(Within(progs, log))
      ensures r.Undefined? <==> old(ok) && old(exists key :: key in labels && key.PC? && Pending(progs, log, key))
    {
      if !ok {
        return Failed;
      }
      PendingLabels();
      if exists key :: key in labels && key.PC? && labels[key] > 0 {
        return Undefined;
      }
      LinkAll();
      r := LinkResult.Linked(codesize);
    }

    lemma PendingLabels()
      requires Valid()
      ensures Within(progs, log)
      ensures forall key :: key in labels ==> (Pending(progs, log, key) <==> labels[key] > 0)
    {
      hide Pending;
      forall key | key in labels
        ensures Pending(progs, log, key) <==> labels[key] > 0
      {
        PendingIff(LinksView(), progs, log, key);
      }
    }

    method LinkAll()
      requires Valid() && !busy && forall key :: key in labels && labels[key] > 0 ==> key.LG? && key.i >= 10
      modifies this
      ensures Linked() && progs == old(progs) && log == old(log) && stored == old(mem)
    {
      hide BuildOk, DefsPlaced, Tracks, AllResolved, LinkingOk, LogOk;
      Prepare();
      Lengths();
      var secnum, ofs0 := 0, 0;
      while secnum < |pos|
        invariant secnum <= |pos| == |progs| == |ofs| && Passing() && Shape(t) && t.s == secnum && t.k == 0
        invariant ofs0 == t.fins[secnum][0]
        invariant progs == old(progs) && log == old(log) && stored == old(mem)
      {
        ofs0 := LinkSection(secnum, ofs0);
        secnum := secnum + 1;
      }
      codesize := ofs0;
    }

    method Prepare()
      requires Valid() && !busy && forall key :: key in labels && labels[key] > 0 ==> key.LG? && key.i >= 10
      modifies this`mem, this`stored, this`t
      ensures Passing() && t == Beginning(progs, mem) && stored == old(mem) && Shape(t)
    {
      hide BuildOk, DefsPlaced, Tracks, AllResolved, LinkingOk, LogOk;
      stored := mem;
      MarkGlobals();
      t := Beginning(progs, mem);
      BeginningOk(al, Stored(), mem);
    }

    lemma Lengths()
      requires Passing()
      ensures |pos| == |progs| == |ofs|
    {
    }

    /** One code section; the next one starts right after it. */
    method LinkSection(secnum: nat, ofs0: int) returns (ofs1: int)
      requires Passing() && secnum == t.s < |progs| == |pos| == |ofs| && t.k == 0 && ofs0 == t.fins[secnum][0]
      modifies this`mem, this`t
      ensures Passing() && Shape(t) && t.s == secnum + 1 && t.k == 0 && ofs1 == t.fins[secnum + 1][0]
    {
      hide BuildOk, DefsPlaced, AllResolved, LinkingOk, LogOk;
      BeginSection(al, t, mem);
      var at, lastpos := secnum * 0x1000000, pos[secnum];
      ofs1 := ofs0;
      AtCall(al, t, mem, at);
      SectionEnd(secnum);
      while at != lastpos
        invariant Passing() && t.s == secnum && Shape(t) && Between(t, at) && ofs1 == t.fins[secnum][t.k] - CurEst(t)
        invariant at != lastpos <==> Current(t)
        decreases |progs[secnum]| - t.k
      {
        at, ofs1 := LinkCall(secnum, at, ofs1);
        AtCall(al, t, mem, at);
      }
      ofs1 := ofs1 + ofs[secnum];
      NextSectionOk(al, t, mem);
      t := NextSection(t);
    }

    lemma SectionEnd(s: nat)
      requires Passing() && s < |pos| == |progs|
      ensures pos[s] == EndAt(progs[s], s) - 1 && ofs[s] == EndEst(progs[s]) && Shape(t)
    {
      assert pos[s] == Free(Stored(), s);
    }

    /** The actions of one call of `dasm_put`. */
    method LinkCall(secnum: nat, at0: int, ofs0: int) returns (at: int, ofs1: int)
      requires Passing() && secnum == t.s && Current(t) && Between(t, at0) && ofs0 == t.fins[secnum][t.k] - CurEst(t)
      modifies this`mem, this`t
      ensures Passing() && t.s == secnum && Shape(t) && t.k > old(t.k) && t.k <= |progs[secnum]| && Between(t, at)
      ensures ofs1 == t.fins[secnum][t.k] - CurEst(t)
    {
      hide BuildOk, DefsPlaced, AllResolved, LinkingOk, LogOk, Stepped;
      AtCall(al, t, mem, at0);
      var p := mem[at0];
      at, ofs1 := at0 + 1, ofs0;
      var op := 0;
      while true
        invariant Passing() && t.s == secnum && Current(t) && t.k >= old(t.k)
        invariant var e := t.progs[t.s][t.k];
                  p == e.p && at == e.at && op == e.last && ofs1 == t.fins[secnum][t.k] - e.est
        decreases |progs[secnum]| - t.k
      {
        CurrentFacts(al, t, mem);
        ghost var t0 := t;
        var a := ActAt(al, p);
        at, ofs1 := LinkAct(secnum, p, at, ofs1, op);
        SteppedOn(t0, t);
        if Ends(a) {
          BehindCall(al, t, mem);
          return;
        }
        InsideCall(al, t, mem);
        p := NextAct(al, p);
        if a.Byte? {
          op := a.b;
        }
      }
    }

    // ---- Pass 3

    /** Pass 3: encode sections. There is never a phase error (DASM_S_PHASE): the code has the size found
        by pass 2, every entry is where pass 2 says, and every reference is to where its label is. */
    method Encode(w: World)
      returns (phaseOk: bool, out: seq<int>, globals: map<int, int>)
      requires Linked()
      ensures phaseOk && |out| == codesize && Shape(t) && t.s == |t.progs|
      ensures forall i: nat, j: nat {:trigger CodeAt(t, out, w, i, j)} :: Exists(t, i, j) ==>
              CodeAt(t, out, w, i, j)
      ensures Within(t.progs, log) && forall n: nat {:trigger BranchOk(t, log, out, n)} :: n < |log| ==>
              BranchOk(t, log, out, n)
      ensures forall i: nat, j: nat {:trigger t.progs[i][j]} :: Exists(t, i, j) ==>
              ImmCode(t.progs[i][j], out, t.fins[i][j])
      ensures forall i: nat, j: nat, it {:trigger Spelled(al, t.progs[i][j].p, it)} ::
                Exists(t, i, j) && Spelled(al, t.progs[i][j].p, it) ==> Says(it, t, out, w, i, j)
      ensures forall idx :: GlobalIs(t, w, globals, idx)
    {
      hide BuildOk, DefsPlaced, Tracks, AllResolved, LinkingOk, LogOk, Emitted, BranchOk, CodeAt, GlobalsTo, GlobalIs;
      hide ImmCode, Says;
      out, globals := [], w.globals;
      Lengths();
      NothingEmitted(al, t, mem, w);
      GlobalsStart(w);
      var secnum := 0;
      while secnum < |pos|
        invariant secnum <= |pos| == |progs| && Shape(t) && t.s == |t.progs| && Emitted(t, out, w, secnum, 0)
        invariant globals == GlobalsTo(t, w, secnum, 0)
      {
        out, globals := EncodeSection(secnum, out, w, globals);
        secnum := secnum + 1;
      }
      AllEmitted(t, out, w);
      BranchesLand(out, w);
      forall i: nat, j: nat | Exists(t, i, j)
        ensures ImmCode(t.progs[i][j], out, t.fins[i][j])
      {
        assert CodeAt(t, out, w, i, j);
        ImmediateIs(al, t, mem, out, w, i, j);
      }
      forall i: nat, j: nat, it | Exists(t, i, j) && Spelled(al, t.progs[i][j].p, it)
        ensures ItemOk(it) && Says(it, t, out, w, i, j)
      {
        assert CodeAt(t, out, w, i, j);
        CodeSays(al, t, mem, out, w, i, j, it);
      }
      forall idx
        ensures GlobalIs(t, w, globals, idx)
      {
        GlobalsAre(t, w, idx);
      }
      phaseOk := |out| == codesize;  // check for phase errors
    }

    lemma BranchesLand(out: seq<int>, w: World)
      requires Linked() && Shape(t) && t.s == |t.progs|
      requires forall i: nat, j: nat {:trigger CodeAt(t, out, w, i, j)} :: Exists(t, i, j) ==>
               CodeAt(t, out, w, i, j)
      ensures Within(t.progs, log) && forall n: nat {:trigger BranchOk(t, log, out, n)} :: n < |log| ==>
              BranchOk(t, log, out, n)
    {
      hide AllResolved, LinkingOk, CodeAt, BoundTo;
      forall n: nat | n < |log|
        ensures BranchOk(t, log, out, n)
      {
        if IsRel(EntryAt(progs, log, n).act) {
          assert CodeAt(t, out, w, log[n].s, log[n].k);
          BranchBound(al, Stored(), log, t, mem, out, w, n);
        }
      }
    }

    lemma GlobalsStart(w: World)
      requires Shape(t) && t.s == |t.progs|
      ensures GlobalsTo(t, w, 0, 0) == w.globals
    {
    }

    lemma GlobalsOn(w: World, i: nat)
      requires Shape(t) && t.s == |t.progs| && i < t.s
      ensures GlobalsTo(t, w, i + 1, 0) == GlobalsTo(t, w, i, |t.progs[i]|)
    {
    }

    method EncodeSection(secnum: nat, out0: seq<int>, w: World, globals1: map<int, int>)
      returns (out: seq<int>, globals: map<int, int>)
      requires Linked() && secnum < |progs| == |pos| && Shape(t) && t.s == |t.progs|
      requires Emitted(t, out0, w, secnum, 0) && globals1 == GlobalsTo(t, w, secnum, 0)
      ensures Emitted(t, out, w, secnum + 1, 0) && globals == GlobalsTo(t, w, secnum + 1, 0)
    {
      hide BuildOk, DefsPlaced, Tracks, AllResolved, LinkingOk, LogOk, Emitted, GlobalsTo;
      var at, endb := secnum * 0x1000000, pos[secnum];
      out, globals := out0, globals1;
      ghost var k := 0;
      SectionEnd(secnum);
      WalkBegin(al, t, mem, secnum);
      WalkCall(al, t, mem, secnum, k, at);
      while at != endb
        invariant k <= |progs[secnum]| && BetweenIn(progs[secnum], secnum, k, at)
        invariant Emitted(t, out, w, secnum, k) && globals == GlobalsTo(t, w, secnum, k)
        invariant at != endb <==> k < |progs[secnum]|
        decreases |progs[secnum]| - k
      {
        out, globals, at, k := EncodeCall(secnum, k, at, out, w, globals);
        WalkCall(al, t, mem, secnum, k, at);
      }
      GlobalsOn(w, secnum);
      SectionEmitted(al, t, mem, out, w, secnum);
    }

    method EncodeCall(secnum: nat, ghost k0: nat, at0: int, out0: seq<int>, w: World, globals1: map<int, int>)
      returns (out: seq<int>, globals: map<int, int>, at: int, ghost k: nat)
      requires Linked() && Shape(t) && t.s == |t.progs| && secnum < |progs| && k0 < |progs[secnum]|
      requires BetweenIn(progs[secnum], secnum, k0, at0) && Emitted(t, out0, w, secnum, k0)
      requires globals1 == GlobalsTo(t, w, secnum, k0)
      ensures k0 < k <= |progs[secnum]| && BetweenIn(progs[secnum], secnum, k, at)
      ensures Emitted(t, out, w, secnum, k) && globals == GlobalsTo(t, w, secnum, k)
    {
      hide BuildOk, DefsPlaced, Tracks, AllResolved, LinkingOk, LogOk, Emitted, GlobalsTo;
      WalkCall(al, t, mem, secnum, k0, at0);
      var p: nat := mem[at0];
      at, k, out, globals := at0 + 1, k0, out0, globals1;
      while true
        invariant k0 <= k < |progs[secnum]| && Emitted(t, out, w, secnum, k)
        invariant p == progs[secnum][k].p && at == progs[secnum][k].at
        invariant globals == GlobalsTo(t, w, secnum, k)
        decreases |progs[secnum]| - k
      {
        WalkEntry(al, t, mem, secnum, k);
        var a := ActAt(al, p);
        out, globals, at := EncodeAct(secnum, k, a, at, out, w, globals);
        if Ends(a) {
          WalkBehind(al, t, mem, secnum, k);
          k := k + 1;
          return;
        }
        WalkInside(al, t, mem, secnum, k);
        p := NextAct(al, p);
        k := k + 1;
      }
    }

    /** One action of pass 3. */
    method EncodeAct(ghost i: nat, ghost j: nat, a: Act, at0: int, out0: seq<int>, w: World, globals1: map<int, int>)
      returns (out: seq<int>, globals: map<int, int>, at: int)
      requires Linked() && Shape(t) && t.s == |t.progs| && i < |progs| && j < |progs[i]|
      requires Emitted(t, out0, w, i, j) && globals1 == GlobalsTo(t, w, i, j)
      requires a == progs[i][j].act && at0 == progs[i][j].at && a != Unknown
      ensures at == at0 + Slots(a) && Emitted(t, out, w, i, j + 1)
      ensures globals == GlobalsTo(t, w, i, j + 1)
    {
      hide BuildOk, DefsPlaced, Tracks, AllResolved, LinkingOk, LogOk, Emitted, CodeAt, IsTarget, Bytes, Rewritten;
      hide ListOk;
      globals, at := globals1, at0 + Slots(a);
      EntryFacts(al, t, mem, out0, w, i, j);
      if IsRef(a) {
        out := EncodeRef(i, j, a, at0, out0, w, globals);
        return;
      }
      var code: seq<int>;
      match a {
        case Byte(b) => code := [b];
        case Imm(size, _) => code := Bytes(mem[at0], size);
        case RelA => code := Bytes(mem[at0] - (w.base + |out0| + 4), 4);
        case Space(fill) => code := seq(mem[at0], x => fill);
        case Align(mask) => code := Nops(|out0|, mask);
        case Extern(x, y) => code := Bytes(w.ext(|out0|, x, y), 4);
        case LabelLG(n) =>
          code := [];
          if n >= 10 {
            globals := globals[n := w.base + mem[at0]];
          }
        case LabelPC => code := [];
        case Section(_) => code := [];
        case Stop => code := [];
      }
      out := out0 + code;
      PlainOk(al, t, mem, out0, code, w, i, j);
    }

    /** `DASM_ALIGN`: no-ops up to the next multiple. */
    method Nops(from: nat, mask: int) returns (code: seq<int>)
      requires AlignMask(mask)
      ensures |code| == mask - (from + mask) % (mask + 1) && forall x :: 0 <= x < |code| ==> code[x] == 0x90
    {
      code := [];
      var r := from + mask - (from + mask) % (mask + 1);
      AlignUp(from, mask, from);
      while (from + |code|) % (mask + 1) != 0
        invariant from + |code| <= r && forall x :: 0 <= x < |code| ==> code[x] == 0x90
        decreases r - |code|
      {
        AlignUp(from, mask, from + |code|);
        code := code + [0x90];
      }
      AlignUp(from, mask, from + |code|);
    }

    lemma OuterValue(i: nat, j: nat, w: World)
      requires Linked() && Shape(t) && t.s == |t.progs| && i < |progs| && j < |progs[i]| && IsRef(progs[i][j].act)
      requires progs[i][j].at in t.m0 && t.m0[progs[i][j].at] < 0
      ensures var idx, g := -t.m0[progs[i][j].at], GlobalsTo(t, w, i, j);
              Outer(w, idx) == if idx in g then g[idx] else 0
    {
      hide LinkingOk, AllResolved, LogOk, DefsPlaced, Tracks, GlobalsTo, DefinedIn, LinksOk, SectionsOk, AllVacant;
      hide AllStored, DefsOk;
      var idx := -t.m0[progs[i][j].at];
      DefsAreOk();
      LabelNumber(i, j);
      forall i2: nat, j2: nat
        ensures !DefinedIn(t, idx, i2, j2)
      {
        NowhereDefined(Stored(), log, t, i, j, i2, j2);
      }
      StillOuter(t, w, i, j, idx);
    }

    lemma LabelNumber(i: nat, j: nat)
      requires Passing() && i < |progs| && j < |progs[i]|
      ensures progs[i][j].act.RefLG? ==> progs[i][j].act.n < 256
    {
      assert SectionOk(al, progs[i], i) && EntryOk(al, progs[i][j]);
    }

    lemma DefsAreOk()
      requires Passing()
      ensures DefsOk(Stored().l.defs) && AllStored(Stored())
    {
    }

    /** A reference: to a label, or to a global label that is defined elsewhere. */
    method EncodeRef(ghost i: nat, ghost j: nat, a: Act, at: int, out0: seq<int>, w: World, globals: map<int, int>)
      returns (out: seq<int>)
      requires Linked() && Shape(t) && t.s == |t.progs| && i < |progs| && j < |progs[i]|
      requires Emitted(t, out0, w, i, j)
      requires a == progs[i][j].act && at == progs[i][j].at && IsRef(a) && globals == GlobalsTo(t, w, i, j)
      ensures Emitted(t, out, w, i, j + 1)
    {
      hide BuildOk, DefsPlaced, Tracks, AllResolved, LinkingOk, LogOk, Emitted, CodeAt, IsTarget, Bytes, Rewritten;
      hide ListOk;
      ghost var i2, j2 := RefTarget(al, Stored(), t, mem, i, j);
      RefFound(al, t, mem, out0, w, i, j);
      var n := mem[at];
      if n < 0 {
        OuterValue(i, j, w);
        var v := if -n in globals then globals[-n] else 0;
        var code := Bytes(if a.rel then v - (w.base + |out0| + 4) else v, 4);
        out := out0 + code;
        OuterOk(al, t, mem, out0, code, w, i, j);
        return;
      }
      var target := mem[n];
      if !a.rel {
        out := out0 + Bytes(target + w.base, 4);
        LongOk(al, t, mem, out0, Bytes(target + w.base, 4), w, i, j);
        return;
      }
      var shrink := mem[at + 1];
      var disp := target - (|out0| + 4 - shrink);
      if shrink == 0 {
        out := out0 + Bytes(disp, 4);
        LongOk(al, t, mem, out0, Bytes(disp, 4), w, i, j);
      } else {
        ShortFacts(al, t, mem, out0, w, i, j);
        ShortenedOk(al, t, mem, out0, disp, w, i, j);
        var n := |out0|;
        if shrink == 4 {
          out := out0[..n - 2] + [out0[n - 1] - 0x10, disp % 256];
        } else {
          out := out0[..n - 1] + [0xeb, disp % 256];
        }
      }
    }
  }

  // ---- An input that is refused although the label is defined.

  /** The label 1, a forward branch to the next label 1, and a backward branch to the last one. */
  const BOTH_WAYS := [DASM_LABEL_LG, 1, DASM_REL_LG, 247, DASM_REL_LG, 1, DASM_STOP]

  const BOTH_ENTRIES := [
    Entry(LabelLG(1), 0, true, 1, 0, 0, -1, -1, 0), Entry(RefLG(true, 247), 2, false, 2, 0, 0, -1, -1, 0),
    Entry(RefLG(true, 1), 4, false, 4, 4, 0, -1, -1, 0), Entry(Stop, 6, false, 6, 8, 0, -1, -1, 0)]

  lemma OneStep(al: seq<int>, c: Step, first: bool, at: int, est: int)
    requires ActOk(al, c) && (TakesArg(ActAt(al, c.p)) ==> c.args != [])
    ensures Ends(ActAt(al, c.p)) ==> PutOk(al, c) && Entries(al, c, first, at, est) == [EntryOf(al, c, first, at, est)]
    ensures !Ends(ActAt(al, c.p)) && PutOk(al, NextStep(al, c)) ==>
              && PutOk(al, c)
              && var e := EntryOf(al, c, first, at, est);
                 Entries(al, c, first, at, est) == [e] + Entries(al, NextStep(al, c), false, AfterAt(e), AfterEst(e))
  {
  }

  predicate ReadsBothWays(al: seq<int>) {
    && ActAt(al, 0) == LabelLG(1) && ActAt(al, 2) == RefLG(true, 247) && ActAt(al, 4) == RefLG(true, 1)
    && ActAt(al, 6) == Stop
  }

  lemma BothWaysActs(al: seq<int>)
    requires al == BOTH_WAYS
    ensures ReadsBothWays(al)
  {
    assert al[0] == DASM_LABEL_LG && al[1] == 1 && al[2] == DASM_REL_LG && al[3] == 247 && al[4] == DASM_REL_LG;
    assert al[5] == 1 && al[6] == DASM_STOP;
  }

  lemma BothWaysSteps(al: seq<int>)
    requires ReadsBothWays(al)
    ensures NextStep(al, Start(0, [])) == Step(2, [], 23, -1, -1, 0)
    ensures NextStep(al, Step(2, [], 23, -1, -1, 0)) == Step(4, [], 21, -1, -1, 0)
    ensures NextStep(al, Step(4, [], 21, -1, -1, 0)) == Step(6, [], 19, -1, -1, 0)
  {
    hide ActAt;
  }

  /** One step of the call, given what its entry is. */
  lemma BothWaysStep(al: seq<int>, c: Step, first: bool, at: int, est: int, e: Entry)
    requires EntryOf(al, c, first, at, est) == e && e.act != Unknown && !e.act.Imm? && !TakesArg(e.act)
    requires ActOk(al, c) && !Ends(e.act) && PutOk(al, NextStep(al, c))
    ensures PutOk(al, c)
    ensures Entries(al, c, first, at, est) == [e] + Entries(al, NextStep(al, c), false, AfterAt(e), AfterEst(e))
  {
    hide ActAt, NextStep;
    OneStep(al, c, first, at, est);
  }

  lemma BothWaysLast(al: seq<int>, c3: Step)
    requires ReadsBothWays(al) && c3 == Step(6, [], 19, -1, -1, 0)
    ensures PutOk(al, c3) && Entries(al, c3, false, 6, 8) == [BOTH_ENTRIES[3]]
  {
    hide ActAt, NextStep;
    OneStep(al, c3, false, 6, 8);
  }

  lemma BothWaysTail(al: seq<int>, c2: Step, c3: Step)
    requires ReadsBothWays(al) && c2 == Step(4, [], 21, -1, -1, 0) && c3 == Step(6, [], 19, -1, -1, 0)
    ensures PutOk(al, c2) && PutOk(al, c3)
    ensures Entries(al, c2, false, 4, 4) == [BOTH_ENTRIES[2]] + Entries(al, c3, false, 6, 8)
  {
    hide PutOk, Entries, ActAt, NextStep;
    BothWaysSteps(al);
    BothWaysLast(al, c3);
    BothWaysStep(al, c2, false, 4, 4, BOTH_ENTRIES[2]);
  }

  lemma BothWaysHead(al: seq<int>, c1: Step, c2: Step)
    requires ReadsBothWays(al) && c1 == Step(2, [], 23, -1, -1, 0) && c2 == Step(4, [], 21, -1, -1, 0)
    requires PutOk(al, c2)
    ensures PutOk(al, c1) && Entries(al, c1, false, 2, 0) == [BOTH_ENTRIES[1]] + Entries(al, c2, false, 4, 4)
  {
    hide PutOk, Entries, ActAt, NextStep;
    BothWaysSteps(al);
    BothWaysStep(al, c1, false, 2, 0, BOTH_ENTRIES[1]);
  }

  lemma BothWaysAll(al: seq<int>, c0: Step, c1: Step)
    requires ReadsBothWays(al) && c0 == Start(0, []) && c1 == Step(2, [], 23, -1, -1, 0) && PutOk(al, c1)
    ensures PutOk(al, c0) && Entries(al, c0, true, 1, 0) == [BOTH_ENTRIES[0]] + Entries(al, c1, false, 2, 0)
  {
    hide PutOk, Entries, ActAt, NextStep;
    BothWaysSteps(al);
    BothWaysStep(al, c0, true, 1, 0, BOTH_ENTRIES[0]);
  }

  lemma BothEntries()
    ensures [BOTH_ENTRIES[0]] + ([BOTH_ENTRIES[1]] + ([BOTH_ENTRIES[2]] + [BOTH_ENTRIES[3]])) == BOTH_ENTRIES
  {
  }

  lemma BothWaysEntries(al: seq<int>, c0: Step)
    requires al == BOTH_WAYS && c0 == Start(0, [])
    ensures PutOk(al, c0) && Entries(al, c0, true, 1, 0) == BOTH_ENTRIES
  {
    BothWaysActs(al);
    hide *;
    var c1, c2, c3 := Step(2, [], 23, -1, -1, 0), Step(4, [], 21, -1, -1, 0), Step(6, [], 19, -1, -1, 0);
    BothWaysLast(al, c3);
    BothWaysTail(al, c2, c3);
    BothWaysHead(al, c1, c2);
    BothWaysAll(al, c0, c1);
    BothEntries();
  }

  /** The backward branch is refused, since the forward one is pending. */
  lemma BackwardRefused(keys: set<Key>, progs0: seq<seq<Entry>>)
    requires progs0 == [[]]
    ensures RefusedAt(keys, progs0, [], 0, BOTH_ENTRIES, 2)
    ensures Defines(BOTH_ENTRIES[0], KeyOf(BOTH_ENTRIES[2])) && !IsFwd(BOTH_ENTRIES[2])
  {
    hide LastLabel, BoundTo;
    var all := BOTH_ENTRIES;
    var progs, log := progs0[0 := progs0[0] + all[..2]], [] + Row(0, |progs0[0]|, 2);
    assert progs[0] == all[..2] && log == [Place(0, 0), Place(0, 1)];
    assert EntryAt(progs, log, 0) == all[0] && EntryAt(progs, log, 1) == all[1];
    assert Waits(progs, log, LG(1), 1) by {
      ForwardWaits(progs, log);
    }
    assert Pending(progs, log, LG(1));
  }

  lemma ForwardWaits(progs: seq<seq<Entry>>, log: seq<Place>)
    requires Within(progs, log) && |log| == 2
    requires EntryAt(progs, log, 0) == BOTH_ENTRIES[0] && EntryAt(progs, log, 1) == BOTH_ENTRIES[1]
    ensures BoundTo(progs, log, 1) == |log|
  {
    assert NextLabel(progs, log, LG(1), 2) == 2;
    assert NextLabel(progs, log, LG(1), 1) == 2;
  }

  method RefusedCall() returns (d: DasmState)
    ensures !d.ok
  {
    d := new DasmState(BOTH_WAYS, 1, 0, 0);
    BothWaysEntries(d.al, Start(0, []));
    BackwardRefused(d.labels.Keys, d.progs);
    d.Put(0, []);
  }

  datatype LinkResult = Linked(size: int) | Undefined | Failed

  lemma SomeKey(s: set<Key>)
    ensures s == {} || exists k :: k in s
  {
    if forall x :: x !in s {
      assert s == {};
    }
  }

  /** Any key will do. */
  method AnyKey(s: set<Key>) returns (k: Key)
    requires s != {}
    ensures k in s
  {
    SomeKey(s);
    k :| k in s;
  }
}
