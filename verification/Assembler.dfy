/** The IR register allocator (`lj_asm.c`), which assembles a trace backwards. */
module Assembler {
  import opened RegAlloc
  import opened Sets
  import opened SideTrace
  import opened Phi

  /** References wanted in registers at the end of the trace: different ones, each in a register of
      its kind, as recorded. */
  ghost predicate TailOk(gpr: set<int>, fpr: set<int>, fp: set<int>, n: nat, regs: map<int, Loc>,
                         wants: map<int, int>) {
    && gpr !! fpr && wants.Keys <= gpr + fpr && (forall i :: 1 <= i <= n ==> i in regs)
    && (forall r :: r in wants ==> 1 <= wants[r] <= n && regs[wants[r]] == Reg(r) && (wants[r] in fp <==> r in fpr))
    && (forall i :: i in regs && regs[i].Reg? ==> regs[i].r in wants && wants[regs[i].r] == i)
  }

  ghost predicate Wanted(wants: map<int, int>, m: Machine, e: Meaning) {
    forall r :: r in wants ==> m.regs(r) == e.val(wants[r])
  }

  /** The bookkeeping when no code has been emitted. */
  ghost function TailAsm(gpr: set<int>, fpr: set<int>, fp: set<int>, wide: set<int>, n: nat, first: nat,
                         regs: map<int, Loc>, wants: map<int, int>): Asm {
    Asm(gpr, fpr, fp, wide, gpr + fpr - wants.Keys, map r | r in gpr + fpr :: if r in wants then wants[r] else 0,
        regs, map i | i in regs :: 0, first, 0,
        {}, set i | i in regs.Keys && 1 <= i <= n, {}, map[], map[], NoHole)
  }

  lemma TailStart(gpr: set<int>, fpr: set<int>, fp: set<int>, wide: set<int>, n: nat, first: nat,
                  regs: map<int, Loc>, wants: map<int, int>, e: Meaning)
    requires TailOk(gpr, fpr, fp, n, regs, wants) && 0 < first <= 256 && first % 2 == 0
    ensures var a := TailAsm(gpr, fpr, fp, wide, n, first, regs, wants);
            Inv(a) && forall m :: Expect(a, m, e) ==> Wanted(wants, m, e)
  {
    var a := TailAsm(gpr, fpr, fp, wide, n, first, regs, wants);
    forall r | r in gpr + fpr && r !in a.free
      ensures Held(a, r)
    {
    }
    forall i | IsK(i) || i in a.defined
      ensures Recorded(a, i)
    {
    }
    forall m | Expect(a, m, e)
      ensures Wanted(wants, m, e)
    {
      forall r | r in wants
        ensures m.regs(r) == e.val(wants[r])
      {
        assert Asked(a, r);
      }
    }
  }

  ghost predicate KeptSlots(slot: map<int, nat>, slot': map<int, nat>) {
    forall ref :: ref in slot && slot[ref] > 0 ==> ref in slot' && slot'[ref] == slot[ref]
  }

  lemma SlotsVia(s0: map<int, nat>, s1: map<int, nat>, s2: map<int, nat>)
    requires KeptSlots(s0, s1) && KeptSlots(s1, s2)
    ensures KeptSlots(s0, s2)
  {
  }

  lemma OwnSlots(s: map<int, nat>)
    ensures KeptSlots(s, s)
  {
  }

  class ASMState {
    const gpr: set<int>
    const fpr: set<int>
    const fp: set<int>    // references with a floating-point value
    const wide: set<int>  // references with a 64 bit value
    const ops: map<int, seq<int>>  // the operands of each instruction
    const snaps: map<int, seq<int>>  // for each guard that has a snapshot, the references that escape to it
    ghost const e: Meaning
    var freeset: set<int>
    var modset: set<int>
    var weakset: set<int>
    var cost: map<int, int>
    var reg: map<int, Loc>
    var slot: map<int, nat>
    var evenspill: nat
    var oddspill: nat
    var mc: seq<Ins>

    ghost var lax: set<int>
    ghost var defined: set<int>
    ghost var saved: set<int>
    ghost var entry: map<int, int>
    ghost var inherited: map<int, int>
    ghost var hole: Hole
    ghost const goal: Machine -> bool

    /** `ra_setup` and the tail of the trace: what comes behind it wants references in registers.
        The hints are what `asm_setup_regsp` found. */
    constructor (gpr: set<int>, fpr: set<int>, fp: set<int>, wide: set<int>, ops: map<int, seq<int>>,
                 snaps: map<int, seq<int>>, n: nat, first: nat, regs: map<int, Loc>, wants: map<int, int>,
                 ghost e: Meaning)
      requires TailOk(gpr, fpr, fp, n, regs, wants) && 0 < first <= 256 && first % 2 == 0
      ensures Valid() && Running() && hole == NoHole && UpTo(n) && reg.Keys == regs.Keys && defined <= reg.Keys
      ensures mc == []
      ensures this.gpr == gpr && this.fpr == fpr && this.fp == fp && this.wide == wide && this.ops == ops && this.e == e
      ensures this.snaps == snaps
      ensures forall m :: goal(m) <==> Wanted(wants, m, e)
    {
      this.gpr, this.fpr, this.fp, this.wide, this.ops, this.snaps := gpr, fpr, fp, wide, ops, snaps;
      freeset, modset, weakset := gpr + fpr - wants.Keys, {}, {};
      cost := map r | r in gpr + fpr :: if r in wants then wants[r] else 0;
      reg, slot := regs, map i | i in regs :: 0;
      evenspill, oddspill, mc := first, 0, [];
      this.e := e;
      goal := m => Wanted(wants, m, e);
      defined := set i | i in regs.Keys && 1 <= i <= n;
      lax, saved, entry, inherited, hole := {}, {}, map[], map[], NoHole;
      new;
      hide Inv, Expect, Wanted;
      assert View() == TailAsm(gpr, fpr, fp, wide, n, first, regs, wants);
      TailStart(gpr, fpr, fp, wide, n, first, regs, wants, e);
    }

    ghost function View(): Asm
      reads this
    {
      Asm(gpr, fpr, fp, wide, freeset, cost, reg, slot, evenspill, oddspill, lax, defined, saved, entry, inherited,
          hole)
    }

    /** The bookkeeping is consistent, and the code emitted so far does what it is meant to do. */
    ghost predicate Valid()
      reads this
    {
      Inv(View()) && Sound(View(), mc, e, goal)
    }

    /** Before the head of the trace, any register can be given up. */
    ghost predicate Running()
      reads this
    {
      && saved == {} && entry == map[] && inherited == map[]
      && (forall r :: r in weakset && r in gpr + fpr && r !in freeset ==> r in lax)
    }

    /** The registers of the file that a reference lives in. */
    function File(ref: int): set<int> {
      if ref in fp then fpr else gpr
    }

    /** Registers outside the set hold what they held. */
    twostate predicate Untouched(touched: set<int>)
      reads this
    {
      forall x :: x in gpr + fpr && x !in touched ==>
           x in cost && x in old(cost) && cost[x] == old(cost)[x] && (x in freeset <==> x in old(freeset))
    }

    /** Nothing but the register assignment, spill slots and code have changed. */
    twostate predicate Steady()
      reads this
    {
      && defined == old(defined) && saved == old(saved) && entry == old(entry) && inherited == old(inherited)
         && hole == old(hole)
      && reg.Keys == old(reg).Keys
      && (forall ref :: ref in old(slot) && old(slot)[ref] > 0 ==> ref in slot && slot[ref] == old(slot)[ref])
    }

    /** References keep the spill slots they have. */
    twostate predicate SlotsKept()
      reads this
    {
      KeptSlots(old(slot), slot)
    }

    /** r has been given up (if it was not free anyway), and nothing else. */
    twostate predicate GaveUp(r: int)
      reads this
    {
      && Steady() && freeset == old(freeset) + {r} && Untouched({r}) && r in gpr + fpr && lax == old(lax)
         && weakset == old(weakset)
      && modset <= old(modset) + {r}
      && forall o :: o in old(reg) && o in reg && reg[o] != old(reg)[o] ==> old(reg)[o] == Reg(r) && !reg[o].Reg?
    }

    /** `ra_rematk` */
    method Rematk(ref: int) returns (r: int)
      requires Valid() && Running() && IsK(ref) && ref in reg && reg[ref].Reg? && Unhit(View(), reg[ref].r)
      modifies this
      ensures Valid() && Running() && GaveUp(r) && r == old(reg)[ref].r && !reg[ref].Reg? && r !in old(freeset)
    {
      r := reg[ref].r;
      assert Recorded(View(), ref);
      RematStep(View(), r, mc, e, goal);
      freeset := freeset + {r};
      modset := modset + {r};
      reg := reg[ref := Init];
      mc := [LoadK(r, ref)] + mc;
    }

    /** `ra_spill`: fails if there are no slots left. */
    method Spill(ref: int) returns (ok: bool)
      requires Valid() && ref in slot && !IsK(ref)
      modifies this`slot, this`evenspill, this`oddspill
      ensures ok ==> Valid() && Steady() && slot[ref] > 0
      ensures !ok ==> evenspill > 256
    {
      if slot[ref] == 0 {
        ghost var a := View();
        var s := evenspill;
        if ref in wide {
          evenspill := evenspill + 2;
        } else if oddspill > 0 {
          s := oddspill;
          oddspill := 0;
        } else {
          oddspill := s + 1;
          evenspill := evenspill + 2;
        }
        if evenspill > 256 {
          return false;
        }
        slot := slot[ref := s];
        assert View() == Spilled(a, ref);
        SpillStep(a, ref, mc, e, goal);
      }
      ok := true;
    }

    /** `ra_restore` */
    method Restore(ref: int) returns (ok: bool, r: int)
      requires Valid() && Running() && (IsK(ref) || ref in defined) && ref in reg && reg[ref].Reg?
      requires Unhit(View(), reg[ref].r)
      modifies this
      ensures ok ==> Valid() && Running() && GaveUp(r) && r == old(reg)[ref].r && !reg[ref].Reg? && r !in old(freeset)
      ensures !ok ==> evenspill > 256
    {
      assert Recorded(View(), ref);
      if IsK(ref) {
        r := Rematk(ref);
        return true, r;
      }
      ok := Spill(ref);
      r := reg[ref].r;
      if ok {
        Drop(ref, r);
      }
    }

    /** The rest of `ra_restore`: r is free from here on, and is loaded from the spill slot. */
    method Drop(ref: int, r: int)
      requires Valid() && Running() && r in gpr + fpr && r !in freeset && r in cost && cost[r] == ref && ref in reg
      requires reg[ref] == Reg(r) && Slotted(View(), ref) && Unhit(View(), r)
      modifies this`reg, this`freeset, this`modset, this`mc
      ensures Valid() && Running() && GaveUp(r) && !reg[ref].Reg?
    {
      hide Inv, Sound, Unhit;
      ghost var a := View();
      FilesApart();
      reg := reg[ref := Hint(r)];
      freeset := freeset + {r};
      if r !in weakset {
        modset := modset + {r};
        RestoreStep(a, r, mc, e, goal);
        mc := [SpLoad(r, slot[ref], ref in wide)] + mc;
      } else {
        LaxStep(a, r, mc, e, goal);
      }
      assert View() == Dropped(a, r, Hint(r));
    }

    /** `ra_evict`, with any register of the set as the victim */
    method Evict(allow: set<int>) returns (ok: bool, r: int)
      requires Valid() && Running() && allow != {} && allow <= gpr + fpr && allow !! freeset
      requires forall x :: x in allow ==> Unhit(View(), x)
      modifies this
      ensures ok ==> Valid() && Running() && GaveUp(r) && r in allow
      ensures !ok ==> evenspill > 256
    {
      var victim := AnyOf(allow);
      assert Held(View(), victim);
      ok, r := Restore(cost[victim]);
    }

    /** `ra_pick` */
    method Pick(allow: set<int>) returns (ok: bool, r: int)
      requires Valid() && Running() && allow != {} && allow <= gpr + fpr
      requires forall x :: x in allow && x !in freeset ==> Unhit(View(), x)
      modifies this
      ensures ok ==> Valid() && Running() && GaveUp(r) && r in allow
      ensures old(freeset) * allow != {} ==> ok && r in old(freeset) && View() == old(View()) && mc == old(mc)
      ensures !ok ==> evenspill > 256
    {
      var pick := freeset * allow;
      if pick == {} {
        DisjointSets(freeset, allow);
        ok, r := Evict(allow);
      } else {
        ok := true;
        r := AnyOf(pick);
      }
    }

    /** `ra_scratch` */
    method Scratch(allow: set<int>) returns (ok: bool, r: int)
      requires Valid() && Running() && allow != {} && allow <= gpr + fpr
      requires forall x :: x in allow && x !in freeset ==> Unhit(View(), x)
      modifies this
      ensures ok ==> Valid() && Running() && GaveUp(r) && r in allow
      ensures old(freeset) * allow != {} ==> ok && r in old(freeset) && View() == old(View()) && mc == old(mc)
      ensures !ok ==> evenspill > 256
    {
      ok, r := Pick(allow);
      modset := modset + {r};
    }

    /** The register that `ra_allocref` chooses: the hinted one if it is free or holds a constant,
        else any free one, else one that is evicted. */
    method Choose(ref: int, allow: set<int>) returns (ok: bool, r: int)
      requires Valid() && allow != {} && allow <= gpr + fpr && ref in reg && !reg[ref].Reg?
      requires Running() || allow <= freeset
      requires forall x :: x in allow && x !in freeset ==> Unhit(View(), x)
      modifies this
      ensures ok ==> Valid() && r in allow
      ensures ok ==> GaveUp(r)
      ensures ok ==> (old(Running()) ==> Running())
      ensures old(freeset) * allow != {} ==> ok
      ensures old(freeset) * allow != {} && r in old(freeset) ==> View() == old(View()) && mc == old(mc)
      ensures old(freeset) * allow != {} && r !in old(freeset) ==> old(IsHeldK(r)) && old(reg)[ref] == Hint(r)
      ensures old(reg)[ref].Hint? && old(reg)[ref].h in old(freeset) * allow ==> r == old(reg)[ref].h
      ensures !ok ==> evenspill > 256
      ensures ok ==> modset <= old(modset) + {r}
    {
      hide Inv, Sound;
      var pick := freeset * allow;
      DisjointSets(freeset, allow);
      FilesApart();
      ok := true;
      if pick == {} {
        EmptySet(allow);
        ok, r := Evict(allow);
      } else if reg[ref].Hint? && reg[ref].h in pick {
        r := reg[ref].h;
      } else if reg[ref].Hint? && reg[ref].h in allow && IsHeldK(reg[ref].h) {
        HeldIsRecorded(reg[ref].h);
        r := Rematk(cost[reg[ref].h]);
      } else {
        r := AnyOf(pick);
      }
      assert ok ==> freeset + {r} == freeset;
    }

    /** Does the register hold a constant? */
    predicate IsHeldK(r: int)
      reads this
    {
      r !in freeset && r in cost && IsK(cost[r])
    }

    lemma HeldIsRecorded(r: int)
      requires Inv(View()) && r in gpr + fpr && r !in freeset
      ensures r in cost && cost[r] in reg && reg[cost[r]] == Reg(r)
    {
      assert Held(View(), r);
    }

    /** `ra_allocref`: a register for a reference that has none. */
    method Allocref(ref: int, allow: set<int>, ghost late: bool) returns (ok: bool, r: int)
      requires Valid() && allow != {} && allow <= File(ref) && allow !! entry.Keys
      requires ref in reg && !reg[ref].Reg? && (IsK(ref) || ref in defined)
      requires Running() || allow <= freeset
      requires forall x :: x in allow && x !in freeset ==> Unhit(View(), x)
      modifies this
      ensures ok ==> Valid() && Steady() && (old(Running()) ==> Running())
      ensures ok ==>
              r in allow && freeset == old(freeset) - {r} && Untouched({r}) && reg[ref] == Reg(r) && cost[r] == ref
      ensures ok ==> lax == (if late then old(lax) + {r} else old(lax) - {r}) && weakset == old(weakset) - {r}
      ensures ok ==> forall o :: o in reg && o != ref && reg[o] != old(reg)[o] ==> old(reg)[o] == Reg(r) && !reg[o].Reg?
      ensures old(freeset) * allow != {} ==> ok
      ensures old(freeset) * allow != {} && r in old(freeset) ==> slot == old(slot) && mc == old(mc)
      ensures old(freeset) * allow != {} && r !in old(freeset) ==> old(IsHeldK(r)) && old(reg)[ref] == Hint(r)
      ensures old(reg)[ref].Hint? && old(reg)[ref].h in old(freeset) * allow ==> r == old(reg)[ref].h
      ensures !ok ==> evenspill > 256
      ensures ok ==> modset <= old(modset) + {r}
    {
      hide Inv, Sound;
      ok, r := Choose(ref, allow);
      if ok {
        FilesApart();
        Take(ref, r, late);
      }
    }

    /** The register r, which is free, is for the reference now. */
    method Take(ref: int, r: int, ghost late: bool)
      requires Valid() && Takeable(View(), ref, r)
      modifies this`reg, this`freeset, this`weakset, this`cost, this`lax
      ensures Valid() && View() == Taken(old(View()), ref, r, late)
      ensures weakset == old(weakset) - {r}
    {
      hide Inv, Sound;
      ghost var a := View();
      TakeStep(a, ref, r, late, mc, e, goal);
      reg := reg[ref := Reg(r)];
      freeset := freeset - {r};
      weakset := weakset - {r};
      cost := cost[r := ref];
      lax := if late then lax + {r} else lax - {r};
      assert View() == Taken(a, ref, r, late);
    }

    /** `ra_alloc1`: a register for an operand. */
    method Alloc1(ref: int, allow: set<int>, ghost late: bool) returns (ok: bool, r: int)
      requires Valid() && Running() && allow != {} && allow <= File(ref) && ref in reg && (IsK(ref) || ref in defined)
      requires forall x :: x in allow && x !in freeset ==> Unhit(View(), x)
      modifies this
      ensures ok ==> Valid() && Running() && Steady() && r in gpr + fpr && r !in freeset
      ensures ok ==> reg[ref] == Reg(r) && cost[r] == ref && weakset == old(weakset) - {r}
      ensures ok && old(reg)[ref].Reg? ==>
              r == old(reg)[ref].r && Untouched({}) && r !in old(freeset) && reg == old(reg)
      ensures ok && old(reg)[ref].Reg? ==> lax == if late then old(lax) else old(lax) - {r}
      ensures ok && !old(reg)[ref].Reg? ==>
                forall o :: o in reg && o != ref && reg[o] != old(reg)[o] ==> old(reg)[o] == Reg(r) && !reg[o].Reg?
      ensures ok && !old(reg)[ref].Reg? ==>
              r in allow && Untouched({r}) && lax == if late then old(lax) + {r} else old(lax) - {r}
      ensures !ok ==> evenspill > 256
      ensures ok ==> modset <= old(modset) + {r}
    {
      hide Inv, Sound;
      FilesApart();
      ok := true;
      if !reg[ref].Reg? {
        ok, r := Allocref(ref, allow, late);
      } else {
        r := reg[ref].r;
        RegIsHeld(ref);
        if !late {
          StricterStep(View(), r, mc, e, goal);
          lax := lax - {r};
        }
      }
      weakset := weakset - {r};
    }

    lemma RegIsHeld(ref: int)
      requires Inv(View()) && (IsK(ref) || ref in defined) && ref in reg && reg[ref].Reg?
      ensures reg[ref].r in gpr + fpr && reg[ref].r !in freeset && reg[ref].r in cost && cost[reg[ref].r] == ref
      ensures reg[ref].r in File(ref)
    {
      assert Recorded(View(), ref) && Held(View(), reg[ref].r);
    }

    /** `ra_rename`: the reference in `down` is moved to `up` (for the code before this point). */
    method Rename(down: int, up: int)
      requires Valid() && down in gpr + fpr && down !in freeset && up in freeset && up !in entry
      requires SameFile(View(), down, up) && Unhit(View(), down)
      modifies this
      ensures Valid() && View() == Renamed(old(View()), down, up) && weakset == old(weakset) - {up}
    {
      hide Inv, Sound, SameFile, Renamed;
      FilesApart();
      RenameStep(View(), down, up, mc, e, goal);
      modset := modset + {down};
      Reassign(down, up);
      mc := [Mov(down, up)] + mc;
    }

    method Reassign(down: int, up: int)
      requires down in cost && down != up
      modifies this`cost, this`reg, this`freeset, this`weakset, this`lax
      ensures View() == Renamed(old(View()), down, up) && weakset == old(weakset) - {up}
    {
      ghost var a := View();
      var ref := cost[down];
      cost := cost[up := ref][down := 0];
      reg := reg[ref := Reg(up)];
      freeset := freeset + {down} - {up};
      weakset := weakset - {up};
      lax := if down in lax then lax + {up} else lax - {up};
      assert View() == Renamed(a, down, up);
    }

    /** `ra_dest`: the register that the definition of ref is to write to. */
    method Dest(ref: int, allow: set<int>) returns (ok: bool, dest: int)
      requires Valid() && Running() && hole == NoHole && ref in defined && !IsK(ref) && ref in reg
      requires allow != {} && allow <= File(ref)
      modifies this
      ensures ok ==> Valid() && Running() && hole == InHole(dest, ref) && defined == old(defined) - {ref}
      ensures ok ==> dest in freeset && dest in File(ref) && reg.Keys == old(reg).Keys
      ensures ok ==> forall x :: x in gpr + fpr && x !in freeset ==>
              x !in old(freeset) && x in old(cost) && cost[x] == old(cost)[x]
      ensures !ok ==> evenspill > 256
    {
      hide Inv, Sound;
      FilesApart();
      ok := true;
      if reg[ref].Reg? {
        dest := reg[ref].r;
        RegIsHeld(ref);
        modset := modset + {dest};
      } else if reg[ref].Hint? && reg[ref].h in freeset * allow {
        dest := reg[ref].h;
        modset := modset + {dest};
      } else {
        ok, dest := Scratch(allow);
        if !ok {
          return;
        }
      }
      SettleDest(ref, dest);
    }

    /** Mark the destination as free, and save what is defined there if it was spilled later on. */
    method SettleDest(ref: int, dest: int)
      requires Valid() && Destined(View(), ref, dest)
      modifies this`freeset, this`reg, this`mc, this`defined, this`hole
      ensures Valid() && View() == Awaiting(old(View()), ref, dest)
    {
      hide Inv, Sound;
      ghost var a := View();
      DestStep(a, ref, dest, mc, e, goal);
      freeset := freeset + {dest};
      reg := reg[ref := Reg(dest)];
      if ref in slot && slot[ref] > 0 {
        mc := [SpStore(dest, slot[ref], ref in wide)] + mc;
      } else {
        assert SaveCode(a, ref, dest) + mc == mc;
      }
      defined := defined - {ref};
      hole := InHole(dest, ref);
      assert View() == Awaiting(a, ref, dest);
    }

    // ---- Assembling a trace.

    /** The values of references are what their instructions compute from their operands. */
    ghost predicate IROk()
      reads this`reg
    {
      && gpr != {} && fpr != {} && (forall r :: gpr - {r} != {} && fpr - {r} != {})
      && (forall ref :: ref in ops ==> !IsK(ref) && ref in reg && InstructionOk(ref))
      && forall ref :: ref in snaps ==> EscapesOk(ref)
    }

    /** What escapes to a snapshot is defined before it. */
    predicate EscapesOk(ref: int)
      requires ref in snaps
      reads this`reg
    {
      forall k :: 0 <= k < |snaps[ref]| ==> 1 <= snaps[ref][k] < ref && snaps[ref][k] in reg
    }

    ghost predicate InstructionOk(ref: int)
      requires ref in ops
      reads this`reg
    {
      && |ops[ref]| <= 2
      && (forall k :: 0 <= k < |ops[ref]| ==> ops[ref][k] in reg && ops[ref][k] < ref && ops[ref][k] != 0)
      && e.val(ref) == e.op(ref, seq(|ops[ref]|, (k: nat) requires k < |ops[ref]| => e.val(ops[ref][k])))
    }

    /** References from 1 to n are still to be defined. */
    ghost predicate UpTo(n: int)
      reads this`defined
    {
      forall x :: x in defined <==> 1 <= x <= n
    }

    /** Registers for the operands of an instruction that writes to the free register dest. */
    method AllocOperands(ref: int, ghost dest: int) returns (ok: bool, srcs: seq<int>)
      requires Valid() && Running() && IROk() && ref in ops && UpTo(ref - 1) && hole == InHole(dest, ref)
      requires dest in freeset
      modifies this
      ensures ok ==>
              Valid() && Running() && defined == old(defined) && hole == InHole(dest, ref) && reg.Keys == old(reg).Keys
      ensures ok ==> |srcs| == |ops[ref]| && (dest in freeset || dest in lax)
      ensures ok ==> forall k :: 0 <= k < |srcs| ==>
                       && srcs[k] in gpr + fpr && srcs[k] !in freeset && srcs[k] in cost && cost[srcs[k]] == ops[ref][k]
                       && srcs[k] !in weakset
      ensures !ok ==> evenspill > 256
    {
      hide Inv, Sound;
      FilesApart();
      ok, srcs := true, [];
      if |ops[ref]| >= 1 {
        var r;
        ok, r := Alloc1(ops[ref][0], File(ops[ref][0]), true);
        if !ok {
          return;
        }
        FilesApart();
        srcs := [r];
        if |ops[ref]| == 2 {
          RegIsHeld(ops[ref][0]);
          ok, r := Alloc1(ops[ref][1], File(ops[ref][1]) - {srcs[0]}, true);
          if !ok {
            return;
          }
          FilesApart();
          srcs := srcs + [r];
        }
      }
    }

    /** One instruction: allocate its destination, then its operands, then emit it. */
    method AsmIns(ref: int) returns (ok: bool)
      requires Valid() && Running() && hole == NoHole && IROk() && ref in ops && UpTo(ref) && ref >= 1
      modifies this
      ensures ok ==> Valid() && Running() && hole == NoHole && UpTo(ref - 1) && reg.Keys == old(reg).Keys
      ensures !ok ==> evenspill > 256
    {
      hide Inv, Sound;
      var dest;
      ok, dest := Dest(ref, File(ref));
      if ok {
        var srcs;
        ok, srcs := AllocOperands(ref, dest);
        if ok {
          EmitOp(dest, ref, srcs);
        }
      }
    }

    method EmitOp(dest: int, ref: int, srcs: seq<int>)
      requires Valid() && hole == InHole(dest, ref) && ref in ops && |srcs| == |ops[ref]| && InstructionOk(ref)
      requires (dest in freeset || dest in lax) && dest !in entry
      requires forall k :: 0 <= k < |srcs| ==>
                 srcs[k] in gpr + fpr && srcs[k] !in freeset && srcs[k] in cost && cost[srcs[k]] == ops[ref][k]
      modifies this`mc, this`hole, this`lax
      ensures Valid() && hole == NoHole && lax == old(lax) - (set r | r in srcs)
    {
      hide Inv, Sound;
      ghost var a := View();
      OpStep(a, ref, ops[ref], srcs, mc, e, goal);
      mc := [Op(dest, ref, srcs)] + mc;
      hole := NoHole;
      lax := lax - (set r | r in srcs);
      assert View() == Defined(a, srcs);
    }

    /** `asm_snap_alloc1`: a weak register or a spill slot for a reference that escapes to a snapshot. */
    method SnapAlloc1(ref: int) returns (ok: bool)
      requires Valid() && Running() && hole == NoHole && gpr != {} && fpr != {} && ref in reg && ref in defined
      requires !IsK(ref)
      modifies this
      ensures ok ==> Valid() && Running() && Steady() && ref in slot && (reg[ref].Reg? || slot[ref] > 0)
      ensures old(reg)[ref].Reg? ==> ok && reg == old(reg) && slot == old(slot)
      ensures !old(reg)[ref].Reg? && ref in old(slot) && old(slot)[ref] == 0 && ok ==>
                (reg[ref].Reg? <==> old(freeset) * File(ref) != {} || old(CanRemat(ref)))
      ensures ok && reg[ref].Reg? && reg[ref].r in old(freeset) ==> slot == old(slot)
      ensures !ok ==> evenspill > 256
    {
      hide Inv, Sound;
      FilesApart();
      SlotKeys();
      ok := true;
      if !(reg[ref].Reg? || slot[ref] > 0) {
        if freeset * File(ref) != {} || CanRemat(ref) {
          // Get a weak register if we have a free one or can rematerialize.
          var r;
          ok, r := Allocref(ref, File(ref), true);
          assert ok && r in old(freeset) ==> r in old(freeset) * File(ref);
          if ok {
            weakset := weakset + {r};  // But mark it as weakly referenced.
            FilesApart();
            SlotKeys();
          }
        } else {
          ok := Spill(ref);  // Otherwise force a spill slot.
          if ok {
            SlotKeys();
          }
        }
      }
    }

    /** `asm_snap_canremat`: a floating-point register holds a constant, and can be used for ref. */
    predicate CanRemat(ref: int)
      reads this
    {
      File(ref) == fpr && exists r :: r in fpr && r in cost && IsK(cost[r])
    }

    lemma SlotKeys()
      requires Inv(View())
      ensures slot.Keys == reg.Keys
    {
    }

    /** `asm_snap_alloc` */
    method SnapAlloc(refs: seq<int>) returns (ok: bool)
      requires Valid() && Running() && hole == NoHole && gpr != {} && fpr != {}
      requires forall k :: 0 <= k < |refs| ==> refs[k] in reg && refs[k] in defined && !IsK(refs[k])
      modifies this
      ensures ok ==> Valid() && Running() && hole == NoHole && defined == old(defined) && reg.Keys == old(reg).Keys
      ensures !ok ==> evenspill > 256
    {
      hide Inv, Sound;
      ok := true;
      var k := 0;
      while k < |refs|
        invariant k <= |refs| && Valid() && Running() && hole == NoHole && defined == old(defined)
        invariant reg.Keys == old(reg).Keys
      {
        ok := SnapAlloc1(refs[k]);
        if !ok {
          return;
        }
        k := k + 1;
      }
    }

    /** Assemble the instructions from n down to stop + 1 backwards; those whose value is not used are
        skipped. Guards are assembled as far as their snapshots go. */
    method AssembleBody(n: nat, stop: nat) returns (ok: bool)
      requires Valid() && Running() && hole == NoHole && IROk() && UpTo(n) && stop <= n
      requires forall ref :: stop < ref <= n ==> ref in ops
      modifies this
      ensures ok ==> Valid() && Running() && hole == NoHole && UpTo(stop) && reg.Keys == old(reg).Keys
      ensures !ok ==> evenspill > 256
    {
      hide Inv, Sound;
      ok := true;
      var curins := n;
      while curins > stop
        invariant stop <= curins <= n
        invariant ok ==> Valid() && Running() && hole == NoHole && UpTo(curins) && reg.Keys == old(reg).Keys
        invariant !ok ==> evenspill > 256
      {
        if !ok {
          return;
        }
        if curins in snaps {
          assert EscapesOk(curins);
          ok := SnapAlloc(snaps[curins]);
          if !ok {
            return;
          }
        }
        KeysAgree();
        if reg[curins].Reg? || slot[curins] > 0 {
          ok := AsmIns(curins);
        } else {  // dead code
          UnusedStep(View(), curins, mc, e, goal);
          defined := defined - {curins};
        }
        curins := curins - 1;
      }
    }

    lemma KeysAgree()
      requires Inv(View())
      ensures slot.Keys == reg.Keys
    {
    }

    /** `ra_evictk`: rematerialize all constants. */
    method Evictk()
      requires Valid() && Running() && hole == NoHole
      modifies this
      ensures Valid() && Running() && Steady()
      ensures forall r :: r in gpr + fpr && r !in freeset ==> r in cost && !IsK(cost[r])
    {
      hide Inv, Sound;
      FilesApart();
      var work := gpr + fpr - freeset;
      while work != {}
        invariant Valid() && Running() && Steady() && hole == NoHole && work <= gpr + fpr
        invariant forall r :: r in gpr + fpr && r !in freeset && r !in work ==> r in cost && !IsK(cost[r])
        decreases |work|
      {
        var r := AnyOf(work);
        FilesApart();
        if r !in freeset && IsK(cost[r]) {
          HeldIsRecorded(r);
          var _ := Rematk(cost[r]);
        }
        work := work - {r};
      }
      EmptySet(work);
    }

    // ---- The head of a side trace.

    /** `ra_save` of a register that is in use */
    method SaveNow(i: int, r: int)
      requires Valid() && i in reg && reg[i] == Reg(r) && Asked(View(), r) && r in cost && cost[r] == i
      requires Slotted(View(), i) && inherited == map[]
      modifies this`mc, this`saved
      ensures Valid() && View() == SavedEarly(old(View()), i)
    {
      hide Inv, Sound;
      SaveStep(View(), i, r, mc, e, goal);
      mc := [SpStore(r, slot[i], i in wide)] + mc;
      saved := saved + {i};
    }

    /** The parent register rp is the target r itself, or is moved to it. */
    method TakeFromReg(i: int, r: int, rp: int)
      requires Valid() && Placeable(View(), i, r) && (rp == r || rp in freeset) && rp !in entry
      modifies this`freeset, this`mc, this`entry, this`defined, this`saved
      ensures Valid() && View() == FromReg(old(View()), i, r, rp)
    {
      hide Inv, Sound;
      ghost var a := View();
      FromRegStep(a, i, r, rp, mc, e, goal);
      freeset := freeset + {r};
      if r != rp {
        mc := [Mov(r, rp)] + mc;
      } else {
        assert MoveCode(r, rp) + mc == mc;
      }
      entry, defined, saved := entry[rp := i], defined - {i}, saved - {i};
      assert View() == FromReg(a, i, r, rp);
    }

    /** The target r is loaded from the parent's spill slot. */
    method TakeFromSlot(i: int, r: int, ofs: int)
      requires Valid() && Placeable(View(), i, r) && i !in inherited
      modifies this`freeset, this`mc, this`inherited, this`defined, this`saved
      ensures Valid() && View() == FromSlot(old(View()), i, r, ofs)
    {
      hide Inv, Sound;
      ghost var a := View();
      FromSlotStep(a, i, r, ofs, mc, e, goal);
      freeset := freeset + {r};
      mc := [SpLoad(r, ofs, i in wide)] + mc;
      inherited, defined, saved := inherited[i := ofs], defined - {i}, saved - {i};
      assert View() == FromSlot(a, i, r, ofs);
    }

    ghost predicate InHead(p: Parent, allow: set<int>, live: set<int>, sloadins: map<int, int>, marked: set<int>,
                           lo: nat, shuffling: bool)
      reads this
    {
      Sound(View(), mc, e, goal) && HeadInv(View(), Head(allow, live, sloadins, marked, lo, shuffling), p)
    }

    /** Both register files are large enough for what the head has to move. */
    ghost predicate EnoughRegisters(p: Parent) {
      Enough(p, fp, gpr, false) && Enough(p, fp, fpr, true)
    }

    ghost predicate Roomy(p: Parent, allow: set<int>, marked: set<int>, lo: nat) {
      RoomIn(p, fp, gpr, false, allow, marked, lo) && RoomIn(p, fp, fpr, true, allow, marked, lo)
    }

    lemma ScanRoom(p: Parent, allow: set<int>, allow': set<int>, marked: set<int>, marked': set<int>, i: nat)
      requires Roomy(p, allow, marked, i) && 1 <= i <= p.stop && gpr !! fpr
      requires allow' <= allow && |allow - allow'| <= 1 && allow - allow' <= File(i)
      requires i !in marked && (marked' == marked || (marked' == marked + {i} && allow' == allow))
      ensures Roomy(p, allow', marked', i - 1)
    {
      hide Done, RoomIn;
      DoneScan(p, fp, false, marked, marked', i);
      DoneScan(p, fp, true, marked, marked', i);
      RoomStep(p, fp, gpr, false, allow, allow', marked, marked', i, i - 1, i);
      RoomStep(p, fp, fpr, true, allow, allow', marked, marked', i, i - 1, i);
    }

    lemma ReloadRoom(p: Parent, allow: set<int>, allow': set<int>, marked: set<int>, i: nat)
      requires Roomy(p, allow, marked, 0) && 1 <= i <= p.stop && gpr !! fpr
      requires allow' <= allow && |allow - allow'| <= 1 && allow - allow' <= File(i) && i in marked
      ensures Roomy(p, allow', marked - {i}, 0)
    {
      hide Done, RoomIn;
      DoneReload(p, fp, false, marked, i);
      DoneReload(p, fp, true, marked, i);
      RoomStep(p, fp, gpr, false, allow, allow', marked, marked - {i}, 0, 0, i);
      RoomStep(p, fp, fpr, true, allow, allow', marked, marked - {i}, 0, 0, i);
    }

    lemma TargetFacts(p: Parent, allow: set<int>, live: set<int>, sloadins: map<int, int>, marked: set<int>, lo: nat)
      requires InHead(p, allow, live, sloadins, marked, lo, false)
      ensures gpr !! fpr && live <= Sources(p)
      ensures forall i :: i in marked ==> lo < i <= p.stop
      ensures forall i :: i in defined && i in reg && reg[i].Reg? ==> reg[i].r in File(i)
      ensures forall i :: 1 <= i <= lo && i <= p.stop ==> i in defined
    {
      LiveSources(View(), Head(allow, live, sloadins, marked, lo, false), p);
      forall i | i in marked
        ensures lo < i <= p.stop
      {
        assert MarkOk(View(), Head(allow, live, sloadins, marked, lo, false), i);
      }
      forall i | i in defined && i in reg && reg[i].Reg?
        ensures reg[i].r in File(i)
      {
        RegIsHeld(i);
      }
    }

    /** Scan all parent SLOADs and collect register dependencies. */
    method ScanSloads(p: Parent, allow0: set<int>)
      returns (allow: set<int>, live: set<int>, sloadins: map<int, int>, marked: set<int>, pass3: bool)
      requires InHead(p, allow0, {}, map[], {}, p.stop, false) && inherited == map[]
      requires Roomy(p, allow0, {}, p.stop)
      modifies this`freeset, this`mc, this`entry, this`defined, this`saved
      ensures InHead(p, allow, live, sloadins, marked, 0, false) && inherited == map[]
      ensures Roomy(p, allow, marked, 0)
      ensures !pass3 ==> RegsFromRegs(View(), p, 0)
    {
      hide Inv, Sound, HeadInv, Roomy;
      allow, live, sloadins, marked, pass3 := allow0, {}, map[], {}, false;
      var i := p.stop;
      HeadFacts(View(), Head(allow, live, sloadins, marked, i, false), p);
      while i > 0
        invariant 0 <= i <= p.stop && InHead(p, allow, live, sloadins, marked, i, false) && inherited == map[]
        invariant !pass3 ==> RegsFromRegs(View(), p, i)
        invariant Roomy(p, allow, marked, i)
      {
        ghost var h := Head(allow, live, sloadins, marked, i, false);
        ScanReady(View(), h, p, i);
        TargetFacts(p, allow, live, sloadins, marked, i);
        allow, live, sloadins, marked, pass3 := ScanSload(i, p, allow, live, sloadins, marked, pass3);
        if reg[i].Reg? {
          JustOne(h.allow, reg[i].r, File(i));
        }
        ScanRoom(p, h.allow, allow, h.marked, marked, i);
        i := i - 1;
      }
    }

    method ScanSload(i: nat, p: Parent, allow0: set<int>, live0: set<int>, sloadins0: map<int, int>, marked0: set<int>,
                     pass30: bool)
      returns (allow: set<int>, live: set<int>, sloadins: map<int, int>, marked: set<int>, pass3: bool)
      requires i > 0 && InHead(p, allow0, live0, sloadins0, marked0, i, false)
      requires Scannable(View(), Head(allow0, live0, sloadins0, marked0, i, false), p, i)
      requires !pass30 ==> RegsFromRegs(View(), p, i)
      modifies this`freeset, this`mc, this`entry, this`defined, this`saved
      ensures InHead(p, allow, live, sloadins, marked, i - 1, false) && inherited == map[]
      ensures !pass3 ==> RegsFromRegs(View(), p, i - 1)
      ensures i in reg && i in slot && allow == if reg[i].Reg? then allow0 - {reg[i].r} else allow0
      ensures marked == if !reg[i].Reg? && slot[i] > 0 then marked0 + {i} else marked0
    {
      hide Inv, Sound, HeadInv, Scannable;
      ghost var a, h := View(), Head(allow0, live0, sloadins0, marked0, i, false);
      TargetFacts(p, allow0, live0, sloadins0, marked0, i);
      ScannedOk(a, h, p, i);
      ScanFacts(a, h, p, i);
      allow, live, sloadins, marked, pass3 := allow0, live0, sloadins0, marked0, pass30;
      if reg[i].Reg? {
        allow := allow - {reg[i].r};
        if slot[i] > 0 {
          SaveNow(i, reg[i].r);
        }
      } else if slot[i] > 0 {
        marked := marked + {i};
      }
      var rs := p.map_[i];
      if rs.InReg? && reg[i] == Reg(rs.rs) {  // coalesce matching registers right now
        TakeFromReg(i, rs.rs, rs.rs);
      } else if rs.InSlot? {
        if reg[i].Reg? {
          pass3 := true;
        }
      } else if reg[i].Reg? || slot[i] > 0 {
        sloadins := sloadins[rs.rs := i];
        live := live + {rs.rs};
      }
      assert View() == ScannedAsm(a, p, i);
      assert Head(allow, live, sloadins, marked, i - 1, false) == ScannedHead(a, h, p, i);
    }

    /** Reload spilled targets. Fails if there are no registers left for that. */
    method ReloadTargets(p: Parent, allow0: set<int>, live0: set<int>, sloadins: map<int, int>, marked0: set<int>,
                         pass30: bool)
      returns (ok: bool, allow: set<int>, live: set<int>, pass3: bool)
      requires InHead(p, allow0, live0, sloadins, marked0, 0, false) && inherited == map[]
      requires Roomy(p, allow0, marked0, 0)
      requires !pass30 ==> RegsFromRegs(View(), p, 0)
      modifies this
      ensures ok ==> Roomy(p, allow, {}, 0)
      ensures !ok ==> !EnoughRegisters(p)
      ensures ok ==> InHead(p, allow, live, sloadins, {}, 0, false) && inherited == map[]
      ensures ok && !pass3 ==> RegsFromRegs(View(), p, 0)
    {
      hide Inv, Sound, HeadInv, Roomy;
      ok, allow, live, pass3 := true, allow0, live0, pass30;
      var marked, i := marked0, p.stop;
      HeadFacts(View(), Head(allow, live, sloadins, marked, 0, false), p);
      while i > 0
        invariant 0 <= i <= p.stop && inherited == map[]
        invariant ok && InHead(p, allow, live, sloadins, marked, 0, false)
        invariant forall j :: j in marked ==> 1 <= j <= i
        invariant !pass3 ==> RegsFromRegs(View(), p, 0)
        invariant Roomy(p, allow, marked, 0)
      {
        if i in marked {
          ghost var was := allow;
          TargetFacts(p, allow, live, sloadins, marked, 0);
          ok, allow, live, pass3 := ReloadTarget(i, p, allow, live, sloadins, marked, pass3);
          if !ok {
            NoTarget(p, was, marked, i);
            return;
          }
          ReloadRoom(p, was, allow, marked, i);
          marked := marked - {i};
        }
        i := i - 1;
      }
      EmptySet(marked);
    }

    lemma NoTarget(p: Parent, allow: set<int>, marked: set<int>, i: int)
      requires Roomy(p, allow, marked, 0) && i in marked && 1 <= i <= p.stop && File(i) * allow == {}
      ensures !EnoughRegisters(p)
    {
      NoneLeft(p, fp, File(i), i in fp, allow, marked, i);
    }

    lemma NoTemporaries(p: Parent, allow: set<int>, live: set<int>)
      requires Roomy(p, allow, {}, 0) && live <= Sources(p) && (allow * gpr <= live || allow * fpr <= live)
      ensures !EnoughRegisters(p)
    {
      if allow * gpr <= live {
        AllLiveLeft(p, fp, gpr, false, allow, live);
      } else {
        AllLiveLeft(p, fp, fpr, true, allow, live);
      }
    }

    lemma JustOne(s: set<int>, x: int, file: set<int>)
      requires x in file
      ensures |s - (s - {x})| <= 1 && s - (s - {x}) <= file
    {
      Subsets({x}, s - (s - {x}));
    }

    /** Fails if all registers of the file are targets or taken. */
    method ReloadTarget(i: int, p: Parent, allow0: set<int>, live0: set<int>, sloadins: map<int, int>,
                        ghost marked: set<int>, pass30: bool)
      returns (ok: bool, allow: set<int>, live: set<int>, pass3: bool)
      requires InHead(p, allow0, live0, sloadins, marked, 0, false) && inherited == map[] && i in marked
      requires !pass30 ==> RegsFromRegs(View(), p, 0)
      modifies this
      ensures !ok ==> File(i) * allow0 == {}
      ensures ok ==> allow <= allow0 && |allow0 - allow| <= 1 && allow0 - allow <= File(i)
      ensures ok ==> InHead(p, allow, live, sloadins, marked - {i}, 0, false) && inherited == map[]
      ensures ok && !pass3 ==> RegsFromRegs(View(), p, 0)
    {
      hide Inv, Sound, HeadInv, Takeable, Reloadable;
      ghost var h := Head(allow0, live0, sloadins, marked, 0, false);
      ok, allow, live, pass3 := true, allow0, live0, pass30;
      MarkFacts(View(), h, p, i);
      var rs := p.map_[i];
      if rs.InReg? {
        HintedOk(View(), h, p, i, rs.rs, mc, e, goal);
        reg := reg[i := Hint(rs.rs)];
      } else if rs.q + p.delta == slot[i] {  // same spill slot, do nothing
        SameSlotOk(View(), h, p, i);
        return;
      }
      var mask := File(i) * allow;
      if mask == {} {
        ok := false;
        return;
      }
      allow, live, pass3 := ReloadInto(i, mask, p, allow, live, sloadins, marked, pass3);
    }

    /** A register of the mask gets the spilled target. */
    method ReloadInto(i: int, mask: set<int>, p: Parent, allow0: set<int>, live0: set<int>, sloadins: map<int, int>,
                      ghost marked: set<int>, pass30: bool)
      returns (allow: set<int>, live: set<int>, pass3: bool)
      requires InHead(p, allow0, live0, sloadins, marked, 0, false) && inherited == map[] && i in marked
      requires !pass30 ==> RegsFromRegs(View(), p, 0)
      requires mask == File(i) * allow0 != {}
      modifies this
      ensures allow <= allow0 && |allow0 - allow| <= 1 && allow0 - allow <= File(i)
      ensures InHead(p, allow, live, sloadins, marked - {i}, 0, false) && inherited == map[]
      ensures !pass3 ==> RegsFromRegs(View(), p, 0)
    {
      hide Inv, Sound, HeadInv, Takeable, Reloadable;
      ghost var a, h := View(), Head(allow0, live0, sloadins, marked, 0, false);
      allow, live, pass3 := allow0, live0, pass30;
      MarkFacts(View(), h, p, i);
      var rs := p.map_[i];
      var r := GetTarget(i, mask, p, h);
      ReloadedOk(a, h, p, i, r);
      ReloadFacts(a, h, p, i, r);
      SaveNow(i, r);
      allow := allow - {r};
      JustOne(allow0, r, File(i));
      if rs == InReg(r) {  // coalesce matching registers right now
        TakeFromReg(i, r, r);
        live := live - {r};
      } else if rs.InSlot? {
        pass3 := true;
      }
      assert View() == ReloadedAsm(a, p, i, r);
      assert Head(allow, live, sloadins, marked - {i}, 0, false) == ReloadedHead(h, p, i, r);
    }

    method GetTarget(i: int, mask: set<int>, p: Parent, ghost h: Head) returns (r: int)
      requires Valid() && HeadInv(View(), h, p) && i in h.marked && h.lo == 0 && !h.shuffling
      requires mask == File(i) * h.allow != {}
      modifies this
      ensures Valid() && i in p.map_ && Reloadable(old(View()), h, p, i, r) && r in mask
      ensures View() == Taken(old(View()), i, r, false)
    {
      hide Inv, Sound, HeadInv, Takeable;
      MarkFacts(View(), h, p, i);
      var ok;
      ok, r := Choose(i, mask);
      TakeFacts(View(), h, p, i, r);
      Take(i, r, false);
    }

    /** Restore target registers from parent spill slots. */
    method RestoreTargets(p: Parent, allow: set<int>, live: set<int>, sloadins: map<int, int>)
      requires InHead(p, allow, live, sloadins, {}, 0, false)
      modifies this`freeset, this`mc, this`inherited, this`defined, this`saved
      ensures InHead(p, allow, live, sloadins, {}, 0, false) && RegistersOnly(View(), p)
    {
      hide Inv, Sound, HeadInv;
      ghost var h := Head(allow, live, sloadins, {}, 0, false);
      HeadFacts(View(), h, p);
      var work := gpr + fpr - freeset;
      while work != {}
        invariant InHead(p, allow, live, sloadins, {}, 0, false) && work <= gpr + fpr - freeset
        invariant forall r :: r in gpr + fpr && r !in freeset && r !in work ==>
                    r in cost && cost[r] in p.map_ && p.map_[cost[r]].InReg?
        decreases |work|
      {
        var r := AnyOf(work);
        RestoreTarget(r, p, allow, live, sloadins);
        work := work - {r};
      }
      EmptySet(work);
    }

    method RestoreTarget(r: int, p: Parent, ghost allow: set<int>, ghost live: set<int>, ghost sloadins: map<int, int>)
      requires InHead(p, allow, live, sloadins, {}, 0, false) && r in gpr + fpr && r !in freeset
      modifies this`freeset, this`mc, this`inherited, this`defined, this`saved
      ensures InHead(p, allow, live, sloadins, {}, 0, false) && r in cost && cost[r] in p.map_
      ensures freeset == if p.map_[cost[r]].InSlot? then old(freeset) + {r} else old(freeset)
    {
      hide Inv, Sound, HeadInv, Placeable;
      ghost var h := Head(allow, live, sloadins, {}, 0, false);
      InUseFacts(View(), h, p, r);
      var i := cost[r];
      var rs := p.map_[i];
      if rs.InSlot? {
        FromSlotOk(View(), h, p, i, r);
        TakeFromSlot(i, r, rs.q + p.delta);
      }
    }

    /** Repeatedly coalesce free live registers by moving to their target. */
    method CoalesceFree(p: Parent, allow0: set<int>, live0: set<int>, sloadins: map<int, int>)
      returns (allow: set<int>, live: set<int>)
      requires InHead(p, allow0, live0, sloadins, {}, 0, true)
      modifies this`freeset, this`mc, this`entry, this`defined, this`saved
      ensures InHead(p, allow, live, sloadins, {}, 0, true) && live <= live0 && live !! freeset
      ensures allow0 - live0 <= allow
      ensures live0 !! old(freeset) || |live| < |live0|
    {
      hide Inv, Sound, HeadInv, Placeable;
      allow, live := allow0, live0;
      var work := freeset * live;
      while work != {}
        invariant InHead(p, allow, live, sloadins, {}, 0, true) && live <= live0 && allow0 - live0 <= allow
        invariant work == freeset * live
        invariant if live == live0 then freeset == old(freeset) else |live| < |live0|
        decreases |live|
      {
        var rp := AnyOf(work);
        HeadFacts(View(), Head(allow, live, sloadins, {}, 0, true), p);
        CoalescedOk(View(), Head(allow, live, sloadins, {}, 0, true), p, rp);
        var i := sloadins[rp];
        Subsets(live, {rp});
        live := live - {rp};
        allow := allow - {rp};
        TakeFromReg(i, reg[i].r, rp);
        work := freeset * live;
      }
      DisjointSets(freeset, live);
    }

    /** Break a cycle of one register file by renaming one target to a temporary register. */
    method BreakCycle(p: Parent, allow: set<int>, live: set<int>, sloadins: map<int, int>, file: set<int>)
      returns (ok: bool)
      requires InHead(p, allow, live, sloadins, {}, 0, true) && (file == gpr || file == fpr) && live * file !! freeset
      modifies this
      ensures !ok ==> live * file != {} && freeset * allow * file - live == {} && freeset == old(freeset)
      ensures ok ==>
              InHead(p, allow, live, sloadins, {}, 0, true)
              && (live * file != {} ==> exists r :: r in live && r in file && r in freeset)
      ensures ok ==> forall r :: r in gpr + fpr && r !in file ==> (r in freeset <==> r in old(freeset))
    {
      hide Inv, Sound, HeadInv;
      ok := true;
      if live * file != {} {
        var tmpset := freeset * allow * file - live;
        if tmpset == {} {
          ok := false;
        } else {
          var down := AnyOf(live * file);
          var up := AnyOf(tmpset);
          HeadFacts(View(), Head(allow, live, sloadins, {}, 0, true), p);
          FilesApart();
          BrokenOk(View(), Head(allow, live, sloadins, {}, 0, true), p, down, up);
          Rename(down, up);
        }
      }
    }

    /** Shuffle registers to match up target registers with parent registers. Fails if it takes a
        temporary register and there is none. */
    method Shuffle(p: Parent, allow0: set<int>, live0: set<int>, sloadins: map<int, int>) returns (ok: bool)
      requires InHead(p, allow0, live0, sloadins, {}, 0, true)
      modifies this
      ensures ok ==> Valid() && freeset == gpr + fpr
      ensures ok ==> forall m :: LeftByParent(p, wide, m, e) ==> goal(Exec(mc, m, e))
      ensures !ok ==> (live0 * gpr != {} && allow0 * gpr <= live0) || (live0 * fpr != {} && allow0 * fpr <= live0)
    {
      hide Inv, Sound, HeadInv;
      var allow, live := CoalesceFree(p, allow0, live0, sloadins);
      ok := true;
      while live != {}
        invariant InHead(p, allow, live, sloadins, {}, 0, true) && live <= live0 && live !! freeset
        invariant allow0 - live0 <= allow
        decreases |live|
      {
        OnlyCycles(View(), Head(allow, live, sloadins, {}, 0, true), p);
        HeadFacts(View(), Head(allow, live, sloadins, {}, 0, true), p);
        FilesApart();
        ghost var free := freeset;
        ok := BreakCycle(p, allow, live, sloadins, gpr);
        if !ok {
          NoTemporary(free, allow, live, gpr, allow0, live0);
          return;
        }
        assert forall r :: r in live * fpr ==> r in gpr + fpr && r !in gpr && r !in freeset;
        ok := BreakCycle(p, allow, live, sloadins, fpr);
        if !ok {
          NoTemporary(freeset, allow, live, fpr, allow0, live0);
          return;
        }
        FreeLive(live, gpr, fpr, freeset);
        allow, live := CoalesceFree(p, allow, live, sloadins);
      }
      forall m
        ensures LeftByParent(p, wide, m, e) ==> goal(Exec(mc, m, e))
      {
        HeadDone(View(), Head(allow, live, sloadins, {}, 0, true), p, m, e);
        SoundAt(View(), mc, e, goal, m);
      }
      ghost var any: Machine := *;
      HeadDone(View(), Head(allow, live, sloadins, {}, 0, true), p, any, e);
      HeadFacts(View(), Head(allow, live, sloadins, {}, 0, true), p);
    }

    /** `asm_head_side`: fails if coalescing gets too complex, which takes that there are not enough registers. */
    method HeadSide(p: Parent) returns (ok: bool)
      requires Valid() && Running() && hole == NoHole && UpTo(p.stop) && ParentOk(p, View()) && p.kept.Keys <= freeset
      requires defined <= reg.Keys
      requires forall r :: r in gpr + fpr && r !in freeset ==> r in cost && !IsK(cost[r])
      modifies this
      ensures ok ==> Valid() && freeset == gpr + fpr
      ensures ok ==> forall m :: LeftByParent(p, wide, m, e) ==> goal(Exec(mc, m, e))
      ensures EnoughRegisters(p) ==> ok
    {
      hide Inv, Sound, HeadInv, Roomy, EnoughRegisters;
      HeadStart(View(), p, mc, e, goal);
      ghost var a := View();
      var allow := gpr + fpr - p.kept.Keys;
      lax, entry := {}, p.kept;
      assert View() == AtHead(a, p);
      RoomAtStart(p);
      var live, sloadins, marked, pass3;
      allow, live, sloadins, marked, pass3 := ScanSloads(p, allow);
      ok := true;
      if marked != {} {
        ok, allow, live, pass3 := ReloadTargets(p, allow, live, sloadins, marked, pass3);
      }
      if ok {
        if pass3 {
          RestoreTargets(p, allow, live, sloadins);
        } else {
          RegistersLeft(View(), Head(allow, live, sloadins, {}, 0, false), p);
        }
        TargetFacts(p, allow, live, sloadins, {}, 0);
        ReadyToShuffle(View(), Head(allow, live, sloadins, {}, 0, false), p);
        ok := Shuffle(p, allow, live, sloadins);
        if !ok {
          NoTemporaries(p, allow, live);
        }
      }
    }

    lemma RoomAtStart(p: Parent)
      ensures Roomy(p, gpr + fpr - p.kept.Keys, {}, p.stop)
    {
      RoomStart(p, fp, gpr, false, gpr + fpr);
      RoomStart(p, fp, fpr, true, gpr + fpr);
    }

    /** `lj_asm_trace` for a side trace of n instructions: the body, backwards, then the head. */
    method AsmTrace(n: nat, p: Parent) returns (ok: bool)
      requires Valid() && Running() && hole == NoHole && IROk() && UpTo(n) && p.stop <= n && defined <= reg.Keys
      requires ParentOk(p, View()) && p.kept == map[] && forall ref :: p.stop < ref <= n ==> ref in ops
      modifies this
      ensures ok ==> freeset == gpr + fpr && forall m :: LeftByParent(p, wide, m, e) ==> goal(Exec(mc, m, e))
      ensures EnoughRegisters(p) ==> ok || evenspill > 256
    {
      hide Inv, Sound, InheritOk, IROk, EnoughRegisters;
      ghost var all := defined;
      ok := AssembleBody(n, p.stop);
      if ok {
        forall i | i in defined
          ensures i in all
        {
        }
        assert defined <= reg.Keys;
        Evictk();
        ok := HeadSide(p);
      }
    }

    // ---- PHI registers.

    ghost predicate Shuffling(p: Phis)
      reads this
    {
      Valid() && Running() && hole == NoHole && PhisOk(View(), p)
    }

    ghost function Amiss(p: Phis): set<int>
      reads this
    {
      Mismatches(View(), p)
    }

    /** Is the reference the left operand of some PHI with a register (`irt_ismarked`)? */
    method Marked(ref: int, p: Phis) returns (b: bool)
      requires forall r :: r in p.regs ==> r in p.left
      ensures b <==> IsLeft(p, ref)
    {
      b := exists r :: r in p.regs && p.left[r] == ref;
    }

    /** PHI registers that were blocked stay so, except for those that `freed` could have freed. */
    twostate predicate StillBlocked(p: Phis, freed: bool)
      reads this
    {
      forall x :: BlockedAt(old(View()), p, x) ==> BlockedAt(View(), p, x) || (x in freeset && freed)
    }

    /** One look at the PHI register r: its left operand is moved there, unless r is blocked by the
        left operand of another PHI. */
    method FixPhi(r: int, p: Phis) returns (ok: bool, blocked: bool)
      requires Shuffling(p) && r in p.regs
      modifies this
      ensures ok ==> Shuffling(p) && StillBlocked(p, !blocked && r in old(Amiss(p)))
      ensures ok && blocked ==> View() == old(View()) && BlockedAt(View(), p, r)
      ensures ok && !blocked ==> Amiss(p) == old(Amiss(p)) - {r}
      ensures ok ==> forall x :: x != r && x in old(freeset) ==> x in freeset
      ensures ok && r in old(freeset) ==> !blocked
      ensures !ok ==> evenspill > 256
      ensures ok ==> SlotsKept()
    {
      hide Inv, Sound, KeptSlots;
      OwnSlots(slot);
      ok, blocked := true, false;
      var lref := p.left[r];
      PhiFacts(p, r);
      if reg[lref] != Reg(r) {
        if r !in freeset {
          var other := Marked(cost[r], p);
          if other {
            blocked := true;
            return;
          }
          ok := Grab(r, p);
          if !ok {
            return;
          }
        }
        if reg[lref].Reg? {
          ghost var was := slot;
          PlaceLeft(r, p);
          SlotsVia(old(slot), was, slot);
        }
      }
    }

    lemma PhiFacts(p: Phis, r: int)
      requires Inv(View()) && PhisOk(View(), p) && r in p.regs
      ensures r in gpr + fpr && r in cost && r in p.left && p.left[r] in reg
      ensures r !in freeset ==> cost[r] in reg && reg[cost[r]] == Reg(r)
    {
      if r !in freeset {
        HeldIsRecorded(r);
      }
    }

    /** Grab the register from an invariant. */
    method Grab(r: int, p: Phis) returns (ok: bool)
      requires Shuffling(p) && r in p.regs && r !in freeset && r in cost && !IsLeft(p, cost[r])
      modifies this
      ensures ok ==> Shuffling(p) && StillBlocked(p, false) && Amiss(p) == old(Amiss(p))
      ensures ok ==> r in freeset && old(freeset) <= freeset && reg[p.left[r]] == old(reg)[p.left[r]]
      ensures !ok ==> evenspill > 256
      ensures ok ==> SlotsKept()
    {
      hide Inv, Sound;
      PhiFacts(p, r);
      InUse(r);
      ghost var a := View();
      var r_;
      ok, r_ := Restore(cost[r]);
      if ok {
        NoLeftIn(a, p, r);
        OtherDropped(a, View(), p, r);
      }
    }

    lemma InUse(r: int)
      requires Inv(View()) && r in gpr + fpr && r !in freeset
      ensures r in cost && cost[r] in reg && reg[cost[r]] == Reg(r) && (IsK(cost[r]) || cost[r] in defined)
    {
      assert Held(View(), r);
    }

    /** The left operand goes to its PHI register, which is free. */
    method PlaceLeft(r: int, p: Phis)
      requires Shuffling(p) && r in p.regs && r in freeset && Mismatch(View(), p, r)
      modifies this
      ensures Shuffling(p) && StillBlocked(p, true) && Amiss(p) == old(Amiss(p)) - {r}
      ensures forall x :: x != r && x in old(freeset) ==> x in freeset
      ensures SlotsKept()
    {
      hide Inv, Sound;
      ghost var a := View();
      Placing(a, p, r);
      var left := reg[p.left[r]].r;
      RenamedPhis(a, left, r, p);
      Rename(left, r);
    }

    /** Check all left PHI operand registers once. */
    method PhiRound(p: Phis) returns (ok: bool, blocked: set<int>, blockedby: set<int>)
      requires Shuffling(p)
      modifies this
      ensures ok ==> Shuffling(p) && Amiss(p) <= old(Amiss(p)) && Amiss(p) <= blocked <= p.regs
      ensures ok ==> forall r :: r in blocked ==> BlockedAt(View(), p, r) || r in freeset
      ensures ok && !(blocked !! freeset) ==> Amiss(p) != old(Amiss(p))
      ensures ok && Ready(old(View()), p) ==> Amiss(p) != old(Amiss(p))
      ensures !ok ==> evenspill > 256
      ensures ok ==> SlotsKept()
    {
      hide Inv, Sound, KeptSlots;
      OwnSlots(slot);
      ok, blocked, blockedby := true, {}, {};
      var phiset := p.regs;
      ghost var r0 :| !Ready(View(), p) || (r0 in freeset && r0 in p.regs && r0 in Amiss(p));
      ghost var ready := Ready(View(), p);
      while phiset != {}
        invariant phiset <= p.regs && blocked <= p.regs - phiset && SlotsKept()
        invariant Shuffling(p) && Amiss(p) <= old(Amiss(p)) && Amiss(p) <= blocked + phiset
        invariant forall r :: r in blocked ==> BlockedAt(View(), p, r) || (r in freeset && Amiss(p) != old(Amiss(p)))
        invariant ready ==>
                  r0 in old(Amiss(p)) && if r0 in phiset then r0 in freeset && r0 in Amiss(p) else r0 !in Amiss(p)
        decreases |phiset|
      {
        var r := AnyOf(phiset);
        var b;
        ghost var was := slot;
        ok, b := FixPhi(r, p);
        if !ok {
          return;
        }
        SlotsVia(old(slot), was, slot);
        if b {
          blocked := blocked + {r};
          if reg[p.left[r]].Reg? {
            blockedby := blockedby + {reg[p.left[r]].r};
          }
        }
        phiset := phiset - {r};
      }
      Meeting(blocked, freeset);
    }

    /** Registers outside the file, and what is in them, are left alone. */
    twostate predicate Within(file: set<int>)
      reads this
    {
      && Untouched(file) && reg.Keys == old(reg).Keys
      && forall o :: o in old(reg) && o in reg && reg[o] != old(reg)[o] ==> old(reg)[o].Reg? && old(reg)[o].r in file
    }

    /** `asm_phi_break`: break a PHI cycle of one register file by renaming to a free register. */
    method BreakPhi(p: Phis, blocked: set<int>, blockedby: set<int>, file: set<int>) returns (ok: bool)
      requires Shuffling(p) && (file == gpr || file == fpr) && blocked <= p.regs
      requires forall r :: r in blocked && r in file ==> BlockedAt(View(), p, r)
      modifies this
      ensures ok ==> Shuffling(p) && Amiss(p) <= old(Amiss(p)) && Within(file)
      ensures ok && blocked * file != {}
              && (forall d :: d in blocked && d in file ==> Turning(old(View()), p, blocked, d)) ==>
                exists d :: d in file && d in freeset && Mismatch(View(), p, d)
      ensures !ok ==> evenspill > 256
      ensures ok ==> SlotsKept()
    {
      hide Inv, Sound, KeptSlots;
      OwnSlots(slot);
      ok := true;
      FilesApart();
      var candidates := blocked * file;
      if candidates != {} {
        var up;
        ok, up := PickBeside(p, blocked, file);
        if !ok {
          return;
        }
        if candidates - blockedby != {} {
          candidates := candidates - blockedby;
        }
        var down := AnyOf(candidates);
        FilesApart();
        ghost var was := slot;
        RenameBlocked(p, down, up);
        SlotsVia(old(slot), was, slot);
      }
    }

    /** A free register of the file that is not blocked. */
    method PickBeside(p: Phis, blocked: set<int>, file: set<int>) returns (ok: bool, up: int)
      requires Shuffling(p) && (file == gpr || file == fpr) && blocked <= p.regs
      modifies this
      ensures ok ==>
              Shuffling(p) && Amiss(p) <= old(Amiss(p)) && Within({up}) && up in file && up !in blocked && up in freeset
      ensures ok ==> forall r :: r in blocked && BlockedAt(old(View()), p, r) ==> BlockedAt(View(), p, r)
      ensures ok ==> forall d :: d in blocked && Turning(old(View()), p, blocked, d) ==> Turning(View(), p, blocked, d)
      ensures !ok ==> evenspill > 256
      ensures ok ==> SlotsKept()
    {
      hide Inv, Sound;
      FilesApart();
      RoomBeside(View(), p, blocked, file);
      ghost var a := View();
      ok, up := Pick(file - blocked);
      if ok {
        OtherDropped(a, View(), p, up);
      }
    }

    method RenameBlocked(p: Phis, down: int, up: int)
      requires Shuffling(p) && BlockedAt(View(), p, down) && up in freeset && SameFile(View(), down, up)
      modifies this
      ensures Shuffling(p) && Amiss(p) <= old(Amiss(p)) && Within({down, up}) && down in freeset
      ensures Mismatch(old(View()), p, down) ==> Mismatch(View(), p, down)
      ensures SlotsKept()
    {
      hide Inv, Sound;
      FilesApart();
      InUse(down);
      RenamedAmiss(View(), down, up, p);
      RenamedPhis(View(), down, up, p);
      Rename(down, up);
    }

    /** The left operands find their PHI registers. */
    method PlaceAll(p: Phis) returns (ok: bool)
      requires Shuffling(p)
      modifies this
      ensures ok ==> Shuffling(p) && Amiss(p) == {}
      ensures !ok ==> evenspill > 256
      ensures ok ==> SlotsKept()
    {
      hide Inv, Sound, KeptSlots;
      OwnSlots(slot);
      ok := true;
      while true
        invariant Shuffling(p) && SlotsKept()
        decreases |Amiss(p)|, if Ready(View(), p) then 0 else 1
      {
        ghost var m0, ready := Amiss(p), Ready(View(), p);
        var blocked, blockedby;
        ghost var was := slot;
        ok, blocked, blockedby := PhiRound(p);
        if !ok {
          break;
        }
        SlotsVia(old(slot), was, slot);
        if blocked == {} {
          break;
        }
        ghost var a, m1 := View(), Amiss(p);
        if freeset * blocked == {} {  // break cycles if none are free
          DisjointSets(freeset, blocked);
          if m1 == m0 {
            AllCycles(a, p, blocked);
          }
          was := slot;
          ok := BreakBoth(p, blocked, blockedby);
          if !ok {
            break;
          }
          SlotsVia(old(slot), was, slot);
        } else {
          EmptySet(freeset * blocked);
        }
        if m1 != m0 {
          ProperSubset(m0, m1);
        }
        if Amiss(p) != m1 {
          ProperSubset(m1, Amiss(p));
        }
      }
    }

    method BreakBoth(p: Phis, blocked: set<int>, blockedby: set<int>) returns (ok: bool)
      requires Shuffling(p) && blocked <= p.regs && blocked != {}
      requires forall r :: r in blocked ==> BlockedAt(View(), p, r)
      modifies this
      ensures ok ==> Shuffling(p) && Amiss(p) <= old(Amiss(p))
      ensures ok && (forall d :: d in blocked ==> Turning(old(View()), p, blocked, d)) ==> Ready(View(), p)
      ensures !ok ==> evenspill > 256
      ensures ok ==> SlotsKept()
    {
      hide Inv, Sound, KeptSlots;
      FilesApart();
      ghost var a := View();
      ok := BreakPhi(p, blocked, blockedby, gpr);
      if ok {
        ghost var b := View();
        OtherFile(a, b, p, blocked);
        ok := BreakPhi(p, blocked, blockedby, fpr);
        if ok {
          SlotsVia(a.slot, b.slot, slot);
          SplitFiles(blocked, gpr, fpr);
          StillAmiss(b, View(), p);
        }
      }
    }

    /** Give up registers of invariants that are modified inside the loop. */
    method RestoreModified(p: Phis) returns (ok: bool)
      requires Shuffling(p) && Amiss(p) == {}
      modifies this
      ensures ok ==> Shuffling(p) && Amiss(p) == {}
      ensures ok ==> forall r :: r in gpr + fpr && r in modset ==> r in freeset || r in p.regs
      ensures !ok ==> evenspill > 256
      ensures ok ==> SlotsKept()
    {
      hide Inv, Sound, KeptSlots;
      OwnSlots(slot);
      ok := true;
      var work := modset * (gpr + fpr) - (freeset + p.regs);
      while work != {}
        invariant Shuffling(p) && Amiss(p) == {} && work <= gpr + fpr - freeset - p.regs && SlotsKept()
        invariant forall r :: r in gpr + fpr && r in modset ==> r in freeset || r in p.regs || r in work
        decreases |work|
      {
        var r := AnyOf(work);
        ghost var was := slot;
        ok := Release(r, p);
        if !ok {
          return;
        }
        SlotsVia(old(slot), was, slot);
        work := work - {r};
      }
      EmptySet(work);
    }

    method Release(r: int, p: Phis) returns (ok: bool)
      requires Shuffling(p) && r in gpr + fpr && r !in freeset
      modifies this
      ensures ok ==>
              Shuffling(p) && Amiss(p) <= old(Amiss(p)) && freeset == old(freeset) + {r} && modset <= old(modset) + {r}
      ensures !ok ==> evenspill > 256
      ensures ok ==> SlotsKept()
    {
      hide Inv, Sound;
      FilesApart();
      InUse(r);
      ghost var a := View();
      var r_;
      ok, r_ := Restore(cost[r]);
      if ok {
        OtherDropped(a, View(), p, r);
      }
    }

    /** Store to the spill slot again. */
    method Resave(i: int, r: int)
      requires Valid() && Asked(View(), r) && r in cost && cost[r] == i && Slotted(View(), i) && inherited == map[]
      modifies this`mc
      ensures Valid()
    {
      hide Inv, Sound;
      ResaveStep(View(), i, r, mc, e, goal);
      mc := [SpStore(r, slot[i], i in wide)] + mc;
    }

    /** Allocate and save the PHI registers whose left operands gained a spill slot. */
    method SavePhis(p: Phis) returns (ok: bool)
      requires Shuffling(p) && Amiss(p) == {}
      modifies this
      ensures ok ==> Shuffling(p) && Amiss(p) == {}
      ensures ok ==> forall r :: r in p.regs ==>
              p.left[r] in slot && (old(slot)[p.left[r]] > 0 ==> reg[p.left[r]] == Reg(r))
      ensures !ok ==> evenspill > 256
      ensures ok ==> SlotsKept()
      ensures ok ==> modset <= old(modset) + p.regs && old(freeset) - p.regs <= freeset
    {
      hide Inv, Sound;
      ok := true;
      var work := p.regs;
      KeysAgree();
      while work != {}
        invariant Shuffling(p) && Amiss(p) == {} && work <= p.regs && slot.Keys == reg.Keys == old(reg).Keys
        invariant SlotsKept() && modset <= old(modset) + p.regs && old(freeset) - p.regs <= freeset
        invariant forall r :: r in p.regs ==> old(slot)[p.left[r]] > 0 ==> slot[p.left[r]] > 0
        invariant forall r :: r in p.regs && r !in work ==> old(slot)[p.left[r]] > 0 ==> reg[p.left[r]] == Reg(r)
        decreases |work|
      {
        var r := AnyOf(work);
        ok := SavePhi(r, p);
        if !ok {
          return;
        }
        work := work - {r};
      }
      EmptySet(work);
    }

    method SavePhi(r: int, p: Phis) returns (ok: bool)
      requires Shuffling(p) && Amiss(p) == {} && r in p.regs && p.left[r] in slot
      modifies this
      ensures ok ==> Shuffling(p) && Amiss(p) == {} && Steady() && slot.Keys == reg.Keys
      ensures ok ==> old(slot)[p.left[r]] > 0 ==> reg[p.left[r]] == Reg(r)
      ensures ok ==> forall x :: x in p.regs && old(reg)[p.left[x]] == Reg(x) ==> reg[p.left[x]] == Reg(x)
      ensures !ok ==> evenspill > 256
      ensures ok ==> modset <= old(modset) + {r} && old(freeset) - {r} <= freeset
    {
      hide Inv, Sound;
      ok := true;
      KeysAgree();
      FilesApart();
      var lref := p.left[r];
      if slot[lref] > 0 {
        ghost var a := View();
        NotElsewhere(a, p, r);
        var r_;
        ok, r_ := Alloc1(lref, {r}, false);
        if ok {
          forall x | x in old(freeset) && x != r
            ensures x in freeset
          {
            assert x in gpr + fpr;
          }
          KeysAgree();
          Settling(a, View(), p, r);
          FilesApart();
          Resave(lref, r);
        }
      }
    }

    /** `asm_phi_shuffle`: afterwards every left PHI operand that has a register is in the register of
        its PHI, other registers modified inside the loop hold nothing, and the code still does what
        it is meant to do. */
    method PhiShuffle(p: Phis) returns (ok: bool)
      requires Shuffling(p)
      modifies this
      ensures ok ==> Shuffling(p) && forall r :: r in p.regs && reg[p.left[r]].Reg? ==> reg[p.left[r]] == Reg(r)
      ensures ok ==> forall r :: r in gpr + fpr && r in modset ==> r in freeset || r in p.regs
      ensures ok ==> forall r :: r in p.regs && p.left[r] in old(slot) && old(slot)[p.left[r]] > 0 ==>
                reg[p.left[r]] == Reg(r)
      ensures !ok ==> evenspill > 256
    {
      hide Inv, Sound;
      ok := PlaceAll(p);
      if ok {
        ok := RestoreModified(p);
      }
      if ok {
        ok := SavePhis(p);
      }
      if ok {
        forall r | r in p.regs && reg[p.left[r]].Reg?
          ensures reg[p.left[r]] == Reg(r)
        {
          assert r !in Amiss(p);
        }
      }
    }

    lemma FilesApart()
      requires Inv(View())
      ensures gpr !! fpr && freeset <= gpr + fpr && cost.Keys == gpr + fpr
    {
    }
  }

  /** The IR of a trace: what is wanted of it, and what its references mean. */
  ghost predicate TraceOk(gpr: set<int>, fpr: set<int>, ops: map<int, seq<int>>, snaps: map<int, seq<int>>, n: nat,
                          regs: map<int, Loc>, p: Parent, e: Meaning) {
    && gpr != {} && fpr != {} && (forall r :: gpr - {r} != {} && fpr - {r} != {})
    && (forall ref :: ref in ops ==> !IsK(ref) && ref in regs && MeansWhatItSays(ops, regs, e, ref))
    && (forall ref :: p.stop < ref <= n ==> ref in ops)
    && (forall ref, k :: ref in snaps && 0 <= k < |snaps[ref]| ==> 1 <= snaps[ref][k] < ref && snaps[ref][k] in regs)
  }

  ghost predicate MeansWhatItSays(ops: map<int, seq<int>>, regs: map<int, Loc>, e: Meaning, ref: int)
    requires ref in ops
  {
    && |ops[ref]| <= 2
    && (forall k :: 0 <= k < |ops[ref]| ==> ops[ref][k] in regs && ops[ref][k] < ref && ops[ref][k] != 0)
    && e.val(ref) == e.op(ref, seq(|ops[ref]|, (k: nat) requires k < |ops[ref]| => e.val(ops[ref][k])))
  }

  /** Assemble a side trace: if the parent leaves its values where it says, then the code computes
      what is wanted of the trace into the registers it is wanted in. With enough registers it fails only
      if it takes more spill slots than there are. */
  method AssembleSideTrace(gpr: set<int>, fpr: set<int>, fp: set<int>, wide: set<int>, ops: map<int, seq<int>>,
                           snaps: map<int, seq<int>>, n: nat, first: nat, regs: map<int, Loc>, wants: map<int, int>,
                           p: Parent, ghost e: Meaning)
    returns (ok: bool, mc: seq<Ins>, spills: nat)
    requires TailOk(gpr, fpr, fp, n, regs, wants) && 0 < first <= 256 && first % 2 == 0
    requires TraceOk(gpr, fpr, ops, snaps, n, regs, p, e) && p.stop <= n && p.kept == map[]
    requires InheritOk(p, gpr, fpr, fp)
    ensures ok ==> forall m :: LeftByParent(p, wide, m, e) ==> Wanted(wants, Exec(mc, m, e), e)
    ensures Enough(p, fp, gpr, false) && Enough(p, fp, fpr, true) ==> ok || spills > 256
  {
    var a := new ASMState(gpr, fpr, fp, wide, ops, snaps, n, first, regs, wants, e);
    assert a.IROk() by {
      forall ref | ref in ops
        ensures a.InstructionOk(ref)
      {
        assert MeansWhatItSays(ops, regs, e, ref);
      }
    }
    ok := a.AsmTrace(n, p);
    mc, spills := a.mc, a.evenspill;
  }
}
