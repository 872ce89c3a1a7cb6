/** The state of the IR register allocator (`lj_asm.c`) as a value, the machine it emits code for,
    and what each of its steps means for that code.

    Code is emitted backwards: each step puts an instruction in front of the code emitted so far.
    `Expect` says what the bookkeeping asks of the machine right before that code; a step is right
    if, from a machine that meets the new expectations, its instruction leads to one that meets
    the old ones. */
module RegAlloc {

  // ---- The machine.

  /** Half of a spilled value. */
  datatype Half = Half(v: int, k: nat)

  datatype Machine = Machine(regs: int -> int, mem: int -> Half)

  datatype Ins =
    | Mov(dst: int, src: int)
    | LoadK(dst: int, k: int)
    | SpLoad(dst: int, ofs: int, wide: bool)
    | SpStore(src: int, ofs: int, wide: bool)
    | Op(dst: int, ref: int, srcs: seq<int>)

  /** The meaning of the IR: the value of each reference, and what instructions compute. */
  datatype Meaning = Meaning(val: int -> int, op: (int, seq<int>) -> int)

  function Upd(f: int -> int, k: int, v: int): int -> int {
    x => if x == k then v else f(x)
  }

  function Poke(mem: int -> Half, ofs: int, wide: bool, v: int): int -> Half {
    x => if x == ofs then Half(v, 0) else if wide && x == ofs + 1 then Half(v, 1) else mem(x)
  }

  /** The spill slot at ofs holds v. */
  predicate Holds(m: Machine, ofs: int, wide: bool, v: int) {
    m.mem(ofs) == Half(v, 0) && (wide ==> m.mem(ofs + 1) == Half(v, 1))
  }

  function Fetch(m: Machine, ofs: int, wide: bool): int {
    if Holds(m, ofs, wide, m.mem(ofs).v) then m.mem(ofs).v else 0
  }

  function Step(i: Ins, m: Machine, e: Meaning): Machine {
    match i
    case Mov(d, s) => m.(regs := Upd(m.regs, d, m.regs(s)))
    case LoadK(d, k) => m.(regs := Upd(m.regs, d, e.val(k)))
    case SpLoad(d, ofs, wide) => m.(regs := Upd(m.regs, d, Fetch(m, ofs, wide)))
    case SpStore(s, ofs, wide) => m.(mem := Poke(m.mem, ofs, wide, m.regs(s)))
    case Op(d, ref, srcs) =>
      m.(regs := Upd(m.regs, d, e.op(ref, seq(|srcs|, (k: nat) requires k < |srcs| => m.regs(srcs[k])))))
  }

  function Exec(mc: seq<Ins>, m: Machine, e: Meaning): Machine {
    if mc == [] then m else Exec(mc[1..], Step(mc[0], m, e), e)
  }

  lemma ExecCons(i: Ins, mc: seq<Ins>, m: Machine, e: Meaning)
    ensures Exec([i] + mc, m, e) == Exec(mc, Step(i, m, e), e)
  {
    assert ([i] + mc)[1..] == mc;
  }

  // ---- The allocator.

  /** The r field of an IR instruction. */
  datatype Loc = Reg(r: int) | Hint(h: int) | Init

  /** Where a reference that is to be evaluated early still awaits its definition. */
  datatype Hole = NoHole | InHole(dest: int, ref: int)

  /** `free`, `cost` (its reference part), the r and s fields of the IR instructions, and the spill
      slot counters. `lax` are registers whose values are not asked for (yet); `defined` are the
      references defined by code still to be emitted, `saved` those of them whose spill slot has
      been stored to already; `entry` are registers that must hold references when the code is
      entered, and `inherited` the slots of the parent that must. */
  datatype Asm = Asm(
    gpr: set<int>, fpr: set<int>, fp: set<int>, wide: set<int>,
    free: set<int>, cost: map<int, int>, reg: map<int, Loc>, slot: map<int, nat>, even: nat, odd: nat,
    lax: set<int>, defined: set<int>, saved: set<int>, entry: map<int, int>, inherited: map<int, int>, hole: Hole)

  predicate IsK(ref: int) {
    ref < 0
  }

  function All(a: Asm): set<int> {
    a.gpr + a.fpr
  }

  function Width(a: Asm, ref: int): nat {
    if ref in a.wide then 2 else 1
  }

  /** The register is in use: it holds a reference whose recorded register it is, of its kind. */
  predicate Held(a: Asm, r: int) {
    && r in a.cost && a.cost[r] in a.reg && a.reg[a.cost[r]] == Reg(r)
    && (a.cost[r] in a.fp <==> r in a.fpr)
    && (IsK(a.cost[r]) || a.cost[r] in a.defined)
  }

  ghost predicate AllHeld(a: Asm) {
    forall r {:trigger Held(a, r)} {:trigger r in a.free} :: r in All(a) && r !in a.free ==> Held(a, r)
  }

  /** A recorded register is in use for the reference, except where the definition was emitted. */
  predicate Recorded(a: Asm, ref: int) {
    ref in a.reg && a.reg[ref].Reg? ==>
      && a.reg[ref].r in All(a) && a.reg[ref].r !in a.free
      && a.reg[ref].r in a.cost && a.cost[a.reg[ref].r] == ref
  }

  ghost predicate AllRecorded(a: Asm)
    requires a.cost.Keys == All(a)
  {
    forall ref {:trigger Recorded(a, ref)} :: IsK(ref) || ref in a.defined ==> Recorded(a, ref)
  }

  predicate SlotOk(a: Asm, ref: int) {
    ref in a.slot && a.slot[ref] > 0 ==>
      && !IsK(ref) && a.slot[ref] + Width(a, ref) <= a.even && (ref in a.wide ==> a.slot[ref] % 2 == 0)
      && !(a.odd > 0 && a.slot[ref] <= a.odd < a.slot[ref] + Width(a, ref))
  }

  predicate SlotsApart(a: Asm, ref: int, other: int) {
    ref in a.slot && other in a.slot && ref != other && a.slot[ref] > 0 && a.slot[other] > 0 ==>
      a.slot[ref] + Width(a, ref) <= a.slot[other] || a.slot[other] + Width(a, other) <= a.slot[ref]
  }

  /** No two spilled references share a slot, and the next free slots are free. */
  ghost predicate SlotsOk(a: Asm) {
    && a.even % 2 == 0 && 0 < a.even <= 256 && (a.odd > 0 ==> a.odd % 2 == 1 && a.odd < a.even)
    && (forall ref {:trigger SlotOk(a, ref)} :: SlotOk(a, ref))
    && (forall ref, other {:trigger SlotsApart(a, ref, other)} :: SlotsApart(a, ref, other))
  }

  ghost predicate Inv(a: Asm) {
    && a.gpr !! a.fpr && a.free <= All(a) && a.cost.Keys == All(a) && a.slot.Keys == a.reg.Keys
    && AllHeld(a) && AllRecorded(a) && SlotsOk(a) && a.saved <= a.defined
    && a.entry.Keys <= a.free
  }

  predicate Asked(a: Asm, r: int) {
    r in All(a) && r !in a.free && r !in a.lax
  }

  predicate Slotted(a: Asm, ref: int) {
    ref in a.defined && ref !in a.saved && ref in a.slot && a.slot[ref] > 0
  }

  /** What the bookkeeping asks of the machine before the code emitted so far. */
  ghost predicate Expect(a: Asm, m: Machine, e: Meaning) {
    && (forall r {:trigger m.regs(r)} {:trigger Asked(a, r)} :: Asked(a, r) && r in a.cost ==>
        m.regs(r) == e.val(a.cost[r]))
    && (forall ref {:trigger Slotted(a, ref)} :: Slotted(a, ref) ==> Holds(m, a.slot[ref], ref in a.wide, e.val(ref)))
    && (forall r :: r in a.entry ==> m.regs(r) == e.val(a.entry[r]))
    && (forall ref :: ref in a.inherited ==> Holds(m, a.inherited[ref], ref in a.wide, e.val(ref)))
    && (a.hole.InHole? ==> m.regs(a.hole.dest) == e.val(a.hole.ref))
  }

  /** The code emitted so far leads from all expected machines to the goal. */
  ghost predicate Sound(a: Asm, mc: seq<Ins>, e: Meaning, goal: Machine -> bool) {
    forall m :: Expect(a, m, e) ==> goal(Exec(mc, m, e))
  }

  lemma SoundAt(a: Asm, mc: seq<Ins>, e: Meaning, goal: Machine -> bool, m: Machine)
    requires Sound(a, mc, e, goal)
    ensures Expect(a, m, e) ==> goal(Exec(mc, m, e))
  {
  }

  lemma Emits(i: Ins, a: Asm, a': Asm, mc: seq<Ins>, e: Meaning, goal: Machine -> bool)
    requires Sound(a, mc, e, goal)
    requires forall m :: Expect(a', m, e) ==> Expect(a, Step(i, m, e), e)
    ensures Sound(a', [i] + mc, e, goal)
  {
    forall m | Expect(a', m, e)
      ensures goal(Exec([i] + mc, m, e))
    {
      ExecCons(i, mc, m, e);
    }
  }

  // ---- Giving up a register.

  /** r is free again; the reference it held has no register any more. */
  function Dropped(a: Asm, r: int, loc: Loc): Asm
    requires r in a.cost
  {
    a.(free := a.free + {r}, reg := a.reg[a.cost[r] := loc])
  }

  lemma DroppedOk(a: Asm, r: int, loc: Loc)
    requires Inv(a) && r in All(a) && r !in a.free && !loc.Reg?
    ensures Held(a, r) && Inv(Dropped(a, r, loc))
  {
    var a' := Dropped(a, r, loc);
    assert Held(a, r);
    forall x | x in All(a) && x !in a'.free
      ensures Held(a', x)
    {
      assert Held(a, x);
    }
    forall ref | IsK(ref) || ref in a.defined
      ensures Recorded(a', ref)
    {
      assert Recorded(a, ref);
    }
    SameSlots(a, a');
  }

  lemma SameSlots(a: Asm, a': Asm)
    requires SlotsOk(a) && a'.slot == a.slot && a'.even == a.even && a'.odd == a.odd && a'.wide == a.wide
    ensures SlotsOk(a')
  {
    forall ref
      ensures SlotOk(a', ref)
    {
      assert SlotOk(a, ref);
    }
    forall ref, other
      ensures SlotsApart(a', ref, other)
    {
      assert SlotsApart(a, ref, other);
    }
  }

  /** Rematerialize a constant. */
  lemma RematMeans(a: Asm, r: int, m: Machine, e: Meaning)
    requires Inv(a) && r in All(a) && r !in a.free && IsK(a.cost[r]) && Unhit(a, r)
    requires Expect(Dropped(a, r, Init), m, e)
    ensures Expect(a, Step(LoadK(r, a.cost[r]), m, e), e)
  {
    LoadMeans(a, r, Init, LoadK(r, a.cost[r]), m, e);
  }

  /** The register is not one that must be left alone. */
  predicate Unhit(a: Asm, r: int) {
    a.hole.InHole? ==> a.hole.dest != r
  }

  /** Any instruction that fetches the value of the reference into r. */
  lemma LoadMeans(a: Asm, r: int, loc: Loc, i: Ins, m: Machine, e: Meaning)
    requires Inv(a) && r in All(a) && r !in a.free && Unhit(a, r)
    requires Expect(Dropped(a, r, loc), m, e)
    requires Step(i, m, e) == m.(regs := Upd(m.regs, r, e.val(a.cost[r])))
    ensures Expect(a, Step(i, m, e), e)
  {
    var a', m' := Dropped(a, r, loc), Step(i, m, e);
    forall x | Asked(a, x) && x in a.cost
      ensures m'.regs(x) == e.val(a.cost[x])
    {
      assert x != r ==> Asked(a', x);
    }
    forall ref | Slotted(a, ref)
      ensures Holds(m', a.slot[ref], ref in a.wide, e.val(ref))
    {
      assert Slotted(a', ref);
    }
    assert forall x :: x in a.entry ==> x != r;
  }

  /** Restore from a spill slot. */
  lemma RestoreMeans(a: Asm, r: int, m: Machine, e: Meaning)
    requires Inv(a) && r in All(a) && r !in a.free && Slotted(a, a.cost[r]) && Unhit(a, r)
    requires Expect(Dropped(a, r, Hint(r)), m, e)
    ensures Expect(a, Step(SpLoad(r, a.slot[a.cost[r]], a.cost[r] in a.wide), m, e), e)
  {
    assert Slotted(Dropped(a, r, Hint(r)), a.cost[r]);
    LoadMeans(a, r, Hint(r), SpLoad(r, a.slot[a.cost[r]], a.cost[r] in a.wide), m, e);
  }

  /** A register whose value is not asked for is simply given up. */
  lemma LaxMeans(a: Asm, r: int, loc: Loc, m: Machine, e: Meaning)
    requires Inv(a) && r in All(a) && r !in a.free && r in a.lax && Expect(Dropped(a, r, loc), m, e)
    ensures Expect(a, m, e)
  {
    var a' := Dropped(a, r, loc);
    forall x | Asked(a, x) && x in a.cost
      ensures m.regs(x) == e.val(a.cost[x])
    {
      assert Asked(a', x);
    }
    forall ref | Slotted(a, ref)
      ensures Holds(m, a.slot[ref], ref in a.wide, e.val(ref))
    {
      assert Slotted(a', ref);
    }
  }

  // ---- Spill slots.

  function SpillSlot(a: Asm, ref: int): nat {
    if ref !in a.wide && a.odd > 0 then a.odd else a.even
  }

  function Spilled(a: Asm, ref: int): Asm {
    var s := SpillSlot(a, ref);
    a.(slot := a.slot[ref := s],
       even := if s == a.even then a.even + 2 else a.even,
       odd := if ref in a.wide then a.odd else if s == a.odd then 0 else a.even + 1)
  }

  lemma SpilledOk(a: Asm, ref: int)
    requires Inv(a) && ref in a.slot && a.slot[ref] == 0 && !IsK(ref) && Spilled(a, ref).even <= 256
    ensures Inv(Spilled(a, ref)) && 0 < SpillSlot(a, ref) && SpillSlot(a, ref) + Width(a, ref) <= 256
  {
    var a' := Spilled(a, ref);
    forall x
      ensures SlotOk(a', x)
    {
      assert SlotOk(a, x);
    }
    forall x, y
      ensures SlotsApart(a', x, y)
    {
      assert SlotsApart(a, x, y) && SlotOk(a, x) && SlotOk(a, y);
    }
    SameRegs(a, a');
  }

  lemma SameRegs(a: Asm, a': Asm)
    requires a.cost.Keys == All(a) && AllHeld(a) && AllRecorded(a)
    requires a'.gpr == a.gpr && a'.fpr == a.fpr && a'.fp == a.fp && a'.free == a.free && a'.cost == a.cost
    requires a'.reg == a.reg
    requires a'.defined == a.defined
    ensures AllHeld(a') && AllRecorded(a')
  {
    forall x | x in All(a) && x !in a'.free
      ensures Held(a', x)
    {
      assert Held(a, x);
    }
    forall ref | IsK(ref) || ref in a.defined
      ensures Recorded(a', ref)
    {
      assert Recorded(a, ref);
    }
  }

  lemma SpilledMeans(a: Asm, ref: int, m: Machine, e: Meaning)
    requires ref in a.slot && a.slot[ref] == 0 && Expect(Spilled(a, ref), m, e)
    ensures Expect(a, m, e)
  {
    var a' := Spilled(a, ref);
    forall x | Asked(a, x) && x in a.cost
      ensures m.regs(x) == e.val(a.cost[x])
    {
      assert Asked(a', x);
    }
    forall x | Slotted(a, x)
      ensures Holds(m, a.slot[x], x in a.wide, e.val(x))
    {
      assert Slotted(a', x);
    }
  }

  // ---- Taking a register.

  /** r holds ref from here on; `late` if its value is not asked for yet. */
  function Taken(a: Asm, ref: int, r: int, late: bool): Asm {
    a.(free := a.free - {r}, reg := a.reg[ref := Reg(r)], cost := a.cost[r := ref],
       lax := if late then a.lax + {r} else a.lax - {r})
  }

  predicate Takeable(a: Asm, ref: int, r: int) {
    && r in a.free && r !in a.entry && ref in a.reg && !a.reg[ref].Reg? && (IsK(ref) || ref in a.defined)
    && (ref in a.fp <==> r in a.fpr)
  }

  lemma TakenOk(a: Asm, ref: int, r: int, late: bool)
    requires Inv(a) && Takeable(a, ref, r)
    ensures Inv(Taken(a, ref, r, late))
  {
    var a' := Taken(a, ref, r, late);
    assert All(a') == All(a);
    forall x | x in All(a) && x !in a'.free
      ensures Held(a', x)
    {
      assert x != r ==> Held(a, x);
    }
    forall x | IsK(x) || x in a.defined
      ensures Recorded(a', x)
    {
      assert Recorded(a, x);
    }
    SameSlots(a, a');
  }

  lemma TakenMeans(a: Asm, ref: int, r: int, late: bool, m: Machine, e: Meaning)
    requires Inv(a) && Takeable(a, ref, r) && Expect(Taken(a, ref, r, late), m, e)
    ensures Expect(a, m, e)
  {
    var a' := Taken(a, ref, r, late);
    forall x | Asked(a, x) && x in a.cost
      ensures m.regs(x) == e.val(a.cost[x])
    {
      assert Asked(a', x);
    }
    forall x | Slotted(a, x)
      ensures Holds(m, a.slot[x], x in a.wide, e.val(x))
    {
      assert Slotted(a', x);
    }
  }

  // ---- Renaming.

  /** The reference in `down` is in `up` from here on. */
  function Renamed(a: Asm, down: int, up: int): Asm
    requires down in a.cost
  {
    a.(free := a.free + {down} - {up}, reg := a.reg[a.cost[down] := Reg(up)],
       cost := a.cost[up := a.cost[down]][down := 0],
       lax := if down in a.lax then a.lax + {up} else a.lax - {up})
  }

  /** Both registers belong to the same file. */
  predicate SameFile(a: Asm, r: int, x: int) {
    r in a.fpr <==> x in a.fpr
  }

  lemma RenamedOk(a: Asm, down: int, up: int)
    requires Inv(a) && down in All(a) && down !in a.free && up in a.free && up !in a.entry && SameFile(a, down, up)
    ensures Held(a, down) && Inv(Renamed(a, down, up))
  {
    var a' := Renamed(a, down, up);
    assert Held(a, down) && All(a') == All(a);
    forall x | x in All(a) && x !in a'.free
      ensures Held(a', x)
    {
      assert x != up ==> Held(a, x);
    }
    forall x | IsK(x) || x in a.defined
      ensures Recorded(a', x)
    {
      assert Recorded(a, x);
    }
    SameSlots(a, a');
  }

  lemma RenamedMeans(a: Asm, down: int, up: int, m: Machine, e: Meaning)
    requires Inv(a) && down in All(a) && down !in a.free && up in a.free && SameFile(a, down, up) && Unhit(a, down)
    requires Expect(Renamed(a, down, up), m, e)
    ensures Expect(a, Step(Mov(down, up), m, e), e)
  {
    var a', m' := Renamed(a, down, up), Step(Mov(down, up), m, e);
    forall x | Asked(a, x) && x in a.cost
      ensures m'.regs(x) == e.val(a.cost[x])
    {
      assert Asked(a', if x == down then up else x);
    }
    forall x | Slotted(a, x)
      ensures Holds(m', a.slot[x], x in a.wide, e.val(x))
    {
      assert Slotted(a', x);
    }
    assert forall x :: x in a.entry ==> x != down;
  }

  // ---- Definitions.

  /** The code before this point defines ref, which shows up in the register dest. */
  function Awaiting(a: Asm, ref: int, dest: int): Asm {
    a.(free := a.free + {dest}, reg := a.reg[ref := Reg(dest)], defined := a.defined - {ref}, hole := InHole(dest, ref))
  }

  /** dest is free or holds ref itself. */
  predicate Destined(a: Asm, ref: int, dest: int) {
    && ref in a.defined && ref !in a.saved && !IsK(ref) && ref in a.reg && dest in All(a) && dest !in a.entry
    && a.hole == NoHole && a.inherited == map[]
    && if a.reg[ref].Reg? then dest == a.reg[ref].r else dest in a.free
  }

  lemma AwaitingOk(a: Asm, ref: int, dest: int)
    requires Inv(a) && Destined(a, ref, dest)
    ensures Inv(Awaiting(a, ref, dest))
  {
    var a' := Awaiting(a, ref, dest);
    assert Recorded(a, ref);
    forall x | x in All(a) && x !in a'.free
      ensures Held(a', x)
    {
      assert Held(a, x);
    }
    forall x | IsK(x) || x in a'.defined
      ensures Recorded(a', x)
    {
      assert Recorded(a, x);
    }
    SameSlots(a, a');
  }

  /** With no spill slot there is nothing more to do. */
  lemma AwaitingMeans(a: Asm, ref: int, dest: int, m: Machine, e: Meaning)
    requires Inv(a) && Destined(a, ref, dest) && !Slotted(a, ref) && Expect(Awaiting(a, ref, dest), m, e)
    ensures Expect(a, m, e)
  {
    var a' := Awaiting(a, ref, dest);
    assert Recorded(a, ref);
    forall x | Asked(a, x) && x in a.cost
      ensures m.regs(x) == e.val(a.cost[x])
    {
      assert x != dest ==> Asked(a', x);
    }
    forall x | Slotted(a, x)
      ensures Holds(m, a.slot[x], x in a.wide, e.val(x))
    {
      assert Slotted(a', x);
    }
  }

  /** Save to the spill slot, where the other slots keep what they hold. */
  lemma StoreKeeps(a: Asm, ref: int, x: int, m: Machine, r: int, e: Meaning)
    requires SlotsOk(a) && ref in a.slot && a.slot[ref] > 0 && x in a.slot && a.slot[x] > 0
    requires x == ref ==> m.regs(r) == e.val(ref)
    requires x != ref ==> Holds(m, a.slot[x], x in a.wide, e.val(x))
    ensures Holds(Step(SpStore(r, a.slot[ref], ref in a.wide), m, e), a.slot[x], x in a.wide, e.val(x))
  {
    assert SlotsApart(a, ref, x);
  }

  lemma DestMeans(a: Asm, ref: int, dest: int, m: Machine, e: Meaning)
    requires Inv(a) && Destined(a, ref, dest) && Slotted(a, ref) && Expect(Awaiting(a, ref, dest), m, e)
    ensures Expect(a, Step(SpStore(dest, a.slot[ref], ref in a.wide), m, e), e)
  {
    var a', m' := Awaiting(a, ref, dest), Step(SpStore(dest, a.slot[ref], ref in a.wide), m, e);
    assert Recorded(a, ref);
    forall x | Asked(a, x) && x in a.cost
      ensures m'.regs(x) == e.val(a.cost[x])
    {
      assert x != dest ==> Asked(a', x);
    }
    forall x | Slotted(a, x)
      ensures Holds(m', a.slot[x], x in a.wide, e.val(x))
    {
      assert x != ref ==> Slotted(a', x);
      StoreKeeps(a, ref, x, m, dest, e);
    }
  }

  /** An instruction computes its reference in the destination; its operands are asked for now. */
  function Defined(a: Asm, srcs: seq<int>): Asm {
    a.(hole := NoHole, lax := a.lax - (set r | r in srcs))
  }

  lemma OpMeans(a: Asm, ref: int, ops: seq<int>, srcs: seq<int>, m: Machine, e: Meaning)
    requires Inv(a) && a.hole.InHole? && a.hole.ref == ref && |srcs| == |ops| && a.hole.dest !in a.entry
    requires a.hole.dest in a.free || a.hole.dest in a.lax
    requires forall k :: 0 <= k < |srcs| ==>
             srcs[k] in All(a) && srcs[k] !in a.free && srcs[k] in a.cost && a.cost[srcs[k]] == ops[k]
    requires e.val(ref) == e.op(ref, seq(|ops|, (k: nat) requires k < |ops| => e.val(ops[k])))
    requires Expect(Defined(a, srcs), m, e)
    ensures Expect(a, Step(Op(a.hole.dest, ref, srcs), m, e), e)
  {
    var a', m' := Defined(a, srcs), Step(Op(a.hole.dest, ref, srcs), m, e);
    forall k | 0 <= k < |srcs|
      ensures m.regs(srcs[k]) == e.val(ops[k])
    {
      assert Asked(a', srcs[k]);
    }
    assert seq(|srcs|, (k: nat) requires k < |srcs| => m.regs(srcs[k]))
           == seq(|ops|, (k: nat) requires k < |ops| => e.val(ops[k]));
    forall x | Asked(a, x) && x in a.cost
      ensures m'.regs(x) == e.val(a.cost[x])
    {
      assert Asked(a', x);
    }
    forall x | Slotted(a, x)
      ensures Holds(m', a.slot[x], x in a.wide, e.val(x))
    {
      assert Slotted(a', x);
    }
  }

  // ---- Whole steps.

  lemma RematStep(a: Asm, r: int, mc: seq<Ins>, e: Meaning, goal: Machine -> bool)
    requires Inv(a) && Sound(a, mc, e, goal) && r in All(a) && r !in a.free && IsK(a.cost[r]) && Unhit(a, r)
    ensures Inv(Dropped(a, r, Init)) && Sound(Dropped(a, r, Init), [LoadK(r, a.cost[r])] + mc, e, goal)
  {
    DroppedOk(a, r, Init);
    forall m | Expect(Dropped(a, r, Init), m, e)
      ensures Expect(a, Step(LoadK(r, a.cost[r]), m, e), e)
    {
      RematMeans(a, r, m, e);
    }
    Emits(LoadK(r, a.cost[r]), a, Dropped(a, r, Init), mc, e, goal);
  }

  lemma RestoreStep(a: Asm, r: int, mc: seq<Ins>, e: Meaning, goal: Machine -> bool)
    requires Inv(a) && Sound(a, mc, e, goal) && r in All(a) && r !in a.free && Slotted(a, a.cost[r]) && Unhit(a, r)
    ensures var i := SpLoad(r, a.slot[a.cost[r]], a.cost[r] in a.wide);
            Inv(Dropped(a, r, Hint(r))) && Sound(Dropped(a, r, Hint(r)), [i] + mc, e, goal)
  {
    DroppedOk(a, r, Hint(r));
    var i := SpLoad(r, a.slot[a.cost[r]], a.cost[r] in a.wide);
    forall m | Expect(Dropped(a, r, Hint(r)), m, e)
      ensures Expect(a, Step(i, m, e), e)
    {
      RestoreMeans(a, r, m, e);
    }
    Emits(i, a, Dropped(a, r, Hint(r)), mc, e, goal);
  }

  lemma LaxStep(a: Asm, r: int, mc: seq<Ins>, e: Meaning, goal: Machine -> bool)
    requires Inv(a) && Sound(a, mc, e, goal) && r in All(a) && r !in a.free && r in a.lax
    ensures Inv(Dropped(a, r, Hint(r))) && Sound(Dropped(a, r, Hint(r)), mc, e, goal)
  {
    DroppedOk(a, r, Hint(r));
    forall m | Expect(Dropped(a, r, Hint(r)), m, e)
      ensures Expect(a, m, e)
    {
      LaxMeans(a, r, Hint(r), m, e);
    }
  }

  lemma SpillStep(a: Asm, ref: int, mc: seq<Ins>, e: Meaning, goal: Machine -> bool)
    requires Inv(a) && Sound(a, mc, e, goal) && ref in a.slot && a.slot[ref] == 0 && !IsK(ref)
    requires Spilled(a, ref).even <= 256
    ensures Inv(Spilled(a, ref)) && Sound(Spilled(a, ref), mc, e, goal) && SpillSlot(a, ref) > 0
  {
    SpilledOk(a, ref);
    forall m | Expect(Spilled(a, ref), m, e)
      ensures Expect(a, m, e)
    {
      SpilledMeans(a, ref, m, e);
    }
  }

  lemma TakeStep(a: Asm, ref: int, r: int, late: bool, mc: seq<Ins>, e: Meaning, goal: Machine -> bool)
    requires Inv(a) && Sound(a, mc, e, goal) && Takeable(a, ref, r)
    ensures Inv(Taken(a, ref, r, late)) && Sound(Taken(a, ref, r, late), mc, e, goal)
  {
    TakenOk(a, ref, r, late);
    forall m | Expect(Taken(a, ref, r, late), m, e)
      ensures Expect(a, m, e)
    {
      TakenMeans(a, ref, r, late, m, e);
    }
  }

  lemma RenameStep(a: Asm, down: int, up: int, mc: seq<Ins>, e: Meaning, goal: Machine -> bool)
    requires Inv(a) && Sound(a, mc, e, goal)
    requires down in All(a) && down !in a.free && up in a.free && up !in a.entry && SameFile(a, down, up)
    requires Unhit(a, down)
    ensures Held(a, down) && Inv(Renamed(a, down, up)) && Sound(Renamed(a, down, up), [Mov(down, up)] + mc, e, goal)
  {
    RenamedOk(a, down, up);
    forall m | Expect(Renamed(a, down, up), m, e)
      ensures Expect(a, Step(Mov(down, up), m, e), e)
    {
      RenamedMeans(a, down, up, m, e);
    }
    Emits(Mov(down, up), a, Renamed(a, down, up), mc, e, goal);
  }

  /** The code that saves ref in its spill slot, if it has one, right after its definition. */
  function SaveCode(a: Asm, ref: int, dest: int): seq<Ins> {
    if ref in a.slot && a.slot[ref] > 0 then [SpStore(dest, a.slot[ref], ref in a.wide)] else []
  }

  lemma DestStep(a: Asm, ref: int, dest: int, mc: seq<Ins>, e: Meaning, goal: Machine -> bool)
    requires Inv(a) && Sound(a, mc, e, goal) && Destined(a, ref, dest)
    ensures Inv(Awaiting(a, ref, dest)) && Sound(Awaiting(a, ref, dest), SaveCode(a, ref, dest) + mc, e, goal)
  {
    AwaitingOk(a, ref, dest);
    if Slotted(a, ref) {
      var i := SpStore(dest, a.slot[ref], ref in a.wide);
      forall m | Expect(Awaiting(a, ref, dest), m, e)
        ensures Expect(a, Step(i, m, e), e)
      {
        DestMeans(a, ref, dest, m, e);
      }
      Emits(i, a, Awaiting(a, ref, dest), mc, e, goal);
    } else {
      forall m | Expect(Awaiting(a, ref, dest), m, e)
        ensures Expect(a, m, e)
      {
        AwaitingMeans(a, ref, dest, m, e);
      }
      assert SaveCode(a, ref, dest) + mc == mc;
    }
  }

  lemma OpStep(a: Asm, ref: int, ops: seq<int>, srcs: seq<int>, mc: seq<Ins>, e: Meaning, goal: Machine -> bool)
    requires Inv(a) && Sound(a, mc, e, goal)
    requires a.hole.InHole? && a.hole.ref == ref && |srcs| == |ops| && a.hole.dest !in a.entry
    requires a.hole.dest in a.free || a.hole.dest in a.lax
    requires forall k :: 0 <= k < |srcs| ==>
             srcs[k] in All(a) && srcs[k] !in a.free && srcs[k] in a.cost && a.cost[srcs[k]] == ops[k]
    requires e.val(ref) == e.op(ref, seq(|ops|, (k: nat) requires k < |ops| => e.val(ops[k])))
    ensures Inv(Defined(a, srcs)) && Sound(Defined(a, srcs), [Op(a.hole.dest, ref, srcs)] + mc, e, goal)
  {
    var a', i := Defined(a, srcs), Op(a.hole.dest, ref, srcs);
    SameRegs(a, a');
    SameSlots(a, a');
    forall m | Expect(a', m, e)
      ensures Expect(a, Step(i, m, e), e)
    {
      OpMeans(a, ref, ops, srcs, m, e);
    }
    Emits(i, a, a', mc, e, goal);
  }

  /** A reference without register and spill slot needs no definition. */
  lemma UnusedStep(a: Asm, ref: int, mc: seq<Ins>, e: Meaning, goal: Machine -> bool)
    requires Inv(a) && Sound(a, mc, e, goal) && ref in a.reg && !a.reg[ref].Reg? && a.slot[ref] == 0 && !IsK(ref)
    requires ref !in a.saved
    ensures Inv(a.(defined := a.defined - {ref})) && Sound(a.(defined := a.defined - {ref}), mc, e, goal)
  {
    var a' := a.(defined := a.defined - {ref});
    forall x | x in All(a) && x !in a'.free
      ensures Held(a', x)
    {
      assert Held(a, x);
    }
    forall x | IsK(x) || x in a'.defined
      ensures Recorded(a', x)
    {
      assert Recorded(a, x);
    }
    SameSlots(a, a');
    forall m | Expect(a', m, e)
      ensures Expect(a, m, e)
    {
      forall x | Asked(a, x) && x in a.cost
        ensures m.regs(x) == e.val(a.cost[x])
      {
        assert Asked(a', x);
      }
      forall x | Slotted(a, x)
        ensures Holds(m, a.slot[x], x in a.wide, e.val(x))
      {
        assert Slotted(a', x);
      }
    }
  }

  /** Asking for more is fine. */
  lemma StricterStep(a: Asm, r: int, mc: seq<Ins>, e: Meaning, goal: Machine -> bool)
    requires Inv(a) && Sound(a, mc, e, goal)
    ensures Inv(a.(lax := a.lax - {r})) && Sound(a.(lax := a.lax - {r}), mc, e, goal)
  {
    var a' := a.(lax := a.lax - {r});
    SameRegs(a, a');
    SameSlots(a, a');
    forall m | Expect(a', m, e)
      ensures Expect(a, m, e)
    {
      forall x | Asked(a, x) && x in a.cost
        ensures m.regs(x) == e.val(a.cost[x])
      {
        assert Asked(a', x);
      }
      forall x | Slotted(a, x)
        ensures Holds(m, a.slot[x], x in a.wide, e.val(x))
      {
        assert Slotted(a', x);
      }
    }
  }

  lemma ResaveStep(a: Asm, i: int, r: int, mc: seq<Ins>, e: Meaning, goal: Machine -> bool)
    requires Inv(a) && Sound(a, mc, e, goal) && Asked(a, r) && r in a.cost && a.cost[r] == i && Slotted(a, i)
    requires a.inherited == map[]
    ensures Sound(a, [SpStore(r, a.slot[i], i in a.wide)] + mc, e, goal)
  {
    var s := SpStore(r, a.slot[i], i in a.wide);
    forall m | Expect(a, m, e)
      ensures Expect(a, Step(s, m, e), e)
    {
      forall x | Slotted(a, x)
        ensures Holds(Step(s, m, e), a.slot[x], x in a.wide, e.val(x))
      {
        StoreKeeps(a, i, x, m, r, e);
      }
    }
    Emits(s, a, a, mc, e, goal);
  }
}
