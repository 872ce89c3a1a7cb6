/** The head of a side trace (`asm_head_side` in `lj_asm.c`): what the parent trace left in its
    registers and spill slots is moved to where the side trace wants it. */
module SideTrace {
  import opened RegAlloc
  import opened Sets

  /** Where the parent left a value. */
  datatype RegSP = InReg(rs: int) | InSlot(q: int)

  /** What a side trace inherits: the places by reference, the references up to `stop`, the offset
      of the parent's frame from the frame of the side trace, and registers that are kept. */
  datatype Parent = Parent(map_: map<int, RegSP>, stop: nat, delta: int, kept: map<int, int>)

  /** The parent kept different references in different registers of the right file. */
  ghost predicate InheritOk(p: Parent, gpr: set<int>, fpr: set<int>, fp: set<int>) {
    && (forall i :: i in p.map_ <==> 1 <= i <= p.stop)
    && p.kept.Keys <= gpr + fpr
    && (forall i :: i in p.map_ && p.map_[i].InReg? ==>
          p.map_[i].rs in gpr + fpr && p.map_[i].rs !in p.kept && (i in fp <==> p.map_[i].rs in fpr))
    && (forall i, j :: i in p.map_ && j in p.map_ && p.map_[i].InReg? && p.map_[i] == p.map_[j] ==> i == j)
  }

  ghost predicate ParentOk(p: Parent, a: Asm) {
    InheritOk(p, a.gpr, a.fpr, a.fp)
  }

  /** The machine when the parent trace jumps to the side trace. */
  ghost predicate LeftByParent(p: Parent, wide: set<int>, m: Machine, e: Meaning) {
    && (forall r :: r in p.kept ==> m.regs(r) == e.val(p.kept[r]))
    && forall i {:trigger LeftAt(p, wide, m, e, i)} :: i in p.map_ ==> LeftAt(p, wide, m, e, i)
  }

  predicate LeftAt(p: Parent, wide: set<int>, m: Machine, e: Meaning, i: int)
    requires i in p.map_
  {
    match p.map_[i]
    case InReg(rs) => m.regs(rs) == e.val(i)
    case InSlot(q) => Holds(m, q + p.delta, i in wide, e.val(i))
  }

  /** `allow`, `live`, `sloadins` and the marks of the code; references up to `lo` are not processed
      yet, and `shuffling` means that only register moves are left. */
  datatype Head = Head(allow: set<int>, live: set<int>, sloadins: map<int, int>, marked: set<int>, lo: nat,
                       shuffling: bool)

  // ---- Registers enough.

  /** The references of one kind from lo on that are not marked. */
  ghost function Done(p: Parent, fp: set<int>, float: bool, marked: set<int>, lo: nat): set<int> {
    set j | lo < j <= p.stop && j !in marked && (j in fp) == float
  }

  ghost function Sources(p: Parent): set<int> {
    set i | i in p.map_ && p.map_[i].InReg? :: p.map_[i].rs
  }

  /** In the register file there are more registers than references of its kind to inherit, and registers that
      the parent left values in, together. */
  ghost predicate Enough(p: Parent, fp: set<int>, file: set<int>, float: bool) {
    |file - p.kept.Keys| > |Done(p, fp, float, {}, 0)| + |Sources(p) * file|
  }

  /** Every reference that has been processed took no more than one of the registers allowed. */
  ghost predicate RoomIn(p: Parent, fp: set<int>, file: set<int>, float: bool, allow: set<int>, marked: set<int>,
                         lo: nat) {
    |allow * file| + |Done(p, fp, float, marked, lo)| >= |file - p.kept.Keys|
  }

  lemma RoomStart(p: Parent, fp: set<int>, file: set<int>, float: bool, all: set<int>)
    requires file <= all
    ensures RoomIn(p, fp, file, float, all - p.kept.Keys, {}, p.stop)
  {
    assert (all - p.kept.Keys) * file == file - p.kept.Keys;
  }

  /** The reference i has been processed, and has taken the registers `taken`, at most one of its file. */
  lemma RoomStep(p: Parent, fp: set<int>, file: set<int>, float: bool, allow: set<int>, allow': set<int>,
                 marked: set<int>, marked': set<int>, lo: nat, lo': nat, i: int)
    requires RoomIn(p, fp, file, float, allow, marked, lo) && allow' <= allow && |allow - allow'| <= 1
    requires Done(p, fp, float, marked', lo') ==
             Done(p, fp, float, marked, lo) + (if (i in fp) == float && i !in marked' then {i} else {})
    requires i !in Done(p, fp, float, marked, lo)
    requires allow - allow' !! file || ((i in fp) == float && i !in marked')
    ensures RoomIn(p, fp, file, float, allow', marked', lo')
  {
    OneFewer(allow, allow', file);
    var done := Done(p, fp, float, marked, lo);
    assert |done + {i}| == |done| + 1;
    assert done + {} == done;
    hide Done;
  }

  lemma DoneScan(p: Parent, fp: set<int>, float: bool, marked: set<int>, marked': set<int>, i: nat)
    requires 1 <= i <= p.stop && (marked' == marked || marked' == marked + {i})
    ensures i !in Done(p, fp, float, marked, i)
    ensures Done(p, fp, float, marked', i - 1) ==
            Done(p, fp, float, marked, i) + (if (i in fp) == float && i !in marked' then {i} else {})
  {
  }

  lemma DoneReload(p: Parent, fp: set<int>, float: bool, marked: set<int>, i: nat)
    requires 1 <= i <= p.stop && i in marked
    ensures i !in Done(p, fp, float, marked, 0)
    ensures Done(p, fp, float, marked - {i}, 0) ==
            Done(p, fp, float, marked, 0) + (if (i in fp) == float then {i} else {})
  {
  }

  lemma OneFewer(allow: set<int>, allow': set<int>, file: set<int>)
    requires allow' <= allow && |allow - allow'| <= 1
    ensures |allow' * file| >= |allow * file| - 1
    ensures allow - allow' !! file ==> |allow' * file| == |allow * file|
  {
    Subsets(allow * file, allow' * file);
    assert allow * file - allow' * file == (allow - allow') * file;
    Subsets(allow - allow', (allow - allow') * file);
    if allow - allow' !! file {
      assert (allow - allow') * file == {};
    }
  }

  /** If there is no register left for a marked reference, there are not enough. */
  lemma NoneLeft(p: Parent, fp: set<int>, file: set<int>, float: bool, allow: set<int>, marked: set<int>, i: int)
    requires RoomIn(p, fp, file, float, allow, marked, 0) && file * allow == {}
    requires i in marked && 1 <= i <= p.stop && (i in fp) == float
    ensures !Enough(p, fp, file, float)
  {
    assert allow * file == {};
    var some, every := Done(p, fp, float, marked, 0), Done(p, fp, float, {}, 0);
    Subsets(every, some);
    assert i in every && i !in some;
  }

  /** If all registers allowed are live, there are not enough. */
  lemma AllLiveLeft(p: Parent, fp: set<int>, file: set<int>, float: bool, allow: set<int>, live: set<int>)
    requires RoomIn(p, fp, file, float, allow, {}, 0) && allow * file <= live && live <= Sources(p)
    ensures !Enough(p, fp, file, float)
  {
    assert allow * file <= Sources(p) * file;
    Subsets(Sources(p) * file, allow * file);
  }

  lemma LiveSources(a: Asm, h: Head, p: Parent)
    requires HeadInv(a, h, p)
    ensures h.live <= Sources(p)
  {
    forall rp | rp in h.live
      ensures rp in Sources(p)
    {
      assert LiveOk(a, h, p, rp);
    }
  }

  predicate Used(a: Asm, i: int)
    requires i in a.reg && i in a.slot
  {
    a.reg[i].Reg? || a.slot[i] > 0
  }

  /** The parent's spill slot is the spill slot of the side trace, too. */
  predicate SameSlot(a: Asm, p: Parent, i: int)
    requires i in a.slot && i in p.map_
  {
    p.map_[i].InSlot? && p.map_[i].q + p.delta == a.slot[i]
  }

  /** What has been settled about a reference that is still to be inherited. */
  ghost predicate Settled(a: Asm, h: Head, p: Parent, i: int) {
    && i in a.reg && i in a.slot && i in p.map_
    && (a.reg[i].Reg? ==> (a.reg[i].r !in h.allow || h.shuffling) && (a.slot[i] > 0 ==> i in a.saved))
    && (!a.reg[i].Reg? && a.slot[i] > 0 ==> i in h.marked || SameSlot(a, p, i))
    && (p.map_[i].InReg? && Used(a, i) ==>
        p.map_[i].rs in h.live && p.map_[i].rs in h.sloadins && h.sloadins[p.map_[i].rs] == i)
  }

  /** A live register of the parent holds a reference that is wanted elsewhere. */
  ghost predicate LiveOk(a: Asm, h: Head, p: Parent, rp: int) {
    && rp in h.sloadins
    && var i := h.sloadins[rp];
       && i in a.defined && i > h.lo && i in p.map_ && p.map_[i] == InReg(rp) && i in a.reg && i in a.slot && Used(a, i)
       && a.reg[i] != Reg(rp)
  }

  predicate MarkOk(a: Asm, h: Head, i: int) {
    i in a.defined && i > h.lo && i in a.reg && i in a.slot && !a.reg[i].Reg? && a.slot[i] > 0 && i !in a.saved
  }

  /** The code is entered with what the parent left. */
  ghost predicate EntryOk(a: Asm, p: Parent) {
    && (forall r :: r in a.entry ==>
          (r in p.kept && a.entry[r] == p.kept[r])
          || (a.entry[r] in p.map_ && p.map_[a.entry[r]] == InReg(r) && a.entry[r] !in a.defined))
    && (forall i :: i in a.inherited ==>
        i in p.map_ && i !in a.defined && p.map_[i].InSlot? && a.inherited[i] == p.map_[i].q + p.delta)
  }

  ghost predicate AllSettled(a: Asm, h: Head, p: Parent) {
    forall i {:trigger Settled(a, h, p, i)} :: i in a.defined && i > h.lo ==> Settled(a, h, p, i)
  }

  ghost predicate AllLive(a: Asm, h: Head, p: Parent) {
    forall rp {:trigger LiveOk(a, h, p, rp)} :: rp in h.live ==> LiveOk(a, h, p, rp)
  }

  ghost predicate AllMarked(a: Asm, h: Head) {
    forall i {:trigger MarkOk(a, h, i)} :: i in h.marked ==> MarkOk(a, h, i)
  }

  ghost predicate RegistersOnly(a: Asm, p: Parent) {
    forall r {:trigger r in a.free} :: r in All(a) && r !in a.free ==>
      r in a.cost && a.cost[r] in p.map_ && p.map_[a.cost[r]].InReg?
  }

  ghost predicate HeadBase(a: Asm, h: Head, p: Parent) {
    && Inv(a) && ParentOk(p, a) && h.allow <= All(a) && h.allow !! a.entry.Keys
    && (forall i :: i in a.defined ==> 1 <= i <= p.stop) && a.defined <= a.reg.Keys
    && (forall i :: 1 <= i <= h.lo && i <= p.stop ==> i in a.defined && i !in a.saved)
    && (forall r {:trigger r in a.free} :: r in All(a) && r !in a.free ==>
        r in a.cost && !IsK(a.cost[r]) && r !in a.lax)
    && a.hole == NoHole && (h.shuffling ==> h.lo == 0 && h.marked == {} && RegistersOnly(a, p))
    && EntryOk(a, p)
  }

  ghost predicate HeadInv(a: Asm, h: Head, p: Parent) {
    HeadBase(a, h, p) && AllSettled(a, h, p) && AllLive(a, h, p) && AllMarked(a, h)
  }

  // ---- Steps of the allocator in the head.

  /** Save a register to its spill slot. */
  function SavedEarly(a: Asm, i: int): Asm {
    a.(saved := a.saved + {i})
  }

  lemma SaveMeans(a: Asm, i: int, r: int, m: Machine, e: Meaning)
    requires Inv(a) && i in a.reg && a.reg[i] == Reg(r) && Asked(a, r) && r in a.cost && a.cost[r] == i
    requires Slotted(a, i) && a.inherited == map[] && Expect(SavedEarly(a, i), m, e)
    ensures Expect(a, Step(SpStore(r, a.slot[i], i in a.wide), m, e), e)
  {
    var a', m' := SavedEarly(a, i), Step(SpStore(r, a.slot[i], i in a.wide), m, e);
    assert Asked(a', r);
    forall x | Asked(a, x) && x in a.cost
      ensures m'.regs(x) == e.val(a.cost[x])
    {
      assert Asked(a', x);
    }
    forall x | Slotted(a, x)
      ensures Holds(m', a.slot[x], x in a.wide, e.val(x))
    {
      assert x != i ==> Slotted(a', x);
      StoreKeeps(a, i, x, m, r, e);
    }
  }

  lemma SaveStep(a: Asm, i: int, r: int, mc: seq<Ins>, e: Meaning, goal: Machine -> bool)
    requires Inv(a) && Sound(a, mc, e, goal) && i in a.reg && a.reg[i] == Reg(r) && Asked(a, r) && r in a.cost
    requires a.cost[r] == i
    requires Slotted(a, i) && a.inherited == map[]
    ensures Inv(SavedEarly(a, i)) && Sound(SavedEarly(a, i), [SpStore(r, a.slot[i], i in a.wide)] + mc, e, goal)
  {
    var s := SpStore(r, a.slot[i], i in a.wide);
    SameRegs(a, SavedEarly(a, i));
    SameSlots(a, SavedEarly(a, i));
    forall m | Expect(SavedEarly(a, i), m, e)
      ensures Expect(a, Step(s, m, e), e)
    {
      SaveMeans(a, i, r, m, e);
    }
    Emits(s, a, SavedEarly(a, i), mc, e, goal);
  }

  /** The reference i in r is inherited: from the register rp, or from the slot at ofs. */
  function FromReg(a: Asm, i: int, r: int, rp: int): Asm {
    a.(free := a.free + {r}, entry := a.entry[rp := i], defined := a.defined - {i}, saved := a.saved - {i})
  }

  function FromSlot(a: Asm, i: int, r: int, ofs: int): Asm {
    a.(free := a.free + {r}, inherited := a.inherited[i := ofs], defined := a.defined - {i}, saved := a.saved - {i})
  }

  ghost predicate Placeable(a: Asm, i: int, r: int) {
    && Inv(a) && r in All(a) && r !in a.free && r in a.cost && a.cost[r] == i && i in a.defined && !IsK(i)
       && !Slotted(a, i)
    && a.hole == NoHole
  }

  lemma PlacedOk(a: Asm, i: int, r: int, a': Asm)
    requires Placeable(a, i, r)
    requires (exists rp :: a' == FromReg(a, i, r, rp) && rp in a'.free) || exists ofs :: a' == FromSlot(a, i, r, ofs)
    ensures Inv(a')
  {
    assert All(a') == All(a) && a'.free == a.free + {r};
    assert Held(a, r);
    forall x | x in All(a) && x !in a'.free
      ensures Held(a', x)
    {
      assert Held(a, x);
    }
    forall x | IsK(x) || x in a'.defined
      ensures Recorded(a', x)
    {
      assert Recorded(a, x);
    }
    SameSlots(a, a');
  }

  /** The code that moves a parent register to its target. */
  function MoveCode(r: int, rp: int): seq<Ins> {
    if r == rp then [] else [Mov(r, rp)]
  }

  lemma FromRegStep(a: Asm, i: int, r: int, rp: int, mc: seq<Ins>, e: Meaning, goal: Machine -> bool)
    requires Placeable(a, i, r) && Sound(a, mc, e, goal) && (rp == r || rp in a.free) && rp !in a.entry
    ensures Inv(FromReg(a, i, r, rp)) && Sound(FromReg(a, i, r, rp), MoveCode(r, rp) + mc, e, goal)
  {
    var a' := FromReg(a, i, r, rp);
    PlacedOk(a, i, r, a');
    if r == rp {
      forall m | Expect(a', m, e)
        ensures Expect(a, m, e)
      {
        FromRegMeans(a, i, r, rp, m, m, e);
      }
      assert MoveCode(r, rp) + mc == mc;
    } else {
      forall m | Expect(a', m, e)
        ensures Expect(a, Step(Mov(r, rp), m, e), e)
      {
        FromRegMeans(a, i, r, rp, m, Step(Mov(r, rp), m, e), e);
      }
      Emits(Mov(r, rp), a, a', mc, e, goal);
    }
  }

  lemma FromRegMeans(a: Asm, i: int, r: int, rp: int, m: Machine, m': Machine, e: Meaning)
    requires Placeable(a, i, r) && (rp == r || rp in a.free) && rp !in a.entry && Expect(FromReg(a, i, r, rp), m, e)
    requires m' == if r == rp then m else Step(Mov(r, rp), m, e)
    ensures Expect(a, m', e)
  {
    var a' := FromReg(a, i, r, rp);
    assert Held(a, r);
    assert m.regs(rp) == e.val(i) by {
      assert rp in a'.entry;
    }
    assert forall x :: x != r ==> m'.regs(x) == m.regs(x);
    forall x | Asked(a, x) && x in a.cost
      ensures m'.regs(x) == e.val(a.cost[x])
    {
      assert x != r ==> Asked(a', x);
    }
    forall x | Slotted(a, x)
      ensures Holds(m', a.slot[x], x in a.wide, e.val(x))
    {
      assert Slotted(a', x);
    }
    forall x | x in a.entry
      ensures m'.regs(x) == e.val(a.entry[x])
    {
      assert x in a'.entry && x != rp && x != r;
    }
  }

  lemma FromSlotStep(a: Asm, i: int, r: int, ofs: int, mc: seq<Ins>, e: Meaning, goal: Machine -> bool)
    requires Placeable(a, i, r) && Sound(a, mc, e, goal) && i !in a.inherited
    ensures Inv(FromSlot(a, i, r, ofs)) && Sound(FromSlot(a, i, r, ofs), [SpLoad(r, ofs, i in a.wide)] + mc, e, goal)
  {
    var a', s := FromSlot(a, i, r, ofs), SpLoad(r, ofs, i in a.wide);
    PlacedOk(a, i, r, a');
    forall m | Expect(a', m, e)
      ensures Expect(a, Step(s, m, e), e)
    {
      FromSlotMeans(a, i, r, ofs, m, e);
    }
    Emits(s, a, a', mc, e, goal);
  }

  lemma FromSlotMeans(a: Asm, i: int, r: int, ofs: int, m: Machine, e: Meaning)
    requires Placeable(a, i, r) && i !in a.inherited && Expect(FromSlot(a, i, r, ofs), m, e)
    ensures Expect(a, Step(SpLoad(r, ofs, i in a.wide), m, e), e)
  {
    var a', m' := FromSlot(a, i, r, ofs), Step(SpLoad(r, ofs, i in a.wide), m, e);
    assert Held(a, r);
    assert Holds(m, ofs, i in a.wide, e.val(i)) by {
      assert i in a'.inherited;
    }
    forall x | Asked(a, x) && x in a.cost
      ensures m'.regs(x) == e.val(a.cost[x])
    {
      assert x != r ==> Asked(a', x);
    }
    forall x | Slotted(a, x)
      ensures Holds(m', a.slot[x], x in a.wide, e.val(x))
    {
      assert Slotted(a', x);
    }
    forall x | x in a.inherited
      ensures Holds(m', a.inherited[x], x in a.wide, e.val(x))
    {
      assert x in a'.inherited;
    }
  }

  // ---- The first pass: scan the parent SLOADs.

  function ScannedAsm(a: Asm, p: Parent, i: int): Asm
    requires i in a.reg && i in a.slot && i in p.map_
  {
    if a.reg[i].Reg? then
      var a1 := if a.slot[i] > 0 then SavedEarly(a, i) else a;
      if p.map_[i] == InReg(a.reg[i].r) then FromReg(a1, i, a.reg[i].r, a.reg[i].r) else a1
    else a
  }

  function ScannedHead(a: Asm, h: Head, p: Parent, i: int): Head
    requires i in a.reg && i in a.slot && i in p.map_ && h.lo > 0
  {
    var fresh_ := p.map_[i].InReg? && a.reg[i] != Reg(p.map_[i].rs) && Used(a, i);
    Head(if a.reg[i].Reg? then h.allow - {a.reg[i].r} else h.allow,
         if fresh_ then h.live + {p.map_[i].rs} else h.live,
         if fresh_ then h.sloadins[p.map_[i].rs := i] else h.sloadins,
         if !a.reg[i].Reg? && a.slot[i] > 0 then h.marked + {i} else h.marked,
         h.lo - 1, false)
  }

  /** Nobody else comes from the same register. */
  lemma SourceIsNew(a: Asm, h: Head, p: Parent, i: int)
    requires HeadInv(a, h, p) && i in a.defined && i in p.map_ && p.map_[i].InReg?
    ensures p.map_[i].rs !in a.entry
    ensures p.map_[i].rs in h.live ==> p.map_[i].rs in h.sloadins && h.sloadins[p.map_[i].rs] == i && i > h.lo
  {
    var rs := p.map_[i].rs;
    if rs in h.live {
      assert LiveOk(a, h, p, rs);
    }
    forall j | j in p.map_ && p.map_[j] == p.map_[i]
      ensures j == i
    {
    }
  }

  ghost predicate Scannable(a: Asm, h: Head, p: Parent, i: int) {
    && HeadInv(a, h, p) && i == h.lo > 0 && i <= p.stop && !h.shuffling && a.inherited == map[]
    && i in a.reg && i in a.slot && i in p.map_
  }

  lemma ScannedSettled(a: Asm, h: Head, p: Parent, i: int)
    requires Scannable(a, h, p, i)
    ensures AllSettled(ScannedAsm(a, p, i), ScannedHead(a, h, p, i), p)
  {
    var a', h' := ScannedAsm(a, p, i), ScannedHead(a, h, p, i);
    if p.map_[i].InReg? {
      SourceIsNew(a, h, p, i);
    }
    hide Inv, AllLive, AllMarked, EntryOk;
    forall j | j in a'.defined && j > h'.lo
      ensures Settled(a', h', p, j)
    {
      assert j != i ==> Settled(a, h, p, j);
    }
  }

  lemma ScannedLive(a: Asm, h: Head, p: Parent, i: int)
    requires Scannable(a, h, p, i)
    ensures AllLive(ScannedAsm(a, p, i), ScannedHead(a, h, p, i), p)
    ensures AllMarked(ScannedAsm(a, p, i), ScannedHead(a, h, p, i))
  {
    var a', h' := ScannedAsm(a, p, i), ScannedHead(a, h, p, i);
    if p.map_[i].InReg? {
      SourceIsNew(a, h, p, i);
    }
    hide Inv, AllSettled, EntryOk;
    forall rp | rp in h'.live
      ensures LiveOk(a', h', p, rp)
    {
      assert rp in h.live ==> LiveOk(a, h, p, rp);
    }
    forall j | j in h'.marked
      ensures MarkOk(a', h', j)
    {
      assert j in h.marked ==> MarkOk(a, h, j);
    }
  }

  lemma ScannedBase(a: Asm, h: Head, p: Parent, i: int)
    requires Scannable(a, h, p, i)
    ensures HeadBase(ScannedAsm(a, p, i), ScannedHead(a, h, p, i), p) && ScannedAsm(a, p, i).inherited == map[]
  {
    hide AllLive, AllMarked, AllSettled, InheritOk;
    ScannedInv(a, h, p, i);
    if p.map_[i].InReg? {
      SourceIsNew(a, h, p, i);
    }
    assert Recorded(a, i);
    hide Inv;
  }

  lemma ScannedOk(a: Asm, h: Head, p: Parent, i: int)
    requires Scannable(a, h, p, i)
    ensures HeadInv(ScannedAsm(a, p, i), ScannedHead(a, h, p, i), p) && ScannedAsm(a, p, i).inherited == map[]
  {
    hide Scannable, HeadBase, AllLive, AllMarked, AllSettled, ScannedAsm, ScannedHead;
    ScannedBase(a, h, p, i);
    ScannedSettled(a, h, p, i);
    ScannedLive(a, h, p, i);
  }

  lemma ScannedInv(a: Asm, h: Head, p: Parent, i: int)
    requires Scannable(a, h, p, i)
    ensures Inv(ScannedAsm(a, p, i)) && All(ScannedAsm(a, p, i)) == All(a)
  {
    assert i in a.defined && Recorded(a, i);
    if a.reg[i].Reg? {
      var a1 := if a.slot[i] > 0 then SavedEarly(a, i) else a;
      SameRegs(a, a1);
      SameSlots(a, a1);
      if p.map_[i] == InReg(a.reg[i].r) {
        PlacedOk(a1, i, a.reg[i].r, FromReg(a1, i, a.reg[i].r, a.reg[i].r));
      }
    }
  }

  // ---- The second pass: reload spilled targets.

  /** The hint is set again. */
  lemma HintedOk(a: Asm, h: Head, p: Parent, i: int, x: int, mc: seq<Ins>, e: Meaning, goal: Machine -> bool)
    requires HeadInv(a, h, p) && i in h.marked && Sound(a, mc, e, goal) && i in a.reg
    ensures HeadInv(a.(reg := a.reg[i := Hint(x)]), h, p) && Sound(a.(reg := a.reg[i := Hint(x)]), mc, e, goal)
  {
    var a' := a.(reg := a.reg[i := Hint(x)]);
    assert MarkOk(a, h, i);
    HintedInv(a, i, x);
    forall j | j in a'.defined && j > h.lo
      ensures Settled(a', h, p, j)
    {
      assert Settled(a, h, p, j);
    }
    forall rp | rp in h.live
      ensures LiveOk(a', h, p, rp)
    {
      assert LiveOk(a, h, p, rp);
    }
    forall j | j in h.marked
      ensures MarkOk(a', h, j)
    {
      assert MarkOk(a, h, j);
    }
    forall m | Expect(a', m, e)
      ensures Expect(a, m, e)
    {
      SameExpect(a, a', m, e);
    }
  }

  lemma SameExpect(a: Asm, a': Asm, m: Machine, e: Meaning)
    requires exists reg :: a' == a.(reg := reg)
    requires Expect(a', m, e)
    ensures Expect(a, m, e)
  {
    forall x | Asked(a, x) && x in a.cost
      ensures m.regs(x) == e.val(a.cost[x])
    {
      assert Asked(a', x);
    }
    forall x | Slotted(a, x)
      ensures Holds(m, a.slot[x], x in a.wide, e.val(x))
    {
      assert Slotted(a', x);
    }
  }

  lemma HintedInv(a: Asm, i: int, x: int)
    requires Inv(a) && i in a.reg && !a.reg[i].Reg?
    ensures Inv(a.(reg := a.reg[i := Hint(x)]))
  {
    var a' := a.(reg := a.reg[i := Hint(x)]);
    forall r | r in All(a) && r !in a'.free
      ensures Held(a', r)
    {
      assert Held(a, r);
    }
    forall ref | IsK(ref) || ref in a'.defined
      ensures Recorded(a', ref)
    {
      assert Recorded(a, ref);
    }
    SameSlots(a, a');
  }

  /** The marked reference i is in r now and has been saved. */
  function ReloadedAsm(a: Asm, p: Parent, i: int, r: int): Asm
    requires i in p.map_
  {
    var a1 := SavedEarly(Taken(a, i, r, false), i);
    if p.map_[i] == InReg(r) then FromReg(a1, i, r, r) else a1
  }

  function ReloadedHead(h: Head, p: Parent, i: int, r: int): Head
    requires i in p.map_
  {
    h.(allow := h.allow - {r}, marked := h.marked - {i}, live := if p.map_[i] == InReg(r) then h.live - {r} else h.live)
  }

  ghost predicate Reloadable(a: Asm, h: Head, p: Parent, i: int, r: int) {
    HeadInv(a, h, p) && i in h.marked && h.lo == 0 && i in p.map_ && Takeable(a, i, r) && r in h.allow && !h.shuffling
  }

  lemma ReloadedBase(a: Asm, h: Head, p: Parent, i: int, r: int)
    requires Reloadable(a, h, p, i, r)
    ensures HeadBase(ReloadedAsm(a, p, i, r), ReloadedHead(h, p, i, r), p)
  {
    hide InheritOk, Settled, LiveOk;
    ReloadedInv(a, h, p, i, r);
    assert MarkOk(a, h, i);
    if p.map_[i].InReg? {
      SourceIsNew(a, h, p, i);
    }
    hide AllLive, AllMarked, AllSettled, Inv, MarkOk, Takeable;
  }

  lemma ReloadedOk(a: Asm, h: Head, p: Parent, i: int, r: int)
    requires Reloadable(a, h, p, i, r)
    ensures HeadInv(ReloadedAsm(a, p, i, r), ReloadedHead(h, p, i, r), p)
  {
    var a', h' := ReloadedAsm(a, p, i, r), ReloadedHead(h, p, i, r);
    ReloadedBase(a, h, p, i, r);
    hide HeadBase;
    assert AllSettled(a', h', p) by {
      ReloadedSettled(a, h, p, i, r);
    }
    assert AllLive(a', h', p) && AllMarked(a', h') by {
      ReloadedLive(a, h, p, i, r);
    }
  }

  lemma ReloadedSettled(a: Asm, h: Head, p: Parent, i: int, r: int)
    requires Reloadable(a, h, p, i, r)
    ensures AllSettled(ReloadedAsm(a, p, i, r), ReloadedHead(h, p, i, r), p)
  {
    var a', h' := ReloadedAsm(a, p, i, r), ReloadedHead(h, p, i, r);
    assert MarkOk(a, h, i) && Settled(a, h, p, i);
    forall j | j in a'.defined && j > h'.lo
      ensures Settled(a', h', p, j)
    {
      assert Settled(a, h, p, j);
      StillRecorded(a, h, p, j);
    }
  }

  lemma ReloadedLive(a: Asm, h: Head, p: Parent, i: int, r: int)
    requires Reloadable(a, h, p, i, r)
    ensures AllLive(ReloadedAsm(a, p, i, r), ReloadedHead(h, p, i, r), p)
    ensures AllMarked(ReloadedAsm(a, p, i, r), ReloadedHead(h, p, i, r))
  {
    var a', h' := ReloadedAsm(a, p, i, r), ReloadedHead(h, p, i, r);
    assert MarkOk(a, h, i) && Settled(a, h, p, i);
    forall rp | rp in h'.live
      ensures LiveOk(a', h', p, rp)
    {
      assert LiveOk(a, h, p, rp);
    }
    forall j | j in h'.marked
      ensures MarkOk(a', h', j)
    {
      assert MarkOk(a, h, j);
    }
  }

  lemma StillRecorded(a: Asm, h: Head, p: Parent, j: int)
    requires HeadInv(a, h, p) && j in a.defined
    ensures Recorded(a, j)
  {
  }

  lemma ReloadedInv(a: Asm, h: Head, p: Parent, i: int, r: int)
    requires Reloadable(a, h, p, i, r)
    ensures Inv(ReloadedAsm(a, p, i, r)) && All(ReloadedAsm(a, p, i, r)) == All(a)
    ensures var a1 := Taken(a, i, r, false); Inv(a1) && Slotted(a1, i) && Asked(a1, r)
    ensures p.map_[i] == InReg(r) ==> Placeable(SavedEarly(Taken(a, i, r, false), i), i, r)
  {
    assert MarkOk(a, h, i);
    var a1 := Taken(a, i, r, false);
    TakenOk(a, i, r, false);
    SameRegs(a1, SavedEarly(a1, i));
    SameSlots(a1, SavedEarly(a1, i));
    if p.map_[i] == InReg(r) {
      PlacedOk(SavedEarly(a1, i), i, r, ReloadedAsm(a, p, i, r));
    }
  }

  /** Same spill slot, do nothing. */
  lemma SameSlotOk(a: Asm, h: Head, p: Parent, i: int)
    requires HeadInv(a, h, p) && i in h.marked && i in p.map_ && i in a.slot && SameSlot(a, p, i)
    ensures HeadInv(a, h.(marked := h.marked - {i}), p)
  {
    var h' := h.(marked := h.marked - {i});
    forall j | j in a.defined && j > h.lo
      ensures Settled(a, h', p, j)
    {
      assert Settled(a, h, p, j);
    }
    forall rp | rp in h.live
      ensures LiveOk(a, h', p, rp)
    {
      assert LiveOk(a, h, p, rp);
    }
    forall j | j in h'.marked
      ensures MarkOk(a, h', j)
    {
      assert MarkOk(a, h, j);
    }
  }

  // ---- The third pass: restore targets from the parent's spill slots.

  lemma FromSlotOk(a: Asm, h: Head, p: Parent, i: int, r: int)
    requires HeadInv(a, h, p) && h.lo == 0 && r in All(a) && r !in a.free && r in a.cost && a.cost[r] == i
    requires i in p.map_ && p.map_[i].InSlot? && !h.shuffling
    ensures Placeable(a, i, r) && HeadInv(FromSlot(a, i, r, p.map_[i].q + p.delta), h, p)
  {
    var a' := FromSlot(a, i, r, p.map_[i].q + p.delta);
    assert Held(a, r) && Settled(a, h, p, i);
    PlacedOk(a, i, r, a');
    StillSettled(a, h, p, a', h, i);
  }

  /** Settling i leaves the rest as it is. */
  lemma StillSettled(a: Asm, h: Head, p: Parent, a': Asm, h': Head, i: int)
    requires HeadInv(a, h, p) && i in a.defined && i in a.reg && a.reg[i].Reg? && i in p.map_
    requires a'.reg == a.reg && a'.slot == a.slot && a'.defined == a.defined - {i} && a'.saved == a.saved - {i}
    requires h'.sloadins == h.sloadins && h'.marked == h.marked && h'.lo == h.lo && h'.shuffling == h.shuffling
    requires h'.allow <= h.allow && h'.live == (if p.map_[i].InReg? then h.live - {p.map_[i].rs} else h.live)
    ensures AllSettled(a', h', p) && AllLive(a', h', p) && AllMarked(a', h')
  {
    forall j | j in a'.defined && j > h'.lo
      ensures Settled(a', h', p, j)
    {
      assert Settled(a, h, p, j);
    }
    forall rp | rp in h'.live
      ensures LiveOk(a', h', p, rp)
    {
      assert LiveOk(a, h, p, rp);
    }
    forall j | j in h'.marked
      ensures MarkOk(a', h', j)
    {
      assert MarkOk(a, h, j);
    }
  }

  // ---- Shuffling.

  /** Move from a live parent register that is free to its target. */
  lemma CoalescedOk(a: Asm, h: Head, p: Parent, rp: int)
    requires HeadInv(a, h, p) && h.shuffling && rp in h.live && rp in a.free
    ensures rp in h.sloadins && h.sloadins[rp] in a.reg
    ensures var i := h.sloadins[rp];
            && a.reg[i].Reg? && Placeable(a, i, a.reg[i].r) && rp !in a.entry && a.reg[i].r != rp
            && HeadInv(FromReg(a, i, a.reg[i].r, rp), h.(live := h.live - {rp}, allow := h.allow - {rp}), p)
  {
    CoalescedFacts(a, h, p, rp);
    var i := h.sloadins[rp];
    var r := a.reg[i].r;
    var a', h' := FromReg(a, i, r, rp), h.(live := h.live - {rp}, allow := h.allow - {rp});
    CoalescedBase(a, h, p, i, rp);
    StillSettled(a, h, p, a', h', i);
    hide AllSettled, AllLive, AllMarked, HeadBase, Placeable;
  }

  lemma CoalescedBase(a: Asm, h: Head, p: Parent, i: int, rp: int)
    requires HeadBase(a, h, p) && h.shuffling && rp in a.free && i in a.defined && i in p.map_
    requires p.map_[i] == InReg(rp) && i in a.reg && a.reg[i].Reg? && Placeable(a, i, a.reg[i].r) && rp !in a.entry
    ensures HeadBase(FromReg(a, i, a.reg[i].r, rp), h.(live := h.live - {rp}, allow := h.allow - {rp}), p)
  {
    var a' := FromReg(a, i, a.reg[i].r, rp);
    PlacedOk(a, i, a.reg[i].r, a');
    hide Inv, Placeable;
    assert All(a') == All(a);
  }

  lemma CoalescedFacts(a: Asm, h: Head, p: Parent, rp: int)
    requires HeadInv(a, h, p) && h.shuffling && rp in h.live && rp in a.free
    ensures rp in h.sloadins && h.sloadins[rp] in a.reg
    ensures var i := h.sloadins[rp];
            && i in a.defined && i in p.map_ && p.map_[i] == InReg(rp)
            && a.reg[i].Reg? && Placeable(a, i, a.reg[i].r) && rp !in a.entry && a.reg[i].r != rp
  {
    assert LiveOk(a, h, p, rp);
    var i := h.sloadins[rp];
    assert Settled(a, h, p, i) && Recorded(a, i);
    SourceIsNew(a, h, p, i);
  }

  /** Break a cycle by renaming one target to a temporary register. */
  lemma BrokenOk(a: Asm, h: Head, p: Parent, down: int, up: int)
    requires HeadInv(a, h, p) && h.shuffling && down in h.live && down !in a.free
    requires up in a.free && up in h.allow && up !in h.live && SameFile(a, down, up)
    ensures down in All(a) && HeadInv(Renamed(a, down, up), h, p)
  {
    assert LiveOk(a, h, p, down);
    assert Held(a, down);
    var i, a' := a.cost[down], Renamed(a, down, up);
    RenamedOk(a, down, up);
    forall j | j in a'.defined && j > h.lo
      ensures Settled(a', h, p, j)
    {
      assert Settled(a, h, p, j);
    }
    forall rp | rp in h.live
      ensures LiveOk(a', h, p, rp)
    {
      assert LiveOk(a, h, p, rp);
    }
    assert All(a') == All(a);
  }

  /** If no live register is free, then the registers in use are just the live ones. */
  lemma OnlyCycles(a: Asm, h: Head, p: Parent)
    requires HeadInv(a, h, p) && h.shuffling && h.live !! a.free
    ensures forall r :: r in All(a) && r !in a.free ==> r in h.live
  {
    var used := All(a) - a.free;
    var f := (r: int) =>
      if r in a.cost && a.cost[r] in p.map_ && p.map_[a.cost[r]].InReg? then p.map_[a.cost[r]].rs else 0;
    forall r | r in used
      ensures f(r) in h.live
    {
      assert Held(a, r) && Settled(a, h, p, a.cost[r]);
    }
    forall r, x | r in used && x in used && f(r) == f(x)
      ensures r == x
    {
      assert Held(a, r) && Held(a, x);
    }
    forall rp | rp in h.live
      ensures rp in used
    {
      assert LiveOk(a, h, p, rp);
    }
    OneToOne(used, h.live, f);
    FullSubset(used, h.live);
  }

  /** When all is done, what the parent left is all that the code needs. */
  lemma HeadDone(a: Asm, h: Head, p: Parent, m: Machine, e: Meaning)
    requires HeadInv(a, h, p) && h.shuffling && h.live == {}
    ensures a.free == All(a)
    ensures LeftByParent(p, a.wide, m, e) ==> Expect(a, m, e)
  {
    forall r | r in All(a)
      ensures r in a.free
    {
      assert r !in a.free ==> Held(a, r) && Settled(a, h, p, a.cost[r]);
    }
    if LeftByParent(p, a.wide, m, e) {
      forall x | Slotted(a, x)
        ensures Holds(m, a.slot[x], x in a.wide, e.val(x))
      {
        assert Settled(a, h, p, x) && LeftAt(p, a.wide, m, e, x);
      }
      forall r | r in a.entry
        ensures m.regs(r) == e.val(a.entry[r])
      {
        assert a.entry[r] in p.map_ ==> LeftAt(p, a.wide, m, e, a.entry[r]);
      }
      forall x | x in a.inherited
        ensures Holds(m, a.inherited[x], x in a.wide, e.val(x))
      {
        assert LeftAt(p, a.wide, m, e, x);
      }
    }
  }

  /** The targets in registers come from registers. */
  ghost predicate RegsFromRegs(a: Asm, p: Parent, lo: nat) {
    forall i :: i in a.defined && i > lo && i in a.reg && a.reg[i].Reg? ==> i in p.map_ && p.map_[i].InReg?
  }

  lemma ScanReady(a: Asm, h: Head, p: Parent, i: nat)
    requires HeadInv(a, h, p) && i == h.lo && 0 < i <= p.stop && !h.shuffling && a.inherited == map[]
    ensures Scannable(a, h, p, i)
  {
  }

  lemma ScanFacts(a: Asm, h: Head, p: Parent, i: int)
    requires Scannable(a, h, p, i)
    ensures Inv(a) && i in a.reg && i in a.slot && i in p.map_ && i in a.defined && i !in a.saved && !IsK(i)
    ensures a.hole == NoHole && a.inherited == map[] && a.slot.Keys == a.reg.Keys
    ensures a.reg[i].Reg? ==> Asked(a, a.reg[i].r) && a.reg[i].r in a.cost && a.cost[a.reg[i].r] == i
    ensures p.map_[i].InReg? ==> p.map_[i].rs !in a.entry
    ensures a.reg[i].Reg? && a.slot[i] == 0 ==> Placeable(a, i, a.reg[i].r)
    ensures a.reg[i].Reg? && a.slot[i] > 0 && Inv(SavedEarly(a, i)) ==> Placeable(SavedEarly(a, i), i, a.reg[i].r)
  {
    assert Recorded(a, i);
    if p.map_[i].InReg? {
      SourceIsNew(a, h, p, i);
    }
  }

  lemma HeadFacts(a: Asm, h: Head, p: Parent)
    requires HeadInv(a, h, p)
    ensures Inv(a) && a.hole == NoHole && a.slot.Keys == a.reg.Keys && a.cost.Keys == All(a) && a.free <= All(a)
    ensures forall i :: i in a.defined ==> 1 <= i <= p.stop && i in p.map_
    ensures forall i :: i in h.marked ==> i in a.defined && i > h.lo
    ensures h.live <= All(a) && h.allow !! a.entry.Keys
  {
    forall rp | rp in h.live
      ensures rp in All(a)
    {
      assert LiveOk(a, h, p, rp);
    }
    forall i | i in h.marked
      ensures i in a.defined && i > h.lo
    {
      assert MarkOk(a, h, i);
    }
  }

  lemma MarkFacts(a: Asm, h: Head, p: Parent, i: int)
    requires HeadInv(a, h, p) && i in h.marked
    ensures Inv(a) && a.cost.Keys == All(a) && a.slot.Keys == a.reg.Keys && a.gpr !! a.fpr && a.free <= All(a)
    ensures i in a.reg && i in a.slot && i in p.map_ && !a.reg[i].Reg? && a.slot[i] > 0 && i in a.defined && !IsK(i)
    ensures h.allow !! a.entry.Keys && a.hole == NoHole
    ensures h.lo == 0 && !h.shuffling ==> h.allow <= a.free
  {
    assert MarkOk(a, h, i);
    if h.lo == 0 && !h.shuffling {
      forall r | r in h.allow
        ensures r in a.free
      {
        assert r !in a.free ==> Held(a, r) && Settled(a, h, p, a.cost[r]);
      }
    }
  }

  lemma TakeFacts(a: Asm, h: Head, p: Parent, i: int, r: int)
    requires HeadInv(a, h, p) && i in h.marked && r in h.allow && h.lo == 0 && !h.shuffling
    requires i in a.fp <==> r in a.fpr
    ensures i in p.map_ && Takeable(a, i, r) && Reloadable(a, h, p, i, r)
  {
    MarkFacts(a, h, p, i);
  }

  lemma ReloadFacts(a: Asm, h: Head, p: Parent, i: int, r: int)
    requires Reloadable(a, h, p, i, r)
    ensures i in p.map_ && r !in a.entry
    ensures var a1 := Taken(a, i, r, false);
            && Inv(a1) && Slotted(a1, i) && Asked(a1, r) && r in a1.cost && a1.cost[r] == i && i in a1.reg
               && a1.reg[i] == Reg(r)
    ensures p.map_[i] == InReg(r) ==> Placeable(SavedEarly(Taken(a, i, r, false), i), i, r)
  {
    ReloadedInv(a, h, p, i, r);
  }

  lemma InUseFacts(a: Asm, h: Head, p: Parent, r: int)
    requires HeadInv(a, h, p) && r in All(a) && r !in a.free
    ensures r in a.cost && a.cost[r] in p.map_ && a.cost[r] in a.defined
    ensures a.cost[r] !in a.inherited
  {
    assert Held(a, r);
  }

  /** All registers of a file that may be used are live registers of the parent. */
  lemma NoTemporary(free: set<int>, allow: set<int>, live: set<int>, file: set<int>, allow0: set<int>, live0: set<int>)
    requires forall r :: r in file && r !in free ==> r in live
    requires allow0 - live0 <= allow && live <= live0 && live * file != {} && free * allow * file - live == {}
    ensures live0 * file != {} && allow0 * file <= live0
  {
    EmptySet(live * file);
    var x :| x in live * file;
    assert x in live0 * file;
    forall r | r in allow0 * file
      ensures r in live0
    {
      assert r !in live0 ==> r in free * allow * file - live;
    }
  }

  lemma FreeLive(live: set<int>, gpr: set<int>, fpr: set<int>, free: set<int>)
    requires live != {} && live <= gpr + fpr
    requires live * gpr != {} ==> exists r :: r in live && r in gpr && r in free
    requires live * fpr != {} ==> exists r :: r in live && r in fpr && r in free
    ensures !(live !! free)
  {
    EmptySet(live);
    var x :| x in live;
    assert x in live * gpr || x in live * fpr;
  }

  /** All registers in use are asked for, and the kept registers are the entry registers. */
  function AtHead(a: Asm, p: Parent): Asm {
    a.(lax := {}, entry := p.kept)
  }

  lemma HeadStart(a: Asm, p: Parent, mc: seq<Ins>, e: Meaning, goal: Machine -> bool)
    requires Inv(a) && Sound(a, mc, e, goal) && ParentOk(p, a) && a.hole == NoHole && a.entry == map[]
    requires a.inherited == map[]
    requires a.saved == {} && (forall i :: i in a.defined <==> 1 <= i <= p.stop) && a.defined <= a.reg.Keys
    requires p.kept.Keys <= a.free
    requires forall r :: r in All(a) && r !in a.free ==> r in a.cost && !IsK(a.cost[r])
    ensures Sound(AtHead(a, p), mc, e, goal)
    ensures HeadInv(AtHead(a, p), Head(All(a) - p.kept.Keys, {}, map[], {}, p.stop, false), p)
  {
    var a' := AtHead(a, p);
    SameRegs(a, a');
    SameSlots(a, a');
    forall m | Expect(a', m, e)
      ensures Expect(a, m, e)
    {
      forall x | Asked(a, x) && x in a.cost
        ensures m.regs(x) == e.val(a.cost[x])
      {
        assert Asked(a', x);
      }
      forall x | Slotted(a, x)
        ensures Holds(m, a.slot[x], x in a.wide, e.val(x))
      {
        assert Slotted(a', x);
      }
    }
  }

  /** What is left after the reloads is all in registers. */
  lemma RegistersLeft(a: Asm, h: Head, p: Parent)
    requires HeadInv(a, h, p) && h.lo == 0 && RegsFromRegs(a, p, 0)
    ensures RegistersOnly(a, p)
  {
    forall r | r in All(a) && r !in a.free
      ensures r in a.cost && a.cost[r] in p.map_ && p.map_[a.cost[r]].InReg?
    {
      assert Held(a, r);
    }
  }

  lemma ReadyToShuffle(a: Asm, h: Head, p: Parent)
    requires HeadInv(a, h, p) && h.lo == 0 && h.marked == {} && RegistersOnly(a, p)
    ensures HeadInv(a, h.(shuffling := true), p)
  {
    var h' := h.(shuffling := true);
    forall j | j in a.defined && j > h.lo
      ensures Settled(a, h', p, j)
    {
      assert Settled(a, h, p, j);
    }
    forall rp | rp in h.live
      ensures LiveOk(a, h', p, rp)
    {
      assert LiveOk(a, h, p, rp);
    }
  }
}
