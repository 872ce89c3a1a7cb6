/** PHI registers (`asm_phi_shuffle` in `lj_asm.c`). */
module Phi {
  import opened RegAlloc
  import opened Sets

  /** `phireg` gives the left operand of the PHI of each register in `regs`; these operands are marked. */
  datatype Phis = Phis(regs: set<int>, left: map<int, int>)

  /** Each PHI has a register of its kind and a left operand of its own, and each register file has
      registers without PHIs. */
  ghost predicate PhisOk(a: Asm, p: Phis) {
    && p.regs <= All(a) && a.gpr - p.regs != {} && a.fpr - p.regs != {}
    && (forall r :: r in p.regs ==>
          r in p.left && p.left[r] in a.reg && p.left[r] in a.defined && !IsK(p.left[r])
            && (p.left[r] in a.fp <==> r in a.fpr))
    && (forall r, x :: r in p.regs && x in p.regs && p.left[r] == p.left[x] ==> r == x)
  }

  predicate IsLeft(p: Phis, ref: int) {
    exists r :: r in p.regs && r in p.left && p.left[r] == ref
  }

  /** The left operand of the PHI has a register, but not that of the PHI. */
  predicate Mismatch(a: Asm, p: Phis, r: int) {
    r in p.regs && r in p.left && p.left[r] in a.reg && a.reg[p.left[r]].Reg? && a.reg[p.left[r]].r != r
  }

  ghost function Mismatches(a: Asm, p: Phis): set<int> {
    set r | r in p.regs && Mismatch(a, p, r)
  }

  /** A register of a PHI that another PHI's left operand is in. */
  predicate BlockedAt(a: Asm, p: Phis, r: int) {
    r in p.regs && r !in a.free && r in a.cost && IsLeft(p, a.cost[r]) && r in p.left && a.cost[r] != p.left[r]
  }

  /** Some PHI register is free for its left operand. */
  ghost predicate Ready(a: Asm, p: Phis) {
    exists r :: r in a.free && Mismatch(a, p, r)
  }

  /** The left operand goes to the PHI register. */
  lemma Placing(a: Asm, p: Phis, r: int)
    requires Inv(a) && PhisOk(a, p) && Mismatch(a, p, r) && r in a.free && r !in a.entry
    ensures var x := a.reg[p.left[r]].r;
            && x in All(a) && x !in a.free && x in a.cost && a.cost[x] == p.left[r] && SameFile(a, x, r)
            && Mismatches(Renamed(a, x, r), p) == Mismatches(a, p) - {r}
  {
    assert Recorded(a, p.left[r]);
    var x := a.reg[p.left[r]].r;
    assert Held(a, x);
    var a' := Renamed(a, x, r);
    forall y | y in p.regs
      ensures Mismatch(a', p, y) <==> Mismatch(a, p, y) && y != r
    {
    }
  }

  /** Giving up the register of another reference changes nothing about the PHIs. */
  lemma OtherDropped(a: Asm, a': Asm, p: Phis, r: int)
    requires PhisOk(a, p) && a'.reg.Keys == a.reg.Keys
    requires forall o :: o in a.reg && a'.reg[o] != a.reg[o] ==> a.reg[o] == Reg(r) && !a'.reg[o].Reg?
    ensures Mismatches(a', p) <= Mismatches(a, p)
    ensures (forall x :: x in p.regs ==> a.reg[p.left[x]] != Reg(r)) ==> Mismatches(a', p) == Mismatches(a, p)
  {
  }

  /** If all mismatched operands are blocked by each other, they form cycles: the operand for every
      blocked register is in a blocked register. */
  lemma Cycles(a: Asm, p: Phis, blocked: set<int>, down: int)
    requires Inv(a) && PhisOk(a, p) && Mismatches(a, p) <= blocked && (forall r :: r in blocked ==> BlockedAt(a, p, r))
    requires down in blocked
    ensures Mismatch(a, p, down) && a.reg[p.left[down]].r in blocked
  {
    var f := (x: int) => Home(a, p, x);
    forall x | x in blocked
      ensures f(x) in Mismatches(a, p) && x in a.cost && f(x) in p.left && p.left[f(x)] == a.cost[x]
      ensures a.reg[p.left[f(x)]] == Reg(x)
    {
      HomeMismatch(a, p, x);
    }
    OneToOne(blocked, Mismatches(a, p), f);
    FullSubset(blocked, Mismatches(a, p));
    Onto(blocked, Mismatches(a, p), f, down);
    var x :| x in blocked && f(x) == down;
  }

  /** The PHI register of the operand that is in x. */
  ghost function Home(a: Asm, p: Phis, x: int): int {
    if x in a.cost && IsLeft(p, a.cost[x]) then
      HomeOf(p, a.cost[x])
    else 0
  }

  ghost function HomeOf(p: Phis, ref: int): int
    requires IsLeft(p, ref)
  {
    var r :| r in p.regs && r in p.left && p.left[r] == ref;
    r
  }

  lemma HomeMismatch(a: Asm, p: Phis, x: int)
    requires Inv(a) && PhisOk(a, p) && BlockedAt(a, p, x)
    ensures Home(a, p, x) in Mismatches(a, p) && Home(a, p, x) in p.left && p.left[Home(a, p, x)] == a.cost[x]
    ensures a.cost[x] in a.reg && a.reg[a.cost[x]] == Reg(x)
  {
    assert Held(a, x);
  }

  lemma RenamedPhis(a: Asm, down: int, up: int, p: Phis)
    requires Inv(a) && PhisOk(a, p) && down in All(a) && down !in a.free && up in a.free && up !in a.entry
    requires SameFile(a, down, up)
    ensures down in a.cost && PhisOk(Renamed(a, down, up), p)
    ensures forall x :: BlockedAt(a, p, x) ==> BlockedAt(Renamed(a, down, up), p, x) || x in Renamed(a, down, up).free
    ensures forall x :: x != up && x in a.free ==> x in Renamed(a, down, up).free
  {
    RenamedOk(a, down, up);
  }

  lemma NoLeftIn(a: Asm, p: Phis, r: int)
    requires Inv(a) && PhisOk(a, p) && r in a.cost && !IsLeft(p, a.cost[r])
    ensures forall x :: x in p.regs ==> a.reg[p.left[x]] != Reg(r)
  {
    forall x | x in p.regs
      ensures a.reg[p.left[x]] != Reg(r)
    {
      assert Recorded(a, p.left[x]);
    }
  }

  /** Moving a misplaced operand to another register. */
  lemma RenamedAmiss(a: Asm, down: int, up: int, p: Phis)
    requires Inv(a) && PhisOk(a, p) && BlockedAt(a, p, down) && up in a.free && up !in a.entry && SameFile(a, down, up)
    ensures Mismatches(Renamed(a, down, up), p) <= Mismatches(a, p)
    ensures Mismatch(a, p, down) ==> Mismatch(Renamed(a, down, up), p, down)
  {
    assert Held(a, down);
  }

  /** Cycles, for every blocked register. */
  lemma AllCycles(a: Asm, p: Phis, blocked: set<int>)
    requires Inv(a) && PhisOk(a, p) && Mismatches(a, p) <= blocked && (forall r :: r in blocked ==> BlockedAt(a, p, r))
    ensures forall d :: d in blocked ==> Turning(a, p, blocked, d)
  {
    forall d | d in blocked
      ensures Turning(a, p, blocked, d)
    {
      Cycles(a, p, blocked, d);
    }
  }

  predicate Turning(a: Asm, p: Phis, blocked: set<int>, d: int) {
    Mismatch(a, p, d) && a.reg[p.left[d]].r in blocked
  }

  lemma RoomBeside(a: Asm, p: Phis, blocked: set<int>, file: set<int>)
    requires PhisOk(a, p) && blocked <= p.regs && (file == a.gpr || file == a.fpr)
    ensures file - blocked != {}
  {
    EmptySet(file - p.regs);
    var x :| x in file - p.regs;
    assert x in file - blocked;
  }

  /** Breaking a cycle of general purpose registers does nothing to floating point registers. */
  lemma OtherFile(a: Asm, b: Asm, p: Phis, blocked: set<int>)
    requires Inv(a) && PhisOk(a, p) && b.gpr == a.gpr && b.fpr == a.fpr && b.reg.Keys == a.reg.Keys && blocked <= p.regs
    requires forall x :: x in All(a) && x !in a.gpr ==>
             x in b.cost && x in a.cost && b.cost[x] == a.cost[x] && (x in b.free <==> x in a.free)
    requires forall o :: o in a.reg && b.reg[o] != a.reg[o] ==> a.reg[o].Reg? && a.reg[o].r in a.gpr
    requires forall r :: r in blocked ==> BlockedAt(a, p, r)
    ensures forall r :: r in blocked && r in a.fpr ==> BlockedAt(b, p, r)
    ensures forall d :: d in blocked && d in a.fpr && Turning(a, p, blocked, d) ==> Turning(b, p, blocked, d)
  {
    forall d | d in blocked && d in a.fpr && Turning(a, p, blocked, d)
      ensures Turning(b, p, blocked, d)
    {
      assert Recorded(a, p.left[d]);
      assert Held(a, a.reg[p.left[d]].r);
    }
  }

  lemma SplitFiles(blocked: set<int>, gpr: set<int>, fpr: set<int>)
    requires blocked != {} && blocked <= gpr + fpr
    ensures blocked * gpr != {} || blocked * fpr != {}
  {
    EmptySet(blocked);
    var x :| x in blocked;
    assert x in blocked * gpr || x in blocked * fpr;
  }

  /** A general purpose PHI register that is ready stays so while floating point registers are shuffled. */
  lemma StillAmiss(b: Asm, c: Asm, p: Phis)
    requires Inv(b) && PhisOk(b, p) && c.gpr == b.gpr && c.fpr == b.fpr && c.reg.Keys == b.reg.Keys
    requires forall x :: x in All(b) && x !in b.fpr ==> (x in c.free <==> x in b.free)
    requires forall o :: o in b.reg && c.reg[o] != b.reg[o] ==> b.reg[o].Reg? && b.reg[o].r in b.fpr
    ensures (exists d :: d in b.gpr && d in b.free && Mismatch(b, p, d)) ==> Ready(c, p)
  {
    forall d | d in b.gpr && d in b.free && Mismatch(b, p, d)
      ensures d in c.free && Mismatch(c, p, d)
    {
      assert Recorded(b, p.left[d]);
      assert Held(b, b.reg[p.left[d]].r);
    }
  }

  /** The left operand is in its PHI register, if it is in a register. */
  lemma NotElsewhere(a: Asm, p: Phis, r: int)
    requires PhisOk(a, p) && Mismatches(a, p) == {} && r in p.regs
    ensures a.reg[p.left[r]].Reg? ==> a.reg[p.left[r]] == Reg(r)
  {
    assert r !in Mismatches(a, p);
  }

  /** Putting the left operand in its PHI register takes the register from no other left operand. */
  lemma Settling(a: Asm, b: Asm, p: Phis, r: int)
    requires PhisOk(a, p) && Mismatches(a, p) == {} && r in p.regs && b.reg.Keys == a.reg.Keys
    requires b.reg[p.left[r]] == Reg(r)
    requires forall o :: o in a.reg && o != p.left[r] && b.reg[o] != a.reg[o] ==> a.reg[o] == Reg(r) && !b.reg[o].Reg?
    ensures Mismatches(b, p) == {}
    ensures forall x :: x in p.regs && a.reg[p.left[x]] == Reg(x) ==> b.reg[p.left[x]] == Reg(x)
  {
    forall x | x in p.regs
      ensures !Mismatch(b, p, x)
    {
      NotElsewhere(a, p, x);
    }
  }
}
