/** When two prototypes are the same function, told by what a program and the interpreter see of them. */
module BcSame {
  import opened Leb
  import opened BcTypes
  import opened BcTable
  import opened BcProto

  /** The same value; only where integer values do not exist, a negative zero may have become a positive one. */
  predicate SameValue(dual: bool, x: TV, y: TV) {
    if !dual && x == Num(0, 0x8000_0000) then y == Num(0, 0) else y == x
  }

  /** The first instruction is that of a function not compiled yet, of the fixed kind or for variable arguments (opcodes
      89 and 92), with the frame size as operand A and 0 as operand D. The others are the original ones, whatever the
      JIT compiler had made of them. */
  ghost predicate SameCode(start: map<Half, Word>, p: Proto, q: Proto) {
    && p.bc != [] && |q.bc| == |p.bc| && q.trace == 0
    && q.bc[0] % 0x100 == (if p.flags / 0x02 % 2 == 1 then 92 else 89)
    && q.bc[0] / 0x100 % 0x100 == p.framesize && q.bc[0] / 0x1_0000 == 0
    && (forall i {:trigger q.bc[i]} :: 0 < i < |p.bc| ==> Restored(start, p, i, q.bc[i]))
  }

  ghost predicate Restored(start: map<Half, Word>, p: Proto, i: int, ins: Word)
    requires 0 < i < |p.bc|
  {
    if p.flags / 0x10 % 2 == 1 || p.trace != 0 then
      forall orig {:trigger PatchOf(start, p.bc[i], orig)} :: PatchOf(start, p.bc[i], orig) ==> ins == orig
    else ins == p.bc[i]
  }

  predicate SameDebug(strip: bool, p: Proto, q: Proto) {
    if strip || p.dbg.NoDebug? || (p.dbg.lines == [] && p.dbg.info == []) then
      q.dbg == NoDebug && q.firstline == 0 && q.numline == 0
    else q.dbg == p.dbg && q.firstline == p.firstline && q.numline == p.numline
  }

  ghost predicate SameConst(dual: bool, strip: bool, start: map<Half, Word>, c: Const, c': Const)
    decreases c, 0
  {
    match c
    case Child(pt) => c'.Child? && SameFunction(dual, strip, start, pt, c'.pt)
    case KTab(t) =>
      c'.KTab? && forall key {:trigger Get(t, key)} :: SameValue(dual, Get(t, key), Get(c'.t, key))
    case _ => c' == c
  }

  /** q does what p does. */
  ghost predicate SameFunction(dual: bool, strip: bool, start: map<Half, Word>, p: Proto, q: Proto)
    decreases p, 1
  {
    && q.flags < 8 && q.flags / 1 % 2 == p.flags / 1 % 2 && q.flags / 2 % 2 == p.flags / 2 % 2
    && q.flags / 4 % 2 == p.flags / 4 % 2
    && q.numparams == p.numparams && q.framesize == p.framesize && q.uv == p.uv
    && SameCode(start, p, q) && SameDebug(strip, p, q)
    && |q.kn| == |p.kn| && (forall i {:trigger q.kn[i]} :: 0 <= i < |p.kn| ==> SameValue(dual, p.kn[i], q.kn[i]))
    && |q.kgc| == |p.kgc|
    && forall i {:trigger p.kgc[i]} :: 0 <= i < |p.kgc| ==> SameConst(dual, strip, start, p.kgc[i], q.kgc[i])
  }

  /** So with a header as it is before a function is compiled, all of the original code is there again. */
  lemma WholeCode(start: map<Half, Word>, p: Proto, q: Proto, orig: seq<Word>)
    requires SameCode(start, p, q) && |orig| == |p.bc|
    requires p.bc[0] == orig[0] && p.bc[0] / 0x100 % 0x100 == p.framesize && p.bc[0] / 0x1_0000 == 0
    requires p.bc[0] % 0x100 == if p.flags / 0x02 % 2 == 1 then 92 else 89
    requires forall i {:trigger orig[i]} :: 0 < i < |orig| ==> PatchOf(start, p.bc[i], orig[i])
    requires p.flags / 0x10 % 2 == 1 || p.trace != 0 || p.bc == orig
    ensures q.bc == orig
  {
    var a, b := q.bc[0], orig[0];
    assert a == a % 0x100 + 0x100 * (a / 0x100) && a / 0x100 == a / 0x100 % 0x100 + 0x100 * (a / 0x1_0000);
    assert b == b % 0x100 + 0x100 * (b / 0x100) && b / 0x100 == b / 0x100 % 0x100 + 0x100 * (b / 0x1_0000);
    forall i | 0 < i < |orig|
      ensures q.bc[i] == orig[i]
    {
      assert Restored(start, p, i, q.bc[i]) && PatchOf(start, p.bc[i], orig[i]);
    }
  }

  // ---- A prototype as it is read back is the same function.

  lemma BackIs(dual: bool, x: TV)
    ensures SameValue(dual, x, Back(dual, x))
  {
  }

  lemma HeaderIs(flags: Byte, framesize: Byte)
    ensures var h := HeaderOf(flags % 8, framesize);
            && h % 0x100 == (if flags / 2 % 2 == 1 then 92 else 89) && h / 0x100 % 0x100 == framesize
            && h / 0x1_0000 == 0
  {
    LowFlags(flags);
  }

  lemma LowFlags(flags: Byte)
    ensures var f := flags % 8;
            f < 8 && f / 1 % 2 == flags / 1 % 2 && f / 2 % 2 == flags / 2 % 2 && f / 4 % 2 == flags / 4 % 2
  {
    var f, q: int := flags % 8, flags / 8;
    EvenMore(f, 4 * q);
    EvenMore(f / 2, 2 * q);
    EvenMore(f / 4, q);
    assert flags == f + 2 * (4 * q) && flags / 2 == f / 2 + 2 * (2 * q) && flags / 4 == f / 4 + 2 * q;
  }

  lemma EvenMore(x: int, k: int)
    ensures (x + 2 * k) % 2 == x % 2
  {
  }

  lemma CodeIs(dual: bool, strip: bool, start: map<Half, Word>, p: Proto, kgc: seq<Const>)
    requires p.bc != []
    ensures SameCode(start, p, Renewed(dual, strip, start, p, kgc))
  {
    hide HeaderOf;
    var q := Renewed(dual, strip, start, p, kgc);
    HeaderIs(p.flags, p.framesize);
    forall i | 0 < i < |p.bc|
      ensures Restored(start, p, i, q.bc[i])
    {
      assert q.bc[i] == Code(start, p)[i - 1] && p.bc[1..][i - 1] == p.bc[i];
      forall orig | PatchOf(start, p.bc[i], orig) && (p.flags / 0x10 % 2 == 1 || p.trace != 0)
        ensures q.bc[i] == orig
      {
        UnpatchedIs(start, p.bc[i], orig);
      }
    }
  }

  lemma UnpatchedIs(start: map<Half, Word>, ins: Word, orig: Word)
    requires PatchOf(start, ins, orig)
    ensures Unpatched(start, ins) == orig
  {
  }

  lemma RenewedIs(dual: bool, strip: bool, start: map<Half, Word>, p: Proto, kgc: seq<Const>)
    requires p.bc != [] && |kgc| == |p.kgc|
    requires forall i {:trigger p.kgc[i]} :: 0 <= i < |p.kgc| ==> SameConst(dual, strip, start, p.kgc[i], kgc[i])
    ensures SameFunction(dual, strip, start, p, Renewed(dual, strip, start, p, kgc))
  {
    hide SameCode, SameConst, Code, HeaderOf, Back;
    CodeIs(dual, strip, start, p, kgc);
    LowFlags(p.flags);
    var q := Renewed(dual, strip, start, p, kgc);
    forall i | 0 <= i < |p.kn|
      ensures SameValue(dual, p.kn[i], q.kn[i])
    {
      BackIs(dual, p.kn[i]);
    }
  }

  /** A constant that is no child */
  lemma RebornIs(dual: bool, strip: bool, start: map<Half, Word>, c: Const, child: Proto)
    requires ConstOk(dual, c) && !c.Child?
    ensures SameConst(dual, strip, start, c, Reborn(dual, c, child))
  {
    hide Get, Back, TableOk, Rebuilt;
    if c.KTab? {
      forall key
        ensures SameValue(dual, Get(c.t, key), Get(Rebuilt(dual, c.t), key))
      {
        SameMap(dual, c.t, key);
        BackIs(dual, Get(c.t, key));
      }
    }
  }
}
