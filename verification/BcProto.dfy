/** Prototypes in the bytecode dump (`bcwrite_proto`, `lj_bcread_proto`). */
module BcProto {
  import opened Leb
  import opened BcTypes
  import opened BcTable

  const BCDUMP_KGC_CHILD := 0
  const BCDUMP_KGC_TAB := 1
  const BCDUMP_KGC_I64 := 2
  const BCDUMP_KGC_U64 := 3
  const BCDUMP_KGC_COMPLEX := 4
  const BCDUMP_KGC_STR := 5

  const PROTO_CHILD := 0x01
  const PROTO_VARARG := 0x02
  const PROTO_FFI := 0x04
  const PROTO_ILOOP := 0x10

  /** A collectable constant; the 64 bit numbers and the complex ones by their words. */
  datatype Const =
    | KStr(s: seq<Byte>)
    | KTab(t: Table)
    | I64(lo: Word, hi: Word)
    | U64(lo: Word, hi: Word)
    | Complex(rlo: Word, rhi: Word, ilo: Word, ihi: Word)
    | Child(pt: Proto)

  /** Debug info: a line for each instruction but the header, and the names of upvalues and variables. */
  datatype Debug = NoDebug | Debug(lines: seq<Word>, info: seq<Byte>)

  /** A prototype. `kgc[i]` is the constant at `pt->k[i - sizekgc]`, `bc[0]` is the function header, and
      `trace` is the anchor for the traces that start in it. */
  datatype Proto = Proto(flags: Byte, numparams: Byte, framesize: Byte, uv: seq<Word>, kgc: seq<Const>, kn: seq<TV>,
                         bc: seq<Word>, trace: Half, dbg: Debug, firstline: Word, numline: Word)

  // ---- Units of one, two or four bytes, in the byte order of a host.

  type Width = w: nat | w in {1, 2, 4} witness 1

  function Limit(wd: Width): nat {
    if wd == 1 then 0x100 else if wd == 2 then 0x10000 else 0x1_0000_0000
  }

  function UnitBytes(be: bool, wd: Width, x: Word): (b: seq<Byte>)
    ensures |b| == wd
  {
    if wd == 1 then [x % 256]
    else if wd == 2 then
      if be then [x / 0x100 % 256, x % 256] else [x % 256, x / 0x100 % 256]
    else if be then [x / 0x100_0000, x / 0x1_0000 % 256, x / 0x100 % 256, x % 256]
    else [x % 256, x / 0x100 % 256, x / 0x1_0000 % 256, x / 0x100_0000]
  }

  function UnitAt(be: bool, wd: Width, b: seq<Byte>): Word
    requires |b| >= wd
  {
    if wd == 1 then Quad(0, 0, 0, b[0])
    else if wd == 2 then
      if be then Quad(0, 0, b[0], b[1]) else Quad(0, 0, b[1], b[0])
    else if be then Quad(b[0], b[1], b[2], b[3]) else Quad(b[3], b[2], b[1], b[0])
  }

  function Quad(a: Byte, b: Byte, c: Byte, d: Byte): Word {
    var x: nat, y: nat, z: nat, t: nat := a, b, c, d;
    x * 0x100_0000 + y * 0x1_0000 + z * 0x100 + t
  }

  lemma QuadBytes(a: Byte, b: Byte, c: Byte, d: Byte)
    ensures var x := Quad(a, b, c, d);
            x / 0x100_0000 == a && x / 0x1_0000 % 256 == b && x / 0x100 % 256 == c && x % 256 == d
  {
    var x := Quad(a, b, c, d);
    assert x / 0x1_0000 == a * 0x100 + b;
    assert x / 0x100 == a * 0x1_0000 + b * 0x100 + c;
  }

  lemma QuadWhole(x: Word)
    ensures Quad(x / 0x100_0000, x / 0x1_0000 % 256, x / 0x100 % 256, x % 256) == x
  {
    var h, q := x / 0x1_0000, x % 0x1_0000;
    assert h / 0x100 == x / 0x100_0000 && h == h / 0x100 * 0x100 + h % 256;
    assert x / 0x100 % 256 == q / 0x100 && q == q / 0x100 * 0x100 + q % 256;
    assert x % 256 == q % 256;
  }

  /** `lj_bswap`, or its 16 bit form */
  function Swap(wd: Width, x: Word): Word {
    if wd == 1 then x
    else if wd == 2 then Quad(0, 0, x % 256, x / 0x100 % 256)
    else Quad(x % 256, x / 0x100 % 256, x / 0x1_0000 % 256, x / 0x100_0000)
  }

  lemma UnitBack(be: bool, wd: Width, x: Word, rest: seq<Byte>)
    requires x < Limit(wd)
    ensures UnitAt(be, wd, UnitBytes(be, wd, x) + rest) == x
  {
    hide Quad;
    var b := UnitBytes(be, wd, x) + rest;
    assert forall i :: 0 <= i < wd ==> b[i] == UnitBytes(be, wd, x)[i];
    QuadWhole(x);
  }

  /** Swapping what the wrong byte order reads gives what the right one reads. */
  lemma SwapUnit(be: bool, wd: Width, b: seq<Byte>)
    requires |b| >= wd
    ensures Swap(wd, UnitAt(!be, wd, b)) == UnitAt(be, wd, b)
  {
    hide Quad;
    if wd == 2 {
      QuadBytes(0, 0, b[0], b[1]);
      QuadBytes(0, 0, b[1], b[0]);
    } else if wd == 4 {
      QuadBytes(b[0], b[1], b[2], b[3]);
      QuadBytes(b[3], b[2], b[1], b[0]);
    }
  }

  function EncUnits(be: bool, wd: Width, xs: seq<Word>): seq<Byte> {
    if xs == [] then [] else UnitBytes(be, wd, xs[0]) + EncUnits(be, wd, xs[1..])
  }

  function ReadUnits(be: bool, wd: Width, b: seq<Byte>, n: nat): Parsed<seq<Word>> {
    if n == 0 then Done([], b)
    else if |b| < wd then Bad
    else
      match ReadUnits(be, wd, b[wd..], n - 1)
      case Bad => Bad
      case Done(xs, r) => Done([UnitAt(be, wd, b)] + xs, r)
  }

  lemma {:induction false} UnitsBack(be: bool, wd: Width, xs: seq<Word>, rest: seq<Byte>)
    requires forall i {:trigger xs[i]} :: 0 <= i < |xs| ==> xs[i] < Limit(wd)
    ensures ReadUnits(be, wd, EncUnits(be, wd, xs) + rest, |xs|) == Done(xs, rest)
  {
    hide UnitAt, UnitBytes;
    if xs != [] {
      var u, us := UnitBytes(be, wd, xs[0]), EncUnits(be, wd, xs[1..]);
      Assoc(u, us, rest);
      UnitBack(be, wd, xs[0], us + rest);
      assert (u + (us + rest))[wd..] == us + rest;
      assert forall i :: 0 <= i < |xs| - 1 ==> xs[1..][i] == xs[i + 1];
      UnitsBack(be, wd, xs[1..], rest);
      assert [xs[0]] + xs[1..] == xs;
    } else {
      assert EncUnits(be, wd, xs) + rest == rest;
    }
  }

  lemma {:induction false} UnitsLength(be: bool, wd: Width, xs: seq<Word>)
    ensures |EncUnits(be, wd, xs)| == wd * |xs|
  {
    if xs != [] {
      UnitsLength(be, wd, xs[1..]);
    }
  }

  function Swapped(wd: Width, xs: seq<Word>): seq<Word> {
    seq(|xs|, i requires 0 <= i < |xs| => Swap(wd, xs[i]))
  }

  lemma {:induction false} SwapUnits(be: bool, wd: Width, b: seq<Byte>, n: nat)
    ensures ReadUnits(be, wd, b, n) ==
            match ReadUnits(!be, wd, b, n) { case Bad => Bad case Done(xs, r) => Done(Swapped(wd, xs), r) }
  {
    hide UnitAt, Swap;
    if n > 0 && |b| >= wd {
      SwapUnit(be, wd, b);
      SwapUnits(be, wd, b[wd..], n - 1);
      match ReadUnits(!be, wd, b[wd..], n - 1) {
        case Bad =>
        case Done(xs, r) =>
          assert Swapped(wd, [UnitAt(!be, wd, b)] + xs) == [Swap(wd, UnitAt(!be, wd, b))] + Swapped(wd, xs);
      }
    } else {
      assert Swapped(wd, []) == [];
    }
  }

  // ---- Instructions.

  const BC_FORI := 77
  const BC_JFORI := 78
  const BC_FORL := 79
  const BC_IFORL := 80
  const BC_JFORL := 81
  const BC_ITERL := 82
  const BC_IITERL := 83
  const BC_JITERL := 84
  const BC_LOOP := 85
  const BC_ILOOP := 86
  const BC_JLOOP := 87
  const BC_FUNCF := 89
  const BC_FUNCV := 92

  function Op(ins: Word): Byte {
    ins % 256
  }

  /** The D operand. */
  function OperandD(ins: Word): Half {
    ins / 0x10000
  }

  predicate IsInterp(op: Byte) {
    op == BC_IFORL || op == BC_IITERL || op == BC_ILOOP || op == BC_JFORI
  }

  predicate IsCompiled(op: Byte) {
    op == BC_JFORL || op == BC_JITERL || op == BC_JLOOP
  }

  /** An instruction without the marks of the JIT compiler; `start` has the original one for each trace. */
  function Unpatched(start: map<Half, Word>, ins: Word): Word {
    if IsInterp(Op(ins)) then ins - 1
    else if IsCompiled(Op(ins)) && OperandD(ins) in start then start[OperandD(ins)]
    else ins
  }

  /** What the JIT compiler may make of an instruction: the same; the form that is only interpreted, or, for
      `FORI`, the compiled one; or a jump into a trace that keeps the instruction. */
  predicate PatchOf(start: map<Half, Word>, ins: Word, orig: Word) {
    && !IsInterp(Op(orig)) && !IsCompiled(Op(orig))
    && (|| ins == orig
        || (Op(orig) in {BC_FORI, BC_FORL, BC_ITERL, BC_LOOP} && ins == orig + 1)
        || (IsCompiled(Op(ins)) && OperandD(ins) in start && start[OperandD(ins)] == orig))
  }

  function UnpatchedAll(start: map<Half, Word>, code: seq<Word>): seq<Word> {
    seq(|code|, i requires 0 <= i < |code| => Unpatched(start, code[i]))
  }

  /** The instructions that are written. */
  function Code(start: map<Half, Word>, p: Proto): (r: seq<Word>)
    requires p.bc != []
    ensures |r| == |p.bc| - 1
  {
    if p.flags / PROTO_ILOOP % 2 == 1 || p.trace != 0 then UnpatchedAll(start, p.bc[1..]) else p.bc[1..]
  }

  /** A prototype that carries marks of the JIT compiler, and says so, is written with its original code. */
  lemma CodeRestored(start: map<Half, Word>, p: Proto, orig: seq<Word>)
    requires |p.bc| == |orig| + 1
    requires forall i {:trigger orig[i]} :: 0 <= i < |orig| ==> PatchOf(start, p.bc[i + 1], orig[i])
    requires p.flags / PROTO_ILOOP % 2 == 1 || p.trace != 0 || p.bc[1..] == orig
    ensures Code(start, p) == orig
  {
  }

  /** The function header, as the reader makes it. */
  function HeaderOf(flags: Byte, framesize: Byte): Word {
    (if flags / PROTO_VARARG % 2 == 1 then BC_FUNCV else BC_FUNCF) + framesize * 0x100
  }

  // ---- Numbers.

  /** `bcwrite_knum`, for one number */
  function EncKn(dual: bool, o: TV): seq<Byte>
    requires o.Int? || o.Num?
  {
    if o.Int? then Uleb(2 * o.k)
    else if !dual && Narrow(o.lo, o.hi).Whole? then Uleb(2 * Narrow(o.lo, o.hi).k)
    else Uleb(2 * o.lo + 1) + Uleb(o.hi)
  }

  /** `bcread_knum`, for one number */
  function ReadKn(dual: bool, b: seq<Byte>): Parsed<TV> {
    match ReadUleb33(b)
    case Bad => Bad
    case Done(lo, r) =>
      if b != [] && b[0] % 2 == 1 then
        match ReadUleb(r)
        case Bad => Bad
        case Done(hi, r') => Done(Num(lo, hi), r')
      else Done(SetInt(dual, lo), r)
  }

  /** A numeric constant, as the C types bound it. */
  predicate KnOk(dual: bool, o: TV) {
    (o.Int? && dual) || o.Num?
  }

  /** A number is read back as it was, unless it is a negative zero that is written as an integer. */
  lemma KnBack(dual: bool, o: TV, rest: seq<Byte>)
    requires KnOk(dual, o)
    ensures ReadKn(dual, EncKn(dual, o) + rest) == Done(Back(dual, o), rest)
    ensures ReadKn(dual, EncKn(dual, o) + rest) == Done(o, rest) <==> Kept(dual, o, true)
  {
    hide Uleb, ReadUleb, ReadUleb33, Narrow, Widen;
    if o.Int? {
      ReadBack33(o.k, 0, rest);
    } else if !dual && Narrow(o.lo, o.hi).Whole? {
      ReadBack33(Narrow(o.lo, o.hi).k, 0, rest);
      WidenNarrowed(o.lo, o.hi);
    } else {
      if !dual {
        MinusZeroWhole(o.lo, o.hi);
      }
      Assoc(Uleb(2 * o.lo + 1), Uleb(o.hi), rest);
      ReadBack33(o.lo, 1, Uleb(o.hi) + rest);
      ReadBack(o.hi, rest);
    }
  }

  predicate AllNumbers(kn: seq<TV>) {
    forall i {:trigger kn[i]} :: 0 <= i < |kn| ==> kn[i].Int? || kn[i].Num?
  }

  function EncKns(dual: bool, kn: seq<TV>): seq<Byte>
    requires AllNumbers(kn)
  {
    if kn == [] then [] else EncKn(dual, kn[0]) + EncKns(dual, kn[1..])
  }

  function ReadKns(dual: bool, b: seq<Byte>, n: nat): Parsed<seq<TV>> {
    if n == 0 then Done([], b)
    else
      match ReadKn(dual, b)
      case Bad => Bad
      case Done(o, r) =>
        match ReadKns(dual, r, n - 1)
        case Bad => Bad
        case Done(os, r') => Done([o] + os, r')
  }

  lemma {:induction false} KnsBack(dual: bool, kn: seq<TV>, rest: seq<Byte>)
    requires forall i {:trigger kn[i]} :: 0 <= i < |kn| ==> KnOk(dual, kn[i])
    ensures AllNumbers(kn) && ReadKns(dual, EncKns(dual, kn) + rest, |kn|) == Done(BackAll(dual, kn), rest)
  {
    hide EncKn, ReadKn, Back;
    if kn != [] {
      assert forall i :: 0 <= i < |kn| - 1 ==> kn[1..][i] == kn[i + 1];
      var k, ks := EncKn(dual, kn[0]), EncKns(dual, kn[1..]);
      Assoc(k, ks, rest);
      KnBack(dual, kn[0], ks + rest);
      KnsBack(dual, kn[1..], rest);
      assert [Back(dual, kn[0])] + BackAll(dual, kn[1..]) == BackAll(dual, kn);
    } else {
      assert EncKns(dual, kn) + rest == rest;
    }
  }

  // ---- Collectable constants.

  /** `bcwrite_kgc`, for one constant */
  function EncConst(dual: bool, c: Const): seq<Byte> {
    match c
    case KStr(s) => Uleb(BCDUMP_KGC_STR + |s|) + s
    case KTab(t) => [BCDUMP_KGC_TAB] + EncTable(dual, t)
    case I64(lo, hi) => [BCDUMP_KGC_I64] + (Uleb(lo) + Uleb(hi))
    case U64(lo, hi) => [BCDUMP_KGC_U64] + (Uleb(lo) + Uleb(hi))
    case Complex(rlo, rhi, ilo, ihi) => [BCDUMP_KGC_COMPLEX] + (Uleb(rlo) + Uleb(rhi) + (Uleb(ilo) + Uleb(ihi)))
    case Child(_) => [BCDUMP_KGC_CHILD]
  }

  function EncConsts(dual: bool, kgc: seq<Const>): seq<Byte> {
    if kgc == [] then [] else EncConst(dual, kgc[0]) + EncConsts(dual, kgc[1..])
  }

  /** `bcread_kgc`, for one constant; prototypes are taken from the stack down to the floor. */
  function ReadConst(dual: bool, b: seq<Byte>, stack: seq<Proto>, floor: nat): Parsed<(Const, seq<Proto>)> {
    match ReadUleb(b)
    case Bad => Bad
    case Done(tp, r) =>
      if tp >= BCDUMP_KGC_STR then
        var len := tp - BCDUMP_KGC_STR;
        if |r| < len then Bad else Done((KStr(r[..len]), stack), r[len..])
      else if tp == BCDUMP_KGC_TAB then
        match ReadTable(dual, r)
        case Bad => Bad
        case Done(t, r') => Done((KTab(t), stack), r')
      else if tp != BCDUMP_KGC_CHILD then
        match ReadNum(r)
        case Bad => Bad
        case Done(p, r') =>
          if tp == BCDUMP_KGC_I64 then Done((I64(p.lo, p.hi), stack), r')
          else if tp == BCDUMP_KGC_U64 then Done((U64(p.lo, p.hi), stack), r')
          else
            match ReadNum(r')
            case Bad => Bad
            case Done(q, r'') => Done((Complex(p.lo, p.hi, q.lo, q.hi), stack), r'')
      else if |stack| <= floor then Bad  // stack underflow
      else Done((Child(stack[|stack| - 1]), stack[..|stack| - 1]), r)
  }

  function ReadConsts(dual: bool, b: seq<Byte>, n: nat, stack: seq<Proto>, floor: nat): Parsed<(seq<Const>, seq<Proto>)>
    decreases n
  {
    if n == 0 then Done(([], stack), b)
    else
      match ReadConst(dual, b, stack, floor)
      case Bad => Bad
      case Done(c, r) =>
        match ReadConsts(dual, r, n - 1, c.1, floor)
        case Bad => Bad
        case Done(cs, r') => Done(([c.0] + cs.0, cs.1), r')
  }

  ghost predicate ConstOk(dual: bool, c: Const) {
    && (c.KStr? ==> |c.s| <= LJ_MAX_BUF)
    && (c.KTab? ==> TableOk(dual, c.t))
  }

  /** A constant as it is read back, if the child is read back as `child`. */
  function Reborn(dual: bool, c: Const, child: Proto): Const {
    match c
    case KTab(t) => KTab(Rebuilt(dual, t))
    case Child(_) => Child(child)
    case _ => c
  }

  lemma ConstBack(dual: bool, c: Const, rest: seq<Byte>, stack: seq<Proto>, floor: nat, child: Proto)
    requires ConstOk(dual, c) && floor <= |stack|
    ensures var s := if c.Child? then stack + [child] else stack;
            ReadConst(dual, EncConst(dual, c) + rest, s, floor) == Done((Reborn(dual, c, child), stack), rest)
  {
    hide Uleb, ReadUleb, ReadNum, ReadTable, EncTable, Rebuilt, TableOk;
    match c {
      case KStr(s) =>
        Assoc(Uleb(BCDUMP_KGC_STR + |s|), s, rest);
        ReadBack(BCDUMP_KGC_STR + |s|, s + rest);
        assert (s + rest)[..|s|] == s && (s + rest)[|s|..] == rest;
      case KTab(t) =>
        TypeBack(BCDUMP_KGC_TAB, EncTable(dual, t), rest);
        TableBack(dual, t, rest);
      case I64(lo, hi) =>
        TypeBack(BCDUMP_KGC_I64, Uleb(lo) + Uleb(hi), rest);
        NumBack(lo, hi, rest);
      case U64(lo, hi) =>
        TypeBack(BCDUMP_KGC_U64, Uleb(lo) + Uleb(hi), rest);
        NumBack(lo, hi, rest);
      case Complex(rlo, rhi, ilo, ihi) =>
        var p, q := Uleb(rlo) + Uleb(rhi), Uleb(ilo) + Uleb(ihi);
        TypeBack(BCDUMP_KGC_COMPLEX, p + q, rest);
        Assoc(p, q, rest);
        NumBack(rlo, rhi, q + rest);
        NumBack(ilo, ihi, rest);
      case Child(_) =>
        TypeBack(BCDUMP_KGC_CHILD, [], rest);
        assert [BCDUMP_KGC_CHILD] + [] == [BCDUMP_KGC_CHILD] && [] + rest == rest;
        assert (stack + [child])[..|stack|] == stack;
    }
  }

  lemma TypeBack(tp: Byte, b: seq<Byte>, rest: seq<Byte>)
    requires tp < 128
    ensures ReadUleb([tp] + b + rest) == Done(tp, b + rest)
  {
    hide ReadUleb;
    ByteIsUleb(tp);
    Assoc([tp], b, rest);
    ReadBack(tp, b + rest);
  }

  // ---- The parts before and behind the constants.

  datatype Head = Head(flags: Byte, numparams: Byte, framesize: Byte, sizeuv: Byte, sizekgc: Word, sizekn: Word,
                       sizebc: Word, sizedbg: Word, firstline: Word, numline: Word)

  /** How many bytes a line takes. */
  function LineWidth(numline: Word): Width {
    if numline < 256 then 1 else if numline < 65536 then 2 else 4
  }

  function DebugBytes(be: bool, p: Proto): seq<Byte> {
    match p.dbg
    case NoDebug => []
    case Debug(lines, info) => EncUnits(be, LineWidth(p.numline), lines) + info
  }

  /** The debug info that is written. */
  function DebugKept(be: bool, strip: bool, p: Proto): seq<Byte> {
    if strip then [] else DebugBytes(be, p)
  }

  function DebugHead(be: bool, strip: bool, p: Proto): seq<Byte> {
    if strip then []
    else if DebugBytes(be, p) == [] then Uleb(0)
    else Uleb(|DebugBytes(be, p)|) + (Uleb(p.firstline) + Uleb(p.numline))
  }

  function Sizes(p: Proto): seq<Byte>
    requires p.bc != []
  {
    Uleb(|p.kgc|) + (Uleb(|p.kn|) + Uleb(|p.bc| - 1))
  }

  function HeadBytes(be: bool, strip: bool, p: Proto): seq<Byte>
    requires |p.uv| < 256 && p.bc != []
  {
    [p.flags % 8, p.numparams, p.framesize, |p.uv|] + (Sizes(p) + DebugHead(be, strip, p))
  }

  /** What follows the constants of a prototype on the collectable side. */
  function Tail(be: bool, dual: bool, strip: bool, p: Proto): seq<Byte>
    requires AllNumbers(p.kn)
  {
    EncKns(dual, p.kn) + DebugKept(be, strip, p)
  }

  /** `bcwrite_proto`, without the children and the size field */
  function Body(be: bool, dual: bool, strip: bool, start: map<Half, Word>, p: Proto): seq<Byte>
    requires |p.uv| < 256 && p.bc != [] && AllNumbers(p.kn)
  {
    HeadBytes(be, strip, p)
    + (EncUnits(be, 4, Code(start, p)) + (EncUnits(be, 2, p.uv) + (EncConsts(dual, p.kgc) + Tail(be, dual, strip, p))))
  }

  function ReadSizes(b: seq<Byte>): Parsed<(Word, Word, Word)> {
    match ReadUleb(b)
    case Bad => Bad
    case Done(x, r) =>
      match ReadUleb(r)
      case Bad => Bad
      case Done(y, r') =>
        match ReadUleb(r')
        case Bad => Bad
        case Done(z, r'') => Done((x, y, z), r'')
  }

  /** The sizes of the debug info: none if it is stripped. */
  function ReadDebugHead(strip: bool, b: seq<Byte>): Parsed<(Word, Word, Word)> {
    if strip then Done((0, 0, 0), b)
    else
      match ReadUleb(b)
      case Bad => Bad
      case Done(x, r) =>
        if x == 0 then Done((0, 0, 0), r)
        else
          match ReadUleb(r)
          case Bad => Bad
          case Done(y, r') =>
            match ReadUleb(r')
            case Bad => Bad
            case Done(z, r'') => Done((x, y, z), r'')
  }

  function ReadHead(strip: bool, b: seq<Byte>): Parsed<Head> {
    if |b| < 4 then Bad
    else
      match ReadSizes(b[4..])
      case Bad => Bad
      case Done(n, r) =>
        match ReadDebugHead(strip, r)
        case Bad => Bad
        case Done(d, r') => Done(Head(b[0], b[1], b[2], b[3], n.0, n.1, n.2, d.0, d.1, d.2), r')
  }

  /** The lines must lie within the debug info. */
  function ReadDebug(be: bool, h: Head, b: seq<Byte>): Parsed<Debug> {
    if h.sizedbg == 0 then Done(NoDebug, b)
    else if |b| < h.sizedbg then Bad
    else
      match ReadUnits(be, LineWidth(h.numline), b[..h.sizedbg], h.sizebc)
      case Bad => Bad
      case Done(lines, info) => Done(Debug(lines, info), b[h.sizedbg..])
  }

  function ReadRest(be: bool, dual: bool, h: Head, code: seq<Word>, uv: seq<Word>, kgc: (seq<Const>, seq<Proto>),
                    b: seq<Byte>):
    Parsed<(Proto, seq<Proto>)>
  {
    match ReadKns(dual, b, h.sizekn)
    case Bad => Bad
    case Done(kn, r) =>
      match ReadDebug(be, h, r)
      case Bad => Bad
      case Done(dbg, r') => Done((Built(h, code, uv, kgc.0, kn, dbg), kgc.1), r')
  }

  function Built(h: Head, code: seq<Word>, uv: seq<Word>, kgc: seq<Const>, kn: seq<TV>, dbg: Debug): Proto {
    Proto(h.flags, h.numparams, h.framesize, uv, kgc, kn, [HeaderOf(h.flags, h.framesize)] + code, 0, dbg, h.firstline,
          h.numline)
  }

  /** `lj_bcread_proto`: the prototype, and the stack it leaves. */
  function ReadProto(be: bool, dual: bool, strip: bool, b: seq<Byte>, stack: seq<Proto>, floor: nat):
    Parsed<(Proto, seq<Proto>)>
  {
    match ReadHead(strip, b)
    case Bad => Bad
    case Done(h, r) =>
      match ReadUnits(be, 4, r, h.sizebc)
      case Bad => Bad
      case Done(code, r') =>
        match ReadUnits(be, 2, r', h.sizeuv)
        case Bad => Bad
        case Done(uv, r'') =>
          match ReadConsts(dual, r'', h.sizekgc, stack, floor)
          case Bad => Bad
          case Done(kgc, r3) => ReadRest(be, dual, h, code, uv, kgc, r3)
  }

  // ---- Reading a prototype back.

  /** A prototype by itself: its parts fit their C types. */
  ghost predicate ProtoOk(dual: bool, p: Proto) {
    && |p.uv| < 256 && (forall i {:trigger p.uv[i]} :: 0 <= i < |p.uv| ==> p.uv[i] < 0x10000)
    && 0 < |p.bc| <= 0x1_0000_0000 && |p.kgc| < 0x1_0000_0000 && |p.kn| < 0x1_0000_0000
    && (forall i {:trigger p.kgc[i]} :: 0 <= i < |p.kgc| ==>
        ConstOk(dual, p.kgc[i]) && (p.kgc[i].Child? ==> p.flags % 2 == PROTO_CHILD))
    && (forall i {:trigger p.kn[i]} :: 0 <= i < |p.kn| ==> KnOk(dual, p.kn[i]))
    && DebugOk(p)
  }

  predicate DebugOk(p: Proto) {
    p.dbg.Debug? ==>
      && |p.dbg.lines| == |p.bc| - 1
      && (forall i {:trigger p.dbg.lines[i]} :: 0 <= i < |p.dbg.lines| ==> p.dbg.lines[i] < Limit(LineWidth(p.numline)))
      && LineWidth(p.numline) * |p.dbg.lines| + |p.dbg.info| < 0x1_0000_0000
  }

  /** Whether there is any debug info to write. */
  predicate HasDebug(strip: bool, p: Proto) {
    !strip && p.dbg.Debug? && (p.dbg.lines != [] || p.dbg.info != [])
  }

  /** The prototype as it is read back, with the given constants: flags but the first three are gone, and so are
      the marks of the JIT compiler, and debug info if stripped; the function header is that of a function not
      compiled yet. */
  function Renewed(dual: bool, strip: bool, start: map<Half, Word>, p: Proto, kgc: seq<Const>): Proto
    requires p.bc != []
  {
    var d := HasDebug(strip, p);
    Proto(p.flags % 8, p.numparams, p.framesize, p.uv, kgc, BackAll(dual, p.kn),
          [HeaderOf(p.flags % 8, p.framesize)] + Code(start, p), 0,
          if d then p.dbg else NoDebug, if d then p.firstline else 0, if d then p.numline else 0)
  }

  function HeadOf(be: bool, strip: bool, p: Proto): Head
    requires |p.uv| < 256 && 0 < |p.bc| <= 0x1_0000_0000 && |p.kgc| < 0x1_0000_0000 && |p.kn| < 0x1_0000_0000
    requires |DebugBytes(be, p)| < 0x1_0000_0000
  {
    var d := HasDebug(strip, p);
    Head(p.flags % 8, p.numparams, p.framesize, |p.uv|, |p.kgc|, |p.kn|, |p.bc| - 1,
         if strip then 0 else |DebugBytes(be, p)|, if d then p.firstline else 0, if d then p.numline else 0)
  }

  lemma DebugSize(be: bool, p: Proto)
    requires DebugOk(p)
    ensures |DebugBytes(be, p)| < 0x1_0000_0000 && (DebugBytes(be, p) == [] <==> !HasDebug(false, p))
  {
    if p.dbg.Debug? {
      UnitsLength(be, LineWidth(p.numline), p.dbg.lines);
    }
  }

  lemma SizesBack(p: Proto, rest: seq<Byte>)
    requires 0 < |p.bc| <= 0x1_0000_0000 && |p.kgc| < 0x1_0000_0000 && |p.kn| < 0x1_0000_0000
    ensures ReadSizes(Sizes(p) + rest) == Done((|p.kgc|, |p.kn|, |p.bc| - 1), rest)
  {
    hide Uleb, ReadUleb;
    var x, y, z := Uleb(|p.kgc|), Uleb(|p.kn|), Uleb(|p.bc| - 1);
    Assoc(x, y + z, rest);
    Assoc(y, z, rest);
    ReadBack(|p.kgc|, y + (z + rest));
    ReadBack(|p.kn|, z + rest);
    ReadBack(|p.bc| - 1, rest);
  }

  lemma DebugHeadBack(be: bool, strip: bool, p: Proto, rest: seq<Byte>)
    requires DebugOk(p)
    ensures |DebugBytes(be, p)| < 0x1_0000_0000
    ensures var d := HasDebug(strip, p);
            ReadDebugHead(strip, DebugHead(be, strip, p) + rest)
            == Done((if strip then 0 else |DebugBytes(be, p)|, if d then p.firstline else 0,
                     if d then p.numline else 0), rest)
  {
    hide Uleb, ReadUleb, DebugBytes;
    DebugSize(be, p);
    if strip {
      assert [] + rest == rest;
    } else if DebugBytes(be, p) == [] {
      ReadBack(0, rest);
    } else {
      var n := |DebugBytes(be, p)|;
      var x, y, z := Uleb(n), Uleb(p.firstline), Uleb(p.numline);
      Assoc(x, y + z, rest);
      Assoc(y, z, rest);
      ReadBack(n, y + (z + rest));
      ReadBack(p.firstline, z + rest);
      ReadBack(p.numline, rest);
    }
  }

  lemma HeadBack(be: bool, dual: bool, strip: bool, p: Proto, rest: seq<Byte>)
    requires ProtoOk(dual, p)
    ensures |DebugBytes(be, p)| < 0x1_0000_0000
    ensures ReadHead(strip, HeadBytes(be, strip, p) + rest) == Done(HeadOf(be, strip, p), rest)
  {
    hide ReadSizes, Sizes, ReadDebugHead, DebugHead, ConstOk, KnOk;
    DebugSize(be, p);
    var f, d := [p.flags % 8, p.numparams, p.framesize, |p.uv|], DebugHead(be, strip, p);
    Assoc(f, Sizes(p) + d, rest);
    Assoc(Sizes(p), d, rest);
    var b := HeadBytes(be, strip, p) + rest;
    assert b == f + (Sizes(p) + (d + rest));
    assert b[..4] == f && b[4..] == Sizes(p) + (d + rest);
    assert b[0] == f[0] && b[1] == f[1] && b[2] == f[2] && b[3] == f[3];
    SizesBack(p, d + rest);
    DebugHeadBack(be, strip, p, rest);
  }

  lemma DebugBack(be: bool, strip: bool, p: Proto, h: Head, rest: seq<Byte>)
    requires DebugOk(p) && |p.uv| < 256 && 0 < |p.bc| <= 0x1_0000_0000 && |p.kgc| < 0x1_0000_0000
    requires |p.kn| < 0x1_0000_0000
    requires |DebugBytes(be, p)| < 0x1_0000_0000 && h == HeadOf(be, strip, p)
    ensures ReadDebug(be, h, DebugKept(be, strip, p) + rest)
            == Done(if HasDebug(strip, p) then p.dbg else NoDebug, rest)
  {
    DebugSize(be, p);
    var b := DebugKept(be, strip, p);
    if HasDebug(strip, p) {
      assert (b + rest)[..|b|] == b && (b + rest)[|b|..] == rest;
      UnitsBack(be, LineWidth(p.numline), p.dbg.lines, p.dbg.info);
    } else {
      assert b == [] && b + rest == rest;
    }
  }

  lemma RestBack(be: bool, dual: bool, strip: bool, start: map<Half, Word>, p: Proto, kgc: (seq<Const>, seq<Proto>),
                 rest: seq<Byte>)
    requires ProtoOk(dual, p) && |DebugBytes(be, p)| < 0x1_0000_0000
    ensures AllNumbers(p.kn)
    ensures ReadRest(be, dual, HeadOf(be, strip, p), Code(start, p), p.uv, kgc, Tail(be, dual, strip, p) + rest)
            == Done((Renewed(dual, strip, start, p, kgc.0), kgc.1), rest)
  {
    hide ReadKns, EncKns, ReadDebug, DebugKept, ConstOk, Code, DebugBytes;
    KnsBack(dual, p.kn, DebugKept(be, strip, p) + rest);
    Assoc(EncKns(dual, p.kn), DebugKept(be, strip, p), rest);
    DebugBack(be, strip, p, HeadOf(be, strip, p), rest);
  }

  /** `lj_bcread_proto` of what `bcwrite_proto` writes, if the constants are read back as kgc. */
  lemma ProtoBack(be: bool, dual: bool, strip: bool, start: map<Half, Word>, p: Proto, rest: seq<Byte>,
                  stack: seq<Proto>, floor: nat, kgc: (seq<Const>, seq<Proto>))
    requires ProtoOk(dual, p) && AllNumbers(p.kn)
    requires var r := Tail(be, dual, strip, p) + rest;
             ReadConsts(dual, EncConsts(dual, p.kgc) + r, |p.kgc|, stack, floor) == Done(kgc, r)
    ensures ReadProto(be, dual, strip, Body(be, dual, strip, start, p) + rest, stack, floor)
            == Done((Renewed(dual, strip, start, p, kgc.0), kgc.1), rest)
  {
    hide ReadHead, HeadBytes, HeadOf, ReadUnits, EncUnits, ReadConsts, EncConsts, ReadRest, Tail, Renewed, Code;
    hide ConstOk, KnOk, DebugBytes;
    var c, u, k, t := EncUnits(be, 4, Code(start, p)), EncUnits(be, 2, p.uv), EncConsts(dual, p.kgc),
      Tail(be, dual, strip, p);
    Assoc(HeadBytes(be, strip, p), c + (u + (k + t)), rest);
    Assoc(c, u + (k + t), rest);
    Assoc(u, k + t, rest);
    Assoc(k, t, rest);
    HeadBack(be, dual, strip, p, c + (u + (k + (t + rest))));
    HeadFields(be, strip, p);
    UnitsBack(be, 4, Code(start, p), u + (k + (t + rest)));
    UnitsBack(be, 2, p.uv, k + (t + rest));
    RestBack(be, dual, strip, start, p, kgc, rest);
  }

  lemma HeadFields(be: bool, strip: bool, p: Proto)
    requires |p.uv| < 256 && 0 < |p.bc| <= 0x1_0000_0000 && |p.kgc| < 0x1_0000_0000 && |p.kn| < 0x1_0000_0000
    requires |DebugBytes(be, p)| < 0x1_0000_0000
    ensures var h := HeadOf(be, strip, p); h.sizebc == |p.bc| - 1 && h.sizeuv == |p.uv| && h.sizekgc == |p.kgc|
  {
  }
}
