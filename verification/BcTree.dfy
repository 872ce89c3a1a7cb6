/** Whole bytecode dumps: the tree of prototypes is written children first, and rebuilt with a stack. */
module BcTree {
  import opened Leb
  import opened BcTypes
  import opened BcTable
  import opened BcProto
  import opened BcSame

  const BCDUMP_HEAD1 := 0x1b
  const BCDUMP_HEAD2 := 0x4c
  const BCDUMP_HEAD3 := 0x4a
  const BCDUMP_VERSION := 2

  const BCDUMP_F_BE := 0x01
  const BCDUMP_F_STRIP := 0x02
  const BCDUMP_F_FFI := 0x04
  const BCDUMP_F_FR2 := 0x08

  /** A build of LuaJIT: byte order, integer values or only doubles, two-slot frames. */
  datatype Host = Host(be: bool, dual: bool, fr2: bool)

  /** What a dump is made with. */
  datatype Dumper = Dumper(host: Host, strip: bool, start: map<Half, Word>)

  // ---- Writing.

  ghost predicate TreeOk(dual: bool, p: Proto) {
    ProtoOk(dual, p) && forall i {:trigger p.kgc[i]} :: 0 <= i < |p.kgc| && p.kgc[i].Child? ==>
      TreeOk(dual, p.kgc[i].pt)
  }

  /** The parts of a prototype that are written without a check fit their places. */
  predicate Writable(p: Proto) {
    |p.uv| < 256 && p.bc != [] && AllNumbers(p.kn)
  }

  function BodyOf(d: Dumper, p: Proto): seq<Byte> {
    if Writable(p) then Body(d.host.be, d.host.dual, d.strip, d.start, p) else []
  }

  /** A prototype behind its size. */
  function Framed(d: Dumper, p: Proto): seq<Byte> {
    Uleb(|BodyOf(d, p)|) + BodyOf(d, p)
  }

  /** A prototype behind its children, the last constant first. */
  function EncTree(d: Dumper, p: Proto): seq<Byte>
    decreases p, |p.kgc| + 1
  {
    (if p.flags % 2 == PROTO_CHILD then EncChildren(d, p, 0) else []) + Framed(d, p)
  }

  /** The children among the constants from the i-th one on. */
  function EncChildren(d: Dumper, p: Proto, i: nat): seq<Byte>
    requires i <= |p.kgc|
    decreases p, |p.kgc| - i
  {
    if i == |p.kgc| then []
    else EncChildren(d, p, i + 1) + (if p.kgc[i].Child? then EncTree(d, p.kgc[i].pt) else [])
  }

  function Flags(d: Dumper, p: Proto): Byte {
    (if d.strip then BCDUMP_F_STRIP else 0) + (if d.host.be then BCDUMP_F_BE else 0)
    + (if p.flags / PROTO_FFI % 2 == 1 then BCDUMP_F_FFI else 0) + (if d.host.fr2 then BCDUMP_F_FR2 else 0)
  }

  /** `bcwrite_header` */
  function Header(d: Dumper, p: Proto, name: seq<Byte>): seq<Byte> {
    [BCDUMP_HEAD1, BCDUMP_HEAD2, BCDUMP_HEAD3, BCDUMP_VERSION, Flags(d, p)]
      + (if d.strip then [] else Uleb(|name|) + name)
  }

  /** The dump of a prototype whose chunk has the given name. */
  function Dump(d: Dumper, p: Proto, name: seq<Byte>): seq<Byte> {
    Header(d, p, name) + (EncTree(d, p) + [0])
  }

  // ---- The tree as it is read back.

  function Seen(d: Dumper, p: Proto): Proto
    decreases p, |p.kgc| + 1
  {
    if p.bc == [] then p else Renewed(d.host.dual, d.strip, d.start, p, SeenConsts(d, p, 0))
  }

  /** The constants from the i-th one on. */
  function SeenConsts(d: Dumper, p: Proto, i: nat): (r: seq<Const>)
    requires i <= |p.kgc|
    ensures |r| == |p.kgc| - i
    decreases p, |p.kgc| - i
  {
    if i == |p.kgc| then []
    else [if p.kgc[i].Child? then Child(Seen(d, p.kgc[i].pt)) else Reborn(d.host.dual, p.kgc[i], p)]
         + SeenConsts(d, p, i + 1)
  }

  /** What is read back is the same function. */
  lemma {:induction false} SeenSame(d: Dumper, p: Proto)
    requires TreeOk(d.host.dual, p)
    ensures SameFunction(d.host.dual, d.strip, d.start, p, Seen(d, p))
    decreases p, |p.kgc| + 1
  {
    hide Renewed, ConstOk, SameConst, KnOk, DebugOk;
    SeenConstsSame(d, p, 0);
    RenewedIs(d.host.dual, d.strip, d.start, p, SeenConsts(d, p, 0));
  }

  lemma {:induction false} SeenConstsSame(d: Dumper, p: Proto, i: nat)
    requires TreeOk(d.host.dual, p) && i <= |p.kgc|
    ensures forall k {:trigger SeenConsts(d, p, i)[k]} :: 0 <= k < |p.kgc| - i ==>
              SameConst(d.host.dual, d.strip, d.start, p.kgc[i + k], SeenConsts(d, p, i)[k])
    decreases p, |p.kgc| - i
  {
    hide Seen, Reborn, ConstOk, KnOk, DebugOk;
    if i < |p.kgc| {
      var c := p.kgc[i];
      if c.Child? {
        SeenSame(d, c.pt);
      } else {
        assert ConstOk(d.host.dual, c);
        RebornIs(d.host.dual, d.strip, d.start, c, p);
      }
      SeenConstsSame(d, p, i + 1);
      var cs, rest := SeenConsts(d, p, i), SeenConsts(d, p, i + 1);
      forall k | 0 <= k < |p.kgc| - i
        ensures SameConst(d.host.dual, d.strip, d.start, p.kgc[i + k], cs[k])
      {
        if k > 0 {
          assert cs[k] == rest[k - 1] && p.kgc[i + k] == p.kgc[i + 1 + (k - 1)];
        }
      }
    }
  }

  /** The children from the i-th constant on, the last one first. */
  function Children(d: Dumper, p: Proto, i: nat): seq<Proto>
    requires i <= |p.kgc|
    decreases |p.kgc| - i
  {
    if i == |p.kgc| then []
    else Children(d, p, i + 1) + (if p.kgc[i].Child? then [Seen(d, p.kgc[i].pt)] else [])
  }

  /** With the children on the stack like that, the constants get the right ones. */
  lemma {:induction false} ConstsBack(d: Dumper, p: Proto, i: nat, rest: seq<Byte>, stack: seq<Proto>, floor: nat)
    requires ProtoOk(d.host.dual, p) && i <= |p.kgc| && floor <= |stack|
    ensures ReadConsts(d.host.dual, EncConsts(d.host.dual, p.kgc[i..]) + rest, |p.kgc| - i, stack + Children(d, p, i),
                       floor)
            == Done((SeenConsts(d, p, i), stack), rest)
    decreases |p.kgc| - i
  {
    hide EncConst, ReadConst, ConstOk, Seen, KnOk, DebugOk;
    if i < |p.kgc| {
      var dual, c, less := d.host.dual, p.kgc[i], stack + Children(d, p, i + 1);
      var e, es := EncConst(dual, c), EncConsts(dual, p.kgc[i + 1..]);
      assert p.kgc[i..][0] == c && p.kgc[i..][1..] == p.kgc[i + 1..];
      Assoc(e, es, rest);
      var child := if c.Child? then Seen(d, c.pt) else p;
      assert c.Child? ==> stack + Children(d, p, i) == less + [child];
      assert !c.Child? ==> stack + Children(d, p, i) == less;
      assert ConstOk(dual, c);
      ConstBack(dual, c, es + rest, less, floor, child);
      ConstsBack(d, p, i + 1, rest, stack, floor);
    } else {
      assert p.kgc[i..] == [] && EncConsts(d.host.dual, []) + rest == rest;
      assert stack + Children(d, p, i) == stack;
    }
  }

  lemma OneBack(d: Dumper, p: Proto, rest: seq<Byte>, stack: seq<Proto>, floor: nat)
    requires ProtoOk(d.host.dual, p) && floor <= |stack|
    ensures ReadProto(d.host.be, d.host.dual, d.strip, BodyOf(d, p) + rest, stack + Children(d, p, 0), floor)
            == Done((Seen(d, p), stack), rest)
  {
    hide ReadProto, Body, Renewed, Tail, EncConsts, ReadConsts, ConstOk, DebugOk;
    assert forall i :: 0 <= i < |p.kn| ==> KnOk(d.host.dual, p.kn[i]);
    var be, dual := d.host.be, d.host.dual;
    ConstsBack(d, p, 0, Tail(be, dual, d.strip, p) + rest, stack, floor);
    assert p.kgc[0..] == p.kgc;
    ProtoBack(be, dual, d.strip, d.start, p, rest, stack + Children(d, p, 0), floor, (SeenConsts(d, p, 0), stack));
  }

  // ---- The input of the reader.

  /** The bytes at hand, what the reader function will give, and whether its end has been seen. */
  datatype Input = Input(win: seq<Byte>, chunks: seq<seq<Byte>>, eof: bool)

  function Joined(chunks: seq<seq<Byte>>): seq<Byte> {
    if chunks == [] then [] else chunks[0] + Joined(chunks[1..])
  }

  function Stream(st: Input): seq<Byte> {
    st.win + Joined(st.chunks)
  }

  datatype Refill = Refused | Refilled(st: Input)

  /** The loop of `bcread_fill`; an empty chunk is the end. */
  function Fill(st: Input, len: nat, need: bool): (r: Refill)
    ensures r.Refilled? && need ==> |r.st.win| >= len
    decreases |st.chunks|
  {
    if st.chunks == [] || st.chunks[0] == [] then
      if need then Refused else Refilled(st.(eof := true))
    else if |st.chunks[0]| >= LJ_MAX_BUF - |st.win| then Refused
    else
      var st' := st.(win := st.win + st.chunks[0], chunks := st.chunks[1..]);
      if |st'.win| < len then Fill(st', len, need) else Refilled(st')
  }

  /** `bcread_need` and `bcread_want` */
  function Want(st: Input, len: nat, need: bool): (r: Refill)
    ensures r.Refilled? && need ==> |r.st.win| >= len
  {
    if |st.win| >= len then Refilled(st)
    else if len > LJ_MAX_BUF || st.eof then Refused
    else Fill(st, len, need)
  }

  /** No bytes get lost or are made up. */
  lemma {:induction false} FillKeeps(st: Input, len: nat, need: bool)
    requires Fill(st, len, need).Refilled?
    ensures Stream(Fill(st, len, need).st) == Stream(st) && |Fill(st, len, need).st.win| >= |st.win|
    ensures (st.eof ==> Fill(st, len, need).st.eof) && |Fill(st, len, need).st.chunks| <= |st.chunks|
    decreases |st.chunks|
  {
    if st.chunks == [] || st.chunks[0] == [] {
    } else {
      var st' := st.(win := st.win + st.chunks[0], chunks := st.chunks[1..]);
      Assoc(st.win, st.chunks[0], Joined(st.chunks[1..]));
      if |st'.win| < len {
        FillKeeps(st', len, need);
      }
    }
  }

  lemma WantKeeps(st: Input, len: nat, need: bool)
    requires Want(st, len, need).Refilled?
    ensures Stream(Want(st, len, need).st) == Stream(st) && |Want(st, len, need).st.win| >= |st.win|
  {
    hide Fill, Stream;
    if |st.win| < len {
      FillKeeps(st, len, need);
    }
  }

  /** Input that is not empty where it goes on, and of which no piece is too large for the buffer when up to m
      bytes are asked for, or it is small enough as a whole. */
  ghost predicate Steady(st: Input, m: nat) {
    && (forall i {:trigger st.chunks[i]} :: 0 <= i < |st.chunks| ==> st.chunks[i] != [])
    && 13 <= m <= LJ_MAX_BUF && (st.eof ==> st.chunks == [])
    && (|Stream(st)| < LJ_MAX_BUF
        || forall i {:trigger st.chunks[i]} :: 0 <= i < |st.chunks| ==> |st.chunks[i]| + m <= LJ_MAX_BUF)
  }

  /** No part of the dump of a tree that is read at once is larger than m. */
  ghost predicate TreeFits(d: Dumper, p: Proto, m: nat) {
    && |BodyOf(d, p)| <= m && |BodyOf(d, p)| < LJ_MAX_BUF
    && forall i {:trigger p.kgc[i]} :: 0 <= i < |p.kgc| && p.kgc[i].Child? ==> TreeFits(d, p.kgc[i].pt, m)
  }

  /** A dump that fits the buffer as a whole has no larger part. */
  lemma {:induction false} SmallFits(d: Dumper, p: Proto, m: nat)
    requires TreeOk(d.host.dual, p) && |EncTree(d, p)| <= m < LJ_MAX_BUF
    ensures TreeFits(d, p, m)
    decreases p, |p.kgc| + 1
  {
    hide BodyOf, ConstOk;
    if p.flags % 2 == PROTO_CHILD {
      SmallChildren(d, p, 0, m);
    } else {
      forall i | 0 <= i < |p.kgc|
        ensures !p.kgc[i].Child?
      {
        assert TreeOk(d.host.dual, p);
      }
    }
  }

  lemma {:induction false} SmallChildren(d: Dumper, p: Proto, i: nat, m: nat)
    requires i <= |p.kgc| && TreeOk(d.host.dual, p) && |EncChildren(d, p, i)| <= m < LJ_MAX_BUF
    ensures forall j {:trigger p.kgc[j]} :: i <= j < |p.kgc| && p.kgc[j].Child? ==> TreeFits(d, p.kgc[j].pt, m)
    decreases p, |p.kgc| - i
  {
    hide BodyOf, ConstOk;
    if i < |p.kgc| {
      SmallChildren(d, p, i + 1, m);
      if p.kgc[i].Child? {
        SmallFits(d, p.kgc[i].pt, m);
      }
    }
  }

  /** Then as many bytes are at hand as were asked for, or all there are. */
  lemma {:induction false} FillSteady(st: Input, m: nat, len: nat, need: bool)
    requires Steady(st, m) && len <= m && (need ==> |Stream(st)| >= len) && |st.win| < len
    ensures Fill(st, len, need).Refilled? && Steady(Fill(st, len, need).st, m)
    ensures var w := Fill(st, len, need).st.win; |w| >= len || w == Stream(st)
    ensures |Stream(st)| >= len ==> Fill(st, len, need).st.eof == st.eof
    decreases |st.chunks|
  {
    if st.chunks == [] {
      assert Stream(st) == st.win;
    } else {
      var st' := st.(win := st.win + st.chunks[0], chunks := st.chunks[1..]);
      Assoc(st.win, st.chunks[0], Joined(st.chunks[1..]));
      assert forall i :: 0 <= i < |st'.chunks| ==> st'.chunks[i] == st.chunks[i + 1];
      assert st.chunks[0] != [];
      if |st'.win| < len {
        FillSteady(st', m, len, need);
      }
    }
  }

  lemma WantSteady(st: Input, m: nat, len: nat, need: bool)
    requires Steady(st, m) && !st.eof && len <= m && (need ==> |Stream(st)| >= len)
    ensures Want(st, len, need).Refilled? && Steady(Want(st, len, need).st, m)
    ensures var w := Want(st, len, need).st.win; |w| >= len || w == Stream(st)
    ensures |Stream(st)| >= len ==> !Want(st, len, need).st.eof
  {
    hide Fill, Stream;
    if |st.win| < len {
      FillSteady(st, m, len, need);
    }
  }

  // ---- Reading prototypes until the end of the dump.

  datatype Looped = BadDump | Ended(st: Input, stack: seq<Proto>)

  /** The loop of `lj_bcread`, for a dump in the given byte order. */
  function Loop(be: bool, dual: bool, strip: bool, st: Input, stack: seq<Proto>, floor: nat): Looped
    decreases |Stream(st)|
  {
    if st.win != [] && st.win[0] == 0 then Ended(st.(win := st.win[1..]), stack)  // Shortcut EOF.
    else
      match Want(st, 5, false)
      case Refused => BadDump
      case Refilled(st1) =>
        match ReadUleb(st1.win)
        case Bad => BadDump
        case Done(len, r) =>
          if len == 0 then Ended(st1.(win := r), stack)
          else
            match Want(st1.(win := r), len, true)
            case Refused => BadDump
            case Refilled(st2) =>
              match ReadProto(be, dual, strip, st2.win, stack, floor)
              case Bad => BadDump
              case Done(got, r') =>
                if |r'| + len != |st2.win| then BadDump
                else
                  WantKeeps(st, 5, false);
                  WantKeeps(st1.(win := r), len, true);
                  Loop(be, dual, strip, st2.(win := r'), got.1 + [got.0], floor)
  }

  lemma Prefix(st: Input, a: seq<Byte>, b: seq<Byte>)
    requires Stream(st) == a + b && |st.win| >= |a|
    ensures st.win == a + st.win[|a|..] && Stream(st.(win := st.win[|a|..])) == b
  {
    var j := Joined(st.chunks);
    assert st.win == (st.win + j)[..|st.win|];
    assert st.win[..|a|] == (a + b)[..|a|] == a;
    assert st.win[|a|..] + j == (st.win + j)[|a|..] == (a + b)[|a|..] == b;
  }

  lemma SizeNotZero(n: nat)
    ensures Uleb(n)[0] == 0 <==> n == 0
  {
  }

  lemma BodySize(d: Dumper, p: Proto)
    requires ProtoOk(d.host.dual, p)
    ensures Writable(p) && |BodyOf(d, p)| >= 7
  {
    hide EncUnits, EncConsts, Tail, Code, ConstOk, DebugOk, DebugHead;
    assert forall i :: 0 <= i < |p.kn| ==> KnOk(d.host.dual, p.kn[i]);
    assert |Sizes(p)| >= 3;
  }

  /** The size in front of a prototype, and what is at hand then. */
  lemma SizeRead(d: Dumper, p: Proto, m: nat, st: Input, rest: seq<Byte>) returns (st1: Input)
    requires ProtoOk(d.host.dual, p) && |BodyOf(d, p)| <= m && |BodyOf(d, p)| < LJ_MAX_BUF
    requires Steady(st, m) && !st.eof && Stream(st) == Framed(d, p) + rest
    ensures st.win == [] || st.win[0] != 0
    ensures Want(st, 5, false).Refilled?
    ensures var n := |BodyOf(d, p)|;
            0 < n < LJ_MAX_BUF && ReadUleb(Want(st, 5, false).st.win) == Done(n, st1.win)
    ensures st1 == Want(st, 5, false).st.(win := st1.win) && Steady(st1, m) && !st1.eof
    ensures Stream(st1) == BodyOf(d, p) + rest
  {
    hide Uleb, ReadUleb, Want, BodyOf;
    BodySize(d, p);
    var b := BodyOf(d, p);
    var u := Uleb(|b|);
    Assoc(u, b, rest);
    SizeNotZero(|b|);
    FirstByte(st, u, b + rest);
    WantSteady(st, m, 5, false);
    WantKeeps(st, 5, false);
    var w := Want(st, 5, false).st;
    UlebShort(|b|);
    Prefix(w, u, b + rest);
    ReadBack(|b|, w.win[|u|..]);
    st1 := w.(win := w.win[|u|..]);
  }

  lemma FirstByte(st: Input, a: seq<Byte>, b: seq<Byte>)
    requires Stream(st) == a + b && a != []
    ensures st.win == [] || st.win[0] == a[0]
  {
    assert st.win != [] ==> Stream(st)[0] == st.win[0];
  }

  /** One prototype, with its children on the stack. */
  lemma OneTurn(d: Dumper, p: Proto, m: nat, st: Input, rest: seq<Byte>, stack: seq<Proto>, floor: nat)
    returns (st': Input)
    requires ProtoOk(d.host.dual, p) && |BodyOf(d, p)| <= m && |BodyOf(d, p)| < LJ_MAX_BUF
    requires Steady(st, m) && !st.eof && Stream(st) == Framed(d, p) + rest && floor <= |stack|
    ensures Steady(st', m) && !st'.eof && Stream(st') == rest
    ensures Loop(d.host.be, d.host.dual, d.strip, st, stack + Children(d, p, 0), floor)
            == Loop(d.host.be, d.host.dual, d.strip, st', stack + [Seen(d, p)], floor)
  {
    hide Uleb, ReadUleb, Want, BodyOf, ReadProto, Children, Seen, ProtoOk, Stream;
    var st1 := SizeRead(d, p, m, st, rest);
    var b := BodyOf(d, p);
    StreamSize(st1, b, rest);
    WantSteady(st1, m, |b|, true);
    WantKeeps(st1, |b|, true);
    var st2 := Want(st1, |b|, true).st;
    Prefix(st2, b, rest);
    var r := st2.win[|b|..];
    OneBack(d, p, r, stack, floor);
    st' := st2.(win := r);
    StreamSize(st2, b, rest);
    var w := Want(st, 5, false).st;
    assert w.(win := st1.win) == st1;
  }

  lemma StreamSize(st: Input, a: seq<Byte>, b: seq<Byte>)
    requires Stream(st) == a + b
    ensures |Stream(st)| == |a| + |b|
  {
  }

  /** A whole tree: the loop goes on behind it with its root on the stack. */
  lemma {:induction false} TreeTurns(d: Dumper, p: Proto, m: nat, st: Input, rest: seq<Byte>, stack: seq<Proto>,
                                     floor: nat)
    returns (st': Input)
    requires TreeOk(d.host.dual, p) && TreeFits(d, p, m) && Steady(st, m) && !st.eof
    requires Stream(st) == EncTree(d, p) + rest && floor <= |stack|
    ensures Steady(st', m) && !st'.eof && Stream(st') == rest
    ensures Loop(d.host.be, d.host.dual, d.strip, st, stack, floor)
            == Loop(d.host.be, d.host.dual, d.strip, st', stack + [Seen(d, p)], floor)
    decreases p, |p.kgc| + 1
  {
    hide Loop, Framed, Stream, ProtoOk, Seen, Steady, BodyOf, Children, EncChildren, Writable;
    if p.flags % 2 == PROTO_CHILD {
      Assoc(EncChildren(d, p, 0), Framed(d, p), rest);
      var st1 := ChildrenTurns(d, p, 0, m, st, Framed(d, p) + rest, stack, floor);
      st' := OneTurn(d, p, m, st1, rest, stack, floor);
    } else {
      NoChildren(d, p, 0);
      assert stack + Children(d, p, 0) == stack;
      assert [] + Framed(d, p) == Framed(d, p);
      st' := OneTurn(d, p, m, st, rest, stack, floor);
    }
  }

  lemma {:induction false} NoChildren(d: Dumper, p: Proto, i: nat)
    requires i <= |p.kgc| && ProtoOk(d.host.dual, p) && p.flags % 2 != PROTO_CHILD
    ensures Children(d, p, i) == []
    decreases |p.kgc| - i
  {
    if i < |p.kgc| {
      assert ConstOk(d.host.dual, p.kgc[i]);
      NoChildren(d, p, i + 1);
    }
  }

  lemma {:induction false} ChildrenTurns(d: Dumper, p: Proto, i: nat, m: nat, st: Input, rest: seq<Byte>,
                                         stack: seq<Proto>,
                                         floor: nat) returns (st': Input)
    requires i <= |p.kgc| && TreeOk(d.host.dual, p) && TreeFits(d, p, m) && Steady(st, m) && !st.eof && floor <= |stack|
    requires Stream(st) == EncChildren(d, p, i) + rest
    ensures Steady(st', m) && !st'.eof && Stream(st') == rest
    ensures Loop(d.host.be, d.host.dual, d.strip, st, stack, floor)
            == Loop(d.host.be, d.host.dual, d.strip, st', stack + Children(d, p, i), floor)
    decreases p, |p.kgc| - i
  {
    hide Loop, Stream, ProtoOk, Seen, Steady, EncTree;
    if i == |p.kgc| {
      assert EncChildren(d, p, i) + rest == rest && stack + Children(d, p, i) == stack;
      st' := st;
    } else if p.kgc[i].Child? {
      var c := p.kgc[i].pt;
      Assoc(EncChildren(d, p, i + 1), EncTree(d, c), rest);
      var st1 := ChildrenTurns(d, p, i + 1, m, st, EncTree(d, c) + rest, stack, floor);
      var less := stack + Children(d, p, i + 1);
      st' := TreeTurns(d, c, m, st1, rest, less, floor);
      assert less + [Seen(d, c)] == stack + Children(d, p, i);
    } else {
      assert EncChildren(d, p, i) == EncChildren(d, p, i + 1) && Children(d, p, i) == Children(d, p, i + 1);
      st' := ChildrenTurns(d, p, i + 1, m, st, rest, stack, floor);
    }
  }

  // ---- The whole dump.

  datatype Checked = BadHeader | Checked(flags: Word, name: seq<Byte>, st: Input)

  /** `bcread_header`, behind the first byte; `arg` is the name that the caller gave. */
  function ReadHeader(host: Host, arg: seq<Byte>, st: Input): Checked {
    match Want(st, 3 + 5 + 5, false)
    case Refused => BadHeader
    case Refilled(st1) =>
      var w := st1.win;
      if |w| < 3 || w[0] != BCDUMP_HEAD2 || w[1] != BCDUMP_HEAD3 || w[2] != BCDUMP_VERSION then BadHeader
      else
        match ReadUleb(w[3..])
        case Bad => BadHeader
        case Done(flags, r) =>
          if flags / (2 * BCDUMP_F_FR2) != 0 || (flags / BCDUMP_F_FR2 % 2 == 1) != host.fr2 then BadHeader
          else if flags / BCDUMP_F_STRIP % 2 == 1 then Checked(flags, arg, st1.(win := r))
          else
            match ReadUleb(r)
            case Bad => BadHeader
            case Done(len, r') =>
              match Want(st1.(win := r'), len, true)
              case Refused => BadHeader
              case Refilled(st2) => Checked(flags, st2.win[..len], st2.(win := st2.win[len..]))
  }

  datatype Loaded = Rejected | Loaded(pt: Proto, name: seq<Byte>, st: Input)

  /** `lj_bcread`, behind the first byte. Without the end mark of a lexer, nothing may be at hand behind the dump. */
  function ReadDump(host: Host, arg: seq<Byte>, st: Input, endmark: bool, stack: seq<Proto>): Loaded {
    match ReadHeader(host, arg, st)
    case BadHeader => Rejected
    case Checked(flags, name, st1) =>
      match Loop(flags % 2 == BCDUMP_F_BE, host.dual, flags / BCDUMP_F_STRIP % 2 == 1, st1, stack, |stack|)
      case BadDump => Rejected
      case Ended(st2, stack') =>
        if (st2.win != [] && !endmark) || |stack'| != |stack| + 1 then Rejected
        else Loaded(stack'[|stack|], name, st2)
  }

  lemma FlagBits(d: Dumper, p: Proto)
    ensures var f := Flags(d, p);
            && f / (2 * BCDUMP_F_FR2) == 0 && (f / BCDUMP_F_FR2 % 2 == 1) == d.host.fr2
            && (f / BCDUMP_F_STRIP % 2 == 1) == d.strip && (f % 2 == BCDUMP_F_BE) == d.host.be && f < 128
  {
  }

  /** The header, taken apart. */
  lemma HeaderParts(d: Dumper, p: Proto, name: seq<Byte>, rest: seq<Byte>)
    ensures var tail := if d.strip then rest else Uleb(|name|) + (name + rest);
            (Header(d, p, name) + rest)[1..] == [BCDUMP_HEAD2, BCDUMP_HEAD3, BCDUMP_VERSION] + ([Flags(d, p)] + tail)
  {
    hide Uleb, Flags;
    var h, u := [BCDUMP_HEAD1, BCDUMP_HEAD2, BCDUMP_HEAD3, BCDUMP_VERSION, Flags(d, p)], Uleb(|name|);
    if d.strip {
      assert h + [] == h;
    } else {
      Assoc(h, u + name, rest);
      Assoc(u, name, rest);
    }
    Magic(Flags(d, p), if d.strip then rest else u + (name + rest));
  }

  lemma Magic(f: Byte, tail: seq<Byte>)
    ensures ([BCDUMP_HEAD1, BCDUMP_HEAD2, BCDUMP_HEAD3, BCDUMP_VERSION, f] + tail)[1..]
            == [BCDUMP_HEAD2, BCDUMP_HEAD3, BCDUMP_VERSION] + ([f] + tail)
  {
  }

  lemma TreeSize(d: Dumper, p: Proto)
    requires ProtoOk(d.host.dual, p)
    ensures |EncTree(d, p)| >= 8
  {
    BodySize(d, p);
  }

  lemma HeaderBack(d: Dumper, host: Host, p: Proto, name: seq<Byte>, arg: seq<Byte>, m: nat, st: Input, rest: seq<Byte>)
    returns (st': Input)
    requires host.fr2 == d.host.fr2 && (d.strip || |name| <= m) && Steady(st, m) && !st.eof && |rest| >= 9
    requires Stream(st) == (Header(d, p, name) + rest)[1..]
    ensures ReadHeader(host, arg, st) == Checked(Flags(d, p), if d.strip then arg else name, st')
    ensures Steady(st', m) && !st'.eof && Stream(st') == rest
  {
    assert 13 <= m;
    hide Uleb, ReadUleb, Want, Flags, Stream, Header, Steady, ReadHeader;
    var h, f := [BCDUMP_HEAD2, BCDUMP_HEAD3, BCDUMP_VERSION], Flags(d, p);
    var tail := if d.strip then rest else Uleb(|name|) + (name + rest);
    HeaderParts(d, p, name, rest);
    StreamSize(st, h, [f] + tail);
    NameSize(d.strip, name, rest);
    WantSteady(st, m, 13, false);
    WantKeeps(st, 13, false);
    var st1 := Want(st, 13, false).st;
    FlagBits(d, p);
    var st2 := FlagsBack(m, st1, h, f, tail);
    HeaderRead(host, arg, st, f, st2.win);
    st' := st2;
    if !d.strip {
      st' := NameBack(m, st2, name, rest);
    }
  }

  lemma HeaderRead(host: Host, arg: seq<Byte>, st: Input, f: Byte, r: seq<Byte>)
    requires var w := Want(st, 13, false);
             && w.Refilled? && |w.st.win| >= 3 && w.st.win[..3] == [BCDUMP_HEAD2, BCDUMP_HEAD3, BCDUMP_VERSION]
             && ReadUleb(w.st.win[3..]) == Leb.Done(f, r)
    requires f / (2 * BCDUMP_F_FR2) == 0 && (f / BCDUMP_F_FR2 % 2 == 1) == host.fr2
    ensures ReadHeader(host, arg, st) ==
            if f / BCDUMP_F_STRIP % 2 == 1 then Checked(f, arg, Want(st, 13, false).st.(win := r))
            else
              match ReadUleb(r)
              case Bad => BadHeader
              case Done(len, r') =>
                match Want(Want(st, 13, false).st.(win := r'), len, true)
                case Refused => BadHeader
                case Refilled(st2) => Checked(f, st2.win[..len], st2.(win := st2.win[len..]))
  {
    hide ReadUleb, Want;
    var w := Want(st, 13, false).st.win;
    assert w[0] == w[..3][0] && w[1] == w[..3][1] && w[2] == w[..3][2];
  }

  lemma FlagsBack(m: nat, st: Input, h: seq<Byte>, f: Byte, tail: seq<Byte>) returns (st': Input)
    requires Steady(st, m) && !st.eof && Stream(st) == h + ([f] + tail) && f < 128
    requires |h| == 3 && |tail| >= 9 && (|st.win| >= 13 || st.win == Stream(st))
    ensures |st.win| >= 3 && st.win[..3] == h && ReadUleb(st.win[3..]) == Leb.Done(f, st'.win)
    ensures st' == st.(win := st'.win) && Steady(st', m) && Stream(st') == tail
    ensures |st'.win| >= 9 || st'.win == tail
  {
    hide Uleb, ReadUleb, Stream;
    StreamSize(st, h, [f] + tail);
    Prefix(st, h, [f] + tail);
    var st1 := st.(win := st.win[3..]);
    Prefix(st1, [f], tail);
    st' := st1.(win := st1.win[1..]);
    ByteIsUleb(f);
    ReadBack(f, st'.win);
    assert st1.win == [f] + st'.win;
  }

  lemma NameSize(strip: bool, name: seq<Byte>, rest: seq<Byte>)
    requires |rest| >= 9
    ensures |(if strip then rest else Uleb(|name|) + (name + rest))| >= 9
  {
  }

  lemma NameBack(m: nat, st: Input, name: seq<Byte>, rest: seq<Byte>) returns (st': Input)
    requires |name| <= m && Steady(st, m) && !st.eof && Stream(st) == Uleb(|name|) + (name + rest)
    requires |st.win| >= 9 || st.win == Stream(st)
    ensures ReadUleb(st.win).Done? && ReadUleb(st.win).value == |name|
    ensures var w := Want(st.(win := ReadUleb(st.win).rest), |name|, true);
            w.Refilled? && w.st.win[..|name|] == name && st' == w.st.(win := w.st.win[|name|..])
    ensures Steady(st', m) && !st'.eof && Stream(st') == rest
  {
    hide Uleb, ReadUleb, Want, Stream;
    var u := Uleb(|name|);
    StreamSize(st, u, name + rest);
    UlebShort(|name|);
    Prefix(st, u, name + rest);
    var st1 := st.(win := st.win[|u|..]);
    ReadBack(|name|, st1.win);
    StreamSize(st1, name, rest);
    WantSteady(st1, m, |name|, true);
    WantKeeps(st1, |name|, true);
    var w := Want(st1, |name|, true).st;
    Prefix(w, name, rest);
    assert w.win[..|name|] == name;
    st' := w.(win := w.win[|name|..]);
    StreamSize(w, name, rest);
  }

  lemma LastTurn(be: bool, dual: bool, strip: bool, m: nat, st: Input, more: seq<Byte>, stack: seq<Proto>, floor: nat)
    requires Steady(st, m) && !st.eof && Stream(st) == [0] + more
    ensures var l := Loop(be, dual, strip, st, stack, floor);
            l.Ended? && l.stack == stack && Stream(l.st) == more
  {
    hide ReadProto, Uleb, Want, Stream;
    FirstByte(st, [0], more);
    StreamSize(st, [0], more);
    if st.win != [] {
      Prefix(st, [0], more);
    } else {
      WantSteady(st, m, 5, false);
      WantKeeps(st, 5, false);
      var w := Want(st, 5, false).st;
      Prefix(w, [0], more);
      ByteIsUleb(0);
      ReadBack(0, w.win[1..]);
    }
  }

  /** The round trip: reading what was written gives the same tree again, in either byte order of the writer,
      with any prototypes on the stack, and however the reader function cuts the dump. */
  lemma DumpBack(d: Dumper, host: Host, p: Proto, name: seq<Byte>, arg: seq<Byte>, m: nat, st: Input, more: seq<Byte>,
                 endmark: bool, stack: seq<Proto>)
    requires TreeOk(host.dual, p) && host.dual == d.host.dual && host.fr2 == d.host.fr2
    requires TreeFits(d, p, m) && (d.strip || |name| <= m)
    requires Steady(st, m) && !st.eof && Stream(st) == Dump(d, p, name)[1..] + more && (more == [] || endmark)
    ensures var l := ReadDump(host, arg, st, endmark, stack);
            && l.Loaded? && l.pt == Seen(d, p) && l.name == (if d.strip then arg else name) && Stream(l.st) == more
            && SameFunction(host.dual, d.strip, d.start, p, l.pt)
  {
    hide Loop, ReadHeader, Header, EncTree, Stream, ProtoOk, Seen, Flags, Steady, SameFunction;
    SeenSame(d, p);
    var e := EncTree(d, p);
    TreeSize(d, p);
    DumpParts(d, p, name, more);
    var st1 := HeaderBack(d, host, p, name, arg, m, st, e + ([0] + more));
    FlagBits(d, p);
    var st2 := TreeTurns(d, p, m, st1, [0] + more, stack, |stack|);
    LastTurn(d.host.be, host.dual, d.strip, m, st2, more, stack + [Seen(d, p)], |stack|);
    var l := Loop(d.host.be, host.dual, d.strip, st2, stack + [Seen(d, p)], |stack|);
    AtHand(l.st, more);
  }

  lemma AtHand(st: Input, more: seq<Byte>)
    requires Stream(st) == more
    ensures more == [] ==> st.win == []
  {
    assert |Stream(st)| >= |st.win|;
  }

  lemma DumpParts(d: Dumper, p: Proto, name: seq<Byte>, more: seq<Byte>)
    ensures Dump(d, p, name)[1..] + more == (Header(d, p, name) + (EncTree(d, p) + ([0] + more)))[1..]
  {
    hide EncTree, Flags;
    var h, e := Header(d, p, name), EncTree(d, p);
    Assoc(e, [0], more);
    Assoc(h, e + [0], more);
    assert |h| >= 1;
    assert (h + (e + [0]))[1..] + more == ((h + (e + [0])) + more)[1..];
  }
}
