/** The bytecode reader (`lj_bcread.c`). */
module BcRead {
  import opened Leb
  import opened BcTypes
  import opened BcTable
  import opened BcProto
  import opened BcSame
  import opened BcTree

  function Append<T>(acc: seq<T>, x: Parsed<seq<T>>): Parsed<seq<T>> {
    match x
    case Bad => Bad
    case Done(ts, r) => Done(acc + ts, r)
  }

  function AppendConsts(acc: seq<Const>, x: Parsed<(seq<Const>, seq<Proto>)>): Parsed<(seq<Const>, seq<Proto>)> {
    match x
    case Bad => Bad
    case Done(c, r) => Done((acc + c.0, c.1), r)
  }

  lemma AppendNone<T>(x: Parsed<seq<T>>)
    ensures Append([], x) == x
  {
    if x.Done? {
      assert [] + x.value == x.value;
    }
  }

  lemma AppendOne<T>(acc: seq<T>, t: T, x: Parsed<seq<T>>)
    ensures Append(acc, Append([t], x)) == Append(acc + [t], x)
  {
    if x.Done? {
      assert acc + ([t] + x.value) == acc + [t] + x.value;
    }
  }

  lemma AppendEnd<T>(acc: seq<T>, b: seq<Byte>)
    ensures Append(acc, Done([], b)) == Done(acc, b)
  {
    assert acc + [] == acc;
  }

  lemma NextArray(dual: bool, b: seq<Byte>, n: nat)
    requires n > 0
    ensures ReadArray(dual, b, n) ==
            match ReadTV(dual, b) { case Bad => Bad case Done(o, r) => Append([o], ReadArray(dual, r, n - 1)) }
  {
  }

  lemma NextKns(dual: bool, b: seq<Byte>, n: nat)
    requires n > 0
    ensures ReadKns(dual, b, n) ==
            match ReadKn(dual, b) { case Bad => Bad case Done(o, r) => Append([o], ReadKns(dual, r, n - 1)) }
  {
  }

  lemma NextConsts(dual: bool, b: seq<Byte>, n: nat, stack: seq<Proto>, floor: nat)
    requires n > 0
    ensures ReadConsts(dual, b, n, stack, floor) ==
            match ReadConst(dual, b, stack, floor) {
              case Bad => Bad
              case Done(c, r) => AppendConsts([c.0], ReadConsts(dual, r, n - 1, c.1, floor))
            }
  {
  }

  lemma AppendConst(acc: seq<Const>, c: Const, x: Parsed<(seq<Const>, seq<Proto>)>)
    ensures AppendConsts(acc, AppendConsts([c], x)) == AppendConsts(acc + [c], x)
  {
    if x.Done? {
      assert acc + ([c] + x.value.0) == acc + [c] + x.value.0;
    }
  }

  lemma AppendConstsEnds(acc: seq<Const>, stack: seq<Proto>, b: seq<Byte>, x: Parsed<(seq<Const>, seq<Proto>)>)
    ensures AppendConsts(acc, Done(([], stack), b)) == Done((acc, stack), b) && AppendConsts([], x) == x
  {
    assert acc + [] == acc;
    if x.Done? {
      assert [] + x.value.0 == x.value.0;
    }
  }

  class LexState {
    const host: Host
    const chunkarg: seq<Byte>
    const endmark: bool
    var win: seq<Byte>  // the bytes from ls->p to ls->pe
    var chunks: seq<seq<Byte>>  // what the reader function will give
    var eof: bool  // ls->c < 0
    var flags: Word
    var chunkname: seq<Byte>
    var stack: seq<Proto>  // the Lua stack
    var oldtop: nat

    constructor (host: Host, chunkarg: seq<Byte>, endmark: bool, chunks: seq<seq<Byte>>, stack: seq<Proto>)
      ensures this.host == host && this.chunkarg == chunkarg && this.endmark == endmark && this.stack == stack
      ensures In() == Input([], chunks, false)
    {
      this.host, this.chunkarg, this.endmark, this.stack := host, chunkarg, endmark, stack;
      win, this.chunks, eof, flags, chunkname, oldtop := [], chunks, false, 0, [], |stack|;
    }

    ghost function In(): Input
      reads this
    {
      Input(win, chunks, eof)
    }

    // ---- The input.

    /** `bcread_fill` */
    method BcFill(len: nat, need: bool) returns (ok: bool)
      requires |win| < len
      modifies this`win, this`chunks, this`eof
      ensures ok == Want(old(In()), len, need).Refilled? && (ok ==> In() == Want(old(In()), len, need).st)
    {
      ok := false;
      if len > LJ_MAX_BUF || eof {
        return;
      }
      var more := true;
      while more
        invariant more ==> Fill(In(), len, need) == Fill(old(In()), len, need)
        invariant !more ==> Fill(old(In()), len, need) == Refilled(In())
        decreases |chunks|, more
      {
        if chunks == [] || chunks[0] == [] {  // EOF?
          if need {
            return;
          }
          eof := true;  // Only bad if we get called again.
          more := false;
        } else {
          var buf := chunks[0];
          if |buf| >= LJ_MAX_BUF - |win| {
            return;
          }
          win, chunks := win + buf, chunks[1..];
          more := |win| < len;
        }
      }
      ok := true;
    }

    /** `bcread_need` and `bcread_want` */
    method BcWant(len: nat, need: bool) returns (ok: bool)
      modifies this`win, this`chunks, this`eof
      ensures ok == Want(old(In()), len, need).Refilled? && (ok ==> In() == Want(old(In()), len, need).st)
    {
      ok := true;
      if |win| < len {
        ok := BcFill(len, need);
      }
    }

    /** `bcread_mem` */
    method BcMem(len: nat) returns (ok: bool, b: seq<Byte>)
      modifies this`win
      ensures ok == (len <= |old(win)|)
      ensures ok ==> b == old(win)[..len] && win == old(win)[len..]
    {
      ok, b := false, [];
      if len <= |win| {
        ok, b, win := true, win[..len], win[len..];
      }
    }

    /** `bcread_uleb128` */
    method BcUleb() returns (ok: bool, v: Word)
      modifies this`win
      ensures ok == ReadUleb(old(win)).Done? && (ok ==> ReadUleb(old(win)) == Done(v, win))
    {
      var n;
      ok, v, n := RUleb(win);
      if ok {
        win := win[n..];
      }
    }

    /** `bcread_uleb128_33` */
    method BcUleb33() returns (ok: bool, v: Word)
      modifies this`win
      ensures ok == ReadUleb33(old(win)).Done? && (ok ==> ReadUleb33(old(win)) == Done(v, win))
    {
      var n;
      ok, v, n := RUleb33(win);
      if ok {
        win := win[n..];
      }
    }

    // ---- Constants.

    /** `bcread_ktabk` */
    method BcKtabk() returns (ok: bool, o: TV)
      modifies this`win
      ensures ok == ReadTV(host.dual, old(win)).Done? && (ok ==> ReadTV(host.dual, old(win)) == Done(o, win))
    {
      hide ReadUleb, Widen;
      o := Nil;
      var tp;
      ok, tp := BcUleb();
      if !ok {
        return;
      }
      if tp >= BCDUMP_KTAB_STR {
        var s;
        ok, s := BcMem(tp - BCDUMP_KTAB_STR);
        o := Str(s);
      } else if tp == BCDUMP_KTAB_INT {
        var k;
        ok, k := BcUleb();
        o := SetInt(host.dual, k);
      } else if tp == BCDUMP_KTAB_NUM {
        ok, o := BcWords();
      } else {
        o := if tp == BCDUMP_KTAB_NIL then Nil else if tp == BCDUMP_KTAB_FALSE then False else True;
      }
    }

    /** The low and the high word of a number. */
    method BcWords() returns (ok: bool, o: TV)
      modifies this`win
      ensures ok == ReadNum(old(win)).Done? && (ok ==> ReadNum(old(win)) == Done(o, win) && o.Num?)
    {
      hide ReadUleb;
      o := Num(0, 0);
      var lo, hi;
      ok, lo := BcUleb();
      if ok {
        ok, hi := BcUleb();
        o := Num(lo, hi);
      }
    }

    /** `bcread_ktab` */
    method BcKtab() returns (ok: bool, t: Table)
      modifies this`win
      ensures ok == ReadTable(host.dual, old(win)).Done? && (ok ==> ReadTable(host.dual, old(win)) == Done(t, win))
    {
      hide ReadUleb, ReadArray, ReadNodes;
      t := Table([], []);
      var narray, nhash;
      ok, narray := BcUleb();
      if !ok {
        return;
      }
      ok, nhash := BcUleb();
      if !ok {
        return;
      }
      var slots;
      ok, slots := BcArray(narray);
      if ok {
        ok, t := BcNodes(nhash, Table(slots, []));
      }
    }

    method BcArray(n: nat) returns (ok: bool, slots: seq<TV>)
      modifies this`win
      ensures ok == ReadArray(host.dual, old(win), n).Done?
      ensures ok ==> ReadArray(host.dual, old(win), n) == Done(slots, win)
    {
      hide ReadTV;
      slots, ok := [], true;
      AppendNone(ReadArray(host.dual, win, n));
      var i := 0;
      while i < n
        invariant 0 <= i <= n
        invariant ReadArray(host.dual, old(win), n) == Append(slots, ReadArray(host.dual, win, n - i))
      {
        NextArray(host.dual, win, n - i);
        var o;
        ok, o := BcKtabk();
        if !ok {
          return;
        }
        AppendOne(slots, o, ReadArray(host.dual, win, n - i - 1));
        slots := slots + [o];
        i := i + 1;
      }
      ok := true;
      AppendEnd(slots, win);
    }

    method BcNodes(n: nat, t0: Table) returns (ok: bool, t: Table)
      modifies this`win
      ensures ok == ReadNodes(host.dual, old(win), n, t0).Done?
      ensures ok ==> ReadNodes(host.dual, old(win), n, t0) == Done(t, win)
    {
      hide ReadTV, TabSet, IsKey;
      t, ok := t0, true;
      var i := 0;
      while i < n
        invariant 0 <= i <= n
        invariant ReadNodes(host.dual, old(win), n, t0) == ReadNodes(host.dual, win, n - i, t)
      {
        var key, val;
        ok, key := BcKtabk();
        if !ok {
          return;
        }
        if !IsKey(key) {
          ok := false;
          return;
        }
        ok, val := BcKtabk();
        if !ok {
          return;
        }
        t := TabSet(t, key, val);
        i := i + 1;
      }
      ok := true;
    }

    /** `bcread_kgc` */
    method BcKgc(n: nat) returns (ok: bool, kgc: seq<Const>)
      modifies this`win, this`stack
      ensures var r := ReadConsts(host.dual, old(win), n, old(stack), oldtop);
              ok == r.Done? && (ok ==> r == Done((kgc, stack), win))
    {
      hide ReadConst;
      kgc, ok := [], true;
      AppendConstsEnds(kgc, stack, win, ReadConsts(host.dual, win, n, stack, oldtop));
      var i := 0;
      while i < n
        invariant 0 <= i <= n
        invariant ReadConsts(host.dual, old(win), n, old(stack), oldtop)
                  == AppendConsts(kgc, ReadConsts(host.dual, win, n - i, stack, oldtop))
      {
        NextConsts(host.dual, win, n - i, stack, oldtop);
        var c;
        ok, c := BcConst();
        if !ok {
          return;
        }
        AppendConst(kgc, c, ReadConsts(host.dual, win, n - i - 1, stack, oldtop));
        kgc := kgc + [c];
        i := i + 1;
      }
      ok := true;
      AppendConstsEnds(kgc, stack, win, Bad);
    }

    method BcConst() returns (ok: bool, c: Const)
      modifies this`win, this`stack
      ensures var r := ReadConst(host.dual, old(win), old(stack), oldtop);
              ok == r.Done? && (ok ==> r == Done((c, stack), win))
    {
      hide ReadUleb, ReadNum, ReadTable;
      c := KStr([]);
      var tp;
      ok, tp := BcUleb();
      if !ok {
        return;
      }
      if tp >= BCDUMP_KGC_STR {
        var s;
        ok, s := BcMem(tp - BCDUMP_KGC_STR);
        c := KStr(s);
      } else if tp == BCDUMP_KGC_TAB {
        var t;
        ok, t := BcKtab();
        c := KTab(t);
      } else if tp != BCDUMP_KGC_CHILD {
        ok, c := BcCdata(tp);
      } else if |stack| <= oldtop {  // Stack underflow?
        ok := false;
      } else {
        c := Child(stack[|stack| - 1]);
        stack := stack[..|stack| - 1];
      }
    }

    method BcCdata(tp: Word) returns (ok: bool, c: Const)
      modifies this`win
      ensures var r := match ReadNum(old(win)) {
                case Bad => Bad
                case Done(p, r') =>
                  if tp == BCDUMP_KGC_I64 then Done(I64(p.lo, p.hi), r')
                  else if tp == BCDUMP_KGC_U64 then Done(U64(p.lo, p.hi), r')
                  else
                    match ReadNum(r')
                    case Bad => Bad
                    case Done(q, r'') => Done(Complex(p.lo, p.hi, q.lo, q.hi), r'')
              };
              ok == r.Done? && (ok ==> r == Done(c, win))
    {
      hide ReadUleb;
      c := KStr([]);
      var p, q;
      ok, p := BcWords();
      if !ok {
        return;
      }
      if tp == BCDUMP_KGC_I64 {
        c := I64(p.lo, p.hi);
      } else if tp == BCDUMP_KGC_U64 {
        c := U64(p.lo, p.hi);
      } else {
        ok, q := BcWords();
        if ok {
          c := Complex(p.lo, p.hi, q.lo, q.hi);
        }
      }
    }

    /** `bcread_knum` */
    method BcKnum(n: nat) returns (ok: bool, kn: seq<TV>)
      modifies this`win
      ensures ok == ReadKns(host.dual, old(win), n).Done? && (ok ==> ReadKns(host.dual, old(win), n) == Done(kn, win))
    {
      hide ReadKn;
      kn, ok := [], true;
      AppendNone(ReadKns(host.dual, win, n));
      var i := 0;
      while i < n
        invariant 0 <= i <= n
        invariant ReadKns(host.dual, old(win), n) == Append(kn, ReadKns(host.dual, win, n - i))
      {
        NextKns(host.dual, win, n - i);
        var o;
        ok, o := BcKn();
        if !ok {
          return;
        }
        AppendOne(kn, o, ReadKns(host.dual, win, n - i - 1));
        kn := kn + [o];
        i := i + 1;
      }
      ok := true;
      AppendEnd(kn, win);
    }

    method BcKn() returns (ok: bool, o: TV)
      modifies this`win
      ensures ok == ReadKn(host.dual, old(win)).Done? && (ok ==> ReadKn(host.dual, old(win)) == Done(o, win))
    {
      hide ReadUleb, ReadUleb33, Widen;
      o := Nil;
      var isnum := win != [] && win[0] % 2 == 1;
      var lo, hi;
      ok, lo := BcUleb33();
      if !ok {
        return;
      }
      if isnum {
        ok, hi := BcUleb();
        o := Num(lo, hi);
      } else {
        o := SetInt(host.dual, lo);
      }
    }

    // ---- Prototypes.

    /** `bcread_swap` */
    predicate Swaps()
      reads this
    {
      (flags % 2 == BCDUMP_F_BE) != host.be
    }

    /** n units from the bytes b, as `bcread_bytecode`, `bcread_uv` and `bcread_dbg` get them: copied, and
        swapped in place if the endianess differs. */
    method BcUnits(wd: Width, n: nat, b: seq<Byte>) returns (ok: bool, xs: seq<Word>, rest: seq<Byte>)
      ensures var r := ReadUnits(flags % 2 == BCDUMP_F_BE, wd, b, n); ok == r.Done? && (ok ==> r == Done(xs, rest))
    {
      hide Swap, ReadUnits;
      ok, xs, rest := false, [], b;
      UnitsCount(host.be, wd, b, n);
      SwapUnits(!host.be, wd, b, n);
      match ReadUnits(host.be, wd, b, n) {
        case Bad => return;
        case Done(ys, r) =>
          var p := new Word[n](i requires 0 <= i < n => ys[i]);
          assert p[..] == ys;
          if Swaps() {
            SwapAll(p, wd);
          }
          ok, xs, rest := true, p[..], r;
      }
    }

    /** The loop that swaps units in place. */
    method SwapAll(p: array<Word>, wd: Width)
      modifies p
      ensures p[..] == Swapped(wd, old(p[..]))
    {
      hide Swap;
      var i := 0;
      while i < p.Length
        invariant 0 <= i <= p.Length
        invariant forall j {:trigger p[j]} :: 0 <= j < i ==> p[j] == Swap(wd, old(p[j]))
        invariant forall j {:trigger p[j]} :: i <= j < p.Length ==> p[j] == old(p[j])
      {
        p[i] := Swap(wd, p[i]);
        i := i + 1;
      }
    }

    /** `bcread_dbg` */
    method BcDbg(h: Head) returns (ok: bool, dbg: Debug)
      modifies this`win
      ensures var r := ReadDebug(flags % 2 == BCDUMP_F_BE, h, old(win)); ok == r.Done? && (ok ==> r == Done(dbg, win))
    {
      hide ReadUnits;
      ok, dbg := true, NoDebug;
      if h.sizedbg != 0 {
        var b, lines, info;
        ok, b := BcMem(h.sizedbg);
        if ok {
          ok, lines, info := BcUnits(LineWidth(h.numline), h.sizebc, b);
          dbg := Debug(lines, info);
        }
      }
    }

    /** The prototype header. */
    method BcHead() returns (ok: bool, h: Head)
      modifies this`win
      ensures var r := ReadHead(flags / BCDUMP_F_STRIP % 2 == 1, old(win)); ok == r.Done? && (ok ==> r == Done(h, win))
    {
      hide ReadUleb;
      h := Head(0, 0, 0, 0, 0, 0, 0, 0, 0, 0);
      var b, sizekgc, sizekn, sizebc;
      ok, b := BcMem(4);
      if !ok {
        return;
      }
      ok, sizekgc := BcUleb();
      if !ok {
        return;
      }
      ok, sizekn := BcUleb();
      if !ok {
        return;
      }
      ok, sizebc := BcUleb();
      if !ok {
        return;
      }
      var d;
      ok, d := BcDebugHead();
      h := Head(b[0], b[1], b[2], b[3], sizekgc, sizekn, sizebc, d.0, d.1, d.2);
    }

    method BcDebugHead() returns (ok: bool, d: (Word, Word, Word))
      modifies this`win
      ensures var r := ReadDebugHead(flags / BCDUMP_F_STRIP % 2 == 1, old(win));
              ok == r.Done? && (ok ==> r == Done(d, win))
    {
      hide ReadUleb;
      ok, d := true, (0, 0, 0);
      if flags / BCDUMP_F_STRIP % 2 == 1 {
        return;
      }
      var sizedbg, firstline, numline;
      ok, sizedbg := BcUleb();
      if !ok || sizedbg == 0 {
        return;
      }
      ok, firstline := BcUleb();
      if !ok {
        return;
      }
      ok, numline := BcUleb();
      d := (sizedbg, firstline, numline);
    }

    /** `lj_bcread_proto` */
    method BcProto() returns (ok: bool, pt: Proto)
      modifies this`win, this`stack
      ensures var r := ReadProto(flags % 2 == BCDUMP_F_BE, host.dual, flags / BCDUMP_F_STRIP % 2 == 1, old(win),
                                 old(stack), oldtop);
              ok == r.Done? && (ok ==> r == Done((pt, stack), win))
    {
      hide ReadHead, ReadUnits, ReadConsts, ReadKns, ReadDebug;
      pt := Proto(0, 0, 0, [], [], [], [], 0, NoDebug, 0, 0);
      var h, code, uv, kgc, kn, dbg, rest;
      ok, h := BcHead();
      if !ok {
        return;
      }
      ok, code, rest := BcUnits(4, h.sizebc, win);
      if !ok {
        return;
      }
      ok, uv, rest := BcUnits(2, h.sizeuv, rest);
      if !ok {
        return;
      }
      win := rest;
      ok, kgc := BcKgc(h.sizekgc);
      if !ok {
        return;
      }
      ok, kn := BcKnum(h.sizekn);
      if !ok {
        return;
      }
      ok, dbg := BcDbg(h);
      pt := Built(h, code, uv, kgc, kn, dbg);
    }

    // ---- Dumps.

    /** `bcread_header` */
    method BcHeader() returns (ok: bool)
      modifies this`win, this`chunks, this`eof, this`flags, this`chunkname
      ensures var r := ReadHeader(host, chunkarg, old(In()));
              ok == r.Checked? && (ok ==> r == Checked(flags, chunkname, In()))
    {
      hide ReadUleb, Want;
      ok := BcWant(3 + 5 + 5, false);
      if !ok {
        return;
      }
      var b;
      ok, b := BcMem(3);
      if !ok || b[0] != BCDUMP_HEAD2 || b[1] != BCDUMP_HEAD3 || b[2] != BCDUMP_VERSION {
        ok := false;
        return;
      }
      ok, flags := BcUleb();
      if !ok || flags / (2 * BCDUMP_F_FR2) != 0 || (flags / BCDUMP_F_FR2 % 2 == 1) != host.fr2 {
        ok := false;
        return;
      }
      if flags / BCDUMP_F_STRIP % 2 == 1 {
        chunkname := chunkarg;
      } else {
        var len;
        ok, len := BcUleb();
        if !ok {
          return;
        }
        ok := BcWant(len, true);
        if !ok {
          return;
        }
        ok, chunkname := BcMem(len);
      }
    }

    /** `lj_bcread`: the prototype, or an error. */
    method BcRead() returns (ok: bool, pt: Proto)
      modifies this
      ensures var r := ReadDump(host, chunkarg, old(In()), endmark, old(stack));
              ok == r.Loaded? && (ok ==> r == Loaded(pt, chunkname, In()) && |stack| == old(|stack|))
    {
      hide ReadUleb, Want, ReadHeader, BcTree.Loop, ReadProto;
      pt := Proto(0, 0, 0, [], [], [], [], 0, NoDebug, 0, 0);
      oldtop := |stack|;
      ok := BcHeader();
      if !ok {
        return;
      }
      ok := Protos();
      if !ok || (win != [] && !endmark) || |stack| != oldtop + 1 {
        ok := false;
        return;
      }
      pt := stack[oldtop];
      stack := stack[..oldtop];  // Pop off last prototype.
    }

    /** Process all prototypes in the bytecode dump. */
    method Protos() returns (ok: bool)
      modifies this`win, this`chunks, this`eof, this`stack
      ensures ok == old(ToCome()).Ended? && (ok ==> old(ToCome()) == Ended(In(), stack))
    {
      hide Loop;
      ok := true;
      var more := true;
      ghost var all := ToCome();
      while more
        invariant ok && all == if more then ToCome() else Ended(In(), stack)
        decreases |Stream(In())|, more
      {
        ok, more := OneProto();
        if !ok {
          return;
        }
      }
    }

    /** What reading prototypes on to the end gives. */
    ghost function ToCome(): Looped
      reads this
    {
      Loop(flags % 2 == BCDUMP_F_BE, host.dual, flags / BCDUMP_F_STRIP % 2 == 1, In(), stack, oldtop)
    }

    /** One turn of the loop: the next prototype, or the end of the dump. */
    method OneProto() returns (ok: bool, more: bool)
      modifies this`win, this`chunks, this`eof, this`stack
      ensures !ok ==> old(ToCome()) == BadDump
      ensures ok && more ==> old(ToCome()) == ToCome() && |Stream(In())| < |Stream(old(In()))|
      ensures ok && !more ==> old(ToCome()) == Ended(In(), stack) && |Stream(In())| <= |Stream(old(In()))|
    {
      hide ReadUleb, Want, ReadProto;
      ghost var before := In();
      if win != [] && win[0] == 0 {  // Shortcut EOF.
        win := win[1..];
        return true, false;
      }
      ok := BcWant(5, false);
      if !ok {
        return false, false;
      }
      var len, pt;
      ok, len := BcUleb();
      if !ok {
        return false, false;
      }
      if len == 0 {  // EOF
        SizeShrinks(before);
        return true, false;
      }
      ok := BcWant(len, true);
      if !ok {
        return false, false;
      }
      ghost var at := In();
      var left := |win|;
      ok, pt := BcProto();
      if !ok || |win| + len != left {
        return false, false;
      }
      TurnShrinks(before, at, win, len);
      stack := stack + [pt];
      more := true;
    }
  }

  lemma UnitsCount(be: bool, wd: Width, b: seq<Byte>, n: nat)
    ensures ReadUnits(be, wd, b, n).Done? ==> |ReadUnits(be, wd, b, n).value| == n
  {
  }

  /** So does a size. */
  lemma SizeShrinks(before: Input)
    requires Want(before, 5, false).Refilled? && ReadUleb(Want(before, 5, false).st.win).Done?
    ensures var st := Want(before, 5, false).st; |Stream(st.(win := ReadUleb(st.win).rest))| < |Stream(before)|
  {
    WantKeeps(before, 5, false);
  }

  /** A prototype takes bytes. */
  lemma TurnShrinks(before: Input, at: Input, win: seq<Byte>, len: nat)
    requires len > 0 && Want(before, 5, false).Refilled?
    requires var st := Want(before, 5, false).st;
             ReadUleb(st.win).Done? && Want(st.(win := ReadUleb(st.win).rest), len, true) == Refilled(at)
    requires |win| + len == |at.win|
    ensures |Stream(at.(win := win))| < |Stream(before)|
  {
    var st := Want(before, 5, false).st;
    WantKeeps(before, 5, false);
    WantKeeps(st.(win := ReadUleb(st.win).rest), len, true);
  }

  /** What the writer has passed on is what the reader makes the same tree of. */
  method RoundTrip(w: LexState, d: Dumper, p: Proto, name: seq<Byte>, ghost m: nat) returns (ok: bool, pt: Proto)
    requires TreeOk(w.host.dual, p) && w.host.dual == d.host.dual && w.host.fr2 == d.host.fr2
    requires TreeFits(d, p, m) && (d.strip || |name| <= m)
    requires Steady(w.In(), m) && !w.eof && Stream(w.In()) == Dump(d, p, name)[1..]
    modifies w
    ensures SameFunction(w.host.dual, d.strip, d.start, p, pt)
    ensures ok && pt == Seen(d, p) && w.chunkname == (if d.strip then w.chunkarg else name)
  {
    assert Dump(d, p, name)[1..] + [] == Dump(d, p, name)[1..];
    DumpBack(d, w.host, p, name, w.chunkarg, m, w.In(), [], w.endmark, w.stack);
    ok, pt := w.BcRead();
  }
}
