/** The bytecode writer (`lj_bcwrite.c`) on a growing buffer (`lj_buf.c`). */
module BcWrite {
  import opened Bits
  import opened Leb
  import opened BcTypes
  import opened BcTable
  import opened BcProto
  import opened BcTree

  const LJ_MIN_SBUF := 32
  const LUA_ERRMEM := 4

  // ---- How much room is asked for.

  function NeedTV(o: TV): nat {
    if o.Str? then 11 + |o.s| else 11
  }

  function NeedArray(a: seq<TV>): nat {
    if a == [] then 0 else NeedTV(a[0]) + NeedArray(a[1..])
  }

  function NeedNodes(nodes: seq<Node>): nat {
    if nodes == [] then 0 else NeedTV(nodes[0].key) + NeedTV(nodes[0].val) + NeedNodes(nodes[1..])
  }

  function NeedTable(t: Table): nat {
    NeedArray(Reread(t).slots) + NeedNodes(Reread(t).nodes)
  }

  function NeedConst(c: Const): nat {
    match c
    case KStr(s) => 5 + |s|
    case KTab(t) => 11 + NeedTable(t)
    case Child(_) => 1
    case _ => 21
  }

  function NeedConsts(kgc: seq<Const>): nat {
    if kgc == [] then 0 else NeedConst(kgc[0]) + NeedConsts(kgc[1..])
  }

  /** The room for a prototype and the space in front of it. */
  function NeedProto(d: Dumper, p: Proto): nat {
    5 + 4 + 6 * 5 + 4 * |p.bc| + 2 * |p.uv| + NeedConsts(p.kgc) + 10 * |p.kn| + |DebugKept(d.host.be, d.strip, p)|
  }

  /** Every prototype of the tree fits a buffer. */
  ghost predicate Roomy(d: Dumper, p: Proto) {
    && NeedProto(d, p) <= LJ_MAX_BUF
    && forall i {:trigger p.kgc[i]} :: 0 <= i < |p.kgc| && p.kgc[i].Child? ==> Roomy(d, p.kgc[i].pt)
  }

  /** Jumps into traces are only found in prototypes that say so, and their traces are known. */
  predicate TracesOk(d: Dumper, p: Proto) {
    p.flags / PROTO_ILOOP % 2 == 1 || p.trace != 0 ==>
      forall i {:trigger p.bc[i]} :: 0 < i < |p.bc| && IsCompiled(Op(p.bc[i])) ==> OperandD(p.bc[i]) in d.start
  }

  ghost predicate TreeTracesOk(d: Dumper, p: Proto) {
    TracesOk(d, p) && forall i {:trigger p.kgc[i]} :: 0 <= i < |p.kgc| && p.kgc[i].Child? ==>
      TreeTracesOk(d, p.kgc[i].pt)
  }

  // ---- In place patches of instructions.

  lemma {:induction false} UnitsSplit(be: bool, xs: seq<Word>, ys: seq<Word>)
    ensures EncUnits(be, 4, xs + ys) == EncUnits(be, 4, xs) + EncUnits(be, 4, ys)
  {
    hide UnitBytes;
    if xs == [] {
      assert [] + ys == ys && [] + EncUnits(be, 4, ys) == EncUnits(be, 4, ys);
    } else {
      assert (xs + ys)[1..] == xs[1..] + ys && (xs + ys)[0] == xs[0];
      UnitsSplit(be, xs[1..], ys);
      Assoc(UnitBytes(be, 4, xs[0]), EncUnits(be, 4, xs[1..]), EncUnits(be, 4, ys));
    }
  }

  /** An instruction in the buffer, between those before and those behind it. */
  lemma UnitsAround(be: bool, xs: seq<Word>, i: nat, y: Word)
    requires i < |xs|
    ensures EncUnits(be, 4, xs[i := y]) == EncUnits(be, 4, xs[..i])
            + (UnitBytes(be, 4, y) + EncUnits(be, 4, xs[i + 1..]))
  {
    hide UnitBytes;
    var zs := xs[i := y];
    assert zs == xs[..i] + ([y] + xs[i + 1..]);
    UnitsSplit(be, xs[..i], [y] + xs[i + 1..]);
    assert ([y] + xs[i + 1..])[1..] == xs[i + 1..];
  }

  /** Taking one from the opcode byte takes one from the instruction. */
  lemma OpByte(be: bool, x: Word)
    requires Op(x) > 0
    ensures UnitBytes(be, 4, x - 1) == UnitBytes(be, 4, x)[if be then 3 else 0 := Op(x) - 1]
  {
    Digits(x);
    Digits(x - 1);
    assert (x - 1) / 0x100 == x / 0x100;
  }

  lemma Digits(x: Word)
    ensures x / 0x1_0000 == x / 0x100 / 0x100 && x / 0x100_0000 == x / 0x100 / 0x100 / 0x100
  {
  }

  lemma OperandBytes(be: bool, x: Word)
    ensures UnitBytes(be, 4, x)[if be then 3 else 0] == Op(x)
    ensures Low(UnitBytes(be, 4, x)[if be then 1 else 2], UnitBytes(be, 4, x)[if be then 0 else 3]) == OperandD(x)
  {
    Digits(x);
  }

  /** `a + (b << 8)` */
  function Low(a: Byte, b: Byte): Half {
    var x: nat, y: nat := a, b;
    x + y * 0x100
  }

  /** The code with the first i instructions done. */
  function Partly(start: map<Half, Word>, code: seq<Word>, i: nat): seq<Word>
    requires i <= |code|
  {
    UnpatchedAll(start, code)[..i] + code[i..]
  }

  lemma PartlyNext(start: map<Half, Word>, code: seq<Word>, i: nat)
    requires i < |code|
    ensures var xs := Partly(start, code, i);
            |xs| == |code| && xs[i] == code[i] && Partly(start, code, i + 1) == xs[i := Unpatched(start, code[i])]
  {
  }

  lemma PartlyEnds(start: map<Half, Word>, code: seq<Word>)
    ensures |UnpatchedAll(start, code)| == |code| && Partly(start, code, 0) == code
    ensures Partly(start, code, |code|) == UnpatchedAll(start, code)
  {
  }

  lemma TrimStep(a: seq<TV>)
    ensures Trim(a) == if a != [] && a[|a| - 1] == Nil then Trim(a[..|a| - 1]) else a
  {
  }

  lemma BackwardsStep(nodes: seq<Node>)
    ensures |Backwards(nodes)| == if nodes == [] then 0
                                  else |Backwards(nodes[..|nodes| - 1])|
                                       + if nodes[|nodes| - 1].val == Nil then 0 else 1
  {
  }

  class BCWriteCtx {
    const d: Dumper
    const answers: nat -> int  // what the writer callback returns, call by call
    var sb: seq<Byte>  // output buffer
    var e: nat  // its size
    var out: seq<Byte>  // what the callback was given
    var calls: nat
    var status: int  // status from writer callback
    var thrown: bool  // an error was raised

    constructor (d: Dumper, answers: nat -> int)
      ensures this.d == d && this.answers == answers && sb == [] && e == 0 && out == [] && calls == 0 && status == 0
      ensures !thrown
    {
      this.d, this.answers := d, answers;
      sb, e, out, calls, status, thrown := [], 0, [], 0, 0, false;
    }

    // ---- The buffer.

    /** The buffer is never larger than twice the limit, so its size fits 32 bits. */
    ghost predicate Sized()
      reads this
    {
      |sb| <= e <= 2 * LJ_MAX_BUF
    }

    /** `buf_grow` */
    method BufGrow(sz: nat)
      requires Sized() && sz <= LJ_MAX_BUF
      modifies this`e
      ensures e >= sz && old(e) <= e <= 2 * LJ_MAX_BUF
    {
      var nsz := e;
      if nsz < LJ_MIN_SBUF {
        nsz := LJ_MIN_SBUF;
      }
      while nsz < sz
        invariant e <= nsz <= 2 * LJ_MAX_BUF && nsz >= LJ_MIN_SBUF
        decreases sz - nsz
      {
        nsz := nsz + nsz;
      }
      e := nsz;
    }

    /** `lj_buf_more` */
    method More(sz: nat) returns (ok: bool)
      requires Sized()
      modifies this`e, this`thrown
      ensures ok ==> |sb| + sz <= e <= 2 * LJ_MAX_BUF && thrown == old(thrown)
      ensures !ok ==> thrown && |sb| + sz > LJ_MAX_BUF
      ensures e >= old(e)
    {
      if sz > e - |sb| {
        if sz > LJ_MAX_BUF || |sb| + sz > LJ_MAX_BUF {
          thrown := true;
          return false;
        }
        BufGrow(|sb| + sz);
      }
      ok := true;
    }

    /** `lj_buf_need` */
    method Need(sz: nat) returns (ok: bool)
      requires Sized()
      modifies this`e, this`thrown
      ensures ok ==> sz <= e <= 2 * LJ_MAX_BUF && thrown == old(thrown)
      ensures !ok ==> thrown && sz > LJ_MAX_BUF
      ensures e >= old(e)
    {
      if sz > e {
        if sz > LJ_MAX_BUF {
          thrown := true;
          return false;
        }
        BufGrow(sz);
      }
      ok := true;
    }

    /** A store behind what is in the buffer: it must have room. */
    method Put(b: seq<Byte>)
      requires |sb| + |b| <= e
      modifies this`sb
      ensures sb == old(sb) + b
    {
      sb := sb + b;
    }

    method PutUleb(v: Word)
      requires |sb| + 5 <= e
      modifies this`sb
      ensures sb == old(sb) + Uleb(v) && |sb| <= old(|sb|) + 5
    {
      UlebShort(v);
      sb := WriteUleb(sb, v);
    }

    /** Something was appended to the buffer. An error is raised only if the buffer would get too large. */
    twostate predicate Wrote(ok: bool, b: seq<Byte>, need: nat)
      reads this
    {
      && e >= old(e)
      && (ok ==> sb == old(sb) + b && Sized() && thrown == old(thrown))
      && (!ok ==> thrown && old(|sb|) + need > LJ_MAX_BUF)
    }

    // ---- Template tables.

    /** `bcwrite_ktabk` */
    method WriteKtabk(o: TV, narrow: bool) returns (ok: bool)
      requires Sized() && Exists(d.host.dual, o)
      modifies this`sb, this`e, this`thrown
      ensures Wrote(ok, EncTV(d.host.dual, o, narrow), NeedTV(o)) && |EncTV(d.host.dual, o, narrow)| <= NeedTV(o)
    {
      hide Uleb, Narrow;
      TVLength(d.host.dual, o, narrow);
      ok := More(1 + 10);
      if !ok {
        return;
      }
      match o {
        case Str(s) =>
          ok := More(5 + |s|);
          if ok {
            PutUleb(BCDUMP_KTAB_STR + |s|);
            Put(s);
            Assoc(old(sb), Uleb(BCDUMP_KTAB_STR + |s|), s);
          }
        case Int(k) => PutInt(k);
        case Num(lo, hi) =>
          if !d.host.dual && narrow {  // Narrow number constants to integers.
            var k := Narrow(lo, hi);
            if k.Whole? {
              PutInt(k.k);
              return;
            }
          }
          Put([BCDUMP_KTAB_NUM]);
          PutWords(lo, hi);
          Assoc(old(sb), [BCDUMP_KTAB_NUM], Uleb(lo) + Uleb(hi));
        case Nil => Put([BCDUMP_KTAB_NIL]);
        case False => Put([BCDUMP_KTAB_FALSE]);
        case True => Put([BCDUMP_KTAB_TRUE]);
      }
    }

    method PutInt(k: Word)
      requires |sb| + 6 <= e
      modifies this`sb
      ensures sb == old(sb) + ([BCDUMP_KTAB_INT] + Uleb(k)) && |sb| <= old(|sb|) + 6
    {
      hide Uleb;
      Put([BCDUMP_KTAB_INT]);
      PutUleb(k);
      Assoc(old(sb), [BCDUMP_KTAB_INT], Uleb(k));
    }

    method PutWords(lo: Word, hi: Word)
      requires |sb| + 10 <= e
      modifies this`sb
      ensures sb == old(sb) + (Uleb(lo) + Uleb(hi)) && |sb| <= old(|sb|) + 10
    {
      hide Uleb;
      PutUleb(lo);
      PutUleb(hi);
      Assoc(old(sb), Uleb(lo), Uleb(hi));
    }

    /** How many array slots and hash slots of a table are written. */
    method Count(t: Table) returns (narray: nat, nhash: nat)
      ensures narray == |Trim(t.slots)|
      ensures nhash == |Reread(t).nodes|
    {
      hide Trim, Backwards;
      narray, nhash := 0, 0;
      TrimStep(t.slots[..0]);
      BackwardsStep(t.nodes[..0]);
      if |t.slots| > 0 {  // Determine max. length of array part.
        var i := |t.slots| - 1;
        assert t.slots[..i + 1] == t.slots;
        while i >= 0 && t.slots[i] == Nil
          invariant -1 <= i < |t.slots| && Trim(t.slots[..i + 1]) == Trim(t.slots)
          decreases i
        {
          assert t.slots[..i + 1][..i] == t.slots[..i];
          TrimStep(t.slots[..i + 1]);
          i := i - 1;
        }
        narray := i + 1;
        TrimStep(t.slots[..i + 1]);
      }
      if |t.nodes| > 1 {  // Count number of used hash slots.
        var i := 0;
        while i < |t.nodes|
          invariant 0 <= i <= |t.nodes| && nhash == |Backwards(t.nodes[..i])|
        {
          assert t.nodes[..i + 1][..i] == t.nodes[..i];
          BackwardsStep(t.nodes[..i + 1]);
          if t.nodes[i].val != Nil {
            nhash := nhash + 1;
          }
          i := i + 1;
        }
        assert t.nodes[..i] == t.nodes;
      }
    }

    /** `bcwrite_ktab`: there is room for the two sizes. */
    method WriteKtab(t: Table) returns (ok: bool)
      requires Sized() && |sb| + 10 <= e && TableOk(d.host.dual, t)
      modifies this`sb, this`e, this`thrown
      ensures Wrote(ok, EncTable(d.host.dual, t), 10 + NeedTable(t)) && (ok ==> |sb| <= old(|sb|) + 10 + NeedTable(t))
    {
      hide Uleb, TableOk, EncTV, EncArray, EncNodes, NeedTV, NeedArray, NeedNodes;
      TableExists(d.host.dual, t);
      ghost var r, dual := Reread(t), d.host.dual;
      var narray, nhash := Count(t);
      PutWords(narray, nhash);
      ok := WriteArray(t.slots[..narray]);
      if ok {
        ok := WriteNodes(if |t.nodes| > 1 then t.nodes else [], nhash);
        Gather(old(sb), Uleb(narray), Uleb(nhash), EncArray(dual, r.slots), EncNodes(dual, r.nodes));
      }
    }

    /** The array entries, which may contain nil. */
    method WriteArray(a: seq<TV>) returns (ok: bool)
      requires Sized() && forall i {:trigger a[i]} :: 0 <= i < |a| ==> Exists(d.host.dual, a[i])
      modifies this`sb, this`e, this`thrown
      ensures Wrote(ok, EncArray(d.host.dual, a), NeedArray(a)) && (ok ==> |sb| <= old(|sb|) + NeedArray(a))
    {
      hide EncTV, NeedTV, Exists;
      ghost var dual := d.host.dual;
      ok := true;
      assert a[0..] == a;
      var i := 0;
      while i < |a|
        invariant 0 <= i <= |a| && Sized() && e >= old(e) && thrown == old(thrown)
        invariant sb + EncArray(dual, a[i..]) == old(sb) + EncArray(dual, a)
        invariant |sb| + NeedArray(a[i..]) <= old(|sb|) + NeedArray(a)
      {
        assert a[i..][0] == a[i] && a[i..][1..] == a[i + 1..];
        Assoc(sb, EncTV(dual, a[i], true), EncArray(dual, a[i + 1..]));
        ok := WriteKtabk(a[i], true);
        if !ok {
          return;
        }
        i := i + 1;
      }
      assert a[i..] == [] && sb + [] == sb;
    }

    /** The hash entries: the nodes in use from the last one down, until all are written. */
    method WriteNodes(nodes: seq<Node>, nhash: nat) returns (ok: bool)
      requires Sized() && nhash == |Backwards(nodes)|
      requires forall i {:trigger nodes[i]} :: 0 <= i < |nodes| && !Vacant(nodes[i]) ==>
                 Exists(d.host.dual, nodes[i].key) && Exists(d.host.dual, nodes[i].val)
      modifies this`sb, this`e, this`thrown
      ensures Wrote(ok, EncNodes(d.host.dual, Backwards(nodes)), NeedNodes(Backwards(nodes)))
      ensures ok ==> |sb| <= old(|sb|) + NeedNodes(Backwards(nodes))
    {
      hide EncTV, NeedTV, Exists, Backwards, EncNodes, NeedNodes;
      ghost var dual, all, rest := d.host.dual, Backwards(nodes), Backwards(nodes);
      ok := true;
      var i, j := nhash, |nodes|;
      assert nodes[..j] == nodes;
      while i > 0
        invariant 0 <= j <= |nodes| && Sized() && e >= old(e) && thrown == old(thrown)
        invariant rest == Backwards(nodes[..j]) && i == |rest|
        invariant sb + EncNodes(dual, rest) == old(sb) + EncNodes(dual, all)
        invariant |sb| + NeedNodes(rest) <= old(|sb|) + NeedNodes(all)
        decreases j
      {
        BackStep(dual, nodes, j);
        j := j - 1;
        if nodes[j].val != Nil {
          Chain(sb, EncTV(dual, nodes[j].key, false), EncTV(dual, nodes[j].val, true), EncNodes(dual, rest[1..]));
          ok := WriteNode(nodes[j]);
          if !ok {
            return;
          }
          rest := rest[1..];
          i := i - 1;
        }
      }
      NoNodes(dual, rest);
      assert sb + [] == sb;
    }

    method WriteNode(n: Node) returns (ok: bool)
      requires Sized() && Exists(d.host.dual, n.key) && Exists(d.host.dual, n.val)
      modifies this`sb, this`e, this`thrown
      ensures e >= old(e)
      ensures ok ==> sb == (old(sb) + EncTV(d.host.dual, n.key, false)) + EncTV(d.host.dual, n.val, true)
      ensures ok ==> Sized() && thrown == old(thrown) && |sb| <= old(|sb|) + NeedTV(n.key) + NeedTV(n.val)
      ensures !ok ==> thrown && old(|sb|) + NeedTV(n.key) + NeedTV(n.val) > LJ_MAX_BUF
    {
      hide EncTV, NeedTV, Exists;
      ok := WriteKtabk(n.key, false);
      if ok {
        ok := WriteKtabk(n.val, true);
      }
    }

    // ---- Constants.

    /** `bcwrite_kgc` */
    method WriteKgc(kgc: seq<Const>) returns (ok: bool)
      requires Sized() && forall i {:trigger kgc[i]} :: 0 <= i < |kgc| ==> ConstOk(d.host.dual, kgc[i])
      modifies this`sb, this`e, this`thrown
      ensures Wrote(ok, EncConsts(d.host.dual, kgc), NeedConsts(kgc)) && (ok ==> |sb| <= old(|sb|) + NeedConsts(kgc))
    {
      hide EncConst, NeedConst, ConstOk;
      ghost var dual := d.host.dual;
      ok := true;
      assert kgc[0..] == kgc;
      var i := 0;
      while i < |kgc|
        invariant 0 <= i <= |kgc| && Sized() && e >= old(e) && thrown == old(thrown)
        invariant sb + EncConsts(dual, kgc[i..]) == old(sb) + EncConsts(dual, kgc)
        invariant |sb| + NeedConsts(kgc[i..]) <= old(|sb|) + NeedConsts(kgc)
      {
        assert kgc[i..][0] == kgc[i] && kgc[i..][1..] == kgc[i + 1..];
        Assoc(sb, EncConst(dual, kgc[i]), EncConsts(dual, kgc[i + 1..]));
        ok := WriteConst(kgc[i]);
        if !ok {
          return;
        }
        i := i + 1;
      }
      assert kgc[i..] == [] && sb + [] == sb;
    }

    method WriteConst(c: Const) returns (ok: bool)
      requires Sized() && ConstOk(d.host.dual, c)
      modifies this`sb, this`e, this`thrown
      ensures Wrote(ok, EncConst(d.host.dual, c), NeedConst(c)) && (ok ==> |sb| <= old(|sb|) + NeedConst(c))
    {
      hide Uleb, EncTable, TableOk, NeedTable;
      match c {
        case KStr(s) =>
          ok := WriteStr(s);
        case KTab(t) =>
          ok := WriteTemplate(t);
        case I64(lo, hi) =>
          ok := WriteCdata(BCDUMP_KGC_I64, lo, hi);
        case U64(lo, hi) =>
          ok := WriteCdata(BCDUMP_KGC_U64, lo, hi);
        case Complex(rlo, rhi, ilo, ihi) =>
          ok := WriteComplex(rlo, rhi, ilo, ihi);
        case Child(_) =>
          ok := More(1);
          if ok {
            Put([BCDUMP_KGC_CHILD]);
          }
      }
    }

    method WriteStr(s: seq<Byte>) returns (ok: bool)
      requires Sized() && ConstOk(d.host.dual, KStr(s))
      modifies this`sb, this`e, this`thrown
      ensures Wrote(ok, EncConst(d.host.dual, KStr(s)), 5 + |s|) && (ok ==> |sb| <= old(|sb|) + 5 + |s|)
    {
      hide Uleb;
      ok := More(5 + |s|);
      if ok {
        PutUleb(BCDUMP_KGC_STR + |s|);
        Put(s);
        Assoc(old(sb), Uleb(BCDUMP_KGC_STR + |s|), s);
      }
    }

    method WriteTemplate(t: Table) returns (ok: bool)
      requires Sized() && ConstOk(d.host.dual, KTab(t))
      modifies this`sb, this`e, this`thrown
      ensures Wrote(ok, EncConst(d.host.dual, KTab(t)), NeedConst(KTab(t)))
      ensures ok ==> |sb| <= old(|sb|) + NeedConst(KTab(t))
    {
      hide Uleb, EncTable, TableOk, NeedTable;
      ok := More(1 + 2 * 5);
      if ok {
        Put([BCDUMP_KGC_TAB]);
        ok := WriteKtab(t);
        Assoc(old(sb), [BCDUMP_KGC_TAB], EncTable(d.host.dual, t));
      }
    }

    method WriteComplex(rlo: Word, rhi: Word, ilo: Word, ihi: Word) returns (ok: bool)
      requires Sized()
      modifies this`sb, this`e, this`thrown
      ensures Wrote(ok, EncConst(d.host.dual, Complex(rlo, rhi, ilo, ihi)), 21) && (ok ==> |sb| <= old(|sb|) + 21)
    {
      hide Uleb, EncConst;
      ComplexBytes(rlo, rhi, ilo, ihi);
      ok := WriteCdata(BCDUMP_KGC_COMPLEX, rlo, rhi);
      if ok {
        PutWords(ilo, ihi);
        Chain(old(sb), [BCDUMP_KGC_COMPLEX], Uleb(rlo) + Uleb(rhi), Uleb(ilo) + Uleb(ihi));
      }
    }

    lemma ComplexBytes(rlo: Word, rhi: Word, ilo: Word, ihi: Word)
      ensures EncConst(d.host.dual, Complex(rlo, rhi, ilo, ihi))
              == [BCDUMP_KGC_COMPLEX] + (Uleb(rlo) + Uleb(rhi) + (Uleb(ilo) + Uleb(ihi)))
    {
    }

    /** The type of a cdata constant and its first number; there is room for one more. */
    method WriteCdata(tp: Byte, lo: Word, hi: Word) returns (ok: bool)
      requires Sized()
      modifies this`sb, this`e, this`thrown
      ensures Wrote(ok, [tp] + (Uleb(lo) + Uleb(hi)), 21) && (ok ==> |sb| + 10 <= e && |sb| <= old(|sb|) + 11)
    {
      hide Uleb;
      ok := More(1 + 4 * 5);
      if ok {
        Put([tp]);
        PutWords(lo, hi);
        Assoc(old(sb), [tp], Uleb(lo) + Uleb(hi));
      }
    }

    /** `bcwrite_knum` */
    method WriteKnum(kn: seq<TV>) returns (ok: bool)
      requires Sized() && AllNumbers(kn)
      modifies this`sb, this`e, this`thrown
      ensures Wrote(ok, EncKns(d.host.dual, kn), 10 * |kn|) && (ok ==> |sb| <= old(|sb|) + 10 * |kn|)
    {
      hide EncKn;
      ghost var dual := d.host.dual;
      ok := More(10 * |kn|);
      if !ok {
        return;
      }
      assert kn[0..] == kn;
      var i := 0;
      while i < |kn|
        invariant 0 <= i <= |kn| && |sb| <= old(|sb|) + 10 * i
        invariant old(|sb|) + 10 * |kn| <= e <= 2 * LJ_MAX_BUF && e >= old(e) && thrown == old(thrown)
        invariant sb + EncKns(dual, kn[i..]) == old(sb) + EncKns(dual, kn)
      {
        assert kn[i..][0] == kn[i] && kn[i..][1..] == kn[i + 1..];
        Assoc(sb, EncKn(dual, kn[i]), EncKns(dual, kn[i + 1..]));
        PutKn(kn[i]);
        i := i + 1;
      }
      assert kn[i..] == [] && sb + [] == sb;
    }

    /** One number: a 33 bit number for the int (lsb=0) or loword (lsb=1). */
    method PutKn(o: TV)
      requires |sb| + 10 <= e && (o.Int? || o.Num?)
      modifies this`sb
      ensures sb == old(sb) + EncKn(d.host.dual, o) && |sb| <= old(|sb|) + 10
    {
      hide Uleb, Narrow;
      if o.Int? {
        Put33(o.k, 0);
        return;
      }
      if !d.host.dual {  // Narrow number constants to integers.
        var k := Narrow(o.lo, o.hi);
        if k.Whole? {
          Put33(k.k, 0);
          return;
        }
      }
      Put33(o.lo, 1);
      PutUleb(o.hi);
      Assoc(old(sb), Uleb(2 * o.lo + 1), Uleb(o.hi));
    }

    method Put33(w: Word, tag: nat)
      requires |sb| + 5 <= e && tag < 2
      modifies this`sb
      ensures sb == old(sb) + Uleb(2 * w + tag) && |sb| <= old(|sb|) + 5
    {
      hide Uleb, PatchedByte, Doubled;
      Patched33(w, tag);
      DoubledFits(w, tag);
      ghost var b := Uleb(tag + Doubled(w));
      PutUleb(tag + Doubled(w));
      if w >= 0x8000_0000 {
        LastOf(old(sb), b, PatchedByte(sb[|sb| - 1], w));
        sb := sb[|sb| - 1 := PatchedByte(sb[|sb| - 1], w)];
      }
    }

    // ---- Bytecode.

    /** `bcwrite_bytecode` */
    method WriteBytecode(p: Proto)
      requires p.bc != [] && |sb| + 4 * (|p.bc| - 1) <= e && TracesOk(d, p)
      modifies this`sb
      ensures sb == old(sb) + EncUnits(d.host.be, 4, Code(d.start, p)) && |sb| == old(|sb|) + 4 * (|p.bc| - 1)
    {
      var code := p.bc[1..];  // Omit the [JI]FUNC* header.
      UnitsLength(d.host.be, 4, code);
      var q := |sb|;
      Put(EncUnits(d.host.be, 4, code));
      if p.flags / PROTO_ILOOP % 2 == 1 || p.trace != 0 {
        Unpatch(q, code);
      }
    }

    /** Unpatch modified bytecode containing ILOOP/JLOOP etc.; q is the place of the code in the buffer. */
    method Unpatch(q: nat, code: seq<Word>)
      requires q <= |sb| && sb[q..] == EncUnits(d.host.be, 4, code)
      requires forall i {:trigger code[i]} :: 0 <= i < |code| && IsCompiled(Op(code[i])) ==>
               OperandD(code[i]) in d.start
      modifies this`sb
      ensures sb == old(sb)[..q] + EncUnits(d.host.be, 4, UnpatchedAll(d.start, code)) && |sb| == old(|sb|)
    {
      hide EncUnits, UnpatchedAll, Unpatched;
      ghost var pre, be := sb[..q], d.host.be;
      PartlyEnds(d.start, code);
      UnitsLength(be, 4, code);
      UnitsLength(be, 4, UnpatchedAll(d.start, code));
      assert sb == pre + EncUnits(be, 4, code);
      var i := 0;
      while i < |code|
        invariant 0 <= i <= |code| && sb == pre + EncUnits(be, 4, Partly(d.start, code, i))
      {
        PartlyNext(d.start, code, i);
        UnpatchOne(q + 4 * i, pre, Partly(d.start, code, i), i);
        i := i + 1;
      }
    }

    method UnpatchOne(q: nat, ghost pre: seq<Byte>, ghost xs: seq<Word>, ghost i: nat)
      requires i < |xs| && q == |pre| + 4 * i && sb == pre + EncUnits(d.host.be, 4, xs)
      requires IsCompiled(Op(xs[i])) ==> OperandD(xs[i]) in d.start
      modifies this`sb
      ensures sb == pre + EncUnits(d.host.be, 4, xs[i := Unpatched(d.start, xs[i])])
    {
      hide EncUnits, UnitBytes, Op, OperandD, Low;
      Place(d.host.be, pre, xs, i, Unpatched(d.start, xs[i]));
      OperandBytes(d.host.be, xs[i]);
      assert xs[i := xs[i]] == xs;
      var op := sb[q + if d.host.be then 3 else 0];
      if IsInterp(op) {
        OpByte(d.host.be, xs[i]);
        PatchByte(sb, q, if d.host.be then 3 else 0, op - 1);
        sb := sb[q + (if d.host.be then 3 else 0) := op - 1];
      } else if IsCompiled(op) {
        var rd := Low(sb[q + if d.host.be then 1 else 2], sb[q + if d.host.be then 0 else 3]);
        sb := sb[..q] + (UnitBytes(d.host.be, 4, d.start[rd]) + sb[q + 4..]);
      }
    }

    // ---- Prototypes.

    /** A call of the writer callback */
    method WFunc(b: seq<Byte>)
      modifies this`out, this`calls, this`status
      ensures out == old(out) + b && (Willing() ==> status == 0)
    {
      out := out + b;
      status := answers(calls);
      calls := calls + 1;
    }

    /** The callback never fails. */
    ghost predicate Willing() {
      forall n: nat {:trigger answers(n)} :: answers(n) == 0
    }

    /** The sizes, and those of the debug info if there is any. */
    method WriteHead(p: Proto, sizedbg: nat)
      requires |sb| + 4 + 6 * 5 <= e && ProtoOk(d.host.dual, p) && sizedbg == |DebugKept(d.host.be, d.strip, p)|
      modifies this`sb
      ensures sb == old(sb) + HeadBytes(d.host.be, d.strip, p) && |sb| <= old(|sb|) + 4 + 6 * 5
    {
      hide Uleb, ConstOk, KnOk, DebugOk, DebugBytes;
      DebugSize(d.host.be, p);
      ghost var s, h := Sizes(p), DebugHead(d.host.be, d.strip, p);
      Put([p.flags % 8, p.numparams, p.framesize, |p.uv|]);
      PutWords(|p.kgc|, |p.kn|);
      PutUleb(|p.bc| - 1);
      Sizes3(old(sb), p);
      if !d.strip {
        ghost var before := sb;
        PutUleb(sizedbg);
        if sizedbg != 0 {
          PutWords(p.firstline, p.numline);
          Assoc(before, Uleb(sizedbg), Uleb(p.firstline) + Uleb(p.numline));
        }
      }
      assert sb == (old(sb) + [p.flags % 8, p.numparams, p.framesize, |p.uv|] + s) + h;
      Chain(old(sb), [p.flags % 8, p.numparams, p.framesize, |p.uv|], s, h);
    }

    /** The prototype behind space for its size. */
    method WriteOne(p: Proto) returns (ok: bool)
      requires Sized() && ProtoOk(d.host.dual, p) && TracesOk(d, p)
      modifies this`sb, this`e, this`thrown
      ensures ok ==> Sized() && thrown == old(thrown) && sb == [0, 0, 0, 0, 0] + BodyOf(d, p)
      ensures !ok ==> thrown && NeedProto(d, p) > LJ_MAX_BUF
    {
      hide ConstOk, KnOk, DebugOk, HeadBytes, EncUnits, EncConsts, EncKns, DebugKept, Code, NeedConsts;
      BodySize(d, p);
      ghost var be, dual := d.host.be, d.host.dual;
      ok := Need(5 + 4 + 6 * 5 + (|p.bc| - 1) * 4 + |p.uv| * 2);
      if !ok {
        return;
      }
      sb := [0, 0, 0, 0, 0];  // Leave room for final size.
      ghost var x0 := sb;
      var dbg := DebugKept(d.host.be, d.strip, p);
      WriteHead(p, |dbg|);
      WriteBytecode(p);
      UnitsLength(d.host.be, 2, p.uv);
      Put(EncUnits(d.host.be, 2, p.uv));
      ok := WriteKgc(p.kgc);
      if !ok {
        return;
      }
      ok := WriteKnum(p.kn);
      if !ok {
        return;
      }
      if |dbg| != 0 {
        ok := More(|dbg|);
        if !ok {
          return;
        }
      }
      Put(dbg);
      BodyParts(x0, HeadBytes(be, d.strip, p), EncUnits(be, 4, Code(d.start, p)), EncUnits(be, 2, p.uv),
                EncConsts(dual, p.kgc),
                EncKns(dual, p.kn), dbg);
    }

    /** The size goes right in front of the prototype, and the buffer to the callback. */
    method Pass(ghost body: seq<Byte>)
      requires Sized() && sb == [0, 0, 0, 0, 0] + body && body != []
      modifies this`sb, this`out, this`calls, this`status
      ensures Sized()
      ensures old(status) == 0 ==> out == old(out) + (Uleb(|body|) + body) && (Willing() ==> status == 0)
      ensures old(status) != 0 ==> out == old(out) && status == old(status)
    {
      hide Uleb, Fls;
      if status == 0 {
        var n := |sb| - 5;
        var nn := (Fls(n) + 8) * 9 / 64;
        SizeField(n);
        assert sb[5..] == body;
        var q := 5 - nn;
        var p := WriteUleb(sb[..q], n);  // Fill in final size.
        assert |p| == 5;
        sb := p + sb[5..];
        assert sb[q..] == Uleb(n) + body;
        WFunc(sb[q..]);
      }
    }

    /** `bcwrite_proto` */
    method WriteProto(p: Proto)
      requires Sized() && !thrown && TreeOk(d.host.dual, p) && TreeTracesOk(d, p)
      modifies this
      ensures thrown ==> !Roomy(d, p)
      ensures !thrown ==> Sized() && (old(status) == 0 && Willing() ==> status == 0)
      ensures !thrown && status == 0 ==> old(status) == 0 && out == old(out) + EncTree(d, p)
      ensures Came(old(out), EncTree(d, p), out) && (old(status) != 0 ==> out == old(out))
      decreases p
    {
      hide ProtoOk, NeedProto, TracesOk, BodyOf, Came;
      ghost var first := if p.flags % 2 == PROTO_CHILD then EncChildren(d, p, 0) else [];
      CameNone(out, first);
      if p.flags % 2 == PROTO_CHILD {  // Recursively write children of prototype.
        WriteChildren(p);
        if thrown {
          CameNone(out, Framed(d, p));
          CameMore(old(out), first, out, Framed(d, p), out);
          return;
        }
      }
      ghost var out1 := out;
      CameNone(out, Framed(d, p));
      CameAll(out, Framed(d, p));
      var ok := WriteOne(p);
      if ok {
        BodySize(d, p);
        Pass(BodyOf(d, p));
        Assoc(old(out), first, Framed(d, p));
      }
      CameMore(old(out), first, out1, Framed(d, p), out);
    }

    method WriteChildren(p: Proto)
      requires Sized() && !thrown && TreeOk(d.host.dual, p) && TreeTracesOk(d, p)
      modifies this
      ensures thrown ==> !Roomy(d, p)
      ensures !thrown ==> Sized() && (old(status) == 0 && Willing() ==> status == 0)
      ensures !thrown && status == 0 ==> old(status) == 0 && out == old(out) + EncChildren(d, p, 0)
      ensures Came(old(out), EncChildren(d, p, 0), out) && (old(status) != 0 ==> out == old(out))
      decreases p, 0
    {
      hide ProtoOk, NeedProto, TracesOk, Came, EncTree;
      CameNone(out, []);
      var i := |p.kgc|;
      while i > 0
        invariant 0 <= i <= |p.kgc| && Sized() && !thrown
        invariant old(status) == 0 && Willing() ==> status == 0
        invariant status == 0 ==> old(status) == 0 && out == old(out) + EncChildren(d, p, i)
        invariant Came(old(out), EncChildren(d, p, i), out) && (old(status) != 0 ==> out == old(out) && status != 0)
      {
        i := i - 1;
        if p.kgc[i].Child? {
          ghost var out1 := out;
          WriteProto(p.kgc[i].pt);
          CameMore(old(out), EncChildren(d, p, i + 1), out1, EncTree(d, p.kgc[i].pt), out);
          Assoc(old(out), EncChildren(d, p, i + 1), EncTree(d, p.kgc[i].pt));
          if thrown {
            CameLess(d, p, i, old(out), out);
            return;
          }
        } else {
          assert EncChildren(d, p, i) == EncChildren(d, p, i + 1);
        }
      }
    }

    // ---- The whole dump.

    /** `bcwrite_header` */
    method WriteHeader(p: Proto, name: seq<Byte>)
      requires Sized() && !thrown && status == 0 && |name| < 0x1_0000_0000
      modifies this
      ensures thrown ==> 10 + |name| > LJ_MAX_BUF && out == old(out)
      ensures !thrown ==> Sized() && out == old(out) + Header(d, p, name) && (Willing() ==> status == 0)
    {
      hide Uleb, Flags;
      var ok := Need(5 + 5 + |name|);
      if !ok {
        return;
      }
      sb := [BCDUMP_HEAD1, BCDUMP_HEAD2, BCDUMP_HEAD3, BCDUMP_VERSION, Flags(d, p)];
      ghost var h := sb;
      if !d.strip {
        PutUleb(|name|);
        Put(name);
        Assoc(h, Uleb(|name|), name);
      }
      assert h + [] == h;
      WFunc(sb);
    }

    /** `bcwrite_footer` */
    method WriteFooter()
      modifies this`out, this`calls, this`status
      ensures old(status) == 0 ==> out == old(out) + [0] && (Willing() ==> status == 0)
      ensures old(status) != 0 ==> out == old(out) && status == old(status)
    {
      if status == 0 {
        WFunc([0]);
      }
    }

    /** `lj_bcwrite`. If it returns 0, the callback has got the dump, and it does if the callback never fails and
        everything fits a buffer. In any case it has got no more than the start of the dump. */
    method BcWrite(p: Proto, name: seq<Byte>) returns (r: int)
      requires sb == [] && e == 0 && out == [] && status == 0 && !thrown
      requires TreeOk(d.host.dual, p) && TreeTracesOk(d, p) && |name| < 0x1_0000_0000
      modifies this
      ensures r == 0 ==> out == Dump(d, p, name)
      ensures Willing() && Roomy(d, p) && |name| + 10 <= LJ_MAX_BUF ==> r == 0
      ensures out <= Dump(d, p, name)
    {
      hide TreeOk, TreeTracesOk, Roomy, EncTree, Header, Willing;
      r := LUA_ERRMEM;
      var ok := Need(1024);  // Avoids resize for most prototypes.
      WriteHeader(p, name);
      ghost var h, t := Header(d, p, name), EncTree(d, p);
      Starts(h, t);
      if thrown {
        return;
      }
      assert [] + h == h;
      WriteProto(p);
      assert out <= h + t;
      if thrown {
        return;
      }
      WriteFooter();
      Assoc(h, t, [0]);
      r := status;
    }
  }

  lemma Starts(h: seq<Byte>, t: seq<Byte>)
    ensures [] <= h <= h + t <= h + (t + [0])
  {
    Assoc(h, t, [0]);
  }

  lemma CameNone(a: seq<Byte>, x: seq<Byte>)
    ensures Came(a, x, a)
  {
  }

  lemma CameAll(a: seq<Byte>, x: seq<Byte>)
    ensures Came(a, x, a + x)
  {
  }

  // ---- What has come out when a part of the tree is written.

  /** b is what has come out when x was to follow a: all of it, or the start of it. */
  predicate Came(a: seq<Byte>, x: seq<Byte>, b: seq<Byte>) {
    a <= b <= a + x
  }

  lemma CameMore(a: seq<Byte>, x: seq<Byte>, b: seq<Byte>, y: seq<Byte>, c: seq<Byte>)
    requires Came(a, x, b) && Came(b, y, c) && (b == a + x || c == b)
    ensures Came(a, x + y, c)
  {
    Assoc(a, x, y);
  }

  lemma {:induction false} CameLess(d: Dumper, p: Proto, i: nat, a: seq<Byte>, b: seq<Byte>)
    requires i <= |p.kgc| && Came(a, EncChildren(d, p, i), b)
    ensures Came(a, EncChildren(d, p, 0), b)
    decreases i
  {
    hide EncTree;
    if i > 0 {
      var x, y := EncChildren(d, p, i), if p.kgc[i - 1].Child? then EncTree(d, p.kgc[i - 1].pt) else [];
      assert EncChildren(d, p, i - 1) == x + y;
      Assoc(a, x, y);
      assert a + x <= (a + x) + y;
      CameLess(d, p, i - 1, a, b);
    }
  }

  lemma Sizes3(a: seq<Byte>, p: Proto)
    requires p.bc != []
    ensures forall f: seq<Byte> :: ((a + f) + (Uleb(|p.kgc|) + Uleb(|p.kn|))) + Uleb(|p.bc| - 1) == (a + f) + Sizes(p)
  {
    hide Uleb;
    Assoc(Uleb(|p.kgc|), Uleb(|p.kn|), Uleb(|p.bc| - 1));
    forall f: seq<Byte>
      ensures ((a + f) + (Uleb(|p.kgc|) + Uleb(|p.kn|))) + Uleb(|p.bc| - 1) == (a + f) + Sizes(p)
    {
      Assoc(a + f, Uleb(|p.kgc|) + Uleb(|p.kn|), Uleb(|p.bc| - 1));
    }
  }

  lemma BodyParts(x: seq<Byte>, h: seq<Byte>, c: seq<Byte>, u: seq<Byte>, k: seq<Byte>, n: seq<Byte>, g: seq<Byte>)
    ensures (((((x + h) + c) + u) + k) + n) + g == x + (h + (c + (u + (k + (n + g)))))
  {
    Assoc(x, h, c + (u + (k + (n + g))));
    Assoc(x + h, c, u + (k + (n + g)));
    Assoc((x + h) + c, u, k + (n + g));
    Assoc(((x + h) + c) + u, k, n + g);
    Assoc((((x + h) + c) + u) + k, n, g);
  }

  lemma PatchByte(b: seq<Byte>, q: nat, k: nat, x: Byte)
    requires q + 4 <= |b| && k < 4
    ensures b[q + k := x] == b[..q] + (b[q..q + 4][k := x] + b[q + 4..])
  {
  }

  /** The place of an instruction in the buffer. */
  lemma Place(be: bool, pre: seq<Byte>, xs: seq<Word>, i: nat, y: Word)
    requires i < |xs|
    ensures var b, q := pre + EncUnits(be, 4, xs), |pre| + 4 * i;
            && q + 4 <= |b| && b[q..q + 4] == UnitBytes(be, 4, xs[i])
            && pre + EncUnits(be, 4, xs[i := y]) == b[..q] + (UnitBytes(be, 4, y) + b[q + 4..])
            && b == b[..q] + (b[q..q + 4] + b[q + 4..])
  {
    hide EncUnits, UnitBytes;
    var l, u, r := EncUnits(be, 4, xs[..i]), UnitBytes(be, 4, xs[i]), EncUnits(be, 4, xs[i + 1..]);
    UnitsAround(be, xs, i, xs[i]);
    UnitsAround(be, xs, i, y);
    assert xs[i := xs[i]] == xs;
    UnitsLength(be, 4, xs[..i]);
    Assoc(pre, l, u + r);
    Assoc(pre, l, UnitBytes(be, 4, y) + r);
    Slices(pre + l, u, r);
  }

  lemma Slices(a: seq<Byte>, u: seq<Byte>, r: seq<Byte>)
    ensures var b := a + (u + r);
            b[..|a|] == a && b[|a|..|a| + |u|] == u && b[|a| + |u|..] == r
  {
  }

  lemma DoubledFits(w: Word, tag: nat)
    requires tag < 2
    ensures tag + Doubled(w) < 0x1_0000_0000
  {
  }

  lemma LastOf(a: seq<Byte>, b: seq<Byte>, x: Byte)
    requires b != []
    ensures (a + b)[|a + b| - 1] == b[|b| - 1] && (a + b)[|a + b| - 1 := x] == a + b[|b| - 1 := x]
  {
  }

  /** The last of the nodes up to the j-th one, as it is reached in going down. */
  lemma BackStep(dual: bool, nodes: seq<Node>, j: nat)
    requires j <= |nodes| && Backwards(nodes[..j]) != []
    ensures j > 0
    ensures var rest, n := Backwards(nodes[..j]), nodes[j - 1];
            if n.val == Nil then rest == Backwards(nodes[..j - 1])
            else
              && rest[0] == n && rest[1..] == Backwards(nodes[..j - 1])
              && EncNodes(dual, rest) == EncTV(dual, n.key, false)
                 + (EncTV(dual, n.val, true) + EncNodes(dual, rest[1..]))
              && NeedNodes(rest) == NeedTV(n.key) + NeedTV(n.val) + NeedNodes(rest[1..])
  {
    hide EncTV, NeedTV;
    if j > 0 {
      assert nodes[..j][..j - 1] == nodes[..j - 1];
      assert [] + Backwards(nodes[..j - 1]) == Backwards(nodes[..j - 1]);
    }
  }

  lemma NoNodes(dual: bool, nodes: seq<Node>)
    requires nodes == []
    ensures EncNodes(dual, nodes) == [] && NeedNodes(nodes) == 0
  {
  }

  lemma Gather(a: seq<Byte>, b: seq<Byte>, c: seq<Byte>, x: seq<Byte>, y: seq<Byte>)
    ensures ((a + (b + c)) + x) + y == a + (b + (c + (x + y)))
  {
    Assoc(a, b, c);
    Assoc(a + b, c, x);
    Assoc((a + b), (c + x), y);
    Assoc(c, x, y);
    Assoc(a, b, c + (x + y));
  }

  lemma Chain(a: seq<Byte>, x: seq<Byte>, y: seq<Byte>, z: seq<Byte>)
    ensures a + (x + (y + z)) == ((a + x) + y) + z
  {
    Assoc(a, x, y + z);
    Assoc(a + x, y, z);
  }

  lemma TableExists(dual: bool, t: Table)
    requires TableOk(dual, t)
    ensures |Trim(t.slots)| < 0x1_0000_0000 && |Reread(t).nodes| < 0x1_0000_0000
    ensures forall i {:trigger t.slots[i]} :: 0 <= i < |t.slots| ==> Exists(dual, t.slots[i])
    ensures forall i {:trigger t.nodes[i]} :: 0 <= i < |t.nodes| && !Vacant(t.nodes[i]) ==>
              Exists(dual, t.nodes[i].key) && Exists(dual, t.nodes[i].val)
  {
  }

  lemma TVLength(dual: bool, o: TV, narrow: bool)
    requires Exists(dual, o)
    ensures |EncTV(dual, o, narrow)| <= NeedTV(o)
  {
    hide Uleb, Narrow;
    match o {
      case Str(s) => UlebShort(5 + |s|);
      case Int(k) => UlebShort(k);
      case Num(lo, hi) =>
        UlebShort(lo);
        UlebShort(hi);
        if Narrow(lo, hi).Whole? {
          UlebShort(Narrow(lo, hi).k);
        }
      case _ =>
    }
  }
}
