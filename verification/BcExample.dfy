/** The bytes of one dump, as the format description in `lj_bcdump.h` has them, what a dump must begin with, and the
    doubles that integers are. */
module BcExample {
  import opened Bits
  import opened Leb
  import opened BcTypes
  import opened BcTable
  import opened BcProto
  import opened BcTree

  // ---- A dump, byte by byte.

  /** A chunk with a string and two numbers as constants, one upvalue and one instruction behind its header */
  const CHUNK := Proto(2, 1, 3, [0x8001], [KStr([97])], [Int(7), Num(0, 0x3fe0_0000)], [604, 0x0102_0304], 0,
                       Debug([9], [120]), 4, 1)

  lemma HalfAsUleb()
    ensures Uleb(0x3fe0_0000) == [0x80, 0x80, 0x80, 0xff, 0x03]
  {
    hide Uleb;
    UlebStep(0x3fe0_0000);
    UlebStep(0x7f_c000);
    UlebStep(0xff80);
    UlebStep(0x1ff);
    ByteIsUleb(3);
  }

  lemma UlebStep(n: nat)
    requires n >= 128
    ensures Uleb(n) == [n % 128 + 128] + Uleb(n / 128)
  {
  }

  lemma HeadExample()
    ensures HeadBytes(false, false, CHUNK) == [0x02, 1, 3, 1, 1, 2, 1, 2, 4, 1]
  {
    hide Uleb;
    ByteIsUleb(1);
    ByteIsUleb(2);
    ByteIsUleb(4);
    DebugExample();
  }

  lemma DebugExample()
    ensures DebugBytes(false, CHUNK) == [9, 120]
  {
    assert [9][1..] == [] && EncUnits(false, 1, []) == [];
    assert EncUnits(false, 1, [9]) == [9];
  }

  lemma CodeExample()
    ensures Code(map[], CHUNK) == [0x0102_0304] && EncUnits(false, 4, [0x0102_0304]) == [4, 3, 2, 1]
    ensures EncUnits(false, 2, [0x8001]) == [0x01, 0x80]
  {
    assert [0x0102_0304][1..] == [] && [0x8001][1..] == [];
    assert EncUnits(false, 4, []) == [] && EncUnits(false, 2, []) == [];
  }

  lemma ConstantsExample()
    ensures EncConsts(true, CHUNK.kgc) == [6, 97]
    ensures AllNumbers(CHUNK.kn) && EncKns(true, CHUNK.kn) == [14, 1, 0x80, 0x80, 0x80, 0xff, 0x03]
  {
    hide Uleb;
    ByteIsUleb(6);
    ByteIsUleb(14);
    ByteIsUleb(1);
    HalfAsUleb();
    assert CHUNK.kgc[1..] == [] && CHUNK.kn[1..] == [Num(0, 0x3fe0_0000)] && CHUNK.kn[1..][1..] == [];
    assert EncKn(true, CHUNK.kn[0]) == [14];
    assert EncKn(true, CHUNK.kn[1]) == [1, 0x80, 0x80, 0x80, 0xff, 0x03];
    assert EncKns(true, CHUNK.kn[1..]) == EncKn(true, CHUNK.kn[1]) + EncKns(true, CHUNK.kn[1..][1..]);
  }

  lemma BodyExample()
    ensures Writable(CHUNK)
    ensures Body(false, true, false, map[], CHUNK) ==
            [0x02, 1, 3, 1, 1, 2, 1, 2, 4, 1] + [4, 3, 2, 1] + [0x01, 0x80] + [6, 97]
            + [14, 1, 0x80, 0x80, 0x80, 0xff, 0x03] + [9, 120]
  {
    hide HeadBytes, Code, EncUnits, EncConsts, EncKns, DebugBytes;
    HeadExample();
    CodeExample();
    ConstantsExample();
    DebugExample();
    assert |CHUNK.uv| == 1;
    var a, b, c, d, e, f := HeadBytes(false, false, CHUNK), EncUnits(false, 4, Code(map[], CHUNK)),
      EncUnits(false, 2, CHUNK.uv), EncConsts(true, CHUNK.kgc), EncKns(true, CHUNK.kn), DebugBytes(false, CHUNK);
    assert Body(false, true, false, map[], CHUNK) == a + (b + (c + (d + (e + f))));
  }

  /** The dump of it with the name `@a`, on a little-endian host with integer values and one-slot frames */
  lemma DumpExample()
    ensures Dump(Dumper(Host(false, true, false), false, map[]), CHUNK, [64, 97]) ==
            [0x1b, 0x4c, 0x4a, 2, 0, 2, 64, 97] + [27]
            + ([0x02, 1, 3, 1, 1, 2, 1, 2, 4, 1] + [4, 3, 2, 1] + [0x01, 0x80] + [6, 97]
               + [14, 1, 0x80, 0x80, 0x80, 0xff, 0x03] + [9, 120]) + [0]
  {
    hide Body, Header, EncTree, Dump;
    BodyExample();
    FrameExample(Body(false, true, false, map[], CHUNK));
    HeaderExample();
    DumpJoined(Dumper(Host(false, true, false), false, map[]), CHUNK, [64, 97],
              [0x1b, 0x4c, 0x4a, 2, 0, 2, 64, 97], [27], Body(false, true, false, map[], CHUNK));
  }

  lemma DumpJoined(d: Dumper, p: Proto, name: seq<Byte>, h: seq<Byte>, n: seq<Byte>, b: seq<Byte>)
    requires Header(d, p, name) == h && EncTree(d, p) == n + b
    ensures Dump(d, p, name) == h + n + b + [0]
  {
    hide Header, EncTree;
    Assoc(h, n, b);
    Assoc(h, n + b, [0]);
  }

  lemma FrameExample(b: seq<Byte>)
    requires Writable(CHUNK) && b == Body(false, true, false, map[], CHUNK) && |b| == 27
    ensures EncTree(Dumper(Host(false, true, false), false, map[]), CHUNK) == [27] + b
  {
    hide Uleb, Body;
    ByteIsUleb(27);
  }

  lemma HeaderExample()
    ensures Header(Dumper(Host(false, true, false), false, map[]), CHUNK, [64, 97])
            == [0x1b, 0x4c, 0x4a, 2, 0, 2, 64, 97]
  {
    hide Uleb;
    ByteIsUleb(2);
  }

  // ---- What is no dump.

  /** Only what begins like a dump of a build with the same frames, and of this version, is loaded; and only if
      flags that this version does not know are not set. */
  lemma OnlyDumps(host: Host, arg: seq<Byte>, st: Input, endmark: bool, stack: seq<Proto>)
    requires ReadDump(host, arg, st, endmark, stack).Loaded?
    ensures Want(st, 13, false).Refilled?
    ensures var w := Want(st, 13, false).st.win;
            && |w| > 3 && w[..3] == [0x4c, 0x4a, 2] && ReadUleb(w[3..]).Done?
            && var flags := ReadUleb(w[3..]).value; flags < 16 && (flags / 8 == 1) == host.fr2
  {
    hide Loop, Want, ReadUleb;
    var w := Want(st, 13, false).st.win;
    assert w[..3] == [w[0], w[1], w[2]];
    NoNumber(w[3..]);
  }

  lemma NoNumber(b: seq<Byte>)
    ensures ReadUleb(b).Done? ==> b != []
  {
  }

  // ---- Doubles that are integers.

  /** The double that an integer is: its sign, and 2^52 plus its mantissa, scaled by its exponent. */
  lemma WidenValue(k: Word)
    requires k != 0
    ensures var o := Widen(k);
            var e: int, m := o.hi % 0x8000_0000 / 0x10_0000 - 1023, o.hi % 0x10_0000 * 0x1_0000_0000 + o.lo;
            var size := if k < 0x8000_0000 then k else 0x1_0000_0000 - k;
            && (o.hi >= 0x8000_0000 <==> k >= 0x8000_0000)
            && 0 <= e <= 52 && 0x10_0000_0000_0000 + m == size * Pow2(52 - e)
  {
    hide Pow2, Fls, Scaled;
    var a, o := Magnitude(k), Widen(k);
    MantissaFits(a);
    var e, m := Fls(a), Mantissa(a);
    var top := m / 0x1_0000_0000;
    assert top < 0x10_0000 && m == top * 0x1_0000_0000 + o.lo;
    HighWord(Sign(k), 1023 + e, top);
    Pow2Sum(e, 52 - e);
    Pow52();
    Spread(a, Pow2(e), Pow2(52 - e));
  }

  lemma Spread(a: nat, p: nat, q: nat)
    requires p <= a
    ensures p * q + Scaled(a, p, q) == a * q
  {
    assert (a - p) * q == a * q - p * q;
  }
}
