/** The string buffer of the auxiliary library (`lib_aux.c`): pieces on the Lua stack, and a fixed
    buffer for what comes last. */
module Buffers {
  import opened Pattern

  const LUAL_BUFFERSIZE := 8192
  const LUA_MINSTACK := 20

  type Text = seq<Byte>

  function Concat(pieces: seq<Text>): Text {
    if pieces == [] then [] else Concat(pieces[..|pieces| - 1]) + pieces[|pieces| - 1]
  }

  lemma {:induction false} ConcatSplit(a: seq<Text>, b: seq<Text>)
    ensures Concat(a + b) == Concat(a) + Concat(b)
  {
    if b == [] {
      assert a + b == a;
    } else {
      var n := |b| - 1;
      assert (a + b)[..|a| + n] == a + b[..n];
      ConcatSplit(a, b[..n]);
    }
  }

  lemma ConcatOne(a: seq<Text>, x: Text)
    ensures Concat(a + [x]) == Concat(a) + x
  {
    assert (a + [x])[..|a|] == a;
  }

  lemma InsertedUnder(stack: seq<Text>, lvl: nat, s: Text)
    requires lvl < |stack|
    ensures var n, t := |stack|, stack[..|stack| - 1] + [s, stack[|stack| - 1]];
            && |t| == n + 1 && t[n] == stack[n - 1] && t[..n - lvl - 1] == stack[..n - lvl - 1]
            && t[n - lvl - 1..n] == stack[n - lvl - 1..n - 1] + [s]
  {
  }

  class Buffer {
    const buffer: array<Byte>
    var p: nat
    var lvl: nat
    var stack: seq<Text>  // the strings on the Lua stack

    ghost predicate Valid()
      reads this
    {
      buffer.Length == LUAL_BUFFERSIZE && p <= LUAL_BUFFERSIZE && lvl <= |stack|
    }

    /** Few enough pieces for the stack space a C function has. */
    ghost predicate Small()
      reads this
    {
      lvl < LUA_MINSTACK / 2
    }

    /** What lies below the pieces. */
    ghost function Below(): seq<Text>
      reads this
      requires Valid()
    {
      stack[..|stack| - lvl]
    }

    ghost function Pieces(): seq<Text>
      reads this
      requires Valid()
    {
      stack[|stack| - lvl..]
    }

    /** The text in the buffer, pieces first. */
    ghost function Content(): Text
      reads this, buffer
      requires Valid()
    {
      Concat(Pieces()) + buffer[..p]
    }

    /** The text x has been appended. */
    twostate predicate Appended(x: Text)
      requires old(Valid())
      reads this, buffer
    {
      Valid() && Small() && Content() == old(Content()) + x && Below() == old(Below())
    }

    /** `luaL_buffinit` */
    constructor (stack: seq<Text>)
      ensures Valid() && Small() && Content() == [] && Below() == stack && fresh(buffer)
    {
      buffer := new Byte[LUAL_BUFFERSIZE];
      p, lvl := 0, 0;
      this.stack := stack;
    }

    method Push(x: Text)
      requires Valid()
      modifies this`stack
      ensures stack == old(stack) + [x]
    {
      stack := stack + [x];
    }

    /** One more piece */
    method AddPiece(x: Text)
      requires Valid()
      modifies this`stack, this`lvl
      ensures Valid() && stack == old(stack) + [x] && lvl == old(lvl) + 1 && Below() == old(Below())
      ensures Concat(Pieces()) == old(Concat(Pieces())) + x
    {
      ghost var pieces := Pieces();
      stack := stack + [x];
      lvl := lvl + 1;
      assert Pieces() == pieces + [x];
      ConcatOne(pieces, x);
    }

    /** `emptybuffer` */
    method EmptyBuffer() returns (b: bool)
      requires Valid()
      modifies this
      ensures Valid() && p == 0 && Content() == old(Content()) && Below() == old(Below())
      ensures b <==> old(p) != 0
      ensures if b then lvl == old(lvl) + 1 && stack == old(stack) + [old(buffer[..p])]
              else lvl == old(lvl) && stack == old(stack)
    {
      if p == 0 {
        return false;  // put nothing on stack
      }
      AddPiece(buffer[..p]);
      p := 0;
      b := true;
    }

    /** `lua_concat` of the top n > 0 strings */
    method ConcatTop(n: nat)
      requires Valid() && 0 < n <= lvl
      modifies this`stack, this`lvl
      ensures Valid() && lvl == old(lvl) - n + 1 && Content() == old(Content()) && Below() == old(Below())
    {
      ghost var pieces := Pieces();
      var k := |stack| - n;
      assert pieces == pieces[..lvl - n] + pieces[lvl - n..] && pieces[lvl - n..] == stack[k..]
             && pieces[..lvl - n] == stack[|stack| - lvl..k];
      ConcatSplit(pieces[..lvl - n], pieces[lvl - n..]);
      stack := stack[..k] + [Concat(stack[k..])];
      lvl := lvl - n + 1;
      assert Pieces() == pieces[..old(lvl) - n] + [Concat(pieces[old(lvl) - n..])];
      ConcatSplit(pieces[..old(lvl) - n], [Concat(pieces[old(lvl) - n..])]);
      assert Concat([Concat(pieces[old(lvl) - n..])]) == Concat(pieces[old(lvl) - n..]);
    }

    /** `adjuststack`: join the top pieces until there are few of them, of falling size. */
    method AdjustStack()
      requires Valid()
      modifies this`stack, this`lvl
      ensures Valid() && Small() && Content() == old(Content()) && Below() == old(Below())
    {
      if lvl > 1 {
        var toget := 1;  // number of levels to concat
        var toplen := |stack[|stack| - 1]|;
        while true
          invariant 1 <= toget < lvl
          decreases lvl - toget
        {
          var l := |stack[|stack| - (toget + 1)]|;
          if !(lvl - toget + 1 >= LUA_MINSTACK / 2 || toplen > l) {
            break;
          }
          toplen := toplen + l;
          toget := toget + 1;
          if toget == lvl {
            break;
          }
        }
        ConcatTop(toget);
      }
    }

    /** `luaL_prepbuffer` */
    method PrepBuffer()
      requires Valid() && Small()
      modifies this
      ensures Appended([]) && p == 0
    {
      var b := EmptyBuffer();
      if b {
        AdjustStack();
      }
      assert Content() == old(Content()) + [];
    }

    /** `luaL_addchar` */
    method AddChar(c: Byte)
      requires Valid() && Small()
      modifies this, buffer
      ensures Appended([c])
    {
      if p >= LUAL_BUFFERSIZE {
        PrepBuffer();
      }
      ghost var pieces, was := Pieces(), buffer[..p];
      buffer[p] := c;
      p := p + 1;
      assert buffer[..p] == was + [c] && Pieces() == pieces;
      assert Concat(pieces) + (was + [c]) == (Concat(pieces) + was) + [c];
    }

    /** `memcpy` to the end of the buffer */
    method Put(x: Text)
      requires Valid() && |x| <= LUAL_BUFFERSIZE - p
      modifies this`p, buffer
      ensures Valid() && p == old(p) + |x| && buffer[..p] == old(buffer[..p]) + x
    {
      forall k | 0 <= k < |x| {
        buffer[p + k] := x[k];
      }
      p := p + |x|;
    }

    /** `luaL_addlstring` */
    method AddLString(x: Text)
      requires Valid() && Small()
      modifies this, buffer
      ensures Appended(x)
    {
      if |x| <= LUAL_BUFFERSIZE - p {
        ghost var pieces, was := Pieces(), buffer[..p];
        Put(x);
        assert Pieces() == pieces && Concat(pieces) + (was + x) == (Concat(pieces) + was) + x;
      } else {
        var _ := EmptyBuffer();
        assert buffer[..p] == [];
        assert Content() == Concat(Pieces());
        AddPiece(x);
        assert Content() == Concat(Pieces());
        AdjustStack();
      }
    }

    /** `luaL_addvalue`: append the value on the top of the stack, and pop it. */
    method AddValue()
      requires Valid() && Small() && lvl < |stack|
      modifies this, buffer
      ensures Valid() && Small() && Content() == old(ContentUnder() + stack[|stack| - 1])
      ensures Below() == old(BelowUnder())
    {
      var x := stack[|stack| - 1];
      if |x| <= LUAL_BUFFERSIZE - p {  // fit into buffer?
        ghost var pieces, was := PiecesUnder(), buffer[..p];
        Put(x);  // put it there
        stack := stack[..|stack| - 1];  // remove from stack
        assert Pieces() == pieces && Concat(pieces) + (was + x) == (Concat(pieces) + was) + x;
      } else {
        EmptyUnder();
        TakeIn();
        AdjustStack();
      }
    }

    /** `emptybuffer`, and put the buffer before the new value. */
    method EmptyUnder()
      requires Valid() && lvl < |stack|
      modifies this
      ensures Valid() && lvl < |stack| && p == 0 && stack[|stack| - 1] == old(stack[|stack| - 1])
      ensures ContentUnder() == old(ContentUnder()) && BelowUnder() == old(BelowUnder())
    {
      if p != 0 {
        ghost var pieces := PiecesUnder();
        var s := buffer[..p];
        InsertedUnder(stack, lvl, s);
        stack := stack[..|stack| - 1] + [s, stack[|stack| - 1]];
        p := 0;
        lvl := lvl + 1;
        assert PiecesUnder() == pieces + [s];
        ConcatOne(pieces, s);
        assert Concat(pieces) + s + [] == Concat(pieces) + s;
      }
      assert buffer[..p] == [];
    }

    /** Add the new value into the stack of pieces. */
    method TakeIn()
      requires Valid() && lvl < |stack| && p == 0
      modifies this`lvl
      ensures Valid() && Content() == old(ContentUnder() + stack[|stack| - 1]) && Below() == old(BelowUnder())
    {
      ghost var pieces := PiecesUnder();
      lvl := lvl + 1;
      assert Pieces() == pieces + [stack[|stack| - 1]];
      ConcatOne(pieces, stack[|stack| - 1]);
      assert buffer[..p] == [];
    }

    /** The same with one more value on the top of the stack. */
    ghost function PiecesUnder(): seq<Text>
      reads this
      requires Valid() && lvl < |stack|
    {
      stack[|stack| - lvl - 1..|stack| - 1]
    }

    ghost function ContentUnder(): Text
      reads this, buffer
      requires Valid() && lvl < |stack|
    {
      Concat(PiecesUnder()) + buffer[..p]
    }

    ghost function BelowUnder(): seq<Text>
      reads this
      requires Valid() && lvl < |stack|
    {
      stack[..|stack| - lvl - 1]
    }

    /** `luaL_pushresult`: the text is one string on the top of the stack. */
    method PushResult()
      requires Valid()
      modifies this
      ensures Valid() && lvl == 1 && stack == old(Below() + [Content()])
    {
      var b := EmptyBuffer();
      ghost var below, text := Below(), Content();
      if lvl == 0 {
        assert Pieces() == [] && below == stack && text == [];
        stack := stack + [[]];
        lvl := 1;
        assert Below() == below;
      } else {
        ConcatTop(lvl);
      }
      assert Pieces() == [] + [stack[|stack| - 1]];
      ConcatOne([], stack[|stack| - 1]);
      assert buffer[..p] == [];
      assert Concat(Pieces()) == stack[|stack| - 1];
      assert stack[|stack| - 1] == text;
      assert stack == Below() + Pieces();
    }
  }
}
