/** Template tables in the bytecode dump: what is written of them, and that it is read back as the same map. */
module BcTable {
  import opened Leb
  import opened BcTypes

  // ---- One value.

  /** `bcwrite_ktabk` */
  function EncTV(dual: bool, o: TV, narrow: bool): seq<Byte> {
    match o
    case Nil => [BCDUMP_KTAB_NIL]
    case False => [BCDUMP_KTAB_FALSE]
    case True => [BCDUMP_KTAB_TRUE]
    case Int(k) => [BCDUMP_KTAB_INT] + Uleb(k)
    case Num(lo, hi) =>
      if !dual && narrow && Narrow(lo, hi).Whole? then [BCDUMP_KTAB_INT] + Uleb(Narrow(lo, hi).k)
      else [BCDUMP_KTAB_NUM] + (Uleb(lo) + Uleb(hi))
    case Str(s) => Uleb(BCDUMP_KTAB_STR + |s|) + s
  }

  /** `setintV`: a double, in builds without integer values */
  function SetInt(dual: bool, k: Word): TV {
    if dual then Int(k) else Widen(k)
  }

  /** The values of a build, as the C types bound them. */
  predicate Exists(dual: bool, o: TV) {
    (o.Int? ==> dual) && (o.Str? ==> |o.s| <= LJ_MAX_BUF)
  }

  /** Values that are read back as they were. */
  predicate Kept(dual: bool, o: TV, narrow: bool) {
    Exists(dual, o) && (!dual && narrow ==> !MinusZero(o))
  }

  /** What becomes of a value that is written narrow: a negative zero loses its sign, unless numbers are dual. */
  function Back(dual: bool, o: TV): TV {
    if !dual && MinusZero(o) then Num(0, 0) else o
  }

  function BackAll(dual: bool, a: seq<TV>): (r: seq<TV>)
    ensures |r| == |a|
  {
    seq(|a|, i requires 0 <= i < |a| => Back(dual, a[i]))
  }

  /** Values come back as they were exactly if none of them is such a zero. */
  lemma BackSame(dual: bool, a: seq<TV>)
    ensures BackAll(dual, a) == a <==> forall i {:trigger a[i]} :: 0 <= i < |a| ==> dual || !MinusZero(a[i])
  {
    forall i | 0 <= i < |a|
      ensures BackAll(dual, a)[i] == a[i] <==> dual || !MinusZero(a[i])
    {
    }
  }

  /** `bcread_ktabk` */
  function ReadTV(dual: bool, b: seq<Byte>): Parsed<TV> {
    match ReadUleb(b)
    case Bad => Bad
    case Done(tp, r) =>
      if tp >= BCDUMP_KTAB_STR then
        var len := tp - BCDUMP_KTAB_STR;
        if |r| < len then Bad else Done(Str(r[..len]), r[len..])
      else if tp == BCDUMP_KTAB_INT then
        match ReadUleb(r)
        case Bad => Bad
        case Done(k, r') => Done(SetInt(dual, k), r')
      else if tp == BCDUMP_KTAB_NUM then ReadNum(r)
      else Done(if tp == BCDUMP_KTAB_NIL then Nil else if tp == BCDUMP_KTAB_FALSE then False else True, r)
  }

  function ReadNum(b: seq<Byte>): Parsed<TV> {
    match ReadUleb(b)
    case Bad => Bad
    case Done(lo, r) =>
      match ReadUleb(r)
      case Bad => Bad
      case Done(hi, r') => Done(Num(lo, hi), r')
  }

  lemma Assoc(a: seq<Byte>, b: seq<Byte>, c: seq<Byte>)
    ensures (a + b) + c == a + (b + c)
  {
  }

  lemma NumBack(lo: Word, hi: Word, rest: seq<Byte>)
    ensures ReadNum(Uleb(lo) + Uleb(hi) + rest) == Done(Num(lo, hi), rest)
  {
    Assoc(Uleb(lo), Uleb(hi), rest);
    ReadBack(lo, Uleb(hi) + rest);
    ReadBack(hi, rest);
  }

  lemma ByteIsUleb(tp: Byte)
    requires tp < 128
    ensures Uleb(tp) == [tp]
  {
  }

  /** A value is read back as it was, except that a negative zero written as an integer loses its sign. */
  lemma ValueBack(dual: bool, o: TV, narrow: bool, rest: seq<Byte>)
    requires Exists(dual, o)
    ensures ReadTV(dual, EncTV(dual, o, narrow) + rest).Done?
    ensures ReadTV(dual, EncTV(dual, o, narrow) + rest).rest == rest
    ensures ReadTV(dual, EncTV(dual, o, narrow) + rest).value == if narrow then Back(dual, o) else o
    ensures ReadTV(dual, EncTV(dual, o, narrow) + rest).value == o <==> Kept(dual, o, narrow)
  {
    hide Uleb, ReadUleb, Narrow, Widen, ReadNum;
    match o {
      case Nil =>
        ByteIsUleb(BCDUMP_KTAB_NIL);
        ReadBack(BCDUMP_KTAB_NIL, rest);
      case False =>
        ByteIsUleb(BCDUMP_KTAB_FALSE);
        ReadBack(BCDUMP_KTAB_FALSE, rest);
      case True =>
        ByteIsUleb(BCDUMP_KTAB_TRUE);
        ReadBack(BCDUMP_KTAB_TRUE, rest);
      case Int(k) =>
        IntBack(dual, k, rest);
      case Num(lo, hi) =>
        if !dual && narrow && Narrow(lo, hi).Whole? {
          IntBack(dual, Narrow(lo, hi).k, rest);
          WidenNarrowed(lo, hi);
        } else {
          DoubleBack(dual, lo, hi, rest);
          if !dual && narrow {
            MinusZeroWhole(lo, hi);
          }
        }
      case Str(s) =>
        Assoc(Uleb(BCDUMP_KTAB_STR + |s|), s, rest);
        ReadBack(BCDUMP_KTAB_STR + |s|, s + rest);
        assert (s + rest)[..|s|] == s && (s + rest)[|s|..] == rest;
    }
  }

  /** The constant for which it is false. No compiler makes it, but a dump can hold it: there is such a double. */
  lemma MinusZeroLost(rest: seq<Byte>)
    ensures ReadTV(false, EncTV(false, Num(0, 0x8000_0000), true) + rest) == Done(Num(0, 0), rest)
    ensures ReadTV(false, EncTV(false, Num(0, 0x8000_0000), false) + rest) == Done(Num(0, 0x8000_0000), rest)
  {
    ValueBack(false, Num(0, 0x8000_0000), true, rest);
    ValueBack(false, Num(0, 0x8000_0000), false, rest);
  }

  lemma MinusZeroWhole(lo: Word, hi: Word)
    requires !Narrow(lo, hi).Whole?
    ensures !MinusZero(Num(lo, hi))
  {
  }

  lemma IntBack(dual: bool, k: Word, rest: seq<Byte>)
    ensures ReadTV(dual, [BCDUMP_KTAB_INT] + Uleb(k) + rest) == Done(SetInt(dual, k), rest)
  {
    hide Uleb, ReadUleb, Narrow, Widen, ReadNum;
    ByteIsUleb(BCDUMP_KTAB_INT);
    Assoc([BCDUMP_KTAB_INT], Uleb(k), rest);
    ReadBack(BCDUMP_KTAB_INT, Uleb(k) + rest);
    ReadBack(k, rest);
  }

  lemma DoubleBack(dual: bool, lo: Word, hi: Word, rest: seq<Byte>)
    ensures ReadTV(dual, [BCDUMP_KTAB_NUM] + (Uleb(lo) + Uleb(hi)) + rest) == Done(Num(lo, hi), rest)
  {
    hide Uleb, ReadUleb, Narrow, Widen, ReadNum;
    ByteIsUleb(BCDUMP_KTAB_NUM);
    Assoc([BCDUMP_KTAB_NUM], Uleb(lo) + Uleb(hi), rest);
    ReadBack(BCDUMP_KTAB_NUM, Uleb(lo) + Uleb(hi) + rest);
    NumBack(lo, hi, rest);
  }

  // ---- Tables.

  datatype Node = Node(key: TV, val: TV)

  /** A table: its array part for the keys from 0 on, and the nodes of its hash part. */
  datatype Table = Table(slots: seq<TV>, nodes: seq<Node>)

  /** The integer that a key equals. */
  function IndexOf(key: TV): Narrowed {
    match key
    case Int(k) => Whole(k)
    case Num(lo, hi) => Narrow(lo, hi)
    case _ => Fraction
  }

  predicate IsNaN(o: TV) {
    o.Num? && o.hi % 0x8000_0000 / 0x10_0000 == 0x7ff && (o.hi % 0x10_0000 != 0 || o.lo != 0)
  }

  /** The key as it is stored in a node: integers as doubles. */
  function Canon(key: TV): TV {
    match IndexOf(key)
    case Whole(k) => Widen(k)
    case Fraction => key
  }

  /** The value of the first node with the key. */
  function Find(nodes: seq<Node>, key: TV): TV {
    if nodes == [] then Nil else if nodes[0].key == key then nodes[0].val else Find(nodes[1..], key)
  }

  /** What a program reads at a key. */
  function Get(t: Table, key: TV): TV {
    match IndexOf(key)
    case Whole(k) => if k < |t.slots| then t.slots[k] else Find(t.nodes, Widen(k))
    case Fraction => Find(t.nodes, key)
  }

  /** `lj_tab_set`: the new nodes. */
  function SetNode(nodes: seq<Node>, key: TV, val: TV): seq<Node> {
    if nodes == [] then [Node(key, val)]
    else if nodes[0].key == key then [Node(key, val)] + nodes[1..]
    else [nodes[0]] + SetNode(nodes[1..], key, val)
  }

  /** `lj_tab_set`, followed by the store. */
  function TabSet(t: Table, key: TV, val: TV): Table {
    match IndexOf(key)
    case Whole(k) =>
      if k < |t.slots| then t.(slots := t.slots[k := val]) else t.(nodes := SetNode(t.nodes, Widen(k), val))
    case Fraction => t.(nodes := SetNode(t.nodes, key, val))
  }

  /** A key for which `lj_tab_set` raises no error. */
  predicate IsKey(key: TV) {
    key != Nil && !IsNaN(key)
  }

  /** The node is free or dead. */
  predicate Vacant(n: Node) {
    n.val == Nil
  }

  /** The key of a node is stored as keys are, and the array part has no place for it. */
  predicate NodeOk(t: Table, n: Node) {
    && IsKey(n.key) && Canon(n.key) == n.key
    && (IndexOf(n.key).Whole? ==> IndexOf(n.key).k >= |t.slots|)
  }

  /** Two nodes have different keys, if one of them is in use. */
  predicate Apart(m: Node, n: Node) {
    m.key == n.key ==> Vacant(m) && Vacant(n)
  }

  /** What the table code keeps: a hash part of one node is the shared empty one. */
  ghost predicate TableOk(dual: bool, t: Table) {
    && (|t.nodes| == 1 ==> Vacant(t.nodes[0])) && |t.slots| < 0x1_0000_0000 && |t.nodes| < 0x1_0000_0000
    && (forall i {:trigger t.slots[i]} :: 0 <= i < |t.slots| ==> Exists(dual, t.slots[i]))
    && (forall i {:trigger t.nodes[i]} :: 0 <= i < |t.nodes| && !Vacant(t.nodes[i]) ==>
          NodeOk(t, t.nodes[i]) && Exists(dual, t.nodes[i].key) && Exists(dual, t.nodes[i].val))
    && Unique(t.nodes)
  }

  ghost predicate Unique(nodes: seq<Node>) {
    forall i: nat, j: nat {:trigger nodes[i], nodes[j]} :: i < j < |nodes| ==> Apart(nodes[i], nodes[j])
  }

  /** The array part up to its last value. */
  function Trim(a: seq<TV>): (r: seq<TV>)
    ensures |r| <= |a| && r == a[..|r|]
    ensures forall i {:trigger a[i]} :: |r| <= i < |a| ==> a[i] == Nil
    ensures r != [] ==> r[|r| - 1] != Nil
  {
    if a != [] && a[|a| - 1] == Nil then
      var r := Trim(a[..|a| - 1]);
      assert forall i :: 0 <= i < |a| - 1 ==> a[..|a| - 1][i] == a[i];
      r
    else a
  }

  /** The nodes in use, last one first. */
  function Backwards(nodes: seq<Node>): (r: seq<Node>)
    ensures |r| <= |nodes|
  {
    if nodes == [] then []
    else
      var n := nodes[|nodes| - 1];
      (if Vacant(n) then [] else [n]) + Backwards(nodes[..|nodes| - 1])
  }

  /** The table as it is written. */
  function Reread(t: Table): Table {
    Table(Trim(t.slots), Backwards(if |t.nodes| > 1 then t.nodes else []))
  }

  function BackNodes(dual: bool, nodes: seq<Node>): (r: seq<Node>)
    ensures |r| == |nodes|
  {
    seq(|nodes|, i requires 0 <= i < |nodes| => Node(nodes[i].key, Back(dual, nodes[i].val)))
  }

  /** The table as it is read back. */
  function Rebuilt(dual: bool, t: Table): Table {
    Table(BackAll(dual, Reread(t).slots), BackNodes(dual, Reread(t).nodes))
  }

  // ---- Writing and reading tables.

  function EncArray(dual: bool, a: seq<TV>): seq<Byte> {
    if a == [] then [] else EncTV(dual, a[0], true) + EncArray(dual, a[1..])
  }

  function EncNodes(dual: bool, nodes: seq<Node>): seq<Byte> {
    if nodes == [] then []
    else EncTV(dual, nodes[0].key, false) + (EncTV(dual, nodes[0].val, true) + EncNodes(dual, nodes[1..]))
  }

  /** `bcwrite_ktab` */
  function EncTable(dual: bool, t: Table): seq<Byte> {
    var r := Reread(t);
    Uleb(|r.slots|) + (Uleb(|r.nodes|) + (EncArray(dual, r.slots) + EncNodes(dual, r.nodes)))
  }

  function ReadArray(dual: bool, b: seq<Byte>, n: nat): Parsed<seq<TV>> {
    if n == 0 then Done([], b)
    else
      match ReadTV(dual, b)
      case Bad => Bad
      case Done(o, r) =>
        match ReadArray(dual, r, n - 1)
        case Bad => Bad
        case Done(os, r') => Done([o] + os, r')
  }

  function ReadNodes(dual: bool, b: seq<Byte>, n: nat, t: Table): Parsed<Table>
    decreases n
  {
    if n == 0 then Done(t, b)
    else
      match ReadTV(dual, b)
      case Bad => Bad
      case Done(key, r) =>
        if !IsKey(key) then Bad
        else
          match ReadTV(dual, r)
          case Bad => Bad
          case Done(val, r') => ReadNodes(dual, r', n - 1, TabSet(t, key, val))
  }

  /** `bcread_ktab` */
  function ReadTable(dual: bool, b: seq<Byte>): Parsed<Table> {
    match ReadUleb(b)
    case Bad => Bad
    case Done(narray, r) =>
      match ReadUleb(r)
      case Bad => Bad
      case Done(nhash, r') =>
        match ReadArray(dual, r', narray)
        case Bad => Bad
        case Done(a, r'') => ReadNodes(dual, r'', nhash, Table(a, []))
  }

  // ---- Reading back.

  lemma {:induction false} ArrayBack(dual: bool, a: seq<TV>, rest: seq<Byte>)
    requires forall i {:trigger a[i]} :: 0 <= i < |a| ==> Exists(dual, a[i])
    ensures ReadArray(dual, EncArray(dual, a) + rest, |a|) == Done(BackAll(dual, a), rest)
  {
    hide EncTV, ReadTV, Exists, Back;
    if a != [] {
      var e, es := EncTV(dual, a[0], true), EncArray(dual, a[1..]);
      Assoc(e, es, rest);
      ValueBack(dual, a[0], true, es + rest);
      assert forall i :: 0 <= i < |a| - 1 ==> a[1..][i] == a[i + 1];
      ArrayBack(dual, a[1..], rest);
      assert [Back(dual, a[0])] + BackAll(dual, a[1..]) == BackAll(dual, a);
    } else {
      assert EncArray(dual, a) + rest == rest;
    }
  }

  /** A node for a key that is not there yet is appended. */
  lemma {:induction false} SetNew(nodes: seq<Node>, key: TV, val: TV)
    requires forall i {:trigger nodes[i]} :: 0 <= i < |nodes| ==> nodes[i].key != key
    ensures SetNode(nodes, key, val) == nodes + [Node(key, val)]
  {
    if nodes != [] {
      assert forall i :: 0 <= i < |nodes| - 1 ==> nodes[1..][i] == nodes[i + 1];
      SetNew(nodes[1..], key, val);
    }
  }

  ghost predicate Fresh(t: Table, nodes: seq<Node>) {
    && (forall i {:trigger nodes[i]} :: 0 <= i < |nodes| ==> NodeOk(t, nodes[i]) && !Vacant(nodes[i]))
    && Unique(t.nodes + nodes)
  }

  predicate AllExist(dual: bool, nodes: seq<Node>) {
    forall i {:trigger nodes[i]} :: 0 <= i < |nodes| ==> Exists(dual, nodes[i].key) && Exists(dual, nodes[i].val)
  }

  lemma {:induction false} NodesBack(dual: bool, t: Table, nodes: seq<Node>, rest: seq<Byte>)
    requires AllExist(dual, nodes) && Fresh(t, BackNodes(dual, nodes))
    ensures ReadNodes(dual, EncNodes(dual, nodes) + rest, |nodes|, t)
            == Done(t.(nodes := t.nodes + BackNodes(dual, nodes)), rest)
    decreases |nodes|
  {
    hide EncTV, ReadTV, Exists, TabSet, Unique, Back, Fresh;
    if nodes != [] {
      var n, more, back := nodes[0], EncNodes(dual, nodes[1..]), BackNodes(dual, nodes);
      assert back[1..] == BackNodes(dual, nodes[1..]);
      assert forall i :: 0 <= i < |nodes| - 1 ==> nodes[1..][i] == nodes[i + 1];
      var k, v := EncTV(dual, n.key, false), EncTV(dual, n.val, true);
      Assoc(k, v + more, rest);
      Assoc(v, more, rest);
      FirstFresh(t, back);
      ValueBack(dual, n.key, false, v + (more + rest));
      ValueBack(dual, n.val, true, more + rest);
      NodesBack(dual, t.(nodes := t.nodes + [back[0]]), nodes[1..], rest);
      Snoc(t.nodes, back);
    } else {
      assert EncNodes(dual, nodes) + rest == rest;
      assert t.nodes + BackNodes(dual, nodes) == t.nodes;
    }
  }

  lemma Snoc(a: seq<Node>, b: seq<Node>)
    requires b != []
    ensures a + [b[0]] + b[1..] == a + b
  {
  }

  lemma FirstFresh(t: Table, nodes: seq<Node>)
    requires Fresh(t, nodes) && nodes != []
    ensures var n := nodes[0];
            && IsKey(n.key) && TabSet(t, n.key, n.val) == t.(nodes := t.nodes + [n])
            && Fresh(t.(nodes := t.nodes + [n]), nodes[1..])
  {
    var n, all := nodes[0], t.nodes + nodes;
    assert NodeOk(t, n) && !Vacant(n);
    forall i | 0 <= i < |t.nodes|
      ensures t.nodes[i].key != n.key
    {
      assert all[i] == t.nodes[i] && all[|t.nodes|] == n;
      assert Apart(all[i], all[|t.nodes|]);
    }
    SetNew(t.nodes, n.key, n.val);
    assert TabSet(t, n.key, n.val) == t.(nodes := t.nodes + [n]);
    var t' := t.(nodes := t.nodes + [n]);
    Snoc(t.nodes, nodes);
    forall i | 0 <= i < |nodes| - 1
      ensures NodeOk(t', nodes[1..][i]) && !Vacant(nodes[1..][i])
    {
      assert nodes[1..][i] == nodes[i + 1];
    }
  }

  // ---- The nodes in use.

  /** The nodes written are those in use. */
  lemma {:induction false} InUse(nodes: seq<Node>, i: nat)
    requires i < |Backwards(nodes)|
    ensures !Vacant(Backwards(nodes)[i]) && Backwards(nodes)[i] in nodes
    decreases |nodes|
  {
    if nodes != [] {
      var n := nodes[|nodes| - 1];
      var k := if Vacant(n) then 0 else 1;
      if i >= k {
        InUse(nodes[..|nodes| - 1], i - k);
      }
    }
  }

  lemma {:induction false} BackwardsUnique(nodes: seq<Node>)
    requires Unique(nodes)
    ensures Unique(Backwards(nodes))
    decreases |nodes|
  {
    if nodes != [] {
      var m := |nodes| - 1;
      var n, less := nodes[m], nodes[..m];
      UniqueLess(nodes);
      BackwardsUnique(less);
      if !Vacant(n) {
        var r := Backwards(less);
        forall i: nat, j: nat | i < j < |[n] + r|
          ensures Apart(([n] + r)[i], ([n] + r)[j])
        {
          if i == 0 {
            InUse(less, j - 1);
            var x: nat :| x < m && less[x] == r[j - 1];
            assert Apart(nodes[x], nodes[m]);
          } else {
            assert Apart(r[i - 1], r[j - 1]);
          }
        }
      }
    }
  }

  lemma UniqueLess(nodes: seq<Node>)
    requires Unique(nodes) && nodes != []
    ensures Unique(nodes[..|nodes| - 1])
  {
    var less := nodes[..|nodes| - 1];
    forall i: nat, j: nat | i < j < |less|
      ensures Apart(less[i], less[j])
    {
      assert less[i] == nodes[i] && less[j] == nodes[j];
    }
  }

  /** `bcread_ktab` rebuilds what is written of a table. */
  lemma TableBack(dual: bool, t: Table, rest: seq<Byte>)
    requires TableOk(dual, t)
    ensures ReadTable(dual, EncTable(dual, t) + rest) == Done(Rebuilt(dual, t), rest)
  {
    hide Uleb, ReadUleb, ReadArray, ReadNodes, EncArray, EncNodes, Exists, Unique, NodeOk;
    var r := Reread(t);
    var a, n := EncArray(dual, r.slots), EncNodes(dual, r.nodes);
    Assoc(Uleb(|r.slots|), Uleb(|r.nodes|) + (a + n), rest);
    Assoc(Uleb(|r.nodes|), a + n, rest);
    Assoc(a, n, rest);
    ReadBack(|r.slots|, Uleb(|r.nodes|) + (a + (n + rest)));
    ReadBack(|r.nodes|, a + (n + rest));
    ArrayBack(dual, r.slots, n + rest);
    RereadFresh(dual, t);
    NodesBack(dual, Table(BackAll(dual, r.slots), []), r.nodes, rest);
    assert [] + BackNodes(dual, r.nodes) == BackNodes(dual, r.nodes);
  }

  lemma RereadFresh(dual: bool, t: Table)
    requires TableOk(dual, t)
    ensures var r := Reread(t); AllExist(dual, r.nodes)
    ensures var r := Rebuilt(dual, t); Fresh(Table(r.slots, []), r.nodes)
  {
    hide Exists, Unique, Canon, IndexOf, IsKey;
    var w, r := Reread(t), Rebuilt(dual, t);
    var nodes := if |t.nodes| > 1 then t.nodes else [];
    UniqueNone();
    BackwardsUnique(nodes);
    BackUnique(dual, w.nodes);
    assert [] + r.nodes == r.nodes;
    forall i | 0 <= i < |w.nodes|
      ensures Exists(dual, w.nodes[i].key) && Exists(dual, w.nodes[i].val)
      ensures NodeOk(Table(r.slots, []), r.nodes[i]) && !Vacant(r.nodes[i])
    {
      InUse(nodes, i);
      var x: nat :| x < |nodes| && nodes[x] == w.nodes[i];
      assert NodeOk(t, t.nodes[x]);
    }
  }

  lemma BackUnique(dual: bool, nodes: seq<Node>)
    requires Unique(nodes)
    ensures Unique(BackNodes(dual, nodes))
  {
    var back := BackNodes(dual, nodes);
    forall i: nat, j: nat | i < j < |back|
      ensures Apart(back[i], back[j])
    {
      assert Apart(nodes[i], nodes[j]);
    }
  }

  lemma UniqueNone()
    ensures Unique([])
  {
  }

  // ---- The same map.

  lemma {:induction false} FindInit(nodes: seq<Node>, key: TV)
    requires nodes != []
    ensures var n := nodes[|nodes| - 1];
            Find(nodes, key) ==
            if exists i :: 0 <= i < |nodes| - 1 && nodes[i].key == key then Find(nodes[..|nodes| - 1], key)
                                else if n.key == key then n.val else Nil
  {
    var m := |nodes| - 1;
    if m > 0 && nodes[0].key != key {
      FindInit(nodes[1..], key);
      assert nodes[1..][..m - 1] == nodes[..m][1..];
      assert forall i :: 0 <= i < m ==> nodes[1..][i] == nodes[i + 1];
      if exists i :: 0 <= i < m && nodes[i].key == key {
        var i :| 0 <= i < m && nodes[i].key == key;
        assert nodes[1..][i - 1].key == key;
      }
    }
  }

  lemma {:induction false} FindNone(nodes: seq<Node>, key: TV)
    requires forall i {:trigger nodes[i]} :: 0 <= i < |nodes| && nodes[i].key == key ==> Vacant(nodes[i])
    ensures Find(nodes, key) == Nil
  {
    if nodes != [] && nodes[0].key != key {
      assert forall i :: 0 <= i < |nodes| - 1 ==> nodes[1..][i] == nodes[i + 1];
      FindNone(nodes[1..], key);
    }
  }

  /** Looking a key up in the nodes written gives what it gives in all nodes. */
  lemma {:induction false} FindBackwards(nodes: seq<Node>, key: TV)
    requires Unique(nodes)
    ensures Find(Backwards(nodes), key) == Find(nodes, key)
    decreases |nodes|
  {
    if nodes != [] {
      var m := |nodes| - 1;
      var n, less := nodes[m], nodes[..m];
      UniqueLess(nodes);
      FindBackwards(less, key);
      FindInit(nodes, key);
      var r := Backwards(less);
      assert ([n] + r)[1..] == r && [] + r == r;
      if exists i :: 0 <= i < m && nodes[i].key == key {
        if n.key == key {
          var i: nat :| i < m && nodes[i].key == key;
          assert Apart(nodes[i], nodes[m]);
        }
      } else {
        assert forall i :: 0 <= i < m ==> less[i] == nodes[i];
        FindNone(less, key);
      }
    }
  }

  lemma {:induction false} FindBack(dual: bool, nodes: seq<Node>, key: TV)
    ensures Find(BackNodes(dual, nodes), key) == Back(dual, Find(nodes, key))
  {
    if nodes != [] && nodes[0].key != key {
      assert BackNodes(dual, nodes)[1..] == BackNodes(dual, nodes[1..]);
      FindBack(dual, nodes[1..], key);
    }
  }

  /** A program reads the same at every key of the table read back, but for the sign of a zero. */
  lemma SameMap(dual: bool, t: Table, key: TV)
    requires TableOk(dual, t)
    ensures Get(Rebuilt(dual, t), key) == Back(dual, Get(t, key))
  {
    hide Narrow, Widen, Unique;
    SameWritten(dual, t, key);
    FindBack(dual, Reread(t).nodes, Canon(key));
  }

  lemma SameWritten(dual: bool, t: Table, key: TV)
    requires TableOk(dual, t)
    ensures Get(Reread(t), key) == Get(t, key)
  {
    hide Narrow, Widen, Unique, Exists;
    var nodes := if |t.nodes| > 1 then t.nodes else [];
    var k := Canon(key);
    UniqueNone();
    FindBackwards(nodes, k);
    if |t.nodes| <= 1 {
      FindNone(t.nodes, k);
      FindNone(nodes, k);
    }
    match IndexOf(key) {
      case Whole(i) =>
        if |Trim(t.slots)| <= i < |t.slots| {
          assert t.slots[i] == Nil;
          forall x | 0 <= x < |t.nodes| && t.nodes[x].key == Widen(i)
            ensures Vacant(t.nodes[x])
          {
            NarrowWidened(i);
            assert !Vacant(t.nodes[x]) ==> NodeOk(t, t.nodes[x]);
          }
          FindNone(t.nodes, k);
        }
      case Fraction =>
    }
  }
}
