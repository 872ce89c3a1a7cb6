/** Labels of the DynASM engine: chains of references through the section buffers, and what each
    reference is bound to. */
module DynLabels {

  /** A local or global label, or a PC label. */
  datatype Key = LG(i: int) | PC(i: int)

  /** The definition of a label at a buffer position, in the order of their making. */
  datatype Def = Def(key: Key, at: int)

  /** A reference made when there were `time` definitions; a `fwd` reference is one to the next
      definition of a local label. */
  datatype Ref = Ref(key: Key, fwd: bool, time: nat)

  function LastDef(defs: seq<Def>, key: Key, n: nat): int
    requires n <= |defs|
  {
    if n == 0 then 0 else if defs[n - 1].key == key then defs[n - 1].at else LastDef(defs, key, n - 1)
  }

  function NextDef(defs: seq<Def>, key: Key, n: nat): int
    requires n <= |defs|
    decreases |defs| - n
  {
    if n == |defs| then 0 else if defs[n].key == key then defs[n].at else NextDef(defs, key, n + 1)
  }

  /** What the reference is bound to, as far as there are definitions: the next one for a forward
      reference; otherwise the last one before, or else the next one. */
  function Target(defs: seq<Def>, r: Ref): int
    requires r.time <= |defs|
  {
    var last := LastDef(defs, r.key, r.time);
    if !r.fwd && last > 0 then last else NextDef(defs, r.key, r.time)
  }

  predicate IsLocal(key: Key) {
    key.LG? && key.i < 10
  }

  predicate DefsOk(defs: seq<Def>) {
    forall k :: 0 <= k < |defs| ==> defs[k].at > 0
  }

  lemma {:induction false} LastDefOld(defs: seq<Def>, d: Def, key: Key, n: nat)
    requires n <= |defs|
    ensures LastDef(defs + [d], key, n) == LastDef(defs, key, n)
  {
    if n > 0 {
      LastDefOld(defs, d, key, n - 1);
    }
  }

  lemma {:induction false} NextDefMore(defs: seq<Def>, d: Def, key: Key, n: nat)
    requires n <= |defs| && DefsOk(defs)
    ensures NextDef(defs, key, n) >= 0
    ensures NextDef(defs + [d], key, n) ==
            if NextDef(defs, key, n) > 0 then NextDef(defs, key, n) else if d.key == key then d.at else 0
    decreases |defs| - n
  {
    if n < |defs| {
      NextDefMore(defs, d, key, n + 1);
    } else {
      assert NextDef(defs + [d], key, n + 1) == 0;
    }
  }

  /** No definition of the key at all. */
  lemma {:induction false} NoDef(defs: seq<Def>, key: Key, n: nat)
    requires n <= |defs| && DefsOk(defs) && LastDef(defs, key, n) == 0 && NextDef(defs, key, n) == 0
    ensures LastDef(defs, key, |defs|) == 0
    decreases |defs| - n
  {
    if n < |defs| {
      NoDef(defs, key, n + 1);
    }
  }

  lemma {:induction false} LastDefPositive(defs: seq<Def>, key: Key, n: nat)
    requires n <= |defs| && DefsOk(defs)
    ensures LastDef(defs, key, n) >= 0
  {
    if n > 0 {
      LastDefPositive(defs, key, n - 1);
    }
  }

  /** A new definition binds the pending references to its key, and leaves the others alone. */
  lemma TargetMore(defs: seq<Def>, d: Def, r: Ref)
    requires r.time <= |defs| && DefsOk(defs) && d.at > 0
    ensures Target(defs, r) >= 0
    ensures Target(defs + [d], r) == if Target(defs, r) > 0 then Target(defs, r) else if d.key == r.key then d.at else 0
  {
    LastDefOld(defs, d, r.key, r.time);
    LastDefPositive(defs, r.key, r.time);
    NextDefMore(defs, d, r.key, r.time);
  }

  // ---- The state of the labels.

  /** `mem` are the section buffers; `labels` are the label tables: the head of the chain of pending
      references, minus the position of the definition, or 0. `chains` are the chains, spelled out. */
  datatype Links = Links(mem: map<int, int>, labels: map<Key, int>, defs: seq<Def>, refs: map<int, Ref>,
                         chains: map<Key, seq<int>>)

  predicate RefOk(l: Links, r: int)
    requires r in l.refs
  {
    && r > 0 && r in l.mem && l.refs[r].time <= |l.defs| && l.refs[r].key in l.chains
    && (l.refs[r].fwd ==> IsLocal(l.refs[r].key))
    && var t := Target(l.defs, l.refs[r]);
       if t > 0 then l.mem[r] == t && r !in l.chains[l.refs[r].key] else r in l.chains[l.refs[r].key]
  }

  /** A link leads to the next one; the last one holds 0. */
  predicate LinkAt(l: Links, key: Key, i: nat)
    requires key in l.chains && i < |l.chains[key]|
  {
    var c := l.chains[key];
    && c[i] in l.refs && l.refs[c[i]].key == key && c[i] in l.mem && c[i] > 0
    && l.mem[c[i]] == if i + 1 < |c| then c[i + 1] else 0
  }

  predicate ChainOk(l: Links, key: Key)
    requires key in l.chains
  {
    && (forall i {:trigger LinkAt(l, key, i)} :: 0 <= i < |l.chains[key]| ==> LinkAt(l, key, i))
    && (forall i, j :: 0 <= i < j < |l.chains[key]| ==> l.chains[key][i] != l.chains[key][j])
  }

  /** A chain whose links have not been touched. */
  lemma SameChain(l: Links, l': Links, key: Key)
    requires key in l.chains && key in l'.chains && l'.chains[key] == l.chains[key] && ChainOk(l, key)
    requires forall x :: x in l.chains[key] && x in l.refs && x in l.mem ==>
               x in l'.refs && l'.refs[x] == l.refs[x] && x in l'.mem && l'.mem[x] == l.mem[x]
    ensures ChainOk(l', key)
  {
    forall i | 0 <= i < |l.chains[key]|
      ensures LinkAt(l', key, i)
    {
      assert LinkAt(l, key, i);
    }
  }

  predicate LabelOk(l: Links, key: Key)
    requires key in l.chains && key in l.labels
  {
    l.labels[key] == if l.chains[key] != [] then l.chains[key][0] else -LastDef(l.defs, key, |l.defs|)
  }

  ghost predicate LinksOk(l: Links) {
    && l.labels.Keys == l.chains.Keys && DefsOk(l.defs)
    && (forall r {:trigger RefOk(l, r)} :: r in l.refs ==> RefOk(l, r))
    && (forall key {:trigger ChainOk(l, key)} :: key in l.chains ==> ChainOk(l, key) && LabelOk(l, key))
  }

  lemma NotInChain(l: Links, r: int, key: Key)
    requires LinksOk(l) && r !in l.mem && key in l.chains
    ensures r !in l.chains[key]
  {
    ChainInMem(l, key);
  }

  // ---- A reference.

  /** The reference r is linked to the chain of its key. */
  function Chained(l: Links, r: int, ref: Ref): Links
    requires ref.key in l.chains
  {
    var c := l.chains[ref.key];
    l.(mem := l.mem[r := if c != [] then c[0] else 0], labels := l.labels[ref.key := r], refs := l.refs[r := ref],
       chains := l.chains[ref.key := [r] + c])
  }

  /** The reference r is bound to the last definition of its key. */
  function Bound(l: Links, r: int, ref: Ref): Links
    requires ref.time <= |l.defs|
  {
    l.(mem := l.mem[r := LastDef(l.defs, ref.key, ref.time)], refs := l.refs[r := ref])
  }

  lemma BoundOk(l: Links, r: int, ref: Ref)
    requires LinksOk(l) && r > 0 && r !in l.mem && ref.time == |l.defs| && ref.key in l.chains && !ref.fwd
    requires l.labels[ref.key] < 0
    ensures LinksOk(Bound(l, r, ref)) && -l.labels[ref.key] == LastDef(l.defs, ref.key, |l.defs|)
  {
    var l' := Bound(l, r, ref);
    assert ChainOk(l, ref.key) && LabelOk(l, ref.key);
    assert l.chains[ref.key] != [] ==> LinkAt(l, ref.key, 0);
    NotInChain(l, r, ref.key);
    forall x | x in l'.refs
      ensures RefOk(l', x)
    {
      assert x != r ==> RefOk(l, x);
    }
    forall key | key in l'.chains
      ensures ChainOk(l', key) && LabelOk(l', key)
    {
      assert ChainOk(l, key) && LabelOk(l, key);
      NotInChain(l, r, key);
      SameChain(l, l', key);
    }
  }

  /** A reference that is not to a local label, and has no definition before it, or one forward. */
  lemma ChainedOk(l: Links, r: int, ref: Ref)
    requires LinksOk(l) && r > 0 && r !in l.mem && ref.time == |l.defs| && ref.key in l.chains
    requires if ref.fwd then IsLocal(ref.key) else !IsLocal(ref.key) && l.labels[ref.key] >= 0
    ensures LinksOk(Chained(l, r, ref))
  {
    var l', c := Chained(l, r, ref), l.chains[ref.key];
    assert ChainOk(l, ref.key) && LabelOk(l, ref.key);
    NothingBound(l, ref);
    NotInChain(l, r, ref.key);
    forall x | x in l'.refs
      ensures RefOk(l', x)
    {
      assert x != r ==> RefOk(l, x);
      assert l'.chains[ref.key][0] == r;
      assert x in c ==> x in l'.chains[ref.key];
    }
    forall key | key in l'.chains
      ensures ChainOk(l', key) && LabelOk(l', key)
    {
      assert ChainOk(l, key) && LabelOk(l, key);
      NotInChain(l, r, key);
      if key == ref.key {
        LongerChain(l, r, ref);
      } else {
        SameChain(l, l', key);
      }
    }
  }

  lemma LongerChain(l: Links, r: int, ref: Ref)
    requires r > 0 && r !in l.mem && ref.key in l.chains && ChainOk(l, ref.key) && r !in l.chains[ref.key]
    ensures ChainOk(Chained(l, r, ref), ref.key)
  {
    var l', c := Chained(l, r, ref), l.chains[ref.key];
    forall i | 0 <= i < |c| + 1
      ensures LinkAt(l', ref.key, i)
    {
      if i > 0 {
        assert LinkAt(l, ref.key, i - 1);
      }
    }
  }

  lemma NothingBound(l: Links, ref: Ref)
    requires LinksOk(l) && ref.time == |l.defs| && ref.key in l.chains
    requires if ref.fwd then IsLocal(ref.key) else !IsLocal(ref.key) && l.labels[ref.key] >= 0
    ensures Target(l.defs, ref) == 0
  {
    var c := l.chains[ref.key];
    assert ChainOk(l, ref.key) && LabelOk(l, ref.key);
    LastDefPositive(l.defs, ref.key, |l.defs|);
    if !ref.fwd && c != [] {
      assert LinkAt(l, ref.key, 0) && RefOk(l, c[0]);
      LastDefPositive(l.defs, ref.key, l.refs[c[0]].time);
      NextDefMore(l.defs, Def(ref.key, 1), ref.key, l.refs[c[0]].time);
      NoDef(l.defs, ref.key, l.refs[c[0]].time);
    }
  }

  // ---- A definition.

  /** The first n links of a chain have been replaced with the position of the label. */
  function Collapsed(mem: map<int, int>, c: seq<int>, n: nat, at: int): map<int, int>
    requires n <= |c|
  {
    if n == 0 then mem else Collapsed(mem, c, n - 1, at)[c[n - 1] := at]
  }

  lemma {:induction false} CollapsedAt(mem: map<int, int>, c: seq<int>, n: nat, at: int, x: int)
    requires n <= |c| && (forall i :: 0 <= i < n ==> c[i] in mem)
    ensures Collapsed(mem, c, n, at).Keys == mem.Keys
    ensures x in mem ==> Collapsed(mem, c, n, at)[x] == if x in c[..n] then at else mem[x]
  {
    if n > 0 {
      CollapsedAt(mem, c, n - 1, at, x);
      assert c[..n] == c[..n - 1] + [c[n - 1]];
    }
  }

  /** The label is defined at the position `at`, with the estimate of its offset there. */
  function Defined(l: Links, key: Key, at: int, est: int): Links
    requires key in l.chains
  {
    l.(mem := Collapsed(l.mem, l.chains[key], |l.chains[key]|, at)[at := est], labels := l.labels[key := -at],
       defs := l.defs + [Def(key, at)], chains := l.chains[key := []])
  }

  lemma DefinedOk(l: Links, key: Key, at: int, est: int)
    requires LinksOk(l) && at > 0 && at !in l.mem && key in l.chains
    ensures LinksOk(Defined(l, key, at, est))
  {
    var l', c, d := Defined(l, key, at, est), l.chains[key], Def(key, at);
    ChainInMem(l, key);
    assert c[..|c|] == c;
    forall x | x in l'.refs
      ensures RefOk(l', x)
    {
      assert RefOk(l, x);
      TargetMore(l.defs, d, l.refs[x]);
      CollapsedAt(l.mem, c, |c|, at, x);
      if x in c {
        var i :| 0 <= i < |c| && c[i] == x;
      }
    }
    forall k | k in l'.chains
      ensures ChainOk(l', k) && LabelOk(l', k)
    {
      assert ChainOk(l, k) && LabelOk(l, k);
      if k != key {
        OtherChain(l, key, at, est, k);
      }
      assert LastDef(l'.defs, k, |l.defs| + 1) == if k == key then at else LastDef(l'.defs, k, |l.defs|);
      LastDefOld(l.defs, d, k, |l.defs|);
    }
  }

  lemma OtherChain(l: Links, key: Key, at: int, est: int, k: Key)
    requires LinksOk(l) && at > 0 && at !in l.mem && key in l.chains && k in l.chains && k != key
    ensures ChainOk(Defined(l, key, at, est), k)
  {
    var l', c, ck := Defined(l, key, at, est), l.chains[key], l.chains[k];
    assert ChainOk(l, key) && ChainOk(l, k);
    assert c[..|c|] == c;
    forall x | x in ck && x in l.refs && x in l.mem
      ensures x in l'.mem && l'.mem[x] == l.mem[x]
    {
      var j :| 0 <= j < |ck| && ck[j] == x;
      assert LinkAt(l, k, j);
      ElsewhereChained(l, key, k, x);
      ChainInMem(l, key);
      CollapsedAt(l.mem, c, |c|, at, x);
    }
    SameChain(l, l', k);
  }

  lemma ElsewhereChained(l: Links, key: Key, k: Key, x: int)
    requires LinksOk(l) && key in l.chains && k != key && x in l.refs && l.refs[x].key == k
    ensures x !in l.chains[key]
  {
    ChainInMem(l, key);
  }

  lemma ChainInMem(l: Links, key: Key)
    requires LinksOk(l) && key in l.chains
    ensures forall i :: 0 <= i < |l.chains[key]| ==>
            l.chains[key][i] in l.mem && l.chains[key][i] in l.refs && l.refs[l.chains[key][i]].key == key
  {
    assert ChainOk(l, key);
    forall i | 0 <= i < |l.chains[key]|
      ensures l.chains[key][i] in l.mem && l.chains[key][i] in l.refs && l.refs[l.chains[key][i]].key == key
    {
      assert LinkAt(l, key, i);
    }
  }

  /** The links of a chain in the buffers. */
  predicate LinkIn(mem: map<int, int>, c: seq<int>, i: nat)
    requires i < |c|
  {
    c[i] in mem && c[i] > 0 && mem[c[i]] == if i + 1 < |c| then c[i + 1] else 0
  }

  predicate Threaded(mem: map<int, int>, c: seq<int>) {
    && (forall i {:trigger LinkIn(mem, c, i)} {:trigger c[i]} :: 0 <= i < |c| ==> LinkIn(mem, c, i))
    && (forall i, j :: 0 <= i < j < |c| ==> c[i] != c[j])
  }

  lemma KeyFacts(l: Links, key: Key)
    requires LinksOk(l) && key in l.labels
    ensures key in l.chains && Threaded(l.mem, l.chains[key])
    ensures l.chains[key] != [] ==> l.labels[key] == l.chains[key][0] > 0
    ensures l.chains[key] == [] ==> l.labels[key] <= 0
    ensures l.labels[key] < 0 ==> -l.labels[key] == LastDef(l.defs, key, |l.defs|)
  {
    assert ChainOk(l, key) && LabelOk(l, key);
    LastDefPositive(l.defs, key, |l.defs|);
    var c := l.chains[key];
    forall i | 0 <= i < |c|
      ensures LinkIn(l.mem, c, i)
    {
      assert LinkAt(l, key, i);
    }
    if c != [] {
      assert LinkAt(l, key, 0);
    }
  }

  /** Follow a chain and replace each link. */
  lemma CollapseStep(mem: map<int, int>, c: seq<int>, k: nat, at: int)
    requires Threaded(mem, c) && k < |c|
    ensures var m := Collapsed(mem, c, k, at);
            && c[k] in m && m[c[k]] == (if k + 1 < |c| then c[k + 1] else 0)
            && Collapsed(mem, c, k + 1, at) == m[c[k] := at]
  {
    CollapsedAt(mem, c, k, at, c[k]);
    assert c[k] !in c[..k];
  }
}
