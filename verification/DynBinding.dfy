/** What references of the DynASM engine are bound to, told by the order in which entries were put, and where
    the branches among them land. */
module DynBinding {
  import opened DynAsm
  import opened DynLabels
  import opened DynBuffers
  import opened DynLink
  import opened DynEncode

  /** The place of an entry: its section, and its number there. */
  datatype Place = Place(s: nat, k: nat)

  predicate Within(progs: seq<seq<Entry>>, log: seq<Place>) {
    forall n {:trigger log[n]} :: 0 <= n < |log| ==> log[n].s < |progs| && log[n].k < |progs[log[n].s]|
  }

  /** The n-th entry that was put. */
  function EntryAt(progs: seq<seq<Entry>>, log: seq<Place>, n: nat): Entry
    requires Within(progs, log) && n < |log|
  {
    progs[log[n].s][log[n].k]
  }

  /** The entry defines the label. */
  predicate Defines(e: Entry, key: Key) {
    IsLabel(e.act) && KeyOf(e) == key
  }

  /** The last definition of a label among the first n entries, if there is one. */
  function LastLabel(progs: seq<seq<Entry>>, log: seq<Place>, key: Key, n: nat): (m: nat)
    requires Within(progs, log) && n <= |log|
    ensures m == |log| || (m < n && Defines(EntryAt(progs, log, m), key))
    ensures forall x: nat {:trigger EntryAt(progs, log, x)} :: x < n && (m == |log| || m < x) ==>
            !Defines(EntryAt(progs, log, x), key)
  {
    if n == 0 then |log| else if Defines(EntryAt(progs, log, n - 1), key) then n - 1
      else LastLabel(progs, log, key, n - 1)
  }

  /** The next definition of a label from the n-th entry on, if there is one. */
  function NextLabel(progs: seq<seq<Entry>>, log: seq<Place>, key: Key, n: nat): (m: nat)
    requires Within(progs, log) && n <= |log|
    ensures n <= m <= |log| && (m < |log| ==> Defines(EntryAt(progs, log, m), key))
    ensures forall x: nat {:trigger EntryAt(progs, log, x)} :: n <= x < m ==> !Defines(EntryAt(progs, log, x), key)
    decreases |log| - n
  {
    if n == |log| then n else if Defines(EntryAt(progs, log, n), key) then n else NextLabel(progs, log, key, n + 1)
  }

  /** What the reference put as the n-th entry is bound to: the next definition of its label if it is a forward
      reference; otherwise the last one before it, or else the next one. It is |log| if there is none. */
  function BoundTo(progs: seq<seq<Entry>>, log: seq<Place>, n: nat): (m: nat)
    requires Within(progs, log) && n < |log|
    ensures m <= |log| && (m < |log| ==> Defines(EntryAt(progs, log, m), KeyOf(EntryAt(progs, log, n))))
  {
    var e := EntryAt(progs, log, n);
    var last := LastLabel(progs, log, KeyOf(e), n);
    if !IsFwd(e) && last < |log| then last else NextLabel(progs, log, KeyOf(e), n)
  }

  // ---- The log of a build.

  /** The definitions among the first n entries. */
  function DefsUpTo(progs: seq<seq<Entry>>, log: seq<Place>, n: nat): seq<Def>
    requires Within(progs, log) && n <= |log|
  {
    if n == 0 then []
    else
      var e := EntryAt(progs, log, n - 1);
      DefsUpTo(progs, log, n - 1) + (if IsLabel(e.act) then [Def(KeyOf(e), e.at)] else [])
  }

  predicate RefLogged(progs: seq<seq<Entry>>, log: seq<Place>, refs: map<int, Ref>, n: nat)
    requires Within(progs, log) && n < |log|
  {
    var e := EntryAt(progs, log, n);
    IsRef(e.act) ==> e.at in refs && refs[e.at] == Ref(KeyOf(e), IsFwd(e), |DefsUpTo(progs, log, n)|)
  }

  /** The entry is in the log. */
  ghost predicate Listed(log: seq<Place>, s: nat, k: nat) {
    exists n :: 0 <= n < |log| && log[n] == Place(s, k)
  }

  /** The reference stored at r has been put. */
  ghost predicate RefPlace(progs: seq<seq<Entry>>, log: seq<Place>, r: int)
    requires Within(progs, log)
  {
    exists n :: 0 <= n < |log| && IsRef(EntryAt(progs, log, n).act) && EntryAt(progs, log, n).at == r
  }

  /** The log has all entries; it accounts for the definitions, for the references, and for the time of those. */
  ghost predicate LogOk(progs: seq<seq<Entry>>, log: seq<Place>, defs: seq<Def>, refs: map<int, Ref>) {
    && Within(progs, log) && defs == DefsUpTo(progs, log, |log|)
    && (forall n: nat {:trigger RefLogged(progs, log, refs, n)} :: n < |log| ==> RefLogged(progs, log, refs, n))
    && (forall s: nat, k: nat {:trigger Listed(log, s, k)} :: s < |progs| && k < |progs[s]| ==> Listed(log, s, k))
    && (forall r {:trigger RefPlace(progs, log, r)} :: r in refs ==> RefPlace(progs, log, r))
  }

  /** The entry e is put: what it does to definitions and references. */
  predicate Entered(e: Entry, defs: seq<Def>, refs: map<int, Ref>, defs': seq<Def>, refs': map<int, Ref>) {
    && defs' == defs + (if IsLabel(e.act) then [Def(KeyOf(e), e.at)] else [])
    && refs' == (if IsRef(e.act) then refs[e.at := Ref(KeyOf(e), IsFwd(e), |defs|)] else refs)
    && (IsRef(e.act) ==> e.at !in refs)
  }

  function Longer(progs: seq<seq<Entry>>, cur: nat, e: Entry): seq<seq<Entry>>
    requires cur < |progs|
  {
    progs[cur := progs[cur] + [e]]
  }

  lemma {:induction false} DefsSame(progs: seq<seq<Entry>>, log: seq<Place>, cur: nat, e: Entry, pl: Place, n: nat)
    requires Within(progs, log) && cur < |progs| && n <= |log| && Within(Longer(progs, cur, e), log + [pl])
    ensures DefsUpTo(Longer(progs, cur, e), log + [pl], n) == DefsUpTo(progs, log, n)
  {
    if n > 0 {
      DefsSame(progs, log, cur, e, pl, n - 1);
      assert (log + [pl])[n - 1] == log[n - 1];
    }
  }

  lemma LongerWithin(progs: seq<seq<Entry>>, log: seq<Place>, cur: nat, e: Entry)
    requires Within(progs, log) && cur < |progs|
    ensures var log' := log + [Place(cur, |progs[cur]|)];
            && Within(Longer(progs, cur, e), log') && EntryAt(Longer(progs, cur, e), log', |log|) == e
            && forall n: nat :: n < |log| ==> EntryAt(Longer(progs, cur, e), log', n) == EntryAt(progs, log, n)
  {
  }

  lemma LogGrown(progs: seq<seq<Entry>>, log: seq<Place>, defs: seq<Def>, refs: map<int, Ref>, cur: nat, e: Entry,
                 defs': seq<Def>, refs': map<int, Ref>)
    requires LogOk(progs, log, defs, refs) && cur < |progs| && Entered(e, defs, refs, defs', refs')
    ensures LogOk(Longer(progs, cur, e), log + [Place(cur, |progs[cur]|)], defs', refs')
  {
    hide DefsUpTo;
    var progs', pl := Longer(progs, cur, e), Place(cur, |progs[cur]|);
    var log' := log + [pl];
    LongerWithin(progs, log, cur, e);
    DefsSame(progs, log, cur, e, pl, |log|);
    LastDefs(progs', log');
    forall n: nat | n < |log'|
      ensures RefLogged(progs', log', refs', n)
    {
      DefsSame(progs, log, cur, e, pl, if n < |log| then n else |log|);
      assert n < |log| ==> RefLogged(progs, log, refs, n);
    }
    forall s: nat, k: nat | s < |progs'| && k < |progs'[s]|
      ensures Listed(log', s, k)
    {
      if Place(s, k) == pl {
        assert log'[|log|] == pl;
      } else {
        assert Listed(log, s, k);
        var n :| 0 <= n < |log| && log[n] == Place(s, k);
        assert log'[n] == Place(s, k);
      }
    }
    forall r | r in refs'
      ensures RefPlace(progs', log', r)
    {
      PlaceKept(progs, log, refs, cur, e, refs', r);
    }
  }

  lemma PlaceKept(progs: seq<seq<Entry>>, log: seq<Place>, refs: map<int, Ref>, cur: nat, e: Entry,
                  refs': map<int, Ref>, r: int)
    requires Within(progs, log) && cur < |progs| && Within(Longer(progs, cur, e), log + [Place(cur, |progs[cur]|)])
    requires r in refs' && (r in refs ==> RefPlace(progs, log, r))
    requires r !in refs ==> IsRef(e.act) && r == e.at
    ensures RefPlace(Longer(progs, cur, e), log + [Place(cur, |progs[cur]|)], r)
  {
    LongerWithin(progs, log, cur, e);
    var progs', log' := Longer(progs, cur, e), log + [Place(cur, |progs[cur]|)];
    if r in refs {
      var n :| 0 <= n < |log| && IsRef(EntryAt(progs, log, n).act) && EntryAt(progs, log, n).at == r;
      assert EntryAt(progs', log', n) == EntryAt(progs, log, n);
    } else {
      assert EntryAt(progs', log', |log|) == e;
    }
  }

  lemma LastDefs(progs: seq<seq<Entry>>, log: seq<Place>)
    requires Within(progs, log) && log != []
    ensures var n := |log|;
            var e := EntryAt(progs, log, n - 1);
            DefsUpTo(progs, log, n) == DefsUpTo(progs, log, n - 1)
              + (if IsLabel(e.act) then [Def(KeyOf(e), e.at)] else [])
  {
  }

  lemma NoLog(progs: seq<seq<Entry>>)
    requires forall s :: 0 <= s < |progs| ==> progs[s] == []
    ensures LogOk(progs, [], [], map[])
  {
  }

  /** The places of n entries put in a row. */
  function Row(s: nat, k: nat, n: nat): seq<Place> {
    seq(n, x requires 0 <= x < n => Place(s, k + x))
  }

  /** Some entries of a call have been put into section sec. */
  ghost predicate Added(progs0: seq<seq<Entry>>, log0: seq<Place>, sec: nat, done: seq<Entry>, progs: seq<seq<Entry>>,
                        log: seq<Place>) {
    && sec < |progs0| && Complete(progs0[sec]) && (done != [] ==> !Ends(done[|done| - 1].act))
    && progs == progs0[sec := progs0[sec] + done] && log == log0 + Row(sec, |progs0[sec]|, |done|)
  }

  lemma AddedNone(progs0: seq<seq<Entry>>, log0: seq<Place>, sec: nat)
    requires sec < |progs0| && Complete(progs0[sec])
    ensures Added(progs0, log0, sec, [], progs0, log0)
  {
    assert progs0[sec] + [] == progs0[sec] && log0 + Row(sec, |progs0[sec]|, 0) == log0;
  }

  lemma AddedFirst(progs0: seq<seq<Entry>>, log0: seq<Place>, sec: nat, done: seq<Entry>, progs: seq<seq<Entry>>,
                   log: seq<Place>)
    requires Added(progs0, log0, sec, done, progs, log)
    ensures sec < |progs| == |progs0| && Complete(progs[sec]) == (done == [])
  {
    assert progs0[sec] + [] == progs0[sec];
  }

  lemma AddedOne(progs0: seq<seq<Entry>>, log0: seq<Place>, sec: nat, done: seq<Entry>, progs: seq<seq<Entry>>,
                 log: seq<Place>, e: Entry)
    requires Added(progs0, log0, sec, done, progs, log) && sec < |progs|
    ensures Longer(progs, sec, e) == progs0[sec := progs0[sec] + (done + [e])]
    ensures log + [Place(sec, |progs[sec]|)] == log0 + Row(sec, |progs0[sec]|, |done + [e]|)
    ensures !Ends(e.act) ==> Added(progs0, log0, sec, done + [e], Longer(progs, sec, e),
                                   log + [Place(sec, |progs[sec]|)])
  {
    assert progs0[sec] + done + [e] == progs0[sec] + (done + [e]);
    var r, k := Row(sec, |progs0[sec]|, |done|), |progs0[sec]|;
    assert log0 + r + [Place(sec, k + |done|)] == log0 + Row(sec, k, |done| + 1);
  }

  // ---- The label tables agree with the log.

  lemma {:induction false} DefsPrefix(progs: seq<seq<Entry>>, log: seq<Place>, n: nat, m: nat)
    requires Within(progs, log) && n <= m <= |log|
    ensures DefsUpTo(progs, log, n) <= DefsUpTo(progs, log, m)
  {
    if n < m {
      DefsPrefix(progs, log, n, m - 1);
    }
  }

  /** Where the definition is, or 0. */
  function AtOf(progs: seq<seq<Entry>>, log: seq<Place>, m: nat): int
    requires Within(progs, log)
  {
    if m < |log| then EntryAt(progs, log, m).at else 0
  }

  lemma {:induction false} LastAgrees(progs: seq<seq<Entry>>, log: seq<Place>, key: Key, n: nat)
    requires Within(progs, log) && n <= |log|
    ensures var d := DefsUpTo(progs, log, n); LastDef(d, key, |d|) == AtOf(progs, log, LastLabel(progs, log, key, n))
  {
    if n > 0 {
      LastAgrees(progs, log, key, n - 1);
      var e, d := EntryAt(progs, log, n - 1), DefsUpTo(progs, log, n - 1);
      if IsLabel(e.act) {
        LastDefOld(d, Def(KeyOf(e), e.at), key, |d|);
        assert LastDef(d + [Def(KeyOf(e), e.at)], key, |d| + 1)
               == if KeyOf(e) == key then e.at else LastDef(d + [Def(KeyOf(e), e.at)], key, |d|);
      } else {
        assert d + [] == d;
      }
    }
  }

  lemma {:induction false} LastInPrefix(d: seq<Def>, all: seq<Def>, key: Key, n: nat)
    requires d <= all && n <= |d|
    ensures LastDef(all, key, n) == LastDef(d, key, n)
  {
    if n > 0 {
      LastInPrefix(d, all, key, n - 1);
    }
  }

  lemma {:induction false} NextAgrees(progs: seq<seq<Entry>>, log: seq<Place>, key: Key, n: nat)
    requires Within(progs, log) && n <= |log|
    ensures var all := DefsUpTo(progs, log, |log|);
            && |DefsUpTo(progs, log, n)| <= |all|
            && NextDef(all, key, |DefsUpTo(progs, log, n)|) == AtOf(progs, log, NextLabel(progs, log, key, n))
    decreases |log| - n
  {
    DefsPrefix(progs, log, n, |log|);
    if n < |log| {
      NextAgrees(progs, log, key, n + 1);
      var e, d := EntryAt(progs, log, n), DefsUpTo(progs, log, n);
      DefsPrefix(progs, log, n + 1, |log|);
      if IsLabel(e.act) {
        assert DefsUpTo(progs, log, n + 1)[|d|] == Def(KeyOf(e), e.at);
      } else {
        assert d + [] == d;
      }
    }
  }

  /** The label tables bind a reference to what the log says. */
  lemma TargetAgrees(progs: seq<seq<Entry>>, log: seq<Place>, defs: seq<Def>, refs: map<int, Ref>, n: nat)
    requires LogOk(progs, log, defs, refs) && n < |log| && IsRef(EntryAt(progs, log, n).act) && DefsOk(defs)
    ensures var e := EntryAt(progs, log, n);
            && e.at in refs && refs[e.at].key == KeyOf(e) && refs[e.at].time <= |defs|
            && Target(defs, refs[e.at]) == AtOf(progs, log, BoundTo(progs, log, n))
            && (BoundTo(progs, log, n) < |log| ==> AtOf(progs, log, BoundTo(progs, log, n)) > 0)
  {
    hide DefsUpTo, LastLabel, NextLabel;
    assert RefLogged(progs, log, refs, n);
    var e := EntryAt(progs, log, n);
    var d := DefsUpTo(progs, log, n);
    DefsPrefix(progs, log, n, |log|);
    LastAgrees(progs, log, KeyOf(e), n);
    LastInPrefix(d, defs, KeyOf(e), |d|);
    NextAgrees(progs, log, KeyOf(e), n);
    LabelsPositive(progs, log, |log|, BoundTo(progs, log, n));
    LabelsPositive(progs, log, |log|, LastLabel(progs, log, KeyOf(e), n));
  }

  /** Definitions have positive positions. */
  lemma {:induction false} LabelsPositive(progs: seq<seq<Entry>>, log: seq<Place>, n: nat, m: nat)
    requires Within(progs, log) && n <= |log| && DefsOk(DefsUpTo(progs, log, n))
    ensures m < n && IsLabel(EntryAt(progs, log, m).act) ==> EntryAt(progs, log, m).at > 0
  {
    if m < n {
      var e, d := EntryAt(progs, log, n - 1), DefsUpTo(progs, log, n - 1);
      var all := DefsUpTo(progs, log, n);
      if IsLabel(e.act) {
        assert all[|d|].at == e.at;
      }
      forall k | 0 <= k < |d|
        ensures d[k].at > 0
      {
        assert all[k] == d[k];
      }
      LabelsPositive(progs, log, n - 1, m);
    }
  }

  // ---- What is refused.

  /** The n-th entry is a reference to the label, and not bound. */
  predicate Waits(progs: seq<seq<Entry>>, log: seq<Place>, key: Key, n: nat)
    requires Within(progs, log) && n < |log|
  {
    var e := EntryAt(progs, log, n);
    IsRef(e.act) && KeyOf(e) == key && BoundTo(progs, log, n) == |log|
  }

  /** A reference to the label is not bound. */
  ghost predicate Pending(progs: seq<seq<Entry>>, log: seq<Place>, key: Key)
    requires Within(progs, log)
  {
    exists n: nat {:trigger Waits(progs, log, key, n)} :: n < |log| && Waits(progs, log, key, n)
  }

  /** The label has been defined, and all references to it so far are bound. */
  ghost predicate Settled(progs: seq<seq<Entry>>, log: seq<Place>, key: Key)
    requires Within(progs, log)
  {
    LastLabel(progs, log, key, |log|) < |log| && !Pending(progs, log, key)
  }

  /** The checks of pass 1 let no entry through that has an immediate operand out of range or an unknown label,
      nor a backward reference to a local label that is not settled. */
  ghost predicate Refused(keys: set<Key>, progs: seq<seq<Entry>>, log: seq<Place>, e: Entry)
    requires Within(progs, log)
  {
    || !InRange(e.act, e.arg)
    || ((IsRef(e.act) || IsLabel(e.act)) && KeyOf(e) !in keys)
    || (IsRef(e.act) && !IsFwd(e) && IsLocal(KeyOf(e)) && !Settled(progs, log, KeyOf(e)))
  }

  /** The label table tells whether references to a label are pending, and if not, whether it is defined. */
  lemma PendingIff(l: Links, progs: seq<seq<Entry>>, log: seq<Place>, key: Key)
    requires LinksOk(l) && LogOk(progs, log, l.defs, l.refs) && key in l.labels
    ensures Pending(progs, log, key) <==> l.labels[key] > 0
    ensures Settled(progs, log, key) <==> l.labels[key] < 0
  {
    hide DefsUpTo, LastLabel, BoundTo, Target;
    KeyFacts(l, key);
    assert LabelOk(l, key) && ChainOk(l, key);
    LastAgrees(progs, log, key, |log|);
    LabelsPositive(progs, log, |log|, LastLabel(progs, log, key, |log|));
    if l.chains[key] == [] {
      forall n: nat | n < |log|
        ensures !Waits(progs, log, key, n)
      {
        if IsRef(EntryAt(progs, log, n).act) && KeyOf(EntryAt(progs, log, n)) == key {
          TargetAgrees(progs, log, l.defs, l.refs, n);
          assert RefOk(l, EntryAt(progs, log, n).at);
        }
      }
    } else {
      var r := l.chains[key][0];
      assert LinkAt(l, key, 0);
      assert RefOk(l, r) && RefPlace(progs, log, r);
      var n :| 0 <= n < |log| && IsRef(EntryAt(progs, log, n).act) && EntryAt(progs, log, n).at == r;
      TargetAgrees(progs, log, l.defs, l.refs, n);
      assert Waits(progs, log, key, n);
    }
  }

  lemma RefusedRef(l: Links, progs: seq<seq<Entry>>, log: seq<Place>, e: Entry)
    requires LinksOk(l) && LogOk(progs, log, l.defs, l.refs) && IsRef(e.act)
    ensures Refused(l.labels.Keys, progs, log, e) <==>
            KeyOf(e) !in l.labels || (!IsFwd(e) && IsLocal(KeyOf(e)) && l.labels[KeyOf(e)] >= 0)
  {
    hide LinksOk, LogOk, Settled;
    if KeyOf(e) in l.labels {
      PendingIff(l, progs, log, KeyOf(e));
    }
  }

  /** Of the entries `all` of a call, the one after the first n is refused. */
  ghost predicate RefusedAt(keys: set<Key>, progs0: seq<seq<Entry>>, log0: seq<Place>, sec: nat, all: seq<Entry>,
                            n: nat)
    requires sec < |progs0| && n < |all|
  {
    var progs, log := progs0[sec := progs0[sec] + all[..n]], log0 + Row(sec, |progs0[sec]|, n);
    Within(progs, log) && Refused(keys, progs, log, all[n])
  }

  /** Of the entries of a call, none of the first n is refused. */
  ghost predicate NoneRefused(keys: set<Key>, progs0: seq<seq<Entry>>, log0: seq<Place>, sec: nat, all: seq<Entry>,
                              n: nat)
    requires sec < |progs0| && n <= |all|
  {
    forall x: nat {:trigger RefusedAt(keys, progs0, log0, sec, all, x)} ::
      x < n ==> !RefusedAt(keys, progs0, log0, sec, all, x)
  }

  /** A call may only go on to a section that exists. */
  predicate SectionKnown(all: seq<Entry>, sections: nat) {
    all != [] && all[|all| - 1].act.Section? ==> all[|all| - 1].act.n < sections
  }

  lemma RefusedMore(keys: set<Key>, progs0: seq<seq<Entry>>, log0: seq<Place>, sec: nat, all: seq<Entry>, n: nat)
    requires sec < |progs0| && n < |all| && NoneRefused(keys, progs0, log0, sec, all, n)
    ensures NoneRefused(keys, progs0, log0, sec, all, n + 1) <==> !RefusedAt(keys, progs0, log0, sec, all, n)
    ensures RefusedAt(keys, progs0, log0, sec, all, n) ==> !NoneRefused(keys, progs0, log0, sec, all, |all|)
  {
  }

  lemma RefusedNext(keys: set<Key>, progs0: seq<seq<Entry>>, log0: seq<Place>, sec: nat, done: seq<Entry>,
                    progs: seq<seq<Entry>>, log: seq<Place>, all: seq<Entry>, e: Entry)
    requires Added(progs0, log0, sec, done, progs, log) && Within(progs, log) && done + [e] <= all
    ensures RefusedAt(keys, progs0, log0, sec, all, |done|) <==> Refused(keys, progs, log, e)
  {
    assert all[..|done|] == done && all[|done|] == (done + [e])[|done|];
  }

  /** A reference that holds a negative number is to a global label that is nowhere defined. */
  lemma NowhereDefined(b: Build, log: seq<Place>, t: Linking, i: nat, j: nat, i2: nat, j2: nat)
    requires t.progs == b.progs && AllResolved(b.l, t.m0) && DefsOk(b.l.defs) && AllStored(b)
    requires LogOk(b.progs, log, b.l.defs, b.l.refs) && Exists(t, i, j) && IsRef(t.progs[i][j].act)
    requires t.progs[i][j].at in t.m0 && t.m0[t.progs[i][j].at] < 0
    requires t.progs[i][j].act.RefLG? ==> t.progs[i][j].act.n < 256
    ensures !DefinedIn(t, -t.m0[t.progs[i][j].at], i2, j2)
  {
    hide AllStored, DefsUpTo;
    var e := t.progs[i][j];
    assert Stored(b.l, b.progs[i][j]) by {
      assert AllStored(b) && b.progs[i][j] == e;
      StoredAt(b, i, j);
    }
    var r := b.l.refs[e.at];
    assert Resolved(b.l, t.m0, e.at);
    assert IsFwd(e) ==> KeyOf(e).i < 10;
    if DefinedIn(t, r.key.i, i2, j2) {
      assert Listed(log, i2, j2);
      var n :| 0 <= n < |log| && log[n] == Place(i2, j2);
      DefListed(b.progs, log, |log|, n);
      var x :| 0 <= x < |b.l.defs| && b.l.defs[x].key == r.key;
      NoneDefined(b.l.defs, r, x);
    }
  }

  lemma StoredAt(b: Build, i: nat, j: nat)
    requires AllStored(b) && i < |b.progs| && j < |b.progs[i]|
    ensures Stored(b.l, b.progs[i][j])
  {
  }

  /** A label entry is among the definitions. */
  lemma {:induction false} DefListed(progs: seq<seq<Entry>>, log: seq<Place>, n: nat, m: nat)
    requires Within(progs, log) && m < n <= |log| && IsLabel(EntryAt(progs, log, m).act)
    ensures exists x :: 0 <= x < |DefsUpTo(progs, log, n)|
                        && DefsUpTo(progs, log, n)[x].key == KeyOf(EntryAt(progs, log, m))
  {
    var ds := DefsUpTo(progs, log, n);
    if m < n - 1 {
      DefListed(progs, log, n - 1, m);
      var x :| 0 <= x < |DefsUpTo(progs, log, n - 1)|
               && DefsUpTo(progs, log, n - 1)[x].key == KeyOf(EntryAt(progs, log, m));
      assert ds[x] == DefsUpTo(progs, log, n - 1)[x];
    } else {
      assert ds[|ds| - 1].key == KeyOf(EntryAt(progs, log, m));
    }
  }

  /** A reference without a target: its label is nowhere defined. */
  lemma NoneDefined(defs: seq<Def>, r: Ref, x: nat)
    requires DefsOk(defs) && r.time <= |defs| && x < |defs| && defs[x].key == r.key && Target(defs, r) <= 0
    ensures r.fwd && x < r.time
  {
    if x < r.time {
      LastThere(defs, r.key, r.time, x);
    } else {
      NextThere(defs, r.key, r.time, x);
    }
  }

  lemma {:induction false} LastThere(defs: seq<Def>, key: Key, n: nat, x: nat)
    requires DefsOk(defs) && x < n <= |defs| && defs[x].key == key
    ensures LastDef(defs, key, n) > 0
  {
    if defs[n - 1].key != key {
      LastThere(defs, key, n - 1, x);
    }
  }

  lemma {:induction false} NextThere(defs: seq<Def>, key: Key, n: nat, x: nat)
    requires DefsOk(defs) && n <= x < |defs| && defs[x].key == key
    ensures NextDef(defs, key, n) > 0
    decreases |defs| - n
  {
    if defs[n].key != key {
      NextThere(defs, key, n + 1, x);
    }
  }

  // ---- Where branches land.

  /** The code of the branch leads to the final offset of the entry at (i2, j2). */
  predicate Lands(t: Linking, out: seq<int>, i: nat, j: nat, i2: nat, j2: nat)
    requires Shape(t) && t.s == |t.progs| && Exists(t, i, j) && Exists(t, i2, j2)
  {
    var end := t.fins[i][j + 1];
    if t.shrinks[i][j] != 0 then 1 <= end <= |out| && end + Signed8(out[end - 1]) == t.fins[i2][j2]
    else 4 <= end <= |out| && (end + Value(out[end - 4..end]) - t.fins[i2][j2]) % 0x1_0000_0000 == 0
  }

  /** What becomes of the n-th entry, if it is a branch: it lands on the definition that it is bound to. Only a
      global label can have none, and then its number is in the buffer. */
  predicate BranchOk(t: Linking, log: seq<Place>, out: seq<int>, n: nat)
    requires Shape(t) && t.s == |t.progs| && Within(t.progs, log) && n < |log|
  {
    var e, m := EntryAt(t.progs, log, n), BoundTo(t.progs, log, n);
    IsRel(e.act) ==>
      if m < |log| then Lands(t, out, log[n].s, log[n].k, log[m].s, log[m].k)
      else KeyOf(e).LG? && KeyOf(e).i >= 10 && e.at in t.m0 && t.m0[e.at] == -KeyOf(e).i
  }

  /** Every branch does. */
  lemma BranchBound(al: seq<int>, b: Build, log: seq<Place>, t: Linking, mem: map<int, int>, out: seq<int>, w: World,
                    n: nat)
    requires AllLinked(al, t, mem) && t.progs == b.progs && AllResolved(b.l, t.m0) && DefsOk(b.l.defs)
    requires LogOk(b.progs, log, b.l.defs, b.l.refs) && n < |log| && IsRel(EntryAt(b.progs, log, n).act)
    requires CodeAt(t, out, w, log[n].s, log[n].k)
    ensures BranchOk(t, log, out, n)
  {
    hide LinkingOk, CodeAt, BoundTo, Target, DefsUpTo, Signed8, Value;
    var e, m := EntryAt(b.progs, log, n), BoundTo(b.progs, log, n);
    TargetAgrees(b.progs, log, b.l.defs, b.l.refs, n);
    assert Resolved(b.l, t.m0, e.at);
    if m < |log| {
      assert IsTarget(t, t.m0[e.at], log[m].s, log[m].k);
      BranchLands(al, t, mem, out, w, log[n].s, log[n].k, log[m].s, log[m].k);
    }
  }
}
