/**
 * When children are always reaped before their parent, the record of a finished
 * process holds what its whole family used: its own ticks and those of all its
 * descendants.
 */
module TaskTree {
  import opened Words
  import opened TaskUsage

  /** What really happened: the ticks each process ever used, by pid, and the
      children each one forked.  The kernel keeps neither. */
  datatype History = History(own: map<nat, nat>, kids: map<nat, seq<nat>>)

  /** Pids 1 .. n - 1 have been given out, children after their parents. */
  ghost predicate Family(h: History, n: nat) {
    && (forall p :: p in h.own <==> 1 <= p < n)
    && (forall p :: p in h.kids <==> 1 <= p < n)
    && (forall p, i :: p in h.kids && 0 <= i < |h.kids[p]| ==> p < h.kids[p][i] < n)
  }

  /** What process p and all its descendants used. */
  function Total(h: History, n: nat, p: nat): nat
    requires Family(h, n) && 1 <= p < n
    decreases n - p, 1, 0
  {
    h.own[p] + KidsTotal(h, n, p, |h.kids[p]|)
  }

  /** What the first i children of p and their descendants used. */
  function KidsTotal(h: History, n: nat, p: nat, i: nat): nat
    requires Family(h, n) && 1 <= p < n && i <= |h.kids[p]|
    decreases n - p, 0, i
  {
    if i == 0 then 0 else KidsTotal(h, n, p, i - 1) + Total(h, n, h.kids[p][i - 1])
  }

  /** The same, without the children that are still alive. */
  function ReapedTotal(h: History, n: nat, p: nat, i: nat, live: set<nat>): nat
    requires Family(h, n) && 1 <= p < n && i <= |h.kids[p]|
    decreases i
  {
    if i == 0 then 0
    else ReapedTotal(h, n, p, i - 1, live) + if h.kids[p][i - 1] in live then 0 else Total(h, n, h.kids[p][i - 1])
  }

  /** A reaped process has no live children. */
  ghost predicate Closed(h: History, live: set<nat>) {
    forall p, i :: p in h.kids && p !in live && 0 <= i < |h.kids[p]| ==> h.kids[p][i] !in live
  }

  /** h' differs from h only in live processes and new ones. */
  ghost predicate AgreesOnReaped(h: History, h': History, n: nat, live: set<nat>)
    requires Family(h, n)
  {
    forall p :: 1 <= p < n && p !in live ==>
      p in h'.own && p in h'.kids && h'.own[p] == h.own[p] && h'.kids[p] == h.kids[p]
  }

  /** What happens to live processes does not change the totals of reaped families. */
  lemma {:induction false} TotalKept(h: History, h': History, n: nat, n': nat, live: set<nat>, p: nat)
    requires Family(h, n) && Family(h', n') && n <= n' && Closed(h, live) && AgreesOnReaped(h, h', n, live)
    requires 1 <= p < n && p !in live
    ensures Total(h', n', p) == Total(h, n, p)
    decreases n - p, 1, 0
  {
    KidsKept(h, h', n, n', live, p, |h.kids[p]|);
  }

  lemma {:induction false} KidsKept(h: History, h': History, n: nat, n': nat, live: set<nat>, p: nat, i: nat)
    requires Family(h, n) && Family(h', n') && n <= n' && Closed(h, live) && AgreesOnReaped(h, h', n, live)
    requires 1 <= p < n && p !in live && i <= |h.kids[p]|
    ensures KidsTotal(h', n', p, i) == KidsTotal(h, n, p, i)
    decreases n - p, 0, i
  {
    if i > 0 {
      KidsKept(h, h', n, n', live, p, i - 1);
      TotalKept(h, h', n, n', live, h.kids[p][i - 1]);
    }
  }

  lemma {:induction false} ReapedKept(h: History, h': History, n: nat, n': nat, live: set<nat>, p: nat, i: nat)
    requires Family(h, n) && Family(h', n') && n <= n' && Closed(h, live) && AgreesOnReaped(h, h', n, live)
    requires 1 <= p < n && i <= |h.kids[p]| && h.kids[p] <= h'.kids[p]
    ensures ReapedTotal(h', n', p, i, live) == ReapedTotal(h, n, p, i, live)
    decreases i
  {
    if i > 0 {
      ReapedKept(h, h', n, n', live, p, i - 1);
      assert h'.kids[p][i - 1] == h.kids[p][i - 1];
      if h.kids[p][i - 1] !in live {
        TotalKept(h, h', n, n', live, h.kids[p][i - 1]);
      }
    }
  }

  /** Without live children, "reaped" is everything. */
  lemma {:induction false} AllReaped(h: History, n: nat, p: nat, i: nat, live: set<nat>)
    requires Family(h, n) && 1 <= p < n && i <= |h.kids[p]|
    requires forall k :: 0 <= k < |h.kids[p]| ==> h.kids[p][k] !in live
    ensures ReapedTotal(h, n, p, i, live) == KidsTotal(h, n, p, i)
    decreases i
  {
    if i > 0 {
      AllReaped(h, n, p, i - 1, live);
    }
  }

  /** Reaping c adds its family to its parent's reaped total, and to nobody else's. */
  lemma {:induction false} ReapOne(h: History, n: nat, p: nat, i: nat, live: set<nat>, c: nat)
    requires Family(h, n) && 1 <= p < n && 1 <= c < n && i <= |h.kids[p]| && c in live
    requires forall j, k :: 0 <= j < k < |h.kids[p]| ==> h.kids[p][j] != h.kids[p][k]
    ensures ReapedTotal(h, n, p, i, live - {c}) ==
      ReapedTotal(h, n, p, i, live) + if c in h.kids[p][..i] then Total(h, n, c) else 0
    decreases i
  {
    if i > 0 {
      ReapOne(h, n, p, i - 1, live, c);
      assert h.kids[p][..i] == h.kids[p][..i - 1] + [h.kids[p][i - 1]];
    }
  }

  lemma {:induction false} ReapedSetAgree(h: History, n: nat, p: nat, i: nat, live: set<nat>, live': set<nat>)
    requires Family(h, n) && 1 <= p < n && i <= |h.kids[p]|
    requires forall k :: 0 <= k < i ==> (h.kids[p][k] in live <==> h.kids[p][k] in live')
    ensures ReapedTotal(h, n, p, i, live') == ReapedTotal(h, n, p, i, live)
    decreases i
  {
    if i > 0 {
      ReapedSetAgree(h, n, p, i - 1, live, live');
    }
  }

  // ---------- The kernel's counters against the history ----------

  function Part(t: Ticks, kernel: bool): Word {
    if kernel then t.kernel else t.user
  }

  ghost function Live(t: seq<Process>): set<nat> {
    set i | 0 <= i < |t| && t[i].used :: t[i].pid
  }

  /** The counters of a live process are right, and it is a child of its parent. */
  ghost predicate SlotOk(p: Process, h: History, n: nat, kernel: bool, live: set<nat>)
    requires Family(h, n) && 1 <= p.pid < n
  {
    && Same(Part(p.own, kernel), h.own[p.pid])
    && Same(Part(p.children, kernel), ReapedTotal(h, n, p.pid, |h.kids[p.pid]|, live))
    && (p.ppid != 0 ==> p.ppid in live && p.ppid in h.kids && p.pid in h.kids[p.ppid])
  }

  ghost predicate NoRepeats(h: History) {
    forall p, j, k :: p in h.kids && 0 <= j < k < |h.kids[p]| ==> h.kids[p][j] != h.kids[p][k]
  }

  /** A live child still has the parent that forked it. */
  ghost predicate KnowsParent(t: seq<Process>, h: History) {
    forall i, q :: 0 <= i < |t| && t[i].used && q in h.kids && t[i].pid in h.kids[q] ==> t[i].ppid == q
  }

  ghost predicate Kept(s: Sys, h: History, kernel: bool) {
    && SysOk(s) && Family(h, s.nextPid) && NoRepeats(h) && Closed(h, Live(s.table)) && KnowsParent(s.table, h)
    && forall i :: 0 <= i < |s.table| && s.table[i].used ==> SlotOk(s.table[i], h, s.nextPid, kernel, Live(s.table))
  }

  /** Children are reaped before their parent, so nobody needs a new one. */
  ghost predicate ChildrenFirst(s: Sys, e: Event)
    requires Enabled(s, e)
  {
    match e
    case NewParent(_, _) => false
    case ExitOf(slot) => forall i :: 0 <= i < |s.table| && s.table[i].used ==> s.table[i].ppid != s.table[slot].pid
    case _ => true
  }

  /** The history after an event. */
  function Observe(s: Sys, h: History, kernel: bool, e: Event): History
    requires Enabled(s, e)
  {
    match e
    case ChargeTo(slot, ring3, idle) =>
      var pid := s.table[slot].pid;
      if pid in h.own && kernel == (idle || !ring3) then h.(own := h.own[pid := h.own[pid] + 1]) else h
    case ForkInto(slot, parent) =>
      var n := s.nextPid;
      var born := History(h.own[n := 0], h.kids[n := []]);
      if parent != -1 && s.table[parent].pid in h.kids then
        born.(kids := born.kids[s.table[parent].pid := h.kids[s.table[parent].pid] + [n]])
      else born
    case _ => h
  }

  lemma LiveIn(t: seq<Process>, i: nat)
    requires i < |t| && t[i].used
    ensures t[i].pid in Live(t)
  {
  }

  /** h' is h with one process's own ticks changed. */
  lemma OwnShape(s: Sys, h: History, h': History, pid: nat, x: nat)
    requires Family(h, s.nextPid) && NoRepeats(h) && Closed(h, Live(s.table)) && KnowsParent(s.table, h)
    requires pid in Live(s.table) && pid in h.own && h' == h.(own := h.own[pid := x])
    ensures Family(h', s.nextPid) && NoRepeats(h') && Closed(h', Live(s.table)) && KnowsParent(s.table, h')
    ensures AgreesOnReaped(h, h', s.nextPid, Live(s.table))
  {
  }

  lemma OwnSlot(p: Process, p': Process, h: History, h': History, n: nat, kernel: bool, live: set<nat>, pid: nat,
    x: nat)
    requires Family(h, n) && Family(h', n) && 1 <= p.pid < n && SlotOk(p, h, n, kernel, live)
    requires Closed(h, live) && AgreesOnReaped(h, h', n, live) && pid in h.own && h' == h.(own := h.own[pid := x])
    requires p' == p.(own := p'.own) && if p.pid == pid then Same(Part(p'.own, kernel), x) else p'.own == p.own
    ensures SlotOk(p', h', n, kernel, live)
  {
    ReapedKept(h, h', n, n, live, p.pid, |h.kids[p.pid]|);
  }

  /** What charging does to the slots, seen through one of the two counters. */
  lemma ChargeEffect(s: Sys, slot: nat, ring3: bool, idle: bool, kernel: bool)
    requires SysOk(s) && slot < |s.table| && s.table[slot].used
    ensures var t, t' := s.table, Charge(s, slot, ring3, idle).table;
      && |t'| == |t| && (forall i :: 0 <= i < |t| && i != slot ==> t'[i] == t[i])
      && t'[slot] == t[slot].(own := t'[slot].own)
      && Part(t'[slot].own, kernel) ==
           if kernel == (idle || !ring3) then Inc(Part(t[slot].own, kernel)) else Part(t[slot].own, kernel)
  {
  }

  lemma ChargeKept(s: Sys, h: History, kernel: bool, slot: nat, ring3: bool, idle: bool)
    requires Kept(s, h, kernel) && slot < |s.table| && s.table[slot].used
    ensures Kept(Charge(s, slot, ring3, idle), Observe(s, h, kernel, ChargeTo(slot, ring3, idle)), kernel)
  {
    var e := ChargeTo(slot, ring3, idle);
    DoOk(s, e);
    ChargeEffect(s, slot, ring3, idle, kernel);
    var x := h.own[s.table[slot].pid] + if kernel == (idle || !ring3) then 1 else 0;
    assert Observe(s, h, kernel, e) == h.(own := h.own[s.table[slot].pid := x]);
    assert SlotOk(s.table[slot], h, s.nextPid, kernel, Live(s.table));
    CountedSame(Part(s.table[slot].own, kernel), h.own[s.table[slot].pid]);
    OwnKept(s, Charge(s, slot, ring3, idle), h, kernel, slot, x);
  }

  lemma OwnKept(s: Sys, s': Sys, h: History, kernel: bool, slot: nat, x: nat)
    requires Kept(s, h, kernel) && slot < |s.table| && s.table[slot].used && SysOk(s') && s'.nextPid == s.nextPid
    requires |s'.table| == |s.table| && (forall i :: 0 <= i < |s.table| && i != slot ==> s'.table[i] == s.table[i])
    requires s'.table[slot] == s.table[slot].(own := s'.table[slot].own) && Same(Part(s'.table[slot].own, kernel), x)
    ensures Kept(s', h.(own := h.own[s.table[slot].pid := x]), kernel)
  {
    var n, live, pid := s.nextPid, Live(s.table), s.table[slot].pid;
    var h' := h.(own := h.own[pid := x]);
    LiveIn(s.table, slot);
    LiveSame(s.table, s'.table);
    OwnShape(s, h, h', pid, x);
    SameParents(s.table, s'.table, h');
    forall i | 0 <= i < |s'.table| && s'.table[i].used ensures SlotOk(s'.table[i], h', n, kernel, live) {
      assert i != slot ==> s.table[i].pid != pid;
      OwnSlot(s.table[i], s'.table[i], h, h', n, kernel, live, pid, x);
    }
  }

  lemma SameParents(t: seq<Process>, t': seq<Process>, h: History)
    requires |t| == |t'| && KnowsParent(t, h)
    requires forall i :: 0 <= i < |t| && t'[i].used ==> t[i].used && t'[i].pid == t[i].pid && t'[i].ppid == t[i].ppid
    ensures KnowsParent(t', h)
  {
  }

  lemma LiveSame(t: seq<Process>, t': seq<Process>)
    requires |t| == |t'| && forall i :: 0 <= i < |t| ==> t'[i].used == t[i].used && t'[i].pid == t[i].pid
    ensures Live(t') == Live(t)
  {
    forall x | x in Live(t) ensures x in Live(t') {
      var i :| 0 <= i < |t| && t[i].used && t[i].pid == x;
      LiveIn(t', i);
    }
    forall x | x in Live(t') ensures x in Live(t) {
      var i :| 0 <= i < |t'| && t'[i].used && t'[i].pid == x;
      LiveIn(t, i);
    }
  }

  lemma CountedSame(x: Word, n: nat)
    requires Same(x, n)
    ensures Same(Inc(x), n + 1)
  {
    StaysSame(x, n, Inc(x), n + 1);
  }

  // ---------- A fork ----------

  /** The history after process n was born, to the process `mother` (0: to nobody). */
  function Born(h: History, n: nat, mother: nat): History {
    var kids := h.kids[n := []];
    History(h.own[n := 0], if mother in h.kids then kids[mother := h.kids[mother] + [n]] else kids)
  }

  /** Process q has what it had, and perhaps n as one more child. */
  ghost predicate GrewAt(h: History, h': History, n: nat, q: nat) {
    && q in h.own && q in h.kids && q in h'.own && q in h'.kids
    && h'.own[q] == h.own[q] && (h'.kids[q] == h.kids[q] || h'.kids[q] == h.kids[q] + [n])
  }

  lemma BornShape(h: History, n: nat, mother: nat, live: set<nat>)
    requires Family(h, n) && 1 <= n && NoRepeats(h) && Closed(h, live) && n !in live && (mother == 0 || mother in live)
    ensures var h' := Born(h, n, mother);
      && Family(h', n + 1) && NoRepeats(h') && Closed(h', live + {n}) && AgreesOnReaped(h, h', n, live)
      && (forall q :: 1 <= q < n ==> GrewAt(h, h', n, q))
  {
  }

  lemma BornReaped(h: History, h': History, n: nat, live: set<nat>, p: nat)
    requires Family(h, n) && Family(h', n + 1) && Closed(h, live) && AgreesOnReaped(h, h', n, live) && n !in live
    requires 1 <= p < n && (h'.kids[p] == h.kids[p] || h'.kids[p] == h.kids[p] + [n])
    ensures ReapedTotal(h', n + 1, p, |h'.kids[p]|, live + {n}) == ReapedTotal(h, n, p, |h.kids[p]|, live)
  {
    var i := |h.kids[p]|;
    ReapedKept(h, h', n, n + 1, live, p, i);
    OldKids(h, h', n, live, p);
    ReapedSetAgree(h', n + 1, p, i, live, live + {n});
  }

  lemma OldKids(h: History, h': History, n: nat, live: set<nat>, p: nat)
    requires Family(h, n) && Family(h', n + 1) && 1 <= p < n && (h'.kids[p] == h.kids[p] || h'.kids[p] ==
      h.kids[p] + [n])
    ensures forall k :: 0 <= k < |h.kids[p]| ==> (h'.kids[p][k] in live <==> h'.kids[p][k] in live + {n})
  {
    forall k | 0 <= k < |h.kids[p]| ensures h'.kids[p][k] != n {
      assert h'.kids[p][k] == h.kids[p][k];
    }
  }

  lemma BornSlot(p: Process, h: History, h': History, n: nat, n': nat, kernel: bool, live: set<nat>, live': set<nat>)
    requires n' == n + 1 && live' == live + {n}
    requires Family(h, n) && Family(h', n') && Closed(h, live) && AgreesOnReaped(h, h', n, live) && n !in live
    requires 1 <= p.pid < n && SlotOk(p, h, n, kernel, live)
    requires GrewAt(h, h', n, p.pid) && (p.ppid != 0 ==> GrewAt(h, h', n, p.ppid))
    ensures SlotOk(p, h', n', kernel, live')
  {
    BornReaped(h, h', n, live, p.pid);
  }

  lemma NewbornSlot(p: Process, h: History, h': History, n: nat, n': nat, mother: nat, kernel: bool, live': set<nat>)
    requires Family(h, n) && Family(h', n') && n' == n + 1 && 1 <= n && h' == Born(h, n, mother)
    requires p.pid == n && p.ppid == mother && p.own == NONE && p.children == NONE
    requires mother != 0 ==> mother in live' && mother in h.kids
    ensures SlotOk(p, h', n', kernel, live')
  {
    if mother != 0 {
      assert h'.kids[mother] == h.kids[mother] + [n];
    }
  }

  lemma BornParents(t: seq<Process>, h: History, n: nat, mother: nat, slot: nat, p: Process)
    requires KnowsParent(t, h) && Family(h, n) && slot < |t| && p.pid == n && p.ppid == mother && 1 <= n
    requires forall i :: 0 <= i < |t| && t[i].used ==> t[i].pid < n
    ensures KnowsParent(t[slot := p], Born(h, n, mother))
  {
  }

  lemma LiveAfterFork(t: seq<Process>, slot: nat, p: Process)
    requires slot < |t| && !t[slot].used && p.used
    ensures Live(t[slot := p]) == Live(t) + {p.pid}
  {
    var t' := t[slot := p];
    forall x | x in Live(t) ensures x in Live(t') {
      var i :| 0 <= i < |t| && t[i].used && t[i].pid == x;
      LiveIn(t', i);
    }
    LiveIn(t', slot);
  }

  lemma ForkKept(s: Sys, h: History, kernel: bool, slot: nat, parent: int)
    requires Kept(s, h, kernel) && Enabled(s, ForkInto(slot, parent))
    ensures Kept(Fork(s, slot, parent), Observe(s, h, kernel, ForkInto(slot, parent)), kernel)
  {
    var n, live := s.nextPid, Live(s.table);
    var mother := if parent == -1 then 0 else s.table[parent].pid;
    var s', h' := Fork(s, slot, parent), Born(h, n, mother);
    assert Observe(s, h, kernel, ForkInto(slot, parent)) == h';
    DoOk(s, ForkInto(slot, parent));
    if parent != -1 {
      LiveIn(s.table, parent);
    }
    NextNotLive(s);
    LiveAfterFork(s.table, slot, s'.table[slot]);
    BornShape(h, n, mother, live);
    BornParents(s.table, h, n, mother, slot, s'.table[slot]);
    var live' := Live(s'.table);
    forall i | 0 <= i < |s'.table| && s'.table[i].used ensures SlotOk(s'.table[i], h', s'.nextPid, kernel, live') {
      if i == slot {
        NewbornSlot(s'.table[i], h, h', n, s'.nextPid, mother, kernel, live');
      } else {
        BornSlot(s.table[i], h, h', n, s'.nextPid, kernel, live, live');
      }
    }
  }

  lemma NextNotLive(s: Sys)
    requires SysOk(s)
    ensures s.nextPid !in Live(s.table)
  {
  }

  // ---------- An exit ----------

  /** The usage of a process without live children is what its whole family used. */
  lemma UsedIsTotal(p: Process, h: History, n: nat, kernel: bool, live: set<nat>)
    requires Family(h, n) && 1 <= p.pid < n && SlotOk(p, h, n, kernel, live)
    requires forall k :: 0 <= k < |h.kids[p.pid]| ==> h.kids[p.pid][k] !in live
    ensures Same(Part(Used(p), kernel), Total(h, n, p.pid))
  {
    AllReaped(h, n, p.pid, |h.kids[p.pid]|, live);
    AddWraps(p.own, p.children);
    SumSame(Part(p.own, kernel), h.own[p.pid], Part(p.children, kernel), KidsTotal(h, n, p.pid, |h.kids[p.pid]|),
      Part(Used(p), kernel));
  }

  lemma SumSame(a: Word, a': int, b: Word, b': int, sum: Word)
    requires Same(a, a') && Same(b, b') && (sum == a + b || sum == a + b - WORD_SIZE)
    ensures Same(sum, a' + b')
  {
  }

  lemma NoLiveKids(s: Sys, h: History, slot: nat)
    requires Family(h, s.nextPid) && KnowsParent(s.table, h) && slot < |s.table|
    requires forall i :: 0 <= i < |s.table| && s.table[i].used ==> s.table[i].ppid != s.table[slot].pid
    requires 1 <= s.table[slot].pid < s.nextPid
    ensures var pid := s.table[slot].pid;
      forall k :: 0 <= k < |h.kids[pid]| ==> h.kids[pid][k] !in Live(s.table)
  {
    var pid := s.table[slot].pid;
    forall k | 0 <= k < |h.kids[pid]| ensures h.kids[pid][k] !in Live(s.table) {
      assert h.kids[pid][k] in h.kids[pid];
    }
  }

  lemma LiveAfterExit(t: seq<Process>, t': seq<Process>, slot: nat)
    requires |t'| == |t| && slot < |t| && t[slot].used && !t'[slot].used
    requires forall i :: 0 <= i < |t| && i != slot ==> t'[i].used == t[i].used && t'[i].pid == t[i].pid
    requires forall i :: 0 <= i < |t| && i != slot && t[i].used ==> t[i].pid != t[slot].pid
    ensures Live(t') == Live(t) - {t[slot].pid}
  {
    forall x | x in Live(t) && x != t[slot].pid ensures x in Live(t') {
      var i :| 0 <= i < |t| && t[i].used && t[i].pid == x;
      LiveIn(t', i);
    }
    forall x | x in Live(t') ensures x in Live(t) && x != t[slot].pid {
      var i :| 0 <= i < |t'| && t'[i].used && t'[i].pid == x;
      LiveIn(t, i);
    }
  }

  /** THE RECORD OF A FINISHED PROCESS: when its children were reaped first, it holds
      what the process and all its descendants ever used. */
  lemma RecordIsFamilyTotal(s: Sys, h: History, kernel: bool, slot: nat)
    requires Kept(s, h, kernel) && Enabled(s, ExitOf(slot)) && ChildrenFirst(s, ExitOf(slot))
    ensures var r := Exit(s, slot).records[s.nextRecord];
      r.pid == s.table[slot].pid && Same(Part(r.ticks, kernel), Total(h, s.nextPid, r.pid))
  {
    var p := s.table[slot];
    NoLiveKids(s, h, slot);
    UsedIsTotal(p, h, s.nextPid, kernel, Live(s.table));
    if p.ppid != 0 {
      assert SlotOk(p, h, s.nextPid, kernel, Live(s.table));
      assert Find(s.table, p.ppid) != -1 by {
        var i :| 0 <= i < |s.table| && s.table[i].used && s.table[i].pid == p.ppid;
      }
    }
  }

  /** The slots after an exit: the parent got the usage, the slot is free. */
  lemma ExitEffect(s: Sys, slot: nat)
    requires SysOk(s) && slot < |s.table| && s.table[slot].used
    ensures var t, t', p := s.table, Exit(s, slot).table, s.table[slot];
      && |t'| == |t| && t'[slot] == t'[slot].(used := false)
      && forall i :: 0 <= i < |t| && i != slot ==>
           t'[i] == if t[i].used && p.ppid != 0 && t[i].pid == p.ppid then GiveTo(t[i], Used(p)) else t[i]
  {
  }

  lemma ExitSlot(q: Process, p: Process, h: History, n: nat, kernel: bool, live: set<nat>)
    requires Family(h, n) && NoRepeats(h) && 1 <= q.pid < n && 1 <= p.pid < n && p.pid in live && q.pid != p.pid
    requires SlotOk(q, h, n, kernel, live) && SlotOk(p, h, n, kernel, live) && q.ppid != p.pid
    requires p.pid in h.kids[q.pid] <==> (p.ppid != 0 && p.ppid == q.pid)
    requires Same(Part(Used(p), kernel), Total(h, n, p.pid))
    ensures SlotOk(if p.ppid != 0 && q.pid == p.ppid then GiveTo(q, Used(p)) else q, h, n, kernel, live - {p.pid})
  {
    var i := |h.kids[q.pid]|;
    ReapOne(h, n, q.pid, i, live, p.pid);
    assert h.kids[q.pid][..i] == h.kids[q.pid];
    AddWraps(q.children, Used(p));
    if p.pid in h.kids[q.pid] {
      SumSame(Part(q.children, kernel), ReapedTotal(h, n, q.pid, i, live), Part(Used(p), kernel), Total(h, n, p.pid),
              Part(Add(q.children, Used(p)), kernel));
    }
  }

  lemma ExitShape(s: Sys, h: History, slot: nat)
    requires SysOk(s) && Family(h, s.nextPid) && Closed(h, Live(s.table)) && KnowsParent(s.table, h)
    requires Enabled(s, ExitOf(slot)) && ChildrenFirst(s, ExitOf(slot))
    ensures var s' := Exit(s, slot);
      Live(s'.table) == Live(s.table) - {s.table[slot].pid} && Closed(h, Live(s'.table)) && KnowsParent(s'.table, h)
  {
    var s' := Exit(s, slot);
    ExitEffect(s, slot);
    LiveAfterExit(s.table, s'.table, slot);
    NoLiveKids(s, h, slot);
    SameParents(s.table, s'.table, h);
  }

  lemma ExitKept(s: Sys, h: History, kernel: bool, slot: nat)
    requires Kept(s, h, kernel) && Enabled(s, ExitOf(slot)) && ChildrenFirst(s, ExitOf(slot))
    ensures Kept(Exit(s, slot), h, kernel)
  {
    var s', n, live, p := Exit(s, slot), s.nextPid, Live(s.table), s.table[slot];
    DoOk(s, ExitOf(slot));
    ExitShape(s, h, slot);
    ExitEffect(s, slot);
    NoLiveKids(s, h, slot);
    LiveIn(s.table, slot);
    UsedIsTotal(p, h, n, kernel, live);
    forall i | 0 <= i < |s'.table| && s'.table[i].used ensures SlotOk(s'.table[i], h, n, kernel, live - {p.pid}) {
      OnlyParentHas(s, h, kernel, slot, i);
      ExitSlot(s.table[i], p, h, n, kernel, live);
    }
  }

  lemma OnlyParentHas(s: Sys, h: History, kernel: bool, slot: nat, i: nat)
    requires Kept(s, h, kernel) && slot < |s.table| && s.table[slot].used && i < |s.table| && s.table[i].used
    ensures var p, q := s.table[slot], s.table[i].pid;
      p.pid in h.kids[q] <==> (p.ppid != 0 && p.ppid == q)
  {
    assert SlotOk(s.table[slot], h, s.nextPid, kernel, Live(s.table));
  }

  // ---------- Whole runs ----------

  /** A run in which children are always reaped first, with its history. */
  ghost predicate Observed(s: Sys, h: History, kernel: bool, e: Event, h': History) {
    Enabled(s, e) ==> ChildrenFirst(s, e) && h' == Observe(s, h, kernel, e)
  }

  ghost predicate FamilyRun(states: seq<Sys>, histories: seq<History>, events: seq<Event>, kernel: bool) {
    && IsRun(states, events) && |histories| == |states|
    && forall k :: 0 <= k < |events| ==> Observed(states[k], histories[k], kernel, events[k], histories[k + 1])
  }

  lemma StepKept(s: Sys, h: History, kernel: bool, e: Event)
    requires Kept(s, h, kernel) && Enabled(s, e) && ChildrenFirst(s, e)
    ensures Kept(Do(s, e), Observe(s, h, kernel, e), kernel)
  {
    match e
    case ChargeTo(slot, ring3, idle) => ChargeKept(s, h, kernel, slot, ring3, idle);
    case ForkInto(slot, parent) => ForkKept(s, h, kernel, slot, parent);
    case NewParent(_, _) =>
    case ExitOf(slot) => ExitKept(s, h, kernel, slot);
  }

  lemma {:induction false} AlwaysKept(states: seq<Sys>, histories: seq<History>, events: seq<Event>, kernel: bool,
                                      k: nat)
    requires FamilyRun(states, histories, events, kernel) && Kept(states[0], histories[0], kernel) && k < |states|
    ensures Kept(states[k], histories[k], kernel)
  {
    if k > 0 {
      AlwaysKept(states, histories, events, kernel, k - 1);
      assert Follows(states[k - 1], events[k - 1], states[k - 1 + 1]);
      assert Observed(states[k - 1], histories[k - 1], kernel, events[k - 1], histories[k - 1 + 1]);
      StepKept(states[k - 1], histories[k - 1], kernel, events[k - 1]);
    }
  }

  /** Over every run in which children are reaped before their parents: the record a
      process leaves has its own ticks plus those of all its descendants. */
  lemma FamilyTotals(states: seq<Sys>, histories: seq<History>, events: seq<Event>, kernel: bool, k: nat)
    requires FamilyRun(states, histories, events, kernel) && Kept(states[0], histories[0], kernel)
    requires k < |events| && events[k].ExitOf?
    ensures Kept(states[k], histories[k], kernel) && Enabled(states[k], events[k])
    ensures
      var r := Do(states[k], events[k]).records[states[k].nextRecord];
      && states[k + 1] == Do(states[k], events[k]) && r.pid == states[k].table[events[k].slot].pid
      && Same(Part(r.ticks, kernel), Total(histories[k], states[k].nextPid, r.pid))
  {
    AlwaysKept(states, histories, events, kernel, k);
    assert Follows(states[k], events[k], states[k + 1]);
    assert Observed(states[k], histories[k], kernel, events[k], histories[k + 1]);
    RecordIsFamilyTotal(states[k], histories[k], kernel, events[k].slot);
  }

  /** It starts right: with an empty table nothing has happened yet. */
  lemma BootKept(s: Sys, kernel: bool)
    requires SysOk(s) && s.nextPid == 1 && forall i :: 0 <= i < |s.table| ==> !s.table[i].used
    ensures Kept(s, History(map[], map[]), kernel)
  {
  }
}
