/**
 * CPU time from birth to death: every timer tick is charged to a process
 * (core/accounting), and what a finished process used goes to its parent and into
 * a small ring of records (core/task).  No tick is lost or counted twice.
 */
module TaskUsage {
  import opened Words

  const RECORDS := 16

  /** Ticks in ring 3 and in ring 0. */
  datatype Ticks = Ticks(user: Word, kernel: Word)

  function Add(a: Ticks, b: Ticks): Ticks {
    Ticks(Wrap(a.user + b.user), Wrap(a.kernel + b.kernel))
  }

  const NONE := Ticks(0, 0)

  /** The fields of `process_t` that accounting reads or writes. */
  datatype Process = Process(
    used: bool, pid: nat, ppid: nat, nice: int, resetOnFork: bool, own: Ticks, children: Ticks)

  /** The record of an ended process: its ticks and those inherited from its children. */
  datatype Usage = Usage(pid: nat, ticks: Ticks)

  /** Ticks since boot, by kind. */
  datatype Totals = Totals(user: Word, nice: Word, system: Word, idle: Word)

  datatype Sys = Sys(
    table: seq<Process>,
    records: seq<Usage>,
    nextRecord: int,
    totals: Totals,
    nextPid: nat,
    lost: (int, int))     // ticks of processes reaped without a live parent

  ghost predicate SysOk(s: Sys) {
    && |s.records| == RECORDS && 0 <= s.nextRecord < RECORDS && 1 <= s.nextPid
    && (forall i :: 0 <= i < |s.table| && s.table[i].used ==>
      1 <= s.table[i].pid < s.nextPid && s.table[i].ppid != s.table[i].pid)
    && (forall i, j :: 0 <= i < j < |s.table| && s.table[i].used && s.table[j].used ==>
      s.table[i].pid != s.table[j].pid)
  }

  /** `process_get_by_pid`: the slot of a process, or -1. */
  function Find(t: seq<Process>, pid: nat): (i: int)
    ensures -1 <= i < |t|
    ensures i != -1 ==> t[i].used && t[i].pid == pid
    ensures i == -1 ==> forall k :: 0 <= k < |t| && t[k].used ==> t[k].pid != pid
  {
    if t == [] then -1
    else if t[|t| - 1].used && t[|t| - 1].pid == pid && Find(t[..|t| - 1], pid) == -1 then |t| - 1
    else Find(t[..|t| - 1], pid)
  }

  // ---------- The operations ----------

  /** Charge one tick. */
  function Charge(s: Sys, slot: nat, ring3: bool, idle: bool): Sys
    requires slot < |s.table|
  {
    var p := s.table[slot];
    if !idle && ring3 then
      s.(table := s.table[slot := p.(own := p.own.(user := Inc(p.own.user)))],
         totals := if p.nice > 0 then s.totals.(nice := Inc(s.totals.nice)) else s.totals.(user := Inc(s.totals.user)))
    else
      s.(table := s.table[slot := p.(own := p.own.(kernel := Inc(p.own.kernel)))],
         totals := if idle then s.totals.(idle := Inc(s.totals.idle)) else s.totals.(system := Inc(s.totals.system)))
  }

  /** A new process in a free slot, all counters 0; parent -1 means none. It has the nice
      value of its parent, unless that asked for a reset. */
  function Fork(s: Sys, slot: nat, parent: int): Sys
    requires slot < |s.table| && -1 <= parent < |s.table|
  {
    var ppid := if parent == -1 then 0 else s.table[parent].pid;
    var nice := if parent == -1 || s.table[parent].resetOnFork then 0 else s.table[parent].nice;
    s.(table := s.table[slot := Process(true, s.nextPid, ppid, nice, false, NONE, NONE)], nextPid := s.nextPid + 1)
  }

  /** The parent ended first: another process takes its place. */
  function Reparent(s: Sys, slot: nat, ppid: nat): Sys
    requires slot < |s.table|
  {
    s.(table := s.table[slot := s.table[slot].(ppid := ppid)])
  }

  /** The first record of process `pid`, if there is one, gets `u` on top. */
  function AddToRecord(r: seq<Usage>, pid: nat, u: Ticks): (r': seq<Usage>)
    ensures |r'| == |r|
  {
    if r == [] then r
    else if r[0].pid == pid then [r[0].(ticks := Add(r[0].ticks, u))] + r[1..]
    else [r[0]] + AddToRecord(r[1..], pid, u)
  }

  /** Everything a process used, its finished children included. */
  function Used(p: Process): Ticks {
    Add(p.own, p.children)
  }

  /** The record of the process in a slot, over the oldest one. */
  function Recorded(s: Sys, slot: nat): Sys
    requires slot < |s.table| && 0 <= s.nextRecord < |s.records|
  {
    s.(records := s.records[s.nextRecord := Usage(s.table[slot].pid, Used(s.table[slot]))],
       nextRecord := (s.nextRecord + 1) % RECORDS)
  }

  /** Usage goes to the parent, or to the parent's own record if the parent is gone. */
  function Passed(s: Sys, ppid: nat, u: Ticks): (s': Sys)
    ensures |s'.table| == |s.table|
  {
    var parent := if ppid == 0 then -1 else Find(s.table, ppid);
    if parent != -1 then s.(table := s.table[parent := GiveTo(s.table[parent], u)])
    else s.(records := if ppid == 0 then s.records else AddToRecord(s.records, ppid, u),
            lost := (s.lost.0 + u.user, s.lost.1 + u.kernel))
  }

  /** The reaper frees a slot. */
  function Exit(s: Sys, slot: nat): Sys
    requires slot < |s.table| && 0 <= s.nextRecord < |s.records|
  {
    var p := s.table[slot];
    var s1 := Passed(Recorded(s, slot), p.ppid, Used(p));
    s1.(table := s1.table[slot := s1.table[slot].(used := false)])
  }

  function GiveTo(p: Process, u: Ticks): Process {
    p.(children := Add(p.children, u))
  }

  // ---------- Conservation ----------

  /** Equal up to wrap-around of the 32-bit counters. */
  predicate Same(a: int, b: int) {
    (a - b) % WORD_SIZE == 0
  }

  function UserOf(p: Process): int {
    if p.used then p.own.user + p.children.user else 0
  }

  function KernelOf(p: Process): int {
    if p.used then p.own.kernel + p.children.kernel else 0
  }

  function SumUser(t: seq<Process>): int {
    if t == [] then 0 else UserOf(t[0]) + SumUser(t[1..])
  }

  function SumKernel(t: seq<Process>): int {
    if t == [] then 0 else KernelOf(t[0]) + SumKernel(t[1..])
  }

  /** Every accounted tick is held by exactly one live process, its own or a finished
      child's, or left with a process that had no live parent. */
  ghost predicate Balanced(s: Sys) {
    && Same(s.totals.user + s.totals.nice, SumUser(s.table) + s.lost.0)
    && Same(s.totals.system + s.totals.idle, SumKernel(s.table) + s.lost.1)
  }

  lemma {:induction false} SumUpdate(t: seq<Process>, i: nat, p: Process)
    requires i < |t|
    ensures SumUser(t[i := p]) == SumUser(t) - UserOf(t[i]) + UserOf(p)
    ensures SumKernel(t[i := p]) == SumKernel(t) - KernelOf(t[i]) + KernelOf(p)
  {
    if i == 0 {
      assert t[0 := p][1..] == t[1..];
    } else {
      assert t[i := p][1..] == t[1..][i - 1 := p];
      SumUpdate(t[1..], i - 1, p);
    }
  }

  /** The two sides moved by the same amount, up to a few wrap-arounds. */
  predicate WholeWraps(d: int) {
    d == 0 || d == WORD_SIZE || d == -WORD_SIZE || d == 2 * WORD_SIZE || d == -2 * WORD_SIZE
  }

  lemma StaysSame(a: int, b: int, a': int, b': int)
    requires Same(a, b) && WholeWraps((a' - b') - (a - b))
    ensures Same(a', b')
  {
  }

  lemma WrapOnce(x: int)
    requires 0 <= x < 2 * WORD_SIZE
    ensures Wrap(x) == if x < WORD_SIZE then x else x - WORD_SIZE
  {
  }

  /** The step from s to s' moves both sides of both balances together. */
  lemma StepBalanced(s: Sys, s': Sys)
    requires Balanced(s)
    requires WholeWraps((s'.totals.user + s'.totals.nice - SumUser(s'.table) - s'.lost.0)
                        - (s.totals.user + s.totals.nice - SumUser(s.table) - s.lost.0))
    requires WholeWraps((s'.totals.system + s'.totals.idle - SumKernel(s'.table) - s'.lost.1)
                        - (s.totals.system + s.totals.idle - SumKernel(s.table) - s.lost.1))
    ensures Balanced(s')
  {
    StaysSame(s.totals.user + s.totals.nice, SumUser(s.table) + s.lost.0, s'.totals.user + s'.totals.nice,
      SumUser(s'.table) + s'.lost.0);
    StaysSame(s.totals.system + s.totals.idle, SumKernel(s.table) + s.lost.1, s'.totals.system + s'.totals.idle,
      SumKernel(s'.table) + s'.lost.1);
  }

  lemma ChargeBalanced(s: Sys, slot: nat, ring3: bool, idle: bool)
    requires Balanced(s) && slot < |s.table| && s.table[slot].used
    ensures Balanced(Charge(s, slot, ring3, idle))
  {
    var s' := Charge(s, slot, ring3, idle);
    SumUpdate(s.table, slot, s'.table[slot]);
    StepBalanced(s, s');
  }

  lemma ForkBalanced(s: Sys, slot: nat, parent: int)
    requires Balanced(s) && slot < |s.table| && !s.table[slot].used && -1 <= parent < |s.table|
    ensures Balanced(Fork(s, slot, parent))
  {
    SumUpdate(s.table, slot, Fork(s, slot, parent).table[slot]);
  }

  lemma ReparentBalanced(s: Sys, slot: nat, ppid: nat)
    requires Balanced(s) && slot < |s.table|
    ensures Balanced(Reparent(s, slot, ppid))
  {
    SumUpdate(s.table, slot, Reparent(s, slot, ppid).table[slot]);
  }

  lemma AddWraps(a: Ticks, b: Ticks)
    ensures Add(a, b).user == a.user + b.user || Add(a, b).user == a.user + b.user - WORD_SIZE
    ensures Add(a, b).kernel == a.kernel + b.kernel || Add(a, b).kernel == a.kernel + b.kernel - WORD_SIZE
  {
    WrapOnce(a.user + b.user);
    WrapOnce(a.kernel + b.kernel);
  }

  /** The table after slot i gave u to the process in slot `parent` and was freed. */
  lemma SumAfterExit(t: seq<Process>, slot: nat, parent: int, u: Ticks)
    requires slot < |t| && t[slot].used && -1 <= parent < |t| && parent != slot && (parent != -1 ==> t[parent].used)
    ensures var t1 := if parent == -1 then t else t[parent := GiveTo(t[parent], u)];
      var t2 := t1[slot := t1[slot].(used := false)];
      && SumUser(t2) == SumUser(t) - UserOf(t[slot]) + (if parent ==
        -1 then 0 else UserOf(GiveTo(t[parent], u)) - UserOf(t[parent]))
      && SumKernel(t2) == SumKernel(t) - KernelOf(t[slot]) + (if parent ==
        -1 then 0 else KernelOf(GiveTo(t[parent], u)) - KernelOf(t[parent]))
  {
    var t1 := if parent == -1 then t else t[parent := GiveTo(t[parent], u)];
    if parent != -1 {
      SumUpdate(t, parent, GiveTo(t[parent], u));
    }
    SumUpdate(t1, slot, t1[slot].(used := false));
  }

  lemma ExitBalanced(s: Sys, slot: nat)
    requires Balanced(s) && SysOk(s) && slot < |s.table| && s.table[slot].used
    ensures Balanced(Exit(s, slot))
  {
    var p := s.table[slot];
    var u := Used(p);
    var parent := if p.ppid == 0 then -1 else Find(s.table, p.ppid);
    AddWraps(p.own, p.children);
    if parent != -1 {
      AddWraps(s.table[parent].children, u);
    }
    SumAfterExit(s.table, slot, parent, u);
    StepBalanced(s, Exit(s, slot));
  }

  // ---------- Every operation keeps the table well formed ----------

  /** What can happen. */
  datatype Event =
    | ChargeTo(slot: nat, ring3: bool, idle: bool)
    | ForkInto(slot: nat, parent: int)
    | NewParent(slot: nat, ppid: nat)
    | ExitOf(slot: nat)

  /** Ticks go to a live process, new processes into free slots. */
  predicate Enabled(s: Sys, e: Event) {
    && e.slot < |s.table|
    && match e
       case ChargeTo(slot, _, _) => s.table[slot].used
       case ForkInto(slot, parent) => !s.table[slot].used && -1 <= parent < |s.table| && (parent != -1 ==>
         s.table[parent].used)
       case NewParent(slot, ppid) => s.table[slot].used && ppid != s.table[slot].pid
       case ExitOf(slot) => s.table[slot].used
  }

  function Do(s: Sys, e: Event): Sys
    requires Enabled(s, e) && 0 <= s.nextRecord < |s.records|
  {
    match e
    case ChargeTo(slot, ring3, idle) => Charge(s, slot, ring3, idle)
    case ForkInto(slot, parent) => Fork(s, slot, parent)
    case NewParent(slot, ppid) => Reparent(s, slot, ppid)
    case ExitOf(slot) => Exit(s, slot)
  }

  lemma DoOk(s: Sys, e: Event)
    requires SysOk(s) && Enabled(s, e)
    ensures SysOk(Do(s, e)) && |Do(s, e).table| == |s.table|
  {
    var t := Do(s, e).table;
    forall i | 0 <= i < |t| && t[i].used && !(e.ForkInto? && i == e.slot)
      ensures s.table[i].used && t[i].pid == s.table[i].pid
    {
    }
  }

  lemma DoBalanced(s: Sys, e: Event)
    requires SysOk(s) && Balanced(s) && Enabled(s, e)
    ensures Balanced(Do(s, e))
  {
    match e
    case ChargeTo(slot, ring3, idle) => ChargeBalanced(s, slot, ring3, idle);
    case ForkInto(slot, parent) => ForkBalanced(s, slot, parent);
    case NewParent(slot, ppid) => ReparentBalanced(s, slot, ppid);
    case ExitOf(slot) => ExitBalanced(s, slot);
  }

  /** A run: every event is possible when it happens. */
  ghost predicate Follows(s: Sys, e: Event, s': Sys) {
    SysOk(s) ==> Enabled(s, e) && s' == Do(s, e)
  }

  ghost predicate IsRun(states: seq<Sys>, events: seq<Event>) {
    && |states| == |events| + 1 && SysOk(states[0])
    && forall k :: 0 <= k < |events| ==> Follows(states[k], events[k], states[k + 1])
  }

  lemma {:induction false} NoSums(t: seq<Process>)
    requires forall i :: 0 <= i < |t| ==> !t[i].used
    ensures SumUser(t) == 0 && SumKernel(t) == 0
  {
    if t != [] {
      NoSums(t[1..]);
    }
  }

  /** At boot nothing is accounted, and nobody holds anything. */
  lemma BootBalanced(s: Sys)
    requires |s.records| == RECORDS && s.nextRecord == 0 && s.nextPid == 1
    requires (forall i :: 0 <= i < |s.table| ==> !s.table[i].used) && s.totals == Totals(0, 0, 0, 0) && s.lost == (0, 0)
    ensures SysOk(s) && Balanced(s)
  {
    NoSums(s.table);
  }

  /** CONSERVATION: over every run of ticks, forks, re-parentings and exits, the ticks
      accounted since boot are exactly those held by the live processes or left
      without a live parent. */
  lemma {:induction false} Conservation(states: seq<Sys>, events: seq<Event>, k: nat)
    requires IsRun(states, events) && Balanced(states[0]) && k < |states|
    ensures SysOk(states[k]) && Balanced(states[k])
  {
    if k > 0 {
      Conservation(states, events, k - 1);
      assert Follows(states[k - 1], events[k - 1], states[k - 1 + 1]);
      DoOk(states[k - 1], events[k - 1]);
      DoBalanced(states[k - 1], events[k - 1]);
    }
  }

  // ---------- Which tick counts as what ----------

  datatype Kind = UserTick | NiceTick | SystemTick | IdleTick

  function TotalOf(t: Totals, kind: Kind): Word {
    match kind
    case UserTick => t.user
    case NiceTick => t.nice
    case SystemTick => t.system
    case IdleTick => t.idle
  }

  /** The idle task's ticks are idle; others in ring 0 are system ticks, and in ring 3 user
      ticks, or nice ones if the process has a nice value above 0. */
  predicate IsTick(s: Sys, e: Event, kind: Kind) {
    && e.ChargeTo? && e.slot < |s.table|
    && match kind
       case IdleTick => e.idle
       case SystemTick => !e.idle && !e.ring3
       case UserTick => !e.idle && e.ring3 && s.table[e.slot].nice <= 0
       case NiceTick => !e.idle && e.ring3 && s.table[e.slot].nice > 0
  }

  function TicksOf(states: seq<Sys>, events: seq<Event>, kind: Kind, k: nat): nat
    requires k <= |events| && |states| == |events| + 1
  {
    if k == 0 then 0
    else TicksOf(states, events, kind, k - 1) + if IsTick(states[k - 1], events[k - 1], kind) then 1 else 0
  }

  lemma OneTick(s: Sys, e: Event, kind: Kind)
    requires SysOk(s) && Enabled(s, e)
    ensures TotalOf(Do(s, e).totals, kind) ==
      if IsTick(s, e, kind) then Inc(TotalOf(s.totals, kind)) else TotalOf(s.totals, kind)
  {
  }

  /** Over every run each total since boot grows by the ticks of its kind, in 32 bits. */
  lemma {:induction false} TotalsCount(states: seq<Sys>, events: seq<Event>, kind: Kind, k: nat)
    requires IsRun(states, events) && k < |states|
    ensures SysOk(states[k])
    ensures Same(TotalOf(states[k].totals, kind), TotalOf(states[0].totals, kind) + TicksOf(states, events, kind, k))
  {
    if k > 0 {
      TotalsCount(states, events, kind, k - 1);
      assert Follows(states[k - 1], events[k - 1], states[k - 1 + 1]);
      DoOk(states[k - 1], events[k - 1]);
      OneTick(states[k - 1], events[k - 1], kind);
    }
  }

  /** A tick goes to the process that has the CPU: in ring 3 to its user ticks, except for
      the idle task; to no other process. */
  lemma TickGoesTo(s: Sys, slot: nat, ring3: bool, idle: bool, i: nat)
    requires slot < |s.table| && i < |s.table|
    ensures
      var p, q := s.table[i], Charge(s, slot, ring3, idle).table[i];
      && (i != slot ==> q == p)
      && (i == slot && ring3 && !idle ==> q == p.(own := Ticks(Inc(p.own.user), p.own.kernel)))
      && (i == slot && (!ring3 || idle) ==> q == p.(own := Ticks(p.own.user, Inc(p.own.kernel))))
  {
  }

  /** A new process has used nothing, and has a number nobody had before; the others are
      untouched. */
  lemma ForkIsNew(s: Sys, s': Sys, slot: nat, parent: int, i: nat)
    requires SysOk(s) && slot < |s.table| && -1 <= parent < |s.table| && i < |s.table| && i != slot
    requires s' == Fork(s, slot, parent)
    ensures s'.table[slot].used && s'.table[slot].own == s'.table[slot].children == Ticks(0, 0)
    ensures s'.table[i] == s.table[i] && (s.table[i].used ==> s.table[i].pid < s'.table[slot].pid)
  {
  }

  /** It has its parent's nice value, or 0 if the parent wants that or there is none. */
  lemma ForkInherits(s: Sys, s': Sys, slot: nat, parent: int)
    requires slot < |s.table| && -1 <= parent < |s.table| && s' == Fork(s, slot, parent)
    ensures !s'.table[slot].resetOnFork
    ensures parent == -1 ==> s'.table[slot].ppid == 0 && s'.table[slot].nice == 0
    ensures parent >= 0 ==>
      var p, q := s.table[parent], s'.table[slot];
      q.ppid == p.pid && (p.resetOnFork ==> q.nice == 0) && (!p.resetOnFork ==> q.nice == p.nice)
  {
  }

  // ---------- Records ----------

  /** What an exit does to the record in place i: the oldest one becomes that of the ended
      process; if its parent ended before, the parent's first record gets its ticks too. */
  lemma ExitRecords(s: Sys, slot: nat, i: nat)
    requires SysOk(s) && slot < |s.table| && s.table[slot].used && i < RECORDS
    ensures
      var p, s', n := s.table[slot], Exit(s, slot), s.nextRecord;
      && |s'.records| == RECORDS && s'.nextRecord == (n + 1) % RECORDS
      && (i == n ==> s'.records[i] == Usage(p.pid, Used(p)))
      && (i != n ==> s'.records[i].pid == s.records[i].pid)
      && (i != n && s'.records[i] != s.records[i] ==>
           && s.records[i].pid == p.ppid != 0 && Find(s.table, p.ppid) == -1
           && s'.records[i].ticks == Add(s.records[i].ticks, Used(p)))
  {
    var p, n := s.table[slot], s.nextRecord;
    var r := s.records[n := Usage(p.pid, Used(p))];
    AddToRecordSlot(r, p.ppid, Used(p), i);
  }

  /** When the parent has ended before, the first record of it gets the ticks. */
  lemma OrphanAddsToRecord(s: Sys, slot: nat, i: nat)
    requires SysOk(s) && slot < |s.table| && s.table[slot].used && i < RECORDS && i != s.nextRecord
    requires s.table[slot].ppid != 0 && s.records[i].pid == s.table[slot].ppid
    requires Find(s.table, s.table[slot].ppid) == -1
    requires forall k :: 0 <= k < i && k != s.nextRecord ==> s.records[k].pid != s.table[slot].ppid
    ensures Exit(s, slot).records[i] ==
      Usage(s.table[slot].ppid, Add(s.records[i].ticks, Add(s.table[slot].own, s.table[slot].children)))
  {
    var p := s.table[slot];
    AddToRecordAt(s.records[s.nextRecord := Usage(p.pid, Used(p))], p.ppid, Used(p), i);
  }

  lemma {:induction false} AddToRecordSlot(r: seq<Usage>, pid: nat, u: Ticks, i: nat)
    requires i < |r|
    ensures AddToRecord(r, pid, u)[i] == r[i] ||
      (r[i].pid == pid && AddToRecord(r, pid, u)[i] == r[i].(ticks := Add(r[i].ticks, u)))
  {
    if i > 0 {
      AddToRecordSlot(r[1..], pid, u, i - 1);
    }
  }

  function Exits(events: seq<Event>, k: nat, m: nat): nat
    requires k <= m <= |events|
    decreases m
  {
    if k == m then 0 else Exits(events, k, m - 1) + if events[m - 1].ExitOf? then 1 else 0
  }

  lemma StepRecords(s: Sys, e: Event, s': Sys, i: nat)
    requires SysOk(s) && Enabled(s, e) && s' == Do(s, e) && i < RECORDS
    ensures |s'.records| == RECORDS
    ensures s'.nextRecord == if e.ExitOf? then (s.nextRecord + 1) % RECORDS else s.nextRecord
    ensures s'.records[i].pid == if e.ExitOf? && i == s.nextRecord then s.table[e.slot].pid else s.records[i].pid
  {
    if e.ExitOf? {
      ExitRecords(s, e.slot, i);
    }
  }

  lemma NextPlace(i: nat, n: nat)
    requires i < RECORDS && n <= RECORDS
    ensures ((i + n) % RECORDS + 1) % RECORDS == (i + n + 1) % RECORDS
    ensures (i + n) % RECORDS == i <==> n == 0 || n == RECORDS
  {
  }

  /** Place i holds a record of `pid`, n exits after it was written. */
  ghost predicate Holds(s: Sys, i: nat, pid: nat, n: nat) {
    SysOk(s) && i < RECORDS && s.nextRecord == (i + n) % RECORDS && s.records[i].pid == pid
  }

  lemma HoldsOn(s: Sys, e: Event, s': Sys, i: nat, pid: nat, n: nat)
    requires Holds(s, i, pid, n) && Enabled(s, e) && s' == Do(s, e) && 1 <= n && (e.ExitOf? ==> n < RECORDS)
    ensures n <= RECORDS ==> Holds(s', i, pid, n + if e.ExitOf? then 1 else 0)
  {
    DoOk(s, e);
    StepRecords(s, e, s', i);
    if n <= RECORDS {
      NextPlace(i, n);
    }
  }

  lemma HoldsAtFirst(s: Sys, slot: nat)
    requires SysOk(s) && Enabled(s, ExitOf(slot))
    ensures Holds(Exit(s, slot), s.nextRecord, s.table[slot].pid, 1)
  {
    DoOk(s, ExitOf(slot));
    StepRecords(s, ExitOf(slot), Exit(s, slot), s.nextRecord);
  }

  /** The record of an ended process stays in its place until sixteen others have ended
      after it. */
  lemma {:induction false} RecordStays(states: seq<Sys>, events: seq<Event>, k: nat, m: nat)
    requires IsRun(states, events) && k < m <= |events| && events[k].ExitOf? && Exits(events, k, m) <= RECORDS
    ensures SysOk(states[k]) && Enabled(states[k], events[k])
    ensures Holds(states[m], states[k].nextRecord, states[k].table[events[k].slot].pid, Exits(events, k, m))
    ensures 1 <= Exits(events, k, m)
    decreases m
  {
    RunOk(states, events, k);
    RunOk(states, events, m - 1);
    if m == k + 1 {
      HoldsAtFirst(states[k], events[k].slot);
      assert Exits(events, k, k) == 0;
    } else {
      RecordStays(states, events, k, m - 1);
      var i, pid := states[k].nextRecord, states[k].table[events[k].slot].pid;
      HoldsOn(states[m - 1], events[m - 1], states[m], i, pid, Exits(events, k, m - 1));
    }
  }

  lemma {:induction false} RunOk(states: seq<Sys>, events: seq<Event>, k: nat)
    requires IsRun(states, events) && k < |states|
    ensures SysOk(states[k])
    ensures k < |events| ==> Enabled(states[k], events[k]) && states[k + 1] == Do(states[k], events[k])
  {
    if k > 0 {
      RunOk(states, events, k - 1);
      DoOk(states[k - 1], events[k - 1]);
      assert states[k - 1 + 1] == states[k];
    }
    if k < |events| {
      assert Follows(states[k], events[k], states[k + 1]);
    }
  }

  // ---------- In place ----------

  lemma {:induction false} FindIsFirst(t: seq<Process>, pid: nat, i: nat)
    requires i < |t| && t[i].used && t[i].pid == pid && forall k :: 0 <= k < i ==> !(t[k].used && t[k].pid == pid)
    ensures Find(t, pid) == i
    decreases |t|
  {
    if i < |t| - 1 {
      FindIsFirst(t[..|t| - 1], pid, i);
    }
  }

  lemma {:induction false} AddToRecordAt(r: seq<Usage>, pid: nat, u: Ticks, i: nat)
    requires i <= |r| && (forall k :: 0 <= k < i ==> r[k].pid != pid) && (i < |r| ==> r[i].pid == pid)
    ensures AddToRecord(r, pid, u) == if i < |r| then r[i := r[i].(ticks := Add(r[i].ticks, u))] else r
  {
    if i > 0 {
      AddToRecordAt(r[1..], pid, u, i - 1);
    }
  }

  class Accounting {
    const table: array<Process>
    const records: array<Usage>
    var nextRecord: int
    var totals: Totals
    var nextPid: nat
    ghost var lost: (int, int)

    ghost function View(): Sys
      reads this, table, records
    {
      Sys(table[..], records[..], nextRecord, totals, nextPid, lost)
    }

    method ChargeTick(slot: nat, ring3: bool, idle: bool)
      requires slot < table.Length
      modifies table, this`totals
      ensures View() == Charge(old(View()), slot, ring3, idle)
    {
      var p := table[slot];
      if idle {
        table[slot] := p.(own := p.own.(kernel := Inc(p.own.kernel)));
        totals := totals.(idle := Inc(totals.idle));
      } else if ring3 {
        table[slot] := p.(own := p.own.(user := Inc(p.own.user)));
        if p.nice > 0 {
          totals := totals.(nice := Inc(totals.nice));
        } else {
          totals := totals.(user := Inc(totals.user));
        }
      } else {
        table[slot] := p.(own := p.own.(kernel := Inc(p.own.kernel)));
        totals := totals.(system := Inc(totals.system));
      }
    }

    method ForkProcess(slot: nat, parent: int)
      requires slot < table.Length && -1 <= parent < table.Length
      modifies table, this`nextPid
      ensures View() == Fork(old(View()), slot, parent)
    {
      var ppid, nice := 0, 0;
      if parent != -1 {
        ppid := table[parent].pid;
        if !table[parent].resetOnFork {
          nice := table[parent].nice;
        }
      }
      table[slot] := Process(true, nextPid, ppid, nice, false, NONE, NONE);
      nextPid := nextPid + 1;
    }

    /** The slot of a process, or -1. */
    method FindPid(pid: nat) returns (i: int)
      ensures i == Find(table[..], pid)
    {
      i := 0;
      while i < table.Length
        invariant 0 <= i <= table.Length
        invariant forall k :: 0 <= k < i ==> !(table[k].used && table[k].pid == pid)
      {
        if table[i].used && table[i].pid == pid {
          FindIsFirst(table[..], pid, i);
          return;
        }
        i := i + 1;
      }
      i := -1;
    }

    /** Hand the ticks of an ended process on: to a living parent, or to the record of a
        parent that ended before it. */
    method GiveToParent(ppid: nat, u: Ticks)
      requires table as object != records as object
      modifies table, records, this`lost
      ensures View() == Passed(old(View()), ppid, u)
    {
      var parent := -1;
      if ppid != 0 {
        parent := FindPid(ppid);
      }
      if parent != -1 {
        table[parent] := table[parent].(children := Add(table[parent].children, u));
        return;
      }
      lost := (lost.0 + u.user, lost.1 + u.kernel);
      AddToParentRecord(ppid, u);
    }

    method AddToParentRecord(ppid: nat, u: Ticks)
      modifies records
      ensures records[..] == if ppid == 0 then old(records[..]) else AddToRecord(old(records[..]), ppid, u)
    {
      ghost var before := records[..];
      var i := 0;
      while i < records.Length
        invariant 0 <= i <= records.Length && records[..] == before
        invariant ppid != 0 ==> forall k :: 0 <= k < i ==> records[k].pid != ppid
      {
        if ppid != 0 && records[i].pid == ppid {
          AddToRecordAt(before, ppid, u, i);
          records[i] := records[i].(ticks := Add(records[i].ticks, u));
          return;
        }
        i := i + 1;
      }
      if ppid != 0 {
        AddToRecordAt(before, ppid, u, i);
      }
    }

    method RecordUsage(slot: nat)
      requires slot < table.Length && records.Length == RECORDS && 0 <= nextRecord < RECORDS &&
        table as object != records as object
      modifies records, this`nextRecord
      ensures View() == Recorded(old(View()), slot)
    {
      var p := table[slot];
      records[nextRecord] := Usage(p.pid, Add(p.own, p.children));
      nextRecord := (nextRecord + 1) % RECORDS;
    }

    /** The reaper frees a slot. */
    method ExitProcess(slot: nat)
      requires slot < table.Length && records.Length == RECORDS && 0 <= nextRecord < RECORDS &&
        table as object != records as object
      modifies table, records, this`nextRecord, this`lost
      ensures View() == Exit(old(View()), slot)
    {
      var p := table[slot];
      RecordUsage(slot);
      GiveToParent(p.ppid, Add(p.own, p.children));
      table[slot] := table[slot].(used := false);
    }

    /** The record of a finished process. */
    method UsageOf(pid: nat) returns (found: bool, u: Usage)
      ensures found <==> pid != 0 && exists i :: 0 <= i < records.Length && records[i].pid == pid
      ensures found ==> u.pid == pid && u in records[..]
    {
      u := Usage(0, NONE);
      for i := 0 to records.Length
        invariant pid != 0 ==> forall k :: 0 <= k < i ==> records[k].pid != pid
      {
        if records[i].pid == pid && pid != 0 {
          return true, records[i];
        }
      }
      return false, u;
    }
  }
}
