/**
 * The scheduling rules in terms of the processes themselves: their policy, priority,
 * level and waiting time, and the numbers of the rules, instead of ranks and slices.
 */
module PriorityRules {
  import opened Words
  import opened Priority
  import opened PriorityRuns

  // ---------- Rule 1: who comes before whom ----------

  /** A real-time process, while real-time is not throttled. */
  predicate Urgent(p: Process, throttled: bool) {
    !throttled && (p.policy == SchedFifo || p.policy == SchedRR)
  }

  /** Neither urgent, nor of SCHED_IDLE, nor the idle task. */
  predicate Ordinary(p: Process, throttled: bool) {
    !Urgent(p, throttled) && p.policy != SchedIdle && p.level >= 1
  }

  /** One level for every ten ticks waited, up to 7. */
  function Lifted(p: Process): int {
    if p.level + p.waited / 10 < 7 then p.level + p.waited / 10 else 7
  }

  /** Urgent processes by their priority, then the ordinary ones by level, then
      SCHED_IDLE, then the idle task. */
  predicate Before(p: Process, q: Process, throttled: bool, aging: bool) {
    if Urgent(p, throttled) then !Urgent(q, throttled) || p.rtPriority > q.rtPriority
    else if Ordinary(p, throttled) then
      !Urgent(q, throttled) &&
      (!Ordinary(q, throttled) || if aging then Lifted(p) > Lifted(q) else p.level > q.level)
    else p.policy == SchedIdle && !Urgent(q, throttled) && !Ordinary(q, throttled) && q.policy != SchedIdle
  }

  /** Ranks compare as processes do. */
  lemma RanksCompare(p: Process, q: Process, throttled: bool, aging: bool)
    ensures Rank(p, throttled, aging) > Rank(q, throttled, aging) <==> Before(p, q, throttled, aging)
  {
  }

  lemma ChoiceBeats(t: seq<Process>, throttled: bool, start: nat, j: nat)
    requires start < |t| && j < |t| && Runnable(t[j])
    ensures var c := Choice(t, throttled, start);
      && 0 <= c < |t| && Runnable(t[c]) && !Before(t[j], t[c], throttled, true)
      && (Before(t[c], t[j], throttled, true) || Dist(|t|, start, c) <= Dist(|t|, start, j))
  {
    var c := Choice(t, throttled, start);
    assert Dist(|t|, start, j) <= |t|;
    assert Beats(t, throttled, start, c, j);
    RanksCompare(t[c], t[j], throttled, true);
    RanksCompare(t[j], t[c], throttled, true);
  }

  /** While real-time is not throttled, a runnable real-time process of the highest
      priority is chosen, the nearest of several. */
  lemma RealtimeFirst(t: seq<Process>, start: nat, r: nat)
    requires start < |t| && r < |t| && Runnable(t[r]) && (t[r].policy == SchedFifo || t[r].policy == SchedRR)
    ensures var c := Choice(t, false, start);
      && 0 <= c < |t| && Runnable(t[c]) && (t[c].policy == SchedFifo || t[c].policy == SchedRR)
      && forall j :: 0 <= j < |t| && Runnable(t[j]) && (t[j].policy == SchedFifo || t[j].policy == SchedRR) ==>
        t[j].rtPriority < t[c].rtPriority ||
        (t[j].rtPriority == t[c].rtPriority && Dist(|t|, start, c) <= Dist(|t|, start, j))
  {
    ChoiceBeats(t, false, start, r);
    forall j: nat | j < |t| && Runnable(t[j]) ensures !Before(t[j], t[Choice(t, false, start)], false, true) {
      ChoiceBeats(t, false, start, j);
    }
  }

  ghost predicate NoneUrgent(t: seq<Process>, throttled: bool) {
    forall j :: 0 <= j < |t| && Runnable(t[j]) ==> !Urgent(t[j], throttled)
  }

  /** Otherwise a runnable process, neither of SCHED_IDLE nor the idle task, of the
      highest level counting one for every ten ticks waited, the nearest of several. */
  lemma HighestLevelNext(t: seq<Process>, throttled: bool, start: nat, r: nat)
    requires start < |t| && NoneUrgent(t, throttled)
    requires r < |t| && Runnable(t[r]) && t[r].policy != SchedIdle && t[r].level >= 1
    ensures var c := Choice(t, throttled, start);
      && 0 <= c < |t| && Runnable(t[c]) && t[c].policy != SchedIdle && t[c].level >= 1
      && forall j :: 0 <= j < |t| && Runnable(t[j]) && t[j].policy != SchedIdle && t[j].level >= 1 ==>
        Lifted(t[j]) < Lifted(t[c]) ||
        (Lifted(t[j]) == Lifted(t[c]) && Dist(|t|, start, c) <= Dist(|t|, start, j))
  {
    ChoiceBeats(t, throttled, start, r);
    forall j: nat | j < |t| && Runnable(t[j]) ensures !Before(t[j], t[Choice(t, throttled, start)], throttled, true) {
      ChoiceBeats(t, throttled, start, j);
    }
  }

  /** SCHED_IDLE gets the CPU only when there is neither, and the idle task only when
      there is nothing else; of several the nearest. */
  lemma IdleLast(t: seq<Process>, throttled: bool, start: nat, j: nat)
    requires start < |t| && j < |t| && Runnable(t[j])
    ensures var c := Choice(t, throttled, start);
      && 0 <= c < |t| && Runnable(t[c])
      && (t[c].policy == SchedIdle ==> !Urgent(t[j], throttled) && (t[j].policy == SchedIdle || t[j].level == 0))
      && (!Urgent(t[c], throttled) && t[c].policy != SchedIdle && t[c].level == 0 ==>
           !Urgent(t[j], throttled) && t[j].policy != SchedIdle && t[j].level == 0)
      && (t[c].policy == t[j].policy == SchedIdle ==> Dist(|t|, start, c) <= Dist(|t|, start, j))
  {
    ChoiceBeats(t, throttled, start, j);
  }

  /** The scan meets the slots in ascending order, cyclically, and the start last: the
      distance is how far it has to go. */
  lemma DistIs(n: nat, from: nat, to: nat, d: nat)
    requires from < n && to < n && 1 <= d <= n
    ensures d == Dist(n, from, to) <==> (from + d) % n == to
  {
    ModWraps(from + d, n);
    ModWraps(from + Dist(n, from, to), n);
  }

  /** Where the levels begin: nice values up to 19, 13, 7, 1, -4, -10 and -16. */
  lemma NiceCutoffs(nice: int, level: nat)
    requires 1 <= level <= 7 && nice <= 19
    ensures LevelOfNice(nice) >= level <==> nice <= [19, 19, 13, 7, 1, -4, -10, -16][level]
  {
    assert level in {1, 2, 3, 4, 5, 6, 7};
  }

  // ---------- Rule 3: turns ----------

  /** Whoever is handed the CPU has waited no tick, and a turn of 10 ticks for SCHED_RR,
      without end for SCHED_FIFO, and of the length of the power profile for all others,
      real-time ones too while these are throttled. */
  lemma TurnBegins(s: Sys, hz: Hz)
    requires SysOk(s, hz) && 0 <= s.current && Choice(s.table, s.throttle.on, s.current) != -1
    ensures var s', on := Yield(s), s.throttle.on;
      var p := s'.table[s'.current];
      && p.waited == 0
      && (p.policy == SchedRR && !on ==> p.sliceLeft == 10)
      && (p.policy == SchedFifo && !on ==> p.sliceLeft == 0)
      && (!Urgent(p, on) ==> p.sliceLeft == s.powerSlice && s.powerSlice in {5, 10})
  {
  }

  /** Rules 3 and 4: a tick ends the turn if and only if throttling began, the process
      stopped running, its turn is used up (never for SCHED_FIFO), or the one chosen
      comes before it and is not of SCHED_BATCH. */
  lemma TurnEndsExactlyWhen(s: Sys, hz: Hz)
    requires SysOk(s, hz) && 0 <= s.current
    ensures
      var (s1, over) := TickOnly(s, hz);
      var p, on := s.table[s.current], s1.throttle.on;
      var c := Choice(s.table, on, s.current);
      && (over <==>
        || (on && !s.throttle.on)
        || p.state != Running
        || (!(p.policy == SchedFifo && !on) && p.sliceLeft <= 1)
        || (c != -1 && s.table[c].policy != SchedBatch && Before(s.table[c], p, on, true)))
  {
    GivesUpExactlyWhen(s, hz);
    var (s1, over) := TickOnly(s, hz);
    var p, on := s.table[s.current], s1.throttle.on;
    var c := Choice(s.table, on, s.current);
    if c != -1 {
      RanksCompare(s.table[c], p, on, true);
      assert Pushes(s.table, on, s.current, c, Rank(p, on, true)) <==>
        s.table[c].policy != SchedBatch && Before(s.table[c], p, on, true);
    }
    if j :| Pushes(s.table, on, s.current, j, Rank(p, on, true)) {
      BestUnique(s.table, on, s.current, j, c);
    }
  }

  /** A tick that does not end the turn uses up one tick of it, except for SCHED_FIFO. */
  lemma TurnGoesOn(s: Sys, hz: Hz)
    requires SysOk(s, hz) && 0 <= s.current && !TickOnly(s, hz).1
    ensures
      var s1 := TickOnly(s, hz).0;
      var p := s.table[s.current];
      s1.table[s.current] == p.(sliceLeft :=
        if p.policy == SchedFifo && !s1.throttle.on then p.sliceLeft else p.sliceLeft - 1)
  {
  }

  /** A tick makes all those wait that are READY, do not have the CPU and are not about
      to get it, and nobody else; both counters of waiting go together. */
  lemma WhoWaits(s: Sys, hz: Hz, j: nat)
    requires SysOk(s, hz) && 0 <= s.current && j < |s.table| && j != s.current
    ensures
      var (s1, over) := TickOnly(s, hz);
      var p, q := s.table[j], s1.table[j];
      var waits := p.state == Ready && !(over && j == Choice(s.table, s1.throttle.on, s.current));
      && q.waited == (if waits then Inc(p.waited) else p.waited)
      && q.readyTicks == (if waits then Inc(p.readyTicks) else p.readyTicks)
      && q == p.(waited := q.waited, readyTicks := q.readyTicks)
  {
    var (s1, over) := TurnOver(s, hz);
    if over {
      var c := Choice(s1.table, s1.throttle.on, s.current);
      SameBest(s.table, s1.table, s1.throttle.on, s.current, c);
      BestUnique(s.table, s1.throttle.on, s.current, c, Choice(s.table, s1.throttle.on, s.current));
    }
  }

  // ---------- Real-time throttling ----------

  /** This tick is charged: the CPU is with a real-time process that may have it. */
  predicate RunsRealtime(s: Sys)
    requires -1 <= s.current < |s.table|
  {
    && s.current != -1 && s.table[s.current].state == Running
    && (s.table[s.current].policy == SchedFifo || s.table[s.current].policy == SchedRR) && !s.throttle.on
  }

  ghost predicate NextTick(s: Sys, s': Sys, hz: Hz) {
    CurrentOk(s) && s'.throttle == TickOnly(s, hz).0.throttle
  }

  /** Ticks of one second, with whatever happens to the processes in between. */
  ghost predicate InOneSecond(states: seq<Sys>, hz: Hz) {
    && states != [] && Rested(states[0].throttle) && |states| <= hz + 1
    && (forall k :: 0 <= k < |states| ==> CurrentOk(states[k]))
    && forall k :: 0 <= k < |states| - 1 ==> NextTick(states[k], states[k + 1], hz)
  }

  /** How many of these ticks were charged. */
  ghost function RealtimeTicks(states: seq<Sys>): nat
    requires forall k :: 0 <= k < |states| ==> CurrentOk(states[k])
  {
    if |states| <= 1 then 0
    else
      var before := states[..|states| - 1];
      RealtimeTicks(before) + if RunsRealtime(before[|before| - 1]) then 1 else 0
  }

  lemma OneTick(s: Sys, s': Sys, hz: Hz)
    requires NextTick(s, s', hz) && ThrottleOk(s.throttle, hz) && s.throttle.period + 1 < hz
    ensures var r, r' := s.throttle, s'.throttle;
      && r'.period == r.period + 1 && r'.used == r.used + (if RunsRealtime(s) then 1 else 0) && ThrottleOk(r', hz)
      && r'.count == if r'.on && !r.on then Inc(r.count) else r.count
    ensures s.throttle.on ==> s'.throttle.on
  {
  }

  lemma FirstTicks(states: seq<Sys>, hz: Hz, n: nat)
    requires InOneSecond(states, hz) && 1 <= n <= |states|
    ensures InOneSecond(states[..n], hz)
  {
    var before := states[..n];
    forall j | 0 <= j < |before| - 1 ensures NextTick(before[j], before[j + 1], hz) {
      assert NextTick(states[j], states[j + 1], hz);
    }
  }

  lemma {:induction false} ThrottleCounts(states: seq<Sys>, hz: Hz)
    requires InOneSecond(states, hz) && |states| <= hz
    ensures
      var r0, r := states[0].throttle, states[|states| - 1].throttle;
      && r.period == |states| - 1 && r.used == RealtimeTicks(states) && ThrottleOk(r, hz)
      && r.count == if r.on then Inc(r0.count) else r0.count
  {
    if |states| > 1 {
      var k := |states| - 2;
      FirstTicks(states, hz, k + 1);
      ThrottleCounts(states[..k + 1], hz);
      assert NextTick(states[k], states[k + 1], hz);
      OneTick(states[k], states[k + 1], hz);
    }
  }

  /** RULE 5: within a second real-time is throttled if and only if 95 of every hundred
      ticks of a second went to real-time processes, rounded down; more than these never
      do, and the counter of such seconds grows by one. */
  lemma ThrottledExactlyWhen(states: seq<Sys>, hz: Hz)
    requires InOneSecond(states, hz) && |states| <= hz
    ensures
      var r0, r := states[0].throttle, states[|states| - 1].throttle;
      && RealtimeTicks(states) <= hz * 95 / 100
      && (r.on <==> RealtimeTicks(states) == hz * 95 / 100)
      && r.count == if r.on then Inc(r0.count) else r0.count
  {
    ThrottleCounts(states, hz);
  }

  /** And when the second is over everything starts afresh. */
  lemma SecondEnds(states: seq<Sys>, hz: Hz)
    requires InOneSecond(states, hz) && |states| == hz + 1
    ensures Rested(states[hz].throttle)
  {
    FirstTicks(states, hz, hz);
    ThrottleCounts(states[..hz], hz);
    assert NextTick(states[hz - 1], states[hz - 1 + 1], hz);
  }
}
