/**
 * The scheduling policy: who gets the CPU next, and for how long
 * (core/priority, with the slice lengths of core/policy, the rule of the
 * aging defence, and the two scheduler entry points that call them).
 *
 * The functions give the meaning of each operation on plain values; the class
 * performs the operations in place on the process table and is proved to do
 * exactly that.  What holds over whole runs is proved in PriorityRuns.
 */
module Priority {
  import opened Words

  const AGING_TICKS := 10
  const LEVEL_MAX := 7
  const RANK_REALTIME := 100
  const RANK_PER_LEVEL := 10
  const RANK_SCHED_IDLE := 5
  const RANK_TOP := 70
  const RR_SLICE_TICKS := 10
  const CPU_SLICE_TICKS := 5
  const RT_RUNTIME_PERCENT := 95

  const NICE_MIN := -20
  const NICE_MAX := 19

  datatype State = Free | Ready | Running | Sleeping | Zombie | Stopped

  datatype Policy = SchedOther | SchedFifo | SchedRR | SchedBatch | SchedIdle

  /** 0 is the idle task only; every other process has 1 to 7. */
  type Level = n: int | 0 <= n <= 7

  /** 1 to 99 for the real-time policies, 0 for the others. */
  type RtPriority = n: int | 0 <= n <= 99

  type Hz = n: int | 2 <= n <= 1193180 witness 100

  /** The fields of `process_t` the scheduling policy reads or writes. */
  datatype Process = Process(
    state: State,
    policy: Policy,
    level: Level,
    rtPriority: RtPriority,
    sliceLeft: Word,
    waited: Word,
    readyTicks: Word)

  /** The static counters of real-time throttling. */
  datatype Throttle = Throttle(period: Word, used: Word, count: Word, on: bool)

  // ---------- Nice values and levels ----------

  function LevelOfNice(nice: int): int {
    var n := if nice < NICE_MIN then NICE_MIN else if nice > NICE_MAX then NICE_MAX else nice;
    (NICE_MAX - n) * LEVEL_MAX / 40 + 1
  }

  function NiceOfLevel(level: int): int {
    var l := if level < 1 then 1 else if level > LEVEL_MAX then LEVEL_MAX else level;
    [19, 19, 13, 7, 0, -6, -13, -20][l]
  }

  /** Every nice value gives a level from 1 to 7, a lower nice value never a
      lower level, and the usual nice value of a level gives that level back. */
  lemma NiceLevels(a: int, b: int, level: int)
    ensures 1 <= LevelOfNice(a) <= LEVEL_MAX
    ensures a <= b ==> LevelOfNice(b) <= LevelOfNice(a)
    ensures 1 <= level <= LEVEL_MAX ==> LevelOfNice(NiceOfLevel(level)) == level
  {
    if 1 <= level <= LEVEL_MAX {
      assert level in {1, 2, 3, 4, 5, 6, 7};
    }
  }

  // ---------- Ranks ----------

  predicate Runnable(p: Process) {
    p.state == Ready || p.state == Running
  }

  predicate IsRealtime(policy: Policy) {
    policy == SchedFifo || policy == SchedRR
  }

  /** The effective level: one more for every AGING_TICKS waited, at most 7; the
      idle task is never raised. */
  function Aged(base: Level, waited: Word): Level {
    if base == 0 then base else Min(base + waited / AGING_TICKS, LEVEL_MAX)
  }

  function Rank(p: Process, throttled: bool, aging: bool): int {
    if IsRealtime(p.policy) && !throttled then RANK_REALTIME + p.rtPriority
    else if p.policy == SchedIdle then RANK_SCHED_IDLE
    else (if aging then Aged(p.level, p.waited) else p.level) * RANK_PER_LEVEL
  }

  /** How long one turn lasts; 0 means no limit. */
  function SliceTicks(p: Process, throttled: bool, powerSlice: Word): Word {
    if IsRealtime(p.policy) && !throttled then
      if p.policy == SchedFifo then 0 else RR_SLICE_TICKS
    else powerSlice
  }

  // ---------- The cyclic scan ----------

  /** The slot the scan from `start` visits in its i-th step. */
  function At(n: nat, start: nat, i: nat): (slot: nat)
    requires start < n && i <= n
    ensures slot < n
  {
    if start + i < n then start + i else start + i - n
  }

  /** In which step the scan from `from` visits `to`: 1 .. n, and n for `from` itself. */
  function Dist(n: nat, from: nat, to: nat): (d: nat)
    requires from < n && to < n
    ensures 1 <= d <= n && At(n, from, d) == to
  {
    if to > from then to - from else to - from + n
  }

  lemma ModWraps(a: nat, n: nat)
    requires 0 < n && a < 2 * n
    ensures a % n == if a < n then a else a - n
  {
    if a >= n {
      assert a % n == (a - n) % n;
    }
  }

  method ScanSlot(n: nat, start: nat, i: nat) returns (slot: nat)
    requires start < n && i <= n
    ensures slot == At(n, start, i)
  {
    ModWraps(start + i, n);
    slot := (start + i) % n;
  }

  /** `b` is the choice among the slots the scan has visited after k steps: the
      first runnable one of maximal rank, or -1 if none is runnable. */
  ghost predicate IsBest(t: seq<Process>, throttled: bool, start: nat, k: nat, b: int)
    requires start < |t| && k <= |t|
  {
    -1 <= b < |t| &&
    if b == -1 then forall j :: 0 <= j < |t| && Dist(|t|, start, j) <= k ==> !Runnable(t[j])
    else
      Dist(|t|, start, b) <= k && Runnable(t[b]) &&
      forall j :: 0 <= j < |t| && Dist(|t|, start, j) <= k && Runnable(t[j]) ==>
        Beats(t, throttled, start, b, j)
  }

  /** The scan from `start` prefers slot b to slot j. */
  ghost predicate Beats(t: seq<Process>, throttled: bool, start: nat, b: nat, j: nat)
    requires start < |t| && b < |t| && j < |t|
  {
    var rb, rj := Rank(t[b], throttled, true), Rank(t[j], throttled, true);
    rb > rj || (rb == rj && Dist(|t|, start, b) <= Dist(|t|, start, j))
  }

  /** Which slot runs after slot `start`: -1 only when nothing is runnable. */
  ghost function Choice(t: seq<Process>, throttled: bool, start: nat): (b: int)
    requires start < |t|
    ensures IsBest(t, throttled, start, |t|, b)
  {
    BestExists(t, throttled, start, |t|);
    var b :| IsBest(t, throttled, start, |t|, b);
    b
  }

  lemma {:induction false} BestExists(t: seq<Process>, throttled: bool, start: nat, k: nat)
    requires start < |t| && k <= |t|
    ensures exists b :: IsBest(t, throttled, start, k, b)
  {
    if k == 0 {
      assert IsBest(t, throttled, start, 0, -1);
    } else {
      BestExists(t, throttled, start, k - 1);
      var b :| IsBest(t, throttled, start, k - 1, b);
      BestStep(t, throttled, start, k, b);
    }
  }

  function Improve(t: seq<Process>, throttled: bool, b: int, j: nat): (c: int)
    requires -1 <= b < |t| && j < |t|
    ensures -1 <= c < |t|
  {
    if Runnable(t[j]) && (b == -1 || Rank(t[j], throttled, true) > Rank(t[b], throttled, true)) then j else b
  }

  lemma BestStep(t: seq<Process>, throttled: bool, start: nat, k: nat, b: int)
    requires start < |t| && 0 < k <= |t| && IsBest(t, throttled, start, k - 1, b)
    ensures IsBest(t, throttled, start, k, Improve(t, throttled, b, At(|t|, start, k)))
  {
    var j := At(|t|, start, k);
    assert Dist(|t|, start, j) == k;
    forall i | 0 <= i < |t| && Dist(|t|, start, i) <= k
      ensures i == j || Dist(|t|, start, i) <= k - 1
    {
    }
  }

  /** First of maximal rank in cyclic order is a complete description. */
  lemma BestUnique(t: seq<Process>, throttled: bool, start: nat, a: int, b: int)
    requires start < |t|
    requires IsBest(t, throttled, start, |t|, a) && IsBest(t, throttled, start, |t|, b)
    ensures a == b
  {
    if a != -1 && b != -1 {
      assert Beats(t, throttled, start, a, b) && Beats(t, throttled, start, b, a);
    }
  }

  /** Slot b's own rank, without aging, is below another runnable one's. */
  ghost predicate Rescued(t: seq<Process>, throttled: bool, b: int)
    requires -1 <= b < |t|
  {
    b != -1 && exists j :: 0 <= j < |t| && Runnable(t[j]) && Rank(t[b], throttled, false) < Rank(t[j], throttled, false)
  }

  /** `top` is the highest unaged rank among the first k slots visited, or -1. */
  ghost predicate IsTopBase(t: seq<Process>, throttled: bool, start: nat, k: nat, top: int)
    requires start < |t| && k <= |t|
  {
    && (top == -1 || exists j :: 0 <= j < |t| && Runnable(t[j]) && Rank(t[j], throttled, false) == top)
    && forall j :: 0 <= j < |t| && Dist(|t|, start, j) <= k && Runnable(t[j]) ==> Rank(t[j], throttled, false) <= top
  }

  lemma TopBaseStep(t: seq<Process>, throttled: bool, start: nat, k: nat, top: int)
    requires start < |t| && 0 < k <= |t| && IsTopBase(t, throttled, start, k - 1, top)
    ensures var j := At(|t|, start, k);
      IsTopBase(t, throttled, start, k,
        if Runnable(t[j]) && Rank(t[j], throttled, false) > top then Rank(t[j], throttled, false) else top)
  {
    var j := At(|t|, start, k);
    assert Dist(|t|, start, j) == k;
    assert forall i :: 0 <= i < |t| && Dist(|t|, start, i) <= k ==> i == j || Dist(|t|, start, i) <= k - 1;
  }

  lemma TopBaseRescues(t: seq<Process>, throttled: bool, start: nat, b: int, top: int)
    requires start < |t| && -1 <= b < |t| && IsTopBase(t, throttled, start, |t|, top)
    ensures Rescued(t, throttled, b) <==> b != -1 && Rank(t[b], throttled, false) < top
  {
    forall j | 0 <= j < |t| && Runnable(t[j])
      ensures Rank(t[j], throttled, false) <= top
    {
      assert Dist(|t|, start, j) <= |t|;
    }
  }

  // ---------- One timer tick ----------

  /** At most this many real-time ticks in one second. */
  function RtLimit(hz: Hz): (l: nat)
    ensures 1 <= l < hz
  {
    hz * RT_RUNTIME_PERCENT / 100
  }

  ghost predicate ThrottleOk(r: Throttle, hz: Hz) {
    r.period < hz && r.used <= r.period && r.used <= RtLimit(hz) && (r.on <==> r.used == RtLimit(hz))
  }

  /** `realtime`: the running process is a real-time one. */
  function ThrottleTick(r: Throttle, hz: Hz, realtime: bool): Throttle {
    var used := if realtime && !r.on then Inc(r.used) else r.used;
    var period := Inc(r.period);
    if period >= hz then Throttle(0, 0, r.count, false)
    else if !r.on && used >= RtLimit(hz) then Throttle(period, used, Inc(r.count), true)
    else Throttle(period, used, r.count, r.on)
  }

  /** `current` is a slot, or -1 for the NULL pointer before the scheduler starts. */
  datatype Sys = Sys(table: seq<Process>, current: int, throttle: Throttle, powerSlice: Word)

  ghost predicate CurrentOk(s: Sys) {
    -1 <= s.current < |s.table| && 0 < |s.table|
  }

  /** Where the scan starts: after `current`, or after slot 0 when there is none. */
  function Start(current: int): int {
    if current == -1 then 0 else current
  }

  predicate CurrentRuns(s: Sys)
    requires -1 <= s.current < |s.table|
  {
    s.current != -1 && s.table[s.current].state == Running
  }

  ghost predicate SysOk(s: Sys, hz: Hz) {
    && CurrentOk(s)
    && ThrottleOk(s.throttle, hz)
    && (s.powerSlice == CPU_SLICE_TICKS || s.powerSlice == 2 * CPU_SLICE_TICKS)
    && forall j :: 0 <= j < |s.table| ==> s.table[j].sliceLeft <= RR_SLICE_TICKS
  }

  /** Rule 3: count down the slice of the running process. */
  function CountDown(p: Process, throttled: bool, powerSlice: Word): Process {
    if p.state == Running && SliceTicks(p, throttled, powerSlice) != 0 && p.sliceLeft > 0
    then p.(sliceLeft := p.sliceLeft - 1) else p
  }

  /** The state after `turn_over`, and its answer. */
  ghost function TurnOver(s: Sys, hz: Hz): (r: (Sys, bool))
    requires CurrentOk(s)
    ensures |r.0.table| == |s.table| && r.0.current == s.current && r.0.powerSlice == s.powerSlice
  {
    var throttle := ThrottleTick(s.throttle, hz, CurrentRuns(s) && IsRealtime(s.table[s.current].policy));
    var s1 := s.(throttle := throttle);
    if throttle.on && !s.throttle.on then (s1, true)
    else if !CurrentRuns(s) then (s1, true)
    else
      var p := s.table[s.current];
      var q := CountDown(p, throttle.on, s.powerSlice);
      var s2 := s1.(table := s.table[s.current := q]);
      if SliceTicks(p, throttle.on, s.powerSlice) != 0 && q.sliceLeft == 0 then (s2, true)
      else
        var next := Choice(s2.table, throttle.on, s.current);
        (s2, next != -1 && s2.table[next].policy != SchedBatch &&
             Rank(s2.table[next], throttle.on, true) > Rank(q, throttle.on, true))
  }

  function Wait(p: Process): Process {
    p.(waited := Inc(p.waited), readyTicks := Inc(p.readyTicks))
  }

  /** One slot after the tick: a READY one that is neither `current` nor the
      predicted `next` waited a tick. */
  function AgeSlot(p: Process, j: int, current: int, next: int): Process {
    if j != current && j != next && p.state == Ready then Wait(p) else p
  }

  function AgeAll(t: seq<Process>, current: int, next: int): (u: seq<Process>)
    ensures |u| == |t|
    ensures forall j :: 0 <= j < |t| ==> u[j] == AgeSlot(t[j], j, current, next)
  {
    seq(|t|, j requires 0 <= j < |t| => AgeSlot(t[j], j, current, next))
  }

  /** Who the tick expects to run next. */
  ghost function Predicted(s: Sys, hz: Hz): (next: int)
    requires CurrentOk(s)
    ensures -1 <= next < |s.table|
  {
    var (s1, switch) := TurnOver(s, hz);
    if switch then Choice(s1.table, s1.throttle.on, Start(s1.current)) else s1.current
  }

  /** `priority_tick`. */
  ghost function TickOnly(s: Sys, hz: Hz): (r: (Sys, bool))
    requires CurrentOk(s)
    ensures |r.0.table| == |s.table| && r.0.current == s.current && r.0.powerSlice == s.powerSlice
  {
    var (s1, switch) := TurnOver(s, hz);
    (s1.(table := AgeAll(s1.table, s1.current, Predicted(s, hz))), switch)
  }

  function StartTurn(p: Process, throttled: bool, powerSlice: Word): Process {
    p.(sliceLeft := SliceTicks(p, throttled, powerSlice), waited := 0)
  }

  /** The table after the CPU went from slot `prev` to slot `next`. */
  function SwitchTable(t: seq<Process>, prev: nat, next: nat, throttled: bool, powerSlice: Word): (u: seq<Process>)
    requires prev < |t| && next < |t|
    ensures |u| == |t|
  {
    if next == prev then t[prev := StartTurn(t[prev], throttled, powerSlice)]
    else
      var t1 := if t[prev].state == Running then t[prev := t[prev].(state := Ready)] else t;
      t1[next := StartTurn(t1[next].(state := Running), throttled, powerSlice)]
  }

  /** `scheduler_yield`. */
  ghost function Yield(s: Sys): (r: Sys)
    requires 0 <= s.current < |s.table|
    ensures |r.table| == |s.table| && 0 <= r.current < |r.table| && r.throttle == s.throttle &&
      r.powerSlice == s.powerSlice
  {
    var next := Choice(s.table, s.throttle.on, s.current);
    if next == -1 then s
    else s.(table := SwitchTable(s.table, s.current, next, s.throttle.on, s.powerSlice), current := next)
  }

  /** The scheduling part of `scheduler_tick`. */
  ghost function Tick(s: Sys, hz: Hz): (r: Sys)
    requires 0 <= s.current < |s.table|
    ensures |r.table| == |s.table| && 0 <= r.current < |r.table| && r.powerSlice == s.powerSlice
  {
    var (s1, switch) := TickOnly(s, hz);
    if switch then Yield(s1) else s1
  }

  // ---------- The scheduler in place ----------

  class Scheduler {
    const table: array<Process>
    const hz: Hz
    var current: int
    var throttle: Throttle
    var powerSlice: Word

    ghost function View(): Sys
      reads this, table
    {
      Sys(table[..], current, throttle, powerSlice)
    }

    /** Rules 1 and 2: the first runnable slot of maximal rank in cyclic order
        after `current`, and whether it only won thanks to aging. */
    method Choose() returns (best: int, rescued: bool)
      requires CurrentOk(View())
      ensures best == Choice(table[..], throttle.on, Start(current))
      ensures rescued <==> Rescued(table[..], throttle.on, best)
    {
      var n := table.Length;
      var start, throttled := Start(current), throttle.on;
      ghost var t := table[..];
      best := -1;
      var bestRank, topBase := -1, -1;
      for i := 1 to n + 1
        invariant IsBest(t, throttled, start, i - 1, best)
        invariant bestRank == if best == -1 then -1 else Rank(t[best], throttled, true)
        invariant IsTopBase(t, throttled, start, i - 1, topBase)
      {
        var j := ScanSlot(n, start, i);
        BestStep(t, throttled, start, i, best);
        TopBaseStep(t, throttled, start, i, topBase);
        var p := table[j];
        if Runnable(p) {
          var rank := Rank(p, throttled, true);
          if rank > bestRank {
            best, bestRank := j, rank;
          }
          if Rank(p, throttled, false) > topBase {
            topBase := Rank(p, throttled, false);
          }
        }
      }
      BestUnique(t, throttled, start, best, Choice(t, throttled, start));
      TopBaseRescues(t, throttled, start, best, topBase);
      rescued := best != -1 && Rank(table[best], throttled, false) < topBase;
    }

    method RtThrottleTick() returns (started: bool)
      requires CurrentOk(View())
      modifies this`throttle
      ensures throttle == ThrottleTick(old(throttle), hz, CurrentRuns(View()) && IsRealtime(table[current].policy))
      ensures started <==> throttle.on && !old(throttle.on)
    {
      started := false;
      if current != -1 && table[current].state == Running && IsRealtime(table[current].policy) && !throttle.on {
        throttle := throttle.(used := Inc(throttle.used));
      }
      throttle := throttle.(period := Inc(throttle.period));
      if throttle.period >= hz {
        throttle := throttle.(period := 0, used := 0, on := false);
      } else if !throttle.on && throttle.used >= hz * RT_RUNTIME_PERCENT / 100 {
        throttle := throttle.(on := true, count := Inc(throttle.count));
        started := true;
      }
    }

    /** Rules 3 and 4: whether the turn of the current process ends with this tick. */
    method TurnIsOver() returns (over: bool)
      requires CurrentOk(View())
      modifies this`throttle, table
      ensures (View(), over) == TurnOver(old(View()), hz)
    {
      var started := RtThrottleTick();
      if started {
        return true;
      }
      if current == -1 || table[current].state != Running {
        return true;
      }
      if SliceTicks(table[current], throttle.on, powerSlice) != 0 {
        if table[current].sliceLeft > 0 {
          table[current] := table[current].(sliceLeft := table[current].sliceLeft - 1);
        }
        assert table[..] == old(table[..])[current := table[current]];
        if table[current].sliceLeft == 0 {
          return true;
        }
      }
      assert table[..] == old(table[..])[current := table[current]];
      var next, _ := Choose();
      over := next != -1 && table[next].policy != SchedBatch &&
              Rank(table[next], throttle.on, true) > Rank(table[current], throttle.on, true);
    }

    /** The timer tick: is the turn over, and who waited one tick longer? */
    method PriorityTick() returns (switchNow: bool)
      requires CurrentOk(View())
      modifies this`throttle, table
      ensures (View(), switchNow) == TickOnly(old(View()), hz)
    {
      switchNow := TurnIsOver();
      var next := current;
      if switchNow {
        var winner, _ := Choose();
        next := winner;
      }
      ghost var before := table[..];
      assert next == Predicted(old(View()), hz);
      for i := 0 to table.Length
        modifies table
        invariant forall j :: 0 <= j < i ==> table[j] == AgeSlot(before[j], j, current, next)
        invariant forall j :: i <= j < table.Length ==> table[j] == before[j]
      {
        if i != current && i != next && table[i].state == Ready {
          table[i] := Wait(table[i]);
        }
      }
      assert table[..] == AgeAll(before, current, next);
    }

    method BeginTurn(i: nat)
      requires i < table.Length
      modifies table
      ensures table[..] == old(table[..])[i := StartTurn(old(table[i]), throttle.on, powerSlice)]
    {
      table[i] := table[i].(sliceLeft := SliceTicks(table[i], throttle.on, powerSlice), waited := 0);
    }

    /** Give the CPU to whoever should have it now. */
    method YieldCpu()
      requires 0 <= current < table.Length
      modifies this`current, table
      ensures View() == Yield(old(View()))
    {
      var next, rescued := Choose();
      if next == current {
        BeginTurn(current);
      } else if next != -1 {
        var prev := current;
        if table[prev].state == Running {
          table[prev] := table[prev].(state := Ready);
        }
        table[next] := table[next].(state := Running);
        BeginTurn(next);
        current := next;
      }
      assert table[..] == Yield(old(View())).table;
    }

    method SchedulerTick()
      requires 0 <= current < table.Length
      modifies this`throttle, this`current, table
      ensures View() == Tick(old(View()), hz)
    {
      var switchNow := PriorityTick();
      if switchNow {
        YieldCpu();
      }
    }
  }
}
