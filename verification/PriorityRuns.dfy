/**
 * What the scheduling policy guarantees over whole runs: exactly when the CPU
 * changes hands, that real-time work is held to its share of every second, and that
 * equal processes take turns.
 */
module PriorityRuns {
  import opened Arith
  import opened Words
  import opened Priority

  // ---------- Every step keeps the scheduler well formed ----------

  lemma ThrottleTickOk(r: Throttle, hz: Hz, realtime: bool)
    requires ThrottleOk(r, hz)
    ensures ThrottleOk(ThrottleTick(r, hz, realtime), hz)
  {
  }

  lemma TurnOverOk(s: Sys, hz: Hz)
    requires SysOk(s, hz)
    ensures SysOk(TurnOver(s, hz).0, hz)
  {
  }

  lemma YieldOk(s: Sys, hz: Hz)
    requires SysOk(s, hz) && 0 <= s.current
    ensures SysOk(Yield(s), hz)
  {
  }

  lemma StepsKeepOk(s: Sys, hz: Hz)
    requires SysOk(s, hz)
    ensures SysOk(TickOnly(s, hz).0, hz)
    ensures 0 <= s.current ==> SysOk(Yield(s), hz) && SysOk(Tick(s, hz), hz)
  {
    TurnOverOk(s, hz);
    var s1 := TickOnly(s, hz).0;
    if 0 <= s.current {
      YieldOk(s, hz);
      YieldOk(s1, hz);
    }
  }

  // ---------- When the CPU changes hands ----------

  ghost predicate OnlyCurrentRuns(s: Sys) {
    forall j :: 0 <= j < |s.table| && s.table[j].state == Running ==> j == s.current
  }

  /** At most one process is RUNNING, the current one; whoever is handed the CPU is. */
  lemma OneRunning(s: Sys, hz: Hz)
    requires SysOk(s, hz) && 0 <= s.current && OnlyCurrentRuns(s)
    ensures OnlyCurrentRuns(TickOnly(s, hz).0) && OnlyCurrentRuns(Yield(s)) && OnlyCurrentRuns(Tick(s, hz))
    ensures Yield(s).current != s.current ==> Yield(s).table[Yield(s).current].state == Running
  {
    TicksRunNobody(s, hz);
    HandsToOne(s);
    HandsToOne(TickOnly(s, hz).0);
  }

  lemma TicksRunNobody(s: Sys, hz: Hz)
    requires CurrentOk(s)
    ensures var s1 := TickOnly(s, hz).0;
      forall j :: 0 <= j < |s.table| ==> s1.table[j].state == s.table[j].state
  {
  }

  lemma HandsToOne(s: Sys)
    requires 0 <= s.current < |s.table| && OnlyCurrentRuns(s)
    ensures OnlyCurrentRuns(Yield(s))
    ensures Yield(s).current != s.current ==> Yield(s).table[Yield(s).current].state == Running
  {
    assert Dist(|s.table|, s.current, s.current) <= |s.table|;
  }

  /** Slot j is first of the highest rank, and may push a process of that rank off the CPU. */
  ghost predicate Pushes(t: seq<Process>, throttled: bool, start: nat, j: int, rank: int)
    requires start < |t|
  {
    && j != -1 && IsBest(t, throttled, start, |t|, j)
    && t[j].policy != SchedBatch && Rank(t[j], throttled, true) > rank
  }

  /** The choice does not depend on how much of its slice the current process has left. */
  lemma SameBest(t: seq<Process>, t': seq<Process>, throttled: bool, start: nat, b: int)
    requires start < |t| && |t'| == |t| && (forall j :: 0 <= j < |t| ==> t'[j] == t[j].(sliceLeft := t'[j].sliceLeft))
    requires IsBest(t', throttled, start, |t|, b)
    ensures IsBest(t, throttled, start, |t|, b)
  {
    if b != -1 {
      forall j | 0 <= j < |t| && Dist(|t|, start, j) <= |t| && Runnable(t[j]) ensures Beats(t, throttled, start, b, j) {
        assert Beats(t', throttled, start, b, j);
      }
    }
  }

  /** Whoever may push is the one chosen after the slice was counted down. */
  lemma ChosenPushes(t: seq<Process>, t': seq<Process>, throttled: bool, start: nat, rank: int)
    requires start < |t| && |t'| == |t| && (forall j :: 0 <= j < |t| ==> t'[j] == t[j].(sliceLeft := t'[j].sliceLeft))
    ensures
      var b := Choice(t', throttled, start);
      (exists j :: Pushes(t, throttled, start, j, rank)) <==>
        b != -1 && t'[b].policy != SchedBatch && Rank(t'[b], throttled, true) > rank
  {
    var b := Choice(t', throttled, start);
    SameBest(t, t', throttled, start, b);
    if j :| Pushes(t, throttled, start, j, rank) {
      BestUnique(t, throttled, start, j, b);
    } else {
      assert !Pushes(t, throttled, start, b, rank);
    }
  }

  /** A tick takes the CPU away if and only if throttling began, the process stopped
      running, its slice is used up, or a better process that may push it is waiting. */
  lemma GivesUpExactlyWhen(s: Sys, hz: Hz)
    requires SysOk(s, hz) && 0 <= s.current
    ensures
      var (s1, over) := TickOnly(s, hz);
      var p, on := s.table[s.current], s1.throttle.on;
      over <==>
        || (on && !s.throttle.on)
        || p.state != Running
        || (SliceTicks(p, on, s.powerSlice) != 0 && p.sliceLeft <= 1)
        || exists j :: Pushes(s.table, on, s.current, j, Rank(p, on, true))
  {
    var (s1, over) := TurnOver(s, hz);
    var p, on := s.table[s.current], s1.throttle.on;
    ChosenPushes(s.table, s1.table, on, s.current, Rank(p, on, true));
  }

  /** Ticks on which slot keeps the CPU, whatever happens in between but to its slice. */
  ghost predicate OneTurn(run: seq<Sys>, hz: Hz, slot: nat) {
    && (forall k :: 0 <= k < |run| ==> SysOk(run[k], hz) && run[k].current == slot)
    && (forall k :: 0 <= k < |run| ==>
      var (s1, over) := TickOnly(run[k], hz);
      !over && SliceTicks(run[k].table[slot], s1.throttle.on, run[k].powerSlice) != 0)
    && (forall k :: 0 <= k < |run| - 1 ==>
      run[k + 1].table[slot].sliceLeft == TickOnly(run[k], hz).0.table[slot].sliceLeft)
  }

  lemma SliceCountsDown(s: Sys, hz: Hz, slot: nat)
    requires SysOk(s, hz) && s.current == slot && !TickOnly(s, hz).1
    requires SliceTicks(s.table[slot], TickOnly(s, hz).0.throttle.on, s.powerSlice) != 0
    ensures 1 <= TickOnly(s, hz).0.table[slot].sliceLeft == s.table[slot].sliceLeft - 1
  {
  }

  lemma {:induction false} SliceLeft(run: seq<Sys>, hz: Hz, slot: nat, k: nat)
    requires OneTurn(run, hz, slot) && k < |run|
    ensures run[k].table[slot].sliceLeft == run[0].table[slot].sliceLeft - k
  {
    if k > 0 {
      SliceLeft(run, hz, slot, k - 1);
      SliceCountsDown(run[k - 1], hz, slot);
      assert run[k - 1 + 1].table[slot].sliceLeft == TickOnly(run[k - 1], hz).0.table[slot].sliceLeft;
    }
  }

  /** A turn that starts with a full slice is over, for one reason or another, on the
      last tick of the slice at the latest. */
  lemma TurnInTime(run: seq<Sys>, hz: Hz, slot: nat, before: Process)
    requires OneTurn(run, hz, slot) && run != []
    requires run[0].table[slot] == StartTurn(before, run[0].throttle.on, run[0].powerSlice)
    ensures |run| < SliceTicks(before, run[0].throttle.on, run[0].powerSlice)
  {
    var last := |run| - 1;
    SliceLeft(run, hz, slot, last);
    SliceCountsDown(run[last], hz, slot);
  }

  // ---------- Real-time throttling ----------

  /** A tick charged to a process that holds a real-time rank. */
  predicate Charged(r: Throttle, realtime: bool) {
    realtime && !r.on
  }

  /** The throttle after a run of ticks; input[k] says whether a real-time
      process was running at tick k. */
  function ThrottleRun(r: Throttle, hz: Hz, input: seq<bool>): Throttle
    decreases |input|
  {
    if input == [] then r
    else ThrottleTick(ThrottleRun(r, hz, input[..|input| - 1]), hz, input[|input| - 1])
  }

  function ChargedTicks(r: Throttle, hz: Hz, input: seq<bool>): nat
    decreases |input|
  {
    if input == [] then 0
    else
      var init := input[..|input| - 1];
      ChargedTicks(r, hz, init) + if Charged(ThrottleRun(r, hz, init), input[|input| - 1]) then 1 else 0
  }

  const FRESH := Throttle(0, 0, 0, false)

  /** A second begins. */
  predicate Rested(r: Throttle) {
    r.period == 0 && r.used == 0 && !r.on
  }

  /** After any number of ticks, whatever ran when: at most 95% of every whole second
      so far in all, and of the second that has begun. */
  lemma RealtimeShare(r: Throttle, hz: Hz, input: seq<bool>)
    requires Rested(r)
    ensures var n := |input|;
      ChargedTicks(r, hz, input) <= n / hz * (hz * 95 / 100) + Min(hz * 95 / 100, n % hz)
  {
    var seconds := CountSeconds(r, hz, input);
    DivModUnique(|input|, hz, seconds, ThrottleRun(r, hz, input).period);
  }

  lemma {:induction false} TicksAddUp(r: Throttle, hz: Hz, a: seq<bool>, b: seq<bool>)
    ensures ThrottleRun(r, hz, a + b) == ThrottleRun(ThrottleRun(r, hz, a), hz, b)
    ensures ChargedTicks(r, hz, a + b) == ChargedTicks(r, hz, a) + ChargedTicks(ThrottleRun(r, hz, a), hz, b)
    decreases |b|
  {
    if b == [] {
      assert a + b == a;
    } else {
      var init := b[..|b| - 1];
      assert (a + b)[..|a + b| - 1] == a + init;
      TicksAddUp(r, hz, a, init);
    }
  }

  /** Whole seconds leave the throttle rested. */
  lemma RestedAfter(hz: Hz, input: seq<bool>)
    requires |input| % hz == 0
    ensures Rested(ThrottleRun(FRESH, hz, input))
  {
    var seconds := CountSeconds(FRESH, hz, input);
    DivModUnique(|input|, hz, seconds, ThrottleRun(FRESH, hz, input).period);
  }

  lemma OneSecond(r: Throttle, hz: Hz, second: seq<bool>)
    requires Rested(r) && |second| == hz
    ensures ChargedTicks(r, hz, second) <= hz * 95 / 100
  {
    RealtimeShare(r, hz, second);
    DivModUnique(hz, hz, 1, 0);
  }

  /** In every single second at most 95% of the ticks go to real-time work. */
  lemma EverySecond(hz: Hz, input: seq<bool>, start: nat)
    requires start % hz == 0 && start + hz <= |input|
    ensures ChargedTicks(FRESH, hz, input[..start + hz]) - ChargedTicks(FRESH, hz, input[..start]) <= hz * 95 / 100
  {
    var before, second := input[..start], input[start..start + hz];
    assert input[..start + hz] == before + second;
    RestedAfter(hz, before);
    TicksAddUp(FRESH, hz, before, second);
    OneSecond(ThrottleRun(FRESH, hz, before), hz, second);
  }

  /** After `seconds` whole seconds and r.period ticks, `charged` ticks were real-time. */
  ghost predicate ShareOk(hz: Hz, n: nat, seconds: nat, r: Throttle, charged: nat) {
    ThrottleOk(r, hz) && n == hz * seconds + r.period && charged <= seconds * RtLimit(hz) + r.used
  }

  lemma {:induction false} CountSeconds(r: Throttle, hz: Hz, input: seq<bool>) returns (seconds: nat)
    requires Rested(r)
    ensures ShareOk(hz, |input|, seconds, ThrottleRun(r, hz, input), ChargedTicks(r, hz, input))
    decreases |input|
  {
    if input == [] {
      seconds := 0;
    } else {
      var init := input[..|input| - 1];
      var before := CountSeconds(r, hz, init);
      seconds := ShareStep(hz, |init|, before, ThrottleRun(r, hz, init), ChargedTicks(r, hz, init), input[|init|]);
    }
  }

  lemma ShareStep(hz: Hz, n: nat, before: nat, r: Throttle, charged: nat, realtime: bool) returns (seconds: nat)
    requires ShareOk(hz, n, before, r, charged)
    ensures ShareOk(hz, n + 1, seconds, ThrottleTick(r, hz, realtime), charged + if Charged(r, realtime) then 1 else 0)
  {
    ThrottleTickOk(r, hz, realtime);
    if r.period + 1 == hz {
      seconds := before + 1;
      DistributeOne(before, RtLimit(hz));
      DistributeOne(before, hz);
    } else {
      seconds := before;
    }
  }

  /** From the start of throttling to the end of the second nobody ranks above
      the best normal process. */
  lemma ThrottledRanks(r: Throttle, hz: Hz, realtime: bool, p: Process, aging: bool)
    requires ThrottleOk(r, hz) && r.on
    ensures Rank(p, r.on, aging) <= RANK_TOP
    ensures var r' := ThrottleTick(r, hz, realtime); r'.period == 0 || (r'.on && r'.period == r.period + 1)
  {
  }

  /** How many more ticks a running FIFO process can go without being told to stop. */
  function FifoLeft(r: Throttle, hz: Hz): int {
    if !r.on && r.period + (RtLimit(hz) - r.used) < hz then RtLimit(hz) - r.used
    else (hz - r.period) + RtLimit(hz)
  }

  /** A run of ticks, each with whatever happened in between, during which the
      same FIFO process keeps running and is never told to give up the CPU. */
  ghost predicate UndisturbedFifo(run: seq<Sys>, hz: Hz, slot: nat) {
    && (forall k :: 0 <= k < |run| ==> FifoRuns(run[k], hz, slot) && !TickOnly(run[k], hz).1)
    && (forall k :: 0 < k < |run| ==> run[k].throttle == TickOnly(run[k - 1], hz).0.throttle)
  }

  ghost predicate FifoRuns(s: Sys, hz: Hz, slot: nat) {
    SysOk(s, hz) && s.current == slot && s.table[slot].state == Running && s.table[slot].policy == SchedFifo
  }

  lemma {:induction false} FifoCountsDown(run: seq<Sys>, hz: Hz, slot: nat)
    requires run != [] && UndisturbedFifo(run, hz, slot)
    ensures |run| <= FifoLeft(run[0].throttle, hz) - 1
  {
    if |run| > 1 {
      var rest := run[1..];
      forall k | 0 <= k < |rest| ensures FifoRuns(rest[k], hz, slot) && !TickOnly(rest[k], hz).1 {
        assert rest[k] == run[k + 1];
      }
      forall k | 0 < k < |rest| ensures rest[k].throttle == TickOnly(rest[k - 1], hz).0.throttle {
        assert rest[k] == run[k + 1] && rest[k - 1] == run[k];
      }
      FifoCountsDown(rest, hz, slot);
      assert run[1].throttle == TickOnly(run[0], hz).0.throttle;
    }
    FifoStep(run[0], hz, slot);
  }

  lemma FifoStep(s: Sys, hz: Hz, slot: nat)
    requires FifoRuns(s, hz, slot) && !TickOnly(s, hz).1
    ensures var r := ThrottleTick(s.throttle, hz, true);
      TickOnly(s, hz).0.throttle == r && 1 < FifoLeft(r, hz) + 1 <= FifoLeft(s.throttle, hz)
  {
  }

  /** A running FIFO process is told to give up the CPU at least once in every
      second plus 95% of a second, whatever else happens. */
  lemma FifoToldInTime(run: seq<Sys>, hz: Hz, slot: nat)
    requires UndisturbedFifo(run, hz, slot)
    ensures |run| < hz + hz * 95 / 100
  {
    if run != [] {
      FifoCountsDown(run, hz, slot);
    }
  }

  // ---------- Round robin ----------

  /** The slots of maximal rank among the runnable ones. */
  ghost function Top(t: seq<Process>, throttled: bool): set<int> {
    set j | 0 <= j < |t| && Runnable(t[j]) &&
      forall i :: 0 <= i < |t| && Runnable(t[i]) ==> Rank(t[i], throttled, true) <= Rank(t[j], throttled, true)
  }

  /** k successive picks while the ranks stay as they are. */
  ghost function Picks(t: seq<Process>, throttled: bool, start: nat, k: nat): (p: seq<int>)
    requires start < |t| && (exists j :: 0 <= j < |t| && Runnable(t[j]))
    ensures |p| == k
    decreases k
  {
    if k == 0 then []
    else
      var next := Choice(t, throttled, start);
      assert next != -1 by {
        var j :| 0 <= j < |t| && Runnable(t[j]);
        assert Dist(|t|, start, j) <= |t|;
      }
      [next] + Picks(t, throttled, next, k - 1)
  }

  /** How far after `from`, counting `from` itself as 0. */
  function Ahead(n: nat, from: nat, to: nat): nat
    requires from < n && to < n
  {
    if to >= from then to - from else to - from + n
  }

  lemma ChoiceIsTop(t: seq<Process>, throttled: bool, start: nat)
    requires start < |t| && (exists j :: 0 <= j < |t| && Runnable(t[j]))
    ensures var c := Choice(t, throttled, start);
      c in Top(t, throttled) && forall j :: j in Top(t, throttled) ==> Dist(|t|, start, c) <= Dist(|t|, start, j)
  {
    var c := Choice(t, throttled, start);
    var r :| 0 <= r < |t| && Runnable(t[r]);
    assert Dist(|t|, start, r) <= |t|;
    forall j | 0 <= j < |t| && Runnable(t[j]) ensures Beats(t, throttled, start, c, j) {
      assert Dist(|t|, start, j) <= |t|;
    }
  }

  ghost predicate Within(p: seq<int>, s: set<int>) {
    forall i :: 0 <= i < |p| ==> p[i] in s
  }

  ghost predicate Distinct(p: seq<int>) {
    forall i, j :: 0 <= i < j < |p| ==> p[i] != p[j]
  }

  /** The top slots further from `home` than `at` is. */
  ghost function Further(t: seq<Process>, throttled: bool, home: nat, at: nat): set<int>
    requires home < |t| && at < |t|
  {
    set j | j in Top(t, throttled) && Ahead(|t|, home, at) < Ahead(|t|, home, j)
  }

  /** The next pick is the nearest of the further ones. */
  lemma NextPick(t: seq<Process>, throttled: bool, home: nat, at: nat)
    requires at < |t| && home in Top(t, throttled) && at in Top(t, throttled)
    requires Further(t, throttled, home, at) != {}
    ensures var next := Choice(t, throttled, at);
      next in Further(t, throttled, home, at) &&
      Further(t, throttled, home, next) == Further(t, throttled, home, at) - {next}
  {
    var next := Choice(t, throttled, at);
    ChoiceIsTop(t, throttled, at);
    var far := Further(t, throttled, home, at);
    var x :| x in far;
    assert Dist(|t|, at, next) <= Dist(|t|, at, x);
    NearestComesNext(|t|, home, at, next, x);
    forall y | y in far && y != next ensures Ahead(|t|, home, next) < Ahead(|t|, home, y) {
      NearestComesNext(|t|, home, at, next, y);
    }
  }

  lemma NearestComesNext(n: nat, home: nat, at: nat, next: nat, y: nat)
    requires home < n && at < n && next < n && y < n
    requires Ahead(n, home, at) < Ahead(n, home, y) && Dist(n, at, next) <= Dist(n, at, y)
    ensures Ahead(n, home, at) < Ahead(n, home, next) && (y == next || Ahead(n, home, next) < Ahead(n, home, y))
  {
  }

  /** Until everyone further on had a turn, every pick is a new one. */
  lemma {:induction false} PicksAdvance(t: seq<Process>, throttled: bool, home: nat, at: nat, k: nat)
    requires at < |t| && home in Top(t, throttled) && at in Top(t, throttled)
    requires k <= |Further(t, throttled, home, at)|
    ensures Within(Picks(t, throttled, at, k), Further(t, throttled, home, at))
    ensures Distinct(Picks(t, throttled, at, k))
    decreases k
  {
    if k > 0 {
      NextPick(t, throttled, home, at);
      var next := Choice(t, throttled, at);
      PicksAdvance(t, throttled, home, next, k - 1);
      ConsDistinct(next, Picks(t, throttled, next, k - 1), Further(t, throttled, home, next));
    }
  }

  lemma ConsDistinct(x: int, p: seq<int>, s: set<int>)
    requires x !in s && Within(p, s) && Distinct(p)
    ensures Within([x] + p, s + {x}) && Distinct([x] + p)
  {
  }

  /** Rule 2: while the ranks stay as they are, as many successive picks as there
      are top-ranked processes go to that many different processes, so each of
      them has exactly one turn. */
  lemma RoundRobin(t: seq<Process>, throttled: bool, start: nat)
    requires start < |t| && (exists j :: 0 <= j < |t| && Runnable(t[j]))
    ensures var p := Picks(t, throttled, start, |Top(t, throttled)|);
      Distinct(p) && (set i | 0 <= i < |p| :: p[i]) == Top(t, throttled)
  {
    var top := Top(t, throttled);
    var first := Choice(t, throttled, start);
    ChoiceIsTop(t, throttled, start);
    OthersPicked(t, throttled, first, top);
    CoversFrom(first, Picks(t, throttled, first, |top| - 1), top);
  }

  /** From a top slot on, the next picks are all the other top slots. */
  lemma OthersPicked(t: seq<Process>, throttled: bool, first: nat, top: set<int>)
    requires first < |t| && top == Top(t, throttled) && first in top
    ensures var q := Picks(t, throttled, first, |top| - 1); Within(q, top - {first}) && Distinct(q)
  {
    OthersFurther(t, throttled, first, top);
    PicksAdvance(t, throttled, first, first, |top| - 1);
  }

  lemma OthersFurther(t: seq<Process>, throttled: bool, first: nat, top: set<int>)
    requires first < |t| && top == Top(t, throttled) && first in top
    ensures Further(t, throttled, first, first) == top - {first}
  {
    var far := Further(t, throttled, first, first);
    forall j | j in top ensures j in far <==> j != first {
      assert Ahead(|t|, first, j) == 0 <==> j == first;
    }
  }

  lemma CoversFrom(first: int, q: seq<int>, top: set<int>)
    requires first in top && |q| == |top| - 1 && Within(q, top - {first}) && Distinct(q)
    ensures var p := [first] + q; Distinct(p) && (set i | 0 <= i < |p| :: p[i]) == top
  {
    ConsDistinct(first, q, top - {first});
    assert top - {first} + {first} == top;
    DistinctCoversAll([first] + q, top);
  }

  lemma {:induction false} DistinctCoversAll(p: seq<int>, s: set<int>)
    requires |p| == |s| && Within(p, s) && Distinct(p)
    ensures (set i | 0 <= i < |p| :: p[i]) == s
  {
    var image := set i | 0 <= i < |p| :: p[i];
    if p != [] {
      var last := |p| - 1;
      var init := p[..last];
      DistinctCoversAll(init, s - {p[last]});
      var inner := set i | 0 <= i < |init| :: init[i];
      forall x | x in s ensures x in image {
        if x == p[last] {
        } else {
          assert x in inner;
          var i :| 0 <= i < |init| && init[i] == x;
          assert p[i] == x;
        }
      }
    }
  }
}
