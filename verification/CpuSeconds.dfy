/**
 * Accounting by the second: what each kind of work and each process got of the
 * last full second, and the last sixty of them in a ring (core/accounting).
 */
module CpuSeconds {
  import opened Arith
  import opened Words

  const HISTORY_SECONDS := 60
  const PIT_INPUT_HZ := 1193180

  datatype Kind = User | Nice | Kernel | Idle

  datatype Counts = Counts(user: Word, nice: Word, kernel: Word, idle: Word)

  datatype Load = Load(busy: Word, user: Word, nice: Word, kernel: Word, idle: Word)

  /** One second of history. */
  datatype Second = Second(uptime: Word, load: Load, interrupts: Word, switches: Word, runnable: Word)

  function Sum(c: Counts): int {
    c.user + c.nice + c.kernel + c.idle
  }

  /** One more tick of a kind. */
  function Counted(c: Counts, kind: Kind): (d: Counts)
    requires Sum(c) < PIT_INPUT_HZ
    ensures Sum(d) == Sum(c) + 1
  {
    match kind
    case User => c.(user := c.user + 1)
    case Nice => c.(nice := c.nice + 1)
    case Kernel => c.(kernel := c.kernel + 1)
    case Idle => c.(idle := c.idle + 1)
  }

  function Percent(part: nat, whole: nat): nat {
    if whole != 0 then Div(part * 100, whole) else 0
  }

  lemma PercentAtMost(part: nat, whole: nat)
    requires part <= whole
    ensures Percent(part, whole) <= 100
    ensures Percent(part, whole) * whole <= part * 100
    ensures whole != 0 ==> part * 100 < (Percent(part, whole) + 1) * whole
  {
    if whole != 0 {
      var q := Percent(part, whole);
      DivIs(part * 100, whole);
      DistributeOne(q, whole);
      MulMonotone(whole, 101, if q > 100 then q else 101);
    }
  }

  /** The shares of a second. */
  function LoadOf(c: Counts, length: nat): (l: Load)
    requires Sum(c) == length && length < 2 * PIT_INPUT_HZ
  {
    PercentAtMost(c.user, length);
    PercentAtMost(c.nice, length);
    PercentAtMost(c.kernel, length);
    PercentAtMost(c.idle, length);
    var user, nice, kernel := Percent(c.user, length), Percent(c.nice, length), Percent(c.kernel, length);
    Load(user + nice + kernel, user, nice, kernel, Percent(c.idle, length))
  }

  /** How many ticks of a kind there are. */
  function CountOf(kinds: seq<Kind>, kind: Kind): (n: nat)
    ensures n <= |kinds|
  {
    if kinds == [] then 0
    else CountOf(kinds[..|kinds| - 1], kind) + if kinds[|kinds| - 1] == kind then 1 else 0
  }

  /** The counts after one tick after the other. */
  function Tally(kinds: seq<Kind>): (c: Counts)
    requires |kinds| <= PIT_INPUT_HZ
    ensures Sum(c) == |kinds|
  {
    if kinds == [] then Counts(0, 0, 0, 0) else Counted(Tally(kinds[..|kinds| - 1]), kinds[|kinds| - 1])
  }

  function Of(c: Counts, kind: Kind): nat {
    match kind
    case User => c.user
    case Nice => c.nice
    case Kernel => c.kernel
    case Idle => c.idle
  }

  lemma OneMore(c: Counts, kind: Kind, k: Kind)
    requires Sum(c) < PIT_INPUT_HZ
    ensures Of(Counted(c, kind), k) == Of(c, k) + if kind == k then 1 else 0
  {
  }

  /** Each count is the number of ticks of its kind. */
  lemma {:induction false} TallyCounts(kinds: seq<Kind>, kind: Kind)
    requires |kinds| <= PIT_INPUT_HZ
    ensures Of(Tally(kinds), kind) == CountOf(kinds, kind)
  {
    if kinds != [] {
      var init, last := kinds[..|kinds| - 1], kinds[|kinds| - 1];
      TallyCounts(init, kind);
      OneMore(Tally(init), last, kind);
    }
  }

  /** n of `length` ticks are `share` percent, rounded down. */
  predicate IsShare(share: nat, n: nat, length: nat) {
    share * length <= 100 * n < (share + 1) * length
  }

  /** The load of a second: each share is that of the ticks of its kind, rounded down, and
      busy is user, nice and kernel together. */
  lemma LoadShares(kinds: seq<Kind>)
    requires 0 < |kinds| <= PIT_INPUT_HZ
    ensures
      var l, n := LoadOf(Tally(kinds), |kinds|), |kinds|;
      && IsShare(l.user, CountOf(kinds, User), n) && IsShare(l.nice, CountOf(kinds, Nice), n)
      && IsShare(l.kernel, CountOf(kinds, Kernel), n) && IsShare(l.idle, CountOf(kinds, Idle), n)
      && l.busy == l.user + l.nice + l.kernel
  {
    TallyCounts(kinds, User);
    TallyCounts(kinds, Nice);
    TallyCounts(kinds, Kernel);
    TallyCounts(kinds, Idle);
    PercentAtMost(CountOf(kinds, User), |kinds|);
    PercentAtMost(CountOf(kinds, Nice), |kinds|);
    PercentAtMost(CountOf(kinds, Kernel), |kinds|);
    PercentAtMost(CountOf(kinds, Idle), |kinds|);
  }

  /** And so for each process. */
  lemma ProcessShare(ticks: seq<nat>, length: nat, i: nat)
    requires i < |ticks| && ticks[i] <= length && 0 < length
    ensures IsShare(Percents(ticks, length)[i], ticks[i], length)
  {
    PercentAtMost(ticks[i], length);
  }

  /** Busy and idle together make 97 to 100 percent: only the roundings are missing. */
  lemma SharesAddUp(c: Counts, length: nat)
    requires Sum(c) == length && 0 < length < 2 * PIT_INPUT_HZ
    ensures 97 <= LoadOf(c, length).busy + LoadOf(c, length).idle <= 100
  {
    PercentAtMost(c.user, length);
    PercentAtMost(c.nice, length);
    PercentAtMost(c.kernel, length);
    PercentAtMost(c.idle, length);
    var total := LoadOf(c, length).busy + LoadOf(c, length).idle;
    FourParts(Percent(c.user, length), Percent(c.nice, length), Percent(c.kernel, length), Percent(c.idle, length),
      length);
    Bracket(total, length);
  }

  lemma FourParts(a: nat, b: nat, c: nat, d: nat, w: nat)
    ensures (a + b + c + d) * w == a * w + b * w + c * w + d * w
    ensures (a + 1) * w + (b + 1) * w + (c + 1) * w + (d + 1) * w == (a + b + c + d + 4) * w
  {
  }

  lemma Bracket(total: nat, w: nat)
    requires 0 < w && total * w <= 100 * w < (total + 4) * w
    ensures 97 <= total <= 100
  {
    MulMonotone(w, 101, if total > 100 then total else 101);
    MulMonotone(w, if total < 97 then total + 4 else 100, 100);
  }

  // ---------- Shares of the processes ----------

  function SumOf(s: seq<nat>): nat {
    if s == [] then 0 else s[0] + SumOf(s[1..])
  }

  function Percents(ticks: seq<nat>, length: nat): (p: seq<nat>)
    ensures |p| == |ticks| && forall i :: 0 <= i < |p| ==> p[i] == Percent(ticks[i], length)
  {
    seq(|ticks|, i requires 0 <= i < |ticks| => Percent(ticks[i], length))
  }

  lemma {:induction false} PercentsScaled(ticks: seq<nat>, length: nat)
    requires 0 < length && forall i :: 0 <= i < |ticks| ==> ticks[i] <= length
    ensures SumOf(Percents(ticks, length)) * length <= SumOf(ticks) * 100
  {
    if ticks != [] {
      PercentsScaled(ticks[1..], length);
      PercentAtMost(ticks[0], length);
      var p := Percents(ticks, length);
      assert p[1..] == Percents(ticks[1..], length);
      SplitProduct(p[0], SumOf(p[1..]), length);
    }
  }

  lemma SplitProduct(a: nat, b: nat, w: nat)
    ensures (a + b) * w == a * w + b * w
  {
  }

  lemma {:induction false} PartAtMostSum(s: seq<nat>, i: nat)
    requires i < |s|
    ensures s[i] <= SumOf(s)
  {
    if i > 0 {
      PartAtMostSum(s[1..], i - 1);
    }
  }

  /** The shares of all processes add up to at most 100 percent. */
  lemma ProcessShares(ticks: seq<nat>, length: nat)
    requires SumOf(ticks) <= length
    ensures SumOf(Percents(ticks, length)) <= 100
  {
    if length == 0 {
      NothingShared(ticks);
    } else {
      forall i | 0 <= i < |ticks| ensures ticks[i] <= length {
        PartAtMostSum(ticks, i);
      }
      PercentsScaled(ticks, length);
      var total := SumOf(Percents(ticks, length));
      MulMonotone(length, 101, if total > 100 then total else 101);
    }
  }

  lemma {:induction false} NothingShared(ticks: seq<nat>)
    ensures SumOf(Percents(ticks, 0)) == 0
  {
    if ticks != [] {
      NothingShared(ticks[1..]);
      assert Percents(ticks, 0)[1..] == Percents(ticks[1..], 0);
    }
  }

  lemma {:induction false} SumWith(s: seq<nat>, i: nat, v: nat)
    requires i < |s|
    ensures SumOf(s[i := v]) == SumOf(s) - s[i] + v
  {
    if i == 0 {
      assert s[0 := v][1..] == s[1..];
    } else {
      SumWith(s[1..], i - 1, v);
      assert s[i := v][1..] == s[1..][i - 1 := v];
    }
  }

  // ---------- The history ring ----------

  /** The ring holds the newest seconds of the log, each at its number modulo 60. */
  ghost predicate RingOk(ring: seq<Second>, next: int, used: int, log: seq<Second>) {
    && |ring| == HISTORY_SECONDS && next == |log| % HISTORY_SECONDS && used == Min(|log|, HISTORY_SECONDS)
    && forall j {:trigger SlotOf(j)} :: |log| - used <= j < |log| ==> ring[SlotOf(j)] == log[j]
  }

  /** Where the ring keeps second number j. */
  function SlotOf(j: int): (i: nat)
    ensures i < HISTORY_SECONDS
  {
    j % HISTORY_SECONDS
  }

  /** In every closed second busy and idle make 97 to 100 percent. */
  ghost predicate LogOk(log: seq<Second>) {
    forall k :: 0 <= k < |log| ==> 97 <= log[k].load.busy + log[k].load.idle <= 100
  }

  lemma RingPush(ring: seq<Second>, next: int, used: int, log: seq<Second>, s: Second)
    requires RingOk(ring, next, used, log)
    ensures RingOk(ring[next := s], (next + 1) % HISTORY_SECONDS, Min(used + 1, HISTORY_SECONDS), log + [s])
  {
    var log', ring', used' := log + [s], ring[next := s], Min(used + 1, HISTORY_SECONDS);
    forall j {:trigger SlotOf(j)} | |log'| - used' <= j < |log'| ensures ring'[SlotOf(j)] == log'[j] {
      if j < |log| {
        OtherSlot(j, |log|);
      }
    }
  }

  lemma OtherSlot(j: nat, n: nat)
    requires n - HISTORY_SECONDS < j < n
    ensures SlotOf(j) != SlotOf(n)
  {
  }

  /** Slot (next - 1 - index) holds the index-th newest second. */
  lemma RingAt(ring: seq<Second>, next: int, used: int, log: seq<Second>, index: nat)
    requires RingOk(ring, next, used, log) && index < used
    ensures ring[(next - 1 - index + HISTORY_SECONDS) % HISTORY_SECONDS] == log[|log| - 1 - index]
  {
    StepsBack(|log|, index);
    assert ring[SlotOf(|log| - 1 - index)] == log[|log| - 1 - index];
  }

  lemma StepsBack(n: nat, index: nat)
    requires index < Min(n, HISTORY_SECONDS)
    ensures (n % HISTORY_SECONDS - 1 - index + HISTORY_SECONDS) % HISTORY_SECONDS == (n - 1 - index) % HISTORY_SECONDS
  {
    var q, r := n / HISTORY_SECONDS, n % HISTORY_SECONDS - 1 - index;
    if r >= 0 {
      DivModUnique(n - 1 - index, HISTORY_SECONDS, q, r);
      DivModUnique(r + HISTORY_SECONDS, HISTORY_SECONDS, 1, r);
    } else {
      DivModUnique(n - 1 - index, HISTORY_SECONDS, q - 1, r + HISTORY_SECONDS);
      DivModUnique(r + HISTORY_SECONDS, HISTORY_SECONDS, 0, r + HISTORY_SECONDS);
    }
  }

  // ---------- In place ----------

  class Account {
    const hz: Word
    const windowTicks: array<nat>       // per process, in the current second
    const cpuPercent: array<nat>        // per process, in the last full second
    const history: array<Second>
    var length: Word
    var counts: Counts
    var load: Load
    var switches: Word
    var irqsAtStart: Word
    var historyNext: int
    var historyUsed: int
    ghost var log: seq<Second>          // every second ever closed

    ghost predicate Valid()
      reads this, windowTicks, cpuPercent, history
    {
      && 0 < hz <= PIT_INPUT_HZ && windowTicks.Length == cpuPercent.Length && windowTicks != cpuPercent
      && Sum(counts) == length && length < hz
      && SumOf(windowTicks[..]) <= length && SumOf(cpuPercent[..]) <= 100
      && RingOk(history[..], historyNext, historyUsed, log)
      && LogOk(log)
    }

    /** A second is over: counts become percentages, and everything starts again. */
    method CloseWindow(uptime: Word, irqs: Word, runnable: Word)
      requires 0 < hz <= PIT_INPUT_HZ && windowTicks.Length == cpuPercent.Length && windowTicks != cpuPercent
      requires Sum(counts) == length && 0 < length < 2 * PIT_INPUT_HZ && SumOf(windowTicks[..]) <= length
      requires RingOk(history[..], historyNext, historyUsed, log)
      requires LogOk(log)
      modifies this, windowTicks, cpuPercent, history
      ensures Valid()
      ensures load == LoadOf(old(counts), old(length))
      ensures log == old(log) + [Second(uptime, load, Wrap(irqs - old(irqsAtStart)), old(switches), runnable)]
      ensures cpuPercent[..] == Percents(old(windowTicks[..]), old(length))
      ensures length == 0 && switches == 0 && irqsAtStart == irqs
      ensures forall i :: 0 <= i < windowTicks.Length ==> windowTicks[i] == 0
    {
      SharesAddUp(counts, length);
      load := LoadOf(counts, length);
      ShareOut();
      PushSecond(Second(uptime, load, Wrap(irqs - irqsAtStart), switches, runnable));
      length, counts := 0, Counts(0, 0, 0, 0);
      switches := 0;
      irqsAtStart := irqs;
    }

    method ShareOut()
      requires windowTicks.Length == cpuPercent.Length && windowTicks != cpuPercent && SumOf(windowTicks[..]) <= length
      modifies windowTicks, cpuPercent
      ensures cpuPercent[..] == Percents(old(windowTicks[..]), length) && SumOf(cpuPercent[..]) <= 100
      ensures SumOf(windowTicks[..]) == 0 && forall i :: 0 <= i < windowTicks.Length ==> windowTicks[i] == 0
    {
      ghost var before := windowTicks[..];
      for i := 0 to windowTicks.Length
        invariant forall k :: 0 <= k < i ==> cpuPercent[k] == Percent(before[k], length) && windowTicks[k] == 0
        invariant forall k :: i <= k < windowTicks.Length ==> windowTicks[k] == before[k]
      {
        cpuPercent[i] := Percent(windowTicks[i], length);
        windowTicks[i] := 0;
      }
      assert cpuPercent[..] == Percents(before, length);
      ProcessShares(before, length);
      ZeroSum(windowTicks[..]);
    }

    method PushSecond(s: Second)
      requires RingOk(history[..], historyNext, historyUsed, log)
      modifies history, this`historyNext, this`historyUsed, this`log
      ensures RingOk(history[..], historyNext, historyUsed, log) && log == old(log) + [s]
    {
      RingPush(history[..], historyNext, historyUsed, log, s);
      history[historyNext] := s;
      historyNext := (historyNext + 1) % HISTORY_SECONDS;
      if historyUsed < HISTORY_SECONDS {
        historyUsed := historyUsed + 1;
      }
      log := log + [s];
    }

    method CountTick(slot: nat, kind: Kind)
      requires Sum(counts) == length < PIT_INPUT_HZ && slot < windowTicks.Length && SumOf(windowTicks[..]) <= length
      modifies windowTicks, this`counts, this`length
      ensures counts == Counted(old(counts), kind) && length == old(length) + 1 && Sum(counts) == length
      ensures windowTicks[..] == old(windowTicks[..])[slot := old(windowTicks[slot]) + 1] &&
        SumOf(windowTicks[..]) <= length
    {
      SumWith(windowTicks[..], slot, windowTicks[slot] + 1);
      windowTicks[slot] := windowTicks[slot] + 1;
      assert windowTicks[..] == old(windowTicks[..])[slot := old(windowTicks[slot]) + 1];
      counts := Counted(counts, kind);
      length := length + 1;
    }

    /** Charge a tick to a process and a kind of work; the tick that fills the second
        closes it. */
    method Tick(slot: nat, kind: Kind, uptime: Word, irqs: Word, runnable: Word)
      requires Valid() && slot < windowTicks.Length
      modifies this, windowTicks, cpuPercent, history
      ensures Valid()
      ensures var c, n := Counted(old(counts), kind), old(length) + 1;
        var ticks := old(windowTicks[..])[slot := old(windowTicks[slot]) + 1];
        if n < hz then
          log == old(log) && counts == c && length == n && windowTicks[..] == ticks &&
            cpuPercent[..] == old(cpuPercent[..])
        else
          Sum(c) == n && |log| == |old(log)| + 1 && old(log) <= log && log[|log| - 1].load == LoadOf(c, n) &&
          length == 0 && cpuPercent[..] == Percents(ticks, n)
    {
      CountTick(slot, kind);
      if length >= hz {
        CloseWindow(uptime, irqs, runnable);
      }
    }

    /** The slot gets a new owner in the middle of a second. */
    method ResetSlot(slot: nat)
      requires Valid() && slot < windowTicks.Length
      modifies windowTicks, cpuPercent
      ensures Valid()
      ensures windowTicks[..] == old(windowTicks[..])[slot := 0] && cpuPercent[..] == old(cpuPercent[..])[slot := 0]
    {
      SumWith(windowTicks[..], slot, 0);
      SumWith(cpuPercent[..], slot, 0);
      ghost var a, b := windowTicks[..], cpuPercent[..];
      windowTicks[slot] := 0;
      cpuPercent[slot] := 0;
      assert windowTicks[..] == a[slot := 0] && cpuPercent[..] == b[slot := 0];
    }

    /** The index-th newest full second; none past the sixtieth, or before boot. */
    method History(index: int) returns (found: bool, s: Second)
      requires Valid()
      ensures found <==> 0 <= index < Min(|log|, HISTORY_SECONDS)
      ensures found ==> s == log[|log| - 1 - index]
    {
      if index < 0 || index >= historyUsed {
        return false, Second(0, load, 0, 0, 0);
      }
      RingAt(history[..], historyNext, historyUsed, log, index);
      var slot := (historyNext - 1 - index + HISTORY_SECONDS) % HISTORY_SECONDS;
      return true, history[slot];
    }
  }

  lemma {:induction false} ZeroSum(s: seq<nat>)
    requires forall i :: 0 <= i < |s| ==> s[i] == 0
    ensures SumOf(s) == 0
  {
    if s != [] {
      ZeroSum(s[1..]);
    }
  }
}
