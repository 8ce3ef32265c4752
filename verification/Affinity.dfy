/**
 * CPU lists: a mask printed as "0-3,7" and read back.  A mask is the set of the
 * CPUs whose bit is set; everything holds for any number of CPUs (32 in a word).
 */
module Affinity {
  import opened Words
  import opened Format
  import opened Numbers

  type Mask = set<nat>

  ghost predicate Fits(mask: Mask, cpus: nat) {
    forall c :: c in mask ==> c < cpus
  }

  function Range(first: nat, last: int): (m: Mask)
    ensures forall c: nat :: c in m <==> first <= c <= last
    decreases last - first
  {
    if last < first then {} else Range(first, last - 1) + {last}
  }

  // ---------- The language of CPU lists ----------

  /** "3" or "0-7"; the numbers as digits, leading zeros allowed. */
  datatype Item = One(first: string) | Span(first: string, last: string)

  function ItemText(it: Item): string {
    match it
    case One(first) => first
    case Span(first, last) => first + "-" + last
  }

  ghost predicate IsNumber(s: string) {
    s != "" && forall k :: 0 <= k < |s| ==> IsDigit(s[k])
  }

  function First(it: Item): nat {
    ValueOf(it.first, 10)
  }

  function Last(it: Item): nat {
    if it.One? then First(it) else ValueOf(it.last, 10)
  }

  ghost predicate ItemOk(it: Item, cpus: nat) {
    && IsNumber(it.first) && (it.Span? ==> IsNumber(it.last))
    && First(it) <= Last(it) < cpus
  }

  /** Items with commas between them; one comma may follow the last. */
  function ListText(items: seq<Item>, trailing: bool): string {
    if items == [] then ""
    else if |items| == 1 then ItemText(items[0]) + if trailing then "," else ""
    else ItemText(items[0]) + "," + ListText(items[1..], trailing)
  }

  ghost predicate ListOk(items: seq<Item>, cpus: nat) {
    forall k :: 0 <= k < |items| ==> ItemOk(items[k], cpus)
  }

  /** The union of the ranges. */
  function ListMask(items: seq<Item>): Mask {
    if items == [] then {} else Range(First(items[0]), Last(items[0])) + ListMask(items[1..])
  }

  // ---------- Reading ----------

  function DigitCount(s: string): (n: nat)
    ensures n <= |s| && (forall k :: 0 <= k < n ==> IsDigit(s[k])) && (n < |s| ==> !IsDigit(s[n]))
  {
    if s != "" && IsDigit(s[0]) then 1 + DigitCount(s[1..]) else 0
  }

  /** The number a text starts with; -1 if there is none. */
  function NumberAt(s: string): int {
    if DigitCount(s) == 0 then -1 else ValueOf(s[..DigitCount(s)], 10)
  }

  function AfterNumber(s: string): (r: string)
    ensures |r| <= |s|
  {
    s[DigitCount(s)..]
  }

  datatype Reading = Bad | Good(mask: Mask)

  /** One "first-last": where it ends, or Bad. */
  datatype Head = NoHead | Head(first: nat, last: nat, rest: string)

  function ReadHead(s: string, cpus: nat): (h: Head)
    ensures h.Head? ==> |h.rest| < |s| && h.first <= h.last < cpus
  {
    HeadAfter(NumberAt(s), AfterNumber(s), cpus)
  }

  /** With `first` read already, and `s` after it. */
  function HeadAfter(first: int, s: string, cpus: nat): (h: Head)
    ensures h.Head? ==> |h.rest| <= |s| && h.first == first <= h.last < cpus
  {
    if s != "" && s[0] == '-' then MakeHead(first, NumberAt(s[1..]), AfterNumber(s[1..]), cpus)
    else MakeHead(first, first, s, cpus)
  }

  function MakeHead(first: int, last: int, rest: string, cpus: nat): Head {
    if first < 0 || last < first || last > cpus - 1 then NoHead else Head(first, last, rest)
  }

  function Parse(s: string, cpus: nat): Reading
    decreases |s|
  {
    if s == "" then Good({})
    else
      var h := ReadHead(s, cpus);
      if h.NoHead? || (h.rest != "" && h.rest[0] != ',') then Bad
      else
        Continue(Range(h.first, h.last), if h.rest == "" then Good({}) else Parse(h.rest[1..], cpus))
  }

  /** What reading on adds to the mask collected so far. */
  function Continue(mask: Mask, r: Reading): Reading {
    if r.Bad? then Bad else Good(mask + r.mask)
  }

  /** What `affinity_parse_list` returns: no CPUs for anything malformed. */
  function ParsedMask(s: string, cpus: nat): Mask {
    match Parse(s, cpus)
    case Bad => {}
    case Good(mask) => mask
  }

  // ---------- Everything accepted is well formed ----------

  lemma NumberIs(s: string)
    requires DigitCount(s) > 0
    ensures IsNumber(s[..DigitCount(s)]) && s == s[..DigitCount(s)] + AfterNumber(s)
  {
  }

  lemma HeadIsItem(s: string, cpus: nat) returns (it: Item)
    requires ReadHead(s, cpus).Head?
    ensures var h := ReadHead(s, cpus);
      ItemOk(it, cpus) && First(it) == h.first && Last(it) == h.last && s == ItemText(it) + h.rest
  {
    NumberIs(s);
    var a, s1 := s[..DigitCount(s)], AfterNumber(s);
    if s1 != "" && s1[0] == '-' {
      var b := SpanIsItem(a, s1, cpus);
      it := Span(a, b);
    } else {
      it := One(a);
    }
  }

  lemma SpanIsItem(a: string, s1: string, cpus: nat) returns (b: string)
    requires IsNumber(a) && s1 != "" && s1[0] == '-' && HeadAfter(ValueOf(a, 10), s1, cpus).Head?
    ensures var h := HeadAfter(ValueOf(a, 10), s1, cpus);
      IsNumber(b) && ValueOf(b, 10) == h.last && a + s1 == ItemText(Span(a, b)) + h.rest
  {
    var t := s1[1..];
    NumberIs(t);
    b := t[..DigitCount(t)];
    SpanText(a, b, AfterNumber(t));
    assert s1 == "-" + t;
  }

  lemma SpanText(a: string, b: string, rest: string)
    ensures (a + "-" + b) + rest == a + ("-" + (b + rest))
  {
  }

  lemma {:induction false} AcceptedIsList(s: string, cpus: nat) returns (items: seq<Item>, trailing: bool)
    requires s != "" && Parse(s, cpus).Good?
    ensures items != [] && ListOk(items, cpus) && s == ListText(items, trailing)
    ensures Parse(s, cpus).mask == ListMask(items)
    decreases |s|
  {
    var h := ReadHead(s, cpus);
    var it := HeadIsItem(s, cpus);
    if h.rest == "" || h.rest[1..] == "" {
      items, trailing := [it], h.rest != "";
      OneItem(it, trailing);
      assert h.rest == if trailing then "," else "";
    } else {
      var tail := h.rest[1..];
      var more, t := AcceptedIsList(tail, cpus);
      items, trailing := [it] + more, t;
      ConsList(it, more, t);
      ConsMask(it, more);
      CommaText(ItemText(it), h.rest);
    }
  }

  lemma OneItem(it: Item, trailing: bool)
    ensures ListText([it], trailing) == ItemText(it) + if trailing then "," else ""
    ensures ListMask([it]) == Range(First(it), Last(it)) + {}
  {
  }

  lemma CommaText(a: string, rest: string)
    requires rest != "" && rest[0] == ','
    ensures a + rest == a + "," + rest[1..]
  {
  }

  lemma ConsList(it: Item, more: seq<Item>, trailing: bool)
    requires more != []
    ensures ListText([it] + more, trailing) == ItemText(it) + "," + ListText(more, trailing)
  {
    assert ([it] + more)[1..] == more;
  }

  lemma ConsMask(it: Item, more: seq<Item>)
    ensures ListMask([it] + more) == Range(First(it), Last(it)) + ListMask(more)
  {
    assert ([it] + more)[1..] == more;
  }

  // ---------- Everything well formed is accepted ----------

  lemma {:induction false} CountOfNumber(a: string, rest: string)
    requires (forall k :: 0 <= k < |a| ==> IsDigit(a[k])) && (rest != "" ==> !IsDigit(rest[0]))
    ensures DigitCount(a + rest) == |a|
  {
    if a != "" {
      assert (a + rest)[1..] == a[1..] + rest;
      CountOfNumber(a[1..], rest);
    } else {
      assert a + rest == rest;
    }
  }

  lemma NumberReads(a: string, rest: string)
    requires IsNumber(a) && (rest != "" ==> !IsDigit(rest[0]))
    ensures NumberAt(a + rest) == ValueOf(a, 10) && AfterNumber(a + rest) == rest
  {
    CountOfNumber(a, rest);
    assert (a + rest)[..|a|] == a && (a + rest)[|a|..] == rest;
  }

  lemma ItemReads(it: Item, rest: string, cpus: nat)
    requires ItemOk(it, cpus) && (rest == "" || rest[0] == ',')
    ensures ReadHead(ItemText(it) + rest, cpus) == Head(First(it), Last(it), rest)
  {
    match it
    case One(a) => NumberReads(a, rest);
    case Span(a, b) =>
      var tail := "-" + (b + rest);
      SpanText(a, b, rest);
      NumberReads(a, tail);
      assert tail[1..] == b + rest;
      NumberReads(b, rest);
  }

  lemma {:induction false} ListIsAccepted(items: seq<Item>, trailing: bool, cpus: nat)
    requires ListOk(items, cpus)
    ensures Parse(ListText(items, trailing), cpus) == Good(ListMask(items))
    decreases |items|
  {
    if items != [] {
      var it := items[0];
      var rest := if |items| > 1 then "," + ListText(items[1..], trailing) else if trailing then "," else "";
      var s := ItemText(it) + rest;
      assert ListText(items, trailing) == s;
      ItemReads(it, rest, cpus);
      if |items| > 1 {
        assert rest[1..] == ListText(items[1..], trailing);
        ListIsAccepted(items[1..], trailing, cpus);
      } else if trailing {
        assert rest[1..] == "";
      }
    }
  }

  lemma {:induction false} ListNotEmpty(items: seq<Item>, cpus: nat)
    requires items != [] && ListOk(items, cpus)
    ensures ListMask(items) != {}
  {
    assert First(items[0]) in ListMask(items);
  }

  /** THE READER ACCEPTS EXACTLY THE LANGUAGE: it returns some CPUs for a text if and
      only if the text is a well-formed list, and then their union. */
  lemma ReadsExactlyLists(s: string, cpus: nat)
    ensures ParsedMask(s, cpus) != {} <==>
      exists items, trailing :: items != [] && ListOk(items, cpus) && s == ListText(items, trailing)
    ensures forall items, trailing :: ListOk(items, cpus) && s == ListText(items, trailing) ==>
      ParsedMask(s, cpus) == ListMask(items)
  {
    if ParsedMask(s, cpus) != {} {
      var items, trailing := AcceptedIsList(s, cpus);
    }
    forall items, trailing | ListOk(items, cpus) && s == ListText(items, trailing)
      ensures ParsedMask(s, cpus) == ListMask(items) && (items != [] ==> ParsedMask(s, cpus) != {})
    {
      ListIsAccepted(items, trailing, cpus);
      if items != [] {
        ListNotEmpty(items, cpus);
      }
    }
  }

  // ---------- Printing ----------

  /** The last CPU of the run that starts at `cpu`. */
  function RunEnd(mask: Mask, cpu: nat, cpus: nat): (last: nat)
    requires cpu < cpus && cpu in mask
    ensures cpu <= last < cpus
    decreases cpus - cpu
  {
    if cpu + 1 < cpus && cpu + 1 in mask then RunEnd(mask, cpu + 1, cpus) else cpu
  }

  /** All of the run is in the mask, and it cannot be longer. */
  lemma {:induction false} RunEndIs(mask: Mask, cpu: nat, cpus: nat)
    requires cpu < cpus && cpu in mask
    ensures var last := RunEnd(mask, cpu, cpus);
      Range(cpu, last) <= mask && (last + 1 < cpus ==> last + 1 !in mask)
    decreases cpus - cpu
  {
    if cpu + 1 < cpus && cpu + 1 in mask {
      RunEndIs(mask, cpu + 1, cpus);
    }
  }

  function RunItem(first: nat, last: nat): Item {
    if first == last then One(Digits(first, 10)) else Span(Digits(first, 10), Digits(last, 10))
  }

  /** The runs of the mask from `cpu` on. */
  function Runs(mask: Mask, cpu: nat, cpus: nat): seq<Item>
    requires cpu <= cpus
    decreases cpus - cpu
  {
    if cpu == cpus then []
    else if cpu !in mask then Runs(mask, cpu + 1, cpus)
    else
      var last := RunEnd(mask, cpu, cpus);
      [RunItem(cpu, last)] + Runs(mask, last + 1, cpus)
  }

  function Printed(mask: Mask, cpus: nat): string {
    ListText(Runs(mask, 0, cpus), false)
  }

  lemma DigitsAreNumber(v: nat)
    ensures IsNumber(Digits(v, 10)) && ValueOf(Digits(v, 10), 10) == v
  {
    DigitsAreDigits(v, 10);
    ValueOfDigits(v, 10);
  }

  lemma RunItemIs(first: nat, last: nat, cpus: nat)
    requires first <= last < cpus
    ensures var it := RunItem(first, last); ItemOk(it, cpus) && First(it) == first && Last(it) == last
  {
    DigitsAreNumber(first);
    DigitsAreNumber(last);
  }

  function From(mask: Mask, cpu: nat, cpus: nat): Mask {
    set c | c in mask && cpu <= c < cpus
  }

  lemma {:induction false} RunsCover(mask: Mask, cpu: nat, cpus: nat)
    requires cpu <= cpus
    ensures ListOk(Runs(mask, cpu, cpus), cpus)
    ensures ListMask(Runs(mask, cpu, cpus)) == From(mask, cpu, cpus)
    decreases cpus - cpu
  {
    if cpu < cpus {
      if cpu !in mask {
        RunsCover(mask, cpu + 1, cpus);
        assert From(mask, cpu, cpus) == From(mask, cpu + 1, cpus);
      } else {
        var last := RunEnd(mask, cpu, cpus);
        RunsCover(mask, last + 1, cpus);
        RunEndIs(mask, cpu, cpus);
        RunFirst(mask, cpu, last, cpus, Runs(mask, last + 1, cpus));
      }
    }
  }

  lemma RunFirst(mask: Mask, cpu: nat, last: nat, cpus: nat, rest: seq<Item>)
    requires cpu <= last < cpus && Range(cpu, last) <= mask
    requires ListOk(rest, cpus) && ListMask(rest) == From(mask, last + 1, cpus)
    ensures ListOk([RunItem(cpu, last)] + rest, cpus)
    ensures ListMask([RunItem(cpu, last)] + rest) == From(mask, cpu, cpus)
  {
    RunItemIs(cpu, last, cpus);
    ConsMask(RunItem(cpu, last), rest);
    RangeThenRest(mask, cpu, last, cpus);
  }

  lemma RangeThenRest(mask: Mask, cpu: nat, last: nat, cpus: nat)
    requires cpu <= last < cpus && Range(cpu, last) <= mask
    ensures Range(cpu, last) + From(mask, last + 1, cpus) == From(mask, cpu, cpus)
  {
  }

  /** One number, or the first and the last with a dash. */
  ghost predicate Written(it: Item, first: nat, last: nat) {
    && First(it) == first && Last(it) == last
    && ItemText(it) == if first == last then Digits(first, 10) else Digits(first, 10) + "-" + Digits(last, 10)
  }

  /** So each run is written. */
  lemma RunWritten(first: nat, last: nat)
    requires first <= last
    ensures Written(RunItem(first, last), first, last)
  {
    RunItemIs(first, last, last + 1);
  }

  /** A run of the mask, from `cpu` on, that cannot be longer. */
  ghost predicate MaximalRun(mask: Mask, cpu: nat, cpus: nat, first: nat, last: nat) {
    && cpu <= first <= last < cpus && Range(first, last) <= mask
    && (last + 1 < cpus ==> last + 1 !in mask) && (first > cpu ==> first - 1 !in mask)
  }

  lemma StillMaximal(mask: Mask, cpu: nat, from: nat, cpus: nat, first: nat, last: nat)
    requires cpu <= from <= cpus && MaximalRun(mask, from, cpus, first, last)
    requires from > cpu ==> from - 1 !in mask || from !in mask
    ensures MaximalRun(mask, cpu, cpus, first, last)
  {
    assert first in Range(first, last);
  }

  lemma RunsNext(mask: Mask, cpu: nat, cpus: nat, end: nat, runs: seq<Item>, rest: seq<Item>)
    requires cpu < cpus && runs == Runs(mask, cpu, cpus)
    requires if cpu in mask then end == RunEnd(mask, cpu, cpus) else end == cpu
    requires end + 1 <= cpus && rest == Runs(mask, end + 1, cpus)
    ensures runs == if cpu in mask then [RunItem(cpu, end)] + rest else rest
  {
  }

  /** The printed list names the runs of the mask, each as long as possible. */
  lemma {:induction false} RunsAreMaximal(mask: Mask, cpu: nat, cpus: nat, runs: seq<Item>, i: nat)
    returns (first: nat, last: nat)
    requires cpu <= cpus && runs == Runs(mask, cpu, cpus) && i < |runs|
    ensures runs[i] == RunItem(first, last) && MaximalRun(mask, cpu, cpus, first, last)
    decreases cpus - cpu
  {
    var end := if cpu in mask then RunEnd(mask, cpu, cpus) else cpu;
    var rest := Runs(mask, end + 1, cpus);
    RunsNext(mask, cpu, cpus, end, runs, rest);
    if cpu in mask {
      RunEndIs(mask, cpu, cpus);
    }
    if cpu in mask && i == 0 {
      first, last := cpu, end;
    } else {
      first, last := RunsAreMaximal(mask, end + 1, cpus, rest, if cpu in mask then i - 1 else i);
      StillMaximal(mask, cpu, end + 1, cpus, first, last);
    }
  }

  /** And in ascending order. */
  lemma {:induction false} RunsAscend(mask: Mask, cpu: nat, cpus: nat, runs: seq<Item>, i: nat)
    requires cpu <= cpus && runs == Runs(mask, cpu, cpus) && i + 1 < |runs|
    ensures Last(runs[i]) < First(runs[i + 1])
    decreases cpus - cpu
  {
    var end := if cpu in mask then RunEnd(mask, cpu, cpus) else cpu;
    var rest := Runs(mask, end + 1, cpus);
    RunsNext(mask, cpu, cpus, end, runs, rest);
    if cpu in mask && i == 0 {
      RunWritten(cpu, end);
      var first, last := RunsAreMaximal(mask, end + 1, cpus, rest, 0);
      RunWritten(first, last);
    } else {
      RunsAscend(mask, end + 1, cpus, rest, if cpu in mask then i - 1 else i);
    }
  }

  /** ROUND TRIP: the printed list reads back as the same mask. */
  lemma ListRoundTrip(mask: Mask, cpus: nat)
    requires Fits(mask, cpus)
    ensures ParsedMask(Printed(mask, cpus), cpus) == mask
  {
    RunsCover(mask, 0, cpus);
    ListIsAccepted(Runs(mask, 0, cpus), false, cpus);
    assert From(mask, 0, cpus) == mask;
  }

  // ---------- The reader in place ----------

  lemma CountStep(s: string, i: nat)
    requires i < |s| && IsDigit(s[i])
    ensures DigitCount(s[i..]) == 1 + DigitCount(s[i + 1..])
  {
    assert s[i..][1..] == s[i + 1..];
  }

  /** The number at position i, and where it ends; -1 if there is none. */
  method ReadNumber(s: string, i: nat) returns (n: int, j: nat)
    requires i <= |s|
    ensures n == NumberAt(s[i..]) && i <= j <= |s| && s[j..] == AfterNumber(s[i..])
  {
    n, j := -1, i;
    while IsDigit(CharAt(s, j))
      invariant i <= j <= |s| && DigitCount(s[i..]) == (j - i) + DigitCount(s[j..])
      invariant n == if j == i then -1 else ValueOf(s[i..j], 10)
      decreases |s| - j
    {
      CountStep(s, j);
      ValueExtends(s, i, j);
      n := (if n < 0 then 0 else n * 10) + (s[j] - '0') as int;
      j := j + 1;
    }
    NumberEnds(s, i, j);
  }

  lemma NumberEnds(s: string, i: nat, j: nat)
    requires i <= j <= |s| && DigitCount(s[i..]) == j - i
    ensures AfterNumber(s[i..]) == s[j..] && NumberAt(s[i..]) == if j == i then -1 else ValueOf(s[i..j], 10)
  {
    assert s[i..][..j - i] == s[i..j];
  }

  /** The mask with the CPUs of a range added. */
  method AddRange(mask: Mask, first: nat, last: int) returns (more: Mask)
    ensures more == mask + Range(first, last)
  {
    more := mask;
    var cpu := first;
    while cpu <= last
      invariant first <= cpu && more == mask + Range(first, Min(cpu - 1, last))
    {
      more := more + {cpu};
      cpu := cpu + 1;
    }
  }

  lemma ContinueTwice(a: Mask, b: Mask, r: Reading)
    ensures Continue(a, Continue(b, r)) == Continue(a + b, r)
  {
    if r.Good? {
      assert a + (b + r.mask) == (a + b) + r.mask;
    }
  }

  /** One "first" or "first-last" at position i, and where it ends. */
  method ReadRange(s: string, i: nat, cpus: nat) returns (h: Head, j: nat)
    requires i <= |s|
    ensures h == ReadHead(s[i..], cpus) && i <= j <= |s| && (h.Head? ==> h.rest == s[j..])
  {
    var first, k := ReadNumber(s, i);
    h, j := ReadLast(s, k, first, cpus);
  }

  method ReadLast(s: string, k: nat, first: int, cpus: nat) returns (h: Head, j: nat)
    requires k <= |s|
    ensures h == HeadAfter(first, s[k..], cpus) && k <= j <= |s| && (h.Head? ==> h.rest == s[j..])
  {
    j := k;
    var last := first;
    if CharAt(s, k) == '-' {
      assert s[k..][1..] == s[k + 1..];
      last, j := ReadNumber(s, k + 1);
    }
    h := MakeHead(first, last, s[j..], cpus);
  }

  /** The item ends the list, or a comma follows. */
  predicate ItemEnds(h: Head) {
    h.Head? && (h.rest == "" || h.rest[0] == ',')
  }

  function PastComma(rest: string): string {
    if rest == "" then "" else rest[1..]
  }

  /** What reading one item more means for the mask collected so far. */
  lemma ParseOn(s: string, cpus: nat, mask: Mask, h: Head)
    requires s != "" && h == ReadHead(s, cpus)
    ensures Continue(mask, Parse(s, cpus)) ==
      if ItemEnds(h) then Continue(mask + Range(h.first, h.last), Parse(PastComma(h.rest), cpus)) else Bad
  {
    if ItemEnds(h) {
      ContinueTwice(mask, Range(h.first, h.last), Parse(PastComma(h.rest), cpus));
    }
  }

  method ParseList(s: string, cpus: nat) returns (mask: Mask)
    ensures mask == ParsedMask(s, cpus)
  {
    mask := {};
    var i := 0;
    assert s[0..] == s;
    while i < |s|
      invariant 0 <= i <= |s| && Parse(s, cpus) == Continue(mask, Parse(s[i..], cpus))
    {
      ghost var head := ReadHead(s[i..], cpus);
      ParseOn(s[i..], cpus, mask, head);
      var ok, j, more := ParseItem(s, i, cpus, mask);
      if !ok {
        return {};
      }
      mask, i := more, j;
    }
  }

  /** One item of the list, and the comma after it. */
  method ParseItem(s: string, i: nat, cpus: nat, mask: Mask) returns (ok: bool, j: nat, more: Mask)
    requires i < |s|
    ensures var h := ReadHead(s[i..], cpus);
      && ok == ItemEnds(h)
      && (ok ==> i < j <= |s| && s[j..] == PastComma(h.rest) && more == mask + Range(h.first, h.last))
  {
    var h, k := ReadRange(s, i, cpus);
    if h.NoHead? {
      return false, i, mask;
    }
    more := AddRange(mask, h.first, h.last);
    if CharAt(s, k) == ',' {
      assert s[k..][1..] == s[k + 1..];
      return true, k + 1, more;
    }
    return k == |s|, k, more;
  }

  // ---------- The printer in place ----------

  function Separator(some: bool): string {
    if some then "," else ""
  }

  /** What is still to be printed; `some`: something was printed before. */
  function RestText(items: seq<Item>, some: bool): string {
    if items == [] then "" else Separator(some) + ListText(items, false)
  }

  lemma OneFormat(fmt: string, sep: string, a: Word)
    requires fmt == "%s%d" && a < 0x8000_0000
    ensures ArgsFit(fmt, 0, [Str(sep), Num(a)])
    ensures Ideal(fmt, 0, [Str(sep), Num(a)]) == sep + Digits(a, 10)
  {
    var all, args := [Str(sep), Num(a)], [Num(a)];
    assert all[1..] == args && args[1..] == [];
    PlainDirective(fmt, 2, args);
    PlainPieces(3, 'd', args);
    PlainDirective(fmt, 0, all);
    PlainPieces(1, 's', all);
  }

  lemma DashFormat(fmt: string, a: Word, b: Word)
    requires fmt == "%s%d-%d" && a < 0x8000_0000 && b < 0x8000_0000
    ensures ArgsFit(fmt, 2, [Num(a), Num(b)])
    ensures Ideal(fmt, 2, [Num(a), Num(b)]) == Digits(a, 10) + ("-" + Digits(b, 10))
  {
    var both, args := [Num(a), Num(b)], [Num(b)];
    assert both[1..] == args && args[1..] == [];
    PlainDirective(fmt, 5, args);
    PlainPieces(6, 'd', args);
    assert ArgsFit(fmt, 4, args) && Ideal(fmt, 4, args) == "-" + Digits(b, 10);
    PlainDirective(fmt, 2, both);
    PlainPieces(3, 'd', both);
  }

  lemma SpanFormat(fmt: string, sep: string, a: Word, b: Word)
    requires fmt == "%s%d-%d" && a < 0x8000_0000 && b < 0x8000_0000
    ensures ArgsFit(fmt, 0, [Str(sep), Num(a), Num(b)])
    ensures Ideal(fmt, 0, [Str(sep), Num(a), Num(b)]) == sep + (Digits(a, 10) + "-" + Digits(b, 10))
  {
    var all := [Str(sep), Num(a), Num(b)];
    assert all[1..] == [Num(a), Num(b)];
    DashFormat(fmt, a, b);
    PlainDirective(fmt, 0, all);
    PlainPieces(1, 's', all);
    Assoc(Digits(a, 10), "-", Digits(b, 10));
  }

  /** The buffer holds what fits of `text`. */
  ghost predicate Holds(out: seq<char>, size: int, len: int, text: string) {
    1 <= size <= |out| && len == Min(|text|, size - 1) && out[..len] == text[..len] && out[len] == '\0'
  }

  /** `format(out + len, size - len, ...)` with one run. */
  method WriteRun(out: array<char>, len: nat, room: int, sep: string, first: nat, last: nat) returns (n: int)
    requires 1 <= room && len + room <= out.Length && first <= last < 0x8000_0000
    modifies out
    ensures var piece := sep + ItemText(RunItem(first, last));
      && n == Min(|piece|, room - 1)
      && out[len..len + n] == piece[..n] && out[len + n] == '\0'
    ensures forall k :: 0 <= k < len ==> out[k] == old(out[k])
  {
    if last == first {
      var fmt := "%s%d";
      OneFormat(fmt, sep, first);
      n := VFormat(out, len, room, fmt, [Str(sep), Num(first)]);
    } else {
      var fmt := "%s%d-%d";
      SpanFormat(fmt, sep, first, last);
      n := VFormat(out, len, room, fmt, [Str(sep), Num(first), Num(last)]);
    }
  }

  /** One more run at the end of the text. */
  method AppendRun(out: array<char>, size: int, len: int, ghost text: string, first: nat, last: nat) returns (len': int)
    requires Holds(out[..], size, len, text) && first <= last < 0x8000_0000
    modifies out
    ensures Holds(out[..], size, len', text + (Separator(text != "") + ItemText(RunItem(first, last))))
  {
    ghost var before := out[..];
    var sep := Separator(len != 0);
    var n := WriteRun(out, len, size - len, sep, first, last);
    len' := len + n;
    AppendHolds(before, out[..], size, len, text, sep + ItemText(RunItem(first, last)), n);
    assert size == 1 || sep == Separator(text != "");
  }

  lemma AppendHolds(before: seq<char>, after: seq<char>, size: int, len: int, text: string, piece: string, n: int)
    requires Holds(before, size, len, text) && |after| == |before|
    requires n == Min(|piece|, size - len - 1) && after[len..len + n] == piece[..n] && after[len + n] == '\0'
    requires forall k :: 0 <= k < len ==> after[k] == before[k]
    ensures forall p: string :: size == 1 || p == piece ==> Holds(after, size, len + n, text + p)
  {
  }

  method FindRunEnd(mask: Mask, cpu: nat, cpus: nat) returns (last: nat)
    requires cpu < cpus && cpu in mask
    ensures last == RunEnd(mask, cpu, cpus)
  {
    last := cpu;
    while last + 1 < cpus && last + 1 in mask
      invariant cpu <= last < cpus && last in mask && RunEnd(mask, cpu, cpus) == RunEnd(mask, last, cpus)
    {
      last := last + 1;
    }
  }

  /** A mask as a list, as much of it as the buffer holds. */
  method PrintList(mask: Mask, cpus: nat, out: array<char>, size: int)
    requires 1 <= size <= out.Length && cpus <= 0x8000_0000
    modifies out
    ensures var text := Printed(mask, cpus);
      var n := Min(|text|, size - 1);
      out[..n] == text[..n] && out[n] == '\0'
  {
    var len := 0;
    out[0] := '\0';
    ghost var text, goal := "", Printed(mask, cpus);
    NothingYet(mask, cpus);
    var cpu := 0;
    while cpu < cpus
      invariant 0 <= cpu <= cpus && Holds(out[..], size, len, text)
      invariant text + Remaining(mask, cpu, cpus, text != "") == goal
    {
      if cpu in mask {
        cpu, len, text := PrintRun(mask, cpu, cpus, out, size, len, text, goal);
      } else {
        RunsSkip(mask, cpu, cpus, text != "");
      }
      cpu := cpu + 1;
    }
    NothingMore(mask, cpus, text != "");
  }

  /** What is still to be printed from `cpu` on. */
  function Remaining(mask: Mask, cpu: nat, cpus: nat, some: bool): string
    requires cpu <= cpus
  {
    RestText(Runs(mask, cpu, cpus), some)
  }

  lemma NothingYet(mask: Mask, cpus: nat)
    ensures "" + Remaining(mask, 0, cpus, false) == Printed(mask, cpus)
  {
  }

  lemma NothingMore(mask: Mask, cpus: nat, some: bool)
    ensures Remaining(mask, cpus, cpus, some) == ""
  {
  }

  lemma RunsSkip(mask: Mask, cpu: nat, cpus: nat, some: bool)
    requires cpu < cpus && cpu !in mask
    ensures Remaining(mask, cpu, cpus, some) == Remaining(mask, cpu + 1, cpus, some)
  {
  }

  lemma RunsStart(mask: Mask, cpu: nat, last: nat, cpus: nat)
    requires cpu < cpus && cpu in mask && last == RunEnd(mask, cpu, cpus)
    ensures Runs(mask, cpu, cpus) == [RunItem(cpu, last)] + Runs(mask, last + 1, cpus)
  {
  }

  /** The run that starts at cpu. */
  method PrintRun(mask: Mask, cpu: nat, cpus: nat, out: array<char>, size: int, len: int,
                  ghost text: string, ghost goal: string)
    returns (last: nat, len': int, ghost text': string)
    requires cpu < cpus <= 0x8000_0000 && cpu in mask
    requires Holds(out[..], size, len, text) && text + Remaining(mask, cpu, cpus, text != "") == goal
    modifies out
    ensures cpu <= last < cpus
    ensures Holds(out[..], size, len', text') && text' != "" && text' + Remaining(mask, last + 1, cpus, true) == goal
  {
    last := FindRunEnd(mask, cpu, cpus);
    RestFirst(mask, cpu, last, cpus, text, goal);
    len' := AppendRun(out, size, len, text, cpu, last);
    text' := text + (Separator(text != "") + ItemText(RunItem(cpu, last)));
  }

  lemma ItemNotEmpty(first: nat, last: nat)
    ensures ItemText(RunItem(first, last)) != ""
  {
    DigitsAreNumber(first);
  }

  /** The next run moves from the rest to the text. */
  lemma RestFirst(mask: Mask, cpu: nat, last: nat, cpus: nat, text: string, goal: string)
    requires cpu < cpus && cpu in mask && last == RunEnd(mask, cpu, cpus)
    requires text + Remaining(mask, cpu, cpus, text != "") == goal
    ensures var text' := text + (Separator(text != "") + ItemText(RunItem(cpu, last)));
      text' != "" && text' + Remaining(mask, last + 1, cpus, true) == goal
  {
    RunsStart(mask, cpu, last, cpus);
    ItemNotEmpty(cpu, last);
    MoveItem(RunItem(cpu, last), Runs(mask, last + 1, cpus), text);
  }

  lemma MoveItem(it: Item, rest: seq<Item>, text: string)
    ensures text + RestText([it] + rest, text != "") ==
      (text + (Separator(text != "") + ItemText(it))) + RestText(rest, true)
  {
    var sep := Separator(text != "");
    JoinItem(sep, it, rest);
    Assoc(text, sep + ItemText(it), RestText(rest, true));
  }

  lemma JoinItem(sep: string, it: Item, rest: seq<Item>)
    ensures sep + ListText([it] + rest, false) ==
      (sep + ItemText(it)) + (if rest == [] then "" else "," + ListText(rest, false))
  {
    if rest == [] {
      OneItem(it, false);
      assert [it] + rest == [it] && ItemText(it) + "" == ItemText(it);
    } else {
      ConsList(it, rest, false);
      var tail := ListText(rest, false);
      Assoc(ItemText(it), ",", tail);
      Assoc(sep, ItemText(it), "," + tail);
    }
  }
}
