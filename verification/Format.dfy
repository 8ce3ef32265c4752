/**
 * The small snprintf of lib/format.  What a format and its arguments stand for is
 * defined without any buffer; the formatter is proved to write exactly the part
 * of it that fits.
 */
module Format {
  import opened Words

  const DIGIT_CHARS := "0123456789abcdef"
  const TEXT_SIZE := 12

  /** One argument of the variable list: a 32-bit value or a string pointer. */
  datatype Arg = Num(word: Word) | Str(text: string) | Null

  function Signed(w: Word): int {
    if w >= 0x8000_0000 then w - WORD_SIZE else w
  }

  function Magnitude(w: Word): Word {
    if Signed(w) < 0 then -Signed(w) else Signed(w)
  }

  // ---------- Numbers as text ----------

  /** The bases of %o, %d, %u and %x. */
  type Radix = n: nat | n == 8 || n == 10 || n == 16 witness 10

  /** `v / base`. */
  function Quot(v: nat, base: Radix): (q: nat)
    ensures v >= base ==> 0 < q < v
    ensures v < base ==> q == 0
  {
    if base == 8 then v / 8 else if base == 10 then v / 10 else v / 16
  }

  /** `v % base`. */
  function Rem(v: nat, base: Radix): (r: nat)
    ensures r < base
  {
    if base == 8 then v % 8 else if base == 10 then v % 10 else v % 16
  }

  lemma QuotRem(v: nat, base: Radix)
    ensures Quot(v, base) == v / base && Rem(v, base) == v % base
    ensures v == Quot(v, base) * base + Rem(v, base)
  {
  }

  lemma Assoc(a: string, b: string, c: string)
    ensures (a + b) + c == a + (b + c)
  {
  }

  /** Most significant digit first. */
  function Digits(v: nat, base: Radix): (s: string)
    ensures |s| >= 1
  {
    if v < base then [DIGIT_CHARS[v]] else Digits(Quot(v, base), base) + [DIGIT_CHARS[Rem(v, base)]]
  }

  function Repeat(c: char, n: int): (s: string)
    ensures |s| == if n > 0 then n else 0
    ensures forall k :: 0 <= k < |s| ==> s[k] == c
  {
    seq(if n > 0 then n else 0, _ => c)
  }

  function Padded(text: string, width: int, left: bool, pad: char): string {
    if left then text + Repeat(' ', width - |text|) else Repeat(pad, width - |text|) + text
  }

  /** A minus sign stands left of padding zeros, and right of padding spaces. */
  function NumberText(value: Word, base: Radix, negative: bool, width: int, left: bool, pad: char): string
  {
    var digits := Digits(value, base);
    if negative && pad == '0' then ['-'] + Padded(digits, width - 1, left, pad)
    else Padded(if negative then ['-'] + digits else digits, width, left, pad)
  }

  // ---------- Formats ----------

  predicate IsDigit(c: char) {
    '0' <= c <= '9'
  }

  /** The string is NUL-terminated. */
  function CharAt(s: string, i: nat): char {
    if i < |s| then s[i] else '\0'
  }

  function WidthEnd(fmt: string, i: nat): (e: nat)
    requires i <= |fmt|
    ensures i <= e <= |fmt|
    decreases |fmt| - i
  {
    if IsDigit(CharAt(fmt, i)) then WidthEnd(fmt, i + 1) else i
  }

  function Width(fmt: string, i: nat, acc: nat): nat
    requires i <= |fmt|
    decreases |fmt| - i
  {
    if IsDigit(CharAt(fmt, i)) then Width(fmt, i + 1, acc * 10 + (fmt[i] - '0') as nat) else acc
  }

  /** A directive after its '%': flags, width, and where its letter is. */
  datatype Directive = Directive(left: bool, pad: char, width: nat, letter: nat)

  function Parse(fmt: string, i: nat): (d: Directive)
    requires i <= |fmt|
    ensures i <= d.letter <= |fmt|
  {
    var left := CharAt(fmt, i) == '-';
    var i1 := if left then i + 1 else i;
    var zero := CharAt(fmt, i1) == '0';
    var i2 := if zero then i1 + 1 else i1;
    Directive(left, if zero then '0' else ' ', Width(fmt, i2, 0), WidthEnd(fmt, i2))
  }

  /** The letters that take a number, a character or a string from the list. */
  predicate TakesWord(c: char) {
    c in {'c', 'd', 'u', 'x', 'o'}
  }

  predicate TakesArg(c: char) {
    TakesWord(c) || c == 's'
  }

  /** What the caller owes: the next argument is there and of the right kind. */
  predicate ArgFits(c: char, args: seq<Arg>) {
    (TakesWord(c) ==> args != [] && args[0].Num?) && (c == 's' ==> args != [] && !args[0].Num?)
  }

  /** The text of one directive. */
  function Piece(d: Directive, c: char, args: seq<Arg>): string
    requires ArgFits(c, args)
  {
    match c
    case 's' => Padded(if args[0].Null? then "(null)" else args[0].text, d.width, d.left, ' ')
    case 'c' => Padded([(args[0].word % 256) as char], d.width, d.left, ' ')
    case 'd' => NumberText(Magnitude(args[0].word), 10, Signed(args[0].word) < 0, d.width, d.left, d.pad)
    case 'u' => NumberText(args[0].word, 10, false, d.width, d.left, d.pad)
    case 'x' => NumberText(args[0].word, 16, false, d.width, d.left, d.pad)
    case 'o' => NumberText(args[0].word, 8, false, d.width, d.left, d.pad)
    case '%' => "%"
    case _ => ['%', c]
  }

  /** Every directive from position i on finds its argument. */
  predicate ArgsFit(fmt: string, i: nat, args: seq<Arg>)
    requires i <= |fmt|
    decreases |fmt| - i
  {
    if i == |fmt| then true
    else if fmt[i] != '%' then ArgsFit(fmt, i + 1, args)
    else
      var d := Parse(fmt, i + 1);
      if d.letter == |fmt| then true
      else
        var c := fmt[d.letter];
        ArgFits(c, args) && ArgsFit(fmt, d.letter + 1, if TakesArg(c) then args[1..] else args)
  }

  /** The whole text, as if there were no end to the buffer. */
  function Ideal(fmt: string, i: nat, args: seq<Arg>): string
    requires i <= |fmt| && ArgsFit(fmt, i, args)
    decreases |fmt| - i
  {
    if i == |fmt| then ""
    else if fmt[i] != '%' then [fmt[i]] + Ideal(fmt, i + 1, args)
    else
      var d := Parse(fmt, i + 1);
      if d.letter == |fmt| then ""
      else
        var c := fmt[d.letter];
        Piece(d, c, args) + Ideal(fmt, d.letter + 1, if TakesArg(c) then args[1..] else args)
  }

  // ---------- Formats without flags ----------

  /** A letter right after its '%'. */
  lemma PlainDirective(fmt: string, i: nat, args: seq<Arg>)
    requires i + 1 < |fmt| && fmt[i] == '%' && fmt[i + 1] != '-' && !IsDigit(fmt[i + 1])
    requires ArgFits(fmt[i + 1], args) && ArgsFit(fmt, i + 2, if TakesArg(fmt[i + 1]) then args[1..] else args)
    ensures ArgsFit(fmt, i, args)
    ensures Ideal(fmt, i, args) ==
      Piece(Directive(false, ' ', 0, i + 1), fmt[i + 1], args) +
      Ideal(fmt, i + 2, if TakesArg(fmt[i + 1]) then args[1..] else args)
  {
    assert Parse(fmt, i + 1) == Directive(false, ' ', 0, i + 1);
  }

  /** Without a width a value is just its digits, and a string itself. */
  lemma PlainPieces(letter: nat, c: char, args: seq<Arg>)
    requires args != []
    ensures args[0].Num? && c == 'd' && args[0].word < 0x8000_0000 ==>
      Piece(Directive(false, ' ', 0, letter), c, args) == Digits(args[0].word, 10)
    ensures args[0].Num? && c == 'u' ==> Piece(Directive(false, ' ', 0, letter), c, args) == Digits(args[0].word, 10)
    ensures args[0].Num? && c == 'x' ==> Piece(Directive(false, ' ', 0, letter), c, args) == Digits(args[0].word, 16)
    ensures args[0].Str? && c == 's' ==> Piece(Directive(false, ' ', 0, letter), c, args) == args[0].text
  {
  }

  // ---------- How long a number can get ----------

  function Pow8(k: nat): nat {
    if k == 0 then 1 else 8 * Pow8(k - 1)
  }

  lemma {:induction false} DigitsShort(v: nat, base: Radix, k: nat)
    requires v < Pow8(k) && 1 <= k
    ensures |Digits(v, base)| <= k
  {
    if v >= base {
      DigitsShort(Quot(v, base), base, k - 1);
    }
  }

  /** Eleven digits are enough for every 32-bit value. */
  lemma ElevenDigits(v: Word, base: Radix)
    ensures |Digits(v, base)| <= 11
  {
    assert Pow8(5) == 32768;
    assert Pow8(11) == 8589934592;
    DigitsShort(v, base, 11);
  }

  // ---------- The formatter ----------

  /** The buffer holds the text with its last character first. */
  ghost predicate Backward(buffer: seq<char>, text: string) {
    |buffer| == |text| && forall k :: 0 <= k < |buffer| ==> buffer[k] == text[|text| - 1 - k]
  }

  /** Where the text goes: `size` characters from `start` on; stops quietly when that
      part of the buffer is full.  `full` is all that was ever emitted. */
  class Sink {
    const out: array<char>
    const start: nat
    const size: int
    var length: int
    ghost var full: string

    ghost predicate Valid()
      reads this, out
    {
      && 1 <= size && start + size <= out.Length && length == Min(|full|, size - 1)
      && out[start..start + length] == full[..length]
    }

    constructor (buffer: array<char>, from: nat, capacity: int)
      requires 1 <= capacity && from + capacity <= buffer.Length
      ensures Valid() && out == buffer && start == from && size == capacity && length == 0 && full == ""
    {
      out, start, size, length, full := buffer, from, capacity, 0, "";
    }

    /** Only the text itself has been written. */
    ghost predicate Untouched(before: seq<char>)
      requires |before| == out.Length
      reads this, out
    {
      forall k :: 0 <= k < out.Length && !(start <= k < start + length) ==> out[k] == before[k]
    }

    method Emit(c: char)
      requires Valid()
      modifies this, out
      ensures Valid() && full == old(full) + [c] && old(length) <= length
      ensures Untouched(old(out[..]))
    {
      if length < size - 1 {
        out[start + length] := c;
        length := length + 1;
      }
      full := full + [c];
    }

    method EmitAll(text: string)
      requires Valid()
      modifies this, out
      ensures Valid() && full == old(full) + text
      ensures old(length) <= length && Untouched(old(out[..]))
    {
      for i := 0 to |text|
        invariant Valid() && full == old(full) + text[..i]
        invariant old(length) <= length && Untouched(old(out[..]))
      {
        Emit(text[i]);
      }
      assert text[..|text|] == text;
    }

    method EmitRepeated(c: char, n: int)
      requires Valid()
      modifies this, out
      ensures Valid() && full == old(full) + Repeat(c, n)
      ensures old(length) <= length && Untouched(old(out[..]))
    {
      var i := 0;
      while i < n
        invariant 0 <= i && (i == 0 || i <= n)
        invariant Valid() && full == old(full) + Repeat(c, i)
        invariant old(length) <= length && Untouched(old(out[..]))
      {
        Emit(c);
        i := i + 1;
        assert Repeat(c, i) == Repeat(c, i - 1) + [c];
      }
    }

    /** The text padded to a width. */
    method EmitPadded(text: string, width: int, left: bool, pad: char)
      requires Valid()
      modifies this, out
      ensures Valid() && full == old(full) + Padded(text, width, left, pad)
      ensures old(length) <= length && Untouched(old(out[..]))
    {
      if !left {
        EmitRepeated(pad, width - |text|);
      }
      EmitAll(text);
      if left {
        EmitRepeated(' ', width - |text|);
      }
    }

    /** A number in a base, through two local buffers of twelve characters. */
    method EmitNumber(value: Word, base: Radix, negative: bool, width: int, left: bool, pad: char)
      requires Valid()
      modifies this, out
      ensures Valid() && full == old(full) + NumberText(value, base, negative, width, left, pad)
      ensures old(length) <= length && Untouched(old(out[..]))
    {
      if negative && pad == '0' {
        Emit('-');
        var digits := OrderedText(value, base, false);
        EmitPadded(digits, width - 1, left, pad);
        Assoc(old(full), ['-'], Padded(digits, width - 1, left, pad));
      } else {
        var ordered := OrderedText(value, base, negative);
        EmitPadded(ordered, width, left, pad);
      }
    }
  }

  /** The digits, and a sign in front if asked for, in the right order. */
  method OrderedText(value: Word, base: Radix, sign: bool) returns (ordered: string)
    ensures ordered == if sign then ['-'] + Digits(value, base) else Digits(value, base)
  {
    var text, n := BackwardDigits(value, base);
    ghost var goal := Digits(value, base);
    if sign {
      Append(text, n, '-', goal);
      n := n + 1;
      goal := ['-'] + goal;
    }
    ordered := Forward(text, n, goal);
  }

  /** The digits come out backwards, into a buffer of twelve characters. */
  method BackwardDigits(value: Word, base: Radix) returns (text: array<char>, n: nat)
    ensures fresh(text) && text.Length == TEXT_SIZE && 1 <= n < TEXT_SIZE
    ensures Backward(text[..n], Digits(value, base))
  {
    text := new char[TEXT_SIZE];
    ElevenDigits(value, base);
    ghost var goal, done := Digits(value, base), "";
    n := 0;
    var v: nat := value;
    while true
      invariant n + |Digits(v, base)| == |goal|
      invariant goal == Digits(v, base) + done && Backward(text[..n], done)
      decreases v
    {
      var rest, digit := TakeDigit(v, base);
      Assoc(if rest == 0 then "" else Digits(rest, base), [digit], done);
      Append(text, n, digit, done);
      done := [digit] + done;
      n := n + 1;
      v := rest;
      if v == 0 {
        return;
      }
    }
  }

  /** `text[n] = c`. */
  method Append(text: array<char>, n: nat, c: char, ghost done: string)
    requires n < text.Length && Backward(text[..n], done)
    modifies text
    ensures Backward(text[..n + 1], [c] + done)
  {
    text[n] := c;
  }

  method TakeDigit(v: nat, base: Radix) returns (rest: nat, digit: char)
    ensures Digits(v, base) == (if rest == 0 then "" else Digits(rest, base)) + [digit]
    ensures rest != 0 ==> rest < v
  {
    digit := DIGIT_CHARS[Rem(v, base)];
    rest := Quot(v, base);
  }

  method Forward(text: array<char>, n: nat, ghost goal: string) returns (ordered: string)
    requires n <= text.Length && Backward(text[..n], goal)
    ensures ordered == goal
  {
    ordered := "";
    for i := 0 to n
      invariant |ordered| == i
      invariant forall k :: 0 <= k < i ==> ordered[k] == text[n - 1 - k]
    {
      ordered := ordered + [text[n - 1 - i]];
    }
    forall k | 0 <= k < n ensures ordered[k] == goal[k] {
      assert text[..n][n - 1 - k] == goal[k];
    }
  }

  /** A format and its arguments into the `size` characters of a buffer from `start`
      on: exactly the first size - 1 characters of the whole text, then a NUL; the
      count is returned, and nothing else is written. */
  method VFormat(out: array<char>, start: nat, size: int, fmt: string, args: seq<Arg>) returns (n: int)
    requires start + size <= out.Length && ArgsFit(fmt, 0, args)
    modifies out
    ensures size <= 0 ==> n == 0 && out[..] == old(out[..])
    ensures size > 0 ==>
      var ideal := Ideal(fmt, 0, args);
      && n == Min(|ideal|, size - 1)
      && out[start..start + n] == ideal[..n] && out[start + n] == '\0'
      && forall k :: 0 <= k < out.Length && !(start <= k <= start + n) ==> out[k] == old(out[k])
  {
    if size <= 0 {
      return 0;
    }
    var s := new Sink(out, start, size);
    EmitFormat(s, fmt, args);
    assert s.full == Ideal(fmt, 0, args);
    n := s.length;
    out[start + n] := '\0';
  }

  /** All of the format: what is not a directive goes out as it is. */
  method EmitFormat(s: Sink, fmt: string, args: seq<Arg>)
    requires s.Valid() && ArgsFit(fmt, 0, args)
    modifies s, s.out
    ensures s.Valid() && s.full == old(s.full) + Ideal(fmt, 0, args)
    ensures old(s.length) <= s.length && s.Untouched(old(s.out[..]))
  {
    var i, rest := 0, args;
    while i < |fmt|
      invariant 0 <= i <= |fmt| && s.Valid()
      invariant ArgsFit(fmt, i, rest) && s.full + Ideal(fmt, i, rest) == old(s.full) + Ideal(fmt, 0, args)
      invariant old(s.length) <= s.length && s.Untouched(old(s.out[..]))
    {
      i, rest := EmitNext(s, fmt, i, rest);
    }
  }

  /** One character or one directive. */
  method EmitNext(s: Sink, fmt: string, i: nat, args: seq<Arg>) returns (next: nat, rest: seq<Arg>)
    requires s.Valid() && i < |fmt| && ArgsFit(fmt, i, args)
    modifies s, s.out
    ensures s.Valid() && i < next <= |fmt| && ArgsFit(fmt, next, rest)
    ensures s.full + Ideal(fmt, next, rest) == old(s.full) + Ideal(fmt, i, args)
    ensures old(s.length) <= s.length && s.Untouched(old(s.out[..]))
  {
    rest := args;
    if fmt[i] != '%' {
      next := i + 1;
      Assoc(s.full, [fmt[i]], Ideal(fmt, next, rest));
      s.Emit(fmt[i]);
      return;
    }
    var d := ReadDirective(fmt, i + 1);
    if d.letter == |fmt| {
      next := |fmt|;
    } else {
      var c := fmt[d.letter];
      next := d.letter + 1;
      if TakesArg(c) {
        rest := args[1..];
      }
      Assoc(s.full, Piece(d, c, args), Ideal(fmt, next, rest));
      EmitPiece(s, d, c, args);
    }
  }

  method EmitPiece(s: Sink, d: Directive, c: char, args: seq<Arg>)
    requires s.Valid() && ArgFits(c, args)
    modifies s, s.out
    ensures s.Valid() && s.full == old(s.full) + Piece(d, c, args)
    ensures old(s.length) <= s.length && s.Untouched(old(s.out[..]))
  {
    match c
    case 's' => s.EmitPadded(if args[0].Null? then "(null)" else args[0].text, d.width, d.left, ' ');
    case 'c' => s.EmitPadded([(args[0].word % 256) as char], d.width, d.left, ' ');
    case 'd' => s.EmitNumber(Magnitude(args[0].word), 10, Signed(args[0].word) < 0, d.width, d.left, d.pad);
    case 'u' => s.EmitNumber(args[0].word, 10, false, d.width, d.left, d.pad);
    case 'x' => s.EmitNumber(args[0].word, 16, false, d.width, d.left, d.pad);
    case 'o' => s.EmitNumber(args[0].word, 8, false, d.width, d.left, d.pad);
    case '%' => s.Emit('%');
    case _ => s.EmitAll(['%', c]);
  }

  /** Flags and width after a '%'. */
  method ReadDirective(fmt: string, start: nat) returns (d: Directive)
    requires start <= |fmt|
    ensures d == Parse(fmt, start)
  {
    var i := start;
    var left, pad := false, ' ';
    var width: nat := 0;
    if CharAt(fmt, i) == '-' {
      left := true;
      i := i + 1;
    }
    if CharAt(fmt, i) == '0' {
      pad := '0';
      i := i + 1;
    }
    ghost var first := i;
    while IsDigit(CharAt(fmt, i))
      invariant i <= |fmt| && WidthEnd(fmt, first) == WidthEnd(fmt, i) && Width(fmt, first, 0) == Width(fmt, i, width)
      decreases |fmt| - i
    {
      width := width * 10 + (fmt[i] - '0') as nat;
      i := i + 1;
    }
    d := Directive(left, pad, width, i);
  }
}
