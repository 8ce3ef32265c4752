/**
 * Reading numbers: `atoi` and `strtoul` of lib/stdlib, and that they undo what the
 * formatter prints.
 */
module Numbers {
  import opened Words
  import opened Format

  const INT_MAX := 0x7FFF_FFFF
  const INT_MIN := -0x8000_0000

  /** 99 for what is no digit. */
  function DigitValue(c: char): nat {
    if '0' <= c <= '9' then (c - '0') as nat
    else if 'a' <= c <= 'f' then (c - 'a') as nat + 10
    else if 'A' <= c <= 'F' then (c - 'A') as nat + 10
    else 99
  }

  /** v * base, as base times v added up. */
  function Times(v: nat, base: nat): nat {
    if base == 0 then 0 else v + Times(v, base - 1)
  }

  lemma {:induction false} TimesIs(v: nat, base: nat)
    ensures Times(v, base) == v * base
  {
    if base > 0 {
      TimesIs(v, base - 1);
      assert v * base == v * (base - 1) + v;
    }
  }

  /** The exact value of a text of digits. */
  function ValueOf(digits: string, base: nat): nat {
    if digits == "" then 0
    else Times(ValueOf(digits[..|digits| - 1], base), base) + DigitValue(digits[|digits| - 1])
  }

  function SkipSpaces(s: string, i: nat): (e: nat)
    requires i <= |s|
    ensures i <= e <= |s|
    decreases |s| - i
  {
    if i < |s| && s[i] == ' ' then SkipSpaces(s, i + 1) else i
  }

  /** Where the run of digits that starts at i ends. */
  function DigitsEnd(s: string, i: nat, base: int): (e: nat)
    requires i <= |s|
    ensures i <= e <= |s|
    ensures forall k :: i <= k < e ==> DigitValue(s[k]) < base
    ensures e < |s| ==> DigitValue(s[e]) >= base
    decreases |s| - i
  {
    if i < |s| && DigitValue(s[i]) < base then DigitsEnd(s, i + 1, base) else i
  }

  predicate HexPrefix(s: string, i: nat) {
    CharAt(s, i) == '0' && (CharAt(s, i + 1) == 'x' || CharAt(s, i + 1) == 'X')
  }

  /** The base really used, and where the digits start. */
  function Prefix(s: string, base: int): (r: (int, nat))
    ensures r.1 <= |s|
  {
    var i := SkipSpaces(s, 0);
    if (base == 0 || base == 16) && HexPrefix(s, i) then (16, i + 2)
    else (if base == 0 then 10 else base, i)
  }

  /** The value, in 32 bits, of the longest run of digits that starts at `start`. */
  method ReadDigits(s: string, start: nat, b: int) returns (value: Word, end: nat)
    requires b <= 99 && start <= |s|
    ensures end == DigitsEnd(s, start, b)
    ensures value == if b > 0 then Wrap(ValueOf(s[start..end], b)) else 0
  {
    var i := start;
    value := 0;
    while DigitValue(CharAt(s, i)) < b
      invariant start <= i <= |s| && DigitsEnd(s, start, b) == DigitsEnd(s, i, b)
      invariant value == if b > 0 then Wrap(ValueOf(s[start..i], b)) else 0
      decreases |s| - i
    {
      HornerWraps(s[start..i], s[i], b, value);
      assert s[start..i] + [s[i]] == s[start..i + 1];
      value := Wrap(value * b + DigitValue(s[i]));
      i := i + 1;
    }
    end := i;
  }

  /** Spaces, an optional 0x, then the longest run of digits. */
  method StrToUL(s: string, base: int) returns (value: Word, end: nat)
    requires base <= 99
    ensures var (b, start) := Prefix(s, base);
      && end == DigitsEnd(s, start, b)
      && value == if b > 0 then Wrap(ValueOf(s[start..end], b)) else 0
  {
    var i := 0;
    while CharAt(s, i) == ' '
      invariant i <= |s| && SkipSpaces(s, 0) == SkipSpaces(s, i)
      decreases |s| - i
    {
      i := i + 1;
    }
    var b := base;
    if (base == 0 || base == 16) && HexPrefix(s, i) {
      b := 16;
      i := i + 2;
    } else if base == 0 {
      b := 10;
    }
    value, end := ReadDigits(s, i, b);
  }

  /** Reducing at every step gives the exact value reduced once. */
  lemma HornerWraps(digits: string, c: char, b: nat, value: Word)
    requires value == Wrap(ValueOf(digits, b))
    ensures Wrap(value * b + DigitValue(c)) == Wrap(ValueOf(digits + [c], b))
  {
    var exact := ValueOf(digits, b);
    ValueSnoc(digits, c, b);
    TimesIs(exact, b);
    HornerStep(exact, value, b, DigitValue(c));
  }

  lemma HornerStep(exact: nat, value: Word, b: nat, d: nat)
    requires value == Wrap(exact)
    ensures Wrap(value * b + d) == Wrap(exact * b + d)
  {
    var q := exact / WORD_SIZE;
    Distribute(q, value, b);
    WrapShift(value * b + d, q * b);
  }

  lemma Distribute(q: nat, value: nat, b: nat)
    ensures (q * WORD_SIZE + value) * b == q * b * WORD_SIZE + value * b
  {
  }

  lemma WrapShift(n: nat, m: nat)
    ensures Wrap(m * WORD_SIZE + n) == Wrap(n)
  {
  }

  // ---------- atoi ----------

  /** Where atoi's digits start and whether there was a minus sign. */
  function SignAndStart(s: string): (r: (bool, nat))
    ensures r.1 <= |s|
  {
    var i := SkipSpaces(s, 0);
    var c := CharAt(s, i);
    if c == '-' || c == '+' then (c == '-', i + 1) else (false, i)
  }

  /** What the text says, exactly. */
  function AtoiExact(s: string): int {
    var (negative, start) := SignAndStart(s);
    var n: int := ValueOf(s[start..DigitsEnd(s, start, 10)], 10);
    if negative then -n else n
  }

  /** In C the sum must stay an `int`; `overflow` says that it did not, and the
      result is then undefined. */
  method Atoi(s: string) returns (r: int, overflow: bool)
    ensures overflow <==> AtoiExact(s) > INT_MAX || AtoiExact(s) < -INT_MAX
    ensures !overflow ==> r == AtoiExact(s)
  {
    var sign: int := 1;
    var i: nat := 0;
    while CharAt(s, i) == ' '
      invariant i <= |s| && SkipSpaces(s, 0) == SkipSpaces(s, i)
      decreases |s| - i
    {
      i := i + 1;
    }
    if CharAt(s, i) == '-' || CharAt(s, i) == '+' {
      if s[i] == '-' {
        sign := -1;
      }
      i := i + 1;
    }
    var value, over := ReadInt(s, i);
    return sign * value, over;
  }

  method ReadInt(s: string, start: nat) returns (value: nat, overflow: bool)
    requires start <= |s|
    ensures var n := ValueOf(s[start..DigitsEnd(s, start, 10)], 10); value == n && (overflow <==> n > INT_MAX)
  {
    var i := start;
    value, overflow := 0, false;
    while '0' <= CharAt(s, i) <= '9'
      invariant start <= i <= |s| && DigitsEnd(s, start, 10) == DigitsEnd(s, i, 10)
      invariant value == ValueOf(s[start..i], 10) && (overflow <==> value > INT_MAX)
      decreases |s| - i
    {
      ValueExtends(s, start, i);
      value := value * 10 + (s[i] - '0') as nat;
      overflow := overflow || value > INT_MAX;
      i := i + 1;
    }
  }

  lemma ValueSnoc(digits: string, c: char, base: nat)
    ensures ValueOf(digits + [c], base) == Times(ValueOf(digits, base), base) + DigitValue(c)
  {
    assert (digits + [c])[..|digits|] == digits;
  }

  /** One more digit at position j, in base 10. */
  lemma ValueExtends(s: string, i: nat, j: nat)
    requires i <= j < |s| && IsDigit(s[j])
    ensures ValueOf(s[i..j + 1], 10) == ValueOf(s[i..j], 10) * 10 + (s[j] - '0') as nat
  {
    ValueSnoc(s[i..j], s[j], 10);
    TimesIs(ValueOf(s[i..j], 10), 10);
    assert s[i..j] + [s[j]] == s[i..j + 1];
  }

  // ---------- Reading undoes printing ----------

  lemma DigitOfChar(d: nat)
    requires d < 16
    ensures DigitValue(DIGIT_CHARS[d]) == d && IsLowerHex(DIGIT_CHARS[d])
  {
  }

  predicate IsLowerHex(c: char) {
    '0' <= c <= '9' || 'a' <= c <= 'f'
  }

  lemma Recompose(v: nat, base: Radix)
    ensures Times(Quot(v, base), base) + Rem(v, base) == v
  {
    QuotRem(v, base);
    TimesIs(Quot(v, base), base);
  }

  lemma TimesZero(base: nat)
    ensures Times(0, base) == 0
  {
    TimesIs(0, base);
  }

  lemma {:induction false} ValueOfDigits(v: nat, base: Radix)
    ensures ValueOf(Digits(v, base), base) == v
  {
    if v >= base {
      var q, r := Quot(v, base), Rem(v, base);
      ValueOfDigits(q, base);
      ValueSnoc(Digits(q, base), DIGIT_CHARS[r], base);
      DigitOfChar(r);
      Recompose(v, base);
    } else {
      ValueSnoc("", DIGIT_CHARS[v], base);
      TimesZero(base);
      DigitOfChar(v);
      assert "" + [DIGIT_CHARS[v]] == Digits(v, base);
    }
  }

  /** Every printed character is a digit of the base. */
  ghost predicate AllDigits(s: string, base: int) {
    forall k :: 0 <= k < |s| ==> DigitValue(s[k]) < base && IsLowerHex(s[k])
  }

  lemma {:induction false} DigitsAreDigits(v: nat, base: Radix)
    ensures AllDigits(Digits(v, base), base)
  {
    if v >= base {
      DigitsAreDigits(Quot(v, base), base);
      DigitOfChar(Rem(v, base));
    } else {
      DigitOfChar(v);
    }
  }

  /** A text that is all digits from `start` is read to its end. */
  lemma {:induction false} ReadsAll(s: string, start: nat, base: int)
    requires start <= |s| && AllDigits(s[start..], base)
    ensures DigitsEnd(s, start, base) == |s|
    decreases |s| - start
  {
    if start < |s| {
      assert s[start] == s[start..][0];
      assert s[start..][1..] == s[start + 1..];
      ReadsAll(s, start + 1, base);
    }
  }

  lemma PlainUnsigned(w: Word, base: Radix, c: char)
    requires (c == 'u' && base == 10) || (c == 'x' && base == 16)
    ensures ArgsFit(['%', c], 0, [Num(w)]) && Ideal(['%', c], 0, [Num(w)]) == Digits(w, base)
  {
    var fmt, args := ['%', c], [Num(w)];
    assert args[1..] == [];
    PlainDirective(fmt, 0, args);
    PlainPieces(1, c, args);
  }

  lemma PlainSigned(w: Word)
    ensures ArgsFit("%d", 0, [Num(w)])
    ensures Ideal("%d", 0, [Num(w)]) == SignedText(w)
  {
    assert Parse("%d", 1) == Directive(false, ' ', 0, 1);
    assert ArgsFit("%d", 2, []) && Ideal("%d", 2, []) == "";
  }

  function SignedText(w: Word): string {
    if Signed(w) < 0 then ['-'] + Digits(Magnitude(w), 10) else Digits(Magnitude(w), 10)
  }

  /** Printed digits start with neither a space nor 0x. */
  lemma NoPrefix(s: string, radix: Radix, base: int)
    requires AllDigits(s, radix) && |s| >= 1 && (radix == base || (radix == 10 && base == 0))
    ensures Prefix(s, base) == (radix as int, 0)
  {
    assert IsLowerHex(s[0]) && (|s| > 1 ==> IsLowerHex(s[1]));
  }

  lemma DigitsReadBack(w: Word, radix: Radix, base: int)
    requires radix == base || (radix == 10 && base == 0)
    ensures var s := Digits(w, radix);
      Prefix(s, base) == (radix as int, 0) && DigitsEnd(s, 0, radix) == |s| && Wrap(ValueOf(s[0..|s|], radix)) == w
  {
    var s := Digits(w, radix);
    DigitsAreDigits(w, radix);
    NoPrefix(s, radix, base);
    assert s[0..] == s && s[0..|s|] == s;
    ReadsAll(s, 0, radix);
    ValueOfDigits(w, radix);
  }

  /** strtoul reads back what %u (base 10, or 0) and %x (base 16) print, to the end,
      for every 32-bit value. */
  lemma StrToULUndoes(w: Word, c: char, base: int)
    requires (c == 'u' && (base == 10 || base == 0)) || (c == 'x' && base == 16)
    ensures ArgsFit(['%', c], 0, [Num(w)])
    ensures var s := Ideal(['%', c], 0, [Num(w)]);
      var (b, start) := Prefix(s, base);
      start == 0 && b > 0 && DigitsEnd(s, start, b) == |s| && Wrap(ValueOf(s[start..|s|], b)) == w
  {
    var radix := if c == 'u' then 10 else 16;
    PlainUnsigned(w, radix, c);
    DigitsReadBack(w, radix, base);
  }

  lemma SignedReadBack(w: Word)
    ensures AtoiExact(SignedText(w)) == Signed(w)
  {
    var s, m := SignedText(w), Magnitude(w);
    var digits := Digits(m, 10);
    var start := if Signed(w) < 0 then 1 else 0;
    DigitsAreDigits(m, 10);
    assert IsLowerHex(digits[0]);
    assert SignAndStart(s) == (Signed(w) < 0, start);
    assert s[start..] == digits && s[start..|s|] == digits;
    ReadsAll(s, start, 10);
    ValueOfDigits(m, 10);
  }

  /** atoi reads back what %d prints: the text says the value exactly, and it stays
      an int if and only if the value is above INT_MIN. */
  lemma AtoiUndoes(w: Word)
    ensures ArgsFit("%d", 0, [Num(w)])
    ensures var s := Ideal("%d", 0, [Num(w)]);
      AtoiExact(s) == Signed(w) && (-INT_MAX <= AtoiExact(s) <= INT_MAX <==> Signed(w) > INT_MIN)
  {
    PlainSigned(w);
    SignedReadBack(w);
  }
}
