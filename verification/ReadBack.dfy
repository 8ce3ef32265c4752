/**
 * Numbers printed with any flags and any width are read back: spaces on either side,
 * zeros behind the sign, and the padding never makes the text shorter than asked.
 */
module ReadBack {
  import opened Words
  import opened Format
  import opened Numbers

  /** Spaces, a sign, digits, spaces. */
  function Layout(before: nat, negative: bool, digits: string, after: nat): string {
    Repeat(' ', before) + (if negative then "-" else "") + digits + Repeat(' ', after)
  }

  lemma {:induction false} SkipTo(s: string, k: nat, j: nat)
    requires k <= j <= |s| && (forall m :: k <= m < j ==> s[m] == ' ') && (j < |s| ==> s[j] != ' ')
    ensures SkipSpaces(s, k) == j
    decreases j - k
  {
    if k < j {
      SkipTo(s, k + 1, j);
    }
  }

  lemma StopsAt(s: string, i: nat, e: nat, base: int)
    requires i <= e <= |s| && (forall m :: i <= m < e ==> DigitValue(s[m]) < base)
    requires e < |s| ==> DigitValue(s[e]) >= base
    ensures DigitsEnd(s, i, base) == e
  {
  }

  /** Where the parts of a layout are. */
  lemma LayoutParts(before: nat, negative: bool, digits: string, after: nat, base: Radix)
    requires digits != "" && AllDigits(digits, base)
    ensures
      var s := Layout(before, negative, digits, after);
      var i := before + if negative then 1 else 0;
      && |s| == i + |digits| + after && s[i..i + |digits|] == digits
      && SkipSpaces(s, 0) == before && (negative ==> s[before] == '-')
      && DigitsEnd(s, i, base) == i + |digits|
  {
    var s := Layout(before, negative, digits, after);
    var i := before + if negative then 1 else 0;
    assert s[i..i + |digits|] == digits;
    forall m | i <= m < i + |digits| ensures DigitValue(s[m]) < base && IsLowerHex(s[m]) {
      assert s[m] == digits[m - i];
    }
    SkipTo(s, 0, before);
    StopsAt(s, i, i + |digits|, base);
  }

  lemma {:induction false} LeadingZeros(n: nat, digits: string, base: nat)
    ensures ValueOf(Repeat('0', n) + digits, base) == ValueOf(digits, base)
    decreases n + |digits|
  {
    if digits != "" {
      var init, c := digits[..|digits| - 1], digits[|digits| - 1];
      assert Repeat('0', n) + digits == (Repeat('0', n) + init) + [c] && digits == init + [c];
      LeadingZeros(n, init, base);
      ValueSnoc(Repeat('0', n) + init, c, base);
      ValueSnoc(init, c, base);
    } else if n > 0 {
      assert Repeat('0', n) + digits == (Repeat('0', n - 1) + "") + ['0'];
      LeadingZeros(n - 1, "", base);
      ValueSnoc(Repeat('0', n - 1) + "", '0', base);
      TimesZero(base);
    }
  }

  /** How much padding a text of n characters needs. */
  function Gap(n: nat, width: int): nat {
    if width > n then width - n else 0
  }

  function Sign(negative: bool): string {
    if negative then "-" else ""
  }

  lemma PaddedAfter(negative: bool, digits: string, width: int, pad: char)
    ensures
      var gap := Gap(|Sign(negative)| + |digits|, width);
      && Padded(Sign(negative) + digits, width, true, pad) == Layout(0, negative, digits, gap)
      && (negative ==> ['-'] + Padded(digits, width - 1, true, pad) == Layout(0, negative, digits, gap))
  {
  }

  lemma PaddedBefore(negative: bool, digits: string, width: int)
    ensures
      Padded(Sign(negative) + digits, width, false, ' ') ==
      Layout(Gap(|Sign(negative)| + |digits|, width), negative, digits, 0)
  {
  }

  lemma PaddedZeros(negative: bool, digits: string, width: int)
    ensures
      var gap := Gap(|Sign(negative)| + |digits|, width);
      && (negative ==> ['-'] + Padded(digits, width - 1, false, '0') == Layout(0, true, Repeat('0', gap) + digits, 0))
      && (!negative ==> Padded(digits, width, false, '0') == Layout(0, false, Repeat('0', gap) + digits, 0))
  {
  }

  /** The printed number is a layout, its padding on the side and of the kind asked for. */
  lemma NumberLayout(value: Word, base: Radix, negative: bool, width: int, left: bool, pad: char)
    returns (before: nat, zeros: nat, after: nat)
    requires pad == ' ' || pad == '0'
    ensures NumberText(value, base, negative, width, left, pad) ==
              Layout(before, negative, Repeat('0', zeros) + Digits(value, base), after)
    ensures before + zeros + after == Gap(|Sign(negative)| + |Digits(value, base)|, width)
    ensures (zeros > 0 ==> !left && pad == '0') && (before > 0 ==> !left && pad == ' ') && (after > 0 ==> left)
  {
    var digits := Digits(value, base);
    var gap := Gap(|Sign(negative)| + |digits|, width);
    assert Repeat('0', 0) + digits == digits;
    assert Sign(negative) + digits == if negative then ['-'] + digits else digits;
    if left {
      PaddedAfter(negative, digits, width, pad);
      before, zeros, after := 0, 0, gap;
    } else if pad == '0' {
      PaddedZeros(negative, digits, width);
      before, zeros, after := 0, gap, 0;
    } else {
      PaddedBefore(negative, digits, width);
      before, zeros, after := gap, 0, 0;
    }
  }

  lemma ZerosAndDigits(zeros: nat, value: nat, base: Radix)
    ensures
      var text := Repeat('0', zeros) + Digits(value, base);
      text != "" && AllDigits(text, base) && ValueOf(text, base) == value
  {
    DigitsAreDigits(value, base);
    LeadingZeros(zeros, Digits(value, base), base);
    ValueOfDigits(value, base);
  }

  lemma {:induction false} WidthSoFar(fmt: string, i: nat, j: nat)
    requires i <= |fmt| && i <= j <= WidthEnd(fmt, i)
    ensures Width(fmt, i, 0) == Width(fmt, j, ValueOf(fmt[i..j], 10)) && WidthEnd(fmt, j) == WidthEnd(fmt, i)
    decreases j - i
  {
    if i < j {
      WidthSoFar(fmt, i, j - 1);
      ValueExtends(fmt, i, j - 1);
    }
  }

  /** The width of a directive is the decimal number written there. */
  lemma WidthIsNumber(fmt: string, i: nat)
    requires i <= |fmt|
    ensures Width(fmt, i, 0) == ValueOf(fmt[i..WidthEnd(fmt, i)], 10)
  {
    WidthSoFar(fmt, i, WidthEnd(fmt, i));
  }

  /** A format that is one directive. */
  ghost predicate IsDirective(fmt: string, c: char) {
    |fmt| >= 2 && fmt[0] == '%' && Parse(fmt, 1).letter == |fmt| - 1 && fmt[|fmt| - 1] == c
  }

  lemma OneDirective(fmt: string, c: char, arg: Arg)
    requires IsDirective(fmt, c) && TakesArg(c) && ArgFits(c, [arg])
    ensures ArgsFit(fmt, 0, [arg]) && Ideal(fmt, 0, [arg]) == Piece(Parse(fmt, 1), c, [arg])
  {
    assert [arg][1..] == [];
    assert ArgsFit(fmt, |fmt|, []) && Ideal(fmt, |fmt|, []) == "";
  }

  lemma LayoutSigned(before: nat, negative: bool, digits: string, after: nat)
    requires digits != "" && AllDigits(digits, 10)
    ensures AtoiExact(Layout(before, negative, digits, after)) ==
      if negative then -(ValueOf(digits, 10) as int) else ValueOf(digits, 10)
  {
    LayoutParts(before, negative, digits, after, 10);
    var s := Layout(before, negative, digits, after);
    if !negative {
      assert s[before] == digits[0];
      assert IsLowerHex(digits[0]);
    }
  }

  lemma LayoutUnsigned(before: nat, digits: string, after: nat, radix: Radix, base: int)
    requires digits != "" && AllDigits(digits, radix) && (radix == base || (radix == 10 && base == 0))
    ensures
      var s := Layout(before, false, digits, after);
      && Prefix(s, base) == (radix as int, before) && DigitsEnd(s, before, radix) == before + |digits|
      && s[before..before + |digits|] == digits
  {
    LayoutParts(before, false, digits, after, radix);
    var s := Layout(before, false, digits, after);
    assert s[before] == digits[0];
    if before + 1 < |s| {
      assert s[before + 1] == if |digits| > 1 then digits[1] else ' ';
      assert |digits| > 1 ==> IsLowerHex(digits[1]);
    }
  }

  /** atoi reads back what %d prints, with any flags and any width. */
  lemma AtoiUndoesAny(fmt: string, w: Word)
    requires IsDirective(fmt, 'd')
    ensures ArgsFit(fmt, 0, [Num(w)]) && AtoiExact(Ideal(fmt, 0, [Num(w)])) == Signed(w)
  {
    OneDirective(fmt, 'd', Num(w));
    var d := Parse(fmt, 1);
    var before, zeros, after := NumberLayout(Magnitude(w), 10, Signed(w) < 0, d.width, d.left, d.pad);
    ZerosAndDigits(zeros, Magnitude(w), 10);
    LayoutSigned(before, Signed(w) < 0, Repeat('0', zeros) + Digits(Magnitude(w), 10), after);
  }

  /** The number strtoul finds in a text, of which it returns the last 32 bits. */
  function Said(s: string, base: int): nat
    requires 0 <= base
  {
    var (b, start) := Prefix(s, base);
    if b > 0 then ValueOf(s[start..DigitsEnd(s, start, b)], b) else 0
  }

  lemma LayoutValue(s: string, before: nat, digits: string, after: nat, radix: Radix, base: int)
    requires digits != "" && AllDigits(digits, radix) && (radix == base || (radix == 10 && base == 0))
    requires s == Layout(before, false, digits, after)
    ensures Said(s, base) == ValueOf(digits, radix)
  {
    LayoutUnsigned(before, digits, after, radix, base);
  }

  ghost predicate ReadsAs(digits: string, radix: Radix, w: Word) {
    digits != "" && AllDigits(digits, radix) && ValueOf(digits, radix) == w
  }

  /** s is padding around digits that say w. */
  ghost predicate IsPadded(s: string, radix: Radix, w: Word) {
    exists before, digits, after :: s == Layout(before, false, digits, after) && ReadsAs(digits, radix, w)
  }

  lemma UnsignedLayout(s: string, w: Word, radix: Radix, d: Directive)
    requires (d.pad == ' ' || d.pad == '0') && s == NumberText(w, radix, false, d.width, d.left, d.pad)
    ensures IsPadded(s, radix, w)
  {
    var before, zeros, after := NumberLayout(w, radix, false, d.width, d.left, d.pad);
    ZerosAndDigits(zeros, w, radix);
    assert ReadsAs(Repeat('0', zeros) + Digits(w, radix), radix, w);
  }

  lemma PaddedUnsigned(s: string, w: Word, radix: Radix, base: int)
    requires (radix == base || (radix == 10 && base == 0)) && IsPadded(s, radix, w)
    ensures Said(s, base) == w
  {
    var before, digits, after :| s == Layout(before, false, digits, after) && ReadsAs(digits, radix, w);
    LayoutValue(s, before, digits, after, radix, base);
  }

  /** strtoul reads back what %u, %x and %o print, with any flags and any width. */
  lemma StrToULUndoesAny(fmt: string, w: Word, c: char, base: int)
    requires IsDirective(fmt, c)
    requires (c == 'u' && (base == 10 || base == 0)) || (c == 'x' && base == 16) || (c == 'o' && base == 8)
    ensures ArgsFit(fmt, 0, [Num(w)]) && Said(Ideal(fmt, 0, [Num(w)]), base) == w
  {
    OneDirective(fmt, c, Num(w));
    var s, radix := Ideal(fmt, 0, [Num(w)]), if c == 'u' then 10 else if c == 'x' then 16 else 8;
    UnsignedLayout(s, w, radix, Parse(fmt, 1));
    PaddedUnsigned(s, w, radix, base);
  }

  // ---------- Other spellings of numbers ----------

  /** Small and capital letters are digits, and nothing else is. */
  lemma DigitChars(c: char, d: nat)
    requires d < 16
    ensures DigitValue(c) == d <==> c == "0123456789abcdef"[d] || c == "0123456789ABCDEF"[d]
    ensures DigitValue(c) < 16 || DigitValue(c) == 99
  {
  }

  /** 0x or 0X in front is read in base 16, and also makes base 0 mean 16. */
  lemma HexReadBack(before: nat, x: char, w: Word, base: int)
    requires x in {'x', 'X'} && base in {0, 16}
    ensures Said(Repeat(' ', before) + ['0', x] + Digits(w, 16), base) == w
  {
    var digits := Digits(w, 16);
    DigitsAreDigits(w, 16);
    HexDigitsFound(before, x, digits, base);
    ValueOfDigits(w, 16);
  }

  lemma HexDigitsFound(before: nat, x: char, digits: string, base: int)
    requires x in {'x', 'X'} && base in {0, 16} && AllDigits(digits, 16)
    ensures var s := Repeat(' ', before) + ['0', x] + digits;
      && Prefix(s, base) == (16, before + 2) && DigitsEnd(s, before + 2, 16) == |s| && s[before + 2..|s|] == digits
  {
    var s := Repeat(' ', before) + ['0', x] + digits;
    SkipTo(s, 0, before);
    assert s[before] == '0' && s[before + 1] == x && s[before + 2..] == digits;
    ReadsAll(s, before + 2, 16);
  }

  /** A + in front makes no difference to atoi. */
  lemma PlusReadBack(before: nat, n: nat)
    ensures AtoiExact(Repeat(' ', before) + "+" + Digits(n, 10)) == n
  {
    var digits := Digits(n, 10);
    var s := Repeat(' ', before) + "+" + digits;
    DigitsAreDigits(n, 10);
    ValueOfDigits(n, 10);
    SkipTo(s, 0, before);
    assert s[before + 1..] == digits && s[before + 1..|s|] == digits;
    ReadsAll(s, before + 1, 10);
  }
}
