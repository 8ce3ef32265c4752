/**
 * What each directive of a format writes, in terms of its spelling and its argument:
 * `%`, then `-`, then `0`, then a width, then a letter.  Everything else in a format
 * is copied.
 */
module Directives {
  import opened Words
  import opened Format
  import opened Numbers
  import opened ReadBack

  // ---------- Spelling ----------

  function Spelled(left: bool, zero: bool, width: string, c: char): string {
    ['%'] + (if left then "-" else "") + (if zero then "0" else "") + width + [c]
  }

  ghost predicate OnlyDigits(s: string) {
    forall k :: 0 <= k < |s| ==> IsDigit(s[k])
  }

  /** A spelling that reads one way only: a width does not start with the flag 0, and the
      letter is no flag. */
  ghost predicate SpellingOk(left: bool, zero: bool, width: string, c: char) {
    && OnlyDigits(width) && !IsDigit(c)
    && (!zero && width != "" ==> width[0] != '0')
    && (c == '-' ==> left || zero || width != "")
  }

  /** The text stands in the format from position i on. */
  ghost predicate StandsAt(fmt: string, i: nat, text: string) {
    i + |text| <= |fmt| && fmt[i..i + |text|] == text
  }

  lemma {:induction false} WidthStops(fmt: string, i: nat, e: nat)
    requires i <= e < |fmt| && (forall k :: i <= k < e ==> IsDigit(fmt[k])) && !IsDigit(fmt[e])
    ensures WidthEnd(fmt, i) == e
    decreases e - i
  {
    if i < e {
      WidthStops(fmt, i + 1, e);
    }
  }

  /** Where the parts of a spelling are. */
  lemma SpelledParts(fmt: string, i: nat, left: bool, zero: bool, width: string, c: char)
    requires StandsAt(fmt, i, Spelled(left, zero, width, c))
    ensures
      var j := i + 1 + (if left then 1 else 0);
      var w := j + if zero then 1 else 0;
      && fmt[i] == '%' && (left ==> fmt[i + 1] == '-') && (zero ==> fmt[j] == '0')
      && w + |width| < |fmt| && fmt[w..w + |width|] == width && fmt[w + |width|] == c
      && w + |width| + 1 == i + |Spelled(left, zero, width, c)|
  {
    var s := Spelled(left, zero, width, c);
    var j := 1 + (if left then 1 else 0);
    var w := j + if zero then 1 else 0;
    assert s[0] == '%' && (left ==> s[1] == '-') && (zero ==> s[j] == '0') && s[w + |width|] == c;
    assert s[w..w + |width|] == width;
    forall k | 0 <= k < |s| ensures fmt[i + k] == s[k] {
      assert fmt[i..i + |s|][k] == s[k];
    }
    assert fmt[i + 0] == s[0] && fmt[i + 1] == s[1] && fmt[i + j] == s[j] && fmt[i + (w + |width|)] == s[w + |width|];
    assert fmt[i + w..i + w + |width|] == width;
  }

  lemma ReadFlags(fmt: string, i: nat, left: bool, zero: bool)
    requires i <= |fmt| && (CharAt(fmt, i) == '-' <==> left)
    requires CharAt(fmt, if left then i + 1 else i) == '0' <==> zero
    ensures
      var w := i + (if left then 1 else 0) + if zero then 1 else 0;
      w <= |fmt| && Parse(fmt, i) == Directive(left, if zero then '0' else ' ', Width(fmt, w, 0), WidthEnd(fmt, w))
  {
  }

  /** The first characters after the '%' tell which flags there are. */
  lemma FlagsAreThere(fmt: string, i: nat, left: bool, zero: bool, width: string, c: char)
    requires StandsAt(fmt, i, Spelled(left, zero, width, c)) && SpellingOk(left, zero, width, c)
    ensures
      var j := i + 1 + if left then 1 else 0;
      && (CharAt(fmt, i + 1) == '-' <==> left) && (CharAt(fmt, j) == '0' <==> zero)
  {
    SpelledParts(fmt, i, left, zero, width, c);
    var j := i + 1 + (if left then 1 else 0);
    if !zero && width != "" {
      assert fmt[j] == fmt[j..j + |width|][0] == width[0];
    }
  }

  /** It is read as it is spelled. */
  lemma ReadAsSpelled(fmt: string, i: nat, left: bool, zero: bool, width: string, c: char)
    requires StandsAt(fmt, i, Spelled(left, zero, width, c)) && SpellingOk(left, zero, width, c)
    ensures var end := i + |Spelled(left, zero, width, c)|;
      && end <= |fmt| && fmt[end - 1] == c
      && Parse(fmt, i + 1) == Directive(left, if zero then '0' else ' ', ValueOf(width, 10), end - 1)
  {
    SpelledParts(fmt, i, left, zero, width, c);
    FlagsAreThere(fmt, i, left, zero, width, c);
    ReadFlags(fmt, i + 1, left, zero);
    WidthRead(fmt, i + 1 + (if left then 1 else 0) + (if zero then 1 else 0), width);
  }

  lemma WidthRead(fmt: string, w: nat, width: string)
    requires w + |width| < |fmt| && fmt[w..w + |width|] == width && OnlyDigits(width) && !IsDigit(fmt[w + |width|])
    ensures WidthEnd(fmt, w) == w + |width| && Width(fmt, w, 0) == ValueOf(width, 10)
  {
    forall k | w <= k < w + |width| ensures IsDigit(fmt[k]) {
      assert fmt[w..w + |width|][k - w] == width[k - w];
    }
    WidthStops(fmt, w, w + |width|);
    WidthIsNumber(fmt, w);
  }

  // ---------- The pieces ----------

  function Max(a: int, b: int): int {
    if a >= b then a else b
  }

  /** own is at the left or at the right end of r, which is as wide as asked, with spaces
      for the rest. */
  ghost predicate Justified(r: string, own: string, width: int, left: bool) {
    && |r| == Max(width, |own|)
    && (if left then r[..|own|] == own else r[|r| - |own|..] == own)
    && forall k :: 0 <= k < |r| && (if left then k >= |own| else k < |r| - |own|) ==> r[k] == ' '
  }

  lemma PaddedJustifies(own: string, width: int, left: bool)
    ensures Justified(Padded(own, width, left, ' '), own, width, left)
  {
  }

  /** %s writes the string, or (null) for a NULL pointer, and %c the character: at the
      left end of its field with the flag -, otherwise at the right end; the flag 0 makes
      no difference. */
  lemma TextPieces(d: Directive, arg: Arg, rest: seq<Arg>)
    ensures arg.Str? ==> Justified(Piece(d, 's', [arg] + rest), arg.text, d.width, d.left)
    ensures arg.Null? ==> Justified(Piece(d, 's', [arg] + rest), "(null)", d.width, d.left)
    ensures arg.Num? ==> Justified(Piece(d, 'c', [arg] + rest), [(arg.word % 256) as char], d.width, d.left)
  {
    match arg
    case Str(text) => PaddedJustifies(text, d.width, d.left);
    case Null => PaddedJustifies("(null)", d.width, d.left);
    case Num(word) => PaddedJustifies([(word % 256) as char], d.width, d.left);
  }

  /** A number starts with 0 only if it is 0. */
  lemma {:induction false} NoLeadingZero(v: nat, base: Radix)
    ensures Digits(v, base)[0] == '0' <==> v == 0
  {
    if v >= base {
      NoLeadingZero(Quot(v, base), base);
    }
  }

  /** The directive at i writes its piece, and the format goes on behind it with the
      arguments it has not taken. */
  lemma DirectiveWrites(fmt: string, i: nat, left: bool, zero: bool, width: string, c: char, args: seq<Arg>)
    requires StandsAt(fmt, i, Spelled(left, zero, width, c)) && SpellingOk(left, zero, width, c)
    requires ArgsFit(fmt, i, args)
    ensures ArgFits(c, args) && (c in {'s', 'c', 'd', 'u', 'x', 'o'} ==> args != [])
    ensures
      var end := i + |Spelled(left, zero, width, c)|;
      var rest := if c in {'s', 'c', 'd', 'u', 'x', 'o'} then args[1..] else args;
      && end <= |fmt| && ArgsFit(fmt, end, rest)
      && Ideal(fmt, i, args) ==
        Piece(Directive(left, if zero then '0' else ' ', ValueOf(width, 10), end - 1), c, args) + Ideal(fmt, end, rest)
  {
    ReadAsSpelled(fmt, i, left, zero, width, c);
    assert StandsAt(fmt, i, Spelled(left, zero, width, c)) && fmt[i] == '%' by {
      SpelledParts(fmt, i, left, zero, width, c);
    }
  }

  /** `%%` writes one %, and a letter without a meaning is written with its %; neither
      takes an argument, nor does any flag or width matter. */
  lemma OtherLetters(d: Directive, c: char, args: seq<Arg>)
    requires c !in {'s', 'c', 'd', 'u', 'x', 'o'}
    ensures ArgFits(c, args) && Piece(d, c, args) == if c == '%' then "%" else "%" + [c]
  {
  }

  /** A % at the end of the format, with or without flags and width, writes nothing. */
  lemma LonePercent(fmt: string, i: nat, args: seq<Arg>)
    requires i < |fmt| && fmt[i] == '%'
    requires forall k :: i < k < |fmt| ==> IsDigit(fmt[k]) || (k == i + 1 && fmt[k] == '-')
    ensures ArgsFit(fmt, i, args) && Ideal(fmt, i, args) == ""
  {
    var j := if CharAt(fmt, i + 1) == '-' then i + 2 else i + 1;
    DigitsToEnd(fmt, j);
    if CharAt(fmt, j) == '0' {
      DigitsToEnd(fmt, j + 1);
    }
  }

  lemma {:induction false} DigitsToEnd(fmt: string, i: nat)
    requires i <= |fmt| && forall k :: i <= k < |fmt| ==> IsDigit(fmt[k])
    ensures WidthEnd(fmt, i) == |fmt|
    decreases |fmt| - i
  {
    if i < |fmt| {
      DigitsToEnd(fmt, i + 1);
    }
  }

  /** What is not a directive is copied. */
  lemma {:induction false} PlainTextCopied(fmt: string, i: nat, j: nat, args: seq<Arg>)
    requires i <= j <= |fmt| && ArgsFit(fmt, i, args) && forall k :: i <= k < j ==> fmt[k] != '%'
    ensures ArgsFit(fmt, j, args) && Ideal(fmt, i, args) == fmt[i..j] + Ideal(fmt, j, args)
    decreases j - i
  {
    if i == j {
      assert fmt[i..j] == "";
    } else {
      PlainTextCopied(fmt, i + 1, j, args);
      Assoc([fmt[i]], fmt[i + 1..j], Ideal(fmt, j, args));
      assert [fmt[i]] + fmt[i + 1..j] == fmt[i..j];
    }
  }
}
