/** `str.split` on one character, `str.join`, and decimal numerals. */
module Strings {

  function Split(text: string, separator: char): (parts: seq<string>)
    ensures |parts| >= 1
  {
    if text == [] then [[]]
    else
      var rest := Split(text[1..], separator);
      if text[0] == separator then [[]] + rest else [[text[0]] + rest[0]] + rest[1..]
  }

  function Join(parts: seq<string>, separator: char): string
    requires |parts| >= 1
  {
    if |parts| == 1 then parts[0] else parts[0] + [separator] + Join(parts[1..], separator)
  }

  ghost predicate Free(parts: seq<string>, separator: char) {
    forall i :: 0 <= i < |parts| ==> separator !in parts[i]
  }

  lemma {:induction false} SplitIsFree(text: string, separator: char)
    ensures Free(Split(text, separator), separator)
  {
    if text != [] {
      SplitIsFree(text[1..], separator);
    }
  }

  lemma {:induction false} JoinOfSplit(text: string, separator: char)
    ensures Join(Split(text, separator), separator) == text
  {
    if text != [] {
      var rest := Split(text[1..], separator);
      JoinOfSplit(text[1..], separator);
      assert text == [text[0]] + text[1..];
      if text[0] == separator {
        assert ([[]] + rest)[1..] == rest;
      } else {
        assert ([[text[0]] + rest[0]] + rest[1..])[1..] == rest[1..];
      }
    }
  }

  /** A separator-free head followed by the separator is split off as one part. */
  lemma {:induction false} SplitHead(head: string, tail: string, separator: char)
    requires separator !in head
    ensures Split(head + [separator] + tail, separator) == [head] + Split(tail, separator)
  {
    var text := head + [separator] + tail;
    if head == [] {
      assert text[1..] == tail;
    } else {
      assert text[1..] == head[1..] + [separator] + tail;
      SplitHead(head[1..], tail, separator);
      assert [head[0]] + head[1..] == head;
    }
  }

  lemma {:induction false} SplitWhole(text: string, separator: char)
    requires separator !in text
    ensures Split(text, separator) == [text]
  {
    if text != [] {
      SplitWhole(text[1..], separator);
      assert [text[0]] + text[1..] == text;
    }
  }

  lemma {:induction false} SplitOfJoin(parts: seq<string>, separator: char)
    requires |parts| >= 1 && Free(parts, separator)
    ensures Split(Join(parts, separator), separator) == parts
  {
    if |parts| == 1 {
      SplitWhole(parts[0], separator);
    } else {
      assert Free(parts[1..], separator);
      SplitOfJoin(parts[1..], separator);
      SplitHead(parts[0], Join(parts[1..], separator), separator);
      assert [parts[0]] + parts[1..] == parts;
    }
  }

  // ---------------------------------------------------------------- decimal numerals

  predicate IsDigit(c: char) {
    '0' <= c <= '9'
  }

  /** `str.isdigit()` on ASCII text */
  predicate IsDigits(text: string) {
    text != [] && forall i :: 0 <= i < |text| ==> IsDigit(text[i])
  }

  /** `int(text)` for a text of digits */
  function Numeral(text: string): nat
    requires forall i :: 0 <= i < |text| ==> IsDigit(text[i])
  {
    if text == [] then 0
    else
      assert IsDigit(text[|text| - 1]);
      10 * Numeral(text[..|text| - 1]) + (text[|text| - 1] as int - '0' as int)
  }

  function Digit(d: nat): char
    requires d < 10
  {
    ('0' as int + d) as char
  }

  /** `str(n)` */
  function Decimal(n: nat): (text: string)
    ensures IsDigits(text)
  {
    (if n < 10 then [] else Decimal(n / 10)) + [Digit(n % 10)]
  }

  lemma DecimalEnds(n: nat)
    ensures var text := Decimal(n);
      text[..|text| - 1] == (if n < 10 then [] else Decimal(n / 10)) && text[|text| - 1] == Digit(n % 10)
  {
    hide Numeral;
  }

  lemma {:induction false} NumeralOfDecimal(n: nat)
    ensures Numeral(Decimal(n)) == n
  {
    hide Decimal;
    DecimalEnds(n);
    if n >= 10 {
      NumeralOfDecimal(n / 10);
    }
  }

  /** A numeral starts with a zero only if it is that of zero. */
  lemma {:induction false} DecimalHasNoLeadingZero(n: nat)
    ensures Decimal(n)[0] == '0' <==> n == 0
  {
    if n >= 10 {
      DecimalHasNoLeadingZero(n / 10);
      assert Decimal(n)[0] == Decimal(n / 10)[0];
    }
  }

  lemma {:induction false} DecimalOfNumeral(text: string)
    requires IsDigits(text) && text[0] != '0'
    ensures Numeral(text) > 0 && Decimal(Numeral(text)) == text
  {
    hide Numeral, Decimal, IsDigit;
    NumeralEnds(text);
    if |text| > 1 {
      DecimalOfNumeral(text[..|text| - 1]);
      DecimalStep(Numeral(text[..|text| - 1]), text[|text| - 1] as int - '0' as int);
      assert text == text[..|text| - 1] + [text[|text| - 1]];
    } else {
      OneDigit(text[0] as int - '0' as int);
      assert text == [text[0]];
    }
  }

  lemma NumeralEnds(text: string)
    requires IsDigits(text)
    ensures '0' <= text[|text| - 1] <= '9'
    ensures Digit(text[|text| - 1] as int - '0' as int) == text[|text| - 1]
    ensures Numeral(text) == 10 * Numeral(text[..|text| - 1]) + (text[|text| - 1] as int - '0' as int)
    ensures |text| == 1 ==> Numeral(text[..|text| - 1]) == 0
  {
    assert IsDigit(text[|text| - 1]);
  }

  lemma OneDigit(d: nat)
    requires d < 10
    ensures Decimal(d) == [Digit(d)]
  {
    hide Digit;
    assert d % 10 == d;
  }

  lemma DecimalStep(n: nat, d: nat)
    requires n > 0 && d < 10
    ensures Decimal(10 * n + d) == Decimal(n) + [Digit(d)]
  {
    assert (10 * n + d) / 10 == n && (10 * n + d) % 10 == d;
  }

  lemma DecimalInjective(a: nat, b: nat)
    requires Decimal(a) == Decimal(b)
    ensures a == b
  {
    NumeralOfDecimal(a);
    NumeralOfDecimal(b);
  }

  // ---------------------------------------------------------------- whitespace and case

  /** `str.isspace()` for one character */
  predicate IsSpace(c: char) {
    || '\t' <= c <= '\r' || '\U{1C}' <= c <= ' ' || c == '\U{85}' || c == '\U{A0}' || c == '\U{1680}'
    || '\U{2000}' <= c <= '\U{200A}' || c == '\U{2028}' || c == '\U{2029}' || c == '\U{202F}'
    || c == '\U{205F}' || c == '\U{3000}'
  }

  function StripLeft(text: string): string {
    if text != [] && IsSpace(text[0]) then StripLeft(text[1..]) else text
  }

  function StripRight(text: string): string {
    if text != [] && IsSpace(text[|text| - 1]) then StripRight(text[..|text| - 1]) else text
  }

  /** `str.strip()` */
  function Strip(text: string): string {
    StripRight(StripLeft(text))
  }

  predicate Stripped(text: string) {
    text == [] || (!IsSpace(text[0]) && !IsSpace(text[|text| - 1]))
  }

  lemma StripOfStripped(text: string)
    requires Stripped(text)
    ensures Strip(text) == text
  {
  }

  function LowerChar(c: char): char {
    if 'A' <= c <= 'Z' then (c as int + 32) as char else c
  }

  /** `str.lower()` on ASCII text */
  function Lower(text: string): string {
    seq(|text|, i requires 0 <= i < |text| => LowerChar(text[i]))
  }
}
