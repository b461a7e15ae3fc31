/** Decimal text of numbers, as JavaScript's `String(n)` writes it. */
module Numerals {
  import opened Optional
  import opened Strings

  predicate IsDigit(c: char)
  {
    '0' <= c <= '9'
  }

  predicate AllDigits(s: string)
  {
    forall k :: 0 <= k < |s| ==> IsDigit(s[k])
  }

  function Digit(d: int): char
    requires 0 <= d < 10
  {
    ('0' as int + d) as char
  }

  function DigitValue(c: char): nat
  {
    if IsDigit(c) then c as int - '0' as int else 0
  }

  /** The value of a string of decimal digits. */
  function DigitsValue(s: string): nat
  {
    if s == [] then 0 else DigitsValue(s[..|s| - 1]) * 10 + DigitValue(s[|s| - 1])
  }

  /** `String(n)` for a non-negative integer: its decimal digits, without
      leading zeros. */
  function NatText(n: nat): (r: string)
    ensures 1 <= |r| && AllDigits(r)
    ensures |r| == 1 <==> n < 10
  {
    if n < 10 then [Digit(n)] else NatText(n / 10) + [Digit(n % 10)]
  }

  /** Reading back the digits written for `n` gives `n`. */
  lemma {:induction false} NatTextValue(n: nat)
    ensures DigitsValue(NatText(n)) == n
  {
    if n >= 10 {
      NatTextValue(n / 10);
      var t := NatText(n / 10) + [Digit(n % 10)];
      assert t[..|t| - 1] == NatText(n / 10);
    }
  }

  /** Only the number zero is written with a leading zero. */
  lemma {:induction false} NatTextNoLeadingZero(n: nat)
    ensures n >= 10 ==> NatText(n)[0] != '0'
  {
    if n >= 10 {
      NatTextNoLeadingZero(n / 10);
      assert NatText(n)[0] == NatText(n / 10)[0];
    }
  }

  /** A number of 1000 to 9999 is written with four digits. */
  lemma NatTextFourDigits(n: nat)
    requires 1000 <= n < 10000
    ensures |NatText(n)| == 4
  {
    var a := n / 10;
    var b := a / 10;
    var c := b / 10;
    assert |NatText(c)| == 1;
    assert NatText(b) == NatText(c) + [Digit(b % 10)];
    assert NatText(a) == NatText(b) + [Digit(a % 10)];
    assert NatText(n) == NatText(a) + [Digit(n % 10)];
  }

  /** `String(i)` for any integer: a minus sign before the digits of a negative number. */
  function IntText(i: int): string
  {
    if i < 0 then "-" + NatText(-i) else NatText(i)
  }

  /** The fraction part JavaScript writes for `cents / 100`: nothing for a
      whole number, and no trailing zero otherwise. */
  function CentsText(cents: nat): string
    requires cents < 100
  {
    if cents == 0 then ""
    else if cents % 10 == 0 then "." + [Digit(cents / 10)]
    else "." + [Digit(cents / 10), Digit(cents % 10)]
  }

  /** `String(amount)` for an amount held as a whole number of paise: the
      shortest decimal text of `paise / 100`. */
  function AmountText(paise: int): string
  {
    var w := if paise < 0 then -paise else paise;
    (if paise < 0 then "-" else "") + NatText(w / 100) + CentsText(w % 100)
  }

  /** Reads a decimal amount with at most two fraction digits into paise. */
  function ParseAmount(s: string): Option<int>
  {
    if s != [] && s[0] == '-' then
      match ParseUnsigned(s[1..])
      case Some(v) => Some(-(v as int))
      case None => None
    else ParseUnsigned(s)
  }

  /** Reads digits, optionally followed by a point and one or two digits, into paise. */
  function ParseUnsigned(s: string): Option<nat>
  {
    var parts := Split(s, '.');
    if parts[0] == [] || !AllDigits(parts[0]) then None
    else if |parts| == 1 then Some(DigitsValue(parts[0]) * 100)
    else if |parts| == 2 && 1 <= |parts[1]| <= 2 && AllDigits(parts[1]) then
      Some(DigitsValue(parts[0]) * 100 + FractionValue(parts[1]))
    else None
  }

  /** The paise that one or two fraction digits stand for. */
  function FractionValue(f: string): nat
  {
    if |f| == 1 then DigitsValue(f) * 10 else DigitsValue(f)
  }

  /** The text of an amount holds only digits, a minus sign and a decimal point. */
  lemma AmountTextChars(paise: int)
    ensures forall k :: 0 <= k < |AmountText(paise)| ==>
              IsDigit(AmountText(paise)[k]) || AmountText(paise)[k] in "-."
  {
  }

  /** The fraction digits written for a non-zero number of cents read back as those cents. */
  lemma CentsTextValue(cents: nat)
    requires 0 < cents < 100
    ensures |CentsText(cents)| >= 2 && CentsText(cents)[0] == '.'
    ensures var f := CentsText(cents)[1..];
      1 <= |f| <= 2 && AllDigits(f) && '.' !in f && FractionValue(f) == cents
  {
    var hi, lo := Digit(cents / 10), Digit(cents % 10);
    assert DigitValue(hi) == cents / 10 && DigitValue(lo) == cents % 10;
    assert [hi][..0] == [];
    assert DigitsValue([hi]) == cents / 10;
    if cents % 10 != 0 {
      var f := [hi, lo];
      assert f[..1] == [hi];
      assert DigitsValue(f) == DigitsValue([hi]) * 10 + DigitValue(lo);
    }
  }

  /** Reading back the unsigned text written for a whole number of rupees
      and some cents gives their paise. */
  lemma UnsignedRoundTrip(whole: nat, cents: nat)
    requires cents < 100
    ensures ParseUnsigned(NatText(whole) + CentsText(cents)) == Some(whole * 100 + cents)
  {
    if cents == 0 {
      WholeRoundTrip(whole);
    } else {
      PointedRoundTrip(whole, cents);
    }
  }

  lemma WholeRoundTrip(whole: nat)
    ensures ParseUnsigned(NatText(whole) + CentsText(0)) == Some(whole * 100)
  {
    var digits := NatText(whole);
    NatTextValue(whole);
    assert '.' !in digits;
    assert digits + CentsText(0) == digits;
    SplitNoSep(digits, '.');
  }

  lemma PointedRoundTrip(whole: nat, cents: nat)
    requires 0 < cents < 100
    ensures ParseUnsigned(NatText(whole) + CentsText(cents)) == Some(whole * 100 + cents)
  {
    NatTextValue(whole);
    CentsTextValue(cents);
    ReadDigitsThenCents(NatText(whole), CentsText(cents));
  }

  lemma ReadDigitsThenCents(digits: string, tail: string)
    requires digits != [] && AllDigits(digits)
    requires |tail| >= 2 && tail[0] == '.'
    requires 1 <= |tail[1..]| <= 2 && AllDigits(tail[1..]) && '.' !in tail[1..]
    ensures ParseUnsigned(digits + tail) == Some(DigitsValue(digits) * 100 + FractionValue(tail[1..]))
  {
    assert '.' !in digits;
    assert digits + tail == digits + ['.'] + tail[1..];
    ReadPointed(digits, tail[1..]);
  }

  /** Digits, a point and one or two digits read as rupees and cents. */
  lemma ReadPointed(digits: string, f: string)
    requires digits != [] && AllDigits(digits) && '.' !in digits
    requires 1 <= |f| <= 2 && AllDigits(f) && '.' !in f
    ensures ParseUnsigned(digits + ['.'] + f) == Some(DigitsValue(digits) * 100 + FractionValue(f))
  {
    SplitPointed(digits, f);
  }

  lemma SplitPointed(digits: string, f: string)
    requires '.' !in digits && '.' !in f
    ensures Split(digits + ['.'] + f, '.') == [digits, f]
  {
    SplitAtSep(digits, '.', f);
    SplitNoSep(f, '.');
  }

  /** Reading back the text written for an amount gives the amount. */
  lemma AmountTextRoundTrip(paise: int)
    ensures ParseAmount(AmountText(paise)) == Some(paise)
  {
    var w := if paise < 0 then -paise else paise;
    var body := NatText(w / 100) + CentsText(w % 100);
    UnsignedRoundTrip(w / 100, w % 100);
    assert w / 100 * 100 + w % 100 == w;
    assert body[0] == NatText(w / 100)[0];
    if paise < 0 {
      var s := AmountText(paise);
      assert s == "-" + body;
      assert s[0] == '-' && s[1..] == body;
    } else {
      assert AmountText(paise) == body;
    }
  }
}
