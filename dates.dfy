/** `getTodayDate`: the `YYYY-MM-DD` text the entry form defaults to, and why
    comparing such texts orders records by calendar date. */
module Dates {
  import opened Optional
  import opened Strings
  import opened Numerals

  /** `s.padStart(width, fill)` with a one-character fill. */
  function PadStart(s: string, width: nat, fill: char): string
  {
    if |s| >= width then s else seq(width - |s|, _ => fill) + s
  }

  /** `String(v).padStart(2, '0')`. */
  function TwoDigits(v: nat): string
  {
    PadStart(NatText(v), 2, '0')
  }

  /** `getTodayDate()`, given the clock's full year, its zero-based month
      (`getMonth()`) and its day of the month (`getDate()`). */
  function TodayText(year: int, monthIndex: int, day: int): string
    requires 0 <= monthIndex < 12 && 1 <= day <= 31
  {
    IntText(year) + "-" + TwoDigits(monthIndex + 1) + "-" + TwoDigits(day)
  }

  datatype CalendarDate = CalendarDate(year: int, month: int, day: int)

  /** `a` falls on or before `b` in the calendar. */
  predicate OnOrBefore(a: CalendarDate, b: CalendarDate)
  {
    a.year < b.year || (a.year == b.year && (a.month < b.month || (a.month == b.month && a.day <= b.day)))
  }

  /** Reads a `YYYY-MM-DD` text. */
  function ParseIsoDate(s: string): Option<CalendarDate>
  {
    if |s| == 10 && s[4] == '-' && s[7] == '-' && AllDigits(s[..4]) && AllDigits(s[5..7]) && AllDigits(s[8..]) then
      Some(CalendarDate(DigitsValue(s[..4]), DigitsValue(s[5..7]), DigitsValue(s[8..])))
    else None
  }

  /** Padding leaves a long enough string alone and otherwise puts just enough
      fill characters before it. */
  lemma PadStartSpec(s: string, width: nat, fill: char)
    ensures var r := PadStart(s, width, fill);
      |r| == (if |s| >= width then |s| else width) &&
      r[|r| - |s|..] == s &&
      forall k :: 0 <= k < |r| - |s| ==> r[k] == fill
  {
  }

  /** A number below 100 is written as exactly two digits that read back as it. */
  lemma TwoDigitsSpec(v: nat)
    requires v < 100
    ensures TwoDigits(v) == [Digit(v / 10), Digit(v % 10)]
    ensures DigitsValue(TwoDigits(v)) == v
  {
    var t := [Digit(v / 10), Digit(v % 10)];
    if v >= 10 {
      assert NatText(v) == NatText(v / 10) + [Digit(v % 10)];
    }
    assert DigitValue(Digit(v / 10)) == v / 10 && DigitValue(Digit(v % 10)) == v % 10;
    assert t[..1] == [Digit(v / 10)] && [Digit(v / 10)][..0] == [];
    assert DigitsValue([Digit(v / 10)]) == v / 10;
    assert DigitsValue(t) == DigitsValue([Digit(v / 10)]) * 10 + DigitValue(Digit(v % 10));
    assert TwoDigits(v) == t;
  }

  /** For a year of four digits, the default date reads back as that calendar date. */
  lemma TodayTextRoundTrip(year: int, monthIndex: int, day: int)
    requires 1000 <= year <= 9999 && 0 <= monthIndex < 12 && 1 <= day <= 31
    ensures ParseIsoDate(TodayText(year, monthIndex, day)) == Some(CalendarDate(year, monthIndex + 1, day))
  {
    var y, m, d := NatText(year), TwoDigits(monthIndex + 1), TwoDigits(day);
    NatTextFourDigits(year);
    NatTextValue(year);
    TwoDigitsSpec(monthIndex + 1);
    TwoDigitsSpec(day);
    var s := TodayText(year, monthIndex, day);
    assert s == y + "-" + m + "-" + d;
    assert s[..4] == y && s[5..7] == m && s[8..] == d;
  }

  /** Comparing two texts that share an equal-length first part compares the
      first parts, and the rest only when those are equal. */
  lemma {:induction false} LexLeConcat(a1: string, a2: string, b1: string, b2: string)
    requires |a1| == |b1|
    ensures LexLe(a1 + a2, b1 + b2) <==> (a1 != b1 && LexLe(a1, b1)) || (a1 == b1 && LexLe(a2, b2))
  {
    if a1 != [] {
      LexLeConcat(a1[1..], a2, b1[1..], b2);
      assert (a1 + a2)[1..] == a1[1..] + a2;
      assert (b1 + b2)[1..] == b1[1..] + b2;
      assert a1 == [a1[0]] + a1[1..] && b1 == [b1[0]] + b1[1..];
    } else {
      assert a1 + a2 == a2 && b1 + b2 == b2;
    }
  }

  /** Digit strings of one length have different values when they differ. */
  lemma {:induction false} DigitsValueInjective(a: string, b: string)
    requires |a| == |b| && AllDigits(a) && AllDigits(b)
    requires DigitsValue(a) == DigitsValue(b)
    ensures a == b
  {
    if a != [] {
      var n := |a| - 1;
      assert DigitValue(a[n]) == DigitValue(b[n]);
      DigitsValueInjective(a[..n], b[..n]);
      assert a == a[..n] + [a[n]] && b == b[..n] + [b[n]];
    }
  }

  /** On digit strings of one length, text order is numeric order. */
  lemma {:induction false} DigitsLexOrder(a: string, b: string)
    requires |a| == |b| && AllDigits(a) && AllDigits(b)
    ensures LexLe(a, b) <==> DigitsValue(a) <= DigitsValue(b)
  {
    if a != [] {
      var n := |a| - 1;
      var a', b' := a[..n], b[..n];
      DigitsLexOrder(a', b');
      LexLeConcat(a', [a[n]], b', [b[n]]);
      assert a == a' + [a[n]] && b == b' + [b[n]];
      if a' != b' && DigitsValue(a') == DigitsValue(b') {
        DigitsValueInjective(a', b');
      }
    }
  }

  /** Equal-length digit strings: strictly before in text order exactly when
      smaller in value, and equal exactly when equal in value. */
  lemma DigitsCompare(a: string, b: string)
    requires |a| == |b| && AllDigits(a) && AllDigits(b)
    ensures (a != b && LexLe(a, b)) <==> DigitsValue(a) < DigitsValue(b)
    ensures a == b <==> DigitsValue(a) == DigitsValue(b)
    ensures LexLe(a, b) <==> DigitsValue(a) <= DigitsValue(b)
  {
    DigitsLexOrder(a, b);
    if DigitsValue(a) == DigitsValue(b) {
      DigitsValueInjective(a, b);
    }
  }

  /** A date text put together from its fields. */
  function Compose(y: string, m: string, d: string): string
  {
    y + ("-" + (m + ("-" + d)))
  }

  lemma DashLe(x: string, y: string)
    ensures LexLe("-" + x, "-" + y) <==> LexLe(x, y)
  {
    assert ("-" + x)[1..] == x && ("-" + y)[1..] == y;
  }

  /** Date texts whose fields have fixed widths compare field by field:
      year first, then month, then day. */
  lemma ComposeOrder(ya: string, ma: string, da: string, yb: string, mb: string, db: string)
    requires |ya| == |yb| && |ma| == |mb|
    ensures LexLe(Compose(ya, ma, da), Compose(yb, mb, db)) <==>
            (ya != yb && LexLe(ya, yb)) ||
            (ya == yb && ((ma != mb && LexLe(ma, mb)) || (ma == mb && LexLe(da, db))))
  {
    var ta, tb := "-" + (ma + ("-" + da)), "-" + (mb + ("-" + db));
    assert Compose(ya, ma, da) == ya + ta && Compose(yb, mb, db) == yb + tb;
    LexLeConcat(ya, ta, yb, tb);
    DashLe(ma + ("-" + da), mb + ("-" + db));
    LexLeConcat(ma, "-" + da, mb, "-" + db);
    DashLe(da, db);
  }

  /** The digit fields of a default date with a four-digit year. */
  lemma TodayTextFields(year: int, monthIndex: int, day: int)
    requires 1000 <= year <= 9999 && 0 <= monthIndex < 12 && 1 <= day <= 31
    ensures TodayText(year, monthIndex, day) == Compose(NatText(year), TwoDigits(monthIndex + 1), TwoDigits(day))
    ensures |NatText(year)| == 4 && DigitsValue(NatText(year)) == year
    ensures |TwoDigits(monthIndex + 1)| == 2 && AllDigits(TwoDigits(monthIndex + 1))
    ensures DigitsValue(TwoDigits(monthIndex + 1)) == monthIndex + 1
    ensures |TwoDigits(day)| == 2 && AllDigits(TwoDigits(day)) && DigitsValue(TwoDigits(day)) == day
  {
    NatTextFourDigits(year);
    NatTextValue(year);
    TwoDigitsSpec(monthIndex + 1);
    TwoDigitsSpec(day);
  }

  /** Texts written for dates with four-digit years compare as the dates do:
      this is why ordering records by their date text orders them in time. */
  lemma TodayTextOrder(y1: int, mi1: int, d1: int, y2: int, mi2: int, d2: int)
    requires 1000 <= y1 <= 9999 && 0 <= mi1 < 12 && 1 <= d1 <= 31
    requires 1000 <= y2 <= 9999 && 0 <= mi2 < 12 && 1 <= d2 <= 31
    ensures LexLe(TodayText(y1, mi1, d1), TodayText(y2, mi2, d2)) <==>
            OnOrBefore(CalendarDate(y1, mi1 + 1, d1), CalendarDate(y2, mi2 + 1, d2))
  {
    var ya, ma, da := NatText(y1), TwoDigits(mi1 + 1), TwoDigits(d1);
    var yb, mb, db := NatText(y2), TwoDigits(mi2 + 1), TwoDigits(d2);
    TodayTextFields(y1, mi1, d1);
    TodayTextFields(y2, mi2, d2);
    ComposeOrder(ya, ma, da, yb, mb, db);
    DigitsCompare(ya, yb);
    DigitsCompare(ma, mb);
    DigitsCompare(da, db);
  }
}
