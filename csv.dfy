/** The CSV file the export button offers: a header row, then one row per
    record with the description quoted, rows joined by newlines. */
module CsvExport {
  import opened Optional
  import opened Strings
  import opened Numerals
  import opened Expenses

  /** The header row's fields. */
  const HeaderFields: seq<string> := ["id", "amount", "category", "date", "description"]

  /** `description.replace(/"/g, '""')`: every double quote doubled. */
  function DoubleQuotes(d: string): string
  {
    if d == [] then [] else (if d[0] == '"' then "\"\"" else [d[0]]) + DoubleQuotes(d[1..])
  }

  /** The description field: its text, quotes doubled, between double quotes. */
  function QuoteField(d: string): string
  {
    "\"" + DoubleQuotes(d) + "\""
  }

  /** How `Array.prototype.join` writes the amount: its number text, or
      nothing when the field is missing. */
  function AmountField(amount: Option<int>): string
  {
    match amount
    case None => ""
    case Some(v) => AmountText(v)
  }

  /** The fields of one data row. */
  function RowFields(e: Expense): seq<string>
  {
    [e.id, AmountField(e.amount), e.category, e.date, QuoteField(e.description)]
  }

  function Row(e: Expense): string
  {
    Join(RowFields(e), ',')
  }

  function Rows(items: seq<Expense>): seq<string>
  {
    seq(|items|, k requires 0 <= k < |items| => Row(items[k]))
  }

  /** The whole file: `rows.map(r => r.join(',')).join('\n')`. */
  function Csv(items: seq<Expense>): string
  {
    Join([Join(HeaderFields, ',')] + Rows(items), '\n')
  }

  /** The export button: no file when there is nothing to export. */
  function Export(items: seq<Expense>): Option<string>
  {
    if items == [] then None else Some(Csv(items))
  }

  // A reader for the comma-separated lines this export writes, in the manner
  // of RFC 4180: a field that starts with a double quote runs to the next
  // lone double quote, with `""` standing for one quote; any other field
  // runs to the next comma.

  /** Reads an unquoted field: the text before the first comma, and what follows. */
  function ReadBare(s: string): (r: (string, string))
    ensures |r.1| <= |s| && (r.1 == [] || r.1[0] == ',')
  {
    if s == [] || s[0] == ',' then ([], s)
    else
      var (f, rest) := ReadBare(s[1..]);
      ([s[0]] + f, rest)
  }

  /** Reads the inside of a quoted field up to its closing quote, and what follows it. */
  function ReadQuoted(s: string): (r: Option<(string, string)>)
    ensures r.Some? ==> |r.value.1| < |s|
  {
    if s == [] then None
    else if s[0] == '"' then
      if |s| >= 2 && s[1] == '"' then
        match ReadQuoted(s[2..])
        case None => None
        case Some((f, rest)) => Some(("\"" + f, rest))
      else Some(([], s[1..]))
    else
      match ReadQuoted(s[1..])
      case None => None
      case Some((f, rest)) => Some(([s[0]] + f, rest))
  }

  function ReadField(s: string): (r: Option<(string, string)>)
    ensures r.Some? ==> |r.value.1| <= |s|
  {
    if s != [] && s[0] == '"' then ReadQuoted(s[1..]) else Some(ReadBare(s))
  }

  /** Reads a line into its fields; `None` for an unterminated quoted field or
      text after a closing quote. */
  function ReadFields(s: string): Option<seq<string>>
    decreases |s|
  {
    match ReadField(s)
    case None => None
    case Some((f, rest)) =>
      if rest == [] then Some([f])
      else if rest[0] != ',' then None
      else
        match ReadFields(rest[1..])
        case None => None
        case Some(fs) => Some([f] + fs)
  }

  /** A field that reads back unquoted: no comma and no leading quote. */
  predicate Bare(x: string)
  {
    ',' !in x && (x == [] || x[0] != '"')
  }

  /** Doubling leaves every character other than the quote where it was. */
  lemma {:induction false} DoubleQuotesChars(d: string, c: char)
    requires c != '"'
    ensures c in DoubleQuotes(d) <==> c in d
  {
    if d != [] {
      DoubleQuotesChars(d[1..], c);
      assert d == [d[0]] + d[1..];
    }
  }

  /** Text without quotes is left as it is. */
  lemma {:induction false} DoubleQuotesUnchanged(d: string)
    requires '"' !in d
    ensures DoubleQuotes(d) == d
  {
    if d != [] {
      DoubleQuotesUnchanged(d[1..]);
      assert d == [d[0]] + d[1..];
    }
  }

  /** The reader finds the closing quote after a doubled text and gives the text back. */
  lemma {:induction false} ReadQuotedDoubled(d: string, rest: string)
    requires rest == [] || rest[0] != '"'
    ensures ReadQuoted(DoubleQuotes(d) + "\"" + rest) == Some((d, rest))
  {
    var s := DoubleQuotes(d) + "\"" + rest;
    if d == [] {
      assert s == "\"" + rest;
      if |s| >= 2 {
        assert s[1..] == rest;
      }
    } else {
      ReadQuotedDoubled(d[1..], rest);
      var tail := DoubleQuotes(d[1..]) + "\"" + rest;
      if d[0] == '"' {
        assert s == "\"\"" + tail;
        assert s[2..] == tail;
      } else {
        assert s == [d[0]] + tail;
        assert s[1..] == tail;
      }
      assert [d[0]] + d[1..] == d;
    }
  }

  /** Stripping the outer quotes and un-doubling recovers the description. */
  lemma QuoteFieldRoundTrip(d: string)
    ensures ReadFields(QuoteField(d)) == Some([d])
  {
    var q := QuoteField(d);
    ReadQuotedDoubled(d, []);
    assert q[1..] == DoubleQuotes(d) + "\"" + [];
  }

  lemma {:induction false} ReadBarePrefix(x: string, rest: string)
    requires ',' !in x
    requires rest == [] || rest[0] == ','
    ensures ReadBare(x + rest) == (x, rest)
  {
    if x != [] {
      ReadBarePrefix(x[1..], rest);
      assert (x + rest)[1..] == x[1..] + rest;
      assert [x[0]] + x[1..] == x;
    } else {
      assert x + rest == rest;
    }
  }

  /** A bare field followed by a comma is read off the front of a line. */
  lemma ReadFieldsBare(x: string, tail: string)
    requires Bare(x)
    ensures ReadFields(x + "," + tail).None? <==> ReadFields(tail).None?
    ensures ReadFields(tail).Some? ==> ReadFields(x + "," + tail) == Some([x] + ReadFields(tail).value)
  {
    var s := x + "," + tail;
    ReadBarePrefix(x, "," + tail);
    assert s == x + ("," + tail);
    if x == [] {
      assert s[0] == ',';
    } else {
      assert s[0] == x[0];
    }
    assert ("," + tail)[1..] == tail;
  }

  /** The amount field never holds a comma or a quote. */
  lemma AmountFieldBare(amount: Option<int>)
    ensures Bare(AmountField(amount))
  {
    if amount.Some? {
      AmountTextChars(amount.value);
    }
  }

  /** Reading a data row gives back the record's five fields, provided the
      id, the category and the date hold no comma and do not start with a
      quote; the description may hold anything. */
  lemma RowRoundTrip(e: Expense)
    requires Bare(e.id) && Bare(e.category) && Bare(e.date)
    ensures ReadFields(Row(e)) == Some([e.id, AmountField(e.amount), e.category, e.date, e.description])
  {
    AmountFieldBare(e.amount);
    RowText(e);
    ReadFourThenQuoted(e.id, AmountField(e.amount), e.category, e.date, e.description);
  }

  /** A row spelled out: four fields and the quoted description, with commas between. */
  lemma RowText(e: Expense)
    ensures Row(e) == e.id + "," + (AmountField(e.amount) + "," + (e.category + "," +
                      (e.date + "," + QuoteField(e.description))))
  {
    var fs := RowFields(e);
    var q := QuoteField(e.description);
    assert Join(fs[4..], ',') == q;
    assert Join(fs[3..], ',') == e.date + "," + q;
    assert Join(fs[2..], ',') == e.category + "," + (e.date + "," + q);
    assert Join(fs[1..], ',') == AmountField(e.amount) + "," + (e.category + "," + (e.date + "," + q));
  }

  lemma ReadFourThenQuoted(w: string, x: string, y: string, z: string, d: string)
    requires Bare(w) && Bare(x) && Bare(y) && Bare(z)
    ensures ReadFields(w + "," + (x + "," + (y + "," + (z + "," + QuoteField(d))))) == Some([w, x, y, z, d])
  {
    var t2 := y + "," + (z + "," + QuoteField(d));
    ReadTwoThenQuoted(y, z, d);
    ReadFieldsBare(x, t2);
    assert [x] + [y, z, d] == [x, y, z, d];
    ReadFieldsBare(w, x + "," + t2);
    assert [w] + [x, y, z, d] == [w, x, y, z, d];
  }

  lemma ReadTwoThenQuoted(y: string, z: string, d: string)
    requires Bare(y) && Bare(z)
    ensures ReadFields(y + "," + (z + "," + QuoteField(d))) == Some([y, z, d])
  {
    var q := QuoteField(d);
    QuoteFieldRoundTrip(d);
    ReadFieldsBare(z, q);
    assert [z] + [d] == [z, d];
    ReadFieldsBare(y, z + "," + q);
    assert [y] + [z, d] == [y, z, d];
  }

  /** Neither the header nor a row holds a newline when the record's fields do not. */
  lemma RowNoNewline(e: Expense)
    requires '\n' !in e.id && '\n' !in e.category && '\n' !in e.date && '\n' !in e.description
    ensures '\n' !in Row(e)
  {
    AmountFieldBare(e.amount);
    AmountTextChars(if e.amount.Some? then e.amount.value else 0);
    assert '\n' !in AmountField(e.amount);
    DoubleQuotesChars(e.description, '\n');
    assert '\n' !in QuoteField(e.description);
    var fs := RowFields(e);
    assert forall k :: 0 <= k < |fs| ==> '\n' !in fs[k];
    JoinFree(fs, ',', '\n');
  }

  /** The export gives no file exactly when there are no records; otherwise
      the file's lines are the header and one row per record, in order, when
      no field holds a newline. */
  lemma ExportLines(items: seq<Expense>)
    requires forall k :: 0 <= k < |items| ==>
               '\n' !in items[k].id && '\n' !in items[k].category &&
               '\n' !in items[k].date && '\n' !in items[k].description
    ensures Export(items).None? <==> items == []
    ensures Export(items).Some? ==> Split(Export(items).value, '\n') == [Join(HeaderFields, ',')] + Rows(items)
  {
    CsvLines(items);
  }

  /** The file is the header line followed by one line per record, in order:
      splitting it at newlines gives exactly those lines when no field holds one. */
  lemma CsvLines(items: seq<Expense>)
    requires forall k :: 0 <= k < |items| ==>
               '\n' !in items[k].id && '\n' !in items[k].category &&
               '\n' !in items[k].date && '\n' !in items[k].description
    ensures Split(Csv(items), '\n') == [Join(HeaderFields, ',')] + Rows(items)
    ensures |Split(Csv(items), '\n')| == |items| + 1
  {
    var lines := [Join(HeaderFields, ',')] + Rows(items);
    JoinFree(HeaderFields, ',', '\n');
    forall k | 0 <= k < |lines| ensures '\n' !in lines[k] {
      if k > 0 {
        RowNoNewline(items[k - 1]);
      }
    }
    SplitJoin(lines, '\n');
  }
}
