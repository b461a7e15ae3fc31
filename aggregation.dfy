/** The running total of `updateTotal` and the pie-chart series of
    `updateChart`: per-category totals in first-seen order, their values and
    their colours. */
module Aggregation {
  import opened Expenses
  import opened Seqs

  /** `items.reduce((s, i) => s + Number(i.amount || 0), 0)`. */
  function GrandTotal(items: seq<Expense>): int
  {
    if items == [] then 0 else GrandTotal(items[..|items| - 1]) + Contribution(items[|items| - 1])
  }

  /** The chart's keys, `Object.keys(map)`: each record's category (or
      `'Other'`) in the order it is first met. */
  function Labels(items: seq<Expense>): seq<string>
  {
    if items == [] then []
    else
      var seen := Labels(items[..|items| - 1]);
      var c := CategoryKey(items[|items| - 1]);
      if c in seen then seen else seen + [c]
  }

  /** The amount `updateChart` accumulates under key `c`. */
  function CategoryTotal(items: seq<Expense>, c: string): int
  {
    if items == [] then 0
    else
      var last := items[|items| - 1];
      CategoryTotal(items[..|items| - 1], c) + (if CategoryKey(last) == c then Contribution(last) else 0)
  }

  /** The chart's data array, `labels.map(l => map[l])`. */
  function Totals(labels: seq<string>, items: seq<Expense>): (r: seq<int>)
    ensures |r| == |labels|
  {
    if labels == [] then []
    else Totals(labels[..|labels| - 1], items) + [CategoryTotal(items, labels[|labels| - 1])]
  }

  /** The index of the first record counted under `c`, or the number of
      records when there is none. */
  function FirstSeen(items: seq<Expense>, c: string): (f: nat)
    ensures f <= |items|
  {
    if items == [] then 0
    else
      var n := |items| - 1;
      var f := FirstSeen(items[..n], c);
      if f < n then f else if CategoryKey(items[n]) == c then n else |items|
  }

  /** `CHART_COLORS`. */
  const Palette: seq<string> :=
    ["#FF8A65", "#FF6384", "#FFCE56", "#4BC0C0", "#36A2EB", "#9CCC65", "#7E57C2", "#FF7043", "#26A69A"]

  /** `labels.map((_, i) => CHART_COLORS[i % CHART_COLORS.length])`. */
  function Colors(n: nat): seq<string>
  {
    seq(n, i requires 0 <= i < n => Palette[i % |Palette|])
  }

  /** What `updateChart` hands to the chart library. */
  datatype PieSeries = PieSeries(labels: seq<string>, data: seq<int>, colors: seq<string>)

  /** The loop of `updateChart` that fills `map`: one pass over the records,
      adding each amount under its category and recording each new key. */
  method CategoryTotals(items: seq<Expense>) returns (labels: seq<string>, totals: map<string, int>)
    ensures labels == Labels(items)
    ensures forall c :: c in totals <==> c in labels
    ensures forall c :: c in totals ==> totals[c] == CategoryTotal(items, c)
  {
    labels, totals := [], map[];
    var i := 0;
    while i < |items|
      invariant 0 <= i <= |items|
      invariant labels == Labels(items[..i])
      invariant forall c :: c in totals <==> c in labels
      invariant forall c :: c in totals ==> totals[c] == CategoryTotal(items[..i], c)
    {
      assert items[..i + 1][..i] == items[..i];
      var c := CategoryKey(items[i]);
      var before := if c in totals then totals[c] else 0;
      if c !in totals {
        labels := labels + [c];
        LabelsAbsent(items[..i], c);
      }
      totals := totals[c := before + Contribution(items[i])];
      i := i + 1;
    }
    assert items[..i] == items;
  }

  /** `updateChart` without its drawing: the labels, values and colours of
      the pie, whose values add up to the grand total. */
  method ChartSeries(items: seq<Expense>) returns (series: PieSeries)
    ensures series.labels == Labels(items)
    ensures |series.data| == |series.labels| && |series.colors| == |series.labels|
    ensures forall k :: 0 <= k < |series.labels| ==>
              series.data[k] == CategoryTotal(items, series.labels[k]) &&
              series.colors[k] == Palette[k % |Palette|]
    ensures Sum(series.data) == GrandTotal(items)
  {
    var labels, totals := CategoryTotals(items);
    var data := seq(|labels|, k requires 0 <= k < |labels| => totals[labels[k]]);
    TotalsAt(labels, items);
    assert data == Totals(labels, items);
    LabelsSum(items);
    series := PieSeries(labels, data, Colors(|labels|));
  }

  lemma {:induction false} TotalsAt(labels: seq<string>, items: seq<Expense>)
    ensures forall k :: 0 <= k < |labels| ==> Totals(labels, items)[k] == CategoryTotal(items, labels[k])
  {
    if labels != [] {
      TotalsAt(labels[..|labels| - 1], items);
    }
  }

  /** The total of a concatenation is the sum of the totals. */
  lemma {:induction false} GrandTotalAppend(a: seq<Expense>, b: seq<Expense>)
    ensures GrandTotal(a + b) == GrandTotal(a) + GrandTotal(b)
  {
    if b == [] {
      assert a + b == a;
    } else {
      GrandTotalAppend(a, b[..|b| - 1]);
      assert (a + b)[..|a + b| - 1] == a + b[..|b| - 1];
    }
  }

  /** Splitting the records by any test splits the total. */
  lemma {:induction false} GrandTotalSplit(items: seq<Expense>, p: Expense -> bool)
    ensures GrandTotal(items) == GrandTotal(Filter(items, p)) + GrandTotal(Filter(items, (e: Expense) => !p(e)))
  {
    if items != [] {
      var init, x := items[..|items| - 1], items[|items| - 1];
      var q := (e: Expense) => !p(e);
      GrandTotalSplit(init, p);
      assert GrandTotal([x]) == Contribution(x) by {
        assert [x][..0] == [];
      }
      if p(x) {
        assert Filter(items, p) == Filter(init, p) + [x];
        assert Filter(items, q) == Filter(init, q) + [];
        assert Filter(init, q) + [] == Filter(init, q);
        GrandTotalAppend(Filter(init, p), [x]);
      } else {
        assert Filter(items, p) == Filter(init, p) + [];
        assert Filter(items, q) == Filter(init, q) + [x];
        assert Filter(init, p) + [] == Filter(init, p);
        GrandTotalAppend(Filter(init, q), [x]);
      }
    }
  }

  /** The total under `c` is the total of the records counted under `c`. */
  lemma {:induction false} CategoryTotalIsFilteredTotal(items: seq<Expense>, c: string)
    ensures CategoryTotal(items, c) == GrandTotal(Filter(items, (e: Expense) => CategoryKey(e) == c))
  {
    if items != [] {
      var init, x := items[..|items| - 1], items[|items| - 1];
      var p := (e: Expense) => CategoryKey(e) == c;
      CategoryTotalIsFilteredTotal(init, c);
      assert GrandTotal([x]) == Contribution(x) by {
        assert [x][..0] == [];
      }
      if p(x) {
        assert Filter(items, p) == Filter(init, p) + [x];
        GrandTotalAppend(Filter(init, p), [x]);
      } else {
        assert Filter(items, p) == Filter(init, p) + [];
        assert Filter(init, p) + [] == Filter(init, p);
      }
    }
  }

  /** Records with a missing or empty category, and those filed as
      `'Other'`, are counted together under `'Other'`; no key is empty. */
  lemma OtherBucket(items: seq<Expense>)
    ensures CategoryTotal(items, "Other") ==
            GrandTotal(Filter(items, (e: Expense) => e.category == "" || e.category == "Other"))
    ensures "" !in Labels(items)
  {
    var p := (e: Expense) => CategoryKey(e) == "Other";
    var q := (e: Expense) => e.category == "" || e.category == "Other";
    CategoryTotalIsFilteredTotal(items, "Other");
    FilterSame(items, p, q);
    LabelsMembership(items, "");
  }

  /** A key that is not among the labels has nothing counted under it. */
  lemma {:induction false} LabelsAbsent(items: seq<Expense>, c: string)
    requires c !in Labels(items)
    ensures CategoryTotal(items, c) == 0
  {
    if items != [] {
      var init := items[..|items| - 1];
      assert c !in Labels(init);
      LabelsAbsent(init, c);
    }
  }

  /** A key is among the labels exactly when some record is counted under it. */
  lemma {:induction false} LabelsMembership(items: seq<Expense>, c: string)
    ensures c in Labels(items) <==> exists k :: 0 <= k < |items| && CategoryKey(items[k]) == c
  {
    if items != [] {
      var init := items[..|items| - 1];
      LabelsMembership(init, c);
      if exists k :: 0 <= k < |init| && CategoryKey(init[k]) == c {
        var k :| 0 <= k < |init| && CategoryKey(init[k]) == c;
        assert items[k] == init[k];
      }
      if exists k :: 0 <= k < |items| && CategoryKey(items[k]) == c {
        var k :| 0 <= k < |items| && CategoryKey(items[k]) == c;
        if k < |init| {
          assert init[k] == items[k];
        }
      }
    }
  }

  /** Each key appears once. */
  lemma {:induction false} LabelsDistinct(items: seq<Expense>)
    ensures forall i, j :: 0 <= i < j < |Labels(items)| ==> Labels(items)[i] != Labels(items)[j]
  {
    if items != [] {
      LabelsDistinct(items[..|items| - 1]);
    }
  }

  /** `FirstSeen` finds the first record counted under `c`, if any. */
  lemma {:induction false} FirstSeenSpec(items: seq<Expense>, c: string)
    ensures FirstSeen(items, c) < |items| ==> CategoryKey(items[FirstSeen(items, c)]) == c
    ensures forall q :: 0 <= q < FirstSeen(items, c) && q < |items| ==> CategoryKey(items[q]) != c
    ensures c in Labels(items) <==> FirstSeen(items, c) < |items|
  {
    if items != [] {
      var n := |items| - 1;
      var init := items[..n];
      FirstSeenSpec(init, c);
      forall q | 0 <= q < FirstSeen(items, c) && q < |items| ensures CategoryKey(items[q]) != c {
        if q < n {
          assert items[q] == init[q];
        }
      }
    }
  }

  /** The keys are in first-seen order: a key listed earlier was met earlier. */
  lemma {:induction false} LabelsFirstSeenOrder(items: seq<Expense>)
    ensures forall i, j :: 0 <= i < j < |Labels(items)| ==>
              FirstSeen(items, Labels(items)[i]) < FirstSeen(items, Labels(items)[j])
  {
    if items != [] {
      var n := |items| - 1;
      var init := items[..n];
      var seen := Labels(init);
      LabelsFirstSeenOrder(init);
      forall k | 0 <= k < |seen| ensures FirstSeen(items, seen[k]) == FirstSeen(init, seen[k]) < n {
        FirstSeenSpec(init, seen[k]);
      }
      var c := CategoryKey(items[n]);
      if c !in seen {
        FirstSeenSpec(init, c);
        assert FirstSeen(items, c) == n;
        var all := seen + [c];
        assert Labels(items) == all;
        forall i, j | 0 <= i < j < |all| ensures FirstSeen(items, all[i]) < FirstSeen(items, all[j]) {
          if j == |seen| {
            assert all[i] == seen[i];
          } else {
            assert all[i] == seen[i] && all[j] == seen[j];
          }
        }
      }
    }
  }

  /** Adding one record to the totals of distinct keys adds its amount once
      if its key is among them. */
  lemma {:induction false} TotalsStep(labels: seq<string>, items: seq<Expense>, x: Expense)
    requires forall i, j :: 0 <= i < j < |labels| ==> labels[i] != labels[j]
    ensures Sum(Totals(labels, items + [x])) ==
            Sum(Totals(labels, items)) + (if CategoryKey(x) in labels then Contribution(x) else 0)
  {
    if labels != [] {
      var init := labels[..|labels| - 1];
      TotalsStep(init, items, x);
      var s := items + [x];
      assert s[..|s| - 1] == items;
      var a := Totals(init, s) + [CategoryTotal(s, labels[|labels| - 1])];
      var b := Totals(init, items) + [CategoryTotal(items, labels[|labels| - 1])];
      assert a[..|a| - 1] == Totals(init, s);
      assert b[..|b| - 1] == Totals(init, items);
      assert CategoryKey(x) in labels <==> CategoryKey(x) in init || CategoryKey(x) == labels[|labels| - 1];
    }
  }

  /** The category totals add up to the grand total: the pie shows every amount once. */
  lemma {:induction false} LabelsSum(items: seq<Expense>)
    ensures Sum(Totals(Labels(items), items)) == GrandTotal(items)
  {
    if items != [] {
      var init, x := items[..|items| - 1], items[|items| - 1];
      assert items == init + [x];
      var seen := Labels(init);
      LabelsSum(init);
      LabelsDistinct(init);
      TotalsStep(seen, init, x);
      var c := CategoryKey(x);
      if c !in seen {
        LabelsAbsent(init, c);
        var t := Totals(seen + [c], items);
        assert t[..|t| - 1] == Totals(seen, items);
        assert (seen + [c])[..|seen|] == seen;
      }
    }
  }

  /** The colours cycle through the palette. */
  lemma ColorsCycle(n: nat, i: nat)
    requires i + |Palette| < n
    ensures Colors(n)[i + |Palette|] == Colors(n)[i]
  {
    assert (i + 9) % 9 == i % 9;
  }

  lemma PaletteDistinct()
    ensures forall a, b :: 0 <= a < b < |Palette| ==> Palette[a] != Palette[b]
  {
    forall a, b | 0 <= a < b < |Palette| ensures Palette[a] != Palette[b] {
      assert Palette[a][1..3] != Palette[b][1..3] || Palette[a][3..] != Palette[b][3..];
    }
  }

  /** Keys fewer than nine places apart get different colours. */
  lemma ColorsNearDiffer(n: nat, i: nat, j: nat)
    requires i < j < n && j - i < |Palette|
    ensures Colors(n)[i] != Colors(n)[j]
  {
    PaletteDistinct();
    assert i % 9 != j % 9;
  }
}
