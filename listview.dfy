/** The expense list of `renderExpenses`: the stored records newest first,
    narrowed by the category selector and the search box. */
module ListView {
  import opened Expenses
  import opened Strings
  import opened Seqs

  /** Puts `x` after the records dated later than it and before the rest. */
  function Insert(x: Expense, s: seq<Expense>): seq<Expense>
  {
    if s == [] then [x]
    else if LexLe(s[0].date, x.date) then [x] + s
    else [s[0]] + Insert(x, s[1..])
  }

  /** `items.sort((a, b) => new Date(b.date) - new Date(a.date))`: newest first. */
  function SortByDateDesc(s: seq<Expense>): seq<Expense>
  {
    if s == [] then [] else Insert(s[0], SortByDateDesc(s[1..]))
  }

  /** No record is dated later than one listed before it. */
  ghost predicate NewestFirst(s: seq<Expense>)
  {
    forall i, j :: 0 <= i < j < |s| ==> LexLe(s[j].date, s[i].date)
  }

  lemma {:induction false} InsertCount(x: Expense, s: seq<Expense>)
    ensures multiset(Insert(x, s)) == multiset(s) + multiset{x}
  {
    if s != [] && !LexLe(s[0].date, x.date) {
      InsertCount(x, s[1..]);
      assert s == [s[0]] + s[1..];
    }
  }

  lemma {:induction false} InsertSorted(x: Expense, s: seq<Expense>)
    requires NewestFirst(s)
    ensures NewestFirst(Insert(x, s))
  {
    if s == [] {
    } else if LexLe(s[0].date, x.date) {
      InsertAtFront(x, s);
    } else {
      var rest := Insert(x, s[1..]);
      InsertSorted(x, s[1..]);
      InsertCount(x, s[1..]);
      LexLeTotal(s[0].date, x.date);
      NotNewerThanFirst(x, s, rest);
      ConsNewestFirst(s[0], rest);
    }
  }

  /** A record no older than the first of a newest-first list may go in front of it. */
  lemma InsertAtFront(x: Expense, s: seq<Expense>)
    requires NewestFirst(s) && s != [] && LexLe(s[0].date, x.date)
    ensures NewestFirst([x] + s)
  {
    var r := [x] + s;
    forall i, j | 0 <= i < j < |r| ensures LexLe(r[j].date, r[i].date) {
      if i == 0 {
        if j > 1 {
          LexLeTransitive(s[j - 1].date, s[0].date, x.date);
        }
      } else {
        assert r[i] == s[i - 1] && r[j] == s[j - 1];
      }
    }
  }

  /** The records of `s` after the first, and `x` dated before it, are all
      dated no later than `s[0]`. */
  lemma NotNewerThanFirst(x: Expense, s: seq<Expense>, rest: seq<Expense>)
    requires NewestFirst(s) && s != [] && LexLe(x.date, s[0].date)
    requires multiset(rest) == multiset(s[1..]) + multiset{x}
    ensures forall k :: 0 <= k < |rest| ==> LexLe(rest[k].date, s[0].date)
  {
    forall k | 0 <= k < |rest| ensures LexLe(rest[k].date, s[0].date) {
      assert rest[k] in multiset(rest);
      if rest[k] != x {
        assert rest[k] in multiset(s[1..]);
        var m :| 0 <= m < |s[1..]| && s[1..][m] == rest[k];
        assert s[m + 1] == rest[k];
      }
    }
  }

  /** A newest-first list stays so behind a record no older than any of it. */
  lemma ConsNewestFirst(y: Expense, rest: seq<Expense>)
    requires NewestFirst(rest)
    requires forall k :: 0 <= k < |rest| ==> LexLe(rest[k].date, y.date)
    ensures NewestFirst([y] + rest)
  {
    var r := [y] + rest;
    forall i, j | 0 <= i < j < |r| ensures LexLe(r[j].date, r[i].date) {
      if i == 0 {
        assert r[j] == rest[j - 1];
      } else {
        assert r[i] == rest[i - 1] && r[j] == rest[j - 1];
      }
    }
  }

  /** Sorting orders the records newest first and neither adds nor drops any. */
  lemma {:induction false} SortSpec(s: seq<Expense>)
    ensures NewestFirst(SortByDateDesc(s))
    ensures multiset(SortByDateDesc(s)) == multiset(s)
  {
    if s != [] {
      SortSpec(s[1..]);
      InsertSorted(s[0], SortByDateDesc(s[1..]));
      InsertCount(s[0], SortByDateDesc(s[1..]));
      assert s == [s[0]] + s[1..];
    }
  }

  /** Holds of the records dated `d`. */
  function OnDate(d: string): Expense -> bool
  {
    (e: Expense) => e.date == d
  }

  lemma {:induction false} InsertStable(x: Expense, s: seq<Expense>, d: string)
    ensures Filter(Insert(x, s), OnDate(d)) == (if x.date == d then [x] else []) + Filter(s, OnDate(d))
  {
    var p := OnDate(d);
    if s == [] {
      FilterCons(x, [], p);
    } else if LexLe(s[0].date, x.date) {
      FilterCons(x, s, p);
    } else {
      LexLeReflexive(x.date);
      InsertStable(x, s[1..], d);
      assert s == [s[0]] + s[1..];
      FilterPastFirst(s[0], x, Insert(x, s[1..]), s[1..], p);
    }
  }

  /** Moving `x` past a first element that the test does not accept together
      with it leaves the filtered sequence as it was. */
  lemma FilterPastFirst(y: Expense, x: Expense, t: seq<Expense>, rest: seq<Expense>, p: Expense -> bool)
    requires !(p(y) && p(x))
    requires Filter(t, p) == (if p(x) then [x] else []) + Filter(rest, p)
    ensures Filter([y] + t, p) == (if p(x) then [x] else []) + Filter([y] + rest, p)
  {
    var hx, hy := (if p(x) then [x] else []), (if p(y) then [y] else []);
    var ft, fr := Filter(t, p), Filter(rest, p);
    FilterCons(y, t, p);
    FilterCons(y, rest, p);
    assert ft == hx + fr;
    assert hx == [] || hy == [];
    calc {
      Filter([y] + t, p);
      hy + ft;
      hy + (hx + fr);
      { assert hy + hx == hx + hy; }
      hx + (hy + fr);
      hx + Filter([y] + rest, p);
    }
  }

  /** The sort is stable: the records of any one date keep their stored order. */
  lemma {:induction false} SortStable(s: seq<Expense>, d: string)
    ensures Filter(SortByDateDesc(s), OnDate(d)) == Filter(s, OnDate(d))
  {
    if s != [] {
      SortStable(s[1..], d);
      InsertStable(s[0], SortByDateDesc(s[1..]), d);
      FilterCons(s[0], s[1..], OnDate(d));
      assert s == [s[0]] + s[1..];
    }
  }

  /** The callback given to `items.filter` in `renderExpenses`; `search` is
      the lower-cased search text and `filter` the selected category. */
  predicate Shown(e: Expense, search: string, filter: string)
  {
    if filter != "All" && e.category != filter then false
    else if search == "" then true
    else Includes(Lower(e.description), search) || Includes(Lower(e.category), search)
  }

  function Matches(search: string, filter: string): Expense -> bool
  {
    (e: Expense) => Shown(e, search, filter)
  }

  /** The selector's value, `'All'` when it has none. */
  function Selected(filterInput: string): string
  {
    if filterInput == "" then "All" else filterInput
  }

  /** The records `renderExpenses` lists for the text in the search box and
      the value of the category selector. */
  function Visible(items: seq<Expense>, searchInput: string, filterInput: string): seq<Expense>
  {
    Filter(SortByDateDesc(items), Matches(Lower(searchInput), Selected(filterInput)))
  }

  /** Filtering keeps the newest-first order. */
  lemma {:induction false} FilterNewestFirst(s: seq<Expense>, p: Expense -> bool)
    requires NewestFirst(s)
    ensures NewestFirst(Filter(s, p))
  {
    if s != [] {
      var init, x := s[..|s| - 1], s[|s| - 1];
      FilterNewestFirst(init, p);
      var f := Filter(init, p);
      forall k | 0 <= k < |f| ensures LexLe(x.date, f[k].date) {
        FilterMembership(init, p, f[k]);
        var i :| 0 <= i < |init| && init[i] == f[k];
      }
    }
  }

  /** The list is an order-preserving selection of the sorted records, and
      it is itself newest first. */
  lemma VisibleOrder(items: seq<Expense>, searchInput: string, filterInput: string)
    ensures IsSubsequence(Visible(items, searchInput, filterInput), SortByDateDesc(items))
    ensures NewestFirst(Visible(items, searchInput, filterInput))
  {
    var p := Matches(Lower(searchInput), Selected(filterInput));
    FilterIsSubsequence(SortByDateDesc(items), p);
    SortSpec(items);
    FilterNewestFirst(SortByDateDesc(items), p);
  }

  /** A record is listed as many times as it is stored when it passes the
      category selector and the search, and not at all otherwise. */
  lemma VisibleCount(items: seq<Expense>, searchInput: string, filterInput: string, e: Expense)
    ensures multiset(Visible(items, searchInput, filterInput))[e] ==
            if Shown(e, Lower(searchInput), Selected(filterInput)) then multiset(items)[e] else 0
  {
    SortSpec(items);
    FilterCount(SortByDateDesc(items), Matches(Lower(searchInput), Selected(filterInput)), e);
  }

  /** With `'All'` selected and an empty search box every stored record is
      listed, newest first. */
  lemma VisibleAll(items: seq<Expense>, filterInput: string)
    requires filterInput == "" || filterInput == "All"
    ensures Visible(items, "", filterInput) == SortByDateDesc(items)
    ensures multiset(Visible(items, "", filterInput)) == multiset(items)
  {
    var sorted := SortByDateDesc(items);
    FilterKeepsAll(sorted, Matches(Lower(""), Selected(filterInput)));
    SortSpec(items);
  }

  /** A category other than `'All'` hides every record of another category,
      whatever the search text. */
  lemma VisibleCategory(items: seq<Expense>, searchInput: string, filterInput: string)
    requires filterInput != "" && filterInput != "All"
    ensures forall e :: e in Visible(items, searchInput, filterInput) ==> e.category == filterInput
  {
    forall e | e in Visible(items, searchInput, filterInput)
      ensures e.category == filterInput
    {
      FilterMembership(SortByDateDesc(items), Matches(Lower(searchInput), Selected(filterInput)), e);
    }
  }

  /** With `'All'` selected, a record passes a non-empty search exactly when
      the search text occurs in its lower-cased description or category. */
  lemma SearchIff(e: Expense, search: string)
    requires search != ""
    ensures Shown(e, search, "All") <==>
            (exists i :: OccursAt(Lower(e.description), search, i)) ||
            (exists i :: OccursAt(Lower(e.category), search, i))
  {
    IncludesIffOccurs(Lower(e.description), search);
    IncludesIffOccurs(Lower(e.category), search);
  }

  /** The selector compares the stored category itself, so a record without
      one is hidden under `'Other'` although the chart counts it there. */
  lemma UncategorisedHiddenUnderOther(e: Expense, search: string)
    requires e.category == ""
    ensures CategoryKey(e) == "Other" && !Shown(e, search, "Other")
  {
  }

  lemma LowerIdempotent(s: string)
    ensures Lower(Lower(s)) == Lower(s)
  {
  }

  /** The search ignores the case of what is typed. */
  lemma VisibleIgnoresCase(items: seq<Expense>, searchInput: string, filterInput: string)
    ensures Visible(items, searchInput, filterInput) == Visible(items, Lower(searchInput), filterInput)
  {
    LowerIdempotent(searchInput);
  }
}
