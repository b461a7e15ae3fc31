/** The stored list of expenses and the three buttons that change it: the
    entry form's submit, a row's delete button, and clear-all (with the demo
    loader beside it). */
module Store {
  import opened Optional
  import opened Strings
  import opened Seqs
  import opened Expenses
  import opened Aggregation

  /** Why the entry form refuses a submission. */
  datatype Rejection = InvalidAmount | MissingDate

  datatype Outcome = Added(record: Expense) | Rejected(reason: Rejection)

  /** The record the submit handler builds from the form, or the reason it
      refuses. `parsed` is what `parseFloat` made of the amount field, in
      paise (`None` for NaN); `freshId` stands for the generated id. */
  function NewExpense(parsed: Option<int>, categoryInput: string, date: string,
                      descriptionInput: string, freshId: string): Outcome
  {
    if parsed.None? || parsed.value <= 0 then Rejected(InvalidAmount)
    else if date == "" then Rejected(MissingDate)
    else
      var category := if categoryInput == "" then "Other" else categoryInput;
      Added(Expense(freshId, Some(parsed.value), category, date, Trim(descriptionInput)))
  }

  /** The delete button's test: keep a record unless its id is the target. */
  function Keeps(target: string): Expense -> bool
  {
    (e: Expense) => e.id != target
  }

  /** The list after the delete button for `target`: unchanged for an empty
      id, otherwise every record with another id, in order. */
  function Remaining(items: seq<Expense>, target: string): seq<Expense>
  {
    if target == "" then items else Filter(items, Keeps(target))
  }

  /** No two records share an id. */
  ghost predicate UniqueIds(items: seq<Expense>)
  {
    forall i, j :: 0 <= i < j < |items| ==> items[i].id != items[j].id
  }

  /** Some record has id `target`. */
  ghost predicate HasId(items: seq<Expense>, target: string)
  {
    exists k :: 0 <= k < |items| && items[k].id == target
  }

  /** The three demo records, all dated `today`. */
  function Demo(today: string): seq<Expense>
  {
    [ Expense("d1", Some(11000), "Food", today, "Chicken +eggs"),
      Expense("d2", Some(260000), "Shopping", today, "Trousers"),
      Expense("d3", Some(780000), "Other", today, "House rent") ]
  }

  class ExpenseStore {
    /** The records in storage, in insertion order. */
    var items: seq<Expense>

    /** The store over what storage held when the page loaded. */
    constructor(stored: seq<Expense>)
      ensures items == stored
    {
      items := stored;
    }

    /** The submit handler: validate the form, then push the new record. */
    method Submit(parsed: Option<int>, categoryInput: string, date: string,
                  descriptionInput: string, freshId: string) returns (outcome: Outcome)
      modifies this
      ensures outcome == NewExpense(parsed, categoryInput, date, descriptionInput, freshId)
      ensures outcome.Added? ==> items == old(items) + [outcome.record]
      ensures outcome.Rejected? ==> items == old(items)
      ensures GrandTotal(items) == GrandTotal(old(items)) + (if outcome.Added? then parsed.value else 0)
    {
      outcome := NewExpense(parsed, categoryInput, date, descriptionInput, freshId);
      if outcome.Added? {
        GrandTotalAppend(items, [outcome.record]);
        items := items + [outcome.record];
      }
    }

    /** The delete handler: nothing for an empty id, otherwise keep every
      record whose id differs from the target. */
    method Delete(target: string)
      modifies this
      ensures items == Remaining(old(items), target)
    {
      if target == "" {
        return;
      }
      var kept := [];
      var i := 0;
      while i < |items|
        invariant 0 <= i <= |items|
        invariant kept == Filter(items[..i], Keeps(target))
      {
        assert items[..i + 1][..i] == items[..i];
        if items[i].id != target {
          kept := kept + [items[i]];
        }
        i := i + 1;
      }
      assert items[..i] == items;
      items := kept;
    }

    /** Clear-all: storage becomes the empty list. */
    method Clear()
      modifies this
      ensures items == []
    {
      items := [];
    }

    /** The demo button: storage is replaced by the three demo records. */
    method LoadDemo(today: string)
      modifies this
      ensures items == Demo(today)
    {
      items := Demo(today);
    }
  }

  /** Submission is refused exactly when the amount is missing, not a number
      or not positive, or the date is empty, the amount being checked first;
      an accepted record carries the amount, the date and the fresh id, the
      category input or `Other` when that is empty, and the description with
      white space cut from both ends. */
  lemma NewExpenseOutcome(parsed: Option<int>, categoryInput: string, date: string,
                          descriptionInput: string, freshId: string)
    ensures var r := NewExpense(parsed, categoryInput, date, descriptionInput, freshId);
      (r.Rejected? <==> parsed.None? || parsed.value <= 0 || date == "") &&
      (r.Rejected? ==> (r.reason == InvalidAmount <==> parsed.None? || parsed.value <= 0))
    ensures var r := NewExpense(parsed, categoryInput, date, descriptionInput, freshId);
      r.Added? ==>
        r.record.id == freshId && r.record.date == date &&
        parsed.Some? && r.record.amount == parsed && Contribution(r.record) > 0 &&
        r.record.category != [] && CategoryKey(r.record) == r.record.category &&
        (categoryInput != [] ==> r.record.category == categoryInput) &&
        (categoryInput == [] ==> r.record.category == "Other")
    ensures var r := NewExpense(parsed, categoryInput, date, descriptionInput, freshId);
      r.Added? ==>
        var d := r.record.description;
        (d == [] || (!IsSpace(d[0]) && !IsSpace(d[|d| - 1]))) &&
        exists i, j :: 0 <= i <= j <= |descriptionInput| && d == descriptionInput[i..j] &&
                       AllSpace(descriptionInput[..i]) && AllSpace(descriptionInput[j..])
  {
    TrimSpec(descriptionInput);
  }

  /** Deleting leaves no record with the target id, keeps every other record
      as often as before, in the same relative order, and is idempotent. */
  lemma RemainingSpec(items: seq<Expense>, target: string)
    requires target != ""
    ensures forall e :: e in Remaining(items, target) <==> e in items && e.id != target
    ensures forall e: Expense :: e.id != target ==> multiset(Remaining(items, target))[e] == multiset(items)[e]
    ensures IsSubsequence(Remaining(items, target), items)
    ensures Remaining(Remaining(items, target), target) == Remaining(items, target)
  {
    var p := Keeps(target);
    forall e ensures e in Filter(items, p) <==> e in items && e.id != target {
      FilterMembership(items, p, e);
    }
    forall e: Expense | e.id != target ensures multiset(Filter(items, p))[e] == multiset(items)[e] {
      FilterCount(items, p, e);
    }
    FilterIsSubsequence(items, p);
    FilterIdempotent(items, p);
  }

  /** The total drops by exactly the amounts of the deleted records. */
  lemma RemainingTotal(items: seq<Expense>, target: string)
    requires target != ""
    ensures GrandTotal(items) ==
            GrandTotal(Remaining(items, target)) + GrandTotal(Filter(items, (e: Expense) => e.id == target))
  {
    var p := (e: Expense) => e.id == target;
    GrandTotalSplit(items, p);
    FilterSame(items, (e: Expense) => !p(e), Keeps(target));
  }

  /** With unique ids, a delete removes one record if the id is present and
      none otherwise, and the ids stay unique. */
  lemma {:induction false} RemainingUnique(items: seq<Expense>, target: string)
    requires target != "" && UniqueIds(items)
    ensures |Remaining(items, target)| == |items| - (if HasId(items, target) then 1 else 0)
    ensures UniqueIds(Remaining(items, target))
  {
    if items != [] {
      var init, x := items[..|items| - 1], items[|items| - 1];
      RemainingUnique(init, target);
      var rest := Remaining(init, target);
      if x.id == target {
        assert !HasId(init, target);
        assert HasId(items, target);
      } else {
        assert HasId(items, target) <==> HasId(init, target) by {
          if HasId(items, target) {
            var k :| 0 <= k < |items| && items[k].id == target;
            assert k < |init| && init[k] == items[k];
          }
          if HasId(init, target) {
            var k :| 0 <= k < |init| && init[k].id == target;
            assert items[k] == init[k];
          }
        }
        forall e | e in rest ensures e.id != x.id {
          FilterMembership(init, Keeps(target), e);
          var k :| 0 <= k < |init| && init[k] == e;
          assert items[k] == e;
        }
      }
    }
  }

  /** Adding a record whose id is fresh keeps the ids unique. */
  lemma AddKeepsUnique(items: seq<Expense>, e: Expense)
    requires UniqueIds(items)
    requires !HasId(items, e.id)
    ensures UniqueIds(items + [e])
  {
    forall i, j | 0 <= i < j < |items| + 1 ensures (items + [e])[i].id != (items + [e])[j].id {
      if j == |items| {
        assert (items + [e])[i] == items[i];
      }
    }
  }

  /** The demo data totals 10,510 rupees (1,051,000 paise), shown under three
      keys in the order Food, Shopping, Other, with distinct ids. */
  lemma DemoSummary(today: string)
    ensures GrandTotal(Demo(today)) == 1051000
    ensures Labels(Demo(today)) == ["Food", "Shopping", "Other"]
    ensures UniqueIds(Demo(today))
  {
    var d := Demo(today);
    assert d[..2][..1] == d[..1] && d[..1][..0] == [] && d[..3] == d;
    assert GrandTotal(d[..1]) == 11000;
    assert GrandTotal(d[..2]) == 271000;
    assert Labels(d[..1]) == ["Food"];
    assert Labels(d[..2]) == ["Food", "Shopping"];
    assert "Other" != "Food" && "Other" != "Shopping";
  }
}
