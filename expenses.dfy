/** The expense record the widget stores, and the two defaults it applies
    whenever it reads one back for the total and the chart. */
module Expenses {
  import opened Optional

  /** One stored expense. A missing or empty `category` or `description` is
      the empty string (the widget treats both as falsy); `amount` is `None`
      when the field is missing or null, and otherwise a whole number of paise. */
  datatype Expense = Expense(id: string, amount: Option<int>, category: string, date: string, description: string)

  /** What `Number(i.amount || 0)` adds to a total. */
  function Contribution(e: Expense): int
  {
    match e.amount
    case None => 0
    case Some(v) => v
  }

  /** `i.category || 'Other'`: the key a record is counted under in the chart. */
  function CategoryKey(e: Expense): string
  {
    if e.category == "" then "Other" else e.category
  }
}
