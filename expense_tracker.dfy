/** The state of the ExpenseTracker component (src/App.js): the list of
    expense records and the separately stored running total, with the three
    event handlers that change them. Each handler is one atomic transition;
    the browser's prompt dialogs, the clock and Math.random() are inputs. */
module ExpenseTracker {
  import opened ExpenseLedger

  /** The add form's guard: description, amount field and category are all
      non-empty. An empty amount field is `None`. */
  predicate FormComplete(description: string, amount: Option<real>, category: string)
  {
    description != "" && amount.Some? && category != ""
  }

  /** The edit handler's guard: no prompt was cancelled. */
  predicate PromptsAnswered(newAmount: Option<real>, newDescription: Option<string>, newCategory: Option<string>)
  {
    newAmount.Some? && newDescription.Some? && newCategory.Some?
  }

  class Tracker {
    var expenses: seq<Expense>
    var totalExpenses: real

    /** The running total equals the sum of the record amounts, and no two
        records share an id. */
    ghost predicate Valid()
      reads this
    {
      UniqueIds(expenses) && totalExpenses == Sum(expenses)
    }

    /** The initial state: no records, a total of 0. */
    constructor ()
      ensures expenses == [] && totalExpenses == 0.0
      ensures Valid()
    {
      expenses := [];
      totalExpenses := 0.0;
    }

    /** addExpense: when the form is complete, appends one record built from
        the inputs and adds its amount to the running total; otherwise does
        nothing. `id` stands for Math.random() and `date` for the current day. */
    method AddExpense(id: real, description: string, amount: Option<real>, category: string, date: string)
      modifies this
      ensures FormComplete(description, amount, category) ==>
        expenses == old(expenses) + [Expense(id, description, amount.value, category, date)] &&
        totalExpenses == old(totalExpenses) + amount.value
      ensures !FormComplete(description, amount, category) ==>
        expenses == old(expenses) && totalExpenses == old(totalExpenses)
      ensures old(totalExpenses == Sum(expenses)) ==> totalExpenses == Sum(expenses)
      ensures old(Valid()) && !HasId(old(expenses), id) ==> Valid()
    {
      if FormComplete(description, amount, category) {
        var newExpense := Expense(id, description, amount.value, category, date);
        SumAppend(expenses, [newExpense]);
        if UniqueIds(expenses) && !HasId(expenses, id) {
          UniqueIdsSnoc(expenses, newExpense);
        }
        expenses := expenses + [newExpense];
        totalExpenses := totalExpenses + amount.value;
      }
    }

    /** deleteExpense: drops every record whose id is the given record's id
        and subtracts the given record's amount once. For a record of a valid
        ledger, exactly that record goes and the invariant is kept. */
    method DeleteExpense(expense: Expense)
      modifies this
      ensures expenses == WithoutId(old(expenses), expense.id)
      ensures totalExpenses == old(totalExpenses) - expense.amount
      ensures old(Valid()) && expense in old(expenses) ==>
        Valid() && |expenses| == |old(expenses)| - 1
      ensures old(UniqueIds(expenses)) && expense in old(expenses) ==>
        exists k :: 0 <= k < |old(expenses)| && old(expenses)[k] == expense &&
          expenses == old(expenses)[..k] + old(expenses)[k + 1..]
    {
      if UniqueIds(expenses) {
        WithoutIdKeepsUnique(expenses, expense.id);
        if expense in expenses {
          var k :| 0 <= k < |expenses| && expenses[k] == expense;
          WithoutUniqueId(expenses, k);
          SumWithoutUniqueId(expenses, k);
        }
      }
      expenses := WithoutId(expenses, expense.id);
      totalExpenses := totalExpenses - expense.amount;
    }

    /** editExpense: when no prompt was cancelled, gives every record with
        the given record's id the new amount, description and category, and
        moves the running total by new amount minus the matched amount;
        otherwise does nothing. Valid() is kept in both cases. */
    method EditExpense(expense: Expense, newAmount: Option<real>, newDescription: Option<string>, newCategory: Option<string>)
      modifies this
      ensures PromptsAnswered(newAmount, newDescription, newCategory) ==>
        expenses == Edited(old(expenses), expense.id, newAmount.value, newDescription.value, newCategory.value) &&
        totalExpenses == EditedTotal(old(expenses), old(totalExpenses), expense.id, newAmount.value)
      ensures !PromptsAnswered(newAmount, newDescription, newCategory) ==>
        expenses == old(expenses) && totalExpenses == old(totalExpenses)
      ensures old(Valid()) ==> Valid()
    {
      if PromptsAnswered(newAmount, newDescription, newCategory) {
        var a, d, c := newAmount.value, newDescription.value, newCategory.value;
        if Valid() {
          EditedTotalIsSum(expenses, totalExpenses, expense.id, a, d, c);
          EditedKeepsUnique(expenses, expense.id, a, d, c);
        }
        totalExpenses := EditedTotal(expenses, totalExpenses, expense.id, a);
        expenses := Edited(expenses, expense.id, a, d, c);
      }
    }
  }

  /** The add guard as the source's truthiness test reads it: the text "0"
      is a non-empty amount, so a zero amount passes; an empty description,
      amount field or category each block the add. */
  lemma AddGuardCases()
    ensures FormComplete("Coffee", Some(0.0), "Other")
    ensures FormComplete("Refund", Some(-2.0), "Other")
    ensures !FormComplete("", Some(4.5), "Other")
    ensures !FormComplete("Coffee", None, "Other")
    ensures !FormComplete("Coffee", Some(4.5), "")
  {
  }

  /** The edit guard compares each prompt result with null only: an empty
      answer still counts as answered, and any single cancel blocks the edit. */
  lemma EditGuardCases()
    ensures PromptsAnswered(Some(0.0), Some(""), Some(""))
    ensures !PromptsAnswered(None, Some("Coffee"), Some("Other"))
    ensures !PromptsAnswered(Some(5.0), None, Some("Other"))
    ensures !PromptsAnswered(Some(5.0), Some("Coffee"), None)
  {
  }

  const Coffee := Expense(0.25, "Coffee", 4.5, "Food & Dining", "2024-01-01")
  const Bus := Expense(0.75, "Bus", 2.0, "Transportation", "2024-01-01")

  /** Two adds and a rejected add, with the totals the component shows. */
  method ExampleAdds() returns (t: Tracker)
    ensures fresh(t)
    ensures t.expenses == [Coffee, Bus] && t.totalExpenses == 6.5
  {
    t := new Tracker();
    t.AddExpense(0.25, "Coffee", Some(4.5), "Food & Dining", "2024-01-01");
    t.AddExpense(0.75, "Bus", Some(2.0), "Transportation", "2024-01-01");
    t.AddExpense(0.5, "", Some(1.0), "Other", "2024-01-01");
  }

  /** The Food & Dining card after the two adds of ExampleAdds. */
  lemma ExampleCategoryTotal()
    ensures CategoryExpenses([Coffee, Bus], "Food & Dining") == 4.5
  {
    assert [Coffee, Bus][1..] == [Bus];
    assert OfCategory([Bus], "Food & Dining") == [];
    assert OfCategory([Coffee, Bus], "Food & Dining") == [Coffee];
    assert [Coffee][1..] == [];
    assert Sum([Coffee]) == 4.5;
  }

  /** Editing the first record's amount to 5 moves the total from 6.5 to 7. */
  lemma ExampleEdit()
    ensures Edited([Coffee, Bus], 0.25, 5.0, "Coffee", "Food & Dining") == [Coffee.(amount := 5.0), Bus]
    ensures EditedTotal([Coffee, Bus], 6.5, 0.25, 5.0) == 7.0
  {
    assert LastIndexOfId([Coffee, Bus], 0.25) == Some(0) by {
      assert [Coffee, Bus][..1] == [Coffee];
    }
  }

  /** Deleting the edited record leaves the second one. */
  lemma ExampleDelete()
    ensures WithoutId([Coffee.(amount := 5.0), Bus], 0.25) == [Bus]
    ensures WithoutId([Bus], 0.25) == [Bus]
  {
    assert [Coffee.(amount := 5.0), Bus][1..] == [Bus];
  }

  /** Continuing from ExampleAdds: the category query, a cancelled and a
      completed edit of the first record, and two deletes of it. Returns the
      total shown after the edits and after each delete, and the records left. */
  method ExampleSession() returns (afterEdits: real, afterDelete: real, afterSecondDelete: real, remaining: seq<Expense>)
    ensures afterEdits == 7.0 && afterDelete == 2.0 && afterSecondDelete == -3.0
    ensures remaining == [Bus]
  {
    var t := ExampleAdds();
    ExampleCategoryTotal();
    ExampleEdit();
    ExampleDelete();

    t.EditExpense(Coffee, Some(5.0), Some("Coffee"), None);
    assert t.totalExpenses == 6.5;
    t.EditExpense(Coffee, Some(5.0), Some("Coffee"), Some("Food & Dining"));
    afterEdits := t.totalExpenses;

    var edited := Coffee.(amount := 5.0);
    t.DeleteExpense(edited);
    assert t.expenses == [Bus];
    afterDelete := t.totalExpenses;

    // A second delete of the same record finds nothing to drop but still
    // subtracts its amount. The rendered list offers Delete only for records
    // it shows, so this needs a call with a record no longer rendered.
    t.DeleteExpense(edited);
    afterSecondDelete := t.totalExpenses;
    remaining := t.expenses;
  }
}
