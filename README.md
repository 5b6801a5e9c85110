# Expense tracker ledger in Dafny

A model of the ledger inside the `ExpenseTracker` React component
(`src/App.js`). The component keeps two pieces of state: an ordered list of
expense records (id, description, amount, category, date) and a running
total kept in its own state variable. Three event handlers change them and
one query reads them:

- `addExpense` appends a record when the description, amount and category
  fields are all non-empty, and adds the amount to the running total;
- `deleteExpense(expense)` filters out every record with that expense's id
  and subtracts that expense's amount from the running total;
- `editExpense(expense)` asks for a new amount, description and category
  (three prompts); when none was cancelled it maps over the list, replacing
  those three fields of every record with the id, and resets the running
  total from the matched record's old amount and the new amount;
- `getCategoryExpenses(c)` filters the records of category `c` and sums
  their amounts with `reduce`.

The model has two modules:

- `ExpenseLedger` (`expense_ledger.dfy`) is the value level: the `Expense`
  datatype, the seven `Categories`, a reference `Sum` of record amounts, and
  the list transformations the handlers build (`WithoutId` for the filter,
  `Edited` for the map, `LastIndexOfId`/`EditedTotal` for the total update,
  `OfCategory`/`Reduce`/`CategoryExpenses` for the category query), with
  lemmas relating each of them to `Sum` and to id uniqueness.
- `ExpenseTracker` (`expense_tracker.dfy`) is the component state: class
  `Tracker` with fields `expenses` and `totalExpenses`, and one method per
  handler. Each method states its complete new state as a function of the old
  one, and states when the invariant `Valid()` is kept. `Valid()` says that
  ids are unique and the running total equals `Sum(expenses)`.
  `ExampleSession` walks through two adds and a rejected one
  (`ExampleAdds`), a cancelled and a completed edit, and two deletes,
  asserting the totals after each step; `ExampleCategoryTotal`,
  `ExampleEdit` and `ExampleDelete` compute the list values it needs.

Behaviour of `src/App.js` the model keeps:

- No operation reports an error. An incomplete add form, or any cancelled
  edit prompt, leaves the state unchanged. Deleting a record whose id no
  longer appears in the list leaves the list unchanged but still subtracts
  its amount (`ExampleSession` ends with a total of -3 after a second
  delete). The delete goes by id only, so a stale, pre-edit copy of a record
  still removes the edited record, and subtracts the old amount
  (`WithoutEditedId`). The rendered list offers Delete buttons only for the
  records it shows (src/App.js:155-182), so both cases happen only when the
  handler is called with a record that is no longer rendered.
- Nothing checks that an amount is positive. The amount field is truthy for
  the text "0", so zero and negative amounts are accepted.
- Nothing checks that a category is in the list. The edit prompt accepts any
  text. A record given an unlisted category appears in no category card, so
  the seven cards then add up to the total minus the unlisted records' amounts
  (`CategoriesCover`, `UnlistedCategoryMissesCards`).
- The running total is stored separately, not derived. It is guaranteed to
  equal the sum of the amounts while ids are unique and every deleted record
  comes from the list. Ids come from `Math.random()`, so uniqueness is only an
  assumption. The model makes it explicit: `AddExpense` keeps `Valid()` for an
  id not already in the list, and keeps total-equals-sum whatever the ids.
  A delete or an edit of a duplicated id can make the total drift.
  `SumWithoutId` shows that a delete lowers the sum by the amounts of all
  records with the id, and `DuplicateIdsBreakDelete` gives two copies of one
  record as a case. `SumEdited` shows that an edit sets the amounts of all
  records with the id, while the total moves by one record's difference, and
  `DuplicateIdsBreakEdit` gives two records with one id as a case: with
  amounts 1 and 2 edited to 5, the total goes from 3 to 6 but the sum to 10.
- `editExpense` calls `setTotalExpenses` once for each matching record,
  each time from the total the handler started with, so the last call takes
  effect. `EditedTotal` models it with the last matching index.

## Model

| member | source | states |
|---|---|---|
| `ExpenseLedger.SumAppend` | src/App.js:38-40 | the sum of two concatenated record lists is the sum of their sums, so appending a record adds exactly its amount |
| `ExpenseLedger.UniqueIdsSnoc` | src/App.js:31-38 | appending a record whose id is not in the list keeps ids unique |
| `ExpenseLedger.WithoutId` | src/App.js:50 | the filtered list is no longer than the original and holds exactly the records of the original whose id differs from the given one |
| `ExpenseLedger.WithoutAbsentId` | src/App.js:50 | filtering out an id that no record carries returns the list unchanged |
| `ExpenseLedger.WithoutUniqueId` | src/App.js:50 | with unique ids, filtering out the id of the record at position k yields the list with exactly that record removed and every other record in its original order |
| `ExpenseLedger.SumWithoutUniqueId` | src/App.js:50-52 | with unique ids, removing the record at position k lowers the sum by exactly that record's amount, matching the handler's single subtraction |
| `ExpenseLedger.WithoutIdKeepsUnique` | src/App.js:50 | filtering a list with unique ids keeps ids unique |
| `ExpenseLedger.WithId` | src/App.js:50 | the result holds exactly the records the filter drops, those whose id is the given one |
| `ExpenseLedger.WithoutIdPartition` | src/App.js:50 | every record, counted with its multiplicity, is either kept by the filter or carries the id, and the two lengths add up to the original length |
| `ExpenseLedger.SumWithoutId` | src/App.js:50-52 | for any list, the filter lowers the sum by the amounts of all records carrying the id, while the handler subtracts only the passed record's amount |
| `ExpenseLedger.DuplicateIdsBreakDelete` | src/App.js:50-52 | for a list holding two copies of one record with a non-zero amount, the filter's sum differs from the old sum minus one amount, so the running total would drift |
| `ExpenseLedger.Edited` | src/App.js:61-72 | the mapped list has the same length; every record keeps its id and date; records with the id get the new amount, description and category; all other records are unchanged |
| `ExpenseLedger.EditedKeepsUnique` | src/App.js:61-72 | editing keeps ids unique |
| `ExpenseLedger.SumEdited` | src/App.js:61-72 | for any list, the edited sum is the old sum minus the amounts of all records with the id plus the new amount once per such record (`Repeat`) |
| `ExpenseLedger.WithoutEditedId` | src/App.js:49-72 | filtering out an id after an edit of that id gives the same list as filtering it out before the edit, so a stale pre-edit copy of a record still deletes the edited record |
| `ExpenseLedger.DuplicateIdsBreakEdit` | src/App.js:60-72 | for two records sharing an id, edited to an amount different from the first one's, the handler's new total differs from the sum of the edited list, so the running total would drift |
| `ExpenseLedger.EditedAbsentId` | src/App.js:61-72 | mapping over an id that no record carries returns the list unchanged |
| `ExpenseLedger.SumEditedUniqueId` | src/App.js:61-68 | with unique ids, editing the record at position k changes the sum by the new amount minus that record's old amount |
| `ExpenseLedger.LastIndexOfId` | src/App.js:61-63 | the result is None exactly when no record has the id; otherwise it is an index of a record with the id, and no later record has the id (the last `setTotalExpenses` call is the one that takes effect) |
| `ExpenseLedger.EditedTotal` | src/App.js:60-63 | the new running total is the old total when no record matches; otherwise it is the old total minus the amount of the last record with the id plus the new amount, which with unique ids is the one matched record |
| `ExpenseLedger.EditedTotalIsSum` | src/App.js:61-68 | with unique ids, a running total that equals the sum before an edit equals the sum of the edited list after it |
| `ExpenseLedger.OfCategory` | src/App.js:78-79 | the filtered list holds exactly the records of the given category |
| `ExpenseLedger.OfCategoryCount` | src/App.js:78-79 | the category filter keeps every copy of each record of the category and no copy of any other record |
| `ExpenseLedger.Reduce` | src/App.js:80 | the left-to-right `reduce` that starts from an accumulator equals the accumulator plus the reference sum |
| `ExpenseLedger.CategoryExpenses` | src/App.js:77-81 | getCategoryExpenses equals the sum of the amounts of the records whose category is the argument, and is 0 when no record has that category |
| `ExpenseLedger.Outside` | src/App.js:140-146 | the result holds exactly the records whose category is not in the given list, the ones no listed card counts |
| `ExpenseLedger.OutsideCount` | src/App.js:140-146 | the records outside the listed categories keep every copy of each record with an unlisted category and no copy of any other record |
| `ExpenseLedger.SplitOutside` | src/App.js:140-146 | for a category not in a list, the sum of the records outside the list splits into that category's sum plus the sum of the records outside the extended list |
| `ExpenseLedger.CategoriesCover` | src/App.js:140-146 | for distinct categories, the per-category totals plus the sum of the records with an unlisted category equal the sum of all records |
| `ExpenseLedger.OutsideNothing` | src/App.js:140-146 | every record is outside the empty category list |
| `ExpenseLedger.OutsideListed` | src/App.js:18-26 | when every record's category is listed, no record is outside the list |
| `ExpenseLedger.CategoriesDistinct` | src/App.js:18-26 | the constant `Categories` holds the seven category names of the source, and they are pairwise distinct, so no card counts a record twice |
| `ExpenseLedger.CategoryCardsAddUp` | src/App.js:18-26 | while every record has one of the seven listed categories, the seven category totals add up to the sum of all records |
| `ExpenseLedger.OutsideAppend` | src/App.js:140-146 | the records outside the listed categories of a concatenation are those of each part, in order |
| `ExpenseLedger.OutsideSingle` | src/App.js:140-146 | when only the record at position k has a category outside the list, it is the only record outside |
| `ExpenseLedger.UnlistedCategoryMissesCards` | src/App.js:58-68 | when exactly one record has an unlisted category (possible through the edit prompt), the seven category totals add up to the sum minus exactly that record's amount |
| `ExpenseTracker.Tracker.constructor` | src/App.js:12-16 | the ledger starts with no records and a total of 0, which satisfies the invariant |
| `ExpenseTracker.Tracker.AddExpense` | src/App.js:28-47 | with a complete form, exactly one record built from the inputs is appended after the unchanged earlier records and the total grows by its amount; otherwise nothing changes; total equal to the sum is always kept, and the full invariant is kept when the id is fresh |
| `ExpenseTracker.Tracker.DeleteExpense` | src/App.js:49-53 | the list becomes the filter on the expense's id and the total drops by the expense's amount; for a record of a valid ledger the length drops by one, just that record goes with the rest in order, and the invariant is kept |
| `ExpenseTracker.Tracker.EditExpense` | src/App.js:55-75 | with all prompts answered, the list becomes the edited list and the total the edited total; with any prompt cancelled nothing changes; the invariant is kept in every case |
| `ExpenseTracker.AddGuardCases` | src/App.js:29 | `FormComplete` encodes the add guard: a non-empty string is truthy, so an amount field holding "0" (or a negative number) passes, while an empty description, an empty amount field (`None`) or an empty category each block the add |
| `ExpenseTracker.EditGuardCases` | src/App.js:60 | `PromptsAnswered` encodes the edit guard: `None` is a cancelled prompt; empty answers still count as answered, and any one cancel blocks the edit |
| `ExpenseTracker.ExampleAdds` | src/App.js:28-47 | adding Coffee (4.50, Food & Dining) and Bus (2.00, Transportation), then an add with an empty description, leaves exactly those two records and a total of 6.50 |
| `ExpenseTracker.ExampleCategoryTotal` | src/App.js:77-81 | after those adds the Food & Dining card shows 4.50 |
| `ExpenseTracker.ExampleEdit` | src/App.js:55-75 | editing Coffee's amount to 5.00 changes only that record's amount and moves the total from 6.50 to 7.00 |
| `ExpenseTracker.ExampleSession` | src/App.js:28-75 | after the adds, a cancelled and a completed edit, the total is 7.00; deleting the edited Coffee record brings it to 2.00 and leaves only Bus; deleting it again leaves the list unchanged and brings the total to -3.00 |
| `ExpenseTracker.ExampleDelete` | src/App.js:49-53 | deleting the edited Coffee record leaves only Bus, and filtering Coffee's id out of that list again leaves it unchanged |

## Left out

- Rendering, react-bootstrap components and CSS (src/App.js:83-196): presentation with no ledger logic.
- The form-field state and its reset after an add (src/App.js:13-15, 43-45): input plumbing. The add method takes the field values as parameters.
- The `prompt` dialogs (src/App.js:56-58): their results are parameters, with `None` for a cancelled prompt.
- `Math.random()` ids (src/App.js:31): the id is a parameter. Uniqueness is an explicit condition, because random collisions cannot be reasoned about.
- `new Date().toISOString()` (src/App.js:35): the date is an opaque string parameter.
- `parseFloat`, IEEE-754 rounding, NaN and `toFixed(2)` (src/App.js:33, 66, 94, 146, 168): amounts are exact reals. An unparsable edit amount, which gives NaN in the source, is not modelled. The add form's amount is `None` for an empty field and otherwise the number it holds.
- React's `setState` batching and stale closures across events: each handler is one atomic transition on the state it started from.
