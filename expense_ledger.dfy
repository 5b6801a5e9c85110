/** The value level of the expense tracker (src/App.js): the expense record,
    the fixed category list, and the list transformations the component's
    handlers build with spread, `filter`, `map` and `reduce`, each with the
    properties the running total depends on. */
module ExpenseLedger {

  datatype Option<T> = None | Some(value: T)

  /** One expense record. The source draws `id` from Math.random(), so it is a
      number; `amount` is the parsed amount, modelled exactly; `date` is the
      creation day as produced by the browser clock and is kept opaque. */
  datatype Expense = Expense(id: real, description: string, amount: real, category: string, date: string)

  /** The seven categories the add form offers. */
  const Categories: seq<string> := [
    "Food & Dining",
    "Transportation",
    "Entertainment",
    "Shopping",
    "Utilities",
    "Healthcare",
    "Other"
  ]

  /** Reference definition: the sum of the amounts of a list of records. */
  function Sum(s: seq<Expense>): real
  {
    if s == [] then 0.0 else s[0].amount + Sum(s[1..])
  }

  lemma {:induction false} SumAppend(a: seq<Expense>, b: seq<Expense>)
    ensures Sum(a + b) == Sum(a) + Sum(b)
  {
    if a == [] {
      assert a + b == b;
    } else {
      assert (a + b)[1..] == a[1..] + b;
      SumAppend(a[1..], b);
    }
  }

  ghost predicate HasId(s: seq<Expense>, id: real)
  {
    exists e :: e in s && e.id == id
  }

  /** No two records of the list share an id. */
  ghost predicate UniqueIds(s: seq<Expense>)
  {
    forall i, j :: 0 <= i < |s| && 0 <= j < |s| && s[i].id == s[j].id ==> i == j
  }

  lemma UniqueIdsCons(x: Expense, t: seq<Expense>)
    ensures UniqueIds([x] + t) <==> !HasId(t, x.id) && UniqueIds(t)
  {
    var s := [x] + t;
    assert forall i :: 0 <= i < |t| ==> s[i + 1] == t[i];
    if UniqueIds(s) {
      forall e | e in t ensures e.id != x.id {
        var i :| 0 <= i < |t| && t[i] == e;
        assert s[i + 1] == e && s[0] == x;
      }
    }
    if !HasId(t, x.id) {
      forall k | 0 < k < |s| ensures s[k].id != x.id {
        assert s[k] == t[k - 1] && t[k - 1] in t;
      }
    }
  }

  /** A record with a fresh id can be appended without breaking uniqueness. */
  lemma UniqueIdsSnoc(s: seq<Expense>, e: Expense)
    requires UniqueIds(s) && !HasId(s, e.id)
    ensures UniqueIds(s + [e])
  {
    var r := s + [e];
    forall k | 0 <= k < |s| ensures r[k] == s[k] && r[k].id != e.id {
      assert s[k] in s;
    }
  }

  // ---------------------------------------------------------------------------
  // deleteExpense: keep every record whose id differs from the deleted
  // record's id, then lower the running total by the deleted record's amount.

  /** The records whose id differs from `id`, in their original order. */
  function WithoutId(s: seq<Expense>, id: real): (r: seq<Expense>)
    ensures |r| <= |s|
    ensures forall e :: e in r <==> e in s && e.id != id
  {
    if s == [] then []
    else (if s[0].id != id then [s[0]] else []) + WithoutId(s[1..], id)
  }

  /** Filtering out an id no record carries changes nothing. */
  lemma {:induction false} WithoutAbsentId(s: seq<Expense>, id: real)
    requires !HasId(s, id)
    ensures WithoutId(s, id) == s
  {
    if s != [] {
      assert s[0] in s;
      assert !HasId(s[1..], id) by {
        forall e | e in s[1..] ensures e.id != id { assert e in s; }
      }
      WithoutAbsentId(s[1..], id);
      assert [s[0]] + s[1..] == s;
    }
  }

  /** With unique ids, the filter removes exactly the one record with that id
      and keeps every other record in its original order. */
  lemma {:induction false} WithoutUniqueId(s: seq<Expense>, k: nat)
    requires UniqueIds(s) && k < |s|
    ensures WithoutId(s, s[k].id) == s[..k] + s[k + 1..]
  {
    UniqueIdsCons(s[0], s[1..]);
    assert [s[0]] + s[1..] == s;
    if k == 0 {
      WithoutAbsentId(s[1..], s[0].id);
    } else {
      assert s[k] == s[1..][k - 1];
      assert s[0].id != s[k].id;
      WithoutUniqueId(s[1..], k - 1);
      assert s[..k] == [s[0]] + s[1..][..k - 1];
      assert s[k + 1..] == s[1..][k..];
    }
  }

  /** With unique ids, the filter lowers the sum by the removed record's amount. */
  lemma {:induction false} SumWithoutUniqueId(s: seq<Expense>, k: nat)
    requires UniqueIds(s) && k < |s|
    ensures Sum(WithoutId(s, s[k].id)) == Sum(s) - s[k].amount
  {
    var id := s[k].id;
    UniqueIdsCons(s[0], s[1..]);
    assert [s[0]] + s[1..] == s;
    if k == 0 {
      WithoutAbsentId(s[1..], id);
      assert WithoutId(s, id) == s[1..];
    } else {
      assert s[k] == s[1..][k - 1];
      SumWithoutUniqueId(s[1..], k - 1);
      var t := WithoutId(s[1..], id);
      assert WithoutId(s, id) == [s[0]] + t;
      assert ([s[0]] + t)[1..] == t;
    }
  }

  lemma {:induction false} WithoutIdKeepsUnique(s: seq<Expense>, id: real)
    requires UniqueIds(s)
    ensures UniqueIds(WithoutId(s, id))
  {
    if s != [] {
      UniqueIdsCons(s[0], s[1..]);
      assert [s[0]] + s[1..] == s;
      WithoutIdKeepsUnique(s[1..], id);
      if s[0].id != id {
        var t := WithoutId(s[1..], id);
        assert !HasId(t, s[0].id) by {
          forall e | e in t ensures e.id != s[0].id { assert e in s[1..]; }
        }
        UniqueIdsCons(s[0], t);
      } else {
        assert [] + WithoutId(s[1..], id) == WithoutId(s[1..], id);
      }
    }
  }

  /** The records carrying id `id`, in their original order. */
  function WithId(s: seq<Expense>, id: real): (r: seq<Expense>)
    ensures forall e :: e in r <==> e in s && e.id == id
  {
    if s == [] then []
    else (if s[0].id == id then [s[0]] else []) + WithId(s[1..], id)
  }

  /** For any list, the filter lowers the sum by the amounts of all records
      carrying the id, while the handler subtracts one amount: the total
      drifts by the amounts of the other records with that id. */
  lemma {:induction false} SumWithoutId(s: seq<Expense>, id: real)
    ensures Sum(WithoutId(s, id)) == Sum(s) - Sum(WithId(s, id))
  {
    if s != [] {
      SumWithoutId(s[1..], id);
      SumAppend(if s[0].id != id then [s[0]] else [], WithoutId(s[1..], id));
      SumAppend(if s[0].id == id then [s[0]] else [], WithId(s[1..], id));
    }
  }

  /** The filter and its complement split the list: every record, with its
      number of occurrences, lands in exactly one of them. */
  lemma {:induction false} WithoutIdPartition(s: seq<Expense>, id: real)
    ensures multiset(WithoutId(s, id)) + multiset(WithId(s, id)) == multiset(s)
    ensures |WithoutId(s, id)| + |WithId(s, id)| == |s|
  {
    if s != [] {
      WithoutIdPartition(s[1..], id);
      assert s == [s[0]] + s[1..];
    }
  }

  /** Two copies of one record: the filter drops both while the handler
      subtracts only one amount, so the running total drifts from the sum. */
  lemma DuplicateIdsBreakDelete(e: Expense)
    requires e.amount != 0.0
    ensures Sum(WithoutId([e, e], e.id)) != Sum([e, e]) - e.amount
  {
    assert WithoutId([e, e], e.id) == [];
    assert [e, e][1..] == [e];
  }

  // ---------------------------------------------------------------------------
  // editExpense: replace amount, description and category of every record
  // carrying the edited record's id, and reset the running total.

  /** Every record with id `id` gets the new amount, description and category;
      its id and date are kept; every other record is unchanged. */
  function Edited(s: seq<Expense>, id: real, amount: real, description: string, category: string): (r: seq<Expense>)
    ensures |r| == |s|
    ensures forall i :: 0 <= i < |s| ==> r[i].id == s[i].id && r[i].date == s[i].date
    ensures forall i :: 0 <= i < |s| && s[i].id == id ==>
      r[i].amount == amount && r[i].description == description && r[i].category == category
    ensures forall i :: 0 <= i < |s| && s[i].id != id ==> r[i] == s[i]
  {
    if s == [] then []
    else
      [if s[0].id == id then s[0].(amount := amount, description := description, category := category) else s[0]]
      + Edited(s[1..], id, amount, description, category)
  }

  lemma EditedKeepsUnique(s: seq<Expense>, id: real, amount: real, description: string, category: string)
    requires UniqueIds(s)
    ensures UniqueIds(Edited(s, id, amount, description, category))
  {
    var r := Edited(s, id, amount, description, category);
    forall i, j | 0 <= i < |r| && 0 <= j < |r| && r[i].id == r[j].id ensures i == j {
      assert r[i].id == s[i].id && r[j].id == s[j].id;
    }
  }

  /** With unique ids, the map changes the sum by new amount minus old amount
      of the single record that carries the id. */
  lemma {:induction false} SumEditedUniqueId(s: seq<Expense>, k: nat, amount: real, description: string, category: string)
    requires UniqueIds(s) && k < |s|
    ensures Sum(Edited(s, s[k].id, amount, description, category)) == Sum(s) - s[k].amount + amount
  {
    var id := s[k].id;
    var r := Edited(s, id, amount, description, category);
    UniqueIdsCons(s[0], s[1..]);
    assert [s[0]] + s[1..] == s;
    assert r[1..] == Edited(s[1..], id, amount, description, category);
    if k == 0 {
      EditedAbsentId(s[1..], id, amount, description, category);
    } else {
      assert s[k] == s[1..][k - 1];
      SumEditedUniqueId(s[1..], k - 1, amount, description, category);
    }
  }

  /** The amount x added up n times. */
  function Repeat(n: nat, x: real): real
  {
    if n == 0 then 0.0 else x + Repeat(n - 1, x)
  }

  /** For any list, the map gives every record carrying the id the new
      amount, so the sum loses the old amounts of all of them and gains the
      new amount once per record, while the handler's total moves by one
      record's difference only: with duplicated ids the total drifts. */
  lemma {:induction false} SumEdited(s: seq<Expense>, id: real, amount: real, description: string, category: string)
    ensures Sum(Edited(s, id, amount, description, category))
         == Sum(s) - Sum(WithId(s, id)) + Repeat(|WithId(s, id)|, amount)
  {
    if s != [] {
      var r := Edited(s, id, amount, description, category);
      var w := WithId(s[1..], id);
      assert r[1..] == Edited(s[1..], id, amount, description, category);
      SumEdited(s[1..], id, amount, description, category);
      if s[0].id == id {
        assert WithId(s, id) == [s[0]] + w;
        assert ([s[0]] + w)[1..] == w;
      } else {
        assert WithId(s, id) == w;
      }
    }
  }

  /** Mapping over an id no record carries changes nothing. */
  lemma {:induction false} EditedAbsentId(s: seq<Expense>, id: real, amount: real, description: string, category: string)
    requires !HasId(s, id)
    ensures Edited(s, id, amount, description, category) == s
  {
    var r := Edited(s, id, amount, description, category);
    forall i | 0 <= i < |s| ensures r[i] == s[i] {
      assert s[i] in s;
    }
  }

  /** The position of the last record with id `id`. `editExpense` calls
      setTotalExpenses once per matching record, each time from the total the
      handler started with, so the call for the last match is the one that
      takes effect. */
  function LastIndexOfId(s: seq<Expense>, id: real): (r: Option<nat>)
    ensures r.Some? ==> r.value < |s| && s[r.value].id == id
    ensures r.Some? ==> forall j :: r.value < j < |s| ==> s[j].id != id
    ensures r.None? ==> !HasId(s, id)
  {
    if s == [] then None
    else if s[|s| - 1].id == id then Some(|s| - 1)
    else
      var r := LastIndexOfId(s[..|s| - 1], id);
      assert forall e :: e in s ==> e in s[..|s| - 1] || e == s[|s| - 1] by {
        assert s == s[..|s| - 1] + [s[|s| - 1]];
      }
      r
  }

  /** The running total after an edit whose prompts all returned a value: the
      old total minus the matched record's amount plus the new amount, or the
      old total when no record matches. */
  function EditedTotal(s: seq<Expense>, total: real, id: real, amount: real): (r: real)
    ensures !HasId(s, id) ==> r == total
    ensures forall k :: 0 <= k < |s| && s[k].id == id && (forall j :: k < j < |s| ==> s[j].id != id) ==>
      r == total - s[k].amount + amount
    ensures UniqueIds(s) ==> forall k :: 0 <= k < |s| && s[k].id == id ==> r == total - s[k].amount + amount
  {
    match LastIndexOfId(s, id)
    case None => total
    case Some(k) => total - s[k].amount + amount
  }

  /** The filter compares ids only, so deleting by an id after an edit of
      that id drops the same positions as before the edit: a stale, pre-edit
      copy of a record still removes the edited record. */
  lemma {:induction false} WithoutEditedId(s: seq<Expense>, id: real, amount: real, description: string, category: string)
    ensures WithoutId(Edited(s, id, amount, description, category), id) == WithoutId(s, id)
  {
    if s != [] {
      var r := Edited(s, id, amount, description, category);
      assert r[1..] == Edited(s[1..], id, amount, description, category);
      WithoutEditedId(s[1..], id, amount, description, category);
    }
  }

  /** Two records sharing an id, the first edited to a different amount:
      both get the new amount, the total moves by the second record's
      difference only, and it no longer equals the sum. */
  lemma DuplicateIdsBreakEdit(a: Expense, b: Expense, amount: real, description: string, category: string)
    requires a.id == b.id && a.amount != amount
    ensures EditedTotal([a, b], Sum([a, b]), a.id, amount)
         != Sum(Edited([a, b], a.id, amount, description, category))
  {
    assert LastIndexOfId([a, b], a.id) == Some(1) by {
      assert [a, b][1..] == [b];
    }
    SumEdited([a, b], a.id, amount, description, category);
    assert [a, b][1..] == [b];
    assert [b][1..] == [];
    assert WithId([b], a.id) == [b];
    assert WithId([a, b], a.id) == [a, b];
  }

  /** If the running total equals the sum before an edit and ids are unique,
      it still equals the sum after it, whether or not a record matched. */
  lemma EditedTotalIsSum(s: seq<Expense>, total: real, id: real, amount: real, description: string, category: string)
    requires UniqueIds(s) && total == Sum(s)
    ensures EditedTotal(s, total, id, amount) == Sum(Edited(s, id, amount, description, category))
  {
    match LastIndexOfId(s, id)
    case None =>
      EditedAbsentId(s, id, amount, description, category);
    case Some(k) =>
      SumEditedUniqueId(s, k, amount, description, category);
  }

  // ---------------------------------------------------------------------------
  // getCategoryExpenses: select the records of one category and add up their
  // amounts from a starting value of 0, front to back.

  /** The records of category `c`, in their original order. */
  function OfCategory(s: seq<Expense>, c: string): (r: seq<Expense>)
    ensures forall e :: e in r <==> e in s && e.category == c
  {
    if s == [] then []
    else (if s[0].category == c then [s[0]] else []) + OfCategory(s[1..], c)
  }

  /** The category filter keeps every copy of a record of category c and no
      copy of any other record. */
  lemma {:induction false} OfCategoryCount(s: seq<Expense>, c: string, e: Expense)
    ensures multiset(OfCategory(s, c))[e] == if e.category == c then multiset(s)[e] else 0
  {
    if s != [] {
      OfCategoryCount(s[1..], c, e);
      assert s == [s[0]] + s[1..];
    }
  }

  /** The reduce step of getCategoryExpenses: add each record's amount to the
      accumulator, front to back. The result is the accumulator plus the sum. */
  function Reduce(s: seq<Expense>, acc: real): (r: real)
    ensures r == acc + Sum(s)
  {
    if s == [] then acc else Reduce(s[1..], acc + s[0].amount)
  }

  /** getCategoryExpenses: the sum of the amounts of the records of category
      `c`, which is 0 when there are none. */
  function CategoryExpenses(s: seq<Expense>, c: string): (r: real)
    ensures r == Sum(OfCategory(s, c))
    ensures (forall e :: e in s ==> e.category != c) ==> r == 0.0
  {
    var matching := OfCategory(s, c);
    assert matching != [] ==> matching[0] in matching;
    Reduce(matching, 0.0)
  }

  /** The sum of the per-category totals shown for the categories `cats`. */
  function CategoriesTotal(s: seq<Expense>, cats: seq<string>): real
  {
    if cats == [] then 0.0 else CategoryExpenses(s, cats[0]) + CategoriesTotal(s, cats[1..])
  }

  /** The records whose category is not in `cats`. */
  function Outside(s: seq<Expense>, cats: seq<string>): (r: seq<Expense>)
    ensures forall e :: e in r <==> e in s && e.category !in cats
  {
    if s == [] then []
    else (if s[0].category !in cats then [s[0]] else []) + Outside(s[1..], cats)
  }

  /** The records outside the listed categories keep every copy of a record
      whose category is unlisted and no copy of any other record. */
  lemma {:induction false} OutsideCount(s: seq<Expense>, cats: seq<string>, e: Expense)
    ensures multiset(Outside(s, cats))[e] == if e.category !in cats then multiset(s)[e] else 0
  {
    if s != [] {
      OutsideCount(s[1..], cats, e);
      assert s == [s[0]] + s[1..];
    }
  }

  ghost predicate NoDuplicates(cats: seq<string>)
  {
    forall i, j :: 0 <= i < j < |cats| ==> cats[i] != cats[j]
  }

  /** Splitting the records outside `rest` into those of category `c` and
      those outside `[c] + rest`. */
  lemma {:induction false} SplitOutside(s: seq<Expense>, c: string, rest: seq<string>)
    requires c !in rest
    ensures Sum(Outside(s, rest)) == Sum(OfCategory(s, c)) + Sum(Outside(s, [c] + rest))
  {
    if s != [] {
      SplitOutside(s[1..], c, rest);
      var e := s[0];
      SumAppend(if e.category !in rest then [e] else [], Outside(s[1..], rest));
      SumAppend(if e.category == c then [e] else [], OfCategory(s[1..], c));
      SumAppend(if e.category !in [c] + rest then [e] else [], Outside(s[1..], [c] + rest));
    }
  }

  /** With distinct categories, the per-category totals add up to the sum of
      all records except those whose category is not listed. */
  lemma {:induction false} CategoriesCover(s: seq<Expense>, cats: seq<string>)
    requires NoDuplicates(cats)
    ensures CategoriesTotal(s, cats) + Sum(Outside(s, cats)) == Sum(s)
  {
    if cats == [] {
      OutsideNothing(s);
    } else {
      var c, rest := cats[0], cats[1..];
      assert cats == [c] + rest;
      assert c !in rest by {
        forall j | 0 <= j < |rest| ensures rest[j] != c { assert rest[j] == cats[j + 1]; }
      }
      assert NoDuplicates(rest) by {
        forall i, j | 0 <= i < j < |rest| ensures rest[i] != rest[j] {
          assert rest[i] == cats[i + 1] && rest[j] == cats[j + 1];
        }
      }
      CategoriesCover(s, rest);
      SplitOutside(s, c, rest);
    }
  }

  lemma {:induction false} OutsideNothing(s: seq<Expense>)
    ensures Outside(s, []) == s
  {
    if s != [] {
      OutsideNothing(s[1..]);
      assert [s[0]] + s[1..] == s;
    }
  }

  /** The seven listed categories are distinct. */
  lemma CategoriesDistinct()
    ensures |Categories| == 7 && NoDuplicates(Categories)
  {
  }

  /** Every record's category is one of the seven listed ones. */
  ghost predicate ListedCategories(s: seq<Expense>)
  {
    forall e :: e in s ==> e.category in Categories
  }

  /** The seven category cards add up to the running total's sum while every
      record has a listed category. */
  lemma CategoryCardsAddUp(s: seq<Expense>)
    requires ListedCategories(s)
    ensures CategoriesTotal(s, Categories) == Sum(s)
  {
    CategoriesDistinct();
    CategoriesCover(s, Categories);
    OutsideListed(s, Categories);
  }

  lemma {:induction false} OutsideListed(s: seq<Expense>, cats: seq<string>)
    requires forall e :: e in s ==> e.category in cats
    ensures Outside(s, cats) == []
  {
    if s != [] {
      assert s[0] in s;
      OutsideListed(s[1..], cats);
    }
  }

  lemma {:induction false} OutsideAppend(a: seq<Expense>, b: seq<Expense>, cats: seq<string>)
    ensures Outside(a + b, cats) == Outside(a, cats) + Outside(b, cats)
  {
    if a == [] {
      assert a + b == b;
    } else {
      assert (a + b)[1..] == a[1..] + b;
      OutsideAppend(a[1..], b, cats);
    }
  }

  /** Only the record at position k has a category outside `cats`. */
  lemma OutsideSingle(s: seq<Expense>, k: nat, cats: seq<string>)
    requires k < |s| && s[k].category !in cats
    requires forall j :: 0 <= j < |s| && j != k ==> s[j].category in cats
    ensures Outside(s, cats) == [s[k]]
  {
    var before, after := s[..k], s[k + 1..];
    assert s == before + ([s[k]] + after);
    forall e | e in before ensures e.category in cats {
      var j :| 0 <= j < |before| && before[j] == e;
      assert s[j] == e;
    }
    forall e | e in after ensures e.category in cats {
      var j :| 0 <= j < |after| && after[j] == e;
      assert s[k + 1 + j] == e;
    }
    OutsideListed(before, cats);
    OutsideListed(after, cats);
    OutsideAppend(before, [s[k]] + after, cats);
    OutsideAppend([s[k]], after, cats);
    assert Outside([s[k]], cats) == [s[k]];
  }

  /** The edit prompt accepts any category text: when every record but the
      one at position k has a listed category and that one does not, the
      seven category cards add up to the sum minus exactly its amount. */
  lemma UnlistedCategoryMissesCards(s: seq<Expense>, k: nat)
    requires k < |s| && s[k].category !in Categories
    requires forall j :: 0 <= j < |s| && j != k ==> s[j].category in Categories
    ensures CategoriesTotal(s, Categories) == Sum(s) - s[k].amount
  {
    OutsideSingle(s, k, Categories);
    CategoriesDistinct();
    CategoriesCover(s, Categories);
    assert [s[k]][1..] == [];
  }
}
