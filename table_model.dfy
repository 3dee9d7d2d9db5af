/**
 * The meals table's `DefaultTableModel`: a sequence of rows with the five columns
 * "Meal ID", "Meal Name", "Category", "Calories" and "Price".
 */
module TableModel {
  import opened Entities

  /** One row of the table, column by column. */
  datatype TableRow = TableRow(mealId: int, mealName: string, categoryLabel: string, calories: int, price: string)

  /** The label shown for a meal whose joined category name is absent. */
  const Uncategorized := "Uncategorized"

  /** The row `loadMeals` adds for one listed meal. */
  function DisplayRow(meal: Meal): (row: TableRow)
    ensures row.mealId == meal.mealId && row.mealName == meal.mealName
    ensures row.calories == meal.calories && row.price == meal.price
    ensures meal.categoryName.Some? ==> row.categoryLabel == meal.categoryName.value
    ensures meal.categoryName.None? ==> row.categoryLabel == Uncategorized
  {
    TableRow(meal.mealId, meal.mealName, meal.categoryName.GetOr(Uncategorized), meal.calories, meal.price)
  }

  /** The rows `loadMeals` adds for a listing, in the listing's order. */
  function DisplayRows(meals: seq<Meal>): (rows: seq<TableRow>)
    ensures |rows| == |meals|
    ensures forall i :: 0 <= i < |rows| ==> rows[i].mealId == meals[i].mealId
    ensures forall k :: 0 <= k <= |meals| ==> DisplayRows(meals[..k]) == rows[..k]
  {
    seq(|meals|, i requires 0 <= i < |meals| => DisplayRow(meals[i]))
  }

  /** `s` without its element at `index`: the elements before it stay put, the ones after move up by one. */
  function RemoveAt<T>(s: seq<T>, index: nat): (r: seq<T>)
    requires index < |s|
    ensures |r| == |s| - 1
    ensures forall k :: 0 <= k < index ==> r[k] == s[k]
    ensures forall k :: index <= k < |r| ==> r[k] == s[k + 1]
  {
    s[..index] + s[index + 1..]
  }

  /** Removing one element loses that element and nothing else. */
  lemma RemoveAtMultiset<T>(s: seq<T>, index: nat)
    requires index < |s|
    ensures multiset(RemoveAt(s, index)) + multiset{s[index]} == multiset(s)
  {
    assert s == s[..index] + [s[index]] + s[index + 1..];
  }

  class MealTableModel {
    /** The table's rows, top to bottom. */
    var rows: seq<TableRow>

    /** `new DefaultTableModel(columnNames, 0)`: no rows. */
    constructor ()
      ensures rows == []
    {
      rows := [];
    }

    /** `setRowCount(0)`. */
    method Clear()
      modifies this
      ensures rows == []
    {
      rows := [];
    }

    /** `addRow`: appends one row at the bottom. */
    method AddRow(row: TableRow)
      modifies this
      ensures rows == old(rows) + [row]
    {
      rows := rows + [row];
    }

    /** `removeRow(index)` on a row that exists. */
    method RemoveRow(index: int)
      requires 0 <= index < |rows|
      modifies this
      ensures rows == RemoveAt(old(rows), index)
    {
      rows := rows[..index] + rows[index + 1..];
    }
  }
}
