/**
 * `MealLab12`, the frame's workflows without the widgets: submitting the meal form,
 * deleting the selected table row, saving the category dialog, and reloading the
 * table and the category combo box. Each workflow is one sequential step: the
 * background task and the hand-back to the event thread run back to back.
 */
module Planner {
  import opened Wrappers
  import opened Entities
  import Validation
  import opened Gateway
  import opened TableModel

  /** A message dialog: its kind, its title and its text. */
  datatype Notice =
    | Information(title: string, text: string)
    | Warning(title: string, text: string)
    | Error(title: string, text: string)

  const SuccessTitle := "Success"
  const ValidationErrorTitle := "Validation Error"
  const SelectionErrorTitle := "Selection Error"
  const MealAdded := "Meal Added Successfully!"
  const MealDeleted := "Meal Deleted Successfully!"
  const CategoryAdded := "Category Added Successfully!"
  const SelectMealFirst := "Please select a meal to delete!"
  const AddingMeal := "Error adding meal"
  const DeletingMeal := "Error deleting meal"
  const AddingCategory := "Error adding category"

  /** `handleException(e, context)`: an error dialog with the context, a line break and the exception's message. */
  function ErrorNotice(context: string, message: string): (notice: Notice)
    ensures notice.Error? && notice.title == "Error"
    ensures |notice.text| == |context| + 1 + |message|
    ensures notice.text[..|context|] == context && notice.text[|context|] == '\n'
    ensures notice.text[|context| + 1..] == message
  {
    Error("Error", context + "\n" + message)
  }

  /** The id of the combo box's selected category; nothing when no item is selected (index -1). */
  function SelectedCategoryId(items: seq<Category>, selectedIndex: int): (r: Option<int>)
    requires -1 <= selectedIndex < |items|
    ensures r.None? <==> selectedIndex == -1
    ensures r.Some? ==> r.value == items[selectedIndex].categoryId
  {
    if selectedIndex == -1 then None else Some(items[selectedIndex].categoryId)
  }

  /**
   * The table shows the store: one row per stored meal, no meal twice, each row the
   * display of that meal's joined listing row.
   */
  ghost predicate ShowsStore(rows: seq<TableRow>, meals: map<int, Meal>, categories: map<int, Category>)
  {
    && |rows| == |meals|
    && (forall i :: 0 <= i < |rows| ==>
          rows[i].mealId in meals && rows[i] == DisplayRow(Joined(meals[rows[i].mealId], categories)))
    && (forall i, j :: 0 <= i < j < |rows| ==> rows[i].mealId != rows[j].mealId)
    && (forall id :: id in meals ==> exists i :: 0 <= i < |rows| && rows[i].mealId == id)
  }

  /** Displaying a listing of the store, row by row, shows the store. */
  lemma DisplayedListingShowsStore(listing: seq<Meal>, meals: map<int, Meal>, categories: map<int, Category>)
    requires IsMealListing(listing, meals, categories)
    ensures ShowsStore(DisplayRows(listing), meals, categories)
  {
    var rows := DisplayRows(listing);
    forall id | id in meals ensures exists i :: 0 <= i < |rows| && rows[i].mealId == id {
      var i :| 0 <= i < |listing| && listing[i].mealId == id;
      assert rows[i].mealId == id;
    }
  }

  /**
   * Each shown row carries its stored meal's columns, and its category column is the
   * name of the meal's category when that category exists and "Uncategorized" otherwise.
   */
  lemma ShownRow(rows: seq<TableRow>, meals: map<int, Meal>, categories: map<int, Category>, i: int)
    requires ShowsStore(rows, meals, categories) && 0 <= i < |rows|
    ensures rows[i].mealId in meals
    ensures var meal := meals[rows[i].mealId];
      && rows[i].mealName == meal.mealName && rows[i].calories == meal.calories && rows[i].price == meal.price
      && rows[i].categoryLabel == (if meal.categoryId in categories then categories[meal.categoryId].categoryName else Uncategorized)
  {
    assert rows[i] == DisplayRow(Joined(meals[rows[i].mealId], categories));
  }

  /** Removing a shown meal's row and the meal's stored row keeps the table showing the store. */
  lemma RemoveKeepsShowsStore(rows: seq<TableRow>, meals: map<int, Meal>, categories: map<int, Category>, index: int)
    requires ShowsStore(rows, meals, categories) && 0 <= index < |rows|
    ensures ShowsStore(RemoveAt(rows, index), meals - {rows[index].mealId}, categories)
  {
    var left := meals - {rows[index].mealId};
    assert |left| == |meals| - 1;
    RemoveKeepsRows(rows, meals, categories, index);
    RemoveKeepsDistinct(rows, meals, categories, index);
    RemoveKeepsCoverage(rows, meals, categories, index);
  }

  lemma RemoveKeepsRows(rows: seq<TableRow>, meals: map<int, Meal>, categories: map<int, Category>, index: int)
    requires ShowsStore(rows, meals, categories) && 0 <= index < |rows|
    ensures var rest, left := RemoveAt(rows, index), meals - {rows[index].mealId};
      forall i :: 0 <= i < |rest| ==> rest[i].mealId in left && rest[i] == DisplayRow(Joined(left[rest[i].mealId], categories))
  {
    var rest, left := RemoveAt(rows, index), meals - {rows[index].mealId};
    forall i | 0 <= i < |rest| ensures rest[i].mealId in left && rest[i] == DisplayRow(Joined(left[rest[i].mealId], categories)) {
      var k := if i < index then i else i + 1;
      assert rest[i] == rows[k] && k != index;
    }
  }

  lemma RemoveKeepsDistinct(rows: seq<TableRow>, meals: map<int, Meal>, categories: map<int, Category>, index: int)
    requires ShowsStore(rows, meals, categories) && 0 <= index < |rows|
    ensures var rest := RemoveAt(rows, index);
      forall i, j :: 0 <= i < j < |rest| ==> rest[i].mealId != rest[j].mealId
  {
    var rest := RemoveAt(rows, index);
    forall i, j | 0 <= i < j < |rest| ensures rest[i].mealId != rest[j].mealId {
      var ki := if i < index then i else i + 1;
      var kj := if j < index then j else j + 1;
      assert rest[i] == rows[ki] && rest[j] == rows[kj] && ki < kj;
    }
  }

  lemma RemoveKeepsCoverage(rows: seq<TableRow>, meals: map<int, Meal>, categories: map<int, Category>, index: int)
    requires ShowsStore(rows, meals, categories) && 0 <= index < |rows|
    ensures var rest, left := RemoveAt(rows, index), meals - {rows[index].mealId};
      forall id :: id in left ==> exists i :: 0 <= i < |rest| && rest[i].mealId == id
  {
    var rest, left := RemoveAt(rows, index), meals - {rows[index].mealId};
    forall id | id in left ensures exists i :: 0 <= i < |rest| && rest[i].mealId == id {
      var k :| 0 <= k < |rows| && rows[k].mealId == id;
      assert k != index;
      var i := if k < index then k else k - 1;
      assert rest[i] == rows[k];
    }
  }

  /**
   * A new category whose id some shown meal already refers to leaves that meal's row out
   * of date: the table stops showing the store until it is reloaded.
   */
  lemma NewCategoryStalesRow(rows: seq<TableRow>, meals: map<int, Meal>, categories: map<int, Category>, category: Category, i: int)
    requires ShowsStore(rows, meals, categories) && 0 <= i < |rows|
    requires category.categoryId !in categories && category.categoryName != Uncategorized
    requires meals[rows[i].mealId].categoryId == category.categoryId
    ensures !ShowsStore(rows, meals, categories[category.categoryId := category])
  {
    ShownRow(rows, meals, categories, i);
    if ShowsStore(rows, meals, categories[category.categoryId := category]) {
      ShownRow(rows, meals, categories[category.categoryId := category], i);
      assert false;
    }
  }

  class MealPlanner {
    /** The data gateway. */
    const db: MealDatabaseService
    /** The meals table's model. */
    const table: MealTableModel
    /** The category combo box's items, top to bottom. */
    var categoryItems: seq<Category>

    ghost predicate Valid()
      reads this, db
    {
      db.Valid()
    }

    /** The frame's start-up: load the categories, then the meals. */
    constructor (db: MealDatabaseService)
      requires db.Valid()
      ensures this.db == db && fresh(table) && Valid()
      ensures IsCategoryListing(categoryItems, db.categories)
      ensures ShowsStore(table.rows, db.meals, db.categories)
    {
      this.db := db;
      table := new MealTableModel();
      categoryItems := [];
      new;
      LoadCategories();
      LoadMeals();
    }

    /** `loadCategories`: empties the combo box and adds every stored category. */
    method LoadCategories()
      requires Valid()
      modifies this
      ensures Valid()
      ensures IsCategoryListing(categoryItems, db.categories)
    {
      var categories := db.GetAllCategories();
      categoryItems := [];
      for i := 0 to |categories|
        invariant categoryItems == categories[..i]
      {
        categoryItems := categoryItems + [categories[i]];
      }
      assert categories[..|categories|] == categories;
    }

    /** `loadMeals` (and the Refresh button): the table is emptied and refilled from the join. */
    method LoadMeals()
      requires Valid()
      modifies table
      ensures Valid()
      ensures ShowsStore(table.rows, db.meals, db.categories)
    {
      var meals := db.GetAll();
      table.Clear();
      for i := 0 to |meals|
        invariant table.rows == DisplayRows(meals[..i])
      {
        table.AddRow(DisplayRow(meals[i]));
      }
      assert meals[..|meals|] == meals;
      DisplayedListingShowsStore(meals, db.meals, db.categories);
    }

    /**
     * `submitMeal`: a rejected form changes nothing and shows the validation message; an
     * accepted one is inserted, and on success the table is reloaded.
     */
    method SubmitMeal(mealIdText: string, mealNameText: string, caloriesText: string, priceText: string, selectedIndex: int)
      returns (notice: Notice)
      requires Valid() && -1 <= selectedIndex < |categoryItems|
      modifies db, table
      ensures Valid()
      ensures var verdict := Validation.SubmitMeal(mealIdText, mealNameText, caloriesText, priceText,
                                                  SelectedCategoryId(categoryItems, selectedIndex));
        && (verdict.Rejected? ==>
              notice == Warning(ValidationErrorTitle, verdict.message) && unchanged(db) && unchanged(table))
        && (verdict.Accepted? ==> InsertedMeal(verdict.value, notice, old(db.meals), old(db.categories), old(table.rows)))
    {
      var verdict := Validation.SubmitMeal(mealIdText, mealNameText, caloriesText, priceText,
                                           SelectedCategoryId(categoryItems, selectedIndex));
      notice := DispatchMeal(verdict);
    }

    /** What `submitMeal` does with the form's verdict: warn on a rejection, insert an accepted meal. */
    method DispatchMeal(verdict: Validation.Validated<Meal>) returns (notice: Notice)
      requires Valid()
      modifies db, table
      ensures Valid()
      ensures verdict.Rejected? ==>
        notice == Warning(ValidationErrorTitle, verdict.message) && unchanged(db) && unchanged(table)
      ensures verdict.Accepted? ==> InsertedMeal(verdict.value, notice, old(db.meals), old(db.categories), old(table.rows))
    {
      match verdict
      case Rejected(message) =>
        notice := Warning(ValidationErrorTitle, message);
      case Accepted(meal) =>
        notice := InsertMeal(meal);
    }

    /**
     * What inserting an accepted meal leads to: on a taken id, the error dialog and no
     * change; otherwise the new stored row, a reloaded table and the success dialog.
     */
    ghost predicate InsertedMeal(meal: Meal, notice: Notice, meals0: map<int, Meal>, categories0: map<int, Category>, rows0: seq<TableRow>)
      reads this, db, table
    {
      && db.categories == categories0
      && (meal.mealId in meals0 ==>
            notice == ErrorNotice(AddingMeal, InsertMealFailed) && db.meals == meals0 && table.rows == rows0)
      && (meal.mealId !in meals0 ==>
            && notice == Information(SuccessTitle, MealAdded)
            && db.meals == meals0[meal.mealId := StoredRow(meal)]
            && ShowsStore(table.rows, db.meals, db.categories))
    }

    /** The task `submitMeal` hands to the executor for an accepted meal. */
    method InsertMeal(meal: Meal) returns (notice: Notice)
      requires Valid()
      modifies db, table
      ensures Valid()
      ensures InsertedMeal(meal, notice, old(db.meals), old(db.categories), old(table.rows))
    {
      var outcome := db.Insert(meal);
      match outcome
      case Failed(message) =>
        notice := ErrorNotice(AddingMeal, message);
      case Done =>
        LoadMeals();
        notice := Information(SuccessTitle, MealAdded);
    }

    /**
     * `deleteMeal`: with no selection, a warning; when the prompt is declined, nothing;
     * otherwise the selected row's meal is deleted, and only on success is that row removed.
     */
    method DeleteMeal(selectedRow: int, confirmed: bool) returns (notice: Option<Notice>)
      requires Valid() && -1 <= selectedRow < |table.rows|
      modifies db, table
      ensures Valid()
      ensures selectedRow == -1 ==>
        notice == Some(Warning(SelectionErrorTitle, SelectMealFirst)) && unchanged(db) && unchanged(table)
      ensures selectedRow != -1 && !confirmed ==> notice == None && unchanged(db) && unchanged(table)
      ensures selectedRow != -1 && confirmed ==>
        var mealId := old(table.rows[selectedRow].mealId);
        && (mealId in old(db.meals) ==>
              && notice == Some(Information(SuccessTitle, MealDeleted))
              && db.meals == old(db.meals) - {mealId} && db.categories == old(db.categories)
              && table.rows == RemoveAt(old(table.rows), selectedRow))
        && (mealId !in old(db.meals) ==>
              notice == Some(ErrorNotice(DeletingMeal, NoMealFound(mealId))) && unchanged(db) && unchanged(table))
      ensures old(ShowsStore(table.rows, db.meals, db.categories)) ==> ShowsStore(table.rows, db.meals, db.categories)
    {
      if selectedRow == -1 {
        return Some(Warning(SelectionErrorTitle, SelectMealFirst));
      }
      var mealId := table.rows[selectedRow].mealId;
      if !confirmed {
        return None;
      }
      ghost var before := table.rows;
      ghost var stored := db.meals;
      var outcome := db.Delete(mealId);
      match outcome
      case Failed(message) =>
        notice := Some(ErrorNotice(DeletingMeal, message));
      case Done =>
        table.RemoveRow(selectedRow);
        notice := Some(Information(SuccessTitle, MealDeleted));
        if ShowsStore(before, stored, db.categories) {
          RemoveKeepsShowsStore(before, stored, db.categories, selectedRow);
        }
    }

    /**
     * The category dialog's Save: a rejected form changes nothing and shows the validation
     * message; an accepted category is inserted and, on success, the combo box is reloaded.
     * The meals table is left as it was.
     */
    method AddCategory(idText: string, nameText: string, descriptionText: string) returns (notice: Notice)
      requires Valid()
      modifies this, db
      ensures Valid() && unchanged(table)
      ensures var verdict := Validation.SaveCategory(idText, nameText, descriptionText);
        && (verdict.Rejected? ==>
              notice == Warning(ValidationErrorTitle, verdict.message) && unchanged(this) && unchanged(db))
        && (verdict.Accepted? ==> InsertedCategory(verdict.value, notice, old(db.meals), old(db.categories), old(categoryItems)))
    {
      var verdict := Validation.SaveCategory(idText, nameText, descriptionText);
      match verdict
      case Rejected(message) =>
        notice := Warning(ValidationErrorTitle, message);
      case Accepted(category) =>
        notice := InsertCategory(category);
    }

    /**
     * What inserting an accepted category leads to: on a taken id, the error dialog and no
     * change; otherwise the new stored row, a reloaded combo box and the success dialog.
     */
    ghost predicate InsertedCategory(category: Category, notice: Notice, meals0: map<int, Meal>, categories0: map<int, Category>, items0: seq<Category>)
      reads this, db
    {
      && db.meals == meals0
      && (category.categoryId in categories0 ==>
            notice == ErrorNotice(AddingCategory, InsertCategoryFailed) && db.categories == categories0 && categoryItems == items0)
      && (category.categoryId !in categories0 ==>
            && notice == Information(SuccessTitle, CategoryAdded)
            && db.categories == categories0[category.categoryId := category]
            && IsCategoryListing(categoryItems, db.categories))
    }

    /** The task the dialog hands to the executor for an accepted category. */
    method InsertCategory(category: Category) returns (notice: Notice)
      requires Valid()
      modifies this, db
      ensures Valid() && unchanged(table)
      ensures InsertedCategory(category, notice, old(db.meals), old(db.categories), old(categoryItems))
    {
      var outcome := db.InsertCategory(category);
      match outcome
      case Failed(message) =>
        notice := ErrorNotice(AddingCategory, message);
      case Done =>
        LoadCategories();
        notice := Information(SuccessTitle, CategoryAdded);
    }
  }
}
