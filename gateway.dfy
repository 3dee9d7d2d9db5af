/**
 * `MealDatabaseService`: the data gateway over the two tables `meals` and
 * `meal_categories`. The tables are modelled as maps keyed by their primary keys; each
 * gateway method is one SQL statement, and its `DatabaseException` is a `Failed` outcome.
 */
module Gateway {
  import opened Wrappers
  import opened JavaText
  import opened Entities

  /** The outcome of a write: done, or the message of the `DatabaseException` it threw. */
  datatype Outcome = Done | Failed(message: string)

  const InsertMealFailed := "Failed to insert meal"
  const InsertCategoryFailed := "Failed to insert category"

  /** The message `delete` throws when no row has the id. */
  function NoMealFound(mealId: int): (m: string)
    ensures |m| > 23 && m[..23] == "No meal found with ID: "
    ensures IntMin <= mealId <= IntMax ==> ParseInt(m[23..]) == Some(mealId)
  {
    assert IntMin <= mealId <= IntMax ==> ParseInt(IntToString(mealId)) == Some(mealId) by {
      if IntMin <= mealId <= IntMax {
        ParseIntToString(mealId);
      }
    }
    assert ("No meal found with ID: " + IntToString(mealId))[23..] == IntToString(mealId);
    "No meal found with ID: " + IntToString(mealId)
  }

  /** The five columns of the `meals` table that `insert` writes: everything but the joined name. */
  function StoredRow(meal: Meal): (row: Meal)
    ensures row.mealId == meal.mealId && row.mealName == meal.mealName
    ensures row.calories == meal.calories && row.price == meal.price && row.categoryId == meal.categoryId
    ensures row.categoryName.None?
  {
    meal.(categoryName := None)
  }

  /**
   * The row `meals m LEFT JOIN meal_categories c ON m.category_id = c.category_id`
   * yields for one meal: its own columns and the name of the category with that id,
   * or nothing when there is none.
   */
  function Joined(meal: Meal, categories: map<int, Category>): (row: Meal)
    ensures row.(categoryName := None) == meal.(categoryName := None)
    ensures row.categoryName.Some? <==> meal.categoryId in categories
    ensures row.categoryName.Some? ==> row.categoryName.value == categories[meal.categoryId].categoryName
  {
    meal.(categoryName := if meal.categoryId in categories then Some(categories[meal.categoryId].categoryName) else None)
  }

  /**
   * `rows` is a result of the join in some order: exactly one row per stored meal,
   * each carrying its category's name when the category exists.
   */
  ghost predicate IsMealListing(rows: seq<Meal>, meals: map<int, Meal>, categories: map<int, Category>)
  {
    && |rows| == |meals|
    && (forall i :: 0 <= i < |rows| ==>
          rows[i].mealId in meals && rows[i] == Joined(meals[rows[i].mealId], categories))
    && (forall i, j :: 0 <= i < j < |rows| ==> rows[i].mealId != rows[j].mealId)
    && (forall id :: id in meals ==> exists i :: 0 <= i < |rows| && rows[i].mealId == id)
  }

  /** `rows` is the content of `meal_categories` in some order, one row per category. */
  ghost predicate IsCategoryListing(rows: seq<Category>, categories: map<int, Category>)
  {
    && |rows| == |categories|
    && (forall i :: 0 <= i < |rows| ==>
          rows[i].categoryId in categories && rows[i] == categories[rows[i].categoryId])
    && (forall i, j :: 0 <= i < j < |rows| ==> rows[i].categoryId != rows[j].categoryId)
    && (forall id :: id in categories ==> exists i :: 0 <= i < |rows| && rows[i].categoryId == id)
  }

  /** Two listings of the same tables hold the same rows: only the order is left open. */
  lemma ListingsAgree(rows1: seq<Meal>, rows2: seq<Meal>, meals: map<int, Meal>, categories: map<int, Category>)
    requires IsMealListing(rows1, meals, categories) && IsMealListing(rows2, meals, categories)
    ensures |rows1| == |rows2|
    ensures forall row :: row in rows1 <==> row in rows2
  {
    forall row | row in rows1 ensures row in rows2 {
      var i :| 0 <= i < |rows1| && rows1[i] == row;
      var j :| 0 <= j < |rows2| && rows2[j].mealId == row.mealId;
      assert rows2[j] == row;
    }
    forall row | row in rows2 ensures row in rows1 {
      var i :| 0 <= i < |rows2| && rows2[i] == row;
      var j :| 0 <= j < |rows1| && rows1[j].mealId == row.mealId;
      assert rows1[j] == row;
    }
  }

  /**
   * The listed row of a stored meal names its category exactly when a category with
   * the meal's category id exists, and then it is that category's name.
   */
  lemma ListingJoinsCategory(rows: seq<Meal>, meals: map<int, Meal>, categories: map<int, Category>, mealId: int)
    requires IsMealListing(rows, meals, categories) && mealId in meals
    ensures exists i :: 0 <= i < |rows| && rows[i].mealId == mealId
    ensures forall i :: 0 <= i < |rows| && rows[i].mealId == mealId ==>
      && rows[i].(categoryName := None) == meals[mealId].(categoryName := None)
      && (rows[i].categoryName.Some? <==> meals[mealId].categoryId in categories)
      && (rows[i].categoryName.Some? ==> rows[i].categoryName.value == categories[meals[mealId].categoryId].categoryName)
  {
  }

  /**
   * Inserting a new meal and then listing the meals yields exactly one row for it, which
   * names its category when that category exists and names none otherwise.
   */
  lemma InsertThenList(rows: seq<Meal>, meals: map<int, Meal>, categories: map<int, Category>, meal: Meal)
    requires meal.mealId !in meals
    requires IsMealListing(rows, meals[meal.mealId := StoredRow(meal)], categories)
    ensures exists i :: 0 <= i < |rows| && rows[i].mealId == meal.mealId
    ensures forall i :: 0 <= i < |rows| && rows[i].mealId == meal.mealId ==>
      && rows[i] == meal.(categoryName := rows[i].categoryName)
      && rows[i].categoryName == (if meal.categoryId in categories then Some(categories[meal.categoryId].categoryName) else None)
    ensures forall i, j :: 0 <= i < |rows| && 0 <= j < |rows| && rows[i].mealId == meal.mealId && rows[j].mealId == meal.mealId ==> i == j
  {
    var stored := meals[meal.mealId := StoredRow(meal)];
    assert meal.mealId in stored;
    forall i | 0 <= i < |rows| && rows[i].mealId == meal.mealId
      ensures rows[i] == meal.(categoryName := rows[i].categoryName)
    {
      assert rows[i] == Joined(stored[meal.mealId], categories);
    }
  }

  /**
   * A run against an empty database: add the category (1, "Breakfast"), add meal 101 in
   * it, list, delete meal 101, list again.
   */
  method BreakfastScenario() returns (first: seq<Meal>, second: seq<Meal>)
    ensures first == [Meal(101, "Oatmeal", 250, "3.50", 1, Some("Breakfast"))]
    ensures second == []
  {
    var db := new MealDatabaseService(map[], map[]);
    var added := db.InsertCategory(Category(1, "Breakfast", "Morning meals"));
    var inserted := db.Insert(Meal(101, "Oatmeal", 250, "3.50", 1, None));
    assert db.meals == map[101 := Meal(101, "Oatmeal", 250, "3.50", 1, None)];
    first := db.GetAll();
    assert first[0].mealId in db.meals;
    var deleted := db.Delete(101);
    second := db.GetAll();
  }

  class MealDatabaseService {
    /** The `meals` table, keyed by its primary key `meal_id`. */
    var meals: map<int, Meal>
    /** The `meal_categories` table, keyed by its primary key `category_id`. */
    var categories: map<int, Category>

    /** Each row sits under its own key, and a stored meal carries no joined name. */
    ghost predicate Valid()
      reads this
    {
      && (forall id :: id in meals ==> meals[id].mealId == id && meals[id].categoryName.None?)
      && (forall id :: id in categories ==> categories[id].categoryId == id)
    }

    /** A gateway over a database that already holds these tables. */
    constructor (meals: map<int, Meal>, categories: map<int, Category>)
      requires forall id :: id in meals ==> meals[id].mealId == id && meals[id].categoryName.None?
      requires forall id :: id in categories ==> categories[id].categoryId == id
      ensures Valid()
      ensures this.meals == meals && this.categories == categories
    {
      this.meals := meals;
      this.categories := categories;
    }

    /** `insert`: a new row, or a failure when the primary key is already taken. */
    method Insert(meal: Meal) returns (outcome: Outcome)
      requires Valid()
      modifies this
      ensures Valid()
      ensures categories == old(categories)
      ensures meal.mealId in old(meals) ==> outcome == Failed(InsertMealFailed) && meals == old(meals)
      ensures meal.mealId !in old(meals) ==> outcome == Done && meals == old(meals)[meal.mealId := StoredRow(meal)]
    {
      if meal.mealId in meals {
        outcome := Failed(InsertMealFailed);
      } else {
        meals := meals[meal.mealId := StoredRow(meal)];
        outcome := Done;
      }
    }

    /** `delete`: removes the row with the id, or fails when no row matches. */
    method Delete(mealId: int) returns (outcome: Outcome)
      requires Valid()
      modifies this
      ensures Valid()
      ensures categories == old(categories)
      ensures mealId in old(meals) ==> outcome == Done && meals == old(meals) - {mealId}
      ensures mealId !in old(meals) ==> outcome == Failed(NoMealFound(mealId)) && unchanged(this)
    {
      // executeUpdate reports how many rows matched: one when the key is present, none otherwise
      var affectedRows := if mealId in meals then 1 else 0;
      if affectedRows == 0 {
        outcome := Failed(NoMealFound(mealId));
      } else {
        meals := meals - {mealId};
        outcome := Done;
      }
    }

    /** `getAll`: the rows of the left join, read one by one in whatever order the store yields. */
    method GetAll() returns (rows: seq<Meal>)
      requires Valid()
      ensures IsMealListing(rows, meals, categories)
    {
      rows := [];
      var pending := meals.Keys;
      while |pending| > 0
        invariant pending <= meals.Keys
        invariant |rows| + |pending| == |meals|
        invariant forall i :: 0 <= i < |rows| ==>
          rows[i].mealId in meals && rows[i].mealId !in pending && rows[i] == Joined(meals[rows[i].mealId], categories)
        invariant forall i, j :: 0 <= i < j < |rows| ==> rows[i].mealId != rows[j].mealId
        invariant forall id :: id in meals && id !in pending ==> exists i :: 0 <= i < |rows| && rows[i].mealId == id
        decreases pending
      {
        if forall key :: key !in pending {
          assert false;  // a set of positive size has a member
        }
        var id :| id in pending;
        ghost var before, waiting := rows, pending;
        rows := rows + [Joined(meals[id], categories)];
        pending := pending - {id};
        forall other | other in meals && other !in pending
          ensures exists i :: 0 <= i < |rows| && rows[i].mealId == other
        {
          if other == id {
            assert rows[|before|].mealId == other;
          } else {
            assert other !in waiting;
            var i :| 0 <= i < |before| && before[i].mealId == other;
            assert rows[i] == before[i];
          }
        }
      }
    }

    /** `getAllCategories`: every row of `meal_categories`, in whatever order the store yields. */
    method GetAllCategories() returns (rows: seq<Category>)
      requires Valid()
      ensures IsCategoryListing(rows, categories)
    {
      rows := [];
      var pending := categories.Keys;
      while |pending| > 0
        invariant pending <= categories.Keys
        invariant |rows| + |pending| == |categories|
        invariant forall i :: 0 <= i < |rows| ==>
          rows[i].categoryId in categories && rows[i].categoryId !in pending && rows[i] == categories[rows[i].categoryId]
        invariant forall i, j :: 0 <= i < j < |rows| ==> rows[i].categoryId != rows[j].categoryId
        invariant forall id :: id in categories && id !in pending ==> exists i :: 0 <= i < |rows| && rows[i].categoryId == id
        decreases pending
      {
        if forall key :: key !in pending {
          assert false;  // a set of positive size has a member
        }
        var id :| id in pending;
        ghost var before, waiting := rows, pending;
        rows := rows + [categories[id]];
        pending := pending - {id};
        forall other | other in categories && other !in pending
          ensures exists i :: 0 <= i < |rows| && rows[i].categoryId == other
        {
          if other == id {
            assert rows[|before|].categoryId == other;
          } else {
            assert other !in waiting;
            var i :| 0 <= i < |before| && before[i].categoryId == other;
            assert rows[i] == before[i];
          }
        }
      }
    }

    /** `insertCategory`: a new row, or a failure when the primary key is already taken. */
    method InsertCategory(category: Category) returns (outcome: Outcome)
      requires Valid()
      modifies this
      ensures Valid()
      ensures meals == old(meals)
      ensures category.categoryId in old(categories) ==>
        outcome == Failed(InsertCategoryFailed) && categories == old(categories)
      ensures category.categoryId !in old(categories) ==>
        outcome == Done && categories == old(categories)[category.categoryId := category]
    {
      if category.categoryId in categories {
        outcome := Failed(InsertCategoryFailed);
      } else {
        categories := categories[category.categoryId := category];
        outcome := Done;
      }
    }
  }
}
