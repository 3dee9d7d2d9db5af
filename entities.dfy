/** The two records the application stores: `Meal` and `Category`. */
module Entities {
  import opened Wrappers

  /**
   * A meal. `price` is the decimal text the form accepted (the application converts it to a
   * `double`). `categoryName` is only filled in by the join that lists meals; a meal built
   * from the form, or stored in the `meals` table, has none.
   */
  datatype Meal = Meal(
    mealId: int,
    mealName: string,
    calories: int,
    price: string,
    categoryId: int,
    categoryName: Option<string>)

  /** A meal category; the description is free text. */
  datatype Category = Category(categoryId: int, categoryName: string, description: string)
}
