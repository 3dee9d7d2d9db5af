# Meal planner: form validation, data gateway and table model

This project models the logic of the meal planning application `MealLab12`, a Swing frame backed by a relational database. The model covers:

- **Meal form submit handler.** The four fields (meal ID, name, calories, price) are trimmed. They go through seven `validateInput` checks in a fixed order, and the first failing check's message is shown in a "Validation Error" dialog. The ID and the calories are parsed with `Integer.parseInt`. An overflow throws a `NumberFormatException`, and the same handler reports it as a validation failure. An accepted form becomes a `Meal` carrying the selected category's id, or 0 when no category is selected. The gateway inserts it, and the table is reloaded.
- **Category dialog's Save handler.** An empty id is rejected first, then an empty name, then a non-digit id. The description is never checked.
- **`validateMealName`.** It rejects a null or blank name first, then an untrimmed name longer than 50 UTF-16 code units.
- **`MealDatabaseService`.** The two tables are maps keyed by their primary keys. `insert` and `insertCategory` fail on a taken key. `delete` fails with "No meal found with ID: <id>" when no row matches. `getAll` is the left join of meals with categories, read row by row in whatever order the store yields. `getAllCategories` lists the category table.
- **Meals table model and the frame's workflows.** A reload replaces every row with one row per stored meal, and a missing category shows as "Uncategorized". A confirmed, successful delete removes exactly the selected row. A failed delete, a declined prompt or an empty selection leaves the table as it was.

Modules:

- `Wrappers`: `Option`, standing in for nullable references.
- `JavaText`: the Java library behaviour the checks rely on:
  - `String.trim`;
  - `String.length` in UTF-16 code units;
  - the patterns `\d+` and `\d+(\.\d+)?` under `String.matches`;
  - `Integer.parseInt`;
  - `"" + int`.
- `Entities`: `Meal` and `Category`.
- `Validation`: the three form checks as pure functions returning `Rejected(message)` or `Accepted(record)`, and the lemmas about check order.
- `Gateway`: the `MealDatabaseService` class over the two maps, and the listing predicates and lemmas.
- `TableModel`: the `MealTableModel` class holding the table's rows.
- `Planner`: the `MealPlanner` class, the frame's workflows. It ties together the gateway, the table model and the combo box's items.

Each workflow runs as one sequential step. The dialogs it ends with are returned as a `Notice`. The delete confirmation prompt is a boolean parameter.

Two behaviours of the code are worth knowing; the model follows the code in both:

- **Name length.** A meal name is meant to be at most 50 characters, but the submit handler does not check the length, and `validateMealName`, which does, is never called. `Validation.SubmitMealAcceptsLongName` and `Validation.ValidateMealNameRejectsLongName` show the two behaviours side by side.
- **Stale labels.** A category added through the dialog only reloads the combo box, not the meals table. A meal already referring to the new category id keeps its "Uncategorized" label until the next refresh (`Planner.NewCategoryStalesRow`).

## Model

| member | source | states |
|---|---|---|
| JavaText.StripLeading | Meal_Project.java:576-579 | the result is a suffix of the input, everything cut off is a trim space (code at most U+0020), and the result does not start with one |
| JavaText.StripTrailing | Meal_Project.java:576-579 | the result is a prefix of the input, everything cut off is a trim space, and the result does not end with one |
| JavaText.Trim | Meal_Project.java:576-579 | `String.trim`: no longer than the input, and neither end of a non-empty result is a trim space |
| JavaText.TrimIsTrimOf | Meal_Project.java:576-579 | the trim is a slice of the input with only trim spaces cut from either end |
| JavaText.TrimEmptyIff | Meal_Project.java:582-585 | a trimmed field is empty exactly when the raw text is all trim spaces |
| JavaText.TrimSkipsLeading | Meal_Project.java:576-579 | a leading blank is cut like any other, so a field typed with a leading space trims to the same text as without it |
| JavaText.TrimKeeps | Meal_Project.java:576-579 | text that starts and ends with a kept char is unchanged by trimming |
| JavaText.TrimIdempotent | Meal_Project.java:820 | trimming twice equals trimming once, so `validateMealName`'s blank check judges a name the form already trimmed exactly as the form did |
| JavaText.Utf16Length | Meal_Project.java:823 | `String.length` counts UTF-16 code units: at least the char count, at most twice it |
| JavaText.Utf16LengthBmp | Meal_Project.java:823 | on text inside the Basic Multilingual Plane the Java length is the char count |
| JavaText.MatchesDigits | Meal_Project.java:587-588 | `matches("\\d+")` holds exactly for a non-empty string that is a single run of digits |
| JavaText.DigitRun | Meal_Project.java:589 | the length of the leading run of digits: every char before it is a digit, the char at it is not |
| JavaText.MatchesDecimal | Meal_Project.java:589 | `matches("\\d+(\\.\\d+)?")` accepts every digit string; an accepted string starts and ends with a digit, and its only non-digit is a single dot right after the leading digit run |
| JavaText.MatchesDecimalIff | Meal_Project.java:589 | the scan accepts exactly the strings of the form digits, optionally a dot and digits |
| JavaText.DigitsValue | Meal_Project.java:591-592 | the value `parseInt` gives a digit string, read most significant digit first: its last digit is the units digit |
| JavaText.DigitsValueLeadingZero | Meal_Project.java:591-592 | a leading zero does not change the value, so "007" denotes 7 |
| JavaText.ParseInt | Meal_Project.java:591-592 | `Integer.parseInt` succeeds only with a value in the `int` range |
| JavaText.ParseIntOfDigits | Meal_Project.java:591-592 | on a digit string, `parseInt` yields its value exactly when the value is at most 2147483647, and throws otherwise |
| JavaText.NumberFormatMessage | Meal_Project.java:591-592 | the `NumberFormatException` text: `For input string: "`, then the input, then a closing quote |
| JavaText.NatToString | Meal_Project.java:155 | decimal writing of a natural number: digits only, denoting the number, no leading zero |
| JavaText.IntToString | Meal_Project.java:155 | writing an `int` never yields the empty string |
| JavaText.ParseIntToString | Meal_Project.java:155 | `parseInt` reads back every `int` that string concatenation wrote |
| JavaText.IntToStringInjective | Meal_Project.java:155 | distinct ids give distinct "No meal found" messages |
| Validation.FirstFailing | Meal_Project.java:281-286 | the index of the first failing check: every earlier check holds and the check at the index fails |
| Validation.RunChecks | Meal_Project.java:281-286 | a chain of `validateInput` calls passes exactly when every check holds |
| Validation.RunChecksFirstFailureWins | Meal_Project.java:281-286 | the message reported is that of the first failing check |
| Validation.MealChecks | Meal_Project.java:582-589 | seven checks with pairwise distinct messages; a field's format check passing implies its emptiness check passes |
| Validation.MealChecksAllHold | Meal_Project.java:582-589 | the seven meal checks pass exactly when the name is non-empty, ID and calories are digit strings and the price matches the decimal pattern |
| Validation.CheckMealFields | Meal_Project.java:582-600 | over trimmed fields: accepted exactly when ID and calories are digit strings in the `int` range, the name is non-empty and the price is a decimal literal; the accepted meal carries the parsed numbers, the name, the price text and the selected category id or 0 |
| Validation.SubmitMeal | Meal_Project.java:576-600 | the same verdict over the trimmed raw fields |
| Validation.MealBlankFieldFirst | Meal_Project.java:582-585 | the first blank field in form order is reported, before any format check |
| Validation.MealFormatMessages | Meal_Project.java:587-589 | with no blank field, each format message is reported exactly when its field is the first malformed one |
| Validation.NumberFormatMessageDiffers | Meal_Project.java:621-622 | a parse failure message is none of the seven form messages |
| Validation.MealOverflow | Meal_Project.java:591-592 | a well-formed ID or calorie count above 2147483647 is rejected with the JDK's `For input string` message, the ID before the calories |
| Validation.CategoryChecks | Meal_Project.java:717-719 | three checks with pairwise distinct messages; the id's format check passing implies its emptiness check passes |
| Validation.CategoryChecksAllHold | Meal_Project.java:717-719 | the three category checks pass exactly when the name is non-empty and the id is a digit string |
| Validation.CheckCategoryFields | Meal_Project.java:717-723 | over trimmed fields: accepted exactly when the id is a digit string in the `int` range and the name is non-empty; the category carries the parsed id, the name and the description |
| Validation.SaveCategory | Meal_Project.java:713-723 | the same verdict over the trimmed raw fields, with the trimmed description passed through |
| Validation.CategoryCheckOrder | Meal_Project.java:717-721 | the dialog reports an empty id, then an empty name, then a non-digit id, then an overflowing id |
| Validation.SaveCategoryIgnoresDescription | Meal_Project.java:715-723 | the description never decides whether the dialog rejects, nor which message it shows |
| Validation.ValidateMealName | Meal_Project.java:819-826 | returns normally exactly for a non-null, non-blank name of at most 50 UTF-16 code units; a null or blank name gives "Meal name cannot be empty"; a non-blank name over 50 code units gives "Meal name cannot exceed 50 characters"
| Validation.ValidateMealNameBlankFirst | Meal_Project.java:820-821 | a blank name is reported as empty whatever its length |
| Validation.ValidateMealNameTooLongIff | Meal_Project.java:820-825 | a name over 50 code units is reported as too long exactly when it is not blank |
| Validation.SubmitMealRejectsLetterInId | Meal_Project.java:587 | ID "12a" is rejected with "Meal ID must be a positive integer" |
| Validation.SubmitMealBlankIdBeforeBadCalories | Meal_Project.java:582-588 | an empty ID with calories "abc" is rejected with "Meal ID cannot be empty" |
| Validation.SubmitMealAcceptsOatmeal | Meal_Project.java:576-600 | " 101", "Oatmeal ", "250", "3.50" with category 1 gives meal 101, the name without its trailing blank (its first seven characters, "Oatmeal"), 250 calories, price "3.50" as typed, category 1 |
| Validation.PriceRejections | Meal_Project.java:589 | "3.", ".5", "-1" and "1.2.3" do not match the price pattern |
| Validation.SubmitMealAcceptsLongName | Meal_Project.java:577-589 | the submit handler accepts a 51-letter name |
| Validation.ValidateMealNameRejectsLongName | Meal_Project.java:823-824 | `validateMealName` rejects a 51-letter name as too long |
| Validation.ValidateMealNameCountsBlanks | Meal_Project.java:820-824 | the limit is on the untrimmed name: 50 letters and a trailing blank are too long |
| Gateway.NoMealFound | Meal_Project.java:155 | "No meal found with ID: " followed by the id, which `parseInt` reads back for every `int` |
| Gateway.StoredRow | Meal_Project.java:126-132 | the row `insert` writes: the meal's id, name, calories, price and category id, and no joined category name |
| Gateway.Joined | Meal_Project.java:179-180 | the left join's row for a meal: its own columns, with a category name exactly when a category has the meal's category id, and then that category's name |
| Gateway.ListingsAgree | Meal_Project.java:179-193 | two listings of the same tables hold the same rows; only their order may differ |
| Gateway.ListingJoinsCategory | Meal_Project.java:179-190 | each stored meal has a listed row with its own columns, naming its category exactly when a category with that id exists |
| Gateway.InsertThenList | Meal_Project.java:123-135 | after inserting a new meal, a listing has exactly one row for it, naming its category, or none when that category does not exist |
| Gateway.BreakfastScenario | Meal_Project.java:123-193 | on an empty database: after adding category 1 "Breakfast" and meal 101 in it the listing is that one joined row, and after deleting 101 it is empty |
| Gateway.MealDatabaseService.constructor | Meal_Project.java:117-119 | a gateway over existing tables whose rows sit under their own keys |
| Gateway.MealDatabaseService.Insert | Meal_Project.java:123-135 | a taken id fails with "Failed to insert meal" and changes nothing; otherwise the five stored columns are added under the id |
| Gateway.MealDatabaseService.Delete | Meal_Project.java:148-156 | a missing id fails with "No meal found with ID: <id>" and changes nothing; otherwise exactly that row is removed |
| Gateway.MealDatabaseService.GetAll | Meal_Project.java:171-194 | the result is a listing of the left join: one joined row per stored meal, no meal twice |
| Gateway.MealDatabaseService.GetAllCategories | Meal_Project.java:208-225 | the result lists every category exactly once |
| Gateway.MealDatabaseService.InsertCategory | Meal_Project.java:239-249 | a taken id fails with "Failed to insert category" and changes nothing; otherwise the category is added under its id |
| TableModel.DisplayRow | Meal_Project.java:557-563 | the row shows the meal's id, name, calories and price, and its category name or "Uncategorized" when the name is absent |
| TableModel.DisplayRows | Meal_Project.java:556-563 | one row per listed meal with the same ids in the same order; a prefix of the listing displays as the same prefix of the rows |
| TableModel.RemoveAt | Meal_Project.java:654 | one element fewer; the rows before the index stay put and the rows after it move up by one |
| TableModel.RemoveAtMultiset | Meal_Project.java:654 | removing a row loses that row and nothing else |
| TableModel.MealTableModel.constructor | Meal_Project.java:446 | a new table model has no rows |
| TableModel.MealTableModel.Clear | Meal_Project.java:555 | `setRowCount(0)` leaves no rows |
| TableModel.MealTableModel.AddRow | Meal_Project.java:557-563 | `addRow` appends one row at the bottom |
| TableModel.MealTableModel.RemoveRow | Meal_Project.java:654 | `removeRow` removes exactly the row at the index |
| Planner.ErrorNotice | Meal_Project.java:753-757 | `handleException`'s dialog: titled "Error", its text the context, a line break, then the exception's message |
| Planner.SelectedCategoryId | Meal_Project.java:596-597 | no category id exactly when nothing is selected, else the selected item's id |
| Planner.DisplayedListingShowsStore | Meal_Project.java:555-564 | displaying a listing row by row shows the store: one row per stored meal |
| Planner.ShownRow | Meal_Project.java:557-563 | a shown row has its stored meal's columns, and its category column is the category's name or "Uncategorized" when there is no such category |
| Planner.RemoveKeepsShowsStore | Meal_Project.java:650-654 | removing a shown meal's row and its stored row keeps the table showing the store |
| Planner.NewCategoryStalesRow | Meal_Project.java:727-732 | adding a category that a shown meal already refers to leaves that row out of date until the table is reloaded |
| Planner.MealPlanner.constructor | Meal_Project.java:303-305 | start-up loads the combo box with every category and the table with every stored meal |
| Planner.MealPlanner.LoadCategories | Meal_Project.java:528-539 | the combo box is emptied and refilled with every category exactly once |
| Planner.MealPlanner.LoadMeals | Meal_Project.java:546-566 | the table is emptied and refilled so that it shows the store |
| Planner.MealPlanner.SubmitMeal | Meal_Project.java:573-623 | a rejected form shows its message under "Validation Error" and touches neither the store nor the table; an accepted meal goes on to `InsertMeal` |
| Planner.MealPlanner.DispatchMeal | Meal_Project.java:605-622 | a rejection shows its message under "Validation Error" and touches neither the store nor the table; an accepted meal goes on to `InsertMeal` |
| Planner.MealPlanner.InsertMeal | Meal_Project.java:605-618 | a taken id shows "Error adding meal" with the gateway's message and changes nothing; otherwise the meal is stored, the table is reloaded and "Meal Added Successfully!" is shown |
| Planner.MealPlanner.DeleteMeal | Meal_Project.java:626-663 | no selection warns "Please select a meal to delete!"; a declined prompt does nothing; a missing id shows "Error deleting meal" with the gateway's message and leaves the table; otherwise the store loses the meal, the table loses exactly the selected row, and a table that showed the store still does |
| Planner.MealPlanner.AddCategory | Meal_Project.java:711-739 | a rejected dialog shows its message under "Validation Error" and changes nothing; an accepted category goes on to `InsertCategory`; the meals table is never touched |
| Planner.MealPlanner.InsertCategory | Meal_Project.java:725-735 | a taken id shows "Error adding category" with the gateway's message and changes nothing; otherwise the category is stored, the combo box is reloaded and "Category Added Successfully!" is shown |

## Left out

- Swing presentation is not modelled: layout, styling, renderers, the status label, `clearForm` and the dialog's `dispose`. The dialogs appear only as the returned `Notice`.
- The delete confirmation prompt is a boolean parameter of `DeleteMeal`; its text is not modelled.
- The executor pool and the hand-back to the event thread are not modelled. Each workflow is one sequential step, so interleavings of concurrent loads, inserts and deletes are not captured.
- JDBC failures are left out: the connection, the statements, and the SQL errors other than a taken primary key. So the model never produces "Failed to delete meal", "Failed to retrieve meals", "Failed to retrieve categories", or the "Error loading ..." dialogs that follow them.
- Primary-key uniqueness is enforced by the database, not by the Java code. The model assumes it explicitly.
- Other database constraints are not modelled. The schema is not part of this model, so an insert with any category id succeeds, as the left join expects.
- `Double.parseDouble` and the `double` price column are not modelled, because they are floating point. The price is kept as the text that matched the price pattern, so the model does not capture "3.50" being read back as 3.5.
- `JavaText.ParseInt` reads ASCII digits only, while `Integer.parseInt` also accepts other Unicode digits. It is only applied to ASCII digit strings, optionally signed, where the two agree.
- `exportData`, `performDatabaseOperation`, `closeConnection`, `dispose` and `main` are not modelled; they have no behaviour beyond I/O and shutdown.
- Getters, setters and `toString` of `Meal` and `Category` are not modelled. The combo box's label for a category is its name.
- Gateway.MealDatabaseService.GetAll: does not fix the order of the rows, because the query has no `ORDER BY`; callers may rely only on the set of rows (`Gateway.ListingsAgree`).
