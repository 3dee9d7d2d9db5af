/**
 * The form checks of the meal planner: the meal form's submit handler, the category
 * dialog's save handler and the stand-alone meal-name check. Each is a pure function
 * from the raw field text to either the message shown in the "Validation Error" dialog
 * or the record that is handed on to the database.
 */
module Validation {
  import opened Wrappers
  import opened JavaText
  import opened Entities

  // ---------------------------------------------------------------------------
  // validateInput: a chain of checks where the first failure wins

  /** One `validateInput(input, validator, message)` call: did the validator accept, and what it throws if not. */
  datatype Check = Check(holds: bool, message: string)

  /** A handler's verdict: the message of the exception that aborted it, or the record it built. */
  datatype Validated<T> = Rejected(message: string) | Accepted(value: T)

  /** The position of the first failing check, or `|checks|` when every check passes. */
  function FirstFailing(checks: seq<Check>): (k: nat)
    ensures k <= |checks|
    ensures forall j :: 0 <= j < k ==> checks[j].holds
    ensures k < |checks| ==> !checks[k].holds
  {
    if |checks| == 0 || !checks[0].holds then 0 else 1 + FirstFailing(checks[1..])
  }

  /**
   * Consecutive `validateInput` calls: the first one that fails throws, and the
   * later ones never run.
   */
  function RunChecks(checks: seq<Check>): (r: Option<string>)
    ensures r.None? <==> forall j :: 0 <= j < |checks| ==> checks[j].holds
  {
    var k := FirstFailing(checks);
    if k < |checks| then Some(checks[k].message) else None
  }

  /** The message reported is that of the failing check all of whose predecessors passed. */
  lemma RunChecksFirstFailureWins(checks: seq<Check>, k: nat)
    requires k < |checks| && !checks[k].holds
    requires forall j :: 0 <= j < k ==> checks[j].holds
    ensures RunChecks(checks) == Some(checks[k].message)
  {
  }

  // ---------------------------------------------------------------------------
  // The meal form (submitMeal)

  const MealIdEmpty := "Meal ID cannot be empty"
  const MealNameEmpty := "Meal name cannot be empty"
  const CaloriesEmpty := "Calories cannot be empty"
  const PriceEmpty := "Price cannot be empty"
  const MealIdFormat := "Meal ID must be a positive integer"
  const CaloriesFormat := "Calories must be a positive integer"
  const PriceFormat := "Price must be a positive number"

  /** The seven checks of the meal form, over the trimmed fields, in the order they run. */
  function MealChecks(mealId: string, mealName: string, calories: string, price: string): (checks: seq<Check>)
    ensures |checks| == 7
    ensures forall i, j :: 0 <= i < j < |checks| ==> checks[i].message != checks[j].message
    ensures checks[4].holds ==> checks[0].holds
    ensures checks[5].holds ==> checks[2].holds
    ensures checks[6].holds ==> checks[3].holds
  {
    [ Check(|mealId| > 0, MealIdEmpty),
      Check(|mealName| > 0, MealNameEmpty),
      Check(|calories| > 0, CaloriesEmpty),
      Check(|price| > 0, PriceEmpty),
      Check(MatchesDigits(mealId), MealIdFormat),
      Check(MatchesDigits(calories), CaloriesFormat),
      Check(MatchesDecimal(price), PriceFormat) ]
  }

  /** The meal checks all pass exactly when each field passes its own checks. */
  lemma MealChecksAllHold(mealId: string, mealName: string, calories: string, price: string)
    ensures RunChecks(MealChecks(mealId, mealName, calories, price)).None? <==>
      |mealName| > 0 && MatchesDigits(mealId) && MatchesDigits(calories) && MatchesDecimal(price)
  {
    var checks := MealChecks(mealId, mealName, calories, price);
    assert checks[0].holds == (|mealId| > 0) && checks[1].holds == (|mealName| > 0);
    assert checks[2].holds == (|calories| > 0) && checks[3].holds == (|price| > 0);
    assert checks[4].holds == MatchesDigits(mealId) && checks[5].holds == MatchesDigits(calories);
    assert checks[6].holds == MatchesDecimal(price);
  }

  /** What the meal form accepts, field by field, over the trimmed text. */
  ghost predicate MealFormValid(mealId: string, mealName: string, calories: string, price: string)
  {
    && MatchesDigits(mealId) && DigitsValue(mealId) <= IntMax
    && |mealName| > 0
    && MatchesDigits(calories) && DigitsValue(calories) <= IntMax
    && IsDecimalLiteral(price)
  }

  /**
   * The meal form's checks and parsing over already-trimmed fields: run the seven
   * checks, parse id then calories, and build the meal with the selected category's
   * id (0 when none is selected).
   */
  function CheckMealFields(mealId: string, mealName: string, calories: string, price: string,
                           selectedCategoryId: Option<int>): (r: Validated<Meal>)
    ensures r.Accepted? <==> MealFormValid(mealId, mealName, calories, price)
    ensures r.Accepted? ==>
      r.value == Meal(DigitsValue(mealId), mealName, DigitsValue(calories), price, selectedCategoryId.GetOr(0), None)
  {
    MatchesDecimalIff(price);
    MealChecksAllHold(mealId, mealName, calories, price);
    match RunChecks(MealChecks(mealId, mealName, calories, price))
    case Some(message) => Rejected(message)
    case None =>
      ParseIntOfDigits(mealId);
      ParseIntOfDigits(calories);
      var parsedId, parsedCalories := ParseInt(mealId), ParseInt(calories);
      if parsedId.None? then Rejected(NumberFormatMessage(mealId))
      else if parsedCalories.None? then Rejected(NumberFormatMessage(calories))
      else Accepted(Meal(parsedId.value, mealName, parsedCalories.value, price, selectedCategoryId.GetOr(0), None))
  }

  /**
   * The submit handler of the meal form up to the point where the insert is
   * dispatched: the four fields are trimmed, then checked and parsed.
   */
  function SubmitMeal(mealIdText: string, mealNameText: string, caloriesText: string, priceText: string,
                      selectedCategoryId: Option<int>): (r: Validated<Meal>)
    ensures r.Accepted? <==> MealFormValid(Trim(mealIdText), Trim(mealNameText), Trim(caloriesText), Trim(priceText))
    ensures r.Accepted? ==>
      r.value == Meal(DigitsValue(Trim(mealIdText)), Trim(mealNameText), DigitsValue(Trim(caloriesText)),
                      Trim(priceText), selectedCategoryId.GetOr(0), None)
  {
    CheckMealFields(Trim(mealIdText), Trim(mealNameText), Trim(caloriesText), Trim(priceText), selectedCategoryId)
  }

  /** The four emptiness checks come first: the first blank field, in form order, is the one reported. */
  lemma MealBlankFieldFirst(mealId: string, mealName: string, calories: string, price: string,
                            selectedCategoryId: Option<int>)
    ensures var r := CheckMealFields(mealId, mealName, calories, price, selectedCategoryId);
      && (|mealId| == 0 ==> r == Rejected(MealIdEmpty))
      && (|mealId| > 0 && |mealName| == 0 ==> r == Rejected(MealNameEmpty))
      && (|mealId| > 0 && |mealName| > 0 && |calories| == 0 ==> r == Rejected(CaloriesEmpty))
      && (|mealId| > 0 && |mealName| > 0 && |calories| > 0 && |price| == 0 ==> r == Rejected(PriceEmpty))
  {
    var checks := MealChecks(mealId, mealName, calories, price);
    if |mealId| == 0 {
      RunChecksFirstFailureWins(checks, 0);
    } else if |mealName| == 0 {
      RunChecksFirstFailureWins(checks, 1);
    } else if |calories| == 0 {
      RunChecksFirstFailureWins(checks, 2);
    } else if |price| == 0 {
      RunChecksFirstFailureWins(checks, 3);
    }
  }

  /**
   * Once no field is blank, the three format checks run in order: a field's format
   * message is reported exactly when that field is the first one that is malformed.
   */
  lemma MealFormatMessages(mealId: string, mealName: string, calories: string, price: string,
                           selectedCategoryId: Option<int>)
    requires |mealId| > 0 && |mealName| > 0 && |calories| > 0 && |price| > 0
    ensures var r := CheckMealFields(mealId, mealName, calories, price, selectedCategoryId);
      && (r == Rejected(MealIdFormat) <==> !MatchesDigits(mealId))
      && (r == Rejected(CaloriesFormat) <==> MatchesDigits(mealId) && !MatchesDigits(calories))
      && (r == Rejected(PriceFormat) <==> MatchesDigits(mealId) && MatchesDigits(calories) && !IsDecimalLiteral(price))
  {
    var checks := MealChecks(mealId, mealName, calories, price);
    MatchesDecimalIff(price);
    NumberFormatMessageDiffers(mealId);
    NumberFormatMessageDiffers(calories);
    if !MatchesDigits(mealId) {
      RunChecksFirstFailureWins(checks, 4);
    } else if !MatchesDigits(calories) {
      RunChecksFirstFailureWins(checks, 5);
    } else if !MatchesDecimal(price) {
      RunChecksFirstFailureWins(checks, 6);
    } else {
      MealChecksAllHold(mealId, mealName, calories, price);
    }
  }

  /** A parse failure message never coincides with one of the form's own messages. */
  lemma NumberFormatMessageDiffers(s: string)
    ensures NumberFormatMessage(s) !in {MealIdEmpty, MealNameEmpty, CaloriesEmpty, PriceEmpty,
                                        MealIdFormat, CaloriesFormat, PriceFormat}
  {
    assert NumberFormatMessage(s)[0] == 'F';
  }

  /**
   * A well-formed id or calorie count too large for an `int` makes `Integer.parseInt`
   * throw; that NumberFormatException is an IllegalArgumentException, so it is reported
   * like a validation failure, with the JDK's message, the id's before the calories'.
   */
  lemma MealOverflow(mealId: string, mealName: string, calories: string, price: string,
                     selectedCategoryId: Option<int>)
    requires MatchesDigits(mealId) && |mealName| > 0 && MatchesDigits(calories) && IsDecimalLiteral(price)
    ensures var r := CheckMealFields(mealId, mealName, calories, price, selectedCategoryId);
      && (DigitsValue(mealId) > IntMax ==> r == Rejected(NumberFormatMessage(mealId)))
      && (DigitsValue(mealId) <= IntMax && DigitsValue(calories) > IntMax ==> r == Rejected(NumberFormatMessage(calories)))
  {
    MatchesDecimalIff(price);
    MealChecksAllHold(mealId, mealName, calories, price);
  }

  // ---------------------------------------------------------------------------
  // The category dialog's Save handler

  const CategoryIdEmpty := "Category ID cannot be empty"
  const CategoryNameEmpty := "Category name cannot be empty"
  const CategoryIdFormat := "Category ID must be a positive integer"

  /** The three checks of the category dialog, over the trimmed fields, in the order they run. */
  function CategoryChecks(categoryId: string, categoryName: string): (checks: seq<Check>)
    ensures |checks| == 3
    ensures forall i, j :: 0 <= i < j < |checks| ==> checks[i].message != checks[j].message
    ensures checks[2].holds ==> checks[0].holds
  {
    [ Check(|categoryId| > 0, CategoryIdEmpty),
      Check(|categoryName| > 0, CategoryNameEmpty),
      Check(MatchesDigits(categoryId), CategoryIdFormat) ]
  }

  /** The category checks all pass exactly when the name is present and the id is all digits. */
  lemma CategoryChecksAllHold(categoryId: string, categoryName: string)
    ensures RunChecks(CategoryChecks(categoryId, categoryName)).None? <==>
      |categoryName| > 0 && MatchesDigits(categoryId)
  {
    var checks := CategoryChecks(categoryId, categoryName);
    assert checks[0].holds == (|categoryId| > 0) && checks[1].holds == (|categoryName| > 0);
    assert checks[2].holds == MatchesDigits(categoryId);
  }

  /** The category dialog's checks and parsing over already-trimmed fields. The description is never checked. */
  function CheckCategoryFields(categoryId: string, categoryName: string, description: string): (r: Validated<Category>)
    ensures r.Accepted? <==> MatchesDigits(categoryId) && DigitsValue(categoryId) <= IntMax && |categoryName| > 0
    ensures r.Accepted? ==> r.value == Category(DigitsValue(categoryId), categoryName, description)
  {
    CategoryChecksAllHold(categoryId, categoryName);
    match RunChecks(CategoryChecks(categoryId, categoryName))
    case Some(message) => Rejected(message)
    case None =>
      ParseIntOfDigits(categoryId);
      var parsed := ParseInt(categoryId);
      if parsed.None? then Rejected(NumberFormatMessage(categoryId))
      else Accepted(Category(parsed.value, categoryName, description))
  }

  /**
   * The dialog's Save handler up to the point where the insert is dispatched: the
   * three fields are trimmed, then checked and parsed.
   */
  function SaveCategory(idText: string, nameText: string, descriptionText: string): (r: Validated<Category>)
    ensures r.Accepted? <==> MatchesDigits(Trim(idText)) && DigitsValue(Trim(idText)) <= IntMax && |Trim(nameText)| > 0
    ensures r.Accepted? ==> r.value == Category(DigitsValue(Trim(idText)), Trim(nameText), Trim(descriptionText))
  {
    CheckCategoryFields(Trim(idText), Trim(nameText), Trim(descriptionText))
  }

  /** A failing category check is reported as is, before anything is parsed. */
  lemma CheckCategoryFieldsRejects(categoryId: string, categoryName: string, description: string, k: nat)
    requires var checks := CategoryChecks(categoryId, categoryName);
      k < |checks| && !checks[k].holds && forall j :: 0 <= j < k ==> checks[j].holds
    ensures CheckCategoryFields(categoryId, categoryName, description) == Rejected(CategoryChecks(categoryId, categoryName)[k].message)
  {
    RunChecksFirstFailureWins(CategoryChecks(categoryId, categoryName), k);
  }

  /** The dialog reports an empty id, then an empty name, then a malformed id, then an overflowing id. */
  lemma CategoryCheckOrder(categoryId: string, categoryName: string, description: string)
    ensures |categoryId| == 0 ==> CheckCategoryFields(categoryId, categoryName, description) == Rejected(CategoryIdEmpty)
    ensures |categoryId| > 0 && |categoryName| == 0 ==>
      CheckCategoryFields(categoryId, categoryName, description) == Rejected(CategoryNameEmpty)
    ensures |categoryId| > 0 && |categoryName| > 0 && !MatchesDigits(categoryId) ==>
      CheckCategoryFields(categoryId, categoryName, description) == Rejected(CategoryIdFormat)
    ensures |categoryName| > 0 && MatchesDigits(categoryId) && DigitsValue(categoryId) > IntMax ==>
      CheckCategoryFields(categoryId, categoryName, description) == Rejected(NumberFormatMessage(categoryId))
  {
    if |categoryId| == 0 {
      CheckCategoryFieldsRejects(categoryId, categoryName, description, 0);
    } else if |categoryName| == 0 {
      CheckCategoryFieldsRejects(categoryId, categoryName, description, 1);
    } else if !MatchesDigits(categoryId) {
      CheckCategoryFieldsRejects(categoryId, categoryName, description, 2);
    } else if |categoryName| > 0 && DigitsValue(categoryId) > IntMax {
      CheckCategoryFieldsOverflow(categoryId, categoryName, description);
    }
  }

  /** An all-digit id beyond the `int` range is reported with the NumberFormatException text. */
  lemma CheckCategoryFieldsOverflow(categoryId: string, categoryName: string, description: string)
    requires |categoryName| > 0 && MatchesDigits(categoryId) && DigitsValue(categoryId) > IntMax
    ensures CheckCategoryFields(categoryId, categoryName, description) == Rejected(NumberFormatMessage(categoryId))
  {
    CategoryChecksAllHold(categoryId, categoryName);
    ParseIntOfDigits(categoryId);
  }

  /** The description never decides the outcome: only the built category carries it. */
  lemma SaveCategoryIgnoresDescription(idText: string, nameText: string, description1: string, description2: string)
    ensures SaveCategory(idText, nameText, description1).Rejected? == SaveCategory(idText, nameText, description2).Rejected?
    ensures SaveCategory(idText, nameText, description1).Rejected? ==>
      SaveCategory(idText, nameText, description1) == SaveCategory(idText, nameText, description2)
  {
  }

  // ---------------------------------------------------------------------------
  // validateMealName

  const MealNameTooLong := "Meal name cannot exceed 50 characters"
  const MealNameMaxLength := 50

  /**
   * `validateMealName`: the message it throws, or `None` when it returns normally. A
   * `null` name is `None`. The length limit applies to the untrimmed name, in UTF-16
   * code units.
   */
  function ValidateMealName(mealName: Option<string>): (r: Option<string>)
    ensures r.None? <==> mealName.Some? && !AllTrimSpace(mealName.value) && Utf16Length(mealName.value) <= MealNameMaxLength
    ensures r.Some? ==> r.value in {MealNameEmpty, MealNameTooLong}
    ensures mealName.None? || AllTrimSpace(mealName.value) ==> r == Some(MealNameEmpty)
    ensures mealName.Some? && !AllTrimSpace(mealName.value) && Utf16Length(mealName.value) > MealNameMaxLength ==>
      r == Some(MealNameTooLong)
  {
    if mealName.None? then
      Some(MealNameEmpty)
    else
      TrimEmptyIff(mealName.value);
      if |Trim(mealName.value)| == 0 then
        Some(MealNameEmpty)
      else if Utf16Length(mealName.value) > MealNameMaxLength then
        Some(MealNameTooLong)
      else
        None
  }

  /** A blank name is reported as empty however long it is: the emptiness check runs first. */
  lemma ValidateMealNameBlankFirst(mealName: string)
    requires AllTrimSpace(mealName)
    ensures ValidateMealName(Some(mealName)) == Some(MealNameEmpty)
  {
    TrimEmptyIff(mealName);
  }

  /** A name over the limit is "too long" exactly when it is not blank. */
  lemma ValidateMealNameTooLongIff(mealName: string)
    requires Utf16Length(mealName) > MealNameMaxLength
    ensures ValidateMealName(Some(mealName)) == Some(MealNameTooLong) <==> !AllTrimSpace(mealName)
  {
    TrimEmptyIff(mealName);
  }

  // ---------------------------------------------------------------------------
  // Worked examples

  /** "12a" is not a positive integer: the id's format message, once no field is blank. */
  lemma SubmitMealRejectsLetterInId(mealIdText: string, mealNameText: string, caloriesText: string, priceText: string)
    requires mealIdText == "12a" && mealNameText == "Oatmeal" && caloriesText == "250" && priceText == "3.50"
    ensures SubmitMeal(mealIdText, mealNameText, caloriesText, priceText, None) == Rejected(MealIdFormat)
  {
    TrimKeeps(mealIdText);
    TrimKeeps(mealNameText);
    TrimKeeps(caloriesText);
    TrimKeeps(priceText);
    assert !IsDigit(mealIdText[2]);
    MealFormatMessages(mealIdText, mealNameText, caloriesText, priceText, None);
  }

  /** A blank id is reported before the malformed calories "abc" is looked at. */
  lemma SubmitMealBlankIdBeforeBadCalories(mealIdText: string, mealNameText: string, caloriesText: string, priceText: string)
    requires mealIdText == "" && mealNameText == "Oatmeal" && caloriesText == "abc" && priceText == "3.50"
    ensures SubmitMeal(mealIdText, mealNameText, caloriesText, priceText, None) == Rejected(MealIdEmpty)
  {
    MealBlankFieldFirst(Trim(mealIdText), Trim(mealNameText), Trim(caloriesText), Trim(priceText), None);
  }

  /** `s` holds the characters of `w`, one by one. */
  ghost predicate Spells(s: string, w: string)
  {
    |s| == |w| && forall i :: 0 <= i < |s| ==> s[i] == w[i]
  }

  /** A well-formed form becomes a meal with the trimmed name, the parsed numbers and the selected category. */
  lemma SubmitMealAcceptsOatmeal(mealIdText: string, mealNameText: string, caloriesText: string, priceText: string)
    requires mealIdText == " 101" && mealNameText == "Oatmeal " && caloriesText == "250" && priceText == "3.50"
    ensures SubmitMeal(mealIdText, mealNameText, caloriesText, priceText, Some(1)) ==
      Accepted(Meal(101, mealNameText[..7], 250, priceText, 1, None))
  {
    var mealId, mealName := mealIdText[1..], mealNameText[..7];
    OatmealTrims(mealIdText, mealNameText, caloriesText, priceText);
    OatmealFieldsValid(mealId, mealName, caloriesText, priceText);
    SubmitMealOfTrimmed(mealIdText, mealNameText, caloriesText, priceText, mealId, mealName, caloriesText, priceText);
  }

  /** The form is judged on its trimmed fields alone. */
  lemma SubmitMealOfTrimmed(mealIdText: string, mealNameText: string, caloriesText: string, priceText: string,
                            mealId: string, mealName: string, calories: string, price: string)
    requires Trim(mealIdText) == mealId && Trim(mealNameText) == mealName
    requires Trim(caloriesText) == calories && Trim(priceText) == price
    requires MealFormValid(mealId, mealName, calories, price)
    ensures SubmitMeal(mealIdText, mealNameText, caloriesText, priceText, Some(1)) ==
      Accepted(Meal(DigitsValue(mealId), mealName, DigitsValue(calories), price, 1, None))
  {
  }

  /** Trimming the Oatmeal form cuts the blank before the id and the one after the name. */
  lemma OatmealTrims(mealIdText: string, mealNameText: string, caloriesText: string, priceText: string)
    requires Spells(mealIdText, " 101") && Spells(mealNameText, "Oatmeal ")
    requires Spells(caloriesText, "250") && Spells(priceText, "3.50")
    ensures Trim(mealIdText) == mealIdText[1..] && Trim(mealNameText) == mealNameText[..7]
    ensures Trim(caloriesText) == caloriesText && Trim(priceText) == priceText
    ensures Spells(mealIdText[1..], "101") && |mealNameText[..7]| > 0
  {
    TrimSkipsLeading(mealIdText);
    TrimKeeps(mealIdText[1..]);
    assert StripTrailing(mealNameText) == StripTrailing(mealNameText[..7]);
    TrimKeeps(mealNameText[..7]);
    TrimKeeps(caloriesText);
    TrimKeeps(priceText);
  }

  /** The trimmed Oatmeal fields pass every check and parse to 101 and 250. */
  lemma OatmealFieldsValid(mealId: string, mealName: string, calories: string, price: string)
    requires Spells(mealId, "101") && |mealName| > 0 && Spells(calories, "250") && Spells(price, "3.50")
    ensures MealFormValid(mealId, mealName, calories, price)
    ensures DigitsValue(mealId) == 101 && DigitsValue(calories) == 250
  {
    assert DigitsValue(mealId[..1]) == 1 by { assert mealId[..1][..0] == []; }
    assert DigitsValue(mealId[..2]) == 10 by { assert mealId[..2][..1] == mealId[..1]; }
    assert DigitsValue(calories[..1]) == 2 by { assert calories[..1][..0] == []; }
    assert DigitsValue(calories[..2]) == 25 by { assert calories[..2][..1] == calories[..1]; }
    assert MatchesDigits(price[..1]) && MatchesDigits(price[2..]);
  }

  /** Strings the price pattern rejects: a trailing dot, a missing integer part, a sign, two dots. */
  lemma PriceRejections()
    ensures !IsDecimalLiteral("3.") && !IsDecimalLiteral(".5") && !IsDecimalLiteral("-1") && !IsDecimalLiteral("1.2.3")
  {
    MatchesDecimalIff("3.");
    MatchesDecimalIff(".5");
    MatchesDecimalIff("-1");
    MatchesDecimalIff("1.2.3");
    assert DigitRun("3.") == 1;
    assert DigitRun("1.2.3") == 1;
    assert "1.2.3"[2..] == "2.3";
    assert !IsDigit("2.3"[1]);
  }

  /** A name of 51 letters passes the meal form's checks. */
  lemma SubmitMealAcceptsLongName(mealIdText: string, mealName: string, caloriesText: string, priceText: string)
    requires mealIdText == "1" && caloriesText == "100" && priceText == "2"
    requires |mealName| == 51 && forall i :: 0 <= i < |mealName| ==> mealName[i] == 'a'
    ensures SubmitMeal(mealIdText, mealName, caloriesText, priceText, None).Accepted?
  {
    TrimKeeps(mealName);
    TrimKeeps(mealIdText);
    TrimKeeps(caloriesText);
    TrimKeeps(priceText);
    assert DigitsValue(mealIdText) == 1 by { assert mealIdText[..0] == []; }
    assert DigitsValue(caloriesText) == 100 by {
      assert caloriesText[..2][..1] == caloriesText[..1] && caloriesText[..1][..0] == [];
      assert DigitsValue(caloriesText[..1]) == 1;
      assert DigitsValue(caloriesText[..2]) == 10;
    }
    assert MealFormValid(mealIdText, mealName, caloriesText, priceText);
  }

  /** A name of 51 letters is refused by `validateMealName`. */
  lemma ValidateMealNameRejectsLongName(mealName: string)
    requires |mealName| == 51 && forall i :: 0 <= i < |mealName| ==> mealName[i] == 'a'
    ensures ValidateMealName(Some(mealName)) == Some(MealNameTooLong)
  {
    TrimKeeps(mealName);
    Utf16LengthBmp(mealName);
  }

  /** The limit is on the untrimmed name: fifty letters and one trailing blank are too long. */
  lemma ValidateMealNameCountsBlanks(mealName: string)
    requires |mealName| == 51 && mealName[50] == ' ' && forall i :: 0 <= i < 50 ==> mealName[i] == 'a'
    ensures |Trim(mealName)| == 50
    ensures ValidateMealName(Some(mealName)) == Some(MealNameTooLong)
  {
    assert StripLeading(mealName) == mealName;
    assert StripTrailing(mealName) == StripTrailing(mealName[..50]);
    assert StripTrailing(mealName[..50]) == mealName[..50];
    Utf16LengthBmp(mealName);
  }
}
