/** The class lookups of src/utils/colorUtils.ts: total over every string, with a grey fallback. */
module ColorUtils {
  import opened Strings
  import GoalsSlice

  /** The six event categories, in the order the dialog offers them. */
  const Categories: seq<string> := ["exercise", "eating", "work", "relax", "family", "social"]

  predicate IsCategory(c: string) {
    c == "exercise" || c == "eating" || c == "work" || c == "relax" || c == "family" || c == "social"
  }

  /** `getCategoryColor`: the grey fallback exactly for strings that are no category. */
  function GetCategoryColor(category: string): (r: string)
    ensures r == "bg-gray-400" <==> !IsCategory(category)
  {
    match category
    case "exercise" => "bg-category-exercise"
    case "eating" => "bg-category-eating"
    case "work" => "bg-category-work"
    case "relax" => "bg-category-relax"
    case "family" => "bg-category-family"
    case "social" => "bg-category-social"
    case _ => "bg-gray-400"
  }

  /** `getCategoryBorderColor`: the grey fallback exactly for strings that are no category. */
  function GetCategoryBorderColor(category: string): (r: string)
    ensures r == "border-gray-400" <==> !IsCategory(category)
  {
    match category
    case "exercise" => "border-category-exercise"
    case "eating" => "border-category-eating"
    case "work" => "border-category-work"
    case "relax" => "border-category-relax"
    case "family" => "border-category-family"
    case "social" => "border-category-social"
    case _ => "border-gray-400"
  }

  /** `getTextColorForCategory`: white text on the three dark category colours. */
  function GetTextColorForCategory(category: string): (cls: string)
    ensures cls == "text-white" <==> category == "exercise" || category == "work" || category == "family"
    ensures cls != "text-white" ==> cls == "text-gray-800"
  {
    match category
    case "exercise" => "text-white"
    case "work" => "text-white"
    case "family" => "text-white"
    case _ => "text-gray-800"
  }

  /** `getGoalColor`: a `bg-` class, the grey fallback exactly for ids other than '1'..'4'. */
  function GetGoalColor(goalId: string): (r: string)
    ensures StartsWith(r, "bg-")
    ensures r == "bg-gray-400" <==> !(goalId == "1" || goalId == "2" || goalId == "3" || goalId == "4")
  {
    match goalId
    case "1" => "bg-goal-fit"
    case "2" => "bg-goal-academics"
    case "3" => "bg-goal-learn"
    case "4" => "bg-goal-sports"
    case _ => "bg-gray-400"
  }

  /** `getGoalTextColor`: white text on the two dark goal colours. */
  function GetGoalTextColor(goalId: string): (cls: string)
    ensures cls == "text-white" <==> goalId == "2" || goalId == "3"
    ensures cls != "text-white" ==> cls == "text-gray-800"
  {
    match goalId
    case "2" => "text-white"
    case "3" => "text-white"
    case _ => "text-gray-800"
  }

  /**
   * The border lookup is the background lookup with its `bg-` prefix
   * replaced by `border-`, for every input, the fallback included.
   */
  lemma BorderIsBackgroundRenamed(category: string)
    ensures StartsWith(GetCategoryColor(category), "bg-")
    ensures GetCategoryBorderColor(category) == "border-" + GetCategoryColor(category)[3..]
  {
    var bg, border := GetCategoryColor(category), GetCategoryBorderColor(category);
    var suffix := if IsCategory(category) then "category-" + category else "gray-400";
    assert bg == "bg-" + suffix && border == "border-" + suffix by {
      CategoryColorNamesCategory(category);
      BorderColorNamesCategory(category);
    }
    SwapPrefix(bg, border, suffix);
  }

  /** A category's class is named after it; every other string gets the grey fallback. */
  lemma CategoryColorNamesCategory(category: string)
    ensures IsCategory(category) ==> GetCategoryColor(category) == "bg-category-" + category
    ensures !IsCategory(category) ==> GetCategoryColor(category) == "bg-gray-400"
  {
  }

  /** Two class names built on the same suffix differ only in their prefix. */
  lemma SwapPrefix(background: string, border: string, suffix: string)
    requires background == "bg-" + suffix && border == "border-" + suffix
    ensures StartsWith(background, "bg-")
    ensures border == "border-" + background[3..]
  {
    assert background[..3] == "bg-";
    assert background[3..] == suffix;
  }

  /** The same naming scheme for the border classes. */
  lemma BorderColorNamesCategory(category: string)
    ensures IsCategory(category) ==> GetCategoryBorderColor(category) == "border-category-" + category
    ensures !IsCategory(category) ==> GetCategoryBorderColor(category) == "border-gray-400"
  {
  }

  /** Distinct categories get distinct background classes, and none gets the fallback. */
  lemma CategoryColorInjective(a: string, b: string)
    requires IsCategory(a) && IsCategory(b) && a != b
    ensures GetCategoryColor(a) != GetCategoryColor(b)
    ensures GetCategoryColor(a) != GetCategoryColor("")
  {
    CategoryColorNamesCategory(a);
    CategoryColorNamesCategory(b);
    CategoryColorNamesCategory("");
    assert GetCategoryColor(a)[12..] == a;
    assert GetCategoryColor(b)[12..] == b;
  }

  /** Goals '1'..'4' get four distinct classes; every other id gets the grey fallback. */
  lemma GoalColorsDistinct(a: string, b: string)
    requires a in ["1", "2", "3", "4"] && b in ["1", "2", "3", "4"] && a != b
    ensures GetGoalColor(a) != GetGoalColor(b)
    ensures GetGoalColor(a) != "bg-gray-400"
  {
  }

  /**
   * White text sits exactly on the exercise, work and family backgrounds,
   * never on another category's colour or on the grey fallback.
   */
  lemma WhiteTextOnDarkCategories(category: string)
    ensures GetTextColorForCategory(category) == "text-white" <==>
              GetCategoryColor(category) == "bg-category-exercise"
              || GetCategoryColor(category) == "bg-category-work"
              || GetCategoryColor(category) == "bg-category-family"
  {
  }

  /** White goal text sits exactly on the academics and learning backgrounds. */
  lemma WhiteTextOnDarkGoals(goalId: string)
    ensures GetGoalTextColor(goalId) == "text-white" <==>
              GetGoalColor(goalId) == "bg-goal-academics" || GetGoalColor(goalId) == "bg-goal-learn"
  {
  }

  /** Each mock goal's own colour is the class the goal lookup gives its id. */
  lemma MockGoalColorsAgree(i: int)
    requires 0 <= i < |GoalsSlice.MockGoals|
    ensures GetGoalColor(GoalsSlice.MockGoals[i].id) == GoalsSlice.MockGoals[i].color
    ensures GetGoalColor(GoalsSlice.MockGoals[i].id) != "bg-gray-400"
  {
  }
}
