/**
 The three calorie totals of the summary view: consumed (category 1),
 burned (category 2) and net. Each total is the left fold the view runs over
 the activity list, proved equal to a plain sum over the entries of its
 category.
 */
module CalorieTracker {
  import opened ActivityTypes

  /** The category that counts as eaten calories. */
  const Consumption := 1
  /** The category that counts as burned calories. */
  const Expenditure := 2

  /** One step of the fold: the running total grows by exactly what the
      single entry contributes to the sum over its category. */
  function Step(total: int, a: Activity, category: int): (r: int)
    ensures r == total + SumCalories(OfCategory([a], category))
  {
    assert [a][1..] == [];
    if a.category == category then total + a.calories else total
  }

  /** The left fold `reduce(step, total)` over `s`: from any start value it
      ends at that value plus the sum of calories over the entries of the
      category. */
  function Reduce(s: seq<Activity>, category: int, total: int): (r: int)
    ensures r == total + SumCalories(OfCategory(s, category))
  {
    if s == [] then total else Reduce(s[1..], category, Step(total, s[0], category))
  }

  // ------------------------------------------------------ reference definition

  /** The entries of category `category`, in order. */
  function OfCategory(s: seq<Activity>, category: int): (r: seq<Activity>)
    ensures forall a :: a in r <==> a in s && a.category == category
  {
    if s == [] then []
    else if s[0].category == category then [s[0]] + OfCategory(s[1..], category)
    else OfCategory(s[1..], category)
  }

  /** The sum of the calories of all entries. */
  function SumCalories(s: seq<Activity>): int
  {
    if s == [] then 0 else s[0].calories + SumCalories(s[1..])
  }

  lemma {:induction false} OfCategoryConcat(a: seq<Activity>, b: seq<Activity>, category: int)
    ensures OfCategory(a + b, category) == OfCategory(a, category) + OfCategory(b, category)
  {
    if a == [] {
      assert a + b == b;
    } else {
      assert (a + b)[0] == a[0];
      assert (a + b)[1..] == a[1..] + b;
      OfCategoryConcat(a[1..], b, category);
    }
  }

  lemma {:induction false} SumCaloriesConcat(a: seq<Activity>, b: seq<Activity>)
    ensures SumCalories(a + b) == SumCalories(a) + SumCalories(b)
  {
    if a == [] {
      assert a + b == b;
    } else {
      assert (a + b)[0] == a[0];
      assert (a + b)[1..] == a[1..] + b;
      SumCaloriesConcat(a[1..], b);
    }
  }

  // ------------------------------------------------------------------ totals

  /** Calories eaten: the sum over the entries of category 1. */
  function CaloriesConsumed(s: seq<Activity>): (r: int)
    ensures r == SumCalories(OfCategory(s, Consumption))
  {
    Reduce(s, Consumption, 0)
  }

  /** Calories burned: the sum over the entries of category 2. */
  function CaloriesBurned(s: seq<Activity>): (r: int)
    ensures r == SumCalories(OfCategory(s, Expenditure))
  {
    Reduce(s, Expenditure, 0)
  }

  /** Net calories: eaten minus burned, possibly negative. */
  function NetCalories(s: seq<Activity>): (r: int)
    ensures r == SumCalories(OfCategory(s, Consumption)) - SumCalories(OfCategory(s, Expenditure))
  {
    CaloriesConsumed(s) - CaloriesBurned(s)
  }

  // -------------------------------------------------------------- properties

  /** An empty list has all three totals zero. */
  lemma EmptyTotals()
    ensures CaloriesConsumed([]) == 0 && CaloriesBurned([]) == 0 && NetCalories([]) == 0
  {
  }

  /** Both folds, and so the net, are additive over concatenation. */
  lemma TotalsAdditive(a: seq<Activity>, b: seq<Activity>)
    ensures CaloriesConsumed(a + b) == CaloriesConsumed(a) + CaloriesConsumed(b)
    ensures CaloriesBurned(a + b) == CaloriesBurned(a) + CaloriesBurned(b)
    ensures NetCalories(a + b) == NetCalories(a) + NetCalories(b)
  {
    OfCategoryConcat(a, b, Consumption);
    SumCaloriesConcat(OfCategory(a, Consumption), OfCategory(b, Consumption));
    OfCategoryConcat(a, b, Expenditure);
    SumCaloriesConcat(OfCategory(a, Expenditure), OfCategory(b, Expenditure));
  }

  /** The totals of a single entry: its calories go to the total its category
      names, and to neither when the category is neither 1 nor 2. */
  lemma SingleTotals(x: Activity)
    ensures CaloriesConsumed([x]) == if x.category == Consumption then x.calories else 0
    ensures CaloriesBurned([x]) == if x.category == Expenditure then x.calories else 0
  {
  }

  /** Inserting an entry whose category is neither 1 nor 2 anywhere in the
      list changes neither total. */
  lemma OtherCategoryIgnored(a: seq<Activity>, x: Activity, b: seq<Activity>)
    requires x.category != Consumption && x.category != Expenditure
    ensures CaloriesConsumed(a + [x] + b) == CaloriesConsumed(a + b)
    ensures CaloriesBurned(a + [x] + b) == CaloriesBurned(a + b)
  {
    TotalsAdditive(a + [x], b);
    TotalsAdditive(a, [x]);
    TotalsAdditive(a, b);
    SingleTotals(x);
  }

  /** The totals are the sums over their categories whatever else the list
      holds; in particular net is consumed minus burned. */
  lemma NetIsDifference(s: seq<Activity>)
    ensures NetCalories(s) == CaloriesConsumed(s) - CaloriesBurned(s)
    ensures NetCalories(s) == Reduce(s, Consumption, 0) - Reduce(s, Expenditure, 0)
  {
  }

  /** Appending one entry moves the total of its category by its calories. */
  lemma AppendTotals(s: seq<Activity>, x: Activity)
    ensures CaloriesConsumed(s + [x]) == CaloriesConsumed(s) + (if x.category == Consumption then x.calories else 0)
    ensures CaloriesBurned(s + [x]) == CaloriesBurned(s) + (if x.category == Expenditure then x.calories else 0)
  {
    TotalsAdditive(s, [x]);
    SingleTotals(x);
  }

  /** Eating 300 and 200 and burning 100 gives 500 consumed, 100 burned, 400 net. */
  lemma WorkedExample()
    ensures
      var s := [Activity("1", 1, "Lunch", 300), Activity("2", 2, "Run", 100), Activity("3", 1, "Dinner", 200)];
      CaloriesConsumed(s) == 500 && CaloriesBurned(s) == 100 && NetCalories(s) == 400
  {
  }
}
