/**
 How the store's transitions move the calorie totals the summary view shows.
 */
module StoreTotals {
  import opened ActivityTypes
  import opened ActivityReducer
  import opened CalorieTracker

  /** A create-mode save adds the new entry's calories to the total of its
      category and leaves the other total alone. */
  lemma SaveAppendTotals(s: State, x: Activity)
    requires s.activeId == ""
    ensures CaloriesConsumed(Apply(s, SaveActivity(x)).activities)
      == CaloriesConsumed(s.activities) + (if x.category == Consumption then x.calories else 0)
    ensures CaloriesBurned(Apply(s, SaveActivity(x)).activities)
      == CaloriesBurned(s.activities) + (if x.category == Expenditure then x.calories else 0)
  {
    SaveAppends(s, x);
    AppendTotals(s.activities, x);
  }

  /** An edit-mode save over unique ids trades the selected entry's
      contribution for the new entry's. */
  lemma SaveEditTotals(s: State, x: Activity, k: int)
    requires UniqueIds(s.activities)
    requires s.activeId != "" && 0 <= k < |s.activities| && s.activities[k].id == s.activeId
    ensures CaloriesConsumed(Apply(s, SaveActivity(x)).activities)
      == CaloriesConsumed(s.activities) - CaloriesConsumed([s.activities[k]]) + CaloriesConsumed([x])
    ensures CaloriesBurned(Apply(s, SaveActivity(x)).activities)
      == CaloriesBurned(s.activities) - CaloriesBurned([s.activities[k]]) + CaloriesBurned([x])
  {
    var a, b := s.activities[..k], s.activities[k + 1..];
    SaveEditReplacesAt(s, x, k);
    assert s.activities == a + [s.activities[k]] + b;
    TotalsAdditive(a + [x], b);
    TotalsAdditive(a, [x]);
    TotalsAdditive(a + [s.activities[k]], b);
    TotalsAdditive(a, [s.activities[k]]);
  }

  /** Deleting an entry's id splits the totals: the survivors' totals plus the
      deleted entry's contribution give the old totals. */
  lemma DeleteOneTotals(a: seq<Activity>, x: Activity, b: seq<Activity>, activeId: string)
    requires UniqueIds(a + [x] + b)
    ensures CaloriesConsumed(Apply(State(a + [x] + b, activeId), DeleteActivity(x.id)).activities)
      == CaloriesConsumed(a + [x] + b) - CaloriesConsumed([x])
    ensures CaloriesBurned(Apply(State(a + [x] + b, activeId), DeleteActivity(x.id)).activities)
      == CaloriesBurned(a + [x] + b) - CaloriesBurned([x])
  {
    DeleteUniqueRemovesOne(a, x, b);
    TotalsAdditive(a + [x], b);
    TotalsAdditive(a, [x]);
    TotalsAdditive(a, b);
  }

  /** Selecting an entry does not move any total. */
  lemma SetActiveIdKeepsTotals(s: State, id: string)
    ensures CaloriesConsumed(Apply(s, SetActiveId(id)).activities) == CaloriesConsumed(s.activities)
    ensures CaloriesBurned(Apply(s, SetActiveId(id)).activities) == CaloriesBurned(s.activities)
  {
  }

  /** After a restart every total is zero. */
  lemma RestartTotals(s: State)
    ensures CaloriesConsumed(Apply(s, RestartApp).activities) == 0
    ensures CaloriesBurned(Apply(s, RestartApp).activities) == 0
    ensures NetCalories(Apply(s, RestartApp).activities) == 0
  {
  }
}
