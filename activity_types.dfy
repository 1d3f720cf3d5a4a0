/**
 The activity record the calorie tracker stores, and the id-uniqueness
 invariant the store is meant to keep.
 */
module ActivityTypes {

  /** One logged entry. `category` is 1 for food (consumed) and 2 for
      exercise (burned); any other value is kept but ignored by the totals. */
  datatype Activity = Activity(id: string, category: int, name: string, calories: int)

  /** No two entries share an id. */
  ghost predicate UniqueIds(s: seq<Activity>)
  {
    forall i, j :: 0 <= i < |s| && 0 <= j < |s| && s[i].id == s[j].id ==> i == j
  }

  /** Some entry carries the id `id`. */
  predicate HasId(s: seq<Activity>, id: string)
  {
    exists i :: 0 <= i < |s| && s[i].id == id
  }
}
