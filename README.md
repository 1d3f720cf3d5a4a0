# Calorie tracker: activity store and calorie totals

This project models the two pieces of logic in the calorie-tracker web app.

- **The activity store.** `activityReducer` is a pure transition function over a state with two parts: an ordered list of activities and an `activeId` string, where `""` means no entry is being edited. Four actions drive it: `save-activity`, `set-activeId`, `delete-activity` and `restart-app`. The model has a datatype `Action`, a record `State`, and `ActivityReducer.Apply(s, a)`. `Array.map` on line 108 becomes `ReplaceMatching`, and `Array.filter` on line 134 becomes `RemoveId`; both are recursive functions over `seq<Activity>`.
- **The calorie totals.** The summary view folds the activity list twice, once for calories consumed (category 1) and once for calories burned (category 2). Net is the difference of the two totals, not a third fold. `CalorieTracker.Reduce` models the `Array.reduce` left fold, accumulator included. It is proved equal to a reference definition: the sum of `calories` over the entries of one category (`SumCalories(OfCategory(s, c))`).

`Activity` is the record `Activity(id, category, name, calories)`. `category` and `calories` are unbounded integers. The file that declares the type (`src/types`) is not part of this model, so the record's fields follow how the reducer and the summary view use them.

Modules:
- `ActivityTypes` (activity_types.dfy): the record and the id predicates `UniqueIds` and `HasId`.
- `ActivityReducer` (activity_reducer.dfy): the state, the actions, `Apply`, and one group of lemmas per action.
- `CalorieTracker` (calorie_tracker.dfy): the folds and their properties.
- `StoreTotals` (store_totals.dfy): how each transition moves the totals.

Ids are meant to be unique, but the store does not enforce this. An edit-mode save replaces *every* entry whose id equals `activeId`, and a delete removes *every* entry with the id. With unique ids, each of these affects exactly one entry; `SaveEditReplacesAt` and `DeleteUniqueRemovesOne` prove that case.

Lemmas that need unique ids take them as a precondition. Which transitions preserve uniqueness:
- Delete, select and restart always preserve it.
- A create-mode save preserves it exactly when the new entry's id is not already in the list. `SaveAppendKeepsUnique` proves one direction and `SaveAppendDuplicates` the other.
- An edit-mode save preserves it when the new entry keeps the selected id or takes an id no entry has (`SaveEditKeepsUnique`). It breaks it when the selected id is present and the new entry takes the id of a different entry (`SaveEditDuplicates`). The helper lemmas `UniqueSplit` and `RemoveIdAround` split a unique list around one entry for `DeleteUniqueRemovesOne`.

## Model

| member | source | states |
|---|---|---|
| `ActivityReducer.Apply` | src/reducers/activity-reducer.ts:98-148 | for each of the four actions, what `activeId` becomes (cleared by a save or restart, set by a select, kept by a delete) and the new list's length (+1 for a create-mode save, unchanged for an edit or a select, minus the number of matches for a delete, 0 after a restart) |
| `ActivityReducer.ReplaceMatching` | src/reducers/activity-reducer.ts:108-110 | the edit-mode `map` keeps the list's length |
| `ActivityReducer.RemoveId` | src/reducers/activity-reducer.ts:134-136 | the `filter` result never grows; an activity is in it iff it is in the input and its id differs from the deleted id |
| `ActivityReducer.SaveAppends` | src/reducers/activity-reducer.ts:111-114 | with no selection, a save gives the old list plus the new activity at the end: length + 1, new activity last, every earlier element unchanged |
| `ActivityReducer.SaveEdits` | src/reducers/activity-reducer.ts:106-110 | with a selection, a save keeps the length; every element whose id equals `activeId` becomes the new activity and every other element keeps its index |
| `ActivityReducer.SaveEditNoMatch` | src/reducers/activity-reducer.ts:106-110 | with a selection that no element has, a save leaves the list identical |
| `ActivityReducer.SaveEditReplacesAt` | src/reducers/activity-reducer.ts:106-110 | over unique ids, an edit replaces exactly the selected position k: the result is `s[..k] + [x] + s[k+1..]` |
| `ActivityReducer.SaveClearsActiveId` | src/reducers/activity-reducer.ts:116-121 | after any save, `activeId` is `""` |
| `ActivityReducer.SaveAppendKeepsUnique` | src/reducers/activity-reducer.ts:111-114 | appending an activity whose id is new keeps ids unique |
| `ActivityReducer.SaveEditKeepsUnique` | src/reducers/activity-reducer.ts:106-110 | an edit keeps ids unique if its new activity keeps the selected id or takes an id no entry has |
| `ActivityReducer.SetActiveIdSelects` | src/reducers/activity-reducer.ts:124-129 | `set-activeId(id)` sets `activeId` to `id` and leaves `activities` identical |
| `ActivityReducer.DeleteRemoves` | src/reducers/activity-reducer.ts:131-138 | after a delete, no entry has the id, every other entry is still present, and `activeId` is untouched |
| `ActivityReducer.RemoveIdConcat` | src/reducers/activity-reducer.ts:134-136 | the `filter` of a concatenation is the concatenation of the filtered parts |
| `ActivityReducer.SurvivorPosition` | src/reducers/activity-reducer.ts:134-136 | a surviving entry i sits in the result right after the survivors that come before it, at the index equal to the number of survivors in `s[..i]` |
| `ActivityReducer.DeleteResultIsSurvivors` | src/reducers/activity-reducer.ts:134-136 | every position p of the result holds a surviving input entry i, and p is the number of survivors before i: the result is exactly the survivors, in order |
| `ActivityReducer.DeleteKeepsOrder` | src/reducers/activity-reducer.ts:134-136 | two surviving entries i < j appear in the result at positions p < q: the survivors keep their relative order |
| `ActivityReducer.DeleteLength` | src/reducers/activity-reducer.ts:131-138 | the length drops by the number of entries with the id; it is unchanged iff the id is absent, and then the whole state is unchanged |
| `ActivityReducer.DeleteIdempotent` | src/reducers/activity-reducer.ts:134-136 | deleting the same id twice gives the same state as deleting it once |
| `ActivityReducer.DeleteLeavesDanglingSelection` | src/reducers/activity-reducer.ts:131-138 | deleting the selected id keeps `activeId` while no entry has that id any more (the dangling selection) |
| `ActivityReducer.DeleteKeepsUnique` | src/reducers/activity-reducer.ts:134-136 | deleting keeps ids unique |
| `ActivityReducer.DeleteUniqueRemovesOne` | src/reducers/activity-reducer.ts:134-136 | over unique ids, deleting an entry's id removes exactly that entry: `a + [x] + b` becomes `a + b` |
| `ActivityReducer.RestartResets` | src/reducers/activity-reducer.ts:140-145 | `restart-app` yields an empty list and an empty `activeId` for every input state |
| `ActivityReducer.SetActiveIdKeepsUnique` | src/reducers/activity-reducer.ts:124-129 | selecting an id keeps the ids unique |
| `ActivityReducer.RestartKeepsUnique` | src/reducers/activity-reducer.ts:140-145 | the list after a restart has unique ids |
| `ActivityReducer.SaveAppendDuplicates` | src/reducers/activity-reducer.ts:111-114 | the store does not enforce unique ids: every create-mode save of an id already in the list leaves a duplicate id |
| `ActivityReducer.SaveEditDuplicates` | src/reducers/activity-reducer.ts:106-110 | every edit whose selected id is present, and whose new activity takes the id of an entry other than the selected one, leaves a duplicate id |
| `ActivityReducer.RestartIdempotent` | src/reducers/activity-reducer.ts:140-145 | restarting twice equals restarting once |
| `ActivityReducer.EditFlow` | src/reducers/activity-reducer.ts:102-129 | selecting "a" and then saving an edited copy replaces the entry in place and clears the selection |
| `CalorieTracker.Step` | src/components/CalorieTracker.tsx:13-14 | one step of the fold callback raises the running total by exactly the entry's contribution to its category's sum: its calories if the category matches, else 0 |
| `CalorieTracker.Reduce` | src/components/CalorieTracker.tsx:12-26 | the `reduce` left fold from any start value equals that value plus the sum of calories over the entries of the category |
| `CalorieTracker.CaloriesConsumed` | src/components/CalorieTracker.tsx:10-18 | consumed is the sum of `calories` over the entries with category 1 |
| `CalorieTracker.CaloriesBurned` | src/components/CalorieTracker.tsx:20-28 | burned is the sum of `calories` over the entries with category 2 |
| `CalorieTracker.NetCalories` | src/components/CalorieTracker.tsx:30-33 | net is the category-1 sum minus the category-2 sum |
| `CalorieTracker.NetIsDifference` | src/components/CalorieTracker.tsx:30-33 | net equals consumed minus burned, and so the difference of the two folds |
| `CalorieTracker.EmptyTotals` | src/components/CalorieTracker.tsx:10-33 | an empty list gives 0 consumed, 0 burned and 0 net |
| `CalorieTracker.TotalsAdditive` | src/components/CalorieTracker.tsx:12-26 | consumed, burned and net are each additive over concatenation |
| `CalorieTracker.SingleTotals` | src/components/CalorieTracker.tsx:13-14 | one entry's calories count as consumed iff its category is 1 and as burned iff its category is 2 |
| `CalorieTracker.OtherCategoryIgnored` | src/components/CalorieTracker.tsx:12-26 | inserting an entry whose category is neither 1 nor 2 anywhere changes neither total |
| `CalorieTracker.AppendTotals` | src/components/CalorieTracker.tsx:12-26 | appending an entry adds its calories to the total its category names, and adds nothing to the other |
| `CalorieTracker.WorkedExample` | src/components/CalorieTracker.tsx:10-33 | entries (cat 1, 300), (cat 2, 100) and (cat 1, 200) give 500 consumed, 100 burned and 400 net |
| `StoreTotals.SaveAppendTotals` | src/reducers/activity-reducer.ts:111-114 | a create-mode save raises consumed or burned by the new activity's calories, depending on its category |
| `StoreTotals.SaveEditTotals` | src/reducers/activity-reducer.ts:106-110 | over unique ids, an edit swaps the selected entry's contribution to each total for the new entry's |
| `StoreTotals.DeleteOneTotals` | src/reducers/activity-reducer.ts:131-138 | over unique ids, deleting an entry lowers each total by exactly that entry's contribution |
| `StoreTotals.SetActiveIdKeepsTotals` | src/reducers/activity-reducer.ts:124-129 | selecting an entry leaves both totals unchanged |
| `StoreTotals.RestartTotals` | src/reducers/activity-reducer.ts:140-145 | after a restart, all three totals are 0 |

## Left out

- The fall-through `return state` (src/reducers/activity-reducer.ts:147) cannot be reached, because `Action` is a closed datatype with exactly four constructors. The frame lemmas replace it: each branch changes only the fields it names (`SetActiveIdSelects`, `DeleteRemoves`).
- Seeding the initial state from `localStorage` through `JSON.parse` (lines 86-95) is browser I/O, so it is left out. Lemmas take an arbitrary `State`; `EmptyState` is the empty list with the empty `activeId` of line 94.
- React machinery is left out because it adds no behaviour to the folds: `useMemo` caching, `dispatch`, and the JSX rendering of the summary view and its `CalorieDisplay` children.
- Left out because they are view glue with no state logic: the form component (static markup); the list component, whose buttons only dispatch `set-activeId` and `delete-activity`; and `categoryName`, which reads a category catalog that is not part of this model.
- JavaScript `number` semantics are not modelled: floating point, NaN, and the `+activity.category` coercion. `calories` and `category` are unbounded integers.
