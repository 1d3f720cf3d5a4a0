/**
 The activity store: its state, the four actions that drive it and the
 transition function `Apply`, with one group of lemmas per action.
 */
module ActivityReducer {
  import opened ActivityTypes

  /** The store's state; `activeId == ""` means no entry is being edited. */
  datatype State = State(activities: seq<Activity>, activeId: string)

  /** The tagged actions the store accepts. */
  datatype Action =
    | SaveActivity(newActivity: Activity)
    | SetActiveId(id: string)
    | DeleteActivity(id: string)
    | RestartApp

  /** The state the store starts from when nothing was persisted. */
  const EmptyState := State([], "")

  /** Every entry whose id is `id` replaced by `x`, the others kept in place
      (the edit-mode `map` of `save-activity`). */
  function ReplaceMatching(s: seq<Activity>, id: string, x: Activity): (r: seq<Activity>)
    ensures |r| == |s|
  {
    if s == [] then []
    else [if s[0].id == id then x else s[0]] + ReplaceMatching(s[1..], id, x)
  }

  /** The entries whose id is not `id`, in their original order (the
      `filter` of `delete-activity`). */
  function RemoveId(s: seq<Activity>, id: string): (r: seq<Activity>)
    ensures |r| <= |s|
    ensures forall a :: a in r <==> a in s && a.id != id
  {
    if s == [] then []
    else if s[0].id == id then RemoveId(s[1..], id)
    else [s[0]] + RemoveId(s[1..], id)
  }

  /** How many entries carry the id `id`. */
  function CountId(s: seq<Activity>, id: string): nat
  {
    if s == [] then 0 else (if s[0].id == id then 1 else 0) + CountId(s[1..], id)
  }

  /** The transition function of the store. Its contract gives, per action,
      the selection afterwards and the length of the new list. */
  function Apply(s: State, a: Action): (r: State)
    ensures r.activeId == (match a
      case SaveActivity(_) => ""
      case SetActiveId(id) => id
      case DeleteActivity(_) => s.activeId
      case RestartApp => "")
    ensures |r.activities| == (match a
      case SaveActivity(_) => if s.activeId == "" then |s.activities| + 1 else |s.activities|
      case SetActiveId(_) => |s.activities|
      case DeleteActivity(id) => |s.activities| - CountId(s.activities, id)
      case RestartApp => 0)
  {
    match a
    case SaveActivity(x) =>
      var updated := if s.activeId != "" then ReplaceMatching(s.activities, s.activeId, x)
                     else s.activities + [x];
      s.(activities := updated, activeId := "")
    case SetActiveId(id) => s.(activeId := id)
    case DeleteActivity(id) =>
      RemoveIdLength(s.activities, id);
      s.(activities := RemoveId(s.activities, id))
    case RestartApp => EmptyState
  }

  // ---------------------------------------------------------------- helpers

  lemma {:induction false} ReplaceMatchingAt(s: seq<Activity>, id: string, x: Activity, i: int)
    requires 0 <= i < |s|
    ensures ReplaceMatching(s, id, x)[i] == if s[i].id == id then x else s[i]
  {
    if i > 0 {
      ReplaceMatchingAt(s[1..], id, x, i - 1);
    }
  }

  lemma {:induction false} ReplaceMatchingAbsent(s: seq<Activity>, id: string, x: Activity)
    requires !HasId(s, id)
    ensures ReplaceMatching(s, id, x) == s
  {
    if s != [] {
      assert s[0].id != id;
      assert !HasId(s[1..], id) by {
        forall i | 0 <= i < |s[1..]| ensures s[1..][i].id != id {
          assert s[1..][i] == s[i + 1];
        }
      }
      ReplaceMatchingAbsent(s[1..], id, x);
      assert s == [s[0]] + s[1..];
    }
  }

  /** The deletion acts on each part of a concatenation separately. */
  lemma {:induction false} RemoveIdConcat(a: seq<Activity>, b: seq<Activity>, id: string)
    ensures RemoveId(a + b, id) == RemoveId(a, id) + RemoveId(b, id)
  {
    if a == [] {
      assert a + b == b;
    } else {
      assert (a + b)[0] == a[0];
      assert (a + b)[1..] == a[1..] + b;
      RemoveIdConcat(a[1..], b, id);
    }
  }

  lemma {:induction false} RemoveIdLength(s: seq<Activity>, id: string)
    ensures |RemoveId(s, id)| == |s| - CountId(s, id)
  {
    if s != [] {
      RemoveIdLength(s[1..], id);
    }
  }

  lemma {:induction false} CountIdAbsent(s: seq<Activity>, id: string)
    ensures CountId(s, id) == 0 <==> !HasId(s, id)
  {
    if s != [] {
      CountIdAbsent(s[1..], id);
      if HasId(s[1..], id) {
        var i :| 0 <= i < |s[1..]| && s[1..][i].id == id;
        assert s[i + 1].id == id;
      }
      if HasId(s, id) && s[0].id != id {
        var i :| 0 <= i < |s| && s[i].id == id;
        assert s[1..][i - 1].id == id;
      }
    }
  }

  lemma {:induction false} RemoveIdAbsent(s: seq<Activity>, id: string)
    requires !HasId(s, id)
    ensures RemoveId(s, id) == s
  {
    if s != [] {
      assert s[0].id != id;
      assert !HasId(s[1..], id) by {
        forall i | 0 <= i < |s[1..]| ensures s[1..][i].id != id {
          assert s[1..][i] == s[i + 1];
        }
      }
      RemoveIdAbsent(s[1..], id);
      assert s == [s[0]] + s[1..];
    }
  }

  // ------------------------------------------------------------ save-activity

  /** Create mode: the new entry is appended and every earlier entry stays. */
  lemma SaveAppends(s: State, x: Activity)
    requires s.activeId == ""
    ensures Apply(s, SaveActivity(x)).activities == s.activities + [x]
    ensures |Apply(s, SaveActivity(x)).activities| == |s.activities| + 1
    ensures Apply(s, SaveActivity(x)).activities[|s.activities|] == x
    ensures forall i :: 0 <= i < |s.activities| ==> Apply(s, SaveActivity(x)).activities[i] == s.activities[i]
  {
  }

  /** Edit mode: the length is kept, every entry named by `activeId` becomes
      the new entry and every other entry stays at its index. */
  lemma SaveEdits(s: State, x: Activity)
    requires s.activeId != ""
    ensures |Apply(s, SaveActivity(x)).activities| == |s.activities|
    ensures forall i :: 0 <= i < |s.activities| ==>
      Apply(s, SaveActivity(x)).activities[i] == if s.activities[i].id == s.activeId then x else s.activities[i]
  {
    forall i | 0 <= i < |s.activities|
      ensures Apply(s, SaveActivity(x)).activities[i] == if s.activities[i].id == s.activeId then x else s.activities[i]
    {
      ReplaceMatchingAt(s.activities, s.activeId, x, i);
    }
  }

  /** Edit mode naming an id that no entry has leaves the entries alone. */
  lemma SaveEditNoMatch(s: State, x: Activity)
    requires s.activeId != "" && !HasId(s.activities, s.activeId)
    ensures Apply(s, SaveActivity(x)).activities == s.activities
  {
    ReplaceMatchingAbsent(s.activities, s.activeId, x);
  }

  /** Edit mode over unique ids: exactly the selected position is replaced. */
  lemma SaveEditReplacesAt(s: State, x: Activity, k: int)
    requires UniqueIds(s.activities)
    requires s.activeId != "" && 0 <= k < |s.activities| && s.activities[k].id == s.activeId
    ensures Apply(s, SaveActivity(x)).activities == s.activities[..k] + [x] + s.activities[k + 1..]
  {
    var r := Apply(s, SaveActivity(x)).activities;
    var t := s.activities[..k] + [x] + s.activities[k + 1..];
    SaveEdits(s, x);
    forall i | 0 <= i < |r| ensures r[i] == t[i] {
      if i < k {
        assert t[i] == s.activities[i];
      } else if i > k {
        assert t[i] == s.activities[i];
      }
    }
  }

  /** Every save leaves the store out of edit mode. */
  lemma SaveClearsActiveId(s: State, x: Activity)
    ensures Apply(s, SaveActivity(x)).activeId == ""
  {
  }

  /** Appending an entry with a fresh id keeps ids unique. */
  lemma SaveAppendKeepsUnique(s: State, x: Activity)
    requires s.activeId == "" && UniqueIds(s.activities) && !HasId(s.activities, x.id)
    ensures UniqueIds(Apply(s, SaveActivity(x)).activities)
  {
  }

  /** The store does not enforce unique ids: appending an entry whose id is
      already taken always duplicates that id. */
  lemma SaveAppendDuplicates(s: State, x: Activity)
    requires s.activeId == "" && HasId(s.activities, x.id)
    ensures !UniqueIds(Apply(s, SaveActivity(x)).activities)
  {
    var r := Apply(s, SaveActivity(x)).activities;
    var i :| 0 <= i < |s.activities| && s.activities[i].id == x.id;
    assert r[i] == s.activities[i] && r[|s.activities|] == x;
  }

  /** An edit whose new entry takes the id of an entry other than the
      selected one always duplicates that id. */
  lemma SaveEditDuplicates(s: State, x: Activity, m: int)
    requires s.activeId != "" && HasId(s.activities, s.activeId)
    requires 0 <= m < |s.activities| && s.activities[m].id == x.id && x.id != s.activeId
    ensures !UniqueIds(Apply(s, SaveActivity(x)).activities)
  {
    var r := Apply(s, SaveActivity(x)).activities;
    var k :| 0 <= k < |s.activities| && s.activities[k].id == s.activeId;
    ReplaceMatchingAt(s.activities, s.activeId, x, k);
    ReplaceMatchingAt(s.activities, s.activeId, x, m);
    assert r[k] == x && r[m] == s.activities[m] && k != m;
  }

  /** Editing with an entry that keeps the selected id, or takes an id no
      entry has, keeps ids unique. */
  lemma SaveEditKeepsUnique(s: State, x: Activity)
    requires s.activeId != "" && UniqueIds(s.activities)
    requires x.id == s.activeId || !HasId(s.activities, x.id)
    ensures UniqueIds(Apply(s, SaveActivity(x)).activities)
  {
    var r := Apply(s, SaveActivity(x)).activities;
    SaveEdits(s, x);
    forall i, j | 0 <= i < |r| && 0 <= j < |r| && r[i].id == r[j].id ensures i == j {
      var ai, aj := s.activities[i], s.activities[j];
      assert r[i] == (if ai.id == s.activeId then x else ai);
      assert r[j] == (if aj.id == s.activeId then x else aj);
    }
  }

  // ------------------------------------------------------------ set-activeId

  /** Selecting an id changes the selection and nothing else. */
  lemma SetActiveIdSelects(s: State, id: string)
    ensures Apply(s, SetActiveId(id)).activeId == id
    ensures Apply(s, SetActiveId(id)).activities == s.activities
  {
  }

  // --------------------------------------------------------- delete-activity

  /** Deleting removes every entry with the id, keeps every other entry, and
      leaves the selection as it was. */
  lemma DeleteRemoves(s: State, id: string)
    ensures !HasId(Apply(s, DeleteActivity(id)).activities, id)
    ensures forall a :: a in Apply(s, DeleteActivity(id)).activities <==> a in s.activities && a.id != id
    ensures Apply(s, DeleteActivity(id)).activeId == s.activeId
  {
  }

  /** A surviving entry lands right after the survivors that precede it:
      entry i of the input is entry |RemoveId(s[..i], id)| of the result. */
  lemma SurvivorPosition(s: seq<Activity>, id: string, i: int)
    requires 0 <= i < |s| && s[i].id != id
    ensures |RemoveId(s[..i], id)| < |RemoveId(s, id)|
    ensures RemoveId(s, id)[|RemoveId(s[..i], id)|] == s[i]
  {
    assert s == s[..i] + ([s[i]] + s[i + 1..]);
    RemoveIdConcat(s[..i], [s[i]] + s[i + 1..], id);
    RemoveIdConcat([s[i]], s[i + 1..], id);
    assert RemoveId([s[i]], id) == [s[i]] by { assert [s[i]][1..] == []; }
  }

  /** Every entry of the result is a survivor of the input, at the index
      equal to the number of survivors before it: the result is exactly the
      surviving entries, in order. */
  lemma DeleteResultIsSurvivors(s: seq<Activity>, id: string, p: int)
    requires 0 <= p < |RemoveId(s, id)|
    ensures exists i :: 0 <= i < |s| && s[i].id != id && |RemoveId(s[..i], id)| == p && RemoveId(s, id)[p] == s[i]
  {
    var i := SurvivorAt(s, id, p);
  }

  /** The input index of the survivor at position p of the result. */
  lemma {:induction false} SurvivorAt(s: seq<Activity>, id: string, p: int) returns (i: int)
    requires 0 <= p < |RemoveId(s, id)|
    ensures 0 <= i < |s| && s[i].id != id && |RemoveId(s[..i], id)| == p && RemoveId(s, id)[p] == s[i]
  {
    var t := s[1..];
    RemoveIdCons(s, id);
    if s[0].id != id && p == 0 {
      assert s[..0] == [];
      i := 0;
    } else {
      var q := if s[0].id == id then p else p - 1;
      var k := SurvivorAt(t, id, q);
      RemoveIdPrefixCons(s, id, k);
      assert s[k + 1] == t[k];
      i := k + 1;
    }
  }

  lemma RemoveIdPrefixCons(s: seq<Activity>, id: string, k: int)
    requires 0 <= k < |s|
    ensures RemoveId(s[..k + 1], id) == (if s[0].id == id then [] else [s[0]]) + RemoveId(s[1..][..k], id)
  {
    var u := s[..k + 1];
    assert u[0] == s[0] && u[1..] == s[1..][..k];
    RemoveIdCons(u, id);
  }

  lemma RemoveIdCons(s: seq<Activity>, id: string)
    requires s != []
    ensures RemoveId(s, id) == (if s[0].id == id then [] else [s[0]]) + RemoveId(s[1..], id)
  {
  }

  /** The survivors keep their relative order: two surviving entries i < j
      appear in the result at positions p < q. */
  lemma DeleteKeepsOrder(s: seq<Activity>, id: string, i: int, j: int)
    requires 0 <= i < j < |s| && s[i].id != id && s[j].id != id
    ensures var p, q := |RemoveId(s[..i], id)|, |RemoveId(s[..j], id)|;
      p < q < |RemoveId(s, id)| && RemoveId(s, id)[p] == s[i] && RemoveId(s, id)[q] == s[j]
  {
    SurvivorPosition(s, id, i);
    SurvivorPosition(s, id, j);
    SurvivorPosition(s[..j], id, i);
    assert s[..j][..i] == s[..i];
  }

  /** The length drops by the number of matches; an absent id changes nothing. */
  lemma DeleteLength(s: State, id: string)
    ensures |Apply(s, DeleteActivity(id)).activities| == |s.activities| - CountId(s.activities, id)
    ensures |Apply(s, DeleteActivity(id)).activities| == |s.activities| <==> !HasId(s.activities, id)
    ensures !HasId(s.activities, id) ==> Apply(s, DeleteActivity(id)) == s
  {
    RemoveIdLength(s.activities, id);
    CountIdAbsent(s.activities, id);
    if !HasId(s.activities, id) {
      RemoveIdAbsent(s.activities, id);
    }
  }

  /** Deleting the same id twice is deleting it once. */
  lemma DeleteIdempotent(s: State, id: string)
    ensures Apply(Apply(s, DeleteActivity(id)), DeleteActivity(id)) == Apply(s, DeleteActivity(id))
  {
    DeleteRemoves(s, id);
    RemoveIdAbsent(RemoveId(s.activities, id), id);
  }

  /** Deleting the selected entry leaves a selection that names no entry. */
  lemma DeleteLeavesDanglingSelection(s: State)
    ensures Apply(s, DeleteActivity(s.activeId)).activeId == s.activeId
    ensures !HasId(Apply(s, DeleteActivity(s.activeId)).activities, s.activeId)
  {
  }

  /** Deleting keeps ids unique. */
  lemma {:induction false} DeleteKeepsUnique(s: seq<Activity>, id: string)
    requires UniqueIds(s)
    ensures UniqueIds(RemoveId(s, id))
  {
    if s != [] {
      assert UniqueIds(s[1..]) by {
        forall i, j | 0 <= i < |s[1..]| && 0 <= j < |s[1..]| && s[1..][i].id == s[1..][j].id
          ensures i == j
        {
          assert s[i + 1].id == s[j + 1].id;
        }
      }
      DeleteKeepsUnique(s[1..], id);
      if s[0].id != id {
        var t := RemoveId(s[1..], id);
        var r := [s[0]] + t;
        assert forall a :: a in t ==> a.id != s[0].id by {
          forall k | 0 <= k < |s[1..]| ensures s[1..][k].id != s[0].id {
            assert s[k + 1] == s[1..][k];
          }
        }
        forall i, j | 0 <= i < |r| && 0 <= j < |r| && r[i].id == r[j].id ensures i == j {
          assert i > 0 ==> r[i] == t[i - 1] && r[i] in t;
          assert j > 0 ==> r[j] == t[j - 1] && r[j] in t;
        }
      }
    }
  }

  /** Over unique ids, deleting an entry's id removes that one entry and
      nothing else. */
  lemma DeleteUniqueRemovesOne(a: seq<Activity>, x: Activity, b: seq<Activity>)
    requires UniqueIds(a + [x] + b)
    ensures RemoveId(a + [x] + b, x.id) == a + b
  {
    UniqueSplit(a, x, b);
    RemoveIdAround(a, x, b);
  }

  lemma RemoveIdAround(a: seq<Activity>, x: Activity, b: seq<Activity>)
    requires !HasId(a, x.id) && !HasId(b, x.id)
    ensures RemoveId(a + [x] + b, x.id) == a + b
  {
    var ra := RemoveId(a, x.id);
    var rb := RemoveId(b, x.id);
    var rx := RemoveId([x], x.id);
    RemoveIdAbsent(a, x.id);
    RemoveIdAbsent(b, x.id);
    assert rx == [] by { assert [x][1..] == []; }
    RemoveIdConcat(a, [x], x.id);
    RemoveIdConcat(a + [x], b, x.id);
    assert RemoveId(a + [x], x.id) == ra + rx;
    assert ra + rx == a;
  }

  lemma UniqueSplit(a: seq<Activity>, x: Activity, b: seq<Activity>)
    requires UniqueIds(a + [x] + b)
    ensures !HasId(a, x.id) && !HasId(b, x.id)
  {
    var s := a + [x] + b;
    var n := |a|;
    assert s[n] == x;
    forall i | 0 <= i < |a| ensures a[i].id != x.id {
      assert s[i] == a[i];
      assert s[i].id == s[n].id ==> i == n;
    }
    forall i | 0 <= i < |b| ensures b[i].id != x.id {
      assert s[n + 1 + i] == b[i];
      assert s[n + 1 + i].id == s[n].id ==> n + 1 + i == n;
    }
  }

  // ------------------------------------------------------------- restart-app

  /** Restarting empties the store whatever it held. */
  lemma RestartResets(s: State)
    ensures Apply(s, RestartApp) == EmptyState
  {
  }

  /** Selecting an id leaves the ids as unique as they were. */
  lemma SetActiveIdKeepsUnique(s: State, id: string)
    requires UniqueIds(s.activities)
    ensures UniqueIds(Apply(s, SetActiveId(id)).activities)
  {
  }

  /** The empty list after a restart trivially has unique ids. */
  lemma RestartKeepsUnique(s: State)
    ensures UniqueIds(Apply(s, RestartApp).activities)
  {
  }

  /** Restarting twice is restarting once. */
  lemma RestartIdempotent(s: State)
    ensures Apply(Apply(s, RestartApp), RestartApp) == Apply(s, RestartApp)
  {
  }

  // ----------------------------------------------------------- edit scenario

  /** Select an entry, then save an edited copy of it: the entry is replaced in
      place and the selection is cleared. */
  lemma EditFlow()
    ensures
      var salad := Activity("a", 1, "Salad", 200);
      var edited := Activity("a", 1, "Salad", 250);
      var s1 := Apply(State([salad], ""), SetActiveId("a"));
      Apply(s1, SaveActivity(edited)) == State([edited], "")
  {
  }
}
