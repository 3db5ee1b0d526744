/**
 The views of a collection with its cache on (src/classad/collectionBase.cpp): what an addition
 or a removal tells them, and when they are still what a recomputation from the visible ads
 gives. They are not told of an ad that leaves the storage file alone, nor of one that is put
 back after a failed addition.
 */
module CacheViews {
  import opened Options
  import opened ViewMembers
  import opened Views
  import C = AdCache

  /** The views after AddClassAd_NoTransaction. A view that refuses the ad has not taken it. */
  function AfterAddition<A>(v: ViewState<A>, c: C.Cache<A>, key: string, ad: A, outcome: C.Outcome): ViewState<A>
  {
    var without := AfterRemoval(v, c, key);
    match outcome
    case Done => Inserted(without, key, ad)
    case ViewRefuses => without
    case LogFails => Undone(without, key, ad)
  }

  /** The views after RemoveClassAd, and after the first step of an addition. */
  function AfterRemoval<A>(v: ViewState<A>, c: C.Cache<A>, key: string): ViewState<A>
  {
    if key in c.table then Deleted(v, key) else v
  }

  /** An insertion that is taken back. */
  function Undone<A>(v: ViewState<A>, key: string, ad: A): ViewState<A>
  {
    Deleted(Inserted(v, key, ad), key)
  }

  lemma RemovedCurrent<A>(v: ViewState<A>, m: Table<A>, key: string)
    requires Current(v, m)
    ensures Current(Deleted(v, key), m - {key})
  {
    RestrictRemoved(m, v.constraint, v.rank, key);
    DeletedCurrent(v, m, m - {key}, key);
  }

  /** A view that is current holds a key exactly if the ad is there and meets its constraint. */
  lemma HoldsIff<A>(v: ViewState<A>, m: Table<A>, key: string)
    requires Current(v, m)
    ensures key in v.index <==> key in m && v.constraint(m[key])
  {
  }

  /** Removing an ad keeps the views current if and only if the ad was in the table, or no view
      held it. */
  lemma RemovalCurrentIff<A(!new)>(v: ViewState<A>, c: C.Cache<A>, key: string, m: Table<A>)
    requires Current(v, m) && C.Shows(c, m)
    ensures Current(AfterRemoval(v, c, key), m - {key}) <==> key in c.table || key !in v.index
  {
    if key in c.table {
      RemovedCurrent(v, m, key);
    } else {
      RestrictRemoved(m, v.constraint, v.rank, key);
      if key !in v.index {
        SameWithout(v, m, key);
      }
    }
  }

  lemma SameWithout<A>(v: ViewState<A>, m: Table<A>, key: string)
    requires Current(v, m) && key !in v.index
    ensures Current(v, m - {key})
  {
    RestrictRemoved(m, v.constraint, v.rank, key);
    HoldsIff(v, m, key);
    assert Restrict(m, v.constraint) - {key} == Restrict(m, v.constraint);
    assert IndexOf(m, v.constraint, v.rank) - {key} == IndexOf(m, v.constraint, v.rank);
    CurrentSame(v, m, m - {key});
  }

  // ---------- an ad that is inserted while the view still holds its key ----------

  /** Some two entries of the list have the key. */
  ghost predicate Twice(ms: seq<ViewMember>, key: string)
  {
    exists i, j :: 0 <= i < j < |ms| && ms[i].key == ms[j].key == key
  }

  lemma InsertedTwice(ms: seq<ViewMember>, m: ViewMember, other: ViewMember)
    requires other in ms && other.key == m.key
    ensures Twice(Insert(ms, m), m.key)
  {
    var p := UpperBound(ms, m);
    var i :| 0 <= i < |ms| && ms[i] == other;
    var all := Insert(ms, m);
    assert all[p] == m && all[if i < p then i else i + 1] == other;
  }

  lemma ErasedOnce(ms: seq<ViewMember>, m: ViewMember)
    requires Twice(ms, m.key)
    ensures exists x :: x in EraseAt(ms, m) && x.key == m.key
  {
    var i, j :| 0 <= i < j < |ms| && ms[i].key == ms[j].key == m.key;
    var p, rest := Find(ms, m), EraseAt(ms, m);
    var k := if i == p then j else i;
    assert rest[if k < p then k else k - 1] == ms[k];
  }

  /** Inserting an ad that matches, under a key that the view holds, leaves a member too many. */
  lemma InsertedHeld<A>(v: ViewState<A>, m: Table<A>, key: string, ad: A)
    requires Current(v, m) && key in v.index && v.constraint(ad)
    ensures Twice(Inserted(v, key, ad).members, key)
    ensures !DistinctKeys(Inserted(v, key, ad).members)
  {
    var held := ViewMember(key, v.index[key]);
    assert Records(v.index, held);
    InsertedTwice(v.members, ViewMember(key, v.rank(ad)), held);
  }

  /** Taking it back removes one of the two. */
  lemma InsertedHeldDeleted<A>(v: ViewState<A>, m: Table<A>, key: string, ad: A)
    requires Current(v, m) && key in v.index && v.constraint(ad)
    ensures !Current(Undone(v, key, ad), m - {key})
  {
    InsertedHeld(v, m, key, ad);
    var w := Inserted(v, key, ad);
    ErasedOnce(w.members, ViewMember(key, w.index[key]));
    var r := Deleted(w, key);
    var x :| x in r.members && x.key == key;
    assert !Records(r.index, x);
  }

  /** When an addition keeps the views current. One that succeeds does unless it replaces an ad
      that a view holds and only the storage file has; one that a view refuses does unless a view
      held the key; one that cannot be logged does also if the ad was only stored and the new one
      matches no view. */
  lemma AdditionCurrentIff<A(!new)>(v: ViewState<A>, c: C.Cache<A>, key: string, ad: A, outcome: C.Outcome, m: Table<A>)
    requires Current(v, m) && C.Shows(c, m)
    ensures Current(AfterAddition(v, c, key, ad, outcome), C.Shown(c, m, key, ad, outcome)) <==>
      match outcome
      case Done => key in c.table || key !in v.index
      case ViewRefuses => key !in v.index
      case LogFails => key !in v.index || (key !in c.table && !v.constraint(ad))
  {
    match outcome {
      case Done => DoneCurrentIff(v, c, key, ad, m);
      case ViewRefuses => RefusedCurrentIff(v, c, key, ad, m);
      case LogFails => UnloggedCurrentIff(v, c, key, ad, m);
    }
  }

  lemma DoneCurrentIff<A(!new)>(v: ViewState<A>, c: C.Cache<A>, key: string, ad: A, m: Table<A>)
    requires Current(v, m) && C.Shows(c, m)
    ensures Current(Inserted(AfterRemoval(v, c, key), key, ad), m[key := ad]) <==> key in c.table || key !in v.index
  {
    HoldsIff(v, m, key);
    if key in c.table {
      RemovedCurrent(v, m, key);
      InsertedCurrent(Deleted(v, key), m - {key}, key, ad);
      assert (m - {key})[key := ad] == m[key := ad];
    } else if key !in v.index {
      InsertedCurrent(v, m, key, ad);
    } else if v.constraint(ad) {
      InsertedHeld(v, m, key, ad);
    }
  }

  lemma RefusedCurrentIff<A(!new)>(v: ViewState<A>, c: C.Cache<A>, key: string, ad: A, m: Table<A>)
    requires Current(v, m) && C.Shows(c, m)
    ensures Current(AfterRemoval(v, c, key), C.Shown(c, m, key, ad, C.ViewRefuses)) <==> key !in v.index
  {
    HoldsIff(v, m, key);
    if key !in v.index {
      SameWithout(v, m, key);
    } else if key in c.table {
      HoldsIff(v, m, key);
    }
  }

  lemma UndoneCurrent<A>(v: ViewState<A>, m: Table<A>, key: string, ad: A)
    requires Current(v, m) && key !in m
    ensures Current(Undone(v, key, ad), m)
  {
    InsertedCurrent(v, m, key, ad);
    RemovedCurrent(Inserted(v, key, ad), m[key := ad], key);
    assert m[key := ad] - {key} == m;
  }

  lemma UnloggedCurrentIff<A(!new)>(v: ViewState<A>, c: C.Cache<A>, key: string, ad: A, m: Table<A>)
    requires Current(v, m) && C.Shows(c, m)
    ensures Current(Undone(AfterRemoval(v, c, key), key, ad), C.Shown(c, m, key, ad, C.LogFails))
       <==> key !in v.index || (key !in c.table && !v.constraint(ad))
  {
    HoldsIff(v, m, key);
    if key !in v.index {
      UndoneUnheld(v, m, key, ad);
    } else if key in c.table {
      UndoneReplaced(v, m, key, ad);
    } else if v.constraint(ad) {
      InsertedHeldDeleted(v, m, key, ad);
    } else {
      RemovedCurrent(v, m, key);
    }
  }

  lemma UndoneUnheld<A>(v: ViewState<A>, m: Table<A>, key: string, ad: A)
    requires Current(v, m) && key !in v.index
    ensures Deleted(v, key) == v && Current(Undone(v, key, ad), m) && Current(Undone(v, key, ad), m - {key})
  {
    SameWithout(v, m, key);
    UndoneCurrent(v, m - {key}, key, ad);
    if key in m {
      HoldsIff(v, m, key);
      UndoneConstraint(v, key, ad);
      Unmatched(Undone(v, key, ad), m, key);
    } else {
      assert m - {key} == m;
    }
  }

  lemma UndoneConstraint<A>(v: ViewState<A>, key: string, ad: A)
    ensures Undone(v, key, ad).constraint == v.constraint
    ensures key !in Undone(v, key, ad).index
  {
  }

  lemma UndoneReplaced<A>(v: ViewState<A>, m: Table<A>, key: string, ad: A)
    requires Current(v, m) && key in v.index
    ensures !Current(Undone(Deleted(v, key), key, ad), m)
  {
    HoldsIff(v, m, key);
    UndoneConstraint(Deleted(v, key), key, ad);
  }

  /** An ad that matches nothing may be there or not. */
  lemma Unmatched<A>(v: ViewState<A>, m: Table<A>, key: string)
    requires Current(v, m - {key}) && key in m && !v.constraint(m[key])
    ensures Current(v, m)
  {
    assert Restrict(m, v.constraint) == Restrict(m - {key}, v.constraint);
    assert IndexOf(m, v.constraint, v.rank) == IndexOf(m - {key}, v.constraint, v.rank);
    CurrentSame(v, m - {key}, m);
  }

  /** With the cache off the table holds all ads. A failed addition then leaves the ads as they
      were, and the views exactly if none of them held the key. */
  lemma UncachedFailure<A(!new)>(v: ViewState<A>, key: string, ad: A, outcome: C.Outcome, m: Table<A>)
    requires Current(v, m) && !outcome.Done?
    ensures
      var c := C.Cache(m, {}, 0, map[]);
      && C.Shown(c, m, key, ad, outcome) == m
      && (Current(AfterAddition(v, c, key, ad, outcome), m) <==> key !in v.index)
  {
    var c := C.Cache(m, {}, 0, map[]);
    HoldsIff(v, m, key);
    AdditionCurrentIff(v, c, key, ad, outcome, m);
  }

  // ---------- runs ----------

  /** The views after an operation that succeeds. An ad that is swapped in or out is not announced. */
  function AfterStep<A>(v: ViewState<A>, c: C.Cache<A>, sem: C.Changes<A>, op: C.Operation<A>): ViewState<A>
  {
    match op
    case Add(key, ad) => AfterAddition(v, c, key, ad, C.Done)
    case Update(key, ad) => AfterChange(v, c, sem.updated, key, ad)
    case Modify(key, ad) => AfterChange(v, c, sem.modified, key, ad)
    case RemoveAd(key) => AfterRemoval(v, c, key)
    case Get(_) => v
  }

  function AfterChange<A>(v: ViewState<A>, c: C.Cache<A>, f: (A, A) -> A, key: string, ad: A): ViewState<A>
  {
    match C.Look(c, key)
    case None => v
    case Some(seen) => Modified(v, key, f(seen, ad))
  }

  /** What an operation must meet for the views to stay current: no view holds an ad that is
      replaced or removed in the storage file alone, and a change is orderly. */
  ghost predicate Told<A>(v: ViewState<A>, c: C.Cache<A>, sem: C.Changes<A>, op: C.Operation<A>)
  {
    match op
    case Add(key, _) => key in c.table || key !in v.index
    case Update(key, ad) => ChangeTold(v, c, sem.updated, key, ad)
    case Modify(key, ad) => ChangeTold(v, c, sem.modified, key, ad)
    case RemoveAd(key) => key in c.table || key !in v.index
    case Get(_) => true
  }

  ghost predicate ChangeTold<A>(v: ViewState<A>, c: C.Cache<A>, f: (A, A) -> A, key: string, ad: A)
  {
    C.Look(c, key).Some? ==> Orderly(v, key, f(C.Look(c, key).value, ad))
  }

  lemma StepCurrentIff<A(!new)>(v: ViewState<A>, c: C.Cache<A>, sem: C.Changes<A>, op: C.Operation<A>, m: Table<A>)
    requires Current(v, m) && C.Shows(c, m)
    ensures Current(AfterStep(v, c, sem, op), C.Plain(m, sem, op)) <==> Told(v, c, sem, op)
  {
    match op {
      case Add(key, ad) => DoneCurrentIff(v, c, key, ad, m);
      case Update(key, ad) => ChangeCurrentIff(v, c, sem.updated, key, ad, m);
      case Modify(key, ad) => ChangeCurrentIff(v, c, sem.modified, key, ad, m);
      case RemoveAd(key) => RemovalCurrentIff(v, c, key, m);
      case Get(_) =>
    }
  }

  lemma ChangeCurrentIff<A(!new)>(v: ViewState<A>, c: C.Cache<A>, f: (A, A) -> A, key: string, ad: A, m: Table<A>)
    requires Current(v, m) && C.Shows(c, m)
    ensures Current(AfterChange(v, c, f, key, ad), if key in m then m[key := f(m[key], ad)] else m)
       <==> ChangeTold(v, c, f, key, ad)
  {
    assert C.Look(c, key) == C.At(m, key);
    if key in m {
      ModifiedCurrentIff(v, m, key, f(m[key], ad));
    }
  }

  /** The views are current for the visible ads before every operation of a run and after it. */
  ghost predicate AlwaysCurrent<A(!new)>(v: ViewState<A>, c: C.Cache<A>, limit: nat, sem: C.Changes<A>,
                                         steps: seq<(C.Operation<A>, string)>, m: Table<A>)
    decreases |steps|
  {
    && Current(v, m)
    && (steps != [] ==>
          match C.Step(c, limit, sem, steps[0].0, steps[0].1)
          case None => true
          case Some(r) => AlwaysCurrent(AfterStep(v, c, sem, steps[0].0), r, limit, sem, steps[1..], C.Plain(m, sem, steps[0].0)))
  }

  ghost predicate AlwaysTold<A>(v: ViewState<A>, c: C.Cache<A>, limit: nat, sem: C.Changes<A>,
                                steps: seq<(C.Operation<A>, string)>)
    decreases |steps|
  {
    steps != [] ==>
      match C.Step(c, limit, sem, steps[0].0, steps[0].1)
      case None => true
      case Some(r) =>
        && Told(v, c, sem, steps[0].0)
        && AlwaysTold(AfterStep(v, c, sem, steps[0].0), r, limit, sem, steps[1..])
  }

  /** Over any run with any victims the views stay current if and only if every operation is
      announced: none replaces or removes an ad that a view holds and only the storage file has,
      and every change is orderly. */
  lemma {:induction false} AlwaysCurrentIff<A(!new)>(v: ViewState<A>, c: C.Cache<A>, limit: nat, sem: C.Changes<A>,
                                                     steps: seq<(C.Operation<A>, string)>, m: Table<A>)
    requires Current(v, m) && C.Clean(c) && C.Counted(c, limit) && C.Shows(c, m)
    ensures AlwaysCurrent(v, c, limit, sem, steps, m) <==> AlwaysTold(v, c, limit, sem, steps)
    decreases |steps|
  {
    if steps != [] && C.Step(c, limit, sem, steps[0].0, steps[0].1).Some? {
      var (op, victim) := steps[0];
      var r := C.Step(c, limit, sem, op, victim).value;
      C.StepShows(c, limit, sem, op, victim, m);
      StepCurrentIff(v, c, sem, op, m);
      if Told(v, c, sem, op) {
        AlwaysCurrentIff(AfterStep(v, c, sem, op), r, limit, sem, steps[1..], C.Plain(m, sem, op));
      }
    }
  }

  /** In a cache for one ad the second addition swaps the first ad out. */
  lemma SecondSwapsOut<A(!new)>(sem: C.Changes<A>, ad: A)
    ensures
      var none: C.Cache<A> := C.Cache(map[], {}, 0, map[]);
      var one := C.Step(none, 1, sem, C.Add("a", ad), "");
      one.Some? && one.value.table == map["a" := ad]
      && C.Step(one.value, 1, sem, C.Add("b", ad), "a") == Some(C.Cache(map["b" := ad], {"b"}, 1, map["a" := ad]))
  {
    var none: C.Cache<A> := C.Cache(map[], {}, 0, map[]);
    var one := C.Step(none, 1, sem, C.Add("a", ad), "").value;
    assert none.stored - {"a"} == none.stored;
    assert one == C.Cache(map["a" := ad], {"a"}, 1, map[]);
    assert one.stored - {"b"} == one.stored;
    assert C.TakeOut(one, "b") == one;
    assert C.MakeRoom(one, 1, "a") == C.Cache(map[], {}, 0, map["a" := ad]);
    assert C.Step(one, 1, sem, C.Add("b", ad), "a").value == C.Cache(map["b" := ad], {"b"}, 1, map["a" := ad]);
  }

  lemma BothHeld<A>(root: ViewState<A>, ad: A)
    requires root.constraint(ad)
    ensures "a" in Inserted(Inserted(root, "a", ad), "b", ad).index
  {
  }

  /** The removal of the ad that was swapped out is not announced: the view goes on holding it. */
  lemma RemovedAdStays<A(!new)>(sem: C.Changes<A>, ad: A)
    ensures
      var root := NewView("root", (a: A) => true, (a: A) => None);
      var steps := [(C.Add("a", ad), ""), (C.Add("b", ad), "a"), (C.RemoveAd("a"), "")];
      && C.Run(C.Cache(map[], {}, 0, map[]), 1, sem, steps).Some?
      && !AlwaysCurrent(root, C.Cache(map[], {}, 0, map[]), 1, sem, steps, map[])
  {
    var root := NewView("root", (a: A) => true, (a: A) => None);
    var none: C.Cache<A> := C.Cache(map[], {}, 0, map[]);
    var steps := [(C.Add("a", ad), ""), (C.Add("b", ad), "a"), (C.RemoveAd("a"), "")];
    var last := [(C.RemoveAd("a"), "")];
    SecondSwapsOut(sem, ad);
    BothHeld(root, ad);
    var one := C.Step(none, 1, sem, C.Add("a", ad), "").value;
    var two := C.Step(one, 1, sem, C.Add("b", ad), "a").value;
    var v := Inserted(root, "a", ad);
    RunOfThree(none, one, two, sem, steps);
    assert !AlwaysTold(Inserted(v, "b", ad), two, 1, sem, last);
    assert steps[1..] == [(C.Add("b", ad), "a")] + last && steps[1..][1..] == last;
    assert !AlwaysTold(v, one, 1, sem, steps[1..]);
    AlwaysCurrentIff(root, none, 1, sem, steps, map[]);
  }

  lemma RunOfThree<A>(c: C.Cache<A>, one: C.Cache<A>, two: C.Cache<A>, sem: C.Changes<A>, steps: seq<(C.Operation<A>, string)>)
    requires |steps| == 3 && steps[2].0.RemoveAd?
    requires C.Step(c, 1, sem, steps[0].0, steps[0].1) == Some(one) && C.Step(one, 1, sem, steps[1].0, steps[1].1) == Some(two)
    ensures C.Run(c, 1, sem, steps).Some?
  {
    assert steps[1..][1..] == [steps[2]];
    assert C.Run(C.Remove(two, steps[2].0.key), 1, sem, []).Some?;
    assert C.Run(two, 1, sem, [steps[2]]).Some?;
    assert C.Run(one, 1, sem, steps[1..]).Some?;
  }
}
