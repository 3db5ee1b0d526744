/**
 A tree of subordinate views over a table of ads (src/classad/view.cpp). Every view has a
 constraint, a rank expression, an index by key and an ordered member list; a view is told
 of each insertion, modification and deletion and passes it on to its children.

 An ad is an opaque value; constraint and rank are functions of it.
 */
module Views {
  import opened Options
  import opened ViewMembers

  type Table<A> = map<string, A>

  datatype ViewState<!A> = ViewState(
    name: string,
    constraint: A -> bool,
    rank: A -> Rank,
    index: Index,
    members: seq<ViewMember>,
    children: seq<ViewState<A>>)

  function NewView<A>(name: string, constraint: A -> bool, rank: A -> Rank): ViewState<A>
  {
    ViewState(name, constraint, rank, map[], [], [])
  }

  // ---------- the notifications ----------

  /** The view's own part of an insertion, after its children have been told. */
  function Enlist<A>(v: ViewState<A>, key: string, rank: Rank): ViewState<A>
  {
    v.(index := v.index[key := rank], members := Insert(v.members, ViewMember(key, rank)))
  }

  /** The view's own part of a deletion. */
  function Strike<A>(v: ViewState<A>, key: string): ViewState<A>
    requires key in v.index
  {
    v.(index := v.index - {key}, members := EraseAt(v.members, ViewMember(key, v.index[key])))
  }

  /** The view's own part of a modification of a member that stays one: the member is erased by
      value and inserted again when its rank has changed. */
  function Reorder<A>(v: ViewState<A>, key: string, rank: Rank): ViewState<A>
    requires key in v.index
  {
    if rank == v.index[key] then v
    else v.(index := v.index[key := rank],
            members := Insert(EraseEquivalent(v.members, ViewMember(key, v.index[key])), ViewMember(key, rank)))
  }

  function Inserted<A>(v: ViewState<A>, key: string, ad: A): ViewState<A>
  {
    if !v.constraint(ad) then v
    else
      Enlist(v.(children := seq(|v.children|, i requires 0 <= i < |v.children| => Inserted(v.children[i], key, ad))),
             key, v.rank(ad))
  }

  function Deleted<A>(v: ViewState<A>, key: string): ViewState<A>
  {
    if key !in v.index then v
    else
      Strike(v, key).(children := seq(|v.children|, i requires 0 <= i < |v.children| => Deleted(v.children[i], key)))
  }

  function Modified<A>(v: ViewState<A>, key: string, ad: A): ViewState<A>
  {
    if key in v.index && v.constraint(ad) then
      Reorder(v, key, v.rank(ad))
        .(children := seq(|v.children|, i requires 0 <= i < |v.children| => Modified(v.children[i], key, ad)))
    else if v.constraint(ad) then Inserted(v, key, ad)
    else Deleted(v, key)
  }

  // ---------- what a view should hold ----------

  /** The ads a view passes on to its children. */
  function Restrict<A>(table: Table<A>, constraint: A -> bool): Table<A>
  {
    map k | k in table && constraint(table[k]) :: table[k]
  }

  function IndexOf<A>(table: Table<A>, constraint: A -> bool, rank: A -> Rank): Index
  {
    map k | k in table && constraint(table[k]) :: rank(table[k])
  }

  /** Recomputation: the index holds exactly the matching keys of the table with their present
      ranks, the member list agrees with the index, and every child is current for the ads
      that match here. */
  ghost predicate Current<A>(v: ViewState<A>, table: Table<A>)
  {
    && OwnCurrent(v, table)
    && forall i :: 0 <= i < |v.children| ==> Current(v.children[i], Restrict(table, v.constraint))
  }

  ghost predicate OwnCurrent<A>(v: ViewState<A>, table: Table<A>)
  {
    && v.index == IndexOf(table, v.constraint, v.rank)
    && Lists(v.members, v.index)
  }

  lemma RestrictUnmatched<A>(table: Table<A>, constraint: A -> bool, rank: A -> Rank, key: string, ad: A)
    requires key !in Restrict(table, constraint) && !constraint(ad)
    ensures Restrict(table[key := ad], constraint) == Restrict(table, constraint)
    ensures IndexOf(table[key := ad], constraint, rank) == IndexOf(table, constraint, rank)
  {
  }

  lemma RestrictMatched<A>(table: Table<A>, constraint: A -> bool, rank: A -> Rank, key: string, ad: A)
    requires constraint(ad)
    ensures Restrict(table[key := ad], constraint) == Restrict(table, constraint)[key := ad]
    ensures IndexOf(table[key := ad], constraint, rank) == IndexOf(table, constraint, rank)[key := rank(ad)]
  {
  }

  lemma RestrictRemoved<A>(table: Table<A>, constraint: A -> bool, rank: A -> Rank, key: string)
    ensures Restrict(table - {key}, constraint) == Restrict(table, constraint) - {key}
    ensures IndexOf(table - {key}, constraint, rank) == IndexOf(table, constraint, rank) - {key}
  {
  }

  lemma RestrictReplaced<A>(table: Table<A>, constraint: A -> bool, rank: A -> Rank, key: string, ad: A)
    requires !constraint(ad)
    ensures Restrict(table[key := ad], constraint) == Restrict(table, constraint) - {key}
    ensures IndexOf(table[key := ad], constraint, rank) == IndexOf(table, constraint, rank) - {key}
  {
  }

  // ---------- the notifications keep views current ----------

  /** Only the constraint, the rank and the table's restriction matter to a view. */
  lemma CurrentSame<A>(v: ViewState<A>, table: Table<A>, other: Table<A>)
    requires Current(v, table)
    requires Restrict(other, v.constraint) == Restrict(table, v.constraint)
    requires IndexOf(other, v.constraint, v.rank) == IndexOf(table, v.constraint, v.rank)
    ensures Current(v, other)
  {
  }

  lemma {:induction false} InsertedCurrent<A>(v: ViewState<A>, table: Table<A>, key: string, ad: A)
    requires Current(v, table) && key !in Restrict(table, v.constraint)
    ensures Current(Inserted(v, key, ad), table[key := ad])
  {
    if v.constraint(ad) {
      var below := Restrict(table, v.constraint);
      RestrictMatched(table, v.constraint, v.rank, key, ad);
      InsertLists(v.members, v.index, ViewMember(key, v.rank(ad)));
      forall i | 0 <= i < |v.children| ensures Current(Inserted(v.children[i], key, ad), below[key := ad]) {
        InsertedCurrent(v.children[i], below, key, ad);
      }
    } else {
      RestrictUnmatched(table, v.constraint, v.rank, key, ad);
      CurrentSame(v, table, table[key := ad]);
    }
  }

  lemma {:induction false} DeletedCurrent<A>(v: ViewState<A>, table: Table<A>, other: Table<A>, key: string)
    requires Current(v, table)
    requires Restrict(other, v.constraint) == Restrict(table, v.constraint) - {key}
    requires IndexOf(other, v.constraint, v.rank) == IndexOf(table, v.constraint, v.rank) - {key}
    ensures Current(Deleted(v, key), other)
  {
    var below := Restrict(table, v.constraint);
    if key in v.index {
      EraseAtLists(v.members, v.index, key);
      forall i | 0 <= i < |v.children| ensures Current(Deleted(v.children[i], key), below - {key}) {
        RestrictRemoved(below, v.children[i].constraint, v.children[i].rank, key);
        DeletedCurrent(v.children[i], below, below - {key}, key);
      }
    } else {
      assert key !in below;
      assert below - {key} == below && v.index - {key} == v.index;
      CurrentSame(v, table, other);
    }
  }

  /** No view that keeps the ad as a member erases other members with it: its rank there does
      not leave an undefined rank that another member shares. */
  ghost predicate Orderly<A>(v: ViewState<A>, key: string, ad: A)
  {
    key in v.index && v.constraint(ad) ==>
      && (v.rank(ad) != v.index[key] ==> !(v.index[key].None? && HasOtherUndefined(v.index, key)))
      && forall i :: 0 <= i < |v.children| ==> Orderly(v.children[i], key, ad)
  }

  /** A modification keeps the whole tree current if and only if it is orderly. */
  lemma {:induction false} ModifiedCurrentIff<A>(v: ViewState<A>, table: Table<A>, key: string, ad: A)
    requires Current(v, table) && key in table
    ensures Current(Modified(v, key, ad), table[key := ad]) <==> Orderly(v, key, ad)
  {
    if key in v.index && v.constraint(ad) {
      var below := Restrict(table, v.constraint);
      var after := Modified(v, key, ad);
      RestrictMatched(table, v.constraint, v.rank, key, ad);
      ReorderIff(v.members, v.index, key, v.rank(ad));
      forall i | 0 <= i < |v.children|
        ensures Current(after.children[i], below[key := ad]) <==> Orderly(v.children[i], key, ad) {
        ModifiedCurrentIff(v.children[i], below, key, ad);
      }
    } else if v.constraint(ad) {
      InsertedCurrent(v, table, key, ad);
    } else {
      RestrictReplaced(table, v.constraint, v.rank, key, ad);
      DeletedCurrent(v, table, table[key := ad], key);
    }
  }

  /** Every view ranks all ads, or none. */
  ghost predicate UniformRanks<A(!new)>(v: ViewState<A>)
  {
    && ((forall ad :: v.rank(ad).Some?) || (forall ad :: v.rank(ad).None?))
    && forall i :: 0 <= i < |v.children| ==> UniformRanks(v.children[i])
  }

  lemma {:induction false} UniformIsOrderly<A(!new)>(v: ViewState<A>, table: Table<A>, key: string, ad: A)
    requires Current(v, table) && UniformRanks(v)
    ensures Orderly(v, key, ad)
  {
    forall i | 0 <= i < |v.children| ensures Orderly(v.children[i], key, ad) {
      UniformIsOrderly(v.children[i], Restrict(table, v.constraint), key, ad);
    }
  }

  /** Two ads of undefined rank; giving the first a rank drops the second from the member list. */
  lemma RankChangeDropsMember()
    ensures
      var rank := (ad: int) => if ad == 0 then None else Some(ad);
      var v := Inserted(Inserted(NewView("root", (ad: int) => true, rank), "a", 0), "b", 0);
      && Current(v, map["a" := 0, "b" := 0])
      && "b" in Modified(v, "a", 5).index && ViewMember("b", None) !in Modified(v, "a", 5).members
  {
    var all, rank := (ad: int) => true, (ad: int) => if ad == 0 then None else Some(ad);
    var empty := NewView("root", all, rank);
    var one := Inserted(empty, "a", 0);
    var v := Inserted(one, "b", 0);
    InsertedCurrent(empty, map[], "a", 0);
    InsertedCurrent(one, map["a" := 0], "b", 0);
    assert map["a" := 0]["b" := 0] == map["a" := 0, "b" := 0];
    var erased := EraseEquivalent(v.members, ViewMember("a", None));
    EquivalentIff(ViewMember("b", None), ViewMember("a", None));
    InsertMembership(erased, ViewMember("a", Some(5)), ViewMember("b", None));
  }

  // ---------- the views along a path ----------

  predicate ValidPath<A>(v: ViewState<A>, path: seq<nat>)
  {
    path == [] || (path[0] < |v.children| && ValidPath(v.children[path[0]], path[1..]))
  }

  function At<A>(v: ViewState<A>, path: seq<nat>): ViewState<A>
    requires ValidPath(v, path)
  {
    if path == [] then v else At(v.children[path[0]], path[1..])
  }

  /** The ad meets the constraints of all views on the path. */
  predicate MeetsAll<A>(v: ViewState<A>, path: seq<nat>, ad: A)
    requires ValidPath(v, path)
  {
    v.constraint(ad) && (path != [] ==> MeetsAll(v.children[path[0]], path[1..], ad))
  }

  /** In a current tree a view holds exactly the keys whose ads meet its own and all its
      ancestors' constraints, each once, with its present rank, in order. */
  lemma {:induction false} HoldsMatchingAds<A>(v: ViewState<A>, table: Table<A>, path: seq<nat>)
    requires Current(v, table) && ValidPath(v, path)
    ensures
      var w := At(v, path);
      && (forall k :: k in w.index <==> k in table && MeetsAll(v, path, table[k]))
      && (forall k :: k in w.index ==> w.index[k] == w.rank(table[k]))
      && Listing(w.members, w.index)
  {
    if path == [] {
      ListsInOrder(v.members, v.index);
    } else {
      HoldsMatchingAds(v.children[path[0]], Restrict(table, v.constraint), path[1..]);
    }
  }

  // ---------- the incremental state is the recomputed one ----------

  ghost predicate Defined(index: Index)
  {
    forall k :: k in index ==> index[k].Some?
  }

  /** With integer ranks the order of the members is determined. */
  lemma {:induction false} ListingIsUnique(ms: seq<ViewMember>, other: seq<ViewMember>, index: Index)
    requires Lists(ms, index) && Lists(other, index) && Defined(index)
    ensures ms == other
  {
    assert other != [] ==> other[0] in other && Records(index, other[0]);
    if ms != [] {
      var first := ms[0];
      assert first in ms && Records(index, first) && first in other;
      var second := other[0];
      assert second in other && Records(index, second) && second in ms;
      EquivalentIff(first, second);
      assert first == second;
      EraseAtLists(ms, index, first.key);
      EraseAtLists(other, index, first.key);
      assert Find(ms, first) == 0 && Find(other, first) == 0;
      ListingIsUnique(ms[1..], other[1..], index - {first.key});
    }
  }

  /** The same views, whatever they hold. */
  ghost predicate SameShape<A>(v: ViewState<A>, w: ViewState<A>)
  {
    && v.name == w.name && v.constraint == w.constraint && v.rank == w.rank
    && |v.children| == |w.children|
    && forall i :: 0 <= i < |v.children| ==> SameShape(v.children[i], w.children[i])
  }

  ghost predicate DefinedRanks<A>(v: ViewState<A>)
  {
    Defined(v.index) && forall i :: 0 <= i < |v.children| ==> DefinedRanks(v.children[i])
  }

  /** Two trees of the same views that are current for the same table are equal: however the
      table came about, the views hold what a recomputation would give. */
  lemma {:induction false} CurrentIsUnique<A>(v: ViewState<A>, w: ViewState<A>, table: Table<A>)
    requires Current(v, table) && Current(w, table) && SameShape(v, w) && DefinedRanks(v)
    ensures v == w
  {
    ListingIsUnique(v.members, w.members, v.index);
    forall i | 0 <= i < |v.children| ensures v.children[i] == w.children[i] {
      CurrentIsUnique(v.children[i], w.children[i], Restrict(table, v.constraint));
    }
    assert v.children == w.children;
  }

  // ---------- creating a subordinate view ----------

  /** The new view is told of the parent's members one by one; None is the fatal error for a
      member that the collection does not have. */
  function Fill<A>(v: ViewState<A>, ms: seq<ViewMember>, coll: Table<A>): Option<ViewState<A>>
    decreases |ms|
  {
    if ms == [] then Some(v)
    else if ms[0].key !in coll then None
    else Fill(Inserted(v, ms[0].key, coll[ms[0].key]), ms[1..], coll)
  }

  function InsertSubordinate<A>(v: ViewState<A>, child: ViewState<A>, coll: Table<A>): Option<ViewState<A>>
  {
    var filled := Fill(child, v.members, coll);
    if filled.None? then None else Some(v.(children := [filled.value] + v.children))
  }

  predicate HasKey(ms: seq<ViewMember>, key: string)
  {
    ms != [] && (ms[0].key == key || HasKey(ms[1..], key))
  }

  lemma {:induction false} HasKeyIff(ms: seq<ViewMember>, key: string)
    ensures HasKey(ms, key) <==> exists i :: 0 <= i < |ms| && ms[i].key == key
  {
    if ms != [] {
      HasKeyIff(ms[1..], key);
      if i :| 0 <= i < |ms| && ms[i].key == key {
        assert i == 0 || ms[1..][i - 1].key == key;
      }
    }
  }

  /** The part of a table whose keys are not in a list. */
  function Outside<A>(table: Table<A>, ms: seq<ViewMember>): Table<A>
  {
    map k | k in table && !HasKey(ms, k) :: table[k]
  }

  lemma OutsideStep<A>(table: Table<A>, ms: seq<ViewMember>)
    requires ms != [] && DistinctKeys(ms) && ms[0].key in table
    ensures ms[0].key !in Outside(table, ms)
    ensures Outside(table, ms)[ms[0].key := table[ms[0].key]] == Outside(table, ms[1..])
  {
    HasKeyIff(ms[1..], ms[0].key);
  }

  /** Filling a view that already holds the rest of the table makes it current for all of it. */
  lemma {:induction false} FillCurrent<A>(v: ViewState<A>, table: Table<A>, ms: seq<ViewMember>, coll: Table<A>)
    requires Current(v, Outside(table, ms)) && DistinctKeys(ms)
    requires forall i :: 0 <= i < |ms| ==> Shares(table, coll, ms[i].key)
    ensures Fill(v, ms, coll).Some? && Current(Fill(v, ms, coll).value, table)
    ensures SameShape(Fill(v, ms, coll).value, v)
    decreases |ms|
  {
    if ms == [] {
      assert Outside(table, ms) == table;
      SameShapeAsItself(v);
    } else {
      var key := ms[0].key;
      var next := Inserted(v, key, coll[key]);
      assert Shares(table, coll, key);
      OutsideStep(table, ms);
      InsertedCurrent(v, Outside(table, ms), key, coll[key]);
      FillCurrent(next, table, ms[1..], coll);
      InsertedShape(v, key, coll[key]);
      SameShapeTransitive(Fill(next, ms[1..], coll).value, next, v);
    }
  }

  ghost predicate Shares<A>(table: Table<A>, coll: Table<A>, key: string)
  {
    key in table && key in coll && table[key] == coll[key]
  }

  lemma {:induction false} SameShapeAsItself<A>(v: ViewState<A>)
    ensures SameShape(v, v)
  {
    forall i | 0 <= i < |v.children| ensures SameShape(v.children[i], v.children[i]) {
      SameShapeAsItself(v.children[i]);
    }
  }

  lemma {:induction false} SameShapeTransitive<A>(u: ViewState<A>, v: ViewState<A>, w: ViewState<A>)
    requires SameShape(u, v) && SameShape(v, w)
    ensures SameShape(u, w)
  {
    forall i | 0 <= i < |u.children| ensures SameShape(u.children[i], w.children[i]) {
      SameShapeTransitive(u.children[i], v.children[i], w.children[i]);
    }
  }

  lemma {:induction false} InsertedShape<A>(v: ViewState<A>, key: string, ad: A)
    ensures SameShape(Inserted(v, key, ad), v)
  {
    forall i | 0 <= i < |v.children|
      ensures SameShape(Inserted(v.children[i], key, ad), v.children[i]) && SameShape(v.children[i], v.children[i]) {
      InsertedShape(v.children[i], key, ad);
      SameShapeAsItself(v.children[i]);
    }
  }

  lemma {:induction false} DeletedShape<A>(v: ViewState<A>, key: string)
    ensures SameShape(Deleted(v, key), v)
  {
    forall i | 0 <= i < |v.children|
      ensures SameShape(Deleted(v.children[i], key), v.children[i]) && SameShape(v.children[i], v.children[i]) {
      DeletedShape(v.children[i], key);
      SameShapeAsItself(v.children[i]);
    }
  }

  lemma {:induction false} ModifiedShape<A>(v: ViewState<A>, key: string, ad: A)
    ensures SameShape(Modified(v, key, ad), v)
  {
    InsertedShape(v, key, ad);
    DeletedShape(v, key);
    forall i | 0 <= i < |v.children| ensures SameShape(Modified(v.children[i], key, ad), v.children[i]) {
      ModifiedShape(v.children[i], key, ad);
    }
  }

  /** A new child of a current view is filled without a fatal error, and the view is current
      with it. */
  lemma InsertSubordinateCurrent<A>(v: ViewState<A>, table: Table<A>, child: ViewState<A>, coll: Table<A>)
    requires Current(v, table)
    requires forall k :: k in table ==> Shares(table, coll, k)
    requires child == NewView(child.name, child.constraint, child.rank)
    ensures var r := InsertSubordinate(v, child, coll);
      && r.Some? && Current(r.value, table)
      && r.value.children[1..] == v.children && SameShape(r.value.children[0], child)
  {
    var below := Restrict(table, v.constraint);
    forall i | 0 <= i < |v.members| ensures Shares(below, coll, v.members[i].key) {
      assert v.members[i] in v.members && Records(v.index, v.members[i]);
      assert Shares(table, coll, v.members[i].key);
    }
    forall k | k in below ensures HasKey(v.members, k) {
      assert Records(v.index, ViewMember(k, v.index[k]));
      HasKeyIff(v.members, k);
    }
    assert Outside(below, v.members) == map[];
    assert Current(child, map[]);
    FillCurrent(child, below, v.members, coll);
  }

  /** Find a view by name, as the registry does. */
  function PathOf<A>(v: ViewState<A>, name: string): (r: Option<seq<nat>>)
    ensures r.Some? ==> ValidPath(v, r.value) && At(v, r.value).name == name
    decreases v, |v.children| + 1
  {
    if v.name == name then Some([]) else PathBelow(v, name, 0)
  }

  function PathBelow<A>(v: ViewState<A>, name: string, i: nat): (r: Option<seq<nat>>)
    requires i <= |v.children|
    ensures r.Some? ==> ValidPath(v, r.value) && At(v, r.value).name == name
    decreases v, |v.children| - i
  {
    if i == |v.children| then None
    else
      var p := PathOf(v.children[i], name);
      if p.Some? then Some([i] + p.value) else PathBelow(v, name, i + 1)
  }

  /** No path leads to a view of a name that was not found. */
  lemma {:induction false} PathOfFinds<A>(v: ViewState<A>, name: string, path: seq<nat>)
    requires ValidPath(v, path) && At(v, path).name == name
    ensures PathOf(v, name).Some?
    decreases path
  {
    if path != [] && v.name != name {
      PathOfFinds(v.children[path[0]], name, path[1..]);
      PathBelowFinds(v, name, 0, path[0]);
    }
  }

  lemma {:induction false} PathBelowFinds<A>(v: ViewState<A>, name: string, i: nat, j: nat)
    requires i <= j < |v.children| && PathOf(v.children[j], name).Some?
    ensures PathBelow(v, name, i).Some?
    decreases j - i
  {
    if i < j {
      PathBelowFinds(v, name, i + 1, j);
    }
  }

  /** The tree with a new child under the view at a path. */
  function AttachAt<A>(v: ViewState<A>, path: seq<nat>, child: ViewState<A>, coll: Table<A>): Option<ViewState<A>>
    requires ValidPath(v, path)
  {
    if path == [] then InsertSubordinate(v, child, coll)
    else
      var below := AttachAt(v.children[path[0]], path[1..], child, coll);
      if below.None? then None else Some(v.(children := v.children[path[0] := below.value]))
  }

  lemma {:induction false} AttachCurrent<A>(v: ViewState<A>, table: Table<A>, path: seq<nat>, child: ViewState<A>, coll: Table<A>)
    requires Current(v, table) && ValidPath(v, path)
    requires forall k :: k in table ==> Shares(table, coll, k)
    requires child == NewView(child.name, child.constraint, child.rank)
    ensures var r := AttachAt(v, path, child, coll);
      && r.Some? && Current(r.value, table) && ValidPath(r.value, path + [0])
      && SameShape(At(r.value, path + [0]), child)
      && r.value.index == v.index && r.value.members == v.members
    decreases path
  {
    if path == [] {
      InsertSubordinateCurrent(v, table, child, coll);
    } else {
      var below := Restrict(table, v.constraint);
      forall k | k in below ensures Shares(below, coll, k) {
        assert Shares(table, coll, k);
      }
      AttachCurrent(v.children[path[0]], below, path[1..], child, coll);
      assert (path + [0])[1..] == path[1..] + [0];
    }
  }

  // ---------- the operations on a table and its views ----------

  datatype CreateResult<!A> = NoSuchView | ViewPresent | FatalError | Created(root: ViewState<A>)

  /** The parent is looked up first, then the new name is registered. */
  function CreateSubView<A>(root: ViewState<A>, name: string, parent: string, constraint: A -> bool, rank: A -> Rank,
                            coll: Table<A>): CreateResult<A>
  {
    var path := PathOf(root, parent);
    if path.None? then NoSuchView
    else if PathOf(root, name).Some? then ViewPresent
    else
      var r := AttachAt(root, path.value, NewView(name, constraint, rank), coll);
      if r.None? then FatalError else Created(r.value)
  }

  /** Creating a view never meets a member that the collection lacks, and the tree stays current
      with the new view, which is found under its name. */
  lemma CreateSubViewCurrent<A>(root: ViewState<A>, name: string, parent: string, constraint: A -> bool, rank: A -> Rank,
                                table: Table<A>)
    requires Current(root, table)
    ensures var r := CreateSubView(root, name, parent, constraint, rank, table);
      && !r.FatalError?
      && (r.Created? <==> PathOf(root, parent).Some? && PathOf(root, name).None?)
      && (r.Created? ==> Current(r.root, table) && PathOf(r.root, name).Some?)
  {
    var path := PathOf(root, parent);
    if path.Some? && PathOf(root, name).None? {
      var child := NewView(name, constraint, rank);
      assert forall k :: k in table ==> Shares(table, table, k);
      AttachCurrent(root, table, path.value, child, table);
      PathOfFinds(AttachAt(root, path.value, child, table).value, name, path.value + [0]);
    }
  }
}
