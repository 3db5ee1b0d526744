/**
 The dump of the view tree (src/classad/collectionBase.cpp, LogViews): a creation record for
 every view but the root, each before those of its children. Replaying it on a new collection
 creates the same views. A new child goes in front of its siblings, so siblings come back in
 reverse order.
 */
module ViewDump {
  import opened Options
  import opened ViewMembers
  import opened Views
  import opened AdStore
  import opened AdLog

  // ---------- the records and the tree they make ----------

  function InfoOf<A>(v: ViewState<A>, parent: string): ViewInfo<A>
  {
    ViewInfo(v.name, parent, v.constraint, v.rank)
  }

  /** The records of a view and its descendants. */
  function ViewRecords<A>(v: ViewState<A>, parent: string): seq<Record<A>>
    decreases v, |v.children| + 1
  {
    [SubViewRecord(InfoOf(v, parent))] + ChildRecords(v, 0)
  }

  /** The records of the children from the i-th on. */
  function ChildRecords<A>(v: ViewState<A>, i: nat): seq<Record<A>>
    requires i <= |v.children|
    decreases v, |v.children| - i
  {
    if i == |v.children| then [] else ViewRecords(v.children[i], v.name) + ChildRecords(v, i + 1)
  }

  /** The same views without members, all siblings in reverse order. */
  function Mirror<A>(v: ViewState<A>): ViewState<A>
    decreases v, |v.children| + 1
  {
    NewView(v.name, v.constraint, v.rank).(children := Mirrors(v, 0))
  }

  function Mirrors<A>(v: ViewState<A>, i: nat): seq<ViewState<A>>
    requires i <= |v.children|
    decreases v, |v.children| - i
  {
    if i == |v.children| then [] else Mirrors(v, i + 1) + [Mirror(v.children[i])]
  }

  // ---------- names ----------

  /** The names in a tree, each as often as it occurs. */
  function Names<A>(v: ViewState<A>): multiset<string>
    decreases v, |v.children| + 1
  {
    multiset{v.name} + NamesFrom(v, 0)
  }

  function NamesFrom<A>(v: ViewState<A>, i: nat): multiset<string>
    requires i <= |v.children|
    decreases v, |v.children| - i
  {
    if i == |v.children| then multiset{} else Names(v.children[i]) + NamesFrom(v, i + 1)
  }

  ghost predicate DistinctNames<A>(v: ViewState<A>)
  {
    forall n :: Names(v)[n] <= 1
  }

  lemma {:induction false} PathOfIff<A>(v: ViewState<A>, n: string)
    ensures PathOf(v, n).Some? <==> n in Names(v)
    decreases v, |v.children| + 1
  {
    PathBelowIff(v, n, 0);
  }

  lemma {:induction false} PathBelowIff<A>(v: ViewState<A>, n: string, i: nat)
    requires i <= |v.children|
    ensures PathBelow(v, n, i).Some? <==> n in NamesFrom(v, i)
    decreases v, |v.children| - i
  {
    if i < |v.children| {
      PathOfIff(v.children[i], n);
      PathBelowIff(v, n, i + 1);
    }
  }

  lemma {:induction false} ChildNames<A>(v: ViewState<A>, i: nat, j: nat)
    requires i <= j < |v.children|
    ensures Names(v.children[j]) <= NamesFrom(v, i) && NamesFrom(v, j) <= NamesFrom(v, i)
    ensures i < j ==> Names(v.children[i]) + Names(v.children[j]) <= NamesFrom(v, i)
    decreases j - i
  {
    if i < j {
      ChildNames(v, i + 1, j);
    }
  }

  lemma {:induction false} NameAtPath<A>(v: ViewState<A>, path: seq<nat>)
    requires ValidPath(v, path)
    ensures At(v, path).name in Names(v)
    decreases path
  {
    if path != [] {
      NameAtPath(v.children[path[0]], path[1..]);
      ChildNames(v, 0, path[0]);
    }
  }

  /** With distinct names a view is found at its own path. */
  lemma {:induction false} PathOfAt<A>(v: ViewState<A>, path: seq<nat>)
    requires DistinctNames(v) && ValidPath(v, path)
    ensures PathOf(v, At(v, path).name) == Some(path)
    decreases path, |v.children| + 1
  {
    if path != [] {
      var j := path[0];
      ChildNames(v, 0, j);
      NameAtPath(v.children[j], path[1..]);
      assert Names(v)[At(v, path).name] <= 1;
      PathBelowAt(v, path, 0);
      assert [j] + path[1..] == path;
    }
  }

  lemma {:induction false} PathBelowAt<A>(v: ViewState<A>, path: seq<nat>, i: nat)
    requires DistinctNames(v) && ValidPath(v, path) && path != [] && i <= path[0]
    ensures PathBelow(v, At(v, path).name, i) == Some([path[0]] + path[1..])
    decreases path, path[0] - i
  {
    if i < path[0] {
      NotInEarlierChild(v, path, i);
      PathOfIff(v.children[i], At(v, path).name);
      PathBelowAt(v, path, i + 1);
    } else {
      ChildIsDistinct(v, path[0]);
      PathOfAt(v.children[path[0]], path[1..]);
    }
  }

  lemma NotInEarlierChild<A>(v: ViewState<A>, path: seq<nat>, i: nat)
    requires DistinctNames(v) && ValidPath(v, path) && path != [] && i < path[0]
    ensures At(v, path).name !in Names(v.children[i])
  {
    var j, n := path[0], At(v, path).name;
    NameAtPath(v.children[j], path[1..]);
    ChildNames(v, 0, i);
    ChildNames(v, i, j);
    assert Names(v)[n] <= 1 && NamesFrom(v, i)[n] <= 1;
  }

  lemma ChildIsDistinct<A>(v: ViewState<A>, j: nat)
    requires DistinctNames(v) && j < |v.children|
    ensures DistinctNames(v.children[j])
  {
    ChildNames(v, 0, j);
    forall m ensures Names(v.children[j])[m] <= 1 {
      assert Names(v)[m] <= 1;
    }
  }

  // ---------- a tree with one subtree replaced ----------

  function SetAt<A>(v: ViewState<A>, path: seq<nat>, w: ViewState<A>): ViewState<A>
    requires ValidPath(v, path)
  {
    if path == [] then w else v.(children := v.children[path[0] := SetAt(v.children[path[0]], path[1..], w)])
  }

  lemma {:induction false} SetAtTwice<A>(v: ViewState<A>, path: seq<nat>, w: ViewState<A>, x: ViewState<A>)
    requires ValidPath(v, path)
    ensures ValidPath(SetAt(v, path, w), path) && At(SetAt(v, path, w), path) == w
    ensures SetAt(SetAt(v, path, w), path, x) == SetAt(v, path, x)
  {
    if path != [] {
      SetAtTwice(v.children[path[0]], path[1..], w, x);
    }
  }

  lemma {:induction false} SetAtSame<A>(v: ViewState<A>, path: seq<nat>)
    requires ValidPath(v, path)
    ensures SetAt(v, path, At(v, path)) == v
  {
    if path != [] {
      SetAtSame(v.children[path[0]], path[1..]);
    }
  }

  /** Replacing the first child of the view at a path. */
  lemma {:induction false} SetFirstChild<A>(v: ViewState<A>, path: seq<nat>, x: ViewState<A>)
    requires ValidPath(v, path) && At(v, path).children != []
    ensures ValidPath(v, path + [0]) && At(v, path + [0]) == At(v, path).children[0]
    ensures SetAt(v, path + [0], x) == SetAt(v, path, At(v, path).(children := At(v, path).children[0 := x]))
  {
    if path != [] {
      assert (path + [0])[1..] == path[1..] + [0];
      SetFirstChild(v.children[path[0]], path[1..], x);
    }
  }

  /** The tree with a subtree in front of the children of the view at a path. */
  function PutAt<A>(v: ViewState<A>, path: seq<nat>, x: ViewState<A>): ViewState<A>
    requires ValidPath(v, path)
  {
    SetAt(v, path, Fronted(At(v, path), [x]))
  }

  function Fronted<A>(v: ViewState<A>, xs: seq<ViewState<A>>): ViewState<A>
  {
    v.(children := xs + v.children)
  }

  lemma {:induction false} NamesShifted<A>(v: ViewState<A>, x: ViewState<A>, i: nat)
    requires i <= |v.children|
    ensures NamesFrom(Fronted(v, [x]), i + 1) == NamesFrom(v, i)
    decreases |v.children| - i
  {
    if i < |v.children| {
      NamesShifted(v, x, i + 1);
      assert Fronted(v, [x]).children[i + 1] == v.children[i];
    }
  }

  lemma {:induction false} NamesReplaced<A>(v: ViewState<A>, j: nat, w: ViewState<A>, i: nat, n: string)
    requires i <= |v.children| && j < |v.children|
    ensures
      var u := v.(children := v.children[j := w]);
      NamesFrom(u, i)[n] + (if i <= j then Names(v.children[j])[n] else 0) ==
      NamesFrom(v, i)[n] + (if i <= j then Names(w)[n] else 0)
    decreases |v.children| - i
  {
    if i < |v.children| {
      NamesReplaced(v, j, w, i + 1, n);
      var u := v.(children := v.children[j := w]);
      assert u.children[i] == if i == j then w else v.children[i];
    }
  }

  lemma {:induction false} NamesOfPut<A>(v: ViewState<A>, path: seq<nat>, x: ViewState<A>, n: string)
    requires ValidPath(v, path)
    ensures Names(PutAt(v, path, x))[n] == Names(v)[n] + Names(x)[n]
  {
    if path == [] {
      NamesShifted(v, x, 0);
      assert Fronted(v, [x]).children[0] == x;
    } else {
      var j := path[0];
      NamesOfPut(v.children[j], path[1..], x, n);
      NamesReplaced(v, j, PutAt(v.children[j], path[1..], x), 0, n);
    }
  }

  /** After a subtree with other names is put in, names are distinct if they were. */
  lemma DistinctAfterPut<A>(v: ViewState<A>, path: seq<nat>, x: ViewState<A>, others: multiset<string>)
    requires ValidPath(v, path) && forall n :: Names(v)[n] + (Names(x) + others)[n] <= 1
    ensures forall n :: Names(PutAt(v, path, x))[n] + others[n] <= 1
  {
    forall n ensures Names(PutAt(v, path, x))[n] + others[n] <= 1 {
      NamesOfPut(v, path, x, n);
      assert Names(v)[n] + (Names(x) + others)[n] <= 1;
    }
  }

  // ---------- creating views in a collection without ads ----------

  lemma FirstIsRecorded(ms: seq<ViewMember>, index: Index)
    requires Lists(ms, index) && ms != []
    ensures Records(index, ms[0])
  {
    assert ms[0] in ms;
  }

  /** In a tree without members a new view is put in front of its siblings as it is. */
  lemma {:induction false} AttachedBare<A>(v: ViewState<A>, path: seq<nat>, child: ViewState<A>)
    requires Current(v, map[]) && ValidPath(v, path)
    ensures AttachAt(v, path, child, map[]) == Some(PutAt(v, path, child))
    decreases path
  {
    if path == [] {
      assert v.index == map[];
      if v.members != [] {
        FirstIsRecorded(v.members, v.index);
      }
    } else {
      assert Restrict(map[], v.constraint) == map[];
      AttachedBare(v.children[path[0]], path[1..], child);
    }
  }

  /** A recovery of views alone: no ads yet, and distinct names. */
  ghost predicate Bare<A(!new)>(r: Recovery<A>)
  {
    r.store.table == map[] && Sound(r.store) && DistinctNames(r.store.views)
  }

  /** One creation record, for a new name under the view at a path. */
  lemma OneView<A(!new)>(r: Recovery<A>, path: seq<nat>, v: ViewState<A>, sem: Semantics<A>)
    requires Bare(r) && ValidPath(r.store.views, path) && UniformRank(v.rank) && v.name !in Names(r.store.views)
    ensures
      var leaf := NewView(v.name, v.constraint, v.rank);
      var q := r.(store := r.store.(views := PutAt(r.store.views, path, leaf)));
      RecoverRecord(r, SubViewRecord(InfoOf(v, At(r.store.views, path).name)), sem) == Some(q) && Bare(q)
  {
    var root := r.store.views;
    var leaf := NewView(v.name, v.constraint, v.rank);
    PathOfAt(root, path);
    PathOfIff(root, v.name);
    AttachedBare(root, path, leaf);
    assert Names(leaf) == multiset{v.name};
    DistinctAfterPut(root, path, leaf, multiset{});
    CreateSubViewCurrent(root, v.name, At(root, path).name, v.constraint, v.rank, map[]);
    SameShapeAsItself(root);
    CreateFollows(r.store, r, InfoOf(v, At(root, path).name));
  }

  // ---------- the dump replays to the mirrored tree ----------

  /** The names are new and distinct. */
  ghost predicate Creatable<A(!new)>(r: Recovery<A>, names: multiset<string>)
  {
    forall n :: Names(r.store.views)[n] + names[n] <= 1
  }

  function WithViews<A>(r: Recovery<A>, views: ViewState<A>): Recovery<A>
  {
    r.(store := r.store.(views := views))
  }

  lemma {:induction false} SubtreeReplays<A(!new)>(r: Recovery<A>, path: seq<nat>, v: ViewState<A>, sem: Semantics<A>)
    requires Bare(r) && ValidPath(r.store.views, path) && UniformRanks(v) && Creatable(r, Names(v))
    ensures
      var q := WithViews(r, PutAt(r.store.views, path, Mirror(v)));
      Recover(r, ViewRecords(v, At(r.store.views, path).name), sem) == Some(q) && Bare(q)
    decreases v, |v.children| + 1
  {
    var root := r.store.views;
    var leaf := NewView(v.name, v.constraint, v.rank);
    var q := WithViews(r, PutAt(root, path, leaf));
    assert v.name in Names(v) && Names(root)[v.name] + Names(v)[v.name] <= 1;
    OneView(r, path, v, sem);
    RecoverFirst(r, SubViewRecord(InfoOf(v, At(root, path).name)), ChildRecords(v, 0), sem);
    DistinctAfterPut(root, path, leaf, NamesFrom(v, 0));
    LeafInPlace(root, path, leaf);
    ChildrenReplay(q, path + [0], v, 0, sem);
    assert Mirrors(v, 0) + [] == Mirrors(v, 0);
    assert Fronted(leaf, Mirrors(v, 0)) == Mirror(v);
    MirrorInPlace(root, path, leaf, Mirror(v));
  }

  lemma {:induction false} ChildrenReplay<A(!new)>(r: Recovery<A>, path: seq<nat>, v: ViewState<A>, i: nat, sem: Semantics<A>)
    requires i <= |v.children| && Bare(r) && ValidPath(r.store.views, path) && At(r.store.views, path).name == v.name
    requires UniformRanks(v) && Creatable(r, NamesFrom(v, i))
    ensures
      var q := WithViews(r, SetAt(r.store.views, path, Fronted(At(r.store.views, path), Mirrors(v, i))));
      Recover(r, ChildRecords(v, i), sem) == Some(q) && Bare(q)
    decreases v, |v.children| - i
  {
    var root := r.store.views;
    if i == |v.children| {
      assert Fronted(At(root, path), []) == At(root, path);
      SetAtSame(root, path);
    } else {
      var child, q := v.children[i], WithViews(r, PutAt(root, path, Mirror(v.children[i])));
      FirstCreatable(r, v, i);
      SubtreeReplays(r, path, child, sem);
      OthersCreatable(r, path, v, i);
      FrontedTwice(root, path, Mirror(child), Mirrors(v, i + 1));
      ChildrenReplay(q, path, v, i + 1, sem);
      var node := At(q.store.views, path);
      TwoReplays(r, ViewRecords(child, v.name), q, ChildRecords(v, i + 1),
                 WithViews(q, SetAt(q.store.views, path, Fronted(node, Mirrors(v, i + 1)))), sem);
    }
  }

  lemma TwoReplays<A>(r: Recovery<A>, a: seq<Record<A>>, q: Recovery<A>, b: seq<Record<A>>, p: Recovery<A>, sem: Semantics<A>)
    requires Recover(r, a, sem) == Some(q) && Recover(q, b, sem) == Some(p)
    ensures Recover(r, a + b, sem) == Some(p)
  {
    RecoverConcat(r, a, b, sem);
  }

  lemma FirstCreatable<A(!new)>(r: Recovery<A>, v: ViewState<A>, i: nat)
    requires i < |v.children| && Creatable(r, NamesFrom(v, i))
    ensures Creatable(r, Names(v.children[i]))
  {
    forall n ensures Names(r.store.views)[n] + Names(v.children[i])[n] <= 1 {
      assert Names(r.store.views)[n] + NamesFrom(v, i)[n] <= 1;
    }
  }

  lemma OthersCreatable<A(!new)>(r: Recovery<A>, path: seq<nat>, v: ViewState<A>, i: nat)
    requires i < |v.children| && Creatable(r, NamesFrom(v, i)) && ValidPath(r.store.views, path)
    ensures Creatable(WithViews(r, PutAt(r.store.views, path, Mirror(v.children[i]))), NamesFrom(v, i + 1))
  {
    MirrorNames(v.children[i]);
    DistinctAfterPut(r.store.views, path, Mirror(v.children[i]), NamesFrom(v, i + 1));
  }

  /** First one subtree in front, then others before it. */
  lemma FrontedTwice<A>(root: ViewState<A>, path: seq<nat>, first: ViewState<A>, rest: seq<ViewState<A>>)
    requires ValidPath(root, path)
    ensures
      var u := PutAt(root, path, first);
      && ValidPath(u, path) && At(u, path).name == At(root, path).name
      && SetAt(u, path, Fronted(At(u, path), rest)) == SetAt(root, path, Fronted(At(root, path), rest + [first]))
  {
    var node := At(root, path);
    SetAtTwice(root, path, Fronted(node, [first]), Fronted(Fronted(node, [first]), rest));
    assert rest + ([first] + node.children) == rest + [first] + node.children;
  }

  lemma LeafInPlace<A>(root: ViewState<A>, path: seq<nat>, leaf: ViewState<A>)
    requires ValidPath(root, path)
    ensures
      var u := PutAt(root, path, leaf);
      ValidPath(u, path + [0]) && At(u, path + [0]) == leaf
  {
    SetAtTwice(root, path, Fronted(At(root, path), [leaf]), leaf);
    SetFirstChild(PutAt(root, path, leaf), path, leaf);
  }

  lemma MirrorInPlace<A>(root: ViewState<A>, path: seq<nat>, leaf: ViewState<A>, x: ViewState<A>)
    requires ValidPath(root, path)
    ensures
      var u := PutAt(root, path, leaf);
      ValidPath(u, path + [0]) && SetAt(u, path + [0], x) == PutAt(root, path, x)
  {
    var node := At(root, path);
    SetAtTwice(root, path, Fronted(node, [leaf]), Fronted(node, [x]));
    SetFirstChild(PutAt(root, path, leaf), path, x);
    assert Fronted(node, [leaf]).(children := Fronted(node, [leaf]).children[0 := x]) == Fronted(node, [x]);
  }

  lemma {:induction false} MirrorNames<A>(v: ViewState<A>)
    ensures Names(Mirror(v)) == Names(v)
    decreases v, |v.children| + 1
  {
    MirrorsNames(v, 0);
  }

  lemma {:induction false} MirrorsNames<A>(v: ViewState<A>, i: nat)
    requires i <= |v.children|
    ensures NamesFrom(NewView(v.name, v.constraint, v.rank).(children := Mirrors(v, i)), 0) == NamesFrom(v, i)
    decreases v, |v.children| - i
  {
    if i < |v.children| {
      MirrorNames(v.children[i]);
      MirrorsNames(v, i + 1);
      NamesOfAppended(NewView(v.name, v.constraint, v.rank).(children := Mirrors(v, i + 1)), Mirror(v.children[i]), 0);
    }
  }

  lemma {:induction false} NamesOfAppended<A>(v: ViewState<A>, x: ViewState<A>, i: nat)
    requires i <= |v.children|
    ensures NamesFrom(v.(children := v.children + [x]), i) == NamesFrom(v, i) + Names(x)
    decreases |v.children| - i
  {
    var u := v.(children := v.children + [x]);
    if i < |v.children| {
      NamesOfAppended(v, x, i + 1);
      assert u.children[i] == v.children[i];
    } else {
      assert u.children[i] == x && NamesFrom(u, i + 1) == multiset{};
    }
  }

  /** Distinct names below the root view of a new collection. */
  ghost predicate Dumpable<A>(v: ViewState<A>)
  {
    DistinctNames(v) && NewView(v.name, v.constraint, v.rank) == EmptyStore().views
  }

  /** The whole dump, views and then ads: a new collection that replays it has the same table,
      and the same views with siblings in reverse order, each holding what a recomputation from
      the table gives. */
  lemma DumpRecovers<A(!new)>(s: Store<A>, keys: seq<string>, sem: Semantics<A>)
    requires Sound(s) && Dumpable(s.views)
    requires forall k :: k in keys <==> k in s.table
    ensures
      var q := Recover(EmptyRecovery(), ChildRecords(s.views, 0) + Dump(s.table, keys), sem);
      && q.Some? && q.value.store.table == s.table
      && SameShape(q.value.store.views, Mirror(s.views)) && Current(q.value.store.views, s.table)
  {
    ViewsRecover(s, sem);
    var r, q: Recovery<A> := EmptyRecovery(), WithViews(EmptyRecovery(), Mirror(s.views));
    DumpReplays(q, s.table, keys, sem);
    RecoverConcat(r, ChildRecords(s.views, 0), Dump(s.table, keys), sem);
    assert map[] + Selected(s.table, keys) == s.table;
  }

  lemma ViewsRecover<A(!new)>(s: Store<A>, sem: Semantics<A>)
    requires Sound(s) && Dumpable(s.views)
    ensures
      var q: Recovery<A> := WithViews(EmptyRecovery(), Mirror(s.views));
      Recover(EmptyRecovery(), ChildRecords(s.views, 0), sem) == Some(q) && Bare(q)
  {
    var r: Recovery<A> := EmptyRecovery();
    EmptyFollows<A>();
    assert At(r.store.views, []) == r.store.views;
    assert Names(r.store.views) == multiset{s.views.name};
    forall n ensures Names(r.store.views)[n] + NamesFrom(s.views, 0)[n] <= 1 {
      assert Names(s.views)[n] <= 1;
    }
    ChildrenReplay(r, [], s.views, 0, sem);
    assert Mirrors(s.views, 0) + [] == Mirrors(s.views, 0);
  }

  // ---------- when the order of siblings survives ----------

  /** No view has two children. */
  ghost predicate NoSiblings<A>(v: ViewState<A>)
  {
    |v.children| <= 1 && forall i :: 0 <= i < |v.children| ==> NoSiblings(v.children[i])
  }

  lemma {:induction false} MirrorsAt<A>(v: ViewState<A>, i: nat, j: nat)
    requires i <= |v.children| && j < |v.children| - i
    ensures |Mirrors(v, i)| == |v.children| - i && Mirrors(v, i)[j] == Mirror(v.children[|v.children| - 1 - j])
    decreases |v.children| - i
  {
    if i + 1 < |v.children| {
      MirrorsAt(v, i + 1, if j < |v.children| - i - 1 then j else 0);
    }
  }

  lemma MirrorChild<A>(v: ViewState<A>, j: nat)
    requires j < |v.children|
    ensures |Mirror(v).children| == |v.children|
    ensures Mirror(v).children[j] == Mirror(v.children[|v.children| - 1 - j])
  {
    MirrorsAt(v, 0, j);
  }

  lemma SiblingNames<A>(v: ViewState<A>, i: nat, j: nat)
    requires DistinctNames(v) && i < j < |v.children|
    ensures v.children[i].name != v.children[j].name
  {
    var n := v.children[i].name;
    ChildNames(v, 0, i);
    ChildNames(v, i, j);
    assert Names(v)[n] <= 1 && NamesFrom(v, 0)[n] <= 1 && NamesFrom(v, i)[n] <= 1;
    NamedItself(v.children[i]);
    NamedItself(v.children[j]);
  }

  lemma NamedItself<A>(v: ViewState<A>)
    ensures Names(v)[v.name] >= 1
  {
  }

  /** A restart from a dump gives the same tree if and only if no view has two children. */
  lemma {:induction false} SameOrderIff<A>(v: ViewState<A>)
    requires DistinctNames(v)
    ensures SameShape(Mirror(v), v) <==> NoSiblings(v)
  {
    if |v.children| == 1 {
      MirrorChild(v, 0);
      ChildIsDistinct(v, 0);
      SameOrderIff(v.children[0]);
    } else if |v.children| > 1 {
      MirrorChild(v, 0);
      SiblingNames(v, 0, |v.children| - 1);
      assert Mirror(v).children[0].name != v.children[0].name;
    }
  }

  /** A second restart puts the siblings back in order. */
  lemma {:induction false} MirroredTwice<A>(v: ViewState<A>)
    ensures SameShape(Mirror(Mirror(v)), v)
  {
    var w := Mirror(v);
    if |v.children| > 0 {
      MirrorChild(v, 0);
      MirrorChild(w, 0);
    }
    forall j | 0 <= j < |v.children| ensures SameShape(Mirror(w).children[j], v.children[j]) {
      MirrorChild(w, j);
      MirrorChild(v, |v.children| - 1 - j);
      MirroredTwice(v.children[j]);
    }
  }

  // ---------- what a live collection holds can be dumped ----------

  lemma {:induction false} ShapeNames<A>(v: ViewState<A>, w: ViewState<A>)
    requires SameShape(v, w)
    ensures Names(v) == Names(w)
    decreases v, |v.children| + 1
  {
    ShapeNamesFrom(v, w, 0);
  }

  lemma {:induction false} ShapeNamesFrom<A>(v: ViewState<A>, w: ViewState<A>, i: nat)
    requires SameShape(v, w) && i <= |v.children|
    ensures NamesFrom(v, i) == NamesFrom(w, i)
    decreases v, |v.children| - i
  {
    if i < |v.children| {
      ShapeNames(v.children[i], w.children[i]);
      ShapeNamesFrom(v, w, i + 1);
    }
  }

  lemma {:induction false} FilledShape<A>(v: ViewState<A>, ms: seq<ViewMember>, coll: Table<A>)
    requires Fill(v, ms, coll).Some?
    ensures SameShape(Fill(v, ms, coll).value, v)
    decreases |ms|
  {
    if ms == [] {
      SameShapeAsItself(v);
    } else {
      var next := Inserted(v, ms[0].key, coll[ms[0].key]);
      InsertedShape(v, ms[0].key, coll[ms[0].key]);
      FilledShape(next, ms[1..], coll);
      SameShapeTransitive(Fill(v, ms, coll).value, next, v);
    }
  }

  lemma {:induction false} AttachedNames<A>(v: ViewState<A>, path: seq<nat>, child: ViewState<A>, coll: Table<A>, n: string)
    requires ValidPath(v, path) && AttachAt(v, path, child, coll).Some?
    ensures
      var r := AttachAt(v, path, child, coll).value;
      && Names(r)[n] == Names(v)[n] + Names(child)[n]
      && NewView(r.name, r.constraint, r.rank) == NewView(v.name, v.constraint, v.rank)
    decreases path
  {
    if path == [] {
      var filled := Fill(child, v.members, coll).value;
      FilledShape(child, v.members, coll);
      ShapeNames(filled, child);
      NamesShifted(v, filled, 0);
      assert Fronted(v, [filled]).children[0] == filled;
    } else {
      var below := AttachAt(v.children[path[0]], path[1..], child, coll).value;
      AttachedNames(v.children[path[0]], path[1..], child, coll, n);
      NamesReplaced(v, path[0], below, 0, n);
    }
  }

  lemma CreatedDumpable<A(!new)>(s: Store<A>, info: ViewInfo<A>)
    requires Dumpable(s.views) && CreateIn(s, info).Created?
    ensures Dumpable(CreateIn(s, info).root)
  {
    var leaf := NewView(info.name, info.constraint, info.rank);
    var path := PathOf(s.views, info.parent).value;
    var r := CreateIn(s, info).root;
    PathOfIff(s.views, info.name);
    assert Names(leaf) == multiset{info.name};
    AttachedNames(s.views, path, leaf, s.table, info.name);
    forall n ensures Names(r)[n] <= 1 {
      AttachedNames(s.views, path, leaf, s.table, n);
      assert Names(s.views)[n] <= 1;
    }
  }

  lemma EventDumpable<A(!new)>(s: Store<A>, e: Event<A>, sem: Semantics<A>)
    requires Sound(s) && Disciplined(s, e, sem) && Dumpable(s.views)
    ensures LiveStep(s, e, sem).Some? && Dumpable(LiveStep(s, e, sem).value.store.views)
  {
    EventSound(s, e, sem);
    var after := LiveStep(s, e, sem).value.store;
    match e
    case Direct(op) =>
      if Play(s, op, sem).Some? {
        PlaySound(s, op, sem);
        ShapeNames(after.views, s.views);
      }
    case Close(name, ops) =>
      PlayAllSound(s, ops, sem);
      if Commit(s, ops, sem).Aborted? {
        FailedCommitRestores(s, ops, sem);
      }
      ShapeNames(after.views, s.views);
    case CreateView(info) =>
      if CreateIn(s, info).Created? {
        CreatedDumpable(s, info);
      }
  }

  lemma {:induction false} RunDumpable<A(!new)>(s: Store<A>, es: seq<Event<A>>, sem: Semantics<A>)
    requires Sound(s) && AllDisciplined(s, es, sem) && Dumpable(s.views)
    ensures Live(s, es, sem).Some? && Dumpable(Live(s, es, sem).value.store.views)
    decreases |es|
  {
    if es != [] {
      EventSound(s, es[0], sem);
      EventDumpable(s, es[0], sem);
      RunDumpable(LiveStep(s, es[0], sem).value.store, es[1..], sem);
    }
  }

  /** After every disciplined run of a new collection, what it dumps, its ads in any order of
      the keys, recovers its table and all its views. */
  lemma DumpAfterRun<A(!new)>(es: seq<Event<A>>, keys: seq<string>, sem: Semantics<A>)
    requires AllDisciplined(EmptyStore(), es, sem)
    ensures Live(EmptyStore(), es, sem).Some?
    ensures
      var s := Live(EmptyStore(), es, sem).value.store;
      (forall k :: k in keys <==> k in s.table) ==>
        var q := Recover(EmptyRecovery(), ChildRecords(s.views, 0) + Dump(s.table, keys), sem);
        && q.Some? && q.value.store.table == s.table
        && SameShape(q.value.store.views, Mirror(s.views)) && Current(q.value.store.views, s.table)
  {
    EmptyFollows<A>();
    assert Names(EmptyStore<A>().views) == multiset{"root"};
    RunSound(EmptyStore(), es, sem);
    RunDumpable(EmptyStore(), es, sem);
    var s := Live(EmptyStore(), es, sem).value.store;
    if forall k :: k in keys <==> k in s.table {
      DumpRecovers(s, keys, sem);
    }
  }
}
