/**
 The collection's log and its replay (src/classad/collectionBase.cpp, src/classad/collection.cpp,
 src/classad/transaction.cpp), memory cache off: what a live collection writes, and what
 recovery makes of any prefix of it.
 */
module AdLog {
  import opened Options
  import opened ViewMembers
  import opened Views
  import opened AdStore

  datatype ViewInfo<!A> = ViewInfo(name: string, parent: string, constraint: A -> bool, rank: A -> Rank)

  datatype Record<!A> =
    | OpRecord(xaction: Option<string>, op: Operation<A>)
    | OpenXaction(name: string)
    | CommitXaction(name: string)
    | AbortXaction(name: string)
    | ForgetXaction(name: string)
    | SubViewRecord(info: ViewInfo<A>)

  // ---------- recovery ----------

  /** The transactions seen so far: the operations of an open one, None for a committed one. */
  type Xactions<!A> = map<string, Option<seq<Operation<A>>>>

  datatype Recovery<!A> = Recovery(store: Store<A>, xactions: Xactions<A>)

  function CreateIn<A>(s: Store<A>, info: ViewInfo<A>): CreateResult<A>
  {
    CreateSubView(s.views, info.name, info.parent, info.constraint, info.rank, s.table)
  }

  /** One log record; None is a failed recovery. Every commit, local or not, leaves its name
      behind as committed. */
  function RecoverRecord<A>(r: Recovery<A>, rec: Record<A>, sem: Semantics<A>): Option<Recovery<A>>
  {
    match rec
    case OpenXaction(n) =>
      if n in r.xactions then None else Some(r.(xactions := r.xactions[n := Some([])]))
    case CommitXaction(n) =>
      if n !in r.xactions || r.xactions[n].None? then None
      else
        var c := Commit(r.store, r.xactions[n].value, sem);
        if c.Committed? then Some(Recovery(c.store, r.xactions[n := None])) else None
    case AbortXaction(n) => if n !in r.xactions then None else Some(r.(xactions := r.xactions - {n}))
    case ForgetXaction(n) => if n !in r.xactions then None else Some(r.(xactions := r.xactions - {n}))
    case OpRecord(None, op) =>
      var s := Play(r.store, op, sem);
      if s.None? then None else Some(r.(store := s.value))
    case OpRecord(Some(n), op) =>
      if n !in r.xactions || r.xactions[n].None? then None
      else Some(r.(xactions := r.xactions[n := Some(r.xactions[n].value + [op])]))
    case SubViewRecord(info) =>
      var c := CreateIn(r.store, info);
      if c.Created? then Some(r.(store := r.store.(views := c.root))) else None
  }

  function Recover<A>(r: Recovery<A>, log: seq<Record<A>>, sem: Semantics<A>): Option<Recovery<A>>
    decreases |log|
  {
    if log == [] then Some(r)
    else
      var next := RecoverRecord(r, log[0], sem);
      if next.None? then None else Recover(next.value, log[1..], sem)
  }

  lemma {:induction false} RecoverConcat<A>(r: Recovery<A>, a: seq<Record<A>>, b: seq<Record<A>>, sem: Semantics<A>)
    ensures Recover(r, a + b, sem)
         == if Recover(r, a, sem).None? then None else Recover(Recover(r, a, sem).value, b, sem)
    decreases |a|
  {
    if a == [] {
      assert a + b == b;
    } else {
      assert (a + b)[0] == a[0] && (a + b)[1..] == a[1..] + b;
      var next := RecoverRecord(r, a[0], sem);
      if next.Some? {
        RecoverConcat(next.value, a[1..], b, sem);
      }
    }
  }

  // ---------- the live collection ----------

  datatype Event<!A> = Direct(op: Operation<A>) | Close(name: string, ops: seq<Operation<A>>) | CreateView(info: ViewInfo<A>)

  datatype Outcome<!A> = Outcome(store: Store<A>, records: seq<Record<A>>)

  function OpRecords<A>(name: string, ops: seq<Operation<A>>): (r: seq<Record<A>>)
    ensures |r| == |ops|
  {
    if ops == [] then [] else [OpRecord(Some(name), ops[0])] + OpRecords(name, ops[1..])
  }

  function XactionRecords<A>(name: string, ops: seq<Operation<A>>): seq<Record<A>>
  {
    [OpenXaction(name)] + (OpRecords(name, ops) + [CommitXaction(name)])
  }

  /** What happens to the store and what is logged. A failed operation and a failed commit log
      nothing; a view is logged before it is created. None: the undo followed a bad iterator. */
  function LiveStep<A>(s: Store<A>, e: Event<A>, sem: Semantics<A>): Option<Outcome<A>>
  {
    match e
    case Direct(op) =>
      var r := Play(s, op, sem);
      Some(if r.None? then Outcome(s, []) else Outcome(r.value, [OpRecord(None, op)]))
    case Close(name, ops) =>
      var r := Commit(s, ops, sem);
      if r.BadIterator? then None
      else Some(Outcome(r.store, if r.Committed? then XactionRecords(name, ops) else []))
    case CreateView(info) =>
      var r := CreateIn(s, info);
      Some(Outcome(if r.Created? then s.(views := r.root) else s, [SubViewRecord(info)]))
  }

  function Live<A>(s: Store<A>, es: seq<Event<A>>, sem: Semantics<A>): Option<Outcome<A>>
    decreases |es|
  {
    if es == [] then Some(Outcome(s, []))
    else
      var first := LiveStep(s, es[0], sem);
      if first.None? then None
      else
        var rest := Live(first.value.store, es[1..], sem);
        if rest.None? then None else Some(Outcome(rest.value.store, first.value.records + rest.value.records))
  }

  /** The records of a run. */
  function LogOf<A>(run: Option<Outcome<A>>): seq<Record<A>>
  {
    if run.Some? then run.value.records else []
  }

  // ---------- what the theorem asks of a run ----------

  ghost predicate UniformRank<A(!new)>(rank: A -> Rank)
  {
    (forall ad :: rank(ad).Some?) || (forall ad :: rank(ad).None?)
  }

  /** Ranks are uniform, and a commit that fails touches each key at most once. */
  ghost predicate Disciplined<A(!new)>(s: Store<A>, e: Event<A>, sem: Semantics<A>)
  {
    && (e.CreateView? ==> UniformRank(e.info.rank))
    && (e.Close? && !Commit(s, e.ops, sem).Committed? ==> DistinctOps(e.ops))
  }

  /** A committed transaction has a new name, and a view that is logged could be created. */
  ghost predicate Clean<A>(s: Store<A>, used: set<string>, e: Event<A>, sem: Semantics<A>)
  {
    && (e.Close? && Commit(s, e.ops, sem).Committed? ==> e.name !in used)
    && (e.CreateView? ==> CreateIn(s, e.info).Created?)
  }

  function Used<A>(s: Store<A>, used: set<string>, e: Event<A>, sem: Semantics<A>): set<string>
  {
    if e.Close? && Commit(s, e.ops, sem).Committed? then used + {e.name} else used
  }

  ghost predicate AllDisciplined<A(!new)>(s: Store<A>, es: seq<Event<A>>, sem: Semantics<A>)
    decreases |es|
  {
    es == [] || (
      && Disciplined(s, es[0], sem)
      && (LiveStep(s, es[0], sem).Some? ==> AllDisciplined(LiveStep(s, es[0], sem).value.store, es[1..], sem)))
  }

  ghost predicate AllClean<A>(s: Store<A>, used: set<string>, es: seq<Event<A>>, sem: Semantics<A>)
    decreases |es|
  {
    es == [] || (
      && Clean(s, used, es[0], sem)
      && (LiveStep(s, es[0], sem).Some? ==>
            AllClean(LiveStep(s, es[0], sem).value.store, Used(s, used, es[0], sem), es[1..], sem)))
  }

  /** A disciplined event does not make the undo follow a bad iterator, and keeps every view
      equal to its recomputation. */
  lemma EventSound<A(!new)>(s: Store<A>, e: Event<A>, sem: Semantics<A>)
    requires Sound(s) && Disciplined(s, e, sem)
    ensures LiveStep(s, e, sem).Some? && Sound(LiveStep(s, e, sem).value.store)
  {
    match e
    case Direct(op) =>
      if Play(s, op, sem).Some? {
        PlaySound(s, op, sem);
      }
    case Close(name, ops) =>
      if Commit(s, ops, sem).Committed? {
        PlayAllSound(s, ops, sem);
      } else {
        FailedCommitRestores(s, ops, sem);
      }
    case CreateView(info) =>
      SameShapeAsItself(s.views);
      CreateFollows(s, Recovery(s, map[]), info);
  }

  /** After every disciplined run of additions, updates, modifications, removals, transactions
      and view creations, each view is what a recomputation from the table gives. */
  lemma {:induction false} RunSound<A(!new)>(s: Store<A>, es: seq<Event<A>>, sem: Semantics<A>)
    requires Sound(s) && AllDisciplined(s, es, sem)
    ensures Live(s, es, sem).Some? && Sound(Live(s, es, sem).value.store)
    decreases |es|
  {
    if es != [] {
      EventSound(s, es[0], sem);
      RunSound(LiveStep(s, es[0], sem).value.store, es[1..], sem);
    }
  }

  // ---------- the recovered state follows the live one ----------

  ghost predicate Follows<A(!new)>(s: Store<A>, r: Recovery<A>)
  {
    && Sound(s) && Sound(r.store)
    && r.store.table == s.table && SameShape(r.store.views, s.views)
  }

  lemma {:induction false} PathOfShape<A>(v: ViewState<A>, w: ViewState<A>, name: string)
    requires SameShape(v, w)
    ensures PathOf(v, name) == PathOf(w, name)
    decreases v, |v.children| + 1
  {
    if v.name != name {
      PathBelowShape(v, w, name, 0);
    }
  }

  lemma {:induction false} PathBelowShape<A>(v: ViewState<A>, w: ViewState<A>, name: string, i: nat)
    requires SameShape(v, w) && i <= |v.children|
    ensures PathBelow(v, name, i) == PathBelow(w, name, i)
    decreases v, |v.children| - i
  {
    if i < |v.children| {
      PathOfShape(v.children[i], w.children[i], name);
      PathBelowShape(v, w, name, i + 1);
    }
  }

  lemma {:induction false} AttachShape<A(!new)>(v: ViewState<A>, w: ViewState<A>, t: Table<A>, path: seq<nat>,
                                                    child: ViewState<A>, coll: Table<A>)
    requires SameShape(v, w) && ValidPath(v, path) && ValidPath(w, path)
    requires Current(v, t) && Current(w, t) && forall k :: k in t ==> Shares(t, coll, k)
    requires child == NewView(child.name, child.constraint, child.rank)
    requires UniformRanks(v) && UniformRanks(w) && UniformRank(child.rank)
    ensures var v', w' := AttachAt(v, path, child, coll), AttachAt(w, path, child, coll);
      v'.Some? && w'.Some? && SameShape(v'.value, w'.value) && UniformRanks(v'.value) && UniformRanks(w'.value)
    decreases path
  {
    if path == [] {
      InsertSubordinateCurrent(v, t, child, coll);
      InsertSubordinateCurrent(w, t, child, coll);
      var v', w' := InsertSubordinate(v, child, coll).value, InsertSubordinate(w, child, coll).value;
      ShapeSymmetric(w'.children[0], child);
      SameShapeTransitive(v'.children[0], child, w'.children[0]);
      ShapeKeepsUniform(v'.children[0], child);
      ShapeKeepsUniform(w'.children[0], child);
      ConsShape(v, w, v'.children[0], w'.children[0]);
      ConsUniform(v, v'.children[0]);
      ConsUniform(w, w'.children[0]);
    } else {
      var below := Restrict(t, v.constraint);
      forall k | k in below ensures Shares(below, coll, k) {
        assert Shares(t, coll, k);
      }
      AttachShape(v.children[path[0]], w.children[path[0]], below, path[1..], child, coll);
    }
  }

  // automatic induction over the two trees is costly here and not needed
  lemma {:induction false} ConsShape<A>(v: ViewState<A>, w: ViewState<A>, c: ViewState<A>, d: ViewState<A>)
    requires SameShape(v, w) && SameShape(c, d)
    ensures SameShape(v.(children := [c] + v.children), w.(children := [d] + w.children))
  {
    var vs, ws := [c] + v.children, [d] + w.children;
    forall i | 0 <= i < |vs| ensures SameShape(vs[i], ws[i]) {
      assert i > 0 ==> vs[i] == v.children[i - 1] && ws[i] == w.children[i - 1];
    }
  }

  lemma ConsUniform<A(!new)>(v: ViewState<A>, c: ViewState<A>)
    requires UniformRanks(v) && UniformRanks(c)
    ensures UniformRanks(v.(children := [c] + v.children))
  {
  }

  lemma CreateFollows<A(!new)>(s: Store<A>, r: Recovery<A>, info: ViewInfo<A>)
    requires Follows(s, r) && UniformRank(info.rank)
    ensures var c, d := CreateIn(s, info), CreateIn(r.store, info);
      && (c.Created? <==> d.Created?)
      && (c.Created? ==> Follows(s.(views := c.root), r.(store := r.store.(views := d.root))))
  {
    CreateSubViewCurrent(s.views, info.name, info.parent, info.constraint, info.rank, s.table);
    CreateSubViewCurrent(r.store.views, info.name, info.parent, info.constraint, info.rank, s.table);
    PathOfShape(r.store.views, s.views, info.parent);
    PathOfShape(r.store.views, s.views, info.name);
    var path := PathOf(s.views, info.parent);
    if path.Some? && PathOf(s.views, info.name).None? {
      assert forall k :: k in s.table ==> Shares(s.table, s.table, k);
      AttachShape(r.store.views, s.views, s.table, path.value, NewView(info.name, info.constraint, info.rank), s.table);
    }
  }

  lemma {:induction false} PlayAllSameTable<A>(s: Store<A>, t: Store<A>, ops: seq<Operation<A>>, sem: Semantics<A>)
    requires s.table == t.table
    ensures PlayAll(s, ops, sem).played == PlayAll(t, ops, sem).played
    ensures PlayAll(s, ops, sem).store.table == PlayAll(t, ops, sem).store.table
    decreases |ops|
  {
    if ops != [] {
      PlayIsPlayTable(s, ops[0], sem);
      PlayIsPlayTable(t, ops[0], sem);
      if Play(s, ops[0], sem).Some? {
        PlayAllSameTable(Play(s, ops[0], sem).value, Play(t, ops[0], sem).value, ops[1..], sem);
      }
    }
  }

  lemma PlayFollows<A(!new)>(s: Store<A>, r: Recovery<A>, op: Operation<A>, sem: Semantics<A>)
    requires Follows(s, r)
    ensures var x, y := Play(s, op, sem), Play(r.store, op, sem);
      && (x.Some? <==> y.Some?)
      && (x.Some? ==> Follows(x.value, r.(store := y.value)))
  {
    PlayIsPlayTable(s, op, sem);
    PlayIsPlayTable(r.store, op, sem);
    if Play(s, op, sem).Some? {
      PlaySound(s, op, sem);
      PlaySound(r.store, op, sem);
      ShapesMeet(Play(r.store, op, sem).value.views, r.store.views, s.views, Play(s, op, sem).value.views);
    }
  }

  lemma ShapesMeet<A>(a: ViewState<A>, b: ViewState<A>, c: ViewState<A>, d: ViewState<A>)
    requires SameShape(a, b) && SameShape(b, c) && SameShape(d, c)
    ensures SameShape(a, d)
  {
    ShapeSymmetric(d, c);
    SameShapeTransitive(a, b, c);
    SameShapeTransitive(a, c, d);
  }

  lemma CommitFollows<A(!new)>(s: Store<A>, r: Recovery<A>, ops: seq<Operation<A>>, name: string, sem: Semantics<A>)
    requires Follows(s, r) && Commit(s, ops, sem).Committed?
    ensures var c := Commit(r.store, ops, sem);
      c.Committed? && Follows(Commit(s, ops, sem).store, Recovery(c.store, r.xactions[name := None]))
  {
    PlayAllSameTable(s, r.store, ops, sem);
    PlayAllSound(s, ops, sem);
    PlayAllSound(r.store, ops, sem);
    ShapesMeet(PlayAll(r.store, ops, sem).store.views, r.store.views, s.views, PlayAll(s, ops, sem).store.views);
  }

  // ---------- the records of one event ----------

  lemma RecoverSingle<A>(r: Recovery<A>, rec: Record<A>, sem: Semantics<A>)
    ensures Recover(r, [rec], sem) == RecoverRecord(r, rec, sem)
  {
    assert [rec][1..] == [];
  }

  lemma RecoverFirst<A>(r: Recovery<A>, rec: Record<A>, rest: seq<Record<A>>, sem: Semantics<A>)
    ensures Recover(r, [rec] + rest, sem)
         == if RecoverRecord(r, rec, sem).None? then None else Recover(RecoverRecord(r, rec, sem).value, rest, sem)
  {
    assert ([rec] + rest)[1..] == rest;
  }

  /** The state with more operations noted for an open transaction. */
  function Noted<A>(r: Recovery<A>, name: string, ops: seq<Operation<A>>): Recovery<A>
    requires name in r.xactions && r.xactions[name].Some?
  {
    r.(xactions := r.xactions[name := Some(r.xactions[name].value + ops)])
  }

  lemma NotedTwice<A>(r: Recovery<A>, name: string, first: seq<Operation<A>>, second: seq<Operation<A>>)
    requires name in r.xactions && r.xactions[name].Some?
    ensures Noted(Noted(r, name, first), name, second) == Noted(r, name, first + second)
  {
    assert (r.xactions[name].value + first) + second == r.xactions[name].value + (first + second);
  }

  /** The operations of a transaction are only noted. */
  lemma {:induction false} RecoverOps<A>(r: Recovery<A>, name: string, ops: seq<Operation<A>>, sem: Semantics<A>)
    requires name in r.xactions && r.xactions[name].Some?
    ensures Recover(r, OpRecords(name, ops), sem) == Some(Noted(r, name, ops))
    decreases |ops|
  {
    if ops == [] {
      assert r.xactions[name].value + ops == r.xactions[name].value;
      assert r.xactions[name := r.xactions[name]] == r.xactions;
    } else {
      RecoverFirst(r, OpRecord(Some(name), ops[0]), OpRecords(name, ops[1..]), sem);
      RecoverOps(Noted(r, name, [ops[0]]), name, ops[1..], sem);
      NotedTwice(r, name, [ops[0]], ops[1..]);
      assert [ops[0]] + ops[1..] == ops;
    }
  }

  lemma {:induction false} OpRecordsPrefix<A>(name: string, ops: seq<Operation<A>>, n: nat)
    requires n <= |ops|
    ensures OpRecords(name, ops)[..n] == OpRecords(name, ops[..n])
  {
    if n > 0 {
      OpRecordsPrefix(name, ops[1..], n - 1);
      assert ops[..n][1..] == ops[1..][..n - 1];
    }
  }

  /** Replaying a transaction commits it, if its name is new. */
  lemma RecoverXaction<A>(r: Recovery<A>, name: string, ops: seq<Operation<A>>, sem: Semantics<A>)
    ensures
      var c := Commit(r.store, ops, sem);
      Recover(r, XactionRecords(name, ops), sem)
        == if name in r.xactions || !c.Committed? then None else Some(Recovery(c.store, r.xactions[name := None]))
  {
    RecoverFirst(r, OpenXaction(name), OpRecords(name, ops) + [CommitXaction(name)], sem);
    if name !in r.xactions {
      var started := RecoverRecord(r, OpenXaction(name), sem).value;
      RecoverConcat(started, OpRecords(name, ops), [CommitXaction(name)], sem);
      RecoverOps(started, name, ops, sem);
      assert [] + ops == ops;
      var filled := Recover(started, OpRecords(name, ops), sem).value;
      RecoverSingle(filled, CommitXaction(name), sem);
      assert filled.xactions[name := None] == r.xactions[name := None];
    }
  }

  /** Part of a transaction changes nothing. */
  lemma RecoverPartOfXaction<A>(r: Recovery<A>, name: string, ops: seq<Operation<A>>, n: nat, sem: Semantics<A>)
    requires name !in r.xactions && n < |XactionRecords(name, ops)|
    ensures var q := Recover(r, XactionRecords(name, ops)[..n], sem); q.Some? && q.value.store == r.store
  {
    if n > 0 {
      var started := RecoverRecord(r, OpenXaction(name), sem).value;
      assert XactionRecords(name, ops)[..n] == [OpenXaction(name)] + OpRecords(name, ops)[..n - 1];
      RecoverFirst(r, OpenXaction(name), OpRecords(name, ops)[..n - 1], sem);
      OpRecordsPrefix(name, ops, n - 1);
      RecoverOps(started, name, ops[..n - 1], sem);
    }
  }

  /** The records of an event are replayed if and only if it is clean, and then the recovered
      state follows the live one again. */
  lemma EventRecovers<A(!new)>(s: Store<A>, r: Recovery<A>, e: Event<A>, sem: Semantics<A>)
    requires Follows(s, r) && Disciplined(s, e, sem)
    ensures LiveStep(s, e, sem).Some?
    ensures
      var o := LiveStep(s, e, sem).value;
      var q := Recover(r, o.records, sem);
      && (q.Some? <==> Clean(s, r.xactions.Keys, e, sem))
      && (q.Some? ==> Follows(o.store, q.value) && q.value.xactions.Keys == Used(s, r.xactions.Keys, e, sem))
  {
    EventSound(s, e, sem);
    match e
    case Direct(op) =>
      PlayFollows(s, r, op, sem);
      RecoverSingle(r, OpRecord(None, op), sem);
    case Close(name, ops) =>
      RecoverXaction(r, name, ops, sem);
      if Commit(s, ops, sem).Committed? {
        CommitFollows(s, r, ops, name, sem);
      } else {
        FailedCommitRestores(s, ops, sem);
        var after := Commit(s, ops, sem).store.views;
        ShapeSymmetric(after, s.views);
        SameShapeTransitive(r.store.views, s.views, after);
      }
    case CreateView(info) =>
      CreateFollows(s, r, info);
      RecoverSingle(r, SubViewRecord(info), sem);
  }

  lemma PartOfEventRecovers<A(!new)>(s: Store<A>, r: Recovery<A>, e: Event<A>, n: nat, sem: Semantics<A>)
    requires Follows(s, r) && LiveStep(s, e, sem).Some? && Clean(s, r.xactions.Keys, e, sem)
    requires n < |LiveStep(s, e, sem).value.records|
    ensures var q := Recover(r, LiveStep(s, e, sem).value.records[..n], sem); q.Some? && q.value.store == r.store
  {
    match e
    case Direct(op) =>
    case Close(name, ops) => RecoverPartOfXaction(r, name, ops, n, sem);
    case CreateView(info) =>
  }

  // ---------- the main results ----------

  /** How many of the events have all their records among the first n. */
  function Complete<A>(s: Store<A>, es: seq<Event<A>>, n: nat, sem: Semantics<A>): (m: nat)
    ensures m <= |es|
    decreases |es|
  {
    if es == [] || LiveStep(s, es[0], sem).None? || |LiveStep(s, es[0], sem).value.records| > n then 0
    else
      var o := LiveStep(s, es[0], sem).value;
      1 + Complete(o.store, es[1..], n - |o.records|, sem)
  }

  lemma LiveFirst<A>(s: Store<A>, es: seq<Event<A>>, m: nat, sem: Semantics<A>)
    requires es != [] && 0 < m <= |es| && LiveStep(s, es[0], sem).Some?
    ensures
      var first := LiveStep(s, es[0], sem).value;
      var rest := Live(first.store, es[1..][..m - 1], sem);
      Live(s, es[..m], sem)
        == if rest.None? then None else Some(Outcome(rest.value.store, first.records + rest.value.records))
  {
    assert es[..m][0] == es[0] && es[..m][1..] == es[1..][..m - 1];
  }

  /** The first `m` events fit in `n` records; one more event does not. */
  ghost predicate LastFitting<A>(s: Store<A>, es: seq<Event<A>>, n: nat, m: nat, sem: Semantics<A>)
  {
    && m <= |es|
    && Live(s, es[..m], sem).Some? && |Live(s, es[..m], sem).value.records| <= n
    && (m < |es| ==> Live(s, es[..m + 1], sem).Some? && |Live(s, es[..m + 1], sem).value.records| > n)
  }

  lemma NoneFits<A>(s: Store<A>, es: seq<Event<A>>, n: nat, sem: Semantics<A>)
    requires es != [] && LiveStep(s, es[0], sem).Some? && |LiveStep(s, es[0], sem).value.records| > n
    ensures LastFitting(s, es, n, 0, sem)
  {
    LiveFirst(s, es, 1, sem);
    assert es[..0] == [] && es[1..][..0] == [];
  }

  lemma OneMoreFits<A>(s: Store<A>, es: seq<Event<A>>, n: nat, m: nat, sem: Semantics<A>)
    requires es != [] && LiveStep(s, es[0], sem).Some? && |LiveStep(s, es[0], sem).value.records| <= n
    requires var o := LiveStep(s, es[0], sem).value; LastFitting(o.store, es[1..], n - |o.records|, m, sem)
    ensures LastFitting(s, es, n, m + 1, sem)
  {
    LiveFirst(s, es, m + 1, sem);
    if m + 1 < |es| {
      LiveFirst(s, es, m + 2, sem);
    }
  }

  /** Complete is what it says. */
  lemma {:induction false} CompleteIsLast<A>(s: Store<A>, es: seq<Event<A>>, n: nat, sem: Semantics<A>)
    requires Live(s, es, sem).Some?
    ensures LastFitting(s, es, n, Complete(s, es, n, sem), sem)
    decreases |es|
  {
    if es == [] {
      assert es[..0] == [];
    } else if |LiveStep(s, es[0], sem).value.records| > n {
      NoneFits(s, es, n, sem);
    } else {
      var o := LiveStep(s, es[0], sem).value;
      var m := Complete(o.store, es[1..], n - |o.records|, sem);
      CompleteIsLast(o.store, es[1..], n - |o.records|, sem);
      OneMoreFits(s, es, n, m, sem);
      assert Complete(s, es, n, sem) == m + 1;
    }
  }

  /** Replaying any prefix of the log of a clean run succeeds and yields the table after exactly
      the operations and transactions whose last record is in the prefix, with every view
      recomputed from it. */
  lemma {:induction false} PrefixRecovers<A(!new)>(s: Store<A>, r: Recovery<A>, es: seq<Event<A>>, n: nat, sem: Semantics<A>)
    requires Follows(s, r) && n <= |LogOf(Live(s, es, sem))|
    requires AllDisciplined(s, es, sem) && AllClean(s, r.xactions.Keys, es, sem)
    ensures Yields(Recover(r, LogOf(Live(s, es, sem))[..n], sem), Live(s, es[..Complete(s, es, n, sem)], sem))
    decreases |es|
  {
    RunSound(s, es, sem);
    if es == [] || n < |LiveStep(s, es[0], sem).value.records| {
      PrefixInFirst(s, r, es, n, sem);
    } else {
      var o := LiveStep(s, es[0], sem).value;
      EventRecovers(s, r, es[0], sem);
      PrefixRecovers(o.store, Recover(r, o.records, sem).value, es[1..], n - |o.records|, sem);
      ReplaySplits(s, r, es, n, sem);
      LiveSplits(s, es, n, sem);
    }
  }

  lemma PrefixInFirst<A(!new)>(s: Store<A>, r: Recovery<A>, es: seq<Event<A>>, n: nat, sem: Semantics<A>)
    requires Follows(s, r) && Live(s, es, sem).Some? && n <= |Live(s, es, sem).value.records|
    requires es != [] ==> n < |LiveStep(s, es[0], sem).value.records| && Clean(s, r.xactions.Keys, es[0], sem)
    ensures Yields(Recover(r, Live(s, es, sem).value.records[..n], sem), Live(s, es[..Complete(s, es, n, sem)], sem))
  {
    assert es[..0] == [];
    if es != [] {
      assert Live(s, es, sem).value.records[..n] == LiveStep(s, es[0], sem).value.records[..n];
      PartOfEventRecovers(s, r, es[0], n, sem);
    }
  }

  /** A prefix that covers the first event is that event's records and a prefix of the rest. */
  lemma ReplaySplits<A>(s: Store<A>, r: Recovery<A>, es: seq<Event<A>>, n: nat, sem: Semantics<A>)
    requires es != [] && Live(s, es, sem).Some? && n <= |Live(s, es, sem).value.records|
    requires var o := LiveStep(s, es[0], sem).value.records; |o| <= n && Recover(r, o, sem).Some?
    ensures
      var o := LiveStep(s, es[0], sem).value;
      Recover(r, Live(s, es, sem).value.records[..n], sem)
        == Recover(Recover(r, o.records, sem).value, Live(o.store, es[1..], sem).value.records[..n - |o.records|], sem)
  {
    var o := LiveStep(s, es[0], sem).value;
    var rest := Live(o.store, es[1..], sem).value.records;
    assert Live(s, es, sem).value.records[..n] == o.records + rest[..n - |o.records|];
    RecoverConcat(r, o.records, rest[..n - |o.records|], sem);
  }

  lemma LiveSplits<A>(s: Store<A>, es: seq<Event<A>>, n: nat, sem: Semantics<A>)
    requires es != [] && LiveStep(s, es[0], sem).Some? && |LiveStep(s, es[0], sem).value.records| <= n
    ensures
      var o := LiveStep(s, es[0], sem).value;
      SameStore(Live(s, es[..Complete(s, es, n, sem)], sem),
                Live(o.store, es[1..][..Complete(o.store, es[1..], n - |o.records|, sem)], sem))
  {
    LiveFirst(s, es, Complete(s, es, n, sem), sem);
  }

  ghost predicate SameStore<A>(x: Option<Outcome<A>>, y: Option<Outcome<A>>)
  {
    (x.Some? <==> y.Some?) && (x.Some? ==> x.value.store == y.value.store)
  }

  /** The recovered collection has the live table and current views. */
  ghost predicate Yields<A(!new)>(q: Option<Recovery<A>>, live: Option<Outcome<A>>)
  {
    q.Some? && live.Some? && Sound(q.value.store) && q.value.store.table == live.value.store.table
  }

  /** The whole log is replayed without a failure if and only if no committed transaction reuses
      a name and every logged view could be created. */
  lemma {:induction false} RecoversIff<A(!new)>(s: Store<A>, r: Recovery<A>, es: seq<Event<A>>, sem: Semantics<A>)
    requires Follows(s, r) && AllDisciplined(s, es, sem)
    ensures Live(s, es, sem).Some?
    ensures Recover(r, Live(s, es, sem).value.records, sem).Some? <==> AllClean(s, r.xactions.Keys, es, sem)
    decreases |es|
  {
    RunSound(s, es, sem);
    if es != [] {
      var o := LiveStep(s, es[0], sem).value;
      var rest := Live(o.store, es[1..], sem).value;
      EventRecovers(s, r, es[0], sem);
      RecoverConcat(r, o.records, rest.records, sem);
      if Recover(r, o.records, sem).Some? {
        RecoversIff(o.store, Recover(r, o.records, sem).value, es[1..], sem);
      }
    }
  }

  // ---------- a new collection, a reused name, a dumped state ----------

  /** The root view accepts every ad and ranks none. */
  function EmptyStore<A>(): Store<A>
  {
    Store(map[], NewView("root", (ad: A) => true, (ad: A) => None))
  }

  function EmptyRecovery<A>(): Recovery<A>
  {
    Recovery(EmptyStore(), map[])
  }

  lemma EmptyFollows<A(!new)>()
    ensures Follows<A>(EmptyStore(), EmptyRecovery())
  {
    SameShapeAsItself(EmptyStore<A>().views);
  }

  /** The log of a new collection: every prefix recovers the live table. */
  lemma NewCollectionRecovers<A(!new)>(es: seq<Event<A>>, n: nat, sem: Semantics<A>)
    requires n <= |LogOf(Live(EmptyStore(), es, sem))|
    requires AllDisciplined(EmptyStore(), es, sem) && AllClean(EmptyStore(), {}, es, sem)
    ensures Yields(Recover(EmptyRecovery(), LogOf(Live(EmptyStore(), es, sem))[..n], sem),
                   Live(EmptyStore(), es[..Complete(EmptyStore(), es, n, sem)], sem))
  {
    EmptyFollows<A>();
    assert EmptyRecovery<A>().xactions.Keys == {};
    PrefixRecovers(EmptyStore(), EmptyRecovery(), es, n, sem);
  }

  /** A collection that was recovered from any log file, one torn inside a transaction included,
      and went on: every prefix of what it appends recovers again, to the table after exactly the
      later events that are complete in the prefix. So a collection may crash and be recovered
      any number of times. */
  lemma RecoveredCollectionRecovers<A(!new)>(file: seq<Record<A>>, r: Recovery<A>, es: seq<Event<A>>, n: nat,
                                             sem: Semantics<A>)
    requires Recover(EmptyRecovery(), file, sem) == Some(r) && Sound(r.store)
    requires n <= |LogOf(Live(r.store, es, sem))|
    requires AllDisciplined(r.store, es, sem) && AllClean(r.store, r.xactions.Keys, es, sem)
    ensures Yields(Recover(EmptyRecovery(), file + LogOf(Live(r.store, es, sem))[..n], sem),
                   Live(r.store, es[..Complete(r.store, es, n, sem)], sem))
  {
    SameShapeAsItself(r.store.views);
    PrefixRecovers(r.store, r, es, n, sem);
    RecoverConcat(EmptyRecovery(), file, LogOf(Live(r.store, es, sem))[..n], sem);
  }

  /** Committing two transactions of the same name, even empty ones, makes the log unreadable. */
  lemma ReusedNameFailsRecovery<A(!new)>(name: string, sem: Semantics<A>)
    ensures
      var o := Live(EmptyStore(), [Close(name, []), Close(name, [])], sem);
      o.Some? && Recover(EmptyRecovery(), o.value.records, sem).None?
  {
    var s: Store<A>, e: Event<A> := EmptyStore(), Close(name, []);
    assert PlayAll(s, [], sem) == Progress(s, []);
    assert Commit(s, [], sem) == Committed(s);
    assert LiveStep(s, e, sem).Some? && LiveStep(s, e, sem).value.store == s;
    assert [e, e][1..] == [e] && [e][1..] == [];
    assert Live(s, [], sem).Some? && Live(s, [e], sem).Some?;
    assert Live(s, [e, e], sem).Some?;
    assert AllDisciplined(s, [e], sem) && AllDisciplined(s, [e, e], sem);
    assert EmptyRecovery<A>().xactions.Keys == {} && {} + {name} == {name};
    assert !AllClean(s, {name}, [e], sem);
    EmptyFollows<A>();
    RecoversIff(s, EmptyRecovery(), [e, e], sem);
  }

  /** A dump of the table: one addition for every key, in some order. */
  function Dump<A>(table: Table<A>, keys: seq<string>): seq<Record<A>>
    requires forall k :: k in keys ==> k in table
  {
    if keys == [] then []
    else [OpRecord(None, Add(keys[0], table[keys[0]]))] + Dump(table, keys[1..])
  }

  function Selected<A>(table: Table<A>, keys: seq<string>): Table<A>
    requires forall k :: k in keys ==> k in table
  {
    map k | k in keys :: table[k]
  }

  /** Replaying a dump adds the dumped ads to what was there and keeps the views current. */
  lemma {:induction false} DumpReplays<A(!new)>(r: Recovery<A>, table: Table<A>, keys: seq<string>, sem: Semantics<A>)
    requires Sound(r.store) && forall k :: k in keys ==> k in table
    ensures var q := Recover(r, Dump(table, keys), sem);
      && q.Some? && Sound(q.value.store) && SameShape(q.value.store.views, r.store.views)
      && q.value.store.table == r.store.table + Selected(table, keys)
    decreases |keys|
  {
    if keys == [] {
      SameShapeAsItself(r.store.views);
    } else {
      var op := Add(keys[0], table[keys[0]]);
      var next := r.(store := Play(r.store, op, sem).value);
      PlaySound(r.store, op, sem);
      DumpReplays(next, table, keys[1..], sem);
      SelectedFirst(r.store.table, table, keys);
      RecoverFirst(r, OpRecord(None, op), Dump(table, keys[1..]), sem);
      SameShapeTransitive(Recover(r, Dump(table, keys), sem).value.store.views, next.store.views, r.store.views);
    }
  }

  lemma SelectedFirst<A>(t: Table<A>, table: Table<A>, keys: seq<string>)
    requires keys != [] && forall k :: k in keys ==> k in table
    ensures t[keys[0] := table[keys[0]]] + Selected(table, keys[1..]) == t + Selected(table, keys)
  {
  }

  /** A state that was dumped key by key is recovered whole. */
  lemma DumpRecoversTable<A(!new)>(s: Store<A>, keys: seq<string>, sem: Semantics<A>)
    requires forall k :: k in keys <==> k in s.table
    ensures var q := Recover(EmptyRecovery(), Dump(s.table, keys), sem);
      q.Some? && Sound(q.value.store) && q.value.store.table == s.table
  {
    EmptyFollows<A>();
    DumpReplays(EmptyRecovery(), s.table, keys, sem);
    assert map[] + Selected(s.table, keys) == s.table;
  }
}
