/**
 The collection's table of ads with its views, the four operations on it, and a transaction's
 commit with its undo (src/classad/collectionBase.cpp, src/classad/transaction.cpp), memory
 cache off.
 */
module AdStore {
  import opened Options
  import opened Views

  datatype Operation<+A> = Add(key: string, ad: A) | Update(key: string, ad: A) | Modify(key: string, ad: A) | Remove(key: string)

  /** What Update and Modify make of an ad and their argument. */
  datatype Semantics<!A> = Semantics(updated: (A, A) -> A, modified: (A, A) -> A)

  datatype Store<!A> = Store(table: Table<A>, views: ViewState<A>)

  /** One operation; None is a failure, which changes nothing. */
  function Play<A>(s: Store<A>, op: Operation<A>, sem: Semantics<A>): Option<Store<A>>
  {
    match op
    case Add(k, ad) =>
      var views := if k in s.table then Deleted(s.views, k) else s.views;
      Some(Store(s.table[k := ad], Inserted(views, k, ad)))
    case Update(k, ad) =>
      if k !in s.table then None else Some(Replace(s, k, sem.updated(s.table[k], ad)))
    case Modify(k, ad) =>
      if k !in s.table then None else Some(Replace(s, k, sem.modified(s.table[k], ad)))
    case Remove(k) =>
      if k !in s.table then None else Some(Erase(s, k))
  }

  function Replace<A>(s: Store<A>, k: string, ad: A): Store<A>
  {
    Store(s.table[k := ad], Modified(s.views, k, ad))
  }

  function Erase<A>(s: Store<A>, k: string): Store<A>
  {
    Store(s.table - {k}, Deleted(s.views, k))
  }

  /** The operation's effect on the table alone. */
  function PlayTable<A>(t: Table<A>, op: Operation<A>, sem: Semantics<A>): Option<Table<A>>
  {
    match op
    case Add(k, ad) => Some(t[k := ad])
    case Update(k, ad) => if k !in t then None else Some(t[k := sem.updated(t[k], ad)])
    case Modify(k, ad) => if k !in t then None else Some(t[k := sem.modified(t[k], ad)])
    case Remove(k) => if k !in t then None else Some(t - {k})
  }

  lemma PlayIsPlayTable<A>(s: Store<A>, op: Operation<A>, sem: Semantics<A>)
    ensures Play(s, op, sem).Some? <==> PlayTable(s.table, op, sem).Some?
    ensures Play(s, op, sem).Some? ==> PlayTable(s.table, op, sem) == Some(Play(s, op, sem).value.table)
  {
  }

  // ---------- views stay current ----------

  /** The views are what a recomputation from the table would give. */
  ghost predicate Sound<A(!new)>(s: Store<A>)
  {
    Current(s.views, s.table) && UniformRanks(s.views)
  }

  lemma EraseSound<A(!new)>(s: Store<A>, k: string)
    requires Sound(s)
    ensures Sound(Erase(s, k)) && SameShape(Erase(s, k).views, s.views)
  {
    RestrictRemoved(s.table, s.views.constraint, s.views.rank, k);
    DeletedCurrent(s.views, s.table, s.table - {k}, k);
    DeletedShape(s.views, k);
    ShapeKeepsUniform(Deleted(s.views, k), s.views);
  }

  lemma ReplaceSound<A(!new)>(s: Store<A>, k: string, ad: A)
    requires Sound(s) && k in s.table
    ensures Sound(Replace(s, k, ad)) && SameShape(Replace(s, k, ad).views, s.views)
  {
    UniformIsOrderly(s.views, s.table, k, ad);
    ModifiedCurrentIff(s.views, s.table, k, ad);
    ModifiedShape(s.views, k, ad);
    ShapeKeepsUniform(Modified(s.views, k, ad), s.views);
  }

  lemma InsertSound<A(!new)>(s: Store<A>, k: string, ad: A)
    requires Sound(s) && k !in s.table
    ensures var r := Store(s.table[k := ad], Inserted(s.views, k, ad)); Sound(r) && SameShape(r.views, s.views)
  {
    InsertedCurrent(s.views, s.table, k, ad);
    InsertedShape(s.views, k, ad);
    ShapeKeepsUniform(Inserted(s.views, k, ad), s.views);
  }

  lemma {:induction false} ShapeKeepsUniform<A(!new)>(v: ViewState<A>, w: ViewState<A>)
    requires SameShape(v, w) && UniformRanks(w)
    ensures UniformRanks(v)
  {
    forall i | 0 <= i < |v.children| ensures UniformRanks(v.children[i]) {
      ShapeKeepsUniform(v.children[i], w.children[i]);
    }
  }

  /** Every operation keeps every view equal to its recomputation, and the views themselves. */
  lemma PlaySound<A(!new)>(s: Store<A>, op: Operation<A>, sem: Semantics<A>)
    requires Sound(s) && Play(s, op, sem).Some?
    ensures var r := Play(s, op, sem).value; Sound(r) && SameShape(r.views, s.views)
  {
    match op
    case Add(k, ad) =>
      if k in s.table {
        EraseSound(s, k);
        InsertSound(Erase(s, k), k, ad);
        assert (s.table - {k})[k := ad] == s.table[k := ad];
        SameShapeTransitive(Play(s, op, sem).value.views, Erase(s, k).views, s.views);
      } else {
        InsertSound(s, k, ad);
      }
    case Update(k, ad) => ReplaceSound(s, k, sem.updated(s.table[k], ad));
    case Modify(k, ad) => ReplaceSound(s, k, sem.modified(s.table[k], ad));
    case Remove(k) => EraseSound(s, k);
  }

  /** Without uniform ranks an update still keeps the views current, if and only if it does not
      give another rank to an ad that shares an undefined rank with another member. */
  lemma UpdateSoundIff<A>(s: Store<A>, k: string, ad: A, sem: Semantics<A>)
    requires Current(s.views, s.table) && k in s.table
    ensures
      var r := Play(s, Update(k, ad), sem).value;
      Current(r.views, r.table) <==> Orderly(s.views, k, sem.updated(s.table[k], ad))
  {
    ModifiedCurrentIff(s.views, s.table, k, sem.updated(s.table[k], ad));
  }

  // ---------- transactions ----------

  function Lookup<A>(t: Table<A>, k: string): Option<A>
  {
    if k in t then Some(t[k]) else None
  }

  /** An operation that has been played, with the ad its key had before. */
  datatype Played<+A> = Played(op: Operation<A>, backup: Option<A>)

  datatype Progress<!A> = Progress(store: Store<A>, played: seq<Played<A>>)

  /** Play operations until one fails. */
  function PlayAll<A>(s: Store<A>, ops: seq<Operation<A>>, sem: Semantics<A>): (r: Progress<A>)
    ensures |r.played| <= |ops|
    ensures forall i :: 0 <= i < |r.played| ==> r.played[i].op == ops[i]
    decreases |ops|
  {
    if ops == [] || Play(s, ops[0], sem).None? then Progress(s, [])
    else
      var rest := PlayAll(Play(s, ops[0], sem).value, ops[1..], sem);
      Progress(rest.store, [Played(ops[0], Lookup(s.table, ops[0].key))] + rest.played)
  }

  /** Undo one played operation. None: the code follows an iterator to a table entry that is
      not there. */
  function Undo<A>(s: Store<A>, p: Played<A>): Option<Store<A>>
  {
    var k := p.op.key;
    if p.op.Remove? then
      if p.backup.None? then Some(s)
      else Some(Store(s.table[k := p.backup.value], Inserted(s.views, k, p.backup.value)))
    else if k !in s.table then None
    else if p.backup.None? then Some(Erase(s, k))
    else Some(Replace(s, k, p.backup.value))
  }

  /** The undo runs from the first operation to the last one played. */
  function UndoAll<A>(s: Store<A>, played: seq<Played<A>>): Option<Store<A>>
    decreases |played|
  {
    if played == [] then Some(s)
    else
      var r := Undo(s, played[0]);
      if r.None? then None else UndoAll(r.value, played[1..])
  }

  datatype CommitResult<!A> = Committed(store: Store<A>) | Aborted(store: Store<A>) | BadIterator

  function Commit<A>(s: Store<A>, ops: seq<Operation<A>>, sem: Semantics<A>): CommitResult<A>
  {
    var p := PlayAll(s, ops, sem);
    if |p.played| == |ops| then Committed(p.store)
    else
      var r := UndoAll(p.store, p.played);
      if r.None? then BadIterator else Aborted(r.value)
  }

  lemma {:induction false} PlayAllSound<A(!new)>(s: Store<A>, ops: seq<Operation<A>>, sem: Semantics<A>)
    requires Sound(s)
    ensures var p := PlayAll(s, ops, sem); Sound(p.store) && SameShape(p.store.views, s.views)
    decreases |ops|
  {
    if ops == [] || Play(s, ops[0], sem).None? {
      SameShapeAsItself(s.views);
    } else {
      var next := Play(s, ops[0], sem).value;
      PlaySound(s, ops[0], sem);
      PlayAllSound(next, ops[1..], sem);
      SameShapeTransitive(PlayAll(s, ops, sem).store.views, next.views, s.views);
    }
  }

  // ---------- distinct keys: a failed commit restores everything ----------

  predicate DistinctOps<A>(ops: seq<Operation<A>>)
  {
    forall i, j :: 0 <= i < j < |ops| ==> ops[i].key != ops[j].key
  }

  predicate DistinctPlayed<A>(played: seq<Played<A>>)
  {
    forall i, j :: 0 <= i < j < |played| ==> played[i].op.key != played[j].op.key
  }

  /** The table as it was before a list of operations on distinct keys. */
  function Restored<A>(t: Table<A>, played: seq<Played<A>>): Table<A>
    decreases |played|
  {
    if played == [] then t
    else Restored(SetTo(t, played[0].op.key, played[0].backup), played[1..])
  }

  function SetTo<A>(t: Table<A>, k: string, ad: Option<A>): Table<A>
  {
    if ad.None? then t - {k} else t[k := ad.value]
  }

  lemma SetToCommutes<A>(t: Table<A>, k1: string, ad1: Option<A>, k2: string, ad2: Option<A>)
    requires k1 != k2
    ensures SetTo(SetTo(t, k1, ad1), k2, ad2) == SetTo(SetTo(t, k2, ad2), k1, ad1)
  {
  }

  lemma {:induction false} RestoredCommutes<A>(t: Table<A>, k: string, ad: Option<A>, played: seq<Played<A>>)
    requires forall i :: 0 <= i < |played| ==> played[i].op.key != k
    ensures Restored(SetTo(t, k, ad), played) == SetTo(Restored(t, played), k, ad)
    decreases |played|
  {
    if played != [] {
      SetToCommutes(t, k, ad, played[0].op.key, played[0].backup);
      RestoredCommutes(SetTo(t, played[0].op.key, played[0].backup), k, ad, played[1..]);
    }
  }

  /** Playing and then restoring every touched key gives the table back. */
  lemma {:induction false} PlayAllRestored<A>(s: Store<A>, ops: seq<Operation<A>>, sem: Semantics<A>)
    requires DistinctOps(ops)
    ensures var p := PlayAll(s, ops, sem); Restored(p.store.table, p.played) == s.table
    decreases |ops|
  {
    var p := PlayAll(s, ops, sem);
    if p.played != [] {
      var next := Play(s, ops[0], sem).value;
      var k, before := ops[0].key, Lookup(s.table, ops[0].key);
      var rest := PlayAll(next, ops[1..], sem);
      PlayAllRestored(next, ops[1..], sem);
      assert p.played[1..] == rest.played;
      forall i | 0 <= i < |rest.played| ensures rest.played[i].op.key != k {
        assert rest.played[i].op == ops[i + 1];
      }
      RestoredCommutes(p.store.table, k, before, rest.played);
      PlaySetBack(s, ops[0], sem);
    }
  }

  lemma PlaySetBack<A>(s: Store<A>, op: Operation<A>, sem: Semantics<A>)
    requires Play(s, op, sem).Some?
    ensures SetTo(Play(s, op, sem).value.table, op.key, Lookup(s.table, op.key)) == s.table
  {
  }

  /** The key of a played operation is absent afterwards exactly if it was a removal. */
  predicate Undoable<A>(t: Table<A>, p: Played<A>)
  {
    (p.op.key in t <==> !p.op.Remove?) && (p.op.Remove? ==> p.backup.Some?)
  }

  lemma UndoSound<A(!new)>(s: Store<A>, p: Played<A>)
    requires Sound(s) && Undoable(s.table, p)
    ensures var r := Undo(s, p);
      r.Some? && Sound(r.value) && SameShape(r.value.views, s.views) && r.value.table == SetTo(s.table, p.op.key, p.backup)
  {
    var k := p.op.key;
    if p.op.Remove? {
      InsertSound(s, k, p.backup.value);
    } else if p.backup.None? {
      EraseSound(s, k);
    } else {
      ReplaceSound(s, k, p.backup.value);
    }
  }

  lemma {:induction false} UndoAllSound<A(!new)>(s: Store<A>, played: seq<Played<A>>)
    requires Sound(s) && DistinctPlayed(played)
    requires forall i :: 0 <= i < |played| ==> Undoable(s.table, played[i])
    ensures var r := UndoAll(s, played);
      r.Some? && Sound(r.value) && SameShape(r.value.views, s.views) && r.value.table == Restored(s.table, played)
    decreases |played|
  {
    if played == [] {
      SameShapeAsItself(s.views);
    } else {
      UndoSound(s, played[0]);
      var next := Undo(s, played[0]).value;
      forall i | 0 <= i < |played[1..]| ensures Undoable(next.table, played[1..][i]) {
        assert Undoable(s.table, played[i + 1]);
      }
      UndoAllSound(next, played[1..]);
      SameShapeTransitive(UndoAll(s, played).value.views, next.views, s.views);
    }
  }

  /** A later operation on another key does not matter to whether a key is present. */
  lemma {:induction false} PlayAllUndoable<A>(s: Store<A>, ops: seq<Operation<A>>, sem: Semantics<A>)
    requires DistinctOps(ops)
    ensures var p := PlayAll(s, ops, sem); forall i :: 0 <= i < |p.played| ==> Undoable(p.store.table, p.played[i])
    ensures var p := PlayAll(s, ops, sem); forall k :: (forall i :: 0 <= i < |ops| ==> ops[i].key != k) ==>
      (k in p.store.table <==> k in s.table)
    decreases |ops|
  {
    var p := PlayAll(s, ops, sem);
    if p.played != [] {
      var next := Play(s, ops[0], sem).value;
      PlayAllUndoable(next, ops[1..], sem);
      assert p.played[1..] == PlayAll(next, ops[1..], sem).played;
      assert Undoable(next.table, p.played[0]);
      forall i | 0 <= i < |ops[1..]| ensures ops[1..][i].key != ops[0].key {
        assert ops[0].key != ops[i + 1].key;
      }
      assert Undoable(p.store.table, p.played[0]);
      forall i | 0 <= i < |p.played| ensures Undoable(p.store.table, p.played[i]) {
        if i > 0 {
          assert p.played[i] == p.played[1..][i - 1];
        }
      }
    }
  }

  /** A commit on pairwise distinct keys never follows a bad iterator; if it fails, the table is
      as it was and every view is what a recomputation gives. */
  lemma FailedCommitRestores<A(!new)>(s: Store<A>, ops: seq<Operation<A>>, sem: Semantics<A>)
    requires Sound(s) && DistinctOps(ops)
    ensures var r := Commit(s, ops, sem);
      && !r.BadIterator? && Sound(r.store) && SameShape(r.store.views, s.views)
      && (r.Aborted? ==> r.store.table == s.table)
  {
    var p := PlayAll(s, ops, sem);
    PlayAllSound(s, ops, sem);
    PlayAllRestored(s, ops, sem);
    PlayAllUndoable(s, ops, sem);
    forall i, j | 0 <= i < j < |p.played| ensures p.played[i].op.key != p.played[j].op.key {
      assert p.played[i].op == ops[i] && p.played[j].op == ops[j];
    }
    UndoAllSound(p.store, p.played);
    if |p.played| < |ops| {
      SameShapeTransitive(UndoAll(p.store, p.played).value.views, p.store.views, s.views);
    }
  }

  /** With integer ranks the views are restored to the very same state. */
  lemma FailedCommitRestoresViews<A(!new)>(s: Store<A>, ops: seq<Operation<A>>, sem: Semantics<A>)
    requires Sound(s) && DistinctOps(ops) && DefinedRanks(s.views) && Commit(s, ops, sem).Aborted?
    ensures Commit(s, ops, sem).store == s
  {
    FailedCommitRestores(s, ops, sem);
    var r := Commit(s, ops, sem).store;
    ShapeSymmetric(r.views, s.views);
    CurrentIsUnique(s.views, r.views, s.table);
  }

  lemma {:induction false} ShapeSymmetric<A>(v: ViewState<A>, w: ViewState<A>)
    requires SameShape(v, w)
    ensures SameShape(w, v)
  {
    forall i | 0 <= i < |v.children| ensures SameShape(w.children[i], v.children[i]) {
      ShapeSymmetric(v.children[i], w.children[i]);
    }
  }

  // ---------- repeated keys: exactly when a failed commit restores the table ----------

  function History<A>(played: seq<Played<A>>, k: string): (h: seq<Played<A>>)
    ensures forall i :: 0 <= i < |h| ==> h[i].op.key == k
  {
    if played == [] then []
    else (if played[0].op.key == k then [played[0]] else []) + History(played[1..], k)
  }

  /** What the undo does to one key, given its present ad; None is the bad iterator. */
  function UndoKey<A>(present: Option<A>, h: seq<Played<A>>): Option<Option<A>>
    decreases |h|
  {
    if h == [] then Some(present)
    else if h[0].op.Remove? then UndoKey(if h[0].backup.Some? then h[0].backup else present, h[1..])
    else if present.None? then None
    else UndoKey(h[0].backup, h[1..])
  }

  /** The undo's effect on the table alone. */
  function UndoTable<A>(t: Table<A>, p: Played<A>): Option<Table<A>>
  {
    var k := p.op.key;
    if p.op.Remove? then Some(if p.backup.None? then t else t[k := p.backup.value])
    else if k !in t then None
    else Some(SetTo(t, k, p.backup))
  }

  function UndoTableAll<A>(t: Table<A>, played: seq<Played<A>>): Option<Table<A>>
    decreases |played|
  {
    if played == [] then Some(t)
    else
      var r := UndoTable(t, played[0]);
      if r.None? then None else UndoTableAll(r.value, played[1..])
  }

  lemma {:induction false} UndoAllIsUndoTableAll<A>(s: Store<A>, played: seq<Played<A>>)
    ensures UndoAll(s, played).Some? <==> UndoTableAll(s.table, played).Some?
    ensures UndoAll(s, played).Some? ==> UndoTableAll(s.table, played) == Some(UndoAll(s, played).value.table)
    decreases |played|
  {
    if played != [] && Undo(s, played[0]).Some? {
      UndoAllIsUndoTableAll(Undo(s, played[0]).value, played[1..]);
    }
  }

  /** The undo brings the key from its present ad to `after`. */
  ghost predicate KeyBecomes<A>(t: Table<A>, played: seq<Played<A>>, k: string, after: Option<A>)
  {
    UndoKey(Lookup(t, k), History(played, k)) == Some(after)
  }

  ghost predicate KeyFails<A>(t: Table<A>, played: seq<Played<A>>, k: string)
  {
    UndoKey(Lookup(t, k), History(played, k)).None?
  }

  lemma UndoOneKey<A>(t: Table<A>, played: seq<Played<A>>, k: string)
    requires played != [] && UndoTable(t, played[0]).Some?
    ensures UndoKey(Lookup(t, k), History(played, k))
         == UndoKey(Lookup(UndoTable(t, played[0]).value, k), History(played[1..], k))
  {
    var p, rest := played[0], History(played[1..], k);
    if p.op.key == k {
      UndoKeyStep(Lookup(t, k), p, rest);
    } else {
      assert [] + rest == rest;
      assert Lookup(UndoTable(t, p).value, k) == Lookup(t, k);
    }
  }

  lemma UndoKeyStep<A>(present: Option<A>, p: Played<A>, rest: seq<Played<A>>)
    requires p.op.Remove? || present.Some?
    ensures UndoKey(present, [p] + rest)
         == UndoKey(if p.op.Remove? && p.backup.None? then present else p.backup, rest)
  {
    assert ([p] + rest)[1..] == rest;
  }

  /** The undo treats every key on its own. */
  lemma {:induction false} UndoAllByKey<A>(t: Table<A>, played: seq<Played<A>>)
    ensures UndoTableAll(t, played).None? ==> exists k :: KeyFails(t, played, k)
    ensures UndoTableAll(t, played).Some? ==>
      forall k :: KeyBecomes(t, played, k, Lookup(UndoTableAll(t, played).value, k))
    decreases |played|
  {
    if played != [] {
      var p, rest := played[0], played[1..];
      if UndoTable(t, p).None? {
        assert KeyFails(t, played, p.op.key);
      } else {
        var next := UndoTable(t, p).value;
        UndoAllByKey(next, rest);
        if UndoTableAll(next, rest).None? {
          var k :| KeyFails(next, rest, k);
          UndoOneKey(t, played, k);
          assert KeyFails(t, played, k);
        } else {
          forall k ensures KeyBecomes(t, played, k, Lookup(UndoTableAll(t, played).value, k)) {
            UndoOneKey(t, played, k);
            assert KeyBecomes(next, rest, k, Lookup(UndoTableAll(next, rest).value, k));
          }
        }
      }
    }
  }

  /** No undo step of the key finds it absent, and the last one puts back the first ad. */
  ghost predicate Revertible<A>(h: seq<Played<A>>)
  {
    h == [] || (
      && h[|h| - 1].backup == h[0].backup
      && (h[0].op.Remove? || !h[|h| - 1].op.Remove?)
      && forall j :: 0 < j < |h| ==> h[j].op.Remove? || h[j - 1].backup.Some?)
  }

  ghost predicate NoGap<A>(present: Option<A>, h: seq<Played<A>>)
  {
    && (h != [] ==> h[0].op.Remove? || present.Some?)
    && forall j :: 0 < j < |h| ==> h[j].op.Remove? || h[j - 1].backup.Some?
  }

  ghost predicate RemovalsBackedUp<A>(h: seq<Played<A>>)
  {
    forall i :: 0 <= i < |h| && h[i].op.Remove? ==> h[i].backup.Some?
  }

  /** The last undo step of a key decides. */
  lemma {:induction false} UndoKeyResult<A>(present: Option<A>, h: seq<Played<A>>)
    requires RemovalsBackedUp(h)
    ensures UndoKey(present, h).Some? <==> NoGap(present, h)
    ensures UndoKey(present, h).Some? && h != [] ==> UndoKey(present, h).value == h[|h| - 1].backup
    decreases |h|
  {
    if h != [] {
      var rest := h[1..];
      UndoKeyResult(h[0].backup, rest);
      assert |rest| > 0 ==> rest[|rest| - 1] == h[|h| - 1];
      assert forall j :: 0 < j < |rest| ==> rest[j] == h[j + 1] && rest[j - 1] == h[j];
      if NoGap(h[0].backup, rest) {
        forall j | 0 < j < |h| ensures h[j].op.Remove? || h[j - 1].backup.Some? {
          assert h[j] == rest[j - 1];
          assert j > 1 ==> h[j - 1] == rest[j - 2];
        }
      }
    }
  }

  /** The played operations of one key, between its ad before and after: the first backup is the
      ad before, and the key is present afterwards exactly if the last was not a removal. */
  ghost predicate Chronicle<A>(before: Option<A>, h: seq<Played<A>>, after: Option<A>)
  {
    && RemovalsBackedUp(h)
    && (h == [] ==> after == before)
    && (h != [] ==> h[0].backup == before && (after.Some? <==> !h[|h| - 1].op.Remove?))
  }

  lemma ChronicleStep<A>(before: Option<A>, p: Played<A>, between: Option<A>, h: seq<Played<A>>, after: Option<A>)
    requires Chronicle(between, h, after) && p.backup == before
    requires between.Some? <==> !p.op.Remove?
    requires p.op.Remove? ==> before.Some?
    ensures Chronicle(before, [p] + h, after)
  {
  }

  lemma {:induction false} PlayAllHistory<A>(s: Store<A>, ops: seq<Operation<A>>, sem: Semantics<A>, k: string)
    ensures var p := PlayAll(s, ops, sem); Chronicle(Lookup(s.table, k), History(p.played, k), Lookup(p.store.table, k))
    decreases |ops|
  {
    var p := PlayAll(s, ops, sem);
    if p.played != [] {
      var next := Play(s, ops[0], sem).value;
      var rest := PlayAll(next, ops[1..], sem);
      PlayOneKey(s, ops[0], sem, k);
      PlayAllHistory(next, ops[1..], sem, k);
      assert p.played[1..] == rest.played;
      if ops[0].key == k {
        ChronicleStep(Lookup(s.table, k), p.played[0], Lookup(next.table, k), History(rest.played, k),
                      Lookup(rest.store.table, k));
      } else {
        assert [] + History(rest.played, k) == History(rest.played, k);
      }
    }
  }

  lemma PlayOneKey<A>(s: Store<A>, op: Operation<A>, sem: Semantics<A>, k: string)
    requires Play(s, op, sem).Some?
    ensures var t := Play(s, op, sem).value.table;
      if op.key == k then (k in t <==> !op.Remove?) && (op.Remove? ==> k in s.table)
      else Lookup(t, k) == Lookup(s.table, k)
  {
  }

  ghost predicate AllRevertible<A>(played: seq<Played<A>>)
  {
    forall k :: Revertible(History(played, k))
  }

  /** A failed commit leaves the table as it was if and only if the operations played before the
      failing one are revertible key by key. */
  lemma FailedCommitRestoresIff<A>(s: Store<A>, ops: seq<Operation<A>>, sem: Semantics<A>)
    requires !Commit(s, ops, sem).Committed?
    ensures var r := Commit(s, ops, sem);
      r.Aborted? && r.store.table == s.table <==> AllRevertible(PlayAll(s, ops, sem).played)
  {
    var p := PlayAll(s, ops, sem);
    UndoAllIsUndoTableAll(p.store, p.played);
    UndoTableRestoresIff(s, ops, sem);
  }

  lemma UndoTableRestoresIff<A>(s: Store<A>, ops: seq<Operation<A>>, sem: Semantics<A>)
    ensures var p := PlayAll(s, ops, sem); UndoTableAll(p.store.table, p.played) == Some(s.table) <==> AllRevertible(p.played)
  {
    var p := PlayAll(s, ops, sem);
    var t, r := p.store.table, UndoTableAll(p.store.table, p.played);
    UndoAllByKey(t, p.played);
    forall k ensures Revertible(History(p.played, k)) <==> KeyBecomes(t, p.played, k, Lookup(s.table, k)) {
      PlayAllHistory(s, ops, sem, k);
      UndoKeyResult(Lookup(t, k), History(p.played, k));
    }
    if AllRevertible(p.played) {
      forall k ensures r.Some? && Lookup(r.value, k) == Lookup(s.table, k) {
        assert Revertible(History(p.played, k));
        assert r.Some? ==> KeyBecomes(t, p.played, k, Lookup(r.value, k));
      }
      SameLookups(r.value, s.table);
    } else {
      var k :| !Revertible(History(p.played, k));
      assert r.Some? ==> KeyBecomes(t, p.played, k, Lookup(r.value, k));
    }
  }

  lemma SameLookups<A>(t: Table<A>, u: Table<A>)
    requires forall k :: Lookup(t, k) == Lookup(u, k)
    ensures t == u
  {
    forall k ensures k in t <==> k in u
             ensures k in t && k in u ==> t[k] == u[k] {
      assert Lookup(t, k) == Lookup(u, k);
    }
  }

  /** Two additions of one key and then a failing removal: the undo leaves the first addition
      in place of the original ad. */
  lemma RepeatedKeyIsNotRestored<A>(v: ViewState<A>, original: A, first: A, second: A, k: string, missing: string, sem: Semantics<A>)
    requires k != missing
    ensures
      var r := Commit(Store(map[k := original], v), [Add(k, first), Add(k, second), Remove(missing)], sem);
      r.Aborted? && r.store.table == map[k := first]
  {
    var s, ops := Store(map[k := original], v), [Add(k, first), Add(k, second), Remove(missing)];
    var p := PlayAll(s, ops, sem);
    RepeatedKeyPlayed(s, k, first, second, missing, sem);
    UndoTwoAdditions(k, second, first, second, Some(original), Some(first));
    UndoAllIsUndoTableAll(p.store, p.played);
  }

  /** Without an original ad the undo follows a bad iterator. */
  lemma RepeatedKeyBreaksUndo<A>(v: ViewState<A>, first: A, second: A, k: string, missing: string, sem: Semantics<A>)
    requires k != missing
    ensures Commit(Store(map[], v), [Add(k, first), Add(k, second), Remove(missing)], sem).BadIterator?
  {
    var s, ops := Store(map[], v), [Add(k, first), Add(k, second), Remove(missing)];
    var p := PlayAll(s, ops, sem);
    RepeatedKeyPlayed(s, k, first, second, missing, sem);
    UndoTwoAdditions(k, second, first, second, None, Some(first));
    UndoAllIsUndoTableAll(p.store, p.played);
  }

  lemma UndoTwoAdditions<A>(k: string, present: A, first: A, second: A, backup1: Option<A>, backup2: Option<A>)
    ensures UndoTableAll(map[k := present], [Played(Add(k, first), backup1), Played(Add(k, second), backup2)])
         == if backup1.None? then None else Some(SetTo(map[k := present], k, backup2))
  {
    var p, q := Played(Add(k, first), backup1), Played(Add(k, second), backup2);
    var next := SetTo(map[k := present], k, backup1);
    assert [p, q][1..] == [q] && [q][1..] == [];
    assert UndoTableAll(map[k := present], [p, q]) == UndoTableAll(next, [q]);
    if backup1.Some? {
      assert SetTo(next, k, backup2) == SetTo(map[k := present], k, backup2);
      assert UndoTableAll(SetTo(next, k, backup2), []) == Some(SetTo(next, k, backup2));
    }
  }

  lemma RepeatedKeyPlayed<A>(s: Store<A>, k: string, first: A, second: A, missing: string, sem: Semantics<A>)
    requires k != missing && missing !in s.table && s.table.Keys <= {k}
    ensures var p := PlayAll(s, [Add(k, first), Add(k, second), Remove(missing)], sem);
      && p.played == [Played(Add(k, first), Lookup(s.table, k)), Played(Add(k, second), Some(first))]
      && p.store.table == map[k := second]
  {
    var ops := [Add(k, first), Add(k, second), Remove(missing)];
    var s1 := Play(s, ops[0], sem).value;
    var s2 := Play(s1, ops[1], sem).value;
    assert ops[1..] == [Add(k, second), Remove(missing)] && ops[1..][1..] == [Remove(missing)];
    assert PlayAll(s2, [Remove(missing)], sem) == Progress(s2, []);
    assert PlayAll(s1, ops[1..], sem) == Progress(s2, [Played(Add(k, second), Some(first))]);
  }
}
