/**
 The collection object (src/classad/collectionBase.cpp), memory cache off and with a log: the
 table, the view tree, the transactions and the log are updated step by step. A ghost history
 of events ties the object to the runs of AdLog.
 */
module Collection {
  import opened Options
  import opened ViewMembers
  import opened Views
  import opened AdStore
  import opened AdLog

  // ---------- runs, one event more ----------

  lemma LiveOne<A>(s: Store<A>, e: Event<A>, sem: Semantics<A>)
    requires LiveStep(s, e, sem).Some?
    ensures Live(s, [e], sem) == LiveStep(s, e, sem)
  {
    var o := LiveStep(s, e, sem).value;
    assert [e][1..] == [] && Live(o.store, [], sem) == Some(Outcome(o.store, []));
    assert o.records + [] == o.records;
  }

  lemma Appended<A>(a: seq<Record<A>>, b: seq<Record<A>>, c: seq<Record<A>>)
    ensures a + (b + c) == (a + b) + c
  {
  }

  /** A run is its first event and then the others. */
  lemma LiveCons<A>(s: Store<A>, e: Event<A>, es: seq<Event<A>>, sem: Semantics<A>)
    requires LiveStep(s, e, sem).Some? && Live(LiveStep(s, e, sem).value.store, es, sem).Some?
    ensures
      var first := LiveStep(s, e, sem).value;
      var rest := Live(first.store, es, sem).value;
      Live(s, [e] + es, sem) == Some(Outcome(rest.store, first.records + rest.records))
  {
    assert ([e] + es)[0] == e && ([e] + es)[1..] == es;
  }

  lemma {:induction false} LiveAppend<A>(s: Store<A>, es: seq<Event<A>>, e: Event<A>, sem: Semantics<A>)
    requires Live(s, es, sem).Some? && LiveStep(Live(s, es, sem).value.store, e, sem).Some?
    ensures
      var before := Live(s, es, sem).value;
      var o := LiveStep(before.store, e, sem).value;
      Live(s, es + [e], sem) == Some(Outcome(o.store, before.records + o.records))
    decreases |es|
  {
    if es == [] {
      LiveOne(s, e, sem);
      assert es + [e] == [e];
      assert [] + LiveStep(s, e, sem).value.records == LiveStep(s, e, sem).value.records;
    } else {
      var first := LiveStep(s, es[0], sem).value;
      LiveAppend(first.store, es[1..], e, sem);
      LiveCons(s, es[0], es[1..] + [e], sem);
      assert es + [e] == [es[0]] + (es[1..] + [e]);
      var rest := Live(first.store, es[1..], sem).value;
      Appended(first.records, rest.records, LiveStep(rest.store, e, sem).value.records);
    }
  }

  /** The log grows with the history. */
  lemma HistoryGrows<A>(origin: Store<A>, history: seq<Event<A>>, e: Event<A>, loaded: seq<Record<A>>, log: seq<Record<A>>,
                        sem: Semantics<A>)
    requires Live(origin, history, sem).Some? && log == loaded + Live(origin, history, sem).value.records
    requires LiveStep(Live(origin, history, sem).value.store, e, sem).Some?
    ensures
      var o := LiveStep(Live(origin, history, sem).value.store, e, sem).value;
      var run := Live(origin, history + [e], sem);
      run.Some? && run.value.store == o.store && log + o.records == loaded + run.value.records
  {
    var before := Live(origin, history, sem).value;
    LiveAppend(origin, history, e, sem);
    Appended(loaded, before.records, LiveStep(before.store, e, sem).value.records);
  }

  /** The view at a path holds exactly the ads that meet its own and its ancestors' constraints,
      each once, with its present rank, in order. */
  ghost predicate HoldsExactly<A>(s: Store<A>, path: seq<nat>)
    requires ValidPath(s.views, path)
  {
    var w := At(s.views, path);
    && (forall k :: k in w.index <==> k in s.table && MeetsAll(s.views, path, s.table[k]))
    && (forall k :: k in w.index ==> w.index[k] == w.rank(s.table[k]))
    && Listing(w.members, w.index)
  }

  /** After every disciplined run of a new collection, every view holds exactly what it should. */
  lemma ViewsAfterRun<A(!new)>(es: seq<Event<A>>, sem: Semantics<A>)
    requires AllDisciplined(EmptyStore(), es, sem)
    ensures Live(EmptyStore(), es, sem).Some?
    ensures
      var s := Live(EmptyStore(), es, sem).value.store;
      forall path :: ValidPath(s.views, path) ==> HoldsExactly(s, path)
  {
    EmptyFollows<A>();
    RunSound(EmptyStore(), es, sem);
    var s := Live(EmptyStore(), es, sem).value.store;
    forall path | ValidPath(s.views, path) ensures HoldsExactly(s, path) {
      HoldsMatchingAds(s.views, s.table, path);
    }
  }

  // ---------- the object ----------

  datatype XactionOutcome = XactionUnknown | XactionAborted | XactionCommitted | UndefinedBehaviour

  function OutcomeOf<A>(r: CommitResult<A>): XactionOutcome
  {
    match r
    case Committed(_) => XactionCommitted
    case Aborted(_) => XactionAborted
    case BadIterator => UndefinedBehaviour
  }

  function Prepend<A>(played: seq<Played<A>>, rest: Progress<A>): Progress<A>
  {
    Progress(rest.store, played + rest.played)
  }

  lemma PrependTwice<A>(played: seq<Played<A>>, step: Played<A>, rest: Progress<A>)
    ensures Prepend(played, Prepend([step], rest)) == Prepend(played + [step], rest)
  {
    assert played + ([step] + rest.played) == (played + [step]) + rest.played;
  }

  lemma PlayAllStep<A>(s: Store<A>, ops: seq<Operation<A>>, next: Store<A>, sem: Semantics<A>)
    requires ops != [] && Play(s, ops[0], sem) == Some(next)
    ensures PlayAll(s, ops, sem) == Prepend([Played(ops[0], Lookup(s.table, ops[0].key))], PlayAll(next, ops[1..], sem))
  {
  }

  lemma PlayAllStop<A>(played: seq<Played<A>>, s: Store<A>, ops: seq<Operation<A>>, sem: Semantics<A>)
    requires ops == [] || Play(s, ops[0], sem).None?
    ensures Prepend(played, PlayAll(s, ops, sem)) == Progress(s, played)
  {
    assert played + [] == played;
  }

  class ClassAdCollection<A(!new)> {
    const sem: Semantics<A>
    var classadTable: Table<A>
    var viewTree: ViewState<A>
    var xactionTable: Xactions<A>
    var currentXactionName: string
    var log: seq<Record<A>>

    /** What the object held and what its log was when the history begins. */
    ghost var origin: Store<A>
    ghost var loaded: seq<Record<A>>
    ghost var history: seq<Event<A>>

    ghost function Contents(): Store<A>
      reads this
    {
      Store(classadTable, viewTree)
    }

    /** The table, the views and the log are those of the history, and the current transaction
        is not one that has been committed. */
    ghost predicate Valid()
      reads this
    {
      && Matches(Live(origin, history, sem))
      && (currentXactionName != "" && currentXactionName in xactionTable ==> xactionTable[currentXactionName].Some?)
    }

    ghost predicate Matches(run: Option<Outcome<A>>)
      reads this
    {
      run.Some? && run.value.store == Contents() && log == loaded + run.value.records
    }

    constructor (sem: Semantics<A>)
      ensures Valid() && history == [] && origin == EmptyStore() && loaded == [] && xactionTable == map[]
      ensures currentXactionName == "" && this.sem == sem
    {
      this.sem := sem;
      classadTable, viewTree := map[], EmptyStore<A>().views;
      xactionTable, currentXactionName, log := map[], "", [];
      origin, loaded, history := EmptyStore(), [], [];
    }

    /** Replay the records of a log file one by one. */
    method InitializeFromLog(file: seq<Record<A>>) returns (ok: bool)
      requires currentXactionName == ""
      modifies this
      ensures ok <==> Recover(EmptyRecovery(), file, sem).Some?
      ensures ok ==>
        && Valid() && history == [] && loaded == file && currentXactionName == ""
        && Recover(EmptyRecovery(), file, sem) == Some(Recovery(Contents(), xactionTable))
    {
      classadTable, viewTree, xactionTable := map[], EmptyStore<A>().views, map[];
      var i := 0;
      while i < |file|
        invariant 0 <= i <= |file| && currentXactionName == ""
        invariant Recover(Recovery(Contents(), xactionTable), file[i..], sem) == Recover(EmptyRecovery(), file, sem)
      {
        assert file[i..][1..] == file[i + 1..];
        ok := OperateInRecoveryMode(file[i]);
        if !ok {
          return;
        }
        i := i + 1;
      }
      log, ok := file, true;
      origin, loaded, history := Contents(), file, [];
    }

    /** A crash that keeps any part of what this object logged: recovery gives the table after
        exactly the events of the history that are complete in that part. */
    lemma CrashRecovers(r: Recovery<A>, n: nat)
      requires Valid() && Recover(EmptyRecovery(), loaded, sem) == Some(r) && r.store == origin && Sound(origin)
      requires AllDisciplined(origin, history, sem) && AllClean(origin, r.xactions.Keys, history, sem)
      requires |loaded| <= n <= |log|
      ensures Yields(Recover(EmptyRecovery(), log[..n], sem),
                     Live(origin, history[..Complete(origin, history, n - |loaded|, sem)], sem))
    {
      RecoveredCollectionRecovers(loaded, r, history, n - |loaded|, sem);
      assert log[..n] == loaded + LogOf(Live(origin, history, sem))[..n - |loaded|];
    }

    method OperateInRecoveryMode(rec: Record<A>) returns (ok: bool)
      modifies this`classadTable, this`viewTree, this`xactionTable
      ensures ok <==> RecoverRecord(Recovery(old(Contents()), old(xactionTable)), rec, sem).Some?
      ensures ok ==>
        RecoverRecord(Recovery(old(Contents()), old(xactionTable)), rec, sem) == Some(Recovery(Contents(), xactionTable))
    {
      match rec {
        case OpenXaction(n) =>
          ok := n !in xactionTable;
          if ok {
            xactionTable := xactionTable[n := Some([])];
          }
        case CommitXaction(n) =>
          ok := n in xactionTable && xactionTable[n].Some?;
          if ok {
            var outcome := CommitXaction(xactionTable[n].value);
            ok := outcome.XactionCommitted?;
            xactionTable := xactionTable[n := None];
          }
        case AbortXaction(n) =>
          ok := n in xactionTable;
          xactionTable := xactionTable - {n};
        case ForgetXaction(n) =>
          ok := n in xactionTable;
          xactionTable := xactionTable - {n};
        case OpRecord(None, op) =>
          ok := PlayClassAdOp(op);
        case OpRecord(Some(n), op) =>
          ok := n in xactionTable && xactionTable[n].Some?;
          if ok {
            xactionTable := xactionTable[n := Some(xactionTable[n].value + [op])];
          }
        case SubViewRecord(info) =>
          ok := PlayViewOp(info);
      }
    }

    method PlayViewOp(info: ViewInfo<A>) returns (ok: bool)
      modifies this`viewTree
      ensures ok <==> CreateIn(old(Contents()), info).Created?
      ensures viewTree == if ok then CreateIn(old(Contents()), info).root else old(viewTree)
    {
      var r := Views.CreateSubView(viewTree, info.name, info.parent, info.constraint, info.rank, classadTable);
      ok := r.Created?;
      if ok {
        viewTree := r.root;
      }
    }

    /** One operation on the table and the views; a failure changes nothing. */
    method PlayClassAdOp(op: Operation<A>) returns (ok: bool)
      modifies this`classadTable, this`viewTree
      ensures ok <==> Play(old(Contents()), op, sem).Some?
      ensures Contents() == if ok then Play(old(Contents()), op, sem).value else old(Contents())
    {
      match op {
        case Add(k, ad) =>
          if k in classadTable {
            viewTree := Deleted(viewTree, k);
          }
          viewTree := Inserted(viewTree, k, ad);
          classadTable := classadTable[k := ad];
          return true;
        case Update(k, ad) =>
          if k !in classadTable {
            return false;
          }
          classadTable := classadTable[k := sem.updated(classadTable[k], ad)];
          viewTree := Modified(viewTree, k, classadTable[k]);
          return true;
        case Modify(k, ad) =>
          if k !in classadTable {
            return false;
          }
          classadTable := classadTable[k := sem.modified(classadTable[k], ad)];
          viewTree := Modified(viewTree, k, classadTable[k]);
          return true;
        case Remove(k) =>
          if k !in classadTable {
            return false;
          }
          classadTable := classadTable - {k};
          viewTree := Deleted(viewTree, k);
          return true;
      }
    }

    /** Play all operations, keeping backups; after a failure undo from the first one on. */
    method CommitXaction(ops: seq<Operation<A>>) returns (outcome: XactionOutcome)
      modifies this`classadTable, this`viewTree
      ensures outcome == OutcomeOf(Commit(old(Contents()), ops, sem))
      ensures !outcome.UndefinedBehaviour? ==> Contents() == Commit(old(Contents()), ops, sem).store
    {
      var played := PlayOperations(ops);
      if |played| == |ops| {
        return XactionCommitted;
      }
      outcome := UndoPlayed(played);
    }

    /** Play operations until one fails. */
    method PlayOperations(ops: seq<Operation<A>>) returns (played: seq<Played<A>>)
      modifies this`classadTable, this`viewTree
      ensures PlayAll(old(Contents()), ops, sem) == Progress(Contents(), played)
    {
      played := [];
      var i := 0;
      while i < |ops|
        invariant 0 <= i <= |ops|
        invariant PlayAll(old(Contents()), ops, sem) == Prepend(played, PlayAll(Contents(), ops[i..], sem))
      {
        var step := Played(ops[i], Lookup(classadTable, ops[i].key));
        ghost var before := Contents();
        assert ops[i..][0] == ops[i] && ops[i..][1..] == ops[i + 1..];
        var ok := PlayClassAdOp(ops[i]);
        if !ok {
          PlayAllStop(played, Contents(), ops[i..], sem);
          return;
        }
        PlayAllStep(before, ops[i..], Contents(), sem);
        PrependTwice(played, step, PlayAll(Contents(), ops[i + 1..], sem));
        played := played + [step];
        i := i + 1;
      }
      PlayAllStop(played, Contents(), ops[i..], sem);
    }

    method UndoPlayed(played: seq<Played<A>>) returns (outcome: XactionOutcome)
      modifies this`classadTable, this`viewTree
      ensures
        var r := UndoAll(old(Contents()), played);
        && (r.None? ==> outcome == UndefinedBehaviour)
        && (r.Some? ==> outcome == XactionAborted && Contents() == r.value)
    {
      var i := 0;
      while i < |played|
        invariant 0 <= i <= |played|
        invariant UndoAll(Contents(), played[i..]) == UndoAll(old(Contents()), played)
      {
        var p := played[i];
        var k := p.op.key;
        assert played[i..][0] == p && played[i..][1..] == played[i + 1..];
        if p.op.Remove? {
          if p.backup.Some? {
            viewTree := Inserted(viewTree, k, p.backup.value);
            classadTable := classadTable[k := p.backup.value];
          }
        } else if k !in classadTable {
          return UndefinedBehaviour;
        } else if p.backup.None? {
          classadTable := classadTable - {k};
          viewTree := Deleted(viewTree, k);
        } else {
          viewTree := Modified(viewTree, k, p.backup.value);
          classadTable := classadTable[k := p.backup.value];
        }
        i := i + 1;
      }
      return XactionAborted;
    }

    // ---------- the interface ----------

    /** An addition, update, modification or removal: noted in the current transaction if there
        is one, else played and logged. Removing an ad that is not there succeeds. */
    method Operate(op: Operation<A>) returns (ok: bool)
      requires Valid()
      modifies this
      ensures Valid() && origin == old(origin) && loaded == old(loaded) && currentXactionName == old(currentXactionName)
      ensures currentXactionName != "" ==>
        && (ok <==> currentXactionName in old(xactionTable))
        && Contents() == old(Contents()) && log == old(log) && history == old(history)
        && xactionTable == if ok then old(xactionTable)[currentXactionName := Some(old(xactionTable)[currentXactionName].value + [op])]
                           else old(xactionTable)
      ensures currentXactionName == "" ==>
        && (ok <==> op.Remove? || Play(old(Contents()), op, sem).Some?)
        && history == old(history) + [Direct(op)] && xactionTable == old(xactionTable)
        && Contents() == LiveStep(old(Contents()), Direct(op), sem).value.store
        && log == old(log) + LiveStep(old(Contents()), Direct(op), sem).value.records
    {
      if currentXactionName != "" {
        ok := currentXactionName in xactionTable;
        if ok {
          xactionTable := xactionTable[currentXactionName := Some(xactionTable[currentXactionName].value + [op])];
        }
        return;
      }
      HistoryGrows(origin, history, Direct(op), loaded, log, sem);
      ok := PlayClassAdOp(op);
      if ok {
        log := log + [OpRecord(None, op)];
      }
      history := history + [Direct(op)];
      ok := ok || op.Remove?;
    }

    method OpenTransaction(name: string) returns (ok: bool)
      requires Valid()
      modifies this`xactionTable, this`currentXactionName
      ensures Valid() && (ok <==> name !in old(xactionTable))
      ensures ok ==> xactionTable == old(xactionTable)[name := Some([])] && currentXactionName == name
      ensures !ok ==> xactionTable == old(xactionTable) && currentXactionName == old(currentXactionName)
    {
      if name in xactionTable {
        return false;
      }
      xactionTable := xactionTable[name := Some([])];
      currentXactionName := name;
      return true;
    }

    method SetCurrentTransaction(name: string) returns (ok: bool)
      requires Valid()
      modifies this`currentXactionName
      ensures Valid() && (ok <==> name == "" || (name in xactionTable && xactionTable[name].Some?))
      ensures currentXactionName == if ok then name else old(currentXactionName)
    {
      ok := name == "" || (name in xactionTable && xactionTable[name].Some?);
      if ok {
        currentXactionName := name;
      }
    }

    /** Abort or commit a transaction. A transaction that recovery found committed has no object,
        so committing it again is undefined. */
    method CloseTransaction(name: string, commit: bool) returns (ok: bool, outcome: XactionOutcome)
      requires Valid()
      modifies this
      ensures name !in old(xactionTable) ==> !ok && outcome.XactionUnknown? && unchanged(this)
      ensures name in old(xactionTable) && !commit ==>
        && ok && outcome.XactionAborted? && xactionTable == old(xactionTable) - {name}
        && Contents() == old(Contents()) && log == old(log) && history == old(history)
      ensures name in old(xactionTable) && commit ==>
        && (ok <==> outcome.XactionCommitted?)
        && outcome == (if old(xactionTable)[name].None? then UndefinedBehaviour
                       else OutcomeOf(Commit(old(Contents()), old(xactionTable)[name].value, sem)))
      ensures name in old(xactionTable) && commit && !outcome.UndefinedBehaviour? ==>
        && xactionTable == old(xactionTable) - {name}
        && history == old(history) + [Close(name, old(xactionTable)[name].value)]
      ensures !outcome.UndefinedBehaviour? ==> Valid() && origin == old(origin) && loaded == old(loaded)
    {
      if name !in xactionTable {
        return false, XactionUnknown;
      }
      if !commit {
        xactionTable := xactionTable - {name};
        return true, XactionAborted;
      }
      if xactionTable[name].None? {
        return false, UndefinedBehaviour;
      }
      outcome := CommitAndLog(name, xactionTable[name].value);
      ok := outcome.XactionCommitted?;
      xactionTable := xactionTable - {name};
    }

    method CommitAndLog(name: string, ops: seq<Operation<A>>) returns (outcome: XactionOutcome)
      requires Valid()
      modifies this`classadTable, this`viewTree, this`log, this`history
      ensures outcome == OutcomeOf(Commit(old(Contents()), ops, sem))
      ensures !outcome.UndefinedBehaviour? ==> Valid() && history == old(history) + [Close(name, ops)]
    {
      ghost var event := Close(name, ops);
      if LiveStep(Contents(), event, sem).Some? {
        HistoryGrows(origin, history, event, loaded, log, sem);
      }
      outcome := CommitXaction(ops);
      if outcome.XactionCommitted? {
        log := log + XactionRecords(name, ops);
      }
      history := history + [event];
    }

    /** The view is logged first and then created. */
    method CreateSubView(info: ViewInfo<A>) returns (ok: bool)
      requires Valid()
      modifies this
      ensures Valid() && origin == old(origin) && loaded == old(loaded)
      ensures history == old(history) + [CreateView(info)] && xactionTable == old(xactionTable)
      ensures currentXactionName == old(currentXactionName) && classadTable == old(classadTable)
      ensures ok <==> CreateIn(old(Contents()), info).Created?
    {
      HistoryGrows(origin, history, CreateView(info), loaded, log, sem);
      log := log + [SubViewRecord(info)];
      ok := PlayViewOp(info);
      history := history + [CreateView(info)];
    }
  }
}
