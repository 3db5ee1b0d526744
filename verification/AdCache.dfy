/**
 The memory cache of the collection (src/classad/collectionBase.cpp): at most `limit` ads in the
 table, the others in the storage file. `Cache` says what each direct operation does to the
 table, the dirty keys, the count and the stored ads; any ad of the table may be the victim that
 makes room.
 */
module AdCache {
  import opened Options

  datatype Cache<A> = Cache(table: map<string, A>, dirty: set<string>, count: int, stored: map<string, A>)

  function At<A>(m: map<string, A>, k: string): Option<A>
  {
    if k in m then Some(m[k]) else None
  }

  /** What a user of the collection sees under a key: the table comes before the stored ads. */
  function Look<A>(c: Cache<A>, k: string): Option<A>
  {
    if k in c.table then Some(c.table[k]) else At(c.stored, k)
  }

  /** The visible content is that of a plain map. */
  ghost predicate Shows<A(!new)>(c: Cache<A>, m: map<string, A>)
  {
    forall k :: Look(c, k) == At(m, k)
  }

  /** Every cached ad that is not dirty has an identical stored copy. */
  ghost predicate Clean<A>(c: Cache<A>)
  {
    forall k :: k in c.table && k !in c.dirty ==> k in c.stored && c.stored[k] == c.table[k]
  }

  /** The count is the size of the table, which is within the limit. */
  predicate Counted<A>(c: Cache<A>, limit: nat)
  {
    c.count == |c.table| <= limit
  }

  lemma SizeWithout<A>(m: map<string, A>, k: string)
    requires k in m
    ensures |m - {k}| == |m| - 1
  {
    assert m.Keys == (m - {k}).Keys + {k};
    assert |m.Keys| == |(m - {k}).Keys| + 1;
  }

  lemma SizeWith<A>(m: map<string, A>, k: string, a: A)
    ensures |m[k := a]| == if k in m then |m| else |m| + 1
  {
    assert m[k := a].Keys == m.Keys + {k};
    assert |m[k := a].Keys| == |m.Keys + {k}|;
  }

  // ---------- making room ----------

  predicate CanEvict<A>(c: Cache<A>, limit: nat, victim: string)
  {
    c.count == limit ==> victim in c.table
  }

  /** A dirty ad is written back to the storage file. */
  function WriteBack<A>(c: Cache<A>, key: string): Cache<A>
    requires key in c.table
  {
    if key in c.dirty then c.(stored := c.stored[key := c.table[key]], dirty := c.dirty - {key}) else c
  }

  function Drop<A>(c: Cache<A>, key: string): Cache<A>
  {
    c.(table := c.table - {key}, count := c.count - 1)
  }

  /** MaybeSwapOutClassAd, and the first half of SwitchInClassAd: a full cache writes its victim
      back if that is dirty, and drops it. */
  function MakeRoom<A>(c: Cache<A>, limit: nat, victim: string): Cache<A>
    requires CanEvict(c, limit, victim)
  {
    if c.count == limit then Drop(WriteBack(c, victim), victim) else c
  }

  lemma WrittenBack<A(!new)>(c: Cache<A>, key: string)
    requires Clean(c) && key in c.table
    ensures
      var r := WriteBack(c, key);
      && Clean(r) && r.table == c.table && r.count == c.count
      && At(r.stored, key) == Some(c.table[key])
      && (forall k :: k !in c.table ==> At(r.stored, k) == At(c.stored, k))
      && (forall k :: Look(r, k) == Look(c, k))
  {
  }

  lemma DroppedClean<A(!new)>(c: Cache<A>, key: string)
    requires Clean(c) && key in c.table && At(c.stored, key) == Some(c.table[key])
    ensures
      var r := Drop(c, key);
      && Clean(r) && r.stored == c.stored && r.count - |r.table| == c.count - |c.table|
      && (forall k :: Look(r, k) == Look(c, k))
  {
    SizeWithout(c.table, key);
  }

  /** Making room is not seen. */
  lemma RoomMade<A(!new)>(c: Cache<A>, limit: nat, victim: string)
    requires Clean(c) && CanEvict(c, limit, victim)
    ensures
      var r := MakeRoom(c, limit, victim);
      && Clean(r) && r.table.Keys <= c.table.Keys && r.count - |r.table| == c.count - |c.table|
      && (c.count <= limit ==> r.count < limit)
      && (forall k :: k !in c.table ==> At(r.stored, k) == At(c.stored, k))
      && (forall k :: Look(r, k) == Look(c, k))
  {
    if c.count == limit {
      WrittenBack(c, victim);
      DroppedClean(WriteBack(c, victim), victim);
    }
  }

  // ---------- the operations ----------

  /** A stored ad comes into the table. */
  function Loaded<A>(c: Cache<A>, key: string): Cache<A>
    requires key in c.stored
  {
    c.(table := c.table[key := c.stored[key]], count := c.count + 1)
  }

  /** The ad of a visible key in the table: SwitchInClassAd brings a stored one there, clean; its
      error for a missing line never occurs. */
  function SwitchIn<A>(c: Cache<A>, limit: nat, victim: string, key: string): Cache<A>
    requires CanEvict(c, limit, victim) && Look(c, key).Some?
  {
    if key in c.table then c
    else
      var r := MakeRoom(c, limit, victim);
      if key !in r.stored then r else Loaded(r, key)
  }

  lemma SwitchedIn<A(!new)>(c: Cache<A>, limit: nat, victim: string, key: string)
    requires Clean(c) && Counted(c, limit) && CanEvict(c, limit, victim) && Look(c, key).Some?
    ensures
      var r := SwitchIn(c, limit, victim, key);
      && Clean(r) && Counted(r, limit) && key in r.table && r.table[key] == Look(c, key).value
      && (forall k :: Look(r, k) == Look(c, k))
  {
    if key !in c.table {
      RoomMade(c, limit, victim);
      var room := MakeRoom(c, limit, victim);
      assert At(room.stored, key) == At(c.stored, key);
      SizeWith(room.table, key, c.stored[key]);
    }
  }

  /** An ad of the table is changed in place and marked dirty. */
  function Change<A>(c: Cache<A>, key: string, ad: A): Cache<A>
  {
    c.(table := c.table[key := ad], dirty := c.dirty + {key})
  }

  lemma WasChanged<A(!new)>(c: Cache<A>, limit: nat, key: string, ad: A)
    requires Clean(c) && Counted(c, limit) && key in c.table
    ensures
      var r := Change(c, key, ad);
      && Clean(r) && Counted(r, limit)
      && (forall k :: Look(r, k) == if k == key then Some(ad) else Look(c, k))
  {
    SizeWith(c.table, key, ad);
  }

  /** A stored copy is deleted. */
  function Unstored<A>(c: Cache<A>, key: string): Cache<A>
  {
    c.(stored := c.stored - {key})
  }

  /** RemoveClassAd. The dirty mark stays. */
  function Remove<A>(c: Cache<A>, key: string): Cache<A>
  {
    if key in c.table then Drop(Unstored(c, key), key) else Unstored(c, key)
  }

  lemma WasRemoved<A(!new)>(c: Cache<A>, limit: nat, key: string)
    requires Clean(c) && Counted(c, limit)
    ensures
      var r := Remove(c, key);
      && Clean(r) && Counted(r, limit)
      && (forall k :: Look(r, k) == if k == key then None else Look(c, k))
  {
    if key in c.table {
      SizeWithout(c.table, key);
    }
  }

  /** The first step of AddClassAd_NoTransaction: the ad in the table is taken out, or else the
      stored copy is deleted. */
  function TakeOut<A>(c: Cache<A>, key: string): Cache<A>
  {
    if key in c.table then Drop(c, key) else Unstored(c, key)
  }

  lemma WasTakenOut<A(!new)>(c: Cache<A>, limit: nat, key: string)
    requires Clean(c) && Counted(c, limit)
    ensures
      var r := TakeOut(c, key);
      && Clean(r) && Counted(r, limit) && key !in r.table
      && (forall k :: k != key ==> Look(r, k) == Look(c, k))
  {
    if key in c.table {
      SizeWithout(c.table, key);
    }
  }

  /** A new ad for a key that is not in the table. */
  function PutNew<A>(c: Cache<A>, limit: nat, victim: string, key: string, ad: A): Cache<A>
    requires CanEvict(c, limit, victim)
  {
    var r := MakeRoom(c, limit, victim);
    r.(table := r.table[key := ad], dirty := r.dirty + {key}, count := r.count + 1)
  }

  lemma WasPut<A(!new)>(c: Cache<A>, limit: nat, victim: string, key: string, ad: A)
    requires Clean(c) && CanEvict(c, limit, victim) && key !in c.table && c.count <= limit
    ensures
      var r := PutNew(c, limit, victim, key, ad);
      && Clean(r) && r.count - |r.table| == c.count - |c.table| && r.count <= limit
      && (forall k :: Look(r, k) == if k == key then Some(ad) else Look(c, k))
  {
    RoomMade(c, limit, victim);
    SizeWith(MakeRoom(c, limit, victim).table, key, ad);
  }

  // ---------- runs ----------

  datatype Operation<A> =
    | Add(key: string, ad: A)
    | Update(key: string, ad: A)
    | Modify(key: string, ad: A)
    | RemoveAd(key: string)
    | Get(key: string)

  /** The two ways in which an ad changes another. */
  datatype Changes<!A> = Changes(updated: (A, A) -> A, modified: (A, A) -> A)

  /** A step of the cache with a victim of its choice; None if the victim cannot be chosen. All
      writes to the log and all views succeed. */
  function Step<A>(c: Cache<A>, limit: nat, sem: Changes<A>, op: Operation<A>, victim: string): Option<Cache<A>>
  {
    match op
    case Add(key, ad) =>
      if CanEvict(TakeOut(c, key), limit, victim) then Some(PutNew(TakeOut(c, key), limit, victim, key, ad)) else None
    case Update(key, ad) => ChangeStep(c, limit, sem.updated, key, ad, victim)
    case Modify(key, ad) => ChangeStep(c, limit, sem.modified, key, ad, victim)
    case RemoveAd(key) => Some(Remove(c, key))
    case Get(key) =>
      if Look(c, key).None? then Some(c)
      else if CanEvict(c, limit, victim) then Some(SwitchIn(c, limit, victim, key))
      else None
  }

  /** UpdateClassAd and ModifyClassAd: an error without a visible ad. */
  function ChangeStep<A>(c: Cache<A>, limit: nat, f: (A, A) -> A, key: string, ad: A, victim: string): Option<Cache<A>>
  {
    if Look(c, key).None? then Some(c)
    else if !CanEvict(c, limit, victim) then None
    else
      var r := SwitchIn(c, limit, victim, key);
      if key !in r.table then Some(r) else Some(Change(r, key, f(r.table[key], ad)))
  }

  /** The same operation on a plain map. */
  function Plain<A>(m: map<string, A>, sem: Changes<A>, op: Operation<A>): map<string, A>
  {
    match op
    case Add(key, ad) => m[key := ad]
    case Update(key, ad) => if key in m then m[key := sem.updated(m[key], ad)] else m
    case Modify(key, ad) => if key in m then m[key := sem.modified(m[key], ad)] else m
    case RemoveAd(key) => m - {key}
    case Get(_) => m
  }

  lemma StepShows<A(!new)>(c: Cache<A>, limit: nat, sem: Changes<A>, op: Operation<A>, victim: string, m: map<string, A>)
    requires Clean(c) && Counted(c, limit) && Shows(c, m) && Step(c, limit, sem, op, victim).Some?
    ensures
      var r := Step(c, limit, sem, op, victim).value;
      Clean(r) && Counted(r, limit) && Shows(r, Plain(m, sem, op))
  {
    assert Look(c, op.key) == At(m, op.key);
    match op {
      case Add(key, ad) => AddShows(c, limit, key, ad, victim, m);
      case Update(key, ad) => ChangeShows(c, limit, sem.updated, key, ad, victim, m);
      case Modify(key, ad) => ChangeShows(c, limit, sem.modified, key, ad, victim, m);
      case RemoveAd(key) => RemoveShows(c, limit, key, m);
      case Get(key) =>
        if Look(c, key).Some? {
          SwitchedIn(c, limit, victim, key);
        }
    }
  }

  lemma AddShows<A(!new)>(c: Cache<A>, limit: nat, key: string, ad: A, victim: string, m: map<string, A>)
    requires Clean(c) && Counted(c, limit) && Shows(c, m) && CanEvict(TakeOut(c, key), limit, victim)
    ensures
      var r := PutNew(TakeOut(c, key), limit, victim, key, ad);
      Clean(r) && Counted(r, limit) && Shows(r, m[key := ad])
  {
    WasTakenOut(c, limit, key);
    WasPut(TakeOut(c, key), limit, victim, key, ad);
  }

  lemma RemoveShows<A(!new)>(c: Cache<A>, limit: nat, key: string, m: map<string, A>)
    requires Clean(c) && Counted(c, limit) && Shows(c, m)
    ensures Clean(Remove(c, key)) && Counted(Remove(c, key), limit) && Shows(Remove(c, key), m - {key})
  {
    WasRemoved(c, limit, key);
  }

  lemma ChangeShows<A(!new)>(c: Cache<A>, limit: nat, f: (A, A) -> A, key: string, ad: A, victim: string, m: map<string, A>)
    requires Clean(c) && Counted(c, limit) && Shows(c, m) && ChangeStep(c, limit, f, key, ad, victim).Some?
    ensures
      var r := ChangeStep(c, limit, f, key, ad, victim).value;
      && Clean(r) && Counted(r, limit)
      && Shows(r, if key in m then m[key := f(m[key], ad)] else m)
  {
    assert Look(c, key) == At(m, key);
    if key in m {
      SwitchedIn(c, limit, victim, key);
      var r := SwitchIn(c, limit, victim, key);
      WasChanged(r, limit, key, f(r.table[key], ad));
    }
  }

  /** A run, each operation with its victim. */
  function Run<A>(c: Cache<A>, limit: nat, sem: Changes<A>, steps: seq<(Operation<A>, string)>): Option<Cache<A>>
    decreases |steps|
  {
    if steps == [] then Some(c)
    else
      match Step(c, limit, sem, steps[0].0, steps[0].1)
      case None => None
      case Some(r) => Run(r, limit, sem, steps[1..])
  }

  function PlainRun<A>(m: map<string, A>, sem: Changes<A>, steps: seq<(Operation<A>, string)>): map<string, A>
    decreases |steps|
  {
    if steps == [] then m else PlainRun(Plain(m, sem, steps[0].0), sem, steps[1..])
  }

  /** The cache is not seen: after any run with any victims the visible content is that of a
      plain map, every clean cached ad has an identical stored copy, and the count is the size
      of the table and within the limit. */
  lemma {:induction false} CacheIsInvisible<A(!new)>(c: Cache<A>, limit: nat, sem: Changes<A>,
                                                      steps: seq<(Operation<A>, string)>, m: map<string, A>)
    requires Clean(c) && Counted(c, limit) && Shows(c, m) && Run(c, limit, sem, steps).Some?
    ensures
      var r := Run(c, limit, sem, steps).value;
      Clean(r) && Counted(r, limit) && Shows(r, PlainRun(m, sem, steps))
    decreases |steps|
  {
    if steps != [] {
      StepShows(c, limit, sem, steps[0].0, steps[0].1, m);
      CacheIsInvisible(Step(c, limit, sem, steps[0].0, steps[0].1).value, limit, sem, steps[1..], Plain(m, sem, steps[0].0));
    }
  }

  /** No operation is ever stuck for want of a victim. */
  lemma VictimExists<A(!new)>(c: Cache<A>, limit: nat, sem: Changes<A>, op: Operation<A>) returns (victim: string)
    requires limit > 0 && Clean(c) && Counted(c, limit)
    ensures Step(c, limit, sem, op, victim).Some?
  {
    victim := op.key;
    var d := if op.Add? then TakeOut(c, op.key) else c;
    WasTakenOut(c, limit, op.key);
    if d.count == limit {
      assert d.table.Keys != {};
      victim :| victim in d.table;
    }
  }

  lemma VictimIfFull<A(!new)>(c: Cache<A>, limit: nat)
    requires limit > 0 && Counted(c, limit)
    ensures c.count == limit ==> c.table != map[]
  {
  }

  lemma SwitchInLoads<A(!new)>(c: Cache<A>, limit: nat, victim: string, key: string)
    requires CanEvict(c, limit, victim) && key in c.stored && key !in c.table
    ensures
      var r := MakeRoom(c, limit, victim);
      key in r.stored && SwitchIn(c, limit, victim, key) == Loaded(r, key)
  {
  }

  lemma SwitchInShows<A(!new)>(c: Cache<A>, limit: nat, victim: string, key: string, m: map<string, A>)
    requires Clean(c) && Counted(c, limit) && CanEvict(c, limit, victim) && Look(c, key).Some? && Shows(c, m)
    ensures
      var r := SwitchIn(c, limit, victim, key);
      Clean(r) && Counted(r, limit) && Shows(r, m) && key in r.table && key in m && r.table[key] == m[key]
  {
    assert Look(c, key) == At(m, key);
    SwitchedIn(c, limit, victim, key);
  }

  // ---------- the log ----------

  /** What an operation writes to the log. An update without an ad is an error; the removal of an
      ad that is only stored is not logged, that of an ad that is nowhere is. */
  function RecordOf<A>(c: Cache<A>, op: Operation<A>): seq<Operation<A>>
  {
    match op
    case Add(_, _) => [op]
    case Update(key, _) => if Look(c, key).Some? then [op] else []
    case Modify(key, _) => if Look(c, key).Some? then [op] else []
    case RemoveAd(key) => if key in c.stored && key !in c.table then [] else [op]
    case Get(_) => []
  }

  function LogOf<A>(c: Cache<A>, limit: nat, sem: Changes<A>, steps: seq<(Operation<A>, string)>): seq<Operation<A>>
    decreases |steps|
  {
    if steps == [] then []
    else
      match Step(c, limit, sem, steps[0].0, steps[0].1)
      case None => []
      case Some(r) => RecordOf(c, steps[0].0) + LogOf(r, limit, sem, steps[1..])
  }

  /** One record played on a table; a record for an ad that is not there is an error. */
  function ReplayRecord<A>(t: map<string, A>, sem: Changes<A>, op: Operation<A>): Option<map<string, A>>
  {
    if op.Add? || op.Get? || op.key in t then Some(Plain(t, sem, op)) else None
  }

  function ReplayLog<A>(t: map<string, A>, sem: Changes<A>, log: seq<Operation<A>>): Option<map<string, A>>
    decreases |log|
  {
    if log == [] then Some(t)
    else
      match ReplayRecord(t, sem, log[0])
      case None => None
      case Some(u) => ReplayLog(u, sem, log[1..])
  }

  /** The keys that the log holds after an operation, given those before. */
  function Held<A>(c: Cache<A>, op: Operation<A>, held: set<string>): set<string>
  {
    if op.Add? then held + {op.key}
    else if op.RemoveAd? && RecordOf(c, op) != [] then held - {op.key}
    else held
  }

  function HeldAfter<A>(c: Cache<A>, limit: nat, sem: Changes<A>, steps: seq<(Operation<A>, string)>, held: set<string>): set<string>
    decreases |steps|
  {
    if steps == [] then held
    else
      match Step(c, limit, sem, steps[0].0, steps[0].1)
      case None => held
      case Some(r) => HeldAfter(r, limit, sem, steps[1..], Held(c, steps[0].0, held))
  }

  /** Every removal names a key that the log holds at the time: that of a visible ad, or of one
      whose removal was not logged. */
  predicate RemovalsHeld<A>(c: Cache<A>, limit: nat, sem: Changes<A>, steps: seq<(Operation<A>, string)>, held: set<string>)
    decreases |steps|
  {
    steps == [] || (
      && (steps[0].0.RemoveAd? ==> steps[0].0.key in held)
      && match Step(c, limit, sem, steps[0].0, steps[0].1)
         case None => true
         case Some(r) => RemovalsHeld(r, limit, sem, steps[1..], Held(c, steps[0].0, held)))
  }

  ghost predicate Within<A>(m: map<string, A>, t: map<string, A>)
  {
    forall k :: k in m ==> k in t && t[k] == m[k]
  }

  lemma RecordReplays<A(!new)>(c: Cache<A>, sem: Changes<A>, op: Operation<A>, m: map<string, A>, t: map<string, A>)
    requires Shows(c, m) && Within(m, t)
    ensures
      var q := ReplayLog(t, sem, RecordOf(c, op));
      && (q.Some? <==> (op.RemoveAd? ==> op.key in t))
      && (q.Some? ==> Within(Plain(m, sem, op), q.value) && q.value.Keys == Held(c, op, t.Keys))
  {
    assert Look(c, op.key) == At(m, op.key);
    assert [op][1..] == [];
    if RecordOf(c, op) == [op] {
      OneRecord(t, sem, op);
    }
  }

  lemma OneRecord<A>(t: map<string, A>, sem: Changes<A>, op: Operation<A>)
    ensures ReplayLog(t, sem, [op]) == ReplayRecord(t, sem, op)
  {
    assert [op][1..] == [];
  }

  lemma {:induction false} ReplayConcat<A>(t: map<string, A>, sem: Changes<A>, a: seq<Operation<A>>, b: seq<Operation<A>>)
    ensures ReplayLog(t, sem, a + b) ==
      match ReplayLog(t, sem, a)
      case None => None
      case Some(u) => ReplayLog(u, sem, b)
    decreases |a|
  {
    if a == [] {
      assert a + b == b;
    } else {
      assert (a + b)[0] == a[0] && (a + b)[1..] == a[1..] + b;
      if ReplayRecord(t, sem, a[0]).Some? {
        ReplayConcat(ReplayRecord(t, sem, a[0]).value, sem, a[1..], b);
      }
    }
  }

  /** The log of a cached run can be replayed if and only if every removal names a key that the
      log holds. The table that it gives then holds every visible ad; it holds nothing else, and
      so is the visible content, if and only if the log holds no other key. */
  lemma {:induction false} LogReplaysIff<A(!new)>(c: Cache<A>, limit: nat, sem: Changes<A>,
                                                   steps: seq<(Operation<A>, string)>, m: map<string, A>, t: map<string, A>)
    requires Clean(c) && Counted(c, limit) && Shows(c, m) && Within(m, t) && Run(c, limit, sem, steps).Some?
    ensures
      var q, shown := ReplayLog(t, sem, LogOf(c, limit, sem, steps)), PlainRun(m, sem, steps);
      && (q.Some? <==> RemovalsHeld(c, limit, sem, steps, t.Keys))
      && (q.Some? ==> Within(shown, q.value))
      && (q.Some? ==> (q.value == shown <==> HeldAfter(c, limit, sem, steps, t.Keys) == shown.Keys))
    decreases |steps|
  {
    if steps == [] {
      if t.Keys == m.Keys {
        assert t == m;
      }
    } else {
      var op, victim := steps[0].0, steps[0].1;
      var r := Step(c, limit, sem, op, victim).value;
      RecordReplays(c, sem, op, m, t);
      StepShows(c, limit, sem, op, victim, m);
      ReplayConcat(t, sem, RecordOf(c, op), LogOf(r, limit, sem, steps[1..]));
      var q := ReplayLog(t, sem, RecordOf(c, op));
      if q.Some? {
        LogReplaysIff(r, limit, sem, steps[1..], Plain(m, sem, op), q.value);
      }
    }
  }

  /** Every removal names an ad that is in the table. */
  predicate CachedRemovals<A>(c: Cache<A>, limit: nat, sem: Changes<A>, steps: seq<(Operation<A>, string)>)
    decreases |steps|
  {
    steps == [] || (
      && (steps[0].0.RemoveAd? ==> steps[0].0.key in c.table)
      && match Step(c, limit, sem, steps[0].0, steps[0].1)
         case None => true
         case Some(r) => CachedRemovals(r, limit, sem, steps[1..]))
  }

  /** Then the log gives the visible content. */
  lemma {:induction false} CachedRemovalsReplay<A(!new)>(c: Cache<A>, limit: nat, sem: Changes<A>,
                                                          steps: seq<(Operation<A>, string)>, m: map<string, A>)
    requires Clean(c) && Counted(c, limit) && Shows(c, m) && Run(c, limit, sem, steps).Some?
    requires CachedRemovals(c, limit, sem, steps)
    ensures ReplayLog(m, sem, LogOf(c, limit, sem, steps)) == Some(PlainRun(m, sem, steps))
    decreases |steps|
  {
    if steps != [] {
      var (op, victim) := steps[0];
      var r := Step(c, limit, sem, op, victim).value;
      StepShows(c, limit, sem, op, victim, m);
      CachedRemovalsReplay(r, limit, sem, steps[1..], Plain(m, sem, op));
      RecordIsFaithful(c, sem, op, m);
      ReplayConcat(m, sem, RecordOf(c, op), LogOf(r, limit, sem, steps[1..]));
    }
  }

  lemma RecordIsFaithful<A(!new)>(c: Cache<A>, sem: Changes<A>, op: Operation<A>, m: map<string, A>)
    requires Shows(c, m) && (op.RemoveAd? ==> op.key in c.table)
    ensures ReplayLog(m, sem, RecordOf(c, op)) == Some(Plain(m, sem, op))
  {
    assert Look(c, op.key) == At(m, op.key);
    OneRecord(m, sem, op);
  }

  /** Removing an ad that is nowhere succeeds, and makes the log unreadable. */
  lemma AbsentRemovalBreaksLog<A(!new)>(limit: nat, sem: Changes<A>, key: string)
    ensures
      var c := Cache(map[], {}, 0, map[]);
      && Run(c, limit, sem, [(RemoveAd(key), key)]).Some?
      && ReplayLog(map[], sem, LogOf(c, limit, sem, [(RemoveAd(key), key)])).None?
  {
    var c: Cache<A> := Cache(map[], {}, 0, map[]);
    var steps: seq<(Operation<A>, string)> := [(RemoveAd(key), key)];
    var r := Step(c, limit, sem, steps[0].0, steps[0].1).value;
    assert steps[1..] == [] && Run(r, limit, sem, steps[1..]) == Some(r);
    assert c.table - {key} == c.table;
    OneRecord(map[], sem, steps[0].0);
    assert LogOf(c, limit, sem, steps) == [steps[0].0];
  }

  // ---------- additions that fail ----------

  /** How an addition goes: a view may refuse the ad before it is put in, and the write to the
      log may fail after. */
  datatype Outcome = Done | ViewRefuses | LogFails

  /** AddClassAd_NoTransaction of an ad that is not the object in the table. After a failure an
      ad that was in the table is put back, with a victim of its own; the count is not lowered
      when the ad that could not be logged is erased. */
  function AddWith<A>(c: Cache<A>, limit: nat, key: string, ad: A, outcome: Outcome, v1: string, v2: string): Option<Cache<A>>
  {
    var d := TakeOut(c, key);
    match outcome
    case ViewRefuses =>
      if key !in c.table then Some(d)
      else if !CanEvict(d, limit, v1) then None
      else Some(PutNew(d, limit, v1, key, c.table[key]))
    case _ =>
      if !CanEvict(d, limit, v1) then None
      else
        var p := PutNew(d, limit, v1, key, ad);
        if outcome.Done? then Some(p)
        else
          var e := p.(table := p.table - {key});
          if key !in c.table then Some(e)
          else if !CanEvict(e, limit, v2) then None
          else Some(PutNew(e, limit, v2, key, c.table[key]))
  }

  /** What a failed addition leaves under the other keys and under its own. */
  ghost predicate Restored<A(!new)>(r: Cache<A>, c: Cache<A>, key: string)
  {
    && (forall k :: k != key ==> Look(r, k) == Look(c, k))
    && Look(r, key) == if key in c.table then Look(c, key) else None
  }

  /** The ad that could not be logged, erased again. */
  function Unlogged<A>(c: Cache<A>, limit: nat, key: string, ad: A, victim: string): Cache<A>
    requires CanEvict(TakeOut(c, key), limit, victim)
  {
    var p := PutNew(TakeOut(c, key), limit, victim, key, ad);
    p.(table := p.table - {key})
  }

  lemma WasUnlogged<A(!new)>(c: Cache<A>, limit: nat, key: string, ad: A, victim: string)
    requires Clean(c) && Counted(c, limit) && CanEvict(TakeOut(c, key), limit, victim)
    ensures
      var e := Unlogged(c, limit, key, ad, victim);
      && Clean(e) && e.count == |e.table| + 1 && e.count <= limit && key !in e.table
      && (forall k :: k != key ==> Look(e, k) == Look(c, k))
      && (key !in c.table ==> Look(e, key) == None)
  {
    var d := TakeOut(c, key);
    WasTakenOut(c, limit, key);
    WasPut(d, limit, victim, key, ad);
    RoomMade(d, limit, victim);
    var p := PutNew(d, limit, victim, key, ad);
    WasErased(p, key);
    assert At(p.stored, key) == At(d.stored, key);
  }

  lemma WasErased<A(!new)>(p: Cache<A>, key: string)
    requires Clean(p) && key in p.table
    ensures
      var e := p.(table := p.table - {key});
      && Clean(e) && |e.table| == |p.table| - 1 && key !in e.table
      && (forall k :: k != key ==> Look(e, k) == Look(p, k))
      && Look(e, key) == At(p.stored, key)
  {
    SizeWithout(p.table, key);
  }

  lemma VictimAfterTakeOut<A(!new)>(c: Cache<A>, limit: nat, key: string)
    requires limit > 0 && Clean(c) && Counted(c, limit)
    ensures var d := TakeOut(c, key); d.count == limit ==> d.table != map[]
  {
    WasTakenOut(c, limit, key);
  }

  lemma VictimAfterErasing<A(!new)>(c: Cache<A>, limit: nat, key: string, ad: A, victim: string)
    requires limit > 1 && Clean(c) && Counted(c, limit) && CanEvict(TakeOut(c, key), limit, victim)
    ensures var e := Unlogged(c, limit, key, ad, victim); e.count == limit ==> e.table != map[]
  {
    WasUnlogged(c, limit, key, ad, victim);
  }

  /** After the erasure there is a victim if one is needed, unless the cache is for one ad and its
      only ad was replaced. */
  lemma UndoneVictims<A(!new)>(c: Cache<A>, limit: nat, key: string, ad: A, victim: string)
    requires limit > 0 && Clean(c) && Counted(c, limit) && CanEvict(TakeOut(c, key), limit, victim)
    ensures
      var e := Unlogged(c, limit, key, ad, victim);
      key in c.table ==> (e.count == limit && e.table == map[] <==> limit == 1)
  {
    WasUnlogged(c, limit, key, ad, victim);
    if limit == 1 && key in c.table {
      SizeWithout(c.table, key);
      assert |TakeOut(c, key).table| == 0;
      assert |Unlogged(c, limit, key, ad, victim).table| == 0;
    }
  }

  lemma RefusalRestored<A(!new)>(c: Cache<A>, limit: nat, key: string, ad: A, v1: string, v2: string)
    requires Clean(c) && Counted(c, limit) && AddWith(c, limit, key, ad, ViewRefuses, v1, v2).Some?
    ensures
      var r := AddWith(c, limit, key, ad, ViewRefuses, v1, v2).value;
      Clean(r) && Restored(r, c, key) && r.count == |r.table|
  {
    WasTakenOut(c, limit, key);
    if key in c.table {
      WasPut(TakeOut(c, key), limit, v1, key, c.table[key]);
    }
  }

  lemma UnloggedRestored<A(!new)>(c: Cache<A>, limit: nat, key: string, ad: A, v1: string, v2: string)
    requires Clean(c) && Counted(c, limit) && AddWith(c, limit, key, ad, LogFails, v1, v2).Some?
    ensures
      var r := AddWith(c, limit, key, ad, LogFails, v1, v2).value;
      Clean(r) && Restored(r, c, key) && r.count == |r.table| + 1
  {
    WasUnlogged(c, limit, key, ad, v1);
    if key in c.table {
      WasPut(Unlogged(c, limit, key, ad, v1), limit, v2, key, c.table[key]);
    }
  }

  /** The visible ads after an addition with an outcome. */
  function Shown<A>(c: Cache<A>, m: map<string, A>, key: string, ad: A, outcome: Outcome): map<string, A>
  {
    if outcome.Done? then m[key := ad]
    else if key in c.table || key !in m then m
    else m - {key}
  }

  /** A failed addition keeps the cache clean; it leaves the visible content as it was exactly
      when the key's ad was in the table or there was none: an ad that was only stored is lost.
      The count stays right exactly when it was a view that refused. */
  lemma FailedAddition<A(!new)>(c: Cache<A>, limit: nat, key: string, ad: A, outcome: Outcome, v1: string, v2: string,
                                m: map<string, A>)
    requires Clean(c) && Counted(c, limit) && Shows(c, m) && !outcome.Done?
    requires AddWith(c, limit, key, ad, outcome, v1, v2).Some?
    ensures
      var r := AddWith(c, limit, key, ad, outcome, v1, v2).value;
      && Clean(r)
      && Shows(r, Shown(c, m, key, ad, outcome))
      && (Shows(r, m) <==> key in c.table || key !in m)
      && (r.count == |r.table| <==> outcome.ViewRefuses?)
  {
    if outcome.ViewRefuses? {
      RefusalRestored(c, limit, key, ad, v1, v2);
    } else {
      UnloggedRestored(c, limit, key, ad, v1, v2);
    }
    var r := AddWith(c, limit, key, ad, outcome, v1, v2).value;
    RestoredIff(r, c, key, m);
    RestoredShows(r, c, key, ad, outcome, m);
  }

  lemma RestoredShows<A(!new)>(r: Cache<A>, c: Cache<A>, key: string, ad: A, outcome: Outcome, m: map<string, A>)
    requires Restored(r, c, key) && Shows(c, m) && !outcome.Done?
    ensures Shows(r, Shown(c, m, key, ad, outcome))
  {
    var shown := Shown(c, m, key, ad, outcome);
    forall k ensures Look(r, k) == At(shown, k) {
      assert Look(c, k) == At(m, k);
    }
  }

  lemma RestoredIff<A(!new)>(r: Cache<A>, c: Cache<A>, key: string, m: map<string, A>)
    requires Restored(r, c, key) && Shows(c, m)
    ensures Shows(r, m) <==> key in c.table || key !in m
  {
    assert Look(c, key) == At(m, key);
    if key in c.table || key !in m {
      forall k ensures Look(r, k) == At(m, k) {
        assert Look(c, k) == At(m, k);
      }
    } else {
      assert Look(r, key) != At(m, key);
    }
  }

  /** Additions that all fail to be logged. */
  function FailedAdditions<A>(c: Cache<A>, limit: nat, keys: seq<string>, ad: A): Option<Cache<A>>
    decreases |keys|
  {
    if keys == [] then Some(c)
    else
      match AddWith(c, limit, keys[0], ad, LogFails, keys[0], keys[0])
      case None => None
      case Some(r) => FailedAdditions(r, limit, keys[1..], ad)
  }

  /** After as many additions as the limit whose log writes fail, on an empty cache, the count
      says that the cache is full while the table is empty: no further addition finds a victim. */
  lemma {:induction false} FullOfNothing<A(!new)>(c: Cache<A>, limit: nat, keys: seq<string>, ad: A)
    requires c.table == map[] && c.stored == map[] && 0 <= c.count && c.count + |keys| == limit
    ensures
      var r := FailedAdditions(c, limit, keys, ad);
      && r.Some? && r.value.table == map[] && r.value.count == limit
      && (forall key, victim :: AddWith(r.value, limit, key, ad, Done, victim, victim).None?)
    decreases |keys|
  {
    if keys == [] {
      forall key, victim ensures AddWith(c, limit, key, ad, Done, victim, victim).None? {
        assert TakeOut(c, key).table == map[];
      }
    } else {
      var key := keys[0];
      assert c.stored - {key} == map[] && map[key := ad] - {key} == map[];
      var r := AddWith(c, limit, key, ad, LogFails, key, key).value;
      assert r.table == map[] && r.stored == map[];
      FullOfNothing(r, limit, keys[1..], ad);
    }
  }

  /** An addition is stuck, looking for a victim in an empty table, exactly when the only ad of a
      cache for one ad is replaced and the write to the log fails. */
  lemma StuckAddition<A(!new)>(c: Cache<A>, limit: nat, key: string, ad: A, outcome: Outcome)
    requires limit > 0 && Clean(c) && Counted(c, limit)
    ensures (forall v1, v2 :: AddWith(c, limit, key, ad, outcome, v1, v2).None?) <==>
      limit == 1 && outcome.LogFails? && key in c.table
  {
    if limit == 1 && outcome.LogFails? && key in c.table {
      OnlyAd(c, limit, key, ad);
    } else {
      var v1 := FirstVictim(c, limit, key);
      if outcome.LogFails? && key in c.table {
        var v2 := SecondVictim(c, limit, key, ad, v1);
        assert AddWith(c, limit, key, ad, outcome, v1, v2).Some?;
      } else {
        assert AddWith(c, limit, key, ad, outcome, v1, v1).Some?;
      }
    }
  }

  lemma AnyVictim<A(!new)>(c: Cache<A>, limit: nat) returns (v: string)
    requires c.count == limit ==> c.table != map[]
    ensures CanEvict(c, limit, v)
  {
    v := "";
    if c.count == limit {
      assert c.table.Keys != {};
      v :| v in c.table;
    }
  }

  lemma FirstVictim<A(!new)>(c: Cache<A>, limit: nat, key: string) returns (v1: string)
    requires limit > 0 && Clean(c) && Counted(c, limit)
    ensures CanEvict(TakeOut(c, key), limit, v1)
  {
    VictimAfterTakeOut(c, limit, key);
    v1 := AnyVictim(TakeOut(c, key), limit);
  }

  lemma SecondVictim<A(!new)>(c: Cache<A>, limit: nat, key: string, ad: A, v1: string) returns (v2: string)
    requires limit > 1 && Clean(c) && Counted(c, limit) && CanEvict(TakeOut(c, key), limit, v1)
    ensures CanEvict(Unlogged(c, limit, key, ad, v1), limit, v2)
  {
    VictimAfterErasing(c, limit, key, ad, v1);
    v2 := AnyVictim(Unlogged(c, limit, key, ad, v1), limit);
  }

  lemma OnlyAd<A(!new)>(c: Cache<A>, limit: nat, key: string, ad: A)
    requires limit == 1 && Clean(c) && Counted(c, limit) && key in c.table
    ensures forall v1, v2 :: AddWith(c, limit, key, ad, LogFails, v1, v2).None?
  {
    forall v1, v2 ensures AddWith(c, limit, key, ad, LogFails, v1, v2).None? {
      WasTakenOut(c, limit, key);
      SizeWithout(c.table, key);
      var d := TakeOut(c, key);
      assert |d.table| == 0 && d.count == 0;
      var e := Unlogged(c, limit, key, ad, v1);
      WasUnlogged(c, limit, key, ad, v1);
      assert e.count == 1 && |e.table| == 0;
    }
  }

  // ---------- the object in the table itself ----------

  /** Adding the very object that is in the table, or a change whose views refuse it: the table
      has the new ad but the key is not marked dirty. */
  function Unmarked<A>(c: Cache<A>, key: string, ad: A): Cache<A>
  {
    c.(table := c.table[key := ad])
  }

  /** The change survives the key's own eviction exactly when the key was already dirty or the
      stored copy is the same. */
  lemma UnmarkedSurvivesIff<A(!new)>(c: Cache<A>, key: string, ad: A)
    requires Clean(c) && key in c.table
    ensures
      var r := Unmarked(c, key, ad);
      && (Clean(r) <==> key in c.dirty || At(c.stored, key) == Some(ad))
      && (Look(Drop(WriteBack(r, key), key), key) == Some(ad) <==> key in c.dirty || At(c.stored, key) == Some(ad))
  {
    var r := Unmarked(c, key, ad);
    assert r.table[key] == ad;
    if key in c.dirty || At(c.stored, key) == Some(ad) {
      WrittenBack(r, key);
    }
  }

  /** A change that a view may refuse after it has been made in place, or the log not take. */
  function ChangeWith<A>(c: Cache<A>, limit: nat, f: (A, A) -> A, key: string, ad: A, outcome: Outcome, victim: string)
    : Option<Cache<A>>
  {
    if Look(c, key).None? then Some(c)
    else if !CanEvict(c, limit, victim) then None
    else
      var r := SwitchIn(c, limit, victim, key);
      if key !in r.table then Some(r)
      else if outcome.ViewRefuses? then Some(Unmarked(r, key, f(r.table[key], ad)))
      else Some(Change(r, key, f(r.table[key], ad)))
  }

  /** A change that fails has been made all the same, and is seen; only if a view refused it can
      the cache have become unclean. */
  lemma FailedChange<A(!new)>(c: Cache<A>, limit: nat, f: (A, A) -> A, key: string, ad: A, outcome: Outcome, victim: string,
                              m: map<string, A>)
    requires Clean(c) && Counted(c, limit) && Shows(c, m) && key in m
    requires ChangeWith(c, limit, f, key, ad, outcome, victim).Some?
    ensures
      var r := ChangeWith(c, limit, f, key, ad, outcome, victim).value;
      && Counted(r, limit) && Shows(r, m[key := f(m[key], ad)])
      && (Clean(r) <==> (outcome.ViewRefuses? ==> key in r.dirty || At(r.stored, key) == Some(f(m[key], ad))))
  {
    assert Look(c, key) == At(m, key);
    SwitchInShows(c, limit, victim, key, m);
    ChangedInPlace(SwitchIn(c, limit, victim, key), limit, key, f(m[key], ad), outcome.ViewRefuses?, m);
  }

  /** An ad of the table that is changed in place, marked or refused. */
  lemma ChangedInPlace<A(!new)>(c: Cache<A>, limit: nat, key: string, ad: A, refused: bool, m: map<string, A>)
    requires Clean(c) && Counted(c, limit) && Shows(c, m) && key in c.table
    ensures
      var r := if refused then Unmarked(c, key, ad) else Change(c, key, ad);
      && Counted(r, limit) && Shows(r, m[key := ad])
      && (Clean(r) <==> (refused ==> key in r.dirty || At(r.stored, key) == Some(ad)))
  {
    SizeWith(c.table, key, ad);
    if refused {
      UnmarkedSurvivesIff(c, key, ad);
      forall k ensures Look(Unmarked(c, key, ad), k) == At(m[key := ad], k) {
        assert Look(c, k) == At(m, k);
      }
    } else {
      WasChanged(c, limit, key, ad);
    }
  }

  /** The object in the table itself, erased again because its addition could not be logged: the
      stored copy, if any, is seen again, and the count is one too high. */
  function ErasedSame<A>(c: Cache<A>, key: string, ad: A): Cache<A>
  {
    var r := Unmarked(c, key, ad);
    r.(table := r.table - {key})
  }

  lemma SameErased<A(!new)>(c: Cache<A>, limit: nat, key: string, ad: A)
    requires Clean(c) && Counted(c, limit) && key in c.table
    ensures
      var r := ErasedSame(c, key, ad);
      && Clean(r) && r.count == |r.table| + 1
      && (forall k :: Look(r, k) == if k == key then At(c.stored, key) else Look(c, k))
  {
    SizeWithout(c.table, key);
    assert ErasedSame(c, key, ad).table == c.table - {key};
  }
}
