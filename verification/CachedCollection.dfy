/**
 The collection object with its memory cache on (src/classad/collectionBase.cpp) and its storage
 file: the table, the dirty marks, the count and the file are updated step by step as `AdCache`
 says. The operations are the direct ones, outside transactions, with all views accepting.
 */
module CachedCollection {
  import opened Options
  import opened StorageFile
  import opened AdCache

  /** How an ad is written as a line with its key, and read. */
  datatype Codec<!A> = Codec(unparse: (string, A) -> string, parse: string -> Option<(string, A)>)

  /** Lines can be stored and are read as what they were written for. */
  ghost predicate Lawful<A(!new)>(codec: Codec<A>, keyOf: string -> string)
  {
    forall k: string, a: A ::
      var line := codec.unparse(k, a);
      Live(line) && keyOf(line) == k && codec.parse(line) == Some((k, a))
  }

  ghost predicate Encodes<A(!new)>(codec: Codec<A>, lines: map<string, string>, ads: map<string, A>)
  {
    lines.Keys == ads.Keys && forall k :: k in ads ==> lines[k] == codec.unparse(k, ads[k])
  }

  /** The storage file as a store of ads: lines are written with GetStringClassAd and read with
      the parser. */
  class AdFile<A(!new)> {
    const codec: Codec<A>
    const lines: IndexFile
    /** The ads whose lines the file holds. */
    ghost var stored: map<string, A>

    ghost predicate Valid()
      reads this, lines
    {
      lines.Valid() && Encodes(codec, lines.stored, stored)
    }

    constructor (codec: Codec<A>, keyOf: string -> string)
      requires Lawful(codec, keyOf)
      ensures Valid() && stored == map[] && fresh(lines) && Lawful(this.codec, lines.keyOf)
    {
      this.codec := codec;
      lines := new IndexFile(keyOf);
      stored := map[];
    }

    method Write(key: string, ad: A)
      requires Valid() && Lawful(codec, lines.keyOf)
      modifies this, lines
      ensures Valid() && stored == old(stored)[key := ad]
    {
      lines.WriteBack(key, codec.unparse(key, ad));
      stored := stored[key := ad];
    }

    method Delete(key: string) returns (found: bool)
      requires Valid()
      modifies this, lines
      ensures Valid() && stored == old(stored) - {key} && found == (key in old(stored))
    {
      found := lines.DeleteFromStorageFile(key);
      stored := stored - {key};
    }

    method Holds(key: string) returns (found: bool)
      requires Valid()
      ensures found == (key in stored)
    {
      var offset := lines.FindInFile(key);
      found := offset.Some?;
    }

    /** The ad stored for a key: its line is read at its offset and parsed, and the key in it
        compared. */
    method Read(key: string) returns (ad: Option<A>)
      requires Valid() && Lawful(codec, lines.keyOf)
      modifies lines`position
      ensures Valid() && ad == At(stored, key)
    {
      var offset := lines.FindInFile(key);
      if offset.None? {
        return None;
      }
      ghost var j := ReadsStored(lines.keyOf, lines.lines, lines.index, lines.stored, key);
      var line := lines.GetClassadFromFile(offset.value);
      assert line == codec.unparse(key, stored[key]);
      if line == "" {
        return None;
      }
      var parsed := codec.parse(line);
      ad := if parsed.Some? && parsed.value.0 == key then Some(parsed.value.1) else None;
    }
  }

  class ClassAdCollection<A(!new)> {
    const sem: Changes<A>
    const limit: nat
    const storage: AdFile<A>
    var classadTable: map<string, A>
    var dirtyClassad: set<string>
    var maxClassad: int
    var log: seq<Operation<A>>
    /** The visible content. */
    ghost var visible: map<string, A>

    ghost function State(): Cache<A>
      reads this`classadTable, this`dirtyClassad, this`maxClassad, storage`stored
    {
      Cache(classadTable, dirtyClassad, maxClassad, storage.stored)
    }

    ghost predicate Valid()
      reads this`classadTable, this`dirtyClassad, this`maxClassad, this`visible, storage, storage.lines
    {
      Seen() && Clean(State())
    }

    /** All but that clean ads have a stored copy. */
    ghost predicate Seen()
      reads this`classadTable, this`dirtyClassad, this`maxClassad, this`visible, storage, storage.lines
    {
      && limit > 0 && storage.Valid() && Lawful(storage.codec, storage.lines.keyOf)
      && Counted(State(), limit) && Shows(State(), visible)
    }

    /** A change leaves the cache clean unless a view refused it, the key is not dirty and the
        stored copy is another. */
    ghost predicate StaysClean(key: string, outcome: Outcome)
      reads this`dirtyClassad, this`visible, storage`stored
    {
      key in visible && outcome.ViewRefuses? ==> key in dirtyClassad || At(storage.stored, key) == At(visible, key)
    }

    constructor (codec: Codec<A>, sem: Changes<A>, limit: nat, keyOf: string -> string)
      requires limit > 0 && Lawful(codec, keyOf)
      ensures Valid() && visible == map[] && log == []
    {
      this.sem, this.limit := sem, limit;
      storage := new AdFile(codec, keyOf);
      classadTable, dirtyClassad, maxClassad, log := map[], {}, 0, [];
      visible := map[];
    }

    /** MaybeSwapOutClassAd: SelectClassadToReplace may choose any ad of the table. */
    method MaybeSwapOutClassAd() returns (ghost victim: string)
      requires storage.Valid() && Lawful(storage.codec, storage.lines.keyOf)
      requires maxClassad == limit ==> classadTable != map[]
      modifies this`classadTable, this`dirtyClassad, this`maxClassad, storage, storage.lines
      ensures storage.Valid() && CanEvict(old(State()), limit, victim) && State() == MakeRoom(old(State()), limit, victim)
    {
      victim := "";
      if maxClassad == limit {
        assert classadTable.Keys != {};
        var writeBackKey :| writeBackKey in classadTable;
        victim := writeBackKey;
        if writeBackKey in dirtyClassad {
          storage.Write(writeBackKey, classadTable[writeBackKey]);
          dirtyClassad := dirtyClassad - {writeBackKey};
        }
        classadTable := classadTable - {writeBackKey};
        maxClassad := maxClassad - 1;
      }
    }

    /** SwitchInClassAd: room is made, and a stored ad is read into the table. */
    method SwitchInClassAd(key: string) returns (ok: bool, ghost victim: string)
      requires storage.Valid() && Lawful(storage.codec, storage.lines.keyOf)
      requires maxClassad == limit ==> classadTable != map[]
      requires key in storage.stored && key !in classadTable
      modifies this`classadTable, this`dirtyClassad, this`maxClassad, storage, storage.lines
      ensures storage.Valid() && ok
      ensures CanEvict(old(State()), limit, victim) && State() == SwitchIn(old(State()), limit, victim, key)
    {
      ghost var before := State();
      victim := MaybeSwapOutClassAd();
      SwitchInLoads(before, limit, victim, key);
      ok := LoadClassAd(key);
    }

    /** The second half of SwitchInClassAd: the ad is read from the file. */
    method LoadClassAd(key: string) returns (ok: bool)
      requires storage.Valid() && Lawful(storage.codec, storage.lines.keyOf) && key in storage.stored
      modifies this`classadTable, this`maxClassad, storage.lines`position
      ensures storage.Valid() && ok && State() == Loaded(old(State()), key)
    {
      ghost var loaded := Loaded(State(), key);
      var ad := storage.Read(key);
      ok := ad.Some?;
      if ok {
        PutInTable(key, ad.value);
      }
      assert State() == loaded;
    }

    method PutInTable(key: string, ad: A)
      modifies this`classadTable, this`maxClassad
      ensures State() == old(State()).(table := old(classadTable)[key := ad], count := old(maxClassad) + 1)
    {
      classadTable := classadTable[key := ad];
      maxClassad := maxClassad + 1;
    }

    /** The common first part of the operations on a key: its ad, if any, is in the table
        after. */
    method FindClassAd(key: string) returns (found: bool, ghost victim: string)
      requires Valid()
      modifies this`classadTable, this`dirtyClassad, this`maxClassad, storage, storage.lines
      ensures Valid() && found == (key in visible) == Look(old(State()), key).Some?
      ensures found ==> key in classadTable && classadTable[key] == visible[key]
      ensures found ==> CanEvict(old(State()), limit, victim) && State() == SwitchIn(old(State()), limit, victim, key)
      ensures !found ==> State() == old(State())
    {
      ghost var before := State();
      assert Look(before, key) == At(visible, key);
      if key in classadTable {
        victim := key;
        return true, victim;
      }
      victim := key;
      found := storage.Holds(key);
      if found {
        VictimIfFull(before, limit);
        found, victim := SwitchInClassAd(key);
        SwitchInShows(before, limit, victim, key, visible);
      }
    }

    method GetClassAd(key: string) returns (ad: Option<A>, ghost victim: string)
      requires Valid()
      modifies this`classadTable, this`dirtyClassad, this`maxClassad, storage, storage.lines
      ensures Valid() && ad == At(visible, key)
      ensures Step(old(State()), limit, sem, Get(key), victim) == Some(State())
    {
      var found;
      found, victim := FindClassAd(key);
      ad := if found then Some(classadTable[key]) else None;
    }

    /** The common part of UpdateClassAd and ModifyClassAd. Without an ad there is no change; a
        change that a view refuses has been made in place, but is not marked dirty. */
    method ChangeClassAd(key: string, f: (A, A) -> A, ad: A, outcome: Outcome) returns (found: bool, ghost victim: string)
      requires Valid()
      modifies this`classadTable, this`dirtyClassad, this`maxClassad, this`visible, storage, storage.lines
      ensures Seen() && found == (key in old(visible))
      ensures Valid() <==> StaysClean(key, outcome)
      ensures visible == if found then old(visible)[key := f(old(visible)[key], ad)] else old(visible)
      ensures ChangeWith(old(State()), limit, f, key, ad, outcome, victim) == Some(State())
      ensures outcome.Done? ==> ChangeStep(old(State()), limit, f, key, ad, victim) == Some(State())
    {
      found, victim := FindClassAd(key);
      if found {
        ChangeFound(key, f(classadTable[key], ad), outcome);
      }
    }

    /** The ad of a key in the table is changed in place. */
    method ChangeFound(key: string, ad: A, outcome: Outcome)
      requires Valid() && key in classadTable
      modifies this`classadTable, this`dirtyClassad, this`visible
      ensures Seen() && (Valid() <==> StaysClean(key, outcome))
      ensures visible == old(visible)[key := ad]
      ensures State() == if outcome.ViewRefuses? then Unmarked(old(State()), key, ad) else Change(old(State()), key, ad)
    {
      ghost var changed := if outcome.ViewRefuses? then Unmarked(State(), key, ad) else Change(State(), key, ad);
      ChangedInPlace(State(), limit, key, ad, outcome.ViewRefuses?, visible);
      ChangeInTable(key, ad, !outcome.ViewRefuses?);
      visible := visible[key := ad];
      assert State() == changed;
    }

    method ChangeInTable(key: string, ad: A, marked: bool)
      modifies this`classadTable, this`dirtyClassad
      ensures State() == if marked then Change(old(State()), key, ad) else Unmarked(old(State()), key, ad)
    {
      classadTable := classadTable[key := ad];
      if marked {
        dirtyClassad := dirtyClassad + {key};
      }
    }

    /** What a change writes to the log, in terms of the visible ads. */
    lemma ChangeRecord(c: Cache<A>, m: map<string, A>, op: Operation<A>)
      requires Shows(c, m) && (op.Update? || op.Modify?)
      ensures RecordOf(c, op) == if op.key in m then [op] else []
    {
      assert Look(c, op.key) == At(m, op.key);
    }

    /** A failure changes the ad all the same; it is told by the result, and not logged. */
    method UpdateClassAd(key: string, updAd: A, outcome: Outcome) returns (ok: bool, ghost victim: string)
      requires Valid()
      modifies this`classadTable, this`dirtyClassad, this`maxClassad, this`visible, this`log, storage, storage.lines
      ensures Seen() && ok == (key in old(visible) && outcome.Done?)
      ensures Valid() <==> StaysClean(key, outcome)
      ensures ChangeWith(old(State()), limit, sem.updated, key, updAd, outcome, victim) == Some(State())
      ensures outcome.Done? ==> Step(old(State()), limit, sem, Update(key, updAd), victim) == Some(State())
      ensures visible == Plain(old(visible), sem, Update(key, updAd))
      ensures log == old(log) + if outcome.Done? then RecordOf(old(State()), Update(key, updAd)) else []
    {
      ChangeRecord(State(), visible, Update(key, updAd));
      var found;
      found, victim := ChangeClassAd(key, sem.updated, updAd, outcome);
      ok := found && outcome.Done?;
      if ok {
        log := log + [Update(key, updAd)];
      }
    }

    method ModifyClassAd(key: string, modAd: A, outcome: Outcome) returns (ok: bool, ghost victim: string)
      requires Valid()
      modifies this`classadTable, this`dirtyClassad, this`maxClassad, this`visible, this`log, storage, storage.lines
      ensures Seen() && ok == (key in old(visible) && outcome.Done?)
      ensures Valid() <==> StaysClean(key, outcome)
      ensures ChangeWith(old(State()), limit, sem.modified, key, modAd, outcome, victim) == Some(State())
      ensures outcome.Done? ==> Step(old(State()), limit, sem, Modify(key, modAd), victim) == Some(State())
      ensures visible == Plain(old(visible), sem, Modify(key, modAd))
      ensures log == old(log) + if outcome.Done? then RecordOf(old(State()), Modify(key, modAd)) else []
    {
      ChangeRecord(State(), visible, Modify(key, modAd));
      var found;
      found, victim := ChangeClassAd(key, sem.modified, modAd, outcome);
      ok := found && outcome.Done?;
      if ok {
        log := log + [Modify(key, modAd)];
      }
    }

    /** The removal from the file and the table; `logged` says whether it goes on to the log. */
    method RemoveUnlogged(key: string) returns (logged: bool)
      requires storage.Valid() && Lawful(storage.codec, storage.lines.keyOf)
      modifies this`classadTable, this`maxClassad, storage, storage.lines
      ensures storage.Valid() && State() == Remove(old(State()), key)
      ensures logged == (key in old(classadTable) || key !in old(storage.stored))
    {
      var deleted := storage.Delete(key);
      logged := key in classadTable || !deleted;
      if key in classadTable {
        DropClassAd(key);
      }
    }

    method RemoveSeen(key: string) returns (logged: bool)
      requires Valid()
      modifies this`classadTable, this`maxClassad, this`visible, storage, storage.lines
      ensures Valid()
      ensures State() == Remove(old(State()), key) && visible == old(visible) - {key}
      ensures logged == (key in old(classadTable) || key !in old(storage.stored))
    {
      ghost var removed := Remove(State(), key);
      RemoveShows(State(), limit, key, visible);
      logged := RemoveUnlogged(key);
      visible := visible - {key};
      assert State() == removed;
    }

    /** The removal of an ad that is only stored returns before it is logged; that of an ad that
        is nowhere is logged. A failed write to the log undoes nothing. */
    method RemoveClassAd(key: string, logWorks: bool) returns (ok: bool)
      requires Valid()
      modifies this`classadTable, this`maxClassad, this`visible, this`log, storage, storage.lines
      ensures Valid() && ok == (logWorks || RecordOf(old(State()), RemoveAd(key)) == [])
      ensures State() == Remove(old(State()), key) && visible == old(visible) - {key}
      ensures log == old(log) + if logWorks then RecordOf(old(State()), RemoveAd(key)) else []
    {
      var logged := RemoveSeen(key);
      ok := !logged || logWorks;
      if logged && logWorks {
        log := log + [RemoveAd(key)];
      }
    }

    method DropClassAd(key: string)
      requires storage.Valid() && Lawful(storage.codec, storage.lines.keyOf)
      modifies this`classadTable, this`maxClassad
      ensures storage.Valid() && State() == Drop(old(State()), key)
    {
      maxClassad := maxClassad - 1;
      classadTable := classadTable - {key};
    }

    /** The first step of AddClassAd_NoTransaction: what the table held comes out, or else the
        stored copy is deleted. */
    method TakeOutClassAd(key: string) returns (oldAd: Option<A>)
      requires storage.Valid() && Lawful(storage.codec, storage.lines.keyOf)
      modifies this`classadTable, this`maxClassad, storage, storage.lines
      ensures storage.Valid() && oldAd == At(old(classadTable), key) && State() == TakeOut(old(State()), key)
    {
      oldAd := None;
      if key in classadTable {
        oldAd := Some(classadTable[key]);
        DropClassAd(key);
      } else {
        var _ := storage.Delete(key);
      }
    }

    /** Room is made and an ad is put in the table, dirty. */
    method PutNewClassAd(key: string, ad: A) returns (ghost victim: string)
      requires storage.Valid() && Lawful(storage.codec, storage.lines.keyOf)
      requires maxClassad == limit ==> classadTable != map[]
      modifies this`classadTable, this`dirtyClassad, this`maxClassad, storage, storage.lines
      ensures storage.Valid() && CanEvict(old(State()), limit, victim)
      ensures State() == PutNew(old(State()), limit, victim, key, ad)
    {
      victim := MaybeSwapOutClassAd();
      dirtyClassad := dirtyClassad + {key};
      PutInTable(key, ad);
    }

    /** AddClassAd_NoTransaction of an ad that is not the object in the table. It is stuck,
        looking for a victim in an empty table, when the only ad of a cache for one ad is
        replaced and the write to the log fails. */
    method AddClassAd(key: string, newAd: A, outcome: Outcome)
      returns (ok: bool, stuck: bool, ghost v1: string, ghost v2: string)
      requires Valid()
      modifies this`classadTable, this`dirtyClassad, this`maxClassad, this`visible, this`log, storage, storage.lines
      ensures storage.Valid() && ok == outcome.Done?
      ensures stuck <==> limit == 1 && outcome.LogFails? && key in old(classadTable)
      ensures !stuck ==> AddWith(old(State()), limit, key, newAd, outcome, v1, v2) == Some(State())
      ensures ok ==> Valid() && visible == old(visible)[key := newAd]
      ensures log == old(log) + if ok then RecordOf(old(State()), Add(key, newAd)) else []
    {
      v1, v2 := key, key;
      ok, stuck := outcome.Done?, false;
      match outcome {
        case Done =>
          v1 := AddSeen(key, newAd);
          log := log + [Add(key, newAd)];
        case ViewRefuses =>
          v1 := RefuseClassAd(key);
        case LogFails =>
          stuck, v1, v2 := AddUnlogged(key, newAd);
      }
    }

    method AddSeen(key: string, newAd: A) returns (ghost v1: string)
      requires Valid()
      modifies this`classadTable, this`dirtyClassad, this`maxClassad, this`visible, storage, storage.lines
      ensures Valid() && visible == old(visible)[key := newAd]
      ensures AddWith(old(State()), limit, key, newAd, Done, v1, v1) == Some(State())
    {
      ghost var before := State();
      var oldAd;
      oldAd, v1 := InsertClassAd(key, newAd);
      AddShows(before, limit, key, newAd, v1, visible);
      visible := visible[key := newAd];
    }

    method AddUnlogged(key: string, newAd: A) returns (stuck: bool, ghost v1: string, ghost v2: string)
      requires Valid()
      modifies this`classadTable, this`dirtyClassad, this`maxClassad, storage, storage.lines
      ensures storage.Valid()
      ensures stuck <==> limit == 1 && key in old(classadTable)
      ensures !stuck ==> AddWith(old(State()), limit, key, newAd, LogFails, v1, v2) == Some(State())
    {
      ghost var before := State();
      var oldAd;
      oldAd, v1 := InsertClassAd(key, newAd);
      UndoneVictims(before, limit, key, newAd, v1);
      stuck, v2 := UndoAddition(key, oldAd);
    }

    /** Adding the object that is in the table itself, which its user has changed to `ad`. It is
        logged but not marked dirty, or erased if it cannot be logged. */
    method AddSameClassAd(key: string, ad: A, logWorks: bool) returns (ok: bool)
      requires key in classadTable
      modifies this`classadTable, this`log
      ensures ok == logWorks
      ensures State() == if logWorks then Unmarked(old(State()), key, ad) else ErasedSame(old(State()), key, ad)
      ensures log == old(log) + if logWorks then [Add(key, ad)] else []
    {
      classadTable := classadTable[key := ad];
      ok := logWorks;
      if ok {
        log := log + [Add(key, ad)];
      } else {
        classadTable := classadTable - {key};
      }
    }

    /** What comes out of the table, or out of the file, and the new ad in its place. */
    method InsertClassAd(key: string, newAd: A) returns (oldAd: Option<A>, ghost victim: string)
      requires Valid()
      modifies this`classadTable, this`dirtyClassad, this`maxClassad, storage, storage.lines
      ensures storage.Valid() && oldAd == At(old(classadTable), key)
      ensures CanEvict(TakeOut(old(State()), key), limit, victim)
      ensures State() == PutNew(TakeOut(old(State()), key), limit, victim, key, newAd)
    {
      VictimAfterTakeOut(State(), limit, key);
      oldAd := TakeOutClassAd(key);
      victim := PutNewClassAd(key, newAd);
    }

    /** A view refuses the new ad: what came out of the table is put back. */
    method RefuseClassAd(key: string) returns (ghost victim: string)
      requires Valid()
      modifies this`classadTable, this`dirtyClassad, this`maxClassad, storage, storage.lines
      ensures storage.Valid()
      ensures
        var d := TakeOut(old(State()), key);
        if key !in old(classadTable) then State() == d
        else CanEvict(d, limit, victim) && State() == PutNew(d, limit, victim, key, old(classadTable)[key])
    {
      VictimAfterTakeOut(State(), limit, key);
      victim := key;
      var oldAd := TakeOutClassAd(key);
      if oldAd.Some? {
        victim := PutNewClassAd(key, oldAd.value);
      }
    }

    /** After a failed write to the log: the new ad is erased, and an old one put back, unless
        there is no victim to make room for it. */
    method UndoAddition(key: string, oldAd: Option<A>) returns (stuck: bool, ghost victim: string)
      requires storage.Valid() && Lawful(storage.codec, storage.lines.keyOf)
      modifies this`classadTable, this`dirtyClassad, this`maxClassad, storage, storage.lines
      ensures storage.Valid()
      ensures stuck <==> oldAd.Some? && old(maxClassad) == limit && old(classadTable) - {key} == map[]
      ensures
        var e := old(State()).(table := old(classadTable) - {key});
        if stuck || oldAd.None? then State() == e
        else CanEvict(e, limit, victim) && State() == PutNew(e, limit, victim, key, oldAd.value)
    {
      victim, stuck := key, false;
      classadTable := classadTable - {key};
      if oldAd.Some? {
        stuck := maxClassad == limit && classadTable.Keys == {};
        if !stuck {
          victim := PutNewClassAd(key, oldAd.value);
        }
      }
    }
  }
}
