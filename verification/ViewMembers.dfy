/**
 The ordered multiset a view keeps of its members (src/classad/view.cpp, ViewMember and
 ViewMembers): entries ordered by rank and then key, insertion at the upper bound, erasing by
 iterator and erasing by value.
 */
module ViewMembers {
  import opened Options
  import opened Keys

  /** A rank expression evaluates to an integer or to undefined (None). */
  type Rank = Option<int>

  datatype ViewMember = ViewMember(key: string, rank: Rank)

  /** Comparison of view members, operator< in view.cpp. Two undefined ranks are never less and never equal, so the key
      does not separate them; undefined sorts before every integer. */
  predicate Less(m1: ViewMember, m2: ViewMember)
  {
    match (m1.rank, m2.rank)
    case (Some(r1), Some(r2)) => if r1 == r2 then KeyLess(m1.key, m2.key) else r1 < r2
    case (None, Some(_)) => true
    case _ => false
  }

  lemma LessIsTransitive(a: ViewMember, b: ViewMember, c: ViewMember)
    requires Less(a, b) && Less(b, c)
    ensures Less(a, c)
  {
    if a.rank.Some? && a.rank == b.rank == c.rank {
      KeyLessIsTransitive(a.key, b.key, c.key);
    }
  }

  lemma LessIsStrict(a: ViewMember, b: ViewMember)
    ensures Less(a, b) ==> !Less(b, a)
  {
    KeyLessIsStrict(a.key, b.key);
  }

  predicate Equivalent(a: ViewMember, b: ViewMember)
  {
    !Less(a, b) && !Less(b, a)
  }

  /** Equivalent entries are the same entry, except that all undefined ranks are equivalent. */
  lemma EquivalentIff(a: ViewMember, b: ViewMember)
    ensures Equivalent(a, b) <==> a == b || (a.rank.None? && b.rank.None?)
  {
    KeyLessIsTotal(a.key, b.key);
    KeyLessIsStrict(a.key, b.key);
    KeyLessIsStrict(b.key, a.key);
  }

  // ---------- the multiset operations ----------

  function UpperBound(ms: seq<ViewMember>, m: ViewMember): (p: nat)
    ensures p <= |ms|
    ensures forall i :: 0 <= i < p ==> !Less(m, ms[i])
    ensures p < |ms| ==> Less(m, ms[p])
  {
    if ms == [] || Less(m, ms[0]) then 0 else 1 + UpperBound(ms[1..], m)
  }

  function Insert(ms: seq<ViewMember>, m: ViewMember): seq<ViewMember>
  {
    var p := UpperBound(ms, m);
    ms[..p] + [m] + ms[p..]
  }

  function Find(ms: seq<ViewMember>, m: ViewMember): (p: nat)
    ensures p <= |ms|
    ensures p < |ms| ==> ms[p] == m
    ensures p == |ms| ==> m !in ms
  {
    if ms == [] || ms[0] == m then 0 else 1 + Find(ms[1..], m)
  }

  /** Erase the entry an iterator points at. */
  function EraseAt(ms: seq<ViewMember>, m: ViewMember): seq<ViewMember>
  {
    var p := Find(ms, m);
    if p < |ms| then ms[..p] + ms[p + 1..] else ms
  }

  /** Erase by value: every equivalent entry goes. */
  function EraseEquivalent(ms: seq<ViewMember>, m: ViewMember): (r: seq<ViewMember>)
    ensures forall x :: x in r <==> x in ms && !Equivalent(x, m)
  {
    if ms == [] then []
    else (if Equivalent(ms[0], m) then [] else [ms[0]]) + EraseEquivalent(ms[1..], m)
  }

  // ---------- an index and a member list that agree ----------

  type Index = map<string, Rank>

  predicate Sorted(ms: seq<ViewMember>)
  {
    forall i, j :: 0 <= i < j < |ms| ==> !Less(ms[j], ms[i])
  }

  predicate DistinctKeys(ms: seq<ViewMember>)
  {
    forall i, j :: 0 <= i < j < |ms| ==> ms[i].key != ms[j].key
  }

  predicate Records(index: Index, m: ViewMember)
  {
    m.key in index && index[m.key] == m.rank
  }

  /** The list holds one entry for every key of the index, with the rank the index gives it,
      in order, and nothing else. */
  ghost predicate Lists(ms: seq<ViewMember>, index: Index)
  {
    && Sorted(ms)
    && DistinctKeys(ms)
    && (forall m :: m in ms <==> Records(index, m))
  }

  /** The order in which a view lists its members: those of undefined rank, and then by rank and,
      at the same rank, by key. */
  ghost predicate InOrder(ms: seq<ViewMember>)
  {
    forall i, j :: 0 <= i < j < |ms| && ms[i].rank.Some? ==>
      && ms[j].rank.Some? && ms[i].rank.value <= ms[j].rank.value
      && (ms[i].rank == ms[j].rank ==> InFront(ms[i].key, ms[j].key))
  }

  /** One entry for every key of the index, with its rank, in order, and nothing else. */
  ghost predicate Listing(ms: seq<ViewMember>, index: Index)
  {
    && InOrder(ms)
    && (forall i, j :: 0 <= i < j < |ms| ==> ms[i].key != ms[j].key)
    && (forall m :: m in ms <==> m.key in index && index[m.key] == m.rank)
  }

  lemma ListsInOrder(ms: seq<ViewMember>, index: Index)
    requires Lists(ms, index)
    ensures Listing(ms, index)
  {
    forall i, j | 0 <= i < j < |ms| && ms[i].rank.Some?
      ensures ms[j].rank.Some? && ms[i].rank.value <= ms[j].rank.value
      ensures ms[i].rank == ms[j].rank ==> InFront(ms[i].key, ms[j].key) {
      assert !Less(ms[j], ms[i]);
      KeyLessIsTotal(ms[i].key, ms[j].key);
      KeyLessIff(ms[i].key, ms[j].key);
    }
    forall m ensures m in ms <==> m.key in index && index[m.key] == m.rank {
      assert m in ms <==> Records(index, m);
    }
  }

  lemma InsertSorted(ms: seq<ViewMember>, m: ViewMember)
    requires Sorted(ms)
    ensures Sorted(Insert(ms, m))
  {
    var p := UpperBound(ms, m);
    forall j | p <= j < |ms| ensures !Less(ms[j], m) {
      if Less(ms[j], m) {
        if j == p {
          LessIsStrict(m, ms[p]);
        } else {
          LessIsTransitive(ms[j], m, ms[p]);
        }
      }
    }
  }

  lemma InsertMembership(ms: seq<ViewMember>, m: ViewMember, x: ViewMember)
    ensures x in Insert(ms, m) <==> x in ms || x == m
  {
    assert ms == ms[..UpperBound(ms, m)] + ms[UpperBound(ms, m)..];
  }

  lemma InsertDistinct(ms: seq<ViewMember>, m: ViewMember)
    requires DistinctKeys(ms)
    requires forall x :: x in ms ==> x.key != m.key
    ensures DistinctKeys(Insert(ms, m))
  {
    forall i | 0 <= i < |ms| ensures ms[i].key != m.key {
      assert ms[i] in ms;
    }
  }

  lemma InsertLists(ms: seq<ViewMember>, index: Index, m: ViewMember)
    requires Lists(ms, index) && m.key !in index
    ensures Lists(Insert(ms, m), index[m.key := m.rank])
  {
    InsertSorted(ms, m);
    InsertDistinct(ms, m);
    forall x ensures x in Insert(ms, m) <==> Records(index[m.key := m.rank], x) {
      InsertMembership(ms, m, x);
      assert x in ms <==> Records(index, x);
    }
  }

  lemma EraseAtMembership(ms: seq<ViewMember>, m: ViewMember, x: ViewMember)
    requires DistinctKeys(ms) && m in ms
    ensures x in EraseAt(ms, m) <==> x in ms && x != m
  {
    var p := Find(ms, m);
    var r := EraseAt(ms, m);
    if x in ms && x != m {
      var i :| 0 <= i < |ms| && ms[i] == x;
      assert r[if i < p then i else i - 1] == x;
    }
    if x in r {
      var i :| 0 <= i < |r| && r[i] == x;
      assert x == ms[if i < p then i else i + 1];
    }
  }

  lemma EraseAtOrdered(ms: seq<ViewMember>, m: ViewMember)
    requires Sorted(ms) && DistinctKeys(ms) && m in ms
    ensures Sorted(EraseAt(ms, m)) && DistinctKeys(EraseAt(ms, m))
  {
    var p := Find(ms, m);
    var r := EraseAt(ms, m);
    assert forall i :: 0 <= i < |r| ==> r[i] == ms[if i < p then i else i + 1];
  }

  lemma EraseAtLists(ms: seq<ViewMember>, index: Index, k: string)
    requires Lists(ms, index) && k in index
    ensures Lists(EraseAt(ms, ViewMember(k, index[k])), index - {k})
  {
    var m := ViewMember(k, index[k]);
    assert Records(index, m);
    EraseAtOrdered(ms, m);
    forall x ensures x in EraseAt(ms, m) <==> Records(index - {k}, x) {
      EraseAtMembership(ms, m, x);
      assert x in ms <==> Records(index, x);
    }
  }

  // ---------- erasing by value ----------

  /** The entries equivalent to m are m itself alone. */
  ghost predicate Alone(ms: seq<ViewMember>, m: ViewMember)
  {
    forall x :: x in ms && Equivalent(x, m) ==> x == m
  }

  lemma {:induction false} EraseEquivalentNothing(ms: seq<ViewMember>, m: ViewMember)
    requires forall x :: x in ms ==> !Equivalent(x, m)
    ensures EraseEquivalent(ms, m) == ms
  {
    if ms != [] {
      assert ms[0] in ms;
      EraseEquivalentNothing(ms[1..], m);
    }
  }

  lemma {:induction false} EraseAlone(ms: seq<ViewMember>, m: ViewMember)
    requires DistinctKeys(ms) && m in ms && Alone(ms, m)
    ensures EraseEquivalent(ms, m) == EraseAt(ms, m)
  {
    EquivalentIff(ms[0], m);
    var rest := ms[1..];
    if ms[0] == m {
      forall x | x in rest ensures !Equivalent(x, m) {
        var i :| 0 <= i < |rest| && rest[i] == x;
        assert ms[0].key != ms[i + 1].key;
      }
      EraseEquivalentNothing(rest, m);
    } else {
      assert ms[0] in ms && m in rest;
      AloneInRest(ms, m);
      EraseAlone(rest, m);
    }
  }

  lemma AloneInRest(ms: seq<ViewMember>, m: ViewMember)
    requires DistinctKeys(ms) && ms != [] && Alone(ms, m)
    ensures DistinctKeys(ms[1..]) && Alone(ms[1..], m)
  {
  }

  /** Another entry of undefined rank. */
  ghost predicate HasOtherUndefined(index: Index, k: string)
  {
    exists other :: other in index && other != k && index[other].None?
  }

  /** Erasing by value and inserting again moves the entry of k to its new rank if and only if
      it does not leave an undefined rank that another entry shares. */
  lemma ReorderIff(ms: seq<ViewMember>, index: Index, k: string, rank: Rank)
    requires Lists(ms, index) && k in index
    ensures Lists(Insert(EraseEquivalent(ms, ViewMember(k, index[k])), ViewMember(k, rank)), index[k := rank])
       <==> !(index[k].None? && HasOtherUndefined(index, k))
  {
    var m := ViewMember(k, index[k]);
    assert Records(index, m);
    if index[k].None? && HasOtherUndefined(index, k) {
      var other :| other in index && other != k && index[other].None?;
      LosesOther(ms, index, k, rank, other);
    } else {
      forall x | x in ms && Equivalent(x, m) ensures x == m {
        EquivalentIff(x, m);
        assert Records(index, x);
      }
      EraseAlone(ms, m);
      EraseAtLists(ms, index, k);
      InsertLists(EraseAt(ms, m), index - {k}, ViewMember(k, rank));
      assert (index - {k})[k := rank] == index[k := rank];
    }
  }

  lemma LosesOther(ms: seq<ViewMember>, index: Index, k: string, rank: Rank, other: string)
    requires k in index && index[k].None?
    requires other in index && other != k && index[other].None?
    ensures !Lists(Insert(EraseEquivalent(ms, ViewMember(k, index[k])), ViewMember(k, rank)), index[k := rank])
  {
    var lost := ViewMember(other, index[other]);
    EquivalentIff(lost, ViewMember(k, index[k]));
    InsertMembership(EraseEquivalent(ms, ViewMember(k, index[k])), ViewMember(k, rank), lost);
    assert Records(index[k := rank], lost);
  }
}
