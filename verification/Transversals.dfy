/**
 The mathematics behind the NEGATE / DISTRIB & COMBINE / PRUNE phases of
 BoolTable::GenerateMinimalFalseBVList: the distributed list holds only sets that meet every
 base vector, and below every such set, so its minimal entries are exactly the minimal ones.
 */
module Transversals {
  import opened BoolVectors

  /** Some row of `rows` is TRUE in the base vector. */
  ghost predicate Meets(rows: set<nat>, base: BoolVector)
  {
    exists r :: r in rows && r < |base| && base[r] == TrueValue
  }

  ghost predicate MeetsAll(rows: set<nat>, base: seq<BoolVector>)
  {
    forall t :: 0 <= t < |base| ==> Meets(rows, base[t])
  }

  /** `list` meets all of `base`, and every set that does contains an entry of `list`. */
  ghost predicate IsTransversalList(list: seq<BoolVector>, base: seq<BoolVector>)
  {
    && (forall v :: v in list ==> MeetsAll(TrueRows(v), base))
    && (forall rows {:trigger EntryWithin(list, rows)} :: MeetsAll(rows, base) ==> EntryWithin(list, rows))
  }

  ghost predicate EntryWithin(list: seq<BoolVector>, rows: set<nat>)
  {
    exists v :: v in list && TrueRows(v) <= rows
  }

  /** The vectors of a list, each with a row set to TRUE. */
  function WithRow(list: seq<BoolVector>, r: nat): (next: seq<BoolVector>)
    requires forall k :: 0 <= k < |list| ==> r < |list[k]|
    ensures |next| == |list| && forall k :: 0 <= k < |list| ==> next[k] == list[k][r := TrueValue]
  {
    if list == [] then [] else [list[0][r := TrueValue]] + WithRow(list[1..], r)
  }

  /** These for each of the first i rows that are TRUE in b. */
  function Extended(list: seq<BoolVector>, b: BoolVector, i: nat): seq<BoolVector>
    requires AllOfLength(list, |b|) && i <= |b|
  {
    if i == 0 then []
    else Extended(list, b, i - 1) + if b[i - 1] == TrueValue then WithRow(list, i - 1) else []
  }

  lemma WithRowHolds(list: seq<BoolVector>, r: nat, v: BoolVector)
    requires v in list && forall k :: 0 <= k < |list| ==> r < |list[k]|
    ensures v[r := TrueValue] in WithRow(list, r)
  {
    var k :| 0 <= k < |list| && list[k] == v;
    assert WithRow(list, r)[k] == v[r := TrueValue];
  }

  lemma {:induction false} ExtendedHolds(list: seq<BoolVector>, b: BoolVector, i: nat, v: BoolVector, r: nat)
    requires AllOfLength(list, |b|) && v in list && r < i <= |b| && b[r] == TrueValue
    ensures v[r := TrueValue] in Extended(list, b, i)
  {
    if r == i - 1 {
      WithRowHolds(list, r, v);
    } else {
      ExtendedHolds(list, b, i - 1, v, r);
    }
  }

  ghost predicate IsExtension(w: BoolVector, list: seq<BoolVector>, b: BoolVector)
    requires AllOfLength(list, |b|)
  {
    exists v, r :: v in list && 0 <= r < |b| && b[r] == TrueValue && w == v[r := TrueValue]
  }

  lemma {:induction false} ExtendedOnly(list: seq<BoolVector>, b: BoolVector, i: nat, w: BoolVector)
    requires AllOfLength(list, |b|) && i <= |b| && w in Extended(list, b, i)
    ensures IsExtension(w, list, b) && |w| == |b|
  {
    if w in Extended(list, b, i - 1) {
      ExtendedOnly(list, b, i - 1, w);
    } else {
      var k :| 0 <= k < |list| && WithRow(list, i - 1)[k] == w;
      assert list[k] in list && w == list[k][i - 1 := TrueValue];
    }
  }

  function AllFalse(n: nat): (v: BoolVector)
    ensures |v| == n && TrueRows(v) == {}
  {
    seq(n, i => FalseValue)
  }

  lemma AddedRow(v: BoolVector, r: nat)
    requires r < |v|
    ensures TrueRows(v[r := TrueValue]) == TrueRows(v) + {r}
  {
  }

  lemma ExtensionMeetsAll(list: seq<BoolVector>, base: seq<BoolVector>, b: BoolVector, w: BoolVector)
    requires AllOfLength(list, |b|) && IsExtension(w, list, b)
    requires forall v :: v in list ==> MeetsAll(TrueRows(v), base)
    ensures MeetsAll(TrueRows(w), base + [b])
  {
    var v, r :| v in list && 0 <= r < |b| && b[r] == TrueValue && w == v[r := TrueValue];
    AddedRow(v, r);
    forall t | 0 <= t < |base + [b]| ensures Meets(TrueRows(w), (base + [b])[t]) {
      if t < |base| {
        assert Meets(TrueRows(v), base[t]);
      } else {
        assert r in TrueRows(w);
      }
    }
  }

  lemma DistributedEntryWithin(list: seq<BoolVector>, base: seq<BoolVector>, b: BoolVector, rows: set<nat>)
    requires AllOfLength(list, |b|)
    requires MeetsAll(rows, base) ==> EntryWithin(list, rows)
    requires MeetsAll(rows, base + [b])
    ensures EntryWithin(Extended(list, b, |b|), rows)
  {
    forall t | 0 <= t < |base| ensures Meets(rows, base[t]) {
      assert (base + [b])[t] == base[t];
    }
    assert Meets(rows, (base + [b])[|base|]);
    var v :| v in list && TrueRows(v) <= rows;
    EntryExtended(list, b, v, rows);
  }

  lemma EntryExtended(list: seq<BoolVector>, b: BoolVector, v: BoolVector, rows: set<nat>)
    requires AllOfLength(list, |b|) && v in list && TrueRows(v) <= rows && Meets(rows, b)
    ensures EntryWithin(Extended(list, b, |b|), rows)
  {
    var r :| r in rows && r < |b| && b[r] == TrueValue;
    AddedRow(v, r);
    ExtendedHolds(list, b, |b|, v, r);
  }

  /** One round of the distribution carries the characterisation to one more base vector. */
  lemma DistributeStep(list: seq<BoolVector>, base: seq<BoolVector>, b: BoolVector)
    requires AllOfLength(list, |b|) && IsTransversalList(list, base)
    ensures AllOfLength(Extended(list, b, |b|), |b|) && IsTransversalList(Extended(list, b, |b|), base + [b])
  {
    var next := Extended(list, b, |b|);
    forall w | w in next ensures |w| == |b| && MeetsAll(TrueRows(w), base + [b]) {
      ExtendedOnly(list, b, |b|, w);
      ExtensionMeetsAll(list, base, b, w);
    }
    forall rows | MeetsAll(rows, base + [b]) ensures EntryWithin(next, rows) {
      assert MeetsAll(rows, base) ==> EntryWithin(list, rows);
      DistributedEntryWithin(list, base, b, rows);
    }
  }

  /** Before any round the empty set is the one transversal. */
  lemma NoBaseTransversal(n: nat)
    ensures IsTransversalList([AllFalse(n)], [])
  {
    forall rows: set<nat> | MeetsAll(rows, []) ensures EntryWithin([AllFalse(n)], rows) {
      assert AllFalse(n) in [AllFalse(n)];
    }
  }

  ghost predicate HasTrue(v: BoolVector)
  {
    exists r :: 0 <= r < |v| && v[r] == TrueValue
  }

  /** When every base vector has a TRUE row, the list is not empty: a round that starts from an
      empty list is the first round. */
  lemma TransversalListNonEmpty(list: seq<BoolVector>, base: seq<BoolVector>, n: nat)
    requires IsTransversalList(list, base) && AllOfLength(base, n)
    requires forall t :: 0 <= t < |base| ==> HasTrue(base[t])
    ensures list != []
  {
    var rows := TrueRows(seq(n, i => TrueValue));
    forall t | 0 <= t < |base| ensures Meets(rows, base[t]) {
      assert base[t] in base;
      var r :| 0 <= r < |base[t]| && base[t][r] == TrueValue;
      assert r in rows;
    }
    assert EntryWithin(list, rows);
  }

  ghost predicate IsMinimalTransversal(rows: set<nat>, base: seq<BoolVector>)
  {
    MeetsAll(rows, base) && forall smaller :: smaller < rows ==> !MeetsAll(smaller, base)
  }

  /** The minimal entries of a transversal list are exactly the minimal transversals. */
  lemma PrunedTransversals(list: seq<BoolVector>, base: seq<BoolVector>, n: nat, pruned: seq<BoolVector>, rows: set<nat>)
    requires IsTransversalList(list, base) && AllOfLength(list, n)
    requires Antichain(pruned) && AllOfLength(pruned, n)
    requires forall v :: v in pruned ==> v in list
    requires forall v :: v in list ==> HasSubset(v, pruned)
    ensures (exists v :: v in pruned && TrueRows(v) == rows) <==> IsMinimalTransversal(rows, base)
  {
    if v :| v in pruned && TrueRows(v) == rows {
      forall smaller | smaller < rows ensures !MeetsAll(smaller, base) {
        if MeetsAll(smaller, base) {
          var w := PrunedBelow(list, base, n, pruned, smaller);
          TrueSubsetIsRowSubset(w, v);
          assert false;
        }
      }
    }
    if IsMinimalTransversal(rows, base) {
      var w := PrunedBelow(list, base, n, pruned, rows);
      assert MeetsAll(TrueRows(w), base);
      assert !(TrueRows(w) < rows);
    }
  }

  lemma PrunedBelow(list: seq<BoolVector>, base: seq<BoolVector>, n: nat, pruned: seq<BoolVector>, rows: set<nat>)
    returns (w: BoolVector)
    requires IsTransversalList(list, base) && AllOfLength(list, n) && AllOfLength(pruned, n)
    requires forall v :: v in list ==> HasSubset(v, pruned)
    requires MeetsAll(rows, base)
    ensures w in pruned && TrueRows(w) <= rows
  {
    assert EntryWithin(list, rows);
    var v :| v in list && TrueRows(v) <= rows;
    w :| w in pruned && TrueSubset(w, v);
    TrueSubsetIsRowSubset(w, v);
  }
}
