/**
 The truth vectors of the requirements analysis (src/classad_analysis/boolValue.cpp):
 subset tests on the TRUE positions, and the two list-building loops that keep only the
 maximal or only the minimal vectors.
 A `List` with a scan pointer is a sequence and an index; `DeleteCurrent` drops the element
 at the index and leaves the index on the element that followed it.
 */
module BoolVectors {

  datatype BoolValue = TrueValue | FalseValue | UndefinedValue | ErrorValue

  type BoolVector = seq<BoolValue>

  /** The rows at which a vector is TRUE. */
  function TrueRows(v: BoolVector): (rows: set<nat>)
  {
    set r: nat | r < |v| && v[r] == TrueValue
  }

  /** Same length, and every TRUE position of `a` is TRUE in `b`. */
  predicate TrueSubset(a: BoolVector, b: BoolVector)
  {
    |a| == |b| && forall i :: 0 <= i < |a| && a[i] == TrueValue ==> b[i] == TrueValue
  }

  lemma TrueSubsetIsRowSubset(a: BoolVector, b: BoolVector)
    requires |a| == |b|
    ensures TrueSubset(a, b) <==> TrueRows(a) <= TrueRows(b)
  {
    if TrueRows(a) <= TrueRows(b) {
      forall i | 0 <= i < |a| && a[i] == TrueValue ensures b[i] == TrueValue {
        assert i in TrueRows(a);
      }
    }
  }

  /** BoolVector::IsTrueSubsetOf gives no answer (`ok` false) for vectors of different length. */
  method IsTrueSubsetOf(a: BoolVector, b: BoolVector) returns (ok: bool, result: bool)
    ensures ok == (|a| == |b|)
    ensures ok ==> (result <==> TrueRows(a) <= TrueRows(b))
  {
    result := false;
    ok := |a| == |b|;
    if !ok {
      return;
    }
    TrueSubsetIsRowSubset(a, b);
    for i := 0 to |a|
      invariant forall j :: 0 <= j < i && a[j] == TrueValue ==> b[j] == TrueValue
    {
      if a[i] == TrueValue && b[i] != TrueValue {
        return;
      }
    }
    result := true;
  }

  ghost predicate AllOfLength(list: seq<BoolVector>, n: nat)
  {
    forall v :: v in list ==> |v| == n
  }

  /** No vector's TRUE set lies inside that of another entry, equal ones included. */
  ghost predicate Antichain(list: seq<BoolVector>)
  {
    forall i, j :: 0 <= i < |list| && 0 <= j < |list| && i != j ==> !TrueSubset(list[i], list[j])
  }

  ghost predicate HasSuperset(v: BoolVector, list: seq<BoolVector>)
  {
    exists w :: w in list && TrueSubset(v, w)
  }

  ghost predicate HasSubset(v: BoolVector, list: seq<BoolVector>)
  {
    exists w :: w in list && TrueSubset(w, v)
  }

  lemma AntichainAfterRemoval(list: seq<BoolVector>, k: nat)
    requires k < |list| && Antichain(list)
    ensures Antichain(list[..k] + list[k + 1..])
  {
    var rest := list[..k] + list[k + 1..];
    forall i, j | 0 <= i < |rest| && 0 <= j < |rest| && i != j
      ensures !TrueSubset(rest[i], rest[j])
    {
      var i', j' := if i < k then i else i + 1, if j < k then j else j + 1;
      assert rest[i] == list[i'] && rest[j] == list[j'];
    }
  }

  /** One scan of the maximal-list loop: `v` joins unless it lies inside an entry, and evicts
      the entries that lie inside it. */
  method AddMaximal(list: seq<BoolVector>, v: BoolVector) returns (result: seq<BoolVector>)
    requires Antichain(list) && AllOfLength(list, |v|)
    ensures Antichain(result) && AllOfLength(result, |v|)
    ensures forall w :: w in result ==> w in list || w == v
    ensures forall w :: w in list || w == v ==> HasSuperset(w, result)
  {
    result := list;
    var k, addBV := 0, true;
    while k < |result|
      invariant 0 <= k <= |result|
      invariant Antichain(result) && addBV
      invariant forall w :: w in result ==> w in list
      invariant forall w :: w in list ==> w in result || TrueSubset(w, v)
      invariant forall i :: 0 <= i < k ==> !TrueSubset(v, result[i]) && !TrueSubset(result[i], v)
      decreases |result| - k
    {
      assert result[k] in list;
      TrueSubsetIsRowSubset(v, result[k]);
      TrueSubsetIsRowSubset(result[k], v);
      var ok, isSubset := IsTrueSubsetOf(v, result[k]);
      if isSubset {
        addBV := false;
        break;
      }
      ok, isSubset := IsTrueSubsetOf(result[k], v);
      if isSubset {
        AntichainAfterRemoval(result, k);
        result := result[..k] + result[k + 1..];
      } else {
        k := k + 1;
      }
    }
    if addBV {
      forall w | w in list || w == v ensures HasSuperset(w, result + [v]) {
        assert v in result + [v] && TrueSubset(v, v);
        assert w in result ==> w in result + [v] && TrueSubset(w, w);
      }
      result := result + [v];
    } else {
      assert result[k] in result;
      forall w | w in list || w == v ensures HasSuperset(w, result) {
        assert w in result ==> TrueSubset(w, w);
      }
    }
  }

  /** One scan of the pruning loop: the mirror image of `AddMaximal`. */
  method AddMinimal(list: seq<BoolVector>, v: BoolVector) returns (result: seq<BoolVector>)
    requires Antichain(list) && AllOfLength(list, |v|)
    ensures Antichain(result) && AllOfLength(result, |v|)
    ensures forall w :: w in result ==> w in list || w == v
    ensures forall w :: w in list || w == v ==> HasSubset(w, result)
  {
    result := list;
    var k, addBV := 0, true;
    while k < |result|
      invariant 0 <= k <= |result|
      invariant Antichain(result) && addBV
      invariant forall w :: w in result ==> w in list
      invariant forall w :: w in list ==> w in result || TrueSubset(v, w)
      invariant forall i :: 0 <= i < k ==> !TrueSubset(v, result[i]) && !TrueSubset(result[i], v)
      decreases |result| - k
    {
      assert result[k] in list;
      TrueSubsetIsRowSubset(v, result[k]);
      TrueSubsetIsRowSubset(result[k], v);
      var ok, isSubset := IsTrueSubsetOf(result[k], v);
      if isSubset {
        addBV := false;
        break;
      }
      ok, isSubset := IsTrueSubsetOf(v, result[k]);
      if isSubset {
        AntichainAfterRemoval(result, k);
        result := result[..k] + result[k + 1..];
      } else {
        k := k + 1;
      }
    }
    if addBV {
      forall w | w in list || w == v ensures HasSubset(w, result + [v]) {
        assert v in result + [v] && TrueSubset(v, v);
        assert w in result ==> w in result + [v] && TrueSubset(w, w);
      }
      result := result + [v];
    } else {
      assert result[k] in result;
      forall w | w in list || w == v ensures HasSubset(w, result) {
        assert w in result ==> TrueSubset(w, w);
      }
    }
  }
}
