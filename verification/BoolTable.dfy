/**
 BoolTable (src/classad_analysis/boolValue.cpp): one column per machine, one row per
 condition. From the table the analysis derives the maximal sets of conditions some machine
 satisfies, and every minimal set of conditions that no machine satisfies together.
 */
module BoolTables {
  import opened BoolVectors
  import opened Transversals

  datatype AnnotatedBoolVector = AnnotatedBoolVector(values: BoolVector, contexts: seq<bool>, frequency: int)

  /** Every column has a row of `rows` at which it is not TRUE. */
  ghost predicate Conflicts(rows: set<nat>, columns: seq<BoolVector>)
  {
    forall c :: 0 <= c < |columns| ==> FailsSome(rows, columns[c])
  }

  ghost predicate FailsSome(rows: set<nat>, column: BoolVector)
  {
    exists r :: r in rows && r < |column| && column[r] != TrueValue
  }

  ghost predicate MinimalConflict(rows: set<nat>, columns: seq<BoolVector>)
  {
    Conflicts(rows, columns) && forall smaller :: smaller < rows ==> !Conflicts(smaller, columns)
  }

  function Negated(v: BoolVector): (n: BoolVector)
  {
    seq(|v|, i requires 0 <= i < |v| => if v[i] == TrueValue then FalseValue else TrueValue)
  }

  /** `maximal` holds columns only, none inside another, and one above every column. */
  ghost predicate MaximalColumns(maximal: seq<BoolVector>, columns: seq<BoolVector>)
  {
    && Antichain(maximal)
    && (forall v :: v in maximal ==> v in columns)
    && (forall v :: v in columns ==> HasSuperset(v, maximal))
  }

  /** Meeting the negations of the maximal columns is conflicting with all columns. */
  lemma ConflictsByMaximal(rows: set<nat>, columns: seq<BoolVector>, maximal: seq<BoolVector>, base: seq<BoolVector>)
    requires MaximalColumns(maximal, columns)
    requires |base| == |maximal| && forall t :: 0 <= t < |base| ==> base[t] == Negated(maximal[t])
    ensures Conflicts(rows, columns) <==> MeetsAll(rows, base)
  {
    if Conflicts(rows, columns) {
      forall t | 0 <= t < |base| ensures Meets(rows, base[t]) {
        assert maximal[t] in columns;
        var c :| 0 <= c < |columns| && columns[c] == maximal[t];
        assert FailsSome(rows, columns[c]);
        var r :| r in rows && r < |maximal[t]| && maximal[t][r] != TrueValue;
        assert base[t][r] == TrueValue;
      }
    }
    if MeetsAll(rows, base) {
      forall c | 0 <= c < |columns| ensures FailsSome(rows, columns[c]) {
        assert columns[c] in columns;
        var w :| w in maximal && TrueSubset(columns[c], w);
        var t :| 0 <= t < |maximal| && maximal[t] == w;
        assert Meets(rows, base[t]);
      }
    }
  }

  lemma MinimalConflictsByMaximal(columns: seq<BoolVector>, maximal: seq<BoolVector>, base: seq<BoolVector>)
    requires MaximalColumns(maximal, columns)
    requires |base| == |maximal| && forall t :: 0 <= t < |base| ==> base[t] == Negated(maximal[t])
    ensures forall rows :: MinimalConflict(rows, columns) <==> IsMinimalTransversal(rows, base)
  {
    forall rows ensures Conflicts(rows, columns) <==> MeetsAll(rows, base) {
      ConflictsByMaximal(rows, columns, maximal, base);
    }
  }

  /** An all-TRUE column is above every other one, so it can only stand alone among the
      maximal columns: with two of them, each has a row that is not TRUE. */
  lemma MaximalColumnsHaveFailures(maximal: seq<BoolVector>, n: nat, t: nat)
    requires Antichain(maximal) && AllOfLength(maximal, n)
    requires |maximal| >= 2 && t < |maximal|
    ensures HasTrue(Negated(maximal[t]))
  {
    var other := if t == 0 then 1 else 0;
    assert maximal[t] in maximal && maximal[other] in maximal;
    assert !TrueSubset(maximal[other], maximal[t]);
    var r :| 0 <= r < n && maximal[other][r] == TrueValue && maximal[t][r] != TrueValue;
    assert Negated(maximal[t])[r] == TrueValue;
  }

  method Negate(v: BoolVector) returns (n: BoolVector)
    ensures n == Negated(v)
  {
    n := v;
    for i := 0 to |v|
      invariant |n| == |v|
      invariant forall j :: 0 <= j < i ==> n[j] == Negated(v)[j]
      invariant forall j :: i <= j < |v| ==> n[j] == v[j]
    {
      if n[i] == TrueValue {
        n := n[i := FalseValue];
      } else {
        n := n[i := TrueValue];
      }
    }
  }

  /** The rows of one base vector distributed over the list so far. An empty list stands for
      "first round": the vectors are then the singletons. */
  method Distribute(oldList: seq<BoolVector>, baseBV: BoolVector) returns (next: seq<BoolVector>)
    requires AllOfLength(oldList, |baseBV|)
    ensures next == Extended(if oldList == [] then [AllFalse(|baseBV|)] else oldList, baseBV, |baseBV|)
  {
    ghost var list := if oldList == [] then [AllFalse(|baseBV|)] else oldList;
    next := [];
    for i := 0 to |baseBV|
      invariant next == Extended(list, baseBV, i)
    {
      if baseBV[i] == TrueValue {
        if oldList == [] {
          var newBV := Singleton(|baseBV|, i);
          assert WithRow(list, i) == [newBV];
          next := next + [newBV];
        } else {
          next := AddRow(next, oldList, i);
        }
      }
    }
  }

  method AddRow(before: seq<BoolVector>, oldList: seq<BoolVector>, i: nat) returns (next: seq<BoolVector>)
    requires forall k :: 0 <= k < |oldList| ==> i < |oldList[k]|
    ensures next == before + WithRow(oldList, i)
  {
    next := before;
    ghost var all := WithRow(oldList, i);
    for k := 0 to |oldList|
      invariant next == before + all[..k]
    {
      assert all[..k + 1] == all[..k] + [oldList[k][i := TrueValue]];
      next := next + [oldList[k][i := TrueValue]];
    }
    assert all[..|oldList|] == all;
  }

  method Singleton(n: nat, i: nat) returns (v: BoolVector)
    requires i < n
    ensures v == AllFalse(n)[i := TrueValue]
  {
    v := [];
    for j := 0 to n
      invariant |v| == j
      invariant forall k :: 0 <= k < j ==> v[k] == if k == i then TrueValue else FalseValue
    {
      v := v + [if i == j then TrueValue else FalseValue];
    }
  }

  function Sum(s: seq<int>): int
  {
    if s == [] then 0 else s[0] + Sum(s[1..])
  }

  lemma {:induction false} SumAfterIncrement(s: seq<int>, k: nat)
    requires k < |s|
    ensures Sum(s[k := s[k] + 1]) == Sum(s) + 1
  {
    if k > 0 {
      assert s[k := s[k] + 1][1..] == s[1..][k - 1 := s[1..][k - 1] + 1];
      SumAfterIncrement(s[1..], k - 1);
    } else {
      assert s[k := s[k] + 1][1..] == s[1..];
    }
  }

  /** The columns at which a row is TRUE. */
  ghost function TrueColumns(columns: seq<BoolVector>, r: nat): (cs: set<nat>)
  {
    set c: nat | c < |columns| && r < |columns[c]| && columns[c][r] == TrueValue
  }

  /** The running totals count the TRUE cells. */
  ghost predicate ExactTotals(columns: seq<BoolVector>, numRows: nat, colTotals: seq<int>, rowTotals: seq<int>)
  {
    && AllOfLength(columns, numRows) && |colTotals| == |columns| && |rowTotals| == numRows
    && (forall c :: 0 <= c < |columns| ==> colTotals[c] == |TrueRows(columns[c])|)
    && (forall r: nat :: r < numRows ==> rowTotals[r] == |TrueColumns(columns, r)|)
  }

  function One(b: bool): int
  {
    if b then 1 else 0
  }

  lemma RowCountAfterSet(v: BoolVector, row: nat, bval: BoolValue)
    requires row < |v|
    ensures |TrueRows(v[row := bval])| == |TrueRows(v)| - One(v[row] == TrueValue) + One(bval == TrueValue)
  {
    var rest := TrueRows(v) - {row};
    assert TrueRows(v) == if v[row] == TrueValue then rest + {row} else rest;
    assert TrueRows(v[row := bval]) == if bval == TrueValue then rest + {row} else rest;
  }

  lemma ColumnCountAfterSet(columns: seq<BoolVector>, col: nat, row: nat, bval: BoolValue)
    requires col < |columns| && row < |columns[col]|
    ensures |TrueColumns(columns[col := columns[col][row := bval]], row)|
      == |TrueColumns(columns, row)| - One(columns[col][row] == TrueValue) + One(bval == TrueValue)
  {
    var rest := TrueColumns(columns, row) - {col};
    var after := columns[col := columns[col][row := bval]];
    forall c: nat | c != col ensures c in TrueColumns(after, row) <==> c in rest {}
    assert TrueColumns(columns, row) == if columns[col][row] == TrueValue then rest + {col} else rest;
    assert TrueColumns(after, row) == if bval == TrueValue then rest + {col} else rest;
  }

  /** Storing into a cell keeps the totals exact if and only if the cell was not TRUE: a second
      TRUE is counted twice and a withdrawn TRUE is never subtracted. */
  lemma TotalsAfterSet(columns: seq<BoolVector>, numRows: nat, colTotals: seq<int>, rowTotals: seq<int>,
                       col: nat, row: nat, bval: BoolValue)
    requires ExactTotals(columns, numRows, colTotals, rowTotals)
    requires col < |columns| && row < numRows && |columns[col]| == numRows
    ensures
      ExactTotals(columns[col := columns[col][row := bval]], numRows,
                  colTotals[col := colTotals[col] + One(bval == TrueValue)],
                  rowTotals[row := rowTotals[row] + One(bval == TrueValue)])
      <==> columns[col][row] != TrueValue
  {
    var after := columns[col := columns[col][row := bval]];
    forall v | v in after ensures |v| == numRows {
      var c :| 0 <= c < |after| && v == after[c];
      assert columns[c] in columns;
    }
    RowCountAfterSet(columns[col], row, bval);
    ColumnCountAfterSet(columns, col, row, bval);
    forall r: nat | r < numRows && r != row ensures TrueColumns(after, r) == TrueColumns(columns, r) {}
    assert after[col] == columns[col][row := bval];
  }

  // ---------- totals over a run of stores ----------

  datatype Cell = Cell(col: int, row: int, bval: BoolValue)

  /** The columns of a table and its running totals. */
  datatype Sheet = Sheet(columns: seq<BoolVector>, numRows: nat, colTotals: seq<int>, rowTotals: seq<int>)
  {
    ghost predicate Sized()
    {
      AllOfLength(columns, numRows) && |colTotals| == |columns| && |rowTotals| == numRows
    }

    ghost predicate Exact()
    {
      ExactTotals(columns, numRows, colTotals, rowTotals)
    }

    predicate InRange(c: Cell)
    {
      0 <= c.col < |columns| && 0 <= c.row < numRows
    }
  }

  lemma StoreSized(sheet: Sheet, c: Cell)
    requires sheet.Sized() && sheet.InRange(c)
    ensures |sheet.columns[c.col]| == sheet.numRows
    ensures AllOfLength(sheet.columns[c.col := sheet.columns[c.col][c.row := c.bval]], sheet.numRows)
  {
    assert sheet.columns[c.col] in sheet.columns;
    var after := sheet.columns[c.col := sheet.columns[c.col][c.row := c.bval]];
    forall v | v in after ensures |v| == sheet.numRows {
      var d :| 0 <= d < |after| && v == after[d];
      assert sheet.columns[d] in sheet.columns;
    }
  }

  /** One store; outside the table nothing happens. */
  ghost function Store(sheet: Sheet, c: Cell): (after: Sheet)
    requires sheet.Sized()
    ensures after.Sized()
  {
    if !sheet.InRange(c) then sheet
    else
      StoreSized(sheet, c);
      sheet.(columns := sheet.columns[c.col := sheet.columns[c.col][c.row := c.bval]],
             colTotals := sheet.colTotals[c.col := sheet.colTotals[c.col] + One(c.bval == TrueValue)],
             rowTotals := sheet.rowTotals[c.row := sheet.rowTotals[c.row] + One(c.bval == TrueValue)])
  }

  ghost predicate OverwritesTrue(sheet: Sheet, c: Cell)
    requires sheet.Sized()
  {
    sheet.InRange(c) && (StoreSized(sheet, c); sheet.columns[c.col][c.row] == TrueValue)
  }

  ghost function StoreAll(sheet: Sheet, cells: seq<Cell>): (after: Sheet)
    requires sheet.Sized()
    ensures after.Sized()
    decreases |cells|
  {
    if cells == [] then sheet else StoreAll(Store(sheet, cells[0]), cells[1..])
  }

  ghost predicate SomeOverwritesTrue(sheet: Sheet, cells: seq<Cell>)
    requires sheet.Sized()
    decreases |cells|
  {
    cells != [] && (OverwritesTrue(sheet, cells[0]) || SomeOverwritesTrue(Store(sheet, cells[0]), cells[1..]))
  }

  /** A column total above the number of TRUE cells. */
  ghost predicate Overcounts(sheet: Sheet, c: nat)
    requires sheet.Sized()
  {
    c < |sheet.columns| && sheet.colTotals[c] > |TrueRows(sheet.columns[c])|
  }

  /** What is counted too often stays so. */
  lemma {:induction false} OvercountStays(sheet: Sheet, cells: seq<Cell>, c: nat)
    requires sheet.Sized() && Overcounts(sheet, c)
    ensures Overcounts(StoreAll(sheet, cells), c)
    decreases |cells|
  {
    if cells != [] {
      var cell := cells[0];
      if sheet.InRange(cell) && cell.col == c {
        StoreSized(sheet, cell);
        RowCountAfterSet(sheet.columns[c], cell.row, cell.bval);
      }
      OvercountStays(Store(sheet, cell), cells[1..], c);
    }
  }

  /** After any run of stores the totals count the TRUE cells if and only if no store hit a cell
      that was TRUE. */
  lemma {:induction false} TotalsAfterRun(sheet: Sheet, cells: seq<Cell>)
    requires sheet.Exact()
    ensures StoreAll(sheet, cells).Exact() <==> !SomeOverwritesTrue(sheet, cells)
    decreases |cells|
  {
    if cells != [] {
      var c := cells[0];
      var next := Store(sheet, c);
      if sheet.InRange(c) {
        StoreSized(sheet, c);
        TotalsAfterSet(sheet.columns, sheet.numRows, sheet.colTotals, sheet.rowTotals, c.col, c.row, c.bval);
      }
      if OverwritesTrue(sheet, c) {
        RowCountAfterSet(sheet.columns[c.col], c.row, c.bval);
        assert Overcounts(next, c.col);
        OvercountStays(next, cells[1..], c.col);
      } else {
        TotalsAfterRun(next, cells[1..]);
      }
    }
  }

  /** Two columns of two conditions, both TRUE in the second column. Storing TRUE twice in one
      cell of the first column gives the two columns the same total. */
  lemma RepeatedTrueMisleads()
    ensures
      var start := Sheet([[FalseValue, FalseValue], [TrueValue, TrueValue]], 2, [0, 2], [1, 1]);
      var after := StoreAll(start, [Cell(0, 0, TrueValue), Cell(0, 0, TrueValue)]);
      && start.Exact() && after.colTotals == [2, 2] && IsMaximum(2, after.colTotals)
      && |TrueRows(after.columns[0])| == 1 && |TrueRows(after.columns[1])| == 2
  {
    var f, t := FalseValue, TrueValue;
    var s0 := Sheet([[f, f], [t, t]], 2, [0, 2], [1, 1]);
    var s1 := Sheet([[t, f], [t, t]], 2, [1, 2], [2, 1]);
    var s2 := Sheet([[t, f], [t, t]], 2, [2, 2], [3, 1]);
    RowsOfTwo();
    assert TrueColumns(s0.columns, 0) == {1} && TrueColumns(s0.columns, 1) == {1};
    StoreTrue(s0, 0, 0, s1);
    StoreTrue(s1, 0, 0, s2);
    assert [Cell(0, 0, t), Cell(0, 0, t)][1..] == [Cell(0, 0, t)];
    assert StoreAll(s1, [Cell(0, 0, t)]) == s2;
  }

  lemma RowsOfTwo()
    ensures TrueRows([FalseValue, FalseValue]) == {}
    ensures TrueRows([TrueValue, FalseValue]) == {0}
    ensures TrueRows([TrueValue, TrueValue]) == {0, 1}
  {
  }

  lemma StoreTrue(sheet: Sheet, col: nat, row: nat, after: Sheet)
    requires sheet.Sized() && after.Sized() && sheet.InRange(Cell(col, row, TrueValue))
    requires |after.columns| == |sheet.columns| && after.numRows == sheet.numRows
    requires forall c :: 0 <= c < |sheet.columns| && c != col ==> after.columns[c] == sheet.columns[c]
    requires |after.columns[col]| == |sheet.columns[col]| == sheet.numRows
    requires forall r :: 0 <= r < sheet.numRows ==>
      after.columns[col][r] == if r == row then TrueValue else sheet.columns[col][r]
    requires after.colTotals == sheet.colTotals[col := sheet.colTotals[col] + 1]
    requires after.rowTotals == sheet.rowTotals[row := sheet.rowTotals[row] + 1]
    ensures Store(sheet, Cell(col, row, TrueValue)) == after
  {
    var c := Cell(col, row, TrueValue);
    assert after.columns[col] == sheet.columns[col][row := TrueValue];
    assert after.columns == sheet.columns[col := sheet.columns[col][row := TrueValue]];
  }

  /** The columns of a new table. */
  function NoneTrue(cols: nat, rows: nat): (columns: seq<BoolVector>)
    ensures |columns| == cols && forall c :: 0 <= c < cols ==> columns[c] == AllFalse(rows)
  {
    seq(cols, _ => AllFalse(rows))
  }

  lemma ZeroTotals(columns: seq<BoolVector>, rows: nat, cols: seq<int>, rowTotals: seq<int>)
    requires |cols| == |columns| && |rowTotals| == rows
    requires forall i :: 0 <= i < |cols| ==> cols[i] == 0
    requires forall i :: 0 <= i < rows ==> rowTotals[i] == 0
    requires forall c :: 0 <= c < |columns| ==> columns[c] == AllFalse(rows)
    ensures ExactTotals(columns, rows, cols, rowTotals) && Sum(cols) == Sum(rowTotals)
  {
    SumOfZeros(cols);
    SumOfZeros(rowTotals);
    forall c | 0 <= c < |columns| ensures TrueRows(columns[c]) == {} {}
    forall r: nat | r < rows ensures TrueColumns(columns, r) == {} {}
  }

  class BoolTable {
    var initialized: bool
    var numCols: nat
    var numRows: nat
    var colTotalTrue: array<int>
    var rowTotalTrue: array<int>
    var table: array2<BoolValue>

    // the table column by column
    ghost var columns: seq<BoolVector>

    ghost predicate Valid()
      reads this, table
    {
      && table.Length0 == numCols && table.Length1 == numRows
      && colTotalTrue.Length == numCols && rowTotalTrue.Length == numRows
      && colTotalTrue != rowTotalTrue
      && (!initialized ==> numCols == 0)
      && |columns| == numCols
      && (forall c :: 0 <= c < numCols ==> |columns[c]| == numRows)
      && (forall c, r :: 0 <= c < numCols && 0 <= r < numRows ==> columns[c][r] == table[c, r])
    }

    /** The table and its totals as a value. */
    ghost function AsSheet(): (sheet: Sheet)
      requires Valid()
      reads this, table, colTotalTrue, rowTotalTrue
      ensures sheet.Sized()
    {
      Sheet(columns, numRows, colTotalTrue[..], rowTotalTrue[..])
    }

    ghost predicate HasExactTotals()
      requires Valid()
      reads this, table, colTotalTrue, rowTotalTrue
    {
      ExactTotals(columns, numRows, colTotalTrue[..], rowTotalTrue[..])
    }

    ghost predicate BalancedTotals()
      reads this, colTotalTrue, rowTotalTrue
    {
      Sum(colTotalTrue[..]) == Sum(rowTotalTrue[..])
    }

    constructor ()
      ensures Valid() && !initialized && BalancedTotals() && HasExactTotals()
    {
      initialized, numCols, numRows := false, 0, 0;
      colTotalTrue, rowTotalTrue := new int[0], new int[0];
      table := new BoolValue[0, 0];
      columns := [];
    }

    method Init(cols: nat, rows: nat)
      modifies this
      ensures Valid() && initialized && numCols == cols && numRows == rows
      ensures fresh(table) && fresh(colTotalTrue) && fresh(rowTotalTrue)
      ensures forall c, r :: 0 <= c < cols && 0 <= r < rows ==> table[c, r] == FalseValue
      ensures BalancedTotals() && HasExactTotals()
    {
      numCols, numRows := cols, rows;
      colTotalTrue, rowTotalTrue := new int[cols](_ => 0), new int[rows](_ => 0);
      table := new BoolValue[cols, rows]((_, _) => FalseValue);
      initialized := true;
      columns := NoneTrue(cols, rows);
      ZeroTotals(columns, rows, colTotalTrue[..], rowTotalTrue[..]);
    }

    /** Row and column totals keep equal sums whatever is stored; they keep counting the TRUE
        cells exactly when the overwritten cell was not TRUE. */
    method SetValue(col: int, row: int, bval: BoolValue) returns (ok: bool)
      requires Valid()
      modifies this`columns, table, colTotalTrue, rowTotalTrue
      ensures Valid()
      ensures ok == (initialized && 0 <= col < numCols && 0 <= row < numRows)
      ensures !ok ==> unchanged(table) && unchanged(colTotalTrue) && unchanged(rowTotalTrue) && unchanged(this)
      ensures forall c, r :: 0 <= c < numCols && 0 <= r < numRows ==>
        table[c, r] == if ok && c == col && r == row then bval else old(table[c, r])
      ensures table == old(table) && colTotalTrue == old(colTotalTrue) && rowTotalTrue == old(rowTotalTrue)
      ensures ok ==> colTotalTrue[..] == old(colTotalTrue[..])[col := old(colTotalTrue[col]) + One(bval == TrueValue)]
      ensures ok ==> rowTotalTrue[..] == old(rowTotalTrue[..])[row := old(rowTotalTrue[row]) + One(bval == TrueValue)]
      ensures AsSheet() == Store(old(AsSheet()), Cell(col, row, bval))
      ensures old(BalancedTotals()) ==> BalancedTotals()
      ensures ok && old(HasExactTotals()) ==> (HasExactTotals() <==> old(table[col, row]) != TrueValue)
    {
      if !initialized || col >= numCols || row >= numRows || col < 0 || row < 0 {
        return false;
      }
      ghost var before := columns;
      StoreCell(col, row, bval);
      if old(HasExactTotals()) {
        TotalsAfterSet(before, numRows, old(colTotalTrue[..]), old(rowTotalTrue[..]), col, row, bval);
      }
      return true;
    }

    method StoreCell(col: nat, row: nat, bval: BoolValue)
      requires Valid() && col < numCols && row < numRows
      modifies this`columns, table, colTotalTrue, rowTotalTrue
      ensures Valid()
      ensures forall c, r :: 0 <= c < numCols && 0 <= r < numRows ==>
        table[c, r] == if c == col && r == row then bval else old(table[c, r])
      ensures columns == old(columns)[col := old(columns)[col][row := bval]]
      ensures colTotalTrue[..] == old(colTotalTrue[..])[col := old(colTotalTrue[col]) + One(bval == TrueValue)]
      ensures rowTotalTrue[..] == old(rowTotalTrue[..])[row := old(rowTotalTrue[row]) + One(bval == TrueValue)]
      ensures old(BalancedTotals()) ==> BalancedTotals()
    {
      table[col, row] := bval;
      columns := columns[col := columns[col][row := bval]];
      ghost var cols, rows := colTotalTrue[..], rowTotalTrue[..];
      if bval == TrueValue {
        rowTotalTrue[row] := rowTotalTrue[row] + 1;
        colTotalTrue[col] := colTotalTrue[col] + 1;
        SumAfterIncrement(rows, row);
        SumAfterIncrement(cols, col);
      }
      assert rowTotalTrue[..] == rows[row := rows[row] + One(bval == TrueValue)];
      assert colTotalTrue[..] == cols[col := cols[col] + One(bval == TrueValue)];
    }

    method ReadColumn(c: nat) returns (v: BoolVector)
      requires Valid() && c < numCols
      ensures v == columns[c]
    {
      v := [];
      for row := 0 to numRows
        invariant |v| == row
        invariant forall r :: 0 <= r < row ==> v[r] == table[c, r]
      {
        v := v + [table[c, row]];
      }
    }

    method CommonTrue(col1: nat, col2: nat) returns (result: bool)
      requires Valid() && col1 < numCols && col2 < numCols
      ensures result <==> TrueRows(columns[col1]) == TrueRows(columns[col2])
    {
      ghost var v1, v2 := columns[col1], columns[col2];
      TrueSubsetIsRowSubset(v1, v2);
      TrueSubsetIsRowSubset(v2, v1);
      for i := 0 to numRows
        invariant forall r :: 0 <= r < i ==> (v1[r] == TrueValue <==> v2[r] == TrueValue)
      {
        if (table[col1, i] == TrueValue && table[col2, i] != TrueValue) ||
           (table[col1, i] != TrueValue && table[col2, i] == TrueValue) {
          assert v1[i] == TrueValue <==> v2[i] != TrueValue;
          return false;
        }
      }
      return true;
    }

    method MaxTotalTrue() returns (max: int)
      requires Valid()
      ensures IsMaximum(max, colTotalTrue[..])
    {
      max := 0;
      for i := 0 to numCols
        invariant max >= 0 && (max == 0 || max in colTotalTrue[..])
        invariant forall c :: 0 <= c < i ==> colTotalTrue[c] <= max
      {
        if colTotalTrue[i] > max {
          max := colTotalTrue[i];
          assert colTotalTrue[..][i] == max;
        }
      }
    }

    /** The columns of maximal recorded total, partitioned by TRUE pattern: every such column
        is in one class, no two classes share a pattern, and frequencies are class sizes. */
    method GenerateMaxTrueABVList() returns (ok: bool, result: seq<AnnotatedBoolVector>, ghost max: int)
      requires Valid()
      ensures ok == initialized && (!ok ==> result == [])
      ensures IsMaximum(max, colTotalTrue[..])
      ensures DescribesClasses(result, columns, colTotalTrue[..], max)
      ensures forall c: nat :: c < numCols && colTotalTrue[c] == max ==> Covered(result, c)
      ensures ok && HasExactTotals() ==> forall c: nat :: c < numCols ==> (Covered(result, c) <==> MostTrue(columns, c))
    {
      result := [];
      ok := initialized;
      var maxTotalTrue := MaxTotalTrue();
      max := maxTotalTrue;
      if !ok {
        return;
      }
      ghost var totals := colTotalTrue[..];
      var seen := seq(numCols, c => false);
      for i := 0 to numCols
        invariant |seen| == numCols
        invariant DescribesClasses(result, columns, totals, max)
        invariant forall c: nat :: c < i && totals[c] == max ==> Covered(result, c)
        invariant forall c: nat :: i <= c < numCols && totals[c] == max ==> (seen[c] <==> Covered(result, c))
      {
        if colTotalTrue[i] == maxTotalTrue && !seen[i] {
          ghost var before := result;
          var abv;
          forall c: nat | c < numCols && totals[c] == max && TrueRows(columns[c]) == TrueRows(columns[i])
            ensures i <= c && !seen[c]
          {
            JoinsOnlyIfUnseen(before, columns, totals, max, i, c);
          }
          abv, seen := CollectClass(i, maxTotalTrue, seen);
          ClassesAfterAppend(before, columns, totals, max, i, abv);
          result := result + [abv];
        }
      }
      if HasExactTotals() {
        CoveredAreMostTrue(result, columns, numRows, totals, rowTotalTrue[..], max);
      }
    }

    /** The class of column `i`, and the marks of the columns that join it. */
    method CollectClass(i: nat, maxTotalTrue: int, seen: seq<bool>)
      returns (abv: AnnotatedBoolVector, seen': seq<bool>)
      requires Valid() && i < numCols && |seen| == numCols
      requires colTotalTrue[i] == maxTotalTrue && !seen[i]
      requires forall c: nat ::
        c < numCols && colTotalTrue[c] == maxTotalTrue && TrueRows(columns[c]) == TrueRows(columns[i]) ==>
          i <= c && !seen[c]
      ensures abv.values == columns[i]
      ensures DescribesClass(abv, columns, colTotalTrue[..], maxTotalTrue)
      ensures |seen'| == numCols
      ensures forall c: nat :: i < c < numCols ==> (seen'[c] <==> seen[c] || abv.contexts[c])
    {
      ghost var totals := colTotalTrue[..];
      var contexts := seq(numCols, c => c == i);
      var frequency := 1;
      assert Members(contexts) == {i};
      seen' := seen;
      for j := i + 1 to numCols
        invariant |seen'| == |contexts| == numCols
        invariant frequency == |Members(contexts)|
        invariant forall c: nat :: c < numCols ==> (contexts[c] <==>
          c == i || (i < c < j && totals[c] == maxTotalTrue && TrueRows(columns[c]) == TrueRows(columns[i])))
        invariant forall c: nat :: i < c < numCols ==> (seen'[c] <==> seen[c] || contexts[c])
      {
        if colTotalTrue[j] == maxTotalTrue {
          if !seen'[j] {
            var hasCommonTrue := CommonTrue(i, j);
            if hasCommonTrue {
              frequency := frequency + 1;
              seen' := seen'[j := true];
              assert Members(contexts[j := true]) == Members(contexts) + {j};
              contexts := contexts[j := true];
            }
          }
        }
      }
      var values := ReadColumn(i);
      abv := AnnotatedBoolVector(values, contexts, frequency);
      assert values == columns[i];
    }

    method GenerateMaximalTrueBVList() returns (result: seq<BoolVector>)
      requires Valid()
      ensures MaximalColumns(result, columns) && AllOfLength(result, numRows)
    {
      result := [];
      for i := 0 to numCols
        invariant MaximalColumns(result, columns[..i]) && AllOfLength(result, numRows)
      {
        var newBV := ReadColumn(i);
        var before := result;
        result := AddMaximal(before, newBV);
        MaximalStep(columns[..i], before, newBV, result);
        assert columns[..i + 1] == columns[..i] + [newBV];
      }
      assert columns[..numCols] == columns;
    }

    /** Exactly the minimal sets of conditions that every machine fails, each once. Without
        machines the list is empty. */
    method GenerateMinimalFalseBVList() returns (result: seq<BoolVector>)
      requires Valid()
      ensures AllOfLength(result, numRows)
      ensures numCols == 0 ==> result == []
      ensures numCols > 0 ==> forall rows :: EntryFor(result, rows) <==> MinimalConflict(rows, columns)
      ensures forall i, j :: 0 <= i < j < |result| ==> TrueRows(result[i]) != TrueRows(result[j])
    {
      result := [];
      var maximal := GenerateMaximalTrueBVList();
      MaximalOfNone(maximal, columns);
      if maximal == [] {
        return;
      }
      var base := NegateAll(maximal);
      forall v | v in base ensures |v| == numRows {
        var t :| 0 <= t < |base| && v == base[t];
        assert maximal[t] in maximal;
      }
      forall t | 0 <= t < |base| && |base| >= 2 ensures HasTrue(base[t]) {
        MaximalColumnsHaveFailures(maximal, numRows, t);
      }
      var combined := DistributeAll(base, numRows);
      result := Prune(combined, numRows);
      PrunedIsExact(combined, base, numRows, result);
      MinimalConflictsByMaximal(columns, maximal, base);
      AntichainHasDistinctRows(result, numRows);
    }
  }

  /** `m` is the largest entry, and 0 for an empty sequence or one without positive entries. */
  ghost predicate IsMaximum(m: int, totals: seq<int>)
  {
    && (m == 0 || m in totals)
    && m >= 0
    && forall c :: 0 <= c < |totals| ==> totals[c] <= m
  }

  ghost predicate InClass(abv: AnnotatedBoolVector, c: nat, columns: seq<BoolVector>, totals: seq<int>, max: int)
    requires c < |columns| == |totals|
  {
    totals[c] == max && TrueRows(columns[c]) == TrueRows(abv.values)
  }

  /** `abv` describes one class: its contexts are the columns of maximal total with its TRUE
      pattern, and its frequency is their number. */
  ghost predicate DescribesClass(abv: AnnotatedBoolVector, columns: seq<BoolVector>, totals: seq<int>, max: int)
    requires |columns| == |totals|
  {
    && |abv.contexts| == |columns|
    && abv.values in columns
    && abv.frequency == |Members(abv.contexts)|
    && forall c: nat :: c < |columns| ==> (abv.contexts[c] <==> InClass(abv, c, columns, totals, max))
  }

  ghost function Members(contexts: seq<bool>): (cs: set<nat>)
  {
    set c: nat | c < |contexts| && contexts[c]
  }

  /** Column `c` belongs to one of the classes listed so far. */
  ghost predicate Covered(list: seq<AnnotatedBoolVector>, c: nat)
  {
    exists k :: 0 <= k < |list| && c < |list[k].contexts| && list[k].contexts[c]
  }

  /** No column has more TRUE cells. */
  ghost predicate MostTrue(columns: seq<BoolVector>, c: nat)
    requires c < |columns|
  {
    forall d :: 0 <= d < |columns| ==> |TrueRows(columns[d])| <= |TrueRows(columns[c])|
  }

  /** With exact totals the classes hold exactly the columns of maximal TRUE count. */
  lemma CoveredAreMostTrue(list: seq<AnnotatedBoolVector>, columns: seq<BoolVector>, numRows: nat, totals: seq<int>,
                           rowTotals: seq<int>, max: int)
    requires ExactTotals(columns, numRows, totals, rowTotals) && IsMaximum(max, totals)
    requires DescribesClasses(list, columns, totals, max)
    requires forall c: nat :: c < |columns| && totals[c] == max ==> Covered(list, c)
    ensures forall c: nat :: c < |columns| ==> (Covered(list, c) <==> MostTrue(columns, c))
  {
    forall c: nat | c < |columns| ensures Covered(list, c) <==> MostTrue(columns, c) {
      assert Covered(list, c) ==> totals[c] == max;
      if MostTrue(columns, c) {
        assert max == 0 || exists d :: 0 <= d < |totals| && totals[d] == max;
        assert totals[c] == max;
      }
    }
  }

  ghost predicate DistinctPatterns(list: seq<AnnotatedBoolVector>)
  {
    forall i, j :: 0 <= i < j < |list| ==> TrueRows(list[i].values) != TrueRows(list[j].values)
  }

  ghost predicate DescribesClasses(list: seq<AnnotatedBoolVector>, columns: seq<BoolVector>, totals: seq<int>, max: int)
    requires |columns| == |totals|
  {
    DistinctPatterns(list) && forall k :: 0 <= k < |list| ==> DescribesClass(list[k], columns, totals, max)
  }

  /** A column outside every listed class has a TRUE pattern of its own. */
  lemma UncoveredIsNew(list: seq<AnnotatedBoolVector>, columns: seq<BoolVector>, totals: seq<int>, max: int, c: nat)
    requires c < |columns| == |totals| && totals[c] == max
    requires DescribesClasses(list, columns, totals, max)
    ensures Covered(list, c) <==>
      exists k :: 0 <= k < |list| && TrueRows(list[k].values) == TrueRows(columns[c])
  {
    forall k | 0 <= k < |list| ensures list[k].contexts[c] <==> TrueRows(list[k].values) == TrueRows(columns[c]) {
      assert DescribesClass(list[k], columns, totals, max);
      assert list[k].contexts[c] <==> InClass(list[k], c, columns, totals, max);
    }
  }

  /** A column of an earlier class does not share the pattern of an uncovered column. */
  lemma JoinsOnlyIfUnseen(list: seq<AnnotatedBoolVector>, columns: seq<BoolVector>, totals: seq<int>, max: int,
                          i: nat, c: nat)
    requires i < |columns| == |totals| && c < |columns| && totals[i] == totals[c] == max
    requires DescribesClasses(list, columns, totals, max) && !Covered(list, i)
    ensures Covered(list, c) ==> TrueRows(columns[c]) != TrueRows(columns[i])
  {
    UncoveredIsNew(list, columns, totals, max, i);
    UncoveredIsNew(list, columns, totals, max, c);
  }

  lemma ClassesAfterAppend(list: seq<AnnotatedBoolVector>, columns: seq<BoolVector>, totals: seq<int>, max: int,
                           i: nat, abv: AnnotatedBoolVector)
    requires i < |columns| == |totals| && totals[i] == max
    requires DescribesClasses(list, columns, totals, max) && !Covered(list, i)
    requires DescribesClass(abv, columns, totals, max) && abv.values == columns[i]
    ensures DescribesClasses(list + [abv], columns, totals, max)
    ensures abv.contexts[i]
    ensures forall c: nat :: c < |columns| ==> (Covered(list + [abv], c) <==> Covered(list, c) || abv.contexts[c])
  {
    UncoveredIsNew(list, columns, totals, max, i);
    forall c: nat | c < |columns| {
      CoveredAfterAppend(list, abv, c);
    }
    assert InClass(abv, i, columns, totals, max);
  }

  lemma CoveredAfterAppend(list: seq<AnnotatedBoolVector>, abv: AnnotatedBoolVector, c: nat)
    requires c < |abv.contexts|
    ensures Covered(list + [abv], c) <==> Covered(list, c) || abv.contexts[c]
  {
    if Covered(list, c) {
      var k :| 0 <= k < |list| && c < |list[k].contexts| && list[k].contexts[c];
      assert (list + [abv])[k].contexts[c];
    }
    if abv.contexts[c] {
      assert (list + [abv])[|list|].contexts[c];
    }
  }

  lemma MaximalOfNone(maximal: seq<BoolVector>, columns: seq<BoolVector>)
    requires MaximalColumns(maximal, columns)
    ensures maximal == [] <==> columns == []
  {
    if columns != [] {
      assert columns[0] in columns;
    }
    if maximal != [] {
      assert maximal[0] in maximal;
    }
  }

  lemma MaximalStep(columns: seq<BoolVector>, before: seq<BoolVector>, v: BoolVector, after: seq<BoolVector>)
    requires MaximalColumns(before, columns) && Antichain(after)
    requires forall w :: w in after ==> w in before || w == v
    requires forall w :: w in before || w == v ==> HasSuperset(w, after)
    ensures MaximalColumns(after, columns + [v])
  {
    forall w | w in columns ensures HasSuperset(w, after) {
      SupersetThrough(w, before, after);
    }
  }

  /** Some entry of the list is TRUE at exactly `rows`. */
  ghost predicate EntryFor(list: seq<BoolVector>, rows: set<nat>)
  {
    exists v :: v in list && TrueRows(v) == rows
  }

  lemma PrunedIsExact(list: seq<BoolVector>, base: seq<BoolVector>, n: nat, pruned: seq<BoolVector>)
    requires IsTransversalList(list, base) && AllOfLength(list, n)
    requires Antichain(pruned) && AllOfLength(pruned, n)
    requires forall v :: v in pruned ==> v in list
    requires forall v :: v in list ==> HasSubset(v, pruned)
    ensures forall rows :: EntryFor(pruned, rows) <==> IsMinimalTransversal(rows, base)
  {
    forall rows ensures EntryFor(pruned, rows) <==> IsMinimalTransversal(rows, base) {
      PrunedTransversals(list, base, n, pruned, rows);
    }
  }

  lemma AntichainHasDistinctRows(list: seq<BoolVector>, n: nat)
    requires Antichain(list) && AllOfLength(list, n)
    ensures forall i, j :: 0 <= i < j < |list| ==> TrueRows(list[i]) != TrueRows(list[j])
  {
    forall i, j | 0 <= i < j < |list| ensures TrueRows(list[i]) != TrueRows(list[j]) {
      assert list[i] in list && list[j] in list;
      TrueSubsetIsRowSubset(list[i], list[j]);
    }
  }

  /** After t rounds; before the first the list is empty. */
  ghost predicate Distributed(list: seq<BoolVector>, base: seq<BoolVector>, t: nat, n: nat)
    requires t <= |base|
  {
    AllOfLength(list, n) && if t == 0 then list == [] else IsTransversalList(list, base[..t])
  }

  /** A round that starts from an empty list is the first one, because more than one base vector
      means that each of them has a TRUE row. */
  lemma DistributedNext(list: seq<BoolVector>, base: seq<BoolVector>, t: nat, n: nat, next: seq<BoolVector>)
    requires t < |base| && AllOfLength(base, n) && Distributed(list, base, t, n)
    requires |base| >= 2 ==> forall i :: 0 <= i < |base| ==> HasTrue(base[i])
    requires |base[t]| == n && next == Extended(if list == [] then [AllFalse(n)] else list, base[t], n)
    ensures Distributed(next, base, t + 1, n)
  {
    if t == 0 {
      FirstRound(base, n, next);
    } else {
      NotEmptied(list, base, t, n);
      LaterRound(list, base, t, next);
    }
  }

  lemma FirstRound(base: seq<BoolVector>, n: nat, next: seq<BoolVector>)
    requires base != [] && |base[0]| == n && next == Extended([AllFalse(n)], base[0], n)
    ensures AllOfLength(next, n) && IsTransversalList(next, base[..1])
  {
    NoBaseTransversal(n);
    DistributeStep([AllFalse(n)], [], base[0]);
    assert base[..1] == [] + [base[0]];
  }

  lemma LaterRound(list: seq<BoolVector>, base: seq<BoolVector>, t: nat, next: seq<BoolVector>)
    requires t < |base| && AllOfLength(list, |base[t]|)
    requires IsTransversalList(list, base[..t]) && next == Extended(list, base[t], |base[t]|)
    ensures AllOfLength(next, |base[t]|) && IsTransversalList(next, base[..t + 1])
  {
    DistributeStep(list, base[..t], base[t]);
    assert base[..t + 1] == base[..t] + [base[t]];
  }

  lemma NotEmptied(list: seq<BoolVector>, base: seq<BoolVector>, t: nat, n: nat)
    requires 0 < t < |base| && AllOfLength(base, n) && IsTransversalList(list, base[..t])
    requires forall i :: 0 <= i < |base| ==> HasTrue(base[i])
    ensures list != []
  {
    forall v | v in base[..t] ensures |v| == n {
      assert v in base;
    }
    forall i | 0 <= i < t ensures HasTrue(base[..t][i]) {
      assert HasTrue(base[i]);
    }
    TransversalListNonEmpty(list, base[..t], n);
  }

  /** The DISTRIB & COMBINE loop. */
  method DistributeAll(base: seq<BoolVector>, n: nat) returns (result: seq<BoolVector>)
    requires base != [] && AllOfLength(base, n)
    requires |base| >= 2 ==> forall t :: 0 <= t < |base| ==> HasTrue(base[t])
    ensures AllOfLength(result, n) && IsTransversalList(result, base)
  {
    result := [];
    for t := 0 to |base|
      invariant Distributed(result, base, t, n)
    {
      assert base[t] in base;
      ghost var list := result;
      result := Distribute(result, base[t]);
      DistributedNext(list, base, t, n, result);
    }
    assert base[..|base|] == base;
  }

  method NegateAll(list: seq<BoolVector>) returns (base: seq<BoolVector>)
    ensures |base| == |list| && forall t :: 0 <= t < |base| ==> base[t] == Negated(list[t])
  {
    base := [];
    for t := 0 to |list|
      invariant |base| == t && forall s :: 0 <= s < t ==> base[s] == Negated(list[s])
    {
      var n := Negate(list[t]);
      base := base + [n];
    }
  }

  method Prune(list: seq<BoolVector>, n: nat) returns (result: seq<BoolVector>)
    requires AllOfLength(list, n)
    ensures Antichain(result) && AllOfLength(result, n)
    ensures forall v :: v in result ==> v in list
    ensures forall v :: v in list ==> HasSubset(v, result)
  {
    result := [];
    for k := 0 to |list|
      invariant Antichain(result) && AllOfLength(result, n)
      invariant forall v :: v in result ==> v in list
      invariant forall v :: v in list[..k] ==> HasSubset(v, result)
    {
      assert list[k] in list;
      var before := result;
      result := AddMinimal(result, list[k]);
      assert list[..k + 1] == list[..k] + [list[k]];
      forall v | v in list[..k + 1] ensures HasSubset(v, result) {
        if v in list[..k] {
          SubsetThrough(v, before, result);
        }
      }
    }
    assert list[..|list|] == list;
  }

  lemma SubsetThrough(v: BoolVector, before: seq<BoolVector>, after: seq<BoolVector>)
    requires HasSubset(v, before)
    requires forall w :: w in before ==> HasSubset(w, after)
    ensures HasSubset(v, after)
  {
    var w :| w in before && TrueSubset(w, v);
    var u :| u in after && TrueSubset(u, w);
    assert TrueSubset(u, v);
  }

  lemma SupersetThrough(v: BoolVector, before: seq<BoolVector>, after: seq<BoolVector>)
    requires HasSuperset(v, before)
    requires forall w :: w in before ==> HasSuperset(w, after)
    ensures HasSuperset(v, after)
  {
    var w :| w in before && TrueSubset(v, w);
    var u :| u in after && TrueSubset(w, u);
    assert TrueSubset(v, u);
  }

  lemma {:induction false} SumOfZeros(s: seq<int>)
    requires forall i :: 0 <= i < |s| ==> s[i] == 0
    ensures Sum(s) == 0
  {
    if s != [] {
      SumOfZeros(s[1..]);
    }
  }
}
