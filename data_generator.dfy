/**
 * The oldest revision's data generation (domain/service/data_generator.go):
 * values for every column in reverse topological order, a referencing
 * column copying the values of the column it references, and one INSERT
 * statement per table. The schema's index maps (`GetMapFromIndexToColumnName`,
 * `GetMapFromColumnToIndex`) are not part of this model and are parameters.
 */
module DataGenerator {
  import opened Strings
  import opened OldModel
  import opened SortService
  import PrevTable

  // ----- reverseSlice -----

  function Reversed(l: seq<nat>): seq<nat>
  {
    if l == [] then [] else Reversed(l[1..]) + [l[0]]
  }

  /** Reversal maps position i to position |l|-1-i. */
  lemma {:induction false} ReversedAt(l: seq<nat>)
    ensures |Reversed(l)| == |l|
    ensures forall i :: 0 <= i < |l| ==> Reversed(l)[|l| - 1 - i] == l[i]
  {
    if l != [] {
      ReversedAt(l[1..]);
      forall i | 0 <= i < |l| ensures Reversed(l)[|l| - 1 - i] == l[i] {
        if i > 0 {
          assert l[1..][i - 1] == l[i];
        }
      }
    }
  }

  /** Reversing twice gives the list back. */
  lemma ReversedTwice(l: seq<nat>)
    ensures Reversed(Reversed(l)) == l
  {
    ReversedAt(l);
    ReversedAt(Reversed(l));
  }

  /** A list and its reversal hold the same entries. */
  lemma ReversedSameEntries(l: seq<nat>)
    ensures forall x :: x in Reversed(l) <==> x in l
  {
    ReversedAt(l);
    forall x | x in Reversed(l) ensures x in l {
      var p :| 0 <= p < |l| && Reversed(l)[p] == x;
      assert l[|l| - 1 - p] == x;
    }
    forall x | x in l ensures x in Reversed(l) {
      var p :| 0 <= p < |l| && l[p] == x;
      assert Reversed(l)[|l| - 1 - p] == x;
    }
  }

  /** `reverseSlice`: writes each entry of l to the mirrored slot of a new slice. */
  method ReverseSlice(l: seq<nat>) returns (re: seq<nat>)
    ensures re == Reversed(l)
  {
    var a := new nat[|l|];
    for i := 0 to |l|
      invariant forall k :: 0 <= k < i ==> a[|l| - 1 - k] == l[k]
    {
      a[|l| - 1 - i] := l[i];
    }
    re := a[..];
    ReversedAt(l);
    forall p | 0 <= p < |l| ensures re[p] == Reversed(l)[p] {
      assert re[|l| - 1 - (|l| - 1 - p)] == l[|l| - 1 - p];
    }
  }

  // ----- GenerateColumnData -----

  /** The last index j with `row[j] != 0`, or -1 when there is none. */
  function LastRef(row: seq<int>): (j: int)
    ensures -1 <= j < |row|
    ensures j == -1 <==> forall k :: 0 <= k < |row| ==> row[k] == 0
    ensures j >= 0 ==> row[j] != 0 && forall k :: j < k < |row| ==> row[k] == 0
  {
    if row == [] then -1
    else if row[|row| - 1] != 0 then |row| - 1
    else LastRef(row[..|row| - 1])
  }

  /** The matrix `GenerateAdjacencyMatrix` builds, as values. */
  ghost function AdjacencyOf(tables: seq<Table>, columnToIndex: map<string, nat>): (m: seq<seq<int>>)
    ensures |m| == |columnToIndex| && SquareSeq(m)
  {
    var n := |columnToIndex|;
    seq(n, i requires 0 <= i < n =>
      seq(n, j requires 0 <= j < n => if Edge(tables, columnToIndex, i, j) then 1 else 0))
  }

  /** A Go map lookup: the zero value "" for a missing index. */
  function NameOf(indexToColumnName: map<nat, string>, i: nat): string
  {
    if i in indexToColumnName then indexToColumnName[i] else ""
  }

  /** A Go map lookup: the nil slice for a missing name. */
  function ValuesOf(data: map<string, seq<string>>, name: string): seq<string>
  {
    if name in data then data[name] else []
  }

  /** Different indexes below n have different names. */
  predicate NamesDistinct(indexToColumnName: map<nat, string>, n: nat)
  {
    forall a, b :: 0 <= a < n && 0 <= b < n && a != b ==> NameOf(indexToColumnName, a) != NameOf(indexToColumnName, b)
  }

  /** The inner loop over row ci: whether it holds a nonzero entry, and the last one. */
  method LastConstraint(am: array2<int>, ci: nat) returns (hasConstraint: bool, constraintColumnIndex: nat)
    requires ci < am.Length0 && am.Length0 <= am.Length1
    ensures hasConstraint <==> LastRef(Matrix(am)[ci][..am.Length0]) >= 0
    ensures hasConstraint ==> constraintColumnIndex == LastRef(Matrix(am)[ci][..am.Length0])
  {
    ghost var row := Matrix(am)[ci][..am.Length0];
    hasConstraint, constraintColumnIndex := false, 0;
    for j := 0 to am.Length0
      invariant hasConstraint <==> LastRef(row[..j]) >= 0
      invariant hasConstraint ==> constraintColumnIndex == LastRef(row[..j])
    {
      assert row[..j + 1][..j] == row[..j];
      assert row[j] == am[ci, j];
      if am[ci, j] != 0 {
        hasConstraint, constraintColumnIndex := true, j;
      }
    }
    assert row[..am.Length0] == row;
  }

  /** n values from the column's own generator; that generator is not part of this model, so each value is arbitrary. */
  method RandomValues(n: nat) returns (cd: seq<string>)
    ensures |cd| == n
  {
    cd := [];
    for i := 0 to n
      invariant |cd| == i
    {
      var v: string := *;
      cd := cd + [v];
    }
  }

  /**
   * The `switch hasConstraint` of one column ci: n fresh values when its row
   * is all zero, otherwise the values already stored under the name of the
   * last column it references.
   */
  method ColumnValues(am: array2<int>, data: map<string, seq<string>>, indexToColumnName: map<nat, string>,
                      ci: nat, n: nat)
    returns (v: seq<string>)
    requires ci < am.Length0 && am.Length0 <= am.Length1
    ensures LastRef(Matrix(am)[ci][..am.Length0]) < 0 ==> |v| == n
    ensures LastRef(Matrix(am)[ci][..am.Length0]) >= 0 ==>
      v == ValuesOf(data, NameOf(indexToColumnName, LastRef(Matrix(am)[ci][..am.Length0])))
  {
    var hasConstraint, constraintColumnIndex := LastConstraint(am, ci);
    if !hasConstraint {
      v := RandomValues(n);
    } else {
      v := ValuesOf(data, NameOf(indexToColumnName, constraintColumnIndex));
    }
  }

  /** The names of the columns in l. */
  ghost function NamesIn(indexToColumnName: map<nat, string>, l: seq<nat>): set<string>
  {
    set x | x in l :: NameOf(indexToColumnName, x)
  }

  /**
   * Column x is filled: it has an entry, n values when it references no
   * column, and the values of j when its last reference is j.
   */
  ghost predicate FilledAt(data: map<string, seq<string>>, names: map<nat, string>, m: seq<seq<int>>, x: nat, n: nat)
    requires x < |m|
  {
    NameOf(names, x) in data
    && (LastRef(m[x]) < 0 ==> |data[NameOf(names, x)]| == n)
    && (LastRef(m[x]) >= 0 ==> data[NameOf(names, x)] == ValuesOf(data, NameOf(names, LastRef(m[x]))))
  }

  /** What the reverse-order loop has built once the columns in `done` are processed. */
  ghost predicate Filled(data: map<string, seq<string>>, names: map<nat, string>, m: seq<seq<int>>, done: seq<nat>, n: nat)
  {
    forall x :: x in done && x < |m| ==> FilledAt(data, names, m, x, n)
  }

  /**
   * `GenerateColumnData`: one entry per listed column, keyed by its name.
   * When the list is a topological order of the schema's matrix (as
   * `GenerateSortedColumnList` returns) and the names are distinct, a
   * column without a reference gets n values, and a column with reference
   * gets exactly the values of the last column it references.
   */
  method GenerateColumnData(sortedColumnList: seq<nat>, tables: seq<Table>, columnToIndex: map<string, nat>,
                            indexToColumnName: map<nat, string>, n: nat)
    returns (data: map<string, seq<string>>)
    requires IndexesInRange(columnToIndex)
    requires forall p :: 0 <= p < |sortedColumnList| ==> sortedColumnList[p] < |columnToIndex|
    ensures data.Keys == NamesIn(indexToColumnName, sortedColumnList)
    ensures (IsTopologicalOrder(sortedColumnList, AdjacencyOf(tables, columnToIndex))
             && NamesDistinct(indexToColumnName, |columnToIndex|)) ==>
      Filled(data, indexToColumnName, AdjacencyOf(tables, columnToIndex), sortedColumnList, n)
  {
    var adjacencyMatrix := GenerateAdjacencyMatrix(tables, columnToIndex);
    ghost var m := AdjacencyOf(tables, columnToIndex);
    assert Matrix(adjacencyMatrix) == m by {
      forall r | 0 <= r < |m| ensures Matrix(adjacencyMatrix)[r] == m[r] {
      }
    }
    data := map[];
    var l := ReverseSlice(sortedColumnList);
    ReversedAt(sortedColumnList);
    ghost var proper := Mirrored(m, indexToColumnName, sortedColumnList, l);
    for idx := 0 to |l|
      invariant data.Keys == NamesIn(indexToColumnName, l[..idx])
      invariant proper ==> Filled(data, indexToColumnName, m, l[..idx], n)
      invariant Matrix(adjacencyMatrix) == m
    {
      var columnIndex := l[idx];
      assert columnIndex == sortedColumnList[|l| - 1 - idx];
      assert m[columnIndex][..|m|] == m[columnIndex];
      ghost var old_data := data;
      var v := ColumnValues(adjacencyMatrix, data, indexToColumnName, columnIndex, n);
      data := data[NameOf(indexToColumnName, columnIndex) := v];
      assert l[..idx + 1] == l[..idx] + [columnIndex];
      NamesInAppend(indexToColumnName, l[..idx], columnIndex);
      if proper {
        FilledStep(old_data, v, indexToColumnName, m, sortedColumnList, l, idx, n);
      }
    }
    assert l[..|l|] == l;
    ReversedSameEntries(sortedColumnList);
    assert NamesIn(indexToColumnName, l) == NamesIn(indexToColumnName, sortedColumnList);
  }

  lemma NamesInAppend(names: map<nat, string>, done: seq<nat>, x: nat)
    ensures NamesIn(names, done + [x]) == NamesIn(names, done) + {NameOf(names, x)}
  {
    assert forall y :: y in done + [x] <==> y in done || y == x;
  }

  /** In the reversed order, a column comes after every column it references. */
  lemma ReversedOrdered(m: seq<seq<int>>, sorted: seq<nat>, l: seq<nat>, a: nat, b: nat)
    requires IsTopologicalOrder(sorted, m) && |l| == |sorted|
    requires forall i :: 0 <= i < |sorted| ==> l[|sorted| - 1 - i] == sorted[i]
    requires a < |l| && b < |l| && l[a] < |m| && l[b] < |m| && m[l[a]][l[b]] != 0
    ensures b < a
  {
    var n := |sorted|;
    assert l[a] == sorted[n - 1 - a] && l[b] == sorted[n - 1 - b];
    assert m[sorted[n - 1 - a]][sorted[n - 1 - b]] != 0;
  }

  /** The facts about order that one step of the loop needs; `sorted` and `l` are positioned mirror images. */
  ghost predicate Mirrored(m: seq<seq<int>>, names: map<nat, string>, sorted: seq<nat>, l: seq<nat>)
  {
    IsTopologicalOrder(sorted, m) && NamesDistinct(names, |m|) && |l| == |sorted|
    && forall i :: 0 <= i < |sorted| ==> l[|sorted| - 1 - i] == sorted[i]
  }

  /** A column not yet processed has a name no processed column has. */
  lemma NameIsNew(m: seq<seq<int>>, names: map<nat, string>, sorted: seq<nat>, l: seq<nat>, idx: nat)
    requires Mirrored(m, names, sorted, l) && idx < |l|
    ensures forall y :: y in l[..idx] ==> NameOf(names, y) != NameOf(names, l[idx])
  {
    forall y | y in l[..idx] ensures NameOf(names, y) != NameOf(names, l[idx]) {
      var p :| 0 <= p < idx && l[p] == y;
      assert y == sorted[|sorted| - 1 - p] && l[idx] == sorted[|sorted| - 1 - idx];
    }
  }

  /** Every column in the list is somewhere in its mirror image. */
  lemma InMirror(m: seq<seq<int>>, names: map<nat, string>, sorted: seq<nat>, l: seq<nat>, j: nat)
    returns (p: nat)
    requires Mirrored(m, names, sorted, l) && j < |m|
    ensures p < |l| && l[p] == j
  {
    assert j in sorted;
    var pj :| 0 <= pj < |sorted| && sorted[pj] == j;
    p := |sorted| - 1 - pj;
  }

  /** The column that l[idx] references was processed before it. */
  lemma TargetIsDone(m: seq<seq<int>>, names: map<nat, string>, sorted: seq<nat>, l: seq<nat>, idx: nat)
    requires Mirrored(m, names, sorted, l) && idx < |l| && l[idx] < |m| && LastRef(m[l[idx]]) >= 0
    ensures LastRef(m[l[idx]]) in l[..idx]
  {
    var j := LastRef(m[l[idx]]);
    var p := InMirror(m, names, sorted, l, j);
    ReversedOrdered(m, sorted, l, idx, p);
  }

  /** No processed column references the column l[idx]. */
  lemma NotYetReferenced(m: seq<seq<int>>, names: map<nat, string>, sorted: seq<nat>, l: seq<nat>, idx: nat)
    requires Mirrored(m, names, sorted, l) && idx < |l| && l[idx] < |m|
    ensures forall y :: y in l[..idx] && y < |m| && LastRef(m[y]) >= 0 ==> LastRef(m[y]) != l[idx]
  {
    forall y | y in l[..idx] && y < |m| && LastRef(m[y]) >= 0 ensures LastRef(m[y]) != l[idx] {
      var py :| 0 <= py < idx && l[py] == y;
      if LastRef(m[y]) == l[idx] {
        ReversedOrdered(m, sorted, l, py, idx);
      }
    }
  }

  /** Overwriting a name that neither x nor its target has keeps x filled. */
  lemma FilledAtKept(data: map<string, seq<string>>, key: string, v: seq<string>, names: map<nat, string>,
                     m: seq<seq<int>>, x: nat, n: nat)
    requires x < |m| && FilledAt(data, names, m, x, n) && NameOf(names, x) != key
    requires LastRef(m[x]) >= 0 ==> NameOf(names, LastRef(m[x])) != key
    ensures FilledAt(data[key := v], names, m, x, n)
  {
  }

  /** Processing l[idx] keeps `Filled`. */
  lemma FilledStep(data: map<string, seq<string>>, v: seq<string>, names: map<nat, string>,
                   m: seq<seq<int>>, sorted: seq<nat>, l: seq<nat>, idx: nat, n: nat)
    requires Mirrored(m, names, sorted, l) && idx < |l| && l[idx] < |m|
    requires Filled(data, names, m, l[..idx], n)
    requires LastRef(m[l[idx]]) < 0 ==> |v| == n
    requires LastRef(m[l[idx]]) >= 0 ==> v == ValuesOf(data, NameOf(names, LastRef(m[l[idx]])))
    ensures Filled(data[NameOf(names, l[idx]) := v], names, m, l[..idx + 1], n)
  {
    var x := l[idx];
    var key := NameOf(names, x);
    assert l[..idx + 1] == l[..idx] + [x];
    NameIsNew(m, names, sorted, l, idx);
    NotYetReferenced(m, names, sorted, l, idx);
    if LastRef(m[x]) >= 0 {
      TargetIsDone(m, names, sorted, l, idx);
    }
    forall y | y in l[..idx] && y < |m| ensures FilledAt(data[key := v], names, m, y, n) {
      FilledAtKept(data, key, v, names, m, y, n);
    }
  }

  // ----- GenerateQuery -----

  /** Row i of the table: the i-th value of each column, in column order. */
  function TableRows(table: Table, data: map<string, seq<string>>, n: nat): (rows: seq<seq<string>>)
    requires forall c :: 0 <= c < |table.Columns| ==> n > 0 ==>
      Key(table.Name, table.Columns[c].Name) in data && |data[Key(table.Name, table.Columns[c].Name)]| >= n
    ensures |rows| == n && forall i :: 0 <= i < n ==> |rows[i]| == |table.Columns|
  {
    seq(n, i requires 0 <= i < n =>
      seq(|table.Columns|, c requires 0 <= c < |table.Columns| => data[Key(table.Name, table.Columns[c].Name)][i]))
  }

  /** Every column of every table has at least n values. */
  ghost predicate HasValues(tables: seq<Table>, data: map<string, seq<string>>, n: nat)
  {
    forall t, c :: 0 <= t < |tables| && 0 <= c < |tables[t].Columns| && n > 0 ==>
      Key(tables[t].Name, tables[t].Columns[c].Name) in data
      && |data[Key(tables[t].Name, tables[t].Columns[c].Name)]| >= n
  }

  /**
   * `GenerateQuery`: one statement per table, in schema order, inserting
   * the rows of the table's quoted values (Go indexes past the end of a
   * column's values otherwise, so every column must have n of them).
   */
  method GenerateQuery(tables: seq<Table>, data: map<string, seq<string>>, n: nat) returns (queries: seq<string>)
    requires HasValues(tables, data, n)
    ensures |queries| == |tables|
    ensures forall t :: 0 <= t < |tables| ==> queries[t] == PrevTable.InsertAll(tables[t].Name, TableRows(tables[t], data, n))
  {
    queries := [];
    for t := 0 to |tables|
      invariant |queries| == t
      invariant forall r :: 0 <= r < t ==> queries[r] == PrevTable.InsertAll(tables[r].Name, TableRows(tables[r], data, n))
    {
      var query := TableQuery(tables[t], data, n);
      queries := queries + [query];
    }
  }

  /** One table's statement: quote every value, parenthesise each record, join and wrap. */
  method TableQuery(table: Table, data: map<string, seq<string>>, n: nat) returns (query: string)
    requires forall c :: 0 <= c < |table.Columns| ==> n > 0 ==>
      Key(table.Name, table.Columns[c].Name) in data && |data[Key(table.Name, table.Columns[c].Name)]| >= n
    ensures query == PrevTable.InsertAll(table.Name, TableRows(table, data, n))
  {
    ghost var rows := TableRows(table, data, n);
    var records := QuotedRecords(table, data, n);
    var tuples := [];
    for r := 0 to |records|
      invariant tuples == seq(r, k requires 0 <= k < r => PrevTable.Parenthesised(rows[k]))
    {
      var re := "(" + Join(records[r], ",") + ")";
      tuples := tuples + [re];
    }
    query := "INSERT INTO " + table.Name + " VALUES " + Join(tuples, ",") + ";";
  }

  /** The records of one table, built column by column: record i holds the quoted i-th value of each column. */
  method QuotedRecords(table: Table, data: map<string, seq<string>>, n: nat) returns (records: seq<seq<string>>)
    requires forall c :: 0 <= c < |table.Columns| ==> n > 0 ==>
      Key(table.Name, table.Columns[c].Name) in data && |data[Key(table.Name, table.Columns[c].Name)]| >= n
    ensures |records| == n
    ensures forall i :: 0 <= i < n ==> records[i] == SingleQuoted(TableRows(table, data, n)[i])
  {
    records := [];
    for i := 0 to n
      invariant records == seq(i, _ => [])
    {
      records := records + [[]];
    }
    for c := 0 to |table.Columns|
      invariant |records| == n
      invariant forall i :: 0 <= i < n ==> (records[i] ==
        seq(c, c' requires 0 <= c' < c => "'" + data[Key(table.Name, table.Columns[c'].Name)][i] + "'"))
    {
      var key := Key(table.Name, table.Columns[c].Name);
      for i := 0 to n
        invariant |records| == n
        invariant forall k :: 0 <= k < i ==> (records[k] ==
          seq(c + 1, c' requires 0 <= c' < c + 1 => "'" + data[Key(table.Name, table.Columns[c'].Name)][k] + "'"))
        invariant forall k :: i <= k < n ==> (records[k] ==
          seq(c, c' requires 0 <= c' < c => "'" + data[Key(table.Name, table.Columns[c'].Name)][k] + "'"))
      {
        records := records[i := records[i] + ["'" + data[key][i] + "'"]];
      }
    }
  }
}
