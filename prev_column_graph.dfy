/**
 * The column graph and the resolution of the previous revision
 * (domain/model/column_graph.go, and the resolution half of
 * domain/model/column.go). The algorithm is the newest revision's; the
 * columns are this revision's, whose auto-increment values are the row
 * indexes. column_graph.go reads a column's foreign keys and
 * `HasForeignKey`, which this revision's `Column` calls `Constraints` and
 * `HasConstraint`; the model uses the latter.
 */
module PrevColumnGraph {
  import opened Wrappers
  import opened Strings
  import opened PrevColumn
  import opened PrevTable
  import opened Adjacency

  /** One generated or derived value of one column in one row. */
  type Value = string

  /** `newAdjacencyMatrix(n)`: n rows, each of n zeros, appended one row at a time. */
  method NewAdjacencyMatrix(n: nat) returns (am: AdjacencyMatrix)
    ensures |am| == n && IsSquare(am)
    ensures forall i, j :: 0 <= i < n && 0 <= j < n ==> am[i][j] == 0
  {
    am := [];
    var i := 0;
    while i < n
      invariant 0 <= i <= n && |am| == i
      invariant forall r :: 0 <= r < i ==> am[r] == seq(n, _ => 0)
    {
      am := am + [seq(n, _ => 0)];
      i := i + 1;
    }
  }

  /** A column of the schema, in the graph, with its done flag. */
  datatype ColumnNode = ColumnNode(column: Column, isDone: bool, index: int)
  {
    /** Sets the flag, and only the flag. */
    function Done(): (cn: ColumnNode)
      ensures cn.IsDone() && cn.column == column && cn.index == index
    {
      this.(isDone := true)
    }

    predicate IsDone()
    {
      isDone
    }

    function GetColumn(): Column
    {
      column
    }
  }

  /** Marking a node done twice is the same as once. */
  lemma DoneIdempotent(cn: ColumnNode)
    ensures cn.Done().Done() == cn.Done()
    ensures cn.IsDone() ==> cn.Done() == cn
  {
  }

  /** Every parent of node i is done (vacuously so when it has none). */
  predicate ParentsDone(am: AdjacencyMatrix, nodes: seq<ColumnNode>, i: nat)
    requires i < |am| && |am[i]| <= |nodes|
  {
    forall j :: 0 <= j < |am[i]| && am[i][j] == 1 ==> nodes[j].isDone
  }

  /**
   * The graph. The matrix is never written once built; the node flags are
   * updated in place during resolution.
   */
  class ColumnGraph {
    const AdjacencyMatrix: AdjacencyMatrix
    var ColumnNodes: seq<ColumnNode>

    ghost predicate Valid()
      reads this
    {
      IsSquare(AdjacencyMatrix) && |ColumnNodes| == |AdjacencyMatrix|
    }

    constructor (am: AdjacencyMatrix, nodes: seq<ColumnNode>)
      ensures AdjacencyMatrix == am && ColumnNodes == nodes
    {
      AdjacencyMatrix := am;
      ColumnNodes := nodes;
    }

    /** True iff every node is done; true for a graph without nodes. */
    method IsAllDone() returns (b: bool)
      ensures b <==> forall k :: 0 <= k < |ColumnNodes| ==> ColumnNodes[k].isDone
    {
      var k := 0;
      while k < |ColumnNodes|
        invariant 0 <= k <= |ColumnNodes|
        invariant forall m :: 0 <= m < k ==> ColumnNodes[m].isDone
      {
        if !ColumnNodes[k].isDone {
          return false;
        }
        k := k + 1;
      }
      return true;
    }

    /** True iff row i holds a 1; an error iff i is not a row. */
    method HasParentNodes(i: nat) returns (has: bool, err: Error)
      ensures err.Error? <==> i >= |AdjacencyMatrix|
      ensures err.Error? ==> !has
      ensures err.Nil? ==> (has <==> HasParents(AdjacencyMatrix, i))
    {
      if i >= |AdjacencyMatrix| {
        return false, Error("invalid index");
      }
      var row := AdjacencyMatrix[i];
      var j := 0;
      while j < |row|
        invariant 0 <= j <= |row|
        invariant forall m :: 0 <= m < j ==> row[m] != 1
      {
        if row[j] == 1 {
          return true, Nil;
        }
        j := j + 1;
      }
      return false, Nil;
    }

    /** True iff every parent of node i is done, vacuously so without parents; an error iff i is not a row. */
    method IsParentNodesAreAllDone(i: nat) returns (allDone: bool, err: Error)
      requires Valid()
      ensures err.Error? <==> i >= |AdjacencyMatrix|
      ensures err.Error? ==> !allDone
      ensures err.Nil? ==> (allDone <==> ParentsDone(AdjacencyMatrix, ColumnNodes, i))
    {
      if i >= |AdjacencyMatrix| {
        return false, Error("invalid index");
      }
      var row := AdjacencyMatrix[i];
      var j := 0;
      while j < |row|
        invariant 0 <= j <= |row|
        invariant forall m :: 0 <= m < j && row[m] == 1 ==> ColumnNodes[m].isDone
      {
        if row[j] == 1 && !ColumnNodes[j].IsDone() {
          return false, Nil;
        }
        j := j + 1;
      }
      return true, Nil;
    }

    /** The strictly ascending list of j with a 1 at `[i][j]`; an error and no indexes iff i is not a row. */
    method ParentNodeIndexes(i: nat) returns (ps: seq<nat>, err: Error)
      ensures err.Error? <==> i >= |AdjacencyMatrix|
      ensures err.Error? ==> ps == []
      ensures err.Nil? ==> ps == ParentIndexes(AdjacencyMatrix, i)
      ensures err.Nil? ==> StrictlyAscending(ps)
      ensures err.Nil? ==> forall j :: j in ps <==> 0 <= j < |AdjacencyMatrix[i]| && AdjacencyMatrix[i][j] == 1
      ensures err.Nil? ==> (|ps| > 0 <==> HasParents(AdjacencyMatrix, i))
    {
      if i >= |AdjacencyMatrix| {
        return [], Error("invalid index");
      }
      var row := AdjacencyMatrix[i];
      ps := [];
      var j := 0;
      while j < |row|
        invariant 0 <= j <= |row|
        invariant ps == OnesIn(row[..j])
      {
        assert row[..j + 1][..j] == row[..j];
        if row[j] == 1 {
          ps := ps + [j];
        }
        j := j + 1;
      }
      assert row[..j] == row;
      err := Nil;
      ParentIndexesSpec(AdjacencyMatrix, i);
    }

    /** True iff some row has a 1 in column i; an error iff i is not a row. */
    method HasChildrenNodes(i: nat) returns (has: bool, err: Error)
      requires Valid()
      ensures err.Error? <==> i >= |AdjacencyMatrix|
      ensures err.Error? ==> !has
      ensures err.Nil? ==> (has <==> exists k :: 0 <= k < |AdjacencyMatrix| && AdjacencyMatrix[k][i] == 1)
    {
      if i >= |AdjacencyMatrix| {
        return false, Error("invalid index");
      }
      var k := 0;
      while k < |AdjacencyMatrix|
        invariant 0 <= k <= |AdjacencyMatrix|
        invariant forall m :: 0 <= m < k ==> AdjacencyMatrix[m][i] != 1
      {
        if AdjacencyMatrix[k][i] == 1 {
          return true, Nil;
        }
        k := k + 1;
      }
      return false, Nil;
    }

    /** The strictly ascending list of k with a 1 at `[k][i]`; an error and no indexes iff i is not a row. */
    method ChildrenNodeIndexes(i: nat) returns (ks: seq<nat>, err: Error)
      requires Valid()
      ensures err.Error? <==> i >= |AdjacencyMatrix|
      ensures err.Error? ==> ks == []
      ensures err.Nil? ==> ks == ChildIndexes(AdjacencyMatrix, i)
      ensures err.Nil? ==> StrictlyAscending(ks)
      ensures err.Nil? ==> forall k :: k in ks <==> 0 <= k < |AdjacencyMatrix| && AdjacencyMatrix[k][i] == 1
      ensures err.Nil? ==> (|ks| > 0 <==> exists k :: 0 <= k < |AdjacencyMatrix| && AdjacencyMatrix[k][i] == 1)
    {
      if i >= |AdjacencyMatrix| {
        return [], Error("invalid index");
      }
      ghost var col := ColumnOf(AdjacencyMatrix, i);
      ks := [];
      var k := 0;
      while k < |AdjacencyMatrix|
        invariant 0 <= k <= |AdjacencyMatrix|
        invariant ks == OnesIn(col[..k])
      {
        assert col[..k + 1][..k] == col[..k];
        assert col[k] == AdjacencyMatrix[k][i];
        if AdjacencyMatrix[k][i] == 1 {
          ks := ks + [k];
        }
        k := k + 1;
      }
      assert col[..k] == col;
      err := Nil;
      ChildIndexesSpec(AdjacencyMatrix, i);
    }
  }

  // ================================================================ flattening

  /** Every column of every table, table after table, each in declared order. */
  function FlatColumns(tables: seq<Table>): seq<Column>
  {
    if tables == [] then []
    else FlatColumns(tables[..|tables| - 1]) + tables[|tables| - 1].Columns
  }

  /** The graph key `table.Name + "." + column.Name` of each column of `t`. */
  function TableKeys(t: Table): (keys: seq<string>)
    ensures |keys| == |t.Columns|
  {
    seq(|t.Columns|, k requires 0 <= k < |t.Columns| => t.Name + "." + t.Columns[k].Name)
  }

  /** The graph key of every column, in the order of `FlatColumns`. */
  function FlatKeys(tables: seq<Table>): (keys: seq<string>)
    ensures |keys| == |FlatColumns(tables)|
  {
    if tables == [] then []
    else FlatKeys(tables[..|tables| - 1]) + TableKeys(tables[|tables| - 1])
  }

  /** The number of columns in the first t tables: the index of table t's first column. */
  function Offset(tables: seq<Table>, t: nat): nat
    requires t <= |tables|
  {
    |FlatColumns(tables[..t])|
  }

  /** Column c of table t is node `Offset(t) + c`. */
  lemma {:induction false} FlatIndex(tables: seq<Table>, t: nat, c: nat)
    requires t < |tables| && c < |tables[t].Columns|
    ensures Offset(tables, t) + c < |FlatColumns(tables)|
    ensures FlatColumns(tables)[Offset(tables, t) + c] == tables[t].Columns[c]
    ensures FlatKeys(tables)[Offset(tables, t) + c] == tables[t].Name + "." + tables[t].Columns[c].Name
  {
    var front := tables[..|tables| - 1];
    if t < |tables| - 1 {
      assert front[..t] == tables[..t];
      FlatIndex(front, t, c);
    } else {
      assert tables[..t] == front;
    }
  }

  /** The first t + 1 tables hold table t's columns after the first t tables' columns. */
  lemma OffsetStep(tables: seq<Table>, t: nat)
    requires t < |tables|
    ensures Offset(tables, t + 1) == Offset(tables, t) + |tables[t].Columns|
  {
    assert tables[..t + 1][..t] == tables[..t];
  }

  lemma {:induction false} OffsetBound(tables: seq<Table>, t: nat)
    requires t <= |tables|
    ensures Offset(tables, t) <= |FlatColumns(tables)|
  {
    if t < |tables| {
      var front := tables[..|tables| - 1];
      assert front[..t] == tables[..t];
      OffsetBound(front, t);
    } else {
      assert tables[..t] == tables;
    }
  }

  lemma OffsetEnd(tables: seq<Table>)
    ensures Offset(tables, |tables|) == |FlatColumns(tables)|
  {
    assert tables[..|tables|] == tables;
  }

  /** No two columns share a graph key. */
  predicate UniqueKeys(keys: seq<string>)
  {
    forall a, b :: 0 <= a < b < |keys| ==> keys[a] != keys[b]
  }

  /** The graph key a constraint names. */
  function TargetKey(fk: Constraint): string
  {
    fk.TableName + "." + fk.ColumnName
  }

  /** One of the constraints names `key`. */
  predicate RefersTo(fks: seq<Constraint>, key: string)
  {
    exists f :: 0 <= f < |fks| && TargetKey(fks[f]) == key
  }

  /** The matrix entry the graph has for columns a and b: 1 iff a's constraints name b. */
  function EdgeEntry(cols: seq<Column>, keys: seq<string>, a: nat, b: nat): int
    requires a < |cols| && b < |keys|
  {
    if RefersTo(cols[a].Constraints, keys[b]) then 1 else 0
  }

  // ================================================================ graph construction

  /** The first i columns have their nodes and their key entries, and the map holds nothing else. */
  ghost predicate Indexed(cols: seq<Column>, keys: seq<string>, nodes: seq<ColumnNode>, columnToIndex: map<string, nat>, i: nat)
  {
    && i <= |cols| == |keys| && |nodes| == i == |columnToIndex|
    && (forall k :: 0 <= k < i ==> nodes[k] == ColumnNode(cols[k], false, k))
    && (forall k :: 0 <= k < i ==> keys[k] in columnToIndex && columnToIndex[keys[k]] == k)
    && (forall key :: key in columnToIndex ==> columnToIndex[key] < i && keys[columnToIndex[key]] == key)
  }

  /** Adding column i's node and key entry extends `Indexed` by one column. */
  lemma IndexStep(cols: seq<Column>, keys: seq<string>, nodes: seq<ColumnNode>, columnToIndex: map<string, nat>, i: nat)
    requires UniqueKeys(keys) && Indexed(cols, keys, nodes, columnToIndex, i) && i < |cols|
    ensures Indexed(cols, keys, nodes + [ColumnNode(cols[i], false, i)], columnToIndex[keys[i] := i], i + 1)
  {
    var nodes', columnToIndex' := nodes + [ColumnNode(cols[i], false, i)], columnToIndex[keys[i] := i];
    assert forall k :: 0 <= k < i ==> keys[k] != keys[i];
    assert keys[i] !in columnToIndex;
    assert |columnToIndex'| == i + 1;
  }

  /** The inner loop of the first loop of `GenerateColumnGraph`, over the columns of table t. */
  method IndexTable(tables: seq<Table>, t: nat, nodes: seq<ColumnNode>, columnToIndex: map<string, nat>, i: nat)
    returns (nodes': seq<ColumnNode>, columnToIndex': map<string, nat>, i': nat)
    requires UniqueKeys(FlatKeys(tables)) && t < |tables|
    requires i == Offset(tables, t) && Indexed(FlatColumns(tables), FlatKeys(tables), nodes, columnToIndex, i)
    ensures i' == Offset(tables, t + 1) && Indexed(FlatColumns(tables), FlatKeys(tables), nodes', columnToIndex', i')
  {
    ghost var cols, keys := FlatColumns(tables), FlatKeys(tables);
    nodes', columnToIndex', i' := nodes, columnToIndex, i;
    var table := tables[t];
    OffsetStep(tables, t);
    OffsetBound(tables, t + 1);
    var c := 0;
    while c < |table.Columns|
      invariant 0 <= c <= |table.Columns| && i' == Offset(tables, t) + c
      invariant Offset(tables, t) + |table.Columns| <= |cols|
      invariant Indexed(cols, keys, nodes', columnToIndex', i')
    {
      var column := table.Columns[c];
      FlatIndex(tables, t, c);
      var key := table.Name + "." + column.Name;
      IndexStep(cols, keys, nodes', columnToIndex', i');
      columnToIndex' := columnToIndex'[key := i'];
      nodes' := nodes' + [ColumnNode(column, false, i')];
      i' := i' + 1;
      c := c + 1;
    }
  }

  /** The first loop of `GenerateColumnGraph`: one undone node and one key entry per column. */
  method IndexColumns(tables: seq<Table>) returns (nodes: seq<ColumnNode>, columnToIndex: map<string, nat>)
    requires UniqueKeys(FlatKeys(tables))
    ensures |nodes| == |FlatColumns(tables)| == |columnToIndex|
    ensures forall k :: 0 <= k < |nodes| ==> nodes[k] == ColumnNode(FlatColumns(tables)[k], false, k)
    ensures forall k :: 0 <= k < |nodes| ==> FlatKeys(tables)[k] in columnToIndex && columnToIndex[FlatKeys(tables)[k]] == k
    ensures forall key :: key in columnToIndex ==> columnToIndex[key] < |nodes| && FlatKeys(tables)[columnToIndex[key]] == key
  {
    nodes := [];
    columnToIndex := map[];
    var i := 0;
    var t := 0;
    assert tables[..0] == [];
    while t < |tables|
      invariant 0 <= t <= |tables| && i == Offset(tables, t)
      invariant Indexed(FlatColumns(tables), FlatKeys(tables), nodes, columnToIndex, i)
    {
      nodes, columnToIndex, i := IndexTable(tables, t, nodes, columnToIndex, i);
      t := t + 1;
    }
    OffsetEnd(tables);
  }

  /** Sets row i to the constraints `fks` of column i: a 1 at every column a key names. */
  method LinkConstraints(am: AdjacencyMatrix, i: nat, fks: seq<Constraint>, columnToIndex: map<string, nat>,
                         ghost keys: seq<string>)
    returns (am': AdjacencyMatrix)
    requires IsSquare(am) && i < |am| && |keys| == |am| && UniqueKeys(keys)
    requires forall k :: 0 <= k < |keys| ==> keys[k] in columnToIndex && columnToIndex[keys[k]] == k
    requires forall key :: key in columnToIndex ==> columnToIndex[key] < |keys| && keys[columnToIndex[key]] == key
    ensures IsSquare(am') && |am'| == |am|
    ensures forall a, b :: 0 <= a < |am| && 0 <= b < |am| && a != i ==> am'[a][b] == am[a][b]
    ensures forall b :: 0 <= b < |am| ==> am'[i][b] == if RefersTo(fks, keys[b]) then 1 else am[i][b]
  {
    am' := am;
    var f := 0;
    while f < |fks|
      invariant 0 <= f <= |fks|
      invariant IsSquare(am') && |am'| == |am|
      invariant forall a, b :: 0 <= a < |am| && 0 <= b < |am| && a != i ==> am'[a][b] == am[a][b]
      invariant forall b :: 0 <= b < |am| ==> am'[i][b] == if RefersTo(fks[..f], keys[b]) then 1 else am[i][b]
    {
      var target := TargetKey(fks[f]);
      if target in columnToIndex {
        var j := columnToIndex[target];
        am' := am'[i := am'[i][j := 1]];
      }
      forall b | 0 <= b < |am| ensures RefersTo(fks[..f + 1], keys[b]) <==> RefersTo(fks[..f], keys[b]) || target == keys[b] {
        if RefersTo(fks[..f + 1], keys[b]) {
          var g :| 0 <= g < f + 1 && TargetKey(fks[..f + 1][g]) == keys[b];
          if g < f {
            assert fks[..f][g] == fks[g];
          }
        }
        if RefersTo(fks[..f], keys[b]) {
          var g :| 0 <= g < f && TargetKey(fks[..f][g]) == keys[b];
          assert fks[..f + 1][g] == fks[g];
        }
        if target == keys[b] {
          assert fks[..f + 1][f] == fks[f];
        }
      }
      f := f + 1;
    }
    assert fks[..|fks|] == fks;
  }

  /** Rows below g hold the edges of their columns; the others are still zero. */
  ghost predicate LinkedUpTo(am: AdjacencyMatrix, cols: seq<Column>, keys: seq<string>, g: nat)
  {
    && IsSquare(am) && |am| == |cols| == |keys| && g <= |cols|
    && forall a, b :: 0 <= a < |cols| && 0 <= b < |cols| ==> am[a][b] == if a < g then EdgeEntry(cols, keys, a, b) else 0
  }

  /** Filling row g with its column's edges extends `LinkedUpTo` by one row. */
  lemma LinkStep(am: AdjacencyMatrix, am': AdjacencyMatrix, cols: seq<Column>, keys: seq<string>, g: nat)
    requires LinkedUpTo(am, cols, keys, g) && g < |cols|
    requires IsSquare(am') && |am'| == |am|
    requires forall a, b :: 0 <= a < |am| && 0 <= b < |am| && a != g ==> am'[a][b] == am[a][b]
    requires forall b :: 0 <= b < |am| ==> am'[g][b] == if RefersTo(cols[g].Constraints, keys[b]) then 1 else am[g][b]
    ensures LinkedUpTo(am', cols, keys, g + 1)
  {
  }

  /** The inner loop of the second loop of `GenerateColumnGraph`, over the columns of table t. */
  method LinkTable(tables: seq<Table>, t: nat, am: AdjacencyMatrix, columnToIndex: map<string, nat>)
    returns (am': AdjacencyMatrix)
    requires UniqueKeys(FlatKeys(tables)) && t < |tables|
    requires forall k :: 0 <= k < |FlatKeys(tables)| ==> FlatKeys(tables)[k] in columnToIndex && columnToIndex[FlatKeys(tables)[k]] == k
    requires forall key :: key in columnToIndex ==> columnToIndex[key] < |FlatKeys(tables)| && FlatKeys(tables)[columnToIndex[key]] == key
    requires LinkedUpTo(am, FlatColumns(tables), FlatKeys(tables), Offset(tables, t))
    ensures LinkedUpTo(am', FlatColumns(tables), FlatKeys(tables), Offset(tables, t + 1))
  {
    ghost var cols, keys := FlatColumns(tables), FlatKeys(tables);
    var table := tables[t];
    OffsetStep(tables, t);
    OffsetBound(tables, t + 1);
    am' := am;
    ghost var g := Offset(tables, t);
    var c := 0;
    while c < |table.Columns|
      invariant 0 <= c <= |table.Columns| && g == Offset(tables, t) + c
      invariant Offset(tables, t) + |table.Columns| <= |cols|
      invariant LinkedUpTo(am', cols, keys, g)
    {
      var column := table.Columns[c];
      FlatIndex(tables, t, c);
      if column.HasConstraint() {
        var key := table.Name + "." + column.Name;
        if key in columnToIndex {
          var i := columnToIndex[key];
          assert i == g;
          var linked := LinkConstraints(am', i, column.Constraints, columnToIndex, keys);
          LinkStep(am', linked, cols, keys, g);
          am' := linked;
        }
      } else {
        LinkStep(am', am', cols, keys, g);
      }
      g := g + 1;
      c := c + 1;
    }
  }

  /**
   * `GenerateColumnGraph`: node k is the k-th column in table-then-column
   * order, not done; with unique `table.column` keys the matrix is N x N
   * and `[i][j]` is 1 iff a constraint of column i names column j. A key
   * naming no column adds nothing.
   */
  method GenerateColumnGraph(tables: seq<Table>) returns (cg: ColumnGraph)
    requires UniqueKeys(FlatKeys(tables))
    ensures fresh(cg) && cg.Valid()
    ensures |cg.ColumnNodes| == |FlatColumns(tables)|
    ensures forall k :: 0 <= k < |cg.ColumnNodes| ==> cg.ColumnNodes[k] == ColumnNode(FlatColumns(tables)[k], false, k)
    ensures forall a, b :: 0 <= a < |cg.ColumnNodes| && 0 <= b < |cg.ColumnNodes| ==>
      cg.AdjacencyMatrix[a][b] == EdgeEntry(FlatColumns(tables), FlatKeys(tables), a, b)
  {
    ghost var cols, keys := FlatColumns(tables), FlatKeys(tables);
    var columnNodes, columnToIndex := IndexColumns(tables);
    var am := NewAdjacencyMatrix(|columnToIndex|);
    assert forall k :: 0 <= k < |keys| ==> keys[k] in columnToIndex && columnToIndex[keys[k]] == k;
    assert forall key :: key in columnToIndex ==> columnToIndex[key] < |keys| && keys[columnToIndex[key]] == key;
    assert tables[..0] == [];
    assert LinkedUpTo(am, cols, keys, Offset(tables, 0));
    var t := 0;
    while t < |tables|
      invariant 0 <= t <= |tables|
      invariant LinkedUpTo(am, cols, keys, Offset(tables, t))
    {
      am := LinkTable(tables, t, am, columnToIndex);
      t := t + 1;
    }
    OffsetEnd(tables);
    cg := new ColumnGraph(am, columnNodes);
  }

  // ================================================================ resolution state

  /** Node k's column's full name: its key in the value dictionary. */
  function FullNameOf(nodes: seq<ColumnNode>, k: nat): string
    requires k < |nodes|
  {
    nodes[k].column.FullName
  }

  /** Row r of the values stored under `key`; "" when there is none. */
  function ValueAt(dict: map<string, seq<Value>>, key: string, r: nat): Value
  {
    if key in dict && r < |dict[key]| then dict[key][r] else ""
  }

  /** The concatenation of row r of the values of the nodes `ps`, in that order. */
  function RowConcat(ps: seq<nat>, nodes: seq<ColumnNode>, dict: map<string, seq<Value>>, r: nat): Value
  {
    if ps == [] then ""
    else
      var p := ps[|ps| - 1];
      RowConcat(ps[..|ps| - 1], nodes, dict, r) + (if p < |nodes| then ValueAt(dict, FullNameOf(nodes, p), r) else "")
  }

  /** The n values of a derived node: row by row, its parents' row values concatenated in ascending parent order. */
  function DerivedValues(am: AdjacencyMatrix, nodes: seq<ColumnNode>, dict: map<string, seq<Value>>, n: nat, k: nat): (vs: seq<Value>)
    requires k < |am|
    ensures |vs| == n
  {
    seq(n, r requires 0 <= r < n => RowConcat(ParentIndexes(am, k), nodes, dict, r))
  }

  /** A derived node with a single parent p gets an exact copy of p's n values. */
  lemma SingleParentCopies(am: AdjacencyMatrix, nodes: seq<ColumnNode>, dict: map<string, seq<Value>>, n: nat, k: nat, p: nat)
    requires k < |am| && p < |nodes| && ParentIndexes(am, k) == [p]
    requires FullNameOf(nodes, p) in dict && |dict[FullNameOf(nodes, p)]| == n
    ensures DerivedValues(am, nodes, dict, n, k) == dict[FullNameOf(nodes, p)]
  {
    var ps := ParentIndexes(am, k);
    var vs := dict[FullNameOf(nodes, p)];
    assert ps[..0] == [];
    forall r | 0 <= r < n ensures DerivedValues(am, nodes, dict, n, k)[r] == vs[r] {
      assert RowConcat(ps, nodes, dict, r) == "" + ValueAt(dict, FullNameOf(nodes, p), r);
    }
  }

  /** n values that `GenerateData` can produce for column c. */
  ghost predicate FreshValues(c: Column, vs: seq<Value>, n: nat)
  {
    && |vs| == n
    && (c.AutoIncrement ==> forall r :: 0 <= r < n ==> AllDigits(vs[r]) && |vs[r]| > 0 && DecimalValue(vs[r]) == r)
    && (!c.AutoIncrement ==> forall r :: 0 <= r < n ==> c.IsRandomValue(vs[r]))
  }

  ghost predicate WellFormed(am: AdjacencyMatrix, nodes: seq<ColumnNode>)
  {
    IsSquare(am) && |nodes| == |am|
  }

  /** A rank that strictly decreases along every edge: the graph has no cycle. */
  ghost predicate Acyclic(am: AdjacencyMatrix, rank: seq<nat>)
  {
    && IsSquare(am) && |rank| == |am|
    && forall a, b :: 0 <= a < |am| && 0 <= b < |am| && am[a][b] == 1 ==> rank[b] < rank[a]
  }

  ghost predicate UniqueFullNames(nodes: seq<ColumnNode>)
  {
    forall a, b :: 0 <= a < |nodes| && 0 <= b < |nodes| && a != b ==> FullNameOf(nodes, a) != FullNameOf(nodes, b)
  }

  /** Every column that gets random values can be generated for (no negative string size). */
  ghost predicate RandomReady(nodes: seq<ColumnNode>)
  {
    forall k :: 0 <= k < |nodes| && !nodes[k].column.AutoIncrement ==> nodes[k].column.RandomDataDefined()
  }

  /**
   * Done node k's entry is in place: all its parents are done, and its n
   * values are fresh if it has no parent and derived from its parents otherwise.
   */
  ghost predicate Resolved(am: AdjacencyMatrix, nodes: seq<ColumnNode>, dict: map<string, seq<Value>>, n: nat, k: nat)
    requires WellFormed(am, nodes) && k < |nodes|
  {
    && FullNameOf(nodes, k) in dict
    && ParentsDone(am, nodes, k)
    && (if HasParents(am, k) then dict[FullNameOf(nodes, k)] == DerivedValues(am, nodes, dict, n, k)
        else FreshValues(nodes[k].column, dict[FullNameOf(nodes, k)], n))
  }

  /** The resolution invariant: every done node is resolved, and the dictionary holds only done nodes. */
  ghost predicate Inv(am: AdjacencyMatrix, nodes: seq<ColumnNode>, dict: map<string, seq<Value>>, n: nat)
  {
    && WellFormed(am, nodes)
    && (forall k :: 0 <= k < |nodes| && nodes[k].isDone ==> Resolved(am, nodes, dict, n, k))
    && (forall key :: key in dict ==> exists k :: 0 <= k < |nodes| && nodes[k].isDone && FullNameOf(nodes, k) == key)
  }

  /** Node k is waiting: undone, with parents, all of them done. */
  ghost predicate Pending(am: AdjacencyMatrix, nodes: seq<ColumnNode>, k: nat)
    requires WellFormed(am, nodes) && k < |nodes|
  {
    !nodes[k].isDone && HasParents(am, k) && ParentsDone(am, nodes, k)
  }

  /** Only nodes of E may be waiting. */
  ghost predicate NoPendingOutside(am: AdjacencyMatrix, nodes: seq<ColumnNode>, E: set<nat>)
    requires WellFormed(am, nodes)
  {
    forall k :: 0 <= k < |nodes| && Pending(am, nodes, k) ==> k in E
  }

  /** b is a later state of a: same columns, and every done flag stays set. */
  ghost predicate Grows(a: seq<ColumnNode>, b: seq<ColumnNode>)
  {
    && |a| == |b|
    && forall k :: 0 <= k < |a| ==> b[k].column == a[k].column && b[k].index == a[k].index && (a[k].isDone ==> b[k].isDone)
  }

  /** The entries of the nodes done in `nodes` are the same in d1 as in d0. */
  ghost predicate KeepsDone(nodes: seq<ColumnNode>, d0: map<string, seq<Value>>, d1: map<string, seq<Value>>)
  {
    forall k :: 0 <= k < |nodes| && nodes[k].isDone && FullNameOf(nodes, k) in d0 ==>
      FullNameOf(nodes, k) in d1 && d1[FullNameOf(nodes, k)] == d0[FullNameOf(nodes, k)]
  }

  function UndoneCount(nodes: seq<ColumnNode>): nat
  {
    if nodes == [] then 0
    else UndoneCount(nodes[..|nodes| - 1]) + (if nodes[|nodes| - 1].isDone then 0 else 1)
  }

  function Elements(s: seq<nat>): set<nat>
  {
    set x | x in s
  }

  // ================================================================ resolution lemmas

  lemma {:induction false} UndoneCountGrows(a: seq<ColumnNode>, b: seq<ColumnNode>)
    requires Grows(a, b)
    ensures UndoneCount(b) <= UndoneCount(a)
  {
    if a != [] {
      UndoneCountGrows(a[..|a| - 1], b[..|b| - 1]);
    }
  }

  lemma {:induction false} UndoneCountDone(nodes: seq<ColumnNode>, i: nat)
    requires i < |nodes| && !nodes[i].isDone
    ensures UndoneCount(nodes[i := nodes[i].Done()]) + 1 == UndoneCount(nodes)
  {
    var m := |nodes|;
    var nodes' := nodes[i := nodes[i].Done()];
    if i < m - 1 {
      assert nodes'[..m - 1] == nodes[..m - 1][i := nodes[i].Done()];
      UndoneCountDone(nodes[..m - 1], i);
    } else {
      assert nodes'[..m - 1] == nodes[..m - 1];
    }
  }

  /** RowConcat reads only the names and values of the nodes it concatenates. */
  lemma {:induction false} RowConcatFrame(ps: seq<nat>, nodes: seq<ColumnNode>, dict: map<string, seq<Value>>,
                                          nodes': seq<ColumnNode>, dict': map<string, seq<Value>>, r: nat)
    requires |nodes'| == |nodes|
    requires forall s :: 0 <= s < |ps| && ps[s] < |nodes| ==>
      FullNameOf(nodes', ps[s]) == FullNameOf(nodes, ps[s]) &&
      ValueAt(dict', FullNameOf(nodes, ps[s]), r) == ValueAt(dict, FullNameOf(nodes, ps[s]), r)
    ensures RowConcat(ps, nodes', dict', r) == RowConcat(ps, nodes, dict, r)
  {
    if ps != [] {
      var front := ps[..|ps| - 1];
      forall s | 0 <= s < |front| && front[s] < |nodes|
        ensures FullNameOf(nodes', front[s]) == FullNameOf(nodes, front[s])
        ensures ValueAt(dict', FullNameOf(nodes, front[s]), r) == ValueAt(dict, FullNameOf(nodes, front[s]), r)
      {
        assert front[s] == ps[s];
      }
      RowConcatFrame(front, nodes, dict, nodes', dict', r);
    }
  }

  /**
   * Derived values stay the same when no parent's name or entry changes.
   */
  lemma DerivedFrame(am: AdjacencyMatrix, nodes: seq<ColumnNode>, dict: map<string, seq<Value>>,
                     nodes': seq<ColumnNode>, dict': map<string, seq<Value>>, n: nat, k: nat)
    requires WellFormed(am, nodes) && |nodes'| == |nodes| && k < |am|
    requires forall p :: 0 <= p < |am| && am[k][p] == 1 ==>
      FullNameOf(nodes', p) == FullNameOf(nodes, p) &&
      (FullNameOf(nodes, p) in dict <==> FullNameOf(nodes, p) in dict') &&
      (FullNameOf(nodes, p) in dict ==> dict'[FullNameOf(nodes, p)] == dict[FullNameOf(nodes, p)])
    ensures DerivedValues(am, nodes', dict', n, k) == DerivedValues(am, nodes, dict, n, k)
  {
    var ps := ParentIndexes(am, k);
    OnesInSpec(am[k]);
    forall r | 0 <= r < n ensures RowConcat(ps, nodes', dict', r) == RowConcat(ps, nodes, dict, r) {
      forall s | 0 <= s < |ps| && ps[s] < |nodes|
        ensures FullNameOf(nodes', ps[s]) == FullNameOf(nodes, ps[s])
        ensures ValueAt(dict', FullNameOf(nodes, ps[s]), r) == ValueAt(dict, FullNameOf(nodes, ps[s]), r)
      {
        assert ps[s] in ps;
      }
      RowConcatFrame(ps, nodes, dict, nodes', dict', r);
    }
  }

  /** With nothing done, the empty dictionary satisfies the invariant and nothing is waiting. */
  lemma InitialState(am: AdjacencyMatrix, nodes: seq<ColumnNode>, n: nat)
    requires WellFormed(am, nodes)
    requires forall k :: 0 <= k < |nodes| ==> !nodes[k].isDone
    ensures Inv(am, nodes, map[], n)
    ensures NoPendingOutside(am, nodes, {})
  {
    forall k | 0 <= k < |nodes| ensures !Pending(am, nodes, k) {
      if HasParents(am, k) {
        var j :| 0 <= j < |am[k]| && am[k][j] == 1;
        assert !nodes[j].isDone;
      }
    }
  }

  /** A done node other than i stays resolved when i is marked done with a new entry. */
  lemma KeepResolved(am: AdjacencyMatrix, nodes: seq<ColumnNode>, dict: map<string, seq<Value>>, n: nat,
                     i: nat, vals: seq<Value>, k: nat)
    requires WellFormed(am, nodes) && UniqueFullNames(nodes)
    requires i < |nodes| && !nodes[i].isDone && k < |nodes| && k != i
    requires Resolved(am, nodes, dict, n, k)
    ensures Resolved(am, nodes[i := nodes[i].Done()], dict[FullNameOf(nodes, i) := vals], n, k)
  {
    var nodes' := nodes[i := nodes[i].Done()];
    var dict' := dict[FullNameOf(nodes, i) := vals];
    assert FullNameOf(nodes, k) != FullNameOf(nodes, i);
    forall p | 0 <= p < |am| && am[k][p] == 1
      ensures FullNameOf(nodes', p) == FullNameOf(nodes, p)
      ensures FullNameOf(nodes, p) in dict <==> FullNameOf(nodes, p) in dict'
      ensures FullNameOf(nodes, p) in dict ==> dict'[FullNameOf(nodes, p)] == dict[FullNameOf(nodes, p)]
    {
      assert nodes[p].isDone;
      assert FullNameOf(nodes, p) != FullNameOf(nodes, i);
    }
    DerivedFrame(am, nodes, dict, nodes', dict', n, k);
  }

  /** Node i, once marked done with values fresh or derived from its done parents, is resolved. */
  lemma NewResolved(am: AdjacencyMatrix, nodes: seq<ColumnNode>, dict: map<string, seq<Value>>, n: nat,
                    i: nat, vals: seq<Value>, rank: seq<nat>)
    requires WellFormed(am, nodes) && Acyclic(am, rank) && UniqueFullNames(nodes)
    requires i < |nodes| && !nodes[i].isDone && ParentsDone(am, nodes, i)
    requires HasParents(am, i) ==> vals == DerivedValues(am, nodes, dict, n, i)
    requires !HasParents(am, i) ==> FreshValues(nodes[i].column, vals, n)
    ensures Resolved(am, nodes[i := nodes[i].Done()], dict[FullNameOf(nodes, i) := vals], n, i)
  {
    var nodes' := nodes[i := nodes[i].Done()];
    var dict' := dict[FullNameOf(nodes, i) := vals];
    forall p | 0 <= p < |am| && am[i][p] == 1
      ensures FullNameOf(nodes', p) == FullNameOf(nodes, p)
      ensures FullNameOf(nodes, p) in dict <==> FullNameOf(nodes, p) in dict'
      ensures FullNameOf(nodes, p) in dict ==> dict'[FullNameOf(nodes, p)] == dict[FullNameOf(nodes, p)]
    {
      assert rank[p] < rank[i];
      assert FullNameOf(nodes, p) != FullNameOf(nodes, i);
    }
    DerivedFrame(am, nodes, dict, nodes', dict', n, i);
    assert ParentsDone(am, nodes', i);
  }

  /**
   * Marking an undone node done, with all its parents done, after storing
   * its values, keeps the invariant and every earlier done entry.
   */
  lemma MarkResolved(am: AdjacencyMatrix, nodes: seq<ColumnNode>, dict: map<string, seq<Value>>, n: nat,
                     i: nat, vals: seq<Value>, rank: seq<nat>)
    requires Inv(am, nodes, dict, n) && Acyclic(am, rank) && UniqueFullNames(nodes)
    requires i < |nodes| && !nodes[i].isDone && ParentsDone(am, nodes, i)
    requires HasParents(am, i) ==> vals == DerivedValues(am, nodes, dict, n, i)
    requires !HasParents(am, i) ==> FreshValues(nodes[i].column, vals, n)
    ensures Inv(am, nodes[i := nodes[i].Done()], dict[FullNameOf(nodes, i) := vals], n)
    ensures Grows(nodes, nodes[i := nodes[i].Done()])
    ensures KeepsDone(nodes, dict, dict[FullNameOf(nodes, i) := vals])
  {
    var nodes' := nodes[i := nodes[i].Done()];
    var fi := FullNameOf(nodes, i);
    var dict' := dict[fi := vals];
    forall k | 0 <= k < |nodes'| && nodes'[k].isDone ensures Resolved(am, nodes', dict', n, k) {
      if k == i {
        NewResolved(am, nodes, dict, n, i, vals, rank);
      } else {
        KeepResolved(am, nodes, dict, n, i, vals, k);
      }
    }
    forall key | key in dict' ensures exists k :: 0 <= k < |nodes'| && nodes'[k].isDone && FullNameOf(nodes', k) == key {
      if key == fi {
        assert nodes'[i].isDone && FullNameOf(nodes', i) == key;
      } else {
        var k :| 0 <= k < |nodes| && nodes[k].isDone && FullNameOf(nodes, k) == key;
        assert nodes'[k].isDone && FullNameOf(nodes', k) == key;
      }
    }
    forall k | 0 <= k < |nodes| && nodes[k].isDone && FullNameOf(nodes, k) in dict
      ensures FullNameOf(nodes, k) in dict' && dict'[FullNameOf(nodes, k)] == dict[FullNameOf(nodes, k)]
    {
      assert k != i;
    }
  }

  /** Later states keep the columns, so the per-column requirements carry over. */
  lemma GrowsKeepsColumns(a: seq<ColumnNode>, b: seq<ColumnNode>)
    requires Grows(a, b) && UniqueFullNames(a) && RandomReady(a)
    ensures UniqueFullNames(b) && RandomReady(b)
  {
    assert forall k :: 0 <= k < |a| ==> FullNameOf(b, k) == FullNameOf(a, k);
  }

  lemma GrowsTrans(a: seq<ColumnNode>, b: seq<ColumnNode>, c: seq<ColumnNode>)
    requires Grows(a, b) && Grows(b, c)
    ensures Grows(a, c)
  {
  }

  lemma KeepsDoneTrans(a: seq<ColumnNode>, b: seq<ColumnNode>, d0: map<string, seq<Value>>,
                       d1: map<string, seq<Value>>, d2: map<string, seq<Value>>)
    requires Grows(a, b) && KeepsDone(a, d0, d1) && KeepsDone(b, d1, d2)
    ensures KeepsDone(a, d0, d2)
  {
    forall k | 0 <= k < |a| && a[k].isDone && FullNameOf(a, k) in d0
      ensures FullNameOf(a, k) in d2 && d2[FullNameOf(a, k)] == d0[FullNameOf(a, k)]
    {
      assert FullNameOf(b, k) == FullNameOf(a, k) && b[k].isDone;
    }
  }

  /** Every parent of node i has n values in the dictionary. */
  ghost predicate ParentsHaveEntries(am: AdjacencyMatrix, nodes: seq<ColumnNode>, dict: map<string, seq<Value>>, n: nat, i: nat)
    requires WellFormed(am, nodes) && i < |nodes|
  {
    forall p :: 0 <= p < |am| && am[i][p] == 1 ==> FullNameOf(nodes, p) in dict && |dict[FullNameOf(nodes, p)]| == n
  }

  /** A done parent of a node has its n values in the dictionary. */
  lemma ParentEntry(am: AdjacencyMatrix, nodes: seq<ColumnNode>, dict: map<string, seq<Value>>, n: nat, i: nat, p: nat)
    requires Inv(am, nodes, dict, n) && i < |nodes| && ParentsDone(am, nodes, i)
    requires p < |am| && am[i][p] == 1
    ensures FullNameOf(nodes, p) in dict && |dict[FullNameOf(nodes, p)]| == n
  {
    assert nodes[p].isDone;
    assert Resolved(am, nodes, dict, n, p);
  }

  lemma ElementsSplit(s: seq<nat>, t: nat)
    requires t < |s|
    ensures Elements(s[t..]) == {s[t]} + Elements(s[t + 1..])
  {
    assert s[t..] == [s[t]] + s[t + 1..];
  }

  /** The next child to visit is taken out of the waiting set. */
  lemma PendingSplit(am: AdjacencyMatrix, nodes: seq<ColumnNode>, E: set<nat>, cs: seq<nat>, t: nat)
    requires WellFormed(am, nodes) && t < |cs|
    requires NoPendingOutside(am, nodes, E + Elements(cs[t..]))
    ensures NoPendingOutside(am, nodes, (E + Elements(cs[t + 1..])) + {cs[t]})
  {
    ElementsSplit(cs, t);
    assert E + Elements(cs[t..]) == (E + Elements(cs[t + 1..])) + {cs[t]};
  }

  /** Once every child has been visited, only E may be waiting. */
  lemma PendingNone(am: AdjacencyMatrix, nodes: seq<ColumnNode>, E: set<nat>, cs: seq<nat>)
    requires WellFormed(am, nodes)
    requires NoPendingOutside(am, nodes, E + Elements(cs[|cs|..]))
    ensures NoPendingOutside(am, nodes, E)
  {
    assert Elements(cs[|cs|..]) == {};
  }

  /** A node without children adds nothing to the waiting set. */
  lemma NoChildrenPending(am: AdjacencyMatrix, nodes: seq<ColumnNode>, i: nat, E: set<nat>)
    requires WellFormed(am, nodes) && i < |am|
    requires !exists k :: 0 <= k < |am| && am[k][i] == 1
    requires NoPendingOutside(am, nodes, E + Elements(ChildIndexes(am, i)))
    ensures NoPendingOutside(am, nodes, E)
  {
    ChildIndexesSpec(am, i);
    assert E + Elements(ChildIndexes(am, i)) == E;
  }

  /** After marking node i done, only its children can have become waiting. */
  lemma PendingAfterMark(am: AdjacencyMatrix, nodes: seq<ColumnNode>, i: nat, E: set<nat>)
    requires WellFormed(am, nodes) && i < |nodes|
    requires NoPendingOutside(am, nodes, E + {i})
    ensures NoPendingOutside(am, nodes[i := nodes[i].Done()], E + Elements(ChildIndexes(am, i)))
  {
    var nodes' := nodes[i := nodes[i].Done()];
    OnesInSpec(ColumnOf(am, i));
    forall k | 0 <= k < |nodes'| && Pending(am, nodes', k) ensures k in E + Elements(ChildIndexes(am, i)) {
      if am[k][i] == 1 {
        assert ColumnOf(am, i)[k] == 1;
      } else {
        assert ParentsDone(am, nodes, k);
        assert Pending(am, nodes, k);
      }
    }
  }

  /** The invariant and the waiting set carry over to a later state (used after a child was skipped). */
  lemma NotPendingDropped(am: AdjacencyMatrix, nodes: seq<ColumnNode>, c: nat, E: set<nat>)
    requires WellFormed(am, nodes) && c < |nodes| && !ParentsDone(am, nodes, c)
    requires NoPendingOutside(am, nodes, E + {c})
    ensures NoPendingOutside(am, nodes, E)
  {
  }

  // ================================================================ resolution

  /**
   * Case "all parents done" of `generateValuesForColumnsByRecursion`: n
   * values, row j being the concatenation of the parents' row-j values.
   */
  method DeriveValues(cg: ColumnGraph, i: nat, n: nat, dict: map<string, seq<Value>>) returns (values: seq<Value>)
    requires cg.Valid() && i < |cg.ColumnNodes|
    requires ParentsHaveEntries(cg.AdjacencyMatrix, cg.ColumnNodes, dict, n, i)
    ensures values == DerivedValues(cg.AdjacencyMatrix, cg.ColumnNodes, dict, n, i)
  {
    ghost var am, nodes := cg.AdjacencyMatrix, cg.ColumnNodes;
    values := [];
    var j := 0;
    while j < n
      invariant 0 <= j <= n && |values| == j
      invariant forall r :: 0 <= r < j ==> values[r] == RowConcat(ParentIndexes(am, i), nodes, dict, r)
    {
      var d := ConcatParentRow(cg, i, n, j, dict);
      values := values + [d];
      j := j + 1;
    }
  }

  /** One row of `DeriveValues`: the parents' row-j values concatenated in ascending parent order. */
  method ConcatParentRow(cg: ColumnGraph, i: nat, n: nat, j: nat, dict: map<string, seq<Value>>) returns (d: Value)
    requires cg.Valid() && i < |cg.ColumnNodes| && j < n
    requires ParentsHaveEntries(cg.AdjacencyMatrix, cg.ColumnNodes, dict, n, i)
    ensures d == RowConcat(ParentIndexes(cg.AdjacencyMatrix, i), cg.ColumnNodes, dict, j)
  {
    ghost var nodes := cg.ColumnNodes;
    d := "";
    var parentNodeIndexes, _ := cg.ParentNodeIndexes(i);
    var s := 0;
    while s < |parentNodeIndexes|
      invariant 0 <= s <= |parentNodeIndexes|
      invariant d == RowConcat(parentNodeIndexes[..s], nodes, dict, j)
    {
      var p := parentNodeIndexes[s];
      assert p in parentNodeIndexes;
      var fn := cg.ColumnNodes[p].GetColumn().FullName;
      assert parentNodeIndexes[..s + 1][..s] == parentNodeIndexes[..s];
      d := d + dict[fn][j];
      s := s + 1;
    }
    assert parentNodeIndexes[..s] == parentNodeIndexes;
  }

  /**
   * `generateValuesForColumnsByRecursion(cg, i, n, dict)`. A done node is
   * left alone. A node without parents gets `GenerateData(n)`; a node whose
   * parents are all done gets their concatenated values; either is then
   * stored, marked done and cascaded to its children. A node with an undone
   * parent first resolves each undone parent. With an acyclic graph node i
   * is done on return, the invariant holds, and no entry of an earlier done
   * node changed. E is the set of children an enclosing cascade has still
   * to visit; only they may be left waiting.
   */
  method GenerateValuesForColumnsByRecursion(cg: ColumnGraph, i: nat, n: nat, dict: map<string, seq<Value>>,
                                             ghost rank: seq<nat>, ghost E: set<nat>)
    returns (dict': map<string, seq<Value>>)
    requires cg.Valid() && i < |cg.ColumnNodes|
    requires Acyclic(cg.AdjacencyMatrix, rank) && UniqueFullNames(cg.ColumnNodes) && RandomReady(cg.ColumnNodes)
    requires Inv(cg.AdjacencyMatrix, cg.ColumnNodes, dict, n)
    requires NoPendingOutside(cg.AdjacencyMatrix, cg.ColumnNodes, E + {i})
    requires E != {} ==> ParentsDone(cg.AdjacencyMatrix, cg.ColumnNodes, i)
    modifies cg
    ensures cg.Valid() && cg.ColumnNodes[i].isDone
    ensures UniqueFullNames(cg.ColumnNodes) && RandomReady(cg.ColumnNodes)
    ensures Inv(cg.AdjacencyMatrix, cg.ColumnNodes, dict', n)
    ensures NoPendingOutside(cg.AdjacencyMatrix, cg.ColumnNodes, E)
    ensures Grows(old(cg.ColumnNodes), cg.ColumnNodes)
    ensures KeepsDone(old(cg.ColumnNodes), dict, dict')
    ensures old(cg.ColumnNodes[i].isDone) ==> dict' == dict && cg.ColumnNodes == old(cg.ColumnNodes)
    decreases UndoneCount(cg.ColumnNodes), 1, rank[i], 1
  {
    if cg.ColumnNodes[i].IsDone() {
      return dict;
    }
    var hasParentNodes, _ := cg.HasParentNodes(i);
    if !hasParentNodes {
      var c := cg.ColumnNodes[i].GetColumn();
      var d := c.GenerateData(n);
      dict' := StoreAndCascade(cg, i, n, dict, d, rank, E);
    } else {
      var allDone, _ := cg.IsParentNodesAreAllDone(i);
      if allDone {
        forall p | 0 <= p < |cg.AdjacencyMatrix| && cg.AdjacencyMatrix[i][p] == 1
          ensures FullNameOf(cg.ColumnNodes, p) in dict && |dict[FullNameOf(cg.ColumnNodes, p)]| == n
        {
          ParentEntry(cg.AdjacencyMatrix, cg.ColumnNodes, dict, n, i, p);
        }
        var values := DeriveValues(cg, i, n, dict);
        dict' := StoreAndCascade(cg, i, n, dict, values, rank, E);
      } else {
        dict' := ResolveParents(cg, i, n, dict, rank);
      }
    }
  }

  /**
   * What both resolving branches do once node i's values are known: store
   * them under its full name, mark it done, and cascade to its children.
   */
  method StoreAndCascade(cg: ColumnGraph, i: nat, n: nat, dict: map<string, seq<Value>>, vals: seq<Value>,
                         ghost rank: seq<nat>, ghost E: set<nat>)
    returns (dict': map<string, seq<Value>>)
    requires cg.Valid() && i < |cg.ColumnNodes| && !cg.ColumnNodes[i].isDone
    requires Acyclic(cg.AdjacencyMatrix, rank) && UniqueFullNames(cg.ColumnNodes) && RandomReady(cg.ColumnNodes)
    requires Inv(cg.AdjacencyMatrix, cg.ColumnNodes, dict, n)
    requires ParentsDone(cg.AdjacencyMatrix, cg.ColumnNodes, i)
    requires HasParents(cg.AdjacencyMatrix, i) ==> vals == DerivedValues(cg.AdjacencyMatrix, cg.ColumnNodes, dict, n, i)
    requires !HasParents(cg.AdjacencyMatrix, i) ==> FreshValues(cg.ColumnNodes[i].column, vals, n)
    requires NoPendingOutside(cg.AdjacencyMatrix, cg.ColumnNodes, E + {i})
    modifies cg
    ensures cg.Valid() && cg.ColumnNodes[i].isDone
    ensures UniqueFullNames(cg.ColumnNodes) && RandomReady(cg.ColumnNodes)
    ensures Inv(cg.AdjacencyMatrix, cg.ColumnNodes, dict', n)
    ensures NoPendingOutside(cg.AdjacencyMatrix, cg.ColumnNodes, E)
    ensures Grows(old(cg.ColumnNodes), cg.ColumnNodes)
    ensures KeepsDone(old(cg.ColumnNodes), dict, dict')
    decreases UndoneCount(cg.ColumnNodes), 1, rank[i], 0
  {
    ghost var nodes0 := cg.ColumnNodes;
    dict' := dict[cg.ColumnNodes[i].GetColumn().FullName := vals];
    cg.ColumnNodes := cg.ColumnNodes[i := cg.ColumnNodes[i].Done()];
    MarkDoneThenCascade(cg, i, n, dict, vals, nodes0, rank, E);
    ghost var nodes1, dict1 := cg.ColumnNodes, dict';
    dict' := CascadeToChildren(cg, i, n, dict', rank, E);
    GrowsTrans(nodes0, nodes1, cg.ColumnNodes);
    KeepsDoneTrans(nodes0, nodes1, dict, dict1, dict');
    GrowsKeepsColumns(nodes1, cg.ColumnNodes);
  }

  /**
   * The branch of `generateValuesForColumnsByRecursion` for a node with an
   * undone parent: each parent still undone is resolved, in ascending order;
   * the cascades from those parents then resolve node i itself.
   */
  method ResolveParents(cg: ColumnGraph, i: nat, n: nat, dict: map<string, seq<Value>>, ghost rank: seq<nat>)
    returns (dict': map<string, seq<Value>>)
    requires cg.Valid() && i < |cg.ColumnNodes| && !cg.ColumnNodes[i].isDone && HasParents(cg.AdjacencyMatrix, i)
    requires Acyclic(cg.AdjacencyMatrix, rank) && UniqueFullNames(cg.ColumnNodes) && RandomReady(cg.ColumnNodes)
    requires Inv(cg.AdjacencyMatrix, cg.ColumnNodes, dict, n)
    requires NoPendingOutside(cg.AdjacencyMatrix, cg.ColumnNodes, {})
    modifies cg
    ensures cg.Valid() && cg.ColumnNodes[i].isDone
    ensures UniqueFullNames(cg.ColumnNodes) && RandomReady(cg.ColumnNodes)
    ensures Inv(cg.AdjacencyMatrix, cg.ColumnNodes, dict', n)
    ensures NoPendingOutside(cg.AdjacencyMatrix, cg.ColumnNodes, {})
    ensures Grows(old(cg.ColumnNodes), cg.ColumnNodes)
    ensures KeepsDone(old(cg.ColumnNodes), dict, dict')
    decreases UndoneCount(cg.ColumnNodes), 1, rank[i], 0
  {
    ghost var nodes0 := cg.ColumnNodes;
    ghost var am := cg.AdjacencyMatrix;
    dict' := dict;
    var parentNodeIndexes, _ := cg.ParentNodeIndexes(i);
    assert forall q :: 0 <= q < |parentNodeIndexes| ==> parentNodeIndexes[q] in parentNodeIndexes;
    var s := 0;
    while s < |parentNodeIndexes|
      invariant 0 <= s <= |parentNodeIndexes|
      invariant cg.Valid() && Grows(nodes0, cg.ColumnNodes)
      invariant UniqueFullNames(cg.ColumnNodes) && RandomReady(cg.ColumnNodes)
      invariant Inv(am, cg.ColumnNodes, dict', n)
      invariant NoPendingOutside(am, cg.ColumnNodes, {})
      invariant KeepsDone(nodes0, dict, dict')
      invariant forall q :: 0 <= q < |parentNodeIndexes| ==> parentNodeIndexes[q] < |am|
      invariant DoneAt(cg.ColumnNodes, parentNodeIndexes, s)
    {
      var p := parentNodeIndexes[s];
      assert p in parentNodeIndexes;
      if !cg.ColumnNodes[p].IsDone() {
        ghost var nodes1, dict1 := cg.ColumnNodes, dict';
        UndoneCountGrows(nodes0, nodes1);
        assert rank[p] < rank[i];
        dict' := GenerateValuesForColumnsByRecursion(cg, p, n, dict', rank, {});
        GrowsTrans(nodes0, nodes1, cg.ColumnNodes);
        KeepsDoneTrans(nodes0, nodes1, dict, dict1, dict');
        DoneStays(nodes1, cg.ColumnNodes, parentNodeIndexes, s);
      }
      DoneAtStep(cg.ColumnNodes, parentNodeIndexes, s);
      s := s + 1;
    }
    ParentsVisited(am, cg.ColumnNodes, i);
  }

  /** The nodes `ps[..s]` are done. */
  ghost predicate DoneAt(nodes: seq<ColumnNode>, ps: seq<nat>, s: nat)
  {
    s <= |ps| && forall q :: 0 <= q < s ==> ps[q] < |nodes| && nodes[ps[q]].isDone
  }

  lemma DoneAtStep(nodes: seq<ColumnNode>, ps: seq<nat>, s: nat)
    requires DoneAt(nodes, ps, s) && s < |ps| && ps[s] < |nodes| && nodes[ps[s]].isDone
    ensures DoneAt(nodes, ps, s + 1)
  {
  }

  /** Nodes done before stay done in a later state. */
  lemma DoneStays(a: seq<ColumnNode>, b: seq<ColumnNode>, ps: seq<nat>, s: nat)
    requires Grows(a, b) && DoneAt(a, ps, s)
    ensures DoneAt(b, ps, s)
  {
  }

  /** Once every parent of a node is done and nothing is waiting, the node itself is done. */
  lemma ParentsVisited(am: AdjacencyMatrix, nodes: seq<ColumnNode>, i: nat)
    requires WellFormed(am, nodes) && i < |nodes| && HasParents(am, i)
    requires DoneAt(nodes, ParentIndexes(am, i), |ParentIndexes(am, i)|)
    requires NoPendingOutside(am, nodes, {})
    ensures nodes[i].isDone
  {
    var ps := ParentIndexes(am, i);
    OnesInSpec(am[i]);
    forall j | 0 <= j < |am[i]| && am[i][j] == 1 ensures nodes[j].isDone {
      assert j in ps;
      var q :| 0 <= q < |ps| && ps[q] == j;
    }
    assert !Pending(am, nodes, i);
  }

  /** The facts the cascade needs once node i has been given its values and marked done. */
  lemma MarkDoneThenCascade(cg: ColumnGraph, i: nat, n: nat, dict: map<string, seq<Value>>, vals: seq<Value>,
                            nodes0: seq<ColumnNode>, rank: seq<nat>, E: set<nat>)
    requires WellFormed(cg.AdjacencyMatrix, nodes0) && i < |nodes0| && !nodes0[i].isDone
    requires cg.ColumnNodes == nodes0[i := nodes0[i].Done()]
    requires Inv(cg.AdjacencyMatrix, nodes0, dict, n) && Acyclic(cg.AdjacencyMatrix, rank)
    requires UniqueFullNames(nodes0) && RandomReady(nodes0)
    requires ParentsDone(cg.AdjacencyMatrix, nodes0, i)
    requires HasParents(cg.AdjacencyMatrix, i) ==> vals == DerivedValues(cg.AdjacencyMatrix, nodes0, dict, n, i)
    requires !HasParents(cg.AdjacencyMatrix, i) ==> FreshValues(nodes0[i].column, vals, n)
    requires NoPendingOutside(cg.AdjacencyMatrix, nodes0, E + {i})
    ensures cg.Valid() && cg.ColumnNodes[i].isDone
    ensures Inv(cg.AdjacencyMatrix, cg.ColumnNodes, dict[FullNameOf(nodes0, i) := vals], n)
    ensures UniqueFullNames(cg.ColumnNodes) && RandomReady(cg.ColumnNodes)
    ensures NoPendingOutside(cg.AdjacencyMatrix, cg.ColumnNodes, E + Elements(ChildIndexes(cg.AdjacencyMatrix, i)))
    ensures Grows(nodes0, cg.ColumnNodes) && KeepsDone(nodes0, dict, dict[FullNameOf(nodes0, i) := vals])
    ensures UndoneCount(cg.ColumnNodes) + 1 == UndoneCount(nodes0)
  {
    MarkResolved(cg.AdjacencyMatrix, nodes0, dict, n, i, vals, rank);
    PendingAfterMark(cg.AdjacencyMatrix, nodes0, i, E);
    UndoneCountDone(nodes0, i);
    GrowsKeepsColumns(nodes0, cg.ColumnNodes);
  }

  /**
   * The cascade that both resolving branches run after marking node i done:
   * every child whose parents are now all done is resolved, in ascending order.
   */
  method CascadeToChildren(cg: ColumnGraph, i: nat, n: nat, dict: map<string, seq<Value>>,
                           ghost rank: seq<nat>, ghost E: set<nat>)
    returns (dict': map<string, seq<Value>>)
    requires cg.Valid() && i < |cg.ColumnNodes| && cg.ColumnNodes[i].isDone
    requires Acyclic(cg.AdjacencyMatrix, rank) && UniqueFullNames(cg.ColumnNodes) && RandomReady(cg.ColumnNodes)
    requires Inv(cg.AdjacencyMatrix, cg.ColumnNodes, dict, n)
    requires NoPendingOutside(cg.AdjacencyMatrix, cg.ColumnNodes, E + Elements(ChildIndexes(cg.AdjacencyMatrix, i)))
    modifies cg
    ensures cg.Valid()
    ensures UniqueFullNames(cg.ColumnNodes) && RandomReady(cg.ColumnNodes)
    ensures Inv(cg.AdjacencyMatrix, cg.ColumnNodes, dict', n)
    ensures NoPendingOutside(cg.AdjacencyMatrix, cg.ColumnNodes, E)
    ensures Grows(old(cg.ColumnNodes), cg.ColumnNodes)
    ensures KeepsDone(old(cg.ColumnNodes), dict, dict')
    decreases UndoneCount(cg.ColumnNodes) + 1, 0, 0, 0
  {
    ghost var nodes0 := cg.ColumnNodes;
    ghost var am := cg.AdjacencyMatrix;
    dict' := dict;
    var hasChildrenNodes, _ := cg.HasChildrenNodes(i);
    if !hasChildrenNodes {
      NoChildrenPending(am, cg.ColumnNodes, i, E);
      return;
    }
    var childrenNodeIndexes, _ := cg.ChildrenNodeIndexes(i);
    var t := 0;
    while t < |childrenNodeIndexes|
      invariant 0 <= t <= |childrenNodeIndexes|
      invariant cg.Valid() && Grows(nodes0, cg.ColumnNodes)
      invariant UniqueFullNames(cg.ColumnNodes) && RandomReady(cg.ColumnNodes)
      invariant Inv(am, cg.ColumnNodes, dict', n)
      invariant NoPendingOutside(am, cg.ColumnNodes, E + Elements(childrenNodeIndexes[t..]))
      invariant KeepsDone(nodes0, dict, dict')
    {
      var child := childrenNodeIndexes[t];
      assert child in childrenNodeIndexes;
      ghost var rest := E + Elements(childrenNodeIndexes[t + 1..]);
      PendingSplit(am, cg.ColumnNodes, E, childrenNodeIndexes, t);
      var allDone, _ := cg.IsParentNodesAreAllDone(child);
      if allDone {
        ghost var nodes1, dict1 := cg.ColumnNodes, dict';
        UndoneCountGrows(nodes0, nodes1);
        dict' := GenerateValuesForColumnsByRecursion(cg, child, n, dict', rank, rest);
        GrowsTrans(nodes0, nodes1, cg.ColumnNodes);
        KeepsDoneTrans(nodes0, nodes1, dict, dict1, dict');
      } else {
        NotPendingDropped(am, cg.ColumnNodes, child, rest);
      }
      t := t + 1;
    }
    PendingNone(am, cg.ColumnNodes, E, childrenNodeIndexes);
  }

  /**
   * `GenerateValuesForColumns(cg, n)`: resolves node after node while some
   * node is undone. For an acyclic graph with unique full names, every node
   * ends up done and the dictionary holds exactly one entry per column, n
   * values long: fresh values for a parentless column, the row-wise
   * concatenation of its parents' values otherwise.
   */
  method GenerateValuesForColumns(cg: ColumnGraph, n: nat, ghost rank: seq<nat>) returns (dict: map<string, seq<Value>>)
    requires cg.Valid() && Acyclic(cg.AdjacencyMatrix, rank)
    requires UniqueFullNames(cg.ColumnNodes) && RandomReady(cg.ColumnNodes)
    requires forall k :: 0 <= k < |cg.ColumnNodes| ==> !cg.ColumnNodes[k].isDone
    modifies cg
    ensures cg.Valid() && Grows(old(cg.ColumnNodes), cg.ColumnNodes)
    ensures forall k :: 0 <= k < |cg.ColumnNodes| ==> cg.ColumnNodes[k].isDone
    ensures Inv(cg.AdjacencyMatrix, cg.ColumnNodes, dict, n)
    ensures forall key :: key in dict <==> exists k :: 0 <= k < |cg.ColumnNodes| && FullNameOf(cg.ColumnNodes, k) == key
    ensures forall k :: 0 <= k < |cg.ColumnNodes| ==> |dict[FullNameOf(cg.ColumnNodes, k)]| == n
  {
    ghost var nodes0 := cg.ColumnNodes;
    ghost var am := cg.AdjacencyMatrix;
    dict := map[];
    InitialState(am, nodes0, n);
    var i := 0;
    while i < |cg.ColumnNodes|
      invariant 0 <= i <= |cg.ColumnNodes|
      invariant cg.Valid() && Grows(nodes0, cg.ColumnNodes)
      invariant UniqueFullNames(cg.ColumnNodes) && RandomReady(cg.ColumnNodes)
      invariant Inv(am, cg.ColumnNodes, dict, n)
      invariant NoPendingOutside(am, cg.ColumnNodes, {})
      invariant forall k :: 0 <= k < i ==> cg.ColumnNodes[k].isDone
    {
      var allDone := cg.IsAllDone();
      if !allDone {
        ghost var nodes1 := cg.ColumnNodes;
        dict := GenerateValuesForColumnsByRecursion(cg, i, n, dict, rank, {});
        GrowsTrans(nodes0, nodes1, cg.ColumnNodes);
      }
      i := i + 1;
    }
    forall k | 0 <= k < |cg.ColumnNodes| ensures |dict[FullNameOf(cg.ColumnNodes, k)]| == n {
      assert Resolved(am, cg.ColumnNodes, dict, n, k);
    }
  }
}
