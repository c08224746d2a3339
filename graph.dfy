/**
 * The column graph of the newest revision (domain/model/schema_graph.go):
 * one node per column, an N x N 0/1 adjacency matrix where a 1 at `[i][j]`
 * means "column i has a foreign key to column j" (j is a parent of i), and a
 * done flag per node.
 */
module Graph {
  import opened Wrappers
  import opened SchemaModel
  import opened Adjacency

  /** `NewAdjacencyMatrix(n)`: n rows, each of n zeros, appended one row at a time. */
  method NewAdjacencyMatrix(n: nat) returns (am: AdjacencyMatrix)
    ensures |am| == n && IsSquare(am)
    ensures forall i, j :: 0 <= i < n && 0 <= j < n ==> am[i][j] == 0
  {
    am := [];
    var i := 0;
    while i < n
      invariant 0 <= i <= n && |am| == i
      invariant forall r :: 0 <= r < i ==> am[r] == seq(n, _ => 0)
    {
      am := am + [seq(n, _ => 0)];
      i := i + 1;
    }
  }

  /** A column of the schema, in the graph, with its done flag. */
  datatype ColumnNode = ColumnNode(column: Column, isDone: bool, index: int)
  {
    /** Sets the flag, and only the flag. */
    function Done(): (cn: ColumnNode)
      ensures cn.IsDone() && cn.column == column && cn.index == index
    {
      this.(isDone := true)
    }

    predicate IsDone()
    {
      isDone
    }

    function GetColumn(): Column
    {
      column
    }
  }

  /** `NewColumnNode(c, isDone, i)`. */
  function NewColumnNode(c: Column, isDone: bool, i: int): (cn: ColumnNode)
    ensures cn.GetColumn() == c && cn.IsDone() == isDone && cn.index == i
  {
    ColumnNode(c, isDone, i)
  }

  /** Marking a node done twice is the same as once. */
  lemma DoneIdempotent(cn: ColumnNode)
    ensures cn.Done().Done() == cn.Done()
    ensures cn.IsDone() ==> cn.Done() == cn
  {
  }

  /** Every parent of node i is done (vacuously so when it has none). */
  predicate ParentsDone(am: AdjacencyMatrix, nodes: seq<ColumnNode>, i: nat)
    requires i < |am| && |am[i]| <= |nodes|
  {
    forall j :: 0 <= j < |am[i]| && am[i][j] == 1 ==> nodes[j].isDone
  }

  /**
   * The graph. The matrix is never written once built; the node flags are
   * updated in place during resolution.
   */
  class SchemaGraph {
    const AdjacencyMatrix: AdjacencyMatrix
    var ColumnNodes: seq<ColumnNode>

    ghost predicate Valid()
      reads this
    {
      IsSquare(AdjacencyMatrix) && |ColumnNodes| == |AdjacencyMatrix|
    }

    constructor (am: AdjacencyMatrix, nodes: seq<ColumnNode>)
      ensures AdjacencyMatrix == am && ColumnNodes == nodes
    {
      AdjacencyMatrix := am;
      ColumnNodes := nodes;
    }

    /** True iff every node is done; true for a graph without nodes. */
    method IsAllDone() returns (b: bool)
      ensures b <==> forall k :: 0 <= k < |ColumnNodes| ==> ColumnNodes[k].isDone
    {
      var k := 0;
      while k < |ColumnNodes|
        invariant 0 <= k <= |ColumnNodes|
        invariant forall m :: 0 <= m < k ==> ColumnNodes[m].isDone
      {
        if !ColumnNodes[k].isDone {
          return false;
        }
        k := k + 1;
      }
      return true;
    }

    /** True iff row i holds a 1; an error iff i is not a row. */
    method HasParentNodes(i: nat) returns (has: bool, err: Error)
      ensures err.Error? <==> i >= |AdjacencyMatrix|
      ensures err.Error? ==> !has
      ensures err.Nil? ==> (has <==> HasParents(AdjacencyMatrix, i))
    {
      if i >= |AdjacencyMatrix| {
        return false, Error("invalid index");
      }
      var row := AdjacencyMatrix[i];
      var j := 0;
      while j < |row|
        invariant 0 <= j <= |row|
        invariant forall m :: 0 <= m < j ==> row[m] != 1
      {
        if row[j] == 1 {
          return true, Nil;
        }
        j := j + 1;
      }
      return false, Nil;
    }

    /** True iff every parent of node i is done, vacuously so without parents; an error iff i is not a row. */
    method IsParentNodesAreAllDone(i: nat) returns (allDone: bool, err: Error)
      requires Valid()
      ensures err.Error? <==> i >= |AdjacencyMatrix|
      ensures err.Error? ==> !allDone
      ensures err.Nil? ==> (allDone <==> ParentsDone(AdjacencyMatrix, ColumnNodes, i))
    {
      if i >= |AdjacencyMatrix| {
        return false, Error("invalid index");
      }
      var row := AdjacencyMatrix[i];
      var j := 0;
      while j < |row|
        invariant 0 <= j <= |row|
        invariant forall m :: 0 <= m < j && row[m] == 1 ==> ColumnNodes[m].isDone
      {
        if row[j] == 1 && !ColumnNodes[j].IsDone() {
          return false, Nil;
        }
        j := j + 1;
      }
      return true, Nil;
    }

    /** The strictly ascending list of j with a 1 at `[i][j]`; an error and no indexes iff i is not a row. */
    method ParentNodeIndexes(i: nat) returns (ps: seq<nat>, err: Error)
      ensures err.Error? <==> i >= |AdjacencyMatrix|
      ensures err.Error? ==> ps == []
      ensures err.Nil? ==> ps == ParentIndexes(AdjacencyMatrix, i)
      ensures err.Nil? ==> StrictlyAscending(ps)
      ensures err.Nil? ==> forall j :: j in ps <==> 0 <= j < |AdjacencyMatrix[i]| && AdjacencyMatrix[i][j] == 1
      ensures err.Nil? ==> (|ps| > 0 <==> HasParents(AdjacencyMatrix, i))
    {
      if i >= |AdjacencyMatrix| {
        return [], Error("invalid index");
      }
      var row := AdjacencyMatrix[i];
      ps := [];
      var j := 0;
      while j < |row|
        invariant 0 <= j <= |row|
        invariant ps == OnesIn(row[..j])
      {
        assert row[..j + 1][..j] == row[..j];
        if row[j] == 1 {
          ps := ps + [j];
        }
        j := j + 1;
      }
      assert row[..j] == row;
      err := Nil;
      ParentIndexesSpec(AdjacencyMatrix, i);
    }

    /** True iff some row has a 1 in column i; an error iff i is not a row. */
    method HasChildrenNodes(i: nat) returns (has: bool, err: Error)
      requires Valid()
      ensures err.Error? <==> i >= |AdjacencyMatrix|
      ensures err.Error? ==> !has
      ensures err.Nil? ==> (has <==> exists k :: 0 <= k < |AdjacencyMatrix| && AdjacencyMatrix[k][i] == 1)
    {
      if i >= |AdjacencyMatrix| {
        return false, Error("invalid index");
      }
      var k := 0;
      while k < |AdjacencyMatrix|
        invariant 0 <= k <= |AdjacencyMatrix|
        invariant forall m :: 0 <= m < k ==> AdjacencyMatrix[m][i] != 1
      {
        if AdjacencyMatrix[k][i] == 1 {
          return true, Nil;
        }
        k := k + 1;
      }
      return false, Nil;
    }

    /** The strictly ascending list of k with a 1 at `[k][i]`; an error and no indexes iff i is not a row. */
    method ChildrenNodeIndexes(i: nat) returns (ks: seq<nat>, err: Error)
      requires Valid()
      ensures err.Error? <==> i >= |AdjacencyMatrix|
      ensures err.Error? ==> ks == []
      ensures err.Nil? ==> ks == ChildIndexes(AdjacencyMatrix, i)
      ensures err.Nil? ==> StrictlyAscending(ks)
      ensures err.Nil? ==> forall k :: k in ks <==> 0 <= k < |AdjacencyMatrix| && AdjacencyMatrix[k][i] == 1
      ensures err.Nil? ==> (|ks| > 0 <==> exists k :: 0 <= k < |AdjacencyMatrix| && AdjacencyMatrix[k][i] == 1)
    {
      if i >= |AdjacencyMatrix| {
        return [], Error("invalid index");
      }
      ghost var col := ColumnOf(AdjacencyMatrix, i);
      ks := [];
      var k := 0;
      while k < |AdjacencyMatrix|
        invariant 0 <= k <= |AdjacencyMatrix|
        invariant ks == OnesIn(col[..k])
      {
        assert col[..k + 1][..k] == col[..k];
        assert col[k] == AdjacencyMatrix[k][i];
        if AdjacencyMatrix[k][i] == 1 {
          ks := ks + [k];
        }
        k := k + 1;
      }
      assert col[..k] == col;
      err := Nil;
      ChildIndexesSpec(AdjacencyMatrix, i);
    }
  }
}
