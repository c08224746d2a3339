/**
 * The adjacency matrix shared by the two graph revisions
 * (domain/model/schema_graph.go and domain/model/column_graph.go): a
 * 1 at `[i][j]` means "column i has a foreign key to column j", so j is a
 * parent of i and i a child of j. The row and column scans of both
 * revisions are specified over these functions.
 */
module Adjacency {
  type AdjacencyMatrix = seq<seq<int>>

  /** Every row is as long as the matrix is high. */
  predicate IsSquare(am: AdjacencyMatrix)
  {
    forall i :: 0 <= i < |am| ==> |am[i]| == |am|
  }

  /** The indexes holding a 1, in ascending order. */
  function OnesIn(row: seq<int>): seq<nat>
  {
    if row == [] then []
    else OnesIn(row[..|row| - 1]) + (if row[|row| - 1] == 1 then [|row| - 1] else [])
  }

  /** Column `i` of the matrix, top to bottom. */
  function ColumnOf(am: AdjacencyMatrix, i: nat): (col: seq<int>)
    requires IsSquare(am) && i < |am|
    ensures |col| == |am|
  {
    seq(|am|, k requires 0 <= k < |am| => am[k][i])
  }

  /** The parents of node i: the columns its foreign keys point to. */
  function ParentIndexes(am: AdjacencyMatrix, i: nat): seq<nat>
    requires i < |am|
  {
    OnesIn(am[i])
  }

  /** The children of node i: the columns whose foreign keys point to it. */
  function ChildIndexes(am: AdjacencyMatrix, i: nat): seq<nat>
    requires IsSquare(am) && i < |am|
  {
    OnesIn(ColumnOf(am, i))
  }

  predicate StrictlyAscending(s: seq<nat>)
  {
    forall a, b :: 0 <= a < b < |s| ==> s[a] < s[b]
  }

  /** `OnesIn(row)` is strictly ascending and holds exactly the indexes of the 1s. */
  lemma {:induction false} OnesInSpec(row: seq<int>)
    ensures StrictlyAscending(OnesIn(row))
    ensures forall j :: j in OnesIn(row) <==> 0 <= j < |row| && row[j] == 1
  {
    if row != [] {
      var front := row[..|row| - 1];
      OnesInSpec(front);
      forall j | 0 <= j < |front| ensures front[j] == row[j] { }
      var ones := OnesIn(front);
      forall a | 0 <= a < |ones| ensures ones[a] < |front| {
        assert ones[a] in ones;
      }
    }
  }

  /** j is a parent of i exactly when i is a child of j. */
  lemma ParentChildDuality(am: AdjacencyMatrix, i: nat, j: nat)
    requires IsSquare(am) && i < |am| && j < |am|
    ensures j in ParentIndexes(am, i) <==> i in ChildIndexes(am, j)
  {
    OnesInSpec(am[i]);
    OnesInSpec(ColumnOf(am, j));
  }

  /** The parents of node i ascend and are exactly the columns with a 1 in row i. */
  lemma ParentIndexesSpec(am: AdjacencyMatrix, i: nat)
    requires i < |am|
    ensures StrictlyAscending(ParentIndexes(am, i))
    ensures forall j :: j in ParentIndexes(am, i) <==> 0 <= j < |am[i]| && am[i][j] == 1
    ensures |ParentIndexes(am, i)| > 0 <==> HasParents(am, i)
  {
    var ps := ParentIndexes(am, i);
    assert |ps| > 0 ==> ps[0] in ps;
    OnesInSpec(am[i]);
  }

  /** The children of node i ascend and are exactly the rows with a 1 in column i. */
  lemma ChildIndexesSpec(am: AdjacencyMatrix, i: nat)
    requires IsSquare(am) && i < |am|
    ensures StrictlyAscending(ChildIndexes(am, i))
    ensures forall k :: k in ChildIndexes(am, i) <==> 0 <= k < |am| && am[k][i] == 1
    ensures |ChildIndexes(am, i)| > 0 <==> exists k :: 0 <= k < |am| && am[k][i] == 1
  {
    var cs := ChildIndexes(am, i);
    assert |cs| > 0 ==> cs[0] in cs;
    OnesInSpec(ColumnOf(am, i));
  }

  /** Node i has at least one parent. */
  predicate HasParents(am: AdjacencyMatrix, i: nat)
    requires i < |am|
  {
    exists j :: 0 <= j < |am[i]| && am[i][j] == 1
  }
}
