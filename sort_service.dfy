/**
 * The oldest revision's column ordering (domain/service/sort.go): an
 * N x N adjacency matrix over the schema's columns, where `am[k][j] != 0`
 * means column k has a constraint referencing column j, and a topological
 * sort that repeatedly takes every column nobody references any more and
 * clears its row. The matrix is a Go slice of slices that the sort clears
 * through shared backing arrays, so it is an `array2` here.
 */
module SortService {
  import opened OldModel

  // ----- sumOfIntList -----

  function Sum(l: seq<int>): int
  {
    if l == [] then 0 else Sum(l[..|l| - 1]) + l[|l| - 1]
  }

  /** `sumOfIntList`: the sum of the list. */
  method SumOfIntList(l: seq<int>) returns (re: int)
    ensures re == Sum(l)
  {
    re := 0;
    for i := 0 to |l|
      invariant re == Sum(l[..i])
    {
      assert l[..i + 1][..i] == l[..i];
      re := re + l[i];
    }
    assert l[..|l|] == l;
  }

  /** Every entry is a done flag, 0 or 1. */
  predicate IsFlags(l: seq<int>)
  {
    forall k :: 0 <= k < |l| ==> l[k] == 0 || l[k] == 1
  }

  /** The sum of flags counts the ones: it is at most the length, and reaches it exactly when every flag is 1. */
  lemma {:induction false} SumOfFlags(l: seq<int>)
    requires IsFlags(l)
    ensures 0 <= Sum(l) <= |l|
    ensures Sum(l) == |l| <==> forall k :: 0 <= k < |l| ==> l[k] == 1
  {
    if l != [] {
      var front := l[..|l| - 1];
      assert forall k :: 0 <= k < |front| ==> front[k] == l[k];
      SumOfFlags(front);
      if Sum(l) == |l| {
        assert Sum(front) == |front| && l[|l| - 1] == 1;
        forall k | 0 <= k < |l| ensures l[k] == 1 {
          if k < |front| {
            assert front[k] == 1;
          }
        }
      }
    }
  }

  /** A list of zeros sums to 0. */
  lemma {:induction false} SumOfZeros(l: seq<int>)
    requires forall k :: 0 <= k < |l| ==> l[k] == 0
    ensures Sum(l) == 0
  {
    if l != [] {
      var front := l[..|l| - 1];
      assert forall k :: 0 <= k < |front| ==> front[k] == l[k];
      SumOfZeros(front);
    }
  }

  /** Raising one flag from 0 to 1 raises the sum by one. */
  lemma {:induction false} SumRaise(l: seq<int>, j: nat)
    requires j < |l| && l[j] == 0
    ensures Sum(l[j := 1]) == Sum(l) + 1
  {
    var front := l[..|l| - 1];
    if j < |l| - 1 {
      assert l[j := 1][..|l| - 1] == front[j := 1];
      SumRaise(front, j);
    } else {
      assert l[j := 1][..|l| - 1] == front;
    }
  }

  // ----- the matrix -----

  /** The entries of the matrix, row by row. */
  ghost function Matrix(am: array2<int>): (m: seq<seq<int>>)
    reads am
    ensures |m| == am.Length0 && forall r :: 0 <= r < |m| ==> |m[r]| == am.Length1
  {
    seq(am.Length0, r requires 0 <= r < am.Length0 reads am =>
      seq(am.Length1, c requires 0 <= c < am.Length1 reads am => am[r, c]))
  }

  /** Every row has as many entries as there are rows. */
  ghost predicate SquareSeq(m: seq<seq<int>>)
  {
    forall r :: 0 <= r < |m| ==> |m[r]| == |m|
  }

  /** Row i replaced by zeros. */
  ghost function ZeroRow(m: seq<seq<int>>, i: nat): seq<seq<int>>
    requires i < |m|
  {
    m[i := seq(|m[i]|, _ => 0)]
  }

  /** `newAdjacencyMatrix(n)`: n rows of n zeros, one row at a time. */
  method NewAdjacencyMatrix(n: nat) returns (am: array2<int>)
    ensures fresh(am) && am.Length0 == n && am.Length1 == n
    ensures forall r, c :: 0 <= r < n && 0 <= c < n ==> am[r, c] == 0
  {
    am := new int[n, n];
    var i := 0;
    while i < n
      invariant 0 <= i <= n
      invariant forall r, c :: 0 <= r < i && 0 <= c < n ==> am[r, c] == 0
    {
      for c := 0 to n
        invariant forall r, c' :: 0 <= r < i && 0 <= c' < n ==> am[r, c'] == 0
        invariant forall c' :: 0 <= c' < c ==> am[i, c'] == 0
      {
        am[i, c] := 0;
      }
      i := i + 1;
    }
  }

  /**
   * `zeroizeColumn(i)`: despite its name, clears row i (the first
   * `len(am)` entries of it); every other entry is unchanged.
   */
  method ZeroizeColumn(am: array2<int>, i: nat)
    requires i < am.Length0 && am.Length0 <= am.Length1
    modifies am
    ensures forall r, c :: 0 <= r < am.Length0 && 0 <= c < am.Length1 ==>
      am[r, c] == if r == i && c < am.Length0 then 0 else old(am[r, c])
    ensures am.Length0 == am.Length1 ==> Matrix(am) == ZeroRow(old(Matrix(am)), i)
  {
    ghost var m := Matrix(am);
    var n := am.Length0;
    for k := 0 to n
      invariant forall r, c :: 0 <= r < am.Length0 && 0 <= c < am.Length1 ==>
        am[r, c] == if r == i && c < k then 0 else m[r][c]
    {
      am[i, k] := 0;
    }
    if n == am.Length1 {
      forall r | 0 <= r < n
        ensures Matrix(am)[r] == ZeroRow(m, i)[r]
      {
      }
    }
  }

  // ----- GenerateAdjacencyMatrix -----

  /** The column at (t, c) has a constraint, and both its own key and its target's key map to i and j. */
  ghost predicate EdgeAt(tables: seq<Table>, columnToIndex: map<string, nat>, t: int, c: int, i: nat, j: nat)
  {
    0 <= t < |tables| && 0 <= c < |tables[t].Columns|
    && var column := tables[t].Columns[c];
    && column.HasConstraint
    && Key(tables[t].Name, column.Name) in columnToIndex
    && columnToIndex[Key(tables[t].Name, column.Name)] == i
    && TargetKey(column.Constraint) in columnToIndex
    && columnToIndex[TargetKey(column.Constraint)] == j
  }

  /** Some column before position (t, c), in schema order, links i to j. */
  ghost predicate EdgeBefore(tables: seq<Table>, columnToIndex: map<string, nat>, t: int, c: int, i: nat, j: nat)
  {
    exists t', c' :: (t' < t || (t' == t && c' < c)) && EdgeAt(tables, columnToIndex, t', c', i, j)
  }

  /** Some column of the schema links i to j. */
  ghost predicate Edge(tables: seq<Table>, columnToIndex: map<string, nat>, i: nat, j: nat)
  {
    EdgeBefore(tables, columnToIndex, |tables|, 0, i, j)
  }

  /** Moving past column (t, c) adds exactly that column's link. */
  lemma EdgeBeforeNext(tables: seq<Table>, columnToIndex: map<string, nat>, t: nat, c: nat, i: nat, j: nat)
    requires t < |tables| && c < |tables[t].Columns|
    ensures EdgeBefore(tables, columnToIndex, t, c + 1, i, j) <==>
      EdgeBefore(tables, columnToIndex, t, c, i, j) || EdgeAt(tables, columnToIndex, t, c, i, j)
  {
    if EdgeBefore(tables, columnToIndex, t, c + 1, i, j) {
      var t', c' :| (t' < t || (t' == t && c' < c + 1)) && EdgeAt(tables, columnToIndex, t', c', i, j);
      if !(t' == t && c' == c) {
        assert EdgeBefore(tables, columnToIndex, t, c, i, j);
      }
    }
  }

  /** Moving past the last column of table t is moving to the next table. */
  lemma EdgeBeforeNextTable(tables: seq<Table>, columnToIndex: map<string, nat>, t: nat, i: nat, j: nat)
    requires t < |tables|
    ensures EdgeBefore(tables, columnToIndex, t + 1, 0, i, j) <==>
      EdgeBefore(tables, columnToIndex, t, |tables[t].Columns|, i, j)
  {
    if EdgeBefore(tables, columnToIndex, t + 1, 0, i, j) {
      var t', c' :| (t' < t + 1 || (t' == t + 1 && c' < 0)) && EdgeAt(tables, columnToIndex, t', c', i, j);
      assert (t' < t || (t' == t && c' < |tables[t].Columns|));
    }
  }

  /** A constrained column whose keys are both indexed links its index to its target's index. */
  lemma ConstrainedColumnIsEdge(tables: seq<Table>, columnToIndex: map<string, nat>, t: nat, c: nat)
    requires t < |tables| && c < |tables[t].Columns|
    requires tables[t].Columns[c].HasConstraint
    requires Key(tables[t].Name, tables[t].Columns[c].Name) in columnToIndex
    requires TargetKey(tables[t].Columns[c].Constraint) in columnToIndex
    ensures Edge(tables, columnToIndex,
      columnToIndex[Key(tables[t].Name, tables[t].Columns[c].Name)],
      columnToIndex[TargetKey(tables[t].Columns[c].Constraint)])
  {
    var column := tables[t].Columns[c];
    assert EdgeAt(tables, columnToIndex, t, c,
      columnToIndex[Key(tables[t].Name, column.Name)], columnToIndex[TargetKey(column.Constraint)]);
  }

  /** The indexes are the rows of the matrix. */
  ghost predicate IndexesInRange(columnToIndex: map<string, nat>)
  {
    forall key :: key in columnToIndex ==> columnToIndex[key] < |columnToIndex|
  }

  /**
   * `GenerateAdjacencyMatrix`: a |columnToIndex|-square matrix with a 1
   * exactly where some constrained column's key and its target's key map
   * to the row and the column, and 0 elsewhere. The map is what the
   * schema's `GetMapFromColumnToIndex` returns.
   */
  method GenerateAdjacencyMatrix(tables: seq<Table>, columnToIndex: map<string, nat>) returns (am: array2<int>)
    requires IndexesInRange(columnToIndex)
    ensures fresh(am) && am.Length0 == |columnToIndex| && am.Length1 == |columnToIndex|
    ensures forall i, j :: 0 <= i < am.Length0 && 0 <= j < am.Length1 ==>
      am[i, j] == if Edge(tables, columnToIndex, i, j) then 1 else 0
  {
    am := NewAdjacencyMatrix(|columnToIndex|);
    for t := 0 to |tables|
      invariant am.Length0 == |columnToIndex| && am.Length1 == |columnToIndex|
      invariant forall i, j :: 0 <= i < am.Length0 && 0 <= j < am.Length1 ==>
        am[i, j] == if EdgeBefore(tables, columnToIndex, t, 0, i, j) then 1 else 0
    {
      LinkTable(tables, columnToIndex, t, am);
    }
  }

  /** The inner loop of `GenerateAdjacencyMatrix`, over the columns of table t. */
  method LinkTable(tables: seq<Table>, columnToIndex: map<string, nat>, t: nat, am: array2<int>)
    requires t < |tables| && IndexesInRange(columnToIndex)
    requires am.Length0 == |columnToIndex| && am.Length1 == |columnToIndex|
    requires forall i, j :: 0 <= i < am.Length0 && 0 <= j < am.Length1 ==>
      am[i, j] == if EdgeBefore(tables, columnToIndex, t, 0, i, j) then 1 else 0
    modifies am
    ensures forall i, j :: 0 <= i < am.Length0 && 0 <= j < am.Length1 ==>
      am[i, j] == if EdgeBefore(tables, columnToIndex, t + 1, 0, i, j) then 1 else 0
  {
    var table := tables[t];
    for c := 0 to |table.Columns|
      invariant forall i, j :: 0 <= i < am.Length0 && 0 <= j < am.Length1 ==>
        am[i, j] == if EdgeBefore(tables, columnToIndex, t, c, i, j) then 1 else 0
    {
      var column := table.Columns[c];
      forall i: nat, j: nat
        ensures EdgeBefore(tables, columnToIndex, t, c + 1, i, j) <==>
          EdgeBefore(tables, columnToIndex, t, c, i, j) || EdgeAt(tables, columnToIndex, t, c, i, j)
      {
        EdgeBeforeNext(tables, columnToIndex, t, c, i, j);
      }
      if column.HasConstraint {
        var key := Key(table.Name, column.Name);
        if key in columnToIndex {
          var i := columnToIndex[key];
          var target := TargetKey(column.Constraint);
          if target in columnToIndex {
            var j := columnToIndex[target];
            assert EdgeAt(tables, columnToIndex, t, c, i, j);
            am[i, j] := 1;
            assert forall i', j' :: EdgeAt(tables, columnToIndex, t, c, i', j') ==> i' == i && j' == j;
          }
        }
      }
    }
    forall i: nat, j: nat
      ensures EdgeBefore(tables, columnToIndex, t + 1, 0, i, j) <==>
        EdgeBefore(tables, columnToIndex, t, |table.Columns|, i, j)
    {
      EdgeBeforeNextTable(tables, columnToIndex, t, i, j);
    }
  }

  // ----- GenerateSortedColumnList -----

  /** No entry repeats. */
  predicate Distinct(s: seq<nat>)
  {
    forall a, b :: 0 <= a < b < |s| ==> s[a] != s[b]
  }

  /** Each of 0 .. n-1 exactly once. */
  predicate IsPermutation(order: seq<nat>, n: nat)
  {
    |order| == n && Distinct(order) && (forall p :: 0 <= p < n ==> order[p] < n)
    && forall x :: 0 <= x < n ==> x in order
  }

  /** A column that references another comes before it. */
  ghost predicate Ordered(order: seq<nat>, m: seq<seq<int>>)
  {
    forall p, q ::
      (0 <= p < |order| && 0 <= q < |order| && order[q] < |m| && order[p] < |m[order[q]]|
       && m[order[q]][order[p]] != 0) ==> q < p
  }

  /** A topological order of the square matrix m. */
  ghost predicate IsTopologicalOrder(order: seq<nat>, m: seq<seq<int>>)
  {
    SquareSeq(m) && IsPermutation(order, |m|) && Ordered(order, m)
  }

  /** The matrix has no cycle: a rank that every reference strictly lowers. */
  ghost predicate Acyclic(m: seq<seq<int>>, rank: seq<nat>)
  {
    SquareSeq(m) && |rank| == |m|
    && forall k, j :: 0 <= k < |m| && 0 <= j < |m| && m[k][j] != 0 ==> rank[j] < rank[k]
  }

  /** The position of x in the list. */
  function IndexIn(order: seq<nat>, x: nat): (p: nat)
    requires x in order
    ensures p < |order| && order[p] == x
  {
    if order[0] == x then 0 else 1 + IndexIn(order[1..], x)
  }

  /**
   * Conversely, a matrix with a topological order is acyclic: the distance
   * from the end of the order is a rank, so acyclicity is exactly what the
   * sort needs.
   */
  lemma OrderGivesRank(order: seq<nat>, m: seq<seq<int>>) returns (rank: seq<nat>)
    requires IsTopologicalOrder(order, m)
    ensures Acyclic(m, rank)
  {
    var n := |m|;
    rank := seq(n, x requires 0 <= x < n => n - IndexIn(order, x));
    forall k, j | 0 <= k < n && 0 <= j < n && m[k][j] != 0 ensures rank[j] < rank[k] {
      var p, q := IndexIn(order, j), IndexIn(order, k);
      assert m[order[q]][order[p]] != 0;
    }
  }

  /** `cur` is the original matrix `m0` with the rows of the done columns cleared. */
  ghost predicate Cleared(cur: seq<seq<int>>, m0: seq<seq<int>>, todo: seq<int>)
  {
    var n := |m0|;
    SquareSeq(m0) && |cur| == n && |todo| == n && IsFlags(todo)
    && (forall k :: 0 <= k < n ==> |cur[k]| == n)
    && forall k, j :: 0 <= k < n && 0 <= j < n ==> cur[k][j] == if todo[k] == 1 then 0 else m0[k][j]
  }

  /** `sorted` lists exactly the done columns, once each. */
  ghost predicate Listed(todo: seq<int>, sorted: seq<nat>)
  {
    (forall p :: 0 <= p < |sorted| ==> sorted[p] < |todo| && todo[sorted[p]] == 1)
    && (forall x :: 0 <= x < |todo| && todo[x] == 1 ==> x in sorted)
    && Distinct(sorted) && |sorted| == Sum(todo)
  }

  /** A done column is referenced by done columns only. */
  ghost predicate Closed(m0: seq<seq<int>>, todo: seq<int>)
    requires SquareSeq(m0) && |todo| == |m0|
  {
    forall x, k :: 0 <= x < |m0| && 0 <= k < |m0| && todo[x] == 1 && m0[k][x] != 0 ==> todo[k] == 1
  }

  /** The state of the sort between steps. */
  ghost predicate SortInv(cur: seq<seq<int>>, m0: seq<seq<int>>, todo: seq<int>, sorted: seq<nat>)
  {
    Cleared(cur, m0, todo) && Listed(todo, sorted) && Closed(m0, todo) && Ordered(sorted, m0)
  }

  lemma TakeKeepsCleared(cur: seq<seq<int>>, m0: seq<seq<int>>, todo: seq<int>, j: nat)
    requires Cleared(cur, m0, todo) && j < |m0|
    ensures Cleared(ZeroRow(cur, j), m0, todo[j := 1])
  {
  }

  lemma TakeKeepsListed(todo: seq<int>, sorted: seq<nat>, j: nat)
    requires Listed(todo, sorted) && IsFlags(todo) && j < |todo| && todo[j] != 1
    ensures Listed(todo[j := 1], sorted + [j])
  {
    var todo', sorted' := todo[j := 1], sorted + [j];
    SumRaise(todo, j);
    assert j !in sorted;
    forall x | 0 <= x < |todo| && todo'[x] == 1 ensures x in sorted' {
      if x != j {
        assert x in sorted;
      }
    }
  }

  lemma TakeKeepsClosed(cur: seq<seq<int>>, m0: seq<seq<int>>, todo: seq<int>, j: nat)
    requires Cleared(cur, m0, todo) && Closed(m0, todo) && j < |m0|
    requires forall k :: 0 <= k < |m0| ==> cur[k][j] == 0
    ensures Closed(m0, todo[j := 1])
  {
  }

  lemma TakeKeepsOrdered(m0: seq<seq<int>>, todo: seq<int>, sorted: seq<nat>, j: nat)
    requires SquareSeq(m0) && |todo| == |m0| && Closed(m0, todo) && Listed(todo, sorted)
    requires j < |m0| && todo[j] != 1 && Ordered(sorted, m0)
    requires forall k :: 0 <= k < |m0| && todo[k] != 1 ==> m0[k][j] == 0
    ensures Ordered(sorted + [j], m0)
  {
    var sorted' := sorted + [j];
    forall p, q | 0 <= p < |sorted'| && 0 <= q < |sorted'| && sorted'[q] < |m0|
      && sorted'[p] < |m0[sorted'[q]]| && m0[sorted'[q]][sorted'[p]] != 0
      ensures q < p
    {
    }
  }

  /** Taking an undone column that no row references keeps the state. */
  lemma TakeKeeps(cur: seq<seq<int>>, m0: seq<seq<int>>, todo: seq<int>, sorted: seq<nat>, j: nat)
    requires SortInv(cur, m0, todo, sorted)
    requires j < |m0| && todo[j] != 1
    requires forall k :: 0 <= k < |m0| ==> cur[k][j] == 0
    ensures SortInv(ZeroRow(cur, j), m0, todo[j := 1], sorted + [j])
  {
    TakeKeepsCleared(cur, m0, todo, j);
    TakeKeepsListed(todo, sorted, j);
    TakeKeepsClosed(cur, m0, todo, j);
    TakeKeepsOrdered(m0, todo, sorted, j);
  }

  /** Before the first sweep: nothing done, nothing cleared. */
  lemma SortInvInitially(m0: seq<seq<int>>, todo: seq<int>)
    requires SquareSeq(m0) && |todo| == |m0| && forall x :: 0 <= x < |todo| ==> todo[x] == 0
    ensures SortInv(m0, m0, todo, [])
  {
    SumOfZeros(todo);
  }

  /** Once every column is done, the list is a topological order and the matrix is cleared. */
  lemma SortInvFinally(cur: seq<seq<int>>, m0: seq<seq<int>>, todo: seq<int>, sorted: seq<nat>)
    requires SortInv(cur, m0, todo, sorted) && Sum(todo) >= |m0|
    ensures IsTopologicalOrder(sorted, m0)
    ensures forall k, j :: 0 <= k < |m0| && 0 <= j < |m0| ==> cur[k][j] == 0
  {
    SumOfFlags(todo);
  }

  /**
   * While some column is undone, an undone column of maximal rank exists,
   * and no row of the current matrix references it: an undone referrer would
   * have a higher rank, and a done one has its row cleared.
   */
  lemma MaxRankUndone(cur: seq<seq<int>>, m0: seq<seq<int>>, todo: seq<int>, rank: seq<nat>) returns (mx: nat)
    requires Cleared(cur, m0, todo) && Acyclic(m0, rank)
    requires exists x :: 0 <= x < |todo| && todo[x] != 1
    ensures mx < |todo| && todo[mx] != 1
    ensures forall k :: 0 <= k < |todo| && todo[k] != 1 ==> rank[k] <= rank[mx]
    ensures forall k :: 0 <= k < |cur| ==> cur[k][mx] == 0
  {
    var x :| 0 <= x < |todo| && todo[x] != 1;
    mx := x;
    var i := 0;
    while i < |todo|
      invariant 0 <= i <= |todo| && mx < |todo| && todo[mx] != 1
      invariant forall k :: 0 <= k < i && todo[k] != 1 ==> rank[k] <= rank[mx]
    {
      if todo[i] != 1 && rank[i] > rank[mx] {
        mx := i;
      }
      i := i + 1;
    }
    forall k | 0 <= k < |cur| ensures cur[k][mx] == 0 {
      if todo[k] != 1 {
        assert rank[k] <= rank[mx];
      }
    }
  }

  /** The `isRoot` loop: no row references column j. */
  method IsRoot(am: array2<int>, j: nat) returns (isRoot: bool)
    requires j < am.Length1
    ensures isRoot <==> forall k :: 0 <= k < am.Length0 ==> am[k, j] == 0
  {
    isRoot := true;
    for k := 0 to am.Length0
      invariant isRoot <==> forall r :: 0 <= r < k ==> am[r, j] == 0
    {
      if am[k, j] != 0 {
        isRoot := false;
      }
    }
  }

  /**
   * One step of the sweep: an undone column j that no row references is
   * flagged, appended and its row cleared; otherwise nothing changes.
   */
  method Visit(am: array2<int>, numsTodo: array<int>, sorted: seq<nat>, j: nat, ghost m0: seq<seq<int>>)
    returns (sorted': seq<nat>)
    requires SortInv(Matrix(am), m0, numsTodo[..], sorted) && j < numsTodo.Length
    modifies am, numsTodo
    ensures SortInv(Matrix(am), m0, numsTodo[..], sorted')
    ensures forall x :: 0 <= x < numsTodo.Length && x != j ==> numsTodo[x] == old(numsTodo[x])
    ensures old(numsTodo[j]) == 1 ==> numsTodo[j] == 1
    ensures |sorted'| >= |sorted|
    ensures old(numsTodo[j]) != 1 && (forall k :: 0 <= k < am.Length0 ==> old(am[k, j]) == 0) ==>
      |sorted'| == |sorted| + 1
  {
    sorted' := sorted;
    if numsTodo[j] != 1 {
      assert |Matrix(am)[j]| == am.Length1;
      var isRoot := IsRoot(am, j);
      if isRoot {
        ghost var cur := Matrix(am);
        ghost var todo := numsTodo[..];
        TakeKeeps(cur, m0, todo, sorted, j);
        numsTodo[j] := 1;
        sorted' := sorted + [j];
        ZeroizeColumn(am, j);
        assert numsTodo[..] == todo[j := 1];
      }
    }
  }

  /** One pass of `for j, Done := range numsTodo`: it takes at least one column. */
  method Sweep(am: array2<int>, numsTodo: array<int>, sorted: seq<nat>, ghost m0: seq<seq<int>>, ghost rank: seq<nat>)
    returns (sorted': seq<nat>)
    requires SortInv(Matrix(am), m0, numsTodo[..], sorted) && Acyclic(m0, rank)
    requires |sorted| < |m0|
    modifies am, numsTodo
    ensures SortInv(Matrix(am), m0, numsTodo[..], sorted') && |sorted'| > |sorted|
  {
    ghost var todo0 := numsTodo[..];
    SumOfFlags(todo0);
    ghost var mx := MaxRankUndone(Matrix(am), m0, todo0, rank);
    sorted' := sorted;
    for j := 0 to numsTodo.Length
      invariant SortInv(Matrix(am), m0, numsTodo[..], sorted') && |sorted'| >= |sorted|
      invariant forall x :: 0 <= x < numsTodo.Length && todo0[x] == 1 ==> numsTodo[x] == 1
      invariant |sorted'| > |sorted| || (j <= mx && numsTodo[mx] != 1)
    {
      if |sorted'| == |sorted| && j == mx {
        forall k | 0 <= k < am.Length0 ensures am[k, mx] == 0 {
          assert am[k, mx] == Matrix(am)[k][mx];
          if numsTodo[k] != 1 {
            assert rank[k] <= rank[mx];
          }
        }
      }
      sorted' := Visit(am, numsTodo, sorted', j, m0);
    }
  }

  /**
   * `GenerateSortedColumnList`: for an acyclic matrix, every column once, a
   * referencing column before the column it references; the matrix is left
   * all zero. (On a cyclic matrix the Go loop does not terminate, so
   * acyclicity, witnessed by a rank, is required. The schema argument is
   * unused there and is left out.)
   */
  method GenerateSortedColumnList(am: array2<int>, ghost rank: seq<nat>) returns (sortedColumnList: seq<nat>)
    requires am.Length0 == am.Length1
    requires Acyclic(Matrix(am), rank)
    modifies am
    ensures IsTopologicalOrder(sortedColumnList, old(Matrix(am)))
    ensures forall k, j :: 0 <= k < am.Length0 && 0 <= j < am.Length1 ==> am[k, j] == 0
  {
    ghost var m0 := Matrix(am);
    var n := am.Length0;
    var numsTodo := new int[n];
    for i := 0 to n
      invariant forall x :: 0 <= x < i ==> numsTodo[x] == 0
      invariant forall r, c :: 0 <= r < n && 0 <= c < n ==> am[r, c] == m0[r][c]
    {
      numsTodo[i] := 0;
    }
    sortedColumnList := [];
    assert Matrix(am) == m0 by {
      forall r | 0 <= r < n ensures Matrix(am)[r] == m0[r] {
      }
    }
    SortInvInitially(m0, numsTodo[..]);
    var s := SumOfIntList(numsTodo[..]);
    while s < n
      invariant SortInv(Matrix(am), m0, numsTodo[..], sortedColumnList) && s == |sortedColumnList|
      decreases n - s
    {
      sortedColumnList := Sweep(am, numsTodo, sortedColumnList, m0, rank);
      s := SumOfIntList(numsTodo[..]);
    }
    SortInvFinally(Matrix(am), m0, numsTodo[..], sortedColumnList);
    forall k, j | 0 <= k < n && 0 <= j < n ensures am[k, j] == 0 {
      assert am[k, j] == Matrix(am)[k][j];
    }
  }
}
