/**
 * The table entity of the previous revision (domain/model/table.go): a
 * name and columns, and the deprecated one-statement INSERT builder that
 * draws every value at random.
 */
module PrevTable {
  import opened Strings
  import opened PrevColumn
  import Queries

  datatype Table = Table(Name: string, Columns: seq<Column>)
  {
    /** Appends one column at the end; nothing else changes. */
    function AddColumns(column: Column): (t: Table)
      ensures t.Name == Name
      ensures |t.Columns| == |Columns| + 1 && t.Columns[|Columns|] == column
      ensures t.Columns[..|Columns|] == Columns
    {
      this.(Columns := Columns + [column])
    }

    /** Every column can draw a random literal. */
    predicate RandomReady()
    {
      forall c :: c in Columns ==> c.RandomDataDefined()
    }

    /**
     * The deprecated `GenerateQuery(numOfData)`: numOfData tuples, each
     * holding one fresh random literal per column, quoted; `values` holds
     * the literals drawn.
     */
    method GenerateQuery(numOfData: nat) returns (query: string, ghost values: seq<seq<string>>)
      requires RandomReady()
      ensures |values| == numOfData
      ensures forall r :: 0 <= r < numOfData ==> |values[r]| == |Columns|
      ensures forall r, c :: 0 <= r < numOfData && 0 <= c < |Columns| ==> Columns[c].IsRandomValue(values[r][c])
      ensures query == InsertAll(Name, values)
    {
      var records: seq<string> := [];
      values := [];
      var i := 0;
      while i < numOfData
        invariant 0 <= i <= numOfData && |records| == i && |values| == i
        invariant forall r :: 0 <= r < i ==> |values[r]| == |Columns|
        invariant forall r, c :: 0 <= r < i && 0 <= c < |Columns| ==> Columns[c].IsRandomValue(values[r][c])
        invariant forall r :: 0 <= r < i ==> records[r] == Parenthesised(values[r])
      {
        var data, row := RandomRow();
        records := records + ["(" + Join(data, ",") + ")"];
        values := values + [row];
        i := i + 1;
      }
      query := "INSERT INTO " + Name + " VALUES " + Join(records, ",") + ";";
      assert records == seq(|values|, r requires 0 <= r < |values| => Parenthesised(values[r]));
    }

    /** One row of the deprecated builder: a random literal per column, each quoted. */
    method RandomRow() returns (data: seq<string>, ghost row: seq<string>)
      requires RandomReady()
      ensures |row| == |Columns| && data == SingleQuoted(row)
      ensures forall c :: 0 <= c < |Columns| ==> Columns[c].IsRandomValue(row[c])
    {
      data := [];
      row := [];
      var c := 0;
      while c < |Columns|
        invariant 0 <= c <= |Columns| && |row| == c
        invariant data == SingleQuoted(row)
        invariant forall m :: 0 <= m < c ==> Columns[m].IsRandomValue(row[m])
      {
        var column := Columns[c];
        assert column in Columns;
        var randomData := column.GenerateRandomData();
        data := data + ["'" + randomData + "'"];
        row := row + [randomData];
        c := c + 1;
      }
    }
  }

  /** `NewTable(name, columns)`: both stored unchanged. */
  function NewTable(name: string, columns: seq<Column>): (t: Table)
    ensures t.Name == name && t.Columns == columns
  {
    Table(name, columns)
  }

  /** A row as `(` + its quoted values joined by `,` + `)`. */
  function Parenthesised(row: seq<string>): string
  {
    "(" + Join(SingleQuoted(row), ",") + ")"
  }

  /** The statement for the given rows: `INSERT INTO <t> VALUES ` + the tuples joined by `,` + `;`. */
  function InsertAll(name: string, rows: seq<seq<string>>): string
  {
    "INSERT INTO " + name + " VALUES " + Join(Tuples(rows), ",") + ";"
  }

  /** With zero rows the statement keeps its space before `;`. */
  lemma InsertAllEmpty(name: string)
    ensures InsertAll(name, []) == "INSERT INTO " + name + " VALUES ;"
  {
  }

  /** The tuples the deprecated builder joins, one per row. */
  function Tuples(rows: seq<seq<string>>): (ts: seq<string>)
    ensures |ts| == |rows|
  {
    seq(|rows|, r requires 0 <= r < |rows| => Parenthesised(rows[r]))
  }

  /** How many of the rows hold no value. */
  function EmptyRows(rows: seq<seq<string>>): nat
  {
    if rows == [] then 0
    else EmptyRows(rows[..|rows| - 1]) + (if rows[|rows| - 1] == [] then 1 else 0)
  }

  /**
   * Joined, the deprecated tuples are longer than the newest revision's by
   * one character per empty row: `()` against `)`.
   */
  lemma {:induction false} TuplesLengthGap(rows: seq<seq<string>>)
    ensures |Join(Tuples(rows), ",")| == |Join(Queries.TupleBodies(rows), ",")| + EmptyRows(rows)
  {
    var m := |rows|;
    if m > 0 {
      var front := rows[..m - 1];
      assert Tuples(rows)[..m - 1] == Tuples(front);
      assert Queries.TupleBodies(rows)[..m - 1] == Queries.TupleBodies(front);
      assert |Parenthesised(rows[m - 1])| == |Queries.TupleBody(rows[m - 1])| + (if rows[m - 1] == [] then 1 else 0);
      if m > 1 {
        TuplesLengthGap(front);
      } else {
        assert EmptyRows(front) == 0;
      }
    }
  }

  /**
   * On one row or more, none of them empty, the deprecated builder writes
   * the same statement as the newest revision's renderer. They differ with
   * no rows (the space before `;`) and whenever a row is empty (each empty
   * row is `()` here and `)` there).
   */
  lemma AgreesWithInsertStatement(name: string, rows: seq<seq<string>>)
    ensures |rows| > 0 && EmptyRows(rows) == 0 ==> InsertAll(name, rows) == Queries.InsertStatement(name, rows)
    ensures |rows| > 0 ==> |InsertAll(name, rows)| == |Queries.InsertStatement(name, rows)| + EmptyRows(rows)
    ensures rows == [] || EmptyRows(rows) > 0 ==> InsertAll(name, rows) != Queries.InsertStatement(name, rows)
  {
    if rows == [] {
      var a := InsertAll(name, rows);
      var b := Queries.InsertStatement(name, rows);
      assert |a| != |b|;
    } else {
      TuplesLengthGap(rows);
      if EmptyRows(rows) == 0 {
        NoEmptyRow(rows);
        assert Tuples(rows) == Queries.TupleBodies(rows);
      }
    }
  }

  /** Without empty rows counted, every row holds a value. */
  lemma {:induction false} NoEmptyRow(rows: seq<seq<string>>)
    requires EmptyRows(rows) == 0
    ensures forall r :: 0 <= r < |rows| ==> rows[r] != []
  {
    if rows != [] {
      var front := rows[..|rows| - 1];
      NoEmptyRow(front);
      assert forall r :: 0 <= r < |front| ==> rows[r] == front[r];
    }
  }

  /** A single empty row: `()` here, `)` in the newest revision. */
  lemma EmptyRowRendering(name: string)
    ensures InsertAll(name, [[]]) == "INSERT INTO " + name + " VALUES ();"
    ensures Queries.InsertStatement(name, [[]]) == "INSERT INTO " + name + " VALUES );"
  {
    assert SingleQuoted([]) == [];
    assert Parenthesised([]) == "()";
    assert Tuples([[]]) == ["()"];
    assert Queries.TupleBodies([[]]) == [")"];
  }
}
