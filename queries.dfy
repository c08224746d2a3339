/**
 * The INSERT statements of the newest revision (domain/model/queries.go):
 * one statement per table of the record map, between two
 * `SET FOREIGN KEY` statements.
 */
module Queries {
  import opened Strings
  import opened SchemaModel

  /** A record as a tuple: its quoted values joined by `,` in parentheses; the empty record leaves only `)`. */
  function TupleBody(record: Record): string
  {
    if record == [] then ")" else "(" + Join(SingleQuoted(record), ",") + ")"
  }

  /**
   * `querizeRecord(record)`: every value quoted and followed by a comma
   * after an opening parenthesis; the last character is then replaced by
   * `),`. The result is the tuple followed by a comma.
   */
  method QuerizeRecord(record: Record) returns (re: string)
    ensures re == TupleBody(record) + ","
  {
    ghost var qs := SingleQuoted(record);
    re := "(";
    var i := 0;
    while i < |record|
      invariant 0 <= i <= |record|
      invariant re == "(" + Concat(AppendEach(qs[..i], ","))
    {
      ConcatAppendEachStep(qs, ",", i);
      re := re + "'" + record[i] + "',";
      i := i + 1;
    }
    assert qs[..i] == qs;
    if record != [] {
      ConcatAppendEach(qs, ",");
    }
    re := re[..|re| - 1] + "),";
  }

  /** The tuples of the records, in order. */
  function TupleBodies(records: seq<Record>): (ts: seq<string>)
    ensures |ts| == |records|
  {
    seq(|records|, k requires 0 <= k < |records| => TupleBody(records[k]))
  }

  /**
   * The statement for one table: `INSERT INTO <t> VALUES ` and the tuples
   * joined by `,` then `;`. Without records the trailing space is what is
   * cut, so it reads `INSERT INTO <t> VALUES;`.
   */
  function InsertStatement(name: string, records: seq<Record>): string
  {
    if records == [] then "INSERT INTO " + name + " VALUES;"
    else "INSERT INTO " + name + " VALUES " + Join(TupleBodies(records), ",") + ";"
  }

  /** Every statement starts with `INSERT INTO <t> VALUES` and ends with `;`. */
  lemma InsertStatementShape(name: string, records: seq<Record>)
    ensures var prefix := "INSERT INTO " + name + " VALUES";
      var q := InsertStatement(name, records);
      |q| > |prefix| && q[..|prefix|] == prefix && q[|q| - 1] == ';'
  {
    var prefix := "INSERT INTO " + name + " VALUES";
    var q := InsertStatement(name, records);
    if records == [] {
      assert q == prefix + ";";
    } else {
      assert q == prefix + (" " + Join(TupleBodies(records), ",") + ";");
    }
  }

  /** The statement-building loop of `GenerateQuery` for one table. */
  method InsertFor(name: string, records: seq<Record>) returns (q: string)
    ensures q == InsertStatement(name, records)
  {
    q := "INSERT INTO " + name + " VALUES ";
    var tuples := QuerizeRecords(records);
    q := q + tuples;
    InsertFinish(name, records, q);
    q := q[..|q| - 1] + ";";
  }

  /** Every record querized, one after the other. */
  method QuerizeRecords(records: seq<Record>) returns (acc: string)
    ensures acc == Concat(AppendEach(TupleBodies(records), ","))
  {
    ghost var ts := TupleBodies(records);
    acc := "";
    var i := 0;
    while i < |records|
      invariant 0 <= i <= |records|
      invariant acc == Concat(AppendEach(ts[..i], ","))
    {
      var t := QuerizeRecord(records[i]);
      ConcatAppendEachStep(ts, ",", i);
      acc := acc + t;
      i := i + 1;
    }
    assert ts[..i] == ts;
  }

  /** Cutting the last character of the accumulated text and appending `;` gives the statement. */
  lemma InsertFinish(name: string, records: seq<Record>, q: string)
    requires q == "INSERT INTO " + name + " VALUES " + Concat(AppendEach(TupleBodies(records), ","))
    ensures |q| > 0 && q[..|q| - 1] + ";" == InsertStatement(name, records)
  {
    var ts := TupleBodies(records);
    var head := "INSERT INTO " + name + " VALUES";
    if records != [] {
      ConcatAppendEach(ts, ",");
      assert q == head + (" " + Join(ts, ",")) + ",";
    } else {
      assert q == head + " ";
    }
  }

  /** The statement that switches foreign-key checks off or on, as queries.go spells it. */
  const ForeignKeyOff := "SET FOREIGN KEY = 0;"
  const ForeignKeyOn := "SET FOREIGN KEY = 1;"

  /** `order` lists every key of `m` exactly once. */
  ghost predicate IsKeyOrder<V>(order: seq<string>, m: map<string, V>)
  {
    && |order| == |m|
    && (forall k :: 0 <= k < |order| ==> order[k] in m)
    && (forall key :: key in m ==> key in order)
    && (forall k, l :: 0 <= k < l < |order| ==> order[k] != order[l])
  }

  /**
   * `GenerateQuery(rft)`: nothing for an empty map; otherwise the switch-off
   * statement, one INSERT per table, and the switch-on statement. Go visits
   * the map in an unspecified order: `order` is the order this run chose.
   */
  method GenerateQuery(rft: map<string, seq<Record>>) returns (re: seq<string>, ghost order: seq<string>)
    ensures |rft| == 0 ==> re == [] && order == []
    ensures |rft| > 0 ==> |re| == |rft| + 2 && re[0] == ForeignKeyOff && re[|re| - 1] == ForeignKeyOn
    ensures IsKeyOrder(order, rft)
    ensures |rft| > 0 ==> forall k :: 0 <= k < |order| ==> re[k + 1] == InsertStatement(order[k], rft[order[k]])
  {
    order := [];
    if |rft| == 0 {
      return [], order;
    }
    re := [ForeignKeyOff];
    var remaining := rft.Keys;
    while remaining != {}
      invariant remaining <= rft.Keys
      invariant |re| == |order| + 1 && re[0] == ForeignKeyOff
      invariant |order| + |remaining| == |rft|
      invariant forall k :: 0 <= k < |order| ==> order[k] in rft && order[k] !in remaining
      invariant forall key :: key in rft ==> key in remaining || key in order
      invariant forall k, l :: 0 <= k < l < |order| ==> order[k] != order[l]
      invariant forall k :: 0 <= k < |order| ==> re[k + 1] == InsertStatement(order[k], rft[order[k]])
      decreases |remaining|
    {
      var tableName :| tableName in remaining;
      var q := InsertFor(tableName, rft[tableName]);
      re := re + [q];
      order := order + [tableName];
      remaining := remaining - {tableName};
    }
    re := re + [ForeignKeyOn];
  }
}
