/**
 * The schema entities of the newest revision (domain/model/schema.go):
 * Schema, Table, Column and ForeignKey, their builders and setters, and a
 * column's data generation.
 */
module SchemaModel {
  import opened Wrappers
  import opened Strings
  import opened ModelTypes
  import Random

  /** One generated or derived value of one column in one row. */
  type Value = string

  /** One row of one table. */
  type Record = seq<Value>

  /** A reference from a column to `TableName.ColumnName`. */
  datatype ForeignKey = ForeignKey(TableName: string, ColumnName: string)

  /** `NewForeignKey(tn, cn)`: a reference to column `cn` of table `tn`. */
  function NewForeignKey(tn: string, cn: string): (fk: ForeignKey)
    ensures fk.TableName == tn && fk.ColumnName == cn
  {
    ForeignKey(tn, cn)
  }

  /** Bases that `GenerateRandomData` produces a random string for. */
  const StringBases: set<string> := {Varchar, Text, Varbinary, Mediumblob}

  /** Bases listed in the switch of `GenerateRandomData`. */
  const HandledBases: set<string> := StringBases + {Int, Tinyint, Timestamp, Datetime, Json}

  /**
   * A column. `FullName` is stored as given (normally `table.column`);
   * `SetForeignKey`, `SetAutoIncrement` and `SetUnsigned` are Go
   * pointer-receiver setters and return the updated column here.
   */
  datatype Column = Column(
    Name: string,
    FullName: string,
    Type: ColumnType,
    ForeignKeys: seq<ForeignKey>,
    AutoIncrement: bool,
    Unsigned: bool)
  {
    predicate HasForeignKey()
    {
      |ForeignKeys| > 0
    }

    /** Appends one foreign key at the end; nothing else changes. */
    function SetForeignKey(fk: ForeignKey): (c: Column)
      ensures c.HasForeignKey()
      ensures |c.ForeignKeys| == |ForeignKeys| + 1 && c.ForeignKeys[|ForeignKeys|] == fk
      ensures c.ForeignKeys[..|ForeignKeys|] == ForeignKeys
      ensures c.(ForeignKeys := ForeignKeys) == this
    {
      this.(ForeignKeys := ForeignKeys + [fk])
    }

    function SetAutoIncrement(): (c: Column)
      ensures c.AutoIncrement && c.(AutoIncrement := AutoIncrement) == this
    {
      this.(AutoIncrement := true)
    }

    function SetUnsigned(b: bool): (c: Column)
      ensures c.Unsigned == b && c.(Unsigned := Unsigned) == this
    {
      this.(Unsigned := b)
    }

    /** What `GenerateRandomData` needs: a string size must not be negative (`make` panics). */
    predicate RandomDataDefined()
    {
      Type.Base in StringBases ==> Type.Param >= 0
    }

    /**
     * The literals `GenerateRandomData` can return for this column: a string
     * of `Param` letters and digits, a decimal int in the (unsigned) `Int`
     * range, "0" or "1", any date text, a JSON object with ten digits, and
     * "" for a base the switch does not list.
     */
    ghost predicate IsRandomValue(v: Value)
    {
      if Type.Base in StringBases then
        |v| == Type.Param && forall k :: 0 <= k < |v| ==> v[k] in Random.Chars
      else if Type.Base == Int then
        Atoi(v).Ok? && (if Unsigned then 0 else -2147483648) <= Atoi(v).value < 2147483647
      else if Type.Base == Tinyint then
        v == "0" || v == "1"
      else if Type.Base == Timestamp || Type.Base == Datetime then
        true
      else if Type.Base == Json then
        |v| == 21 && v[..9] == "{\"json\":\"" && v[19..] == "\"}" && AllDigits(v[9..19])
      else
        v == ""
    }

    /** Dispatches on the base to the generator for it; an unlisted base gives "". */
    method GenerateRandomData() returns (data: string)
      requires RandomDataDefined()
      ensures IsRandomValue(data)
      ensures Type.Base !in HandledBases ==> data == ""
    {
      data := "";
      var base := Type.Base;
      if base in StringBases {
        data := Random.GenerateRandomString(Type.Param);
      } else if base == Int {
        Random.IntRanges();
        data := Random.GenerateRandomInt(Type.Base, Unsigned);
      } else if base == Tinyint {
        data := Random.GenerateRandomTinyint();
      } else if base == Timestamp || base == Datetime {
        // generateRandomDate depends on the time library and is not modelled
        data := *;
      } else if base == Json {
        data := Random.GenerateRandomJson();
      }
    }

    /** `n` values: all "NULL" for an auto-increment column, random literals otherwise. */
    method GenerateData(n: nat) returns (d: seq<Value>)
      requires !AutoIncrement ==> RandomDataDefined()
      ensures |d| == n
      ensures AutoIncrement ==> forall k :: 0 <= k < n ==> d[k] == "NULL"
      ensures !AutoIncrement ==> forall k :: 0 <= k < n ==> IsRandomValue(d[k])
    {
      d := [];
      if AutoIncrement {
        var i := 0;
        while i < n
          invariant 0 <= i <= n && |d| == i
          invariant forall k :: 0 <= k < i ==> d[k] == "NULL"
        {
          d := d + ["NULL"];
          i := i + 1;
        }
      } else {
        var i := 0;
        while i < n
          invariant 0 <= i <= n && |d| == i
          invariant forall k :: 0 <= k < i ==> IsRandomValue(d[k])
        {
          var v := GenerateRandomData();
          d := d + [v];
          i := i + 1;
        }
      }
    }
  }

  /** `NewColumnFullName(tn, cn)` is `tn.cn`. */
  function NewColumnFullName(tn: string, cn: string): (fullName: string)
    ensures |fullName| == |tn| + 1 + |cn| && fullName[|tn|] == '.'
    ensures fullName[..|tn|] == tn && fullName[|tn| + 1..] == cn
  {
    tn + "." + cn
  }

  /**
   * `NewColumn(fullName, ct)`: the name is the second `.`-separated piece
   * of the full name (Go panics when there is no `.`), the full name and the
   * type are stored as given, and there are no keys or flags.
   */
  function NewColumn(fullName: string, ct: ColumnType): (c: Column)
    requires '.' in fullName
    ensures c.FullName == fullName && c.Type == ct
    ensures c.ForeignKeys == [] && !c.AutoIncrement && !c.Unsigned
    ensures c.Name == Split(fullName, '.')[1]
  {
    var k := IndexOf(fullName, '.');
    assert k < |fullName|;
    var name := Split(fullName, '.')[1];
    Column(name, fullName, ct, [], false, false)
  }

  /** The column built from `NewColumnFullName(t, c)` is named `c` when neither name holds a dot. */
  lemma NewColumnOfFullName(tn: string, cn: string, ct: ColumnType)
    requires '.' !in tn && '.' !in cn
    ensures '.' in NewColumnFullName(tn, cn)
    ensures NewColumn(NewColumnFullName(tn, cn), ct).Name == cn
    ensures NewColumn(NewColumnFullName(tn, cn), ct).FullName == tn + "." + cn
  {
    var fullName := NewColumnFullName(tn, cn);
    assert fullName[|tn|] == '.';
    SplitPair(tn, '.', cn);
  }

  /** A table: its name and its columns in declared order. */
  datatype Table = Table(Name: string, Columns: seq<Column>)
  {
    /** Appends one column at the end; nothing else changes. */
    function AddColumns(column: Column): (t: Table)
      ensures t.Name == Name
      ensures |t.Columns| == |Columns| + 1 && t.Columns[|Columns|] == column
      ensures t.Columns[..|Columns|] == Columns
    {
      this.(Columns := Columns + [column])
    }
  }

  /** `NewTable(name)`: the name and no columns. */
  function NewTable(name: string): (t: Table)
    ensures t.Name == name && t.Columns == []
  {
    Table(name, [])
  }

  /** The schema: tables in order. `AddTable` updates it in place. */
  class Schema {
    var Tables: seq<Table>

    /** Go's zero `Schema{}`. */
    constructor ()
      ensures Tables == []
    {
      Tables := [];
    }

    /** Appends one table at the end; the earlier tables are unchanged. */
    method AddTable(table: Table)
      modifies this
      ensures Tables == old(Tables) + [table]
      ensures LastTable() == table
    {
      Tables := Tables + [table];
    }

    /** The last table (Go panics on an empty schema). */
    function LastTable(): (t: Table)
      reads this
      requires |Tables| > 0
      ensures t in Tables && t == Tables[|Tables| - 1]
    {
      Tables[|Tables| - 1]
    }
  }
}
