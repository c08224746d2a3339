/**
 * The column entity of the previous revision (domain/model/column.go): the
 * nine type base names, the case-sensitive base parser, columns with
 * foreign-key constraints, and data generation with index-valued
 * auto-increment columns. The resolution part of that file is in
 * module PrevColumnGraph.
 */
module PrevColumn {
  import opened Wrappers
  import opened Strings
  import Random

  type ColumnTypeBase = string

  const Varchar: ColumnTypeBase := "varchar"
  const Varbinary: ColumnTypeBase := "varbinary"
  const Mediumblob: ColumnTypeBase := "mediumblob"
  const Text: ColumnTypeBase := "text"
  const Int: ColumnTypeBase := "int"
  const Tinyint: ColumnTypeBase := "tinyint"
  const Timestamp: ColumnTypeBase := "timestamp"
  const Datetime: ColumnTypeBase := "datetime"
  const Json: ColumnTypeBase := "json"

  /** The names `StrToColumnTypeBase` accepts. */
  const BaseNames: set<string> := {Varchar, Varbinary, Mediumblob, Text, Int, Tinyint, Timestamp, Datetime, Json}

  /** Bases that `GenerateRandomData` produces a random string for. */
  const StringBases: set<string> := {Varchar, Text, Varbinary, Mediumblob}

  datatype ColumnType = ColumnType(Base: ColumnTypeBase, Param: int)

  /** Go's zero `ColumnType{}`. */
  const ZeroColumnType := ColumnType("", 0)

  /**
   * `StrToColumnTypeBase(str)`: one of the nine names, compared exactly
   * (no case folding, no integer family), maps to itself; anything else is
   * an error with the empty base.
   */
  function StrToColumnTypeBase(str: string): (r: (ColumnTypeBase, Error))
    ensures r.1.Nil? <==> str in BaseNames
    ensures r.1.Nil? ==> r.0 == str
    ensures r.1.Error? ==> r.0 == ""
  {
    match str
    case "varchar" => (Varchar, Nil)
    case "varbinary" => (Varbinary, Nil)
    case "mediumblob" => (Mediumblob, Nil)
    case "text" => (Text, Nil)
    case "int" => (Int, Nil)
    case "tinyint" => (Tinyint, Nil)
    case "timestamp" => (Timestamp, Nil)
    case "datetime" => (Datetime, Nil)
    case "json" => (Json, Nil)
    case _ => ("", Error("unregistered type"))
  }

  /** No capital letter anywhere in `s`. */
  predicate NoCapital(s: string)
  {
    forall k :: 0 <= k < |s| ==> !('A' <= s[k] <= 'Z')
  }

  /**
   * The comparison is case-sensitive: every base name is lower-case, so a
   * name holding a capital letter is rejected; `bigint` is not a base here.
   */
  lemma StrToColumnTypeBaseIsCaseSensitive(s: string)
    requires exists k :: 0 <= k < |s| && 'A' <= s[k] <= 'Z'
    ensures StrToColumnTypeBase(s).1.Error?
    ensures StrToColumnTypeBase("bigint").1.Error?
  {
    assert NoCapital(Varchar) && NoCapital(Varbinary) && NoCapital(Mediumblob);
    assert NoCapital(Text) && NoCapital(Int) && NoCapital(Tinyint);
    assert NoCapital(Timestamp) && NoCapital(Datetime) && NoCapital(Json);
    assert !NoCapital(s);
  }

  /** A foreign-key constraint: the referenced table and column. */
  datatype Constraint = Constraint(TableName: string, ColumnName: string)

  function NewConstraint(tn: string, cn: string): (c: Constraint)
    ensures c.TableName == tn && c.ColumnName == cn
  {
    Constraint(tn, cn)
  }

  datatype Column = Column(
    Name: string,
    FullName: string,
    Type: ColumnType,
    AutoIncrement: bool,
    Constraints: seq<Constraint>)
  {
    predicate HasConstraint()
    {
      |Constraints| > 0
    }

    /** Appends one constraint at the end; nothing else changes. */
    function SetConstraint(constraint: Constraint): (c: Column)
      ensures c.HasConstraint()
      ensures |c.Constraints| == |Constraints| + 1 && c.Constraints[|Constraints|] == constraint
      ensures c.Constraints[..|Constraints|] == Constraints
      ensures c.(Constraints := Constraints) == this
    {
      this.(Constraints := Constraints + [constraint])
    }

    /** What `GenerateRandomData` needs: a string size must not be negative. */
    predicate RandomDataDefined()
    {
      Type.Base in StringBases ==> Type.Param >= 0
    }

    /**
     * The literals `GenerateRandomData` can return: `Param` letters and
     * digits, "0" or "1", any text for dates and for `Int` (whose generator
     * is not part of this model), the JSON object, and "" for other bases.
     */
    ghost predicate IsRandomValue(v: string)
    {
      if Type.Base in StringBases then
        |v| == Type.Param && forall k :: 0 <= k < |v| ==> v[k] in Random.Chars
      else if Type.Base == Tinyint then
        v == "0" || v == "1"
      else if Type.Base in {Int, Timestamp, Datetime} then
        true
      else if Type.Base == Json then
        |v| == 21 && v[..9] == "{\"json\":\"" && v[19..] == "\"}" && AllDigits(v[9..19])
      else
        v == ""
    }

    /** Dispatches on the base; a base the switch does not list gives "". */
    method GenerateRandomData() returns (data: string)
      requires RandomDataDefined()
      ensures IsRandomValue(data)
      ensures Type.Base !in BaseNames ==> data == ""
    {
      data := "";
      var base := Type.Base;
      if base in StringBases {
        data := Random.GenerateRandomString(Type.Param);
      } else if base == Int {
        // this revision's one-argument generateRandomInt is not part of this model
        data := *;
      } else if base == Tinyint {
        data := Random.GenerateRandomTinyint();
      } else if base == Timestamp || base == Datetime {
        data := *;
      } else if base == Json {
        data := Random.GenerateRandomJson();
      }
    }

    /**
     * `GenerateData(n)`: for an auto-increment column the decimal texts of
     * 0, 1, ..., n-1; otherwise n random literals.
     */
    method GenerateData(n: nat) returns (d: seq<string>)
      requires !AutoIncrement ==> RandomDataDefined()
      ensures |d| == n
      ensures AutoIncrement ==> forall k :: 0 <= k < n ==> AllDigits(d[k]) && |d[k]| > 0 && DecimalValue(d[k]) == k
      ensures AutoIncrement ==> forall k :: 0 <= k < n ==> k <= MaxInt64 ==> Atoi(d[k]) == Ok(k)
      ensures !AutoIncrement ==> forall k :: 0 <= k < n ==> IsRandomValue(d[k])
    {
      d := [];
      if AutoIncrement {
        var i := 0;
        while i < n
          invariant 0 <= i <= n && |d| == i
          invariant forall k :: 0 <= k < i ==> d[k] == Itoa(k)
        {
          d := d + [Itoa(i)];
          i := i + 1;
        }
        forall k | 0 <= k < n
          ensures AllDigits(d[k]) && |d[k]| > 0 && DecimalValue(d[k]) == k
          ensures k <= MaxInt64 ==> Atoi(d[k]) == Ok(k)
        {
          NatToDecimalDigits(k);
          if k <= MaxInt64 {
            AtoiItoa(k);
          }
        }
      } else {
        var i := 0;
        while i < n
          invariant 0 <= i <= n && |d| == i
          invariant forall k :: 0 <= k < i ==> IsRandomValue(d[k])
        {
          var v := GenerateRandomData();
          d := d + [v];
          i := i + 1;
        }
      }
    }
  }

  /** `NewColumnFullName(tn, cn)` is `tn.cn`. */
  function NewColumnFullName(tn: string, cn: string): (fullName: string)
    ensures |fullName| == |tn| + 1 + |cn| && fullName[|tn|] == '.'
    ensures fullName[..|tn|] == tn && fullName[|tn| + 1..] == cn
  {
    tn + "." + cn
  }

  /** `NewColumn(fullName, ct)`: named by the second `.`-piece (Go panics without a dot); no flags or constraints. */
  function NewColumn(fullName: string, ct: ColumnType): (c: Column)
    requires '.' in fullName
    ensures c.FullName == fullName && c.Type == ct
    ensures c.Constraints == [] && !c.AutoIncrement
    ensures c.Name == Split(fullName, '.')[1]
  {
    var k := IndexOf(fullName, '.');
    assert k < |fullName|;
    Column(Split(fullName, '.')[1], fullName, ct, false, [])
  }

  /** The column built from `NewColumnFullName(t, c)` is named `c` when neither name holds a dot. */
  lemma NewColumnOfFullName(tn: string, cn: string, ct: ColumnType)
    requires '.' !in tn && '.' !in cn
    ensures '.' in NewColumnFullName(tn, cn)
    ensures NewColumn(NewColumnFullName(tn, cn), ct).Name == cn
    ensures NewColumn(NewColumnFullName(tn, cn), ct).FullName == tn + "." + cn
  {
    var fullName := NewColumnFullName(tn, cn);
    assert fullName[|tn|] == '.';
    SplitPair(tn, '.', cn);
  }
}
