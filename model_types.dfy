/**
 * Column types of the newest revision (domain/model/schema.go): the type
 * base names, `ColumnType`, and the parser from a DDL type string such as
 * `VARCHAR(255)` or `INT(10) unsigned`'s first word.
 */
module ModelTypes {
  import opened Wrappers
  import opened Strings

  /** In Go a `ColumnTypeBase` is a string; the registered names are constants. */
  type ColumnTypeBase = string

  const Varchar: ColumnTypeBase := "varchar"
  const Varbinary: ColumnTypeBase := "varbinary"
  const Mediumblob: ColumnTypeBase := "mediumblob"
  const Text: ColumnTypeBase := "text"
  const Tinyint: ColumnTypeBase := "tinyint"
  const Smallint: ColumnTypeBase := "smallint"
  const Mediumint: ColumnTypeBase := "mediumint"
  const Int: ColumnTypeBase := "int"
  const Bigint: ColumnTypeBase := "bigint"
  const Timestamp: ColumnTypeBase := "timestamp"
  const Datetime: ColumnTypeBase := "datetime"
  const Json: ColumnTypeBase := "json"

  /** The integer names that the parser collapses to `Int`. */
  const IntFamily: set<string> := {Smallint, Int, Mediumint, Bigint}

  /** Every name the parser accepts. */
  const RegisteredNames: set<string> :=
    {Varchar, Varbinary, Mediumblob, Text, Tinyint, Timestamp, Datetime, Json} + IntFamily

  /** The bases whose size parameter is forced to 100. */
  const FixedSizeBases: set<string> := {Text, Varbinary, Mediumblob}

  /** e.g. `INT(10)` is `ColumnType(Int, 10)`. */
  datatype ColumnType = ColumnType(Base: ColumnTypeBase, Param: int)

  /** Go's zero `ColumnType{}`, returned together with an error. */
  const ZeroColumnType := ColumnType("", 0)

  /**
   * `newColumnTypeBase`: a registered lower-case name maps to itself, except
   * that the whole integer family maps to `Int`; anything else is an error
   * with the empty base.
   */
  function NewColumnTypeBase(str: string): (r: (ColumnTypeBase, Error))
    ensures r.1.Nil? <==> str in RegisteredNames
    ensures r.1.Nil? && str in IntFamily ==> r.0 == Int
    ensures r.1.Nil? && str !in IntFamily ==> r.0 == str
    ensures r.1.Error? ==> r.0 == ""
  {
    match str
    case "varchar" => (Varchar, Nil)
    case "varbinary" => (Varbinary, Nil)
    case "mediumblob" => (Mediumblob, Nil)
    case "text" => (Text, Nil)
    case "smallint" => (Int, Nil)
    case "int" => (Int, Nil)
    case "mediumint" => (Int, Nil)
    case "bigint" => (Int, Nil)
    case "tinyint" => (Tinyint, Nil)
    case "timestamp" => (Timestamp, Nil)
    case "datetime" => (Datetime, Nil)
    case "json" => (Json, Nil)
    case _ => ("", Error("unregistered type"))
  }

  /** The parser never yields a wide integer base, so the only integer base downstream is `Int`. */
  lemma NewColumnTypeBaseCollapsesIntegers(str: string)
    ensures NewColumnTypeBase(str).0 !in {Smallint, Mediumint, Bigint}
  {
  }

  /**
   * `NewColumnType`: the first field (split at `(`, `)` and `,`) is the
   * base, lower-cased; the optional second field is the integer parameter,
   * which is 0 when absent and 100 for text and binary bases. An unknown
   * base or a non-numeric parameter gives the zero type and an error.
   */
  function NewColumnType(str: string): (r: (ColumnType, Error))
    requires |Fields(str)| > 0
    ensures r.1.Error? ==> r.0 == ZeroColumnType
  {
    var l := Fields(str);
    var (base, err) := NewColumnTypeBase(ToLower(l[0]));
    if err.Error? then (ZeroColumnType, err)
    else
      var parsed := if |l| > 1 then Atoi(l[1]) else Ok(0);
      if parsed.Err? then (ZeroColumnType, Error(parsed.msg))
      else
        var param := if base in FixedSizeBases then 100 else parsed.value;
        (ColumnType(base, param), Nil)
  }

  /** The base the parser gives a registered lower-cased word. */
  function ParsedBase(word: string): ColumnTypeBase
  {
    if word in IntFamily then Int else word
  }

  /** A bare word (for example `JSON` or `TEXT`) parses to its base with parameter 0, or 100 for text and binary bases. */
  lemma NewColumnTypeOfWord(w: string)
    requires |w| > 0 && NoTypeSeparator(w)
    requires ToLower(w) in RegisteredNames
    ensures |Fields(w)| > 0
    ensures NewColumnType(w) ==
      (ColumnType(ParsedBase(ToLower(w)), if ParsedBase(ToLower(w)) in FixedSizeBases then 100 else 0), Nil)
  {
    FieldsOfWord(w, []);
    assert w + [] == w;
  }

  /**
   * A word followed by a parenthesised int64 (for example `VARCHAR(255)`)
   * parses to its base with that parameter, except that text and binary
   * bases always get 100.
   */
  lemma NewColumnTypeWithParam(w: string, p: int)
    requires |w| > 0 && NoTypeSeparator(w)
    requires ToLower(w) in RegisteredNames
    requires MinInt64 <= p <= MaxInt64
    ensures |Fields(w + "(" + Itoa(p) + ")")| > 0
    ensures NewColumnType(w + "(" + Itoa(p) + ")") ==
      (ColumnType(ParsedBase(ToLower(w)), if ParsedBase(ToLower(w)) in FixedSizeBases then 100 else p), Nil)
  {
    ItoaHasNoSeparator(p);
    FieldsOfParenthesised(w, Itoa(p));
    AtoiItoa(p);
  }

  /** A word that is not registered is rejected with the zero type. */
  lemma NewColumnTypeUnknown(w: string, rest: string)
    requires |w| > 0 && NoTypeSeparator(w)
    requires rest == [] || IsTypeSeparator(rest[0])
    requires ToLower(w) !in RegisteredNames
    ensures |Fields(w + rest)| > 0
    ensures NewColumnType(w + rest) == (ZeroColumnType, Error("unregistered type"))
  {
    FieldsOfWord(w, rest);
  }

  /** A registered word with a non-numeric parameter is rejected with the zero type. */
  lemma NewColumnTypeBadParam(w: string, d: string)
    requires |w| > 0 && NoTypeSeparator(w)
    requires ToLower(w) in RegisteredNames
    requires |d| > 0 && NoTypeSeparator(d) && Atoi(d).Err?
    ensures |Fields(w + "(" + d + ")")| > 0
    ensures NewColumnType(w + "(" + d + ")").0 == ZeroColumnType
    ensures NewColumnType(w + "(" + d + ")").1.Error?
  {
    FieldsOfParenthesised(w, d);
  }

  /** `w(d)` splits into the fields `w` and `d`. */
  lemma FieldsOfParenthesised(w: string, d: string)
    requires |w| > 0 && NoTypeSeparator(w)
    requires |d| > 0 && NoTypeSeparator(d)
    ensures Fields(w + "(" + d + ")") == [w, d]
  {
    var open := "(" + d + ")";
    assert w + "(" + d + ")" == w + open;
    assert open[0] == '(';
    FieldsOfWord(w, open);
    FieldsOfBracketed(d);
  }

  /** `(d)` holds the single field `d`. */
  lemma FieldsOfBracketed(d: string)
    requires |d| > 0 && NoTypeSeparator(d)
    ensures Fields("(" + d + ")") == [d]
  {
    var close := [')'];
    var tail := d + close;
    assert "(" + d + ")" == ['('] + tail;
    FieldsOfSeparator('(', tail);
    FieldsOfWord(d, close);
    assert close == [')'] + [];
    FieldsOfSeparator(')', []);
  }

  lemma ItoaHasNoSeparator(p: int)
    ensures |Itoa(p)| > 0 && NoTypeSeparator(Itoa(p))
  {
    if p < 0 {
      NatToDecimalDigits(-p);
    } else {
      NatToDecimalDigits(p);
    }
  }
}
