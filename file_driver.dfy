/**
 * The two pure helpers of the DDL file driver
 * (driver/file_driver/file_driver.go): the column type parser, which uses
 * the previous revision's case-sensitive `StrToColumnTypeBase`, and the
 * trimming of quotes and parentheses around names.
 */
module FileDriver {
  import opened Wrappers
  import opened Strings
  import opened PrevColumn
  import ModelTypes

  /** The bases whose size parameter is forced to 100. */
  const FixedSizeBases: set<string> := {Text, Varbinary, Mediumblob}

  /**
   * `strToColumnType(str)`: the first field (split at `(`, `)` and `,`),
   * lower-cased, is the base; the optional second field is the integer
   * parameter, 0 when absent, and 100 for text and binary bases. An
   * unknown base or a non-numeric parameter gives the zero type and the
   * error. Go indexes the first field unchecked, so there must be one.
   */
  function StrToColumnType(str: string): (r: (ColumnType, Error))
    requires |Fields(str)| > 0
    ensures r.1.Error? ==> r.0 == ZeroColumnType
    ensures r.1.Nil? ==> r.0.Base in BaseNames
  {
    var l := Fields(str);
    var (base, err) := StrToColumnTypeBase(ToLower(l[0]));
    if err.Error? then (ZeroColumnType, err)
    else
      var parsed := if |l| > 1 then Atoi(l[1]) else Ok(0);
      if parsed.Err? then (ZeroColumnType, Error(parsed.msg))
      else
        var param := if base in FixedSizeBases then 100 else parsed.value;
        (ColumnType(base, param), Nil)
  }

  /** A bare word parses to its lower-cased base with parameter 0, or 100 for text and binary bases. */
  lemma StrToColumnTypeOfWord(w: string)
    requires |w| > 0 && NoTypeSeparator(w) && ToLower(w) in BaseNames
    ensures |Fields(w)| > 0
    ensures StrToColumnType(w) == (ColumnType(ToLower(w), if ToLower(w) in FixedSizeBases then 100 else 0), Nil)
  {
    FieldsOfWord(w, []);
    assert w + [] == w;
  }

  /** `w(p)` parses to the lower-cased base with parameter p, except that text and binary bases get 100. */
  lemma StrToColumnTypeWithParam(w: string, p: int)
    requires |w| > 0 && NoTypeSeparator(w) && ToLower(w) in BaseNames
    requires MinInt64 <= p <= MaxInt64
    ensures |Fields(w + "(" + Itoa(p) + ")")| > 0
    ensures StrToColumnType(w + "(" + Itoa(p) + ")") ==
      (ColumnType(ToLower(w), if ToLower(w) in FixedSizeBases then 100 else p), Nil)
  {
    ModelTypes.ItoaHasNoSeparator(p);
    ModelTypes.FieldsOfParenthesised(w, Itoa(p));
    AtoiItoa(p);
  }

  /** A word that is not one of the nine names (after lower-casing) is rejected with the zero type. */
  lemma StrToColumnTypeUnknown(w: string, rest: string)
    requires |w| > 0 && NoTypeSeparator(w)
    requires rest == [] || IsTypeSeparator(rest[0])
    requires ToLower(w) !in BaseNames
    ensures |Fields(w + rest)| > 0
    ensures StrToColumnType(w + rest) == (ZeroColumnType, Error("unregistered type"))
  {
    FieldsOfWord(w, rest);
  }

  /** A known word with a non-numeric parameter is rejected with the zero type, even for text bases. */
  lemma StrToColumnTypeBadParam(w: string, d: string)
    requires |w| > 0 && NoTypeSeparator(w) && ToLower(w) in BaseNames
    requires |d| > 0 && NoTypeSeparator(d) && Atoi(d).Err?
    ensures |Fields(w + "(" + d + ")")| > 0
    ensures StrToColumnType(w + "(" + d + ")").0 == ZeroColumnType
    ensures StrToColumnType(w + "(" + d + ")").1.Error?
  {
    ModelTypes.FieldsOfParenthesised(w, d);
  }

  /**
   * The driver's parser and the newest revision's `NewColumnType` agree
   * wherever the driver accepts; the newest one additionally accepts the
   * wider integer names and turns them into `int`.
   */
  lemma ParsersAgree(str: string)
    requires |Fields(str)| > 0
    ensures StrToColumnType(str).1.Nil? ==>
      ModelTypes.NewColumnType(str).1.Nil? &&
      ModelTypes.NewColumnType(str).0.Base == StrToColumnType(str).0.Base &&
      ModelTypes.NewColumnType(str).0.Param == StrToColumnType(str).0.Param
    ensures ToLower(Fields(str)[0]) !in {ModelTypes.Smallint, ModelTypes.Mediumint, ModelTypes.Bigint} ==>
      (StrToColumnType(str).1.Nil? <==> ModelTypes.NewColumnType(str).1.Nil?)
  {
    BasesAgree(ToLower(Fields(str)[0]));
  }

  /** The two base parsers agree on the nine names; the newest one also takes the wider integer names. */
  lemma BasesAgree(w: string)
    ensures StrToColumnTypeBase(w).1.Nil? ==> ModelTypes.NewColumnTypeBase(w) == (w, Nil)
    ensures w !in {ModelTypes.Smallint, ModelTypes.Mediumint, ModelTypes.Bigint} ==>
      (StrToColumnTypeBase(w).1.Nil? <==> ModelTypes.NewColumnTypeBase(w).1.Nil?)
  {
  }

  /** The characters `trimSqlQuery` removes. */
  const TrimmingTarget: string := "()`"

  /** `trimSqlQuery(str)`: every leading and trailing `(`, `)` and backquote removed. */
  function TrimSqlQuery(str: string): (r: string)
    ensures |r| <= |str|
    ensures r != [] ==> r[0] !in TrimmingTarget && r[|r| - 1] !in TrimmingTarget
  {
    TrimBounds(str, TrimmingTarget);
    Trim(str, TrimmingTarget)
  }

  /** What is kept is one contiguous piece of the input, with only cut characters around it. */
  lemma TrimSqlQueryKeepsInterior(str: string)
    ensures exists a, b ::
      && 0 <= a <= b <= |str| && TrimSqlQuery(str) == str[a..b]
      && (forall k :: 0 <= k < a ==> str[k] in TrimmingTarget)
      && (forall k :: b <= k < |str| ==> str[k] in TrimmingTarget)
  {
    TrimSlice(str, TrimmingTarget);
  }

  /** Trimming twice is trimming once. */
  lemma TrimSqlQueryIdempotent(str: string)
    ensures TrimSqlQuery(TrimSqlQuery(str)) == TrimSqlQuery(str)
  {
    TrimIdempotent(str, TrimmingTarget);
  }

  /** A back-quoted name that does not itself start or end with a cut character loses exactly its quotes. */
  lemma TrimSqlQueryUnquotes(s: string)
    requires |s| > 0 && s[0] !in TrimmingTarget && s[|s| - 1] !in TrimmingTarget
    ensures TrimSqlQuery("`" + s + "`") == s
  {
    var q, t := "`" + s + "`", s + "`";
    assert q[1..] == t && t[0] == s[0] && t[..|s|] == s;
    assert TrimLeft(q, TrimmingTarget) == TrimLeft(t, TrimmingTarget) == t;
    assert TrimRight(t, TrimmingTarget) == TrimRight(s, TrimmingTarget) == s;
  }

  /** The driver's own case: "`customer`" trims to "customer". */
  lemma TrimSqlQueryExample()
    ensures TrimSqlQuery("`customer`") == "customer"
  {
    TrimSqlQueryUnquotes("customer");
  }
}
