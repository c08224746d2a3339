/**
 * Stand-ins for the parts of Go's `strings` and `strconv` packages that the
 * core calls: Join, Trim, Split, FieldsFunc, ToLower, Itoa and Atoi.
 * Strings are sequences of characters; case mapping is ASCII only.
 */
module Strings {
  import opened Wrappers

  // ---------------------------------------------------------------- joining

  /** `strings.Join(parts, sep)`. */
  function Join(parts: seq<string>, sep: string): string
  {
    if |parts| == 0 then ""
    else if |parts| == 1 then parts[0]
    else Join(parts[..|parts| - 1], sep) + sep + parts[|parts| - 1]
  }

  /** All parts one after the other, with no separator (Go's repeated `+=`). */
  function Concat(parts: seq<string>): string
  {
    if |parts| == 0 then "" else Concat(parts[..|parts| - 1]) + parts[|parts| - 1]
  }

  /** Every part followed by `sep`. */
  function AppendEach(parts: seq<string>, sep: string): (r: seq<string>)
    ensures |r| == |parts|
  {
    seq(|parts|, k requires 0 <= k < |parts| => parts[k] + sep)
  }

  /** Concatenating parts that each end in the separator is the join plus one trailing separator. */
  lemma {:induction false} ConcatAppendEach(parts: seq<string>, sep: string)
    requires |parts| > 0
    ensures Concat(AppendEach(parts, sep)) == Join(parts, sep) + sep
  {
    var m := |parts|;
    var front := parts[..m - 1];
    assert AppendEach(parts, sep)[..m - 1] == AppendEach(front, sep);
    if m > 1 {
      ConcatAppendEach(front, sep);
    }
  }

  /** Appending one more part adds that part and one separator. */
  lemma ConcatAppendEachStep(parts: seq<string>, sep: string, i: nat)
    requires i < |parts|
    ensures Concat(AppendEach(parts[..i + 1], sep)) == Concat(AppendEach(parts[..i], sep)) + parts[i] + sep
  {
    assert AppendEach(parts[..i + 1], sep)[..i] == AppendEach(parts[..i], sep);
  }

  /** Each string between single quotes, as the SQL renderers write values. */
  function SingleQuoted(vs: seq<string>): (qs: seq<string>)
    ensures |qs| == |vs|
  {
    seq(|vs|, k requires 0 <= k < |vs| => "'" + vs[k] + "'")
  }

  // ---------------------------------------------------------------- integers

  const MinInt64: int := -0x8000_0000_0000_0000
  const MaxInt64: int := 0x7fff_ffff_ffff_ffff

  predicate IsDigit(c: char) { '0' <= c <= '9' }

  predicate AllDigits(s: string) { forall k :: 0 <= k < |s| ==> IsDigit(s[k]) }

  function DigitChar(d: nat): char
    requires d < 10
  {
    "0123456789"[d]
  }

  /** The decimal digits of `k`, most significant first, without leading zeros. */
  function NatToDecimal(k: nat): string
  {
    if k < 10 then [DigitChar(k)] else NatToDecimal(k / 10) + [DigitChar(k % 10)]
  }

  /** `strconv.Itoa`. */
  function Itoa(m: int): string
  {
    if m < 0 then "-" + NatToDecimal(-m) else NatToDecimal(m)
  }

  /** The value of a string of decimal digits. */
  function DecimalValue(s: string): nat
    requires AllDigits(s)
  {
    if s == [] then 0 else 10 * DecimalValue(s[..|s| - 1]) + (s[|s| - 1] as int - '0' as int)
  }

  /**
   * `strconv.Atoi` for a 64-bit `int`: an optional sign, then at least one
   * decimal digit and nothing else; a value outside the int64 range is an error.
   */
  function Atoi(s: string): (r: Result<int>)
    ensures r.Ok? ==> MinInt64 <= r.value <= MaxInt64
  {
    var signed := |s| > 0 && (s[0] == '+' || s[0] == '-');
    var digits := if signed then s[1..] else s;
    if |digits| == 0 || !AllDigits(digits) then Err("invalid syntax")
    else
      var v: int := if signed && s[0] == '-' then -(DecimalValue(digits) as int) else DecimalValue(digits);
      if v < MinInt64 || MaxInt64 < v then Err("value out of range") else Ok(v)
  }

  /** A digit character and its value. */
  lemma DigitCharValue(d: nat)
    requires d < 10
    ensures IsDigit(DigitChar(d)) && DigitChar(d) as int - '0' as int == d
  {
  }

  /** The decimal text of `k` is a non-empty run of digits whose value is `k`. */
  lemma {:induction false} NatToDecimalDigits(k: nat)
    ensures |NatToDecimal(k)| > 0 && AllDigits(NatToDecimal(k))
    ensures DecimalValue(NatToDecimal(k)) == k
  {
    if k < 10 {
      DigitCharValue(k);
    } else {
      var q, r := k / 10, k % 10;
      NatToDecimalDigits(q);
      DigitCharValue(r);
      var p := NatToDecimal(q);
      var s := p + [DigitChar(r)];
      assert NatToDecimal(k) == s;
      assert s[..|s| - 1] == p;
      assert AllDigits(s);
      assert DecimalValue(s) == 10 * q + r;
    }
  }

  /** Atoi reads back every int64 that Itoa prints. */
  lemma AtoiItoa(m: int)
    requires MinInt64 <= m <= MaxInt64
    ensures Atoi(Itoa(m)) == Ok(m)
  {
    if m < 0 {
      AtoiNegative(-m);
    } else {
      AtoiNonNegative(m);
    }
  }

  lemma AtoiNonNegative(k: nat)
    requires k <= MaxInt64
    ensures Atoi(NatToDecimal(k)) == Ok(k)
  {
    NatToDecimalDigits(k);
    var p := NatToDecimal(k);
    assert IsDigit(p[0]);
    assert !(p[0] == '+' || p[0] == '-');
  }

  lemma AtoiNegative(k: nat)
    requires 0 < k <= -MinInt64
    ensures Atoi("-" + NatToDecimal(k)) == Ok(-(k as int))
  {
    NatToDecimalDigits(k);
    var p := NatToDecimal(k);
    var s := "-" + p;
    assert s[0] == '-';
    assert s[1..] == p;
  }

  // ---------------------------------------------------------------- case

  function LowerChar(c: char): char
  {
    if 'A' <= c <= 'Z' then (c as int + 32) as char else c
  }

  /** `strings.ToLower`, restricted to ASCII letters. */
  function ToLower(s: string): string
  {
    seq(|s|, k requires 0 <= k < |s| => LowerChar(s[k]))
  }

  // ---------------------------------------------------------------- fields

  /** The separator test the type parser passes to `strings.FieldsFunc`. */
  predicate IsTypeSeparator(c: char) { c == '(' || c == ')' || c == ',' }

  predicate NoTypeSeparator(s: string) { forall k :: 0 <= k < |s| ==> !IsTypeSeparator(s[k]) }

  /** Length of the leading run of non-separator characters. */
  function RunLength(s: string): (k: nat)
    ensures k <= |s|
    ensures NoTypeSeparator(s[..k])
    ensures k < |s| ==> IsTypeSeparator(s[k])
  {
    if s == [] || IsTypeSeparator(s[0]) then 0 else 1 + RunLength(s[1..])
  }

  /**
   * `strings.FieldsFunc(s, IsTypeSeparator)`: the maximal runs of
   * non-separator characters, in order; empty runs are dropped.
   */
  function Fields(s: string): (l: seq<string>)
    ensures forall k :: 0 <= k < |l| ==> |l[k]| > 0 && NoTypeSeparator(l[k])
    decreases |s|
  {
    if s == [] then []
    else if IsTypeSeparator(s[0]) then Fields(s[1..])
    else
      var k := RunLength(s);
      assert k > 0;
      [s[..k]] + Fields(s[k..])
  }

  lemma {:induction false} RunLengthOfWord(w: string, rest: string)
    requires NoTypeSeparator(w)
    requires rest == [] || IsTypeSeparator(rest[0])
    ensures RunLength(w + rest) == |w|
  {
    if w != [] {
      assert (w + rest)[1..] == w[1..] + rest;
      RunLengthOfWord(w[1..], rest);
    }
  }

  /** A separator-free word followed by the end or a separator is the first field. */
  lemma FieldsOfWord(w: string, rest: string)
    requires |w| > 0 && NoTypeSeparator(w)
    requires rest == [] || IsTypeSeparator(rest[0])
    ensures Fields(w + rest) == [w] + Fields(rest)
  {
    RunLengthOfWord(w, rest);
    assert (w + rest)[..|w|] == w;
    assert (w + rest)[|w|..] == rest;
  }

  /** A leading separator is skipped. */
  lemma FieldsOfSeparator(c: char, rest: string)
    requires IsTypeSeparator(c)
    ensures Fields([c] + rest) == Fields(rest)
  {
    assert ([c] + rest)[1..] == rest;
  }

  // ---------------------------------------------------------------- trimming

  /** `strings.TrimLeft(s, cutset)`. */
  function TrimLeft(s: string, cutset: string): string
  {
    if |s| > 0 && s[0] in cutset then TrimLeft(s[1..], cutset) else s
  }

  /** `strings.TrimRight(s, cutset)`. */
  function TrimRight(s: string, cutset: string): string
  {
    if |s| > 0 && s[|s| - 1] in cutset then TrimRight(s[..|s| - 1], cutset) else s
  }

  /** `strings.Trim(s, cutset)`: every leading and trailing character of the cutset removed. */
  function Trim(s: string, cutset: string): string
  {
    TrimRight(TrimLeft(s, cutset), cutset)
  }

  /** TrimLeft drops a prefix made of cut characters and stops at one that is not. */
  lemma {:induction false} TrimLeftSlice(s: string, cutset: string)
    ensures var r := TrimLeft(s, cutset);
      |r| <= |s| && r == s[|s| - |r|..] &&
      (forall k :: 0 <= k < |s| - |r| ==> s[k] in cutset) &&
      (r != [] ==> r[0] !in cutset)
  {
    if |s| > 0 && s[0] in cutset {
      TrimLeftSlice(s[1..], cutset);
    }
  }

  /** TrimRight drops a suffix made of cut characters and stops at one that is not. */
  lemma {:induction false} TrimRightSlice(s: string, cutset: string)
    ensures var r := TrimRight(s, cutset);
      |r| <= |s| && r == s[..|r|] &&
      (forall k :: |r| <= k < |s| ==> s[k] in cutset) &&
      (r != [] ==> r[|r| - 1] !in cutset)
  {
    if |s| > 0 && s[|s| - 1] in cutset {
      TrimRightSlice(s[..|s| - 1], cutset);
    }
  }

  /** The result of Trim neither starts nor ends with a cut character. */
  lemma TrimBounds(s: string, cutset: string)
    ensures |Trim(s, cutset)| <= |s|
    ensures Trim(s, cutset) != [] ==> Trim(s, cutset)[0] !in cutset && Trim(s, cutset)[|Trim(s, cutset)| - 1] !in cutset
  {
    var l := TrimLeft(s, cutset);
    TrimLeftSlice(s, cutset);
    TrimRightSlice(l, cutset);
    var r := Trim(s, cutset);
    if r != [] {
      assert r[0] == l[0];
    }
  }

  /** Trim keeps one contiguous piece of s, with only cut characters before and after it. */
  lemma TrimSlice(s: string, cutset: string)
    ensures exists a, b ::
      && 0 <= a <= b <= |s| && Trim(s, cutset) == s[a..b]
      && (forall k :: 0 <= k < a ==> s[k] in cutset)
      && (forall k :: b <= k < |s| ==> s[k] in cutset)
  {
    var l := TrimLeft(s, cutset);
    TrimLeftSlice(s, cutset);
    TrimRightSlice(l, cutset);
    var r := Trim(s, cutset);
    var a := |s| - |l|;
    var b := a + |r|;
    assert r == s[a..b];
    forall k | b <= k < |s| ensures s[k] in cutset {
      assert s[k] == l[k - a];
    }
  }

  /** Trimming a trimmed string changes nothing. */
  lemma TrimIdempotent(s: string, cutset: string)
    ensures Trim(Trim(s, cutset), cutset) == Trim(s, cutset)
  {
    var r := Trim(s, cutset);
    TrimBounds(s, cutset);
    assert TrimLeft(r, cutset) == r;
    assert TrimRight(r, cutset) == r;
  }

  // ---------------------------------------------------------------- splitting

  /** Index of the first `c` in `s`, or `|s|` when there is none. */
  function IndexOf(s: string, c: char): (k: nat)
    ensures k <= |s|
    ensures k < |s| ==> s[k] == c
    ensures forall j :: 0 <= j < k ==> s[j] != c
  {
    if s == [] || s[0] == c then 0 else 1 + IndexOf(s[1..], c)
  }

  /** `strings.Split(s, [c])`: the pieces between occurrences of `c`; always at least one. */
  function Split(s: string, c: char): (parts: seq<string>)
    ensures |parts| >= 1
    decreases |s|
  {
    var k := IndexOf(s, c);
    if k == |s| then [s] else [s[..k]] + Split(s[k + 1..], c)
  }

  /** Splitting `a + [c] + b` at `c`, when neither part holds `c`, gives back the two parts. */
  lemma SplitPair(a: string, c: char, b: string)
    requires c !in a && c !in b
    ensures Split(a + [c] + b, c) == [a, b]
  {
    var s := a + [c] + b;
    IndexOfAbsent(a, c, [c] + b);
    assert s == a + ([c] + b);
    assert s[..|a|] == a;
    assert s[|a| + 1..] == b;
    IndexOfAbsent(b, c, []);
    assert b + [] == b;
  }

  lemma {:induction false} IndexOfAbsent(a: string, c: char, rest: string)
    requires c !in a
    requires rest == [] || rest[0] == c
    ensures IndexOf(a + rest, c) == |a|
  {
    if a != [] {
      assert (a + rest)[1..] == a[1..] + rest;
      IndexOfAbsent(a[1..], c, rest);
    }
  }
}
