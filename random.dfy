/**
 * The random literal generators of domain/model/random.go. Every call to
 * `rand.Intn(k)` is modelled as an arbitrary choice of an `r` with
 * `0 <= r < k`; nothing is claimed about the distribution.
 */
module Random {
  import opened Strings
  import opened ModelTypes

  const LowerChars: string := "abcdefghijklmnopqrstuvwxyz"
  const CapitalChars: string := "ABCDEFGHIJKLMNOPQRSTUVWXYZ"
  const NumChars: string := "0123456789"

  /** The package's `chars` once `init` has appended the three alphabets to the empty slice. */
  const Chars: string := LowerChars + CapitalChars + NumChars

  predicate IsAsciiAlphanumeric(c: char)
  {
    'a' <= c <= 'z' || 'A' <= c <= 'Z' || '0' <= c <= '9'
  }

  /** `chars` holds 62 runes: lower-case letters, then upper-case letters, then digits. */
  lemma CharsLayout()
    ensures |Chars| == 62
    ensures forall k :: 0 <= k < 26 ==> Chars[k] == ('a' as int + k) as char
    ensures forall k :: 26 <= k < 52 ==> Chars[k] == ('A' as int + k - 26) as char
    ensures forall k :: 52 <= k < 62 ==> Chars[k] == ('0' as int + k - 52) as char
  {
  }

  /** A character is in `chars` exactly when it is an ASCII letter or digit. */
  lemma CharsAreAlphanumerics(c: char)
    ensures c in Chars <==> IsAsciiAlphanumeric(c)
  {
    CharsLayout();
    if 'a' <= c <= 'z' {
      assert Chars[c as int - 'a' as int] == c;
    } else if 'A' <= c <= 'Z' {
      assert Chars[26 + c as int - 'A' as int] == c;
    } else if '0' <= c <= '9' {
      assert Chars[52 + c as int - '0' as int] == c;
    }
  }

  /** `intRangeMap`: the signed MySQL range of each integer type as `(min, max)`. */
  const IntRangeMap: map<ColumnTypeBase, (int, int)> := map[
    Tinyint := (-128, 127),
    Smallint := (-32768, 32767),
    Mediumint := (-8388608, 8388607),
    Int := (-2147483648, 2147483647),
    Bigint := (-9223372036854775808, 9223372036854775807)
  ]

  /** Go's 64-bit `int` arithmetic: the value wrapped into the int64 range. */
  function Wrap64(x: int): (r: int)
    ensures MinInt64 <= r <= MaxInt64
    ensures MinInt64 <= x <= MaxInt64 ==> r == x
  {
    (x - MinInt64) % 0x1_0000_0000_0000_0000 + MinInt64
  }

  /** The `max - min` that the signed branch of `generateRandomInt` computes, in Go's int64. */
  function SignedWidth(t: ColumnTypeBase): int
    requires t in IntRangeMap
  {
    Wrap64(IntRangeMap[t].1 - IntRangeMap[t].0)
  }

  /**
   * Every range has min < max, and every width but Bigint's fits in an
   * int64; Bigint's `max - min` wraps to -1, for which `rand.Intn` panics.
   */
  lemma IntRanges()
    ensures forall t :: t in IntRangeMap ==> IntRangeMap[t].0 < IntRangeMap[t].1
    ensures forall t :: t in IntRangeMap && t != Bigint ==> SignedWidth(t) == IntRangeMap[t].1 - IntRangeMap[t].0 > 0
    ensures SignedWidth(Bigint) == -1
  {
  }

  /** `generateRandomString(n)`: n runes, each drawn from `chars`. */
  method GenerateRandomString(n: nat) returns (s: string)
    ensures |s| == n
    ensures forall k :: 0 <= k < n ==> s[k] in Chars
  {
    var str := new char[n];
    var i := 0;
    while i < n
      invariant 0 <= i <= n
      invariant forall k :: 0 <= k < i ==> str[k] in Chars
    {
      var r :| 0 <= r < |Chars|;
      str[i] := Chars[r];
      i := i + 1;
    }
    s := str[..];
  }

  /**
   * `generateRandomInt(t, unsigned)`: the decimal text of an integer in
   * [0, max) when unsigned and in [min, max) otherwise; max itself is never
   * produced. The signed branch panics unless `max - min` is positive in
   * Go's int64, which excludes Bigint.
   */
  method GenerateRandomInt(t: ColumnTypeBase, unsigned: bool) returns (s: string)
    requires t in IntRangeMap
    requires !unsigned ==> SignedWidth(t) > 0
    ensures Atoi(s).Ok?
    ensures unsigned ==> 0 <= Atoi(s).value < IntRangeMap[t].1
    ensures !unsigned ==> IntRangeMap[t].0 <= Atoi(s).value < IntRangeMap[t].1
  {
    IntRanges();
    var (lo, hi) := IntRangeMap[t];
    var m: int;
    if unsigned {
      var r :| 0 <= r < hi;
      m := r;
    } else {
      var r :| 0 <= r < SignedWidth(t);
      m := r + lo;
    }
    s := Itoa(m);
    AtoiItoa(m);
  }

  /** `generateRandomTinyint()`: a digit of even or odd index, so "0" or "1". */
  method GenerateRandomTinyint() returns (s: string)
    ensures s == "0" || s == "1"
  {
    var str := new char[1];
    var i := 0;
    while i < 1
      invariant 0 <= i <= 1
      invariant i == 1 ==> str[0] == '0' || str[0] == '1'
    {
      var r :| 0 <= r < |NumChars|;
      str[i] := NumChars[r % 2];
      i := i + 1;
    }
    s := str[..];
  }

  /** `generateRandomJson()`: `{"json":"` then ten random digits then `"}`, 21 characters. */
  method GenerateRandomJson() returns (s: string)
    ensures |s| == 21
    ensures s[..9] == "{\"json\":\"" && s[19..] == "\"}"
    ensures AllDigits(s[9..19])
  {
    var str := new char[10];
    var i := 0;
    while i < 10
      invariant 0 <= i <= 10
      invariant forall k :: 0 <= k < i ==> IsDigit(str[k])
    {
      var r :| 0 <= r < |NumChars|;
      str[i] := NumChars[r];
      i := i + 1;
    }
    var digits := str[..];
    var parts := ["{\"json\":\"", digits, "\"}"];
    s := Join(parts, "");
    assert parts[..2][..1] == ["{\"json\":\""];
    assert Join(parts[..2], "") == "{\"json\":\"" + digits;
    assert s == "{\"json\":\"" + digits + "\"}";
    assert s[9..19] == digits;
  }
}
