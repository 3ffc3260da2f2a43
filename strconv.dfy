/**
 * The parts of Go's `strconv` package that the value coercions call.
 *
 * `ParseBool` is modelled exactly. `ParseUint(s, 0, 64)` and `ParseInt(s, 0, 64)`
 * are modelled for the notations the library documents: decimal, `0x`/`0X`
 * hexadecimal and leading-`0` octal, with an optional sign for the signed parse
 * and the 64-bit range checks. Floating point is not interpreted: a float64
 * value is the datatype `Float64` and every float operation the coercions use
 * is a field of `FloatConv`, which callers supply.
 */
module Strconv {
  import opened Wrappers

  const MaxUint64: nat := 0xFFFF_FFFF_FFFF_FFFF
  const MaxInt64: int := 0x7FFF_FFFF_FFFF_FFFF
  const MinInt64: int := -0x8000_0000_0000_0000

  type Int64 = i: int | MinInt64 <= i <= MaxInt64
  type Uint64 = n: int | 0 <= n <= MaxUint64

  /** An IEEE-754 double, without interpreting its arithmetic. */
  datatype Float64 = Finite(r: real) | Infinity(negative: bool) | NaN {
    /** `f != 0.0` is false exactly for (either signed) zero. */
    predicate IsZero() { this == Finite(0.0) }
    /** `f >= 0.0`: false for NaN and negative values. */
    predicate NonNegative() { (Finite? && r >= 0.0) || this == Infinity(false) }
  }

  /**
   * The float operations Go provides and this model leaves uninterpreted:
   * `strconv.ParseFloat(s, 64)` (None on error), the conversions `int64(f)`
   * and `uint64(f)`, and `float64(i)`.
   */
  datatype FloatConv = FloatConv(
    parseFloat: string -> Option<Float64>,
    toInt64: Float64 -> Int64,
    toUint64: Float64 -> Uint64,
    fromInt64: Int64 -> Float64)

  /** The words `strconv.ParseBool` accepts as true. */
  predicate IsTrueWord(s: string) {
    s == "1" || s == "t" || s == "T" || s == "true" || s == "TRUE" || s == "True"
  }

  /** The words `strconv.ParseBool` accepts as false. */
  predicate IsFalseWord(s: string) {
    s == "0" || s == "f" || s == "F" || s == "false" || s == "FALSE" || s == "False"
  }

  /** `strconv.ParseBool`: None stands for the syntax error. */
  function ParseBool(s: string): (r: Option<bool>)
    ensures r.Some? <==> IsTrueWord(s) || IsFalseWord(s)
    ensures r == Some(true) <==> IsTrueWord(s)
    ensures r == Some(false) <==> IsFalseWord(s)
  {
    if IsTrueWord(s) then Some(true)
    else if IsFalseWord(s) then Some(false)
    else None
  }

  function Lower(c: char): char {
    if 'A' <= c <= 'Z' then (c as int + 32) as char else c
  }

  /** The digit value Go gives a character: 0-9 for decimal digits, 10-35 for letters, 36 for anything else. */
  function DigitVal(c: char): nat {
    if '0' <= c <= '9' then c as nat - '0' as nat
    else if 'a' <= Lower(c) <= 'z' then Lower(c) as nat - 'a' as nat + 10
    else 36
  }

  predicate AllDigits(ds: string, base: nat) {
    forall i :: 0 <= i < |ds| ==> DigitVal(ds[i]) < base
  }

  /** The value of a digit string, most significant digit first. */
  function Value(ds: string, base: nat): nat {
    if ds == [] then 0 else Value(ds[..|ds| - 1], base) * base + DigitVal(ds[|ds| - 1])
  }

  /** Base detection of `ParseUint(s, 0, ...)`: the base and the digits that follow the prefix. */
  function BaseAndDigits(s: string): (string, nat)
    requires s != ""
  {
    if s[0] == '0' then
      if |s| >= 3 && Lower(s[1]) == 'x' then (s[2..], 16) else (s[1..], 8)
    else (s, 10)
  }

  /**
   * `strconv.ParseUint(s, 0, 64)`: None for the empty string, a digit
   * invalid in the detected base, or a value beyond 2^64-1.
   */
  function ParseUint(s: string): (r: Option<nat>)
    ensures r.Some? ==> r.value <= MaxUint64
  {
    if s == "" then None
    else
      var (ds, base) := BaseAndDigits(s);
      if AllDigits(ds, base) && Value(ds, base) <= MaxUint64 then Some(Value(ds, base)) else None
  }

  /**
   * `strconv.ParseInt(s, 0, 64)`: an optional `+` or `-`, then the unsigned
   * parse, then the int64 range check. (`ParseInt(s, 0, 0)` is the same on a
   * 64-bit platform.)
   */
  function ParseInt(s: string): (r: Option<int>)
    ensures r.Some? ==> MinInt64 <= r.value <= MaxInt64
  {
    if s == "" then None
    else
      var neg := s[0] == '-';
      var body := if s[0] == '+' || s[0] == '-' then s[1..] else s;
      match ParseUint(body)
      case None => None
      case Some(un) =>
        if !neg && un > MaxInt64 then None
        else if neg && un > -MinInt64 then None
        else Some(if neg then -(un as int) else un)
  }

  /** The unsigned parse takes no sign at all. */
  lemma ParseUintRejectsSign(s: string)
    requires s != "" && (s[0] == '-' || s[0] == '+')
    ensures ParseUint(s) == None
  {
    assert DigitVal(s[0]) == 36;
  }

  /** Lower-case digit characters, the inverse of `DigitVal` below 16. */
  function DigitChar(d: nat): (c: char)
    requires d < 16
    ensures DigitVal(c) == d
  {
    if d < 10 then ('0' as int + d) as char else ('a' as int + d - 10) as char
  }

  /** Go's `strconv.FormatUint(n, base)`, most significant digit first, without leading zeros. */
  function Format(n: nat, base: nat): string
    requires 2 <= base <= 16
    decreases n
  {
    if n < base then [DigitChar(n)] else Format(n / base, base) + [DigitChar(n % base)]
  }

  lemma {:induction false} FormatValue(n: nat, base: nat)
    requires 2 <= base <= 16
    ensures Format(n, base) != []
    ensures AllDigits(Format(n, base), base)
    ensures Value(Format(n, base), base) == n
    ensures n > 0 ==> Format(n, base)[0] != '0'
  {
    if n >= base {
      var q, d := n / base, n % base;
      DivMod(n, base);
      FormatValue(q, base);
      FormatStep(Format(q, base), q, d, base);
    } else {
      var ds := Format(n, base);
      assert ds == [DigitChar(n)];
      assert DigitVal(ds[0]) == n;
    }
  }

  lemma FormatStep(hi: string, q: nat, d: nat, base: nat)
    requires 2 <= base <= 16 && d < base
    requires hi != [] && AllDigits(hi, base) && Value(hi, base) == q && (q > 0 ==> hi[0] != '0')
    ensures var ds := hi + [DigitChar(d)];
      ds != [] && AllDigits(ds, base) && Value(ds, base) == q * base + d && ds[0] == hi[0]
  {
    ValueAppend(hi, DigitChar(d), base);
  }

  lemma ValueAppend(ds: string, c: char, base: nat)
    requires AllDigits(ds, base) && DigitVal(c) < base
    ensures AllDigits(ds + [c], base)
    ensures Value(ds + [c], base) == Value(ds, base) * base + DigitVal(c)
  {
    assert (ds + [c])[..|ds|] == ds;
  }

  lemma DivMod(n: nat, base: nat)
    requires base > 0
    ensures n / base * base + n % base == n
    ensures base >= 2 && n > 0 ==> n / base < n
    ensures n >= base ==> n / base > 0
  {
  }

  /** Decimal round trip: parsing the decimal text of any uint64 gives it back. */
  lemma ParseUintDecimal(n: nat)
    requires n <= MaxUint64
    ensures ParseUint(Format(n, 10)) == Some(n)
  {
    FormatValue(n, 10);
    var ds := Format(n, 10);
    if n == 0 {
      assert ds == "0";
      assert ds[1..] == "";
      assert BaseAndDigits(ds) == ("", 8);
    } else {
      assert BaseAndDigits(ds) == (ds, 10);
    }
  }

  /** Hexadecimal round trip: `0x` followed by the hex digits of any uint64. */
  lemma ParseUintHex(n: nat)
    requires n <= MaxUint64
    ensures ParseUint("0x" + Format(n, 16)) == Some(n)
  {
    FormatValue(n, 16);
    var s := "0x" + Format(n, 16);
    assert s[2..] == Format(n, 16);
    assert BaseAndDigits(s) == (Format(n, 16), 16);
  }

  /** Octal round trip: a leading `0` followed by the octal digits of any uint64. */
  lemma ParseUintOctal(n: nat)
    requires n <= MaxUint64
    ensures ParseUint("0" + Format(n, 8)) == Some(n)
  {
    FormatValue(n, 8);
    var s := "0" + Format(n, 8);
    assert s[1..] == Format(n, 8);
    assert DigitVal(s[1]) < 8;
    assert Lower(s[1]) != 'x';
    assert BaseAndDigits(s) == (Format(n, 8), 8);
  }

  /** `strconv.FormatInt(i, 10)`. */
  function FormatInt(i: int): string {
    if i < 0 then "-" + Format(-i, 10) else Format(i, 10)
  }

  /** Signed round trip over the whole int64 range, both ends included. */
  lemma ParseIntDecimal(i: int)
    requires MinInt64 <= i <= MaxInt64
    ensures ParseInt(FormatInt(i)) == Some(i)
  {
    if i < 0 {
      ParseUintDecimal(-i);
      assert FormatInt(i)[1..] == Format(-i, 10);
    } else {
      ParseUintDecimal(i);
      FormatValue(i, 10);
      assert FormatInt(i)[0] != '-' && FormatInt(i)[0] != '+';
    }
  }
}
