/**
 * The value type handed out for every option argument and extra argument:
 * a raw string that is converted on demand. Each checked conversion returns
 * the value and whether a conversion succeeded; each `ToX` returns only the
 * value, which is the zero value of its type when the conversion failed.
 *
 * The float operations are not interpreted: the conversions that need them
 * take the `FloatConv` the caller works with.
 */
module Datatypes {
  import opened Wrappers
  import opened Strconv

  /** A value together with the `ok` flag of Go's two-result methods. */
  datatype Checked<T> = Checked(value: T, ok: bool)

  /** The zero value of float64. */
  const FloatZero: Float64 := Finite(0.0)

  datatype String = String(raw: string) {

    /** `String()`: the text itself, always successfully. */
    function Str(): (r: Checked<string>)
      ensures r.ok && r.value == raw
    {
      Checked(raw, true)
    }

    /** `ToString()`: the value part of `Str()`. */
    function ToString(): (r: string)
      ensures r == raw
    {
      Str().value
    }

    /**
     * `Bool()`: the `ParseBool` lexicon first, then a base-detecting integer
     * (true when non-zero), then a float (true when non-zero).
     */
    function Bool(conv: FloatConv): (r: Checked<bool>)
      ensures r.ok <==> ParseBool(raw).Some? || ParseInt(raw).Some? || conv.parseFloat(raw).Some?
      ensures !r.ok ==> r.value == false
    {
      match ParseBool(raw)
      case Some(b) => Checked(b, true)
      case None =>
        match ParseInt(raw)
        case Some(i) => Checked(i != 0, true)
        case None =>
          match conv.parseFloat(raw)
          case Some(f) => Checked(!f.IsZero(), true)
          case None => Checked(false, false)
    }

    /** `ToBool()`: the value of `Bool()` with its flag dropped. */
    function ToBool(conv: FloatConv): (r: bool)
      ensures Bool(conv).ok ==> r == Bool(conv).value
      ensures !Bool(conv).ok ==> !r
    {
      Bool(conv).value
    }

    /**
     * `Int()`: a base-detecting int64 parse first, then a float truncated by
     * `int64(f)`, then the boolean lexicon as 1 or 0.
     */
    function Int(conv: FloatConv): (r: Checked<Int64>)
      ensures r.ok <==> ParseInt(raw).Some? || conv.parseFloat(raw).Some? || ParseBool(raw).Some?
      ensures !r.ok ==> r.value == 0
    {
      match ParseInt(raw)
      case Some(i) => Checked(i, true)
      case None =>
        match conv.parseFloat(raw)
        case Some(f) => Checked(conv.toInt64(f), true)
        case None =>
          match ParseBool(raw)
          case Some(b) => Checked(if b then 1 else 0, true)
          case None => Checked(0, false)
    }

    /** `ToInt()`: the value of `Int()` with its flag dropped. */
    function ToInt(conv: FloatConv): (r: Int64)
      ensures Int(conv).ok ==> r == Int(conv).value
      ensures !Int(conv).ok ==> r == 0
    {
      Int(conv).value
    }

    /**
     * `Uint()`: a base-detecting uint64 parse first, then a float that is
     * not negative (converted by `uint64(f)`), then the boolean lexicon.
     */
    function Uint(conv: FloatConv): (r: Checked<Uint64>)
      ensures r.ok <==> ParseUint(raw).Some?
                        || (conv.parseFloat(raw).Some? && conv.parseFloat(raw).value.NonNegative())
                        || ParseBool(raw).Some?
      ensures !r.ok ==> r.value == 0
    {
      match ParseUint(raw)
      case Some(u) => Checked(u, true)
      case None =>
        match conv.parseFloat(raw)
        case Some(f) =>
          if f.NonNegative() then Checked(conv.toUint64(f), true)
          else UintFromBool()
        case None => UintFromBool()
    }

    /** The last step of `Uint()`, reached from two places in the cascade. */
    function UintFromBool(): Checked<Uint64> {
      match ParseBool(raw)
      case Some(b) => Checked(if b then 1 else 0, true)
      case None => Checked(0, false)
    }

    /** `ToUint()`: the value of `Uint()` with its flag dropped. */
    function ToUint(conv: FloatConv): (r: Uint64)
      ensures Uint(conv).ok ==> r == Uint(conv).value
      ensures !Uint(conv).ok ==> r == 0
    {
      Uint(conv).value
    }

    /**
     * `Float()`: a float parse first, then a base-detecting int64 parse
     * widened by `float64(i)`, then the boolean lexicon as 1.0 or 0.0.
     */
    function Float(conv: FloatConv): (r: Checked<Float64>)
      ensures r.ok <==> conv.parseFloat(raw).Some? || ParseInt(raw).Some? || ParseBool(raw).Some?
      ensures !r.ok ==> r.value == FloatZero
    {
      match conv.parseFloat(raw)
      case Some(f) => Checked(f, true)
      case None =>
        match ParseInt(raw)
        case Some(i) => Checked(conv.fromInt64(i), true)
        case None =>
          match ParseBool(raw)
          case Some(b) => Checked(if b then Finite(1.0) else FloatZero, true)
          case None => Checked(FloatZero, false)
    }

    /** `ToFloat()`: the value of `Float()` with its flag dropped. */
    function ToFloat(conv: FloatConv): (r: Float64)
      ensures Float(conv).ok ==> r == Float(conv).value
      ensures !Float(conv).ok ==> r == FloatZero
    {
      Float(conv).value
    }
  }

  /** What `strconv.ParseFloat` is known to do with the boolean words: reject them. */
  ghost predicate RejectsBoolWords(conv: FloatConv) {
    forall s :: IsTrueWord(s) || IsFalseWord(s) ==> s == "0" || s == "1" || conv.parseFloat(s) == None
  }

  /** `Bool()` consults the lexicon before anything else, whatever the float parser says. */
  lemma BoolLexiconFirst(t: String, conv: FloatConv)
    ensures IsTrueWord(t.raw) ==> t.Bool(conv) == Checked(true, true)
    ensures IsFalseWord(t.raw) ==> t.Bool(conv) == Checked(false, true)
  {
  }

  /** Off the lexicon, an integer decides `Bool()`: true exactly when it is non-zero. */
  lemma BoolFromInteger(t: String, conv: FloatConv, i: int)
    requires ParseBool(t.raw) == None && ParseInt(t.raw) == Some(i)
    ensures t.Bool(conv) == Checked(i != 0, true)
  {
  }

  /**
   * Off the lexicon and the integer syntax, a parsed float decides `Bool()`:
   * true exactly when it is not zero, so NaN and the infinities are true.
   */
  lemma BoolFromFloat(t: String, conv: FloatConv, f: Float64)
    requires ParseBool(t.raw) == None && ParseInt(t.raw) == None && conv.parseFloat(t.raw) == Some(f)
    ensures t.Bool(conv) == Checked(!f.IsZero(), true)
    ensures t.Bool(conv).value <==> f != Finite(0.0)
  {
  }

  /** The cascade order: `Int()` and `Bool()` try the integer parse before the float parse, `Float()` the float parse before the integer parse. */
  lemma CascadeOrder(t: String, conv: FloatConv)
    ensures ParseInt(t.raw).Some? ==> t.Int(conv) == Checked(ParseInt(t.raw).value, true)
    ensures ParseUint(t.raw).Some? ==> t.Uint(conv) == Checked(ParseUint(t.raw).value, true)
    ensures conv.parseFloat(t.raw).Some? ==> t.Float(conv) == Checked(conv.parseFloat(t.raw).value, true)
    ensures ParseBool(t.raw) == None && ParseInt(t.raw).Some? ==> t.Bool(conv).value == (ParseInt(t.raw).value != 0)
  {
  }

  /** `"true"` and `"false"` fall through every numeric parse to the boolean lexicon: 1 and 0. */
  lemma {:induction false} BoolWordsAsNumbers(conv: FloatConv)
    requires RejectsBoolWords(conv)
    ensures String("true").Int(conv) == Checked(1, true)
    ensures String("false").Int(conv) == Checked(0, true)
    ensures String("true").Uint(conv) == Checked(1, true)
    ensures String("false").Uint(conv) == Checked(0, true)
    ensures String("true").Float(conv) == Checked(Finite(1.0), true)
    ensures String("false").Float(conv) == Checked(FloatZero, true)
  {
    assert IsTrueWord("true") && IsFalseWord("false");
    assert conv.parseFloat("true") == None && conv.parseFloat("false") == None;
    assert DigitVal('t') == 29 && DigitVal('f') == 15;
    assert ParseUint("true") == None;
    assert ParseUint("false") == None;
  }

  /** `0x1F` is hexadecimal and `017` octal, whatever the float parser says. */
  lemma {:induction false} IntBaseDetection(conv: FloatConv)
    ensures String("0x1F").Int(conv) == Checked(31, true)
    ensures String("017").Int(conv) == Checked(15, true)
    ensures String("-0x10").Int(conv) == Checked(-16, true)
    ensures String("42").Int(conv) == Checked(42, true)
  {
    assert BaseAndDigits("0x1F") == ("1F", 16);
    assert Value("1F", 16) == 31 by { assert "1F"[..1] == "1"; }
    assert BaseAndDigits("17") == ("17", 10);
    assert BaseAndDigits("017") == ("17", 8);
    assert Value("17", 8) == 15 by { assert "17"[..1] == "1"; }
    assert "-0x10"[1..] == "0x10";
    assert BaseAndDigits("0x10") == ("10", 16);
    assert Value("10", 16) == 16 by { assert "10"[..1] == "1"; }
    assert BaseAndDigits("42") == ("42", 10);
    assert Value("42", 10) == 42 by { assert "42"[..1] == "4"; }
  }

  /**
   * `Uint()` never succeeds on a negative number: the unsigned parse rejects
   * the sign, a float parse that yields a negative value is skipped, and no
   * signed text is a boolean word.
   */
  lemma UintRejectsNegative(t: String, conv: FloatConv)
    requires t.raw != "" && t.raw[0] == '-'
    requires conv.parseFloat(t.raw).Some? ==> !conv.parseFloat(t.raw).value.NonNegative()
    ensures !t.Uint(conv).ok && t.ToUint(conv) == 0
  {
    ParseUintRejectsSign(t.raw);
  }

  /** With a float parser that yields -5 for `"-5"`, `Uint()` fails on it. */
  lemma UintMinusFive(conv: FloatConv)
    requires conv.parseFloat("-5") == Some(Finite(-5.0))
    ensures String("-5").Uint(conv) == Checked(0, false)
  {
    UintRejectsNegative(String("-5"), conv);
  }
}
