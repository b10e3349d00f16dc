/** Numbers in text: the decimal literals that ast.literal_eval and float()
    accept in this model, and str() of an integer. Values are exact reals;
    IEEE rounding is not modelled. */
module Numbers {
  import opened PyValues
  import opened PyStrings

  predicate AllDigits(s: string) {
    forall k :: 0 <= k < |s| ==> IsDigit(s[k])
  }

  function DigitValue(c: char): nat
    requires IsDigit(c)
  {
    c as int - '0' as int
  }

  /** The value of a string of decimal digits. */
  function DigitsValue(s: string): nat
    requires AllDigits(s)
    decreases |s|
  {
    if |s| == 0 then 0 else DigitsValue(s[..|s| - 1]) * 10 + DigitValue(s[|s| - 1])
  }

  function Pow10(n: nat): (r: nat)
    ensures r > 0
  {
    if n == 0 then 1 else 10 * Pow10(n - 1)
  }

  /** `d+` or `d+.d+`. */
  function ParseUnsigned(s: string): (r: Option<real>)
    ensures r.Some? ==> r.value >= 0.0
  {
    if |s| > 0 && AllDigits(s) then Some(DigitsValue(s) as real)
    else match Find(s, ".")
      case Some(k) =>
        var whole := s[..k];
        var frac := s[k + 1..];
        if |whole| > 0 && |frac| > 0 && AllDigits(whole) && AllDigits(frac) then
          Some(DigitsValue(whole) as real + DigitsValue(frac) as real / Pow10(|frac|) as real)
        else None
      case None => None
  }

  /** An optionally negative decimal: `-?d+(.d+)?`. */
  function ParseDecimal(s: string): Option<real> {
    if |s| > 0 && s[0] == '-' then
      match ParseUnsigned(s[1..])
      case Some(v) => Some(-v)
      case None => None
    else ParseUnsigned(s)
  }

  /** A decimal integer literal with a superfluous leading zero ("007"),
      which Python's grammar rejects (zeros alone, "00", are allowed). */
  predicate LeadingZeroInteger(s: string) {
    var body := if |s| > 0 && s[0] == '-' then s[1..] else s;
    |body| > 1 && AllDigits(body) && body[0] == '0' && exists k :: 0 <= k < |body| && body[k] != '0'
  }

  /** ast.literal_eval restricted to booleans, None and decimal numbers. */
  function LiteralEval(s: string): (r: Result<Json>)
    ensures r.Ok? ==> r.value.JBool? || r.value.JNull? || r.value.JNum?
    ensures r.Err? ==> r.error == MalformedLiteral
    ensures r.Ok? && r.value.JNum? ==> ParseDecimal(s) == Some(r.value.n)
    ensures s == "True" ==> r == Ok(JBool(true))
    ensures s == "False" ==> r == Ok(JBool(false))
    ensures s == "None" ==> r == Ok(JNull)
    ensures s !in {"True", "False", "None"} && !LeadingZeroInteger(s) && ParseDecimal(s).Some? ==>
      r == Ok(JNum(ParseDecimal(s).value))
    ensures r.Err? <==> s !in {"True", "False", "None"} && (LeadingZeroInteger(s) || ParseDecimal(s).None?)
  {
    if s == "True" then Ok(JBool(true))
    else if s == "False" then Ok(JBool(false))
    else if s == "None" then Ok(JNull)
    else if LeadingZeroInteger(s) then Err(MalformedLiteral)
    else match ParseDecimal(s)
      case Some(v) => Ok(JNum(v))
      case None => Err(MalformedLiteral)
  }

  /** float(v): numbers and booleans convert, decimal strings parse, other
      strings raise ValueError and everything else TypeError. */
  function ToFloat(v: Json): (r: Result<real>)
    ensures r.Err? ==> r.error == ValueError || r.error == TypeError
    ensures r.Err? && r.error == ValueError <==> v.JStr? && ParseDecimal(v.s).None?
  {
    match v
    case JNum(n) => Ok(n)
    case JBool(b) => Ok(if b then 1.0 else 0.0)
    case JStr(s) =>
      (match ParseDecimal(s)
       case Some(x) => Ok(x)
       case None => Err(ValueError))
    case _ => Err(TypeError)
  }

  function DigitChar(d: nat): (c: char)
    requires d < 10
    ensures IsDigit(c) && DigitValue(c) == d
  {
    ('0' as int + d) as char
  }

  /** str(n) for a natural number: its decimal digits. */
  function NatToString(n: nat): (r: string)
    ensures |r| > 0 && AllDigits(r)
  {
    if n < 10 then [DigitChar(n)] else NatToString(n / 10) + [DigitChar(n % 10)]
  }

  /** str(n) for an integer. */
  function IntToString(n: int): string {
    if n < 0 then "-" + NatToString(-n) else NatToString(n)
  }

  lemma {:induction false} NatToStringValue(n: nat)
    ensures DigitsValue(NatToString(n)) == n
  {
    var r := NatToString(n);
    if n >= 10 {
      NatToStringValue(n / 10);
      assert r[..|r| - 1] == NatToString(n / 10);
    }
  }

  /** str(n) reads back as n: the decimal rendering of an integer parses
      to the same number. */
  lemma IntToStringParses(n: int)
    ensures ParseDecimal(IntToString(n)) == Some(n as real)
  {
    if n < 0 {
      var digits := NatToString(-n);
      NatToStringValue(-n);
      UnsignedParses(digits);
      var s := IntToString(n);
      assert s == "-" + digits;
      assert |s| > 0 && s[0] == '-' && s[1..] == digits;
    } else {
      var digits := NatToString(n);
      NatToStringValue(n);
      UnsignedParses(digits);
      assert IsDigit(digits[0]);
    }
  }

  /** Text that starts with a letter or a space is no decimal. */
  lemma NotDecimal(s: string)
    requires |s| > 0 && !IsDigit(s[0]) && s[0] != '-'
    ensures ParseDecimal(s).None?
  {
  }

  /** str(n) of a positive number does not start with a zero. */
  lemma {:induction false} NatToStringHead(n: nat)
    requires n > 0
    ensures NatToString(n)[0] != '0'
  {
    if n >= 10 {
      NatToStringHead(n / 10);
    }
  }

  /** literal_eval reads str(n) back as n: the rendering of an integer has
      no superfluous leading zero and is not a keyword. */
  lemma LiteralEvalIntToString(n: int)
    ensures LiteralEval(IntToString(n)) == Ok(JNum(n as real))
  {
    IntToStringParses(n);
    var s := IntToString(n);
    var body := if n < 0 then NatToString(-n) else NatToString(n);
    assert s[0] == '-' || IsDigit(s[0]);
    assert !LeadingZeroInteger(s) by {
      if n < 0 {
        assert s[1..] == body;
        NatToStringHead(-n);
      } else if n > 0 {
        NatToStringHead(n);
      }
    }
  }

  /** A string of digits parses to its value. */
  lemma UnsignedParses(digits: string)
    requires |digits| > 0 && AllDigits(digits)
    ensures ParseUnsigned(digits) == Some(DigitsValue(digits) as real)
  {
  }
}
