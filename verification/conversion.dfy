/** The typed reading of a stored (type tag, raw value) pair. */
module Conversion {
  import opened Wrappers
  import opened Exceptions
  import opened Text
  import opened Numbers

  /** The boxed value before it is converted to the caller's type. */
  datatype Value = Str(s: string) | Int(i: int) | Double(d: real) | Bool(b: bool)

  /** The tags `ConvertValue` dispatches on, after lower-casing. */
  const RecognisedTags: set<string> := {"string", "int", "integer", "double", "bool", "boolean"}

  /** `bool.ToString()`. */
  function FormatBool(b: bool): string {
    if b then "True" else "False"
  }

  /** `ParseBool`: `bool.TryParse` (the words true and false in any case,
      ignoring surrounding white space and NUL characters), then the exact
      literals "1" and "0"; anything else throws `FormatException`. */
  function ParseBool(v: string): (r: Result<bool, Exception>)
    ensures r == Ok(true) <==> EqualsIgnoreCase(TrimWhiteSpaceAndNul(v), "true") || v == "1"
    ensures r == Ok(false) <==> EqualsIgnoreCase(TrimWhiteSpaceAndNul(v), "false") || v == "0"
    ensures r.Err? ==> r.error == FormatException
  {
    var t := TrimWhiteSpaceAndNul(v);
    if EqualsIgnoreCase(t, "True") then Ok(true)
    else if EqualsIgnoreCase(t, "False") then Ok(false)
    else if v == "1" then Ok(true)
    else if v == "0" then Ok(false)
    else Err(FormatException)
  }

  /** `ConvertValue`, up to the boxed value: the tag is compared after
      `ToLowerInvariant`; the "double" parse is the parameter `parseDouble`,
      whose `None` stands for `FormatException`. */
  function ConvertValue(typeTag: string, raw: string, parseDouble: string -> Option<real>): (r: Result<Value, Exception>)
    ensures r == Err(NotSupportedException) <==> ToLowerInvariant(typeTag) !in RecognisedTags
    ensures ToLowerInvariant(typeTag) == "string" ==> r == Ok(Str(raw))
    ensures ToLowerInvariant(typeTag) in {"int", "integer"} ==>
      match ParseInt32(raw)
      case Ok(n) => r == Ok(Int(n))
      case Err(e) => r == Err(e)
    ensures ToLowerInvariant(typeTag) in {"bool", "boolean"} ==>
      match ParseBool(raw)
      case Ok(b) => r == Ok(Bool(b))
      case Err(e) => r == Err(e)
    ensures ToLowerInvariant(typeTag) == "double" ==>
      match parseDouble(raw)
      case Some(d) => r == Ok(Double(d))
      case None => r == Err(FormatException)
    ensures r.Ok? && r.value.Double? ==> ToLowerInvariant(typeTag) == "double" && parseDouble(raw) == Some(r.value.d)
  {
    var tag := ToLowerInvariant(typeTag);
    if tag == "string" then Ok(Str(raw))
    else if tag == "int" || tag == "integer" then
      match ParseInt32(raw)
      case Ok(n) => Ok(Int(n))
      case Err(e) => Err(e)
    else if tag == "double" then
      match parseDouble(raw)
      case Some(d) => Ok(Double(d))
      case None => Err(FormatException)
    else if tag == "bool" || tag == "boolean" then
      match ParseBool(raw)
      case Ok(b) => Ok(Bool(b))
      case Err(e) => Err(e)
    else Err(NotSupportedException)
  }

  /** `ParseBool` reads back what `bool.ToString()` and the digit literals
      write. */
  lemma ParseBoolRoundTrip(b: bool)
    ensures ParseBool(FormatBool(b)) == Ok(b)
    ensures ParseBool(if b then "1" else "0") == Ok(b)
  {
    var s := FormatBool(b);
    assert s == [] + s + [];
    TrimByCharacterization(s, [], s, [], IsWhiteSpaceOrNul);
  }

  /** `ParseBool` ignores the case of its argument. */
  lemma ParseBoolIgnoresCase(v: string)
    ensures ParseBool(FoldCase(v)) == ParseBool(v)
  {
    var t := TrimWhiteSpaceAndNul(v);
    TrimWhiteSpaceAndNulFold(v);
    assert TrimWhiteSpaceAndNul(FoldCase(v)) == FoldCase(t);
    FoldCaseIdempotent(t);
    assert EqualsIgnoreCase(FoldCase(t), "True") == EqualsIgnoreCase(t, "True");
    assert EqualsIgnoreCase(FoldCase(t), "False") == EqualsIgnoreCase(t, "False");
    assert FoldCase(v) == "1" <==> v == "1" by {
      if FoldCase(v) == "1" { assert v[0] == '1'; }
    }
    assert FoldCase(v) == "0" <==> v == "0" by {
      if FoldCase(v) == "0" { assert v[0] == '0'; }
    }
  }

  /** Lower-casing a case-folded ASCII string is lower-casing the original. */
  lemma LowerOfFold(s: string)
    ensures ToLowerInvariant(FoldCase(s)) == ToLowerInvariant(s)
  {
  }

  /** The type tag is matched case-insensitively. */
  lemma ConvertValueIgnoresTagCase(typeTag: string, raw: string, parseDouble: string -> Option<real>)
    ensures ConvertValue(FoldCase(typeTag), raw, parseDouble) == ConvertValue(typeTag, raw, parseDouble)
  {
    LowerOfFold(typeTag);
  }

  /** Integer tags read back every 32-bit `int.ToString()`. */
  lemma ConvertValueIntRoundTrip(typeTag: string, n: int, parseDouble: string -> Option<real>)
    requires ToLowerInvariant(typeTag) in {"int", "integer"}
    requires MinInt32 <= n <= MaxInt32
    ensures ConvertValue(typeTag, Int32ToString(n), parseDouble) == Ok(Int(n))
  {
    assert Int32ToString(n) == [] + Int32ToString(n) + [];
    ParseInt32RoundTrip([], n, []);
  }

  /** Boolean tags read back `bool.ToString()`. */
  lemma ConvertValueBoolRoundTrip(typeTag: string, b: bool, parseDouble: string -> Option<real>)
    requires ToLowerInvariant(typeTag) in {"bool", "boolean"}
    ensures ConvertValue(typeTag, FormatBool(b), parseDouble) == Ok(Bool(b))
  {
    ParseBoolRoundTrip(b);
  }

  /** "1" and "0" under "bool" are true and false. */
  lemma ConvertBoolExamples(parseDouble: string -> Option<real>)
    ensures ConvertValue("bool", "1", parseDouble) == Ok(Bool(true))
    ensures ConvertValue("bool", "0", parseDouble) == Ok(Bool(false))
  {
    ParseBoolRoundTrip(true);
    ParseBoolRoundTrip(false);
  }

  /** "42" under "int" is 42; "x" under "int" is a `FormatException`. */
  lemma ConvertIntExamples(parseDouble: string -> Option<real>)
    ensures ConvertValue("int", "42", parseDouble) == Ok(Int(42))
    ensures ConvertValue("int", "x", parseDouble) == Err(FormatException)
  {
    assert Int32ToString(42) == "42";
    assert ToLowerInvariant("int") == "int";
    ConvertValueIntRoundTrip("int", 42, parseDouble);
    assert "x" == [] + "x" + [];
    NumberBodyOfPadded([], "x", []);
    assert !AllDigits("x");
  }

  /** Integer tags reject every integer outside the 32-bit range, written
      out, with `OverflowException` rather than `FormatException`. */
  lemma ConvertValueIntOverflow(typeTag: string, n: int, parseDouble: string -> Option<real>)
    requires ToLowerInvariant(typeTag) in {"int", "integer"}
    requires !InInt32Range(n)
    ensures ConvertValue(typeTag, Int32ToString(n), parseDouble) == Err(OverflowException)
  {
    ParseInt32Overflows(n);
  }

  /** An unknown tag such as "array" is a `NotSupportedException`. */
  lemma ConvertUnsupportedExample(raw: string, parseDouble: string -> Option<real>)
    ensures ConvertValue("array", raw, parseDouble) == Err(NotSupportedException)
  {
  }
}
