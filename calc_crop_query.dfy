/** The cq query string built from an annotation's options line (server/src/calcCropQuery.ts). */
module CalcCropQuery {
  import opened Wrappers
  import opened JsStrings
  import opened JsRegex

  /** `optionsLine.match(/crop-query=(.*)}/)?.[1]` is a non-empty string. */
  predicate HasCropQuery(optionsLine: string) {
    var m := GreedyCapture(optionsLine, "crop-query=", "}");
    m.Some? && m.value != ""
  }

  /** The digits after `crop-start-line=`, when the option is there. */
  function StartDigits(optionsLine: string): Option<string> {
    RunCapture(optionsLine, "crop-start-line=", Digits)
  }

  /** The digits after `crop-end-line=`, when the option is there. */
  function EndDigits(optionsLine: string): Option<string> {
    RunCapture(optionsLine, "crop-end-line=", Digits)
  }

  /** Both line options are there and neither has an empty digit string ("0" counts as present). */
  predicate HasLineOptions(optionsLine: string) {
    && StartDigits(optionsLine).Some? && StartDigits(optionsLine).value != ""
    && EndDigits(optionsLine).Some? && EndDigits(optionsLine).value != ""
  }

  /**
   * `calcCropQuery(optionsLine, numberOfLines)`: the crop-query value if there is one,
   * else "S-E" from the line options, else the whole file "1-N".
   */
  function CalcCropQuery(optionsLine: string, numberOfLines: nat): (query: string)
    ensures |query| > 0
    ensures !HasCropQuery(optionsLine) ==> '-' in query
  {
    var cropQueryMatch := GreedyCapture(optionsLine, "crop-query=", "}");
    if cropQueryMatch.Some? && cropQueryMatch.value != "" then
      cropQueryMatch.value
    else if HasLineOptions(optionsLine) then
      StartDigits(optionsLine).value + "-" + EndDigits(optionsLine).value
    else
      assert ("1-" + NatToString(numberOfLines))[1] == '-';
      "1-" + NatToString(numberOfLines)
  }

  /** A crop-query value wins over the line options and does not depend on the file's length. */
  lemma CropQueryFirst(optionsLine: string, n: nat, m: nat)
    requires HasCropQuery(optionsLine)
    ensures CalcCropQuery(optionsLine, n) == CalcCropQuery(optionsLine, m)
    ensures CalcCropQuery(optionsLine, n) == GreedyCapture(optionsLine, "crop-query=", "}").value
  {
  }

  /**
   * Without a crop-query value, two line options give "S-E" built from their digit
   * strings verbatim: splitting on "-" gives them back, and each reads as its number.
   */
  lemma {:induction false} LineOptionsQuery(optionsLine: string, n: nat)
    requires !HasCropQuery(optionsLine) && HasLineOptions(optionsLine)
    ensures Split(CalcCropQuery(optionsLine, n), '-')
         == [StartDigits(optionsLine).value, EndDigits(optionsLine).value]
    ensures JsNumber(StartDigits(optionsLine).value) == Some(DigitsValue(StartDigits(optionsLine).value))
  {
    var s, e := StartDigits(optionsLine).value, EndDigits(optionsLine).value;
    assert CalcCropQuery(optionsLine, n) == s + "-" + e;
    DigitPairSplit(s, e);
  }

  /** "S-E" from two digit strings splits back into them, and S reads as its number. */
  lemma DigitPairSplit(s: string, e: string)
    requires |s| > 0 && forall j :: 0 <= j < |s| ==> IsDigit(s[j])
    requires forall j :: 0 <= j < |e| ==> IsDigit(e[j])
    ensures Split(s + "-" + e, '-') == [s, e]
    ensures JsNumber(s) == Some(DigitsValue(s))
  {
    assert '-' !in s && '-' !in e;
    assert Join([s, e], '-') == s + "-" + e;
    SplitJoin([s, e], '-');
    assert !IsJsWhiteSpace(s[0]) && !IsJsWhiteSpace(s[|s| - 1]);
    assert TrimStart(s) == s;
    assert TrimEnd(s) == s;
  }

  /** Otherwise the query is the whole file, "1-N", and N reads back as the line count. */
  lemma {:induction false} WholeFileQuery(optionsLine: string, n: nat)
    requires !HasCropQuery(optionsLine) && !HasLineOptions(optionsLine)
    ensures Split(CalcCropQuery(optionsLine, n), '-') == ["1", NatToString(n)]
    ensures JsNumber(NatToString(n)) == Some(n)
  {
    var d := NatToString(n);
    assert '-' !in d by {
      assert forall j :: 0 <= j < |d| ==> IsDigit(d[j]);
    }
    assert Join(["1", d], '-') == "1-" + d;
    SplitJoin(["1", d], '-');
    JsNumberOfNatToString(n);
  }
}
