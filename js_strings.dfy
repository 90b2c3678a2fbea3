/**
 * The JavaScript string operations the extension relies on (`includes`, `indexOf`,
 * `split`, `replace`, `trim` and `Number`), over Dafny strings (`seq<char>`).
 */
module JsStrings {
  import opened Wrappers

  /** The characters that end a line for a regular expression: `.` never matches them. */
  predicate IsLineBreak(c: char) {
    c == '\n' || c == '\r' || c == '\U{2028}' || c == '\U{2029}'
  }

  predicate IsDigit(c: char) {
    '0' <= c <= '9'
  }

  predicate AllDigits(s: string) {
    forall i :: 0 <= i < |s| ==> IsDigit(s[i])
  }

  /** `p` occurs in `s` at offset `i`. */
  predicate At(s: string, i: nat, p: string) {
    i + |p| <= |s| && s[i..i + |p|] == p
  }

  /** `s.indexOf(p, from)`: the first offset at or after `from` where `p` occurs. */
  function IndexOf(s: string, p: string, from: nat): (r: Option<nat>)
    decreases |s| - from
    ensures r.Some? ==> from <= r.value && At(s, r.value, p)
    ensures r.Some? ==> forall j :: from <= j < r.value ==> !At(s, j, p)
    ensures r.None? ==> forall j :: from <= j ==> !At(s, j, p)
  {
    if from + |p| > |s| then None
    else if At(s, from, p) then Some(from)
    else IndexOf(s, p, from + 1)
  }

  /** `s.includes(p)`. */
  predicate Includes(s: string, p: string) {
    IndexOf(s, p, 0).Some?
  }

  /** The offset of the first `c` in `s`. */
  function FirstIndex(s: string, c: char): (i: nat)
    requires c in s
    ensures i < |s| && s[i] == c && c !in s[..i]
  {
    if s[0] == c then 0
    else
      var j := FirstIndex(s[1..], c);
      assert s[..j + 1] == [s[0]] + s[1..][..j];
      j + 1
  }

  /** `s.split(sep)` for a one-character separator. */
  function Split(s: string, sep: char): (parts: seq<string>)
    decreases |s|
    ensures |parts| >= 1
    ensures forall k :: 0 <= k < |parts| ==> sep !in parts[k]
    ensures sep in s <==> |parts| >= 2
  {
    if sep !in s then [s]
    else
      var i := FirstIndex(s, sep);
      [s[..i]] + Split(s[i + 1..], sep)
  }

  /** `code.split("\n").length - 1`: the number of line feeds in the text. */
  function LineCount(code: string): (n: nat)
    ensures n == multiset(code)['\n']
  {
    SplitCount(code, '\n');
    |Split(code, '\n')| - 1
  }

  /** `s.split(sep).length` is one more than the number of separators in `s`. */
  lemma {:induction false} SplitCount(s: string, sep: char)
    decreases |s|
    ensures |Split(s, sep)| == multiset(s)[sep] + 1
  {
    if sep !in s {
      assert multiset(s)[sep] == 0;
    } else {
      var i := FirstIndex(s, sep);
      SplitCount(s[i + 1..], sep);
      assert s == s[..i] + [sep] + s[i + 1..];
      assert multiset(s) == multiset(s[..i]) + multiset{sep} + multiset(s[i + 1..]);
      assert sep !in multiset(s[..i]);
    }
  }

  /** `parts.join(sep)`: the inverse of `Split`. */
  function Join(parts: seq<string>, sep: char): string
    requires |parts| >= 1
  {
    if |parts| == 1 then parts[0] else parts[0] + [sep] + Join(parts[1..], sep)
  }

  /** Splitting loses nothing: joining the parts back gives the original string. */
  lemma {:induction false} JoinSplit(s: string, sep: char)
    decreases |s|
    ensures Join(Split(s, sep), sep) == s
  {
    if sep in s {
      var i := FirstIndex(s, sep);
      JoinSplit(s[i + 1..], sep);
      assert s == s[..i] + [sep] + s[i + 1..];
    }
  }

  /** The first `c` is the one with no `c` before it. */
  lemma {:induction false} FirstIndexUnique(s: string, c: char, j: nat)
    requires j < |s| && s[j] == c && c !in s[..j]
    ensures FirstIndex(s, c) == j
  {
    if j > 0 {
      assert s[0] == s[..j][0];
      assert s[1..][..j - 1] == s[1..j];
      assert s[1..j] == s[..j][1..];
      FirstIndexUnique(s[1..], c, j - 1);
    }
  }

  /** Splitting a join of separator-free parts gives those parts back. */
  lemma {:induction false} SplitJoin(parts: seq<string>, sep: char)
    requires |parts| >= 1
    requires forall k :: 0 <= k < |parts| ==> sep !in parts[k]
    ensures Split(Join(parts, sep), sep) == parts
  {
    if |parts| > 1 {
      var rest := Join(parts[1..], sep);
      var s := parts[0] + [sep] + rest;
      var n := |parts[0]|;
      assert s[n] == sep;
      assert s[..n] == parts[0];
      FirstIndexUnique(s, sep, n);
      assert s[n + 1..] == rest;
      SplitJoin(parts[1..], sep);
    }
  }

  /** `s.split(sep).reverse()[0]`: the text after the last separator, or all of `s`. */
  function LastSegment(s: string, sep: char): string {
    var parts := Split(s, sep);
    parts[|parts| - 1]
  }

  /** The last segment holds no separator and ends `s`; when `s` has one, a separator precedes it. */
  lemma {:induction false} LastSegmentEnds(s: string, sep: char)
    decreases |s|
    ensures sep !in LastSegment(s, sep)
    ensures |LastSegment(s, sep)| <= |s|
    ensures s[|s| - |LastSegment(s, sep)|..] == LastSegment(s, sep)
    ensures sep in s ==> |LastSegment(s, sep)| < |s| && s[|s| - |LastSegment(s, sep)| - 1] == sep
    ensures sep !in s ==> LastSegment(s, sep) == s
  {
    if sep in s {
      var i := FirstIndex(s, sep);
      var t := s[i + 1..];
      var seg := LastSegment(t, sep);
      assert LastSegment(s, sep) == seg;
      LastSegmentEnds(t, sep);
      var n := |seg|;
      assert s[|s| - n..] == t[|t| - n..];
      assert s[|s| - n - 1] == if sep in t then t[|t| - n - 1] else s[i];
    }
  }

  /** `s.replace(c, "")` for a one-character pattern: drops the first `c`, if any. */
  function RemoveFirst(s: string, c: char): (r: string)
    ensures c !in s ==> r == s
    ensures c in s ==> |r| == |s| - 1 && multiset(r) + multiset{c} == multiset(s)
    ensures c in s ==> r[..FirstIndex(s, c)] == s[..FirstIndex(s, c)]
    ensures c in s ==> r[FirstIndex(s, c)..] == s[FirstIndex(s, c) + 1..]
  {
    if c in s then
      var i := FirstIndex(s, c);
      assert s == s[..i] + [c] + s[i + 1..];
      s[..i] + s[i + 1..]
    else s
  }

  /** `s.replace(pat, rep)` for a string pattern: replaces the first occurrence only. */
  function ReplaceFirst(s: string, pat: string, rep: string): (r: string)
    ensures (forall i: nat :: !At(s, i, pat)) ==> r == s
    ensures forall i: nat :: At(s, i, pat) ==> |r| == |s| - |pat| + |rep|
  {
    match IndexOf(s, pat, 0)
    case None => s
    case Some(i) => s[..i] + rep + s[i + |pat|..]
  }

  /** Replacing a pattern by itself changes nothing. */
  lemma ReplaceFirstSelf(s: string, pat: string)
    ensures ReplaceFirst(s, pat, pat) == s
  {
    match IndexOf(s, pat, 0)
    case None =>
    case Some(i) =>
      assert s == s[..i] + s[i..i + |pat|] + s[i + |pat|..];
  }

  /** What the first occurrence looks like after replacing it. */
  lemma ReplaceFirstAt(s: string, pat: string, rep: string, i: nat)
    requires At(s, i, pat)
    requires forall j :: 0 <= j < i ==> !At(s, j, pat)
    ensures ReplaceFirst(s, pat, rep) == s[..i] + rep + s[i + |pat|..]
  {
  }

  function DigitValue(c: char): nat
    requires IsDigit(c)
  {
    c as int - '0' as int
  }

  function DigitChar(d: nat): (c: char)
    requires d < 10
    ensures IsDigit(c) && DigitValue(c) == d
  {
    ('0' as int + d) as char
  }

  /** The value of a string of decimal digits (an empty string reads as 0, as `Number("")` does). */
  function DigitsValue(d: string): nat
    requires AllDigits(d)
    decreases |d|
  {
    if d == [] then 0 else 10 * DigitsValue(d[..|d| - 1]) + DigitValue(d[|d| - 1])
  }

  /** A template literal's `${n}` for a natural number: its decimal digits. */
  function NatToString(n: nat): (r: string)
    ensures |r| >= 1 && AllDigits(r)
  {
    if n < 10 then [DigitChar(n)] else NatToString(n / 10) + [DigitChar(n % 10)]
  }

  /** Reading back the decimal text of `n` gives `n`. */
  lemma {:induction false} NatToStringRoundTrip(n: nat)
    ensures DigitsValue(NatToString(n)) == n
  {
    var r := NatToString(n);
    if n >= 10 {
      NatToStringRoundTrip(n / 10);
      assert r[..|r| - 1] == NatToString(n / 10);
    } else {
      assert r[..|r| - 1] == [];
    }
  }

  /** The characters `Number` and `trim` skip at both ends of a string. */
  predicate IsJsWhiteSpace(c: char) {
    || c == ' ' || c == '\t' || c == '\U{000B}' || c == '\U{000C}'
    || c == '\U{00A0}' || c == '\U{FEFF}' || c == '\U{1680}'
    || ('\U{2000}' <= c <= '\U{200A}') || c == '\U{202F}' || c == '\U{205F}' || c == '\U{3000}'
    || c == '\n' || c == '\r' || c == '\U{2028}' || c == '\U{2029}'
  }

  function TrimStart(s: string): (r: string)
    decreases |s|
    ensures |r| <= |s| && r == s[|s| - |r|..]
    ensures forall i :: 0 <= i < |s| - |r| ==> IsJsWhiteSpace(s[i])
    ensures r != [] ==> !IsJsWhiteSpace(r[0])
  {
    if s != [] && IsJsWhiteSpace(s[0]) then TrimStart(s[1..]) else s
  }

  function TrimEnd(s: string): (r: string)
    decreases |s|
    ensures |r| <= |s| && r == s[..|r|]
    ensures forall i :: |r| <= i < |s| ==> IsJsWhiteSpace(s[i])
    ensures r != [] ==> !IsJsWhiteSpace(r[|r| - 1])
  {
    if s != [] && IsJsWhiteSpace(s[|s| - 1]) then TrimEnd(s[..|s| - 1]) else s
  }

  /** `s.trim()`. */
  function Trim(s: string): string {
    TrimEnd(TrimStart(s))
  }

  /**
   * `Number(s)`, with `None` for NaN. Exact for optional white space around decimal
   * digits (an empty or blank string is 0); every other string reads as NaN here.
   */
  function JsNumber(s: string): (n: Option<nat>)
    ensures n.Some? <==> AllDigits(Trim(s))
    ensures n.Some? ==> n.value == DigitsValue(Trim(s))
  {
    var t := Trim(s);
    if t == [] then Some(0)
    else if AllDigits(t) then Some(DigitsValue(t))
    else None
  }

  /** Everything in `s` outside `s[i..j]` is white space. */
  predicate Blank(s: string, i: nat, j: nat)
    requires i <= j <= |s|
  {
    (forall k :: 0 <= k < i ==> IsJsWhiteSpace(s[k])) && (forall k :: j <= k < |s| ==> IsJsWhiteSpace(s[k]))
  }

  /** `Trim(s)` is the window of `s` that leaves only white space around it. */
  lemma TrimWindow(s: string)
    ensures var i := |s| - |TrimStart(s)|; var t := Trim(s);
      i + |t| <= |s| && s[i..i + |t|] == t && Blank(s, i, i + |t|)
  {
    var u := TrimStart(s);
    var i := |s| - |u|;
    var t := TrimEnd(u);
    assert u == s[i..];
    forall k | i + |t| <= k < |s| ensures IsJsWhiteSpace(s[k]) {
      assert s[k] == u[k - i];
    }
  }

  /** A character that is neither white space nor a digit makes the text NaN. */
  lemma NonDigitIsNaN(s: string, k: nat)
    requires k < |s| && !IsJsWhiteSpace(s[k]) && !IsDigit(s[k])
    ensures JsNumber(s) == None
  {
    var i := |s| - |TrimStart(s)|;
    var t := Trim(s);
    TrimWindow(s);
    assert i <= k < i + |t|;
    assert t[k - i] == s[k];
  }

  /** `Number` reads a string of decimal digits as its value (and "" as 0). */
  lemma JsNumberOfDigits(d: string)
    requires AllDigits(d)
    ensures JsNumber(d) == Some(DigitsValue(d))
  {
    if d != [] {
      assert !IsJsWhiteSpace(d[0]) && !IsJsWhiteSpace(d[|d| - 1]);
      assert TrimStart(d) == d;
      assert TrimEnd(d) == d;
    }
  }

  /** `Number` reads the decimal text of `n` back as `n`. */
  lemma JsNumberOfNatToString(n: nat)
    ensures JsNumber(NatToString(n)) == Some(n)
  {
    JsNumberOfDigits(NatToString(n));
    NatToStringRoundTrip(n);
  }

  /** Text holding a `{` anywhere is not a number. */
  lemma BraceIsNaN(s: string, k: nat)
    requires k < |s| && s[k] == '{'
    ensures JsNumber(s) == None
  {
    NonDigitIsNaN(s, k);
  }
}
