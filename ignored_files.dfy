/** `findIgnoredFiles` (server/src/server.ts): the path fragments a lesson marks `{ignore=...}`. */
module IgnoredFiles {
  import opened Wrappers
  import opened JsStrings
  import opened JsRegex
  import opened JsArrays

  /** The first match of `/\{ignore=.*\}/` at or after an offset: from its `{` to just past its `}`. */
  function IgnoreNext(text: string): nat -> Option<(nat, nat)> {
    (j: nat) =>
      match GreedyFrom(text, "{ignore=", "}", j)
      case None => None
      case Some((i, k)) => Some((i, k + 1))
  }

  /** The search for the next ignore match resumes strictly later. */
  lemma IgnoreNextAdvances(text: string)
    ensures Advances(text, IgnoreNext(text))
  {
  }

  /** `text.match(/\{ignore=.*\}/g) || []`. */
  function IgnoreMatches(text: string): (ms: seq<string>)
    ensures forall k :: 0 <= k < |ms| ==> IsIgnoreMatch(ms[k]) && HasSeparator(ms[k])
  {
    IgnoreNextAdvances(text);
    IgnoreMatchesShape(text);
    assert var ms := AllMatches(text, IgnoreNext(text), 0); forall k :: 0 <= k < |ms| ==> IsIgnoreMatch(ms[k]) && HasSeparator(ms[k]);
    AllMatches(text, IgnoreNext(text), 0)
  }

  /** What every match of `/\{ignore=.*\}/` looks like. */
  predicate IsIgnoreMatch(m: string) {
    At(m, 0, "{ignore=") && m[|m| - 1] == '}'
  }

  /** The `=` that ends `{ignore=`: what `match.split("=")[1]` relies on. */
  predicate HasSeparator(m: string) {
    7 < |m| && m[7] == '='
  }

  /** Every match starts with `{ignore=` and ends with `}`. */
  lemma IgnoreMatchesShape(text: string)
    requires Advances(text, IgnoreNext(text))
    ensures var ms := AllMatches(text, IgnoreNext(text), 0);
      forall k :: 0 <= k < |ms| ==> IsIgnoreMatch(ms[k]) && HasSeparator(ms[k])
  {
    var next := IgnoreNext(text);
    forall j: nat | next(j).Some? ensures IsIgnoreMatch(text[next(j).value.0..next(j).value.1]) {
      var r := GreedyFrom(text, "{ignore=", "}", j).value;
      MatchShape(text, r.0, r.1);
    }
    AllMatchesEach(text, next, 0, IsIgnoreMatch);
    var ms := AllMatches(text, next, 0);
    forall k | 0 <= k < |ms| ensures HasSeparator(ms[k]) {
      assert ms[k] in ms;
      assert IsIgnoreMatch(ms[k]);
      assert ms[k][..8][7] == ms[k][7];
    }
  }

  lemma MatchShape(text: string, i: nat, k: nat)
    requires At(text, i, "{ignore=") && i + 8 <= k && At(text, k, "}")
    ensures IsIgnoreMatch(text[i..k + 1])
  {
    assert text[k..k + 1][0] == text[k];
    assert text[i..k + 1][..8] == text[i..i + 8];
  }

  /** `match.split("=")[1].replace("}", "")`: the text between the first two `=`, less its first `}`. */
  function IgnoreValue(m: string): (v: string)
    requires HasSeparator(m)
    ensures '=' !in v
  {
    var parts := Split(m, '=');
    var v := RemoveFirst(parts[1], '}');
    assert multiset(v) <= multiset(parts[1]);
    v
  }

  /** `findIgnoredFiles(text)`: the values of all ignore matches, empty ones dropped. */
  function FindIgnoredFiles(text: string): (ignored: seq<string>)
    ensures forall k :: 0 <= k < |ignored| ==> ignored[k] != "" && '=' !in ignored[k]
    ensures |ignored| <= |IgnoreMatches(text)|
    ensures var ms := IgnoreMatches(text);
      forall v :: v in ignored <==> v != "" && exists k :: 0 <= k < |ms| && HasSeparator(ms[k]) && IgnoreValue(ms[k]) == v
  {
    var ms := IgnoreMatches(text);
    var vs := ValuesOf(ms);
    var ignored := KeepNonEmpty(vs);
    forall k | 0 <= k < |ignored| ensures ignored[k] != "" && '=' !in ignored[k] {
      assert ignored[k] in ignored;
      var j :| 0 <= j < |vs| && vs[j] == ignored[k];
    }
    forall v ensures v in ignored <==> v != "" && exists k :: 0 <= k < |ms| && HasSeparator(ms[k]) && IgnoreValue(ms[k]) == v {
      if v in ignored {
        var k :| 0 <= k < |vs| && vs[k] == v;
        assert HasSeparator(ms[k]) && IgnoreValue(ms[k]) == v;
      }
      if v != "" && exists k :: 0 <= k < |ms| && HasSeparator(ms[k]) && IgnoreValue(ms[k]) == v {
        var k :| 0 <= k < |ms| && HasSeparator(ms[k]) && IgnoreValue(ms[k]) == v;
        assert vs[k] == v;
      }
    }
    ignored
  }

  function ValuesOf(ms: seq<string>): (vs: seq<string>)
    requires forall k :: 0 <= k < |ms| ==> HasSeparator(ms[k])
    ensures |vs| == |ms|
    ensures forall k :: 0 <= k < |vs| ==> vs[k] == IgnoreValue(ms[k])
  {
    if ms == [] then [] else [IgnoreValue(ms[0])] + ValuesOf(ms[1..])
  }

  /** `.filter(Boolean)` on strings: keeps the non-empty ones, in order. */
  function KeepNonEmpty(vs: seq<string>): (r: seq<string>)
    ensures |r| <= |vs|
    ensures forall v :: v in r <==> v in vs && v != ""
    ensures forall v :: multiset(r)[v] == if v == "" then 0 else multiset(vs)[v]
  {
    FilterCount(vs, NonEmpty());
    Filter(vs, NonEmpty())
  }

  /** `Boolean` on a string: the string is not empty. */
  function NonEmpty(): string -> bool {
    v => v != ""
  }

  /** The filter keeps the order: filtering a concatenation concatenates the filtered halves. */
  lemma KeepNonEmptyAppend(a: seq<string>, b: seq<string>)
    ensures KeepNonEmpty(a + b) == KeepNonEmpty(a) + KeepNonEmpty(b)
  {
    FilterAppend(a, b, NonEmpty());
  }

  /** A match reads as the text after `{ignore=` up to the next `=`, with its first `}` removed. */
  lemma {:induction false} IgnoreValueOf(m: string, v: string, rest: string)
    requires m == "{ignore=" + v + rest && IsIgnoreMatch(m)
    requires '=' !in v && (rest == [] || rest[0] == '=')
    ensures IgnoreValue(m) == RemoveFirst(v, '}')
  {
    assert m[7] == '=';
    assert '=' !in m[..7];
    FirstIndexUnique(m, '=', 7);
    var tail := m[8..];
    assert tail == v + rest;
    if rest == [] {
      assert tail == v;
      assert Split(tail, '=') == [v];
    } else {
      assert tail[|v|] == '=' && tail[..|v|] == v;
      FirstIndexUnique(tail, '=', |v|);
    }
    assert Split(tail, '=')[0] == v;
  }

  /** A text that is one `{ignore=...}` on one line is that single match. */
  lemma OneMatch(text: string)
    requires At(text, 0, "{ignore=") && text[|text| - 1] == '}'
    requires forall j :: 8 <= j < |text| ==> !IsLineBreak(text[j])
    ensures IgnoreMatches(text) == [text]
  {
    WholeTextMatches(text);
    IgnoreNextAdvances(text);
    WholeMatch(text, IgnoreNext(text));
  }

  /** The one match of such a text is the whole text, and nothing matches after it. */
  lemma WholeTextMatches(text: string)
    requires At(text, 0, "{ignore=") && text[|text| - 1] == '}'
    requires forall j :: 8 <= j < |text| ==> !IsLineBreak(text[j])
    ensures IgnoreNext(text)(0) == Some((0, |text|)) && IgnoreNext(text)(|text|).None?
  {
    var n := |text|;
    assert At(text, n - 1, "}");
    GreedyEndOnLine(text, "}", 8);
    GreedyStartIs(text, "{ignore=", "}", 0, 0);
    GreedyFromStart(text, "{ignore=", "}", 0, 0);
    GreedyFromIs(text, "{ignore=", "}", 0, 0, n - 1);
  }

  /** Dropping the closing brace of a value that has no other brace leaves the value. */
  lemma RemoveClosingBrace(x: string)
    requires '}' !in x
    ensures RemoveFirst(x + "}", '}') == x
  {
    assert (x + "}")[..|x|] == x;
    FirstIndexUnique(x + "}", '}', |x|);
  }

  /** A lesson whose whole text is one `{ignore=X}` ignores exactly X (nothing when X is empty). */
  lemma {:induction false} SingleDirective(x: string)
    requires forall j :: 0 <= j < |x| ==> x[j] != '=' && x[j] != '}' && !IsLineBreak(x[j])
    ensures FindIgnoredFiles("{ignore=" + x + "}") == if x == [] then [] else [x]
  {
    var text := "{ignore=" + x + "}";
    DirectiveText(x);
    OneMatch(text);
    assert text == "{ignore=" + (x + "}") + [];
    IgnoreValueOf(text, x + "}", []);
    RemoveClosingBrace(x);
    FindIgnoredFilesOfOne(text);
  }

  /** The text `{ignore=X}` is one match on one line. */
  lemma DirectiveText(x: string)
    requires forall j :: 0 <= j < |x| ==> x[j] != '=' && x[j] != '}' && !IsLineBreak(x[j])
    ensures var text := "{ignore=" + x + "}";
      IsIgnoreMatch(text) && HasSeparator(text) && forall j :: 8 <= j < |text| ==> !IsLineBreak(text[j])
  {
    var text := "{ignore=" + x + "}";
    forall j | 8 <= j < |text| ensures !IsLineBreak(text[j]) {
      if j < |text| - 1 {
        assert text[j] == x[j - 8];
      }
    }
    assert text[..8] == "{ignore=";
  }

  /** A text that is its own single match ignores its value, if that is not empty. */
  lemma FindIgnoredFilesOfOne(text: string)
    requires IgnoreMatches(text) == [text] && HasSeparator(text)
    ensures FindIgnoredFiles(text) == if IgnoreValue(text) == [] then [] else [IgnoreValue(text)]
  {
    assert ValuesOf([text]) == [IgnoreValue(text)];
    assert [IgnoreValue(text)][1..] == [];
  }
}
