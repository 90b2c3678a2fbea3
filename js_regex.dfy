/**
 * The few regular-expression shapes the extension uses, with JavaScript's matching
 * rules: the leftmost match wins, `.*` and `[...]*` are greedy, and `.` matches any
 * character except a line break.
 */
module JsRegex {
  import opened Wrappers
  import opened JsStrings

  /** The end of the run of characters `.` can match from `i`: the next line break or the end. */
  function LineEnd(s: string, i: nat): (r: nat)
    requires i <= |s|
    decreases |s| - i
    ensures i <= r <= |s|
    ensures r < |s| ==> IsLineBreak(s[r])
  {
    if i == |s| || IsLineBreak(s[i]) then i else LineEnd(s, i + 1)
  }

  /** No line break comes before the end of the line. */
  lemma {:induction false} LineEndFirst(s: string, i: nat)
    requires i <= |s|
    decreases |s| - i
    ensures forall j :: i <= j < LineEnd(s, i) ==> !IsLineBreak(s[j])
  {
    if i < |s| && !IsLineBreak(s[i]) {
      LineEndFirst(s, i + 1);
    }
  }

  /** The last offset `k` with `lo <= k` and `k + |p| <= hi` where `p` occurs. */
  function LastIndexIn(s: string, p: string, lo: nat, hi: nat): (r: Option<nat>)
    requires |p| > 0 && hi <= |s|
    decreases hi
    ensures r.Some? ==> lo <= r.value && r.value + |p| <= hi && At(s, r.value, p)
  {
    if hi < lo + |p| then None
    else if At(s, hi - |p|, p) then Some(hi - |p|)
    else LastIndexIn(s, p, lo, hi - 1)
  }

  /** `LastIndexIn` finds the last occurrence in the window, and finds one whenever there is one. */
  lemma {:induction false} LastIndexInLast(s: string, p: string, lo: nat, hi: nat)
    requires |p| > 0 && hi <= |s|
    decreases hi
    ensures var r := LastIndexIn(s, p, lo, hi);
      && (r.Some? ==> forall k :: r.value < k && k + |p| <= hi ==> !At(s, k, p))
      && (r.None? ==> forall k :: lo <= k && k + |p| <= hi ==> !At(s, k, p))
  {
    if hi >= lo + |p| && !At(s, hi - |p|, p) {
      LastIndexInLast(s, p, lo, hi - 1);
    }
  }

  /** Where `.*suffix` ends its `.*` when it starts at `i`: before the last `suffix` on the line. */
  function GreedyEnd(s: string, suffix: string, i: nat): (k: Option<nat>)
    requires |suffix| > 0 && i <= |s|
    ensures k.Some? ==> i <= k.value && k.value + |suffix| <= |s| && At(s, k.value, suffix)
  {
    LastIndexIn(s, suffix, i, LineEnd(s, i))
  }

  /** `/prefix(.*)suffix/` matches at offset `i`. */
  predicate GreedyMatchesAt(s: string, prefix: string, suffix: string, i: nat)
    requires |suffix| > 0
  {
    At(s, i, prefix) && GreedyEnd(s, suffix, i + |prefix|).Some?
  }

  /** The leftmost offset in `[from, bound)` where a match starts: how every search here scans. */
  function FirstWhere(matchesAt: nat -> bool, from: nat, bound: nat): (i: Option<nat>)
    decreases bound - from
    ensures i.Some? ==> from <= i.value < bound && matchesAt(i.value)
  {
    if from >= bound then None
    else if matchesAt(from) then Some(from)
    else FirstWhere(matchesAt, from + 1, bound)
  }

  /** `FirstWhere` finds the leftmost match in its window, and finds one whenever there is one. */
  lemma {:induction false} FirstWhereLeftmost(matchesAt: nat -> bool, from: nat, bound: nat)
    decreases bound - from
    ensures var i := FirstWhere(matchesAt, from, bound);
      && (i.Some? ==> forall j :: from <= j < i.value ==> !matchesAt(j))
      && (i.None? ==> forall j :: from <= j < bound ==> !matchesAt(j))
  {
    if from < bound && !matchesAt(from) {
      FirstWhereLeftmost(matchesAt, from + 1, bound);
    }
  }

  /** Where `/prefix(.*)suffix/` matches, as the test `FirstWhere` scans with. */
  function GreedyMatcher(s: string, prefix: string, suffix: string): (m: nat -> bool)
    requires |suffix| > 0
  {
    (j: nat) => GreedyMatchesAt(s, prefix, suffix, j)
  }

  /** The leftmost offset at or after `from` where `/prefix(.*)suffix/` matches. */
  function GreedyStart(s: string, prefix: string, suffix: string, from: nat): (i: Option<nat>)
    requires |suffix| > 0
    ensures i.Some? ==> from <= i.value && GreedyMatchesAt(s, prefix, suffix, i.value)
  {
    FirstWhere(GreedyMatcher(s, prefix, suffix), from, |s| + 1)
  }

  /** `GreedyStart` finds the leftmost match, and finds one whenever there is one. */
  lemma GreedyStartLeftmost(s: string, prefix: string, suffix: string, from: nat)
    requires |suffix| > 0
    ensures var i := GreedyStart(s, prefix, suffix, from);
      && (i.Some? ==> forall j :: from <= j < i.value ==> !GreedyMatchesAt(s, prefix, suffix, j))
      && (i.None? ==> forall j :: from <= j ==> !GreedyMatchesAt(s, prefix, suffix, j))
  {
    var m := GreedyMatcher(s, prefix, suffix);
    var i := FirstWhere(m, from, |s| + 1);
    FirstWhereLeftmost(m, from, |s| + 1);
    var end := if i.Some? then i.value else |s| + 1;
    forall j | from <= j < end ensures !GreedyMatchesAt(s, prefix, suffix, j) {
      assert !m(j);
    }
  }

  /**
   * The leftmost match of `/prefix(.*)suffix/` at or after `from`, as the offset of
   * the match and the offset of the `suffix` that closes it.
   */
  function GreedyFrom(s: string, prefix: string, suffix: string, from: nat): (r: Option<(nat, nat)>)
    requires |suffix| > 0
    ensures r.Some? ==> from <= r.value.0 && GreedyMatchesAt(s, prefix, suffix, r.value.0)
    ensures r.Some? ==> Some(r.value.1) == GreedyEnd(s, suffix, r.value.0 + |prefix|)
    ensures r.Some? ==> r.value.0 + |prefix| <= r.value.1 && r.value.1 + |suffix| <= |s|
  {
    match GreedyStart(s, prefix, suffix, from)
    case None => None
    case Some(i) => Some((i, GreedyEnd(s, suffix, i + |prefix|).value))
  }

  /** `s.match(/prefix(.*)suffix/)?.[1]`. */
  function GreedyCapture(s: string, prefix: string, suffix: string): (r: Option<string>)
    requires |suffix| > 0
  {
    match GreedyFrom(s, prefix, suffix, 0)
    case None => None
    case Some((i, k)) => Some(s[i + |prefix|..k])
  }

  /**
   * A capture of `/prefix(.*)suffix/` holds no line break, and sits in the text between
   * the `prefix` and the `suffix`.
   */
  lemma GreedyCaptureInLine(s: string, prefix: string, suffix: string)
    requires |suffix| > 0
    ensures var r := GreedyCapture(s, prefix, suffix);
      r.Some? ==> (forall j :: 0 <= j < |r.value| ==> !IsLineBreak(r.value[j]))
                  && exists i :: At(s, i, prefix + r.value + suffix)
  {
    var m := GreedyFrom(s, prefix, suffix, 0);
    if m.Some? {
      var i, k := m.value.0, m.value.1;
      GreedyEndOnItsLine(s, suffix, i + |prefix|);
      GreedyCaptureAt(s, prefix, suffix, i, k);
      LineEndFirst(s, i + |prefix|);
      CaptureBetween(s, prefix, suffix, i, k, LineEnd(s, i + |prefix|));
      var r := s[i + |prefix|..k];
      assert GreedyCapture(s, prefix, suffix) == Some(r);
      assert At(s, i, prefix + r + suffix);
    }
  }

  /** The `suffix` that ends `.*suffix` lies before the end of the line. */
  lemma GreedyEndOnItsLine(s: string, suffix: string, lo: nat)
    requires |suffix| > 0 && lo <= |s|
    ensures GreedyEnd(s, suffix, lo).Some? ==> GreedyEnd(s, suffix, lo).value + |suffix| <= LineEnd(s, lo)
  {
  }

  /** The text between a `prefix` and a `suffix` on one line holds no line break and joins them. */
  lemma CaptureBetween(s: string, prefix: string, suffix: string, i: nat, k: nat, e: nat)
    requires At(s, i, prefix) && i + |prefix| <= k && At(s, k, suffix) && k + |suffix| <= e <= |s|
    requires forall j :: i + |prefix| <= j < e ==> !IsLineBreak(s[j])
    ensures var r := s[i + |prefix|..k];
      (forall j :: 0 <= j < |r| ==> !IsLineBreak(r[j])) && At(s, i, prefix + r + suffix)
  {
    var r := s[i + |prefix|..k];
    assert forall j :: 0 <= j < |r| ==> r[j] == s[i + |prefix| + j];
    AtConcat(s, i, prefix, r, suffix);
  }

  /** Three pieces found one after another form their concatenation. */
  lemma AtConcat(s: string, i: nat, a: string, b: string, c: string)
    requires At(s, i, a) && i + |a| + |b| <= |s| && s[i + |a|..i + |a| + |b|] == b && At(s, i + |a| + |b|, c)
    ensures At(s, i, a + b + c)
  {
    assert s[i..i + |a| + |b| + |c|] == s[i..i + |a|] + s[i + |a|..i + |a| + |b|] + s[i + |a| + |b|..i + |a| + |b| + |c|];
  }

  /** The last occurrence in the window is the one `LastIndexIn` finds. */
  lemma LastIndexInIs(s: string, p: string, lo: nat, hi: nat, k: nat)
    requires |p| > 0 && hi <= |s|
    requires lo <= k && k + |p| <= hi && At(s, k, p)
    requires forall j :: k < j && j + |p| <= hi ==> !At(s, j, p)
    ensures LastIndexIn(s, p, lo, hi) == Some(k)
  {
    LastIndexInLast(s, p, lo, hi);
  }

  /** A match with no match before it is the leftmost one. */
  lemma GreedyStartIs(s: string, prefix: string, suffix: string, from: nat, i: nat)
    requires |suffix| > 0 && from <= i && GreedyMatchesAt(s, prefix, suffix, i)
    requires forall j :: from <= j < i ==> !At(s, j, prefix)
    ensures GreedyStart(s, prefix, suffix, from) == Some(i)
  {
    GreedyStartLeftmost(s, prefix, suffix, from);
  }

  /**
   * When the first `prefix` is followed on its line by `suffix`, `/prefix(.*)suffix/`
   * captures from that `prefix` up to the last `suffix` before the line ends.
   */
  lemma GreedyCaptureFirst(s: string, prefix: string, suffix: string, i: nat, k: nat)
    requires |suffix| > 0
    requires At(s, i, prefix) && forall j :: 0 <= j < i ==> !At(s, j, prefix)
    requires i + |prefix| <= k && k + |suffix| <= LineEnd(s, i + |prefix|) && At(s, k, suffix)
    requires forall j :: k < j && j + |suffix| <= LineEnd(s, i + |prefix|) ==> !At(s, j, suffix)
    ensures GreedyCapture(s, prefix, suffix) == Some(s[i + |prefix|..k])
  {
    LastIndexInIs(s, suffix, i + |prefix|, LineEnd(s, i + |prefix|), k);
    GreedyFromFirst(s, prefix, suffix, i, k);
  }

  /** A `prefix` followed on its line by a `suffix`. */
  predicate FramedOnLine(s: string, prefix: string, suffix: string, i: nat, k: nat) {
    At(s, i, prefix) && i + |prefix| <= k && k + |suffix| <= LineEnd(s, i + |prefix|) && At(s, k, suffix)
  }

  /** `/prefix(.*)suffix/` matches exactly when some `prefix` is followed on its line by a `suffix`. */
  lemma GreedyCaptureExists(s: string, prefix: string, suffix: string)
    requires |suffix| > 0
    ensures GreedyCapture(s, prefix, suffix).Some? <==> exists i: nat, k: nat :: FramedOnLine(s, prefix, suffix, i, k)
  {
    if GreedyCapture(s, prefix, suffix).Some? {
      GreedyCaptureFramed(s, prefix, suffix);
    }
    if exists i: nat, k: nat :: FramedOnLine(s, prefix, suffix, i, k) {
      var i: nat, k: nat :| FramedOnLine(s, prefix, suffix, i, k);
      FramedCaptures(s, prefix, suffix, i, k);
    }
  }

  /** The match the capture comes from is a `prefix` followed on its line by a `suffix`. */
  lemma GreedyCaptureFramed(s: string, prefix: string, suffix: string)
    requires |suffix| > 0 && GreedyCapture(s, prefix, suffix).Some?
    ensures exists i: nat, k: nat :: FramedOnLine(s, prefix, suffix, i, k)
  {
    var m := GreedyFrom(s, prefix, suffix, 0);
    var i, k := m.value.0, m.value.1;
    GreedyEndOnItsLine(s, suffix, i + |prefix|);
    assert FramedOnLine(s, prefix, suffix, i, k);
  }

  /** A `prefix` followed on its line by a `suffix` makes `/prefix(.*)suffix/` match. */
  lemma FramedCaptures(s: string, prefix: string, suffix: string, i: nat, k: nat)
    requires |suffix| > 0 && FramedOnLine(s, prefix, suffix, i, k)
    ensures GreedyCapture(s, prefix, suffix).Some?
  {
    LastIndexInLast(s, suffix, i + |prefix|, LineEnd(s, i + |prefix|));
    assert GreedyMatchesAt(s, prefix, suffix, i);
    GreedyStartLeftmost(s, prefix, suffix, 0);
    GreedyFromStart(s, prefix, suffix, 0, GreedyStart(s, prefix, suffix, 0).value);
  }

  /**
   * When the text after the first `prefix` is the rest of a single line that ends with
   * `suffix`, `/prefix(.*)suffix/` captures from that `prefix` up to the final `suffix`.
   */
  lemma GreedyCaptureOnLine(s: string, prefix: string, suffix: string, i: nat)
    requires |suffix| > 0
    requires forall j :: i + |prefix| <= j < |s| ==> !IsLineBreak(s[j])
    requires At(s, i, prefix) && forall j :: 0 <= j < i ==> !At(s, j, prefix)
    requires i + |prefix| + |suffix| <= |s| && At(s, |s| - |suffix|, suffix)
    ensures GreedyCapture(s, prefix, suffix) == Some(s[i + |prefix|..|s| - |suffix|])
  {
    GreedyEndOnLine(s, suffix, i + |prefix|);
    GreedyFromFirst(s, prefix, suffix, i, |s| - |suffix|);
  }

  /** When the rest of the line ends with `suffix`, `.*suffix` runs to that final `suffix`. */
  lemma GreedyEndOnLine(s: string, suffix: string, lo: nat)
    requires |suffix| > 0 && lo + |suffix| <= |s|
    requires forall j :: lo <= j < |s| ==> !IsLineBreak(s[j])
    requires At(s, |s| - |suffix|, suffix)
    ensures GreedyEnd(s, suffix, lo) == Some(|s| - |suffix|)
  {
    LineEndOfLine(s, lo);
    LastIndexInIs(s, suffix, lo, |s|, |s| - |suffix|);
  }

  /** When `.*suffix` can follow the first `prefix`, the match starts at that `prefix`. */
  lemma GreedyFromFirst(s: string, prefix: string, suffix: string, i: nat, k: nat)
    requires |suffix| > 0
    requires At(s, i, prefix) && forall j :: 0 <= j < i ==> !At(s, j, prefix)
    requires GreedyEnd(s, suffix, i + |prefix|) == Some(k)
    ensures GreedyCapture(s, prefix, suffix) == Some(s[i + |prefix|..k])
  {
    GreedyStartIs(s, prefix, suffix, 0, i);
    GreedyFromStart(s, prefix, suffix, 0, i);
    GreedyFromIs(s, prefix, suffix, 0, i, k);
    GreedyCaptureAt(s, prefix, suffix, i, k);
  }

  /** The leftmost match is where `GreedyFrom` starts. */
  lemma GreedyFromStart(s: string, prefix: string, suffix: string, from: nat, i: nat)
    requires |suffix| > 0 && GreedyStart(s, prefix, suffix, from) == Some(i)
    ensures GreedyFrom(s, prefix, suffix, from).Some? && GreedyFrom(s, prefix, suffix, from).value.0 == i
  {
  }

  /** A match starting at `i` ends where `.*suffix` from `i` ends. */
  lemma GreedyFromIs(s: string, prefix: string, suffix: string, from: nat, i: nat, k: nat)
    requires |suffix| > 0
    requires GreedyFrom(s, prefix, suffix, from).Some? && GreedyFrom(s, prefix, suffix, from).value.0 == i
    requires GreedyEnd(s, suffix, i + |prefix|) == Some(k)
    ensures GreedyFrom(s, prefix, suffix, from) == Some((i, k))
  {
  }

  /** The capture of the leftmost match runs from its `prefix` to the `suffix` closing it. */
  lemma GreedyCaptureAt(s: string, prefix: string, suffix: string, i: nat, k: nat)
    requires |suffix| > 0 && GreedyFrom(s, prefix, suffix, 0) == Some((i, k))
    ensures GreedyCapture(s, prefix, suffix) == Some(s[i + |prefix|..k])
  {
  }

  /** On text without line breaks, `.` runs to the end. */
  lemma LineEndOfLine(s: string, i: nat)
    requires i <= |s|
    requires forall j :: i <= j < |s| ==> !IsLineBreak(s[j])
    ensures LineEnd(s, i) == |s|
  {
  }

  /** The character classes the code repeats with `*`: `[0-9]` and `[0-9\-]`. */
  datatype CharClass = Digits | DigitsOrDash

  predicate InClass(c: char, cls: CharClass) {
    match cls
    case Digits => IsDigit(c)
    case DigitsOrDash => IsDigit(c) || c == '-'
  }

  /** The end of the longest run of `cls` characters from `i`. */
  function RunEnd(s: string, i: nat, cls: CharClass): (r: nat)
    requires i <= |s|
    decreases |s| - i
    ensures i <= r <= |s|
    ensures forall j :: i <= j < r ==> InClass(s[j], cls)
    ensures r < |s| ==> !InClass(s[r], cls)
  {
    if i < |s| && InClass(s[i], cls) then RunEnd(s, i + 1, cls) else i
  }

  /** `s.match(/prefix([cls]*)/)?.[1]`: matches wherever `prefix` first occurs, possibly capturing nothing. */
  function RunCapture(s: string, prefix: string, cls: CharClass): (r: Option<string>)
    ensures r.Some? <==> Includes(s, prefix)
    ensures r.Some? ==> forall j :: 0 <= j < |r.value| ==> InClass(r.value[j], cls)
    ensures r.Some? ==> var c := IndexOf(s, prefix, 0).value + |prefix|;
      c + |r.value| <= |s| && s[c..c + |r.value|] == r.value
      && (c + |r.value| < |s| ==> !InClass(s[c + |r.value|], cls))
  {
    match IndexOf(s, prefix, 0)
    case None => None
    case Some(i) => Some(s[i + |prefix|..RunEnd(s, i + |prefix|, cls)])
  }

  /* ---------- global matching: `s.match(/.../g)` ---------- */

  /**
   * A search for the first match at or after an offset, as the start and the end
   * (exclusive) of the match; every match it finds is non-empty and lies at or
   * after the offset, so a `/g` scan resumes strictly later.
   */
  ghost predicate Advances(s: string, next: nat -> Option<(nat, nat)>) {
    forall j: nat :: next(j).Some? ==> j <= next(j).value.0 < next(j).value.1 <= |s|
  }

  /** `s.match(/.../g)` from `from` on: the matched texts, each search resuming where the last match ended. */
  function AllMatches(s: string, next: nat -> Option<(nat, nat)>, from: nat): (ms: seq<string>)
    requires Advances(s, next)
    decreases |s| - from
  {
    match next(from)
    case None => []
    case Some((i, e)) => [s[i..e]] + AllMatches(s, next, e)
  }

  /** Every match has a property the search guarantees of each match it finds. */
  lemma {:induction false} AllMatchesEach(s: string, next: nat -> Option<(nat, nat)>, from: nat, ok: string -> bool)
    requires Advances(s, next)
    requires forall j: nat :: next(j).Some? ==> ok(s[next(j).value.0..next(j).value.1])
    decreases |s| - from
    ensures forall m <- AllMatches(s, next, from) :: ok(m)
  {
    match next(from)
    case None =>
    case Some((i, e)) =>
      AllMatchesEach(s, next, e, ok);
      assert AllMatches(s, next, from) == [s[i..e]] + AllMatches(s, next, e);
  }

  /** A text whose first match is all of it, with nothing after, matches once. */
  lemma WholeMatch(s: string, next: nat -> Option<(nat, nat)>)
    requires Advances(s, next)
    requires next(0) == Some((0, |s|)) && next(|s|).None?
    ensures AllMatches(s, next, 0) == [s]
  {
    assert s[0..|s|] == s;
  }
}
