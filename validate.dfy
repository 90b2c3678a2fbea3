/**
 * The reconciliation step of `validateTextDocument` (server/src/server.ts): picking the
 * lesson to compare against, filtering the code diff against the lesson's coverage, and
 * the diagnostics sent back, in order.
 *
 * The shell commands are inputs: `codeLessonFolders` is the output of `ls` on the
 * module's code folder, and `diff` the parsed output of diff-jsonify as (file, changes)
 * entries in `Object.entries` order, `None` when running or parsing it throws.
 */
module Validate {
  import opened Wrappers
  import opened JsStrings
  import opened JsRegex
  import opened JsArrays
  import IgnoredFiles
  import FindCq

  datatype ChangeType = Add | Remove

  /** One changed line reported by diff-jsonify. */
  datatype Change = Change(ln: int, changeType: ChangeType, content: string)

  datatype Severity = Error | Warning | Information

  /** What a diagnostic is about; message texts, dates and ranges are left abstract. */
  datatype Subject =
    | MissedChange(file: string, lesson: string, changes: seq<Change>)
    | IgnoredNotice(fragment: string)
    | FileChecked

  datatype Diagnostic = Diagnostic(severity: Severity, subject: Subject)

  /* ---------- which lessons to compare ---------- */

  /** `/lesson_([0-9]*\.[0-9]*)/` matches at `i`: `lesson_`, digits, then a dot. */
  predicate LessonIdAt(uri: string, i: nat) {
    At(uri, i, "lesson_") && RunEnd(uri, i + 7, Digits) < |uri| && uri[RunEnd(uri, i + 7, Digits)] == '.'
  }

  /** The capture of the leftmost lesson-id match at or after `from`. */
  function LessonIdFrom(uri: string, from: nat): (id: Option<string>)
    decreases |uri| - from
    ensures id.Some? ==> exists d :: 0 <= d < |id.value| && id.value[d] == '.'
                                     && AllDigits(id.value[..d]) && AllDigits(id.value[d + 1..])
    ensures id.None? ==> forall j :: from <= j ==> !LessonIdAt(uri, j)
    ensures id.Some? ==> exists i :: from <= i && LessonIdAt(uri, i)
                                     && (forall j :: from <= j < i ==> !LessonIdAt(uri, j))
                                     && id.value == uri[i + 7..RunEnd(uri, RunEnd(uri, i + 7, Digits) + 1, Digits)]
  {
    if from + 7 > |uri| then None
    else if LessonIdAt(uri, from) then
      var dot := RunEnd(uri, from + 7, Digits);
      var id := uri[from + 7..RunEnd(uri, dot + 1, Digits)];
      assert id[dot - from - 7] == '.';
      assert id[..dot - from - 7] == uri[from + 7..dot];
      assert id[dot - from - 6..] == uri[dot + 1..RunEnd(uri, dot + 1, Digits)];
      Some(id)
    else LessonIdFrom(uri, from + 1)
  }

  /** `String(uri.match(/lesson_([0-9]*\.[0-9]*)/)?.[1])`: "undefined" when there is no lesson id. */
  function LessonId(uri: string): (id: string)
    ensures id == "undefined" <==> forall j: nat :: !LessonIdAt(uri, j)
    ensures id != "undefined" ==> '.' in id
  {
    match LessonIdFrom(uri, 0)
    case None => "undefined"
    case Some(id) =>
      var d :| 0 <= d < |id| && id[d] == '.';
      assert id[d] in id;
      assert '.' !in "undefined";
      id
  }

  /** The index of the first folder at or after `from` whose name includes `lessonId`. */
  function FirstIncluding(folders: seq<string>, lessonId: string, from: nat): (r: Option<nat>)
    decreases |folders| - from
    ensures r.Some? ==> from <= r.value < |folders| && Includes(folders[r.value], lessonId)
    ensures r.Some? ==> forall j :: from <= j < r.value ==> !Includes(folders[j], lessonId)
    ensures r.None? ==> forall j :: from <= j < |folders| ==> !Includes(folders[j], lessonId)
  {
    if from >= |folders| then None
    else if Includes(folders[from], lessonId) then Some(from)
    else FirstIncluding(folders, lessonId, from + 1)
  }

  /** The `find` over the lesson folders that records the index of the folder it stops at. */
  method FindLesson(folders: seq<string>, lessonId: string) returns (selectedLessonIndex: Option<nat>)
    ensures selectedLessonIndex == FirstIncluding(folders, lessonId, 0)
  {
    var index := 0;
    while index < |folders|
      invariant index <= |folders|
      invariant forall j :: 0 <= j < index ==> !Includes(folders[j], lessonId)
    {
      if Includes(folders[index], lessonId) {
        return Some(index);
      }
      index := index + 1;
    }
    return None;
  }

  /** `pair` is the first folder including `lessonId`, found at `i`, and the folder before it. */
  predicate PairAt(folders: seq<string>, lessonId: string, i: int, pair: (string, string)) {
    1 <= i < |folders| && folders[i] == pair.0 && folders[i - 1] == pair.1
    && Includes(folders[i], lessonId) && FirstIncluding(folders, lessonId, 0) == Some(i)
  }

  /**
   * The selected lesson folder and the comparison folder listed just before it, or `None`
   * where `validateTextDocument` gives up: no folder includes the id, or the one found is
   * the first folder, or either name is empty.
   */
  function LessonPair(folders: seq<string>, lessonId: string): (pair: Option<(string, string)>)
    ensures pair.Some? ==> exists i :: PairAt(folders, lessonId, i, pair.value)
    ensures pair.Some? ==> pair.value.0 != "" && pair.value.1 != ""
    ensures FirstIncluding(folders, lessonId, 0) == Some(0) ==> pair.None?
    ensures var f := FirstIncluding(folders, lessonId, 0);
      (f.Some? && f.value > 0 && folders[f.value] != "" && folders[f.value - 1] != "")
      ==> pair == Some((folders[f.value], folders[f.value - 1]))
  {
    match FirstIncluding(folders, lessonId, 0)
    case None => None
    case Some(i) =>
      if folders[i] == "" then None
      else if i == 0 then None
      else if folders[i - 1] == "" then None
      else
        assert PairAt(folders, lessonId, i, (folders[i], folders[i - 1]));
        Some((folders[i], folders[i - 1]))
  }

  /** The pair, by where the first folder including the id was found. */
  lemma LessonPairFound(folders: seq<string>, lessonId: string, found: Option<nat>)
    requires found == FirstIncluding(folders, lessonId, 0)
    ensures LessonPair(folders, lessonId)
         == if found.None? || folders[found.value] == "" || found.value == 0 || folders[found.value - 1] == "" then None
            else Some((folders[found.value], folders[found.value - 1]))
  {
  }

  /* ---------- filtering the diff ---------- */

  /** Some ignored fragment occurs in the file path. */
  predicate IsIgnored(file: string, ignored: seq<string>) {
    exists k :: 0 <= k < |ignored| && Includes(file, ignored[k])
  }

  /** The `.map` callback: the change, or `None` for `undefined` when it is filtered out. */
  function Classify(file: string, change: Change, coverage: map<string, seq<int>>,
                    ignored: seq<string>): (kept: Option<Change>)
    ensures kept.Some? ==> kept.value == change
    ensures kept.Some? <==> !IsIgnored(file, ignored)
                            && (file in coverage ==> change.ln !in coverage[file] && change.content != "+" && change.content != "-")
  {
    if IsIgnored(file, ignored) then None
    else if file !in coverage then Some(change)
    else if change.ln in coverage[file] then None
    else if change.content == "+" || change.content == "-" then None
    else Some(change)
  }

  /** The change is still there after `.filter(Boolean)`: the callback returned it. */
  predicate Survives(file: string, change: Change, coverage: map<string, seq<int>>, ignored: seq<string>)
  {
    Classify(file, change, coverage, ignored).Some?
  }

  /** The changes `.map(...).filter(Boolean)` keeps in a file, as a test on one change. */
  function SurvivorTest(file: string, coverage: map<string, seq<int>>, ignored: seq<string>): Change -> bool {
    c => Survives(file, c, coverage, ignored)
  }

  /** `.map(...).filter(Boolean)`: the changes that survive the filter, in diff order. */
  function UnmentionedChanges(file: string, changes: seq<Change>, coverage: map<string, seq<int>>,
                              ignored: seq<string>): (unmentioned: seq<Change>)
    ensures |unmentioned| <= |changes|
    ensures forall c :: c in unmentioned ==> c in changes && Survives(file, c, coverage, ignored)
    ensures forall c :: c in changes && Survives(file, c, coverage, ignored) ==> c in unmentioned
  {
    Filter(changes, SurvivorTest(file, coverage, ignored))
  }

  /** Each surviving change is kept as often as the diff lists it, every other change never. */
  lemma UnmentionedChangesCount(file: string, changes: seq<Change>, coverage: map<string, seq<int>>,
                                ignored: seq<string>)
    ensures forall c :: multiset(UnmentionedChanges(file, changes, coverage, ignored))[c]
                        == if Survives(file, c, coverage, ignored) then multiset(changes)[c] else 0
  {
    var keep := SurvivorTest(file, coverage, ignored);
    FilterCount(changes, keep);
    forall c ensures keep(c) == Survives(file, c, coverage, ignored) {
    }
  }

  /** One change is kept exactly when it survives. */
  lemma UnmentionedChangesOne(file: string, c: Change, coverage: map<string, seq<int>>, ignored: seq<string>)
    ensures UnmentionedChanges(file, [c], coverage, ignored)
         == if Survives(file, c, coverage, ignored) then [c] else []
  {
    assert [c][1..] == [];
  }

  /** The filter keeps diff order: filtering a concatenation concatenates the filtered halves. */
  lemma UnmentionedChangesAppend(file: string, a: seq<Change>, b: seq<Change>,
                                 coverage: map<string, seq<int>>, ignored: seq<string>)
    ensures UnmentionedChanges(file, a + b, coverage, ignored)
         == UnmentionedChanges(file, a, coverage, ignored) + UnmentionedChanges(file, b, coverage, ignored)
  {
    FilterAppend(a, b, SurvivorTest(file, coverage, ignored));
  }

  /** The filter keeps something exactly when some change survives. */
  lemma SurvivorsReported(file: string, changes: seq<Change>, coverage: map<string, seq<int>>, ignored: seq<string>)
    ensures |UnmentionedChanges(file, changes, coverage, ignored)| > 0
            <==> exists c :: c in changes && Survives(file, c, coverage, ignored)
  {
    var u := UnmentionedChanges(file, changes, coverage, ignored);
    if |u| > 0 {
      assert u[0] in u;
    }
    if c :| c in changes && Survives(file, c, coverage, ignored) {
      assert c in u;
    }
  }

  /** The `reduce` that sets its flag on the first change of type "add". */
  function AdditionsFrom(changes: seq<Change>, acc: bool): (b: bool)
    ensures b <==> acc || exists k :: 0 <= k < |changes| && changes[k].changeType == Add
  {
    if changes == [] then acc
    else
      var acc' := if changes[0].changeType == Add then true else acc;
      var b := AdditionsFrom(changes[1..], acc');
      assert forall k :: 0 <= k < |changes[1..]| ==> changes[1..][k] == changes[k + 1];
      b
  }

  function ContainsAdditions(changes: seq<Change>): bool {
    AdditionsFrom(changes, false)
  }

  /** The diagnostic one diff entry yields: `None` when none of its changes is unmentioned. */
  function EntryDiagnostic(file: string, changes: seq<Change>, coverage: map<string, seq<int>>,
                           ignored: seq<string>, selectedLesson: string, comparisonLesson: string): (d: Option<Diagnostic>)
    ensures d.Some? <==> exists c :: c in changes && Survives(file, c, coverage, ignored)
    ensures d.Some? ==> d.value.subject.MissedChange? && d.value.subject.file == file
                        && d.value.subject.changes == UnmentionedChanges(file, changes, coverage, ignored)
    ensures d.Some? ==> (d.value.severity == Error <==> exists c :: c in changes && Survives(file, c, coverage, ignored) && c.changeType == Add)
    ensures d.Some? ==> d.value.severity != Information
  {
    var unmentioned := UnmentionedChanges(file, changes, coverage, ignored);
    SurvivorsReported(file, changes, coverage, ignored);
    var currentLesson := if Includes(file, selectedLesson) then selectedLesson else comparisonLesson;
    if |unmentioned| > 0 then
      Some(Diagnostic(if ContainsAdditions(unmentioned) then Error else Warning,
                      MissedChange(file, currentLesson, unmentioned)))
    else None
  }

  /** The per-file diagnostics of the diff entries, in entry order. */
  function MissedDiagnostics(entries: seq<(string, seq<Change>)>, coverage: map<string, seq<int>>,
                             ignored: seq<string>, selectedLesson: string, comparisonLesson: string): (ds: seq<Diagnostic>)
  {
    if entries == [] then []
    else
      var last := entries[|entries| - 1];
      var d := EntryDiagnostic(last.0, last.1, coverage, ignored, selectedLesson, comparisonLesson);
      MissedDiagnostics(entries[..|entries| - 1], coverage, ignored, selectedLesson, comparisonLesson)
        + (if d.Some? then [d.value] else [])
  }

  /** Each diff entry appends its own diagnostic, if any, after those of the entries before it. */
  lemma MissedDiagnosticsStep(entries: seq<(string, seq<Change>)>, i: nat, coverage: map<string, seq<int>>,
                              ignored: seq<string>, selectedLesson: string, comparisonLesson: string)
    requires i < |entries|
    ensures var d := EntryDiagnostic(entries[i].0, entries[i].1, coverage, ignored, selectedLesson, comparisonLesson);
      MissedDiagnostics(entries[..i + 1], coverage, ignored, selectedLesson, comparisonLesson)
      == MissedDiagnostics(entries[..i], coverage, ignored, selectedLesson, comparisonLesson) + (if d.Some? then [d.value] else [])
  {
    assert entries[..i + 1][..i] == entries[..i];
  }

  /** One Information diagnostic per ignored fragment, in order, repeats included. */
  function IgnoredNotices(ignored: seq<string>): (notices: seq<Diagnostic>)
    ensures |notices| == |ignored|
    ensures forall k :: 0 <= k < |notices| ==>
      notices[k].severity == Information && notices[k].subject == IgnoredNotice(ignored[k])
  {
    seq(|ignored|, k requires 0 <= k < |ignored| => Diagnostic(Information, IgnoredNotice(ignored[k])))
  }

  /**
   * Everything a completed check sends: the missed changes and ignore notices when the
   * diff and the coverage could be computed, nothing of the kind when either threw, and
   * the "File checked" diagnostic last in every case.
   */
  function CheckedDiagnostics(text: string, diff: Option<seq<(string, seq<Change>)>>,
                              selectedLesson: string, comparisonLesson: string,
                              resolve: string -> string, readFile: string -> Option<string>,
                              cq: (string, string, string) -> Option<(int, int)>): (ds: seq<Diagnostic>)
    ensures |ds| >= 1 && ds[|ds| - 1] == Diagnostic(Information, FileChecked)
  {
    var body :=
      match diff
      case None => []
      case Some(entries) =>
        match FindCq.FindCq(text, resolve, readFile, cq)
        case Failure(_) => []
        case Success(coverage) =>
          var ignored := IgnoredFiles.FindIgnoredFiles(text);
          MissedDiagnostics(entries, coverage, ignored, selectedLesson, comparisonLesson)
            + IgnoredNotices(ignored);
    body + [Diagnostic(Information, FileChecked)]
  }

  /** The loop over the diff entries that pushes one diagnostic per file with unmentioned changes. */
  method ReportMissedChanges(entries: seq<(string, seq<Change>)>, coverage: map<string, seq<int>>,
                             ignoredFiles: seq<string>, selectedLesson: string, comparisonLesson: string)
    returns (diagnostics: seq<Diagnostic>)
    ensures diagnostics == MissedDiagnostics(entries, coverage, ignoredFiles, selectedLesson, comparisonLesson)
  {
    diagnostics := [];
    var i := 0;
    while i < |entries|
      invariant i <= |entries|
      invariant diagnostics == MissedDiagnostics(entries[..i], coverage, ignoredFiles, selectedLesson, comparisonLesson)
    {
      var file, changes := entries[i].0, entries[i].1;
      var unmentionedChanges := UnmentionedChanges(file, changes, coverage, ignoredFiles);
      var containsAdditions := ContainsAdditions(unmentionedChanges);
      var currentLesson := if Includes(file, selectedLesson) then selectedLesson else comparisonLesson;
      if |unmentionedChanges| > 0 {
        var severity := if containsAdditions then Error else Warning;
        diagnostics := diagnostics + [Diagnostic(severity, MissedChange(file, currentLesson, unmentionedChanges))];
      }
      MissedDiagnosticsStep(entries, i, coverage, ignoredFiles, selectedLesson, comparisonLesson);
      i := i + 1;
    }
    assert entries[..i] == entries;
  }

  /** The loop that pushes one Information diagnostic per ignored fragment. */
  method ReportIgnoredFiles(ignoredFiles: seq<string>) returns (diagnostics: seq<Diagnostic>)
    ensures diagnostics == IgnoredNotices(ignoredFiles)
  {
    diagnostics := [];
    var k := 0;
    while k < |ignoredFiles|
      invariant k <= |ignoredFiles|
      invariant diagnostics == IgnoredNotices(ignoredFiles[..k])
    {
      diagnostics := diagnostics + [Diagnostic(Information, IgnoredNotice(ignoredFiles[k]))];
      k := k + 1;
    }
    assert ignoredFiles[..k] == ignoredFiles;
  }

  /**
   * `validateTextDocument`: the diagnostics sent for the lesson, or `None` when it returns
   * early without sending any.
   */
  method ValidateTextDocument(uri: string, text: string, codeLessonFolders: string,
                              diff: Option<seq<(string, seq<Change>)>>,
                              resolve: string -> string, readFile: string -> Option<string>,
                              cq: (string, string, string) -> Option<(int, int)>)
    returns (published: Option<seq<Diagnostic>>)
    ensures var pair := LessonPair(Split(codeLessonFolders, '\n'), LessonId(uri));
      && (published.None? <==> pair.None?)
      && (published.Some? ==>
            published.value == CheckedDiagnostics(text, diff, pair.value.0, pair.value.1, resolve, readFile, cq))
  {
    var lessonId := LessonId(uri);
    var codeLessonFoldersArray := Split(codeLessonFolders, '\n');
    var selectedLessonIndex := FindLesson(codeLessonFoldersArray, lessonId);
    LessonPairFound(codeLessonFoldersArray, lessonId, selectedLessonIndex);
    if selectedLessonIndex.None? || codeLessonFoldersArray[selectedLessonIndex.value] == "" {
      // "No linked code example."
      return None;
    }
    var index := selectedLessonIndex.value;
    var selectedLesson := codeLessonFoldersArray[index];
    if index == 0 || codeLessonFoldersArray[index - 1] == "" {
      // "No comparison code example."
      return None;
    }
    var comparisonLesson := codeLessonFoldersArray[index - 1];
    var diagnostics := CheckLesson(text, diff, selectedLesson, comparisonLesson, resolve, readFile, cq);
    return Some(diagnostics);
  }

  /**
   * The `try` block and what follows it: the missed changes and ignore notices, dropped
   * when the diff or `findCq` throws, then "File checked".
   */
  method CheckLesson(text: string, diff: Option<seq<(string, seq<Change>)>>,
                     selectedLesson: string, comparisonLesson: string,
                     resolve: string -> string, readFile: string -> Option<string>,
                     cq: (string, string, string) -> Option<(int, int)>)
    returns (diagnostics: seq<Diagnostic>)
    ensures diagnostics == CheckedDiagnostics(text, diff, selectedLesson, comparisonLesson, resolve, readFile, cq)
  {
    diagnostics := [];
    if diff.Some? {
      var cqChunks := FindCq.FindCq(text, resolve, readFile, cq);
      if cqChunks.Success? {
        var ignoredFiles := IgnoredFiles.FindIgnoredFiles(text);
        var missed := ReportMissedChanges(diff.value, cqChunks.value, ignoredFiles, selectedLesson, comparisonLesson);
        var notices := ReportIgnoredFiles(ignoredFiles);
        diagnostics := missed + notices;
      }
    }
    diagnostics := diagnostics + [Diagnostic(Information, FileChecked)];
  }

  /* ---------- properties of the reconciliation ---------- */

  /** Every per-file diagnostic comes from one diff entry, and names that entry's file. */
  lemma {:induction false} MissedDiagnosticsSound(entries: seq<(string, seq<Change>)>, coverage: map<string, seq<int>>,
                                                  ignored: seq<string>, selectedLesson: string, comparisonLesson: string)
    ensures forall d :: d in MissedDiagnostics(entries, coverage, ignored, selectedLesson, comparisonLesson) ==>
      exists i :: 0 <= i < |entries| && EntryDiagnostic(entries[i].0, entries[i].1, coverage, ignored, selectedLesson, comparisonLesson) == Some(d)
    ensures |MissedDiagnostics(entries, coverage, ignored, selectedLesson, comparisonLesson)| <= |entries|
  {
    if entries != [] {
      var init := entries[..|entries| - 1];
      MissedDiagnosticsSound(init, coverage, ignored, selectedLesson, comparisonLesson);
      forall d | d in MissedDiagnostics(entries, coverage, ignored, selectedLesson, comparisonLesson)
        ensures exists i :: 0 <= i < |entries| && EntryDiagnostic(entries[i].0, entries[i].1, coverage, ignored, selectedLesson, comparisonLesson) == Some(d)
      {
        if d in MissedDiagnostics(init, coverage, ignored, selectedLesson, comparisonLesson) {
          var i :| 0 <= i < |init| && EntryDiagnostic(init[i].0, init[i].1, coverage, ignored, selectedLesson, comparisonLesson) == Some(d);
          assert entries[i] == init[i];
        } else {
          assert EntryDiagnostic(entries[|entries| - 1].0, entries[|entries| - 1].1, coverage, ignored, selectedLesson, comparisonLesson) == Some(d);
        }
      }
    }
  }

  /** Every diff entry with a surviving change gets its diagnostic, in entry order. */
  lemma {:induction false} MissedDiagnosticsComplete(entries: seq<(string, seq<Change>)>, coverage: map<string, seq<int>>,
                                                     ignored: seq<string>, selectedLesson: string, comparisonLesson: string, i: nat)
    requires i < |entries|
    requires EntryDiagnostic(entries[i].0, entries[i].1, coverage, ignored, selectedLesson, comparisonLesson).Some?
    ensures EntryDiagnostic(entries[i].0, entries[i].1, coverage, ignored, selectedLesson, comparisonLesson).value
            in MissedDiagnostics(entries, coverage, ignored, selectedLesson, comparisonLesson)
  {
    var init := entries[..|entries| - 1];
    if i < |entries| - 1 {
      assert init[i] == entries[i];
      MissedDiagnosticsComplete(init, coverage, ignored, selectedLesson, comparisonLesson, i);
    }
  }

  /** A file matched by an ignore fragment never has a change reported. */
  lemma IgnoredFileSilent(file: string, changes: seq<Change>, coverage: map<string, seq<int>>,
                          ignored: seq<string>, selectedLesson: string, comparisonLesson: string)
    requires IsIgnored(file, ignored)
    ensures UnmentionedChanges(file, changes, coverage, ignored) == []
    ensures EntryDiagnostic(file, changes, coverage, ignored, selectedLesson, comparisonLesson).None?
  {
    SurvivorsReported(file, changes, coverage, ignored);
  }

  /** A file the lesson never references has every change reported, in diff order. */
  lemma {:induction false} UncoveredFileKeepsAll(file: string, changes: seq<Change>, coverage: map<string, seq<int>>,
                                                 ignored: seq<string>)
    requires !IsIgnored(file, ignored) && file !in coverage
    ensures UnmentionedChanges(file, changes, coverage, ignored) == changes
  {
    if changes != [] {
      UncoveredFileKeepsAll(file, changes[1..], coverage, ignored);
    }
  }

  /** A line referenced by the lesson is never reported. */
  lemma CoveredLineNeverReported(file: string, change: Change, coverage: map<string, seq<int>>, ignored: seq<string>)
    requires file in coverage && change.ln in coverage[file]
    ensures !Survives(file, change, coverage, ignored)
  {
  }

  /**
   * The diff artifacts "+" and "-" are dropped exactly when the file has a coverage entry,
   * even an empty one; in a file without one they are reported like any other change.
   */
  lemma ArtifactsDroppedOnlyWithCoverage(file: string, change: Change, coverage: map<string, seq<int>>, ignored: seq<string>)
    requires change.content == "+" || change.content == "-"
    ensures Survives(file, change, coverage, ignored) <==> !IsIgnored(file, ignored) && file !in coverage
  {
  }

  /** `more` covers every line `less` covers, file by file. */
  predicate CoversAtLeast(more: map<string, seq<int>>, less: map<string, seq<int>>) {
    forall f :: f in less ==> f in more && forall x :: x in less[f] ==> x in more[f]
  }

  /**
   * Referencing more lines never reports more changes: with at least the same coverage on
   * every file that has an entry, the surviving changes can only shrink.
   */
  lemma {:induction false} MoreCoverageFewerMisses(file: string, changes: seq<Change>, more: map<string, seq<int>>,
                                                   less: map<string, seq<int>>, ignored: seq<string>)
    requires CoversAtLeast(more, less)
    ensures |UnmentionedChanges(file, changes, more, ignored)| <= |UnmentionedChanges(file, changes, less, ignored)|
    ensures forall c :: c in UnmentionedChanges(file, changes, more, ignored) ==> c in UnmentionedChanges(file, changes, less, ignored)
  {
    if changes != [] {
      MoreCoverageFewerMisses(file, changes[1..], more, less, ignored);
      assert Survives(file, changes[0], more, ignored) ==> Survives(file, changes[0], less, ignored);
    }
  }

  /** A check that could not run the diff or read a referenced file only reports "File checked". */
  lemma FailedPassOnlyChecked(text: string, diff: Option<seq<(string, seq<Change>)>>,
                              selectedLesson: string, comparisonLesson: string,
                              resolve: string -> string, readFile: string -> Option<string>,
                              cq: (string, string, string) -> Option<(int, int)>)
    requires diff.None? || FindCq.FindCq(text, resolve, readFile, cq).Failure?
    ensures CheckedDiagnostics(text, diff, selectedLesson, comparisonLesson, resolve, readFile, cq)
            == [Diagnostic(Information, FileChecked)]
  {
  }

  /** Missed changes come first, then the ignore notices, and "File checked" exactly once, last. */
  lemma CheckedDiagnosticsShape(text: string, diff: Option<seq<(string, seq<Change>)>>,
                                selectedLesson: string, comparisonLesson: string,
                                resolve: string -> string, readFile: string -> Option<string>,
                                cq: (string, string, string) -> Option<(int, int)>)
    ensures var ds := CheckedDiagnostics(text, diff, selectedLesson, comparisonLesson, resolve, readFile, cq);
      && |ds| >= 1 && ds[|ds| - 1] == Diagnostic(Information, FileChecked)
      && forall k :: 0 <= k < |ds| - 1 ==> ds[k].subject != FileChecked
  {
    var found := FindCq.FindCq(text, resolve, readFile, cq);
    if diff.Some? && found.Success? {
      var ignored := IgnoredFiles.FindIgnoredFiles(text);
      var missed := MissedDiagnostics(diff.value, found.value, ignored, selectedLesson, comparisonLesson);
      MissedDiagnosticsSound(diff.value, found.value, ignored, selectedLesson, comparisonLesson);
      forall k | 0 <= k < |missed| ensures missed[k].subject.MissedChange? {
        assert missed[k] in missed;
      }
      NoticesBeforeChecked(missed, ignored);
    }
  }

  /** Neither a missed change nor an ignore notice is "File checked". */
  lemma NoticesBeforeChecked(missed: seq<Diagnostic>, ignored: seq<string>)
    requires forall k :: 0 <= k < |missed| ==> missed[k].subject.MissedChange?
    ensures var ds := missed + IgnoredNotices(ignored) + [Diagnostic(Information, FileChecked)];
      forall k :: 0 <= k < |ds| - 1 ==> ds[k].subject != FileChecked
  {
    var ds := missed + IgnoredNotices(ignored) + [Diagnostic(Information, FileChecked)];
    forall k | 0 <= k < |ds| - 1 ensures ds[k].subject != FileChecked {
      if k < |missed| {
        assert ds[k] == missed[k];
      } else {
        assert ds[k] == IgnoredNotices(ignored)[k - |missed|];
      }
    }
  }

  /* ---------- worked examples, at the level of coverage ---------- */

  /**
   * A lesson showing lines 1 to 10 of a file, and a diff adding lines 1, 5 and 12: only
   * line 12 is reported, as an Error because it is an addition.
   */
  lemma RangeScenario(file: string, a: string, b: string, c: string, selectedLesson: string, comparisonLesson: string)
    requires c != "+" && c != "-"
    ensures var changes := [Change(1, Add, a), Change(5, Add, b), Change(12, Add, c)];
      MissedDiagnostics([(file, changes)], map[file := FindCq.Range(1, 10)], [], selectedLesson, comparisonLesson)
      == [Diagnostic(Error, MissedChange(file, if Includes(file, selectedLesson) then selectedLesson else comparisonLesson,
                                         [Change(12, Add, c)]))]
  {
    var coverage := map[file := FindCq.Range(1, 10)];
    var changes := [Change(1, Add, a), Change(5, Add, b), Change(12, Add, c)];
    RangeUnmentioned(file, a, b, c);
    assert UnmentionedChanges(file, changes, coverage, []) == [Change(12, Add, c)];
    assert ContainsAdditions([Change(12, Add, c)]);
    assert [(file, changes)][..0] == [];
  }

  /** With lines 1 to 10 covered, only the addition at line 12 survives. */
  lemma RangeUnmentioned(file: string, a: string, b: string, c: string)
    requires c != "+" && c != "-"
    ensures UnmentionedChanges(file, [Change(1, Add, a), Change(5, Add, b), Change(12, Add, c)],
                               map[file := FindCq.Range(1, 10)], []) == [Change(12, Add, c)]
  {
    var covered := FindCq.Range(1, 10);
    FindCq.RangeMembership(1, 10, 1);
    FindCq.RangeMembership(1, 10, 5);
    FindCq.RangeMembership(1, 10, 12);
    CoveredUnmentioned(file, covered, a, b, c);
  }

  /** Whatever else is covered, covering lines 1 and 5 but not 12 leaves only the addition at 12. */
  lemma CoveredUnmentioned(file: string, covered: seq<int>, a: string, b: string, c: string)
    requires c != "+" && c != "-"
    requires 1 in covered && 5 in covered && 12 !in covered
    ensures UnmentionedChanges(file, [Change(1, Add, a), Change(5, Add, b), Change(12, Add, c)],
                               map[file := covered], []) == [Change(12, Add, c)]
  {
    var coverage := map[file := covered];
    var c1, c2, c3 := Change(1, Add, a), Change(5, Add, b), Change(12, Add, c);
    assert !IsIgnored(file, []);
    assert Classify(file, c1, coverage, []).None? && Classify(file, c2, coverage, []).None?;
    UnmentionedChangesOne(file, c1, coverage, []);
    UnmentionedChangesOne(file, c2, coverage, []);
    UnmentionedChangesOne(file, c3, coverage, []);
    UnmentionedChangesAppend(file, [c1], [c2], coverage, []);
    assert [c1] + [c2] == [c1, c2];
    UnmentionedChangesAppend(file, [c1, c2], [c3], coverage, []);
    assert [c1, c2] + [c3] == [c1, c2, c3];
  }

  /** A file whose path includes an ignore fragment gets no diagnostic, only the notice. */
  lemma IgnoreScenario(file: string, fragment: string, changes: seq<Change>, coverage: map<string, seq<int>>,
                       selectedLesson: string, comparisonLesson: string)
    requires Includes(file, fragment)
    ensures MissedDiagnostics([(file, changes)], coverage, [fragment], selectedLesson, comparisonLesson) == []
    ensures IgnoredNotices([fragment]) == [Diagnostic(Information, IgnoredNotice(fragment))]
  {
    assert IsIgnored(file, [fragment]) by { assert Includes(file, [fragment][0]); }
    IgnoredFileSilent(file, changes, coverage, [fragment], selectedLesson, comparisonLesson);
    assert [(file, changes)][..0] == [];
  }

  /**
   * A file whose only reference is a crop-query block has an empty coverage entry: a
   * removal at 23 and an addition at 30 are both reported, as an Error, while a "+"
   * artifact in the same file is dropped.
   */
  lemma CropQueryScenario(file: string, x: string, y: string, selectedLesson: string, comparisonLesson: string)
    requires x != "+" && x != "-" && y != "+" && y != "-"
    ensures var changes := [Change(23, Remove, x), Change(30, Add, y), Change(31, Add, "+")];
      UnmentionedChanges(file, changes, map[file := []], []) == [Change(23, Remove, x), Change(30, Add, y)]
      && EntryDiagnostic(file, changes, map[file := []], [], selectedLesson, comparisonLesson).value.severity == Error
  {
    var changes := [Change(23, Remove, x), Change(30, Add, y), Change(31, Add, "+")];
    CropQueryUnmentioned(file, x, y);
    assert Change(30, Add, y) in changes;
  }

  /** An empty coverage entry drops only the "+" artifact. */
  lemma CropQueryUnmentioned(file: string, x: string, y: string)
    requires x != "+" && x != "-" && y != "+" && y != "-"
    ensures UnmentionedChanges(file, [Change(23, Remove, x), Change(30, Add, y), Change(31, Add, "+")], map[file := []], [])
         == [Change(23, Remove, x), Change(30, Add, y)]
  {
    var coverage: map<string, seq<int>> := map[file := []];
    var c1, c2, c3 := Change(23, Remove, x), Change(30, Add, y), Change(31, Add, "+");
    assert !IsIgnored(file, []);
    UnmentionedChangesOne(file, c1, coverage, []);
    UnmentionedChangesOne(file, c2, coverage, []);
    UnmentionedChangesOne(file, c3, coverage, []);
    UnmentionedChangesAppend(file, [c1], [c2], coverage, []);
    assert [c1] + [c2] == [c1, c2];
    UnmentionedChangesAppend(file, [c1, c2], [c3], coverage, []);
    assert [c1, c2] + [c3] == [c1, c2, c3];
  }

  /** A lesson showing a 40-line file whole: an addition at line 41 is reported. */
  lemma WholeFileScenario(file: string, z: string, changes: seq<Change>, selectedLesson: string, comparisonLesson: string)
    requires z != "+" && z != "-"
    requires Change(41, Add, z) in changes
    ensures Change(41, Add, z) in UnmentionedChanges(file, changes, map[file := FindCq.Range(1, 40)], [])
    ensures EntryDiagnostic(file, changes, map[file := FindCq.Range(1, 40)], [], selectedLesson, comparisonLesson).value.severity == Error
  {
    FindCq.RangeMembership(1, 40, 41);
  }
}
