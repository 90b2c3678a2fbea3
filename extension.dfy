/**
 * The pure parts of the editor extension's markdown hover (src/extension.ts): its own
 * copies of the engine table and of the crop-query builder, which line of an annotation
 * it reads the options and the file path from, and the cq call it then makes.
 */
module Extension {
  import opened Wrappers
  import opened JsStrings
  import opened JsRegex
  import ServerCalcEngine
  import Server = CalcCropQuery

  /** The extension's copy of the engine table, with "auto" as its default. */
  function CalcEngine(ext: string): string {
    match ext
    case "tsx" => "typescript"
    case "ts" => "typescript"
    case "js" => "babylon"
    case "jsx" => "babylon"
    case "json" => "treesitter"
    case _ => "auto"
  }

  /** The copy agrees with the language server's table on every extension. */
  lemma SameEngineAsServer(ext: string)
    ensures CalcEngine(ext) == ServerCalcEngine.CalcEngine(ext)
  {
  }

  /** The extension's copy of the crop-query builder: crop-query, then "S-E", then "1-N". */
  function CalcCropQuery(optionsLine: string, numberOfLines: nat): string {
    var cropQueryMatch := GreedyCapture(optionsLine, "crop-query=", "}");
    if cropQueryMatch.Some? && cropQueryMatch.value != "" then cropQueryMatch.value
    else
      var start := RunCapture(optionsLine, "crop-start-line=", Digits);
      var end := RunCapture(optionsLine, "crop-end-line=", Digits);
      if start.Some? && start.value != "" && end.Some? && end.value != "" then
        start.value + "-" + end.value
      else
        "1-" + NatToString(numberOfLines)
  }

  /** The copy builds the same query as the language server's for every options line and length. */
  lemma SameCropQueryAsServer(optionsLine: string, numberOfLines: nat)
    ensures CalcCropQuery(optionsLine, numberOfLines) == Server.CalcCropQuery(optionsLine, numberOfLines)
  {
  }

  /** `/^<</`: the line is the reference line of an annotation. */
  predicate IsReferenceLine(line: string) {
    At(line, 0, "<<")
  }

  /**
   * The (options line, path line) the hover reads: the line before and the hovered line on
   * a reference line, else the hovered line and the next one; `None` where `lineAt` throws
   * because that line is outside the document.
   */
  function HoverLines(doc: seq<string>, line: nat): (lines: Option<(string, string)>)
    requires line < |doc|
    ensures lines.Some? && IsReferenceLine(doc[line]) ==> 0 < line && lines.value == (doc[line - 1], doc[line])
    ensures lines.Some? && !IsReferenceLine(doc[line]) ==> line + 1 < |doc| && lines.value == (doc[line], doc[line + 1])
    ensures lines.None? <==> (if IsReferenceLine(doc[line]) then line == 0 else line == |doc| - 1)
  {
    if IsReferenceLine(doc[line]) then
      if line == 0 then None else Some((doc[line - 1], doc[line]))
    else
      if line + 1 == |doc| then None else Some((doc[line], doc[line + 1]))
  }

  /**
   * Hovering the options line or the reference line of the same annotation reads the same
   * pair of lines.
   */
  lemma HoverEitherLine(doc: seq<string>, i: nat)
    requires i + 1 < |doc|
    requires !IsReferenceLine(doc[i]) && IsReferenceLine(doc[i + 1])
    ensures HoverLines(doc, i) == HoverLines(doc, i + 1) == Some((doc[i], doc[i + 1]))
  {
  }

  /** `pathLine?.match(/\((.*)\)/)?.[1] || ""`. */
  function HoverFilePath(pathLine: string): (filePath: string)
    ensures forall j :: 0 <= j < |filePath| ==> !IsLineBreak(filePath[j])
    ensures filePath != "" ==> exists i :: At(pathLine, i, "(" + filePath + ")")
  {
    GreedyCaptureInLine(pathLine, "(", ")");
    match GreedyCapture(pathLine, "(", ")")
    case Some(p) => p
    case None => ""
  }

  /**
   * The file path runs from the first `(` of the line to the last `)` before that line
   * ends, when there is one.
   */
  lemma HoverFilePathFirst(pathLine: string, i: nat, k: nat)
    requires At(pathLine, i, "(") && forall j :: 0 <= j < i ==> !At(pathLine, j, "(")
    requires i + 1 <= k && k + 1 <= LineEnd(pathLine, i + 1) && At(pathLine, k, ")")
    requires forall j :: k < j && j + 1 <= LineEnd(pathLine, i + 1) ==> !At(pathLine, j, ")")
    ensures HoverFilePath(pathLine) == pathLine[i + 1..k]
  {
    GreedyCaptureFirst(pathLine, "(", ")", i, k);
  }

  /** With no `(` followed on its line by a `)`, the file path is "". */
  lemma HoverFilePathNone(pathLine: string)
    requires forall i: nat, k: nat :: !FramedOnLine(pathLine, "(", ")", i, k)
    ensures HoverFilePath(pathLine) == ""
  {
    GreedyCaptureExists(pathLine, "(", ")");
  }

  /** The reference line `<<[title](path)` of an annotation. */
  function ReferenceLine(title: string, path: string): string {
    "<<[" + title + "](" + path + ")"
  }

  /** On a reference line `<<[title](path)` the file path is exactly `path`. */
  lemma {:induction false} ReferencePath(title: string, path: string)
    requires '(' !in title
    requires forall j :: 0 <= j < |path| ==> !IsLineBreak(path[j])
    ensures IsReferenceLine(ReferenceLine(title, path))
    ensures HoverFilePath(ReferenceLine(title, path)) == path
  {
    var s := ReferenceLine(title, path);
    assert s[..2] == "<<";
    var i := |title| + 4;
    var k := |s| - 1;
    assert s[i] == '(';
    forall j | 0 <= j < i ensures !At(s, j, "(") {
      if 3 <= j < |title| + 3 {
        assert s[j] == title[j - 3];
      } else if j < 3 {
        assert s[j] == "<<["[j];
      } else {
        assert s[j] == ']';
      }
      assert s[j..j + 1] == [s[j]];
    }
    assert At(s, i, "(");
    forall j | i + 1 <= j < |s| ensures !IsLineBreak(s[j]) {
      if j < k {
        assert s[j] == path[j - i - 1];
      }
    }
    GreedyCaptureOnLine(s, "(", ")", i);
    assert s[i + 1..k] == path;
  }

  /** `filePath.split(".").reverse()[0]`. */
  function FileExtension(filePath: string): (ext: string)
    ensures '.' !in ext && |ext| <= |filePath| && filePath[|filePath| - |ext|..] == ext
    ensures '.' in filePath ==> |ext| < |filePath| && filePath[|filePath| - |ext| - 1] == '.'
  {
    LastSegmentEnds(filePath, '.');
    LastSegment(filePath, '.')
  }

  /** The extension of `base.ext` is `ext`, whatever dots `base` holds. */
  lemma {:induction false} ExtensionOfName(base: string, ext: string)
    requires '.' !in ext
    ensures FileExtension(base + "." + ext) == ext
  {
    var s := base + "." + ext;
    var l := LastSegment(s, '.');
    LastSegmentEnds(s, '.');
    assert s[|base|] == '.';
    assert forall j :: |base| < j < |s| ==> s[j] == ext[j - |base| - 1];
    assert |l| >= |ext|;
    assert forall j :: |s| - |l| <= j < |s| ==> s[j] == l[j - (|s| - |l|)];
    assert |l| <= |ext|;
    assert l == s[|base| + 1..];
  }

  /** A name without a dot is its own extension. */
  lemma ExtensionWithoutDot(filePath: string)
    requires '.' !in filePath
    ensures FileExtension(filePath) == filePath
  {
    LastSegmentEnds(filePath, '.');
  }

  /** The arguments the hover passes to the cq command line. */
  datatype CqCall = CqCall(query: string, filePath: string, engine: string)

  /**
   * The cq call a hover over line `line` of the markdown file `fileName` makes; `None` where
   * it throws before calling cq: `lineAt` is outside the document, or the referenced file
   * cannot be read. `resolve` is `path.resolve` and `readFile` reads a whole file.
   */
  function HoverCall(doc: seq<string>, fileName: string, line: nat,
                     resolve: (string, string, string) -> string,
                     readFile: string -> Option<string>): (call: Option<CqCall>)
    requires line < |doc|
    ensures call.Some? <==> HoverLines(doc, line).Some?
                            && readFile(resolve(fileName, "../", HoverFilePath(HoverLines(doc, line).value.1))).Some?
    ensures call.Some? ==> call.value.filePath == resolve(fileName, "../", HoverFilePath(HoverLines(doc, line).value.1))
    ensures call.Some? ==> call.value.engine in {"typescript", "babylon", "treesitter", "auto"}
    ensures call.Some? ==> |call.value.query| > 0
  {
    match HoverLines(doc, line)
    case None => None
    case Some((optionsLine, pathLine)) =>
      var fullPath := resolve(fileName, "../", HoverFilePath(pathLine));
      match readFile(fullPath)
      case None => None
      case Some(code) => Some(CallFor(optionsLine, pathLine, fullPath, LineCount(code)))
  }

  /**
   * The cq call for a chosen options line and reference line: the query counts the lines of
   * the file read, cq gets the resolved path, and the engine follows the extension of the
   * path as written on the reference line.
   */
  function CallFor(optionsLine: string, pathLine: string, fullPath: string, numberOfLines: nat): (call: CqCall)
    ensures call.engine in {"typescript", "babylon", "treesitter", "auto"}
    ensures |call.query| > 0
  {
    CqCall(CalcCropQuery(optionsLine, numberOfLines), fullPath, CalcEngine(FileExtension(HoverFilePath(pathLine))))
  }

  /** The hover's query and engine are the server's for the same lines. */
  lemma CallForIsServer(optionsLine: string, pathLine: string, fullPath: string, numberOfLines: nat)
    ensures CallFor(optionsLine, pathLine, fullPath, numberOfLines)
         == CqCall(Server.CalcCropQuery(optionsLine, numberOfLines), fullPath,
                   ServerCalcEngine.CalcEngine(FileExtension(HoverFilePath(pathLine))))
  {
    SameCropQueryAsServer(optionsLine, numberOfLines);
    SameEngineAsServer(FileExtension(HoverFilePath(pathLine)));
  }

  /**
   * Once the two lines are chosen and the referenced file is read, the call is the server's
   * query for the file's line count, on the resolved path, with the server's engine.
   */
  lemma HoverCallOfLines(doc: seq<string>, fileName: string, line: nat,
                         resolve: (string, string, string) -> string, readFile: string -> Option<string>,
                         optionsLine: string, pathLine: string, code: string)
    requires line < |doc| && HoverLines(doc, line) == Some((optionsLine, pathLine))
    requires readFile(resolve(fileName, "../", HoverFilePath(pathLine))) == Some(code)
    ensures HoverCall(doc, fileName, line, resolve, readFile)
         == Some(CqCall(Server.CalcCropQuery(optionsLine, LineCount(code)),
                        resolve(fileName, "../", HoverFilePath(pathLine)),
                        ServerCalcEngine.CalcEngine(FileExtension(HoverFilePath(pathLine)))))
  {
    var fullPath := resolve(fileName, "../", HoverFilePath(pathLine));
    HoverCallIs(doc, fileName, line, resolve, readFile, optionsLine, pathLine, code);
    CallForIsServer(optionsLine, pathLine, fullPath, LineCount(code));
  }

  /** The hover's call is the call for the two lines it reads and the file it reads. */
  lemma HoverCallIs(doc: seq<string>, fileName: string, line: nat,
                    resolve: (string, string, string) -> string, readFile: string -> Option<string>,
                    optionsLine: string, pathLine: string, code: string)
    requires line < |doc| && HoverLines(doc, line) == Some((optionsLine, pathLine))
    requires readFile(resolve(fileName, "../", HoverFilePath(pathLine))) == Some(code)
    ensures HoverCall(doc, fileName, line, resolve, readFile)
         == Some(CallFor(optionsLine, pathLine, resolve(fileName, "../", HoverFilePath(pathLine)), LineCount(code)))
  {
  }

  /**
   * Hovering an annotation `{options}` / `<<[title](name.ext)` of the markdown file
   * `fileName` asks cq, from either of its two lines, for the options' query in the file
   * `name.ext` resolved against that markdown file's folder, with the engine of `ext`.
   */
  lemma AnnotationHover(doc: seq<string>, fileName: string, i: nat,
                        resolve: (string, string, string) -> string, readFile: string -> Option<string>,
                        title: string, name: string, ext: string, code: string)
    requires i + 1 < |doc| && !IsReferenceLine(doc[i])
    requires doc[i + 1] == ReferenceLine(title, name + "." + ext)
    requires '(' !in title && '.' !in ext
    requires forall j :: 0 <= j < |name| ==> !IsLineBreak(name[j])
    requires forall j :: 0 <= j < |ext| ==> !IsLineBreak(ext[j])
    requires readFile(resolve(fileName, "../", name + "." + ext)) == Some(code)
    ensures var call := Some(CqCall(Server.CalcCropQuery(doc[i], LineCount(code)),
                                    resolve(fileName, "../", name + "." + ext),
                                    ServerCalcEngine.CalcEngine(ext)));
      HoverCall(doc, fileName, i, resolve, readFile) == call
      && HoverCall(doc, fileName, i + 1, resolve, readFile) == call
  {
    var path := name + "." + ext;
    assert forall j :: 0 <= j < |path| ==> !IsLineBreak(path[j]) by {
      forall j | 0 <= j < |path| ensures !IsLineBreak(path[j]) {
        if j < |name| {
          assert path[j] == name[j];
        } else if j > |name| {
          assert path[j] == ext[j - |name| - 1];
        }
      }
    }
    ReferencePath(title, path);
    HoverEitherLine(doc, i);
    ExtensionOfName(name, ext);
    HoverCallOfLines(doc, fileName, i, resolve, readFile, doc[i], doc[i + 1], code);
    HoverCallOfLines(doc, fileName, i + 1, resolve, readFile, doc[i], doc[i + 1], code);
  }
}
