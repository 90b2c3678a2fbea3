/**
 * `findCq` (server/src/server.ts): the annotation blocks of a lesson, the source lines
 * each one covers, and the coverage map from resolved file path to covered lines.
 *
 * What `findCq` gets from outside is passed in: `resolve` is `path.resolve(documentPath,
 * "../", filePath)`, `readFile` gives a file's text (`None` when
 * reading it fails), and `cq` stands for running the cq tool (`None` for empty output).
 */
module FindCq {
  import opened Wrappers
  import opened JsStrings
  import opened JsRegex
  import opened JsArrays
  import ServerCalcEngine
  import CalcCropQuery

  /* ---------- the blocks: text.match(/(^|\n)\{.*(\n|\r|\r\n)<<.*\)/g) ---------- */

  /** The `{` a block match at `p` opens with: `^\{` at the start of the text, or `\n\{`. */
  function OpeningBrace(text: string, p: nat): (b: Option<nat>)
    ensures b.Some? ==> b.value < |text| && text[b.value] == '{'
    ensures b.Some? ==> (p == 0 && b.value == 0) || (b.value == p + 1 && text[p] == '\n')
  {
    if p == 0 && At(text, 0, "{") then Some(0)
    else if At(text, p, "\n{") then
      assert text[p..p + 2][1] == text[p + 1];
      Some(p + 1)
    else None
  }

  /** Where the `<<` starts after the `\n`, `\r` or `\r\n` at offset `r` that ends the options line. */
  function ReferenceStart(text: string, r: nat): (t: Option<nat>)
    ensures t.Some? ==> r < t.value && At(text, t.value, "<<")
  {
    if (At(text, r, "\n") || At(text, r, "\r")) && At(text, r + 1, "<<") then Some(r + 1)
    else if At(text, r, "\r\n") && At(text, r + 2, "<<") then Some(r + 2)
    else None
  }

  /**
   * `(\n|\r|\r\n)<<` matches at `r` exactly when one line break, `\n`, `\r` or `\r\n`, lies at
   * `r` and `<<` follows it; the `<<` starts right after that line break.
   */
  lemma ReferenceStartIs(text: string, r: nat)
    ensures var t := ReferenceStart(text, r);
      && (t.Some? ==> (t.value == r + 1 && (At(text, r, "\n") || At(text, r, "\r")))
                      || (t.value == r + 2 && At(text, r, "\r\n")))
      && (t.None? <==> !(((At(text, r, "\n") || At(text, r, "\r")) && At(text, r + 1, "<<"))
                         || (At(text, r, "\r\n") && At(text, r + 2, "<<"))))
  {
  }

  /** The end of the block match that starts at `p`, if one does. */
  function BlockEnd(text: string, p: nat): (e: Option<nat>)
    ensures e.Some? ==> OpeningBrace(text, p).Some? && p < e.value <= |text|
  {
    match OpeningBrace(text, p)
    case None => None
    case Some(b) =>
      match ReferenceStart(text, LineEnd(text, b + 1))
      case None => None
      case Some(t) =>
        match GreedyEnd(text, ")", t + 2)
        case None => None
        case Some(k) => Some(k + 1)
  }

  /** Where a block match starts, as the test `FirstWhere` scans with. */
  function BlockMatcher(text: string): nat -> bool {
    (j: nat) => BlockEnd(text, j).Some?
  }

  /** The leftmost offset at or after `from` where a block match starts. */
  function FirstBlockFrom(text: string, from: nat): (p: Option<nat>)
    ensures p.Some? ==> from <= p.value && BlockEnd(text, p.value).Some?
  {
    FirstWhere(BlockMatcher(text), from, |text|)
  }

  /** `FirstBlockFrom` finds the leftmost block match, and finds one whenever there is one. */
  lemma FirstBlockLeftmost(text: string, from: nat)
    ensures var p := FirstBlockFrom(text, from);
      && (p.Some? ==> forall j :: from <= j < p.value ==> BlockEnd(text, j).None?)
      && (p.None? ==> forall j :: from <= j ==> BlockEnd(text, j).None?)
  {
    var m := BlockMatcher(text);
    var p := FirstWhere(m, from, |text|);
    FirstWhereLeftmost(m, from, |text|);
    var end := if p.Some? then p.value else |text|;
    forall j | from <= j < end ensures BlockEnd(text, j).None? {
      assert !m(j);
    }
    if p.None? {
      forall j | |text| <= j ensures BlockEnd(text, j).None? {
        BlockEndInside(text, j);
      }
    }
  }

  /** A block match starts inside the text. */
  lemma BlockEndInside(text: string, p: nat)
    requires |text| <= p
    ensures BlockEnd(text, p).None?
  {
  }

  /** A block opens with `{`, after the `\n` it was matched with unless it starts the text. */
  predicate StartsBlock(block: string) {
    |block| > 0 && (block[0] == '{' || (|block| > 1 && block[0] == '\n' && block[1] == '{'))
  }

  /** The block matches from `from` on, left to right. */
  function Blocks(text: string, from: nat): (blocks: seq<string>)
    decreases |text| - from
    ensures forall k :: 0 <= k < |blocks| ==> StartsBlock(blocks[k])
  {
    match FirstBlockFrom(text, from)
    case None => []
    case Some(p) =>
      var e := BlockEnd(text, p).value;
      var block := text[p..e];
      assert StartsBlock(block) by {
        var b := OpeningBrace(text, p).value;
        assert block[b - p] == text[b];
      }
      [block] + Blocks(text, e)
  }

  /* ---------- splitting comma crop-queries (the reduce over the matches) ---------- */

  /** `block.match(/crop-query=\((.*)\)}/)?.[1]`. */
  function ParenthesisedQuery(block: string): Option<string> {
    GreedyCapture(block, "crop-query=(", ")}")
  }

  /** A block with a non-empty `crop-query=(...)` value becomes one block per comma-separated part. */
  function ExpandBlock(block: string): (blocks: seq<string>)
    ensures |blocks| >= 1
    ensures var q := ParenthesisedQuery(block);
      |blocks| == if q.None? || q.value == "" then 1 else multiset(q.value)[','] + 1
  {
    var q := ParenthesisedQuery(block);
    if q.None? || q.value == "" then [block]
    else
      var parts := Split(q.value, ',');
      SplitCount(q.value, ',');
      seq(|parts|, i requires 0 <= i < |parts| => ReplaceFirst(block, q.value, parts[i]))
  }

  /** The `reduce` over the block matches: each block's expansion, in block order. */
  function ExpandBlocks(blocks: seq<string>): (expanded: seq<string>)
    ensures |expanded| >= |blocks|
  {
    FlatMap(blocks, Expansion())
  }

  /** `ExpandBlock` as the reduce's callback. */
  function Expansion(): string -> seq<string> {
    block => ExpandBlock(block)
  }

  /** A single block expands to its own expansion. */
  lemma ExpandBlocksOne(block: string)
    ensures ExpandBlocks([block]) == ExpandBlock(block)
  {
    FlatMapOne(block, Expansion());
  }

  /** Expanding a concatenation of blocks concatenates their expansions. */
  lemma ExpandBlocksAppend(a: seq<string>, b: seq<string>)
    ensures ExpandBlocks(a + b) == ExpandBlocks(a) + ExpandBlocks(b)
  {
    FlatMapAppend(a, b, Expansion());
  }

  /* ---------- the lines one block covers ---------- */

  /** `Array.from({ length: hi - lo + 1 }, (_, i) => i + lo)`: the lines lo to hi, none when hi < lo. */
  function Range(lo: int, hi: int): (lines: seq<int>)
    decreases hi - lo
    ensures |lines| == if hi < lo then 0 else hi - lo + 1
    ensures forall i :: 0 <= i < |lines| ==> lines[i] == lo + i
  {
    if hi < lo then [] else Range(lo, hi - 1) + [hi]
  }

  /** `Array.from` over bounds that may be NaN (`None`): a NaN length makes no lines. */
  function RangeLines(lo: Option<int>, hi: Option<int>): seq<int> {
    if lo.Some? && hi.Some? then Range(lo.value, hi.value) else []
  }

  /** `Number(block.match(/name([0-9]*)/)?.[1])`: NaN when the option is absent, 0 when it has no digits. */
  function LineOption(block: string, name: string): (n: Option<nat>)
    ensures n.Some? <==> Includes(block, name)
    ensures n.Some? ==> n.value == DigitsValue(RunCapture(block, name, Digits).value)
  {
    match RunCapture(block, name, Digits)
    case None => None
    case Some(d) =>
      JsNumberOfDigits(d);
      JsNumber(d)
  }

  /** A number JavaScript treats as true: neither NaN nor 0. */
  predicate Truthy(n: Option<nat>) {
    n.Some? && n.value != 0
  }

  /** Both crop-start-line and crop-end-line are present and non-zero. */
  predicate HasExplicitRange(block: string) {
    Truthy(LineOption(block, "crop-start-line=")) && Truthy(LineOption(block, "crop-end-line="))
  }

  /** The relative path between `](` and the last `)` after it, or "". */
  function BlockFilePath(block: string): string {
    match GreedyCapture(block, "](", ")")
    case None => ""
    case Some(p) => p
  }

  /**
   * In a block `head](path)` whose `head` (the options line and `<<[title`) holds no `]`,
   * and whose path is on one line, the file path is exactly `path`.
   */
  lemma BlockFilePathOf(head: string, path: string)
    requires ']' !in head
    requires forall j :: 0 <= j < |path| ==> !IsLineBreak(path[j])
    ensures BlockFilePath(head + "](" + path + ")") == path
  {
    var s := head + "](" + path + ")";
    var i := |head|;
    assert s[i..i + 2] == "](";
    forall j | 0 <= j < i ensures !At(s, j, "](") {
      assert s[j] == head[j];
      assert s[j..j + 2][0] == s[j];
    }
    forall j | i + 2 <= j < |s| ensures !IsLineBreak(s[j]) {
      if j < |s| - 1 {
        assert s[j] == path[j - i - 2];
      }
    }
    assert s[|s| - 1..] == ")";
    GreedyCaptureOnLine(s, "](", ")", i);
    assert s[i + 2..|s| - 1] == path;
  }

  /** The lines the annotation covers, tagged with the file's resolved path. */
  datatype Chunk = Chunk(filePath: string, lines: seq<int>)

  /**
   * The chunk one block contributes: `Success(None)` for `undefined`, `Failure(path)`
   * when reading the referenced file throws.
   */
  function BlockChunk(block: string, resolve: string -> string, readFile: string -> Option<string>,
                      cq: (string, string, string) -> Option<(int, int)>): (r: Result<Option<Chunk>, string>)
    ensures r.Failure? <==> !HasExplicitRange(block) && !Includes(block, "crop-query=")
                            && readFile(resolve(BlockFilePath(block))).None?
    ensures r.Failure? ==> r.error == resolve(BlockFilePath(block))
    ensures r.Success? && r.value.Some? ==> r.value.value.filePath == resolve(BlockFilePath(block))
  {
    var filePath := BlockFilePath(block);
    var fullPath := resolve(filePath);
    var cropStartLine := LineOption(block, "crop-start-line=");
    var cropEndLine := LineOption(block, "crop-end-line=");
    if Truthy(cropStartLine) && Truthy(cropEndLine) then
      Success(Some(Chunk(fullPath, Range(cropStartLine.value, cropEndLine.value))))
    else if RunCapture(block, "crop-query=", DigitsOrDash).Some? then
      var lineRange := Split(block, '-');
      var hi := if |lineRange| > 1 then JsNumber(lineRange[1]) else None;
      Success(Some(Chunk(fullPath, RangeLines(JsNumber(lineRange[0]), hi))))
    else
      match readFile(fullPath)
      case None => Failure(fullPath)
      case Some(codeString) =>
        var numberOfLines := LineCount(codeString);
        if !Includes(block, "crop-query=") then
          Success(Some(Chunk(fullPath, Range(1, numberOfLines))))
        else
          var options := OptionsText(block);
          var extension := LastSegment(filePath, '.');
          var query := CalcCropQuery.CalcCropQuery(options, numberOfLines);
          match cq(query, fullPath, ServerCalcEngine.CalcEngine(extension))
          case None => Success(None)
          case Some((lo, hi)) => Success(Some(Chunk(fullPath, Range(lo, hi))))
  }

  /** `(block.match(/(\{.*\})/) || [])[1]`, with "" for `undefined` (`calcCropQuery` treats both alike). */
  function OptionsText(block: string): string {
    match GreedyFrom(block, "{", "}", 0)
    case None => ""
    case Some((i, k)) => block[i..k + 1]
  }

  /** The callback of `brokenDownMatches.map(...)`: one block's chunk, or the path it failed to read. */
  function ChunkOf(resolve: string -> string, readFile: string -> Option<string>,
                   cq: (string, string, string) -> Option<(int, int)>): string -> Result<Option<Chunk>, string>
  {
    block => BlockChunk(block, resolve, readFile, cq)
  }

  /** The chunks of all blocks in order; the first block whose file cannot be read aborts `findCq`. */
  function Chunks(blocks: seq<string>, chunkOf: string -> Result<Option<Chunk>, string>): (r: Result<seq<Option<Chunk>>, string>)
    ensures r.Success? ==> |r.value| == |blocks|
    ensures r.Success? ==> forall k :: 0 <= k < |blocks| ==> chunkOf(blocks[k]) == Success(r.value[k])
  {
    if blocks == [] then Success([])
    else
      match chunkOf(blocks[0])
      case Failure(e) => Failure(e)
      case Success(c) =>
        match Chunks(blocks[1..], chunkOf)
        case Failure(e) => Failure(e)
        case Success(cs) => Success([c] + cs)
  }

  /* ---------- merging: the reduce into { [filePath]: lines } ---------- */

  /** The chunks merged left to right, dropping `undefined` ones and appending lines per path. */
  function Merge(chunks: seq<Option<Chunk>>): (coverage: map<string, seq<int>>)
    decreases |chunks|
    ensures forall p :: p in coverage <==> exists k :: 0 <= k < |chunks| && chunks[k].Some? && chunks[k].value.filePath == p
  {
    if chunks == [] then map[]
    else
      var acc := Merge(chunks[..|chunks| - 1]);
      match chunks[|chunks| - 1]
      case None => acc
      case Some(c) => acc[c.filePath := (if c.filePath in acc then acc[c.filePath] else []) + c.lines]
  }

  /** `findCq(text, documentPath)`: the coverage map, or the failure that made it throw. */
  function FindCq(text: string, resolve: string -> string, readFile: string -> Option<string>,
                  cq: (string, string, string) -> Option<(int, int)>): (r: Result<map<string, seq<int>>, string>)
    ensures r.Failure? <==> exists b :: b in ExpandBlocks(Blocks(text, 0)) && BlockChunk(b, resolve, readFile, cq).Failure?
  {
    ChunksFailure(ExpandBlocks(Blocks(text, 0)), ChunkOf(resolve, readFile, cq));
    match Chunks(ExpandBlocks(Blocks(text, 0)), ChunkOf(resolve, readFile, cq))
    case Failure(e) => Failure(e)
    case Success(chunks) => Success(Merge(chunks))
  }

  /* ---------- what one block covers ---------- */

  /** A line lies in `Range(lo, hi)` exactly when it lies between the bounds. */
  lemma RangeMembership(lo: int, hi: int, x: int)
    ensures x in Range(lo, hi) <==> lo <= x <= hi
  {
    if lo <= x <= hi {
      assert Range(lo, hi)[x - lo] == x;
    }
  }

  /** Two non-zero line options cover exactly the lines from start to end, none when end < start. */
  lemma ExplicitRangeCovers(block: string, resolve: string -> string, readFile: string -> Option<string>,
                            cq: (string, string, string) -> Option<(int, int)>, x: int)
    requires HasExplicitRange(block)
    ensures var start, end := LineOption(block, "crop-start-line=").value, LineOption(block, "crop-end-line=").value;
      && BlockChunk(block, resolve, readFile, cq).Success?
      && BlockChunk(block, resolve, readFile, cq).value.Some?
      && var lines := BlockChunk(block, resolve, readFile, cq).value.value.lines;
      && (x in lines <==> start <= x <= end)
      && |lines| == (if end < start then 0 else end - start + 1)
  {
    RangeMembership(LineOption(block, "crop-start-line=").value, LineOption(block, "crop-end-line=").value, x);
  }

  /**
   * A block with no crop-query and no usable line range covers the whole file, lines 1 to
   * the number of "\n" in it (nothing for an empty file), or aborts when the file cannot be read.
   */
  lemma WholeFileCovers(block: string, resolve: string -> string, readFile: string -> Option<string>,
                        cq: (string, string, string) -> Option<(int, int)>, x: int)
    requires !HasExplicitRange(block) && !Includes(block, "crop-query=")
    ensures var fullPath := resolve(BlockFilePath(block));
      match readFile(fullPath)
      case None => BlockChunk(block, resolve, readFile, cq) == Failure(fullPath)
      case Some(code) =>
        var n := LineCount(code);
        && n == multiset(code)['\n']
        && BlockChunk(block, resolve, readFile, cq) == Success(Some(Chunk(fullPath, Range(1, n))))
        && (x in Range(1, n) <==> 1 <= x <= n)
        && (n == 0 ==> Range(1, n) == [])
  {
    var fullPath := resolve(BlockFilePath(block));
    if readFile(fullPath).Some? {
      var code := readFile(fullPath).value;
      RangeMembership(1, LineCount(code), x);
    }
  }

  /**
   * Every block that mentions `crop-query=` and has no usable line range covers nothing:
   * splitting it on "-" leaves a first piece that starts with `{`, which `Number` reads as NaN.
   */
  lemma {:induction false} CropQueryCoversNothing(block: string, resolve: string -> string,
                                                  readFile: string -> Option<string>,
                                                  cq: (string, string, string) -> Option<(int, int)>)
    requires StartsBlock(block) && Includes(block, "crop-query=") && !HasExplicitRange(block)
    ensures BlockChunk(block, resolve, readFile, cq) == Success(Some(Chunk(resolve(BlockFilePath(block)), [])))
  {
    var j := IndexOf(block, "crop-query=", 0).value;
    assert block[j + 4] == block[j..j + 11][4] == '-';
    var i := FirstIndex(block, '-');
    var k := if block[0] == '{' then 0 else 1;
    assert block[k] == '{';
    assert i != 0 && i != k;
    var first := block[..i];
    assert Split(block, '-')[0] == first;
    assert first[k] == '{';
    BraceIsNaN(first, k);
  }

  /** The cq tool is never run: what a block covers does not depend on it. */
  lemma EngineNeverRuns(block: string, resolve: string -> string, readFile: string -> Option<string>,
                        cq1: (string, string, string) -> Option<(int, int)>,
                        cq2: (string, string, string) -> Option<(int, int)>)
    ensures BlockChunk(block, resolve, readFile, cq1) == BlockChunk(block, resolve, readFile, cq2)
  {
  }

  /** Nor does the coverage of a whole lesson. */
  lemma {:induction false} FindCqIgnoresEngine(text: string, resolve: string -> string,
                                               readFile: string -> Option<string>,
                                               cq1: (string, string, string) -> Option<(int, int)>,
                                               cq2: (string, string, string) -> Option<(int, int)>)
    ensures FindCq(text, resolve, readFile, cq1) == FindCq(text, resolve, readFile, cq2)
  {
    forall block | true
      ensures ChunkOf(resolve, readFile, cq1)(block) == ChunkOf(resolve, readFile, cq2)(block)
    {
      EngineNeverRuns(block, resolve, readFile, cq1, cq2);
    }
    ChunksAgree(ExpandBlocks(Blocks(text, 0)), ChunkOf(resolve, readFile, cq1), ChunkOf(resolve, readFile, cq2));
  }

  /** Two callbacks that agree on every block give the same chunks. */
  lemma {:induction false} ChunksAgree(blocks: seq<string>, f: string -> Result<Option<Chunk>, string>,
                                       g: string -> Result<Option<Chunk>, string>)
    requires forall k :: 0 <= k < |blocks| ==> f(blocks[k]) == g(blocks[k])
    ensures Chunks(blocks, f) == Chunks(blocks, g)
  {
    if blocks != [] {
      assert forall k :: 1 <= k < |blocks| ==> blocks[1..][k - 1] == blocks[k];
      ChunksAgree(blocks[1..], f, g);
    }
  }

  /* ---------- splitting comma crop-queries ---------- */

  /** A block without a comma in its `crop-query=(...)` value passes through as it is. */
  lemma ExpandBlockWithoutComma(block: string)
    requires var q := ParenthesisedQuery(block); q.None? || ',' !in q.value
    ensures ExpandBlock(block) == [block]
  {
    var q := ParenthesisedQuery(block);
    if q.Some? && q.value != "" {
      ReplaceFirstSelf(block, q.value);
    }
  }

  /** The blocks a non-empty parenthesised value expands to. */
  lemma ExpandedBlock(block: string, q: string, i: nat)
    requires ParenthesisedQuery(block) == Some(q) && q != "" && i < |Split(q, ',')|
    ensures |ExpandBlock(block)| == |Split(q, ',')|
    ensures ExpandBlock(block)[i] == ReplaceFirst(block, q, Split(q, ',')[i])
  {
  }

  /**
   * A block whose `crop-query=(a,b,...)` value first occurs where it is captured becomes
   * one block per part, each with that value swapped for the part; the parts join back
   * into the value.
   */
  lemma ExpandBlockParts(block: string, m: nat, k: nat)
    requires GreedyFrom(block, "crop-query=(", ")}", 0) == Some((m, k))
    requires var q := block[m + 12..k]; q != "" && forall j :: 0 <= j < m + 12 ==> !At(block, j, q)
    ensures var q := block[m + 12..k]; var parts := Split(q, ',');
      && |ExpandBlock(block)| == |parts|
      && Join(parts, ',') == q
      && forall i :: 0 <= i < |parts| ==> ExpandBlock(block)[i] == block[..m + 12] + parts[i] + block[k..]
  {
    var q := block[m + 12..k];
    JoinSplit(q, ',');
    GreedyCaptureAt(block, "crop-query=(", ")}", m, k);
    assert At(block, m + 12, q);
    ExpandedParts(block, q, m + 12);
  }

  /** Each part of an expanded block is the block with the value at `c` swapped for that part. */
  lemma ExpandedParts(block: string, q: string, c: nat)
    requires ParenthesisedQuery(block) == Some(q) && q != ""
    requires At(block, c, q) && forall j :: 0 <= j < c ==> !At(block, j, q)
    ensures |ExpandBlock(block)| == |Split(q, ',')|
    ensures forall i :: 0 <= i < |Split(q, ',')| ==> ExpandBlock(block)[i] == block[..c] + Split(q, ',')[i] + block[c + |q|..]
  {
    forall i | 0 <= i < |Split(q, ',')|
      ensures ExpandBlock(block)[i] == block[..c] + Split(q, ',')[i] + block[c + |q|..]
    {
      ExpandedBlock(block, q, i);
      ReplaceFirstAt(block, q, Split(q, ',')[i], c);
    }
  }

  /** Replacing a value that does not occur at the first two positions keeps the opening `{`. */
  lemma ReplaceKeepsStart(block: string, q: string, part: string)
    requires StartsBlock(block) && !At(block, 0, q) && !At(block, 1, q)
    ensures StartsBlock(ReplaceFirst(block, q, part))
  {
    match IndexOf(block, q, 0)
    case None =>
    case Some(c) =>
      assert c >= 2;
      var b := block[..c] + part + block[c + |q|..];
      assert b[0] == block[0] && b[1] == block[1];
  }

  /** Splitting keeps the opening `{` of a block when the value does not also start there. */
  lemma ExpandKeepsStart(block: string)
    requires StartsBlock(block)
    requires var q := ParenthesisedQuery(block);
      q.Some? && q.value != "" ==> !At(block, 0, q.value) && !At(block, 1, q.value)
    ensures forall i :: 0 <= i < |ExpandBlock(block)| ==> StartsBlock(ExpandBlock(block)[i])
  {
    var q := ParenthesisedQuery(block);
    if q.Some? && q.value != "" {
      forall i | 0 <= i < |ExpandBlock(block)| ensures StartsBlock(ExpandBlock(block)[i]) {
        ExpandedBlock(block, q.value, i);
        ReplaceKeepsStart(block, q.value, Split(q.value, ',')[i]);
      }
    }
  }

  /* ---------- merging ---------- */

  /** The lines a chunk contributes to `path`. */
  function ChunkLines(c: Option<Chunk>, path: string): seq<int> {
    if c.Some? && c.value.filePath == path then c.value.lines else []
  }

  /** The lines of all chunks for `path`, in order. */
  function LinesFor(chunks: seq<Option<Chunk>>, path: string): seq<int> {
    if chunks == [] then [] else ChunkLines(chunks[0], path) + LinesFor(chunks[1..], path)
  }

  /** Some chunk (not `undefined`) is for `path`. */
  predicate Mentions(chunks: seq<Option<Chunk>>, path: string) {
    exists i :: 0 <= i < |chunks| && chunks[i].Some? && chunks[i].value.filePath == path
  }

  lemma {:induction false} LinesForAppend(chunks: seq<Option<Chunk>>, c: Option<Chunk>, path: string)
    ensures LinesFor(chunks + [c], path) == LinesFor(chunks, path) + ChunkLines(c, path)
  {
    if chunks != [] {
      assert (chunks + [c])[1..] == chunks[1..] + [c];
      LinesForAppend(chunks[1..], c, path);
    } else {
      assert LinesFor([c][1..], path) == [];
    }
  }

  /**
   * The merge has an entry for exactly the paths some chunk names, holding all their
   * lines in chunk order, duplicates included.
   */
  lemma {:induction false} MergeIsConcatenation(chunks: seq<Option<Chunk>>, path: string)
    decreases |chunks|
    ensures path in Merge(chunks) <==> Mentions(chunks, path)
    ensures path in Merge(chunks) ==> Merge(chunks)[path] == LinesFor(chunks, path)
  {
    if chunks != [] {
      var init := chunks[..|chunks| - 1];
      var c := chunks[|chunks| - 1];
      MergeIsConcatenation(init, path);
      assert init + [c] == chunks;
      LinesForAppend(init, c, path);
      if Mentions(init, path) {
        var i :| 0 <= i < |init| && init[i].Some? && init[i].value.filePath == path;
        assert chunks[i] == init[i];
      }
      if Mentions(chunks, path) && !(c.Some? && c.value.filePath == path) {
        var i :| 0 <= i < |chunks| && chunks[i].Some? && chunks[i].value.filePath == path;
        assert i < |init| && init[i] == chunks[i];
      }
      if path !in Merge(init) {
        assert LinesFor(init, path) == [] by {
          NoLinesWithoutMention(init, path);
        }
      }
    }
  }

  lemma {:induction false} NoLinesWithoutMention(chunks: seq<Option<Chunk>>, path: string)
    requires !Mentions(chunks, path)
    ensures LinesFor(chunks, path) == []
  {
    if chunks != [] {
      assert !Mentions(chunks[1..], path) by {
        forall i | 0 <= i < |chunks[1..]| ensures !(chunks[1..][i].Some? && chunks[1..][i].value.filePath == path) {
          assert chunks[1..][i] == chunks[i + 1];
        }
      }
      NoLinesWithoutMention(chunks[1..], path);
    }
  }

  /** A line is covered for `path` exactly when some chunk for `path` lists it. */
  lemma {:induction false} CoveredIff(chunks: seq<Option<Chunk>>, path: string, x: int)
    ensures x in LinesFor(chunks, path)
        <==> exists i :: 0 <= i < |chunks| && chunks[i].Some? && chunks[i].value.filePath == path
                         && x in chunks[i].value.lines
  {
    if chunks != [] {
      CoveredIff(chunks[1..], path, x);
      if x in LinesFor(chunks[1..], path) {
        var i :| 0 <= i < |chunks[1..]| && chunks[1..][i].Some? && chunks[1..][i].value.filePath == path
                 && x in chunks[1..][i].value.lines;
        assert chunks[i + 1] == chunks[1..][i];
      }
      if exists i :: 0 <= i < |chunks| && chunks[i].Some? && chunks[i].value.filePath == path
                     && x in chunks[i].value.lines {
        var i :| 0 <= i < |chunks| && chunks[i].Some? && chunks[i].value.filePath == path
                 && x in chunks[i].value.lines;
        if i > 0 {
          assert chunks[1..][i - 1] == chunks[i];
        }
      }
    }
  }

  /** Merging is additive: adding a chunk never removes a path or a line, it only appends. */
  lemma MergeOnlyAdds(chunks: seq<Option<Chunk>>, c: Option<Chunk>, path: string)
    requires path in Merge(chunks)
    ensures path in Merge(chunks + [c])
    ensures Merge(chunks)[path] <= Merge(chunks + [c])[path]
  {
    assert (chunks + [c])[..|chunks|] == chunks;
  }

  /**
   * Coverage as a set is idempotent and order-blind: merging the chunks twice, or in
   * another order, covers the same lines of the same files.
   */
  lemma MergeTwiceSameCoverage(chunks: seq<Option<Chunk>>, path: string, x: int)
    ensures path in Merge(chunks + chunks) <==> path in Merge(chunks)
    ensures path in Merge(chunks) ==> (x in Merge(chunks + chunks)[path] <==> x in Merge(chunks)[path])
  {
    MergeIsConcatenation(chunks, path);
    MergeIsConcatenation(chunks + chunks, path);
    CoveredIff(chunks, path, x);
    CoveredIff(chunks + chunks, path, x);
    if Mentions(chunks + chunks, path) {
      var i :| 0 <= i < |chunks + chunks| && (chunks + chunks)[i].Some? && (chunks + chunks)[i].value.filePath == path;
      var j := if i < |chunks| then i else i - |chunks|;
      assert chunks[j] == (chunks + chunks)[i];
    }
    if Mentions(chunks, path) {
      var i :| 0 <= i < |chunks| && chunks[i].Some? && chunks[i].value.filePath == path;
      assert (chunks + chunks)[i] == chunks[i];
    }
    if x in LinesFor(chunks + chunks, path) {
      var i :| 0 <= i < |chunks + chunks| && (chunks + chunks)[i].Some? && (chunks + chunks)[i].value.filePath == path
               && x in (chunks + chunks)[i].value.lines;
      var j := if i < |chunks| then i else i - |chunks|;
      assert chunks[j] == (chunks + chunks)[i];
    }
    if x in LinesFor(chunks, path) {
      var i :| 0 <= i < |chunks| && chunks[i].Some? && chunks[i].value.filePath == path && x in chunks[i].value.lines;
      assert (chunks + chunks)[i] == chunks[i];
    }
  }

  /** Duplicates are kept: the same chunk merged twice lists its lines twice. */
  lemma MergeKeepsDuplicates(c: Chunk)
    ensures Merge([Some(c), Some(c)]) == map[c.filePath := c.lines + c.lines]
  {
    assert [Some(c)][..0] == [];
    assert Merge([Some(c)]) == map[c.filePath := [] + c.lines];
    assert [] + c.lines == c.lines;
    assert [Some(c), Some(c)][..1] == [Some(c)];
  }

  /* ---------- the coverage map of a whole lesson ---------- */

  /** Some block's callback fails exactly when the chunks fail. */
  lemma {:induction false} ChunksFailure(blocks: seq<string>, chunkOf: string -> Result<Option<Chunk>, string>)
    ensures Chunks(blocks, chunkOf).Failure? <==> exists k :: 0 <= k < |blocks| && chunkOf(blocks[k]).Failure?
  {
    if blocks != [] {
      ChunksFailure(blocks[1..], chunkOf);
      if chunkOf(blocks[0]).Success? {
        assert forall k :: 1 <= k < |blocks| ==> blocks[1..][k - 1] == blocks[k];
      }
    }
  }

  /**
   * When every block yields a chunk, a path has an entry in the merged map exactly when
   * some block's chunk is for it, and a line is covered exactly when one of those holds it.
   */
  lemma ChunksCoverage(blocks: seq<string>, chunkOf: string -> Result<Option<Chunk>, string>, path: string, x: int)
    requires Chunks(blocks, chunkOf).Success?
    ensures var coverage := Merge(Chunks(blocks, chunkOf).value);
      && (path in coverage <==> exists k :: 0 <= k < |blocks| && ChunkFor(chunkOf(blocks[k]), path))
      && (path in coverage ==> (x in coverage[path] <==>
            exists k :: 0 <= k < |blocks| && ChunkFor(chunkOf(blocks[k]), path)
                        && x in chunkOf(blocks[k]).value.value.lines))
  {
    var chunks := Chunks(blocks, chunkOf).value;
    MergeIsConcatenation(chunks, path);
    CoveredIff(chunks, path, x);
    assert forall k :: 0 <= k < |blocks| ==>
      (ChunkFor(chunkOf(blocks[k]), path) <==> chunks[k].Some? && chunks[k].value.filePath == path);
  }

  /**
   * What `findCq` covers, block by block: when it does not throw, a path has an entry
   * exactly when some expanded block's chunk is for that path, and a line is covered
   * exactly when one of those chunks holds it.
   */
  lemma FindCqCoverage(text: string, resolve: string -> string, readFile: string -> Option<string>,
                       cq: (string, string, string) -> Option<(int, int)>, path: string, x: int)
    requires FindCq(text, resolve, readFile, cq).Success?
    ensures var blocks := ExpandBlocks(Blocks(text, 0)); var coverage := FindCq(text, resolve, readFile, cq).value;
      && (path in coverage <==> exists k :: 0 <= k < |blocks| && ChunkFor(BlockChunk(blocks[k], resolve, readFile, cq), path))
      && (path in coverage ==> (x in coverage[path] <==>
            exists k :: 0 <= k < |blocks| && ChunkFor(BlockChunk(blocks[k], resolve, readFile, cq), path)
                        && x in BlockChunk(blocks[k], resolve, readFile, cq).value.value.lines))
  {
    var blocks := ExpandBlocks(Blocks(text, 0));
    var chunkOf := ChunkOf(resolve, readFile, cq);
    ChunksFailure(blocks, chunkOf);
    ChunksCoverage(blocks, chunkOf, path, x);
    assert forall k :: 0 <= k < |blocks| ==> chunkOf(blocks[k]) == BlockChunk(blocks[k], resolve, readFile, cq);
  }

  /** The block's chunk is a real chunk (not `undefined`) for `path`. */
  predicate ChunkFor(r: Result<Option<Chunk>, string>, path: string) {
    r.Success? && r.value.Some? && r.value.value.filePath == path
  }
}
