/** The language server's table of cq parser engines by file extension (server/src/calcEngine.ts). */
module ServerCalcEngine {

  /** The engine the server hands to cq for a file extension; unknown extensions get "auto". */
  function CalcEngine(ext: string): (engine: string)
    ensures engine in {"typescript", "babylon", "treesitter", "auto"}
  {
    if ext == "tsx" then "typescript"
    else if ext == "ts" then "typescript"
    else if ext == "js" then "babylon"
    else if ext == "jsx" then "babylon"
    else if ext == "json" then "treesitter"
    else "auto"
  }

  /** TypeScript sources go to the typescript engine. */
  lemma TypeScriptExtensions()
    ensures CalcEngine("ts") == "typescript" && CalcEngine("tsx") == "typescript"
  {
  }

  /** JavaScript sources go to the babylon engine. */
  lemma JavaScriptExtensions()
    ensures CalcEngine("js") == "babylon" && CalcEngine("jsx") == "babylon"
  {
  }

  /** JSON goes to tree-sitter. */
  lemma JsonExtension()
    ensures CalcEngine("json") == "treesitter"
  {
  }

  /** Every other extension, css and upper-case spellings included, falls back to "auto". */
  lemma OtherExtensionsAreAuto(ext: string)
    requires ext != "ts" && ext != "tsx" && ext != "js" && ext != "jsx" && ext != "json"
    ensures CalcEngine(ext) == "auto"
    ensures CalcEngine("css") == "auto" && CalcEngine("TS") == "auto"
  {
  }
}
