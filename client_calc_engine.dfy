/** The editor client's table of cq parser engines by file extension (client/src/calcEngine.ts). */
module ClientCalcEngine {
  import ServerCalcEngine

  /** The engine the client hands to cq for a file extension; unknown extensions get "treesitter". */
  function CalcEngine(ext: string): (engine: string)
    ensures engine in {"typescript", "babylon", "treesitter"}
    ensures engine != "auto"
  {
    if ext == "tsx" then "typescript"
    else if ext == "ts" then "typescript"
    else if ext == "js" then "babylon"
    else if ext == "jsx" then "babylon"
    else if ext == "json" then "treesitter"
    else if ext == "css" then "treesitter"
    else "treesitter"
  }

  /** The client maps TypeScript to typescript and JavaScript to babylon. */
  lemma ScriptExtensions()
    ensures CalcEngine("ts") == "typescript" && CalcEngine("tsx") == "typescript"
    ensures CalcEngine("js") == "babylon" && CalcEngine("jsx") == "babylon"
  {
  }

  /** JSON, CSS and every other extension go to tree-sitter. */
  lemma TreeSitterByDefault(ext: string)
    requires ext != "ts" && ext != "tsx" && ext != "js" && ext != "jsx"
    ensures CalcEngine(ext) == "treesitter"
  {
  }

  /** The two tables agree exactly on the five extensions they both list, and nowhere else. */
  lemma AgreesWithServer(ext: string)
    ensures CalcEngine(ext) == ServerCalcEngine.CalcEngine(ext)
        <==> ext in {"ts", "tsx", "js", "jsx", "json"}
  {
  }
}
