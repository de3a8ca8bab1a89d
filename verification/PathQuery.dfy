/** FindElements on a path text: compiled, then evaluated (etree/etree.go:497-507; etree/path.go:74-98). */
module PathQuery {
  import opened Basics
  import opened ETree
  import opened PathModel
  import opened PathCompiler
  import PathEngine
  import PathRoundTrip

  /**
   Every path that compiles is evaluated, and the answer is the meaning of the compiled path.  One
   that is refused or makes the compiler panic makes the query panic (None).
   */
  method FindElements(e: Element, path: string, ghost st: Store<Element>, ghost rank: map<Element, nat>,
                      ghost leaves: set<Leaf>)
    returns (r: Option<seq<Element>>)
    requires e in st && PathEngine.Pictured(st, leaves) && Ranked(st, rank)
    ensures r.Some? <==> CompilePath(path).Parsed?
    ensures r.Some? ==> r.value == Query(st, CompilePath(path).value, e) && NoDup(r.value)
  {
    var compiler := new Compiler();
    var compiled, panicked := compiler.RunPath(path);
    if panicked || compiler.err != "" {
      return None;
    }
    PathRoundTrip.CompiledHasSegments(path);
    var found := PathEngine.FindElements(e, compiled, st, rank, leaves);
    return Some(found);
  }
}
