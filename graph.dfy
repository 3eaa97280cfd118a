/** The dependency graph `build_dependency_graph_bfs` returns: a Python dict from package name
  * to its list of dependencies, whose keys keep their insertion order. */
module DependencyGraph {
  import opened Collections

  datatype Graph = Graph(keys: seq<string>, deps: map<string, seq<string>>)
  {
    /** The keys in insertion order are exactly the keys of the map, each once. */
    ghost predicate Valid() {
      NoDups(keys) && Elems(keys) == deps.Keys
    }

    /** `graph[name] = list`: a new key goes to the end, an existing one keeps its place. */
    function Put(name: string, list: seq<string>): (g: Graph)
      requires Valid()
      ensures g.Valid()
      ensures g.deps == deps[name := list]
      ensures name in deps ==> g.keys == keys
      ensures name !in deps ==> g.keys == keys + [name]
    {
      if name in deps then Graph(keys, deps[name := list])
      else
        ElemsConcat(keys, [name]);
        Graph(keys + [name], deps[name := list])
    }
  }

  /** `{root: initial}`. */
  function Single(root: string, initial: seq<string>): (g: Graph)
    ensures g.Valid() && g.deps == map[root := initial] && g.keys == [root]
  {
    Graph([root], map[root := initial])
  }
}
