/** The module loader the generated bundle carries (`require` and `localRequire` in the
    template of `generateCode`): `require(module)` runs `graph[module].code` with a
    brand-new empty `exports` object and a `localRequire` bound to `module`, and
    `localRequire(relativePath)` maps the specifier through `module`'s dependency map
    and calls `require` on the result. Running the module code itself (`eval`) is not
    modelled: an activation records which code runs and the `exports` it starts from. */
module Loader {

  import opened Wrappers
  import opened Analyser
  import opened GraphBuilder

  /** Why a lookup of the loader cannot proceed: `graph[module]` is `undefined`, or the
      specifier is not a property of the requiring module's dependency map. */
  datatype LoadError =
    | ModuleNotFound(path: string)
    | SpecifierNotFound(path: string, specifier: string)

  /** One call of `require`: the module whose code runs, that code, and the `exports`
      object handed to it before it runs. */
  datatype Activation = Activation(path: string, code: string, exports: map<string, string>)

  /** `require(module)`: every call starts from a fresh, empty `exports`; nothing is cached. */
  function Require(graph: map<string, GraphEntry>, path: string): (r: Result<Activation, LoadError>)
    ensures r.Success? <==> path in graph
    ensures r.Failure? ==> r.error == ModuleNotFound(path)
    ensures r.Success? ==>
      && r.value.path == path
      && r.value.code == graph[path].code
      && r.value.exports == map[]
  {
    if path in graph then Success(Activation(path, graph[path].code, map[]))
    else Failure(ModuleNotFound(path))
  }

  /** `localRequire(relativePath)` inside `require(module)`: the specifier is looked up
      in `module`'s own dependency map and the path found there is required. */
  function LocalRequire(graph: map<string, GraphEntry>, path: string, specifier: string)
    : (r: Result<Activation, LoadError>)
    requires path in graph
    ensures specifier !in graph[path].dependencies.table ==> r == Failure(SpecifierNotFound(path, specifier))
    ensures specifier in graph[path].dependencies.table ==>
      r == Require(graph, graph[path].dependencies.table[specifier])
    ensures r.Success? ==> r.value.path in graph && r.value.exports == map[]
  {
    var deps := graph[path].dependencies.table;
    if specifier in deps then Require(graph, deps[specifier])
    else Failure(SpecifierNotFound(path, specifier))
  }

  /** A closed graph is exactly one in which `localRequire` succeeds for every
      specifier a module lists. */
  lemma {:induction false} LocalRequireTotal(graph: map<string, GraphEntry>)
    ensures Closed(graph) <==>
      forall m, s :: m in graph && s in graph[m].dependencies.table ==> LocalRequire(graph, m, s).Success?
  {
    if Closed(graph) {
      forall m, s | m in graph && s in graph[m].dependencies.table
        ensures LocalRequire(graph, m, s).Success?
      {
        assert graph[m].dependencies.table[s] in graph;
      }
    }
    if forall m, s :: m in graph && s in graph[m].dependencies.table ==> LocalRequire(graph, m, s).Success? {
      forall m, s | m in graph && s in graph[m].dependencies.table
        ensures graph[m].dependencies.table[s] in graph
      {
        assert LocalRequire(graph, m, s).Success?;
      }
    }
  }

  /** The activation reached by calling `localRequire` with each specifier of `specifiers`
      in turn, each from inside the module the previous call activated. */
  function Follow(graph: map<string, GraphEntry>, path: string, specifiers: seq<string>)
    : Result<Activation, LoadError>
    requires path in graph
    decreases |specifiers|
  {
    if specifiers == [] then Require(graph, path)
    else
      match LocalRequire(graph, path, specifiers[0])
      case Failure(e) => Failure(e)
      case Success(a) => Follow(graph, a.path, specifiers[1..])
  }

  /** In a closed graph no chain of `localRequire` calls reaches a missing module: the
      only way a chain stops is a specifier the current module does not list. */
  lemma {:induction false} ClosedNeverMissesModule(graph: map<string, GraphEntry>, path: string,
                                                   specifiers: seq<string>)
    requires Closed(graph) && path in graph
    ensures Follow(graph, path, specifiers).Failure? ==> Follow(graph, path, specifiers).error.SpecifierNotFound?
    decreases |specifiers|
  {
    if specifiers != [] {
      var s := specifiers[0];
      if s in graph[path].dependencies.table {
        assert graph[path].dependencies.table[s] in graph;
        ClosedNeverMissesModule(graph, graph[path].dependencies.table[s], specifiers[1..]);
      }
    }
  }

  /** A chain of specifiers every one of which the current module lists, as far as the
      chain stays inside the graph. */
  predicate Listed(graph: map<string, GraphEntry>, path: string, specifiers: seq<string>)
    requires path in graph
    decreases |specifiers|
  {
    specifiers != [] ==>
      && specifiers[0] in graph[path].dependencies.table
      && var next := graph[path].dependencies.table[specifiers[0]];
         next in graph ==> Listed(graph, next, specifiers[1..])
  }

  /** In a closed graph a chain of listed specifiers always loads. */
  lemma {:induction false} ClosedListedLoads(graph: map<string, GraphEntry>, path: string, specifiers: seq<string>)
    requires Closed(graph) && path in graph && Listed(graph, path, specifiers)
    ensures Follow(graph, path, specifiers).Success?
    ensures Follow(graph, path, specifiers).value.exports == map[]
    decreases |specifiers|
  {
    if specifiers != [] {
      var next := graph[path].dependencies.table[specifiers[0]];
      assert next in graph;
      ClosedListedLoads(graph, next, specifiers[1..]);
    }
  }

  /** In a graph whose entries are their keys' analyses, `localRequire(s)` from module `m`
      activates `'./' + join(dirname(m), s)`, the path the analyser resolved. */
  lemma LocalRequireResolves(host: Host, graph: map<string, GraphEntry>, m: string, s: string)
    requires Closed(graph) && m in graph
    requires Analyse(host, m).Success? && graph[m] == EntryOf(Analyse(host, m).value)
    requires s in graph[m].dependencies.table
    ensures LocalRequire(graph, m, s).Success?
    ensures LocalRequire(graph, m, s).value.path == Resolve(host, m, s)
  {
    assert graph[m].dependencies.table[s] in graph;
  }
}
