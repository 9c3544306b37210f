/** The graph builder of bundler.js (`makeDependenciesGraph`): a worklist array that
    starts with the entry module's record and grows while it is walked by index, one
    freshly analysed record per dependency of each record it reaches, with no check
    for paths already seen; then a fold of that array into an object keyed by
    file name, where a later record overwrites an earlier one with the same name. */
module GraphBuilder {

  import opened Wrappers
  import opened Analyser
  import opened ImportTree

  /** What analysing `p` contributes to the worklist: the paths of its dependency map
      in key order, or the error that aborts the build. */
  function Step(host: Host, p: string): Result<seq<string>, Error> {
    match Analyse(host, p)
    case Success(r) => Success(Paths(r.dependencies))
    case Failure(e) => Failure(e)
  }

  /** The import relation the analyser reveals. */
  function ImportsOf(host: Host): Relation {
    p => Step(host, p)
  }

  /** The file names of a run of records, in order. */
  function Names(rs: seq<ModuleRecord>): seq<string> {
    seq(|rs|, k requires 0 <= k < |rs| => rs[k].filename)
  }

  /** The paths that processing the records `rs`, in order, pushes onto the worklist. */
  function Imports(rs: seq<ModuleRecord>): seq<string> {
    if rs == [] then [] else Imports(rs[..|rs| - 1]) + Paths(rs[|rs| - 1].dependencies)
  }

  /** `r` is what analysing its own file name yields. */
  ghost predicate Analysed(host: Host, r: ModuleRecord) {
    Analyse(host, r.filename) == Success(r)
  }

  /** The state of the worklist after `i` iterations: every record is the analysis of
      its own file name, and the names are the entry followed by everything the first
      `i` records pushed, in order. */
  ghost predicate WorklistInv(host: Host, entry: string, arr: seq<ModuleRecord>, i: nat) {
    && i <= |arr|
    && (forall k {:trigger Analysed(host, arr[k])} :: 0 <= k < |arr| ==> Analysed(host, arr[k]))
    && Names(arr) == [entry] + Imports(arr[..i])
  }

  /** The loop has stopped: every record has been processed. */
  ghost predicate Done(host: Host, entry: string, arr: seq<ModuleRecord>) {
    WorklistInv(host, entry, arr, |arr|)
  }

  /** What record `j` pushes is part of what the whole run pushes. */
  lemma {:induction false} PathsInImports(rs: seq<ModuleRecord>, j: nat, q: string)
    requires j < |rs| && q in Paths(rs[j].dependencies)
    ensures q in Imports(rs)
    decreases |rs|
  {
    if j < |rs| - 1 {
      assert rs[..|rs| - 1][j] == rs[j];
      PathsInImports(rs[..|rs| - 1], j, q);
    }
  }

  /** Processing one record: the inner loop over the keys of its dependency map, which
      analyses the path stored under each key and pushes the record. The array only
      grows; one record is appended per key, in key order, each the analysis of that
      key's path; the first failing analysis aborts. */
  method PushImports(host: Host, arr: seq<ModuleRecord>, item: ModuleRecord)
    returns (res: Result<seq<ModuleRecord>, Error>)
    ensures var ps := Paths(item.dependencies);
      res.Success? <==> forall t :: 0 <= t < |ps| ==> Analyse(host, ps[t]).Success?
    ensures var ps := Paths(item.dependencies);
      res.Success? ==>
        && |res.value| == |arr| + |ps|
        && res.value[..|arr|] == arr
        && forall t :: 0 <= t < |ps| ==> Analyse(host, ps[t]) == Success(res.value[|arr| + t])
    ensures var ps := Paths(item.dependencies);
      res.Failure? ==> exists t :: (
        && 0 <= t < |ps|
        && Analyse(host, ps[t]) == Failure(res.error)
        && forall u :: 0 <= u < t ==> Analyse(host, ps[u]).Success?)
  {
    var deps := item.dependencies;
    ghost var ps := Paths(deps);
    var out := arr;
    for j := 0 to |deps.order|
      invariant |out| == |arr| + j && out[..|arr|] == arr
      invariant forall t :: 0 <= t < j ==> Analyse(host, ps[t]) == Success(out[|arr| + t])
    {
      var r := ModuleAnalyser(host, deps.table[deps.order[j]]);
      assert deps.table[deps.order[j]] == ps[j];
      if r.Failure? {
        return Failure(r.error);
      }
      out := out + [r.value];
    }
    return Success(out);
  }

  lemma NamesSlice(rs: seq<ModuleRecord>, i: nat)
    requires i <= |rs|
    ensures Names(rs[i..]) == Names(rs)[i..]
  {
  }

  /** After a step the names are the old names followed by the pushed paths. */
  lemma StepNames(host: Host, arr: seq<ModuleRecord>, ps: seq<string>, next: seq<ModuleRecord>)
    requires |next| == |arr| + |ps| && next[..|arr|] == arr
    requires forall t :: 0 <= t < |ps| ==> Analyse(host, ps[t]) == Success(next[|arr| + t])
    ensures Names(next) == Names(arr) + ps
  {
    forall k | 0 <= k < |next|
      ensures Names(next)[k] == (Names(arr) + ps)[k]
    {
      if k < |arr| {
        assert next[..|arr|][k] == next[k];
      } else {
        assert Analyse(host, ps[k - |arr|]) == Success(next[k]);
      }
    }
  }

  /** After a step every record is still the analysis of its own file name. */
  lemma StepRecords(host: Host, arr: seq<ModuleRecord>, ps: seq<string>, next: seq<ModuleRecord>)
    requires forall k {:trigger Analysed(host, arr[k])} :: 0 <= k < |arr| ==> Analysed(host, arr[k])
    requires |next| == |arr| + |ps| && next[..|arr|] == arr
    requires forall t :: 0 <= t < |ps| ==> Analyse(host, ps[t]) == Success(next[|arr| + t])
    ensures forall k {:trigger Analysed(host, next[k])} :: 0 <= k < |next| ==> Analysed(host, next[k])
  {
    forall k | 0 <= k < |next|
      ensures Analysed(host, next[k])
    {
      if k < |arr| {
        assert next[..|arr|][k] == next[k];
        assert Analysed(host, arr[k]);
      } else {
        assert Analyse(host, ps[k - |arr|]) == Success(next[k]);
      }
    }
  }

  lemma StepImports(arr: seq<ModuleRecord>, i: nat, next: seq<ModuleRecord>)
    requires i < |arr| <= |next| && next[..|arr|] == arr
    ensures Imports(next[..i + 1]) == Imports(arr[..i]) + Paths(arr[i].dependencies)
  {
    assert next[..i + 1] == arr[..i + 1] by {
      assert next[..|arr|][..i + 1] == next[..i + 1];
    }
    assert arr[..i + 1][..i] == arr[..i];
  }

  /** One step of the worklist loop keeps its invariant. */
  lemma StepPreservesInv(host: Host, entry: string, arr: seq<ModuleRecord>, i: nat, next: seq<ModuleRecord>)
    requires WorklistInv(host, entry, arr, i) && i < |arr|
    requires var ps := Paths(arr[i].dependencies);
      && |next| == |arr| + |ps| && next[..|arr|] == arr
      && forall t :: 0 <= t < |ps| ==> Analyse(host, ps[t]) == Success(next[|arr| + t])
    ensures WorklistInv(host, entry, next, i + 1)
    ensures Names(next[i + 1..]) == Names(arr[i + 1..]) + Paths(arr[i].dependencies)
  {
    var x := Imports(arr[..i]);
    var ps := Paths(arr[i].dependencies);
    StepNames(host, arr, ps, next);
    StepImports(arr, i, next);
    StepRecords(host, arr, ps, next);
    assert ([entry] + x) + ps == [entry] + (x + ps);
    NamesSlice(next, i + 1);
    NamesSlice(arr, i + 1);
    assert (Names(arr) + ps)[i + 1..] == Names(arr)[i + 1..] + ps;
  }

  /** A finished worklist names every module of the import tree, so all of them analysed. */
  lemma {:induction false} DoneImpliesTreeOk(host: Host, entry: string, arr: seq<ModuleRecord>, d: nat, k: nat)
    requires Done(host, entry, arr) && k < |arr| && FiniteImports(ImportsOf(host), arr[k].filename, d)
    ensures TreeOk(ImportsOf(host), arr[k].filename, d)
    decreases d
  {
    var rel := ImportsOf(host);
    var p := arr[k].filename;
    assert Analysed(host, arr[k]);
    assert rel(p) == Success(Paths(arr[k].dependencies));
    assert Children(rel(p)) == rel(p).value;
    assert arr[..|arr|] == arr;
    forall q | q in rel(p).value
      ensures TreeOk(rel, q, d - 1)
    {
      assert FiniteImports(rel, q, d - 1);
      PathsInImports(arr, k, q);
      assert q in Names(arr);
      var k' :| 0 <= k' < |arr| && Names(arr)[k'] == q;
      assert arr[k'].filename == q;
      DoneImpliesTreeOk(host, entry, arr, d - 1, k');
    }
  }

  /** What the loop knows about the records still to be processed, `arr[i..]`: their
      import trees are bounded, together with the `i` records processed they account
      for every import chain from the entry, and they are error-free when the entry's
      tree is. */
  ghost predicate PendingInv(rel: Relation, entry: string, arr: seq<ModuleRecord>, i: nat, bound: nat)
    requires i <= |arr|
  {
    && FiniteImports(rel, entry, bound)
    && (forall q :: q in Names(arr[i..]) ==> FiniteImports(rel, q, bound))
    && i + SumCounts(rel, Names(arr[i..]), bound) == PathCount(rel, entry, bound)
    && (TreeOk(rel, entry, bound) ==> forall q :: q in Names(arr[i..]) ==> TreeOk(rel, q, bound))
  }

  /** The worklist holding only the entry's record satisfies both parts of the invariant. */
  lemma LoopStart(host: Host, entry: string, r: ModuleRecord, bound: nat)
    requires FiniteImports(ImportsOf(host), entry, bound) && Analyse(host, entry) == Success(r)
    ensures WorklistInv(host, entry, [r], 0) && PendingInv(ImportsOf(host), entry, [r], 0, bound)
  {
    var arr := [r];
    assert Analysed(host, arr[0]);
    assert Names(arr[0..]) == [entry];
    assert [entry][1..] == [];
  }

  /** Processing record `i` successfully keeps both parts of the invariant and leaves one
      import chain fewer to visit. */
  lemma LoopStep(host: Host, entry: string, arr: seq<ModuleRecord>, i: nat, next: seq<ModuleRecord>, bound: nat)
    requires WorklistInv(host, entry, arr, i) && i < |arr| && PendingInv(ImportsOf(host), entry, arr, i, bound)
    requires var ps := Paths(arr[i].dependencies);
      && |next| == |arr| + |ps| && next[..|arr|] == arr
      && forall t :: 0 <= t < |ps| ==> Analyse(host, ps[t]) == Success(next[|arr| + t])
    ensures WorklistInv(host, entry, next, i + 1) && PendingInv(ImportsOf(host), entry, next, i + 1, bound)
    ensures SumCounts(ImportsOf(host), Names(next[i + 1..]), bound)
      < SumCounts(ImportsOf(host), Names(arr[i..]), bound)
  {
    var rel := ImportsOf(host);
    var p := arr[i].filename;
    var rest := Names(arr[i + 1..]);
    assert Names(arr[i..]) == [p] + rest by {
      NamesSlice(arr, i);
      NamesSlice(arr, i + 1);
    }
    assert Analysed(host, arr[i]);
    assert rel(p) == Success(Paths(arr[i].dependencies));
    StepPreservesInv(host, entry, arr, i, next);
    PendingStep(rel, p, rest, bound);
  }

  /** Record `i` naming a module one of whose imports fails to analyse breaks the
      entry's tree. */
  lemma LoopFails(host: Host, entry: string, arr: seq<ModuleRecord>, i: nat, t: nat, bound: nat)
    requires WorklistInv(host, entry, arr, i) && i < |arr| && PendingInv(ImportsOf(host), entry, arr, i, bound)
    requires t < |Paths(arr[i].dependencies)| && Analyse(host, Paths(arr[i].dependencies)[t]).Failure?
    ensures !TreeOk(ImportsOf(host), entry, bound)
  {
    var rel := ImportsOf(host);
    var p := arr[i].filename;
    assert Analysed(host, arr[i]);
    assert rel(p) == Success(Paths(arr[i].dependencies));
    assert rel(rel(p).value[t]).Failure?;
    FailedImportBreaksTree(rel, p, bound, t);
    assert p in Names(arr[i..]) by {
      NamesSlice(arr, i);
    }
  }

  /** When every record is processed the tree of the entry is error-free and its chains
      are exactly the records. */
  lemma LoopEnd(host: Host, entry: string, arr: seq<ModuleRecord>, bound: nat)
    requires Done(host, entry, arr) && PendingInv(ImportsOf(host), entry, arr, |arr|, bound)
    ensures TreeOk(ImportsOf(host), entry, bound) && |arr| == PathCount(ImportsOf(host), entry, bound)
    ensures Analyse(host, entry) == Success(arr[0])
  {
    assert Names(arr[|arr|..]) == [];
    assert arr[0].filename == Names(arr)[0] == entry;
    assert Analysed(host, arr[0]);
    DoneImpliesTreeOk(host, entry, arr, bound, 0);
  }

  /** The worklist loop of `makeDependenciesGraph` (`graphArray`). It terminates when the
      import tree of the entry is finite; the final array then holds one record per
      import chain from the entry and satisfies the loop's invariant with every record
      processed. It fails exactly when some module of that tree fails to analyse. */
  method CollectModules(host: Host, entry: string, ghost bound: nat) returns (res: Result<seq<ModuleRecord>, Error>)
    requires FiniteImports(ImportsOf(host), entry, bound)
    ensures res.Success? <==> TreeOk(ImportsOf(host), entry, bound)
    ensures res.Success? ==> Done(host, entry, res.value) && |res.value| == PathCount(ImportsOf(host), entry, bound)
    ensures res.Success? ==> Analyse(host, entry) == Success(res.value[0])
    ensures res.Failure? ==> exists p :: Analyse(host, p) == Failure(res.error)
  {
    var first := ModuleAnalyser(host, entry);
    if first.Failure? {
      return Failure(first.error);
    }
    var arr := [first.value];
    LoopStart(host, entry, first.value, bound);
    var i := 0;
    while i < |arr|
      invariant WorklistInv(host, entry, arr, i) && PendingInv(ImportsOf(host), entry, arr, i, bound)
      decreases SumCounts(ImportsOf(host), Names(arr[i..]), bound)
    {
      var next := PushImports(host, arr, arr[i]);
      if next.Failure? {
        ghost var t :| && 0 <= t < |Paths(arr[i].dependencies)|
                       && Analyse(host, Paths(arr[i].dependencies)[t]) == Failure(next.error);
        LoopFails(host, entry, arr, i, t, bound);
        return Failure(next.error);
      }
      LoopStep(host, entry, arr, i, next.value, bound);
      arr := next.value;
      i := i + 1;
    }
    LoopEnd(host, entry, arr, bound);
    return Success(arr);
  }

  /** The value stored under a file name in the graph object: `{dependencies, code}`. */
  datatype GraphEntry = GraphEntry(dependencies: Dependencies, code: string)

  function EntryOf(r: ModuleRecord): GraphEntry {
    GraphEntry(r.dependencies, r.code)
  }

  /** Record `j` is the last of the first `n` records with its file name. */
  ghost predicate LastAmong(arr: seq<ModuleRecord>, j: nat, n: nat)
    requires j < n <= |arr|
  {
    forall j' :: j < j' < n ==> arr[j'].filename != arr[j].filename
  }

  /** The fold of the worklist into the graph object: each record in turn stores its
      dependencies and code under its file name, so the keys are the file names of the
      array, and each maps to the last record with that name. (The second ensures
      follows from the first; it is stated for the callers' convenience.) */
  method FoldGraph(arr: seq<ModuleRecord>) returns (graph: map<string, GraphEntry>)
    ensures forall m :: m in graph <==> m in Names(arr)
    ensures forall j :: 0 <= j < |arr| ==> arr[j].filename in graph
    ensures forall j :: 0 <= j < |arr| && LastAmong(arr, j, |arr|) ==> graph[arr[j].filename] == EntryOf(arr[j])
  {
    graph := map[];
    for n := 0 to |arr|
      invariant forall j :: 0 <= j < n ==> arr[j].filename in graph
      invariant forall m :: m in graph ==> m in Names(arr)[..n]
      invariant forall j :: 0 <= j < n && LastAmong(arr, j, n) ==> graph[arr[j].filename] == EntryOf(arr[j])
    {
      var updated := graph[arr[n].filename := EntryOf(arr[n])];
      forall j | 0 <= j < n + 1 && LastAmong(arr, j, n + 1)
        ensures updated[arr[j].filename] == EntryOf(arr[j])
      {
        if j < n {
          assert LastAmong(arr, j, n);
        }
      }
      assert Names(arr)[..n + 1] == Names(arr)[..n] + [arr[n].filename];
      graph := updated;
    }
    assert Names(arr)[..|arr|] == Names(arr);
  }

  /** Every module path any dependency map names is itself a key of the graph. */
  ghost predicate Closed(graph: map<string, GraphEntry>) {
    forall m, s :: m in graph && s in graph[m].dependencies.table ==> graph[m].dependencies.table[s] in graph
  }

  /** Every file name of a non-empty array has a last record. */
  lemma LastOccurrence(arr: seq<ModuleRecord>, m: string) returns (j: nat)
    requires exists k :: 0 <= k < |arr| && arr[k].filename == m
    ensures j < |arr| && arr[j].filename == m && LastAmong(arr, j, |arr|)
  {
    j := |arr| - 1;
    while arr[j].filename != m
      invariant 0 <= j < |arr|
      invariant forall j' :: j < j' < |arr| ==> arr[j'].filename != m
      invariant exists k :: 0 <= k <= j && arr[k].filename == m
      decreases j
    {
      j := j - 1;
    }
  }

  /** The graph entry under a file name of a finished worklist is that file's analysis. */
  lemma EntryIsAnalysis(host: Host, entry: string, arr: seq<ModuleRecord>, graph: map<string, GraphEntry>,
                        m: string)
    requires Done(host, entry, arr)
    requires forall m :: m in graph <==> m in Names(arr)
    requires forall j :: 0 <= j < |arr| ==> arr[j].filename in graph
    requires forall j :: 0 <= j < |arr| && LastAmong(arr, j, |arr|) ==> graph[arr[j].filename] == EntryOf(arr[j])
    requires m in graph
    ensures Analyse(host, m).Success? && graph[m] == EntryOf(Analyse(host, m).value)
  {
    assert m in Names(arr);
    var j := LastOccurrence(arr, m);
    assert Analysed(host, arr[j]);
  }

  /** A path some entry of a finished worklist's graph depends on is itself a key. */
  lemma DependencyIsKey(host: Host, entry: string, arr: seq<ModuleRecord>, graph: map<string, GraphEntry>,
                        m: string, s: string)
    requires Done(host, entry, arr)
    requires forall m :: m in graph <==> m in Names(arr)
    requires forall j :: 0 <= j < |arr| ==> arr[j].filename in graph
    requires forall j :: 0 <= j < |arr| && LastAmong(arr, j, |arr|) ==> graph[arr[j].filename] == EntryOf(arr[j])
    requires m in graph && s in graph[m].dependencies.table
    ensures graph[m].dependencies.table[s] in graph
  {
    assert m in Names(arr);
    var j := LastOccurrence(arr, m);
    var deps := arr[j].dependencies;
    var q := deps.table[s];
    var t :| 0 <= t < |deps.order| && deps.order[t] == s;
    assert Paths(deps)[t] == q;
    PathsInImports(arr, j, q);
    assert arr[..|arr|] == arr;
    assert q in Names(arr);
  }

  /** Folding a finished worklist gives a closed graph whose every entry is the analysis
      of its key, so last-wins on repeated names never loses anything. */
  lemma {:induction false} FoldOfDone(host: Host, entry: string, arr: seq<ModuleRecord>,
                                      graph: map<string, GraphEntry>)
    requires Done(host, entry, arr)
    requires forall m :: m in graph <==> m in Names(arr)
    requires forall j :: 0 <= j < |arr| ==> arr[j].filename in graph
    requires forall j :: 0 <= j < |arr| && LastAmong(arr, j, |arr|) ==> graph[arr[j].filename] == EntryOf(arr[j])
    ensures entry in graph && Closed(graph)
    ensures forall m :: m in graph ==> Analyse(host, m).Success? && graph[m] == EntryOf(Analyse(host, m).value)
  {
    assert arr[..|arr|] == arr;
    assert Names(arr)[0] == entry;
    forall m | m in graph
      ensures Analyse(host, m).Success? && graph[m] == EntryOf(Analyse(host, m).value)
    {
      EntryIsAnalysis(host, entry, arr, graph, m);
    }
    forall m, s | m in graph && s in graph[m].dependencies.table
      ensures graph[m].dependencies.table[s] in graph
    {
      DependencyIsKey(host, entry, arr, graph, m, s);
    }
  }

  /** `makeDependenciesGraph(entry)`: it terminates when the import tree of the entry is
      finite, fails exactly when some module of that tree fails to analyse, and otherwise
      returns a graph whose keys are exactly the file names of the finished worklist
      `modules` (the entry and every path reached from it), which is closed under its
      dependency maps and maps every key to that module's own analysis. */
  method MakeDependenciesGraph(host: Host, entry: string, ghost bound: nat)
    returns (res: Result<map<string, GraphEntry>, Error>, ghost modules: seq<ModuleRecord>)
    requires FiniteImports(ImportsOf(host), entry, bound)
    ensures res.Success? <==> TreeOk(ImportsOf(host), entry, bound)
    ensures res.Failure? ==> exists p :: Analyse(host, p) == Failure(res.error)
    ensures res.Success? ==>
      && Done(host, entry, modules)
      && |modules| == PathCount(ImportsOf(host), entry, bound)
      && forall m :: m in res.value <==> m in Names(modules)
    ensures res.Success? ==> entry in res.value && Closed(res.value)
    ensures res.Success? ==> forall m :: m in res.value ==>
      Analyse(host, m).Success? && res.value[m] == EntryOf(Analyse(host, m).value)
  {
    var worklist := CollectModules(host, entry, bound);
    if worklist.Failure? {
      return Failure(worklist.error), [];
    }
    var graph := FoldGraph(worklist.value);
    FoldOfDone(host, entry, worklist.value, graph);
    return Success(graph), worklist.value;
  }
}
