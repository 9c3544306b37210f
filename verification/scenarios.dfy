/** Concrete import structures, stated as lemmas about the model: a diamond, which the
    worklist visits along every import chain, and a two-module cycle, on which the
    worklist never catches up with its own end. Paths are kept flat: `dirname` yields the empty
    string and `join` concatenates, so specifier `b.js` resolves to `./b.js`. */
module Scenarios {

  import opened Wrappers
  import opened Analyser
  import opened ImportTree
  import opened GraphBuilder

  function FlatDirname(p: string): string { "" }

  function FlatJoin(d: string, s: string): string { d + s }

  /** A host over a flat directory: every specifier resolves to `./` followed by itself. */
  function FlatHost(front: string -> Result<Parsed, Error>): Host {
    Host(front, FlatDirname, FlatJoin)
  }

  /** `./a.js` imports `b.js` and `c.js`, both of which import `d.js`. */
  function DiamondFront(p: string): Result<Parsed, Error> {
    if p == "./a.js" then Success(Parsed(["b.js", "c.js"], "A"))
    else if p == "./b.js" then Success(Parsed(["d.js"], "B"))
    else if p == "./c.js" then Success(Parsed(["d.js"], "C"))
    else if p == "./d.js" then Success(Parsed([], "D"))
    else Failure(ReadError(p))
  }

  /** `./a.js` imports `b.js`, which imports `a.js` back. */
  function CycleFront(p: string): Result<Parsed, Error> {
    if p == "./a.js" then Success(Parsed(["b.js"], "A"))
    else if p == "./b.js" then Success(Parsed(["a.js"], "B"))
    else Failure(ReadError(p))
  }

  lemma ResolveFlat(front: string -> Result<Parsed, Error>, f: string, s: string)
    ensures Resolve(FlatHost(front), f, s) == "./" + s
  {
    assert "" + s == s;
  }

  lemma PathsOfOne(host: Host, f: string, s: string)
    ensures DependenciesOf(host, f, [s]).order == [s]
    ensures Paths(DependenciesOf(host, f, [s])) == [Resolve(host, f, s)]
  {
    assert [s][..0] == [];
    var e := DependenciesOf(host, f, []);
    assert e.table == map[] && e.order == [];
    var d := DependenciesOf(host, f, [s]);
    assert d == Put(e, s, Resolve(host, f, s));
    assert d.order == [s];
    assert Paths(d)[0] == d.table[s];
  }

  /** Assigning a new key adds its value at the end of the visiting order. */
  lemma PathsOfPut(d0: Dependencies, t: string, v: string)
    requires t !in d0.table
    ensures Paths(Put(d0, t, v)) == Paths(d0) + [v]
  {
    var d := Put(d0, t, v);
    forall j | 0 <= j < |d.order|
      ensures Paths(d)[j] == (Paths(d0) + [v])[j]
    {
      if j < |d0.order| {
        assert d0.order[j] in d0.table && d0.order[j] != t;
      }
    }
  }

  lemma PathsOfTwo(host: Host, f: string, s: string, t: string)
    requires s != t
    ensures Paths(DependenciesOf(host, f, [s, t])) == [Resolve(host, f, s), Resolve(host, f, t)]
  {
    PathsOfOne(host, f, s);
    var d1 := DependenciesOf(host, f, [s]);
    assert [s, t][..1] == [s];
    assert DependenciesOf(host, f, [s, t]) == Put(d1, t, Resolve(host, f, t));
    assert t !in d1.table;
    PathsOfPut(d1, t, Resolve(host, f, t));
  }

  lemma ChildOfNone(front: string -> Result<Parsed, Error>, p: string, code: string)
    requires front(p) == Success(Parsed([], code))
    ensures Step(FlatHost(front), p) == Success([])
  {
    assert Paths(DependenciesOf(FlatHost(front), p, [])) == [];
  }

  lemma ChildOfOne(front: string -> Result<Parsed, Error>, p: string, s: string, code: string)
    requires front(p) == Success(Parsed([s], code))
    ensures Step(FlatHost(front), p) == Success(["./" + s])
  {
    PathsOfOne(FlatHost(front), p, s);
    ResolveFlat(front, p, s);
  }

  lemma ChildOfTwo(front: string -> Result<Parsed, Error>, p: string, s: string, t: string, code: string)
    requires s != t && front(p) == Success(Parsed([s, t], code))
    ensures Step(FlatHost(front), p) == Success(["./" + s, "./" + t])
  {
    PathsOfTwo(FlatHost(front), p, s, t);
    ResolveFlat(front, p, s);
    ResolveFlat(front, p, t);
  }

  /** `a` imports `b` and `c`, both of which import `d`, which imports nothing. */
  ghost predicate IsDiamond(rel: Relation, a: string, b: string, c: string, d: string) {
    && rel(a) == Success([b, c])
    && rel(b) == Success([d])
    && rel(c) == Success([d])
    && rel(d) == Success([])
  }

  lemma DiamondA()
    ensures ImportsOf(FlatHost(DiamondFront))("./a.js") == Success(["./b.js", "./c.js"])
  {
    ChildOfTwo(DiamondFront, "./a.js", "b.js", "c.js", "A");
    assert "./" + "b.js" == "./b.js" && "./" + "c.js" == "./c.js";
  }

  /** `./b.js` and `./c.js` both import `./d.js` alone. */
  lemma DiamondMiddle(p: string, code: string)
    requires DiamondFront(p) == Success(Parsed(["d.js"], code))
    ensures ImportsOf(FlatHost(DiamondFront))(p) == Success(["./d.js"])
  {
    ChildOfOne(DiamondFront, p, "d.js", code);
    assert "./" + "d.js" == "./d.js";
  }

  lemma DiamondD()
    ensures ImportsOf(FlatHost(DiamondFront))("./d.js") == Success([])
  {
    ChildOfNone(DiamondFront, "./d.js", "D");
  }

  lemma DiamondExample()
    ensures IsDiamond(ImportsOf(FlatHost(DiamondFront)), "./a.js", "./b.js", "./c.js", "./d.js")
  {
    DiamondA();
    DiamondMiddle("./b.js", "B");
    DiamondMiddle("./c.js", "C");
    DiamondD();
  }

  /** A module with children `cs` has one import chain more than its children together. */
  lemma CountOfChildren(rel: Relation, p: string, depth: nat, cs: seq<string>)
    requires depth > 0 && rel(p) == Success(cs)
    requires forall q :: q in cs ==> FiniteImports(rel, q, depth - 1)
    ensures FiniteImports(rel, p, depth)
    ensures PathCount(rel, p, depth) == 1 + SumCounts(rel, cs, depth - 1)
  {
  }

  lemma SumOfTwo(rel: Relation, a: string, b: string, depth: nat)
    requires FiniteImports(rel, a, depth) && FiniteImports(rel, b, depth)
    ensures SumCounts(rel, [a, b], depth) == PathCount(rel, a, depth) + PathCount(rel, b, depth)
    ensures SumCounts(rel, [a], depth) == PathCount(rel, a, depth)
  {
    assert [a, b][1..] == [b];
    assert [b][1..] == [];
    assert [a][1..] == [];
    assert SumCounts(rel, [b], depth) == PathCount(rel, b, depth) + SumCounts(rel, [], depth);
  }

  /** A diamond is a finite import tree of depth three with five import chains
      (a, a-b, a-c, a-b-d, a-c-d), all of whose modules analyse. */
  lemma {:induction false} DiamondCount(rel: Relation, a: string, b: string, c: string, d: string)
    requires IsDiamond(rel, a, b, c, d)
    ensures FiniteImports(rel, a, 3) && PathCount(rel, a, 3) == 5 && TreeOk(rel, a, 3)
  {
    CountOfChildren(rel, d, 1, []);
    SumOfTwo(rel, d, d, 1);
    CountOfChildren(rel, b, 2, [d]);
    CountOfChildren(rel, c, 2, [d]);
    SumOfTwo(rel, b, c, 2);
    CountOfChildren(rel, a, 3, [b, c]);
    assert TreeOk(rel, d, 1);
    assert TreeOk(rel, b, 2) && TreeOk(rel, c, 2);
  }

  /** The record of the worklist named `p` pushes the imports of `p`. */
  lemma PushedBy(host: Host, entry: string, arr: seq<ModuleRecord>, k: nat, p: string)
    requires Done(host, entry, arr) && k < |arr| && Names(arr)[k] == p
    ensures ImportsOf(host)(p) == Success(Paths(arr[k].dependencies))
  {
    assert Analysed(host, arr[k]);
  }

  /** What the first `n + 1` records push is what the first `n` push, then record `n`'s paths. */
  lemma ImportsSnoc(arr: seq<ModuleRecord>, n: nat)
    requires n < |arr|
    ensures Imports(arr[..n + 1]) == Imports(arr[..n]) + Paths(arr[n].dependencies)
  {
    assert arr[..n + 1][..n] == arr[..n];
  }

  /** What the first two records push. */
  lemma ImportsOfTwo(arr: seq<ModuleRecord>)
    requires |arr| >= 2
    ensures Imports(arr[..2]) == Paths(arr[0].dependencies) + Paths(arr[1].dependencies)
  {
    ImportsSnoc(arr, 0);
    ImportsSnoc(arr, 1);
    assert arr[..0] == [];
  }

  /** What the first four records push, given what the first two push. */
  lemma ImportsOfFour(arr: seq<ModuleRecord>)
    requires |arr| >= 4
    ensures Imports(arr[..4]) == Imports(arr[..2]) + Paths(arr[2].dependencies) + Paths(arr[3].dependencies)
  {
    ImportsSnoc(arr, 2);
    ImportsSnoc(arr, 3);
  }

  /** What five records push is what each pushes, in order. */
  lemma ImportsOfFive(arr: seq<ModuleRecord>)
    requires |arr| == 5
    ensures Imports(arr) == Paths(arr[0].dependencies) + Paths(arr[1].dependencies)
      + Paths(arr[2].dependencies) + Paths(arr[3].dependencies) + Paths(arr[4].dependencies)
  {
    ImportsOfTwo(arr);
    ImportsOfFour(arr);
    ImportsSnoc(arr, 4);
    assert arr[..5] == arr;
  }

  /** A worklist that starts at the top of a diamond and holds, after its entry, what
      its five records push, names `d` twice: once below `b`, once below `c`. */
  lemma DiamondNames(rel: Relation, a: string, b: string, c: string, d: string, ns: seq<string>,
                     p0: seq<string>, p1: seq<string>, p2: seq<string>, p3: seq<string>, p4: seq<string>)
    requires IsDiamond(rel, a, b, c, d)
    requires ns == [a] + (p0 + p1 + p2 + p3 + p4) && |ns| == 5
    requires rel(ns[0]) == Success(p0) && rel(ns[1]) == Success(p1) && rel(ns[2]) == Success(p2)
    ensures ns == [a, b, c, d, d]
  {
    assert p0 == [b, c];
    assert ns[1] == b && ns[2] == c;
    assert p1 == [d] && p2 == [d];
    assert p0 + p1 + p2 == [b, c, d, d];
  }

  /** The finished worklist of a diamond names `d` twice. */
  lemma {:induction false} DiamondWorklist(host: Host, a: string, b: string, c: string, d: string,
                                           arr: seq<ModuleRecord>)
    requires IsDiamond(ImportsOf(host), a, b, c, d) && Done(host, a, arr) && |arr| == 5
    ensures Names(arr) == [a, b, c, d, d]
  {
    var ns := Names(arr);
    assert arr[..5] == arr;
    ImportsOfFive(arr);
    PushedBy(host, a, arr, 0, ns[0]);
    PushedBy(host, a, arr, 1, ns[1]);
    PushedBy(host, a, arr, 2, ns[2]);
    DiamondNames(ImportsOf(host), a, b, c, d, ns, Paths(arr[0].dependencies), Paths(arr[1].dependencies),
      Paths(arr[2].dependencies), Paths(arr[3].dependencies), Paths(arr[4].dependencies));
  }

  /** Keys of a map that hold exactly the names of a five-record diamond worklist. */
  lemma DiamondKeys(graph: map<string, GraphEntry>, ns: seq<string>, a: string, b: string, c: string, d: string)
    requires ns == [a, b, c, d, d]
    requires forall m :: m in graph <==> m in ns
    ensures graph.Keys == {a, b, c, d}
  {
    assert a in ns && b in ns && c in ns && d in ns;
  }

  /** Building the graph of a diamond succeeds: the worklist holds `d` twice, but the
      graph has one key per module, and the entry under `d` is `d`'s analysis. */
  method DiamondGraph(host: Host, a: string, b: string, c: string, d: string)
    returns (graph: map<string, GraphEntry>)
    requires IsDiamond(ImportsOf(host), a, b, c, d)
    ensures graph.Keys == {a, b, c, d}
    ensures Analyse(host, d).Success? && graph[d] == EntryOf(Analyse(host, d).value)
  {
    DiamondCount(ImportsOf(host), a, b, c, d);
    var res, modules := MakeDependenciesGraph(host, a, 3);
    DiamondWorklist(host, a, b, c, d, modules);
    graph := res.value;
    DiamondKeys(graph, Names(modules), a, b, c, d);
  }

  /** `a` imports `b` and `b` imports `a`. */
  ghost predicate IsTwoCycle(rel: Relation, a: string, b: string) {
    rel(a) == Success([b]) && rel(b) == Success([a])
  }

  /** A module of the cycle imports the other one alone. */
  lemma CycleModule(p: string, s: string, code: string, target: string)
    requires CycleFront(p) == Success(Parsed([s], code)) && target == "./" + s
    ensures ImportsOf(FlatHost(CycleFront))(p) == Success([target])
  {
    ChildOfOne(CycleFront, p, s, code);
  }

  lemma CycleExample()
    ensures IsTwoCycle(ImportsOf(FlatHost(CycleFront)), "./a.js", "./b.js")
  {
    CycleModule("./a.js", "b.js", "A", "./b.js");
    CycleModule("./b.js", "a.js", "B", "./a.js");
  }

  /** No bound makes the import tree of a module on a two-cycle finite, so the worklist
      loop cannot be shown to stop there. */
  lemma {:induction false} CycleIsInfinite(rel: Relation, a: string, b: string, d: nat)
    requires IsTwoCycle(rel, a, b)
    ensures !FiniteImports(rel, a, d) && !FiniteImports(rel, b, d)
  {
    if d > 0 {
      CycleIsInfinite(rel, a, b, d - 1);
      assert b in Children(rel(a)) && a in Children(rel(b));
    }
  }

  /** Where every module that analyses imports exactly one, processing a run of records
      pushes as many paths as there are records. */
  lemma {:induction false} SingleImportsLength(host: Host, rs: seq<ModuleRecord>)
    requires forall p :: Step(host, p).Success? ==> |Step(host, p).value| == 1
    requires forall k {:trigger Analysed(host, rs[k])} :: 0 <= k < |rs| ==> Analysed(host, rs[k])
    ensures |Imports(rs)| == |rs|
    decreases |rs|
  {
    if rs != [] {
      var front := rs[..|rs| - 1];
      forall k | 0 <= k < |front| ensures Analysed(host, front[k]) {
        assert Analysed(host, rs[k]);
      }
      SingleImportsLength(host, front);
      var r := rs[|rs| - 1];
      assert Analysed(host, r);
      assert Step(host, r.filename) == Success(Paths(r.dependencies));
    }
  }

  lemma CycleSingleImports()
    ensures forall p :: Step(FlatHost(CycleFront), p).Success? ==> |Step(FlatHost(CycleFront), p).value| == 1
  {
    CycleExample();
  }

  /** On the cycle every record of a worklist is `./a.js` or `./b.js`, and each of the
      paths it pushes analyses. */
  lemma CycleRecordPushes(arr: seq<ModuleRecord>, i: nat)
    requires WorklistInv(FlatHost(CycleFront), "./a.js", arr, i) && i < |arr|
    ensures forall t :: 0 <= t < |Paths(arr[i].dependencies)| ==>
      Analyse(FlatHost(CycleFront), Paths(arr[i].dependencies)[t]).Success?
  {
    var host := FlatHost(CycleFront);
    var p := arr[i].filename;
    assert Analysed(host, arr[i]);
    assert Step(host, p) == Success(Paths(arr[i].dependencies));
    assert CycleFront(p).Success?;
    CycleExample();
  }

  /** Started on the cycle, the worklist is always exactly one record ahead of its index,
      so the loop guard `i < graphArray.length` holds, and processing record `i` cannot
      fail: every iteration succeeds and pushes a record, and the array grows forever. */
  lemma CycleGrowsForever(arr: seq<ModuleRecord>, i: nat)
    requires WorklistInv(FlatHost(CycleFront), "./a.js", arr, i)
    ensures |arr| == i + 1
    ensures forall t :: 0 <= t < |Paths(arr[i].dependencies)| ==>
      Analyse(FlatHost(CycleFront), Paths(arr[i].dependencies)[t]).Success?
  {
    var host := FlatHost(CycleFront);
    CycleSingleImports();
    forall k | 0 <= k < i ensures Analysed(host, arr[..i][k]) {
      assert Analysed(host, arr[k]);
    }
    SingleImportsLength(host, arr[..i]);
    CycleRecordPushes(arr, i);
  }

  /** The loop's start state on the cycle, `[moduleAnalyser('./a.js')]` with nothing
      processed, satisfies the worklist invariant. */
  lemma CycleStart()
    ensures Analyse(FlatHost(CycleFront), "./a.js").Success?
    ensures WorklistInv(FlatHost(CycleFront), "./a.js", [Analyse(FlatHost(CycleFront), "./a.js").value], 0)
  {
    var host := FlatHost(CycleFront);
    CycleExample();
    var arr := [Analyse(host, "./a.js").value];
    assert Analysed(host, arr[0]);
    assert Names(arr) == ["./a.js"];
    assert arr[..0] == [];
  }

  /** The worklist on the cycle after `n` iterations of the loop, each of which
      succeeds: it holds `n + 1` records, so it grows by one record per iteration and
      without bound. */
  ghost function CycleState(n: nat): (arr: seq<ModuleRecord>)
    ensures WorklistInv(FlatHost(CycleFront), "./a.js", arr, n) && |arr| == n + 1
  {
    if n == 0 then
      CycleStart();
      [Analyse(FlatHost(CycleFront), "./a.js").value]
    else
      var prev := CycleState(n - 1);
      CycleGrowsForever(prev, n - 1);
      CycleStepInto(prev, n - 1);
      prev + [Analyse(FlatHost(CycleFront), Paths(prev[n - 1].dependencies)[0]).value]
  }

  /** Processing record `i` of a cycle state pushes the analysis of its one import, and
      the result is the state after `i + 1` iterations. */
  lemma CycleStepInto(prev: seq<ModuleRecord>, i: nat)
    requires WorklistInv(FlatHost(CycleFront), "./a.js", prev, i) && |prev| == i + 1
    requires forall t :: 0 <= t < |Paths(prev[i].dependencies)| ==>
      Analyse(FlatHost(CycleFront), Paths(prev[i].dependencies)[t]).Success?
    ensures |Paths(prev[i].dependencies)| == 1
    ensures Analyse(FlatHost(CycleFront), Paths(prev[i].dependencies)[0]).Success?
    ensures WorklistInv(FlatHost(CycleFront), "./a.js",
      prev + [Analyse(FlatHost(CycleFront), Paths(prev[i].dependencies)[0]).value], i + 1)
  {
    var host := FlatHost(CycleFront);
    var ps := Paths(prev[i].dependencies);
    assert Analysed(host, prev[i]);
    assert Step(host, prev[i].filename) == Success(ps);
    CycleSingleImports();
    var next := prev + [Analyse(host, ps[0]).value];
    assert next[..|prev|] == prev;
    StepPreservesInv(host, "./a.js", prev, i, next);
  }

  /** Importing the same specifier twice gives the same map as importing it once. */
  lemma RepeatedSpecifier(host: Host, f: string, s: string)
    ensures DependenciesOf(host, f, [s, s]) == DependenciesOf(host, f, [s])
    ensures DependenciesOf(host, f, [s]).order == [s]
  {
    assert [s, s][..1] == [s];
    PathsOfOne(host, f, s);
  }
}
