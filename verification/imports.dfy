/** The import relation the worklist of `makeDependenciesGraph` unfolds. For a module
    path it gives either the paths that processing the module pushes, in order, or the
    error that aborts the build. The worklist has no visited set, so it walks the tree
    of import chains from the entry, not the graph of modules. This module measures that
    tree: `FiniteImports` bounds the chains, `PathCount` counts them and `TreeOk` says
    every module on them analyses. */
module ImportTree {

  import opened Wrappers
  import opened Analyser

  /** A module path's outcome: the paths it pushes, or the error analysing it raises. */
  type Relation = string -> Result<seq<string>, Error>

  /** The paths a module pushes; none when it fails, since the build stops there. */
  function Children(outcome: Result<seq<string>, Error>): seq<string> {
    if outcome.Success? then outcome.value else []
  }

  /** Every import chain starting at `p` has at most `depth` modules: the imports
      reachable from `p` have no cycle and unfold into a finite tree. */
  ghost predicate FiniteImports(rel: Relation, p: string, depth: nat)
    decreases depth
  {
    depth > 0 && forall q :: q in Children(rel(p)) ==> FiniteImports(rel, q, depth - 1)
  }

  /** The number of import chains starting at `p`, the one-module chain included: the
      size of the tree the imports of `p` unfold into. */
  ghost function PathCount(rel: Relation, p: string, depth: nat): nat
    requires FiniteImports(rel, p, depth)
    decreases depth, 0
  {
    1 + SumCounts(rel, Children(rel(p)), depth - 1)
  }

  /** The import chains starting at any of `ps`, counted with repetition. */
  ghost function SumCounts(rel: Relation, ps: seq<string>, depth: nat): nat
    requires forall q :: q in ps ==> FiniteImports(rel, q, depth)
    decreases depth, |ps| + 1
  {
    if ps == [] then 0 else PathCount(rel, ps[0], depth) + SumCounts(rel, ps[1..], depth)
  }

  /** Every module of the import tree of `p` analyses without error. */
  ghost predicate TreeOk(rel: Relation, p: string, depth: nat)
    decreases depth
  {
    && depth > 0
    && rel(p).Success?
    && forall q :: q in rel(p).value ==> TreeOk(rel, q, depth - 1)
  }

  /** A larger bound also bounds every chain, and the count does not depend on the bound. */
  lemma {:induction false} FiniteMono(rel: Relation, p: string, d: nat, e: nat)
    requires FiniteImports(rel, p, d) && d <= e
    ensures FiniteImports(rel, p, e) && PathCount(rel, p, d) == PathCount(rel, p, e)
    decreases d, 0
  {
    SumMono(rel, Children(rel(p)), d - 1, e - 1);
  }

  lemma {:induction false} SumMono(rel: Relation, ps: seq<string>, d: nat, e: nat)
    requires (forall q :: q in ps ==> FiniteImports(rel, q, d)) && d <= e
    ensures forall q :: q in ps ==> FiniteImports(rel, q, e)
    ensures SumCounts(rel, ps, d) == SumCounts(rel, ps, e)
    decreases d, |ps| + 1
  {
    if ps != [] {
      FiniteMono(rel, ps[0], d, e);
      SumMono(rel, ps[1..], d, e);
      assert forall q :: q in ps ==> q == ps[0] || q in ps[1..];
    }
  }

  /** Counting is additive over concatenation. */
  lemma {:induction false} SumCountsAppend(rel: Relation, a: seq<string>, b: seq<string>, d: nat)
    requires forall q :: q in a + b ==> FiniteImports(rel, q, d)
    ensures SumCounts(rel, a + b, d) == SumCounts(rel, a, d) + SumCounts(rel, b, d)
    decreases |a|
  {
    if a == [] {
      assert a + b == b;
    } else {
      assert (a + b)[0] == a[0];
      assert (a + b)[1..] == a[1..] + b;
      SumCountsAppend(rel, a[1..], b, d);
    }
  }

  lemma {:induction false} TreeOkMono(rel: Relation, p: string, d: nat, e: nat)
    requires TreeOk(rel, p, d) && d <= e
    ensures TreeOk(rel, p, e)
    decreases d
  {
    forall q | q in rel(p).value
      ensures TreeOk(rel, q, e - 1)
    {
      TreeOkMono(rel, q, d - 1, e - 1);
    }
  }

  /** Processing the pending module `p` swaps it for the paths it pushes: the import
      chains still to be visited drop by exactly one, and all stay bounded and, when
      they were, error-free. */
  lemma PendingStep(rel: Relation, p: string, rest: seq<string>, bound: nat)
    requires forall q :: q in [p] + rest ==> FiniteImports(rel, q, bound)
    ensures forall q :: q in rest + Children(rel(p)) ==> FiniteImports(rel, q, bound)
    ensures SumCounts(rel, rest + Children(rel(p)), bound) + 1 == SumCounts(rel, [p] + rest, bound)
    ensures (forall q :: q in [p] + rest ==> TreeOk(rel, q, bound)) ==>
      forall q :: q in rest + Children(rel(p)) ==> TreeOk(rel, q, bound)
  {
    var cs := Children(rel(p));
    assert p in [p] + rest;
    assert ([p] + rest)[0] == p && ([p] + rest)[1..] == rest;
    SumMono(rel, cs, bound - 1, bound);
    SumCountsAppend(rel, rest, cs, bound);
    if forall q :: q in [p] + rest ==> TreeOk(rel, q, bound) {
      forall q | q in cs
        ensures TreeOk(rel, q, bound)
      {
        TreeOkMono(rel, q, bound - 1, bound);
      }
    }
  }

  /** A module one of whose imports fails to analyse does not have an error-free tree. */
  lemma FailedImportBreaksTree(rel: Relation, p: string, d: nat, t: nat)
    requires rel(p).Success? && t < |rel(p).value| && rel(rel(p).value[t]).Failure?
    ensures !TreeOk(rel, p, d)
  {
    var q := rel(p).value[t];
    assert q in rel(p).value;
    if d > 0 {
      assert !TreeOk(rel, q, d - 1);
    }
  }
}
