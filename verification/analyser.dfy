/** The module analyser of bundler.js (`moduleAnalyser`): for one file it collects
    the literal specifier of every static import, resolves each one against the
    directory of the importing file, and pairs the result with the transformed code.

    Reading the file, parsing it, visiting its import declarations and transforming
    it are one opaque collaborator, `Host.frontEnd`; Node's `path.dirname` and
    `path.join` are the opaque `Host.dirname` and `Host.join`. Every property proved
    here holds whatever those three functions are. */
module Analyser {

  import opened Wrappers

  /** The ways reading, parsing or transforming a file can fail; the front end
      picks the kind, the analyser only propagates it. */
  datatype Error =
    | ReadError(path: string)
    | ParseError(path: string)
    | TransformError(path: string)

  /** What the front end yields for one file: the literal specifier of every static
      import declaration, in source order (repeats included), and the transformed code. */
  datatype Parsed = Parsed(specifiers: seq<string>, code: string)

  /** The collaborators the analyser runs against. */
  datatype Host = Host(
    frontEnd: string -> Result<Parsed, Error>,
    dirname: string -> string,
    join: (string, string) -> string)

  /** A plain JavaScript object used as a dictionary: `table` holds the properties and
      `order` the order in which `for ... in` visits them, which is the order the keys
      were first inserted (assigning to an existing key keeps its place). */
  datatype DependencyMap = DependencyMap(order: seq<string>, table: map<string, string>) {

    /** The order lists every key of the table exactly once. */
    predicate WellFormed() {
      && (forall i, j :: 0 <= i < j < |order| ==> order[i] != order[j])
      && (forall i :: 0 <= i < |order| ==> order[i] in table)
      && (forall k :: k in table ==> k in order)
    }
  }

  /** A module's dependency map: import specifier to resolved module path. */
  type Dependencies = d: DependencyMap | d.WellFormed() witness DependencyMap([], map[])

  /** The record `moduleAnalyser` returns: `{filename, dependencies, code}`. */
  datatype ModuleRecord = ModuleRecord(filename: string, dependencies: Dependencies, code: string)

  /** A path of the form the bundler produces for every dependency. */
  predicate IsRelative(path: string) {
    |path| >= 2 && path[..2] == "./"
  }

  /** `'./' + path.join(path.dirname(filename), specifier)`. */
  function Resolve(host: Host, filename: string, specifier: string): string {
    "./" + host.join(host.dirname(filename), specifier)
  }

  /** `dependencies[specifier] = path` on the JavaScript object. */
  function Put(d: Dependencies, specifier: string, path: string): (r: Dependencies)
    ensures specifier in r.table && r.table[specifier] == path
    ensures forall k :: k != specifier ==> (k in r.table <==> k in d.table)
    ensures forall k :: k != specifier && k in d.table ==> r.table[k] == d.table[k]
    ensures specifier in d.table ==> r.order == d.order
    ensures specifier !in d.table ==> r.order == d.order + [specifier]
  {
    if specifier in d.table then
      DependencyMap(d.order, d.table[specifier := path])
    else
      var r := DependencyMap(d.order + [specifier], d.table[specifier := path]);
      assert forall i :: 0 <= i < |d.order| ==> r.order[i] != specifier;
      r
  }

  /** The dependency map the import visitor builds from the specifiers, in source
      order: each import assigns its resolved path, so a repeated specifier lands on
      the entry the first one created. */
  function DependenciesOf(host: Host, filename: string, specifiers: seq<string>): (d: Dependencies)
    ensures d.table.Keys == set s | s in specifiers
    ensures forall s :: s in d.table ==> d.table[s] == Resolve(host, filename, s)
    ensures forall s :: s in d.table ==> IsRelative(d.table[s])
    decreases |specifiers|
  {
    if specifiers == [] then
      DependencyMap([], map[])
    else
      var last := specifiers[|specifiers| - 1];
      var front := specifiers[..|specifiers| - 1];
      assert specifiers == front + [last];
      Put(DependenciesOf(host, filename, front), last, Resolve(host, filename, last))
  }

  /** The resolved paths in the order `for ... in` visits their specifiers. */
  function Paths(d: Dependencies): seq<string> {
    seq(|d.order|, j requires 0 <= j < |d.order| => d.table[d.order[j]])
  }

  /** What `moduleAnalyser(filename)` returns, or the error it throws. */
  function Analyse(host: Host, filename: string): Result<ModuleRecord, Error> {
    match host.frontEnd(filename)
    case Failure(e) => Failure(e)
    case Success(parsed) =>
      Success(ModuleRecord(filename, DependenciesOf(host, filename, parsed.specifiers), parsed.code))
  }

  /** The import visitor: starting from `{}`, one assignment per import declaration. */
  method CollectDependencies(host: Host, filename: string, specifiers: seq<string>) returns (d: Dependencies)
    ensures d == DependenciesOf(host, filename, specifiers)
  {
    d := DependencyMap([], map[]);
    for n := 0 to |specifiers|
      invariant d == DependenciesOf(host, filename, specifiers[..n])
    {
      assert specifiers[..n + 1][..n] == specifiers[..n];
      d := Put(d, specifiers[n], Resolve(host, filename, specifiers[n]));
    }
    assert specifiers[..|specifiers|] == specifiers;
  }

  /** `moduleAnalyser(filename)`. */
  method ModuleAnalyser(host: Host, filename: string) returns (res: Result<ModuleRecord, Error>)
    ensures res == Analyse(host, filename)
    ensures res.Success? <==> host.frontEnd(filename).Success?
    ensures res.Failure? ==> res.error == host.frontEnd(filename).error
    ensures res.Success? ==>
      && res.value.filename == filename
      && res.value.code == host.frontEnd(filename).value.code
      && res.value.dependencies.table.Keys == set s | s in host.frontEnd(filename).value.specifiers
      && forall s :: s in res.value.dependencies.table ==>
           && res.value.dependencies.table[s] == Resolve(host, filename, s)
           && IsRelative(res.value.dependencies.table[s])
  {
    var parsed := host.frontEnd(filename);
    if parsed.Failure? {
      return Failure(parsed.error);
    }
    var dependencies := CollectDependencies(host, filename, parsed.value.specifiers);
    return Success(ModuleRecord(filename, dependencies, parsed.value.code));
  }

  /** Index of the first occurrence of `x` in `s`. */
  function FirstIndex(s: seq<string>, x: string): (i: nat)
    requires x in s
    ensures i < |s| && s[i] == x && x !in s[..i]
  {
    if s[0] == x then 0 else 1 + FirstIndex(s[1..], x)
  }

  lemma {:induction false} FirstIndexSnoc(s: seq<string>, z: string, x: string)
    requires x in s
    ensures FirstIndex(s + [z], x) == FirstIndex(s, x)
  {
    if s[0] != x {
      assert (s + [z])[1..] == s[1..] + [z];
      FirstIndexSnoc(s[1..], z, x);
    }
  }

  /** `order` lists elements of `s` by increasing position of their first occurrence. */
  ghost predicate FirstOccurrenceOrder(order: seq<string>, s: seq<string>) {
    && (forall a :: 0 <= a < |order| ==> order[a] in s)
    && (forall a, b :: 0 <= a < b < |order| ==> FirstIndex(s, order[a]) < FirstIndex(s, order[b]))
  }

  /** Importing again a specifier already seen leaves the order of first imports alone. */
  lemma FirstOccurrenceSnoc(order: seq<string>, front: seq<string>, last: string)
    requires FirstOccurrenceOrder(order, front)
    ensures FirstOccurrenceOrder(order, front + [last])
  {
    forall a | 0 <= a < |order|
      ensures order[a] in front + [last] && FirstIndex(front + [last], order[a]) == FirstIndex(front, order[a])
    {
      FirstIndexSnoc(front, last, order[a]);
    }
  }

  /** Importing a new specifier puts it after every specifier seen before. */
  lemma FirstOccurrenceNew(order: seq<string>, front: seq<string>, last: string)
    requires FirstOccurrenceOrder(order, front) && last !in front
    ensures FirstOccurrenceOrder(order + [last], front + [last])
  {
    var s := front + [last];
    FirstOccurrenceSnoc(order, front, last);
    assert FirstIndex(s, last) == |front|;
    forall a, b | 0 <= a < b < |order| + 1
      ensures FirstIndex(s, (order + [last])[a]) < FirstIndex(s, (order + [last])[b])
    {
      if b == |order| {
        assert FirstIndex(front, order[a]) < |front|;
      }
    }
  }

  /** The map visits its specifiers in the order of their first import. */
  lemma {:induction false} OrderIsFirstOccurrence(host: Host, filename: string, specifiers: seq<string>)
    ensures FirstOccurrenceOrder(DependenciesOf(host, filename, specifiers).order, specifiers)
    decreases |specifiers|
  {
    if specifiers != [] {
      var last := specifiers[|specifiers| - 1];
      var front := specifiers[..|specifiers| - 1];
      assert specifiers == front + [last];
      OrderIsFirstOccurrence(host, filename, front);
      var d0 := DependenciesOf(host, filename, front);
      if last in d0.table {
        FirstOccurrenceSnoc(d0.order, front, last);
      } else {
        FirstOccurrenceNew(d0.order, front, last);
      }
    }
  }

  /** A sequence without repeats has as many elements as its set. */
  lemma {:induction false} DistinctCard(s: seq<string>)
    requires forall i, j :: 0 <= i < j < |s| ==> s[i] != s[j]
    ensures |set x | x in s| == |s|
  {
    if s != [] {
      var front := s[..|s| - 1];
      DistinctCard(front);
      assert (set x | x in s) == (set x | x in front) + {s[|s| - 1]};
      assert s[|s| - 1] !in front;
    }
  }

  /** One entry per distinct specifier: repeats collapse into a single key. */
  lemma EntryCount(host: Host, filename: string, specifiers: seq<string>)
    ensures |DependenciesOf(host, filename, specifiers).order| == |set s | s in specifiers|
  {
    var d := DependenciesOf(host, filename, specifiers);
    DistinctCard(d.order);
    assert (set x | x in d.order) == d.table.Keys;
  }
}
