/**
 Chain budgets (tools/tlsr8258-stack-report.py:511-538): the worst stack use through the functions whose name
 matches, and a path that shows it. The prefixes are merged over several roots, and the subtrees are those of
 whatever roots were analysed last.
 */
module ChainBudget {
  import opened Wrappers
  import opened CallGraph
  import opened CallGraphSearch
  import opened CallGraphPrefix
  import opened CallGraphRun
  import opened CallGraphHistory
  import opened StackReport
  import opened Roots
  import opened MergedRoots
  import opened MergedChains

  /** A function with its readable name, in the order of the symbol table. */
  datatype Symbol = Symbol(name: Name, pretty: string)

  datatype Failure = NoMatch | OverBudget

  /** The path reported: where it enters the matching functions, where it ends, and its largest frame. */
  datatype Shown = Shown(
    entry: Symbol, path: seq<Name>, pathBytes: nat, terminal: Name, largest: Name, largestFrame: nat)

  datatype Report = Report(matches: nat, worst: Option<nat>, chain: Option<Shown>, failure: Option<Failure>)

  // ----- Stack use through a function

  /** What the tables see of the chains through n: above it, a chain counted for one of the roots; below it, a path
      that the search of the last root to reach n keeps. */
  ghost predicate Seen(fs: Functions, initial: Edges, roots: seq<Name>, analysed: seq<Name>, n: Name,
                       above: seq<Name>, below: seq<Name>) {
    && CountedTo(fs, initial, roots, |roots|, n, above)
    && exists k: nat ::
         k < |analysed| && LastReaching(fs, analysed, k, n) && PathFrom(fs, Cuts(fs, analysed[k]), below, n)
  }

  /** The sum of prefix and subtree is the weight of the heaviest such chain. */
  lemma ThroughExact(fs: Functions, initial: Edges, roots: seq<Name>, analysed: seq<Name>, prefix: map<Name, nat>,
                     n: Name)
    requires Merged(fs, initial, roots, |roots|, prefix) && forall r :: r in roots ==> r in analysed
    ensures n in prefix ==> n in After(fs, analysed).subtree
    ensures n in prefix ==>
              exists above, below :: Seen(fs, initial, roots, analysed, n, above, below)
                && Weight(fs, above) + Weight(fs, below) == prefix[n] + After(fs, analysed).subtree[n] + Frame(fs, n)
    ensures forall above, below :: Seen(fs, initial, roots, analysed, n, above, below) ==>
              n in prefix
              && Weight(fs, above) + Weight(fs, below) <= prefix[n] + After(fs, analysed).subtree[n] + Frame(fs, n)
  {
    hide After, CountedTo, LastReaching, Weight, Frame, Path, Cuts, Merged, MergedAt;
    if n in prefix {
      var above := AboveExists(fs, initial, roots, prefix, n);
      SubtreesAfter(fs, analysed, n);
      var k := CountedIsAnalysed(fs, initial, roots, analysed, n, above);
      assert HeaviestFrom(fs, Cuts(fs, analysed[k]), n, After(fs, analysed).subtree[n]);
      var below :| PathFrom(fs, Cuts(fs, analysed[k]), below, n) && Weight(fs, below) == After(fs, analysed).subtree[n];
      assert Seen(fs, initial, roots, analysed, n, above, below);
    }
    forall above, below | Seen(fs, initial, roots, analysed, n, above, below)
      ensures n in prefix
      ensures Weight(fs, above) + Weight(fs, below) <= prefix[n] + After(fs, analysed).subtree[n] + Frame(fs, n)
    {
      AboveBounds(fs, initial, roots, prefix, n, above);
      SubtreesAfter(fs, analysed, n);
    }
  }

  lemma AboveExists(fs: Functions, initial: Edges, roots: seq<Name>, prefix: map<Name, nat>, n: Name)
    returns (above: seq<Name>)
    requires Merged(fs, initial, roots, |roots|, prefix) && n in prefix
    ensures CountedTo(fs, initial, roots, |roots|, n, above) && Weight(fs, above) == prefix[n] + Frame(fs, n)
  {
    assert MergedAt(fs, initial, roots, |roots|, prefix, n);
    above :| CountedTo(fs, initial, roots, |roots|, n, above) && Weight(fs, above) == prefix[n] + Frame(fs, n);
  }

  lemma AboveBounds(fs: Functions, initial: Edges, roots: seq<Name>, prefix: map<Name, nat>, n: Name, above: seq<Name>)
    requires Merged(fs, initial, roots, |roots|, prefix) && CountedTo(fs, initial, roots, |roots|, n, above)
    ensures n in prefix && Weight(fs, above) <= prefix[n] + Frame(fs, n)
  {
    assert MergedAt(fs, initial, roots, |roots|, prefix, n);
  }

  lemma CountedIsAnalysed(fs: Functions, initial: Edges, roots: seq<Name>, analysed: seq<Name>, n: Name,
                          above: seq<Name>)
    returns (k: nat)
    requires CountedTo(fs, initial, roots, |roots|, n, above) && forall r :: r in roots ==> r in analysed
    ensures k < |analysed| && LastReaching(fs, analysed, k, n)
  {
    hide Recorded, Reachable, Path;
    var j: nat :| j < |roots| && CountedPath(fs, initial, roots, j, above);
    PathNotEmpty(fs, Recorded(fs, initial, roots, j + 1), above);
    PathReaches(fs, Recorded(fs, initial, roots, j + 1), above, |above| - 1);
    assert roots[j] in analysed;
    var i: nat :| i < |analysed| && analysed[i] == roots[j];
    k := LastExists(fs, analysed, i, n);
  }

  // ----- The order of entries

  /** Strings in dictionary order. */
  predicate Before(a: string, b: string) {
    if b == [] then false
    else if a == [] then true
    else a[0] < b[0] || (a[0] == b[0] && Before(a[1..], b[1..]))
  }

  /** At the first place where they differ, or where one ends, the smaller is ahead. */
  lemma {:induction false} BeforeExactly(a: string, b: string)
    ensures Before(a, b) <==> exists k: nat :: AheadAt(a, b, k)
  {
    if b == [] {
      forall k: nat ensures !AheadAt(a, b, k) {}
    } else if a == [] {
      assert AheadAt(a, b, 0);
    } else if a[0] != b[0] {
      if Before(a, b) { assert AheadAt(a, b, 0); }
      if k: nat :| AheadAt(a, b, k) { if k > 0 { HeadsAgree(a, b, k); } }
    } else {
      BeforeExactly(a[1..], b[1..]);
      if k: nat :| AheadAt(a[1..], b[1..], k) { Behind(a, b, k); }
      if k: nat :| AheadAt(a, b, k) { Behind(a, b, k - 1); }
    }
  }

  /** The strings agree up to place k, where the first ends, or has the smaller character. */
  predicate AheadAt(a: string, b: string, k: nat) {
    k <= |a| && k < |b| && a[..k] == b[..k] && (k == |a| || a[k] < b[k])
  }

  lemma HeadsAgree(a: string, b: string, k: nat)
    requires 0 < k && AheadAt(a, b, k)
    ensures a[0] == b[0]
  {
    assert a[..k][0] == b[..k][0];
  }

  lemma Behind(a: string, b: string, k: nat)
    requires a != [] && b != [] && a[0] == b[0]
    ensures AheadAt(a[1..], b[1..], k) <==> AheadAt(a, b, k + 1)
  {
    if k < |a| && k < |b| {
      assert a[..k + 1] == [a[0]] + a[1..][..k] && b[..k + 1] == [b[0]] + b[1..][..k];
      assert a[..k + 1][1..] == a[1..][..k] && b[..k + 1][1..] == b[1..][..k];
    }
  }

  lemma {:induction false} BeforeTrans(a: string, b: string, c: string)
    requires !Before(b, a) && !Before(c, b)
    ensures !Before(c, a)
  {
    if a != [] && b != [] && c != [] && a[0] == b[0] == c[0] { BeforeTrans(a[1..], b[1..], c[1..]); }
  }

  lemma {:induction false} BeforeItself(a: string)
    ensures !Before(a, a)
  {
    if a != [] { BeforeItself(a[1..]); }
  }

  predicate EntryBefore(prefix: map<Name, nat>, a: Symbol, b: Symbol)
    requires a.name in prefix && b.name in prefix
  {
    prefix[a.name] < prefix[b.name] || (prefix[a.name] == prefix[b.name] && Before(a.pretty, b.pretty))
  }

  // ----- The budget

  predicate IsMatch(matches: string -> bool, prefix: map<Name, nat>, m: Symbol) {
    matches(m.pretty) && m.name in prefix
  }

  /** The matching symbols, in the order of the table. */
  function Select(names: seq<Symbol>, matches: string -> bool, prefix: map<Name, nat>): seq<Symbol> {
    if names == [] then []
    else
      var n := |names| - 1;
      Select(names[..n], matches, prefix) + if IsMatch(matches, prefix, names[n]) then [names[n]] else []
  }

  lemma {:induction false} SelectHas(names: seq<Symbol>, matches: string -> bool, prefix: map<Name, nat>, m: Symbol)
    ensures m in Select(names, matches, prefix) <==> m in names && IsMatch(matches, prefix, m)
  {
    if names != [] {
      var n := |names| - 1;
      assert names == names[..n] + [names[n]];
      SelectHas(names[..n], matches, prefix, m);
    }
  }

  method Matches(names: seq<Symbol>, matches: string -> bool, prefix: map<Name, nat>) returns (r: seq<Symbol>)
    ensures r == Select(names, matches, prefix)
  {
    r := [];
    for i := 0 to |names|
      invariant r == Select(names[..i], matches, prefix)
    {
      assert names[..i + 1][..i] == names[..i];
      if IsMatch(matches, prefix, names[i]) {
        r := r + [names[i]];
      }
    }
    assert names[..|names|] == names;
  }

  /** The weight a function's entries give to the paths through it. */
  function Through(prefix: map<Name, nat>, subtree: map<Name, nat>, m: Symbol): nat
    requires m.name in prefix && m.name in subtree
  {
    prefix[m.name] + subtree[m.name]
  }

  method WorstOf(found: seq<Symbol>, prefix: map<Name, nat>, subtree: map<Name, nat>) returns (worst: nat)
    requires found != [] && forall m :: m in found ==> m.name in prefix && m.name in subtree
    ensures exists m :: m in found && Through(prefix, subtree, m) == worst
    ensures forall m :: m in found ==> Through(prefix, subtree, m) <= worst
  {
    worst := Through(prefix, subtree, found[0]);
    ghost var at := found[0];
    for i := 1 to |found|
      invariant at in found && Through(prefix, subtree, at) == worst
      invariant forall k :: 0 <= k < i ==> Through(prefix, subtree, found[k]) <= worst
    {
      if Through(prefix, subtree, found[i]) > worst {
        worst, at := Through(prefix, subtree, found[i]), found[i];
      }
    }
  }

  /** `entry` is at place `k`: among the worst, none comes before it, and it comes before those at earlier
      places, so that of equals the first is chosen. */
  ghost predicate FirstOfWorst(
      found: seq<Symbol>, prefix: map<Name, nat>, subtree: map<Name, nat>, worst: nat, upTo: nat, entry: Symbol, k: nat)
    requires forall m :: m in found ==> m.name in prefix && m.name in subtree
    requires upTo <= |found|
  {
    && k < upTo && found[k] == entry && Through(prefix, subtree, entry) == worst
    && (forall j :: 0 <= j < upTo && Through(prefix, subtree, found[j]) == worst ==>
          !EntryBefore(prefix, found[j], entry))
    && (forall j :: 0 <= j < k && Through(prefix, subtree, found[j]) == worst ==> EntryBefore(prefix, entry, found[j]))
  }

  /** `min` by prefix and then by name: the first of the least, and its place. */
  method EntryOf(found: seq<Symbol>, prefix: map<Name, nat>, subtree: map<Name, nat>, worst: nat)
    returns (entry: Symbol, k: nat)
    requires forall m :: m in found ==> m.name in prefix && m.name in subtree
    requires exists m :: m in found && Through(prefix, subtree, m) == worst
    ensures FirstOfWorst(found, prefix, subtree, worst, |found|, entry, k)
    ensures entry.name in prefix
    ensures forall m :: m in found && Through(prefix, subtree, m) == worst ==> prefix[entry.name] <= prefix[m.name]
  {
    hide EntryBefore;
    var best: Option<Symbol> := None;
    k := 0;
    for i := 0 to |found|
      invariant best.None? ==> forall j :: 0 <= j < i ==> Through(prefix, subtree, found[j]) != worst
      invariant best.Some? ==> FirstOfWorst(found, prefix, subtree, worst, i, best.value, k)
    {
      var m := found[i];
      if Through(prefix, subtree, m) == worst {
        NotBeforeItself(prefix, m);
        if best.None? || EntryBefore(prefix, m, best.value) {
          if best.Some? { BeforeAllOthers(found, prefix, subtree, worst, i, best.value, m); }
          best, k := Some(m), i;
        }
      }
    }
    entry := best.value;
    ClosestToRoot(found, prefix, subtree, worst, entry, k);
  }

  /** Of the worst, the first is closest to the root. */
  lemma ClosestToRoot(found: seq<Symbol>, prefix: map<Name, nat>, subtree: map<Name, nat>, worst: nat, entry: Symbol,
                      k: nat)
    requires forall m :: m in found ==> m.name in prefix && m.name in subtree
    requires FirstOfWorst(found, prefix, subtree, worst, |found|, entry, k)
    ensures entry.name in prefix
    ensures forall m :: m in found && Through(prefix, subtree, m) == worst ==> prefix[entry.name] <= prefix[m.name]
  {
    forall m | m in found && Through(prefix, subtree, m) == worst ensures prefix[entry.name] <= prefix[m.name] {
      var j :| 0 <= j < |found| && found[j] == m;
      assert !EntryBefore(prefix, found[j], entry);
    }
  }

  lemma NotBeforeItself(prefix: map<Name, nat>, m: Symbol)
    requires m.name in prefix
    ensures !EntryBefore(prefix, m, m)
  {
    BeforeItself(m.pretty);
  }

  lemma {:induction false} BeforeAsym(a: string, b: string)
    requires Before(a, b)
    ensures !Before(b, a)
  {
    if a != [] && a[0] == b[0] { BeforeAsym(a[1..], b[1..]); }
  }

  /** What comes before a least entry comes before everything that the least entry does not come after. */
  lemma BeforeLeast(prefix: map<Name, nat>, m: Symbol, best: Symbol, f: Symbol)
    requires m.name in prefix && best.name in prefix && f.name in prefix
    requires EntryBefore(prefix, m, best) && !EntryBefore(prefix, f, best)
    ensures EntryBefore(prefix, m, f) && !EntryBefore(prefix, f, m)
  {
    if prefix[f.name] == prefix[m.name] == prefix[best.name] {
      if !Before(m.pretty, f.pretty) { BeforeTrans(best.pretty, f.pretty, m.pretty); }
      BeforeAsym(m.pretty, f.pretty);
    }
  }

  lemma BeforeAllOthers(
      found: seq<Symbol>, prefix: map<Name, nat>, subtree: map<Name, nat>, worst: nat, upTo: nat,
      best: Symbol, m: Symbol)
    requires forall f :: f in found ==> f.name in prefix && f.name in subtree
    requires upTo <= |found| && m.name in prefix && best.name in prefix && EntryBefore(prefix, m, best)
    requires forall j :: 0 <= j < upTo && Through(prefix, subtree, found[j]) == worst ==>
              !EntryBefore(prefix, found[j], best)
    ensures forall j :: 0 <= j < upTo && Through(prefix, subtree, found[j]) == worst ==>
              EntryBefore(prefix, m, found[j]) && !EntryBefore(prefix, found[j], m)
  {
    hide EntryBefore;
    forall j | 0 <= j < upTo && Through(prefix, subtree, found[j]) == worst
      ensures EntryBefore(prefix, m, found[j]) && !EntryBefore(prefix, found[j], m)
    {
      BeforeLeast(prefix, m, best, found[j]);
    }
  }

  /** `max` by frame: the first function on the path whose frame no other exceeds. */
  method LargestOf(graph: Graph, path: seq<Name>) returns (largest: Name)
    requires path != []
    ensures IsLargest(graph.functions, path, largest)
  {
    var k := 0;
    for i := 1 to |path|
      invariant 0 <= k < i
      invariant forall j :: 0 <= j < i ==> Frame(graph.functions, path[j]) <= Frame(graph.functions, path[k])
      invariant forall j :: 0 <= j < k ==> Frame(graph.functions, path[j]) < Frame(graph.functions, path[k])
    {
      if Frame(graph.functions, path[i]) > Frame(graph.functions, path[k]) {
        k := i;
      }
    }
    largest := path[k];
  }

  ghost predicate IsLargest(fs: Functions, path: seq<Name>, largest: Name) {
    exists k :: 0 <= k < |path| && path[k] == largest
                && (forall j :: 0 <= j < |path| ==> Frame(fs, path[j]) <= Frame(fs, path[k]))
                && (forall j :: 0 <= j < k ==> Frame(fs, path[j]) < Frame(fs, path[k]))
  }

  method PathBytes(graph: Graph, path: seq<Name>) returns (bytes: nat)
    ensures bytes == Weight(graph.functions, path)
  {
    bytes := 0;
    for i := 0 to |path|
      invariant bytes == Weight(graph.functions, path[..i])
    {
      assert path[..i + 1] == path[..i] + [path[i]];
      WeightConcat(graph.functions, path[..i], [path[i]]);
      WeightOne(graph.functions, path[i]);
      bytes := bytes + Frame(graph.functions, path[i]);
    }
    assert path[..|path|] == path;
  }

  /** Up from n along the parents, if there are any, and on from it along `next`. */
  ghost predicate Joined(parent: Option<map<Name, Option<Name>>>, next: map<Name, Option<Name>>, n: Name,
                         above: seq<Name>, below: seq<Name>) {
    && (if parent.Some? then Chain(parent.value, above, n) else above == [n])
    && Walk(next, below) && below[0] == n
  }

  /** The path shown for an entry runs by calls from a root, or from the entry if there are no parents; and it uses
      exactly what the tables say, if the roots do not disturb each other and one root has settled the entry. */
  ghost predicate PathOk(fs: Functions, initial: Edges, roots: seq<Name>, analysed: seq<Name>, prefix: map<Name, nat>,
                         parent: Option<map<Name, Option<Name>>>, n: Name, path: seq<Name>) {
    && (exists above, below :: Joined(parent, After(fs, analysed).next, n, above, below) && path == above + below[1..])
    && Path(fs, {}, path) && n in path && (if parent.Some? then path[0] in roots else path[0] == n)
    && (parent.Some? && Undisturbed(fs, initial, roots) && (exists k: nat :: Settles(fs, analysed, k, n)) ==>
          && n in prefix && n in After(fs, analysed).subtree
          && Weight(fs, path) == prefix[n] + After(fs, analysed).subtree[n])
  }

  /** The chain reported for the worst use `worst` through the functions `found`. */
  ghost predicate ChainOk(fs: Functions, initial: Edges, roots: seq<Name>, analysed: seq<Name>, prefix: map<Name, nat>,
                          parent: Option<map<Name, Option<Name>>>, found: seq<Symbol>, worst: nat, c: Shown) {
    var subtree := After(fs, analysed).subtree;
    && PathOk(fs, initial, roots, analysed, prefix, parent, c.entry.name, c.path)
    && c.pathBytes == Weight(fs, c.path) && c.terminal == Last(c.path)
    && IsLargest(fs, c.path, c.largest) && c.largestFrame == Frame(fs, c.largest)
    // The entry is the first of the worst, and none of them is closer to the root.
    && (forall m :: m in found ==> m.name in prefix && m.name in subtree)
    && c.entry.name in prefix
    && (forall m :: m in found && Through(prefix, subtree, m) == worst ==> prefix[c.entry.name] <= prefix[m.name])
    && exists k :: FirstOfWorst(found, prefix, subtree, worst, |found|, c.entry, k)
  }

  /** Nothing seen through a symbol that matches uses more than `bound`. */
  ghost predicate WithinOn(fs: Functions, initial: Edges, roots: seq<Name>, analysed: seq<Name>, names: seq<Symbol>,
                           matches: string -> bool, bound: int) {
    forall m, above, below ::
      m in names && matches(m.pretty) && Seen(fs, initial, roots, analysed, m.name, above, below) ==>
        Weight(fs, above) + Weight(fs, below) <= bound + Frame(fs, m.name)
  }

  /** What a report must say. */
  ghost predicate Faithful(
      fs: Functions, initial: Edges, roots: seq<Name>, analysed: seq<Name>, prefix: map<Name, nat>,
      parent: Option<map<Name, Option<Name>>>, names: seq<Symbol>, matches: string -> bool, budget: int, r: Report) {
    var found := Select(names, matches, prefix);
    && r.matches == |found|
    && if found == [] then r.worst == None && r.chain == None && r.failure == Some(NoMatch)
       else
         && r.worst.Some? && r.chain.Some?
         && ChainOk(fs, initial, roots, analysed, prefix, parent, found, r.worst.value, r.chain.value)
         && WithinOn(fs, initial, roots, analysed, names, matches, r.worst.value)
         && r.failure == (if r.worst.value > budget then Some(OverBudget) else None)
  }

  /** The path through `entry`: up to it and on from it. */
  method PathThrough(graph: Graph, ghost prefix: map<Name, nat>, parent: Option<map<Name, Option<Name>>>,
                     entry: Symbol, ghost initial: Edges, ghost roots: seq<Name>)
    returns (path: seq<Name>)
    requires graph.Valid() && entry.name in prefix
    requires parent.Some? ==> MergedTables(graph.functions, initial, roots, |roots|, prefix, parent.value)
    ensures PathOk(graph.functions, initial, roots, graph.analysed, prefix, parent, entry.name, path)
  {
    hide MergedTables, Chain, After, PathOk;
    var above := [entry.name];
    if parent.Some? {
      ChainMerged(graph.functions, initial, roots, prefix, parent.value);
      above := ChainTo(parent.value, entry.name, graph.functions, initial, roots, prefix);
    }
    var below := graph.WorstPath(entry.name);
    path := above + below[1..];
    JoinedIsOk(graph.functions, initial, roots, graph.analysed, prefix, parent, entry.name, above, below);
  }

  lemma ChainMerged(fs: Functions, initial: Edges, roots: seq<Name>, prefix: map<Name, nat>,
                    parent: map<Name, Option<Name>>)
    requires MergedTables(fs, initial, roots, |roots|, prefix, parent)
    ensures Climbable(fs, initial, roots, |roots|, prefix, parent)
  {}

  lemma JoinedIsOk(fs: Functions, initial: Edges, roots: seq<Name>, analysed: seq<Name>, prefix: map<Name, nat>,
                   parent: Option<map<Name, Option<Name>>>, n: Name, above: seq<Name>, below: seq<Name>)
    requires Joined(parent, After(fs, analysed).next, n, above, below) && n in prefix
    requires parent.Some? ==> MergedTables(fs, initial, roots, |roots|, prefix, parent.value)
    ensures PathOk(fs, initial, roots, analysed, prefix, parent, n, above + below[1..])
  {
    hide MergedTables, After, Undisturbed, Settles, Weight, Ascends, Distinct, Cuts;
    AboveIsPath(fs, initial, roots, prefix, parent, n, above);
    WalkIsPath(fs, analysed, below);
    JoinPath(fs, {}, above, below);
    JoinedEnds(above, below);
    assert n == (above + below[1..])[|above| - 1];
    if k: nat :| parent.Some? && Undisturbed(fs, initial, roots) && Settles(fs, analysed, k, n) {
      ChainIsExact(fs, initial, roots, prefix, parent.value, above, n);
      WalkIsWorst(fs, analysed, k, below);
    }
  }

  lemma AboveIsPath(fs: Functions, initial: Edges, roots: seq<Name>, prefix: map<Name, nat>,
                    parent: Option<map<Name, Option<Name>>>, n: Name, above: seq<Name>)
    requires if parent.Some? then Chain(parent.value, above, n) else above == [n]
    requires parent.Some? ==> MergedTables(fs, initial, roots, |roots|, prefix, parent.value) && n in prefix
    ensures Path(fs, {}, above) && Last(above) == n && (if parent.Some? then above[0] in roots else above[0] == n)
  {
    hide Climbable, Merged, Ascends, Weight;
    if parent.Some? { ChainWeighs(fs, initial, roots, prefix, parent.value, above, n); }
  }

  lemma FoundAreTabled(fs: Functions, initial: Edges, roots: seq<Name>, analysed: seq<Name>, prefix: map<Name, nat>,
                       names: seq<Symbol>, matches: string -> bool)
    requires Merged(fs, initial, roots, |roots|, prefix) && forall r :: r in roots ==> r in analysed
    ensures forall m :: m in Select(names, matches, prefix) ==>
              m in names && m.name in prefix && m.name in After(fs, analysed).subtree
  {
    hide Merged, After, Seen, Weight;
    forall m | m in Select(names, matches, prefix)
      ensures m in names && m.name in prefix && m.name in After(fs, analysed).subtree
    {
      SelectHas(names, matches, prefix, m);
      ThroughExact(fs, initial, roots, analysed, prefix, m.name);
    }
  }

  lemma WorstBounds(fs: Functions, initial: Edges, roots: seq<Name>, analysed: seq<Name>, prefix: map<Name, nat>,
                    names: seq<Symbol>, matches: string -> bool, worst: nat)
    requires Merged(fs, initial, roots, |roots|, prefix) && forall r :: r in roots ==> r in analysed
    requires forall m :: m in Select(names, matches, prefix) ==>
               m.name in prefix && m.name in After(fs, analysed).subtree
               && Through(prefix, After(fs, analysed).subtree, m) <= worst
    ensures WithinOn(fs, initial, roots, analysed, names, matches, worst)
  {
    hide Merged, After, Seen, Weight, Frame;
    forall m, above, below |
      m in names && matches(m.pretty) && Seen(fs, initial, roots, analysed, m.name, above, below)
      ensures Weight(fs, above) + Weight(fs, below) <= worst + Frame(fs, m.name)
    {
      ThroughExact(fs, initial, roots, analysed, prefix, m.name);
      SelectHas(names, matches, prefix, m);
    }
  }

  /** `chain_budget`, with or without a table of parents. */
  method Check(graph: Graph, prefix: map<Name, nat>, parent: Option<map<Name, Option<Name>>>, names: seq<Symbol>,
               matches: string -> bool, budget: int, ghost initial: Edges, ghost roots: seq<Name>) returns (r: Report)
    requires graph.Valid() && (forall n :: n in roots ==> n in graph.analysed)
    requires Merged(graph.functions, initial, roots, |roots|, prefix)
    requires parent.Some? ==> MergedTables(graph.functions, initial, roots, |roots|, prefix, parent.value)
    ensures Faithful(graph.functions, initial, roots, graph.analysed, prefix, parent, names, matches, budget, r)
  {
    hide Merged, MergedTables, PathOk, Weight, FirstOfWorst, IsLargest, WithinOn, Select, After;
    var found := Matches(names, matches, prefix);
    if found == [] {
      return Report(0, None, None, Some(NoMatch));
    }
    FoundAreTabled(graph.functions, initial, roots, graph.analysed, prefix, names, matches);
    var worst := WorstOf(found, prefix, graph.subtree);
    var entry, k := EntryOf(found, prefix, graph.subtree, worst);
    EntryIsWorst(found, prefix, graph.subtree, worst, entry, k);
    var path := PathThrough(graph, prefix, parent, entry, initial, roots);
    OkNotEmpty(graph.functions, initial, roots, graph.analysed, prefix, parent, entry.name, path);
    var bytes := PathBytes(graph, path);
    var largest := LargestOf(graph, path);
    WorstBounds(graph.functions, initial, roots, graph.analysed, prefix, names, matches, worst);
    var chain := Shown(entry, path, bytes, path[|path| - 1], largest, Frame(graph.functions, largest));
    r := Report(|found|, Some(worst), Some(chain), if worst > budget then Some(OverBudget) else None);
  }

  lemma OkNotEmpty(fs: Functions, initial: Edges, roots: seq<Name>, analysed: seq<Name>, prefix: map<Name, nat>,
                   parent: Option<map<Name, Option<Name>>>, n: Name, path: seq<Name>)
    requires PathOk(fs, initial, roots, analysed, prefix, parent, n, path)
    ensures path != []
  {}

  lemma EntryIsWorst(found: seq<Symbol>, prefix: map<Name, nat>, subtree: map<Name, nat>, worst: nat, entry: Symbol,
                     k: nat)
    requires forall m :: m in found ==> m.name in prefix && m.name in subtree
    requires FirstOfWorst(found, prefix, subtree, worst, |found|, entry, k)
    ensures entry in found && Through(prefix, subtree, entry) == worst
  {}

  /** A budget passes exactly when some function that matches has a prefix and nothing seen through one exceeds it. */
  lemma PassesMeansWithin(
      fs: Functions, initial: Edges, roots: seq<Name>, analysed: seq<Name>, prefix: map<Name, nat>,
      parent: Option<map<Name, Option<Name>>>, names: seq<Symbol>, matches: string -> bool, budget: int, r: Report)
    requires Merged(fs, initial, roots, |roots|, prefix) && forall n :: n in roots ==> n in analysed
    requires Faithful(fs, initial, roots, analysed, prefix, parent, names, matches, budget, r)
    ensures r.failure == None <==>
      && (exists m :: m in names && IsMatch(matches, prefix, m))
      && WithinOn(fs, initial, roots, analysed, names, matches, budget)
  {
    hide Merged, After, Seen, Weight, Frame, FirstOfWorst, IsLargest, PathOk;
    var found := Select(names, matches, prefix);
    if found == [] {
      forall m | m in names ensures !IsMatch(matches, prefix, m) { SelectHas(names, matches, prefix, m); }
    } else {
      SelectHas(names, matches, prefix, found[0]);
      var c, subtree := r.chain.value, After(fs, analysed).subtree;
      var k :| FirstOfWorst(found, prefix, subtree, r.worst.value, |found|, c.entry, k);
      EntryIsWorst(found, prefix, subtree, r.worst.value, c.entry, k);
      SelectHas(names, matches, prefix, c.entry);
      ThroughExact(fs, initial, roots, analysed, prefix, c.entry.name);
      var above, below :| Seen(fs, initial, roots, analysed, c.entry.name, above, below)
        && Weight(fs, above) + Weight(fs, below)
           == prefix[c.entry.name] + subtree[c.entry.name] + Frame(fs, c.entry.name);
    }
  }

  // ----- One root

  /** No path from the root through a symbol that matches uses more than `bound`. */
  ghost predicate WithinFrom(fs: Functions, root: Name, names: seq<Symbol>, matches: string -> bool, bound: int) {
    forall path, m ::
      PathFrom(fs, Cuts(fs, root), path, root) && m in names && matches(m.pretty) && m.name in path ==>
        Weight(fs, path) <= bound
  }

  /** With one root, what is seen are the paths from the root through the function by calls that its search keeps. */
  lemma SeenFromOne(fs: Functions, root: Name, names: seq<Symbol>, matches: string -> bool, bound: int)
    ensures WithinOn(fs, {}, [root], [root], names, matches, bound) <==> WithinFrom(fs, root, names, matches, bound)
  {
    hide Weight, Frame, Seen, Path, Cuts;
    if WithinOn(fs, {}, [root], [root], names, matches, bound) {
      forall path, m | PathFrom(fs, Cuts(fs, root), path, root) && m in names && matches(m.pretty) && m.name in path
        ensures Weight(fs, path) <= bound
      {
        var above, below := PathIsSeen(fs, root, path, m.name);
      }
    }
    if WithinFrom(fs, root, names, matches, bound) {
      forall m, above, below | m in names && matches(m.pretty) && Seen(fs, {}, [root], [root], m.name, above, below)
        ensures Weight(fs, above) + Weight(fs, below) <= bound + Frame(fs, m.name)
      {
        var path := SeenIsPath(fs, root, m.name, above, below);
      }
    }
  }

  lemma PathIsSeen(fs: Functions, root: Name, path: seq<Name>, n: Name) returns (above: seq<Name>, below: seq<Name>)
    requires PathFrom(fs, Cuts(fs, root), path, root) && n in path
    ensures Seen(fs, {}, [root], [root], n, above, below)
    ensures Weight(fs, above) + Weight(fs, below) == Weight(fs, path) + Frame(fs, n)
  {
    hide Weight, Frame, Path, Cuts, Recorded, Reachable;
    var i: nat :| i < |path| && path[i] == n;
    SplitPath(fs, Cuts(fs, root), path, i);
    above, below := path[..i + 1], path[i..];
    OneRecorded(fs, {}, root);
    assert {} + Cuts(fs, root) == Cuts(fs, root);
    assert CountedPath(fs, {}, [root], 0, above);
    PathReaches(fs, Cuts(fs, root), path, i);
    assert LastReaching(fs, [root], 0, n);
  }

  lemma SeenIsPath(fs: Functions, root: Name, n: Name, above: seq<Name>, below: seq<Name>) returns (path: seq<Name>)
    requires Seen(fs, {}, [root], [root], n, above, below)
    ensures PathFrom(fs, Cuts(fs, root), path, root) && n in path
    ensures Weight(fs, above) + Weight(fs, below) == Weight(fs, path) + Frame(fs, n)
  {
    hide Weight, Frame, Path, Cuts, Recorded, Reachable;
    OneRecorded(fs, {}, root);
    assert {} + Cuts(fs, root) == Cuts(fs, root);
    PathNotEmpty(fs, Cuts(fs, root), above);
    PathNotEmpty(fs, Cuts(fs, root), below);
    JoinPath(fs, Cuts(fs, root), above, below);
    path := above + below[1..];
    assert n == path[|above| - 1];
  }

  /** With one root, the path reported uses exactly the worst use reported. */
  lemma OneRootShows(fs: Functions, root: Name, prefix: map<Name, nat>, parent: map<Name, Option<Name>>,
                     names: seq<Symbol>, matches: string -> bool, budget: int, r: Report)
    requires Merged(fs, {}, [root], 1, prefix)
    requires Faithful(fs, {}, [root], [root], prefix, Some(parent), names, matches, budget, r) && r.chain.Some?
    ensures r.worst == Some(r.chain.value.pathBytes)
  {
    hide Merged, After, Undisturbed, Settles, Select, Weight, Path, IsLargest, FirstOfWorst, WithinOn;
    var c, found, subtree := r.chain.value, Select(names, matches, prefix), After(fs, [root]).subtree;
    var k :| FirstOfWorst(found, prefix, subtree, r.worst.value, |found|, c.entry, k);
    EntryIsWorst(found, prefix, subtree, r.worst.value, c.entry, k);
    FirstRootUndisturbed(fs, root);
    var n := c.entry.name;
    var above := AboveExists(fs, {}, [root], prefix, n);
    var i := CountedIsAnalysed(fs, {}, [root], [root], n, above);
    LastReaches(fs, [root], i, n);
    LastSettles(fs, [root], n);
  }
}
