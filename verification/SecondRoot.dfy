/**
 Two functions that call each other, analysed one after the other (tools/tlsr8258-stack-report.py:351-363,
 435-450): the second root loses the function it calls, and the merged table does not keep the deepest prefix.
 */
module SecondRoot {
  import opened Wrappers
  import opened CallGraph
  import opened CallGraphSearch
  import opened CallGraphPrefix
  import opened CallGraphRun
  import opened CallGraphHistory
  import opened StackReport
  import opened Roots
  import opened MergedRoots

  const A: Name := "a"
  const B: Name := "b"

  // ----- Searching two functions that call each other

  /** x calls y and nothing else, and the other way round. */
  ghost predicate CallEachOther(fs: Functions, x: Name, y: Name) {
    x != y && Callees(fs, x) == [y] && Callees(fs, y) == [x]
  }

  lemma VisitOne(fs: Functions, universe: set<Name>, s: Search, name: Name)
    requires Closed(fs, universe) && name in universe && name !in s.state && |Callees(fs, name)| == 1
    ensures var r := CalleeRun(fs, universe, Trial(Enter(s, name), 0, None), name, 0);
            VisitRun(fs, universe, s, name) == Leave(fs, r.s, name, r.best, r.child)
  {
    hide Closed, CalleeRun;
    var begun := Trial(Enter(s, name), 0, None);
    EnterShrinks(universe, s, name);
    var r := CalleeRun(fs, universe, begun, name, 0);
    assert CalleesRun(fs, universe, begun, name, 0) == CalleesRun(fs, universe, r, name, 1) == r;
  }

  /** The call back to the active function is cut. */
  lemma VisitBack(fs: Functions, universe: set<Name>, s: Search, x: Name, y: Name)
    requires Closed(fs, universe) && y in universe && y !in s.state && CallEachOther(fs, x, y)
    requires x in s.state && s.state[x] == ACTIVE
    ensures var t := VisitRun(fs, universe, s, y); t.cut == s.cut + {(y, x)} && t.state == s.state[y := DONE]
  {
    hide Closed, VisitRun;
    VisitOne(fs, universe, s, y);
  }

  /** Visiting one of them visits the other and cuts the call back. */
  lemma VisitBoth(fs: Functions, universe: set<Name>, s: Search, x: Name, y: Name)
    requires Closed(fs, universe) && x in universe && y in universe && x !in s.state && y !in s.state
    requires CallEachOther(fs, x, y)
    ensures var t := VisitRun(fs, universe, s, x);
            t.cut == s.cut + {(y, x)} && t.state == s.state[x := DONE][y := DONE]
  {
    hide Closed, VisitRun;
    VisitBack(fs, universe, Enter(s, x), x, y);
    VisitOne(fs, universe, s, x);
  }

  lemma RootCuts(fs: Functions, x: Name, y: Name)
    requires CallEachOther(fs, x, y)
    ensures Cuts(fs, x) == {(y, x)}
  {
    hide VisitRun, Universe, Closed;
    UniverseClosed(fs, x);
    RootInUniverse(fs, x);
    InUniverse(fs, Universe(fs, x), x, y);
    VisitBoth(fs, Universe(fs, x), UNVISITED, x, y);
  }

  // ----- Two functions

  /** Two functions that call each other. */
  function Mutual(frameA: nat, frameB: nat): Functions {
    map[A := Function(frameA, [B]), B := Function(frameB, [A])]
  }

  lemma MutualCalls(frameA: nat, frameB: nat)
    ensures var fs := Mutual(frameA, frameB); CallEachOther(fs, A, B) && CallEachOther(fs, B, A)
    ensures Frame(Mutual(frameA, frameB), A) == frameA && Frame(Mutual(frameA, frameB), B) == frameB
  {}

  /** From x, when the call back is cut, there are two paths. */
  lemma TwoPaths(fs: Functions, cut: Edges, x: Name, y: Name, path: seq<Name>)
    requires CallEachOther(fs, x, y) && (y, x) in cut && PathFrom(fs, cut, path, x)
    ensures path == [x] || (path == [x, y] && (x, y) !in cut)
  {
    if |path| > 1 { StepKept(fs, cut, path, 1); }
    if |path| > 2 { StepKept(fs, cut, path, 2); }
  }

  lemma StepKept(fs: Functions, cut: Edges, path: seq<Name>, i: nat)
    requires Path(fs, cut, path) && 0 < i < |path|
    ensures Keeps(fs, cut, path[i - 1], path[i])
  {}

  lemma TwoWeigh(fs: Functions, x: Name, y: Name)
    ensures Weight(fs, [x]) == Frame(fs, x) && Weight(fs, [x, y]) == Frame(fs, x) + Frame(fs, y)
  {
    WeightOne(fs, x);
    WeightOne(fs, y);
    assert [x, y] == [x] + [y];
    WeightConcat(fs, [x], [y]);
  }

  lemma ExactTables(fs: Functions, root: Name, cut: Edges, total: Edges, subtree: map<Name, nat>,
                    prefix: map<Name, nat>, n: Name)
    requires Exact(fs, root, cut, total, subtree, prefix)
    ensures Reachable(fs, root, n) ==> n in subtree
    ensures n in prefix <==> ReachesBy(fs, total, root, n)
  {}

  /** The search from b that follows one from a has a subtree for a, which b calls, and no prefix. */
  lemma SecondRootLoses(frameA: nat, frameB: nat, subtree: map<Name, nat>, prefix: map<Name, nat>)
    requires var fs := Mutual(frameA, frameB); Exact(fs, B, Cuts(fs, B), Cuts(fs, A) + Cuts(fs, B), subtree, prefix)
    ensures Reachable(Mutual(frameA, frameB), B, A) && A in subtree && A !in prefix
  {
    hide Exact, Cuts, Reachable;
    var fs := Mutual(frameA, frameB);
    MutualCalls(frameA, frameB);
    RootCuts(fs, A, B);
    RootCuts(fs, B, A);
    ReachItself(fs, B);
    ReachNext(fs, B, B, A);
    var total := Cuts(fs, A) + Cuts(fs, B);
    ExactTables(fs, B, Cuts(fs, B), total, subtree, prefix, A);
    if ReachesBy(fs, total, B, A) {
      var path :| PathTo(fs, total, path, B, A);
      TwoPaths(fs, total, B, A, path);
    }
  }

  /** When nothing is lost, for any graph: exactly when every function finished by the search, but its root,
      is called by one of them with a call that is neither cut by this search nor recorded before. */
  lemma LosesNothing(fs: Functions, root: Name, total: Edges, order: seq<Name>, prefix: map<Name, nat>,
                     parent: map<Name, Option<Name>>)
    requires Downward(fs, total, order) && Prefixed(fs, total, root, order, prefix, parent)
    ensures (forall n :: n in order ==> n in prefix) <==> EachCalled(fs, total, root, order)
  {
    hide Downward, CallsCounted;
    if forall n :: n in order ==> n in prefix {
      forall n | n in order && n != root ensures exists p :: p in order && Keeps(fs, total, p, n) {
        assert PrefixAt(fs, total, root, prefix, parent, n);
        assert parent[n].value in order;
      }
    }
    if EachCalled(fs, total, root, order) {
      forall n | n in order ensures n in prefix { PassReachesAll(fs, total, root, order, prefix, parent, n); }
    }
  }

  lemma TwoRecorded(fs: Functions, first: Name, second: Name)
    ensures Recorded(fs, {}, [first, second], 1) == Cuts(fs, first)
    ensures Recorded(fs, {}, [first, second], 2) == Cuts(fs, first) + Cuts(fs, second)
  {
    assert Recorded(fs, {}, [first, second], 0) == {};
  }

  /** What is counted on the way to a is a alone. */
  lemma CountedToA(frameA: nat, frameB: nat, q: seq<Name>)
    ensures CountedTo(Mutual(frameA, frameB), {}, [A, B], 2, A, q) <==> q == [A]
  {
    hide Cuts, Recorded;
    var fs := Mutual(frameA, frameB);
    MutualCalls(frameA, frameB);
    RootCuts(fs, A, B);
    RootCuts(fs, B, A);
    TwoRecorded(fs, A, B);
    if CountedTo(fs, {}, [A, B], 2, A, q) {
      var j: nat :| j < 2 && CountedPath(fs, {}, [A, B], j, q);
      if j == 0 { TwoPaths(fs, Cuts(fs, A), A, B, q); } else { TwoPaths(fs, Cuts(fs, A) + Cuts(fs, B), B, A, q); }
    }
    assert CountedPath(fs, {}, [A, B], 0, [A]);
  }

  lemma OwnChain(frameA: nat, frameB: nat)
    ensures OwnTo(Mutual(frameA, frameB), [A, B], A, [B, A])
  {
    hide Cuts;
    var fs := Mutual(frameA, frameB);
    MutualCalls(frameA, frameB);
    RootCuts(fs, B, A);
    assert OwnPath(fs, [A, B], 1, [B, A]);
  }

  /** The merged table keeps nothing above a, although b's frame is above it on b's own chain. */
  lemma MergedLoses(frameA: nat, frameB: nat, merged: map<Name, nat>)
    requires Merged(Mutual(frameA, frameB), {}, [A, B], 2, merged)
    ensures A in merged && merged[A] == 0
    ensures OwnTo(Mutual(frameA, frameB), [A, B], A, [B, A])
    ensures Weight(Mutual(frameA, frameB), [B, A]) == frameB + frameA
    ensures frameB > 0 ==> !Deepest(Mutual(frameA, frameB), [A, B], merged)
  {
    hide CountedTo, OwnTo, Weight;
    var fs := Mutual(frameA, frameB);
    MutualCalls(frameA, frameB);
    OwnChain(frameA, frameB);
    TwoWeigh(fs, B, A);
    TwoWeigh(fs, A, B);
    assert MergedAt(fs, {}, [A, B], 2, merged, A);
    CountedToA(frameA, frameB, [A]);
    var q :| CountedTo(fs, {}, [A, B], 2, A, q) && Weight(fs, q) == merged[A] + Frame(fs, A);
    CountedToA(frameA, frameB, q);
    if Deepest(fs, [A, B], merged) { assert DeepestAt(fs, [A, B], merged, A); }
  }

  /** The tool's own call. */
  method TwoRoots(frameA: nat, frameB: nat) returns (merged: map<Name, nat>)
    ensures A in merged && merged[A] == 0
    ensures frameB > 0 ==> !Deepest(Mutual(frameA, frameB), [A, B], merged)
  {
    hide Merged, Deepest, NothingHidden, Climbable;
    var graph := new Graph(Mutual(frameA, frameB));
    var perRoot, parent;
    perRoot, merged, parent := AnalyzeRoots(graph, [A, B]);
    MergedLoses(frameA, frameB, merged);
  }
}
