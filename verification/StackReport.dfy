/**
 The stack report's graph (tools/tlsr8258-stack-report.py:313-370, 417-422): the search, the table of
 prefixes, and the two walks that read the tables back as paths, on a graph that may have been analysed
 before.
 */
module StackReport {
  import opened Wrappers
  import opened CallGraph
  import opened CallGraphSearch
  import opened CallGraphPrefix
  import opened CallGraphRun
  import opened CallGraphHistory

  class Graph {
    const functions: Functions
    var recursiveEdges: Edges
    var subtree: map<Name, nat>
    var next: map<Name, Option<Name>>
    var state: map<Name, nat>
    var order: seq<Name>
    // The roots analysed before the current search, and what the search has done.
    ghost var analysed: seq<Name>
    ghost var now: Search

    constructor (functions: Functions)
      ensures this.functions == functions && Valid() && analysed == []
    {
      this.functions := functions;
      recursiveEdges, subtree, next, state, order := {}, map[], map[], map[], [];
      analysed := [];
    }

    /** The tables are what the searches from the roots analysed leave, one over the other. */
    ghost predicate Valid()
      reads this
    {
      Tables(recursiveEdges, subtree, next) == After(functions, analysed)
    }

    /** The same in the middle of a search. */
    ghost predicate Searching()
      reads this
    {
      && state == now.state && order == now.order
      && Tables(recursiveEdges, subtree, next) == Overlay(After(functions, analysed), now)
    }

    /** `visit`: the search goes on as `VisitRun` says. */
    method Visit(name: Name, ghost root: Name, ghost stack: seq<Name>, ghost universe: set<Name>)
      requires Searching() && Inv(functions, root, stack, now) && name !in state
      requires name in universe && Closed(functions, universe)
      requires if stack == [] then name == root else name in Callees(functions, stack[|stack| - 1])
      modifies this
      ensures Searching() && analysed == old(analysed) && now == VisitRun(functions, universe, old(now), name)
      decreases universe - state.Keys, 0
    {
      hide Inv, Grows, Tried, Closed, Callees, Frame, After, AtWork, CalleeRun, Leave;
      ghost var first, here := now, stack + [name];
      ghost var begun := Trial(Enter(first, name), 0, None);
      EnterShrinks(universe, first, name);
      BeginsWork(functions, root, stack, first, name);
      state, now := state[name := ACTIVE], Enter(first, name);
      var best: nat, bestChild: Option<Name> := 0, None;
      var calls := Callees(functions, name);
      var k := 0;
      while k < |calls|
        invariant k <= |calls|
        invariant AtWork(functions, root, here, first, Trial(now, best, bestChild), name, k)
        invariant CalleesRun(functions, universe, Trial(now, best, bestChild), name, k)
                  == CalleesRun(functions, universe, begun, name, 0)
        invariant universe - state.Keys < universe - first.state.Keys
        invariant Searching() && analysed == old(analysed)
      {
        ghost var r := Trial(now, best, bestChild);
        CalleeKeeps(functions, universe, root, here, first, r, name, k);
        best, bestChild := TryCallee(name, calls[k], best, bestChild, k, root, here, first, universe);
        k := k + 1;
      }
      Finish(name, best, bestChild);
    }

    /** The end of `visit`. */
    method Finish(name: Name, best: nat, bestChild: Option<Name>)
      requires Searching()
      modifies `subtree, `next, `state, `order, `now
      ensures Searching() && now == Leave(functions, old(now), name, best, bestChild)
    {
      hide After, Frame;
      OverlayLeave(functions, After(functions, analysed), now, name, best, bestChild);
      subtree := subtree[name := Frame(functions, name) + best];
      next := next[name := bestChild];
      state := state[name := DONE];
      order := order + [name];
      now := Leave(functions, now, name, best, bestChild);
    }

    /** The body of `visit`'s loop: cut the call to an active function; visit a new one, and compare. */
    method TryCallee(name: Name, child: Name, best: nat, bestChild: Option<Name>, ghost k: nat, ghost root: Name,
                     ghost here: seq<Name>, ghost first: Search, ghost universe: set<Name>)
      returns (newBest: nat, newChild: Option<Name>)
      requires Searching() && AtWork(functions, root, here, first, Trial(now, best, bestChild), name, k)
      requires k < |Callees(functions, name)| && child == Callees(functions, name)[k]
      requires name in universe && Closed(functions, universe)
      modifies this
      ensures Searching() && analysed == old(analysed)
      ensures Trial(now, newBest, newChild) == CalleeRun(functions, universe, Trial(old(now), best, bestChild), name, k)
      decreases universe - state.Keys, 1
    {
      hide Inv, Grows, Tried, Closed, Callees, After, VisitRun;
      newBest, newChild := best, bestChild;
      if child in state && state[child] == ACTIVE {
        recursiveEdges := recursiveEdges + {(name, child)};
        now := Cut(now, name, child);
        return;
      }
      if child !in state {
        InUniverse(functions, universe, name, child);
        VisitKeeps(functions, universe, root, here, now, child);
        Visit(child, root, here, universe);
        LastInOrder(order, child);
      } else {
        DoneInOrder(functions, root, here, now, child);
      }
      FinishedEntry(functions, root, here, now, child);
      if subtree[child] > best {
        newBest, newChild := subtree[child], Some(child);
      }
    }

    /** `analyze`. The prefixes heed every recursive edge ever recorded, the subtrees only those of this
        search. */
    method Analyze(root: Name) returns (prefix: map<Name, nat>, parent: map<Name, Option<Name>>)
      requires Valid()
      modifies this
      ensures Valid() && analysed == old(analysed) + [root]
      ensures recursiveEdges == old(recursiveEdges) + Cuts(functions, root)
      ensures Prefixed(functions, recursiveEdges, root, SearchFrom(functions, root).order, prefix, parent)
      ensures Exact(functions, root, Cuts(functions, root), recursiveEdges, subtree, prefix)
    {
      hide Inv, Exact, Prefixed, VisitRun, Closed, Universe, After, RootLast;
      state, order, now := map[], [], UNVISITED;
      NothingVisited(functions, root);
      UniverseClosed(functions, root);
      RootInUniverse(functions, root);
      Visit(root, root, [], Universe(functions, root));
      SearchKeeps(functions, root);
      prefix, parent := PrefixPass(root);
      TablesAreExact(functions, root, now, recursiveEdges, prefix, parent);
      ExactOver(functions, root, now.cut, recursiveEdges, After(functions, analysed).subtree, now.subtree, prefix);
      AfterNext(functions, analysed, root);
      analysed := analysed + [root];
    }

    /** The pass over the reversed order. */
    method PrefixPass(root: Name) returns (prefix: map<Name, nat>, parent: map<Name, Option<Name>>)
      requires Searching() && Inv(functions, root, [], now) && RootLast(root, order)
      ensures Prefixed(functions, recursiveEdges, root, order, prefix, parent)
    {
      hide Inv, Traced, CountedFrom, Prefixed, Ordered, Downward, After;
      OrderOf(functions, root, now);
      OrderedIsDownward(functions, now.cut, recursiveEdges, order);
      prefix, parent := map[root := 0], map[root := None];
      PassBegins(functions, recursiveEdges, root, order);
      var i := |order|;
      while i > 0
        invariant 0 <= i <= |order|
        invariant Traced(functions, recursiveEdges, root, order, prefix, parent, i)
        invariant CountedFrom(functions, recursiveEdges, order, prefix, i)
      {
        i := i - 1;
        var name := order[i];
        TracedNext(functions, recursiveEdges, root, order, prefix, parent, i);
        if name in prefix {
          prefix, parent := ReachCallees(root, i, prefix, parent);
        } else {
          CountedOver(functions, recursiveEdges, order, prefix, i);
        }
      }
      PassEnds(functions, recursiveEdges, root, order, prefix, parent);
    }

    /** One function of the pass: its frame is added to the way to each kept callee, where that is heavier. */
    method ReachCallees(ghost root: Name, i: nat, prefix: map<Name, nat>, parent: map<Name, Option<Name>>)
      returns (newPrefix: map<Name, nat>, newParent: map<Name, Option<Name>>)
      requires i < |order| && Downward(functions, recursiveEdges, order) && RootLast(root, order) && order[i] in prefix
      requires Traced(functions, recursiveEdges, root, order, prefix, parent, i)
      requires CountedFrom(functions, recursiveEdges, order, prefix, i + 1)
      ensures Traced(functions, recursiveEdges, root, order, newPrefix, newParent, i)
      ensures CountedFrom(functions, recursiveEdges, order, newPrefix, i)
    {
      hide Traced, CountedFrom, Downward, RootLast;
      newPrefix, newParent := prefix, parent;
      var name, calls := order[i], Callees(functions, order[i]);
      var reach := prefix[name] + Frame(functions, name);
      var k := 0;
      while k < |calls|
        invariant k <= |calls| && name in newPrefix && newPrefix[name] == prefix[name]
        invariant CountedCalls(functions, recursiveEdges, newPrefix, name, calls[..k])
        invariant Traced(functions, recursiveEdges, root, order, newPrefix, newParent, i)
        invariant CountedFrom(functions, recursiveEdges, order, newPrefix, i + 1)
      {
        var child := calls[k];
        assert calls[..k + 1] == calls[..k] + [child];
        if (name, child) !in recursiveEdges {
          if child !in newPrefix || reach > newPrefix[child] {
            UpdateTraces(functions, recursiveEdges, root, order, newPrefix, newParent, i, child);
            UpdateCounts(functions, recursiveEdges, root, order, newPrefix, i, child, reach);
            newPrefix, newParent := newPrefix[child := reach], newParent[child := Some(name)];
          }
        }
        k := k + 1;
      }
      assert calls[..|calls|] == calls;
      CountedNext(functions, recursiveEdges, order, newPrefix, i);
    }

    /** `worst_path`: the walk along `next` ends, on a graph analysed from any roots. */
    method WorstPath(name: Name) returns (path: seq<Name>)
      requires Valid()
      ensures Walk(next, path) && path[0] == name
    {
      hide After, LastReaching, Keeps, SearchFrom;
      path := [];
      var current := Some(name);
      ghost var k := 0;
      if name in next { k := LastWriter(functions, analysed, name); }
      while current.Some?
        invariant k <= |analysed| && (path != [] ==> path[0] == name)
        invariant path == [] ==> current == Some(name)
        invariant forall i :: 0 < i < |path| ==> Leads(next, path[i - 1], path[i])
        invariant path != [] ==> current == if Last(path) in next then next[Last(path)] else None
        invariant current.Some? && current.value in next ==>
                    k < |analysed| && LastReaching(functions, analysed, k, current.value)
        invariant path != [] && current.Some? ==> current.value in next
        decreases current.Some?, current.Some? && current.value in next, |analysed| - k,
                  if current.Some? then Place(functions, analysed, k, current.value) else 0
      {
        var at := current.value;
        path := path + [at];
        current := if at in next then next[at] else None;
        if current.Some? { k := NextEntry(functions, analysed, k, at); }
      }
    }
  }

  // ----- What the search leaves

  /** For a search that cut the edges `cut`, with the edges `total` skipped by the pass: cutting leaves no
      cycle and cuts nothing outside one; the subtree of every function that the root reaches is the heaviest
      path below it; the prefixes are the heaviest paths above, by calls not skipped, of exactly the functions
      reached by such calls; and these are all that the root reaches, if nothing but `cut` is skipped. */
  ghost predicate Exact(fs: Functions, root: Name, cut: Edges, total: Edges, subtree: map<Name, nat>,
                        prefix: map<Name, nat>) {
    && OnlyCyclesCut(fs, cut)
    && (forall path, i, j :: PathFrom(fs, cut, path, root) && 0 <= i < j < |path| ==> path[i] != path[j])
    && (forall n :: Reachable(fs, root, n) ==> n in subtree && HeaviestFrom(fs, cut, n, subtree[n]))
    && (forall n :: n in prefix <==> ReachesBy(fs, total, root, n))
    && (forall n :: n in prefix ==> HeaviestAbove(fs, total, root, n, prefix[n]))
    && (total == cut ==> forall n :: n in prefix <==> Reachable(fs, root, n))
  }

  /** The statement about the entries of a search is one about the table that has them. */
  lemma ExactOver(fs: Functions, root: Name, cut: Edges, total: Edges, below: map<Name, nat>, subtree: map<Name, nat>,
                  prefix: map<Name, nat>)
    requires Exact(fs, root, cut, total, subtree, prefix)
    ensures Exact(fs, root, cut, total, below + subtree, prefix)
  {
    hide OnlyCyclesCut, Reachable, ReachesBy, HeaviestFrom, HeaviestAbove, Path;
  }

  lemma TablesAreExact(fs: Functions, root: Name, s: Search, total: Edges, prefix: map<Name, nat>,
                       parent: map<Name, Option<Name>>)
    requires Inv(fs, root, [], s) && RootLast(root, s.order) && s.cut <= total
    requires Prefixed(fs, total, root, s.order, prefix, parent)
    ensures Exact(fs, root, s.cut, total, s.subtree, prefix)
  {
    hide Inv, Ordered, Downward, Settled, OnlyCyclesCut, Reachable, ReachesBy, HeaviestFrom, HeaviestAbove,
         ClosedUnderCalls,
         EachCalled, PrefixAt, CallsCounted, Path;
    OrderOf(fs, root, s);
    OrderedIsDownward(fs, s.cut, total, s.order);
    FinishedIsClosed(fs, root, s);
    CallersInOrder(fs, root, s);
    assert root == s.order[|s.order| - 1];
    forall path, i, j | PathFrom(fs, s.cut, path, root) && 0 <= i < j < |path| ensures path[i] != path[j] {
      NoCycle(fs, s.cut, s.order, path, i, j);
    }
    forall n ensures n in s.order <==> Reachable(fs, root, n) {
      FinishedMeansReachable(fs, s.cut, root, s.order, n);
    }
    forall n | n in s.order ensures n in s.subtree && HeaviestFrom(fs, s.cut, n, s.subtree[n]) {
      SubtreeExact(fs, s.cut, s.order, s.subtree, s.next, n);
    }
    forall n ensures n in prefix <==> ReachesBy(fs, total, root, n) {
      PrefixMeansReached(fs, total, root, s.order, prefix, parent, n);
    }
    forall n | n in prefix ensures n in s.order && HeaviestAbove(fs, total, root, n, prefix[n]) {
      PrefixExact(fs, total, root, s.order, prefix, parent, n);
    }
    if total == s.cut {
      forall n | n in s.order ensures n in prefix { PassReachesAll(fs, s.cut, root, s.order, prefix, parent, n); }
    }
  }

  lemma BeginsWork(fs: Functions, root: Name, stack: seq<Name>, s: Search, name: Name)
    requires Inv(fs, root, stack, s) && name !in s.state
    requires stack != [] ==> name in Callees(fs, stack[|stack| - 1])
    ensures AtWork(fs, root, stack + [name], s, Trial(Enter(s, name), 0, None), name, 0)
  {
    hide Inv, Grows, Tried;
    EnterKeeps(fs, root, stack, s, name);
  }
}
