/**
 The depth-first search of tools/tlsr8258-stack-report.py:334-348 as a function of the graph and the root:
 what it cuts and in which order it finishes is settled by the calls alone, whatever the frames.
 */
module CallGraphRun {
  import opened Wrappers
  import opened CallGraph
  import opened CallGraphSearch
  import opened CallGraphPrefix

  // ----- The names a search can meet

  ghost predicate Closed(fs: Functions, universe: set<Name>) {
    forall n, b :: n in universe && b in Callees(fs, n) ==> b in universe
  }

  ghost function Universe(fs: Functions, root: Name): set<Name> {
    {root} + (set n, i | n in fs && 0 <= i < |fs[n].calls| :: fs[n].calls[i])
  }

  lemma UniverseClosed(fs: Functions, root: Name)
    ensures Closed(fs, Universe(fs, root))
  {}

  lemma InUniverse(fs: Functions, universe: set<Name>, n: Name, b: Name)
    requires Closed(fs, universe) && n in universe && b in Callees(fs, n)
    ensures b in universe
  {}

  /** Entering a function leaves fewer names unvisited. */
  lemma EnterShrinks(universe: set<Name>, s: Search, name: Name)
    requires name in universe && name !in s.state
    ensures universe - Enter(s, name).state.Keys < universe - s.state.Keys
  {
    assert name in universe - s.state.Keys && name !in universe - Enter(s, name).state.Keys;
  }

  // ----- The search

  /** The search while a function's callees are tried: the best so far, and whose it is. */
  datatype Trial = Trial(s: Search, best: nat, child: Option<Name>)

  /** `visit`. */
  ghost function VisitRun(fs: Functions, universe: set<Name>, s: Search, name: Name): (t: Search)
    requires Closed(fs, universe) && name in universe && name !in s.state
    ensures s.state.Keys <= t.state.Keys
    decreases universe - s.state.Keys, 0, 0
  {
    EnterShrinks(universe, s, name);
    var r := CalleesRun(fs, universe, Trial(Enter(s, name), 0, None), name, 0);
    Leave(fs, r.s, name, r.best, r.child)
  }

  /** The loop of `visit` from the k-th callee on. */
  ghost function CalleesRun(fs: Functions, universe: set<Name>, r: Trial, name: Name, k: nat): (r': Trial)
    requires Closed(fs, universe) && name in universe && k <= |Callees(fs, name)|
    ensures r.s.state.Keys <= r'.s.state.Keys
    decreases universe - r.s.state.Keys, 2, |Callees(fs, name)| - k
  {
    if k == |Callees(fs, name)| then r
    else CalleesRun(fs, universe, CalleeRun(fs, universe, r, name, k), name, k + 1)
  }

  /** The body of the loop. */
  ghost function CalleeRun(fs: Functions, universe: set<Name>, r: Trial, name: Name, k: nat): (r': Trial)
    requires Closed(fs, universe) && name in universe && k < |Callees(fs, name)|
    ensures r.s.state.Keys <= r'.s.state.Keys
    decreases universe - r.s.state.Keys, 1, 0
  {
    var child := Callees(fs, name)[k];
    if child in r.s.state && r.s.state[child] == ACTIVE then r.(s := Cut(r.s, name, child))
    else
      var s := if child in r.s.state then r.s else VisitRun(fs, universe, r.s, child);
      if child in s.subtree && s.subtree[child] > r.best then Trial(s, s.subtree[child], Some(child)) else r.(s := s)
  }

  const UNVISITED: Search := Search({}, map[], map[], map[], [])

  /** The whole search from a root. */
  ghost function SearchFrom(fs: Functions, root: Name): Search {
    UniverseClosed(fs, root);
    VisitRun(fs, Universe(fs, root), UNVISITED, root)
  }

  /** The edges that the search from a root cuts. */
  ghost function Cuts(fs: Functions, root: Name): Edges {
    SearchFrom(fs, root).cut
  }

  // ----- What it keeps

  lemma ActiveOnStack(fs: Functions, root: Name, stack: seq<Name>, s: Search, n: Name)
    requires Inv(fs, root, stack, s) && n in s.state && s.state[n] == ACTIVE
    ensures n in stack
  {}

  lemma DoneInOrder(fs: Functions, root: Name, stack: seq<Name>, s: Search, n: Name)
    requires Inv(fs, root, stack, s) && n in s.state && s.state[n] != ACTIVE
    ensures n in s.order
  {}

  lemma CutGrows(first: Search, s: Search, name: Name, child: Name)
    requires Grows(first, s) && name !in first.state
    ensures Grows(first, Cut(s, name, child))
  {}

  lemma LastInOrder(order: seq<Name>, name: Name)
    requires RootLast(name, order)
    ensures name in order
  {}

  /** The search at work on `name`, which began at `first`, with k callees tried. */
  ghost predicate AtWork(fs: Functions, root: Name, here: seq<Name>, first: Search, r: Trial, name: Name, k: nat) {
    && here != [] && here[|here| - 1] == name && name !in first.state
    && Inv(fs, root, here, r.s) && Grows(first, r.s) && Tried(fs, here, r.s, name, k, r.best, r.child)
  }

  lemma {:induction false} CalleeKeeps(
      fs: Functions, universe: set<Name>, root: Name, here: seq<Name>, first: Search, r: Trial, name: Name, k: nat)
    requires Closed(fs, universe) && name in universe && k < |Callees(fs, name)|
    requires AtWork(fs, root, here, first, r, name, k)
    ensures AtWork(fs, root, here, first, CalleeRun(fs, universe, r, name, k), name, k + 1)
    decreases universe - r.s.state.Keys, 1, 0
  {
    hide Inv, Grows, Tried, Closed;
    var s, child := r.s, Callees(fs, name)[k];
    if child in s.state && s.state[child] == ACTIVE {
      ActiveOnStack(fs, root, here, s, child);
      CutStep(fs, root, here, s, name, k, r.best, r.child);
      CutGrows(first, s, name, child);
    } else {
      InUniverse(fs, universe, name, child);
      var t := if child in s.state then s else VisitRun(fs, universe, s, child);
      if child in s.state {
        DoneInOrder(fs, root, here, s, child);
      } else {
        VisitKeeps(fs, universe, root, here, s, child);
        VisitKeepsBest(fs, root, here, s, t, name, k, r.best, r.child);
        GrowsTrans(first, s, t);
        LastInOrder(t.order, child);
      }
      CompareStep(fs, root, here, t, name, k, r.best, r.child);
    }
  }

  lemma {:induction false} CalleesKeep(
      fs: Functions, universe: set<Name>, root: Name, here: seq<Name>, first: Search, r: Trial, name: Name, k: nat)
    requires Closed(fs, universe) && name in universe && k <= |Callees(fs, name)|
    requires AtWork(fs, root, here, first, r, name, k)
    ensures AtWork(fs, root, here, first, CalleesRun(fs, universe, r, name, k), name, |Callees(fs, name)|)
    decreases universe - r.s.state.Keys, 2, |Callees(fs, name)| - k
  {
    hide AtWork, Closed, CalleeRun;
    if k < |Callees(fs, name)| {
      CalleeKeeps(fs, universe, root, here, first, r, name, k);
      CalleesKeep(fs, universe, root, here, first, CalleeRun(fs, universe, r, name, k), name, k + 1);
    }
  }

  lemma {:induction false} VisitKeeps(
      fs: Functions, universe: set<Name>, root: Name, stack: seq<Name>, s: Search, name: Name)
    requires Closed(fs, universe) && name in universe && name !in s.state && Inv(fs, root, stack, s)
    requires if stack == [] then name == root else name in Callees(fs, stack[|stack| - 1])
    ensures var t := VisitRun(fs, universe, s, name);
            Inv(fs, root, stack, t) && Grows(s, t) && RootLast(name, t.order)
    decreases universe - s.state.Keys, 0, 0
  {
    hide Inv, Grows, Tried, Closed, CalleesRun;
    var here, begun := stack + [name], Trial(Enter(s, name), 0, None);
    EnterKeeps(fs, root, stack, s, name);
    EnterShrinks(universe, s, name);
    CalleesKeep(fs, universe, root, here, s, begun, name, 0);
    var r := CalleesRun(fs, universe, begun, name, 0);
    LeaveKeeps(fs, root, stack, s, r.s, name, r.best, r.child);
  }

  lemma NothingVisited(fs: Functions, root: Name)
    ensures Inv(fs, root, [], UNVISITED)
  {}

  /** A whole search ends with its invariant and its root. */
  lemma SearchKeeps(fs: Functions, root: Name)
    ensures Inv(fs, root, [], SearchFrom(fs, root)) && RootLast(root, SearchFrom(fs, root).order)
  {
    hide Inv, Closed, VisitRun;
    NothingVisited(fs, root);
    UniverseClosed(fs, root);
    VisitKeeps(fs, Universe(fs, root), root, [], UNVISITED, root);
  }

  // ----- Frames play no part

  /** The same functions with the same calls. */
  ghost predicate SameCalls(fs: Functions, gs: Functions) {
    fs.Keys == gs.Keys && forall n :: n in fs ==> fs[n].calls == gs[n].calls
  }

  lemma SameCallees(fs: Functions, gs: Functions, n: Name)
    requires SameCalls(fs, gs)
    ensures Callees(fs, n) == Callees(gs, n)
  {}

  /** The same colours, order and cuts. */
  ghost predicate SameWalk(s: Search, t: Search) {
    s.cut == t.cut && s.state == t.state && s.order == t.order
  }

  lemma {:induction false} SameVisit(
      fs: Functions, gs: Functions, universe: set<Name>, s: Search, t: Search, name: Name)
    requires SameCalls(fs, gs) && Closed(fs, universe) && Closed(gs, universe) && SameWalk(s, t)
    requires name in universe && name !in s.state
    ensures SameWalk(VisitRun(fs, universe, s, name), VisitRun(gs, universe, t, name))
    decreases universe - s.state.Keys, 0, 0
  {
    hide Closed, SameCalls, CalleesRun;
    SameCallees(fs, gs, name);
    EnterShrinks(universe, s, name);
    SameCalleesRun(fs, gs, universe, Trial(Enter(s, name), 0, None), Trial(Enter(t, name), 0, None), name, 0);
  }

  lemma {:induction false} SameCalleesRun(
      fs: Functions, gs: Functions, universe: set<Name>, r: Trial, q: Trial, name: Name, k: nat)
    requires SameCalls(fs, gs) && Closed(fs, universe) && Closed(gs, universe) && SameWalk(r.s, q.s)
    requires name in universe && Callees(fs, name) == Callees(gs, name) && k <= |Callees(fs, name)|
    ensures SameWalk(CalleesRun(fs, universe, r, name, k).s, CalleesRun(gs, universe, q, name, k).s)
    decreases universe - r.s.state.Keys, 2, |Callees(fs, name)| - k
  {
    hide Closed, SameCalls, CalleeRun;
    if k < |Callees(fs, name)| {
      SameCallee(fs, gs, universe, r, q, name, k);
      var r', q' := CalleeRun(fs, universe, r, name, k), CalleeRun(gs, universe, q, name, k);
      SameCalleesRun(fs, gs, universe, r', q', name, k + 1);
    }
  }

  lemma {:induction false} SameCallee(
      fs: Functions, gs: Functions, universe: set<Name>, r: Trial, q: Trial, name: Name, k: nat)
    requires SameCalls(fs, gs) && Closed(fs, universe) && Closed(gs, universe) && SameWalk(r.s, q.s)
    requires name in universe && Callees(fs, name) == Callees(gs, name) && k < |Callees(fs, name)|
    ensures SameWalk(CalleeRun(fs, universe, r, name, k).s, CalleeRun(gs, universe, q, name, k).s)
    decreases universe - r.s.state.Keys, 1, 0
  {
    hide SameCalls, VisitRun;
    var child := Callees(fs, name)[k];
    if child !in r.s.state { SameVisit(fs, gs, universe, r.s, q.s, child); }
  }

  lemma SameUniverse(fs: Functions, gs: Functions, root: Name)
    requires SameCalls(fs, gs)
    ensures Universe(fs, root) == Universe(gs, root)
  {
    assert forall n, i :: n in fs && 0 <= i < |fs[n].calls| ==> fs[n].calls[i] == gs[n].calls[i];
  }

  /** What a search cuts does not depend on the frames. */
  lemma CutsIgnoreFrames(fs: Functions, gs: Functions, root: Name)
    requires SameCalls(fs, gs)
    ensures Cuts(fs, root) == Cuts(gs, root)
  {
    hide SameCalls, VisitRun, Universe;
    SameUniverse(fs, gs, root);
    UniverseClosed(fs, root);
    UniverseClosed(gs, root);
    RootInUniverse(fs, root);
    SameVisit(fs, gs, Universe(fs, root), UNVISITED, UNVISITED, root);
  }

  lemma RootInUniverse(fs: Functions, root: Name)
    ensures root in Universe(fs, root)
  {}

  // ----- What a finished search leaves

  lemma OrderOf(fs: Functions, root: Name, s: Search)
    requires Inv(fs, root, [], s)
    ensures Ordered(fs, s.cut, s.order) && Downward(fs, s.cut, s.order) && OnlyCyclesCut(fs, s.cut)
    ensures Settled(fs, s.cut, s.order, s.subtree, s.next)
  {
    hide Settled, OnlyCyclesCut, Stacked, AllCalled, Coloured, CutsUp;
    OrderedIsDownward(fs, s.cut, s.cut, s.order);
  }

  lemma CallersInOrder(fs: Functions, root: Name, s: Search)
    requires Inv(fs, root, [], s)
    ensures EachCalled(fs, s.cut, root, s.order)
  {
    hide Ordered, Settled, OnlyCyclesCut, Coloured, CutsUp, Stacked;
    forall n | n in s.order && n != root ensures exists p :: p in s.order && Keeps(fs, s.cut, p, n) {
      assert HasCaller(fs, [], s, n);
    }
  }

  lemma FinishedIsClosed(fs: Functions, root: Name, s: Search)
    requires Inv(fs, root, [], s)
    ensures ClosedUnderCalls(fs, s.order)
  {
    hide Settled, OnlyCyclesCut, Stacked, AllCalled, Downward;
    OrderedIsDownward(fs, s.cut, s.cut, s.order);
    forall a, b | a in s.order && b in Callees(fs, a) ensures b in s.order {
      if (a, b) !in s.cut { KeptGoesDown(fs, s.cut, s.order, a, b); }
    }
  }

  lemma EntryOf(fs: Functions, root: Name, s: Search, at: Name)
    requires Inv(fs, root, [], s) && at in s.order
    ensures SettledAt(fs, s.cut, s.subtree, s.next, at)
    ensures s.next[at].Some? ==> s.next[at].value in s.subtree
  {}

  lemma TablesOfOrder(fs: Functions, root: Name, s: Search)
    requires Inv(fs, root, [], s)
    ensures forall n :: (n in s.order <==> n in s.subtree) && (n in s.order <==> n in s.next)
  {
    hide Ordered, OnlyCyclesCut, Coloured, CutsUp, Stacked, AllCalled, Settled;
    forall n | n in s.order ensures n in s.subtree { FinishedEntry(fs, root, [], s, n); }
  }

  /** A search has entries for exactly the functions that its root reaches. */
  lemma SearchReaches(fs: Functions, root: Name, n: Name)
    ensures var s := SearchFrom(fs, root);
            && (n in s.order <==> Reachable(fs, root, n))
            && (n in s.subtree <==> Reachable(fs, root, n)) && (n in s.next <==> Reachable(fs, root, n))
  {
    hide Inv, SearchFrom, Ordered, Downward, Settled, OnlyCyclesCut, Reachable, EachCalled, ClosedUnderCalls;
    var s := SearchFrom(fs, root);
    SearchKeeps(fs, root);
    OrderOf(fs, root, s);
    CallersInOrder(fs, root, s);
    FinishedIsClosed(fs, root, s);
    LastInOrder(s.order, root);
    FinishedMeansReachable(fs, s.cut, root, s.order, n);
    TablesOfOrder(fs, root, s);
  }
}
