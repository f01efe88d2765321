/**
 Several roots on one graph (tools/tlsr8258-stack-report.py:329-363, 435-450). `recursive_edges` is kept from
 root to root, so that the pass of a later root skips calls that its own search kept. Exactly when the merged
 table still holds the deepest caller prefix over all roots, as its docstring promises, is a matter of the
 calls and the list of roots alone.
 */
module Roots {
  import opened CallGraph
  import opened CallGraphSearch
  import opened CallGraphPrefix
  import opened CallGraphRun

  // ----- The paths of each root

  /** The recursive edges recorded when the first i roots have been analysed. */
  ghost function Recorded(fs: Functions, initial: Edges, roots: seq<Name>, i: nat): Edges
    requires i <= |roots|
  {
    if i == 0 then initial else Recorded(fs, initial, roots, i - 1) + Cuts(fs, roots[i - 1])
  }

  /** A call chain of the i-th root: its own search keeps every call of it. */
  ghost predicate OwnPath(fs: Functions, roots: seq<Name>, i: nat, path: seq<Name>) {
    i < |roots| && PathFrom(fs, Cuts(fs, roots[i]), path, roots[i])
  }

  /** A chain that the pass of the j-th root counts: no call of it has been recorded as recursive. */
  ghost predicate CountedPath(fs: Functions, initial: Edges, roots: seq<Name>, j: nat, path: seq<Name>) {
    j < |roots| && PathFrom(fs, Recorded(fs, initial, roots, j + 1), path, roots[j])
  }

  lemma FewerCuts(fs: Functions, cut: Edges, more: Edges, path: seq<Name>)
    requires Path(fs, more, path) && cut <= more
    ensures Path(fs, cut, path)
  {
    forall i | 0 < i < |path| ensures Keeps(fs, cut, path[i - 1], path[i]) {
      assert Keeps(fs, more, path[i - 1], path[i]);
    }
  }

  /** What is counted for a root is a chain of it. */
  lemma CountedIsOwn(fs: Functions, initial: Edges, roots: seq<Name>, j: nat, path: seq<Name>)
    requires CountedPath(fs, initial, roots, j, path)
    ensures OwnPath(fs, roots, j, path)
  {
    FewerCuts(fs, Cuts(fs, roots[j]), Recorded(fs, initial, roots, j + 1), path);
  }

  /** The chains of a root do not return to a function. */
  lemma OwnDistinct(fs: Functions, roots: seq<Name>, i: nat, path: seq<Name>)
    requires OwnPath(fs, roots, i, path)
    ensures Distinct(path)
  {
    hide Inv, SearchFrom, Downward, Ordered, Settled, OnlyCyclesCut, Path;
    var root := roots[i];
    var s := SearchFrom(fs, root);
    SearchKeeps(fs, root);
    OrderOf(fs, root, s);
    LastInOrder(s.order, root);
    forall a, b | 0 <= a < b < |path| ensures path[a] != path[b] { NoCycle(fs, s.cut, s.order, path, a, b); }
  }

  // ----- Covering is outweighing

  ghost predicate Covers(q: seq<Name>, p: seq<Name>) {
    forall n :: n in p ==> n in q
  }

  /** A list that has all of p's functions weighs at least as much. */
  lemma {:induction false} CoveringIsHeavier(fs: Functions, p: seq<Name>, q: seq<Name>)
    requires Distinct(p) && Covers(q, p)
    ensures Weight(fs, p) <= Weight(fs, q)
  {
    if p != [] {
      assert p[0] in p;
      var k :| 0 <= k < |q| && q[k] == p[0];
      var rest := q[..k] + q[k + 1..];
      assert q == q[..k] + [q[k]] + q[k + 1..];
      forall n | n in p[1..] ensures n in rest {
        assert n in p && n != p[0];
        var j :| 0 <= j < |q| && q[j] == n;
        assert n == if j < k then rest[j] else rest[j - 1];
      }
      CoveringIsHeavier(fs, p[1..], rest);
      WeightConcat(fs, q[..k] + [q[k]], q[k + 1..]);
      WeightConcat(fs, q[..k], [q[k]]);
      WeightConcat(fs, q[..k], q[k + 1..]);
      WeightOne(fs, q[k]);
    }
  }

  /** The same graph with other frames. */
  ghost function Reframed(fs: Functions, frames: Name -> nat): Functions {
    map n | n in fs :: Function(frames(n), fs[n].calls)
  }

  lemma ReframedCalls(fs: Functions, frames: Name -> nat)
    ensures SameCalls(fs, Reframed(fs, frames))
  {}

  ghost function Elements(path: seq<Name>): set<Name> {
    set n | n in path
  }

  function Marking(marks: set<Name>): Name -> nat {
    n => if n in marks then 1 else 0
  }

  lemma MarkedFrame(fs: Functions, marks: set<Name>, n: Name)
    ensures Frame(Reframed(fs, Marking(marks)), n) == if n in marks * fs.Keys then 1 else 0
  {}

  lemma ElementsNext(path: seq<Name>)
    requires path != [] && Distinct(path)
    ensures Elements(path) == {path[0]} + Elements(path[1..]) && path[0] !in Elements(path[1..]) && Distinct(path[1..])
  {
    assert path == [path[0]] + path[1..];
  }

  lemma CountNext(all: set<Name>, n: Name, rest: set<Name>)
    requires n !in rest
    ensures |all * ({n} + rest)| == |all * rest| + if n in all then 1 else 0
  {
    if n in all {
      assert all * ({n} + rest) == all * rest + {n};
    } else {
      assert all * ({n} + rest) == all * rest;
    }
  }

  /** With frame 1 for the marked functions and 0 for the others, a chain weighs what it marks. */
  lemma {:induction false} MarkedWeight(fs: Functions, marks: set<Name>, path: seq<Name>)
    requires Distinct(path)
    ensures Weight(Reframed(fs, Marking(marks)), path) == |marks * fs.Keys * Elements(path)|
  {
    hide Reframed, Marking, Frame, Elements, Distinct;
    if path == [] {
      NoElements();
      assert marks * fs.Keys * {} == {};
    } else {
      ElementsNext(path);
      MarkedWeight(fs, marks, path[1..]);
      MarkedFrame(fs, marks, path[0]);
      CountNext(marks * fs.Keys, path[0], Elements(path[1..]));
    }
  }

  lemma NoElements()
    ensures Elements([]) == {}
  {}

  lemma SmallerSubset<T>(a: set<T>, b: set<T>)
    requires a <= b && |a| >= |b|
    ensures a == b
  {
    assert b == a + (b - a);
  }

  /** A chain that weighs as much when p's functions are marked has all of them that have a frame. */
  lemma OutweighingMeets(fs: Functions, p: seq<Name>, q: seq<Name>)
    requires Distinct(p) && Distinct(q)
    requires var gs := Reframed(fs, Marking(Elements(p))); Weight(gs, q) >= Weight(gs, p)
    ensures forall n :: n in p && n in fs ==> n in q
  {
    hide Weight, Reframed, Marking, Distinct, Elements;
    var marks := Elements(p);
    MarkedWeight(fs, marks, p);
    MarkedWeight(fs, marks, q);
    assert marks * fs.Keys * marks == marks * fs.Keys;
    SmallerSubset(marks * fs.Keys * Elements(q), marks * fs.Keys);
    forall n | n in p && n in fs ensures n in q {
      ElementOf(p, n);
      ElementOf(q, n);
      assert n in marks * fs.Keys;
    }
  }

  lemma ElementOf(path: seq<Name>, n: Name)
    ensures n in Elements(path) <==> n in path
  {}

  /** So it has all of them, if both end at one function. */
  lemma OutweighingCovers(fs: Functions, cut: Edges, p: seq<Name>, q: seq<Name>)
    requires Path(fs, cut, p) && Distinct(p) && Distinct(q) && q != [] && Last(q) == Last(p)
    requires var gs := Reframed(fs, Marking(Elements(p))); Weight(gs, q) >= Weight(gs, p)
    ensures Covers(q, p)
  {
    hide Path, Weight, Reframed, Marking, Distinct, Elements;
    OutweighingMeets(fs, p, q);
    forall n | n in p ensures n in q {
      var k :| 0 <= k < |p| && p[k] == n;
      if k + 1 < |p| { CallerKnown(fs, cut, p, k); }
    }
  }

  lemma CallerKnown(fs: Functions, cut: Edges, path: seq<Name>, k: nat)
    requires Path(fs, cut, path) && k + 1 < |path|
    ensures path[k] in fs
  {
    assert Keeps(fs, cut, path[k + 1 - 1], path[k + 1]);
  }

  // ----- The exact condition

  /** Some chain counted for some root ends where p does and has all its functions. */
  ghost predicate Covered(fs: Functions, initial: Edges, roots: seq<Name>, p: seq<Name>) {
    exists j, q :: CountedPath(fs, initial, roots, j, q) && Last(q) == Last(p) && Covers(q, p)
  }

  /** The condition, on the calls and the roots alone: every chain of every root is covered. */
  ghost predicate NothingHidden(fs: Functions, initial: Edges, roots: seq<Name>) {
    forall i, p :: OwnPath(fs, roots, i, p) ==> Covered(fs, initial, roots, p)
  }

  ghost predicate Outweighed(fs: Functions, initial: Edges, roots: seq<Name>, p: seq<Name>) {
    exists j, q :: CountedPath(fs, initial, roots, j, q) && Last(q) == Last(p) && Weight(fs, p) <= Weight(fs, q)
  }

  /** What is counted is as deep as every chain of every root. */
  ghost predicate Dominated(fs: Functions, initial: Edges, roots: seq<Name>) {
    forall i, p :: OwnPath(fs, roots, i, p) ==> Outweighed(fs, initial, roots, p)
  }

  lemma {:induction false} RecordedIgnoresFrames(fs: Functions, gs: Functions, initial: Edges, roots: seq<Name>, i: nat)
    requires SameCalls(fs, gs) && i <= |roots|
    ensures Recorded(fs, initial, roots, i) == Recorded(gs, initial, roots, i)
  {
    hide SameCalls, Cuts;
    if i > 0 {
      RecordedIgnoresFrames(fs, gs, initial, roots, i - 1);
      CutsIgnoreFrames(fs, gs, roots[i - 1]);
    }
  }

  lemma SamePath(fs: Functions, gs: Functions, cut: Edges, path: seq<Name>)
    requires SameCalls(fs, gs)
    ensures Path(fs, cut, path) <==> Path(gs, cut, path)
  {
    hide SameCalls;
    forall a, b ensures Keeps(fs, cut, a, b) <==> Keeps(gs, cut, a, b) { SameCallees(fs, gs, a); }
  }

  /** Chains, and which of them are counted, do not depend on the frames. */
  lemma PathsIgnoreFrames(fs: Functions, gs: Functions, initial: Edges, roots: seq<Name>, i: nat, path: seq<Name>)
    requires SameCalls(fs, gs)
    ensures OwnPath(fs, roots, i, path) <==> OwnPath(gs, roots, i, path)
    ensures CountedPath(fs, initial, roots, i, path) <==> CountedPath(gs, initial, roots, i, path)
  {
    hide SameCalls, Cuts, Path, Recorded;
    if i < |roots| {
      CutsIgnoreFrames(fs, gs, roots[i]);
      RecordedIgnoresFrames(fs, gs, initial, roots, i + 1);
      SamePath(fs, gs, Cuts(fs, roots[i]), path);
      SamePath(fs, gs, Recorded(fs, initial, roots, i + 1), path);
    }
  }

  lemma CoveredIsOutweighed(fs: Functions, frames: Name -> nat, initial: Edges, roots: seq<Name>, i: nat, p: seq<Name>)
    requires OwnPath(fs, roots, i, p) && Covered(fs, initial, roots, p)
    ensures Outweighed(Reframed(fs, frames), initial, roots, p)
  {
    hide OwnPath, CountedPath, Weight, SameCalls;
    var gs := Reframed(fs, frames);
    var j: nat, q :| CountedPath(fs, initial, roots, j, q) && Last(q) == Last(p) && Covers(q, p);
    OwnDistinct(fs, roots, i, p);
    CoveringIsHeavier(gs, p, q);
    ReframedCalls(fs, frames);
    PathsIgnoreFrames(fs, gs, initial, roots, j, q);
  }

  lemma OutweighedIsCovered(fs: Functions, initial: Edges, roots: seq<Name>, i: nat, p: seq<Name>)
    requires OwnPath(fs, roots, i, p) && Outweighed(Reframed(fs, Marking(Elements(p))), initial, roots, p)
    ensures Covered(fs, initial, roots, p)
  {
    hide CountedPath, Weight, SameCalls, Path, Reframed;
    var gs := Reframed(fs, Marking(Elements(p)));
    var j: nat, q :| CountedPath(gs, initial, roots, j, q) && Last(q) == Last(p) && Weight(gs, p) <= Weight(gs, q);
    ReframedCalls(fs, Marking(Elements(p)));
    PathsIgnoreFrames(fs, gs, initial, roots, j, q);
    CountedIsOwn(fs, initial, roots, j, q);
    OwnDistinct(fs, roots, i, p);
    OwnDistinct(fs, roots, j, q);
    PathNotEmpty(fs, Cuts(fs, roots[j]), q);
    OutweighingCovers(fs, Cuts(fs, roots[i]), p, q);
  }

  /** The depths are right for every choice of frames exactly when nothing is hidden. */
  lemma DepthsExactly(fs: Functions, initial: Edges, roots: seq<Name>)
    ensures NothingHidden(fs, initial, roots) <==>
              forall frames: Name -> nat :: Dominated(Reframed(fs, frames), initial, roots)
  {
    hide OwnPath, Covered, Outweighed, Reframed, SameCalls;
    if NothingHidden(fs, initial, roots) {
      forall frames: Name -> nat ensures Dominated(Reframed(fs, frames), initial, roots) {
        var gs := Reframed(fs, frames);
        ReframedCalls(fs, frames);
        forall i, p | OwnPath(gs, roots, i, p) ensures Outweighed(gs, initial, roots, p) {
          PathsIgnoreFrames(fs, gs, initial, roots, i, p);
          CoveredIsOutweighed(fs, frames, initial, roots, i, p);
        }
      }
    }
    if forall frames: Name -> nat :: Dominated(Reframed(fs, frames), initial, roots) {
      forall i, p | OwnPath(fs, roots, i, p) ensures Covered(fs, initial, roots, p) {
        var gs := Reframed(fs, Marking(Elements(p)));
        ReframedCalls(fs, Marking(Elements(p)));
        PathsIgnoreFrames(fs, gs, initial, roots, i, p);
        assert Dominated(gs, initial, roots);
        OutweighedIsCovered(fs, initial, roots, i, p);
      }
    }
  }

  // ----- The merged table

  /** A chain to n counted for one of the first i roots. */
  ghost predicate CountedTo(fs: Functions, initial: Edges, roots: seq<Name>, i: nat, n: Name, path: seq<Name>) {
    Last(path) == n && exists j: nat :: j < i && CountedPath(fs, initial, roots, j, path)
  }

  /** An entry is the heaviest chain above n counted for the first i roots; without entry there is none. */
  ghost predicate MergedAt(fs: Functions, initial: Edges, roots: seq<Name>, i: nat, merged: map<Name, nat>, n: Name) {
    && (n in merged ==>
          exists q :: CountedTo(fs, initial, roots, i, n, q) && Weight(fs, q) == merged[n] + Frame(fs, n))
    && forall q :: CountedTo(fs, initial, roots, i, n, q) ==>
                     n in merged && Weight(fs, q) <= merged[n] + Frame(fs, n)
  }

  ghost predicate Merged(fs: Functions, initial: Edges, roots: seq<Name>, i: nat, merged: map<Name, nat>) {
    forall n :: MergedAt(fs, initial, roots, i, merged, n)
  }

  ghost predicate OwnTo(fs: Functions, roots: seq<Name>, n: Name, path: seq<Name>) {
    Last(path) == n && exists i: nat :: OwnPath(fs, roots, i, path)
  }

  ghost predicate DeepestAt(fs: Functions, roots: seq<Name>, merged: map<Name, nat>, n: Name) {
    && (n in merged ==> exists p :: OwnTo(fs, roots, n, p) && Weight(fs, p) == merged[n] + Frame(fs, n))
    && forall p :: OwnTo(fs, roots, n, p) ==> n in merged && Weight(fs, p) <= merged[n] + Frame(fs, n)
  }

  /** What the docstring promises: every function keeps the deepest caller prefix over all roots. */
  ghost predicate Deepest(fs: Functions, roots: seq<Name>, merged: map<Name, nat>) {
    forall n :: DeepestAt(fs, roots, merged, n)
  }

  lemma CountedToIsOwn(fs: Functions, initial: Edges, roots: seq<Name>, n: Name, path: seq<Name>)
    requires CountedTo(fs, initial, roots, |roots|, n, path)
    ensures OwnTo(fs, roots, n, path)
  {
    hide CountedPath, OwnPath;
    var j: nat :| j < |roots| && CountedPath(fs, initial, roots, j, path);
    CountedIsOwn(fs, initial, roots, j, path);
  }

  /** The merged table has the deepest prefixes exactly when what is counted is as deep as every chain. */
  lemma DeepestIsDominated(fs: Functions, initial: Edges, roots: seq<Name>, merged: map<Name, nat>)
    requires Merged(fs, initial, roots, |roots|, merged)
    ensures Deepest(fs, roots, merged) <==> Dominated(fs, initial, roots)
  {
    hide MergedAt, DeepestAt, OwnPath, Outweighed;
    if Dominated(fs, initial, roots) {
      forall n ensures DeepestAt(fs, roots, merged, n) {
        assert MergedAt(fs, initial, roots, |roots|, merged, n);
        DominatedIsDeepest(fs, initial, roots, merged, n);
      }
    }
    if Deepest(fs, roots, merged) {
      forall i, p | OwnPath(fs, roots, i, p) ensures Outweighed(fs, initial, roots, p) {
        assert MergedAt(fs, initial, roots, |roots|, merged, Last(p));
        assert DeepestAt(fs, roots, merged, Last(p));
        DeepestOutweighs(fs, initial, roots, merged, i, p);
      }
    }
  }

  lemma DominatedIsDeepest(fs: Functions, initial: Edges, roots: seq<Name>, merged: map<Name, nat>, n: Name)
    requires MergedAt(fs, initial, roots, |roots|, merged, n) && Dominated(fs, initial, roots)
    ensures DeepestAt(fs, roots, merged, n)
  {
    hide OwnPath, CountedPath, Weight, Frame;
    if n in merged {
      var q :| CountedTo(fs, initial, roots, |roots|, n, q) && Weight(fs, q) == merged[n] + Frame(fs, n);
      CountedToIsOwn(fs, initial, roots, n, q);
    }
    forall p | OwnTo(fs, roots, n, p) ensures n in merged && Weight(fs, p) <= merged[n] + Frame(fs, n) {
      assert Outweighed(fs, initial, roots, p);
      var j: nat, q :|
        CountedPath(fs, initial, roots, j, q) && Last(q) == Last(p) && Weight(fs, p) <= Weight(fs, q);
      CountedInRange(fs, initial, roots, j, q);
      assert CountedTo(fs, initial, roots, |roots|, n, q);
    }
  }

  lemma CountedInRange(fs: Functions, initial: Edges, roots: seq<Name>, j: nat, q: seq<Name>)
    requires CountedPath(fs, initial, roots, j, q)
    ensures j < |roots| && q != []
  {}

  lemma DeepestOutweighs(fs: Functions, initial: Edges, roots: seq<Name>, merged: map<Name, nat>, i: nat, p: seq<Name>)
    requires OwnPath(fs, roots, i, p)
    requires MergedAt(fs, initial, roots, |roots|, merged, Last(p)) && DeepestAt(fs, roots, merged, Last(p))
    ensures Outweighed(fs, initial, roots, p)
  {
    hide OwnPath, CountedPath, Weight, Frame;
    var n := Last(p);
    assert OwnTo(fs, roots, n, p);
    var q :| CountedTo(fs, initial, roots, |roots|, n, q) && Weight(fs, q) == merged[n] + Frame(fs, n);
    var j: nat :| j < |roots| && CountedPath(fs, initial, roots, j, q);
  }

  /** Exactly when the docstring holds: when nothing is hidden, the merged table has the deepest prefixes for
      all frames; when something is, there are frames for which it does not. */
  lemma DeepestExactly(fs: Functions, initial: Edges, roots: seq<Name>)
    ensures NothingHidden(fs, initial, roots) ==>
              forall frames: Name -> nat, merged :: Merged(Reframed(fs, frames), initial, roots, |roots|, merged) ==>
                Deepest(Reframed(fs, frames), roots, merged)
    ensures !NothingHidden(fs, initial, roots) ==>
              exists frames: Name -> nat :: forall merged ::
                Merged(Reframed(fs, frames), initial, roots, |roots|, merged) ==>
                  !Deepest(Reframed(fs, frames), roots, merged)
  {
    hide NothingHidden, Dominated, Reframed, Merged, Deepest;
    DepthsExactly(fs, initial, roots);
    forall frames: Name -> nat, merged: map<Name, nat> | Merged(Reframed(fs, frames), initial, roots, |roots|, merged)
      ensures Deepest(Reframed(fs, frames), roots, merged) <==> Dominated(Reframed(fs, frames), initial, roots)
    {
      DeepestIsDominated(Reframed(fs, frames), initial, roots, merged);
    }
  }

  // ----- One root on a graph with recorded edges

  /** Every call that the search keeps can also be made by calls that no search has recorded. */
  ghost predicate Detoured(fs: Functions, initial: Edges, root: Name) {
    forall x, y :: ReachesBy(fs, Cuts(fs, root), root, x) && Keeps(fs, Cuts(fs, root), x, y) ==>
      ReachesBy(fs, initial + Cuts(fs, root), x, y)
  }

  lemma OneRecorded(fs: Functions, initial: Edges, root: Name)
    ensures Recorded(fs, initial, [root], 1) == initial + Cuts(fs, root)
  {
    assert Recorded(fs, initial, [root], 0) == initial;
  }

  /** The kept calls of a chain are replaced, one after the other, by their detours. */
  lemma {:induction false} DetourChain(fs: Functions, initial: Edges, root: Name, p: seq<Name>) returns (q: seq<Name>)
    requires Detoured(fs, initial, root) && PathFrom(fs, Cuts(fs, root), p, root)
    ensures PathFrom(fs, initial + Cuts(fs, root), q, root) && Last(q) == Last(p) && Covers(q, p)
    decreases |p|
  {
    hide Cuts;
    var n := |p| - 1;
    if n == 0 {
      q := p;
    } else {
      ShortenPath(fs, Cuts(fs, root), p);
      var above := DetourChain(fs, initial, root, p[..n]);
      var x, y := p[n - 1], p[n];
      assert PathTo(fs, Cuts(fs, root), p[..n], root, x);
      assert ReachesBy(fs, initial + Cuts(fs, root), x, y);
      var detour :| PathTo(fs, initial + Cuts(fs, root), detour, x, y);
      JoinPath(fs, initial + Cuts(fs, root), above, detour);
      q := above + detour[1..];
      assert p == p[..n] + [y];
      JoinedEnds(above, detour);
      JoinedCovers(above, detour, p[..n]);
    }
  }

  lemma JoinedEnds(above: seq<Name>, below: seq<Name>)
    requires above != [] && below != [] && Last(above) == below[0]
    ensures var q := above + below[1..]; q != [] && q[0] == above[0] && Last(q) == Last(below)
  {}

  lemma JoinedCovers(above: seq<Name>, below: seq<Name>, path: seq<Name>)
    requires above != [] && below != [] && Last(above) == below[0] && Covers(above, path)
    ensures Covers(above + below[1..], path + [Last(below)])
  {
    var q := above + below[1..];
    JoinedEnds(above, below);
    assert Last(below) == q[|q| - 1];
  }

  /** One root, after any others: nothing is hidden exactly when every kept call has its detour. */
  lemma OneRootExactly(fs: Functions, initial: Edges, root: Name)
    ensures NothingHidden(fs, initial, [root]) <==> Detoured(fs, initial, root)
  {
    hide Cuts, Path, Recorded, Covers;
    OneRecorded(fs, initial, root);
    if Detoured(fs, initial, root) {
      forall i, p | OwnPath(fs, [root], i, p) ensures Covered(fs, initial, [root], p) {
        var q := DetourChain(fs, initial, root, p);
        assert CountedPath(fs, initial, [root], 0, q);
      }
    }
    if NothingHidden(fs, initial, [root]) {
      forall x, y | ReachesBy(fs, Cuts(fs, root), root, x) && Keeps(fs, Cuts(fs, root), x, y)
        ensures ReachesBy(fs, initial + Cuts(fs, root), x, y)
      {
        CoverGivesDetour(fs, initial, root, x, y);
      }
    }
  }

  lemma CoverGivesDetour(fs: Functions, initial: Edges, root: Name, x: Name, y: Name)
    requires NothingHidden(fs, initial, [root])
    requires ReachesBy(fs, Cuts(fs, root), root, x) && Keeps(fs, Cuts(fs, root), x, y)
    ensures ReachesBy(fs, initial + Cuts(fs, root), x, y)
  {
    hide Cuts, Path, Recorded;
    OneRecorded(fs, initial, root);
    var path :| PathTo(fs, Cuts(fs, root), path, root, x);
    PathNotEmpty(fs, Cuts(fs, root), path);
    ExtendPath(fs, Cuts(fs, root), path, y);
    var p := path + [y];
    assert OwnPath(fs, [root], 0, p);
    assert Covered(fs, initial, [root], p);
    var j: nat, q :| CountedPath(fs, initial, [root], j, q) && Last(q) == Last(p) && Covers(q, p);
    assert x == p[|path| - 1] && x in q;
    var k :| 0 <= k < |q| && q[k] == x;
    SuffixPath(fs, initial + Cuts(fs, root), q, k);
  }

  // ----- A check before the call

  /** No edge recorded before the search from a root leaves a function that this root reaches. */
  ghost predicate Undisturbed(fs: Functions, initial: Edges, roots: seq<Name>) {
    forall i: nat, x, y :: i < |roots| && Reachable(fs, roots[i], x) ==> (x, y) !in Recorded(fs, initial, roots, i)
  }

  lemma PathReaches(fs: Functions, cut: Edges, path: seq<Name>, k: nat)
    requires Path(fs, cut, path) && k < |path|
    ensures Reachable(fs, path[0], path[k])
  {
    UncutPath(fs, cut, path);
    SplitPath(fs, {}, path, k);
    assert PathTo(fs, {}, path[..k + 1], path[0], path[k]);
  }

  /** Then every chain is counted, and so nothing is hidden. */
  lemma UndisturbedHidesNothing(fs: Functions, initial: Edges, roots: seq<Name>)
    requires Undisturbed(fs, initial, roots)
    ensures NothingHidden(fs, initial, roots)
    ensures forall i: nat, p :: OwnPath(fs, roots, i, p) ==> CountedPath(fs, initial, roots, i, p)
  {
    hide Cuts, Reachable;
    forall i: nat, p | OwnPath(fs, roots, i, p) ensures CountedPath(fs, initial, roots, i, p) {
      var total := Recorded(fs, initial, roots, i + 1);
      forall k | 0 < k < |p| ensures Keeps(fs, total, p[k - 1], p[k]) {
        assert Keeps(fs, Cuts(fs, roots[i]), p[k - 1], p[k]);
        PathReaches(fs, Cuts(fs, roots[i]), p, k - 1);
        assert Recorded(fs, initial, roots, i + 1) == Recorded(fs, initial, roots, i) + Cuts(fs, roots[i]);
      }
    }
    forall i: nat, p | OwnPath(fs, roots, i, p) ensures Covered(fs, initial, roots, p) {
      assert CountedPath(fs, initial, roots, i, p) && Covers(p, p);
    }
  }
}
