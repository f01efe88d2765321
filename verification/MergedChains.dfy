/**
 `chain_to` on the merged parents (tools/tlsr8258-stack-report.py:417-422, 444-449): neighbouring entries may
 come from different roots, yet the walk ends at a root, and its path is at least as heavy as the depth kept.
 */
module MergedChains {
  import opened Wrappers
  import opened CallGraph
  import opened CallGraphSearch
  import opened CallGraphPrefix
  import opened CallGraphRun
  import opened CallGraphHistory
  import opened Roots
  import opened MergedRoots

  /** Every function of the path but the first has the one before it as its parent. */
  ghost predicate Ascends(parent: map<Name, Option<Name>>, path: seq<Name>) {
    forall i :: 0 < i < |path| ==> Leads(parent, path[i], path[i - 1])
  }

  // ----- The walk does not return

  ghost predicate EntryAfter(fs: Functions, initial: Edges, roots: seq<Name>, i: nat, merged: map<Name, nat>,
                             parent: map<Name, Option<Name>>, n: Name) {
    exists j: nat :: i <= j && EntryFrom(fs, initial, roots, j, merged, parent, n)
  }

  lemma {:induction false} RecordedGrows(fs: Functions, initial: Edges, roots: seq<Name>, i: nat, j: nat)
    requires i <= j <= |roots|
    ensures Recorded(fs, initial, roots, i) <= Recorded(fs, initial, roots, j)
  {
    hide Cuts;
    if i < j { RecordedGrows(fs, initial, roots, i, j - 1); }
  }

  /** A call used by the i-th root or a later one is kept by the i-th root's search. */
  lemma LaterKeeps(fs: Functions, initial: Edges, roots: seq<Name>, i: nat, merged: map<Name, nat>,
                   parent: map<Name, Option<Name>>, p: Name, n: Name)
    requires i < |roots| && EntryAfter(fs, initial, roots, i, merged, parent, n) && Leads(parent, n, p)
    ensures Keeps(fs, Cuts(fs, roots[i]), p, n)
  {
    hide Cuts, Reachable;
    var j: nat :| i <= j && EntryFrom(fs, initial, roots, j, merged, parent, n);
    RecordedGrows(fs, initial, roots, i + 1, j + 1);
  }

  /** Of the roots that the entries of a loop come from, the first reaches the whole loop, and so its search has
      cut a call of it; but no later pass uses that call. */
  lemma {:induction false} NoLoop(fs: Functions, initial: Edges, roots: seq<Name>, i: nat, merged: map<Name, nat>,
                                  parent: map<Name, Option<Name>>, path: seq<Name>)
    requires |path| > 1 && Ascends(parent, path)
    requires forall k :: 0 < k < |path| ==> EntryAfter(fs, initial, roots, i, merged, parent, path[k])
    ensures path[0] != path[|path| - 1]
    decreases |roots| - i
  {
    hide EntryFrom, Cuts, Keeps;
    EntryInRange(fs, initial, roots, i, merged, parent, path[1]);
    if k :| 0 < k < |path| && EntryFrom(fs, initial, roots, i, merged, parent, path[k]) {
      forall m | 0 < m < |path| ensures Keeps(fs, Cuts(fs, roots[i]), path[m - 1], path[m]) {
        LaterKeeps(fs, initial, roots, i, merged, parent, path[m - 1], path[m]);
      }
      EntryReached(fs, initial, roots, i, merged, parent, path[k]);
      LoopWasCut(fs, roots[i], path, k);
    } else {
      forall k | 0 < k < |path| ensures EntryAfter(fs, initial, roots, i + 1, merged, parent, path[k]) {
        EntryLater(fs, initial, roots, i, merged, parent, path[k]);
      }
      NoLoop(fs, initial, roots, i + 1, merged, parent, path);
    }
  }

  lemma EntryInRange(fs: Functions, initial: Edges, roots: seq<Name>, i: nat, merged: map<Name, nat>,
                     parent: map<Name, Option<Name>>, n: Name)
    requires EntryAfter(fs, initial, roots, i, merged, parent, n)
    ensures i < |roots|
  {}

  lemma EntryReached(fs: Functions, initial: Edges, roots: seq<Name>, i: nat, merged: map<Name, nat>,
                     parent: map<Name, Option<Name>>, n: Name)
    requires EntryFrom(fs, initial, roots, i, merged, parent, n)
    ensures i < |roots| && Reachable(fs, roots[i], n)
  {}

  lemma EntryLater(fs: Functions, initial: Edges, roots: seq<Name>, i: nat, merged: map<Name, nat>,
                   parent: map<Name, Option<Name>>, n: Name)
    requires EntryAfter(fs, initial, roots, i, merged, parent, n)
    requires !EntryFrom(fs, initial, roots, i, merged, parent, n)
    ensures EntryAfter(fs, initial, roots, i + 1, merged, parent, n)
  {
    hide EntryFrom;
  }

  lemma {:induction false} ReachOn(fs: Functions, root: Name, cut: Edges, path: seq<Name>, i: nat, k: nat)
    requires Path(fs, cut, path) && i <= k < |path| && Reachable(fs, root, path[i])
    ensures Reachable(fs, root, path[k])
  {
    hide Reachable;
    if i < k {
      ReachOn(fs, root, cut, path, i, k - 1);
      assert Keeps(fs, cut, path[k - 1], path[k]);
      ReachNext(fs, root, path[k - 1], path[k]);
    }
  }

  /** A path of kept calls does not return to where it began, if the root reaches a function of it. */
  lemma LoopWasCut(fs: Functions, root: Name, path: seq<Name>, k: nat)
    requires Path(fs, Cuts(fs, root), path) && k < |path| && |path| > 1 && Reachable(fs, root, path[k])
    ensures path[0] != path[|path| - 1]
  {
    hide Inv, SearchFrom, Downward, Ordered, Settled, OnlyCyclesCut, Path, Reachable;
    if path[0] == path[|path| - 1] {
      var s := SearchFrom(fs, root);
      ReachOn(fs, root, Cuts(fs, root), path, k, |path| - 1);
      SearchReaches(fs, root, path[0]);
      SearchKeeps(fs, root);
      OrderOf(fs, root, s);
      NoCycle(fs, s.cut, s.order, path, 0, |path| - 1);
    }
  }

  /** A walk along the merged parents never meets a function twice. */
  lemma AscentDistinct(fs: Functions, initial: Edges, roots: seq<Name>, merged: map<Name, nat>,
                       parent: map<Name, Option<Name>>, path: seq<Name>)
    requires Climbable(fs, initial, roots, |roots|, merged, parent) && Ascends(parent, path)
    ensures Distinct(path)
  {
    hide EntryFrom;
    forall a, b | 0 <= a < b < |path| ensures path[a] != path[b] {
      var loop := path[a..b + 1];
      forall k | 0 < k < |loop|
        ensures Leads(parent, loop[k], loop[k - 1]) && EntryAfter(fs, initial, roots, 0, merged, parent, loop[k])
      {
        assert Leads(parent, path[a + k], path[a + k - 1]);
      }
      NoLoop(fs, initial, roots, 0, merged, parent, loop);
    }
  }

  lemma {:induction false} DistinctFits(path: seq<Name>, names: set<Name>)
    requires Distinct(path) && forall i :: 0 <= i < |path| ==> path[i] in names
    ensures |path| <= |names|
  {
    if path != [] {
      forall i | 0 <= i < |path[1..]| ensures path[1..][i] in names - {path[0]} { assert path[i + 1] != path[0]; }
      DistinctFits(path[1..], names - {path[0]});
    }
  }

  // ----- What the walk gives

  /** A chain from a function without parent down to n. */
  ghost predicate Chain(parent: map<Name, Option<Name>>, path: seq<Name>, n: Name) {
    path != [] && Last(path) == n && Ascends(parent, path) && (path[0] in parent ==> parent[path[0]] == None)
  }

  function Reversed(s: seq<Name>): (r: seq<Name>)
    ensures |r| == |s|
  {
    if s == [] then [] else [s[|s| - 1]] + Reversed(s[..|s| - 1])
  }

  lemma ReversedNext(s: seq<Name>, n: Name)
    ensures Reversed(s + [n]) == [n] + Reversed(s)
  {
    assert (s + [n])[..|s|] == s;
  }

  /** `chain_to`: the walk ends; a name without an entry gives itself. */
  method ChainTo(parent: map<Name, Option<Name>>, name: Name, ghost fs: Functions, ghost initial: Edges,
                 ghost roots: seq<Name>, ghost merged: map<Name, nat>) returns (chain: seq<Name>)
    requires Climbable(fs, initial, roots, |roots|, merged, parent)
    ensures Chain(parent, chain, name)
  {
    hide Climbable;
    chain := [];
    var current := Some(name);
    ghost var path: seq<Name> := [];
    while current.Some?
      invariant path == Reversed(chain) && Ascends(parent, path)
      invariant path == [] ==> current == Some(name)
      invariant path != [] ==> Last(path) == name && current == if path[0] in parent then parent[path[0]] else None
      invariant path != [] && current.Some? ==> current.value in parent
      invariant |path| <= |parent.Keys| + 1
      decreases current.Some?, |parent.Keys| + 1 - |path|
    {
      var at := current.value;
      ReversedNext(chain, at);
      AscentGrows(parent, path, at);
      path := [at] + path;
      chain := chain + [at];
      current := if at in parent then parent[at] else None;
      AscentDistinct(fs, initial, roots, merged, parent, path);
      AscentFits(parent, path);
      if current.Some? { ParentHasEntry(fs, initial, roots, merged, parent, at); }
    }
    chain := Reversed(chain);
  }

  lemma AscentGrows(parent: map<Name, Option<Name>>, path: seq<Name>, at: Name)
    requires Ascends(parent, path) && (path != [] ==> Leads(parent, path[0], at))
    ensures Ascends(parent, [at] + path)
  {
    var longer := [at] + path;
    forall i | 0 < i < |longer| ensures Leads(parent, longer[i], longer[i - 1]) {
      if i > 1 { assert Leads(parent, path[i - 1], path[i - 1 - 1]); }
    }
  }

  lemma AscentFits(parent: map<Name, Option<Name>>, path: seq<Name>)
    requires Ascends(parent, path) && Distinct(path) && path != []
    ensures |path| <= |parent.Keys| + 1
  {
    var rest := path[1..];
    forall i | 0 <= i < |rest| ensures rest[i] in parent.Keys { assert Leads(parent, path[i + 1], path[i + 1 - 1]); }
    DistinctFits(rest, parent.Keys);
  }

  lemma ParentHasEntry(fs: Functions, initial: Edges, roots: seq<Name>, merged: map<Name, nat>,
                       parent: map<Name, Option<Name>>, n: Name)
    requires Climbable(fs, initial, roots, |roots|, merged, parent) && n in parent && parent[n].Some?
    ensures parent[n].value in parent
  {}

  /** The chain of an entry starts at a root, follows calls, meets no function twice, and is at least as heavy as
      the depth kept for its end. */
  lemma ChainWeighs(fs: Functions, initial: Edges, roots: seq<Name>, merged: map<Name, nat>,
                    parent: map<Name, Option<Name>>, path: seq<Name>, n: Name)
    requires Climbable(fs, initial, roots, |roots|, merged, parent) && Chain(parent, path, n) && n in merged
    ensures Path(fs, {}, path) && path[0] in roots && Distinct(path)
    ensures Weight(fs, path) >= merged[n] + Frame(fs, n)
  {
    hide Path, Climbable, Distinct;
    AscentDistinct(fs, initial, roots, merged, parent, path);
    AscentWeighs(fs, initial, roots, merged, parent, path);
    StartIsRoot(fs, initial, roots, merged, parent, path[0]);
  }

  lemma StartIsRoot(fs: Functions, initial: Edges, roots: seq<Name>, merged: map<Name, nat>,
                    parent: map<Name, Option<Name>>, n: Name)
    requires Climbable(fs, initial, roots, |roots|, merged, parent) && n in merged
    requires n in parent ==> parent[n] == None
    ensures merged[n] == 0 && n in roots
  {}

  lemma {:induction false} AscentWeighs(fs: Functions, initial: Edges, roots: seq<Name>, merged: map<Name, nat>,
                                        parent: map<Name, Option<Name>>, path: seq<Name>)
    requires Climbable(fs, initial, roots, |roots|, merged, parent)
    requires path != [] && Ascends(parent, path) && Last(path) in merged
    ensures Path(fs, {}, path) && path[0] in merged
    ensures merged[path[0]] + Weight(fs, path) >= merged[Last(path)] + Frame(fs, Last(path))
    decreases |path|
  {
    hide Weight, Climbable, Frame, Keeps;
    var n := |path| - 1;
    if n == 0 {
      assert path == [path[0]];
      WeightOne(fs, path[0]);
    } else {
      assert Leads(parent, path[n], path[n - 1]);
      var short := path[..n];
      ParentEntry(fs, initial, roots, merged, parent, path[n], path[n - 1]);
      assert Ascends(parent, short) by {
        forall i | 0 < i < |short| ensures Leads(parent, short[i], short[i - 1]) {
          assert Leads(parent, path[i], path[i - 1]);
        }
      }
      AscentWeighs(fs, initial, roots, merged, parent, short);
      ExtendPath(fs, {}, short, path[n]);
      assert path == short + [path[n]];
      WeightConcat(fs, short, [path[n]]);
      WeightOne(fs, path[n]);
    }
  }

  lemma ParentEntry(fs: Functions, initial: Edges, roots: seq<Name>, merged: map<Name, nat>,
                    parent: map<Name, Option<Name>>, n: Name, p: Name)
    requires Climbable(fs, initial, roots, |roots|, merged, parent) && n in merged && Leads(parent, n, p)
    ensures p in merged && Keeps(fs, {}, p, n) && merged[n] <= merged[p] + Frame(fs, p)
  {}

  // ----- Roots that do not disturb each other

  /** Then a call counted for one root is not cut by a later one that reaches it: both would have cut the loop that
      it closes. */
  lemma CutByNone(fs: Functions, initial: Edges, roots: seq<Name>, j: nat, k: nat, p: Name, n: Name)
    requires Undisturbed(fs, initial, roots) && j < k < |roots|
    requires Reachable(fs, roots[j], n) && Reachable(fs, roots[k], n)
    ensures (p, n) !in Cuts(fs, roots[k])
  {
    hide Inv, SearchFrom, Recorded, Reachable, Undisturbed;
    if (p, n) in Cuts(fs, roots[k]) {
      SearchKeeps(fs, roots[k]);
      OrderOf(fs, roots[k], SearchFrom(fs, roots[k]));
      var path :| PathTo(fs, {}, path, n, p);
      ExtendPath(fs, {}, path, n);
      var loop := path + [n];
      forall m | 0 < m < |loop| ensures Keeps(fs, Cuts(fs, roots[j]), loop[m - 1], loop[m]) {
        assert Keeps(fs, {}, loop[m - 1], loop[m]);
        ReachOn(fs, roots[k], {}, loop, 0, m - 1);
        EarlierCut(fs, initial, roots, j, k, loop[m - 1], loop[m]);
      }
      LoopWasCut(fs, roots[j], loop, 0);
    }
  }

  /** No call of a function that the k-th root reaches has been cut by an earlier one. */
  lemma EarlierCut(fs: Functions, initial: Edges, roots: seq<Name>, j: nat, k: nat, x: Name, y: Name)
    requires Undisturbed(fs, initial, roots) && j < k < |roots| && Reachable(fs, roots[k], x)
    ensures (x, y) !in Cuts(fs, roots[j]) && (x, y) !in Recorded(fs, initial, roots, k)
  {
    hide Cuts, Reachable;
    RecordedGrows(fs, initial, roots, j + 1, k);
  }

  lemma NotRecorded(fs: Functions, initial: Edges, roots: seq<Name>, j: nat, k: nat, p: Name, n: Name)
    requires Undisturbed(fs, initial, roots) && j < |roots| && k < |roots|
    requires Keeps(fs, Recorded(fs, initial, roots, j + 1), p, n)
    requires Reachable(fs, roots[j], n) && Reachable(fs, roots[k], p)
    ensures Keeps(fs, Recorded(fs, initial, roots, k + 1), p, n)
  {
    hide Cuts, Reachable, Undisturbed;
    if k <= j {
      RecordedGrows(fs, initial, roots, k + 1, j + 1);
    } else {
      ReachNext(fs, roots[k], p, n);
      CutByNone(fs, initial, roots, j, k, p, n);
      EarlierCut(fs, initial, roots, j, k, p, n);
    }
  }

  /** The chain of an entry is then one that is counted for the root where it starts. */
  lemma {:induction false} ChainIsCounted(
      fs: Functions, initial: Edges, roots: seq<Name>, k: nat, merged: map<Name, nat>,
      parent: map<Name, Option<Name>>, path: seq<Name>)
    requires Climbable(fs, initial, roots, |roots|, merged, parent) && Undisturbed(fs, initial, roots)
    requires path != [] && Ascends(parent, path) && Last(path) in merged && k < |roots| && path[0] == roots[k]
    ensures CountedPath(fs, initial, roots, k, path)
    decreases |path|
  {
    hide Climbable, Recorded, Keeps, Undisturbed, Reachable;
    var n, total := |path| - 1, Recorded(fs, initial, roots, k + 1);
    if n > 0 {
      assert Leads(parent, path[n], path[n - 1]);
      var short := path[..n];
      assert Ascends(parent, short) by {
        forall i | 0 < i < |short| ensures Leads(parent, short[i], short[i - 1]) {
          assert Leads(parent, path[i], path[i - 1]);
        }
      }
      var j := ParentFrom(fs, initial, roots, merged, parent, path[n], path[n - 1]);
      ChainIsCounted(fs, initial, roots, k, merged, parent, short);
      PathReaches(fs, total, short, n - 1);
      NotRecorded(fs, initial, roots, j, k, path[n - 1], path[n]);
      ExtendPath(fs, total, short, path[n]);
      assert path == short + [path[n]];
    }
  }

  lemma ParentFrom(fs: Functions, initial: Edges, roots: seq<Name>, merged: map<Name, nat>,
                   parent: map<Name, Option<Name>>, n: Name, p: Name) returns (j: nat)
    requires Climbable(fs, initial, roots, |roots|, merged, parent) && n in merged && Leads(parent, n, p)
    ensures j < |roots| && p in merged && Keeps(fs, Recorded(fs, initial, roots, j + 1), p, n)
    ensures Reachable(fs, roots[j], n)
  {
    hide Recorded, Reachable, Keeps;
    j :| 0 <= j < |roots| && EntryFrom(fs, initial, roots, j, merged, parent, n);
  }

  /** And it weighs exactly the depth kept. */
  lemma ChainIsExact(fs: Functions, initial: Edges, roots: seq<Name>, merged: map<Name, nat>,
                     parent: map<Name, Option<Name>>, path: seq<Name>, n: Name)
    requires MergedTables(fs, initial, roots, |roots|, merged, parent) && Undisturbed(fs, initial, roots)
    requires Chain(parent, path, n) && n in merged
    ensures CountedTo(fs, initial, roots, |roots|, n, path)
    ensures Weight(fs, path) == merged[n] + Frame(fs, n)
  {
    hide Climbable, Undisturbed, Weight, Path, CountedPath;
    ChainWeighs(fs, initial, roots, merged, parent, path, n);
    var k: nat :| k < |roots| && roots[k] == path[0];
    ChainIsCounted(fs, initial, roots, k, merged, parent, path);
    assert CountedTo(fs, initial, roots, |roots|, n, path);
    assert MergedAt(fs, initial, roots, |roots|, merged, n);
  }

  /** A first root is undisturbed. */
  lemma FirstRootUndisturbed(fs: Functions, root: Name)
    ensures Undisturbed(fs, {}, [root])
  {}
}
