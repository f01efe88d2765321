/**
 `analyze_roots` and the walk along the merged parents (tools/tlsr8258-stack-report.py:417-422, 435-450): the
 entries of one chain may come from different roots, whose searches cut different edges.
 */
module MergedRoots {
  import opened Wrappers
  import opened CallGraph
  import opened CallGraphSearch
  import opened CallGraphPrefix
  import opened CallGraphRun
  import opened CallGraphHistory
  import opened StackReport
  import opened Roots

  // ----- Merging one table

  /** Every function keeps the larger entry, with its parent; the earlier one of equals. */
  ghost predicate MergesTo(
      before: map<Name, nat>, parentBefore: map<Name, Option<Name>>, prefix: map<Name, nat>,
      parent: map<Name, Option<Name>>, done: set<Name>, merged: map<Name, nat>, mergedParent: map<Name, Option<Name>>) {
    && before.Keys == parentBefore.Keys && prefix.Keys == parent.Keys
    && merged.Keys == mergedParent.Keys == before.Keys + done * prefix.Keys
    && forall n :: n in merged ==>
         if n in done && n in prefix && (n in before ==> before[n] < prefix[n])
         then merged[n] == prefix[n] && mergedParent[n] == parent[n]
         else n in before && merged[n] == before[n] && mergedParent[n] == parentBefore[n]
  }

  /** The loop over one root's table, in any order. */
  method MergeInto(before: map<Name, nat>, parentBefore: map<Name, Option<Name>>, prefix: map<Name, nat>,
                   parent: map<Name, Option<Name>>)
    returns (merged: map<Name, nat>, mergedParent: map<Name, Option<Name>>)
    requires before.Keys == parentBefore.Keys && prefix.Keys == parent.Keys
    ensures MergesTo(before, parentBefore, prefix, parent, prefix.Keys, merged, mergedParent)
  {
    merged, mergedParent := before, parentBefore;
    var left := prefix.Keys;
    while left != {}
      invariant left <= prefix.Keys
      invariant MergesTo(before, parentBefore, prefix, parent, prefix.Keys - left, merged, mergedParent)
    {
      var name :| name in left;
      if name !in merged || prefix[name] > merged[name] {
        merged, mergedParent := merged[name := prefix[name]], mergedParent[name := parent[name]];
      }
      left := left - {name};
    }
    assert prefix.Keys - left == prefix.Keys;
  }

  // ----- The depths

  /** What the pass of the i-th root leaves. */
  ghost predicate TableOf(fs: Functions, initial: Edges, roots: seq<Name>, i: nat, prefix: map<Name, nat>)
    requires i < |roots|
  {
    forall n ::
      && (n in prefix <==> ReachesBy(fs, Recorded(fs, initial, roots, i + 1), roots[i], n))
      && (n in prefix ==> HeaviestAbove(fs, Recorded(fs, initial, roots, i + 1), roots[i], n, prefix[n]))
  }

  /** The chains counted for the i-th root, and those counted before. */
  lemma CountedNextRoot(fs: Functions, initial: Edges, roots: seq<Name>, i: nat, n: Name, q: seq<Name>)
    requires i < |roots|
    ensures CountedTo(fs, initial, roots, i + 1, n, q) <==>
              CountedTo(fs, initial, roots, i, n, q)
              || PathTo(fs, Recorded(fs, initial, roots, i + 1), q, roots[i], n)
  {
    hide Recorded, Path;
    if CountedTo(fs, initial, roots, i + 1, n, q) && !CountedTo(fs, initial, roots, i, n, q) {
      var j: nat :| j < i + 1 && CountedPath(fs, initial, roots, j, q);
      PathNotEmpty(fs, Recorded(fs, initial, roots, j + 1), q);
    }
    if PathTo(fs, Recorded(fs, initial, roots, i + 1), q, roots[i], n) {
      assert CountedPath(fs, initial, roots, i, q);
      PathNotEmpty(fs, Recorded(fs, initial, roots, i + 1), q);
    }
  }

  lemma MergeDepth(fs: Functions, initial: Edges, roots: seq<Name>, i: nat, before: map<Name, nat>,
                   prefix: map<Name, nat>, merged: map<Name, nat>, n: Name)
    requires i < |roots| && MergedAt(fs, initial, roots, i, before, n) && TableOf(fs, initial, roots, i, prefix)
    requires n in merged <==> n in before || n in prefix
    requires n in merged ==>
               merged[n] == if n in prefix && (n in before ==> before[n] < prefix[n]) then prefix[n] else before[n]
    ensures MergedAt(fs, initial, roots, i + 1, merged, n)
  {
    hide CountedTo, Weight, Frame, Recorded, Path;
    var upTo := i + 1;
    forall q | CountedTo(fs, initial, roots, upTo, n, q)
      ensures n in merged && Weight(fs, q) <= merged[n] + Frame(fs, n)
    {
      CountedNextRoot(fs, initial, roots, i, n, q);
      if PathTo(fs, Recorded(fs, initial, roots, i + 1), q, roots[i], n) {
        assert ReachesBy(fs, Recorded(fs, initial, roots, i + 1), roots[i], n);
        assert HeaviestAbove(fs, Recorded(fs, initial, roots, i + 1), roots[i], n, prefix[n]);
      }
    }
    if n in prefix && merged[n] == prefix[n] {
      assert HeaviestAbove(fs, Recorded(fs, initial, roots, i + 1), roots[i], n, prefix[n]);
      var q :| PathTo(fs, Recorded(fs, initial, roots, i + 1), q, roots[i], n)
               && Weight(fs, q) == prefix[n] + Frame(fs, n);
      CountedNextRoot(fs, initial, roots, i, n, q);
    } else if n in merged {
      var q :| CountedTo(fs, initial, roots, i, n, q) && Weight(fs, q) == before[n] + Frame(fs, n);
      CountedNextRoot(fs, initial, roots, i, n, q);
    }
  }

  // ----- The parents

  /** The entry of n is the j-th root's: the parent calls n by a call counted for that root, and what is above n
      is no more than what the merged table has above the parent and the parent's frame. */
  ghost predicate EntryFrom(fs: Functions, initial: Edges, roots: seq<Name>, j: nat, merged: map<Name, nat>,
                            parent: map<Name, Option<Name>>, n: Name) {
    && j < |roots| && n in merged && n in parent && Reachable(fs, roots[j], n)
    && match parent[n]
       case None => n == roots[j] && merged[n] == 0
       case Some(p) =>
         p in merged && Keeps(fs, Recorded(fs, initial, roots, j + 1), p, n) && merged[n] <= merged[p] + Frame(fs, p)
  }

  ghost predicate Climbable(fs: Functions, initial: Edges, roots: seq<Name>, i: nat, merged: map<Name, nat>,
                            parent: map<Name, Option<Name>>) {
    && merged.Keys == parent.Keys
    && forall n :: n in merged ==> exists j: nat :: j < i && EntryFrom(fs, initial, roots, j, merged, parent, n)
  }

  lemma PrefixEntry(fs: Functions, initial: Edges, roots: seq<Name>, i: nat, prefix: map<Name, nat>,
                    parent: map<Name, Option<Name>>, n: Name)
    requires i < |roots| && n in prefix
    requires Prefixed(fs, Recorded(fs, initial, roots, i + 1), roots[i], SearchFrom(fs, roots[i]).order, prefix, parent)
    ensures EntryFrom(fs, initial, roots, i, prefix, parent, n)
  {
    hide SearchFrom, Recorded, CallsCounted, Reachable;
    SearchReaches(fs, roots[i], n);
    assert PrefixAt(fs, Recorded(fs, initial, roots, i + 1), roots[i], prefix, parent, n);
  }

  lemma EntryMerged(
      fs: Functions, initial: Edges, roots: seq<Name>, j: nat, before: map<Name, nat>,
      parentBefore: map<Name, Option<Name>>, merged: map<Name, nat>, parent: map<Name, Option<Name>>, n: Name)
    requires EntryFrom(fs, initial, roots, j, before, parentBefore, n)
    requires n in merged && n in parent && merged[n] == before[n] && parent[n] == parentBefore[n]
    requires forall m :: m in before ==> m in merged && before[m] <= merged[m]
    ensures EntryFrom(fs, initial, roots, j, merged, parent, n)
  {
    hide Recorded, Reachable, Keeps, Frame;
  }

  lemma MergeClimbs(
      fs: Functions, initial: Edges, roots: seq<Name>, i: nat, before: map<Name, nat>,
      parentBefore: map<Name, Option<Name>>, prefix: map<Name, nat>, parent: map<Name, Option<Name>>,
      merged: map<Name, nat>, mergedParent: map<Name, Option<Name>>)
    requires i < |roots| && Climbable(fs, initial, roots, i, before, parentBefore)
    requires Prefixed(fs, Recorded(fs, initial, roots, i + 1), roots[i], SearchFrom(fs, roots[i]).order, prefix, parent)
    requires MergesTo(before, parentBefore, prefix, parent, prefix.Keys, merged, mergedParent)
    ensures Climbable(fs, initial, roots, i + 1, merged, mergedParent)
  {
    hide EntryFrom, Prefixed, SearchFrom, Recorded;
    forall n | n in merged
      ensures exists j: nat :: j < i + 1 && EntryFrom(fs, initial, roots, j, merged, mergedParent, n)
    {
      if n in prefix && (n in before ==> before[n] < prefix[n]) {
        PrefixEntry(fs, initial, roots, i, prefix, parent, n);
        EntryMerged(fs, initial, roots, i, prefix, parent, merged, mergedParent, n);
      } else {
        var j: nat :| j < i && EntryFrom(fs, initial, roots, j, before, parentBefore, n);
        EntryMerged(fs, initial, roots, j, before, parentBefore, merged, mergedParent, n);
      }
    }
  }

  // ----- All roots

  /** The merged tables of the first i roots. */
  ghost predicate MergedTables(fs: Functions, initial: Edges, roots: seq<Name>, i: nat, merged: map<Name, nat>,
                               parent: map<Name, Option<Name>>) {
    Merged(fs, initial, roots, i, merged) && Climbable(fs, initial, roots, i, merged, parent)
  }

  lemma NothingMerged(fs: Functions, initial: Edges, roots: seq<Name>)
    ensures MergedTables(fs, initial, roots, 0, map[], map[]) && PerRoot(fs, initial, roots, 0, map[])
  {
    forall n ensures MergedAt(fs, initial, roots, 0, map[], n) {}
  }

  lemma ExactIsTable(fs: Functions, initial: Edges, roots: seq<Name>, i: nat, subtree: map<Name, nat>,
                     prefix: map<Name, nat>)
    requires i < |roots|
    requires Exact(fs, roots[i], Cuts(fs, roots[i]), Recorded(fs, initial, roots, i + 1), subtree, prefix)
    ensures TableOf(fs, initial, roots, i, prefix)
  {
    hide OnlyCyclesCut, ReachesBy, HeaviestFrom, HeaviestAbove, Reachable, Path, Recorded, Cuts;
  }

  lemma MergeRoot(
      fs: Functions, initial: Edges, roots: seq<Name>, i: nat, before: map<Name, nat>,
      parentBefore: map<Name, Option<Name>>, prefix: map<Name, nat>, parent: map<Name, Option<Name>>,
      merged: map<Name, nat>, mergedParent: map<Name, Option<Name>>)
    requires i < |roots| && MergedTables(fs, initial, roots, i, before, parentBefore)
    requires TableOf(fs, initial, roots, i, prefix)
    requires Prefixed(fs, Recorded(fs, initial, roots, i + 1), roots[i], SearchFrom(fs, roots[i]).order, prefix, parent)
    requires MergesTo(before, parentBefore, prefix, parent, prefix.Keys, merged, mergedParent)
    ensures MergedTables(fs, initial, roots, i + 1, merged, mergedParent)
  {
    hide MergedAt, Climbable, TableOf, Prefixed, SearchFrom, Recorded;
    MergeClimbs(fs, initial, roots, i, before, parentBefore, prefix, parent, merged, mergedParent);
    var upTo := i + 1;
    forall n ensures MergedAt(fs, initial, roots, upTo, merged, n) {
      assert MergedAt(fs, initial, roots, i, before, n);
      MergeDepth(fs, initial, roots, i, before, prefix, merged, n);
    }
  }

  /** The two tables that the pass of one root returns. */
  datatype RootTables = RootTables(prefix: map<Name, nat>, parent: map<Name, Option<Name>>)

  /** The tables of the j-th root, which is not among the first i again after it. */
  ghost predicate LastTables(fs: Functions, initial: Edges, roots: seq<Name>, i: nat, j: nat, tables: RootTables)
    requires i <= |roots|
  {
    && j < i && roots[j] !in roots[j + 1..i] && TableOf(fs, initial, roots, j, tables.prefix)
    && Prefixed(fs, Recorded(fs, initial, roots, j + 1), roots[j], SearchFrom(fs, roots[j]).order, tables.prefix,
                tables.parent)
  }

  /** Every one of the first i roots has its tables. */
  ghost predicate PerRoot(fs: Functions, initial: Edges, roots: seq<Name>, i: nat, perRoot: map<Name, RootTables>)
    requires i <= |roots|
  {
    && (forall r :: r in perRoot <==> r in roots[..i])
    && forall r :: r in perRoot ==>
         exists j: nat :: j < |roots| && roots[j] == r && LastTables(fs, initial, roots, i, j, perRoot[r])
  }

  lemma NextTables(fs: Functions, initial: Edges, roots: seq<Name>, i: nat, perRoot: map<Name, RootTables>,
                   tables: RootTables)
    requires i < |roots| && PerRoot(fs, initial, roots, i, perRoot) && TableOf(fs, initial, roots, i, tables.prefix)
    requires Prefixed(fs, Recorded(fs, initial, roots, i + 1), roots[i], SearchFrom(fs, roots[i]).order, tables.prefix,
                      tables.parent)
    ensures PerRoot(fs, initial, roots, i + 1, perRoot[roots[i] := tables])
  {
    hide TableOf, Prefixed, SearchFrom, Recorded;
    var now := perRoot[roots[i] := tables];
    assert roots[..i + 1] == roots[..i] + [roots[i]];
    forall r | r in now
      ensures exists j: nat :: j < |roots| && roots[j] == r && LastTables(fs, initial, roots, i + 1, j, now[r])
    {
      if r == roots[i] {
        assert LastTables(fs, initial, roots, i + 1, i, now[r]);
      } else {
        var j: nat :| j < |roots| && roots[j] == r && LastTables(fs, initial, roots, i, j, perRoot[r]);
        assert roots[j + 1..i + 1] == roots[j + 1..i] + [roots[i]];
        assert LastTables(fs, initial, roots, i + 1, j, now[r]);
      }
    }
  }

  /** `analyze_roots`: the merged tables; the depths are those promised, if nothing is hidden. */
  method AnalyzeRoots(graph: Graph, roots: seq<Name>)
    returns (perRoot: map<Name, RootTables>, merged: map<Name, nat>, mergedParent: map<Name, Option<Name>>)
    requires graph.Valid()
    modifies graph
    ensures graph.Valid() && graph.analysed == old(graph.analysed) + roots
    ensures graph.recursiveEdges == Recorded(graph.functions, old(graph.recursiveEdges), roots, |roots|)
    ensures PerRoot(graph.functions, old(graph.recursiveEdges), roots, |roots|, perRoot)
    ensures MergedTables(graph.functions, old(graph.recursiveEdges), roots, |roots|, merged, mergedParent)
    ensures NothingHidden(graph.functions, old(graph.recursiveEdges), roots) ==>
              Deepest(graph.functions, roots, merged)
  {
    hide MergedTables, PerRoot, NothingHidden, Deepest, Exact, Prefixed, MergesTo, Cuts, SearchFrom, TableOf;
    ghost var fs, initial := graph.functions, graph.recursiveEdges;
    perRoot, merged, mergedParent := map[], map[], map[];
    NothingMerged(fs, initial, roots);
    assert roots[..0] == [];
    for i := 0 to |roots|
      invariant graph.Valid() && graph.analysed == old(graph.analysed) + roots[..i]
      invariant graph.recursiveEdges == Recorded(fs, initial, roots, i)
      invariant PerRoot(fs, initial, roots, i, perRoot)
      invariant MergedTables(fs, initial, roots, i, merged, mergedParent)
    {
      var prefix, parent := graph.Analyze(roots[i]);
      assert roots[..i + 1] == roots[..i] + [roots[i]];
      ExactIsTable(fs, initial, roots, i, graph.subtree, prefix);
      NextTables(fs, initial, roots, i, perRoot, RootTables(prefix, parent));
      perRoot := perRoot[roots[i] := RootTables(prefix, parent)];
      ghost var before, parentBefore := merged, mergedParent;
      SameKeys(fs, initial, roots, i, merged, mergedParent);
      PrefixKeys(fs, graph.recursiveEdges, roots[i], SearchFrom(fs, roots[i]).order, prefix, parent);
      merged, mergedParent := MergeInto(merged, mergedParent, prefix, parent);
      MergeRoot(fs, initial, roots, i, before, parentBefore, prefix, parent, merged, mergedParent);
    }
    assert roots[..|roots|] == roots;
    if NothingHidden(fs, initial, roots) { HidesNothing(fs, initial, roots, merged, mergedParent); }
  }

  lemma SameKeys(fs: Functions, initial: Edges, roots: seq<Name>, i: nat, merged: map<Name, nat>,
                 parent: map<Name, Option<Name>>)
    requires MergedTables(fs, initial, roots, i, merged, parent)
    ensures merged.Keys == parent.Keys
  {}

  lemma PrefixKeys(fs: Functions, cut: Edges, root: Name, order: seq<Name>, prefix: map<Name, nat>,
                   parent: map<Name, Option<Name>>)
    requires Prefixed(fs, cut, root, order, prefix, parent)
    ensures prefix.Keys == parent.Keys
  {}

  lemma HidesNothing(fs: Functions, initial: Edges, roots: seq<Name>, merged: map<Name, nat>,
                     parent: map<Name, Option<Name>>)
    requires NothingHidden(fs, initial, roots) && MergedTables(fs, initial, roots, |roots|, merged, parent)
    ensures Deepest(fs, roots, merged)
  {
    hide NothingHidden, Deepest, Merged, Climbable;
    var frames := n => Frame(fs, n);
    DeepestExactly(fs, initial, roots);
    assert Reframed(fs, frames) == fs;
  }
}
