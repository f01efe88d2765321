/**
 Two functions that call each other and a third that calls both (tools/tlsr8258-stack-report.py:435-450): after
 a search from one of the two, the third loses no function, and still keeps too small a prefix; and the chain
 shown for another function is heavier than the depth kept for it.
 */
module ThreeFunctions {
  import opened Wrappers
  import opened CallGraph
  import opened CallGraphSearch
  import opened CallGraphPrefix
  import opened CallGraphRun
  import opened CallGraphHistory
  import opened StackReport
  import opened Roots
  import opened MergedRoots
  import opened MergedChains
  import opened SecondRoot

  const R: Name := "r"

  function Triple(frameR: nat, frameA: nat, frameB: nat): Functions {
    map[R := Function(frameR, [B, A]), A := Function(frameA, [B]), B := Function(frameB, [A])]
  }

  lemma TripleCalls(frameR: nat, frameA: nat, frameB: nat)
    ensures var fs := Triple(frameR, frameA, frameB);
            && CallEachOther(fs, A, B) && CallEachOther(fs, B, A) && Callees(fs, R) == [B, A]
            && Frame(fs, R) == frameR && Frame(fs, A) == frameA && Frame(fs, B) == frameB
            && forall n :: n != R && n != A && n != B ==> Callees(fs, n) == []
  {}

  /** r visits b, and a below it; a's call back is cut. */
  lemma RCuts(fs: Functions)
    requires Callees(fs, R) == [B, A] && CallEachOther(fs, B, A)
    ensures Cuts(fs, R) == {(A, B)}
  {
    hide Universe, Closed;
    var u := Universe(fs, R);
    UniverseClosed(fs, R);
    RootInUniverse(fs, R);
    InUniverse(fs, u, R, B);
    InUniverse(fs, u, R, A);
    EnterShrinks(u, UNVISITED, R);
    RCallees(fs, u);
  }

  lemma RCallees(fs: Functions, u: set<Name>)
    requires Closed(fs, u) && R in u && A in u && B in u && Callees(fs, R) == [B, A] && CallEachOther(fs, B, A)
    ensures CalleesRun(fs, u, Trial(Enter(UNVISITED, R), 0, None), R, 0).s.cut == {(A, B)}
  {
    hide Closed, VisitRun;
    var begun := Trial(Enter(UNVISITED, R), 0, None);
    VisitBoth(fs, u, begun.s, B, A);
    var first := CalleeRun(fs, u, begun, R, 0);
    var second := CalleeRun(fs, u, first, R, 1);
    assert CalleesRun(fs, u, begun, R, 0) == CalleesRun(fs, u, first, R, 1);
    assert CalleesRun(fs, u, first, R, 1) == CalleesRun(fs, u, second, R, 2) == second;
  }

  lemma TripleRecorded(frameR: nat, frameA: nat, frameB: nat)
    ensures var fs := Triple(frameR, frameA, frameB);
            Recorded(fs, {}, [A, R], 1) == {(B, A)} && Recorded(fs, {}, [A, R], 2) == {(B, A), (A, B)}
  {
    hide Cuts, Recorded;
    var fs := Triple(frameR, frameA, frameB);
    TripleCalls(frameR, frameA, frameB);
    RootCuts(fs, A, B);
    RCuts(fs);
    TwoRecorded(fs, A, R);
  }

  /** From r, with both calls between a and b recorded, there are three paths. */
  lemma ThreePaths(frameR: nat, frameA: nat, frameB: nat, path: seq<Name>)
    requires PathFrom(Triple(frameR, frameA, frameB), {(B, A), (A, B)}, path, R)
    ensures path == [R] || path == [R, A] || path == [R, B]
  {
    var fs, cut := Triple(frameR, frameA, frameB), {(B, A), (A, B)};
    TripleCalls(frameR, frameA, frameB);
    if |path| > 1 { StepKept(fs, cut, path, 1); }
    if |path| > 2 { StepKept(fs, cut, path, 2); }
  }

  /** The chains counted for the two roots. */
  lemma CountedChains(frameR: nat, frameA: nat, frameB: nat, n: Name, q: seq<Name>)
    ensures CountedTo(Triple(frameR, frameA, frameB), {}, [A, R], 2, n, q) <==>
              Last(q) == n && (q == [A] || q == [A, B] || q == [R] || q == [R, A] || q == [R, B])
  {
    hide Recorded;
    var fs := Triple(frameR, frameA, frameB);
    TripleCalls(frameR, frameA, frameB);
    TripleRecorded(frameR, frameA, frameB);
    if CountedTo(fs, {}, [A, R], 2, n, q) {
      var j: nat :| j < 2 && CountedPath(fs, {}, [A, R], j, q);
      if j == 0 { TwoPaths(fs, {(B, A)}, A, B, q); } else { ThreePaths(frameR, frameA, frameB, q); }
    }
    assert q == [A] || q == [A, B] ==> CountedPath(fs, {}, [A, R], 0, q);
    assert q == [R] || q == [R, A] || q == [R, B] ==> CountedPath(fs, {}, [A, R], 1, q);
  }

  lemma Depth(frameR: nat, frameA: nat, frameB: nat, merged: map<Name, nat>, n: Name)
    requires Merged(Triple(frameR, frameA, frameB), {}, [A, R], 2, merged)
    ensures n in merged <==> n == R || n == A || n == B
    ensures n == R ==> merged[n] == 0
    ensures n == A ==> merged[n] == frameR
    ensures n == B ==> merged[n] == if frameA > frameR then frameA else frameR
  {
    hide CountedTo, Weight, Frame, Triple;
    var fs := Triple(frameR, frameA, frameB);
    TripleCalls(frameR, frameA, frameB);
    assert MergedAt(fs, {}, [A, R], 2, merged, n);
    if n in merged {
      var q :| CountedTo(fs, {}, [A, R], 2, n, q) && Weight(fs, q) == merged[n] + Frame(fs, n);
      CountedChains(frameR, frameA, frameB, n, q);
    }
    TwoWeigh(fs, A, B);
    TwoWeigh(fs, R, A);
    TwoWeigh(fs, R, B);
    CountedChains(frameR, frameA, frameB, n, [R]);
    CountedChains(frameR, frameA, frameB, n, [A]);
    CountedChains(frameR, frameA, frameB, n, [A, B]);
    CountedChains(frameR, frameA, frameB, n, [R, A]);
    CountedChains(frameR, frameA, frameB, n, [R, B]);
  }

  /** No function is lost, but r's own chain to a through b is deeper than the depth kept for a. */
  lemma NothingLostYetTooSmall(frameR: nat, frameA: nat, frameB: nat, merged: map<Name, nat>)
    requires Merged(Triple(frameR, frameA, frameB), {}, [A, R], 2, merged)
    ensures R in merged && A in merged && B in merged && merged[A] == frameR
    ensures var fs := Triple(frameR, frameA, frameB);
            OwnTo(fs, [A, R], A, [R, B, A]) && Weight(fs, [R, B, A]) == frameR + frameB + frameA
    ensures frameB > 0 ==> !Deepest(Triple(frameR, frameA, frameB), [A, R], merged)
  {
    hide Cuts, Weight, Merged;
    var fs := Triple(frameR, frameA, frameB);
    TripleCalls(frameR, frameA, frameB);
    forall n | n == R || n == A || n == B
      ensures n in merged && (n == A ==> merged[n] == frameR)
    {
      Depth(frameR, frameA, frameB, merged, n);
    }
    RCuts(fs);
    assert OwnPath(fs, [A, R], 1, [R, B, A]);
    TwoWeigh(fs, R, B);
    TwoWeigh(fs, A, B);
    assert [R, B, A] == [R, B] + [A];
    WeightConcat(fs, [R, B], [A]);
    if Deepest(fs, [A, R], merged) { assert DeepestAt(fs, [A, R], merged, A); }
  }

  /** The chain shown for b runs through all three, and is heavier by r's frame than the depth kept. */
  lemma ShownChain(frameR: nat, frameA: nat, frameB: nat, merged: map<Name, nat>, parent: map<Name, Option<Name>>,
                   chain: seq<Name>)
    requires 0 < frameR < frameA
    requires MergedTables(Triple(frameR, frameA, frameB), {}, [A, R], 2, merged, parent) && Chain(parent, chain, B)
    ensures B in merged
    ensures Weight(Triple(frameR, frameA, frameB), chain)
            == frameR + merged[B] + Frame(Triple(frameR, frameA, frameB), B)
  {
    hide Weight, Merged, Climbable;
    var fs := Triple(frameR, frameA, frameB);
    Parents(frameR, frameA, frameB, merged, parent);
    TripleCalls(frameR, frameA, frameB);
    Depth(frameR, frameA, frameB, merged, B);
    ChainIs(parent, chain);
    TwoWeigh(fs, R, A);
    TwoWeigh(fs, B, A);
    assert [R, A, B] == [R, A] + [B];
    WeightConcat(fs, [R, A], [B]);
  }

  lemma ChainIs(parent: map<Name, Option<Name>>, chain: seq<Name>)
    requires Leads(parent, B, A) && Leads(parent, A, R) && R in parent && parent[R] == None && Chain(parent, chain, B)
    ensures chain == [R, A, B]
  {
    var n := |chain| - 1;
    if n > 0 { assert Leads(parent, chain[n], chain[n - 1]); }
    if n > 1 { assert Leads(parent, chain[n - 1], chain[n - 1 - 1]); }
    if n > 2 { StepUp(parent, chain, n - 2); }
  }

  lemma StepUp(parent: map<Name, Option<Name>>, chain: seq<Name>, i: nat)
    requires Ascends(parent, chain) && 0 < i < |chain|
    ensures Leads(parent, chain[i], chain[i - 1])
  {}

  lemma ParentOf(frameR: nat, frameA: nat, frameB: nat, merged: map<Name, nat>, parent: map<Name, Option<Name>>,
                 n: Name)
    requires MergedTables(Triple(frameR, frameA, frameB), {}, [A, R], 2, merged, parent) && n in merged
    ensures n in parent
    ensures parent[n] == None ==> n != B && merged[n] == 0
    ensures parent[n].Some? ==>
              var fs, p := Triple(frameR, frameA, frameB), parent[n].value;
              p in merged && n in Callees(fs, p) && (p, n) != (B, A) && merged[n] <= merged[p] + Frame(fs, p)
  {
    hide Merged, Triple, Recorded, Reachable, Callees, Frame;
    var fs := Triple(frameR, frameA, frameB);
    TripleRecorded(frameR, frameA, frameB);
    var j: nat :| j < 2 && EntryFrom(fs, {}, [A, R], j, merged, parent, n);
  }

  lemma Parents(frameR: nat, frameA: nat, frameB: nat, merged: map<Name, nat>, parent: map<Name, Option<Name>>)
    requires 0 < frameR < frameA
    requires MergedTables(Triple(frameR, frameA, frameB), {}, [A, R], 2, merged, parent)
    ensures Leads(parent, B, A) && Leads(parent, A, R) && R in parent && parent[R] == None
  {
    hide Merged, Triple, Climbable, Callees, Frame;
    TripleCalls(frameR, frameA, frameB);
    forall n ensures n in merged <==> n == R || n == A || n == B { Depth(frameR, frameA, frameB, merged, n); }
    Depth(frameR, frameA, frameB, merged, A);
    Depth(frameR, frameA, frameB, merged, B);
    Depth(frameR, frameA, frameB, merged, R);
    ParentOf(frameR, frameA, frameB, merged, parent, R);
    ParentOf(frameR, frameA, frameB, merged, parent, A);
    ParentOf(frameR, frameA, frameB, merged, parent, B);
  }

  /** The tool's own calls. */
  method ThirdRoot(frameR: nat, frameA: nat, frameB: nat) returns (merged: map<Name, nat>, chain: seq<Name>)
    ensures R in merged && A in merged && B in merged
    ensures frameB > 0 ==> !Deepest(Triple(frameR, frameA, frameB), [A, R], merged)
    ensures var fs := Triple(frameR, frameA, frameB);
            0 < frameR < frameA ==> Weight(fs, chain) > merged[B] + Frame(fs, B)
  {
    hide Merged, Deepest, NothingHidden, Climbable, Weight, Triple, Chain;
    var graph := new Graph(Triple(frameR, frameA, frameB));
    var perRoot, parent;
    perRoot, merged, parent := AnalyzeRoots(graph, [A, R]);
    chain := ChainTo(parent, B, graph.functions, {}, [A, R], merged);
    NothingLostYetTooSmall(frameR, frameA, frameB, merged);
    if 0 < frameR < frameA { ShownChain(frameR, frameA, frameB, merged, parent, chain); }
  }
}
