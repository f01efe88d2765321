/**
 The table of prefixes (tools/tlsr8258-stack-report.py:351-363): a pass over the finishing order from the
 root down, and why both tables are exact.
 */
module CallGraphPrefix {
  import opened Wrappers
  import opened CallGraph

  // ----- The pass

  /** Every entry so far comes from a function already passed. */
  ghost predicate TracedAt(fs: Functions, cut: Edges, root: Name, order: seq<Name>,
                           prefix: map<Name, nat>, parent: map<Name, Option<Name>>, i: nat, n: Name)
    requires i <= |order|
  {
    n in order && PrefixAt(fs, cut, root, prefix, parent, n) && (n != root ==> parent[n].value in order[i..])
  }

  ghost predicate Traced(fs: Functions, cut: Edges, root: Name, order: seq<Name>,
                         prefix: map<Name, nat>, parent: map<Name, Option<Name>>, i: nat)
    requires i <= |order|
  {
    && prefix.Keys == parent.Keys && root in prefix
    && forall n :: n in prefix ==> TracedAt(fs, cut, root, order, prefix, parent, i, n)
  }

  /** Every call of the functions reached and passed is accounted for. */
  ghost predicate CountedFrom(fs: Functions, cut: Edges, order: seq<Name>, prefix: map<Name, nat>, i: nat)
    requires i <= |order|
  {
    forall n :: n in order[i..] && n in prefix ==> CallsCounted(fs, cut, prefix, n)
  }

  ghost predicate RootLast(root: Name, order: seq<Name>) {
    order != [] && order[|order| - 1] == root
  }

  lemma PassBegins(fs: Functions, cut: Edges, root: Name, order: seq<Name>)
    requires RootLast(root, order)
    ensures Traced(fs, cut, root, order, map[root := 0], map[root := None], |order|)
    ensures CountedFrom(fs, cut, order, map[root := 0], |order|)
  {}

  /** A kept callee of order[i] lies before it, so it is neither passed nor the root. */
  lemma CalleeAhead(fs: Functions, cut: Edges, root: Name, order: seq<Name>, i: nat, child: Name)
    requires Downward(fs, cut, order) && RootLast(root, order) && i < |order| && Keeps(fs, cut, order[i], child)
    ensures child in order && child !in order[i..] && child != root
  {
    KeptGoesDown(fs, cut, order, order[i], child);
    IndexUnique(order, i);
    var j := IndexOf(order, child);
    forall k | i <= k < |order| ensures order[k] != child { assert order[j] != order[k]; }
    assert root == order[|order| - 1];
  }

  lemma UpdateTraces(fs: Functions, cut: Edges, root: Name, order: seq<Name>, prefix: map<Name, nat>,
                     parent: map<Name, Option<Name>>, i: nat, child: Name)
    requires Downward(fs, cut, order) && RootLast(root, order) && i < |order| && Keeps(fs, cut, order[i], child)
    requires Traced(fs, cut, root, order, prefix, parent, i) && order[i] in prefix
    ensures Traced(fs, cut, root, order, prefix[child := prefix[order[i]] + Frame(fs, order[i])],
                   parent[child := Some(order[i])], i)
    ensures order[i] != child
  {
    hide Downward, Keeps;
    CalleeAhead(fs, cut, root, order, i, child);
    var name := order[i];
    assert name == order[i..][0];
    var prefix', parent' := prefix[child := prefix[name] + Frame(fs, name)], parent[child := Some(name)];
    forall n | n in prefix' ensures TracedAt(fs, cut, root, order, prefix', parent', i, n) {
      if n != child { assert TracedAt(fs, cut, root, order, prefix, parent, i, n); }
    }
  }

  lemma UpdateCounts(fs: Functions, cut: Edges, root: Name, order: seq<Name>, prefix: map<Name, nat>, i: nat,
                     child: Name, reach: nat)
    requires Downward(fs, cut, order) && RootLast(root, order) && i < |order| && Keeps(fs, cut, order[i], child)
    requires CountedFrom(fs, cut, order, prefix, i + 1) && (child in prefix ==> prefix[child] < reach)
    ensures CountedFrom(fs, cut, order, prefix[child := reach], i + 1)
  {
    hide Downward, Keeps;
    CalleeAhead(fs, cut, root, order, i, child);
    var passed, prefix' := order[i + 1..], prefix[child := reach];
    forall n | n in passed && n in prefix' ensures CallsCounted(fs, cut, prefix', n) {
      assert n in order[i..] by { SuffixMember(order, i, n); }
      assert CallsCounted(fs, cut, prefix, n);
    }
  }

  lemma SuffixMember(order: seq<Name>, i: nat, n: Name)
    requires i < |order| && n in order[i + 1..]
    ensures n in order[i..]
  {
    var k :| 0 <= k < |order| - (i + 1) && order[i + 1..][k] == n;
    assert order[i..][k + 1] == n;
  }

  /** The kept callees among the first k of order[i] are accounted for. */
  ghost predicate CountedCalls(fs: Functions, cut: Edges, prefix: map<Name, nat>, name: Name, calls: seq<Name>) {
    && name in prefix
    && forall b :: b in calls && (name, b) !in cut ==> b in prefix && prefix[name] + Frame(fs, name) <= prefix[b]
  }

  lemma CountedNext(fs: Functions, cut: Edges, order: seq<Name>, prefix: map<Name, nat>, i: nat)
    requires i < |order| && CountedFrom(fs, cut, order, prefix, i + 1)
    requires CountedCalls(fs, cut, prefix, order[i], Callees(fs, order[i]))
    ensures CountedFrom(fs, cut, order, prefix, i)
  {
    assert order[i..] == [order[i]] + order[i + 1..];
    assert CallsCounted(fs, cut, prefix, order[i]);
  }

  /** A function that the pass has not reached is passed over. */
  lemma CountedOver(fs: Functions, cut: Edges, order: seq<Name>, prefix: map<Name, nat>, i: nat)
    requires i < |order| && CountedFrom(fs, cut, order, prefix, i + 1) && order[i] !in prefix
    ensures CountedFrom(fs, cut, order, prefix, i)
  {
    assert order[i..] == [order[i]] + order[i + 1..];
  }

  lemma TracedNext(fs: Functions, cut: Edges, root: Name, order: seq<Name>, prefix: map<Name, nat>,
                   parent: map<Name, Option<Name>>, i: nat)
    requires i < |order| && Traced(fs, cut, root, order, prefix, parent, i + 1)
    ensures Traced(fs, cut, root, order, prefix, parent, i)
  {
    hide PrefixAt;
    forall n | n in prefix ensures TracedAt(fs, cut, root, order, prefix, parent, i, n) {
      assert TracedAt(fs, cut, root, order, prefix, parent, i + 1, n);
      PrefixHasParent(fs, cut, root, prefix, parent, n);
      if n != root { SuffixMember(order, i, parent[n].value); }
    }
  }

  lemma PrefixHasParent(fs: Functions, cut: Edges, root: Name, prefix: map<Name, nat>,
                        parent: map<Name, Option<Name>>, n: Name)
    requires PrefixAt(fs, cut, root, prefix, parent, n)
    ensures n in parent && (n != root ==> parent[n].Some?)
  {}

  lemma PassEnds(fs: Functions, cut: Edges, root: Name, order: seq<Name>, prefix: map<Name, nat>,
                 parent: map<Name, Option<Name>>)
    requires RootLast(root, order) && Traced(fs, cut, root, order, prefix, parent, 0)
    requires CountedFrom(fs, cut, order, prefix, 0)
    ensures Prefixed(fs, cut, root, order, prefix, parent)
  {
    hide PrefixAt;
    assert order[0..] == order;
    forall n | n in prefix
      ensures n in order && PrefixAt(fs, cut, root, prefix, parent, n) && CallsCounted(fs, cut, prefix, n)
    {
      assert TracedAt(fs, cut, root, order, prefix, parent, 0, n);
      assert CallsCounted(fs, cut, prefix, n);
    }
  }

  // ----- Exactness

  lemma {:induction false} WorstExists(fs: Functions, cut: Edges, order: seq<Name>, subtree: map<Name, nat>,
                                       next: map<Name, Option<Name>>, n: Name)
    returns (path: seq<Name>)
    requires Downward(fs, cut, order) && Settled(fs, cut, order, subtree, next) && n in order
    ensures PathFrom(fs, cut, path, n) && n in subtree && Weight(fs, path) == subtree[n]
    decreases IndexOf(order, n)
  {
    hide Downward;
    assert SettledAt(fs, cut, subtree, next, n);
    match next[n] {
      case None =>
        path := [n];
        WeightOne(fs, n);
      case Some(c) =>
        KeptGoesDown(fs, cut, order, n, c);
        var rest := WorstExists(fs, cut, order, subtree, next, c);
        path := [n] + rest;
        PrependPath(fs, cut, n, rest);
        assert path[1..] == rest;
    }
  }

  /** The table of subtrees is exact. */
  lemma SubtreeExact(fs: Functions, cut: Edges, order: seq<Name>, subtree: map<Name, nat>,
                     next: map<Name, Option<Name>>, n: Name)
    requires Downward(fs, cut, order) && Settled(fs, cut, order, subtree, next) && n in order
    ensures n in subtree && HeaviestFrom(fs, cut, n, subtree[n])
  {
    hide Downward, Settled, Weight;
    var worst := WorstExists(fs, cut, order, subtree, next, n);
    forall path | PathFrom(fs, cut, path, n) ensures Weight(fs, path) <= subtree[n] {
      SubtreeBounds(fs, cut, order, subtree, next, path);
    }
  }

  lemma {:induction false} ChainExists(fs: Functions, cut: Edges, root: Name, order: seq<Name>,
                                       prefix: map<Name, nat>, parent: map<Name, Option<Name>>, n: Name)
    returns (path: seq<Name>)
    requires Downward(fs, cut, order) && Prefixed(fs, cut, root, order, prefix, parent) && n in prefix
    ensures PathTo(fs, cut, path, root, n) && Weight(fs, path) == prefix[n] + Frame(fs, n)
    decreases if n in order then |order| - IndexOf(order, n) else 0
  {
    hide Downward, CallsCounted;
    assert PrefixAt(fs, cut, root, prefix, parent, n) && n in order;
    WeightOne(fs, n);
    if n == root {
      path := [n];
    } else {
      var p := parent[n].value;
      assert p in prefix && p in order;
      KeptGoesDown(fs, cut, order, p, n);
      var above := ChainExists(fs, cut, root, order, prefix, parent, p);
      path := above + [n];
      ExtendPath(fs, cut, above, n);
      WeightConcat(fs, above, [n]);
    }
  }

  /** The table of prefixes is exact. */
  lemma PrefixExact(fs: Functions, cut: Edges, root: Name, order: seq<Name>, prefix: map<Name, nat>,
                    parent: map<Name, Option<Name>>, n: Name)
    requires Downward(fs, cut, order) && Prefixed(fs, cut, root, order, prefix, parent) && n in prefix
    ensures HeaviestAbove(fs, cut, root, n, prefix[n])
  {
    hide Downward, Weight, CallsCounted, PrefixAt;
    var chain := ChainExists(fs, cut, root, order, prefix, parent, n);
    forall path | PathTo(fs, cut, path, root, n) ensures Weight(fs, path) <= prefix[n] + Frame(fs, n) {
      PrefixBounds(fs, cut, root, order, prefix, parent, path);
    }
  }

  // ----- Reachability

  /** The root reaches n by calls that are not cut. */
  ghost predicate ReachesBy(fs: Functions, cut: Edges, root: Name, n: Name) {
    exists path :: PathTo(fs, cut, path, root, n)
  }

  ghost predicate Reachable(fs: Functions, root: Name, n: Name) {
    ReachesBy(fs, {}, root, n)
  }

  /** The functions with a prefix are those that the root reaches by kept calls. */
  lemma PrefixMeansReached(fs: Functions, cut: Edges, root: Name, order: seq<Name>, prefix: map<Name, nat>,
                           parent: map<Name, Option<Name>>, n: Name)
    requires Downward(fs, cut, order) && Prefixed(fs, cut, root, order, prefix, parent)
    ensures n in prefix <==> ReachesBy(fs, cut, root, n)
  {
    hide Downward, Path, CallsCounted, PrefixAt, Weight;
    if n in prefix {
      var chain := ChainExists(fs, cut, root, order, prefix, parent, n);
    }
    if ReachesBy(fs, cut, root, n) {
      var path :| PathTo(fs, cut, path, root, n);
      PrefixBounds(fs, cut, root, order, prefix, parent, path);
    }
  }

  ghost predicate ClosedUnderCalls(fs: Functions, order: seq<Name>) {
    forall a, b :: a in order && b in Callees(fs, a) ==> b in order
  }

  lemma {:induction false} StaysInside(fs: Functions, order: seq<Name>, path: seq<Name>, i: nat)
    requires ClosedUnderCalls(fs, order) && Path(fs, {}, path) && path[0] in order && i < |path|
    ensures path[i] in order
  {
    if i > 0 {
      StaysInside(fs, order, path, i - 1);
      assert Keeps(fs, {}, path[i - 1], path[i]);
    }
  }

  lemma UncutPath(fs: Functions, cut: Edges, path: seq<Name>)
    requires Path(fs, cut, path)
    ensures Path(fs, {}, path)
  {
    forall i | 0 < i < |path| ensures Keeps(fs, {}, path[i - 1], path[i]) {
      assert Keeps(fs, cut, path[i - 1], path[i]);
    }
  }

  /** Every finished function but the root has a kept call to it from a finished one. */
  ghost predicate EachCalled(fs: Functions, cut: Edges, root: Name, order: seq<Name>) {
    forall n :: n in order && n != root ==> exists p :: p in order && Keeps(fs, cut, p, n)
  }

  /** When only the search's own edges are cut, the pass reaches every finished function. */
  lemma {:induction false} PassReachesAll(fs: Functions, cut: Edges, root: Name, order: seq<Name>,
                                          prefix: map<Name, nat>, parent: map<Name, Option<Name>>, n: Name)
    requires Downward(fs, cut, order) && Prefixed(fs, cut, root, order, prefix, parent)
    requires EachCalled(fs, cut, root, order) && n in order
    ensures n in prefix
    decreases |order| - IndexOf(order, n)
  {
    hide Downward, PrefixAt, Keeps;
    if n != root {
      var p :| p in order && Keeps(fs, cut, p, n);
      KeptGoesDown(fs, cut, order, p, n);
      PassReachesAll(fs, cut, root, order, prefix, parent, p);
      assert CallsCounted(fs, cut, prefix, p);
    }
  }

  /** Finished functions are those that the root reaches, by calls of either kind. */
  lemma FinishedMeansReachable(fs: Functions, cut: Edges, root: Name, order: seq<Name>, n: Name)
    requires Downward(fs, cut, order) && EachCalled(fs, cut, root, order) && ClosedUnderCalls(fs, order)
    requires root in order
    ensures n in order <==> Reachable(fs, root, n)
  {
    hide Downward, Path, EachCalled;
    if n in order {
      var path := CallChain(fs, cut, root, order, n);
      UncutPath(fs, cut, path);
      assert PathTo(fs, {}, path, root, n);
    }
    if Reachable(fs, root, n) {
      var path :| PathTo(fs, {}, path, root, n);
      PathNotEmpty(fs, {}, path);
      StaysInside(fs, order, path, |path| - 1);
    }
  }

  lemma {:induction false} CallChain(fs: Functions, cut: Edges, root: Name, order: seq<Name>, n: Name)
    returns (path: seq<Name>)
    requires Downward(fs, cut, order) && EachCalled(fs, cut, root, order) && n in order
    ensures PathTo(fs, cut, path, root, n)
    decreases |order| - IndexOf(order, n)
  {
    hide Downward, Keeps;
    if n == root {
      path := [n];
    } else {
      var p :| p in order && Keeps(fs, cut, p, n);
      KeptGoesDown(fs, cut, order, p, n);
      var above := CallChain(fs, cut, root, order, p);
      path := above + [n];
      ExtendPath(fs, cut, above, n);
    }
  }

  lemma PathNotEmpty(fs: Functions, cut: Edges, path: seq<Name>)
    requires Path(fs, cut, path)
    ensures path != []
  {}
}
