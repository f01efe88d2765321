/**
 What searches from one root after another leave in the graph (tools/tlsr8258-stack-report.py:313-318, 339,
 345-346): the recursive edges of all of them, and for every function the entries of the last search that
 reached it.
 */
module CallGraphHistory {
  import opened Wrappers
  import opened CallGraph
  import opened CallGraphSearch
  import opened CallGraphPrefix
  import opened CallGraphRun

  /** The tables that outlive a search. */
  datatype Tables = Tables(edges: Edges, subtree: map<Name, nat>, next: map<Name, Option<Name>>)

  function Overlay(t: Tables, s: Search): Tables {
    Tables(t.edges + s.cut, t.subtree + s.subtree, t.next + s.next)
  }

  /** The tables after searches from the given roots. */
  ghost function After(fs: Functions, roots: seq<Name>): Tables {
    if roots == [] then Tables({}, map[], map[])
    else Overlay(After(fs, roots[..|roots| - 1]), SearchFrom(fs, roots[|roots| - 1]))
  }

  lemma AfterNext(fs: Functions, roots: seq<Name>, root: Name)
    ensures After(fs, roots + [root]) == Overlay(After(fs, roots), SearchFrom(fs, root))
  {
    assert (roots + [root])[..|roots|] == roots;
  }

  lemma OverlayLeave(fs: Functions, t: Tables, s: Search, name: Name, best: nat, child: Option<Name>)
    ensures var u, o := Overlay(t, Leave(fs, s, name, best, child)), Overlay(t, s);
            u == Tables(o.edges, o.subtree[name := Frame(fs, name) + best], o.next[name := child])
  {
    hide Frame;
    EntryOver<nat>(t.subtree, s.subtree, name, Frame(fs, name) + best);
    EntryOver<Option<Name>>(t.next, s.next, name, child);
  }

  lemma EntryOver<T>(below: map<Name, T>, over: map<Name, T>, name: Name, entry: T)
    ensures below + over[name := entry] == (below + over)[name := entry]
  {}

  // ----- Whose an entry is

  /** The k-th root is the last to reach n. */
  ghost predicate LastReaching(fs: Functions, roots: seq<Name>, k: nat, n: Name) {
    k < |roots| && Reachable(fs, roots[k], n) && forall j :: k < j < |roots| ==> !Reachable(fs, roots[j], n)
  }

  /** Every entry is that of the last search to reach its function. */
  lemma {:induction false} LastWriter(fs: Functions, roots: seq<Name>, n: Name) returns (k: nat)
    requires n in After(fs, roots).next || n in After(fs, roots).subtree
    ensures k < |roots| && LastReaching(fs, roots, k, n)
  {
    hide SearchFrom, Reachable;
    var m := |roots| - 1;
    SearchReaches(fs, roots[m], n);
    if Reachable(fs, roots[m], n) {
      k := m;
    } else {
      k := LastWriter(fs, roots[..m], n);
    }
  }

  lemma {:induction false} EntryIs(fs: Functions, roots: seq<Name>, k: nat, n: Name)
    requires LastReaching(fs, roots, k, n)
    ensures var t, s := After(fs, roots), SearchFrom(fs, roots[k]);
            && n in t.subtree && n in s.subtree && t.subtree[n] == s.subtree[n]
            && n in t.next && n in s.next && t.next[n] == s.next[n]
  {
    hide SearchFrom, Reachable;
    var m := |roots| - 1;
    SearchReaches(fs, roots[m], n);
    if k < m { EntryIs(fs, roots[..m], k, n); }
  }

  lemma {:induction false} LastExists(fs: Functions, roots: seq<Name>, i: nat, n: Name) returns (k: nat)
    requires i < |roots| && Reachable(fs, roots[i], n)
    ensures LastReaching(fs, roots, k, n) && i <= k < |roots|
    decreases |roots| - i
  {
    hide Reachable;
    if j :| i < j < |roots| && Reachable(fs, roots[j], n) {
      k := LastExists(fs, roots, j, n);
    } else {
      k := i;
    }
  }

  /** A function has entries exactly when some root reaches it, and its subtree is the heaviest path below it by
      the calls that the last such root's search keeps. */
  lemma SubtreesAfter(fs: Functions, roots: seq<Name>, n: Name)
    ensures n in After(fs, roots).subtree <==> exists k: nat :: k < |roots| && LastReaching(fs, roots, k, n)
    ensures forall k: nat :: k < |roots| && LastReaching(fs, roots, k, n) ==>
              HeaviestFrom(fs, Cuts(fs, roots[k]), n, After(fs, roots).subtree[n])
  {
    hide After, LastReaching, HeaviestFrom, SearchFrom;
    if n in After(fs, roots).subtree { var k := LastWriter(fs, roots, n); }
    forall k: nat | k < |roots| && LastReaching(fs, roots, k, n)
      ensures n in After(fs, roots).subtree && HeaviestFrom(fs, Cuts(fs, roots[k]), n, After(fs, roots).subtree[n])
    {
      EntryIs(fs, roots, k, n);
      LastReaches(fs, roots, k, n);
      SearchSubtree(fs, roots[k], n);
    }
  }

  lemma LastReaches(fs: Functions, roots: seq<Name>, k: nat, n: Name)
    requires LastReaching(fs, roots, k, n)
    ensures k < |roots| && Reachable(fs, roots[k], n)
  {}

  lemma SearchSubtree(fs: Functions, root: Name, n: Name)
    requires Reachable(fs, root, n)
    ensures var s := SearchFrom(fs, root); n in s.subtree && HeaviestFrom(fs, s.cut, n, s.subtree[n])
  {
    hide Inv, SearchFrom, Ordered, Downward, Settled, OnlyCyclesCut, Reachable, HeaviestFrom;
    var s := SearchFrom(fs, root);
    SearchKeeps(fs, root);
    OrderOf(fs, root, s);
    SearchReaches(fs, root, n);
    SubtreeExact(fs, s.cut, s.order, s.subtree, s.next, n);
  }

  // ----- The walk along `next`

  predicate Leads(next: map<Name, Option<Name>>, a: Name, b: Name) {
    a in next && next[a] == Some(b)
  }

  /** A walk along a table to its end. */
  ghost predicate Walk(next: map<Name, Option<Name>>, path: seq<Name>) {
    && path != []
    && (forall i :: 0 < i < |path| ==> Leads(next, path[i - 1], path[i]))
    && (Last(path) in next ==> next[Last(path)] == None)
  }

  /** Where a function finished in the search from the k-th root. */
  ghost function Place(fs: Functions, roots: seq<Name>, k: nat, n: Name): nat {
    if k < |roots| && n in SearchFrom(fs, roots[k]).order then IndexOf(SearchFrom(fs, roots[k]).order, n) else 0
  }

  lemma ReachNext(fs: Functions, root: Name, n: Name, c: Name)
    requires Reachable(fs, root, n) && c in Callees(fs, n)
    ensures Reachable(fs, root, c)
  {
    var path :| PathTo(fs, {}, path, root, n);
    ExtendPath(fs, {}, path, c);
    assert PathTo(fs, {}, path + [c], root, c);
  }

  /** The next function was entered by the same search, before, or by a later one. */
  lemma NextEntry(fs: Functions, roots: seq<Name>, k: nat, n: Name) returns (k': nat)
    requires k < |roots| && LastReaching(fs, roots, k, n)
    requires n in After(fs, roots).next && After(fs, roots).next[n].Some?
    ensures var c := After(fs, roots).next[n].value;
            && Keeps(fs, Cuts(fs, roots[k]), n, c) && c in After(fs, roots).next && LastReaching(fs, roots, k', c)
            && k <= k' < |roots| && (k == k' ==> Place(fs, roots, k, c) < Place(fs, roots, k, n))
  {
    hide After, LastReaching, Reachable, SearchFrom, Inv, Ordered, Downward, Settled, OnlyCyclesCut;
    var root, s := roots[k], SearchFrom(fs, roots[k]);
    EntryIs(fs, roots, k, n);
    LastReaches(fs, roots, k, n);
    SearchReaches(fs, root, n);
    SearchKeeps(fs, root);
    OrderOf(fs, root, s);
    EntryOf(fs, root, s, n);
    var c := s.next[n].value;
    KeptGoesDown(fs, s.cut, s.order, n, c);
    ReachNext(fs, root, n, c);
    k' := LastExists(fs, roots, k, c);
    EntryIs(fs, roots, k', c);
  }

  lemma WalkTail(next: map<Name, Option<Name>>, path: seq<Name>)
    requires Walk(next, path) && |path| > 1
    ensures Leads(next, path[0], path[1]) && Walk(next, path[1..])
  {
    var rest := path[1..];
    forall i | 0 < i < |rest| ensures Leads(next, rest[i - 1], rest[i]) {
      assert Leads(next, path[i + 1 - 1], path[i + 1]);
    }
    assert Leads(next, path[1 - 1], path[1]);
  }

  /** Whatever the roots, a walk follows calls. */
  lemma {:induction false} WalkIsPath(fs: Functions, roots: seq<Name>, path: seq<Name>)
    requires Walk(After(fs, roots).next, path)
    ensures PathFrom(fs, {}, path, path[0])
    decreases |path|
  {
    hide After, LastReaching;
    if |path| > 1 {
      WalkTail(After(fs, roots).next, path);
      WalkIsPath(fs, roots, path[1..]);
      var k := LastWriter(fs, roots, path[0]);
      var k' := NextEntry(fs, roots, k, path[0]);
      PrependPath(fs, {}, path[0], path[1..]);
      assert path == [path[0]] + path[1..];
    }
  }

  /** The k-th root reaches n, and no later one reaches anything that n does. */
  ghost predicate Settles(fs: Functions, roots: seq<Name>, k: nat, n: Name) {
    && k < |roots| && Reachable(fs, roots[k], n)
    && forall j, x :: k < j < |roots| && Reachable(fs, n, x) ==> !Reachable(fs, roots[j], x)
  }

  lemma ReachItself(fs: Functions, n: Name)
    ensures Reachable(fs, n, n)
  {
    assert PathTo(fs, {}, [n], n, n);
  }

  lemma ReachBefore(fs: Functions, n: Name, c: Name, x: Name)
    requires c in Callees(fs, n) && Reachable(fs, c, x)
    ensures Reachable(fs, n, x)
  {
    var path :| PathTo(fs, {}, path, c, x);
    PrependPath(fs, {}, n, path);
    assert PathTo(fs, {}, [n] + path, n, x);
  }

  lemma SettlesNext(fs: Functions, roots: seq<Name>, k: nat, n: Name, c: Name)
    requires Settles(fs, roots, k, n) && c in Callees(fs, n)
    ensures Settles(fs, roots, k, c)
  {
    hide Reachable;
    ReachNext(fs, roots[k], n, c);
    forall j, x | k < j < |roots| && Reachable(fs, c, x) ensures !Reachable(fs, roots[j], x) {
      ReachBefore(fs, n, c, x);
    }
  }

  /** Where one search has written all the entries met, the walk weighs exactly the subtree. */
  lemma {:induction false} WalkIsWorst(fs: Functions, roots: seq<Name>, k: nat, path: seq<Name>)
    requires Walk(After(fs, roots).next, path) && Settles(fs, roots, k, path[0])
    ensures PathFrom(fs, Cuts(fs, roots[k]), path, path[0])
    ensures path[0] in After(fs, roots).subtree && Weight(fs, path) == After(fs, roots).subtree[path[0]]
    decreases |path|
  {
    hide After, LastReaching, Reachable, SearchFrom, Settles;
    var t, n := After(fs, roots), path[0];
    SettlesLast(fs, roots, k, n);
    EntryIs(fs, roots, k, n);
    SearchEntry(fs, roots[k], n);
    if |path| > 1 {
      WalkTail(t.next, path);
      SettlesNext(fs, roots, k, n, path[1]);
      SettlesLast(fs, roots, k, path[1]);
      EntryIs(fs, roots, k, path[1]);
      WalkIsWorst(fs, roots, k, path[1..]);
      PrependPath(fs, Cuts(fs, roots[k]), n, path[1..]);
      assert path == [n] + path[1..];
    } else {
      assert path == [n];
      WeightOne(fs, n);
    }
  }

  lemma SettlesLast(fs: Functions, roots: seq<Name>, k: nat, n: Name)
    requires Settles(fs, roots, k, n)
    ensures k < |roots| && LastReaching(fs, roots, k, n) && Reachable(fs, roots[k], n)
  {
    hide Reachable;
    ReachItself(fs, n);
  }

  /** An entry is the frame and the entry of the next function. */
  lemma SearchEntry(fs: Functions, root: Name, n: Name)
    requires Reachable(fs, root, n)
    ensures var s := SearchFrom(fs, root);
            && n in s.subtree && n in s.next
            && match s.next[n]
               case None => s.subtree[n] == Frame(fs, n)
               case Some(c) => Keeps(fs, s.cut, n, c) && c in s.subtree && s.subtree[n] == Frame(fs, n) + s.subtree[c]
  {
    hide Inv, SearchFrom, Reachable;
    SearchKeeps(fs, root);
    SearchReaches(fs, root, n);
    EntryOf(fs, root, SearchFrom(fs, root), n);
  }

  /** The last root settles all that it reaches. */
  lemma LastSettles(fs: Functions, roots: seq<Name>, n: Name)
    requires roots != [] && Reachable(fs, roots[|roots| - 1], n)
    ensures Settles(fs, roots, |roots| - 1, n)
  {}
}
