/**
 Call graphs and their heaviest paths (tools/tlsr8258-stack-report.py:313-370): what a depth-first
 order, the edges it cuts and two tables of numbers must satisfy for the tables to be the heaviest
 stack use below and above every function.
 */
module CallGraph {
  import opened Wrappers

  type Name = string

  datatype Function = Function(frame: nat, calls: seq<Name>)

  type Functions = map<Name, Function>

  type Edges = set<(Name, Name)>

  function Frame(fs: Functions, name: Name): nat {
    if name in fs then fs[name].frame else 0
  }

  function Callees(fs: Functions, name: Name): seq<Name> {
    if name in fs then fs[name].calls else []
  }

  // ----- Paths

  /** A call that is not among the cut edges. */
  predicate Keeps(fs: Functions, cut: Edges, a: Name, b: Name) {
    b in Callees(fs, a) && (a, b) !in cut
  }

  ghost predicate Path(fs: Functions, cut: Edges, path: seq<Name>) {
    path != [] && forall i :: 0 < i < |path| ==> Keeps(fs, cut, path[i - 1], path[i])
  }

  ghost predicate PathFrom(fs: Functions, cut: Edges, path: seq<Name>, from: Name) {
    Path(fs, cut, path) && path[0] == from
  }

  ghost predicate PathTo(fs: Functions, cut: Edges, path: seq<Name>, from: Name, to: Name) {
    PathFrom(fs, cut, path, from) && path[|path| - 1] == to
  }

  /** Where a path ends. */
  function Last(path: seq<Name>): Name {
    if path == [] then "" else path[|path| - 1]
  }

  /** The frames on a path. */
  function Weight(fs: Functions, path: seq<Name>): nat {
    if path == [] then 0 else Frame(fs, path[0]) + Weight(fs, path[1..])
  }

  lemma {:induction false} WeightConcat(fs: Functions, a: seq<Name>, b: seq<Name>)
    ensures Weight(fs, a + b) == Weight(fs, a) + Weight(fs, b)
  {
    if a == [] {
      assert a + b == b;
    } else {
      assert (a + b)[1..] == a[1..] + b;
      WeightConcat(fs, a[1..], b);
    }
  }

  lemma WeightOne(fs: Functions, name: Name)
    ensures Weight(fs, [name]) == Frame(fs, name)
  {}

  /** `w` is the heaviest stack use of `name` and everything it calls. */
  ghost predicate HeaviestFrom(fs: Functions, cut: Edges, name: Name, w: nat) {
    && (exists path :: PathFrom(fs, cut, path, name) && Weight(fs, path) == w)
    && (forall path :: PathFrom(fs, cut, path, name) ==> Weight(fs, path) <= w)
  }

  /** `w` is the heaviest stack use above `name` on the way from `root`. */
  ghost predicate HeaviestAbove(fs: Functions, cut: Edges, root: Name, name: Name, w: nat) {
    && (exists path :: PathTo(fs, cut, path, root, name) && Weight(fs, path) == w + Frame(fs, name))
    && (forall path :: PathTo(fs, cut, path, root, name) ==> Weight(fs, path) <= w + Frame(fs, name))
  }

  // ----- A finishing order

  ghost predicate Distinct(s: seq<Name>) {
    forall i, j :: 0 <= i < j < |s| ==> s[i] != s[j]
  }

  /** A call of order[i] is kept exactly when its callee finished before. */
  ghost predicate OrderedAt(fs: Functions, cut: Edges, order: seq<Name>, i: nat)
    requires i < |order|
  {
    forall b :: b in Callees(fs, order[i]) ==> ((order[i], b) !in cut <==> b in order[..i])
  }

  ghost predicate Ordered(fs: Functions, cut: Edges, order: seq<Name>) {
    Distinct(order) && forall i :: 0 <= i < |order| ==> OrderedAt(fs, cut, order, i)
  }

  /** Kept calls go to functions that finished before; cutting more edges does not change that. */
  ghost predicate DownwardAt(fs: Functions, cut: Edges, order: seq<Name>, i: nat)
    requires i < |order|
  {
    forall b :: Keeps(fs, cut, order[i], b) ==> b in order[..i]
  }

  ghost predicate Downward(fs: Functions, cut: Edges, order: seq<Name>) {
    Distinct(order) && forall i :: 0 <= i < |order| ==> DownwardAt(fs, cut, order, i)
  }

  lemma OrderedIsDownward(fs: Functions, cut: Edges, more: Edges, order: seq<Name>)
    requires Ordered(fs, cut, order) && cut <= more
    ensures Downward(fs, more, order)
  {
    forall i | 0 <= i < |order| ensures DownwardAt(fs, more, order, i) {
      assert OrderedAt(fs, cut, order, i);
    }
  }

  function IndexOf(s: seq<Name>, name: Name): (r: nat)
    requires name in s
    ensures r < |s| && s[r] == name
  {
    if s[0] == name then 0 else 1 + IndexOf(s[1..], name)
  }

  lemma IndexUnique(s: seq<Name>, i: nat)
    requires Distinct(s) && i < |s|
    ensures IndexOf(s, s[i]) == i
  {}

  /** Kept calls go down the order. */
  lemma KeptGoesDown(fs: Functions, cut: Edges, order: seq<Name>, a: Name, b: Name)
    requires Downward(fs, cut, order) && a in order && Keeps(fs, cut, a, b)
    ensures b in order && IndexOf(order, b) < IndexOf(order, a)
  {
    var i := IndexOf(order, a);
    assert DownwardAt(fs, cut, order, i);
    var j :| 0 <= j < i && order[j] == b;
    IndexUnique(order, j);
  }

  lemma {:induction false} PathGoesDown(fs: Functions, cut: Edges, order: seq<Name>, path: seq<Name>, i: nat)
    requires Downward(fs, cut, order) && Path(fs, cut, path) && path[0] in order && i < |path|
    ensures path[i] in order && IndexOf(order, path[i]) + i <= IndexOf(order, path[0])
  {
    if i > 0 {
      PathGoesDown(fs, cut, order, path, i - 1);
      assert Keeps(fs, cut, path[i - 1], path[i]);
      KeptGoesDown(fs, cut, order, path[i - 1], path[i]);
    }
  }

  /** No path of kept calls returns to where it was. */
  lemma NoCycle(fs: Functions, cut: Edges, order: seq<Name>, path: seq<Name>, i: nat, j: nat)
    requires Downward(fs, cut, order) && Path(fs, cut, path) && path[0] in order && i < j < |path|
    ensures path[i] != path[j]
  {
    var rest := path[i..];
    PathGoesDown(fs, cut, order, path, i);
    assert Path(fs, cut, rest) by {
      forall k | 0 < k < |rest| ensures Keeps(fs, cut, rest[k - 1], rest[k]) {
        assert Keeps(fs, cut, path[i + k - 1], path[i + k]);
      }
    }
    PathGoesDown(fs, cut, order, rest, j - i);
  }

  /** Every cut edge closes a cycle of the call graph. */
  ghost predicate OnlyCyclesCut(fs: Functions, cut: Edges) {
    forall a, b :: (a, b) in cut ==> b in Callees(fs, a) && exists path :: PathTo(fs, {}, path, b, a)
  }

  // ----- The tables

  /** What the search leaves for a finished function: the frame plus the heaviest kept callee, and which
      callee that is, if it weighs anything. */
  ghost predicate BestOf(fs: Functions, cut: Edges, subtree: map<Name, nat>, name: Name, calls: seq<Name>, best: nat,
                         child: Option<Name>) {
    && (forall b :: b in calls && (name, b) !in cut ==> b in subtree && subtree[b] <= best)
    && (child.None? ==> best == 0)
    && (child.Some? ==>
          && child.value in calls && (name, child.value) !in cut
          && child.value in subtree && subtree[child.value] == best)
  }

  ghost predicate SettledAt(fs: Functions, cut: Edges, subtree: map<Name, nat>, next: map<Name, Option<Name>>,
                            name: Name) {
    && name in subtree && name in next && subtree[name] >= Frame(fs, name)
    && BestOf(fs, cut, subtree, name, Callees(fs, name), subtree[name] - Frame(fs, name), next[name])
  }

  ghost predicate Settled(fs: Functions, cut: Edges, order: seq<Name>, subtree: map<Name, nat>,
                          next: map<Name, Option<Name>>) {
    forall name :: name in order ==> SettledAt(fs, cut, subtree, next, name)
  }

  lemma TailPath(fs: Functions, cut: Edges, path: seq<Name>)
    requires Path(fs, cut, path) && |path| > 1
    ensures Keeps(fs, cut, path[0], path[1]) && PathFrom(fs, cut, path[1..], path[1])
  {
    var rest := path[1..];
    forall k | 0 < k < |rest| ensures Keeps(fs, cut, rest[k - 1], rest[k]) {
      assert Keeps(fs, cut, path[k], path[k + 1]);
    }
    assert Keeps(fs, cut, path[1 - 1], path[1]);
  }

  /** No path below a function weighs more than its table entry. */
  lemma {:induction false} SubtreeBounds(fs: Functions, cut: Edges, order: seq<Name>, subtree: map<Name, nat>,
                                         next: map<Name, Option<Name>>, path: seq<Name>)
    requires Downward(fs, cut, order) && Settled(fs, cut, order, subtree, next)
    requires Path(fs, cut, path) && path[0] in order
    ensures path[0] in subtree && Weight(fs, path) <= subtree[path[0]]
    decreases |path|
  {
    hide Downward, Keeps;
    assert SettledAt(fs, cut, subtree, next, path[0]);
    if |path| > 1 {
      TailPath(fs, cut, path);
      KeptGoesDown(fs, cut, order, path[0], path[1]);
      SubtreeBounds(fs, cut, order, subtree, next, path[1..]);
      KeptIs(fs, cut, path[0], path[1]);
    } else {
      assert path[1..] == [];
    }
  }

  lemma KeptIs(fs: Functions, cut: Edges, a: Name, b: Name)
    requires Keeps(fs, cut, a, b)
    ensures b in Callees(fs, a) && (a, b) !in cut
  {}

  // ----- The table of prefixes

  /** Every entry but the root's is its parent's entry plus the parent's frame, and every kept call is
      accounted for. */
  ghost predicate PrefixAt(fs: Functions, cut: Edges, root: Name, prefix: map<Name, nat>,
                           parent: map<Name, Option<Name>>, name: Name) {
    name in prefix && name in parent &&
    if name == root then prefix[name] == 0 && parent[name] == None
    else parent[name].Some? && Keeps(fs, cut, parent[name].value, name) && parent[name].value in prefix
         && prefix[name] == prefix[parent[name].value] + Frame(fs, parent[name].value)
  }

  ghost predicate CallsCounted(fs: Functions, cut: Edges, prefix: map<Name, nat>, name: Name) {
    name in prefix && forall b :: Keeps(fs, cut, name, b) ==> b in prefix && prefix[name] + Frame(fs, name) <= prefix[b]
  }

  ghost predicate Prefixed(
      fs: Functions, cut: Edges, root: Name, order: seq<Name>,
      prefix: map<Name, nat>, parent: map<Name, Option<Name>>) {
    && prefix.Keys == parent.Keys && root in prefix
    && forall name :: name in prefix ==>
         name in order && PrefixAt(fs, cut, root, prefix, parent, name) && CallsCounted(fs, cut, prefix, name)
  }

  lemma ShortenPath(fs: Functions, cut: Edges, path: seq<Name>)
    requires Path(fs, cut, path) && |path| > 1
    ensures var n := |path| - 1; Keeps(fs, cut, path[n - 1], path[n]) && Path(fs, cut, path[..n])
  {
    var short := path[..|path| - 1];
    forall k | 0 < k < |short| ensures Keeps(fs, cut, short[k - 1], short[k]) {
      assert Keeps(fs, cut, path[k - 1], path[k]);
    }
  }

  /** No path from the root weighs more than the prefix and frame of its last function. */
  lemma {:induction false} PrefixBounds(fs: Functions, cut: Edges, root: Name, order: seq<Name>,
                                        prefix: map<Name, nat>, parent: map<Name, Option<Name>>, path: seq<Name>)
    requires Prefixed(fs, cut, root, order, prefix, parent) && PathFrom(fs, cut, path, root)
    ensures path[|path| - 1] in prefix && Weight(fs, path) <= prefix[path[|path| - 1]] + Frame(fs, path[|path| - 1])
    decreases |path|
  {
    hide Keeps, PrefixAt, CallsCounted, Weight;
    var n := |path| - 1;
    if n == 0 {
      assert path == [root];
      WeightOne(fs, root);
      assert PrefixAt(fs, cut, root, prefix, parent, root);
      RootPrefix(fs, cut, root, prefix, parent);
    } else {
      ShortenPath(fs, cut, path);
      PrefixBounds(fs, cut, root, order, prefix, parent, path[..n]);
      assert CallsCounted(fs, cut, prefix, path[n - 1]);
      Counted(fs, cut, prefix, path[n - 1], path[n]);
      assert path == path[..n] + [path[n]];
      WeightConcat(fs, path[..n], [path[n]]);
      WeightOne(fs, path[n]);
    }
  }

  lemma RootPrefix(fs: Functions, cut: Edges, root: Name, prefix: map<Name, nat>, parent: map<Name, Option<Name>>)
    requires PrefixAt(fs, cut, root, prefix, parent, root)
    ensures root in prefix && prefix[root] == 0
  {}

  lemma Counted(fs: Functions, cut: Edges, prefix: map<Name, nat>, a: Name, b: Name)
    requires CallsCounted(fs, cut, prefix, a) && Keeps(fs, cut, a, b)
    ensures a in prefix && b in prefix && prefix[a] + Frame(fs, a) <= prefix[b]
  {}

  lemma ExtendPath(fs: Functions, cut: Edges, path: seq<Name>, name: Name)
    requires Path(fs, cut, path) && Keeps(fs, cut, path[|path| - 1], name)
    ensures Path(fs, cut, path + [name])
  {
    var longer := path + [name];
    forall k | 0 < k < |longer| ensures Keeps(fs, cut, longer[k - 1], longer[k]) {
      if k < |path| { assert Keeps(fs, cut, path[k - 1], path[k]); }
    }
  }

  lemma PrependPath(fs: Functions, cut: Edges, name: Name, path: seq<Name>)
    requires Path(fs, cut, path) && Keeps(fs, cut, name, path[0])
    ensures Path(fs, cut, [name] + path)
  {
    var longer := [name] + path;
    forall k | 0 < k < |longer| ensures Keeps(fs, cut, longer[k - 1], longer[k]) {
      if k > 1 { assert Keeps(fs, cut, path[k - 2], path[k - 1]); }
    }
  }

  lemma SplitPath(fs: Functions, cut: Edges, path: seq<Name>, i: nat)
    requires Path(fs, cut, path) && i < |path|
    ensures Path(fs, cut, path[..i + 1]) && Path(fs, cut, path[i..])
    ensures Weight(fs, path) + Frame(fs, path[i]) == Weight(fs, path[..i + 1]) + Weight(fs, path[i..])
  {
    var first, rest := path[..i + 1], path[i..];
    forall k | 0 < k < |first| ensures Keeps(fs, cut, first[k - 1], first[k]) {
      assert Keeps(fs, cut, path[k - 1], path[k]);
    }
    forall k | 0 < k < |rest| ensures Keeps(fs, cut, rest[k - 1], rest[k]) {
      assert Keeps(fs, cut, path[i + k - 1], path[i + k]);
    }
    assert path == path[..i] + rest && first == path[..i] + [path[i]];
    WeightConcat(fs, path[..i], rest);
    WeightConcat(fs, path[..i], [path[i]]);
    WeightOne(fs, path[i]);
  }

  lemma JoinPath(fs: Functions, cut: Edges, above: seq<Name>, below: seq<Name>)
    requires Path(fs, cut, above) && Path(fs, cut, below) && above[|above| - 1] == below[0]
    ensures Path(fs, cut, above + below[1..])
    ensures Weight(fs, above + below[1..]) + Frame(fs, below[0]) == Weight(fs, above) + Weight(fs, below)
  {
    var path := above + below[1..];
    forall k | 0 < k < |path| ensures Keeps(fs, cut, path[k - 1], path[k]) {
      if k < |above| { assert Keeps(fs, cut, above[k - 1], above[k]); } else {
        var m := k - |above| + 1;
        assert Keeps(fs, cut, below[m - 1], below[m]);
      }
    }
    WeightConcat(fs, above, below[1..]);
  }
}
