/**
 What the depth-first search of tools/tlsr8258-stack-report.py:334-348 keeps at every moment: white,
 grey and black functions, the stack of grey ones, and the tables of the black ones.
 */
module CallGraphSearch {
  import opened Wrappers
  import opened CallGraph

  /** The search's variables at one moment. */
  datatype Search = Search(cut: Edges, subtree: map<Name, nat>, next: map<Name, Option<Name>>,
                           state: map<Name, nat>, order: seq<Name>)

  const ACTIVE: nat := 1
  const DONE: nat := 2

  // ----- The invariant

  ghost predicate Coloured(stack: seq<Name>, s: Search) {
    && (forall n :: n in s.state <==> n in stack || n in s.order)
    && (forall n :: n in stack ==> s.state[n] == ACTIVE)
    && (forall n :: n in s.order ==> s.state[n] == DONE)
  }

  ghost predicate Stacked(fs: Functions, stack: seq<Name>) {
    Distinct(stack) && (stack != [] ==> Path(fs, {}, stack))
  }

  /** Edges out of an active function are cut only towards active functions. */
  ghost predicate CutsUp(stack: seq<Name>, s: Search) {
    forall a, b :: (a, b) in s.cut ==> (a in stack && b in stack) || (a in s.order && b in s.state)
  }

  /** Only finished functions have entries. */
  ghost predicate Tabled(s: Search) {
    s.next.Keys == s.subtree.Keys && forall n :: n in s.next ==> n in s.order
  }

  ghost predicate HasCaller(fs: Functions, stack: seq<Name>, s: Search, n: Name) {
    exists p :: (p in stack || p in s.order) && Keeps(fs, s.cut, p, n)
  }

  ghost predicate AllCalled(fs: Functions, root: Name, stack: seq<Name>, s: Search) {
    forall n :: n in s.order && n != root ==> HasCaller(fs, stack, s, n)
  }

  ghost predicate Inv(fs: Functions, root: Name, stack: seq<Name>, s: Search) {
    && Coloured(stack, s) && Stacked(fs, stack) && CutsUp(stack, s) && OnlyCyclesCut(fs, s.cut)
    && Ordered(fs, s.cut, s.order) && Settled(fs, s.cut, s.order, s.subtree, s.next)
    && AllCalled(fs, root, stack, s) && Tabled(s)
  }

  /** What a finished visit does to everything that was there before it. */
  ghost predicate Grows(s: Search, t: Search) {
    && s.order <= t.order && s.state.Keys <= t.state.Keys && s.cut <= t.cut
    && (forall a, b :: (a, b) in t.cut && (a, b) !in s.cut ==> a !in s.state)
    && (forall n :: n in s.order && n in s.subtree ==> n in t.subtree && t.subtree[n] == s.subtree[n])
  }

  lemma PrefixMember(s: seq<Name>, t: seq<Name>, n: Name)
    requires s <= t && n in s
    ensures n in t
  {
    var i :| 0 <= i < |s| && s[i] == n;
    assert t[i] == n;
  }

  lemma GrowsTrans(s: Search, t: Search, u: Search)
    requires Grows(s, t) && Grows(t, u)
    ensures Grows(s, u)
  {
    forall n | n in s.order && n in s.subtree ensures n in u.subtree && u.subtree[n] == s.subtree[n] {
      PrefixMember(s.order, t.order, n);
    }
  }

  // ----- Entering a function

  function Enter(s: Search, name: Name): Search {
    s.(state := s.state[name := ACTIVE])
  }

  lemma StackGrows(fs: Functions, stack: seq<Name>, name: Name)
    requires Stacked(fs, stack) && name !in stack && (stack != [] ==> name in Callees(fs, stack[|stack| - 1]))
    ensures Stacked(fs, stack + [name])
  {
    if stack != [] { ExtendPath(fs, {}, stack, name); }
  }

  lemma EnterKeeps(fs: Functions, root: Name, stack: seq<Name>, s: Search, name: Name)
    requires Inv(fs, root, stack, s) && name !in s.state
    requires stack != [] ==> name in Callees(fs, stack[|stack| - 1])
    ensures Inv(fs, root, stack + [name], Enter(s, name)) && Grows(s, Enter(s, name))
    ensures Tried(fs, stack + [name], Enter(s, name), name, 0, 0, None)
  {
    hide Ordered, Settled, Keeps, OnlyCyclesCut, Stacked, AllCalled, Coloured, CutsUp, Tried;
    EnterColours(stack, s, name);
    StackGrows(fs, stack, name);
    EnterCalled(fs, root, stack, s, name);
    NothingTried(fs, stack + [name], Enter(s, name), name);
  }

  lemma EnterColours(stack: seq<Name>, s: Search, name: Name)
    requires Coloured(stack, s) && CutsUp(stack, s) && name !in s.state
    ensures Coloured(stack + [name], Enter(s, name)) && CutsUp(stack + [name], Enter(s, name)) && name !in stack
  {}

  lemma EnterCalled(fs: Functions, root: Name, stack: seq<Name>, s: Search, name: Name)
    requires AllCalled(fs, root, stack, s)
    ensures AllCalled(fs, root, stack + [name], Enter(s, name))
  {
    hide Keeps;
    var t := Enter(s, name);
    forall n | n in t.order && n != root ensures HasCaller(fs, stack + [name], t, n) {
      assert HasCaller(fs, stack, s, n);
      var p :| (p in stack || p in s.order) && Keeps(fs, s.cut, p, n);
      assert (p in stack + [name] || p in t.order) && Keeps(fs, t.cut, p, n);
    }
  }

  lemma NothingTried(fs: Functions, stack: seq<Name>, s: Search, name: Name)
    requires name in stack
    ensures Tried(fs, stack, s, name, 0, 0, None)
  {}

  // ----- Trying the callees

  /** The first k callees of `name` have been tried. */
  ghost predicate Tried(fs: Functions, stack: seq<Name>, s: Search, name: Name, k: nat, best: nat,
                        child: Option<Name>) {
    && name in stack && k <= |Callees(fs, name)|
    && BestOf(fs, s.cut, s.subtree, name, Callees(fs, name)[..k], best, child)
    && (forall b :: b in Callees(fs, name)[..k] && (name, b) !in s.cut ==> b in s.order)
  }

  function Cut(s: Search, name: Name, child: Name): Search {
    s.(cut := s.cut + {(name, child)})
  }

  lemma SuffixPath(fs: Functions, cut: Edges, path: seq<Name>, i: nat)
    requires Path(fs, cut, path) && i < |path|
    ensures PathTo(fs, cut, path[i..], path[i], path[|path| - 1])
  {
    var rest := path[i..];
    forall k | 0 < k < |rest| ensures Keeps(fs, cut, rest[k - 1], rest[k]) {
      assert Keeps(fs, cut, path[i + k - 1], path[i + k]);
    }
  }

  /** An edge to an active function closes a cycle through the stack. */
  lemma ActiveCloses(fs: Functions, stack: seq<Name>, s: Search, name: Name, child: Name)
    requires Stacked(fs, stack) && stack != [] && stack[|stack| - 1] == name && child in stack
    requires child in Callees(fs, name)
    requires OnlyCyclesCut(fs, s.cut)
    ensures OnlyCyclesCut(fs, Cut(s, name, child).cut)
  {
    var i :| 0 <= i < |stack| && stack[i] == child;
    SuffixPath(fs, {}, stack, i);
  }

  /** Cutting an edge out of a function that has not finished leaves the finished ones as they are. */
  lemma CutKeepsFinished(fs: Functions, s: Search, name: Name, child: Name)
    requires name !in s.order && Ordered(fs, s.cut, s.order) && Settled(fs, s.cut, s.order, s.subtree, s.next)
    ensures var t := Cut(s, name, child); Ordered(fs, t.cut, t.order) && Settled(fs, t.cut, t.order, t.subtree, t.next)
  {
    var t := Cut(s, name, child);
    forall i | 0 <= i < |t.order| ensures OrderedAt(fs, t.cut, t.order, i) {
      assert OrderedAt(fs, s.cut, s.order, i);
    }
    forall n | n in t.order ensures SettledAt(fs, t.cut, t.subtree, t.next, n) {
      assert SettledAt(fs, s.cut, s.subtree, s.next, n);
    }
  }

  lemma CutKeepsCallers(fs: Functions, root: Name, stack: seq<Name>, s: Search, name: Name, child: Name)
    requires AllCalled(fs, root, stack, s) && Coloured(stack, s) && child in stack
    ensures AllCalled(fs, root, stack, Cut(s, name, child))
  {
    var t := Cut(s, name, child);
    forall n | n in t.order && n != root ensures HasCaller(fs, stack, t, n) {
      assert HasCaller(fs, stack, s, n);
      var p :| (p in stack || p in s.order) && Keeps(fs, s.cut, p, n);
      assert Keeps(fs, t.cut, p, n);
    }
  }

  /** Edges of the active function are cut only when its callee is active. */
  lemma CutMeansActive(fs: Functions, root: Name, stack: seq<Name>, s: Search, name: Name, b: Name)
    requires Inv(fs, root, stack, s) && name in stack
    ensures (name, b) in s.cut ==> b in stack && b !in s.order
    ensures b in s.order ==> (name, b) !in s.cut
  {}

  lemma CutKeepsBest(fs: Functions, root: Name, stack: seq<Name>, s: Search, name: Name, k: nat, best: nat,
                     next: Option<Name>)
    requires Inv(fs, root, stack, s) && Tried(fs, stack, s, name, k, best, next) && k < |Callees(fs, name)|
    requires Callees(fs, name)[k] in stack
    ensures Tried(fs, stack, Cut(s, name, Callees(fs, name)[k]), name, k + 1, best, next)
  {
    hide Ordered, Settled, AllCalled, OnlyCyclesCut, Stacked;
    var calls, child := Callees(fs, name), Callees(fs, name)[k];
    var t := Cut(s, name, child);
    assert calls[..k + 1] == calls[..k] + [child];
    if next.Some? { assert next.value in s.order; }
  }

  lemma CutStep(fs: Functions, root: Name, stack: seq<Name>, s: Search, name: Name, k: nat, best: nat,
                next: Option<Name>)
    requires Inv(fs, root, stack, s) && Tried(fs, stack, s, name, k, best, next) && k < |Callees(fs, name)|
    requires stack != [] && stack[|stack| - 1] == name && Callees(fs, name)[k] in stack
    ensures var t := Cut(s, name, Callees(fs, name)[k]);
            Inv(fs, root, stack, t) && Tried(fs, stack, t, name, k + 1, best, next)
  {
    hide Ordered, Settled, AllCalled, OnlyCyclesCut, Stacked, Tried;
    var child := Callees(fs, name)[k];
    CutKeepsBest(fs, root, stack, s, name, k, best, next);
    ActiveCloses(fs, stack, s, name, child);
    CutKeepsFinished(fs, s, name, child);
    CutKeepsCallers(fs, root, stack, s, name, child);
  }

  /** A visit of a callee leaves the callees tried before it as they were. */
  lemma VisitKeepsBest(fs: Functions, root: Name, stack: seq<Name>, s: Search, t: Search, name: Name, k: nat,
                       best: nat, next: Option<Name>)
    requires Inv(fs, root, stack, s) && Tried(fs, stack, s, name, k, best, next) && Grows(s, t)
    ensures Tried(fs, stack, t, name, k, best, next)
  {
    hide Ordered, Settled, AllCalled, OnlyCyclesCut, Stacked;
    var calls := Callees(fs, name)[..k];
    forall b | b in calls && (name, b) !in t.cut
      ensures b in t.order && b in t.subtree && t.subtree[b] <= best
    {
      assert b in s.order;
      PrefixMember(s.order, t.order, b);
    }
    if next.Some? { assert next.value in s.order; }
  }

  lemma FinishedEntry(fs: Functions, root: Name, stack: seq<Name>, s: Search, n: Name)
    requires Inv(fs, root, stack, s) && n in s.order
    ensures n in s.subtree
  {
    assert SettledAt(fs, s.cut, s.subtree, s.next, n);
  }

  /** A finished callee is compared with the best so far. */
  lemma CompareStep(fs: Functions, root: Name, stack: seq<Name>, s: Search, name: Name, k: nat, best: nat,
                    next: Option<Name>)
    requires Inv(fs, root, stack, s) && Tried(fs, stack, s, name, k, best, next) && k < |Callees(fs, name)|
    requires Callees(fs, name)[k] in s.order
    ensures var child := Callees(fs, name)[k];
            && child in s.subtree
            && if s.subtree[child] > best then Tried(fs, stack, s, name, k + 1, s.subtree[child], Some(child))
               else Tried(fs, stack, s, name, k + 1, best, next)
  {
    hide Inv;
    var calls, child := Callees(fs, name), Callees(fs, name)[k];
    FinishedEntry(fs, root, stack, s, child);
    CutMeansActive(fs, root, stack, s, name, child);
    assert calls[..k + 1] == calls[..k] + [child];
  }

  // ----- Leaving a function

  function Leave(fs: Functions, s: Search, name: Name, best: nat, child: Option<Name>): Search {
    Search(s.cut, s.subtree[name := Frame(fs, name) + best], s.next[name := child],
           s.state[name := DONE], s.order + [name])
  }

  lemma LeaveOrdered(fs: Functions, root: Name, stack: seq<Name>, s: Search, name: Name, best: nat, child: Option<Name>)
    requires Inv(fs, root, stack, s) && Tried(fs, stack, s, name, |Callees(fs, name)|, best, child)
    ensures var t := Leave(fs, s, name, best, child); Ordered(fs, t.cut, t.order)
  {
    hide Settled, AllCalled, OnlyCyclesCut, Stacked;
    var t, calls, n := Leave(fs, s, name, best, child), Callees(fs, name), |s.order|;
    assert calls[..|calls|] == calls;
    forall i | 0 <= i < |t.order| ensures OrderedAt(fs, t.cut, t.order, i) {
      if i < n {
        assert OrderedAt(fs, s.cut, s.order, i);
        assert t.order[..i] == s.order[..i];
      } else {
        assert t.order[..i] == s.order;
        forall b | b in calls ensures (name, b) !in t.cut <==> b in s.order {
          CutMeansActive(fs, root, stack, s, name, b);
        }
      }
    }
  }

  lemma LeaveSettled(fs: Functions, root: Name, stack: seq<Name>, s: Search, name: Name, best: nat, child: Option<Name>)
    requires Inv(fs, root, stack, s) && Tried(fs, stack, s, name, |Callees(fs, name)|, best, child)
    ensures var t := Leave(fs, s, name, best, child); Settled(fs, t.cut, t.order, t.subtree, t.next)
  {
    hide Inv, Ordered;
    var t, calls := Leave(fs, s, name, best, child), Callees(fs, name);
    assert calls[..|calls|] == calls;
    ActiveUnfinished(fs, root, stack, s, name);
    forall n | n in t.order ensures SettledAt(fs, t.cut, t.subtree, t.next, n) {
      if n == name {
        forall b | b in calls && (name, b) !in t.cut ensures b in t.subtree && t.subtree[b] <= best {
          assert b in s.order;
        }
        if child.Some? { assert child.value in s.order; }
      } else {
        SettledStays(fs, s, t, name, n);
      }
    }
  }

  lemma ActiveUnfinished(fs: Functions, root: Name, stack: seq<Name>, s: Search, name: Name)
    requires Inv(fs, root, stack, s) && name in stack
    ensures name !in s.order && Ordered(fs, s.cut, s.order) && Settled(fs, s.cut, s.order, s.subtree, s.next)
  {}

  /** The tables of a finished function do not mention one that has not finished. */
  lemma SettledStays(fs: Functions, s: Search, t: Search, name: Name, n: Name)
    requires Ordered(fs, s.cut, s.order) && SettledAt(fs, s.cut, s.subtree, s.next, n) && n in s.order
    requires name !in s.order
    requires t.cut == s.cut
    requires forall m :: m != name && m in s.subtree ==> m in t.subtree && t.subtree[m] == s.subtree[m]
    requires forall m :: m != name && m in s.next ==> m in t.next && t.next[m] == s.next[m]
    ensures SettledAt(fs, t.cut, t.subtree, t.next, n)
  {
    OrderedIsDownward(fs, s.cut, s.cut, s.order);
    forall b | Keeps(fs, s.cut, n, b) ensures b != name {
      KeptGoesDown(fs, s.cut, s.order, n, b);
    }
    forall b | b in Callees(fs, n) && (n, b) !in t.cut
      ensures b in t.subtree && t.subtree[b] <= t.subtree[n] - Frame(fs, n)
    {
      assert Keeps(fs, s.cut, n, b);
    }
    if s.next[n].Some? { assert Keeps(fs, s.cut, n, s.next[n].value); }
  }

  /** The stack without its last function, and with it. */
  lemma StackShrinks(fs: Functions, stack: seq<Name>, name: Name)
    requires Stacked(fs, stack + [name])
    ensures Stacked(fs, stack) && name !in stack
  {
    var longer := stack + [name];
    assert longer[|stack|] == name;
    forall i | 0 <= i < |stack| ensures stack[i] != name && stack[i] == longer[i] {
      assert longer[i] != longer[|stack|];
    }
    if stack != [] {
      ShortenPath(fs, {}, longer);
      assert longer[..|stack|] == stack;
    }
  }

  lemma LeaveColours(fs: Functions, stack: seq<Name>, s: Search, name: Name, best: nat, child: Option<Name>)
    requires Coloured(stack + [name], s) && name !in stack
    ensures Coloured(stack, Leave(fs, s, name, best, child))
  {}

  lemma LeaveCalled(fs: Functions, root: Name, stack: seq<Name>, s: Search, name: Name, best: nat, child: Option<Name>)
    requires AllCalled(fs, root, stack + [name], s)
    requires if stack == [] then name == root else Keeps(fs, s.cut, stack[|stack| - 1], name)
    ensures AllCalled(fs, root, stack, Leave(fs, s, name, best, child))
  {
    var t := Leave(fs, s, name, best, child);
    forall n | n in t.order && n != root ensures HasCaller(fs, stack, t, n) {
      if n == name {
        assert stack[|stack| - 1] in stack && Keeps(fs, t.cut, stack[|stack| - 1], n);
      } else {
        assert HasCaller(fs, stack + [name], s, n);
        var p :| (p in stack + [name] || p in s.order) && Keeps(fs, s.cut, p, n);
        assert p in stack || p in t.order;
        assert Keeps(fs, t.cut, p, n);
      }
    }
  }

  lemma LeaveCutsUp(fs: Functions, stack: seq<Name>, first: Search, s: Search, name: Name, best: nat,
                    child: Option<Name>)
    requires Coloured(stack, first) && CutsUp(stack, first) && Grows(first, s)
    requires CutsUp(stack + [name], s) && Coloured(stack + [name], s)
    ensures CutsUp(stack, Leave(fs, s, name, best, child))
  {
    var t := Leave(fs, s, name, best, child);
    forall a, b | (a, b) in t.cut ensures (a in stack && b in stack) || (a in t.order && b in t.state) {
      if a in stack {
        assert (a, b) in first.cut;
        if a in first.order { PrefixMember(first.order, s.order, a); }
      }
    }
  }

  /** `first` is where the visit of `name` began. */
  lemma LeaveKeeps(fs: Functions, root: Name, stack: seq<Name>, first: Search, s: Search, name: Name, best: nat,
                   child: Option<Name>)
    requires Inv(fs, root, stack, first) && name !in first.state && Grows(first, s)
    requires Inv(fs, root, stack + [name], s) && Tried(fs, stack + [name], s, name, |Callees(fs, name)|, best, child)
    requires if stack == [] then name == root else name in Callees(fs, stack[|stack| - 1])
    ensures var t := Leave(fs, s, name, best, child); Inv(fs, root, stack, t) && Grows(first, t)
  {
    hide Ordered, Settled, OnlyCyclesCut, Tried, AllCalled, Tabled, Coloured, CutsUp, Stacked, Grows, Keeps;
    LeaveOrdered(fs, root, stack + [name], s, name, best, child);
    LeaveSettled(fs, root, stack + [name], s, name, best, child);
    StackShrinks(fs, stack, name);
    LeaveColours(fs, stack, s, name, best, child);
    LeaveCutsUp(fs, stack, first, s, name, best, child);
    LeaveTables(fs, s, name, best, child);
    OrderInState(stack, first);
    LeaveGrows(fs, first, s, name, best, child);
    if stack != [] { CallerKeeps(fs, root, stack, first, s, name); }
    LeaveCalled(fs, root, stack, s, name, best, child);
  }

  lemma OrderInState(stack: seq<Name>, s: Search)
    requires Coloured(stack, s)
    ensures forall n :: n in s.order ==> n in s.state
  {}

  lemma LeaveTables(fs: Functions, s: Search, name: Name, best: nat, child: Option<Name>)
    requires Tabled(s)
    ensures Tabled(Leave(fs, s, name, best, child))
  {}

  lemma LeaveGrows(fs: Functions, first: Search, s: Search, name: Name, best: nat, child: Option<Name>)
    requires Grows(first, s) && name !in first.state && forall n :: n in first.order ==> n in first.state
    ensures Grows(first, Leave(fs, s, name, best, child))
  {}

  lemma CallerKeeps(fs: Functions, root: Name, stack: seq<Name>, first: Search, s: Search, name: Name)
    requires Inv(fs, root, stack, first) && name !in first.state && Grows(first, s)
    requires stack != [] && name in Callees(fs, stack[|stack| - 1])
    ensures Keeps(fs, s.cut, stack[|stack| - 1], name)
  {
    var last := stack[|stack| - 1];
    assert last in stack && name !in stack && last in first.state;
    CutMeansActive(fs, root, stack, first, last, name);
  }
}
