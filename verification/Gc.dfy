/** Garbage-collector marking: recursive Mark over an arbitrary object graph, moving each marked object
    from the collector's doubly linked chain to a target chain, and ResurrectUnreachable on top of it. */
module Gc {
  import opened Seqs

  // ---------- doubly linked chains ----------

  /** `head` with the link columns `next` and `prev` is a doubly linked list of exactly `l`. */
  ghost predicate Chain(next: seq<int>, prev: seq<int>, head: int, l: seq<nat>) {
    && |next| == |prev| && head == Nth(l, 0) && Distinct(l)
    && (forall i :: 0 <= i < |l| ==> l[i] < |next|)
    && (forall i {:trigger next[l[i]]} :: 0 <= i < |l| ==> next[l[i]] == Nth(l, i + 1))
    && (forall i {:trigger prev[l[i]]} :: 0 <= i < |l| ==> prev[l[i]] == Nth(l, i - 1))
  }

  ghost predicate Apart(l: seq<nat>, m: seq<nat>) {
    forall i, j :: 0 <= i < |l| && 0 <= j < |m| ==> l[i] != m[j]
  }

  /** The link columns and head after RemoveFromChain. */
  function Unlinked(next: seq<int>, prev: seq<int>, head: int, c: nat): (r: (seq<int>, seq<int>, int))
    requires c < |next| == |prev| && -1 <= prev[c] < |next| && -1 <= next[c] < |next|
  {
    var n1 := if prev[c] >= 0 then next[prev[c] := next[c]] else next;
    var h1 := if prev[c] >= 0 then head else next[c];
    var p1 := if n1[c] >= 0 then prev[n1[c] := prev[c]] else prev;
    (n1[c := -1], p1[c := -1], h1)
  }

  /** What unlinking place `k` does to the node at another place `o`. */
  lemma UnlinkAt(next: seq<int>, prev: seq<int>, head: int, l: seq<nat>, k: nat, o: nat)
    requires Chain(next, prev, head, l) && k < |l| && o < |l| && o != k
    ensures var c := l[k];
            && -1 <= prev[c] < |next| && -1 <= next[c] < |next|
            && var (n, p, h) := Unlinked(next, prev, head, c);
            && n[l[o]] == Nth(l, if o == k - 1 then k + 1 else o + 1)
            && p[l[o]] == Nth(l, if o == k + 1 then k - 1 else o - 1)
  {
    assert prev[l[k]] == Nth(l, k - 1) && next[l[k]] == Nth(l, k + 1);
    assert next[l[o]] == Nth(l, o + 1) && prev[l[o]] == Nth(l, o - 1);
    assert l[o] != l[k];
    assert k > 0 && o != k - 1 ==> l[o] != l[k - 1];
    assert k + 1 < |l| && o != k + 1 ==> l[o] != l[k + 1];
  }

  lemma WithoutNth(l: seq<nat>, k: nat)
    requires k < |l|
    ensures forall i :: Nth(Without(l, k), i) == Nth(l, if i < k then i else i + 1)
    ensures Distinct(l) ==> Distinct(Without(l, k))
  {
  }

  lemma UnlinkHead(next: seq<int>, prev: seq<int>, head: int, l: seq<nat>, k: nat)
    requires Chain(next, prev, head, l) && k < |l|
    ensures -1 <= prev[l[k]] < |next| && -1 <= next[l[k]] < |next|
    ensures var (n, p, h) := Unlinked(next, prev, head, l[k]);
            |n| == |p| == |next| && h == Nth(Without(l, k), 0)
    ensures var (n, p, h) := Unlinked(next, prev, head, l[k]);
            forall x :: 0 <= x < |next| && x !in l ==> n[x] == next[x] && p[x] == prev[x]
  {
    assert prev[l[k]] == Nth(l, k - 1) && next[l[k]] == Nth(l, k + 1);
  }

  lemma UnlinkKeeps(next: seq<int>, prev: seq<int>, head: int, l: seq<nat>, k: nat)
    requires Chain(next, prev, head, l) && k < |l|
    ensures var c := l[k];
            && -1 <= prev[c] < |next| && -1 <= next[c] < |next|
            && var (n, p, h) := Unlinked(next, prev, head, c);
            && Chain(n, p, h, Without(l, k)) && |n| == |p| == |next|
            && forall x :: 0 <= x < |next| && x !in l ==> n[x] == next[x] && p[x] == prev[x]
  {
    hide Unlinked, Without, Distinct;
    UnlinkHead(next, prev, head, l, k);
    WithoutNth(l, k);
    var (n, p, h) := Unlinked(next, prev, head, l[k]);
    var r := Without(l, k);
    forall i | 0 <= i < |r| ensures r[i] < |n| && n[r[i]] == Nth(r, i + 1) && p[r[i]] == Nth(r, i - 1) {
      assert r[i] == Nth(r, i) == Nth(l, if i < k then i else i + 1);
      UnlinkAt(next, prev, head, l, k, if i < k then i else i + 1);
    }
  }

  /** The link columns after AddToChain; the new head is `c`. */
  function Pushed(next: seq<int>, prev: seq<int>, head: int, c: nat): (r: (seq<int>, seq<int>))
    requires c < |next| == |prev| && -1 <= head < |next|
  {
    var p1 := prev[c := -1];
    (next[c := head], if head >= 0 then p1[head := c] else p1)
  }

  lemma PushKeeps(next: seq<int>, prev: seq<int>, head: int, l: seq<nat>, c: nat)
    requires Chain(next, prev, head, l) && c < |next| && c !in l
    ensures -1 <= head < |next|
    ensures var (n, p) := Pushed(next, prev, head, c);
            && Chain(n, p, c, [c] + l) && |n| == |p| == |next|
            && forall x :: 0 <= x < |next| && x != c && x !in l ==> n[x] == next[x] && p[x] == prev[x]
  {
    var (n, p) := Pushed(next, prev, head, c);
    var r := [c] + l;
    forall i | 0 <= i < |r| ensures r[i] < |n| && n[r[i]] == Nth(r, i + 1) && p[r[i]] == Nth(r, i - 1) {
      if i > 0 {
        assert r[i] == l[i - 1];
        assert next[l[i - 1]] == Nth(l, i) && prev[l[i - 1]] == Nth(l, i - 2);
      }
    }
  }

  lemma NoChain(next: seq<int>, prev: seq<int>)
    requires |next| == |prev|
    ensures Chain(next, prev, -1, [])
  {
  }

  /** A chain whose members' links are untouched is still that chain. */
  lemma ChainFrame(next: seq<int>, prev: seq<int>, n: seq<int>, p: seq<int>, head: int, l: seq<nat>)
    requires Chain(next, prev, head, l) && |n| == |p| >= |next|
    requires forall i :: 0 <= i < |l| ==> n[l[i]] == next[l[i]] && p[l[i]] == prev[l[i]]
    ensures Chain(n, p, head, l)
  {
  }

  lemma ChainDistinct(next: seq<int>, prev: seq<int>, head: int, l: seq<nat>)
    requires Chain(next, prev, head, l)
    ensures Distinct(l) && forall i :: 0 <= i < |l| ==> l[i] < |next|
  {
  }

  /** Hanging a second chain onto the end of a first. */
  lemma JoinKeeps(next: seq<int>, prev: seq<int>, head: int, l: seq<nat>, head': int, m: seq<nat>)
    requires Chain(next, prev, head, l) && Chain(next, prev, head', m) && Apart(l, m) && l != [] && m != []
    ensures var last := l[|l| - 1]; Chain(next[last := head'], prev[head' := last], head, l + m)
  {
    var last, r := l[|l| - 1], l + m;
    var n, p := next[last := head'], prev[head' := last];
    assert Distinct(r) by { JoinDistinct(l, m); }
    forall i | 0 <= i < |r| ensures n[r[i]] == Nth(r, i + 1) && p[r[i]] == Nth(r, i - 1) {
      JoinAt(next, prev, head, l, head', m, i);
    }
  }

  lemma JoinDistinct(l: seq<nat>, m: seq<nat>)
    requires Distinct(l) && Distinct(m) && Apart(l, m)
    ensures Distinct(l + m)
  {
  }

  lemma JoinAt(next: seq<int>, prev: seq<int>, head: int, l: seq<nat>, head': int, m: seq<nat>, i: nat)
    requires Chain(next, prev, head, l) && Chain(next, prev, head', m) && Apart(l, m) && l != [] && m != []
    requires i < |l + m|
    ensures var last, x := l[|l| - 1], (l + m)[i];
            && next[last := head'][x] == Nth(l + m, i + 1)
            && prev[head' := last][x] == Nth(l + m, i - 1)
  {
    var last, x := l[|l| - 1], (l + m)[i];
    assert head' == m[0];
    if i < |l| {
      assert x == l[i] && next[l[i]] == Nth(l, i + 1) && prev[l[i]] == Nth(l, i - 1);
      assert l[i] != m[0];
    } else {
      var j := i - |l|;
      assert x == m[j] && next[m[j]] == Nth(m, j + 1) && prev[m[j]] == Nth(m, j - 1);
      assert m[j] != l[|l| - 1];
      assert j > 0 ==> m[j] != m[0];
    }
  }

  // ---------- reachability ----------

  type Graph = seq<seq<nat>>

  ghost predicate Closed(kids: Graph) {
    forall a, i :: 0 <= a < |kids| && 0 <= i < |kids[a]| ==> kids[a][i] < |kids|
  }

  /** `b` is `k` edges away from `a` along some path. */
  ghost predicate ReachIn(kids: Graph, a: nat, b: nat, k: nat)
    requires Closed(kids) && a < |kids|
    decreases k
  {
    if k == 0 then a == b
    else exists i :: 0 <= i < |kids[a]| && ReachIn(kids, kids[a][i], b, k - 1)
  }

  ghost predicate Reach(kids: Graph, a: nat, b: nat)
    requires Closed(kids) && a < |kids|
  {
    exists k: nat :: ReachIn(kids, a, b, k)
  }

  lemma ReachSelf(kids: Graph, a: nat)
    requires Closed(kids) && a < |kids|
    ensures Reach(kids, a, a)
  {
    assert ReachIn(kids, a, a, 0);
  }

  lemma ReachVia(kids: Graph, a: nat, i: nat, b: nat)
    requires Closed(kids) && a < |kids| && i < |kids[a]| && Reach(kids, kids[a][i], b)
    ensures Reach(kids, a, b)
  {
    var k: nat :| ReachIn(kids, kids[a][i], b, k);
    assert ReachIn(kids, a, b, k + 1);
  }

  /** A set closed under the edges holds everything reachable from its members. */
  lemma {:induction false} ClosedHolds(kids: Graph, m: set<nat>, a: nat, b: nat, k: nat)
    requires Closed(kids) && a < |kids| && a in m && ReachIn(kids, a, b, k)
    requires forall o, i :: o in m && o < |kids| && 0 <= i < |kids[o]| ==> kids[o][i] in m
    ensures b in m
    decreases k
  {
    if k > 0 {
      var i :| 0 <= i < |kids[a]| && ReachIn(kids, kids[a][i], b, k - 1);
      ClosedHolds(kids, m, kids[a][i], b, k - 1);
    }
  }

  ghost predicate Reachable(kids: Graph, roots: seq<nat>, b: nat)
    requires Closed(kids)
  {
    exists i :: 0 <= i < |roots| && roots[i] < |kids| && Reach(kids, roots[i], b)
  }

  // ---------- the collector ----------

  /** GetType, as far as ResurrectUnreachable looks at it. */
  datatype Kind = FuncProto | Outer | Other

  /** The objects ResurrectUnreachable reports, in chain order. */
  function Listed(kind: seq<Kind>, l: seq<nat>): (r: seq<nat>)
    requires forall i :: 0 <= i < |l| ==> l[i] < |kind|
  {
    if l == [] then []
    else
      var t := l[|l| - 1];
      Listed(kind, l[..|l| - 1]) + (if kind[t] != FuncProto && kind[t] != Outer then [t] else [])
  }

  lemma {:induction false} ListedMembers(kind: seq<Kind>, l: seq<nat>)
    requires forall i :: 0 <= i < |l| ==> l[i] < |kind|
    ensures forall x :: x in Listed(kind, l) <==> x in l && kind[x].Other?
    ensures Distinct(l) ==> Distinct(Listed(kind, l))
  {
    if l != [] {
      ListedMembers(kind, l[..|l| - 1]);
    }
  }

  lemma {:induction false} ListedPrefix(kind: seq<Kind>, kind': seq<Kind>, l: seq<nat>)
    requires kind <= kind' && forall i :: 0 <= i < |l| ==> l[i] < |kind|
    ensures Listed(kind, l) == Listed(kind', l)
  {
    if l != [] {
      ListedPrefix(kind, kind', l[..|l| - 1]);
    }
  }

  ghost function Unreachable(kids: Graph, roots: seq<nat>): (s: set<nat>)
    requires Closed(kids)
  {
    set x | 0 <= x < |kids| && !Reachable(kids, roots, x)
  }

  lemma JoinMembers(dead: seq<nat>, live: seq<nat>, id: nat)
    requires Distinct(dead) && Distinct(live) && Apart(dead, live)
    requires forall x :: x in dead || x in live <==> 0 <= x < id
    ensures Distinct(dead + ([id] + live))
    ensures forall x :: x in dead + ([id] + live) <==> 0 <= x <= id
  {
    assert Apart([id], live) by {
      forall j | 0 <= j < |live| ensures live[j] != id { assert live[j] in live; }
    }
    JoinDistinct([id], live);
    assert Apart(dead, [id] + live) by {
      forall i | 0 <= i < |dead| ensures dead[i] != id { assert dead[i] in dead; }
    }
    JoinDistinct(dead, [id] + live);
    forall x ensures x in dead + ([id] + live) <==> 0 <= x <= id {
      assert x in dead + ([id] + live) <==> x in dead || x == id || x in live;
    }
  }

  lemma ClosedAppend(kids: Graph, more: seq<nat>)
    requires Closed(kids) && forall x :: x in more ==> x < |kids|
    ensures Closed(kids + [more])
  {
    var r := kids + [more];
    forall a, i | 0 <= a < |r| && 0 <= i < |r[a]| ensures r[a][i] < |r| {
      if a == |kids| { assert r[a][i] in more; } else { assert r[a] == kids[a]; }
    }
  }

  class SharedState {
    /** What each object's Mark function visits, in order; objects are numbered. */
    var kids: Graph
    var kind: seq<Kind>
    /** MARK_FLAG, _gc_next and _gc_prev of every object. */
    var marked: seq<bool>
    var next: seq<int>
    var prev: seq<int>
    var gcChain: int
    var tchain: int

    /** The objects on the two chains, in order. */
    ghost var gc: seq<nat>
    ghost var target: seq<nat>

    ghost predicate Linked()
      reads this
    {
      && |kids| == |kind| == |marked| == |next| == |prev|
      && Closed(kids)
      && Chain(next, prev, gcChain, gc)
      && Chain(next, prev, tchain, target)
    }

    /** `grey` objects are flagged but their Mark call has not returned: they are still on the gc chain.
        Finished objects are on the target chain and all they lead to is flagged. */
    ghost predicate Sorted(grey: set<nat>)
      requires |kids| == |marked|
      reads this
    {
      && (forall x :: x in target <==> 0 <= x < |kids| && marked[x] && x !in grey)
      && (forall x :: x in gc <==> 0 <= x < |kids| && (!marked[x] || x in grey))
      && (forall x :: x in grey ==> x < |kids| && marked[x])
      && (forall o, i :: o in target && o < |kids| && 0 <= i < |kids[o]| ==> Flagged(marked, kids[o][i]))
    }

    ghost function Unmarked(): (s: set<nat>)
      reads this
    {
      set x | 0 <= x < |marked| && !marked[x]
    }

    /** END_MARK: RemoveFromChain from the gc chain, AddToChain to the target chain. */
    method MoveToTarget(c: nat, ghost grey: set<nat>)
      requires Linked() && Sorted(grey + {c}) && c < |kids| && c !in grey
      requires forall i :: 0 <= i < |kids[c]| ==> Flagged(marked, kids[c][i])
      modifies `next, `prev, `gcChain, `tchain, `gc, `target
      ensures Linked() && Sorted(grey)
    {
      hide Distinct, Closed, Nth, Without, Chain;
      ghost var k :| 0 <= k < |gc| && gc[k] == c;
      ChainDistinct(next, prev, gcChain, gc);
      WithoutMembers(gc, k);
      TakeOff(c, k);
      PutOn(c);
    }

    method TakeOff(c: nat, ghost k: nat)
      requires Linked() && k < |gc| && gc[k] == c && forall x :: x in target ==> x !in gc
      modifies `next, `prev, `gcChain, `gc
      ensures Linked() && gc == Without(old(gc), k) && c < |next|
    {
      hide Distinct, Closed, Nth, Unlinked, Without;
      UnlinkKeeps(next, prev, gcChain, gc, k);
      ghost var n1, p1 := next, prev;
      RemoveFromChain(c);
      ChainFrame(n1, p1, next, prev, tchain, target);
      gc := Without(gc, k);
    }

    method PutOn(c: nat)
      requires Linked() && c < |next| && c !in gc && c !in target && forall x :: x in gc ==> x !in target
      modifies `next, `prev, `tchain, `target
      ensures Linked() && target == [c] + old(target)
    {
      hide Distinct, Closed, Nth, Pushed;
      PushKeeps(next, prev, tchain, target, c);
      ghost var n2, p2 := next, prev;
      AddToTarget(c);
      ChainFrame(n2, p2, next, prev, gcChain, gc);
      target := [c] + target;
    }

    method RemoveFromChain(c: nat)
      requires c < |next| == |prev| && -1 <= prev[c] < |next| && -1 <= next[c] < |next|
      modifies `next, `prev, `gcChain
      ensures (next, prev, gcChain) == old(Unlinked(next, prev, gcChain, c))
    {
      if prev[c] >= 0 {
        next := next[prev[c] := next[c]];
      } else {
        gcChain := next[c];
      }
      if next[c] >= 0 {
        prev := prev[next[c] := prev[c]];
      }
      next := next[c := -1];
      prev := prev[c := -1];
    }

    method AddToTarget(c: nat)
      requires c < |next| == |prev| && -1 <= tchain < |next|
      modifies `next, `prev, `tchain
      ensures (next, prev) == old(Pushed(next, prev, tchain, c)) && tchain == c
    {
      prev := prev[c := -1];
      next := next[c := tchain];
      if tchain >= 0 {
        prev := prev[tchain := c];
      }
      tchain := c;
    }

    /** Mark: flag, visit the children, then change chains.  Cycles end at the flag. */
    method Mark(c: nat, ghost grey: set<nat>)
      requires Linked() && Sorted(grey) && c < |kids|
      modifies `marked, `next, `prev, `gcChain, `tchain, `gc, `target
      ensures Linked() && Sorted(grey) && marked[c]
      ensures |marked| == old(|marked|)
      ensures forall x :: 0 <= x < |marked| && old(marked[x]) ==> marked[x]
      ensures forall x :: 0 <= x < |marked| && marked[x] && !old(marked[x]) ==> Reach(kids, c, x)
      decreases Unmarked()
    {
      hide Chain, Reach, ReachIn;
      if !marked[c] {
        ghost var was := marked;
        marked := marked[c := true];
        ReachSelf(kids, c);
        var i := 0;
        while i < |kids[c]|
          invariant 0 <= i <= |kids[c]| && Linked() && Sorted(grey + {c}) && |marked| == |was|
          invariant forall j :: 0 <= j < i ==> Flagged(marked, kids[c][j])
          invariant forall x :: 0 <= x < |marked| && was[x] ==> marked[x]
          invariant marked[c]
          invariant forall x :: 0 <= x < |marked| && marked[x] && !was[x] ==> Reach(kids, c, x)
        {
          ghost var before := marked;
          assert kids[c][i] < |kids|;
          assert c in old(Unmarked()) && c !in Unmarked();
          Mark(kids[c][i], grey + {c});
          forall x | 0 <= x < |marked| && marked[x] && !was[x] ensures Reach(kids, c, x) {
            if !before[x] {
              ReachVia(kids, c, i, x);
            }
          }
          i := i + 1;
        }
        MoveToTarget(c, grey);
      }
    }

    /** RunMark from the given roots: exactly the reachable objects are flagged and on the target chain,
        exactly the others are left on the gc chain, and both chains are well formed. */
    method RunMark(roots: seq<nat>)
      requires Linked() && Sorted({}) && target == []
      requires forall i :: 0 <= i < |roots| ==> roots[i] < |kids|
      modifies `marked, `next, `prev, `gcChain, `tchain, `gc, `target
      ensures Linked() && Sorted({})
      ensures forall x :: 0 <= x < |kids| ==> (marked[x] <==> Reachable(kids, roots, x))
    {
      hide Chain, Reach, ReachIn, Closed;
      var i := 0;
      while i < |roots|
        invariant 0 <= i <= |roots| && Linked() && Sorted({}) && |marked| == |kids|
        invariant forall j :: 0 <= j < i ==> Flagged(marked, roots[j])
        invariant forall x :: 0 <= x < |marked| && marked[x] ==> Reachable(kids, roots, x)
      {
        ghost var before := marked;
        Mark(roots[i], {});
        forall x | 0 <= x < |marked| && marked[x] ensures Reachable(kids, roots, x) {
          if !before[x] {
            assert Reach(kids, roots[i], x);
          }
        }
        i := i + 1;
      }
      forall x | 0 <= x < |kids| && Reachable(kids, roots, x) ensures marked[x] {
        ReachableIsMarked(roots, x);
      }
    }

    /** SQArray::Create: a new object, unmarked, at the head of the gc chain. */
    method CreateArray() returns (id: nat)
      requires |kids| == |kind| == |marked| == |next| == |prev| && -1 <= gcChain < |next|
      modifies `kids, `kind, `marked, `next, `prev, `gcChain
      ensures id == old(|kids|) && gcChain == id
      ensures kids == old(kids) + [[]] && kind == old(kind) + [Other] && marked == old(marked) + [false]
      ensures (next, prev) == Pushed(old(next) + [-1], old(prev) + [-1], old(gcChain), id)
    {
      id := |kids|;
      kids, kind, marked := kids + [[]], kind + [Other], marked + [false];
      next, prev := next + [-1], prev + [-1];
      prev := prev[id := -1];
      next := next[id := gcChain];
      if gcChain >= 0 {
        prev := prev[gcChain := id];
      }
      gcChain := id;
    }

    /** The walk over the unreachable objects (lines 327 to 339). */
    method ListChain(head: nat, ghost l: seq<nat>) returns (listed: seq<nat>, last: nat, n: nat)
      requires Chain(next, prev, head, l) && |kind| == |next|
      ensures listed == Listed(kind, l) && n == |l| && l != [] && last == l[|l| - 1]
    {
      listed, last, n := [], head, 0;
      var t: int := head;
      while t >= 0
        invariant 0 <= n <= |l| && t == Nth(l, n) && last == l[if n == 0 then 0 else n - 1]
        invariant listed == Listed(kind, l[..n])
        decreases |l| - n
      {
        last := t;
        if kind[t] != FuncProto && kind[t] != Outer {
          listed := listed + [t];
        }
        assert l[..n + 1][..n] == l[..n];
        assert next[l[n]] == Nth(l, n + 1);
        t := next[t];
        n := n + 1;
      }
      assert l[..n] == l;
    }

    /** The unmarking walk (lines 350 to 354). */
    method UnmarkChain()
      requires Chain(next, prev, gcChain, gc) && |marked| == |next|
      modifies `marked
      ensures |marked| == old(|marked|) && (forall x :: 0 <= x < |marked| ==> marked[x] == (old(marked[x]) && x !in gc))
    {
      var t := gcChain;
      ghost var n := 0;
      while t >= 0
        invariant 0 <= n <= |gc| && t == Nth(gc, n) && |marked| == old(|marked|)
        invariant forall x :: 0 <= x < |marked| ==> marked[x] == (old(marked[x]) && x !in gc[..n])
        decreases |gc| - n
      {
        marked := marked[t := false];
        assert gc[..n + 1] == gc[..n] + [gc[n]];
        assert next[gc[n]] == Nth(gc, n + 1);
        t := next[t];
        n := n + 1;
      }
      assert gc[..n] == gc;
    }

    /** Between collections: one chain of all objects, nothing flagged. */
    ghost predicate Resting()
      reads this
    {
      && Linked() && target == [] && Distinct(gc)
      && (forall x :: x in gc <==> 0 <= x < |kids|)
      && (forall x :: 0 <= x < |marked| ==> !marked[x])
    }

    /** ResurrectUnreachable: everything is back on one unmarked chain, and the new array lists exactly the
        unreachable objects other than prototypes and outers, each once. */
    method ResurrectUnreachable(roots: seq<nat>) returns (n: nat, ret: int)
      requires Resting() && forall i :: 0 <= i < |roots| ==> roots[i] < |kids|
      modifies this
      ensures Resting()
      ensures n == |Unreachable(old(kids), roots)|
      ensures n == 0 ==> ret == -1 && kids == old(kids) && kind == old(kind)
      ensures n > 0 ==>
                ret == old(|kids|) && |kids| == ret + 1 && kids[..ret] == old(kids) && kind == old(kind) + [Other]
      ensures n > 0 ==> Distinct(kids[ret]) && forall x ::
                x in kids[ret] <==> 0 <= x < ret && !Reachable(old(kids), roots, x) && old(kind)[x].Other?
    {
      hide Chain, Reachable, Closed, Distinct, Unreachable, Listed, Nth, Apart;
      RunMark(roots);
      ghost var k0, dead, live := kids, gc, target;
      SplitUp();
      CountUnreachable(roots);
      var resurrected := gcChain;
      gcChain, tchain := tchain, -1;
      gc, target := live, [];
      n, ret := 0, -1;
      if resurrected >= 0 {
        n, ret := Rejoin(resurrected, dead, live);
        gc := dead + ([ret] + live);
        ListedMembers(old(kind), dead);
        assert kids[ret] == Listed(old(kind), dead);
        JoinMembers(dead, live, ret);
        ClosedAppend(k0, Listed(old(kind), dead));
      }
      UnmarkChain();
      assert Chain(next, prev, -1, []) by { NoChain(next, prev); }
    }

    lemma CountUnreachable(roots: seq<nat>)
      requires Linked() && Sorted({}) && forall x :: 0 <= x < |kids| ==> (marked[x] <==> Reachable(kids, roots, x))
      ensures |gc| == |Unreachable(kids, roots)|
    {
      DistinctCount(gc, Unreachable(kids, roots));
    }

    /** What RunMark leaves: two disjoint chains that hold every object. */
    lemma SplitUp()
      requires Linked() && Sorted({})
      ensures Apart(gc, target) && Distinct(gc) && Distinct(target)
      ensures gcChain >= 0 <==> gc != []
      ensures gcChain == Nth(gc, 0) && forall i :: 0 <= i < |gc| ==> gc[i] < |kind|
    {
      forall i, j | 0 <= i < |gc| && 0 <= j < |target| ensures gc[i] != target[j] {
        assert gc[i] in gc && target[j] in target;
      }
    }

    /** Lines 325 to 347: list the chain `dead` in a new array and put it in front of the live chain. */
    method Rejoin(head: nat, ghost dead: seq<nat>, ghost live: seq<nat>) returns (n: nat, id: nat)
      requires |kids| == |kind| == |marked| == |next| == |prev|
      requires Chain(next, prev, head, dead) && Chain(next, prev, gcChain, live) && Apart(dead, live)
      modifies `kids, `kind, `marked, `next, `prev, `gcChain
      ensures id == old(|kids|) && n == |dead| > 0 && (forall i :: 0 <= i < |dead| ==> dead[i] < id)
      ensures kids == old(kids) + [Listed(old(kind), dead)] && kind == old(kind) + [Other]
      ensures marked == old(marked) + [false] && |kids| == |next| == |prev|
      ensures Chain(next, prev, gcChain, dead + ([id] + live))
    {
      hide Distinct, Listed, Pushed;
      ghost var n0, p0 := next + [-1], prev + [-1];
      ChainFrame(next, prev, n0, p0, head, dead);
      ChainFrame(next, prev, n0, p0, gcChain, live);
      PushKeeps(n0, p0, gcChain, live, |kids|);
      id := CreateArray();
      ChainFrame(n0, p0, next, prev, head, dead);
      JoinKeeps(next, prev, head, dead, gcChain, [id] + live);
      var listed, last;
      listed, last, n := ListChain(head, dead);
      ListedPrefix(old(kind), kind, dead);
      next := next[last := gcChain];
      if gcChain >= 0 {
        prev := prev[gcChain := last];
      }
      gcChain := head;
      kids := kids[id := listed];
    }

    lemma ReachableIsMarked(roots: seq<nat>, x: nat)
      requires Linked() && Sorted({}) && x < |kids| && Reachable(kids, roots, x)
      requires forall j :: 0 <= j < |roots| ==> roots[j] < |kids| && Flagged(marked, roots[j])
      ensures marked[x]
    {
      var i :| 0 <= i < |roots| && roots[i] < |kids| && Reach(kids, roots[i], x);
      var k: nat :| ReachIn(kids, roots[i], x, k);
      ClosedHolds(kids, (set o | o in target), roots[i], x, k);
    }
  }

  ghost predicate Flagged(marked: seq<bool>, x: nat) {
    x < |marked| && marked[x]
  }
}
