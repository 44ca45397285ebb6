/** array.sort: the in-place heapsort of sqbaselib.cpp, whose heap starts at index 0: 0 is the parent of 1
    (and its own child), every r >= 1 the parent of 2r and 2r+1. */
module HeapSort {
  import opened Objects

  /** What a call of a script comparator does: it answers or fails, and it may have written into the array, resized it
      or moved its buffer. */
  datatype Reply<T> = Reply(answer: Option<int>, values: seq<T>, moved: bool)

  /** A script comparator, given when it is asked, the array's contents, and the two elements. */
  type Comparator<!T> = (nat, seq<T>, T, T) -> Reply<T>

  ghost predicate Preorder<T(!new)>(c: (T, T) -> int) {
    && (forall x, y :: c(x, y) < 0 <==> c(y, x) > 0)
    && (forall x, y, z :: c(x, y) <= 0 && c(y, z) <= 0 ==> c(x, z) <= 0)
  }

  /** `cmp` always answers as the total preorder `c` does, and leaves the array alone. */
  ghost predicate Consistent<T(!new)>(cmp: Comparator<T>, c: (T, T) -> int) {
    && (forall t: nat, s, x, y :: cmp(t, s, x, y) == Reply(Some(c(x, y)), s, false))
    && Preorder(c)
  }

  ghost predicate Sorted<T(!new)>(s: seq<T>, c: (T, T) -> int) {
    forall i, j :: 0 <= i < j < |s| ==> c(s[i], s[j]) <= 0
  }

  /** Every element up to `bottom` whose parent is `k` or later is dominated by its parent. */
  ghost predicate Heap<T(!new)>(s: seq<T>, c: (T, T) -> int, k: int, bottom: int)
    requires bottom < |s|
  {
    forall j {:trigger s[j]} :: 1 <= j <= bottom && j / 2 >= k ==> c(s[j], s[j / 2]) <= 0
  }

  /** A heap except that the element at `r` may be too small: its children are in order with its parent. */
  ghost predicate HeapBut<T(!new)>(s: seq<T>, c: (T, T) -> int, k: int, bottom: int, r: nat)
    requires bottom < |s|
  {
    && (forall j {:trigger s[j]} :: 1 <= j <= bottom && j / 2 >= k && j / 2 != r ==> c(s[j], s[j / 2]) <= 0)
    && (r >= 1 && r / 2 >= k && r < |s| ==>
          forall j {:trigger s[j]} :: 1 <= j <= bottom && j / 2 == r ==> c(s[j], s[r / 2]) <= 0)
  }

  /** The child the loop picks. */
  ghost function MaxChild<T(!new)>(s: seq<T>, c: (T, T) -> int, bottom: int, r: nat): (m: nat)
    requires 2 * r <= bottom < |s|
    ensures 2 * r <= m <= bottom
  {
    if 2 * r == bottom then 2 * r else if c(s[2 * r], s[2 * r + 1]) > 0 then 2 * r else 2 * r + 1
  }

  function Swapped<T>(s: seq<T>, i: nat, j: nat): (r: seq<T>)
    requires i < |s| && j < |s|
    ensures |r| == |s|
  {
    s[i := s[j]][j := s[i]]
  }

  lemma MaxChildDominates<T(!new)>(s: seq<T>, c: (T, T) -> int, bottom: int, r: nat, j: nat)
    requires Preorder(c) && 2 * r <= bottom < |s| && 1 <= j <= bottom && j / 2 == r
    ensures c(s[j], s[MaxChild(s, c, bottom, r)]) <= 0
  {
  }

  lemma StepSwapsAt<T(!new)>(s: seq<T>, c: (T, T) -> int, k: nat, bottom: int, r: nat, j: nat)
    requires Preorder(c) && k <= r && 2 * r <= bottom < |s| && 1 <= j <= bottom && j / 2 >= k
    requires var m := MaxChild(s, c, bottom, r);
             m != r && c(s[r], s[m]) < 0 && j / 2 != m && (r >= 1 && r / 2 >= k ==> c(s[m], s[r / 2]) <= 0)
    requires j / 2 != r ==> c(s[j], s[j / 2]) <= 0
    ensures var s' := Swapped(s, r, MaxChild(s, c, bottom, r)); c(s'[j], s'[j / 2]) <= 0
  {
    var m := MaxChild(s, c, bottom, r);
    if j / 2 == r {
      MaxChildDominates(s, c, bottom, r, j);
    }
  }

  lemma StepSwaps<T(!new)>(s: seq<T>, c: (T, T) -> int, k: nat, bottom: int, r: nat)
    requires Preorder(c) && k <= r && 2 * r <= bottom < |s| && HeapBut(s, c, k, bottom, r)
    requires c(s[r], s[MaxChild(s, c, bottom, r)]) < 0
    ensures var m := MaxChild(s, c, bottom, r); m != r && HeapBut(Swapped(s, r, m), c, k, bottom, m)
  {
    var m := MaxChild(s, c, bottom, r);
    assert m != r;
    var s' := Swapped(s, r, m);
    forall j | 1 <= j <= bottom && j / 2 >= k && j / 2 != m ensures c(s'[j], s'[j / 2]) <= 0 {
      StepSwapsAt(s, c, k, bottom, r, j);
    }
    forall j | 1 <= j <= bottom && j / 2 == m ensures c(s'[j], s'[m / 2]) <= 0 {
      assert c(s[j], s[j / 2]) <= 0;
    }
  }

  lemma StepStops<T(!new)>(s: seq<T>, c: (T, T) -> int, k: nat, bottom: int, r: nat)
    requires Preorder(c) && 2 * r <= bottom < |s| && HeapBut(s, c, k, bottom, r)
    requires c(s[r], s[MaxChild(s, c, bottom, r)]) >= 0
    ensures Heap(s, c, k, bottom)
  {
    forall j | 1 <= j <= bottom && j / 2 >= k ensures c(s[j], s[j / 2]) <= 0 {
      if j / 2 == r {
        MaxChildDominates(s, c, bottom, r, j);
      }
    }
  }

  /** The root of a heap dominates all of it. */
  lemma {:induction false} RootIsMax<T(!new)>(s: seq<T>, c: (T, T) -> int, bottom: int, j: nat)
    requires Preorder(c) && j <= bottom < |s| && Heap(s, c, 0, bottom)
    ensures c(s[j], s[0]) <= 0
  {
    if j > 0 {
      RootIsMax(s, c, bottom, j / 2);
    }
  }

  // ---------- what the comparator did ----------

  /** One call: the contents before it, the elements compared, the contents after it. */
  datatype Asked<T> = Asked(before: seq<T>, i: nat, j: nat, after: seq<T>)

  ghost predicate Perm<T(!new)>(s: seq<T>, t: seq<T>) {
    multiset(s) == multiset(t)
  }

  /** The log is one of calls of `cmp`, in order. */
  ghost predicate Recorded<T(!new)>(cmp: Comparator<T>, log: seq<Asked<T>>) {
    forall k :: 0 <= k < |log| ==> RecordedAt(cmp, k, log[k])
  }

  ghost predicate RecordedAt<T(!new)>(cmp: Comparator<T>, k: nat, e: Asked<T>) {
    e.i < |e.before| && e.j < |e.before| && e.after == cmp(k, e.before, e.before[e.i], e.before[e.j]).values
  }

  /** Call `k` raises an error or makes sort raise one: no answer, an array resized or moved, or an element said to be
      smaller than itself. */
  ghost predicate Fails<T(!new)>(cmp: Comparator<T>, k: nat, e: Asked<T>)
    requires RecordedAt(cmp, k, e)
  {
    var r := cmp(k, e.before, e.before[e.i], e.before[e.j]);
    r.answer.None? || r.moved || |e.after| != |e.before| || (e.i == e.j && r.answer.value < 0)
  }

  ghost predicate AllFine<T(!new)>(cmp: Comparator<T>, log: seq<Asked<T>>) {
    forall k :: 0 <= k < |log| ==> RecordedAt(cmp, k, log[k]) && !Fails(cmp, k, log[k])
  }

  lemma AllFineMore<T(!new)>(cmp: Comparator<T>, log: seq<Asked<T>>, e: Asked<T>)
    requires RecordedAt(cmp, |log|, e)
    ensures AllFine(cmp, log + [e]) <==> AllFine(cmp, log) && !Fails(cmp, |log|, e)
  {
    hide Fails, RecordedAt;
    var more := log + [e];
    assert more[|log|] == e;
    forall k | 0 <= k < |log| ensures more[k] == log[k] {}
  }

  /** Between the calls the array is only permuted. */
  ghost predicate Chained<T(!new)>(start: seq<T>, log: seq<Asked<T>>, now: seq<T>)
    decreases |log|
  {
    if log == [] then Perm(start, now)
    else Perm(log[|log| - 1].after, now) && Chained(start, log[..|log| - 1], log[|log| - 1].before)
  }

  lemma ChainedPermuted<T(!new)>(start: seq<T>, log: seq<Asked<T>>, now: seq<T>, next: seq<T>)
    requires Chained(start, log, now) && Perm(now, next)
    ensures Chained(start, log, next)
  {
  }

  lemma ChainedCall<T(!new)>(cmp: Comparator<T>, start: seq<T>, log: seq<Asked<T>>, now: seq<T>, e: Asked<T>)
    requires Chained(start, log, now) && Recorded(cmp, log) && e.before == now && RecordedAt(cmp, |log|, e)
    ensures Chained(start, log + [e], e.after) && Recorded(cmp, log + [e])
  {
    assert (log + [e])[..|log|] == log;
  }

  /** The array holds a permutation of its original contents, before and after every call and at the end, exactly when
      no call changed what it holds. */
  lemma {:induction false} PermutedExactly<T(!new)>(start: seq<T>, log: seq<Asked<T>>, now: seq<T>)
    requires Chained(start, log, now)
    ensures (forall e :: e in log ==> Perm(e.before, e.after)) <==>
            (Perm(start, now) && forall e :: e in log ==> Perm(start, e.before) && Perm(start, e.after))
    decreases |log|
  {
    if log != [] {
      var front, last := log[..|log| - 1], log[|log| - 1];
      PermutedExactly(start, front, last.before);
      assert log == front + [last];
    }
  }

  class Sorter<T(!new)> {
    const cmp: Comparator<T>
    /** The array's vector. */
    var values: seq<T>
    var calls: nat
    ghost const start: seq<T>
    ghost var log: seq<Asked<T>>

    ghost predicate Valid()
      reads this
    {
      calls == |log| && Recorded(cmp, log) && Chained(start, log, values)
    }

    constructor (values: seq<T>, cmp: Comparator<T>)
      ensures Valid() && this.values == values == start && this.cmp == cmp && log == []
    {
      this.values, this.cmp, calls := values, cmp, 0;
      start, log := values, [];
    }

    /** _sort_compare with a script function: a failed call and a resized array are errors. */
    method Compare(i: nat, j: nat) returns (ok: bool, ret: int)
      requires Valid() && i < |values| && j < |values|
      modifies `values, `calls, `log
      ensures Valid() && log == old(log) + [Asked(old(values), i, j, values)]
      ensures var r := cmp(old(calls), old(values), old(values)[i], old(values)[j]);
              && values == r.values
              && ok == (r.answer.Some? && |values| == |old(values)| && !r.moved)
              && (ok ==> ret == r.answer.value)
      ensures AllFine(cmp, log) <==> old(AllFine(cmp, log)) && ok && !(i == j && ret < 0)
    {
      hide Chained, Recorded, AllFine;
      var r := cmp(calls, values, values[i], values[j]);
      ghost var e := Asked(values, i, j, r.values);
      ChainedCall(cmp, start, log, values, e);
      AllFineMore(cmp, log, e);
      ok := r.answer.Some? && |r.values| == |values| && !r.moved;
      ret := if r.answer.Some? then r.answer.value else 0;
      values, calls := r.values, calls + 1;
      log := log + [e];
    }

    method Swap(i: nat, j: nat)
      requires Valid() && i < |values| && j < |values|
      modifies `values
      ensures Valid() && values == Swapped(old(values), i, j) && Perm(old(values), values)
    {
      hide Chained, Recorded;
      SwapPermutes(values, i, j);
      ChainedPermuted(start, log, values, Swapped(values, i, j));
      values := values[i := values[j]][j := values[i]];
    }

    /** One round of comparisons of the sift loop: the chosen child, and whether it is larger than its parent. */
    method PickChild(root: nat, bottom: int, ghost c: (T, T) -> int) returns (ok: bool, maxChild: nat, larger: bool)
      requires Valid() && 2 * root <= bottom < |values|
      modifies `values, `calls, `log
      ensures Valid() && (ok ==> |values| == |old(values)|) && 2 * root <= maxChild <= bottom
      ensures calls > old(calls)
      ensures AllFine(cmp, log) <==> old(AllFine(cmp, log)) && ok && !(root == maxChild && larger)
      ensures Consistent(cmp, c) ==>
                && ok && values == old(values) && maxChild == MaxChild(values, c, bottom, root)
                && larger == (c(values[root], values[maxChild]) < 0)
    {
      hide Chained, Recorded, AllFine;
      var root2, ret := root * 2, 0;
      maxChild, larger := root2, false;
      if root2 != bottom {
        ok, ret := Compare(root2, root2 + 1);
        if !ok {
          return;
        }
        maxChild := if ret > 0 then root2 else root2 + 1;
      }
      ok, ret := Compare(root, maxChild);
      larger := ret < 0;
    }

    /** _hsort_sift_down.  It ends for every comparator, whatever it writes. */
    method SiftDown(from: nat, bottom: int, ghost c: (T, T) -> int) returns (ok: bool)
      requires Valid() && AllFine(cmp, log) && bottom < |values|
      modifies `values, `calls, `log
      ensures Valid() && (ok ==> |values| == |old(values)|) && (ok <==> AllFine(cmp, log))
      ensures calls >= old(calls) && (!ok || 2 * from <= bottom ==> calls > old(calls))
      ensures Consistent(cmp, c) ==> ok && Sifted(old(values), values, c, from, bottom)
    {
      hide Consistent, MaxChild, Preorder, Heap, HeapBut, Chained, Recorded, Swapped, AllFine;
      var root := from;
      var done := false;
      ghost var good := Consistent(cmp, c);
      ghost var heap := good && Heap(values, c, from + 1, bottom);
      if good {
        ConsistentPreorder(cmp, c);
        NeverLargerThanItself(cmp, c);
      }
      if heap { SiftStart(values, c, from, bottom); }
      while root * 2 <= bottom && !done
        invariant from <= root && Valid() && AllFine(cmp, log) && |values| == |old(values)|
        invariant calls >= old(calls) && (root > from || done ==> calls > old(calls))
        invariant good ==> Perm(old(values), values)
        invariant good ==> forall i :: 0 <= i < |values| && i > bottom ==> values[i] == old(values)[i]
        invariant heap ==> if done then Heap(values, c, from, bottom) else HeapBut(values, c, from, bottom, root)
        decreases bottom - root, !done
      {
        var maxChild, larger;
        ok, maxChild, larger := PickChild(root, bottom, c);
        if !ok {
          return;
        }
        if larger {
          if root == maxChild {
            return false;
          }
          if heap { StepSwaps(values, c, from, bottom, root); }
          SwappedAt(values, root, maxChild);
          Swap(root, maxChild);
          root := maxChild;
        } else {
          if heap { StepStops(values, c, from, bottom, root); }
          done := true;
        }
      }
      if heap && !done { SiftLeaf(values, c, from, bottom, root); }
      ok := true;
    }

    /** The first loop of _hsort (lines 1471 to 1473). */
    method BuildHeap(ghost c: (T, T) -> int) returns (ok: bool)
      requires Valid() && AllFine(cmp, log)
      modifies `values, `calls, `log
      ensures Valid() && (ok ==> |values| == |old(values)|) && (ok <==> AllFine(cmp, log))
      ensures |old(values)| > 0 ==> calls > old(calls)
      ensures Consistent(cmp, c) ==> ok && Perm(old(values), values) && Heap(values, c, 0, |values| - 1)
    {
      hide Consistent, Heap, Chained, Recorded, Perm, Sifted, AllFine, Built;
      var i, last := |values| / 2, |values| - 1;
      ghost var good := Consistent(cmp, c);
      BuiltStart(good, values, c);
      ok := true;
      while i >= 0
        invariant -1 <= i && Valid() && ok && AllFine(cmp, log) && |values| == |old(values)| == last + 1
        invariant calls >= old(calls) && (i < 0 && last >= 0 ==> calls > old(calls))
        invariant Built(good, old(values), values, c, i + 1, last)
      {
        ok := BuildStep(good, old(values), i, last, c);
        if !ok {
          return;
        }
        i := i - 1;
      }
      BuiltEnd(good, old(values), values, c);
    }

    /** One round of the first loop. */
    method BuildStep(ghost good: bool, ghost was: seq<T>, i: nat, last: int, ghost c: (T, T) -> int) returns (ok: bool)
      requires Valid() && AllFine(cmp, log) && last < |values| && (good <==> Consistent(cmp, c))
      requires Built(good, was, values, c, i + 1, last)
      modifies `values, `calls, `log
      ensures Valid() && (ok ==> |values| == |old(values)|) && (ok <==> AllFine(cmp, log)) && (good ==> ok)
      ensures calls >= old(calls) && (!ok || 2 * i <= last ==> calls > old(calls))
      ensures ok ==> Built(good, was, values, c, i, last)
    {
      hide Consistent, Heap, Chained, Recorded, Perm, Sifted, AllFine, Built;
      ghost var before := values;
      ok := SiftDown(i, last, c);
      if ok {
        SiftedHeap(good, was, before, values, c, i, last);
      }
    }

    /** One round of the second loop: the largest element goes behind the heap (lines 1477 and 1478). */
    method TakeMax(i: nat, ghost c: (T, T) -> int) returns (ok: bool)
      requires Valid() && AllFine(cmp, log) && 1 <= i < |values|
      modifies `values, `calls, `log
      ensures Valid() && (ok ==> |values| == |old(values)|) && (ok <==> AllFine(cmp, log))
      ensures calls >= old(calls)
      ensures Consistent(cmp, c) ==> ok && Perm(old(values), values)
      ensures Consistent(cmp, c) && old(Heap(values, c, 0, i) && Settled(values, c, i + 1)) ==>
                Heap(values, c, 0, i - 1) && Settled(values, c, i)
    {
      hide Consistent, Heap, Settled, Preorder, Swapped, Chained, Recorded, AllFine;
      ghost var good := Consistent(cmp, c) && Heap(values, c, 0, i) && Settled(values, c, i + 1);
      if good {
        ConsistentPreorder(cmp, c);
        MaxSettles(values, c, i);
      }
      Swap(0, i);
      ghost var s := values;
      ok := SiftDown(0, i - 1, c);
      if good {
        SettledUnder(s, values, c, i);
      }
    }

    /** _hsort: it ends for every comparator, inconsistent, failing or writing into the array, and between its calls it
        only permutes the array.  It fails exactly when a call fails.  For a total preorder it succeeds and the array
        ends as a sorted permutation. */
    method Sort(ghost c: (T, T) -> int) returns (ok: bool)
      requires Valid() && log == []
      modifies `values, `calls, `log
      ensures Valid() && (ok ==> |values| == |start|) && (ok <==> AllFine(cmp, log))
      ensures |start| > 0 ==> log != []
      ensures (forall e :: e in log ==> Perm(e.before, e.after)) <==>
              (Perm(start, values) && forall e :: e in log ==> Perm(start, e.before) && Perm(start, e.after))
      ensures Consistent(cmp, c) ==> ok && Perm(start, values) && Sorted(values, c)
    {
      hide Consistent, Heap, Settled, Sorted, Chained, Recorded, AllFine;
      ChainedStart(start, values);
      NothingAsked(cmp);
      ok := BuildHeap(c);
      if ok {
        ok := Extract(c);
      }
      PermutedExactly(start, log, values);
    }

    /** The second loop of _hsort (lines 1475 to 1479). */
    method Extract(ghost c: (T, T) -> int) returns (ok: bool)
      requires Valid() && AllFine(cmp, log)
      modifies `values, `calls, `log
      ensures Valid() && (ok ==> |values| == |old(values)|) && (ok <==> AllFine(cmp, log))
      ensures calls >= old(calls)
      ensures Consistent(cmp, c) && old(Heap(values, c, 0, |values| - 1)) ==>
                ok && Perm(old(values), values) && Sorted(values, c)
    {
      hide Consistent, Heap, Settled, Sorted, Chained, Recorded, AllFine;
      ghost var good := Consistent(cmp, c) && Heap(values, c, 0, |values| - 1);
      var i := |values| - 1;
      NothingSettled(values, c);
      while i >= 1
        invariant -1 <= i < |values| && (|values| > 0 ==> i >= 0) && Valid() && |values| == |old(values)|
        invariant AllFine(cmp, log) && calls >= old(calls)
        invariant good ==> Perm(old(values), values) && Heap(values, c, 0, i) && Settled(values, c, i + 1)
      {
        ok := TakeMax(i, c);
        if !ok {
          return;
        }
        i := i - 1;
      }
      if good {
        AllSettled(values, c);
      }
      ok := true;
    }
  }

  /** The permutation does fail: a comparator that writes into the array it sorts. */
  method NotPermuted() returns (values: seq<int>)
    ensures multiset(values) != multiset([1, 2])
  {
    var s := new Sorter([1, 2], (_, _, _, _) => Reply(Some(0), [7, 7], false));
    var ok := s.Sort((x: int, y: int) => 0);
    values := s.values;
    assert RecordedAt(s.cmp, |s.log| - 1, s.log[|s.log| - 1]);
    assert 1 in multiset([1, 2]) && 1 !in multiset([7, 7]);
  }

  /** A sift permutes, touches nothing behind `bottom`, and makes the heap one node larger. */
  ghost predicate Sifted<T(!new)>(was: seq<T>, now: seq<T>, c: (T, T) -> int, from: nat, bottom: int)
    requires bottom < |was|
  {
    && |was| == |now| && Perm(was, now)
    && (forall i :: 0 <= i < |now| && i > bottom ==> now[i] == was[i])
    && (Heap(was, c, from + 1, bottom) ==> Heap(now, c, from, bottom))
  }

  /** For a total preorder, the first loop's invariant: a permutation, and a heap from node `k` on. */
  ghost predicate Built<T(!new)>(good: bool, start: seq<T>, now: seq<T>, c: (T, T) -> int, k: int, bottom: int) {
    good ==> bottom < |now| && Perm(start, now) && Heap(now, c, k, bottom)
  }

  lemma BuiltStart<T(!new)>(good: bool, s: seq<T>, c: (T, T) -> int)
    ensures Built(good, s, s, c, |s| / 2 + 1, |s| - 1)
  {
    hide Heap;
    LowestHeap(s, c);
  }

  lemma BuiltEnd<T(!new)>(good: bool, start: seq<T>, now: seq<T>, c: (T, T) -> int)
    requires Built(good, start, now, c, 0, |now| - 1)
    ensures good ==> Perm(start, now) && Heap(now, c, 0, |now| - 1)
  {
  }

  lemma SiftedHeap<T(!new)>(good: bool, start: seq<T>, was: seq<T>, now: seq<T>, c: (T, T) -> int, from: nat,
                            bottom: int)
    requires bottom < |was| == |now| && Built(good, start, was, c, from + 1, bottom)
    requires good ==> Sifted(was, now, c, from, bottom)
    ensures Built(good, start, now, c, from, bottom)
  {
    hide Heap;
  }

  lemma NothingAsked<T(!new)>(cmp: Comparator<T>)
    ensures AllFine(cmp, [])
  {
  }

  lemma ChainedStart<T(!new)>(start: seq<T>, now: seq<T>)
    requires Chained(start, [], now)
    ensures Perm(start, now)
  {
  }

  lemma PermThen<T(!new)>(s: seq<T>, t: seq<T>, u: seq<T>)
    ensures Perm(s, s) && (Perm(s, t) && Perm(t, u) ==> Perm(s, u))
  {
  }

  lemma SwapPermutes<T(!new)>(s: seq<T>, i: nat, j: nat)
    requires i < |s| && j < |s|
    ensures Perm(s, Swapped(s, i, j))
  {
  }

  lemma SwappedAt<T(!new)>(s: seq<T>, i: nat, j: nat)
    requires i < |s| && j < |s|
    ensures forall k :: 0 <= k < |s| && k != i && k != j ==> Swapped(s, i, j)[k] == s[k]
  {
  }

  lemma ConsistentPreorder<T(!new)>(cmp: Comparator<T>, c: (T, T) -> int)
    requires Consistent(cmp, c)
    ensures Preorder(c)
  {
  }

  lemma NeverLargerThanItself<T(!new)>(cmp: Comparator<T>, c: (T, T) -> int)
    requires Consistent(cmp, c)
    ensures forall x :: c(x, x) == 0
  {
  }

  lemma SiftStart<T(!new)>(s: seq<T>, c: (T, T) -> int, k: nat, bottom: int)
    requires bottom < |s| && Heap(s, c, k + 1, bottom)
    ensures HeapBut(s, c, k, bottom, k)
  {
  }

  lemma SiftLeaf<T(!new)>(s: seq<T>, c: (T, T) -> int, k: nat, bottom: int, r: nat)
    requires bottom < |s| && HeapBut(s, c, k, bottom, r) && 2 * r > bottom
    ensures Heap(s, c, k, bottom)
  {
  }

  /** The upper part is in its final place: sorted, and above everything below it. */
  ghost predicate Settled<T(!new)>(s: seq<T>, c: (T, T) -> int, from: int)
    requires 0 <= from <= |s|
  {
    forall i, j :: 0 <= i < j < |s| && j >= from ==> c(s[i], s[j]) <= 0
  }

  lemma LowestHeap<T(!new)>(s: seq<T>, c: (T, T) -> int)
    ensures Heap(s, c, |s| / 2 + 1, |s| - 1)
  {
  }

  lemma NothingSettled<T(!new)>(s: seq<T>, c: (T, T) -> int)
    ensures Settled(s, c, |s|)
  {
  }

  lemma AllSettled<T(!new)>(s: seq<T>, c: (T, T) -> int)
    requires |s| > 0 ==> Settled(s, c, 1)
    ensures Sorted(s, c)
  {
  }

  /** Swapping the root to the end of the heap puts it in its final place. */
  lemma MaxSettles<T(!new)>(s: seq<T>, c: (T, T) -> int, i: nat)
    requires Preorder(c) && 1 <= i < |s| && Heap(s, c, 0, i) && Settled(s, c, i + 1)
    ensures Settled(Swapped(s, 0, i), c, i) && Heap(Swapped(s, 0, i), c, 1, i - 1)
  {
    var s' := Swapped(s, 0, i);
    forall x, y | 0 <= x < y < |s| && y >= i ensures c(s'[x], s'[y]) <= 0 {
      if y == i {
        RootIsMax(s, c, i, if x == 0 then i else x);
      }
    }
  }

  /** Permuting the elements below `from` disturbs nothing above it. */
  lemma SettledUnder<T(!new)>(s: seq<T>, s': seq<T>, c: (T, T) -> int, from: nat)
    requires from <= |s| == |s'| && Settled(s, c, from) && multiset(s) == multiset(s')
    requires forall i :: from <= i < |s| ==> s[i] == s'[i]
    ensures Settled(s', c, from)
  {
    assert s == s[..from] + s[from..] && s' == s'[..from] + s'[from..];
    assert s[from..] == s'[from..];
    assert multiset(s) == multiset(s[..from]) + multiset(s[from..]);
    assert multiset(s') == multiset(s'[..from]) + multiset(s'[from..]);
    assert multiset(s[..from]) == multiset(s) - multiset(s[from..]);
    assert multiset(s'[..from]) == multiset(s') - multiset(s'[from..]);
    forall i, j | 0 <= i < j < |s| && j >= from ensures c(s'[i], s'[j]) <= 0 {
      if i < from {
        assert s'[..from][i] in multiset(s[..from]);
        var k :| 0 <= k < from && s[k] == s'[i];
      }
    }
  }
}
