/** RefTable: host references to script objects.  Buckets and a free list share one node array. */
module RefTables {
  import opened Objects
  import opened Buckets
  import opened Seqs

  /** `HashObj(obj) & (size - 1)`. */
  type Slot = f: (Obj, nat) -> nat | forall o, n :: n > 0 ==> f(o, n) < n witness (o: Obj, n: nat) => 0

  /** Node `x` is used exactly when it holds an object; then it is in the bucket of its hash, else on the free
      list (list number `size`).  `place` finds each object's node and `counts` its reference count. */
  ghost predicate Counted(objs: seq<Obj>, refs: seq<nat>, home: seq<int>, place: map<Obj, nat>, counts: map<Obj, nat>,
                          size: nat, slot: Slot)
  {
    && |objs| == |refs| == |home| == size > 0
    && (forall x :: 0 <= x < size && objs[x] == Null ==> home[x] == size && refs[x] == 0)
    && (forall x :: 0 <= x < size && objs[x] != Null ==>
          home[x] == slot(objs[x], size) && objs[x] in place && place[objs[x]] == x)
    && place.Keys == counts.Keys
    && (forall o :: o in place ==> o != Null && place[o] < size && objs[place[o]] == o && refs[place[o]] == counts[o])
  }

  lemma CountNew(objs: seq<Obj>, refs: seq<nat>, home: seq<int>, place: map<Obj, nat>, counts: map<Obj, nat>,
                 size: nat, slot: Slot, x: nat, o: Obj)
    requires Counted(objs, refs, home, place, counts, size, slot) && x < size && objs[x] == Null && o != Null
    requires o !in place
    ensures Counted(objs[x := o], refs, home[x := slot(o, size)], place[o := x], counts[o := 0], size, slot)
  {
  }

  lemma CountSet(objs: seq<Obj>, refs: seq<nat>, home: seq<int>, place: map<Obj, nat>, counts: map<Obj, nat>,
                 size: nat, slot: Slot, o: Obj, n: nat)
    requires Counted(objs, refs, home, place, counts, size, slot) && o in place
    ensures Counted(objs, refs[place[o] := n], home, place, counts[o := n], size, slot)
  {
  }

  lemma CountGone(objs: seq<Obj>, refs: seq<nat>, home: seq<int>, place: map<Obj, nat>, counts: map<Obj, nat>,
                  size: nat, slot: Slot, o: Obj)
    requires Counted(objs, refs, home, place, counts, size, slot) && o in place && refs[place[o]] == 0
    ensures Counted(objs[place[o] := Null], refs, home[place[o] := size], place - {o}, counts - {o}, size, slot)
    ensures |place - {o}| == |place| - 1
  {
    assert place == (place - {o})[o := place[o]];
  }

  /** A host's calls. */
  datatype Op = AddRef(obj: Obj) | Release(obj: Obj)

  /** What a run of calls leaves of an object's references; releasing an object that is not held does nothing. */
  function Balance(ops: seq<Op>, o: Obj): (n: nat) {
    if ops == [] then 0
    else
      var n, op := Balance(ops[..|ops| - 1], o), ops[|ops| - 1];
      if op.obj != o then n else if op.AddRef? then n + 1 else if n == 0 then 0 else n - 1
  }

  function Times(ops: seq<Op>, op: Op): (n: nat) {
    multiset(ops)[op]
  }

  /** On a run that never releases more than it added, the balance is the difference. */
  lemma {:induction false} BalanceIsDifference(ops: seq<Op>, o: Obj)
    requires forall k :: 0 <= k <= |ops| ==> Times(ops[..k], Release(o)) <= Times(ops[..k], AddRef(o))
    ensures Balance(ops, o) == Times(ops, AddRef(o)) - Times(ops, Release(o))
    decreases |ops|
  {
    if ops != [] {
      var front, op := ops[..|ops| - 1], ops[|ops| - 1];
      forall k | 0 <= k <= |front| ensures Times(front[..k], Release(o)) <= Times(front[..k], AddRef(o)) {
        assert front[..k] == ops[..k];
      }
      BalanceIsDifference(front, o);
      assert ops == front + [op] && ops[..|ops|] == ops;
      assert multiset(ops) == multiset(front) + multiset{op};
    }
  }

  /** The numbers 0 to n-1, the initial free list. */
  function Upto(n: nat): (l: seq<nat>)
    ensures |l| == n && forall i :: 0 <= i < n ==> l[i] == i
  {
    seq(n, i => i)
  }

  /** Buckets and free list partition the node array; `slotUsed` counts the used nodes. */
  ghost predicate Sound(buckets: seq<int>, freelist: int, slotUsed: nat, objs: seq<Obj>, refs: seq<nat>, next: seq<int>,
                        lists: seq<seq<nat>>, home: seq<int>, place: map<Obj, nat>, counts: map<Obj, nat>, slot: Slot)
  {
    && 0 < |buckets| == |objs| == |refs| == |next| == |home| && |lists| == |buckets| + 1
    && AllListed(next, buckets + [freelist], lists)
    && Placed(lists, home)
    && Counted(objs, refs, home, place, counts, |buckets|, slot)
    && slotUsed == |place| && |lists[|buckets|]| + slotUsed == |buckets|
  }

  class RefTable {
    const slot: Slot
    var buckets: seq<int>
    var freelist: int
    var slotUsed: nat
    /** obj, refs and next of every node; a free node's obj is null. */
    var objs: seq<Obj>
    var refs: seq<nat>
    var next: seq<int>

    /** The bucket lists, and after them the free list. */
    ghost var lists: seq<seq<nat>>
    ghost var home: seq<int>
    ghost var place: map<Obj, nat>
    /** AddRefs minus Releases of every held object. */
    ghost var counts: map<Obj, nat>

    ghost predicate Linked()
      reads this
    {
      && 0 < |buckets| == |objs| == |refs| == |next| && |lists| == |buckets| + 1
      && Sound(buckets, freelist, slotUsed, objs, refs, next, lists, home, place, counts, slot)
    }

    ghost predicate Valid()
      reads this
    {
      Linked() && forall o :: o in counts ==> counts[o] > 0
    }

    constructor (slot: Slot)
      ensures Valid() && counts == map[] && this.slot == slot && |buckets| == 4
    {
      this.slot := slot;
      new;
      AllocNodes(4);
    }

    method AllocNodes(size: nat)
      requires size > 0
      modifies this
      ensures Linked() && counts == map[] && place == map[] && |buckets| == size && slotUsed == 0
    {
      hide Sound, AllListed, Placed, Counted;
      next := [];
      var n := 0;
      while n < size - 1
        invariant 0 <= n <= size - 1 && |next| == n && forall i :: 0 <= i < n ==> next[i] == i + 1
      {
        next := next + [n + 1];
        n := n + 1;
      }
      next := next + [-1];
      buckets, objs, refs := seq(size, _ => -1), seq(size, _ => Null), seq(size, _ => 0);
      freelist, slotUsed := 0, 0;
      lists, home := seq(size, _ => []) + [Upto(size)], seq(size, _ => size);
      place, counts := map[], map[];
      FreshSound(buckets, objs, refs, next, home, size, slot);
    }

    /** The bucket walk of Get: the object's node and the one before it, or -1. */
    method Find(obj: Obj) returns (ref: int, prev: int, ghost k: nat)
      requires Linked()
      ensures ref == if obj in place then place[obj] else -1
      ensures obj in place ==> var l := lists[slot(obj, |buckets|)]; k < |l| && l[k] == ref && prev == Nth(l, k - 1)
    {
      hide AllListed, Placed, Counted;
      var h := slot(obj, |buckets|);
      ghost var l := lists[h];
      Bucket(obj);
      ref, prev, k := buckets[h], -1, 0;
      while ref != -1
        invariant 0 <= k <= |l| && ref == Nth(l, k) && prev == Nth(l, k - 1)
        invariant obj in place ==> place[obj] in l[k..]
        decreases |l| - k
      {
        if objs[ref] == obj {
          return;
        }
        assert next[l[k]] == Nth(l, k + 1);
        prev := ref;
        ref := next[ref];
        k := k + 1;
      }
    }

    /** What the walk for `obj` relies on. */
    lemma Bucket(obj: Obj)
      requires Linked()
      ensures var h := slot(obj, |buckets|);
              && Listed(next, buckets[h], lists[h])
              && (obj in place ==> place[obj] in lists[h])
              && forall i :: 0 <= i < |lists[h]| ==>
                   var x := lists[h][i];
                   x < |objs| && (objs[x] == obj <==> obj in place && place[obj] == x)
    {
      var h := slot(obj, |buckets|);
      assert (buckets + [freelist])[h] == buckets[h];
      assert Listed(next, buckets[h], lists[h]);
      if obj in place {
        assert home[place[obj]] == h;
      }
      forall i | 0 <= i < |lists[h]|
        ensures var x := lists[h][i]; x < |objs| && (objs[x] == obj <==> obj in place && place[obj] == x)
      {
        assert home[lists[h][i]] == h;
      }
    }

    /** Takes a free node for `obj` and puts it at the front of its bucket. */
    method Add(obj: Obj) returns (node: nat)
      requires Linked() && obj != Null && obj !in place && slotUsed < |buckets|
      modifies this
      ensures Linked() && place == old(place)[obj := node] && counts == old(counts)[obj := 0]
      ensures |buckets| == old(|buckets|) && slotUsed == old(slotUsed) + 1
    {
      hide Sound;
      var h := slot(obj, |buckets|);
      ghost var lists1 := AddSound(buckets, freelist, slotUsed, objs, refs, next, lists, home, place, counts, slot,
                                   obj, h);
      node := freelist;
      var t := buckets[h];
      objs := objs[node := obj];
      buckets := buckets[h := node];
      freelist := next[node];
      next := next[node := t];
      slotUsed := slotUsed + 1;
      lists := lists1;
      home := home[node := h];
      place, counts := place[obj := node], counts[obj := 0];
    }

    /** Get with `add`: the object's node, made if there is none. */
    method GetOrAdd(obj: Obj) returns (ref: nat)
      requires Linked() && obj != Null
      modifies this
      ensures Linked() && obj in place && ref == place[obj] && ref < |refs|
      ensures obj in counts && refs[ref] == counts[obj]
      ensures counts == if obj in old(counts) then old(counts) else old(counts)[obj := 0]
      ensures |buckets| == if |counts| > old(|buckets|) then old(|buckets|) * 2 else old(|buckets|)
    {
      hide AllListed, Placed, Counted;
      KeysAgree();
      var at, prev;
      ghost var k;
      at, prev, k := Find(obj);
      if at == -1 {
        if |buckets| == slotUsed {
          Resize(|buckets| * 2);
        }
        ref := Add(obj);
      } else {
        ref := at;
      }
      KeysAgree();
    }

    method AddRef(obj: Obj)
      requires Valid() && obj != Null
      modifies this
      ensures Valid() && counts == old(counts)[obj := (if obj in old(counts) then old(counts)[obj] else 0) + 1]
      ensures |buckets| == if |counts| > old(|buckets|) then old(|buckets|) * 2 else old(|buckets|)
    {
      hide AllListed, Placed, Counted;
      var ref := GetOrAdd(obj);
      SetCount(obj, ref, refs[ref] + 1);
    }

    lemma KeysAgree()
      requires Linked()
      ensures place.Keys == counts.Keys && |place| == |counts|
      ensures forall o :: o in place ==> place[o] < |refs| && refs[place[o]] == counts[o]
    {
      assert |place| == |place.Keys| && |counts| == |counts.Keys|;
    }

    method SetCount(obj: Obj, ref: nat, n: nat)
      requires Linked() && obj in place && ref == place[obj]
      modifies `refs, `counts
      ensures Linked() && counts == old(counts)[obj := n]
    {
      hide AllListed, Placed;
      CountSet(objs, refs, home, place, counts, |buckets|, slot, obj, n);
      refs := refs[ref := n];
      counts := counts[obj := n];
    }

    method GetRefCount(obj: Obj) returns (n: nat)
      requires Valid()
      ensures n == if obj in counts then counts[obj] else 0
    {
      KeysAgree();
      var ref, prev;
      ghost var k;
      ref, prev, k := Find(obj);
      n := if ref != -1 then refs[ref] else 0;
    }

    /** Any run of calls on an empty table: GetRefCount is the balance of every object. */
    method Run(ops: seq<Op>)
      requires Valid() && counts == map[] && forall op :: op in ops ==> op.obj != Null
      modifies this
      ensures Valid() && forall o :: (if o in counts then counts[o] else 0) == Balance(ops, o)
    {
      hide Linked;
      var i := 0;
      while i < |ops|
        invariant 0 <= i <= |ops| && Valid()
        invariant forall o :: (if o in counts then counts[o] else 0) == Balance(ops[..i], o)
      {
        ghost var was := counts;
        assert ops[..i + 1][..|ops[..i + 1]| - 1] == ops[..i];
        if ops[i].AddRef? {
          AddRef(ops[i].obj);
        } else {
          var last := Release(ops[i].obj);
        }
        i := i + 1;
      }
      assert ops[..i] == ops;
    }

    /** True when this was the last reference. */
    method Release(obj: Obj) returns (last: bool)
      requires Valid()
      modifies this
      ensures Valid() && last == (obj in old(counts) && old(counts)[obj] == 1)
      ensures counts == if obj !in old(counts) then old(counts)
                        else if last then old(counts) - {obj} else old(counts)[obj := old(counts)[obj] - 1]
      ensures |buckets| == old(|buckets|)
    {
      hide AllListed, Placed, Counted;
      KeysAgree();
      var ref, prev;
      ghost var k;
      ref, prev, k := Find(obj);
      if ref == -1 {
        return false;
      }
      ghost var was := counts;
      SetCount(obj, ref, refs[ref] - 1);
      KeysAgree();
      if refs[ref] == 0 {
        Unlink(obj, ref, prev, k);
        assert counts == was - {obj};
        return true;
      }
      last := false;
    }

    /** The node leaves its bucket for the free list (lines 495 to 504). */
    method Unlink(obj: Obj, ref: nat, prev: int, ghost k: nat)
      requires Linked() && obj in place && ref == place[obj] && ref < |refs| && refs[ref] == 0
      requires var l := lists[slot(obj, |buckets|)]; k < |l| && l[k] == ref && prev == (if k > 0 then l[k - 1] else -1)
      modifies this
      ensures Linked() && counts == old(counts) - {obj} && |buckets| == old(|buckets|)
    {
      hide Sound;
      var h, n := slot(obj, |buckets|), |buckets|;
      ghost var lists1 := UnlinkSound(buckets, freelist, slotUsed, objs, refs, next, lists, home, place, counts, slot,
                                      obj, h, k);
      Relink(h, ref, prev);
      slotUsed := slotUsed - 1;
      objs := objs[ref := Null];
      lists := lists1;
      home := home[ref := n];
      place, counts := place - {obj}, counts - {obj};
    }

    method Relink(h: nat, ref: nat, prev: int)
      requires h < |buckets| && ref < |next| && -1 <= prev < |next| && prev != ref
      modifies `next, `buckets, `freelist
      ensures next == (if prev != -1 then old(next)[prev := old(next)[ref]] else old(next))[ref := old(freelist)]
      ensures buckets == if prev != -1 then old(buckets) else old(buckets)[h := old(next)[ref]]
      ensures freelist == ref
    {
      if prev != -1 {
        next := next[prev := next[ref]];
      } else {
        buckets := buckets[h := next[ref]];
      }
      next := next[ref := freelist];
      freelist := ref;
    }

    /** Only called when every node is used: all of them are added back to a table of twice the size. */
    method Resize(size: nat)
      requires Linked() && slotUsed == |buckets| && size == 2 * |buckets|
      modifies this
      ensures Linked() && counts == old(counts) && place.Keys == old(place.Keys) && |buckets| == size && slotUsed < size
    {
      hide Sound, AllListed, Placed, Counted, Carried;
      var oldobjs, oldrefs := objs, refs;
      ghost var p0, c0 := place, counts;
      AllUsed();
      CarriedNone(p0, c0);
      AllocNodes(size);
      var n := 0;
      while n < |oldobjs|
        invariant 0 <= n <= |oldobjs| && Linked() && |buckets| == size && slotUsed == n
        invariant Carried(p0, c0, place, counts, n)
      {
        var o := oldobjs[n];
        if o != Null {
          AddBack(o, oldrefs[n], p0, c0, oldobjs, n);
        }
        n := n + 1;
      }
      CarriedAll(p0, c0, place, counts, n);
    }

    /** One old node's object is added back, with its count (lines 525 to 530). */
    method AddBack(o: Obj, n: nat, ghost p0: map<Obj, nat>, ghost c0: map<Obj, nat>, ghost olds: seq<Obj>, ghost i: nat)
      requires Linked() && slotUsed == i < |buckets| && Carried(p0, c0, place, counts, i)
      requires i < |olds| && o == olds[i] != Null && o in p0 && p0[o] == i && o in c0 && c0[o] == n
      requires forall x :: x in p0 ==> p0[x] < |olds| && olds[p0[x]] == x
      modifies this
      ensures Linked() && |buckets| == old(|buckets|) && slotUsed == i + 1 && Carried(p0, c0, place, counts, i + 1)
    {
      hide Sound, Carried;
      CarriedNext(p0, c0, place, counts, olds, i);
      ghost var p1, c1 := place, counts;
      var node := Add(o);
      SetCount(o, node, n);
      CarriedOn(p0, c0, p1, c1, olds, i, node);
      assert counts == c1[o := c0[o]];
    }

    lemma AllUsed()
      requires Linked() && slotUsed == |buckets|
      ensures forall x :: 0 <= x < |objs| ==>
                && objs[x] != Null && objs[x] in place && place[objs[x]] == x
                && objs[x] in counts && refs[x] == counts[objs[x]]
      ensures place.Keys == counts.Keys && forall o :: o in place ==> place[o] < |objs| && objs[place[o]] == o
    {
      forall x | 0 <= x < |objs| ensures objs[x] != Null {
        if objs[x] == Null { assert false; }
      }
    }
  }

  lemma AddSound(buckets: seq<int>, freelist: int, slotUsed: nat, objs: seq<Obj>, refs: seq<nat>, next: seq<int>,
                 lists: seq<seq<nat>>, home: seq<int>, place: map<Obj, nat>, counts: map<Obj, nat>, slot: Slot,
                 obj: Obj, h: nat)
    returns (lists': seq<seq<nat>>)
    requires Sound(buckets, freelist, slotUsed, objs, refs, next, lists, home, place, counts, slot)
    requires obj != Null && obj !in place && slotUsed < |buckets| && h == slot(obj, |buckets|)
    ensures 0 <= freelist < |next| && h < |buckets|
    ensures |home| == |next| && |lists'| == |lists|
    ensures Sound(buckets[h := freelist], next[freelist], slotUsed + 1, objs[freelist := obj], refs,
                  next[freelist := buckets[h]], lists', home[freelist := h], place[obj := freelist], counts[obj := 0],
                  slot)
  {
    hide AllListed, Placed, Counted, Without;
    var n := |buckets|;
    FreeHead(buckets, freelist, objs, next, lists, home, place, counts, refs, slot);
    CountNew(objs, refs, home, place, counts, n, slot, freelist, obj);
    var next1, heads1;
    next1, heads1, lists' := MoveOver(next, buckets + [freelist], lists, home, n, 0, h);
    HeadsSplit(buckets, freelist, h, freelist, next[freelist]);
  }

  lemma FreeHead(buckets: seq<int>, freelist: int, objs: seq<Obj>, next: seq<int>, lists: seq<seq<nat>>, home: seq<int>,
                 place: map<Obj, nat>, counts: map<Obj, nat>, refs: seq<nat>, slot: Slot)
    requires |lists| == |buckets| + 1 && AllListed(next, buckets + [freelist], lists) && Placed(lists, home)
    requires Counted(objs, refs, home, place, counts, |buckets|, slot) && |lists[|buckets|]| > 0
    ensures var l := lists[|buckets|]; freelist == l[0] < |objs| && objs[l[0]] == Null
  {
    assert (buckets + [freelist])[|buckets|] == freelist;
    assert Listed(next, freelist, lists[|buckets|]);
    assert home[lists[|buckets|][0]] == |buckets|;
  }

  lemma UnlinkSound(buckets: seq<int>, freelist: int, slotUsed: nat, objs: seq<Obj>, refs: seq<nat>, next: seq<int>,
                    lists: seq<seq<nat>>, home: seq<int>, place: map<Obj, nat>, counts: map<Obj, nat>, slot: Slot,
                    obj: Obj, h: nat, k: nat)
    returns (lists': seq<seq<nat>>)
    requires Sound(buckets, freelist, slotUsed, objs, refs, next, lists, home, place, counts, slot)
    requires obj in place && h == slot(obj, |buckets|) && k < |lists[h]| && lists[h][k] == place[obj] < |refs|
    requires refs[place[obj]] == 0
    ensures |home| == |next| && |lists'| == |lists| && slotUsed > 0 && place[obj] < |next|
    ensures var l, x := lists[h], place[obj];
            && (k > 0 ==> l[k - 1] < |next| && l[k - 1] != x)
            && Sound(if k > 0 then buckets else buckets[h := next[x]], x, slotUsed - 1, objs[x := Null], refs,
                     (if k > 0 then next[l[k - 1] := next[x]] else next)[x := freelist], lists', home[x := |buckets|],
                     place - {obj}, counts - {obj}, slot)
  {
    hide AllListed, Placed, Counted, Without;
    var n := |buckets|;
    CountGone(objs, refs, home, place, counts, n, slot, obj);
    var next1, heads1;
    next1, heads1, lists' := MoveOver(next, buckets + [freelist], lists, home, h, k, n);
    HeadsSplit(buckets, freelist, h, next[place[obj]], place[obj]);
    assert |lists'[n]| == |lists[n]| + 1;
  }

  /** Bucket heads and the free-list head, updated apart or together. */
  lemma HeadsSplit(buckets: seq<int>, free: int, h: nat, v: int, f: int)
    requires h < |buckets|
    ensures var heads, n := buckets + [free], |buckets|;
            && heads[h := v][n := f] == buckets[h := v] + [f] == heads[n := f][h := v]
            && heads[n := f] == buckets + [f] && heads[n] == free && heads[h] == buckets[h]
  {
  }

  /** Exactly the objects of the first `n` old nodes are back, with their counts. */
  ghost predicate Carried(p0: map<Obj, nat>, c0: map<Obj, nat>, place: map<Obj, nat>, counts: map<Obj, nat>, n: nat) {
    && place.Keys == counts.Keys && p0.Keys == c0.Keys
    && (forall o :: o in place <==> o in p0 && p0[o] < n)
    && (forall o :: o in counts ==> o in c0 && counts[o] == c0[o])
  }

  lemma CarriedNone(p0: map<Obj, nat>, c0: map<Obj, nat>)
    requires p0.Keys == c0.Keys
    ensures Carried(p0, c0, map[], map[], 0)
  {
  }

  /** The object of the next old node is not back yet. */
  lemma CarriedNext(p0: map<Obj, nat>, c0: map<Obj, nat>, place: map<Obj, nat>, counts: map<Obj, nat>, objs: seq<Obj>,
                    n: nat)
    requires Carried(p0, c0, place, counts, n) && n < |objs| && objs[n] in p0 && p0[objs[n]] == n
    ensures objs[n] !in place
  {
  }

  /** Adding it carries one node more. */
  lemma CarriedOn(p0: map<Obj, nat>, c0: map<Obj, nat>, place: map<Obj, nat>, counts: map<Obj, nat>, objs: seq<Obj>,
                  n: nat, x: nat)
    requires Carried(p0, c0, place, counts, n) && n < |objs| && objs[n] in p0 && p0[objs[n]] == n && objs[n] in c0
    requires forall o :: o in p0 ==> p0[o] < |objs| && objs[p0[o]] == o
    ensures Carried(p0, c0, place[objs[n] := x], counts[objs[n] := c0[objs[n]]], n + 1)
  {
  }

  lemma CarriedAll(p0: map<Obj, nat>, c0: map<Obj, nat>, place: map<Obj, nat>, counts: map<Obj, nat>, n: nat)
    requires Carried(p0, c0, place, counts, n) && forall o :: o in p0 ==> p0[o] < n
    ensures counts == c0 && place.Keys == p0.Keys
  {
  }

  lemma FreshSound(buckets: seq<int>, objs: seq<Obj>, refs: seq<nat>, next: seq<int>, home: seq<int>, size: nat,
                   slot: Slot)
    requires |next| == size > 0 && next[size - 1] == -1 && forall i :: 0 <= i < size - 1 ==> next[i] == i + 1
    requires buckets == seq(size, _ => -1) && objs == seq(size, _ => Null) && refs == seq(size, _ => 0)
    requires home == seq(size, _ => size)
    ensures Sound(buckets, 0, 0, objs, refs, next, seq(size, _ => []) + [Upto(size)], home, map[], map[], slot)
  {
    hide AllListed, Placed;
    FreshLists(next, size);
  }

  lemma FreshLists(next: seq<int>, size: nat)
    requires |next| == size > 0 && next[size - 1] == -1 && forall i :: 0 <= i < size - 1 ==> next[i] == i + 1
    ensures AllListed(next, seq(size, _ => -1) + [0], seq(size, _ => []) + [Upto(size)])
    ensures Placed(seq(size, _ => []) + [Upto(size)], seq(size, _ => size))
  {
    var lists, home := seq(size, _ => []) + [Upto(size)], seq(size, _ => size);
    assert Listed(next, 0, Upto(size));
    forall b, i | 0 <= b < |lists| && 0 <= i < |lists[b]| ensures lists[b][i] < |home| && home[lists[b][i]] == b {
      assert b == size;
    }
    forall x | 0 <= x < size ensures x in lists[home[x]] {
      assert Upto(size)[x] == x;
    }
  }
}
