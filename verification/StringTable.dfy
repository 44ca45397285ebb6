/** SQStringTable: interning.  Bucket lists of string objects, relinked in place by Resize. */
module StringTables {
  import opened Buckets
  import opened Seqs

  /** `hash & (size - 1)` of a string. */
  type Slot = f: (string, nat) -> nat | forall s, n :: n > 0 ==> f(s, n) < n witness (s: string, n: nat) => 0

  /** Each live object (one with a home) is in the bucket of its hash and is the only live one with its content. */
  ghost predicate Interned(vals: seq<string>, home: seq<int>, intern: map<string, nat>, size: nat, slot: Slot) {
    && |home| == |vals| && size > 0
    && (forall x :: 0 <= x < |vals| && home[x] >= 0 ==>
          home[x] == slot(vals[x], size) && vals[x] in intern && intern[vals[x]] == x)
    && (forall s :: s in intern ==> intern[s] < |vals| && home[intern[s]] >= 0 && vals[intern[s]] == s)
  }

  lemma InternNew(vals: seq<string>, home: seq<int>, intern: map<string, nat>, size: nat, slot: Slot, s: string)
    requires Interned(vals, home, intern, size, slot) && s !in intern
    ensures Interned(vals + [s], (home + [-1])[|vals| := slot(s, size)], intern[s := |vals|], size, slot)
  {
  }

  lemma InternGone(vals: seq<string>, home: seq<int>, intern: map<string, nat>, size: nat, slot: Slot, x: nat)
    requires Interned(vals, home, intern, size, slot) && x < |vals| && home[x] >= 0
    ensures home[x] == slot(vals[x], size) && vals[x] in intern && intern[vals[x]] == x
    ensures Interned(vals, home[x := -1], intern - {vals[x]}, size, slot)
    ensures |intern - {vals[x]}| == |intern| - 1
  {
    assert intern == (intern - {vals[x]})[vals[x] := x];
  }

  /** Moving every live object to the bucket of another size. */
  lemma InternMoved(vals: seq<string>, home: seq<int>, home': seq<int>, intern: map<string, nat>, size: nat,
                    size': nat, slot: Slot)
    requires Interned(vals, home, intern, size, slot) && |home'| == |vals| && size' > 0
    requires forall x :: 0 <= x < |vals| ==>
               (home[x] >= 0 <==> home'[x] >= 0) && (home'[x] >= 0 ==> home'[x] == slot(vals[x], size'))
    ensures Interned(vals, home', intern, size', slot)
  {
  }

  /** What is live is on an old or on a new bucket and not on both; a new one is that of its hash. */
  ghost predicate Moved(vals: seq<string>, was: seq<int>, from: seq<int>, home: seq<int>, size: nat, slot: Slot) {
    && |vals| == |was| == |from| == |home| && size > 0
    && forall x :: 0 <= x < |vals| ==>
         && (was[x] >= 0 <==> from[x] >= 0 || home[x] >= 0)
         && !(from[x] >= 0 && home[x] >= 0) && home[x] >= -1
         && (home[x] >= 0 ==> home[x] == slot(vals[x], size))
  }

  lemma MovedNone(vals: seq<string>, was: seq<int>, home: seq<int>, size: nat, slot: Slot)
    requires |vals| == |was| && home == seq(|vals|, _ => -1) && size > 0
    ensures Moved(vals, was, was, home, size, slot)
  {
  }

  lemma MovedOne(vals: seq<string>, was: seq<int>, from: seq<int>, home: seq<int>, size: nat, slot: Slot, x: nat)
    requires Moved(vals, was, from, home, size, slot) && x < |vals| && from[x] >= 0
    ensures home[x] == -1 && Moved(vals, was, from[x := -1], home[x := slot(vals[x], size)], size, slot)
  {
  }

  lemma MovedAll(vals: seq<string>, was: seq<int>, from: seq<int>, home: seq<int>, size: nat, slot: Slot)
    requires Moved(vals, was, from, home, size, slot) && forall x :: 0 <= x < |from| ==> from[x] == -1
    ensures forall x :: 0 <= x < |vals| ==>
              (was[x] >= 0 <==> home[x] >= 0) && (home[x] >= 0 ==> home[x] == slot(vals[x], size))
  {
  }

  class StringTable {
    const slot: Slot
    /** Bucket heads; -1 is null. */
    var strings: seq<int>
    var slotUsed: nat
    /** _val and _next of every string object ever allocated. */
    var vals: seq<string>
    var next: seq<int>

    ghost var lists: seq<seq<nat>>
    /** The bucket each object is in; -1 once it is freed. */
    ghost var home: seq<int>
    /** The live object of each interned content. */
    ghost var intern: map<string, nat>

    ghost predicate Linked()
      reads this
    {
      && |vals| == |next| == |home| && |strings| == |lists| > 0
      && AllListed(next, strings, lists)
      && Placed(lists, home)
    }

    ghost predicate Sound()
      reads this
    {
      Linked() && Interned(vals, home, intern, |strings|, slot) && slotUsed == |intern|
    }

    /** There are never more strings than buckets. */
    ghost predicate Valid()
      reads this
    {
      Sound() && |intern| <= |strings|
    }

    ghost predicate OnChain(x: nat)
      requires |home| == |vals| && x < |vals|
      reads this
    {
      home[x] >= 0
    }

    constructor (slot: Slot)
      ensures Valid() && intern == map[] && this.slot == slot && |strings| == 4
    {
      this.slot := slot;
      strings, slotUsed, vals, next := seq(4, _ => -1), 0, [], [];
      lists, home, intern := seq(4, _ => []), [], map[];
      new;
      NoLists([], 4, 0);
    }

    /** The bucket walk of Add; -1 when the content is not interned. */
    method Find(news: string) returns (s: int)
      requires Linked() && Interned(vals, home, intern, |strings|, slot)
      ensures s == if news in intern then intern[news] else -1
    {
      var h := slot(news, |strings|);
      s := strings[h];
      ghost var l, k := lists[h], 0;
      assert Listed(next, strings[h], l);
      while s != -1
        invariant 0 <= k <= |l| && s == Nth(l, k)
        invariant news in intern ==> intern[news] in l[k..]
        decreases |l| - k
      {
        assert home[l[k]] == h;
        if vals[s] == news {
          return;
        }
        assert next[l[k]] == Nth(l, k + 1);
        s := next[s];
        k := k + 1;
      }
    }

    /** The one live object for this content: the one there is, or a new one. */
    method Add(news: string) returns (id: nat)
      requires Valid()
      modifies this
      ensures Valid() && news in intern && id == intern[news]
      ensures intern == old(intern)[news := id] && (news in old(intern) ==> id == old(intern)[news])
      ensures |vals| >= old(|vals|) && vals[..old(|vals|)] == old(vals)
      ensures |strings| == if |intern| > old(|strings|) then old(|strings|) * 2 else old(|strings|)
    {
      hide AllListed, Placed, Interned;
      var s := Find(news);
      if s != -1 {
        return s;
      }
      id := |vals|;
      InternNew(vals, home, intern, |strings|, slot, news);
      var h := slot(news, |strings|);
      GrowColumns(next, strings, lists, home, strings[h]);
      assert (next + [strings[h]])[id := strings[h]] == next + [strings[h]];
      PushListed(next + [strings[h]], strings, lists, home + [-1], h, id);
      PushPlaced(lists, home + [-1], h, id);
      vals, next := vals + [news], next + [strings[h]];
      lists, home := lists[h := [id] + lists[h]], (home + [-1])[id := h];
      strings := strings[h := id];
      intern := intern[news := id];
      slotUsed := slotUsed + 1;
      if slotUsed > |strings| {
        Resize(|strings| * 2);
      }
    }

    /** The bucket walk of Remove: the object before `bs`, and the place of `bs` in its bucket. */
    method FindPrev(bs: nat) returns (prev: int, ghost k: nat)
      requires Linked() && bs < |vals| && home[bs] == slot(vals[bs], |strings|)
      ensures var l := lists[home[bs]]; k < |l| && l[k] == bs && prev == Nth(l, k - 1)
    {
      var h := slot(vals[bs], |strings|);
      ghost var l := lists[h];
      assert Listed(next, strings[h], l) && bs in l;
      var s := strings[h];
      prev, k := -1, 0;
      while s != bs
        invariant 0 <= k < |l| && s == Nth(l, k) && prev == Nth(l, k - 1) && bs in l[k..]
        decreases |l| - k
      {
        assert next[l[k]] == Nth(l, k + 1);
        prev := s;
        s := next[s];
        k := k + 1;
      }
    }

    /** Takes a live object out of its bucket. */
    method Remove(bs: nat)
      requires Valid() && bs < |vals| && OnChain(bs)
      modifies this
      ensures Valid() && vals == old(vals) && intern == old(intern) - {old(vals)[bs]}
      ensures |strings| == old(|strings|)
    {
      hide AllListed, Placed, Interned;
      var h := slot(vals[bs], |strings|);
      InternGone(vals, home, intern, |strings|, slot, bs);
      var prev;
      ghost var k;
      prev, k := FindPrev(bs);
      InBucket(h);
      UnlinkListed(next, strings, lists, home, h, k);
      UnlinkPlaced(lists, home, h, k);
      ghost var l, content := lists[h], vals[bs];
      if prev != -1 {
        next := next[prev := next[bs]];
      } else {
        strings := strings[h := next[bs]];
      }
      lists, home := lists[h := Without(l, k)], home[bs := -1];
      intern := intern - {content};
      slotUsed := slotUsed - 1;
    }

    lemma InBucket(h: nat)
      requires Linked() && h < |strings|
      ensures |lists| == |strings| && Distinct(lists[h]) && forall i :: 0 <= i < |lists[h]| ==> lists[h][i] < |next|
    {
      assert Listed(next, strings[h], lists[h]);
    }

    /** Rehash: every object is moved, in place, to the bucket of its hash in a table of the new size. */
    method Resize(size: nat)
      requires Sound() && size > 0
      modifies `strings, `next, `lists, `home
      ensures Sound() && |strings| == size
    {
      hide AllListed, Placed, Interned, Moved;
      var oldtable := strings;
      ghost var heads, todo, from := strings, lists, home;
      strings := seq(size, _ => -1);
      lists, home := seq(size, _ => []), seq(|vals|, _ => -1);
      NoLists(next, size, |vals|);
      MovedNone(vals, from, home, size, slot);
      var i := 0;
      while i < |oldtable|
        invariant 0 <= i <= |oldtable| == |heads| == |todo| && Moving(heads, todo, from, old(home), size)
        invariant forall j :: i <= j < |oldtable| ==> heads[j] == oldtable[j]
        invariant forall j :: 0 <= j < i ==> todo[j] == []
      {
        heads, todo, from := MoveBucket(oldtable[i], heads, todo, from, old(home), size, i);
        i := i + 1;
      }
      NoneLeft(todo, from);
      MovedAll(vals, old(home), from, home, size, slot);
      InternMoved(vals, old(home), home, intern, |oldtable|, size, slot);
    }

    /** One old bucket is emptied (lines 660 to 667). */
    method MoveBucket(head: int, ghost heads: seq<int>, ghost todo: seq<seq<nat>>, ghost from: seq<int>,
                      ghost was: seq<int>,
                      size: nat, ghost i: nat)
      returns (ghost heads': seq<int>, ghost todo': seq<seq<nat>>, ghost from': seq<int>)
      requires Moving(heads, todo, from, was, size) && i < |todo| && head == heads[i]
      modifies `strings, `next, `lists, `home
      ensures |todo'| == |todo| && todo'[i] == [] && (forall j :: 0 <= j < |todo| && j != i ==> todo'[j] == todo[j])
      ensures Moving(heads', todo', from', was, size)
      ensures forall j :: 0 <= j < |todo| && j != i ==> heads'[j] == heads[j]
    {
      hide AllListed, Placed, Without, Moved;
      var p := head;
      heads', todo', from' := heads, todo, from;
      HeadOf(heads, todo, i);
      while p != -1
        invariant Moving(heads', todo', from', was, size) && |heads'| == |heads| == |todo| == |todo'|
        invariant p == heads'[i] == Nth(todo'[i], 0)
        invariant forall j :: 0 <= j < |todo| && j != i ==> heads'[j] == heads[j] && todo'[j] == todo[j]
        decreases |todo'[i]|
      {
        HeadNode(heads', todo', from', i);
        p, heads', todo', from' := MoveFront(p, heads', todo', from', was, size, i);
        HeadOf(heads', todo', i);
      }
    }

    /** One object changes buckets (lines 662 to 666). */
    method MoveFront(p: nat, ghost heads: seq<int>, ghost todo: seq<seq<nat>>, ghost from: seq<int>,
                     ghost was: seq<int>,
                     size: nat, ghost i: nat)
      returns (nx: int, ghost heads': seq<int>, ghost todo': seq<seq<nat>>, ghost from': seq<int>)
      requires Moving(heads, todo, from, was, size) && i < |todo| && |todo[i]| > 0 && p == todo[i][0] && p < |next|
      modifies `strings, `next, `lists, `home
      ensures todo' == todo[i := Without(todo[i], 0)] && heads' == heads[i := nx]
      ensures Moving(heads', todo', from', was, size)
    {
      hide AllListed, Placed, Moved;
      HeadNode(heads, todo, from, i);
      MovedOne(vals, was, from, home, size, slot, p);
      UnlinkListed(next, heads, todo, from, i, 0);
      UnlinkPlaced(todo, from, i, 0);
      nx := next[p];
      heads', todo', from' := heads[i := nx], todo[i := Without(todo[i], 0)], from[p := -1];
      var h := slot(vals[p], size);
      RelinkOther(next, heads', todo', from', p, strings[h]);
      PushListed(next, strings, lists, home, h, p);
      PushPlaced(lists, home, h, p);
      next := next[p := strings[h]];
      lists, home := lists[h := [p] + lists[h]], home[p := h];
      strings := strings[h := p];
    }

    /** Mid-rehash: what is still on the old buckets and what is on the new ones make up the live objects. */
    ghost predicate Moving(heads: seq<int>, todo: seq<seq<nat>>, from: seq<int>, was: seq<int>, size: nat)
      reads this
    {
      && |vals| == |next| == |home| == |from| == |was| && |strings| == |lists| == size > 0 && |heads| == |todo|
      && AllListed(next, heads, todo) && Placed(todo, from)
      && AllListed(next, strings, lists) && Placed(lists, home)
      && Moved(vals, was, from, home, size, slot)
    }

    lemma HeadOf(heads: seq<int>, todo: seq<seq<nat>>, i: nat)
      requires AllListed(next, heads, todo) && i < |todo|
      ensures heads[i] == Nth(todo[i], 0)
    {
      assert Listed(next, heads[i], todo[i]);
    }

    lemma HeadNode(heads: seq<int>, todo: seq<seq<nat>>, from: seq<int>, i: nat)
      requires AllListed(next, heads, todo) && Placed(todo, from) && i < |todo| && |todo[i]| > 0 && |next| == |from|
      ensures heads[i] == todo[i][0] && todo[i][0] < |next| && from[todo[i][0]] == i
    {
      assert Listed(next, heads[i], todo[i]);
    }

    lemma NoneLeft(todo: seq<seq<nat>>, from: seq<int>)
      requires Placed(todo, from) && forall j :: 0 <= j < |todo| ==> todo[j] == []
      ensures forall x :: 0 <= x < |from| ==> from[x] == -1
    {
      forall x | 0 <= x < |from| ensures from[x] == -1 {
        if from[x] >= 0 { assert false; }
      }
    }

    /** Among live strings, being the same object and having the same content are the same thing. */
    lemma PointerIsContent(x: nat, y: nat)
      requires Valid() && x < |vals| && y < |vals| && OnChain(x) && OnChain(y)
      ensures x == y <==> vals[x] == vals[y]
    {
    }
  }
}
