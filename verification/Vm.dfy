/** The parts of SQVM that captured variables depend on: the value stack, call frames, and the list of open
    outers, each of which points at a stack slot until it is closed. */
module Vms {
  import opened Objects
  import opened Seqs

  const STACK_GROW_THRESHOLD := 512
  const MIN_STACK_OVERHEAD := 15
  const MAX_STACK_SIZE := 100000

  /** _valptr: an address inside the stack buffer, or the outer's own _value. */
  datatype Ptr = OnStack(address: int) | Own

  datatype Outer = Outer(ptr: Ptr, idx: int, value: Obj, next: int)

  datatype CallInfo = CallInfo(prevBase: int, prevTop: int, ncalls: int, traps: nat)

  datatype Trap = Trap(base: int, size: int, ip: int, target: int)

  // ---------- the open list as a value ----------

  /** `head` and the next links run through exactly the outers `open`. */
  ghost predicate OpenLinks(outers: seq<Outer>, head: int, open: seq<nat>) {
    && head == Nth(open, 0)
    && (forall i :: 0 <= i < |open| ==> open[i] < |outers|)
    && (forall i {:trigger outers[open[i]].next} :: 0 <= i < |open| ==> outers[open[i]].next == Nth(open, i + 1))
  }

  /** Open outers point at their slot of the current buffer. */
  ghost predicate InSlots(outers: seq<Outer>, open: seq<nat>, addr: int, size: nat) {
    && (forall i :: 0 <= i < |open| ==> open[i] < |outers|)
    && (forall i {:trigger outers[open[i]].ptr} {:trigger outers[open[i]].idx} :: 0 <= i < |open| ==>
          outers[open[i]].ptr == OnStack(addr + outers[open[i]].idx) && 0 <= outers[open[i]].idx < size)
  }

  /** Slots descend strictly along the list, so each has at most one outer. */
  ghost predicate Descends(outers: seq<Outer>, open: seq<nat>) {
    && (forall i :: 0 <= i < |open| ==> open[i] < |outers|)
    && (forall i, j {:trigger outers[open[i]].idx, outers[open[j]].idx} :: 0 <= i < j < |open| ==>
          outers[open[i]].idx > outers[open[j]].idx)
  }

  /** Outers off the list own their value. */
  ghost predicate Covers(outers: seq<Outer>, open: seq<nat>) {
    forall o :: 0 <= o < |outers| && outers[o].ptr.OnStack? ==> o in open
  }

  ghost predicate OpenList(outers: seq<Outer>, head: int, open: seq<nat>, addr: int, size: nat) {
    OpenLinks(outers, head, open) && InSlots(outers, open, addr, size) && Descends(outers, open) && Covers(outers, open)
  }

  /** What a closure sees through outer `o`. */
  ghost function Deref(outers: seq<Outer>, stack: seq<Obj>, addr: int, o: nat): (v: Obj)
    requires o < |outers|
  {
    match outers[o].ptr
    case Own => outers[o].value
    case OnStack(a) => if 0 <= a - addr < |stack| then stack[a - addr] else Null
  }

  // ---------- inserting ----------

  function InsertAt(open: seq<nat>, k: nat, id: nat): (r: seq<nat>)
    requires k <= |open|
    ensures |r| == |open| + 1 && r[k] == id
    ensures forall i :: 0 <= i < k ==> r[i] == open[i]
    ensures forall i :: k < i < |r| ==> r[i] == open[i - 1]
  {
    open[..k] + [id] + open[k..]
  }

  /** A new outer `rec` was linked in at place `k`: the outer before it, if any, now leads to it. */
  ghost predicate Inserted(outers: seq<Outer>, open: seq<nat>, k: nat, rec: Outer, outers': seq<Outer>) {
    && k <= |open| && |outers'| == |outers| + 1 && outers'[|outers|] == rec
    && (forall o :: 0 <= o < |outers| && (k == 0 || o != open[k - 1]) ==> outers'[o] == outers[o])
    && (k > 0 ==> open[k - 1] < |outers| && outers'[open[k - 1]] == outers[open[k - 1]].(next := |outers|))
  }

  lemma InsertLinks(outers: seq<Outer>, head: int, open: seq<nat>, k: nat, rec: Outer, outers': seq<Outer>)
    requires OpenLinks(outers, head, open) && Descends(outers, open) && Inserted(outers, open, k, rec, outers')
    requires rec.next == Nth(open, k)
    ensures OpenLinks(outers', if k == 0 then |outers| else head, InsertAt(open, k, |outers|))
  {
    hide InsertAt;
    var open' := InsertAt(open, k, |outers|);
    forall i | 0 <= i < |open'| ensures open'[i] < |outers'| && outers'[open'[i]].next == Nth(open', i + 1) {
      if i != k {
        var o := if i < k then i else i - 1;
        assert outers[open[o]].next == Nth(open, o + 1);
        assert k > 0 && o != k - 1 ==> outers[open[o]].idx != outers[open[k - 1]].idx;
      }
    }
  }

  /** The slot of the `i`th member after the insertion. */
  lemma InsertedSlot(outers: seq<Outer>, open: seq<nat>, k: nat, rec: Outer, outers': seq<Outer>, i: nat)
    requires Inserted(outers, open, k, rec, outers') && i <= |open|
    requires forall i :: 0 <= i < |open| ==> open[i] < |outers|
    ensures var o := InsertAt(open, k, |outers|)[i];
            && o < |outers'|
            && (i == k ==> outers'[o] == rec)
            && (i != k ==>
                  var x := outers[open[if i < k then i else i - 1]];
                  outers'[o].idx == x.idx && outers'[o].ptr == x.ptr)
  {
  }

  lemma InsertSlots(outers: seq<Outer>, open: seq<nat>, addr: int, size: nat, k: nat, rec: Outer, outers': seq<Outer>)
    requires k <= |open| && InSlots(outers, open, addr, size) && Inserted(outers, open, k, rec, outers')
    requires rec.ptr == OnStack(addr + rec.idx) && 0 <= rec.idx < size
    ensures InSlots(outers', InsertAt(open, k, |outers|), addr, size)
  {
    hide InsertAt, Inserted;
    forall i | 0 <= i <= |open|
      ensures var o := InsertAt(open, k, |outers|)[i];
              o < |outers'| && outers'[o].ptr == OnStack(addr + outers'[o].idx) && 0 <= outers'[o].idx < size
    {
      InsertedSlot(outers, open, k, rec, outers', i);
    }
  }

  lemma InsertDescends(outers: seq<Outer>, open: seq<nat>, k: nat, rec: Outer, outers': seq<Outer>)
    requires k <= |open| && Descends(outers, open) && Inserted(outers, open, k, rec, outers')
    requires forall i :: 0 <= i < k ==> outers[open[i]].idx > rec.idx
    requires k < |open| ==> outers[open[k]].idx < rec.idx
    ensures Descends(outers', InsertAt(open, k, |outers|))
  {
    hide InsertAt, Inserted;
    var open' := InsertAt(open, k, |outers|);
    forall i | 0 <= i <= |open| ensures open'[i] < |outers'| {
      InsertedSlot(outers, open, k, rec, outers', i);
    }
    forall i, j | 0 <= i < j < |open'| ensures outers'[open'[i]].idx > outers'[open'[j]].idx {
      InsertedSlot(outers, open, k, rec, outers', i);
      InsertedSlot(outers, open, k, rec, outers', j);
      assert k < |open| && j > k + 1 ==> outers[open[k]].idx > outers[open[j - 1]].idx;
    }
  }

  lemma InsertCovers(outers: seq<Outer>, open: seq<nat>, k: nat, rec: Outer, outers': seq<Outer>)
    requires Covers(outers, open) && Inserted(outers, open, k, rec, outers')
    ensures Covers(outers', InsertAt(open, k, |outers|))
    ensures forall o :: o in open ==> o in InsertAt(open, k, |outers|)
  {
    var open' := InsertAt(open, k, |outers|);
    forall o | o in open ensures o in open' {
      var i :| 0 <= i < |open| && open[i] == o;
      assert open'[if i < k then i else i + 1] == o;
    }
    assert open'[k] == |outers|;
  }

  /** The search stopped before the first smaller slot, so no open outer has this one. */
  lemma NotOpenYet(outers: seq<Outer>, open: seq<nat>, k: nat, slot: nat)
    requires Descends(outers, open) && k <= |open|
    requires forall i :: 0 <= i < k ==> outers[open[i]].idx > slot
    requires k < |open| ==> outers[open[k]].idx < slot
    ensures forall o :: o in open && o < |outers| ==> outers[o].idx != slot
  {
    forall o | o in open && o < |outers| ensures outers[o].idx != slot {
      var i :| 0 <= i < |open| && open[i] == o;
      assert k < i ==> outers[open[k]].idx > outers[open[i]].idx;
    }
  }

  // ---------- closing ----------

  /** Closing outer `p`: it takes a copy of its slot. */
  function Closed(outers: seq<Outer>, p: nat, v: Obj): (r: seq<Outer>)
    requires p < |outers|
  {
    outers[p := outers[p].(value := v, ptr := Own)]
  }

  /** The first of a strictly descending list is not on the rest. */
  lemma FirstIsApart(outers: seq<Outer>, open: seq<nat>)
    requires Descends(outers, open) && open != []
    ensures forall i :: 0 <= i < |open[1..]| ==> open[1..][i] != open[0] && open[1..][i] < |outers|
  {
    forall i | 0 < i < |open| ensures open[i] != open[0] {
      assert outers[open[0]].idx > outers[open[i]].idx;
    }
  }

  lemma CloseLinks(outers: seq<Outer>, head: int, open: seq<nat>, v: Obj)
    requires OpenLinks(outers, head, open) && Descends(outers, open) && open != []
    ensures OpenLinks(Closed(outers, open[0], v), outers[open[0]].next, open[1..])
  {
    FirstIsApart(outers, open);
    var rest, outers' := open[1..], Closed(outers, open[0], v);
    assert outers[open[0]].next == Nth(open, 1);
    forall i | 0 <= i < |rest| ensures outers'[rest[i]].next == Nth(rest, i + 1) {
      assert outers[open[i + 1]].next == Nth(open, i + 2);
    }
  }

  lemma CloseSlots(outers: seq<Outer>, open: seq<nat>, addr: int, size: nat, v: Obj)
    requires InSlots(outers, open, addr, size) && Descends(outers, open) && open != []
    ensures InSlots(Closed(outers, open[0], v), open[1..], addr, size)
  {
    FirstIsApart(outers, open);
    var rest, outers' := open[1..], Closed(outers, open[0], v);
    forall i | 0 <= i < |rest|
      ensures outers'[rest[i]].ptr == OnStack(addr + outers'[rest[i]].idx) && 0 <= outers'[rest[i]].idx < size
    {
      assert outers[open[i + 1]].ptr == OnStack(addr + outers[open[i + 1]].idx);
    }
  }

  lemma CloseRest(outers: seq<Outer>, open: seq<nat>, v: Obj)
    requires Descends(outers, open) && Covers(outers, open) && open != []
    ensures Descends(Closed(outers, open[0], v), open[1..]) && Covers(Closed(outers, open[0], v), open[1..])
  {
    FirstIsApart(outers, open);
    var rest, outers' := open[1..], Closed(outers, open[0], v);
    forall o | 0 <= o < |outers'| && outers'[o].ptr.OnStack? ensures o in rest {
      assert o in open;
    }
    forall i, j | 0 <= i < j < |rest| ensures outers'[rest[i]].idx > outers'[rest[j]].idx {
      assert outers[open[i + 1]].idx > outers[open[j + 1]].idx;
    }
  }

  lemma CloseList(outers: seq<Outer>, head: int, open: seq<nat>, addr: int, size: nat, v: Obj)
    requires OpenList(outers, head, open, addr, size) && open != []
    ensures open[0] < |outers|
    ensures OpenList(Closed(outers, open[0], v), outers[open[0]].next, open[1..], addr, size)
  {
    CloseLinks(outers, head, open, v);
    CloseSlots(outers, open, addr, size, v);
    CloseRest(outers, open, v);
  }

  /** With the first of a descending list below `level`, all of it is. */
  lemma AllBelow(outers: seq<Outer>, open: seq<nat>, level: nat)
    requires Descends(outers, open) && Covers(outers, open)
    requires open != [] ==> outers[open[0]].idx < level
    ensures forall o :: 0 <= o < |outers| && outers[o].ptr.OnStack? ==> outers[o].idx < level
  {
    forall o | 0 <= o < |outers| && outers[o].ptr.OnStack? ensures outers[o].idx < level {
      var i :| 0 <= i < |open| && open[i] == o;
      assert i > 0 ==> outers[open[0]].idx > outers[open[i]].idx;
    }
  }

  // ---------- relocating ----------

  ghost function Relocated(x: Outer, done: seq<nat>, o: nat, addr: int): (r: Outer) {
    if o in done then x.(ptr := OnStack(addr + x.idx)) else x
  }

  ghost predicate AllRelocated(was: seq<Outer>, outers: seq<Outer>, done: seq<nat>, addr: int) {
    |outers| == |was| && forall o :: 0 <= o < |was| ==> outers[o] == Relocated(was[o], done, o, addr)
  }

  lemma RelocateList(was: seq<Outer>, outers: seq<Outer>, head: int, open: seq<nat>, a: int, addr: int, size: nat,
                     size': nat)
    requires OpenList(was, head, open, a, size) && AllRelocated(was, outers, open, addr) && size <= size'
    ensures OpenList(outers, head, open, addr, size')
  {
    forall i | 0 <= i < |open| ensures outers[open[i]] == was[open[i]].(ptr := OnStack(addr + was[open[i]].idx)) {
      assert open[i] in open;
    }
    forall i | 0 <= i < |open| ensures outers[open[i]].next == Nth(open, i + 1) && 0 <= outers[open[i]].idx < size' {
      assert was[open[i]].next == Nth(open, i + 1) && 0 <= was[open[i]].idx < size;
    }
    forall i, j | 0 <= i < j < |open| ensures outers[open[i]].idx > outers[open[j]].idx {
      assert was[open[i]].idx > was[open[j]].idx;
    }
  }

  lemma RelocateReads(was: seq<Outer>, outers: seq<Outer>, open: seq<nat>, a: int, addr: int, s: seq<Obj>,
                      stack: seq<Obj>, o: nat)
    requires InSlots(was, open, a, |s|) && Covers(was, open) && AllRelocated(was, outers, open, addr) && o < |was|
    requires |s| <= |stack| && stack[..|s|] == s
    ensures Deref(outers, stack, addr, o) == Deref(was, s, a, o)
    ensures outers[o].ptr.OnStack? == was[o].ptr.OnStack? && outers[o].idx == was[o].idx
  {
    if o in open {
      var i :| 0 <= i < |open| && open[i] == o;
      assert was[open[i]].ptr == OnStack(a + was[open[i]].idx);
      assert stack[was[o].idx] == stack[..|s|][was[o].idx];
    }
  }

  // ---------- the machine ----------

  class Vm {
    var stack: seq<Obj>
    /** Where the stack buffer lies; a resize moves it. */
    var addr: nat
    var stackbase: nat
    var top: nat
    var calls: seq<CallInfo>
    var etraps: seq<Trap>
    var metamethodCalls: nat
    var outers: seq<Outer>
    var openouters: int

    ghost var open: seq<nat>

    ghost predicate Valid()
      reads this
    {
      OpenList(outers, openouters, open, addr, |stack|)
    }

    /** What a closure reads through outer `o` now. */
    ghost function Read(o: nat): (v: Obj)
      requires o < |outers|
      reads this
    {
      Deref(outers, stack, addr, o)
    }

    /** The list search of FindOuter: the outer open at `slot` or the place to insert one, with the outer
        before that place (-1 for the list head). */
    method Search(slot: nat) returns (found: bool, p: int, pp: int, ghost k: nat)
      requires Valid()
      ensures k <= |open| && p == Nth(open, k) && pp == Nth(open, k - 1)
      ensures found ==> k < |open| && 0 <= p < |outers| && outers[p].idx == slot
      ensures !found ==> forall i :: 0 <= i < k ==> open[i] < |outers| && outers[open[i]].idx > slot
      ensures !found && k < |open| ==> open[k] < |outers| && outers[open[k]].idx < slot
    {
      pp, p, k := -1, openouters, 0;
      while p != -1 && outers[p].ptr.address >= addr + slot
        invariant 0 <= k <= |open| && p == Nth(open, k) && pp == Nth(open, k - 1)
        invariant forall i :: 0 <= i < k ==> outers[open[i]].idx > slot
        invariant k < |open| ==> outers[open[k]].ptr == OnStack(addr + outers[open[k]].idx)
        decreases |open| - k
      {
        if outers[p].ptr.address == addr + slot {
          return true, p, pp, k;
        }
        assert outers[open[k]].next == Nth(open, k + 1);
        assert k + 1 < |open| ==> outers[open[k + 1]].ptr == OnStack(addr + outers[open[k + 1]].idx);
        pp, p, k := p, outers[p].next, k + 1;
      }
      found := false;
    }

    /** Capture of a stack slot: the outer already open there, or a new one linked in at its place.  So all
        captures of a slot share one outer as long as it is open. */
    method FindOuter(slot: nat) returns (target: nat)
      requires Valid() && slot < |stack|
      modifies `outers, `openouters, `open
      ensures Valid() && target < |outers| && outers[target].ptr == OnStack(addr + slot) && Read(target) == stack[slot]
      ensures |outers| >= old(|outers|) && forall o :: 0 <= o < old(|outers|) ==> Read(o) == old(Read(o))
      ensures forall o :: 0 <= o < old(|outers|) ==> outers[o].ptr == old(outers[o].ptr)
      ensures forall o :: 0 <= o < old(|outers|) && old(outers[o].ptr) == OnStack(addr + slot) ==>
                target == o && outers == old(outers)
      ensures target < old(|outers|) ==> outers == old(outers)
    {
      hide OpenLinks, InSlots, Descends, Covers;
      var found, p, pp;
      ghost var k;
      found, p, pp, k := Search(slot);
      if found {
        assert p == open[k];
        OneOuterPerSlot(p, slot);
        return p;
      }
      NotOpenYet(outers, open, k, slot);
      Unopened(slot);
      target := LinkOuter(slot, p, pp, k);
    }

    /** SQOuter::Create and its insertion between `pp` and `p` (lines 2565 to 2569). */
    method LinkOuter(slot: nat, p: int, pp: int, ghost k: nat) returns (target: nat)
      requires Valid() && slot < |stack| && k <= |open| && p == Nth(open, k) && pp == Nth(open, k - 1)
      requires forall i :: 0 <= i < k ==> open[i] < |outers| && outers[open[i]].idx > slot
      requires k < |open| ==> open[k] < |outers| && outers[open[k]].idx < slot
      modifies `outers, `openouters, `open
      ensures Valid() && target == old(|outers|) && |outers| == target + 1
      ensures outers[target].ptr == OnStack(addr + slot) && Read(target) == stack[slot]
      ensures forall o :: 0 <= o < target ==> Read(o) == old(Read(o)) && outers[o].ptr == old(outers[o].ptr)
    {
      hide OpenLinks, InSlots, Descends, Covers, InsertAt;
      target := |outers|;
      ghost var was := outers;
      var rec := Outer(OnStack(addr + slot), slot, Null, p);
      if pp == -1 {
        outers := outers + [rec];
      } else {
        outers := outers[pp := outers[pp].(next := target)] + [rec];
      }
      assert Inserted(was, open, k, rec, outers);
      InsertLinks(was, openouters, open, k, rec, outers);
      InsertSlots(was, open, addr, |stack|, k, rec, outers);
      InsertDescends(was, open, k, rec, outers);
      InsertCovers(was, open, k, rec, outers);
      if pp == -1 {
        openouters := target;
      }
      open := InsertAt(open, k, target);
    }

    /** An open outer's slot determines it. */
    lemma OneOuterPerSlot(p: nat, slot: nat)
      requires Valid() && p < |outers| && p in open && outers[p].idx == slot && slot < |stack|
      ensures outers[p].ptr == OnStack(addr + slot) && Read(p) == stack[slot]
      ensures forall o :: 0 <= o < |outers| && outers[o].ptr == OnStack(addr + slot) ==> o == p
    {
      var i :| 0 <= i < |open| && open[i] == p;
      assert outers[open[i]].ptr == OnStack(addr + outers[open[i]].idx);
      forall o | 0 <= o < |outers| && outers[o].ptr == OnStack(addr + slot) ensures o == p {
        var j :| 0 <= j < |open| && open[j] == o;
        assert outers[open[j]].ptr == OnStack(addr + outers[open[j]].idx);
      }
    }

    lemma Unopened(slot: nat)
      requires Valid() && forall o :: o in open && o < |outers| ==> outers[o].idx != slot
      ensures forall o :: 0 <= o < |outers| ==> outers[o].ptr != OnStack(addr + slot)
    {
      forall o | 0 <= o < |outers| ensures outers[o].ptr != OnStack(addr + slot) {
        if outers[o].ptr.OnStack? {
          var j :| 0 <= j < |open| && open[j] == o;
          assert outers[open[j]].ptr == OnStack(addr + outers[open[j]].idx);
        }
      }
    }

    /** The first open outer, as the closing loop sees it. */
    lemma Head()
      requires Valid()
      ensures openouters == -1 <==> open == []
      ensures openouters != -1 ==>
                && openouters == open[0] && 0 <= openouters < |outers|
                && 0 <= outers[openouters].idx < |stack|
                && outers[openouters].ptr == OnStack(addr + outers[openouters].idx)
                && Read(openouters) == stack[outers[openouters].idx]
    {
      if open != [] {
        assert outers[open[0]].ptr == OnStack(addr + outers[open[0]].idx);
      }
    }

    /** Closes exactly the outers at or above `level`, and changes what no closure reads. */
    method CloseOuters(level: nat)
      requires Valid()
      modifies `outers, `openouters, `open
      ensures Valid() && |outers| == old(|outers|)
      ensures forall o :: 0 <= o < |outers| ==> Read(o) == old(Read(o)) && outers[o].idx == old(outers[o].idx)
      ensures forall o :: 0 <= o < |outers| ==>
                (outers[o].ptr.OnStack? <==> old(outers[o].ptr.OnStack? && outers[o].idx < level))
    {
      hide OpenLinks, InSlots, Descends, Covers;
      Head();
      while openouters != -1 && outers[openouters].ptr.address >= addr + level
        invariant Valid() && |outers| == old(|outers|)
        invariant forall o :: 0 <= o < |outers| ==> Read(o) == old(Read(o)) && outers[o].idx == old(outers[o].idx)
        invariant forall o :: 0 <= o < |outers| && outers[o].ptr.OnStack? ==> old(outers[o].ptr.OnStack?)
        invariant forall o :: 0 <= o < |outers| && old(outers[o].ptr.OnStack? && outers[o].idx < level) ==>
                    outers[o].ptr.OnStack?
        invariant openouters != -1 ==> open != [] && openouters == open[0] && 0 <= openouters < |outers|
        invariant openouters != -1 ==> outers[openouters].ptr == OnStack(addr + outers[openouters].idx)
        invariant openouters != -1 ==> 0 <= outers[openouters].idx < |stack|
        decreases |open|
      {
        var p := openouters;
        Head();
        ghost var after := Closed(outers, p, Read(p));
        CloseList(outers, openouters, open, addr, |stack|, Read(p));
        outers := outers[p := outers[p].(value := stack[outers[p].ptr.address - addr])];
        outers := outers[p := outers[p].(ptr := Own)];
        assert outers == after;
        openouters := outers[p].next;
        open := open[1..];
        Head();
      }
      Head();
      AllBelow(outers, open, level);
    }

    /** The stack moves to a new buffer and every open outer is pointed at its slot there (lines 2601, 2602). */
    method Resize(newsize: nat, newaddr: nat)
      requires Valid() && newsize >= |stack|
      modifies `stack, `addr, `outers
      ensures Valid() && |stack| == newsize && stack == old(stack) + seq(newsize - old(|stack|), _ => Null)
      ensures addr == newaddr && |outers| == old(|outers|)
      ensures forall o :: 0 <= o < |outers| ==> Read(o) == old(Read(o))
      ensures forall o :: 0 <= o < |outers| ==>
                outers[o].ptr.OnStack? == old(outers[o].ptr.OnStack?) && outers[o].idx == old(outers[o].idx)
    {
      ghost var s, a, was := stack, addr, outers;
      stack := stack + seq(newsize - |stack|, _ => Null);
      addr := newaddr;
      RelocateOuters();
      RelocateList(was, outers, openouters, open, a, addr, |s|, |stack|);
      forall o | 0 <= o < |outers|
        ensures Deref(outers, stack, addr, o) == Deref(was, s, a, o)
        ensures outers[o].ptr.OnStack? == was[o].ptr.OnStack? && outers[o].idx == was[o].idx
      {
        RelocateReads(was, outers, open, a, addr, s, stack, o);
      }
    }

    method RelocateOuters()
      requires OpenLinks(outers, openouters, open)
      modifies `outers
      ensures AllRelocated(old(outers), outers, open, addr)
    {
      var p := openouters;
      ghost var k, was := 0, outers;
      while p != -1
        invariant 0 <= k <= |open| && p == Nth(open, k)
        invariant AllRelocated(was, outers, open[..k], addr)
        decreases |open| - k
      {
        assert was[open[k]].next == Nth(open, k + 1);
        assert open[..k + 1] == open[..k] + [open[k]];
        outers := outers[p := outers[p].(ptr := OnStack(addr + outers[p].idx))];
        p := outers[p].next;
        k := k + 1;
      }
      assert open[..k] == open;
    }

    /** Assignment through an outer: the slot while it is open, its own value afterwards. */
    method SetOuter(o: nat, v: Obj)
      requires Valid() && o < |outers|
      modifies `outers, `stack
      ensures Valid() && |outers| == old(|outers|) && |stack| == old(|stack|) && Read(o) == v
      ensures forall x :: 0 <= x < |outers| && x != o ==> Read(x) == old(Read(x))
      ensures old(outers[o].ptr.OnStack?) ==> outers == old(outers) && stack == old(stack)[outers[o].idx := v]
      ensures old(outers[o].ptr.Own?) ==> stack == old(stack)
    {
      OpenOuter(o);
      match outers[o].ptr
      case OnStack(a) =>
        stack := stack[a - addr := v];
      case Own =>
        ghost var was := outers;
        outers := outers[o := outers[o].(value := v)];
        SetOwnKeeps(was, openouters, open, addr, |stack|, o, v);
    }

    /** Different outers that are open stand for different slots. */
    lemma OpenOuter(o: nat)
      requires Valid() && o < |outers|
      ensures outers[o].ptr.OnStack? ==> outers[o].ptr == OnStack(addr + outers[o].idx) && 0 <= outers[o].idx < |stack|
      ensures outers[o].ptr.OnStack? ==>
                forall x :: 0 <= x < |outers| && outers[x].ptr == outers[o].ptr ==> x == o
    {
      if outers[o].ptr.OnStack? {
        var i :| 0 <= i < |open| && open[i] == o;
        assert outers[open[i]].ptr == OnStack(addr + outers[open[i]].idx);
        OneOuterPerSlot(o, outers[o].idx);
      }
    }

    // ---------- frames ----------

    /** No overflow: the stack is long enough, or may grow far enough (it may not grow inside a metamethod). */
    predicate Room(newtop: nat)
      reads this
    {
      || newtop + STACK_GROW_THRESHOLD <= |stack|
      || (metamethodCalls == 0 && newtop + STACK_GROW_THRESHOLD * 2 <= MAX_STACK_SIZE)
      || (metamethodCalls != 0 && newtop + MIN_STACK_OVERHEAD <= |stack|)
    }

    /** False exactly on stack overflow; otherwise the frame is entered and, if the stack had to grow, moved to
        `newaddr` without changing what any closure reads. */
    method EnterFrame(newbase: nat, newtop: nat, tailcall: bool, newaddr: nat) returns (ok: bool)
      requires Valid() && (tailcall ==> |calls| > 0)
      modifies this
      ensures Valid() && |outers| == old(|outers|) && stackbase == newbase && top == newtop
      ensures forall o :: 0 <= o < |outers| ==> Read(o) == old(Read(o)) && outers[o].idx == old(outers[o].idx)
      ensures forall o :: 0 <= o < |outers| ==> outers[o].ptr.OnStack? == old(outers[o].ptr.OnStack?)
      ensures !tailcall ==> calls == old(calls) + [CallInfo(newbase - old(stackbase), old(top) - old(stackbase), 1, 0)]
      ensures tailcall ==> var n := |calls| - 1;
                |calls| == old(|calls|) && calls == old(calls)[n := old(calls)[n].(ncalls := old(calls)[n].ncalls + 1)]
      ensures etraps == old(etraps) && metamethodCalls == old(metamethodCalls)
      ensures |stack| >= old(|stack|) && stack[..old(|stack|)] == old(stack)
      ensures forall i :: old(|stack|) <= i < |stack| ==> stack[i] == Null
      ensures |stack| == if ok && metamethodCalls == 0 && newtop + STACK_GROW_THRESHOLD > old(|stack|)
                         then newtop + STACK_GROW_THRESHOLD * 2 else old(|stack|)
      ensures addr == if |stack| == old(|stack|) then old(addr) else newaddr
      ensures ok == old(Room(newtop))
      ensures ok ==> newtop + MIN_STACK_OVERHEAD <= |stack|
      ensures !ok ==> stack == old(stack)
    {
      hide OpenList, Deref;
      if !tailcall {
        calls := calls + [CallInfo(newbase - stackbase, top - stackbase, 1, 0)];
      } else {
        var ci := calls[|calls| - 1];
        calls := calls[|calls| - 1 := ci.(ncalls := ci.ncalls + 1)];
      }
      stackbase, top := newbase, newtop;
      if newtop + STACK_GROW_THRESHOLD > |stack| {
        if metamethodCalls == 0 {
          var newsize := newtop + STACK_GROW_THRESHOLD * 2;
          if newsize > MAX_STACK_SIZE {
            return false;
          }
          Resize(newsize, newaddr);
        } else if newtop + MIN_STACK_OVERHEAD > |stack| {
          return false;
        }
      }
      ok := true;
    }

    /** Back to the caller's frame: outers of the frame are closed and the slots above the caller's top cleared.  Only
        an outer left open between the caller's top and the frame's base, if there is a gap, reads anything else. */
    method LeaveFrame()
      requires Valid() && |calls| > 0 && top < |stack|
      requires var ci := calls[|calls| - 1]; 0 <= stackbase - ci.prevBase && 0 <= stackbase - ci.prevBase + ci.prevTop
      modifies this
      ensures Valid() && |outers| == old(|outers|) && calls == old(calls[..|calls| - 1])
      ensures stackbase == old(stackbase - calls[|calls| - 1].prevBase)
      ensures top == stackbase + old(calls[|calls| - 1].prevTop)
      ensures old(stackbase) <= top ==> forall o :: 0 <= o < |outers| ==> Read(o) == old(Read(o))
      ensures forall o :: 0 <= o < |outers| ==>
                Read(o) == if outers[o].ptr.OnStack? && top <= outers[o].idx <= old(top) then Null else old(Read(o))
      ensures forall o :: 0 <= o < |outers| ==>
                (outers[o].ptr.OnStack? <==> old(outers[o].ptr.OnStack? && outers[o].idx < stackbase))
      ensures |stack| == old(|stack|) && forall i :: 0 <= i < |stack| ==>
                stack[i] == if top <= i <= old(top) then Null else old(stack[i])
      ensures etraps == old(etraps) && addr == old(addr) && metamethodCalls == old(metamethodCalls)
      ensures forall o :: 0 <= o < |outers| ==> outers[o].idx == old(outers[o].idx)
    {
      hide OpenList, Deref;
      var lastTop, lastBase := top, stackbase;
      var ci := calls[|calls| - 1];
      calls := calls[..|calls| - 1];
      stackbase := stackbase - ci.prevBase;
      top := stackbase + ci.prevTop;
      if openouters != -1 {
        CloseOuters(lastBase);
      } else {
        NoneOpen();
      }
      ghost var s := stack;
      forall o | 0 <= o < |outers| ensures Deref(outers, s, addr, o) == old(Deref(outers, stack, addr, o)) {
        assert Read(o) == Deref(outers, s, addr, o);
        assert old(Read(o)) == old(Deref(outers, stack, addr, o));
      }
      ClearDown(lastTop);
      SlotReads(s, stack);
    }

    lemma NoneOpen()
      requires Valid() && openouters == -1
      ensures forall o :: 0 <= o < |outers| ==> outers[o].ptr.Own?
    {
    }

    method ClearDown(last: nat)
      requires last < |stack|
      modifies `stack
      ensures |stack| == old(|stack|)
      ensures forall i :: 0 <= i < |stack| ==> stack[i] == if top <= i <= last then Null else old(stack[i])
    {
      var t: int := last;
      while t >= top
        invariant t <= last && (t >= top - 1 || t == last) && |stack| == old(|stack|)
        invariant forall i :: 0 <= i < |stack| ==> stack[i] == if t < i <= last then Null else old(stack[i])
      {
        stack := stack[t := Null];
        t := t - 1;
      }
    }

    /** Clears the slots of the current frame (sqobject.cpp, lines 143 to 146). */
    method ClearFrame()
      requires stackbase <= top <= |stack|
      modifies `stack
      ensures |stack| == old(|stack|)
      ensures forall i :: 0 <= i < |stack| ==> stack[i] == if stackbase <= i < top then Null else old(stack[i])
    {
      var j := 0;
      while j < top - stackbase
        invariant 0 <= j <= top - stackbase && |stack| == old(|stack|)
        invariant forall i :: 0 <= i < |stack| ==>
                    stack[i] == if stackbase <= i < stackbase + j then Null else old(stack[i])
      {
        stack := stack[stackbase + j := Null];
        j := j + 1;
      }
    }

    /** An open outer reads its slot, a closed one does not depend on the stack. */
    lemma SlotReads(s: seq<Obj>, s': seq<Obj>)
      requires OpenList(outers, openouters, open, addr, |s|) && |s| == |s'|
      ensures forall o :: 0 <= o < |outers| ==>
                if outers[o].ptr.OnStack? then
                  && 0 <= outers[o].idx < |s|
                  && Deref(outers, s, addr, o) == s[outers[o].idx] && Deref(outers, s', addr, o) == s'[outers[o].idx]
                else Deref(outers, s, addr, o) == Deref(outers, s', addr, o)
    {
      forall o | 0 <= o < |outers| && outers[o].ptr.OnStack?
        ensures 0 <= outers[o].idx < |s| && outers[o].ptr == OnStack(addr + outers[o].idx)
      {
        var i :| 0 <= i < |open| && open[i] == o;
        assert outers[open[i]].ptr == OnStack(addr + outers[open[i]].idx);
      }
    }

    /** With every outer at or above `level` closed, what is stored up there is read by none. */
    lemma ClearedUnread(s: seq<Obj>, s': seq<Obj>, level: nat)
      requires OpenList(outers, openouters, open, addr, |s|) && |s| == |s'|
      requires forall i :: 0 <= i < level && i < |s| ==> s[i] == s'[i]
      requires forall o :: 0 <= o < |outers| && outers[o].ptr.OnStack? ==> outers[o].idx < level
      ensures forall o :: 0 <= o < |outers| ==> Deref(outers, s, addr, o) == Deref(outers, s', addr, o)
    {
      forall o | 0 <= o < |outers| ensures Deref(outers, s, addr, o) == Deref(outers, s', addr, o) {
        if outers[o].ptr.OnStack? {
          var i :| 0 <= i < |open| && open[i] == o;
          assert outers[open[i]].ptr == OnStack(addr + outers[open[i]].idx);
        }
      }
    }
  }

  lemma SetOwnKeeps(outers: seq<Outer>, head: int, open: seq<nat>, addr: int, size: nat, o: nat, v: Obj)
    requires OpenList(outers, head, open, addr, size) && o < |outers| && outers[o].ptr.Own?
    ensures OpenList(outers[o := outers[o].(value := v)], head, open, addr, size)
  {
    var outers' := outers[o := outers[o].(value := v)];
    forall i | 0 <= i < |open| ensures outers'[open[i]] == outers[open[i]] {
      assert outers[open[i]].ptr.OnStack?;
    }
    forall i | 0 <= i < |open| ensures outers'[open[i]].next == Nth(open, i + 1) && 0 <= outers'[open[i]].idx < size {
      assert outers[open[i]].next == Nth(open, i + 1) && 0 <= outers[open[i]].idx < size;
    }
    forall i, j | 0 <= i < j < |open| ensures outers'[open[i]].idx > outers'[open[j]].idx {
      assert outers[open[i]].idx > outers[open[j]].idx;
    }
  }
}
