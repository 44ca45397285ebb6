/** SQGenerator: saving a running frame on yield and restoring it, at any later stack base, on resume. */
module Generators {
  import opened Objects
  import opened Vms

  datatype State = Running | Suspended | Dead

  predicate RefCounted(o: Obj) {
    o.Str? || o.Ref?
  }

  /** sqvector::resize: new elements are null. */
  function Resized(s: seq<Obj>, n: nat): (r: seq<Obj>)
    ensures |r| == n
  {
    if n <= |s| then s[..n] else s + seq(n - |s|, _ => Null)
  }

  function Relative(t: Trap, base: int): (r: Trap) {
    t.(base := t.base - base, size := t.size - base)
  }

  function Absolute(t: Trap, base: int): (r: Trap) {
    t.(base := t.base + base, size := t.size + base)
  }

  /** The traps as yield stores them: newest first, relative to the frame. */
  function Packed(traps: seq<Trap>, base: int): (r: seq<Trap>) {
    seq(|traps|, i requires 0 <= i < |traps| => Relative(traps[|traps| - 1 - i], base))
  }

  /** The traps as resume puts them back: oldest first, relative to the new frame. */
  function Unpacked(saved: seq<Trap>, base: int): (r: seq<Trap>) {
    seq(|saved|, i requires 0 <= i < |saved| => Absolute(saved[|saved| - 1 - i], base))
  }

  /** The traps of a frame that moved by `delta`. */
  function Shifted(traps: seq<Trap>, delta: int): (r: seq<Trap>) {
    seq(|traps|, i requires 0 <= i < |traps| =>
      traps[i].(base := traps[i].base + delta, size := traps[i].size + delta))
  }

  /** Order and instruction pointers come back; base and size move with the frame. */
  lemma UnpackPacked(traps: seq<Trap>, was: int, now: int)
    ensures Unpacked(Packed(traps, was), now) == Shifted(traps, now - was)
  {
    var n := |traps|;
    forall i | 0 <= i < n ensures Unpacked(Packed(traps, was), now)[i] == Shifted(traps, now - was)[i] {
      assert Unpacked(Packed(traps, was), now)[i] == Absolute(Packed(traps, was)[n - 1 - i], now);
      assert Packed(traps, was)[n - 1 - i] == Relative(traps[i], was);
    }
  }

  class Generator {
    var state: State
    var stack: seq<Obj>
    /** Slot 0 is held through a weak reference when `this` is reference counted. */
    var weak: bool
    var etraps: seq<Trap>
    var ci: CallInfo

    /** What was yielded: the slots that stay live, the size, the base and the traps of the frame. */
    ghost var live: seq<Obj>
    ghost var size: nat
    ghost var base: nat
    ghost var traps: seq<Trap>

    ghost predicate Valid()
      reads this
    {
      match state
      case Running => etraps == [] && forall n :: 1 <= n < |stack| ==> stack[n] == Null
      case Suspended =>
        && |stack| == size && 0 < |live| <= size && stack == live + seq(size - |live|, _ => Null)
        && weak == RefCounted(live[0]) && etraps == Packed(traps, base) && ci.traps == |traps|
      case Dead => stack == []
    }

    constructor ()
      ensures Valid() && state == Running
    {
      state, stack, weak, etraps, ci := Running, [], false, [], CallInfo(0, 0, 0, 0);
      live, size, base, traps := [], 0, 0, [];
    }

    method Kill()
      modifies this
      ensures state == Dead && Valid() && etraps == old(etraps)
    {
      state := Dead;
      stack := [];
    }

    /** A frame that may yield: _OP_YIELD has closed its outers. */
    predicate Frame(v: Vm, target: nat)
      reads v
    {
      && v.stackbase < v.top <= |v.stack| && target <= v.top - v.stackbase
      && |v.calls| > 0 && v.calls[|v.calls| - 1].traps <= |v.etraps|
      && forall o :: 0 <= o < |v.outers| && v.outers[o].ptr.OnStack? ==> v.outers[o].idx < v.stackbase
    }

    /** Moves the frame of `v` into the generator. */
    method Yield(v: Vm, target: nat) returns (ok: bool)
      requires Valid() && v.Valid() && Frame(v, target)
      modifies this, v`stack, v`etraps
      ensures Valid() && v.Valid() && ok == (old(state) == Running) && state == (if ok then Suspended else old(state))
      ensures !ok ==> v.stack == old(v.stack) && v.etraps == old(v.etraps)
      ensures !ok ==> live == old(live) && size == old(size) && base == old(base) && traps == old(traps)
      ensures ci == if ok then v.calls[|v.calls| - 1] else old(ci)
      ensures ok ==> live == old(v.stack[v.stackbase..v.stackbase + if target == 0 then 1 else target])
      ensures ok ==> size == v.top - v.stackbase && base == v.stackbase
      ensures ok ==> v.etraps + traps == old(v.etraps) && |traps| == v.calls[|v.calls| - 1].traps
      ensures |v.stack| == old(|v.stack|) && forall i :: 0 <= i < |v.stack| ==>
                v.stack[i] == if ok && v.stackbase <= i < v.top then Null else old(v.stack[i])
      ensures forall o :: 0 <= o < |v.outers| ==> v.Read(o) == old(v.Read(o))
    {
      if state == Suspended || state == Dead {
        return false;
      }
      hide Packed, OpenList, Deref, RefCounted;
      SaveFrame(v, target);
      ghost var s := v.stack;
      v.ClearFrame();
      v.ClearedUnread(s, v.stack, v.stackbase);
      SaveCall(v);
      state := Suspended;
      ok := true;
    }

    /** Lines 132 to 142. */
    method SaveFrame(v: Vm, target: nat)
      requires v.stackbase < v.top <= |v.stack| && target <= v.top - v.stackbase
      requires forall n :: 1 <= n < |stack| ==> stack[n] == Null
      modifies `stack, `weak, `live, `size
      ensures live == v.stack[v.stackbase..v.stackbase + if target == 0 then 1 else target]
      ensures |stack| == size == v.top - v.stackbase && stack == live + seq(size - |live|, _ => Null)
      ensures weak == RefCounted(live[0])
    {
      size := v.top - v.stackbase;
      stack := Resized(stack, v.top - v.stackbase);
      weak := RefCounted(v.stack[v.stackbase]);
      stack := stack[0 := v.stack[v.stackbase]];
      SaveSlots(v, target);
      live := v.stack[v.stackbase..v.stackbase + if target == 0 then 1 else target];
      Saved(stack, v.stack, v.stackbase, target);
    }

    /** Lines 140 to 142. */
    method SaveSlots(v: Vm, target: nat)
      requires target <= |stack| && v.stackbase + |stack| <= |v.stack|
      modifies `stack
      ensures |stack| == old(|stack|)
      ensures forall n :: 0 <= n < |stack| ==>
                stack[n] == if 1 <= n < target then v.stack[v.stackbase + n] else old(stack[n])
    {
      var n := 1;
      while n < target
        invariant 1 <= n && (n <= target || target <= 1) && |stack| == old(|stack|)
        invariant forall i :: 0 <= i < |stack| ==>
                    stack[i] == if 1 <= i < n && i < target then v.stack[v.stackbase + i] else old(stack[i])
      {
        stack := stack[n := v.stack[v.stackbase + n]];
        n := n + 1;
      }
    }

    /** Lines 148 to 157. */
    method SaveCall(v: Vm)
      requires etraps == [] && |v.calls| > 0 && v.calls[|v.calls| - 1].traps <= |v.etraps|
      modifies `ci, `traps, `base, `etraps, v`etraps
      ensures ci == v.calls[|v.calls| - 1] && base == v.stackbase
      ensures v.etraps + traps == old(v.etraps) && |traps| == ci.traps && etraps == Packed(traps, base)
    {
      hide Packed;
      ci := v.calls[|v.calls| - 1];
      traps := v.etraps[|v.etraps| - ci.traps..];
      base := v.stackbase;
      PackTraps(v);
    }

    /** Lines 150 to 157. */
    method PackTraps(v: Vm)
      requires etraps == [] && ci.traps <= |v.etraps|
      modifies `etraps, v`etraps
      ensures var kept := |old(v.etraps)| - ci.traps;
              v.etraps == old(v.etraps)[..kept] && etraps == Packed(old(v.etraps)[kept..], v.stackbase)
    {
      ghost var all := v.etraps;
      var i := 0;
      while i < ci.traps
        invariant 0 <= i <= ci.traps && v.etraps == all[..|all| - i]
        invariant |etraps| == i && forall j :: 0 <= j < i ==> etraps[j] == Relative(all[|all| - 1 - j], v.stackbase)
      {
        var t := v.etraps[|v.etraps| - 1];
        v.etraps := v.etraps[..|v.etraps| - 1];
        etraps := etraps + [t.(base := t.base - v.stackbase, size := t.size - v.stackbase)];
        i := i + 1;
      }
    }

    /** Every captured slot that is still open lies below the top. */
    predicate OutersBelow(v: Vm)
      reads v
    {
      forall o :: 0 <= o < |v.outers| && v.outers[o].ptr.OnStack? ==> v.outers[o].idx < v.top
    }

    /** Rebuilds the yielded frame on top of `v`'s stack, whichever machine that is and whatever happened since: its
        live slots are equal, the others null, and its traps in their order, shifted by the displacement of the frame.
        `alive` says whether a weakly held `this` still exists. */
    method Resume(v: Vm, newaddr: nat, alive: bool) returns (ok: bool)
      requires Valid() && v.Valid() && OutersBelow(v)
      modifies this, v
      ensures Valid() && v.Valid() && state == (if ok then Running else old(state))
      ensures ok == old(state == Suspended && v.Room(v.top + |stack|))
      ensures |v.outers| == old(|v.outers|) && forall o :: 0 <= o < |v.outers| ==> v.Read(o) == old(v.Read(o))
      ensures live == old(live) && size == old(size) && base == old(base) && traps == old(traps) && ci == old(ci)
      ensures old(state) != Suspended ==> v.calls == old(v.calls)
      ensures old(state) == Suspended ==>
                v.calls == old(v.calls) + [Entered(old(v.top - v.stackbase), if ok then ci else CallInfo(0, 0, 1, 0))]
      ensures ok ==> v.stackbase == old(v.top) && v.top == v.stackbase + size <= |v.stack| && 0 < |live| <= size
      ensures ok ==> v.stack[v.stackbase] == if RefCounted(live[0]) && !alive then Null else live[0]
      ensures ok ==> v.stack[v.stackbase + 1..v.top] == live[1..] + seq(size - |live|, _ => Null)
      ensures ok ==> v.etraps == old(v.etraps) + Shifted(traps, v.stackbase - base)
      ensures !ok ==> v.stack == old(v.stack) && v.etraps == old(v.etraps)
    {
      if state == Dead || state == Running {
        return false;
      }
      hide Unpacked, Packed, Shifted, OpenList, Deref, RefCounted;
      ok := Reenter(v, newaddr);
      if !ok {
        return;
      }
      ghost var s := v.stack;
      forall o | 0 <= o < |v.outers| ensures Deref(v.outers, s, v.addr, o) == old(Deref(v.outers, v.stack, v.addr, o)) {
        assert v.Read(o) == Deref(v.outers, s, v.addr, o);
        assert old(v.Read(o)) == old(Deref(v.outers, v.stack, v.addr, o));
      }
      RestoreFrame(v, alive);
      v.ClearedUnread(s, v.stack, v.stackbase);
      state := Running;
    }

    /** Lines 170 to 189: the frame and its traps. */
    method Reenter(v: Vm, newaddr: nat) returns (ok: bool)
      requires v.Valid() && OutersBelow(v) && etraps == Packed(traps, base) && ci.traps == |traps|
      modifies `etraps, v
      ensures v.Valid() && ok == old(v.Room(v.top + |stack|))
      ensures |v.outers| == old(|v.outers|) && forall o :: 0 <= o < |v.outers| ==> v.Read(o) == old(v.Read(o))
      ensures forall o :: 0 <= o < |v.outers| && v.outers[o].ptr.OnStack? ==> v.outers[o].idx < old(v.top)
      ensures v.stackbase == old(v.top) && v.top == v.stackbase + |stack|
      ensures ok ==>
                v.top <= |v.stack| && etraps == [] && v.etraps == old(v.etraps) + Shifted(traps, v.stackbase - base)
      ensures v.calls == old(v.calls) + [Entered(old(v.top - v.stackbase), if ok then ci else CallInfo(0, 0, 1, 0))]
      ensures !ok ==> v.stack == old(v.stack) && v.etraps == old(v.etraps) && etraps == old(etraps)
    {
      hide Unpacked, Packed, Shifted, OpenList, Deref;
      var newbase := v.top;
      PackedSize(traps, base);
      ok := v.EnterFrame(v.top, v.top + |stack|, false, newaddr);
      if ok {
        var last := |v.calls| - 1;
        v.calls := v.calls[last := v.calls[last].(ncalls := ci.ncalls, traps := ci.traps)];
        UnpackPacked(traps, base, newbase);
        UnpackTraps(v, newbase);
      }
    }

    /** Lines 190 to 196. */
    method RestoreFrame(v: Vm, alive: bool)
      requires |stack| == size && 0 < |live| <= size && stack == live + seq(size - |live|, _ => Null)
      requires v.stackbase + size <= |v.stack|
      modifies `stack, v`stack
      ensures |stack| == old(|stack|) && forall n :: 1 <= n < |stack| ==> stack[n] == Null
      ensures |v.stack| == old(|v.stack|) && v.stack[v.stackbase] == if weak && !alive then Null else live[0]
      ensures v.stack[v.stackbase + 1..v.stackbase + size] == live[1..] + seq(size - |live|, _ => Null)
      ensures forall i :: 0 <= i < v.stackbase ==> v.stack[i] == old(v.stack[i])
    {
      RestoreSlots(v, if weak && !alive then Null else stack[0]);
      Restored(v.stack, v.stackbase, old(stack), live, size);
    }

    /** Lines 182 to 189. */
    method UnpackTraps(v: Vm, newbase: nat)
      requires ci.traps == |etraps|
      modifies `etraps, v`etraps
      ensures etraps == [] && v.etraps == old(v.etraps) + Unpacked(old(etraps), newbase)
    {
      ghost var all, below := etraps, v.etraps;
      var i := 0;
      while i < ci.traps
        invariant 0 <= i <= |all| == ci.traps && etraps == all[..|all| - i]
        invariant v.etraps == below + Unpacked(all, newbase)[..i]
      {
        var t := etraps[|etraps| - 1];
        etraps := etraps[..|etraps| - 1];
        v.etraps := v.etraps + [t.(base := t.base + newbase, size := t.size + newbase)];
        assert Unpacked(all, newbase)[..i + 1] == Unpacked(all, newbase)[..i] + [Absolute(t, newbase)];
        i := i + 1;
      }
    }

    method RestoreSlots(v: Vm, self: Obj)
      requires |stack| > 0 && v.stackbase + |stack| <= |v.stack|
      modifies `stack, v`stack
      ensures |stack| == old(|stack|) && forall n :: 1 <= n < |stack| ==> stack[n] == Null
      ensures |v.stack| == old(|v.stack|) && v.stack[v.stackbase] == self
      ensures forall n :: 1 <= n < |stack| ==> v.stack[v.stackbase + n] == old(stack[n])
      ensures forall i :: 0 <= i < v.stackbase ==> v.stack[i] == old(v.stack[i])
    {
      v.stack := v.stack[v.stackbase := self];
      var n := 1;
      while n < |stack|
        invariant 1 <= n <= |stack| == old(|stack|) && |v.stack| == old(|v.stack|)
        invariant forall i :: 1 <= i < |stack| ==> stack[i] == if i < n then Null else old(stack[i])
        invariant v.stack[v.stackbase] == self
        invariant forall i :: 1 <= i < n ==> v.stack[v.stackbase + i] == old(stack[i])
        invariant forall i :: 0 <= i < v.stackbase ==> v.stack[i] == old(v.stack[i])
      {
        v.stack := v.stack[v.stackbase + n := stack[n]];
        stack := stack[n := Null];
        n := n + 1;
      }
    }
  }

  /** The call record of a frame entered at the caller's top, `d` slots above its base, with the counts of `ci`. */
  function Entered(d: int, ci: CallInfo): (r: CallInfo) {
    CallInfo(d, d, ci.ncalls, ci.traps)
  }

  lemma PackedSize(traps: seq<Trap>, base: int)
    ensures |Packed(traps, base)| == |traps|
  {
  }

  lemma Saved(stack: seq<Obj>, s: seq<Obj>, base: nat, target: nat)
    requires 0 < |stack| && base + |stack| <= |s| && target <= |stack| && stack[0] == s[base]
    requires forall n :: 1 <= n < |stack| ==> stack[n] == if n < target then s[base + n] else Null
    ensures var k := if target == 0 then 1 else target;
            stack == s[base..base + k] + seq(|stack| - k, _ => Null)
  {
  }

  lemma Restored(s: seq<Obj>, at: nat, saved: seq<Obj>, live: seq<Obj>, size: nat)
    requires 0 < |live| <= size && saved == live + seq(size - |live|, _ => Null) && at + size <= |s|
    requires forall n :: 1 <= n < size ==> s[at + n] == saved[n]
    ensures s[at + 1..at + size] == live[1..] + seq(size - |live|, _ => Null)
  {
    assert s[at + 1..at + size] == saved[1..];
  }

  /** The caller's frame can be gone back to, and the current one starts at or below the caller's top, as calls
      build it. */
  predicate Returnable(v: Vm)
    reads v
  {
    && |v.calls| > 0 && v.top < |v.stack|
    && 0 <= v.stackbase - v.calls[|v.calls| - 1].prevBase
    && v.stackbase <= CallerTop(v)
  }

  function CallerTop(v: Vm): (t: int)
    requires |v.calls| > 0
    reads v
  {
    v.stackbase - v.calls[|v.calls| - 1].prevBase + v.calls[|v.calls| - 1].prevTop
  }

  /** A yield on `v`, the return to its caller, and the next resume on `w`, which may be the same machine: it succeeds
      exactly when the stack has room, and then the frame is back at the new base, its dead slots null, its traps in
      order and shifted. */
  method YieldThenResume(g: Generator, v: Vm, target: nat, w: Vm, newaddr: nat, alive: bool) returns (ok: bool)
    requires g.Valid() && g.state == Running && v.Valid() && w.Valid()
    requires g.Frame(v, target) && Returnable(v) && (v != w ==> g.OutersBelow(w))
    modifies g, v, w
    ensures ok == old(w.Room((if v == w then CallerTop(v) else w.top) + (v.top - v.stackbase)))
    ensures ok ==> w.stackbase == old(if v == w then CallerTop(v) else w.top)
    ensures ok ==> w.top == w.stackbase + old(v.top - v.stackbase) <= |w.stack|
    ensures ok && (alive || !RefCounted(old(v.stack[v.stackbase]))) ==>
              w.stack[w.stackbase] == old(v.stack[v.stackbase])
    ensures ok ==>
              var live := if target == 0 then 1 else target;
              w.stack[w.stackbase + 1..w.top] ==
              old(v.stack)[old(v.stackbase) + 1..old(v.stackbase) + live]
              + seq(old(v.top - v.stackbase) - live, _ => Null)
    ensures ok ==>
              var kept := |old(v.etraps)| - old(v.calls[|v.calls| - 1].traps);
              var left := if v == w then old(v.etraps)[..kept] else old(w.etraps);
              w.etraps == left + Shifted(old(v.etraps)[kept..], w.stackbase - old(v.stackbase))
    ensures ok ==>
              var mine := old(v.calls[|v.calls| - 1]);
              if v == w then w.calls == old(v.calls[..|v.calls| - 1]) + [Entered(mine.prevTop, mine)]
              else w.calls == old(w.calls) + [Entered(old(w.top - w.stackbase), mine)]
  {
    hide Packed, Unpacked, Shifted, RefCounted, OpenList, Deref;
    ghost var all := v.etraps;
    ok := g.Yield(v, target);
    assert all[..|all| - |g.traps|] == v.etraps && all[|all| - |g.traps|..] == g.traps;
    assert g.live[1..] == old(v.stack)[v.stackbase + 1..v.stackbase + if target == 0 then 1 else target];
    v.LeaveFrame();
    ok := g.Resume(w, newaddr, alive);
  }

  // ---------- whole runs ----------

  /** What happens on a machine with one generator; `Yield` is followed by `Leave` when the instruction returns. */
  datatype Op =
    | Yield(target: nat)
    | Resume(newaddr: nat, alive: bool)
    | Kill
    | Enter(newbase: nat, newtop: nat, movedTo: nat)
    | Leave
    | Capture(slot: nat)
    | Assign(outer: nat, val: Obj)

  /** The states in which an operation can succeed, and the one it leaves. */
  function After(s: State, op: Op): (r: Option<State>) {
    match op
    case Yield(_) => if s == Running then Some(Suspended) else None
    case Resume(_, _) => if s == Suspended then Some(Running) else None
    case Kill => Some(Dead)
    case _ => Some(s)
  }

  /** The generator's state after a run, given which of its operations succeeded. */
  function StateAfter(start: State, ops: seq<Op>, oks: seq<bool>): (s: State)
    requires |ops| == |oks|
  {
    if ops == [] then start
    else
      var n := |ops| - 1;
      var s := StateAfter(start, ops[..n], oks[..n]);
      if oks[n] && After(s, ops[n]).Some? then After(s, ops[n]).value else s
  }

  /** What a closure reads through outer `o` after a run: the last value assigned through it. */
  function ReadAfter(start: Obj, o: nat, ops: seq<Op>): (x: Obj) {
    if ops == [] then start
    else
      var n := |ops| - 1;
      if ops[n].Assign? && ops[n].outer == o then ops[n].val else ReadAfter(start, o, ops[..n])
  }

  /** Whatever succeeded, did so in a state that allows it. */
  ghost predicate AllAllowed(start: State, ops: seq<Op>, oks: seq<bool>) {
    && |ops| == |oks|
    && forall i :: 0 <= i < |ops| && oks[i] ==> After(StateAfter(start, ops[..i], oks[..i]), ops[i]).Some?
  }

  lemma NothingYet(start: State)
    ensures StateAfter(start, [], []) == start && AllAllowed(start, [], [])
    ensures forall x: Obj, o: nat :: ReadAfter(x, o, []) == x
  {
  }

  lemma StateStep(start: State, ops: seq<Op>, oks: seq<bool>, op: Op, ok: bool)
    requires AllAllowed(start, ops, oks) && (ok ==> After(StateAfter(start, ops, oks), op).Some?)
    ensures AllAllowed(start, ops + [op], oks + [ok])
    ensures StateAfter(start, ops + [op], oks + [ok])
         == if ok then After(StateAfter(start, ops, oks), op).value else StateAfter(start, ops, oks)
    ensures forall x: Obj, o: nat ::
              ReadAfter(x, o, ops + [op]) ==
              if op.Assign? && op.outer == o then op.val else ReadAfter(x, o, ops)
  {
    var n := |ops|;
    assert (ops + [op])[..n] == ops && (oks + [ok])[..n] == oks;
    forall i | 0 <= i <= n && (oks + [ok])[i]
      ensures After(StateAfter(start, (ops + [op])[..i], (oks + [ok])[..i]), (ops + [op])[i]).Some?
    {
      assert i < n ==> (ops + [op])[..i] == ops[..i] && (oks + [ok])[..i] == oks[..i];
    }
  }

  /** How many calls an operation leaves more: an overflow is noticed with the call already entered. */
  function Deeper(op: Op, ok: bool, tried: bool): (d: int) {
    match op
    case Enter(_, _, _) => 1
    case Resume(_, _) => if tried then 1 else 0
    case Leave => if ok then -1 else 0
    case _ => 0
  }

  /** One operation, where the machine is in a position for it. */
  method Step(g: Generator, v: Vm, op: Op) returns (ok: bool)
    requires g.Valid() && v.Valid()
    modifies g, v
    ensures g.Valid() && v.Valid() && |v.outers| >= old(|v.outers|)
    ensures forall o :: 0 <= o < old(|v.outers|) ==>
              v.Read(o) == if op.Assign? && op.outer == o then op.val else old(v.Read(o))
    ensures ok <==> After(old(g.state), op).Some? && old(Ready(g, v, op))
    ensures g.state == if ok then After(old(g.state), op).value else old(g.state)
    ensures |v.calls| == old(|v.calls|) + Deeper(op, ok, old(g.state == Suspended && g.OutersBelow(v)))
    ensures ok && op.Capture? ==> exists o :: 0 <= o < |v.outers| && v.outers[o].ptr == OnStack(v.addr + op.slot)
    ensures op.Kill? ==> ok && g.state == Dead
    ensures old(g.state) == Dead ==> g.state == Dead && !(ok && (op.Yield? || op.Resume?))
  {
    hide OpenList, Deref, Packed, Shifted, RefCounted;
    ok := false;
    match op {
      case Yield(target) =>
        if g.Frame(v, target) {
          ok := g.Yield(v, target);
        }
      case Resume(newaddr, alive) =>
        if g.OutersBelow(v) {
          ok := g.Resume(v, newaddr, alive);
        }
      case Kill =>
        g.Kill();
        ok := true;
      case Enter(newbase, newtop, movedTo) =>
        ok := v.EnterFrame(newbase, newtop, false, movedTo);
      case Leave =>
        if Returnable(v) {
          v.LeaveFrame();
          ok := true;
        }
      case Capture(slot) =>
        if slot < |v.stack| {
          var outer := v.FindOuter(slot);
          ok := true;
        }
      case Assign(outer, val) =>
        if outer < |v.outers| {
          v.SetOuter(outer, val);
          ok := true;
        }
    }
  }

  /** A frame that can be yielded, room for one, a frame to go back to, a slot or an outer that exists. */
  predicate Ready(g: Generator, v: Vm, op: Op)
    reads g, v
  {
    match op
    case Yield(target) => g.Frame(v, target)
    case Resume(_, _) => g.OutersBelow(v) && v.Room(v.top + |g.stack|)
    case Kill => true
    case Enter(_, newtop, _) => v.Room(newtop)
    case Leave => Returnable(v)
    case Capture(slot) => slot < |v.stack|
    case Assign(outer, _) => outer < |v.outers|
  }

  /** Every run of a machine: a resume only ever succeeds on a suspended generator and a yield on a running one, neither
      succeeds after a kill, and through all yields, resumes, calls and returns a closure reads what was last assigned
      through its outer. */
  method Run(g: Generator, v: Vm, ops: seq<Op>) returns (oks: seq<bool>)
    requires g.Valid() && v.Valid()
    modifies g, v
    ensures g.Valid() && v.Valid() && |oks| == |ops| && g.state == StateAfter(old(g.state), ops, oks)
    ensures AllAllowed(old(g.state), ops, oks)
    ensures forall i, j :: 0 <= i < j < |ops| && ops[i].Kill? && oks[j] ==> !ops[j].Yield? && !ops[j].Resume?
    ensures |v.outers| >= old(|v.outers|)
    ensures forall o :: 0 <= o < old(|v.outers|) ==> v.Read(o) == ReadAfter(old(v.Read(o)), o, ops)
  {
    hide OpenList, Deref, Ready, StateAfter, ReadAfter, After, Generator.Valid;
    NothingYet(g.state);
    oks := [];
    assert ops[..0] == [];
    for i := 0 to |ops|
      invariant g.Valid() && v.Valid() && |oks| == i && g.state == StateAfter(old(g.state), ops[..i], oks)
      invariant AllAllowed(old(g.state), ops[..i], oks)
      invariant forall k :: 0 <= k < i && ops[k].Kill? ==> g.state == Dead
      invariant forall k, j :: 0 <= k < j < i && ops[k].Kill? && oks[j] ==> !ops[j].Yield? && !ops[j].Resume?
      invariant |v.outers| >= old(|v.outers|)
      invariant forall o :: 0 <= o < old(|v.outers|) ==> v.Read(o) == ReadAfter(old(v.Read(o)), o, ops[..i])
    {
      var ok := Step(g, v, ops[i]);
      assert ops[..i + 1] == ops[..i] + [ops[i]];
      StateStep(old(g.state), ops[..i], oks, ops[i], ok);
      oks := oks + [ok];
    }
    assert ops[..|ops|] == ops;
  }
}
