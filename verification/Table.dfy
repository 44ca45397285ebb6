/** SQTable: the chained scatter table, its node array mutated in place. */
module Tables {
  import opened Objects
  import opened TableChains
  import opened Seqs

  /** TBL_CLASS_TYPE_MEMBER_MASK + 1: node indices that fit the hint field. */
  const HINT_NODES := 32

  const CLASS_TYPE_HASH_INIT := 14695981039346656037

  class Table {
    const slot: Slot
    /** class_type_hash_update over the insert position and the string address. */
    const mix: (nat, nat, Obj) -> nat

    var nodes: array<Node>
    var firstFree: nat
    var used: nat
    var classTypeId: nat

    ghost var rank: seq<nat>
    ghost var loc: map<Obj, nat>
    /** The finite map the table stands for. */
    ghost var contents: map<Obj, Obj>

    ghost function Links(): (nx: Links)
      reads this, nodes
    {
      LinksOf(nodes[..])
    }

    ghost function Keys(): (ks: Keys)
      reads this, nodes
    {
      KeysOf(nodes[..])
    }

    ghost function Vals(): (vs: seq<Obj>)
      reads this, nodes
    {
      ValsOf(nodes[..])
    }

    /** The chain invariant, also while the free pointer is being corrected. */
    ghost predicate Kept()
      reads this, nodes
    {
      && IsPow2(nodes.Length)
      && Located(Keys(), loc)
      && Holds(Vals(), loc, contents)
      && Core(Links(), Keys(), firstFree, rank, loc, slot)
    }

    ghost predicate Valid()
      reads this, nodes
    {
      && Kept()
      && FreeSlot(Links(), Keys(), firstFree)
      && used == |loc|
    }

    /** A nonzero type id is only given to tables whose node indices fit a hint. */
    ghost predicate HintSized()
      reads this, nodes
    {
      classTypeId != 0 ==> nodes.Length <= HINT_NODES
    }

    /** No removed keys, and still a free node after one more insertion. */
    ghost predicate Roomy()
      reads this, nodes
    {
      Compact(Links(), Keys(), firstFree) && |loc| + 1 < nodes.Length
    }

    /** Node `n` holds `key`. */
    ghost predicate Sits(key: Obj, n: nat)
      reads this, nodes
    {
      n < nodes.Length && nodes[n].key == Some(key)
    }

    /** Node `mp` holds a key, whose main position is or is not `mp`. */
    ghost predicate Occupied(mp: nat, main: bool)
      reads this, nodes
    {
      mp < nodes.Length && nodes[mp].key.Some? && (slot(nodes[mp].key.value, nodes.Length) == mp) == main
    }

    /** The node a new key takes out of use: its main position if that is free, else the free node. */
    ghost function Filling(key: Obj): (n: nat)
      reads this, nodes
    {
      var mp := slot(key, nodes.Length);
      if mp < nodes.Length && nodes[mp].key.Some? then firstFree else mp
    }

    /** Another free unlinked node at or below the free pointer: the condition for inserting without a rehash. */
    ghost predicate RoomFor(key: Obj)
      reads this, nodes
    {
      exists i :: 0 <= i <= firstFree && i != Filling(key) && FreeSlot(Links(), Keys(), i)
    }

    constructor (initialSize: nat, slot: Slot, mix: (nat, nat, Obj) -> nat)
      ensures Valid() && HintSized() && fresh(nodes) && contents == map[]
      ensures this.slot == slot && this.mix == mix && classTypeId == 0
      ensures nodes.Length >= initialSize && (nodes.Length == 1 || nodes.Length < 2 * initialSize)
      ensures IsPow2(initialSize) ==> nodes.Length == initialSize
    {
      var pow2size := 1;
      while initialSize > pow2size
        invariant IsPow2(pow2size) && (IsPow2(initialSize) ==> pow2size <= initialSize)
        invariant pow2size == 1 || pow2size < 2 * initialSize
      {
        if IsPow2(initialSize) {
          Pow2Gap(pow2size, initialSize);
        }
        pow2size := pow2size * 2;
      }
      this.slot, this.mix := slot, mix;
      nodes := new Node[1](_ => EMPTY_NODE);
      new;
      used, classTypeId := 0, 0;
      AllocNodes(pow2size);
    }

    // ---------- lookup ----------

    /** The chain walk of _Get and _GetStr; -1 for the null node. */
    method Find(key: Obj) returns (n: int)
      requires Kept()
      ensures n == if key in loc then loc[key] else -1
      ensures n >= 0 ==> n < nodes.Length && nodes[n].key == Some(key)
    {
      n := slot(key, nodes.Length);
      while true
        invariant 0 <= n < nodes.Length
        invariant key in loc ==> Reach(Links(), rank, n, loc[key])
        decreases rank[n]
      {
        if nodes[n].key == Some(key) {
          assert Keys()[n] == Some(key);
          return;
        }
        if nodes[n].next == -1 {
          return -1;
        }
        n := nodes[n].next;
      }
    }

    /** The predecessor walk of NewSlot (lines 213 to 216), from the colliding key's main position. */
    method FindPrev(mp: nat) returns (prev: nat)
      requires Kept() && mp < nodes.Length
      requires nodes[mp].key.Some? && slot(nodes[mp].key.value, nodes.Length) != mp
      ensures prev < nodes.Length && nodes[prev].next == mp
    {
      assert Keys()[mp] == nodes[mp].key;
      prev := slot(nodes[mp].key.value, nodes.Length);
      while nodes[prev].next != mp
        invariant prev < nodes.Length && prev != mp && Reach(Links(), rank, prev, mp)
        decreases rank[prev]
      {
        prev := nodes[prev].next;
      }
    }

    /** A key away from its main position has a predecessor, so it lies above the free pointer. */
    lemma DisplacedIsAbove(mp: nat)
      requires Valid() && mp < nodes.Length && nodes[mp].key.Some?
      ensures slot(nodes[mp].key.value, nodes.Length) != mp ==> mp > firstFree
    {
      var k := nodes[mp].key.value;
      assert Keys()[mp] == Some(k);
      if slot(k, nodes.Length) != mp {
        ReachHasPred(Links(), rank, slot(k, nodes.Length), mp);
      }
    }

    // ---------- insertion ----------

    /** The colliding node at `mp` moves to the free node; the newcomer takes `mp` (lines 211 to 227). */
    method MoveCollider(key: Obj, mp: nat)
      requires Valid() && key !in loc && mp == slot(key, nodes.Length) && Occupied(mp, false)
      modifies nodes, `rank, `loc, `contents
      ensures Kept() && Added(old(loc), loc, key, mp) && Sits(key, mp)
      ensures Grew(old(contents), contents, key)
      ensures OnlyFilled(old(Links()), old(Keys()), Links(), Keys(), firstFree)
      ensures old(Compact(Links(), Keys(), firstFree)) ==> Compact(Links(), Keys(), firstFree)
    {
      hide Core, FreeSlot, Compact, Located, Holds, LinksOf, KeysOf, ValsOf, IsPow2;
      var prev := FindPrev(mp);
      ghost var nx, ks, other := Links(), Keys(), nodes[mp].key.value;
      NodeAt(mp);
      NodeAt(prev);
      MoveKeeps(nx, ks, Vals(), firstFree, rank, loc, contents, slot, key, mp, prev);
      rank := rank[firstFree := rank[mp]];
      loc := loc[other := firstFree][key := mp];
      contents := contents[key := Null];
      MoveNodes(nodes, nx, ks, prev, mp, firstFree, key);
    }

    /** The columns at one node. */
    lemma NodeAt(i: nat)
      requires Kept() && i < nodes.Length
      ensures |Links()| == |Keys()| == |Vals()| == |rank| == nodes.Length && Links()[i] == nodes[i].next
      ensures Keys()[i] == nodes[i].key
    {
    }

    /** The newcomer goes to the free node, linked in behind `mp` (lines 230 to 232). */
    method ChainNewcomer(key: Obj, mp: nat)
      requires Valid() && key !in loc && mp == slot(key, nodes.Length) && Occupied(mp, true)
      modifies nodes, `rank, `loc, `contents
      ensures Kept() && Added(old(loc), loc, key, firstFree) && Sits(key, firstFree)
      ensures Grew(old(contents), contents, key)
      ensures OnlyFilled(old(Links()), old(Keys()), Links(), Keys(), firstFree)
      ensures old(Compact(Links(), Keys(), firstFree)) ==> Compact(Links(), Keys(), firstFree)
    {
      hide Core, FreeSlot, Compact, Located, Holds, LinksOf, KeysOf, ValsOf, IsPow2;
      NodeAt(mp);
      ghost var nx, ks := Links(), Keys();
      SpliceKeeps(nx, ks, Vals(), firstFree, rank, loc, contents, slot, key, mp);
      rank := SpliceRank(rank, mp, firstFree);
      loc := loc[key := firstFree];
      contents := contents[key := Vals()[firstFree]];
      SpliceNodes(nodes, nx, ks, mp, firstFree, key);
    }

    /** The newcomer takes its free main position. */
    method TakeMain(key: Obj, mp: nat)
      requires Valid() && key !in loc && mp == slot(key, nodes.Length) && mp < nodes.Length && nodes[mp].key.None?
      modifies nodes, `loc, `contents
      ensures Kept() && Added(old(loc), loc, key, mp) && Sits(key, mp)
      ensures Grew(old(contents), contents, key)
      ensures OnlyFilled(old(Links()), old(Keys()), Links(), Keys(), mp)
      ensures old(Compact(Links(), Keys(), firstFree)) ==> Compact(Links(), Keys(), firstFree)
    {
      hide Core, FreeSlot, Compact, Located, Holds, LinksOf, KeysOf, ValsOf, IsPow2;
      NodeAt(mp);
      MainKeeps(Links(), Keys(), Vals(), firstFree, rank, loc, contents, slot, key, mp);
      loc := loc[key := mp];
      contents := contents[key := Vals()[mp]];
      TakeNode(nodes, mp, key);
    }

    /** Where NewSlot puts a key that is not in the table (lines 200 to 235); returns its node. */
    method Place(key: Obj) returns (mp: nat)
      requires Valid() && key !in loc
      modifies nodes, `rank, `loc, `contents
      ensures Kept() && Added(old(loc), loc, key, mp) && Sits(key, mp)
      ensures Grew(old(contents), contents, key)
      ensures OnlyFilled(old(Links()), old(Keys()), Links(), Keys(), old(Filling(key)))
      ensures old(Compact(Links(), Keys(), firstFree)) ==> Compact(Links(), Keys(), firstFree)
    {
      hide Core, Compact, Located, Holds, LinksOf, KeysOf, ValsOf;
      mp := slot(key, nodes.Length);
      if nodes[mp].key.Some? {
        DisplacedIsAbove(mp);
        if mp > firstFree && slot(nodes[mp].key.value, nodes.Length) != mp {
          MoveCollider(key, mp);
        } else {
          ChainNewcomer(key, mp);
          mp := firstFree;
        }
      } else {
        TakeMain(key, mp);
      }
    }

    /** The `firstfree` correction loop (lines 237 to 265); false when it runs off the array. */
    method AdvanceFree() returns (ok: bool)
      requires Kept()
      modifies `firstFree
      ensures Kept() && firstFree <= old(firstFree)
      ensures ok ==> FreeSlot(Links(), Keys(), firstFree)
      ensures ok <==> exists i :: 0 <= i <= old(firstFree) && FreeSlot(Links(), Keys(), i)
      ensures old(Compact(Links(), Keys(), firstFree)) ==> Compact(Links(), Keys(), firstFree)
      ensures !ok && old(Compact(Links(), Keys(), firstFree)) ==> |loc| == nodes.Length
    {
      hide Core, Compact, Located, Holds, IsPow2, LinksOf, KeysOf, ValsOf;
      ghost var nx, ks := Links(), Keys();
      while true
        invariant firstFree <= old(firstFree) && Kept()
        invariant forall i :: firstFree < i <= old(firstFree) ==> !FreeSlot(nx, ks, i)
        invariant old(Compact(Links(), Keys(), firstFree)) ==> Compact(nx, ks, firstFree)
        decreases firstFree
      {
        InArray();
        NodeAt(firstFree);
        if nodes[firstFree].key.None? && nodes[firstFree].next == -1 {
          assert FreeSlot(nx, ks, firstFree);
          return true;
        }
        if firstFree == 0 {
          if Compact(nx, ks, 0) {
            AtBottom(nx, ks, rank, loc, slot);
          }
          return false;
        }
        StepDown(nx, ks, firstFree, rank, loc, slot);
        firstFree := firstFree - 1;
      }
    }

    lemma InArray()
      requires Kept()
      ensures firstFree < nodes.Length
    {
    }

    /** Only string keys keep a type id, and only in small tables; a table without one gets one with its first key. */
    function NextTypeId(id: nat, before: nat, key: Obj, pos: nat): (id': nat)
      reads this
    {
      if !key.Str? || nodes.Length > HINT_NODES || (id == 0 && before > 0) then 0
      else mix(if id == 0 then CLASS_TYPE_HASH_INIT else id, pos, key)
    }

    /** The type-id update of a successful insertion (lines 243 to 259). */
    method CountInsertion(key: Obj, pos: nat)
      modifies `classTypeId, `used
      ensures used == old(used) + 1 && HintSized()
      ensures !key.Str? || nodes.Length > HINT_NODES || (old(classTypeId) == 0 && old(used) > 0) ==> classTypeId == 0
      ensures key.Str? && nodes.Length <= HINT_NODES && old(classTypeId) != 0 ==>
                classTypeId == mix(old(classTypeId), pos, key)
      ensures key.Str? && nodes.Length <= HINT_NODES && old(classTypeId) == 0 && old(used) == 0 ==>
                classTypeId == mix(CLASS_TYPE_HASH_INIT, pos, key)
    {
      if key.Str? && nodes.Length - 1 < HINT_NODES {
        if classTypeId != 0 || used == 0 {
          classTypeId := mix(if classTypeId != 0 then classTypeId else CLASS_TYPE_HASH_INIT, pos, key);
        }
      } else {
        classTypeId := 0;
      }
      used := used + 1;
    }

    method NewSlot(key: Obj, val: Obj) returns (created: bool)
      requires Valid()
      modifies this, nodes
      ensures Valid() && (nodes == old(nodes) || fresh(nodes))
      ensures contents == old(contents)[key := val] && loc.Keys == old(loc.Keys) + {key}
      ensures created <==> key !in old(loc) && old(RoomFor(key))
      ensures created <==> key !in old(loc) && nodes == old(nodes)
      ensures key !in old(loc) ==> HintSized()
      ensures key in old(loc) ==> nodes == old(nodes) && classTypeId == old(classTypeId)
      ensures nodes != old(nodes) ==> nodes.Length == RehashSize(old(nodes.Length), old(used), true)
      ensures created ==> classTypeId == NextTypeId(old(classTypeId), old(used), key, loc[key])
      ensures old(Roomy()) && key !in old(loc) ==>
                created && nodes == old(nodes) && Compact(Links(), Keys(), firstFree)
      decreases if key in loc || Roomy() then 0 else 4, 1
    {
      hide Core, FreeSlot, Compact, Located, Holds, IsPow2, LinksOf, KeysOf, ValsOf;
      var n := Find(key);
      if n >= 0 {
        StoreValue(n, key, val);
        return false;
      }
      created := InsertNew(key, val);
    }

    /** The rest of NewSlot (lines 200 to 267), for a key that is not in the table. */
    method InsertNew(key: Obj, val: Obj) returns (created: bool)
      requires Valid() && key !in loc
      modifies this, nodes
      ensures Valid() && (nodes == old(nodes) || fresh(nodes)) && HintSized()
      ensures contents == old(contents)[key := val] && loc.Keys == old(loc.Keys) + {key}
      ensures created <==> old(RoomFor(key))
      ensures created <==> nodes == old(nodes)
      ensures !created ==> nodes.Length == RehashSize(old(nodes.Length), old(used), true)
      ensures created ==> classTypeId == NextTypeId(old(classTypeId), old(used), key, loc[key])
      ensures old(Roomy()) ==> created && Compact(Links(), Keys(), firstFree)
      decreases if Roomy() then 0 else 4, 0
    {
      hide Core, FreeSlot, Compact, Located, Holds, IsPow2, LinksOf, KeysOf, ValsOf, Grew, Added, OnlyFilled;
      var mp := Place(key);
      GrewThen(old(contents), contents, key, val);
      AddedKeys(old(loc), loc, key, mp);
      RoomLeft(old(Links()), old(Keys()), Links(), Keys(), old(Filling(key)), firstFree);
      created := AdvanceFree();
      if created {
        Complete(key, val, mp);
      } else {
        Retry(key, val);
      }
    }

    /** Lines 239 to 261: the value is stored and the insertion counted. */
    method Complete(key: Obj, val: Obj, mp: nat)
      requires Kept() && FreeSlot(Links(), Keys(), firstFree) && |loc| == used + 1 && Sits(key, mp)
      modifies nodes, `contents, `classTypeId, `used
      ensures Valid() && HintSized() && contents == old(contents)[key := val]
      ensures Links() == old(Links()) && Keys() == old(Keys())
      ensures classTypeId == NextTypeId(old(classTypeId), old(used), key, mp)
    {
      hide Core, FreeSlot, Compact, Located, Holds, IsPow2, LinksOf, KeysOf, ValsOf;
      StoreValue(mp, key, val);
      CountInsertion(key, mp);
    }

    /** Lines 266 and 267: with the key already placed, the table is rehashed and the value stored. */
    method Retry(key: Obj, val: Obj)
      requires Kept() && |loc| == used + 1 && key in loc
      modifies this
      ensures Valid() && fresh(nodes) && HintSized()
      ensures contents == old(contents)[key := val] && loc.Keys == old(loc.Keys)
      ensures nodes.Length == RehashSize(old(nodes.Length), old(used), true)
      decreases 3
    {
      hide Core, FreeSlot, Compact, Located, Holds, IsPow2, LinksOf, KeysOf, ValsOf;
      Rehash(true);
      var created := NewSlot(key, val);
    }

    method StoreValue(n: nat, key: Obj, val: Obj)
      requires Kept() && n < nodes.Length && nodes[n].key == Some(key)
      modifies nodes, `contents
      ensures Links() == old(Links()) && Keys() == old(Keys()) && Kept()
      ensures key in loc && contents == old(contents)[key := val]
    {
      assert Keys()[n] == nodes[n].key;
      HoldsStore(Vals(), Keys(), loc, contents, n, key, val);
      nodes[n] := nodes[n].(val := val);
      contents := contents[key := val];
      assert Links() == old(Links());
      assert Keys() == old(Keys());
      assert Vals() == old(Vals())[n := val];
    }

    // ---------- rehash ----------

    method AllocNodes(size: nat)
      requires IsPow2(size)
      modifies this
      ensures fresh(nodes) && nodes.Length == size && loc == map[] && contents == map[]
      ensures used == old(used) && classTypeId == old(classTypeId)
      ensures Kept() && FreeSlot(Links(), Keys(), firstFree) && Compact(Links(), Keys(), firstFree)
      ensures firstFree == size - 1
    {
      nodes := new Node[size](_ => EMPTY_NODE);
      firstFree := size - 1;
      rank := seq(size, _ => 0);
      loc := map[];
      contents := map[];
      EmptyInv(nodes[..], firstFree, slot);
    }

    /** Re-inserts every live node of the old array into the freshly allocated one (lines 102 to 107).
        The new array has room for all of them, so no insertion here ever rehashes. */
    method Reinsert(oldNodes: array<Node>, ghost was: map<Obj, Obj>, ghost oldLoc: map<Obj, nat>)
      requires Valid() && Compact(Links(), Keys(), firstFree) && loc == map[] && contents == map[]
      requires oldNodes != nodes && |oldLoc| < nodes.Length
      requires Located(KeysOf(oldNodes[..]), oldLoc) && Holds(ValsOf(oldNodes[..]), oldLoc, was)
      modifies this, nodes
      ensures Valid() && nodes == old(nodes) && contents == was && loc.Keys == oldLoc.Keys
      ensures |loc| > 0 ==> HintSized()
      ensures |loc| == 0 ==> classTypeId == old(classTypeId) && firstFree == old(firstFree)
      decreases 1
    {
      hide Core, FreeSlot, Compact, IsPow2, Located, Holds, Copied, LinksOf, KeysOf, ValsOf;
      ghost var ks, vs := KeysOf(oldNodes[..]), ValsOf(oldNodes[..]);
      CopiedStart(was, oldLoc, vs);
      var i := 0;
      while i < oldNodes.Length
        invariant 0 <= i <= oldNodes.Length && nodes == old(nodes)
        invariant Valid() && Compact(Links(), Keys(), firstFree)
        invariant Copied(was, oldLoc, loc, contents, i)
        invariant |loc| > 0 ==> HintSized()
        invariant |loc| == 0 ==> classTypeId == old(classTypeId) && firstFree == old(firstFree)
      {
        if oldNodes[i].key.Some? {
          var k := oldNodes[i].key.value;
          ghost var l0, c0 := loc, contents;
          CopiedNext(was, oldLoc, loc, contents, ks, vs, i);
          var _ := NewSlot(k, oldNodes[i].val);
          CopiedStep(was, oldLoc, l0, c0, ks, vs, i, loc);
        } else {
          CopiedSkip(was, oldLoc, loc, contents, ks, vs, i);
        }
        i := i + 1;
      }
      CopiedDone(was, oldLoc, loc, contents, ks);
    }

    /** Line 76: grow above three quarters, shrink below one quarter, grow when forced. */
    method Rehash(force: bool)
      requires Valid() || (force && Kept() && |loc| == used + 1)
      modifies this
      ensures Valid()
      ensures contents == old(contents) && loc.Keys == old(loc.Keys)
      ensures fresh(nodes) || (!force && nodes == old(nodes))
      ensures |loc| > 0 && fresh(nodes) ==> HintSized()
      ensures |loc| == 0 || !fresh(nodes) ==> classTypeId == old(classTypeId)
      ensures nodes.Length == RehashSize(old(nodes.Length), old(used), force)
      ensures |loc| == 0 && fresh(nodes) ==> firstFree == nodes.Length - 1
      decreases 2
    {
      hide Core, FreeSlot, Compact, Located, Holds, LinksOf, KeysOf, ValsOf;
      var oldSize, oldNodes := nodes.Length, nodes;
      ghost var was, oldLoc := contents, loc;
      LocBound(Keys(), loc);
      if used >= oldSize - oldSize / 4 {
        AllocNodes(oldSize * 2);
      } else if used < oldSize / 4 && oldSize > 1 {
        AllocNodes(oldSize / 2);
      } else if force {
        AllocNodes(oldSize * 2);
      } else {
        return;
      }
      used := 0;
      Reinsert(oldNodes, was, oldLoc);
    }

    // ---------- the other operations ----------

    method Get(key: Obj) returns (r: Option<Obj>)
      requires Valid()
      ensures r == Lookup(contents, key)
    {
      var n := Find(key);
      r := if n >= 0 then Some(nodes[n].val) else None;
    }

    method Set(key: Obj, val: Obj) returns (found: bool)
      requires Valid()
      modifies nodes, `contents
      ensures Valid() && found == (key in old(contents))
      ensures contents == Assign(old(contents), key, val)
      ensures Links() == old(Links()) && Keys() == old(Keys())
    {
      hide Core, FreeSlot, Located, LinksOf, KeysOf, ValsOf;
      var n := Find(key);
      if n >= 0 {
        StoreValue(n, key, val);
      }
      found := n >= 0;
    }

    method Remove(key: Obj)
      requires Valid()
      modifies this, nodes
      ensures Valid() && (nodes == old(nodes) || fresh(nodes))
      ensures contents == old(contents) - {key}
      ensures old(HintSized()) ==> HintSized()
      ensures key in old(contents) ==> classTypeId == 0
      ensures key !in old(contents) ==> nodes == old(nodes) && classTypeId == old(classTypeId)
      ensures nodes.Length == if key in old(contents) then RehashSize(old(nodes.Length), |contents|, false)
                              else old(nodes.Length)
    {
      hide Core, FreeSlot, Compact, Located, Holds, IsPow2, LinksOf, KeysOf, ValsOf;
      ContentsCard();
      var n := Find(key);
      if n >= 0 {
        ClearNode(n, key);
        used := used - 1;
        Rehash(false);
        classTypeId := 0;
      } else {
        assert contents == contents - {key};
      }
    }

    /** Lines 55 to 58: the node is freed, its link stays. */
    method ClearNode(n: nat, key: Obj)
      requires Valid() && key in loc && n == loc[key]
      modifies nodes, `loc, `contents
      ensures Kept() && FreeSlot(Links(), Keys(), firstFree)
      ensures contents == old(contents) - {key} && |loc| == old(|loc|) - 1
    {
      hide Core, FreeSlot, Located, Holds, IsPow2, LinksOf, KeysOf, ValsOf;
      KeyAt(key);
      RemoveKeeps(Links(), Keys(), Vals(), firstFree, rank, loc, contents, slot, key);
      loc := loc - {key};
      contents := contents - {key};
      FreeNode(nodes, n);
    }

    lemma KeyAt(key: Obj)
      requires Kept() && key in loc
      ensures loc[key] < nodes.Length && |Links()| == |Keys()| == |Vals()| == nodes.Length
    {
    }

    method Clear(rehash: bool)
      requires Valid()
      modifies this, nodes
      ensures Valid() && (nodes == old(nodes) || fresh(nodes))
      ensures contents == map[] && HintSized() && classTypeId == 0 && firstFree == nodes.Length - 1
      ensures nodes.Length == if rehash then RehashSize(old(nodes.Length), 0, true) else old(nodes.Length)
    {
      hide FreeSlot, Located, Holds, IsPow2, EmptyNodes, Linked, OnePred, AboveFree, Findable, NoSquatter, LinksOf;
      hide KeysOf, ValsOf;
      ClearNodes();
      used, classTypeId := 0, 0;
      if rehash {
        Emptied();
        Rehash(true);
      } else {
        firstFree := nodes.Length - 1;
        Emptied();
      }
    }

    lemma Emptied()
      requires EmptyNodes(nodes[..]) && loc == map[] && contents == map[] && rank == seq(nodes.Length, _ => 0)
      requires IsPow2(nodes.Length) && firstFree < nodes.Length && used == 0
      ensures Valid()
    {
      EmptyInv(nodes[..], firstFree, slot);
    }

    /** _ClearNodes: every node becomes free and unlinked. */
    method ClearNodes()
      modifies nodes, `rank, `loc, `contents
      ensures EmptyNodes(nodes[..]) && loc == map[] && contents == map[] && rank == seq(nodes.Length, _ => 0)
    {
      for i := 0 to nodes.Length
        invariant EmptyNodes(nodes[..i])
      {
        nodes[i] := EMPTY_NODE;
      }
      rank := seq(nodes.Length, _ => 0);
      loc := map[];
      contents := map[];
    }

    method Clone() returns (t: Table)
      requires Valid()
      ensures fresh(t) && fresh(t.nodes) && t.Valid() && t.slot == slot && t.mix == mix
      ensures t.nodes[..] == nodes[..] && t.firstFree == firstFree
      ensures t.contents == contents && t.classTypeId == classTypeId
    {
      hide Core, FreeSlot, Located, Holds, LinksOf, KeysOf, ValsOf;
      t := new Table(nodes.Length, slot, mix);
      var i := 0;
      while i < nodes.Length
        invariant 0 <= i <= nodes.Length && fresh(t.nodes) && t.nodes.Length == nodes.Length
        invariant t.nodes[..i] == nodes[..i]
        modifies t.nodes
      {
        t.nodes[i] := Node(nodes[i].key, nodes[i].val, nodes[i].next);
        i := i + 1;
      }
      assert t.nodes[..] == nodes[..];
      t.firstFree, t.used, t.classTypeId := firstFree, used, classTypeId;
      t.rank, t.loc, t.contents := rank, loc, contents;
    }

    method CountUsed() returns (n: nat)
      requires Valid()
      ensures n == |contents|
    {
      assert contents.Keys == loc.Keys;
      assert |contents| == |contents.Keys| && |loc| == |loc.Keys|;
      n := used;
    }

    // ---------- iteration ----------

    /** The iteration step: the first live node at or after `idx`; -1 when there is none. */
    method Next(idx: nat) returns (next: int, key: Obj, val: Obj)
      requires Valid()
      ensures next == -1 ==> LiveKeys(Keys(), idx) == []
      ensures next != -1 ==>
                && idx < next <= nodes.Length
                && LiveKeys(Keys(), idx) == [key] + LiveKeys(Keys(), next)
                && key in contents && val == contents[key]
    {
      hide Core, IsPow2, LinksOf, KeysOf, ValsOf;
      var i := idx;
      ghost var ks := Keys();
      while i < nodes.Length
        invariant idx <= i && LiveKeys(ks, idx) == LiveKeys(ks, i)
      {
        if nodes[i].key.Some? {
          assert ks[i] == nodes[i].key && Vals()[i] == nodes[i].val;
          return i + 1, nodes[i].key.value, nodes[i].val;
        }
        i := i + 1;
      }
      next, key, val := -1, Null, Null;
    }

    /** `foreach` over the table: from null, step until -1. Every key comes up exactly once. */
    method VisitAll() returns (keys: seq<Obj>, vals: seq<Obj>)
      requires Valid()
      ensures |keys| == |contents| == |vals| && Distinct(keys)
      ensures forall k :: k in contents <==> k in keys
      ensures forall i :: 0 <= i < |keys| ==> keys[i] in contents && vals[i] == contents[keys[i]]
    {
      hide Core, FreeSlot, Located, Holds, IsPow2, LiveKeys, LinksOf, KeysOf, ValsOf;
      keys, vals := [], [];
      ghost var ks := Keys();
      var idx := 0;
      while true
        invariant 0 <= idx <= nodes.Length && |vals| == |keys|
        invariant keys + LiveKeys(ks, idx) == LiveKeys(ks, 0)
        invariant forall i :: 0 <= i < |keys| ==> keys[i] in contents && vals[i] == contents[keys[i]]
        decreases nodes.Length - idx
      {
        var next, key, val := Next(idx);
        if next == -1 {
          break;
        }
        keys, vals, idx := keys + [key], vals + [val], next;
      }
      assert keys == LiveKeys(ks, 0);
      LiveKeysOnce(ks, loc);
      ContentsCard();
    }

    lemma ContentsCard()
      requires Valid()
      ensures contents.Keys == loc.Keys && |contents| == |loc|
    {
      assert |contents| == |contents.Keys| && |loc| == |loc.Keys|;
    }

    // ---------- hinted access ----------

    /** The word carries this table's type id. */
    predicate Names(hint: nat)
      reads this
    {
      classTypeId / HINT_NODES == hint / HINT_NODES
    }

    /** The node a hint names, or -1 when the hint is stale in any way. */
    method GetNodeFromTypeHint(hint: nat, key: Obj) returns (n: int)
      requires Valid()
      ensures n == if key.Str? && key in loc && loc[key] == hint % HINT_NODES then loc[key] else -1
      ensures n >= 0 ==> n < nodes.Length && nodes[n].key == Some(key)
    {
      var idx := hint % HINT_NODES;
      if idx > nodes.Length - 1 {
        return -1;
      } else if !nodes[idx].key.Some? || !nodes[idx].key.value.Str? {
        return -1;
      } else if nodes[idx].key.value != key {
        return -1;
      }
      assert Keys()[idx] == Some(key);
      n := idx;
    }

    /** The node the inline cache comes up with, and the hint word it leaves behind
        (lines 1268 to 1282 and 1353 to 1367 of sqvm.cpp).  A node that was found is named by the word left behind. */
    method HintedNode(hint: nat, key: Obj) returns (n: int, hint': nat)
      requires Valid() && HintSized() && key.Str?
      ensures n == -1 || (key in loc && n == loc[key] < nodes.Length && nodes[n].key == Some(key))
      ensures n >= 0 <==> classTypeId != 0 && key in loc && (Names(hint) ==> loc[key] == hint % HINT_NODES)
      ensures n >= 0 ==> n < HINT_NODES && Names(hint') && hint' % HINT_NODES == n
      ensures n == -1 || Names(hint) ==> hint' == hint
      ensures Relearned(hint, key, hint')
    {
      hide Core, FreeSlot, Located, Holds, IsPow2, LinksOf, KeysOf, ValsOf;
      n, hint' := -1, hint;
      if classTypeId != 0 {
        if classTypeId / HINT_NODES == hint / HINT_NODES {
          n := GetNodeFromTypeHint(hint, key);
        } else {
          n := Find(key);
          if n >= 0 {
            hint' := classTypeId / HINT_NODES * HINT_NODES + n;
          }
        }
      }
    }

    /** A word of another type is replaced by one that names this table's type and the key's node, if it is there. */
    ghost predicate Relearned(hint: nat, key: Obj, hint': nat)
      reads this
    {
      if classTypeId != 0 && key in loc && !Names(hint) then Names(hint') && hint' % HINT_NODES == loc[key]
      else hint' == hint
    }

    /** _OP_GET_LITERAL on a table: whatever the hint word holds, the answer is the plain lookup's. */
    method GetLiteral(hint: nat, key: Obj) returns (r: Option<Obj>, hint': nat)
      requires Valid() && HintSized() && key.Str?
      ensures r == Lookup(contents, key)
      ensures Relearned(hint, key, hint')
    {
      var n;
      n, hint' := HintedNode(hint, key);
      if n >= 0 {
        assert Vals()[n] == nodes[n].val;
        r := Some(nodes[n].val);
      } else {
        r := Get(key);
      }
    }

    /** _OP_SET_LITERAL on a table: whatever the hint word holds, the effect is the plain store's. */
    method SetLiteral(hint: nat, key: Obj, val: Obj) returns (found: bool, hint': nat)
      requires Valid() && HintSized() && key.Str?
      modifies nodes, `contents
      ensures Valid() && HintSized() && found == (key in old(contents))
      ensures contents == Assign(old(contents), key, val)
      ensures Links() == old(Links()) && Keys() == old(Keys()) && Relearned(hint, key, hint')
    {
      hide Core, FreeSlot, Located, LinksOf, KeysOf, ValsOf;
      var n;
      n, hint' := HintedNode(hint, key);
      if n >= 0 {
        StoreValue(n, key, val);
        found := true;
      } else {
        found := Set(key, val);
      }
    }
  }

  /** The number of nodes after a rehash: doubled above three quarters, halved below one quarter, doubled if forced. */
  function RehashSize(size: nat, used: nat, force: bool): (n: nat) {
    if used >= size - size / 4 then size * 2
    else if used < size / 4 && size > 1 then size / 2
    else if force then size * 2 else size
  }

  // ---------- the abstract map ----------

  function Lookup(m: map<Obj, Obj>, key: Obj): (r: Option<Obj>) {
    if key in m then Some(m[key]) else None
  }

  /** Store to an existing key only. */
  function Assign(m: map<Obj, Obj>, key: Obj, val: Obj): (r: map<Obj, Obj>) {
    if key in m then m[key := val] else m
  }

  datatype Op =
    | New(key: Obj, val: Obj)
    | Put(key: Obj, val: Obj)
    | Del(key: Obj)
    | Wipe(rehash: bool)
    | Copy
    | Look(key: Obj)
    /** Literal get and set with whatever the instruction's hint word holds. */
    | HintedLook(name: string, hint: nat)
    | HintedPut(name: string, val: Obj, hint: nat)
    | Count

  datatype Seen = Nothing | Value(found: Option<Obj>) | Stored(ok: bool) | Size(n: nat)

  ghost function Effect(m: map<Obj, Obj>, op: Op): (m': map<Obj, Obj>) {
    match op
    case New(k, v) => m[k := v]
    case Put(k, v) => Assign(m, k, v)
    case HintedPut(s, v, _) => Assign(m, Str(s), v)
    case Del(k) => m - {k}
    case Wipe(_) => map[]
    case _ => m
  }

  ghost function Answer(m: map<Obj, Obj>, op: Op): (s: Seen) {
    match op
    case Look(k) => Value(Lookup(m, k))
    case HintedLook(s, _) => Value(Lookup(m, Str(s)))
    case Put(k, _) => Stored(k in m)
    case HintedPut(s, _, _) => Stored(Str(s) in m)
    case Count => Size(|m|)
    case _ => Nothing
  }

  ghost function After(ops: seq<Op>): (m: map<Obj, Obj>) {
    if ops == [] then map[] else Effect(After(ops[..|ops| - 1]), ops[|ops| - 1])
  }

  /** One operation of a run; a copy goes on with the copy. */
  method Step(t: Table, op: Op) returns (t': Table, seen: Seen)
    requires t.Valid() && t.HintSized()
    modifies t, t.nodes
    ensures t'.Valid() && t'.HintSized() && (t' == t || fresh(t')) && (t'.nodes == old(t.nodes) || fresh(t'.nodes))
    ensures t'.contents == Effect(old(t.contents), op) && seen == Answer(old(t.contents), op)
  {
    hide Table.Valid, After;
    t', seen := t, Nothing;
    match op
    case New(k, v) => var _ := t.NewSlot(k, v);
    case Put(k, v) => var ok := t.Set(k, v); seen := Stored(ok);
    case HintedPut(s, v, h) => var ok, _ := t.SetLiteral(h, Str(s), v); seen := Stored(ok);
    case Del(k) => t.Remove(k);
    case Wipe(r) => t.Clear(r);
    case Copy => t' := t.Clone();
    case Look(k) => var r := t.Get(k); seen := Value(r);
    case HintedLook(s, h) => var r, _ := t.GetLiteral(h, Str(s)); seen := Value(r);
    case Count => var n := t.CountUsed(); seen := Size(n);
  }

  /** Every run: the table answers as the finite map would, at every point. */
  method Run(initialSize: nat, slot: Slot, mix: (nat, nat, Obj) -> nat, ops: seq<Op>)
    returns (t: Table, seen: seq<Seen>)
    ensures t.Valid() && t.HintSized() && t.contents == After(ops)
    ensures |seen| == |ops| && forall i :: 0 <= i < |ops| ==> seen[i] == Answer(After(ops[..i]), ops[i])
  {
    hide Table.Valid, Table.HintSized, Effect, Answer;
    t := new Table(initialSize, slot, mix);
    seen := [];
    for i := 0 to |ops|
      invariant fresh(t) && fresh(t.nodes) && t.Valid() && t.HintSized() && t.contents == After(ops[..i])
      invariant |seen| == i && forall j :: 0 <= j < i ==> seen[j] == Answer(After(ops[..j]), ops[j])
    {
      assert ops[..i + 1][..i] == ops[..i];
      var s;
      t, s := Step(t, ops[i]);
      seen := seen + [s];
    }
    assert ops[..|ops|] == ops;
  }

  /** The condition fails on an ordinary input: the first key put into a table of the smallest size is new, and the
      answer is that it is not. */
  method FirstKeyIsNotNew(slot: Slot, mix: (nat, nat, Obj) -> nat, key: Obj, val: Obj) returns (t: Table, created: bool)
    ensures !created && t.Valid() && t.contents == map[key := val]
  {
    t := new Table(0, slot, mix);
    created := t.NewSlot(key, val);
  }

  // ---------- lemmas ----------

  /** The live keys from node `i` on, in node order. */
  ghost function LiveKeys(ks: Keys, i: nat): (r: seq<Obj>)
    decreases |ks| - i
  {
    if i >= |ks| then []
    else if ks[i].Some? then [ks[i].value] + LiveKeys(ks, i + 1)
    else LiveKeys(ks, i + 1)
  }

  lemma {:induction false} LiveKeysFrom(ks: Keys, loc: map<Obj, nat>, i: nat)
    requires Located(ks, loc) && i <= |ks|
    ensures Distinct(LiveKeys(ks, i))
    ensures forall k :: k in LiveKeys(ks, i) <==> k in loc && loc[k] >= i
    decreases |ks| - i
  {
    if i < |ks| {
      LiveKeysFrom(ks, loc, i + 1);
      forall k ensures k in LiveKeys(ks, i) <==> k in loc && loc[k] >= i {
        if k in loc && loc[k] == i { assert ks[loc[k]] == Some(k); }
      }
    }
  }

  lemma LiveKeysOnce(ks: Keys, loc: map<Obj, nat>)
    requires Located(ks, loc)
    ensures Distinct(LiveKeys(ks, 0)) && |LiveKeys(ks, 0)| == |loc|
    ensures forall k :: k in LiveKeys(ks, 0) <==> k in loc
  {
    LiveKeysFrom(ks, loc, 0);
    var s := LiveKeys(ks, 0);
    DistinctCount(s, loc.Keys);
    assert |loc| == |loc.Keys|;
  }

  /** The contents with some value for `key`. */
  ghost predicate Grew(was: map<Obj, Obj>, now: map<Obj, Obj>, key: Obj) {
    key in now && now == was[key := now[key]]
  }

  lemma RoomLeft(nx: Links, ks: Keys, nx': Links, ks': Keys, f: int, free: int)
    requires OnlyFilled(nx, ks, nx', ks', f)
    ensures (exists i :: 0 <= i <= free && FreeSlot(nx', ks', i)) <==>
            (exists i :: 0 <= i <= free && i != f && FreeSlot(nx, ks, i))
  {
    hide FreeSlot;
    if i :| 0 <= i <= free && i != f && FreeSlot(nx, ks, i) {
      assert FreeSlot(nx', ks', i);
    }
  }

  lemma GrewThen(was: map<Obj, Obj>, now: map<Obj, Obj>, key: Obj, val: Obj)
    requires Grew(was, now, key)
    ensures now[key := val] == was[key := val]
  {
  }

  lemma AddedKeys(was: map<Obj, nat>, loc: map<Obj, nat>, key: Obj, mp: nat)
    requires Added(was, loc, key, mp)
    ensures loc.Keys == was.Keys + {key} && |loc| == |was| + 1 && key in loc && loc[key] == mp
  {
  }

  /** `loc` gained `key`, at node `mp`. */
  ghost predicate Added(was: map<Obj, nat>, loc: map<Obj, nat>, key: Obj, mp: nat) {
    loc.Keys == was.Keys + {key} && loc[key] == mp && |loc| == |was| + 1
  }

  /** The moved node takes the free place, as array writes. */
  method MoveNodes(nodes: array<Node>, ghost nx: Links, ghost ks: Keys, prev: nat, mp: nat, n: nat, key: Obj)
    requires nx == LinksOf(nodes[..]) && ks == KeysOf(nodes[..])
    requires prev < nodes.Length && mp < nodes.Length && n < nodes.Length && prev != mp && prev != n && mp != n
    modifies nodes
    ensures LinksOf(nodes[..]) == MoveLinks(nx, prev, mp, n)
    ensures KeysOf(nodes[..]) == ks[n := ks[mp]][mp := Some(key)]
    ensures ValsOf(nodes[..]) == old(ValsOf(nodes[..])[n := nodes[mp].val][mp := Null])
  {
    nodes[prev] := nodes[prev].(next := n);
    nodes[n] := Node(nodes[mp].key, nodes[mp].val, nodes[mp].next);
    nodes[mp] := Node(Some(key), Null, -1);
  }

  /** The newcomer's key in its main position, as an array write. */
  method TakeNode(nodes: array<Node>, mp: nat, key: Obj)
    requires mp < nodes.Length
    modifies nodes
    ensures LinksOf(nodes[..]) == old(LinksOf(nodes[..]))
    ensures KeysOf(nodes[..]) == old(KeysOf(nodes[..])[mp := Some(key)])
    ensures ValsOf(nodes[..]) == old(ValsOf(nodes[..])) && nodes[mp].key == Some(key)
  {
    nodes[mp] := nodes[mp].(key := Some(key));
  }

  /** A node without key and value, its link as it was. */
  method FreeNode(nodes: array<Node>, n: nat)
    requires n < nodes.Length
    modifies nodes
    ensures LinksOf(nodes[..]) == old(LinksOf(nodes[..]))
    ensures KeysOf(nodes[..]) == old(KeysOf(nodes[..])[n := None])
    ensures ValsOf(nodes[..]) == old(ValsOf(nodes[..])[n := Null])
  {
    nodes[n] := Node(None, Null, nodes[n].next);
  }

  /** The new node behind the main position, as array writes. */
  method SpliceNodes(nodes: array<Node>, ghost nx: Links, ghost ks: Keys, mp: nat, n: nat, key: Obj)
    requires nx == LinksOf(nodes[..]) && ks == KeysOf(nodes[..])
    requires mp < nodes.Length && n < nodes.Length && mp != n
    modifies nodes
    ensures LinksOf(nodes[..]) == SpliceLinks(nx, mp, n)
    ensures KeysOf(nodes[..]) == ks[n := Some(key)]
    ensures ValsOf(nodes[..]) == old(ValsOf(nodes[..])) && nodes[n].key == Some(key)
  {
    nodes[n] := Node(Some(key), nodes[n].val, nodes[mp].next);
    nodes[mp] := nodes[mp].(next := n);
  }

  /** Exactly the keys found in the first `i` old nodes have been carried over, with their values. */
  ghost predicate Copied(was: map<Obj, Obj>, oldLoc: map<Obj, nat>, loc: map<Obj, nat>, now: map<Obj, Obj>, i: nat) {
    && was.Keys == oldLoc.Keys && now.Keys == loc.Keys
    && (forall k :: k in loc <==> k in oldLoc && oldLoc[k] < i)
    && (forall k :: k in now && k in was ==> now[k] == was[k])
  }

  lemma CopiedStart(was: map<Obj, Obj>, oldLoc: map<Obj, nat>, vs: seq<Obj>)
    requires Holds(vs, oldLoc, was)
    ensures Copied(was, oldLoc, map[], map[], 0)
  {
  }

  lemma CopiedDone(was: map<Obj, Obj>, oldLoc: map<Obj, nat>, loc: map<Obj, nat>, now: map<Obj, Obj>, ks: Keys)
    requires Located(ks, oldLoc) && Copied(was, oldLoc, loc, now, |ks|)
    ensures now == was && loc.Keys == oldLoc.Keys
  {
  }

  /** The next old key is not carried over yet, and there is room for it. */
  lemma CopiedNext(was: map<Obj, Obj>, oldLoc: map<Obj, nat>, loc: map<Obj, nat>, now: map<Obj, Obj>,
                   ks: Keys, vs: seq<Obj>, i: nat)
    requires Copied(was, oldLoc, loc, now, i) && Located(ks, oldLoc)
    requires i < |ks| && ks[i].Some?
    ensures ks[i].value !in loc && |loc| < |oldLoc|
  {
    var k := ks[i].value;
    assert oldLoc[k] == i;
    assert loc.Keys <= oldLoc.Keys - {k};
    SubsetCard(loc.Keys, oldLoc.Keys - {k});
  }

  lemma CopiedStep(was: map<Obj, Obj>, oldLoc: map<Obj, nat>, loc: map<Obj, nat>, now: map<Obj, Obj>,
                   ks: Keys, vs: seq<Obj>, i: nat, loc': map<Obj, nat>)
    requires Copied(was, oldLoc, loc, now, i) && Located(ks, oldLoc) && Holds(vs, oldLoc, was)
    requires i < |ks| == |vs| && ks[i].Some? && loc'.Keys == loc.Keys + {ks[i].value}
    ensures Copied(was, oldLoc, loc', now[ks[i].value := vs[i]], i + 1)
  {
    var k := ks[i].value;
    assert oldLoc[k] == i && was[k] == vs[i];
    forall x ensures x in loc' <==> x in oldLoc && oldLoc[x] < i + 1 {
      if x in oldLoc && oldLoc[x] == i {
        assert ks[oldLoc[x]] == Some(x);
      }
    }
  }

  lemma CopiedSkip(was: map<Obj, Obj>, oldLoc: map<Obj, nat>, loc: map<Obj, nat>, now: map<Obj, Obj>,
                   ks: Keys, vs: seq<Obj>, i: nat)
    requires Copied(was, oldLoc, loc, now, i) && Located(ks, oldLoc)
    requires i < |ks| && ks[i].None?
    ensures Copied(was, oldLoc, loc, now, i + 1)
  {
  }

  lemma {:induction false} SubsetCard<T>(a: set<T>, b: set<T>)
    requires a <= b
    ensures |a| <= |b|
  {
    if a != {} {
      var x :| x in a;
      SubsetCard(a - {x}, b - {x});
    }
  }
}
