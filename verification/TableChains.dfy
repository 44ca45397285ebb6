/** The node array of SQTable as a value: chains, main positions, and what the three
    ways of placing a key do to them. */
module TableChains {
  import opened Objects

  /** A slot; `key == None` is OT_FREE_TABLE_SLOT and `next == -1` is the null link.
      A removed key leaves `key == None` with `next` untouched. */
  datatype Node = Node(key: Option<Obj>, val: Obj, next: int)

  const EMPTY_NODE := Node(None, Null, -1)

  /** The main position `HashObj(key) & (size - 1)`; all the table relies on is that the mask
      keeps it inside the array. */
  type Slot = f: (Obj, nat) -> nat | forall k, n :: n > 0 ==> f(k, n) < n
    witness (k: Obj, n: nat) => 0

  type Links = seq<int>
  type Keys = seq<Option<Obj>>

  ghost function LinksOf(ns: seq<Node>): (nx: Links)
    ensures |nx| == |ns| && forall i :: 0 <= i < |ns| ==> nx[i] == ns[i].next
  {
    seq(|ns|, i requires 0 <= i < |ns| => ns[i].next)
  }

  ghost function KeysOf(ns: seq<Node>): (ks: Keys)
    ensures |ks| == |ns| && forall i :: 0 <= i < |ns| ==> ks[i] == ns[i].key
  {
    seq(|ns|, i requires 0 <= i < |ns| => ns[i].key)
  }

  ghost function ValsOf(ns: seq<Node>): (vs: seq<Obj>)
    ensures |vs| == |ns| && forall i :: 0 <= i < |ns| ==> vs[i] == ns[i].val
  {
    seq(|ns|, i requires 0 <= i < |ns| => ns[i].val)
  }

  ghost predicate IsPow2(n: int) {
    n == 1 || (n > 1 && n % 2 == 0 && IsPow2(n / 2))
  }

  lemma Pow2Gap(p: int, q: int)
    requires IsPow2(p) && IsPow2(q) && p < q
    ensures 2 * p <= q
  {
    if p != 1 {
      Pow2Gap(p / 2, q / 2);
    }
  }

  // ---------- links ----------

  /** Links stay inside the array and every link goes to a smaller rank: no cycles. */
  ghost predicate Linked(nx: Links, rank: seq<nat>) {
    && |rank| == |nx|
    && forall i :: 0 <= i < |nx| ==> -1 <= nx[i] < |nx| && (nx[i] >= 0 ==> rank[nx[i]] < rank[i])
  }

  /** Following `next` zero or more times from `i` arrives at `j`. */
  ghost predicate Reach(nx: Links, rank: seq<nat>, i: int, j: int)
    requires Linked(nx, rank) && 0 <= i < |nx|
    decreases rank[i]
  {
    i == j || (nx[i] >= 0 && Reach(nx, rank, nx[i], j))
  }

  ghost predicate OnePred(nx: Links) {
    forall i, j :: 0 <= i < |nx| && 0 <= j < |nx| && nx[i] == nx[j] && nx[i] >= 0 ==> i == j
  }

  /** Nodes that have a predecessor lie above the free pointer, or on it while it is `taken`
      (just after it was filled). */
  ghost predicate AboveFree(nx: Links, free: int, taken: bool) {
    forall i :: 0 <= i < |nx| && nx[i] >= 0 ==> nx[i] > free || (nx[i] == free && taken)
  }

  // ---------- keys ----------

  /** `loc` is the inverse of the key column: each live key sits in exactly one node. */
  ghost predicate Located(ks: Keys, loc: map<Obj, nat>) {
    && (forall k :: k in loc ==> loc[k] < |ks| && ks[loc[k]] == Some(k))
    && (forall i :: 0 <= i < |ks| && ks[i].Some? ==> ks[i].value in loc && loc[ks[i].value] == i)
  }

  /** The values at the keys' nodes are those of the finite map `m`. */
  ghost predicate Holds(vs: seq<Obj>, loc: map<Obj, nat>, m: map<Obj, Obj>) {
    m.Keys == loc.Keys && forall k :: k in loc ==> loc[k] < |vs| && vs[loc[k]] == m[k]
  }

  /** Every key is on the chain that starts at its main position. */
  ghost predicate Findable(nx: Links, rank: seq<nat>, loc: map<Obj, nat>, slot: Slot)
    requires |nx| > 0 && Linked(nx, rank)
  {
    forall k :: k in loc ==> Reach(nx, rank, slot(k, |nx|), loc[k])
  }

  /** If the main position of a live key is occupied, then by a key that belongs there: a node that
      holds a displaced key is the main position of no live key. */
  ghost predicate NoSquatter(ks: Keys, loc: map<Obj, nat>, slot: Slot)
    requires |ks| > 0
  {
    forall m :: m in loc && ks[slot(m, |ks|)].Some? ==> slot(ks[slot(m, |ks|)].value, |ks|) == slot(m, |ks|)
  }

  ghost predicate Core(nx: Links, ks: Keys, free: int, rank: seq<nat>, loc: map<Obj, nat>, slot: Slot) {
    && 0 <= free < |nx| == |ks| == |rank|
    && Linked(nx, rank)
    && OnePred(nx)
    && AboveFree(nx, free, ks[free].Some?)
    && Located(ks, loc)
    && Findable(nx, rank, loc, slot)
    && NoSquatter(ks, loc, slot)
  }

  ghost predicate FreeSlot(nx: Links, ks: Keys, free: int) {
    0 <= free < |nx| == |ks| && ks[free].None? && nx[free] == -1
  }

  /** Node `f` is not free now, and every other node is free if it was. */
  ghost predicate OnlyFilled(nx: Links, ks: Keys, nx': Links, ks': Keys, f: int) {
    && !FreeSlot(nx', ks', f)
    && forall i {:trigger FreeSlot(nx', ks', i)} :: i != f ==> (FreeSlot(nx', ks', i) <==> FreeSlot(nx, ks, i))
  }

  /** The invariant of a table between operations. */
  ghost predicate Inv(nx: Links, ks: Keys, free: int, rank: seq<nat>, loc: map<Obj, nat>, slot: Slot) {
    Core(nx, ks, free, rank, loc, slot) && FreeSlot(nx, ks, free)
  }

  ghost predicate EmptyNodes(ns: seq<Node>) {
    forall i :: 0 <= i < |ns| ==> ns[i] == EMPTY_NODE
  }

  /** An array of empty nodes is a table of no keys, wherever the free pointer stands. */
  lemma EmptyInv(ns: seq<Node>, free: nat, slot: Slot)
    requires EmptyNodes(ns) && free < |ns|
    ensures Inv(LinksOf(ns), KeysOf(ns), free, seq(|ns|, _ => 0), map[], slot)
    ensures Holds(ValsOf(ns), map[], map[])
    ensures Compact(LinksOf(ns), KeysOf(ns), |ns| - 1)
  {
  }

  // ---------- counting ----------

  lemma {:induction false} LocBound(ks: Keys, loc: map<Obj, nat>)
    requires Located(ks, loc)
    ensures |loc| <= |ks|
  {
    var n := |ks|;
    if n == 0 {
      assert loc == map[];
    } else if ks[n - 1].Some? {
      var loc' := loc - {ks[n - 1].value};
      LocBound(ks[..n - 1], loc');
      assert loc == loc'[ks[n - 1].value := n - 1];
    } else {
      LocBound(ks[..n - 1], loc);
    }
  }

  /** With every node occupied there are as many keys as nodes. */
  lemma {:induction false} FullCount(ks: Keys, loc: map<Obj, nat>)
    requires Located(ks, loc)
    requires forall i :: 0 <= i < |ks| ==> ks[i].Some?
    ensures |loc| == |ks|
  {
    var n := |ks|;
    if n == 0 {
      assert loc == map[];
    } else {
      var loc' := loc - {ks[n - 1].value};
      FullCount(ks[..n - 1], loc');
      assert loc == loc'[ks[n - 1].value := n - 1];
    }
  }

  /** A table that was never deleted from: free nodes carry no link, nodes above the free pointer are taken. */
  ghost predicate Compact(nx: Links, ks: Keys, free: int) {
    && |nx| == |ks|
    && (forall i :: 0 <= i < |nx| && ks[i].None? ==> nx[i] == -1)
    && (forall i :: 0 <= i < |nx| && i > free ==> ks[i].Some?)
  }

  // ---------- the three placements of NewSlot ----------

  /** The free node is the main position of no live key: its chain is empty. */
  lemma FreeIsNoMain(nx: Links, ks: Keys, free: int, rank: seq<nat>, loc: map<Obj, nat>, slot: Slot)
    requires Inv(nx, ks, free, rank, loc, slot)
    ensures forall k :: k in loc ==> slot(k, |nx|) != free
  {
    forall k | k in loc ensures slot(k, |nx|) != free {
      assert Reach(nx, rank, slot(k, |nx|), loc[k]);
    }
  }

  /** The main position is free (possibly a removed key's node inside some chain). */
  lemma PlaceAtMain(nx: Links, ks: Keys, free: int, rank: seq<nat>, loc: map<Obj, nat>, slot: Slot, key: Obj)
    requires Inv(nx, ks, free, rank, loc, slot) && key !in loc
    requires ks[slot(key, |nx|)].None?
    ensures Core(nx, ks[slot(key, |nx|) := Some(key)], free, rank, loc[key := slot(key, |nx|)], slot)
  {
  }

  function SpliceLinks(nx: Links, mp: nat, n: nat): (r: Links)
    requires mp < |nx| && n < |nx|
  {
    nx[n := nx[mp]][mp := n]
  }

  /** Ranks after a splice: doubling leaves room for the spliced node. */
  ghost function SpliceRank(rank: seq<nat>, mp: nat, n: nat): (r: seq<nat>)
    requires mp < |rank| && n < |rank|
    ensures |r| == |rank| && r[n] == 2 * rank[mp] + 1
    ensures forall x :: 0 <= x < |rank| && x != n ==> r[x] == 2 * rank[x] + 2
  {
    seq(|rank|, x requires 0 <= x < |rank| => if x == n then 2 * rank[mp] + 1 else 2 * rank[x] + 2)
  }

  lemma SpliceLinked(nx: Links, rank: seq<nat>, mp: nat, n: nat)
    requires Linked(nx, rank) && OnePred(nx) && AboveFree(nx, n, false)
    requires mp < |nx| && n < |nx| && mp != n && nx[n] == -1
    ensures var nx' := SpliceLinks(nx, mp, n);
            Linked(nx', SpliceRank(rank, mp, n)) && OnePred(nx') && AboveFree(nx', n, true)
  {
  }

  /** Splicing a fresh node into a chain loses no path. */
  lemma {:induction false} SpliceReach(nx: Links, rank: seq<nat>, rank': seq<nat>, mp: nat, n: nat, i: int, j: int)
    requires mp < |nx| && n < |nx| && mp != n && nx[n] == -1
    requires Linked(nx, rank) && Linked(SpliceLinks(nx, mp, n), rank')
    requires 0 <= i < |nx| && Reach(nx, rank, i, j)
    ensures Reach(SpliceLinks(nx, mp, n), rank', i, j)
    decreases rank[i]
  {
    if i != j {
      SpliceReach(nx, rank, rank', mp, n, nx[i], j);
      if i == mp {
        assert Reach(SpliceLinks(nx, mp, n), rank', n, j);
      }
    }
  }

  /** The main position is held by a key that belongs there: the newcomer goes to the free node, behind it. */
  lemma PlaceBehind(nx: Links, ks: Keys, free: int, rank: seq<nat>, loc: map<Obj, nat>, slot: Slot, key: Obj)
    requires Inv(nx, ks, free, rank, loc, slot) && key !in loc
    requires var mp := slot(key, |nx|); ks[mp].Some? && slot(ks[mp].value, |nx|) == mp
    ensures var mp := slot(key, |nx|);
            Core(SpliceLinks(nx, mp, free), ks[free := Some(key)], free, SpliceRank(rank, mp, free), loc[key := free],
                 slot)
  {
    var mp := slot(key, |nx|);
    var nx', rank', loc' := SpliceLinks(nx, mp, free), SpliceRank(rank, mp, free), loc[key := free];
    hide OnePred, AboveFree, Located, NoSquatter, SpliceRank;
    SpliceLinked(nx, rank, mp, free);
    FreeIsNoMain(nx, ks, free, rank, loc, slot);
    BehindKeys(ks, free, loc, slot, key);
    forall k | k in loc' ensures Reach(nx', rank', slot(k, |nx|), loc'[k]) {
      if k == key {
        assert Reach(nx', rank', free, free);
      } else {
        SpliceReach(nx, rank, rank', mp, free, slot(k, |nx|), loc[k]);
      }
    }
  }

  lemma BehindKeys(ks: Keys, free: nat, loc: map<Obj, nat>, slot: Slot, key: Obj)
    requires free < |ks| && Located(ks, loc) && NoSquatter(ks, loc, slot) && key !in loc && ks[free].None?
    requires forall k :: k in loc ==> slot(k, |ks|) != free
    requires var mp := slot(key, |ks|); ks[mp].Some? && slot(ks[mp].value, |ks|) == mp
    ensures Located(ks[free := Some(key)], loc[key := free])
    ensures NoSquatter(ks[free := Some(key)], loc[key := free], slot)
  {
  }

  /** `n` takes the place of `mp` behind `prev`; `mp` is cut loose. */
  function MoveLinks(nx: Links, prev: nat, mp: nat, n: nat): (r: Links)
    requires prev < |nx| && mp < |nx| && n < |nx|
  {
    nx[prev := n][n := nx[mp]][mp := -1]
  }

  lemma MoveLinked(nx: Links, rank: seq<nat>, prev: nat, mp: nat, n: nat)
    requires Linked(nx, rank) && OnePred(nx) && AboveFree(nx, n, false)
    requires prev < |nx| && mp < |nx| && n < |nx| && nx[n] == -1 && nx[prev] == mp
    ensures prev != n && mp != n && prev != mp
    ensures var nx' := MoveLinks(nx, prev, mp, n);
            Linked(nx', rank[n := rank[mp]]) && OnePred(nx') && AboveFree(nx', n, true)
  {
  }

  /** A path that avoids `mp` at its start survives the move; one that ended at `mp` now ends at `n`. */
  lemma {:induction false} MoveReach(nx: Links, rank: seq<nat>, rank': seq<nat>,
                                     prev: nat, mp: nat, n: nat, i: int, j: int)
    requires prev < |nx| && mp < |nx| && n < |nx| && mp != n && nx[n] == -1 && nx[prev] == mp && prev != mp
    requires Linked(nx, rank) && OnePred(nx) && Linked(MoveLinks(nx, prev, mp, n), rank')
    requires 0 <= i < |nx| && Reach(nx, rank, i, j) && i != mp && i != n && j != n
    ensures Reach(MoveLinks(nx, prev, mp, n), rank', i, if j == mp then n else j)
    decreases rank[i]
  {
    if i != j {
      var nx' := MoveLinks(nx, prev, mp, n);
      if nx[i] == mp {
        assert i == prev;
        if j == mp {
          assert Reach(nx', rank', n, n);
        } else {
          assert Reach(nx, rank, nx[mp], j);
          assert nx[mp] != n;
          MoveReach(nx, rank, rank', prev, mp, n, nx[mp], j);
          assert Reach(nx', rank', n, j);
        }
      } else {
        assert nx[i] != n;
        MoveReach(nx, rank, rank', prev, mp, n, nx[i], j);
      }
    }
  }

  lemma MoveKeys(ks: Keys, free: nat, loc: map<Obj, nat>, slot: Slot, key: Obj)
    requires free < |ks| && Located(ks, loc) && NoSquatter(ks, loc, slot) && key !in loc && ks[free].None?
    requires forall k :: k in loc ==> slot(k, |ks|) != free
    requires var mp := slot(key, |ks|); ks[mp].Some? && slot(ks[mp].value, |ks|) != mp
    ensures var mp := slot(key, |ks|);
            var ks', loc' := ks[free := ks[mp]][mp := Some(key)], loc[ks[mp].value := free][key := mp];
            Located(ks', loc') && NoSquatter(ks', loc', slot)
    ensures forall k :: k in loc ==> slot(k, |ks|) != slot(key, |ks|)
  {
  }

  /** The main position holds a displaced key: that key moves to the free node and the newcomer takes its place. */
  lemma PlaceByMove(nx: Links, ks: Keys, free: int, rank: seq<nat>, loc: map<Obj, nat>, slot: Slot, key: Obj, prev: nat)
    requires Inv(nx, ks, free, rank, loc, slot) && key !in loc
    requires prev < |nx| && nx[prev] == slot(key, |nx|)
    requires var mp := slot(key, |nx|); ks[mp].Some? && slot(ks[mp].value, |nx|) != mp
    ensures var mp := slot(key, |nx|);
            Core(MoveLinks(nx, prev, mp, free), ks[free := ks[mp]][mp := Some(key)], free, rank[free := rank[mp]],
                 loc[ks[mp].value := free][key := mp], slot)
  {
    var mp := slot(key, |nx|);
    var other := ks[mp].value;
    var nx', rank', loc' := MoveLinks(nx, prev, mp, free), rank[free := rank[mp]], loc[other := free][key := mp];
    MoveLinked(nx, rank, prev, mp, free);
    FreeIsNoMain(nx, ks, free, rank, loc, slot);
    MoveKeys(ks, free, loc, slot, key);
    forall k | k in loc' ensures Reach(nx', rank', slot(k, |nx|), loc'[k]) {
      if k == key {
        assert Reach(nx', rank', mp, mp);
      } else {
        assert loc[other] == mp;
        MoveReach(nx, rank, rank', prev, mp, free, slot(k, |nx|), loc[k]);
      }
    }
  }

  /** Removing a key only clears its node; the chain through it stays. */
  lemma Tombstone(nx: Links, ks: Keys, free: int, rank: seq<nat>, loc: map<Obj, nat>, slot: Slot, key: Obj)
    requires Inv(nx, ks, free, rank, loc, slot) && key in loc
    ensures Inv(nx, ks[loc[key] := None], free, rank, loc - {key}, slot)
  {
  }

  /** Whatever a walk reaches beyond its start has a predecessor. */
  lemma {:induction false} ReachHasPred(nx: Links, rank: seq<nat>, i: int, j: int)
    requires Linked(nx, rank) && 0 <= i < |nx| && Reach(nx, rank, i, j) && i != j
    ensures exists p :: 0 <= p < |nx| && nx[p] == j && j >= 0
    decreases rank[i]
  {
    if nx[i] != j {
      ReachHasPred(nx, rank, nx[i], j);
    }
  }

  // ---------- values under the placements ----------

  lemma HoldsAdd(vs: seq<Obj>, ks: Keys, loc: map<Obj, nat>, m: map<Obj, Obj>, n: nat, key: Obj)
    requires Located(ks, loc) && Holds(vs, loc, m) && |vs| == |ks| && n < |ks| && ks[n].None? && key !in loc
    ensures Holds(vs, loc[key := n], m[key := vs[n]])
  {
  }

  lemma HoldsMove(vs: seq<Obj>, ks: Keys, loc: map<Obj, nat>, m: map<Obj, Obj>, mp: nat, n: nat, key: Obj)
    requires Located(ks, loc) && Holds(vs, loc, m) && |vs| == |ks|
    requires mp < |ks| && n < |ks| && ks[n].None? && ks[mp].Some? && key !in loc
    ensures ks[mp].value in loc
    ensures Holds(vs[n := vs[mp]][mp := Null], loc[ks[mp].value := n][key := mp], m[key := Null])
  {
  }

  lemma HoldsStore(vs: seq<Obj>, ks: Keys, loc: map<Obj, nat>, m: map<Obj, Obj>, n: nat, key: Obj, val: Obj)
    requires Located(ks, loc) && Holds(vs, loc, m) && |vs| == |ks| && n < |ks| && ks[n] == Some(key)
    ensures key in loc && Holds(vs[n := val], loc, m[key := val])
  {
  }

  lemma HoldsRemove(vs: seq<Obj>, ks: Keys, loc: map<Obj, nat>, m: map<Obj, Obj>, key: Obj)
    requires Located(ks, loc) && Holds(vs, loc, m) && |vs| == |ks| && key in loc
    ensures Holds(vs[loc[key] := Null], loc - {key}, m - {key})
  {
  }

  // ---------- compactness under the placements ----------

  lemma CompactMain(nx: Links, ks: Keys, free: int, mp: nat, key: Obj)
    requires Compact(nx, ks, free) && mp < |nx|
    ensures Compact(nx, ks[mp := Some(key)], free)
  {
  }

  lemma CompactSplice(nx: Links, ks: Keys, free: nat, mp: nat, key: Obj)
    requires Compact(nx, ks, free) && mp < |nx| && free < |nx| && ks[mp].Some?
    ensures Compact(SpliceLinks(nx, mp, free), ks[free := Some(key)], free)
  {
  }

  lemma CompactMove(nx: Links, ks: Keys, free: nat, prev: nat, mp: nat, key: Obj)
    requires Compact(nx, ks, free) && prev < |nx| && mp < |nx| && free < |nx| && ks[mp].Some? && nx[prev] == mp
    ensures Compact(MoveLinks(nx, prev, mp, free), ks[free := ks[mp]][mp := Some(key)], free)
  {
  }

  /** Everything the move of a collider keeps, over all columns of the table. */
  lemma MoveKeeps(nx: Links, ks: Keys, vs: seq<Obj>, free: nat, rank: seq<nat>, loc: map<Obj, nat>, m: map<Obj, Obj>,
                  slot: Slot, key: Obj, mp: nat, prev: nat)
    requires Inv(nx, ks, free, rank, loc, slot) && Holds(vs, loc, m) && |vs| == |ks| && key !in loc
    requires mp == slot(key, |nx|) && prev < |nx| && nx[prev] == mp && ks[mp].Some? && slot(ks[mp].value, |nx|) != mp
    ensures free < |nx| && prev != free && mp != free && prev != mp
    ensures var ks', loc' := ks[free := ks[mp]][mp := Some(key)], loc[ks[mp].value := free][key := mp];
            && Core(MoveLinks(nx, prev, mp, free), ks', free, rank[free := rank[mp]], loc', slot)
            && Located(ks', loc') && Holds(vs[free := vs[mp]][mp := Null], loc', m[key := Null])
            && loc'.Keys == loc.Keys + {key} && |loc'| == |loc| + 1
            && (Compact(nx, ks, free) ==> Compact(MoveLinks(nx, prev, mp, free), ks', free))
            && OnlyFilled(nx, ks, MoveLinks(nx, prev, mp, free), ks', free)
  {
    hide Linked, OnePred, AboveFree, Findable, NoSquatter, Compact, Located, Holds;
    HoldsMove(vs, ks, loc, m, mp, free, key);
    PlaceByMove(nx, ks, free, rank, loc, slot, key, prev);
    MoveLinked(nx, rank, prev, mp, free);
    if Compact(nx, ks, free) {
      CompactMove(nx, ks, free, prev, mp, key);
    }
  }

  /** Everything a removal keeps. */
  lemma RemoveKeeps(nx: Links, ks: Keys, vs: seq<Obj>, free: nat, rank: seq<nat>, loc: map<Obj, nat>, m: map<Obj, Obj>,
                    slot: Slot, key: Obj)
    requires Inv(nx, ks, free, rank, loc, slot) && Holds(vs, loc, m) && |vs| == |ks| && key in loc
    ensures loc[key] < |ks| && |loc - {key}| == |loc| - 1
    ensures var ks', loc' := ks[loc[key] := None], loc - {key};
            && Core(nx, ks', free, rank, loc', slot) && FreeSlot(nx, ks', free) && Located(ks', loc')
            && Holds(vs[loc[key] := Null], loc', m - {key})
  {
    hide Linked, OnePred, AboveFree, Findable, NoSquatter, Holds, Located;
    LocatedAt(ks, loc, key);
    Tombstone(nx, ks, free, rank, loc, slot, key);
    HoldsRemove(vs, ks, loc, m, key);
    assert loc == (loc - {key})[key := loc[key]];
  }

  lemma LocatedAt(ks: Keys, loc: map<Obj, nat>, key: Obj)
    requires Located(ks, loc) && key in loc
    ensures loc[key] < |ks|
  {
  }

  /** Everything kept when the newcomer is linked in behind its main position. */
  lemma SpliceKeeps(nx: Links, ks: Keys, vs: seq<Obj>, free: nat, rank: seq<nat>, loc: map<Obj, nat>, m: map<Obj, Obj>,
                    slot: Slot, key: Obj, mp: nat)
    requires Inv(nx, ks, free, rank, loc, slot) && Holds(vs, loc, m) && |vs| == |ks| && key !in loc
    requires mp == slot(key, |nx|) && ks[mp].Some? && slot(ks[mp].value, |nx|) == mp
    ensures free < |nx| && mp != free
    ensures var ks', loc' := ks[free := Some(key)], loc[key := free];
            && Core(SpliceLinks(nx, mp, free), ks', free, SpliceRank(rank, mp, free), loc', slot)
            && Located(ks', loc') && Holds(vs, loc', m[key := vs[free]])
            && |loc'| == |loc| + 1
            && (Compact(nx, ks, free) ==> Compact(SpliceLinks(nx, mp, free), ks', free))
            && OnlyFilled(nx, ks, SpliceLinks(nx, mp, free), ks', free)
  {
    hide Linked, OnePred, AboveFree, Findable, NoSquatter, Compact, Located, Holds;
    HoldsAdd(vs, ks, loc, m, free, key);
    PlaceBehind(nx, ks, free, rank, loc, slot, key);
    if Compact(nx, ks, free) {
      CompactSplice(nx, ks, free, mp, key);
    }
  }

  /** Everything kept when the newcomer takes its main position. */
  lemma MainKeeps(nx: Links, ks: Keys, vs: seq<Obj>, free: nat, rank: seq<nat>, loc: map<Obj, nat>, m: map<Obj, Obj>,
                  slot: Slot, key: Obj, mp: nat)
    requires Inv(nx, ks, free, rank, loc, slot) && Holds(vs, loc, m) && |vs| == |ks| && key !in loc
    requires mp == slot(key, |nx|) && ks[mp].None?
    ensures var ks', loc' := ks[mp := Some(key)], loc[key := mp];
            && Core(nx, ks', free, rank, loc', slot) && Located(ks', loc') && Holds(vs, loc', m[key := vs[mp]])
            && |loc'| == |loc| + 1
            && (Compact(nx, ks, free) ==> Compact(nx, ks', free))
            && OnlyFilled(nx, ks, nx, ks', mp)
  {
    hide Linked, OnePred, AboveFree, Findable, NoSquatter, Compact, Located, Holds;
    HoldsAdd(vs, ks, loc, m, mp, key);
    PlaceAtMain(nx, ks, free, rank, loc, slot, key);
    if Compact(nx, ks, free) {
      CompactMain(nx, ks, free, mp, key);
    }
  }

  /** The free pointer may step down from a node that is in use. */
  lemma StepDown(nx: Links, ks: Keys, free: nat, rank: seq<nat>, loc: map<Obj, nat>, slot: Slot)
    requires Core(nx, ks, free, rank, loc, slot) && !FreeSlot(nx, ks, free) && free > 0
    ensures Core(nx, ks, free - 1, rank, loc, slot)
    ensures Compact(nx, ks, free) ==> Compact(nx, ks, free - 1)
  {
    hide Linked, OnePred, Located, Findable, NoSquatter;
  }

  /** At the bottom of a table that was never deleted from, every node holds a key. */
  lemma AtBottom(nx: Links, ks: Keys, rank: seq<nat>, loc: map<Obj, nat>, slot: Slot)
    requires Core(nx, ks, 0, rank, loc, slot) && !FreeSlot(nx, ks, 0) && Compact(nx, ks, 0)
    ensures |loc| == |ks|
  {
    hide Linked, OnePred, Located, Findable, NoSquatter;
    FullCount(ks, loc);
  }
}
