/** sqstd_rex_compile: a recursive-descent parser that appends to the node array and patches its links. */
module RexCompiler {
  import opened Objects
  import opened Rex
  import opened RexNodes
  import opened RexMachine
  import opened RexCaptures
  import opened RexGrammar
  import opened RexLimits

  // ---------- numbering ----------

  /** The same groups from number `a` on, and maybe more. */
  ghost predicate Agree(gs: seq<Elem>, gs': seq<Elem>, a: nat) {
    |gs| <= |gs'| && forall k :: a <= k < |gs| ==> gs'[k] == gs[k]
  }

  lemma AgreeLater(gs: seq<Elem>, gs': seq<Elem>, a: nat, b: nat)
    requires Agree(gs, gs', a) && a <= b
    ensures Agree(gs, gs', b) && |gs| <= |gs'| && (a < |gs| ==> gs'[a] == gs[a])
  {
  }

  /** Numbering looks only at the groups of the node itself. */
  lemma {:induction false} NumberedFrame(e: Elem, a: nat, gs: seq<Elem>, gs': seq<Elem>)
    requires Numbered(e, a, gs) && Agree(gs, gs', a)
    ensures Numbered(e, a, gs')
    decreases Size(e), 0
  {
    hide Agree, Caps, CapsChain, NumberedChain;
    match e
    case Group(c, h, t) =>
      AgreeLater(gs, gs', a, if c >= 0 then a + 1 else a);
      NumberedChainFrame(Link(h, t), if c >= 0 then a + 1 else a, gs, gs');
    case Or(lh, lt, rh, rt) =>
      var b := a + Caps(lh) + CapsChain(lt);
      AgreeLater(gs, gs', a, b);
      NumberedChainFrame(Link(lh, lt), a, gs, gs');
      NumberedChainFrame(Link(rh, rt), b, gs, gs');
    case Greedy(b, _, _) => NumberedFrame(b, a, gs, gs');
    case _ =>
  }

  lemma {:induction false} NumberedChainFrame(c: Chain, a: nat, gs: seq<Elem>, gs': seq<Elem>)
    requires NumberedChain(c, a, gs) && Agree(gs, gs', a)
    ensures NumberedChain(c, a, gs')
    decreases ChainSize(c), 1
  {
    hide Agree, Numbered, Caps, CapsChain;
    if c.Link? {
      AgreeLater(gs, gs', a, a + Caps(c.head));
      NumberedFrame(c.head, a, gs, gs');
      NumberedChainFrame(c.tail, a + Caps(c.head), gs, gs');
    }
  }

  // ---------- patching links ----------

  /** Appending keeps what is there. */
  ghost predicate Grown(nodes: Nodes, nodes': Nodes) {
    |nodes| <= |nodes'| && nodes'[..|nodes|] == nodes
  }

  /** Node `x` gets a successor, where `y` starts a chain made of later nodes. */
  lemma Attach(nodes: Nodes, x: int, h: Elem, y: int, th: Elem, tt: Chain, lo: int, mid: int, hi: int)
    requires ElemAt(nodes, x, h, lo, mid) && LinkAt(nodes, y, th, tt, mid, hi) && lo <= mid <= hi
    ensures LinkAt(nodes[x := nodes[x].(next := y)], x, h, Link(th, tt), lo, hi)
  {
    var nodes' := nodes[x := nodes[x].(next := y)];
    ElemNext(nodes, x, h, lo, mid, y);
    ElemFrame(nodes', nodes', x, h, lo, mid, lo, hi);
    LinkFrame(nodes, nodes', y, th, tt, mid, hi, lo, hi);
    assert ChainAt(nodes', y, Link(th, tt), lo, hi);
  }

  // ---------- the chain of a class under construction ----------

  /** ids[0] is the class node; the links lead from it through the others, which hold the items. */
  ghost predicate Threaded(nodes: Nodes, ids: seq<int>, items: seq<Item>) {
    && |ids| == |items| + 1 && 0 <= ids[0]
    && (forall k :: 0 <= k < |ids| ==> 0 <= ids[k] < |nodes|)
    && (forall k, l :: 0 <= k < l < |ids| ==> ids[k] < ids[l])
    && (forall k :: 0 <= k < |items| ==> ThreadAt(nodes, ids, items, k))
    && nodes[Last(ids)].next == -1
  }

  ghost predicate ThreadAt(nodes: Nodes, ids: seq<int>, items: seq<Item>, k: nat) {
    && k < |items| && |ids| == |items| + 1 && 0 <= ids[k] < |nodes|
    && ItemAt(nodes, ids[k + 1], items[k]) && nodes[ids[k]].next == ids[k + 1]
  }

  function Last(ids: seq<int>): (x: int)
    requires |ids| > 0
  {
    ids[|ids| - 1]
  }

  lemma ThreadedKept(nodes: Nodes, nodes': Nodes, ids: seq<int>, items: seq<Item>)
    requires Threaded(nodes, ids, items) && Grown(nodes, nodes')
    ensures Threaded(nodes', ids, items)
  {
    forall k | 0 <= k < |ids| ensures nodes'[ids[k]] == nodes[ids[k]] {
      assert nodes'[ids[k]] == nodes'[..|nodes|][ids[k]];
    }
    forall k | 0 <= k < |items| ensures ThreadAt(nodes', ids, items, k) {
      assert ThreadAt(nodes, ids, items, k);
    }
  }

  /** Linking one more item behind the last. */
  lemma ThreadedMore(nodes: Nodes, ids: seq<int>, items: seq<Item>, c: int, it: Item)
    requires Threaded(nodes, ids, items) && 0 <= c < |nodes| && ItemAt(nodes, c, it) && nodes[c].next == -1
    requires Last(ids) < c
    ensures Threaded(nodes[Last(ids) := nodes[Last(ids)].(next := c)], ids + [c], items + [it])
  {
    hide ItemAt;
    var last := Last(ids);
    var nodes' := nodes[last := nodes[last].(next := c)];
    var ids', items' := ids + [c], items + [it];
    ItemNext(nodes, last, c, c, it);
    forall k, l | 0 <= k < l < |ids'| ensures ids'[k] < ids'[l] {
      if l < |ids| {
        assert ids[k] < ids[l];
      } else if k < |ids| - 1 {
        assert ids[k] < ids[|ids| - 1];
      }
    }
    assert Last(ids') == c && nodes'[c].next == -1;
    forall k | 0 <= k < |items'| ensures ThreadAt(nodes', ids', items', k) {
      if k < |items| {
        assert ThreadAt(nodes, ids, items, k);
        ItemNext(nodes, last, c, ids[k + 1], items[k]);
        assert ids[k] < last;
      }
    }
  }

  lemma ItemNext(nodes: Nodes, x: int, link: int, y: int, it: Item)
    requires 0 <= x < |nodes| && ItemAt(nodes, y, it)
    ensures ItemAt(nodes[x := nodes[x].(next := link)], y, it)
  {
  }

  lemma {:induction false} ThreadedItems(nodes: Nodes, ids: seq<int>, items: seq<Item>, k: nat)
    requires Threaded(nodes, ids, items) && k <= |items|
    ensures ItemsAt(nodes, nodes[ids[k]].next, items[k..], ids[0] + 1, |nodes|)
    decreases |items| - k
  {
    if k < |items| {
      ThreadedItems(nodes, ids, items, k + 1);
      assert ThreadAt(nodes, ids, items, k);
      assert items[k..][1..] == items[k + 1..];
    }
  }

  class Compiler {
    const pat: Pattern
    const printable: int -> bool
    var p: nat
    var nodes: Nodes
    var nsubexpr: nat
    var depth: nat
    /** The capturing groups by number; one under construction has any value. */
    ghost var groups: seq<Elem>

    /** How far parsing has got since the given state. */
    ghost predicate Went(p0: nat, nodes0: Nodes, groups0: seq<Elem>, depth0: nat)
      reads this
    {
      && p0 <= p <= |pat| && Grown(nodes0, nodes) && depth == depth0
      && |groups0| <= |groups| == nsubexpr && groups[..|groups0|] == groups0
    }

    /** sqstd_rex_newnode. */
    method NewNode(n: Node) returns (id: nat)
      requires n.kind != OP_EXPR
      modifies `nodes
      ensures nodes == old(nodes) + [n] && id == |old(nodes)|
    {
      id := |nodes|;
      nodes := nodes + [n];
    }

    method ReadChar(inClass: bool) returns (ok: bool, id: nat)
      requires p <= |pat|
      modifies `p, `nodes
      ensures var r := CharNode(printable, pat, old(p), inClass);
              && ok == r.Some?
              && (ok ==> nodes == old(nodes) + [r.value.0] && id == |old(nodes)| && p == r.value.1)
    {
      var r := CharNode(printable, pat, p, inClass);
      id := 0;
      ok := r.Some?;
      if ok {
        p := r.value.1;
        id := NewNode(r.value.0);
      }
    }

    /** Between two rounds of the class loop: the items linked so far, and the last character while it waits for a
        possible range. */
    ghost predicate Building(chain: int, first: int, ids: seq<int>, items: seq<Item>, start: nat, pending: nat)
      reads this
    {
      && Threaded(nodes, ids, items) && chain == Last(ids) && start <= pending <= p <= |pat|
      && IsItems(printable, pat, start, pending, items) && Continues(printable, pat, start, pending, items)
      && (if first == -1 then pending == p
          else Last(ids) < first < |nodes| && At(pat, pending) != ']' as int
               && CharNode(printable, pat, pending, true) == Some((nodes[first], p)))
      && (items == [] && first == -1 ==> p == start)
      && |nodes| == ids[0] + 1 + ItemNodes(items) + if first == -1 then 0 else 1
    }

    /** The waiting character becomes an item (lines 217 to 219 and 228 to 231). */
    method LinkFirst(chain: int, first: int, ghost ids: seq<int>, ghost items: seq<Item>, ghost start: nat,
                     ghost pending: nat)
      returns (ghost ids': seq<int>, ghost items': seq<Item>)
      requires first != -1 && Building(chain, first, ids, items, start, pending) && At(pat, p) != '-' as int
      modifies `nodes
      ensures Building(first, -1, ids', items', start, p) && items' != []
      ensures ids' == ids + [first] && nodes == old(nodes)[chain := old(nodes)[chain].(next := first)]
    {
      hide IsItems, Threaded, CharNode, Continues, IsItem;
      ThreadedIds(nodes, ids, items);
      ghost var it := ItemOf(nodes[first]);
      CharIsItem(printable, pat, pending, p, nodes[first], nodes, first);
      IsItemsMore(printable, pat, start, pending, p, items, it);
      ContinuesMore(printable, pat, start, pending, p, items, it);
      ThreadedMore(nodes, ids, items, first, it);
      ItemNodesLast(items, it);
      ids', items' := ids + [first], items + [it];
      nodes := nodes[chain := nodes[chain].(next := first)];
    }

    /** A range from the waiting character (lines 201 to 214). */
    method LinkRange(chain: int, first: int, ghost ids: seq<int>, ghost items: seq<Item>, ghost start: nat,
                     ghost pending: nat)
      returns (ok: bool, r: nat, ghost ids': seq<int>, ghost items': seq<Item>)
      requires first != -1 && Building(chain, first, ids, items, start, pending) && At(pat, p) == '-' as int
      modifies `nodes, `p
      ensures ok ==> Building(r, -1, ids', items', start, p) && items' != [] && p > old(p) && r == |old(nodes)|
      ensures ok ==> ids' == ids + [r] && 0 <= chain < r && |nodes| == r + 1
      ensures ok ==> forall i :: 0 <= i < r && i != chain ==> nodes[i] == old(nodes)[i]
      ensures ok ==> nodes[chain] == old(nodes)[chain].(next := r)
      ensures !ok ==> NoBody(printable, pat, start)
    {
      hide IsItems, Threaded, CharNode, EscapeChar, IsItem, Continues, NoBody;
      ids', items' := ids, items;
      r := 0;
      ThreadedIds(nodes, ids, items);
      var lo := nodes[first].kind;
      p := p + 1;
      if At(pat, p) == ']' as int || lo == OP_CCLASS {
        NoRange(printable, pat, start, pending, items, p - 1, nodes[first]);
        ok := false;
        return;
      }
      var t := EscapeChar(printable, pat, p);
      if t.None? || lo > t.value.0 {
        NoRange(printable, pat, start, pending, items, p - 1, nodes[first]);
        ok := false;
        return;
      }
      var n := Node(OP_RANGE, lo, t.value.0, -1);
      ghost var before := nodes;
      r := NewNode(n);
      ghost var it := Span(lo, t.value.0);
      RangeIsItem(printable, pat, pending, p - 1, before[first], t.value.0, t.value.1);
      IsItemsMore(printable, pat, start, pending, t.value.1, items, it);
      ContinuesMore(printable, pat, start, pending, t.value.1, items, it);
      ThreadedKept(before, nodes, ids, items);
      ThreadedMore(nodes, ids, items, r, it);
      ItemNodesLast(items, it);
      ids', items' := ids + [r], items + [it];
      nodes := nodes[chain := nodes[chain].(next := r)];
      p := t.value.1;
      ok := true;
    }

    /** The next character; the one that was waiting becomes an item first (lines 215 to 225). */
    method NextChar(chain: int, first: int, ghost ids: seq<int>, ghost items: seq<Item>, ghost start: nat,
                    ghost pending: nat)
      returns (ok: bool, chain': int, first': int, ghost ids': seq<int>, ghost items': seq<Item>)
      requires Building(chain, first, ids, items, start, pending)
      requires At(pat, p) != ']' as int && !(At(pat, p) == '-' as int && first != -1)
      modifies `p, `nodes
      ensures ok ==> Building(chain', first', ids', items', start, old(p)) && p > old(p) && first' != -1
      ensures ok ==> |ids'| > 0 && |ids| > 0 && ids'[0] == ids[0]
      ensures ok ==> 0 <= ids[0] < |old(nodes)| < |nodes| && nodes[ids[0]].kind == old(nodes)[ids[0]].kind
      ensures ok ==> Same(old(nodes), nodes, 0, ids[0])
      ensures !ok ==> NoBody(printable, pat, start)
    {
      hide Threaded, IsItems, CharNode, ItemAt, Continues, NoBody;
      ThreadedIds(nodes, ids, items);
      chain', first', ids', items' := chain, first, ids, items;
      if first != -1 {
        ids', items' := LinkFirst(chain, first, ids, items, start, pending);
        chain' := first;
      }
      ghost var before := nodes;
      ok, first' := ReadChar(true);
      if !ok {
        NoItem(printable, pat, start, old(p), items');
        return;
      }
      ThreadedIds(before, ids', items');
      ThreadedKept(before, nodes, ids', items');
    }

    /** sqstd_rex_class, after the opening bracket. */
    method Class() returns (ok: bool, ret: nat, ghost e: Elem)
      requires p <= |pat|
      modifies `p, `nodes
      ensures ok ==>
                && old(p) < p < |pat| && pat[p] == ']' as int && Grown(old(nodes), nodes)
                && |nodes| == |old(nodes)| + NodesOf(e)
                && ElemAt(nodes, ret, e, |old(nodes)|, |nodes|) && nodes[ret].next == -1
                && e.Class? && e.negated == (At(pat, old(p)) == '^' as int)
                && var k := if e.negated then old(p) + 1 else old(p);
                   k <= p && At(pat, k) != ']' as int && IsItems(printable, pat, k, p, [e.first] + e.more)
      ensures !ok ==> var k := if At(pat, old(p)) == '^' as int then old(p) + 1 else old(p);
                      At(pat, k) == ']' as int || NoBody(printable, pat, k)
    {
      hide Threaded, IsItems, CharNode, ItemAt, ElemAt, Continues, NoBody;
      e := Dot;
      var negated := At(pat, p) == '^' as int;
      var kind := if negated then OP_NCLASS else OP_CLASS;
      ret := NewNode(Fresh(kind));
      ghost var ids: seq<int>, items: seq<Item> := [ret], [];
      ThreadedStart(nodes, ret);
      if negated {
        p := p + 1;
      }
      if At(pat, p) == ']' as int {
        ok := false;
        return;
      }
      ghost var start, pending := p, p;
      IsItemsNone(printable, pat, p);
      ContinuesStart(printable, pat, p);
      var chain: int, first: int := ret, -1;
      while At(pat, p) != ']' as int && At(pat, p) != 0
        invariant Building(chain, first, ids, items, start, pending) && |ids| > 0 && ids[0] == ret
        invariant ret < |nodes| && nodes[ret].kind == kind && Same(old(nodes), nodes, 0, ret)
        decreases |pat| - p
      {
        ThreadedIds(nodes, ids, items);
        if At(pat, p) == '-' as int && first != -1 {
          ok, chain, ids, items := LinkRange(chain, first, ids, items, start, pending);
          if !ok {
            return;
          }
          first, pending := -1, p;
        } else {
          ghost var at := p;
          ok, chain, first, ids, items := NextChar(chain, first, ids, items, start, pending);
          if !ok {
            return;
          }
          pending := at;
        }
      }
      ThreadedIds(nodes, ids, items);
      if first != -1 {
        ids, items := LinkFirst(chain, first, ids, items, start, pending);
      }
      if At(pat, p) == 0 {
        EndIsNoChar(printable, pat, p);
        NoItem(printable, pat, start, p, items);
        ok := false;
        return;
      }
      e := CloseClass(ret, negated, ids, items);
      ok := true;
    }

    /** The items move from `next` to `left` (lines 233 and 234). */
    method CloseClass(ret: nat, ghost negated: bool, ghost ids: seq<int>, ghost items: seq<Item>)
      returns (ghost e: Elem)
      requires Threaded(nodes, ids, items) && ids[0] == ret && items != []
      requires nodes[ret].kind == if negated then OP_NCLASS else OP_CLASS
      modifies `nodes
      ensures |nodes| == |old(nodes)| && nodes == old(nodes)[ret := nodes[ret]]
      ensures e == Elem.Class(negated, items[0], items[1..]) && [e.first] + e.more == items
      ensures ElemAt(nodes, ret, e, ret, |nodes|) && nodes[ret].next == -1
    {
      hide ItemAt;
      ThreadedItems(nodes, ids, items, 0);
      nodes := nodes[ret := nodes[ret].(left := nodes[ret].next, next := -1)];
      e := Elem.Class(negated, items[0], items[1..]);
      ItemsFrame(old(nodes), nodes, nodes[ret].left, items, ret + 1, |nodes|, ret + 1, |nodes|);
      assert [items[0]] + items[1..] == items == items[0..];
    }

    /** sqstd_rex_parsenumber: at most nine digits. */
    method ParseNumber() returns (ok: bool, n: int)
      requires p < |pat| && Digit(pat[p])
      modifies `p
      ensures ok ==> old(p) < p && IsNumber(pat, old(p), p, n) && n >= 0
      ensures !ok ==> NoNumber(pat, old(p))
    {
      n := At(pat, p) - '0' as int;
      var positions := 10;
      p := p + 1;
      assert Value(pat, p - 1, p - 1) == 0 && Pow10(0) == 1;
      while Digit(At(pat, p))
        invariant old(p) < p <= |pat| && n == Value(pat, old(p), p) && n >= 0
        invariant p - old(p) <= 9 && positions == Pow10(p - old(p))
        invariant forall k :: old(p) <= k < p ==> Digit(pat[k])
        decreases |pat| - p
      {
        NineDigits(p - old(p));
        n := n * 10 + (At(pat, p) - '0' as int);
        p := p + 1;
        if positions == 1000000000 {
          TooLong(pat, old(p));
          return false, n;
        }
        positions := positions * 10;
      }
      ok := true;
    }

    /** The mark after an atom, if there is one. */
    method Quantifier() returns (ok: bool, greedy: bool, p0: nat, p1: nat)
      requires p <= |pat|
      modifies `p
      ensures ok ==> old(p) <= p <= |pat| && p0 <= UNBOUNDED && p1 <= UNBOUNDED
      ensures ok && greedy ==> IsQuant(pat, old(p), p, p0, p1)
      ensures ok && !greedy ==> p == old(p) && !Mark(At(pat, p))
      ensures !ok ==> Mark(At(pat, old(p))) && NoQuant(pat, old(p))
    {
      hide IsNumber, NoQuant;
      ok, greedy, p0, p1 := true, true, 0, 0;
      var c := At(pat, p);
      if c == '*' as int {
        p0, p1, p := 0, UNBOUNDED, p + 1;
      } else if c == '+' as int {
        p0, p1, p := 1, UNBOUNDED, p + 1;
      } else if c == '?' as int {
        p0, p1, p := 0, 1, p + 1;
      } else if c == '{' as int {
        ok, p0, p1 := Braces();
      } else {
        greedy := false;
      }
    }

    method Braces() returns (ok: bool, p0: nat, p1: nat)
      requires At(pat, p) == '{' as int
      modifies `p
      ensures ok ==> old(p) <= p <= |pat| && p0 <= UNBOUNDED && p1 <= UNBOUNDED && IsQuant(pat, old(p), p, p0, p1)
      ensures !ok ==> NoQuant(pat, old(p))
    {
      hide NoQuant, NoUpper, NoNumber, IsNumber, IsUpper;
      p0, p1 := 0, 0;
      p := p + 1;
      if !Digit(At(pat, p)) {
        NoDigitNoNumber(pat, p);
        NoLowerNoQuant(pat, old(p));
        return false, 0, 0;
      }
      var n;
      ok, n := ParseNumber();
      if !ok || n > MAX_COUNT {
        if !ok { NoLowerNoQuant(pat, old(p)); } else { NoUpperNoQuant(pat, old(p), p, n); }
        return false, 0, 0;
      }
      p0 := n;
      ghost var k := p;
      ok, p1 := Upper(p0);
      if !ok {
        NoUpperNoQuant(pat, old(p), k, p0);
      }
    }

    /** What follows the lower bound. */
    method Upper(p0: nat) returns (ok: bool, p1: nat)
      requires p0 <= MAX_COUNT && p <= |pat|
      modifies `p
      ensures ok ==> old(p) <= p <= |pat| && p1 <= UNBOUNDED && IsUpper(pat, old(p), p, p0, p1)
      ensures !ok ==> NoUpper(pat, old(p), p0)
    {
      hide NoUpper, NoNumber, IsNumber;
      p1 := 0;
      if At(pat, p) == '}' as int {
        p := p + 1;
        return true, p0;
      }
      if At(pat, p) != ',' as int {
        NoNumberNoUpper(pat, p, p0);
        return false, 0;
      }
      p := p + 1;
      p1 := UNBOUNDED;
      if Digit(At(pat, p)) {
        var n;
        ok, n := ParseNumber();
        if !ok {
          NoNumberNoUpper(pat, old(p), p0);
          return;
        }
        if n > MAX_COUNT || At(pat, p) != '}' as int || p0 > n {
          BadNumberNoUpper(pat, old(p), p0, p, n);
          return false, 0;
        }
        p1 := n;
        NumberPlace(pat, old(p) + 1, p, n);
      } else if At(pat, p) != '}' as int {
        NoDigitNoNumber(pat, p);
        NoNumberNoUpper(pat, old(p), p0);
        return false, 0;
      }
      p := p + 1;
      ok := true;
    }

    /** The first switch of sqstd_rex_element. */
    method Atom() returns (ok: bool, ret: nat, ghost e: Elem)
      requires p <= |pat| && |groups| == nsubexpr
      modifies `p, `nodes, `nsubexpr, `groups, `depth
      ensures ok ==>
                && Went(old(p), old(nodes), old(groups), old(depth)) && p > old(p)
                && ElemAt(nodes, ret, e, |old(nodes)|, |nodes|) && nodes[ret].next == -1
                && Numbered(e, old(nsubexpr), groups) && nsubexpr == old(nsubexpr) + Caps(e)
                && FitsUnit(e, old(depth), |old(nodes)|) && |nodes| == |old(nodes)| + NodesOf(e)
                && IsAtom(printable, pat, old(p), p, e, old(nsubexpr))
      ensures !ok ==> NoAtom(printable, pat, old(p), old(nsubexpr), old(depth), |old(nodes)|)
      decreases |pat| - p, 1
    {
      hide IsItems, CharNode, IsList, NoAtom, NoBody;
      ret, e := 0, Dot;
      var c := At(pat, p);
      if c == '(' as int {
        ok, ret, e := Parens();
      } else if c == '[' as int {
        p := p + 1;
        ok, ret, e := Class();
        if !ok { NoClass(printable, pat, old(p), old(nsubexpr), old(depth), |old(nodes)|); }
        p := p + 1;
      } else if c == '$' as int {
        p := p + 1;
        ret := NewNode(Fresh(OP_EOL));
        ok, e := true, Eol;
      } else if c == '.' as int {
        p := p + 1;
        ret := NewNode(Fresh(OP_DOT));
        ok, e := true, Dot;
      } else {
        ok, ret := ReadChar(false);
        if !ok { NoChar(printable, pat, old(p), old(nsubexpr), old(depth), |old(nodes)|); }
        e := if ok then ElemOf(nodes[ret]) else Dot;
      }
    }

    /** A group, capturing or not. */
    method Parens() returns (ok: bool, ret: nat, ghost e: Elem)
      requires At(pat, p) == '(' as int && |groups| == nsubexpr
      modifies `p, `nodes, `nsubexpr, `groups, `depth
      ensures ok ==>
                && Went(old(p), old(nodes), old(groups), old(depth)) && p > old(p)
                && ElemAt(nodes, ret, e, |old(nodes)|, |nodes|) && nodes[ret].next == -1
                && Numbered(e, old(nsubexpr), groups) && nsubexpr == old(nsubexpr) + Caps(e)
                && FitsUnit(e, old(depth), |old(nodes)|) && |nodes| == |old(nodes)| + NodesOf(e)
                && IsAtom(printable, pat, old(p), p, e, old(nsubexpr))
      ensures !ok ==> NoAtom(printable, pat, old(p), old(nsubexpr), old(depth), |old(nodes)|)
      decreases |pat| - p, 0
    {
      hide ElemAt, LinkAt, Numbered, NumberedChain, IsList, IsAtom, Grown, NoAtom, NoList;
      GrownEnd(nodes);
      e := Dot;
      p := p + 1;
      ret := |nodes|;
      var capture := -1;
      if At(pat, p) == '?' as int {
        p := p + 1;
        if At(pat, p) != ':' as int {
          NoGroup(printable, pat, old(p), old(p) + 3, old(nsubexpr), old(nsubexpr), old(depth), |old(nodes)|);
          ok := false;
          return;
        }
        p := p + 1;
        nodes := nodes + [Fresh(OP_NOCAPEXPR)];
      } else {
        capture := nsubexpr;
        nodes := nodes + [Fresh(OP_EXPR).(right := nsubexpr)];
        nsubexpr := nsubexpr + 1;
        groups := groups + [Dot];
      }
      var newn;
      ghost var h, t;
      ghost var k, n1, g1 := p, nodes, groups;
      ok, newn, h, t := List();
      if !ok || At(pat, p) != ')' as int {
        NoGroup(printable, pat, old(p), k, old(nsubexpr), |g1|, old(depth), |old(nodes)|);
        ok := false;
        return;
      }
      ghost var n2, g2 := nodes, groups;
      GrownSame(n1, n2, ret, ret + 1);
      GrownThen(old(nodes), n1, n2);
      GrownPatch(old(nodes), n2, ret, n2[ret].(left := newn));
      nodes := nodes[ret := nodes[ret].(left := newn)];
      p := p + 1;
      e := Group(capture, h, t);
      if capture >= 0 {
        groups := groups[capture := e];
      }
      GroupAt(n2, ret, capture, newn, h, t, nodes);
      GroupNumbered(capture, h, t, old(nsubexpr), g2, groups);
      GroupText(printable, pat, old(p), p, capture, h, t, old(nsubexpr));
    }

    /** sqstd_rex_element: a unit and what follows it. */
    method Element() returns (ok: bool, ret: nat, ghost h: Elem, ghost t: Chain)
      requires p <= |pat| && |groups| == nsubexpr
      modifies `p, `nodes, `nsubexpr, `groups, `depth
      ensures ok ==>
                && Went(old(p), old(nodes), old(groups), old(depth)) && p > old(p)
                && LinkAt(nodes, ret, h, t, |old(nodes)|, |nodes|)
                && NumberedChain(Link(h, t), old(nsubexpr), groups)
                && nsubexpr == old(nsubexpr) + Caps(h) + CapsChain(t)
                && FitsSeq(h, t, old(depth), |old(nodes)|) && |nodes| == |old(nodes)| + NodesOf(h) + NodesOfChain(t)
                && IsSeq(printable, pat, old(p), p, h, t, old(nsubexpr))
      ensures !ok ==> NoSeq(printable, pat, old(p), old(nsubexpr), old(depth), |old(nodes)|)
      decreases |pat| - p, 3
    {
      hide ElemAt, LinkAt, Numbered, NumberedChain, IsUnit, IsSeq, Grown, NoUnit, NoSeq;
      h, t, ret := Dot, End, 0;
      depth := depth + 1;
      if depth > MAX_DEPTH || |nodes| > MAX_NODES {
        NoUnitNoSeq(printable, pat, old(p), old(nsubexpr), old(depth), |nodes|);
        ok := false;
        return;
      }
      ok, ret, h := Unit();
      if !ok {
        NoUnitNoSeq(printable, pat, old(p), old(nsubexpr), old(depth), |old(nodes)|);
        return;
      }
      var c := At(pat, p);
      if c == '|' as int || c == ')' as int || c == '*' as int || c == '+' as int || c == 0 {
        LinkOne(nodes, ret, h, |old(nodes)|, |nodes|);
        NumberedOne(h, old(nsubexpr), groups);
        SeqOne(printable, pat, old(p), p, h, old(nsubexpr));
      } else {
        ghost var k, n1, g1 := p, nodes, groups;
        var nnode;
        ghost var th, tt;
        ok, nnode, th, tt := Element();
        if !ok {
          NoRestNoSeq(printable, pat, old(p), k, h, old(nsubexpr), old(depth), |old(nodes)|);
          return;
        }
        GrownThen(old(nodes), n1, nodes);
        GrownSame(n1, nodes, |old(nodes)|, |n1|);
        ElemFrame(n1, nodes, ret, h, |old(nodes)|, |n1|, |old(nodes)|, |n1|);
        ElemPlace(nodes, ret, h, |old(nodes)|, |n1|);
        Attach(nodes, ret, h, nnode, th, tt, |old(nodes)|, |n1|, |nodes|);
        NumberedMore(h, th, tt, old(nsubexpr), g1, groups);
        SeqMore(printable, pat, old(p), k, p, h, th, tt, old(nsubexpr));
        t := Link(th, tt);
        GrownPatch(old(nodes), nodes, ret, nodes[ret].(next := nnode));
        nodes := nodes[ret := nodes[ret].(next := nnode)];
      }
      depth := depth - 1;
    }

    /** An atom and its mark. */
    method Unit() returns (ok: bool, ret: nat, ghost e: Elem)
      requires p <= |pat| && |groups| == nsubexpr
      modifies `p, `nodes, `nsubexpr, `groups, `depth
      ensures ok ==>
                && Went(old(p), old(nodes), old(groups), old(depth)) && p > old(p)
                && ElemAt(nodes, ret, e, |old(nodes)|, |nodes|) && nodes[ret].next == -1
                && Numbered(e, old(nsubexpr), groups) && nsubexpr == old(nsubexpr) + Caps(e)
                && FitsUnit(e, old(depth), |old(nodes)|) && |nodes| == |old(nodes)| + NodesOf(e)
                && IsUnit(printable, pat, old(p), p, e, old(nsubexpr))
      ensures !ok ==> NoUnit(printable, pat, old(p), old(nsubexpr), old(depth), |old(nodes)|)
      decreases |pat| - p, 2
    {
      hide IsAtom, NoAtom, IsUnit, NoUnit, NoQuant, IsQuant;
      ok, ret, e := Atom();
      if !ok {
        NoAtomNoUnit(printable, pat, old(p), old(nsubexpr), old(depth), |old(nodes)|);
        return;
      }
      ghost var k, n1 := p, nodes;
      var greedy, p0, p1;
      ok, greedy, p0, p1 := Quantifier();
      if !ok { NoQuantNoUnit(printable, pat, old(p), k, e, old(nsubexpr), old(depth), |old(nodes)|); }
      if ok && greedy {
        var nnode := NewNode(Node(OP_GREEDY, ret, p0 * 0x10000 + p1, -1));
        ElemFrame(n1, nodes, ret, e, |old(nodes)|, |n1|, |old(nodes)|, |n1|);
        UnitMarked(printable, pat, old(p), k, p, e, p0, p1, old(nsubexpr));
        e := Greedy(e, p0, p1);
        ret := nnode;
      } else if ok {
        UnitPlain(printable, pat, old(p), p, e, old(nsubexpr));
      }
    }

    /** sqstd_rex_list: alternatives. */
    method List() returns (ok: bool, ret: nat, ghost h: Elem, ghost t: Chain)
      requires p <= |pat| && |groups| == nsubexpr
      modifies `p, `nodes, `nsubexpr, `groups, `depth
      ensures ok ==>
                && Went(old(p), old(nodes), old(groups), old(depth)) && p > old(p)
                && LinkAt(nodes, ret, h, t, |old(nodes)|, |nodes|)
                && NumberedChain(Link(h, t), old(nsubexpr), groups)
                && nsubexpr == old(nsubexpr) + Caps(h) + CapsChain(t)
                && FitsList(h, t, old(depth), |old(nodes)|) && |nodes| == |old(nodes)| + NodesOf(h) + NodesOfChain(t)
                && IsList(printable, pat, old(p), p, h, t, old(nsubexpr))
      ensures !ok ==> NoList(printable, pat, old(p), old(nsubexpr), old(depth), |old(nodes)|)
      decreases |pat| - p, 5
    {
      hide ElemAt, LinkAt, Numbered, NumberedChain, IsTerm, IsList, Grown, NoTerm, NoList;
      ok, ret, h, t := Term();
      if !ok {
        NoTermNoList(printable, pat, old(p), old(nsubexpr), old(depth), |old(nodes)|);
        return;
      }
      if At(pat, p) == '|' as int {
        ghost var k, n1, g1 := p, nodes, groups;
        p := p + 1;
        GrownEnd(nodes);
        var temp := NewNode(Fresh(OP_OR).(left := ret));
        GrownThen(old(nodes), n1, nodes);
        var tright;
        ghost var rh, rt, n2 := Dot, End, nodes;
        ok, tright, rh, rt := List();
        if !ok {
          NoRestNoList(printable, pat, old(p), k, h, t, old(nsubexpr), old(depth), |old(nodes)|);
          return;
        }
        GrownThen(n1, n2, nodes);
        GrownThen(old(nodes), n2, nodes);
        GrownSame(n1, nodes, |old(nodes)|, temp);
        GrownSame(n2, nodes, temp, temp + 1);
        GrownPatch(old(nodes), nodes, temp, nodes[temp].(right := tright));
        ghost var n3 := nodes;
        nodes := nodes[temp := nodes[temp].(right := tright)];
        OrAt(n1, n3, temp, ret, h, t, tright, rh, rt, |old(nodes)|, nodes);
        OrNumbered(h, t, rh, rt, old(nsubexpr), g1, groups);
        OrText(printable, pat, old(p), k, p, h, t, rh, rt, old(nsubexpr));
        h, t := Or(h, t, rh, rt), End;
        ret := temp;
      } else {
        ListOne(printable, pat, old(p), p, h, t, old(nsubexpr));
      }
    }

    /** One alternative. */
    method Term() returns (ok: bool, ret: nat, ghost h: Elem, ghost t: Chain)
      requires p <= |pat| && |groups| == nsubexpr
      modifies `p, `nodes, `nsubexpr, `groups, `depth
      ensures ok ==>
                && Went(old(p), old(nodes), old(groups), old(depth)) && p > old(p)
                && LinkAt(nodes, ret, h, t, |old(nodes)|, |nodes|)
                && NumberedChain(Link(h, t), old(nsubexpr), groups)
                && nsubexpr == old(nsubexpr) + Caps(h) + CapsChain(t)
                && FitsTerm(h, t, old(depth), |old(nodes)|) && |nodes| == |old(nodes)| + NodesOf(h) + NodesOfChain(t)
                && IsTerm(printable, pat, old(p), p, h, t, old(nsubexpr)) && !h.Or?
      ensures !ok ==> NoTerm(printable, pat, old(p), old(nsubexpr), old(depth), |old(nodes)|)
      decreases |pat| - p, 4
    {
      hide ElemAt, LinkAt, Numbered, NumberedChain, IsTerm, IsSeq, Grown, NoTerm, NoSeq;
      if At(pat, p) == '^' as int {
        p := p + 1;
        GrownEnd(nodes);
        ret := NewNode(Fresh(OP_BOL));
        ghost var n1 := nodes;
        var e;
        ghost var th, tt;
        ok, e, th, tt := Element();
        h, t := Bol, Link(th, tt);
        if ok {
          GrownThen(old(nodes), n1, nodes);
          GrownSame(n1, nodes, ret, ret + 1);
          BolAt(nodes, ret);
          Attach(nodes, ret, Bol, e, th, tt, ret, ret + 1, |nodes|);
          GrownPatch(old(nodes), nodes, ret, nodes[ret].(next := e));
          nodes := nodes[ret := nodes[ret].(next := e)];
          BolNumbered(th, tt, old(nsubexpr), groups);
        }
      } else {
        ok, ret, h, t := Element();
        if ok {
          SeqStart(printable, pat, old(p), p, h, t, old(nsubexpr));
        }
      }
      if ok {
        TermOne(printable, pat, old(p), p, h, t, old(nsubexpr));
      } else {
        NoSeqNoTerm(printable, pat, old(p), old(nsubexpr), old(depth), |old(nodes)|);
      }
    }

    /** sqstd_rex_compile on a new compiler. */
    constructor (pat: Pattern, printable: int -> bool)
      ensures this.pat == pat && this.printable == printable
      ensures p == 0 && nodes == [] && nsubexpr == 0 && depth == 0 && groups == []
    {
      this.pat, this.printable := pat, printable;
      p, nodes, nsubexpr, depth, groups := 0, [], 0, 0, [];
    }

    /** sqstd_rex_compile: it succeeds exactly when the whole pattern spells a tree that is within the limits, which
        every pattern of at most 200 characters is; then the nodes hold that tree, ready for the matcher. */
    method Compile() returns (ok: bool, ghost root: Elem)
      requires p == 0 && nodes == [] && nsubexpr == 0 && depth == 0 && groups == []
      modifies this
      ensures ok <==> exists h, t :: Spells(printable, pat, h, t) && Fits(h, t)
      ensures |pat| <= MAX_DEPTH ==> (ok <==> exists h, t :: Spells(printable, pat, h, t))
      ensures ok ==>
                && root.Group? && root.capture == 0
                && Spells(printable, pat, root.head, root.tail) && Fits(root.head, root.tail)
                && Ready(nodes, groups, 0, Link(root, End), 0) && |groups| == nsubexpr == Caps(root)
    {
      hide IsList, Ready, ElemAt, LinkAt, Numbered, NumberedChain, Grown, FitsList, NoList, NodesOf, NodesOfChain;
      hide Spells, Fits;
      nodes := [Fresh(OP_EXPR).(right := nsubexpr)];
      nsubexpr := 1;
      groups := [Dot];
      root := Dot;
      var res;
      ghost var h, t, n1 := Dot, End, nodes;
      ok, res, h, t := List();
      if !ok || At(pat, p) != 0 {
        NotWhole(printable, pat, ok, p, h, t);
        ok := false;
        return;
      }
      Whole(printable, pat, h, t);
      root := Group(0, h, t);
      ghost var n2, g2 := nodes, groups;
      GrownSame(n1, n2, 0, 1);
      nodes := nodes[0 := nodes[0].(left := res)];
      groups := groups[0 := root];
      GroupAt(n2, 0, 0, res, h, t, nodes);
      GroupNumbered(0, h, t, 0, g2, groups);
      LinkOne(nodes, 0, root, 0, |nodes|);
      NumberedOne(root, 0, groups);
      WholeReady(nodes, groups, root);
    }
  }

  lemma WholeReady(nodes: Nodes, groups: seq<Elem>, root: Elem)
    requires LinkAt(nodes, 0, root, End, 0, |nodes|) && NumberedChain(Link(root, End), 0, groups)
    ensures Ready(nodes, groups, 0, Link(root, End), 0)
  {
  }

  /** The whole pattern is the text of this list. */
  ghost predicate Spells(printable: int -> bool, pat: Pattern, h: Elem, t: Chain) {
    IsList(printable, pat, 0, |pat|, h, t, 1)
  }

  lemma Whole(printable: int -> bool, pat: Pattern, h: Elem, t: Chain)
    requires IsList(printable, pat, 0, |pat|, h, t, 1) && FitsList(h, t, 0, 1)
    ensures Spells(printable, pat, h, t) && Fits(h, t)
  {
  }

  /** A list that does not reach the end, or none within the limits, is no tree of the pattern. */
  lemma NotWhole(printable: int -> bool, pat: Pattern, ok: bool, p: nat, h: Elem, t: Chain)
    requires if ok then p < |pat| && IsList(printable, pat, 0, p, h, t, 1) else NoList(printable, pat, 0, 1, 0, 1)
    ensures forall h', t' :: !(Spells(printable, pat, h', t') && Fits(h', t'))
    ensures |pat| <= MAX_DEPTH ==> forall h', t' :: !Spells(printable, pat, h', t')
  {
    hide IsList, FitsList;
    forall h', t' | Spells(printable, pat, h', t') ensures !Fits(h', t') {
      if ok {
        ListUnique(printable, pat, 0, p, h, t, |pat|, h', t', 1);
      }
    }
    forall h', t' | |pat| <= MAX_DEPTH && Spells(printable, pat, h', t') ensures false {
      ShortFits(printable, pat, h', t');
    }
  }

  /** Compiling a pattern and matching a text with it.  Exactly the patterns that spell a tree within the limits
      compile, to that tree, and a match means that the text is in its language. */
  method MatchPattern(pat: Pattern, printable: int -> bool, env: Env)
    returns (compiled: bool, matched: bool, captures: seq<Capture>, ghost root: Elem)
    ensures compiled <==> exists h, t :: Spells(printable, pat, h, t) && Fits(h, t)
    ensures |pat| <= MAX_DEPTH ==> (compiled <==> exists h, t :: Spells(printable, pat, h, t))
    ensures compiled ==> forall h, t :: Spells(printable, pat, h, t) ==> root == Group(0, h, t)
    ensures matched <==> compiled && MatchNode(env, root, End, 0, End) == Some(|env.text|)
    ensures matched ==> Lang(env, root, 0, |env.text|)
    ensures matched ==> exists groups :: Catches(env, root, groups, captures)
  {
    hide IsList, Ready, MatchNode, Lang, Fits, Filled, Captured, Numbered, AllSet, Tidy;
    var compiler := new Compiler(pat, printable);
    compiled, root := compiler.Compile();
    matched, captures := false, [];
    if compiled {
      forall h, t | Spells(printable, pat, h, t) ensures root == Group(0, h, t) {
        ListUnique(printable, pat, 0, |pat|, root.head, root.tail, |pat|, h, t, 1);
      }
      var machine := new Machine(compiler.nodes, compiler.nsubexpr, root, compiler.groups, env);
      matched := machine.Match(env.text);
      captures := machine.matches;
      if matched {
        RootNumbered(compiler.nodes, compiler.groups, root);
        assert Catches(env, root, compiler.groups, captures);
      }
    }
  }

  /** The captures of the pattern's groups after a match of the whole text: all of them where the pattern is tidy,
      and only then if it has no choices. */
  ghost predicate Catches(env: Env, root: Elem, groups: seq<Elem>, captures: seq<Capture>) {
    && root.Group? && Numbered(root, 0, groups) && |groups| == |captures| == Caps(root)
    && Captured(env, root, groups, 0, |env.text|, captures)
    && (NoChoice(root) ==> (AllSet(env, root, groups, 0, captures) <==> Tidy(root)))
  }

  lemma UnitMarked(printable: int -> bool, pat: Pattern, i: nat, k: nat, j: nat, e: Elem, p0: nat, p1: nat, a: nat)
    requires i <= k <= j <= |pat| && IsAtom(printable, pat, i, k, e, a) && IsQuant(pat, k, j, p0, p1)
    ensures IsUnit(printable, pat, i, j, Greedy(e, p0, p1), a)
  {
    hide IsQuant;
  }

  lemma UnitPlain(printable: int -> bool, pat: Pattern, i: nat, j: nat, e: Elem, a: nat)
    requires i <= j <= |pat| && IsAtom(printable, pat, i, j, e, a) && !Mark(At(pat, j))
    ensures IsUnit(printable, pat, i, j, e, a)
  {
    AtomKind(printable, pat, i, j, e, a);
  }

  lemma TermOne(printable: int -> bool, pat: Pattern, i: nat, j: nat, h: Elem, t: Chain, a: nat)
    requires i <= j <= |pat|
    requires if At(pat, i) == '^' as int
             then i < j && h.Bol? && t.Link? && IsSeq(printable, pat, i + 1, j, t.head, t.tail, a)
             else IsSeq(printable, pat, i, j, h, t, a)
    ensures IsTerm(printable, pat, i, j, h, t, a)
  {
  }

  lemma BolAt(nodes: Nodes, x: nat)
    requires x < |nodes| && nodes[x].kind == OP_BOL
    ensures ElemAt(nodes, x, Bol, x, x + 1)
  {
  }

  lemma BolNumbered(th: Elem, tt: Chain, a: nat, gs: seq<Elem>)
    requires NumberedChain(Link(th, tt), a, gs)
    ensures NumberedChain(Link(Bol, Link(th, tt)), a, gs) && Caps(Bol) == 0
    ensures CapsChain(Link(th, tt)) == Caps(th) + CapsChain(tt)
  {
    hide Numbered;
    assert Numbered(Bol, a, gs) by { BolAlone(a, gs); }
  }

  lemma BolAlone(a: nat, gs: seq<Elem>)
    ensures Numbered(Bol, a, gs)
  {
  }

  lemma SeqOne(printable: int -> bool, pat: Pattern, i: nat, j: nat, h: Elem, a: nat)
    requires i <= j <= |pat| && IsUnit(printable, pat, i, j, h, a) && Ends(At(pat, j))
    ensures IsSeq(printable, pat, i, j, h, End, a)
  {
    hide IsUnit;
  }

  lemma SeqMore(printable: int -> bool, pat: Pattern, i: nat, k: nat, j: nat, h: Elem, th: Elem, tt: Chain, a: nat)
    requires i <= k <= j <= |pat| && IsUnit(printable, pat, i, k, h, a) && !Ends(At(pat, k))
    requires IsSeq(printable, pat, k, j, th, tt, a + Caps(h))
    ensures IsSeq(printable, pat, i, j, h, Link(th, tt), a)
  {
    hide IsUnit;
  }

  lemma ElemPlace(nodes: Nodes, x: int, e: Elem, lo: int, hi: int)
    requires ElemAt(nodes, x, e, lo, hi)
    ensures 0 <= x < |nodes| && lo <= x < hi
  {
  }

  lemma LinkOne(nodes: Nodes, x: int, h: Elem, lo: int, hi: int)
    requires ElemAt(nodes, x, h, lo, hi) && nodes[x].next == -1
    ensures LinkAt(nodes, x, h, End, lo, hi)
  {
    assert ChainAt(nodes, -1, End, lo, hi);
  }

  lemma NumberedOne(h: Elem, a: nat, gs: seq<Elem>)
    requires Numbered(h, a, gs)
    ensures NumberedChain(Link(h, End), a, gs)
  {
    assert NumberedChain(End, a + Caps(h), gs);
  }

  lemma NumberedMore(h: Elem, th: Elem, tt: Chain, a: nat, gs: seq<Elem>, gs': seq<Elem>)
    requires Numbered(h, a, gs) && |gs| <= |gs'| && gs'[..|gs|] == gs
    requires NumberedChain(Link(th, tt), a + Caps(h), gs')
    ensures NumberedChain(Link(h, Link(th, tt)), a, gs')
  {
    forall k | a <= k < |gs| ensures gs'[k] == gs[k] { assert gs'[k] == gs'[..|gs|][k]; }
    NumberedFrame(h, a, gs, gs');
  }

  lemma GroupAt(nodes: Nodes, x: nat, capture: int, left: int, h: Elem, t: Chain, nodes': Nodes)
    requires x < |nodes| && LinkAt(nodes, left, h, t, x + 1, |nodes|) && nodes' == nodes[x := nodes[x].(left := left)]
    requires if capture >= 0 then nodes[x].kind == OP_EXPR && nodes[x].right == capture
             else nodes[x].kind == OP_NOCAPEXPR
    ensures ElemAt(nodes', x, Group(capture, h, t), x, |nodes'|)
  {
    LinkFrame(nodes, nodes', left, h, t, x + 1, |nodes|, x + 1, |nodes|);
  }

  lemma GroupNumbered(capture: int, h: Elem, t: Chain, a: nat, gs: seq<Elem>, gs': seq<Elem>)
    requires capture >= 0 ==> capture == a < |gs|
    requires gs' == if capture >= 0 then gs[a := Group(capture, h, t)] else gs
    requires NumberedChain(Link(h, t), if capture >= 0 then a + 1 else a, gs)
    ensures Numbered(Group(capture, h, t), a, gs')
  {
    NumberedChainFrame(Link(h, t), if capture >= 0 then a + 1 else a, gs, gs');
  }

  lemma GroupText(printable: int -> bool, pat: Pattern, i: nat, j: nat, capture: int, h: Elem, t: Chain, a: nat)
    requires 0 < j <= |pat| && At(pat, i) == '(' as int && pat[j - 1] == ')' as int
    requires At(pat, i + 1) == '?' as int ==> At(pat, i + 2) == ':' as int
    requires capture == if At(pat, i + 1) == '?' as int then -1 else a
    requires var k := if capture >= 0 then i + 1 else i + 3;
             k <= j - 1 && IsList(printable, pat, k, j - 1, h, t, if capture >= 0 then a + 1 else a)
    ensures IsAtom(printable, pat, i, j, Group(capture, h, t), a)
  {
    hide IsList;
  }

  lemma OrAt(n1: Nodes, nodes: Nodes, x: nat, l: int, lh: Elem, lt: Chain, r: int, rh: Elem, rt: Chain, lo: nat,
             nodes': Nodes)
    requires |n1| == x < |nodes| && Same(n1, nodes, lo, x) && LinkAt(n1, l, lh, lt, lo, x)
    requires nodes[x].kind == OP_OR && nodes[x].left == l && LinkAt(nodes, r, rh, rt, x + 1, |nodes|)
    requires nodes' == nodes[x := nodes[x].(right := r)] && nodes[x].next == -1 && lo <= x
    ensures LinkAt(nodes', x, Or(lh, lt, rh, rt), End, lo, |nodes'|)
  {
    LinkFrame(n1, nodes', l, lh, lt, lo, x, lo, x);
    LinkFrame(nodes, nodes', r, rh, rt, x + 1, |nodes|, x + 1, |nodes|);
    LinkOne(nodes', x, Or(lh, lt, rh, rt), lo, |nodes'|);
  }

  lemma OrNumbered(lh: Elem, lt: Chain, rh: Elem, rt: Chain, a: nat, gs: seq<Elem>, gs': seq<Elem>)
    requires NumberedChain(Link(lh, lt), a, gs) && |gs| <= |gs'| && gs'[..|gs|] == gs
    requires NumberedChain(Link(rh, rt), a + Caps(lh) + CapsChain(lt), gs')
    ensures NumberedChain(Link(Or(lh, lt, rh, rt), End), a, gs')
  {
    forall k | a <= k < |gs| ensures gs'[k] == gs[k] { assert gs'[k] == gs'[..|gs|][k]; }
    NumberedChainFrame(Link(lh, lt), a, gs, gs');
    NumberedOne(Or(lh, lt, rh, rt), a, gs');
  }

  lemma OrText(printable: int -> bool, pat: Pattern, i: nat, k: nat, j: nat, lh: Elem, lt: Chain, rh: Elem, rt: Chain,
               a: nat)
    requires i <= k < j <= |pat| && At(pat, k) == '|' as int
    requires IsTerm(printable, pat, i, k, lh, lt, a)
    requires IsList(printable, pat, k + 1, j, rh, rt, a + Caps(lh) + CapsChain(lt))
    ensures IsList(printable, pat, i, j, Or(lh, lt, rh, rt), End, a)
  {
    hide IsTerm;
  }

  lemma ListOne(printable: int -> bool, pat: Pattern, i: nat, j: nat, h: Elem, t: Chain, a: nat)
    requires i <= j <= |pat| && IsTerm(printable, pat, i, j, h, t, a) && !h.Or? && At(pat, j) != '|' as int
    ensures IsList(printable, pat, i, j, h, t, a)
  {
    hide IsTerm;
  }

  lemma GrownEnd(a: Nodes)
    ensures forall n :: Grown(a, a + [n])
  {
  }

  lemma GrownSame(a: Nodes, b: Nodes, lo: int, hi: int)
    requires Grown(a, b)
    ensures Same(a, b, lo, hi)
  {
    forall i | 0 <= i < |a| ensures b[i] == a[i] { assert b[i] == b[..|a|][i]; }
  }

  lemma GrownThen(a: Nodes, b: Nodes, c: Nodes)
    requires Grown(a, b) && Grown(b, c)
    ensures Grown(a, c) && |a| <= |b| <= |c|
  {
    assert c[..|a|] == c[..|b|][..|a|];
  }

  lemma GrownPatch(a: Nodes, b: Nodes, x: nat, n: Node)
    requires Grown(a, b) && |a| <= x < |b|
    ensures Grown(a, b[x := n])
  {
  }

  lemma ThreadedIds(nodes: Nodes, ids: seq<int>, items: seq<Item>)
    requires Threaded(nodes, ids, items)
    ensures |ids| > 0 && ids[0] <= Last(ids) < |nodes| && forall k :: 0 <= k < |ids| ==> 0 <= ids[k] < |nodes|
  {
  }

  lemma ItemNodesLast(items: seq<Item>, it: Item)
    ensures ItemNodes(items + [it]) == ItemNodes(items) + if it.Span? then 2 else 1
  {
    assert (items + [it])[..|items|] == items;
  }

  lemma NumberPlace(pat: Pattern, i: nat, j: nat, n: int)
    requires IsNumber(pat, i, j, n)
    ensures i < j <= |pat|
  {
  }

  lemma ContinuesStart(printable: int -> bool, pat: Pattern, i: nat)
    ensures Continues(printable, pat, i, i, [])
  {
    hide IsBody;
    forall j, all | IsBody(printable, pat, i, j, all) ensures IsBody(printable, pat, i, j, all[0..]) {
      assert all[0..] == all;
    }
  }

  lemma EndIsNoChar(printable: int -> bool, pat: Pattern, i: nat)
    requires At(pat, i) == 0
    ensures CharNode(printable, pat, i, true).None?
  {
  }

  lemma NoItem(printable: int -> bool, pat: Pattern, start: nat, i: nat, items: seq<Item>)
    requires Continues(printable, pat, start, i, items) && At(pat, i) != ']' as int
    requires CharNode(printable, pat, i, true).None?
    ensures NoBody(printable, pat, start)
  {
    hide Continues, NoBody, CharNode;
    ContinuesNot(printable, pat, start, i, items);
  }

  lemma NoRange(printable: int -> bool, pat: Pattern, start: nat, i: nat, items: seq<Item>, k: nat, n: Node)
    requires Continues(printable, pat, start, i, items) && At(pat, i) != ']' as int
    requires CharNode(printable, pat, i, true) == Some((n, k)) && At(pat, k) == '-' as int
    requires var t := EscapeChar(printable, pat, k + 1);
             At(pat, k + 1) == ']' as int || n.kind == OP_CCLASS || t.None? || n.kind > t.value.0
    ensures NoBody(printable, pat, start)
  {
    hide Continues, NoBody, CharNode, EscapeChar;
    ContinuesNot(printable, pat, start, i, items);
  }

  lemma CharIsItem(printable: int -> bool, pat: Pattern, i: nat, j: nat, n: Node, nodes: Nodes, x: nat)
    requires CharNode(printable, pat, i, true) == Some((n, j)) && x < |nodes| && nodes[x] == n
    requires At(pat, i) != ']' as int && At(pat, j) != '-' as int
    ensures IsItem(printable, pat, i, j, ItemOf(n)) && ItemAt(nodes, x, ItemOf(n)) && n.next == -1 && i < j
  {
    hide CharNode;
  }

  lemma RangeIsItem(printable: int -> bool, pat: Pattern, i: nat, k: nat, n: Node, hi: int, j: nat)
    requires CharNode(printable, pat, i, true) == Some((n, k)) && At(pat, k) == '-' as int && n.kind != OP_CCLASS
    requires At(pat, i) != ']' as int && At(pat, k + 1) != ']' as int
    requires EscapeChar(printable, pat, k + 1) == Some((hi, j)) && n.kind <= hi
    ensures IsItem(printable, pat, i, j, Span(n.kind, hi)) && i < j
  {
    hide CharNode, EscapeChar;
  }

  lemma ThreadedStart(nodes: Nodes, ret: nat)
    requires ret < |nodes| && nodes[ret].next == -1
    ensures Threaded(nodes, [ret], [])
  {
  }

  lemma IsItemsNone(printable: int -> bool, pat: Pattern, i: nat)
    ensures IsItems(printable, pat, i, i, [])
  {
  }

  // ---------- a pattern and a text the matcher gets wrong ----------

  /** `(?:a|ab)c` */
  const COMMITTING_TEXT: Pattern := [40, 63, 58, 97, 124, 97, 98, 41, 99]

  /** A character that is neither special nor followed by a mark is a unit. */
  lemma PlainChar(printable: int -> bool, pat: Pattern, i: nat, a: nat)
    requires i < |pat| && printable(pat[i]) && pat[i] != '\\' as int && !Special(pat[i]) && !Mark(At(pat, i + 1))
    ensures IsUnit(printable, pat, i, i + 1, Char(pat[i]), a)
  {
    assert IsAtom(printable, pat, i, i + 1, Char(pat[i]), a);
  }

  lemma SpellsAlternatives(printable: int -> bool)
    requires printable(97) && printable(98)
    ensures IsList(printable, COMMITTING_TEXT, 3, 7, Or(Char(97), End, Char(97), Link(Char(98), End)), End, 1)
  {
    hide IsUnit, IsSeq, IsTerm, IsList;
    var pat := COMMITTING_TEXT;
    PlainChar(printable, pat, 3, 1);
    SeqOne(printable, pat, 3, 4, Char(97), 1);
    TermOne(printable, pat, 3, 4, Char(97), End, 1);
    PlainChar(printable, pat, 6, 1);
    SeqOne(printable, pat, 6, 7, Char(98), 1);
    PlainChar(printable, pat, 5, 1);
    assert Caps(Char(97)) == 0;
    SeqMore(printable, pat, 5, 6, 7, Char(97), Char(98), End, 1);
    TermOne(printable, pat, 5, 7, Char(97), Link(Char(98), End), 1);
    ListOne(printable, pat, 5, 7, Char(97), Link(Char(98), End), 1);
    OrText(printable, pat, 3, 4, 7, Char(97), End, Char(97), Link(Char(98), End), 1);
  }

  /** The text spells the tree. */
  lemma SpellsCommitting(printable: int -> bool)
    requires printable(97) && printable(98) && printable(99)
    ensures IsList(printable, COMMITTING_TEXT, 0, |COMMITTING_TEXT|, COMMITTING.head, COMMITTING.tail, 1)
  {
    hide IsUnit, IsSeq, IsTerm, IsList, IsAtom;
    var pat, or := COMMITTING_TEXT, Or(Char(97), End, Char(97), Link(Char(98), End));
    SpellsAlternatives(printable);
    GroupText(printable, pat, 0, 8, -1, or, End, 1);
    UnitPlain(printable, pat, 0, 8, Group(-1, or, End), 1);
    PlainChar(printable, pat, 8, 1);
    SeqOne(printable, pat, 8, 9, Char(99), 1);
    assert Caps(Group(-1, or, End)) == 0 by { NoCaptures(); }
    SeqMore(printable, pat, 0, 8, 9, Group(-1, or, End), Char(99), End, 1);
    TermOne(printable, pat, 0, 9, COMMITTING.head, COMMITTING.tail, 1);
    ListOne(printable, pat, 0, 9, COMMITTING.head, COMMITTING.tail, 1);
  }

  lemma NoCaptures()
    ensures Caps(Group(-1, Or(Char(97), End, Char(97), Link(Char(98), End)), End)) == 0
  {
    assert CapsChain(Link(Char(98), End)) == 0;
    assert Caps(Or(Char(97), End, Char(97), Link(Char(98), End))) == 0;
  }

  /** The matcher is not complete: this text, which the pattern's language holds, is rejected. */
  lemma Incomplete(printable: int -> bool, cclass: (int, int) -> bool, space: int -> bool)
    requires printable(97) && printable(98) && printable(99)
    ensures IsList(printable, COMMITTING_TEXT, 0, |COMMITTING_TEXT|, COMMITTING.head, COMMITTING.tail, 1)
    ensures var env := Env([97, 98, 99], cclass, space); Lang(env, COMMITTING, 0, 3) && !Match(env, COMMITTING)
  {
    SpellsCommitting(printable);
    CommitsToFirstBranch(cclass, space);
  }
}
