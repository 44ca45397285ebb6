/** The compiled form of a pattern: one array of nodes linked by indices, and the matcher running on it. */
module RexNodes {
  import opened Rex

  /** SQRexNode: a character, or one of the OP_ codes above SQ_MAX_CHAR. */
  datatype Node = Node(kind: int, left: int, right: int, next: int)

  const OP_GREEDY := 256
  const OP_OR := 257
  const OP_EXPR := 258
  const OP_NOCAPEXPR := 259
  const OP_DOT := 260
  const OP_CLASS := 261
  const OP_CCLASS := 262
  const OP_NCLASS := 263
  const OP_RANGE := 264
  const OP_EOL := 266
  const OP_BOL := 267
  const OP_WB := 268
  const OP_MB := 269

  const WORD_BOUNDARY := 'b' as int

  type Nodes = seq<Node>

  // ---------- what a node stands for ----------

  /** Node `x` is a class item. */
  ghost predicate ItemAt(nodes: Nodes, x: int, it: Item) {
    && 0 <= x < |nodes|
    && match it
       case Span(lo, hi) => nodes[x].kind == OP_RANGE && nodes[x].left == lo && nodes[x].right == hi
       case Named(id) => nodes[x].kind == OP_CCLASS && nodes[x].left == id
       case Just(c) => nodes[x].kind == c && c != OP_RANGE && c != OP_CCLASS
  }

  /** The links from `x` lead through nodes of [lo, hi) that hold these items, and end. */
  ghost predicate ItemsAt(nodes: Nodes, x: int, items: seq<Item>, lo: int, hi: int)
    decreases |items|
  {
    if items == [] then x == -1
    else lo <= x < hi && ItemAt(nodes, x, items[0]) && ItemsAt(nodes, nodes[x].next, items[1..], lo, hi)
  }

  /** Node `x` holds `e`, its own `next` aside; all nodes below it are in [lo, hi) and none of them is `x`. */
  ghost predicate ElemAt(nodes: Nodes, x: int, e: Elem, lo: int, hi: int)
    decreases Size(e), 0
  {
    && 0 <= x < |nodes| && lo <= x < hi
    && var n := nodes[x];
       match e
       case Char(c) => n.kind == c < OP_GREEDY
       case Dot => n.kind == OP_DOT
       case Class(negated, first, more) =>
         n.kind == (if negated then OP_NCLASS else OP_CLASS) && ItemsAt(nodes, n.left, [first] + more, x + 1, hi)
       case CClass(id) => n.kind == OP_CCLASS && n.left == id
       case Bol => n.kind == OP_BOL
       case Eol => n.kind == OP_EOL
       case Wb(positive) => n.kind == OP_WB && (n.left == WORD_BOUNDARY) == positive
       case Mb(open, close) => n.kind == OP_MB && n.left == open && n.right == close
       case Group(capture, h, t) =>
         && (if capture >= 0 then n.kind == OP_EXPR && n.right == capture else n.kind == OP_NOCAPEXPR)
         && LinkAt(nodes, n.left, h, t, x + 1, hi)
       case Or(lh, lt, rh, rt) =>
         n.kind == OP_OR && LinkAt(nodes, n.left, lh, lt, lo, x) && LinkAt(nodes, n.right, rh, rt, x + 1, hi)
       case Greedy(b, p0, p1) =>
         && n.kind == OP_GREEDY && p0 <= UNBOUNDED && p1 <= UNBOUNDED && n.right == p0 * 0x10000 + p1
         && ElemAt(nodes, n.left, b, lo, x) && nodes[n.left].next == -1
  }

  /** Node `x` holds `h` and its `next` leads to `t`. */
  ghost predicate LinkAt(nodes: Nodes, x: int, h: Elem, t: Chain, lo: int, hi: int)
    decreases Size(h) + ChainSize(t), 1
  {
    ElemAt(nodes, x, h, lo, hi) && ChainAt(nodes, nodes[x].next, t, lo, hi)
  }

  ghost predicate ChainAt(nodes: Nodes, x: int, c: Chain, lo: int, hi: int)
    decreases ChainSize(c), 2
  {
    match c
    case End => x == -1
    case Link(h, t) => LinkAt(nodes, x, h, t, lo, hi)
  }

  // ---------- numbering of the capturing groups ----------

  function Caps(e: Elem): (n: nat)
    decreases Size(e), 0
  {
    match e
    case Group(c, h, t) => (if c >= 0 then 1 else 0) + Caps(h) + CapsChain(t)
    case Or(lh, lt, rh, rt) => Caps(lh) + CapsChain(lt) + Caps(rh) + CapsChain(rt)
    case Greedy(b, _, _) => Caps(b)
    case _ => 0
  }

  function CapsChain(c: Chain): (n: nat)
    decreases ChainSize(c), 1
  {
    match c
    case End => 0
    case Link(h, t) => Caps(h) + CapsChain(t)
  }

  /** Groups are numbered in the order of their opening parentheses, from `a` on; `groups` lists them. */
  ghost predicate Numbered(e: Elem, a: nat, groups: seq<Elem>)
    decreases Size(e), 0
  {
    match e
    case Group(c, h, t) =>
      if c >= 0 then c == a < |groups| && groups[a] == e && NumberedChain(Link(h, t), a + 1, groups)
      else NumberedChain(Link(h, t), a, groups)
    case Or(lh, lt, rh, rt) =>
      && NumberedChain(Link(lh, lt), a, groups)
      && NumberedChain(Link(rh, rt), a + Caps(lh) + CapsChain(lt), groups)
    case Greedy(b, _, _) => Numbered(b, a, groups)
    case _ => true
  }

  ghost predicate NumberedChain(c: Chain, a: nat, groups: seq<Elem>)
    decreases ChainSize(c), 1
  {
    match c
    case End => true
    case Link(h, t) => Numbered(h, a, groups) && NumberedChain(t, a + Caps(h), groups)
  }

  // ---------- what does not depend on other nodes ----------

  /** The same nodes at [lo, hi). */
  ghost predicate Same(nodes: Nodes, nodes': Nodes, lo: int, hi: int) {
    |nodes| <= |nodes'| && forall i :: lo <= i < hi && 0 <= i < |nodes| ==> nodes'[i] == nodes[i]
  }

  lemma {:induction false} ItemsFrame(nodes: Nodes, nodes': Nodes, x: int, items: seq<Item>, lo: int, hi: int,
                                      lo': int, hi': int)
    requires ItemsAt(nodes, x, items, lo, hi) && Same(nodes, nodes', lo, hi) && lo' <= lo && hi <= hi'
    ensures ItemsAt(nodes', x, items, lo', hi')
    decreases |items|
  {
    if items != [] {
      ItemsFrame(nodes, nodes', nodes[x].next, items[1..], lo, hi, lo', hi');
    }
  }

  lemma {:induction false} ElemFrame(nodes: Nodes, nodes': Nodes, x: int, e: Elem, lo: int, hi: int, lo': int, hi': int)
    requires ElemAt(nodes, x, e, lo, hi) && Same(nodes, nodes', lo, hi) && lo' <= lo && hi <= hi'
    ensures ElemAt(nodes', x, e, lo', hi')
    decreases Size(e), 0
  {
    var n := nodes[x];
    match e
    case Class(_, first, more) => ItemsFrame(nodes, nodes', n.left, [first] + more, x + 1, hi, x + 1, hi');
    case Group(_, h, t) => LinkFrame(nodes, nodes', n.left, h, t, x + 1, hi, x + 1, hi');
    case Or(lh, lt, rh, rt) =>
      LinkFrame(nodes, nodes', n.left, lh, lt, lo, x, lo', x);
      LinkFrame(nodes, nodes', n.right, rh, rt, x + 1, hi, x + 1, hi');
    case Greedy(b, _, _) => ElemFrame(nodes, nodes', n.left, b, lo, x, lo', x);
    case _ =>
  }

  lemma {:induction false} LinkFrame(nodes: Nodes, nodes': Nodes, x: int, h: Elem, t: Chain, lo: int, hi: int,
                                     lo': int, hi': int)
    requires LinkAt(nodes, x, h, t, lo, hi) && Same(nodes, nodes', lo, hi) && lo' <= lo && hi <= hi'
    ensures LinkAt(nodes', x, h, t, lo', hi')
    decreases Size(h) + ChainSize(t), 1
  {
    ElemFrame(nodes, nodes', x, h, lo, hi, lo', hi');
    if t.Link? {
      LinkFrame(nodes, nodes', nodes[x].next, t.head, t.tail, lo, hi, lo', hi');
    }
  }

  /** A node's own `next` is no part of what it holds. */
  lemma ElemNext(nodes: Nodes, x: int, e: Elem, lo: int, hi: int, link: int)
    requires ElemAt(nodes, x, e, lo, hi)
    ensures ElemAt(nodes[x := nodes[x].(next := link)], x, e, lo, hi)
  {
    var n, nodes' := nodes[x], nodes[x := nodes[x].(next := link)];
    match e
    case Class(_, first, more) => ItemsFrame(nodes, nodes', n.left, [first] + more, x + 1, hi, x + 1, hi);
    case Group(_, h, t) => LinkFrame(nodes, nodes', n.left, h, t, x + 1, hi, x + 1, hi);
    case Or(lh, lt, rh, rt) =>
      LinkFrame(nodes, nodes', n.left, lh, lt, lo, x, lo, x);
      LinkFrame(nodes, nodes', n.right, rh, rt, x + 1, hi, x + 1, hi);
    case Greedy(b, _, _) => ElemFrame(nodes, nodes', n.left, b, lo, x, lo, x);
    case _ =>
  }
}
