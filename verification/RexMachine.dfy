/** sqstd_rex_matchnode and its callers, running on the node array and filling in the captures. */
module RexMachine {
  import opened Objects
  import opened Rex
  import opened RexNodes
  import opened RexChoices
  import opened RexCaptures

  /** What a capture says about the text is true: the group matches there. */
  ghost predicate Right(env: Env, m: Capture, group: Elem) {
    m.begin.Some? ==> m.begin.value + m.len <= |env.text| && Lang(env, group, m.begin.value, m.begin.value + m.len)
  }

  /** Captures below `a` are as before; the others are as before or right. */
  ghost predicate Filled(env: Env, groups: seq<Elem>, was: seq<Capture>, now: seq<Capture>, a: nat) {
    && |was| == |now| == |groups|
    && (forall k :: 0 <= k < a && k < |now| ==> now[k] == was[k])
    && (forall k :: 0 <= k < |now| ==> now[k] == was[k] || Right(env, now[k], groups[k]))
  }

  lemma FilledThen(env: Env, groups: seq<Elem>, was: seq<Capture>, mid: seq<Capture>, now: seq<Capture>, a: nat, b: nat)
    requires Filled(env, groups, was, mid, a) && Filled(env, groups, mid, now, b) && a <= b
    ensures Filled(env, groups, was, now, a)
  {
    hide Right;
  }

  lemma FilledOne(env: Env, groups: seq<Elem>, was: seq<Capture>, mid: seq<Capture>, now: seq<Capture>, c: nat,
                  m: Capture)
    requires c < |was| == |groups| && Filled(env, groups, was[c := m], mid, c + 1)
    requires |now| == |mid| && now == mid[c := now[c]] && Right(env, now[c], groups[c])
    ensures Filled(env, groups, was, now, c)
  {
    hide Right;
  }

  lemma FilledNone(env: Env, groups: seq<Elem>, ms: seq<Capture>, a: nat)
    requires |ms| == |groups|
    ensures Filled(env, groups, ms, ms, a)
  {
    hide Right;
  }

  /** A link to the nodes of chain `c`, whose groups are numbered from `a` on. */
  ghost predicate Ready(nodes: Nodes, groups: seq<Elem>, x: int, c: Chain, a: nat) {
    ChainAt(nodes, x, c, 0, |nodes|) && NumberedChain(c, a, groups)
  }

  /** What the parts of a ready node are. */
  lemma PartsReady(nodes: Nodes, groups: seq<Elem>, x: int, e: Elem, rest: Chain, a: nat)
    requires Ready(nodes, groups, x, Link(e, rest), a)
    ensures ElemAt(nodes, x, e, 0, |nodes|) && Ready(nodes, groups, nodes[x].next, rest, a + Caps(e))
    ensures match e
            case Group(c, h, t) =>
              && 0 <= nodes[x].left && Ready(nodes, groups, nodes[x].left, Link(h, t), if c >= 0 then a + 1 else a)
              && (c >= 0 ==> c == a < |groups| && groups[a] == e)
            case Or(lh, lt, rh, rt) =>
              && 0 <= nodes[x].left && 0 <= nodes[x].right
              && Ready(nodes, groups, nodes[x].left, Link(lh, lt), a)
              && Ready(nodes, groups, nodes[x].right, Link(rh, rt), a + Caps(lh) + CapsChain(lt))
            case Greedy(b, _, _) => 0 <= nodes[x].left && Ready(nodes, groups, nodes[x].left, Link(b, End), a)
            case _ => true
  {
    assert LinkAt(nodes, x, e, rest, 0, |nodes|);
    assert ElemAt(nodes, x, e, 0, |nodes|) && Numbered(e, a, groups);
    var n, all := nodes[x], |nodes|;
    match e
    case Group(c, h, t) => LinkFrame(nodes, nodes, n.left, h, t, x + 1, all, 0, all);
    case Or(lh, lt, rh, rt) =>
      LinkFrame(nodes, nodes, n.left, lh, lt, 0, x, 0, all);
      LinkFrame(nodes, nodes, n.right, rh, rt, x + 1, all, 0, all);
    case Greedy(b, _, _) =>
      ElemFrame(nodes, nodes, n.left, b, 0, x, 0, all);
      assert ChainAt(nodes, nodes[n.left].next, End, 0, all) && LinkAt(nodes, n.left, b, End, 0, all);
    case _ =>
  }

  /** p0 and p1 of a repetition node. */
  lemma Bounds(p0: nat, p1: nat)
    requires p0 <= UNBOUNDED && p1 <= UNBOUNDED
    ensures var right := p0 * 0x10000 + p1; right / 0x10000 == p0 && right % 0x10000 == p1
  {
  }

  /** The lookahead handed down is behind the node, and behind what follows the node or that itself. */
  ghost predicate Later(e: Elem, rest: Chain, a: nat, nextc: Chain, nexta: nat) {
    && a + Caps(e) <= nexta
    && (rest.Link? && nextc.Link? ==> a + Caps(e) + Caps(rest.head) <= nexta + Caps(nextc.head))
  }

  class Machine {
    const nodes: Nodes
    /** The tree the nodes hold, and its capturing groups. */
    ghost const root: Elem
    ghost const groups: seq<Elem>

    var env: Env
    var matches: seq<Capture>
    var currsubexp: int

    /** Node 0 is the whole pattern, a group with the number 0. */
    ghost predicate Valid()
      reads this
    {
      && Ready(nodes, groups, 0, Link(root, End), 0)
      && root.Group? && root.capture == 0
      && |matches| == |groups| == Caps(root)
    }

    function Now(): (s: Marks)
      reads this
    {
      Marks(matches, currsubexp)
    }

    /** A pattern just compiled, with no captures. */
    constructor (nodes: Nodes, nsubexpr: nat, ghost root: Elem, ghost groups: seq<Elem>, env: Env)
      requires Ready(nodes, groups, 0, Link(root, End), 0) && root.Group? && root.capture == 0
      requires |groups| == nsubexpr == Caps(root)
      ensures Valid() && this.nodes == nodes && this.root == root && this.groups == groups && this.env == env
      ensures Unset(matches)
    {
      PartsReady(nodes, groups, 0, root, End, 0);
      this.nodes, this.root, this.groups, this.env := nodes, root, groups, env;
      matches, currsubexp := seq(nsubexpr, _ => Capture(None, 0)), 0;
    }

    /** The root's match at one start, with its capture 0. */
    method TryAt(begin: nat) returns (r: Option<nat>)
      requires Valid() && begin <= |env.text|
      modifies `matches, `currsubexp
      ensures Valid() && r == MatchNode(env, root, End, begin, End)
      ensures Filled(env, groups, old(matches), matches, 0)
      ensures Now() == MarkNode(env, root, End, begin, End, Marks(old(matches), 0))
      ensures r.Some? ==> |matches| > 0 && matches[0] == Capture(Some(begin), r.value - begin)
      ensures r.Some? ==> Captured(env, root, groups, begin, r.value, matches)
    {
      hide Filled, Ready, MatchNode, MarkNode, Captured;
      FilledNone(env, groups, matches, 0);
      PartsReady(nodes, groups, 0, root, End, 0);
      LinkEnds(nodes, groups, nodes[0].next, End, Caps(root));
      NoneReady(nodes, groups, Caps(root));
      currsubexp := 0;
      r := RunNode(0, begin, -1, root, End, 0, End, Caps(root));
      FilledSize(env, groups, old(matches), matches, 0);
      if r.Some? {
        RootNumbered(nodes, groups, root);
        MatchCaptures(env, root, groups, begin, old(matches));
      }
    }

    /** sqstd_rex_match: a reported match means the whole text is in the pattern's language, and the captures that
        were set during it are right. */
    method Match(text: seq<int>) returns (ok: bool)
      requires Valid()
      modifies this
      ensures Valid() && env == old(env).(text := text)
      ensures ok <==> MatchNode(env, root, End, 0, End) == Some(|text|)
      ensures ok ==> Lang(env, root, 0, |text|) && matches[0] == Capture(Some(0), |text|)
      ensures Filled(env, groups, old(matches), matches, 0)
      ensures ok ==> Captured(env, root, groups, 0, |text|, matches)
      ensures ok && NoChoice(root) && Unset(old(matches)) ==> (AllSet(env, root, groups, 0, matches) <==> Tidy(root))
    {
      hide Filled, Ready, Lang, MatchNode, Captured, AllSet, Tidy;
      env := env.(text := text);
      var res := TryAt(0);
      if res.Some? && NoChoice(root) && Unset(old(matches)) {
        RootNumbered(nodes, groups, root);
        AllSetExactly(env, root, groups, 0, old(matches));
      }
      MatchNodeSound(env, root, End, 0, End);
      ok := res == Some(|text|);
    }

    /** sqstd_rex_searchrange: the leftmost start, before the end of the text, where the matcher succeeds. */
    method SearchRange(text: seq<int>) returns (r: Option<(nat, nat)>)
      requires Valid()
      modifies this
      ensures Valid() && env == old(env).(text := if |text| == 0 then old(env).text else text)
      ensures r.Some? ==>
                && r.value.0 < |text| && r.value.0 <= r.value.1 <= |text|
                && MatchNode(env, root, End, r.value.0, End) == Some(r.value.1)
                && Lang(env, root, r.value.0, r.value.1)
                && (forall i :: 0 <= i < r.value.0 ==> MatchNode(env, root, End, i, End).None?)
                && matches[0] == Capture(Some(r.value.0), r.value.1 - r.value.0)
                && Captured(env, root, groups, r.value.0, r.value.1, matches)
      ensures |text| > 0 ==> (r.None? <==> forall i :: 0 <= i < |text| ==> MatchNode(env, root, End, i, End).None?)
      ensures |text| == 0 ==> r.None?
      ensures Filled(env, groups, old(matches), matches, 0)
    {
      hide Filled, Ready, MatchNode, Lang, Captured;
      FilledNone(env, groups, matches, 0);
      if 0 >= |text| {
        return None;
      }
      env := env.(text := text);
      FilledNone(env, groups, matches, 0);
      var begin := 0;
      var cur := None;
      while true
        invariant Valid() && env == old(env).(text := text)
        invariant 0 <= begin < |text|
        invariant forall i :: 0 <= i < begin ==> MatchNode(env, root, End, i, End).None?
        invariant Filled(env, groups, old(matches), matches, 0)
        decreases |text| - begin
      {
        ghost var mid := matches;
        cur := TryAt(begin);
        FilledThen(env, groups, old(matches), mid, matches, 0, 0);
        begin := begin + 1;
        if !(cur.None? && begin != |text|) {
          break;
        }
      }
      if cur.None? {
        return None;
      }
      begin := begin - 1;
      MatchNodeSound(env, root, End, begin, End);
      r := Some((begin, cur.value));
    }

    /** sqstd_rex_matchnode on node `x`: the answer is the tree matcher's, whatever the captures hold, and every
        capture it sets is right. */
    method RunNode(x: nat, pos: nat, next: int, ghost e: Elem, ghost rest: Chain, ghost a: nat,
                   ghost nextc: Chain, ghost nexta: nat)
      returns (r: Option<nat>)
      requires pos <= |env.text| && |matches| == |groups|
      requires Ready(nodes, groups, x, Link(e, rest), a) && Ready(nodes, groups, next, nextc, nexta)
      requires Later(e, rest, a, nextc, nexta)
      modifies `matches, `currsubexp
      ensures r == MatchNode(env, e, rest, pos, nextc)
      ensures Filled(env, groups, old(matches), matches, a)
      ensures Now() == MarkNode(env, e, rest, pos, nextc, old(Now()))
      ensures e.Group? && e.capture == a && old(currsubexp) == a && r.Some? ==>
                a < |matches| && matches[a] == Capture(Some(pos), r.value - pos)
      decreases |env.text| - pos, Size(e), 1
    {
      hide MatchNode, Filled, Ready, LinkAt;
      PartsReady(nodes, groups, x, e, rest, a);
      var kind := nodes[x].kind;
      if kind == OP_GREEDY {
        r := RunGreedy(x, pos, next, e, rest, a, nextc, nexta);
      } else if kind == OP_OR {
        r := RunOr(x, pos, e, rest, a, nextc);
      } else if kind == OP_EXPR || kind == OP_NOCAPEXPR {
        r := RunExpr(x, pos, next, e, rest, a, nextc, nexta);
      } else {
        FilledNone(env, groups, matches, a);
        r := RunSimple(x, pos, e, rest, nextc);
      }
    }

    method RunSimple(x: nat, pos: nat, ghost e: Elem, ghost rest: Chain, ghost nextc: Chain) returns (r: Option<nat>)
      requires pos <= |env.text| && ElemAt(nodes, x, e, 0, |nodes|) && !e.Greedy? && !e.Or? && !e.Group?
      ensures r == MatchNode(env, e, rest, pos, nextc)
    {
      var node, text := nodes[x], env.text;
      if node.kind == OP_WB {
        return if AtBoundary(env, pos) == (node.left == WORD_BOUNDARY) then Some(pos) else None;
      } else if node.kind == OP_BOL {
        return if pos == 0 then Some(pos) else None;
      } else if node.kind == OP_EOL {
        return if pos == |text| then Some(pos) else None;
      } else if pos == |text| {
        return None;
      } else if node.kind == OP_DOT {
        return Some(pos + 1);
      } else if node.kind == OP_CLASS || node.kind == OP_NCLASS {
        var has := RunClass(node.left, text[pos], [e.first] + e.more, x + 1);
        return if has == (node.kind == OP_CLASS) then Some(pos + 1) else None;
      } else if node.kind == OP_CCLASS {
        return if env.cclass(node.left, text[pos]) then Some(pos + 1) else None;
      } else if node.kind == OP_MB {
        if text[pos] != node.left {
          return None;
        }
        r := RunBalanced(node.left, node.right, pos);
      } else {
        return if text[pos] == node.kind then Some(pos + 1) else None;
      }
    }

    /** sqstd_rex_matchclass. */
    method RunClass(left: int, c: int, ghost items: seq<Item>, ghost lo: int) returns (has: bool)
      requires items != [] && ItemsAt(nodes, left, items, lo, |nodes|)
      ensures has == MatchClass(env, items[0], items[1..], c)
    {
      var node := left;
      ghost var todo := items;
      while true
        invariant todo != [] && ItemsAt(nodes, node, todo, lo, |nodes|)
        invariant MatchClass(env, items[0], items[1..], c) == MatchClass(env, todo[0], todo[1..], c)
        decreases |todo|
      {
        var n := nodes[node];
        has := if n.kind == OP_RANGE then n.left <= Unsigned(c) <= n.right
               else if n.kind == OP_CCLASS then env.cclass(n.left, c)
               else c == n.kind;
        if has || n.next == -1 {
          return;
        }
        node := n.next;
        todo := todo[1..];
      }
    }

    /** The loop of OP_MB. */
    method RunBalanced(open: int, close: int, pos: nat) returns (r: Option<nat>)
      requires pos < |env.text|
      ensures r == CloseFrom(env.text, open, close, pos + 1, 1)
    {
      var str, cont := pos + 1, 1;
      while str < |env.text|
        invariant pos < str <= |env.text|
        invariant CloseFrom(env.text, open, close, pos + 1, 1) == CloseFrom(env.text, open, close, str, cont)
      {
        if env.text[str] == close {
          cont := cont - 1;
          if cont == 0 {
            return Some(str + 1);
          }
        } else if env.text[str] == open {
          cont := cont + 1;
        }
        str := str + 1;
      }
      return None;
    }

    method RunOr(x: nat, pos: nat, ghost e: Elem, ghost rest: Chain, ghost a: nat, ghost nextc: Chain)
      returns (r: Option<nat>)
      requires pos <= |env.text| && |matches| == |groups| && e.Or? && Ready(nodes, groups, x, Link(e, rest), a)
      modifies `matches, `currsubexp
      ensures r == MatchNode(env, e, rest, pos, nextc)
      ensures Filled(env, groups, old(matches), matches, a)
      ensures Now() == MarkNode(env, e, rest, pos, nextc, old(Now()))
      decreases |env.text| - pos, Size(e), 0
    {
      hide Filled, Ready;
      PartsReady(nodes, groups, x, e, rest, a);
      r := RunBranch(nodes[x].left, pos, e.lhead, e.ltail, a);
      if r.None? {
        ghost var mid := matches;
        ghost var b := a + Caps(e.lhead) + CapsChain(e.ltail);
        FilledSize(env, groups, old(matches), mid, a);
        r := RunBranch(nodes[x].right, pos, e.rhead, e.rtail, b);
        FilledThen(env, groups, old(matches), mid, matches, a, b);
      }
    }

    /** One side of OP_OR. */
    method RunBranch(left: nat, pos: nat, ghost h: Elem, ghost t: Chain, ghost a: nat) returns (r: Option<nat>)
      requires pos <= |env.text| && |matches| == |groups| && Ready(nodes, groups, left, Link(h, t), a)
      modifies `matches, `currsubexp
      ensures r == MatchBranch(env, h, t, pos)
      ensures Filled(env, groups, old(matches), matches, a)
      ensures Now() == MarkChain(env, h, t, pos, None, old(Now()))
      decreases |env.text| - pos, Size(h) + ChainSize(t), 2
    {
      hide Filled, Ready, MatchNode;
      FilledNone(env, groups, matches, a);
      var temp: nat, asd := left, pos;
      ghost var head, tail, at: nat := h, t, a;
      while true
        invariant pos <= asd <= |env.text| && Ready(nodes, groups, temp, Link(head, tail), at) && a <= at
        invariant MatchBranch(env, h, t, pos) == MatchBranch(env, head, tail, asd)
        invariant MarkChain(env, h, t, pos, None, old(Now())) == MarkChain(env, head, tail, asd, None, Now())
        invariant Filled(env, groups, old(matches), matches, a)
        invariant Size(head) + ChainSize(tail) <= Size(h) + ChainSize(t)
        decreases Size(head) + ChainSize(tail)
      {
        ghost var mid := matches;
        FilledSize(env, groups, old(matches), mid, a);
        PartsReady(nodes, groups, temp, head, tail, at);
        NoneReady(nodes, groups, at + Caps(head));
        r := RunNode(temp, asd, -1, head, tail, at, End, at + Caps(head));
        FilledThen(env, groups, old(matches), mid, matches, a, at);
        LinkEnds(nodes, groups, nodes[temp].next, tail, at + Caps(head));
        if r.None? || nodes[temp].next == -1 {
          return;
        }
        temp, asd := nodes[temp].next, r.value;
        at := at + Caps(head);
        head, tail := tail.head, tail.tail;
      }
    }

    method RunExpr(x: nat, pos: nat, next: int, ghost e: Elem, ghost rest: Chain, ghost a: nat,
                   ghost nextc: Chain, ghost nexta: nat)
      returns (r: Option<nat>)
      requires pos <= |env.text| && |matches| == |groups| && e.Group?
      requires Ready(nodes, groups, x, Link(e, rest), a) && Ready(nodes, groups, next, nextc, nexta)
      requires Later(e, rest, a, nextc, nexta)
      modifies `matches, `currsubexp
      ensures r == MatchNode(env, e, rest, pos, nextc)
      ensures Filled(env, groups, old(matches), matches, a)
      ensures Now() == MarkNode(env, e, rest, pos, nextc, old(Now()))
      ensures e.Group? && e.capture == a && old(currsubexp) == a && r.Some? ==>
                a < |matches| && matches[a] == Capture(Some(pos), r.value - pos)
      decreases |env.text| - pos, Size(e), 0
    {
      hide Filled, MatchGroup, Right, Lang, LinkAt, Ready;
      PartsReady(nodes, groups, x, e, rest, a);
      var capture := -1;
      ghost var b := if e.capture >= 0 then a + 1 else a;
      if nodes[x].kind != OP_NOCAPEXPR && nodes[x].right == currsubexp {
        capture := currsubexp;
        matches := matches[capture := matches[capture].(begin := Some(pos))];
        currsubexp := currsubexp + 1;
      }
      var tempcap := currsubexp;
      ghost var m1 := matches;
      r := RunChain(nodes[x].left, pos, next, e.head, e.tail, b, nextc, nexta);
      ghost var m2 := matches;
      FilledSize(env, groups, m1, m2, b);
      if r.None? {
        if capture != -1 {
          matches := matches[capture := Capture(None, 0)];
        }
      } else {
        currsubexp := tempcap;
        if capture != -1 {
          matches := matches[capture := matches[capture].(len := r.value - matches[capture].begin.value)];
        }
      }
      if capture == -1 {
        FilledNone(env, groups, m1, a);
        FilledThen(env, groups, m1, m1, m2, a, b);
      } else {
        GroupRight(env, e, rest, pos, nextc, matches[capture]);
        FilledOne(env, groups, old(matches), m2, matches, a, m1[a]);
      }
    }

    /** The loop of OP_EXPR. */
    method RunChain(left: nat, pos: nat, next: int, ghost h: Elem, ghost t: Chain, ghost a: nat,
                    ghost nextc: Chain, ghost nexta: nat)
      returns (r: Option<nat>)
      requires pos <= |env.text| && |matches| == |groups| && Ready(nodes, groups, left, Link(h, t), a)
      requires Ready(nodes, groups, next, nextc, nexta) && a + Caps(h) + CapsChain(t) <= nexta
      modifies `matches, `currsubexp
      ensures r == MatchGroup(env, h, t, pos, nextc)
      ensures Filled(env, groups, old(matches), matches, a)
      ensures Now() == MarkChain(env, h, t, pos, Some(nextc), old(Now()))
      decreases |env.text| - pos, Size(h) + ChainSize(t), 2
    {
      hide Filled, Ready, MatchNode;
      FilledNone(env, groups, matches, a);
      var n: nat, cur := left, pos;
      ghost var head, tail, at: nat := h, t, a;
      while true
        invariant pos <= cur <= |env.text| && Ready(nodes, groups, n, Link(head, tail), at) && a <= at
        invariant at + Caps(head) + CapsChain(tail) <= nexta
        invariant MatchGroup(env, h, t, pos, nextc) == MatchGroup(env, head, tail, cur, nextc)
        invariant MarkChain(env, h, t, pos, Some(nextc), old(Now()))
               == MarkChain(env, head, tail, cur, Some(nextc), Now())
        invariant Filled(env, groups, old(matches), matches, a)
        invariant Size(head) + ChainSize(tail) <= Size(h) + ChainSize(t)
        decreases Size(head) + ChainSize(tail)
      {
        ghost var mid := matches;
        FilledSize(env, groups, old(matches), mid, a);
        PartsReady(nodes, groups, n, head, tail, at);
        LinkEnds(nodes, groups, nodes[n].next, tail, at + Caps(head));
        var subnext := if nodes[n].next != -1 then nodes[n].next else next;
        r := RunNode(n, cur, subnext, head, tail, at, if tail.Link? then tail else nextc,
                     if tail.Link? then at + Caps(head) else nexta);
        FilledThen(env, groups, old(matches), mid, matches, a, at);
        if r.None? || nodes[n].next == -1 {
          return;
        }
        n, cur := nodes[n].next, r.value;
        at := at + Caps(head);
        head, tail := tail.head, tail.tail;
      }
    }

    method RunGreedy(x: nat, pos: nat, next: int, ghost e: Elem, ghost rest: Chain, ghost a: nat,
                     ghost nextc: Chain, ghost nexta: nat)
      returns (r: Option<nat>)
      requires pos <= |env.text| && |matches| == |groups| && e.Greedy?
      requires Ready(nodes, groups, x, Link(e, rest), a) && Ready(nodes, groups, next, nextc, nexta)
      requires Later(e, rest, a, nextc, nexta)
      modifies `matches, `currsubexp
      ensures r == MatchNode(env, e, rest, pos, nextc)
      ensures Filled(env, groups, old(matches), matches, a)
      ensures Now() == MarkNode(env, e, rest, pos, nextc, old(Now()))
      decreases |env.text| - pos, Size(e), 0
    {
      hide Filled, GreedyLoop, Ready;
      PartsReady(nodes, groups, x, e, rest, a);
      LinkEnds(nodes, groups, nodes[x].next, rest, a + Caps(e));
      Bounds(e.lo, e.hi);
      var p0, p1 := nodes[x].right / 0x10000, nodes[x].right % 0x10000;
      var stop := if nodes[x].next != -1 then nodes[x].next else next;
      ghost var stopc, stopa := if rest.Link? then rest else nextc, if rest.Link? then a + Caps(e) else nexta;
      var n, good;
      n, good := Repeat(nodes[x].left, pos, p0, p1, stop, next, e.body, a, stopc, stopa, nextc, nexta);
      r := if Satisfied(p0, p1, n) then Some(good) else None;
    }

    /** The loop of OP_GREEDY. */
    method Repeat(left: nat, pos: nat, p0: nat, p1: nat, stop: int, next: int, ghost b: Elem, ghost a: nat,
                  ghost stopc: Chain, ghost stopa: nat, ghost nextc: Chain, ghost nexta: nat)
      returns (n: nat, good: nat)
      requires pos <= |env.text| && |matches| == |groups|
      requires Ready(nodes, groups, left, Link(b, End), a) && a + Caps(b) <= stopa
      requires Ready(nodes, groups, stop, stopc, stopa) && Ready(nodes, groups, next, nextc, nexta)
      requires stopc.Link? && nextc.Link? ==> stopa + Caps(stopc.head) <= nexta + Caps(nextc.head)
      modifies `matches, `currsubexp
      ensures (n, good) == GreedyLoop(env, b, stopc, nextc, p0, p1, pos, 0)
      ensures Filled(env, groups, old(matches), matches, a)
      ensures Now() == MarkLoop(env, b, stopc, nextc, p0, p1, pos, 0, old(Now()))
      decreases |env.text| - pos, Size(b), 2
    {
      hide Filled, Ready, MatchNode, LookaheadStops;
      FilledNone(env, groups, matches, a);
      var s := pos;
      n, good := 0, pos;
      while n == UNBOUNDED || n < p1
        invariant pos <= s <= |env.text| && good == s
        invariant GreedyLoop(env, b, stopc, nextc, p0, p1, pos, 0) == GreedyLoop(env, b, stopc, nextc, p0, p1, s, n)
        invariant MarkLoop(env, b, stopc, nextc, p0, p1, pos, 0, old(Now()))
               == MarkLoop(env, b, stopc, nextc, p0, p1, s, n, Now())
        invariant Filled(env, groups, old(matches), matches, a)
        decreases |env.text| - s
      {
        ghost var mid := matches;
        FilledSize(env, groups, old(matches), mid, a);
        var prev := s;
        var m := RunNode(left, s, stop, b, End, a, stopc, stopa);
        FilledThen(env, groups, old(matches), mid, matches, a, a);
        if m.None? {
          break;
        }
        n, s, good := n + 1, m.value, m.value;
        if s == prev {
          break;
        }
        mid := matches;
        FilledSize(env, groups, old(matches), mid, a);
        var stops := RunLookahead(stop, next, s, stopc, stopa, nextc, nexta);
        FilledThen(env, groups, old(matches), mid, matches, a, stopa);
        if stops && Satisfied(p0, p1, n) {
          break;
        }
        if s >= |env.text| {
          break;
        }
      }
    }

    /** Is the repetition's successor satisfied here?  A repetition that accepts zero matches is not asked. */
    method RunLookahead(stop: int, next: int, s: nat, ghost stopc: Chain, ghost stopa: nat,
                        ghost nextc: Chain, ghost nexta: nat)
      returns (stops: bool)
      requires s <= |env.text| && |matches| == |groups|
      requires Ready(nodes, groups, stop, stopc, stopa) && Ready(nodes, groups, next, nextc, nexta)
      requires stopc.Link? && nextc.Link? ==> stopa + Caps(stopc.head) <= nexta + Caps(nextc.head)
      modifies `matches, `currsubexp
      ensures stops == LookaheadStops(env, stopc, nextc, s)
      ensures Filled(env, groups, old(matches), matches, stopa)
      ensures Now() == MarkAhead(env, stopc, nextc, s, old(Now()))
      decreases |env.text| - s, if stopc.Link? then Size(stopc.head) else 0, 2
    {
      hide Filled, Ready, MatchNode;
      FilledNone(env, groups, matches, stopa);
      LinkEnds(nodes, groups, stop, stopc, stopa);
      LinkEnds(nodes, groups, next, nextc, nexta);
      if stop == -1 {
        return false;
      }
      PartsReady(nodes, groups, stop, stopc.head, stopc.tail, stopa);
      GreedyKind(nodes, groups, stop, stopc, stopa);
      if nodes[stop].kind == OP_GREEDY && nodes[stop].right / 0x10000 == 0 {
        return false;
      }
      var gnext := -1;
      ghost var gnextc, gnexta := End, stopa + Caps(stopc.head);
      NoneReady(nodes, groups, gnexta);
      LinkEnds(nodes, groups, nodes[stop].next, stopc.tail, stopa + Caps(stopc.head));
      if nodes[stop].next != -1 {
        gnext, gnextc := nodes[stop].next, stopc.tail;
      } else if next != -1 {
        PartsReady(nodes, groups, next, nextc.head, nextc.tail, nexta);
        LinkEnds(nodes, groups, nodes[next].next, nextc.tail, nexta + Caps(nextc.head));
        if nodes[next].next != -1 {
          gnext, gnextc, gnexta := nodes[next].next, nextc.tail, nexta + Caps(nextc.head);
        }
      }
      var m := RunNode(stop, s, gnext, stopc.head, stopc.tail, stopa, gnextc, gnexta);
      stops := m.Some?;
    }
  }

  lemma GreedyKind(nodes: Nodes, groups: seq<Elem>, x: nat, c: Chain, a: nat)
    requires c.Link? && Ready(nodes, groups, x, c, a)
    ensures 0 <= x < |nodes|
    ensures (nodes[x].kind == OP_GREEDY && nodes[x].right / 0x10000 == 0) <==> (c.head.Greedy? && c.head.lo == 0)
  {
    PartsReady(nodes, groups, x, c.head, c.tail, a);
    if c.head.Greedy? {
      Bounds(c.head.lo, c.head.hi);
    }
  }

  lemma GroupRight(env: Env, e: Elem, rest: Chain, pos: nat, nextc: Chain, m: Capture)
    requires pos <= |env.text|
    requires var r := MatchNode(env, e, rest, pos, nextc);
             m == if r.Some? then Capture(Some(pos), r.value - pos) else Capture(None, 0)
    ensures Right(env, m, e)
  {
    MatchNodeSound(env, e, rest, pos, nextc);
  }

  lemma RootNumbered(nodes: Nodes, groups: seq<Elem>, root: Elem)
    requires Ready(nodes, groups, 0, Link(root, End), 0)
    ensures Numbered(root, 0, groups)
  {
  }

  lemma NoneReady(nodes: Nodes, groups: seq<Elem>, a: nat)
    ensures Ready(nodes, groups, -1, End, a)
  {
  }

  lemma LinkEnds(nodes: Nodes, groups: seq<Elem>, x: int, c: Chain, a: nat)
    requires Ready(nodes, groups, x, c, a)
    ensures if c.End? then x == -1 else x >= 0
  {
    if c.Link? {
      PartsReady(nodes, groups, x, c.head, c.tail, a);
    }
  }

  lemma FilledSize(env: Env, groups: seq<Elem>, was: seq<Capture>, now: seq<Capture>, a: nat)
    requires Filled(env, groups, was, now, a)
    ensures |was| == |now| == |groups| && forall k :: 0 <= k < a && k < |now| ==> now[k] == was[k]
  {
  }
}
