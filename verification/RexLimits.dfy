/** The compiler's two limits, nesting depth and number of nodes, as conditions on the tree a pattern spells. */
module RexLimits {
  import opened Rex
  import opened RexNodes
  import opened RexGrammar

  const MAX_DEPTH: nat := 200
  const MAX_NODES: nat := 2000

  // ---------- how many nodes a tree takes ----------

  /** A range takes a second node, for the character it starts from. */
  function ItemNodes(items: seq<Item>): (n: nat) {
    if items == [] then 0 else ItemNodes(items[..|items| - 1]) + if items[|items| - 1].Span? then 2 else 1
  }

  function NodesOf(e: Elem): (n: nat)
    decreases Size(e), 0
  {
    match e
    case Class(_, first, more) => 1 + ItemNodes([first] + more)
    case Group(_, h, t) => 1 + NodesOf(h) + NodesOfChain(t)
    case Or(lh, lt, rh, rt) => NodesOf(lh) + NodesOfChain(lt) + 1 + NodesOf(rh) + NodesOfChain(rt)
    case Greedy(b, _, _) => NodesOf(b) + 1
    case _ => 1
  }

  function NodesOfChain(c: Chain): (n: nat)
    decreases ChainSize(c), 1
  {
    match c
    case End => 0
    case Link(h, t) => NodesOf(h) + NodesOfChain(t)
  }

  // ---------- trees within the limits ----------

  /** Each element of a sequence is one level deeper than the one before it; where it starts, at most MAX_NODES nodes
      have been made.  `d` levels are open and `n` nodes made at the start. */
  ghost predicate FitsSeq(h: Elem, t: Chain, d: nat, n: nat)
    decreases Size(h) + ChainSize(t), 2
  {
    && d + 1 <= MAX_DEPTH && n <= MAX_NODES
    && FitsUnit(h, d + 1, n)
    && (t.Link? ==> FitsSeq(t.head, t.tail, d + 1, n + NodesOf(h)))
  }

  ghost predicate FitsUnit(e: Elem, d: nat, n: nat)
    decreases Size(e), 1
  {
    match e
    case Greedy(b, _, _) => FitsUnit(b, d, n)
    case Group(_, h, t) => FitsList(h, t, d, n + 1)
    case _ => true
  }

  ghost predicate FitsTerm(h: Elem, t: Chain, d: nat, n: nat)
    decreases Size(h) + ChainSize(t), 3
  {
    if h.Bol? && t.Link? then FitsSeq(t.head, t.tail, d, n + 1) else FitsSeq(h, t, d, n)
  }

  ghost predicate FitsList(h: Elem, t: Chain, d: nat, n: nat)
    decreases Size(h) + ChainSize(t), 4
  {
    if h.Or? then
      && FitsTerm(h.lhead, h.ltail, d, n)
      && FitsList(h.rhead, h.rtail, d, n + NodesOf(h.lhead) + NodesOfChain(h.ltail) + 1)
    else FitsTerm(h, t, d, n)
  }

  /** The whole pattern: the root node is there and nothing is open. */
  ghost predicate Fits(h: Elem, t: Chain) {
    FitsList(h, t, 0, 1)
  }

  // ---------- text that spells nothing within the limits ----------

  ghost predicate NoAtom(printable: int -> bool, pat: Pattern, i: nat, a: nat, d: nat, n: nat) {
    forall j, e :: i <= j <= |pat| && IsAtom(printable, pat, i, j, e, a) ==> !FitsUnit(e, d, n)
  }

  ghost predicate NoUnit(printable: int -> bool, pat: Pattern, i: nat, a: nat, d: nat, n: nat) {
    forall j, e :: i <= j <= |pat| && IsUnit(printable, pat, i, j, e, a) ==> !FitsUnit(e, d, n)
  }

  ghost predicate NoSeq(printable: int -> bool, pat: Pattern, i: nat, a: nat, d: nat, n: nat) {
    forall j, h, t :: i <= j <= |pat| && IsSeq(printable, pat, i, j, h, t, a) ==> !FitsSeq(h, t, d, n)
  }

  ghost predicate NoTerm(printable: int -> bool, pat: Pattern, i: nat, a: nat, d: nat, n: nat) {
    forall j, h, t :: i <= j <= |pat| && IsTerm(printable, pat, i, j, h, t, a) ==> !FitsTerm(h, t, d, n)
  }

  ghost predicate NoList(printable: int -> bool, pat: Pattern, i: nat, a: nat, d: nat, n: nat) {
    forall j, h, t :: i <= j <= |pat| && IsList(printable, pat, i, j, h, t, a) ==> !FitsList(h, t, d, n)
  }

  lemma NoAtomNoUnit(printable: int -> bool, pat: Pattern, i: nat, a: nat, d: nat, n: nat)
    requires NoAtom(printable, pat, i, a, d, n)
    ensures NoUnit(printable, pat, i, a, d, n)
  {
    hide IsAtom, IsUnit;
    forall j, e | i <= j <= |pat| && IsUnit(printable, pat, i, j, e, a) ensures !FitsUnit(e, d, n) {
      var k := UnitAtom(printable, pat, i, j, e, a);
      assert !FitsUnit(if e.Greedy? then e.body else e, d, n);
    }
  }

  lemma NoQuantNoUnit(printable: int -> bool, pat: Pattern, i: nat, k: nat, e: Elem, a: nat, d: nat, n: nat)
    requires i <= k <= |pat| && IsAtom(printable, pat, i, k, e, a) && Mark(At(pat, k)) && NoQuant(pat, k)
    ensures NoUnit(printable, pat, i, a, d, n)
  {
    hide IsAtom, IsUnit, IsQuant, FitsUnit;
    forall j, e' | i <= j <= |pat| ensures !IsUnit(printable, pat, i, j, e', a) {
      if IsUnit(printable, pat, i, j, e', a) {
        var k' := UnitAtom(printable, pat, i, j, e', a);
        AtomUnique(printable, pat, i, k, e, k', if e'.Greedy? then e'.body else e', a);
        assert false;
      }
    }
  }

  lemma NoUnitNoSeq(printable: int -> bool, pat: Pattern, i: nat, a: nat, d: nat, n: nat)
    requires d + 1 > MAX_DEPTH || n > MAX_NODES || NoUnit(printable, pat, i, a, d + 1, n)
    ensures NoSeq(printable, pat, i, a, d, n)
  {
    hide IsUnit, IsSeq, FitsUnit;
    forall j, h, t | i <= j <= |pat| && IsSeq(printable, pat, i, j, h, t, a) ensures !FitsSeq(h, t, d, n) {
      var k := SeqUnit(printable, pat, i, j, h, t, a);
    }
  }

  lemma NoRestNoSeq(printable: int -> bool, pat: Pattern, i: nat, k: nat, e: Elem, a: nat, d: nat, n: nat)
    requires i <= k <= |pat| && IsUnit(printable, pat, i, k, e, a) && !Ends(At(pat, k))
    requires NoSeq(printable, pat, k, a + Caps(e), d + 1, n + NodesOf(e))
    ensures NoSeq(printable, pat, i, a, d, n)
  {
    hide IsUnit, IsSeq, FitsUnit;
    forall j, h, t | i <= j <= |pat| && IsSeq(printable, pat, i, j, h, t, a) ensures !FitsSeq(h, t, d, n) {
      var k' := SeqUnit(printable, pat, i, j, h, t, a);
      UnitUnique(printable, pat, i, k, e, k', h, a);
    }
  }

  lemma NoSeqNoTerm(printable: int -> bool, pat: Pattern, i: nat, a: nat, d: nat, n: nat)
    requires if At(pat, i) == '^' as int then NoSeq(printable, pat, i + 1, a, d, n + 1)
             else NoSeq(printable, pat, i, a, d, n)
    ensures NoTerm(printable, pat, i, a, d, n)
  {
    hide IsSeq, IsTerm, FitsSeq;
    forall j, h, t | i <= j <= |pat| && IsTerm(printable, pat, i, j, h, t, a) ensures !FitsTerm(h, t, d, n) {
      TermSeq(printable, pat, i, j, h, t, a);
      if At(pat, i) != '^' as int {
        SeqStart(printable, pat, i, j, h, t, a);
      }
    }
  }

  /** A sequence does not start with an anchor or an alternative. */
  lemma SeqStart(printable: int -> bool, pat: Pattern, i: nat, j: nat, h: Elem, t: Chain, a: nat)
    requires i <= j <= |pat| && IsSeq(printable, pat, i, j, h, t, a)
    ensures !h.Or? && !h.Bol?
  {
    hide IsSeq, IsUnit, IsAtom;
    var k := SeqUnit(printable, pat, i, j, h, t, a);
    k := UnitAtom(printable, pat, i, k, h, a);
    AtomKind(printable, pat, i, k, if h.Greedy? then h.body else h, a);
  }

  lemma NoTermNoList(printable: int -> bool, pat: Pattern, i: nat, a: nat, d: nat, n: nat)
    requires NoTerm(printable, pat, i, a, d, n)
    ensures NoList(printable, pat, i, a, d, n)
  {
    hide IsTerm, IsList, FitsTerm;
    forall j, h, t | i <= j <= |pat| && IsList(printable, pat, i, j, h, t, a) ensures !FitsList(h, t, d, n) {
      var k := ListTerm(printable, pat, i, j, h, t, a);
    }
  }

  lemma NoRestNoList(printable: int -> bool, pat: Pattern, i: nat, k: nat, lh: Elem, lt: Chain, a: nat, d: nat, n: nat)
    requires i <= k < |pat| && IsTerm(printable, pat, i, k, lh, lt, a) && pat[k] == '|' as int
    requires NoList(printable, pat, k + 1, a + Caps(lh) + CapsChain(lt), d, n + NodesOf(lh) + NodesOfChain(lt) + 1)
    ensures NoList(printable, pat, i, a, d, n)
  {
    hide IsTerm, IsList, FitsTerm;
    forall j, h, t | i <= j <= |pat| && IsList(printable, pat, i, j, h, t, a) ensures !FitsList(h, t, d, n) {
      var k' := ListTerm(printable, pat, i, j, h, t, a);
      TermUnique(printable, pat, i, k, lh, lt, k', if h.Or? then h.lhead else h, if h.Or? then h.ltail else t, a);
    }
  }

  /** A group whose inside is no list, or is one that does not end at a closing parenthesis. */
  lemma NoGroup(printable: int -> bool, pat: Pattern, i: nat, k: nat, a: nat, b: nat, d: nat, n: nat)
    requires At(pat, i) == '(' as int
    requires k == (if At(pat, i + 1) != '?' as int then i + 1 else i + 3)
    requires b == (if At(pat, i + 1) != '?' as int then a + 1 else a)
    requires || (At(pat, i + 1) == '?' as int && At(pat, i + 2) != ':' as int)
             || NoList(printable, pat, k, b, d, n + 1)
             || exists j, h, t :: k <= j <= |pat| && IsList(printable, pat, k, j, h, t, b) && At(pat, j) != ')' as int
    ensures NoAtom(printable, pat, i, a, d, n)
  {
    hide IsAtom, IsList, FitsList;
    forall j, e | i <= j <= |pat| && IsAtom(printable, pat, i, j, e, a) ensures !FitsUnit(e, d, n) {
      AtomKind(printable, pat, i, j, e, a);
      var k' := GroupParts(printable, pat, i, j, e, a);
      if j', h, t :| k <= j' <= |pat| && IsList(printable, pat, k, j', h, t, b) && At(pat, j') != ')' as int {
        ListUnique(printable, pat, k, j - 1, e.head, e.tail, j', h, t, b);
      }
    }
  }

  lemma NoClass(printable: int -> bool, pat: Pattern, i: nat, a: nat, d: nat, n: nat)
    requires At(pat, i) == '[' as int
    requires var k := if At(pat, i + 1) == '^' as int then i + 2 else i + 1;
             At(pat, k) == ']' as int || NoBody(printable, pat, k)
    ensures NoAtom(printable, pat, i, a, d, n)
  {
    hide IsAtom, IsBody;
    forall j, e | i <= j <= |pat| ensures !IsAtom(printable, pat, i, j, e, a) {
      if IsAtom(printable, pat, i, j, e, a) {
        AtomKind(printable, pat, i, j, e, a);
        var k := ClassParts(printable, pat, i, j, e, a);
        assert false;
      }
    }
  }

  lemma NoChar(printable: int -> bool, pat: Pattern, i: nat, a: nat, d: nat, n: nat)
    requires !Special(At(pat, i)) && CharNode(printable, pat, i, false).None?
    ensures NoAtom(printable, pat, i, a, d, n)
  {
    hide CharNode, IsList, IsItems;
  }

  // ---------- short patterns ----------

  lemma {:induction false} ItemsShort(printable: int -> bool, pat: Pattern, i: nat, j: nat, items: seq<Item>)
    requires IsItems(printable, pat, i, j, items)
    ensures ItemNodes(items) <= j - i
    decreases |items|
  {
    if items != [] {
      var k :| i <= k <= j && IsItem(printable, pat, i, k, items[0]) && IsItems(printable, pat, k, j, items[1..]);
      ItemsShort(printable, pat, k, j, items[1..]);
      ItemNodesFirst(items);
    }
  }

  lemma {:induction false} ItemNodesFirst(items: seq<Item>)
    requires items != []
    ensures ItemNodes(items) == (if items[0].Span? then 2 else 1) + ItemNodes(items[1..])
    decreases |items|
  {
    var front := items[..|items| - 1];
    if front != [] {
      ItemNodesFirst(front);
      assert items[1..][..|items| - 2] == front[1..];
    } else {
      assert items[1..] == [];
    }
  }

  /** Every node is paid for by a character. */
  lemma {:induction false} AtomShort(printable: int -> bool, pat: Pattern, i: nat, j: nat, e: Elem, a: nat)
    requires i <= j <= |pat| && IsAtom(printable, pat, i, j, e, a)
    ensures NodesOf(e) <= j - i
    decreases Size(e), 0
  {
    hide IsAtom, IsList, IsItems, ItemNodes;
    AtomKind(printable, pat, i, j, e, a);
    if e.Group? {
      var k := GroupParts(printable, pat, i, j, e, a);
      ListShort(printable, pat, k, j - 1, e.head, e.tail, if e.capture >= 0 then a + 1 else a);
    } else if e.Class? {
      var k := ClassParts(printable, pat, i, j, e, a);
      ItemsShort(printable, pat, k, j - 1, [e.first] + e.more);
    }
  }

  lemma {:induction false} UnitShort(printable: int -> bool, pat: Pattern, i: nat, j: nat, e: Elem, a: nat)
    requires i <= j <= |pat| && IsUnit(printable, pat, i, j, e, a)
    ensures NodesOf(e) <= j - i
    decreases Size(e), 1
  {
    hide IsUnit, IsAtom;
    var k := UnitAtom(printable, pat, i, j, e, a);
    AtomShort(printable, pat, i, k, if e.Greedy? then e.body else e, a);
  }

  lemma {:induction false} SeqShort(printable: int -> bool, pat: Pattern, i: nat, j: nat, h: Elem, t: Chain, a: nat)
    requires i <= j <= |pat| && IsSeq(printable, pat, i, j, h, t, a)
    ensures NodesOf(h) + NodesOfChain(t) <= j - i
    decreases Size(h) + ChainSize(t), 2
  {
    hide IsSeq, IsUnit;
    var k := SeqUnit(printable, pat, i, j, h, t, a);
    UnitShort(printable, pat, i, k, h, a);
    if t.Link? {
      SeqShort(printable, pat, k, j, t.head, t.tail, a + Caps(h));
    }
  }

  lemma {:induction false} ListShort(printable: int -> bool, pat: Pattern, i: nat, j: nat, h: Elem, t: Chain, a: nat)
    requires i <= j <= |pat| && IsList(printable, pat, i, j, h, t, a)
    ensures NodesOf(h) + NodesOfChain(t) <= j - i
    decreases Size(h) + ChainSize(t), 4
  {
    hide IsList, IsTerm;
    var k := ListTerm(printable, pat, i, j, h, t, a);
    if h.Or? {
      TermShort(printable, pat, i, k, h.lhead, h.ltail, a);
      ListShort(printable, pat, k + 1, j, h.rhead, h.rtail, a + Caps(h.lhead) + CapsChain(h.ltail));
    } else {
      TermShort(printable, pat, i, k, h, t, a);
    }
  }

  lemma {:induction false} TermShort(printable: int -> bool, pat: Pattern, i: nat, j: nat, h: Elem, t: Chain, a: nat)
    requires i <= j <= |pat| && IsTerm(printable, pat, i, j, h, t, a)
    ensures NodesOf(h) + NodesOfChain(t) <= j - i
    decreases Size(h) + ChainSize(t), 3
  {
    hide IsTerm, IsSeq;
    TermSeq(printable, pat, i, j, h, t, a);
    if At(pat, i) == '^' as int {
      SeqShort(printable, pat, i + 1, j, t.head, t.tail, a);
    } else {
      SeqShort(printable, pat, i, j, h, t, a);
    }
  }

  /** Every level is paid for by a character, too: a pattern of at most MAX_DEPTH characters is within the limits. */
  lemma {:induction false} SeqFits(printable: int -> bool, pat: Pattern, i: nat, j: nat, h: Elem, t: Chain, a: nat,
                                   d: nat, n: nat)
    requires |pat| <= MAX_DEPTH && i <= j <= |pat| && IsSeq(printable, pat, i, j, h, t, a) && d <= i && n <= i + 1
    ensures FitsSeq(h, t, d, n)
    decreases Size(h) + ChainSize(t), 2
  {
    hide IsSeq, IsUnit, IsAtom, FitsUnit;
    var k := SeqUnit(printable, pat, i, j, h, t, a);
    var m := UnitAtom(printable, pat, i, k, h, a);
    AtomKind(printable, pat, i, m, if h.Greedy? then h.body else h, a);
    UnitFits(printable, pat, i, k, h, a, d + 1, n);
    if t.Link? {
      UnitShort(printable, pat, i, k, h, a);
      SeqFits(printable, pat, k, j, t.head, t.tail, a + Caps(h), d + 1, n + NodesOf(h));
    }
  }

  lemma {:induction false} UnitFits(printable: int -> bool, pat: Pattern, i: nat, j: nat, e: Elem, a: nat, d: nat,
                                    n: nat)
    requires |pat| <= MAX_DEPTH && i <= j <= |pat| && IsUnit(printable, pat, i, j, e, a) && d <= i + 1 && n <= i + 1
    ensures FitsUnit(e, d, n)
    decreases Size(e), 1
  {
    hide IsUnit, IsAtom, FitsList;
    var k := UnitAtom(printable, pat, i, j, e, a);
    var atom := if e.Greedy? then e.body else e;
    AtomKind(printable, pat, i, k, atom, a);
    assert Size(atom) <= Size(e);
    if atom.Group? {
      var m := GroupParts(printable, pat, i, k, atom, a);
      ListFits(printable, pat, m, k - 1, atom.head, atom.tail, if atom.capture >= 0 then a + 1 else a, d, n + 1);
    }
    assert FitsUnit(atom, d, n);
  }

  lemma {:induction false} ListFits(printable: int -> bool, pat: Pattern, i: nat, j: nat, h: Elem, t: Chain, a: nat,
                                    d: nat, n: nat)
    requires |pat| <= MAX_DEPTH && i <= j <= |pat| && IsList(printable, pat, i, j, h, t, a) && d <= i && n <= i + 1
    ensures FitsList(h, t, d, n)
    decreases Size(h) + ChainSize(t), 4
  {
    hide IsList, IsTerm, FitsTerm;
    var k := ListTerm(printable, pat, i, j, h, t, a);
    if h.Or? {
      TermFits(printable, pat, i, k, h.lhead, h.ltail, a, d, n);
      TermShort(printable, pat, i, k, h.lhead, h.ltail, a);
      ListFits(printable, pat, k + 1, j, h.rhead, h.rtail, a + Caps(h.lhead) + CapsChain(h.ltail), d,
               n + NodesOf(h.lhead) + NodesOfChain(h.ltail) + 1);
    } else {
      TermFits(printable, pat, i, k, h, t, a, d, n);
    }
  }

  lemma {:induction false} TermFits(printable: int -> bool, pat: Pattern, i: nat, j: nat, h: Elem, t: Chain, a: nat,
                                    d: nat, n: nat)
    requires |pat| <= MAX_DEPTH && i <= j <= |pat| && IsTerm(printable, pat, i, j, h, t, a) && d <= i && n <= i + 1
    ensures FitsTerm(h, t, d, n)
    decreases Size(h) + ChainSize(t), 3
  {
    hide IsTerm, IsSeq, FitsSeq;
    TermSeq(printable, pat, i, j, h, t, a);
    if At(pat, i) == '^' as int {
      SeqFits(printable, pat, i + 1, j, t.head, t.tail, a, d, n + 1);
    } else {
      SeqStart(printable, pat, i, j, h, t, a);
      SeqFits(printable, pat, i, j, h, t, a, d, n);
    }
  }

  /** A caller's condition: no pattern of at most 200 characters is refused for its size. */
  lemma ShortFits(printable: int -> bool, pat: Pattern, h: Elem, t: Chain)
    requires |pat| <= MAX_DEPTH && IsList(printable, pat, 0, |pat|, h, t, 1)
    ensures Fits(h, t)
  {
    hide IsList, FitsList;
    ListFits(printable, pat, 0, |pat|, h, t, 1, 0, 1);
  }
}
