/** What a pattern's text says: the grammar that sqstd_rex_list, sqstd_rex_element and sqstd_rex_class accept. */
module RexGrammar {
  import opened Objects
  import opened Rex
  import opened RexNodes

  /** Pattern characters: signed bytes without the terminator. */
  type Char8 = c: int | -128 <= c < 128 && c != 0 witness 1
  type Pattern = seq<Char8>

  function At(pat: Pattern, p: nat): (c: int) {
    if p < |pat| then pat[p] else 0
  }

  function Fresh(kind: int): (n: Node) {
    Node(kind, -1, -1, -1)
  }

  predicate Digit(c: int)
    ensures Digit(c) <==> 0 <= c - '0' as int < 10
  {
    '0' as int <= c <= '9' as int
  }

  /** The letters that name a class after a backslash. */
  const CLASS_LETTERS: set<char> := {'a', 'A', 'w', 'W', 's', 'S', 'd', 'D', 'x', 'X', 'c', 'C', 'p', 'P', 'l', 'u'}

  predicate ClassLetter(c: int)
    ensures ClassLetter(c) <==> 0 <= c < 128 && c as char in CLASS_LETTERS
  {
    exists l :: l in CLASS_LETTERS && l as int == c
  }

  function Control(c: int): (r: Option<int>) {
    if c == 'n' as int then Some(10)
    else if c == 't' as int then Some(9)
    else if c == 'r' as int then Some(13)
    else if c == 'f' as int then Some(12)
    else if c == 'v' as int then Some(11)
    else None
  }

  /** sqstd_rex_charnode at `p`: the node and the place after it; `printable` is sq_isprint. */
  function CharNode(printable: int -> bool, pat: Pattern, p: nat, inClass: bool): (r: Option<(Node, nat)>)
    ensures r.Some? ==> p < r.value.1 <= |pat| && r.value.0.next == -1
    ensures r.Some? ==>
              var k := r.value.0.kind; k < OP_GREEDY || k == OP_CCLASS || k == OP_MB || (k == OP_WB && !inClass)
  {
    if p >= |pat| then None
    else if pat[p] != '\\' as int then
      if printable(pat[p]) then Some((Fresh(pat[p]), p + 1)) else None
    else if p + 1 >= |pat| then None
    else
      var c := pat[p + 1];
      if Control(c).Some? then Some((Fresh(Control(c).value), p + 2))
      else if ClassLetter(c) then Some((Fresh(OP_CCLASS).(left := c), p + 2))
      else if c == 'm' as int then
        if p + 3 >= |pat| || pat[p + 2] == pat[p + 3] then None
        else Some((Node(OP_MB, pat[p + 2], pat[p + 3], -1), p + 4))
      else if (c == 'b' as int || c == 'B' as int) && !inClass then Some((Fresh(OP_WB).(left := c), p + 2))
      else Some((Fresh(c), p + 2))
  }

  /** sqstd_rex_escapechar, the upper end of a range. */
  function EscapeChar(printable: int -> bool, pat: Pattern, p: nat): (r: Option<(int, nat)>)
    ensures r.Some? ==> p < r.value.1 <= |pat|
  {
    if p >= |pat| then None
    else if pat[p] != '\\' as int then
      if printable(pat[p]) then Some((pat[p], p + 1)) else None
    else if p + 1 >= |pat| then None
    else Some((if Control(pat[p + 1]).Some? then Control(pat[p + 1]).value else pat[p + 1], p + 2))
  }

  /** The control characters that a letter after a backslash stands for. */
  const CONTROLS: map<int, int> :=
    map['n' as int := '\n' as int, 't' as int := '\t' as int, 'r' as int := '\r' as int, 'f' as int := 0x0C,
        'v' as int := 0x0B]

  const BACKSLASH: int := '\\' as int

  /** `text` is the escape or the plain character `c`. */
  ghost predicate SpellsChar(printable: int -> bool, text: Pattern, c: int) {
    || (text == [c] && c != BACKSLASH && printable(c))
    || (|text| == 2 && text[0] == BACKSLASH && text[1] in CONTROLS && c == CONTROLS[text[1]])
    || (text == [BACKSLASH, c] && c !in CONTROLS)
  }

  /** `text` is one unit of a class or of a sequence, and `n` its node. */
  ghost predicate SpellsNode(printable: int -> bool, text: Pattern, inClass: bool, n: Node) {
    if |text| >= 2 && text[0] == BACKSLASH && text[1] > 0 && text[1] as char in CLASS_LETTERS
    then |text| == 2 && n == Node(OP_CCLASS, text[1], -1, -1)
    else if |text| >= 2 && text[..2] == [BACKSLASH, 'm' as int]
    then |text| == 4 && text[2] != text[3] && n == Node(OP_MB, text[2], text[3], -1)
    else if !inClass && |text| >= 2 && (text[..2] == [BACKSLASH, 'b' as int] || text[..2] == [BACKSLASH, 'B' as int])
    then |text| == 2 && n == Node(OP_WB, text[1], -1, -1)
    else SpellsChar(printable, text, n.kind) && n == Node(n.kind, -1, -1, -1)
  }

  lemma ControlTable(c: int)
    ensures Control(c) == if c in CONTROLS then Some(CONTROLS[c]) else None
  {
  }

  /** The upper end of a range is the character its text spells, wherever that ends. */
  lemma EscapeCharExact(printable: int -> bool, pat: Pattern, p: nat, c: int, j: nat)
    ensures EscapeChar(printable, pat, p) == Some((c, j)) <==>
            p <= j <= |pat| && SpellsChar(printable, pat[p..j], c)
  {
    if p + 1 < |pat| {
      ControlTable(pat[p + 1]);
    }
    if p <= j <= |pat| {
      var text := pat[p..j];
      assert |text| >= 1 ==> text[0] == pat[p];
      assert |text| >= 2 ==> text[1] == pat[p + 1];
    }
  }

  /** A unit is the node its text spells. */
  lemma CharNodeExact(printable: int -> bool, pat: Pattern, p: nat, inClass: bool, n: Node, j: nat)
    ensures CharNode(printable, pat, p, inClass) == Some((n, j)) <==>
            p <= j <= |pat| && SpellsNode(printable, pat[p..j], inClass, n)
  {
    if p + 1 < |pat| {
      ControlTable(pat[p + 1]);
    }
    if p <= j <= |pat| {
      var text := pat[p..j];
      assert forall i :: 0 <= i < |text| ==> text[i] == pat[p + i];
    }
  }

  /** What a node made by CharNode stands for, outside and inside a class. */
  function ElemOf(n: Node): (e: Elem) {
    if n.kind == OP_CCLASS then CClass(n.left)
    else if n.kind == OP_MB then Mb(n.left, n.right)
    else if n.kind == OP_WB then Wb(n.left == WORD_BOUNDARY)
    else Char(n.kind)
  }

  function ItemOf(n: Node): (it: Item) {
    if n.kind == OP_CCLASS then Named(n.left) else Just(n.kind)
  }

  // ---------- classes ----------

  /** pat[i..j] spells a character, a class letter, or a range. */
  ghost predicate IsItem(printable: int -> bool, pat: Pattern, i: nat, j: nat, it: Item) {
    var r := CharNode(printable, pat, i, true);
    && r.Some? && At(pat, i) != ']' as int
    && if At(pat, r.value.1) == '-' as int then
         && it.Span? && r.value.0.kind == it.lo != OP_CCLASS && At(pat, r.value.1 + 1) != ']' as int
         && EscapeChar(printable, pat, r.value.1 + 1) == Some((it.hi, j)) && it.lo <= it.hi
       else r.value.1 == j && it == ItemOf(r.value.0)
  }

  ghost predicate IsItems(printable: int -> bool, pat: Pattern, i: nat, j: nat, items: seq<Item>)
    decreases |items|
  {
    if items == [] then i == j
    else exists k :: i <= k <= j && IsItem(printable, pat, i, k, items[0]) && IsItems(printable, pat, k, j, items[1..])
  }

  lemma {:induction false} IsItemsMore(printable: int -> bool, pat: Pattern, i: nat, j: nat, k: nat, items: seq<Item>,
                                       it: Item)
    requires IsItems(printable, pat, i, j, items) && j <= k && IsItem(printable, pat, j, k, it)
    ensures IsItems(printable, pat, i, k, items + [it])
    decreases |items|
  {
    if items == [] {
      assert IsItems(printable, pat, k, k, (items + [it])[1..]);
    } else {
      var m :| i <= m <= j && IsItem(printable, pat, i, m, items[0]) && IsItems(printable, pat, m, j, items[1..]);
      IsItemsMore(printable, pat, m, j, k, items[1..], it);
      assert (items + [it])[1..] == items[1..] + [it];
    }
  }

  // ---------- repetition ----------

  function Value(pat: Pattern, i: nat, j: nat): (n: int)
    requires i <= j <= |pat|
    decreases j
  {
    if i == j then 0 else Value(pat, i, j - 1) * 10 + (pat[j - 1] - '0' as int)
  }

  /** At most nine digits. */
  ghost predicate IsNumber(pat: Pattern, i: nat, j: nat, n: int) {
    && i < j <= |pat| && j - i <= 9 && (forall k :: i <= k < j ==> Digit(pat[k])) && !Digit(At(pat, j))
    && n == Value(pat, i, j)
  }

  const MAX_COUNT: nat := 0xFFFE

  /** pat[i..j] is a repetition mark for lo to hi times. */
  ghost predicate IsQuant(pat: Pattern, i: nat, j: nat, lo: nat, hi: nat) {
    if At(pat, i) == '*' as int then j == i + 1 && lo == 0 && hi == UNBOUNDED
    else if At(pat, i) == '+' as int then j == i + 1 && lo == 1 && hi == UNBOUNDED
    else if At(pat, i) == '?' as int then j == i + 1 && lo == 0 && hi == 1
    else
      && At(pat, i) == '{' as int
      && exists k :: IsNumber(pat, i + 1, k, lo) && lo <= MAX_COUNT && IsUpper(pat, k, j, lo, hi)
  }

  /** The rest of a `{`: the upper bound. */
  ghost predicate IsUpper(pat: Pattern, k: nat, j: nat, lo: nat, hi: nat) {
    || (At(pat, k) == '}' as int && j == k + 1 && hi == lo)
    || (At(pat, k) == ',' as int && At(pat, k + 1) == '}' as int && j == k + 2 && hi == UNBOUNDED)
    || (At(pat, k) == ',' as int && j > k + 2 && At(pat, j - 1) == '}' as int
        && IsNumber(pat, k + 1, j - 1, hi) && lo <= hi <= MAX_COUNT)
  }

  // ---------- groups, sequences and alternatives; the capturing groups are numbered from `a` on ----------

  ghost predicate IsAtom(printable: int -> bool, pat: Pattern, i: nat, j: nat, e: Elem, a: nat)
    requires i <= j <= |pat|
    decreases Size(e), 0
  {
    match e
    case Group(c, h, t) =>
      var k := if c >= 0 then i + 1 else i + 3;
      && At(pat, i) == '(' as int && k <= j - 1 && pat[j - 1] == ')' as int
      && (if c >= 0 then At(pat, i + 1) != '?' as int
          else At(pat, i + 1) == '?' as int && At(pat, i + 2) == ':' as int)
      && (if c >= 0 then c == a else c == -1)
      && IsList(printable, pat, k, j - 1, h, t, if c >= 0 then a + 1 else a)
    case Class(negated, first, more) =>
      var k := if negated then i + 2 else i + 1;
      && At(pat, i) == '[' as int && negated == (At(pat, i + 1) == '^' as int)
      && k <= j - 1 && At(pat, k) != ']' as int && pat[j - 1] == ']' as int
      && IsItems(printable, pat, k, j - 1, [first] + more)
    case Eol => At(pat, i) == '$' as int && j == i + 1
    case Dot => At(pat, i) == '.' as int && j == i + 1
    case Bol => false
    case Or(_, _, _, _) => false
    case Greedy(_, _, _) => false
    case _ =>
      var r := CharNode(printable, pat, i, false);
      r.Some? && r.value.1 == j && e == ElemOf(r.value.0) && !Special(At(pat, i))
  }

  predicate Special(c: int) {
    c == '(' as int || c == '[' as int || c == '$' as int || c == '.' as int
  }

  /** An atom with or without a repetition mark; a mark directly behind it always belongs to it. */
  ghost predicate IsUnit(printable: int -> bool, pat: Pattern, i: nat, j: nat, e: Elem, a: nat)
    requires i <= j <= |pat|
    decreases Size(e), 1
  {
    if e.Greedy? then
      exists k :: i <= k <= j && IsAtom(printable, pat, i, k, e.body, a) && IsQuant(pat, k, j, e.lo, e.hi)
    else IsAtom(printable, pat, i, j, e, a) && !Mark(At(pat, j))
  }

  predicate Mark(c: int) {
    c == '*' as int || c == '+' as int || c == '?' as int || c == '{' as int
  }

  /** Units up to a character that ends a sequence. */
  ghost predicate IsSeq(printable: int -> bool, pat: Pattern, i: nat, j: nat, h: Elem, t: Chain, a: nat)
    requires i <= j <= |pat|
    decreases Size(h) + ChainSize(t), 2
  {
    exists k :: i <= k <= j && IsUnit(printable, pat, i, k, h, a)
                && if t.End? then k == j && Ends(At(pat, j))
                   else !Ends(At(pat, k)) && IsSeq(printable, pat, k, j, t.head, t.tail, a + Caps(h))
  }

  predicate Ends(c: int) {
    c == '|' as int || c == ')' as int || c == '*' as int || c == '+' as int || c == 0
  }

  /** A sequence, anchored if it starts with `^`. */
  ghost predicate IsTerm(printable: int -> bool, pat: Pattern, i: nat, j: nat, h: Elem, t: Chain, a: nat)
    requires i <= j <= |pat|
    decreases Size(h) + ChainSize(t), 3
  {
    if At(pat, i) == '^' as int then h.Bol? && t.Link? && i < j && IsSeq(printable, pat, i + 1, j, t.head, t.tail, a)
    else IsSeq(printable, pat, i, j, h, t, a)
  }

  ghost predicate IsList(printable: int -> bool, pat: Pattern, i: nat, j: nat, h: Elem, t: Chain, a: nat)
    requires i <= j <= |pat|
    decreases Size(h) + ChainSize(t), 4
  {
    if h.Or? then
      && t.End?
      && exists k :: i <= k < j && pat[k] == '|' as int && IsTerm(printable, pat, i, k, h.lhead, h.ltail, a)
                     && IsList(printable, pat, k + 1, j, h.rhead, h.rtail, a + Caps(h.lhead) + CapsChain(h.ltail))
    else IsTerm(printable, pat, i, j, h, t, a) && At(pat, j) != '|' as int
  }

  // ---------- the grammar is unambiguous ----------

  /** A class body: items up to the closing bracket. */
  ghost predicate IsBody(printable: int -> bool, pat: Pattern, i: nat, j: nat, items: seq<Item>) {
    IsItems(printable, pat, i, j, items) && At(pat, j) == ']' as int
  }

  lemma ItemUnique(printable: int -> bool, pat: Pattern, i: nat, j: nat, it: Item, j': nat, it': Item)
    requires IsItem(printable, pat, i, j, it) && IsItem(printable, pat, i, j', it')
    ensures j == j' && it == it'
  {
  }

  lemma {:induction false} BodyUnique(printable: int -> bool, pat: Pattern, i: nat, j: nat, items: seq<Item>, j': nat,
                                      items': seq<Item>)
    requires IsBody(printable, pat, i, j, items) && IsBody(printable, pat, i, j', items')
    ensures j == j' && items == items'
    decreases |items|
  {
    if items != [] && items' != [] {
      var k :| i <= k <= j && IsItem(printable, pat, i, k, items[0]) && IsItems(printable, pat, k, j, items[1..]);
      var k' :| i <= k' <= j' && IsItem(printable, pat, i, k', items'[0])
                && IsItems(printable, pat, k', j', items'[1..]);
      ItemUnique(printable, pat, i, k, items[0], k', items'[0]);
      BodyUnique(printable, pat, k, j, items[1..], j', items'[1..]);
      assert items == [items[0]] + items[1..] && items' == [items'[0]] + items'[1..];
    }
  }

  lemma NumberUnique(pat: Pattern, i: nat, j: nat, n: int, j': nat, n': int)
    requires IsNumber(pat, i, j, n) && IsNumber(pat, i, j', n')
    ensures j == j' && n == n'
  {
    assert j < j' ==> Digit(At(pat, j));
    assert j' < j ==> Digit(At(pat, j'));
  }

  lemma QuantUnique(pat: Pattern, i: nat, j: nat, lo: nat, hi: nat, j': nat, lo': nat, hi': nat)
    requires IsQuant(pat, i, j, lo, hi) && IsQuant(pat, i, j', lo', hi')
    ensures Mark(At(pat, i)) && j == j' && lo == lo' && hi == hi'
  {
    if At(pat, i) == '{' as int {
      var k :| IsNumber(pat, i + 1, k, lo) && lo <= MAX_COUNT && IsUpper(pat, k, j, lo, hi);
      var k' :| IsNumber(pat, i + 1, k', lo') && lo' <= MAX_COUNT && IsUpper(pat, k', j', lo', hi');
      NumberUnique(pat, i + 1, k, lo, k', lo');
      UpperUnique(pat, k, j, lo, hi, j', hi');
    }
  }

  lemma UpperUnique(pat: Pattern, k: nat, j: nat, lo: nat, hi: nat, j': nat, hi': nat)
    requires IsUpper(pat, k, j, lo, hi) && IsUpper(pat, k, j', lo, hi')
    ensures j == j' && hi == hi'
  {
    hide IsNumber;
    if At(pat, k) == ',' as int && At(pat, k + 1) != '}' as int {
      NumberUnique(pat, k + 1, j - 1, hi, j' - 1, hi');
    } else if At(pat, k) == ',' as int {
      NumberStarts(pat, k + 1, j - 1, hi);
      NumberStarts(pat, k + 1, j' - 1, hi');
    }
  }

  lemma NumberStarts(pat: Pattern, i: nat, j: int, n: int)
    ensures j >= 0 && IsNumber(pat, i, j, n) ==> Digit(At(pat, i))
  {
  }

  lemma {:induction false} AtomUnique(printable: int -> bool, pat: Pattern, i: nat, j: nat, e: Elem, j': nat,
                                      e': Elem, a: nat)
    requires i <= j <= |pat| && i <= j' <= |pat|
    requires IsAtom(printable, pat, i, j, e, a) && IsAtom(printable, pat, i, j', e', a)
    ensures j == j' && e == e'
    decreases Size(e), 0
  {
    hide IsAtom, IsList, IsBody, CharNode;
    AtomKind(printable, pat, i, j, e, a);
    AtomKind(printable, pat, i, j', e', a);
    if e.Group? {
      var k := GroupParts(printable, pat, i, j, e, a);
      var k' := GroupParts(printable, pat, i, j', e', a);
      ListUnique(printable, pat, k, j - 1, e.head, e.tail, j' - 1, e'.head, e'.tail,
                 if e.capture >= 0 then a + 1 else a);
    } else if e.Class? {
      var k := ClassParts(printable, pat, i, j, e, a);
      var k' := ClassParts(printable, pat, i, j', e', a);
      BodyUnique(printable, pat, k, j - 1, [e.first] + e.more, j' - 1, [e'.first] + e'.more);
      assert e'.more == ([e'.first] + e'.more)[1..] == ([e.first] + e.more)[1..] == e.more;
      assert e.first == ([e.first] + e.more)[0] == ([e'.first] + e'.more)[0] == e'.first;
    } else {
      SimpleUnique(printable, pat, i, j, e, j', e', a);
    }
  }

  lemma GroupParts(printable: int -> bool, pat: Pattern, i: nat, j: nat, e: Elem, a: nat) returns (k: nat)
    requires i <= j <= |pat| && IsAtom(printable, pat, i, j, e, a) && e.Group?
    ensures k == (if At(pat, i + 1) != '?' as int then i + 1 else i + 3) && k <= j - 1 && pat[j - 1] == ')' as int
    ensures At(pat, i + 1) == '?' as int ==> At(pat, i + 2) == ':' as int
    ensures e.capture == (if At(pat, i + 1) != '?' as int then a else -1)
    ensures IsList(printable, pat, k, j - 1, e.head, e.tail, if e.capture >= 0 then a + 1 else a)
  {
    hide IsList;
    k := if e.capture >= 0 then i + 1 else i + 3;
  }

  lemma ClassParts(printable: int -> bool, pat: Pattern, i: nat, j: nat, e: Elem, a: nat) returns (k: nat)
    requires i <= j <= |pat| && IsAtom(printable, pat, i, j, e, a) && e.Class?
    ensures e.negated == (At(pat, i + 1) == '^' as int) && k == (if e.negated then i + 2 else i + 1) && k <= j - 1
    ensures IsBody(printable, pat, k, j - 1, [e.first] + e.more) && At(pat, k) != ']' as int
  {
    hide IsItems;
    k := if e.negated then i + 2 else i + 1;
  }

  lemma SimpleUnique(printable: int -> bool, pat: Pattern, i: nat, j: nat, e: Elem, j': nat, e': Elem, a: nat)
    requires i <= j <= |pat| && i <= j' <= |pat|
    requires IsAtom(printable, pat, i, j, e, a) && IsAtom(printable, pat, i, j', e', a)
    requires !e.Group? && !e.Class? && !e'.Group? && !e'.Class?
    ensures j == j' && e == e'
  {
    hide CharNode;
  }

  /** An atom's kind shows in its first character. */
  lemma AtomKind(printable: int -> bool, pat: Pattern, i: nat, j: nat, e: Elem, a: nat)
    requires i <= j <= |pat| && IsAtom(printable, pat, i, j, e, a)
    ensures e.Group? <==> At(pat, i) == '(' as int
    ensures e.Class? <==> At(pat, i) == '[' as int
    ensures e.Eol? <==> At(pat, i) == '$' as int
    ensures e.Dot? <==> At(pat, i) == '.' as int
    ensures !e.Bol? && !e.Or? && !e.Greedy? && i < j
  {
    hide IsList, IsItems;
  }

  lemma {:induction false} UnitUnique(printable: int -> bool, pat: Pattern, i: nat, j: nat, e: Elem, j': nat,
                                      e': Elem, a: nat)
    requires i <= j <= |pat| && i <= j' <= |pat|
    requires IsUnit(printable, pat, i, j, e, a) && IsUnit(printable, pat, i, j', e', a)
    ensures j == j' && e == e'
    decreases Size(e), 1
  {
    hide IsAtom, IsQuant;
    var k := UnitAtom(printable, pat, i, j, e, a);
    var k' := UnitAtom(printable, pat, i, j', e', a);
    AtomUnique(printable, pat, i, k, if e.Greedy? then e.body else e, k', if e'.Greedy? then e'.body else e', a);
    if e.Greedy? && e'.Greedy? {
      QuantUnique(pat, k, j, e.lo, e.hi, j', e'.lo, e'.hi);
    }
  }

  /** Where a unit's atom ends. */
  lemma UnitAtom(printable: int -> bool, pat: Pattern, i: nat, j: nat, e: Elem, a: nat) returns (k: nat)
    requires i <= j <= |pat| && IsUnit(printable, pat, i, j, e, a)
    ensures i <= k <= j && IsAtom(printable, pat, i, k, if e.Greedy? then e.body else e, a)
    ensures e.Greedy? <==> Mark(At(pat, k))
    ensures if e.Greedy? then IsQuant(pat, k, j, e.lo, e.hi) else k == j
  {
    hide IsAtom;
    if e.Greedy? {
      k :| i <= k <= j && IsAtom(printable, pat, i, k, e.body, a) && IsQuant(pat, k, j, e.lo, e.hi);
      QuantUnique(pat, k, j, e.lo, e.hi, j, e.lo, e.hi);
    } else {
      k := j;
    }
  }

  lemma {:induction false} SeqUnique(printable: int -> bool, pat: Pattern, i: nat, j: nat, h: Elem, t: Chain,
                                     j': nat, h': Elem, t': Chain, a: nat)
    requires i <= j <= |pat| && i <= j' <= |pat|
    requires IsSeq(printable, pat, i, j, h, t, a) && IsSeq(printable, pat, i, j', h', t', a)
    ensures j == j' && h == h' && t == t'
    decreases Size(h) + ChainSize(t), 2
  {
    hide IsUnit;
    var k := SeqUnit(printable, pat, i, j, h, t, a);
    var k' := SeqUnit(printable, pat, i, j', h', t', a);
    UnitUnique(printable, pat, i, k, h, k', h', a);
    if t.Link? && t'.Link? {
      SeqUnique(printable, pat, k, j, t.head, t.tail, j', t'.head, t'.tail, a + Caps(h));
    }
  }

  /** Where a sequence's first unit ends. */
  lemma SeqUnit(printable: int -> bool, pat: Pattern, i: nat, j: nat, h: Elem, t: Chain, a: nat) returns (k: nat)
    requires i <= j <= |pat| && IsSeq(printable, pat, i, j, h, t, a)
    ensures i <= k <= j && IsUnit(printable, pat, i, k, h, a) && (t.End? <==> Ends(At(pat, k)))
    ensures if t.End? then k == j else IsSeq(printable, pat, k, j, t.head, t.tail, a + Caps(h))
  {
    hide IsUnit;
    k :| i <= k <= j && IsUnit(printable, pat, i, k, h, a)
         && if t.End? then k == j && Ends(At(pat, j))
            else !Ends(At(pat, k)) && IsSeq(printable, pat, k, j, t.head, t.tail, a + Caps(h));
  }

  lemma {:induction false} TermUnique(printable: int -> bool, pat: Pattern, i: nat, j: nat, h: Elem, t: Chain,
                                      j': nat, h': Elem, t': Chain, a: nat)
    requires i <= j <= |pat| && i <= j' <= |pat|
    requires IsTerm(printable, pat, i, j, h, t, a) && IsTerm(printable, pat, i, j', h', t', a)
    ensures j == j' && h == h' && t == t'
    decreases Size(h) + ChainSize(t), 3
  {
    hide IsSeq;
    if At(pat, i) == '^' as int {
      SeqUnique(printable, pat, i + 1, j, t.head, t.tail, j', t'.head, t'.tail, a);
    } else {
      SeqUnique(printable, pat, i, j, h, t, j', h', t', a);
    }
  }

  lemma TermSeq(printable: int -> bool, pat: Pattern, i: nat, j: nat, h: Elem, t: Chain, a: nat)
    requires i <= j <= |pat| && IsTerm(printable, pat, i, j, h, t, a)
    ensures if At(pat, i) == '^' as int
            then i < j && h.Bol? && t.Link? && IsSeq(printable, pat, i + 1, j, t.head, t.tail, a)
            else IsSeq(printable, pat, i, j, h, t, a)
  {
  }

  /** A pattern spells at most one tree. */
  lemma {:induction false} ListUnique(printable: int -> bool, pat: Pattern, i: nat, j: nat, h: Elem, t: Chain,
                                      j': nat, h': Elem, t': Chain, a: nat)
    requires i <= j <= |pat| && i <= j' <= |pat|
    requires IsList(printable, pat, i, j, h, t, a) && IsList(printable, pat, i, j', h', t', a)
    ensures j == j' && h == h' && t == t'
    decreases Size(h) + ChainSize(t), 4
  {
    hide IsTerm;
    var k := ListTerm(printable, pat, i, j, h, t, a);
    var k' := ListTerm(printable, pat, i, j', h', t', a);
    var lh, lt := if h.Or? then h.lhead else h, if h.Or? then h.ltail else t;
    var lh', lt' := if h'.Or? then h'.lhead else h', if h'.Or? then h'.ltail else t';
    TermUnique(printable, pat, i, k, lh, lt, k', lh', lt', a);
    if h.Or? && h'.Or? {
      ListUnique(printable, pat, k + 1, j, h.rhead, h.rtail, j', h'.rhead, h'.rtail, a + Caps(lh) + CapsChain(lt));
    }
  }

  /** Where a list's first alternative ends. */
  lemma ListTerm(printable: int -> bool, pat: Pattern, i: nat, j: nat, h: Elem, t: Chain, a: nat) returns (k: nat)
    requires i <= j <= |pat| && IsList(printable, pat, i, j, h, t, a)
    ensures i <= k <= j && (h.Or? <==> At(pat, k) == '|' as int)
    ensures if h.Or? then
              && t.End? && k < j && IsTerm(printable, pat, i, k, h.lhead, h.ltail, a)
              && IsList(printable, pat, k + 1, j, h.rhead, h.rtail, a + Caps(h.lhead) + CapsChain(h.ltail))
            else k == j && IsTerm(printable, pat, i, k, h, t, a)
  {
    hide IsTerm;
    if h.Or? {
      k :| i <= k < j && pat[k] == '|' as int && IsTerm(printable, pat, i, k, h.lhead, h.ltail, a)
           && IsList(printable, pat, k + 1, j, h.rhead, h.rtail, a + Caps(h.lhead) + CapsChain(h.ltail));
    } else {
      k := j;
    }
  }

  // ---------- text that spells nothing ----------

  ghost predicate NoBody(printable: int -> bool, pat: Pattern, i: nat) {
    forall j, items :: !IsBody(printable, pat, i, j, items)
  }

  ghost predicate NoNumber(pat: Pattern, i: nat) {
    forall j: nat, n :: !IsNumber(pat, i, j, n)
  }

  ghost predicate NoQuant(pat: Pattern, i: nat) {
    forall j: nat, lo: nat, hi: nat :: !IsQuant(pat, i, j, lo, hi)
  }

  /** Every class body from `start` begins with `items` and goes on at `i`. */
  ghost predicate Continues(printable: int -> bool, pat: Pattern, start: nat, i: nat, items: seq<Item>) {
    forall j, all {:trigger IsBody(printable, pat, start, j, all)} :: IsBody(printable, pat, start, j, all) ==>
      items <= all && IsBody(printable, pat, i, j, all[|items|..])
  }

  lemma ContinuesMore(printable: int -> bool, pat: Pattern, start: nat, i: nat, k: nat, items: seq<Item>, it: Item)
    requires Continues(printable, pat, start, i, items) && IsItem(printable, pat, i, k, it)
    ensures Continues(printable, pat, start, k, items + [it])
  {
    hide IsItem;
    forall j, all | IsBody(printable, pat, start, j, all)
      ensures items + [it] <= all && IsBody(printable, pat, k, j, all[|items + [it]|..])
    {
      var rest := all[|items|..];
      ItemStarts(printable, pat, i, k, it);
      assert rest != [];
      var k' :| i <= k' <= j && IsItem(printable, pat, i, k', rest[0]) && IsItems(printable, pat, k', j, rest[1..]);
      ItemUnique(printable, pat, i, k, it, k', rest[0]);
      assert all[|items + [it]|..] == rest[1..];
      assert all == items + [it] + rest[1..];
    }
  }

  lemma ItemStarts(printable: int -> bool, pat: Pattern, i: nat, k: nat, it: Item)
    requires IsItem(printable, pat, i, k, it)
    ensures At(pat, i) != ']' as int
  {
  }

  /** No body continues where there is neither an item nor the closing bracket. */
  lemma ContinuesNot(printable: int -> bool, pat: Pattern, start: nat, i: nat, items: seq<Item>)
    requires Continues(printable, pat, start, i, items)
    requires At(pat, i) != ']' as int && forall k, it :: !IsItem(printable, pat, i, k, it)
    ensures NoBody(printable, pat, start)
  {
    hide IsItem;
    forall j, all ensures !IsBody(printable, pat, start, j, all) {
      if IsBody(printable, pat, start, j, all) {
        assert false;
      }
    }
  }

  // ---------- repetition marks that do not parse ----------

  function Pow10(d: nat): (n: nat) {
    if d == 0 then 1 else 10 * Pow10(d - 1)
  }

  lemma NineDigits(d: nat)
    requires d <= 9
    ensures Pow10(d) == 1000000000 <==> d == 9
  {
    assert Pow10(3) == 1000;
    assert Pow10(6) == 1000000;
    assert Pow10(9) == 1000000000;
    if d < 9 {
      PowGrows(d, 9);
    }
  }

  lemma {:induction false} PowGrows(d: nat, e: nat)
    requires d < e
    ensures 0 < Pow10(d) < Pow10(e)
    decreases e
  {
    if d < e - 1 {
      PowGrows(d, e - 1);
    } else if d > 0 {
      PowGrows(d - 1, d);
    }
  }

  ghost predicate NoUpper(pat: Pattern, k: nat, lo: nat) {
    forall j: nat, hi: nat :: !IsUpper(pat, k, j, lo, hi)
  }

  lemma NoLowerNoQuant(pat: Pattern, i: nat)
    requires At(pat, i) == '{' as int && NoNumber(pat, i + 1)
    ensures NoQuant(pat, i)
  {
    hide IsNumber, IsUpper;
  }

  lemma NoUpperNoQuant(pat: Pattern, i: nat, k: nat, n: nat)
    requires At(pat, i) == '{' as int && IsNumber(pat, i + 1, k, n) && (n > MAX_COUNT || NoUpper(pat, k, n))
    ensures NoQuant(pat, i)
  {
    hide IsNumber, IsUpper;
    forall j: nat, lo: nat, hi: nat ensures !IsQuant(pat, i, j, lo, hi) {
      if IsQuant(pat, i, j, lo, hi) {
        var k' :| IsNumber(pat, i + 1, k', lo) && lo <= MAX_COUNT && IsUpper(pat, k', j, lo, hi);
        NumberUnique(pat, i + 1, k, n, k', lo);
        assert false;
      }
    }
  }

  /** A bound that is missing, or too large, or below the lower one, or not followed by the brace. */
  lemma NoNumberNoUpper(pat: Pattern, k: nat, lo: nat)
    requires At(pat, k) != '}' as int && (At(pat, k) == ',' as int ==>
              At(pat, k + 1) != '}' as int && NoNumber(pat, k + 1))
    ensures NoUpper(pat, k, lo)
  {
    hide IsNumber;
  }

  lemma BadNumberNoUpper(pat: Pattern, k: nat, lo: nat, m: nat, n: nat)
    requires At(pat, k) == ',' as int && IsNumber(pat, k + 1, m, n)
    requires (At(pat, m) != '}' as int || n > MAX_COUNT || lo > n)
    ensures NoUpper(pat, k, lo)
  {
    hide IsNumber;
    forall j: nat, hi: nat ensures !IsUpper(pat, k, j, lo, hi) {
      if IsUpper(pat, k, j, lo, hi) {
        NumberStarts(pat, k + 1, m, n);
        NumberUnique(pat, k + 1, m, n, j - 1, hi);
        assert false;
      }
    }
  }

  lemma NoDigitNoNumber(pat: Pattern, i: nat)
    requires !Digit(At(pat, i))
    ensures NoNumber(pat, i)
  {
  }

  lemma TooLong(pat: Pattern, i: nat)
    requires i + 10 <= |pat| && forall k :: i <= k < i + 10 ==> Digit(pat[k])
    ensures NoNumber(pat, i)
  {
    forall j: nat, n ensures !IsNumber(pat, i, j, n) {
      if IsNumber(pat, i, j, n) {
        assert false;
      }
    }
  }
}
