/** The regular expression engine of sqstdrex.cpp as a function of the compiled pattern: the greedy
    matcher with one node of lookahead, and the language each pattern node denotes. */
module Rex {
  import opened Objects

  /** A node of a character class; `Just` also stands for node types no character equals. */
  datatype Item = Just(c: int) | Span(lo: int, hi: int) | Named(id: int)

  /** A compiled node without its `next` link.  Groups and branches hold nonempty chains. */
  datatype Elem =
    | Char(c: int)
    | Dot
    | Class(negated: bool, first: Item, more: seq<Item>)
    | CClass(id: int)
    | Bol
    | Eol
    | Wb(positive: bool)
    | Mb(open: int, close: int)
    | Group(capture: int, head: Elem, tail: Chain)
    | Or(lhead: Elem, ltail: Chain, rhead: Elem, rtail: Chain)
    | Greedy(body: Elem, lo: nat, hi: nat)

  /** What a `next` link leads to: `End` is -1. */
  datatype Chain = End | Link(head: Elem, tail: Chain)

  /** p1 of `*`, `+` and `{n,}`. */
  const UNBOUNDED: nat := 0xFFFF

  /** The text between _bol and _eol, and the character tests of sq_char_class.h.
      Characters are signed bytes, as the source's `char`. */
  datatype Env = Env(text: seq<int>, cclass: (int, int) -> bool, space: int -> bool)

  function Unsigned(c: int): (u: int)
    ensures -128 <= c < 128 ==> 0 <= u < 256 && (u - c) % 256 == 0
  {
    if c < 0 then c + 256 else c
  }

  // ---------- single characters ----------

  predicate ItemHas(env: Env, it: Item, c: int) {
    match it
    case Span(lo, hi) => lo <= Unsigned(c) <= hi
    case Named(id) => env.cclass(id, c)
    case Just(x) => c == x
  }

  ghost predicate ClassHas(env: Env, first: Item, more: seq<Item>, c: int) {
    ItemHas(env, first, c) || exists k :: 0 <= k < |more| && ItemHas(env, more[k], c)
  }

  /** sqstd_rex_matchclass walks the items in order. */
  predicate MatchClass(env: Env, first: Item, more: seq<Item>, c: int)
    ensures MatchClass(env, first, more, c) <==> ClassHas(env, first, more, c)
    decreases |more|
  {
    assert more != [] ==> more == [more[0]] + more[1..];
    if ItemHas(env, first, c) then true
    else if more == [] then false
    else MatchClass(env, more[0], more[1..], c)
  }

  /** There is a character at `i`, and no space. */
  predicate Solid(env: Env, i: int) {
    0 <= i < |env.text| && !env.space(env.text[i])
  }

  predicate AtBoundary(env: Env, pos: nat)
    requires pos <= |env.text|
    ensures AtBoundary(env, pos) <==> Solid(env, pos - 1) != Solid(env, pos)
  {
    if pos == 0 then pos < |env.text| && !env.space(env.text[pos])
    else if pos == |env.text| then !env.space(env.text[pos - 1])
    else env.space(env.text[pos]) != env.space(env.text[pos - 1])
  }

  // ---------- balanced pairs ----------

  /** How many pairs are open after text[i..j], where text[i] itself counts as opening. */
  function Opened(text: seq<int>, open: int, close: int, i: nat, j: nat): (d: int)
    requires i < j <= |text|
    decreases j
  {
    if j == i + 1 then 1
    else Opened(text, open, close, i, j - 1)
         + (if text[j - 1] == close then -1 else if text[j - 1] == open then 1 else 0)
  }

  /** text[i..j] opens with `open` and closes for the first time at its last character. */
  ghost predicate Balanced(text: seq<int>, open: int, close: int, i: nat, j: nat)
    requires i <= j <= |text|
  {
    && i < j && text[i] == open
    && (forall k :: i < k < j ==> Opened(text, open, close, i, k) > 0)
    && Opened(text, open, close, i, j) == 0
  }

  /** The counting loop of OP_MB, having read text[i..str] with `cont` pairs open. */
  function CloseFrom(text: seq<int>, open: int, close: int, str: nat, cont: int): (r: Option<nat>)
    requires str <= |text|
    ensures r.Some? ==> str < r.value <= |text|
    decreases |text| - str
  {
    if str == |text| then None
    else if text[str] == close then
      if cont - 1 == 0 then Some(str + 1) else CloseFrom(text, open, close, str + 1, cont - 1)
    else if text[str] == open then CloseFrom(text, open, close, str + 1, cont + 1)
    else CloseFrom(text, open, close, str + 1, cont)
  }

  lemma {:induction false} CloseFromBalanced(text: seq<int>, open: int, close: int, i: nat, str: nat, cont: int)
    requires i < str <= |text| && cont == Opened(text, open, close, i, str) && text[i] == open
    requires forall k :: i < k <= str ==> Opened(text, open, close, i, k) > 0
    ensures var r := CloseFrom(text, open, close, str, cont);
            forall j :: i <= j <= |text| ==> (Balanced(text, open, close, i, j) <==> r == Some(j))
    decreases |text| - str
  {
    if str < |text| {
      var d := Opened(text, open, close, i, str + 1);
      if d != 0 {
        CloseFromBalanced(text, open, close, i, str + 1, d);
      }
    }
  }

  // ---------- the matcher ----------

  function Size(e: Elem): (n: nat)
    ensures n > 0
  {
    match e
    case Group(_, h, t) => 1 + Size(h) + ChainSize(t)
    case Or(lh, lt, rh, rt) => 1 + Size(lh) + ChainSize(lt) + Size(rh) + ChainSize(rt)
    case Greedy(b, _, _) => 1 + Size(b)
    case _ => 1
  }

  function ChainSize(c: Chain): (n: nat) {
    match c
    case End => 0
    case Link(h, t) => Size(h) + ChainSize(t)
  }

  predicate Satisfied(lo: nat, hi: nat, n: nat) {
    (lo == hi && lo == n) || (n >= lo && hi == UNBOUNDED) || (n >= lo && n <= hi)
  }

  /** A match stays inside the text and never moves backwards. */
  ghost predicate Ahead(env: Env, pos: nat, r: Option<nat>) {
    r.Some? ==> pos <= r.value <= |env.text|
  }

  /** sqstd_rex_matchnode on a node `e` whose own `next` link leads to `rest`; `next` is the
      lookahead node handed down by the caller. */
  function MatchNode(env: Env, e: Elem, rest: Chain, pos: nat, next: Chain): (r: Option<nat>)
    requires pos <= |env.text|
    ensures Ahead(env, pos, r)
    decreases |env.text| - pos, Size(e), 0
  {
    match e
    case Greedy(b, lo, hi) =>
      var (n, good) := GreedyLoop(env, b, if rest.Link? then rest else next, next, lo, hi, pos, 0);
      if Satisfied(lo, hi, n) then Some(good) else None
    case Or(lh, lt, rh, rt) =>
      var l := MatchBranch(env, lh, lt, pos);
      if l.Some? then l else MatchBranch(env, rh, rt, pos)
    case Group(_, h, t) => MatchGroup(env, h, t, pos, next)
    case Wb(positive) => if AtBoundary(env, pos) == positive then Some(pos) else None
    case Bol => if pos == 0 then Some(pos) else None
    case Eol => if pos == |env.text| then Some(pos) else None
    case Dot => if pos == |env.text| then None else Some(pos + 1)
    case Class(negated, f, more) =>
      if pos == |env.text| then None
      else if MatchClass(env, f, more, env.text[pos]) != negated then Some(pos + 1) else None
    case CClass(id) =>
      if pos == |env.text| then None
      else if env.cclass(id, env.text[pos]) then Some(pos + 1) else None
    case Mb(open, close) =>
      if pos == |env.text| || env.text[pos] != open then None
      else CloseFrom(env.text, open, close, pos + 1, 1)
    case Char(c) =>
      if pos == |env.text| then None
      else if env.text[pos] != c then None else Some(pos + 1)
  }

  /** The OP_EXPR loop: each node sees the node after it, the last one the caller's `next`. */
  function MatchGroup(env: Env, h: Elem, t: Chain, pos: nat, next: Chain): (r: Option<nat>)
    requires pos <= |env.text|
    ensures Ahead(env, pos, r)
    decreases |env.text| - pos, Size(h) + ChainSize(t), 1
  {
    var cur := MatchNode(env, h, t, pos, if t.Link? then t else next);
    if cur.None? || t.End? then cur else MatchGroup(env, t.head, t.tail, cur.value, next)
  }

  /** One side of OP_OR: no lookahead is handed down. */
  function MatchBranch(env: Env, h: Elem, t: Chain, pos: nat): (r: Option<nat>)
    requires pos <= |env.text|
    ensures Ahead(env, pos, r)
    decreases |env.text| - pos, Size(h) + ChainSize(t), 1
  {
    var cur := MatchNode(env, h, t, pos, End);
    if cur.None? || t.End? then cur else MatchBranch(env, t.head, t.tail, cur.value)
  }

  /** The repetition loop of OP_GREEDY after `n` matches ending at `s`: the final count and position. */
  function GreedyLoop(env: Env, b: Elem, stop: Chain, next: Chain, lo: nat, hi: nat, s: nat, n: nat): (r: (nat, nat))
    requires s <= |env.text|
    ensures s <= r.1 <= |env.text|
    decreases |env.text| - s, Size(b), 1
  {
    if !(n == UNBOUNDED || n < hi) then (n, s)
    else
      var m := MatchNode(env, b, End, s, stop);
      if m.None? then (n, s)
      else if m.value == s then (n + 1, s)
      else if LookaheadStops(env, stop, next, m.value) && Satisfied(lo, hi, n + 1) then (n + 1, m.value)
      else if m.value >= |env.text| then (n + 1, m.value)
      else GreedyLoop(env, b, stop, next, lo, hi, m.value, n + 1)
  }

  /** Does the node after the repetition match here?  A repetition that accepts zero matches is not asked. */
  predicate LookaheadStops(env: Env, stop: Chain, next: Chain, s: nat)
    requires s <= |env.text|
    decreases |env.text| - s, if stop.Link? then Size(stop.head) else 0, 1
  {
    if stop.End? || (stop.head.Greedy? && stop.head.lo == 0) then false
    else
      var gnext := if stop.tail.Link? then stop.tail
                   else if next.Link? && next.tail.Link? then next.tail else End;
      MatchNode(env, stop.head, stop.tail, s, gnext).Some?
  }

  // ---------- the language of a pattern ----------

  /** text[i..j] is in the language of `e`, at that place of the text. */
  ghost predicate Lang(env: Env, e: Elem, i: nat, j: nat)
    requires i <= j <= |env.text|
    decreases e, 0
  {
    match e
    case Greedy(b, lo, hi) =>
      exists n: nat :: lo <= n && (n <= hi || hi == UNBOUNDED) && LangTimes(env, b, n, i, j)
    case Or(lh, lt, rh, rt) =>
      || (exists k :: i <= k <= j && Lang(env, lh, i, k) && LangChain(env, lt, k, j))
      || (exists k :: i <= k <= j && Lang(env, rh, i, k) && LangChain(env, rt, k, j))
    case Group(_, h, t) =>
      exists k :: i <= k <= j && Lang(env, h, i, k) && LangChain(env, t, k, j)
    case Wb(positive) => i == j && AtBoundary(env, i) == positive
    case Bol => i == j == 0
    case Eol => i == j == |env.text|
    case Dot => j == i + 1
    case Class(negated, f, more) => j == i + 1 && ClassHas(env, f, more, env.text[i]) != negated
    case CClass(id) => j == i + 1 && env.cclass(id, env.text[i])
    case Mb(open, close) => Balanced(env.text, open, close, i, j)
    case Char(c) => j == i + 1 && env.text[i] == c
  }

  ghost predicate LangChain(env: Env, c: Chain, i: nat, j: nat)
    requires i <= j <= |env.text|
    decreases c, 0
  {
    match c
    case End => i == j
    case Link(h, t) => exists k :: i <= k <= j && Lang(env, h, i, k) && LangChain(env, t, k, j)
  }

  /** `n` consecutive matches of `b`. */
  ghost predicate LangTimes(env: Env, b: Elem, n: nat, i: nat, j: nat)
    requires i <= j <= |env.text|
    decreases b, n
  {
    if n == 0 then i == j
    else exists k :: i <= k <= j && LangTimes(env, b, n - 1, i, k) && Lang(env, b, k, j)
  }

  // ---------- soundness ----------

  lemma {:induction false} MatchNodeSound(env: Env, e: Elem, rest: Chain, pos: nat, next: Chain)
    requires pos <= |env.text|
    ensures var r := MatchNode(env, e, rest, pos, next); r.Some? ==> Lang(env, e, pos, r.value)
    decreases |env.text| - pos, Size(e), 0
  {
    match e
    case Greedy(b, lo, hi) =>
      GreedyLoopSound(env, b, if rest.Link? then rest else next, next, lo, hi, pos, pos, 0);
    case Or(lh, lt, rh, rt) =>
      MatchBranchSound(env, lh, lt, pos);
      MatchBranchSound(env, rh, rt, pos);
    case Group(_, h, t) => MatchGroupSound(env, h, t, pos, next);
    case Mb(open, close) =>
      if pos < |env.text| && env.text[pos] == open {
        CloseFromBalanced(env.text, open, close, pos, pos + 1, 1);
      }
    case _ =>
  }

  lemma {:induction false} MatchGroupSound(env: Env, h: Elem, t: Chain, pos: nat, next: Chain)
    requires pos <= |env.text|
    ensures var r := MatchGroup(env, h, t, pos, next);
            r.Some? ==> exists k :: pos <= k <= r.value && Lang(env, h, pos, k) && LangChain(env, t, k, r.value)
    decreases |env.text| - pos, Size(h) + ChainSize(t), 1
  {
    MatchNodeSound(env, h, t, pos, if t.Link? then t else next);
    var cur := MatchNode(env, h, t, pos, if t.Link? then t else next);
    if cur.Some? {
      assert Lang(env, h, pos, cur.value);
      if t.Link? {
        MatchGroupSound(env, t.head, t.tail, cur.value, next);
      }
    }
  }

  lemma {:induction false} MatchBranchSound(env: Env, h: Elem, t: Chain, pos: nat)
    requires pos <= |env.text|
    ensures var r := MatchBranch(env, h, t, pos);
            r.Some? ==> exists k :: pos <= k <= r.value && Lang(env, h, pos, k) && LangChain(env, t, k, r.value)
    decreases |env.text| - pos, Size(h) + ChainSize(t), 1
  {
    MatchNodeSound(env, h, t, pos, End);
    var cur := MatchNode(env, h, t, pos, End);
    if cur.Some? {
      assert Lang(env, h, pos, cur.value);
      if t.Link? {
        MatchBranchSound(env, t.head, t.tail, cur.value);
      }
    }
  }

  lemma {:induction false} GreedyLoopSound(env: Env, b: Elem, stop: Chain, next: Chain, lo: nat, hi: nat,
                                           start: nat, s: nat, n: nat)
    requires start <= s <= |env.text| && LangTimes(env, b, n, start, s)
    ensures var (m, good) := GreedyLoop(env, b, stop, next, lo, hi, s, n); LangTimes(env, b, m, start, good)
    decreases |env.text| - s, Size(b), 1
  {
    hide MatchNode, LookaheadStops, Satisfied, Lang, LangTimes;
    if n == UNBOUNDED || n < hi {
      MatchNodeSound(env, b, End, s, stop);
      var m := MatchNode(env, b, End, s, stop);
      if m.Some? {
        OnceMore(env, b, n, start, s, m.value);
        if m.value != s {
          GreedyLoopSound(env, b, stop, next, lo, hi, start, m.value, n + 1);
        }
      }
    }
  }

  lemma OnceMore(env: Env, b: Elem, n: nat, i: nat, k: nat, j: nat)
    requires i <= k <= j <= |env.text| && LangTimes(env, b, n, i, k) && Lang(env, b, k, j)
    ensures LangTimes(env, b, n + 1, i, j)
  {
  }

  // ---------- how far the converse goes ----------

  /** A pattern node without alternation or repetition. */
  predicate NoChoice(e: Elem) {
    match e
    case Greedy(_, _, _) => false
    case Or(_, _, _, _) => false
    case Group(_, h, t) => NoChoice(h) && NoChoiceChain(t)
    case _ => true
  }

  predicate NoChoiceChain(c: Chain) {
    match c
    case End => true
    case Link(h, t) => NoChoice(h) && NoChoiceChain(t)
  }

  /** Without choice points the matcher decides the language exactly. */
  lemma {:induction false} NoChoiceExact(env: Env, e: Elem, rest: Chain, i: nat, next: Chain)
    requires i <= |env.text| && NoChoice(e)
    ensures forall j :: i <= j <= |env.text| ==> (Lang(env, e, i, j) <==> MatchNode(env, e, rest, i, next) == Some(j))
    decreases Size(e), 0
  {
    match e
    case Group(_, h, t) => NoChoiceGroup(env, h, t, i, next);
    case Mb(open, close) =>
      if i < |env.text| && env.text[i] == open {
        CloseFromBalanced(env.text, open, close, i, i + 1, 1);
      }
    case _ =>
  }

  lemma {:induction false} NoChoiceGroup(env: Env, h: Elem, t: Chain, i: nat, next: Chain)
    requires i <= |env.text| && NoChoice(h) && NoChoiceChain(t)
    ensures forall j :: i <= j <= |env.text| ==>
              (LangChain(env, Link(h, t), i, j) <==> MatchGroup(env, h, t, i, next) == Some(j))
    decreases Size(h) + ChainSize(t), 1
  {
    NoChoiceExact(env, h, t, i, if t.Link? then t else next);
    var cur := MatchNode(env, h, t, i, if t.Link? then t else next);
    if cur.Some? && t.Link? {
      NoChoiceGroup(env, t.head, t.tail, cur.value, next);
    }
  }

  /** The tree of `(?:a|ab)c`. */
  const COMMITTING: Elem :=
    Group(0, Group(-1, Or(Char(97), End, Char(97), Link(Char(98), End)), End), Link(Char(99), End))

  /** With a choice point it does not: it commits to `a` and rejects "abc". */
  lemma CommitsToFirstBranch(cclass: (int, int) -> bool, space: int -> bool)
    ensures var env := Env([97, 98, 99], cclass, space); Lang(env, COMMITTING, 0, 3) && !Match(env, COMMITTING)
  {
    var env := Env([97, 98, 99], cclass, space);
    var or := Or(Char(97), End, Char(97), Link(Char(98), End));
    var inner, tail := Group(-1, or, End), Link(Char(99), End);
    assert Lang(env, or, 0, 2) by {
      assert Lang(env, Char(97), 0, 1) && LangChain(env, End, 2, 2) && Lang(env, Char(98), 1, 2);
      assert LangChain(env, Link(Char(98), End), 1, 2);
    }
    assert Lang(env, inner, 0, 2) by { assert LangChain(env, End, 2, 2); }
    assert LangChain(env, tail, 2, 3) by {
      assert Lang(env, Char(99), 2, 3) && LangChain(env, End, 3, 3);
    }
    assert MatchBranch(env, Char(97), End, 0) == Some(1);
    assert MatchNode(env, or, End, 0, tail) == Some(1);
    assert MatchGroup(env, or, End, 0, tail) == Some(1);
    assert MatchNode(env, inner, tail, 0, tail) == Some(1);
    assert MatchNode(env, Char(99), End, 1, End) == None;
    assert MatchGroup(env, Char(99), End, 1, End) == None;
    assert MatchGroup(env, inner, tail, 0, End) == None;
    assert Lang(env, Group(0, inner, tail), 0, 3);
  }

  // ---------- the public entry points ----------

  /** sqstd_rex_match: the whole text, from its start. */
  predicate Match(env: Env, root: Elem) {
    MatchNode(env, root, End, 0, End) == Some(|env.text|)
  }

  /** A reported match means the whole text is in the pattern's language. */
  lemma MatchSound(env: Env, root: Elem)
    ensures Match(env, root) ==> Lang(env, root, 0, |env.text|)
  {
    MatchNodeSound(env, root, End, 0, End);
  }
}
