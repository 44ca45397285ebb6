/** What the matcher does at its choice points: which alternative it takes and how often it repeats. */
module RexChoices {
  import opened Objects
  import opened Rex

  // ---------- the reference: a match derived from its parts ----------

  /** How often the loop of OP_GREEDY may match: one more than p1 where p1 means unbounded. */
  function Cap(hi: nat): (n: nat) {
    if hi == UNBOUNDED then UNBOUNDED + 1 else hi
  }

  /** The successor is asked whether it matches, unless it is a repetition content with nothing. */
  predicate Asked(stop: Chain) {
    stop.Link? && !(stop.head.Greedy? && stop.head.lo == 0)
  }

  /** The lookahead of the node asked. */
  function Beyond(stop: Chain, next: Chain): (c: Chain)
    requires stop.Link?
  {
    if stop.tail.Link? then stop.tail else if next.Link? then next.tail else End
  }

  /** The matcher takes text[i..j] for `e`, which `rest` follows and which may look at `next`. */
  ghost predicate Picks(env: Env, e: Elem, rest: Chain, next: Chain, i: nat, j: nat)
    requires i <= |env.text|
    decreases |env.text| - i, Size(e), 0
  {
    match e
    case Or(lh, lt, rh, rt) =>
      || PicksAll(env, lh, lt, None, i, j)
      || ((forall k: nat :: !PicksAll(env, lh, lt, None, i, k)) && PicksAll(env, rh, rt, None, i, j))
    case Group(_, h, t) => PicksAll(env, h, t, Some(next), i, j)
    case Greedy(b, lo, hi) =>
      exists ends: seq<nat> ::
        && Trail(env, b, if rest.Link? then rest else next, next, lo, hi, i, ends)
        && Satisfied(lo, hi, |ends| - 1) && j == ends[|ends| - 1]
    case _ => i <= j <= |env.text| && Lang(env, e, i, j)
  }

  /** In a group a node looks at the next one and the last node at what is handed in; in an alternative nothing is
      handed down. */
  function Look(t: Chain, next: Option<Chain>): (c: Chain) {
    if next.None? then End else if t.Link? then t else next.value
  }

  /** The nodes of a chain take text[i..j] one after the other. */
  ghost predicate PicksAll(env: Env, h: Elem, t: Chain, next: Option<Chain>, i: nat, j: nat)
    requires i <= |env.text|
    decreases |env.text| - i, Size(h) + ChainSize(t), 1
  {
    exists k: nat ::
      && i <= k <= |env.text|
      && Picks(env, h, t, Look(t, next), i, k)
      && (if t.End? then k == j else PicksAll(env, t.head, t.tail, next, k, j))
  }

  /** `ends` are the ends of the successive matches of a repetition's body, from `i` on, to where it halts. */
  ghost predicate Trail(env: Env, b: Elem, stop: Chain, next: Chain, lo: nat, hi: nat, i: nat, ends: seq<nat>)
    requires i <= |env.text|
    decreases |env.text| - i, Size(b), 2
  {
    && 0 < |ends| <= Cap(hi) + 1 && ends[0] == i
    && (forall m :: 0 < m < |ends| ==> Matched(env, b, stop, i, ends, m))
    && (forall m :: 0 < m < |ends| - 1 ==> GoesOn(env, stop, next, lo, hi, i, ends, m))
    && var n, last := |ends| - 1, ends[|ends| - 1];
       || n == Cap(hi)
       || (i <= last <= |env.text| && forall k: nat :: !Picks(env, b, End, stop, last, k))
       || (n > 0 && !GoesOn(env, stop, next, lo, hi, i, ends, n))
  }

  /** The body's match number `m`. */
  ghost predicate Matched(env: Env, b: Elem, stop: Chain, i: nat, ends: seq<nat>, m: nat)
    requires 0 < m < |ends|
    decreases |env.text| - i, Size(b), 1
  {
    i <= ends[m - 1] <= ends[m] <= |env.text| && Picks(env, b, End, stop, ends[m - 1], ends[m])
  }

  /** It moved, left some text, and the count does not suffice for the successor. */
  ghost predicate GoesOn(env: Env, stop: Chain, next: Chain, lo: nat, hi: nat, i: nat, ends: seq<nat>, m: nat)
    requires 0 < m < |ends|
    decreases |env.text| - i, 0, 1
  {
    i <= ends[m - 1] < ends[m] < |env.text| && !Suffices(env, stop, next, lo, hi, i, ends[m], m)
  }

  /** After `n` matches ending at `s` the repetition has enough and its successor matches. */
  ghost predicate Suffices(env: Env, stop: Chain, next: Chain, lo: nat, hi: nat, i: nat, s: nat, n: nat)
    requires i < s <= |env.text|
    decreases |env.text| - i, 0, 0
  {
    && Satisfied(lo, hi, n) && Asked(stop)
    && exists k: nat :: Picks(env, stop.head, stop.tail, Beyond(stop, next), s, k)
  }

  // ---------- the matcher is that reference ----------

  /** On every pattern and text the matcher answers exactly the end the reference picks. */
  lemma {:induction false} PicksExact(env: Env, e: Elem, rest: Chain, next: Chain, i: nat)
    requires i <= |env.text|
    ensures forall j: nat :: Picks(env, e, rest, next, i, j) <==> MatchNode(env, e, rest, i, next) == Some(j)
    decreases |env.text| - i, Size(e), 0
  {
    hide PicksAll, MatchGroup, MatchBranch, Trail, GreedyLoop;
    match e
    case Or(lh, lt, rh, rt) =>
      PicksAllExact(env, lh, lt, None, i);
      PicksAllExact(env, rh, rt, None, i);
    case Group(_, h, t) => PicksAllExact(env, h, t, Some(next), i);
    case Greedy(b, lo, hi) => PicksGreedy(env, b, rest, next, lo, hi, i);
    case _ => NoChoiceExact(env, e, rest, i, next);
  }

  function MatchAll(env: Env, h: Elem, t: Chain, next: Option<Chain>, i: nat): (r: Option<nat>)
    requires i <= |env.text|
  {
    if next.None? then MatchBranch(env, h, t, i) else MatchGroup(env, h, t, i, next.value)
  }

  lemma {:induction false} PicksAllExact(env: Env, h: Elem, t: Chain, next: Option<Chain>, i: nat)
    requires i <= |env.text|
    ensures forall j: nat :: PicksAll(env, h, t, next, i, j) <==> MatchAll(env, h, t, next, i) == Some(j)
    decreases |env.text| - i, Size(h) + ChainSize(t), 1
  {
    hide Picks, MatchNode;
    var look := Look(t, next);
    PicksExact(env, h, t, look, i);
    var cur := MatchNode(env, h, t, i, look);
    if cur.Some? {
      assert Picks(env, h, t, look, i, cur.value);
      if t.Link? {
        PicksAllExact(env, t.head, t.tail, next, cur.value);
      }
    }
  }

  lemma {:induction false} PicksGreedy(env: Env, b: Elem, rest: Chain, next: Chain, lo: nat, hi: nat, i: nat)
    requires i <= |env.text|
    ensures forall j: nat :: Picks(env, Greedy(b, lo, hi), rest, next, i, j) <==>
                             MatchNode(env, Greedy(b, lo, hi), rest, i, next) == Some(j)
    decreases |env.text| - i, Size(b), 4
  {
    hide Trail, GreedyLoop;
    var stop := if rest.Link? then rest else next;
    var full := TrailFrom(env, b, stop, next, lo, hi, i, [i]);
    assert Trail(env, b, stop, next, lo, hi, i, full);
    forall ends: seq<nat> | Trail(env, b, stop, next, lo, hi, i, ends)
      ensures |ends| > 0 && (|ends| - 1, ends[|ends| - 1]) == GreedyLoop(env, b, stop, next, lo, hi, i, 0)
    {
      TrailStarts(env, b, stop, next, lo, hi, i, ends);
      TrailLeads(env, b, stop, next, lo, hi, i, ends, 0);
    }
  }

  lemma TrailStarts(env: Env, b: Elem, stop: Chain, next: Chain, lo: nat, hi: nat, i: nat, ends: seq<nat>)
    requires i <= |env.text| && Trail(env, b, stop, next, lo, hi, i, ends)
    ensures |ends| > 0 && ends[0] == i
  {
    hide Matched, GoesOn, Picks;
  }

  /** The successor suffices exactly when the loop's lookahead and count say so. */
  lemma {:induction false} SufficesExact(env: Env, stop: Chain, next: Chain, lo: nat, hi: nat, i: nat, s: nat, n: nat)
    requires i < s <= |env.text|
    ensures Suffices(env, stop, next, lo, hi, i, s, n) <==>
            LookaheadStops(env, stop, next, s) && Satisfied(lo, hi, n)
    decreases |env.text| - i, 0, 0
  {
    hide Picks, MatchNode;
    if Asked(stop) {
      PicksExact(env, stop.head, stop.tail, Beyond(stop, next), s);
      var r := MatchNode(env, stop.head, stop.tail, s, Beyond(stop, next));
      if r.Some? {
        assert Picks(env, stop.head, stop.tail, Beyond(stop, next), s, r.value);
      }
    }
  }

  /** One round of the loop. */
  lemma {:induction false} Round(env: Env, b: Elem, stop: Chain, next: Chain, lo: nat, hi: nat, i: nat, s: nat, n: nat)
    returns (r: Option<nat>)
    requires i <= s <= |env.text| && n <= Cap(hi)
    ensures Ahead(env, s, r)
    ensures forall k: nat :: Picks(env, b, End, stop, s, k) <==> r == Some(k)
    ensures GreedyLoop(env, b, stop, next, lo, hi, s, n) ==
            if n == Cap(hi) || r.None? then (n, s)
            else if s < r.value < |env.text| && !Suffices(env, stop, next, lo, hi, i, r.value, n + 1)
            then GreedyLoop(env, b, stop, next, lo, hi, r.value, n + 1)
            else (n + 1, r.value)
    decreases |env.text| - i, Size(b), 2
  {
    hide Picks, MatchNode, LookaheadStops, Suffices;
    PicksExact(env, b, End, stop, s);
    r := MatchNode(env, b, End, s, stop);
    if r.Some? && s < r.value {
      SufficesExact(env, stop, next, lo, hi, i, r.value, n + 1);
    }
  }

  /** The loop, having made the matches of `ends`, makes those of a whole trail. */
  lemma {:induction false} TrailFrom(env: Env, b: Elem, stop: Chain, next: Chain, lo: nat, hi: nat, i: nat,
                                     ends: seq<nat>) returns (full: seq<nat>)
    requires 0 < |ends| <= Cap(hi) + 1 && ends[0] == i <= ends[|ends| - 1] <= |env.text|
    requires forall m :: 0 < m < |ends| ==> Matched(env, b, stop, i, ends, m)
    requires forall m :: 0 < m < |ends| ==> GoesOn(env, stop, next, lo, hi, i, ends, m)
    ensures Trail(env, b, stop, next, lo, hi, i, full) && |full| > 0
    ensures (|full| - 1, full[|full| - 1])
         == GreedyLoop(env, b, stop, next, lo, hi, ends[|ends| - 1], |ends| - 1)
    decreases |env.text| - i, Size(b), 3, |env.text| - ends[|ends| - 1]
  {
    hide Picks, MatchNode, GreedyLoop, Suffices, Satisfied, Asked;
    var n, s := |ends| - 1, ends[|ends| - 1];
    var r := Round(env, b, stop, next, lo, hi, i, s, n);
    if n == Cap(hi) || r.None? {
      return ends;
    }
    full := ends + [r.value];
    forall m | 0 < m < |full| ensures Matched(env, b, stop, i, full, m) {
      assert m < |ends| ==> Matched(env, b, stop, i, ends, m);
    }
    forall m | 0 < m < |ends| ensures GoesOn(env, stop, next, lo, hi, i, full, m) {
      assert GoesOn(env, stop, next, lo, hi, i, ends, m);
    }
    if GoesOn(env, stop, next, lo, hi, i, full, n + 1) {
      full := TrailFrom(env, b, stop, next, lo, hi, i, full);
    }
  }

  /** A trail is what the loop does from any of its ends on. */
  lemma {:induction false} TrailLeads(env: Env, b: Elem, stop: Chain, next: Chain, lo: nat, hi: nat, i: nat,
                                      ends: seq<nat>, m: nat)
    requires i <= |env.text| && Trail(env, b, stop, next, lo, hi, i, ends)
    requires m < |ends| && i <= ends[m] <= |env.text|
    requires m > 0 ==> GoesOn(env, stop, next, lo, hi, i, ends, m)
    ensures GreedyLoop(env, b, stop, next, lo, hi, ends[m], m) == (|ends| - 1, ends[|ends| - 1])
    decreases |env.text| - i, Size(b), 3, |ends| - m
  {
    hide Picks, MatchNode, GreedyLoop, Suffices, Satisfied, Asked;
    var r := Round(env, b, stop, next, lo, hi, i, ends[m], m);
    if m < |ends| - 1 {
      assert Matched(env, b, stop, i, ends, m + 1);
      assert m + 1 < |ends| - 1 ==> GoesOn(env, stop, next, lo, hi, i, ends, m + 1);
      assert r == Some(ends[m + 1]);
      if GoesOn(env, stop, next, lo, hi, i, ends, m + 1) {
        TrailLeads(env, b, stop, next, lo, hi, i, ends, m + 1);
      }
    }
  }

  // ---------- choices among parts without choices, decided by the language alone ----------

  predicate Plain(h: Elem, t: Chain) {
    NoChoice(h) && NoChoiceChain(t)
  }

  /** text[i..j] is in the language of the chain. */
  ghost predicate Fits(env: Env, h: Elem, t: Chain, i: nat, j: nat) {
    i <= j <= |env.text| && LangChain(env, Link(h, t), i, j)
  }

  lemma {:induction false} BranchExact(env: Env, h: Elem, t: Chain, i: nat)
    requires i <= |env.text| && Plain(h, t)
    ensures forall j: nat :: Fits(env, h, t, i, j) <==> MatchBranch(env, h, t, i) == Some(j)
    decreases ChainSize(t)
  {
    hide MatchNode;
    NoChoiceExact(env, h, t, i, End);
    var cur := MatchNode(env, h, t, i, End);
    if cur.Some? && t.Link? {
      BranchExact(env, t.head, t.tail, cur.value);
    }
    forall j: nat ensures Fits(env, h, t, i, j) <==> MatchBranch(env, h, t, i) == Some(j) {
      if Fits(env, h, t, i, j) {
        assert LangChain(env, Link(h, t), i, j);
        var k :| i <= k <= j && Lang(env, h, i, k) && LangChain(env, t, k, j);
        assert cur == Some(k);
        assert t.Link? ==> Fits(env, t.head, t.tail, k, j);
      }
      if MatchBranch(env, h, t, i) == Some(j) {
        assert Lang(env, h, i, cur.value);
        assert t.Link? ==> Fits(env, t.head, t.tail, cur.value, j);
        assert LangChain(env, t, cur.value, j);
      }
    }
  }

  /** An alternation takes the text of its left side if that side has one here, and else that of its right side. */
  lemma OrExact(env: Env, e: Elem, rest: Chain, i: nat, next: Chain)
    requires i <= |env.text| && e.Or?
    ensures Plain(e.lhead, e.ltail) ==>
              forall j: nat :: Fits(env, e.lhead, e.ltail, i, j) ==> MatchNode(env, e, rest, i, next) == Some(j)
    ensures Plain(e.rhead, e.rtail) && (forall k: nat :: !Fits(env, e.lhead, e.ltail, i, k)) ==>
              forall j: nat :: Fits(env, e.rhead, e.rtail, i, j) <==> MatchNode(env, e, rest, i, next) == Some(j)
    ensures Plain(e.lhead, e.ltail) && Plain(e.rhead, e.rtail) ==>
              (MatchNode(env, e, rest, i, next).Some? <==>
               exists j: nat :: Fits(env, e.lhead, e.ltail, i, j) || Fits(env, e.rhead, e.rtail, i, j))
  {
    hide MatchBranch, Lang;
    if Plain(e.lhead, e.ltail) {
      BranchExact(env, e.lhead, e.ltail, i);
    }
    if Plain(e.rhead, e.rtail) {
      BranchExact(env, e.rhead, e.rtail, i);
    }
    MatchBranchSound(env, e.lhead, e.ltail, i);
    var l, r := MatchBranch(env, e.lhead, e.ltail, i), MatchBranch(env, e.rhead, e.rtail, i);
    assert l.Some? ==> Fits(env, e.lhead, e.ltail, i, l.value);
    assert Plain(e.rhead, e.rtail) && r.Some? ==> Fits(env, e.rhead, e.rtail, i, r.value);
  }

  // ---------- repetition ----------

  /** Does a node without choices read characters?  The others are assertions only. */
  predicate Reads(e: Elem) {
    match e
    case Group(_, h, t) => Reads(h) || ReadsChain(t)
    case _ => !e.Bol? && !e.Eol? && !e.Wb?
  }

  predicate ReadsChain(c: Chain) {
    match c
    case End => false
    case Link(h, t) => Reads(h) || ReadsChain(t)
  }

  lemma {:induction false} ReadsMoves(env: Env, e: Elem, i: nat, j: nat)
    requires NoChoice(e) && i <= j <= |env.text| && Lang(env, e, i, j)
    ensures Reads(e) <==> i < j
    decreases e
  {
    if e.Group? {
      var k :| i <= k <= j && Lang(env, e.head, i, k) && LangChain(env, e.tail, k, j);
      ReadsMoves(env, e.head, i, k);
      ReadsChainMoves(env, e.tail, k, j);
    }
  }

  lemma {:induction false} ReadsChainMoves(env: Env, c: Chain, i: nat, j: nat)
    requires NoChoiceChain(c) && i <= j <= |env.text| && LangChain(env, c, i, j)
    ensures ReadsChain(c) <==> i < j
    decreases c
  {
    if c.Link? {
      var k :| i <= k <= j && Lang(env, c.head, i, k) && LangChain(env, c.tail, k, j);
      ReadsMoves(env, c.head, i, k);
      ReadsChainMoves(env, c.tail, k, j);
    }
  }

  /** text[i..j] is `n` consecutive texts of `b`. */
  ghost predicate Times(env: Env, b: Elem, n: nat, i: nat, j: nat) {
    i <= j <= |env.text| && LangTimes(env, b, n, i, j)
  }

  ghost predicate Once(env: Env, b: Elem, i: nat, j: nat) {
    i <= j <= |env.text| && Lang(env, b, i, j)
  }

  lemma TimesLast(env: Env, b: Elem, n: nat, i: nat, j: nat) returns (k: nat)
    requires n > 0 && Times(env, b, n, i, j)
    ensures Times(env, b, n - 1, i, k) && Once(env, b, k, j)
  {
    assert LangTimes(env, b, n, i, j);
    k :| i <= k <= j && LangTimes(env, b, n - 1, i, k) && Lang(env, b, k, j);
  }

  lemma TimesMore(env: Env, b: Elem, n: nat, i: nat, s: nat, j: nat)
    requires Times(env, b, n, i, s) && Once(env, b, s, j)
    ensures Times(env, b, n + 1, i, j)
  {
  }

  lemma {:induction false} TimesUnique(env: Env, b: Elem, n: nat, i: nat, j: nat, j': nat)
    requires NoChoice(b) && Times(env, b, n, i, j) && Times(env, b, n, i, j')
    ensures j == j'
    decreases n
  {
    if n > 0 {
      var k := TimesLast(env, b, n, i, j);
      var k' := TimesLast(env, b, n, i, j');
      TimesUnique(env, b, n - 1, i, k, k');
      NoChoiceExact(env, b, End, k, End);
    }
  }

  /** Fewer repetitions end before, and if they are one fewer the body matches from there. */
  lemma {:induction false} TimesPrefix(env: Env, b: Elem, m: nat, n: nat, i: nat, j: nat) returns (p: nat)
    requires m <= n && Times(env, b, n, i, j)
    ensures Times(env, b, m, i, p) && p <= j
    ensures m < n ==> exists k: nat :: Once(env, b, p, k)
    decreases n
  {
    if m == n {
      return j;
    }
    var k := TimesLast(env, b, n, i, j);
    if m == n - 1 {
      return k;
    }
    p := TimesPrefix(env, b, m, n - 1, i, k);
  }

  /** A text of the successor starts at `p`, and the successor is asked. */
  ghost predicate Followed(env: Env, stop: Chain, p: nat) {
    Asked(stop) && exists k: nat :: Once(env, stop.head, p, k)
  }

  /** The count at which the repetition stops: no earlier one, from 1 on, suffices for the successor, and this one
      does, or no more repetitions are possible. */
  ghost predicate StopsAt(env: Env, b: Elem, stop: Chain, lo: nat, hi: nat, i: nat, n: nat, j: nat) {
    && n <= Cap(hi) && Times(env, b, n, i, j)
    && (|| n == Cap(hi) || (forall k: nat :: !Once(env, b, j, k))
        || (n > 0 && Satisfied(lo, hi, n) && Followed(env, stop, j)))
    && Unmet(env, b, stop, lo, hi, i, n)
  }

  ghost predicate Unmet(env: Env, b: Elem, stop: Chain, lo: nat, hi: nat, i: nat, n: nat) {
    forall m: nat, p: nat :: 0 < m < n && Times(env, b, m, i, p) && Satisfied(lo, hi, m) ==> !Followed(env, stop, p)
  }

  /** One round of the loop, by the language. */
  lemma RoundExact(env: Env, b: Elem, stop: Chain, next: Chain, lo: nat, hi: nat, s: nat, n: nat)
    returns (r: Option<nat>)
    requires s <= |env.text| && n <= Cap(hi) && NoChoice(b) && Reads(b) && (Asked(stop) ==> NoChoice(stop.head))
    ensures r.Some? ==> s < r.value <= |env.text|
    ensures forall k: nat :: Once(env, b, s, k) <==> r == Some(k)
    ensures GreedyLoop(env, b, stop, next, lo, hi, s, n) ==
            if n == Cap(hi) || r.None? then (n, s)
            else if r.value < |env.text| && !(Satisfied(lo, hi, n + 1) && Followed(env, stop, r.value))
            then GreedyLoop(env, b, stop, next, lo, hi, r.value, n + 1)
            else (n + 1, r.value)
  {
    hide MatchNode, Lang;
    NoChoiceExact(env, b, End, s, stop);
    r := MatchNode(env, b, End, s, stop);
    if r.Some? {
      ReadsMoves(env, b, s, r.value);
      if Asked(stop) {
        NoChoiceExact(env, stop.head, stop.tail, r.value, Beyond(stop, next));
        var look := MatchNode(env, stop.head, stop.tail, r.value, Beyond(stop, next));
        assert look.Some? ==> Once(env, stop.head, r.value, look.value);
      }
    }
  }

  lemma {:induction false} LoopStops(env: Env, b: Elem, stop: Chain, next: Chain, lo: nat, hi: nat, i: nat, s: nat,
                                     n: nat)
    requires NoChoice(b) && Reads(b) && (Asked(stop) ==> NoChoice(stop.head))
    requires n <= Cap(hi) && Times(env, b, n, i, s) && Unmet(env, b, stop, lo, hi, i, n + 1)
    ensures var (m, j) := GreedyLoop(env, b, stop, next, lo, hi, s, n); StopsAt(env, b, stop, lo, hi, i, m, j)
    decreases |env.text| - s
  {
    hide GreedyLoop, Followed, Satisfied, Asked, Lang;
    var r := RoundExact(env, b, stop, next, lo, hi, s, n);
    if n < Cap(hi) && r.Some? {
      TimesMore(env, b, n, i, s, r.value);
      if !(Satisfied(lo, hi, n + 1) && Followed(env, stop, r.value)) {
        forall m: nat, p: nat | 0 < m < n + 2 && Times(env, b, m, i, p) && Satisfied(lo, hi, m)
          ensures !Followed(env, stop, p)
        {
          if m == n + 1 {
            TimesUnique(env, b, m, i, p, r.value);
          }
        }
        if r.value < |env.text| {
          LoopStops(env, b, stop, next, lo, hi, i, r.value, n + 1);
        } else {
          forall k: nat ensures !Once(env, b, r.value, k) {
            if Once(env, b, r.value, k) {
              ReadsMoves(env, b, r.value, k);
            }
          }
        }
      }
    }
  }

  lemma StopsOnce(env: Env, b: Elem, stop: Chain, lo: nat, hi: nat, i: nat, n: nat, j: nat, n': nat, j': nat)
    requires NoChoice(b) && StopsAt(env, b, stop, lo, hi, i, n, j) && StopsAt(env, b, stop, lo, hi, i, n', j')
    ensures n' <= n && (n' == n ==> j == j')
  {
    hide Followed, Satisfied, Lang, LangTimes;
    if n < n' {
      var p := TimesPrefix(env, b, n, n', i, j');
      TimesUnique(env, b, n, i, j, p);
    } else if n == n' {
      TimesUnique(env, b, n, i, j, j');
    }
  }

  /** A repetition of a body that reads takes the first count that suffices for its successor, or else as many as
      there are. */
  lemma GreedyExact(env: Env, e: Elem, rest: Chain, i: nat, next: Chain)
    requires i <= |env.text| && e.Greedy? && NoChoice(e.body) && Reads(e.body)
    requires var stop := if rest.Link? then rest else next; Asked(stop) ==> NoChoice(stop.head)
    ensures var stop := if rest.Link? then rest else next;
            forall j: nat :: MatchNode(env, e, rest, i, next) == Some(j) <==>
              exists n: nat :: Satisfied(e.lo, e.hi, n) && StopsAt(env, e.body, stop, e.lo, e.hi, i, n, j)
  {
    hide GreedyLoop, StopsAt, Satisfied, Lang;
    var stop := if rest.Link? then rest else next;
    LoopStops(env, e.body, stop, next, e.lo, e.hi, i, i, 0);
    var (m, j) := GreedyLoop(env, e.body, stop, next, e.lo, e.hi, i, 0);
    forall n': nat, j': nat | StopsAt(env, e.body, stop, e.lo, e.hi, i, n', j') ensures n' == m && j' == j {
      StopsOnce(env, e.body, stop, e.lo, e.hi, i, m, j, n', j');
      StopsOnce(env, e.body, stop, e.lo, e.hi, i, n', j', m, j);
    }
  }

  /** `n` is the largest number of repetitions within the bound, and they end at `j`. */
  ghost predicate Longest(env: Env, b: Elem, hi: nat, i: nat, n: nat, j: nat) {
    n <= Cap(hi) && Times(env, b, n, i, j) && forall m: nat, p: nat :: n < m <= Cap(hi) ==> !Times(env, b, m, i, p)
  }

  /** With no successor to ask, a repetition takes the largest number there is, and so it matches exactly where its
      language has a text. */
  lemma GreedyLongest(env: Env, e: Elem, rest: Chain, i: nat, next: Chain)
    requires i <= |env.text| && e.Greedy? && NoChoice(e.body) && Reads(e.body)
    requires !Asked(if rest.Link? then rest else next)
    ensures forall j: nat :: MatchNode(env, e, rest, i, next) == Some(j) <==>
              exists n: nat :: Satisfied(e.lo, e.hi, n) && Longest(env, e.body, e.hi, i, n, j)
    ensures e.lo <= Cap(e.hi) ==>
              (MatchNode(env, e, rest, i, next).Some? <==> exists j: nat :: Once(env, e, i, j))
  {
    hide Satisfied, Lang, MatchNode;
    GreedyExact(env, e, rest, i, next);
    var stop := if rest.Link? then rest else next;
    forall n: nat, j: nat
      ensures StopsAt(env, e.body, stop, e.lo, e.hi, i, n, j) <==> Longest(env, e.body, e.hi, i, n, j)
    {
      StopsLongest(env, e.body, stop, e.lo, e.hi, i, n, j);
    }
    if e.lo <= Cap(e.hi) {
      LongestDecides(env, e, rest, i, next);
    }
  }

  lemma LongestDecides(env: Env, e: Elem, rest: Chain, i: nat, next: Chain)
    requires i <= |env.text| && e.Greedy? && NoChoice(e.body) && Reads(e.body) && e.lo <= Cap(e.hi)
    requires !Asked(if rest.Link? then rest else next)
    ensures MatchNode(env, e, rest, i, next).Some? <==> exists j: nat :: Once(env, e, i, j)
  {
    hide Lang, MatchNode, Longest, StopsAt;
    var stop := if rest.Link? then rest else next;
    MatchNodeSound(env, e, rest, i, next);
    var r := MatchNode(env, e, rest, i, next);
    if r.Some? {
      assert Once(env, e, i, r.value);
    } else if j: nat :| Once(env, e, i, j) {
      GreedyMeans(env, e, i, j);
      var n: nat :| e.lo <= n && (n <= e.hi || e.hi == UNBOUNDED) && Times(env, e.body, n, i, j);
      LoopStops(env, e.body, stop, next, e.lo, e.hi, i, i, 0);
      var (m, p) := GreedyLoop(env, e.body, stop, next, e.lo, e.hi, i, 0);
      StopsLongest(env, e.body, stop, e.lo, e.hi, i, m, p);
      LongestHolds(env, e.body, e.hi, i, m, p, n, j);
      GreedyMatches(env, e, rest, i, next, m, p);
    }
  }

  lemma LongestHolds(env: Env, b: Elem, hi: nat, i: nat, m: nat, p: nat, n: nat, j: nat)
    requires Longest(env, b, hi, i, m, p) && Times(env, b, n, i, j)
    ensures m <= Cap(hi) && (n <= m || m == Cap(hi))
  {
    if m < n && m < Cap(hi) {
      var q := TimesPrefix(env, b, m + 1, n, i, j);
    }
  }

  lemma GreedyMeans(env: Env, e: Elem, i: nat, j: nat)
    requires e.Greedy? && Once(env, e, i, j)
    ensures exists n: nat :: e.lo <= n && (n <= e.hi || e.hi == UNBOUNDED) && Times(env, e.body, n, i, j)
  {
    assert Lang(env, e, i, j);
    var n: nat :| e.lo <= n && (n <= e.hi || e.hi == UNBOUNDED) && LangTimes(env, e.body, n, i, j);
    assert Times(env, e.body, n, i, j);
  }

  lemma GreedyMatches(env: Env, e: Elem, rest: Chain, i: nat, next: Chain, m: nat, p: nat)
    requires i <= |env.text| && e.Greedy? && Satisfied(e.lo, e.hi, m)
    requires (m, p) == GreedyLoop(env, e.body, if rest.Link? then rest else next, next, e.lo, e.hi, i, 0)
    ensures MatchNode(env, e, rest, i, next) == Some(p)
  {
    hide GreedyLoop;
  }

  lemma StopsLongest(env: Env, b: Elem, stop: Chain, lo: nat, hi: nat, i: nat, n: nat, j: nat)
    requires NoChoice(b) && !Asked(stop)
    ensures StopsAt(env, b, stop, lo, hi, i, n, j) <==> Longest(env, b, hi, i, n, j)
  {
    hide Satisfied, Lang;
    if StopsAt(env, b, stop, lo, hi, i, n, j) {
      forall m: nat, p: nat | n < m <= Cap(hi) ensures !Times(env, b, m, i, p) {
        if Times(env, b, m, i, p) {
          var q := TimesPrefix(env, b, n, m, i, p);
          TimesUnique(env, b, n, i, j, q);
        }
      }
    } else if Longest(env, b, hi, i, n, j) {
      var k: nat :| Once(env, b, j, k);
      TimesMore(env, b, n, i, j, k);
    }
  }

  /** A repetition of assertions stops after one match. */
  lemma GreedyStill(env: Env, e: Elem, rest: Chain, i: nat, next: Chain)
    requires i <= |env.text| && e.Greedy? && NoChoice(e.body) && !Reads(e.body)
    ensures forall j: nat :: MatchNode(env, e, rest, i, next) == Some(j) <==>
              j == i && Satisfied(e.lo, e.hi, if e.hi > 0 && Lang(env, e.body, i, i) then 1 else 0)
  {
    hide Lang;
    var stop := if rest.Link? then rest else next;
    NoChoiceExact(env, e.body, End, i, stop);
    var r := MatchNode(env, e.body, End, i, stop);
    if r.Some? {
      ReadsMoves(env, e.body, i, r.value);
    }
  }

  lemma {:induction false} TimesStill(env: Env, b: Elem, n: nat, i: nat, j: nat)
    requires i <= j <= |env.text| && NoChoice(b) && !Reads(b)
    ensures LangTimes(env, b, n, i, j) <==> i == j && (n == 0 || Lang(env, b, i, i))
    decreases n
  {
    if n > 0 {
      TimesStill(env, b, n - 1, i, i);
      assert i == j && Lang(env, b, i, i) ==> LangTimes(env, b, n - 1, i, i) && Lang(env, b, i, j);
      if LangTimes(env, b, n, i, j) {
        var k := TimesLast(env, b, n, i, j);
        TimesStill(env, b, n - 1, i, k);
        ReadsMoves(env, b, k, j);
      }
    }
  }

  /** So it refuses a text of its language exactly when the assertions hold and two or more matches are asked for. */
  lemma StillExact(env: Env, e: Elem, rest: Chain, i: nat, next: Chain)
    requires i <= |env.text| && e.Greedy? && NoChoice(e.body) && !Reads(e.body)
    ensures (Lang(env, e, i, i) <==> MatchNode(env, e, rest, i, next) == Some(i)) <==>
            !(e.lo >= 2 && (e.lo <= e.hi || e.hi == UNBOUNDED) && Lang(env, e.body, i, i))
  {
    hide MatchNode;
    GreedyStill(env, e, rest, i, next);
    forall n: nat ensures LangTimes(env, e.body, n, i, i) <==> (n == 0 || Lang(env, e.body, i, i)) {
      TimesStill(env, e.body, n, i, i);
    }
    assert LangTimes(env, e.body, e.lo, i, i) <==> (e.lo == 0 || Lang(env, e.body, i, i));
  }
}
