/** Which groups a match captures: what sqstd_rex_matchnode does to _matches and _currsubexp as it goes. */
module RexCaptures {
  import opened Objects
  import opened Rex
  import opened RexNodes
  import opened RexChoices

  /** SQRexMatch: `begin` is null until the group has been entered. */
  datatype Capture = Capture(begin: Option<nat>, len: nat)

  /** _matches and _currsubexp, the number of the group that is captured next. */
  datatype Marks = Marks(ms: seq<Capture>, cur: int)

  // ---------- the captures along a run ----------

  /** A capturing group is captured when it is entered while its number is the current one. */
  predicate Takes(e: Elem, s: Marks) {
    e.Group? && 0 <= e.capture < |s.ms| && e.capture == s.cur
  }

  function Enter(e: Elem, pos: nat, s: Marks): (s': Marks)
    ensures |s'.ms| == |s.ms|
  {
    if Takes(e, s) then Marks(s.ms[e.capture := s.ms[e.capture].(begin := Some(pos))], s.cur + 1) else s
  }

  /** A failing group clears its capture and leaves the current number wherever it is. */
  function Leave(e: Elem, pos: nat, s: Marks, inner: Marks, r: Option<nat>): (s': Marks)
    requires |inner.ms| == |s.ms| && (r.Some? ==> pos <= r.value)
    ensures |s'.ms| == |s.ms|
  {
    var ms := if !Takes(e, s) then inner.ms
              else inner.ms[e.capture := if r.None? then Capture(None, 0) else Capture(Some(pos), r.value - pos)];
    Marks(ms, if r.None? then inner.cur else Enter(e, pos, s).cur)
  }

  function MarkNode(env: Env, e: Elem, rest: Chain, pos: nat, next: Chain, s: Marks): (s': Marks)
    requires pos <= |env.text|
    ensures |s'.ms| == |s.ms|
    decreases |env.text| - pos, Size(e), 0
  {
    match e
    case Greedy(b, lo, hi) => MarkLoop(env, b, if rest.Link? then rest else next, next, lo, hi, pos, 0, s)
    case Or(lh, lt, rh, rt) =>
      var l := MarkChain(env, lh, lt, pos, None, s);
      if MatchBranch(env, lh, lt, pos).Some? then l else MarkChain(env, rh, rt, pos, None, l)
    case Group(_, h, t) =>
      Leave(e, pos, s, MarkChain(env, h, t, pos, Some(next), Enter(e, pos, s)), MatchGroup(env, h, t, pos, next))
    case _ => s
  }

  function MarkChain(env: Env, h: Elem, t: Chain, pos: nat, next: Option<Chain>, s: Marks): (s': Marks)
    requires pos <= |env.text|
    ensures |s'.ms| == |s.ms|
    decreases |env.text| - pos, Size(h) + ChainSize(t), 1
  {
    var s1 := MarkNode(env, h, t, pos, Look(t, next), s);
    var cur := MatchNode(env, h, t, pos, Look(t, next));
    if cur.None? || t.End? then s1 else MarkChain(env, t.head, t.tail, cur.value, next, s1)
  }

  function MarkLoop(env: Env, b: Elem, stop: Chain, next: Chain, lo: nat, hi: nat, p: nat, n: nat, s: Marks)
    : (s': Marks)
    requires p <= |env.text|
    ensures |s'.ms| == |s.ms|
    decreases |env.text| - p, Size(b), 1
  {
    if !(n == UNBOUNDED || n < hi) then s
    else
      var m := MatchNode(env, b, End, p, stop);
      var s1 := MarkNode(env, b, End, p, stop, s);
      if m.None? || m.value == p then s1
      else
        var s2 := MarkAhead(env, stop, next, m.value, s1);
        if LookaheadStops(env, stop, next, m.value) && Satisfied(lo, hi, n + 1) then s2
        else if m.value >= |env.text| then s2
        else MarkLoop(env, b, stop, next, lo, hi, m.value, n + 1, s2)
  }

  /** Asking the successor runs its groups too. */
  function MarkAhead(env: Env, stop: Chain, next: Chain, p: nat, s: Marks): (s': Marks)
    requires p <= |env.text|
    ensures |s'.ms| == |s.ms|
    decreases |env.text| - p, if stop.Link? then Size(stop.head) else 0, 1
  {
    if Asked(stop) then MarkNode(env, stop.head, stop.tail, p, Beyond(stop, next), s) else s
  }

  // ---------- what a run leaves alone ----------

  /** All groups of `e` have numbers from `a` on. */
  predicate From(e: Elem, a: nat)
    decreases Size(e), 0
  {
    match e
    case Group(c, h, t) => (c >= 0 ==> c >= a) && FromChain(Link(h, t), a)
    case Or(lh, lt, rh, rt) => FromChain(Link(lh, lt), a) && FromChain(Link(rh, rt), a)
    case Greedy(b, _, _) => From(b, a)
    case _ => true
  }

  predicate FromChain(c: Chain, a: nat)
    decreases ChainSize(c), 1
  {
    match c
    case End => true
    case Link(h, t) => From(h, a) && FromChain(t, a)
  }

  /** Captures below `a` are kept; if the current number is below `a`, everything is. */
  ghost predicate Kept(s: Marks, s': Marks, a: nat) {
    && |s'.ms| == |s.ms|
    && (forall k :: 0 <= k < a && k < |s.ms| ==> s'.ms[k] == s.ms[k])
    && (s.cur < a ==> s' == s)
  }

  lemma KeptThen(s: Marks, s1: Marks, s2: Marks, a: nat)
    requires Kept(s, s1, a) && Kept(s1, s2, a)
    ensures Kept(s, s2, a)
  {
  }

  lemma {:induction false} KeepsNode(env: Env, e: Elem, rest: Chain, pos: nat, next: Chain, s: Marks, a: nat)
    requires pos <= |env.text| && From(e, a) && FromChain(rest, a) && FromChain(next, a)
    ensures Kept(s, MarkNode(env, e, rest, pos, next, s), a)
    decreases |env.text| - pos, Size(e), 0
  {
    hide MatchNode, MatchGroup, MatchBranch, MarkLoop, MarkChain;
    match e
    case Greedy(b, lo, hi) =>
      KeepsLoop(env, b, if rest.Link? then rest else next, next, lo, hi, pos, 0, s, a);
    case Or(lh, lt, rh, rt) =>
      KeepsChain(env, lh, lt, pos, None, s, a);
      KeepsChain(env, rh, rt, pos, None, MarkChain(env, lh, lt, pos, None, s), a);
    case Group(_, h, t) => KeepsChain(env, h, t, pos, Some(next), Enter(e, pos, s), a);
    case _ =>
  }

  lemma {:induction false} KeepsChain(env: Env, h: Elem, t: Chain, pos: nat, next: Option<Chain>, s: Marks, a: nat)
    requires pos <= |env.text| && FromChain(Link(h, t), a) && (next.Some? ==> FromChain(next.value, a))
    ensures Kept(s, MarkChain(env, h, t, pos, next, s), a)
    decreases |env.text| - pos, Size(h) + ChainSize(t), 1
  {
    hide MatchNode, MarkNode;
    KeepsNode(env, h, t, pos, Look(t, next), s, a);
    var cur := MatchNode(env, h, t, pos, Look(t, next));
    if cur.Some? && t.Link? {
      var s1 := MarkNode(env, h, t, pos, Look(t, next), s);
      KeepsChain(env, t.head, t.tail, cur.value, next, s1, a);
      KeptThen(s, s1, MarkChain(env, h, t, pos, next, s), a);
    }
  }

  lemma {:induction false} KeepsLoop(env: Env, b: Elem, stop: Chain, next: Chain, lo: nat, hi: nat, p: nat, n: nat,
                                     s: Marks, a: nat)
    requires p <= |env.text| && From(b, a) && FromChain(stop, a) && FromChain(next, a)
    ensures Kept(s, MarkLoop(env, b, stop, next, lo, hi, p, n, s), a)
    decreases |env.text| - p, Size(b), 1
  {
    hide MatchNode, MarkNode, MarkAhead, LookaheadStops;
    KeepsNode(env, b, End, p, stop, s, a);
    var m := MatchNode(env, b, End, p, stop);
    if m.Some? && m.value > p {
      var s1 := MarkNode(env, b, End, p, stop, s);
      KeepsAhead(env, stop, next, m.value, s1, a);
      var s2 := MarkAhead(env, stop, next, m.value, s1);
      KeptThen(s, s1, s2, a);
      KeepsLoop(env, b, stop, next, lo, hi, m.value, n + 1, s2, a);
      KeptThen(s, s2, MarkLoop(env, b, stop, next, lo, hi, m.value, n + 1, s2), a);
    }
  }

  lemma {:induction false} KeepsAhead(env: Env, stop: Chain, next: Chain, p: nat, s: Marks, a: nat)
    requires p <= |env.text| && FromChain(stop, a) && FromChain(next, a)
    ensures Kept(s, MarkAhead(env, stop, next, p, s), a)
    decreases |env.text| - p, if stop.Link? then Size(stop.head) else 0, 1
  {
    if Asked(stop) {
      KeepsNode(env, stop.head, stop.tail, p, Beyond(stop, next), s, a);
    }
  }

  /** Does a node end in a repetition, which asks what follows the node? */
  predicate Looks(e: Elem)
    decreases Size(e), 0
  {
    match e
    case Greedy(_, _, _) => true
    case Group(_, h, t) => LooksLast(h, t)
    case _ => false
  }

  predicate LooksLast(h: Elem, t: Chain)
    decreases Size(h) + ChainSize(t), 1
  {
    if t.End? then Looks(h) else LooksLast(t.head, t.tail)
  }

  /** Asking this chain runs no capturing group. */
  predicate Calm(c: Chain)
    decreases ChainSize(c)
  {
    c.Link? ==> Caps(c.head) == 0 && (Looks(c.head) ==> Calm(c.tail))
  }

  lemma {:induction false} FreeIsCalm(c: Chain)
    requires CapsChain(c) == 0
    ensures Calm(c)
    decreases ChainSize(c)
  {
    if c.Link? {
      FreeIsCalm(c.tail);
    }
  }

  /** A node without capturing groups, asking for none, changes nothing. */
  lemma {:induction false} QuietNode(env: Env, e: Elem, rest: Chain, pos: nat, next: Chain, s: Marks)
    requires pos <= |env.text| && Caps(e) == 0 && (rest.Link? && next.Link? ==> next == rest)
    requires Looks(e) ==> Calm(if rest.Link? then rest else next)
    ensures MarkNode(env, e, rest, pos, next, s) == s
    decreases |env.text| - pos, Size(e), 0
  {
    hide MatchNode, MatchGroup, MatchBranch, MarkLoop, MarkChain;
    match e
    case Greedy(b, lo, hi) => QuietLoop(env, b, if rest.Link? then rest else next, next, lo, hi, pos, 0, s);
    case Or(lh, lt, rh, rt) =>
      QuietChain(env, lh, lt, pos, None, s);
      QuietChain(env, rh, rt, pos, None, s);
    case Group(_, h, t) => QuietChain(env, h, t, pos, Some(next), s);
    case _ =>
  }

  lemma {:induction false} QuietChain(env: Env, h: Elem, t: Chain, pos: nat, next: Option<Chain>, s: Marks)
    requires pos <= |env.text| && CapsChain(Link(h, t)) == 0
    requires next.Some? && LooksLast(h, t) ==> Calm(next.value)
    ensures MarkChain(env, h, t, pos, next, s) == s
    decreases |env.text| - pos, Size(h) + ChainSize(t), 1
  {
    hide MatchNode, MarkNode;
    FreeIsCalm(t);
    QuietNode(env, h, t, pos, Look(t, next), s);
    var cur := MatchNode(env, h, t, pos, Look(t, next));
    if cur.Some? && t.Link? {
      QuietChain(env, t.head, t.tail, cur.value, next, s);
    }
  }

  lemma {:induction false} QuietLoop(env: Env, b: Elem, stop: Chain, next: Chain, lo: nat, hi: nat, p: nat, n: nat,
                                     s: Marks)
    requires p <= |env.text| && Caps(b) == 0 && Calm(stop) && (next.Link? ==> next == stop)
    ensures MarkLoop(env, b, stop, next, lo, hi, p, n, s) == s
    decreases |env.text| - p, Size(b), 1
  {
    hide MatchNode, MarkNode, LookaheadStops;
    QuietNode(env, b, End, p, stop, s);
    var m := MatchNode(env, b, End, p, stop);
    if m.Some? && m.value > p {
      if Asked(stop) {
        QuietNode(env, stop.head, stop.tail, m.value, Beyond(stop, next), s);
      }
      QuietLoop(env, b, stop, next, lo, hi, m.value, n + 1, s);
    }
  }

  lemma {:induction false} NumberedFrom(e: Elem, a: nat, groups: seq<Elem>, b: nat)
    requires Numbered(e, a, groups) && b <= a
    ensures From(e, b)
    decreases Size(e), 0
  {
    match e
    case Group(c, h, t) => NumberedChainFrom(Link(h, t), if c >= 0 then a + 1 else a, groups, b);
    case Or(lh, lt, rh, rt) =>
      NumberedChainFrom(Link(lh, lt), a, groups, b);
      NumberedChainFrom(Link(rh, rt), a + Caps(lh) + CapsChain(lt), groups, b);
    case Greedy(body, _, _) => NumberedFrom(body, a, groups, b);
    case _ =>
  }

  lemma {:induction false} NumberedChainFrom(c: Chain, a: nat, groups: seq<Elem>, b: nat)
    requires NumberedChain(c, a, groups) && b <= a
    ensures FromChain(c, b)
    decreases ChainSize(c), 1
  {
    if c.Link? {
      NumberedFrom(c.head, a, groups, b);
      NumberedChainFrom(c.tail, a + Caps(c.head), groups, b);
    }
  }

  lemma {:induction false} FreeFrom(c: Chain, a: nat)
    requires CapsChain(c) == 0
    ensures FromChain(c, a)
    decreases ChainSize(c), 1
  {
    if c.Link? {
      FreeElemFrom(c.head, a);
      FreeFrom(c.tail, a);
    }
  }

  lemma {:induction false} FreeElemFrom(e: Elem, a: nat)
    requires Caps(e) == 0
    ensures From(e, a)
    decreases Size(e), 0
  {
    match e
    case Group(_, h, t) => FreeFrom(Link(h, t), a);
    case Or(lh, lt, rh, rt) =>
      FreeFrom(Link(lh, lt), a);
      FreeFrom(Link(rh, rt), a);
    case Greedy(b, _, _) => FreeElemFrom(b, a);
    case _ =>
  }

  // ---------- every group captured ----------

  /** The run of `e` on text[i..j], whose groups are numbered from `a` on, splits the text among its nodes so that the
      capture of every group is the part that the group matched. */
  ghost predicate Spans(env: Env, e: Elem, rest: Chain, next: Chain, a: nat, i: nat, j: nat, ms: seq<Capture>)
    requires i <= |env.text|
    decreases Size(e), 0
  {
    && MatchNode(env, e, rest, i, next) == Some(j)
    && (e.Group? ==>
          if e.capture >= 0
          then a < |ms| && ms[a] == Capture(Some(i), j - i) && SpansAll(env, e.head, e.tail, next, a + 1, i, j, ms)
          else SpansAll(env, e.head, e.tail, next, a, i, j, ms))
  }

  ghost predicate SpansAll(env: Env, h: Elem, t: Chain, next: Chain, a: nat, i: nat, j: nat, ms: seq<Capture>)
    requires i <= |env.text|
    decreases Size(h) + ChainSize(t), 1
  {
    exists k: nat ::
      && i <= k <= j && k <= |env.text| && Spans(env, h, t, Look(t, Some(next)), a, i, k, ms)
      && (if t.End? then k == j else SpansAll(env, t.head, t.tail, next, a + Caps(h), k, j, ms))
  }

  /** No group inside a repetition or an alternation; and what stands before a group in its chain is a group that
      holds no other, or has no groups and does not ask for one. */
  predicate Tidy(e: Elem)
    decreases Size(e), 0
  {
    if e.Group? then TidyChain(e.head, e.tail) else Caps(e) == 0
  }

  predicate TidyChain(h: Elem, t: Chain)
    decreases Size(h) + ChainSize(t), 1
  {
    && Tidy(h)
    && (t.Link? ==> TidyChain(t.head, t.tail))
    && (CapsChain(t) > 0 ==> Steps(h, t))
  }

  predicate Steps(h: Elem, t: Chain) {
    if Caps(h) == 0 then Looks(h) ==> Calm(t) else h.Group? && h.capture >= 0 && Caps(h) == 1
  }

  lemma {:induction false} SpansFree(env: Env, e: Elem, rest: Chain, next: Chain, a: nat, i: nat, j: nat,
                                     ms: seq<Capture>)
    requires i <= |env.text| && Caps(e) == 0 && MatchNode(env, e, rest, i, next) == Some(j)
    ensures Spans(env, e, rest, next, a, i, j, ms)
    decreases Size(e), 0
  {
    if e.Group? {
      SpansAllFree(env, e.head, e.tail, next, a, i, j, ms);
    }
  }

  lemma {:induction false} SpansAllFree(env: Env, h: Elem, t: Chain, next: Chain, a: nat, i: nat, j: nat,
                                        ms: seq<Capture>)
    requires i <= |env.text| && CapsChain(Link(h, t)) == 0 && MatchGroup(env, h, t, i, next) == Some(j)
    ensures SpansAll(env, h, t, next, a, i, j, ms)
    decreases Size(h) + ChainSize(t), 1
  {
    hide Spans, MatchNode;
    var k := MatchNode(env, h, t, i, Look(t, Some(next))).value;
    SpansFree(env, h, t, Look(t, Some(next)), a, i, k, ms);
    if t.Link? {
      SpansAllFree(env, t.head, t.tail, next, a + Caps(h), k, j, ms);
    }
  }

  /** Only the captures numbered from `a` to `a + Caps(e)` matter. */
  lemma {:induction false} SpansSame(env: Env, e: Elem, rest: Chain, next: Chain, a: nat, i: nat, j: nat,
                                     ms: seq<Capture>, ms': seq<Capture>)
    requires i <= |env.text| && Spans(env, e, rest, next, a, i, j, ms)
    requires |ms| == |ms'| && forall k :: a <= k < a + Caps(e) && k < |ms| ==> ms'[k] == ms[k]
    ensures Spans(env, e, rest, next, a, i, j, ms')
    decreases Size(e), 0
  {
    hide MatchNode;
    if e.Group? {
      SpansAllSame(env, e.head, e.tail, next, if e.capture >= 0 then a + 1 else a, i, j, ms, ms');
    }
  }

  lemma {:induction false} SpansAllSame(env: Env, h: Elem, t: Chain, next: Chain, a: nat, i: nat, j: nat,
                                        ms: seq<Capture>, ms': seq<Capture>)
    requires i <= |env.text| && SpansAll(env, h, t, next, a, i, j, ms)
    requires |ms| == |ms'| && forall k :: a <= k < a + CapsChain(Link(h, t)) && k < |ms| ==> ms'[k] == ms[k]
    ensures SpansAll(env, h, t, next, a, i, j, ms')
    decreases Size(h) + ChainSize(t), 1
  {
    hide Spans;
    var k: nat :| && i <= k <= j && k <= |env.text| && Spans(env, h, t, Look(t, Some(next)), a, i, k, ms)
                  && (if t.End? then k == j else SpansAll(env, t.head, t.tail, next, a + Caps(h), k, j, ms));
    SpansSame(env, h, t, Look(t, Some(next)), a, i, k, ms, ms');
    if t.Link? {
      SpansAllSame(env, t.head, t.tail, next, a + Caps(h), k, j, ms, ms');
    }
  }

  /** A tidy node entered with its own number captures every one of its groups. */
  lemma {:induction false} TidySpans(env: Env, e: Elem, rest: Chain, i: nat, next: Chain, s: Marks, a: nat,
                                     groups: seq<Elem>)
    requires i <= |env.text| && Numbered(e, a, groups) && |s.ms| == |groups| && Tidy(e) && s.cur == a
    requires MatchNode(env, e, rest, i, next).Some?
    requires e.Group? && Caps(e) > (if e.capture >= 0 then 1 else 0) ==> CapsChain(next) == 0
    ensures var s', j := MarkNode(env, e, rest, i, next, s), MatchNode(env, e, rest, i, next).value;
            && Spans(env, e, rest, next, a, i, j, s'.ms)
            && (e.Group? && e.capture >= 0 ==> s'.cur == a + 1)
    decreases Size(e), 0
  {
    var s', j := MarkNode(env, e, rest, i, next, s), MatchNode(env, e, rest, i, next).value;
    if Caps(e) == 0 {
      SpansFree(env, e, rest, next, a, i, j, s'.ms);
    } else {
      var b := if e.capture >= 0 then a + 1 else a;
      var s1 := Enter(e, i, s);
      var s2 := MarkChain(env, e.head, e.tail, i, Some(next), s1);
      if CapsChain(Link(e.head, e.tail)) == 0 {
        SpansAllFree(env, e.head, e.tail, next, b, i, j, s2.ms);
      } else {
        TidySpansAll(env, e.head, e.tail, i, next, s1, b, groups);
      }
      SpansAllSame(env, e.head, e.tail, next, b, i, j, s2.ms, s'.ms);
    }
  }

  lemma {:induction false} TidySpansAll(env: Env, h: Elem, t: Chain, i: nat, next: Chain, s: Marks, a: nat,
                                        groups: seq<Elem>)
    requires i <= |env.text| && NumberedChain(Link(h, t), a, groups) && |s.ms| == |groups| && TidyChain(h, t)
    requires s.cur == a && MatchGroup(env, h, t, i, next).Some?
    requires CapsChain(Link(h, t)) > 0 && CapsChain(next) == 0
    ensures var s', j := MarkChain(env, h, t, i, Some(next), s), MatchGroup(env, h, t, i, next).value;
            SpansAll(env, h, t, next, a, i, j, s'.ms)
    decreases Size(h) + ChainSize(t), 1
  {
    hide Spans, MatchNode, MarkNode;
    var look := Look(t, Some(next));
    var s1, k := MarkNode(env, h, t, i, look, s), MatchNode(env, h, t, i, look).value;
    var s', j := MarkChain(env, h, t, i, Some(next), s), MatchGroup(env, h, t, i, next).value;
    var b := a + Caps(h);
    TidySpans(env, h, t, i, look, s, a, groups);
    if t.Link? {
      if CapsChain(t) == 0 {
        FreeIsCalm(next);
        QuietChain(env, t.head, t.tail, k, Some(next), s1);
        SpansAllFree(env, t.head, t.tail, next, b, k, j, s'.ms);
      } else {
        if Caps(h) == 0 {
          QuietNode(env, h, t, i, look, s);
        }
        NumberedChainFrom(t, b, groups, b);
        FreeFrom(next, b);
        KeepsChain(env, t.head, t.tail, k, Some(next), s1, b);
        TidySpansAll(env, t.head, t.tail, k, next, s1, b, groups);
      }
      SpansSame(env, h, t, look, a, i, k, s1.ms, s'.ms);
    }
  }

  /** What the capture of group number `k` says when the group matched inside text[i..j]. */
  ghost predicate SetWithin(env: Env, m: Capture, group: Elem, i: nat, j: nat) {
    && m.begin.Some? && i <= m.begin.value && m.begin.value + m.len <= j <= |env.text|
    && Lang(env, group, m.begin.value, m.begin.value + m.len)
  }

  lemma {:induction false} SpansSet(env: Env, e: Elem, rest: Chain, next: Chain, a: nat, i: nat, j: nat,
                                    ms: seq<Capture>, groups: seq<Elem>, k: nat)
    requires i <= |env.text| && Spans(env, e, rest, next, a, i, j, ms) && Tidy(e) && Numbered(e, a, groups)
    requires a <= k < a + Caps(e) && |ms| == |groups|
    ensures k < |ms| && SetWithin(env, ms[k], groups[k], i, j)
    decreases Size(e), 0
  {
    if e.capture >= 0 && k == a {
      MatchNodeSound(env, e, rest, i, next);
    } else {
      SpansAllSet(env, e.head, e.tail, next, if e.capture >= 0 then a + 1 else a, i, j, ms, groups, k);
    }
  }

  lemma {:induction false} SpansAllSet(env: Env, h: Elem, t: Chain, next: Chain, a: nat, i: nat, j: nat,
                                       ms: seq<Capture>, groups: seq<Elem>, k: nat)
    requires i <= |env.text| && SpansAll(env, h, t, next, a, i, j, ms) && TidyChain(h, t)
    requires NumberedChain(Link(h, t), a, groups) && a <= k < a + CapsChain(Link(h, t)) && |ms| == |groups|
    ensures k < |ms| && SetWithin(env, ms[k], groups[k], i, j)
    decreases Size(h) + ChainSize(t), 1
  {
    hide Spans, Lang;
    var m: nat :| && i <= m <= j && m <= |env.text| && Spans(env, h, t, Look(t, Some(next)), a, i, m, ms)
                  && (if t.End? then m == j else SpansAll(env, t.head, t.tail, next, a + Caps(h), m, j, ms));
    SpansAhead(env, h, t, next, a, i, j, ms);
    if k < a + Caps(h) {
      SpansSet(env, h, t, Look(t, Some(next)), a, i, m, ms, groups, k);
    } else {
      SpansAllSet(env, t.head, t.tail, next, a + Caps(h), m, j, ms, groups, k);
    }
  }

  lemma {:induction false} SpansAhead(env: Env, h: Elem, t: Chain, next: Chain, a: nat, i: nat, j: nat,
                                      ms: seq<Capture>)
    requires i <= |env.text| && SpansAll(env, h, t, next, a, i, j, ms)
    ensures j <= |env.text|
    decreases Size(h) + ChainSize(t), 1
  {
    if t.Link? {
      var m: nat :| && i <= m <= j && m <= |env.text| && Spans(env, h, t, Look(t, Some(next)), a, i, m, ms)
                    && (if t.End? then m == j else SpansAll(env, t.head, t.tail, next, a + Caps(h), m, j, ms));
      SpansAhead(env, t.head, t.tail, next, a + Caps(h), m, j, ms);
    }
  }

  // ---------- groups in a row ----------

  /** A sequence of groups that hold no others. */
  predicate Row(c: Chain) {
    c.Link? ==> c.head.Group? && c.head.capture >= 0 && Caps(c.head) == 1 && Row(c.tail)
  }

  lemma {:induction false} RowIsTidy(h: Elem, t: Chain)
    requires Row(Link(h, t))
    ensures TidyChain(h, t)
    decreases ChainSize(t)
  {
    FreeIsTidy(h.head, h.tail);
    if t.Link? {
      RowIsTidy(t.head, t.tail);
    }
  }

  lemma {:induction false} FreeIsTidy(h: Elem, t: Chain)
    requires CapsChain(Link(h, t)) == 0
    ensures TidyChain(h, t)
    decreases Size(h) + ChainSize(t)
  {
    if h.Group? {
      FreeIsTidy(h.head, h.tail);
    }
    if t.Link? {
      FreeIsTidy(t.head, t.tail);
    }
  }

  /** The captures from `a` on follow each other without gaps, from `i` to `j`. */
  ghost predicate Tiled(ms: seq<Capture>, a: nat, n: nat, i: nat, j: nat)
    decreases n
  {
    if n == 0 then i == j
    else a < |ms| && ms[a].begin == Some(i) && Tiled(ms, a + 1, n - 1, i + ms[a].len, j)
  }

  lemma {:induction false} RowTiled(env: Env, h: Elem, t: Chain, next: Chain, a: nat, i: nat, j: nat, ms: seq<Capture>)
    requires i <= |env.text| && SpansAll(env, h, t, next, a, i, j, ms) && Row(Link(h, t))
    ensures Tiled(ms, a, CapsChain(Link(h, t)), i, j)
    decreases ChainSize(t)
  {
    var k: nat :| && i <= k <= j && k <= |env.text| && Spans(env, h, t, Look(t, Some(next)), a, i, k, ms)
                  && (if t.End? then k == j else SpansAll(env, t.head, t.tail, next, a + Caps(h), k, j, ms));
    if t.Link? {
      RowTiled(env, t.head, t.tail, next, a + 1, k, j, ms);
    }
  }

  // ---------- groups that are lost ----------

  /** Without choices, only the captures of the node's own groups change, and none if the current number is too
      small; on success the current number grows exactly when the node itself is captured. */
  ghost predicate Own(s: Marks, s': Marks, a: nat, n: nat) {
    && |s'.ms| == |s.ms|
    && (forall k :: 0 <= k < |s.ms| && !(a <= k < a + n) ==> s'.ms[k] == s.ms[k])
    && (s.cur < a ==> s' == s)
  }

  lemma {:induction false} PlainMarks(env: Env, e: Elem, rest: Chain, i: nat, next: Chain, s: Marks, a: nat,
                                      groups: seq<Elem>)
    requires i <= |env.text| && NoChoice(e) && Numbered(e, a, groups) && |s.ms| == |groups| && s.cur <= a
    requires MatchNode(env, e, rest, i, next).Some?
    ensures var s' := MarkNode(env, e, rest, i, next, s);
            && Own(s, s', a, Caps(e))
            && s'.cur == if e.Group? && e.capture >= 0 && s.cur == a then a + 1 else s.cur
    decreases Size(e), 0
  {
    if e.Group? {
      PlainMarksAll(env, e.head, e.tail, i, next, Enter(e, i, s), if e.capture >= 0 then a + 1 else a, groups);
    }
  }

  lemma {:induction false} PlainMarksAll(env: Env, h: Elem, t: Chain, i: nat, next: Chain, s: Marks, a: nat,
                                         groups: seq<Elem>)
    requires i <= |env.text| && NoChoice(h) && NoChoiceChain(t) && NumberedChain(Link(h, t), a, groups)
    requires |s.ms| == |groups| && s.cur <= a && MatchGroup(env, h, t, i, next).Some?
    ensures Own(s, MarkChain(env, h, t, i, Some(next), s), a, CapsChain(Link(h, t)))
    decreases Size(h) + ChainSize(t), 1
  {
    hide MatchNode, MarkNode;
    var look := Look(t, Some(next));
    PlainMarks(env, h, t, i, look, s, a, groups);
    assert h.Group? && h.capture >= 0 ==> Caps(h) >= 1;
    if t.Link? {
      PlainMarksAll(env, t.head, t.tail, MatchNode(env, h, t, i, look).value, next,
                    MarkNode(env, h, t, i, look, s), a + Caps(h), groups);
    }
  }

  lemma {:induction false} NumberedFits(e: Elem, a: nat, groups: seq<Elem>)
    requires Numbered(e, a, groups)
    ensures Caps(e) > 0 ==> a + Caps(e) <= |groups|
    decreases Size(e), 0
  {
    match e
    case Group(c, h, t) => NumberedChainFits(Link(h, t), if c >= 0 then a + 1 else a, groups);
    case Or(lh, lt, rh, rt) =>
      NumberedChainFits(Link(lh, lt), a, groups);
      NumberedChainFits(Link(rh, rt), a + Caps(lh) + CapsChain(lt), groups);
    case Greedy(b, _, _) => NumberedFits(b, a, groups);
    case _ =>
  }

  lemma {:induction false} NumberedChainFits(c: Chain, a: nat, groups: seq<Elem>)
    requires NumberedChain(c, a, groups)
    ensures CapsChain(c) > 0 ==> a + CapsChain(c) <= |groups|
    decreases ChainSize(c), 1
  {
    if c.Link? {
      NumberedFits(c.head, a, groups);
      NumberedChainFits(c.tail, a + Caps(c.head), groups);
    }
  }

  /** Without choices, a node that is not tidy leaves some capture as it was. */
  lemma {:induction false} Lost(env: Env, e: Elem, rest: Chain, i: nat, next: Chain, s: Marks, a: nat,
                                groups: seq<Elem>) returns (k: nat)
    requires i <= |env.text| && NoChoice(e) && Numbered(e, a, groups) && |s.ms| == |groups| && s.cur <= a
    requires MatchNode(env, e, rest, i, next).Some? && !Tidy(e)
    ensures a <= k < a + Caps(e) && k < |s.ms| && MarkNode(env, e, rest, i, next, s).ms[k] == s.ms[k]
    decreases Size(e), 0
  {
    PlainCaps(e);
    k := LostAll(env, e.head, e.tail, i, next, Enter(e, i, s), if e.capture >= 0 then a + 1 else a, groups);
  }

  lemma PlainCaps(e: Elem)
    requires NoChoice(e) && !Tidy(e)
    ensures e.Group?
  {
  }

  lemma {:induction false} LostAll(env: Env, h: Elem, t: Chain, i: nat, next: Chain, s: Marks, a: nat,
                                   groups: seq<Elem>) returns (k: nat)
    requires i <= |env.text| && NoChoice(h) && NoChoiceChain(t) && NumberedChain(Link(h, t), a, groups)
    requires |s.ms| == |groups| && s.cur <= a && MatchGroup(env, h, t, i, next).Some? && !TidyChain(h, t)
    ensures a <= k < a + CapsChain(Link(h, t)) && k < |s.ms|
    ensures MarkChain(env, h, t, i, Some(next), s).ms[k] == s.ms[k]
    decreases Size(h) + ChainSize(t), 1
  {
    hide MatchNode, MarkNode, Tidy, TidyChain, Numbered, NoChoice, Caps;
    var look, b := Look(t, Some(next)), a + Caps(h);
    var s1, cur := MarkNode(env, h, t, i, look, s), MatchNode(env, h, t, i, look).value;
    PlainMarks(env, h, t, i, look, s, a, groups);
    if t.End? {
      UntidyStep(h, t);
      k := Lost(env, h, t, i, look, s, a, groups);
      return;
    }
    assert s1.cur <= b by {
      OwnCounts(h);
    }
    PlainMarksAll(env, t.head, t.tail, cur, next, s1, b, groups);
    if !Tidy(h) {
      k := Lost(env, h, t, i, look, s, a, groups);
    } else if !TidyChain(t.head, t.tail) {
      k := LostAll(env, t.head, t.tail, cur, next, s1, b, groups);
    } else {
      NumberedChainFits(t, b, groups);
      UntidyStep(h, t);
      k := b;
    }
  }

  lemma OwnCounts(e: Elem)
    ensures e.Group? && e.capture >= 0 ==> Caps(e) >= 1
  {
  }

  lemma UntidyStep(h: Elem, t: Chain)
    requires NoChoice(h) && !TidyChain(h, t)
    ensures t.End? ==> !Tidy(h)
    ensures t.Link? && Tidy(h) && TidyChain(t.head, t.tail) ==>
              CapsChain(t) > 0 && Caps(h) > 0 && (h.Group? && h.capture >= 0 ==> Caps(h) > 1)
  {
    PlainIsStill(h);
  }

  lemma {:induction false} PlainIsStill(e: Elem)
    requires NoChoice(e)
    ensures !Looks(e)
    decreases Size(e), 0
  {
    if e.Group? {
      PlainLast(e.head, e.tail);
    }
  }

  lemma {:induction false} PlainLast(h: Elem, t: Chain)
    requires NoChoice(h) && NoChoiceChain(t)
    ensures !LooksLast(h, t)
    decreases Size(h) + ChainSize(t), 1
  {
    if t.End? {
      PlainIsStill(h);
    } else {
      PlainLast(t.head, t.tail);
    }
  }

  /** A successful match of a whole pattern, from captures that are all unset. */
  ghost predicate AllSet(env: Env, root: Elem, groups: seq<Elem>, i: nat, ms: seq<Capture>)
    requires i <= |env.text|
  {
    var r := MatchNode(env, root, End, i, End);
    r.Some? && |ms| == |groups| && forall k :: 0 <= k < |groups| ==> SetWithin(env, ms[k], groups[k], i, r.value)
  }

  /** What the captures say after a match of the whole pattern on text[i..j]: those of a tidy pattern are the parts
      its groups matched, all of them inside the match, and groups in a row divide the match among themselves. */
  ghost predicate Captured(env: Env, root: Elem, groups: seq<Elem>, i: nat, j: nat, ms: seq<Capture>)
    requires i <= |env.text| && root.Group?
  {
    && (Tidy(root) ==> Spans(env, root, End, End, 0, i, j, ms) && AllSet(env, root, groups, i, ms))
    && (Row(Link(root.head, root.tail)) && root.capture == 0 ==> Tiled(ms, 1, Caps(root) - 1, i, j))
  }

  lemma MatchCaptures(env: Env, root: Elem, groups: seq<Elem>, i: nat, ms: seq<Capture>)
    requires i <= |env.text| && Numbered(root, 0, groups) && |ms| == |groups| == Caps(root) && root.Group?
    requires MatchNode(env, root, End, i, End).Some?
    ensures Captured(env, root, groups, i, MatchNode(env, root, End, i, End).value,
                     MarkNode(env, root, End, i, End, Marks(ms, 0)).ms)
  {
    hide MatchNode, MarkNode, Lang, SpansAll;
    var ms', j := MarkNode(env, root, End, i, End, Marks(ms, 0)).ms, MatchNode(env, root, End, i, End).value;
    if Tidy(root) {
      TidySpans(env, root, End, i, End, Marks(ms, 0), 0, groups);
      forall k | 0 <= k < |groups| ensures SetWithin(env, ms'[k], groups[k], i, j) {
        SpansSet(env, root, End, End, 0, i, j, ms', groups, k);
      }
    }
    if Row(Link(root.head, root.tail)) && root.capture == 0 {
      RowIsTidy(root.head, root.tail);
      RowTiled(env, root.head, root.tail, End, 1, i, j, ms');
    }
  }

  ghost predicate Unset(ms: seq<Capture>) {
    forall k :: 0 <= k < |ms| ==> ms[k] == Capture(None, 0)
  }

  /** A pattern without choices captures all its groups, in any match, exactly when it is tidy. */
  lemma AllSetExactly(env: Env, root: Elem, groups: seq<Elem>, i: nat, ms: seq<Capture>)
    requires i <= |env.text| && Numbered(root, 0, groups) && |ms| == |groups| == Caps(root) && root.Group?
    requires NoChoice(root) && MatchNode(env, root, End, i, End).Some? && Unset(ms)
    ensures AllSet(env, root, groups, i, MarkNode(env, root, End, i, End, Marks(ms, 0)).ms) <==> Tidy(root)
  {
    hide MatchNode, MarkNode, Lang, Spans;
    if Tidy(root) {
      MatchCaptures(env, root, groups, i, ms);
    } else {
      var k := Lost(env, root, End, i, End, Marks(ms, 0), 0, groups);
      var ms' := MarkNode(env, root, End, i, End, Marks(ms, 0)).ms;
      assert !SetWithin(env, ms'[k], groups[k], i, MatchNode(env, root, End, i, End).value);
    }
  }

  // ---------- a repetition before a group ----------

  /** A capture-free group with a number, and a repetition of a capture-free body that reads, before it. */
  predicate Before(e: Elem, g: Elem, a: nat) {
    && e.Greedy? && NoChoice(e.body) && Reads(e.body) && Caps(e.body) == 0
    && g.Group? && g.capture == a && NoChoice(g) && Caps(g) == 1
  }

  /** Once the number has moved on, the group leaves everything as it is. */
  lemma PastGroup(env: Env, g: Elem, t: Chain, p: nat, next: Chain, s: Marks)
    requires p <= |env.text| && NoChoice(g) && g.Group? && g.capture >= 0 && Caps(g) == 1 && s.cur != g.capture
    ensures MarkNode(env, g, t, p, next, s) == s
  {
    PlainLast(g.head, g.tail);
    QuietChain(env, g.head, g.tail, p, Some(next), s);
  }

  /** Asked or run while its number is current, the group is captured where it matches, and the number moves on. */
  lemma AtGroup(env: Env, g: Elem, t: Chain, p: nat, next: Chain, s: Marks)
    requires p <= |env.text| && NoChoice(g) && g.Group? && g.capture >= 0 && Caps(g) == 1
    requires s.cur == g.capture < |s.ms|
    ensures var r := MatchNode(env, g, t, p, next);
            MarkNode(env, g, t, p, next, s) ==
            Marks(s.ms[g.capture := if r.None? then Capture(None, 0) else Capture(Some(p), r.value - p)], s.cur + 1)
  {
    PlainLast(g.head, g.tail);
    QuietChain(env, g.head, g.tail, p, Some(next), Enter(g, p, s));
  }

  lemma {:induction false} PastLoop(env: Env, e: Elem, g: Elem, t: Chain, a: nat, p: nat, n: nat, s: Marks)
    requires p <= |env.text| && Before(e, g, a) && s.cur != a
    ensures MarkLoop(env, e.body, Link(g, t), Link(g, t), e.lo, e.hi, p, n, s) == s
    decreases |env.text| - p
  {
    hide MatchNode, MarkNode, LookaheadStops, Satisfied;
    var c := Link(g, t);
    PlainIsStill(e.body);
    QuietNode(env, e.body, End, p, c, s);
    var m := MatchNode(env, e.body, End, p, c);
    if m.Some? && m.value > p {
      PastGroup(env, g, t, m.value, Beyond(c, c), s);
      PastLoop(env, e, g, t, a, m.value, n + 1, s);
    }
  }

  /** The repetition asks the group after its first match, and that is what the group's capture holds from then on. */
  lemma LoopAsks(env: Env, e: Elem, g: Elem, t: Chain, a: nat, i: nat, s: Marks)
    requires i <= |env.text| && Before(e, g, a) && s.cur == a < |s.ms|
    ensures var c := Link(g, t);
            var first := MatchNode(env, e.body, End, i, c);
            MarkNode(env, e, c, i, c, s) ==
            if e.hi == 0 || first.None? then s else MarkNode(env, g, t, first.value, Beyond(c, c), s)
  {
    hide LookaheadStops, Satisfied, MarkNode, MatchNode;
    var c := Link(g, t);
    PlainIsStill(e.body);
    QuietNode(env, e.body, End, i, c, s);
    LoopMarks(env, e, c, i, s);
    var first := MatchNode(env, e.body, End, i, c);
    if e.hi > 0 && first.Some? {
      NoChoiceExact(env, e.body, End, i, c);
      ReadsMoves(env, e.body, i, first.value);
      AtGroup(env, g, t, first.value, Beyond(c, c), s);
      var s1 := MarkNode(env, g, t, first.value, Beyond(c, c), s);
      PastLoop(env, e, g, t, a, first.value, 1, s1);
    }
  }

  lemma LoopMarks(env: Env, e: Elem, c: Chain, i: nat, s: Marks)
    requires i <= |env.text| && e.Greedy? && c.Link?
    ensures MarkNode(env, e, c, i, c, s) == MarkLoop(env, e.body, c, c, e.lo, e.hi, i, 0, s)
  {
    hide MarkLoop;
  }

  /** So the group is captured where it matched exactly when the repetition before it took at most one match. */
  lemma CapturedAfterLoop(env: Env, e: Elem, g: Elem, t: Chain, a: nat, i: nat, j: nat, k: nat, next: Chain, s: Marks)
    requires i <= |env.text| && Before(e, g, a) && s.cur == a < |s.ms|
    requires MatchNode(env, e, Link(g, t), i, Link(g, t)) == Some(j) && MatchNode(env, g, t, j, next) == Some(k)
    ensures var s1 := MarkNode(env, e, Link(g, t), i, Link(g, t), s);
            MarkNode(env, g, t, j, next, s1).ms[a] == Capture(Some(j), k - j) <==> i == j || Lang(env, e.body, i, j)
  {
    hide MatchNode, MarkNode, Lang;
    var c := Link(g, t);
    LoopAsks(env, e, g, t, a, i, s);
    var s1 := MarkNode(env, e, c, i, c, s);
    var first := MatchNode(env, e.body, End, i, c);
    NoChoiceExact(env, e.body, End, i, c);
    LoopEnds(env, e, c, i);
    if e.hi == 0 || first.None? {
      AtGroup(env, g, t, j, next, s);
    } else {
      ReadsMoves(env, e.body, i, first.value);
      AtGroup(env, g, t, first.value, Beyond(c, c), s);
      PastGroup(env, g, t, j, next, s1);
      NoChoiceExact(env, g, t, j, Beyond(c, c));
      NoChoiceExact(env, g, t, j, next);
      MatchNodeSound(env, g, t, j, next);
    }
  }

  /** The repetition ends where it began or not before its first match. */
  lemma LoopEnds(env: Env, e: Elem, c: Chain, i: nat)
    requires i <= |env.text| && e.Greedy? && c.Link? && MatchNode(env, e, c, i, c).Some?
    ensures var first := MatchNode(env, e.body, End, i, c);
            var j := MatchNode(env, e, c, i, c).value;
            if e.hi == 0 || first.None? then j == i else first.value <= j
  {
  }

  /** The tree of `a*(b)`. */
  const ASKING: Elem := Group(0, Greedy(Char(97), 0, UNBOUNDED), Link(Group(1, Char(98), End), End))

  /** It matches "aab" and leaves its group without a capture. */
  lemma AskingLoses(cclass: (int, int) -> bool, space: int -> bool)
    ensures var env := Env([97, 97, 98], cclass, space);
            && MatchNode(env, ASKING, End, 0, End) == Some(3)
            && MarkNode(env, ASKING, End, 0, End, Marks([Capture(None, 0), Capture(None, 0)], 0)).ms[1]
            == Capture(None, 0)
  {
    var env := Env([97, 97, 98], cclass, space);
    var e, g := ASKING.head, ASKING.tail.head;
    var c := Link(g, End);
    assert MatchNode(env, Char(98), End, 1, End) == None && MatchNode(env, Char(98), End, 2, End) == Some(3);
    assert MatchGroup(env, Char(98), End, 1, End) == None;
    assert MatchGroup(env, Char(98), End, 2, End) == Some(3);
    assert MatchNode(env, g, End, 1, End) == None && MatchNode(env, g, End, 2, End) == Some(3);
    assert MatchNode(env, e.body, End, 0, c) == Some(1) && MatchNode(env, e.body, End, 1, c) == Some(2);
    assert !LookaheadStops(env, c, c, 1) && LookaheadStops(env, c, c, 2);
    assert GreedyLoop(env, e.body, c, c, 0, UNBOUNDED, 1, 1) == (2, 2);
    assert MatchNode(env, e, c, 0, c) == Some(2);
    AskingMarks(env, e, g, c);
  }

  lemma AskingMarks(env: Env, e: Elem, g: Elem, c: Chain)
    requires env.text == [97, 97, 98] && Before(e, g, 1) && c == Link(g, End) && e.hi > 0
    requires MatchNode(env, e, c, 0, c) == Some(2) && MatchNode(env, g, End, 2, End) == Some(3)
    requires MatchNode(env, e.body, End, 0, c) == Some(1) && MatchNode(env, g, End, 1, End) == None
    ensures MatchNode(env, Group(0, e, c), End, 0, End) == Some(3)
    ensures MarkNode(env, Group(0, e, c), End, 0, End, Marks([Capture(None, 0), Capture(None, 0)], 0)).ms[1]
         == Capture(None, 0)
  {
    hide MatchNode, MarkNode;
    var root, none := Group(0, e, c), Marks([Capture(None, 0), Capture(None, 0)], 0);
    var s0 := Enter(root, 0, none);
    LoopAsks(env, e, g, End, 1, 0, s0);
    AtGroup(env, g, End, 1, End, s0);
    var s1 := MarkNode(env, e, c, 0, c, s0);
    PastGroup(env, g, End, 2, End, s1);
    assert MatchGroup(env, g, End, 2, End) == Some(3);
    assert MatchGroup(env, e, c, 0, End) == Some(3);
    assert MarkChain(env, g, End, 2, Some(End), s1) == s1;
    assert MarkChain(env, e, c, 0, Some(End), s0) == s1;
    WholeMarks(env, e, c, none);
  }

  lemma WholeMarks(env: Env, h: Elem, t: Chain, s: Marks)
    ensures var root := Group(0, h, t);
            && MatchNode(env, root, End, 0, End) == MatchGroup(env, h, t, 0, End)
            && MarkNode(env, root, End, 0, End, s)
            == Leave(root, 0, s, MarkChain(env, h, t, 0, Some(End), Enter(root, 0, s)), MatchGroup(env, h, t, 0, End))
  {
    hide MatchGroup, MarkChain;
  }

  /** The tree of `((a))(b)`. */
  const NESTING: Elem :=
    Group(0, Group(1, Group(2, Char(97), End), End), Link(Group(3, Char(98), End), End))

  /** It has no choices, matches "ab", and is not tidy: some group of it is not captured. */
  lemma NestingLoses(cclass: (int, int) -> bool, space: int -> bool)
    ensures NoChoice(NESTING) && !Tidy(NESTING)
    ensures MatchNode(Env([97, 98], cclass, space), NESTING, End, 0, End) == Some(2)
  {
    var env := Env([97, 98], cclass, space);
    var one, two, three := NESTING.head, NESTING.head.head, NESTING.tail.head;
    assert Caps(three) == 1 && Caps(two) == 1 && Caps(one) == 2;
    assert MatchNode(env, Char(97), End, 0, NESTING.tail) == Some(1);
    assert MatchGroup(env, Char(97), End, 0, NESTING.tail) == Some(1);
    assert MatchNode(env, two, End, 0, NESTING.tail) == Some(1);
    assert MatchGroup(env, two, End, 0, NESTING.tail) == Some(1);
    assert MatchNode(env, one, NESTING.tail, 0, NESTING.tail) == Some(1);
    assert MatchNode(env, Char(98), End, 1, End) == Some(2);
    assert MatchGroup(env, Char(98), End, 1, End) == Some(2);
    assert MatchNode(env, three, End, 1, End) == Some(2);
    assert MatchGroup(env, three, End, 1, End) == Some(2);
  }
}
