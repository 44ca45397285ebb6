/** string.split, string.join and string.replace of sqbaselib.cpp, over byte strings that may hold NUL. */
module StringLib {
  import opened Seqs

  type Bytes = seq<char>

  const NUL := '\0'

  // ---------- comparing ----------

  lemma SliceOfSlice(s: Bytes, i: nat, j: nat, a: nat, b: nat)
    requires i <= j <= |s| && a <= b <= j - i
    ensures s[i..j][a..b] == s[i + a..i + b]
  {
    var x, y := s[i..j][a..b], s[i + a..i + b];
    forall k | 0 <= k < |x| ensures x[k] == y[k] {
      assert x[k] == s[i..j][a + k] == s[i + (a + k)];
    }
  }

  predicate SameAt(s: Bytes, pos: nat, sep: Bytes)
    requires pos + |sep| <= |s|
  {
    s[pos..pos + |sep|] == sep
  }

  /** strncmp(s + pos, sep, |sep|) == 0: bytes behind a common NUL are not looked at. */
  predicate StrNCmpAt(s: Bytes, pos: nat, sep: Bytes, i: nat)
    requires pos + |sep| <= |s| && i <= |sep|
    decreases |sep| - i
  {
    if i == |sep| then true
    else if s[pos + i] != sep[i] then false
    else if sep[i] == NUL then true
    else StrNCmpAt(s, pos, sep, i + 1)
  }

  /** No NUL before the last byte: the condition under which strncmp compares all of `sep`. */
  ghost predicate NoInnerNul(sep: Bytes) {
    forall i :: 0 <= i < |sep| - 1 ==> sep[i] != NUL
  }

  lemma {:induction false} StrNCmpExact(s: Bytes, pos: nat, sep: Bytes, i: nat)
    requires pos + |sep| <= |s| && i <= |sep| && NoInnerNul(sep)
    ensures StrNCmpAt(s, pos, sep, i) <==> s[pos + i..pos + |sep|] == sep[i..]
    decreases |sep| - i
  {
    if i < |sep| {
      StrNCmpExact(s, pos, sep, i + 1);
      assert s[pos + i..pos + |sep|] == [s[pos + i]] + s[pos + i + 1..pos + |sep|];
      assert sep[i..] == [sep[i]] + sep[i + 1..];
    }
  }

  /** How a separator is looked for: memcmp (`strict`) or strncmp. */
  predicate Hit(strict: bool, s: Bytes, pos: nat, sep: Bytes)
    requires pos + |sep| <= |s|
  {
    if strict then SameAt(s, pos, sep) else StrNCmpAt(s, pos, sep, 0)
  }

  /** Whatever the separator, strncmp misses no occurrence of it. */
  lemma {:induction false} SameIsHit(s: Bytes, pos: nat, sep: Bytes, i: nat)
    requires pos + |sep| <= |s| && i <= |sep| && SameAt(s, pos, sep)
    ensures StrNCmpAt(s, pos, sep, i)
    decreases |sep| - i
  {
    if i < |sep| {
      assert s[pos + i] == s[pos..pos + |sep|][i];
      SameIsHit(s, pos, sep, i + 1);
    }
  }

  lemma HitExact(strict: bool, s: Bytes, pos: nat, sep: Bytes)
    requires pos + |sep| <= |s| && (strict || NoInnerNul(sep))
    ensures Hit(strict, s, pos, sep) == SameAt(s, pos, sep)
  {
    if !strict {
      StrNCmpExact(s, pos, sep, 0);
    }
  }

  // ---------- the functions ----------

  /** The parts from `start` on, with everything before `pos` scanned. */
  function SplitFrom(strict: bool, s: Bytes, sep: Bytes, start: nat, pos: nat): (parts: seq<Bytes>)
    requires start <= pos <= |s| && |sep| > 0
    ensures |parts| > 0
    decreases |s| - pos
  {
    if pos + |sep| > |s| then [s[start..]]
    else if Hit(strict, s, pos, sep) then
      [s[start..pos]] + SplitFrom(strict, s, sep, pos + |sep|, pos + |sep|)
    else SplitFrom(strict, s, sep, start, pos + 1)
  }

  function Split(s: Bytes, sep: Bytes): (parts: seq<Bytes>)
    requires |sep| > 0
    ensures |parts| > 0
  {
    SplitFrom(false, s, sep, 0, 0)
  }

  function Join(parts: seq<Bytes>, sep: Bytes): (s: Bytes) {
    if parts == [] then []
    else if |parts| == 1 then parts[0]
    else parts[0] + sep + Join(parts[1..], sep)
  }

  /** One step of splitting. */
  lemma SplitStep(strict: bool, s: Bytes, sep: Bytes, start: nat, pos: nat)
    requires start <= pos <= |s| && |sep| > 0
    ensures SplitFrom(strict, s, sep, start, pos)
         == if pos + |sep| > |s| then [s[start..]]
            else if Hit(strict, s, pos, sep) then [s[start..pos]] + SplitFrom(strict, s, sep, pos + |sep|, pos + |sep|)
            else SplitFrom(strict, s, sep, start, pos + 1)
  {
    hide Hit;
  }

  // ---------- split ----------

  method StringSplit(s: Bytes, sep: Bytes) returns (ok: bool, parts: seq<Bytes>)
    ensures ok == (|sep| > 0)
    ensures ok ==> parts == Split(s, sep)
  {
    parts := [];
    if |sep| < 1 {
      return false, parts;
    }
    var start, pos := 0, 0;
    while pos <= |s|
      invariant 0 <= start <= pos <= |s|
      invariant Split(s, sep) == parts + SplitFrom(false, s, sep, start, pos)
      decreases |s| - pos
    {
      if pos + |sep| > |s| {
        parts := parts + [s[start..]];
        return true, parts;
      } else if StrNCmpAt(s, pos, sep, 0) {
        assert parts + SplitFrom(false, s, sep, start, pos) ==
               parts + [s[start..pos]] + SplitFrom(false, s, sep, pos + |sep|, pos + |sep|);
        parts := parts + [s[start..pos]];
        pos := pos + |sep|;
        start := pos;
      } else {
        pos := pos + 1;
      }
    }
  }

  /** Joining the parts gives back the text from `start` on, when the search compares whole separators. */
  lemma {:induction false} JoinSplitFrom(strict: bool, s: Bytes, sep: Bytes, start: nat, pos: nat)
    requires start <= pos <= |s| && |sep| > 0 && (strict || NoInnerNul(sep))
    ensures Join(SplitFrom(strict, s, sep, start, pos), sep) == s[start..]
    decreases |s| - pos
  {
    hide SplitFrom, Join;
    SplitStep(strict, s, sep, start, pos);
    if pos + |sep| > |s| {
      JoinOne(s[start..], sep);
    } else {
      HitExact(strict, s, pos, sep);
      if Hit(strict, s, pos, sep) {
        JoinSplitFrom(strict, s, sep, pos + |sep|, pos + |sep|);
        JoinCons(s[start..pos], SplitFrom(strict, s, sep, pos + |sep|, pos + |sep|), sep);
        assert s[start..] == s[start..pos] + s[pos..pos + |sep|] + s[pos + |sep|..];
      } else {
        JoinSplitFrom(strict, s, sep, start, pos + 1);
      }
    }
  }

  ghost predicate Contains(part: Bytes, sep: Bytes) {
    exists i :: 0 <= i && i + |sep| <= |part| && SameAt(part, i, sep)
  }

  lemma {:induction false} NoPartContains(s: Bytes, sep: Bytes, start: nat, pos: nat)
    requires start <= pos <= |s| && |sep| > 0
    requires forall i {:trigger SameAt(s, i, sep)} :: start <= i < pos && i + |sep| <= |s| ==> !SameAt(s, i, sep)
    ensures forall p :: p in SplitFrom(false, s, sep, start, pos) ==> !Contains(p, sep)
    decreases |s| - pos
  {
    if pos + |sep| > |s| {
      NoMatchInside(s, sep, start, |s|);
      assert s[start..|s|] == s[start..];
    } else {
      if SameAt(s, pos, sep) {
        SameIsHit(s, pos, sep, 0);
      }
      if Hit(false, s, pos, sep) {
        NoMatchInside(s, sep, start, pos);
        NoPartContains(s, sep, pos + |sep|, pos + |sep|);
      } else {
        NoPartContains(s, sep, start, pos + 1);
      }
    }
  }

  lemma NoMatchInside(s: Bytes, sep: Bytes, start: nat, end: nat)
    requires start <= end <= |s| && |sep| > 0
    requires forall i {:trigger SameAt(s, i, sep)} :: start <= i && i + |sep| <= end ==> !SameAt(s, i, sep)
    ensures !Contains(s[start..end], sep)
  {
    var part := s[start..end];
    forall i | 0 <= i && i + |sep| <= |part| ensures !SameAt(part, i, sep) {
      assert !SameAt(s, start + i, sep);
      SliceOfSlice(s, start, end, i, i + |sep|);
    }
  }

  /** A text with the separator's bytes up to its inner NUL, but not all of them, is cut as if it were the separator. */
  lemma NulCut(sep: Bytes, j: nat)
    requires j < |sep| - 1 && sep[j] == NUL
    ensures exists s :: Join(Split(s, sep), sep) != s
  {
    hide SplitFrom, Join;
    var n := |sep|;
    var s := sep[n - 1 := if sep[n - 1] == 'a' then 'b' else 'a'];
    assert Hit(false, s, 0, sep) by { StopsAtNul(s, sep, j, 0); }
    var e: Bytes := [];
    SplitStep(false, s, sep, 0, 0);
    SplitStep(false, s, sep, n, n);
    assert s[n..] == e && s[0..0] == e;
    assert Split(s, sep) == [e] + [e];
    JoinCons(e, [e], sep);
    JoinOne(e, sep);
    assert Join(Split(s, sep), sep) == sep;
    assert s[n - 1] != sep[n - 1];
  }

  lemma {:induction false} StopsAtNul(s: Bytes, sep: Bytes, j: nat, i: nat)
    requires |s| == |sep| && i <= j < |sep| && sep[j] == NUL && s[..j + 1] == sep[..j + 1]
    ensures StrNCmpAt(s, 0, sep, i)
    decreases j - i
  {
    assert s[i] == s[..j + 1][i] == sep[..j + 1][i] == sep[i];
    if i < j && sep[i] != NUL {
      StopsAtNul(s, sep, j, i + 1);
    }
  }

  /** Joining what split returned gives the original for every text, exactly when the separator has no NUL
      before its last byte. */
  lemma SplitJoin(sep: Bytes)
    requires |sep| > 0
    ensures (forall s :: Join(Split(s, sep), sep) == s) <==> NoInnerNul(sep)
  {
    if NoInnerNul(sep) {
      forall s ensures Join(Split(s, sep), sep) == s {
        JoinSplitFrom(false, s, sep, 0, 0);
        assert s[0..] == s;
      }
    } else {
      var j :| 0 <= j < |sep| - 1 && sep[j] == NUL;
      NulCut(sep, j);
    }
  }

  /** No part holds the separator, whatever bytes it is made of. */
  lemma PartsAreClean(s: Bytes, sep: Bytes)
    requires |sep| > 0
    ensures forall p :: p in Split(s, sep) ==> !Contains(p, sep)
  {
    NoPartContains(s, sep, 0, 0);
  }

  /** In `part` followed by the separator, the separator occurs at the end and nowhere before. */
  ghost predicate EndsFirst(part: Bytes, sep: Bytes) {
    forall i :: 0 <= i < |part| ==> !SameAt(part + sep, i, sep)
  }

  /** Every part but the last reaches to the next occurrence of the separator. */
  ghost predicate Leftmost(parts: seq<Bytes>, sep: Bytes) {
    && |parts| > 0 && !Contains(parts[|parts| - 1], sep)
    && forall k :: 0 <= k < |parts| - 1 ==> EndsFirst(parts[k], sep)
  }

  /** No occurrence starts in [start, pos). */
  ghost predicate NoneFrom(s: Bytes, sep: Bytes, start: nat, pos: nat) {
    forall i {:trigger SameAt(s, i, sep)} :: start <= i < pos && i + |sep| <= |s| ==> !SameAt(s, i, sep)
  }

  lemma PartEndsFirst(s: Bytes, sep: Bytes, start: nat, pos: nat)
    requires start <= pos && pos + |sep| <= |s| && SameAt(s, pos, sep)
    ensures EndsFirst(s[start..pos], sep) <==> NoneFrom(s, sep, start, pos)
  {
    var part := s[start..pos];
    assert part + sep == s[start..pos + |sep|];
    forall i | 0 <= i < |part| ensures SameAt(part + sep, i, sep) == SameAt(s, start + i, sep) {
      SliceOfSlice(s, start, pos + |sep|, i, i + |sep|);
    }
    if EndsFirst(part, sep) {
      forall i | start <= i < pos && i + |sep| <= |s| ensures !SameAt(s, i, sep) {
        assert !SameAt(part + sep, i - start, sep);
      }
    }
  }

  lemma {:induction false} SplitIsLeftmost(s: Bytes, sep: Bytes, start: nat, pos: nat)
    requires start <= pos <= |s| && |sep| > 0 && NoInnerNul(sep) && NoneFrom(s, sep, start, pos)
    ensures Leftmost(SplitFrom(false, s, sep, start, pos), sep)
    decreases |s| - pos
  {
    hide SplitFrom, EndsFirst, Contains;
    SplitStep(false, s, sep, start, pos);
    if pos + |sep| > |s| {
      NoMatchInside(s, sep, start, |s|);
      assert s[start..|s|] == s[start..];
    } else {
      HitExact(false, s, pos, sep);
      if Hit(false, s, pos, sep) {
        PartEndsFirst(s, sep, start, pos);
        SplitIsLeftmost(s, sep, pos + |sep|, pos + |sep|);
      } else {
        SplitIsLeftmost(s, sep, start, pos + 1);
      }
    }
  }

  /** The scan runs to the next occurrence, or to the end if there is none. */
  lemma {:induction false} ScanTo(s: Bytes, sep: Bytes, start: nat, pos: nat, k: nat)
    requires start <= pos <= k <= |s| && |sep| > 0 && NoInnerNul(sep) && NoneFrom(s, sep, pos, k)
    requires if k + |sep| <= |s| then SameAt(s, k, sep) else k == |s|
    ensures SplitFrom(false, s, sep, start, pos)
         == if k + |sep| <= |s| then [s[start..k]] + SplitFrom(false, s, sep, k + |sep|, k + |sep|) else [s[start..]]
    decreases k - pos
  {
    hide SplitFrom;
    SplitStep(false, s, sep, start, pos);
    if pos + |sep| <= |s| {
      HitExact(false, s, pos, sep);
      if pos < k {
        ScanTo(s, sep, start, pos + 1, k);
      }
    }
  }

  lemma {:induction false} LeftmostIsSplit(s: Bytes, sep: Bytes, start: nat, parts: seq<Bytes>)
    requires start <= |s| && |sep| > 0 && NoInnerNul(sep) && Leftmost(parts, sep) && Join(parts, sep) == s[start..]
    ensures SplitFrom(false, s, sep, start, start) == parts
    decreases |parts|
  {
    hide SplitFrom, EndsFirst, Contains, Join;
    if |parts| == 1 {
      assert parts == [parts[0]];
      JoinOne(parts[0], sep);
      NoneInside(s, sep, start);
      ScanTo(s, sep, start, start, |s|);
    } else {
      var rest := parts[1..];
      assert parts == [parts[0]] + rest;
      JoinCons(parts[0], rest, sep);
      var k := start + |parts[0]|;
      var tail := Join(rest, sep);
      assert s[start..] == parts[0] + sep + tail;
      Pieces(s, start, parts[0], sep, tail);
      PartEndsFirst(s, sep, start, k);
      ScanTo(s, sep, start, start, k);
      assert Leftmost(rest, sep);
      LeftmostIsSplit(s, sep, k + |sep|, rest);
    }
  }

  lemma Pieces(s: Bytes, start: nat, part: Bytes, sep: Bytes, tail: Bytes)
    requires start <= |s| && s[start..] == part + sep + tail
    ensures var k := start + |part|;
            k + |sep| <= |s| && s[start..k] == part && s[k..k + |sep|] == sep && s[k + |sep|..] == tail
  {
    var k := start + |part|;
    assert |s| - start == |part| + |sep| + |tail|;
    assert s[start..k] == s[start..][..|part|];
    assert s[k..k + |sep|] == s[start..][|part|..|part| + |sep|];
    assert s[k + |sep|..] == s[start..][|part| + |sep|..];
  }

  lemma NoneInside(s: Bytes, sep: Bytes, start: nat)
    requires start <= |s| && |sep| > 0 && !Contains(s[start..], sep)
    ensures NoneFrom(s, sep, start, |s|)
  {
    assert s[start..|s|] == s[start..];
    forall i | start <= i < |s| && i + |sep| <= |s| ensures !SameAt(s, i, sep) {
      assert !SameAt(s[start..], i - start, sep);
      SliceOfSlice(s, start, |s|, i - start, i - start + |sep|);
    }
  }

  /** A list of parts is the split exactly when it joins to the text and takes the separators from the left. */
  lemma SplitExact(s: Bytes, sep: Bytes, parts: seq<Bytes>)
    requires |sep| > 0 && NoInnerNul(sep)
    ensures parts == Split(s, sep) <==> Leftmost(parts, sep) && Join(parts, sep) == s
  {
    hide SplitFrom, Leftmost, Join;
    assert s[0..] == s;
    SplitIsLeftmost(s, sep, 0, 0);
    JoinSplitFrom(false, s, sep, 0, 0);
    if Leftmost(parts, sep) && Join(parts, sep) == s {
      LeftmostIsSplit(s, sep, 0, parts);
    }
  }

  // ---------- join ----------

  lemma {:induction false} JoinSnoc(parts: seq<Bytes>, p: Bytes, sep: Bytes)
    ensures Join(parts + [p], sep) == if parts == [] then p else Join(parts, sep) + sep + p
  {
    if |parts| == 0 {
      assert parts + [p] == [p];
    } else {
      assert (parts + [p])[1..] == parts[1..] + [p];
      JoinSnoc(parts[1..], p, sep);
      if |parts| == 1 {
        assert (parts + [p])[1..] == [p];
      } else {
        assert parts[0] + sep + (Join(parts[1..], sep) + sep + p) == parts[0] + sep + Join(parts[1..], sep) + sep + p;
      }
    }
  }

  lemma {:induction false} JoinPrefixFits(parts: seq<Bytes>, sep: Bytes, i: nat)
    requires i <= |parts|
    ensures |Join(parts[..i], sep)| <= |Join(parts, sep)|
    decreases |parts| - i
  {
    if i < |parts| {
      assert parts[..i + 1] == parts[..i] + [parts[i]];
      JoinSnoc(parts[..i], parts[i], sep);
      JoinPrefixFits(parts, sep, i + 1);
    } else {
      assert parts[..i] == parts;
    }
  }

  method Append(res: array<char>, at: nat, bs: Bytes) returns (end: nat)
    requires at + |bs| <= res.Length
    modifies res
    ensures end == at + |bs| && res[..end] == old(res[..at]) + bs
  {
    CopyIn(res, at, bs);
    end := at + |bs|;
    assert res[..end] == res[..at] + res[at..end];
  }

  /** buf_concat fills a buffer of exactly the joined length. */
  method BufConcat(res: array<char>, parts: seq<Bytes>, sep: Bytes) returns (outPos: nat)
    requires res.Length == |Join(parts, sep)|
    modifies res
    ensures outPos == res.Length && res[..] == Join(parts, sep)
  {
    outPos := 0;
    var i := 0;
    while i < |parts|
      invariant 0 <= i <= |parts| && outPos == |Join(parts[..i], sep)| <= res.Length
      invariant res[..outPos] == Join(parts[..i], sep)
    {
      assert parts[..i + 1] == parts[..i] + [parts[i]];
      JoinSnoc(parts[..i], parts[i], sep);
      JoinPrefixFits(parts, sep, i + 1);
      if i > 0 {
        outPos := Append(res, outPos, sep);
      }
      outPos := Append(res, outPos, parts[i]);
      i := i + 1;
    }
    assert parts[..i] == parts && res[..outPos] == res[..];
  }

  /** string_join of strings: the length is computed first, then the buffer filled. */
  method StringJoin(sep: Bytes, parts: seq<Bytes>) returns (s: Bytes)
    ensures s == Join(parts, sep)
  {
    if parts == [] {
      return [];
    }
    var resLen, i := 0, 0;
    while i < |parts|
      invariant 0 <= i <= |parts| && resLen == TotalLength(parts[..i])
    {
      assert parts[..i + 1][..i] == parts[..i];
      resLen := resLen + |parts[i]|;
      i := i + 1;
    }
    assert parts[..i] == parts;
    resLen := resLen + |sep| * (|parts| - 1);
    LengthSum(parts, sep);
    var res := new char[resLen];
    var _ := BufConcat(res, parts, sep);
    s := res[..];
  }

  function TotalLength(parts: seq<Bytes>): (n: nat) {
    if parts == [] then 0 else TotalLength(parts[..|parts| - 1]) + |parts[|parts| - 1]|
  }

  lemma {:induction false} LengthSum(parts: seq<Bytes>, sep: Bytes)
    requires parts != []
    ensures |Join(parts, sep)| == TotalLength(parts) + |sep| * (|parts| - 1)
  {
    var n := |parts| - 1;
    assert parts == parts[..n] + [parts[n]];
    JoinSnoc(parts[..n], parts[n], sep);
    if n > 0 {
      LengthSum(parts[..n], sep);
      assert |sep| * n == |sep| * (n - 1) + |sep|;
    }
  }

  // ---------- replace ----------

  /** What the loop makes of the buffer `s` from `pos` on. */
  function ReplaceFrom(s: Bytes, from: Bytes, to: Bytes, pos: nat): (r: Bytes)
    requires pos <= |s| && |from| > 0
    decreases |s| - pos
  {
    if pos + |from| > |s| then s
    else if SameAt(s, pos, from) then ReplaceFrom(s[..pos] + to + s[pos + |from|..], from, to, pos + |to|)
    else ReplaceFrom(s, from, to, pos + 1)
  }

  lemma SplicedParts(s: Bytes, to: Bytes, pos: nat, n: nat)
    requires pos + n <= |s|
    ensures var s' := s[..pos] + to + s[pos + n..];
            s'[..pos + |to|] == s[..pos] + to && s'[pos + |to|..] == s[pos + n..]
  {
  }

  /** Behind a replacement the search goes on in the part of the text it did not touch. */
  lemma ReplacedTail(s: Bytes, from: Bytes, to: Bytes, pos: nat)
    requires pos + |from| <= |s| && |from| > 0
    ensures var s', p, q := s[..pos] + to + s[pos + |from|..], pos + |to|, pos + |from|;
            SplitFrom(true, s', from, p, p) == SplitFrom(true, s, from, q, q)
  {
    hide SplitFrom;
    SplicedParts(s, to, pos, |from|);
    SplitShift(s[..pos] + to + s[pos + |from|..], s, from, pos + |to|, pos + |from|, pos + |to|, pos + |from|);
  }

  lemma Regroup(s: Bytes, start: nat, pos: nat, to: Bytes, tail: Bytes)
    requires start <= pos <= |s|
    ensures s[..pos] + to + tail == s[..start] + (s[start..pos] + to + tail)
  {
    assert s[..pos] == s[..start] + s[start..pos];
  }

  lemma JoinOne(part: Bytes, sep: Bytes)
    ensures Join([part], sep) == part
  {
  }

  /** One more part in front. */
  lemma JoinCons(first: Bytes, rest: seq<Bytes>, sep: Bytes)
    requires |rest| > 0
    ensures Join([first] + rest, sep) == first + sep + Join(rest, sep)
  {
    assert ([first] + rest)[1..] == rest;
  }

  /** Replacing in place is splitting at `from` and joining with `to`. */
  lemma {:induction false} ReplaceIsSplitJoin(s: Bytes, from: Bytes, to: Bytes, start: nat, pos: nat)
    requires start <= pos <= |s| && |from| > 0
    ensures ReplaceFrom(s, from, to, pos) == s[..start] + Join(SplitFrom(true, s, from, start, pos), to)
    decreases |s| - pos
  {
    hide Join, ReplaceFrom;
    var n := |from|;
    if pos + n > |s| {
      ReplaceEnd(s, from, to, pos);
      assert s == s[..start] + Join([s[start..]], to) by { JoinOne(s[start..], to); }
    } else if SameAt(s, pos, from) {
      ReplaceStep(s, from, to, pos);
      var s', rest := s[..pos] + to + s[pos + n..], SplitFrom(true, s, from, pos + n, pos + n);
      ReplacedTail(s, from, to, pos);
      ReplaceIsSplitJoin(s', from, to, pos + |to|, pos + |to|);
      JoinCons(s[start..pos], rest, to);
      SplicedParts(s, to, pos, n);
      Regroup(s, start, pos, to, Join(rest, to));
    } else {
      ReplaceStep(s, from, to, pos);
      ReplaceIsSplitJoin(s, from, to, start, pos + 1);
    }
  }

  lemma SameSlice(s: Bytes, t: Bytes, i: nat, j: nat, a: nat, b: nat)
    requires i <= |s| && j <= |t| && s[i..] == t[j..] && a <= b <= |s| - i
    ensures j + b <= |t| && s[i + a..i + b] == t[j + a..j + b]
  {
    assert |s[i..]| == |t[j..]|;
    SliceOfSlice(s, i, |s|, a, b);
    SliceOfSlice(t, j, |t|, a, b);
    assert s[i..|s|] == s[i..] && t[j..|t|] == t[j..];
  }

  /** Splitting looks only at what is ahead. */
  lemma {:induction false} SplitShift(s: Bytes, t: Bytes, sep: Bytes, i: nat, j: nat, p: nat, q: nat)
    requires i <= p <= |s| && j <= q <= |t| && p - i == q - j && s[i..] == t[j..] && |sep| > 0
    ensures SplitFrom(true, s, sep, i, p) == SplitFrom(true, t, sep, j, q)
    decreases |s| - p
  {
    hide SplitFrom;
    assert |s[i..]| == |t[j..]|;
    SplitStep(true, s, sep, i, p);
    SplitStep(true, t, sep, j, q);
    if p + |sep| <= |s| {
      ShiftFacts(s, t, sep, i, j, p, q);
      if SameAt(s, p, sep) {
        SplitShift(s, t, sep, p + |sep|, q + |sep|, p + |sep|, q + |sep|);
      } else {
        SplitShift(s, t, sep, i, j, p + 1, q + 1);
      }
    }
  }

  lemma ShiftFacts(s: Bytes, t: Bytes, sep: Bytes, i: nat, j: nat, p: nat, q: nat)
    requires i <= p && j <= q && p + |sep| <= |s| && q <= |t| && p - i == q - j && s[i..] == t[j..]
    ensures q + |sep| <= |t| && SameAt(s, p, sep) == SameAt(t, q, sep)
    ensures s[i..p] == t[j..q] && s[p + |sep|..] == t[q + |sep|..]
  {
    var n := |sep|;
    SameSlice(s, t, i, j, p - i, p - i + n);
    SameSlice(s, t, i, j, 0, p - i);
    SameSlice(s, t, i, j, p + n - i, |s| - i);
  }

  /** memmove within a buffer. */
  method MoveWithin(buf: array<char>, dst: nat, src: nat, n: nat)
    requires dst + n <= buf.Length && src + n <= buf.Length
    modifies buf
    ensures buf[..dst] == old(buf[..dst]) && buf[dst..dst + n] == old(buf[src..src + n])
  {
    forall i | dst <= i < dst + n {
      buf[i] := buf[src + (i - dst)];
    }
  }

  /** sq_realloc to a longer buffer. */
  method Realloc(s: array<char>, size: nat) returns (s': array<char>)
    requires s.Length <= size
    ensures fresh(s') && s'.Length == size && s'[..s.Length] == s[..]
  {
    s' := new char[size](i => NUL);
    CopyIn(s', 0, s[..]);
    assert s'[0..0 + |s[..]|] == s'[..s.Length];
  }

  /** Grows the buffer if need be and moves the tail behind a gap for the new text (lines 1666 to 1672). */
  method MakeRoom(s: array<char>, len: nat, pos: nat, lenFrom: nat, lenTo: nat) returns (s': array<char>)
    requires len <= s.Length && pos + lenFrom <= len
    modifies s
    ensures len - lenFrom + lenTo <= s'.Length && (s' == s || fresh(s'))
    ensures s'[..pos] == old(s[..pos]) && s'[pos + lenTo..len - lenFrom + lenTo] == old(s[pos + lenFrom..len])
  {
    s' := s;
    if lenTo > lenFrom {
      s' := Realloc(s, s.Length + (lenTo - lenFrom));
      PrefixSlices(s[..], s'[..], pos, pos + lenFrom, len);
      assert s[..][..pos] == s[..pos] && s[..][pos + lenFrom..len] == s[pos + lenFrom..len];
    }
    ghost var head := s'[..pos];
    if lenTo != lenFrom {
      MoveWithin(s', pos + lenTo, pos + lenFrom, len - pos - lenFrom);
      assert s'[..pos] == s'[..pos + lenTo][..pos];
    }
  }

  /** One replacement at `pos` in a buffer holding `len` bytes (lines 1666 to 1675). */
  method ReplaceAt(s: array<char>, len: nat, pos: nat, lenFrom: nat, to: Bytes) returns (s': array<char>, len': nat)
    requires len <= s.Length && pos + lenFrom <= len
    modifies s
    ensures len' == len - lenFrom + |to| <= s'.Length && (s' == s || fresh(s'))
    ensures s'[..pos] == old(s[..pos]) && s'[pos..pos + |to|] == to
    ensures s'[pos + |to|..len'] == old(s[pos + lenFrom..len])
  {
    s' := MakeRoom(s, len, pos, lenFrom, |to|);
    len' := len - lenFrom + |to|;
    ghost var tail := s'[pos + |to|..];
    assert s'[pos + |to|..len'] == tail[..len' - pos - |to|];
    CopyIn(s', pos, to);
    assert s'[pos + |to|..len'] == s'[pos + |to|..][..len' - pos - |to|];
  }

  lemma PrefixSlices(s: Bytes, t: Bytes, i: nat, j: nat, k: nat)
    requires |s| <= |t| && s == t[..|s|] && i <= j <= k <= |s|
    ensures t[..i] == s[..i] && t[j..k] == s[j..k]
  {
    SliceOfSlice(t, 0, |s|, j, k);
    assert t[0..|s|] == t[..|s|];
  }

  /** replace_all on a buffer whose first `len` bytes are the text. */
  method ReplaceAll(buf: array<char>, len: nat, from: Bytes, to: Bytes) returns (s: array<char>, len': nat)
    requires len <= buf.Length && |from| > 0
    modifies buf
    ensures len' <= s.Length && s[..len'] == Join(SplitFrom(true, old(buf[..len]), from, 0, 0), to)
  {
    hide Join, SplitFrom, SameAt, ReplaceFrom;
    s, len' := buf, len;
    var pos: nat := 0;
    ghost var text := buf[..len];
    while pos + |from| <= len'
      invariant pos <= len' <= s.Length && (s == buf || fresh(s))
      invariant ReplaceFrom(text, from, to, 0) == ReplaceFrom(s[..len'], from, to, pos)
      decreases len' - pos
    {
      ghost var was := s[..len'];
      CompareAt(was, s[..], len', pos, from);
      ReplaceStep(was, from, to, pos);
      if s[pos..pos + |from|] == from {
        s, len' := ReplaceAt(s, len', pos, |from|, to);
        Rebuilt(s[..], was, from, to, pos, len');
        pos := pos + |to|;
      } else {
        pos := pos + 1;
      }
    }
    ReplaceEnd(s[..len'], from, to, pos);
    ReplaceIsSplitJoin(text, from, to, 0, 0);
    assert text[..0] + Join(SplitFrom(true, text, from, 0, 0), to) == Join(SplitFrom(true, text, from, 0, 0), to);
  }

  lemma ReplaceEnd(s: Bytes, from: Bytes, to: Bytes, pos: nat)
    requires pos <= |s| && |from| > 0 && pos + |from| > |s|
    ensures ReplaceFrom(s, from, to, pos) == s
  {
  }

  lemma ReplaceStep(s: Bytes, from: Bytes, to: Bytes, pos: nat)
    requires pos + |from| <= |s| && |from| > 0
    ensures ReplaceFrom(s, from, to, pos) ==
            if SameAt(s, pos, from) then ReplaceFrom(s[..pos] + to + s[pos + |from|..], from, to, pos + |to|)
            else ReplaceFrom(s, from, to, pos + 1)
  {
  }

  /** The three pieces ReplaceAt leaves are the text with one occurrence replaced. */
  lemma Rebuilt(buf: Bytes, was: Bytes, from: Bytes, to: Bytes, pos: nat, len: nat)
    requires pos + |from| <= |was| && pos + |to| <= len <= |buf|
    requires buf[..pos] == was[..pos] && buf[pos..pos + |to|] == to && buf[pos + |to|..len] == was[pos + |from|..]
    ensures buf[..len] == was[..pos] + to + was[pos + |from|..]
  {
    assert buf[..len] == buf[..pos] + buf[pos..pos + |to|] + buf[pos + |to|..len];
  }

  /** memcmp at `pos` of the buffer compares the text held there. */
  lemma CompareAt(text: Bytes, buf: Bytes, len: nat, pos: nat, from: Bytes)
    requires len <= |buf| && text == buf[..len] && pos + |from| <= len
    ensures SameAt(text, pos, from) == (buf[pos..pos + |from|] == from)
  {
    assert text[pos..pos + |from|] == buf[pos..pos + |from|];
  }

  /** string_replace: an empty `from` leaves the string as it is; otherwise the result is the parts between the
      occurrences of `from`, joined with `to`. */
  method StringReplace(str: Bytes, from: Bytes, to: Bytes) returns (r: Bytes)
    ensures |from| == 0 ==> r == str
    ensures |from| > 0 ==> r == Join(SplitFrom(true, str, from, 0, 0), to)
    ensures |from| > 0 && NoInnerNul(from) ==> r == Join(Split(str, from), to)
  {
    if |from| <= 0 {
      return str;
    }
    var dest := new char[|str|](i requires 0 <= i < |str| => str[i]);
    assert dest[..|str|] == str;
    var s, len := ReplaceAll(dest, |str|, from, to);
    r := s[..len];
    if NoInnerNul(from) {
      StrictOrNot(str, from, 0, 0);
    }
  }

  /** Both ways of searching cut alike when the separator has no inner NUL. */
  lemma {:induction false} StrictOrNot(s: Bytes, sep: Bytes, start: nat, pos: nat)
    requires start <= pos <= |s| && |sep| > 0 && NoInnerNul(sep)
    ensures SplitFrom(true, s, sep, start, pos) == SplitFrom(false, s, sep, start, pos)
    decreases |s| - pos
  {
    if pos + |sep| <= |s| {
      HitExact(false, s, pos, sep);
      if SameAt(s, pos, sep) {
        StrictOrNot(s, sep, pos + |sep|, pos + |sep|);
      } else {
        StrictOrNot(s, sep, start, pos + 1);
      }
    }
  }
}
