/** Sequences as the models use them: lists of links, and buffers that are copied into. */
module Seqs {

  /** Place `i` of a list; -1 is the null pointer. */
  function Nth(l: seq<nat>, i: int): (c: int) {
    if 0 <= i < |l| then l[i] else -1
  }

  ghost predicate Distinct<T>(l: seq<T>) {
    forall i, j :: 0 <= i < j < |l| ==> l[i] != l[j]
  }

  function Without(l: seq<nat>, k: nat): (r: seq<nat>)
    requires k < |l|
    ensures |r| == |l| - 1
    ensures forall i :: 0 <= i < k ==> r[i] == l[i]
    ensures forall i :: k <= i < |r| ==> r[i] == l[i + 1]
  {
    l[..k] + l[k + 1..]
  }

  lemma WithoutMembers(l: seq<nat>, k: nat)
    requires k < |l| && Distinct(l)
    ensures Distinct(Without(l, k)) && forall x :: x in Without(l, k) <==> x in l && x != l[k]
  {
    var r := Without(l, k);
    forall x | x in l && x != l[k] ensures x in r {
      var i :| 0 <= i < |l| && l[i] == x;
      assert r[if i < k then i else i - 1] == x;
    }
    forall x | x in r ensures x in l && x != l[k] {
      var i :| 0 <= i < |r| && r[i] == x;
      assert l[if i < k then i else i + 1] == x;
    }
  }

  /** A list without repetitions is as long as its set of members. */
  lemma {:induction false} DistinctCount<T>(l: seq<T>, s: set<T>)
    requires Distinct(l) && forall x :: x in s <==> x in l
    ensures |s| == |l|
  {
    if l == [] {
      assert s == {};
    } else {
      var front, last := l[..|l| - 1], l[|l| - 1];
      assert last in s && last !in front;
      forall x ensures x in s - {last} <==> x in front {
        if x in l && x != last {
          var i :| 0 <= i < |l| && l[i] == x;
          assert front[i] == x;
        }
      }
      DistinctCount(front, s - {last});
    }
  }

  /** memcpy of `bs` to position `at`. */
  method CopyIn<T>(buf: array<T>, at: nat, bs: seq<T>)
    requires at + |bs| <= buf.Length
    modifies buf
    ensures buf[..at] == old(buf[..at]) && buf[at..at + |bs|] == bs && buf[at + |bs|..] == old(buf[at + |bs|..])
  {
    var i := 0;
    while i < |bs|
      invariant 0 <= i <= |bs|
      invariant buf[..at] == old(buf[..at]) && buf[at..at + i] == bs[..i] && buf[at + i..] == old(buf[at + i..])
    {
      buf[at + i] := bs[i];
      i := i + 1;
    }
  }
}
