/** Singly linked bucket lists over one shared `next` column: what pushing and unlinking do to them. */
module Buckets {
  import opened Seqs

  /** `head` leads, link by link, through exactly `l`; -1 ends it. */
  ghost predicate Listed(next: seq<int>, head: int, l: seq<nat>) {
    && head == Nth(l, 0)
    && (forall i :: 0 <= i < |l| ==> l[i] < |next|)
    && (forall i {:trigger next[l[i]]} :: 0 <= i < |l| ==> next[l[i]] == Nth(l, i + 1))
  }

  /** Every head leads through its list. */
  ghost predicate AllListed(next: seq<int>, heads: seq<int>, lists: seq<seq<nat>>) {
    |heads| == |lists| && forall b :: 0 <= b < |lists| ==> Listed(next, heads[b], lists[b])
  }

  /** `home` says on which list each node is (-1: on none); each is there once. */
  ghost predicate Placed(lists: seq<seq<nat>>, home: seq<int>) {
    && (forall b, i :: 0 <= b < |lists| && 0 <= i < |lists[b]| ==> lists[b][i] < |home| && home[lists[b][i]] == b)
    && (forall x :: 0 <= x < |home| ==> -1 <= home[x] < |lists|)
    && (forall x :: 0 <= x < |home| && home[x] >= 0 ==> x in lists[home[x]])
    && (forall b :: 0 <= b < |lists| ==> Distinct(lists[b]))
  }

  /** Links of nodes off the list do not matter to it. */
  lemma ListedFrame(next: seq<int>, next': seq<int>, head: int, l: seq<nat>)
    requires Listed(next, head, l) && |next'| >= |next|
    requires forall i :: 0 <= i < |l| ==> next'[l[i]] == next[l[i]]
    ensures Listed(next', head, l)
  {
  }

  // ---------- push at the front of list b ----------

  lemma PushListed(next: seq<int>, heads: seq<int>, lists: seq<seq<nat>>, home: seq<int>, b: nat, x: nat)
    requires AllListed(next, heads, lists) && Placed(lists, home) && b < |lists|
    requires x < |next| == |home| && home[x] == -1
    ensures AllListed(next[x := heads[b]], heads[b := x], lists[b := [x] + lists[b]])
  {
    var next', heads', lists' := next[x := heads[b]], heads[b := x], lists[b := [x] + lists[b]];
    forall c | 0 <= c < |lists| ensures Listed(next', heads'[c], lists'[c]) {
      assert Listed(next, heads[c], lists[c]);
      forall i | 0 <= i < |lists[c]| ensures lists[c][i] != x { assert home[lists[c][i]] == c; }
      ListedFrame(next, next', heads[c], lists[c]);
      if c == b {
        PushOne(next', heads[b], lists[b], x);
      }
    }
  }

  lemma PushOne(next: seq<int>, head: int, l: seq<nat>, x: nat)
    requires Listed(next, head, l) && x < |next| && next[x] == head
    ensures Listed(next, x, [x] + l)
  {
    var r := [x] + l;
    forall i | 0 <= i < |r| ensures next[r[i]] == Nth(r, i + 1) {
      if i > 0 { assert next[l[i - 1]] == Nth(l, i); }
    }
  }

  lemma PushPlaced(lists: seq<seq<nat>>, home: seq<int>, b: nat, x: nat)
    requires Placed(lists, home) && b < |lists| && x < |home| && home[x] == -1
    ensures Placed(lists[b := [x] + lists[b]], home[x := b])
  {
    var lists', home' := lists[b := [x] + lists[b]], home[x := b];
    forall c, i | 0 <= c < |lists'| && 0 <= i < |lists'[c]| ensures lists'[c][i] < |home'| && home'[lists'[c][i]] == c {
      if c == b && i > 0 { assert lists'[c][i] == lists[b][i - 1]; }
    }
    forall c | 0 <= c < |lists'| ensures Distinct(lists'[c]) {
      if c == b {
        forall i | 0 <= i < |lists[b]| ensures lists[b][i] != x { assert home[lists[b][i]] == b; }
      }
    }
    forall y | 0 <= y < |home'| && home'[y] >= 0 ensures y in lists'[home'[y]] {
      if y != x { assert y in lists[home[y]]; }
    }
  }

  // ---------- unlink place k of list b ----------

  function UnlinkNext(next: seq<int>, l: seq<nat>, k: nat): (r: seq<int>)
    requires k < |l| && forall i :: 0 <= i < |l| ==> l[i] < |next|
    ensures |r| == |next|
  {
    if k > 0 then next[l[k - 1] := next[l[k]]] else next
  }

  function UnlinkHead(next: seq<int>, heads: seq<int>, b: nat, l: seq<nat>, k: nat): (r: seq<int>)
    requires k < |l| && b < |heads| && l[k] < |next|
    ensures |r| == |heads|
  {
    if k > 0 then heads else heads[b := next[l[k]]]
  }

  lemma UnlinkOne(next: seq<int>, head: int, l: seq<nat>, k: nat)
    requires Listed(next, head, l) && Distinct(l) && k < |l|
    ensures Listed(UnlinkNext(next, l, k), if k > 0 then head else next[l[k]], Without(l, k))
  {
    var r, next' := Without(l, k), UnlinkNext(next, l, k);
    assert next[l[k]] == Nth(l, k + 1);
    forall i | 0 <= i < |r| ensures r[i] < |next'| && next'[r[i]] == Nth(r, i + 1) {
      var o := if i < k then i else i + 1;
      assert next[l[o]] == Nth(l, o + 1);
      assert k > 0 && o != k - 1 ==> l[o] != l[k - 1];
    }
  }

  lemma UnlinkListed(next: seq<int>, heads: seq<int>, lists: seq<seq<nat>>, home: seq<int>, b: nat, k: nat)
    requires AllListed(next, heads, lists) && Placed(lists, home) && b < |lists| && k < |lists[b]|
    ensures forall i :: 0 <= i < |lists[b]| ==> lists[b][i] < |next|
    ensures AllListed(UnlinkNext(next, lists[b], k), UnlinkHead(next, heads, b, lists[b], k),
                      lists[b := Without(lists[b], k)])
  {
    var l := lists[b];
    assert Listed(next, heads[b], l);
    UnlinkOne(next, heads[b], l, k);
    forall c | 0 <= c < |lists| && c != b ensures Listed(UnlinkNext(next, l, k), heads[c], lists[c]) {
      assert Listed(next, heads[c], lists[c]);
      forall i | k > 0 && 0 <= i < |lists[c]| ensures lists[c][i] != l[k - 1] {
        assert home[lists[c][i]] == c && home[lists[b][k - 1]] == b;
      }
      ListedFrame(next, UnlinkNext(next, l, k), heads[c], lists[c]);
    }
  }

  lemma UnlinkPlaced(lists: seq<seq<nat>>, home: seq<int>, b: nat, k: nat)
    requires Placed(lists, home) && b < |lists| && k < |lists[b]|
    ensures Placed(lists[b := Without(lists[b], k)], home[lists[b][k] := -1])
  {
    var x := lists[b][k];
    var lists', home' := lists[b := Without(lists[b], k)], home[x := -1];
    WithoutMembers(lists[b], k);
    forall c, i | 0 <= c < |lists'| && 0 <= i < |lists'[c]| ensures lists'[c][i] < |home'| && home'[lists'[c][i]] == c {
      assert lists'[c][i] in lists'[c];
      assert lists'[c][i] in lists[c];
      assert home[lists'[c][i]] == c;
    }
    forall y | 0 <= y < |home'| && home'[y] >= 0 ensures y in lists'[home'[y]] {
      assert y in lists[home[y]];
    }
  }

  // ---------- columns ----------

  /** A new node, on no list yet. */
  lemma GrowColumns(next: seq<int>, heads: seq<int>, lists: seq<seq<nat>>, home: seq<int>, link: int)
    requires AllListed(next, heads, lists) && Placed(lists, home) && |next| == |home|
    ensures AllListed(next + [link], heads, lists) && Placed(lists, home + [-1])
  {
    forall b | 0 <= b < |lists| ensures Listed(next + [link], heads[b], lists[b]) {
      assert Listed(next, heads[b], lists[b]);
      ListedFrame(next, next + [link], heads[b], lists[b]);
    }
  }

  /** Relinking a node that is on none of these lists. */
  lemma RelinkOther(next: seq<int>, heads: seq<int>, lists: seq<seq<nat>>, home: seq<int>, x: nat, link: int)
    requires AllListed(next, heads, lists) && Placed(lists, home) && x < |next| == |home| && home[x] == -1
    ensures AllListed(next[x := link], heads, lists)
  {
    forall b | 0 <= b < |lists| ensures Listed(next[x := link], heads[b], lists[b]) {
      assert Listed(next, heads[b], lists[b]);
      forall i | 0 <= i < |lists[b]| ensures lists[b][i] != x { assert home[lists[b][i]] == b; }
      ListedFrame(next, next[x := link], heads[b], lists[b]);
    }
  }

  lemma NoLists(next: seq<int>, n: nat, size: nat)
    ensures AllListed(next, seq(n, _ => -1), seq(n, _ => [])) && Placed(seq(n, _ => []), seq(size, _ => -1))
  {
  }

  /** Unlinking place `k` of list `b` and pushing that node at the front of list `c`. */
  lemma MoveOver(next: seq<int>, heads: seq<int>, lists: seq<seq<nat>>, home: seq<int>, b: nat, k: nat, c: nat)
    returns (next': seq<int>, heads': seq<int>, lists': seq<seq<nat>>)
    requires AllListed(next, heads, lists) && Placed(lists, home) && |next| == |home|
    requires b < |lists| && k < |lists[b]| && c < |lists| && b != c
    ensures var l, x := lists[b], lists[b][k];
            && x < |next| && |heads| == |lists| && (k > 0 ==> l[k - 1] < |next|) && (k > 0 ==> l[k - 1] != x)
            && next' == (if k > 0 then next[l[k - 1] := next[x]] else next)[x := heads[c]]
            && heads' == (if k > 0 then heads else heads[b := next[x]])[c := x]
            && lists' == lists[b := Without(l, k)][c := [x] + lists[c]]
            && AllListed(next', heads', lists') && Placed(lists', home[x := c])
  {
    var l, x := lists[b], lists[b][k];
    UnlinkListed(next, heads, lists, home, b, k);
    UnlinkPlaced(lists, home, b, k);
    var next1, heads1 := UnlinkNext(next, l, k), UnlinkHead(next, heads, b, l, k);
    var lists1, home1 := lists[b := Without(l, k)], home[x := -1];
    PushListed(next1, heads1, lists1, home1, c, x);
    PushPlaced(lists1, home1, c, x);
    next', heads', lists' := next1[x := heads1[c]], heads1[c := x], lists1[c := [x] + lists1[c]];
    assert home1[x := c] == home[x := c];
  }
}
