/**
 * The sibling collector of lists.js: widening a start..end span of siblings
 * outward over the adjacent inline content.
 */
module Siblings {
  import opened Seqs
  import opened Dom
  import opened Html

  /** The longest prefix of `xs` containing no node that satisfies `until`. */
  function TakeUntil(xs: seq<NodeId>, until: NodeId -> bool): (r: seq<NodeId>)
    ensures |r| <= |xs| && r == xs[..|r|]
    ensures forall i | 0 <= i < |r| :: !until(r[i])
    ensures |r| < |xs| ==> until(xs[|r|])
  {
    if |xs| == 0 || until(xs[0]) then []
    else [xs[0]] + TakeUntil(xs[1..], until)
  }

  /** The longest suffix of `xs` containing no node that satisfies `until`. */
  function TakeBackUntil(xs: seq<NodeId>, until: NodeId -> bool): (r: seq<NodeId>)
    ensures |r| <= |xs| && r == xs[|xs| - |r|..]
    ensures forall i | 0 <= i < |r| :: !until(r[i])
    ensures |r| < |xs| ==> until(xs[|xs| - |r| - 1])
  {
    if |xs| == 0 || until(xs[|xs| - 1]) then []
    else TakeBackUntil(xs[..|xs| - 1], until) + [xs[|xs| - 1]]
  }

  /** `Dom.prevSiblings(n, until)`: the siblings before `n`, walking back up to
      (not including) the first one satisfying `until`, in document order. */
  function PrevSiblings(d: Dom, n: NodeId, until: NodeId -> bool): seq<NodeId> {
    TakeBackUntil(PrevAll(d, n), until)
  }

  /** `Dom.nextSiblings(n, until)`. */
  function NextSiblings(d: Dom, n: NodeId, until: NodeId -> bool): seq<NodeId> {
    TakeUntil(NextAll(d, n), until)
  }

  /** The collect limit as a value that can be handed to the walkers. */
  function CollectLimit(h: Oracle, d: Dom): NodeId -> bool {
    (x: NodeId) => IsCollectLimit(h, d, x)
  }

  /** The test `node === end`. */
  function IsNode(end: NodeId): NodeId -> bool {
    (x: NodeId) => x == end
  }

  /** `collectSiblings(start, end)`. */
  function CollectSiblings(h: Oracle, d: Dom, start: NodeId, end: NodeId): (r: seq<NodeId>)
    ensures start in r && end in r
  {
    var nodes := PrevSiblings(d, start, CollectLimit(h, d)) + [start];
    var nodes := if start != end
      then nodes + NextSiblings(d, start, IsNode(end)) + [end]
      else nodes;
    nodes + NextSiblings(d, end, CollectLimit(h, d))
  }

  /** Where `n` sits in its row. */
  lemma RowSplit(d: Dom, n: NodeId)
    requires n in Row(d, n)
    ensures PrevAll(d, n) == Row(d, n)[..IndexOf(Row(d, n), n)]
    ensures NextAll(d, n) == Row(d, n)[IndexOf(Row(d, n), n) + 1..]
  {
  }

  /** No collect limit in row[a..b]. */
  ghost predicate InlineRun(h: Oracle, d: Dom, row: seq<NodeId>, a: nat, b: nat) {
    a <= b <= |row| && forall k | a <= k < b :: !IsCollectLimit(h, d, row[k])
  }

  /** The run starting at `a` is bounded on the left: by the row start or a limit. */
  ghost predicate StopsBefore(h: Oracle, d: Dom, row: seq<NodeId>, a: nat) {
    a <= |row| && (a > 0 ==> IsCollectLimit(h, d, row[a - 1]))
  }

  /** The run ending before `b` is bounded on the right: by the row end or a limit. */
  ghost predicate StopsAt(h: Oracle, d: Dom, row: seq<NodeId>, b: nat) {
    b <= |row| && (b < |row| ==> IsCollectLimit(h, d, row[b]))
  }

  /** The nodes collected before `row[i]`, walking back, are a slice ending at `i`. */
  lemma PrevSlice(d: Dom, n: NodeId, row: seq<NodeId>, i: nat, until: NodeId -> bool) returns (lo: nat)
    requires i <= |row| && PrevAll(d, n) == row[..i]
    ensures lo == i - |PrevSiblings(d, n, until)| && lo <= i
    ensures PrevSiblings(d, n, until) == row[lo..i]
  {
    var before := PrevSiblings(d, n, until);
    lo := i - |before|;
    assert row[..i][lo..] == row[lo..i];
  }

  /** The nodes collected after `row[j]`, walking forward, are a slice starting at j + 1. */
  lemma NextSlice(d: Dom, n: NodeId, row: seq<NodeId>, j: nat, until: NodeId -> bool) returns (hi: nat)
    requires j < |row| && NextAll(d, n) == row[j + 1..]
    ensures hi == j + 1 + |NextSiblings(d, n, until)| && hi <= |row|
    ensures NextSiblings(d, n, until) == row[j + 1..hi]
  {
    var after := NextSiblings(d, n, until);
    hi := j + 1 + |after|;
    assert row[j + 1..][..|after|] == row[j + 1..hi];
  }

  /** The run collected before `row[i]` holds no limit and stops at one. */
  lemma PrevLimits(h: Oracle, d: Dom, n: NodeId, row: seq<NodeId>, i: nat, lo: int)
    requires i <= |row| && PrevAll(d, n) == row[..i]
    requires lo == i - |PrevSiblings(d, n, CollectLimit(h, d))|
    ensures 0 <= lo <= i && InlineRun(h, d, row, lo, i) && StopsBefore(h, d, row, lo)
  {
    var before := PrevSiblings(d, n, CollectLimit(h, d));
    forall k | lo <= k < i ensures !IsCollectLimit(h, d, row[k]) {
      assert row[k] == row[..i][k];
      assert !CollectLimit(h, d)(before[k - lo]);
    }
    if lo > 0 {
      assert CollectLimit(h, d)(row[..i][lo - 1]);
    }
  }

  /** The run collected after `row[j]` holds no limit and stops at one. */
  lemma NextLimits(h: Oracle, d: Dom, n: NodeId, row: seq<NodeId>, j: nat, hi: nat)
    requires j < |row| && NextAll(d, n) == row[j + 1..]
    requires hi == j + 1 + |NextSiblings(d, n, CollectLimit(h, d))|
    ensures hi <= |row| && InlineRun(h, d, row, j + 1, hi) && StopsAt(h, d, row, hi)
  {
    var after := NextSiblings(d, n, CollectLimit(h, d));
    forall k | j + 1 <= k < hi ensures !IsCollectLimit(h, d, row[k]) {
      assert row[k] == row[j + 1..][k - j - 1];
      assert !CollectLimit(h, d)(after[k - j - 1]);
    }
    if hi < |row| {
      assert CollectLimit(h, d)(row[j + 1..][|after|]);
    }
  }

  /** Walking forward from index `i` until the first `end` at index `j`
      yields exactly the nodes strictly between them. */
  lemma BetweenSiblings(row: seq<NodeId>, i: nat, j: nat, end: NodeId)
    requires i < j < |row| && row[j] == end && forall k | i < k < j :: row[k] != end
    ensures TakeUntil(row[i + 1..], IsNode(end)) == row[i + 1..j]
  {
    var tail := row[i + 1..];
    var between := TakeUntil(tail, IsNode(end));
    assert tail[j - i - 1] == end;
    assert forall k | 0 <= k < |between| :: tail[k] != end by {
      forall k | 0 <= k < |between| ensures tail[k] != end {
        assert tail[k] == between[k];
        assert !IsNode(end)(between[k]);
      }
    }
    assert forall k | 0 <= k < j - i - 1 :: tail[k] != end by {
      forall k | 0 <= k < j - i - 1 ensures tail[k] != end {
        assert tail[k] == row[i + 1 + k];
      }
    }
    assert |between| < |tail| ==> IsNode(end)(tail[|between|]);
    assert |between| == j - i - 1;
  }

  lemma JoinOne(row: seq<NodeId>, lo: nat, i: nat, hi: nat, before: seq<NodeId>, x: NodeId, after: seq<NodeId>)
    requires lo <= i < hi <= |row| && row[i] == x
    requires before == row[lo..i] && after == row[i + 1..hi]
    ensures before + [x] + after == row[lo..hi]
  {
  }

  lemma JoinTwo(row: seq<NodeId>, lo: nat, i: nat, j: nat, hi: nat, before: seq<NodeId>, x: NodeId, mid: seq<NodeId>, y: NodeId, after: seq<NodeId>)
    requires lo <= i < j < hi <= |row| && row[i] == x && row[j] == y
    requires before == row[lo..i] && mid == row[i + 1..j] && after == row[j + 1..hi]
    ensures before + [x] + mid + [y] + after == row[lo..hi]
  {
  }

  /** The collected nodes around one node, as a slice of its row. */
  lemma OneSlice(h: Oracle, d: Dom, n: NodeId, row: seq<NodeId>, i: nat) returns (lo: nat, hi: nat)
    requires i < |row| && row[i] == n
    requires PrevAll(d, n) == row[..i] && NextAll(d, n) == row[i + 1..]
    ensures lo == i - |PrevSiblings(d, n, CollectLimit(h, d))|
    ensures hi == i + 1 + |NextSiblings(d, n, CollectLimit(h, d))|
    ensures lo <= i < hi <= |row| && CollectSiblings(h, d, n, n) == row[lo..hi]
  {
    var before := PrevSiblings(d, n, CollectLimit(h, d));
    var after := NextSiblings(d, n, CollectLimit(h, d));
    CollectOne(h, d, n);
    lo := PrevSlice(d, n, row, i, CollectLimit(h, d));
    hi := NextSlice(d, n, row, i, CollectLimit(h, d));
    JoinOne(row, lo, i, hi, before, n, after);
  }

  lemma CollectOne(h: Oracle, d: Dom, n: NodeId)
    ensures CollectSiblings(h, d, n, n)
         == PrevSiblings(d, n, CollectLimit(h, d)) + [n] + NextSiblings(d, n, CollectLimit(h, d))
  {
  }

  lemma CollectTwo(h: Oracle, d: Dom, start: NodeId, end: NodeId)
    requires start != end
    ensures CollectSiblings(h, d, start, end)
         == PrevSiblings(d, start, CollectLimit(h, d)) + [start] + NextSiblings(d, start, IsNode(end))
            + [end] + NextSiblings(d, end, CollectLimit(h, d))
  {
  }

  /** The collected nodes from `start` to a later `end`, as a slice of their row. */
  lemma TwoSlice(h: Oracle, d: Dom, start: NodeId, end: NodeId, row: seq<NodeId>, i: nat, j: nat)
      returns (lo: nat, hi: nat)
    requires i < j < |row| && row[i] == start && row[j] == end && start != end
    requires PrevAll(d, start) == row[..i] && NextSiblings(d, start, IsNode(end)) == row[i + 1..j]
    requires NextAll(d, end) == row[j + 1..]
    ensures lo == i - |PrevSiblings(d, start, CollectLimit(h, d))|
    ensures hi == j + 1 + |NextSiblings(d, end, CollectLimit(h, d))|
    ensures lo <= i && hi <= |row| && CollectSiblings(h, d, start, end) == row[lo..hi]
  {
    var before := PrevSiblings(d, start, CollectLimit(h, d));
    var mid := NextSiblings(d, start, IsNode(end));
    var after := NextSiblings(d, end, CollectLimit(h, d));
    CollectTwo(h, d, start, end);
    lo := PrevSlice(d, start, row, i, CollectLimit(h, d));
    hi := NextSlice(d, end, row, j, CollectLimit(h, d));
    JoinTwo(row, lo, i, j, hi, before, start, mid, end, after);
  }

  /** The span lemma over an explicit row, with `start` at i and `end` at j. */
  lemma SpanIn(h: Oracle, d: Dom, start: NodeId, end: NodeId, row: seq<NodeId>, i: nat, j: nat)
      returns (lo: nat, hi: nat)
    requires i <= j < |row| && row[i] == start && row[j] == end && (i == j <==> start == end)
    requires PrevAll(d, start) == row[..i] && NextAll(d, start) == row[i + 1..]
    requires NextAll(d, end) == row[j + 1..]
    requires i < j ==> NextSiblings(d, start, IsNode(end)) == row[i + 1..j]
    ensures lo <= i && j < hi <= |row| && CollectSiblings(h, d, start, end) == row[lo..hi]
    ensures InlineRun(h, d, row, lo, i) && StopsBefore(h, d, row, lo)
    ensures InlineRun(h, d, row, j + 1, hi) && StopsAt(h, d, row, hi)
  {
    if start == end {
      lo, hi := OneSlice(h, d, start, row, i);
    } else {
      lo, hi := TwoSlice(h, d, start, end, row, i, j);
    }
    PrevLimits(h, d, start, row, i, lo);
    NextLimits(h, d, end, row, j, hi);
  }

  /** Siblings share their row. */
  lemma SameRow(d: Dom, a: NodeId, b: NodeId)
    requires Parent(d, a) == Parent(d, b) && b in Row(d, a)
    ensures Row(d, b) == Row(d, a)
  {
  }

  /**
   * For two siblings `start` at or before `end`, the collected nodes are one
   * contiguous slice of their row: it reaches back from `start` and forward
   * from `end` exactly as far as no collect limit (a line-breaking node that is
   * not a list item) is met, and keeps everything between them in order.
   */
  lemma CollectSiblingsSpan(h: Oracle, d: Dom, start: NodeId, end: NodeId) returns (lo: nat, hi: nat)
    requires Parent(d, start) == Parent(d, end)
    requires start in Row(d, start) && end in Row(d, start)
    requires IndexOf(Row(d, start), start) <= IndexOf(Row(d, start), end)
    ensures lo <= IndexOf(Row(d, start), start) && IndexOf(Row(d, start), end) < hi <= |Row(d, start)|
    ensures CollectSiblings(h, d, start, end) == Row(d, start)[lo..hi]
    ensures InlineRun(h, d, Row(d, start), lo, IndexOf(Row(d, start), start))
    ensures StopsBefore(h, d, Row(d, start), lo)
    ensures InlineRun(h, d, Row(d, start), IndexOf(Row(d, start), end) + 1, hi)
    ensures StopsAt(h, d, Row(d, start), hi)
  {
    var row := Row(d, start);
    var i := IndexOf(row, start);
    var j := IndexOf(row, end);
    SameRow(d, start, end);
    RowSplit(d, start);
    RowSplit(d, end);
    if i < j {
      FirstBetween(d, start, end, row, i, j);
    }
    lo, hi := SpanIn(h, d, start, end, row, i, j);
  }

  /** The walk from `start` towards the first later `end` in its row. */
  lemma FirstBetween(d: Dom, start: NodeId, end: NodeId, row: seq<NodeId>, i: nat, j: nat)
    requires i < j < |row| && row[j] == end && end !in row[..j] && NextAll(d, start) == row[i + 1..]
    ensures NextSiblings(d, start, IsNode(end)) == row[i + 1..j]
  {
    assert forall k | i < k < j :: row[k] != end by {
      assert forall k | i < k < j :: row[k] == row[..j][k];
    }
    BetweenSiblings(row, i, j, end);
  }

  /** Collecting around a single node takes it exactly once. */
  lemma CollectAroundOne(h: Oracle, d: Dom, n: NodeId)
    requires n in Row(d, n) && NoDup(Row(d, n))
    ensures NoDup(CollectSiblings(h, d, n, n)) && n in CollectSiblings(h, d, n, n)
  {
    var lo, hi := CollectSiblingsSpan(h, d, n, n);
    var row := Row(d, n);
    SliceNoDup(row, lo, hi);
  }

  lemma SliceNoDup(row: seq<NodeId>, lo: nat, hi: nat)
    requires lo <= hi <= |row| && NoDup(row)
    ensures NoDup(row[lo..hi])
  {
    var r := row[lo..hi];
    forall a, b | 0 <= a < b < |r| ensures r[a] != r[b] {
      assert r[a] == row[lo + a] && r[b] == row[lo + b];
    }
  }
}
