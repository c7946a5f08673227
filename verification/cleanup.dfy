/**
 * `removeInvisibleNodes` of lists.js: after the grouped nodes have moved
 * into list items, the nodes they left behind are removed bottom-up for as
 * long as they are invisible.
 */
module Cleanup {
  import opened Seqs
  import opened Dom
  import opened Html

  /** Where the climb stops: a node without parent, the editing host or a
      rendered node; an empty list item never stops it. */
  predicate StopsClimb(h: Oracle, d: Dom, n: NodeId) {
    !(IsListItem(h, d, n) && |Children(d, n)| == 0)
    && (Parent(d, n).None? || h.editingHost(n) || Rendered(h, d, n))
  }

  /** The tree after the climb, the nodes removed (bottom-up) and the node
      the climb stopped at (none when it went past the root). */
  datatype Cleared = Cleared(dom: Dom, removed: seq<NodeId>, stop: Option<NodeId>)

  /**
   * `removeInvisibleNodes(node)`: removes `node`, then its former parent,
   * and so on, until a node stops the climb. Removing detaches a node from
   * its parent and keeps its own subtree.
   */
  function RemoveInvisibleNodes(h: Oracle, d: Dom, n: Option<NodeId>): (r: Cleared)
    ensures n.None? ==> r == Cleared(d, [], None)
    ensures n.Some? && StopsClimb(h, d, n.value) ==> r == Cleared(d, [], n)
    ensures n.Some? && !StopsClimb(h, d, n.value) ==>
      |r.removed| > 0 && r.removed[0] == n.value && Parent(r.dom, n.value) == None
    ensures r.stop.Some? ==> StopsClimb(h, r.dom, r.stop.value)
    ensures forall x | x in r.removed :: !h.editingHost(x) || IsListItem(h, d, x)
    ensures forall x | x in r.removed :: Parent(r.dom, x) == None
    ensures forall y: NodeId | y !in r.removed :: Parent(r.dom, y) == Parent(d, y)
    ensures forall y: NodeId :: Name(r.dom, y) == Name(d, y)
    ensures r.dom.next == d.next
    decreases Attached(d)
  {
    if n.None? then Cleared(d, [], None)
    else if StopsClimb(h, d, n.value) then Cleared(d, [], n)
    else match Parent(d, n.value)
      case None => Cleared(Detach(d, n.value), [n.value], None)
      case Some(p) =>
        DetachShrinks(d, n.value);
        var rest := RemoveInvisibleNodes(h, Detach(d, n.value), Some(p));
        Cleared(rest.dom, [n.value] + rest.removed, rest.stop)
  }

  /** One step of the climb: `n` is removed and the climb goes on at its
      former parent. */
  lemma ClimbStep(h: Oracle, d: Dom, n: NodeId, p: NodeId)
    requires !StopsClimb(h, d, n) && Parent(d, n) == Some(p)
    ensures RemoveInvisibleNodes(h, d, Some(n)).removed
         == [n] + RemoveInvisibleNodes(h, Detach(d, n), Some(p)).removed
    ensures RemoveInvisibleNodes(h, d, Some(n)).stop
         == RemoveInvisibleNodes(h, Detach(d, n), Some(p)).stop
  {
  }

  /** On a tree without cycles, the removed nodes form a parent chain in the
      original tree, and the last of them hung under the stop node (or under
      nothing, when the climb went past the root). */
  lemma {:induction false} ClimbChain(h: Oracle, d: Dom, n: Option<NodeId>, r: Cleared)
    requires r == RemoveInvisibleNodes(h, d, n)
    requires NoDup(r.removed)
    ensures forall i | 0 <= i && i + 1 < |r.removed| :: Parent(d, r.removed[i]) == Some(r.removed[i + 1])
    ensures |r.removed| > 0 ==> Parent(d, Last(r.removed)) == r.stop
    decreases Attached(d)
  {
    if |r.removed| > 0 && Parent(d, n.value).Some? {
      var p := Parent(d, n.value).value;
      DetachShrinks(d, n.value);
      var d1 := Detach(d, n.value);
      var rest := RemoveInvisibleNodes(h, d1, Some(p));
      ClimbStep(h, d, n.value, p);
      assert r.removed == [n.value] + rest.removed && r.stop == rest.stop;
      ConcatParts([n.value], rest.removed, []);
      ClimbChain(h, d1, Some(p), rest);
      ChainCons(d, d1, n.value, p, rest.removed, r.removed, r.stop);
    }
  }

  /** `xs` detached one after the other. */
  function DetachAll(d: Dom, xs: seq<NodeId>): Dom
    decreases |xs|
  {
    if |xs| == 0 then d else DetachAll(Detach(d, xs[0]), xs[1..])
  }

  lemma DetachAllCons(d: Dom, x: NodeId, xs: seq<NodeId>)
    ensures DetachAll(d, [x] + xs) == DetachAll(Detach(d, x), xs)
  {
    assert ([x] + xs)[0] == x && ([x] + xs)[1..] == xs;
  }

  /**
   * The climb removes a node only when it fails the stop test in the tree
   * as it stands when the climb reaches it, that is, with the nodes below
   * it already removed; the tree left is the original with the removed
   * nodes detached in order.
   */
  lemma {:induction false} ClimbStops(h: Oracle, d: Dom, n: Option<NodeId>, r: Cleared)
    requires r == RemoveInvisibleNodes(h, d, n)
    ensures forall i | 0 <= i < |r.removed| :: !StopsClimb(h, DetachAll(d, r.removed[..i]), r.removed[i])
    ensures r.dom == DetachAll(d, r.removed)
    decreases Attached(d)
  {
    if n.Some? && !StopsClimb(h, d, n.value) {
      var x := n.value;
      match Parent(d, x)
      case None =>
        assert r.removed == [x] && r.dom == Detach(d, x);
        StopsCons((e: Dom, y: NodeId) => StopsClimb(h, e, y), d, x, [], r.removed, Detach(d, x));
      case Some(p) =>
        DetachShrinks(d, x);
        var rest := RemoveInvisibleNodes(h, Detach(d, x), Some(p));
        ClimbStops(h, Detach(d, x), Some(p), rest);
        assert r.removed == [x] + rest.removed && r.dom == rest.dom;
        StopsCons((e: Dom, y: NodeId) => StopsClimb(h, e, y), d, x, rest.removed, r.removed, rest.dom);
    }
  }

  /** Putting a node that fails the stop test `stop` in front of the
      removals made after it was detached. */
  lemma StopsCons(stop: (Dom, NodeId) -> bool, d: Dom, x: NodeId, rest: seq<NodeId>, removed: seq<NodeId>,
                  after: Dom)
    requires removed == [x] + rest && !stop(d, x)
    requires forall i | 0 <= i < |rest| :: !stop(DetachAll(Detach(d, x), rest[..i]), rest[i])
    requires after == DetachAll(Detach(d, x), rest)
    ensures forall i | 0 <= i < |removed| :: !stop(DetachAll(d, removed[..i]), removed[i])
    ensures after == DetachAll(d, removed)
  {
    DetachAllCons(d, x, rest);
    assert removed[..0] == [];
    forall i | 0 < i < |removed|
      ensures !stop(DetachAll(d, removed[..i]), removed[i])
    {
      StopsAt(stop, d, x, rest, removed, i);
    }
  }

  /** One position of `StopsCons`. */
  lemma StopsAt(stop: (Dom, NodeId) -> bool, d: Dom, x: NodeId, rest: seq<NodeId>, removed: seq<NodeId>, i: nat)
    requires removed == [x] + rest && 0 < i < |removed|
    requires !stop(DetachAll(Detach(d, x), rest[..i - 1]), rest[i - 1])
    ensures !stop(DetachAll(d, removed[..i]), removed[i])
  {
    assert removed[i] == rest[i - 1];
    assert removed[..i] == [x] + rest[..i - 1];
    DetachAllCons(d, x, rest[..i - 1]);
  }

  /** A chain in the tree after `x` was detached, with `x` put in front,
      is a chain in the tree before. */
  lemma ChainCons(d: Dom, d1: Dom, x: NodeId, p: NodeId, rest: seq<NodeId>, removed: seq<NodeId>,
                  stop: Option<NodeId>)
    requires removed == [x] + rest && NoDup(removed)
    requires Parent(d, x) == Some(p)
    requires forall y: NodeId | y != x :: Parent(d1, y) == Parent(d, y)
    requires |rest| > 0 ==> rest[0] == p
    requires |rest| == 0 ==> stop == Some(p)
    requires forall i | 0 <= i && i + 1 < |rest| :: Parent(d1, rest[i]) == Some(rest[i + 1])
    requires |rest| > 0 ==> Parent(d1, Last(rest)) == stop
    ensures forall i | 0 <= i && i + 1 < |removed| :: Parent(d, removed[i]) == Some(removed[i + 1])
    ensures Parent(d, Last(removed)) == stop
  {
    forall i | 0 <= i && i + 1 < |removed|
      ensures Parent(d, removed[i]) == Some(removed[i + 1])
    {
      if i > 0 {
        assert removed[i] == rest[i - 1] && removed[i + 1] == rest[i];
        assert removed[i] != removed[0];
      }
    }
    if |rest| > 0 {
      assert Last(removed) == Last(rest) != removed[0];
    }
  }

  function Last(s: seq<NodeId>): NodeId
    requires |s| > 0
  {
    s[|s| - 1]
  }

  /** `parents.forEach(removeInvisibleNodes)`. */
  function RemoveAll(h: Oracle, d: Dom, ps: seq<Option<NodeId>>): (r: Dom)
    ensures |ps| == 0 ==> r == d
    ensures forall y: NodeId :: Parent(r, y) == Parent(d, y) || Parent(r, y) == None
    ensures forall y: NodeId :: Name(r, y) == Name(d, y)
    ensures r.next == d.next
    decreases |ps|
  {
    if |ps| == 0 then d
    else RemoveAll(h, RemoveInvisibleNodes(h, d, ps[0]).dom, ps[1..])
  }
}
