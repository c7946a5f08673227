/**
 * `groupNodes` of lists.js: cutting a run of sibling nodes into the groups
 * that will each become one list item, and remembering the nodes that may
 * be left empty afterwards.
 */
module Grouping {
  import opened Seqs
  import opened Dom
  import opened Html

  /** A line-breaking node that is no group container, void element or
      heading: its children, not the node itself, go into the list item. */
  predicate Unwrappable(h: Oracle, d: Dom, n: NodeId) {
    LineBreaking(h, d, n)
    && !h.groupContainer(Name(d, n))
    && !h.voidType(Name(d, n))
    && !h.heading(Name(d, n))
  }

  /** What one node contributes to its group: its children when it is
      unwrapped, otherwise the node itself. */
  function Seed(h: Oracle, d: Dom, n: NodeId): seq<NodeId> {
    if Unwrappable(h, d, n) then Children(d, n) else [n]
  }

  /** The `parents` entry one iteration records: the unwrapped node itself,
      or else the node's parent (null for a parentless node). */
  function Owner(h: Oracle, d: Dom, n: NodeId): Option<NodeId> {
    if Unwrappable(h, d, n) then Some(n) else Parent(d, n)
  }

  /** No node of `xs` is line-breaking. */
  predicate NoBreak(h: Oracle, d: Dom, xs: seq<NodeId>) {
    forall i | 0 <= i < |xs| :: !LineBreaking(h, d, xs[i])
  }

  datatype Grouping = Grouping(groups: seq<seq<NodeId>>, parents: seq<Option<NodeId>>)

  /**
   * `groupNodes(siblings)`. Each iteration takes the first remaining node,
   * seeds a collection with it (or with its children when it is unwrapped),
   * adds the inline nodes that follow it up to the next line-breaking one,
   * and keeps the collection only when it is not empty. Every iteration
   * records one `parents` entry.
   */
  function GroupNodes(h: Oracle, d: Dom, xs: seq<NodeId>): (r: Grouping)
    ensures forall k | 0 <= k < |r.groups| :: |r.groups[k]| > 0
    ensures |r.groups| <= |r.parents| <= |xs|
    ensures |xs| > 0 ==> |r.parents| > 0 && r.parents[0] == Owner(h, d, xs[0])
    decreases |xs|
  {
    if |xs| == 0 then Grouping([], [])
    else
      var split := SplitAtBreak(h, d, xs[1..]);
      var collection := Seed(h, d, xs[0]) + split.0;
      var rest := GroupNodes(h, d, split.1);
      Grouping((if |collection| > 0 then [collection] else []) + rest.groups,
               [Owner(h, d, xs[0])] + rest.parents)
  }

  // ---------------------------------------------------------------------------
  // Reference definitions

  /** Every node replaced by what it contributes: the content the groups hold. */
  function Expand(h: Oracle, d: Dom, xs: seq<NodeId>): seq<NodeId> {
    if |xs| == 0 then [] else Seed(h, d, xs[0]) + Expand(h, d, xs[1..])
  }

  /** The line-breaking nodes of `xs`, in order. */
  function Breaks(h: Oracle, d: Dom, xs: seq<NodeId>): seq<NodeId> {
    if |xs| == 0 then []
    else (if LineBreaking(h, d, xs[0]) then [xs[0]] else []) + Breaks(h, d, xs[1..])
  }

  /** The nodes an iteration starts at: the first node and every later
      line-breaking one. */
  function Starts(h: Oracle, d: Dom, xs: seq<NodeId>): seq<NodeId> {
    if |xs| == 0 then [] else [xs[0]] + Breaks(h, d, xs[1..])
  }

  function Owners(h: Oracle, d: Dom, ns: seq<NodeId>): (r: seq<Option<NodeId>>)
    ensures |r| == |ns|
    ensures forall i | 0 <= i < |ns| :: r[i] == Owner(h, d, ns[i])
  {
    if |ns| == 0 then [] else [Owner(h, d, ns[0])] + Owners(h, d, ns[1..])
  }

  // ---------------------------------------------------------------------------
  // Helper facts

  lemma {:induction false} ExpandAppend(h: Oracle, d: Dom, a: seq<NodeId>, b: seq<NodeId>)
    ensures Expand(h, d, a + b) == Expand(h, d, a) + Expand(h, d, b)
  {
    if |a| == 0 {
      assert a + b == b;
    } else {
      assert (a + b)[1..] == a[1..] + b;
      ExpandAppend(h, d, a[1..], b);
      assert Expand(h, d, a + b) == Seed(h, d, a[0]) + (Expand(h, d, a[1..]) + Expand(h, d, b));
    }
  }

  /** Inline nodes contribute themselves. */
  lemma {:induction false} ExpandInline(h: Oracle, d: Dom, xs: seq<NodeId>)
    requires NoBreak(h, d, xs)
    ensures Expand(h, d, xs) == xs
  {
    if |xs| > 0 {
      assert !LineBreaking(h, d, xs[0]);
      ExpandInline(h, d, xs[1..]);
    }
  }

  lemma {:induction false} BreaksAppend(h: Oracle, d: Dom, a: seq<NodeId>, b: seq<NodeId>)
    ensures Breaks(h, d, a + b) == Breaks(h, d, a) + Breaks(h, d, b)
  {
    if |a| == 0 {
      assert a + b == b;
    } else {
      var head := if LineBreaking(h, d, a[0]) then [a[0]] else [];
      assert (a + b)[1..] == a[1..] + b;
      BreaksAppend(h, d, a[1..], b);
      assert Breaks(h, d, a + b) == head + (Breaks(h, d, a[1..]) + Breaks(h, d, b));
    }
  }

  lemma {:induction false} BreaksInline(h: Oracle, d: Dom, xs: seq<NodeId>)
    requires NoBreak(h, d, xs)
    ensures Breaks(h, d, xs) == []
  {
    if |xs| > 0 {
      assert !LineBreaking(h, d, xs[0]);
      BreaksInline(h, d, xs[1..]);
    }
  }

  /** After an inline run is split off, the rest starts exactly at the
      line-breaking nodes of the whole. */
  lemma StartsOfRest(h: Oracle, d: Dom, ys: seq<NodeId>)
    ensures Starts(h, d, SplitAtBreak(h, d, ys).1) == Breaks(h, d, ys)
  {
    var split := SplitAtBreak(h, d, ys);
    BreaksAppend(h, d, split.0, split.1);
    BreaksInline(h, d, split.0);
    if |split.1| > 0 {
      assert LineBreaking(h, d, split.1[0]);
    }
  }

  // ---------------------------------------------------------------------------
  // Properties of groupNodes

  /** One step of `GroupNodes`, flattened. */
  lemma GroupFlatStep(h: Oracle, d: Dom, xs: seq<NodeId>)
    requires |xs| > 0
    ensures Flatten(GroupNodes(h, d, xs).groups)
         == Seed(h, d, xs[0]) + SplitAtBreak(h, d, xs[1..]).0
            + Flatten(GroupNodes(h, d, SplitAtBreak(h, d, xs[1..]).1).groups)
  {
    var split := SplitAtBreak(h, d, xs[1..]);
    var collection := Seed(h, d, xs[0]) + split.0;
    var rest := GroupNodes(h, d, split.1);
    var head := if |collection| > 0 then [collection] else [];
    assert GroupNodes(h, d, xs).groups == head + rest.groups;
    FlattenAppend(head, rest.groups);
    assert Flatten(head) == collection by {
      if |collection| > 0 {
        assert Flatten(head) == collection + Flatten(head[1..]);
      }
    }
  }

  /** One step of `Expand`, cut where `GroupNodes` cuts. */
  lemma ExpandStep(h: Oracle, d: Dom, xs: seq<NodeId>)
    requires |xs| > 0
    ensures Expand(h, d, xs)
         == Seed(h, d, xs[0]) + SplitAtBreak(h, d, xs[1..]).0
            + Expand(h, d, SplitAtBreak(h, d, xs[1..]).1)
  {
    var split := SplitAtBreak(h, d, xs[1..]);
    assert Expand(h, d, xs[1..]) == split.0 + Expand(h, d, split.1) by {
      assert xs[1..] == split.0 + split.1;
      ExpandAppend(h, d, split.0, split.1);
      ExpandInline(h, d, split.0);
    }
  }

  /** The groups hold exactly the input, in order, with every unwrapped node
      replaced by its children. */
  lemma {:induction false} GroupContent(h: Oracle, d: Dom, xs: seq<NodeId>)
    ensures Flatten(GroupNodes(h, d, xs).groups) == Expand(h, d, xs)
    decreases |xs|
  {
    if |xs| > 0 {
      GroupContent(h, d, SplitAtBreak(h, d, xs[1..]).1);
      GroupFlatStep(h, d, xs);
      ExpandStep(h, d, xs);
    }
  }

  /** One `parents` entry per iteration, and the iterations start at the
      first node and at each later line-breaking node. */
  lemma {:induction false} GroupParents(h: Oracle, d: Dom, xs: seq<NodeId>)
    ensures GroupNodes(h, d, xs).parents == Owners(h, d, Starts(h, d, xs))
    decreases |xs|
  {
    if |xs| > 0 {
      var split := SplitAtBreak(h, d, xs[1..]);
      GroupParents(h, d, split.1);
      StartsOfRest(h, d, xs[1..]);
    }
  }

  /** `g` is the contribution of `s` followed by inline nodes only. */
  predicate SeededBy(h: Oracle, d: Dom, g: seq<NodeId>, s: NodeId) {
    |Seed(h, d, s)| <= |g| && g[..|Seed(h, d, s)|] == Seed(h, d, s)
    && NoBreak(h, d, g[|Seed(h, d, s)|..])
  }

  /** Every group is the contribution of one iteration's start node followed
      only by inline nodes. */
  lemma {:induction false} GroupTails(h: Oracle, d: Dom, xs: seq<NodeId>)
    ensures forall g | g in GroupNodes(h, d, xs).groups ::
      exists s | s in Starts(h, d, xs) :: SeededBy(h, d, g, s)
    decreases |xs|
  {
    if |xs| > 0 {
      var split := SplitAtBreak(h, d, xs[1..]);
      var collection := Seed(h, d, xs[0]) + split.0;
      var rest := GroupNodes(h, d, split.1);
      GroupTails(h, d, split.1);
      StartsOfRest(h, d, xs[1..]);
      assert SeededBy(h, d, collection, xs[0]) by {
        assert collection[|Seed(h, d, xs[0])|..] == split.0;
      }
      forall g | g in GroupNodes(h, d, xs).groups
        ensures exists s | s in Starts(h, d, xs) :: SeededBy(h, d, g, s)
      {
        if g in rest.groups {
          var s :| s in Starts(h, d, split.1) && SeededBy(h, d, g, s);
          assert s in Starts(h, d, xs);
        } else {
          assert g == collection;
          assert xs[0] in Starts(h, d, xs);
        }
      }
    }
  }
}
