/**
 * Node classification. The host's `Html` predicates are not part of this
 * model: they are oracles. Type predicates look only at a node's name;
 * whether a node is rendered may depend on the whole tree; the editing host
 * is a property of the node itself.
 */
module Html {
  import opened Seqs
  import opened Dom

  datatype Oracle = Oracle(
    lineBreaking: string -> bool,
    groupContainer: string -> bool,
    voidType: string -> bool,
    heading: string -> bool,
    listItem: string -> bool,
    listContainer: string -> bool,
    allowsNesting: (string, string) -> bool,
    rendered: (Dom, NodeId) -> bool,
    editingHost: NodeId -> bool)

  /** `Html.hasLinebreakingStyle`: the node starts a new line. */
  predicate LineBreaking(h: Oracle, d: Dom, n: NodeId) {
    h.lineBreaking(Name(d, n))
  }

  /** `Html.isListItem`. */
  predicate IsListItem(h: Oracle, d: Dom, n: NodeId) {
    h.listItem(Name(d, n))
  }

  /** `Html.isRendered`. */
  predicate Rendered(h: Oracle, d: Dom, n: NodeId) {
    h.rendered(d, n)
  }

  /** `Dom.isEditingHost`; a missing (null) node is no editing host. */
  predicate IsEditingHost(h: Oracle, n: Option<NodeId>) {
    n.Some? && h.editingHost(n.value)
  }

  /** An inline node that is not right below the editing host (lists.js `hasInlineStyle`). */
  predicate HasInlineStyle(h: Oracle, d: Dom, n: NodeId) {
    !LineBreaking(h, d, n) && !IsEditingHost(h, Parent(d, n))
  }

  /** Where collecting stops: a line-breaking node that is not a list item. */
  predicate IsCollectLimit(h: Oracle, d: Dom, n: NodeId) {
    !IsListItem(h, d, n) && LineBreaking(h, d, n)
  }

  /** `Arrays.split(xs, Html.hasLinebreakingStyle)`: the longest prefix free of
      line-breaking nodes, and the rest. */
  function SplitAtBreak(h: Oracle, d: Dom, xs: seq<NodeId>): (r: (seq<NodeId>, seq<NodeId>))
    ensures r.0 + r.1 == xs
    ensures forall i | 0 <= i < |r.0| :: !LineBreaking(h, d, r.0[i])
    ensures |r.1| > 0 ==> LineBreaking(h, d, r.1[0])
  {
    if |xs| == 0 || LineBreaking(h, d, xs[0]) then ([], xs)
    else
      var rest := SplitAtBreak(h, d, xs[1..]);
      assert [xs[0]] + rest.0 + rest.1 == xs;
      ([xs[0]] + rest.0, rest.1)
  }

  /** `xs.filter(Html.isRendered)`. */
  function Visible(h: Oracle, d: Dom, xs: seq<NodeId>): (r: seq<NodeId>)
    ensures forall x :: x in r <==> x in xs && Rendered(h, d, x)
    ensures |r| <= |xs|
  {
    if |xs| == 0 then []
    else (if Rendered(h, d, xs[0]) then [xs[0]] else []) + Visible(h, d, xs[1..])
  }

  /** `xs.filter(Html.isListItem)`. */
  function ListItems(h: Oracle, d: Dom, xs: seq<NodeId>): (r: seq<NodeId>)
    ensures forall x :: x in r <==> x in xs && IsListItem(h, d, x)
    ensures |r| <= |xs|
  {
    if |xs| == 0 then []
    else (if IsListItem(h, d, xs[0]) then [xs[0]] else []) + ListItems(h, d, xs[1..])
  }

  /** `xs.filter(Html.isRendered)` keeps distinct members distinct. */
  lemma {:induction false} VisibleNoDup(h: Oracle, d: Dom, xs: seq<NodeId>)
    requires NoDup(xs)
    ensures NoDup(Visible(h, d, xs))
  {
    if |xs| > 0 {
      VisibleNoDup(h, d, xs[1..]);
      var head := if Rendered(h, d, xs[0]) then [xs[0]] else [];
      var tail := Visible(h, d, xs[1..]);
      assert xs[0] !in xs[1..];
      assert xs[0] !in tail;
      assert Visible(h, d, xs) == head + tail;
    }
  }
}
