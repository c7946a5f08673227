/**
 * `format` of lists.js: wrapping the blocks a selection touches into a new
 * list.
 */
module Format {
  import opened Seqs
  import opened Dom
  import opened Html
  import opened Siblings
  import opened Cleanup
  import opened Builder

  /** A position in the tree: a container and an offset inside it. */
  datatype Boundary = Boundary(container: NodeId, offset: nat)

  /** The host's `Boundaries` navigation, which is not part of this model:
      the node after and before a boundary, and the deepest node containing
      two boundaries. */
  datatype Navigator = Navigator(
    nextNode: (Dom, Boundary) -> NodeId,
    prevNode: (Dom, Boundary) -> NodeId,
    commonContainer: (Dom, Boundary, Boundary) -> NodeId)

  /** Whether the climb from an inline common container goes on: the node
      has a parent that is inline and not the editing host. */
  predicate InsideInline(h: Oracle, d: Dom, n: NodeId) {
    Parent(d, n).Some? && !LineBreaking(h, d, Parent(d, n).value) && !IsEditingHost(h, Parent(d, n))
  }

  /** An inline common container: its highest ancestor-or-self whose parent
      is line-breaking or the editing host (or that has no parent). */
  function BlockChild(h: Oracle, d: Dom, cac: NodeId): (r: Result<NodeId>)
    ensures r.Success? ==> Parent(d, r.value).None? || LineBreaking(h, d, Parent(d, r.value).value)
                           || IsEditingHost(h, Parent(d, r.value))
    ensures r.Success? ==> exists k: nat :: Up(d, cac, k) == Some(r.value)
                                         && Passes(d, cac, k, (x: NodeId) => InsideInline(h, d, x))
    ensures !InsideInline(h, d, cac) ==> r == Success(cac)
    ensures r.Failure? ==> r.error == Diverges
  {
    ClimbNeedsParent(d, Some(cac), (x: NodeId) => InsideInline(h, d, x), {});
    var c := UpWhile(d, Some(cac), (x: NodeId) => InsideInline(h, d, x));
    Landed(c)
  }

  /** `isLimit` of `format`, negated: the climb from a boundary's node stops
      at the common container, at a child of it, or at a parentless node. */
  predicate BelowChild(d: Dom, cac: NodeId, n: NodeId) {
    n != cac && Parent(d, n).Some? && Parent(d, n).value != cac
  }

  function ChildOf(d: Dom, cac: NodeId, n: NodeId): (r: Result<NodeId>)
    ensures r.Success? ==> r.value == cac || Parent(d, r.value).None? || Parent(d, r.value).value == cac
    ensures r.Success? ==> exists k: nat :: Up(d, n, k) == Some(r.value)
                                         && Passes(d, n, k, (x: NodeId) => BelowChild(d, cac, x))
    ensures !BelowChild(d, cac, n) ==> r == Success(n)
    ensures r.Failure? ==> r.error == Diverges
  {
    ClimbNeedsParent(d, Some(n), (x: NodeId) => BelowChild(d, cac, x), {});
    var c := UpWhile(d, Some(n), (x: NodeId) => BelowChild(d, cac, x));
    Landed(c)
  }

  /** When one climb reached the common container itself, the other node
      stands for both ends. */
  function Extremal(cac: NodeId, s: NodeId, e: NodeId): (r: (NodeId, NodeId))
    ensures r.0 == cac <==> s == cac && e == cac
    ensures r.1 == cac <==> s == cac && e == cac
    ensures s != cac && e != cac ==> r == (s, e)
    ensures s == cac || e == cac ==> r.0 == r.1 && (r.0 == s || r.0 == e)
  {
    if s == cac then (e, e)
    else if e == cac then (s, s)
    else (s, e)
  }

  /** The first and last sibling the new list is built around. */
  function Targets(h: Oracle, nav: Navigator, d: Dom, start: Boundary, end: Boundary): (r: Result<(NodeId, NodeId)>)
    ensures start == end && r.Success? ==> r.value.0 == r.value.1 && !HasInlineStyle(h, d, r.value.0)
    ensures start == end ==>
      var n := InlineRoot(h, d, nav.nextNode(d, start));
      (r.Success? <==> n.Success?) && (r.Success? ==> r.value == (n.value, n.value))
    ensures start != end && !LineBreaking(h, d, nav.commonContainer(d, start, end)) ==>
      var n := BlockChild(h, d, nav.commonContainer(d, start, end));
      (r.Success? <==> n.Success?) && (r.Success? ==> r.value == (n.value, n.value))
    ensures start != end && LineBreaking(h, d, nav.commonContainer(d, start, end)) ==>
      var cac := nav.commonContainer(d, start, end);
      var s := ChildOf(d, cac, nav.nextNode(d, start));
      var e := ChildOf(d, cac, nav.prevNode(d, end));
      (r.Success? <==> s.Success? && e.Success?)
      && (r.Success? ==> r.value == Extremal(cac, s.value, e.value))
  {
    if start == end then
      match InlineRoot(h, d, nav.nextNode(d, start))
      case Failure(e) => Failure(e)
      case Success(n) => Success((n, n))
    else
      var cac := nav.commonContainer(d, start, end);
      if !LineBreaking(h, d, cac) then
        match BlockChild(h, d, cac)
        case Failure(e) => Failure(e)
        case Success(n) => Success((n, n))
      else
        match ChildOf(d, cac, nav.nextNode(d, start))
        case Failure(e) => Failure(e)
        case Success(s) =>
          match ChildOf(d, cac, nav.prevNode(d, end))
          case Failure(e) => Failure(e)
          case Success(e) => Success(Extremal(cac, s, e))
  }

  /**
   * `format(type, start, end)`: checks that `type` names a list container,
   * then builds a list around the collected siblings. The boundaries come
   * back unchanged, and any failure leaves the tree as it was.
   */
  function Format(h: Oracle, nav: Navigator, ty: string, d: Dom, start: Boundary, end: Boundary)
    : (r: Outcome<(Boundary, Boundary)>)
    ensures !h.listContainer(Upper(ty)) ==> r == Thrown(InvalidListType, d)
    ensures r.Ok? ==> r.value == (start, end)
    ensures r.Thrown? ==> r.dom == d
    ensures h.listContainer(Upper(ty)) && Targets(h, nav, d, start, end).Failure? ==>
      r == Thrown(Targets(h, nav, d, start, end).error, d)
  {
    if !h.listContainer(Upper(ty)) then Thrown(InvalidListType, d)
    else match Targets(h, nav, d, start, end)
      case Failure(e) => Thrown(e, d)
      case Success(t) =>
        match Build(h, ty, d, CollectSiblings(h, d, t.0, t.1))
        case Thrown(e, d1) => Thrown(e, d1)
        case Ok(_, d1) => Ok((start, end), d1)
  }

  /**
   * Over a list type, found targets and an anchor whose parent allows the
   * nesting, `format` succeeds with the boundaries it was given, and the
   * tree it leaves is the cleanup of one in which a new element of the type
   * sits under the anchor's parent and its items hold the grouped siblings
   * collected between the targets.
   */
  lemma FormatLists(h: Oracle, nav: Navigator, ty: string, d: Dom, start: Boundary, end: Boundary,
                    anchor: NodeId, host: NodeId)
    requires h.listContainer(Upper(ty))
    requires Targets(h, nav, d, start, end).Success?
    requires var t := Targets(h, nav, d, start, end).value;
      var nodes := CollectSiblings(h, d, t.0, t.1);
      Anchor(h, d, nodes[0]) == Success(anchor) && Parent(d, anchor) == Some(host)
      && h.allowsNesting(Name(d, host), ty) && anchor < d.next && host < d.next
      && NoDup(Flatten(Assemble(h, ty, d, nodes, anchor).grouping.groups))
      && Settled(d, Flatten(Assemble(h, ty, d, nodes, anchor).grouping.groups))
    ensures var t := Targets(h, nav, d, start, end).value;
      var nodes := CollectSiblings(h, d, t.0, t.1);
      var a := Assemble(h, ty, d, nodes, anchor);
      Format(h, nav, ty, d, start, end) == Ok((start, end), RemoveAll(h, a.dom, a.grouping.parents))
      && Name(a.dom, a.list) == Upper(ty) && Shaped(a, host, Given(h, ty, d, nodes, anchor))
  {
    var t := Targets(h, nav, d, start, end).value;
    BuildLists(h, ty, d, CollectSiblings(h, d, t.0, t.1), anchor, host);
  }

  /** Where the anchor's parent does not allow a list of the type, `format`
      throws before touching the tree. */
  lemma FormatRefuses(h: Oracle, nav: Navigator, ty: string, d: Dom, start: Boundary, end: Boundary,
                      anchor: NodeId, host: NodeId)
    requires h.listContainer(Upper(ty))
    requires Targets(h, nav, d, start, end).Success?
    requires var t := Targets(h, nav, d, start, end).value;
      Anchor(h, d, CollectSiblings(h, d, t.0, t.1)[0]) == Success(anchor) && Parent(d, anchor) == Some(host)
    requires !h.allowsNesting(Name(d, host), ty)
    ensures Format(h, nav, ty, d, start, end) == Thrown(IllegalNesting, d)
  {
  }
}
