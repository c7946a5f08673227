/**
 * `unformat` of lists.js: removing the list formatting around a selection
 * by unwrapping, from each end, the enclosing list item and every item
 * after it.
 */
module Unformat {
  import opened Seqs
  import opened Dom
  import opened Html
  import opened Format
  import opened Lines
  import opened Unwrap

  /** `nearestItem` of `unformat`: the climb passes nodes that are no list
      item and do not sit right below the editing host. */
  predicate NearestItem(h: Oracle, d: Dom, n: NodeId) {
    !IsListItem(h, d, n) && !IsEditingHost(h, Parent(d, n))
  }

  /** `Dom.upWhile(container, nearestItem)`: the list item above a
      container, or the node right below the editing host when there is
      none. Climbing past the root ends in `Html.isListItem(null)`. */
  function ItemAbove(h: Oracle, d: Dom, n: NodeId): (r: Result<NodeId>)
    ensures r.Success? ==> IsListItem(h, d, r.value) || IsEditingHost(h, Parent(d, r.value))
    ensures r.Success? ==> exists k: nat :: Up(d, n, k) == Some(r.value)
                                         && Passes(d, n, k, (x: NodeId) => NearestItem(h, d, x))
    ensures !NearestItem(h, d, n) ==> r == Success(n)
    ensures NearestItem(h, d, n) && Parent(d, n).None? ==> r == Failure(NullReference)
  {
    var c := UpWhile(d, Some(n), (x: NodeId) => NearestItem(h, d, x));
    Landed(c)
  }

  /** `Dom.nodeAndNextSiblings(n)`: the row of `n` from `n` on. */
  function NodeAndNext(d: Dom, n: NodeId): (r: seq<NodeId>)
    ensures |r| > 0 && r[0] == n
    ensures n in Row(d, n) ==> r == Row(d, n)[IndexOf(Row(d, n), n)..]
    ensures Parent(d, n).None? ==> r == [n]
  {
    var row := Row(d, n);
    var i := IndexOf(row, n);
    if i < |row| then
      assert row[i..] == [n] + row[i + 1..];
      [n] + NextAll(d, n)
    else [n] + NextAll(d, n)
  }

  /** A boundary as `unformat` returns it. Its container is undefined when
      it was taken from `lines[0]` of an empty array of lines. */
  datatype Mark = Mark(container: Option<NodeId>, offset: nat)

  /** A boundary that `unformat` hands back as it was given. */
  function At(b: Boundary): Mark {
    Mark(Some(b.container), b.offset)
  }

  /** After the items were unwrapped with outcome `o`: a container that was
      itself a list item moves to offset 0 of the first line made, which is
      undefined when no line was made. */
  function Reanchor(h: Oracle, o: Outcome<seq<NodeId>>, at: Boundary): (r: Outcome<Mark>)
    ensures r.dom == o.dom && r.Ok? == o.Ok?
    ensures o.Thrown? ==> r.error == o.error
    ensures r.Ok? && !IsListItem(h, o.dom, at.container) ==> r.value == At(at)
    ensures r.Ok? && IsListItem(h, o.dom, at.container) ==>
      r.value.offset == 0 && (r.value.container.Some? <==> |o.value| > 0)
      && (|o.value| > 0 ==> r.value.container.value == o.value[0])
  {
    match o
    case Thrown(e, d1) => Thrown(e, d1)
    case Ok(lines, d1) =>
      if !IsListItem(h, d1, at.container) then Ok(At(at), d1)
      else if |lines| == 0 then Ok(Mark(None, 0), d1)
      else Ok(Mark(Some(lines[0]), 0), d1)
  }

  /**
   * One end of the selection: when the climb from its container reached a
   * list item, that item and every sibling after it are unwrapped and the
   * boundary is re-anchored.
   */
  function UnwrapFrom(h: Oracle, d: Dom, li: NodeId, at: Boundary): (r: Outcome<Mark>)
    ensures !IsListItem(h, d, li) ==> r == Ok(At(at), d)
    ensures r.Thrown? ==> r.error == NullReference
    ensures forall y: NodeId | y < d.next :: Name(r.dom, y) == Name(d, y)
    ensures d.next <= r.dom.next
  {
    if !IsListItem(h, d, li) then Ok(At(at), d)
    else Reanchor(h, UnwrapItems(h, d, NodeAndNext(d, li)), at)
  }

  /** The lines of a list item come first among those of the item and its
      later siblings, and its failure stops the whole run. */
  lemma ItemFirst(h: Oracle, d: Dom, li: NodeId)
    requires IsListItem(h, d, li)
    ensures UnwrapItem(h, d, li).Thrown? ==> UnwrapItems(h, d, NodeAndNext(d, li)) == UnwrapItem(h, d, li)
    ensures UnwrapItem(h, d, li).Ok? ==>
      UnwrapItems(h, d, NodeAndNext(d, li))
        == Prepend(UnwrapItem(h, d, li).value,
                   UnwrapEach(h, UnwrapItem(h, d, li).dom, ListItems(h, d, NextAll(d, li))))
  {
    var nodes := NodeAndNext(d, li);
    assert nodes[1..] == NextAll(d, li);
    var lis := ListItems(h, d, nodes);
    assert lis == [li] + ListItems(h, d, NextAll(d, li));
    assert lis[1..] == ListItems(h, d, NextAll(d, li));
    UnwrapEachStep(h, d, lis, UnwrapItem(h, d, li));
  }

  /**
   * What unwrapping from a list item does to the boundary: it fails exactly
   * as unwrapping that item fails; a boundary whose container is the item
   * moves to offset 0 of the first line the item became; any other
   * boundary outside list items is kept.
   */
  lemma UnwrapFromItem(h: Oracle, d: Dom, li: NodeId, at: Boundary)
    requires IsListItem(h, d, li)
    ensures UnwrapItem(h, d, li).Thrown? ==> UnwrapFrom(h, d, li, at) == Thrown(NullReference, UnwrapItem(h, d, li).dom)
    ensures UnwrapFrom(h, d, li, at).Ok? ==> UnwrapItem(h, d, li).Ok?
    ensures UnwrapFrom(h, d, li, at).Ok? && at.container == li && li < d.next && |UnwrapItem(h, d, li).value| > 0 ==>
      UnwrapFrom(h, d, li, at).value == Mark(Some(UnwrapItem(h, d, li).value[0]), 0)
    ensures UnwrapFrom(h, d, li, at).Ok? && at.container < d.next && !IsListItem(h, d, at.container) ==>
      UnwrapFrom(h, d, li, at).value == At(at)
  {
    var o := UnwrapItems(h, d, NodeAndNext(d, li));
    var one := UnwrapItem(h, d, li);
    var r := UnwrapFrom(h, d, li, at);
    assert r == Reanchor(h, o, at);
    ItemFirst(h, d, li);
    if one.Ok? {
      var rest := UnwrapEach(h, one.dom, ListItems(h, d, NextAll(d, li)));
      assert o == Prepend(one.value, rest);
      if at.container < d.next {
        assert Name(o.dom, at.container) == Name(d, at.container);
      }
      if r.Ok? && |one.value| > 0 {
        assert o.value[..|one.value|] == one.value;
        assert o.value[0] == one.value[0];
      }
    }
  }

  /**
   * The end stage of `unformat`, on the tree `d1` the start stage left:
   * `s` is where the start landed and `ea` is the end's climb, taken on
   * the tree as given. When the start landed in the end's container the
   * end is returned as it was; otherwise a climb that went past the root
   * fails here, and a list item it reached is unwrapped. With `guarded`,
   * an item the start stage already removed is left alone.
   */
  function EndStage(h: Oracle, d1: Dom, s: Mark, ea: Result<NodeId>, end: Boundary, guarded: bool): (r: Outcome<(Mark, Mark)>)
    ensures s.container == Some(end.container) ==> r == Ok((s, At(end)), d1)
    ensures s.container != Some(end.container) && ea.Failure? ==> r == Thrown(ea.error, d1)
    ensures ea.Success? && !IsListItem(h, d1, ea.value) ==> r == Ok((s, At(end)), d1)
    ensures r.Ok? ==> r.value.0 == s
    ensures r.Ok? && end.container < d1.next && !IsListItem(h, d1, end.container) ==> r.value.1 == At(end)
  {
    if s.container == Some(end.container) then Ok((s, At(end)), d1)
    else
      match ea
      case Failure(e) => Thrown(e, d1)
      case Success(endLi) =>
        if guarded && IsListItem(h, d1, endLi) && Parent(d1, endLi).None? then Ok((s, At(end)), d1)
        else
          match UnwrapFrom(h, d1, endLi, end)
          case Thrown(e, d2) => Thrown(e, d2)
          case Ok(e2, d2) =>
            if IsListItem(h, d1, endLi) then
              UnwrapFromItem(h, d1, endLi, end);
              Ok((s, e2), d2)
            else Ok((s, e2), d2)
  }

  /**
   * `unformat` from the start stage on: the climb from the start reached
   * `li`, and `ea` is the end's climb, which did not run round a cycle.
   * The start's item is unwrapped first, then the end stage runs on the
   * tree that left.
   */
  function FromStart(h: Oracle, d: Dom, li: NodeId, ea: Result<NodeId>, start: Boundary, end: Boundary, guarded: bool)
    : (r: Outcome<(Mark, Mark)>)
    ensures ea == Failure(NullReference) ==>
      var first := UnwrapFrom(h, d, li, start);
      (first.Thrown? ==> r == Thrown(first.error, first.dom))
      && (first.Ok? && first.value.container != Some(end.container) ==> r == Thrown(NullReference, first.dom))
    ensures ea.Failure? && r.Ok? ==> r.value.0.container == Some(end.container) && r.value.1 == At(end)
    ensures !IsListItem(h, d, li) && ea.Success? && !IsListItem(h, d, ea.value) ==> r == Ok((At(start), At(end)), d)
    ensures r.Ok? && start.container < d.next && !IsListItem(h, d, start.container) ==> r.value.0 == At(start)
    ensures r.Ok? && r.value.0.container == Some(end.container) ==> r.value.1 == At(end)
    ensures r.Ok? && end.container < d.next && !IsListItem(h, d, end.container) ==> r.value.1 == At(end)
  {
    if !IsListItem(h, d, li) then EndStage(h, d, At(start), ea, end, guarded)
    else
      match UnwrapFrom(h, d, li, start)
      case Thrown(e, d1) => Thrown(e, d1)
      case Ok(s, d1) =>
        UnwrapFromItem(h, d, li, start);
        EndStage(h, d1, s, ea, end, guarded)
  }

  /**
   * `unformat` once both climbs are taken, `sa` from the start and `ea`
   * from the end: a climb round a cycle never ended, so nothing happens
   * after it; a climb that went past the root yielded null, which fails
   * only where it is tested: the start's at once, before any change, the
   * end's only in the end stage.
   */
  function Stages(h: Oracle, d: Dom, sa: Result<NodeId>, ea: Result<NodeId>, start: Boundary, end: Boundary, guarded: bool)
    : (r: Outcome<(Mark, Mark)>)
    ensures sa == Failure(Diverges) || ea == Failure(Diverges) ==> r == Thrown(Diverges, d)
    ensures sa.Failure? && ea != Failure(Diverges) ==> r == Thrown(sa.error, d)
    ensures sa.Success? && ea != Failure(Diverges) ==> r == FromStart(h, d, sa.value, ea, start, end, guarded)
  {
    if sa == Failure(Diverges) || ea == Failure(Diverges) then Thrown(Diverges, d)
    else
      match sa
      case Failure(e) => Thrown(e, d)
      case Success(li) => FromStart(h, d, li, ea, start, end, guarded)
  }

  /**
   * `unformat(start, end)` as written: both climbs run on the tree as
   * given; the start's item is unwrapped first; when the start then shares
   * its container with the end the end is returned as it was; otherwise
   * the end's climb is tested and its item unwrapped on the tree the first
   * step left.
   */
  function Unformat(h: Oracle, d: Dom, start: Boundary, end: Boundary): (r: Outcome<(Mark, Mark)>)
    ensures ItemAbove(h, d, start.container) == Failure(Diverges) || ItemAbove(h, d, end.container) == Failure(Diverges) ==>
      r == Thrown(Diverges, d)
    ensures ItemAbove(h, d, start.container).Failure? && ItemAbove(h, d, end.container) != Failure(Diverges) ==>
      r == Thrown(ItemAbove(h, d, start.container).error, d)
    ensures ItemAbove(h, d, start.container).Success? && ItemAbove(h, d, end.container) == Failure(NullReference) ==>
      var first := UnwrapFrom(h, d, ItemAbove(h, d, start.container).value, start);
      (first.Thrown? ==> r == Thrown(first.error, first.dom))
      && (first.Ok? && first.value.container != Some(end.container) ==> r == Thrown(NullReference, first.dom))
    ensures ItemAbove(h, d, end.container).Failure? && r.Ok? ==>
      r.value.0.container == Some(end.container) && r.value.1 == At(end)
    ensures ItemAbove(h, d, start.container).Success? && !IsListItem(h, d, ItemAbove(h, d, start.container).value)
         && ItemAbove(h, d, end.container).Success? && !IsListItem(h, d, ItemAbove(h, d, end.container).value)
         ==> r == Ok((At(start), At(end)), d)
    ensures r.Ok? && start.container < d.next && !IsListItem(h, d, start.container) ==> r.value.0 == At(start)
    ensures r.Ok? && r.value.0.container == Some(end.container) ==> r.value.1 == At(end)
    ensures r.Ok? && end.container < d.next && !IsListItem(h, d, end.container) ==> r.value.1 == At(end)
  {
    Stages(h, d, ItemAbove(h, d, start.container), ItemAbove(h, d, end.container), start, end, false)
  }

  /** A selection starting in a list item: unless the end's climb runs
      round a cycle, `unformat` fails when unwrapping that item fails, and
      otherwise the start comes back at offset 0 of the first line the item
      became. */
  lemma UnformatFirstLine(h: Oracle, d: Dom, start: Boundary, end: Boundary)
    requires IsListItem(h, d, start.container)
    ensures ItemAbove(h, d, end.container) != Failure(Diverges) && UnwrapItem(h, d, start.container).Thrown? ==>
      Unformat(h, d, start, end) == Thrown(NullReference, UnwrapItem(h, d, start.container).dom)
    ensures Unformat(h, d, start, end).Ok? && start.container < d.next && |UnwrapItem(h, d, start.container).value| > 0 ==>
      Unformat(h, d, start, end).value.0 == Mark(Some(UnwrapItem(h, d, start.container).value[0]), 0)
  {
    var li := start.container;
    var ea := ItemAbove(h, d, end.container);
    assert ItemAbove(h, d, li) == Success(li);
    UnwrapFromItem(h, d, li, start);
    var first := UnwrapFrom(h, d, li, start);
    if ea != Failure(Diverges) {
      assert Unformat(h, d, start, end) == FromStart(h, d, li, ea, start, end, false);
      if first.Ok? {
        assert FromStart(h, d, li, ea, start, end, false) == EndStage(h, first.dom, first.value, ea, end, false);
      }
    }
  }

  /** A selection whose start lies outside list items and whose end lies
      in a list item: the start stage leaves the tree as it is, so
      `unformat` fails exactly when unwrapping the end's item fails, the
      start is kept, and the end comes back at offset 0 of the first line
      the end's item became. */
  lemma UnformatLastLine(h: Oracle, d: Dom, start: Boundary, end: Boundary)
    requires ItemAbove(h, d, start.container).Success? && !IsListItem(h, d, ItemAbove(h, d, start.container).value)
    requires IsListItem(h, d, end.container)
    ensures UnwrapItem(h, d, end.container).Thrown? ==>
      Unformat(h, d, start, end) == Thrown(NullReference, UnwrapItem(h, d, end.container).dom)
    ensures Unformat(h, d, start, end).Ok? ==> Unformat(h, d, start, end).value.0 == At(start)
    ensures Unformat(h, d, start, end).Ok? && end.container < d.next && |UnwrapItem(h, d, end.container).value| > 0 ==>
      Unformat(h, d, start, end).value.1 == Mark(Some(UnwrapItem(h, d, end.container).value[0]), 0)
  {
    var li := end.container;
    assert ItemAbove(h, d, li) == Success(li);
    UnwrapFromItem(h, d, li, end);
    var first := UnwrapFrom(h, d, ItemAbove(h, d, start.container).value, start);
    assert first == Ok(At(start), d);
    assert start.container != li;
    assert Unformat(h, d, start, end) == EndStage(h, d, At(start), Success(li), end, false);
    var second := UnwrapFrom(h, d, li, end);
    assert EndStage(h, d, At(start), Success(li), end, false)
        == (if second.Thrown? then Thrown(second.error, second.dom)
            else Ok((At(start), second.value), second.dom));
  }

  // ---------------------------------------------------------------------------
  // The end's item may already be gone

  /** Unwrapping an item that no longer has a parent is a null
      dereference: `removeShallow(li.parentNode)` gets null. */
  lemma DetachedItemThrows(h: Oracle, d: Dom, li: NodeId, at: Boundary)
    requires IsListItem(h, d, li) && Parent(d, li).None?
    ensures UnwrapFrom(h, d, li, at) == Thrown(NullReference, d)
  {
    assert NodeAndNext(d, li) == [li];
    assert ListItems(h, d, [li]) == [li] by {
      assert [li][1..] == [];
    }
  }

  /** The start stage from the last item of a list, for a boundary in a
      node in use that is no list item: the item alone is unwrapped and the
      boundary stays. */
  lemma LastItemStart(h: Oracle, d: Dom, li: NodeId, at: Boundary)
    requires IsListItem(h, d, li) && li < d.next
    requires at.container < d.next && !IsListItem(h, d, at.container)
    requires ListItems(h, d, NodeAndNext(d, li)) == [li]
    requires UnwrapItem(h, d, li).Ok?
    ensures UnwrapFrom(h, d, li, at) == Ok(At(at), UnwrapItem(h, d, li).dom)
  {
    UnwrapLast(h, d, li);
    assert UnwrapItems(h, d, NodeAndNext(d, li)) == UnwrapItem(h, d, li);
  }

  /**
   * When both ends lie in different nodes of the last item of a list, the
   * unwrap from the start removes that item, and the unwrap from the end
   * then starts at the removed item: `unformat` as written fails with a
   * null dereference.
   */
  lemma SameItemThrows(h: Oracle, d: Dom, start: Boundary, end: Boundary, li: NodeId)
    requires ItemAbove(h, d, start.container) == Success(li) && ItemAbove(h, d, end.container) == Success(li)
    requires IsListItem(h, d, li) && li < d.next
    requires start.container < d.next && !IsListItem(h, d, start.container)
    requires start.container != end.container
    requires ListItems(h, d, NodeAndNext(d, li)) == [li]
    requires UnwrapItem(h, d, li).Ok?
    ensures Unformat(h, d, start, end) == Thrown(NullReference, UnwrapItem(h, d, li).dom)
  {
    LastItemStart(h, d, li, start);
    DetachedItemThrows(h, UnwrapItem(h, d, li).dom, li, end);
  }

  /**
   * `unformat` with the evidently intended guard: the end's item is
   * unwrapped only when it is still in the tree, that is, when the unwrap
   * from the start did not already remove it.
   */
  function UnformatChecked(h: Oracle, d: Dom, start: Boundary, end: Boundary): (r: Outcome<(Mark, Mark)>)
    ensures ItemAbove(h, d, start.container) == Failure(Diverges) || ItemAbove(h, d, end.container) == Failure(Diverges) ==>
      r == Thrown(Diverges, d)
    ensures ItemAbove(h, d, start.container).Failure? && ItemAbove(h, d, end.container) != Failure(Diverges) ==>
      r == Thrown(ItemAbove(h, d, start.container).error, d)
    ensures ItemAbove(h, d, start.container).Success? && ItemAbove(h, d, end.container) == Failure(NullReference) ==>
      var first := UnwrapFrom(h, d, ItemAbove(h, d, start.container).value, start);
      (first.Thrown? ==> r == Thrown(first.error, first.dom))
      && (first.Ok? && first.value.container != Some(end.container) ==> r == Thrown(NullReference, first.dom))
    ensures ItemAbove(h, d, end.container).Failure? && r.Ok? ==>
      r.value.0.container == Some(end.container) && r.value.1 == At(end)
    ensures ItemAbove(h, d, start.container).Success? && !IsListItem(h, d, ItemAbove(h, d, start.container).value)
         && ItemAbove(h, d, end.container).Success? && !IsListItem(h, d, ItemAbove(h, d, end.container).value)
         ==> r == Ok((At(start), At(end)), d)
    ensures r.Ok? && start.container < d.next && !IsListItem(h, d, start.container) ==> r.value.0 == At(start)
    ensures r.Ok? && r.value.0.container == Some(end.container) ==> r.value.1 == At(end)
    ensures r.Ok? && end.container < d.next && !IsListItem(h, d, end.container) ==> r.value.1 == At(end)
  {
    Stages(h, d, ItemAbove(h, d, start.container), ItemAbove(h, d, end.container), start, end, true)
  }

  /** With the guard, the selection of `SameItemThrows` is unformatted: the
      item is unwrapped once and both boundaries come back as they were. */
  lemma SameItemChecked(h: Oracle, d: Dom, start: Boundary, end: Boundary, li: NodeId)
    requires ItemAbove(h, d, start.container) == Success(li) && ItemAbove(h, d, end.container) == Success(li)
    requires IsListItem(h, d, li) && li < d.next
    requires start.container < d.next && !IsListItem(h, d, start.container)
    requires start.container != end.container
    requires ListItems(h, d, NodeAndNext(d, li)) == [li]
    requires UnwrapItem(h, d, li).Ok?
    ensures UnformatChecked(h, d, start, end) == Ok((At(start), At(end)), UnwrapItem(h, d, li).dom)
  {
    LastItemStart(h, d, li, start);
  }

  /** The guard changes nothing but runs in which `unformat` as written
      fails with a null dereference. */
  lemma CheckedOnlyAvoidsThrow(h: Oracle, d: Dom, start: Boundary, end: Boundary)
    ensures UnformatChecked(h, d, start, end) == Unformat(h, d, start, end)
         || Unformat(h, d, start, end) == Thrown(NullReference, Unformat(h, d, start, end).dom)
  {
    var sa := ItemAbove(h, d, start.container);
    var ea := ItemAbove(h, d, end.container);
    if sa.Success? && ea != Failure(Diverges) {
      var first := UnwrapFrom(h, d, sa.value, start);
      if first.Ok? {
        GuardOnlyAvoidsThrow(h, first.dom, first.value, ea, end);
      }
    }
  }

  /** The guard of the end stage changes nothing but a run that fails
      with a null dereference without it. */
  lemma GuardOnlyAvoidsThrow(h: Oracle, d1: Dom, s: Mark, ea: Result<NodeId>, end: Boundary)
    ensures EndStage(h, d1, s, ea, end, true) == EndStage(h, d1, s, ea, end, false)
         || EndStage(h, d1, s, ea, end, false) == Thrown(NullReference, EndStage(h, d1, s, ea, end, false).dom)
  {
    if s.container != Some(end.container) && ea.Success? && IsListItem(h, d1, ea.value) && Parent(d1, ea.value).None? {
      DetachedItemThrows(h, d1, ea.value, end);
    }
  }

  // ---------------------------------------------------------------------------
  // The selection of the finding, concretely

  /** Classification for the example: `DIV`, `UL`, `LI` and `P` break lines,
      every node is rendered, and node 0 is the editing host. */
  function ExampleOracle(): Oracle {
    Oracle(
      (s: string) => s == "DIV" || s == "UL" || s == "LI" || s == "P",
      (s: string) => s == "UL" || s == "OL",
      (s: string) => false,
      (s: string) => false,
      (s: string) => s == "LI",
      (s: string) => s == "UL" || s == "OL",
      (a: string, b: string) => true,
      (d: Dom, n: NodeId) => true,
      (n: NodeId) => n == 0)
  }

  /** `<div><ul><li>foo<b>bar</b></li></ul></div>`, the `div` being the
      editing host: ids 0 div, 1 ul, 2 li, 3 "foo", 4 b, 5 "bar". */
  function ExampleTree(): Dom {
    Dom(map[0 := Node("DIV", None, [1]),
            1 := Node("UL", Some(0), [2]),
            2 := Node("LI", Some(1), [3, 4]),
            3 := Node("#text", Some(2), []),
            4 := Node("B", Some(2), [5]),
            5 := Node("#text", Some(4), [])], 6)
  }

  /** Selecting from inside "foo" to inside "bar" and unformatting: as
      written, the second unwrap of the item throws; with the guard, both
      boundaries come back. */
  lemma SameItemExample()
    ensures Unformat(ExampleOracle(), ExampleTree(), Boundary(3, 1), Boundary(5, 2)).Thrown?
    ensures Unformat(ExampleOracle(), ExampleTree(), Boundary(3, 1), Boundary(5, 2)).error == NullReference
    ensures UnformatChecked(ExampleOracle(), ExampleTree(), Boundary(3, 1), Boundary(5, 2)).Ok?
    ensures UnformatChecked(ExampleOracle(), ExampleTree(), Boundary(3, 1), Boundary(5, 2)).value
         == (Mark(Some(3), 1), Mark(Some(5), 2))
  {
    var h := ExampleOracle();
    var d := ExampleTree();
    var start := Boundary(3, 1);
    var end := Boundary(5, 2);
    ExampleClimbs();
    ExampleAlone();
    ExampleUnwraps();
    SameItemThrows(h, d, start, end, 2);
    SameItemChecked(h, d, start, end, 2);
  }

  /** An end at the editing host itself: its climb goes past the root, and
      `unformat` fails only after the start's item was unwrapped, on the
      changed tree. */
  lemma HostEndExample()
    ensures ItemAbove(ExampleOracle(), ExampleTree(), 0) == Failure(NullReference)
    ensures UnwrapItem(ExampleOracle(), ExampleTree(), 2).Ok?
    ensures Unformat(ExampleOracle(), ExampleTree(), Boundary(3, 1), Boundary(0, 1))
         == Thrown(NullReference, UnwrapItem(ExampleOracle(), ExampleTree(), 2).dom)
    ensures UnwrapItem(ExampleOracle(), ExampleTree(), 2).dom != ExampleTree()
  {
    var h := ExampleOracle();
    var d := ExampleTree();
    HostClimb();
    ExampleClimbs();
    ExampleAlone();
    ExampleUnwraps();
    LastItemStart(h, d, 2, Boundary(3, 1));
    assert Parent(UnwrapItem(h, d, 2).dom, 2) != Parent(d, 2);
  }

  /** The climb from the editing host of the example goes past the root. */
  lemma HostClimb()
    ensures ItemAbove(ExampleOracle(), ExampleTree(), 0) == Failure(NullReference)
  {
    assert NearestItem(ExampleOracle(), ExampleTree(), 0);
  }

  /** Both ends of the example climb to the one list item. */
  lemma ExampleClimbs()
    ensures ItemAbove(ExampleOracle(), ExampleTree(), 3) == Success(2)
    ensures ItemAbove(ExampleOracle(), ExampleTree(), 5) == Success(2)
  {
    var h := ExampleOracle();
    var d := ExampleTree();
    assert !NearestItem(h, d, 2);
  }

  /** The example item is the only child of its list. */
  lemma ExampleAlone()
    ensures PrevAll(ExampleTree(), 2) == [] && NextAll(ExampleTree(), 2) == []
    ensures ListItems(ExampleOracle(), ExampleTree(), NodeAndNext(ExampleTree(), 2)) == [2]
  {
    var d := ExampleTree();
    assert Row(d, 2) == [2];
    assert IndexOf([2], 2) == 0;
    assert NodeAndNext(d, 2) == [2];
    assert [2][1..] == [];
  }

  /** Unwrapping the example item succeeds. */
  lemma ExampleUnwraps()
    ensures UnwrapItem(ExampleOracle(), ExampleTree(), 2).Ok?
  {
    var h := ExampleOracle();
    var d := ExampleTree();
    DissolveAlone(h, d, 2, 1, 0);
    UnwrapItemOk(h, d, 2);
  }
}
