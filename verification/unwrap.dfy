/**
 * `splitList`, `unwrapItem` and `unwrapItems` of lists.js: cutting a list
 * around one item and dissolving list items back into lines.
 */
module Unwrap {
  import opened Seqs
  import opened Dom
  import opened Html
  import opened Lines

  /** A node that may be missing, as a sequence of zero or one nodes. */
  function Opt(o: Option<NodeId>): (r: seq<NodeId>)
    ensures |r| <= 1 && (o.Some? <==> |r| == 1)
  {
    if o.Some? then [o.value] else []
  }

  lemma {:induction false} ListItemsNoDup(h: Oracle, d: Dom, xs: seq<NodeId>)
    requires NoDup(xs)
    ensures NoDup(ListItems(h, d, xs))
  {
    if |xs| > 0 {
      ListItemsNoDup(h, d, xs[1..]);
      var head := if IsListItem(h, d, xs[0]) then [xs[0]] else [];
      var tail := ListItems(h, d, xs[1..]);
      assert xs[0] !in xs[1..];
      assert xs[0] !in tail;
      assert ListItems(h, d, xs) == head + tail;
    }
  }

  // ---------------------------------------------------------------------------
  // splitList

  /** `Dom.cloneShallow(list)` moved right before (or after) `list`, then
      `Dom.move(items, clone)`. A missing list, or one without parent, is a
      null dereference. */
  function CloneBeside(d: Dom, list: Option<NodeId>, items: seq<NodeId>, before: bool): (r: Outcome<Option<NodeId>>)
    ensures |items| == 0 ==> r == Ok(None, d)
    ensures |items| > 0 && list.None? ==> r == Thrown(NullReference, d)
    ensures r.Thrown? ==> r.error == NullReference
    ensures r.Ok? && |items| > 0 ==>
      r.value == Some(d.next) && Name(r.dom, d.next) == Name(d, list.value) && r.dom.next == d.next + 1
    ensures r.Ok? && |items| == 0 ==> r.dom == d
    ensures forall y: NodeId | y < d.next :: Name(r.dom, y) == Name(d, y)
    ensures d.next <= r.dom.next
  {
    if |items| == 0 then Ok(None, d)
    else match list
      case None => Thrown(NullReference, d)
      case Some(l) =>
        var c := Create(d, Name(d, l));
        match Parent(c.0, l)
        case None => Thrown(NullReference, c.0)
        case Some(_) =>
          var placed := if before then InsertBefore(c.0, c.1, l) else InsertAfter(c.0, c.1, l);
          Ok(Some(c.1), MoveAll(placed, items, c.1))
  }

  /** The two clones of `splitList` for the items `prev` before and `next`
      after the item, in the list `list`. */
  function SplitAround(d: Dom, list: Option<NodeId>, prev: seq<NodeId>, next: seq<NodeId>)
    : (r: Outcome<(Option<NodeId>, Option<NodeId>)>)
    ensures |prev| == 0 && |next| == 0 ==> r == Ok((None, None), d)
    ensures r.Ok? ==> (r.value.0.Some? <==> |prev| > 0) && (r.value.1.Some? <==> |next| > 0)
    ensures r.Thrown? ==> r.error == NullReference
    ensures forall y: NodeId | y < d.next :: Name(r.dom, y) == Name(d, y)
    ensures d.next <= r.dom.next
  {
    match CloneBeside(d, list, prev, true)
    case Thrown(e, d1) => Thrown(e, d1)
    case Ok(before, d1) =>
      match CloneBeside(d1, list, next, false)
      case Thrown(e, d2) => Thrown(e, d2)
      case Ok(after, d2) => Ok((before, after), d2)
  }

  /**
   * `splitList(li)`: the list items before `li` move into a shallow clone
   * of the list placed before it, those after `li` into a clone placed
   * after it. The value is the two clones, when made.
   */
  function SplitList(h: Oracle, d: Dom, li: NodeId): (r: Outcome<(Option<NodeId>, Option<NodeId>)>)
    ensures Parent(d, li).None? ==> r == Ok((None, None), d)
    ensures |ListItems(h, d, PrevAll(d, li))| == 0 && |ListItems(h, d, NextAll(d, li))| == 0 ==>
      r == Ok((None, None), d)
    ensures r.Ok? ==> (r.value.0.Some? <==> |ListItems(h, d, PrevAll(d, li))| > 0)
    ensures r.Ok? ==> (r.value.1.Some? <==> |ListItems(h, d, NextAll(d, li))| > 0)
    ensures r.Thrown? ==> r.error == NullReference
    ensures forall y: NodeId | y < d.next :: Name(r.dom, y) == Name(d, y)
    ensures d.next <= r.dom.next
  {
    SplitAround(d, Parent(d, li), ListItems(h, d, PrevAll(d, li)), ListItems(h, d, NextAll(d, li)))
  }

  /** One clone: it holds exactly the moved items and sits next to the list
      under the list's parent. `keep` is any other node whose children the
      items do not come from. */
  lemma CloneShape(d: Dom, list: NodeId, items: seq<NodeId>, before: bool, host: NodeId,
                   pre: seq<NodeId>, post: seq<NodeId>, keep: NodeId, r: Outcome<Option<NodeId>>)
    requires r == CloneBeside(d, Some(list), items, before)
    requires Parent(d, list) == Some(host) && Children(d, host) == pre + [list] + post && list !in pre
    requires |items| > 0 && NoDup(items) && Disjoint(items, Children(d, host))
    requires list < d.next && host < d.next && Below(Children(d, host), d.next) && Below(items, d.next)
    ensures r.Ok? && r.value == Some(d.next)
    ensures Children(r.dom, d.next) == items
    ensures before ==> Children(r.dom, host) == pre + [d.next] + [list] + post
    ensures !before ==> Children(r.dom, host) == pre + [list] + [d.next] + post
    ensures Parent(r.dom, list) == Some(host)
    ensures keep != host && keep < d.next && Disjoint(items, Children(d, keep)) ==>
      Children(r.dom, keep) == Children(d, keep)
  {
    var c := Create(d, Name(d, list));
    var clone := c.1;
    assert Parent(c.0, list) == Some(host);
    assert Children(c.0, host) == Children(d, host);
    assert clone !in Children(c.0, host);
    var placed := if before then InsertBefore(c.0, clone, list) else InsertAfter(c.0, clone, list);
    if before {
      InsertBeforeStep(c.0, clone, list, host, pre, post);
    } else {
      InsertAfterStep(c.0, clone, list, host, pre, post);
    }
    assert Children(placed, clone) == [];
    assert Disjoint(items, Children(placed, host));
    MoveAllFill(placed, items, clone);
    MoveAllFrame(placed, items, clone, host);
    if keep != host && keep < d.next && Disjoint(items, Children(d, keep)) {
      assert Children(placed, keep) == Children(d, keep);
      MoveAllFrame(placed, items, clone, keep);
    }
    MoveAllParents(placed, items, clone);
    assert list !in items;
  }

  /** The items before a node and those after it are distinct, and both come
      from its row. */
  lemma SidesOfRow(h: Oracle, d: Dom, li: NodeId, list: NodeId)
    requires Parent(d, li) == Some(list) && li in Children(d, list)
    requires NoDup(Children(d, list))
    ensures NoDup(ListItems(h, d, PrevAll(d, li))) && NoDup(ListItems(h, d, NextAll(d, li)))
    ensures forall x | x in ListItems(h, d, PrevAll(d, li)) :: x in Children(d, list)
    ensures forall x | x in ListItems(h, d, NextAll(d, li)) :: x in Children(d, list)
    ensures Disjoint(ListItems(h, d, NextAll(d, li)), ListItems(h, d, PrevAll(d, li)))
  {
    var row := Children(d, list);
    var i := IndexOf(row, li);
    assert PrevAll(d, li) == row[..i] && NextAll(d, li) == row[i + 1..];
    var head := row[..i];
    var tail := row[i + 1..];
    assert NoDup(head) by {
      forall a, b | 0 <= a < b < |head| ensures head[a] != head[b] {
        assert head[a] == row[a] && head[b] == row[b];
      }
    }
    assert NoDup(tail) by {
      forall a, b | 0 <= a < b < |tail| ensures tail[a] != tail[b] {
        assert tail[a] == row[i + 1 + a] && tail[b] == row[i + 1 + b];
      }
    }
    ListItemsNoDup(h, d, head);
    ListItemsNoDup(h, d, tail);
    var next := ListItems(h, d, tail);
    forall k | 0 <= k < |next| ensures next[k] !in ListItems(h, d, head) {
      assert next[k] in tail;
    }
  }

  /** After `splitList`, the earlier items sit in a clone right before the
      list and the later ones in a clone right after it, in order. */
  lemma SplitListShape(h: Oracle, d: Dom, li: NodeId, list: NodeId, host: NodeId,
                       pre: seq<NodeId>, post: seq<NodeId>, r: Outcome<(Option<NodeId>, Option<NodeId>)>)
    requires r == SplitList(h, d, li)
    requires Parent(d, li) == Some(list) && li in Children(d, list)
    requires Parent(d, list) == Some(host) && Children(d, host) == pre + [list] + post && list !in pre
    requires NoDup(Children(d, list)) && Disjoint(Children(d, list), Children(d, host))
    requires list < d.next && host < d.next
    requires Below(Children(d, host), d.next) && Below(Children(d, list), d.next)
    ensures r.Ok?
    ensures r.value.0.Some? ==> Children(r.dom, r.value.0.value) == ListItems(h, d, PrevAll(d, li))
    ensures r.value.1.Some? ==> Children(r.dom, r.value.1.value) == ListItems(h, d, NextAll(d, li))
    ensures Children(r.dom, host) == pre + Opt(r.value.0) + [list] + Opt(r.value.1) + post
  {
    var prev := ListItems(h, d, PrevAll(d, li));
    var next := ListItems(h, d, NextAll(d, li));
    var row := Children(d, list);
    SidesOfRow(h, d, li, list);
    var first := CloneBeside(d, Some(list), prev, true);
    FirstClone(d, list, host, pre, post, row, prev, next, first);
    var second := CloneBeside(first.dom, Some(list), next, false);
    SecondClone(d, list, host, pre, post, prev, next, first, second);
    assert r == Ok((first.value, second.value), second.dom);
  }

  /** The first clone of `SplitListShape`, and what it leaves for the second. */
  lemma FirstClone(d: Dom, list: NodeId, host: NodeId, pre: seq<NodeId>, post: seq<NodeId>,
                   row: seq<NodeId>, prev: seq<NodeId>, next: seq<NodeId>, first: Outcome<Option<NodeId>>)
    requires first == CloneBeside(d, Some(list), prev, true)
    requires row == Children(d, list)
    requires NoDup(prev) && NoDup(next) && Disjoint(next, prev)
    requires forall x | x in prev :: x in row
    requires forall x | x in next :: x in row
    requires Parent(d, list) == Some(host) && Children(d, host) == pre + [list] + post && list !in pre
    requires Disjoint(row, Children(d, host))
    requires list < d.next && host < d.next
    requires Below(Children(d, host), d.next) && Below(row, d.next)
    ensures first.Ok? && d.next <= first.dom.next && list < first.dom.next && host < first.dom.next
    ensures first.value.Some? ==> first.value.value == d.next && first.dom.next == d.next + 1
    ensures first.value.Some? ==> Children(first.dom, d.next) == prev
    ensures first.value.None? ==> first.dom == d
    ensures Children(first.dom, host) == (pre + Opt(first.value)) + [list] + post
    ensures Parent(first.dom, list) == Some(host)
    ensures list !in pre + Opt(first.value)
    ensures Below(next, first.dom.next)
    ensures Disjoint(next, Children(first.dom, host))
    ensures Below(Children(first.dom, host), first.dom.next)
  {
    SubsetDisjoint(prev, row, Children(d, host));
    SubsetDisjoint(next, row, Children(d, host));
    SubsetBelow(prev, row, d.next);
    SubsetBelow(next, row, d.next);
    if |prev| > 0 {
      CloneShape(d, list, prev, true, host, pre, post, host, first);
    }
    NextBeside(next, pre, Opt(first.value), list, post, d.next, first.dom.next);
  }

  /** The second clone of `SplitListShape`. */
  lemma SecondClone(d: Dom, list: NodeId, host: NodeId, pre: seq<NodeId>, post: seq<NodeId>,
                    prev: seq<NodeId>, next: seq<NodeId>, first: Outcome<Option<NodeId>>,
                    second: Outcome<Option<NodeId>>)
    requires first.Ok? && second == CloneBeside(first.dom, Some(list), next, false)
    requires d.next <= first.dom.next && list < d.next && host < d.next
    requires first.value.Some? ==> first.value.value == d.next && first.dom.next == d.next + 1
    requires first.value.Some? ==> Children(first.dom, d.next) == prev
    requires Children(first.dom, host) == (pre + Opt(first.value)) + [list] + post
    requires Parent(first.dom, list) == Some(host)
    requires list !in pre + Opt(first.value)
    requires NoDup(next) && Below(next, first.dom.next) && Disjoint(next, prev)
    requires Disjoint(next, Children(first.dom, host))
    requires Below(Children(first.dom, host), first.dom.next)
    ensures second.Ok?
    ensures first.value.Some? ==> Children(second.dom, first.value.value) == prev
    ensures second.value.Some? ==> Children(second.dom, second.value.value) == next
    ensures Children(second.dom, host) == pre + Opt(first.value) + [list] + Opt(second.value) + post
  {
    var d1 := first.dom;
    if |next| > 0 {
      CloneShape(d1, list, next, false, host, pre + Opt(first.value), post, d.next, second);
    }
  }

  /** The facts the second clone needs once the first is in place. */
  lemma NextBeside(next: seq<NodeId>, pre: seq<NodeId>, first: seq<NodeId>, list: NodeId,
                   post: seq<NodeId>, bound: nat, bound1: nat)
    requires Disjoint(next, pre + [list] + post) && Below(next, bound)
    requires Below(pre + [list] + post, bound)
    requires bound <= bound1 && forall x | x in first :: x == bound && bound < bound1
    ensures Disjoint(next, (pre + first) + [list] + post)
    ensures Below((pre + first) + [list] + post, bound1)
    ensures Below(next, bound1)
  {
    forall k | 0 <= k < |next| ensures next[k] !in (pre + first) + [list] + post {
      assert next[k] !in pre + [list] + post;
    }
    var all := (pre + first) + [list] + post;
    forall k | 0 <= k < |all| ensures all[k] < bound1 {
      assert all[k] in pre + [list] + post || all[k] in first;
    }
  }

  // ---------------------------------------------------------------------------
  // unwrapItem

  /** `splitList(li)` followed by `Dom.removeShallow(li.parentNode)`: the list
      now holding `li` is dissolved into its parent. A missing parent, of
      `li` or of the list, is a null dereference. */
  function Dissolve(h: Oracle, d: Dom, li: NodeId): (r: Outcome<(Option<NodeId>, Option<NodeId>)>)
    ensures Parent(d, li).None? ==> r == Thrown(NullReference, d)
    ensures r.Thrown? ==> r.error == NullReference
    ensures forall y: NodeId | y < d.next :: Name(r.dom, y) == Name(d, y)
    ensures d.next <= r.dom.next
  {
    match SplitList(h, d, li)
    case Thrown(e, d1) => Thrown(e, d1)
    case Ok(clones, d1) =>
      match Parent(d1, li)
      case None => Thrown(NullReference, d1)
      case Some(list) =>
        if Parent(d1, list).None? then Thrown(NullReference, d1)
        else Ok(clones, RemoveShallow(d1, list))
  }

  /** An item alone in its list: dissolving the list hangs the item where
      the list was, under the list's parent, with its children unchanged. */
  lemma DissolveAlone(h: Oracle, d: Dom, li: NodeId, list: NodeId, host: NodeId)
    requires Parent(d, li) == Some(list) && Children(d, list) == [li]
    requires Parent(d, list) == Some(host)
    requires li != list && li != host && list != host
    ensures Dissolve(h, d, li).Ok?
    ensures Parent(Dissolve(h, d, li).dom, li) == Some(host)
    ensures Children(Dissolve(h, d, li).dom, li) == Children(d, li)
    ensures Dissolve(h, d, li).dom.next == d.next
  {
    assert Row(d, li) == [li] && IndexOf([li], li) == 0;
    assert PrevAll(d, li) == [] && NextAll(d, li) == [] by {
      assert [li][1..] == [];
    }
    assert SplitList(h, d, li) == Ok((None, None), d);
    var moved := InsertBefore(d, li, list);
    assert MoveBefore(d, [li], list) == moved by {
      assert [li][1..] == [];
    }
    var d0 := Detach(d, li);
    assert Parent(d0, list) == Some(host);
    assert Parent(moved, li) == Some(host);
    assert Children(moved, li) == Children(d, li);
    assert Parent(moved, list) == Some(host);
  }

  /** Unwrapping succeeds once the list is dissolved and the item still
      hangs somewhere. */
  lemma UnwrapItemOk(h: Oracle, d: Dom, li: NodeId)
    requires Dissolve(h, d, li).Ok?
    requires Parent(Dissolve(h, d, li).dom, li).Some?
    requires li !in Children(Dissolve(h, d, li).dom, li) && li < Dissolve(h, d, li).dom.next
    ensures UnwrapItem(h, d, li).Ok?
  {
    var d1 := Dissolve(h, d, li).dom;
    var kids := Children(d1, li);
    var ls := ItemLines(h, d1, li);
    SplitLinesContent(h, d1, Visible(h, d1, kids));
    MaterializeParents(d1, ls, li);
  }

  /** The lines of an item: its rendered children, split by the loop of
      `unwrapItem`. */
  function ItemLines(h: Oracle, d: Dom, li: NodeId): seq<Line> {
    SplitLines(h, d, Visible(h, d, Children(d, li)))
  }

  /** The line nodes made for `ls` in a tree whose next fresh id was `next`:
      a block line is its own node, a paragraph line a fresh `P`. */
  predicate LinesMade(d: Dom, next: NodeId, ls: seq<Line>, ns: seq<NodeId>) {
    |ns| == |ls|
    && (forall i | 0 <= i < |ls| && ls[i].Block? :: ns[i] == ls[i].node)
    && (forall i | 0 <= i < |ls| && ls[i].Paragraph? :: next <= ns[i] < d.next && Name(d, ns[i]) == Upper("p"))
  }

  /** One line made into a node: a block line is its own node; for a
      paragraph line a `p` is created and the run moves into it. */
  function MakeLine(d: Dom, l: Line): (r: (Dom, NodeId))
    ensures l.Block? ==> r == (d, l.node)
    ensures l.Paragraph? ==> r.1 == d.next && r.0.next == d.next + 1 && Name(r.0, r.1) == Upper("p")
    ensures forall y: NodeId | y < d.next :: Name(r.0, y) == Name(d, y)
  {
    match l
    case Block(n) => (d, n)
    case Paragraph(run) =>
      var c := Create(d, Upper("p"));
      (MoveAll(c.0, run, c.1), c.1)
  }

  /** The loop of `unwrapItem`, line by line. */
  function Materialize(d: Dom, ls: seq<Line>): (r: (Dom, seq<NodeId>))
    ensures LinesMade(r.0, d.next, ls, r.1)
    ensures forall i, j | 0 <= i < j < |ls| && ls[i].Paragraph? && ls[j].Paragraph? :: r.1[i] < r.1[j]
    ensures d.next <= r.0.next
    ensures forall y: NodeId | y < d.next :: Name(r.0, y) == Name(d, y)
    decreases |ls|
  {
    if |ls| == 0 then (d, [])
    else
      var first := MakeLine(d, ls[0]);
      var rest := Materialize(first.0, ls[1..]);
      (rest.0, [first.1] + rest.1)
  }

  /** A node below the fresh ids none of whose children are moved keeps its
      child list. */
  lemma {:induction false} MaterializeFrame(d: Dom, ls: seq<Line>, q: NodeId)
    requires q < d.next && Disjoint(Unlines(ls), Children(d, q))
    ensures Children(Materialize(d, ls).0, q) == Children(d, q)
    decreases |ls|
  {
    if |ls| > 0 {
      var first := MakeLine(d, ls[0]);
      ConcatParts(Content(ls[0]), Unlines(ls[1..]), Children(d, q));
      if ls[0].Paragraph? {
        var c := Create(d, Upper("p"));
        MoveAllFrame(c.0, ls[0].run, c.1, q);
      }
      MaterializeFrame(first.0, ls[1..], q);
    }
  }

  /** Each new `p` holds exactly its run, when the lines hold distinct
      existing nodes. */
  lemma {:induction false} MaterializeHolds(d: Dom, ls: seq<Line>)
    requires NoDup(Unlines(ls)) && Below(Unlines(ls), d.next)
    ensures forall i | 0 <= i < |ls| && ls[i].Paragraph? ::
      Children(Materialize(d, ls).0, Materialize(d, ls).1[i]) == ls[i].run
    decreases |ls|
  {
    if |ls| > 0 {
      var head := Content(ls[0]);
      var tail := Unlines(ls[1..]);
      ConcatParts(head, tail, []);
      BelowParts(head, tail, d.next);
      var first := MakeLine(d, ls[0]);
      var r := Materialize(d, ls);
      var rest := Materialize(first.0, ls[1..]);
      assert r.0 == rest.0 && r.1 == [first.1] + rest.1;
      MaterializeHolds(first.0, ls[1..]);
      if ls[0].Paragraph? {
        FirstHeld(d, ls);
      }
      forall i | 1 <= i < |ls| && ls[i].Paragraph?
        ensures Children(r.0, r.1[i]) == ls[i].run
      {
        assert r.1[i] == rest.1[i - 1] && ls[i] == ls[1..][i - 1];
      }
    }
  }

  /** The `p` of a first paragraph line keeps its run while the later lines
      are made. */
  lemma FirstHeld(d: Dom, ls: seq<Line>)
    requires |ls| > 0 && ls[0].Paragraph?
    requires NoDup(ls[0].run) && Disjoint(Unlines(ls[1..]), ls[0].run)
    ensures Children(Materialize(d, ls).0, Materialize(d, ls).1[0]) == ls[0].run
  {
    var c := Create(d, Upper("p"));
    var first := MakeLine(d, ls[0]);
    MoveAllFill(c.0, ls[0].run, c.1);
    assert Children(first.0, first.1) == ls[0].run;
    MaterializeFrame(first.0, ls[1..], first.1);
  }

  /**
   * `unwrapItem(li)`: the list around `li` is split and dissolved, the
   * item's rendered children become lines (a new `p` per inline run), the
   * lines move right after `li`, and `li` is removed. The value is the line
   * nodes, in order.
   */
  function UnwrapItem(h: Oracle, d: Dom, li: NodeId): (r: Outcome<seq<NodeId>>)
    ensures Parent(d, li).None? ==> r == Thrown(NullReference, d)
    ensures r.Thrown? ==> r.error == NullReference
    ensures r.Ok? ==> Dissolve(h, d, li).Ok?
    ensures r.Ok? ==> LinesMade(r.dom, Dissolve(h, d, li).dom.next, ItemLines(h, Dissolve(h, d, li).dom, li), r.value)
    ensures r.Ok? ==> Parent(r.dom, li) == None
    ensures forall y: NodeId | y < d.next :: Name(r.dom, y) == Name(d, y)
    ensures d.next <= r.dom.next
  {
    match Dissolve(h, d, li)
    case Thrown(e, d1) => Thrown(e, d1)
    case Ok(_, d1) =>
      var made := Materialize(d1, ItemLines(h, d1, li));
      match Parent(made.0, li)
      case None => Thrown(NullReference, made.0)
      case Some(_) => Ok(made.1, Detach(MoveAfter(made.0, made.1, li), li))
  }

  /** Nodes outside the lines keep their parent while the lines are made. */
  lemma {:induction false} MaterializeParents(d: Dom, ls: seq<Line>, y: NodeId)
    requires y !in Unlines(ls)
    ensures Parent(Materialize(d, ls).0, y) == Parent(d, y) || d.next <= y
    decreases |ls|
  {
    if |ls| > 0 {
      var first := MakeLine(d, ls[0]);
      assert Unlines(ls) == Content(ls[0]) + Unlines(ls[1..]);
      if ls[0].Paragraph? {
        var c := Create(d, Upper("p"));
        MoveAllParents(c.0, ls[0].run, c.1);
      }
      MaterializeParents(first.0, ls[1..], y);
    }
  }

  /** The line nodes are distinct, and each is one of the lines' nodes or a
      fresh id. */
  lemma {:induction false} MaterializeDistinct(d: Dom, ls: seq<Line>)
    requires NoDup(Unlines(ls)) && Below(Unlines(ls), d.next)
    ensures NoDup(Materialize(d, ls).1)
    ensures forall x | x in Materialize(d, ls).1 :: x in Unlines(ls) || d.next <= x
    decreases |ls|
  {
    if |ls| > 0 {
      var head := Content(ls[0]);
      var tail := Unlines(ls[1..]);
      assert Unlines(ls) == head + tail;
      ConcatParts(head, tail, []);
      BelowParts(head, tail, d.next);
      var first := MakeLine(d, ls[0]);
      var rest := Materialize(first.0, ls[1..]);
      MaterializeDistinct(first.0, ls[1..]);
      var r := Materialize(d, ls);
      assert r.1 == [first.1] + rest.1;
      assert first.1 in head || d.next <= first.1;
      assert first.1 !in rest.1 by {
        if ls[0].Block? {
          assert first.1 in head && first.1 < d.next;
          forall k | 0 <= k < |tail| ensures tail[k] != first.1 {
            assert tail[k] !in head;
          }
        }
      }
      NoDupCons(first.1, rest.1);
    }
  }

  /**
   * The lines take the item's place: in the tree where the list around
   * `li` was dissolved, `li` stood between `pre` and `post` under `p`;
   * afterwards the line nodes stand there, in order, and `li` is gone.
   */
  lemma LinesReplaceItem(h: Oracle, d: Dom, li: NodeId, d1: Dom, p: NodeId,
                         pre: seq<NodeId>, post: seq<NodeId>, r: Outcome<seq<NodeId>>)
    requires r == UnwrapItem(h, d, li)
    requires Dissolve(h, d, li).Ok? && d1 == Dissolve(h, d, li).dom
    requires Parent(d1, li) == Some(p) && Children(d1, p) == pre + [li] + post && li !in pre && li !in post
    requires NoDup(Children(d1, li)) && li !in Children(d1, li) && li < d1.next && p < d1.next
    requires Below(Children(d1, li), d1.next) && Below(Children(d1, p), d1.next)
    requires Disjoint(Children(d1, li), Children(d1, p))
    ensures r.Ok?
    ensures Children(r.dom, p) == pre + r.value + post
  {
    var made := Materialize(d1, ItemLines(h, d1, li));
    LinesReady(h, d1, li, p, made);
    assert r == Ok(made.1, Detach(MoveAfter(made.0, made.1, li), li));
    ReplaceWith(made.0, li, made.1, p, pre, post);
  }

  /** What the line nodes of `li` need to move in after it. */
  lemma LinesReady(h: Oracle, d1: Dom, li: NodeId, p: NodeId, made: (Dom, seq<NodeId>))
    requires made == Materialize(d1, ItemLines(h, d1, li))
    requires NoDup(Children(d1, li)) && li !in Children(d1, li) && li < d1.next && p < d1.next
    requires Below(Children(d1, li), d1.next) && Below(Children(d1, p), d1.next)
    requires Disjoint(Children(d1, li), Children(d1, p))
    ensures Children(made.0, p) == Children(d1, p) && Parent(made.0, li) == Parent(d1, li)
    ensures NoDup(made.1) && li !in made.1 && Disjoint(made.1, Children(d1, p))
  {
    var kids := Children(d1, li);
    var xs := Visible(h, d1, kids);
    var ls := ItemLines(h, d1, li);
    SplitLinesContent(h, d1, xs);
    VisibleNoDup(h, d1, kids);
    SubsetBelow(xs, kids, d1.next);
    SubsetDisjoint(xs, kids, Children(d1, p));
    MaterializeFrame(d1, ls, p);
    MaterializeParents(d1, ls, li);
    MaterializeDistinct(d1, ls);
    DisjointByBound(made.1, xs, Children(d1, p), d1.next);
  }

  /**
   * What `unwrapItem` leaves in each new `p`: when the item's children
   * are distinct existing nodes and the item hangs under an existing node
   * in the tree where the list around it was dissolved, the unwrap
   * succeeds and the `p` of each paragraph line holds exactly that line's
   * run, after the lines moved and the item was removed.
   */
  lemma UnwrapItemHolds(h: Oracle, d: Dom, li: NodeId)
    requires Dissolve(h, d, li).Ok?
    requires var d1 := Dissolve(h, d, li).dom;
      NoDup(Children(d1, li)) && Below(Children(d1, li), d1.next) && li !in Children(d1, li)
      && li < d1.next && Parent(d1, li).Some? && Parent(d1, li).value < d1.next
    ensures UnwrapItem(h, d, li).Ok?
    ensures var ls := ItemLines(h, Dissolve(h, d, li).dom, li);
      var r := UnwrapItem(h, d, li);
      forall i | 0 <= i < |ls| && ls[i].Paragraph? :: Children(r.dom, r.value[i]) == ls[i].run
  {
    var d1 := Dissolve(h, d, li).dom;
    var kids := Children(d1, li);
    var xs := Visible(h, d1, kids);
    var ls := ItemLines(h, d1, li);
    var made := Materialize(d1, ls);
    SplitLinesContent(h, d1, xs);
    VisibleNoDup(h, d1, kids);
    SubsetBelow(xs, kids, d1.next);
    MaterializeHolds(d1, ls);
    MaterializeParents(d1, ls, li);
    var moved := MoveAfter(made.0, made.1, li);
    var r := UnwrapItem(h, d, li);
    assert r == Ok(made.1, Detach(moved, li));
    forall i | 0 <= i < |ls| && ls[i].Paragraph?
      ensures Children(r.dom, r.value[i]) == ls[i].run
    {
      ItemLineApart(d1, ls, made, i);
      MoveAfterFrame(made.0, made.1, li, made.1[i]);
    }
  }

  /** A line node made for `ls` never lies in the run of a paragraph line. */
  lemma ItemLineApart(d1: Dom, ls: seq<Line>, made: (Dom, seq<NodeId>), i: nat)
    requires made == Materialize(d1, ls)
    requires NoDup(Unlines(ls)) && Below(Unlines(ls), d1.next)
    requires i < |ls| && ls[i].Paragraph?
    ensures Disjoint(made.1, ls[i].run)
  {
    ContentIn(ls, i);
    assert forall x | x in ls[i].run :: x < d1.next by {
      forall x | x in ls[i].run ensures x < d1.next {
        assert x in Unlines(ls);
        var k := IndexOf(Unlines(ls), x);
        assert Unlines(ls)[k] == x;
      }
    }
    forall j | 0 <= j < |made.1| ensures made.1[j] !in ls[i].run {
      if ls[j].Block? {
        assert j != i;
        if i < j { LinesApart(ls, i, j); } else { LinesApart(ls, j, i); }
        assert made.1[j] == ls[j].node && ls[j].node in Content(ls[j]);
      } else {
        assert d1.next <= made.1[j];
      }
    }
  }

  // ---------------------------------------------------------------------------
  // unwrapItems

  /** The `reduce` of `unwrapItems`: each item is unwrapped in turn and the
      lines are concatenated; the first error stops the fold. */
  function UnwrapEach(h: Oracle, d: Dom, lis: seq<NodeId>): (r: Outcome<seq<NodeId>>)
    ensures |lis| == 0 ==> r == Ok([], d)
    ensures |lis| > 0 && Parent(d, lis[0]).None? ==> r == Thrown(NullReference, d)
    ensures r.Thrown? ==> r.error == NullReference
    ensures forall y: NodeId | y < d.next :: Name(r.dom, y) == Name(d, y)
    ensures d.next <= r.dom.next
    decreases |lis|
  {
    if |lis| == 0 then Ok([], d)
    else match UnwrapItem(h, d, lis[0])
      case Thrown(e, d1) => Thrown(e, d1)
      case Ok(lines, d1) => Prepend(lines, UnwrapEach(h, d1, lis[1..]))
  }

  /** Lines made earlier go before those of a later step; an error passes. */
  function Prepend(lines: seq<NodeId>, o: Outcome<seq<NodeId>>): (r: Outcome<seq<NodeId>>)
    ensures r.dom == o.dom && r.Ok? == o.Ok?
    ensures o.Thrown? ==> r == o
    ensures o.Ok? ==> |r.value| == |lines| + |o.value|
    ensures o.Ok? ==> r.value[..|lines|] == lines && r.value[|lines|..] == o.value
  {
    match o
    case Thrown(_, _) => o
    case Ok(more, d) => Ok(lines + more, d)
  }

  /** `unwrapItems(nodes)`: only the list items among `nodes` are unwrapped. */
  function UnwrapItems(h: Oracle, d: Dom, nodes: seq<NodeId>): (r: Outcome<seq<NodeId>>)
    ensures |ListItems(h, d, nodes)| == 0 ==> r == Ok([], d)
    ensures r.Thrown? ==> r.error == NullReference
    ensures forall y: NodeId | y < d.next :: Name(r.dom, y) == Name(d, y)
    ensures d.next <= r.dom.next
  {
    UnwrapEach(h, d, ListItems(h, d, nodes))
  }

  /** Unwrapping two runs of items one after the other is unwrapping them
      together: the fold composes, lines in order. */
  lemma {:induction false} UnwrapEachAppend(h: Oracle, d: Dom, a: seq<NodeId>, b: seq<NodeId>, ra: Outcome<seq<NodeId>>)
    requires ra == UnwrapEach(h, d, a)
    ensures ra.Thrown? ==> UnwrapEach(h, d, a + b) == ra
    ensures ra.Ok? ==> UnwrapEach(h, d, a + b) == Prepend(ra.value, UnwrapEach(h, ra.dom, b))
    decreases |a|
  {
    if |a| == 0 {
      assert a + b == b;
      assert ra == Ok([], d);
      assert Prepend([], UnwrapEach(h, d, b)) == UnwrapEach(h, d, b);
    } else {
      var ab := a + b;
      ConsSplit(a, b);
      var one := UnwrapItem(h, d, a[0]);
      UnwrapEachStep(h, d, a, one);
      UnwrapEachStep(h, d, ab, one);
      if one.Ok? {
        var mid := UnwrapEach(h, one.dom, a[1..]);
        UnwrapEachAppend(h, one.dom, a[1..], b, mid);
        if mid.Ok? {
          PrependTwice(one.value, mid.value, UnwrapEach(h, mid.dom, b));
        }
      }
    }
  }

  /** One step of the fold. */
  lemma UnwrapEachStep(h: Oracle, d: Dom, lis: seq<NodeId>, one: Outcome<seq<NodeId>>)
    requires |lis| > 0 && one == UnwrapItem(h, d, lis[0])
    ensures one.Thrown? ==> UnwrapEach(h, d, lis) == one
    ensures one.Ok? ==> UnwrapEach(h, d, lis) == Prepend(one.value, UnwrapEach(h, one.dom, lis[1..]))
  {
  }

  lemma PrependTwice(x: seq<NodeId>, y: seq<NodeId>, o: Outcome<seq<NodeId>>)
    ensures Prepend(x, Prepend(y, o)) == Prepend(x + y, o)
  {
    if o.Ok? {
      assert x + (y + o.value) == (x + y) + o.value;
    }
  }

  /** A single item unwrapped on its own leaves it detached. */
  lemma UnwrapLast(h: Oracle, d: Dom, li: NodeId)
    requires UnwrapEach(h, d, [li]).Ok?
    ensures Parent(UnwrapEach(h, d, [li]).dom, li) == None
    ensures UnwrapEach(h, d, [li]) == UnwrapItem(h, d, li)
  {
    var one := UnwrapItem(h, d, li);
    assert [li][0] == li && [li][1..] == [];
    assert one.Ok? && UnwrapEach(h, one.dom, []) == Ok([], one.dom);
    assert one.value + [] == one.value;
  }
}
