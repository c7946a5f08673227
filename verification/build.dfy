/**
 * `reduceGroup` and `build` of lists.js: turning the groups of a run of
 * siblings into the list items of one new list element.
 */
module Builder {
  import opened Seqs
  import opened Dom
  import opened Html
  import opened Grouping
  import opened Cleanup

  /** The tree and the list items made so far (the `reduce` accumulator). */
  datatype Items = Items(dom: Dom, items: seq<NodeId>)

  /**
   * `reduceGroup(list, children)`: when some member of the group is
   * rendered, a new `li` is created, the rendered members move into it and
   * it is added to the items; otherwise nothing happens.
   */
  function ReduceGroup(h: Oracle, acc: Items, group: seq<NodeId>): (r: Items)
    ensures |Visible(h, acc.dom, group)| == 0 ==> r == acc
    ensures |Visible(h, acc.dom, group)| > 0 ==>
      r.items == acc.items + [acc.dom.next] && r.dom.next == acc.dom.next + 1
      && Name(r.dom, acc.dom.next) == Upper("li")
    ensures forall x | x in Visible(h, acc.dom, group) :: Parent(r.dom, x) == Some(acc.dom.next)
    ensures forall y: NodeId | y != acc.dom.next && y !in group :: Parent(r.dom, y) == Parent(acc.dom, y)
    ensures forall y: NodeId | y != acc.dom.next && Children(acc.dom, y) == [] :: Children(r.dom, y) == []
    ensures forall y: NodeId | y != acc.dom.next :: Name(r.dom, y) == Name(acc.dom, y)
    ensures |Visible(h, acc.dom, group)| > 0 && acc.dom.next !in group ==> Parent(r.dom, acc.dom.next) == None
  {
    var vis := Visible(h, acc.dom, group);
    if |vis| == 0 then acc
    else
      var c := Create(acc.dom, Upper("li"));
      var moved := MoveAll(c.0, vis, c.1);
      MoveAllParents(c.0, vis, c.1);
      assert forall y: NodeId | y != c.1 && Children(acc.dom, y) == [] :: Children(moved, y) == [] by {
        forall y: NodeId | y != c.1 && Children(acc.dom, y) == []
          ensures Children(moved, y) == []
        {
          MoveAllFrame(c.0, vis, c.1, y);
        }
      }
      Items(moved, acc.items + [c.1])
  }

  /** A new list item holds exactly the rendered members of its group, in
      their original order. */
  lemma ItemHoldsVisible(h: Oracle, acc: Items, group: seq<NodeId>)
    requires NoDup(group)
    requires |Visible(h, acc.dom, group)| > 0
    ensures Children(ReduceGroup(h, acc, group).dom, acc.dom.next) == Visible(h, acc.dom, group)
  {
    var vis := Visible(h, acc.dom, group);
    var c := Create(acc.dom, Upper("li"));
    VisibleNoDup(h, acc.dom, group);
    MoveAllFill(c.0, vis, c.1);
  }

  /** `groups.reduce(reduceGroup, [])`: the items made are consecutive fresh
      ids, at most one per group. */
  function ReduceGroups(h: Oracle, acc: Items, groups: seq<seq<NodeId>>): (r: Items)
    ensures |acc.items| <= |r.items| <= |acc.items| + |groups|
    ensures r.items[..|acc.items|] == acc.items
    ensures r.dom.next == acc.dom.next + (|r.items| - |acc.items|)
    ensures forall k | |acc.items| <= k < |r.items| :: r.items[k] == acc.dom.next + (k - |acc.items|)
    decreases |groups|
  {
    if |groups| == 0 then acc
    else
      var mid := ReduceGroup(h, acc, groups[0]);
      var r := ReduceGroups(h, mid, groups[1..]);
      assert FreshItems(acc, mid) by {
        if |Visible(h, acc.dom, groups[0])| > 0 {
          assert mid.items[..|acc.items|] == acc.items;
        }
      }
      FreshTrans(acc, mid, r);
      r
  }

  /** `b` extends the items of `a` by consecutive fresh ids. */
  predicate FreshItems(a: Items, b: Items) {
    |a.items| <= |b.items| && b.items[..|a.items|] == a.items
    && b.dom.next == a.dom.next + (|b.items| - |a.items|)
    && forall k | |a.items| <= k < |b.items| :: b.items[k] == a.dom.next + (k - |a.items|)
  }

  lemma FreshTrans(a: Items, b: Items, c: Items)
    requires FreshItems(a, b) && FreshItems(b, c)
    ensures FreshItems(a, c)
  {
    assert c.items[..|a.items|] == c.items[..|b.items|][..|a.items|];
    forall k | |a.items| <= k < |c.items|
      ensures c.items[k] == a.dom.next + (k - |a.items|)
    {
      if k < |b.items| {
        assert c.items[k] == c.items[..|b.items|][k];
      }
    }
  }

  /** What the items do not touch: nodes outside the groups keep their
      parent, childless nodes stay childless, names stay, and every item is
      an `li`. */
  lemma {:induction false} ReduceGroupsFrame(h: Oracle, acc: Items, groups: seq<seq<NodeId>>, r: Items)
    requires r == ReduceGroups(h, acc, groups)
    ensures forall y: NodeId | y < acc.dom.next && y !in Flatten(groups) :: Parent(r.dom, y) == Parent(acc.dom, y)
    ensures forall y: NodeId | y < acc.dom.next && Children(acc.dom, y) == [] :: Children(r.dom, y) == []
    ensures forall y: NodeId | y < acc.dom.next :: Name(r.dom, y) == Name(acc.dom, y)
    ensures forall k | |acc.items| <= k < |r.items| :: Name(r.dom, r.items[k]) == Upper("li")
    decreases |groups|
  {
    if |groups| > 0 {
      var mid := ReduceGroup(h, acc, groups[0]);
      ReduceGroupsFrame(h, mid, groups[1..], r);
      assert Flatten(groups) == groups[0] + Flatten(groups[1..]);
      forall k | |acc.items| <= k < |r.items|
        ensures Name(r.dom, r.items[k]) == Upper("li")
      {
        if k < |mid.items| {
          assert r.items[k] == mid.items[k] == acc.dom.next;
        }
      }
    }
  }

  /** The group members and their parents are ids already in use, so none
      of them is an item the fold makes. */
  predicate Settled(d: Dom, xs: seq<NodeId>) {
    forall x | x in xs :: x < d.next && (Parent(d, x).Some? ==> Parent(d, x).value < d.next)
  }

  /** The rendered members of each group that has one, as the fold meets
      the groups: one entry per item the fold makes, in order. */
  function Made(h: Oracle, acc: Items, groups: seq<seq<NodeId>>): seq<seq<NodeId>>
    decreases |groups|
  {
    if |groups| == 0 then []
    else
      var vis := Visible(h, acc.dom, groups[0]);
      (if |vis| > 0 then [vis] else []) + Made(h, ReduceGroup(h, acc, groups[0]), groups[1..])
  }

  /** After one step the later groups are still distinct and settled, and
      their members keep their parents. */
  lemma SettledStep(h: Oracle, acc: Items, groups: seq<seq<NodeId>>)
    requires |groups| > 0 && NoDup(Flatten(groups)) && Settled(acc.dom, Flatten(groups))
    ensures NoDup(groups[0]) && NoDup(Flatten(groups[1..]))
    ensures Settled(ReduceGroup(h, acc, groups[0]).dom, Flatten(groups[1..]))
    ensures forall x | x in Flatten(groups[1..]) ::
      Parent(ReduceGroup(h, acc, groups[0]).dom, x) == Parent(acc.dom, x)
  {
    var mid := ReduceGroup(h, acc, groups[0]);
    assert Flatten(groups) == groups[0] + Flatten(groups[1..]);
    ConcatParts(groups[0], Flatten(groups[1..]), []);
    forall x | x in Flatten(groups[1..])
      ensures Parent(mid.dom, x) == Parent(acc.dom, x)
    {
      assert x !in groups[0] && x < acc.dom.next;
    }
  }

  /** One step keeps the children of a node that is no member's parent. */
  lemma ReduceGroupKeeps(h: Oracle, acc: Items, group: seq<NodeId>, y: NodeId)
    requires y < acc.dom.next
    requires forall x | x in group :: x < acc.dom.next && Parent(acc.dom, x) != Some(y)
    ensures Children(ReduceGroup(h, acc, group).dom, y) == Children(acc.dom, y)
  {
    var vis := Visible(h, acc.dom, group);
    if |vis| > 0 {
      var c := Create(acc.dom, Upper("li"));
      MoveAllKeeps(c.0, vis, c.1, y);
    }
  }

  /** The whole fold keeps the children of a node that is no member's
      parent, an earlier item among them. */
  lemma {:induction false} ReduceGroupsKeeps(h: Oracle, acc: Items, groups: seq<seq<NodeId>>, y: NodeId)
    requires NoDup(Flatten(groups)) && Settled(acc.dom, Flatten(groups))
    requires y < acc.dom.next
    requires forall x | x in Flatten(groups) :: Parent(acc.dom, x) != Some(y)
    ensures Children(ReduceGroups(h, acc, groups).dom, y) == Children(acc.dom, y)
    decreases |groups|
  {
    if |groups| > 0 {
      var mid := ReduceGroup(h, acc, groups[0]);
      SettledStep(h, acc, groups);
      assert Flatten(groups) == groups[0] + Flatten(groups[1..]);
      forall x | x in groups[0]
        ensures x < acc.dom.next && Parent(acc.dom, x) != Some(y)
      {
        FlattenMember(groups, 0, x);
        assert x in Flatten(groups);
        assert x < acc.dom.next;
      }
      ReduceGroupKeeps(h, acc, groups[0], y);
      forall x | x in Flatten(groups[1..])
        ensures Parent(mid.dom, x) != Some(y)
      {
        assert x in groups[0] + Flatten(groups[1..]);
      }
      ReduceGroupsKeeps(h, mid, groups[1..], y);
    }
  }

  /** From position `a` on, the items of `r` hold the node lists of `made`,
      one item per list and in order. */
  predicate Holds(r: Items, a: nat, made: seq<seq<NodeId>>)
  {
    |r.items| == a + |made|
    && forall k | 0 <= k < |made| :: Children(r.dom, r.items[a + k]) == made[k]
  }

  /**
   * At the end of the fold, over distinct groups of nodes already in use,
   * there is one item per group that had a rendered member when the fold
   * reached it, and that item holds exactly those rendered members.
   */
  lemma {:induction false} ItemsHoldGroups(h: Oracle, acc: Items, groups: seq<seq<NodeId>>, r: Items,
                                           made: seq<seq<NodeId>>)
    requires r == ReduceGroups(h, acc, groups) && made == Made(h, acc, groups)
    requires NoDup(Flatten(groups)) && Settled(acc.dom, Flatten(groups))
    ensures Holds(r, |acc.items|, made)
    decreases |groups|
  {
    if |groups| > 0 {
      var vis := Visible(h, acc.dom, groups[0]);
      var mid := ReduceGroup(h, acc, groups[0]);
      var rest := Made(h, mid, groups[1..]);
      SettledStep(h, acc, groups);
      assert r == ReduceGroups(h, mid, groups[1..]);
      ItemsHoldGroups(h, mid, groups[1..], r, rest);
      if |vis| > 0 {
        assert made == [vis] + rest;
        forall x | x in Flatten(groups[1..])
          ensures Parent(mid.dom, x) != Some(acc.dom.next)
        {
          assert Parent(mid.dom, x) == Parent(acc.dom, x);
        }
        ReduceGroupsKeeps(h, mid, groups[1..], acc.dom.next);
        ItemHoldsVisible(h, acc, groups[0]);
        assert r.items[|acc.items|] == acc.dom.next;
        HoldCons(r, |acc.items|, vis, rest, made);
      } else {
        assert made == rest && |mid.items| == |acc.items|;
      }
    }
  }

  /** The items the fold makes hang nowhere yet. */
  lemma {:induction false} ItemsOrphan(h: Oracle, acc: Items, groups: seq<seq<NodeId>>, r: Items)
    requires r == ReduceGroups(h, acc, groups)
    requires Below(Flatten(groups), acc.dom.next)
    ensures forall k | |acc.items| <= k < |r.items| :: Parent(r.dom, r.items[k]) == None
    decreases |groups|
  {
    if |groups| > 0 {
      var mid := ReduceGroup(h, acc, groups[0]);
      assert Flatten(groups) == groups[0] + Flatten(groups[1..]);
      BelowParts(groups[0], Flatten(groups[1..]), acc.dom.next);
      assert acc.dom.next !in groups[0] && acc.dom.next !in Flatten(groups[1..]);
      assert Below(Flatten(groups[1..]), mid.dom.next);
      assert r == ReduceGroups(h, mid, groups[1..]);
      ItemsOrphan(h, mid, groups[1..], r);
      if |Visible(h, acc.dom, groups[0])| > 0 {
        ReduceGroupsFrame(h, mid, groups[1..], r);
        assert r.items[|acc.items|] == acc.dom.next;
      }
      OrphanFrom(r, |acc.items|, |mid.items|);
    }
  }

  /** Orphans from position `m` on, and every position between `a` and `m`
      an orphan too, are orphans from `a` on. */
  lemma OrphanFrom(r: Items, a: nat, m: nat)
    requires a <= m <= |r.items|
    requires forall k | a <= k < m :: Parent(r.dom, r.items[k]) == None
    requires forall k | m <= k < |r.items| :: Parent(r.dom, r.items[k]) == None
    ensures forall k | a <= k < |r.items| :: Parent(r.dom, r.items[k]) == None
  {
  }

  /** Every list the fold puts in an item is non-empty and drawn from the
      groups. */
  lemma {:induction false} MadeMembers(h: Oracle, acc: Items, groups: seq<seq<NodeId>>)
    ensures |Made(h, acc, groups)| <= |groups|
    ensures forall k | 0 <= k < |Made(h, acc, groups)| :: |Made(h, acc, groups)[k]| > 0
    ensures forall k, x | 0 <= k < |Made(h, acc, groups)| && x in Made(h, acc, groups)[k] :: x in Flatten(groups)
    decreases |groups|
  {
    if |groups| > 0 {
      var vis := Visible(h, acc.dom, groups[0]);
      var rest := Made(h, ReduceGroup(h, acc, groups[0]), groups[1..]);
      var made := Made(h, acc, groups);
      MadeMembers(h, ReduceGroup(h, acc, groups[0]), groups[1..]);
      assert Flatten(groups) == groups[0] + Flatten(groups[1..]);
      if |vis| > 0 {
        assert made == [vis] + rest;
        forall k, x | 0 <= k < |made| && x in made[k] ensures x in Flatten(groups) {
          if k > 0 {
            assert made[k] == rest[k - 1];
          }
        }
      }
    }
  }

  /** The first item holding `vis` and the later ones holding `rest` is the
      items holding `[vis] + rest`. */
  lemma HoldCons(r: Items, a: nat, vis: seq<NodeId>, rest: seq<seq<NodeId>>, made: seq<seq<NodeId>>)
    requires made == [vis] + rest
    requires a < |r.items| && Children(r.dom, r.items[a]) == vis
    requires Holds(r, a + 1, rest)
    ensures Holds(r, a, made)
  {
    forall k | 0 < k < |made|
      ensures Children(r.dom, r.items[a + k]) == made[k]
    {
      assert made[k] == rest[k - 1] && a + k == (a + 1) + (k - 1);
    }
  }

  /** A collapsed selection in `format`, and the first node in `build`:
      the nearest ancestor-or-self of `n` that is not inline. */
  function InlineRoot(h: Oracle, d: Dom, n: NodeId): (r: Result<NodeId>)
    ensures r.Success? ==> !HasInlineStyle(h, d, r.value)
    ensures r.Success? ==> exists k: nat :: Up(d, n, k) == Some(r.value)
                                         && Passes(d, n, k, (x: NodeId) => HasInlineStyle(h, d, x))
    ensures !HasInlineStyle(h, d, n) ==> r == Success(n)
    ensures HasInlineStyle(h, d, n) && Parent(d, n).None? ==> r == Failure(NullReference)
  {
    var c := UpWhile(d, Some(n), (x: NodeId) => HasInlineStyle(h, d, x));
    Landed(c)
  }

  /**
   * Where the list goes (lists.js `build`, before the nesting check): the
   * first node's nearest ancestor-or-self that is line-breaking or right
   * below the editing host, or that node's parent when it is a list item
   * without a previous sibling.
   */
  function Anchor(h: Oracle, d: Dom, first: NodeId): (r: Result<NodeId>)
    ensures !HasInlineStyle(h, d, first) && !(IsListItem(h, d, first) && PrevSibling(d, first).None?) ==>
      r == Success(first)
    ensures !HasInlineStyle(h, d, first) && IsListItem(h, d, first) && PrevSibling(d, first).None? ==>
      r == (if Parent(d, first).Some? then Success(Parent(d, first).value) else Failure(NullReference))
    ensures HasInlineStyle(h, d, first) && Parent(d, first).None? ==> r == Failure(NullReference)
    ensures r.Success? ==>
      exists k: nat :: (Up(d, first, k).Some?
                        && Passes(d, first, k, (x: NodeId) => HasInlineStyle(h, d, x))
                        && !HasInlineStyle(h, d, Up(d, first, k).value)
                        && Lifted(h, d, Up(d, first, k).value, r.value))
  {
    match InlineRoot(h, d, first)
    case Failure(e) => Failure(e)
    case Success(n) =>
      if IsListItem(h, d, n) && PrevSibling(d, n).None? then
        match Parent(d, n)
        case None => Failure(NullReference)
        case Some(p) => Success(p)
      else Success(n)
  }

  /** Where the list goes for the climb's node `n`: its parent when it is a
      list item without previous sibling, else `n` itself. */
  predicate Lifted(h: Oracle, d: Dom, n: NodeId, a: NodeId) {
    if IsListItem(h, d, n) && PrevSibling(d, n).None? then Parent(d, n) == Some(a) else a == n
  }

  /** The tree after the list is created, inserted and filled, before the
      cleanup: the list, its items and the grouping used. */
  datatype Assembled = Assembled(dom: Dom, list: NodeId, items: seq<NodeId>, grouping: Grouping)

  /** The mutating part of `build`: create the list element, group the
      nodes, insert the list before the anchor, make the items and move them
      into the list. */
  function Assemble(h: Oracle, ty: string, d: Dom, nodes: seq<NodeId>, anchor: NodeId): (r: Assembled)
    ensures r.list == d.next && Name(r.dom, r.list) == Upper(ty)
    ensures |r.items| <= |r.grouping.groups|
    ensures forall k | 0 <= k < |r.items| :: r.items[k] == d.next + 1 + k && Name(r.dom, r.items[k]) == Upper("li")
    ensures r.dom.next == d.next + 1 + |r.items|
  {
    var c := Create(d, Upper(ty));
    var grouping := GroupNodes(h, c.0, nodes);
    var placed := InsertBefore(c.0, c.1, anchor);
    var made := ReduceGroups(h, Items(placed, []), grouping.groups);
    ReduceGroupsFrame(h, Items(placed, []), grouping.groups, made);
    Assembled(MoveAll(made.dom, made.items, c.1), c.1, made.items, grouping)
  }

  /** The new list hangs under the anchor's parent and holds exactly the new
      items, in order, provided the new element's id is not already in use
      there. */
  lemma AssembleShape(h: Oracle, ty: string, d: Dom, nodes: seq<NodeId>, anchor: NodeId, host: NodeId, r: Assembled)
    requires r == Assemble(h, ty, d, nodes, anchor)
    requires Parent(d, anchor) == Some(host) && host != d.next && anchor != d.next
    requires d.next !in Flatten(r.grouping.groups)
    ensures Children(r.dom, r.list) == r.items
    ensures Parent(r.dom, r.list) == Some(host)
  {
    var c := Create(d, Upper(ty));
    var placed := InsertBefore(c.0, c.1, anchor);
    var made := ReduceGroups(h, Items(placed, []), r.grouping.groups);
    ListPlaced(h, d, anchor, host, placed, r.grouping.groups, made);
    MoveAllFill(made.dom, made.items, c.1);
    MoveAllParents(made.dom, made.items, c.1);
  }

  /** `Dom.insert(list, node)`: the new, empty list goes right before the
      anchor among the children of the anchor's parent. */
  lemma ListBeforeAnchor(d: Dom, ty: string, anchor: NodeId, host: NodeId, pre: seq<NodeId>, post: seq<NodeId>)
    requires Parent(d, anchor) == Some(host) && anchor != d.next && host != d.next
    requires Children(d, host) == pre + [anchor] + post && anchor !in pre && d.next !in Children(d, host)
    ensures Children(InsertBefore(Create(d, Upper(ty)).0, d.next, anchor), host) == pre + [d.next, anchor] + post
    ensures Children(InsertBefore(Create(d, Upper(ty)).0, d.next, anchor), d.next) == []
  {
    var c := Create(d, Upper(ty));
    InsertBeforeStep(c.0, c.1, anchor, host, pre, post);
    assert (pre + [d.next]) + [anchor] + post == pre + [d.next, anchor] + post;
  }

  /** Before the items move in, the new list is empty and hangs under the
      anchor's parent, and the items are distinct fresh ids. */
  lemma ListPlaced(h: Oracle, d: Dom, anchor: NodeId, host: NodeId, placed: Dom,
                   groups: seq<seq<NodeId>>, made: Items)
    requires placed.next == d.next + 1
    requires Children(placed, d.next) == [] && Parent(placed, d.next) == Some(host)
    requires made == ReduceGroups(h, Items(placed, []), groups)
    requires d.next !in Flatten(groups)
    ensures Children(made.dom, d.next) == [] && Parent(made.dom, d.next) == Some(host)
    ensures NoDup(made.items) && d.next !in made.items
  {
    ReduceGroupsFrame(h, Items(placed, []), groups, made);
    assert NoDup(made.items) by {
      forall i, j | 0 <= i < j < |made.items| ensures made.items[i] != made.items[j] {
        assert made.items[i] == placed.next + i;
      }
    }
  }

  /** What `Assemble` gives each new item: the rendered members of each
      group as the fold reaches it, in the tree the new list was inserted
      into. */
  function Given(h: Oracle, ty: string, d: Dom, nodes: seq<NodeId>, anchor: NodeId): seq<seq<NodeId>> {
    var c := Create(d, Upper(ty));
    Made(h, Items(InsertBefore(c.0, c.1, anchor), []), GroupNodes(h, c.0, nodes).groups)
  }

  /** Over distinct grouped nodes already in use, each new item holds the
      nodes it was given: a non-empty run of grouped nodes. */
  lemma AssembleHolds(h: Oracle, ty: string, d: Dom, nodes: seq<NodeId>, anchor: NodeId, r: Assembled)
    requires r == Assemble(h, ty, d, nodes, anchor)
    requires NoDup(Flatten(r.grouping.groups)) && Settled(d, Flatten(r.grouping.groups))
    ensures Holds(Items(r.dom, r.items), 0, Given(h, ty, d, nodes, anchor))
    ensures forall k | 0 <= k < |Given(h, ty, d, nodes, anchor)| :: |Given(h, ty, d, nodes, anchor)[k]| > 0
    ensures forall k, x | 0 <= k < |Given(h, ty, d, nodes, anchor)| && x in Given(h, ty, d, nodes, anchor)[k] ::
      x in Flatten(r.grouping.groups)
  {
    var c := Create(d, Upper(ty));
    var placed := InsertBefore(c.0, c.1, anchor);
    SettledPlaced(d, ty, anchor, Flatten(r.grouping.groups));
    var made := ReduceGroups(h, Items(placed, []), r.grouping.groups);
    assert r.dom == MoveAll(made.dom, made.items, c.1) && r.items == made.items;
    HoldsFromFold(h, Items(placed, []), r.grouping.groups, made, Given(h, ty, d, nodes, anchor), c.1);
  }

  /** The fold from no items over distinct settled groups, followed by the
      move of its items into a node older than all of them, leaves each item
      holding what the fold gave it. */
  lemma HoldsFromFold(h: Oracle, acc: Items, groups: seq<seq<NodeId>>, made: Items,
                      given: seq<seq<NodeId>>, p: NodeId)
    requires acc.items == [] && made == ReduceGroups(h, acc, groups) && given == Made(h, acc, groups)
    requires NoDup(Flatten(groups)) && Settled(acc.dom, Flatten(groups))
    requires Below(Flatten(groups), acc.dom.next) && p < acc.dom.next
    ensures Holds(Items(MoveAll(made.dom, made.items, p), made.items), 0, given)
    ensures forall k | 0 <= k < |given| :: |given[k]| > 0
    ensures forall k, x | 0 <= k < |given| && x in given[k] :: x in Flatten(groups)
  {
    ItemsHoldGroups(h, acc, groups, made, given);
    ItemsOrphan(h, acc, groups, made);
    MadeMembers(h, acc, groups);
    HoldsAfterMove(made, p, given);
  }

  /** Creating the list and inserting it keeps settled nodes settled. */
  lemma SettledPlaced(d: Dom, ty: string, anchor: NodeId, xs: seq<NodeId>)
    requires Settled(d, xs)
    ensures Settled(InsertBefore(Create(d, Upper(ty)).0, d.next, anchor), xs)
    ensures Below(xs, d.next + 1)
  {
    var c := Create(d, Upper(ty));
    var placed := InsertBefore(c.0, c.1, anchor);
    forall x | x in xs
      ensures x < placed.next && (Parent(placed, x).Some? ==> Parent(placed, x).value < placed.next)
    {
      assert Parent(placed, x) == Parent(c.0, x) == Parent(d, x);
    }
    assert forall i | 0 <= i < |xs| :: xs[i] in xs;
  }

  /** Moving unplaced items into a list that is none of them keeps what
      they hold. */
  lemma HoldsAfterMove(made: Items, p: NodeId, contents: seq<seq<NodeId>>)
    requires Holds(made, 0, contents)
    requires forall k | 0 <= k < |made.items| :: Parent(made.dom, made.items[k]) == None && made.items[k] != p
    ensures Holds(Items(MoveAll(made.dom, made.items, p), made.items), 0, contents)
  {
    forall k | 0 <= k < |contents|
      ensures Children(MoveAll(made.dom, made.items, p), made.items[k]) == contents[k]
    {
      assert Children(made.dom, made.items[0 + k]) == contents[k];
      MoveAllKeeps(made.dom, made.items, p, made.items[k]);
    }
  }

  /** The assembled tree: the new list under `host` holding the new items,
      each holding its non-empty run `given[k]` of grouped nodes. */
  predicate Shaped(r: Assembled, host: NodeId, given: seq<seq<NodeId>>) {
    Parent(r.dom, r.list) == Some(host) && Children(r.dom, r.list) == r.items
    && Holds(Items(r.dom, r.items), 0, given)
    && (forall k | 0 <= k < |given| :: |given[k]| > 0)
    && forall k, x | 0 <= k < |given| && x in given[k] :: x in Flatten(r.grouping.groups)
  }

  /**
   * When nesting is allowed, `build` assembles the list under the anchor's
   * parent and then only runs the cleanup climbs from the grouping's
   * parents.
   */
  lemma BuildLists(h: Oracle, ty: string, d: Dom, nodes: seq<NodeId>, anchor: NodeId, host: NodeId)
    requires |nodes| > 0 && Anchor(h, d, nodes[0]) == Success(anchor) && Parent(d, anchor) == Some(host)
    requires h.allowsNesting(Name(d, host), ty)
    requires anchor < d.next && host < d.next
    requires NoDup(Flatten(Assemble(h, ty, d, nodes, anchor).grouping.groups))
    requires Settled(d, Flatten(Assemble(h, ty, d, nodes, anchor).grouping.groups))
    ensures var a := Assemble(h, ty, d, nodes, anchor);
      Build(h, ty, d, nodes) == Ok(Some(a.list), RemoveAll(h, a.dom, a.grouping.parents))
      && Shaped(a, host, Given(h, ty, d, nodes, anchor))
  {
    var a := Assemble(h, ty, d, nodes, anchor);
    assert d.next !in Flatten(a.grouping.groups);
    AssembleShape(h, ty, d, nodes, anchor, host, a);
    AssembleHolds(h, ty, d, nodes, anchor, a);
  }

  /**
   * `build(type, nodes)`. The value is the new list element, or none for an
   * empty input. Every error is thrown before the tree changes.
   */
  function Build(h: Oracle, ty: string, d: Dom, nodes: seq<NodeId>): (r: Outcome<Option<NodeId>>)
    ensures |nodes| == 0 ==> r == Ok(None, d)
    ensures r.Thrown? ==> r.dom == d
    ensures |nodes| > 0 && r.Ok? ==> r.value == Some(d.next) && Name(r.dom, d.next) == Upper(ty)
    ensures |nodes| > 0 && Anchor(h, d, nodes[0]).Success? && Parent(d, Anchor(h, d, nodes[0]).value).Some?
      ==> (r.Thrown? <==> !h.allowsNesting(Name(d, Parent(d, Anchor(h, d, nodes[0]).value).value), ty))
  {
    if |nodes| == 0 then Ok(None, d)
    else match Anchor(h, d, nodes[0])
      case Failure(e) => Thrown(e, d)
      case Success(a) =>
        match Parent(d, a)
        case None => Thrown(NullReference, d)
        case Some(host) =>
          if !h.allowsNesting(Name(d, host), ty) then Thrown(IllegalNesting, d)
          else
            var made := Assemble(h, ty, d, nodes, a);
            Ok(Some(made.list), RemoveAll(h, made.dom, made.grouping.parents))
  }
}
