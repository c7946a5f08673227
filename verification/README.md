# Lists: formatting and unformatting lists in an editable document tree

This project models, in Dafny, the list engine of Aloha Editor (`src/lists.js`).
It covers the two public operations and every private helper they use:

- `format(type, start, end)` wraps the blocks a selection touches into a new `ul`/`ol`.
  It finds the two extremal nodes, collects the siblings between them and the inline
  nodes around them, groups those nodes into list items, inserts the list, and
  removes wrappers left invisible.
- `unformat(start, end)` dissolves the list items around each end of a selection.
  It splits the list at the item, dissolves the list shell, turns the item's rendered
  children into lines (each run of inline nodes gets a new `p`), and puts the lines
  where the item stood.

The document is an explicit tree value (`Dom.Dom`): a map from node ids to nodes, each
with a name, an optional parent and an ordered child list, plus a counter for fresh
ids. Each operation is a pure function from tree to tree.

Everything the source gets from other modules is a parameter of the model:

- Classification (`Html.hasLinebreakingStyle`, `isListItem`, `isRendered`,
  `isGroupContainer`, `isVoidType`, `isHeading`, `isListContainer`,
  `Content.allowsNesting`, `Dom.isEditingHost`) is the `Html.Oracle` record.
- Selection navigation (`Boundaries.nextNode`, `prevNode`, `commonContainer`) is the
  `Format.Navigator` record.

A JavaScript exception becomes `Thrown(error, tree)`. This covers an `Assert.assert`
failure and a property read on `null`. The tree is kept as it stood when the exception
happened, because the source has no rollback. Reading `lines[0]` of an empty line list
is not an exception: it yields `undefined`, which the model keeps as an absent
container (`Unformat.Mark(None, 0)`), and `unformat` carries on.

Modules, in dependency order:

| module | file | models |
|---|---|---|
| `Seqs` | seqs.dfy | sequence vocabulary (distinctness, bounds, flatten, removal) |
| `Dom` | dom.dfy | the tree, `createElement`, `insert`/`move`/`moveBefore`/`moveAfter`/`remove`/`removeShallow`, siblings, `upWhile` |
| `Html` | html.dfy | classification, `hasInlineStyle`, `isCollectLimit`, the filters and `Arrays.split` |
| `Siblings` | siblings.dfy | `collectSiblings` |
| `Grouping` | grouping.dfy | `groupNodes` |
| `Cleanup` | cleanup.dfy | `removeInvisibleNodes` |
| `Builder` | build.dfy | `reduceGroup`, `build` |
| `Format` | format.dfy | `format` |
| `Lines` | lines.dfy | the line-splitting loop of `unwrapItem` |
| `Unwrap` | unwrap.dfy | `splitList`, `unwrapItem`, `unwrapItems` |
| `Unformat` | unformat.dfy | `unformat` |

## Model

| member | source | states |
|---|---|---|
| `Html.HasInlineStyle` | src/lists.js:37-40 | predicate: not line-breaking, and not right below the editing host; the climb of `build` passes exactly such nodes (`Builder.InlineRoot`) |
| `Html.IsCollectLimit` | src/lists.js:93-95 | predicate: line-breaking and not a list item; `Siblings.CollectSiblingsSpan` widens over nodes that fail it and stops at one that holds |
| `Html.SplitAtBreak` | src/lists.js:151-153 | `Arrays.split` by line-breaking style: the two parts concatenate back to the input, the first holds no line-breaking node, and the second, when non-empty, starts with one |
| `Html.Visible` | src/lists.js:55 | the rendered filter keeps exactly the members that are rendered |
| `Html.ListItems` | src/lists.js:310 | the list-item filter keeps exactly the members that are list items |
| `Html.VisibleNoDup` | src/lists.js:55-58 | filtering distinct nodes for rendered ones keeps them distinct, so `Dom.move` of them is well defined |
| `Siblings.TakeUntil` | src/lists.js:110-114 | `Dom.nextSiblings(n, until)`: the longest prefix of the following siblings with no node satisfying `until`, stopping right before the first one that does |
| `Siblings.TakeBackUntil` | src/lists.js:108 | `Dom.prevSiblings(n, until)`: the longest suffix of the preceding siblings with no limit node, in document order |
| `Siblings.CollectSiblings` | src/lists.js:107-115 | both `start` and `end` are among the collected nodes |
| `Siblings.CollectSiblingsSpan` | src/lists.js:93-115 | for siblings `start` at or before `end`, the collected nodes are one contiguous slice of their row; it widens from `start` and from `end` over nodes that are not collect limits, and stops at a limit or at the row's end |
| `Siblings.CollectAroundOne` | src/lists.js:107-115 | collecting around a single node yields that node exactly once, with no duplicates |
| `Grouping.Unwrappable` | src/lists.js:141-144 | predicate: a line-breaking node that is no group container, void element or heading; `Grouping.GroupContent` replaces exactly such nodes by their children |
| `Grouping.GroupNodes` | src/lists.js:132-162 | every group is non-empty; there is one `parents` entry per iteration and at least as many as groups; the first entry is the first node itself when it is unwrapped, else its parent |
| `Grouping.GroupContent` | src/lists.js:139-157 | concatenating the groups gives the input in order, each unwrappable block replaced by its children; nothing is dropped or duplicated |
| `Grouping.GroupParents` | src/lists.js:141-150 | the `parents` are exactly the owners of the iteration starts: the first node and each later line-breaking node |
| `Grouping.GroupTails` | src/lists.js:144-156 | every group is one start node's contribution followed only by inline nodes |
| `Cleanup.StopsClimb` | src/lists.js:82-89 | predicate: the climb's stop test, false for an empty list item and otherwise true for a node with no parent, the editing host or a rendered node; `Cleanup.ClimbStops` shows each removed node failed it |
| `Cleanup.RemoveInvisibleNodes` | src/lists.js:75-91 | a node that stops the climb (no parent, the editing host, or rendered, but never an empty list item) is left alone; otherwise it is removed first; every removed node ends detached, every other node keeps its parent, the node the climb stopped at does stop it, the editing host is removed only when it is a list item (`Cleanup.ClimbStops` adds that it was then empty), and names and used ids are kept |
| `Cleanup.ClimbStops` | src/lists.js:75-91 | each removed node fails the stop test in the tree as it stands when the climb reaches it, after the earlier removals; the result is the original tree with the removed nodes detached in order |
| `Cleanup.ClimbChain` | src/lists.js:75-91 | on an acyclic tree the removed nodes form a parent chain of the original tree, and the last one hung under the node the climb stopped at |
| `Cleanup.RemoveAll` | src/lists.js:188 | running the cleanup over every recorded parent only ever detaches nodes, and keeps names and fresh ids |
| `Builder.ReduceGroup` | src/lists.js:53-62 | a group with no rendered member adds nothing; otherwise exactly one fresh `LI` is appended, the rendered members move under it, and no other node changes parent |
| `Builder.ItemHoldsVisible` | src/lists.js:55-58 | a new list item holds exactly the rendered members of its group, in their original order |
| `Builder.ReduceGroups` | src/lists.js:187 | the items made are consecutive fresh ids, at most one per group, appended after the earlier ones |
| `Builder.ReduceGroupsFrame` | src/lists.js:53-62 | nodes outside the groups keep their parent, childless nodes stay childless, names are kept, and every item made is an `LI` |
| `Builder.ReduceGroupsKeeps` | src/lists.js:187 | the fold keeps the child list of every node already in use that is no group member's parent, earlier items included |
| `Builder.ItemsHoldGroups` | src/lists.js:53-62 | over distinct groups of nodes in use, the fold makes one item per group with a rendered member, in order, and each item holds exactly that group's rendered members as the fold met them |
| `Builder.ItemsOrphan` | src/lists.js:56-60 | the items the fold makes hang under no node until `build` moves them into the list |
| `Builder.MadeMembers` | src/lists.js:55-59 | at most one item per group, and every item is given a non-empty run of nodes drawn from the groups |
| `Builder.InlineRoot` | src/lists.js:176 | `upWhile(nodes[0], hasInlineStyle)`: the result is an ancestor-or-self reached through inline nodes only, and is itself not inline; climbing past the root is a null dereference |
| `Builder.Anchor` | src/lists.js:176-179 | the insertion point is the first node when that node is not inline; otherwise it is found through a chain of inline nodes up to the first that is not; a list item with no previous sibling is replaced by its parent; climbing past the root is a null dereference |
| `Builder.Assemble` | src/lists.js:184-187 | the list is a fresh node named after the type; its items are consecutive fresh `LI` nodes, at most one per group |
| `Builder.ListBeforeAnchor` | src/lists.js:186 | `Dom.insert(list, node)` puts the new, empty list right before the anchor among the children of the anchor's parent |
| `Builder.AssembleShape` | src/lists.js:184-187 | after assembly the new list sits under the anchor's parent and holds exactly the new items, in order |
| `Builder.AssembleHolds` | src/lists.js:184-187 | over distinct grouped nodes in use, each new item of the assembled list holds exactly the nodes it was given, a non-empty run drawn from the groups |
| `Builder.BuildLists` | src/lists.js:171-189 | when nesting is allowed, `build` yields the cleanup of an assembled tree in which the list hangs under the anchor's parent and its items hold the grouped nodes |
| `Builder.Build` | src/lists.js:171-189 | an empty input changes nothing; every error is thrown before the tree changes; the list is made exactly when the anchor's parent allows nesting the type; the value is the fresh list node |
| `Format.InsideInline` | src/lists.js:215-219 | predicate: the node has a parent that is neither line-breaking nor the editing host; the climb of `Format.BlockChild` passes exactly such nodes |
| `Format.BlockChild` | src/lists.js:214-220 | an inline common container climbs, through nodes whose parent is inline, to a node whose parent is line-breaking or the editing host, or which has no parent |
| `Format.BelowChild` | src/lists.js:224-226 | predicate: the node is not the common container, and has a parent other than it; the climbs of `Format.ChildOf` pass exactly such nodes |
| `Format.ChildOf` | src/lists.js:224-228 | the climb from a boundary's node passes only nodes below a child of the common container, and stops at the common container, at a child of it, or at a parentless node |
| `Format.Extremal` | src/lists.js:241-245 | when one end reached the common container the other end stands for both; otherwise both are kept |
| `Format.Targets` | src/lists.js:205-245 | a collapsed selection gives, for both ends, the node where the climb over inline-styled nodes from the node after the boundary ends, and is found exactly when that climb ends; a common container that is not line-breaking gives, for both ends, its block child, found exactly when that climb ends; otherwise the targets are the children of the common container above the boundaries' nodes, merged when one end reached the container, and found exactly when both climbs end |
| `Format.Format` | src/lists.js:199-248 | an invalid list type and a failed climb are thrown with the tree untouched; on success both boundaries come back unchanged |
| `Format.FormatLists` | src/lists.js:199-248 | over a list type, found targets and an anchor whose parent allows nesting, `format` returns its boundaries and leaves the cleanup of a tree in which a new element of the type hangs under the anchor's parent and its items hold the grouped siblings collected between the targets |
| `Format.FormatRefuses` | src/lists.js:180-183 | when the anchor's parent does not allow the type, `format` throws an illegal nesting with the tree untouched |
| `Lines.SplitLines` | src/lists.js:286-296 | the loop yields at most one line per node |
| `Lines.SplitLinesContent` | src/lists.js:286-296 | the lines hold exactly the input nodes, in order |
| `Lines.SplitLinesWellFormed` | src/lists.js:286-296 | each block line is line-breaking; each paragraph is a non-empty inline run, never followed by another paragraph |
| `Lines.SplitLinesOfUnlines` | src/lists.js:286-296 | well-formed lines are recovered from their content by the loop, which makes the split inverse to concatenation |
| `Lines.SplitAtRun` | src/lists.js:290-294 | splitting an inline run followed by a line-breaking node cuts exactly between them |
| `Dom.UpWhile` | src/lists.js:176 | `Dom.upWhile`: the climb stops at the first ancestor-or-self that fails the condition, reached through nodes that all satisfy it; a node that fails it is its own answer |
| `Dom.MoveAllFill` | src/lists.js:58 | `Dom.move` appends fresh, distinct nodes to the target's children, in order |
| `Dom.MoveBeforeShape` | src/lists.js:262 | `Dom.moveBefore` places the moved nodes, in order, right before the reference |
| `Dom.MoveAfterShape` | src/lists.js:267 | `Dom.moveAfter` places the moved nodes, in order, right after the reference |
| `Dom.RemoveShallowShape` | src/lists.js:280 | `Dom.removeShallow` puts the removed node's children in its place, in order, and detaches it |
| `Dom.ReplaceWith` | src/lists.js:297-298 | `moveAfter(lines, li)` then `remove(li)` puts the lines exactly where `li` stood |
| `Unwrap.CloneBeside` | src/lists.js:260-269 | no items means no clone; otherwise a fresh node named like the list, or a null dereference when the list or its parent is missing |
| `Unwrap.SplitList` | src/lists.js:256-270 | a clone is made on a side exactly when list items are on that side; an item without parent changes nothing; the only error is a null dereference |
| `Unwrap.SplitListShape` | src/lists.js:256-270 | the earlier items move into a clone right before the list and the later ones into a clone right after it, in order, under the list's parent |
| `Unwrap.CloneShape` | src/lists.js:261-268 | one clone holds exactly the moved items and sits beside the list; other nodes' children are untouched |
| `Unwrap.Dissolve` | src/lists.js:279-280 | an item without parent is a null dereference on the untouched tree; names and used ids are kept |
| `Unwrap.MakeLine` | src/lists.js:287-294 | a line-breaking line is its own node; a run of inline nodes gets a fresh `P` |
| `Unwrap.Materialize` | src/lists.js:286-296 | each block line is its node; each paragraph line is a fresh `P`, in increasing id order |
| `Unwrap.MaterializeHolds` | src/lists.js:290-294 | each new `P` holds exactly its run of inline nodes |
| `Unwrap.MaterializeDistinct` | src/lists.js:286-296 | the line nodes are distinct and are either the item's own nodes or fresh |
| `Unwrap.DissolveAlone` | src/lists.js:256-280 | for an item alone in its list, splitting changes nothing and dissolving the list hangs the item under the list's parent with its children unchanged |
| `Unwrap.UnwrapItemOk` | src/lists.js:278-300 | once the list is dissolved, unwrapping fails only when the item has no parent |
| `Unwrap.UnwrapItem` | src/lists.js:278-300 | an item without parent is a null dereference on the untouched tree; on success the value is the line nodes the item's rendered children make and the item is detached |
| `Unwrap.LinesReplaceItem` | src/lists.js:297-299 | once the list is dissolved, the line nodes stand exactly where the item stood, in order, and the item is gone |
| `Unwrap.UnwrapItemHolds` | src/lists.js:286-299 | when the dissolved item holds distinct existing nodes and hangs under an existing node, `unwrapItem` succeeds and, after the lines moved and the item was removed, each new `P` holds exactly its run of inline nodes |
| `Unwrap.UnwrapEach` | src/lists.js:310-312 | no items gives no lines; a parentless first item is a null dereference on the untouched tree |
| `Unwrap.UnwrapItems` | src/lists.js:309-313 | with no list items among the nodes the tree is untouched and there are no lines; the only error is a null dereference |
| `Unwrap.UnwrapEachAppend` | src/lists.js:310-312 | the fold composes: unwrapping `a + b` is unwrapping `a` and then `b` on the resulting tree, with the lines concatenated in order, and an error in `a` stops everything |
| `Unwrap.UnwrapLast` | src/lists.js:310-312 | unwrapping a single item through the fold is `unwrapItem` on it, and leaves that item detached |
| `Unformat.NearestItem` | src/lists.js:323-325 | predicate: neither a list item nor right below the editing host; the climbs of `Unformat.ItemAbove` pass exactly such nodes |
| `Unformat.ItemAbove` | src/lists.js:323-331 | the climb passes only nodes that are neither list items nor right below the editing host, and ends at a list item or at a node right below the editing host; a node that stops it is its own answer; climbing past the root is a null dereference |
| `Unformat.NodeAndNext` | src/lists.js:334 | the node followed by exactly its later siblings, in order; a parentless node alone |
| `Unformat.Reanchor` | src/lists.js:335-338 | a boundary inside a list item moves to offset 0 of the first line, and with no line its container is undefined, which is no error; other boundaries stay; the tree and any error pass through |
| `Unformat.UnwrapFrom` | src/lists.js:333-339 | a node that is not a list item leaves tree and boundary alone; the only error is a null dereference; names of nodes in use and the id counter are kept |
| `Unformat.ItemFirst` | src/lists.js:309-313 | unwrapping a list item with its later siblings is `unwrapItem` on the item, then the fold over the later list items on the tree it leaves, lines in order; an error on the item stops everything |
| `Unformat.UnwrapFromItem` | src/lists.js:333-339 | from a list item: a failed `unwrapItem` is the error, success needs `unwrapItem` to succeed, a boundary in the item moves to offset 0 of its first line, and a boundary in a node in use that is no list item stays |
| `Unformat.EndStage` | src/lists.js:340-349 | the end stage on the tree the start stage left: when the start landed in the end's container the end comes back as given and nothing changes; otherwise an end climb that went past the root fails on that tree, a reached node that is no list item leaves tree and end alone, and an end in a node in use that is no list item is kept |
| `Unformat.FromStart` | src/lists.js:333-349 | from the start stage on: a start climb ending outside list items changes nothing before the end stage; a failed unwrap of the start's item is thrown; an end climb that went past the root is thrown on the tree the start stage left unless the start landed in the end's container |
| `Unformat.Stages` | src/lists.js:330-333 | both climbs come first: a climb round a cycle from either end throws before any change, and a start climb that went past the root fails on the untouched tree |
| `Unformat.Unformat` | src/lists.js:322-351 | a climb round a cycle, from either end, ends everything before any change; a start climb that went past the root is thrown on the untouched tree; an end climb that went past the root is thrown only after the start's item was unwrapped, on the tree that left, and not at all when the start lands in the end's container; when neither end is in a list item, both come back with the tree untouched; a start that is no list item is kept, and so is an end that is no list item; when the start lands in the end's container, `end` is returned as given |
| `Unformat.UnformatFirstLine` | src/lists.js:333-339 | a start inside a list item: unless the end's climb runs round a cycle, when unwrapping that item fails, `unformat` throws the null dereference on the tree left so far; on success the start lands at offset 0 of the item's first line |
| `Unformat.UnformatLastLine` | src/lists.js:330-349 | a start outside list items and an end inside a list item: the tree is untouched until the end's item is unwrapped; when that fails, `unformat` throws the null dereference; on success the start is kept and the end lands at offset 0 of the item's first line |
| `Unformat.DetachedItemThrows` | src/lists.js:280 | unwrapping an item that has no parent dereferences null |
| `Unformat.SameItemThrows` | src/lists.js:330-344 | two ends in different nodes of the last item of a list: `unformat` as written throws a null dereference (see Findings) |
| `Unformat.SameItemExample` | src/lists.js:322-351 | on `<ul><li>foo<b>bar</b></li></ul>` under the editing host, selecting from inside `foo` to inside `bar`: `unformat` as written throws a null dereference, and the guarded version returns both boundaries |
| `Unformat.HostEndExample` | src/lists.js:330-344 | with the end at the editing host of `<div><ul><li>foo<b>bar</b></li></ul></div>` and the start in `foo`: the end's climb goes past the root, yet `unformat` first unwraps the `li` and then throws the null dereference on the changed tree |
| `Unformat.LastItemStart` | src/lists.js:333-339 | the start stage from the last item of a list, for a boundary outside list items: the item alone is unwrapped and the boundary stays |
| `Unformat.UnformatChecked` | src/lists.js:322-351 | `unformat` with the end's item unwrapped only while it is still attached: the same guarantees as `Unformat.Unformat`, including when each failed climb is thrown and on which tree |
| `Unformat.SameItemChecked` | src/lists.js:340-349 | with that guard, the selection of `SameItemThrows` is unformatted once and both boundaries come back |
| `Unformat.CheckedOnlyAvoidsThrow` | src/lists.js:343-344 | the guard changes nothing except runs in which `unformat` as written throws a null dereference |

## Left out

- I/O and the host modules are not modelled. The classification predicates, `Content.allowsNesting`, `Dom.isEditingHost` and the `Boundaries` navigation are parameters. `dom.js`, `html.js`, `content.js`, `boundaries.js`, `mutation.js` and `arrays.js` are not part of this model. Their behaviour is the assumed one described in the `Dom` module.
- The type predicates look only at a node's name. `Html.isRendered` may depend on the whole tree.
- `Dom.isEditingHost(null)` is modelled as false. `Html.isListItem(null)`, reached when a climb passes the root, is a null dereference (`NullReference`).
- A climb along a cyclic parent chain would loop forever in the source. The model reports it as `Diverges`, on the tree as it stood when the climb began.
- `Mutation.removeNode` detaches the node with its subtree. Boundary bookkeeping is left out: the `boundaries` array in `removeInvisibleNodes` is always empty.
- `Dom.Upper` folds case on ASCII letters only. It stands for the upper-casing that `createElement(x)` applies to the new node's name, and for `type.toUpperCase()` in the list-type check of `format` (src/lists.js:201). `createElement(x)` also gives a fresh id.
- `console.log(nodes)` in `build` is left out, because it has no effect on the tree.
- `Builder.Build`: the value (the new list node, or none) is a modelling convenience; `build` returns nothing. Where the list sits after the cleanup is not stated, only before it (`Builder.AssembleShape`, `Builder.BuildLists`): the cleanup climbs may detach the anchor's parent itself when the oracle calls it not rendered.
- `Builder.BuildLists`, `Format.FormatLists` and `Builder.ItemsHoldGroups` assume that the grouped nodes are distinct, and that they and their parents are ids already in use. Distinctness holds when the two targets are siblings in a proper tree (each node under at most one parent, once) and the start is not after the end: the collected nodes are then one slice of a row (`Siblings.CollectSiblingsSpan`), and an unwrapped block's children are not among its siblings. That derivation is not proved here. Out-of-order targets do repeat nodes: with `end` before `start`, the nodes between them are collected twice.
- `Builder.AssembleShape` assumes the new list's id is not among the grouped nodes. Fresh ids guarantee this for any tree whose ids are all below its counter.
- `Unwrap.SplitList`: the value (the clones) is a modelling convenience; `splitList` returns nothing.
- `Unwrap.LinesReplaceItem` states the placement of the lines relative to the tree after the list shell is dissolved, not relative to the original tree.
- `Unformat.Unformat` states its result for untouched selections, for failures and for the kept boundaries; `Unformat.UnformatFirstLine` and `Unformat.UnformatLastLine` add the boundaries inside list items, the latter only when the start stage leaves the tree untouched. The tree after unwrapping is described by the `Unwrap` lemmas, not again here.
- `Cleanup.RemoveInvisibleNodes` removes a parentless node that fails the stop test (only an empty list item can) by detaching it, which changes nothing. `build` reaches this when a later cleanup starts from a list item an earlier cleanup already detached, e.g. `<ul><li>one<br>two</li></ul>`, whose two iterations both record the same `li` as parent. `Mutation.removeNode` is assumed not to dereference the missing parent there; mutation.js is not part of this model.
- `Format.Format` returns its boundaries unchanged even when their nodes moved. This is what the code does.
- The comment on `removeInvisibleNodes` (src/lists.js:68-69) speaks only of removing empty list items. The stop test (src/lists.js:83-88) also removes a non-empty list item that is not rendered, has a parent and is not the editing host. The model follows the stop test.
- `Boundaries.create(undefined, 0)`, reached when the start's item made no line, is assumed to build a boundary without reading its container. `boundaries.js` is not part of this model.
- `keys.js` and the demo UI are not part of this model.

## Findings

| source | as written | input that shows it | evidently intended | confidence | as-written member | corrected member |
|---|---|---|---|---|---|---|
| src/lists.js:343-344 | both climbs run on the original tree. After the start's item and its later siblings are unwrapped, the end's item is unwrapped again whenever the two containers differ. The end's item may be the start's item, or a later item of the same list, which the start stage has also detached. | `<ul><li>foo<b>bar</b></li></ul>`, with the selection from the text `foo` to the text `bar`. Both climbs reach the same `li`. The start stage detaches it, and the end stage then calls `removeShallow(li.parentNode)` with `null`. | when the end's item was already unwrapped by the start stage, skip the end stage and return both boundaries | medium (assumes `Dom.removeShallow(null)` dereferences its argument); not executed | `Unformat.SameItemThrows`, `Unformat.SameItemExample` | `Unformat.UnformatChecked`, `Unformat.SameItemChecked` |
