/**
 * An abstract document tree and the tree primitives the list engine calls
 * (the host's `Dom` module). A tree is a map from node ids to nodes; each
 * node has a name, an optional parent and an ordered list of children.
 * Every primitive is total: an id missing from the map reads as a
 * detached, childless node with the empty name.
 */
module Dom {
  import opened Seqs

  datatype Option<+T> = None | Some(value: T)

  type NodeId = nat

  datatype Node = Node(name: string, parent: Option<NodeId>, children: seq<NodeId>)

  /** `next` is the id the next created node receives. */
  datatype Dom = Dom(nodes: map<NodeId, Node>, next: NodeId)

  /** Why an operation stopped early: a failed assertion, a null dereference, or
      a climb that would never end. */
  datatype Error =
    | InvalidListType
    | IllegalNesting
    | NullReference
    | Diverges

  /** The result of a mutating operation: its value or the error it threw, and
      the tree as it stands at that moment (there is no rollback). */
  datatype Outcome<+T> = Ok(value: T, dom: Dom) | Thrown(error: Error, dom: Dom)

  /** The result of a query that may throw but changes nothing. */
  datatype Result<+T> = Success(value: T) | Failure(error: Error)

  function Get(d: Dom, n: NodeId): Node {
    if n in d.nodes then d.nodes[n] else Node("", None, [])
  }

  function Name(d: Dom, n: NodeId): string { Get(d, n).name }

  function Parent(d: Dom, n: NodeId): Option<NodeId> { Get(d, n).parent }

  function Children(d: Dom, n: NodeId): seq<NodeId> { Get(d, n).children }

  /** The nodes that currently hang under a parent. */
  function Attached(d: Dom): set<NodeId> {
    set n | n in d.nodes && d.nodes[n].parent.Some?
  }

  function Put(d: Dom, n: NodeId, node: Node): (r: Dom)
    ensures Get(r, n) == node
    ensures forall m: NodeId | m != n :: Get(r, m) == Get(d, m)
    ensures r.next == d.next
  {
    d.(nodes := d.nodes[n := node])
  }

  /** `document.createElement`: a new detached, childless node. */
  function Create(d: Dom, name: string): (r: (Dom, NodeId))
    ensures r.1 == d.next && r.0.next == d.next + 1
    ensures Get(r.0, r.1) == Node(name, None, [])
    ensures forall m: NodeId | m != r.1 :: Get(r.0, m) == Get(d, m)
  {
    (Put(d, d.next, Node(name, None, [])).(next := d.next + 1), d.next)
  }

  /** Takes `x` out of its parent's child list; nothing else changes. */
  function Detach(d: Dom, x: NodeId): (r: Dom)
    ensures Parent(r, x) == None
    ensures forall y: NodeId | y != x :: Parent(r, y) == Parent(d, y)
    ensures forall y: NodeId :: Children(r, y) == (if Parent(d, x) == Some(y) then Without(Children(d, y), x) else Children(d, y))
    ensures forall y: NodeId :: Name(r, y) == Name(d, y)
    ensures r.next == d.next
  {
    match Parent(d, x)
    case None => d
    case Some(p) =>
      var d1 := Put(d, p, Get(d, p).(children := Without(Children(d, p), x)));
      Put(d1, x, Get(d1, x).(parent := None))
  }

  lemma DetachShrinks(d: Dom, x: NodeId)
    requires Parent(d, x).Some?
    ensures Attached(Detach(d, x)) < Attached(d)
  {
    var r := Detach(d, x);
    assert x in Attached(d);
    forall y: NodeId | y in Attached(r) ensures y in Attached(d) {
      assert Parent(r, y).Some?;
    }
  }

  /** Places an already detached `x` at index `i` (clamped) of `p`'s children. */
  function Attach(d: Dom, x: NodeId, p: NodeId, i: nat): (r: Dom)
    ensures Parent(r, x) == Some(p)
    ensures forall y: NodeId | y != x :: Parent(r, y) == Parent(d, y)
    ensures Children(r, p) == Insert(Children(d, p), i, x)
    ensures forall y: NodeId | y != p :: Children(r, y) == Children(d, y)
    ensures forall y: NodeId :: Name(r, y) == Name(d, y)
    ensures r.next == d.next
  {
    var d1 := Put(d, p, Get(d, p).(children := Insert(Children(d, p), i, x)));
    Put(d1, x, Get(d1, x).(parent := Some(p)))
  }

  /** `parent.appendChild(x)`. */
  function Append(d: Dom, x: NodeId, p: NodeId): (r: Dom)
    ensures Parent(r, x) == Some(p)
    ensures forall y: NodeId | y != x :: Parent(r, y) == Parent(d, y)
    ensures Children(r, p) == Children(Detach(d, x), p) + [x]
    ensures forall y: NodeId | y != p :: Children(r, y) == Children(Detach(d, x), y)
    ensures forall y: NodeId :: Name(r, y) == Name(d, y)
    ensures r.next == d.next
  {
    var d1 := Detach(d, x);
    Attach(d1, x, p, |Children(d1, p)|)
  }

  /** `ref.parentNode.insertBefore(x, ref)`; only detaches `x` when `ref` has no parent. */
  function InsertBefore(d: Dom, x: NodeId, ref: NodeId): (r: Dom)
    ensures forall y: NodeId :: Name(r, y) == Name(d, y)
    ensures forall y: NodeId | y != x :: Parent(r, y) == Parent(d, y)
    ensures r.next == d.next
  {
    var d1 := Detach(d, x);
    match Parent(d1, ref)
    case None => d1
    case Some(p) => Attach(d1, x, p, IndexOf(Children(d1, p), ref))
  }

  /** Inserts `x` right after `ref` among `ref`'s siblings. */
  function InsertAfter(d: Dom, x: NodeId, ref: NodeId): (r: Dom)
    ensures forall y: NodeId :: Name(r, y) == Name(d, y)
    ensures forall y: NodeId | y != x :: Parent(r, y) == Parent(d, y)
    ensures r.next == d.next
  {
    var d1 := Detach(d, x);
    match Parent(d1, ref)
    case None => d1
    case Some(p) => Attach(d1, x, p, IndexOf(Children(d1, p), ref) + 1)
  }

  /** `Dom.move(xs, p)`: appends each of `xs` to `p`, in order. */
  function MoveAll(d: Dom, xs: seq<NodeId>, p: NodeId): (r: Dom)
    ensures forall y: NodeId :: Name(r, y) == Name(d, y)
    ensures r.next == d.next
    decreases |xs|
  {
    if |xs| == 0 then d else MoveAll(Append(d, xs[0], p), xs[1..], p)
  }

  /** `Dom.moveBefore(xs, ref)`: each of `xs` is inserted right before `ref`. */
  function MoveBefore(d: Dom, xs: seq<NodeId>, ref: NodeId): (r: Dom)
    ensures forall y: NodeId :: Name(r, y) == Name(d, y)
    ensures r.next == d.next
    decreases |xs|
  {
    if |xs| == 0 then d else MoveBefore(InsertBefore(d, xs[0], ref), xs[1..], ref)
  }

  /** `Dom.moveAfter(xs, ref)`: `xs` placed after `ref`, in order. */
  function MoveAfter(d: Dom, xs: seq<NodeId>, ref: NodeId): (r: Dom)
    ensures forall y: NodeId :: Name(r, y) == Name(d, y)
    ensures forall y: NodeId | y !in xs :: Parent(r, y) == Parent(d, y)
    ensures r.next == d.next
    decreases |xs|
  {
    if |xs| == 0 then d else MoveAfter(InsertAfter(d, xs[0], ref), xs[1..], xs[0])
  }

  /** `Dom.removeShallow(n)`: `n`'s children take its place, `n` is detached. */
  function RemoveShallow(d: Dom, n: NodeId): (r: Dom)
    ensures forall y: NodeId :: Name(r, y) == Name(d, y)
    ensures r.next == d.next
  {
    Detach(MoveBefore(d, Children(d, n), n), n)
  }

  // ---------------------------------------------------------------------------
  // What the moves do to child lists

  /** Appending fresh members to `p` extends its child list by exactly them. */
  lemma {:induction false} MoveAllFill(d: Dom, xs: seq<NodeId>, p: NodeId)
    requires NoDup(xs)
    requires Disjoint(xs, Children(d, p))
    ensures Children(MoveAll(d, xs, p), p) == Children(d, p) + xs
    decreases |xs|
  {
    if |xs| > 0 {
      var d1 := Append(d, xs[0], p);
      assert Children(d1, p) == Children(d, p) + [xs[0]];
      DisjointTail(xs, Children(d, p), Children(d1, p));
      MoveAllFill(d1, xs[1..], p);
      HeadTail(Children(d, p), xs);
    }
  }

  /** A node none of whose children is moved keeps its child list. */
  lemma {:induction false} MoveAllFrame(d: Dom, xs: seq<NodeId>, p: NodeId, q: NodeId)
    requires q != p
    requires Disjoint(xs, Children(d, q))
    ensures Children(MoveAll(d, xs, p), q) == Children(d, q)
    decreases |xs|
  {
    if |xs| > 0 {
      var d1 := Append(d, xs[0], p);
      assert Children(d1, q) == Children(d, q);
      assert Disjoint(xs[1..], Children(d1, q));
      MoveAllFrame(d1, xs[1..], p, q);
    }
  }

  /** A node that is the parent of none of the moved nodes keeps its child
      list. */
  lemma {:induction false} MoveAllKeeps(d: Dom, xs: seq<NodeId>, p: NodeId, q: NodeId)
    requires q != p
    requires forall x | x in xs :: Parent(d, x) != Some(q)
    ensures Children(MoveAll(d, xs, p), q) == Children(d, q)
    decreases |xs|
  {
    if |xs| > 0 {
      var d1 := Append(d, xs[0], p);
      assert Children(d1, q) == Children(d, q);
      assert forall x | x in xs[1..] :: Parent(d1, x) != Some(q);
      MoveAllKeeps(d1, xs[1..], p, q);
    }
  }

  /** Moving nodes none of which `q` holds after a node that `q` does not
      hold leaves `q`'s child list as it was. */
  lemma {:induction false} MoveAfterFrame(d: Dom, xs: seq<NodeId>, ref: NodeId, q: NodeId)
    requires Parent(d, ref) != Some(q)
    requires Disjoint(xs, Children(d, q))
    ensures Children(MoveAfter(d, xs, ref), q) == Children(d, q)
    decreases |xs|
  {
    if |xs| > 0 {
      var d0 := Detach(d, xs[0]);
      var d1 := InsertAfter(d, xs[0], ref);
      assert Children(d0, q) == Children(d, q);
      assert Children(d1, q) == Children(d, q);
      assert Parent(d1, xs[0]) != Some(q);
      assert Disjoint(xs[1..], Children(d1, q));
      MoveAfterFrame(d1, xs[1..], xs[0], q);
    }
  }

  /** Moved nodes end up under `p`; no other node changes parent. */
  lemma {:induction false} MoveAllParents(d: Dom, xs: seq<NodeId>, p: NodeId)
    ensures forall x | x in xs :: Parent(MoveAll(d, xs, p), x) == Some(p)
    ensures forall y | y !in xs :: Parent(MoveAll(d, xs, p), y) == Parent(d, y)
    decreases |xs|
  {
    if |xs| > 0 {
      var d1 := Append(d, xs[0], p);
      MoveAllParents(d1, xs[1..], p);
      forall x | x in xs ensures Parent(MoveAll(d, xs, p), x) == Some(p) {
        if x !in xs[1..] {
          assert x == xs[0];
        }
      }
    }
  }

  lemma InsertBeforeStep(d: Dom, x: NodeId, ref: NodeId, p: NodeId, pre: seq<NodeId>, post: seq<NodeId>)
    requires Parent(d, ref) == Some(p)
    requires Children(d, p) == pre + [ref] + post && ref !in pre
    requires x != ref && x !in Children(d, p)
    ensures Children(InsertBefore(d, x, ref), p) == (pre + [x]) + [ref] + post
    ensures Parent(InsertBefore(d, x, ref), ref) == Some(p)
    ensures Parent(InsertBefore(d, x, ref), x) == Some(p)
  {
    var d0 := Detach(d, x);
    assert Children(d0, p) == Children(d, p);
    assert Parent(d0, ref) == Some(p);
    IndexOfMiddle(pre, ref, post);
  }

  lemma InsertAfterStep(d: Dom, x: NodeId, ref: NodeId, p: NodeId, pre: seq<NodeId>, post: seq<NodeId>)
    requires Parent(d, ref) == Some(p)
    requires Children(d, p) == pre + [ref] + post && ref !in pre
    requires x != ref && x !in Children(d, p)
    ensures Children(InsertAfter(d, x, ref), p) == (pre + [ref]) + [x] + post
    ensures Parent(InsertAfter(d, x, ref), x) == Some(p)
  {
    var d0 := Detach(d, x);
    assert Children(d0, p) == Children(d, p);
    assert Parent(d0, ref) == Some(p);
    IndexOfMiddle(pre, ref, post);
    assert Insert(pre + [ref] + post, |pre| + 1, x) == (pre + [ref]) + [x] + post;
  }

  /** `Dom.moveBefore` puts the moved nodes, in order, right before `ref`. */
  lemma {:induction false} MoveBeforeShape(d: Dom, xs: seq<NodeId>, ref: NodeId, p: NodeId, pre: seq<NodeId>, post: seq<NodeId>)
    requires Parent(d, ref) == Some(p)
    requires Children(d, p) == pre + [ref] + post && ref !in pre
    requires NoDup(xs) && ref !in xs
    requires Disjoint(xs, Children(d, p))
    ensures Children(MoveBefore(d, xs, ref), p) == pre + xs + [ref] + post
    ensures Parent(MoveBefore(d, xs, ref), ref) == Some(p)
    decreases |xs|
  {
    if |xs| == 0 {
      assert pre + xs == pre;
    } else {
      var x := xs[0];
      InsertBeforeStep(d, x, ref, p, pre, post);
      var d1 := InsertBefore(d, x, ref);
      DisjointTail(xs, Children(d, p), Children(d1, p));
      MoveBeforeShape(d1, xs[1..], ref, p, pre + [x], post);
      HeadTail(pre, xs);
    }
  }

  /** `Dom.moveAfter` puts the moved nodes, in order, right after `ref`. */
  lemma {:induction false} MoveAfterShape(d: Dom, xs: seq<NodeId>, ref: NodeId, p: NodeId, pre: seq<NodeId>, post: seq<NodeId>)
    requires Parent(d, ref) == Some(p)
    requires Children(d, p) == pre + [ref] + post && ref !in pre
    requires NoDup(xs) && ref !in xs
    requires Disjoint(xs, Children(d, p))
    ensures Children(MoveAfter(d, xs, ref), p) == pre + [ref] + xs + post
    decreases |xs|
  {
    if |xs| == 0 {
      assert pre + [ref] + xs == pre + [ref];
    } else {
      var x := xs[0];
      InsertAfterStep(d, x, ref, p, pre, post);
      var d1 := InsertAfter(d, x, ref);
      DisjointTail(xs, Children(d, p), Children(d1, p));
      MoveAfterShape(d1, xs[1..], x, p, pre + [ref], post);
      HeadTail(pre + [ref], xs);
    }
  }

  /** `Dom.moveAfter(xs, ref)` and then `Dom.remove(ref)`: `xs` take the
      place of `ref`, in order. */
  lemma ReplaceWith(d: Dom, ref: NodeId, xs: seq<NodeId>, p: NodeId, pre: seq<NodeId>, post: seq<NodeId>)
    requires Parent(d, ref) == Some(p)
    requires Children(d, p) == pre + [ref] + post && ref !in pre && ref !in post
    requires NoDup(xs) && ref !in xs
    requires Disjoint(xs, Children(d, p))
    ensures Children(Detach(MoveAfter(d, xs, ref), ref), p) == pre + xs + post
  {
    MoveAfterShape(d, xs, ref, p, pre, post);
    var moved := MoveAfter(d, xs, ref);
    var rest := xs + post;
    Assoc(pre + [ref], xs, post);
    assert ref !in rest;
    assert Parent(moved, ref) == Some(p);
    DetachMiddle(moved, ref, p, pre, rest);
  }

  /** `Dom.remove(x)`: `x` leaves its parent's child list and nothing else
      there moves. */
  lemma DetachMiddle(d: Dom, x: NodeId, p: NodeId, pre: seq<NodeId>, post: seq<NodeId>)
    requires Parent(d, x) == Some(p)
    requires Children(d, p) == pre + [x] + post && x !in pre && x !in post
    ensures Children(Detach(d, x), p) == pre + post
  {
    WithoutMiddle(pre, x, post);
  }

  /** `Dom.removeShallow`: the removed node's children take its place, in order. */
  lemma RemoveShallowShape(d: Dom, n: NodeId, p: NodeId, pre: seq<NodeId>, post: seq<NodeId>)
    requires Parent(d, n) == Some(p)
    requires Children(d, p) == pre + [n] + post && n !in pre && n !in post
    requires NoDup(Children(d, n)) && n !in Children(d, n)
    requires Disjoint(Children(d, n), Children(d, p))
    ensures Children(RemoveShallow(d, n), p) == pre + Children(d, n) + post
    ensures Parent(RemoveShallow(d, n), n) == None
  {
    var kids := Children(d, n);
    MoveBeforeShape(d, kids, n, p, pre, post);
    var d1 := MoveBefore(d, kids, n);
    assert n !in pre + kids;
    WithoutMiddle(pre + kids, n, post);
  }

  // ---------------------------------------------------------------------------
  // Siblings

  /** The child list `n` belongs to; a parentless node is alone in its row. */
  function Row(d: Dom, n: NodeId): seq<NodeId> {
    match Parent(d, n)
    case None => [n]
    case Some(p) => Children(d, p)
  }

  /** All siblings before `n`, in document order. */
  function PrevAll(d: Dom, n: NodeId): seq<NodeId> {
    var row := Row(d, n);
    var i := IndexOf(row, n);
    if i < |row| then row[..i] else []
  }

  /** All siblings after `n`, in document order. */
  function NextAll(d: Dom, n: NodeId): seq<NodeId> {
    var row := Row(d, n);
    var i := IndexOf(row, n);
    if i < |row| then row[i + 1..] else []
  }

  /** `Dom.prevSibling`. */
  function PrevSibling(d: Dom, n: NodeId): Option<NodeId> {
    var before := PrevAll(d, n);
    if |before| == 0 then None else Some(before[|before| - 1])
  }

  // ---------------------------------------------------------------------------
  // Climbing

  /** The ancestor `k` levels above `n` (`n` itself at level 0), or none
      when the parent chain ends below that level. */
  function Up(d: Dom, n: NodeId, k: nat): Option<NodeId>
    decreases k
  {
    if k == 0 then Some(n)
    else match Parent(d, n)
      case None => None
      case Some(p) => Up(d, p, k - 1)
  }

  /** Every node below level `k` on `n`'s ancestor chain exists and
      satisfies `cond`: a climb under `cond` passes all of them. */
  predicate Passes(d: Dom, n: NodeId, k: nat, cond: NodeId -> bool) {
    forall j | 0 <= j < k :: Up(d, n, j).Some? && cond(Up(d, n, j).value)
  }

  /** Where `Dom.upWhile` stops: at a node failing the condition, `height`
      levels above the start; past the root (null); or never, on a cyclic
      parent chain. */
  datatype Climb = Reached(node: NodeId, height: nat) | OffTop | Cyclic

  /** `Dom.upWhile(n, cond)`: follows parents while `cond` holds. The node
      reached is the nearest ancestor-or-self of the start failing `cond`. */
  function UpWhile(d: Dom, n: Option<NodeId>, cond: NodeId -> bool): (r: Climb)
    ensures r.Reached? ==> !cond(r.node)
    ensures r.Reached? ==> n.Some? && Up(d, n.value, r.height) == Some(r.node) && Passes(d, n.value, r.height, cond)
    ensures n.Some? && !cond(n.value) ==> r == Reached(n.value, 0)
    ensures n.None? ==> r == OffTop
  {
    Climbing(d, n, cond, {})
  }

  function Climbing(d: Dom, n: Option<NodeId>, cond: NodeId -> bool, seen: set<NodeId>): (r: Climb)
    ensures r.Reached? ==> !cond(r.node)
    ensures r.Reached? ==> n.Some? && Up(d, n.value, r.height) == Some(r.node) && Passes(d, n.value, r.height, cond)
    ensures n.Some? && !cond(n.value) ==> r == Reached(n.value, 0)
    ensures n.None? ==> r == OffTop
    decreases d.nodes.Keys - seen
  {
    if n.None? then OffTop
    else if !cond(n.value) then Reached(n.value, 0)
    else if n.value in seen then Cyclic
    else match Parent(d, n.value)
      case None => OffTop
      case Some(p) =>
        var r := Climbing(d, Some(p), cond, seen + {n.value});
        if r.Reached? then
          PassesStep(d, n.value, p, r.height, cond);
          Reached(r.node, r.height + 1)
        else r
  }

  /** A node satisfying `cond` extends the chain its parent's climb passes. */
  lemma PassesStep(d: Dom, n: NodeId, p: NodeId, k: nat, cond: NodeId -> bool)
    requires Parent(d, n) == Some(p) && cond(n)
    requires Passes(d, p, k, cond)
    ensures Up(d, n, k + 1) == Up(d, p, k)
    ensures Passes(d, n, k + 1, cond)
  {
    forall j | 0 < j < k + 1
      ensures Up(d, n, j) == Up(d, p, j - 1)
    {
    }
  }

  /** Turns a climb into the node it reached, or the error the source hits:
      past the root it reads a property of null. */
  function Landed(c: Climb): (r: Result<NodeId>)
    ensures c.Reached? <==> r.Success?
    ensures c.Reached? ==> r.value == c.node
    ensures c.OffTop? ==> r == Failure(NullReference)
    ensures c.Cyclic? ==> r == Failure(Diverges)
  {
    match c
    case Reached(n, _) => Success(n)
    case OffTop => Failure(NullReference)
    case Cyclic => Failure(Diverges)
  }

  /** A climb whose condition needs a parent never goes past the root. */
  lemma {:induction false} ClimbNeedsParent(d: Dom, n: Option<NodeId>, cond: NodeId -> bool, seen: set<NodeId>)
    requires n.Some?
    requires forall x: NodeId :: cond(x) ==> Parent(d, x).Some?
    ensures !Climbing(d, n, cond, seen).OffTop?
    decreases d.nodes.Keys - seen
  {
    if cond(n.value) && n.value !in seen {
      ClimbNeedsParent(d, Parent(d, n.value), cond, seen + {n.value});
    }
  }

  // ---------------------------------------------------------------------------
  // Names

  function UpperChar(c: char): char {
    if 'a' <= c <= 'z' then (c as int - 32) as char else c
  }

  /** `String.toUpperCase` on ASCII letters; HTML element names are upper-case. */
  function Upper(s: string): (r: string)
    ensures |r| == |s|
    ensures forall i | 0 <= i < |s| :: r[i] == UpperChar(s[i])
  {
    if |s| == 0 then "" else [UpperChar(s[0])] + Upper(s[1..])
  }
}
