/**
 * The line-splitting loop of `unwrapItem` in lists.js: the rendered
 * children of a list item become lines, each line-breaking child a line of
 * its own and each maximal run of inline children one new paragraph.
 */
module Lines {
  import opened Seqs
  import opened Dom
  import opened Html
  import opened Grouping

  /** One line of an unwrapped item: an existing line-breaking node, or a
      run of inline nodes that goes into a new `p`. */
  datatype Line = Block(node: NodeId) | Paragraph(run: seq<NodeId>)

  /** The nodes a line holds. */
  function Content(l: Line): seq<NodeId> {
    match l
    case Block(n) => [n]
    case Paragraph(run) => run
  }

  /** The loop of `unwrapItem`: a line-breaking head is a line by itself;
      otherwise the inline prefix becomes one paragraph. */
  function SplitLines(h: Oracle, d: Dom, xs: seq<NodeId>): (r: seq<Line>)
    ensures |r| <= |xs|
    decreases |xs|
  {
    if |xs| == 0 then []
    else if LineBreaking(h, d, xs[0]) then [Block(xs[0])] + SplitLines(h, d, xs[1..])
    else
      var split := SplitAtBreak(h, d, xs);
      [Paragraph(split.0)] + SplitLines(h, d, split.1)
  }

  /** The nodes of all lines, in order. */
  function Unlines(ls: seq<Line>): seq<NodeId> {
    if |ls| == 0 then [] else Content(ls[0]) + Unlines(ls[1..])
  }

  /** Line `i` has the shape the loop produces: a block is line-breaking;
      a paragraph is a non-empty inline run that is never followed by
      another paragraph (its run is maximal). */
  predicate LineOk(h: Oracle, d: Dom, ls: seq<Line>, i: nat)
    requires i < |ls|
  {
    match ls[i]
    case Block(n) => LineBreaking(h, d, n)
    case Paragraph(run) => |run| > 0 && NoBreak(h, d, run) && (i + 1 < |ls| ==> ls[i + 1].Block?)
  }

  predicate WellFormed(h: Oracle, d: Dom, ls: seq<Line>) {
    forall i | 0 <= i < |ls| :: LineOk(h, d, ls, i)
  }

  lemma WellFormedCons(h: Oracle, d: Dom, l: Line, ls: seq<Line>)
    requires WellFormed(h, d, [l] + ls)
    ensures WellFormed(h, d, ls)
  {
    forall i | 0 <= i < |ls|
      ensures LineOk(h, d, ls, i)
    {
      assert LineOk(h, d, [l] + ls, i + 1);
      assert ls[i] == ([l] + ls)[i + 1];
    }
  }

  lemma ConsWellFormed(h: Oracle, d: Dom, l: Line, ls: seq<Line>)
    requires WellFormed(h, d, ls)
    requires LineOk(h, d, [l] + ls, 0)
    ensures WellFormed(h, d, [l] + ls)
  {
    forall i | 1 <= i < |[l] + ls|
      ensures LineOk(h, d, [l] + ls, i)
    {
      assert LineOk(h, d, ls, i - 1);
      assert ([l] + ls)[i] == ls[i - 1];
    }
  }

  /** Every node of a line is among the nodes of all lines. */
  lemma {:induction false} ContentIn(ls: seq<Line>, i: nat)
    requires i < |ls|
    ensures forall x | x in Content(ls[i]) :: x in Unlines(ls)
    decreases |ls|
  {
    if i > 0 {
      ContentIn(ls[1..], i - 1);
      assert ls[1..][i - 1] == ls[i];
    }
  }

  /** When no node occurs twice, two different lines share no node. */
  lemma {:induction false} LinesApart(ls: seq<Line>, i: nat, j: nat)
    requires i < j < |ls| && NoDup(Unlines(ls))
    ensures forall x | x in Content(ls[i]) :: x !in Content(ls[j])
    decreases |ls|
  {
    ConcatParts(Content(ls[0]), Unlines(ls[1..]), []);
    assert ls[1..][j - 1] == ls[j];
    if i == 0 {
      ContentIn(ls[1..], j - 1);
      forall x | x in Content(ls[j]) ensures x !in Content(ls[0]) {
        var k := IndexOf(Unlines(ls[1..]), x);
        assert Unlines(ls[1..])[k] == x;
      }
    } else {
      assert ls[1..][i - 1] == ls[i];
      LinesApart(ls[1..], i - 1, j - 1);
    }
  }

  /** Lines hold exactly the input nodes, in order. */
  lemma {:induction false} SplitLinesContent(h: Oracle, d: Dom, xs: seq<NodeId>)
    ensures Unlines(SplitLines(h, d, xs)) == xs
    decreases |xs|
  {
    if |xs| > 0 {
      var r := SplitLines(h, d, xs);
      if LineBreaking(h, d, xs[0]) {
        SplitLinesContent(h, d, xs[1..]);
        assert Unlines(r) == [xs[0]] + Unlines(SplitLines(h, d, xs[1..]));
        assert [xs[0]] + xs[1..] == xs;
      } else {
        var split := SplitAtBreak(h, d, xs);
        SplitLinesContent(h, d, split.1);
        assert Unlines(r) == split.0 + Unlines(SplitLines(h, d, split.1));
      }
    }
  }

  /** The first line produced from a non-empty input. */
  lemma FirstLine(h: Oracle, d: Dom, xs: seq<NodeId>)
    requires |xs| > 0
    ensures |SplitLines(h, d, xs)| > 0
    ensures LineBreaking(h, d, xs[0]) <==> SplitLines(h, d, xs)[0].Block?
  {
  }

  /** The loop produces well-formed lines. */
  lemma {:induction false} SplitLinesWellFormed(h: Oracle, d: Dom, xs: seq<NodeId>)
    ensures WellFormed(h, d, SplitLines(h, d, xs))
    decreases |xs|
  {
    if |xs| > 0 {
      if LineBreaking(h, d, xs[0]) {
        SplitLinesWellFormed(h, d, xs[1..]);
        ConsWellFormed(h, d, Block(xs[0]), SplitLines(h, d, xs[1..]));
      } else {
        var split := SplitAtBreak(h, d, xs);
        SplitLinesWellFormed(h, d, split.1);
        var rest := SplitLines(h, d, split.1);
        if |split.1| > 0 {
          FirstLine(h, d, split.1);
        }
        ConsWellFormed(h, d, Paragraph(split.0), rest);
      }
    }
  }

  /** Splitting an inline run followed by a line-breaking node (or nothing)
      cuts exactly there. */
  lemma {:induction false} SplitAtRun(h: Oracle, d: Dom, run: seq<NodeId>, rest: seq<NodeId>)
    requires NoBreak(h, d, run)
    requires |rest| > 0 ==> LineBreaking(h, d, rest[0])
    ensures SplitAtBreak(h, d, run + rest) == (run, rest)
  {
    if |run| == 0 {
      assert run + rest == rest;
    } else {
      assert (run + rest)[1..] == run[1..] + rest;
      assert !LineBreaking(h, d, run[0]);
      SplitAtRun(h, d, run[1..], rest);
      assert [run[0]] + run[1..] == run;
    }
  }

  /** Well-formed lines are exactly what the loop makes of their nodes:
      the lines can be recovered from their content. */
  lemma {:induction false} SplitLinesOfUnlines(h: Oracle, d: Dom, ls: seq<Line>)
    requires WellFormed(h, d, ls)
    ensures SplitLines(h, d, Unlines(ls)) == ls
    decreases |ls|
  {
    if |ls| > 0 {
      var xs := Unlines(ls);
      var rest := Unlines(ls[1..]);
      assert [ls[0]] + ls[1..] == ls;
      WellFormedCons(h, d, ls[0], ls[1..]);
      assert LineOk(h, d, ls, 0);
      SplitLinesOfUnlines(h, d, ls[1..]);
      match ls[0]
      case Block(n) =>
        assert xs == [n] + rest;
        assert xs[1..] == rest;
      case Paragraph(run) =>
        assert xs == run + rest;
        assert |rest| > 0 ==> LineBreaking(h, d, rest[0]) by {
          if |rest| > 0 {
            assert ls[1].Block?;
            assert rest == [ls[1].node] + Unlines(ls[2..]) by {
              assert ls[1..][1..] == ls[2..];
            }
          }
        }
        assert !LineBreaking(h, d, xs[0]) by {
          assert xs[0] == run[0];
        }
        SplitAtRun(h, d, run, rest);
    }
  }
}
