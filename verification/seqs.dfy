/** Sequence helpers shared by the tree model and the list engine. */
module Seqs {

  /** No element occurs twice. */
  predicate NoDup<T(==)>(s: seq<T>) {
    forall i, j | 0 <= i < j < |s| :: s[i] != s[j]
  }

  /** Every element is strictly below `bound` (ids allocated before `bound`). */
  predicate Below(s: seq<nat>, bound: nat) {
    forall i | 0 <= i < |s| :: s[i] < bound
  }

  /** The concatenation of a sequence of sequences, in order. */
  function Flatten<T>(ss: seq<seq<T>>): seq<T> {
    if |ss| == 0 then [] else ss[0] + Flatten(ss[1..])
  }

  lemma {:induction false} FlattenAppend<T>(a: seq<seq<T>>, b: seq<seq<T>>)
    ensures Flatten(a + b) == Flatten(a) + Flatten(b)
  {
    if |a| == 0 {
      assert a + b == b;
    } else {
      assert (a + b)[1..] == a[1..] + b;
      FlattenAppend(a[1..], b);
    }
  }

  lemma {:induction false} FlattenMember<T>(ss: seq<seq<T>>, k: nat, x: T)
    requires k < |ss| && x in ss[k]
    ensures x in Flatten(ss)
  {
    if k > 0 {
      FlattenMember(ss[1..], k - 1, x);
    }
  }

  /** `s` with every occurrence of `x` removed. */
  function Without<T(==,!new)>(s: seq<T>, x: T): (r: seq<T>)
    ensures forall y :: y in r <==> y in s && y != x
    ensures x !in s ==> r == s
  {
    if |s| == 0 then []
    else (if s[0] == x then [] else [s[0]]) + Without(s[1..], x)
  }

  /** The first index of `x` in `s`, or |s| when `x` does not occur. */
  function IndexOf<T(==)>(s: seq<T>, x: T): (i: nat)
    ensures i <= |s|
    ensures i < |s| <==> x in s
    ensures i < |s| ==> s[i] == x && x !in s[..i]
  {
    if |s| == 0 then 0
    else if s[0] == x then 0
    else
      assert s[1..][..IndexOf(s[1..], x)] == s[1..1 + IndexOf(s[1..], x)];
      1 + IndexOf(s[1..], x)
  }

  /** `s` with `x` inserted at index `i`, clamped to the end. */
  function Insert<T>(s: seq<T>, i: nat, x: T): (r: seq<T>)
    ensures |r| == |s| + 1
  {
    var k := if i < |s| then i else |s|;
    s[..k] + [x] + s[k..]
  }

  lemma {:induction false} WithoutConcat<T(!new)>(a: seq<T>, b: seq<T>, x: T)
    ensures Without(a + b, x) == Without(a, x) + Without(b, x)
  {
    if |a| > 0 {
      assert (a + b)[1..] == a[1..] + b;
      WithoutConcat(a[1..], b, x);
    } else {
      assert a + b == b;
    }
  }

  /** Removing the one occurrence of `x` from `a + [x] + b`. */
  lemma WithoutMiddle<T(!new)>(a: seq<T>, x: T, b: seq<T>)
    requires x !in a && x !in b
    ensures Without(a + [x] + b, x) == a + b
  {
    WithoutConcat(a + [x], b, x);
    WithoutConcat(a, [x], x);
  }

  lemma {:induction false} IndexOfMiddle<T>(a: seq<T>, x: T, b: seq<T>)
    requires x !in a
    ensures IndexOf(a + [x] + b, x) == |a|
  {
    if |a| == 0 {
      assert (a + [x] + b)[0] == x;
    } else {
      assert (a + [x] + b)[1..] == a[1..] + [x] + b;
      IndexOfMiddle(a[1..], x, b);
    }
  }

  /** No element of `xs` occurs in `ys`. */
  predicate Disjoint<T(==)>(xs: seq<T>, ys: seq<T>) {
    forall i | 0 <= i < |xs| :: xs[i] !in ys
  }

  /** After `xs[0]` joined `ys` (at any place), the rest of `xs` is still outside it. */
  lemma DisjointTail<T>(xs: seq<T>, ys: seq<T>, zs: seq<T>)
    requires |xs| > 0 && NoDup(xs) && Disjoint(xs, ys)
    requires forall z | z in zs :: z in ys || z == xs[0]
    ensures Disjoint(xs[1..], zs)
  {
    forall i | 0 <= i < |xs[1..]|
      ensures xs[1..][i] !in zs
    {
      assert xs[1..][i] == xs[i + 1] != xs[0];
    }
  }

  lemma HeadTail<T>(pre: seq<T>, xs: seq<T>)
    requires |xs| > 0
    ensures pre + [xs[0]] + xs[1..] == pre + xs
  {
    assert [xs[0]] + xs[1..] == xs;
  }

  /** Disjointness passes to a part. */
  lemma SubsetDisjoint<T>(xs: seq<T>, ys: seq<T>, zs: seq<T>)
    requires forall x | x in xs :: x in ys
    requires Disjoint(ys, zs)
    ensures Disjoint(xs, zs)
  {
    forall i | 0 <= i < |xs| ensures xs[i] !in zs {
      assert xs[i] in ys;
      var j :| 0 <= j < |ys| && ys[j] == xs[i];
    }
  }

  /** A bound passes to a part. */
  lemma SubsetBelow(xs: seq<nat>, ys: seq<nat>, bound: nat)
    requires forall x | x in xs :: x in ys
    requires Below(ys, bound)
    ensures Below(xs, bound)
  {
    forall i | 0 <= i < |xs| ensures xs[i] < bound {
      assert xs[i] in ys;
      var j :| 0 <= j < |ys| && ys[j] == xs[i];
    }
  }

  /** Distinctness, disjointness from another sequence and a bound pass to
      both halves of a concatenation, and the halves are disjoint. */
  lemma ConcatParts<T>(a: seq<T>, b: seq<T>, ys: seq<T>)
    ensures Disjoint(a + b, ys) ==> Disjoint(a, ys) && Disjoint(b, ys)
    ensures NoDup(a + b) ==> NoDup(a) && NoDup(b) && Disjoint(b, a)
  {
    var ab := a + b;
    if Disjoint(ab, ys) {
      forall i | 0 <= i < |b| ensures b[i] !in ys {
        assert b[i] == ab[|a| + i];
      }
      forall i | 0 <= i < |a| ensures a[i] !in ys {
        assert a[i] == ab[i];
      }
    }
    if NoDup(ab) {
      forall i, j | 0 <= i < j < |b| ensures b[i] != b[j] {
        assert b[i] == ab[|a| + i] && b[j] == ab[|a| + j];
      }
      forall i, j | 0 <= i < j < |a| ensures a[i] != a[j] {
        assert a[i] == ab[i] && a[j] == ab[j];
      }
      forall i | 0 <= i < |b| ensures b[i] !in a {
        assert b[i] == ab[|a| + i];
        forall j | 0 <= j < |a| ensures a[j] != b[i] {
          assert a[j] == ab[j];
        }
      }
    }
  }

  lemma BelowParts(a: seq<nat>, b: seq<nat>, bound: nat)
    requires Below(a + b, bound)
    ensures Below(a, bound) && Below(b, bound)
  {
    forall i | 0 <= i < |b| ensures b[i] < bound {
      assert b[i] == (a + b)[|a| + i];
    }
    forall i | 0 <= i < |a| ensures a[i] < bound {
      assert a[i] == (a + b)[i];
    }
  }

  lemma NoDupCons<T>(x: T, s: seq<T>)
    requires NoDup(s) && x !in s
    ensures NoDup([x] + s)
  {
    var xs := [x] + s;
    forall i, j | 0 <= i < j < |xs| ensures xs[i] != xs[j] {
      assert xs[j] == s[j - 1];
      if i > 0 {
        assert xs[i] == s[i - 1];
      }
    }
  }

  /** Members of `xs` taken from `ys` or at least `bound` avoid a sequence
      that `ys` avoids and whose members are below `bound`. */
  lemma DisjointByBound(xs: seq<nat>, ys: seq<nat>, zs: seq<nat>, bound: nat)
    requires forall x | x in xs :: x in ys || bound <= x
    requires Disjoint(ys, zs) && Below(zs, bound)
    ensures Disjoint(xs, zs)
  {
    forall i | 0 <= i < |xs| ensures xs[i] !in zs {
      if xs[i] in ys {
        var j :| 0 <= j < |ys| && ys[j] == xs[i];
      } else {
        forall k | 0 <= k < |zs| ensures zs[k] != xs[i] {
          assert zs[k] < bound;
        }
      }
    }
  }

  lemma Assoc<T>(a: seq<T>, b: seq<T>, c: seq<T>)
    ensures (a + b) + c == a + (b + c)
  {
  }

  lemma ConsSplit<T>(a: seq<T>, b: seq<T>)
    requires |a| > 0
    ensures |a + b| > 0 && (a + b)[0] == a[0] && (a + b)[1..] == a[1..] + b
  {
  }
}
