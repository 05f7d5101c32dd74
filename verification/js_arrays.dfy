/** The JavaScript array operations the table is built on (`indexOf`,
    `splice(start, 1)`), plus the sequence vocabulary used to state what the
    table does: ranges of positions, removing a set of elements, and picking
    the elements at given positions. */
module JsArrays {

  predicate Distinct<T(==)>(s: seq<T>) {
    forall j, k :: 0 <= j < k < |s| ==> s[j] != s[k]
  }

  predicate Increasing(s: seq<int>) {
    forall j, k :: 0 <= j < k < |s| ==> s[j] < s[k]
  }

  /** The first position at or after `from` holding `x`, or -1. */
  function IndexFrom<T(==)>(s: seq<T>, x: T, from: nat): (i: int)
    ensures i == -1 || from <= i < |s|
    ensures i == -1 ==> forall k :: from <= k < |s| ==> s[k] != x
    ensures i != -1 ==> s[i] == x && forall k :: from <= k < i ==> s[k] != x
    decreases |s| - from
  {
    if from >= |s| then -1
    else if s[from] == x then from
    else IndexFrom(s, x, from + 1)
  }

  /** `s.indexOf(x)`: the first position holding `x`, or -1 when there is none. */
  function IndexOf<T(==)>(s: seq<T>, x: T): (i: int)
    ensures -1 <= i < |s|
    ensures i == -1 <==> x !in s
    ensures i != -1 ==> s[i] == x && x !in s[..i]
  {
    IndexFrom(s, x, 0)
  }

  /** `s.splice(start, 1)`: a negative start counts back from the end and is
      clamped at 0; a start past the end removes nothing. */
  function SpliceOne<T>(s: seq<T>, start: int): (r: seq<T>)
    ensures 0 <= start < |s| ==> r == s[..start] + s[start + 1..]
    ensures start == -1 && |s| > 0 ==> r == s[..|s| - 1]
    ensures |s| == 0 ==> r == []
    ensures -1 <= start < |s| ==> |r| == if |s| == 0 then 0 else |s| - 1
  {
    var from :=
      if start < 0 then (if |s| + start < 0 then 0 else |s| + start)
      else (if start < |s| then start else |s|);
    if from < |s| then s[..from] + s[from + 1..] else s
  }

  /** The positions `lo, lo + 1, ..., hi - 1`. */
  function Range(lo: nat, hi: nat): (r: seq<nat>)
    ensures |r| == if lo <= hi then hi - lo else 0
    ensures forall k :: 0 <= k < |r| ==> r[k] == lo + k
    decreases hi - lo
  {
    if lo >= hi then [] else [lo] + Range(lo + 1, hi)
  }

  /** The positions of `s` that are not in `xs`, in their order in `s`. */
  function Without(s: seq<nat>, xs: seq<nat>): (r: seq<nat>)
    ensures forall x :: x in r <==> x in s && x !in xs
    ensures |r| <= |s|
  {
    if |s| == 0 then []
    else (if s[0] in xs then [] else [s[0]]) + Without(s[1..], xs)
  }

  lemma RangeMembers(lo: nat, hi: nat)
    ensures forall x :: x in Range(lo, hi) <==> lo <= x < hi
  {
    var r := Range(lo, hi);
    forall x | lo <= x < hi ensures x in r {
      assert r[x - lo] == x;
    }
  }

  /** Removing positions from a sequence of positions below `n` leaves
      positions below `n`. */
  lemma WithoutBelow(s: seq<nat>, xs: seq<nat>, n: nat)
    requires forall k :: 0 <= k < |s| ==> s[k] < n
    ensures forall k :: 0 <= k < |Without(s, xs)| ==> Without(s, xs)[k] < n
  {
    var r := Without(s, xs);
    forall k | 0 <= k < |r| ensures r[k] < n {
      assert r[k] in r;
      assert r[k] in s;
    }
  }

  /** In the range of positions from 0, each position sits at its own index. */
  lemma IndexOfRange(n: nat, i: nat)
    requires i < n
    ensures IndexOf(Range(0, n), i) == i
  {
    var range := Range(0, n);
    assert range[i] == i;
  }

  /** The elements of `s` at the positions `ps`, in the order of `ps`. */
  function Project<T>(s: seq<T>, ps: seq<nat>): (r: seq<T>)
    requires forall k :: 0 <= k < |ps| ==> ps[k] < |s|
    ensures |r| == |ps|
    ensures forall k :: 0 <= k < |ps| ==> r[k] == s[ps[k]]
  {
    seq(|ps|, k requires 0 <= k < |ps| => s[ps[k]])
  }

  lemma ProjectAppend<T>(s: seq<T>, a: seq<nat>, b: seq<nat>)
    requires forall k :: 0 <= k < |a| ==> a[k] < |s|
    requires forall k :: 0 <= k < |b| ==> b[k] < |s|
    ensures Project(s, a + b) == Project(s, a) + Project(s, b)
  {
  }

  lemma ConcatTail(a: seq<nat>, b: seq<nat>)
    requires |a| > 0
    ensures (a + b)[0] == a[0] && (a + b)[1..] == a[1..] + b
  {
  }

  lemma {:induction false} WithoutAppend(a: seq<nat>, b: seq<nat>, xs: seq<nat>)
    ensures Without(a + b, xs) == Without(a, xs) + Without(b, xs)
  {
    if |a| > 0 {
      var head := if a[0] in xs then [] else [a[0]];
      ConcatTail(a, b);
      WithoutAppend(a[1..], b, xs);
      var x := Without(a[1..], xs);
      var y := Without(b, xs);
      assert Without(a + b, xs) == head + (x + y);
      assert Without(a, xs) == head + x;
      assert head + (x + y) == (head + x) + y;
    } else {
      assert a + b == b;
    }
  }

  lemma {:induction false} WithoutNoneOf(s: seq<nat>, xs: seq<nat>)
    requires forall k :: 0 <= k < |s| ==> s[k] !in xs
    ensures Without(s, xs) == s
  {
    if |s| > 0 {
      WithoutNoneOf(s[1..], xs);
    }
  }

  /** Removing `xs` and then `ys` is removing both at once. */
  lemma {:induction false} WithoutTwice(s: seq<nat>, xs: seq<nat>, ys: seq<nat>)
    ensures Without(Without(s, xs), ys) == Without(s, xs + ys)
  {
    if |s| > 0 {
      WithoutTwice(s[1..], xs, ys);
      var rest := Without(s[1..], xs);
      if s[0] !in xs {
        var once := [s[0]] + rest;
        assert Without(s, xs) == once;
        assert once[0] == s[0] && once[1..] == rest;
        assert Without(once, ys) == (if s[0] in ys then [] else [s[0]]) + Without(rest, ys);
      } else {
        assert Without(s, xs) == rest;
        assert s[0] in xs + ys;
      }
    }
  }

  lemma {:induction false} WithoutKeepsDistinct(s: seq<nat>, xs: seq<nat>)
    requires Distinct(s)
    ensures Distinct(Without(s, xs))
  {
    if |s| > 0 {
      assert Distinct(s[1..]) by {
        forall j, k | 0 <= j < k < |s[1..]| ensures s[1..][j] != s[1..][k] {
          assert s[1..][j] == s[j + 1] && s[1..][k] == s[k + 1];
        }
      }
      WithoutKeepsDistinct(s[1..], xs);
      assert s[0] !in s[1..];
    }
  }

  /** Cutting out position `i` of `s` removes `x = s[i]` when `x` occurs
      nowhere else. */
  lemma {:induction false} SpliceUnique(s: seq<nat>, i: nat, x: nat)
    requires i < |s| && s[i] == x
    requires x !in s[..i] && x !in s[i + 1..]
    ensures s[..i] + s[i + 1..] == Without(s, [x])
    decreases i
  {
    var tail := s[1..];
    if i == 0 {
      forall k | 0 <= k < |tail| ensures tail[k] !in [x] {
        assert tail[k] in s[i + 1..];
      }
      WithoutNoneOf(tail, [x]);
    } else {
      assert tail[i - 1] == x;
      assert tail[..i - 1] == s[1..i];
      assert tail[i..] == s[i + 1..];
      assert s[0] in s[..i];
      SpliceUnique(tail, i - 1, x);
      assert s[..i] == [s[0]] + tail[..i - 1];
    }
  }

  /** In a sequence without repeats, splicing out the first occurrence of an
      element removes exactly that element. */
  lemma SpliceFirstOccurrence(s: seq<nat>, x: nat)
    requires Distinct(s)
    requires x in s
    ensures SpliceOne(s, IndexOf(s, x)) == Without(s, [x])
  {
    var i := IndexOf(s, x);
    var after := s[i + 1..];
    forall k | 0 <= k < |after| ensures after[k] != x {
      assert after[k] == s[i + 1 + k];
    }
    SpliceUnique(s, i, x);
  }
}
