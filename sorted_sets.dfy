/** Integer collections as JavaScript handles them here: a `Set` of numbers
    turned into an array and sorted with the numeric comparator
    `(a, b) => a - b`. The result is the strictly ascending list of the
    distinct values, which is what `SortedSet` computes. */
module SortedSets {

  /** The set of values in `s`, for counting them. */
  function Elements(s: seq<int>): set<int> {
    set x | x in s
  }

  predicate StrictlyAscending(s: seq<int>) {
    forall i, j :: 0 <= i < j < |s| ==> s[i] < s[j]
  }

  predicate Distinct(s: seq<int>) {
    forall i, j :: 0 <= i < j < |s| ==> s[i] != s[j]
  }

  /** Both lists hold the same values, whatever their order and repetitions. */
  ghost predicate SameValues(a: seq<int>, b: seq<int>) {
    forall x :: x in a <==> x in b
  }

  /** Adds `x` to a strictly ascending list, keeping it strictly ascending. */
  function Insert(x: int, s: seq<int>): (r: seq<int>)
    requires StrictlyAscending(s)
    ensures StrictlyAscending(r)
    ensures forall y :: y in r <==> y in s || y == x
  {
    if |s| == 0 then [x]
    else if x < s[0] then
      [x] + s
    else if x == s[0] then s
    else
      var tail := Insert(x, s[1..]);
      assert forall j :: 0 <= j < |tail| ==> s[0] < tail[j] by {
        forall j | 0 <= j < |tail| ensures s[0] < tail[j] {
          assert tail[j] in tail;
        }
      }
      [s[0]] + tail
  }

  /** `[...new Set(xs)].sort((a, b) => a - b)`: the distinct values of `xs`
      in ascending order. */
  function SortedSet(xs: seq<int>): (r: seq<int>)
    ensures StrictlyAscending(r)
    ensures SameValues(r, xs)
  {
    if |xs| == 0 then []
    else
      var init := xs[..|xs| - 1];
      assert forall y :: y in xs <==> y in init || y == xs[|xs| - 1] by {
        assert xs == init + [xs[|xs| - 1]];
      }
      Insert(xs[|xs| - 1], SortedSet(init))
  }

  /** SortedSet has one entry per distinct value. */
  lemma SortedSetLength(xs: seq<int>)
    ensures |SortedSet(xs)| == |Elements(xs)|
  {
    var r := SortedSet(xs);
    DistinctCardinality(r);
    assert Elements(r) == Elements(xs);
  }

  /** A list without repetitions has as many distinct elements as entries. */
  lemma {:induction false} DistinctCardinality(s: seq<int>)
    requires Distinct(s)
    ensures |Elements(s)| == |s|
  {
    if |s| > 0 {
      var t := s[1..];
      assert Distinct(t);
      DistinctCardinality(t);
      assert Elements(s) == {s[0]} + Elements(t);
      assert s[0] !in Elements(t);
    }
  }

  /** A list has at most as many distinct elements as entries. */
  lemma {:induction false} ElementsBound(s: seq<int>)
    ensures |Elements(s)| <= |s|
  {
    if |s| > 0 {
      var t := s[1..];
      ElementsBound(t);
      assert Elements(s) == {s[0]} + Elements(t);
    }
  }

  /** A strictly ascending list is determined by its values. */
  lemma {:induction false} AscendingUnique(a: seq<int>, b: seq<int>)
    requires StrictlyAscending(a) && StrictlyAscending(b)
    requires SameValues(a, b)
    ensures a == b
  {
    NonEmptyTogether(a, b);
    if |a| > 0 {
      // the smallest value of each is the head of each
      assert a[0] in a && b[0] in b;
      HeadIsLeast(a, b[0]);
      HeadIsLeast(b, a[0]);
      TailsSameValues(a, b);
      AscendingUnique(a[1..], b[1..]);
      assert a == [a[0]] + a[1..] && b == [b[0]] + b[1..];
    }
  }

  lemma NonEmptyTogether(a: seq<int>, b: seq<int>)
    requires SameValues(a, b)
    ensures |a| > 0 <==> |b| > 0
  {
    if |a| > 0 {
      var x := a[0];
      assert x in a;
      assert x in a <==> x in b;
    }
    if |b| > 0 {
      var x := b[0];
      assert x in b;
      assert x in a <==> x in b;
    }
  }

  lemma TailsSameValues(a: seq<int>, b: seq<int>)
    requires StrictlyAscending(a) && StrictlyAscending(b)
    requires SameValues(a, b) && |a| > 0 && |b| > 0 && a[0] == b[0]
    ensures SameValues(a[1..], b[1..])
  {
    forall x ensures x in a[1..] <==> x in b[1..] {
      AscendingTail(a, x);
      AscendingTail(b, x);
      assert x in a <==> x in b;
    }
  }

  lemma AscendingTail(s: seq<int>, x: int)
    requires StrictlyAscending(s) && |s| > 0
    ensures x in s[1..] <==> x in s && x != s[0]
  {
    if x in s[1..] {
      var i :| 0 <= i < |s[1..]| && s[1..][i] == x;
      assert s[i + 1] == x;
    }
    if x in s && x != s[0] {
      var i :| 0 <= i < |s| && s[i] == x;
      assert s[1..][i - 1] == x;
    }
  }

  /** Appending a value above every element keeps a list ascending. */
  lemma AscendingSnoc(s: seq<int>, x: int)
    requires StrictlyAscending(s)
    requires forall y :: y in s ==> y < x
    ensures StrictlyAscending(s + [x])
  {
    assert forall k :: 0 <= k < |s| ==> s[k] in s;
  }

  lemma HeadIsLeast(s: seq<int>, x: int)
    requires StrictlyAscending(s) && x in s
    ensures s[0] <= x
  {
    var i :| 0 <= i < |s| && s[i] == x;
    assert i == 0 || s[0] < s[i];
  }

  /** Only the values matter to SortedSet: order and repetitions of the
      input do not. */
  lemma SortedSetOfSameValues(xs: seq<int>, ys: seq<int>)
    requires SameValues(xs, ys)
    ensures SortedSet(xs) == SortedSet(ys)
  {
    AscendingUnique(SortedSet(xs), SortedSet(ys));
  }

  /** A strictly ascending list is its own SortedSet. */
  lemma SortedSetOfAscending(xs: seq<int>)
    requires StrictlyAscending(xs)
    ensures SortedSet(xs) == xs
  {
    AscendingUnique(SortedSet(xs), xs);
  }
}

/** Generic sequence helpers: concatenation of a list of lists and sums. */
module Seqs {

  /** The concatenation, in order, of every list in `xss`. */
  function Flatten<T>(xss: seq<seq<T>>): seq<T> {
    if |xss| == 0 then [] else xss[0] + Flatten(xss[1..])
  }

  function Sum(xs: seq<int>): int {
    if |xs| == 0 then 0 else xs[0] + Sum(xs[1..])
  }

  /** The sum of the lengths of the lists in `xss`. */
  function TotalLength<T>(xss: seq<seq<T>>): nat {
    if |xss| == 0 then 0 else |xss[0]| + TotalLength(xss[1..])
  }

  lemma {:induction false} FlattenLength<T>(xss: seq<seq<T>>)
    ensures |Flatten(xss)| == TotalLength(xss)
  {
    if |xss| > 0 {
      FlattenLength(xss[1..]);
    }
  }

  lemma {:induction false} FlattenAppend<T>(xss: seq<seq<T>>, ys: seq<T>)
    ensures Flatten(xss + [ys]) == Flatten(xss) + ys
  {
    if |xss| == 0 {
      assert xss + [ys] == [ys];
    } else {
      assert (xss + [ys])[1..] == xss[1..] + [ys];
      FlattenAppend(xss[1..], ys);
    }
  }

  /** Element `j` of list `i` sits in the concatenation right after the
      `TotalLength` of the lists before it. */
  lemma {:induction false} FlattenIndex<T>(xss: seq<seq<T>>, i: nat, j: nat)
    requires i < |xss| && j < |xss[i]|
    ensures TotalLength(xss[..i]) + j < |Flatten(xss)|
    ensures Flatten(xss)[TotalLength(xss[..i]) + j] == xss[i][j]
  {
    FlattenLength(xss);
    if i > 0 {
      FlattenIndex(xss[1..], i - 1, j);
      assert xss[1..][..i - 1] == xss[..i][1..];
      FlattenLength(xss[1..]);
    }
  }

  lemma {:induction false} TotalLengthAppend<T>(xss: seq<seq<T>>, ys: seq<T>)
    ensures TotalLength(xss + [ys]) == TotalLength(xss) + |ys|
  {
    if |xss| == 0 {
      assert xss + [ys] == [ys];
    } else {
      assert (xss + [ys])[1..] == xss[1..] + [ys];
      TotalLengthAppend(xss[1..], ys);
    }
  }

  lemma {:induction false} SumAppend(xs: seq<int>, y: int)
    ensures Sum(xs + [y]) == Sum(xs) + y
  {
    if |xs| == 0 {
      assert xs + [y] == [y];
    } else {
      assert (xs + [y])[1..] == xs[1..] + [y];
      SumAppend(xs[1..], y);
    }
  }
}
