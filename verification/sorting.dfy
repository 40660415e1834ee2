/** `Array.prototype.sort` with a comparator, modelled as an insertion sort
    over a "less than or equal" relation derived from the comparator. The
    result is a permutation of the input; for a comparator that is a total
    preorder it is sorted, and for a transitive one it is stable, as the
    language has required of `sort` since ECMAScript 2019. */
module Sorting {

  ghost predicate Connected<T(!new)>(le: (T, T) -> bool) {
    forall a, b :: le(a, b) || le(b, a)
  }

  ghost predicate Transitive<T(!new)>(le: (T, T) -> bool) {
    forall a, b, c :: le(a, b) && le(b, c) ==> le(a, c)
  }

  ghost predicate TotalPreorder<T(!new)>(le: (T, T) -> bool) {
    Connected(le) && Transitive(le)
  }

  predicate SortedBy<T>(xs: seq<T>, le: (T, T) -> bool) {
    forall i, j :: 0 <= i < j < |xs| ==> le(xs[i], xs[j])
  }

  /** Inserts `x` before the first element it is not after, so that it stays
      ahead of the elements that compare equal to it. */
  function Insert<T>(x: T, ys: seq<T>, le: (T, T) -> bool): (r: seq<T>)
    ensures multiset(r) == multiset(ys) + multiset{x}
    decreases |ys|
  {
    if |ys| == 0 then [x]
    else if le(x, ys[0]) then [x] + ys
    else
      assert ys == [ys[0]] + ys[1..];
      [ys[0]] + Insert(x, ys[1..], le)
  }

  function InsertionSort<T>(xs: seq<T>, le: (T, T) -> bool): (r: seq<T>)
    ensures multiset(r) == multiset(xs)
    decreases |xs|
  {
    if |xs| == 0 then []
    else
      assert xs == [xs[0]] + xs[1..];
      Insert(xs[0], InsertionSort(xs[1..], le), le)
  }

  /** A head that is not after any element of a sorted tail keeps it sorted. */
  lemma ConsSorted<T>(h: T, tail: seq<T>, le: (T, T) -> bool)
    requires SortedBy(tail, le)
    requires forall k :: 0 <= k < |tail| ==> le(h, tail[k])
    ensures SortedBy([h] + tail, le)
  {
    var r := [h] + tail;
    forall i, j | 0 <= i < j < |r| ensures le(r[i], r[j]) {
      assert r[j] == tail[j - 1];
      if i > 0 {
        assert r[i] == tail[i - 1];
      }
    }
  }

  /** A lower bound of `x` and of every element of `ys` bounds the insertion. */
  lemma InsertBounded<T>(h: T, x: T, ys: seq<T>, le: (T, T) -> bool)
    requires le(h, x)
    requires forall k :: 0 <= k < |ys| ==> le(h, ys[k])
    ensures forall k :: 0 <= k < |Insert(x, ys, le)| ==> le(h, Insert(x, ys, le)[k])
  {
    var r := Insert(x, ys, le);
    forall k | 0 <= k < |r| ensures le(h, r[k]) {
      assert r[k] in multiset(r);
      if r[k] != x {
        assert r[k] in multiset(ys);
        var m :| 0 <= m < |ys| && ys[m] == r[k];
      }
    }
  }

  lemma {:induction false} InsertSorted<T(!new)>(x: T, ys: seq<T>, le: (T, T) -> bool)
    requires TotalPreorder(le)
    requires SortedBy(ys, le)
    ensures SortedBy(Insert(x, ys, le), le)
    decreases |ys|
  {
    if |ys| > 0 {
      if le(x, ys[0]) {
        assert forall k :: 0 <= k < |ys| ==> le(x, ys[k]) by {
          forall k | 0 <= k < |ys| ensures le(x, ys[k]) {
            if k > 0 {
              assert le(ys[0], ys[k]);
            }
          }
        }
        ConsSorted(x, ys, le);
      } else {
        var rest := ys[1..];
        assert SortedBy(rest, le);
        InsertSorted(x, rest, le);
        assert le(ys[0], x);
        assert forall k :: 0 <= k < |rest| ==> le(ys[0], rest[k]) by {
          forall k | 0 <= k < |rest| ensures le(ys[0], rest[k]) {
            assert rest[k] == ys[k + 1];
          }
        }
        InsertBounded(ys[0], x, rest, le);
        ConsSorted(ys[0], Insert(x, rest, le), le);
      }
    }
  }

  /** Sorting under a total preorder yields a sorted sequence. */
  lemma {:induction false} InsertionSortSorted<T(!new)>(xs: seq<T>, le: (T, T) -> bool)
    requires TotalPreorder(le)
    ensures SortedBy(InsertionSort(xs, le), le)
    decreases |xs|
  {
    if |xs| > 0 {
      InsertionSortSorted(xs[1..], le);
      InsertSorted(xs[0], InsertionSort(xs[1..], le), le);
    }
  }

  /** `x` and `y` compare equal: neither is after the other. */
  predicate Tied<T>(x: T, y: T, le: (T, T) -> bool) {
    le(x, y) && le(y, x)
  }

  /** The elements of `xs` that compare equal to `x`, in their order in `xs`. */
  function TiedWith<T>(xs: seq<T>, x: T, le: (T, T) -> bool): (r: seq<T>)
    ensures forall k :: 0 <= k < |r| ==> Tied(r[k], x, le)
    ensures |r| <= |xs|
    decreases |xs|
  {
    if |xs| == 0 then []
    else (if Tied(xs[0], x, le) then [xs[0]] else []) + TiedWith(xs[1..], x, le)
  }

  /** Of two elements where the first is after the second, at most one ties
      with any given `x`. */
  lemma NotBothTied<T(!new)>(h: T, y: T, x: T, le: (T, T) -> bool)
    requires Transitive(le)
    requires !le(h, y)
    ensures !(Tied(h, x, le) && Tied(y, x, le))
  {
  }

  /** Two pieces one of which is empty can be put in either order. */
  lemma SwapEmpty<T>(a: seq<T>, b: seq<T>, t: seq<T>)
    requires a == [] || b == []
    ensures a + (b + t) == b + (a + t)
  {
    if a == [] {
      assert a + (b + t) == b + t && a + t == t;
    } else {
      assert b + (a + t) == a + t && b + t == t;
    }
  }

  /** Insertion puts `h` ahead of every element it ties with, so among the
      elements tied with any `x` it only adds `h` at the front. */
  lemma {:induction false} InsertTiedWith<T(!new)>(h: T, ys: seq<T>, x: T, le: (T, T) -> bool)
    requires Transitive(le)
    ensures TiedWith(Insert(h, ys, le), x, le) ==
      (if Tied(h, x, le) then [h] else []) + TiedWith(ys, x, le)
    decreases |ys|
  {
    if |ys| == 0 {
      assert [h][1..] == [];
    } else if le(h, ys[0]) {
      assert ([h] + ys)[1..] == ys;
    } else {
      var rest := Insert(h, ys[1..], le);
      var ch := if Tied(h, x, le) then [h] else [];
      var c0 := if Tied(ys[0], x, le) then [ys[0]] else [];
      var tail := TiedWith(ys[1..], x, le);
      InsertTiedWith(h, ys[1..], x, le);
      assert ([ys[0]] + rest)[0] == ys[0] && ([ys[0]] + rest)[1..] == rest;
      assert TiedWith(Insert(h, ys, le), x, le) == c0 + (ch + tail);
      assert TiedWith(ys, x, le) == c0 + tail;
      NotBothTied(h, ys[0], x, le);
      SwapEmpty(c0, ch, tail);
    }
  }

  /** The sort is stable: for every `x`, the elements that compare equal to
      it leave the sort in the order they entered it. */
  lemma {:induction false} InsertionSortStable<T(!new)>(xs: seq<T>, x: T, le: (T, T) -> bool)
    requires Transitive(le)
    ensures TiedWith(InsertionSort(xs, le), x, le) == TiedWith(xs, x, le)
    decreases |xs|
  {
    if |xs| > 0 {
      InsertionSortStable(xs[1..], x, le);
      InsertTiedWith(xs[0], InsertionSort(xs[1..], le), x, le);
    }
  }
}
