/**
 * Sequence operations that stand for the object-relational layer's table
 * queries: `Filter` keeps the matching rows in table order (a queryset
 * `filter`), `Find` returns the first matching row (a `get`).
 */
module Seqs {
  import opened Wrappers

  /** The elements of `xs` that satisfy `p`, in their order in `xs`. */
  function Filter<T(!new)>(xs: seq<T>, p: T -> bool): (r: seq<T>)
    ensures |r| <= |xs|
    ensures forall x :: x in r <==> x in xs && p(x)
  {
    if |xs| == 0 then []
    else if p(xs[0]) then [xs[0]] + Filter(xs[1..], p)
    else Filter(xs[1..], p)
  }

  /** The first element of `xs` that satisfies `p`, if there is one. */
  function Find<T(!new)>(xs: seq<T>, p: T -> bool): (r: Option<T>)
    ensures r.Some? ==> r.value in xs && p(r.value)
    ensures r.None? <==> forall x :: x in xs ==> !p(x)
  {
    if |xs| == 0 then None
    else if p(xs[0]) then Some(xs[0])
    else Find(xs[1..], p)
  }

  /** No element occurs twice. */
  predicate NoDup<T(==)>(xs: seq<T>) {
    forall i, j :: 0 <= i < j < |xs| ==> xs[i] != xs[j]
  }

  /** `xs` with its order reversed. */
  function Reverse<T>(xs: seq<T>): (r: seq<T>)
    ensures |r| == |xs|
    ensures forall i :: 0 <= i < |xs| ==> r[i] == xs[|xs| - 1 - i]
  {
    if |xs| == 0 then [] else Reverse(xs[1..]) + [xs[0]]
  }

  /** The concatenation of the sequences in `xss`, in order. */
  function Flatten<T>(xss: seq<seq<T>>): seq<T> {
    if |xss| == 0 then [] else xss[0] + Flatten(xss[1..])
  }

  /** Filtering distributes over concatenation. */
  lemma {:induction false} FilterAppend<T(!new)>(xs: seq<T>, ys: seq<T>, p: T -> bool)
    ensures Filter(xs + ys, p) == Filter(xs, p) + Filter(ys, p)
    decreases |xs|
  {
    if |xs| == 0 {
      assert xs + ys == ys;
    } else {
      assert (xs + ys)[0] == xs[0];
      assert (xs + ys)[1..] == xs[1..] + ys;
      FilterAppend(xs[1..], ys, p);
    }
  }

  /** A filter that every element passes is the identity. */
  lemma {:induction false} FilterKeepsAll<T(!new)>(xs: seq<T>, p: T -> bool)
    requires forall x :: x in xs ==> p(x)
    ensures Filter(xs, p) == xs
    decreases |xs|
  {
    if |xs| > 0 {
      assert xs[0] in xs;
      assert forall x :: x in xs[1..] ==> x in xs;
      FilterKeepsAll(xs[1..], p);
      assert xs == [xs[0]] + xs[1..];
    }
  }

  /** Filtering a duplicate-free sequence yields a duplicate-free sequence. */
  lemma {:induction false} FilterNoDup<T(!new)>(xs: seq<T>, p: T -> bool)
    requires NoDup(xs)
    ensures NoDup(Filter(xs, p))
    decreases |xs|
  {
    if |xs| > 0 {
      NoDupTail(xs);
      FilterNoDup(xs[1..], p);
      if p(xs[0]) {
        var rest := Filter(xs[1..], p);
        assert xs[0] !in rest;
        var r := [xs[0]] + rest;
        forall i, j | 0 <= i < j < |r| ensures r[i] != r[j] {
          if i == 0 {
            assert r[j] == rest[j - 1];
            assert rest[j - 1] in rest;
          } else {
            assert r[i] == rest[i - 1] && r[j] == rest[j - 1];
          }
        }
      }
    }
  }

  /** The distinct elements of `xs` that satisfy `p`. */
  function Matching<T(!new)>(xs: seq<T>, p: T -> bool): set<T> {
    set x | x in xs && p(x)
  }

  /** In a duplicate-free sequence, the filter's length counts the matching elements. */
  lemma {:induction false} FilterCount<T(!new)>(xs: seq<T>, p: T -> bool)
    requires NoDup(xs)
    ensures |Filter(xs, p)| == |Matching(xs, p)|
    decreases |xs|
  {
    if |xs| == 0 {
      assert (set x | x in xs && p(x)) == {};
    } else {
      NoDupTail(xs);
      FilterCount(xs[1..], p);
      MatchingSplit(xs, p);
    }
  }

  /** The tail of a duplicate-free sequence is duplicate-free and misses the head. */
  lemma NoDupTail<T>(xs: seq<T>)
    requires NoDup(xs) && |xs| > 0
    ensures NoDup(xs[1..]) && xs[0] !in xs[1..]
  {
    var tail := xs[1..];
    forall i, j | 0 <= i < j < |tail| ensures tail[i] != tail[j] {
      assert tail[i] == xs[i + 1] && tail[j] == xs[j + 1];
    }
    forall k | 0 <= k < |tail| ensures tail[k] != xs[0] {
      assert tail[k] == xs[k + 1];
    }
  }

  /** The matching elements of a non-empty sequence: the head if it matches, then those of the tail. */
  lemma MatchingSplit<T(!new)>(xs: seq<T>, p: T -> bool)
    requires |xs| > 0
    ensures (set x | x in xs && p(x)) == (if p(xs[0]) then {xs[0]} else {}) + (set x | x in xs[1..] && p(x))
  {
    assert xs == [xs[0]] + xs[1..];
  }

  /** Removing one element that occurs once shortens the sequence by one. */
  lemma {:induction false} FilterRemovesOne<T(!new)>(xs: seq<T>, e: T, p: T -> bool)
    requires NoDup(xs)
    requires e in xs
    requires forall x :: x in xs ==> (p(x) <==> x != e)
    ensures |Filter(xs, p)| == |xs| - 1
  {
    FilterCount(xs, p);
    var all := set x | x in xs;
    var kept := set x | x in xs && p(x);
    assert all == kept + {e};
    assert e !in kept;
    DistinctCount(xs);
  }

  /** A duplicate-free sequence has as many distinct elements as positions. */
  lemma {:induction false} DistinctCount<T(!new)>(xs: seq<T>)
    requires NoDup(xs)
    ensures |set x | x in xs| == |xs|
    decreases |xs|
  {
    if |xs| == 0 {
      assert (set x | x in xs) == {};
    } else {
      var tail := xs[1..];
      NoDupTail(xs);
      DistinctCount(tail);
      assert xs == [xs[0]] + tail;
      assert (set x | x in xs) == {xs[0]} + (set x | x in tail);
    }
  }

  /** Appending an element that is not there yet keeps a sequence duplicate-free. */
  lemma NoDupAppend<T>(xs: seq<T>, x: T)
    requires NoDup(xs) && x !in xs
    ensures NoDup(xs + [x])
  {
    var r := xs + [x];
    forall i, j | 0 <= i < j < |r| ensures r[i] != r[j] {
      if j == |xs| {
        assert r[i] == xs[i];
      } else {
        assert r[i] == xs[i] && r[j] == xs[j];
      }
    }
  }
}
