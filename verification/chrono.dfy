/**
 * Newest-first listings. Every model with a creation timestamp is listed
 * with the most recent row first (`ordering = ['-pub_date']` for posts,
 * `['-created']` for comments). A row's position is given by its `Stamp`:
 * the timestamp first and, on equal timestamps, the larger id first. The
 * tie-break by id is a choice of this model that makes every listing
 * deterministic; the database itself leaves the order of equal timestamps
 * unspecified.
 */
module Chrono {
  import opened Seqs

  /** Where a row sits in a newest-first listing. */
  datatype Stamp = Stamp(time: nat, id: nat)

  /** A row stamped `a` is listed before a row stamped `b`. */
  predicate Newer(a: Stamp, b: Stamp) {
    a.time > b.time || (a.time == b.time && a.id > b.id)
  }

  /** Every row is strictly newer than every row listed after it. */
  predicate NewestFirst<T>(xs: seq<T>, stamp: T -> Stamp) {
    forall i, j :: 0 <= i < j < |xs| ==> Newer(stamp(xs[i]), stamp(xs[j]))
  }

  /**
   * Saving a new row into a newest-first table: `x` goes in front of the
   * first row it is newer than, so the listing stays ordered (`InsertSorted`).
   */
  function Insert<T>(xs: seq<T>, x: T, stamp: T -> Stamp): (r: seq<T>)
    ensures |r| == |xs| + 1
    ensures multiset(r) == multiset(xs) + multiset{x}
  {
    if |xs| == 0 || Newer(stamp(x), stamp(xs[0])) then [x] + xs
    else
      assert xs == [xs[0]] + xs[1..];
      [xs[0]] + Insert(xs[1..], x, stamp)
  }

  /** The head of an ordered listing is newer than the rest, which is ordered too. */
  lemma SortedTail<T>(xs: seq<T>, stamp: T -> Stamp)
    requires NewestFirst(xs, stamp) && |xs| > 0
    ensures NewestFirst(xs[1..], stamp)
    ensures forall y :: y in xs[1..] ==> Newer(stamp(xs[0]), stamp(y))
  {
    forall y | y in xs[1..] ensures Newer(stamp(xs[0]), stamp(y)) {
      var k :| 0 <= k < |xs[1..]| && xs[1..][k] == y;
      assert xs[k + 1] == y;
    }
  }

  /** A row newer than every row of an ordered listing can head it. */
  lemma SortedCons<T>(a: T, ys: seq<T>, stamp: T -> Stamp)
    requires NewestFirst(ys, stamp)
    requires forall y :: y in ys ==> Newer(stamp(a), stamp(y))
    ensures NewestFirst([a] + ys, stamp)
  {
    var r := [a] + ys;
    forall i, j | 0 <= i < j < |r| ensures Newer(stamp(r[i]), stamp(r[j])) {
      assert r[j] == ys[j - 1];
      if i == 0 {
        assert ys[j - 1] in ys;
      } else {
        assert r[i] == ys[i - 1];
      }
    }
  }

  /** An ordered listing stays ordered when a row with a fresh stamp is inserted. */
  lemma {:induction false} InsertSorted<T>(xs: seq<T>, x: T, stamp: T -> Stamp)
    requires NewestFirst(xs, stamp)
    requires forall y :: y in xs ==> stamp(y) != stamp(x)
    ensures NewestFirst(Insert(xs, x, stamp), stamp)
    decreases |xs|
  {
    if |xs| == 0 {
    } else if Newer(stamp(x), stamp(xs[0])) {
      SortedTail(xs, stamp);
      assert xs == [xs[0]] + xs[1..];
      SortedCons(x, xs, stamp);
    } else {
      assert xs[0] in xs;
      SortedTail(xs, stamp);
      InsertSorted(xs[1..], x, stamp);
      var rest := Insert(xs[1..], x, stamp);
      forall y | y in rest ensures Newer(stamp(xs[0]), stamp(y)) {
        assert y in multiset(rest);
      }
      SortedCons(xs[0], rest, stamp);
    }
  }

  /** A row newer than everything already listed becomes the head of the listing. */
  lemma InsertNewest<T>(xs: seq<T>, x: T, stamp: T -> Stamp)
    requires forall y :: y in xs ==> Newer(stamp(x), stamp(y))
    ensures Insert(xs, x, stamp) == [x] + xs
  {
    if |xs| > 0 {
      assert xs[0] in xs;
    }
  }

  /** A filtered ordered listing is ordered. */
  lemma {:induction false} FilterSorted<T(!new)>(xs: seq<T>, p: T -> bool, stamp: T -> Stamp)
    requires NewestFirst(xs, stamp)
    ensures NewestFirst(Filter(xs, p), stamp)
    decreases |xs|
  {
    if |xs| > 0 {
      SortedTail(xs, stamp);
      FilterSorted(xs[1..], p, stamp);
      if p(xs[0]) {
        SortedCons(xs[0], Filter(xs[1..], p), stamp);
      }
    }
  }

  /**
   * Saving a row and then filtering gives the filtered listing with the row
   * inserted when it matches, and the filtered listing untouched otherwise.
   */
  lemma {:induction false} FilterInsert<T(!new)>(xs: seq<T>, x: T, p: T -> bool, stamp: T -> Stamp)
    requires NewestFirst(xs, stamp)
    ensures Filter(Insert(xs, x, stamp), p)
         == if p(x) then Insert(Filter(xs, p), x, stamp) else Filter(xs, p)
    decreases |xs|
  {
    if |xs| == 0 {
    } else if Newer(stamp(x), stamp(xs[0])) {
      var r := [x] + xs;
      assert r[0] == x && r[1..] == xs;
      SortedTail(xs, stamp);
      assert forall y :: y in xs ==> Newer(stamp(x), stamp(y)) by {
        assert xs == [xs[0]] + xs[1..];
      }
      InsertNewest(Filter(xs, p), x, stamp);
    } else {
      var r := [xs[0]] + Insert(xs[1..], x, stamp);
      assert r[0] == xs[0] && r[1..] == Insert(xs[1..], x, stamp);
      SortedTail(xs, stamp);
      FilterInsert(xs[1..], x, p, stamp);
    }
  }

  /** Two ordered listings of the same rows are the same listing. */
  lemma {:induction false} SortedUnique<T>(a: seq<T>, b: seq<T>, stamp: T -> Stamp)
    requires NewestFirst(a, stamp) && NewestFirst(b, stamp)
    requires forall x :: x in a <==> x in b
    ensures a == b
    decreases |a|
  {
    assert |a| == 0 || a[0] in a;
    assert |b| == 0 || b[0] in b;
    if |a| > 0 && |b| > 0 {
      SortedTail(a, stamp);
      SortedTail(b, stamp);
      assert a == [a[0]] + a[1..];
      assert b == [b[0]] + b[1..];
      assert a[0] in b && b[0] in a;
      assert a[0] == b[0];
      assert a[0] !in a[1..];
      assert b[0] !in b[1..];
      forall x ensures x in a[1..] <==> x in b[1..] {
        assert x in a[1..] <==> x in a && x != a[0];
        assert x in b[1..] <==> x in b && x != b[0];
      }
      SortedUnique(a[1..], b[1..], stamp);
    }
  }

  /** An ordered listing never holds the same row twice. */
  lemma SortedNoDup<T>(xs: seq<T>, stamp: T -> Stamp)
    requires NewestFirst(xs, stamp)
    ensures NoDup(xs)
  {
    forall i, j | 0 <= i < j < |xs| ensures xs[i] != xs[j] {
      assert Newer(stamp(xs[i]), stamp(xs[j]));
    }
  }
}
