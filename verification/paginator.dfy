/**
 * The paginator every listing view wraps its queryset in: fixed-size,
 * 1-indexed pages over an ordered listing, the last page possibly short.
 */
module Paginator {
  import opened Seqs

  /** `RECORDS_ON_THE_PAGE` from the project settings: the page size of every listing. */
  const RECORDS_ON_THE_PAGE: nat := 10

  function Min(a: int, b: int): int {
    if a < b then a else b
  }

  /**
   * Number of pages of a listing of `count` rows: enough full pages to hold
   * every row, and one (empty) page for an empty listing.
   */
  function PageCount(count: nat, perPage: nat): (r: nat)
    requires perPage > 0
    ensures r >= 1
    ensures count == 0 ==> r == 1
    ensures count > 0 ==> (r - 1) * perPage < count <= r * perPage
  {
    if count == 0 then 1
    else
      var r := (count + perPage - 1) / perPage;
      assert (r - 1) * perPage == r * perPage - perPage;
      r
  }

  /**
   * Page `k` of `xs`: the rows from position `(k - 1) * perPage` on, at most
   * `perPage` of them; every page but the last is full.
   */
  function Paginate<T>(xs: seq<T>, k: nat, perPage: nat): (page: seq<T>)
    requires perPage > 0 && 1 <= k <= PageCount(|xs|, perPage)
    ensures |page| <= perPage
    ensures k < PageCount(|xs|, perPage) ==> |page| == perPage
    ensures |xs| > 0 ==> |page| > 0
    ensures (k - 1) * perPage + |page| <= |xs|
    ensures k == PageCount(|xs|, perPage) ==> (k - 1) * perPage + |page| == |xs|
    ensures forall i :: 0 <= i < |page| ==> page[i] == xs[(k - 1) * perPage + i]
  {
    var n := PageCount(|xs|, perPage);
    MulMono(k - 1, n - 1, perPage);
    if k < n then MulMono(k, n - 1, perPage); xs[(k - 1) * perPage .. k * perPage]
    else xs[(k - 1) * perPage .. Min(k * perPage, |xs|)]
  }

  /** Pages `k` to the last, in order. */
  function PagesFrom<T>(xs: seq<T>, perPage: nat, k: nat): (pages: seq<seq<T>>)
    requires perPage > 0 && 1 <= k <= PageCount(|xs|, perPage)
    decreases PageCount(|xs|, perPage) - k
  {
    if k == PageCount(|xs|, perPage) then [Paginate(xs, k, perPage)]
    else [Paginate(xs, k, perPage)] + PagesFrom(xs, perPage, k + 1)
  }

  /** Every page of `xs`, first to last. */
  function Pages<T>(xs: seq<T>, perPage: nat): seq<seq<T>>
    requires perPage > 0
  {
    PagesFrom(xs, perPage, 1)
  }

  /** Multiplying by a page size keeps the order of page numbers. */
  lemma MulMono(a: nat, b: nat, n: nat)
    requires a <= b
    ensures a * n <= b * n
  {
  }

  /** Where page `k` starts and ends in `xs`. */
  lemma PageBounds<T>(xs: seq<T>, k: nat, perPage: nat)
    requires perPage > 0 && 1 <= k <= PageCount(|xs|, perPage)
    ensures (k - 1) * perPage <= |xs|
    ensures k * perPage == (k - 1) * perPage + perPage
    ensures k < PageCount(|xs|, perPage) ==> k * perPage <= |xs|
    ensures k == PageCount(|xs|, perPage) ==> |xs| <= k * perPage
  {
    var n := PageCount(|xs|, perPage);
    MulMono(k - 1, n - 1, perPage);
    if k < n {
      MulMono(k, n - 1, perPage);
    }
  }

  /** The last page is the rest of the listing from its first position. */
  lemma LastPageSlice<T>(xs: seq<T>, perPage: nat)
    requires perPage > 0
    ensures var n := PageCount(|xs|, perPage);
      && (n - 1) * perPage <= |xs|
      && Paginate(xs, n, perPage) == xs[(n - 1) * perPage ..]
  {
    var n := PageCount(|xs|, perPage);
    var page := Paginate(xs, n, perPage);
    var lo := (n - 1) * perPage;
    assert |page| == |xs[lo..]|;
    forall i | 0 <= i < |page| ensures page[i] == xs[lo..][i] {
    }
  }

  /** A page before the last is full and is followed directly by the next page's rows. */
  lemma InnerPageSlice<T>(xs: seq<T>, k: nat, perPage: nat)
    requires perPage > 0 && 1 <= k < PageCount(|xs|, perPage)
    ensures (k - 1) * perPage + perPage == k * perPage <= |xs|
    ensures xs[(k - 1) * perPage ..] == Paginate(xs, k, perPage) + xs[k * perPage ..]
  {
    PageBounds(xs, k, perPage);
    var lo := (k - 1) * perPage;
    var hi := k * perPage;
    var page := Paginate(xs, k, perPage);
    assert |page| == hi - lo;
    assert page == xs[lo..hi] by {
      forall i | 0 <= i < |page| ensures page[i] == xs[lo..hi][i] {
      }
    }
    assert xs[lo..] == xs[lo..hi] + xs[hi..];
  }

  /** Pages `k` onwards, laid end to end, are the rows from page `k`'s first position on. */
  lemma {:induction false} PagesFromCover<T>(xs: seq<T>, perPage: nat, k: nat)
    requires perPage > 0 && 1 <= k <= PageCount(|xs|, perPage)
    ensures |PagesFrom(xs, perPage, k)| == PageCount(|xs|, perPage) - k + 1
    ensures (k - 1) * perPage <= |xs|
    ensures Flatten(PagesFrom(xs, perPage, k)) == xs[(k - 1) * perPage ..]
    decreases PageCount(|xs|, perPage) - k
  {
    PageBounds(xs, k, perPage);
    var page := Paginate(xs, k, perPage);
    var pages := PagesFrom(xs, perPage, k);
    if k == PageCount(|xs|, perPage) {
      LastPageSlice(xs, perPage);
      assert pages == [page];
      assert Flatten(pages) == page + Flatten([]);
    } else {
      InnerPageSlice(xs, k, perPage);
      PagesFromCover(xs, perPage, k + 1);
      assert pages == [page] + PagesFrom(xs, perPage, k + 1);
      assert Flatten(pages) == page + Flatten(PagesFrom(xs, perPage, k + 1));
    }
  }

  /**
   * The pages are gap-free and duplicate-free: laid end to end they give
   * back the whole listing, each row once and in order.
   */
  lemma PagesCover<T>(xs: seq<T>, perPage: nat)
    requires perPage > 0
    ensures |Pages(xs, perPage)| == PageCount(|xs|, perPage)
    ensures Flatten(Pages(xs, perPage)) == xs
  {
    PagesFromCover(xs, perPage, 1);
  }

  /**
   * Ten pages' worth plus three more: a listing of the 13 rows of
   * `inserted` in reverse insertion order (newest first) has two pages;
   * the first holds the ten newest, which read backwards are rows 4 to 13
   * in insertion order, and the second holds the three oldest.
   */
  lemma OverflowPages<T>(inserted: seq<T>)
    requires |inserted| == RECORDS_ON_THE_PAGE + 3
    ensures PageCount(|inserted|, RECORDS_ON_THE_PAGE) == 2
    ensures |Paginate(Reverse(inserted), 1, RECORDS_ON_THE_PAGE)| == RECORDS_ON_THE_PAGE
    ensures Reverse(Paginate(Reverse(inserted), 1, RECORDS_ON_THE_PAGE)) == inserted[3..]
    ensures Paginate(Reverse(inserted), 2, RECORDS_ON_THE_PAGE) == Reverse(inserted[..3])
  {
    var feed := Reverse(inserted);
    assert PageCount(13, 10) == 2;
    var first := Paginate(feed, 1, RECORDS_ON_THE_PAGE);
    var second := Paginate(feed, 2, RECORDS_ON_THE_PAGE);
    assert |first| == 10 && |second| == 3;
    forall i | 0 <= i < 10 ensures Reverse(first)[i] == inserted[3..][i] {
      assert Reverse(first)[i] == first[9 - i] == feed[9 - i] == inserted[3 + i];
    }
    forall i | 0 <= i < 3 ensures second[i] == Reverse(inserted[..3])[i] {
      assert second[i] == feed[10 + i] == inserted[2 - i];
    }
  }
}
