/** Fixed-size pagination of the four feeds. The page-number handling is the
    web framework's `get_page`, assumed here as: a missing or non-numeric page
    number means page 1, and any number outside 1..last (zero and negatives
    included) means the last page; an empty listing still has one, empty,
    page. */
module Pagination {
  import opened Util

  /** `paginator_pages`: posts per feed page. */
  const PageSize: nat := 10

  datatype Page<T> = Page(number: nat, numPages: nat, items: seq<T>)

  function Min(a: int, b: int): int { if a <= b then a else b }

  /** The number of pages for `n` items. */
  function NumPages(n: nat): (r: nat)
    ensures r >= 1
    ensures n == 0 ==> r == 1
    ensures n > 0 ==> (r - 1) * PageSize < n <= r * PageSize
  {
    if n == 0 then 1 else (n + PageSize - 1) / PageSize
  }

  /** The page actually served for a requested page number. */
  function PageNumber(n: nat, requested: Option<int>): (k: nat)
    ensures 1 <= k <= NumPages(n)
    ensures requested.None? ==> k == 1
    ensures requested.Some? && 1 <= requested.value <= NumPages(n) ==> k == requested.value
    ensures requested.Some? && !(1 <= requested.value <= NumPages(n)) ==> k == NumPages(n)
  {
    match requested
    case None => 1
    case Some(v) => if 1 <= v <= NumPages(n) then v else NumPages(n)
  }

  /** The items of page `k`. */
  function PageItems<T>(items: seq<T>, k: nat): (r: seq<T>)
    requires 1 <= k <= NumPages(|items|)
    ensures |r| == Min(PageSize, |items| - (k - 1) * PageSize)
    ensures forall i :: 0 <= i < |r| ==> r[i] == items[(k - 1) * PageSize + i]
  {
    items[(k - 1) * PageSize .. Min(k * PageSize, |items|)]
  }

  /** `Paginator(items, 10).get_page(requested)`. */
  function Paginate<T>(items: seq<T>, requested: Option<int>): (r: Page<T>)
    ensures r.numPages == NumPages(|items|)
    ensures 1 <= r.number <= r.numPages
    ensures 0 < |r.items| <= PageSize || (|items| == 0 && r.items == [])
    ensures r.items == PageItems(items, r.number)
  {
    var k := PageNumber(|items|, requested);
    Page(k, NumPages(|items|), PageItems(items, k))
  }

  /** Pages `k`, `k + 1`, ..., last, glued together. */
  function PagesFrom<T>(items: seq<T>, k: nat): seq<T>
    requires 1 <= k <= NumPages(|items|)
    decreases NumPages(|items|) - k
  {
    if k == NumPages(|items|) then PageItems(items, k)
    else PageItems(items, k) + PagesFrom(items, k + 1)
  }

  /** The pages partition the listing: read in order they give back every
      item exactly once, in the original order. */
  lemma {:induction false} PagesCover<T>(items: seq<T>, k: nat)
    requires 1 <= k <= NumPages(|items|)
    ensures PagesFrom(items, k) == items[(k - 1) * PageSize..]
    decreases NumPages(|items|) - k
  {
    if k < NumPages(|items|) {
      PageStep(|items|, k);
      var a, b := (k - 1) * PageSize, k * PageSize;
      PagesCover(items, k + 1);
      assert PagesFrom(items, k + 1) == items[b..];
      assert PageItems(items, k) == items[a..b];
      assert items[a..] == items[a..b] + items[b..];
    }
  }

  /** The offsets of page k and of the page after it. */
  lemma PageStep(n: nat, k: nat)
    requires 1 <= k < NumPages(n)
    ensures 0 <= (k - 1) * PageSize
    ensures (k - 1) * PageSize + PageSize == k * PageSize == (k + 1 - 1) * PageSize
    ensures k * PageSize < n
  {
    assert k * PageSize <= (NumPages(n) - 1) * PageSize;
  }

  lemma AllPages<T>(items: seq<T>)
    ensures PagesFrom(items, 1) == items
  {
    PagesCover(items, 1);
  }

  /** The page sizes the paginator tests expect: thirteen items make a full
      first page and a second page of three, and a page past the end serves
      the last page again. */
  lemma ThirteenItems<T>(items: seq<T>)
    requires |items| == 13
    ensures |Paginate(items, None).items| == 10
    ensures |Paginate(items, Some(2)).items| == 3
    ensures Paginate(items, Some(5)) == Paginate(items, Some(2))
  {
  }
  /** A page shows items of the list only, in the list's order: a
      newest-first list gives a newest-first page. */
  lemma PageOfList<T>(items: seq<T>, requested: Option<int>, key: T -> int)
    ensures forall x :: x in Paginate(items, requested).items ==> x in items
    ensures Descending(items, key) ==> Descending(Paginate(items, requested).items, key)
  {
    PageItemsOfList(items, Paginate(items, requested).number, key);
  }

  /** Page `k` is a run of the listing, so it inherits membership and
      order. */
  lemma PageItemsOfList<T>(items: seq<T>, k: nat, key: T -> int)
    requires 1 <= k <= NumPages(|items|)
    ensures forall x :: x in PageItems(items, k) ==> x in items
    ensures Descending(items, key) ==> Descending(PageItems(items, k), key)
  {
    var o := (k - 1) * PageSize;
    SliceOfList(items, PageItems(items, k), o, key);
  }

  /** A run of consecutive items from offset `o` on. */
  lemma SliceOfList<T>(items: seq<T>, run: seq<T>, o: nat, key: T -> int)
    requires o + |run| <= |items|
    requires forall i :: 0 <= i < |run| ==> run[i] == items[o + i]
    ensures forall x :: x in run ==> x in items
    ensures Descending(items, key) ==> Descending(run, key)
  {
    forall x | x in run ensures x in items {
      var i :| 0 <= i < |run| && run[i] == x;
      assert items[o + i] == x;
    }
    if Descending(items, key) {
      forall i, j | 0 <= i < j < |run| ensures key(run[i]) >= key(run[j]) {
        assert run[i] == items[o + i] && run[j] == items[o + j];
      }
    }
  }
}
