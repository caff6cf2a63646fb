/** The table's pagination: fixed pages of ten rows, the page count, the
    "Showing x to y" range and the window of up to five page buttons. */
module TablePaging {

  const RowsPerPage: nat := 10

  /** Number of page buttons shown at most. */
  const WindowSize: nat := 5

  /** `Math.min` */
  function Min(a: int, b: int): (r: int)
    ensures r <= a && r <= b && (r == a || r == b)
  {
    if a <= b then a else b
  }

  /** `Math.max` */
  function Max(a: int, b: int): (r: int)
    ensures r >= a && r >= b && (r == a || r == b)
  {
    if a <= b then b else a
  }

  /** `Math.ceil(n / RowsPerPage)`: the fewest pages that hold `n` rows,
      0 for an empty list. */
  function TotalPages(n: nat): (r: nat)
    ensures n <= r * RowsPerPage
    ensures r > 0 ==> (r - 1) * RowsPerPage < n
    ensures r == 0 <==> n == 0
  {
    (n + RowsPerPage - 1) / RowsPerPage
  }

  /** JavaScript `s.slice(start, end)` for `0 <= start <= end`: indices past
      the end are cut back to the length. */
  function Slice<T>(s: seq<T>, start: nat, end: nat): (r: seq<T>)
    requires start <= end
    ensures |r| <= end - start
    ensures start < |s| ==> |r| == Min(end, |s|) - start
    ensures forall k :: 0 <= k < |r| ==> start + k < |s| && r[k] == s[start + k]
  {
    if |s| <= start then [] else s[start..Min(end, |s|)]
  }

  /** The rows of page `page`: `rows.slice(page * 10, page * 10 + 10)`.
      It is non-empty exactly for the pages 0 .. TotalPages - 1. */
  function PageSlice<T>(rows: seq<T>, page: nat): (r: seq<T>)
    ensures |r| <= RowsPerPage
    ensures forall k :: 0 <= k < |r| ==> page * RowsPerPage + k < |rows| && r[k] == rows[page * RowsPerPage + k]
    ensures |r| > 0 <==> page < TotalPages(|rows|)
    ensures page + 1 < TotalPages(|rows|) ==> |r| == RowsPerPage
  {
    var start := page * RowsPerPage;
    Slice(rows, start, start + RowsPerPage)
  }

  /** Pages 0 .. count - 1 laid end to end. */
  function Pages<T>(rows: seq<T>, count: nat): (r: seq<T>)
  {
    if count == 0 then [] else Pages(rows, count - 1) + PageSlice(rows, count - 1)
  }

  /** The first `count` pages are the first `count * 10` rows. */
  lemma {:induction false} PagesArePrefix<T>(rows: seq<T>, count: nat)
    ensures Pages(rows, count) == rows[..Min(count * RowsPerPage, |rows|)]
  {
    if count > 0 {
      PagesArePrefix(rows, count - 1);
      var lo := Min((count - 1) * RowsPerPage, |rows|);
      var hi := Min(count * RowsPerPage, |rows|);
      var p := PageSlice(rows, count - 1);
      assert p == rows[lo..hi];
      assert rows[..lo] + rows[lo..hi] == rows[..hi];
    }
  }

  /** Laying all pages end to end gives back the whole list: no row is lost
      and none is shown twice. */
  lemma {:induction false} PagesCoverAll<T>(rows: seq<T>)
    ensures Pages(rows, TotalPages(|rows|)) == rows
  {
    PagesArePrefix(rows, TotalPages(|rows|));
  }

  /** The "Showing `from` to `to` of `n` results" numbers: `from` is the
      one-based number of the page's first row, `to` that of its last. */
  function ShowingFrom(page: nat): (r: int)
    ensures r >= 1
  {
    page * RowsPerPage + 1
  }

  function ShowingTo(page: nat, n: nat): (r: int)
    ensures r <= n && r <= (page + 1) * RowsPerPage
  {
    Min((page + 1) * RowsPerPage, n)
  }

  /** On a valid page the one-based range `from .. to` names exactly the
      rows of the page slice. */
  lemma ShowingMatchesSlice<T>(rows: seq<T>, page: nat)
    requires page < TotalPages(|rows|)
    ensures var r, from, to := PageSlice(rows, page), ShowingFrom(page), ShowingTo(page, |rows|);
      1 <= from <= to <= |rows| && to - from + 1 == |r| &&
      forall k :: 0 <= k < |r| ==> r[k] == rows[from - 1 + k]
  {
  }

  /** The page buttons: `Math.min(5, totalPages)` entries, entry `i` being
      `Math.min(Math.max(0, page - 2) + i, totalPages - 1)`. Every entry is a
      page that exists, the entries never go down, and the current page is
      among them. Entries can repeat the last page near the end. */
  function PageWindow(page: nat, totalPages: nat): (w: seq<int>)
    ensures |w| == Min(WindowSize, totalPages)
    ensures forall i :: 0 <= i < |w| ==> 0 <= w[i] < totalPages
    ensures forall i, j :: 0 <= i <= j < |w| ==> w[i] <= w[j]
    ensures page < totalPages ==> page in w
  {
    var buttons := seq(Min(WindowSize, totalPages), i => WindowEntry(page, totalPages, i));
    assert forall i :: 0 <= i < |buttons| ==> buttons[i] == WindowEntry(page, totalPages, i);
    if page < totalPages then
      assert buttons[page - Max(0, page - 2)] == page;
      buttons
    else buttons
  }

  /** Entry `i` of the button window for page `page` of `totalPages`. */
  function WindowEntry(page: nat, totalPages: nat, i: int): (r: int)
  {
    Min(Max(0, page - 2) + i, totalPages - 1)
  }

  /** Near the last page the window repeats it: on page 5 of 5 the buttons
      read 3, 4, 5, 5, 5. */
  lemma WindowRepeatsAtEnd()
    ensures PageWindow(4, 5) == [2, 3, 4, 4, 4]
  {
  }
}
