/** The checkbox table with "select the first K rows": one page of artworks is
    cached, and a bulk selection of K rows takes what it can from the cached page
    and fetches the pages after it for the rest (src/components/table_react_prime.tsx). */
module TableReactPrime {
  import opened Records
  import opened Sequences

  /** `rowsPerPage`: the page size the table shows and the selection counts with. */
  const RowsPerPage: nat := 12

  /** `if (inputRow)`: null and 0 are falsy; any other count starts a selection. */
  predicate IsRequested(inputRow: Option<nat>)
  {
    inputRow.Some? && inputRow.value != 0
  }

  /** `Math.ceil(a / d)` for a non-negative a and a positive d, in integers:
      the least n with d * n >= a. */
  function CeilDiv(a: nat, d: nat): (n: nat)
    requires d > 0
    ensures d * n >= a
    ensures n > 0 ==> d * (n - 1) < a
  {
    var n := (a + d - 1) / d;
    assert a + d - 1 == d * n + (a + d - 1) % d;
    n
  }

  // ---------------------------------------------------------------------------
  // fetchMultiplePages

  /** The 1-based page numbers `fetchMultiplePages(startPage, n)` requests, in the
      order its loop pushes them. */
  function RequestedPages(startPage: nat, n: nat): seq<nat>
  {
    if n == 0 then [] else RequestedPages(startPage, n - 1) + [startPage + n]
  }

  /** The requested pages are exactly startPage+1 .. startPage+n, ascending. */
  lemma {:induction false} RequestedPagesAt(startPage: nat, n: nat)
    ensures |RequestedPages(startPage, n)| == n
    ensures forall i :: 0 <= i < n ==> RequestedPages(startPage, n)[i] == startPage + i + 1
  {
    if n > 0 {
      RequestedPagesAt(startPage, n - 1);
    }
  }

  /** `Promise.all(requests)`: one response per request, position by position in
      request order, whatever order the requests complete in. */
  function Responses(src: Source, pages: seq<nat>): (rs: seq<PageResponse>)
    ensures |rs| == |pages|
    ensures forall i :: 0 <= i < |pages| ==> rs[i] == src(pages[i])
  {
    if pages == [] then [] else [src(pages[0])] + Responses(src, pages[1..])
  }

  lemma ResponsesAppend(src: Source, p: seq<nat>, q: seq<nat>)
    ensures Responses(src, p + q) == Responses(src, p) + Responses(src, q)
  {
  }

  /** `Promise.all` resolves only when no request fails; the multi-page fetch
      reads only each body's records, so a body without pagination is fine. */
  predicate AllResolved(rs: seq<PageResponse>)
  {
    forall i :: 0 <= i < |rs| ==> !rs[i].Failed?
  }

  /** `responses.flatMap(response => response.data.data)`. */
  function PagesData(rs: seq<PageResponse>): seq<Artwork>
    requires AllResolved(rs)
  {
    if rs == [] then [] else rs[0].data + PagesData(rs[1..])
  }

  /** flatMap distributes over concatenation of the responses. */
  lemma {:induction false} PagesDataAppend(a: seq<PageResponse>, b: seq<PageResponse>)
    requires AllResolved(a) && AllResolved(b)
    ensures AllResolved(a + b)
    ensures PagesData(a + b) == PagesData(a) + PagesData(b)
  {
    assert AllResolved(a + b) by {
      forall i | 0 <= i < |a + b| ensures !(a + b)[i].Failed? {
        if i < |a| { assert (a + b)[i] == a[i]; } else { assert (a + b)[i] == b[i - |a|]; }
      }
    }
    if a == [] {
      assert a + b == b;
    } else {
      assert AllResolved(a[1..]);
      assert (a + b)[1..] == a[1..] + b;
      PagesDataAppend(a[1..], b);
    }
  }

  /** What `fetchMultiplePages(startPage, n)` resolves to: the records of pages
      startPage+1 .. startPage+n concatenated in page order, or `[]` when any of
      those requests fails. */
  function FetchedRecords(src: Source, startPage: nat, n: nat): seq<Artwork>
  {
    var responses := Responses(src, RequestedPages(startPage, n));
    if AllResolved(responses) then PagesData(responses) else []
  }

  /** The request loop, `Promise.all` and the `catch` of `fetchMultiplePages`. */
  method FetchMultiplePages(src: Source, startPage: nat, pagesToFetch: nat)
    returns (records: seq<Artwork>, requests: seq<nat>)
    ensures requests == RequestedPages(startPage, pagesToFetch)
    ensures records == FetchedRecords(src, startPage, pagesToFetch)
  {
    requests := [];
    var i := 0;
    while i < pagesToFetch
      invariant 0 <= i <= pagesToFetch
      invariant requests == RequestedPages(startPage, i)
    {
      requests := requests + [startPage + i + 1];
      i := i + 1;
    }
    var responses := Responses(src, requests);
    if AllResolved(responses) {
      records := PagesData(responses);
    } else {
      records := [];
    }
  }

  /** A single failed request makes the whole multi-page fetch resolve to `[]`. */
  lemma FetchedRecordsOnFailure(src: Source, startPage: nat, n: nat)
    requires exists p :: startPage < p <= startPage + n && src(p).Failed?
    ensures FetchedRecords(src, startPage, n) == []
  {
    var p :| startPage < p <= startPage + n && src(p).Failed?;
    RequestedPagesAt(startPage, n);
    var responses := Responses(src, RequestedPages(startPage, n));
    assert responses[p - startPage - 1].Failed?;
  }

  /** With every request successful, the records come page after page in
      ascending page order: one more page appends exactly that page's records. */
  lemma FetchedRecordsInPageOrder(src: Source, startPage: nat, n: nat)
    requires forall p :: startPage < p <= startPage + n + 1 ==> !src(p).Failed?
    ensures FetchedRecords(src, startPage, n + 1)
         == FetchedRecords(src, startPage, n) + src(startPage + n + 1).data
  {
    var pages := RequestedPages(startPage, n);
    var last := startPage + n + 1;
    RequestedPagesAt(startPage, n);
    ResponsesAppend(src, pages, [last]);
    var a, b := Responses(src, pages), Responses(src, [last]);
    assert AllResolved(a) by {
      forall i | 0 <= i < |a| ensures !a[i].Failed? {
        assert a[i] == src(pages[i]);
      }
    }
    assert b == [src(last)];
    PagesDataAppend(a, b);
    assert PagesData(b) == src(last).data + PagesData([]);
  }

  /** With no page to fetch, nothing is requested and nothing is returned. */
  lemma FetchedRecordsNone(src: Source, startPage: nat)
    ensures RequestedPages(startPage, 0) == [] && FetchedRecords(src, startPage, 0) == []
  {
  }

  // ---------------------------------------------------------------------------
  // handleRowSelection

  /** `artworks.slice(0, Math.min(k, rowsPerPage))`: the rows of the cached page
      that go into the selection, without any network access. */
  function CurrentPageRows(k: nat, artworks: seq<Artwork>): (r: seq<Artwork>)
    ensures |r| == Min(Min(k, RowsPerPage), |artworks|)
    ensures r == artworks[..|r|]
  {
    Take(artworks, Min(k, RowsPerPage))
  }

  /** `inputRow - rowsToSelect.length`: how many rows the pages after the current
      one must supply; positive exactly when k exceeds what the cached page offers. */
  function RemainingRows(k: nat, artworks: seq<Artwork>): (r: nat)
    ensures |CurrentPageRows(k, artworks)| + r == k
    ensures r > 0 <==> k > Min(RowsPerPage, |artworks|)
  {
    k - |CurrentPageRows(k, artworks)|
  }

  /** `Math.ceil(remainingRows / rowsPerPage)`. It depends on k and the cached
      page only; the collection's total plays no part. */
  function PagesToFetch(k: nat, artworks: seq<Artwork>): nat
  {
    CeilDiv(RemainingRows(k, artworks), RowsPerPage)
  }

  /** The 1-based pages a selection of k rows requests while the table shows the
      0-based page `page`: `fetchMultiplePages(page + 1, pagesToFetch)` under
      `if (remainingRows > 0)`. */
  function RequestsIssued(k: nat, artworks: seq<Artwork>, page: nat): seq<nat>
  {
    if RemainingRows(k, artworks) > 0 then RequestedPages(page + 1, PagesToFetch(k, artworks)) else []
  }

  /** The additional records the selection fetches (meaningful when RemainingRows > 0). */
  function Additional(k: nat, artworks: seq<Artwork>, page: nat, src: Source): seq<Artwork>
  {
    FetchedRecords(src, page + 1, PagesToFetch(k, artworks))
  }

  /** The rows `handleRowSelection` commits for the count k. */
  function SelectFirstK(k: nat, artworks: seq<Artwork>, page: nat, src: Source): seq<Artwork>
  {
    var current := CurrentPageRows(k, artworks);
    var remaining := RemainingRows(k, artworks);
    if remaining > 0 then current + Take(Additional(k, artworks, page, src), remaining)
    else current
  }

  /** pagesToFetch is zero exactly when no row is missing, and otherwise the
      least number of pages of twelve that can hold the missing rows. */
  lemma PagesToFetchIsLeast(k: nat, artworks: seq<Artwork>)
    ensures PagesToFetch(k, artworks) == 0 <==> RemainingRows(k, artworks) == 0
    ensures RowsPerPage * PagesToFetch(k, artworks) >= RemainingRows(k, artworks)
    ensures forall m: nat :: m < PagesToFetch(k, artworks) ==> RowsPerPage * m < RemainingRows(k, artworks)
  {
  }

  /** The pages requested are the n pages right after the shown one, as 1-based
      indices page+2 .. page+1+n in ascending order, n = pagesToFetch. */
  lemma RequestsFollowCurrentPage(k: nat, artworks: seq<Artwork>, page: nat)
    requires RemainingRows(k, artworks) > 0
    ensures |RequestsIssued(k, artworks, page)| == PagesToFetch(k, artworks) > 0
    ensures RequestsIssued(k, artworks, page)[0] == page + 2
    ensures forall i :: 0 <= i < |RequestsIssued(k, artworks, page)| ==>
              RequestsIssued(k, artworks, page)[i] == page + 2 + i
  {
    PagesToFetchIsLeast(k, artworks);
    RequestedPagesAt(page + 1, PagesToFetch(k, artworks));
  }

  /** A count the cached page covers needs no request and selects exactly the
      first k rows of the page, in order. */
  lemma SelectionWithinCurrentPage(k: nat, artworks: seq<Artwork>, page: nat, src: Source)
    requires k <= Min(RowsPerPage, |artworks|)
    ensures RequestsIssued(k, artworks, page) == []
    ensures SelectFirstK(k, artworks, page, src) == artworks[..k]
  {
  }

  /** The committed selection is the first k rows of the shown page's first twelve
      rows followed by the fetched records: a prefix of that concatenation, at most
      k long, and shorter only when the fetched records fall short of the missing
      rows: the collection ran out or a request failed. */
  lemma SelectionIsFirstK(k: nat, artworks: seq<Artwork>, page: nat, src: Source)
    ensures SelectFirstK(k, artworks, page, src)
         == Take(Take(artworks, RowsPerPage) + Additional(k, artworks, page, src), k)
  {
    if RemainingRows(k, artworks) > 0 {
      // the whole twelve-row window is taken, and the rest comes from the fetched records
      TakeAcross(Take(artworks, RowsPerPage), Additional(k, artworks, page, src), k);
    }
  }

  /** The selection never exceeds k rows, and has exactly k when the fetched pages
      hold at least the missing rows. */
  lemma SelectionLength(k: nat, artworks: seq<Artwork>, page: nat, src: Source)
    ensures |SelectFirstK(k, artworks, page, src)| <= k
    ensures |Additional(k, artworks, page, src)| >= RemainingRows(k, artworks) ==>
              |SelectFirstK(k, artworks, page, src)| == k
  {
  }

  /** When the cached page holds at most one page of rows, the selection is a
      prefix of the cached rows followed by the fetched ones. */
  lemma SelectionIsPrefix(k: nat, artworks: seq<Artwork>, page: nat, src: Source)
    requires |artworks| <= RowsPerPage
    ensures var sel := SelectFirstK(k, artworks, page, src);
            sel == (artworks + Additional(k, artworks, page, src))[..|sel|]
  {
  }

  /** If any of the additional requests fails, the selection is just the
      current-page rows: the fetched part is empty, and no part of the previous
      selection survives. */
  lemma SelectionOnFailure(k: nat, artworks: seq<Artwork>, page: nat, src: Source)
    requires exists p :: page + 1 < p <= page + 1 + PagesToFetch(k, artworks) && src(p).Failed?
    ensures SelectFirstK(k, artworks, page, src) == CurrentPageRows(k, artworks)
    ensures |SelectFirstK(k, artworks, page, src)| < k
  {
    PagesToFetchIsLeast(k, artworks);
    FetchedRecordsOnFailure(src, page + 1, PagesToFetch(k, artworks));
  }

  /** Twelve cached rows on the first page, k = 20: only page 2 is requested, and
      the selection is the twelve rows followed by the first eight of page 2. */
  lemma TwentyRowsFromFirstPage(artworks: seq<Artwork>, src: Source)
    requires |artworks| == 12
    requires !src(2).Failed? && |src(2).data| >= 8
    ensures RequestsIssued(20, artworks, 0) == [2]
    ensures SelectFirstK(20, artworks, 0, src) == artworks + src(2).data[..8]
  {
  }

  /** Twelve cached rows on the first page, k = 50: pages 2 to 5 are requested,
      whatever the collection's total is; the count is not capped at the total. */
  lemma FiftyRowsFromFirstPage(artworks: seq<Artwork>)
    requires |artworks| == 12
    ensures RequestsIssued(50, artworks, 0) == [2, 3, 4, 5]
  {
    assert PagesToFetch(50, artworks) == 4;
    assert RequestedPages(1, 4) == [2, 3, 4, 5];
  }

  /** The cached page's length counts too: on the first page with k = 20, five
      cached rows request pages 2 and 3, and an empty table requests page 2 for
      a single row. */
  lemma ShortPageRequestsMore(artworks: seq<Artwork>)
    ensures |artworks| == 5 ==> RequestsIssued(20, artworks, 0) == [2, 3]
    ensures |artworks| == 0 ==> RequestsIssued(1, artworks, 0) == [2]
  {
    if |artworks| == 5 {
      assert PagesToFetch(20, artworks) == 2;
      assert RequestedPages(1, 2) == [2, 3];
    }
    if |artworks| == 0 {
      assert PagesToFetch(1, artworks) == 1;
      assert RequestedPages(1, 1) == [2];
    }
  }

  // ---------------------------------------------------------------------------
  // Component state

  /** The state of the `ArtworkTable` component and its handlers. */
  class ArtworkTable {
    var artworks: seq<Artwork>
    var selectedArtworks: seq<Artwork>
    var page: nat
    var totalRecords: nat
    var loading: bool
    var inputRow: Option<nat>
    var errorMessage: Option<string>

    /** The initial `useState` values. */
    constructor ()
      ensures artworks == [] && selectedArtworks == []
      ensures page == 0 && totalRecords == 0 && loading
      ensures inputRow == None && errorMessage == None
    {
      artworks, selectedArtworks := [], [];
      page, totalRecords, loading := 0, 0, true;
      inputRow, errorMessage := None, None;
    }

    /** `fetchArtworks(p)`: requests 1-based page p + 1. A full response replaces
        the cached page and the total wholesale; a body without pagination
        replaces the page and throws before the total is set; a failure keeps
        both. Either way the table is no longer loading afterwards. */
    method FetchArtworks(p: nat, src: Source) returns (requested: nat)
      modifies this`artworks, this`totalRecords, this`loading
      ensures requested == p + 1
      ensures !loading
      ensures artworks == if src(requested).Failed? then old(artworks) else src(requested).data
      ensures totalRecords == if src(requested).Loaded? then src(requested).total else old(totalRecords)
    {
      loading := true;
      requested := p + 1;
      var response := src(requested);
      if !response.Failed? {
        artworks := response.data;
        if response.Loaded? {
          totalRecords := response.total;
        }
      }
      loading := false;
    }

    /** The effect on `page`: on mount and after every page change the shown page
        is fetched. */
    method PageEffect(src: Source) returns (requested: nat)
      modifies this`artworks, this`totalRecords, this`loading
      ensures requested == page + 1
      ensures !loading
      ensures artworks == if src(requested).Failed? then old(artworks) else src(requested).data
      ensures totalRecords == if src(requested).Loaded? then src(requested).total else old(totalRecords)
    {
      requested := FetchArtworks(page, src);
    }

    /** `onPageChange(e)`: the paginator reports the index of the first row of the
        new page, always a multiple of the page size; the 0-based page is its quotient. */
    method OnPageChange(first: nat)
      requires first % RowsPerPage == 0
      modifies this`page
      ensures page == first / RowsPerPage
      ensures page * RowsPerPage == first
    {
      page := first / RowsPerPage;
    }

    /** `onValueChange` of the row-count input. */
    method OnInputValueChange(value: Option<nat>)
      modifies this`inputRow
      ensures inputRow == value
    {
      inputRow := value;
    }

    /** `handleRowSelection`: with a falsy count nothing is requested and the
        selection stays; otherwise the rows of SelectFirstK replace the selection,
        after requesting exactly RequestsIssued. */
    method HandleRowSelection(src: Source) returns (requested: seq<nat>)
      modifies this`selectedArtworks, this`errorMessage
      ensures !IsRequested(inputRow) ==>
                requested == [] && selectedArtworks == old(selectedArtworks)
                && errorMessage == old(errorMessage)
      ensures IsRequested(inputRow) ==>
                requested == RequestsIssued(inputRow.value, artworks, page)
                && selectedArtworks == SelectFirstK(inputRow.value, artworks, page, src)
                && errorMessage == None
    {
      requested := [];
      if IsRequested(inputRow) {
        var k := inputRow.value;
        errorMessage := None;
        var rowsToSelect: seq<Artwork> := [];
        var currentPageRows := Take(artworks, Min(k, RowsPerPage));
        rowsToSelect := rowsToSelect + currentPageRows;
        var remainingRows: nat := k - |rowsToSelect|;
        var pagesToFetch := CeilDiv(remainingRows, RowsPerPage);
        if remainingRows > 0 {
          var additionalArtworks;
          additionalArtworks, requested := FetchMultiplePages(src, page + 1, pagesToFetch);
          var additionalRows := Take(additionalArtworks, remainingRows);
          rowsToSelect := rowsToSelect + additionalRows;
        }
        selectedArtworks := rowsToSelect;
      }
    }
  }
}
