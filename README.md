# Row selection of the artwork tables

A model of the row-selection bookkeeping in the two table components of this
repository, a paginated table of artworks fetched from a remote artwork service.

- `TableReactPrime` (`src/components/table_react_prime.tsx`) caches one page of
  twelve artworks. It offers "select the first K rows", which takes up to twelve
  rows from the cached page. It then requests the pages after the shown one, all at
  once, concatenates their records in request order and commits the truncated
  result as the new selection. The component state (`artworks`,
  `selectedArtworks`, `page`, `totalRecords`, `loading`, the row-count input and
  the error message) is the class `ArtworkTable`. The selection arithmetic is a set
  of functions (`CurrentPageRows`, `RemainingRows`, `PagesToFetch`,
  `RequestsIssued`, `FetchedRecords`, `SelectFirstK`) with lemmas about them.
- `TableView` (`src/table_view.tsx`) is the table `src/App.tsx` does not mount;
  its list edits are modelled all the same. A clicked row is appended to the
  selection (`WithRow`), and an unselected row's id is filtered out of it
  (`WithoutId`). Its state is the class `ArtworksTable`.

The remote service is a parameter `src: Source`, a total function from a
1-based page index to a response. A response is `Loaded(data, total)`. It is
`Unpaginated(data)` when the body has records but no pagination block. It is
`Failed` when the request is rejected or the body throws before any state is set. `Promise.all` is modelled
by `Responses`, which lines up one response with each request, position by
position. So completion order cannot affect the result. Records are opaque apart
from their `id`.

The model follows the code as written; in particular:
- The number of extra pages comes from K and the cached page's length; nothing
  caps it at `totalRecords` (`FiftyRowsFromFirstPage`, `ShortPageRequestsMore`).
- A failed multi-page fetch resolves to `[]`. The selection is then overwritten
  with the current-page rows; it is not left as it was (`SelectionOnFailure`).
- There is no generation counter or staleness guard on the commit.
- The selection starts at the first row of the shown page, not at the first row
  of the collection.

## Model

| member | source | states |
|---|---|---|
| Sequences.Min | src/components/table_react_prime.tsx:95 | `Math.min`: the result is at most both arguments and equals one of them |
| Sequences.Take | src/components/table_react_prime.tsx:95 | `slice(0, n)`: the result is the prefix of length min(n, length) |
| TableReactPrime.IsRequested | src/components/table_react_prime.tsx:89 | `if (inputRow)`: true exactly for a non-null, non-zero count; `HandleRowSelection` states its no-op case with it |
| TableReactPrime.CeilDiv | src/components/table_react_prime.tsx:99 | `Math.ceil(a / d)` in integers: the least n with d·n ≥ a |
| TableReactPrime.RequestedPages | src/components/table_react_prime.tsx:59-62 | the pages the push loop requests; specified by `RequestedPagesAt`, computed by `FetchMultiplePages` |
| TableReactPrime.RequestedPagesAt | src/components/table_react_prime.tsx:58-62 | the request loop asks for exactly n pages, startPage+1 .. startPage+n, ascending |
| TableReactPrime.Responses | src/components/table_react_prime.tsx:64 | `Promise.all` yields one response per request, the i-th being the response to the i-th request |
| TableReactPrime.ResponsesAppend | src/components/table_react_prime.tsx:64 | the responses to two request lists, concatenated, are the responses to the concatenated list |
| TableReactPrime.AllResolved | src/components/table_react_prime.tsx:64 | `Promise.all` resolves iff no request fails; `FetchedRecordsOnFailure` states the failing side |
| TableReactPrime.PagesData | src/components/table_react_prime.tsx:65 | `flatMap` of the bodies' records; `PagesDataAppend` and `FetchedRecordsInPageOrder` state its order |
| TableReactPrime.FetchedRecords | src/components/table_react_prime.tsx:58-78 | what `fetchMultiplePages` resolves to; specified by `FetchedRecordsOnFailure`, `FetchedRecordsInPageOrder`, `FetchedRecordsNone` and the method `FetchMultiplePages` |
| TableReactPrime.PagesDataAppend | src/components/table_react_prime.tsx:65 | `flatMap` over the responses distributes over concatenation |
| TableReactPrime.FetchMultiplePages | src/components/table_react_prime.tsx:58-78 | the push loop issues the requests `RequestedPages(startPage, n)`; the result is all fetched records in page order, or `[]` on failure |
| TableReactPrime.FetchedRecordsOnFailure | src/components/table_react_prime.tsx:74-77 | one failed page request makes the whole multi-page fetch resolve to `[]` |
| TableReactPrime.FetchedRecordsInPageOrder | src/components/table_react_prime.tsx:64-65 | when all requests succeed, fetching one more page appends exactly that page's records at the end |
| TableReactPrime.FetchedRecordsNone | src/components/table_react_prime.tsx:59-62 | zero pages to fetch means no request and no records |
| TableReactPrime.CurrentPageRows | src/components/table_react_prime.tsx:95-96 | the current-page part is the first min(k, 12, page length) cached rows, in order |
| TableReactPrime.RemainingRows | src/components/table_react_prime.tsx:98 | remaining = k − current part; positive exactly when k exceeds min(12, page length) |
| TableReactPrime.PagesToFetch | src/components/table_react_prime.tsx:99 | `pagesToFetch`; specified by `PagesToFetchIsLeast` |
| TableReactPrime.PagesToFetchIsLeast | src/components/table_react_prime.tsx:99 | pagesToFetch is 0 iff nothing remains, else the least n with 12·n ≥ remaining |
| TableReactPrime.RequestsIssued | src/components/table_react_prime.tsx:102-103 | the pages a selection requests; specified by `RequestsFollowCurrentPage`, `SelectionWithinCurrentPage` and `FiftyRowsFromFirstPage` |
| TableReactPrime.Additional | src/components/table_react_prime.tsx:103 | `additionalArtworks`; specified through `FetchedRecords` and by `SelectionOnFailure` |
| TableReactPrime.SelectFirstK | src/components/table_react_prime.tsx:95-108 | the committed rows; specified by `SelectionIsFirstK`, `SelectionLength`, `SelectionIsPrefix`, `SelectionOnFailure` and `SelectionWithinCurrentPage` |
| TableReactPrime.RequestsFollowCurrentPage | src/components/table_react_prime.tsx:98-103 | when rows remain, exactly pagesToFetch pages are requested, 1-based page+2 .. page+1+pagesToFetch, ascending |
| TableReactPrime.SelectionWithinCurrentPage | src/components/table_react_prime.tsx:95-108 | k ≤ min(12, page length): no request, and the selection is the first k cached rows |
| TableReactPrime.SelectionIsFirstK | src/components/table_react_prime.tsx:95-108 | the selection is the first k rows of (first twelve cached rows ++ fetched records) |
| TableReactPrime.SelectionLength | src/components/table_react_prime.tsx:104-108 | the selection has at most k rows, and exactly k when the fetched pages hold the remaining rows |
| TableReactPrime.SelectionIsPrefix | src/components/table_react_prime.tsx:104-108 | with at most one page cached, the selection is a prefix of cached rows ++ fetched records |
| TableReactPrime.SelectionOnFailure | src/components/table_react_prime.tsx:103-108 | if any extra page fails, the selection is exactly the current-page part (shorter than k), whatever was selected before |
| TableReactPrime.TwentyRowsFromFirstPage | src/components/table_react_prime.tsx:95-108 | 12 cached rows, page 0, k = 20: only page 2 is requested; selection = the 12 rows ++ first 8 of page 2 |
| TableReactPrime.FiftyRowsFromFirstPage | src/components/table_react_prime.tsx:98-103 | 12 cached rows, page 0, k = 50: pages 2, 3, 4, 5 are requested, with no cap at the total |
| TableReactPrime.ShortPageRequestsMore | src/components/table_react_prime.tsx:95-103 | page 0, k = 20: five cached rows request pages 2 and 3; an empty table requests page 2 for k = 1 |
| TableReactPrime.ArtworkTable.constructor | src/components/table_react_prime.tsx:23-31 | initial state: empty lists, page 0, total 0, loading, no input, no error |
| TableReactPrime.ArtworkTable.FetchArtworks | src/components/table_react_prime.tsx:35-55 | requests page p+1; a full response replaces rows and total, a body without pagination replaces only the rows, a failure keeps both; not loading afterwards |
| TableReactPrime.ArtworkTable.PageEffect | src/components/table_react_prime.tsx:80-82 | the effect on `page` fetches 1-based page `page + 1` |
| TableReactPrime.ArtworkTable.OnPageChange | src/components/table_react_prime.tsx:84-86 | page = first / 12, exactly, since first is a multiple of 12 |
| TableReactPrime.ArtworkTable.OnInputValueChange | src/components/table_react_prime.tsx:122 | the row-count input stores the new value |
| TableReactPrime.ArtworkTable.HandleRowSelection | src/components/table_react_prime.tsx:88-111 | null/0 input: no request and the selection unchanged; otherwise the requests are `RequestsIssued`, the selection becomes `SelectFirstK` and the error is cleared |
| TableView.WithRow | src/table_view.tsx:43 | `[...selectedArtworks, artwork]`; specified by `RowSelectAppends`, `RowSelectKeepsDuplicates` and `SelectThenUnselect` |
| TableView.RowSelectAppends | src/table_view.tsx:41-44 | selecting appends: one longer, old list a prefix, the row last |
| TableView.RowSelectKeepsDuplicates | src/table_view.tsx:43 | no duplicate check: a row already selected is listed twice |
| TableView.WithoutId | src/table_view.tsx:48 | the filter keeps exactly the rows whose id differs |
| TableView.WithoutIdAppend | src/table_view.tsx:48 | the filter distributes over concatenation, so kept rows stay in their relative order |
| TableView.WithoutIdCounts | src/table_view.tsx:48 | each row with another id keeps its multiplicity; rows with the id are gone |
| TableView.WithoutAbsentId | src/table_view.tsx:48 | unselecting an id that no row carries leaves the list unchanged |
| TableView.SelectThenUnselect | src/table_view.tsx:41-49 | select then unselect of a row whose id is not selected restores the list |
| TableView.ArtworksTable.constructor | src/table_view.tsx:18-21 | initial state: empty lists, total 0, first 0 |
| TableView.ArtworksTable.FetchArtworks | src/table_view.tsx:28-33 | a full response replaces rows and total wholesale; a body without pagination sets the rows and throws before the total; a rejected `fetch`/`json()` changes nothing |
| TableView.ArtworksTable.OnMount | src/table_view.tsx:24-26 | the first fetch is page 1 |
| TableView.ArtworksTable.OnPageChange | src/table_view.tsx:35-39 | first = e.first and 1-based page e.page + 1 is fetched |
| TableView.ArtworksTable.OnRowSelect | src/table_view.tsx:41-44 | the selection becomes the old selection with the row appended |
| TableView.ArtworksTable.OnRowUnselect | src/table_view.tsx:46-49 | the selection becomes the filtered list; no row with the id remains |

## Left out

- Rendering, the table, paginator, overlay, spinner and input widgets, and the style sheets: these are presentation only.
- HTTP, URLs and JSON decoding. A response is `Loaded`, `Unpaginated` or `Failed`. The field-by-field copy of each record is the identity on `Artwork`.
- Concurrency of overlapping operations. A second selection or a page change while requests are in flight is not modelled. Each handler runs as one step on the state it sees, and the code has no guard a model could state.
- The library's own `onSelectionChange` replacement of the selection, `op.current?.hide()`, and `console.error` logging.
- The scheduling of the effects. `PageEffect` and `OnMount` are the effect bodies; whether React runs them is not modelled.
- Negative row counts: the input has `min={1}`, so the count is a natural number, and null or 0 is the no-op.
- TableReactPrime.ArtworkTable.OnPageChange: requires `first` to be a multiple of 12, which the lazy paginator guarantees. For other values JavaScript would store a fractional page; the model does not represent that.
- TableView.ArtworksTable.OnPageChange: the fetch runs after `first` is set, with no loading flag and no ordering against earlier fetches, because the source has neither.
- TableView.ArtworksTable.FetchArtworks: a resolved body without a `data` field (an error object) makes the source set the rows to `undefined` and then throw. The model's rows are always a list, so it does not represent that state.
- TableReactPrime.ArtworkTable.FetchArtworks: a body without a `data` array throws in `map` before any setter, so it is `Failed`. Only a body with records but no pagination produces the partial update, modelled as `Unpaginated`.
- TableReactPrime.ArtworkTable.HandleRowSelection: the model reads the current `artworks` and `page`. In the source, the Select button's handler comes from a memoised header, rebuilt only when the count (or the error message) changes. So it reads the rows and page captured in the render where the count was last edited. Example: select 20 on page index 0, move to page index 3, and press Select again without editing the count. The source reselects from the page-0 rows and requests page 2; the model selects from page index 3 and requests page 5. Memoisation is not modelled.
- `src/App.tsx` only mounts one of the two tables; it is not part of this model.
