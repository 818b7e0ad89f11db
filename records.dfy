/** The values both table components work on: artwork records and what the
    remote artwork service answers for one page request. */
module Records {

  datatype Option<T> = None | Some(value: T)

  /** An artwork as the tables display it. Selection only ever looks at `id`;
      the other attributes are carried along unchanged. */
  datatype Artwork = Artwork(
    id: int,
    title: string,
    placeOfOrigin: string,
    artistDisplay: string,
    inscriptions: string,
    dateStart: int,
    dateEnd: int)

  /** The answer to one request for a 1-based page. */
  datatype PageResponse =
      /** A body with the page's records and the collection's total record count. */
    | Loaded(data: seq<Artwork>, total: nat)
      /** A body whose records can be read but that has no pagination block: a
          handler sets its rows and then throws before it sets the total. */
    | Unpaginated(data: seq<Artwork>)
      /** The request is rejected, or the body throws before any state is set. */
    | Failed

  /** The remote collection: the response it gives for each 1-based page index. */
  type Source = nat -> PageResponse
}
