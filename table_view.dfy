/** The plain paginated table with row-by-row selection (src/table_view.tsx).
    Its selection list is edited by appending a clicked row and by filtering out
    an unselected row's id. */
module TableView {
  import opened Records

  /** `[...selectedArtworks, artwork]`. */
  function WithRow(selected: seq<Artwork>, artwork: Artwork): seq<Artwork>
  {
    selected + [artwork]
  }

  /** `selectedArtworks.filter(item => item.id !== id)`. */
  function WithoutId(selected: seq<Artwork>, id: int): (r: seq<Artwork>)
    ensures forall x :: x in r <==> x in selected && x.id != id
    ensures |r| <= |selected|
  {
    if selected == [] then []
    else if selected[0].id == id then WithoutId(selected[1..], id)
    else [selected[0]] + WithoutId(selected[1..], id)
  }

  /** A click appends the row at the end: one longer, the old list a prefix. */
  lemma RowSelectAppends(selected: seq<Artwork>, artwork: Artwork)
    ensures |WithRow(selected, artwork)| == |selected| + 1
    ensures WithRow(selected, artwork)[..|selected|] == selected
    ensures WithRow(selected, artwork)[|selected|] == artwork
  {
  }

  /** There is no duplicate check: clicking a row already selected lists it twice. */
  lemma RowSelectKeepsDuplicates(selected: seq<Artwork>, artwork: Artwork)
    requires artwork in selected
    ensures multiset(WithRow(selected, artwork))[artwork] >= 2
  {
  }

  /** The filter works element by element, so it distributes over concatenation
      and keeps the kept rows in their original relative order. */
  lemma {:induction false} WithoutIdAppend(s: seq<Artwork>, t: seq<Artwork>, id: int)
    ensures WithoutId(s + t, id) == WithoutId(s, id) + WithoutId(t, id)
  {
    if s == [] {
      assert s + t == t;
    } else {
      assert (s + t)[0] == s[0];
      assert (s + t)[1..] == s[1..] + t;
      WithoutIdAppend(s[1..], t, id);
    }
  }

  /** Every row with a different id keeps its number of occurrences; every row
      with the id is gone. */
  lemma {:induction false} WithoutIdCounts(s: seq<Artwork>, id: int)
    ensures forall x :: multiset(WithoutId(s, id))[x] == if x.id == id then 0 else multiset(s)[x]
  {
    if s != [] {
      WithoutIdCounts(s[1..], id);
      assert s == [s[0]] + s[1..];
      assert multiset(s) == multiset{s[0]} + multiset(s[1..]);
    }
  }

  /** Unselecting an id that no selected row carries leaves the list unchanged. */
  lemma {:induction false} WithoutAbsentId(s: seq<Artwork>, id: int)
    requires forall x :: x in s ==> x.id != id
    ensures WithoutId(s, id) == s
  {
    if s != [] {
      assert s[0] in s;
      assert forall x :: x in s[1..] ==> x in s;
      WithoutAbsentId(s[1..], id);
      assert s == [s[0]] + s[1..];
    }
  }

  /** Selecting a row whose id is not selected yet and then unselecting it
      restores the list. */
  lemma SelectThenUnselect(selected: seq<Artwork>, artwork: Artwork)
    requires forall x :: x in selected ==> x.id != artwork.id
    ensures WithoutId(WithRow(selected, artwork), artwork.id) == selected
  {
    WithoutIdAppend(selected, [artwork], artwork.id);
    WithoutAbsentId(selected, artwork.id);
    assert WithoutId([artwork], artwork.id) == [];
  }

  /** The state of the `ArtworksTable` component and its handlers. */
  class ArtworksTable {
    var artworks: seq<Artwork>
    var selectedArtworks: seq<Artwork>
    var totalRecords: nat
    var first: nat

    /** The initial `useState` values. */
    constructor ()
      ensures artworks == [] && selectedArtworks == [] && totalRecords == 0 && first == 0
    {
      artworks, selectedArtworks, totalRecords, first := [], [], 0, 0;
    }

    /** `fetchArtworks(p)`: requests 1-based page p. A full response replaces the
        shown rows and the total wholesale. There is no error handling: a body
        without pagination sets the rows and throws before the total, and a
        rejected `fetch` or `json()` throws before any state is set. */
    method FetchArtworks(p: nat, src: Source)
      modifies this`artworks, this`totalRecords
      ensures artworks == if src(p).Failed? then old(artworks) else src(p).data
      ensures totalRecords == if src(p).Loaded? then src(p).total else old(totalRecords)
    {
      var response := src(p);
      if !response.Failed? {
        artworks := response.data;
        if response.Loaded? {
          totalRecords := response.total;
        }
      }
    }

    /** The mount effect: the first page fetched is page 1. */
    method OnMount(src: Source) returns (requested: nat)
      modifies this`artworks, this`totalRecords
      ensures requested == 1
      ensures artworks == if src(1).Failed? then old(artworks) else src(1).data
      ensures totalRecords == if src(1).Loaded? then src(1).total else old(totalRecords)
    {
      requested := 1;
      FetchArtworks(requested, src);
    }

    /** `onPageChange(e)`: stores the paginator's first-row index and fetches the
        1-based page after the paginator's 0-based `e.page`. */
    method OnPageChange(eventFirst: nat, eventPage: nat, src: Source) returns (requested: nat)
      modifies this`first, this`artworks, this`totalRecords
      ensures first == eventFirst
      ensures requested == eventPage + 1
      ensures artworks == if src(requested).Failed? then old(artworks) else src(requested).data
      ensures totalRecords == if src(requested).Loaded? then src(requested).total else old(totalRecords)
    {
      first := eventFirst;
      requested := eventPage + 1;
      FetchArtworks(requested, src);
    }

    /** `onRowSelect`: the clicked row is appended to the selection. */
    method OnRowSelect(artwork: Artwork)
      modifies this`selectedArtworks
      ensures selectedArtworks == WithRow(old(selectedArtworks), artwork)
    {
      selectedArtworks := WithRow(selectedArtworks, artwork);
    }

    /** `onRowUnselect`: every selected row with the unselected row's id is removed. */
    method OnRowUnselect(artwork: Artwork)
      modifies this`selectedArtworks
      ensures selectedArtworks == WithoutId(old(selectedArtworks), artwork.id)
      ensures forall x :: x in selectedArtworks ==> x.id != artwork.id
    {
      selectedArtworks := WithoutId(selectedArtworks, artwork.id);
    }
  }
}
