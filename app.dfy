/**
 The state of the artwork table component: the page cache, the known total,
 the selected ids, the paginator offset, the bulk count and the re-render
 counter, with the event handlers that update them.

 The remote fetch is a parameter of the operations that may need it: a
 `FetchResult` is what the remote source answered for the requested page.
 */
module ArtworkApp {
  import opened Artworks
  import opened Paging
  import opened Selection

  /** The remote source's answer for one page: its rows and the collection's total, or a failure. */
  datatype FetchResult = Fetched(rows: seq<Artwork>, total: int) | FetchFailed

  /** The rows on view: the cached page the offset `first` stands for, or none when it is not cached. */
  function VisibleRows(cache: map<int, seq<Artwork>>, first: int): (rows: seq<Artwork>)
    ensures forall page :: page in cache && FirstOfPage(page) == first ==> rows == cache[page]
    ensures rows != [] ==> exists page :: page in cache && FirstOfPage(page) == first && rows == cache[page]
  {
    assert forall page :: FirstOfPage(page) == first ==> first % ROWS == 0 && CurrentPage(first) == page;
    if first % ROWS == 0 && CurrentPage(first) in cache then cache[CurrentPage(first)] else []
  }

  /** The view at the offset of a page shows that page's cached rows, or no rows when it is not cached. */
  lemma VisibleRowsOfPage(cache: map<int, seq<Artwork>>, page: int)
    ensures VisibleRows(cache, FirstOfPage(page)) == if page in cache then cache[page] else []
  {
    PageRoundTrip(page, FirstOfPage(page));
  }

  class AppState {
    var pagesCache: map<int, seq<Artwork>>
    var totalRecords: int
    var selectedIds: set<int>
    var first: int
    var selectCount: int
    var version: int

    constructor ()
      ensures pagesCache == map[] && totalRecords == 0 && selectedIds == {}
      ensures first == 0 && selectCount == 0 && version == 0
    {
      pagesCache := map[];
      totalRecords := 0;
      selectedIds := {};
      first := 0;
      selectCount := 0;
      version := 0;
    }

    /** The rows on view. */
    function Data(): (rows: seq<Artwork>)
      reads this
      ensures forall page :: page in pagesCache && FirstOfPage(page) == first ==> rows == pagesCache[page]
      ensures rows != [] ==> exists page :: page in pagesCache && FirstOfPage(page) == first && rows == pagesCache[page]
    {
      VisibleRows(pagesCache, first)
    }

    /** Whether the checkbox of `row` is ticked. */
    function IsRowSelected(row: Artwork): (checked: bool)
      reads this
      ensures row in Data() ==> (checked <==> row in Selection())
    {
      row.id in selectedIds
    }

    /** The rows handed to the table widget as its selection. */
    function Selection(): (rows: seq<Artwork>)
      reads this
      ensures forall a :: a in rows <==> a in Data() && a.id in selectedIds
      ensures forall a :: multiset(rows)[a] == if a.id in selectedIds then multiset(Data())[a] else 0
      ensures IsSubsequence(rows, Data())
    {
      SelectedRowsInPageOrder(Data(), selectedIds);
      SelectedRowsMultiplicity(Data(), selectedIds);
      SelectedRows(Data(), selectedIds)
    }

    /**
     Returns page `page` from the cache when it is there; otherwise stores the
     fetched rows under `page` and takes the fetched total. A failed fetch
     leaves everything as it was.
     */
    method FetchPage(page: int, response: FetchResult) returns (rows: Option<seq<Artwork>>)
      modifies this`pagesCache, this`totalRecords
      ensures page in old(pagesCache) ==>
        rows == Some(old(pagesCache)[page]) && pagesCache == old(pagesCache) && totalRecords == old(totalRecords)
      ensures page !in old(pagesCache) && response.Fetched? ==>
        rows == Some(response.rows) && pagesCache == old(pagesCache)[page := response.rows]
        && totalRecords == response.total
      ensures page !in old(pagesCache) && response.FetchFailed? ==>
        rows == None && pagesCache == old(pagesCache) && totalRecords == old(totalRecords)
      ensures rows.Some? ==> page in pagesCache && pagesCache[page] == rows.value
      ensures forall p :: p in old(pagesCache) ==> p in pagesCache && pagesCache[p] == old(pagesCache)[p]
      ensures forall p :: p in pagesCache && p != page ==> p in old(pagesCache)
    {
      if page in pagesCache {
        return Some(pagesCache[page]);
      }
      match response
      case FetchFailed =>
        rows := None;
      case Fetched(artworks, total) =>
        pagesCache := pagesCache[page := artworks];
        totalRecords := total;
        rows := Some(artworks);
    }

    /**
     Fetches page `page` and, when it arrives, sets every row of it to
     selected exactly when its global ordinal is at most `count`; ids on other
     pages keep their membership. A failed fetch changes no selection.
     */
    method LoadPage(page: int, count: int, response: FetchResult) returns (ok: bool)
      modifies this`pagesCache, this`totalRecords, this`selectedIds
      ensures ok <==> page in old(pagesCache) || response.Fetched?
      ensures ok ==> page in pagesCache
      ensures pagesCache == if page in old(pagesCache) || response.FetchFailed? then old(pagesCache)
                            else old(pagesCache)[page := response.rows]
      ensures totalRecords == if page !in old(pagesCache) && response.Fetched? then response.total
                              else old(totalRecords)
      ensures ok ==> selectedIds == Reconciled(old(selectedIds), pagesCache[page], PageStart(page), count)
      ensures ok ==> forall i :: 0 <= i < |pagesCache[page]| && IsLastWithId(pagesCache[page], i) ==>
                (pagesCache[page][i].id in selectedIds <==> GlobalOrdinal(page, i) <= count)
      ensures ok ==> forall x :: x !in IdsOf(pagesCache[page]) ==> (x in selectedIds <==> x in old(selectedIds))
      ensures !ok ==> selectedIds == old(selectedIds)
    {
      var artworks := FetchPage(page, response);
      if artworks.None? {
        return false;
      }
      var rows := artworks.value;
      var pageStartIndex := (page - 1) * ROWS + 1;
      selectedIds := ReconcileSelection(selectedIds, rows, pageStartIndex, count);
      forall i | 0 <= i < |rows| && IsLastWithId(rows, i)
        ensures rows[i].id in selectedIds <==> GlobalOrdinal(page, i) <= count
      {
        ReconciledOrdinalRule(old(selectedIds), rows, pageStartIndex, count, i);
      }
      forall x | x !in IdsOf(rows) ensures x in selectedIds <==> x in old(selectedIds) {
        ReconciledFrame(old(selectedIds), rows, pageStartIndex, count, x);
      }
      ok := true;
    }

    /**
     The paginator moved to the 0-based page `eventPage` whose first row is at
     offset `eventFirst`: the offset is taken and the page loaded under the
     current bulk count.
     */
    method OnPageChange(eventPage: int, eventFirst: int, response: FetchResult) returns (ok: bool)
      modifies this`pagesCache, this`totalRecords, this`selectedIds, this`first
      ensures first == eventFirst
      ensures ok <==> eventPage + 1 in old(pagesCache) || response.Fetched?
      ensures pagesCache == if eventPage + 1 in old(pagesCache) || response.FetchFailed? then old(pagesCache)
                            else old(pagesCache)[eventPage + 1 := response.rows]
      ensures totalRecords == if eventPage + 1 !in old(pagesCache) && response.Fetched? then response.total
                              else old(totalRecords)
      ensures ok ==> eventPage + 1 in pagesCache
      ensures ok ==> selectedIds == Reconciled(old(selectedIds), pagesCache[eventPage + 1], PageStart(eventPage + 1), selectCount)
      ensures !ok ==> selectedIds == old(selectedIds)
      ensures ok && eventFirst == FirstOfPage(eventPage + 1) ==> Data() == pagesCache[eventPage + 1]
    {
      var page := eventPage + 1;
      first := eventFirst;
      ok := LoadPage(page, selectCount, response);
      if ok && eventFirst == FirstOfPage(page) {
        PageRoundTrip(page, eventFirst);
      }
    }

    /**
     The bulk count `count` was submitted: it is clamped to the known total and
     stored, the view returns to page 1, page 1 is reconciled under the new
     count and, once that has succeeded, the re-render counter moves on by one.
     */
    method HandleSelectRowCount(count: int, response: FetchResult) returns (ok: bool)
      modifies this`pagesCache, this`totalRecords, this`selectedIds, this`first, this`selectCount, this`version
      ensures selectCount == ClampCount(count, old(totalRecords))
      ensures first == 0 && CurrentPage(first) == 1
      ensures ok <==> 1 in old(pagesCache) || response.Fetched?
      ensures pagesCache == if 1 in old(pagesCache) || response.FetchFailed? then old(pagesCache)
                            else old(pagesCache)[1 := response.rows]
      ensures totalRecords == if 1 !in old(pagesCache) && response.Fetched? then response.total
                              else old(totalRecords)
      ensures version == if ok then old(version) + 1 else old(version)
      ensures ok ==> 1 in pagesCache && Data() == pagesCache[1]
      ensures ok ==> selectedIds == Reconciled(old(selectedIds), pagesCache[1], 1, selectCount)
      ensures ok && DistinctIds(Data()) ==> Selection() == Data()[..LeadingWithin(|Data()|, 1, selectCount)]
      ensures !ok ==> selectedIds == old(selectedIds)
    {
      var c := ClampCount(count, totalRecords);
      selectCount := c;
      first := 0;
      assert CurrentPage(0) == 1;
      ok := LoadPage(1, c, response);
      if ok {
        version := version + 1;
        assert Data() == pagesCache[1];
        if DistinctIds(pagesCache[1]) {
          ReconciledShowsLeadingRows(old(selectedIds), pagesCache[1], 1, c);
        }
      }
    }

    /** The checkbox of `row` was set to `checked`; no other id changes membership. */
    method ToggleRowSelection(row: Artwork, checked: bool)
      modifies this`selectedIds
      ensures IsRowSelected(row) <==> checked
      ensures forall x :: x != row.id ==> (x in selectedIds <==> x in old(selectedIds))
    {
      selectedIds := ToggleSelection(selectedIds, row.id, checked);
    }

    /**
     The table widget reported `value` as the selected rows of the visible
     page: every reported id becomes selected, every visible row not reported
     becomes unselected, and every other id keeps its membership.
     */
    method OnSelectionChange(value: seq<Artwork>)
      modifies this`selectedIds
      ensures selectedIds == SelectionChanged(old(selectedIds), value, Data())
      ensures forall x :: x in IdsOf(value) ==> x in selectedIds
      ensures forall x :: x in IdsOf(Data()) && x !in IdsOf(value) ==> x !in selectedIds
      ensures forall x :: x !in IdsOf(Data()) && x !in IdsOf(value) ==> (x in selectedIds <==> x in old(selectedIds))
      ensures Selection() == SelectedRows(Data(), IdsOf(value))
    {
      selectedIds := ApplySelectionChange(selectedIds, value, Data());
      ChangeShowsReportedRows(old(selectedIds), value, Data());
    }
  }
}
