# Artwork table selection: a Dafny model

This project models the selection logic of the artwork table component in
`src/App.tsx`. The table shows a remote collection of artworks 12 rows at a
time. Pages are fetched lazily and cached by page index. The user can tick
single rows, use the widget's multi-select control on the visible page, or ask
for "the first N rows overall". The N-row rule is defined over a row's global
ordinal `(page - 1) * 12 + index + 1`. It is applied to a page whenever that
page is loaded.

The files are:

- `artworks.dfy` (module `Artworks`): the `Artwork` record (only `id` takes part
  in selection), the ids of a page, and facts about rows that share an id.
- `paging.dfy` (module `Paging`): the page size, the paginator offset `first`
  and the page index derived from it, global ordinals, and the clamp of the
  bulk count.
- `selection.dfy` (module `Selection`): the three state updaters of the selected-id
  set, each as a method that walks the rows as the source does. They are
  reconciling a page, toggling a row and applying a widget selection change.
  Each is proved against a specification function (`Reconciled`,
  `SelectionChanged`) or an explicit contract. The module also holds the filter
  that gives the widget its selection (`SelectedRows`) and the lemmas about all
  of these.
- `app.dfy` (module `ArtworkApp`): class `AppState`. Its fields are the
  component's state (`pagesCache`, `totalRecords`, `selectedIds`, `first`,
  `selectCount`, `version`). Its methods are the handlers that update that
  state (`FetchPage`, `LoadPage`, `OnPageChange`, `HandleSelectRowCount`,
  `ToggleRowSelection`, `OnSelectionChange`). Its functions are the derived view
  (`Data`, `IsRowSelected`, `Selection`).

The remote fetch is a parameter. `FetchResult` is either the fetched rows with
the collection total, or a failure. A failure stands for the request throwing.
In that case `loadPage` rejects before the selection is touched. If the failure
happens inside `handleSelectRowCount`, that handler has already stored the count
and reset `first`, but it never increments `version`.

Two consequences of the code:

- The code keeps no set of manual overrides. Reconciling a page rewrites every
  row on it with the ordinal rule. So a row ticked or unticked by hand loses that
  choice when its page is loaded again. `Selection.ManualChoiceLostOnReload`
  states this.
- The widget's multi-select change adds and removes ids directly. It keeps no
  override bookkeeping.

When the same id appears on two rows of one page, the page's `forEach` lets the
last of those rows decide. The contracts say this through `IsLastWithId`.

## Model

| member | source | states |
|---|---|---|
| `Paging.CurrentPage` | src/App.tsx:103 | the page index of a multiple-of-12 offset is the page whose first offset is that offset, and is at least 1 exactly when the offset is non-negative |
| `Paging.PageRoundTrip` | src/App.tsx:86-88 | page to offset to page gives the same page, and offset to page to offset gives the same offset for every multiple of 12 |
| `Paging.ClampCount` | src/App.tsx:93-94 | the stored count is at most the total and, for a non-negative total, at least 0, while a negative total is returned as it is; a count already in range is kept; a negative count becomes 0, one above the total becomes the total |
| `Selection.Reconciled` | src/App.tsx:63-71 | a page whose first ordinal is past the count ends with all its ids unselected, and a page whose last ordinal is within the count ends with all its ids selected, with every other id as before |
| `Selection.ReconciledFrame` | src/App.tsx:63-71 | reconciling a page leaves the membership of every id not on the page unchanged |
| `Selection.ReconciledOrdinalRule` | src/App.tsx:61-68 | after reconciling, the id of a row (the last row carrying it) is selected exactly when the row's global ordinal is at most the count |
| `Selection.ReconciledOffPageOnly` | src/App.tsx:63-71 | the result of reconciling depends on the previous selection only off the page |
| `Selection.ReconciledIdempotent` | src/App.tsx:63-71 | reconciling the same page with the same count twice gives the same set as once |
| `Selection.ManualChoiceLostOnReload` | src/App.tsx:108-115 | a toggle of a row on a page followed by reconciling that page gives the same set as reconciling without the toggle |
| `Selection.ReconcileSelection` | src/App.tsx:63-71 | the copy-and-walk updater of `loadPage` computes exactly the reconciled set |
| `Selection.ToggleSelection` | src/App.tsx:109-114 | after the updater the id is selected exactly when `checked`, and no other id changes membership |
| `Selection.SelectionChanged` | src/App.tsx:133-143 | every reported id is selected, every visible id not reported is unselected, every id neither visible nor reported keeps its membership |
| `Selection.ApplySelectionChange` | src/App.tsx:134-142 | the two loops of the selection-change handler compute exactly the changed selection |
| `Selection.SelectedRows` | src/App.tsx:132 | a row is in the widget's selection exactly when it is on the page and its id is selected, and the selection is no longer than the page |
| `Selection.SelectedRowsMultiplicity` | src/App.tsx:132 | each row whose id is selected appears in the widget's selection as often as on the page, every other row not at all |
| `Selection.SelectedRowsInPageOrder` | src/App.tsx:132 | the widget's selection is a subsequence of the page: page order is kept |
| `Selection.SelectedRowsAgree` | src/App.tsx:132 | the widget's selection depends only on the membership of the page's own ids |
| `Selection.SelectedRowsPrefix` | src/App.tsx:132 | when exactly the first k rows have selected ids, the widget's selection is those k rows |
| `Selection.ReconciledShowsLeadingRows` | src/App.tsx:61-71 | after reconciling a page with distinct ids, the widget's selection is the leading rows whose ordinals are within the count |
| `Selection.ChangeShowsReportedRows` | src/App.tsx:132-143 | after a widget selection change, the widget's selection is exactly the visible rows whose ids were reported |
| `ArtworkApp.VisibleRows` | src/App.tsx:103-104 | the rows on view are the cached page whose offset is `first` whenever that page is cached, and any non-empty view is such a cached page |
| `ArtworkApp.AppState.Data` | src/App.tsx:104 | the component's rows on view are the cached page at offset `first` when it is cached, and a non-empty view is always such a page |
| `ArtworkApp.AppState.IsRowSelected` | src/App.tsx:106 | for a row on view, its checkbox is ticked exactly when the row is in the selection handed to the table |
| `ArtworkApp.AppState.Selection` | src/App.tsx:132 | the table's selection holds the rows on view whose ids are selected, each as often as on the page and none other, in page order |
| `ArtworkApp.VisibleRowsOfPage` | src/App.tsx:103-104 | the view at a page's offset shows that page's cached rows, or nothing when the page is not cached |
| `ArtworkApp.AppState.constructor` | src/App.tsx:20-26 | the component starts with an empty cache and selection, and zero total, offset, count and counter |
| `ArtworkApp.AppState.FetchPage` | src/App.tsx:31-56 | a cache hit returns the stored rows and changes nothing; a miss stores the fetched rows under the page and takes the fetched total; a failure changes nothing; no other cache entry is removed or altered |
| `ArtworkApp.AppState.LoadPage` | src/App.tsx:58-74 | after a successful load every last-with-its-id row of the page is selected exactly when its global ordinal is at most the count, ids off the page keep their membership; a failed load leaves the selection as it was |
| `ArtworkApp.AppState.OnPageChange` | src/App.tsx:86-90 | the offset is taken from the event; the page is fetched into the cache only on a miss that succeeds, and the total is then taken; no other cache entry changes; the page is reconciled under the current bulk count, a failed load changes no selection, and when the offset matches the page the view shows that page |
| `ArtworkApp.AppState.HandleSelectRowCount` | src/App.tsx:92-101 | the count is clamped to the total and stored; the view returns to page 1; page 1 is fetched into the cache only on a miss that succeeds, and the total is then taken; every other cached page survives; page 1 is reconciled with the new count and shows its leading rows selected; the counter moves on by exactly 1 only when the load succeeded |
| `ArtworkApp.AppState.ToggleRowSelection` | src/App.tsx:108-115 | the row is selected exactly when `checked`; no other id changes membership |
| `ArtworkApp.AppState.OnSelectionChange` | src/App.tsx:133-144 | reported ids become selected, visible unreported ids unselected, all other ids unchanged, and the widget's selection becomes the reported visible rows |

## Left out

- The HTTP request and the mapping of its response to artworks (src/App.tsx:36-48) are I/O. The fetched rows and total, or a failure, are an input of `FetchPage`.
- The `loading` flag (src/App.tsx:22, 35, 52) is a UI indicator with no effect on selection. After a failed fetch the source never clears it. That is not modelled.
- React effect scheduling is framework re-render behaviour and is not modelled: the `triggeredByInput` ref and both effects (src/App.tsx:29, 76-84). The effect at src/App.tsx:76-80 calls `loadPage(1)` whenever `loadPage` gets a new identity, unless `triggeredByInput` is set. That happens at the first render. It also happens after every cache insert, because `fetchPage` depends on `pagesCache`. Each time, page 1 is reconciled again. So a manual choice on a page-1 row is lost whenever any new page is fetched, not only when page 1 itself is loaded. The model reconciles only the page that an operation loads. Each such extra reload is one more `LoadPage(1, …)`, and `Selection.ManualChoiceLostOnReload` states its effect on a manual choice.
- `ArtworkApp.AppState.HandleSelectRowCount`: in the source, `loadPage(1)` at src/App.tsx:99 reconciles page 1 with the previous count. The `loadPage` closure it calls captured `selectCount` before `setSelectCount` at src/App.tsx:97. The effect at src/App.tsx:76-80 does not correct this when the count changes. `triggeredByInput` was set at src/App.tsx:96, and that effect runs before the one at src/App.tsx:82-84 that clears the flag, so it skips `loadPage(1)`. Page 1 gets the new count only later, when the effect fires again after a cache insert that follows a change of `first`. The model reconciles page 1 with the new, clamped count, passed explicitly.
- Concurrent fetches are not modelled. The source does not coalesce requests, and two overlapping fetches of one page can both store a result. Every operation runs to completion.
- The JSX rendering and column layout (src/App.tsx:117-167) are UI.
- `src/ImageOverlay.tsx` is not part of this model. It parses the typed text with the foreign `parseInt` and submits only positive counts. The model accepts any integer count, because the clamp handles the rest.
- `Paging.CurrentPage` requires `first` to be a multiple of 12. JavaScript divides in floating point, and for any other offset the source's page index is fractional. `ArtworkApp.VisibleRows` shows no rows for such an offset, because a fractional key is never in the cache.
- JavaScript numbers are doubles. Ids, counts and ordinals are unbounded integers here.
