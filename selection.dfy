/**
 The selection rules of the artwork table, on the set of selected ids.

 Each of the three ways the table changes its selection builds a new set from
 the previous one: reconciling a page against the bulk count, toggling one
 row, and applying the multi-select state the table widget reports for the
 visible page. Each is written here as a specification function or contract
 and as a method that does what the source's state updater does, row by row.
 The rows handed to the table widget as "selected" are the visible rows whose
 ids are in the set.
 */
module Selection {
  import opened Artworks

  /** `sel` with `id` added when `on` holds and removed otherwise. */
  function Marked(sel: set<int>, id: int, on: bool): set<int>
  {
    if on then sel + {id} else sel - {id}
  }

  /**
   The selected-id set after each row of `rows`, in order, is set to selected
   exactly when its global ordinal (`pageStart` for the first row) is at most
   `count`. When an id appears on several rows, its last row decides.
   */
  function Reconciled(prev: set<int>, rows: seq<Artwork>, pageStart: int, count: int): (sel: set<int>)
    ensures count < pageStart ==> sel == prev - IdsOf(rows)
    ensures pageStart + |rows| - 1 <= count ==> sel == prev + IdsOf(rows)
    decreases |rows|
  {
    if rows == [] then prev
    else
      var last := |rows| - 1;
      IdsOfSnoc(rows, last);
      assert rows[..last + 1] == rows;
      Marked(Reconciled(prev, rows[..last], pageStart, count), rows[last].id, pageStart + last <= count)
  }

  /** Reconciling a page leaves the membership of every id not on the page as it was. */
  lemma {:induction false} ReconciledFrame(prev: set<int>, rows: seq<Artwork>, pageStart: int, count: int, x: int)
    requires x !in IdsOf(rows)
    ensures x in Reconciled(prev, rows, pageStart, count) <==> x in prev
    decreases |rows|
  {
    if rows != [] {
      var last := |rows| - 1;
      IdsOfSnoc(rows, last);
      assert rows[..last + 1] == rows;
      assert x != rows[last].id;
      ReconciledFrame(prev, rows[..last], pageStart, count, x);
    }
  }

  /**
   After reconciling, the id of row `i` is selected exactly when the row's
   global ordinal is at most the count, unless a later row of the same page
   carries the same id and decides instead.
   */
  lemma {:induction false} ReconciledOrdinalRule(prev: set<int>, rows: seq<Artwork>, pageStart: int, count: int, i: int)
    requires 0 <= i < |rows| && IsLastWithId(rows, i)
    ensures rows[i].id in Reconciled(prev, rows, pageStart, count) <==> pageStart + i <= count
    decreases |rows|
  {
    var last := |rows| - 1;
    if i < last {
      var front := rows[..last];
      assert front[i] == rows[i];
      assert IsLastWithId(front, i);
      ReconciledOrdinalRule(prev, front, pageStart, count, i);
    }
  }

  /**
   Reconciliation forgets everything the previous set said about ids on the
   page: two sets that agree off the page reconcile to the same set.
   */
  lemma ReconciledOffPageOnly(s1: set<int>, s2: set<int>, rows: seq<Artwork>, pageStart: int, count: int)
    requires forall x :: x !in IdsOf(rows) ==> (x in s1 <==> x in s2)
    ensures Reconciled(s1, rows, pageStart, count) == Reconciled(s2, rows, pageStart, count)
  {
    var r1, r2 := Reconciled(s1, rows, pageStart, count), Reconciled(s2, rows, pageStart, count);
    forall x ensures x in r1 <==> x in r2 {
      if x in IdsOf(rows) {
        LastWithIdExists(rows, x);
        var i :| 0 <= i < |rows| && rows[i].id == x && IsLastWithId(rows, i);
        ReconciledOrdinalRule(s1, rows, pageStart, count, i);
        ReconciledOrdinalRule(s2, rows, pageStart, count, i);
      } else {
        ReconciledFrame(s1, rows, pageStart, count, x);
        ReconciledFrame(s2, rows, pageStart, count, x);
      }
    }
  }

  /** Reconciling the same page with the same count a second time changes nothing. */
  lemma ReconciledIdempotent(prev: set<int>, rows: seq<Artwork>, pageStart: int, count: int)
    ensures Reconciled(Reconciled(prev, rows, pageStart, count), rows, pageStart, count)
         == Reconciled(prev, rows, pageStart, count)
  {
    var once := Reconciled(prev, rows, pageStart, count);
    forall x | x !in IdsOf(rows) ensures x in once <==> x in prev {
      ReconciledFrame(prev, rows, pageStart, count, x);
    }
    ReconciledOffPageOnly(once, prev, rows, pageStart, count);
  }

  /**
   A manual choice on a row of a page does not survive reconciling that page:
   the result is the same as if the row had never been touched.
   */
  lemma ManualChoiceLostOnReload(prev: set<int>, toggled: set<int>, id: int, rows: seq<Artwork>, pageStart: int, count: int)
    requires id in IdsOf(rows)
    requires forall x :: x != id ==> (x in toggled <==> x in prev)
    ensures Reconciled(toggled, rows, pageStart, count) == Reconciled(prev, rows, pageStart, count)
  {
    ReconciledOffPageOnly(toggled, prev, rows, pageStart, count);
  }

  /**
   The state updater of page reconciliation: copies `prev`, then walks the rows
   in page order, adding the id of each row whose global ordinal is at most
   `count` and deleting the others.
   */
  method ReconcileSelection(prev: set<int>, artworks: seq<Artwork>, pageStart: int, count: int)
    returns (next: set<int>)
    ensures next == Reconciled(prev, artworks, pageStart, count)
  {
    next := prev;
    var index := 0;
    while index < |artworks|
      invariant 0 <= index <= |artworks|
      invariant next == Reconciled(prev, artworks[..index], pageStart, count)
    {
      var globalIndex := pageStart + index;
      if globalIndex <= count {
        next := next + {artworks[index].id};
      } else {
        next := next - {artworks[index].id};
      }
      assert artworks[..index + 1][..index] == artworks[..index];
      index := index + 1;
    }
    assert artworks[..index] == artworks;
  }

  /** The state updater of a single checkbox: sets the membership of `id` to `checked`. */
  method ToggleSelection(prev: set<int>, id: int, checked: bool) returns (next: set<int>)
    ensures id in next <==> checked
    ensures forall x :: x != id ==> (x in next <==> x in prev)
  {
    next := prev;
    if checked {
      next := next + {id};
    } else {
      next := next - {id};
    }
  }

  /**
   The selection after the table widget reports `reported` as the selected
   rows of the visible page `visible`.
   */
  function SelectionChanged(prev: set<int>, reported: seq<Artwork>, visible: seq<Artwork>): (sel: set<int>)
    ensures forall x :: x in IdsOf(reported) ==> x in sel
    ensures forall x :: x in IdsOf(visible) && x !in IdsOf(reported) ==> x !in sel
    ensures forall x :: x !in IdsOf(visible) && x !in IdsOf(reported) ==> (x in sel <==> x in prev)
  {
    (prev + IdsOf(reported)) - (IdsOf(visible) - IdsOf(reported))
  }

  /**
   The selection-change handler: copies the selection, adds the id of every
   reported row, then deletes the id of every visible row that no reported row
   carries.
   */
  method ApplySelectionChange(prev: set<int>, reported: seq<Artwork>, visible: seq<Artwork>)
    returns (next: set<int>)
    ensures next == SelectionChanged(prev, reported, visible)
  {
    next := prev;
    var i := 0;
    while i < |reported|
      invariant 0 <= i <= |reported|
      invariant next == prev + IdsOf(reported[..i])
    {
      next := next + {reported[i].id};
      IdsOfSnoc(reported, i);
      i := i + 1;
    }
    assert reported[..i] == reported;
    var j := 0;
    while j < |visible|
      invariant 0 <= j <= |visible|
      invariant next == (prev + IdsOf(reported)) - (IdsOf(visible[..j]) - IdsOf(reported))
    {
      var item := visible[j];
      if item.id !in IdsOf(reported) {
        next := next - {item.id};
      }
      IdsOfSnoc(visible, j);
      j := j + 1;
    }
    assert visible[..j] == visible;
  }

  /**
   The rows handed to the table widget as selected: the rows of `data` whose
   ids are in `sel`, in page order.
   */
  function SelectedRows(data: seq<Artwork>, sel: set<int>): (rows: seq<Artwork>)
    ensures |rows| <= |data|
    ensures forall a :: a in rows <==> a in data && a.id in sel
  {
    if data == [] then []
    else (if data[0].id in sel then [data[0]] else []) + SelectedRows(data[1..], sel)
  }

  /** Each selected row appears in the widget's selection as often as on the page, every other row never. */
  lemma {:induction false} SelectedRowsMultiplicity(data: seq<Artwork>, sel: set<int>)
    ensures forall a :: multiset(SelectedRows(data, sel))[a] == if a.id in sel then multiset(data)[a] else 0
  {
    if data != [] {
      assert data == [data[0]] + data[1..];
      SelectedRowsMultiplicity(data[1..], sel);
    }
  }

  /** `a` is `b` with some elements left out, the rest in their original order. */
  ghost predicate IsSubsequence(a: seq<Artwork>, b: seq<Artwork>)
    decreases |b|
  {
    if a == [] then true
    else if b == [] then false
    else if a[0] == b[0] then IsSubsequence(a[1..], b[1..])
    else IsSubsequence(a, b[1..])
  }

  /** The selected rows keep the page order. */
  lemma {:induction false} SelectedRowsInPageOrder(data: seq<Artwork>, sel: set<int>)
    ensures IsSubsequence(SelectedRows(data, sel), data)
  {
    if data != [] {
      SelectedRowsInPageOrder(data[1..], sel);
      var rest := SelectedRows(data[1..], sel);
      if data[0].id in sel {
        assert SelectedRows(data, sel) == [data[0]] + rest;
        assert ([data[0]] + rest)[1..] == rest;
      } else {
        assert SelectedRows(data, sel) == rest;
        assert rest != [] ==> rest[0] in rest;
      }
    }
  }

  /** The selected rows depend only on the membership of the page's own ids. */
  lemma {:induction false} SelectedRowsAgree(data: seq<Artwork>, s1: set<int>, s2: set<int>)
    requires forall i :: 0 <= i < |data| ==> (data[i].id in s1 <==> data[i].id in s2)
    ensures SelectedRows(data, s1) == SelectedRows(data, s2)
  {
    if data != [] {
      assert forall i :: 0 <= i < |data| - 1 ==> data[1..][i] == data[i + 1];
      SelectedRowsAgree(data[1..], s1, s2);
    }
  }

  /**
   When exactly the first `k` rows of a page have selected ids, the selected
   rows are that prefix of the page.
   */
  lemma {:induction false} SelectedRowsPrefix(data: seq<Artwork>, sel: set<int>, k: nat)
    requires k <= |data|
    requires forall i :: 0 <= i < |data| ==> (data[i].id in sel <==> i < k)
    ensures SelectedRows(data, sel) == data[..k]
  {
    if data != [] {
      var tail := data[1..];
      assert forall i :: 0 <= i < |tail| ==> tail[i] == data[i + 1];
      if k == 0 {
        assert data[0].id !in sel;
        SelectedRowsPrefix(tail, sel, 0);
        assert SelectedRows(data, sel) == SelectedRows(tail, sel);
      } else {
        assert data[0].id in sel;
        SelectedRowsPrefix(tail, sel, k - 1);
        assert SelectedRows(data, sel) == [data[0]] + SelectedRows(tail, sel);
        assert data[..k] == [data[0]] + tail[..k - 1];
      }
    }
  }

  /** How many leading rows of an `n`-row page starting at ordinal `pageStart` are within `count`. */
  function LeadingWithin(n: nat, pageStart: int, count: int): nat
  {
    var m := count - pageStart + 1;
    if m < 0 then 0 else if m > n then n else m
  }

  /**
   After a page whose ids are distinct is reconciled, the rows shown as
   selected are exactly the leading rows whose ordinals are within the count.
   */
  lemma ReconciledShowsLeadingRows(prev: set<int>, rows: seq<Artwork>, pageStart: int, count: int)
    requires DistinctIds(rows)
    ensures SelectedRows(rows, Reconciled(prev, rows, pageStart, count))
         == rows[..LeadingWithin(|rows|, pageStart, count)]
  {
    var sel := Reconciled(prev, rows, pageStart, count);
    var k := LeadingWithin(|rows|, pageStart, count);
    forall i | 0 <= i < |rows| ensures rows[i].id in sel <==> i < k {
      ReconciledOrdinalRule(prev, rows, pageStart, count, i);
    }
    SelectedRowsPrefix(rows, sel, k);
  }

  /**
   After a reported selection change, the rows shown as selected are exactly
   the visible rows that the widget reported.
   */
  lemma ChangeShowsReportedRows(prev: set<int>, reported: seq<Artwork>, visible: seq<Artwork>)
    ensures SelectedRows(visible, SelectionChanged(prev, reported, visible))
         == SelectedRows(visible, IdsOf(reported))
  {
    var sel := SelectionChanged(prev, reported, visible);
    forall i | 0 <= i < |visible| ensures visible[i].id in sel <==> visible[i].id in IdsOf(reported) {
      assert visible[i].id in IdsOf(visible);
    }
    SelectedRowsAgree(visible, sel, IdsOf(reported));
  }
}
