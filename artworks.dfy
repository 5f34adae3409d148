/**
 The record shown in one table row. Only `id` takes part in selection; the
 other fields are display data carried along unchanged.
 */
module Artworks {

  datatype Option<T> = None | Some(value: T)

  datatype Artwork = Artwork(
    id: int,
    title: string,
    artistTitle: string,
    placeOfOrigin: Option<string>,
    inscriptions: Option<string>,
    dateStart: Option<int>,
    dateEnd: Option<int>
  )

  /** The ids of the rows of a page. */
  function IdsOf(rows: seq<Artwork>): set<int>
  {
    set i | 0 <= i < |rows| :: rows[i].id
  }

  /** No two rows of the page share an id. */
  predicate DistinctIds(rows: seq<Artwork>)
  {
    forall i, j :: 0 <= i < j < |rows| ==> rows[i].id != rows[j].id
  }

  /** Row `i` is the last row of the page that carries its id. */
  predicate IsLastWithId(rows: seq<Artwork>, i: int)
    requires 0 <= i < |rows|
  {
    forall j :: i < j < |rows| ==> rows[j].id != rows[i].id
  }

  /** Every id on a page has a last row carrying it. */
  lemma {:induction false} LastWithIdExists(rows: seq<Artwork>, x: int)
    requires x in IdsOf(rows)
    ensures exists i :: 0 <= i < |rows| && rows[i].id == x && IsLastWithId(rows, i)
  {
    var last := |rows| - 1;
    if rows[last].id == x {
      assert IsLastWithId(rows, last);
    } else {
      var k :| 0 <= k < |rows| && rows[k].id == x;
      var front := rows[..last];
      assert front[k] == rows[k];
      assert x in IdsOf(front);
      LastWithIdExists(front, x);
      var i :| 0 <= i < |front| && front[i].id == x && IsLastWithId(front, i);
      assert rows[i] == front[i];
      assert IsLastWithId(rows, i);
    }
  }

  /** Appending a row to a page adds exactly its id. */
  lemma IdsOfSnoc(rows: seq<Artwork>, n: nat)
    requires n < |rows|
    ensures IdsOf(rows[..n + 1]) == IdsOf(rows[..n]) + {rows[n].id}
  {
    var longer, shorter := rows[..n + 1], rows[..n];
    forall x | x in IdsOf(longer) ensures x in IdsOf(shorter) + {rows[n].id} {
      var k :| 0 <= k < |longer| && longer[k].id == x;
      if k < n { assert shorter[k] == longer[k]; }
    }
    forall x | x in IdsOf(shorter) ensures x in IdsOf(longer) {
      var k :| 0 <= k < |shorter| && shorter[k].id == x;
      assert longer[k] == shorter[k];
    }
    assert longer[n] == rows[n];
  }
}
