/**
 * The `rss` table of the newer entry store and the meaning of each SQL
 * statement the store runs on it, as functions from the old table to the new
 * one. The table keeps its rows in insertion order together with the next
 * identifier its id sequence hands out.
 */
module RssTable {

  import opened Wrappers
  import opened Rss

  /** One row of the table: `(rss_id, url, rank, title, last_fetch, viewed, saved)`. */
  datatype Row = Row(id: int, url: string, rank: int, title: string, lastFetch: int, viewed: bool, saved: bool)

  /** What a read hands back for a row: every column except `last_fetch`. */
  datatype RssDTO = RssDTO(id: int, url: string, rank: int, title: string, viewed: bool, saved: bool)

  /** The zero value of a DTO (Go's `RssDTO{}`). */
  const ZeroDTO: RssDTO := RssDTO(0, "", 0, "", false, false)

  function ToDTO(r: Row): RssDTO
  {
    RssDTO(r.id, r.url, r.rank, r.title, r.viewed, r.saved)
  }

  datatype Table = Table(rows: seq<Row>, nextId: int)

  predicate HasUrl(rows: seq<Row>, url: string)
  {
    exists i :: 0 <= i < |rows| && rows[i].url == url
  }

  /** The unique constraint on `url`. */
  predicate UrlsUnique(rows: seq<Row>)
  {
    forall i, j :: 0 <= i < j < |rows| ==> rows[i].url != rows[j].url
  }

  /** Rows were inserted with increasing identifiers. */
  predicate IdsAscending(rows: seq<Row>)
  {
    forall i, j :: 0 <= i < j < |rows| ==> rows[i].id < rows[j].id
  }

  /** The invariant every statement keeps: urls are unique, identifiers
      ascend in insertion order and the sequence is ahead of every identifier. */
  predicate WellFormed(t: Table)
  {
    && UrlsUnique(t.rows)
    && IdsAscending(t.rows)
    && forall i :: 0 <= i < |t.rows| ==> t.rows[i].id < t.nextId
  }

  /** The columns a re-fetch must not touch: identity and user flags. */
  predicate SameIdentity(a: Row, b: Row)
  {
    a.id == b.id && a.url == b.url && a.viewed == b.viewed && a.saved == b.saved
  }

  /** `after` still holds every row of `before` at its place, with the same
      identity and flags (and possibly more rows behind them). */
  predicate KeepsRows(before: seq<Row>, after: seq<Row>)
  {
    |before| <= |after| && forall i :: 0 <= i < |before| ==> SameIdentity(before[i], after[i])
  }

  lemma KeepsRowsHasUrl(before: seq<Row>, after: seq<Row>, url: string)
    requires KeepsRows(before, after) && HasUrl(before, url)
    ensures HasUrl(after, url)
  {
    var i :| 0 <= i < |before| && before[i].url == url;
    assert after[i].url == url;
  }

  // ---------------------------------------------------------------------------
  // INSERT INTO rss (url, rank, title, last_fetch) VALUES ($1, $2, $3, NOW())
  // ON CONFLICT (url) DO UPDATE SET rank, title, last_fetch = NOW()
  // ---------------------------------------------------------------------------

  /** The position of the row holding `url`, if any. */
  function FindUrl(rows: seq<Row>, url: string): (k: Option<nat>)
    ensures k.Some? ==> k.value < |rows| && rows[k.value].url == url
    ensures k.None? <==> !HasUrl(rows, url)
  {
    if rows == [] then None
    else if rows[0].url == url then Some(0)
    else match FindUrl(rows[1..], url)
      case None => assert forall i :: 1 <= i < |rows| ==> rows[i] == rows[1..][i - 1]; None
      case Some(j) => Some(j + 1)
  }

  /** One execution of the upsert statement for entry `e` at time `now`. */
  function Upsert(t: Table, e: RssEntry, now: int): (r: Table)
    ensures HasUrl(r.rows, e.url)
    ensures KeepsRows(t.rows, r.rows)
    ensures HasUrl(t.rows, e.url) <==> r.nextId == t.nextId
    ensures |r.rows| - |t.rows| == r.nextId - t.nextId && t.nextId <= r.nextId <= t.nextId + 1
    ensures WellFormed(t) ==> WellFormed(r)
  {
    match FindUrl(t.rows, e.url)
    case Some(i) =>
      var row := t.rows[i].(rank := e.rank, title := e.title, lastFetch := now);
      ReplaceKeepsWellFormed(t, i, row);
      var r := Table(t.rows[i := row], t.nextId);
      assert r.rows[i].url == e.url;
      r
    case None =>
      var row := Row(t.nextId, e.url, e.rank, e.title, now, false, false);
      InsertKeepsWellFormed(t, row);
      var r := Table(t.rows + [row], t.nextId + 1);
      assert r.rows[|t.rows|].url == e.url;
      r
  }

  /** Overwriting a row's data columns keeps the table well formed. */
  lemma ReplaceKeepsWellFormed(t: Table, i: nat, row: Row)
    requires i < |t.rows| && row.id == t.rows[i].id && row.url == t.rows[i].url
    ensures WellFormed(t) ==> WellFormed(Table(t.rows[i := row], t.nextId))
  {
  }

  /** A row with a new url and the next identifier can be inserted. */
  lemma InsertKeepsWellFormed(t: Table, row: Row)
    requires row.id == t.nextId && !HasUrl(t.rows, row.url)
    ensures WellFormed(t) ==> WellFormed(Table(t.rows + [row], t.nextId + 1))
  {
    var r := t.rows + [row];
    assert forall i :: 0 <= i < |t.rows| ==> r[i] == t.rows[i];
    assert r[|t.rows|] == row;
  }

  /** A url not yet in the table gets exactly one new row, with a fresh
      identifier, the entry's rank and title, `lastFetch = now` and both
      flags false; no existing row changes. */
  lemma UpsertAbsentUrl(t: Table, e: RssEntry, now: int)
    requires WellFormed(t) && !HasUrl(t.rows, e.url)
    ensures var r := Upsert(t, e, now);
      && |r.rows| == |t.rows| + 1
      && r.rows[..|t.rows|] == t.rows
      && r.rows[|t.rows|] == Row(r.rows[|t.rows|].id, e.url, e.rank, e.title, now, false, false)
      && (forall i :: 0 <= i < |t.rows| ==> t.rows[i].id != r.rows[|t.rows|].id)
  {
  }

  /** A url already in the table at position `i` changes only that row's
      rank, title and lastFetch; no row is added. */
  lemma UpsertPresentUrl(t: Table, e: RssEntry, now: int, i: nat)
    requires WellFormed(t) && i < |t.rows| && t.rows[i].url == e.url
    ensures Upsert(t, e, now).rows == t.rows[i := t.rows[i].(rank := e.rank, title := e.title, lastFetch := now)]
    ensures Upsert(t, e, now).nextId == t.nextId
  {
    var k := FindUrl(t.rows, e.url);
    assert k.Some?;
  }

  /** The batch `es` applied in order, one execution per entry. */
  function UpsertAll(t: Table, es: seq<RssEntry>, now: int): (r: Table)
    ensures KeepsRows(t.rows, r.rows)
    ensures |r.rows| - |t.rows| == r.nextId - t.nextId && t.nextId <= r.nextId
    ensures WellFormed(t) ==> WellFormed(r)
    decreases |es|
  {
    if es == [] then t
    else Upsert(UpsertAll(t, es[..|es| - 1], now), es[|es| - 1], now)
  }

  /** After a batch every url of the batch has a row. */
  lemma {:induction false} UpsertAllCovers(t: Table, es: seq<RssEntry>, now: int)
    ensures forall k :: 0 <= k < |es| ==> HasUrl(UpsertAll(t, es, now).rows, es[k].url)
    decreases |es|
  {
    if es != [] {
      var init := es[..|es| - 1];
      var mid := UpsertAll(t, init, now);
      var r := UpsertAll(t, es, now);
      UpsertAllCovers(t, init, now);
      forall k | 0 <= k < |es| ensures HasUrl(r.rows, es[k].url) {
        if k < |es| - 1 {
          assert es[k] == init[k];
          KeepsRowsHasUrl(mid.rows, r.rows, es[k].url);
        }
      }
    }
  }

  /** A batch whose urls are all known adds no row and consumes no identifier. */
  lemma {:induction false} UpsertAllKnownUrls(t: Table, es: seq<RssEntry>, now: int)
    requires forall k :: 0 <= k < |es| ==> HasUrl(t.rows, es[k].url)
    ensures |UpsertAll(t, es, now).rows| == |t.rows|
    ensures UpsertAll(t, es, now).nextId == t.nextId
    decreases |es|
  {
    if es != [] {
      var init := es[..|es| - 1];
      var mid := UpsertAll(t, init, now);
      assert forall k :: 0 <= k < |init| ==> init[k] == es[k];
      UpsertAllKnownUrls(t, init, now);
      KeepsRowsHasUrl(t.rows, mid.rows, es[|es| - 1].url);
    }
  }

  /** Upserting the same batch twice (at any two times) leaves the same rows,
      with the same identifiers, urls and flags, as upserting it once. */
  lemma UpsertBatchTwice(t: Table, es: seq<RssEntry>, now1: int, now2: int)
    ensures var once := UpsertAll(t, es, now1);
      var twice := UpsertAll(once, es, now2);
      && |twice.rows| == |once.rows|
      && twice.nextId == once.nextId
      && forall i :: 0 <= i < |once.rows| ==> SameIdentity(once.rows[i], twice.rows[i])
  {
    var once := UpsertAll(t, es, now1);
    UpsertAllCovers(t, es, now1);
    UpsertAllKnownUrls(once, es, now2);
  }

  /** Upserting `a` and then `b` is upserting `a + b`: batches compose. */
  lemma {:induction false} UpsertAllConcat(t: Table, a: seq<RssEntry>, b: seq<RssEntry>, now: int)
    ensures UpsertAll(t, a + b, now) == UpsertAll(UpsertAll(t, a, now), b, now)
    decreases |b|
  {
    if b == [] {
      assert a + b == a;
    } else {
      var initB := b[..|b| - 1];
      assert (a + b)[..|a + b| - 1] == a + initB;
      assert (a + b)[|a + b| - 1] == b[|b| - 1];
      UpsertAllConcat(t, a, initB, now);
    }
  }

  // ---------------------------------------------------------------------------
  // UPDATE rss SET viewed = $2, saved = $3 WHERE rss_id = $1
  // ---------------------------------------------------------------------------

  /** Both flags of every row whose identifier is `id` replaced. */
  function SetFlags(rows: seq<Row>, id: int, viewed: bool, saved: bool): (r: seq<Row>)
    ensures |r| == |rows|
  {
    seq(|rows|, i requires 0 <= i < |rows| =>
      if rows[i].id == id then rows[i].(viewed := viewed, saved := saved) else rows[i])
  }

  /** The flag update touches only the row with that identifier, and on it
      only the two flags, and keeps the table well formed. */
  lemma SetFlagsEffect(t: Table, id: int, viewed: bool, saved: bool)
    requires WellFormed(t)
    ensures var r := SetFlags(t.rows, id, viewed, saved);
      && WellFormed(Table(r, t.nextId))
      && (forall i :: 0 <= i < |t.rows| && t.rows[i].id != id ==> r[i] == t.rows[i])
      && (forall i :: 0 <= i < |t.rows| && t.rows[i].id == id ==>
            r[i].viewed == viewed && r[i].saved == saved && r[i].(viewed := t.rows[i].viewed, saved := t.rows[i].saved) == t.rows[i])
  {
  }

  /** An identifier that matches no row leaves the table as it was. */
  lemma SetFlagsMissingId(rows: seq<Row>, id: int, viewed: bool, saved: bool)
    requires forall i :: 0 <= i < |rows| ==> rows[i].id != id
    ensures SetFlags(rows, id, viewed, saved) == rows
  {
  }

  // ---------------------------------------------------------------------------
  // SELECT count(rss_id) FROM rss WHERE viewed = false
  // ---------------------------------------------------------------------------

  /** The positions of the unviewed rows. */
  function UnviewedIndices(rows: seq<Row>): set<int>
  {
    set i | 0 <= i < |rows| && !rows[i].viewed
  }

  /** The number of unviewed rows: at most the table size, and zero exactly
      when every row is viewed. */
  function CountUnviewed(rows: seq<Row>): (c: nat)
    ensures c <= |rows|
    ensures c == 0 <==> forall i :: 0 <= i < |rows| ==> rows[i].viewed
  {
    if rows == [] then 0
    else CountUnviewed(rows[..|rows| - 1]) + (if rows[|rows| - 1].viewed then 0 else 1)
  }

  /** The SQL count is the number of unviewed rows. */
  lemma {:induction false} CountUnviewedIsCardinality(rows: seq<Row>)
    ensures CountUnviewed(rows) == |UnviewedIndices(rows)|
  {
    if rows != [] {
      var n := |rows| - 1;
      var init := rows[..n];
      CountUnviewedIsCardinality(init);
      if rows[n].viewed {
        assert UnviewedIndices(rows) == UnviewedIndices(init);
      } else {
        assert UnviewedIndices(rows) == UnviewedIndices(init) + {n};
        assert n !in UnviewedIndices(init);
      }
    }
  }

  // ---------------------------------------------------------------------------
  // SELECT ... FROM rss WHERE viewed = false ORDER BY rss_id LIMIT 1
  // ---------------------------------------------------------------------------

  /** The position of the first unviewed row in insertion order. */
  function FirstUnviewed(rows: seq<Row>): (k: Option<nat>)
    ensures k.Some? ==> k.value < |rows| && !rows[k.value].viewed
    ensures k.Some? ==> forall j :: 0 <= j < k.value ==> rows[j].viewed
    ensures k.None? <==> forall j :: 0 <= j < |rows| ==> rows[j].viewed
  {
    if rows == [] then None
    else if !rows[0].viewed then Some(0)
    else match FirstUnviewed(rows[1..])
      case None => assert forall j :: 1 <= j < |rows| ==> rows[j] == rows[1..][j - 1]; None
      case Some(j) => assert forall i :: 1 <= i <= j ==> rows[i] == rows[1..][i - 1]; Some(j + 1)
  }

  /** Since identifiers ascend, the first unviewed row is the unviewed row
      with the smallest identifier, which `ORDER BY rss_id LIMIT 1` selects. */
  lemma FirstUnviewedHasSmallestId(rows: seq<Row>)
    requires IdsAscending(rows) && FirstUnviewed(rows).Some?
    ensures var k := FirstUnviewed(rows).value;
      forall j :: 0 <= j < |rows| && !rows[j].viewed ==> rows[k].id <= rows[j].id
  {
    var k := FirstUnviewed(rows).value;
    forall j | 0 <= j < |rows| && !rows[j].viewed ensures rows[k].id <= rows[j].id {
      assert k <= j;
      if k < j {
        assert rows[k].id < rows[j].id;
      }
    }
  }

  // ---------------------------------------------------------------------------
  // DELETE FROM rss WHERE last_fetch < $1 AND saved = false
  // ---------------------------------------------------------------------------

  predicate IsStale(r: Row, ts: int)
  {
    r.lastFetch < ts && !r.saved
  }

  function StaleIndices(rows: seq<Row>, ts: int): set<int>
  {
    set i | 0 <= i < |rows| && IsStale(rows[i], ts)
  }

  /** The table with its stale rows removed, the others kept in order. */
  function Sweep(rows: seq<Row>, ts: int): (r: seq<Row>)
    ensures forall x :: x in r <==> x in rows && !IsStale(x, ts)
  {
    if rows == [] then []
    else
      var n := |rows| - 1;
      var kept := Sweep(rows[..n], ts);
      assert forall x :: x in rows <==> x in rows[..n] || x == rows[n];
      if IsStale(rows[n], ts) then kept else kept + [rows[n]]
  }

  /** Appending a row with a new url and a larger identifier, still below the
      sequence, keeps a table well formed. */
  lemma AppendKeepsWellFormed(t: Table, x: Row)
    requires WellFormed(t) && x.id < t.nextId
    requires forall y :: y in t.rows ==> y.url != x.url && y.id < x.id
    ensures WellFormed(Table(t.rows + [x], t.nextId))
  {
    var r := t.rows + [x];
    assert forall i :: 0 <= i < |t.rows| ==> r[i] == t.rows[i] && t.rows[i] in t.rows;
  }

  lemma PrefixKeepsWellFormed(t: Table, n: nat)
    requires WellFormed(t) && n <= |t.rows|
    ensures WellFormed(Table(t.rows[..n], t.nextId))
  {
  }

  /** The rows the sweep keeps still form a well-formed table. */
  lemma {:induction false} SweepKeepsWellFormed(t: Table, ts: int)
    requires WellFormed(t)
    ensures WellFormed(Table(Sweep(t.rows, ts), t.nextId))
    decreases |t.rows|
  {
    if t.rows != [] {
      var n := |t.rows| - 1;
      var init := Table(t.rows[..n], t.nextId);
      PrefixKeepsWellFormed(t, n);
      SweepKeepsWellFormed(init, ts);
      var kept := Table(Sweep(init.rows, ts), t.nextId);
      if !IsStale(t.rows[n], ts) {
        forall y | y in kept.rows ensures y.url != t.rows[n].url && y.id < t.rows[n].id {
          var i :| 0 <= i < n && init.rows[i] == y;
          assert t.rows[i] == y;
        }
        AppendKeepsWellFormed(kept, t.rows[n]);
      }
    }
  }

  /** The stale positions of a table are those of all but its last row,
      plus the last one when it is stale. */
  lemma StaleIndicesSnoc(rows: seq<Row>, ts: int)
    requires rows != []
    ensures var n := |rows| - 1;
      StaleIndices(rows, ts) == StaleIndices(rows[..n], ts) + (if IsStale(rows[n], ts) then {n} else {})
      && n !in StaleIndices(rows[..n], ts)
  {
    var n := |rows| - 1;
    forall j | 0 <= j < n ensures rows[..n][j] == rows[j] {
    }
  }

  /** The count the sweep reports is the number of stale rows. */
  lemma {:induction false} SweepRemovesStale(rows: seq<Row>, ts: int)
    ensures |rows| - |Sweep(rows, ts)| == |StaleIndices(rows, ts)|
  {
    if rows != [] {
      var n := |rows| - 1;
      SweepRemovesStale(rows[..n], ts);
      StaleIndicesSnoc(rows, ts);
    }
  }

  // ---------------------------------------------------------------------------
  // UPDATE rss SET viewed = true WHERE viewed = false
  // ---------------------------------------------------------------------------

  function MarkAllViewed(rows: seq<Row>): (r: seq<Row>)
    ensures |r| == |rows|
  {
    seq(|rows|, i requires 0 <= i < |rows| => rows[i].(viewed := true))
  }

  /** Marking all rows viewed changes no other column, keeps the table well
      formed and leaves no unviewed row; doing it again changes nothing. */
  lemma MarkAllViewedEffect(t: Table)
    requires WellFormed(t)
    ensures var r := MarkAllViewed(t.rows);
      && WellFormed(Table(r, t.nextId))
      && (forall i :: 0 <= i < |t.rows| ==> r[i].viewed && r[i].(viewed := t.rows[i].viewed) == t.rows[i])
      && UnviewedIndices(r) == {}
      && MarkAllViewed(r) == r
  {
  }

  // ---------------------------------------------------------------------------
  // Worked scenarios
  // ---------------------------------------------------------------------------

  /** Insert "a", mark it viewed, re-fetch it with a new rank and title: the
      row keeps its identifier and its viewed flag. */
  lemma RefetchKeepsViewedScenario()
    ensures var t1 := UpsertAll(Table([], 1), [RssEntry("a", 1, "A")], 10);
      var t2 := Table(SetFlags(t1.rows, 1, true, false), t1.nextId);
      var t3 := UpsertAll(t2, [RssEntry("a", 2, "A2")], 20);
      && t1.rows == [Row(1, "a", 1, "A", 10, false, false)]
      && t2.rows == [Row(1, "a", 1, "A", 10, true, false)]
      && t3.rows == [Row(1, "a", 2, "A2", 20, true, false)]
  {
    var e1 := RssEntry("a", 1, "A");
    assert [e1][..0] == [];
    assert UpsertAll(Table([], 1), [], 10) == Table([], 1);
    var t1 := UpsertAll(Table([], 1), [e1], 10);
    assert t1 == Upsert(Table([], 1), e1, 10);
    var t2 := Table(SetFlags(t1.rows, 1, true, false), t1.nextId);
    assert t2.rows == [Row(1, "a", 1, "A", 10, true, false)];
    var e2 := RssEntry("a", 2, "A2");
    assert [e2][..0] == [];
    UpsertPresentUrl(t2, e2, 20, 0);
  }

  /** Of two rows fetched long ago, one saved and one not, a sweep at a later
      threshold removes exactly the unsaved one and reports 1. */
  lemma RetentionScenario()
    ensures var saved := Row(1, "s", 1, "S", 0, false, true);
      var unsaved := Row(2, "u", 2, "U", 0, false, false);
      var rows := [saved, unsaved];
      && Sweep(rows, 9) == [saved]
      && |StaleIndices(rows, 9)| == 1
  {
    var saved := Row(1, "s", 1, "S", 0, false, true);
    var unsaved := Row(2, "u", 2, "U", 0, false, false);
    var rows := [saved, unsaved];
    assert rows[..1] == [saved];
    assert [saved][..0] == [];
    assert Sweep([saved], 9) == [saved];
    assert Sweep(rows, 9) == Sweep([saved], 9);
    assert StaleIndices(rows, 9) == {1};
  }
}
