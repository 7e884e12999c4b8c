/**
 * The older entry store, the one the web command uses: the same `rss` table
 * before it had a `saved` column, with a batch upsert, a full read and a
 * single-flag update by identifier. The repository object also keeps a ghost
 * log of the mutating calls made on it, so that its callers can be specified
 * by which store calls they make.
 */
module CmdRoot {

  import opened Wrappers
  import opened Rss
  import opened Sql

  /** One row of the older table: `(rss_id, url, rank, title, last_fetch, viewed)`. */
  datatype Row = Row(id: int, url: string, rank: int, title: string, lastFetch: int, viewed: bool)

  /** What the older read hands back for a row. */
  datatype RssDTO = RssDTO(id: int, url: string, rank: int, title: string, viewed: bool)

  function ToDTO(r: Row): RssDTO
  {
    RssDTO(r.id, r.url, r.rank, r.title, r.viewed)
  }

  datatype Table = Table(rows: seq<Row>, nextId: int)

  predicate HasUrl(rows: seq<Row>, url: string)
  {
    exists i :: 0 <= i < |rows| && rows[i].url == url
  }

  /** Urls unique, identifiers ascending in insertion order and below the sequence. */
  predicate WellFormed(t: Table)
  {
    && (forall i, j :: 0 <= i < j < |t.rows| ==> t.rows[i].url != t.rows[j].url)
    && (forall i, j :: 0 <= i < j < |t.rows| ==> t.rows[i].id < t.rows[j].id)
    && (forall i :: 0 <= i < |t.rows| ==> t.rows[i].id < t.nextId)
  }

  /** `after` holds every row of `before` at its place with the same
      identifier, url and viewed flag. */
  predicate KeepsRows(before: seq<Row>, after: seq<Row>)
  {
    && |before| <= |after|
    && forall i :: 0 <= i < |before| ==>
         after[i].id == before[i].id && after[i].url == before[i].url && after[i].viewed == before[i].viewed
  }

  /** The position of the row holding `url`, if any. */
  function FindUrl(rows: seq<Row>, url: string): (k: Option<nat>)
    ensures k.Some? ==> k.value < |rows| && rows[k.value].url == url
    ensures k.None? <==> !HasUrl(rows, url)
  {
    if rows == [] then None
    else if rows[0].url == url then Some(0)
    else match FindUrl(rows[1..], url)
      case None => assert forall i :: 1 <= i < |rows| ==> rows[i] == rows[1..][i - 1]; None
      case Some(j) => Some(j + 1)
  }

  /** One execution of the upsert statement (the same statement text as the
      newer store's, over a table without `saved`). */
  function Upsert(t: Table, e: RssEntry, now: int): (r: Table)
    ensures KeepsRows(t.rows, r.rows)
    ensures HasUrl(t.rows, e.url) <==> r.nextId == t.nextId
    ensures |r.rows| - |t.rows| == r.nextId - t.nextId && t.nextId <= r.nextId <= t.nextId + 1
    ensures WellFormed(t) ==> WellFormed(r)
  {
    match FindUrl(t.rows, e.url)
    case Some(i) =>
      var row := t.rows[i].(rank := e.rank, title := e.title, lastFetch := now);
      ReplaceKeepsWellFormed(t, i, row);
      Table(t.rows[i := row], t.nextId)
    case None =>
      var row := Row(t.nextId, e.url, e.rank, e.title, now, false);
      AppendKeepsWellFormed(t, row);
      Table(t.rows + [row], t.nextId + 1)
  }

  /** Overwriting a row's data columns keeps the table well formed. */
  lemma ReplaceKeepsWellFormed(t: Table, i: nat, row: Row)
    requires i < |t.rows| && row.id == t.rows[i].id && row.url == t.rows[i].url
    ensures WellFormed(t) ==> WellFormed(Table(t.rows[i := row], t.nextId))
  {
  }

  /** A row with a new url and the next identifier can be appended. */
  lemma AppendKeepsWellFormed(t: Table, row: Row)
    requires row.id == t.nextId && !HasUrl(t.rows, row.url)
    ensures WellFormed(t) ==> WellFormed(Table(t.rows + [row], t.nextId + 1))
  {
    var r := t.rows + [row];
    assert forall i :: 0 <= i < |t.rows| ==> r[i] == t.rows[i];
    assert r[|t.rows|] == row;
  }

  /** A new url becomes one new row with a fresh identifier, `lastFetch =
      now` and `viewed = false`; the rows before it are untouched. */
  lemma UpsertAbsentUrl(t: Table, e: RssEntry, now: int)
    requires WellFormed(t) && !HasUrl(t.rows, e.url)
    ensures var r := Upsert(t, e, now);
      && |r.rows| == |t.rows| + 1
      && r.rows[..|t.rows|] == t.rows
      && r.rows[|t.rows|] == Row(r.rows[|t.rows|].id, e.url, e.rank, e.title, now, false)
      && (forall i :: 0 <= i < |t.rows| ==> t.rows[i].id != r.rows[|t.rows|].id)
  {
  }

  /** A known url gets only rank, title and lastFetch overwritten, so its
      viewed flag is preserved. */
  lemma UpsertPresentUrl(t: Table, e: RssEntry, now: int, i: nat)
    requires WellFormed(t) && i < |t.rows| && t.rows[i].url == e.url
    ensures Upsert(t, e, now).rows == t.rows[i := t.rows[i].(rank := e.rank, title := e.title, lastFetch := now)]
    ensures Upsert(t, e, now).nextId == t.nextId
  {
    var k := FindUrl(t.rows, e.url);
    assert k.Some?;
  }

  /** The batch `es` applied in order, one execution per entry. */
  function UpsertAll(t: Table, es: seq<RssEntry>, now: int): (r: Table)
    ensures KeepsRows(t.rows, r.rows)
    ensures |r.rows| - |t.rows| == r.nextId - t.nextId && t.nextId <= r.nextId
    ensures WellFormed(t) ==> WellFormed(r)
    decreases |es|
  {
    if es == [] then t
    else Upsert(UpsertAll(t, es[..|es| - 1], now), es[|es| - 1], now)
  }

  /** Upserting `a` and then `b` is upserting `a + b`. */
  lemma {:induction false} UpsertAllConcat(t: Table, a: seq<RssEntry>, b: seq<RssEntry>, now: int)
    ensures UpsertAll(t, a + b, now) == UpsertAll(UpsertAll(t, a, now), b, now)
    decreases |b|
  {
    if b == [] {
      assert a + b == a;
    } else {
      var initB := b[..|b| - 1];
      assert (a + b)[..|a + b| - 1] == a + initB;
      assert (a + b)[|a + b| - 1] == b[|b| - 1];
      UpsertAllConcat(t, a, initB, now);
    }
  }

  /** `UPDATE rss SET viewed = $1 WHERE rss_id = $2`. */
  function SetViewed(rows: seq<Row>, id: int, viewed: bool): (r: seq<Row>)
    ensures |r| == |rows|
  {
    seq(|rows|, i requires 0 <= i < |rows| => if rows[i].id == id then rows[i].(viewed := viewed) else rows[i])
  }

  /** Only the row with that identifier changes, and on it only `viewed`; an
      identifier that matches no row changes nothing. */
  lemma SetViewedEffect(t: Table, id: int, viewed: bool)
    requires WellFormed(t)
    ensures var r := SetViewed(t.rows, id, viewed);
      && WellFormed(Table(r, t.nextId))
      && (forall i :: 0 <= i < |t.rows| && t.rows[i].id != id ==> r[i] == t.rows[i])
      && (forall i :: 0 <= i < |t.rows| && t.rows[i].id == id ==> r[i].viewed == viewed && r[i].(viewed := t.rows[i].viewed) == t.rows[i])
      && ((forall i :: 0 <= i < |t.rows| ==> t.rows[i].id != id) ==> r == t.rows)
  {
  }

  /** A mutating call made on the store (the ghost log entries). */
  datatype StoreCall = SaveOrUpdateAllCall(entries: seq<RssEntry>) | UpdateViewedByIdCall(id: int, viewed: bool)

  class PgRssRepository {

    var rows: seq<Row>
    var nextId: int
    /** Every mutating call made on this store so far, in order. */
    ghost var calls: seq<StoreCall>

    function Snapshot(): Table
      reads this
    {
      Table(rows, nextId)
    }

    predicate Valid()
      reads this
    {
      WellFormed(Snapshot())
    }

    /** A repository over a table that already holds `initial`. */
    constructor (initial: Table)
      requires WellFormed(initial)
      ensures Valid() && Snapshot() == initial && calls == []
    {
      rows := initial.rows;
      nextId := initial.nextId;
      calls := [];
    }

    /** `SELECT rss_id, url, rank, title, viewed FROM rss`: every row exactly
        once, in table order. */
    method GetAll() returns (result: seq<RssDTO>, err: Option<StoreError>)
      ensures |result| == |rows|
      ensures forall i :: 0 <= i < |rows| ==> result[i] == ToDTO(rows[i])
      ensures err == None
    {
      result := [];
      var i := 0;
      while i < |rows|
        invariant 0 <= i <= |rows|
        invariant |result| == i
        invariant forall k :: 0 <= k < i ==> result[k] == ToDTO(rows[k])
      {
        result := result + [ToDTO(rows[i])];
        i := i + 1;
      }
      err := None;
    }

    /** Entries are upserted in order until the first failing execution,
        whose error is returned; earlier entries stay applied and a failed
        preparation leaves the table unchanged. */
    method SaveOrUpdateAll(entries: seq<RssEntry>, now: int, fault: Fault) returns (err: Option<StoreError>)
      requires Valid()
      modifies this
      ensures Valid()
      ensures err == Outcome(|entries|, fault)
      ensures Snapshot() == UpsertAll(old(Snapshot()), entries[..Executed(|entries|, fault)], now)
      ensures fault.PrepareFault? ==> Snapshot() == old(Snapshot())
      ensures calls == old(calls) + [SaveOrUpdateAllCall(entries)]
    {
      calls := calls + [SaveOrUpdateAllCall(entries)];
      if fault.PrepareFault? {
        return Some(PrepareFailed);
      }
      var done;
      done, err := ExecAll(entries, now, fault);
    }

    /** The executions of the prepared statement, one per entry in order,
        up to the first that fails; `done` is how many succeeded. */
    method ExecAll(entries: seq<RssEntry>, now: int, fault: Fault) returns (done: nat, err: Option<StoreError>)
      modifies this
      ensures done <= |entries|
      ensures if fault.ExecFault? && fault.at < |entries| then done == fault.at && err == Some(ExecFailed)
              else done == |entries| && err == None
      ensures Table(rows, nextId) == UpsertAll(Table(old(rows), old(nextId)), entries[..done], now)
      ensures calls == old(calls)
    {
      ghost var start := Table(rows, nextId);
      assert UpsertAll(start, entries[..0], now) == start;
      done := 0;
      while done < |entries|
        invariant 0 <= done <= |entries|
        invariant fault.ExecFault? ==> done <= fault.at
        invariant Table(rows, nextId) == UpsertAll(start, entries[..done], now)
        invariant calls == old(calls)
      {
        if fault.ExecFault? && fault.at == done {
          return done, Some(ExecFailed);
        }
        Exec(entries, done, now, start);
        done := done + 1;
      }
      return done, None;
    }

    /** One successful execution of the upsert statement, on the `i`-th
        entry of the batch. */
    method Exec(entries: seq<RssEntry>, i: nat, now: int, ghost start: Table)
      requires i < |entries| && Table(rows, nextId) == UpsertAll(start, entries[..i], now)
      modifies this
      ensures Table(rows, nextId) == UpsertAll(start, entries[..i + 1], now) && calls == old(calls)
    {
      assert entries[..i + 1][..i] == entries[..i];
      var t := Upsert(Table(rows, nextId), entries[i], now);
      rows, nextId := t.rows, t.nextId;
    }

    /** Sets `viewed` on the row with identifier `id`; no matching row is not
        an error. */
    method UpdateViewedById(id: int, viewed: bool, fault: Fault) returns (err: Option<StoreError>)
      requires Valid()
      modifies this
      ensures Valid()
      ensures err == Outcome(1, fault)
      ensures nextId == old(nextId)
      ensures rows == if err.None? then SetViewed(old(rows), id, viewed) else old(rows)
      ensures calls == old(calls) + [UpdateViewedByIdCall(id, viewed)]
    {
      calls := calls + [UpdateViewedByIdCall(id, viewed)];
      if fault.PrepareFault? {
        return Some(PrepareFailed);
      }
      if fault.ExecFault? && fault.at == 0 {
        return Some(ExecFailed);
      }
      SetViewedEffect(Snapshot(), id, viewed);
      rows := SetViewed(rows, id, viewed);
      return None;
    }
  }
}
