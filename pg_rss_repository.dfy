/**
 * The newer entry store: a repository object over the shared `rss` table.
 * Each method runs one SQL statement (or, for the batch upsert, one prepared
 * statement executed per entry) and its contract states the new table as the
 * matching function of `RssTable` applied to the old one. Statement failures
 * are chosen by the caller through a `Fault`.
 */
module Repositories {

  import opened Wrappers
  import opened Rss
  import opened Sql
  import opened RssTable

  class PgRssRepository {

    var rows: seq<Row>
    var nextId: int

    function Snapshot(): Table
      reads this
    {
      Table(rows, nextId)
    }

    predicate Valid()
      reads this
    {
      WellFormed(Snapshot())
    }

    /** A repository over a table that already holds `initial`. */
    constructor (initial: Table)
      requires WellFormed(initial)
      ensures Valid() && Snapshot() == initial
    {
      rows := initial.rows;
      nextId := initial.nextId;
    }

    /** `SELECT rss_id, url, rank, title, viewed, saved FROM rss`: every row
        exactly once, in table order, as a DTO. */
    method GetAll() returns (result: seq<RssDTO>, err: Option<StoreError>)
      ensures |result| == |rows|
      ensures forall i :: 0 <= i < |rows| ==> result[i] == ToDTO(rows[i])
      ensures err == None
    {
      result := [];
      var i := 0;
      while i < |rows|
        invariant 0 <= i <= |rows|
        invariant |result| == i
        invariant forall k :: 0 <= k < i ==> result[k] == ToDTO(rows[k])
      {
        result := result + [ToDTO(rows[i])];
        i := i + 1;
      }
      err := None;
    }

    /** The number of unviewed rows. */
    method GetQueueCount() returns (count: int, err: Option<StoreError>)
      ensures count == |UnviewedIndices(rows)|
      ensures err == None
    {
      count := CountUnviewed(rows);
      CountUnviewedIsCardinality(rows);
      err := None;
    }

    /** The unviewed row with the smallest identifier, or the zero DTO (and
        no error) when every row is viewed. */
    method GetRssFromQueue() returns (dto: RssDTO, err: Option<StoreError>)
      requires Valid()
      ensures (forall i :: 0 <= i < |rows| ==> rows[i].viewed) ==> dto == ZeroDTO
      ensures (exists i :: 0 <= i < |rows| && !rows[i].viewed) ==>
        exists k :: 0 <= k < |rows| && !rows[k].viewed && dto == ToDTO(rows[k]) &&
          forall j :: 0 <= j < |rows| && !rows[j].viewed ==> rows[k].id <= rows[j].id
      ensures err == None
    {
      err := None;
      match FirstUnviewed(rows)
      case None =>
        dto := ZeroDTO;
      case Some(k) =>
        FirstUnviewedHasSmallestId(rows);
        dto := ToDTO(rows[k]);
    }

    /** The upsert statement is prepared once and executed per entry, in
        order; the first failing execution ends the batch. Entries before it
        stay applied, later ones are not applied, and a failed preparation
        changes nothing. */
    method SaveOrUpdateAll(entries: seq<RssEntry>, now: int, fault: Fault) returns (err: Option<StoreError>)
      requires Valid()
      modifies this
      ensures Valid()
      ensures err == Outcome(|entries|, fault)
      ensures Snapshot() == UpsertAll(old(Snapshot()), entries[..Executed(|entries|, fault)], now)
      ensures fault.PrepareFault? ==> Snapshot() == old(Snapshot())
    {
      if fault.PrepareFault? {
        return Some(PrepareFailed);
      }
      var done;
      done, err := ExecAll(entries, now, fault);
    }

    /** The executions of the prepared statement, one per entry in order,
        up to the first that fails; `done` is how many succeeded. */
    method ExecAll(entries: seq<RssEntry>, now: int, fault: Fault) returns (done: nat, err: Option<StoreError>)
      modifies this
      ensures done <= |entries|
      ensures if fault.ExecFault? && fault.at < |entries| then done == fault.at && err == Some(ExecFailed)
              else done == |entries| && err == None
      ensures Table(rows, nextId) == UpsertAll(Table(old(rows), old(nextId)), entries[..done], now)
    {
      ghost var start := Table(rows, nextId);
      assert UpsertAll(start, entries[..0], now) == start;
      done := 0;
      while done < |entries|
        invariant 0 <= done <= |entries|
        invariant fault.ExecFault? ==> done <= fault.at
        invariant Table(rows, nextId) == UpsertAll(start, entries[..done], now)
      {
        if fault.ExecFault? && fault.at == done {
          return done, Some(ExecFailed);
        }
        Exec(entries, done, now, start);
        done := done + 1;
      }
      return done, None;
    }

    /** One successful execution of the upsert statement, on the `i`-th
        entry of the batch. */
    method Exec(entries: seq<RssEntry>, i: nat, now: int, ghost start: Table)
      requires i < |entries| && Table(rows, nextId) == UpsertAll(start, entries[..i], now)
      modifies this
      ensures Table(rows, nextId) == UpsertAll(start, entries[..i + 1], now)
    {
      assert entries[..i + 1][..i] == entries[..i];
      var t := Upsert(Table(rows, nextId), entries[i], now);
      rows, nextId := t.rows, t.nextId;
    }

    /** `UPDATE rss SET viewed, saved WHERE rss_id = dto.id`: both flags of
        the row with that identifier are replaced by the DTO's; the DTO's url,
        rank and title are ignored, and no matching row is not an error. */
    method Update(dto: RssDTO, fault: Fault) returns (err: Option<StoreError>)
      requires Valid()
      modifies this
      ensures Valid()
      ensures err == Outcome(1, fault)
      ensures nextId == old(nextId)
      ensures rows == if err.None? then SetFlags(old(rows), dto.id, dto.viewed, dto.saved) else old(rows)
    {
      if fault.PrepareFault? {
        return Some(PrepareFailed);
      }
      if fault.ExecFault? && fault.at == 0 {
        return Some(ExecFailed);
      }
      SetFlagsEffect(Snapshot(), dto.id, dto.viewed, dto.saved);
      rows := SetFlags(rows, dto.id, dto.viewed, dto.saved);
      return None;
    }

    /** `DELETE FROM rss WHERE last_fetch < ts AND saved = false`, returning
        the number of rows removed. */
    method DeleteInactiveRssOlderThan(ts: int, fault: Fault) returns (count: int, err: Option<StoreError>)
      requires Valid()
      modifies this
      ensures Valid()
      ensures err == Outcome(1, fault)
      ensures nextId == old(nextId)
      ensures err.Some? ==> count == 0 && rows == old(rows)
      ensures err.None? ==> rows == Sweep(old(rows), ts) && count == |StaleIndices(old(rows), ts)|
    {
      if fault.PrepareFault? {
        return 0, Some(PrepareFailed);
      }
      if fault.ExecFault? && fault.at == 0 {
        return 0, Some(ExecFailed);
      }
      SweepKeepsWellFormed(Snapshot(), ts);
      SweepRemovesStale(rows, ts);
      var kept := Sweep(rows, ts);
      count := |rows| - |kept|;
      rows := kept;
      err := None;
    }

    /** `UPDATE rss SET viewed = true WHERE viewed = false`, returning the
        number of rows that were unviewed. */
    method SetAllAsViewed(fault: Fault) returns (count: int, err: Option<StoreError>)
      requires Valid()
      modifies this
      ensures Valid()
      ensures err == Outcome(1, fault)
      ensures nextId == old(nextId)
      ensures err.Some? ==> count == 0 && rows == old(rows)
      ensures err.None? ==> rows == MarkAllViewed(old(rows)) && count == |UnviewedIndices(old(rows))|
    {
      if fault.PrepareFault? {
        return 0, Some(PrepareFailed);
      }
      if fault.ExecFault? && fault.at == 0 {
        return 0, Some(ExecFailed);
      }
      MarkAllViewedEffect(Snapshot());
      CountUnviewedIsCardinality(rows);
      count := CountUnviewed(rows);
      rows := MarkAllViewed(rows);
      err := None;
    }
  }

  /** Two calls of `SetAllAsViewed` in a row: the second reports 0 and the
      queue is then empty. */
  method SetAllAsViewedTwice(repo: PgRssRepository) returns (first: int, second: int, queue: int)
    requires repo.Valid()
    modifies repo
    ensures first == |UnviewedIndices(old(repo.rows))|
    ensures second == 0 && queue == 0
  {
    var err;
    first, err := repo.SetAllAsViewed(NoFault);
    second, err := repo.SetAllAsViewed(NoFault);
    queue, err := repo.GetQueueCount();
  }
}
