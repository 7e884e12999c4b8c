/**
 * The driver logic of the web command over the older store: the scheduled
 * fetch-and-upsert job, the (empty) clean-up job, the Basic-Auth credential
 * check and the decision made by the `PUT /rss/:id` handler. The feed
 * connector and the `strconv` parsers are oracles passed in as functions.
 */
module CmdServe {

  import opened Wrappers
  import opened Rss
  import opened Sql
  import opened CmdRoot

  // ---------------------------------------------------------------------------
  // validateBasicAuth
  // ---------------------------------------------------------------------------

  /** The credentials the web command is configured with. */
  datatype Credentials = Credentials(username: string, password: string)

  /** What the Basic-Auth validator returns: whether to let the request in,
      and an error (which it never reports). */
  datatype AuthResult = AuthResult(valid: bool, err: Option<string>)

  function ValidateBasicAuth(user: string, pass: string, config: Credentials): (r: AuthResult)
    ensures r.valid <==> user == config.username && pass == config.password
    ensures r.err == None
  {
    if user == config.username && pass == config.password then AuthResult(true, None)
    else AuthResult(false, None)
  }

  // ---------------------------------------------------------------------------
  // fetchRss
  // ---------------------------------------------------------------------------

  /** The feed the job upserts from one fetch: the fetched feed, or the zero
      feed that the connector returns together with its error. */
  function FeedOf(fetched: Option<RssFeed>): (f: RssFeed)
    ensures fetched.None? ==> f == ZeroFeed && f.entries == []
    ensures fetched.Some? ==> f == fetched.value
  {
    if fetched.Some? then fetched.value else ZeroFeed
  }

  /** The table after the job has visited `feeds` in order; `faults(i)` is
      what the store does with the upsert of the i-th feed. */
  function FetchAll(t: Table, feeds: seq<string>, fetch: string -> Option<RssFeed>, faults: nat -> Fault, now: int): (r: Table)
    ensures KeepsRows(t.rows, r.rows)
    ensures WellFormed(t) ==> WellFormed(r)
    decreases |feeds|
  {
    if feeds == [] then t
    else
      var n := |feeds| - 1;
      var es := FeedOf(fetch(feeds[n])).entries;
      UpsertAll(FetchAll(t, feeds[..n], fetch, faults, now), es[..Executed(|es|, faults(n))], now)
  }

  /** The store calls the job makes: one `SaveOrUpdateAll` per feed, in list
      order, whether or not the fetch failed. */
  function FetchCalls(feeds: seq<string>, fetch: string -> Option<RssFeed>): seq<StoreCall>
    decreases |feeds|
  {
    if feeds == [] then []
    else FetchCalls(feeds[..|feeds| - 1], fetch) + [SaveOrUpdateAllCall(FeedOf(fetch(feeds[|feeds| - 1])).entries)]
  }

  /** The i-th store call of the job is the upsert of the i-th feed. */
  lemma {:induction false} FetchCallsPerFeed(feeds: seq<string>, fetch: string -> Option<RssFeed>)
    ensures |FetchCalls(feeds, fetch)| == |feeds|
    ensures forall i :: 0 <= i < |feeds| ==>
      FetchCalls(feeds, fetch)[i] == SaveOrUpdateAllCall(FeedOf(fetch(feeds[i])).entries)
    decreases |feeds|
  {
    if feeds != [] {
      var n := |feeds| - 1;
      var init := feeds[..n];
      FetchCallsPerFeed(init, fetch);
      var done := FetchCalls(init, fetch);
      var last := SaveOrUpdateAllCall(FeedOf(fetch(feeds[n])).entries);
      assert FetchCalls(feeds, fetch) == done + [last];
      forall i | 0 <= i < |feeds|
        ensures FetchCalls(feeds, fetch)[i] == SaveOrUpdateAllCall(FeedOf(fetch(feeds[i])).entries)
      {
        if i < n {
          assert (done + [last])[i] == done[i];
          assert init[i] == feeds[i];
        }
      }
    }
  }

  /** All entries that the job applies, feed after feed: of each feed the
      prefix its upsert got through before failing (all of it when it did
      not fail). */
  function AppliedEntries(feeds: seq<string>, fetch: string -> Option<RssFeed>, faults: nat -> Fault): seq<RssEntry>
    decreases |feeds|
  {
    if feeds == [] then []
    else
      var n := |feeds| - 1;
      var es := FeedOf(fetch(feeds[n])).entries;
      AppliedEntries(feeds[..n], fetch, faults) + es[..Executed(|es|, faults(n))]
  }

  /** An error of one feed's upsert does not stop the job: the job's effect
      is one batch of everything applied, across all the feeds. */
  lemma {:induction false} FetchAllIsOneBatch(t: Table, feeds: seq<string>, fetch: string -> Option<RssFeed>, faults: nat -> Fault, now: int)
    ensures FetchAll(t, feeds, fetch, faults, now) == UpsertAll(t, AppliedEntries(feeds, fetch, faults), now)
    decreases |feeds|
  {
    if feeds != [] {
      var n := |feeds| - 1;
      var es := FeedOf(fetch(feeds[n])).entries;
      FetchAllIsOneBatch(t, feeds[..n], fetch, faults, now);
      UpsertAllConcat(t, AppliedEntries(feeds[..n], fetch, faults), es[..Executed(|es|, faults(n))], now);
    }
  }

  /** A feed whose fetch fails leaves the table as it was, and the job goes
      on with the next feed. */
  lemma FailedFetchSkipped(t: Table, feeds: seq<string>, i: nat, fetch: string -> Option<RssFeed>, faults: nat -> Fault, now: int)
    requires i < |feeds| && fetch(feeds[i]).None?
    ensures FetchAll(t, feeds[..i + 1], fetch, faults, now) == FetchAll(t, feeds[..i], fetch, faults, now)
    ensures FetchCalls(feeds[..i + 1], fetch) == FetchCalls(feeds[..i], fetch) + [SaveOrUpdateAllCall([])]
  {
    FetchStep(t, feeds, i, fetch, faults, now);
  }

  /** When every fetch fails, every upsert receives the empty entry list and
      the table is unchanged. */
  lemma {:induction false} FailedFetchesChangeNothing(t: Table, feeds: seq<string>, fetch: string -> Option<RssFeed>, faults: nat -> Fault, now: int)
    requires forall i :: 0 <= i < |feeds| ==> fetch(feeds[i]).None?
    ensures FetchAll(t, feeds, fetch, faults, now) == t
    decreases |feeds|
  {
    if feeds != [] {
      var n := |feeds| - 1;
      assert forall i :: 0 <= i < n ==> feeds[..n][i] == feeds[i];
      FailedFetchesChangeNothing(t, feeds[..n], fetch, faults, now);
    }
  }

  /** Every entry of every feed, in feed order. */
  function AllEntries(feeds: seq<string>, fetch: string -> Option<RssFeed>): seq<RssEntry>
    decreases |feeds|
  {
    if feeds == [] then []
    else AllEntries(feeds[..|feeds| - 1], fetch) + FeedOf(fetch(feeds[|feeds| - 1])).entries
  }

  /** When the store never fails, the job upserts every fetched entry, feed
      after feed and entry after entry. */
  lemma {:induction false} FetchAllWithoutFaults(t: Table, feeds: seq<string>, fetch: string -> Option<RssFeed>, faults: nat -> Fault, now: int)
    requires forall i :: 0 <= i < |feeds| ==> faults(i) == NoFault
    ensures FetchAll(t, feeds, fetch, faults, now) == UpsertAll(t, AllEntries(feeds, fetch), now)
  {
    AppliedIsAllWithoutFaults(feeds, fetch, faults);
    FetchAllIsOneBatch(t, feeds, fetch, faults, now);
  }

  lemma {:induction false} AppliedIsAllWithoutFaults(feeds: seq<string>, fetch: string -> Option<RssFeed>, faults: nat -> Fault)
    requires forall i :: 0 <= i < |feeds| ==> faults(i) == NoFault
    ensures AppliedEntries(feeds, fetch, faults) == AllEntries(feeds, fetch)
    decreases |feeds|
  {
    if feeds != [] {
      var n := |feeds| - 1;
      var es := FeedOf(fetch(feeds[n])).entries;
      AppliedIsAllWithoutFaults(feeds[..n], fetch, faults);
      assert es[..Executed(|es|, faults(n))] == es;
    }
  }

  /** One more feed visited: the table and the call log grow by that feed's upsert. */
  lemma FetchStep(t: Table, feeds: seq<string>, i: nat, fetch: string -> Option<RssFeed>, faults: nat -> Fault, now: int)
    requires i < |feeds|
    ensures var es := FeedOf(fetch(feeds[i])).entries;
      FetchAll(t, feeds[..i + 1], fetch, faults, now)
        == UpsertAll(FetchAll(t, feeds[..i], fetch, faults, now), es[..Executed(|es|, faults(i))], now)
    ensures FetchCalls(feeds[..i + 1], fetch) == FetchCalls(feeds[..i], fetch) + [SaveOrUpdateAllCall(FeedOf(fetch(feeds[i])).entries)]
  {
    assert feeds[..i + 1][..i] == feeds[..i];
  }

  /** Iteration `i` of the job: fetch `feeds[i]` and upsert what came back,
      extending the job's effect on the table and its log of store calls
      from the first `i` feeds to the first `i + 1`. */
  method FetchOne(repo: PgRssRepository, feeds: seq<string>, i: nat, fetch: string -> Option<RssFeed>, faults: nat -> Fault, now: int,
                  ghost start: Table, ghost log: seq<StoreCall>)
    requires i < |feeds| && repo.Valid()
    requires repo.Snapshot() == FetchAll(start, feeds[..i], fetch, faults, now)
    requires repo.calls == log + FetchCalls(feeds[..i], fetch)
    modifies repo
    ensures repo.Valid()
    ensures repo.Snapshot() == FetchAll(start, feeds[..i + 1], fetch, faults, now)
    ensures repo.calls == log + FetchCalls(feeds[..i + 1], fetch)
  {
    FetchStep(start, feeds, i, fetch, faults, now);
    var feed := FeedOf(fetch(feeds[i]));
    var _ := repo.SaveOrUpdateAll(feed.entries, now, faults(i));
  }

  /** The fetch job: for each configured feed in order, fetch it (logging a
      failure) and hand its entries to `SaveOrUpdateAll`, ignoring the error
      that call returns. */
  method FetchRss(repo: PgRssRepository, feeds: seq<string>, fetch: string -> Option<RssFeed>, faults: nat -> Fault, now: int)
    requires repo.Valid()
    modifies repo
    ensures repo.Valid()
    ensures repo.Snapshot() == FetchAll(old(repo.Snapshot()), feeds, fetch, faults, now)
    ensures repo.calls == old(repo.calls) + FetchCalls(feeds, fetch)
  {
    ghost var start := repo.Snapshot();
    ghost var log := repo.calls;
    assert feeds[..0] == [];
    var i := 0;
    while i < |feeds|
      invariant 0 <= i <= |feeds|
      invariant repo.Valid()
      invariant repo.Snapshot() == FetchAll(start, feeds[..i], fetch, faults, now)
      invariant repo.calls == log + FetchCalls(feeds[..i], fetch)
    {
      FetchOne(repo, feeds, i, fetch, faults, now, start, log);
      i := i + 1;
    }
    assert feeds[..|feeds|] == feeds;
  }

  /** The clean-up job does nothing: no store call, no change. */
  method CleanDb(repo: PgRssRepository)
    ensures repo.Snapshot() == old(repo.Snapshot()) && repo.calls == old(repo.calls)
  {
  }

  // ---------------------------------------------------------------------------
  // httpChangeViewedState
  // ---------------------------------------------------------------------------

  const StatusOK: int := 200
  const StatusBadRequest: int := 400

  /** The handler's answer: an HTML error page, the JSON status object, or
      the store's error handed back to the framework. */
  datatype Reply = Html(code: int, body: string) | Json(code: int, status: string) | HandlerError(err: StoreError)

  /** What the handler decides from its two parameters before touching the store. */
  datatype Decision = BadId(param: string) | BadViewed(param: string) | ChangeViewed(id: int, viewed: bool)

  /** The id is checked first, then `viewed`; only when both parse is the store called. */
  function Decide(idParam: string, viewedParam: string, atoi: string -> Option<int>, parseBool: string -> Option<bool>): (d: Decision)
    ensures d.BadId? <==> atoi(idParam).None?
    ensures d.BadViewed? <==> atoi(idParam).Some? && parseBool(viewedParam).None?
    ensures d.ChangeViewed? ==> d == ChangeViewed(atoi(idParam).value, parseBool(viewedParam).value)
    ensures d.BadId? ==> d.param == idParam
    ensures d.BadViewed? ==> d.param == viewedParam
  {
    match atoi(idParam)
    case None => BadId(idParam)
    case Some(id) =>
      match parseBool(viewedParam)
      case None => BadViewed(viewedParam)
      case Some(viewed) => ChangeViewed(id, viewed)
  }

  function BadIdMessage(param: string): string
  {
    "Invalid path parameter id of type int: '" + param + "'"
  }

  function BadViewedMessage(param: string): string
  {
    "Invalid query parameter 'viewed' of type bool: '" + param + "'"
  }

  /** `PUT /rss/:id?viewed=...`: a malformed id or flag is answered with 400
      and no store call; otherwise `UpdateViewedById` is called exactly once
      and its outcome decides the answer. */
  method HttpChangeViewedState(repo: PgRssRepository, idParam: string, viewedParam: string,
                               atoi: string -> Option<int>, parseBool: string -> Option<bool>, fault: Fault)
    returns (reply: Reply)
    requires repo.Valid()
    modifies repo
    ensures repo.Valid()
    ensures match Decide(idParam, viewedParam, atoi, parseBool)
      case BadId(p) =>
        reply == Html(StatusBadRequest, BadIdMessage(p)) && unchanged(repo)
      case BadViewed(p) =>
        reply == Html(StatusBadRequest, BadViewedMessage(p)) && unchanged(repo)
      case ChangeViewed(id, viewed) =>
        && repo.calls == old(repo.calls) + [UpdateViewedByIdCall(id, viewed)]
        && repo.nextId == old(repo.nextId)
        && (if Outcome(1, fault).None?
            then reply == Json(StatusOK, "OK") && repo.rows == SetViewed(old(repo.rows), id, viewed)
            else reply == HandlerError(Outcome(1, fault).value) && repo.rows == old(repo.rows))
  {
    match Decide(idParam, viewedParam, atoi, parseBool)
    case BadId(p) =>
      reply := Html(StatusBadRequest, BadIdMessage(p));
    case BadViewed(p) =>
      reply := Html(StatusBadRequest, BadViewedMessage(p));
    case ChangeViewed(id, viewed) =>
      var err := repo.UpdateViewedById(id, viewed, fault);
      if err.Some? {
        reply := HandlerError(err.value);
      } else {
        reply := Json(StatusOK, "OK");
      }
  }
}
