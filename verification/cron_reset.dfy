/**
 * The daily reset of api/cron/reset.js: `fullResetToDefaults`, which wipes all
 * events and RSVPs and empties every user's lists before inserting the seed
 * catalog, `refreshSeededDefaults`, which replaces only the seed events, and
 * the handler's secret, mode and configuration checks.
 *
 * The catalog (`loadDefaults()`) is an input: `None` when the seed file is
 * missing or unreadable, otherwise its entries. The ids that `insertMany`
 * generates are an input too.
 */
module CronReset {
  import opened Common
  import opened Text
  import opened Lists
  import opened EventModel
  import opened RsvpModel
  import opened UserModel
  import opened Store

  /** One entry of the seed catalog, reduced to the fields the Event schema keeps. */
  datatype Template = Template(
    title: string,
    category: string,
    start: Option<Instant>,
    end: Option<Instant>,
    location: string,
    details: string,
    image: Option<string>)

  datatype Mode = Refresh | Full

  datatype ResetError = HostUserIdNotSet | SeedFileMissing | InsertRejected

  /** What a reset function returns: its report, or the error it throws. */
  datatype Outcome = Report(mode: Mode, removed: Option<nat>, inserted: nat) | Failed(error: ResetError)

  /** `{ ...e, isSeed: true, host: hostUserId }` */
  function Tag(t: Template, host: UserId): (d: Draft)
    ensures d.isSeed == Some(true) && d.host == host
  {
    Draft(t.title, t.category, t.start, t.end, t.location, t.details, t.image, host, Some(true))
  }

  /** The ids of a batch, as a set. */
  function Ids(ids: seq<EventId>): (s: set<EventId>)
    ensures forall k :: k in s <==> k in ids
  {
    set k | k in ids
  }

  /**
   * Validation of every document by `insertMany`: all of them pass, and then
   * the documents are written, or one fails and none is.
   */
  function ValidateAll(catalog: seq<Template>, host: UserId, now: Instant, ext: Externals): (r: Option<seq<Event>>)
    ensures r.Some? <==> forall i :: 0 <= i < |catalog| ==> EventModel.Validate(Tag(catalog[i], host), now, ext).Some?
    ensures r.Some? ==> |r.value| == |catalog|
    ensures r.Some? ==> forall i :: 0 <= i < |catalog| ==> EventModel.Validate(Tag(catalog[i], host), now, ext) == Some(r.value[i])
    ensures r.Some? ==> forall i :: 0 <= i < |r.value| ==> r.value[i].isSeed && r.value[i].host == host
  {
    if catalog == [] then Some([])
    else
      var first := EventModel.Validate(Tag(catalog[0], host), now, ext);
      var rest := ValidateAll(catalog[1..], host, now, ext);
      if first.None? || rest.None? then
        assert !(forall i :: 0 <= i < |catalog| ==> EventModel.Validate(Tag(catalog[i], host), now, ext).Some?) by {
          if first.Some? {
            var j :| 0 <= j < |catalog[1..]| && EventModel.Validate(Tag(catalog[1..][j], host), now, ext).None?;
            assert catalog[1..][j] == catalog[j + 1];
          }
        }
        None
      else
        var docs := [first.value] + rest.value;
        assert forall i :: 0 <= i < |catalog| ==> EventModel.Validate(Tag(catalog[i], host), now, ext) == Some(docs[i]) by {
          forall i | 0 <= i < |catalog| ensures EventModel.Validate(Tag(catalog[i], host), now, ext) == Some(docs[i]) {
            if i > 0 {
              assert catalog[1..][i - 1] == catalog[i];
            }
          }
        }
        Some(docs)
  }

  /** The seed entries do not depend on the clock: seeds are exempt from both date validators. */
  lemma {:induction false} CatalogIgnoresClock(catalog: seq<Template>, host: UserId, now1: Instant, now2: Instant,
                                               ext: Externals)
    ensures ValidateAll(catalog, host, now1, ext) == ValidateAll(catalog, host, now2, ext)
  {
    if catalog != [] {
      var d := Tag(catalog[0], host);
      if FieldsValid(d, ext) {
        ValidateAccepts(d, now1, ext);
        ValidateAccepts(d, now2, ext);
      }
      CatalogIgnoresClock(catalog[1..], host, now1, now2, ext);
    }
  }

  /**
   * The insert phase, after the deletions: `loadDefaults()` throws when there is
   * no catalog, an empty catalog inserts nothing, and otherwise `insertMany`
   * writes every entry under its new id or, if one is invalid, none.
   */
  function InsertDefaults(events: map<EventId, Event>, catalog: Option<seq<Template>>, host: UserId,
                          ids: seq<EventId>, now: Instant, ext: Externals): (r: Option<map<EventId, Event>>)
    requires catalog.Some? ==> |ids| == |catalog.value|
    requires NoDuplicates(ids) && forall i :: 0 <= i < |ids| ==> ids[i] !in events
    ensures r.Some? <==> catalog.Some? && (catalog.value == [] || ValidateAll(catalog.value, host, now, ext).Some?)
    ensures r.Some? ==> forall k :: k in r.value <==> k in events || k in ids
    ensures r.Some? ==> forall k :: k in events ==> r.value[k] == events[k]
    ensures r.Some? ==> forall i :: 0 <= i < |ids| ==>
              ids[i] in r.value && EventModel.Validate(Tag(catalog.value[i], host), now, ext) == Some(r.value[ids[i]])
    ensures r.Some? ==> forall i :: 0 <= i < |ids| ==> r.value[ids[i]].isSeed && r.value[ids[i]].host == host
  {
    if catalog.None? then None
    else if catalog.value == [] then Some(events)
    else
      match ValidateAll(catalog.value, host, now, ext)
      case None => None
      case Some(docs) =>
        InsertAllContents(events, ids, docs);
        Some(InsertAll(events, ids, docs))
  }

  /** The error the insert phase throws. */
  function InsertError(catalog: Option<seq<Template>>): ResetError
  {
    if catalog.None? then SeedFileMissing else InsertRejected
  }

  // ---------------------------------------------------------------------------
  // fullResetToDefaults
  // ---------------------------------------------------------------------------

  /**
   * fullResetToDefaults. Whether or not the insert phase succeeds, afterwards
   * there is no RSVP and every user's `events` and `rsvps` are empty; on
   * success the events are exactly the catalog entries, each a seed hosted by
   * `host`, and the report counts the catalog.
   */
  function FullResetEffect(db: Db, catalog: Option<seq<Template>>, host: UserId, ids: seq<EventId>,
                           now: Instant, ext: Externals): (r: Effect<Outcome>)
    requires catalog.Some? ==> |ids| == |catalog.value|
    requires NoDuplicates(ids)
    ensures r.db.rsvps == map[]
    ensures r.db.users.Keys == db.users.Keys
    ensures forall u :: u in r.db.users ==> r.db.users[u] == db.users[u].(events := [], rsvps := [])
    ensures r.reply.Report? <==> catalog.Some? && (catalog.value == [] || ValidateAll(catalog.value, host, now, ext).Some?)
    ensures r.reply.Report? ==> r.reply == Report(Full, None, |catalog.value|)
    ensures r.reply.Failed? ==> r.reply.error == InsertError(catalog) && r.db.events == map[]
    ensures r.reply.Report? ==> forall k :: k in r.db.events <==> k in ids
    ensures r.reply.Report? ==> forall i :: 0 <= i < |ids| ==>
              EventModel.Validate(Tag(catalog.value[i], host), now, ext) == Some(r.db.events[ids[i]])
    ensures forall k :: k in r.db.events ==> r.db.events[k].isSeed && r.db.events[k].host == host
    ensures Invariant(db) ==> Invariant(r.db)
  {
    var cleared := Db(ClearLists(db.users), map[], map[]);
    assert Invariant(db) ==> Invariant(cleared) by {
      if Invariant(db) {
        forall u1, u2 | u1 in cleared.users && u2 in cleared.users && u1 != u2
          ensures cleared.users[u1].email != cleared.users[u2].email
        {
          assert u1 in db.users && u2 in db.users;
        }
      }
    }
    match InsertDefaults(cleared.events, catalog, host, ids, now, ext)
    case None => Effect(Failed(InsertError(catalog)), cleared)
    case Some(events) =>
      assert forall k :: k in events ==> k in ids;
      Effect(Report(Full, None, |catalog.value|), cleared.(events := events))
  }

  method FullResetToDefaults(store: Store, catalog: Option<seq<Template>>, host: UserId, ids: seq<EventId>,
                             now: Instant, ext: Externals) returns (outcome: Outcome)
    requires catalog.Some? ==> |ids| == |catalog.value|
    requires NoDuplicates(ids)
    modifies store
    ensures outcome == FullResetEffect(old(store.Snapshot()), catalog, host, ids, now, ext).reply
    ensures store.Snapshot() == FullResetEffect(old(store.Snapshot()), catalog, host, ids, now, ext).db
  {
    store.DeleteAllRsvps();
    store.DeleteAllEvents();
    store.ClearUserLists();
    var ok := LoadAndInsert(store, catalog, host, ids, now, ext);
    outcome := if ok then Report(Full, None, |catalog.value|) else Failed(InsertError(catalog));
  }

  /** `loadDefaults().map(...)`, then `if (defaults.length) await Event.insertMany(defaults)`, on the store. */
  method LoadAndInsert(store: Store, catalog: Option<seq<Template>>, host: UserId, ids: seq<EventId>,
                       now: Instant, ext: Externals) returns (ok: bool)
    requires catalog.Some? ==> |ids| == |catalog.value|
    requires NoDuplicates(ids) && forall i :: 0 <= i < |ids| ==> ids[i] !in store.events
    modifies store
    ensures ok == InsertDefaults(old(store.events), catalog, host, ids, now, ext).Some?
    ensures ok ==> store.events == InsertDefaults(old(store.events), catalog, host, ids, now, ext).value
    ensures !ok ==> store.events == old(store.events)
    ensures store.users == old(store.users) && store.rsvps == old(store.rsvps)
  {
    if catalog.None? {
      return false;
    }
    var defaults := catalog.value;
    if |defaults| > 0 {
      var docs := ValidateAll(defaults, host, now, ext);
      if docs.None? {
        return false;
      }
      store.InsertEvents(ids, docs.value);
    }
    ok := true;
  }

  /** Repeating a full reset with the same catalog leaves what one full reset leaves. */
  lemma FullResetIdempotent(db: Db, catalog: Option<seq<Template>>, host: UserId, ids1: seq<EventId>,
                            ids2: seq<EventId>, now: Instant, ext: Externals)
    requires catalog.Some? ==> |ids1| == |catalog.value| == |ids2|
    requires NoDuplicates(ids1) && NoDuplicates(ids2)
    ensures var once := FullResetEffect(db, catalog, host, ids2, now, ext);
            var twice := FullResetEffect(FullResetEffect(db, catalog, host, ids1, now, ext).db, catalog, host, ids2, now, ext);
            twice == once
  {
    var db1 := FullResetEffect(db, catalog, host, ids1, now, ext).db;
    assert ClearLists(db1.users) == ClearLists(db.users);
  }

  /**
   * Each step of the full reset, deleting RSVPs before events, leaves a store
   * that keeps the invariant, so an interrupted run orphans no RSVP.
   */
  lemma FullResetStepsKeepInvariant(db: Db)
    requires Invariant(db)
    ensures Invariant(db.(rsvps := map[]))
    ensures Invariant(db.(rsvps := map[], events := map[]))
    ensures Invariant(db.(rsvps := map[], events := map[], users := ClearLists(db.users)))
  {
    var last := db.(rsvps := map[], events := map[], users := ClearLists(db.users));
    forall u1, u2 | u1 in last.users && u2 in last.users && u1 != u2
      ensures last.users[u1].email != last.users[u2].email
    {
      assert u1 in db.users && u2 in db.users;
    }
  }

  // ---------------------------------------------------------------------------
  // refreshSeededDefaults
  // ---------------------------------------------------------------------------

  /** The deletion phase of the refresh: skipped when there is no seed event. */
  function Prune(db: Db, seeded: set<EventId>): (p: Db)
    ensures forall k :: k in p.events <==> k in db.events && k !in seeded
    ensures forall k :: k in p.events ==> p.events[k] == db.events[k]
    ensures forall k :: k in p.rsvps <==> k in db.rsvps && db.rsvps[k].event !in seeded
    ensures forall k :: k in p.rsvps ==> p.rsvps[k] == db.rsvps[k]
    ensures p.users.Keys == db.users.Keys
    ensures forall u :: u in p.users ==> p.users[u] == db.users[u].(events := Pull(db.users[u].events, seeded))
  {
    if seeded != {} then
      Db(PullEvents(db.users, seeded), db.events - seeded, RsvpsNotOf(db.rsvps, seeded))
    else
      assert forall u :: u in db.users ==> Pull(db.users[u].events, seeded) == db.users[u].events by {
        forall u | u in db.users ensures Pull(db.users[u].events, seeded) == db.users[u].events {
          PullAbsent(db.users[u].events, seeded);
        }
      }
      db
  }

  /** Pruning keeps the invariant: no RSVP is left for a removed event, and the lists stay sets. */
  lemma PruneKeepsInvariant(db: Db, seeded: set<EventId>)
    ensures Invariant(db) ==> Invariant(Prune(db, seeded))
  {
    var p := Prune(db, seeded);
    if !Invariant(db) {
      return;
    }
    forall u | u in p.users ensures NoDuplicates(p.users[u].events) && NoDuplicates(p.users[u].rsvps) {
      PullNoDuplicates(db.users[u].events, seeded);
    }
    forall u1, u2 | u1 in p.users && u2 in p.users && u1 != u2
      ensures p.users[u1].email != p.users[u2].email
    {
      assert u1 in db.users && u2 in db.users;
    }
  }

  /**
   * refreshSeededDefaults. Isolation: every non-seed event, every RSVP of an
   * event that is not a seed, and every user's `rsvps` stay as they were, and
   * users' `events` lose only the seed ids. Completeness: no prior seed event,
   * no RSVP of one, and no reference to one in a user's `events` survives. On
   * success the seed events are exactly the catalog under the new ids.
   */
  function RefreshEffect(db: Db, catalog: Option<seq<Template>>, host: UserId, ids: seq<EventId>,
                         now: Instant, ext: Externals): (r: Effect<Outcome>)
    requires catalog.Some? ==> |ids| == |catalog.value|
    requires FreshIds(db, ids)
    ensures forall k :: k in db.events && !db.events[k].isSeed ==> k in r.db.events && r.db.events[k] == db.events[k]
    ensures forall k :: k in db.rsvps && db.rsvps[k].event !in SeedIds(db.events) ==>
              k in r.db.rsvps && r.db.rsvps[k] == db.rsvps[k]
    ensures r.db.users.Keys == db.users.Keys
    ensures forall u :: u in r.db.users ==> r.db.users[u].rsvps == db.users[u].rsvps
    ensures forall u :: u in r.db.users ==>
              r.db.users[u] == db.users[u].(events := Pull(db.users[u].events, SeedIds(db.events)))
    ensures forall k :: k in r.db.events <==> (k in db.events && !db.events[k].isSeed) || (r.reply.Report? && k in ids)
    ensures forall k :: k in r.db.rsvps <==> k in db.rsvps && db.rsvps[k].event !in SeedIds(db.events)
    ensures forall u, k :: u in r.db.users && k in SeedIds(db.events) ==> k !in r.db.users[u].events
    ensures r.reply.Report? <==> catalog.Some? && (catalog.value == [] || ValidateAll(catalog.value, host, now, ext).Some?)
    ensures r.reply.Report? ==> r.reply == Report(Refresh, Some(|SeedIds(db.events)|), |catalog.value|)
    ensures r.reply.Failed? ==> r.reply.error == InsertError(catalog)
    ensures r.reply.Report? ==> forall i :: 0 <= i < |ids| ==>
              EventModel.Validate(Tag(catalog.value[i], host), now, ext) == Some(r.db.events[ids[i]])
    ensures r.reply.Report? ==> SeedIds(r.db.events) == Ids(ids)
    ensures Invariant(db) ==> Invariant(r.db)
  {
    var seeded := SeedIds(db.events);
    var pruned := Prune(db, seeded);
    PruneKeepsInvariant(db, seeded);
    assert forall u, k :: u in pruned.users && k in seeded ==> k !in pruned.users[u].events by {
      forall u | u in pruned.users {
        PullMembers(db.users[u].events, seeded);
      }
    }
    match InsertDefaults(pruned.events, catalog, host, ids, now, ext)
    case None => Effect(Failed(InsertError(catalog)), pruned)
    case Some(events) =>
      var after := pruned.(events := events);
      assert Invariant(pruned) ==> Invariant(after);
      Effect(Report(Refresh, Some(|seeded|), |catalog.value|), after)
  }

  method RefreshSeededDefaults(store: Store, catalog: Option<seq<Template>>, host: UserId, ids: seq<EventId>,
                               now: Instant, ext: Externals) returns (outcome: Outcome)
    requires catalog.Some? ==> |ids| == |catalog.value|
    requires FreshIds(store.Snapshot(), ids)
    modifies store
    ensures outcome == RefreshEffect(old(store.Snapshot()), catalog, host, ids, now, ext).reply
    ensures store.Snapshot() == RefreshEffect(old(store.Snapshot()), catalog, host, ids, now, ext).db
  {
    var seededIds := SeedIds(store.events);
    if seededIds != {} {
      store.DeleteRsvpsOf(seededIds);
      store.DeleteEvents(seededIds);
      store.PullEventsFromUsers(seededIds);
    }
    var ok := LoadAndInsert(store, catalog, host, ids, now, ext);
    outcome := if ok then Report(Refresh, Some(|seededIds|), |catalog.value|) else Failed(InsertError(catalog));
  }

  /**
   * Each step of the refresh, in the order RSVPs, events, users, leaves a store
   * that keeps the invariant, so an interrupted run orphans no RSVP.
   */
  lemma RefreshStepsKeepInvariant(db: Db)
    requires Invariant(db)
    ensures var s := SeedIds(db.events);
            && Invariant(db.(rsvps := RsvpsNotOf(db.rsvps, s)))
            && Invariant(db.(rsvps := RsvpsNotOf(db.rsvps, s), events := db.events - s))
  {
  }

  /** Deleting the seed events before their RSVPs would leave an RSVP without its event. */
  lemma RefreshEventsFirstOrphans(db: Db, k: RsvpId)
    requires k in db.rsvps && db.rsvps[k].event in SeedIds(db.events)
    ensures !NoOrphanRsvps(db.(events := db.events - SeedIds(db.events)))
  {
  }

  /**
   * The refresh removes the RSVPs of seed events but not their ids in users'
   * `rsvps`: a user who answered a seed event keeps a dangling reference.
   */
  lemma RefreshLeavesRsvpReferences(db: Db, catalog: Option<seq<Template>>, host: UserId, ids: seq<EventId>,
                                    now: Instant, ext: Externals, u: UserId, k: RsvpId)
    requires catalog.Some? ==> |ids| == |catalog.value|
    requires FreshIds(db, ids)
    requires u in db.users && k in db.users[u].rsvps
    requires k in db.rsvps && db.rsvps[k].event in db.events && db.events[db.rsvps[k].event].isSeed
    ensures var after := RefreshEffect(db, catalog, host, ids, now, ext).db;
            k !in after.rsvps && u in after.users && k in after.users[u].rsvps
  {
  }

  /** After a refresh, the seed events are the ones it inserted, or none if its insert phase failed. */
  lemma SeedsAfterRefresh(db: Db, catalog: Option<seq<Template>>, host: UserId, ids: seq<EventId>,
                          now: Instant, ext: Externals)
    requires catalog.Some? ==> |ids| == |catalog.value|
    requires FreshIds(db, ids)
    ensures var r := RefreshEffect(db, catalog, host, ids, now, ext);
            SeedIds(r.db.events) == if r.reply.Report? then Ids(ids) else {}
  {
  }

  /** Fresh ids are referenced by no RSVP and listed in no user's `events`. */
  lemma FreshIdsUnreferenced(db: Db, ids: seq<EventId>)
    requires FreshIds(db, ids)
    ensures forall k :: k in db.rsvps ==> db.rsvps[k].event !in ids
    ensures forall u, y :: u in db.users && y in db.users[u].events ==> y !in ids
  {
    forall k, i | k in db.rsvps && 0 <= i < |ids| ensures db.rsvps[k].event != ids[i] {
      assert Unused(db, ids[i]);
    }
    forall u, i | u in db.users && 0 <= i < |ids| ensures ids[i] !in db.users[u].events {
      assert Unused(db, ids[i]);
    }
  }

  /** Pruning ids that no RSVP and no user references only removes those events. */
  lemma PruneUnreferenced(d: Db, s: set<EventId>)
    requires forall k :: k in d.rsvps ==> d.rsvps[k].event !in s
    requires forall u, y :: u in d.users && y in d.users[u].events ==> y !in s
    ensures Prune(d, s) == d.(events := d.events - s)
  {
    var p := Prune(d, s);
    assert p.rsvps == d.rsvps;
    forall u | u in d.users ensures Pull(d.users[u].events, s) == d.users[u].events {
      PullAbsent(d.users[u].events, s);
    }
    assert p.users == d.users;
  }

  /**
   * A database that differs from a pruned one only by seed events added under
   * fresh ids prunes back to the pruned one.
   */
  lemma PruneAfterInsert(db: Db, db1: Db, ids: seq<EventId>)
    requires FreshIds(db, ids)
    requires db1.rsvps == Prune(db, SeedIds(db.events)).rsvps
    requires db1.users == Prune(db, SeedIds(db.events)).users
    requires forall k :: k in db1.events && k !in ids <==> k in Prune(db, SeedIds(db.events)).events
    requires forall k :: k in Prune(db, SeedIds(db.events)).events ==> db1.events[k] == db.events[k]
    requires forall k :: k in db1.events ==> (db1.events[k].isSeed <==> k in ids)
    ensures Prune(db1, SeedIds(db1.events)) == Prune(db, SeedIds(db.events))
  {
    var p0 := Prune(db, SeedIds(db.events));
    var s1 := SeedIds(db1.events);
    FreshIdsUnreferenced(db, ids);
    forall u, y | u in db1.users && y in db1.users[u].events ensures y !in s1 {
      PullMembers(db.users[u].events, SeedIds(db.events));
    }
    PruneUnreferenced(db1, s1);
    assert db1.events - s1 == p0.events;
  }

  /**
   * Pruning the result of a refresh again removes exactly what that refresh
   * inserted: its new ids carry no RSVP and appear in no user's `events`.
   */
  lemma PruneUndoesRefresh(db: Db, catalog: Option<seq<Template>>, host: UserId, ids: seq<EventId>,
                           now: Instant, ext: Externals)
    requires catalog.Some? ==> |ids| == |catalog.value|
    requires FreshIds(db, ids)
    ensures var db1 := RefreshEffect(db, catalog, host, ids, now, ext).db;
            Prune(db1, SeedIds(db1.events)) == Prune(db, SeedIds(db.events))
  {
    var db1 := RefreshEffect(db, catalog, host, ids, now, ext).db;
    SeedsAfterRefresh(db, catalog, host, ids, now, ext);
    PruneAfterInsert(db, db1, ids);
  }

  /**
   * Refreshing twice with the same catalog leaves exactly what refreshing once
   * leaves (with the second run's ids): the second run removes precisely the
   * seeds the first one inserted, and they carry no RSVP and no user reference.
   */
  lemma RefreshIdempotent(db: Db, catalog: Option<seq<Template>>, host: UserId, ids1: seq<EventId>,
                          ids2: seq<EventId>, now: Instant, ext: Externals)
    requires catalog.Some? ==> |ids1| == |catalog.value| == |ids2|
    requires FreshIds(db, ids1) && FreshIds(db, ids2)
    requires FreshIds(RefreshEffect(db, catalog, host, ids1, now, ext).db, ids2)
    ensures var once := RefreshEffect(db, catalog, host, ids2, now, ext);
            var twice := RefreshEffect(RefreshEffect(db, catalog, host, ids1, now, ext).db, catalog, host, ids2, now, ext);
            twice.db == once.db && twice.reply.Report? == once.reply.Report?
  {
    PruneUndoesRefresh(db, catalog, host, ids1, now, ext);
  }

  // ---------------------------------------------------------------------------
  // The handler
  // ---------------------------------------------------------------------------

  /**
   * The parts of the request the handler reads: `req.query.secret`, the
   * `x-cron-secret` header, and whether an `x-vercel-cron` header is present.
   */
  datatype CronRequest = CronRequest(querySecret: Option<string>, headerSecret: Option<string>, fromVercelCron: bool)

  /** `CRON_SECRET`, `RESET_MODE` and `HOST_USER_ID`; `None` when unset. */
  datatype Env = Env(cronSecret: Option<string>, resetMode: Option<string>, hostUserId: Option<string>)

  /** 401 `Unauthorized`, 200 with the time and the report, or 500 with the error thrown. */
  datatype Response = Refused | Ok(at: Instant, outcome: Outcome) | Error(error: ResetError)
  {
    function StatusCode(): int
    {
      match this
      case Refused => 401
      case Ok(_, _) => 200
      case Error(_) => 500
    }
  }

  /** A JavaScript string value that is truthy: defined and not empty. */
  predicate Truthy(s: Option<string>)
  {
    s.Some? && s.value != ""
  }

  /** `req.query.secret || req.headers['x-cron-secret']` */
  function Provided(req: CronRequest): (p: Option<string>)
    ensures Truthy(req.querySecret) ==> p == req.querySecret
    ensures !Truthy(req.querySecret) ==> p == req.headerSecret
  {
    if Truthy(req.querySecret) then req.querySecret else req.headerSecret
  }

  /** A call from the platform's scheduler, or one carrying the configured secret. */
  predicate Authorized(req: CronRequest, env: Env)
    ensures Authorized(req, env) && !req.fromVercelCron ==> Truthy(env.cronSecret)
    ensures Truthy(req.querySecret) && req.querySecret != env.cronSecret ==>
              (Authorized(req, env) <==> req.fromVercelCron)
  {
    req.fromVercelCron || (Truthy(Provided(req)) && Provided(req) == env.cronSecret)
  }

  /** `(RESET_MODE || 'refresh').toLowerCase() === 'full'` picks the full reset; anything else refreshes. */
  function SelectedMode(env: Env): (m: Mode)
    ensures m == Full ==> Truthy(env.resetMode) && |env.resetMode.value| == 4
    ensures m == Full <==> Truthy(env.resetMode) && Lower(env.resetMode.value) == "full"
  {
    if Lower(if Truthy(env.resetMode) then env.resetMode.value else "refresh") == "full" then Full else Refresh
  }

  /** The 200 reply for a report, the 500 reply for an error the reset threw. */
  function Respond(o: Outcome, now: Instant): (r: Response)
    ensures r.Ok? <==> o.Report?
    ensures r.Ok? ==> r == Ok(now, o)
    ensures r.Error? ==> r.error == o.error
  {
    match o
    case Report(_, _, _) => Ok(now, o)
    case Failed(e) => Error(e)
  }

  /**
   * The handler. An unauthorized call and a missing `HOST_USER_ID` change
   * nothing; otherwise the selected reset runs, and its outcome is reported with
   * status 200 or, when it throws, 500.
   */
  function ResetEffect(db: Db, req: CronRequest, env: Env, catalog: Option<seq<Template>>, ids: seq<EventId>,
                       now: Instant, ext: Externals): (r: Effect<Response>)
    requires catalog.Some? ==> |ids| == |catalog.value|
    requires FreshIds(db, ids)
    ensures r.reply == Refused <==> !Authorized(req, env)
    ensures r.reply == Error(HostUserIdNotSet) <==> Authorized(req, env) && !Truthy(env.hostUserId)
    ensures r.reply == Refused || r.reply == Error(HostUserIdNotSet) ==> r.db == db
    ensures Authorized(req, env) && Truthy(env.hostUserId) && SelectedMode(env) == Full ==>
              var e := FullResetEffect(db, catalog, env.hostUserId.value, ids, now, ext);
              r.db == e.db && r.reply == Respond(e.reply, now)
    ensures Authorized(req, env) && Truthy(env.hostUserId) && SelectedMode(env) == Refresh ==>
              var e := RefreshEffect(db, catalog, env.hostUserId.value, ids, now, ext);
              r.db == e.db && r.reply == Respond(e.reply, now)
    ensures r.reply.Ok? ==> r.reply.at == now && r.reply.outcome.mode == SelectedMode(env)
    ensures Invariant(db) ==> Invariant(r.db)
  {
    if !Authorized(req, env) then Effect(Refused, db)
    else if !Truthy(env.hostUserId) then Effect(Error(HostUserIdNotSet), db)
    else
      var host := env.hostUserId.value;
      assert NoDuplicates(ids);
      var e := if SelectedMode(env) == Full then FullResetEffect(db, catalog, host, ids, now, ext)
               else RefreshEffect(db, catalog, host, ids, now, ext);
      Effect(Respond(e.reply, now), e.db)
  }

  method HandleReset(store: Store, req: CronRequest, env: Env, catalog: Option<seq<Template>>, ids: seq<EventId>,
                     now: Instant, ext: Externals) returns (response: Response)
    requires catalog.Some? ==> |ids| == |catalog.value|
    requires FreshIds(store.Snapshot(), ids)
    modifies store
    ensures response == ResetEffect(old(store.Snapshot()), req, env, catalog, ids, now, ext).reply
    ensures store.Snapshot() == ResetEffect(old(store.Snapshot()), req, env, catalog, ids, now, ext).db
  {
    var provided := if Truthy(req.querySecret) then req.querySecret else req.headerSecret;
    if !req.fromVercelCron {
      if !Truthy(provided) || provided != env.cronSecret {
        return Refused;
      }
    }
    var mode := Lower(if Truthy(env.resetMode) then env.resetMode.value else "refresh");
    var hostUserId := if env.hostUserId.Some? then env.hostUserId.value else "";
    if hostUserId == "" {
      return Error(HostUserIdNotSet);
    }
    var outcome;
    if mode == "full" {
      outcome := FullResetToDefaults(store, catalog, hostUserId, ids, now, ext);
    } else {
      outcome := RefreshSeededDefaults(store, catalog, hostUserId, ids, now, ext);
    }
    response := Respond(outcome, now);
  }

  /** With `CRON_SECRET` unset, only the scheduler's own calls get through. */
  lemma UnsetSecretLocksOut(req: CronRequest, env: Env)
    requires env.cronSecret.None? || env.cronSecret == Some("")
    ensures Authorized(req, env) <==> req.fromVercelCron
  {
  }

  /** The query secret takes precedence: a wrong one is refused even alongside the right header. */
  lemma QuerySecretTakesPrecedence(req: CronRequest, env: Env)
    requires !req.fromVercelCron && Truthy(req.querySecret) && req.querySecret != env.cronSecret
    ensures !Authorized(req, env)
  {
  }

  /** `RESET_MODE` is read case-insensitively and defaults to the refresh. */
  lemma ModeSelection(secret: Option<string>, host: Option<string>)
    ensures SelectedMode(Env(secret, None, host)) == Refresh
    ensures SelectedMode(Env(secret, Some(""), host)) == Refresh
    ensures SelectedMode(Env(secret, Some("FULL"), host)) == Full
    ensures SelectedMode(Env(secret, Some("Full"), host)) == Full
    ensures SelectedMode(Env(secret, Some("refresh"), host)) == Refresh
  {
    assert Lower("FULL") == "full";
    assert Lower("Full") == "full";
  }
}
