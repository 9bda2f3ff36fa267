/**
 * The MongoDB database as the application sees it: three collections, each a
 * map from document id to document, and the collection operations the
 * application issues, both as functions on a snapshot and as methods of the
 * `Store` object that the handlers update in place.
 */
module Store {
  import opened Common
  import opened Lists
  import opened EventModel
  import opened RsvpModel
  import opened UserModel

  datatype Db = Db(
    users: map<UserId, User>,
    events: map<EventId, Event>,
    rsvps: map<RsvpId, Rsvp>)

  /** What a handler answers, together with the database it leaves behind. */
  datatype Effect<R> = Effect(reply: R, db: Db)

  /** No RSVP refers to an event that is gone. */
  ghost predicate NoOrphanRsvps(db: Db)
  {
    forall k :: k in db.rsvps ==> db.rsvps[k].event in db.events
  }

  /** The `events` and `rsvps` lists of every user hold each id at most once. */
  ghost predicate ListsAreSets(users: map<UserId, User>)
  {
    forall u :: u in users ==> NoDuplicates(users[u].events) && NoDuplicates(users[u].rsvps)
  }

  /**
   * What every operation of the application keeps: the two unique indexes,
   * set-like id lists, and no RSVP left pointing at a deleted event.
   */
  ghost predicate Invariant(db: Db)
  {
    && UniquePairs(db.rsvps)
    && UniqueEmails(db.users)
    && ListsAreSets(db.users)
    && NoOrphanRsvps(db)
  }

  /** `id` occurs nowhere in the database: what a newly generated ObjectId guarantees. */
  ghost predicate Unused(db: Db, id: string)
  {
    && id !in db.users && id !in db.events && id !in db.rsvps
    && (forall u :: u in db.users ==> id !in db.users[u].events && id !in db.users[u].rsvps)
    && (forall k :: k in db.rsvps ==> db.rsvps[k].event != id && db.rsvps[k].user != id)
    && (forall e :: e in db.events ==> db.events[e].host != id)
  }

  /** A batch of newly generated ObjectIds: distinct and unused. */
  ghost predicate FreshIds(db: Db, ids: seq<string>)
  {
    NoDuplicates(ids) && forall i :: 0 <= i < |ids| ==> Unused(db, ids[i])
  }

  /** The ids of the events with `isSeed: true`: `Event.find({ isSeed: true }).distinct('_id')`. */
  function SeedIds(events: map<EventId, Event>): (s: set<EventId>)
    ensures forall k :: k in s <==> k in events && events[k].isSeed
  {
    set k | k in events && events[k].isSeed
  }

  /** `RSVP.deleteMany({ event: { $in: ids } })` */
  function RsvpsNotOf(rsvps: map<RsvpId, Rsvp>, ids: set<EventId>): (r: map<RsvpId, Rsvp>)
    ensures forall k :: k in r <==> k in rsvps && rsvps[k].event !in ids
    ensures forall k :: k in r ==> r[k] == rsvps[k]
  {
    map k | k in rsvps && rsvps[k].event !in ids :: rsvps[k]
  }

  /** `User.updateMany({}, { $pull: { events: { $in: ids } } })` */
  function PullEvents(users: map<UserId, User>, ids: set<EventId>): (r: map<UserId, User>)
    ensures r.Keys == users.Keys
    ensures forall u :: u in r ==> r[u] == users[u].(events := Pull(users[u].events, ids))
  {
    map u | u in users :: users[u].(events := Pull(users[u].events, ids))
  }

  /** `User.updateMany({}, { $set: { events: [], rsvps: [] } })` */
  function ClearLists(users: map<UserId, User>): (r: map<UserId, User>)
    ensures r.Keys == users.Keys
    ensures forall u :: u in r ==> r[u] == users[u].(events := [], rsvps := [])
  {
    map u | u in users :: users[u].(events := [], rsvps := [])
  }

  /** `User.findByIdAndUpdate(id, { $addToSet: { events: e } })`: no effect when there is no such user. */
  function AddEventToUser(users: map<UserId, User>, id: UserId, e: EventId): (r: map<UserId, User>)
    ensures r.Keys == users.Keys
    ensures forall u :: u in users && u != id ==> r[u] == users[u]
    ensures id in users ==> r[id] == users[id].(events := AddToSet(users[id].events, e))
  {
    if id in users then users[id := users[id].(events := AddToSet(users[id].events, e))] else users
  }

  /** `insertMany(docs)` with the generated ids `ids`, one document after the other. */
  function InsertAll(events: map<EventId, Event>, ids: seq<EventId>, docs: seq<Event>): (r: map<EventId, Event>)
    requires |ids| == |docs|
    ensures r.Keys == events.Keys + set k | k in ids
    decreases |ids|
  {
    if ids == [] then events else InsertAll(events[ids[0] := docs[0]], ids[1..], docs[1..])
  }

  /** Inserting under distinct new ids adds exactly those documents and keeps every other one. */
  lemma {:induction false} InsertAllContents(events: map<EventId, Event>, ids: seq<EventId>, docs: seq<Event>)
    requires |ids| == |docs| && NoDuplicates(ids)
    requires forall i :: 0 <= i < |ids| ==> ids[i] !in events
    ensures forall k :: k in InsertAll(events, ids, docs) <==> k in events || k in ids
    ensures forall k :: k in events ==> InsertAll(events, ids, docs)[k] == events[k]
    ensures forall i :: 0 <= i < |ids| ==> InsertAll(events, ids, docs)[ids[i]] == docs[i]
    decreases |ids|
  {
    if ids != [] {
      var e1 := events[ids[0] := docs[0]];
      assert NoDuplicates(ids[1..]);
      forall i | 0 <= i < |ids[1..]| ensures ids[1..][i] !in e1 {
        assert ids[1..][i] == ids[i + 1] != ids[0];
      }
      InsertAllContents(e1, ids[1..], docs[1..]);
      var r := InsertAll(events, ids, docs);
      assert ids == [ids[0]] + ids[1..];
      forall i | 0 <= i < |ids| ensures ids[i] in r && r[ids[i]] == docs[i] {
        if i > 0 {
          assert ids[1..][i - 1] == ids[i];
        } else {
          assert ids[0] in e1;
          assert ids[0] !in ids[1..] by {
            forall j | 0 <= j < |ids[1..]| ensures ids[1..][j] != ids[0] { assert ids[1..][j] == ids[j + 1]; }
          }
        }
      }
    }
  }

  /** The state of the database is held by one object that the handlers update in place. */
  class Store {
    var users: map<UserId, User>
    var events: map<EventId, Event>
    var rsvps: map<RsvpId, Rsvp>

    function Snapshot(): Db
      reads this
    {
      Db(users, events, rsvps)
    }

    ghost predicate Valid()
      reads this
    {
      Invariant(Snapshot())
    }

    constructor ()
      ensures Snapshot() == Db(map[], map[], map[])
      ensures Valid()
    {
      users, events, rsvps := map[], map[], map[];
    }

    /** `RSVP.deleteMany({})` */
    method DeleteAllRsvps()
      modifies this
      ensures Snapshot() == old(Snapshot()).(rsvps := map[])
    {
      rsvps := map[];
    }

    /** `RSVP.deleteMany({ event: { $in: ids } })` */
    method DeleteRsvpsOf(ids: set<EventId>)
      modifies this
      ensures Snapshot() == old(Snapshot()).(rsvps := RsvpsNotOf(old(rsvps), ids))
    {
      rsvps := RsvpsNotOf(rsvps, ids);
    }

    /** `Event.deleteMany({})` */
    method DeleteAllEvents()
      modifies this
      ensures Snapshot() == old(Snapshot()).(events := map[])
    {
      events := map[];
    }

    /** `Event.deleteMany({ _id: { $in: ids } })`, and `event.deleteOne()` for a single id. */
    method DeleteEvents(ids: set<EventId>)
      modifies this
      ensures Snapshot() == old(Snapshot()).(events := old(events) - ids)
    {
      events := events - ids;
    }

    /** `User.updateMany({}, { $pull: { events: { $in: ids } } })` */
    method PullEventsFromUsers(ids: set<EventId>)
      modifies this
      ensures Snapshot() == old(Snapshot()).(users := PullEvents(old(users), ids))
    {
      users := PullEvents(users, ids);
    }

    /** `User.updateMany({}, { $set: { events: [], rsvps: [] } })` */
    method ClearUserLists()
      modifies this
      ensures Snapshot() == old(Snapshot()).(users := ClearLists(old(users)))
    {
      users := ClearLists(users);
    }

    /** `Event.insertMany(docs)` once every document has passed validation. */
    method InsertEvents(ids: seq<EventId>, docs: seq<Event>)
      requires |ids| == |docs|
      modifies this
      ensures Snapshot() == old(Snapshot()).(events := InsertAll(old(events), ids, docs))
    {
      events := InsertAll(events, ids, docs);
    }

    /** `doc.save()` for an event document, new or existing. */
    method SaveEvent(id: EventId, e: Event)
      modifies this
      ensures Snapshot() == old(Snapshot()).(events := old(events)[id := e])
    {
      events := events[id := e];
    }

    /** `User.findByIdAndUpdate(id, { $addToSet: { events: e } })` */
    method AddToUserEvents(id: UserId, e: EventId)
      modifies this
      ensures Snapshot() == old(Snapshot()).(users := AddEventToUser(old(users), id, e))
    {
      users := AddEventToUser(users, id, e);
    }

    /** `doc.save()` for an RSVP document, new or existing. */
    method SaveRsvp(id: RsvpId, r: Rsvp)
      modifies this
      ensures Snapshot() == old(Snapshot()).(rsvps := old(rsvps)[id := r])
    {
      rsvps := rsvps[id := r];
    }

    /** `doc.save()` for a user document, new or existing. */
    method SaveUser(id: UserId, u: User)
      modifies this
      ensures Snapshot() == old(Snapshot()).(users := old(users)[id := u])
    {
      users := users[id := u];
    }
  }
}
