/**
 * The store-changing part of controllers/eventController.js: the form
 * validators, the image choice, createEvent, updateEvent, deleteEvent and
 * handleRSVP. Each handler is given twice: as a function from the database it
 * finds to the reply and the database it leaves (`...Effect`), and as a method
 * that performs the same store calls, in the source's order, on the `Store`.
 */
module EventController {
  import opened Common
  import opened Text
  import opened Lists
  import opened EventModel
  import opened RsvpModel
  import opened UserModel
  import opened Store

  const DefaultEventImage := "https://res.cloudinary.com/dplfrc9ol/image/upload/v1654531780/no_image.png"

  /** The form fields express-validator checks. */
  datatype Field = EventTitle | EventCategory | StartDate | EndDate | EventLocation | EventDescription

  /**
   * The submitted event form. A date is `None` when the field is empty or not
   * ISO 8601, otherwise the instant it denotes; `file` is the path of the
   * uploaded image, if one was uploaded.
   */
  datatype EventForm = EventForm(
    eventTitle: string,
    eventCategory: string,
    startDate: Option<Instant>,
    endDate: Option<Instant>,
    eventLocation: string,
    eventDescription: string,
    noImage: string,
    file: Option<string>)

  /** What a handler answers. `Invalid` and `MissingImage` are the two kinds of 400 that re-render the form. */
  datatype Reply =
    | Done
    | Recorded(rsvp: RsvpId, yesCount: nat)
    | Invalid(fields: set<Field>)
    | MissingImage
    | Fail(code: Code)

  /** isAfterToday: the date lies strictly after the current instant. */
  predicate IsAfterToday(date: Instant, now: Instant)
    ensures forall e: Event :: e.start == date && !e.isSeed ==> (IsAfterToday(date, now) <==> StartDateValid(e, now))
  {
    date > now
  }

  /** isEndDateAfterStartDate: false when the start date does not parse (an invalid Date compares false). */
  predicate IsEndDateAfterStartDate(end: Instant, start: Option<Instant>)
    ensures start.None? ==> !IsEndDateAfterStartDate(end, start)
    ensures forall e: Event :: start == Some(e.start) && e.end == end && !e.isSeed ==>
              (IsEndDateAfterStartDate(end, start) <==> EndDateValid(e))
  {
    start.Some? && end > start.value
  }

  /** Whether the validator chain of one field reports an error. */
  predicate FieldFails(f: EventForm, field: Field, now: Instant)
  {
    match field
    case EventTitle => Trim(f.eventTitle) == ""
    case EventCategory => ParseCategory(Trim(f.eventCategory)).None?
    case StartDate => f.startDate.None? || !IsAfterToday(f.startDate.value, now)
    case EndDate => f.endDate.None? || !IsEndDateAfterStartDate(f.endDate.value, f.startDate)
    case EventLocation => Trim(f.eventLocation) == ""
    case EventDescription => Trim(f.eventDescription) == ""
  }

  /** The fields whose validator chain reports at least one error; the form is accepted when there is none. */
  function FormErrors(f: EventForm, now: Instant): (errs: set<Field>)
    ensures forall field :: field in errs <==> FieldFails(f, field, now)
  {
    set field: Field | FieldFails(f, field, now)
  }

  /** What an accepted form guarantees: the required texts, a known category, and now < start < end. */
  lemma AcceptedForm(f: EventForm, now: Instant)
    requires FormErrors(f, now) == {}
    ensures && Trim(f.eventTitle) != "" && ParseCategory(Trim(f.eventCategory)).Some?
            && Trim(f.eventLocation) != "" && Trim(f.eventDescription) != ""
            && f.startDate.Some? && f.endDate.Some? && now < f.startDate.value < f.endDate.value
  {
    var errs := FormErrors(f, now);
    assert EventTitle !in errs && EventCategory !in errs && StartDate !in errs;
    assert EndDate !in errs && EventLocation !in errs && EventDescription !in errs;
  }

  /** The document handed to `new Event({...})`: the sanitized (trimmed) form values. */
  function FormDraft(f: EventForm, host: UserId, image: Option<string>, isSeed: Option<bool>): Draft
  {
    Draft(Trim(f.eventTitle), Trim(f.eventCategory), f.startDate, f.endDate,
          Trim(f.eventLocation), Trim(f.eventDescription), image, host, isSeed)
  }

  /**
   * A form the validators accept also passes the schema when it is saved, as
   * long as the host is a well-formed ObjectId: the schema's own date checks can
   * never reject what the form checks admitted.
   */
  lemma ValidFormPassesSchema(f: EventForm, now: Instant, host: UserId, image: Option<string>,
                              isSeed: Option<bool>, ext: Externals)
    requires && Trim(f.eventTitle) != "" && ParseCategory(Trim(f.eventCategory)).Some?
             && Trim(f.eventLocation) != "" && Trim(f.eventDescription) != ""
             && f.startDate.Some? && f.endDate.Some? && now < f.startDate.value < f.endDate.value
    ensures var r := EventModel.Validate(FormDraft(f, host, image, isSeed), now, ext);
            && (r.Some? <==> host != "" && ext.isValidObjectId(host))
            && (r.Some? ==> && r.value.title == Trim(f.eventTitle)
                            && CategoryName(r.value.category) == Trim(f.eventCategory)
                            && r.value.start == f.startDate.value && r.value.end == f.endDate.value
                            && r.value.location == Trim(f.eventLocation)
                            && r.value.details == Trim(f.eventDescription)
                            && r.value.image == image && r.value.host == host
                            && r.value.isSeed == (isSeed == Some(true)))
  {
    var d := FormDraft(f, host, image, isSeed);
    TrimIdempotent(f.eventTitle);
    TrimIdempotent(f.eventLocation);
    TrimIdempotent(f.eventDescription);
    assert FieldsValid(d, ext) <==> host != "" && ext.isValidObjectId(host);
    if FieldsValid(d, ext) {
      ValidateAccepts(d, now, ext);
    }
  }

  /** The image of a new event: the placeholder when "No Image" is ticked, else the upload; `None` rejects. */
  function CreateImage(noImage: string, file: Option<string>): (r: Option<string>)
    ensures noImage == "on" ==> r == Some(DefaultEventImage)
    ensures noImage != "on" && file.Some? && file.value != "" ==> r == file
    ensures r.None? <==> noImage != "on" && (file.None? || file.value == "")
  {
    if noImage == "on" then Some(DefaultEventImage)
    else if file.Some? && file.value != "" then file
    else None
  }

  /** The image after an update: the placeholder when "No Image" is ticked, else the upload, else the previous image. */
  function UpdatedImage(noImage: string, file: Option<string>, previous: Option<string>): (r: Option<string>)
    ensures noImage == "on" ==> r == Some(DefaultEventImage)
    ensures noImage != "on" && file.Some? && file.value != "" ==> r == file
    ensures noImage != "on" && (file.None? || file.value == "") ==> r == previous
  {
    if noImage == "on" then Some(DefaultEventImage)
    else if file.Some? && file.value != "" then file
    else previous
  }

  // ---------------------------------------------------------------------------
  // createEvent
  // ---------------------------------------------------------------------------

  /**
   * createEvent. A rejected request leaves the store as it was; an accepted one
   * stores a non-seed event hosted by the session user and set-adds its id to
   * that user's `events`.
   */
  function CreateEventEffect(db: Db, s: Session, f: EventForm, now: Instant, newId: EventId, ext: Externals)
    : (r: Effect<Reply>)
    requires Unused(db, newId)
    ensures r.reply != Done ==> r.db == db
    ensures !SignedIn(s) ==> r.reply == Fail(Unauthorized)
    ensures SignedIn(s) && FormErrors(f, now) != {} ==> r.reply == Invalid(FormErrors(f, now))
    ensures SignedIn(s) && FormErrors(f, now) == {} && CreateImage(f.noImage, f.file).None? ==>
              r.reply == MissingImage
    ensures r.reply == Done <==> && SignedIn(s) && FormErrors(f, now) == {}
                                 && CreateImage(f.noImage, f.file).Some?
                                 && ext.isValidObjectId(s.userId.value)
    ensures SignedIn(s) && FormErrors(f, now) == {} && CreateImage(f.noImage, f.file).Some?
              && !ext.isValidObjectId(s.userId.value) ==>
              r.reply == Fail(BadRequest)
    ensures r.reply == Done ==>
              && newId in r.db.events
              && r.db.events == db.events[newId := r.db.events[newId]]
              && r.db.rsvps == db.rsvps
              && r.db.users == AddEventToUser(db.users, s.userId.value, newId)
    ensures r.reply == Done ==>
              var e := r.db.events[newId];
              && e.host == s.userId.value && !e.isSeed
              && e.image == CreateImage(f.noImage, f.file)
              && e.title == Trim(f.eventTitle) && e.location == Trim(f.eventLocation)
              && e.details == Trim(f.eventDescription)
              && CategoryName(e.category) == Trim(f.eventCategory)
              && f.startDate == Some(e.start) && f.endDate == Some(e.end)
              && now < e.start < e.end
    ensures r.reply == Done && s.userId.value in db.users ==>
              Count(r.db.users[s.userId.value].events, newId) == 1
    ensures Invariant(db) ==> Invariant(r.db)
  {
    if !SignedIn(s) then Effect(Fail(Unauthorized), db)
    else if FormErrors(f, now) != {} then Effect(Invalid(FormErrors(f, now)), db)
    else if CreateImage(f.noImage, f.file).None? then Effect(MissingImage, db)
    else
      var host := s.userId.value;
      var image := CreateImage(f.noImage, f.file);
      AcceptedForm(f, now);
      ValidFormPassesSchema(f, now, host, image, None, ext);
      match EventModel.Validate(FormDraft(f, host, image, None), now, ext)
      case None => Effect(Fail(BadRequest), db)
      case Some(e) =>
        AddEventKeepsInvariant(db, host, newId, e);
        Effect(Done, db.(events := db.events[newId := e], users := AddEventToUser(db.users, host, newId)))
  }

  /** Storing a new event and set-adding its id to its host keeps the invariant. */
  lemma AddEventKeepsInvariant(db: Db, host: UserId, id: EventId, e: Event)
    requires Invariant(db) ==> id !in db.events
    ensures Invariant(db) ==>
              Invariant(db.(events := db.events[id := e], users := AddEventToUser(db.users, host, id)))
  {
    var db' := db.(events := db.events[id := e], users := AddEventToUser(db.users, host, id));
    if Invariant(db) {
      forall u | u in db'.users ensures NoDuplicates(db'.users[u].events) && NoDuplicates(db'.users[u].rsvps) {
        assert u in db.users;
      }
      forall u1, u2 | u1 in db'.users && u2 in db'.users && u1 != u2
        ensures db'.users[u1].email != db'.users[u2].email
      {
        assert u1 in db.users && u2 in db.users;
      }
    }
  }

  method CreateEvent(store: Store, s: Session, f: EventForm, now: Instant, newId: EventId, ext: Externals)
    returns (reply: Reply)
    requires Unused(store.Snapshot(), newId)
    modifies store
    ensures reply == CreateEventEffect(old(store.Snapshot()), s, f, now, newId, ext).reply
    ensures store.Snapshot() == CreateEventEffect(old(store.Snapshot()), s, f, now, newId, ext).db
  {
    if !SignedIn(s) {
      return Fail(Unauthorized);
    }
    var errors := FormErrors(f, now);
    if errors != {} {
      return Invalid(errors);
    }
    var eventImage := CreateImage(f.noImage, f.file);
    if eventImage.None? {
      return MissingImage;
    }
    var host := s.userId.value;
    var saved := EventModel.Validate(FormDraft(f, host, eventImage, None), now, ext);
    if saved.None? {
      return Fail(BadRequest);
    }
    store.SaveEvent(newId, saved.value);
    store.AddToUserEvents(host, newId);
    reply := Done;
  }

  // ---------------------------------------------------------------------------
  // updateEvent
  // ---------------------------------------------------------------------------

  /** The event after the handler assigns the form values (the image by UpdatedImage); host and isSeed stay. */
  function Assigned(e: Event, f: EventForm, ext: Externals, now: Instant): (r: Option<Event>)
    ensures r.Some? ==> && r.value.host == e.host && r.value.isSeed == e.isSeed
                        && r.value.image == UpdatedImage(f.noImage, f.file, e.image)
                        && r.value.title == Trim(f.eventTitle) && CategoryName(r.value.category) == Trim(f.eventCategory)
                        && f.startDate == Some(r.value.start) && f.endDate == Some(r.value.end)
  {
    TrimIdempotent(f.eventTitle);
    EventModel.Validate(FormDraft(f, e.host, UpdatedImage(f.noImage, f.file, e.image), Some(e.isSeed)), now, ext)
  }

  /**
   * updateEvent. The checks run in the order 400 (form), 400 (id), 404, 401;
   * only the host gets through, and a successful update rewrites the event's
   * own fields but never its host, its seed flag, or anything else in the store.
   */
  function UpdateEventEffect(db: Db, s: Session, id: string, f: EventForm, now: Instant, ext: Externals)
    : (r: Effect<Reply>)
    ensures r.reply != Done ==> r.db == db
    ensures FormErrors(f, now) != {} ==> r.reply == Invalid(FormErrors(f, now))
    ensures FormErrors(f, now) == {} && !ext.isValidObjectId(id) ==> r.reply == Fail(BadRequest)
    ensures FormErrors(f, now) == {} && ext.isValidObjectId(id) && id !in db.events ==>
              r.reply == Fail(NotFound)
    ensures FormErrors(f, now) == {} && ext.isValidObjectId(id) && id in db.events
              && !IsSessionUser(s, db.events[id].host) ==>
              r.reply == Fail(Unauthorized)
    ensures FormErrors(f, now) == {} && ext.isValidObjectId(id) && id in db.events
              && IsSessionUser(s, db.events[id].host) ==>
              (r.reply == Done || r.reply == Fail(ServerError))
    ensures FormErrors(f, now) == {} && ext.isValidObjectId(id) && id in db.events
              && IsSessionUser(s, db.events[id].host) && !ext.isValidObjectId(db.events[id].host) ==>
              r.reply == Fail(ServerError)
    ensures r.reply == Done ==>
              && FormErrors(f, now) == {} && id in db.events && IsSessionUser(s, db.events[id].host)
              && id in r.db.events
              && r.db == db.(events := db.events[id := r.db.events[id]])
    ensures r.reply == Done ==>
              var before, after := db.events[id], r.db.events[id];
              && after.host == before.host && after.isSeed == before.isSeed
              && after.image == UpdatedImage(f.noImage, f.file, before.image)
              && after.title == Trim(f.eventTitle) && after.location == Trim(f.eventLocation)
              && after.details == Trim(f.eventDescription)
              && CategoryName(after.category) == Trim(f.eventCategory)
              && f.startDate == Some(after.start) && f.endDate == Some(after.end)
              && now < after.start < after.end
    ensures Invariant(db) ==> Invariant(r.db)
  {
    if FormErrors(f, now) != {} then Effect(Invalid(FormErrors(f, now)), db)
    else if !ext.isValidObjectId(id) then Effect(Fail(BadRequest), db)
    else if id !in db.events then Effect(Fail(NotFound), db)
    else if !IsSessionUser(s, db.events[id].host) then Effect(Fail(Unauthorized), db)
    else
      var before := db.events[id];
      AcceptedForm(f, now);
      ValidFormPassesSchema(f, now, before.host, UpdatedImage(f.noImage, f.file, before.image),
                            Some(before.isSeed), ext);
      match Assigned(before, f, ext, now)
      case None => Effect(Fail(ServerError), db)
      case Some(after) => Effect(Done, db.(events := db.events[id := after]))
  }

  method UpdateEvent(store: Store, s: Session, id: string, f: EventForm, now: Instant, ext: Externals)
    returns (reply: Reply)
    modifies store
    ensures reply == UpdateEventEffect(old(store.Snapshot()), s, id, f, now, ext).reply
    ensures store.Snapshot() == UpdateEventEffect(old(store.Snapshot()), s, id, f, now, ext).db
  {
    var errors := FormErrors(f, now);
    if errors != {} {
      return Invalid(errors);
    }
    if !ext.isValidObjectId(id) {
      return Fail(BadRequest);
    }
    if id !in store.events {
      return Fail(NotFound);
    }
    var event := store.events[id];
    if !IsSessionUser(s, event.host) {
      return Fail(Unauthorized);
    }
    var saved := Assigned(event, f, ext, now);
    if saved.None? {
      return Fail(ServerError);
    }
    store.SaveEvent(id, saved.value);
    reply := Done;
  }

  // ---------------------------------------------------------------------------
  // deleteEvent
  // ---------------------------------------------------------------------------

  /**
   * deleteEvent. Rejections come in the order 400, 404, 401 and change nothing.
   * Otherwise the RSVPs of the event go first, then the event; RSVPs of other
   * events and every user (including the host's `events` list) are untouched.
   */
  function DeleteEventEffect(db: Db, s: Session, id: string, ext: Externals): (r: Effect<Reply>)
    ensures r.reply != Done ==> r.db == db
    ensures !ext.isValidObjectId(id) ==> r.reply == Fail(BadRequest)
    ensures ext.isValidObjectId(id) && id !in db.events ==> r.reply == Fail(NotFound)
    ensures ext.isValidObjectId(id) && id in db.events && !IsSessionUser(s, db.events[id].host) ==>
              r.reply == Fail(Unauthorized)
    ensures r.reply == Done <==> ext.isValidObjectId(id) && id in db.events && IsSessionUser(s, db.events[id].host)
    ensures r.reply == Done ==>
              && r.db.events == db.events - {id}
              && (forall k :: k in r.db.rsvps <==> k in db.rsvps && db.rsvps[k].event != id)
              && (forall k :: k in r.db.rsvps ==> r.db.rsvps[k] == db.rsvps[k])
              && r.db.users == db.users
    ensures Invariant(db) ==> Invariant(r.db)
  {
    if !ext.isValidObjectId(id) then Effect(Fail(BadRequest), db)
    else if id !in db.events then Effect(Fail(NotFound), db)
    else if !IsSessionUser(s, db.events[id].host) then Effect(Fail(Unauthorized), db)
    else
      var withoutRsvps := db.(rsvps := RsvpsNotOf(db.rsvps, {id}));
      Effect(Done, withoutRsvps.(events := withoutRsvps.events - {id}))
  }

  method DeleteEvent(store: Store, s: Session, id: string, ext: Externals) returns (reply: Reply)
    modifies store
    ensures reply == DeleteEventEffect(old(store.Snapshot()), s, id, ext).reply
    ensures store.Snapshot() == DeleteEventEffect(old(store.Snapshot()), s, id, ext).db
  {
    if !ext.isValidObjectId(id) {
      return Fail(BadRequest);
    }
    if id !in store.events {
      return Fail(NotFound);
    }
    if !IsSessionUser(s, store.events[id].host) {
      return Fail(Unauthorized);
    }
    store.DeleteRsvpsOf({id});
    store.DeleteEvents({id});
    reply := Done;
  }

  /**
   * Why the RSVPs go first: the state between the two deletions already keeps
   * the invariant, so an interruption there leaves no RSVP without its event.
   */
  lemma DeleteEventIntermediateState(db: Db, id: EventId)
    requires Invariant(db)
    ensures Invariant(db.(rsvps := RsvpsNotOf(db.rsvps, {id})))
  {
  }

  /** The opposite order would not be safe: removing an event that still has an RSVP orphans it. */
  lemma EventFirstOrphansRsvps(db: Db, id: EventId, k: RsvpId)
    requires k in db.rsvps && db.rsvps[k].event == id
    ensures !NoOrphanRsvps(db.(events := db.events - {id}))
  {
  }

  /**
   * The host's back-reference is left behind: after a successful delete the
   * host's `events` still names the event that no longer exists.
   */
  lemma DeleteLeavesHostReference(db: Db, s: Session, id: string, ext: Externals)
    requires DeleteEventEffect(db, s, id, ext).reply == Done
    requires s.userId.value in db.users && id in db.users[s.userId.value].events
    ensures var after := DeleteEventEffect(db, s, id, ext).db;
            id !in after.events && id in after.users[s.userId.value].events
  {
  }

  // ---------------------------------------------------------------------------
  // handleRSVP
  // ---------------------------------------------------------------------------

  /** The upsert `RSVP.findOneAndUpdate({ user, event }, { status }, { upsert: true })`: the RSVP's id and the new collection. */
  function Upsert(rsvps: map<RsvpId, Rsvp>, user: UserId, event: EventId, status: RsvpModel.Status, newId: RsvpId)
    : (r: (RsvpId, map<RsvpId, Rsvp>))
    requires UniquePairs(rsvps) && newId !in rsvps
    ensures r.0 in r.1 && r.1[r.0] == Rsvp(user, event, status)
    ensures r.1.Keys == rsvps.Keys + {r.0}
    ensures forall k :: k in rsvps && k != r.0 ==> r.1[k] == rsvps[k]
    ensures r.0 in rsvps <==> FindPair(rsvps, user, event).Some?
    ensures r.0 !in rsvps ==> r.0 == newId
    ensures forall k :: k in r.1 && r.1[k].user == user && r.1[k].event == event ==> k == r.0
    ensures UniquePairs(r.1)
  {
    match FindPair(rsvps, user, event)
    case Some(k) => (k, rsvps[k := rsvps[k].(status := status)])
    case None => (newId, rsvps[newId := Rsvp(user, event, status)])
  }

  /** Two sets that agree outside `x` differ in size only by whether each holds `x`. */
  lemma CardOutside<T>(a: set<T>, b: set<T>, x: T)
    requires a - {x} == b - {x}
    ensures |a| + (if x in b then 1 else 0) == |b| + (if x in a then 1 else 0)
  {
    if x in a { assert a == (a - {x}) + {x}; }
    if x in b { assert b == (b - {x}) + {x}; }
  }

  /** Writing one RSVP moves the YES count of an event by what the old and the new document contribute. */
  lemma YesCountAfterWrite(m: map<RsvpId, Rsvp>, id: RsvpId, v: Rsvp, e: EventId)
    ensures YesCount(m[id := v], e) + (if id in m && m[id].event == e && m[id].status == Yes then 1 else 0)
            == YesCount(m, e) + (if v.event == e && v.status == Yes then 1 else 0)
  {
    var m1 := m[id := v];
    var before := set k | k in m && m[k].event == e && m[k].status == Yes;
    var after := set k | k in m1 && m1[k].event == e && m1[k].status == Yes;
    assert after - {id} == before - {id};
    CardOutside(after, before, id);
  }

  /**
   * What the upsert does to the YES count handleRSVP reports: the event's count
   * loses the pair's previous YES, if there was one, and gains one for a YES
   * answer, and every other event's count stays as it was.
   */
  lemma UpsertYesCount(rsvps: map<RsvpId, Rsvp>, user: UserId, event: EventId, status: RsvpModel.Status,
                       newId: RsvpId, other: EventId)
    requires UniquePairs(rsvps) && newId !in rsvps
    ensures var up := Upsert(rsvps, user, event, status, newId);
            var was := if up.0 in rsvps && rsvps[up.0].status == Yes then 1 else 0;
            YesCount(up.1, event) + was == YesCount(rsvps, event) + (if status == Yes then 1 else 0)
    ensures other != event ==>
              YesCount(Upsert(rsvps, user, event, status, newId).1, other) == YesCount(rsvps, other)
  {
    var up := Upsert(rsvps, user, event, status, newId);
    var id, v := up.0, Rsvp(user, event, status);
    assert id in rsvps ==> rsvps[id].event == event by {
      match FindPair(rsvps, user, event)
      case Some(k) =>
      case None =>
    }
    assert up.1 == rsvps[id := v];
    YesCountAfterWrite(rsvps, id, v, event);
    YesCountAfterWrite(rsvps, id, v, other);
  }

  /** The user's `rsvps` after `if (user && !user.rsvps.includes(id)) { user.rsvps.push(id); user.save() }`. */
  function KeepRsvpReference(users: map<UserId, User>, user: UserId, id: RsvpId): (r: map<UserId, User>)
    ensures r.Keys == users.Keys
    ensures forall u :: u in users && u != user ==> r[u] == users[u]
    ensures user in users ==> r[user] == users[user].(rsvps := AddToSet(users[user].rsvps, id))
    ensures user in users && NoDuplicates(users[user].rsvps) ==> Count(r[user].rsvps, id) == 1
    ensures ListsAreSets(users) ==> ListsAreSets(r)
    ensures UniqueEmails(users) ==> UniqueEmails(r)
  {
    if user in users && id !in users[user].rsvps then
      var r := users[user := users[user].(rsvps := users[user].rsvps + [id])];
      assert ListsAreSets(users) ==> ListsAreSets(r) by {
        forall u | u in r ensures ListsAreSets(users) ==> NoDuplicates(r[u].events) && NoDuplicates(r[u].rsvps) {
          assert u in users;
        }
      }
      assert UniqueEmails(users) ==> UniqueEmails(r) by {
        forall u1, u2 | u1 in r && u2 in r && u1 != u2 ensures UniqueEmails(users) ==> r[u1].email != r[u2].email {
          assert u1 in users && u2 in users;
        }
      }
      r
    else
      assert user in users && NoDuplicates(users[user].rsvps) ==> Count(users[user].rsvps, id) == 1 by {
        if user in users && NoDuplicates(users[user].rsvps) {
          NoDuplicatesCount(users[user].rsvps, id);
        }
      }
      users
  }

  /**
   * The part of handleRSVP that writes: upsert the RSVP, then make sure the
   * user's `rsvps` lists it. Afterwards there is exactly one RSVP for (user,
   * event), with the submitted status, the user's `rsvps` lists its id exactly
   * once, and nothing else in the store changes.
   */
  function RecordRsvp(db: Db, user: UserId, eventId: EventId, st: RsvpModel.Status, newId: RsvpId)
    : (r: Effect<Reply>)
    requires Invariant(db) && Unused(db, newId) && eventId in db.events
    ensures r.reply.Recorded?
    ensures var id := r.reply.rsvp;
            && id in r.db.rsvps && r.db.rsvps[id] == Rsvp(user, eventId, st)
            && (forall k :: k in r.db.rsvps && r.db.rsvps[k].user == user && r.db.rsvps[k].event == eventId ==> k == id)
            && r.db.rsvps.Keys == db.rsvps.Keys + {id}
            && (forall k :: k in db.rsvps && k != id ==> r.db.rsvps[k] == db.rsvps[k])
            && (id !in db.rsvps ==> id == newId)
    ensures r.db.events == db.events
    ensures r.db.users.Keys == db.users.Keys
    ensures forall u :: u in db.users && u != user ==> r.db.users[u] == db.users[u]
    ensures user in db.users ==> && r.db.users[user] == db.users[user].(rsvps := r.db.users[user].rsvps)
                                 && Count(r.db.users[user].rsvps, r.reply.rsvp) == 1
    ensures r.reply.yesCount == YesCount(r.db.rsvps, eventId)
    ensures Invariant(r.db)
  {
    var up := Upsert(db.rsvps, user, eventId, st, newId);
    var db1 := Db(KeepRsvpReference(db.users, user, up.0), db.events, up.1);
    assert NoOrphanRsvps(db1) by {
      forall k | k in up.1 ensures up.1[k].event in db.events {
        if k != up.0 {
          assert k in db.rsvps;
        }
      }
    }
    assert user in db.users ==> NoDuplicates(db.users[user].rsvps);
    Effect(Recorded(up.0, YesCount(up.1, eventId)), db1)
  }

  /**
   * handleRSVP for the session user `user`. A bad status (400), an id that does
   * not cast (500), a missing event (404), the event's own host (401) and a
   * session user id that does not cast (500) are turned away in that order with
   * the store unchanged; everything else is recorded.
   */
  function HandleRsvpEffect(db: Db, user: UserId, eventId: string, status: string, newId: RsvpId, ext: Externals)
    : (r: Effect<Reply>)
    requires Invariant(db) && Unused(db, newId)
    ensures !r.reply.Recorded? ==> r.db == db
    ensures ParseStatus(status).None? ==> r.reply == Fail(BadRequest)
    ensures ParseStatus(status).Some? && !ext.isValidObjectId(eventId) ==> r.reply == Fail(ServerError)
    ensures ParseStatus(status).Some? && ext.isValidObjectId(eventId) && eventId !in db.events ==>
              r.reply == Fail(NotFound)
    ensures ParseStatus(status).Some? && ext.isValidObjectId(eventId) && eventId in db.events
              && db.events[eventId].host in db.users && db.events[eventId].host == user ==>
              r.reply == Fail(Unauthorized)
    ensures r.reply.Recorded? <==>
              && ParseStatus(status).Some? && ext.isValidObjectId(eventId) && eventId in db.events
              && !(db.events[eventId].host in db.users && db.events[eventId].host == user)
              && ext.isValidObjectId(user)
    ensures ParseStatus(status).Some? && ext.isValidObjectId(eventId) && eventId in db.events
              && !(db.events[eventId].host in db.users && db.events[eventId].host == user)
              && !ext.isValidObjectId(user) ==>
              r.reply == Fail(ServerError)
    ensures r.reply.Recorded? ==> r == RecordRsvp(db, user, eventId, ParseStatus(status).value, newId)
    ensures Invariant(r.db)
  {
    match ParseStatus(status)
    case None => Effect(Fail(BadRequest), db)
    case Some(st) =>
      if !ext.isValidObjectId(eventId) then Effect(Fail(ServerError), db)
      else if eventId !in db.events then Effect(Fail(NotFound), db)
      else if db.events[eventId].host in db.users && db.events[eventId].host == user then
        Effect(Fail(Unauthorized), db)
      else if !ext.isValidObjectId(user) then Effect(Fail(ServerError), db)
      else RecordRsvp(db, user, eventId, st, newId)
  }

  /** `RSVP.findOneAndUpdate({ user, event }, { status }, { upsert: true, new: true })` on the store. */
  method UpsertRsvp(store: Store, user: UserId, eventId: EventId, st: RsvpModel.Status, newId: RsvpId)
    returns (id: RsvpId)
    requires UniquePairs(store.rsvps) && newId !in store.rsvps
    modifies store
    ensures (id, store.rsvps) == Upsert(old(store.rsvps), user, eventId, st, newId)
    ensures store.users == old(store.users) && store.events == old(store.events)
  {
    var existing := FindPair(store.rsvps, user, eventId);
    if existing.Some? {
      id := existing.value;
      store.SaveRsvp(id, store.rsvps[id].(status := st));
    } else {
      id := newId;
      store.SaveRsvp(id, Rsvp(user, eventId, st));
    }
  }

  /** Loads the user, pushes the RSVP id when it is missing, and saves the user (the password is not re-hashed). */
  method MaintainUserRsvps(store: Store, user: UserId, id: RsvpId, ext: Externals)
    modifies store
    ensures store.users == KeepRsvpReference(old(store.users), user, id)
    ensures store.rsvps == old(store.rsvps) && store.events == old(store.events)
  {
    if user in store.users && id !in store.users[user].rsvps {
      var doc := new UserDocument.Load(store.users[user]);
      doc.PushRsvp(id);
      doc.Save("", ext);
      store.SaveUser(user, doc.user);
    }
  }

  method HandleRsvp(store: Store, user: UserId, eventId: string, status: string, newId: RsvpId, ext: Externals)
    returns (reply: Reply)
    requires store.Valid() && Unused(store.Snapshot(), newId)
    modifies store
    ensures reply == HandleRsvpEffect(old(store.Snapshot()), user, eventId, status, newId, ext).reply
    ensures store.Snapshot() == HandleRsvpEffect(old(store.Snapshot()), user, eventId, status, newId, ext).db
  {
    var st := ParseStatus(status);
    if st.None? {
      return Fail(BadRequest);
    }
    if !ext.isValidObjectId(eventId) {
      return Fail(ServerError);
    }
    if eventId !in store.events {
      return Fail(NotFound);
    }
    var host := store.events[eventId].host;
    if host in store.users && host == user {
      return Fail(Unauthorized);
    }
    if !ext.isValidObjectId(user) {
      return Fail(ServerError);
    }
    ghost var db := store.Snapshot();
    var id := UpsertRsvp(store, user, eventId, st.value, newId);
    MaintainUserRsvps(store, user, id, ext);
    assert store.Snapshot() == RecordRsvp(db, user, eventId, st.value, newId).db;
    reply := Recorded(id, YesCount(store.rsvps, eventId));
  }

  /**
   * Submitting again for the same (user, event) overwrites the status of the
   * one RSVP and does not grow the user's `rsvps`: the later submission wins.
   */
  lemma ResubmitOverwrites(db: Db, user: UserId, eventId: string, s1: string, s2: string,
                           id1: RsvpId, id2: RsvpId, ext: Externals)
    requires Invariant(db) && Unused(db, id1)
    requires HandleRsvpEffect(db, user, eventId, s1, id1, ext).reply.Recorded?
    requires Unused(HandleRsvpEffect(db, user, eventId, s1, id1, ext).db, id2)
    requires ParseStatus(s2).Some?
    ensures var first := HandleRsvpEffect(db, user, eventId, s1, id1, ext);
            var second := HandleRsvpEffect(first.db, user, eventId, s2, id2, ext);
            && second.reply.Recorded? && second.reply.rsvp == first.reply.rsvp
            && second.db.rsvps == first.db.rsvps[first.reply.rsvp := Rsvp(user, eventId, ParseStatus(s2).value)]
            && second.db.users == first.db.users
            && second.db.events == first.db.events
  {
    var first := HandleRsvpEffect(db, user, eventId, s1, id1, ext);
    var id := first.reply.rsvp;
    assert FindPair(first.db.rsvps, user, eventId) == Some(id);
    if user in first.db.users {
      assert id in first.db.users[user].rsvps by {
        NoDuplicatesCount(first.db.users[user].rsvps, id);
      }
    }
  }
}
