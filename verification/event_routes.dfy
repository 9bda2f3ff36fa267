/**
 * The store-changing event routes of routes/eventRoutes.js: each handler runs
 * only after the gates in front of it let the request through. A gate that
 * stops the request answers for it and leaves the store as it was.
 * `queryFails` stands for the gate's `Event.findById` rejecting.
 */
module EventRoutes {
  import opened Common
  import opened Lists
  import opened EventModel
  import opened RsvpModel
  import opened Store
  import opened Middlewares
  import opened EventController

  /** A request stopped by a gate, or the handler's reply. */
  datatype RouteReply = Stopped(gate: GateResult) | Handled(reply: Reply)

  /** `router.post('/', isAuthenticated, createEvent)` */
  function CreateRoute(db: Db, s: Session, f: EventForm, now: Instant, newId: EventId, ext: Externals)
    : (r: Effect<RouteReply>)
    requires Unused(db, newId)
    ensures r.reply.Stopped? <==> !SignedIn(s)
    ensures r.reply.Stopped? ==> r.db == db && r.reply.gate == Redirect(LoginPath)
    ensures r.reply.Handled? ==> Effect(r.reply.reply, r.db) == CreateEventEffect(db, s, f, now, newId, ext)
    ensures r.db != db ==> SignedIn(s) && r.db.events[newId].host == s.userId.value
    ensures Invariant(db) ==> Invariant(r.db)
  {
    if IsAuthenticated(s) != Next then Effect(Stopped(IsAuthenticated(s)), db)
    else
      var e := CreateEventEffect(db, s, f, now, newId, ext);
      Effect(Handled(e.reply), e.db)
  }

  /** `router.post('/:id', isAuthenticated, isHost, updateEvent)` */
  function UpdateRoute(db: Db, s: Session, id: string, f: EventForm, now: Instant, queryFails: bool, ext: Externals)
    : (r: Effect<RouteReply>)
    ensures r.reply.Stopped? <==> !SignedIn(s) || IsHost(s, id, db.events, queryFails, ext) != Next
    ensures r.reply.Stopped? ==> r.db == db
    ensures r.reply.Handled? ==> Effect(r.reply.reply, r.db) == UpdateEventEffect(db, s, id, f, now, ext)
    ensures r.db != db ==> id in db.events && IsSessionUser(s, db.events[id].host)
    ensures Invariant(db) ==> Invariant(r.db)
  {
    if IsAuthenticated(s) != Next then Effect(Stopped(IsAuthenticated(s)), db)
    else if IsHost(s, id, db.events, queryFails, ext) != Next then Effect(Stopped(IsHost(s, id, db.events, queryFails, ext)), db)
    else
      var e := UpdateEventEffect(db, s, id, f, now, ext);
      Effect(Handled(e.reply), e.db)
  }

  /** `router.delete('/:id', isAuthenticated, isHost, deleteEvent)` */
  function DeleteRoute(db: Db, s: Session, id: string, queryFails: bool, ext: Externals) : (r: Effect<RouteReply>)
    ensures r.reply.Stopped? <==> !SignedIn(s) || IsHost(s, id, db.events, queryFails, ext) != Next
    ensures r.reply.Stopped? ==> r.db == db
    ensures r.reply.Handled? ==> r.reply.reply == Done && r.db == DeleteEventEffect(db, s, id, ext).db
    ensures r.db != db ==> id in db.events && IsSessionUser(s, db.events[id].host)
    ensures Invariant(db) ==> Invariant(r.db)
  {
    if IsAuthenticated(s) != Next then Effect(Stopped(IsAuthenticated(s)), db)
    else if IsHost(s, id, db.events, queryFails, ext) != Next then Effect(Stopped(IsHost(s, id, db.events, queryFails, ext)), db)
    else
      var e := DeleteEventEffect(db, s, id, ext);
      Effect(Handled(e.reply), e.db)
  }

  /** `router.post('/:id/rsvp', isAuthenticated, isNotHost, handleRSVP)` */
  function RsvpRoute(db: Db, s: Session, id: string, status: string, newId: RsvpId, queryFails: bool, ext: Externals)
    : (r: Effect<RouteReply>)
    requires Invariant(db) && Unused(db, newId)
    ensures r.reply.Stopped? <==> !SignedIn(s) || IsNotHost(s, id, db.events, queryFails, ext) != Next
    ensures r.reply.Stopped? ==> r.db == db
    ensures r.reply.Handled? ==>
              Effect(r.reply.reply, r.db) == HandleRsvpEffect(db, s.userId.value, id, status, newId, ext)
    ensures r.reply.Handled? && r.reply.reply.Recorded? ==>
              id in db.events && db.events[id].host != s.userId.value
    ensures Invariant(r.db)
  {
    if IsAuthenticated(s) != Next then Effect(Stopped(IsAuthenticated(s)), db)
    else if IsNotHost(s, id, db.events, queryFails, ext) != Next then
      Effect(Stopped(IsNotHost(s, id, db.events, queryFails, ext)), db)
    else
      var e := HandleRsvpEffect(db, s.userId.value, id, status, newId, ext);
      Effect(Handled(e.reply), e.db)
  }

  /**
   * handleRSVP alone lets the host answer their own event when the host's user
   * document is gone; behind isNotHost that cannot happen.
   */
  lemma GateCoversHostlessEvents(db: Db, s: Session, id: string, status: string, newId: RsvpId, queryFails: bool,
                                 ext: Externals)
    requires Invariant(db) && Unused(db, newId)
    requires SignedIn(s) && id in db.events && db.events[id].host == s.userId.value && db.events[id].host !in db.users
    requires ParseStatus(status).Some? && ext.isValidObjectId(id) && ext.isValidObjectId(s.userId.value)
    ensures HandleRsvpEffect(db, s.userId.value, id, status, newId, ext).reply.Recorded?
    ensures RsvpRoute(db, s, id, status, newId, queryFails, ext).reply.Stopped?
    ensures RsvpRoute(db, s, id, status, newId, queryFails, ext).db == db
  {
  }

  /** For an existing event, the signed-in host may edit or delete it and may not answer it; anyone else the reverse. */
  lemma RoutesSplitByHost(db: Db, s: Session, id: string, f: EventForm, status: string, newId: RsvpId,
                          now: Instant, ext: Externals)
    requires Invariant(db) && Unused(db, newId)
    requires SignedIn(s) && ext.isValidObjectId(id) && id in db.events
    ensures DeleteRoute(db, s, id, false, ext).reply.Handled? <==> IsSessionUser(s, db.events[id].host)
    ensures UpdateRoute(db, s, id, f, now, false, ext).reply.Handled? <==> IsSessionUser(s, db.events[id].host)
    ensures RsvpRoute(db, s, id, status, newId, false, ext).reply.Handled? <==> !IsSessionUser(s, db.events[id].host)
  {
  }
}
