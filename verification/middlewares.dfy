/**
 * The four request gates of middlewares.js. Each one reads the session and, for
 * the two host gates, looks the event up; none of them changes the store. A gate
 * either lets the request through (`Next`), redirects, or ends it with a status.
 */
module Middlewares {
  import opened Common
  import opened EventModel

  datatype GateResult = Next | Redirect(location: string) | Halt(code: Code)

  const LoginPath := "/user/login"
  const ProfilePath := "/user/profile"

  /** isAuthenticated: only a signed-in session passes; anyone else is sent to the login page. */
  function IsAuthenticated(s: Session): (g: GateResult)
    ensures g == Next <==> SignedIn(s)
    ensures g != Next ==> g == Redirect(LoginPath)
  {
    if SignedIn(s) then Next else Redirect(LoginPath)
  }

  /** isGuest: only a session without a user passes; a signed-in user is sent to the profile page. */
  function IsGuest(s: Session): (g: GateResult)
    ensures g == Next <==> !SignedIn(s)
    ensures g != Next ==> g == Redirect(ProfilePath)
  {
    if !SignedIn(s) then Next else Redirect(ProfilePath)
  }

  /**
   * isHost. `queryFails` stands for `Event.findById` rejecting (a store
   * failure); `events` is the collection it reads.
   */
  function IsHost(s: Session, id: string, events: map<EventId, Event>, queryFails: bool, ext: Externals)
    : (g: GateResult)
    ensures g == Halt(BadRequest) <==> !ext.isValidObjectId(id)
    ensures g == Halt(ServerError) <==> ext.isValidObjectId(id) && queryFails
    ensures g == Halt(NotFound) <==> ext.isValidObjectId(id) && !queryFails && id !in events
    ensures g == Halt(Unauthorized) <==>
              ext.isValidObjectId(id) && !queryFails && id in events && !IsSessionUser(s, events[id].host)
    ensures g == Next <==>
              ext.isValidObjectId(id) && !queryFails && id in events && IsSessionUser(s, events[id].host)
    ensures g.Halt? || g == Next
  {
    if !ext.isValidObjectId(id) then Halt(BadRequest)
    else if queryFails then Halt(ServerError)
    else if id !in events then Halt(NotFound)
    else if !IsSessionUser(s, events[id].host) then Halt(Unauthorized)
    else Next
  }

  /** isNotHost: the same lookup as isHost, but it is the host who is turned away. */
  function IsNotHost(s: Session, id: string, events: map<EventId, Event>, queryFails: bool, ext: Externals)
    : (g: GateResult)
    ensures g == Halt(BadRequest) <==> !ext.isValidObjectId(id)
    ensures g == Halt(ServerError) <==> ext.isValidObjectId(id) && queryFails
    ensures g == Halt(NotFound) <==> ext.isValidObjectId(id) && !queryFails && id !in events
    ensures g == Halt(Unauthorized) <==>
              ext.isValidObjectId(id) && !queryFails && id in events && IsSessionUser(s, events[id].host)
    ensures g == Next <==>
              ext.isValidObjectId(id) && !queryFails && id in events && !IsSessionUser(s, events[id].host)
    ensures g.Halt? || g == Next
  {
    if !ext.isValidObjectId(id) then Halt(BadRequest)
    else if queryFails then Halt(ServerError)
    else if id !in events then Halt(NotFound)
    else if IsSessionUser(s, events[id].host) then Halt(Unauthorized)
    else Next
  }

  /** A session is exactly one of signed in and guest. */
  lemma AuthenticatedXorGuest(s: Session)
    ensures (IsAuthenticated(s) == Next) != (IsGuest(s) == Next)
  {
  }

  /**
   * For a well-formed id of an event that could be read, exactly one of the two
   * host gates lets the session through; otherwise both stop it the same way.
   */
  lemma HostGatesComplementary(s: Session, id: string, events: map<EventId, Event>, queryFails: bool,
                               ext: Externals)
    ensures ext.isValidObjectId(id) && !queryFails && id in events ==>
              (IsHost(s, id, events, queryFails, ext) == Next) != (IsNotHost(s, id, events, queryFails, ext) == Next)
    ensures !(ext.isValidObjectId(id) && !queryFails && id in events) ==>
              IsHost(s, id, events, queryFails, ext) == IsNotHost(s, id, events, queryFails, ext) != Next
  {
  }

  /** A gate's verdict depends on the looked-up event only through its host. */
  lemma HostGatesReadOnlyTheHost(s: Session, id: string, events: map<EventId, Event>, e: Event,
                                 queryFails: bool, ext: Externals)
    requires id in events && e.host == events[id].host
    ensures IsHost(s, id, events[id := e], queryFails, ext) == IsHost(s, id, events, queryFails, ext)
    ensures IsNotHost(s, id, events[id := e], queryFails, ext) == IsNotHost(s, id, events, queryFails, ext)
  {
  }
}
