/**
 * The RSVP schema (models/rsvp.js): the status enum, the two required
 * references and the unique compound index on (user, event).
 */
module RsvpModel {
  import opened Common

  datatype Status = Yes | No | Maybe

  function StatusName(s: Status): string
  {
    match s
    case Yes => "YES"
    case No => "NO"
    case Maybe => "MAYBE"
  }

  /** The enum check: exactly "YES", "NO" and "MAYBE". */
  function ParseStatus(s: string): (r: Option<Status>)
    ensures r.Some? <==> s in {"YES", "NO", "MAYBE"}
    ensures r.Some? ==> StatusName(r.value) == s
  {
    if s == "YES" then Some(Yes)
    else if s == "NO" then Some(No)
    else if s == "MAYBE" then Some(Maybe)
    else None
  }

  datatype Rsvp = Rsvp(user: UserId, event: EventId, status: Status)

  /** Schema validation: both references present and the status in the enum. */
  function Validate(user: Option<UserId>, event: Option<EventId>, status: string): (r: Option<Rsvp>)
    ensures r.Some? <==> user.Some? && event.Some? && status in {"YES", "NO", "MAYBE"}
    ensures r.Some? ==> && Some(r.value.user) == user && Some(r.value.event) == event
                        && StatusName(r.value.status) == status
  {
    if user.None? || event.None? then None
    else
      match ParseStatus(status)
      case None => None
      case Some(st) => Some(Rsvp(user.value, event.value, st))
  }

  predicate SamePair(a: Rsvp, b: Rsvp)
  {
    a.user == b.user && a.event == b.event
  }

  /** The unique index `{ user: 1, event: 1 }`: no two RSVP documents share a pair. */
  ghost predicate UniquePairs(rsvps: map<RsvpId, Rsvp>)
  {
    forall k1, k2 :: k1 in rsvps && k2 in rsvps && k1 != k2 ==> !SamePair(rsvps[k1], rsvps[k2])
  }

  /** Whether the unique index admits inserting `r` under the fresh key `id`. */
  function IndexAdmits(rsvps: map<RsvpId, Rsvp>, r: Rsvp): (ok: bool)
    ensures ok <==> forall k :: k in rsvps ==> !SamePair(rsvps[k], r)
  {
    forall k :: k in rsvps ==> !SamePair(rsvps[k], r)
  }

  /** An insert the index admits keeps the index intact. */
  lemma InsertKeepsUnique(rsvps: map<RsvpId, Rsvp>, id: RsvpId, r: Rsvp)
    requires UniquePairs(rsvps) && id !in rsvps && IndexAdmits(rsvps, r)
    ensures UniquePairs(rsvps[id := r])
  {
  }

  /** `RSVP.findOne({ user, event })`: the key of the RSVP for the pair, if there is one. */
  function FindPair(rsvps: map<RsvpId, Rsvp>, user: UserId, event: EventId): (r: Option<RsvpId>)
    requires UniquePairs(rsvps)
    ensures r.Some? ==> r.value in rsvps && rsvps[r.value].user == user && rsvps[r.value].event == event
    ensures r.None? ==> forall k :: k in rsvps ==> !(rsvps[k].user == user && rsvps[k].event == event)
  {
    if exists k :: k in rsvps && rsvps[k].user == user && rsvps[k].event == event then
      var k :| k in rsvps && rsvps[k].user == user && rsvps[k].event == event;
      Some(k)
    else
      None
  }

  /** `RSVP.countDocuments({ event, status: 'YES' })` */
  function YesCount(rsvps: map<RsvpId, Rsvp>, event: EventId): (n: nat)
    ensures n <= |rsvps|
    ensures n == 0 <==> forall k :: k in rsvps ==> !(rsvps[k].event == event && rsvps[k].status == Yes)
  {
    var yes := set k | k in rsvps && rsvps[k].event == event && rsvps[k].status == Yes;
    assert yes <= rsvps.Keys;
    SubsetCard(yes, rsvps.Keys);
    assert forall k :: k in rsvps && rsvps[k].event == event && rsvps[k].status == Yes ==> k in yes;
    assert yes != {} ==> |yes| > 0 by {
      if yes != {} {
        var k :| k in yes;
        assert |yes| == |yes - {k}| + 1;
      }
    }
    |yes|
  }

  lemma SubsetCard<T>(a: set<T>, b: set<T>)
    requires a <= b
    ensures |a| <= |b|
  {
    if a != {} {
      var x :| x in a;
      SubsetCard(a - {x}, b - {x});
    }
  }
}
