/**
 * The Event schema (models/eventModel.js): field types, the category enum, the
 * trimming of text fields, the `isSeed` default, and the two date validators
 * that seed events are exempt from.
 */
module EventModel {
  import opened Common
  import opened Text

  datatype Category = Astronomy | Science | Space | Education | Other

  function CategoryName(c: Category): string
  {
    match c
    case Astronomy => "Astronomy"
    case Science => "Science"
    case Space => "Space"
    case Education => "Education"
    case Other => "Other"
  }

  /** The enum check: exactly the five names, spelled as in the schema. */
  function ParseCategory(s: string): (r: Option<Category>)
    ensures r.Some? <==> s in {"Astronomy", "Science", "Space", "Education", "Other"}
    ensures r.Some? ==> CategoryName(r.value) == s
  {
    if s == "Astronomy" then Some(Astronomy)
    else if s == "Science" then Some(Science)
    else if s == "Space" then Some(Space)
    else if s == "Education" then Some(Education)
    else if s == "Other" then Some(Other)
    else None
  }

  lemma CategoryRoundTrip(c: Category)
    ensures ParseCategory(CategoryName(c)) == Some(c)
  {
  }

  /** A stored event document. */
  datatype Event = Event(
    title: string,
    category: Category,
    start: Instant,
    end: Instant,
    location: string,
    details: string,
    image: Option<string>,
    host: UserId,
    isSeed: bool)

  /** The `startDateTime` validator: a seed passes, any other event must start after now. */
  predicate StartDateValid(e: Event, now: Instant)
  {
    e.isSeed || e.start > now
  }

  /** The `endDateTime` validator: a seed passes, any other event must end after it starts. */
  predicate EndDateValid(e: Event)
  {
    e.isSeed || e.end > e.start
  }

  /**
   * What the application hands to `new Event({...})` or `insertMany`: text as
   * given, dates that may be missing, and an `isSeed` that may be left out.
   */
  datatype Draft = Draft(
    title: string,
    category: string,
    start: Option<Instant>,
    end: Option<Instant>,
    location: string,
    details: string,
    image: Option<string>,
    host: UserId,
    isSeed: Option<bool>)

  /** Casting a draft to a document: trim setters and the `isSeed` default. */
  function Cast(d: Draft, c: Category, start: Instant, end: Instant): Event
  {
    Event(Trim(d.title), c, start, end, Trim(d.location), Trim(d.details), d.image, d.host,
          d.isSeed == Some(true))
  }

  /** The checks of the schema that do not involve the dates. */
  predicate FieldsValid(d: Draft, ext: Externals)
  {
    && Trim(d.title) != ""
    && ParseCategory(d.category).Some?
    && d.start.Some? && d.end.Some?
    && Trim(d.location) != ""
    && Trim(d.details) != ""
    && d.host != "" && ext.isValidObjectId(d.host)
  }

  /**
   * Mongoose validation on save: `None` is a ValidationError (or a CastError on
   * `host`), `Some(e)` the document that is written.
   */
  function Validate(d: Draft, now: Instant, ext: Externals): (r: Option<Event>)
    ensures r.Some? ==> FieldsValid(d, ext)
    ensures r.Some? ==> StartDateValid(r.value, now) && EndDateValid(r.value)
    ensures r.Some? ==> && r.value.title == Trim(d.title) && r.value.location == Trim(d.location)
                        && r.value.details == Trim(d.details)
                        && r.value.title != "" && r.value.location != "" && r.value.details != ""
    ensures r.Some? ==> && CategoryName(r.value.category) == d.category
                        && Some(r.value.start) == d.start && Some(r.value.end) == d.end
                        && r.value.image == d.image && r.value.host == d.host
                        && r.value.isSeed == (d.isSeed == Some(true))
    ensures FieldsValid(d, ext) && d.isSeed == Some(true) ==> r.Some?
    ensures FieldsValid(d, ext) && d.isSeed != Some(true) ==>
              (r.Some? <==> d.start.value > now && d.end.value > d.start.value)
  {
    if !FieldsValid(d, ext) then None
    else
      var e := Cast(d, ParseCategory(d.category).value, d.start.value, d.end.value);
      if StartDateValid(e, now) && EndDateValid(e) then Some(e) else None
  }

  /** A draft whose fields are valid, and that is a seed or has its dates in order, is stored as cast. */
  lemma ValidateAccepts(d: Draft, now: Instant, ext: Externals)
    requires FieldsValid(d, ext) && (d.isSeed == Some(true) || now < d.start.value < d.end.value)
    ensures Validate(d, now, ext) == Some(Cast(d, ParseCategory(d.category).value, d.start.value, d.end.value))
  {
  }

  /** A seed draft passes validation whatever its dates and whatever the clock says. */
  lemma SeedDatesExempt(d: Draft, now1: Instant, now2: Instant, s: Instant, t: Instant, ext: Externals)
    requires d.isSeed == Some(true) && d.start.Some? && d.end.Some?
    ensures Validate(d, now1, ext).Some? == Validate(d.(start := Some(s), end := Some(t)), now2, ext).Some?
  {
  }

  /** Leaving `isSeed` out is the same as giving `false`. */
  lemma IsSeedDefaultsToFalse(d: Draft, now: Instant, ext: Externals)
    requires d.isSeed == None
    ensures Validate(d, now, ext) == Validate(d.(isSeed := Some(false)), now, ext)
    ensures Validate(d, now, ext).Some? ==> !Validate(d, now, ext).value.isSeed
  {
  }
}
