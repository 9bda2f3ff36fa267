/**
 * The User schema (models/user.js): required and trimmed names, the trimmed,
 * lower-cased and unique email, the plaintext password length, the two id
 * lists, and the pre-save hook that hashes the password only when it changed.
 */
module UserModel {
  import opened Common
  import opened Text
  import opened Lists

  const MinPasswordLength := 8
  const MaxPasswordLength := 64

  /** A stored user document; `password` holds the bcrypt hash. */
  datatype User = User(
    firstName: string,
    lastName: string,
    email: string,
    password: string,
    events: seq<EventId>,
    rsvps: seq<RsvpId>)

  /** The unique index on `email`. */
  ghost predicate UniqueEmails(users: map<UserId, User>)
  {
    forall u1, u2 :: u1 in users && u2 in users && u1 != u2 ==> users[u1].email != users[u2].email
  }

  /** `User.findOne({ email })`: the user holding this exact email, if any. */
  function FindByEmail(users: map<UserId, User>, email: string): (r: Option<UserId>)
    requires UniqueEmails(users)
    ensures r.Some? ==> r.value in users && users[r.value].email == email
    ensures r.None? ==> forall u :: u in users ==> users[u].email != email
    ensures forall u :: u in users && users[u].email == email ==> r == Some(u)
  {
    if exists u :: u in users && users[u].email == email then
      var u :| u in users && users[u].email == email;
      Some(u)
    else
      None
  }

  /**
   * Casting and validating `new User({ firstName, lastName, email, password })`
   * before the pre-save hook runs: the password is still plaintext here, and the
   * two id lists take their default, the empty list.
   */
  function Validate(firstName: string, lastName: string, email: string, password: string, ext: Externals)
    : (r: Option<User>)
    ensures r.Some? <==> && Trim(firstName) != "" && Trim(lastName) != ""
                         && NormalizedEmail(email) != "" && ext.isEmail(NormalizedEmail(email))
                         && MinPasswordLength <= |password| <= MaxPasswordLength
    ensures r.Some? ==> && r.value.firstName == Trim(firstName) && r.value.lastName == Trim(lastName)
                        && r.value.email == NormalizedEmail(email) && r.value.password == password
                        && r.value.events == [] && r.value.rsvps == []
    ensures r.Some? ==> IsTrimmed(r.value.email) && Lower(r.value.email) == r.value.email
  {
    var u := User(Trim(firstName), Trim(lastName), NormalizedEmail(email), password, [], []);
    if u.firstName == "" || u.lastName == "" || u.email == "" || !ext.isEmail(u.email) then None
    else if |password| < MinPasswordLength || |password| > MaxPasswordLength then None
    else Some(u)
  }

  /**
   * A user document in memory, as mongoose tracks it: its fields and whether
   * `password` was modified since it was last saved.
   */
  class UserDocument {
    var user: User
    var passwordModified: bool

    /** `new User({...})`: every path of a new document counts as modified. */
    constructor Create(u: User)
      ensures user == u && passwordModified
    {
      user := u;
      passwordModified := true;
    }

    /** `User.findById(id)`: a loaded document has nothing modified yet. */
    constructor Load(u: User)
      ensures user == u && !passwordModified
    {
      user := u;
      passwordModified := false;
    }

    /**
     * `save()`: the pre-save hook replaces `password` by its hash when, and only
     * when, it was modified; afterwards nothing counts as modified.
     */
    method Save(salt: string, ext: Externals)
      modifies this
      ensures old(passwordModified) ==> user == old(user).(password := ext.hash(old(user).password, salt))
      ensures !old(passwordModified) ==> user == old(user)
      ensures !passwordModified
    {
      if passwordModified {
        user := user.(password := ext.hash(user.password, salt));
      }
      passwordModified := false;
    }

    /** `user.rsvps.push(id)`: changes the list, not the password. */
    method PushRsvp(id: RsvpId)
      modifies this
      ensures user == old(user).(rsvps := old(user).rsvps + [id])
      ensures passwordModified == old(passwordModified)
    {
      user := user.(rsvps := user.rsvps + [id]);
    }
  }
}
