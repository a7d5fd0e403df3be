/**
 * The sign-in callbacks: on a fresh sign-in the `jwt` callback resolves the
 * user's record in the `users` collection (creating it, or back-filling a
 * missing `Blocked` flag), then writes the user's id, `Blocked`, email,
 * name and admin flag into the token; the `session` callback projects the
 * token into `session.user`.
 *
 * The collection is a map keyed by the `email` field (`None` stands for a
 * record without one, which a lookup with an undefined email matches). The
 * admin allow-list, the generated `_id` and the creation time are
 * parameters.
 */
module Auth {
  import opened Wrappers
  import opened Strings

  /** The value stored as `createdAt` (`new Date()` in the source). */
  type Timestamp = int

  /** A document of the `users` collection; records written by other code may lack fields. */
  datatype UserRecord = UserRecord(
    id: string,
    email: Option<string>,
    name: Option<string>,
    image: Option<string>,
    blocked: Option<bool>,
    createdAt: Option<Timestamp>)

  /** The `user` argument the identity provider supplies on sign-in. */
  datatype SignInUser = SignInUser(email: Option<string>, name: Option<string>, image: Option<string>)

  /** The token fields the callbacks read or write. */
  datatype Token = Token(
    id: Option<string>,
    email: Option<string>,
    name: Option<string>,
    picture: Option<string>,
    blocked: Option<bool>,
    isAdmin: Option<bool>)

  /** `session.user`. */
  datatype SessionUser = SessionUser(
    id: Option<string>,
    email: string,
    name: string,
    image: string,
    blocked: Option<bool>,
    isAdmin: Option<bool>)

  type Users = map<Option<string>, UserRecord>

  /** Every record sits under its own email. */
  predicate KeyedByEmail(users: Users) {
    forall k :: k in users ==> users[k].email == k
  }

  /** A value JavaScript treats as true: present and not the empty string. */
  predicate Truthy(a: Option<string>) {
    a.Some? && a.value != ""
  }

  /** JavaScript `a || b` on optional strings: `a` unless it is missing or empty. */
  function Or(a: Option<string>, b: Option<string>): (r: Option<string>)
    ensures r == a || r == b
    ensures Truthy(r) <==> Truthy(a) || Truthy(b)
    ensures Truthy(a) ==> r == a
    ensures !Truthy(a) ==> r == b
  {
    if a.Some? && a.value != "" then a else b
  }

  /** `user.email || token.email`. */
  function SignInEmail(user: SignInUser, token: Token): (r: Option<string>)
    ensures r == user.email || r == token.email
    ensures Truthy(r) <==> Truthy(user.email) || Truthy(token.email)
    ensures Truthy(user.email) ==> r == user.email
  {
    Or(user.email, token.email)
  }

  // ---------------------------------------------------------------------
  // Admin allow-list
  // ---------------------------------------------------------------------

  /** `ADMIN_EMAILS?.split(",").map((e) => e.trim()) || []` */
  function AdminEmails(list: Option<string>): (r: seq<string>)
    ensures list.None? ==> r == []
    ensures list.Some? ==> |r| >= 1
    ensures forall i :: 0 <= i < |r| ==> Trimmed(r[i]) && ',' !in r[i]
  {
    match list
    case None => []
    case Some(s) =>
      var parts := Split(s, ',');
      var r := seq(|parts|, i requires 0 <= i < |parts| => Trim(parts[i]));
      assert forall i :: 0 <= i < |r| ==> ',' !in r[i] by {
        forall i | 0 <= i < |r| ensures ',' !in r[i] {
          TrimIsInfix(parts[i]);
          var lo :| 0 <= lo <= |parts[i]| - |r[i]| && r[i] == parts[i][lo..lo + |r[i]|];
          assert forall c :: c in r[i] ==> c in parts[i];
        }
      }
      r
  }

  /** `adminEmails.includes(email || "")`. */
  predicate IsAdmin(list: Option<string>, email: Option<string>)
    ensures IsAdmin(list, email) ==> list.Some?
    ensures IsAdmin(list, email) ==> Trimmed(email.GetOr("")) && ',' !in email.GetOr("")
  {
    email.GetOr("") in AdminEmails(list)
  }

  /**
   * For an allow-list written as comma-separated entries, an email is an
   * admin exactly when it equals one of the entries once trimmed.
   */
  lemma AdminMembership(entries: seq<string>, email: Option<string>)
    requires |entries| >= 1
    requires forall i :: 0 <= i < |entries| ==> ',' !in entries[i]
    ensures IsAdmin(Some(Join(entries, ',')), email) <==>
              exists i :: 0 <= i < |entries| && Trim(entries[i]) == email.GetOr("")
  {
    AdminEmailsOfJoin(entries);
    var r := AdminEmails(Some(Join(entries, ',')));
    var e := email.GetOr("");
    if e in r {
      var i :| 0 <= i < |r| && r[i] == e;
      assert Trim(entries[i]) == e;
    }
    if exists i :: 0 <= i < |entries| && Trim(entries[i]) == e {
      var i :| 0 <= i < |entries| && Trim(entries[i]) == e;
      assert r[i] == e;
    }
  }

  /** The allow-list of a comma-separated list is its entries, trimmed. */
  lemma AdminEmailsOfJoin(entries: seq<string>)
    requires |entries| >= 1
    requires forall i :: 0 <= i < |entries| ==> ',' !in entries[i]
    ensures var r := AdminEmails(Some(Join(entries, ',')));
            |r| == |entries| && forall i :: 0 <= i < |r| ==> r[i] == Trim(entries[i])
  {
    SplitJoin(entries, ',');
  }

  /** Padding around an entry does not stop it from matching. */
  lemma PaddedEntryMatches(entries: seq<string>, i: nat, left: string, email: string, right: string)
    requires forall k :: 0 <= k < |entries| ==> ',' !in entries[k]
    requires i < |entries| && entries[i] == left + email + right
    requires AllTrimmable(left) && AllTrimmable(right) && Trimmed(email)
    ensures IsAdmin(Some(Join(entries, ',')), Some(email))
  {
    TrimPadded(left, email, right);
    AdminMembership(entries, Some(email));
  }

  /** With the list `"a@x.com, b@x.com"` the second address is an admin despite the space. */
  lemma SpacedListExample()
    ensures IsAdmin(Some("a@x.com, b@x.com"), Some("b@x.com"))
  {
    var entries := ["a@x.com", " b@x.com"];
    assert Join(entries, ',') == "a@x.com, b@x.com";
    assert entries[1] == " " + "b@x.com" + "";
    PaddedEntryMatches(entries, 1, " ", "b@x.com", "");
  }

  /**
   * An empty allow-list, or one with a trailing comma, holds the entry `""`,
   * so a sign-in without an email is an admin.
   */
  lemma BlankEntryAdmitsMissingEmail(entries: seq<string>)
    requires |entries| >= 1 && forall i :: 0 <= i < |entries| ==> ',' !in entries[i]
    ensures IsAdmin(Some(Join(entries + [""], ',')), None)
    ensures IsAdmin(Some(""), None)
  {
    var blank := entries + [""];
    assert blank[|entries|] == "" && Trim("") == "";
    AdminMembership(blank, None);
    AdminMembership([""], None);
  }

  /** An absent allow-list makes nobody an admin. */
  lemma NoListNoAdmins(email: Option<string>)
    ensures !IsAdmin(None, email)
  {
  }

  // ---------------------------------------------------------------------
  // The jwt callback on a fresh sign-in
  // ---------------------------------------------------------------------

  /**
   * `usersCollection.findOne({ email })`: in a collection keyed by email,
   * a record is found exactly when one holds that email, and it is such a record.
   */
  function FindUser(users: Users, email: Option<string>): (r: Option<UserRecord>)
    ensures KeyedByEmail(users) ==> (r.Some? <==> exists k :: k in users && users[k].email == email)
    ensures KeyedByEmail(users) && r.Some? ==> r.value in users.Values && r.value.email == email
    ensures r.Some? <==> email in users
    ensures r.Some? ==> r.value == users[email]
  {
    if email in users then Some(users[email]) else None
  }

  /** The record inserted on a first sign-in. */
  function NewUser(user: SignInUser, token: Token, freshId: string, now: Timestamp): (r: UserRecord)
    ensures r.id == freshId && r.email == SignInEmail(user, token)
    ensures r.blocked == Some(false) && r.createdAt == Some(now)
    ensures r.name.Some? && r.image.Some?
    ensures Truthy(user.name) ==> r.name == user.name
    ensures !Truthy(user.name) && Truthy(token.name) ==> r.name == token.name
    ensures !Truthy(user.name) && !Truthy(token.name) ==> r.name == Some("")
    ensures Truthy(user.image) ==> r.image == user.image
    ensures !Truthy(user.image) && Truthy(token.picture) ==> r.image == token.picture
    ensures !Truthy(user.image) && !Truthy(token.picture) ==> r.image == Some("")
  {
    UserRecord(
      freshId,
      SignInEmail(user, token),
      Some(Or(user.name, token.name).GetOr("")),
      Some(Or(user.image, token.picture).GetOr("")),
      Some(false),
      Some(now))
  }

  /** The collection after a sign-in: insert if absent, back-fill `Blocked` if missing, else untouched. */
  function StoreAfterSignIn(users: Users, token: Token, user: SignInUser, freshId: string, now: Timestamp): (r: Users)
    ensures var email := SignInEmail(user, token);
      && r.Keys == users.Keys + {email}
      && |r| == (if email in users then |users| else |users| + 1)
      && (forall k :: k in users && k != email ==> r[k] == users[k])
      && r[email].blocked.Some?
      && (email in users && users[email].blocked.Some? ==> r[email] == users[email])
      && (email in users && users[email].blocked.None? ==> r[email] == users[email].(blocked := Some(false)))
      && (email !in users ==>
            r[email].blocked == Some(false) && r[email].email == email
            && r[email].name == Some(Or(user.name, token.name).GetOr(""))
            && r[email].image == Some(Or(user.image, token.picture).GetOr(""))
            && r[email].createdAt == Some(now))
    ensures forall k :: k in users && users[k].blocked == Some(true) ==> r[k].blocked == Some(true)
    ensures KeyedByEmail(users) ==> KeyedByEmail(r)
  {
    var email := SignInEmail(user, token);
    match FindUser(users, email)
    case None => users[email := NewUser(user, token, freshId, now)]
    case Some(rec) => if rec.blocked.None? then users[email := rec.(blocked := Some(false))] else users
  }

  /** The token after a sign-in, computed from the record found before any write. */
  function TokenAfterSignIn(users: Users, token: Token, user: SignInUser, adminList: Option<string>): (t: Token)
    ensures var email := SignInEmail(user, token);
      && t.id == (if email in users then Or(Some(users[email].id), token.id) else token.id)
      && t.blocked == Some(email in users && users[email].blocked == Some(true))
      && t.email == email
      && t.name == Or(user.name, token.name)
      && t.picture == token.picture
      && t.isAdmin == Some(IsAdmin(adminList, email))
  {
    var email := SignInEmail(user, token);
    var dbUser := FindUser(users, email);
    var id := if dbUser.Some? then Or(Some(dbUser.value.id), token.id) else token.id;
    var blocked := if dbUser.Some? then dbUser.value.blocked.GetOr(false) else false;
    token.(id := id, blocked := Some(blocked), email := email, name := Or(user.name, token.name),
           isAdmin := Some(IsAdmin(adminList, email)))
  }

  /** The `Blocked` flag put into the token is the one the collection holds after the sign-in. */
  lemma TokenBlockedMatchesStore(users: Users, token: Token, user: SignInUser, adminList: Option<string>,
                                 freshId: string, now: Timestamp)
    ensures TokenAfterSignIn(users, token, user, adminList).blocked
            == StoreAfterSignIn(users, token, user, freshId, now)[SignInEmail(user, token)].blocked
  {
  }

  /** Signing in again with the same email changes nothing more in the collection. */
  lemma SignInIdempotent(users: Users, token: Token, user: SignInUser, freshId: string, now: Timestamp,
                         token': Token, user': SignInUser, freshId': string, now': Timestamp)
    requires SignInEmail(user', token') == SignInEmail(user, token)
    ensures var once := StoreAfterSignIn(users, token, user, freshId, now);
            StoreAfterSignIn(once, token', user', freshId', now') == once
  {
  }

  // ---------------------------------------------------------------------
  // The session callback
  // ---------------------------------------------------------------------

  /** `session.user`: copied from the token, missing email, name and picture becoming `""`. */
  function Session(token: Token): (s: SessionUser)
    ensures s.id == token.id && s.blocked == token.blocked && s.isAdmin == token.isAdmin
    ensures token.email.Some? ==> s.email == token.email.value
    ensures token.name.Some? ==> s.name == token.name.value
    ensures token.picture.Some? ==> s.image == token.picture.value
    ensures token.email.None? ==> s.email == ""
    ensures token.name.None? ==> s.name == ""
    ensures token.picture.None? ==> s.image == ""
  {
    // `x || ""` on an optional string is its value, or `""` when it is missing.
    SessionUser(token.id, token.email.GetOr(""), token.name.GetOr(""), token.picture.GetOr(""),
                token.blocked, token.isAdmin)
  }

  /** After a sign-in the session carries the resolved email, the stored flag and the admin decision. */
  lemma SessionAfterSignIn(users: Users, token: Token, user: SignInUser, adminList: Option<string>,
                           freshId: string, now: Timestamp)
    ensures var s := Session(TokenAfterSignIn(users, token, user, adminList));
            var email := SignInEmail(user, token);
            && s.email == email.GetOr("")
            && s.blocked == StoreAfterSignIn(users, token, user, freshId, now)[email].blocked
            && s.isAdmin == Some(IsAdmin(adminList, email))
  {
  }

  class UserStore {
    /** The `users` collection. */
    var users: Users

    ghost predicate Valid()
      reads this
    {
      KeyedByEmail(users)
    }

    constructor (initial: Users)
      requires KeyedByEmail(initial)
      ensures users == initial && Valid()
    {
      users := initial;
    }

    /**
     * `callbacks.jwt`. With a `user` (a fresh sign-in) it resolves the record
     * and fills the token; without one the token and the collection are left
     * as they are.
     */
    method Jwt(token: Token, user: Option<SignInUser>, adminList: Option<string>, freshId: string, now: Timestamp)
      returns (t: Token)
      requires Valid()
      modifies this
      ensures user.None? ==> t == token && users == old(users)
      ensures user.Some? ==> users == StoreAfterSignIn(old(users), token, user.value, freshId, now)
      ensures user.Some? ==> t == TokenAfterSignIn(old(users), token, user.value, adminList)
      ensures Valid()
    {
      t := token;
      if user.Some? {
        var u := user.value;
        var email := Or(u.email, t.email);
        var dbUser := FindUser(users, email);
        if dbUser.None? {
          users := users[email := UserRecord(freshId, email, Some(Or(u.name, t.name).GetOr("")),
                                             Some(Or(u.image, t.picture).GetOr("")), Some(false), Some(now))];
        } else if dbUser.value.blocked.None? {
          users := users[email := dbUser.value.(blocked := Some(false))];
        }
        t := t.(id := if dbUser.Some? then Or(Some(dbUser.value.id), t.id) else t.id);
        t := t.(blocked := Some(if dbUser.Some? then dbUser.value.blocked.GetOr(false) else false));
        t := t.(email := email);
        t := t.(name := Or(u.name, t.name));
        t := t.(isAdmin := Some(IsAdmin(adminList, email)));
      }
    }
  }
}
