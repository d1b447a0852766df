/**
 Registration and login over the user collection. Password hashing, hash
 comparison and token signing are the parameters `hash`, `compare` and
 `sign`; the salt and the new user's id are parameters too.
 */
module Auth {
  import opened Common
  import opened Records

  const UserExists: string := "User already exists"
  const InvalidCredentials: string := "Invalid credentials"

  /** What both calls return: the token and the user's id and email. */
  datatype Session = Session(token: string, id: Id, email: string)

  /** `User.findOne({ email })`: exact, case-sensitive equality; the first match in store order. */
  function FindByEmail(users: seq<User>, email: string): (r: Option<nat>)
    ensures r.Some? ==> r.value < |users| && users[r.value].email == email
    ensures r.Some? ==> forall k :: 0 <= k < r.value ==> users[k].email != email
    ensures r.None? <==> forall k :: 0 <= k < |users| ==> users[k].email != email
  {
    if |users| == 0 then None
    else if users[0].email == email then Some(0)
    else match FindByEmail(users[1..], email)
      case None => None
      case Some(k) => Some(k + 1)
  }

  ghost predicate UniqueEmails(users: seq<User>) {
    forall i, j :: 0 <= i < j < |users| ==> users[i].email != users[j].email
  }

  /** The session issued for a stored user: a token signed over the user record. */
  function SessionFor(u: User, sign: User -> string): Session {
    Session(sign(u), u.id, u.email)
  }

  /**
   `register`: refuses an email already present, leaving the store as it
   was; otherwise appends one user holding the hash of the password (never
   the password itself), with no storage used, and returns its session.
   */
  function Register(users: seq<User>, email: string, password: string, salt: string, newId: Id,
                    hash: (string, string) -> string, sign: User -> string): (r: (Result<Session>, seq<User>))
    ensures (exists k :: 0 <= k < |users| && users[k].email == email) ==> r == (Err(UserExists), users)
    ensures (forall k :: 0 <= k < |users| ==> users[k].email != email) ==>
      && |r.1| == |users| + 1 && r.1[..|users|] == users
      && r.1[|users|] == User(newId, email, hash(password, salt), 0)
      && r.0 == Ok(Session(sign(r.1[|users|]), newId, email))
  {
    match FindByEmail(users, email)
    case Some(_) => (Err(UserExists), users)
    case None =>
      var u := User(newId, email, hash(password, salt), 0);
      assert (users + [u])[..|users|] == users;
      (Ok(SessionFor(u, sign)), users + [u])
  }

  /**
   `login`: the first user with that email, if `compare` accepts the
   password against its stored hash; an unknown email and a wrong password
   fail alike with "Invalid credentials".
   */
  function Login(users: seq<User>, email: string, password: string,
                 compare: (string, string) -> bool, sign: User -> string): (r: Result<Session>)
    ensures r.Err? ==> r == Err(InvalidCredentials)
    ensures (forall k :: 0 <= k < |users| ==> users[k].email != email) ==> r.Err?
    ensures r.Ok? <==> exists i :: (0 <= i < |users| && users[i].email == email
      && (forall k :: 0 <= k < i ==> users[k].email != email)
      && compare(password, users[i].password))
    ensures r.Ok? ==> exists i :: (0 <= i < |users| && users[i].email == email
      && (forall k :: 0 <= k < i ==> users[k].email != email)
      && r.value == Session(sign(users[i]), users[i].id, users[i].email))
  {
    match FindByEmail(users, email)
    case None => Err(InvalidCredentials)
    case Some(i) =>
      if compare(password, users[i].password) then Ok(SessionFor(users[i], sign))
      else Err(InvalidCredentials)
  }

  /**
   Registering and then logging in with the same password succeeds for the
   new user, given that `compare` accepts a password against its own hash.
   */
  lemma RegisterThenLogin(users: seq<User>, email: string, password: string, salt: string, newId: Id,
                          hash: (string, string) -> string, compare: (string, string) -> bool, sign: User -> string)
    requires forall k :: 0 <= k < |users| ==> users[k].email != email
    requires compare(password, hash(password, salt))
    ensures var after := Register(users, email, password, salt, newId, hash, sign).1;
      Login(after, email, password, compare, sign) == Register(users, email, password, salt, newId, hash, sign).0
  {
    var after := Register(users, email, password, salt, newId, hash, sign).1;
    assert forall k :: 0 <= k < |users| ==> after[k] == users[k];
    assert FindByEmail(after, email) == Some(|users|);
  }

  /** Registration keeps emails unique. */
  lemma RegisterKeepsEmailsUnique(users: seq<User>, email: string, password: string, salt: string, newId: Id,
                                  hash: (string, string) -> string, sign: User -> string)
    requires UniqueEmails(users)
    ensures UniqueEmails(Register(users, email, password, salt, newId, hash, sign).1)
  {
    var after := Register(users, email, password, salt, newId, hash, sign).1;
    if FindByEmail(users, email).None? {
      assert forall k :: 0 <= k < |users| ==> after[k] == users[k];
    }
  }

  /** A wrong password cannot be told from an unknown email. */
  lemma LoginFailuresAlike(users: seq<User>, email: string, other: string, password: string,
                           compare: (string, string) -> bool, sign: User -> string)
    requires forall k :: 0 <= k < |users| ==> users[k].email != other
    requires FindByEmail(users, email).Some? && !compare(password, users[FindByEmail(users, email).value].password)
    ensures Login(users, email, password, compare, sign) == Login(users, other, password, compare, sign)
  {
  }

  /** Emails differing only in case are different users. */
  lemma EmailIsCaseSensitive(id1: Id, id2: Id, hash: (string, string) -> string, sign: User -> string)
    ensures var users := [User(id1, "ann@example.com", "h", 0)];
      Register(users, "Ann@example.com", "pw", "salt", id2, hash, sign).0.Ok?
  {
    var users := [User(id1, "ann@example.com", "h", 0)];
    assert users[0].email != "Ann@example.com";
  }
}
