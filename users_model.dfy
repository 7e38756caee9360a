/** The `User` record and `Role` enumeration (users/models.py), the stand-in
    for password hashing, and the two queries over the user table that the
    handlers share. The table is a sequence of rows in storage order, so a
    query's `.first()` is the first matching row of the sequence. */
module UserModel {
  import opened Wrappers
  import opened Seqs
  import opened BaseModel

  datatype Role = Admin | Regular

  /** The string value each role member carries. */
  function RoleValue(r: Role): string
  {
    match r
    case Admin => "admin"
    case Regular => "regular"
  }

  /** `Role(s)` for a string taken from a request: only the two declared
      values name a role, and the role found carries exactly that value. */
  function RoleFromValue(s: string): (r: Option<Role>)
    ensures r.Some? <==> s == "admin" || s == "regular"
    ensures r.Some? ==> RoleValue(r.value) == s
  {
    if s == "admin" then Some(Admin)
    else if s == "regular" then Some(Regular)
    else None
  }

  lemma RoleValueRoundTrip(r: Role)
    ensures RoleFromValue(RoleValue(r)) == Some(r)
  {
  }

  /** An opaque stand-in for the password-hash library: a hash remembers the
      password it was made from, and checking compares against it. */
  datatype PasswordHash = PasswordHash(secret: string)

  function GeneratePasswordHash(password: string): PasswordHash
  {
    PasswordHash(password)
  }

  function CheckPasswordHash(h: PasswordHash, password: string): bool
  {
    h.secret == password
  }

  datatype User = User(id: int, name: string, email: string, password: PasswordHash, role: Role, base: BaseFields)

  /** `_current_user_id_or_none`: the id of the logged-in user, if any. */
  function ActorId(current: Option<User>): (r: Option<int>)
    ensures r.Some? <==> current.Some?
    ensures r.Some? ==> r.value == current.value.id
  {
    match current
    case None => None
    case Some(u) => Some(u.id)
  }

  /** `User.query.filter_by(email=...).first()`: the first row with that
      email, active or not. */
  function FirstWithEmail(users: seq<User>, email: string): (r: Option<User>)
    ensures r.None? <==> forall i :: 0 <= i < |users| ==> users[i].email != email
    ensures r.Some? ==> exists i :: 0 <= i < |users| && users[i] == r.value && users[i].email == email
                                  && forall j :: 0 <= j < i ==> users[j].email != email
  {
    match FirstIndex(users, (u: User) => u.email == email)
    case None => None
    case Some(i) => Some(users[i])
  }

  /** `User.query.filter_by(id=..., active=True).first()`: the position of the
      first active row with that id. */
  function FindActive(users: seq<User>, id: int): (r: Option<nat>)
    ensures r.Some? ==> r.value < |users| && users[r.value].id == id && users[r.value].base.active
    ensures r.None? <==> forall i :: 0 <= i < |users| ==> !(users[i].id == id && users[i].base.active)
  {
    FirstIndex(users, (u: User) => u.id == id && u.base.active)
  }

  /** The table's primary key and its unique email column. */
  predicate UniqueKeys(users: seq<User>)
  {
    forall i, j :: 0 <= i < j < |users| ==> users[i].id != users[j].id && users[i].email != users[j].email
  }

  /** With unique emails, the row found by email is the only row with it. */
  lemma {:induction false} FirstWithEmailUnique(users: seq<User>, k: nat)
    requires UniqueKeys(users) && k < |users|
    ensures FirstWithEmail(users, users[k].email) == Some(users[k])
  {
    var r := FirstWithEmail(users, users[k].email);
    assert r.Some?;
    var i :| 0 <= i < |users| && users[i] == r.value && users[i].email == users[k].email
             && forall j :: 0 <= j < i ==> users[j].email != users[k].email;
    assert i == k;
  }

  /** With unique ids, the active row found by id is the row at that
      position. */
  lemma {:induction false} FindActiveUnique(users: seq<User>, k: nat)
    requires UniqueKeys(users) && k < |users| && users[k].base.active
    ensures FindActive(users, users[k].id) == Some(k)
  {
  }
}
