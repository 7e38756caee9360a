/** The user endpoints (users/views.py): the register gate, the active-only
    lookup, the paginated listing, and the handlers that change the user
    table and the token bookkeeping. */
module UserViews {
  import opened Wrappers
  import opened Http
  import opened BaseModel
  import opened UserModel
  import opened Tokens

  // ---------------------------------------------------------------------
  // Register gate

  /** The checks of `POST /users`, in order: an email already in the table
      (active or not) is a conflict before anything else is looked at; then
      the role string must name a role; then only a logged-in admin may
      create an admin. On success, the role to create. */
  function RegisterDecision(users: seq<User>, email: string, roleValue: string, caller: Option<User>): (r: Result<Role, Status>)
    ensures (exists i :: 0 <= i < |users| && users[i].email == email) ==> r == Failure(Conflict)
    ensures r == Failure(Unprocessable) <==>
              (forall i :: 0 <= i < |users| ==> users[i].email != email) && roleValue != "admin" && roleValue != "regular"
    ensures r == Failure(Forbidden) <==>
              (forall i :: 0 <= i < |users| ==> users[i].email != email) && roleValue == "admin"
              && !(caller.Some? && caller.value.role == Admin)
    ensures r.Success? <==>
              (forall i :: 0 <= i < |users| ==> users[i].email != email)
              && (roleValue == "regular" || (roleValue == "admin" && caller.Some? && caller.value.role == Admin))
    ensures r.Success? ==> RoleValue(r.value) == roleValue
  {
    if FirstWithEmail(users, email).Some? then Failure(Conflict)
    else
      match RoleFromValue(roleValue)
      case None => Failure(Unprocessable)
      case Some(role) =>
        if role == Admin && (caller.None? || caller.value.role != Admin) then Failure(Forbidden)
        else Success(role)
  }

  /** The id the table gives a new row: one past the largest id in use. */
  function NextId(users: seq<User>): (r: int)
    ensures r >= 1
    ensures forall i :: 0 <= i < |users| ==> users[i].id < r
  {
    if |users| == 0 then 1
    else
      var rest := NextId(users[1..]);
      assert forall i :: 1 <= i < |users| ==> users[i] == users[1..][i - 1];
      if users[0].id + 1 > rest then users[0].id + 1 else rest
  }

  // ---------------------------------------------------------------------
  // Active-only lookup

  /** `GET /users/<id>`: the active user with that id, or 404 when there is
      none or it is deactivated. */
  function GetUser(users: seq<User>, id: int): (r: Result<User, Status>)
    ensures r.Success? <==> exists i :: 0 <= i < |users| && users[i].id == id && users[i].base.active
    ensures r.Success? ==> r.value in users && r.value.id == id && r.value.base.active
    ensures r.Failure? ==> r.error == NotFound
  {
    match FindActive(users, id)
    case None => Failure(NotFound)
    case Some(k) => Success(users[k])
  }

  // ---------------------------------------------------------------------
  // Listing: active users ordered by name, ten per page

  const PageSize := 10

  /** The order names are compared in: character by character, a proper
      prefix first. */
  predicate NameLeq(a: string, b: string)
  {
    |a| == 0 || (|b| > 0 && (a[0] < b[0] || (a[0] == b[0] && NameLeq(a[1..], b[1..]))))
  }

  lemma {:induction false} NameLeqTotal(a: string, b: string)
    ensures NameLeq(a, b) || NameLeq(b, a)
  {
    if |a| > 0 && |b| > 0 && a[0] == b[0] {
      NameLeqTotal(a[1..], b[1..]);
    }
  }

  lemma {:induction false} NameLeqTransitive(a: string, b: string, c: string)
    requires NameLeq(a, b) && NameLeq(b, c)
    ensures NameLeq(a, c)
  {
    if |a| > 0 && a[0] == b[0] && b[0] == c[0] {
      NameLeqTransitive(a[1..], b[1..], c[1..]);
    }
  }

  predicate SortedByName(s: seq<User>)
  {
    forall i, j :: 0 <= i < j < |s| ==> NameLeq(s[i].name, s[j].name)
  }

  /** Putting `u` in front of a sorted list whose every name is at least
      `u`'s keeps it sorted. */
  lemma SortedCons(u: User, s: seq<User>)
    requires SortedByName(s)
    requires forall i :: 0 <= i < |s| ==> NameLeq(u.name, s[i].name)
    ensures SortedByName([u] + s)
  {
    var r := [u] + s;
    forall i, j | 0 <= i < j < |r| ensures NameLeq(r[i].name, r[j].name) {
      if i > 0 {
        assert r[i] == s[i - 1] && r[j] == s[j - 1];
      } else {
        assert r[j] == s[j - 1];
      }
    }
  }

  /** Inserts `u` before the first row whose name is not below it. */
  function InsertByName(u: User, s: seq<User>): (r: seq<User>)
    requires SortedByName(s)
    ensures SortedByName(r)
    ensures multiset(r) == multiset(s) + multiset{u}
  {
    if |s| == 0 then [u]
    else if NameLeq(u.name, s[0].name) then
      assert forall i :: 0 <= i < |s| ==> NameLeq(u.name, s[i].name) by {
        forall i | 0 <= i < |s| ensures NameLeq(u.name, s[i].name) {
          if i > 0 { NameLeqTransitive(u.name, s[0].name, s[i].name); }
        }
      }
      SortedCons(u, s);
      [u] + s
    else
      var tail := s[1..];
      assert s == [s[0]] + tail;
      var rest := InsertByName(u, tail);
      assert forall i :: 0 <= i < |rest| ==> NameLeq(s[0].name, rest[i].name) by {
        forall i | 0 <= i < |rest| ensures NameLeq(s[0].name, rest[i].name) {
          assert rest[i] in multiset(rest);
          if rest[i] == u {
            NameLeqTotal(u.name, s[0].name);
          } else {
            assert rest[i] in multiset(tail);
            var m :| 0 <= m < |tail| && tail[m] == rest[i];
            assert s[m + 1] == rest[i];
          }
        }
      }
      SortedCons(s[0], rest);
      [s[0]] + rest
  }

  /** The rows ordered by name (insertion sort; rows with equal names keep
      their table order). */
  function ByName(s: seq<User>): (r: seq<User>)
    ensures SortedByName(r)
    ensures multiset(r) == multiset(s)
  {
    if |s| == 0 then []
    else
      assert s == [s[0]] + s[1..];
      InsertByName(s[0], ByName(s[1..]))
  }

  /** The positions of the active rows. */
  function ActivePositions(users: seq<User>): set<nat>
  {
    set i: nat | i < |users| && users[i].base.active
  }

  /** `filter_by(active=True)`: the active rows, in table order. */
  function ActiveRows(users: seq<User>): (r: seq<User>)
    ensures forall u :: u in r <==> u in users && u.base.active
  {
    if |users| == 0 then []
    else
      var init, last := users[..|users| - 1], users[|users| - 1];
      assert users == init + [last];
      ActiveRows(init) + (if last.base.active then [last] else [])
  }

  /** Each active row occurs in the listing as often as in the table, and
      no other row occurs. */
  lemma {:induction false} ActiveRowsCounts(users: seq<User>)
    ensures forall u :: multiset(ActiveRows(users))[u] == if u.base.active then multiset(users)[u] else 0
  {
    if |users| > 0 {
      var init, last := users[..|users| - 1], users[|users| - 1];
      assert users == init + [last];
      ActiveRowsCounts(init);
    }
  }

  /** `GET /users/data`: the number of active rows, counted one row at a
      time. It is the number of positions holding an active row, the length
      of the active listing, and zero exactly when every row is
      deactivated. */
  function ActiveCount(users: seq<User>): (n: nat)
    ensures n <= |users|
    ensures n == |ActivePositions(users)|
    ensures n == |ActiveRows(users)|
    ensures n == 0 <==> forall i :: 0 <= i < |users| ==> !users[i].base.active
  {
    NoActivePositions(users);
    if |users| == 0 then
      0
    else
      var rest := ActiveCount(users[..|users| - 1]);
      ActivePositionsStep(users);
      ActiveRowsLength(users);
      rest + (if users[|users| - 1].base.active then 1 else 0)
  }

  /** No position is counted exactly when no row is active. */
  lemma NoActivePositions(users: seq<User>)
    ensures ActivePositions(users) == {} <==> forall i :: 0 <= i < |users| ==> !users[i].base.active
  {
    if exists i :: 0 <= i < |users| && users[i].base.active {
      var i :| 0 <= i < |users| && users[i].base.active;
      assert i in ActivePositions(users);
    }
  }

  /** The active listing grows by one exactly for an active last row. */
  lemma ActiveRowsLength(users: seq<User>)
    requires |users| > 0
    ensures |ActiveRows(users)| == |ActiveRows(users[..|users| - 1])| + (if users[|users| - 1].base.active then 1 else 0)
  {
  }

  /** The last row is counted exactly when it is active, on top of the
      positions before it. */
  lemma ActivePositionsStep(users: seq<User>)
    requires |users| > 0
    ensures var init := users[..|users| - 1];
            && ActivePositions(users) == ActivePositions(init) + (if users[|users| - 1].base.active then {|init|} else {})
            && |init| !in ActivePositions(init)
  {
    var init := users[..|users| - 1];
    assert forall i :: 0 <= i < |init| ==> users[i] == init[i];
  }

  /** The page the pagination library serves: a page number below 1 is
      treated as page 1. */
  function PageNumber(page: int): (p: int)
    ensures p >= 1
    ensures page >= 1 ==> p == page
  {
    if page < 1 then 1 else page
  }

  /** `paginate(page, per_page=10, error_out=False)` over an ordered result:
      the run of ten starting at 10 * (page - 1), clipped at the end; a page
      past the end is empty. */
  function Page<T>(s: seq<T>, page: int): (r: seq<T>)
    ensures var lo := PageSize * (PageNumber(page) - 1);
            && |r| == (if lo < |s| then (if |s| - lo < PageSize then |s| - lo else PageSize) else 0)
            && forall i :: 0 <= i < |r| ==> r[i] == s[lo + i]
  {
    var lo := PageSize * (PageNumber(page) - 1);
    if lo < |s| then s[lo..if lo + PageSize < |s| then lo + PageSize else |s|] else []
  }

  /** The i-th element of the ordered result sits on page i / 10 + 1, at
      slot i % 10. */
  lemma PageSlot<T>(s: seq<T>, i: nat)
    requires i < |s|
    ensures |Page(s, i / PageSize + 1)| > i % PageSize
    ensures Page(s, i / PageSize + 1)[i % PageSize] == s[i]
  {
    var q, off := i / PageSize, i % PageSize;
    assert i == 10 * q + off && 0 <= off < 10;
    assert PageNumber(q + 1) == q + 1;
  }

  /** `GET /users?page=p`: the p-th run of ten in the name order of the
      active users. */
  function ListUsers(users: seq<User>, page: int): (r: seq<User>)
    ensures var s := ByName(ActiveRows(users));
            var lo := PageSize * (PageNumber(page) - 1);
            && |r| == (if lo < |s| then (if |s| - lo < PageSize then |s| - lo else PageSize) else 0)
            && forall i :: 0 <= i < |r| ==> r[i] == s[lo + i]
  {
    Page(ByName(ActiveRows(users)), page)
  }

  /** With K active users, page p holds min(10, K - 10(p - 1)) of them, and
      none once 10(p - 1) reaches K. */
  lemma ListUsersLength(users: seq<User>, page: int)
    ensures var lo := PageSize * (PageNumber(page) - 1);
            var k := ActiveCount(users);
            |ListUsers(users, page)| == (if lo < k then (if k - lo < PageSize then k - lo else PageSize) else 0)
  {
    var active := ActiveRows(users);
    assert |multiset(ByName(active))| == |multiset(active)|;
  }

  /** Every listed user is an active row of the table, and each page is in
      name order. */
  lemma ListedUsersAreActive(users: seq<User>, page: int)
    ensures forall u :: u in ListUsers(users, page) ==> u in users && u.base.active
    ensures SortedByName(ListUsers(users, page))
  {
    var s := ByName(ActiveRows(users));
    var r := ListUsers(users, page);
    forall u | u in r ensures u in users && u.base.active {
      var i :| 0 <= i < |r| && r[i] == u;
      assert u in multiset(s);
    }
  }

  /** Every active user appears on some page. */
  lemma ActiveUserIsListed(users: seq<User>, u: User) returns (page: int)
    requires u in users && u.base.active
    ensures page >= 1 && u in ListUsers(users, page)
  {
    var s := ByName(ActiveRows(users));
    assert u in multiset(ActiveRows(users));
    assert u in multiset(s);
    var i :| 0 <= i < |s| && s[i] == u;
    PageSlot(s, i);
    page := i / PageSize + 1;
  }

  // ---------------------------------------------------------------------
  // Handlers that change state

  /** The commit of an edited row fails: a missing name or email violates
      NOT NULL, an email held by another row violates UNIQUE. */
  predicate EditRejected(users: seq<User>, k: nat, name: Option<string>, email: Option<string>)
    requires k < |users|
  {
    name.None? || email.None? || exists j :: 0 <= j < |users| && j != k && users[j].email == email.value
  }

  /** A row as `edit_user` leaves it. */
  function Edited(u: User, name: string, email: string, newPassword: Option<string>, actor: Option<int>): User
  {
    u.(name := name, email := email,
       password := if newPassword.Some? then GeneratePasswordHash(newPassword.value) else u.password,
       base := OnUpdate(u.base, actor))
  }

  /** `if password and len(password) > 0`: a password was given and is not
      empty. */
  predicate SetsPassword(password: Option<string>)
  {
    password.Some? && |password.value| > 0
  }

  class UserDb {
    /** The user table, in storage order. */
    var rows: seq<User>

    ghost predicate Valid()
      reads this
    {
      UniqueKeys(rows)
    }

    constructor (initial: seq<User>)
      requires UniqueKeys(initial)
      ensures Valid() && rows == initial
    {
      rows := initial;
    }

    /** `POST /users`: the gate decides; on success the new row is appended
        with the next id, a hash of the password, and the caller (if any) as
        creator. */
    method Register(email: string, name: string, password: string, roleValue: string, caller: Option<User>)
      returns (status: Status)
      requires Valid()
      modifies this
      ensures Valid()
      ensures RegisterDecision(old(rows), email, roleValue, caller).Failure? ==>
                status == RegisterDecision(old(rows), email, roleValue, caller).error && rows == old(rows)
      ensures RegisterDecision(old(rows), email, roleValue, caller).Success? ==>
                && status == Created
                && rows == old(rows) + [User(NextId(old(rows)), name, email, GeneratePasswordHash(password),
                                             RegisterDecision(old(rows), email, roleValue, caller).value,
                                             OnInsert(ActorId(caller)))]
    {
      var decision := RegisterDecision(rows, email, roleValue, caller);
      if decision.Failure? {
        status := decision.error;
        return;
      }
      var user := User(NextId(rows), name, email, GeneratePasswordHash(password), decision.value, OnInsert(ActorId(caller)));
      rows := rows + [user];
      status := Created;
    }

    /** `PUT /users/<id>` by an admin. Name and email are replaced by what
        the request holds (possibly nothing). A non-empty password is hashed
        and revokes every pair stored under the old email; that lookup fails
        when the old email has no entry, before anything is saved. The
        revocation happens before the commit, so it stands even when the
        commit is then refused. */
    method EditUser(tokens: TokenStore, id: int, name: Option<string>, email: Option<string>,
                    password: Option<string>, caller: User)
      returns (status: Status)
      requires Valid() && tokens.Valid()
      modifies this, tokens
      ensures Valid() && tokens.Valid()
      ensures tokens.issued == old(tokens.issued)
      ensures FindActive(old(rows), id).None? ==>
                status == NotFound && rows == old(rows) && unchanged(tokens)
      ensures FindActive(old(rows), id).Some? && SetsPassword(password)
              && old(rows)[FindActive(old(rows), id).value].email !in old(tokens.usersTokens) ==>
                status == ServerError && rows == old(rows) && unchanged(tokens)
      ensures FindActive(old(rows), id).Some? && !SetsPassword(password) ==>
                unchanged(tokens)
      ensures FindActive(old(rows), id).Some? && SetsPassword(password)
              && old(rows)[FindActive(old(rows), id).value].email in old(tokens.usersTokens) ==>
                var oldEmail := old(rows)[FindActive(old(rows), id).value].email;
                && tokens.blacklist == old(tokens.blacklist) + Jtis(old(tokens.usersTokens)[oldEmail])
                && tokens.usersTokens == old(tokens.usersTokens)[oldEmail := []]
      ensures FindActive(old(rows), id).Some?
              && !(SetsPassword(password) && old(rows)[FindActive(old(rows), id).value].email !in old(tokens.usersTokens)) ==>
                var k := FindActive(old(rows), id).value;
                if EditRejected(old(rows), k, name, email) then
                  status == ConstraintViolation && rows == old(rows)
                else
                  && status == Ok
                  && rows == old(rows)[k := Edited(old(rows)[k], name.value, email.value,
                                                   if SetsPassword(password) then password else None,
                                                   Some(caller.id))]
    {
      var found := FindActive(rows, id);
      if found.None? {
        status := NotFound;
        return;
      }
      var k := found.value;
      var oldEmail := rows[k].email;
      if SetsPassword(password) {
        if oldEmail !in tokens.usersTokens {
          status := ServerError;
          return;
        }
        tokens.RevokeAll(oldEmail);
      }
      if EditRejected(rows, k, name, email) {
        status := ConstraintViolation;
        return;
      }
      var newPassword := if SetsPassword(password) then password else None;
      var updated := Edited(rows[k], name.value, email.value, newPassword, Some(caller.id));
      rows := rows[k := updated];
      status := Ok;
    }

    /** `PUT /users/<id>/change-password` by `caller`. A missing or
        deactivated user is 404 before anything else; another user's id or a
        wrong current password is 403 and changes nothing; otherwise the new
        hash is stored and every pair stored under the caller's email (when it
        has an entry) is revoked. */
    method ChangePassword(tokens: TokenStore, id: int, caller: User, password: string, newPassword: string)
      returns (status: Status)
      requires Valid() && tokens.Valid()
      modifies this, tokens
      ensures Valid() && tokens.Valid()
      ensures tokens.issued == old(tokens.issued)
      ensures FindActive(old(rows), id).None? ==>
                status == NotFound && rows == old(rows) && unchanged(tokens)
      ensures FindActive(old(rows), id).Some? && id != caller.id ==>
                status == Forbidden && rows == old(rows) && unchanged(tokens)
      ensures FindActive(old(rows), id).Some? && id == caller.id
              && !CheckPasswordHash(old(rows)[FindActive(old(rows), id).value].password, password) ==>
                status == Forbidden && rows == old(rows) && unchanged(tokens)
      ensures FindActive(old(rows), id).Some? && id == caller.id
              && CheckPasswordHash(old(rows)[FindActive(old(rows), id).value].password, password) ==>
                var k := FindActive(old(rows), id).value;
                && status == Ok
                && rows == old(rows)[k := old(rows)[k].(password := GeneratePasswordHash(newPassword),
                                                        base := OnUpdate(old(rows)[k].base, Some(caller.id)))]
                && (caller.email in old(tokens.usersTokens) ==>
                      && tokens.blacklist == old(tokens.blacklist) + Jtis(old(tokens.usersTokens)[caller.email])
                      && tokens.usersTokens == old(tokens.usersTokens)[caller.email := []])
                && (caller.email !in old(tokens.usersTokens) ==> unchanged(tokens))
    {
      var found := FindActive(rows, id);
      if found.None? {
        status := NotFound;
        return;
      }
      if id != caller.id {
        status := Forbidden;
        return;
      }
      var k := found.value;
      if !CheckPasswordHash(rows[k].password, password) {
        status := Forbidden;
        return;
      }
      rows := rows[k := rows[k].(password := GeneratePasswordHash(newPassword), base := OnUpdate(rows[k].base, Some(caller.id)))];
      if caller.email in tokens.usersTokens {
        tokens.RevokeAll(caller.email);
      }
      status := Ok;
    }

    /** `DELETE /users/<id>` by `caller`, an admin. A missing or deactivated
        user is 404; the caller's own row is 403; otherwise only the active
        flag is cleared (and the updater stamped), after which the user is
        not found by id any more. */
    method DeleteUser(id: int, caller: User) returns (status: Status)
      requires Valid()
      modifies this
      ensures Valid()
      ensures FindActive(old(rows), id).None? ==> status == NotFound && rows == old(rows)
      ensures FindActive(old(rows), id).Some? && old(rows)[FindActive(old(rows), id).value].email == caller.email ==>
                status == Forbidden && rows == old(rows)
      ensures FindActive(old(rows), id).Some? && old(rows)[FindActive(old(rows), id).value].email != caller.email ==>
                var k := FindActive(old(rows), id).value;
                && status == Ok
                && rows == old(rows)[k := old(rows)[k].(base := OnUpdate(old(rows)[k].base.(active := false), Some(caller.id)))]
      ensures status == Ok ==> FindActive(rows, id).None? && GetUser(rows, id) == Failure(NotFound)
    {
      var found := FindActive(rows, id);
      if found.None? {
        status := NotFound;
        return;
      }
      var k := found.value;
      if rows[k].email == caller.email {
        status := Forbidden;
        return;
      }
      rows := rows[k := rows[k].(base := OnUpdate(rows[k].base.(active := false), Some(caller.id)))];
      status := Ok;
    }
  }
}
