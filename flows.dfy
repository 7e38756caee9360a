/** Request sequences run against the token bookkeeping and the user table:
    what a client sees after logout, after a password change, after a
    refresh, and after a deactivation. */
module Flows {
  import opened Wrappers
  import opened Http
  import opened UserModel
  import opened AuthUtils
  import opened Tokens
  import opened UserViews
  import opened Slugs
  import opened LostAndFound

  /** Login, use the access token, log out, use it again: the first use is
      accepted, the second refused, and the paired refresh token is refused
      too. */
  method LoginThenLogout(users: seq<User>, email: string, password: string, accessJti: string, refreshJti: string)
    returns (before: Result<User, Status>, after: Result<User, Status>, refreshAfter: Result<User, Status>)
    requires LoginAccepted(users, email, password)
    requires accessJti != refreshJti
    ensures before.Success? && before.value.email == email
    ensures after == Failure(Unauthorized)
    ensures refreshAfter == Failure(Unauthorized)
  {
    var store := new TokenStore();
    var loggedIn := store.Login(users, email, password, accessJti, refreshJti);
    before := VerifyJwt(store.blacklist, users, Some(Token(accessJti, email, Access)), Access);
    var loggedOut := store.Logout(email, accessJti);
    after := VerifyJwt(store.blacklist, users, Some(Token(accessJti, email, Access)), Access);
    refreshAfter := VerifyJwt(store.blacklist, users, Some(Token(refreshJti, email, Refresh)), Refresh);
  }

  /** Login, then change the password: the access token from before the
      change is refused, and the old password no longer logs in. */
  method PasswordChangeRevokes(rows: seq<User>, k: nat, password: string, newPassword: string,
                               accessJti: string, refreshJti: string, retryAccess: string, retryRefresh: string)
    returns (changed: Status, after: Result<User, Status>, relogin: Status)
    requires UniqueKeys(rows) && k < |rows| && rows[k].base.active
    requires CheckPasswordHash(rows[k].password, password) && newPassword != password
    requires accessJti != refreshJti && retryAccess != retryRefresh
    requires retryAccess !in {accessJti, refreshJti} && retryRefresh !in {accessJti, refreshJti}
    ensures changed == Ok
    ensures after == Failure(Unauthorized)
    ensures relogin == Unauthorized
  {
    var user := rows[k];
    FirstWithEmailUnique(rows, k);
    FindActiveUnique(rows, k);
    var db := new UserDb(rows);
    var store := new TokenStore();
    var loggedIn := store.Login(db.rows, user.email, password, accessJti, refreshJti);
    var stored := store.usersTokens[user.email];
    assert stored[0].access == accessJti;
    changed := db.ChangePassword(store, user.id, user, password, newPassword);
    after := VerifyJwt(store.blacklist, db.rows, Some(Token(accessJti, user.email, Access)), Access);
    FirstWithEmailUnique(db.rows, k);
    relogin := store.Login(db.rows, user.email, password, retryAccess, retryRefresh);
  }

  /** A fresh process in which `email` logged in once and then refreshed. */
  method LoginAndRefresh(users: seq<User>, email: string, password: string,
                         accessJti: string, refreshJti: string, refreshedJti: string)
    returns (store: TokenStore)
    requires LoginAccepted(users, email, password)
    requires accessJti != refreshJti && refreshedJti != accessJti && refreshedJti != refreshJti
    ensures fresh(store) && store.Valid()
    ensures store.usersTokens == map[email := [TokenPair(accessJti, refreshJti)]]
    ensures store.blacklist == {}
  {
    store := new TokenStore();
    var loggedIn := store.Login(users, email, password, accessJti, refreshJti);
    assert PairsOf(map[], email) + [TokenPair(accessJti, refreshJti)] == [TokenPair(accessJti, refreshJti)];
    store.Refresh(email, refreshJti, refreshedJti);
  }

  /** With unique emails, an access token naming a row's email and not
      revoked is accepted as that row. */
  lemma UnrevokedAccepted(blacklist: set<string>, rows: seq<User>, k: nat, jti: string)
    requires UniqueKeys(rows) && k < |rows| && jti !in blacklist
    ensures VerifyJwt(blacklist, rows, Some(Token(jti, rows[k].email, Access)), Access) == Success(rows[k])
  {
    FirstWithEmailUnique(rows, k);
  }

  /** Login, refresh, then change the password: the refreshed access token
      was never stored, so the bulk revocation misses it and it is still
      accepted, while the access token from login is refused. */
  method RefreshedTokenSurvivesPasswordChange(rows: seq<User>, k: nat, password: string, newPassword: string,
                                              accessJti: string, refreshJti: string, refreshedJti: string)
    returns (changed: Status, refreshed: Result<User, Status>, original: Result<User, Status>)
    requires UniqueKeys(rows) && k < |rows| && rows[k].base.active
    requires CheckPasswordHash(rows[k].password, password)
    requires accessJti != refreshJti && refreshedJti != accessJti && refreshedJti != refreshJti
    ensures changed == Ok
    ensures refreshed.Success? && refreshed.value.id == rows[k].id
    ensures original == Failure(Unauthorized)
  {
    var user := rows[k];
    FirstWithEmailUnique(rows, k);
    FindActiveUnique(rows, k);
    var db := new UserDb(rows);
    var store := LoginAndRefresh(rows, user.email, password, accessJti, refreshJti, refreshedJti);
    assert Jtis([TokenPair(accessJti, refreshJti)]) == {accessJti, refreshJti};
    changed := db.ChangePassword(store, user.id, user, password, newPassword);
    assert store.blacklist == {accessJti, refreshJti};
    UnrevokedAccepted(store.blacklist, db.rows, k, refreshedJti);
    refreshed := VerifyJwt(store.blacklist, db.rows, Some(Token(refreshedJti, user.email, Access)), Access);
    original := VerifyJwt(store.blacklist, db.rows, Some(Token(accessJti, user.email, Access)), Access);
  }

  /** The token state starts empty at every process start, while an access
      token issued before it is still accepted. Logging out with such a token
      after the same user logged in again in this process revokes it and then
      fails on the missing pair. */
  method EarlierTokenLogoutFails(users: seq<User>, email: string, password: string,
                                 accessJti: string, refreshJti: string, earlierJti: string)
    returns (outcome: Status, earlier: Result<User, Status>, current: Result<User, Status>)
    requires LoginAccepted(users, email, password)
    requires accessJti != refreshJti && earlierJti != accessJti && earlierJti != refreshJti
    ensures outcome == ServerError
    ensures earlier == Failure(Unauthorized)
    ensures current.Success? && current.value.email == email
  {
    var store := new TokenStore();
    var loggedIn := store.Login(users, email, password, accessJti, refreshJti);
    outcome := store.Logout(email, earlierJti);
    earlier := VerifyJwt(store.blacklist, users, Some(Token(earlierJti, email, Access)), Access);
    current := VerifyJwt(store.blacklist, users, Some(Token(accessJti, email, Access)), Access);
  }

  /** Login, refresh, then log out with the refreshed access token: the
      handler fails because the refreshed jti was never stored, after having
      revoked it; the access token from login is still accepted. */
  method RefreshedLogoutFails(users: seq<User>, email: string, password: string,
                              accessJti: string, refreshJti: string, refreshedJti: string)
    returns (outcome: Status, refreshed: Result<User, Status>, original: Result<User, Status>)
    requires LoginAccepted(users, email, password)
    requires accessJti != refreshJti && refreshedJti != accessJti && refreshedJti != refreshJti
    ensures outcome == ServerError
    ensures refreshed == Failure(Unauthorized)
    ensures original.Success? && original.value.email == email
  {
    var store := new TokenStore();
    var loggedIn := store.Login(users, email, password, accessJti, refreshJti);
    store.Refresh(email, refreshJti, refreshedJti);
    outcome := store.Logout(email, refreshedJti);
    refreshed := VerifyJwt(store.blacklist, users, Some(Token(refreshedJti, email, Access)), Access);
    original := VerifyJwt(store.blacklist, users, Some(Token(accessJti, email, Access)), Access);
  }

  /** An admin deactivated by another admin is gone for the user endpoints
      (404 by id), yet a token of theirs that was never revoked still passes
      an admin-only guard: deletion revokes nothing and the identity lookup
      ignores the active flag. */
  method DeactivatedAdminKeepsAccess(rows: seq<User>, target: nat, caller: nat, jti: string, blacklist: set<string>)
    returns (deleted: Status, lookup: Result<User, Status>, guarded: Guarded<int>)
    requires UniqueKeys(rows) && target < |rows| && caller < |rows| && target != caller
    requires rows[target].base.active && rows[target].role == Admin
    requires jti !in blacklist
    ensures deleted == Ok
    ensures lookup == Failure(NotFound)
    ensures guarded == Handled(rows[target].id)
  {
    var db := new UserDb(rows);
    FindActiveUnique(rows, target);
    deleted := db.DeleteUser(rows[target].id, rows[caller]);
    lookup := GetUser(db.rows, rows[target].id);
    FirstWithEmailUnique(db.rows, target);
    guarded := RoleRequired(blacklist, db.rows, Some(Token(jti, rows[target].email, Access)), OneRole(Admin), (u: User) => u.id);
  }

  /** Two categories created one after the other with the same name get
      different slugs: the second is checked against a table that holds the
      first. */
  method SameNameDistinctSlugs(name: Option<string>, categories: seq<Category>, slugify: string -> string,
                               first: nat -> string, second: nat -> string)
    returns (c1: Category, c2: Category)
    requires forall i :: |first(i)| == RandomLength
    requires forall i :: |second(i)| == RandomLength
    requires exists k :: Candidate(SlugPrefix(NameText(name), SlugMaxLength, slugify), first(k)) !in CategorySlugs(categories)
    requires exists k1, k2 :: second(k1) != second(k2)
               && Candidate(SlugPrefix(NameText(name), SlugMaxLength, slugify), second(k1)) !in CategorySlugs(categories)
               && Candidate(SlugPrefix(NameText(name), SlugMaxLength, slugify), second(k2)) !in CategorySlugs(categories)
    ensures c1.slug != c2.slug
  {
    ghost var d1, d2;
    var prefix := SlugPrefix(NameText(name), SlugMaxLength, slugify);
    c1, d1 := NewCategory(name, None, None, None, categories, slugify, first);
    ghost var k1, k2 :| second(k1) != second(k2)
               && Candidate(prefix, second(k1)) !in CategorySlugs(categories)
               && Candidate(prefix, second(k2)) !in CategorySlugs(categories);
    assert CategorySlugs(categories + [c1]) == CategorySlugs(categories) + {c1.slug};
    assert Candidate(prefix, second(k1)) != Candidate(prefix, second(k2)) by {
      assert Candidate(prefix, second(k1))[|prefix| + 1..] == second(k1);
    }
    c2, d2 := NewCategory(name, None, None, None, categories + [c1], slugify, second);
  }
}
