# Lost-and-found API: token revocation, user handlers, slugs

This project models the core of a small Flask REST API for a lost-and-found
service in Dafny. It covers three parts:

- **Token bookkeeping.** The API keeps two process-wide structures:
  - `users_tokens` maps each email to the list of (access jti, refresh jti) pairs handed out at login.
  - `blacklist` is the set of revoked jtis.

  Login, refresh, logout and the bulk revocation done by a password change or an admin edit all update these two structures. A protected endpoint refuses a token whose jti is revoked. The `role_required` guard then checks the caller's role.

  This part is the class `Tokens.TokenStore`, whose methods update the map and the set in place. A ghost map records every jti the token library has handed out. Its invariant `Valid()` says: "an access jti issued at login that is not revoked still has its pair stored under its email". From that invariant the model proves when logout succeeds and when it crashes.
- **User handlers.** The user table is a sequence of rows in storage order (`UserViews.UserDb`). The pure decisions are the register gate, the active-only lookup by id, and the paginated listing (ten active users per page, ordered by name). They are functions. The handlers that change the table or the token state are methods with full before/after contracts:
  - register;
  - edit;
  - change password;
  - soft delete.
- **Slugs and the item constraint.** `slugify_field` builds a prefix and draws random suffixes until the candidate is unused in the model's own table. The model proves that the result is free, that it is the first free draw, and that earlier draws all collided. The Category and Item constructors always replace the slug. The model also covers the Item check constraint: see "## Findings".

The modules follow the source:
- `BaseModel` and `Slugs` model utils/models.py.
- `UserModel` holds the record types of users/models.py and the shared queries.
- `AuthUtils` models auth/utils.py.
- `Tokens` models the token state of app.py and auth/views.py.
- `UserViews` models users/views.py.
- `LostAndFound` models lostandfound/models.py.
- `Flows` strings the operations together into request sequences and proves what a client observes.

Two handlers fail on states their own code allows:
- The logout handler documents only a 200 response (auth/views.py:77-79). Yet when the identity has a list with no pair for the presented jti, it dereferences the missing pair (auth/views.py:86-87) after having revoked the jti (auth/views.py:82). A refreshed access token is never stored (auth/views.py:64-66), so logging out with one fails this way whenever the identity has a list. The model answers `ServerError` there.
- `edit_user` with a password indexes `users_tokens` by the old email without a membership check (users/views.py:96). The model answers `ServerError` when the old email has no list.

The token state lives only in process memory (app.py:23-24), and two consequences follow:
- Bulk revocation covers only what is stored in `users_tokens` (users/views.py:96-100, 138-143). A password change, or an admin edit that sets a password, therefore leaves every access token obtained by refresh valid.
- The state starts empty at every process start, while the signing key outlives the process. An unexpired token from an earlier run is therefore still accepted, and revocations made before a restart are forgotten. `TokenStore` covers one process lifetime: it starts empty, accepts earlier tokens at refresh and logout, and records an earlier access token as such once it is logged out. Logout with one fails exactly as logout with a refreshed token does.

Foreign code and randomness are parameters of the model:
- jtis are fresh strings supplied by the caller;
- `slugify` is a function `string -> string`;
- the random suffix generator is a stream `nat -> string`;
- the password hash is an opaque record that a check compares against.

## Model

| member | source | states |
|---|---|---|
| Seqs.FirstIndex | auth/views.py:85-86 | the index found is the first element satisfying the test; None exactly when no element does |
| BaseModel.OnInsert | utils/models.py:12-32 | a new row is active, and created_by and updated_by are both the acting user (or null) |
| BaseModel.OnUpdate | utils/models.py:26-32 | an update re-stamps only updated_by with the actor; active and created_by are kept |
| BaseModel.CreatorSurvivesUpdates | utils/models.py:19-32 | after any run of updates the creator is still the inserting user, the row is still active, and the updater is the last actor |
| Slugs.PyPrefix | utils/models.py:51-52 | Python `s[:n]`: a prefix of `s`, of length n clipped to the string, and negative n drops characters from the end |
| Slugs.Candidate | utils/models.py:52 | a candidate is the prefix, then '-', then the suffix, with exactly that length |
| Slugs.SlugifyField | utils/models.py:50-55 | the slug returned is not used in the table; it is the candidate of the first draw that is free; every earlier draw collided; it is the prefix plus six characters |
| UserModel.RoleFromValue | users/views.py:172-174 | a role is found exactly for "admin" and "regular", and it carries that value |
| UserModel.RoleValueRoundTrip | users/models.py:7-9 | each role is found again from its value |
| UserModel.ActorId | utils/models.py:45-47 | the logged-in user's id, or null exactly when nobody is logged in |
| UserModel.FirstWithEmail | auth/utils.py:10-13 | the identity resolves to the first row with that email, active or not, or to none exactly when no row has it |
| UserModel.FindActive | users/views.py:62 | the row found has the id and is active; none exactly when no active row has the id |
| UserModel.FirstWithEmailUnique | users/models.py:15 | with unique emails, lookup by a row's email yields that row |
| UserModel.FindActiveUnique | users/models.py:13 | with unique ids, the active lookup of a row's id finds that row |
| AuthUtils.VerifyJwt | auth/utils.py:39-42 | a token is accepted exactly when it is present, of the right kind, not revoked, and its identity resolves to a user; a revoked jti is always refused with 401 |
| AuthUtils.HasPermission | auth/utils.py:22-28 | with one role, permission iff equal; with a list, iff a member; any other argument never grants |
| AuthUtils.OneRoleIsSingletonList | auth/utils.py:23-30 | a single role and the one-element list of it grant the same access; any other argument grants none |
| AuthUtils.RoleRequired | auth/utils.py:16-36 | the handler runs exactly when the token is accepted and the role is permitted, and its result is returned unchanged; a refusal is 401 or 403, and 403 once the token is accepted |
| AuthUtils.RefusalIgnoresHandler | auth/utils.py:29-30 | a refused request gives the same refusal whatever the handler |
| AuthUtils.RevokedTokenIsRefused | auth/utils.py:39-42 | a revoked token is refused with 401 by every guarded endpoint |
| Tokens.Jtis | users/views.py:96-99 | a jti is in the set exactly when it is the access or refresh jti of some pair |
| Tokens.FirstAccess | auth/views.py:85-86 | the first pair whose access jti matches, or none when no pair matches |
| Tokens.HasAccessAfterRemove | auth/views.py:88 | removing a pair with a different access jti keeps a stored access jti stored |
| Tokens.LoginKeepsConsistent | auth/views.py:33-42 | appending a pair of two new login jtis keeps every stored pair recorded and every unrevoked login access jti stored |
| Tokens.TokenStore.constructor | app.py:23-24 | the state starts with no pairs and nothing revoked |
| Tokens.TokenStore.Login | auth/views.py:27-49 | on accepted credentials, exactly one pair is appended to the end of the email's list (created when missing) and nothing else changes; otherwise 401 and nothing changes |
| Tokens.TokenStore.Refresh | auth/views.py:64-66 | given a refresh token from a login of this process or from before it started, a new access jti is issued for the same identity; neither the map nor the blacklist changes |
| Tokens.TokenStore.Logout | auth/views.py:81-90 | the presented jti is always revoked and the blacklist only grows; with a matching pair, the first one is removed and its refresh jti revoked; with an entry but no match, 500; a login token of this process always logs out, while a refreshed one, or one issued before the process started, fails exactly when the identity has an entry |
| Tokens.TokenStore.RevokeAll | users/views.py:138-143 | every access and refresh jti stored under the email is revoked and the email's list becomes empty; nothing else changes |
| UserViews.RegisterDecision | users/views.py:164-178 | duplicate email is 409 before anything else; an unknown role is 422; an admin needs a logged-in admin, else 403; success exactly otherwise, with the role named |
| UserViews.NextId | users/views.py:179-181 | a new row's id is positive and above every id in use |
| UserViews.GetUser | users/views.py:62-67 | success exactly when an active row has the id, and the row is that one; otherwise 404 |
| UserViews.NameLeqTotal | users/views.py:42 | any two names are ordered one way or the other |
| UserViews.NameLeqTransitive | users/views.py:42 | the name order is transitive |
| UserViews.SortedCons | users/views.py:42 | a name no greater than all of a sorted list can go in front of it |
| UserViews.InsertByName | users/views.py:42 | insertion into a sorted list keeps it sorted and adds exactly that row |
| UserViews.ByName | users/views.py:42 | the rows ordered by name: sorted and a permutation of the input |
| UserViews.ActiveRows | users/views.py:42 | a row is kept exactly when it is in the table and active |
| UserViews.ActiveRowsCounts | users/views.py:25 | each active row occurs in the listing as often as in the table, and no inactive row occurs |
| UserViews.ActiveCount | users/views.py:25-26 | the number of positions holding an active row, equal to the length of the active listing, at most the table size, zero exactly when no row is active |
| UserViews.NoActivePositions | users/views.py:25 | no position is counted exactly when no row is active |
| UserViews.ActiveRowsLength | users/views.py:42 | the active listing grows by one exactly for an active last row |
| UserViews.ActivePositionsStep | users/views.py:25 | the last position is counted exactly when its row is active |
| UserViews.PageNumber | users/views.py:41-42 | a page below 1 is served as page 1; any other page is itself |
| UserViews.Page | users/views.py:42 | page p of an ordered result is its slice [10(p-1), 10p), clipped at the end, and empty past it; a page below 1 is page 1 |
| UserViews.PageSlot | users/views.py:42 | the i-th element of the ordered result is on page i / 10 + 1, at slot i % 10 |
| UserViews.ListUsers | users/views.py:41-42 | page p holds the slice [10(p-1), 10p) of the active rows in name order, clipped at the end, and empty past it |
| UserViews.ListUsersLength | users/views.py:41-42 | with K active users, page p holds min(10, K - 10(p-1)) users, and none once 10(p-1) reaches K |
| UserViews.ListedUsersAreActive | users/views.py:42 | every listed user is an active row, and each page is in name order |
| UserViews.ActiveUserIsListed | users/views.py:41-42 | every active user appears on some page |
| UserViews.UserDb.constructor | users/models.py:12-17 | the table starts as the given rows, with unique ids and emails |
| UserViews.UserDb.Register | users/views.py:164-183 | a refusal changes nothing; on success exactly one row is appended with a fresh id, the hashed password, the decided role and the caller as creator, and the answer is 201 |
| UserViews.UserDb.EditUser | users/views.py:87-105 | a missing or deactivated user is 404; a non-empty password revokes every pair of the old email, and is 500 exactly when the old email has no list; a name or email change alone revokes nothing; in every other case a refused commit keeps the table, and otherwise the row gets the new name, email and hash with 200 |
| UserViews.UserDb.ChangePassword | users/views.py:125-146 | 404 for a missing user; 403 for another user's id or a wrong password, changing nothing; otherwise the new hash is stored and every pair of the caller's email is revoked (token state unchanged when there is no entry) |
| UserViews.UserDb.DeleteUser | users/views.py:201-210 | 404 for a missing or deactivated user; 403 for the caller's own row; otherwise only the active flag is cleared, and the user is then not found |
| LostAndFound.AsWrittenAdmitsEveryRow | lostandfound/models.py:39-45 | the constraint as written admits every row, including one looking for something with no reason |
| LostAndFound.ItemAdmissible | lostandfound/models.py:44-45 | a row is admissible iff it is not looking for something with a null reason; a found row always is |
| LostAndFound.NewCategory | lostandfound/models.py:27-30 | the caller's slug is replaced by a slug free among categories, built from the name (or '' when missing); the other fields are kept and the insert defaults applied |
| LostAndFound.NewItem | lostandfound/models.py:47-50 | the caller's slug is replaced by a slug free among items, built from the name; the other fields are kept and the insert defaults applied |
| LostAndFound.InsertItem | lostandfound/models.py:35-45 | a commit succeeds exactly when name and description are present, the check constraint holds as intended (`ItemAdmissible`, not as written), and the slug is unused; it then adds the row and its slug; any refusal is a constraint violation |
| LostAndFound.NewItemCommits | lostandfound/models.py:35-50 | an item with a free slug is refused exactly when its name or description is missing, or it is looking for something without a reason |
| Flows.LoginThenLogout | auth/views.py:81-89 | after login the access token is accepted; after logout it is refused, and so is the paired refresh token |
| Flows.PasswordChangeRevokes | users/views.py:133-143 | after a password change the access token from login is refused and the old password no longer logs in |
| Flows.LoginAndRefresh | auth/views.py:27-66 | in a fresh process, one login followed by a refresh leaves exactly the login pair stored and nothing revoked |
| Flows.UnrevokedAccepted | auth/utils.py:10-42 | with unique emails, an unrevoked access token naming a row's email is accepted as that row |
| Flows.RefreshedTokenSurvivesPasswordChange | users/views.py:135-143 | an access token obtained by refresh before a password change is still accepted after it, while the login access token is refused |
| Flows.EarlierTokenLogoutFails | auth/views.py:81-87 | logging out with an access token issued before the process started, after the user logged in again, revokes it and fails with 500; the new login token stays valid |
| Flows.RefreshedLogoutFails | auth/views.py:64-87 | logout with a refreshed access token fails with 500 after revoking it; the login access token stays valid |
| Flows.DeactivatedAdminKeepsAccess | users/views.py:201-208 | a deactivated admin is 404 by id, yet an unrevoked token of theirs still passes an admin-only guard |
| Flows.SameNameDistinctSlugs | lostandfound/models.py:27-30 | two categories created in turn with the same name get different slugs |

## Left out

- HTTP routing, JSON request parsing and responses are not modelled. A missing JSON key raises before any state changes. A response body is a status here. Serialisation, which drops the password field, is not modelled either.
- JWT encoding, signatures and expiry are not modelled. Neither is the library's own choice of error code: every token refusal is 401 here. Jtis are fresh strings that the caller supplies.
- Password hashing is an opaque record. The salt is not modelled.
- `slugify` and `get_random_string` are parameters, and no bound on slug length is claimed.
- The ORM session is not modelled: queries, commits and rollbacks. A refused commit (NOT NULL or UNIQUE) is the status `ConstraintViolation`. The responses to it come from error handlers that are not part of this model.
- `created_on` and `updated_on` are database clock values and are not modelled.
- Thread-safety of the process-wide token state is not modelled. The model is sequential.
- The `ItemImage` entity has no behaviour and is not modelled.
- The Category parent relationship is not modelled. `parentCategoryId` is an optional integer, and the model does not check that it refers to an existing category.
- Slugs.SlugifyField: the source loops until a free draw appears and may never stop. The model requires that some draw of the random stream is free, and that requirement stands in for termination.
- Slugs.SlugifyField: the uniqueness test is modelled as "the slug is among the table's slugs". The source writes it as `.exists()` on a query object, and its truth value is an ORM detail.
- UserViews.UserDb.EditUser: updated_by is re-stamped on every successful edit. The ORM skips the UPDATE, and so the re-stamp, when no column actually changed.
- UserViews.ByName: rows with equal names keep their table order. `ORDER BY name` leaves the order of equal names to the database, so the model fixes page boundaries between equal-named users that the database may cut differently.
- UserViews.UserDb.Register: the new id is one past the largest id in use. The database's own autoincrement may skip ids.

## Findings

| source | as written | input that shows it | evidently intended | confidence | as-written member | corrected member |
|---|---|---|---|---|---|---|
| lostandfound/models.py:39-45 | the check constraint compares `reason` with 'Looking For', but an enumeration column stores the member name `looking_for` | an Item with reason `looking_for` and a null `looking_for_reason` is admitted | refuse an item that is looking for something without a reason | not executed; medium, because it depends on the ORM storing enumeration names | LostAndFound.AsWrittenAdmitsEveryRow | LostAndFound.ItemAdmissible |
