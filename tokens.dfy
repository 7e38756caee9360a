/** The process-wide token bookkeeping (app.py, auth/views.py): for each
    email, the list of (access jti, refresh jti) pairs handed out at login,
    and the set of revoked jtis. Jtis are opaque strings the token library
    makes up; every one it hands out is new. */
module Tokens {
  import opened Wrappers
  import opened Seqs
  import opened Http
  import opened UserModel

  /** One entry of an email's list: the jti of an access token and the jti of
      the refresh token issued with it. */
  datatype TokenPair = TokenPair(access: string, refresh: string)

  /** How a jti came to exist: at login (access or refresh), as a new
      access token issued by refresh, or as an access token issued before
      the process started, which the token library still accepts because the
      signing key outlives the process. */
  datatype GrantKind = LoginAccess | LoginRefresh | RefreshedAccess | EarlierAccess

  datatype Grant = Grant(identity: string, kind: GrantKind)

  /** Every access and refresh jti of a list of pairs. */
  function Jtis(pairs: seq<TokenPair>): (r: set<string>)
    ensures forall j :: j in r <==> exists i :: 0 <= i < |pairs| && (pairs[i].access == j || pairs[i].refresh == j)
  {
    if |pairs| == 0 then {}
    else
      var init := pairs[..|pairs| - 1];
      assert forall i :: 0 <= i < |init| ==> init[i] == pairs[i];
      Jtis(init) + {pairs[|pairs| - 1].access, pairs[|pairs| - 1].refresh}
  }

  /** The first pair of the list whose access jti is `jti`, if any. */
  function FirstAccess(pairs: seq<TokenPair>, jti: string): (r: Option<nat>)
    ensures r.Some? ==> r.value < |pairs| && pairs[r.value].access == jti
    ensures r.Some? ==> forall i :: 0 <= i < r.value ==> pairs[i].access != jti
    ensures r.None? <==> forall i :: 0 <= i < |pairs| ==> pairs[i].access != jti
  {
    FirstIndex(pairs, (p: TokenPair) => p.access == jti)
  }

  /** Some pair of the list has `jti` as its access jti. */
  predicate HasAccess(pairs: seq<TokenPair>, jti: string)
  {
    exists i :: 0 <= i < |pairs| && pairs[i].access == jti
  }

  /** The list an email has, or the empty list when it has no entry. */
  function PairsOf(usersTokens: map<string, seq<TokenPair>>, email: string): seq<TokenPair>
  {
    if email in usersTokens then usersTokens[email] else []
  }

  /** Login accepts the credentials: the first user with that email exists
      and the password matches its hash. */
  predicate LoginAccepted(users: seq<User>, email: string, password: string)
  {
    var u := FirstWithEmail(users, email);
    u.Some? && CheckPasswordHash(u.value.password, password)
  }

  lemma HasAccessAfterRemove(pairs: seq<TokenPair>, k: nat, jti: string)
    requires k < |pairs| && HasAccess(pairs, jti) && pairs[k].access != jti
    ensures HasAccess(pairs[..k] + pairs[k + 1..], jti)
  {
    var i :| 0 <= i < |pairs| && pairs[i].access == jti;
    var rest := pairs[..k] + pairs[k + 1..];
    if i < k {
      assert rest[i] == pairs[i];
    } else {
      assert rest[i - 1] == pairs[i];
    }
  }

  /** A pair stored under `email` was handed out together at a login of
      that email. */
  ghost predicate Recorded(issued: map<string, Grant>, email: string, p: TokenPair)
  {
    && p.access in issued && issued[p.access] == Grant(email, LoginAccess)
    && p.refresh in issued && issued[p.refresh] == Grant(email, LoginRefresh)
  }

  /** Only issued jtis are revoked; every stored pair came from a login of
      its email; and an access jti issued at login that is not revoked still
      has its pair stored under its identity. */
  ghost predicate Consistent(usersTokens: map<string, seq<TokenPair>>, blacklist: set<string>, issued: map<string, Grant>)
  {
    && blacklist <= issued.Keys
    && (forall email, i | email in usersTokens && 0 <= i < |usersTokens[email]| ::
          Recorded(issued, email, usersTokens[email][i]))
    && (forall jti | jti in issued && issued[jti].kind == LoginAccess && jti !in blacklist ::
          issued[jti].identity in usersTokens && HasAccess(usersTokens[issued[jti].identity], jti))
  }

  /** A login that hands out two new jtis and appends their pair keeps the
      state consistent. */
  lemma LoginKeepsConsistent(usersTokens: map<string, seq<TokenPair>>, blacklist: set<string>, issued: map<string, Grant>,
                             email: string, accessJti: string, refreshJti: string)
    requires Consistent(usersTokens, blacklist, issued)
    requires accessJti != refreshJti && accessJti !in issued && refreshJti !in issued
    ensures Consistent(usersTokens[email := PairsOf(usersTokens, email) + [TokenPair(accessJti, refreshJti)]], blacklist,
                       issued[accessJti := Grant(email, LoginAccess)][refreshJti := Grant(email, LoginRefresh)])
  {
    var pair := TokenPair(accessJti, refreshJti);
    var ut := usersTokens[email := PairsOf(usersTokens, email) + [pair]];
    var iss := issued[accessJti := Grant(email, LoginAccess)][refreshJti := Grant(email, LoginRefresh)];
    forall e, i | e in ut && 0 <= i < |ut[e]| ensures Recorded(iss, e, ut[e][i]) {
      if e == email && i == |ut[e]| - 1 {
        assert ut[e][i] == pair;
      } else if e == email {
        assert ut[e][i] == usersTokens[e][i];
      }
    }
    forall jti | jti in iss && iss[jti].kind == LoginAccess && jti !in blacklist
      ensures iss[jti].identity in ut && HasAccess(ut[iss[jti].identity], jti)
    {
      var e := iss[jti].identity;
      if jti == accessJti {
        assert ut[e][|ut[e]| - 1] == pair;
      } else {
        var i :| 0 <= i < |usersTokens[e]| && usersTokens[e][i].access == jti;
        if e == email {
          assert ut[e][i] == usersTokens[e][i];
        }
      }
    }
  }

  class TokenStore {
    /** `users_tokens`: email to its list of pairs. */
    var usersTokens: map<string, seq<TokenPair>>
    /** `blacklist`: revoked jtis. */
    var blacklist: set<string>
    /** Every jti the token library has handed out in this process, and
        every earlier access jti logged out here, with the identity it
        carries and how it was issued. */
    ghost var issued: map<string, Grant>

    ghost predicate Valid()
      reads this
    {
      Consistent(usersTokens, blacklist, issued)
    }

    /** The state at start-up: no pairs, nothing revoked. */
    constructor ()
      ensures Valid()
      ensures usersTokens == map[] && blacklist == {} && issued == map[]
    {
      usersTokens := map[];
      blacklist := {};
      issued := map[];
    }

    /** `POST /auth/login`. On accepted credentials the new pair goes to the
        end of the email's list (which is created when missing) and nothing
        else changes; otherwise nothing changes at all. */
    method Login(users: seq<User>, email: string, password: string, accessJti: string, refreshJti: string)
      returns (status: Status)
      requires Valid()
      requires accessJti != refreshJti && accessJti !in issued && refreshJti !in issued
      modifies this
      ensures Valid()
      ensures LoginAccepted(users, email, password) ==>
                && status == Ok
                && usersTokens == old(usersTokens)[email := PairsOf(old(usersTokens), email) + [TokenPair(accessJti, refreshJti)]]
                && blacklist == old(blacklist)
                && issued == old(issued)[accessJti := Grant(email, LoginAccess)][refreshJti := Grant(email, LoginRefresh)]
      ensures !LoginAccepted(users, email, password) ==>
                && status == Unauthorized
                && usersTokens == old(usersTokens) && blacklist == old(blacklist) && issued == old(issued)
    {
      var user := FirstWithEmail(users, email);
      if user.Some? && CheckPasswordHash(user.value.password, password) {
        LoginKeepsConsistent(usersTokens, blacklist, issued, email, accessJti, refreshJti);
        var pair := TokenPair(accessJti, refreshJti);
        if email in usersTokens {
          usersTokens := usersTokens[email := usersTokens[email] + [pair]];
        } else {
          assert PairsOf(usersTokens, email) + [pair] == [pair];
          usersTokens := usersTokens[email := [pair]];
        }
        issued := issued[accessJti := Grant(email, LoginAccess)][refreshJti := Grant(email, LoginRefresh)];
        status := Ok;
      } else {
        status := Unauthorized;
      }
    }

    /** `POST /auth/refresh`, given a refresh token the token library has
        accepted: one from a login of this process, or one issued before the
        process started. It hands out a new access jti for the same identity
        and records it nowhere. */
    method Refresh(identity: string, refreshJti: string, newAccessJti: string)
      requires Valid()
      requires refreshJti in issued ==> issued[refreshJti] == Grant(identity, LoginRefresh)
      requires refreshJti !in blacklist
      requires newAccessJti !in issued && newAccessJti != refreshJti
      modifies this
      ensures Valid()
      ensures usersTokens == old(usersTokens) && blacklist == old(blacklist)
      ensures issued == old(issued)[newAccessJti := Grant(identity, RefreshedAccess)]
    {
      issued := issued[newAccessJti := Grant(identity, RefreshedAccess)];
    }

    /** `DELETE /auth/logout`, given an access token the token library has
        accepted. The jti is revoked first, whatever happens next. When the
        identity has a list, the first pair with that access jti is removed
        and its refresh jti revoked; when the list has no such pair, the
        handler fails on the missing pair after the jti was revoked. An
        access token issued before the process started is accepted too, and
        is recorded from now on as an earlier one. */
    method Logout(identity: string, jti: string) returns (status: Status)
      requires Valid()
      requires jti in issued ==> issued[jti].identity == identity && issued[jti].kind != LoginRefresh
      requires jti !in blacklist
      modifies this
      ensures Valid()
      ensures jti in old(issued) ==> issued == old(issued)
      ensures jti !in old(issued) ==> issued == old(issued)[jti := Grant(identity, EarlierAccess)]
      ensures jti in blacklist && old(blacklist) <= blacklist
      ensures identity !in old(usersTokens) ==>
                status == Ok && usersTokens == old(usersTokens) && blacklist == old(blacklist) + {jti}
      ensures identity in old(usersTokens) && FirstAccess(old(usersTokens)[identity], jti).None? ==>
                status == ServerError && usersTokens == old(usersTokens) && blacklist == old(blacklist) + {jti}
      ensures identity in old(usersTokens) && FirstAccess(old(usersTokens)[identity], jti).Some? ==>
                var pairs := old(usersTokens)[identity];
                var k := FirstAccess(pairs, jti).value;
                && status == Ok
                && usersTokens == old(usersTokens)[identity := pairs[..k] + pairs[k + 1..]]
                && blacklist == old(blacklist) + {jti, pairs[k].refresh}
      ensures jti in old(issued) && old(issued)[jti].kind == LoginAccess ==> status == Ok
      ensures jti in old(issued) && old(issued)[jti].kind == RefreshedAccess ==>
                (status == ServerError <==> identity in old(usersTokens))
      ensures jti !in old(issued) ==> (status == ServerError <==> identity in old(usersTokens))
    {
      if jti !in issued {
        issued := issued[jti := Grant(identity, EarlierAccess)];
      }
      blacklist := blacklist + {jti};
      if identity in usersTokens {
        var pairs := usersTokens[identity];
        var k := 0;
        while k < |pairs| && pairs[k].access != jti
          invariant 0 <= k <= |pairs|
          invariant forall i :: 0 <= i < k ==> pairs[i].access != jti
        {
          k := k + 1;
        }
        if k == |pairs| {
          status := ServerError;
          return;
        }
        assert Recorded(issued, identity, pairs[k]);
        var refresh := pairs[k].refresh;
        var rest := pairs[..k] + pairs[k + 1..];
        assert forall i :: 0 <= i < |rest| ==> rest[i] == pairs[if i < k then i else i + 1];
        usersTokens := usersTokens[identity := rest];
        blacklist := blacklist + {refresh};
        forall j | j in issued && issued[j].kind == LoginAccess && j !in blacklist
          ensures issued[j].identity in usersTokens && HasAccess(usersTokens[issued[j].identity], j)
        {
          if issued[j].identity == identity {
            HasAccessAfterRemove(pairs, k, j);
          }
        }
      }
      status := Ok;
    }

    /** The bulk revocation done by a password change or by an edit that
        sets a password: every access and refresh jti stored under `email` is
        revoked and the email's list becomes empty. */
    method RevokeAll(email: string)
      requires Valid()
      requires email in usersTokens
      modifies this
      ensures Valid()
      ensures issued == old(issued)
      ensures blacklist == old(blacklist) + Jtis(old(usersTokens)[email])
      ensures usersTokens == old(usersTokens)[email := []]
    {
      var pairs := usersTokens[email];
      var i := 0;
      while i < |pairs|
        invariant 0 <= i <= |pairs|
        invariant blacklist == old(blacklist) + Jtis(pairs[..i])
        invariant usersTokens == old(usersTokens) && issued == old(issued)
      {
        assert pairs[..i + 1][..i] == pairs[..i];
        blacklist := blacklist + {pairs[i].access, pairs[i].refresh};
        i := i + 1;
      }
      assert pairs[..i] == pairs;
      usersTokens := usersTokens[email := []];
      forall j | j in issued && issued[j].kind == LoginAccess && j !in old(blacklist) && issued[j].identity == email
        ensures j in blacklist
      {
        var m :| 0 <= m < |pairs| && pairs[m].access == j;
      }
    }
  }
}
