/** The account, invite and session store and the handlers of the authentication routes. */
module Accounts {
  import opened Wrappers
  import opened Schema
  import opened Http
  import opened Admission
  import opened JsString
  import opened Hex

  /** Index of the first row whose `username` is `name`, scanning from row `k` (SELECT ... WHERE username = ?). */
  function FindFrom(users: seq<User>, name: string, k: nat): (r: Option<nat>)
    requires k <= |users|
    ensures r.Some? ==> k <= r.value < |users| && users[r.value].username == name
    ensures r.Some? ==> forall j :: k <= j < r.value ==> users[j].username != name
    ensures r.None? <==> forall j :: k <= j < |users| ==> users[j].username != name
    decreases |users| - k
  {
    if k == |users| then None
    else if users[k].username == name then Some(k)
    else FindFrom(users, name, k + 1)
  }

  function FindByUsername(users: seq<User>, name: string): (r: Option<nat>)
    ensures r.Some? ==> r.value < |users| && users[r.value].username == name
    ensures r.Some? ==> forall j :: 0 <= j < r.value ==> users[j].username != name
    ensures r.None? <==> forall j :: 0 <= j < |users| ==> users[j].username != name
  {
    FindFrom(users, name, 0)
  }

  /** A row appended under a name nobody holds yet is the one login finds;
      under a name already taken, login keeps finding the older row. */
  lemma FindAfterAppend(users: seq<User>, row: User)
    ensures FindByUsername(users + [row], row.username)
         == if FindByUsername(users, row.username).Some? then FindByUsername(users, row.username) else Some(|users|)
  {
    var all := users + [row];
    forall j | 0 <= j < |users|
      ensures all[j] == users[j]
    {
    }
    assert all[|users|] == row;
  }

  /** The `count` field of the generate-invite request body, as JavaScript sees it. */
  datatype CountField =
    | Absent                 // undefined or null
    | Number(n: int)         // a JSON number
    | NumericText(n: int)    // a string that Number() reads as n, e.g. "3" or "0"
    | NonNumericText         // a non-empty string Number() reads as NaN
    | EmptyText              // ""

  /** `!count || isNaN(count)` is false. A string is truthy even when it reads as 0. */
  predicate ValidCount(count: CountField) {
    count.NumericText? || (count.Number? && count.n != 0)
  }

  /** `INSERT INTO invites (code)` under the UNIQUE constraint: a code already present is left as it is. */
  function InsertCode(invites: map<string, int>, code: string): (r: map<string, int>)
    ensures r.Keys == invites.Keys + {code}
    ensures forall c :: c in invites ==> r[c] == invites[c]
    ensures code !in invites ==> r[code] == 0
  {
    if code in invites then invites else invites[code := 0]
  }

  /** The `stmt.run(code)` calls of the minting loop, in order. */
  function InsertCodes(invites: map<string, int>, codes: seq<string>): (r: map<string, int>)
    // no invite that existed is removed or altered
    ensures invites.Keys <= r.Keys
    ensures forall c :: c in invites ==> r[c] == invites[c]
    decreases |codes|
  {
    if codes == [] then invites
    else InsertCode(InsertCodes(invites, codes[..|codes| - 1]), codes[|codes| - 1])
  }

  /** Minting adds every code unused and never alters an invite that already existed. */
  lemma {:induction false} InsertCodesSpec(invites: map<string, int>, codes: seq<string>)
    ensures InsertCodes(invites, codes).Keys == invites.Keys + set c | c in codes
    ensures forall c :: c in invites ==> InsertCodes(invites, codes)[c] == invites[c]
    ensures forall c :: c in InsertCodes(invites, codes) && c !in invites ==> InsertCodes(invites, codes)[c] == 0
  {
    if codes != [] {
      var init := codes[..|codes| - 1];
      InsertCodesSpec(invites, init);
      assert (set c | c in codes) == (set c | c in init) + {codes[|codes| - 1]} by {
        assert codes == init + [codes[|codes| - 1]];
      }
    }
  }

  /** A code is in the table after minting iff it was before or was minted. */
  lemma {:induction false} InsertCodesHas(invites: map<string, int>, codes: seq<string>, c: string)
    ensures c in InsertCodes(invites, codes) <==> c in invites || c in codes
  {
    if codes != [] {
      var n := |codes| - 1;
      InsertCodesHas(invites, codes[..n], c);
      assert codes == codes[..n] + [codes[n]];
    }
  }

  /** With fresh, pairwise distinct codes the table grows by exactly their number. */
  lemma {:induction false} InsertFreshCodes(invites: map<string, int>, codes: seq<string>)
    requires forall i :: 0 <= i < |codes| ==> codes[i] !in invites
    requires forall i, j :: 0 <= i < j < |codes| ==> codes[i] != codes[j]
    ensures |InsertCodes(invites, codes)| == |invites| + |codes|
  {
    if codes != [] {
      var n := |codes| - 1;
      var init, last := codes[..n], codes[n];
      InsertFreshCodes(invites, init);
      InsertCodesHas(invites, init, last);
      assert last !in init;
      var before := InsertCodes(invites, init);
      assert |before[last := 0]| == |before| + 1;
    }
  }

  const InvalidInvite := "Invalid or used invite code"
  const DatabaseError := "Database error"
  const RegisterFailed := "Error registering user."
  const CredentialsRequired := "Username and password are required."
  const UserNotFound := "User not found."
  const InvalidPassword := "Invalid password."
  const InvalidCount := "Please provide a valid count."

  /** The server's tables and the requesting client's `req.session.user`. */
  class Site {
    var users: seq<User>
    var invites: map<string, int>   // code -> used
    var posts: seq<Post>
    var session: Option<SessionUser>
    var nextUserId: int              // AUTOINCREMENT counters of users and posts
    var nextPostId: int

    /** AUTOINCREMENT: ids are unique and below the counter, so a new id is never one in use. */
    ghost predicate Valid()
      reads this
    {
      (forall i :: 0 <= i < |users| ==> users[i].id < nextUserId)
      && (forall i, j :: 0 <= i < j < |users| ==> users[i].id != users[j].id)
      && (forall i :: 0 <= i < |posts| ==> posts[i].id < nextPostId)
      && (forall i, j :: 0 <= i < j < |posts| ==> posts[i].id != posts[j].id)
    }

    /** The empty database of a fresh install, with no one logged in. */
    constructor ()
      ensures Valid()
      ensures users == [] && invites == map[] && posts == [] && session == None
      ensures nextUserId == 1 && nextPostId == 1
    {
      users, invites, posts, session := [], map[], [], None;
      nextUserId, nextPostId := 1, 1;
    }

    /** `SELECT COUNT(*) FROM users` compared with 0. */
    method IsFirstUser() returns (first: bool)
      ensures first <==> users == []
    {
      first := |users| == 0;
    }

    /** POST /login. `verify` is bcrypt.compare; `readOk` is whether the SELECT succeeded. */
    method Login(username: Option<string>, password: Option<string>, readOk: bool,
                 verify: (string, string) -> bool) returns (resp: Response)
      modifies this`session
      ensures Falsy(username) || Falsy(password) ==>
                resp == Status(400, CredentialsRequired) && session == old(session)
      ensures !Falsy(username) && !Falsy(password) && !readOk ==>
                resp == Status(500, DatabaseError) && session == old(session)
      ensures !Falsy(username) && !Falsy(password) && readOk ==>
                var found := FindByUsername(users, username.value);
                && (found.None? ==> resp == Status(401, UserNotFound) && session == old(session))
                && (found.Some? && !verify(password.value, users[found.value].password) ==>
                      resp == Status(401, InvalidPassword) && session == old(session))
                && (found.Some? && verify(password.value, users[found.value].password) ==>
                      var row := users[found.value];
                      resp == Redirect("/")
                      && session == Some(SessionUser(Some(row.id), Some(row.username), Some(row.isAdmin == 1))))
    {
      if Falsy(username) || Falsy(password) {
        return Status(400, CredentialsRequired);
      }
      if !readOk {
        return Status(500, DatabaseError);
      }
      var found := FindByUsername(users, username.value);
      if found.None? {
        return Status(401, UserNotFound);
      }
      var row := users[found.value];
      if !verify(password.value, row.password) {
        return Status(401, InvalidPassword);
      }
      session := Some(SessionUser(Some(row.id), Some(row.username), Some(row.isAdmin == 1)));
      resp := Redirect("/");
    }

    /** Whether invite mode accepts `inviteCode`: it names an invite whose `used` is 0. */
    ghost predicate InviteAccepted(inviteCode: Option<string>)
      reads this
    {
      inviteCode.Some? && inviteCode.value in invites && invites[inviteCode.value] == 0
    }

    /** Whether the request reaches `registerUser`. */
    ghost predicate Admitted(config: Config, inviteCode: Option<string>, inviteReadOk: bool)
      reads this
    {
      CheckRegistrationMode(config, inviteCode).Next?
      && (config.inviteMode ==> inviteReadOk && InviteAccepted(inviteCode))
    }

    /** `SELECT * FROM invites WHERE code = ? AND used = 0` finds a row. */
    method HasUnusedInvite(code: string) returns (found: bool)
      ensures found <==> InviteAccepted(Some(code))
    {
      found := code in invites && invites[code] == 0;
    }

    /** POST /register behind checkRegistrationMode. `hashed` is bcrypt.hash(password);
        `inviteReadOk`, `consumeOk`, `insertOk` and `reloadOk` are the outcomes of the invite
        SELECT, the invite UPDATE, the user INSERT and the SELECT of the new row. */
    method Register(config: Config, inviteCode: Option<string>, username: string, hashed: string,
                    inviteReadOk: bool, consumeOk: bool, insertOk: bool, reloadOk: bool) returns (resp: Response)
      requires Valid()
      modifies this
      ensures Valid()
      ensures posts == old(posts) && nextPostId == old(nextPostId)
      // refused by the admission gate: nothing changes
      ensures CheckRegistrationMode(config, inviteCode).Reject? ==>
                var g := CheckRegistrationMode(config, inviteCode);
                resp == Status(g.status, g.message)
                && users == old(users) && invites == old(invites) && session == old(session)
                && nextUserId == old(nextUserId)
      // invite mode, lookup failed or the code is unknown or used: nothing changes
      ensures CheckRegistrationMode(config, inviteCode).Next? && config.inviteMode && !inviteReadOk ==>
                resp == Status(500, DatabaseError)
                && users == old(users) && invites == old(invites) && session == old(session)
                && nextUserId == old(nextUserId)
      ensures CheckRegistrationMode(config, inviteCode).Next? && config.inviteMode && inviteReadOk
              && !old(InviteAccepted(inviteCode)) ==>
                resp == Status(400, InvalidInvite)
                && users == old(users) && invites == old(invites) && session == old(session)
                && nextUserId == old(nextUserId)
      // admitted: the code, if any, is spent before the insert and stays spent; a failed UPDATE
      // leaves it unspent, and registration goes on regardless
      ensures old(Admitted(config, inviteCode, inviteReadOk)) ==>
                invites == if config.inviteMode && consumeOk then old(invites)[inviteCode.value := 1] else old(invites)
      ensures old(Admitted(config, inviteCode, inviteReadOk)) && !insertOk ==>
                resp == Status(500, RegisterFailed)
                && users == old(users) && session == old(session) && nextUserId == old(nextUserId)
      ensures old(Admitted(config, inviteCode, inviteReadOk)) && insertOk ==>
                users == old(users) + [User(old(nextUserId), Trim(username), hashed, DefaultPfp, DefaultTheme,
                                            DefaultBiography, if old(users) == [] then 1 else 0, None)]
                && nextUserId == old(nextUserId) + 1
      ensures old(Admitted(config, inviteCode, inviteReadOk)) && insertOk && !reloadOk ==>
                resp == Redirect("/login") && session == old(session)
      ensures old(Admitted(config, inviteCode, inviteReadOk)) && insertOk && reloadOk ==>
                resp == Redirect("/")
                && session == Some(SessionUser(Some(old(nextUserId)), Some(Trim(username)), Some(old(users) == [])))
    {
      var gate := CheckRegistrationMode(config, inviteCode);
      if gate.Reject? {
        return Status(gate.status, gate.message);
      }
      var first := IsFirstUser();
      if config.inviteMode {
        if !inviteReadOk {
          return Status(500, DatabaseError);
        }
        var code := inviteCode.value;
        var found := HasUnusedInvite(code);
        if !found {
          return Status(400, InvalidInvite);
        }
        if consumeOk {
          invites := invites[code := 1];
        }
        // the UPDATE's callback ignores its error and calls registerUser either way
      }
      // registerUser(firstUser)
      if !insertOk {
        return Status(500, RegisterFailed);
      }
      var id := nextUserId;
      var name := Trim(username);
      users := users + [User(id, name, hashed, DefaultPfp, DefaultTheme, DefaultBiography,
                             if first then 1 else 0, None)];
      nextUserId := nextUserId + 1;
      if !reloadOk {
        return Redirect("/login");
      }
      session := Some(SessionUser(Some(id), Some(name), Some(first)));
      resp := Redirect("/");
    }

    /** POST /logout: the session user is overwritten with nulls, not removed, and no response is sent. */
    method Logout() returns (resp: Response)
      modifies this`session
      ensures old(session).None? ==> resp == Status(401, NotAuthenticated) && session == None
      ensures old(session).Some? ==> resp == NoResponse && session == Some(LoggedOut)
      // a second logout answers nothing again and leaves the same state
      ensures old(session) == Some(LoggedOut) ==> resp == NoResponse && session == old(session)
    {
      if session.None? {
        return Status(401, NotAuthenticated);
      }
      session := Some(LoggedOut);
      resp := NoResponse;
    }

    /** POST /admin/generate-invite behind requireAdmin. `randomBytes[i]` is the i-th call of
        crypto.randomBytes(16). */
    method GenerateInvite(count: CountField, randomBytes: seq<seq<byte>>) returns (resp: Response)
      requires forall i :: 0 <= i < |randomBytes| ==> |randomBytes[i]| == 16
      requires ValidCount(count) ==> |randomBytes| >= count.n
      modifies this`invites
      ensures RequireAdmin(session).Reject? ==>
                resp == Status(RequireAdmin(session).status, RequireAdmin(session).message)
                && invites == old(invites)
      ensures RequireAdmin(session).Next? && !ValidCount(count) ==>
                resp == Status(400, InvalidCount) && invites == old(invites)
      ensures RequireAdmin(session).Next? && ValidCount(count) ==>
                && resp.Json?
                && |resp.codes| == (if count.n < 0 then 0 else count.n)
                && (forall i :: 0 <= i < |resp.codes| ==> resp.codes[i] == HexEncode(randomBytes[i]))
                && (forall i :: 0 <= i < |resp.codes| ==>
                      |resp.codes[i]| == 32 && forall k :: 0 <= k < 32 ==> IsHexDigit(resp.codes[i][k]))
                && invites == InsertCodes(old(invites), resp.codes)
    {
      var gate := RequireAdmin(session);
      if gate.Reject? {
        return Status(gate.status, gate.message);
      }
      if !ValidCount(count) {
        return Status(400, InvalidCount);
      }
      var codes: seq<string> := [];
      var i := 0;
      while i < count.n
        invariant 0 <= i && (count.n >= 0 ==> i <= count.n) && (count.n < 0 ==> i == 0)
        invariant |codes| == i
        invariant forall j :: 0 <= j < i ==> codes[j] == HexEncode(randomBytes[j])
        invariant invites == InsertCodes(old(invites), codes)
      {
        var code := HexEncode(randomBytes[i]);
        codes := codes + [code];
        assert codes[..|codes| - 1] == codes[..i];
        invites := InsertCode(invites, code);
        i := i + 1;
      }
      resp := Json(codes);
    }
  }
}
