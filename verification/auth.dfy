/** Login and the token gate of both server generations: `apiAuthenticate`
    and `Authenticator` in `Router.go`, `Authenticate` and
    `NewAuthenticationMiddleware` in `api/authentication.go`. A successful
    login splits the signed token: header and claims go to the JSON body,
    the signature to the `auth` cookie; the gate glues them back together. */
module Auth {
  import opened Outcomes
  import opened Text
  import opened Jwt

  /** The decoded login body. */
  datatype Login = Login(username: string, password: string)

  /** A record of the bbolt `users` bucket as the cursor yields it. */
  datatype StoredUser = StoredUser(username: string, hash: string) | Garbled

  /** A row of the gorm `users` table. */
  datatype UserRow = UserRow(username: string, hash: string)

  /** `argon2id.ComparePasswordAndHash`. */
  datatype HashCheck = Match | NoMatch | HashError

  /** What a login request gets back: a status, the value of the `auth`
      cookie when one is set and the JSON token when one is written; or the
      index-out-of-range panic of `parts[2]`. */
  datatype LoginReply = Reply(status: Status, cookie: Option<string>, token: Option<string>)
                      | Panicked

  /** The outcome of a gate: the request is refused with a status, or the
      inner handler runs with the reassembled token. */
  datatype Gate = Deny(status: Status) | Pass(token: string)

  /** `time.Minute * 115` in nanoseconds; the `exp` claim is written with
      `UnixNano`. */
  const TokenLifetime: int := 115 * 60 * 1_000_000_000

  function Refuse(status: Status): LoginReply
  {
    Reply(status, None, None)
  }

  /** Sign a token for `username` and split it: segment 3 becomes the
      cookie, segments 1 and 2 joined by "." the body token. */
  function Issue(lib: Lib, username: string, now: int, status: Status): LoginReply
  {
    var parts := Split(SignedString(lib, username, now + TokenLifetime), '.');
    if |parts| < 3 then Panicked
    else Reply(status, Some(parts[2]), Some(parts[0] + "." + parts[1]))
  }

  /** With a well-formed library the split never panics, the cookie is the
      signature segment and body + "." + cookie is the signed token. */
  lemma IssueSplit(lib: Lib, username: string, now: int, status: Status)
    requires Wellformed(lib)
    ensures var r := Issue(lib, username, now, status);
            && r.Reply? && r.status == status
            && r.cookie.Some? && r.token.Some?
            && r.token.value + "." + r.cookie.value == SignedString(lib, username, now + TokenLifetime)
            && SegmentText(r.cookie.value)
            && Split(r.token.value, '.') == [lib.headerSeg(Hs256), lib.claimsSeg(username, now + TokenLifetime)]
  {
    var exp := now + TokenLifetime;
    SignedSegments(lib, username, exp);
    var h := lib.headerSeg(Hs256);
    var c := lib.claimsSeg(username, exp);
    SplitTwo(h, c, '.');
  }

  // ---------------------------------------------------------------------
  // Router.go

  /** `apiAuthenticate`: a body that fails to parse is answered 400 by
      `parseJsonRequest` (the later 500 is a superfluous header); an empty
      password 401 before any lookup; then the users bucket is scanned. */
  function RouterLogin(lib: Lib, verify: (string, string) -> HashCheck,
                       body: Option<Login>, users: seq<StoredUser>, now: int): (r: LoginReply)
    ensures body.None? ==> r == Refuse(StatusBadRequest)
    ensures body.Some? && body.value.password == "" ==> r == Refuse(StatusUnauthorized)
    ensures r.Reply? && r.status != StatusCreated ==> r.cookie.None? && r.token.None?
  {
    match body
    case None => Refuse(StatusBadRequest)
    case Some(login) =>
      if login.password == "" then Refuse(StatusUnauthorized)
      else RouterScan(lib, verify, login, users, now)
  }

  /** The cursor loop over the users bucket: a record that does not decode
      aborts with 500; records of other users are skipped; the first record
      of the user decides. */
  function RouterScan(lib: Lib, verify: (string, string) -> HashCheck,
                      login: Login, users: seq<StoredUser>, now: int): (r: LoginReply)
    ensures r.Reply? && r.status != StatusCreated ==> r.cookie.None? && r.token.None?
    decreases |users|
  {
    if |users| == 0 then Refuse(StatusUnauthorized)
    else
      match users[0]
      case Garbled => Refuse(StatusInternalError)
      case StoredUser(name, hash) =>
        if name != login.username then RouterScan(lib, verify, login, users[1..], now)
        else
          match verify(login.password, hash)
          case HashError => Refuse(StatusInternalError)
          case NoMatch => Refuse(StatusUnauthorized)
          case Match => Issue(lib, login.username, now, StatusCreated)
  }

  /** Where the cursor loop stops: the first record that fails to decode or
      belongs to `name`, or `|users|` when there is none. */
  function StopAt(users: seq<StoredUser>, name: string): (i: nat)
    ensures i <= |users|
    ensures forall k :: 0 <= k < i ==> users[k].StoredUser? && users[k].username != name
    ensures i < |users| ==> users[i].Garbled? || users[i].username == name
    decreases |users|
  {
    if |users| == 0 then 0
    else if users[0].Garbled? || users[0].username == name then 0
    else
      assert forall k :: 1 <= k < |users| ==> users[k] == users[1..][k - 1];
      1 + StopAt(users[1..], name)
  }

  /** The login decision stated over the record where the scan stops:
      401 when no record names the user, 500 on an undecodable record or a
      hash error, 401 on a wrong password, and a token otherwise. */
  lemma {:induction false} RouterScanDecides(lib: Lib, verify: (string, string) -> HashCheck,
                                             login: Login, users: seq<StoredUser>, now: int)
    ensures var r := RouterScan(lib, verify, login, users, now);
            var i := StopAt(users, login.username);
            && (i == |users| ==> r == Refuse(StatusUnauthorized))
            && (i < |users| && users[i].Garbled? ==> r == Refuse(StatusInternalError))
            && (i < |users| && users[i].StoredUser? ==>
                  match verify(login.password, users[i].hash)
                  case HashError => r == Refuse(StatusInternalError)
                  case NoMatch => r == Refuse(StatusUnauthorized)
                  case Match => r == Issue(lib, login.username, now, StatusCreated))
    decreases |users|
  {
    if |users| > 0 && users[0].StoredUser? && users[0].username != login.username {
      RouterScanDecides(lib, verify, login, users[1..], now);
      assert forall k :: 1 <= k < |users| ==> users[k] == users[1..][k - 1];
    }
  }

  /** `Authenticator`: the header must split on " " into exactly
      "bearer" and a non-empty token, an `auth` cookie must exist, and
      header token "." cookie must parse; anything else is 403. */
  function RouterGate(lib: Lib, authorization: string, cookie: Option<string>): (r: Gate)
    ensures r.Deny? ==> r.status == StatusForbidden
    ensures r.Pass? ==> cookie.Some? && Parse(lib, r.token)
  {
    var parts := Split(authorization, ' ');
    if |parts| != 2 || parts[0] != "bearer" || parts[1] == "" then Deny(StatusForbidden)
    else if cookie.None? then Deny(StatusForbidden)
    else
      var token := parts[1] + "." + cookie.value;
      if Parse(lib, token) then Pass(token) else Deny(StatusForbidden)
  }

  /** The gate admits exactly the requests whose header is "bearer " and a
      non-empty space-free token that, glued to the cookie, parses. */
  lemma RouterGateAdmits(lib: Lib, authorization: string, cookie: Option<string>)
    ensures RouterGate(lib, authorization, cookie).Pass? <==>
              exists t :: && authorization == "bearer " + t
                          && t != "" && ' ' !in t
                          && cookie.Some? && Parse(lib, t + "." + cookie.value)
  {
    var parts := Split(authorization, ' ');
    if RouterGate(lib, authorization, cookie).Pass? {
      JoinSplit(authorization, ' ');
      assert parts[1..] == [parts[1]];
      assert authorization == "bearer " + parts[1];
    }
    if exists t :: && authorization == "bearer " + t
                   && t != "" && ' ' !in t
                   && cookie.Some? && Parse(lib, t + "." + cookie.value) {
      var t :| && authorization == "bearer " + t
               && t != "" && ' ' !in t
               && cookie.Some? && Parse(lib, t + "." + cookie.value);
      BearerSplit(t);
    }
  }

  lemma BearerSplit(t: string)
    requires ' ' !in t
    ensures Split("bearer " + t, ' ') == ["bearer", t]
  {
    assert "bearer " + t == "bearer" + [' '] + t;
    SplitTwo("bearer", t, ' ');
  }

  /** A token handed out at login opens the gate when sent back as
      "bearer <token>" with its cookie. */
  lemma RouterLoginOpensGate(lib: Lib, verify: (string, string) -> HashCheck,
                             body: Option<Login>, users: seq<StoredUser>, now: int)
    requires Wellformed(lib)
    requires RouterLogin(lib, verify, body, users, now).Reply?
    requires RouterLogin(lib, verify, body, users, now).status == StatusCreated
    ensures var r := RouterLogin(lib, verify, body, users, now);
            && r.cookie.Some? && r.token.Some?
            && RouterGate(lib, "bearer " + r.token.value, r.cookie) ==
                 Pass(SignedString(lib, body.value.username, now + TokenLifetime))
  {
    var login := body.value;
    RouterScanDecides(lib, verify, login, users, now);
    IssueSplit(lib, login.username, now, StatusCreated);
    ParseSigned(lib, login.username, now + TokenLifetime);
    var r := RouterLogin(lib, verify, body, users, now);
    TokenSpaceFree(lib, login.username, now + TokenLifetime, r.token.value);
    BearerSplit(r.token.value);
  }

  /** The body token holds no space: its segments are base64url. */
  lemma TokenSpaceFree(lib: Lib, username: string, exp: int, t: string)
    requires Wellformed(lib)
    requires Split(t, '.') == [lib.headerSeg(Hs256), lib.claimsSeg(username, exp)]
    ensures ' ' !in t && t != ""
  {
    JoinSplit(t, '.');
    JoinTwo(lib.headerSeg(Hs256), lib.claimsSeg(username, exp), '.');
  }

  /** The body token handed out at login is "header.claims" of the
      signed token. */
  lemma IssuedToken(lib: Lib, username: string, now: int, status: Status)
    requires Wellformed(lib)
    ensures var r := Issue(lib, username, now, status);
            var h := lib.headerSeg(Hs256);
            var c := lib.claimsSeg(username, now + TokenLifetime);
            && r.Reply? && r.cookie.Some? && r.token.Some?
            && r.token.value == h + "." + c
            && r.cookie.value == lib.mac(h + "." + c)
            && ' ' !in r.token.value && '.' !in h && '.' !in c
  {
    var exp := now + TokenLifetime;
    IssueSplit(lib, username, now, status);
    SignedSegments(lib, username, exp);
    var r := Issue(lib, username, now, status);
    TokenSpaceFree(lib, username, exp, r.token.value);
    SplitInTwo(r.token.value, '.');
  }

  /** Behind a body token handed out at login, the gate admits a cookie
      exactly when it is dot-free and verifies against that token; the
      cookie handed out with it is one such. */
  lemma RouterGateCookieVerifies(lib: Lib, verify: (string, string) -> HashCheck,
                                 body: Option<Login>, users: seq<StoredUser>, now: int,
                                 other: string)
    requires Wellformed(lib)
    requires RouterLogin(lib, verify, body, users, now).Reply?
    requires RouterLogin(lib, verify, body, users, now).status == StatusCreated
    ensures var r := RouterLogin(lib, verify, body, users, now);
            && r.cookie.Some? && r.token.Some?
            && lib.verifies(r.token.value, r.cookie.value)
            && (RouterGate(lib, "bearer " + r.token.value, Some(other)).Pass? <==>
                  '.' !in other && lib.verifies(r.token.value, other))
  {
    var login := body.value;
    var exp := now + TokenLifetime;
    RouterScanDecides(lib, verify, login, users, now);
    IssuedToken(lib, login.username, now, StatusCreated);
    var r := RouterLogin(lib, verify, body, users, now);
    var h := lib.headerSeg(Hs256);
    var c := lib.claimsSeg(login.username, exp);
    BearerSplit(r.token.value);
    assert r.token.value + "." + other == h + "." + c + "." + other;
    ParseThirdSegment(lib, h, c, other);
  }

  // ---------------------------------------------------------------------
  // api/authentication.go

  /** `database.Connection.Find(&user, "username = ?", name)`: the first
      matching row, or the zero user when there is none. */
  function FindUser(rows: seq<UserRow>, name: string): (u: UserRow)
    ensures u == UserRow("", "") || u in rows
    ensures u.username != "" ==> u.username == name
    ensures (exists k :: 0 <= k < |rows| && rows[k].username == name) ==>
              exists k :: && 0 <= k < |rows| && rows[k] == u && u.username == name
                          && forall j :: 0 <= j < k ==> rows[j].username != name
    decreases |rows|
  {
    if |rows| == 0 then UserRow("", "")
    else if rows[0].username == name then rows[0]
    else
      assert forall k :: 1 <= k < |rows| ==> rows[k] == rows[1..][k - 1];
      FindUser(rows[1..], name)
  }

  /** `Authenticate`: 400 for a body that fails to parse, 401 for an empty
      password before any lookup, 401 for an unknown user and for a wrong
      password alike, 500 when the hash cannot be checked, and 200 with the
      split token otherwise. */
  function ApiLogin(lib: Lib, verify: (string, string) -> HashCheck,
                    body: Option<Login>, rows: seq<UserRow>, now: int): (r: LoginReply)
    ensures body.None? ==> r == Refuse(StatusBadRequest)
    ensures body.Some? && body.value.password == "" ==> r == Refuse(StatusUnauthorized)
    ensures body.Some? && body.value.password != "" && body.value.username != "" ==>
              var u := FindUser(rows, body.value.username);
              && (u.username == "" ==> r == Refuse(StatusUnauthorized))
              && (u.username != "" ==>
                    match verify(body.value.password, u.hash)
                    case HashError => r == Refuse(StatusInternalError)
                    case NoMatch => r == Refuse(StatusUnauthorized)
                    case Match => r == Issue(lib, body.value.username, now, StatusOk))
    ensures body.Some? && body.value.password != "" && body.value.username == "" ==>
              r == Refuse(StatusUnauthorized)
    ensures r.Reply? && r.status == StatusOk ==>
              exists k :: 0 <= k < |rows| && rows[k].username == body.value.username != ""
                          && verify(body.value.password, rows[k].hash) == Match
  {
    match body
    case None => Refuse(StatusBadRequest)
    case Some(login) =>
      if login.password == "" then Refuse(StatusUnauthorized)
      else
        var u := FindUser(rows, login.username);
        if u.username == "" then Refuse(StatusUnauthorized)
        else
          match verify(login.password, u.hash)
          case HashError => Refuse(StatusInternalError)
          case NoMatch => Refuse(StatusUnauthorized)
          case Match => Issue(lib, login.username, now, StatusOk)
  }

  /** `NewAuthenticationMiddleware`: 401 unless the header splits on " "
      into exactly two parts (the scheme word is not looked at), 401
      unless the cookie is non-empty and the header token has exactly two
      dot segments, 403 unless header token "." cookie parses; otherwise
      that token is stored and the next handler runs. */
  function ApiGate(lib: Lib, authorization: string, signature: string): (r: Gate)
    ensures var a := Split(authorization, ' ');
            r == Deny(StatusUnauthorized) <==>
              |a| != 2 || signature == "" || |Split(a[1], '.')| != 2
    ensures var a := Split(authorization, ' ');
            r == Deny(StatusForbidden) <==>
              && |a| == 2 && signature != "" && |Split(a[1], '.')| == 2
              && !Parse(lib, a[1] + "." + signature)
    ensures r.Pass? ==>
              var a := Split(authorization, ' ');
              |a| == 2 && r.token == a[1] + "." + signature && Parse(lib, r.token)
  {
    var authParts := Split(authorization, ' ');
    if |authParts| != 2 then Deny(StatusUnauthorized)
    else
      var jwtParts := Split(authParts[1], '.');
      if signature == "" || |jwtParts| != 2 then Deny(StatusUnauthorized)
      else
        SplitInTwo(authParts[1], '.');
        var token := jwtParts[0] + "." + jwtParts[1] + "." + signature;
        if Parse(lib, token) then Pass(token) else Deny(StatusForbidden)
  }

  /** A header the middleware can read: a space-free scheme word, one
      space, and header and claims segments joined by a dot. */
  predicate SchemeHeader(authorization: string, scheme: string, h: string, c: string)
  {
    && authorization == scheme + " " + h + "." + c
    && ' ' !in scheme && ' ' !in h && ' ' !in c
  }

  /** The middleware admits exactly the requests with a non-empty cookie
      whose header is some scheme word, a space and "header.claims", such
      that header, claims and cookie are valid token segments. */
  lemma ApiGateAdmits(lib: Lib, authorization: string, signature: string)
    ensures ApiGate(lib, authorization, signature).Pass? <==>
              && signature != ""
              && exists scheme, h, c :: SchemeHeader(authorization, scheme, h, c)
                                        && ValidSegments(lib, h, c, signature)
  {
    if ApiGate(lib, authorization, signature).Pass? {
      var scheme, h, c := PassedHeader(lib, authorization, signature);
    }
    if signature != "" && exists scheme, h, c :: SchemeHeader(authorization, scheme, h, c)
                                                 && ValidSegments(lib, h, c, signature) {
      var scheme, h, c :| SchemeHeader(authorization, scheme, h, c)
                          && ValidSegments(lib, h, c, signature);
      HeaderPasses(lib, authorization, signature, scheme, h, c);
    }
  }

  /** The parts of a header the middleware admitted. */
  lemma PassedHeader(lib: Lib, authorization: string, signature: string)
    returns (scheme: string, h: string, c: string)
    requires ApiGate(lib, authorization, signature).Pass?
    ensures SchemeHeader(authorization, scheme, h, c) && ValidSegments(lib, h, c, signature)
  {
    var a := Split(authorization, ' ');
    SplitInTwo(authorization, ' ');
    var jp := Split(a[1], '.');
    SplitInTwo(a[1], '.');
    scheme, h, c := a[0], jp[0], jp[1];
    assert ' ' !in h && ' ' !in c;
    ParseThirdSegment(lib, h, c, signature);
  }

  /** A well-formed header with valid segments and a cookie is admitted. */
  lemma HeaderPasses(lib: Lib, authorization: string, signature: string,
                     scheme: string, h: string, c: string)
    requires signature != ""
    requires SchemeHeader(authorization, scheme, h, c) && ValidSegments(lib, h, c, signature)
    ensures ApiGate(lib, authorization, signature).Pass?
  {
    assert authorization == scheme + [' '] + (h + "." + c);
    SplitTwo(scheme, h + "." + c, ' ');
    SplitTwo(h, c, '.');
    ParseThirdSegment(lib, h, c, signature);
  }

  /** A token handed out at login passes the middleware behind any
      space-free scheme word, and the middleware sees the signed token. */
  lemma ApiLoginOpensGate(lib: Lib, verify: (string, string) -> HashCheck,
                          body: Option<Login>, rows: seq<UserRow>, now: int, scheme: string)
    requires Wellformed(lib) && ' ' !in scheme
    requires ApiLogin(lib, verify, body, rows, now).Reply?
    requires ApiLogin(lib, verify, body, rows, now).status == StatusOk
    ensures var r := ApiLogin(lib, verify, body, rows, now);
            && r.cookie.Some? && r.token.Some?
            && ApiGate(lib, scheme + " " + r.token.value, r.cookie.value) ==
                 Pass(SignedString(lib, body.value.username, now + TokenLifetime))
  {
    var login := body.value;
    var exp := now + TokenLifetime;
    IssueSplit(lib, login.username, now, StatusOk);
    SignedSegments(lib, login.username, exp);
    ParseSigned(lib, login.username, exp);
    var r := ApiLogin(lib, verify, body, rows, now);
    TokenSpaceFree(lib, login.username, exp, r.token.value);
    assert r == Issue(lib, login.username, now, StatusOk);
    var h := lib.headerSeg(Hs256);
    var c := lib.claimsSeg(login.username, exp);
    assert r.cookie.value == lib.mac(h + "." + c);
    assert scheme + " " + r.token.value == scheme + [' '] + r.token.value;
    SplitTwo(scheme, r.token.value, ' ');
    assert h + "." + c + "." + r.cookie.value == SignedString(lib, login.username, exp);
  }

  /** Behind a body token handed out at login, the middleware admits a
      cookie exactly when it is non-empty, dot-free and verifies against
      that token; the cookie handed out with it is one such. */
  lemma ApiGateCookieVerifies(lib: Lib, verify: (string, string) -> HashCheck,
                              body: Option<Login>, rows: seq<UserRow>, now: int,
                              scheme: string, other: string)
    requires Wellformed(lib) && ' ' !in scheme
    requires ApiLogin(lib, verify, body, rows, now).Reply?
    requires ApiLogin(lib, verify, body, rows, now).status == StatusOk
    ensures var r := ApiLogin(lib, verify, body, rows, now);
            && r.cookie.Some? && r.token.Some?
            && lib.verifies(r.token.value, r.cookie.value)
            && (ApiGate(lib, scheme + " " + r.token.value, other).Pass? <==>
                  other != "" && '.' !in other && lib.verifies(r.token.value, other))
  {
    var login := body.value;
    var exp := now + TokenLifetime;
    IssuedToken(lib, login.username, now, StatusOk);
    var r := ApiLogin(lib, verify, body, rows, now);
    var h := lib.headerSeg(Hs256);
    var c := lib.claimsSeg(login.username, exp);
    assert scheme + " " + r.token.value == scheme + [' '] + r.token.value;
    SplitTwo(scheme, r.token.value, ' ');
    SplitTwo(h, c, '.');
    assert r.token.value + "." + other == h + "." + c + "." + other;
    ParseThirdSegment(lib, h, c, other);
  }
}
