/** The request authentication gate (`authMiddleware`): a bearer access
    token is verified; an expired one may be replaced, once, by a refresh
    token that a customer row holds and that has not yet expired. Every
    request ends either in `next()` with `req.user` set or in one error
    response. */
module Authentication {
  import opened Js
  import opened Table
  import Customers

  const NoTokenMessage: string := "Access denied. No token provided."
  const RefreshRequiredMessage: string := "Refresh token is required."
  const InvalidRefreshMessage: string := "Invalid or expired refresh token."
  const RefreshFailedMessage: string := "Could not refresh access token."
  const InvalidTokenMessage: string := "Invalid token."

  /** The error name jsonwebtoken gives a token whose `exp` has passed. */
  const TokenExpiredError: string := "TokenExpiredError"

  /** `expiresIn: "15m"`, in milliseconds. */
  const AccessLifetimeMs: int := 15 * 60 * 1000

  /** The headers the gate reads: `Authorization` and `x-refresh-token`. */
  datatype Request = Request(authorization: Option<string>, refreshToken: Option<string>)

  /** What `jwt.verify` gives back: the decoded claims, or the `name` of the error it throws. */
  datatype Verified = Decoded(claims: Object) | Failed(name: string)

  /** jsonwebtoken with the JWT_SECRET of the process: `verify(token)` at a
      time, and `sign(claims, lifetime)` at a time, which throws (`None`)
      when it cannot sign, for instance when no secret is configured. */
  datatype Jwt = Jwt(verify: (string, int) -> Verified, sign: (Object, int, int) -> Option<string>)

  /** How the gate ends: `next()` with `req.user` and, after a refresh, the
      `x-access-token` header; or a response with its status and message. */
  datatype Outcome = Next(user: Object, accessToken: Option<string>) | Respond(status: int, message: string)

  /** The keys of `req.user`, and of the claims of a refreshed access token. */
  const UserKeys: set<Key> := {CustomerId, FullName, Email}

  /** `{ customer_id: o.customer_id, full_name: o.full_name, email: o.email }`. */
  function UserOf(o: Object): Object
  {
    Pick(o, UserKeys)
  }

  /** The header announces a bearer token. */
  predicate HasBearer(req: Request)
  {
    req.authorization.Some? && StartsWith(req.authorization.value, "Bearer ")
  }

  /** `authHeader.split(" ")[1]`. */
  function BearerToken(header: string): (token: string)
    requires StartsWith(header, "Bearer ")
    ensures token == UpTo(header[7..], ' ')
    ensures forall i :: 0 <= i < |token| ==> token[i] != ' '
  {
    BearerFields(header);
    SplitPieces(header, ' ');
    Split(header, ' ')[1]
  }

  /** A header that starts with "Bearer " splits into at least two fields,
      and the second is the text after "Bearer " up to the next space. */
  lemma BearerFields(header: string)
    requires StartsWith(header, "Bearer ")
    ensures |Split(header, ' ')| >= 2
    ensures Split(header, ' ')[1] == UpTo(header[7..], ' ')
  {
    var rest := header[7..];
    assert header == "Bearer" + [' '] + rest;
    SplitAfterPiece("Bearer", ' ', rest);
    SplitPieces(rest, ' ');
  }

  /** `.where("refreshToken", token).andWhere("refreshTokenExpires", ">", now)`. */
  function LiveRefresh(token: string, now: int): Condition
  {
    Both(Equals(RefreshToken, Str(token)), Later(RefreshTokenExpires, now))
  }

  /** A row passes the refresh lookup exactly when it holds the token and
      an expiry strictly after now. */
  lemma LiveRefreshMeaning(token: string, now: int, row: Object)
    ensures Accepts(LiveRefresh(token, now), row) <==>
            Get(row, RefreshToken) == Str(token) && Get(row, RefreshTokenExpires).Date? && Get(row, RefreshTokenExpires).ms > now
  {
  }

  /** A refresh pair that a login or a registration stored at `issued` passes
      the lookup exactly until its seven days are over, and while it does the
      lookup finds a customer. */
  lemma IssuedRefreshIsLive(db: Db, id: nat, token: string, issued: int, now: int)
    requires db.Valid() && id in db.rows && token != ""
    requires Customers.HoldsRefresh(db.rows[id], token, issued)
    ensures Accepts(LiveRefresh(token, now), Read(db, Customers.PK, id)) <==> now < issued + Customers.RefreshLifetimeMs
    ensures now < issued + Customers.RefreshLifetimeMs ==> First(db, Customers.PK, LiveRefresh(token, now)).Some?
  {
    var row := Read(db, Customers.PK, id);
    assert Get(row, RefreshToken) == Get(db.rows[id], RefreshToken);
    assert Get(row, RefreshTokenExpires) == Get(db.rows[id], RefreshTokenExpires);
    LiveRefreshMeaning(token, now, row);
    FirstSpec(db, Customers.PK, LiveRefresh(token, now));
  }

  /** The access token was rejected because it expired. */
  predicate Expired(req: Request, jwt: Jwt, now: int)
  {
    HasBearer(req) && jwt.verify(BearerToken(req.authorization.value), now) == Failed(TokenExpiredError)
  }

  /** `refreshToken` is truthy: present and not empty. */
  predicate HasRefresh(req: Request)
  {
    req.refreshToken.Some? && req.refreshToken.value != ""
  }

  /** The refresh path reaches the lookup. */
  predicate LooksUp(req: Request, jwt: Jwt, storeUp: bool, now: int)
  {
    Expired(req, jwt, now) && HasRefresh(req) && storeUp
  }

  /** `authMiddleware(req, res, next)` against the customers table. `storeUp`
      is false when the refresh query throws. The method has no `modifies`
      clause: the gate never writes the table. */
  method Authenticate(req: Request, jwt: Jwt, customers: Customers.CustomerService, storeUp: bool, now: int)
      returns (out: Outcome)
    requires customers.Valid()
    // The header decides first.
    ensures !HasBearer(req) ==> out == Respond(401, NoTokenMessage)
    // A verified token passes on its claims, without a look at the refresh token or the table.
    ensures HasBearer(req) && jwt.verify(BearerToken(req.authorization.value), now).Decoded? ==>
              out == Next(UserOf(jwt.verify(BearerToken(req.authorization.value), now).claims), None)
    // Any other verify error is an invalid token.
    ensures HasBearer(req) && jwt.verify(BearerToken(req.authorization.value), now).Failed? && !Expired(req, jwt, now) ==>
              out == Respond(403, InvalidTokenMessage)
    ensures Expired(req, jwt, now) && !HasRefresh(req) ==> out == Respond(403, RefreshRequiredMessage)
    ensures Expired(req, jwt, now) && HasRefresh(req) && !storeUp ==> out == Respond(500, RefreshFailedMessage)
    // The lookup: no live record, or the first live record.
    ensures LooksUp(req, jwt, storeUp, now) ==>
              (out == Respond(403, InvalidRefreshMessage) <==>
               forall id :: id in customers.rows ==>
                 !Accepts(LiveRefresh(req.refreshToken.value, now), Read(customers.State(), Customers.PK, id)))
    ensures forall id :: LooksUp(req, jwt, storeUp, now) &&
                         IsFirst(customers.State(), Customers.PK, LiveRefresh(req.refreshToken.value, now), id) ==>
              var user := UserOf(Read(customers.State(), Customers.PK, id));
              out == match jwt.sign(user, AccessLifetimeMs, now)
                     case None => Respond(500, RefreshFailedMessage)
                     case Some(token) => Next(user, Some(token))
    // Exactly one of two outcomes.
    ensures out.Respond? ==> out.status in {401, 403, 500}
    ensures out.Next? ==> out.user.Keys == UserKeys && Role !in out.user
  {
    var authHeader := req.authorization;
    var refreshToken := req.refreshToken;
    if authHeader.None? || !StartsWith(authHeader.value, "Bearer ") {
      return Respond(401, NoTokenMessage);
    }
    var accessToken := BearerToken(authHeader.value);
    var verified := jwt.verify(accessToken, now);
    if verified.Decoded? {
      return Next(UserOf(verified.claims), None);
    }
    if verified.name != TokenExpiredError {
      return Respond(403, InvalidTokenMessage);
    }
    if refreshToken.None? || refreshToken.value == "" {
      return Respond(403, RefreshRequiredMessage);
    }
    if !storeUp {
      return Respond(500, RefreshFailedMessage);
    }
    var table := customers.State();
    FirstSpec(table, Customers.PK, LiveRefresh(refreshToken.value, now));
    var found := First(table, Customers.PK, LiveRefresh(refreshToken.value, now));
    if found.None? {
      return Respond(403, InvalidRefreshMessage);
    }
    var user := UserOf(Read(table, Customers.PK, found.value));
    forall id | IsFirst(table, Customers.PK, LiveRefresh(refreshToken.value, now), id)
      ensures id == found.value
    {
      FirstIsFirst(table, Customers.PK, LiveRefresh(refreshToken.value, now), id);
    }
    var newAccessToken := jwt.sign(user, AccessLifetimeMs, now);
    if newAccessToken.None? {
      return Respond(500, RefreshFailedMessage);
    }
    out := Next(user, Some(newAccessToken.value));
  }
}
