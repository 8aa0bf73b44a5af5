/** The customer accounts service: registration, login, and the stored
    refresh record (`refreshToken`, `refreshTokenExpires`) of each customer,
    over the `customers` table. */
module Customers {
  import opened Js
  import opened Table
  import opened Schema

  const PK: Key := CustomerId

  /** `getRefreshTokenExpiration`: seven days after now, in milliseconds
      (calendar arithmetic of `setDate` is not modelled). */
  const RefreshLifetimeMs: int := 7 * 24 * 60 * 60 * 1000

  const EmailInUseMessage: string := "Email is already in use."
  const BadLoginMessage: string := "Invalid email or password."
  const NotFoundMessage: string := "Customer not found"

  /** The fields `readCustomer` keeps. */
  const CustomerFields: set<Key> := {FullName, PhoneNumber, Email, Address, Role}

  /** The columns `GetAllCustomer` selects. */
  const ListedColumns: set<Key> := {CustomerId, FullName, PhoneNumber, Email, Address, Role}

  /** The columns `GetCustomerById` selects (no `role`). */
  const ProfileColumns: set<Key> := {CustomerId, FullName, PhoneNumber, Email, Address}

  /** `CustomerValidation()`, in the order Joi checks the keys. */
  const CustomerSchema: Schema := [
    Rule(FullName, Text(0, false), true),
    Rule(PhoneNumber, Text(0, false), true),
    Rule(Email, Text(0, true), true),
    Rule(Password, Text(6, false), true),
    Rule(Address, Text(0, false), true),
    Rule(Role, Boolean, true)
  ]

  /** The foreign libraries the service calls: bcrypt's `hash` and `compare`,
      jsonwebtoken's `sign` for the access token (JWT_SECRET or its fallback,
      JWT_EXPIRY) and for the refresh token (REFRESH_TOKEN_SECRET or its
      fallback, 7 days), both also depending on the issue time, and Joi's
      text formats. `compare` gives the message of the error bcrypt throws
      when an argument is missing or not a string. */
  datatype Crypto = Crypto(
    hash: string -> string,
    compare: (Value, Value) -> Result<bool, string>,
    signAccess: (Object, int) -> string,
    signRefresh: (Object, int) -> string,
    formats: Formats)

  /** What `register` and `login` return. */
  datatype Session = Session(customer: Object, accessToken: string, refreshToken: string)

  /** A rejected schema, or an `Error` thrown with its message. */
  datatype CustomerError = Invalid(failure: Failure) | Thrown(message: string)

  /** `readCustomer`: the public profile fields of a payload, and nothing else. */
  function ReadCustomer(payload: Object): (r: Object)
    ensures r.Keys == CustomerFields
    ensures forall k :: Get(r, k) == if k in CustomerFields then Get(payload, k) else Undefined
  {
    Pick(payload, CustomerFields)
  }

  /** The claims both tokens carry. */
  function Claims(id: Value, fullName: Value, email: Value, role: Value): Object
  {
    map[CustomerId := id, FullName := fullName, Email := email, Role := role]
  }

  function RefreshTokenExpiration(now: int): int
  {
    now + RefreshLifetimeMs
  }

  /** `{ refreshToken: refreshToken || null, refreshTokenExpires: expires || null }`
      (a `Date` is always truthy). */
  function RefreshColumns(token: string, expires: int): Object
  {
    map[RefreshToken := if token == "" then Null else Str(token), RefreshTokenExpires := Date(expires)]
  }

  /** The row holds the refresh pair issued at `now` for `token`. */
  predicate HoldsRefresh(row: Object, token: string, now: int)
  {
    Get(row, RefreshToken) == (if token == "" then Null else Str(token)) &&
    Get(row, RefreshTokenExpires) == Date(now + RefreshLifetimeMs)
  }

  /** `.where(Email, email).first()`. */
  function FindByEmail(db: Db, email: Value): Option<nat>
  {
    First(db, PK, Equals(Email, email))
  }

  /** A payload that passes the schema holds all six fields, with their types. */
  lemma ValidCustomerFields(input: Object, f: Formats)
    requires Validate(CustomerSchema, input, f).None?
    ensures forall k :: k in CustomerFields ==> Get(input, k) != Undefined
    ensures Get(input, FullName).Str? && Get(input, FullName).s != ""
    ensures Get(input, PhoneNumber).Str? && Get(input, PhoneNumber).s != ""
    ensures Get(input, Address).Str? && Get(input, Address).s != ""
    ensures Get(input, Email).Str? && Get(input, Email).s != "" && f.isEmail(Get(input, Email).s)
    ensures Get(input, Password).Str? && Length(Get(input, Password).s) >= 6
    ensures Get(input, Role).Bool? || Get(input, Role) == Str("true") || Get(input, Role) == Str("false")
  {
    ValidateAccepts(CustomerSchema, input, f);
    PassingCustomerRules(input, f);
  }

  /** The same, from each rule of the schema passing. */
  lemma PassingCustomerRules(input: Object, f: Formats)
    requires forall i :: 0 <= i < |CustomerSchema| ==> CheckRule(CustomerSchema[i], input, f).None?
    ensures forall k :: k in CustomerFields ==> Get(input, k) != Undefined
    ensures Get(input, FullName).Str? && Get(input, FullName).s != ""
    ensures Get(input, PhoneNumber).Str? && Get(input, PhoneNumber).s != ""
    ensures Get(input, Address).Str? && Get(input, Address).s != ""
    ensures Get(input, Email).Str? && Get(input, Email).s != "" && f.isEmail(Get(input, Email).s)
    ensures Get(input, Password).Str? && Length(Get(input, Password).s) >= 6
    ensures Get(input, Role).Bool? || Get(input, Role) == Str("true") || Get(input, Role) == Str("false")
  {
    RequiredPass(CustomerSchema[0], input, f);
    RequiredPass(CustomerSchema[1], input, f);
    RequiredPass(CustomerSchema[2], input, f);
    RequiredPass(CustomerSchema[3], input, f);
    RequiredPass(CustomerSchema[4], input, f);
    RequiredPass(CustomerSchema[5], input, f);
    forall k | k in CustomerFields ensures Get(input, k) != Undefined {
      assert k == FullName || k == PhoneNumber || k == Email || k == Address || k == Role;
    }
  }

  /** `{ ...readCustomer(customer), password: hashedPassword }`. */
  function CustomerData(input: Object, c: Crypto): Object
    requires Get(input, Password).Str?
  {
    ReadCustomer(input) + map[Password := Str(c.hash(Get(input, Password).s))]
  }

  /** `register(customer)` at time `now`: the result and the table afterwards. */
  function RegisterStep(db: Db, input: Object, c: Crypto, now: int): (Result<Session, CustomerError>, Db)
  {
    match Validate(CustomerSchema, input, c.formats)
    case Some(failure) => (Err(Invalid(failure)), db)
    case None =>
      if FindByEmail(db, Get(input, Email)).Some? then (Err(Thrown(EmailInUseMessage)), db)
      else
        ValidCustomerFields(input, c.formats);
        Enrol(db, input, c, now)
  }

  /** The writes of a registration that passed its checks: insert the
      customer, then store the refresh pair issued for the new key. */
  function Enrol(db: Db, input: Object, c: Crypto, now: int): (Result<Session, CustomerError>, Db)
    requires Get(input, Password).Str?
  {
    var data := CustomerData(input, c);
    var id := db.nextId;
    var claims := EnrolClaims(db, input);
    var refresh := c.signRefresh(claims, now);
    var inserted := Insert(db, data, PK);
    (Ok(Session(map[Id := Num(id as real)] + data, c.signAccess(claims, now), refresh)),
     Update(inserted, PK, id, RefreshColumns(refresh, RefreshTokenExpiration(now))))
  }

  /** The claims registration signs: the new key and the payload's fields. */
  function EnrolClaims(db: Db, input: Object): Object
  {
    Claims(Num(db.nextId as real), Get(input, FullName), Get(input, Email), Get(input, Role))
  }

  /** `login(email, password)` at time `now`: the result and the table afterwards. */
  function LoginStep(db: Db, email: string, password: Value, c: Crypto, now: int): (Result<Session, CustomerError>, Db)
  {
    match FindByEmail(db, Str(email))
    case None => (Err(Thrown(BadLoginMessage)), db)
    case Some(id) =>
      var row := Read(db, PK, id);
      match c.compare(password, Get(row, Password))
      case Err(message) => (Err(Thrown(message)), db)
      case Ok(valid) =>
        if !valid then (Err(Thrown(BadLoginMessage)), db)
        else
          var claims := LoginClaims(row);
          var refresh := c.signRefresh(claims, now);
          (Ok(Session(ReadCustomer(row), c.signAccess(claims, now), refresh)),
           Update(db, PK, id, RefreshColumns(refresh, RefreshTokenExpiration(now))))
  }

  /** `UpdateCustomer(id, customer)`: the result and the table afterwards. */
  function UpdateCustomerStep(db: Db, id: nat, input: Object, f: Formats): (Result<Object, CustomerError>, Db)
  {
    match Validate(CustomerSchema, input, f)
    case Some(failure) => (Err(Invalid(failure)), db)
    case None =>
      var data := ReadCustomer(input);
      (Ok(map[Id := Num(id as real)] + data), Update(db, PK, id, data))
  }

  /** The rows in key order, as `GetAllCustomer` selects them. */
  function AllCustomers(db: Db): seq<Object>
  {
    SelectEach(ReadEach(db, PK, Matching(db, PK, Everything, 0)), ListedColumns)
  }

  // ---------------------------------------------------------------------
  // Properties of the operations
  // ---------------------------------------------------------------------

  /** The columns of the refresh pair, one key at a time. */
  lemma GetRefreshColumns(token: string, expires: int, k: Key)
    ensures Get(RefreshColumns(token, expires), k) ==
            if k == RefreshToken then (if token == "" then Null else Str(token))
            else if k == RefreshTokenExpires then Date(expires)
            else Undefined
  {
  }

  /** The columns a registration inserts, one key at a time. */
  lemma GetCustomerData(input: Object, c: Crypto, k: Key)
    requires Get(input, Password).Str?
    ensures Get(CustomerData(input, c), k) ==
            if k == Password then Str(c.hash(Get(input, Password).s))
            else if k in CustomerFields then Get(input, k)
            else Undefined
  {
    if k in CustomerFields {
      ProfileField(k);
    }
  }

  /** The profile fields are none of the keys the service manages itself. */
  lemma ProfileField(k: Key)
    requires k in CustomerFields
    ensures k != Password && k != RefreshToken && k != RefreshTokenExpires && k != PK && k != Id
  {
  }

  /** A payload that fails the schema is rejected with the schema's failure before the table is read. */
  lemma RegisterValidatesFirst(db: Db, input: Object, c: Crypto, now: int)
    requires Validate(CustomerSchema, input, c.formats).Some?
    ensures RegisterStep(db, input, c, now) == (Err(Invalid(Validate(CustomerSchema, input, c.formats).value)), db)
  {
  }

  /** An email already in the table is refused, and nothing is inserted. */
  lemma RegisterRejectsDuplicateEmail(db: Db, input: Object, c: Crypto, now: int, holder: nat)
    requires db.Valid()
    requires Validate(CustomerSchema, input, c.formats).None?
    requires holder in db.rows && SqlEquals(Get(Read(db, PK, holder), Email), Get(input, Email))
    ensures RegisterStep(db, input, c, now) == (Err(Thrown(EmailInUseMessage)), db)
  {
    FirstSpec(db, PK, Equals(Email, Get(input, Email)));
  }

  /** A valid payload whose email no row holds goes on to the writes. */
  lemma RegisterEnrols(db: Db, input: Object, c: Crypto, now: int)
    requires db.Valid()
    requires Validate(CustomerSchema, input, c.formats).None?
    requires forall other :: other in db.rows ==> !SqlEquals(Get(Read(db, PK, other), Email), Get(input, Email))
    ensures Get(input, Password).Str?
    ensures RegisterStep(db, input, c, now) == Enrol(db, input, c, now)
  {
    FirstSpec(db, PK, Equals(Email, Get(input, Email)));
    UnusedEmailEnrols(db, input, c, now);
  }

  lemma UnusedEmailEnrols(db: Db, input: Object, c: Crypto, now: int)
    requires Validate(CustomerSchema, input, c.formats).None?
    requires FindByEmail(db, Get(input, Email)).None?
    ensures Get(input, Password).Str?
    ensures RegisterStep(db, input, c, now) == Enrol(db, input, c, now)
  {
    ValidCustomerFields(input, c.formats);
  }

  /** The writes of a registration add exactly one row, under the next key,
      and change no other row. */
  lemma EnrolAddsOneRow(db: Db, input: Object, c: Crypto, now: int)
    requires db.Valid() && Get(input, Password).Str?
    ensures var after := Enrol(db, input, c, now).1;
            && after.Valid() && db.nextId !in db.rows
            && after.rows.Keys == db.rows.Keys + {db.nextId} && after.nextId == db.nextId + 1
            && (forall other :: other in db.rows ==> after.rows[other] == db.rows[other])
  {
    var more := RefreshColumns(c.signRefresh(EnrolClaims(db, input), now), RefreshTokenExpiration(now));
    InsertThenUpdateFrame(db, CustomerData(input, c), more, PK);
    assert Enrol(db, input, c, now).1 == Update(Insert(db, CustomerData(input, c), PK), PK, db.nextId, more);
  }

  /** A column of the row a registration stores, after both writes. */
  lemma EnrolledColumn(input: Object, c: Crypto, refresh: string, expires: int, k: Key)
    requires Get(input, Password).Str?
    ensures Get(Write(Written(CustomerData(input, c), PK), RefreshColumns(refresh, expires), PK), k) ==
            if k == RefreshToken then (if refresh == "" then Null else Str(refresh))
            else if k == RefreshTokenExpires then Date(expires)
            else if k == Password then Str(c.hash(Get(input, Password).s))
            else if k in CustomerFields then Get(input, k)
            else Undefined
  {
    var data := CustomerData(input, c);
    GetWrite(Written(data, PK), RefreshColumns(refresh, expires), PK, k);
    GetWritten(data, PK, k);
    GetRefreshColumns(refresh, expires, k);
    if k in CustomerFields {
      ProfileField(k);
    }
    GetCustomerData(input, c, k);
  }

  lemma EnrolledFields(input: Object, c: Crypto, refresh: string, expires: int)
    requires Get(input, Password).Str?
    ensures forall k :: k in CustomerFields ==>
              Get(Write(Written(CustomerData(input, c), PK), RefreshColumns(refresh, expires), PK), k) == Get(input, k)
  {
    forall k | k in CustomerFields
      ensures Get(Write(Written(CustomerData(input, c), PK), RefreshColumns(refresh, expires), PK), k) == Get(input, k)
    {
      ProfileField(k);
      EnrolledColumn(input, c, refresh, expires, k);
    }
  }

  /** The row a registration stores: the profile fields of the payload, the
      hashed password, and the refresh pair of the returned token. */
  lemma EnrolStoresRow(db: Db, input: Object, c: Crypto, now: int)
    requires db.Valid() && Get(input, Password).Str?
    ensures var (r, after) := Enrol(db, input, c, now);
            && r.Ok? && db.nextId in after.rows
            && (forall k :: k in CustomerFields ==> Get(after.rows[db.nextId], k) == Get(input, k))
            && Get(after.rows[db.nextId], Password) == Str(c.hash(Get(input, Password).s))
            && HoldsRefresh(after.rows[db.nextId], r.value.refreshToken, now)
  {
    var data := CustomerData(input, c);
    var refresh := c.signRefresh(EnrolClaims(db, input), now);
    var expires := RefreshTokenExpiration(now);
    var more := RefreshColumns(refresh, expires);
    EnrolledFields(input, c, refresh, expires);
    EnrolledColumn(input, c, refresh, expires, Password);
    EnrolledColumn(input, c, refresh, expires, RefreshToken);
    EnrolledColumn(input, c, refresh, expires, RefreshTokenExpires);
    assert Enrol(db, input, c, now).0.value.refreshToken == refresh;
    InsertThenUpdateFrame(db, data, more, PK);
    assert Enrol(db, input, c, now).1 == Update(Insert(db, data, PK), PK, db.nextId, more);
  }

  /** What a registration returns: the new key with the inserted columns
      (the profile fields of the payload and the hashed password). */
  lemma EnrolReturns(db: Db, input: Object, c: Crypto, now: int)
    requires Get(input, Password).Str?
    ensures var r := Enrol(db, input, c, now).0;
            && r.Ok?
            && forall k :: Get(r.value.customer, k) ==
                 if k == Id then Num(db.nextId as real)
                 else if k == Password then Str(c.hash(Get(input, Password).s))
                 else if k in CustomerFields then Get(input, k)
                 else Undefined
  {
    var customer := map[Id := Num(db.nextId as real)] + CustomerData(input, c);
    forall k ensures Get(customer, k) ==
                 if k == Id then Num(db.nextId as real)
                 else if k == Password then Str(c.hash(Get(input, Password).s))
                 else if k in CustomerFields then Get(input, k)
                 else Undefined
    {
      if k in CustomerFields {
        ProfileField(k);
      }
      GetCustomerData(input, c, k);
    }
    assert Enrol(db, input, c, now).0.value.customer == customer;
  }

  /** Login answers an unknown email with the same error as a wrong password,
      and neither writes. */
  lemma LoginUnknownEmail(db: Db, email: string, password: Value, c: Crypto, now: int)
    requires db.Valid()
    requires forall id :: id in db.rows ==> !SqlEquals(Get(Read(db, PK, id), Email), Str(email))
    ensures LoginStep(db, email, password, c, now) == (Err(Thrown(BadLoginMessage)), db)
  {
    FirstSpec(db, PK, Equals(Email, Str(email)));
  }

  /** The row login checks is the first one holding the email. */
  predicate FirstWithEmail(db: Db, email: string, id: nat)
  {
    IsFirst(db, PK, Equals(Email, Str(email)), id)
  }

  /** `.where("email", email).first()` finds exactly the first row holding the email. */
  lemma FindsFirstWithEmail(db: Db, email: string, id: nat)
    requires db.Valid()
    ensures FindByEmail(db, Str(email)) == Some(id) <==> FirstWithEmail(db, email, id)
  {
    FirstIsFirst(db, PK, Equals(Email, Str(email)), id);
  }

  lemma LoginWrongPassword(db: Db, email: string, password: Value, c: Crypto, now: int, id: nat)
    requires FindByEmail(db, Str(email)) == Some(id) && id in db.rows
    requires c.compare(password, Get(Read(db, PK, id), Password)) == Ok(false)
    ensures LoginStep(db, email, password, c, now) == (Err(Thrown(BadLoginMessage)), db)
  {
  }

  /** When bcrypt throws on the supplied and the stored password (one of them
      missing or not a string), its own message is passed on and nothing is
      written. */
  lemma LoginCompareFails(db: Db, email: string, password: Value, c: Crypto, now: int, id: nat)
    requires FindByEmail(db, Str(email)) == Some(id) && id in db.rows
    requires c.compare(password, Get(Read(db, PK, id), Password)).Err?
    ensures LoginStep(db, email, password, c, now) ==
            (Err(Thrown(c.compare(password, Get(Read(db, PK, id), Password)).error)), db)
  {
  }

  /** Any error other than "Invalid email or password." comes from bcrypt,
      and only for an email that a row holds: such an error tells the caller
      that the email is registered. */
  lemma LoginOtherErrorMeansKnownEmail(db: Db, email: string, password: Value, c: Crypto, now: int)
    requires db.Valid()
    requires LoginStep(db, email, password, c, now).0.Err?
    requires LoginStep(db, email, password, c, now).0.error != Thrown(BadLoginMessage)
    ensures exists id :: FirstWithEmail(db, email, id) && c.compare(password, Get(Read(db, PK, id), Password)).Err?
  {
    var id := FindByEmail(db, Str(email)).value;
    FindsFirstWithEmail(db, email, id);
  }

  /** The claims login signs, taken from the stored row. */
  function LoginClaims(row: Object): Object
  {
    Claims(Get(row, CustomerId), Get(row, FullName), Get(row, Email), Get(row, Role))
  }

  /** A successful login returns only the profile projection of the row,
      neither the password nor the refresh pair. */
  lemma LoginReturnsProfile(db: Db, email: string, password: Value, c: Crypto, now: int, id: nat)
    requires FindByEmail(db, Str(email)) == Some(id) && id in db.rows
    requires c.compare(password, Get(Read(db, PK, id), Password)) == Ok(true)
    ensures var r := LoginStep(db, email, password, c, now).0;
            && r.Ok?
            && r.value.customer == ReadCustomer(Read(db, PK, id))
            && r.value.customer.Keys == CustomerFields
  {
  }

  /** A successful login overwrites the refresh pair of the row it found,
      with the refresh token it returns, and changes nothing else. */
  lemma LoginIssuesRefresh(db: Db, email: string, password: Value, c: Crypto, now: int, id: nat)
    requires db.Valid() && FindByEmail(db, Str(email)) == Some(id) && id in db.rows
    requires c.compare(password, Get(Read(db, PK, id), Password)) == Ok(true)
    ensures var (r, after) := LoginStep(db, email, password, c, now);
            && r.Ok?
            && after.Valid() && after.rows.Keys == db.rows.Keys && after.nextId == db.nextId
            && (forall other :: other in db.rows && other != id ==> after.rows[other] == db.rows[other])
            && HoldsRefresh(after.rows[id], r.value.refreshToken, now)
            && (forall k :: k != RefreshToken && k != RefreshTokenExpires ==> Get(after.rows[id], k) == Get(db.rows[id], k))
  {
    var refresh := c.signRefresh(LoginClaims(Read(db, PK, id)), now);
    RefreshedRow(db.rows[id], refresh, RefreshTokenExpiration(now));
    UpdateFrame(db, PK, id, RefreshColumns(refresh, RefreshTokenExpiration(now)));
    assert LoginStep(db, email, password, c, now).0.value.refreshToken == refresh;
    assert LoginStep(db, email, password, c, now).1 == Update(db, PK, id, RefreshColumns(refresh, RefreshTokenExpiration(now)));
  }

  /** Writing the refresh pair into a row changes those two columns only. */
  lemma RefreshedRow(row: Object, refresh: string, expires: int)
    ensures var after := Write(row, RefreshColumns(refresh, expires), PK);
            && Get(after, RefreshToken) == (if refresh == "" then Null else Str(refresh))
            && Get(after, RefreshTokenExpires) == Date(expires)
            && forall k :: k != RefreshToken && k != RefreshTokenExpires ==> Get(after, k) == Get(row, k)
  {
    forall k ensures Get(Write(row, RefreshColumns(refresh, expires), PK), k) ==
                     (if k == RefreshToken then (if refresh == "" then Null else Str(refresh))
                      else if k == RefreshTokenExpires then Date(expires)
                      else Get(row, k))
    {
      GetWrite(row, RefreshColumns(refresh, expires), PK, k);
      GetRefreshColumns(refresh, expires, k);
    }
  }

  /** An update writes only the profile fields: the stored password and
      refresh pair are kept, and only the addressed row changes. */
  lemma UpdateKeepsCredentials(db: Db, id: nat, input: Object, f: Formats)
    requires db.Valid() && Validate(CustomerSchema, input, f).None?
    ensures var (r, after) := UpdateCustomerStep(db, id, input, f);
            && r.Ok? && Get(r.value, Id) == Num(id as real)
            && after.Valid() && after.rows.Keys == db.rows.Keys && after.nextId == db.nextId
            && (forall other :: other in db.rows && other != id ==> after.rows[other] == db.rows[other])
            && (id in db.rows ==>
                  forall k :: Get(after.rows[id], k) == if k in CustomerFields then Get(input, k) else Get(db.rows[id], k))
  {
    ValidCustomerFields(input, f);
    var data := ReadCustomer(input);
    assert UpdateCustomerStep(db, id, input, f).1 == Update(db, PK, id, data);
    if id in db.rows {
      UpdateFrame(db, PK, id, data);
      UpdatedProfile(db.rows[id], input);
    }
  }

  /** An update payload goes through the same schema as registration, the
      password included: on a failure the schema's report is returned and the
      table is not touched. */
  lemma UpdateValidatesFirst(db: Db, id: nat, input: Object, f: Formats)
    requires Validate(CustomerSchema, input, f).Some?
    ensures UpdateCustomerStep(db, id, input, f) == (Err(Invalid(Validate(CustomerSchema, input, f).value)), db)
  {
  }

  /** A profile update that leaves out the password is refused, even though
      the password is never written by an update. */
  lemma UpdateNeedsPassword(db: Db, id: nat, input: Object, f: Formats)
    requires Get(input, Password) == Undefined
    ensures UpdateCustomerStep(db, id, input, f).0.Err? && UpdateCustomerStep(db, id, input, f).1 == db
  {
    MissingRequired(CustomerSchema, input, f, 3);
  }

  /** Writing the profile fields of a valid payload into a row. */
  lemma UpdatedProfile(row: Object, input: Object)
    requires forall k :: k in CustomerFields ==> Get(input, k) != Undefined
    ensures forall k :: Get(Write(row, ReadCustomer(input), PK), k) ==
              (if k in CustomerFields then Get(input, k) else Get(row, k))
  {
    forall k ensures Get(Write(row, ReadCustomer(input), PK), k) ==
                     (if k in CustomerFields then Get(input, k) else Get(row, k))
    {
      if k in CustomerFields {
        ProfileField(k);
      }
      GetWrite(row, ReadCustomer(input), PK, k);
    }
  }

  // ---------------------------------------------------------------------
  // The service object
  // ---------------------------------------------------------------------

  /** `CustomerService`, holding the `customers` table. */
  class CustomerService {
    var rows: Rows
    var nextId: nat
    const crypto: Crypto

    function State(): Db
      reads this
    {
      Db(rows, nextId)
    }

    predicate Valid()
      reads this
    {
      State().Valid()
    }

    constructor (table: Db, crypto: Crypto)
      requires table.Valid()
      ensures Valid() && State() == table && this.crypto == crypto
    {
      rows, nextId := table.rows, table.nextId;
      this.crypto := crypto;
    }

    method Register(input: Object, now: int) returns (r: Result<Session, CustomerError>)
      requires Valid()
      modifies this
      ensures Valid()
      ensures (r, State()) == RegisterStep(old(State()), input, crypto, now)
    {
      var failure := Validate(CustomerSchema, input, crypto.formats);
      if failure.Some? {
        return Err(Invalid(failure.value));
      }
      var existing := FindByEmail(State(), Get(input, Email));
      if existing.Some? {
        return Err(Thrown(EmailInUseMessage));
      }
      ghost var before := State();
      UnusedEmailEnrols(before, input, crypto, now);
      var data := CustomerData(input, crypto);
      var claims := EnrolClaims(State(), input);
      var id := nextId;
      var inserted := Insert(State(), data, PK);
      InsertFrame(State(), data, PK);
      rows, nextId := inserted.rows, inserted.nextId;
      assert State() == inserted;
      var saved := map[Id := Num(id as real)] + data;
      var accessToken := crypto.signAccess(claims, now);
      var refreshToken := crypto.signRefresh(claims, now);
      var expires := RefreshTokenExpiration(now);
      var updated := Update(State(), PK, id, RefreshColumns(refreshToken, expires));
      UpdateFrame(State(), PK, id, RefreshColumns(refreshToken, expires));
      rows := updated.rows;
      assert State() == updated;
      r := Ok(Session(saved, accessToken, refreshToken));
      assert (r, updated) == Enrol(before, input, crypto, now);
    }

    method Login(email: string, password: Value, now: int) returns (r: Result<Session, CustomerError>)
      requires Valid()
      modifies this
      ensures Valid()
      ensures (r, State()) == LoginStep(old(State()), email, password, crypto, now)
    {
      var found := FindByEmail(State(), Str(email));
      if found.None? {
        return Err(Thrown(BadLoginMessage));
      }
      var customer := Read(State(), PK, found.value);
      var isPasswordValid := crypto.compare(password, Get(customer, Password));
      if isPasswordValid.Err? {
        return Err(Thrown(isPasswordValid.error));
      }
      if !isPasswordValid.value {
        return Err(Thrown(BadLoginMessage));
      }
      var claims := LoginClaims(customer);
      var accessToken := crypto.signAccess(claims, now);
      var refreshToken := crypto.signRefresh(claims, now);
      var expires := RefreshTokenExpiration(now);
      rows := rows[found.value := Write(rows[found.value], RefreshColumns(refreshToken, expires), PK)];
      r := Ok(Session(ReadCustomer(customer), accessToken, refreshToken));
    }

    /** `GetAllCustomer(page, limit)`: the count is the number of rows; an
        empty table answers without the second query, with the same result
        the general path would give. */
    method GetAllCustomer(p: Paginator) returns (r: Listing)
      requires Valid()
      ensures r.metadataCount == |rows|
      ensures r.items == Window(AllCustomers(State()), p)
      ensures forall i :: 0 <= i < |r.items| ==> r.items[i].Keys == ListedColumns
    {
      var count := |rows|;
      var ids := Matching(State(), PK, Everything, 0);
      MatchingCount(State(), PK, Everything);
      assert (set id | id in rows && true) == rows.Keys;
      if count == 0 {
        return Listing(0, []);
      }
      r := Listing(count, Window(SelectEach(ReadEach(State(), PK, ids), ListedColumns), p));
    }

    /** `GetCustomerById(id)`: the profile columns, or "Customer not found". */
    method GetCustomerById(id: nat) returns (r: Result<Object, CustomerError>)
      requires Valid()
      ensures r.Err? <==> id !in rows
      ensures r.Err? ==> r.error == Thrown(NotFoundMessage)
      ensures r.Ok? ==> r.value.Keys == ProfileColumns && r.value[CustomerId] == Num(id as real)
      ensures r.Ok? ==> forall k :: k in ProfileColumns && k != PK ==>
                r.value[k] == (if Get(rows[id], k) == Undefined then Null else Get(rows[id], k))
    {
      if id !in rows {
        return Err(Thrown(NotFoundMessage));
      }
      r := Ok(Select(Read(State(), PK, id), ProfileColumns));
    }

    method UpdateCustomer(id: nat, input: Object) returns (r: Result<Object, CustomerError>)
      requires Valid()
      modifies this
      ensures Valid()
      ensures (r, State()) == UpdateCustomerStep(old(State()), id, input, crypto.formats)
    {
      var failure := Validate(CustomerSchema, input, crypto.formats);
      if failure.Some? {
        return Err(Invalid(failure.value));
      }
      var data := ReadCustomer(input);
      if id in rows {
        var updated := Update(State(), PK, id, data);
        UpdateFrame(State(), PK, id, data);
        rows := updated.rows;
        assert State() == updated;
      }
      r := Ok(map[Id := Num(id as real)] + data);
    }

    method DeleteCustomer(id: nat)
      requires Valid()
      modifies this
      ensures Valid()
      ensures rows == old(rows) - {id} && nextId == old(nextId)
    {
      rows := rows - {id};
    }

    method DeleteAllCustomer()
      requires Valid()
      modifies this
      ensures Valid()
      ensures rows == map[] && nextId == old(nextId)
      ensures State() == Clear(old(State()))
    {
      rows := map[];
    }
  }
}
