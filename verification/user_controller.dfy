/**
 * The `/api/users` endpoints: how each service outcome becomes an HTTP
 * status, a body and (for creation) a `Location` header.
 */
module UserController {
  import opened Wrappers
  import opened Errors
  import opened Text
  import opened Users
  import opened UserRepository
  import UserService
  import opened BeanValidation

  datatype Body =
    | NoBody
    | One(user: User)
    | Many(users: seq<User>)
    | Message(text: string)
      /** The framework's own error body, written when `@Valid` refuses a
       *  request before the handler runs. */
    | InvalidRequestBody

  datatype Response = Response(status: int, body: Body, location: Option<string>)

  function Plain(status: int, body: Body): Response
  {
    Response(status, body, None)
  }

  const EmailExists := "User with this email already exists."
  const CreateFailed := "An error occurred while creating the user."
  const UsersPath := "/api/users/"

  /** `GET /api/users`: 204 for no users, 200 with the list otherwise, 500
   *  when reading fails (`failure`). */
  function GetAllUsers(t: Table, failure: Option<Exc>): (r: Response)
    ensures failure.Some? ==> r == Plain(500, NoBody)
    ensures failure.None? && t.rows == [] ==> r == Plain(204, NoBody)
    ensures failure.None? && t.rows != [] ==> r == Plain(200, Many(t.rows))
  {
    if failure.Some? then Plain(500, NoBody)
    else if t.rows == [] then Plain(204, NoBody)
    else Plain(200, Many(t.rows))
  }

  /** `GET /api/users/{id}`. */
  function GetUserById(t: Table, id: nat): (r: Response)
    ensures r.status == 200 || r.status == 404
    ensures r.status == 200 <==> exists u | u in t.rows :: HasId(u, id)
    ensures r.status == 200 ==> r.body.One? && r.body.user in t.rows && HasId(r.body.user, id)
  {
    match UserService.GetUserById(t, id)
    case Some(u) => Plain(200, One(u))
    case None => Plain(404, NoBody)
  }

  /** What the handlers receive of a JSON user: the two `@JsonIgnore`
   *  properties, the password and the last login, are never read from the
   *  request; everything else, the phone number, the picture and the
   *  biography included, is. */
  function Received(sent: User): (u: User)
    ensures u.password.None? && u.lastLogin.None?
    ensures u.(password := sent.password, lastLogin := sent.lastLogin) == sent
  {
    sent.(password := None, lastLogin := None)
  }

  /** The body of `createUser` on the user it receives: 409 when the e-mail
   *  is taken (the table is not touched), otherwise 201 with the created
   *  user and its location, or 500 when creation throws (no password, an
   *  entity the insert's validation refuses, or a phone number another
   *  user has). */
  function CreateHandler(t: Table, u: User, encode: string -> string, isEmail: string -> bool, isUrl: string -> bool, now: int): (r: (Table, Response))
    ensures ExistsByEmail(t, u.email) ==> r == (t, Plain(409, Message(EmailExists)))
    ensures !ExistsByEmail(t, u.email) && u.password.None? ==> r == (t, Plain(500, Message(CreateFailed)))
    ensures !ExistsByEmail(t, u.email) && u.password.Some? ==>
              if MeetsConstraints(isEmail, isUrl, UserService.ToInsert(u, encode)) && !PhoneTaken(t, u.phoneNumber) then
                && r.1.status == 201 && r.1.body.One?
                && r.1.location == Some(UsersPath + NatToString(t.nextId))
                && r.1.body.user.id == Some(t.nextId) && !r.1.body.user.enabled
                && r.1.body.user.phoneNumber == u.phoneNumber
                && r.0.rows == t.rows + [r.1.body.user]
              else
                r == (t, Plain(500, Message(CreateFailed)))
  {
    if UserService.ExistsByEmailQuery(t, u.email) then
      ExistsByEmailIffFound(t, u.email);
      (t, Plain(409, Message(EmailExists)))
    else
      ExistsByEmailIffFound(t, u.email);
      match UserService.CreateUser(t, u, encode, isEmail, isUrl, now)
      case Ok((t', created)) => (t', Response(201, One(created), Some(UsersPath + NatToString(created.id.value))))
      case Err(_) => (t, Plain(500, Message(CreateFailed)))
  }

  /** `POST /api/users`, as written: `@Valid` checks the entity's
   *  constraints on the received user, whose password is never read, so
   *  every request is refused with 400 before the handler runs. */
  function CreateUser(t: Table, sent: User, encode: string -> string, isEmail: string -> bool, isUrl: string -> bool, now: int): (r: (Table, Response))
    ensures r == (t, Plain(400, InvalidRequestBody))
  {
    var u := Received(sent);
    ConstraintsReadAnnotatedFields(isEmail, isUrl, u, u);
    if MeetsConstraints(isEmail, isUrl, u) then CreateHandler(t, u, encode, isEmail, isUrl, now)
    else (t, Plain(400, InvalidRequestBody))
  }

  /** `POST /api/users` with the password write-only, as the endpoint
   *  evidently means it: read from the request, never written back. */
  function CreateUserIntended(t: Table, sent: User, encode: string -> string, isEmail: string -> bool, isUrl: string -> bool, now: int): (r: (Table, Response))
    ensures !MeetsConstraints(isEmail, isUrl, sent.(lastLogin := None)) ==> r == (t, Plain(400, InvalidRequestBody))
    ensures MeetsConstraints(isEmail, isUrl, sent.(lastLogin := None)) ==>
              && sent.password.Some?
              && (ExistsByEmail(t, sent.email) ==> r == (t, Plain(409, Message(EmailExists))))
              && (!ExistsByEmail(t, sent.email) && PhoneTaken(t, sent.phoneNumber) ==> r == (t, Plain(500, Message(CreateFailed))))
              && (!ExistsByEmail(t, sent.email) && !PhoneTaken(t, sent.phoneNumber)
                  && MeetsConstraints(isEmail, isUrl, UserService.ToInsert(sent, encode)) ==>
                    r.1.status == 201 && r.1.body.One? && r.0.rows == t.rows + [r.1.body.user])
  {
    var u := sent.(lastLogin := None);
    if MeetsConstraints(isEmail, isUrl, u) then CreateHandler(t, u, encode, isEmail, isUrl, now)
    else (t, Plain(400, InvalidRequestBody))
  }

  /** Corrected: a valid request for a free address and a free phone
   *  number is created, and the location it answers leads back to the
   *  created user. */
  lemma CreatedUserIsFound(t: Table, sent: User, encode: string -> string, isEmail: string -> bool, isUrl: string -> bool, now: int)
    requires WellFormed(t) && !ExistsByEmail(t, sent.email) && !PhoneTaken(t, sent.phoneNumber)
    requires MeetsConstraints(isEmail, isUrl, sent) && MeetsConstraints(isEmail, isUrl, UserService.ToInsert(sent, encode))
    ensures var (t', resp) := CreateUserIntended(t, sent, encode, isEmail, isUrl, now);
            && resp.status == 201
            && resp.location == Some(UsersPath + NatToString(t.nextId))
            && GetUserById(t', t.nextId) == Plain(200, resp.body)
  {
    var u := sent.(lastLogin := None);
    ConstraintsReadAnnotatedFields(isEmail, isUrl, sent, u);
    assert UserService.ToInsert(u, encode) == UserService.ToInsert(sent, encode).(lastLogin := None);
    ConstraintsReadAnnotatedFields(isEmail, isUrl, UserService.ToInsert(sent, encode), UserService.ToInsert(u, encode));
    var (t', resp) := CreateUserIntended(t, sent, encode, isEmail, isUrl, now);
    FindByIdUnique(t', |t.rows|);
  }

  /** The status for an exception of the update, lock and delete endpoints. */
  function FailureStatus(e: Exc): (s: int)
    ensures s == 404 <==> e.kind == UsernameNotFound
    ensures s == 404 || s == 500
  {
    if e.kind == UsernameNotFound then 404 else 500
  }

  /** The body of `updateUser` on the user it receives: 404 for an unknown
   *  id, 500 when the update breaks the entity's constraints or takes
   *  another user's address (or the stored phone number clashes, which a
   *  well-formed table rules out), 200 with the saved user otherwise.  The
   *  received phone number, picture and biography are validated but not
   *  copied. */
  function UpdateHandler(t: Table, id: nat, updated: User, encode: string -> string, isEmail: string -> bool, isUrl: string -> bool, now: int): (r: (Table, Response))
    ensures FindById(t, id).None? ==> r == (t, Plain(404, NoBody))
    ensures FindById(t, id).Some? ==>
              var candidate := HashPassword(UserService.Details(FindById(t, id).value, updated, encode), encode);
              if !MeetsConstraints(isEmail, isUrl, candidate) || EmailTakenByOther(t, updated.email, id)
                 || PhoneTakenByOther(t, FindById(t, id).value.phoneNumber, id) then
                r == (t, Plain(500, NoBody))
              else
                && r.1.status == 200 && r.1.body.One? && r.1.body.user.email == updated.email
                && r.1.body.user.phoneNumber == FindById(t, id).value.phoneNumber
    ensures r.1.status == 200 && WellFormed(t) ==> WellFormed(r.0)
  {
    match UserService.UpdateUser(t, id, updated, encode, isEmail, isUrl, now)
    case Ok((t', u)) => (t', Plain(200, One(u)))
    case Err(e) => (t, Plain(FailureStatus(e), NoBody))
  }

  /** `PUT /api/users/{id}`, as written: a missing body is refused with
   *  400; `@Valid` then refuses every received user, which carries no
   *  password, with 400, so the handler never runs. */
  function UpdateUser(t: Table, id: Option<nat>, sent: Option<User>, encode: string -> string, isEmail: string -> bool, isUrl: string -> bool, now: int): (r: (Table, Response))
    ensures sent.None? ==> r == (t, Plain(400, NoBody))
    ensures sent.Some? ==> r == (t, Plain(400, InvalidRequestBody))
  {
    if sent.None? then (t, Plain(400, NoBody))
    else
      var u := Received(sent.value);
      ConstraintsReadAnnotatedFields(isEmail, isUrl, u, u);
      if !MeetsConstraints(isEmail, isUrl, u) then (t, Plain(400, InvalidRequestBody))
      else Validated(t, id, u, encode, isEmail, isUrl, now)
  }

  /** `updateUser` once the body has passed validation: 400 for a missing
   *  id, then the handler. */
  function Validated(t: Table, id: Option<nat>, u: User, encode: string -> string, isEmail: string -> bool, isUrl: string -> bool, now: int): (r: (Table, Response))
    ensures id.None? ==> r == (t, Plain(400, NoBody))
  {
    if id.None? then (t, Plain(400, NoBody))
    else UpdateHandler(t, id.value, u, encode, isEmail, isUrl, now)
  }

  /** `PUT /api/users/{id}` with the password write-only. */
  function UpdateUserIntended(t: Table, id: Option<nat>, sent: Option<User>, encode: string -> string, isEmail: string -> bool, isUrl: string -> bool, now: int): (r: (Table, Response))
    ensures sent.None? ==> r == (t, Plain(400, NoBody))
    ensures sent.Some? && !MeetsConstraints(isEmail, isUrl, sent.value.(lastLogin := None)) ==> r == (t, Plain(400, InvalidRequestBody))
    ensures sent.Some? && MeetsConstraints(isEmail, isUrl, sent.value.(lastLogin := None)) && id.Some? ==>
              r == UpdateHandler(t, id.value, sent.value.(lastLogin := None), encode, isEmail, isUrl, now)
  {
    if sent.None? then (t, Plain(400, NoBody))
    else
      var u := sent.value.(lastLogin := None);
      if !MeetsConstraints(isEmail, isUrl, u) then (t, Plain(400, InvalidRequestBody))
      else Validated(t, id, u, encode, isEmail, isUrl, now)
  }

  /** Corrected: a valid update of a stored user that keeps its own
   *  address, with an encoder yielding bcrypt hashes, is answered 200 and
   *  carries the new name.  The stored phone number, picture and biography
   *  are kept, so they must pass too, as they did when the row was saved. */
  lemma ValidUpdateSucceeds(t: Table, id: nat, sent: User, encode: string -> string, isEmail: string -> bool, isUrl: string -> bool, now: int)
    requires WellFormed(t) && FindById(t, id).Some? && sent.email == FindById(t, id).value.email
    requires OptionalFieldsValid(isUrl, FindById(t, id).value)
    requires forall s :: IsHashed(encode(s))
    requires MeetsConstraints(isEmail, isUrl, sent) && 8 <= |encode(sent.password.value)| <= 255
    ensures var (t', resp) := UpdateUserIntended(t, Some(id), Some(sent), encode, isEmail, isUrl, now);
            resp.status == 200 && resp.body.One? && resp.body.user.fullName == sent.fullName && FindById(t', id) == Some(resp.body.user)
  {
    var u := sent.(lastLogin := None);
    ConstraintsReadAnnotatedFields(isEmail, isUrl, sent, u);
    var prev := FindById(t, id).value;
    UserService.OwnEmailNotTaken(t, id);
    UserService.OwnPhoneNotTaken(t, id);
    var candidate := HashPassword(UserService.Details(prev, u, encode), encode);
    assert candidate.password == Some(encode(sent.password.value));
    assert candidate.phoneNumber == prev.phoneNumber && candidate.profilePictureUrl == prev.profilePictureUrl && candidate.bio == prev.bio;
    assert OptionalFieldsValid(isUrl, candidate);
    assert HasVisible(encode(sent.password.value)) by {
      assert |BcryptPrefix| > 0;
      assert encode(sent.password.value)[0] == BcryptPrefix[0];
    }
  }

  /** `PUT /api/users/{id}/lock`. */
  function ToggleLockUser(t: Table, id: Option<nat>, encode: string -> string, isEmail: string -> bool, isUrl: string -> bool, now: int): (r: (Table, Response))
    ensures id.None? ==> r == (t, Plain(400, NoBody))
    ensures id.Some? && FindById(t, id.value).None? ==> r == (t, Plain(404, NoBody))
    ensures id.Some? && WellFormed(t) && FindById(t, id.value).Some? ==>
              (r.1.status == 200 <==> UserService.StoredRowValid(t, id.value, encode, isEmail, isUrl))
              && (r.1.status == 200 ==> r.1.body.One? && r.1.body.user.locked == !FindById(t, id.value).value.locked)
              && (r.1.status != 200 ==> r == (t, Plain(500, NoBody)))
    ensures WellFormed(t) ==> WellFormed(r.0)
  {
    if id.None? then (t, Plain(400, NoBody))
    else match UserService.ToggleLock(t, id.value, encode, isEmail, isUrl, now)
      case Ok((t', u)) => (t', Plain(200, One(u)))
      case Err(e) => (t, Plain(FailureStatus(e), NoBody))
  }

  /** `DELETE /api/users/{id}`: 204 once deleted. */
  function DeleteUser(t: Table, id: Option<nat>): (r: (Table, Response))
    ensures id.None? ==> r == (t, Plain(400, NoBody))
    ensures id.Some? && FindById(t, id.value).None? ==> r == (t, Plain(404, NoBody))
    ensures id.Some? && FindById(t, id.value).Some? ==>
              r.1 == Plain(204, NoBody) && forall u :: u in r.0.rows <==> u in t.rows && !HasId(u, id.value)
  {
    if id.None? then (t, Plain(400, NoBody))
    else match UserService.DeleteUser(t, id.value)
      case Ok(t') => (t', Plain(204, NoBody))
      case Err(e) => (t, Plain(FailureStatus(e), NoBody))
  }

  /** A deleted user is gone: fetching it afterwards answers 404, and
   *  deleting it again too. */
  lemma DeleteThenGetIsNotFound(t: Table, id: nat)
    ensures GetUserById(DeleteUser(t, Some(id)).0, id).status == 404
    ensures DeleteUser(DeleteUser(t, Some(id)).0, Some(id)).1.status == 404
  {
  }
}
