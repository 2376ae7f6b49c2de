/**
 * app/api/users/route.ts: POST (register), PUT (change password) and GET
 * (profile by id). Each handler is a chain of early returns; the first
 * check that fails decides the response. POST and PUT change the table
 * only on their success path.
 */
module UsersRoute {
  import opened Optional
  import opened Validation
  import opened Crypto
  import opened Store
  import opened Http

  const NewPasswordRequired := "New password is required"
  const SamePassword := "New password cannot be the same as the old password"
  const InvalidPassword := "Invalid password"

  /** POST: validate, refuse a known e-mail, insert the hashed password. */
  method Post(db: UsersTable, email: Option<string>, password: Option<string>, salt: Salt)
    returns (resp: Response)
    requires db.Valid()
    modifies db
    ensures db.Valid()
    ensures old(db.PasswordsHashed()) ==> db.PasswordsHashed()
    // 1. validateCredentials
    ensures !Accepted(email, password) ==>
      var failure := ValidateCredentials(email, password).value;
      resp == Reply(failure.status, failure.error) && unchanged(db)
    // 2. the e-mail is already a key
    ensures Accepted(email, password) && email.value in old(db.rows) ==>
      resp == Reply(400, AlreadyExists) && unchanged(db)
    // 3. one new row, holding the hash and never the plaintext
    ensures Accepted(email, password) && email.value !in old(db.rows) ==>
      && db.rows == old(db.rows)[email.value := Row(old(db.nextId), Hash(password.value, salt))]
      && db.nextId == old(db.nextId) + 1
      // under this stand-in for bcrypt the digest is the plaintext behind a
      // 29-character prefix, so the inequality is a fact about lengths
      && db.rows[email.value].password != password.value
      && resp == Json(201, Body(Some(UserCreated), Some(Profile(old(db.nextId), email.value)), Some("/profile")))
  {
    var failure := ValidateCredentials(email, password);
    if failure.Some? {
      return Reply(failure.value.status, failure.value.error);
    }
    if db.FindByEmail(email.value).Some? {
      return Reply(400, AlreadyExists);
    }
    var hashed := Hash(password.value, salt);
    var created := db.Insert(email.value, hashed);
    resp := Json(201, Body(Some(UserCreated), Some(created), Some("/profile")));
  }

  /** The input checks of PUT all pass, so it goes on to the table. */
  predicate PutReachesStore(email: Option<string>, password: Option<string>, newPassword: Option<string>) {
    Accepted(email, password) && Accepted(email, newPassword) && password != newPassword
  }

  /**
   * PUT: validate the credentials, require a new password that passes the
   * same validation, refuse an unchanged password, then look the user up
   * and verify the old password before storing the new hash.
   */
  method Put(db: UsersTable, email: Option<string>, password: Option<string>, newPassword: Option<string>, salt: Salt)
    returns (resp: Response)
    requires db.Valid()
    modifies db
    ensures db.Valid() && db.nextId == old(db.nextId)
    ensures old(db.PasswordsHashed()) ==> db.PasswordsHashed()
    // 1. validateCredentials(email, password)
    ensures !Accepted(email, password) ==>
      var failure := ValidateCredentials(email, password).value;
      resp == Reply(failure.status, failure.error) && unchanged(db)
    // 2. newPassword absent or empty
    ensures Accepted(email, password) && Missing(newPassword) ==>
      resp == Reply(400, NewPasswordRequired) && unchanged(db)
    // 3. validateCredentials(email, newPassword): only the strength check can fail here
    ensures Accepted(email, password) && !Missing(newPassword) && !PasswordRegex(newPassword.value) ==>
      resp == Reply(400, WeakPassword) && unchanged(db)
    // 4. the new password equals the old one
    ensures Accepted(email, password) && Accepted(email, newPassword) && password == newPassword ==>
      resp == Reply(400, SamePassword) && unchanged(db)
    // 5. no row for the e-mail
    ensures PutReachesStore(email, password, newPassword) && email.value !in old(db.rows) ==>
      resp == Reply(400, UserNotFound) && unchanged(db)
    // 6. the old password does not verify
    ensures PutReachesStore(email, password, newPassword) && email.value in old(db.rows)
            && !Verify(password.value, old(db.rows)[email.value].password) ==>
      resp == Reply(400, InvalidPassword) && unchanged(db)
    // 7. only the row for the e-mail changes, and only its password
    ensures PutReachesStore(email, password, newPassword) && email.value in old(db.rows)
            && Verify(password.value, old(db.rows)[email.value].password) ==>
      && db.rows == old(db.rows)[email.value := Row(old(db.rows)[email.value].id, Hash(newPassword.value, salt))]
      && resp == Json(200, Body(Some(PasswordChanged), None, Some("/login")))
  {
    var failure := ValidateCredentials(email, password);
    if failure.Some? {
      return Reply(failure.value.status, failure.value.error);
    }
    if Missing(newPassword) {
      return Reply(400, NewPasswordRequired);
    }
    var newFailure := ValidateCredentials(email, newPassword);
    if newFailure.Some? {
      return Reply(newFailure.value.status, newFailure.value.error);
    }
    if password.value == newPassword.value {
      return Reply(400, SamePassword);
    }
    var user := db.FindByEmail(email.value);
    if user.None? {
      return Reply(400, UserNotFound);
    }
    if !Verify(password.value, user.value.password) {
      return Reply(400, InvalidPassword);
    }
    var hashed := Hash(newPassword.value, salt);
    db.UpdatePassword(email.value, hashed);
    resp := Json(200, Body(Some(PasswordChanged), None, Some("/login")));
  }

  /**
   * GET: `id` is what parseInt made of the query parameter, None for NaN.
   * NaN and 0 are refused, then the `{ id, email }` row is looked up.
   */
  function Get(db: UsersTable, id: Option<int>): (resp: Response)
    reads db
    requires db.Valid()
    ensures id.None? || id.value == 0 ==> resp == Reply(400, UserIdRequired)
    ensures id.Some? && id.value != 0 ==>
      (resp.Json? && resp.status == 200 <==> exists e :: e in db.rows && db.rows[e].id == id.value)
    ensures id.Some? && id.value != 0 && !(exists e :: e in db.rows && db.rows[e].id == id.value) ==>
      resp == Reply(404, UserNotFound)
    ensures resp.Json? && resp.status == 200 ==>
      && resp.body.message.None? && resp.body.redirect.None? && resp.body.user.Some?
      && var user := resp.body.user.value;
      && user.id == id.value && user.email in db.rows && db.rows[user.email].id == user.id
  {
    if id.None? || id.value == 0 then Reply(400, UserIdRequired)
    else
      match db.FindById(id.value)
      case None => Reply(404, UserNotFound)
      case Some(user) => Json(200, Body(None, Some(user), None))
  }
}
