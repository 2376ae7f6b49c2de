/**
 * app/api/auth/route.ts: POST (login). Validates the credentials, looks
 * the user up and verifies the password; an unknown e-mail and a wrong
 * password get the same answer. It only reads the table.
 */
module AuthRoute {
  import opened Optional
  import opened Validation
  import opened Crypto
  import opened Store
  import opened Http

  const InvalidCredentials := "Invalid credentials"
  const LoginSuccessful := "Login successful"

  /** The response login gives when the credentials match a row. */
  function LoggedIn(user: Profile): Response {
    Json(200, Body(Some(LoginSuccessful), Some(user), None))
  }

  function Post(db: UsersTable, email: Option<string>, password: Option<string>): (resp: Response)
    reads db
    // 1. validateCredentials, before any lookup
    ensures !Accepted(email, password) ==>
      var failure := ValidateCredentials(email, password).value;
      resp == Reply(failure.status, failure.error)
    // 2. success exactly when the row exists and the password verifies against its hash
    ensures Accepted(email, password) ==>
      (resp.Json? && resp.status == 200 <==>
        email.value in db.rows && Verify(password.value, db.rows[email.value].password))
    // 3. an unknown e-mail and a wrong password are not told apart
    ensures Accepted(email, password) && !(resp.Json? && resp.status == 200) ==> resp == Reply(401, InvalidCredentials)
    // 4. the user is returned without its password column
    ensures resp.Json? && resp.status == 200 ==>
      && Accepted(email, password) && email.value in db.rows
      && resp == LoggedIn(WithoutPassword(User(db.rows[email.value].id, email.value, db.rows[email.value].password)))
  {
    match ValidateCredentials(email, password)
    case Some(failure) => Reply(failure.status, failure.error)
    case None =>
      var user := db.FindByEmail(email.value);
      if user.None? || !Verify(password.value, user.value.password) then Reply(401, InvalidCredentials)
      else LoggedIn(WithoutPassword(user.value))
  }

  /** A row whose hash was made from the password logs in with its id and e-mail, once the credentials pass validation. */
  lemma LoginFindsHashedPassword(db: UsersTable, email: Option<string>, password: Option<string>, salt: Salt)
    requires email.Some? && password.Some?
    requires email.value in db.rows && db.rows[email.value].password == Hash(password.value, salt)
    ensures Accepted(email, password) ==> Post(db, email, password) == LoggedIn(Profile(db.rows[email.value].id, email.value))
  {
    VerifyHash(password.value, salt);
  }

  /** A row whose hash was made from another password refuses the login with 401. */
  lemma LoginRefusesOtherPassword(db: UsersTable, email: Option<string>, password: Option<string>, original: string, salt: Salt)
    requires Accepted(email, password) && password.value != original
    requires email.value in db.rows && db.rows[email.value].password == Hash(original, salt)
    ensures Post(db, email, password) == Reply(401, InvalidCredentials)
  {
    if Verify(password.value, Hash(original, salt)) {
      VerifyOnlyOriginal(password.value, original, salt);
    }
  }
}
