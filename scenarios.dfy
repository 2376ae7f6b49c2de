/**
 * Requests run one after another against one table: what a client of the
 * handlers can rely on from their contracts alone.
 */
module Scenarios {
  import opened Optional
  import opened Validation
  import opened Crypto
  import opened Store
  import opened Http
  import UsersRoute
  import AuthRoute
  import RegisterPage
  import ChangePasswordPage

  /** Registering through POST /api/users and then logging in returns the created user. */
  method RegisterThenLogin(db: UsersTable, email: Option<string>, password: Option<string>, salt: Salt)
    returns (registered: Response, login: Response)
    requires db.Valid() && Accepted(email, password) && email.value !in db.rows
    modifies db
    ensures registered.Json? && registered.status == 201 && registered.body.user.Some?
    ensures login == AuthRoute.LoggedIn(registered.body.user.value)
  {
    registered := UsersRoute.Post(db, email, password, salt);
    AuthRoute.LoginFindsHashedPassword(db, email, password, salt);
    login := AuthRoute.Post(db, email, password);
  }

  /** A second registration with the same e-mail is refused and the table keeps the first row. */
  method RegisterTwice(db: UsersTable, email: Option<string>, password: Option<string>, other: Option<string>, salt: Salt)
    returns (first: Response, second: Response)
    requires db.Valid() && Accepted(email, password) && Accepted(email, other) && email.value !in db.rows
    modifies db
    ensures first.Json? && first.status == 201
    ensures second == Reply(400, AlreadyExists)
    ensures db.rows == old(db.rows)[email.value := Row(old(db.nextId), Hash(password.value, salt))]
  {
    first := UsersRoute.Post(db, email, password, salt);
    second := UsersRoute.Post(db, email, other, salt);
  }

  /** After PUT /api/users succeeds, the new password logs in and the old one does not. */
  method ChangeThenLogin(db: UsersTable, email: Option<string>, password: Option<string>, newPassword: Option<string>, salt: Salt)
    returns (changed: Response, withNew: Response, withOld: Response)
    requires db.Valid() && email.Some? && password.Some? && newPassword.Some?
    requires email.value in db.rows && Verify(password.value, db.rows[email.value].password)
    modifies db
    ensures UsersRoute.PutReachesStore(email, password, newPassword) ==>
      && changed.Json? && changed.status == 200
      && withNew == AuthRoute.LoggedIn(Profile(old(db.rows)[email.value].id, email.value))
      && withOld == Reply(401, AuthRoute.InvalidCredentials)
  {
    changed := UsersRoute.Put(db, email, password, newPassword, salt);
    if UsersRoute.PutReachesStore(email, password, newPassword) {
      AuthRoute.LoginFindsHashedPassword(db, email, newPassword, salt);
      AuthRoute.LoginRefusesOtherPassword(db, email, password, newPassword.value, salt);
    }
    withNew := AuthRoute.Post(db, email, newPassword);
    withOld := AuthRoute.Post(db, email, password);
  }

  /**
   * pages/api/register.ts and then pages/api/change-password.ts with the
   * right password: the plaintext lookup misses the hashed row, so the
   * change is refused with "User not found".
   */
  method PageChangePasswordRefused(db: UsersTable, email: Option<string>, password: Option<string>,
                                   newPassword: Option<string>, salt: Salt)
    returns (registered: Response, changed: Response)
    requires db.Valid() && db.PasswordsHashed() && ChangePasswordPage.PassesInputChecks("POST", email, password, newPassword)
    requires email.value !in db.rows
    modifies db
    ensures registered == Reply(201, UserCreated)
    ensures changed == Reply(400, UserNotFound)
  {
    registered := RegisterPage.RegisterHandler(db, "POST", email, password, salt);
    PasswordMatchesRegex(RegexInput(newPassword));
    changed := ChangePasswordPage.ChangePasswordHandler(db, "POST", email, password, newPassword, salt);
  }

  /** `a@b.co` / `Abc123_` with new password `Xyz789_` passes every check before the store. */
  lemma ExampleRequestPassesChecks()
    ensures ChangePasswordPage.PassesInputChecks("POST", Some("a@b.co"), Some("Abc123_"), Some("Xyz789_"))
  {
    ExampleCredentialsAccepted();
    PasswordAcceptsExamples();
    PasswordMatchesRegex("Xyz789_");
  }

  lemma ExampleCredentialsAccepted()
    ensures Accepted(Some("a@b.co"), Some("Abc123_"))
  {
    EmailExamples();
    PasswordAcceptsExamples();
  }

  /** The same two requests on concrete inputs, against a new table. */
  method PageChangePasswordAfterRegister(salt: Salt) returns (registered: Response, changed: Response)
    ensures registered == Reply(201, UserCreated)
    ensures changed == Reply(400, UserNotFound)
  {
    var email, password, newPassword := Some("a@b.co"), Some("Abc123_"), Some("Xyz789_");
    ExampleRequestPassesChecks();
    var db := new UsersTable();
    registered, changed := PageChangePasswordRefused(db, email, password, newPassword, salt);
  }

  /**
   * With the corrected handler, a password registered through
   * pages/api/register.ts can be changed, to any password that passes the
   * strength check.
   */
  method CorrectedChangePasswordAfterRegister(db: UsersTable, email: Option<string>, password: Option<string>,
                                              newPassword: Option<string>, salt: Salt)
    returns (registered: Response, changed: Response)
    requires db.Valid() && ChangePasswordPage.PassesInputChecks("POST", email, password, newPassword)
    requires email.value !in db.rows
    modifies db
    ensures registered == Reply(201, UserCreated)
    ensures changed == Reply(201, PasswordChanged)
    ensures email.value in db.rows && Verify(newPassword.value, db.rows[email.value].password)
  {
    registered := RegisterPage.RegisterHandler(db, "POST", email, password, salt);
    VerifyHash(password.value, salt);
    changed := ChangePasswordPage.CorrectedChangePasswordHandler(db, "POST", email, password, newPassword, salt);
    VerifyHash(newPassword.value, salt);
  }
}
