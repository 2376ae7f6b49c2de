/**
 * pages/api/change-password.ts: changePasswordHandler. Only POST is
 * served; the credential checks run in the order validateCredentials
 * uses, then the new password's strength; the row is looked up by e-mail
 * AND by comparing the password column with the plaintext, and on a
 * match the column is set to the new hash.
 *
 * The file's own copies of isValidPassword and isValidEmail (lines 5-14)
 * are the same patterns as lib/utils/validation.ts and are the ones of
 * module Validation.
 *
 * Every password column holds a bcrypt string, which begins with `$`, and
 * a password that passed the strength check contains no `$`; so the
 * lookup never matches and the handler, as written, never changes a
 * password. CorrectedChangePasswordHandler looks the row up by e-mail and
 * verifies the password against the hash, as the app route does.
 */
module ChangePasswordPage {
  import opened Optional
  import opened Validation
  import opened Crypto
  import opened Store
  import opened Http

  const NewWeakPassword := "New password must be at least 6 characters long and contain at least one uppercase letter, one lowercase letter, one number, and one underscore"

  /** The checks before the store is touched all pass. */
  predicate PassesInputChecks(httpMethod: string, email: Option<string>, password: Option<string>, newPassword: Option<string>) {
    httpMethod == "POST" && Accepted(email, password) && IsValidPassword(RegexInput(newPassword))
  }

  /** The lookup as written: `where email = ? and password = ?`, the plaintext against the stored column. */
  lemma PlaintextLookupNeverMatches(db: UsersTable, email: string, password: string)
    requires db.PasswordsHashed() && PasswordRegex(password)
    ensures !(email in db.rows && db.rows[email].password == password)
  {
    if email in db.rows {
      DigestIsNotAPassword(db.rows[email].password);
    }
  }

  method ChangePasswordHandler(db: UsersTable, httpMethod: string, email: Option<string>, password: Option<string>,
                               newPassword: Option<string>, salt: Salt)
    returns (resp: Response)
    requires db.Valid()
    modifies db
    ensures db.Valid() && db.nextId == old(db.nextId)
    ensures httpMethod != "POST" ==> resp == Reply(405, MethodNotAllowed) && unchanged(db)
    // the checks of lines 26-41, in validateCredentials' order
    ensures httpMethod == "POST" && !Accepted(email, password) ==>
      var failure := ValidateCredentials(email, password).value;
      resp == Reply(failure.status, failure.error) && unchanged(db)
    // a weak or absent new password, before any store access
    ensures httpMethod == "POST" && Accepted(email, password) && !PasswordRegex(RegexInput(newPassword)) ==>
      resp == Reply(400, NewWeakPassword) && unchanged(db)
    ensures PassesInputChecks(httpMethod, email, password, newPassword)
            && !(email.value in old(db.rows) && old(db.rows)[email.value].password == password.value) ==>
      resp == Reply(400, UserNotFound) && unchanged(db)
    ensures PassesInputChecks(httpMethod, email, password, newPassword)
            && email.value in old(db.rows) && old(db.rows)[email.value].password == password.value ==>
      && db.rows == old(db.rows)[email.value := Row(old(db.rows)[email.value].id, Hash(newPassword.value, salt))]
      && resp == Reply(201, PasswordChanged)
    // (the case above has no old != new condition: an unchanged password is not refused)
    // on a table of hashed passwords the lookup never matches, so nothing ever changes
    ensures old(db.PasswordsHashed()) ==> unchanged(db) && resp != Reply(201, PasswordChanged)
  {
    if httpMethod != "POST" {
      return Reply(405, MethodNotAllowed);
    }
    var failure := ValidateCredentials(email, password);
    if failure.Some? {
      return Reply(failure.value.status, failure.value.error);
    }
    if !IsValidPassword(RegexInput(newPassword)) {
      PasswordMatchesRegex(RegexInput(newPassword));
      return Reply(400, NewWeakPassword);
    }
    PasswordMatchesRegex(RegexInput(newPassword));
    if db.PasswordsHashed() {
      PlaintextLookupNeverMatches(db, email.value, password.value);
    }
    if !(email.value in db.rows && db.rows[email.value].password == password.value) {
      return Reply(400, UserNotFound);
    }
    var hashed := Hash(newPassword.value, salt);
    db.UpdatePassword(email.value, hashed);
    resp := Reply(201, PasswordChanged);
  }

  /** The handler with the lookup verifying the password against the stored hash. */
  method CorrectedChangePasswordHandler(db: UsersTable, httpMethod: string, email: Option<string>, password: Option<string>,
                                        newPassword: Option<string>, salt: Salt)
    returns (resp: Response)
    requires db.Valid()
    modifies db
    ensures db.Valid() && db.nextId == old(db.nextId)
    ensures old(db.PasswordsHashed()) ==> db.PasswordsHashed()
    ensures httpMethod != "POST" ==> resp == Reply(405, MethodNotAllowed) && unchanged(db)
    ensures httpMethod == "POST" && !Accepted(email, password) ==>
      var failure := ValidateCredentials(email, password).value;
      resp == Reply(failure.status, failure.error) && unchanged(db)
    ensures httpMethod == "POST" && Accepted(email, password) && !IsValidPassword(RegexInput(newPassword)) ==>
      resp == Reply(400, NewWeakPassword) && unchanged(db)
    ensures PassesInputChecks(httpMethod, email, password, newPassword)
            && !(email.value in old(db.rows) && Verify(password.value, old(db.rows)[email.value].password)) ==>
      resp == Reply(400, UserNotFound) && unchanged(db)
    ensures PassesInputChecks(httpMethod, email, password, newPassword)
            && email.value in old(db.rows) && Verify(password.value, old(db.rows)[email.value].password) ==>
      && db.rows == old(db.rows)[email.value := Row(old(db.rows)[email.value].id, Hash(newPassword.value, salt))]
      && resp == Reply(201, PasswordChanged)
  {
    if httpMethod != "POST" {
      return Reply(405, MethodNotAllowed);
    }
    var failure := ValidateCredentials(email, password);
    if failure.Some? {
      return Reply(failure.value.status, failure.value.error);
    }
    if !IsValidPassword(RegexInput(newPassword)) {
      return Reply(400, NewWeakPassword);
    }
    var user := db.FindByEmail(email.value);
    if user.None? || !Verify(password.value, user.value.password) {
      return Reply(400, UserNotFound);
    }
    var hashed := Hash(newPassword.value, salt);
    db.UpdatePassword(email.value, hashed);
    resp := Reply(201, PasswordChanged);
  }
}
