/**
 * pages/api/register.ts: registerHandler. Only POST is served; it checks
 * that both fields are present (no format or strength check), refuses a
 * known e-mail and inserts the hashed password.
 */
module RegisterPage {
  import opened Optional
  import opened Validation
  import opened Crypto
  import opened Store
  import opened Http

  method RegisterHandler(db: UsersTable, httpMethod: string, email: Option<string>, password: Option<string>, salt: Salt)
    returns (resp: Response)
    requires db.Valid()
    modifies db
    ensures db.Valid()
    ensures old(db.PasswordsHashed()) ==> db.PasswordsHashed()
    ensures httpMethod != "POST" ==> resp == Reply(405, MethodNotAllowed) && unchanged(db)
    ensures httpMethod == "POST" && (Missing(email) || Missing(password)) ==>
      resp == Reply(400, CredentialsRequired) && unchanged(db)
    ensures httpMethod == "POST" && !Missing(email) && !Missing(password) && email.value in old(db.rows) ==>
      resp == Reply(400, AlreadyExists) && unchanged(db)
    ensures httpMethod == "POST" && !Missing(email) && !Missing(password) && email.value !in old(db.rows) ==>
      && db.rows == old(db.rows)[email.value := Row(old(db.nextId), Hash(password.value, salt))]
      && db.nextId == old(db.nextId) + 1
      && resp == Reply(201, UserCreated)
  {
    if httpMethod != "POST" {
      return Reply(405, MethodNotAllowed);
    }
    if Missing(email) || Missing(password) {
      return Reply(400, CredentialsRequired);
    }
    if db.FindByEmail(email.value).Some? {
      return Reply(400, AlreadyExists);
    }
    var hashed := Hash(password.value, salt);
    var _ := db.Insert(email.value, hashed);
    resp := Reply(201, UserCreated);
  }
}
