/**
 * The JSON responses the handlers produce: apiResponse (lib/utils/api.ts:24-26)
 * in the app routes, `res.status(..).json(..)` in the pages routes.
 */
module Http {
  import opened Optional
  import opened Store

  /**
   * The fields a response body can carry. There is no password field: a
   * user in a body is always the `{ id, email }` projection.
   */
  datatype Body = Body(message: Option<string>, user: Option<Profile>, redirect: Option<string>)

  /** A JSON response with a status, or the 500 a store error leads to. */
  datatype Response = Json(status: int, body: Body) | ServerFault

  // Messages more than one route file sends.
  const MethodNotAllowed := "Method not allowed"
  const AlreadyExists := "User already exists"
  const UserCreated := "User created successfully"
  const UserNotFound := "User not found"
  const PasswordChanged := "Password changed successfully"
  const UserIdRequired := "User ID is required"

  /** `{ message }` with a status. */
  function Reply(status: int, message: string): Response {
    Json(status, Body(Some(message), None, None))
  }
}
