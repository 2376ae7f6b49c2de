/**
 * pages/api/profile.ts: profileHandler. Serves any method; requires the
 * `userId` query text, then selects `{ id, email }` of the row whose id
 * equals it. The text is compared with the integer column, so the store
 * casts it to an integer, and text that is not an integer is a store
 * error, which the handler's catch turns into a 500.
 */
module ProfilePage {
  import opened Optional
  import opened Validation
  import opened Store
  import opened Http

  predicate AllDigits(s: string) {
    forall k :: 0 <= k < |s| ==> IsDigit(s[k])
  }

  /** The value of a string of decimal digits. */
  function DigitsValue(s: string): nat
    requires AllDigits(s)
  {
    if s == [] then 0 else DigitsValue(s[..|s| - 1]) * 10 + (s[|s| - 1] as int - '0' as int)
  }

  /** The cast of query text to the id column's integer type: an optional sign, then decimal digits. */
  function IntegerText(s: string): (r: Option<int>)
    ensures |s| > 0 && AllDigits(s) ==> r == Some(DigitsValue(s))
    ensures |s| > 1 && (s[0] == '-' || s[0] == '+') && AllDigits(s[1..]) ==>
      r == Some(if s[0] == '-' then -(DigitsValue(s[1..]) as int) else DigitsValue(s[1..]))
    ensures r.Some? ==> |s| > 0 && (IsDigit(s[0]) || (|s| > 1 && (s[0] == '-' || s[0] == '+'))) && AllDigits(s[1..])
    ensures r.Some? && r.value < 0 ==> s[0] == '-'
  {
    if |s| > 1 && (s[0] == '-' || s[0] == '+') && AllDigits(s[1..]) then
      var magnitude: int := DigitsValue(s[1..]);
      Some(if s[0] == '-' then -magnitude else magnitude)
    else if |s| > 0 && AllDigits(s) then Some(DigitsValue(s))
    else None
  }

  /** The decimal text of a natural number, as a client puts an id into a URL. */
  function Decimal(n: nat): (s: string)
    ensures |s| > 0 && AllDigits(s)
  {
    var last := ['0' + (n % 10) as char];
    if n < 10 then last else Decimal(n / 10) + last
  }

  /** Reading the decimal text of a number gives the number back. */
  lemma {:induction false} DecimalRoundTrip(n: nat)
    ensures IntegerText(Decimal(n)) == Some(n)
  {
    DigitsOfDecimal(n);
  }

  lemma {:induction false} DigitsOfDecimal(n: nat)
    ensures DigitsValue(Decimal(n)) == n
  {
    if n >= 10 {
      var s := Decimal(n);
      assert s[..|s| - 1] == Decimal(n / 10);
      DigitsOfDecimal(n / 10);
    }
  }

  function ProfileHandler(db: UsersTable, userId: Option<string>): (resp: Response)
    reads db
    requires db.Valid()
    ensures Missing(userId) ==> resp == Reply(400, UserIdRequired)
    ensures !Missing(userId) && IntegerText(userId.value).None? ==> resp == ServerFault
    ensures !Missing(userId) && IntegerText(userId.value).Some? ==>
      var id := IntegerText(userId.value).value;
      && (resp.Json? && resp.status == 200 <==> exists e :: e in db.rows && db.rows[e].id == id)
      && (!(exists e :: e in db.rows && db.rows[e].id == id) ==> resp == Reply(404, UserNotFound))
    // success carries exactly `{ user: { id, email } }`
    ensures resp.Json? && resp.status == 200 ==>
      && !Missing(userId) && IntegerText(userId.value).Some?
      && resp.body.message.None? && resp.body.redirect.None? && resp.body.user.Some?
      && var user := resp.body.user.value;
      && user.id == IntegerText(userId.value).value && user.email in db.rows && db.rows[user.email].id == user.id
  {
    if Missing(userId) then Reply(400, UserIdRequired)
    else
      match IntegerText(userId.value)
      case None => ServerFault
      case Some(id) =>
        match db.FindById(id)
        case None => Reply(404, UserNotFound)
        case Some(user) => Json(200, Body(None, Some(user), None))
  }

  /** Asking for the decimal id of a row returns that row's `{ id, email }`. */
  lemma ProfileOfListedId(db: UsersTable, email: string)
    requires db.Valid() && email in db.rows
    ensures
      var id := db.rows[email].id;
      id >= 1 && ProfileHandler(db, Some(Decimal(id))) == Json(200, Body(None, Some(Profile(id, email)), None))
  {
    var id := db.rows[email].id;
    DecimalRoundTrip(id);
    assert Decimal(id) != "";
  }
}
