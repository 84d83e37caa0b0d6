/** The `admin-login` request handler: one hard-coded credential pair,
    compared exactly, answered 200 with the administrator's identity, 401
    for anything else, and 500 when the body cannot be read. */
module AdminLogin {
  import opened Wrappers

  /** The identity the handler returns, and the value the login page
      keeps under `adminAuth`. */
  datatype Admin = Admin(id: string, username: string)

  const AdminUsername := "admin"
  const AdminPassword := "sansmedia2024"
  const TheAdmin := Admin("admin-1", AdminUsername)

  const InvalidCredentialsError := "Invalid credentials"
  const ServerError := "Server error"

  /** The destructured `username` and `password`: `None` when the property
      is missing or is not a string (no such value is `===` to a string).
      A body that is not JSON, or is JSON `null`, makes the destructuring
      throw and is `Unreadable`. */
  datatype Request = Unreadable | Credentials(username: Option<string>, password: Option<string>)

  /** `{success: true, admin}` or `{error}`; the failure body has no
      `success` property at all. */
  datatype LoginBody = Granted(admin: Admin) | Refused(error: string)

  datatype LoginReply = LoginReply(status: int, body: LoginBody)

  /** `username === 'admin' && password === 'sansmedia2024'`. */
  predicate ExactCredentials(username: Option<string>, password: Option<string>) {
    username == Some(AdminUsername) && password == Some(AdminPassword)
  }

  /** One POST to the handler. */
  function Login(req: Request): (r: LoginReply)
    ensures r.status in {200, 401, 500}
    ensures r.body.Granted? <==> r.status == 200
    ensures r.body.Granted? <==> req.Credentials? && ExactCredentials(req.username, req.password)
    ensures r.body.Granted? ==> r.body.admin == TheAdmin
    ensures r.status == 401 <==> req.Credentials? && !ExactCredentials(req.username, req.password)
    ensures r.status == 401 ==> r.body == Refused(InvalidCredentialsError)
    ensures r.status == 500 <==> req.Unreadable?
    ensures r.status == 500 ==> r.body == Refused(ServerError)
  {
    match req
    case Unreadable => LoginReply(500, Refused(ServerError))
    case Credentials(username, password) =>
      if ExactCredentials(username, password) then LoginReply(200, Granted(TheAdmin))
      else LoginReply(401, Refused(InvalidCredentialsError))
  }

  /** The comparison is exact: a username or password that differs from
      the stored one in any way, padding with spaces or letter case
      included, is refused with 401. */
  lemma OnlyExactMatchAccepted(username: string, password: string)
    requires username != AdminUsername || password != AdminPassword
    ensures Login(Credentials(Some(username), Some(password))) == LoginReply(401, Refused(InvalidCredentialsError))
  {
  }

  /** The concrete cases the exact comparison rules out: a padded
      username, an upper-case username, and a missing password. */
  lemma NearMissesRefused(padded: string, upper: string)
    requires padded == " admin" && upper == "ADMIN"
    ensures Login(Credentials(Some(padded), Some(AdminPassword))).status == 401
    ensures Login(Credentials(Some(upper), Some(AdminPassword))).status == 401
    ensures Login(Credentials(Some(AdminUsername), None)).status == 401
  {
    assert padded[0] != AdminUsername[0];
    assert upper[0] != AdminUsername[0];
  }
}
