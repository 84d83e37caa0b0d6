/** The administrator login page: a blank check after trimming, a request
    carrying the fields untrimmed, and on success the `adminAuth` entry of
    local storage and a move to the panel. */
module AdminLoginPage {
  import opened Wrappers
  import opened Text
  import opened AdminLogin

  /** The toast the handler leaves on screen, if any. */
  datatype Toast = NoToast | EnterBothToast | LoginFailedToast | SomethingWrongToast | WelcomeToast

  datatype LoginForm = LoginForm(username: string, password: string)

  /** What one submit does: the credentials sent (if a request was made),
      the `adminAuth` entry afterwards, the path navigated to (if any), the
      toast, and the loading flag. */
  datatype LoginOutcome = LoginOutcome(sent: Option<LoginForm>, storage: Option<Admin>,
                                       navigate: Option<string>, toast: Toast, loading: bool)

  const PanelPath := "/admin"

  /** The request the page makes: both fields as typed. */
  function LoginRequest(f: LoginForm): Request {
    Credentials(Some(f.username), Some(f.password))
  }

  /** The page's submit handler. `storage` is the `adminAuth` entry before
      the submit; `transportFails` says whether the function call threw
      before any reply arrived. A reply with a non-2xx status comes back as
      the client's `error`. */
  function HandleLogin(f: LoginForm, storage: Option<Admin>, transportFails: bool): (r: LoginOutcome)
    ensures !r.loading
    ensures r.sent.None? <==> IsBlank(f.username) || IsBlank(f.password)
    ensures r.sent.Some? ==> r.sent.value == f
    ensures r.navigate.Some? <==> r.sent.Some? && !transportFails && Login(LoginRequest(f)).body.Granted?
    ensures r.navigate.Some? ==> r.navigate.value == PanelPath && r.storage == Some(TheAdmin)
    ensures r.navigate.None? ==> r.storage == storage
  {
    if IsBlank(f.username) || IsBlank(f.password) then
      LoginOutcome(None, storage, None, EnterBothToast, false)
    else if transportFails then
      LoginOutcome(Some(f), storage, None, SomethingWrongToast, false)
    else
      var reply := Login(LoginRequest(f));
      if reply.status != 200 || !reply.body.Granted? then
        LoginOutcome(Some(f), storage, None, LoginFailedToast, false)
      else
        LoginOutcome(Some(f), Some(reply.body.admin), Some(PanelPath), WelcomeToast, false)
  }

  /** Page and handler together: the page reaches the panel, with the
      administrator stored, exactly when the typed fields are the stored
      credentials character for character and the call goes through. */
  lemma LoginFlow(f: LoginForm, storage: Option<Admin>, transportFails: bool)
    ensures var r := HandleLogin(f, storage, transportFails);
            r.navigate == Some(PanelPath) <==>
              f.username == AdminUsername && f.password == AdminPassword && !transportFails
  {
    if f.username == AdminUsername && f.password == AdminPassword {
      assert !IsBlank(f.username) by { NotBlankAt(f.username, 0); }
      assert !IsBlank(f.password) by { NotBlankAt(f.password, 0); }
    }
  }

  /** The page does not trim what it sends: a username typed with a
      leading space passes the blank check but the handler refuses it, so
      nothing is stored and the page stays. */
  lemma PaddedUsernameRefused(f: LoginForm, storage: Option<Admin>)
    requires f.username == " admin" && f.password == AdminPassword
    ensures var r := HandleLogin(f, storage, false);
            r.sent == Some(f) && r.navigate.None? && r.storage == storage
  {
    assert !IsBlank(f.username) by { NotBlankAt(f.username, 1); }
    assert !IsBlank(f.password) by { NotBlankAt(f.password, 0); }
    assert f.username != AdminUsername by {
      assert f.username[0] != AdminUsername[0];
    }
  }
}
