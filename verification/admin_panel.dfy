/** The administrator panel: the `adminAuth` gate on mount, logout, the
    add-intern form (a presence check, then the issuance handler, then a
    reset and a reload), and how a load result becomes the displayed list,
    newest row first. */
module AdminPanel {
  import opened Wrappers
  import opened Records
  import opened AdminLogin
  import Text
  import AddIntern
  import AdminLoginPage

  /** Where the panel sends a visitor without `adminAuth`, spelled as the
      code spells it (it does not match the login route). */
  const NoAuthRedirect := "/admit"
  const HomePath := "/"

  /** What mounting the panel does: a navigation, or loading the list. */
  datatype MountEffect = Redirect(path: string) | LoadList

  /** The mount effect reads only the `adminAuth` entry. */
  function OnMount(storage: Option<Admin>): (e: MountEffect)
    ensures e.LoadList? <==> storage.Some?
    ensures e.Redirect? ==> e.path == NoAuthRedirect
  {
    if storage.None? then Redirect(NoAuthRedirect) else LoadList
  }

  /** What logout leaves: the `adminAuth` entry and the path navigated to. */
  datatype LogoutEffect = LogoutEffect(storage: Option<Admin>, navigate: string)

  /** Logout: the entry is removed and the browser goes home. */
  function Logout(storage: Option<Admin>): (r: LogoutEffect)
    ensures r.storage.None? && r.navigate == HomePath
    ensures OnMount(r.storage) == Redirect(NoAuthRedirect)
  {
    LogoutEffect(None, HomePath)
  }

  /** A row is placed before another when it was created later. */
  predicate NewestFirst(rows: seq<Intern>) {
    forall i, j :: 0 <= i < j < |rows| ==> rows[i].createdAt >= rows[j].createdAt
  }

  /** Places `row` in a newest-first list, after every row at least as new. */
  function InsertByAge(row: Intern, rows: seq<Intern>): (r: seq<Intern>)
    requires NewestFirst(rows)
    ensures NewestFirst(r)
    ensures multiset(r) == multiset(rows) + multiset{row}
    ensures r[0] == row || (rows != [] && r[0] == rows[0])
    decreases |rows|
  {
    if rows == [] || rows[0].createdAt <= row.createdAt then
      ConsNewestFirst(row, rows);
      [row] + rows
    else
      var rest := InsertByAge(row, rows[1..]);
      assert rows == [rows[0]] + rows[1..];
      ConsNewestFirst(rows[0], rest);
      [rows[0]] + rest
  }

  /** A row at least as new as the head of a newest-first list can go in
      front of it. */
  lemma ConsNewestFirst(x: Intern, rest: seq<Intern>)
    requires NewestFirst(rest) && (rest == [] || rest[0].createdAt <= x.createdAt)
    ensures NewestFirst([x] + rest)
  {
    var r := [x] + rest;
    forall i, j | 0 <= i < j < |r| ensures r[i].createdAt >= r[j].createdAt {
      if i == 0 {
        assert r[j] == rest[j - 1];
      } else {
        assert r[i] == rest[i - 1] && r[j] == rest[j - 1];
      }
    }
  }

  /** `.order('created_at', { ascending: false })`: the store's rows,
      newest first. */
  function SortNewestFirst(rows: seq<Intern>): (r: seq<Intern>)
    ensures NewestFirst(r)
    ensures multiset(r) == multiset(rows)
    decreases |rows|
  {
    if rows == [] then []
    else
      assert rows == [rows[0]] + rows[1..];
      InsertByAge(rows[0], SortNewestFirst(rows[1..]))
  }

  /** How the list query went. */
  datatype LoadResult = LoadFailed | Loaded(data: Option<seq<Intern>>)

  /** `setInterns(data || [])`, or nothing when the query failed. */
  function ApplyLoad(shown: seq<Intern>, result: LoadResult): (r: seq<Intern>)
    ensures result.LoadFailed? ==> r == shown
    ensures result == Loaded(None) ==> r == []
    ensures result.Loaded? && result.data.Some? ==> r == result.data.value
  {
    match result
    case LoadFailed => shown
    case Loaded(None) => []
    case Loaded(Some(rows)) => rows
  }

  /** A load against `store`: either it fails, or the store answers with its
      rows sorted newest first. */
  function LoadFrom(store: Store, fails: bool): (r: LoadResult)
    ensures r.Loaded? ==> r.data.Some? && NewestFirst(r.data.value)
    ensures r.Loaded? ==> multiset(r.data.value) == multiset(store)
    ensures r.LoadFailed? <==> fails
  {
    if fails then LoadFailed else Loaded(Some(SortNewestFirst(store)))
  }

  /** The request body the form sends: the five fields as typed. */
  function FormRequest(form: InternForm): (req: AddIntern.Request)
    ensures req.Body? && req.fields.fullName == Some(form.fullName) && req.fields.email == Some(form.email)
    ensures req.fields.role == Some(form.role)
    ensures req.fields.startDate == Some(form.startDate) && req.fields.endDate == Some(form.endDate)
  {
    AddIntern.Body(AddIntern.Fields(Some(form.fullName), Some(form.email), Some(form.role),
                                    Some(form.startDate), Some(form.endDate)))
  }

  /** The toast the submit leaves on screen. */
  datatype Toast = FillAllFieldsToast | AddedToast(certificateId: string, verificationCode: string) | AddFailedToast

  /** The panel after one submit of the add form: the request sent (if
      any), the store, the form, the displayed list, the toast. */
  datatype AddOutcome = AddOutcome(sent: Option<AddIntern.Request>, store: Store, form: InternForm,
                                   shown: seq<Intern>, toast: Toast)

  /** `handleAddIntern`. The issuance handler runs against `store` with the
      given code-generator, duplicate-query and insert outcomes; `transportFails` says the
      call threw before reaching it; `loadFails` whether the reload after a
      success fails. A non-200 reply comes back as the client's `error`. */
  function SubmitAdd(form: InternForm, shown: seq<Intern>, store: Store,
                     parse: string -> Option<int>, cert: AddIntern.CodeResult, verify: AddIntern.CodeResult,
                     lookup: AddIntern.LookupResult, insert: AddIntern.InsertResult, transportFails: bool, loadFails: bool): (r: AddOutcome)
    ensures r.sent.None? <==> !FormComplete(form)
    ensures r.sent.Some? ==> r.sent.value == FormRequest(form)
    ensures r.toast.AddedToast? <==>
              r.sent.Some? && !transportFails
              && AddIntern.Handle(FormRequest(form), store, parse, cert, verify, lookup, insert).reply.status == 200
    ensures r.toast.AddedToast? ==> r.form == EmptyForm
    ensures r.toast.AddedToast? ==> r.store == AddIntern.Handle(FormRequest(form), store, parse, cert, verify, lookup, insert).store
    ensures r.toast.AddedToast? ==> r.shown == ApplyLoad(shown, LoadFrom(r.store, loadFails))
    ensures !r.toast.AddedToast? ==> r.form == form && r.shown == shown && r.store == store
  {
    if !FormComplete(form) then AddOutcome(None, store, form, shown, FillAllFieldsToast)
    else if transportFails then AddOutcome(Some(FormRequest(form)), store, form, shown, AddFailedToast)
    else
      var out := AddIntern.Handle(FormRequest(form), store, parse, cert, verify, lookup, insert);
      if out.reply.status != 200 then AddOutcome(Some(FormRequest(form)), store, form, shown, AddFailedToast)
      else
        var row := out.reply.body.intern;
        AddOutcome(Some(FormRequest(form)), out.store, EmptyForm,
                   ApplyLoad(shown, LoadFrom(out.store, loadFails)),
                   AddedToast(row.certificateId, row.verificationCode))
  }

  /** After a successful add whose reload goes through, the new row is in
      the displayed list, and the list is exactly the store, newest first. */
  lemma AddedRowShown(form: InternForm, shown: seq<Intern>, store: Store,
                      parse: string -> Option<int>, cert: AddIntern.CodeResult, verify: AddIntern.CodeResult,
                      lookup: AddIntern.LookupResult, insert: AddIntern.InsertResult)
    requires SubmitAdd(form, shown, store, parse, cert, verify, lookup, insert, false, false).toast.AddedToast?
    ensures var r := SubmitAdd(form, shown, store, parse, cert, verify, lookup, insert, false, false);
            var row := AddIntern.Handle(FormRequest(form), store, parse, cert, verify, lookup, insert).reply.body.intern;
            && NewestFirst(r.shown)
            && multiset(r.shown) == multiset(store) + multiset{row}
            && row in r.shown
  {
    var r := SubmitAdd(form, shown, store, parse, cert, verify, lookup, insert, false, false);
    var out := AddIntern.Handle(FormRequest(form), store, parse, cert, verify, lookup, insert);
    var row := out.reply.body.intern;
    assert r.store == out.store && out.store == store + [row];
    var lr := LoadFrom(r.store, false);
    assert r.shown == lr.data.value;
    assert multiset(r.shown) == multiset(store + [row]);
    assert multiset(store + [row]) == multiset(store) + multiset{row};
    assert row in multiset(r.shown);
  }

  /** The panel's presence check does not trim, but the handler's does: a
      name of only spaces is sent, refused with 400, and the form keeps
      what was typed. */
  lemma SpacesOnlyNameKeptInForm(form: InternForm, shown: seq<Intern>, store: Store,
                                 parse: string -> Option<int>, cert: AddIntern.CodeResult, verify: AddIntern.CodeResult,
                                 lookup: AddIntern.LookupResult, insert: AddIntern.InsertResult)
    requires FormComplete(form) && form.fullName == " "
    ensures var r := SubmitAdd(form, shown, store, parse, cert, verify, lookup, insert, false, false);
            r.sent.Some? && r.toast == AddFailedToast && r.form == form && r.store == store
  {
    assert AddIntern.MissingField(FormRequest(form).fields) by {
      Text.BlankIffAllSpace(form.fullName);
    }
    AddIntern.MissingFieldRejected(FormRequest(form).fields, store, parse, cert, verify, lookup, insert);
  }

  /** A page event that bears on the `adminAuth` flag: a submit of the
      login page, with whether its call threw, or a logout. */
  datatype SessionEvent = LoginSubmitted(form: AdminLoginPage.LoginForm, transportFails: bool) | LoggedOut

  /** A submit the login page turns into a stored administrator: the exact
      credentials, and a call that went through. */
  predicate Granted(e: SessionEvent) {
    e.LoginSubmitted? && e.form.username == AdminUsername && e.form.password == AdminPassword
    && !e.transportFails
  }

  /** An event that sets or clears the flag. */
  predicate Decisive(e: SessionEvent) {
    e.LoggedOut? || Granted(e)
  }

  /** The flag after one event, as the login page's submit handler or the
      panel's logout leaves it: a granted login stores the administrator,
      a logout clears the entry, and any other submit leaves it alone. */
  function SessionStep(storage: Option<Admin>, e: SessionEvent): (r: Option<Admin>)
    ensures Granted(e) ==> r == Some(TheAdmin)
    ensures e.LoggedOut? ==> r.None?
    ensures !Decisive(e) ==> r == storage
  {
    match e
    case LoginSubmitted(f, transportFails) =>
      AdminLoginPage.LoginFlow(f, storage, transportFails);
      AdminLoginPage.HandleLogin(f, storage, transportFails).storage
    case LoggedOut => Logout(storage).storage
  }

  /** The flag over a sequence of page events. */
  function Session(storage: Option<Admin>, events: seq<SessionEvent>): (r: Option<Admin>)
    decreases |events|
  {
    if events == [] then storage
    else Session(SessionStep(storage, events[0]), events[1..])
  }

  /** The panel loads its list after a run of events exactly when the last
      granted login or logout in it was a login (or, with neither, when the
      flag was already set). */
  lemma {:induction false} PanelOpensAfterLastLogin(storage: Option<Admin>, events: seq<SessionEvent>)
    ensures OnMount(Session(storage, events)).LoadList? <==>
              if exists k :: 0 <= k < |events| && Decisive(events[k]) then
                var k := LastDecisive(events); Granted(events[k])
              else storage.Some?
    decreases |events|
  {
    if events != [] {
      var next := SessionStep(storage, events[0]);
      PanelOpensAfterLastLogin(next, events[1..]);
      var rest := events[1..];
      if exists k :: 0 <= k < |rest| && Decisive(rest[k]) {
        var k := LastDecisive(rest);
        assert events[k + 1] == rest[k];
        assert LastDecisive(events) == k + 1 by { LastDecisiveCons(events); }
      } else {
        if Decisive(events[0]) {
          assert LastDecisive(events) == 0 by { LastDecisiveCons(events); }
        } else {
          forall k | 0 <= k < |events| ensures !Decisive(events[k]) {
            if k > 0 { assert events[k] == rest[k - 1]; }
          }
        }
      }
    }
  }

  /** The position of the last login or logout. */
  function LastDecisive(events: seq<SessionEvent>): (k: int)
    requires exists k :: 0 <= k < |events| && Decisive(events[k])
    ensures 0 <= k < |events| && Decisive(events[k])
    ensures forall j :: k < j < |events| ==> !Decisive(events[j])
    decreases |events|
  {
    var last := |events| - 1;
    if Decisive(events[last]) then last
    else
      var init := events[..last];
      assert exists k :: 0 <= k < |init| && Decisive(init[k]) by {
        var k :| 0 <= k < |events| && Decisive(events[k]);
        assert k < last && init[k] == events[k];
      }
      var k := LastDecisive(init);
      assert init[k] == events[k];
      k
  }

  /** The last decisive event of a non-empty run, seen from its head: it is
      in the tail when the tail has one, and is the head otherwise. */
  lemma LastDecisiveCons(events: seq<SessionEvent>)
    requires events != [] && exists k :: 0 <= k < |events| && Decisive(events[k])
    ensures var rest := events[1..];
            if exists k :: 0 <= k < |rest| && Decisive(rest[k]) then
              LastDecisive(events) == LastDecisive(rest) + 1
            else LastDecisive(events) == 0
  {
    var rest := events[1..];
    if exists j :: 0 <= j < |rest| && Decisive(rest[j]) {
      var m := LastDecisive(rest);
      assert events[m + 1] == rest[m];
    }
  }
}
