/** The edit dialog: its form starts from the row's five editable fields;
    submitting refuses a form with an empty field and otherwise overwrites
    exactly those five fields of the row with the same id. Nothing else is
    checked: no trimming, no e-mail format, no date order, no uniqueness. */
module EditInternDialog {
  import opened Wrappers
  import opened Records
  import AddIntern
  import EmailFormat

  /** The form the dialog opens with. */
  function InitEditForm(row: Intern): (f: InternForm)
    ensures Overwrite(row, f) == row
  {
    InternForm(row.fullName, row.email, row.role, row.startDate, row.endDate)
  }

  /** Opening the dialog on an edited row shows exactly the form that was
      saved. */
  lemma EditRoundTrip(row: Intern, f: InternForm)
    ensures InitEditForm(Overwrite(row, f)) == f
  {
  }

  /** The update's effect on one row: the five form fields are written,
      every other column is kept. */
  function Overwrite(row: Intern, f: InternForm): (r: Intern)
    ensures r.fullName == f.fullName && r.email == f.email && r.role == f.role
    ensures r.startDate == f.startDate && r.endDate == f.endDate
    ensures r.id == row.id && r.certificateId == row.certificateId
    ensures r.verificationCode == row.verificationCode
    ensures r.status == row.status && r.createdAt == row.createdAt
  {
    row.(fullName := f.fullName, email := f.email, role := f.role,
         startDate := f.startDate, endDate := f.endDate)
  }

  /** `update(...).eq('id', id)`: every row with that id is overwritten,
      every other row is left as it was. */
  function UpdateById(store: Store, id: string, f: InternForm): (r: Store)
    ensures |r| == |store|
    ensures forall k :: 0 <= k < |store| ==>
              r[k] == if store[k].id == id then Overwrite(store[k], f) else store[k]
  {
    if store == [] then []
    else
      var head := if store[0].id == id then Overwrite(store[0], f) else store[0];
      [head] + UpdateById(store[1..], id, f)
  }

  /** The callbacks the dialog fires, in order. */
  datatype Event = Updated | Closed

  /** The toast left on screen after a submit. */
  datatype Toast = NoToast | FillAllFieldsToast | UpdatedToast | UpdateFailedToast

  /** The result of one submit: whether an update was sent, the store
      after it, the callbacks fired, the toast, and the dialog's `open` and
      `loading` flags. */
  datatype EditResult = EditResult(sent: bool, store: Store, events: seq<Event>, toast: Toast,
                                   open: bool, loading: bool)

  /** The submit handler for the dialog opened on `row`. `updateFails`
      says whether the store answered the update with an error (or the
      call threw); a failed update changes nothing. */
  function SubmitEdit(row: Intern, f: InternForm, store: Store, updateFails: bool): (r: EditResult)
    ensures !r.loading
    ensures r.sent <==> FormComplete(f)
    ensures !r.sent ==> r.store == store && r.events == [] && r.open && r.toast == FillAllFieldsToast
    ensures r.sent && updateFails ==> r.store == store && r.events == [] && r.open && r.toast == UpdateFailedToast
    ensures r.sent && !updateFails ==> r.store == UpdateById(store, row.id, f)
    ensures r.sent && !updateFails ==> r.events == [Updated, Closed] && !r.open && r.toast == UpdatedToast
  {
    if !FormComplete(f) then EditResult(false, store, [], FillAllFieldsToast, true, false)
    else if updateFails then EditResult(true, store, [], UpdateFailedToast, true, false)
    else EditResult(true, UpdateById(store, row.id, f), [Updated, Closed], UpdatedToast, false, false)
  }

  /** Saving the form as opened changes nothing in the store. */
  lemma UnchangedFormIsNoOp(row: Intern, store: Store)
    requires FormComplete(InitEditForm(row))
    requires forall k :: 0 <= k < |store| && store[k].id == row.id ==> store[k] == row
    ensures SubmitEdit(row, InitEditForm(row), store, false).store == store
  {
    var r := UpdateById(store, row.id, InitEditForm(row));
    assert forall k :: 0 <= k < |store| ==> r[k] == store[k];
  }

  /** Editing twice keeps only the second edit. */
  lemma {:induction false} UpdateLastWins(store: Store, id: string, f: InternForm, g: InternForm)
    ensures UpdateById(UpdateById(store, id, f), id, g) == UpdateById(store, id, g)
  {
    var once, twice, direct := UpdateById(store, id, f), UpdateById(UpdateById(store, id, f), id, g), UpdateById(store, id, g);
    forall k | 0 <= k < |store| ensures twice[k] == direct[k] {
      if store[k].id == id {
        assert once[k] == Overwrite(store[k], f);
      }
    }
  }

  /** The dialog does not re-check uniqueness: editing one row's e-mail to
      another row's turns a store with unique e-mails into one without. */
  lemma EditCanDuplicateEmail(a: Intern, b: Intern, f: InternForm)
    requires a.id != b.id && a.email != b.email
    requires FormComplete(f) && f.email == b.email
    ensures UniqueEmails([a, b])
    ensures !UniqueEmails(SubmitEdit(a, f, [a, b], false).store)
  {
    var after := SubmitEdit(a, f, [a, b], false).store;
    assert after[0].email == b.email && after[1] == b;
  }

  /** Issuance cannot see a duplicate made this way: with two rows on one
      address, `.single()` errs in the duplicate test, so a further request
      for that address that passes the other steps is accepted and adds a
      third row holding it. */
  lemma EditThenIssueAdmitsDuplicate(a: Intern, b: Intern, form: InternForm, f: AddIntern.Fields,
                                     parse: string -> Option<int>, cert: AddIntern.CodeResult,
                                     verify: AddIntern.CodeResult, insert: AddIntern.InsertResult)
    requires a.id != b.id && a.email != b.email
    requires FormComplete(form) && form.email == b.email
    requires !AddIntern.MissingField(f) && AddIntern.TrimmedEmail(f) == b.email
    requires EmailFormat.EmailAccepted(b.email)
    requires !AddIntern.StartNotBeforeEnd(parse(f.startDate.value), parse(f.endDate.value))
    requires cert.Generated? && verify.Generated? && insert.Inserted?
    ensures var edited := SubmitEdit(a, form, [a, b], false).store;
            var out := AddIntern.Handle(AddIntern.Body(f), edited, parse, cert, verify,
                                        AddIntern.LookupAnswered, insert);
            out.reply.status == 200 && |out.store| == 3
            && out.store[0].email == out.store[1].email == out.store[2].email == b.email
  {
    var edited := SubmitEdit(a, form, [a, b], false).store;
    assert edited[0].email == b.email && edited[1] == b;
    DuplicatedEmailCount(edited, 0, 1);
    AddIntern.SeveralRowsAdmitDuplicate(f, edited, parse, cert, verify, insert);
  }

  /** A blank name or an unparsable date passes the dialog's check: only
      the empty string is refused. */
  lemma BlankValuesAccepted(row: Intern, f: InternForm)
    requires f.fullName == " " && f.startDate == "not a date"
    requires f.email != "" && f.role != "" && f.endDate != ""
    ensures SubmitEdit(row, f, [row], false).sent
  {
  }
}
