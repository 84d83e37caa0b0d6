/** The administrator's intern table: the status badge (text and colour
    classes), the per-row status menu, the two-step delete confirmation and
    the share link. The table only fires callbacks; what the parent does
    with them is not part of this component. */
module InternTable {
  import opened Wrappers
  import opened Records
  import opened Naming

  /** The three statuses the menu offers. */
  datatype Status = Active | Completed | Revoked

  function StatusName(st: Status): string {
    match st
    case Active => "Active"
    case Completed => "Completed"
    case Revoked => "Revoked"
  }

  /** Reads a stored status back; anything other than the three names is
      `None`. */
  function ParseStatus(s: string): (r: Option<Status>)
    ensures r.Some? ==> StatusName(r.value) == s
    ensures r.None? ==> forall st: Status :: StatusName(st) != s
  {
    if s == "Active" then Some(Active)
    else if s == "Completed" then Some(Completed)
    else if s == "Revoked" then Some(Revoked)
    else None
  }

  /** Every status survives being written out and read back. */
  lemma StatusRoundTrip(st: Status)
    ensures ParseStatus(StatusName(st)) == Some(st)
  {
  }

  /** `intern.status || 'Active'`: a missing or empty status reads as
      `Active`. */
  function DisplayedStatus(status: Option<string>): (r: string)
    ensures status.None? || status.value == "" ==> r == StatusName(Active)
    ensures status.Some? && status.value != "" ==> r == status.value
  {
    if status.None? || status.value == "" then "Active" else status.value
  }

  const ActiveColor := "bg-green-100 text-green-800"
  const CompletedColor := "bg-blue-100 text-blue-800"
  const RevokedColor := "bg-red-100 text-red-800"
  const OtherColor := "bg-gray-100 text-gray-800"

  /** `getStatusColor`: green, blue and red for the three statuses, gray
      for any other text. */
  function StatusColor(s: string): (c: string)
    ensures ParseStatus(s) == Some(Active) <==> c == ActiveColor
    ensures ParseStatus(s) == Some(Completed) <==> c == CompletedColor
    ensures ParseStatus(s) == Some(Revoked) <==> c == RevokedColor
    ensures ParseStatus(s).None? <==> c == OtherColor
  {
    match ParseStatus(s)
    case Some(Active) => ActiveColor
    case Some(Completed) => CompletedColor
    case Some(Revoked) => RevokedColor
    case None => OtherColor
  }

  /** The badge of a row whose status is missing is the green `Active`
      badge, not the gray one. */
  lemma MissingStatusShownActive(row: Intern)
    requires row.status.None? || row.status == Some("")
    ensures DisplayedStatus(row.status) == "Active"
    ensures StatusColor(DisplayedStatus(row.status)) == ActiveColor
  {
    StatusRoundTrip(Active);
  }

  /** A status change the menu asks the parent for. */
  datatype StatusChange = StatusChange(id: string, status: Status)

  /** The row's status menu, one entry per item, in display order. */
  function StatusMenu(row: Intern): (m: seq<StatusChange>)
    ensures |m| == 3
    ensures forall k :: 0 <= k < |m| ==> m[k].id == row.id
  {
    [StatusChange(row.id, Active), StatusChange(row.id, Completed), StatusChange(row.id, Revoked)]
  }

  /** The menu offers every status, each for the row it belongs to. */
  lemma MenuOffersEveryStatus(row: Intern, st: Status)
    ensures StatusChange(row.id, st) in StatusMenu(row)
  {
    var m := StatusMenu(row);
    match st
    case Active => assert m[0] == StatusChange(row.id, st);
    case Completed => assert m[1] == StatusChange(row.id, st);
    case Revoked => assert m[2] == StatusChange(row.id, st);
  }

  /** Whatever item is picked, the status written out is one of the three
      names. */
  lemma MenuEmitsKnownStatus(row: Intern, k: int)
    requires 0 <= k < 3
    ensures ParseStatus(StatusName(StatusMenu(row)[k].status)).Some?
  {
    StatusRoundTrip(StatusMenu(row)[k].status);
  }

  /** The delete confirmation: the id awaiting confirmation, if any. */
  datatype DeleteEvent = AskDelete(id: string) | Confirm | Dismiss

  /** `!!deleteId`: the dialog shows only for a non-empty pending id. */
  predicate DialogOpen(pending: Option<string>) {
    pending.Some? && pending.value != ""
  }

  /** What one event leaves: the pending id after it, and the id handed
      to `onDelete`, if any. */
  datatype DeleteEffect = DeleteEffect(pending: Option<string>, deleted: Option<string>)

  /** One event. "Delete Record" only records the id; confirming hands a
      non-empty pending id over and clears it; closing or cancelling clears
      it. */
  function DeleteStep(pending: Option<string>, e: DeleteEvent): (r: DeleteEffect)
    ensures e.AskDelete? ==> r == DeleteEffect(Some(e.id), None)
    ensures e.Dismiss? ==> r == DeleteEffect(None, None)
    ensures r.deleted.Some? <==> e.Confirm? && DialogOpen(pending)
    ensures r.deleted.Some? ==> r.deleted == pending && r.pending.None?
  {
    match e
    case AskDelete(id) => DeleteEffect(Some(id), None)
    case Dismiss => DeleteEffect(None, None)
    case Confirm => if DialogOpen(pending) then DeleteEffect(None, pending) else DeleteEffect(pending, None)
  }

  /** The ids handed to `onDelete` over a sequence of events, starting from
      `pending`. */
  function RunDeletes(pending: Option<string>, events: seq<DeleteEvent>): (deleted: seq<string>)
    ensures |deleted| <= |events|
    decreases |events|
  {
    if events == [] then []
    else
      var DeleteEffect(next, out) := DeleteStep(pending, events[0]);
      (if out.Some? then [out.value] else []) + RunDeletes(next, events[1..])
  }

  /** Every id ever handed to `onDelete` is non-empty and was asked for
      earlier: either it was already pending, or some `AskDelete` before
      the confirmation named it. */
  lemma {:induction false} DeletesWereRequested(pending: Option<string>, events: seq<DeleteEvent>)
    ensures forall d :: d in RunDeletes(pending, events) ==>
              d != "" && (pending == Some(d) || AskDelete(d) in events)
    decreases |events|
  {
    if events != [] {
      var DeleteEffect(next, out) := DeleteStep(pending, events[0]);
      DeletesWereRequested(next, events[1..]);
      assert forall e :: e in events[1..] ==> e in events;
    }
  }

  /** Confirming twice deletes once: the first confirmation clears the
      pending id. */
  lemma ConfirmOnce(id: string)
    requires id != ""
    ensures RunDeletes(None, [AskDelete(id), Confirm, Confirm]) == [id]
  {
    var events := [AskDelete(id), Confirm, Confirm];
    assert events[1..] == [Confirm, Confirm];
    assert events[1..][1..] == [Confirm];
    assert RunDeletes(None, [Confirm]) == [];
    assert RunDeletes(Some(id), [Confirm, Confirm]) == [id];
  }

  /** The share link of a row: the verification link of its verification
      code. */
  function ShareUrl(origin: string, row: Intern): (u: string)
    ensures |u| >= |origin| && u[..|origin|] == origin
    ensures Segment(row.verificationCode) ==>
              RouteCode(u[|origin|..]) == Some(row.verificationCode)
  {
    var u := VerificationUrl(origin, row.verificationCode);
    if Segment(row.verificationCode) then
      VerificationUrlRoundTrip(origin, row.verificationCode, row.verificationCode);
      u
    else u
  }

  /** The table renders its empty state exactly when the list is empty,
      and otherwise one row per intern. */
  datatype TableView = EmptyState | Rows(rows: seq<Intern>)

  function Render(interns: seq<Intern>): (v: TableView)
    ensures v.EmptyState? <==> interns == []
    ensures v.Rows? ==> v.rows == interns
  {
    if |interns| == 0 then EmptyState else Rows(interns)
  }
}
