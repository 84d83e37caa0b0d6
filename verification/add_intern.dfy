/** The `add-intern` request handler: validates an issuance request in a
    fixed order (presence, e-mail format, date order, code generation,
    duplicate e-mail, insert), answers 400/409/500 on the first failing
    step without touching the store, and otherwise adds exactly one row
    and answers 200 with it. The record store, the code generator and date
    parsing are parameters. */
module AddIntern {
  import opened Wrappers
  import opened Text
  import opened EmailFormat
  import opened Records

  /** The five request properties; a property missing from the JSON body
      is `None`. */
  datatype Fields = Fields(
    fullName: Option<string>,
    email: Option<string>,
    role: Option<string>,
    startDate: Option<string>,
    endDate: Option<string>)

  /** A request whose body cannot be read as JSON is `Unreadable`. */
  datatype Request = Unreadable | Body(fields: Fields)

  /** One call of the store's `generate_unique_code` procedure. */
  datatype CodeResult = Generated(code: string) | GenerationFailed

  /** The duplicate test's query `.eq('email', …).single()`: it either
      reached the store, or failed on the way (a network or server error).
      Only the query's data is read, so a failure reads as "no row". */
  datatype LookupResult = LookupAnswered | LookupFailed

  /** The store's answer to the insert: the id and creation time it
      assigned to the new row, or its error message. */
  datatype InsertResult = Inserted(id: string, createdAt: int) | InsertFailed(message: string) {
    /** The store's error message; empty when the insert succeeded. */
    function Message(): string {
      if InsertFailed? then message else ""
    }
  }

  /** The JSON body: `{success: false, error}` or `{success: true, intern}`. */
  datatype ReplyBody = Failure(error: string) | Success(intern: Intern)

  datatype Reply = Reply(status: int, body: ReplyBody)

  /** The reply together with the store as the request leaves it. */
  datatype Outcome = Outcome(reply: Reply, store: Store)

  const MissingFieldsError := "All fields are required"
  const EmailFormatError := "Invalid email format"
  const DateOrderError := "End date must be after start date"
  const CodeGenerationError := "Failed to generate unique codes"
  const DuplicateEmailError := "An intern with this email already exists"
  const InternalError := "Internal server error"
  const InsertErrorPrefix := "Failed to add intern: "
  const InitialStatus := "Active"

  /** `!x?.trim()`: missing, or nothing but white space. */
  predicate BlankField(x: Option<string>) {
    x.None? || IsBlank(x.value)
  }

  /** `!x`: missing, or the empty string. */
  predicate FalsyField(x: Option<string>) {
    x.None? || x.value == ""
  }

  predicate MissingField(f: Fields) {
    BlankField(f.fullName) || BlankField(f.email) || BlankField(f.role)
    || FalsyField(f.startDate) || FalsyField(f.endDate)
  }

  /** `new Date(a) >= new Date(b)`: an unparsable date is NaN, and every
      comparison with NaN is false. */
  predicate StartNotBeforeEnd(start: Option<int>, end: Option<int>) {
    start.Some? && end.Some? && start.value >= end.value
  }

  /** The trimmed e-mail the format test and the duplicate test look at. */
  function TrimmedEmail(f: Fields): string {
    Trim(f.email.GetOr(""))
  }

  /** `existingIntern` is set: the query answered and exactly one row
      holds the e-mail. No row, several rows (`.single()` then errs) and a
      failed query all leave it null. */
  predicate DuplicateFound(store: Store, email: string, lookup: LookupResult) {
    lookup.LookupAnswered? && EmailCount(store, email) == 1
  }

  function Reject(status: int, error: string, store: Store): Outcome {
    Outcome(Reply(status, Failure(error)), store)
  }

  /** The three checks on the request alone (presence, e-mail format,
      date order), in that order: the 400 reply of the first that fails,
      or `None` when all pass. */
  function Validate(f: Fields, parse: string -> Option<int>): (r: Option<Reply>)
    ensures r.None? <==> !MissingField(f) && EmailAccepted(TrimmedEmail(f))
                         && !StartNotBeforeEnd(parse(f.startDate.value), parse(f.endDate.value))
    ensures r.Some? ==> r.value.status == 400 && r.value.body.Failure?
  {
    if MissingField(f) then Some(Reply(400, Failure(MissingFieldsError)))
    else if !EmailAccepted(TrimmedEmail(f)) then Some(Reply(400, Failure(EmailFormatError)))
    else if StartNotBeforeEnd(parse(f.startDate.value), parse(f.endDate.value)) then
      Some(Reply(400, Failure(DateOrderError)))
    else None
  }

  /** The row an accepted request adds: trimmed name, e-mail and role, the
      dates as sent, the two generated codes, status `Active`, and what the
      store assigned. */
  function NewRow(f: Fields, certificateId: string, verificationCode: string,
                  id: string, createdAt: int): (row: Intern)
    requires !MissingField(f)
    ensures row.fullName == Trim(f.fullName.value) && row.role == Trim(f.role.value)
    ensures row.email == TrimmedEmail(f) && row.status == Some(InitialStatus)
    ensures row.startDate == f.startDate.value && row.endDate == f.endDate.value
    ensures row.certificateId == certificateId && row.verificationCode == verificationCode
  {
    Intern(id, Trim(f.fullName.value), TrimmedEmail(f), Trim(f.role.value),
           f.startDate.value, f.endDate.value, certificateId, verificationCode,
           Some(InitialStatus), createdAt)
  }

  /** The steps that involve the store, for a request that passed
      validation: code generation, the duplicate test, the insert. */
  function Issue(f: Fields, store: Store, cert: CodeResult, verify: CodeResult,
                 lookup: LookupResult, insert: InsertResult): (out: Outcome)
    requires !MissingField(f)
    ensures out.reply.status in {200, 409, 500}
    ensures out.reply.status == 200 <==> out.reply.body.Success?
    ensures out.reply.status != 200 ==> out.store == store
    ensures out.reply.status == 200 ==>
              && cert.Generated? && verify.Generated? && insert.Inserted?
              && !DuplicateFound(store, TrimmedEmail(f), lookup)
              && out.reply.body.intern == NewRow(f, cert.code, verify.code, insert.id, insert.createdAt)
              && out.store == store + [out.reply.body.intern]
  {
    if cert.GenerationFailed? || verify.GenerationFailed? then
      Reject(500, CodeGenerationError, store)
    else if DuplicateFound(store, TrimmedEmail(f), lookup) then Reject(409, DuplicateEmailError, store)
    else
      match insert
      case InsertFailed(message) => Reject(500, InsertErrorPrefix + message, store)
      case Inserted(id, createdAt) =>
        var row := NewRow(f, cert.code, verify.code, id, createdAt);
        Outcome(Reply(200, Success(row)), store + [row])
  }

  /** One issuance request against the store. `parse` is `new Date(...)`
      read as a timestamp (`None` for an invalid date); `cert` and `verify`
      are the two code-generator calls, in that order; `lookup` is how the
      duplicate-e-mail query went; `insert` is the store's answer to the
      insert. */
  function Handle(req: Request, store: Store, parse: string -> Option<int>,
                  cert: CodeResult, verify: CodeResult, lookup: LookupResult, insert: InsertResult): (out: Outcome)
    ensures out.reply.status in {200, 400, 409, 500}
    ensures out.reply.status == 200 <==> out.reply.body.Success?
    ensures out.reply.status != 200 ==> out.store == store
    ensures out.reply.status == 200 ==> out.store == store + [out.reply.body.intern]
    ensures out.reply.status == 200 ==> !DuplicateFound(store, out.reply.body.intern.email, lookup)
  {
    match req
    case Unreadable => Reject(500, InternalError, store)
    case Body(f) =>
      match Validate(f, parse)
      case Some(reply) => Outcome(reply, store)
      case None => Issue(f, store, cert, verify, lookup, insert)
  }

  /** Step 1: a missing or blank name, e-mail or role, or a missing or
      empty date, is answered 400 whatever else holds. */
  lemma MissingFieldRejected(f: Fields, store: Store, parse: string -> Option<int>,
                             cert: CodeResult, verify: CodeResult, lookup: LookupResult, insert: InsertResult)
    requires MissingField(f)
    ensures Handle(Body(f), store, parse, cert, verify, lookup, insert)
            == Outcome(Reply(400, Failure(MissingFieldsError)), store)
  {
  }

  /** Step 2: a complete request whose trimmed e-mail the pattern rejects
      is answered 400. */
  lemma MalformedEmailRejected(f: Fields, store: Store, parse: string -> Option<int>,
                               cert: CodeResult, verify: CodeResult, lookup: LookupResult, insert: InsertResult)
    requires !MissingField(f)
    requires !MatchesPattern(TrimmedEmail(f))
    ensures Handle(Body(f), store, parse, cert, verify, lookup, insert)
            == Outcome(Reply(400, Failure(EmailFormatError)), store)
  {
    EmailCheckIff(TrimmedEmail(f));
  }

  /** Step 3: the date test rejects exactly when both dates parse and the
      start is not before the end. */
  lemma DateOrderRejected(f: Fields, store: Store, parse: string -> Option<int>,
                          cert: CodeResult, verify: CodeResult, lookup: LookupResult, insert: InsertResult)
    requires !MissingField(f) && EmailAccepted(TrimmedEmail(f))
    requires StartNotBeforeEnd(parse(f.startDate.value), parse(f.endDate.value))
    ensures Handle(Body(f), store, parse, cert, verify, lookup, insert)
            == Outcome(Reply(400, Failure(DateOrderError)), store)
  {
  }

  /** Step 4: a failed code-generator call is answered 500 even when the
      e-mail is already taken, since generation runs before the duplicate
      test. */
  lemma CodeFailureRejected(f: Fields, store: Store, parse: string -> Option<int>,
                            cert: CodeResult, verify: CodeResult, lookup: LookupResult, insert: InsertResult)
    requires !MissingField(f) && EmailAccepted(TrimmedEmail(f))
    requires !StartNotBeforeEnd(parse(f.startDate.value), parse(f.endDate.value))
    requires cert.GenerationFailed? || verify.GenerationFailed?
    ensures Handle(Body(f), store, parse, cert, verify, lookup, insert)
            == Outcome(Reply(500, Failure(CodeGenerationError)), store)
  {
  }

  /** Step 5: when the query answers and exactly one row holds the trimmed
      e-mail (compared exactly), the reply is 409 and nothing is inserted. */
  lemma DuplicateRejected(f: Fields, store: Store, parse: string -> Option<int>,
                          cert: CodeResult, verify: CodeResult, lookup: LookupResult, insert: InsertResult)
    requires !MissingField(f) && EmailAccepted(TrimmedEmail(f))
    requires !StartNotBeforeEnd(parse(f.startDate.value), parse(f.endDate.value))
    requires cert.Generated? && verify.Generated?
    requires lookup.LookupAnswered? && EmailCount(store, TrimmedEmail(f)) == 1
    ensures Handle(Body(f), store, parse, cert, verify, lookup, insert)
            == Outcome(Reply(409, Failure(DuplicateEmailError)), store)
  {
  }

  /** Step 6: the store's insert error is passed on as a 500. */
  lemma InsertFailureRejected(f: Fields, store: Store, parse: string -> Option<int>,
                              cert: CodeResult, verify: CodeResult, lookup: LookupResult, insert: InsertResult)
    requires !MissingField(f) && EmailAccepted(TrimmedEmail(f))
    requires !StartNotBeforeEnd(parse(f.startDate.value), parse(f.endDate.value))
    requires cert.Generated? && verify.Generated?
    requires !DuplicateFound(store, TrimmedEmail(f), lookup)
    requires insert.InsertFailed?
    ensures Handle(Body(f), store, parse, cert, verify, lookup, insert)
            == Outcome(Reply(500, Failure(InsertErrorPrefix + insert.message)), store)
  {
  }

  /** A request passing every step adds exactly one row: the trimmed name,
      e-mail and role, the dates as sent, the first generated code as
      certificate id and the second as verification code, status
      `Active`, and the id and creation time the store assigned. */
  lemma AcceptedRow(f: Fields, store: Store, parse: string -> Option<int>,
                    cert: CodeResult, verify: CodeResult, lookup: LookupResult, insert: InsertResult)
    requires !MissingField(f) && EmailAccepted(TrimmedEmail(f))
    requires !StartNotBeforeEnd(parse(f.startDate.value), parse(f.endDate.value))
    requires cert.Generated? && verify.Generated?
    requires !DuplicateFound(store, TrimmedEmail(f), lookup)
    requires insert.Inserted?
    ensures var out := Handle(Body(f), store, parse, cert, verify, lookup, insert);
            && out.reply.status == 200
            && out.store == store + [out.reply.body.intern]
            && out.reply.body.intern == Intern(insert.id, Trim(f.fullName.value), Trim(f.email.value),
                 Trim(f.role.value), f.startDate.value, f.endDate.value, cert.code, verify.code,
                 Some(InitialStatus), insert.createdAt)
  {
  }

  /** The validation steps, in the order the handler runs them. */
  datatype Step = PresenceStep | FormatStep | DateStep | CodeStep | DuplicateStep | InsertStep

  const Pipeline: seq<Step> := [PresenceStep, FormatStep, DateStep, CodeStep, DuplicateStep, InsertStep]

  /** Whether one step, looked at on its own, rejects the request. */
  predicate StepFails(step: Step, f: Fields, store: Store, parse: string -> Option<int>,
                      cert: CodeResult, verify: CodeResult, lookup: LookupResult, insert: InsertResult)
  {
    match step
    case PresenceStep => MissingField(f)
    case FormatStep => !EmailAccepted(TrimmedEmail(f))
    case DateStep => StartNotBeforeEnd(parse(f.startDate.GetOr("")), parse(f.endDate.GetOr("")))
    case CodeStep => cert.GenerationFailed? || verify.GenerationFailed?
    case DuplicateStep => DuplicateFound(store, TrimmedEmail(f), lookup)
    case InsertStep => insert.InsertFailed?
  }

  /** The reply each step gives when it rejects. */
  function StepReply(step: Step, insert: InsertResult): Reply {
    match step
    case PresenceStep => Reply(400, Failure(MissingFieldsError))
    case FormatStep => Reply(400, Failure(EmailFormatError))
    case DateStep => Reply(400, Failure(DateOrderError))
    case CodeStep => Reply(500, Failure(CodeGenerationError))
    case DuplicateStep => Reply(409, Failure(DuplicateEmailError))
    case InsertStep => Reply(500, Failure(InsertErrorPrefix + insert.Message()))
  }

  /** The first step of `Pipeline`, from position `i` on, that rejects
      the request, if any. */
  function FirstFailing(i: nat, f: Fields, store: Store, parse: string -> Option<int>,
                        cert: CodeResult, verify: CodeResult, lookup: LookupResult, insert: InsertResult): (r: Option<Step>)
    requires i <= |Pipeline|
    ensures r.Some? ==> r.value in Pipeline[i..] && StepFails(r.value, f, store, parse, cert, verify, lookup, insert)
    ensures r.Some? ==> exists k :: (i <= k < |Pipeline| && Pipeline[k] == r.value
              && forall j :: i <= j < k ==> !StepFails(Pipeline[j], f, store, parse, cert, verify, lookup, insert))
    ensures r.None? ==> forall j :: i <= j < |Pipeline| ==> !StepFails(Pipeline[j], f, store, parse, cert, verify, lookup, insert)
    decreases |Pipeline| - i
  {
    if i == |Pipeline| then None
    else if StepFails(Pipeline[i], f, store, parse, cert, verify, lookup, insert) then Some(Pipeline[i])
    else FirstFailing(i + 1, f, store, parse, cert, verify, lookup, insert)
  }

  /** The first failing step, read off the six tests in pipeline order. */
  lemma FirstFailingUnrolled(f: Fields, store: Store, parse: string -> Option<int>,
                             cert: CodeResult, verify: CodeResult, lookup: LookupResult, insert: InsertResult)
    ensures FirstFailing(0, f, store, parse, cert, verify, lookup, insert) ==
              if MissingField(f) then Some(PresenceStep)
              else if !EmailAccepted(TrimmedEmail(f)) then Some(FormatStep)
              else if StartNotBeforeEnd(parse(f.startDate.value), parse(f.endDate.value)) then Some(DateStep)
              else if cert.GenerationFailed? || verify.GenerationFailed? then Some(CodeStep)
              else if DuplicateFound(store, TrimmedEmail(f), lookup) then Some(DuplicateStep)
              else if insert.InsertFailed? then Some(InsertStep)
              else None
  {
    assert Pipeline[0] == PresenceStep && Pipeline[1] == FormatStep && Pipeline[2] == DateStep;
    assert Pipeline[3] == CodeStep && Pipeline[4] == DuplicateStep && Pipeline[5] == InsertStep;
    // Name the search from every position, so that each step's verdict is in view.
    var r0, r1, r2, r3, r4, r5, r6 := FirstFailing(0, f, store, parse, cert, verify, lookup, insert),
      FirstFailing(1, f, store, parse, cert, verify, lookup, insert), FirstFailing(2, f, store, parse, cert, verify, lookup, insert),
      FirstFailing(3, f, store, parse, cert, verify, lookup, insert), FirstFailing(4, f, store, parse, cert, verify, lookup, insert),
      FirstFailing(5, f, store, parse, cert, verify, lookup, insert), FirstFailing(6, f, store, parse, cert, verify, lookup, insert);
    assert r6 == None;
  }

  /** The handler runs the steps in `Pipeline` order: the first failing
      step decides the reply, whatever later steps would have said, and
      leaves the store as it was; when no step fails the reply is 200. */
  lemma HandleFollowsPipeline(f: Fields, store: Store, parse: string -> Option<int>,
                              cert: CodeResult, verify: CodeResult, lookup: LookupResult, insert: InsertResult)
    ensures var out := Handle(Body(f), store, parse, cert, verify, lookup, insert);
            match FirstFailing(0, f, store, parse, cert, verify, lookup, insert)
            case Some(step) => out == Outcome(StepReply(step, insert), store)
            case None => out.reply.status == 200
  {
    FirstFailingUnrolled(f, store, parse, cert, verify, lookup, insert);
    if MissingField(f) {
      MissingFieldRejected(f, store, parse, cert, verify, lookup, insert);
    } else if !EmailAccepted(TrimmedEmail(f)) {
      EmailCheckIff(TrimmedEmail(f));
      MalformedEmailRejected(f, store, parse, cert, verify, lookup, insert);
    } else if StartNotBeforeEnd(parse(f.startDate.value), parse(f.endDate.value)) {
      DateOrderRejected(f, store, parse, cert, verify, lookup, insert);
    } else if cert.GenerationFailed? || verify.GenerationFailed? {
      CodeFailureRejected(f, store, parse, cert, verify, lookup, insert);
    } else if DuplicateFound(store, TrimmedEmail(f), lookup) {
      DuplicateRejected(f, store, parse, cert, verify, lookup, insert);
    } else if insert.InsertFailed? {
      InsertFailureRejected(f, store, parse, cert, verify, lookup, insert);
    } else {
      AcceptedRow(f, store, parse, cert, verify, lookup, insert);
    }
  }

  /** An accepted request had dates in order whenever both parse; a date
      that does not parse slips past the date test instead. */
  lemma AcceptedDates(f: Fields, store: Store, parse: string -> Option<int>,
                      cert: CodeResult, verify: CodeResult, lookup: LookupResult, insert: InsertResult)
    requires Handle(Body(f), store, parse, cert, verify, lookup, insert).reply.status == 200
    ensures var row := Handle(Body(f), store, parse, cert, verify, lookup, insert).reply.body.intern;
            parse(row.startDate).Some? && parse(row.endDate).Some? ==>
              parse(row.startDate).value < parse(row.endDate).value
  {
  }

  /** Nothing but the parse result matters to the date test: with either
      date unparsable, a request that passes every other step is accepted. */
  lemma UnparsableDateAccepted(f: Fields, store: Store, parse: string -> Option<int>,
                               cert: CodeResult, verify: CodeResult, lookup: LookupResult, insert: InsertResult)
    requires !MissingField(f) && EmailAccepted(TrimmedEmail(f))
    requires parse(f.startDate.value).None? || parse(f.endDate.value).None?
    requires cert.Generated? && verify.Generated?
    requires !DuplicateFound(store, TrimmedEmail(f), lookup)
    requires insert.Inserted?
    ensures Handle(Body(f), store, parse, cert, verify, lookup, insert).reply.status == 200
  {
    AcceptedRow(f, store, parse, cert, verify, lookup, insert);
  }

  /** One issuance call with everything the handler cannot decide itself. */
  datatype Call = Call(req: Request, cert: CodeResult, verify: CodeResult, lookup: LookupResult,
                       insert: InsertResult)

  /** The store after a sequence of calls, each one atomic. */
  function HandleAll(store: Store, parse: string -> Option<int>, calls: seq<Call>): Store
    decreases |calls|
  {
    if calls == [] then store
    else
      var c := calls[0];
      HandleAll(Handle(c.req, store, parse, c.cert, c.verify, c.lookup, c.insert).store, parse, calls[1..])
  }

  /** A single call whose duplicate query answers keeps e-mails unique: in
      such a store a present e-mail sits on exactly one row, which
      `.single()` finds. */
  lemma HandlePreservesUniqueEmails(req: Request, store: Store, parse: string -> Option<int>,
                                    cert: CodeResult, verify: CodeResult, lookup: LookupResult,
                                    insert: InsertResult)
    requires UniqueEmails(store) && lookup.LookupAnswered?
    ensures UniqueEmails(Handle(req, store, parse, cert, verify, lookup, insert).store)
  {
    var out := Handle(req, store, parse, cert, verify, lookup, insert);
    if out.reply.status == 200 {
      var row := out.reply.body.intern;
      UniqueEmailCount(store, row.email);
      forall i, j | 0 <= i < j < |out.store| ensures out.store[i].email != out.store[j].email {
        if j == |store| {
          assert out.store[j] == row;
          assert out.store[i] == store[i];
        }
      }
    }
  }

  /** A store with unique e-mails keeps them unique across any sequence of
      calls whose duplicate queries all answer. */
  lemma {:induction false} UniqueEmailsPreserved(store: Store, parse: string -> Option<int>, calls: seq<Call>)
    requires UniqueEmails(store)
    requires forall c :: c in calls ==> c.lookup.LookupAnswered?
    ensures UniqueEmails(HandleAll(store, parse, calls))
    decreases |calls|
  {
    if calls != [] {
      var c := calls[0];
      HandlePreservesUniqueEmails(c.req, store, parse, c.cert, c.verify, c.lookup, c.insert);
      assert forall d :: d in calls[1..] ==> d in calls;
      UniqueEmailsPreserved(Handle(c.req, store, parse, c.cert, c.verify, c.lookup, c.insert).store, parse, calls[1..]);
    }
  }

  /** The handler reads only the duplicate query's data, never its error:
      when that query fails, a request for an address already in the store
      passes the duplicate test and a second row with the address is
      inserted. */
  lemma FailedLookupAdmitsDuplicate(f: Fields, store: Store, parse: string -> Option<int>,
                                    cert: CodeResult, verify: CodeResult, insert: InsertResult)
    requires !MissingField(f) && EmailAccepted(TrimmedEmail(f))
    requires !StartNotBeforeEnd(parse(f.startDate.value), parse(f.endDate.value))
    requires cert.Generated? && verify.Generated? && insert.Inserted?
    requires HasEmail(store, TrimmedEmail(f))
    ensures var out := Handle(Body(f), store, parse, cert, verify, LookupFailed, insert);
            out.reply.status == 200 && !UniqueEmails(out.store)
  {
    var out := Handle(Body(f), store, parse, cert, verify, LookupFailed, insert);
    AcceptedRow(f, store, parse, cert, verify, LookupFailed, insert);
    var k :| 0 <= k < |store| && store[k].email == TrimmedEmail(f);
    assert out.store[k] == store[k] && out.store[|store|] == out.reply.body.intern;
  }

  /** `.single()` errs when several rows match, and the handler reads that
      as "no row": once two rows share an address, a further request for
      it is accepted too. */
  lemma SeveralRowsAdmitDuplicate(f: Fields, store: Store, parse: string -> Option<int>,
                                  cert: CodeResult, verify: CodeResult, insert: InsertResult)
    requires !MissingField(f) && EmailAccepted(TrimmedEmail(f))
    requires !StartNotBeforeEnd(parse(f.startDate.value), parse(f.endDate.value))
    requires cert.Generated? && verify.Generated? && insert.Inserted?
    requires EmailCount(store, TrimmedEmail(f)) >= 2
    ensures var out := Handle(Body(f), store, parse, cert, verify, LookupAnswered, insert);
            out.reply.status == 200 && out.store[|store|].email == TrimmedEmail(f)
  {
    AcceptedRow(f, store, parse, cert, verify, LookupAnswered, insert);
  }

  /** Issuing again for an address that was just issued (after trimming)
      to a store with unique e-mails is a conflict once the earlier steps
      pass and both duplicate queries answer, and adds no row. */
  lemma ReissueConflicts(f: Fields, store: Store, parse: string -> Option<int>,
                         cert: CodeResult, verify: CodeResult, lookup: LookupResult, insert: InsertResult,
                         g: Fields, cert2: CodeResult, verify2: CodeResult, insert2: InsertResult)
    requires UniqueEmails(store) && lookup.LookupAnswered?
    requires Handle(Body(f), store, parse, cert, verify, lookup, insert).reply.status == 200
    requires !MissingField(g) && TrimmedEmail(g) == TrimmedEmail(f)
    requires !StartNotBeforeEnd(parse(g.startDate.value), parse(g.endDate.value))
    requires cert2.Generated? && verify2.Generated?
    ensures var after := Handle(Body(f), store, parse, cert, verify, lookup, insert).store;
            Handle(Body(g), after, parse, cert2, verify2, LookupAnswered, insert2)
              == Outcome(Reply(409, Failure(DuplicateEmailError)), after)
  {
    var out := Handle(Body(f), store, parse, cert, verify, lookup, insert);
    var after := out.store;
    assert after[|store|] == out.reply.body.intern;
    assert HasEmail(after, TrimmedEmail(g));
    HandlePreservesUniqueEmails(Body(f), store, parse, cert, verify, lookup, insert);
    UniqueEmailCount(after, TrimmedEmail(g));
    DuplicateRejected(g, after, parse, cert2, verify2, LookupAnswered, insert2);
  }
}
