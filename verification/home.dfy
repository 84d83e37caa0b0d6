/** The home page's verification form: the input is upper-cased on every
    keystroke, checked for blankness after trimming, and looked up
    untrimmed by either code; the page navigates to the profile path only
    when a row comes back. */
module Home {
  import opened Wrappers
  import opened Text
  import opened Records
  import opened Naming

  /** The toast the submit handler leaves on screen, if any. */
  datatype Toast = NoToast | EnterCodeToast | InvalidCodeToast | SomethingWrongToast

  /** How the store query went: it answered (with whatever row the lookup
      finds), it answered with an error, or the call threw. */
  datatype QueryFailure = QueryOk | QueryError | QueryThrows

  /** The page's state: the stored input and the loading flag. */
  datatype HomeState = HomeState(input: string, loading: bool)

  const InitialHome := HomeState("", false)

  /** What one submit does: the code sent to the store (if a query was
      made), the path navigated to (if any), the toast, and the state the
      page is left in. */
  datatype SubmitResult = SubmitResult(query: Option<string>, navigate: Option<string>,
                                       toast: Toast, state: HomeState)

  /** The input's change handler: the stored value is the typed value
      upper-cased. */
  function OnInputChange(st: HomeState, typed: string): (r: HomeState)
    ensures |r.input| == |typed| && r.loading == st.loading
    ensures forall i :: 0 <= i < |r.input| ==> !('a' <= r.input[i] <= 'z')
    ensures IsBlank(r.input) <==> IsBlank(typed)
  {
    ToUpperProperties(typed);
    HomeState(ToUpper(typed), st.loading)
  }

  /** The form's submit handler against `store`. */
  function Submit(st: HomeState, store: Store, failure: QueryFailure): (r: SubmitResult)
    ensures r.query.None? <==> IsBlank(st.input)
    ensures r.query.Some? ==> r.query.value == st.input
    ensures r.navigate.Some? <==> !IsBlank(st.input) && failure.QueryOk? && FindByCode(store, st.input).Some?
    ensures r.navigate.Some? ==> r.navigate.value == VerificationPath(st.input)
    ensures r.navigate.Some? <==> r.toast.NoToast?
    ensures r.state == HomeState(st.input, false) || (r.state == st && r.query.None?)
  {
    if IsBlank(st.input) then SubmitResult(None, None, EnterCodeToast, st)
    else
      var done := HomeState(st.input, false);
      match failure
      case QueryThrows => SubmitResult(Some(st.input), None, SomethingWrongToast, done)
      case QueryError => SubmitResult(Some(st.input), None, InvalidCodeToast, done)
      case QueryOk =>
        if FindByCode(store, st.input).None? then SubmitResult(Some(st.input), None, InvalidCodeToast, done)
        else SubmitResult(Some(st.input), Some(VerificationPath(st.input)), NoToast, done)
  }

  /** Typing a code and submitting navigates exactly when some row carries
      the upper-cased typed text, untrimmed, as its verification code or
      certificate id. */
  lemma TypedCodeNavigates(typed: string, store: Store)
    requires !IsBlank(typed)
    ensures var r := Submit(OnInputChange(InitialHome, typed), store, QueryOk);
            r.navigate.Some? <==> exists k :: 0 <= k < |store| && Matches(store[k], ToUpper(typed))
  {
    ToUpperProperties(typed);
  }

  /** Because the input is upper-cased, a row whose codes both contain a
      lower-case letter can never be reached from the home page. */
  lemma LowerCaseCodesUnreachable(typed: string, row: Intern, i: int, j: int)
    requires 0 <= i < |row.verificationCode| && 'a' <= row.verificationCode[i] <= 'z'
    requires 0 <= j < |row.certificateId| && 'a' <= row.certificateId[j] <= 'z'
    ensures !Matches(row, OnInputChange(InitialHome, typed).input)
  {
    var q := OnInputChange(InitialHome, typed).input;
    assert row.verificationCode != q by {
      if |q| == |row.verificationCode| { assert q[i] != row.verificationCode[i]; }
    }
    assert row.certificateId != q by {
      if |q| == |row.certificateId| { assert q[j] != row.certificateId[j]; }
    }
  }

  /** Surrounding white space passes the blank check and is sent along
      untrimmed, so a padded code is never found among rows whose codes
      hold no white space. */
  lemma PaddedCodeNotFound(st: HomeState, store: Store, pad: char, code: string)
    requires IsSpace(pad) && code != [] && NoSpace(code)
    requires st.input == [pad] + code
    requires forall k :: 0 <= k < |store| ==> NoSpace(store[k].verificationCode) && NoSpace(store[k].certificateId)
    ensures Submit(st, store, QueryOk).query == Some(st.input)
    ensures Submit(st, store, QueryOk).navigate.None?
  {
    assert !IsSpace(st.input[1]);
    BlankIffAllSpace(st.input);
    forall k | 0 <= k < |store| ensures !Matches(store[k], st.input) {
      assert !NoSpace(st.input) by { assert IsSpace(st.input[0]); }
    }
  }
}
