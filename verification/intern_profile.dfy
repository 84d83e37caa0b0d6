/** The profile page behind `/intern/:code`: it loads the row matching the
    route code, shows it or a not-found view that echoes the code, and
    offers a plain-text certificate whose file name and embedded link it
    derives from the row. */
module InternProfile {
  import opened Wrappers
  import opened Records
  import opened Naming
  import Home

  /** The page's state: the loading flag and the loaded row, if any. */
  datatype ProfileState = ProfileState(loading: bool, intern: Option<Intern>)

  const InitialProfile := ProfileState(true, None)

  /** The page's state after `loadIntern` has run for the route code
      `code` (`None` when the route has no parameter), together with the
      code sent to the store, if a query was made. */
  datatype LoadResult = LoadResult(query: Option<string>, state: ProfileState)

  function LoadProfile(st: ProfileState, code: Option<string>, store: Store,
                       failure: Home.QueryFailure): (r: LoadResult)
    ensures !r.state.loading
    ensures r.query.None? <==> code.None? || code.value == ""
    ensures r.query.None? ==> r.state.intern == st.intern
    ensures r.query.Some? ==> r.query.value == code.value
    ensures r.query.Some? && r.state.intern.Some? ==>
              failure.QueryOk? && Matches(r.state.intern.value, code.value)
    ensures r.query.Some? && failure.QueryOk? ==> r.state.intern == FindByCode(store, code.value)
  {
    if code.None? || code.value == "" then LoadResult(None, ProfileState(false, st.intern))
    else
      var found := if failure.QueryOk? then FindByCode(store, code.value) else None;
      LoadResult(Some(code.value), ProfileState(false, found))
  }

  /** What the page renders. */
  datatype ProfileView = Spinner | NotFound(echo: string) | Profile(intern: Intern)

  /** The render branches: the spinner while loading, the not-found view
      (echoing the route code; an absent code renders as nothing) when no
      row is loaded, the profile otherwise. */
  function View(st: ProfileState, code: Option<string>): (v: ProfileView)
    ensures v.Spinner? <==> st.loading
    ensures v.NotFound? <==> !st.loading && st.intern.None?
    ensures v.NotFound? ==> v.echo == code.GetOr("")
    ensures v.Profile? ==> st.intern == Some(v.intern)
  {
    if st.loading then Spinner
    else if st.intern.None? then NotFound(code.GetOr(""))
    else Profile(st.intern.value)
  }

  /** The plain-text download: the file name and the verification link the
      text embeds. */
  datatype TextCertificate = TextCertificate(fileName: string, link: string)

  const TextExtension := ".txt"

  function TextDownload(st: ProfileState, origin: string): (r: Option<TextCertificate>)
    ensures r.None? <==> st.intern.None?
    ensures r.Some? ==> r.value.fileName == CertificateFileName(st.intern.value.fullName, TextExtension)
    ensures r.Some? ==> r.value.link == VerificationUrl(origin, st.intern.value.verificationCode)
  {
    match st.intern
    case None => None
    case Some(row) =>
      Some(TextCertificate(CertificateFileName(row.fullName, TextExtension),
                           VerificationUrl(origin, row.verificationCode)))
  }

  /** A page opened without a route code never queries the store and ends
      in the not-found view. */
  lemma NoCodeNotFound(store: Store, failure: Home.QueryFailure)
    ensures var r := LoadProfile(InitialProfile, None, store, failure);
            r.query.None? && View(r.state, None) == NotFound("")
  {
  }

  /** Whatever the store holds, the profile view only ever shows a row
      carrying the route code in one of its two code columns, and an
      error or a throw ends in the not-found view. */
  lemma ShownRowMatches(st: ProfileState, code: string, store: Store, failure: Home.QueryFailure)
    requires code != ""
    ensures var v := View(LoadProfile(st, Some(code), store, failure).state, Some(code));
            && (v.Profile? ==> Matches(v.intern, code))
            && (!failure.QueryOk? ==> v == NotFound(code))
  {
  }

  /** Home page to profile page: when the home page navigates, the profile
      page at that path (the code being one path segment) queries the
      store with the same code and shows the row the home page found. */
  lemma HomeThenProfile(typed: Home.HomeState, store: Store)
    requires '/' !in typed.input && '?' !in typed.input && '#' !in typed.input
    ensures var sub := Home.Submit(typed, store, Home.QueryOk);
            sub.navigate.Some? ==>
              var code := RouteCode(sub.navigate.value);
              && code == Some(typed.input)
              && View(LoadProfile(InitialProfile, code, store, Home.QueryOk).state, code)
                 == Profile(FindByCode(store, typed.input).value)
  {
    var sub := Home.Submit(typed, store, Home.QueryOk);
    if sub.navigate.Some? {
      RouteCodeRoundTrip(typed.input);
    }
  }

  /** The downloaded text's link points at the row's verification code
      even when the page was opened by certificate id; with distinct codes
      across the store, following that link loads the same row. */
  lemma TextLinkLoadsSameRow(store: Store, i: int, origin: string)
    requires CodesDistinct(store) && 0 <= i < |store|
    requires store[i].certificateId != "" && store[i].verificationCode != ""
    requires Segment(store[i].verificationCode)
    ensures var loaded := LoadProfile(InitialProfile, Some(store[i].certificateId), store, Home.QueryOk);
            var file := TextDownload(loaded.state, origin);
            && file.Some?
            && RouteCode(file.value.link[|origin|..]) == Some(store[i].verificationCode)
            && LoadProfile(InitialProfile, Some(store[i].verificationCode), store, Home.QueryOk).state.intern
               == Some(store[i])
  {
    FindOwnCodes(store, i);
    VerificationUrlRoundTrip(origin, store[i].verificationCode, store[i].verificationCode);
  }
}
