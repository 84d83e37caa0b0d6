# Intern certificate portal — a Dafny model

This project models the decision logic of a small web application that issues internship certificates and verifies them.

The backend has two request handlers:
- `add-intern` validates an issuance request and adds one intern row to the record store.
- `admin-login` checks a single hard-coded administrator credential.

The frontend pages and components model:
- the public verification form (`Home`);
- the public profile page (`InternProfile`);
- the administrator's login page;
- the administrator's panel: session gate, add form and list loading;
- the intern table: status badge and menu, delete confirmation and share link;
- the edit dialog;
- the certificate download hook, reduced to its file name and its true/false result.

The record store, the code generator, date parsing and every network call are parameters. The store is a `seq<Intern>`. Date parsing is a function to `Option<int>`, where `None` stands for an invalid date. Each failure point is an explicit input, such as "the call threw", "the duplicate-e-mail query failed" or "the store answered with an error". Every handler call is treated as one atomic step.

Modules, one per source file or concern:

| module | file | models |
|---|---|---|
| `Wrappers` | wrappers.dfy | `Option` |
| `Text` | text.dfy | JavaScript white space, `trim`, `toUpperCase`, `replace(/\s+/g, '_')` |
| `EmailFormat` | email.dfy | the e-mail regular expression, as a pattern, a direct test and an automaton |
| `Records` | records.dfy | the intern row, the store, the code lookup |
| `Naming` | naming.dfy | verification paths and links, the route parameter, certificate file names |
| `AddIntern` | add_intern.dfy | the issuance handler |
| `AdminLogin` | admin_login.dfy | the login handler |
| `CertificateDownload` | certificate_download.dfy | the download hook's file name and result |
| `Home` | home.dfy | the verification form |
| `InternProfile` | intern_profile.dfy | the profile page |
| `EditInternDialog` | edit_intern_dialog.dfy | the edit dialog |
| `InternTable` | intern_table.dfy | the intern table |
| `AdminLoginPage` | admin_login_page.dfy | the login page |
| `AdminPanel` | admin_panel.dfy | the administrator panel |

Behaviours of the code worth noting:
- **Duplicate test.** Issuance reads only the data of its duplicate-e-mail query, never its error. `.single()` yields a row only when exactly one row holds the address, so a failed query, or two rows sharing the address (which an edit can produce), lets the insert go ahead.
- **Check order.** Issuance generates both codes before the duplicate-e-mail test, not after it. A code-generation failure therefore answers 500 even for a duplicate address.
- **Dates.** Issuance does not guarantee `start_date < end_date`. A date that does not parse makes `new Date(...)` invalid, every comparison with it is false, and the request is accepted.
- **Editing.** The edit dialog does not validate like issuance does. It refuses only empty strings: no trimming, no e-mail format, no date order and no uniqueness.
- **Panel redirect.** Without a session the panel navigates to `/admit`, exactly as the code spells it.
- **Table wiring.** The panel as written does not mount the intern table. The table's callbacks (`onDelete`, `onStatusChange`) are therefore modelled as the events the table emits, not as store updates.

## Model

| member | source | states |
|---|---|---|
| `Text.Trim` | supabase/functions/add-intern/index.ts:111-113 | what `trim` leaves neither starts nor ends with a white-space character and is no longer than the input |
| `Text.TrimCutsOnlySpace` | supabase/functions/add-intern/index.ts:111-113 | the trimmed text is a contiguous slice of the input, and only white space lies outside it on either side |
| `Text.IsBlank` | src/pages/Home.tsx:20 | `!s.trim()`: the text is empty or starts with white space and is blank after it; `Text.BlankIffAllSpace` ties it to `trim` and to "every character is white space" |
| `Text.BlankIffAllSpace` | src/pages/Home.tsx:20 | `!s.trim()` holds exactly when trimming leaves nothing, and exactly when every character is white space |
| `Text.ToUpper` | src/pages/Home.tsx:105 | `toUpperCase()` keeps the length and maps every character through the ASCII case table, position by position |
| `Text.ToUpperProperties` | src/pages/Home.tsx:105 | upper-casing is idempotent and keeps blank inputs blank and non-blank inputs non-blank |
| `Text.Collapse` | src/hooks/useCertificateDownload.ts:136 | `replace(/\s+/g, '_')`, defined run by run: a white-space run becomes one `_` and the rewrite continues after the run; what it guarantees is stated by `Text.CollapseShape`, `Text.CollapseScan` and the lemmas after them |
| `Text.CollapseShape` | src/hooks/useCertificateDownload.ts:136 | after whitespace runs are replaced by `_` the text has no white space and is never longer; a text without white space is returned unchanged |
| `Text.CollapseScan` | src/hooks/useCertificateDownload.ts:136 | a one-pass scan that remembers only whether the previous character was white space computes the same rewrite (loop invariants carry the proof) |
| `Text.CollapseIdempotent` | src/hooks/useCertificateDownload.ts:136 | rewriting an already rewritten name changes nothing |
| `Text.CollapseKeepsChar` | src/hooks/useCertificateDownload.ts:136 | each non-white-space character of the name appears unchanged in the rewrite, just after the rewrite of what precedes it |
| `Text.CollapseKeepsOrder` | src/hooks/useCertificateDownload.ts:136 | a later non-white-space character lands strictly after an earlier one |
| `Text.CollapsePadded` | src/hooks/useCertificateDownload.ts:136 | a word padded by white-space runs on both sides becomes `_word_`: padding is rewritten, not trimmed |
| `Text.CollapseWordRunRest` | src/hooks/useCertificateDownload.ts:136 | a word, then a white-space run, then text starting with a non-space character, becomes the word, one `_`, then the rewrite of the rest |
| `Text.CollapsePrefix` | src/hooks/useCertificateDownload.ts:136 | the rewrite of a prefix is a prefix of the rewrite |
| `EmailFormat.ValidEmailIffPattern` | supabase/functions/add-intern/index.ts:34-35 | the pattern `^[^\s@]+@[^\s@]+\.[^\s@]+$` matches exactly the strings with no white space, exactly one `@`, a non-empty local part, and a `.` in the domain that is neither its first nor its last character |
| `EmailFormat.AutomatonMatchesPattern` | supabase/functions/add-intern/index.ts:34-35 | the seven-state automaton accepts exactly the strings the pattern matches |
| `EmailFormat.EmailAccepted` | supabase/functions/add-intern/index.ts:34-35 | `emailRegex.test(s)`, run as an automaton from its start state; `EmailFormat.EmailCheckIff` proves it accepts exactly the strings matching the pattern |
| `EmailFormat.EmailCheckIff` | supabase/functions/add-intern/index.ts:34-35 | the automaton, the pattern and the direct description of the e-mail test agree on every string |
| `EmailFormat.DomainAccepts` | supabase/functions/add-intern/index.ts:34 | from inside the domain the automaton accepts exactly `[^\s@]*\.[^\s@]+` |
| `EmailFormat.LocalAccepts` | supabase/functions/add-intern/index.ts:34 | from inside the local part the automaton accepts exactly `[^\s@]*@` followed by a valid domain |
| `Records.EmailCount` | supabase/functions/add-intern/index.ts:89-95 | the number of rows the query `.eq('email', …)` returns, never more than the store holds; `.single()` yields a row only when it is one |
| `Records.EmailCountZero` | supabase/functions/add-intern/index.ts:89-99 | the duplicate query returns no row exactly when no row holds the e-mail |
| `Records.UniqueEmailCount` | supabase/functions/add-intern/index.ts:89-99 | in a store with unique e-mails, an e-mail is present exactly when one row holds it, so `.single()` finds it |
| `Records.DuplicatedEmailCount` | supabase/functions/add-intern/index.ts:89-99 | two rows sharing an e-mail make the query return at least two rows, where `.single()` yields none |
| `Records.FindByCode` | src/pages/Home.tsx:32-36 | the lookup finds nothing exactly when no row has the code as its verification code or certificate id; otherwise it returns the first row that does |
| `Records.FindOwnCodes` | src/pages/InternProfile.tsx:42-46 | when codes are distinct across rows, looking a row up by either of its codes returns exactly that row |
| `Naming.VerificationUrl` | src/components/InternTable.tsx:102 | the link is the origin, then `/intern/`, then the code, each at its place and nothing else |
| `Naming.PathPart` | src/pages/InternProfile.tsx:25 | the part of a navigation target the router matches is its prefix up to the first `?` or `#`, and the whole target when it has neither |
| `Naming.RouteCode` | src/pages/InternProfile.tsx:25 | a route parameter read from a target is a non-empty segment without `/`, `?` or `#`, and the target starts with the verification path of that code (and is exactly that path when the target has no query or fragment) |
| `Naming.QueryMarkCutsCode` | src/pages/InternProfile.tsx:25 | a code `A?B` sent as `/intern/A?B` comes back as `A`: the query mark and what follows do not reach the profile page |
| `Naming.RouteCodeRoundTrip` | src/pages/Home.tsx:47 | navigating to `/intern/<code>` gives the profile page that same code back, when the code is one path segment without `?` or `#` |
| `Naming.VerificationUrlRoundTrip` | src/components/InternTable.tsx:102 | the path of a verification link routes back to its code, and different codes give different links |
| `Naming.CertificateFileName` | src/hooks/useCertificateDownload.ts:136 | the file name ends in `_Certificate` plus the extension, and the part before it holds no white space |
| `Naming.CertificateFileNameWords` | src/hooks/useCertificateDownload.ts:136 | a name without white space is used verbatim; two words separated by one white-space run get one `_` between them |
| `Naming.JaneDoeFileName` | src/hooks/useCertificateDownload.ts:136 | "Jane Doe" downloads as `Jane_Doe_Certificate.pdf` |
| `AddIntern.MissingField` | supabase/functions/add-intern/index.ts:20-31 | the presence test: a name, e-mail or role that is missing or blank after trimming, or a date that is missing or the empty string |
| `AddIntern.Validate` | supabase/functions/add-intern/index.ts:20-63 | the three request-only checks pass exactly when all fields are present, the trimmed e-mail matches the pattern, and the dates are not both parseable with start >= end; each failure answers 400 |
| `AddIntern.NewRow` | supabase/functions/add-intern/index.ts:108-119 | the inserted row carries the trimmed name, e-mail and role, the dates as sent, the first generated code as certificate id, the second as verification code, and status `Active` |
| `AddIntern.Issue` | supabase/functions/add-intern/index.ts:71-143 | after validation, 200 happens only when both codes were generated, the duplicate query did not find exactly one row holding the trimmed e-mail (a failed query and several rows both read as none) and the insert succeeded; then exactly the new row is appended; any other status leaves the store unchanged |
| `AddIntern.Handle` | supabase/functions/add-intern/index.ts:15-157 | the status is one of 200, 400, 409 and 500; 200 goes with a success body; a non-200 answer leaves the store unchanged; a 200 answer appends one row whose e-mail the duplicate query did not find |
| `AddIntern.MissingFieldRejected` | supabase/functions/add-intern/index.ts:20-31 | a missing or blank name, e-mail or role, or a missing or empty date, answers 400 "All fields are required" with the store unchanged |
| `AddIntern.MalformedEmailRejected` | supabase/functions/add-intern/index.ts:34-46 | a complete request whose trimmed e-mail the pattern rejects answers 400 "Invalid email format" |
| `AddIntern.DateOrderRejected` | supabase/functions/add-intern/index.ts:49-63 | when both dates parse and the start is not before the end, the answer is 400 with the date error |
| `AddIntern.CodeFailureRejected` | supabase/functions/add-intern/index.ts:71-86 | a failed code-generator call answers 500 whatever the store holds, the duplicate case included |
| `AddIntern.DuplicateRejected` | supabase/functions/add-intern/index.ts:89-106 | when the duplicate query answers and exactly one row's e-mail equals the trimmed e-mail exactly, the reply is 409 and nothing is inserted |
| `AddIntern.InsertFailureRejected` | supabase/functions/add-intern/index.ts:108-135 | the store's insert error is passed on as 500 with its message, and the store is unchanged |
| `AddIntern.AcceptedRow` | supabase/functions/add-intern/index.ts:108-143 | a request passing every step answers 200 and adds exactly one row: trimmed name, e-mail and role, the dates as sent, both codes, status `Active` |
| `AddIntern.FirstFailing` | supabase/functions/add-intern/index.ts:20-135 | the step it reports fails, lies at or after the given position, and every step between that position and it passes; when it reports none, no step from there on fails |
| `AddIntern.FirstFailingUnrolled` | supabase/functions/add-intern/index.ts:20-135 | the first failing step is found by testing presence, format, date, codes, duplicate and insert in that order; none when all pass |
| `AddIntern.HandleFollowsPipeline` | supabase/functions/add-intern/index.ts:20-143 | the first failing step in the fixed order (presence, format, date, codes, duplicate, insert) decides the reply and leaves the store unchanged; with no failing step the reply is 200 |
| `AddIntern.AcceptedDates` | supabase/functions/add-intern/index.ts:49-63 | an accepted row has its start before its end whenever both dates parse |
| `AddIntern.UnparsableDateAccepted` | supabase/functions/add-intern/index.ts:49-52 | with either date unparsable, a request passing the other steps is accepted |
| `AddIntern.HandlePreservesUniqueEmails` | supabase/functions/add-intern/index.ts:89-121 | one call whose duplicate query answers keeps a store's e-mails pairwise distinct, since there a present e-mail sits on exactly one row and is found |
| `AddIntern.UniqueEmailsPreserved` | supabase/functions/add-intern/index.ts:89-121 | a store with unique e-mails keeps them unique across any sequence of calls whose duplicate queries all answer |
| `AddIntern.ReissueConflicts` | supabase/functions/add-intern/index.ts:89-106 | in a store with unique e-mails, issuing again for an address just issued gives 409 and adds nothing, once the earlier steps pass and the queries answer |
| `AddIntern.FailedLookupAdmitsDuplicate` | supabase/functions/add-intern/index.ts:89-121 | when the duplicate query fails, a request for an address already stored is accepted and the store loses unique e-mails |
| `AddIntern.SeveralRowsAdmitDuplicate` | supabase/functions/add-intern/index.ts:89-121 | when two or more rows already hold the address, `.single()` finds none and a further request for it is accepted and appends a row with it |
| `AdminLogin.Login` | supabase/functions/admin-login/index.ts:16-54 | 200 with the administrator `admin-1`/`admin` exactly when the username is `admin` and the password is `sansmedia2024`; 401 "Invalid credentials" for any other readable body; 500 "Server error" for an unreadable one |
| `AdminLogin.OnlyExactMatchAccepted` | supabase/functions/admin-login/index.ts:22 | any credentials that differ from the stored pair in any way are refused with 401 |
| `AdminLogin.NearMissesRefused` | supabase/functions/admin-login/index.ts:36-43 | a space-padded username, an upper-cased username and a missing password each get 401 |
| `CertificateDownload.DownloadCertificate` | src/hooks/useCertificateDownload.ts:136-143 | the result is true exactly when the file was saved, and exactly when no step threw; the saved name is the rewritten full name plus `_Certificate.pdf` |
| `CertificateDownload.SavedFileNameShape` | src/hooks/useCertificateDownload.ts:136 | a successful download saves a file named `<stem>_Certificate.pdf` whose stem has no white space |
| `CertificateDownload.FileNameKeepsName` | src/hooks/useCertificateDownload.ts:136 | any two non-white-space characters of the name appear unchanged in the file name, in the same order |
| `CertificateDownload.PaddedNameKeepsUnderscores` | src/hooks/useCertificateDownload.ts:136 | leading and trailing white space is not trimmed: each run becomes a `_` in the file name |
| `Home.OnInputChange` | src/pages/Home.tsx:105 | the stored input has the typed length, no lower-case ASCII letter, and is blank exactly when the typed text is |
| `Home.Submit` | src/pages/Home.tsx:17-57 | blank input makes no query; otherwise the query uses the stored input untrimmed; the page navigates to `/intern/<input>` exactly when the query succeeds and a row matches, and shows a toast exactly when it does not navigate; loading ends false |
| `Home.TypedCodeNavigates` | src/pages/Home.tsx:32-47 | typing then submitting navigates exactly when some row carries the upper-cased typed text, untrimmed, in one of its code columns |
| `Home.LowerCaseCodesUnreachable` | src/pages/Home.tsx:105 | a row whose two codes each contain a lower-case letter can never be matched from the form |
| `Home.PaddedCodeNotFound` | src/pages/Home.tsx:20-47 | a code with a leading white-space character passes the blank check, is sent untrimmed, and is found in no store whose codes hold no white space |
| `InternProfile.LoadProfile` | src/pages/InternProfile.tsx:35-58 | no route code means no query and no change to the loaded row; a successful query loads exactly the lookup's row; a shown row carries the route code; loading ends false |
| `InternProfile.View` | src/pages/InternProfile.tsx:132-160 | spinner exactly while loading, the not-found view exactly when no row is loaded, echoing the route code verbatim, the profile otherwise |
| `InternProfile.TextDownload` | src/pages/InternProfile.tsx:60-97 | nothing happens when no row is loaded; otherwise the file is named from the full name with `_Certificate.txt` and embeds the link of the row's verification code |
| `InternProfile.NoCodeNotFound` | src/pages/InternProfile.tsx:36-39 | a page without a route code never queries and ends in the not-found view |
| `InternProfile.ShownRowMatches` | src/pages/InternProfile.tsx:42-54 | a shown row carries the route code in one of its code columns; an error or a throw ends in the not-found view |
| `InternProfile.HomeThenProfile` | src/pages/InternProfile.tsx:42-51 | when the home page navigates, the profile page at that path queries with the same code and shows the row the home page found |
| `InternProfile.TextLinkLoadsSameRow` | src/pages/InternProfile.tsx:84 | the embedded link uses the verification code even when the page was opened by certificate id, and with distinct codes that link loads the same row |
| `EditInternDialog.InitEditForm` | src/components/EditInternDialog.tsx:36-42 | writing back the form the dialog opens with leaves the row unchanged |
| `EditInternDialog.EditRoundTrip` | src/components/EditInternDialog.tsx:36-69 | building the form from an edited row gives back the saved form (the dialog builds its form when it mounts, so this is what a freshly opened dialog shows) |
| `EditInternDialog.Overwrite` | src/components/EditInternDialog.tsx:63-69 | the five form fields are written; id, both codes, status and creation time are kept |
| `EditInternDialog.UpdateById` | src/components/EditInternDialog.tsx:61-70 | rows with the dialog's id are overwritten and every other row is left as it was; the store keeps its length |
| `EditInternDialog.SubmitEdit` | src/components/EditInternDialog.tsx:46-90 | an update is sent exactly when no field is the empty string; on success the store is updated, `onUpdate` fires and then the dialog closes; on refusal or failure nothing changes and the dialog stays open; loading ends false |
| `EditInternDialog.UnchangedFormIsNoOp` | src/components/EditInternDialog.tsx:61-70 | saving the form as opened changes nothing in the store |
| `EditInternDialog.UpdateLastWins` | src/components/EditInternDialog.tsx:61-70 | editing twice leaves only the second edit |
| `EditInternDialog.EditCanDuplicateEmail` | src/components/EditInternDialog.tsx:49-70 | with no uniqueness check, an edit can give two rows the same e-mail |
| `EditInternDialog.EditThenIssueAdmitsDuplicate` | src/components/EditInternDialog.tsx:61-70 | after such an edit, an issuance request for the shared address that passes the other steps is accepted, leaving three rows with it |
| `EditInternDialog.BlankValuesAccepted` | src/components/EditInternDialog.tsx:49-56 | a name of only a space and an unparsable date pass the dialog's check |
| `InternTable.ParseStatus` | src/components/InternTable.tsx:84-88 | the stored text reads as a status exactly when it is one of the three status names |
| `InternTable.StatusRoundTrip` | src/components/InternTable.tsx:196-204 | every status the menu writes reads back as itself |
| `InternTable.DisplayedStatus` | src/components/InternTable.tsx:190-191 | a missing or empty status is shown as `Active`; any other text is shown as stored |
| `InternTable.StatusColor` | src/components/InternTable.tsx:83-89 | green exactly for `Active`, blue exactly for `Completed`, red exactly for `Revoked`, gray exactly for any other text |
| `InternTable.MissingStatusShownActive` | src/components/InternTable.tsx:190 | a row without a status gets the green `Active` badge |
| `InternTable.StatusMenu` | src/components/InternTable.tsx:196-204 | the menu has three items, all for the row's own id |
| `InternTable.MenuOffersEveryStatus` | src/components/InternTable.tsx:196-204 | every status is offered for the row |
| `InternTable.MenuEmitsKnownStatus` | src/components/InternTable.tsx:196-204 | every item writes one of the three status names |
| `InternTable.DeleteStep` | src/components/InternTable.tsx:239-268 | "Delete Record" only records the id; closing or cancelling clears it; `onDelete` is called exactly on a confirmation with a non-empty pending id, with that id, and the pending id is then cleared |
| `InternTable.DeletesWereRequested` | src/components/InternTable.tsx:240-268 | every id handed to `onDelete` over any run of events is non-empty and was pending or asked for earlier |
| `InternTable.ConfirmOnce` | src/components/InternTable.tsx:92-94 | asking once and confirming twice deletes once |
| `InternTable.ShareUrl` | src/components/InternTable.tsx:102 | the share link starts with the origin, and its path routes back to the row's verification code |
| `InternTable.Render` | src/components/InternTable.tsx:128-138 | the empty state is shown exactly for an empty list |
| `AdminLoginPage.HandleLogin` | src/pages/AdminLogin.tsx:19-65 | a blank field after trimming makes no request; the request carries the fields untrimmed; the page navigates to `/admin` and stores the administrator exactly when the handler grants the login and the call goes through; otherwise the stored entry is unchanged; loading ends false |
| `AdminLoginPage.LoginFlow` | src/pages/AdminLogin.tsx:34-55 | the page reaches the panel exactly when the typed fields are the stored credentials character for character and the call goes through |
| `AdminLoginPage.PaddedUsernameRefused` | src/pages/AdminLogin.tsx:22-45 | a username typed with a leading space passes the blank check, is sent, is refused, and nothing is stored |
| `AdminPanel.OnMount` | src/pages/AdminPanel.tsx:40-50 | the list loads exactly when `adminAuth` is set; otherwise the panel navigates to `/admit` |
| `AdminPanel.Logout` | src/pages/AdminPanel.tsx:70-77 | logout clears the entry, goes to `/`, and a later mount redirects |
| `AdminPanel.InsertByAge` | src/pages/AdminPanel.tsx:54-57 | inserting into a newest-first list keeps it newest first and adds exactly that row |
| `AdminPanel.SortNewestFirst` | src/pages/AdminPanel.tsx:54-57 | the sorted list is newest first and a permutation of the store's rows |
| `AdminPanel.ApplyLoad` | src/pages/AdminPanel.tsx:59-66 | a failed load keeps the shown list, null data shows an empty list, and data is shown as returned |
| `AdminPanel.LoadFrom` | src/pages/AdminPanel.tsx:52-60 | a load fails exactly when the query fails; otherwise it returns the store's rows, newest first |
| `AdminPanel.FormRequest` | src/pages/AdminPanel.tsx:94-96 | the add form sends its five fields as typed |
| `AdminPanel.SubmitAdd` | src/pages/AdminPanel.tsx:79-126 | an empty field means no request; success (a 200 from the handler) resets the form to empty and reloads the list; any failure keeps the form, the list and the store |
| `AdminPanel.AddedRowShown` | src/pages/AdminPanel.tsx:107-116 | after a successful add and reload the new row is shown, and the list is the store plus that row, newest first |
| `AdminPanel.SpacesOnlyNameKeptInForm` | src/pages/AdminPanel.tsx:82-100 | a name of only a space passes the panel's untrimmed check, is refused by the handler, and the form keeps what was typed |
| `AdminPanel.SessionStep` | src/pages/AdminLogin.tsx:38-55 | a login-page submit stores the administrator exactly when it is granted and otherwise leaves the entry alone; a logout clears it |
| `AdminPanel.LastDecisive` | src/pages/AdminPanel.tsx:42-46 | the position found holds a granted login or a logout, and only submits that were not granted follow it |
| `AdminPanel.PanelOpensAfterLastLogin` | src/pages/AdminPanel.tsx:42-46 | over any run of login-page submits and logouts, the panel loads exactly when the last granted submit (the exact credentials, a call that went through) came after the last logout, or when the entry was already set and neither occurred |

## Left out

- **Certificate rendering.** The HTML certificate template, html2canvas rasterisation, jsPDF image embedding and their pixel constants are foreign libraries. Only whether each of those steps throws is modelled.
- **Presentation-only files.** `src/components/CertificateTemplate.tsx`, `src/components/CertificatePreviewDialog.tsx` and `src/pages/Index.tsx` lay out props and are not part of this model.
- **Dates.** Parsing with `new Date` is a parameter `parse: string -> Option<int>`. Locale formatting with `toLocaleDateString`, and the rest of the text certificate's body, are not modelled.
- **Store query language.**
  - The lookup filter string `.or(...)` is modelled by its intended meaning, a match on either code column, not by PostgREST string interpolation. A code containing `,` or `.` that would change the filter is not modelled.
  - `.single()` on several rows is modelled as "the first matching row" for the code lookup. On two or more matching rows the code's `.single()` answers an error with no data, and the pages would report "not found". That cannot happen in a store whose codes are distinct (`Records.CodesDistinct`), which the model assumes where it needs it. The duplicate-e-mail test models `.single()` exactly: it sees a row only when exactly one row matches.
  - Ordering is a sort by creation time; the order among rows with equal creation time is not specified.
- **The `generate_unique_code` procedure.** It is a parameter. Code uniqueness is assumed (`Records.CodesDistinct`) where a lemma needs it, never derived.
- **Concurrency.** The check-then-insert race on e-mail between concurrent issuance calls is not modelled: each call is atomic.
- **Platform plumbing.** CORS and `OPTIONS` handling, console logging, the unused bcrypt import, `navigator.share` and the clipboard fallback, routing beyond the `/intern/:code` parameter, and toast wording are left out. Toasts are kept only as which toast is shown.
- Text.ToUpper: it upper-cases ASCII letters only; Unicode case mapping (`ß` to `SS` and the like) is not modelled.
- **Non-string JSON values.** A request property that is present but not a string is modelled as missing (`None`). The admin-login handler never equals such a value to a string, so the model is exact there. For add-intern, `?.trim()` would throw on a non-string, giving 500, which the model does not capture. A date that is present but not a string, a number say, is truthy, passes `!startDate` and reaches `new Date(...)`; the model answers 400 for it instead.
- **Route parameter decoding.** URL encoding and decoding of the route parameter is not modelled. The router's split at `?` and `#` is modelled (`Naming.PathPart`); the query and fragment themselves are not read by any page.
- **Panel delete, status change, edit and export.** The administrator panel as written does not wire these up, so the table's callbacks are modelled as the events it emits.
- Text.Trim: its contract states the trimmed ends and the length bound. That `trim` cuts only white space is the separate lemma `Text.TrimCutsOnlySpace`.
- AddIntern.HandlePreservesUniqueEmails: stated only for a call whose duplicate query answers. A failed query lets a duplicate in (`AddIntern.FailedLookupAdmitsDuplicate`), so the source promises no more.
- AddIntern.UniqueEmailsPreserved: stated only for runs whose duplicate queries all answer, for the same reason. Edits are outside these runs; `EditInternDialog.EditThenIssueAdmitsDuplicate` shows what an edit that duplicates an address leads to.
- AddIntern.ReissueConflicts: stated for a store with unique e-mails and answering queries; otherwise the reissue can be accepted (`AddIntern.SeveralRowsAdmitDuplicate`).
