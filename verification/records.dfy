/** The intern row as the record store holds it, the store itself, and the
    code lookup shared by the home page and the profile page. */
module Records {
  import opened Wrappers

  /** One row of the `interns` table. `status` is nullable text in the
      store; `createdAt` is the store-assigned creation timestamp. */
  datatype Intern = Intern(
    id: string,
    fullName: string,
    email: string,
    role: string,
    startDate: string,
    endDate: string,
    certificateId: string,
    verificationCode: string,
    status: Option<string>,
    createdAt: int)

  /** The record store, abstracted to its rows. */
  type Store = seq<Intern>

  /** The five editable fields, as both admin forms hold them. */
  datatype InternForm = InternForm(
    fullName: string,
    email: string,
    role: string,
    startDate: string,
    endDate: string)

  /** The empty form both admin forms start from and reset to. */
  const EmptyForm := InternForm("", "", "", "", "")

  /** The client-side presence test `!a || !b || ...` negated: every field
      is a non-empty string (white space counts as present). */
  predicate FormComplete(f: InternForm) {
    f.fullName != "" && f.email != "" && f.role != "" && f.startDate != "" && f.endDate != ""
  }

  predicate HasEmail(store: Store, email: string) {
    exists k :: 0 <= k < |store| && store[k].email == email
  }

  /** The uniqueness the issuance handler's duplicate check aims at. */
  predicate UniqueEmails(store: Store) {
    forall i, j :: 0 <= i < j < |store| ==> store[i].email != store[j].email
  }

  /** How many rows hold `email`: the query `.eq('email', email)` returns
      that many rows, and `.single()` yields a row only when it is one. */
  function EmailCount(store: Store, email: string): (n: nat)
    ensures n <= |store|
    decreases |store|
  {
    if store == [] then 0
    else (if store[0].email == email then 1 else 0) + EmailCount(store[1..], email)
  }

  /** No row holds the e-mail exactly when the count is zero. */
  lemma {:induction false} EmailCountZero(store: Store, email: string)
    ensures EmailCount(store, email) == 0 <==> !HasEmail(store, email)
    decreases |store|
  {
    if store != [] {
      var rest := store[1..];
      EmailCountZero(rest, email);
      if HasEmail(rest, email) {
        var k :| 0 <= k < |rest| && rest[k].email == email;
        assert store[k + 1].email == email;
      }
      if HasEmail(store, email) && store[0].email != email {
        var k :| 0 <= k < |store| && store[k].email == email;
        assert rest[k - 1].email == email;
      }
    }
  }

  /** In a store with unique e-mails, an e-mail is present exactly when one
      row holds it, so `.single()` finds every present e-mail. */
  lemma {:induction false} UniqueEmailCount(store: Store, email: string)
    requires UniqueEmails(store)
    ensures HasEmail(store, email) <==> EmailCount(store, email) == 1
    decreases |store|
  {
    EmailCountZero(store, email);
    if store != [] {
      var rest := store[1..];
      assert UniqueEmails(rest) by {
        forall i, j | 0 <= i < j < |rest| ensures rest[i].email != rest[j].email {
          assert rest[i] == store[i + 1] && rest[j] == store[j + 1];
        }
      }
      UniqueEmailCount(rest, email);
      EmailCountZero(rest, email);
      if store[0].email == email {
        assert !HasEmail(rest, email) by {
          forall k | 0 <= k < |rest| ensures rest[k].email != email {
            assert rest[k] == store[k + 1];
          }
        }
      }
    }
  }

  /** A store whose e-mails are not unique has an e-mail that `.single()`
      does not find: some e-mail sits on two or more rows. */
  lemma {:induction false} DuplicatedEmailCount(store: Store, i: int, j: int)
    requires 0 <= i < j < |store| && store[i].email == store[j].email
    ensures EmailCount(store, store[i].email) >= 2
    decreases |store|
  {
    var rest := store[1..];
    if i == 0 {
      assert rest[j - 1] == store[j];
      EmailCountZero(rest, store[i].email);
    } else {
      assert rest[i - 1] == store[i] && rest[j - 1] == store[j];
      DuplicatedEmailCount(rest, i - 1, j - 1);
    }
  }

  /** The lookup filter `verification_code.eq.<code>,certificate_id.eq.<code>`. */
  predicate Matches(row: Intern, code: string) {
    row.verificationCode == code || row.certificateId == code
  }

  /** Row `k` matches `code` and no earlier row does. */
  predicate FirstMatchAt(store: Store, code: string, k: int) {
    0 <= k < |store| && Matches(store[k], code)
    && forall m :: 0 <= m < k ==> !Matches(store[m], code)
  }

  /** The row a code lookup returns: the first matching row, or none when no
      row carries the code in either column. */
  function FindByCode(store: Store, code: string): (r: Option<Intern>)
    ensures r.None? <==> forall k :: 0 <= k < |store| ==> !Matches(store[k], code)
    ensures r.Some? ==> exists k :: FirstMatchAt(store, code, k) && store[k] == r.value
  {
    if store == [] then None
    else if Matches(store[0], code) then Some(store[0])
    else
      var rest := FindByCode(store[1..], code);
      if rest.Some? then
        var k :| FirstMatchAt(store[1..], code, k) && store[1..][k] == rest.value;
        assert FirstMatchAt(store, code, k + 1);
        rest
      else rest
  }

  /** No row's code appears in another row, in either column. */
  predicate CodesDistinct(store: Store) {
    forall i, j :: 0 <= i < |store| && 0 <= j < |store| && i != j ==>
      !Matches(store[j], store[i].verificationCode) && !Matches(store[j], store[i].certificateId)
  }

  /** When codes are distinct, looking a row up by either of its codes
      returns exactly that row. */
  lemma FindOwnCodes(store: Store, i: int)
    requires CodesDistinct(store)
    requires 0 <= i < |store|
    ensures FindByCode(store, store[i].verificationCode) == Some(store[i])
    ensures FindByCode(store, store[i].certificateId) == Some(store[i])
  {
  }
}
