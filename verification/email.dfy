/** The e-mail format test of the issuance handler: the regular expression
    `^[^\s@]+@[^\s@]+\.[^\s@]+$` applied to the trimmed address. */
module EmailFormat {
  import opened Text

  /** A character of the class `[^\s@]`. */
  predicate PatternChar(c: char) {
    !IsSpace(c) && c != '@'
  }

  /** A non-empty run matched by `[^\s@]+`. */
  predicate PatternRun(s: string) {
    s != [] && forall i :: 0 <= i < |s| ==> PatternChar(s[i])
  }

  /** What the regular expression accepts: the string splits, at an `@`
      in position `i` and a `.` in position `j`, into three non-empty runs
      of `[^\s@]`. */
  ghost predicate MatchesPattern(s: string) {
    exists i, j :: 0 < i < j < |s| && s[i] == '@' && s[j] == '.'
      && PatternRun(s[..i]) && PatternRun(s[i + 1..j]) && PatternRun(s[j + 1..])
  }

  /** Position of the first occurrence of `c`. */
  function IndexOf(s: string, c: char): (k: nat)
    requires c in s
    ensures k < |s| && s[k] == c && c !in s[..k]
  {
    if s[0] == c then 0 else 1 + IndexOf(s[1..], c)
  }

  /** The address read as the handler's test decides it: no white space,
      exactly one `@` (the first `@` has none after it), a non-empty local
      part, and a `.` in the domain that is neither its first nor its last
      character. */
  predicate IsValidEmail(s: string) {
    && NoSpace(s)
    && '@' in s
    && var k := IndexOf(s, '@');
    && var domain := s[k + 1..];
    && k > 0
    && '@' !in domain
    && |domain| >= 3
    && '.' in domain[1..|domain| - 1]
  }

  /** The direct reading agrees with the regular expression on every
      string, in both directions. */
  lemma ValidEmailIffPattern(s: string)
    ensures IsValidEmail(s) <==> MatchesPattern(s)
  {
    if IsValidEmail(s) {
      ValidEmailMatches(s);
    }
    if MatchesPattern(s) {
      var i, j :| 0 < i < j < |s| && s[i] == '@' && s[j] == '.'
        && PatternRun(s[..i]) && PatternRun(s[i + 1..j]) && PatternRun(s[j + 1..]);
      PatternIsValid(s, i, j);
    }
  }

  lemma ValidEmailMatches(s: string)
    requires IsValidEmail(s)
    ensures MatchesPattern(s)
  {
    var k := IndexOf(s, '@');
    var domain := s[k + 1..];
    var inner := domain[1..|domain| - 1];
    var m' :| 0 <= m' < |inner| && inner[m'] == '.';
    var m := m' + 1;
    var j := k + 1 + m;
    assert s[j] == '.';
    forall x | 0 <= x < k ensures PatternChar(s[..k][x]) {
      assert s[..k][x] == s[x];
      assert s[x] != '@' by { assert s[x] == s[..k][x]; }
    }
    var middle, last := s[k + 1..j], s[j + 1..];
    forall x | 0 <= x < |middle| ensures PatternChar(middle[x]) {
      assert middle[x] == domain[x];
    }
    forall x | 0 <= x < |last| ensures PatternChar(last[x]) {
      assert last[x] == domain[m + 1 + x];
    }
    assert PatternRun(s[..k]) && PatternRun(s[k + 1..j]) && PatternRun(s[j + 1..]);
  }

  lemma PatternIsValid(s: string, i: int, j: int)
    requires 0 < i < j < |s| && s[i] == '@' && s[j] == '.'
    requires PatternRun(s[..i]) && PatternRun(s[i + 1..j]) && PatternRun(s[j + 1..])
    ensures IsValidEmail(s)
  {
    forall x | 0 <= x < |s| ensures !IsSpace(s[x]) {
      if x < i {
        assert s[x] == s[..i][x];
      } else if i < x < j {
        assert s[x] == s[i + 1..j][x - (i + 1)];
      } else if j < x {
        assert s[x] == s[j + 1..][x - (j + 1)];
      }
    }
    var k := IndexOf(s, '@');
    assert k == i;
    var domain := s[k + 1..];
    assert domain == s[i + 1..j] + ['.'] + s[j + 1..];
    forall x | 0 <= x < |domain| ensures domain[x] != '@' {
      if x < j - (i + 1) {
        assert domain[x] == s[i + 1..j][x];
      } else if x > j - (i + 1) {
        assert domain[x] == s[j + 1..][x - (j - i)];
      }
    }
    assert domain[1..|domain| - 1][j - i - 2] == '.';
  }

  /** A run of `[^\s@]*`, possibly empty. */
  predicate AllPattern(s: string) {
    forall i :: 0 <= i < |s| ==> PatternChar(s[i])
  }

  /** States of the deterministic automaton for the pattern. `Domain`:
      inside the domain, no usable `.` yet; `DotSeen`: just read a `.`
      that may separate the domain; `Complete`: a separating `.` with at
      least one character after it has been read. */
  datatype EmailState = Start | Local | AfterAt | Domain | DotSeen | Complete | Dead

  function Step(q: EmailState, c: char): EmailState {
    if IsSpace(c) then Dead
    else match q
      case Start => if c == '@' then Dead else Local
      case Local => if c == '@' then AfterAt else Local
      case AfterAt => if c == '@' then Dead else Domain
      case Domain => if c == '@' then Dead else if c == '.' then DotSeen else Domain
      case DotSeen => if c == '@' then Dead else Complete
      case Complete => if c == '@' then Dead else Complete
      case Dead => Dead
  }

  function Run(q: EmailState, s: string): EmailState
    decreases |s|
  {
    if s == [] then q else Run(Step(q, s[0]), s[1..])
  }

  /** The handler's `emailRegex.test(...)`, run as the automaton. */
  predicate EmailAccepted(s: string) {
    Run(Start, s) == Complete
  }

  /** What is left to read from `Domain`: a `.` with `[^\s@]*` before it
      and `[^\s@]+` after it. */
  ghost predicate DomainRest(s: string) {
    exists j :: 0 <= j < |s| && s[j] == '.' && AllPattern(s[..j]) && PatternRun(s[j + 1..])
  }

  /** What is left to read after the `@`: `[^\s@]+\.[^\s@]+`. */
  ghost predicate AfterAtRest(s: string) {
    exists j :: 0 < j < |s| && s[j] == '.' && PatternRun(s[..j]) && PatternRun(s[j + 1..])
  }

  /** What is left to read inside the local part: `[^\s@]*@` and then
      the domain. */
  ghost predicate LocalRest(s: string) {
    exists i :: 0 <= i < |s| && s[i] == '@' && AllPattern(s[..i]) && AfterAtRest(s[i + 1..])
  }

  lemma {:induction false} DeadStays(s: string)
    ensures Run(Dead, s) == Dead
    decreases |s|
  {
    if s != [] { DeadStays(s[1..]); }
  }

  lemma {:induction false} CompleteAccepts(s: string)
    ensures Run(Complete, s) == Complete <==> AllPattern(s)
    decreases |s|
  {
    if s != [] {
      if PatternChar(s[0]) {
        CompleteAccepts(s[1..]);
        assert AllPattern(s) <==> AllPattern(s[1..]) by {
          if AllPattern(s[1..]) {
            forall i | 0 <= i < |s| ensures PatternChar(s[i]) {
              if i > 0 { assert s[i] == s[1..][i - 1]; }
            }
          }
        }
      } else {
        DeadStays(s[1..]);
      }
    }
  }

  lemma DotSeenAccepts(s: string)
    ensures Run(DotSeen, s) == Complete <==> PatternRun(s)
  {
    if s != [] {
      if PatternChar(s[0]) {
        CompleteAccepts(s[1..]);
        assert AllPattern(s) <==> AllPattern(s[1..]) by {
          if AllPattern(s[1..]) {
            forall i | 0 <= i < |s| ensures PatternChar(s[i]) {
              if i > 0 { assert s[i] == s[1..][i - 1]; }
            }
          }
        }
      } else {
        DeadStays(s[1..]);
      }
    }
  }

  lemma {:induction false} DomainAccepts(s: string)
    ensures Run(Domain, s) == Complete <==> DomainRest(s)
    decreases |s|
  {
    if s == [] {
    } else if !PatternChar(s[0]) {
      DeadStays(s[1..]);
    } else if s[0] == '.' {
      DotSeenAccepts(s[1..]);
      DomainAtDot(s);
    } else {
      DomainAccepts(s[1..]);
      if DomainRest(s) { DomainShiftOut(s); }
      if DomainRest(s[1..]) { DomainShiftIn(s); }
    }
  }

  /** After a `.` the rest of the domain completes the address exactly
      when it is a run of `[^\s@]+` (the `.` may be the separating one). */
  lemma DomainAtDot(s: string)
    requires s != [] && s[0] == '.'
    ensures DomainRest(s) <==> PatternRun(s[1..])
  {
    var t := s[1..];
    if DomainRest(s) && !PatternRun(t) {
      var j :| 0 <= j < |s| && s[j] == '.' && AllPattern(s[..j]) && PatternRun(s[j + 1..]);
      assert j > 0;
      PatternRunSplit(t, j - 1, s[..j], s[j + 1..]);
    }
    if PatternRun(t) {
      assert AllPattern(s[..0]);
      assert s[0 + 1..] == t;
    }
  }

  lemma DomainShiftOut(s: string)
    requires s != [] && PatternChar(s[0]) && s[0] != '.' && DomainRest(s)
    ensures DomainRest(s[1..])
  {
    var t := s[1..];
    var j :| 0 <= j < |s| && s[j] == '.' && AllPattern(s[..j]) && PatternRun(s[j + 1..]);
    assert j > 0;
    var before, longer := t[..j - 1], s[..j];
    assert AllPattern(before) by {
      forall x | 0 <= x < |before| ensures PatternChar(before[x]) { assert before[x] == longer[x + 1]; }
    }
    assert PatternRun(t[j..]) by { assert t[j..] == s[j + 1..]; }
    assert t[j - 1] == '.';
  }

  lemma DomainShiftIn(s: string)
    requires s != [] && PatternChar(s[0]) && DomainRest(s[1..])
    ensures DomainRest(s)
  {
    var t := s[1..];
    var j :| 0 <= j < |t| && t[j] == '.' && AllPattern(t[..j]) && PatternRun(t[j + 1..]);
    var longer, before := s[..j + 1], t[..j];
    assert AllPattern(longer) by {
      forall x | 0 <= x < |longer| ensures PatternChar(longer[x]) {
        if x > 0 { assert longer[x] == before[x - 1]; }
      }
    }
    assert PatternRun(s[j + 2..]) by { assert s[j + 2..] == t[j + 1..]; }
    assert s[j + 1] == '.';
  }

  /** A run of `[^\s@]*`, a `.` and a run of `[^\s@]+` glued together, after
      a leading pattern character, is itself a run of `[^\s@]+`. */
  lemma PatternRunSplit(t: string, k: int, before: string, after: string)
    requires 0 <= k < |t| && t[k] == '.'
    requires |before| == k + 1 && AllPattern(before) && before[1..] == t[..k]
    requires after == t[k + 1..] && PatternRun(after)
    ensures PatternRun(t)
  {
    forall x | 0 <= x < |t| ensures PatternChar(t[x]) {
      if x < k { assert t[x] == before[x + 1]; }
      else if x > k { assert t[x] == after[x - k - 1]; }
    }
  }

  /** A prefix of length `n` is a `[^\s@]*` run exactly when its first
      character is a pattern character and the rest of it is one too. */
  lemma AllPatternCons(s: string, n: int)
    requires 0 < n <= |s|
    ensures AllPattern(s[..n]) <==> PatternChar(s[0]) && AllPattern(s[1..][..n - 1])
  {
    var longer, shorter := s[..n], s[1..][..n - 1];
    assert longer[0] == s[0];
    if PatternChar(s[0]) && AllPattern(shorter) {
      forall x | 0 <= x < |longer| ensures PatternChar(longer[x]) {
        if x > 0 { assert longer[x] == shorter[x - 1]; }
      }
    }
    if AllPattern(longer) {
      forall x | 0 <= x < |shorter| ensures PatternChar(shorter[x]) {
        assert shorter[x] == longer[x + 1];
      }
    }
  }

  lemma AfterAtFromDomain(s: string)
    requires s != [] && PatternChar(s[0]) && DomainRest(s[1..])
    ensures AfterAtRest(s)
  {
    var t := s[1..];
    var j :| 0 <= j < |t| && t[j] == '.' && AllPattern(t[..j]) && PatternRun(t[j + 1..]);
    AllPatternCons(s, j + 1);
    assert s[j + 1] == '.' && s[j + 2..] == t[j + 1..];
  }

  lemma DomainFromAfterAt(s: string)
    requires AfterAtRest(s)
    ensures s != [] && PatternChar(s[0]) && DomainRest(s[1..])
  {
    var t := s[1..];
    var j :| 0 < j < |s| && s[j] == '.' && PatternRun(s[..j]) && PatternRun(s[j + 1..]);
    AllPatternCons(s, j);
    assert t[j - 1] == '.' && t[j..] == s[j + 1..];
  }

  lemma AfterAtAccepts(s: string)
    ensures Run(AfterAt, s) == Complete <==> AfterAtRest(s)
  {
    if AfterAtRest(s) {
      DomainFromAfterAt(s);
      DomainAccepts(s[1..]);
    } else if s != [] {
      if PatternChar(s[0]) {
        DomainAccepts(s[1..]);
        if DomainRest(s[1..]) { AfterAtFromDomain(s); }
      } else {
        DeadStays(s[1..]);
      }
    }
  }

  lemma LocalShiftIn(s: string)
    requires s != [] && PatternChar(s[0]) && LocalRest(s[1..])
    ensures LocalRest(s)
  {
    var t := s[1..];
    var i :| 0 <= i < |t| && t[i] == '@' && AllPattern(t[..i]) && AfterAtRest(t[i + 1..]);
    assert AllPattern(s[..i + 1]) by { AllPatternCons(s, i + 1); }
    assert AfterAtRest(s[i + 2..]) by { assert s[i + 2..] == t[i + 1..]; }
    assert s[i + 1] == '@';
  }

  lemma LocalShiftOut(s: string)
    requires LocalRest(s) && s[0] != '@'
    ensures PatternChar(s[0]) && LocalRest(s[1..])
  {
    var t := s[1..];
    var i :| 0 <= i < |s| && s[i] == '@' && AllPattern(s[..i]) && AfterAtRest(s[i + 1..]);
    assert i > 0;
    var before, longer := t[..i - 1], s[..i];
    assert PatternChar(s[0]) by { assert s[0] == longer[0]; }
    assert AllPattern(before) by {
      forall x | 0 <= x < |before| ensures PatternChar(before[x]) { assert before[x] == longer[x + 1]; }
    }
    assert AfterAtRest(t[i..]) by { assert t[i..] == s[i + 1..]; }
    assert t[i - 1] == '@';
  }

  lemma LocalAtSign(s: string)
    requires s != [] && s[0] == '@'
    ensures LocalRest(s) <==> AfterAtRest(s[1..])
  {
    if LocalRest(s) {
      var i :| 0 <= i < |s| && s[i] == '@' && AllPattern(s[..i]) && AfterAtRest(s[i + 1..]);
      if i > 0 { AllPatternCons(s, i); }
    }
    assert AllPattern(s[..0]);
  }

  lemma {:induction false} LocalAccepts(s: string)
    ensures Run(Local, s) == Complete <==> LocalRest(s)
    decreases |s|
  {
    if s == [] {
    } else if s[0] == '@' {
      AfterAtAccepts(s[1..]);
      LocalAtSign(s);
    } else {
      if LocalRest(s) { LocalShiftOut(s); }
      if PatternChar(s[0]) {
        LocalAccepts(s[1..]);
        if LocalRest(s[1..]) { LocalShiftIn(s); }
      } else {
        DeadStays(s[1..]);
      }
    }
  }

  lemma PatternFromLocal(s: string)
    requires s != [] && PatternChar(s[0]) && LocalRest(s[1..])
    ensures MatchesPattern(s)
  {
    LocalShiftIn(s);
    var i :| 0 <= i < |s| && s[i] == '@' && AllPattern(s[..i]) && AfterAtRest(s[i + 1..]);
    assert i > 0;
    MatchFromSplit(s, i);
  }

  lemma MatchFromSplit(s: string, i: int)
    requires 0 < i < |s| && s[i] == '@' && AllPattern(s[..i]) && AfterAtRest(s[i + 1..])
    ensures MatchesPattern(s)
  {
    var d := s[i + 1..];
    var j :| 0 < j < |d| && d[j] == '.' && PatternRun(d[..j]) && PatternRun(d[j + 1..]);
    assert s[i + 1..i + 1 + j] == d[..j] && s[i + 1 + j] == '.' && s[i + 2 + j..] == d[j + 1..];
  }

  lemma LocalFromPattern(s: string)
    requires MatchesPattern(s)
    ensures s != [] && PatternChar(s[0]) && LocalRest(s[1..])
  {
    var t := s[1..];
    var i, j :| 0 < i < j < |s| && s[i] == '@' && s[j] == '.'
      && PatternRun(s[..i]) && PatternRun(s[i + 1..j]) && PatternRun(s[j + 1..]);
    AllPatternCons(s, i);
    var d := s[i + 1..];
    assert d[j - i - 1] == '.' && d[..j - i - 1] == s[i + 1..j] && d[j - i..] == s[j + 1..];
    assert AfterAtRest(d);
    assert t[i - 1] == '@' && t[i..] == d;
  }

  /** The automaton accepts exactly the strings the regular expression
      matches. */
  lemma AutomatonMatchesPattern(s: string)
    ensures EmailAccepted(s) <==> MatchesPattern(s)
  {
    if MatchesPattern(s) {
      LocalFromPattern(s);
      LocalAccepts(s[1..]);
    } else if s != [] {
      if PatternChar(s[0]) {
        LocalAccepts(s[1..]);
        if LocalRest(s[1..]) { PatternFromLocal(s); }
      } else {
        DeadStays(s[1..]);
      }
    }
  }

  /** The three readings of the handler's e-mail test agree: the
      automaton, the regular expression, and the direct description. */
  lemma EmailCheckIff(s: string)
    ensures EmailAccepted(s) <==> MatchesPattern(s)
    ensures EmailAccepted(s) <==> IsValidEmail(s)
  {
    AutomatonMatchesPattern(s);
    ValidEmailIffPattern(s);
  }
}
