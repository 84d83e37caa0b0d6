/** Names the pages derive from a row: the verification path and link
    (`origin + '/intern/' + code`), the route parameter the profile page
    reads back from such a path, and certificate file names. */
module Naming {
  import opened Wrappers
  import opened Text

  const InternPrefix := "/intern/"

  /** The path both the home page and the share links navigate to. */
  function VerificationPath(code: string): string {
    InternPrefix + code
  }

  /** `${window.location.origin}/intern/${code}`. */
  function VerificationUrl(origin: string, code: string): (u: string)
    ensures |u| == |origin| + |InternPrefix| + |code|
    ensures u[..|origin|] == origin && u[|origin|..|origin| + |InternPrefix|] == InternPrefix
    ensures u[|origin| + |InternPrefix|..] == code
  {
    origin + VerificationPath(code)
  }

  /** The part of a navigation target the router matches against routes:
      everything before the first `?` (query) or `#` (fragment). */
  function PathPart(target: string): (p: string)
    ensures |p| <= |target| && p == target[..|p|]
    ensures '?' !in p && '#' !in p
    ensures '?' !in target && '#' !in target ==> p == target
    ensures |p| < |target| ==> target[|p|] == '?' || target[|p|] == '#'
    decreases |target|
  {
    if target == [] || target[0] == '?' || target[0] == '#' then []
    else
      var rest := PathPart(target[1..]);
      assert target[1..][..|rest|] == target[1..|rest| + 1];
      [target[0]] + rest
  }

  /** A code the router hands back whole: one non-empty path segment with
      no query or fragment mark in it. */
  predicate Segment(code: string) {
    code != [] && '/' !in code && '?' !in code && '#' !in code
  }

  /** The `:code` parameter of the route `/intern/:code`: one non-empty
      path segment after the prefix, in the path part of the target. */
  function RouteCode(target: string): (r: Option<string>)
    ensures r.Some? ==> Segment(r.value)
    ensures r.Some? ==> |InternPrefix| + |r.value| <= |target|
    ensures r.Some? ==> VerificationPath(r.value) == target[..|InternPrefix| + |r.value|]
    ensures r.Some? && '?' !in target && '#' !in target ==> target == VerificationPath(r.value)
  {
    var path := PathPart(target);
    var n := |InternPrefix|;
    if |path| > n && path[..n] == InternPrefix && '/' !in path[n..] then
      assert path == InternPrefix + path[n..];
      Some(path[n..])
    else None
  }

  /** Reading the route back from a verification path recovers the code,
      provided the router hands the code back whole. */
  lemma RouteCodeRoundTrip(code: string)
    requires Segment(code)
    ensures RouteCode(VerificationPath(code)) == Some(code)
  {
    var p := VerificationPath(code);
    assert p[..|InternPrefix|] == InternPrefix;
    assert p[|InternPrefix|..] == code;
  }

  /** A code with a query mark in it does not come back whole: the router
      reads `/intern/A?B` as the route `/intern/A` with the query `?B`, so
      the profile page looks up `A`. */
  lemma QueryMarkCutsCode(a: string, b: string)
    requires Segment(a)
    ensures RouteCode(VerificationPath(a + "?" + b)) == Some(a)
  {
    var p, t := VerificationPath(a), VerificationPath(a + "?" + b);
    assert t == p + ("?" + b);
    PathPartStops(p, "?" + b);
    assert p[..|InternPrefix|] == InternPrefix;
    assert p[|InternPrefix|..] == a;
  }

  /** The path part of a target that starts with a mark-free path and
      continues with a query or fragment is that path. */
  lemma {:induction false} PathPartStops(path: string, tail: string)
    requires '?' !in path && '#' !in path
    requires tail != [] && (tail[0] == '?' || tail[0] == '#')
    ensures PathPart(path + tail) == path
    decreases |path|
  {
    if path != [] {
      assert (path + tail)[1..] == path[1..] + tail;
      PathPartStops(path[1..], tail);
    } else {
      assert path + tail == tail;
    }
  }

  /** The path part of a verification link (everything after the origin)
      routes back to the code it was built from, and two different codes
      never give the same link. */
  lemma VerificationUrlRoundTrip(origin: string, code: string, other: string)
    requires Segment(code)
    ensures RouteCode(VerificationUrl(origin, code)[|origin|..]) == Some(code)
    ensures other != code ==> VerificationUrl(origin, other) != VerificationUrl(origin, code)
  {
    var u := VerificationUrl(origin, code);
    assert u[|origin|..] == VerificationPath(code);
    RouteCodeRoundTrip(code);
  }

  const CertificateSuffix := "_Certificate"

  /** `${fullName.replace(/\s+/g, '_')}_Certificate${ext}`. */
  function CertificateFileName(fullName: string, ext: string): (r: string)
    ensures |r| >= |CertificateSuffix + ext|
    ensures NoSpace(r[..|r| - |CertificateSuffix + ext|])
    ensures r[|r| - |CertificateSuffix + ext|..] == CertificateSuffix + ext
  {
    var stem := Collapse(fullName);
    CollapseShape(fullName);
    assert (stem + CertificateSuffix + ext)[..|stem|] == stem;
    stem + CertificateSuffix + ext
  }

  /** A name without white space is used verbatim; a name with one
      white-space run between two words gets one `_` there. */
  lemma CertificateFileNameWords(first: string, gap: string, last: string, ext: string)
    requires NoSpace(first) && NoSpace(last)
    requires gap != [] && AllSpace(gap)
    ensures CertificateFileName(first, ext) == first + CertificateSuffix + ext
    ensures last != [] ==> CertificateFileName(first + gap + last, ext) == first + "_" + last + CertificateSuffix + ext
  {
    CollapseShape(first);
    if last != [] {
      CollapseWordRunRest(first, gap, last);
      CollapseShape(last);
    }
  }

  /** The example of the certificate download: "Jane Doe" downloads as
      `Jane_Doe_Certificate.pdf`. */
  lemma JaneDoeFileName(name: string, expected: string)
    requires name == "Jane Doe" && expected == "Jane_Doe_Certificate.pdf"
    ensures CertificateFileName(name, ".pdf") == expected
  {
    var first, gap, last := "Jane", " ", "Doe";
    assert NoSpace(first) by {
      assert !IsSpace('J') && !IsSpace('a') && !IsSpace('n') && !IsSpace('e');
    }
    assert NoSpace(last) by {
      assert !IsSpace('D') && !IsSpace('o') && !IsSpace('e');
    }
    assert AllSpace(gap);
    JaneDoeSpelling(first, gap, last);
    CertificateFileNameWords(first, gap, last, ".pdf");
  }

  lemma JaneDoeSpelling(first: string, gap: string, last: string)
    requires first == "Jane" && gap == " " && last == "Doe"
    ensures first + gap + last == "Jane Doe"
    ensures first + "_" + last + CertificateSuffix + ".pdf" == "Jane_Doe_Certificate.pdf"
  {
  }
}
