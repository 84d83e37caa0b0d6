/** String primitives shared by the pages and the request handlers: the
    JavaScript white-space class (used both by `String.prototype.trim` and
    by the `\s` regular-expression escape), `trim`, `toUpperCase`, and the
    `replace(/\s+/g, '_')` rewrite that turns a person's name into a file
    name. */
module Text {
  import opened Seqs

  /** ECMAScript WhiteSpace and LineTerminator code points: TAB, LF, VT, FF,
      CR, SPACE, NO-BREAK SPACE, OGHAM SPACE MARK, the U+2000..U+200A block,
      LINE SEPARATOR, PARAGRAPH SEPARATOR, NARROW NO-BREAK SPACE, MEDIUM
      MATHEMATICAL SPACE, IDEOGRAPHIC SPACE and the BYTE ORDER MARK. */
  predicate IsSpace(c: char) {
    || c == '\t' || c == '\n' || c == '\U{000B}' || c == '\U{000C}' || c == '\r'
    || c == ' ' || c == '\U{00A0}' || c == '\U{1680}'
    || ('\U{2000}' <= c <= '\U{200A}')
    || c == '\U{2028}' || c == '\U{2029}' || c == '\U{202F}' || c == '\U{205F}'
    || c == '\U{3000}' || c == '\U{FEFF}'
  }

  predicate AllSpace(s: string) {
    forall i :: 0 <= i < |s| ==> IsSpace(s[i])
  }

  predicate NoSpace(s: string) {
    forall i :: 0 <= i < |s| ==> !IsSpace(s[i])
  }

  /** `s.trimStart()`: the leading white-space run is dropped. */
  function TrimStart(s: string): (r: string)
    ensures |r| <= |s| && r == s[|s| - |r|..]
    ensures AllSpace(s[..|s| - |r|])
    ensures r == [] || !IsSpace(r[0])
  {
    if s != [] && IsSpace(s[0]) then
      var r := TrimStart(s[1..]);
      TrimStartStep(s, r);
      r
    else s
  }

  /** One step of `TrimStart`: a white-space character in front of a
      white-space run extends the run. */
  lemma TrimStartStep(s: string, r: string)
    requires s != [] && IsSpace(s[0]) && |r| < |s|
    requires r == s[1..][|s| - 1 - |r|..] && AllSpace(s[1..][..|s| - 1 - |r|])
    ensures r == s[|s| - |r|..] && AllSpace(s[..|s| - |r|])
  {
    var run := s[1..][..|s| - 1 - |r|];
    SuffixOfTail(s, |s| - |r|);
    forall k | 0 <= k < |s| - |r| ensures IsSpace(s[k]) {
      if k > 0 { assert s[k] == run[k - 1]; }
    }
  }

  /** `s.trimEnd()`: the trailing white-space run is dropped. */
  function TrimEnd(s: string): (r: string)
    ensures |r| <= |s| && r == s[..|r|]
    ensures AllSpace(s[|r|..])
    ensures r == [] || !IsSpace(r[|r| - 1])
  {
    if s != [] && IsSpace(s[|s| - 1]) then TrimEnd(s[..|s| - 1]) else s
  }

  /** `s.trim()`: white space dropped from both ends, so that what is left
      neither starts nor ends with white space. */
  function Trim(s: string): (r: string)
    ensures |r| <= |s|
    ensures r == [] || (!IsSpace(r[0]) && !IsSpace(r[|r| - 1]))
  {
    if s != [] && IsSpace(s[0]) then Trim(s[1..]) else TrimEnd(s)
  }

  /** `trim` is `trimStart` followed by `trimEnd`. */
  lemma {:induction false} TrimIsBothEnds(s: string)
    ensures Trim(s) == TrimEnd(TrimStart(s))
  {
    if s != [] && IsSpace(s[0]) {
      TrimIsBothEnds(s[1..]);
    }
  }

  /** What `trim` keeps is a contiguous slice of the string, and everything
      it cuts off on either side is white space. */
  lemma TrimCutsOnlySpace(s: string)
    ensures exists i, j :: CutAt(s, Trim(s), i, j)
  {
    var t := TrimStart(s);
    var r := TrimEnd(t);
    var i := |s| - |t|;
    var j := i + |r|;
    assert t == s[i..] && AllSpace(s[..i]);
    assert r == t[..|r|] && AllSpace(t[|r|..]);
    assert r == s[i..j] && t[|r|..] == s[j..] by { SlicesOfSuffix(s, i, |r|); }
    assert Trim(s) == r by { TrimIsBothEnds(s); }
    assert AllSpace(s[j..]);
    assert CutAt(s, Trim(s), i, j);
  }

  /** `r` is `s[i..j]` and only white space lies outside it. */
  predicate CutAt(s: string, r: string, i: int, j: int) {
    0 <= i <= j <= |s| && r == s[i..j] && AllSpace(s[..i]) && AllSpace(s[j..])
  }

  /** JavaScript's `!s.trim()`: the string is empty or only white space,
      read one character at a time. */
  predicate IsBlank(s: string) {
    s == [] || (IsSpace(s[0]) && IsBlank(s[1..]))
  }

  /** A string is blank exactly when trimming leaves nothing, and exactly
      when every character is white space. */
  lemma {:induction false} BlankIffAllSpace(s: string)
    ensures IsBlank(s) <==> Trim(s) == []
    ensures IsBlank(s) <==> AllSpace(s)
  {
    if s != [] {
      BlankIffAllSpace(s[1..]);
      if AllSpace(s[1..]) && IsSpace(s[0]) {
        assert AllSpace(s) by {
          forall k | 0 <= k < |s| ensures IsSpace(s[k]) {
            if k > 0 { assert s[k] == s[1..][k - 1]; }
          }
        }
      }
    }
  }

  /** One character that is not white space makes a string non-blank. */
  lemma NotBlankAt(s: string, i: int)
    requires 0 <= i < |s| && !IsSpace(s[i])
    ensures !IsBlank(s)
  {
    BlankIffAllSpace(s);
  }

  /** A string without white space at either end is its own trim. */
  lemma TrimUnpadded(s: string)
    requires s == [] || (!IsSpace(s[0]) && !IsSpace(s[|s| - 1]))
    ensures Trim(s) == s
  {
  }

  /** `toUpperCase` on one character, restricted to the ASCII letters. */
  function UpperChar(c: char): (u: char)
    ensures !('a' <= u <= 'z')
    ensures IsSpace(u) <==> IsSpace(c)
    ensures !('a' <= c <= 'z') ==> u == c
  {
    if 'a' <= c <= 'z' then (c as int - 32) as char else c
  }

  /** `s.toUpperCase()`, character by character. */
  function ToUpper(s: string): (r: string)
    ensures |r| == |s|
    ensures forall i :: 0 <= i < |s| ==> r[i] == UpperChar(s[i])
  {
    if s == [] then [] else [UpperChar(s[0])] + ToUpper(s[1..])
  }

  /** Upper-casing is idempotent and never changes which characters are
      white space, so it does not change whether a string is blank. */
  lemma ToUpperProperties(s: string)
    ensures ToUpper(ToUpper(s)) == ToUpper(s)
    ensures IsBlank(ToUpper(s)) <==> IsBlank(s)
  {
    var u := ToUpper(s);
    assert ToUpper(u) == u by {
      forall i | 0 <= i < |u| ensures ToUpper(u)[i] == u[i] {
        assert UpperChar(u[i]) == u[i];
      }
    }
    BlankIffAllSpace(s);
    BlankIffAllSpace(u);
    assert AllSpace(u) <==> AllSpace(s) by {
      forall i | 0 <= i < |s| ensures IsSpace(u[i]) <==> IsSpace(s[i]) {
        assert u[i] == UpperChar(s[i]);
      }
    }
  }

  /** `s.replace(/\s+/g, '_')`: every maximal white-space run becomes one
      underscore; every other character is kept in place. */
  function Collapse(s: string): string
    decreases |s|
  {
    if s == [] then []
    else if IsSpace(s[0]) then "_" + Collapse(TrimStart(s))
    else [s[0]] + Collapse(s[1..])
  }

  /** The rewritten name holds no white space, is never longer than the
      name, and a name without white space is left as it is. */
  lemma {:induction false} CollapseShape(s: string)
    ensures NoSpace(Collapse(s))
    ensures |Collapse(s)| <= |s|
    ensures NoSpace(s) ==> Collapse(s) == s
    decreases |s|
  {
    if s == [] {
    } else if IsSpace(s[0]) {
      var t := TrimStart(s);
      CollapseShape(t);
      var r := Collapse(s);
      assert r == "_" + Collapse(t);
      assert forall k :: 0 < k < |r| ==> r[k] == Collapse(t)[k - 1];
    } else {
      var t := s[1..];
      CollapseShape(t);
      var r := Collapse(s);
      assert r == [s[0]] + Collapse(t);
      assert forall k :: 0 < k < |r| ==> r[k] == Collapse(t)[k - 1];
      if NoSpace(s) {
        assert NoSpace(t) by {
          forall k | 0 <= k < |t| ensures !IsSpace(t[k]) {
            assert t[k] == s[k + 1];
          }
        }
      }
    }
  }

  /** Dropping the leading run of `a + [c]` drops the leading run of `a`,
      and takes `c` along too when `a` was all white space. */
  lemma {:induction false} TrimStartSnoc(a: string, c: char)
    ensures TrimStart(a + [c]) ==
      if TrimStart(a) != [] then TrimStart(a) + [c]
      else if IsSpace(c) then [] else [c]
  {
    if a == [] {
      assert a + [c] == [c];
    } else if IsSpace(a[0]) {
      TailOfSnoc(a, c);
      TrimStartSnoc(a[1..], c);
    }
  }

  /** `Collapse` as a left-to-right scan, first case: appending a
      character that is not white space appends it unchanged. */
  lemma {:induction false} CollapseSnocChar(a: string, c: char)
    requires !IsSpace(c)
    ensures Collapse(a + [c]) == Collapse(a) + [c]
    decreases |a|
  {
    if a == [] {
      assert a + [c] == [c];
      assert [c][1..] == [];
    } else if !IsSpace(a[0]) {
      CollapseSnocChar(a[1..], c);
      SnocUnderWord(a, c, [c]);
    } else if TrimStart(a) == [] {
      var b := a + [c];
      assert b[0] == a[0];
      assert TrimStart(b) == [c] by { TrimStartSnoc(a, c); }
      assert Collapse([c]) == [c] by { assert [c][1..] == []; }
      assert Collapse(b) == "_" + [c];
    } else {
      CollapseSnocChar(TrimStart(a), c);
      SnocUnderRun(a, c, [c]);
    }
  }

  /** Second case: a white-space character after the empty string or after
      a non-space character opens a new run, which shows as one `_`. */
  lemma {:induction false} CollapseSnocOpensRun(a: string, c: char)
    requires IsSpace(c)
    requires a == [] || !IsSpace(a[|a| - 1])
    ensures Collapse(a + [c]) == Collapse(a) + "_"
    decreases |a|
  {
    if a == [] {
      assert a + [c] == [c];
      assert TrimStart([c]) == TrimStart([c][1..]);
    } else if !IsSpace(a[0]) {
      if |a| > 1 { assert a[1..][|a| - 2] == a[|a| - 1]; }
      CollapseSnocOpensRun(a[1..], c);
      SnocUnderWord(a, c, "_");
    } else {
      var t := TrimStart(a);
      assert t != [] && t[|t| - 1] == a[|a| - 1];
      CollapseSnocOpensRun(t, c);
      SnocUnderRun(a, c, "_");
    }
  }

  /** The step shared by the three scan lemmas when `a` starts with a word
      character: whatever appending `c` adds to the rest of `a`, it adds to
      `a`. */
  lemma SnocUnderWord(a: string, c: char, added: string)
    requires a != [] && !IsSpace(a[0])
    requires Collapse(a[1..] + [c]) == Collapse(a[1..]) + added
    ensures Collapse(a + [c]) == Collapse(a) + added
  {
    var b := a + [c];
    assert b[0] == a[0];
    TailOfSnoc(a, c);
    assert Collapse(b) == [a[0]] + Collapse(a[1..] + [c]);
    AppendAssoc([a[0]], Collapse(a[1..]), added);
  }

  /** The same step when `a` starts with a white-space run that does not
      make up all of `a`. */
  lemma SnocUnderRun(a: string, c: char, added: string)
    requires a != [] && IsSpace(a[0]) && TrimStart(a) != []
    requires Collapse(TrimStart(a) + [c]) == Collapse(TrimStart(a)) + added
    ensures Collapse(a + [c]) == Collapse(a) + added
  {
    var b, t := a + [c], TrimStart(a);
    assert b[0] == a[0];
    assert Collapse(a) == "_" + Collapse(t);
    assert TrimStart(b) == t + [c] by { TrimStartSnoc(a, c); }
    assert Collapse(b) == "_" + Collapse(t + [c]);
    AppendAssoc("_", Collapse(t), added);
  }

  /** Third case: a white-space character that extends a run adds nothing. */
  lemma {:induction false} CollapseSnocExtendsRun(a: string, c: char)
    requires IsSpace(c)
    requires a != [] && IsSpace(a[|a| - 1])
    ensures Collapse(a + [c]) == Collapse(a)
    decreases |a|
  {
    if !IsSpace(a[0]) {
      assert a[1..][|a| - 2] == a[|a| - 1];
      CollapseSnocExtendsRun(a[1..], c);
      SnocUnderWord(a, c, []);
    } else if TrimStart(a) == [] {
      TrimStartSnoc(a, c);
    } else {
      var t := TrimStart(a);
      assert t[|t| - 1] == a[|a| - 1];
      CollapseSnocExtendsRun(t, c);
      SnocUnderRun(a, c, []);
    }
  }

  /** The one-pass scan a regular-expression engine performs for
      `replace(/\s+/g, '_')`, remembering only whether the previous
      character was white space; it computes exactly `Collapse`. */
  method CollapseScan(s: string) returns (r: string)
    ensures r == Collapse(s)
  {
    r := [];
    var inRun := false;
    var i := 0;
    while i < |s|
      invariant 0 <= i <= |s|
      invariant r == Collapse(s[..i])
      invariant inRun <==> (i > 0 && IsSpace(s[i - 1]))
    {
      var a, c := s[..i], s[i];
      PrefixSnoc(s, i);
      assert i > 0 ==> a[|a| - 1] == s[i - 1];
      if IsSpace(c) {
        if !inRun {
          CollapseSnocOpensRun(a, c);
          r := r + "_";
        } else {
          CollapseSnocExtendsRun(a, c);
        }
        inRun := true;
      } else {
        CollapseSnocChar(a, c);
        r := r + [c];
        inRun := false;
      }
      i := i + 1;
    }
    assert s[..|s|] == s;
  }

  /** Rewriting an already rewritten name changes nothing. */
  lemma CollapseIdempotent(s: string)
    ensures Collapse(Collapse(s)) == Collapse(s)
  {
    CollapseShape(s);
    CollapseShape(Collapse(s));
  }

  /** A whole white-space run, however long, becomes a single `_`. */
  lemma {:induction false} CollapseRun(g: string)
    requires g != [] && AllSpace(g)
    ensures Collapse(g) == "_"
  {
    assert TrimStart(g) == [];
  }

  /** The rewrite works run by run: a word, then a run, then the rest
      gives the word unchanged, one `_`, and the rewritten rest. Leading
      and trailing runs are not trimmed away (take `w` or `t` empty). */
  lemma {:induction false} CollapseWordRunRest(w: string, g: string, t: string)
    requires NoSpace(w)
    requires g != [] && AllSpace(g)
    requires t == [] || !IsSpace(t[0])
    ensures Collapse(w + g + t) == w + "_" + Collapse(t)
    decreases |w|
  {
    if w == [] {
      assert w + g + t == g + t;
      TrimStartOfRun(g, t);
    } else {
      assert (w + g + t)[1..] == w[1..] + g + t;
      CollapseWordRunRest(w[1..], g, t);
    }
  }

  lemma {:induction false} TrimStartOfRun(g: string, t: string)
    requires AllSpace(g)
    requires t == [] || !IsSpace(t[0])
    ensures TrimStart(g + t) == t
    decreases |g|
  {
    if g == [] {
      assert g + t == t;
      if t != [] { assert !IsSpace((g + t)[0]); }
    } else {
      assert (g + t)[1..] == g[1..] + t;
      TrimStartOfRun(g[1..], t);
    }
  }

  /** A trailing white-space run, after a string that does not already end
      in one, adds exactly one `_`. */
  lemma {:induction false} CollapseTrailingRun(w: string, g: string)
    requires w == [] || !IsSpace(w[|w| - 1])
    requires g != [] && AllSpace(g)
    ensures Collapse(w + g) == Collapse(w) + "_"
    decreases |g|
  {
    var init, c := g[..|g| - 1], g[|g| - 1];
    SplitLast(w, g);
    if init == [] {
      assert w + init == w;
      CollapseSnocOpensRun(w, c);
    } else {
      CollapseTrailingRun(w, init);
      assert (w + init)[|w + init| - 1] == init[|init| - 1];
      CollapseSnocExtendsRun(w + init, c);
    }
  }

  /** Appending one character only ever extends the rewritten string. */
  lemma CollapseSnocGrows(a: string, c: char)
    ensures Collapse(a) <= Collapse(a + [c])
  {
    if !IsSpace(c) {
      CollapseSnocChar(a, c);
    } else if a == [] || !IsSpace(a[|a| - 1]) {
      CollapseSnocOpensRun(a, c);
    } else {
      CollapseSnocExtendsRun(a, c);
    }
  }

  /** The rewrite of a prefix is a prefix of the rewrite. */
  lemma {:induction false} CollapsePrefix(s: string, i: int)
    requires 0 <= i <= |s|
    ensures Collapse(s[..i]) <= Collapse(s)
    decreases |s| - i
  {
    if i == |s| {
      assert s[..i] == s;
    } else {
      CollapsePrefix(s, i + 1);
      PrefixSnoc(s, i);
      CollapseSnocGrows(s[..i], s[i]);
    }
  }

  /** Every character that is not white space survives the rewrite
      unchanged, at the position just after the rewrite of what precedes
      it. */
  lemma CollapseKeepsChar(s: string, i: int)
    requires 0 <= i < |s| && !IsSpace(s[i])
    ensures |Collapse(s[..i])| < |Collapse(s)|
    ensures Collapse(s)[|Collapse(s[..i])|] == s[i]
  {
    var before, upto, whole := s[..i], s[..i + 1], Collapse(s);
    assert upto == before + [s[i]];
    CollapseSnocChar(before, s[i]);
    CollapsePrefix(s, i + 1);
    assert Collapse(upto) <= whole;
    assert Collapse(upto)[|Collapse(before)|] == s[i];
  }

  /** The characters of the name keep their relative order: a later
      non-white-space character lands strictly after an earlier one. */
  lemma CollapseKeepsOrder(s: string, i: int, j: int)
    requires 0 <= i < j < |s| && !IsSpace(s[i])
    ensures |Collapse(s[..i])| < |Collapse(s[..j])|
  {
    var pre := s[..j];
    assert pre[..i] == s[..i];
    CollapseKeepsChar(pre, i);
  }

  /** A word with a white-space run on each side becomes the word with a
      `_` on each side: padding is rewritten, not trimmed. */
  lemma CollapsePadded(lead: string, word: string, trail: string)
    requires lead != [] && AllSpace(lead) && trail != [] && AllSpace(trail)
    requires word != [] && NoSpace(word)
    ensures Collapse(lead + word + trail) == "_" + word + "_"
  {
    var empty: string, rest, whole := [], word + trail, lead + word + trail;
    assert empty + lead == lead;
    assert whole == empty + lead + rest;
    assert Collapse(whole) == "_" + Collapse(rest) by {
      assert rest[0] == word[0];
      CollapseWordRunRest(empty, lead, rest);
    }
    assert Collapse(rest) == word + "_" by {
      CollapseTrailingRun(word, trail);
      CollapseShape(word);
    }
  }
}
