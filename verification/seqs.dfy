/** Sequence identities the string proofs use, stated once for any element
    type so that each is proved away from white-space facts. */
module Seqs {
  lemma TailOfSnoc<T>(a: seq<T>, c: T)
    requires a != []
    ensures (a + [c])[1..] == a[1..] + [c]
  {
  }

  lemma AppendAssoc<T>(x: seq<T>, y: seq<T>, z: seq<T>)
    ensures x + (y + z) == (x + y) + z
  {
  }

  lemma SuffixOfTail<T>(s: seq<T>, i: int)
    requires 0 < i <= |s|
    ensures s[1..][i - 1..] == s[i..]
  {
  }

  lemma PrefixSnoc<T>(s: seq<T>, i: int)
    requires 0 <= i < |s|
    ensures s[..i + 1] == s[..i] + [s[i]]
  {
  }

  lemma SplitLast<T>(w: seq<T>, g: seq<T>)
    requires g != []
    ensures w + g == (w + g[..|g| - 1]) + [g[|g| - 1]]
  {
  }

  lemma SlicesOfSuffix<T>(s: seq<T>, i: int, n: int)
    requires 0 <= i && 0 <= n && i + n <= |s|
    ensures s[i..][..n] == s[i..i + n] && s[i..][n..] == s[i + n..]
  {
  }
}
