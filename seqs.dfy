/*
 * Generic facts about sequences and their multisets, shared by the proofs
 * of the other modules.
 */
module Seqs {

  /** A non-empty sequence is its prefix followed by its last element. */
  lemma LastSplit<T>(s: seq<T>)
    requires s != []
    ensures s[..|s| - 1] + [s[|s| - 1]] == s[..|s|] == s
  {
  }

  /** The prefix one longer than `s[..i]` is `s[..i]` followed by `s[i]`. */
  lemma PrefixLast<T>(s: seq<T>, i: nat)
    requires i < |s|
    ensures |s[..i + 1]| == i + 1 && s[..i + 1][..i] == s[..i] && s[..i + 1][i] == s[i]
    ensures s[..i + 1] == s[..i] + [s[i]]
  {
  }

  lemma AppendEmpty<T>(s: seq<T>)
    ensures s + [] == s
  {
  }

  /** The elements of a non-empty sequence are those of its prefix and its last element. */
  lemma Members<T>(s: seq<T>)
    requires s != []
    ensures forall x :: x in s <==> x in s[..|s| - 1] || x == s[|s| - 1]
  {
    assert s == s[..|s| - 1] + [s[|s| - 1]];
  }

  /** Cutting a sequence in two and joining the halves gives it back. */
  lemma SplitJoin<T>(s: seq<T>, m: nat)
    requires m <= |s|
    ensures s[..m] + s[m..] == s
  {
  }

  /** Cutting a sequence in two splits its multiset. */
  lemma SplitAt<T>(s: seq<T>, m: nat)
    requires m <= |s|
    ensures multiset(s[..m]) + multiset(s[m..]) == multiset(s)
  {
    assert s == s[..m] + s[m..];
  }

  /** Appending one element to exactly one of three lists that split `s` gives three lists that split `s + [x]`. */
  lemma AddToOne<T>(e: seq<T>, t: seq<T>, d: seq<T>, s: seq<T>, x: T, e': seq<T>, t': seq<T>, d': seq<T>)
    requires multiset(e) + multiset(t) + multiset(d) == multiset(s)
    requires || (e' == e + [x] && t' == t && d' == d)
             || (e' == e && t' == t + [x] && d' == d)
             || (e' == e && t' == t && d' == d + [x])
    ensures multiset(e') + multiset(t') + multiset(d') == multiset(s + [x])
  {
  }

  /** Where the last element of `a` sits in a permutation `b` of `a`, and what is left of `b` without it. */
  lemma MatchLast<T>(a: seq<T>, b: seq<T>) returns (j: nat)
    requires a != [] && multiset(a) == multiset(b)
    ensures j < |b| && b[j] == a[|a| - 1]
    ensures multiset(b[..j] + b[j + 1..]) == multiset(a[..|a| - 1])
  {
    var n := |a| - 1;
    assert a[n] in multiset(b);
    j :| 0 <= j < |b| && b[j] == a[n];
    calc {
      multiset(b[..j] + b[j + 1..]);
      { assert b == b[..j] + [b[j]] + b[j + 1..]; }
      multiset(b) - multiset{a[n]};
      { assert a == a[..n] + [a[n]]; }
      multiset(a[..n]);
    }
  }

  /** A sub-multiset of each part, with one element kept or skipped between them, is a sub-multiset of the whole. */
  lemma SubJoin<T>(a: seq<T>, x: seq<T>, b: seq<T>, y: seq<T>, u: T, skip: bool, r: seq<T>, w: seq<T>)
    requires multiset(a) <= multiset(x) && multiset(b) <= multiset(y)
    requires r == a + (if skip then [] else [u] + b) && w == x + ([u] + y)
    ensures multiset(r) <= multiset(w)
  {
  }
}
