/** Facts about sequences that the other modules quote. */
module Seqs {

  function Map<T, U>(f: T -> U, s: seq<T>): (r: seq<U>)
    ensures |r| == |s|
    ensures forall i :: 0 <= i < |s| ==> r[i] == f(s[i])
  {
    seq(|s|, i requires 0 <= i < |s| => f(s[i]))
  }

  lemma Assoc<T>(a: seq<T>, b: seq<T>, c: seq<T>)
    ensures a + b + c == a + (b + c)
  {
  }

  lemma SplitAt<T>(s: seq<T>, p: nat)
    requires p <= |s|
    ensures s == s[..p] + s[p..]
  {
  }

  lemma SplitAround<T>(s: seq<T>, p: nat)
    requires p < |s|
    ensures s == s[..p] + [s[p]] + s[p + 1..]
  {
  }

  lemma SplitLast<T>(s: seq<T>)
    requires s != []
    ensures s == s[..|s| - 1] + [s[|s| - 1]]
  {
  }

  lemma SplitFirst<T>(s: seq<T>)
    requires s != []
    ensures s == [s[0]] + s[1..]
  {
  }

  lemma InsertAtEnd<T>(s: seq<T>, x: T)
    ensures s[..|s|] + [x] + s[|s|..] == s + [x]
  {
  }

  /** Inserting before the last element is inserting in what precedes it. */
  lemma InsertInFront<T>(s: seq<T>, p: nat, x: T)
    requires p < |s|
    ensures s[..|s| - 1][..p] + [x] + s[..|s| - 1][p..] + [s[|s| - 1]] == s[..p] + [x] + s[p..]
  {
    assert s[p..] == s[..|s| - 1][p..] + [s[|s| - 1]];
    assert s[..|s| - 1][..p] == s[..p];
  }

  /** Removing after the first element is removing from what follows it. */
  lemma RemoveInTail<T>(s: seq<T>, q: nat)
    requires q < |s| - 1
    ensures [s[0]] + (s[1..][..q] + s[1..][q + 1..]) == s[..q + 1] + s[q + 2..]
  {
    assert s[..q + 1] == [s[0]] + s[1..][..q];
    assert s[1..][q + 1..] == s[q + 2..];
  }

  /** Moving a cut n further along. */
  lemma CutFurther<T>(s: seq<T>, a: nat, n: nat)
    requires a + n <= |s|
    ensures s[..a + n] == s[..a] + s[a..][..n]
    ensures s[a + n..] == s[a..][n..]
  {
  }

  /** An element at the end stays behind the cut. */
  lemma SplitSnoc<T>(s: seq<T>, n: nat, x: T)
    requires n <= |s|
    ensures (s + [x])[..n] == s[..n] && (s + [x])[n..] == s[n..] + [x]
  {
  }

  lemma PrefixCancel<T>(a: seq<T>, b: seq<T>, c: seq<T>)
    requires a + b <= a + c
    ensures b <= c
  {
    assert forall i :: 0 <= i < |b| ==> (a + b)[|a| + i] == b[i] && (a + c)[|a| + i] == c[i];
  }

  lemma MultisetCons<T>(x: T, s: seq<T>)
    ensures multiset([x] + s) == multiset(s) + multiset{x}
  {
  }

  lemma MultisetAppend<T>(a: seq<T>, b: seq<T>)
    ensures multiset(a + b) == multiset(a) + multiset(b)
  {
  }

  /** An element in front of both sides of a split. */
  lemma MultisetUnder<T>(x: T, s: seq<T>, a: seq<T>, b: seq<T>)
    requires multiset(s) == multiset(a) + multiset(b)
    ensures multiset([x] + s) == multiset(a) + multiset([x] + b)
  {
    MultisetCons(x, s);
    MultisetCons(x, b);
  }

  lemma MultisetSize<T>(s: seq<T>)
    ensures |multiset(s)| == |s|
  {
  }
}
