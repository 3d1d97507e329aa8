/** Facts about sequence concatenation, kept generic so that proofs about strings stay cheap. */
module SeqFacts {

  lemma ConsConcat<T>(x: seq<T>, y: seq<T>)
    requires x != []
    ensures [x[0]] + (x[1..] + y) == x + y
  {
  }

  lemma SplitThree<T>(s: seq<T>, b: nat, e: nat)
    requires b <= e <= |s|
    ensures s == s[..b] + (s[b..e] + s[e..])
  {
  }

  lemma SlicesOfSuffix<T>(s: seq<T>, p: nat, a: nat)
    requires p + a <= |s|
    ensures s[p..][..a] == s[p..p + a]
    ensures s[p..][a..] == s[p + a..]
  {
  }

  lemma ConsAt<T>(x: T, xs: seq<T>, s: seq<T>, i: nat)
    requires i <= |s| && [x] + xs == s[i..]
    ensures i < |s| && x == s[i] && xs == s[i + 1..]
  {
    assert ([x] + xs)[0] == x;
    assert ([x] + xs)[1..] == xs;
  }

  lemma ConcatAssoc<T>(a: seq<T>, b: seq<T>, c: seq<T>, d: seq<T>)
    ensures a + b + c + d == a + (b + (c + d))
  {
  }

  lemma SplitAround<T>(s: seq<T>, e: nat)
    requires e < |s|
    ensures s == s[..e] + [s[e]] + s[e + 1..]
  {
  }

  lemma AppendToSplit<T>(s: seq<T>, b: nat, e: nat, x: seq<T>)
    requires b <= e <= |s|
    ensures s[..b] + s[b..e] + (s[e..] + x) == s + x
  {
    SplitThree(s, b, e);
  }

  /** The slices of a four-part concatenation. */
  lemma FourParts<T>(a: seq<T>, b: seq<T>, c: seq<T>, d: seq<T>)
    ensures var s := a + b + c + d;
      s[..|a|] == a && s[|a|..] == b + c + d && (b + c + d)[..|b|] == b &&
      s[|a| + |b|..|a| + |b| + |c|] == c && s[|a| + |b| + |c|..] == d
  {
    var s := a + b + c + d;
    assert s[|a|..] == b + c + d;
  }

  lemma SuffixOfConcat<T>(a: seq<T>, b: seq<T>, k: nat)
    requires k <= |b|
    ensures (a + b)[|a| + k..] == b[k..]
  {
  }
}
