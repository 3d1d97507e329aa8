/** Whitespace and `trim` as `src/server.cpp` uses them. */
module Trimming {
  import opened SeqFacts

  /** `std::isspace` in the C locale: space, tab, line feed, vertical tab, form feed, carriage return. */
  predicate IsSpace(c: char) {
    c == ' ' || c == '\t' || c == '\n' || c == '\U{B}' || c == '\U{C}' || c == '\r'
  }

  /** Every character of `s` is whitespace (this includes the empty string). */
  predicate AllSpace(s: string) {
    forall i :: 0 <= i < |s| ==> IsSpace(s[i])
  }

  /** Whitespace followed by whitespace is whitespace. */
  lemma AllSpaceConcat(a: string, b: string)
    requires AllSpace(a) && AllSpace(b)
    ensures AllSpace(a + b)
  {
    forall i | 0 <= i < |a + b|
      ensures IsSpace((a + b)[i])
    {
      if i >= |a| {
        assert (a + b)[i] == b[i - |a|];
      }
    }
  }

  /** No character of `s` is whitespace. */
  predicate NoSpace(s: string) {
    forall i :: 0 <= i < |s| ==> !IsSpace(s[i])
  }

  /** `s` neither begins nor ends with whitespace. */
  predicate Unpadded(s: string) {
    s == [] || (!IsSpace(s[0]) && !IsSpace(s[|s| - 1]))
  }

  /** Length of the run of whitespace that starts `s`. */
  function LeadingSpace(s: string): (n: nat)
    ensures n <= |s|
    ensures forall i :: 0 <= i < n ==> IsSpace(s[i])
    ensures n < |s| ==> !IsSpace(s[n])
  {
    if s == [] || !IsSpace(s[0]) then 0 else 1 + LeadingSpace(s[1..])
  }

  /** Length of the run of whitespace that ends `s`. */
  function TrailingSpace(s: string): (n: nat)
    ensures n <= |s|
    ensures forall i :: |s| - n <= i < |s| ==> IsSpace(s[i])
    ensures n < |s| ==> !IsSpace(s[|s| - 1 - n])
  {
    if s == [] || !IsSpace(s[|s| - 1]) then 0 else 1 + TrailingSpace(s[..|s| - 1])
  }

  /** What `trim` returns: `s` without its leading and its trailing whitespace. */
  function Trimmed(s: string): string {
    var t := s[LeadingSpace(s)..];
    t[..|t| - TrailingSpace(t)]
  }

  /** A prefix of whitespace followed by a non-space character is exactly the leading run. */
  lemma LeadingSpaceIs(s: string, n: nat)
    requires n <= |s| && forall i :: 0 <= i < n ==> IsSpace(s[i])
    requires n < |s| ==> !IsSpace(s[n])
    ensures LeadingSpace(s) == n
  {
  }

  /** A suffix of whitespace preceded by a non-space character is exactly the trailing run. */
  lemma TrailingSpaceIs(s: string, n: nat)
    requires n <= |s| && forall i :: |s| - n <= i < |s| ==> IsSpace(s[i])
    requires n < |s| ==> !IsSpace(s[|s| - 1 - n])
    ensures TrailingSpace(s) == n
  {
  }

  /**
   * `trim` (src/server.cpp:23-35): `start` walks forward over leading whitespace, then `end`
   * starts one before the end of the string and, do-while, walks back while it is strictly after
   * `start` and on whitespace. The result is the characters from `start` to `end` inclusive.
   * On the empty string `end` becomes -1 and the result is empty.
   */
  method Trim(str: string) returns (r: string)
    ensures r == Trimmed(str)
  {
    var start := 0;
    while start < |str| && IsSpace(str[start])
      invariant start <= |str|
      invariant forall i :: 0 <= i < start ==> IsSpace(str[i])
    {
      start := start + 1;
    }
    LeadingSpaceIs(str, start);
    var end: int := |str|;
    end := end - 1;
    while end - start > 0 && IsSpace(str[end])
      invariant start - 1 <= end < |str|
      invariant start < |str| ==> start <= end
      invariant forall i :: end < i < |str| ==> IsSpace(str[i])
    {
      end := end - 1;
    }
    r := str[start..end + 1];
    TrimmedIs(str, start, end + 1);
  }

  /** Where the two scans of `trim` stop determines its result. */
  lemma TrimmedIs(str: string, start: nat, stop: nat)
    requires start <= stop <= |str|
    requires LeadingSpace(str) == start
    requires forall i :: stop <= i < |str| ==> IsSpace(str[i])
    requires start < |str| ==> start < stop && !IsSpace(str[stop - 1])
    ensures Trimmed(str) == str[start..stop]
  {
    TrailingSpaceOfSuffix(str, start, stop);
    TrimmedOfRuns(str, start, stop);
  }

  lemma TrailingSpaceOfSuffix(str: string, start: nat, stop: nat)
    requires start <= stop <= |str|
    requires forall i :: stop <= i < |str| ==> IsSpace(str[i])
    requires start < stop ==> !IsSpace(str[stop - 1])
    ensures TrailingSpace(str[start..]) == |str| - stop
  {
    var t := str[start..];
    var k := |str| - stop;
    forall i | |t| - k <= i < |t|
      ensures IsSpace(t[i])
    {
      assert t[i] == str[start + i];
    }
    if k < |t| {
      assert t[|t| - 1 - k] == str[stop - 1];
    }
    TrailingSpaceIs(t, k);
  }

  /** `trim` keeps what lies between the leading and the trailing whitespace runs. */
  lemma TrimmedOfRuns(str: string, start: nat, stop: nat)
    requires start <= stop <= |str| && LeadingSpace(str) == start
    requires TrailingSpace(str[start..]) == |str| - stop
    ensures Trimmed(str) == str[start..stop]
  {
    SlicesOfSuffix(str, start, stop - start);
  }

  /** The result of `trim` is a slice of its input between an all-whitespace prefix and suffix,
      and it is itself unpadded. */
  lemma TrimmedShape(s: string)
    ensures Unpadded(Trimmed(s))
    ensures exists i, j :: 0 <= i <= j <= |s| && AllSpace(s[..i]) && Trimmed(s) == s[i..j] && AllSpace(s[j..])
  {
    var i := LeadingSpace(s);
    var t := s[i..];
    var k := TrailingSpace(t);
    var j := i + |t| - k;
    assert Trimmed(s) == s[i..j];
    assert s[j..] == t[|t| - k..];
    if i < j {
      assert Trimmed(s)[0] == s[i];
      assert Trimmed(s)[|Trimmed(s)| - 1] == t[|t| - 1 - k];
    }
  }

  /** Conversely, a string padded with whitespace on both sides trims back to itself:
      with TrimmedShape this determines `trim` completely. */
  lemma TrimmedOfPadded(pre: string, t: string, suf: string)
    requires AllSpace(pre) && Unpadded(t) && AllSpace(suf)
    ensures Trimmed(pre + t + suf) == t
  {
    var s := pre + t + suf;
    if t == [] {
      assert s == pre + suf;
      assert AllSpace(s[..|s|]) by {
        forall i | 0 <= i < |s| ensures IsSpace(s[..|s|][i]) {
          if i < |pre| { assert s[i] == pre[i]; } else { assert s[i] == suf[i - |pre|]; }
        }
      }
      LeadingSpaceIs(s, |s|);
    } else {
      assert s[..|pre|] == pre;
      assert s[|pre|] == t[0];
      LeadingSpaceIs(s, |pre|);
      var u := s[|pre|..];
      assert u == t + suf;
      assert u[|u| - |suf|..] == suf;
      assert u[|u| - 1 - |suf|] == t[|t| - 1];
      TrailingSpaceIs(u, |suf|);
      assert u[..|u| - |suf|] == t;
    }
  }

  /** `trim` yields the empty string exactly when its input is all whitespace or empty. */
  lemma TrimmedEmptyIff(s: string)
    ensures Trimmed(s) == [] <==> AllSpace(s)
  {
    if AllSpace(s) {
      assert s == s + [] + [];
      TrimmedOfPadded(s, [], []);
    } else {
      var i :| 0 <= i < |s| && !IsSpace(s[i]);
      TrimmedShape(s);
      var a, b :| 0 <= a <= b <= |s| && AllSpace(s[..a]) && Trimmed(s) == s[a..b] && AllSpace(s[b..]);
    }
  }

  /** Trimming twice is trimming once. */
  lemma TrimmedIdempotent(s: string)
    ensures Trimmed(Trimmed(s)) == Trimmed(s)
  {
    TrimmedShape(s);
    var t := Trimmed(s);
    assert t == [] + t + [];
    TrimmedOfPadded([], t, []);
  }

  /** `trim` leaves a string unchanged exactly when it has no leading or trailing whitespace. */
  lemma TrimmedFixedIff(s: string)
    ensures Trimmed(s) == s <==> Unpadded(s)
  {
    TrimmedShape(s);
    if Unpadded(s) {
      assert s == [] + s + [];
      TrimmedOfPadded([], s, []);
    }
  }

  /** A string without whitespace is unpadded, so `trim` leaves it alone. */
  lemma TrimmedNoSpace(s: string)
    requires NoSpace(s)
    ensures Trimmed(s) == s
  {
    TrimmedFixedIff(s);
  }
}
