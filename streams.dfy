/**
 * The two `std::istringstream` extractions `parseHttpRequest` relies on: `std::getline`, which
 * splits at line feeds, and `operator>>` into a `std::string`, which splits at whitespace.
 */
module Streams {
  import opened Trimming
  import opened SeqFacts

  /** Index of the first `c` in `s`, or `|s|` when there is none (`std::string::find`, with
      `std::string::npos` read as `|s|`). */
  function IndexOf(s: string, c: char): (r: nat)
    ensures r <= |s|
    ensures r < |s| ==> s[r] == c
    ensures forall i :: 0 <= i < r ==> s[i] != c
  {
    if s == [] || s[0] == c then 0 else 1 + IndexOf(s[1..], c)
  }

  /** Length of the run of non-whitespace characters that starts `s`. */
  function WordLength(s: string): (n: nat)
    ensures n <= |s|
    ensures forall i :: 0 <= i < n ==> !IsSpace(s[i])
    ensures n < |s| ==> IsSpace(s[n])
  {
    if s == [] || IsSpace(s[0]) then 0 else 1 + WordLength(s[1..])
  }

  /** `s` holds no line feed. */
  predicate NoNewline(s: string) {
    forall i :: 0 <= i < |s| ==> s[i] != '\n'
  }

  /**
   * The lines `std::getline` yields from `s` until it fails: the text is cut at every '\n',
   * the '\n' is dropped, a '\r' before it stays in the line, and the text after the last
   * '\n' is a line only when it is not empty. The empty text has no lines.
   */
  function Lines(s: string): seq<string>
    decreases |s|
  {
    if s == [] then []
    else
      var e := IndexOf(s, '\n');
      if e < |s| then [s[..e]] + Lines(s[e + 1..]) else [s]
  }

  /** Each line followed by '\n': what a sequence of lines looks like as text. */
  function Unlines(ls: seq<string>): string {
    if ls == [] then "" else ls[0] + "\n" + Unlines(ls[1..])
  }

  /** The words `operator>>` yields from `s` until it fails: the maximal runs of non-whitespace. */
  function Words(s: string): seq<string>
    decreases |s|
  {
    var b := LeadingSpace(s);
    if b == |s| then []
    else
      var t := s[b..];
      var w := WordLength(t);
      [t[..w]] + Words(t[w..])
  }

  lemma IndexOfIs(s: string, c: char, n: nat)
    requires n <= |s| && forall i :: 0 <= i < n ==> s[i] != c
    requires n < |s| ==> s[n] == c
    ensures IndexOf(s, c) == n
  {
  }

  lemma WordLengthIs(s: string, n: nat)
    requires n <= |s| && forall i :: 0 <= i < n ==> !IsSpace(s[i])
    requires n < |s| ==> IsSpace(s[n])
    ensures WordLength(s) == n
  {
  }

  /** No line that `getline` yields contains a line feed. */
  lemma {:induction false} LinesHaveNoNewline(s: string)
    ensures forall i :: 0 <= i < |Lines(s)| ==> NoNewline(Lines(s)[i])
    decreases |s|
  {
    if s != [] {
      var e := IndexOf(s, '\n');
      if e < |s| {
        LinesHaveNoNewline(s[e + 1..]);
      }
    }
  }

  /** Rejoining the lines gives the text back, with a '\n' added when the text did not end in one. */
  lemma {:induction false} UnlinesOfLines(s: string)
    ensures Unlines(Lines(s)) == WithFinalNewline(s)
    decreases |s|
  {
    if s != [] {
      var e := IndexOf(s, '\n');
      if e < |s| {
        UnlinesOfLines(s[e + 1..]);
        UnlinesOfLinesStep(s, e);
      } else {
        var ls := Lines(s);
        assert ls == [s];
        assert ls[1..] == [];
      }
    }
  }

  /** The text with a '\n' added when it does not already end in one. */
  function WithFinalNewline(s: string): string {
    if s == [] || s[|s| - 1] == '\n' then s else s + "\n"
  }

  lemma UnlinesOfLinesStep(s: string, e: nat)
    requires e == IndexOf(s, '\n') < |s|
    requires Unlines(Lines(s[e + 1..])) == WithFinalNewline(s[e + 1..])
    ensures Unlines(Lines(s)) == WithFinalNewline(s)
  {
    var line, rest := s[..e], s[e + 1..];
    var head := line + "\n";
    assert s == head + rest by {
      SplitAround(s, e);
      assert [s[e]] == "\n";
    }
    assert Lines(s) == [line] + Lines(rest);
    UnlinesCons(line, Lines(rest));
    WithFinalNewlineAfter(head, rest);
  }

  lemma UnlinesCons(l: string, ls: seq<string>)
    ensures Unlines([l] + ls) == l + "\n" + Unlines(ls)
  {
    assert ([l] + ls)[1..] == ls;
  }

  lemma WithFinalNewlineAfter(head: string, rest: string)
    requires head != [] && head[|head| - 1] == '\n'
    ensures WithFinalNewline(head + rest) == head + WithFinalNewline(rest)
  {
    if rest != [] {
      assert (head + rest)[|head + rest| - 1] == rest[|rest| - 1];
      assert head + rest + "\n" == head + (rest + "\n");
    }
  }

  /** A line followed by '\n' is the first line `getline` yields. */
  lemma LinesOfLineThen(l: string, tail: string)
    requires NoNewline(l)
    ensures Lines(l + "\n" + tail) == [l] + Lines(tail)
  {
    var s := l + "\n" + tail;
    assert forall i :: 0 <= i < |l| ==> s[i] == l[i];
    IndexOfIs(s, '\n', |l|);
    assert s[..|l|] == l;
    assert s[|l| + 1..] == tail;
  }

  lemma UnlinesStep(ls: seq<string>, rest: string)
    requires ls != [] && NoNewline(ls[0])
    ensures Lines(Unlines(ls) + rest) == [ls[0]] + Lines(Unlines(ls[1..]) + rest)
  {
    var tail := Unlines(ls[1..]) + rest;
    assert Unlines(ls) + rest == ls[0] + "\n" + tail;
    LinesOfLineThen(ls[0], tail);
  }

  /** Splitting text that starts with complete lines yields those lines first. */
  lemma {:induction false} LinesOfUnlines(ls: seq<string>, rest: string)
    requires forall l :: l in ls ==> NoNewline(l)
    ensures Lines(Unlines(ls) + rest) == ls + Lines(rest)
  {
    if ls == [] {
      assert Unlines(ls) + rest == rest;
    } else {
      UnlinesStep(ls, rest);
      LinesOfUnlines(ls[1..], rest);
      ConsConcat(ls, Lines(rest));
    }
  }

  /** Every word `>>` yields is non-empty and free of whitespace. */
  lemma {:induction false} WordsShape(s: string)
    ensures forall i :: 0 <= i < |Words(s)| ==> Words(s)[i] != [] && NoSpace(Words(s)[i])
    decreases |s|
  {
    var b := LeadingSpace(s);
    if b < |s| {
      var t := s[b..];
      var w := WordLength(t);
      WordsShape(t[w..]);
      assert t[0] == s[b];
      WordsConsShape(t[..w], Words(t[w..]));
    }
  }

  lemma WordsConsShape(word: string, rest: seq<string>)
    requires word != [] && NoSpace(word)
    requires forall i :: 0 <= i < |rest| ==> rest[i] != [] && NoSpace(rest[i])
    ensures var ws := [word] + rest; forall i :: 0 <= i < |ws| ==> ws[i] != [] && NoSpace(ws[i])
  {
    var ws := [word] + rest;
    forall i | 0 < i < |ws|
      ensures ws[i] == rest[i - 1]
    {
    }
  }

  /** Text of whitespace only holds no word. */
  lemma WordsOfSpace(pad: string)
    requires AllSpace(pad)
    ensures Words(pad) == []
  {
    LeadingSpaceIs(pad, |pad|);
  }

  /** Whitespace before a text changes none of its words. */
  lemma WordsAfterSpace(pad: string, s: string)
    requires AllSpace(pad)
    ensures Words(pad + s) == Words(s)
  {
    var x, b := pad + s, LeadingSpace(s);
    LeadingSpaceAfterPad(pad, s);
    SuffixOfConcat(pad, s, b);
    if b < |s| {
      var t := s[b..];
      assert x[LeadingSpace(x)..] == t;
      var w := WordLength(t);
      assert Words(x) == [t[..w]] + Words(t[w..]);
    }
  }

  lemma LeadingSpaceAfterPad(pad: string, s: string)
    requires AllSpace(pad)
    ensures LeadingSpace(pad + s) == |pad| + LeadingSpace(s)
  {
    var x := pad + s;
    var b := LeadingSpace(s);
    forall i | 0 <= i < |pad| + b
      ensures IsSpace(x[i])
    {
      if i >= |pad| {
        assert x[i] == s[i - |pad|];
      }
    }
    if |pad| + b < |x| {
      assert x[|pad| + b] == s[b];
    }
    LeadingSpaceIs(x, |pad| + b);
  }

  /** A word ended by whitespace or by the end of the text is the first word `>>` yields; with
      WordsAfterSpace and WordsOfSpace this determines `Words` on every text. */
  lemma WordsCons(w: string, rest: string)
    requires w != [] && NoSpace(w)
    requires rest == [] || IsSpace(rest[0])
    ensures Words(w + rest) == [w] + Words(rest)
  {
    var s := w + rest;
    assert s[0] == w[0];
    LeadingSpaceIs(s, 0);
    assert s[0..] == s;
    WordLengthIs(s, |w|);
    assert s[..|w|] == w;
    assert s[|w|..] == rest;
  }

  /** The first line of the text from position `p` on ends at the first '\n' after `p`, or at
      the end of the text. */
  lemma LinesSplitAt(text: string, p: nat, e: nat)
    requires p < |text| && p <= e <= |text|
    requires forall i :: p <= i < e ==> text[i] != '\n'
    requires e < |text| ==> text[e] == '\n'
    ensures e < |text| ==> Lines(text[p..]) == [text[p..e]] + Lines(text[e + 1..])
    ensures e == |text| ==> Lines(text[p..]) == [text[p..]]
  {
    var rest := text[p..];
    forall i | 0 <= i < e - p
      ensures rest[i] != '\n'
    {
      assert rest[i] == text[p + i];
    }
    IndexOfIs(rest, '\n', e - p);
    if e < |text| {
      SlicesOfSuffix(text, p, e - p);
      SlicesOfSuffix(text, p, e - p + 1);
    }
  }

  /** `WordsOfSpace` for the text from position `p` on. */
  lemma WordsOfSpaceAt(text: string, p: nat)
    requires p <= |text| && forall i :: p <= i < |text| ==> IsSpace(text[i])
    ensures Words(text[p..]) == []
  {
    var rest := text[p..];
    assert forall i :: 0 <= i < |rest| ==> rest[i] == text[p + i];
    WordsOfSpace(rest);
  }

  /** The first word of the text from position `p` on starts after its leading whitespace and
      ends at the next whitespace or at the end. */
  lemma WordsSplitAt(text: string, p: nat, b: nat, e: nat)
    requires p <= b < e <= |text|
    requires forall i :: p <= i < b ==> IsSpace(text[i])
    requires forall i :: b <= i < e ==> !IsSpace(text[i])
    requires e < |text| ==> IsSpace(text[e])
    ensures Words(text[p..]) == [text[b..e]] + Words(text[e..])
  {
    var pad, word, after := text[p..b], text[b..e], text[e..];
    assert text[p..] == pad + (word + after);
    forall i | 0 <= i < |pad|
      ensures IsSpace(pad[i])
    {
      assert pad[i] == text[p + i];
    }
    forall i | 0 <= i < |word|
      ensures !IsSpace(word[i])
    {
      assert word[i] == text[b + i];
    }
    WordsAfterSpace(pad, word + after);
    WordsCons(word, after);
  }

  /** What is left of `s` once `>>` has skipped its leading whitespace and extracted `word`. */
  function AfterWord(s: string, word: string): string {
    var k := LeadingSpace(s) + |word|;
    if k <= |s| then s[k..] else []
  }

  /** After the leading whitespace and a word, `>>` stops right at the character after the word. */
  lemma RestAfterWord(text: string, p: nat, b: nat, e: nat)
    requires p <= b < e <= |text|
    requires forall i :: p <= i < b ==> IsSpace(text[i])
    requires !IsSpace(text[b])
    ensures text[e..] == AfterWord(text[p..], text[b..e])
  {
    var r := text[p..];
    assert forall i :: 0 <= i < b - p ==> r[i] == text[p + i];
    assert r[b - p] == text[b];
    LeadingSpaceIs(r, b - p);
  }

  /**
   * An `std::istringstream` over `text`, read from position `pos` on. Its error state is not
   * kept: every extraction that fails here does so at the end of the text, so the next one
   * fails as well.
   */
  class StringStream {
    const text: string
    var pos: nat

    ghost predicate Valid()
      reads this
    {
      pos <= |text|
    }

    /** The text not yet extracted. */
    ghost function Rest(): string
      reads this
      requires Valid()
    {
      text[pos..]
    }

    constructor (s: string)
      ensures Valid() && text == s && Rest() == s
    {
      text := s;
      pos := 0;
    }

    /** `std::getline(stream, line)`: fails only when nothing is left; otherwise extracts the
        next line and consumes its '\n'. */
    method GetLine() returns (ok: bool, line: string)
      requires Valid()
      modifies this
      ensures Valid()
      ensures ok == (old(Rest()) != [])
      ensures ok ==> [line] + Lines(Rest()) == Lines(old(Rest()))
      ensures !ok ==> line == [] && Rest() == []
    {
      if pos == |text| {
        return false, [];
      }
      var e := pos;
      while e < |text| && text[e] != '\n'
        invariant pos <= e <= |text|
        invariant forall i :: pos <= i < e ==> text[i] != '\n'
      {
        e := e + 1;
      }
      LinesSplitAt(text, pos, e);
      line := text[pos..e];
      assert e == |text| ==> line == text[pos..];
      pos := if e < |text| then e + 1 else e;
      ok := true;
    }

    /** `stream >> word`: skips whitespace, fails when that reaches the end, and otherwise
        extracts the maximal run of non-whitespace that follows, leaving the character after it. */
    method ReadWord() returns (ok: bool, word: string)
      requires Valid()
      modifies this
      ensures Valid()
      ensures ok == (Words(old(Rest())) != [])
      ensures ok ==> [word] + Words(Rest()) == Words(old(Rest()))
      ensures ok ==> Rest() == AfterWord(old(Rest()), word)
      ensures !ok ==> word == [] && Rest() == []
    {
      ghost var p0 := pos;
      while pos < |text| && IsSpace(text[pos])
        invariant p0 <= pos <= |text|
        invariant forall i :: p0 <= i < pos ==> IsSpace(text[i])
      {
        pos := pos + 1;
      }
      if pos == |text| {
        WordsOfSpaceAt(text, p0);
        return false, [];
      }
      var e := pos;
      while e < |text| && !IsSpace(text[e])
        invariant pos <= e <= |text|
        invariant forall i :: pos <= i < e ==> !IsSpace(text[i])
      {
        e := e + 1;
      }
      WordsSplitAt(text, p0, pos, e);
      RestAfterWord(text, p0, pos, e);
      word := text[pos..e];
      pos := e;
      ok := true;
    }
  }
}
