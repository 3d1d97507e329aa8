/** What `parseHttpRequest` promises about the request it builds (src/server.cpp:38-74). */
module RequestFacts {
  import opened SeqFacts
  import opened Trimming
  import opened Streams
  import opened Request

  /** An empty input has no lines: every field of the request stays empty. */
  lemma ParseEmpty()
    ensures Parse("") == EmptyRequest
  {
    assert Lines("") == [];
    assert HeaderLines([]) == [];
  }

  /** The request-line fields, the header names and values and the body are all trimmed; the
      three request-line fields hold no whitespace at all. */
  lemma ParseFieldsTrimmed(request: string)
    ensures var r := Parse(request);
      NoSpace(r.httpMethod) && NoSpace(r.uri) && NoSpace(r.version) && Unpadded(r.body)
    ensures var h := Parse(request).headers;
      forall name :: name in h ==> Unpadded(name) && Unpadded(h[name])
  {
    var all := Lines(request);
    var ws := FirstLineWords(all);
    if all != [] {
      WordsShape(all[0]);
    }
    assert forall i :: 0 <= i < |ws| ==> NoSpace(ws[i]);
    WordAtNoSpace(ws, 0);
    WordAtNoSpace(ws, 1);
    WordAtNoSpace(ws, 2);
    TrimmedShape(BodyText(AfterHeaders(AfterFirst(all))));
    HeaderMapTrimmed(HeaderLines(AfterFirst(all)));
  }

  lemma WordAtNoSpace(ws: seq<string>, i: nat)
    requires forall j :: 0 <= j < |ws| ==> NoSpace(ws[j])
    ensures NoSpace(WordAt(ws, i))
  {
  }

  /** Every header name and value is the result of `trim`. */
  lemma {:induction false} HeaderMapTrimmed(ls: seq<string>)
    ensures forall name :: name in HeaderMap(ls) ==> Unpadded(name) && Unpadded(HeaderMap(ls)[name])
  {
    if ls != [] {
      var line := ls[|ls| - 1];
      HeaderMapTrimmed(ls[..|ls| - 1]);
      AddHeaderTrimmed(HeaderMap(ls[..|ls| - 1]), line);
    }
  }

  /** A header line stores a trimmed name and a trimmed value. */
  lemma AddHeaderTrimmed(headers: map<string, string>, line: string)
    requires forall name :: name in headers ==> Unpadded(name) && Unpadded(headers[name])
    ensures forall name :: name in AddHeader(headers, line) ==>
      Unpadded(name) && Unpadded(AddHeader(headers, line)[name])
  {
    if IsHeaderLine(line) {
      TrimmedShape(line[..IndexOf(line, ':')]);
      TrimmedShape(line[IndexOf(line, ':') + 1..]);
    }
  }

  /** Some line of `ls` is a header line naming `name`. */
  predicate SomeLineNames(ls: seq<string>, name: string) {
    exists j :: 0 <= j < |ls| && NamesHeader(ls[j], name)
  }

  lemma SomeLineNamesSnoc(ls: seq<string>, name: string)
    requires ls != []
    ensures SomeLineNames(ls, name) <==>
      SomeLineNames(ls[..|ls| - 1], name) || NamesHeader(ls[|ls| - 1], name)
  {
    var init := ls[..|ls| - 1];
    if SomeLineNames(init, name) {
      var j :| 0 <= j < |init| && NamesHeader(init[j], name);
      SomeLineNamesAt(ls, j, name, init[j]);
    }
    if SomeLineNames(ls, name) {
      var j :| 0 <= j < |ls| && NamesHeader(ls[j], name);
      if j < |init| {
        SomeLineNamesAt(init, j, name, ls[j]);
      } else {
        assert j == |ls| - 1;
      }
    }
  }

  /** A line naming the header, found at index `j`, is a witness. */
  lemma SomeLineNamesAt(ls: seq<string>, j: nat, name: string, line: string)
    requires j < |ls| && ls[j] == line && NamesHeader(line, name)
    ensures SomeLineNames(ls, name)
  {
  }

  /** A header is present exactly when some header line names it. */
  lemma {:induction false} HeaderPresentIff(ls: seq<string>, name: string)
    ensures name in HeaderMap(ls) <==> SomeLineNames(ls, name)
  {
    if ls != [] {
      var init := ls[..|ls| - 1];
      HeaderPresentIff(init, name);
      SomeLineNamesSnoc(ls, name);
      assert HeaderMap(ls) == AddHeader(HeaderMap(init), ls[|ls| - 1]);
    }
  }

  /** Of several lines naming the same header, the last one sets its value. */
  lemma {:induction false} HeaderLastWins(ls: seq<string>, k: nat, name: string)
    requires k < |ls| && NamesHeader(ls[k], name)
    requires forall j :: k < j < |ls| ==> !NamesHeader(ls[j], name)
    ensures name in HeaderMap(ls) && HeaderMap(ls)[name] == HeaderValue(ls[k])
    decreases |ls|
  {
    var init := ls[..|ls| - 1];
    if k < |ls| - 1 {
      assert forall j :: k < j < |init| ==> init[j] == ls[j];
      HeaderLastWins(init, k, name);
    }
  }

  /** A line `n:v` where `n` holds no colon names the header `trim(n)` with the value `trim(v)`;
      a colon inside `v` is part of the value. */
  lemma HeaderLineFields(n: string, v: string)
    requires forall i :: 0 <= i < |n| ==> n[i] != ':'
    ensures IsHeaderLine(n + ":" + v)
    ensures HeaderName(n + ":" + v) == Trimmed(n) && HeaderValue(n + ":" + v) == Trimmed(v)
  {
    var line := n + ":" + v;
    assert forall i :: 0 <= i < |n| ==> line[i] == n[i];
    IndexOfIs(line, ':', |n|);
    assert line[..|n|] == n;
    assert line[|n| + 1..] == v;
  }

  /** The lines of a request written as a request line, header lines, the blank line "\r" and
      then any text. */
  lemma LinesOfParts(requestLine: string, headerLines: seq<string>, rest: string)
    requires NoNewline(requestLine)
    requires forall i :: 0 <= i < |headerLines| ==> NoNewline(headerLines[i])
    ensures Lines(Unlines([requestLine] + headerLines + ["\r"]) + rest) ==
      [requestLine] + (headerLines + (["\r"] + Lines(rest)))
  {
    var ls := [requestLine] + headerLines + ["\r"];
    forall l | l in ls
      ensures NoNewline(l)
    {
      var k :| 0 <= k < |ls| && ls[k] == l;
      if 0 < k <= |headerLines| {
        assert l == headerLines[k - 1];
      }
    }
    LinesOfUnlines(ls, rest);
    ConcatAssoc([requestLine], headerLines, ["\r"], Lines(rest));
  }

  /** Header lines followed by the blank line "\r" and more lines: the header lines end at the
      blank line. */
  lemma HeaderLinesOf(headerLines: seq<string>, more: seq<string>)
    requires forall i :: 0 <= i < |headerLines| ==> headerLines[i] != "\r"
    ensures HeaderLines(headerLines + (["\r"] + more)) == headerLines
    ensures AfterHeaders(headerLines + (["\r"] + more)) == more
  {
    var after := headerLines + (["\r"] + more);
    assert forall j :: 0 <= j < |headerLines| ==> after[j] == headerLines[j];
    TerminatorIndexIs(after, |headerLines|);
    assert after[..|headerLines|] == headerLines;
    assert after[|headerLines| + 1..] == more;
  }

  /**
   * A request written as a request line, header lines, the blank line "\r" and then any text:
   * the fields are the request line's first three words, the headers are those of the header
   * lines alone, and the body comes from the text after the blank line only.
   */
  lemma ParseOfParts(requestLine: string, headerLines: seq<string>, rest: string)
    requires NoNewline(requestLine)
    requires forall i :: 0 <= i < |headerLines| ==> NoNewline(headerLines[i]) && headerLines[i] != "\r"
    ensures var ws := Words(requestLine);
      Parse(Unlines([requestLine] + headerLines + ["\r"]) + rest) ==
      HttpRequest(WordAt(ws, 0), WordAt(ws, 1), WordAt(ws, 2),
                  HeaderMap(headerLines), Trimmed(BodyText(Lines(rest))))
  {
    LinesOfParts(requestLine, headerLines, rest);
    var after := headerLines + (["\r"] + Lines(rest));
    var all := [requestLine] + after;
    assert all[0] == requestLine && all[1..] == after;
    HeaderLinesOf(headerLines, Lines(rest));
  }

  /** Without a blank line every line after the request line is a header line and the body is
      empty. */
  lemma ParseWithoutBlankLine(requestLine: string, headerLines: seq<string>)
    requires NoNewline(requestLine)
    requires forall i :: 0 <= i < |headerLines| ==> NoNewline(headerLines[i]) && headerLines[i] != "\r"
    ensures var ws := Words(requestLine);
      Parse(Unlines([requestLine] + headerLines)) ==
      HttpRequest(WordAt(ws, 0), WordAt(ws, 1), WordAt(ws, 2), HeaderMap(headerLines), "")
  {
    var ls := [requestLine] + headerLines;
    assert forall l :: l in ls ==> NoNewline(l);
    LinesOfUnlines(ls, "");
    assert Unlines(ls) + "" == Unlines(ls);
    assert Lines("") == [];
    assert ls + [] == ls;
    assert ls[0] == requestLine && ls[1..] == headerLines;
    TerminatorIndexIs(headerLines, |headerLines|);
    assert HeaderLines(headerLines) == headerLines;
    assert Trimmed("") == "";
  }

  /** Words separated by single spaces, and the request line's closing "\r", split back into
      exactly those words. */
  lemma {:induction false} WordsOfJoined(ws: seq<string>)
    requires forall i :: 0 <= i < |ws| ==> ws[i] != [] && NoSpace(ws[i])
    ensures Words(JoinSpaced(ws) + "\r") == ws
  {
    if ws == [] {
      WordsOfSpace("\r");
    } else if |ws| == 1 {
      WordsOfSingle(ws[0]);
    } else {
      WordsOfJoined(ws[1..]);
      WordsOfJoinedStep(ws);
    }
  }

  lemma WordsOfSingle(w: string)
    requires w != [] && NoSpace(w)
    ensures Words(JoinSpaced([w]) + "\r") == [w]
  {
    WordsCons(w, "\r");
    WordsOfSpace("\r");
  }

  lemma WordsOfJoinedStep(ws: seq<string>)
    requires |ws| >= 2 && ws[0] != [] && NoSpace(ws[0])
    requires Words(JoinSpaced(ws[1..]) + "\r") == ws[1..]
    ensures Words(JoinSpaced(ws) + "\r") == ws
  {
    JoinSpacedCons(ws);
    WordsConsSpace(ws[0], JoinSpaced(ws[1..]) + "\r");
    assert [ws[0]] + ws[1..] == ws;
  }

  lemma JoinSpacedCons(ws: seq<string>)
    requires |ws| >= 2
    ensures JoinSpaced(ws) + "\r" == ws[0] + (" " + (JoinSpaced(ws[1..]) + "\r"))
  {
    ConcatAssoc(ws[0], " ", JoinSpaced(ws[1..]), "\r");
  }

  /** A word, a space and the rest split into the word and the words of the rest. */
  lemma WordsConsSpace(w: string, tail: string)
    requires w != [] && NoSpace(w)
    ensures Words(w + (" " + tail)) == [w] + Words(tail)
  {
    WordsCons(w, " " + tail);
    WordsAfterSpace(" ", tail);
  }

  /** The non-empty lines of `ls`, in order. */
  function NonEmptyLines(ls: seq<string>): seq<string> {
    if ls == [] then []
    else NonEmptyLines(ls[..|ls| - 1]) + (if ls[|ls| - 1] != "" then [ls[|ls| - 1]] else [])
  }

  lemma {:induction false} UnlinesSnoc(ls: seq<string>, l: string)
    ensures Unlines(ls + [l]) == Unlines(ls) + l + "\n"
  {
    if ls != [] {
      assert (ls + [l])[1..] == ls[1..] + [l];
      UnlinesSnoc(ls[1..], l);
    }
  }

  /** Before the final `trim`, the body is the non-empty lines, each followed by '\n'. */
  lemma {:induction false} BodyTextIsUnlines(ls: seq<string>)
    ensures BodyText(ls) == Unlines(NonEmptyLines(ls))
  {
    if ls != [] {
      var init, line := ls[..|ls| - 1], ls[|ls| - 1];
      BodyTextIsUnlines(init);
      var prior := NonEmptyLines(init);
      if line != "" {
        assert NonEmptyLines(ls) == prior + [line];
        assert BodyText(ls) == BodyText(init) + (line + "\n");
        UnlinesSnoc(prior, line);
        assert Unlines(prior) + line + "\n" == Unlines(prior) + (line + "\n");
      } else {
        assert NonEmptyLines(ls) == prior + [];
        assert prior + [] == prior;
      }
    }
  }

  /** A trailing '\n' vanishes in `trim`. */
  lemma TrimmedNewline(s: string)
    ensures Trimmed(s + "\n") == Trimmed(s)
  {
    TrimmedShape(s);
    var i, j :| 0 <= i <= j <= |s| && AllSpace(s[..i]) && Trimmed(s) == s[i..j] && AllSpace(s[j..]);
    AllSpaceConcat(s[j..], "\n");
    TrimmedOfPadded(s[..i], s[i..j], s[j..] + "\n");
    AppendToSplit(s, i, j, "\n");
  }

  /** A body without blank lines comes through unchanged, apart from the trimming. */
  lemma BodyOfText(b: string)
    requires forall i :: 0 <= i < |Lines(b)| ==> Lines(b)[i] != ""
    ensures Trimmed(BodyText(Lines(b))) == Trimmed(b)
  {
    NonEmptyLinesOfFull(Lines(b));
    BodyTextIsUnlines(Lines(b));
    UnlinesOfLines(b);
    if b != [] && b[|b| - 1] != '\n' {
      TrimmedNewline(b);
    }
  }

  lemma {:induction false} NonEmptyLinesOfFull(ls: seq<string>)
    requires forall i :: 0 <= i < |ls| ==> ls[i] != ""
    ensures NonEmptyLines(ls) == ls
  {
    if ls != [] {
      var init := ls[..|ls| - 1];
      assert forall i :: 0 <= i < |init| ==> init[i] == ls[i];
      NonEmptyLinesOfFull(init);
      assert init + [ls[|ls| - 1]] == ls;
    }
  }
}
