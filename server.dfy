/** One exchange of `main` (src/server.cpp:136-159): the received text is parsed and answered. */
module Server {
  import opened SeqFacts
  import opened Trimming
  import opened Streams
  import opened Request
  import opened RequestFacts
  import opened Response

  /** The response `main` sends for the received text. */
  function Respond(request: string): string {
    Route(Parse(request))
  }

  /** `parseHttpRequest` on the received text, then the routing chain. */
  method HandleRequest(clientReq: string) returns (response: string)
    ensures response == Respond(clientReq)
  {
    var httpRequest := ParseHttpRequest(clientReq);
    response := BuildResponse(httpRequest);
  }

  /** The request line `GET <uri> <version>` followed by "\r", as a client sends it. */
  function GetRequestLine(uri: string, version: string): string {
    "GET " + uri + " " + version + "\r"
  }

  /** The literals of the requests below hold no whitespace. The verifier does not read the
      character of a string literal at an unknown index, so each lemma splits on the index and
      lets it read every character off the literal. */
  lemma GetNoSpace()
    ensures "GET" != [] && NoSpace("GET")
  {
    forall i | 0 <= i < 3
      ensures !IsSpace("GET"[i])
    {
      if i == 0 {} else if i == 1 {} else {}
    }
  }

  lemma RootPathNoSpace()
    ensures "/" != [] && NoSpace("/")
  {
    assert "/"[0] == '/';
  }

  lemma EchoPrefixNoSpace()
    ensures "/echo/" != [] && NoSpace("/echo/")
  {
    forall i | 0 <= i < 6
      ensures !IsSpace("/echo/"[i])
    {
      if i == 0 {} else if i == 1 {} else if i == 2 {} else if i == 3 {} else if i == 4 {} else {}
    }
  }

  lemma UserAgentPathNoSpace()
    ensures "/user-agent" != [] && NoSpace("/user-agent")
  {
    forall i | 0 <= i < 11
      ensures !IsSpace("/user-agent"[i])
    {
      if i == 0 {} else if i == 1 {} else if i == 2 {} else if i == 3 {} else if i == 4 {} else if i == 5 {} else if i == 6 {} else if i == 7 {} else if i == 8 {} else if i == 9 {} else {}
    }
  }

  lemma UserAgentNameNoSpace()
    ensures "User-Agent" != [] && NoSpace("User-Agent")
    ensures forall i :: 0 <= i < 10 ==> "User-Agent"[i] != ':'
  {
    forall i | 0 <= i < 10
      ensures !IsSpace("User-Agent"[i]) && "User-Agent"[i] != ':'
    {
      if i == 0 {} else if i == 1 {} else if i == 2 {} else if i == 3 {} else if i == 4 {} else if i == 5 {} else if i == 6 {} else if i == 7 {} else if i == 8 {} else {}
    }
  }

  lemma NoSpaceConcat(a: string, b: string)
    requires NoSpace(a) && NoSpace(b)
    ensures NoSpace(a + b)
  {
    assert forall i :: |a| <= i < |a + b| ==> (a + b)[i] == b[i - |a|];
  }

  lemma NoNewlineConcat(a: string, b: string)
    requires NoNewline(a) && NoNewline(b)
    ensures NoNewline(a + b)
  {
    assert forall i :: |a| <= i < |a + b| ==> (a + b)[i] == b[i - |a|];
  }

  lemma NoSpaceNoNewline(a: string)
    requires NoSpace(a)
    ensures NoNewline(a)
  {
  }

  /** A GET request line splits into the method, the target and the version. */
  lemma WordsOfGetLine(uri: string, version: string)
    requires uri != [] && NoSpace(uri) && version != [] && NoSpace(version)
    ensures NoNewline(GetRequestLine(uri, version))
    ensures Words(GetRequestLine(uri, version)) == ["GET", uri, version]
  {
    GetNoSpace();
    GetLineJoined(uri, version);
    WordsOfJoined(["GET", uri, version]);
    GetLineNoNewline(uri, version);
  }

  /** The request line is the three words joined by single spaces, then "\r". */
  lemma GetLineJoined(uri: string, version: string)
    ensures GetRequestLine(uri, version) == JoinSpaced(["GET", uri, version]) + "\r"
  {
    var ws := ["GET", uri, version];
    assert ws[1..][1..] == [version];
    assert JoinSpaced(ws[1..]) == uri + " " + version;
  }

  lemma GetLineNoNewline(uri: string, version: string)
    requires NoSpace(uri) && NoSpace(version)
    ensures NoNewline(GetRequestLine(uri, version))
  {
    GetNoSpace();
    NoSpaceNoNewline("GET");
    NoSpaceNoNewline(uri);
    NoSpaceNoNewline(version);
    NoNewlineConcat("GET", " ");
    NoNewlineConcat("GET" + " ", uri);
    NoNewlineConcat("GET" + " " + uri, " ");
    NoNewlineConcat("GET" + " " + uri + " ", version);
    NoNewlineConcat("GET" + " " + uri + " " + version, "\r");
  }

  /** The request a client sends as `GET <uri> <version>`, header lines, the blank line and a
      body: what `parseHttpRequest` makes of it. */
  lemma {:induction false} ParseGet(uri: string, version: string, headerLines: seq<string>, rest: string)
    requires uri != [] && NoSpace(uri) && version != [] && NoSpace(version)
    requires forall i :: 0 <= i < |headerLines| ==> NoNewline(headerLines[i]) && headerLines[i] != "\r"
    ensures Parse(Unlines([GetRequestLine(uri, version)] + headerLines + ["\r"]) + rest) ==
      HttpRequest("GET", uri, version, HeaderMap(headerLines), Trimmed(BodyText(Lines(rest))))
  {
    WordsOfGetLine(uri, version);
    ParseOfParts(GetRequestLine(uri, version), headerLines, rest);
  }

  /** Words joined by single spaces hold no line feed when the words hold no whitespace. */
  lemma {:induction false} JoinedNoNewline(ws: seq<string>)
    requires forall i :: 0 <= i < |ws| ==> NoSpace(ws[i])
    ensures NoNewline(JoinSpaced(ws))
  {
    if |ws| == 1 {
      NoSpaceNoNewline(ws[0]);
    } else if |ws| >= 2 {
      JoinedNoNewline(ws[1..]);
      NoSpaceNoNewline(ws[0]);
      NoNewlineConcat(ws[0], " ");
      NoNewlineConcat(ws[0] + " ", JoinSpaced(ws[1..]));
    }
  }

  /** A request line of any number of words, single spaces between them and "\r" at the end. */
  lemma RequestLineOf(ws: seq<string>)
    requires forall i :: 0 <= i < |ws| ==> ws[i] != [] && NoSpace(ws[i])
    ensures NoNewline(JoinSpaced(ws) + "\r")
    ensures Words(JoinSpaced(ws) + "\r") == ws
  {
    JoinedNoNewline(ws);
    NoNewlineConcat(JoinSpaced(ws), "\r");
    WordsOfJoined(ws);
  }

  /** The method, the target and the version are the first three words of the request line, and
      "" for each word the line lacks. */
  lemma {:induction false} ParseOfWords(ws: seq<string>, headerLines: seq<string>, rest: string)
    requires forall i :: 0 <= i < |ws| ==> ws[i] != [] && NoSpace(ws[i])
    requires forall i :: 0 <= i < |headerLines| ==> NoNewline(headerLines[i]) && headerLines[i] != "\r"
    ensures Parse(Unlines([JoinSpaced(ws) + "\r"] + headerLines + ["\r"]) + rest) ==
      HttpRequest(WordAt(ws, 0), WordAt(ws, 1), WordAt(ws, 2), HeaderMap(headerLines), Trimmed(BodyText(Lines(rest))))
  {
    RequestLineOf(ws);
    ParseOfParts(JoinSpaced(ws) + "\r", headerLines, rest);
  }

  /** Words after the third change nothing: the request parses as if its line ended after the
      version. */
  lemma {:induction false} ExtraWordsIgnored(ws: seq<string>, extra: seq<string>, headerLines: seq<string>, rest: string)
    requires |ws| == 3
    requires forall i :: 0 <= i < |ws| ==> ws[i] != [] && NoSpace(ws[i])
    requires forall i :: 0 <= i < |extra| ==> extra[i] != [] && NoSpace(extra[i])
    requires forall i :: 0 <= i < |headerLines| ==> NoNewline(headerLines[i]) && headerLines[i] != "\r"
    ensures Parse(Unlines([JoinSpaced(ws + extra) + "\r"] + headerLines + ["\r"]) + rest) ==
      Parse(Unlines([JoinSpaced(ws) + "\r"] + headerLines + ["\r"]) + rest)
  {
    WordsConcatShape(ws, extra);
    ParseOfWords(ws + extra, headerLines, rest);
    ParseOfWords(ws, headerLines, rest);
    WordAtOfPrefix(ws, extra);
  }

  lemma WordsConcatShape(ws: seq<string>, extra: seq<string>)
    requires forall i :: 0 <= i < |ws| ==> ws[i] != [] && NoSpace(ws[i])
    requires forall i :: 0 <= i < |extra| ==> extra[i] != [] && NoSpace(extra[i])
    ensures forall i :: 0 <= i < |ws + extra| ==> (ws + extra)[i] != [] && NoSpace((ws + extra)[i])
  {
    var all := ws + extra;
    forall i | 0 <= i < |all|
      ensures all[i] != [] && NoSpace(all[i])
    {
      if i >= |ws| {
        assert all[i] == extra[i - |ws|];
      }
    }
  }

  lemma WordAtOfPrefix(ws: seq<string>, extra: seq<string>)
    requires |ws| == 3
    ensures WordAt(ws + extra, 0) == WordAt(ws, 0)
    ensures WordAt(ws + extra, 1) == WordAt(ws, 1)
    ensures WordAt(ws + extra, 2) == WordAt(ws, 2)
  {
  }

  /** The routing of any `GET /echo/<text>` request. */
  lemma EchoRoute(text: string, version: string, headers: map<string, string>, body: string)
    ensures Route(HttpRequest("GET", "/echo/" + text, version, headers, body)) == TextResponse(text)
  {
    var uri := "/echo/" + text;
    assert uri[..6] == "/echo/" && uri[6..] == text;
    RouteEcho(HttpRequest("GET", uri, version, headers, body));
  }

  /** `GET /` is answered with the bare 200 status line, whatever the headers and the body. */
  lemma {:induction false} RootEndToEnd(version: string, headerLines: seq<string>, rest: string)
    requires version != [] && NoSpace(version)
    requires forall i :: 0 <= i < |headerLines| ==> NoNewline(headerLines[i]) && headerLines[i] != "\r"
    ensures Respond(Unlines([GetRequestLine("/", version)] + headerLines + ["\r"]) + rest) ==
      "HTTP/1.1 200 OK\r\n\r\n"
  {
    RootPathNoSpace();
    ParseGet("/", version, headerLines, rest);
    RouteRoot(HttpRequest("GET", "/", version, HeaderMap(headerLines), Trimmed(BodyText(Lines(rest)))));
  }

  /** The parse of a `GET /echo/<text>` request. */
  lemma {:induction false} EchoParse(text: string, version: string, headerLines: seq<string>, rest: string)
    requires NoSpace(text) && version != [] && NoSpace(version)
    requires forall i :: 0 <= i < |headerLines| ==> NoNewline(headerLines[i]) && headerLines[i] != "\r"
    ensures Parse(Unlines([GetRequestLine("/echo/" + text, version)] + headerLines + ["\r"]) + rest) ==
      HttpRequest("GET", "/echo/" + text, version, HeaderMap(headerLines), Trimmed(BodyText(Lines(rest))))
  {
    EchoPrefixNoSpace();
    NoSpaceConcat("/echo/", text);
    ParseGet("/echo/" + text, version, headerLines, rest);
  }

  /** `GET /echo/<text>` is answered with `<text>`, whatever the headers and the body. */
  lemma {:induction false} EchoEndToEnd(text: string, version: string, headerLines: seq<string>, rest: string)
    requires NoSpace(text) && version != [] && NoSpace(version)
    requires forall i :: 0 <= i < |headerLines| ==> NoNewline(headerLines[i]) && headerLines[i] != "\r"
    ensures Respond(Unlines([GetRequestLine("/echo/" + text, version)] + headerLines + ["\r"]) + rest) ==
      TextResponse(text)
  {
    EchoParse(text, version, headerLines, rest);
    EchoRoute(text, version, HeaderMap(headerLines), Trimmed(BodyText(Lines(rest))));
  }

  /**
   * `GET /echo/<text>` with nothing after it, not even the line's "\r\n", is answered with all
   * of `<text>`. Since NUL is not whitespace, this is also what happens when `main` pads such a
   * request with NULs: they become part of `<text>` and are echoed.
   */
  lemma {:induction false} EchoUnterminated(text: string)
    requires NoSpace(text)
    ensures Respond("GET " + "/echo/" + text) == TextResponse(text)
  {
    var uri := "/echo/" + text;
    var line := "GET" + (" " + uri);
    assert "GET " + "/echo/" + text == line;
    EchoPrefixNoSpace();
    NoSpaceConcat("/echo/", text);
    WordsOfBareGet(uri);
    ParseOfOneLine(line);
    EchoRoute(text, "", map[], "");
  }

  /** `GET <uri>` alone on a line is two words and no line feed. */
  lemma WordsOfBareGet(uri: string)
    requires uri != [] && NoSpace(uri)
    ensures NoNewline("GET" + (" " + uri)) && Words("GET" + (" " + uri)) == ["GET", uri]
  {
    GetNoSpace();
    WordsConsSpace("GET", uri);
    assert uri + [] == uri;
    WordsCons(uri, []);
    NoSpaceNoNewline("GET");
    NoSpaceNoNewline(uri);
    NoNewlineConcat(" ", uri);
    NoNewlineConcat("GET", " " + uri);
  }

  /** A text of one line without its line feed is a request line and nothing else. */
  lemma ParseOfOneLine(line: string)
    requires line != [] && NoNewline(line)
    ensures var ws := Words(line);
      Parse(line) == HttpRequest(WordAt(ws, 0), WordAt(ws, 1), WordAt(ws, 2), map[], "")
  {
    IndexOfIs(line, '\n', |line|);
    assert Lines(line) == [line];
    assert Trimmed("") == "";
  }

  /** The header line a client sends for its user agent. */
  function UserAgentLine(agent: string): string {
    "User-Agent" + ":" + (" " + agent + "\r")
  }

  /** A User-Agent line names the header "User-Agent" and holds the agent, trimmed. */
  lemma UserAgentLineFields(agent: string)
    requires Unpadded(agent)
    ensures NamesHeader(UserAgentLine(agent), "User-Agent")
    ensures HeaderValue(UserAgentLine(agent)) == agent
  {
    UserAgentNameNoSpace();
    HeaderLineFields("User-Agent", " " + agent + "\r");
    TrimmedNoSpace("User-Agent");
    PaddedAgent(agent);
  }

  lemma PaddedAgent(agent: string)
    requires Unpadded(agent)
    ensures Trimmed(" " + agent + "\r") == agent
  {
    TrimmedOfPadded(" ", agent, "\r");
  }

  /** A User-Agent line is a single line, not the blank one. */
  lemma UserAgentLineShape(agent: string)
    requires NoNewline(agent)
    ensures NoNewline(UserAgentLine(agent)) && UserAgentLine(agent) != "\r"
  {
    UserAgentNameNoSpace();
    NoSpaceNoNewline("User-Agent");
    NoNewlineConcat("User-Agent", ":");
    NoNewlineConcat(" ", agent);
    NoNewlineConcat(" " + agent, "\r");
    NoNewlineConcat("User-Agent" + ":", " " + agent + "\r");
    assert |UserAgentLine(agent)| > 1;
  }

  /** Lines before, the User-Agent line and lines after: each is a single line, not the blank one. */
  lemma HeaderBlockShape(before: seq<string>, line: string, after: seq<string>)
    requires forall i :: 0 <= i < |before| ==> NoNewline(before[i]) && before[i] != "\r"
    requires NoNewline(line) && line != "\r"
    requires forall i :: 0 <= i < |after| ==> NoNewline(after[i]) && after[i] != "\r"
    ensures var hs := before + [line] + after;
      forall i :: 0 <= i < |hs| ==> NoNewline(hs[i]) && hs[i] != "\r"
  {
    var hs := before + [line] + after;
    forall i | 0 <= i < |hs|
      ensures NoNewline(hs[i]) && hs[i] != "\r"
    {
      if i < |before| {
        assert hs[i] == before[i];
      } else if i > |before| {
        assert hs[i] == after[i - |before| - 1];
      }
    }
  }

  /** The routing of any `GET /user-agent` request. */
  lemma UserAgentRoute(version: string, headers: map<string, string>, body: string)
    ensures var response := Route(HttpRequest("GET", "/user-agent", version, headers, body));
      ("User-Agent" in headers ==> response == TextResponse(headers["User-Agent"])) &&
      ("User-Agent" !in headers ==>
         response == TextHead + "0\r\n\r\n")
  {
    RouteUserAgent(HttpRequest("GET", "/user-agent", version, headers, body));
    EmptyTextResponse();
  }

  /** The parse of a `GET /user-agent` request. */
  lemma {:induction false} UserAgentParse(version: string, headerLines: seq<string>, rest: string)
    requires version != [] && NoSpace(version)
    requires forall i :: 0 <= i < |headerLines| ==> NoNewline(headerLines[i]) && headerLines[i] != "\r"
    ensures Parse(Unlines([GetRequestLine("/user-agent", version)] + headerLines + ["\r"]) + rest) ==
      HttpRequest("GET", "/user-agent", version, HeaderMap(headerLines), Trimmed(BodyText(Lines(rest))))
  {
    UserAgentPathNoSpace();
    ParseGet("/user-agent", version, headerLines, rest);
  }

  lemma NoLaterLineNames(before: seq<string>, line: string, after: seq<string>, name: string)
    requires forall i :: 0 <= i < |after| ==> !NamesHeader(after[i], name)
    ensures var hs := before + [line] + after;
      forall j :: |before| < j < |hs| ==> !NamesHeader(hs[j], name)
  {
    var hs := before + [line] + after;
    forall j | |before| < j < |hs|
      ensures !NamesHeader(hs[j], name)
    {
      assert hs[j] == after[j - |before| - 1];
    }
  }

  /** The User-Agent line, with no later line naming the header, sets the header to the agent. */
  lemma {:induction false} UserAgentHeader(before: seq<string>, agent: string, after: seq<string>)
    requires Unpadded(agent)
    requires forall i :: 0 <= i < |after| ==> !NamesHeader(after[i], "User-Agent")
    ensures var h := HeaderMap(before + [UserAgentLine(agent)] + after);
      "User-Agent" in h && h["User-Agent"] == agent
  {
    var hs := before + [UserAgentLine(agent)] + after;
    UserAgentLineFields(agent);
    assert hs[|before|] == UserAgentLine(agent);
    NoLaterLineNames(before, UserAgentLine(agent), after, "User-Agent");
    HeaderLastWins(hs, |before|, "User-Agent");
  }

  /** `GET /user-agent` is answered with the agent of the last User-Agent line. */
  lemma {:induction false} UserAgentEndToEnd(version: string, before: seq<string>, agent: string, after: seq<string>, rest: string)
    requires version != [] && NoSpace(version)
    requires Unpadded(agent) && NoNewline(agent)
    requires forall i :: 0 <= i < |before| ==> NoNewline(before[i]) && before[i] != "\r"
    requires forall i :: 0 <= i < |after| ==> NoNewline(after[i]) && after[i] != "\r"
    requires forall i :: 0 <= i < |after| ==> !NamesHeader(after[i], "User-Agent")
    ensures var hs := before + [UserAgentLine(agent)] + after;
      Respond(Unlines([GetRequestLine("/user-agent", version)] + hs + ["\r"]) + rest) == TextResponse(agent)
  {
    var hs := before + [UserAgentLine(agent)] + after;
    UserAgentLineShape(agent);
    HeaderBlockShape(before, UserAgentLine(agent), after);
    UserAgentParse(version, hs, rest);
    UserAgentHeader(before, agent, after);
    UserAgentRoute(version, HeaderMap(hs), Trimmed(BodyText(Lines(rest))));
  }

  /** `GET /user-agent` without any User-Agent line is answered with an empty text body. */
  lemma {:induction false} MissingUserAgentEndToEnd(version: string, headerLines: seq<string>, rest: string)
    requires version != [] && NoSpace(version)
    requires forall i :: 0 <= i < |headerLines| ==> NoNewline(headerLines[i]) && headerLines[i] != "\r"
    requires forall i :: 0 <= i < |headerLines| ==> !NamesHeader(headerLines[i], "User-Agent")
    ensures Respond(Unlines([GetRequestLine("/user-agent", version)] + headerLines + ["\r"]) + rest) ==
      TextHead + "0\r\n\r\n"
  {
    UserAgentParse(version, headerLines, rest);
    HeaderPresentIff(headerLines, "User-Agent");
    UserAgentRoute(version, HeaderMap(headerLines), Trimmed(BodyText(Lines(rest))));
  }
}
