/** The response `main` chooses for a parsed request (src/server.cpp:137-159). */
module Response {
  import opened Streams
  import opened Request
  import opened SeqFacts

  /** A character that is a decimal digit. */
  predicate IsDigit(c: char) {
    '0' <= c <= '9'
  }

  predicate AllDigits(s: string) {
    forall i :: 0 <= i < |s| ==> IsDigit(s[i])
  }

  /** The digit for `d`. */
  function Digit(d: nat): (c: char)
    requires d < 10
    ensures IsDigit(c) && c as int - '0' as int == d
  {
    ('0' as int + d) as char
  }

  /** `std::to_string` of a length: its decimal digits, most significant first, without leading
      zeros, "0" for zero. */
  function Decimal(n: nat): (s: string)
    ensures |s| >= 1 && AllDigits(s)
    ensures |s| > 1 ==> s[0] != '0'
    ensures n < 10 <==> |s| == 1
  {
    if n < 10 then [Digit(n)] else Decimal(n / 10) + [Digit(n % 10)]
  }

  /** The number a string of decimal digits denotes. */
  function DecimalValue(s: string): nat
    requires AllDigits(s)
  {
    if s == [] then 0
    else DecimalValue(s[..|s| - 1]) * 10 + (s[|s| - 1] as int - '0' as int)
  }

  /** Reading back the digits `std::to_string` wrote gives the number. */
  lemma {:induction false} DecimalRoundTrip(n: nat)
    ensures DecimalValue(Decimal(n)) == n
  {
    if n >= 10 {
      DecimalRoundTrip(n / 10);
      var s := Decimal(n);
      assert s[..|s| - 1] == Decimal(n / 10);
    }
  }

  /** Different lengths are written differently. */
  lemma DecimalInjective(m: nat, n: nat)
    requires Decimal(m) == Decimal(n)
    ensures m == n
  {
    DecimalRoundTrip(m);
    DecimalRoundTrip(n);
  }

  /** The response to `GET /`: a status line and no headers. */
  const OkEmpty := "HTTP/1.1 200 OK\r\n\r\n"

  /** The response to every other request. */
  const NotFound := "HTTP/1.1 404 Not Found\r\n\r\n"

  /** The status line and the content type of a text response. */
  const StatusAndType := "HTTP/1.1 200 OK\r\nContent-Type: text/plain\r\n"

  /** Everything of a text response before the digits of its Content-Length. */
  const TextHead := StatusAndType + "Content-Length: "

  /** A 200 response carrying `body` as plain text, announced with its length. */
  function TextResponse(body: string): string {
    TextHead + Decimal(|body|) + "\r\n\r\n" + body
  }

  /** `s.find(prefix) == 0`: the first occurrence of `prefix` is at the start. */
  predicate StartsWith(s: string, prefix: string) {
    |prefix| <= |s| && s[..|prefix|] == prefix
  }

  /** `headers[name]` read as a value: the stored value, or the empty string of a header that
      is not there. */
  function Lookup(headers: map<string, string>, name: string): string {
    if name in headers then headers[name] else ""
  }

  /** The three routes, tried in order. */
  predicate IsRoot(req: HttpRequest) {
    req.httpMethod == "GET" && req.uri == "/"
  }

  predicate IsEcho(req: HttpRequest) {
    req.httpMethod == "GET" && StartsWith(req.uri, "/echo/")
  }

  predicate IsUserAgent(req: HttpRequest) {
    req.httpMethod == "GET" && req.uri == "/user-agent"
  }

  /** The routing chain of `main` (src/server.cpp:137-159), as a function of the request. */
  function Route(req: HttpRequest): string {
    if IsRoot(req) then OkEmpty
    else if IsEcho(req) then TextResponse(req.uri[6..])
    else if IsUserAgent(req) then TextResponse(Lookup(req.headers, "User-Agent"))
    else NotFound
  }

  /** The text response as `main` builds it, one `+=` at a time: the status line and the
      content type, the Content-Length line, the blank line and the body. */
  method AppendTextResponse(resBody: string) returns (response: string)
    ensures response == TextResponse(resBody)
  {
    response := "HTTP/1.1 200 OK\r\nContent-Type: text/plain\r\n";
    response := response + ("Content-Length: " + Decimal(|resBody|));
    response := response + "\r\n\r\n";
    response := response + resBody;
    assert response == StatusAndType + ("Content-Length: " + Decimal(|resBody|)) + "\r\n\r\n" + resBody;
  }

  /** The routing chain of `main`: the first matching branch builds the response. This is the
      source's step-by-step form of `Route`. */
  method BuildResponse(req: HttpRequest) returns (response: string)
    ensures response == Route(req)
  {
    if req.httpMethod == "GET" && req.uri == "/" {
      response := "HTTP/1.1 200 OK\r\n\r\n";
    } else if req.httpMethod == "GET" && StartsWith(req.uri, "/echo/") {
      var resBody := req.uri[6..];
      response := AppendTextResponse(resBody);
    } else if req.httpMethod == "GET" && req.uri == "/user-agent" {
      var resBody := Lookup(req.headers, "User-Agent");
      response := AppendTextResponse(resBody);
    } else {
      response := "HTTP/1.1 404 Not Found\r\n\r\n";
    }
  }

  /** The three routes exclude each other, so their order does not matter. */
  lemma RoutesDisjoint(req: HttpRequest)
    ensures !(IsRoot(req) && IsEcho(req))
    ensures !(IsRoot(req) && IsUserAgent(req))
    ensures !(IsEcho(req) && IsUserAgent(req))
  {
    if IsEcho(req) {
      assert req.uri[5] == '/';
      assert "/user-agent"[5] == '-';
    }
  }

  /** `GET /` is answered with the bare 200 status line. */
  lemma RouteRoot(req: HttpRequest)
    requires IsRoot(req)
    ensures Route(req) == "HTTP/1.1 200 OK\r\n\r\n"
  {
  }

  /** `GET /echo/<text>` is answered with `<text>` as a plain-text body. */
  lemma RouteEcho(req: HttpRequest)
    requires IsEcho(req)
    ensures Route(req) == TextResponse(req.uri[6..])
  {
    RoutesDisjoint(req);
  }

  /** `GET /user-agent` is answered with the User-Agent header's value, or an empty body when
      the request had none. */
  lemma RouteUserAgent(req: HttpRequest)
    requires IsUserAgent(req)
    ensures Route(req) == TextResponse(if "User-Agent" in req.headers then req.headers["User-Agent"] else "")
  {
    RoutesDisjoint(req);
  }

  /** The text response with an empty body announces a length of 0. */
  lemma EmptyTextResponse()
    ensures TextResponse("") == TextHead + "0\r\n\r\n"
  {
    assert Decimal(0) == "0";
  }

  /** Every request outside the three routes, and every method but GET, gets 404; and a 404
      is given to those requests only. */
  lemma RouteNotFoundIff(req: HttpRequest)
    ensures Route(req) == NotFound <==> !(IsRoot(req) || IsEcho(req) || IsUserAgent(req))
    ensures req.httpMethod != "GET" ==> Route(req) == NotFound
  {
    assert OkEmpty[9] == '2' && NotFound[9] == '4';
    forall body: string
      ensures TextResponse(body) != NotFound
    {
      assert TextResponse(body)[9] == TextHead[9] == '2';
    }
  }

  /** Near misses of the three routes get 404: `/echo` without its slash, a path below
      `/user-agent`, and GET spelled in lower case. */
  lemma NotFoundNearMisses(version: string, headers: map<string, string>, body: string)
    ensures Route(HttpRequest("GET", "/echo", version, headers, body)) == NotFound
    ensures Route(HttpRequest("GET", "/user-agent/x", version, headers, body)) == NotFound
    ensures Route(HttpRequest("get", "/", version, headers, body)) == NotFound
  {
    assert "/echo"[1..] != "/";
    assert |"/echo"| < |"/echo/"|;
    assert "/user-agent/x"[..6] != "/echo/" by {
      assert "/user-agent/x"[1] == 'u';
    }
    assert "get"[0] != "GET"[0];
  }

  /**
   * A text response frames its body: the Content-Length value runs from the end of `TextHead`
   * to the next '\r', it denotes the length of the body, and the body is what follows the
   * blank line after it.
   */
  lemma TextResponseFraming(body: string)
    ensures var r := TextResponse(body);
      var n := IndexOf(r[|TextHead|..], '\r');
      |TextHead| + n + 4 <= |r| &&
      r[..|TextHead|] == TextHead &&
      AllDigits(r[|TextHead|..][..n]) && DecimalValue(r[|TextHead|..][..n]) == |body| &&
      r[|TextHead| + n..|TextHead| + n + 4] == "\r\n\r\n" &&
      r[|TextHead| + n + 4..] == body
  {
    var digits := Decimal(|body|);
    FourParts(TextHead, digits, "\r\n\r\n", body);
    DigitsRunToCr(digits, "\r\n\r\n", body);
    DecimalRoundTrip(|body|);
  }

  /** In digits followed by "\r\n\r\n" and more, the first '\r' is right after the digits. */
  lemma DigitsRunToCr(digits: string, blank: string, body: string)
    requires AllDigits(digits) && blank == "\r\n\r\n"
    ensures IndexOf(digits + blank + body, '\r') == |digits|
  {
    var s := digits + blank + body;
    assert forall i :: 0 <= i < |digits| ==> s[i] == digits[i];
    assert s[|digits|] == blank[0];
    IndexOfIs(s, '\r', |digits|);
  }
}
