# A verified model of the request parser and router of `http-server-cpp`

`src/server.cpp` is a one-connection HTTP/1.1 server. It receives one request into a buffer and
parses it with `parseHttpRequest` into an `HttpRequest`: method, URI, version, a header map and
a body. It then picks one of four canned responses in an `if`/`else` chain inside `main`. This
project models that parser and router in Dafny and proves what they promise.

The modules follow the source:

- `Trimming` (trimming.dfy) covers `std::isspace` in the C locale and `trim`. `Trimmed` is the
  specification. `Trim` is the source's two scans as a method with loops: a forward `while`
  over `start`, then the `do`-`while` that moves `end` back.
- `Streams` (streams.dfy) models the two library behaviours the parser relies on:
  - `Lines` is what successive `std::getline` calls yield. It splits on '\n', keeps '\r', and
    yields a last segment only when it is non-empty.
  - `Words` is what successive `>>` extractions into a string yield: the maximal runs of
    non-whitespace.
  - `StringStream` is a class over the text and a read position. Its `GetLine` and `ReadWord`
    methods are proved against `Lines` and `Words`.
- `Request` (request.dfy) holds the `HttpRequest` datatype, the specification `Parse`, and
  `ParseHttpRequest`. That method is written as the source is: the request line, the header
  loop and the body loop over one stream, then the final `trim`.
- `RequestFacts` (requestfacts.dfy) proves the parser's properties:
  - Every field is trimmed.
  - An empty input gives the empty request.
  - A header is present exactly when a line names it, and the last such line sets it.
  - The header loop stops at the first "\r" line.
  - A request built from its parts parses back into those parts.
  - The body is the trimmed non-empty lines after the blank line.
- `Response` (response.dfy) contains `std::to_string` of a length (`Decimal`) and its inverse.
  It also holds the routing chain, both as the function `Route` and as the method
  `BuildResponse`, which concatenates step by step, and the routing lemmas.
- `Server` (server.dfy) covers one exchange (`HandleRequest`, specified by `Respond`). It also
  holds end-to-end lemmas about the text a client sends: `GET /`, `GET /echo/<text>`,
  `GET /user-agent` with and without the header, and extra words on the request line.
- `SeqFacts` (seqfacts.dfy) holds small generic facts about sequence slices and
  concatenation.

Everything is stated over `string` (`seq<char>`). The received bytes are taken as characters
one for one.

## Model

| member | source | states |
|---|---|---|
| Trimming.IsSpace | src/server.cpp:25 | `std::isspace` in the C locale: space, tab, line feed, vertical tab, form feed and carriage return; NUL and every other character are not whitespace |
| Trimming.Trimmed | src/server.cpp:23-35 | the specification of `trim`; `Trim` is proved to compute it, and TrimmedShape and TrimmedOfPadded together characterise it as the unpadded middle between the leading and the trailing whitespace |
| Trimming.Trim | src/server.cpp:23-35 | the two scans return exactly `Trimmed(str)`, the empty string included |
| Trimming.TrimmedIs | src/server.cpp:24-34 | where the forward scan stops and where the backward scan stops determine the result: `str[start..stop]` |
| Trimming.TrimmedShape | src/server.cpp:23-35 | the result is a contiguous slice of the input, between an all-whitespace prefix and an all-whitespace suffix, and does not begin or end with whitespace |
| Trimming.TrimmedOfPadded | src/server.cpp:23-35 | conversely, whitespace + an unpadded string + whitespace trims to that string; with TrimmedShape this pins `trim` down completely |
| Trimming.TrimmedEmptyIff | src/server.cpp:23-35 | the result is empty exactly when the input is empty or all whitespace |
| Trimming.TrimmedIdempotent | src/server.cpp:23-35 | trimming twice is trimming once |
| Trimming.TrimmedFixedIff | src/server.cpp:23-35 | `trim` leaves a string unchanged exactly when it neither begins nor ends with whitespace |
| Trimming.TrimmedNoSpace | src/server.cpp:48-50 | a string without whitespace, such as a word read by `>>`, is left unchanged |
| Streams.IndexOf | src/server.cpp:55 | `find(':')`, with `npos` read as the length: its contract states the result is the first occurrence, or the length when there is none |
| Streams.Lines | src/server.cpp:44 | the lines successive `getline` calls yield; `GetLine` is proved to yield them one by one, and LinesHaveNoNewline, UnlinesOfLines and LinesOfUnlines prove it splits at every '\n' and loses nothing but the line feeds |
| Streams.Words | src/server.cpp:46-47 | the words successive `>>` calls yield; `ReadWord` is proved to yield them one by one, and WordsShape, WordsCons and WordsAfterSpace prove they are the maximal runs of non-whitespace |
| Streams.StringStream.GetLine | src/server.cpp:54 | `getline` fails exactly when nothing is left; otherwise the line it extracts is the first of `Lines` of what was left, and the rest of the lines stay |
| Streams.StringStream.ReadWord | src/server.cpp:46-47 | `>>` fails exactly when only whitespace is left; otherwise the word extracted is the first of `Words` of what was left, the rest of the words stay, and the stream is left at the character right after the word |
| Streams.AfterWord | src/server.cpp:46-47 | what `>>` leaves of the stream: the text after the leading whitespace and the extracted word, so the delimiter after the word stays; ReadWord is proved to leave exactly this |
| Streams.LinesHaveNoNewline | src/server.cpp:54 | no line `getline` yields holds a '\n' |
| Streams.UnlinesOfLines | src/server.cpp:66-69 | rejoining the lines with '\n' gives the text back, with a '\n' added when it did not end in one |
| Streams.LinesOfUnlines | src/server.cpp:54 | lines without '\n', each followed by '\n', split back into exactly those lines and then the lines of what follows |
| Streams.WordsShape | src/server.cpp:46-47 | every word is non-empty and free of whitespace |
| Streams.WordsAfterSpace | src/server.cpp:46-47 | leading whitespace changes none of the words |
| Streams.WordsCons | src/server.cpp:46-47 | a word ended by whitespace or the end is the first word, followed by the words of the rest |
| Request.WordAt | src/server.cpp:46-47 | the n-th word, or "" past the last one, because a failed `>>` leaves its field empty; ReadField and ParseOfWords relate it to the request line |
| Request.ReadField | src/server.cpp:46-47 | one `>> field` into an empty string yields the n-th word of the line, or "" when there is no such word; the stream is left right after the word, or used up when there was none |
| Request.SplitRequestLine | src/server.cpp:45-50 | after the three extractions and the three trims, method, URI and version are the first three words of the line, "" for each missing one |
| Request.ReadRequestLine | src/server.cpp:43-51 | one `getline`: the fields are the first three words of the first line, all "" when there is no line, and exactly that line is consumed |
| Request.AddHeader | src/server.cpp:55-61 | the header loop's body on one line; StoreHeader is proved to compute it, and HeaderLineFields states the name and value it stores |
| Request.StoreHeader | src/server.cpp:55-61 | a line with a colon sets the header named by the trimmed text before the first colon to the trimmed text after it; a line without a colon changes nothing |
| Request.TerminatorIndex | src/server.cpp:54 | where the header loop stops: its contract states it is the first line equal to "\r", or the number of lines when there is none |
| Request.HeaderMap | src/server.cpp:53-62 | the header map built from the lines in order; HeaderPresentIff, HeaderLastWins and HeaderMapTrimmed state which names it holds and which values it stores |
| Request.ReadHeaders | src/server.cpp:53-62 | the header map holds the lines before the first "\r" line, or all lines when there is none, applied in order from an empty map; the stream is left just after that "\r" line |
| Request.BodyText | src/server.cpp:65-70 | the body before its trim; BodyTextIsUnlines proves it is the non-empty lines, each followed by '\n' |
| Request.ReadBody | src/server.cpp:64-70 | the body is every remaining non-empty line followed by "\n", in order, and the stream is used up |
| Request.ParseLines | src/server.cpp:38-74 | the request built from the lines `getline` yields; ParseOfParts and ParseWithoutBlankLine state it for requests given by their parts |
| Request.Parse | src/server.cpp:38-74 | the specification of `parseHttpRequest`; ParseHttpRequest is proved to compute it, and RequestFacts proves its properties |
| Request.ParseHttpRequest | src/server.cpp:38-74 | the method builds exactly `Parse(request)` |
| Request.TerminatorIndexIs | src/server.cpp:54 | the header loop stops at the first line equal to "\r", or at the end |
| Request.HeaderMapSnoc | src/server.cpp:60 | one more header line updates the map as `headers[name] = value` does |
| RequestFacts.ParseEmpty | src/server.cpp:39-51 | the empty input gives empty method, URI, version and body, and no headers |
| RequestFacts.ParseFieldsTrimmed | src/server.cpp:48-71 | method, URI and version hold no whitespace; the body and every header name and value neither begin nor end with whitespace |
| RequestFacts.HeaderMapTrimmed | src/server.cpp:57-60 | every stored name and value is the result of `trim` |
| RequestFacts.HeaderPresentIff | src/server.cpp:54-61 | a name is in the map exactly when some header line (with a colon) names it |
| RequestFacts.HeaderLastWins | src/server.cpp:60 | of several lines naming one header, the last one sets the value |
| RequestFacts.HeaderLineFields | src/server.cpp:55-59 | `n:v` with a colon-free `n` names the header `trim(n)`, whose value is `trim(v)`, whatever spaces surround the colon |
| RequestFacts.ParseOfParts | src/server.cpp:38-74 | request line + header lines + "\r" + any text: the fields are the line's first three words, the headers are those of the header lines alone, and the body comes from the text after the blank line only |
| RequestFacts.ParseWithoutBlankLine | src/server.cpp:53-71 | without a "\r" line every line after the request line is a header line and the body is empty |
| RequestFacts.WordsOfJoined | src/server.cpp:46-47 | words joined by single spaces and ended by "\r" read back as exactly those words; the "\r" is not part of the version |
| RequestFacts.BodyTextIsUnlines | src/server.cpp:65-70 | before the final trim, the body is the non-empty lines, each followed by '\n' |
| RequestFacts.TrimmedNewline | src/server.cpp:71 | the '\n' after the last body line vanishes in the final trim |
| RequestFacts.BodyOfText | src/server.cpp:64-71 | a body text without blank lines comes through as its own trim |
| Response.Decimal | src/server.cpp:146 | `std::to_string` of a length: at least one digit, all of them decimal, no leading zero |
| Response.DecimalRoundTrip | src/server.cpp:146 | reading the digits back as a decimal number gives the length |
| Response.DecimalInjective | src/server.cpp:146 | different lengths are written differently |
| Response.TextResponse | src/server.cpp:145-148 | the plain-text 200 response; TextResponseFraming proves its Content-Length is the body's length and the body follows the blank line |
| Response.StartsWith | src/server.cpp:143 | `uri.find("/echo/") == 0`: the prefix occurs at the start; RouteEcho and NotFoundNearMisses state what it admits and what it rejects |
| Response.Lookup | src/server.cpp:151 | the value `headers["User-Agent"]` reads, "" when absent; RouteUserAgent states both cases |
| Response.Route | src/server.cpp:140-159 | the routing chain as a total function; BuildResponse is proved to compute it, and RouteRoot, RouteEcho, RouteUserAgent, RouteNotFoundIff and RoutesDisjoint state every branch |
| Response.AppendTextResponse | src/server.cpp:145-148 | the four `+=` steps build the status line, the Content-Type line, the Content-Length line, the blank line and the body |
| Response.BuildResponse | src/server.cpp:140-159 | the `if`/`else` chain builds exactly `Route(req)` |
| Response.RoutesDisjoint | src/server.cpp:140-150 | the three routes exclude each other, so their order does not matter |
| Response.RouteRoot | src/server.cpp:140-141 | `GET /` gets exactly "HTTP/1.1 200 OK\r\n\r\n" |
| Response.RouteEcho | src/server.cpp:142-148 | GET with a URI starting "/echo/" gets the text response whose body is the URI after its first six characters |
| Response.RouteUserAgent | src/server.cpp:149-156 | `GET /user-agent` gets the text response whose body is the User-Agent header, or "" when it is absent |
| Response.EmptyTextResponse | src/server.cpp:151-156 | the text response with an empty body announces `Content-Length: 0` |
| Response.RouteNotFoundIff | src/server.cpp:157-158 | the response is the 404 exactly when none of the three routes matches; every method other than GET gets it |
| Response.NotFoundNearMisses | src/server.cpp:140-158 | `/echo` without its slash, `/user-agent/x`, and a lower-case `get` all get the 404 |
| Response.TextResponseFraming | src/server.cpp:145-148 | in a text response the Content-Length digits run from the end of the header prefix to the next '\r', denote the body's length, and are followed by "\r\n\r\n" and the body |
| Server.Respond | src/server.cpp:137-159 | the response to the received text, `Route(Parse(text))`; the end-to-end lemmas below state it for whole requests |
| Server.HandleRequest | src/server.cpp:137-159 | parsing the received text and then routing gives `Respond(clientReq)` |
| Server.WordsOfGetLine | src/server.cpp:46-47 | `GET <uri> <version>\r` splits into exactly the words GET, the URI and the version |
| Server.ParseOfWords | src/server.cpp:44-51 | for a request line of any number of words, method, URI and version are its first three words and "" for each missing one |
| Server.ExtraWordsIgnored | src/server.cpp:46-47 | words after the third change nothing: the request parses as if its line ended after the version |
| Server.RootEndToEnd | src/server.cpp:137-141 | the text of `GET /`, whatever its headers and body, is answered with exactly "HTTP/1.1 200 OK\r\n\r\n" |
| Server.ParseGet | src/server.cpp:38-74 | `GET <uri> <version>`, header lines, "\r" and any text parse to that method, URI, version, header map and body |
| Server.UserAgentLineFields | src/server.cpp:55-59 | `User-Agent: <agent>\r` names the User-Agent header and stores the agent, without the space and the '\r' |
| Server.UserAgentHeader | src/server.cpp:54-62 | a User-Agent line with no later line naming the header leaves the agent in the map |
| Server.EchoEndToEnd | src/server.cpp:137-148 | the text of `GET /echo/<text>`, whatever its headers and body, is answered with `<text>` as a plain-text body |
| Server.ParseOfOneLine | src/server.cpp:38-74 | a text that is one line without its line feed parses to that line's first three words, no headers and an empty body |
| Server.EchoUnterminated | src/server.cpp:128-148 | `GET /echo/<text>` with no line ending is answered with all of `<text>`; so NUL padding after such a request is echoed |
| Server.UserAgentEndToEnd | src/server.cpp:137-156 | the text of `GET /user-agent` with a User-Agent line that no later line overrides is answered with that agent as a plain-text body |
| Server.MissingUserAgentEndToEnd | src/server.cpp:149-156 | the text of `GET /user-agent` without a User-Agent line is answered with `Content-Length: 0` and an empty body |

## Left out

- Sockets are not modelled (src/server.cpp:86-135, 161-162): `socket`, `setsockopt`, `bind`,
  `listen`, `accept`, `recv`, `send` and `close`, with their error exits. `HandleRequest`
  takes the received text as a parameter and returns the text that `send` would write.
- Logging to `std::cout`/`std::cerr` and `std::unitbuf` (src/server.cpp:78-83, 88-131)
  produces output only, so it is left out.
- The receive buffer is not modelled (src/server.cpp:128-129). `main` parses a 1024-character
  string: what `recv` received, padded with NUL characters, and cut off after 1024 bytes. The
  model parses the text as given. NUL is not whitespace, so `>>` and `trim` keep it. The padding
  makes a difference only in some cases:
  - When the received text ends in '\n', the NULs form one last line of their own. After the
    blank line that line joins the body. Before it, the line has no colon and is skipped. Routing
    does not change.
  - When the received text does not end in '\n' (a request without its line ending, or a
    partial `recv`), the NULs join its last line. `GET /echo/a` is then echoed as "a" followed by
    1013 NULs, which EchoUnterminated states for the padded text. When the last line ends in a
    character that is not whitespace, the NULs join its last word. Routing then changes only
    when that word is the URI or a header value. A bare `GET /` becomes a 404, while
    `GET / HTTP/1.1` only gains NULs in its version and still gets the 200. An unterminated
    `User-Agent` line stores the agent followed by NULs. When the last line ends in whitespace
    (a space, or a '\r' without its '\n'), the NULs form a word of their own instead.
    `GET /echo/a ` then has the NULs as its version and is echoed as plain "a". An unterminated
    `User-Agent: x\r` stores "x\r" followed by the NULs, because `trim` stops at the last NUL.
- `std::isspace` is fixed to the C locale's six characters; other locales are not modelled.
- Lookup of the User-Agent header (src/server.cpp:151): `operator[]` inserts an empty entry
  when the header is missing. The map is discarded right after, so the model reads the value
  without inserting (`Lookup`, "" on a miss).
- Trim: on the empty string the source moves `end` before `begin()`, which is undefined
  behaviour in C++. The model uses an integer index and returns "". This is the result the
  callers rely on, since empty fields and empty bodies are trimmed.
- Stream error flags are not modelled as separate state. Once `>>` fails on a line, every later
  `>>` on it fails too. In the model this holds because no words are left, and the field keeps
  its initial "".
- A 200 response that `main` builds can never exceed the integer range, because every length
  is an unbounded `nat`. The source's `size_t` cannot overflow on a 1024-byte input either.
- The source's own promises have been followed where they are narrower than HTTP: header names
  are case-sensitive, no `Content-Length` of the request is read, and the method is compared
  byte for byte.
- Where the code does more than a plain reading of its contract, the model follows the code:
  - extra words on the request line are ignored;
  - every method other than GET gets the 404, even on the three routes' paths;
  - a bare "" line (an LF-only blank line) does not end the header block, and is skipped
    because it has no colon.
