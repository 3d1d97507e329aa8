/** `HttpRequest` and `parseHttpRequest` (src/server.cpp:15-21, 38-74). */
module Request {
  import opened Trimming
  import opened Streams
  import opened SeqFacts

  /** `struct HttpRequest`. Its `method` member is `httpMethod` here, `method` being a Dafny keyword. */
  datatype HttpRequest = HttpRequest(
    httpMethod: string,
    uri: string,
    version: string,
    headers: map<string, string>,
    body: string)

  /** A default-constructed `HttpRequest`: every string empty, no headers. */
  const EmptyRequest := HttpRequest("", "", "", map[], "")

  /** The `i`-th word, or "" when there are fewer: a failed `>>` leaves its target empty. */
  function WordAt(ws: seq<string>, i: nat): string {
    if i < |ws| then ws[i] else ""
  }

  /** The words joined by single spaces. */
  function JoinSpaced(ws: seq<string>): string {
    if ws == [] then ""
    else if |ws| == 1 then ws[0]
    else ws[0] + " " + JoinSpaced(ws[1..])
  }

  /** A line holding a colon: `line.find(':') != npos`. */
  predicate IsHeaderLine(line: string) {
    IndexOf(line, ':') < |line|
  }

  /** The trimmed text before the first colon. */
  function HeaderName(line: string): string
    requires IsHeaderLine(line)
  {
    Trimmed(line[..IndexOf(line, ':')])
  }

  /** The trimmed text after the first colon. */
  function HeaderValue(line: string): string
    requires IsHeaderLine(line)
  {
    Trimmed(line[IndexOf(line, ':') + 1..])
  }

  /** `line` is a header line whose name is `name`. */
  predicate NamesHeader(line: string, name: string) {
    IsHeaderLine(line) && HeaderName(line) == name
  }

  /** `headers` after one line went through the header loop's body: a line with a colon sets
      its header, a line without one changes nothing. */
  function AddHeader(headers: map<string, string>, line: string): map<string, string> {
    if IsHeaderLine(line) then headers[HeaderName(line) := HeaderValue(line)] else headers
  }

  /** The header a line with its first colon at `colon` sets. */
  lemma AddHeaderOf(headers: map<string, string>, line: string, colon: nat, name: string, value: string)
    requires colon == IndexOf(line, ':') < |line|
    requires name == Trimmed(line[..colon]) && value == Trimmed(line[colon + 1..])
    ensures AddHeader(headers, line) == headers[name := value]
  {
  }

  /** The header map after the lines `ls`, in order, went through the header loop's body. */
  function HeaderMap(ls: seq<string>): map<string, string> {
    if ls == [] then map[] else AddHeader(HeaderMap(ls[..|ls| - 1]), ls[|ls| - 1])
  }

  /** Index of the first line that is exactly "\r", the blank line of a CRLF request, or `|ls|`. */
  function TerminatorIndex(ls: seq<string>): (t: nat)
    ensures t <= |ls|
    ensures t < |ls| ==> ls[t] == "\r"
    ensures forall i :: 0 <= i < t ==> ls[i] != "\r"
  {
    if ls == [] || ls[0] == "\r" then 0 else 1 + TerminatorIndex(ls[1..])
  }

  /** What `body += line + "\n"` accumulates over `ls`, skipping empty lines. */
  function BodyText(ls: seq<string>): string {
    if ls == [] then ""
    else
      var line := ls[|ls| - 1];
      BodyText(ls[..|ls| - 1]) + (if line != "" then line + "\n" else "")
  }

  /** The words of the request line, none when there is no line at all. */
  function FirstLineWords(ls: seq<string>): seq<string> {
    if ls == [] then [] else Words(ls[0])
  }

  /** The lines after the request line. */
  function AfterFirst(ls: seq<string>): seq<string> {
    if ls == [] then [] else ls[1..]
  }

  /** The header lines: those before the first "\r" line. */
  function HeaderLines(ls: seq<string>): seq<string> {
    ls[..TerminatorIndex(ls)]
  }

  /** The lines after the first "\r" line, none when there is no such line. */
  function AfterHeaders(ls: seq<string>): seq<string> {
    var t := TerminatorIndex(ls);
    if t < |ls| then ls[t + 1..] else []
  }

  /** A first "\r" line at `t`, or none and `t == |ls|`, is what `TerminatorIndex` finds. */
  lemma {:induction false} TerminatorIndexIs(ls: seq<string>, t: nat)
    requires t <= |ls| && forall i :: 0 <= i < t ==> ls[i] != "\r"
    requires t < |ls| ==> ls[t] == "\r"
    ensures TerminatorIndex(ls) == t
  {
    if t > 0 {
      assert forall i :: 0 <= i < t - 1 ==> ls[1..][i] == ls[i + 1];
      TerminatorIndexIs(ls[1..], t - 1);
    }
  }

  /** One more line through `headers[name] = value`. */
  lemma HeaderMapSnoc(ls: seq<string>, i: nat)
    requires i < |ls|
    ensures HeaderMap(ls[..i + 1]) == AddHeader(HeaderMap(ls[..i]), ls[i])
  {
    assert ls[..i + 1][..i] == ls[..i];
  }

  /** One more line through `if (!line.empty()) body += line + "\n"`. */
  lemma BodyTextSnoc(ls: seq<string>, k: nat)
    requires k < |ls|
    ensures BodyText(ls[..k + 1]) == BodyText(ls[..k]) + (if ls[k] != "" then ls[k] + "\n" else "")
  {
    assert ls[..k + 1][..k] == ls[..k];
  }

  /**
   * The request `parseHttpRequest` builds from the lines `getline` yields: the first three words
   * of the first line, the header lines up to the first "\r" line or the end, and the non-empty
   * lines after that "\r" line, trimmed as a whole.
   */
  function ParseLines(all: seq<string>): HttpRequest {
    var words := FirstLineWords(all);
    var rest := AfterFirst(all);
    HttpRequest(WordAt(words, 0), WordAt(words, 1), WordAt(words, 2),
                HeaderMap(HeaderLines(rest)), Trimmed(BodyText(AfterHeaders(rest))))
  }

  /** The specification of `parseHttpRequest`. */
  function Parse(request: string): HttpRequest {
    ParseLines(Lines(request))
  }

  /** `trim` of a word, or of the empty string, changes nothing. */
  lemma TrimmedWordAt(ws: seq<string>, i: nat)
    requires forall j :: 0 <= j < |ws| ==> NoSpace(ws[j])
    ensures Trimmed(WordAt(ws, i)) == WordAt(ws, i)
  {
    TrimmedNoSpace(WordAt(ws, i));
  }

  /** The words after the first `n`. */
  function DropWords(ws: seq<string>, n: nat): seq<string> {
    if n <= |ws| then ws[n..] else []
  }

  /** How one `>>` moves along the words: `after` is what is left once `ReadWord` reported `got`
      and `word` on the words `DropWords(ws, n)`. */
  lemma DropWordsNext(ws: seq<string>, n: nat, got: bool, word: string, after: seq<string>)
    requires got == (DropWords(ws, n) != [])
    requires got ==> [word] + after == DropWords(ws, n)
    requires !got ==> after == []
    ensures after == DropWords(ws, n + 1)
    ensures (if got then word else "") == WordAt(ws, n)
  {
    if got {
      ConsAt(word, after, ws, n);
    }
  }

  /** One `>> field` into a string that starts empty: the `n`-th word of the line, or "". */
  method ReadField(lineStream: StringStream, ghost ws: seq<string>, ghost n: nat) returns (field: string)
    requires lineStream.Valid() && Words(lineStream.Rest()) == DropWords(ws, n)
    modifies lineStream
    ensures lineStream.Valid() && Words(lineStream.Rest()) == DropWords(ws, n + 1)
    ensures field == WordAt(ws, n)
    ensures lineStream.Rest() == if field == "" then [] else AfterWord(old(lineStream.Rest()), field)
  {
    field := "";
    var got, word := lineStream.ReadWord();
    ghost var after := Words(lineStream.Rest());
    if got {
      field := word;
    } else {
      assert after == [];
    }
    DropWordsNext(ws, n, got, word, after);
  }

  /** The request line split (src/server.cpp:45-50): `>> method >> uri >> version` on a stream
      over the line, each field then trimmed. The fields are the line's first three words, "" past
      the last. */
  method SplitRequestLine(line: string) returns (m: string, u: string, v: string)
    ensures m == WordAt(Words(line), 0) && u == WordAt(Words(line), 1) && v == WordAt(Words(line), 2)
  {
    var lineStream := new StringStream(line);
    ghost var ws := Words(line);
    m := ReadField(lineStream, ws, 0);
    u := ReadField(lineStream, ws, 1);
    v := ReadField(lineStream, ws, 2);
    WordsShape(line);
    TrimmedWordAt(ws, 0);
    TrimmedWordAt(ws, 1);
    TrimmedWordAt(ws, 2);
    m := Trim(m);
    u := Trim(u);
    v := Trim(v);
  }

  /** The request line (src/server.cpp:43-51): one `getline`, split when it succeeds; the fields
      stay empty when the input is empty. */
  method ReadRequestLine(stream: StringStream) returns (m: string, u: string, v: string)
    requires stream.Valid()
    modifies stream
    ensures stream.Valid()
    ensures Lines(stream.Rest()) == AfterFirst(old(Lines(stream.Rest())))
    ensures var ws := FirstLineWords(old(Lines(stream.Rest())));
      m == WordAt(ws, 0) && u == WordAt(ws, 1) && v == WordAt(ws, 2)
  {
    ghost var all := Lines(stream.Rest());
    m, u, v := "", "", "";
    var ok, line := stream.GetLine();
    if ok {
      ConsAt(line, Lines(stream.Rest()), all, 0);
      m, u, v := SplitRequestLine(line);
    } else {
      assert Lines(stream.Rest()) == [];
    }
  }

  /** The body of the header loop (src/server.cpp:54-61): when the line has a colon, the trimmed
      text before it names the header and the trimmed text after it is stored as its value.
      This is the source's step-by-step form of `AddHeader`. */
  method StoreHeader(headers: map<string, string>, line: string) returns (result: map<string, string>)
    ensures result == AddHeader(headers, line)
  {
    var colon := IndexOf(line, ':');
    if colon < |line| {
      var name := Trim(line[..colon]);
      var value := Trim(line[colon + 1..]);
      result := headers[name := value];
      AddHeaderOf(headers, line, colon, name, value);
    } else {
      result := headers;
    }
  }

  /**
   * The header loop of `parseHttpRequest` (src/server.cpp:52-62): `getline` until a line equal
   * to "\r" or the end of the input; a line with a colon sets the header named by the trimmed
   * text before it to the trimmed text after it. The map starts empty, as `request.headers` does.
   */
  method ReadHeaders(stream: StringStream) returns (headers: map<string, string>)
    requires stream.Valid()
    modifies stream
    ensures stream.Valid()
    ensures headers == HeaderMap(HeaderLines(old(Lines(stream.Rest()))))
    ensures Lines(stream.Rest()) == AfterHeaders(old(Lines(stream.Rest())))
  {
    ghost var rest := Lines(stream.Rest());
    headers := map[];
    ghost var i := 0;
    var ok, line := stream.GetLine();
    while ok && line != "\r"
      invariant stream.Valid() && i <= |rest|
      invariant ok ==> [line] + Lines(stream.Rest()) == rest[i..]
      invariant !ok ==> i == |rest| && stream.Rest() == []
      invariant forall j :: 0 <= j < i ==> rest[j] != "\r"
      invariant headers == HeaderMap(rest[..i])
      decreases |rest| - i
    {
      ConsAt(line, Lines(stream.Rest()), rest, i);
      HeaderMapSnoc(rest, i);
      headers := StoreHeader(headers, line);
      i := i + 1;
      ok, line := stream.GetLine();
    }
    if ok {
      ConsAt(line, Lines(stream.Rest()), rest, i);
    } else {
      assert Lines(stream.Rest()) == [];
    }
    TerminatorIndexIs(rest, i);
  }

  /**
   * The body loop of `parseHttpRequest` (src/server.cpp:64-70): every remaining line that is not
   * empty is appended, followed by "\n". The result is not yet trimmed.
   */
  method ReadBody(stream: StringStream) returns (body: string)
    requires stream.Valid()
    modifies stream
    ensures stream.Valid() && stream.Rest() == []
    ensures body == BodyText(old(Lines(stream.Rest())))
  {
    ghost var ls := Lines(stream.Rest());
    body := "";
    ghost var k := 0;
    var ok, line := stream.GetLine();
    while ok
      invariant stream.Valid() && k <= |ls|
      invariant ok ==> [line] + Lines(stream.Rest()) == ls[k..]
      invariant !ok ==> k == |ls| && stream.Rest() == []
      invariant body == BodyText(ls[..k])
      decreases |ls| - k
    {
      ConsAt(line, Lines(stream.Rest()), ls, k);
      BodyTextSnoc(ls, k);
      if line != "" {
        body := body + line + "\n";
      }
      k := k + 1;
      ok, line := stream.GetLine();
    }
    assert ls[..k] == ls;
  }

  /**
   * `parseHttpRequest` (src/server.cpp:38-74): the request line, then the header loop and the
   * body loop over the same stream, and a final `trim` of the body.
   */
  method ParseHttpRequest(request: string) returns (req: HttpRequest)
    ensures req == Parse(request)
  {
    req := EmptyRequest;
    var stream := new StringStream(request);
    var m, u, v := ReadRequestLine(stream);
    req := req.(httpMethod := m, uri := u, version := v);
    var headers := ReadHeaders(stream);
    req := req.(headers := headers);
    var body := ReadBody(stream);
    body := Trim(body);
    req := req.(body := body);
  }
}
