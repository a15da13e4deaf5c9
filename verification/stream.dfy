/** The streaming client: the guard and request of `streamChat`, and the
    buffered line framer of `parseStream`.

    The framer reads a simplified server-sent-events stream (the
    `text/event-stream` format of section 9.2 of the WHATWG HTML Standard):
    each read appends decoded text to a buffer, the complete lines are split
    off, and the trailing partial line waits for the next read. Only lines of
    the form `data: <json>` carry content, and `data: [DONE]` is skipped.

    The network, `TextDecoder` and `JSON.parse` are not modelled: a response
    body is the sequence of already-decoded text pieces the reader yields, and
    parsing a frame is a function `decode` supplied by the caller. */
module Stream {
  import opened Common
  import opened Text
  import opened Store

  /** What evaluating `JSON.parse(payload).choices[0]?.delta?.content` gives
      for one frame: it throws (malformed JSON, or a shape whose property
      access fails), or it yields the content, which may be absent. */
  datatype Parsed = Malformed | Delta(content: Option<string>)

  /** Everything that ends a stream unsuccessfully. */
  datatype StreamError =
    | MissingKey                        // no API key configured
    | ApiError(status: int, text: string) // the server answered with a non-ok status
    | NoBody                            // the response has no readable body
    | ReadFailed                        // `reader.read()` threw
    | Rejected(message: string)         // `fetch` or `response.text()` rejected

  /** The callbacks `parseStream` invokes, in order. */
  datatype Event = OnChunk(text: string) | OnComplete | OnError(error: StreamError)

  /** A response body: the decoded text of each successful read, and whether a
      further read then throws instead of reporting the end of the stream. */
  datatype Body = Body(pieces: seq<string>, readFails: bool)

  const DataPrefix := "data: "
  const DoneLine := "data: [DONE]"

  /** The payload of a data line: the trimmed line after its six-character prefix. */
  function Payload(line: string): string {
    var t := Trim(line);
    if |t| >= |DataPrefix| then t[|DataPrefix|..] else ""
  }

  /** The content one complete line delivers to `onChunk`, if any. Blank lines,
      the end marker and lines without the data prefix are skipped; so is a
      frame that fails to parse (it is only logged) and one without content. */
  function LineChunk(line: string, decode: string -> Parsed): (r: Option<string>)
    ensures r.Some? ==> r.value != ""
    ensures r.Some? ==> StartsWith(Trim(line), DataPrefix) && Trim(line) != DoneLine
    ensures r.Some? ==> decode(Payload(line)) == Delta(r)
    ensures AllSpace(line) ==> r == None
  {
    var t := Trim(line);
    if t == "" || t == DoneLine then None
    else if StartsWith(t, DataPrefix) then
      match decode(t[|DataPrefix|..])
      case Malformed => None
      case Delta(c) => if Truthy(c) then c else None
    else None
  }

  /** What one complete line contributes to the chunks: its chunk, or nothing. */
  function LineChunks(decode: string -> Parsed): string -> seq<string> {
    line => match LineChunk(line, decode) case Some(c) => [c] case None => []
  }

  /** `xs.flatMap(f)` */
  function FlatMap<T, U>(xs: seq<T>, f: T -> seq<U>): seq<U> {
    if xs == [] then [] else f(xs[0]) + FlatMap(xs[1..], f)
  }

  lemma {:induction false} FlatMapAppend<T, U>(a: seq<T>, b: seq<T>, f: T -> seq<U>)
    ensures FlatMap(a + b, f) == FlatMap(a, f) + FlatMap(b, f)
  {
    if a != [] {
      assert (a + b)[1..] == a[1..] + b;
      FlatMapAppend(a[1..], b, f);
    } else {
      assert a + b == b;
    }
  }

  /** A function giving at most one non-empty string per element gives at
      most one per element overall, none of them empty. */
  lemma {:induction false} FlatMapSparse<T>(xs: seq<T>, f: T -> seq<string>)
    requires forall x :: |f(x)| <= 1 && forall c :: c in f(x) ==> c != ""
    ensures |FlatMap(xs, f)| <= |xs|
    ensures forall c :: c in FlatMap(xs, f) ==> c != ""
  {
    if xs != [] {
      FlatMapSparse(xs[1..], f);
    }
  }

  /** The chunks a run of complete lines delivers, in order. */
  function Chunks(lines: seq<string>, decode: string -> Parsed): (r: seq<string>)
    ensures |r| <= |lines|
    ensures forall c :: c in r ==> c != ""
  {
    FlatMapSparse(lines, LineChunks(decode));
    FlatMap(lines, LineChunks(decode))
  }

  /** The complete lines of `text`: all its newline-separated parts except the
      last, which has no terminating newline yet. */
  function CompleteLines(text: string): (r: seq<string>)
    ensures forall l :: l in r ==> '\n' !in l
  {
    var parts := SplitLines(text);
    assert forall l :: l in parts[..|parts| - 1] ==> l in parts;
    parts[..|parts| - 1]
  }

  /** One read: the new text is appended to the buffer, the complete lines are
      split off and the partial last line becomes the new buffer. */
  function Feed(buffer: string, piece: string): (r: (seq<string>, string))
    ensures Join(r.0 + [r.1], "\n") == buffer + piece
    ensures forall l :: l in r.0 ==> '\n' !in l
    ensures '\n' !in r.1
  {
    var parts := SplitLines(buffer + piece);
    assert parts == parts[..|parts| - 1] + [parts[|parts| - 1]];
    assert parts[|parts| - 1] in parts;
    assert forall l :: l in parts[..|parts| - 1] ==> l in parts;
    (parts[..|parts| - 1], parts[|parts| - 1])
  }

  /** The `onChunk` events for a sequence of chunks. */
  function ChunkEvents(cs: seq<string>): (r: seq<Event>)
    ensures |r| == |cs|
    ensures forall i :: 0 <= i < |cs| ==> r[i] == OnChunk(cs[i])
  {
    if cs == [] then [] else [OnChunk(cs[0])] + ChunkEvents(cs[1..])
  }

  predicate IsTerminal(e: Event) {
    !e.OnChunk?
  }

  /** Exactly one of `onComplete` and `onError` fires, and nothing after it. */
  predicate Terminated(events: seq<Event>) {
    events != [] && IsTerminal(events[|events| - 1])
    && forall i :: 0 <= i < |events| - 1 ==> !IsTerminal(events[i])
  }

  /** `parseStream`: the callbacks fired for a response whose body may be
      missing. The chunks are exactly those of the complete lines of all the
      text read, however that text was split into reads; a partial last line
      is never delivered. */
  method ParseStream(body: Option<Body>, decode: string -> Parsed) returns (events: seq<Event>)
    ensures body.None? ==> events == [OnError(NoBody)]
    ensures body.Some? ==> (events ==
      ChunkEvents(Chunks(CompleteLines(Concat(body.value.pieces)), decode))
      + [if body.value.readFails then OnError(ReadFailed) else OnComplete])
    ensures Terminated(events)
  {
    if body.None? {
      return [OnError(NoBody)];
    }
    var pieces := body.value.pieces;
    var buffer := "";
    var chunks: seq<string> := [];
    ghost var lines: seq<string> := [];
    var k := 0;
    while k < |pieces|
      invariant 0 <= k <= |pieces|
      invariant Join(lines + [buffer], "\n") == Concat(pieces[..k])
      invariant forall l :: l in lines ==> '\n' !in l
      invariant '\n' !in buffer
      invariant chunks == Chunks(lines, decode)
    {
      var fed := Feed(buffer, pieces[k]);
      var delivered := DeliverLines(fed.0, decode);
      ReadStep(lines, buffer, pieces, k, fed.0, fed.1);
      ChunksAppend(lines, fed.0, decode);
      chunks := chunks + delivered;
      lines := lines + fed.0;
      buffer := fed.1;
      k := k + 1;
    }
    assert pieces[..k] == pieces;
    CompleteLinesOf(lines, buffer, Concat(pieces));
    events := ChunkEvents(chunks) + [if body.value.readFails then OnError(ReadFailed) else OnComplete];
  }

  /** One iteration of the read loop keeps its invariant. */
  lemma ReadStep(lines: seq<string>, buffer: string, pieces: seq<string>, k: int,
                 done: seq<string>, rest: string)
    requires 0 <= k < |pieces|
    requires Join(lines + [buffer], "\n") == Concat(pieces[..k])
    requires forall l :: l in lines ==> '\n' !in l
    requires (done, rest) == Feed(buffer, pieces[k])
    ensures Join(lines + done + [rest], "\n") == Concat(pieces[..k + 1])
    ensures forall l :: l in lines + done ==> '\n' !in l
  {
    assert Join(done + [rest], "\n") == buffer + pieces[k];
    JoinStep(lines, buffer, done, rest, Concat(pieces[..k]), pieces[k]);
    assert Concat(pieces[..k + 1]) == Concat(pieces[..k]) + pieces[k] by {
      assert pieces[..k + 1] == pieces[..k] + [pieces[k]];
      ConcatAppend(pieces[..k], pieces[k]);
    }
    assert forall l :: l in done ==> '\n' !in l;
  }

  /** The inner loop of one read: each complete line in turn. */
  method DeliverLines(lines: seq<string>, decode: string -> Parsed) returns (chunks: seq<string>)
    ensures chunks == Chunks(lines, decode)
  {
    chunks := [];
    var i := 0;
    while i < |lines|
      invariant 0 <= i <= |lines|
      invariant chunks == Chunks(lines[..i], decode)
    {
      var c := LineChunk(lines[i], decode);
      ChunksSnoc(lines[..i], lines[i], decode);
      assert lines[..i + 1] == lines[..i] + [lines[i]];
      if c.Some? {
        chunks := chunks + [c.value];
      }
      i := i + 1;
    }
    assert lines[..i] == lines;
  }

  /** Lines are framed one by one: the chunks of two runs of lines are the
      chunks of the first followed by those of the second. */
  lemma {:induction false} ChunksAppend(a: seq<string>, b: seq<string>, decode: string -> Parsed)
    ensures Chunks(a + b, decode) == Chunks(a, decode) + Chunks(b, decode)
  {
    FlatMapAppend(a, b, LineChunks(decode));
  }

  lemma {:induction false} ChunksSnoc(lines: seq<string>, l: string, decode: string -> Parsed)
    ensures Chunks(lines + [l], decode)
      == Chunks(lines, decode) + (match LineChunk(l, decode) case Some(c) => [c] case None => [])
  {
    FlatMapAppend(lines, [l], LineChunks(decode));
    assert FlatMap([l], LineChunks(decode)) == LineChunks(decode)(l) + FlatMap([l][1..], LineChunks(decode));
    assert [l][1..] == [];
  }

  /** Splitting the text of one more read continues the join invariant. */
  lemma JoinStep(lines: seq<string>, buffer: string, done: seq<string>, rest: string, text: string, piece: string)
    requires Join(lines + [buffer], "\n") == text
    requires Join(done + [rest], "\n") == buffer + piece
    ensures Join(lines + done + [rest], "\n") == text + piece
  {
    if lines == [] {
      assert lines + done + [rest] == done + [rest];
      assert lines + [buffer] == [buffer];
    } else {
      JoinAppend(lines, [buffer], "\n");
      JoinAppend(lines, done + [rest], "\n");
      assert lines + done + [rest] == lines + (done + [rest]);
    }
  }

  /** Once the invariant holds, the processed lines are the complete lines of the text. */
  lemma CompleteLinesOf(lines: seq<string>, buffer: string, text: string)
    requires Join(lines + [buffer], "\n") == text
    requires forall l :: l in lines ==> '\n' !in l
    requires '\n' !in buffer
    ensures CompleteLines(text) == lines
  {
    var parts := lines + [buffer];
    assert forall p :: p in parts ==> p in lines || p == buffer;
    SplitJoin(parts);
    assert parts[..|parts| - 1] == lines;
  }

  /** The line a server sends for one content delta. */
  function FrameLine(payload: string): string {
    DataPrefix + payload
  }

  /** A frame whose payload carries non-empty content is delivered as that
      content, provided the payload is not the end marker and has no
      surrounding whitespace (which `trim` would strip). */
  lemma FrameRoundTrip(payload: string, decode: string -> Parsed, content: string)
    requires payload != [] && !IsSpace(payload[|payload| - 1])
    requires payload != "[DONE]"
    requires decode(payload) == Delta(Some(content)) && content != ""
    ensures LineChunk(FrameLine(payload), decode) == Some(content)
  {
    var line := FrameLine(payload);
    assert line[0] == 'd' && line[|line| - 1] == payload[|payload| - 1];
    assert TrimStart(line) == line;
    assert TrimEnd(line) == line;
    assert line[..|DataPrefix|] == DataPrefix;
    assert line[|DataPrefix|..] == payload;
  }

  /** The end marker, blank lines and non-data lines never deliver anything. */
  lemma SkippedLines(line: string, decode: string -> Parsed)
    requires Trim(line) == DoneLine || AllSpace(line) || !StartsWith(Trim(line), DataPrefix)
    ensures LineChunk(line, decode) == None
  {
  }

  /** One message as sent to the completions endpoint. */
  datatype WireMessage = WireMessage(role: Role, content: string)

  /** The client's settings, read once from the environment. */
  datatype Config = Config(baseUrl: string, apiKey: string, model: string)

  const DefaultBaseUrl := "https://api.openai.com/v1"
  const DefaultModel := "gpt-4o-mini"

  /** `value || fallback` on an optional environment variable. */
  function OrDefault(value: Option<string>, fallback: string): (r: string)
    ensures Truthy(value) ==> r == value.value
    ensures !Truthy(value) ==> r == fallback
  {
    if Truthy(value) then value.value else fallback
  }

  /** The constructor: base URL and model fall back to their defaults and the
      key to the empty string, so only the key can end up empty. */
  function ConfigFrom(baseUrl: Option<string>, apiKey: Option<string>, model: Option<string>): (c: Config)
    ensures c.baseUrl != "" && c.model != ""
    ensures c.apiKey == "" <==> !Truthy(apiKey)
  {
    Config(OrDefault(baseUrl, DefaultBaseUrl), OrDefault(apiKey, ""), OrDefault(model, DefaultModel))
  }

  /** The POST request `streamChat` sends. */
  datatype Request = Request(url: string, authorization: string, model: string, messages: seq<WireMessage>, stream: bool)

  /** What `fetch` resolves to: the status, what `response.text()` settles to
      (the text, or the message it rejects with), and the body, which may be
      missing. */
  datatype HttpResponse = HttpResponse(ok: bool, status: int, text: Result<string, string>, body: Option<Body>)

  function RequestFor(cfg: Config, messages: seq<WireMessage>): Request {
    Request(cfg.baseUrl + "/chat/completions", "Bearer " + cfg.apiKey, cfg.model, messages, true)
  }

  /** `streamChat`: refuses to send anything without a key, and turns a
      non-ok response into an error carrying its status and text. `fetch`
      stands for the network: it resolves to a response or rejects with a
      message, and a rejection, like one of `response.text()`, propagates. */
  function StreamChat(cfg: Config, messages: seq<WireMessage>, fetch: Request -> Result<HttpResponse, string>): (r: Result<Option<Body>, StreamError>)
    ensures r == Failure(MissingKey) <==> cfg.apiKey == ""
    ensures cfg.apiKey != "" ==>
      (r.Success? <==> fetch(RequestFor(cfg, messages)).Success? && fetch(RequestFor(cfg, messages)).value.ok)
    ensures r.Success? ==> r.value == fetch(RequestFor(cfg, messages)).value.body
    ensures cfg.apiKey != "" && fetch(RequestFor(cfg, messages)).Failure? ==>
      r == Failure(Rejected(fetch(RequestFor(cfg, messages)).error))
    ensures r.Failure? && cfg.apiKey != "" && fetch(RequestFor(cfg, messages)).Success? ==>
      var response := fetch(RequestFor(cfg, messages)).value;
      r.error == if response.text.Success? then ApiError(response.status, response.text.value)
                 else Rejected(response.text.error)
  {
    if cfg.apiKey == "" then Failure(MissingKey)
    else
      match fetch(RequestFor(cfg, messages))
      case Failure(e) => Failure(Rejected(e))
      case Success(response) =>
        if response.ok then Success(response.body)
        else
          match response.text
          case Success(t) => Failure(ApiError(response.status, t))
          case Failure(e) => Failure(Rejected(e))
  }

  /** Without a key no request is made: the outcome is the same whatever the
      network would have answered. */
  lemma MissingKeyBeforeRequest(cfg: Config, messages: seq<WireMessage>, f: Request -> Result<HttpResponse, string>,
                                g: Request -> Result<HttpResponse, string>)
    requires cfg.apiKey == ""
    ensures StreamChat(cfg, messages, f) == StreamChat(cfg, messages, g) == Failure(MissingKey)
  {
  }
}
