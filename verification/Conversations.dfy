/** Both ends of a connection: requests as a client puts them on the wire are loaded by the server as
    they were meant, one after the other, and are answered in that order.  The client of the
    repository prints its one request this way, with version 1.0 (`client/request.rs`).
 */
module Conversations {
  import opened Octets
  import opened Utf8
  import opened Numbers
  import opened Branchify
  import opened HeaderValues
  import opened Headers
  import opened Common
  import opened Requests
  import opened Messages
  import opened HeaderLoops
  import opened BufferedStreams
  import opened Responses
  import opened HandlerCalls
  import opened Loaders
  import opened Server

  /** A request as a client means it; its texts are the octets that stand on the wire. */
  datatype Sent = Sent(m: Method, uri: RequestUri, version: (nat, nat), headers: Collection)

  function VersionText(version: (nat, nat)): string {
    "HTTP/" + Digits(version.0, 10) + "." + Digits(version.1, 10)
  }

  function LineText(s: Sent): string {
    PrintMethod(s.m) + " " + UriText(s.uri) + " " + VersionText(s.version) + CRLF
  }

  /** The Request-Line and the headers. */
  function RequestText(table: seq<Row>, s: Sent): string { LineText(s) + PrintAll(table, s.headers) }

  // ---------------------------------------------------------------- the parts of a request line

  /** A word that fits reads back and leaves what follows its end. */
  lemma WordReads(config: Config, word: string, rest: string)
    requires word != "" && Length(word) <= config.maxLen && !config.valid(config.end)
    requires AllValid(config, word)
    ensures ReadWord(config, word + [config.end] + rest) == (Some(word), rest)
  {
    var input := word + [config.end] + rest;
    assert forall i :: 0 <= i < |word| ==> input[i] == word[i];
    assert input[|word|] == config.end;
    assert LeadingValid(config, input) == |word|;
    assert input[..|word|] == word && input[|word| + 1..] == rest;
    FittingAll(word, config.maxLen);
  }

  lemma MethodOnWire(m: Method, rest: string)
    requires GoodItem(MethodItem(m)) && |PrintMethod(m)| <= MAX_METHOD_LEN
    ensures ReadMethod(PrintMethod(m) + " " + rest) == (Some(m), rest)
  {
    MethodReadsBack(m);
    TokenOctets(PrintMethod(m));
    SameIffAscii(PrintMethod(m));
    WordReads(METHOD_CONFIG, PrintMethod(m), rest);
  }

  /** A Request-URI that fits: no space ends it early, and its length does not meet the limit before
      its end. */
  predicate FitsLine(uri: string) { SP !in uri && LimitMet(uri, MAX_REQUEST_URI_LEN) == |uri| }

  lemma UriOnWire(env: Environment, uri: RequestUri, rest: string)
    requires FitsLine(UriText(uri)) && GoodUri(uri, env.isUrl)
    ensures ReadUri(env, UriText(uri) + " " + rest) == (Ok(uri), rest)
  {
    UriTextOnWire(UriText(uri), rest);
    UriReadsBack(uri, env.isUrl);
  }

  lemma UriTextOnWire(uri: string, rest: string)
    requires SP !in uri && LimitMet(uri, MAX_REQUEST_URI_LEN) == |uri|
    ensures UriFrom(uri + " " + rest, "") == (Ok(uri), rest)
  {
    SpaceAfter(uri, rest);
    UriFromIs(uri + [SP] + rest, "");
    assert "" + uri == uri;
  }

  lemma {:induction false} DigitsLength(n: nat, k: nat)
    requires k >= 1 && n < Power10(k)
    ensures |Digits(n, 10)| <= k
    decreases n
  {
    if n >= 10 { DigitsLength(n / 10, k - 1); }
  }

  lemma NumberOnWire(n: nat, next: char, rest: string)
    requires n <= 9999 && !IsDigit(next, 10)
    ensures ReadUint(Digits(n, 10) + [next] + rest, 4, next) == (Some(n), rest)
  {
    var digits, tail := Digits(n, 10), [next] + rest;
    Power10Fits();
    DigitsLength(n, 4);
    DigitsHaveValue(n, 10);
    LeadingDigitsOf(digits, tail, 10);
    var input := digits + tail;
    assert input == digits + [next] + rest;
    ReadUintValue(input, 4, next);
    ReadUintExact(input, 4, next);
    assert input[..|digits|] == digits && input[|digits|] == next && input[|digits| + 1..] == rest;
  }

  lemma VersionLayout(a: string, b: string, rest: string)
    ensures
      var input := "HTTP/" + a + "." + b + CRLF + rest;
      && |input| >= 5 && input[0] == 'H' && input[1] == 'T' && input[2] == 'T' && input[3] == 'P' && input[4] == '/'
      && input[1..][1..][1..][1..][1..] == a + ['.'] + (b + [CR] + ([LF] + rest))
  {
    var input := "HTTP/" + a + "." + b + CRLF + rest;
    assert input[5..] == a + ['.'] + (b + [CR] + ([LF] + rest));
  }

  lemma VersionOnWire(version: (nat, nat), rest: string)
    requires version.0 <= 9999 && version.1 <= 9999
    ensures VersionLine(VersionText(version) + CRLF + rest) == (Some(version), rest)
  {
    var a, b := Digits(version.0, 10), Digits(version.1, 10);
    VersionLayout(a, b, rest);
    NumberOnWire(version.0, '.', b + [CR] + ([LF] + rest));
    NumberOnWire(version.1, CR, [LF] + rest);
    assert ([LF] + rest)[1..] == rest;
  }

  // ---------------------------------------------------------------- a request

  /** The method and the URI fit their limits and the URI is one. */
  ghost predicate GoodLine(env: Environment, s: Sent) {
    && GoodItem(MethodItem(s.m)) && |PrintMethod(s.m)| <= MAX_METHOD_LEN
    && FitsLine(UriText(s.uri)) && GoodUri(s.uri, env.isUrl)
    && s.version.0 <= 9999 && s.version.1 <= 9999
  }

  lemma LineLayout(m: string, uri: string, version: string, rest: string)
    ensures m + " " + uri + " " + version + CRLF + rest == m + " " + (uri + " " + (version + CRLF + rest))
  {}

  /** A printed Request-Line reads back as the method, URI and version meant. */
  lemma LineRoundTrip(env: Environment, s: Sent, rest: string)
    requires GoodLine(env, s)
    ensures ReadRequestLine(env, LineText(s) + rest) == (Ok(RequestLine(s.m, s.uri, s.version)), rest)
  {
    var uri, version := UriText(s.uri), VersionText(s.version);
    LineLayout(PrintMethod(s.m), uri, version, rest);
    MethodOnWire(s.m, uri + " " + (version + CRLF + rest));
    UriOnWire(env, s.uri, version + CRLF + rest);
    VersionOnWire(s.version, rest);
  }

  /** The connection is to be closed: HTTP/1.0, or the Connection header says so. */
  predicate Closes(s: Sent) { s.version == (1, 0) || SaysClose(s.headers) }

  predicate Supported(version: (nat, nat)) { version == (1, 0) || version == (1, 1) }

  /** What the server makes of a request with a good Request-Line and good headers: 505 for any version
      but 1.0 and 1.1, 400 for 1.1 without a Host, and otherwise the request as it was meant. */
  function LoadedAs(env: Environment, s: Sent): LoadOutcome {
    var size := |env.table|;
    if !Supported(s.version) then
      Loaded(Request(s.m, s.uri, s.version, EmptyCollection(size), true), Some(HttpVersionNotSupported))
    else if s.version == (1, 1) && !HasHost(s.headers) then
      Loaded(Request(s.m, s.uri, s.version, s.headers, true), Some(BadRequest))
    else
      Loaded(Request(s.m, s.uri, s.version, s.headers, Closes(s)), None)
  }

  /** A printed request is loaded as it was meant or refused with the status that fits; what follows it
      stays unread, and so do its headers if its version is refused. */
  lemma RequestIsLoaded(env: Environment, s: Sent, rest: string)
    requires RequestTable(env.table) && GoodLine(env, s) && GoodCollection(env.table, s.headers)
    ensures Load(env, RequestText(env.table, s) + rest) ==
              (LoadedAs(env, s), if Supported(s.version) then rest else PrintAll(env.table, s.headers) + rest)
  {
    var head := PrintAll(env.table, s.headers);
    Associative(LineText(s), head, rest);
    AfterLine(env, s, head + rest);
    CollectionRoundTrip(env.table, s.headers, rest);
    GoodConnection(env.table, s.headers);
    CloseDecides(s.headers, s.version == (1, 0));
  }

  lemma GoodConnection(table: seq<Row>, headers: Collection)
    requires RequestTable(table) && GoodCollection(table, headers)
    ensures NormalisedConnections(headers)
  {
    if headers.known[CONNECTION_ROW].Some? {
      var value := headers.known[CONNECTION_ROW].value;
      assert GoodValue(table[CONNECTION_ROW].kind, value);
      forall i | 0 <= i < |value.items| ensures NormalisedToken(value.items[i]) {
        assert KindOf(value.items[i]) == ConnectionKind && GoodItem(value.items[i]);
      }
    }
  }

  /** A method of at most 64 octets is read, and no longer one. */
  lemma MethodLimit(name: string)
    requires IsName(name)
    ensures ReadMethod(name + " ").0 == if |name| <= 64 then Some(MethodOf(name)) else None
  {
    TokenOctets(name);
    SameIffAscii(name);
    assert name + [SP] + "" == name + " ";
    if |name| <= 64 { WordReads(METHOD_CONFIG, name, ""); } else { ReferenceRefuses(METHOD_CONFIG, name, SP); }
  }

  /** Whatever stands after a good Request-Line, the headers among its lines and the line that ends them
      decide what is loaded. */
  lemma HeadIsJudged(env: Environment, s: Sent, input: string, lines: seq<HeaderLine>, rests: seq<string>)
    requires GoodLine(env, s) && Supported(s.version) && Cut(env.table, input, lines, rests)
    ensures
      var headers := InsertAll(EmptyCollection(|env.table|), HeadersAmong(lines));
      var request := Request(s.m, s.uri, s.version, headers, true);
      Load(env, LineText(s) + input).0 ==
        match lines[|lines| - 1]
        case EndOfFile => Disconnected
        case MalformedHeaderSyntax => Loaded(request, Some(BadRequest))
        case EndOfHeaders =>
          if s.version == (1, 1) && !HasHost(headers) then Loaded(request, Some(BadRequest))
          else Loaded(request.(closeConnection := ClosesAfter(headers, s.version == (1, 0))), None)
        case _ => NeverLoads
  {
    AfterLine(env, s, input);
    LoopKeepsHeaders(env.table, input, lines, rests, EmptyCollection(|env.table|));
    var last := lines[|lines| - 1];
    assert !GoesOn(last);
    JudgedByEnd(env, RequestLine(s.m, s.uri, s.version), s.version == (1, 0), input);
  }

  lemma JudgedByEnd(env: Environment, line: RequestLine, close: bool, input: string)
    ensures
      var (end, headers, rest) := ReadHeaders(env.table, input, EmptyCollection(|env.table|));
      var request := Request(line.m, line.uri, line.version, headers, true);
      LoadHeaders(env, line, close, input).0 ==
        match end
        case Eof => Disconnected
        case Stalled => NeverLoads
        case BadSyntax => Loaded(request, Some(BadRequest))
        case AllRead =>
          if line.version == (1, 1) && !HasHost(headers) then Loaded(request, Some(BadRequest))
          else Loaded(request.(closeConnection := ClosesAfter(headers, close)), None)
  {}

  /** A client that is gone before the headers end gets no answer. */
  lemma GoneInHeaders(env: Environment, s: Sent, hs: seq<Header>)
    requires GoodTable(env.table) && GoodLine(env, s) && Supported(s.version)
    requires forall k :: 0 <= k < |hs| ==> GoodHeader(env.table, hs[k])
    ensures Load(env, LineText(s) + PrintHeaders(env.table, hs)) == (Disconnected, "")
  {
    AfterLine(env, s, PrintHeaders(env.table, hs));
    HeadersThenNothing(env.table, hs, EmptyCollection(|env.table|));
  }

  /** Once the Request-Line is read, the headers decide. */
  lemma AfterLine(env: Environment, s: Sent, rest: string)
    requires GoodLine(env, s)
    ensures Load(env, LineText(s) + rest) ==
              if Supported(s.version) then
                LoadHeaders(env, RequestLine(s.m, s.uri, s.version), s.version == (1, 0), rest)
              else
                var request := Request(s.m, s.uri, s.version, EmptyCollection(|env.table|), true);
                (Loaded(request, Some(HttpVersionNotSupported)), rest)
  {
    LineRoundTrip(env, s, rest);
  }

  lemma {:induction false} HeadersThenNothing(table: seq<Row>, hs: seq<Header>, coll: Collection)
    requires GoodTable(table) && forall k :: 0 <= k < |hs| ==> GoodHeader(table, hs[k])
    ensures ReadHeaders(table, PrintHeaders(table, hs), coll) == (Eof, InsertAll(coll, hs), "")
    decreases |hs|
  {
    if hs != [] {
      var next := PrintHeaders(table, hs[1..]);
      HeaderIsLine(table, hs[0]);
      if |hs| > 1 {
        HeaderIsLine(table, hs[1]);
        assert next[0] == PrintHeader(table, hs[1])[0];
      }
      assert ReadHeader(table, PrintHeader(table, hs[0]) + next) == (Line(hs[0]), next);
      HeadersThenNothing(table, hs[1..], InsertHeader(coll, hs[0]));
    }
  }

  /** A malformed value in the head of a request changes nothing but the octets. */
  lemma MalformedIsIgnored(env: Environment, s: Sent, before: seq<string>, lines: seq<HeaderLine>, bad: string,
                           after: seq<string>, more: seq<HeaderLine>, rest: string)
    requires GoodLine(env, s) && AllReadAs(env.table, before, lines) && AllReadAs(env.table, after, more)
    requires ReadsAs(env.table, bad, MalformedHeaderValue) && Supported(s.version)
    ensures Load(env, LineText(s) + (Concat(before + [bad] + after) + (CRLF + rest))) ==
              Load(env, LineText(s) + (Concat(before + after) + (CRLF + rest)))
  {
    var one, other := Concat(before + [bad] + after) + (CRLF + rest), Concat(before + after) + (CRLF + rest);
    AfterLine(env, s, one);
    AfterLine(env, s, other);
    MalformedIsPassedOver(env.table, before, lines, bad, after, more, CRLF + rest, EmptyCollection(|env.table|));
    HeadersDecide(env, RequestLine(s.m, s.uri, s.version), s.version == (1, 0), one, other);
  }

  lemma HeadersDecide(env: Environment, line: RequestLine, close: bool, a: string, b: string)
    requires ReadHeaders(env.table, a, EmptyCollection(|env.table|)) ==
               ReadHeaders(env.table, b, EmptyCollection(|env.table|))
    ensures LoadHeaders(env, line, close, a) == LoadHeaders(env, line, close, b)
  {}

  /** A request that the server serves: HTTP/1.0, or HTTP/1.1 with a Host. */
  ghost predicate GoodSent(env: Environment, s: Sent) {
    && GoodLine(env, s) && GoodCollection(env.table, s.headers)
    && (s.version == (1, 0) || (s.version == (1, 1) && HasHost(s.headers)))
  }

  /** A request that is served, as it was meant. */
  function AsLoaded(s: Sent): LoadOutcome {
    Loaded(Request(s.m, s.uri, s.version, s.headers, Closes(s)), None)
  }

  /** A printed request is loaded as it was meant, and what follows it stays unread. */
  lemma RequestRoundTrip(env: Environment, s: Sent, rest: string)
    requires RequestTable(env.table) && GoodSent(env, s)
    ensures Load(env, RequestText(env.table, s) + rest) == (AsLoaded(s), rest)
  {
    RequestIsLoaded(env, s, rest);
  }

  // ---------------------------------------------------------------- a conversation

  function RequestsText(table: seq<Row>, sents: seq<Sent>): string {
    if sents == [] then "" else RequestText(table, sents[0]) + RequestsText(table, sents[1..])
  }

  /** Good requests of which at most the last closes the connection. */
  ghost predicate GoodConversation(env: Environment, sents: seq<Sent>) {
    && (forall i :: 0 <= i < |sents| ==> GoodSent(env, sents[i]))
    && forall i :: 0 <= i < |sents| - 1 ==> !Closes(sents[i])
  }

  predicate LastCloses(sents: seq<Sent>) { sents != [] && Closes(sents[|sents| - 1]) }

  function AllLoaded(sents: seq<Sent>): (loaded: seq<LoadOutcome>)
    ensures |loaded| == |sents|
  {
    if sents == [] then [] else [AsLoaded(sents[0])] + AllLoaded(sents[1..])
  }

  /** What the server makes of the end of the stream: a request that it cannot serve. */
  function HangUp(env: Environment): LoadOutcome {
    Loaded(Request(Options, Star, (0, 0), EmptyCollection(|env.table|), true), Some(BadRequest))
  }

  /** The loader loads every request that is sent as it was meant, and takes the end of the stream for
      a bad request. */
  ghost predicate LoadsRequests(env: Environment, load: Loader) {
    && (forall s, rest :: GoodSent(env, s) ==> load(RequestText(env.table, s) + rest) == (AsLoaded(s), rest))
    && load("") == (HangUp(env), "")
  }

  lemma RequestsAreLoaded(env: Environment)
    requires RequestTable(env.table)
    ensures LoadsRequests(env, LoaderOf(env))
  {
    forall s, rest | GoodSent(env, s) ensures Load(env, RequestText(env.table, s) + rest) == (AsLoaded(s), rest) {
      RequestRoundTrip(env, s, rest);
    }
    HangUpIsLoaded(env);
  }

  /** A client that hangs up between requests. */
  lemma HangUpIsLoaded(env: Environment)
    ensures Load(env, "") == (HangUp(env), "")
  {
    assert ReadMethod("") == (None, "");
  }

  /** Requests sent one after the other are read each once, in order; what follows them is read only
      if the last of them keeps the connection open. */
  lemma {:induction false} PipelineIsRead(env: Environment, load: Loader, sents: seq<Sent>, rest: string)
    requires GoodLoader(load) && LoadsRequests(env, load) && GoodConversation(env, sents)
    ensures Reads(load, RequestsText(env.table, sents) + rest) ==
              AllLoaded(sents) + if LastCloses(sents) then [] else Reads(load, rest)
    decreases |sents|
  {
    if sents == [] {
      assert RequestsText(env.table, sents) + rest == rest;
      assert [] + Reads(load, rest) == Reads(load, rest);
    } else {
      var first, more := AsLoaded(sents[0]), RequestsText(env.table, sents[1..]) + rest;
      Associative(RequestText(env.table, sents[0]), RequestsText(env.table, sents[1..]), rest);
      FirstIsRead(env, load, sents[0], more);
      ConversationTail(env, sents);
      if |sents| > 1 || !Closes(sents[0]) {
        PipelineIsRead(env, load, sents[1..], rest);
        Associative([first], AllLoaded(sents[1..]), if LastCloses(sents) then [] else Reads(load, rest));
      } else {
        assert AllLoaded(sents) == [first] + [] && [first] + [] == [first];
      }
    }
  }

  lemma FirstIsRead(env: Environment, load: Loader, s: Sent, more: string)
    requires GoodLoader(load) && LoadsRequests(env, load) && GoodSent(env, s)
    ensures
      var first := AsLoaded(s);
      Reads(load, RequestText(env.table, s) + more) == if Closes(s) then [first] else [first] + Reads(load, more)
  {
    assert load(RequestText(env.table, s) + more) == (AsLoaded(s), more);
  }

  lemma ConversationTail(env: Environment, sents: seq<Sent>)
    requires GoodConversation(env, sents) && sents != []
    ensures GoodConversation(env, sents[1..])
    ensures |sents| > 1 ==> LastCloses(sents) == LastCloses(sents[1..]) && !Closes(sents[0])
  {}

  /** What the loop serves when a client sends requests and then nothing: the requests and, unless
      the last of them closes the connection, one more turn for the end of the stream. */
  lemma ConversationIsServed(env: Environment, load: Loader, sents: seq<Sent>)
    requires GoodLoader(load) && LoadsRequests(env, load) && GoodConversation(env, sents)
    ensures Served(load, RequestsText(env.table, sents)) == AllLoaded(sents) + LastTurn(env, sents)
  {
    var input := RequestsText(env.table, sents);
    PipelineIsRead(env, load, sents, "");
    assert input + "" == input;
    assert Reads(load, "") == [HangUp(env)];
    if LastCloses(sents) {
      AllAreLoaded(sents);
      assert AllLoaded(sents) + [] == AllLoaded(sents);
    }
  }

  lemma {:induction false} AllAreLoaded(sents: seq<Sent>)
    ensures forall i :: 0 <= i < |sents| ==> AllLoaded(sents)[i] == AsLoaded(sents[i])
  {
    if sents != [] { AllAreLoaded(sents[1..]); }
  }

  /** The response that answers no request. */
  function Farewell(): Received { RefusalAsRead(BadRequest) }

  lemma FarewellIs()
    ensures Farewell().status == "400 Bad Request" && Farewell().body == ""
  {
    ErrorTexts();
  }

  /** What a client receives for its requests. */
  function Conversation(handler: Handler, sents: seq<Sent>): seq<Received> {
    Expected(handler, AllLoaded(sents)) + if LastCloses(sents) then [] else [Farewell()]
  }

  /** End to end: a client that sends requests, hangs up and decodes the wire receives the answer to
      each of its requests, in order; and one more response, a 400 that answers none of them, exactly
      when its last request does not close the connection. */
  lemma ConversationIsAnswered(env: Environment, load: Loader, table: seq<Row>, handler: Handler, sents: seq<Sent>,
                               responses: seq<Response>)
    requires GoodLoader(load) && LoadsRequests(env, load) && ResponseTable(table) && GoodConversation(env, sents)
    requires HonestHandler(table, handler, AllLoaded(sents))
    requires Answered(handler, Served(load, RequestsText(env.table, sents)), responses)
    ensures |responses| == if LastCloses(sents) then |sents| else |sents| + 1
    ensures DecodeAll(table, WireText(table, responses)) == Some(Conversation(handler, sents))
  {
    ConversationIsServed(env, load, sents);
    SentAreAnswered(env, table, handler, sents, responses);
  }

  lemma SentErrorsAreOneLine(env: Environment, sents: seq<Sent>)
    ensures OneLineErrors(AllLoaded(sents) + LastTurn(env, sents))
  {
    AllAreLoaded(sents);
    LoadErrorIsOneLine(BadRequest);
  }

  lemma SentAreAnswered(env: Environment, table: seq<Row>, handler: Handler, sents: seq<Sent>, responses: seq<Response>)
    requires ResponseTable(table) && HonestHandler(table, handler, AllLoaded(sents))
    requires Answered(handler, AllLoaded(sents) + LastTurn(env, sents), responses)
    ensures DecodeAll(table, WireText(table, responses)) == Some(Conversation(handler, sents))
  {
    SentErrorsAreOneLine(env, sents);
    LastTurnIsError(env, sents);
    LastTurnIsRead(env, handler, sents);
    var farewell := if LastCloses(sents) then [] else [Farewell()];
    TurnsDecode(table, handler, AllLoaded(sents), LastTurn(env, sents), responses, farewell);
  }

  lemma LastTurnIsError(env: Environment, sents: seq<Sent>)
    ensures
      var last := LastTurn(env, sents);
      forall i :: 0 <= i < |last| ==> last[i].Loaded? && last[i].error.Some?
  {}

  /** The turn without a request, if there is one. */
  function LastTurn(env: Environment, sents: seq<Sent>): seq<LoadOutcome> {
    if LastCloses(sents) then [] else [HangUp(env)]
  }

  lemma LastTurnIsRead(env: Environment, handler: Handler, sents: seq<Sent>)
    ensures EachTurn(AnswerAsRead(handler), LastTurn(env, sents), |sents|) ==
              if LastCloses(sents) then [] else [Farewell()]
  {
    if !LastCloses(sents) {
      OneTurn(AnswerAsRead(handler), HangUp(env), |sents|);
    }
  }

  /** The turns with a request and the one without, if there is one. */
  lemma TurnsDecode(table: seq<Row>, handler: Handler, loaded: seq<LoadOutcome>, last: seq<LoadOutcome>,
                    responses: seq<Response>, farewell: seq<Received>)
    requires EachTurn(AnswerAsRead(handler), last, |loaded|) == farewell
    requires ResponseTable(table) && HonestHandler(table, handler, loaded)
    requires forall i :: 0 <= i < |last| ==> last[i].Loaded? && last[i].error.Some?
    requires Answered(handler, loaded + last, responses)
    requires OneLineErrors(loaded + last)
    ensures DecodeAll(table, WireText(table, responses)) == Some(Expected(handler, loaded) + farewell)
  {
    HonestWithLast(table, handler, loaded, last);
    AnswersDecode(table, handler, loaded + last, responses);
    EachTurnConcat(AnswerAsRead(handler), loaded, last);
  }

  lemma HonestWithLast(table: seq<Row>, handler: Handler, loaded: seq<LoadOutcome>, last: seq<LoadOutcome>)
    requires HonestHandler(table, handler, loaded)
    requires forall i :: 0 <= i < |last| ==> last[i].Loaded? && last[i].error.Some?
    ensures HonestHandler(table, handler, loaded + last)
  {
    var all := loaded + last;
    forall i | 0 <= i < |all| && all[i].Loaded? && all[i].error.None?
      ensures HonestCalls(table, handler(i, all[i].request))
    {
      assert i < |loaded| && all[i] == loaded[i];
    }
  }

  /** The whole conversation over one connection: what the transport has sent in the end decodes to
      the answers. */
  method Converse(env: Environment, table: seq<Row>, handler: Handler, sents: seq<Sent>, readSize: nat, writeSize: nat)
    returns (sent: string)
    requires RequestTable(env.table) && ResponseTable(table) && GoodConversation(env, sents)
    requires readSize >= 1 && writeSize >= 1
    requires forall turn: nat, request :: GoodHandler(handler(turn, request))
    requires HonestHandler(table, handler, AllLoaded(sents))
    ensures DecodeAll(table, sent) == Some(Conversation(handler, sents))
  {
    ghost var responses;
    sent, responses := ServeText(env, table, handler, RequestsText(env.table, sents), readSize, writeSize);
    ServerAnswers(env, table, handler, sents, responses);
  }

  /** A connection from which the server reads `input`. */
  method ServeText(env: Environment, table: seq<Row>, handler: Handler, input: string, readSize: nat, writeSize: nat)
    returns (sent: string, ghost responses: seq<Response>)
    requires |table| == 29 && readSize >= 1 && writeSize >= 1
    requires forall turn: nat, request :: GoodHandler(handler(turn, request))
    ensures sent == WireText(table, responses) && Answered(handler, Served(LoaderOf(env), input), responses)
  {
    var transport := new Transport(input);
    var stream := new BufferedStream(transport, readSize, writeSize);
    ghost var outcomes;
    outcomes, responses := ServeConnection(env, table, handler, stream);
    sent := transport.sent;
    assert "" + WireText(table, responses) == WireText(table, responses);
  }

  lemma ServerAnswers(env: Environment, table: seq<Row>, handler: Handler, sents: seq<Sent>, responses: seq<Response>)
    requires RequestTable(env.table) && ResponseTable(table) && GoodConversation(env, sents)
    requires HonestHandler(table, handler, AllLoaded(sents))
    requires Answered(handler, Served(LoaderOf(env), RequestsText(env.table, sents)), responses)
    ensures DecodeAll(table, WireText(table, responses)) == Some(Conversation(handler, sents))
  {
    RequestsAreLoaded(env);
    ConversationIsAnswered(env, LoaderOf(env), table, handler, sents, responses);
  }
}
