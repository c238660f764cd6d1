/** The keep-alive loop of `server/mod.rs`: one stream, one request after the other. */
module Server {
  import opened Octets
  import opened Utf8
  import opened Chunked
  import opened Messages
  import opened BufferedStreams
  import opened HeaderValues
  import opened Headers
  import opened Encoding
  import opened Requests
  import opened RequestReading
  import opened Loaders
  import opened Responses
  import opened HandlerCalls
  import opened ResponseWriting

  /** What a handler does in each turn of the loop.  Equal requests may be answered differently in
      different turns, so this covers handlers that look at a clock or at anything else. */
  type Handler = (nat, Request) -> seq<HandlerOp>

  /** The response in a turn, as a draft: the handler's or the refusal. */
  function Answer(handler: Handler, turn: nat, outcome: LoadOutcome): Draft
    requires outcome.Loaded?
  {
    match outcome.error case None => Handled(handler(turn, outcome.request)) case Some(status) => Refused(status)
  }

  /** Every response is the answer of its turn. */
  ghost predicate Answered(handler: Handler, outcomes: seq<LoadOutcome>, responses: seq<Response>) {
    && |outcomes| == |responses|
    && forall i :: 0 <= i < |outcomes| ==>
         outcomes[i].Loaded? && Realises(responses[i], Answer(handler, i, outcomes[i]))
  }

  /** The answer to a request that cannot be served: a status and an empty body. */
  method Refuse(writer: ResponseWriter, status: Status)
    requires writer.Valid() && writer.View() == NewDraft()
    modifies writer, writer.headers, writer.writer`writeLen, writer.writer`writingChunkedBody,
             writer.writer.writeBuffer, writer.writer.wrapped`sent
    ensures writer.Valid() && writer.View() == Refused(status)
  {
    writer.status := status;
    writer.headers.known := writer.headers.known[CONTENT_LENGTH_ROW := Some(Number(0))];
    ghost var headers := WithRow(EmptyCollection(29), CONTENT_LENGTH_ROW, Some(Number(0)));
    assert writer.View() == NewDraft().(status := status, headers := headers);
    writer.WriteHeaders();
  }

  /** Answer a request that was loaded and finish the response. */
  method Respond(table: seq<Row>, handler: Handler, turn: nat, outcome: LoadOutcome, stream: BufferedStream)
    returns (ghost response: Response)
    requires stream.Valid() && !stream.Out().chunked
    requires |table| == 29 && outcome.Loaded? && GoodHandler(handler(turn, outcome.request))
    modifies stream`writeLen, stream`writingChunkedBody, stream.writeBuffer, stream.wrapped`sent
    ensures stream.Valid() && Realises(response, Answer(handler, turn, outcome))
    ensures stream.Out() == Output(old(stream.Out()).Total() + ResponseText(table, response), "", false)
  {
    var writer := new ResponseWriter(stream, table);
    match outcome.error {
      case None =>
        writer.Run(handler(turn, outcome.request));
        writer.TryWriteHeaders();
      case Some(status) =>
        Refuse(writer, status);
    }
    writer.FinishResponse();
    writer.FinishedText();
    response := writer.AsResponse();
  }

  /** The history of a connection before a turn of the loop: the wire holds the answers to the
      requests served, nothing is buffered, and chunked mode is off. */
  ghost predicate History(table: seq<Row>, handler: Handler, wire: string, out: Output,
                          outcomes: seq<LoadOutcome>, responses: seq<Response>)
  {
    Answered(handler, outcomes, responses) && out == Output(wire + WireText(table, responses), "", false)
  }

  lemma HistoryGrows(table: seq<Row>, handler: Handler, wire: string, out: Output, outcomes: seq<LoadOutcome>,
                     responses: seq<Response>, o: LoadOutcome, r: Response)
    requires History(table, handler, wire, out, outcomes, responses)
    requires o.Loaded? && Realises(r, Answer(handler, |outcomes|, o))
    ensures History(table, handler, wire, Output(out.Total() + ResponseText(table, r), "", false),
                    outcomes + [o], responses + [r])
  {
    AnsweredGrows(handler, outcomes, responses, o, r);
    assert out.wire + "" == out.wire;
    JoinedAppend(TextOf(table), responses, r);
    Associative(wire, WireText(table, responses), ResponseText(table, r));
  }

  lemma AnsweredGrows(handler: Handler, outcomes: seq<LoadOutcome>, responses: seq<Response>, o: LoadOutcome,
                      r: Response)
    requires Answered(handler, outcomes, responses) && o.Loaded? && Realises(r, Answer(handler, |outcomes|, o))
    ensures Answered(handler, outcomes + [o], responses + [r])
  {}

  /** The keep-alive loop.  The wire holds one response per turn in order and nothing else, each the
      answer to what was read in that turn; the buffer is empty and chunked mode off after each of
      them; and nothing is read after a request that closes the connection. */
  method ServeConnection(env: Environment, table: seq<Row>, handler: Handler, stream: BufferedStream)
    returns (ghost outcomes: seq<LoadOutcome>, ghost responses: seq<Response>)
    requires stream.Valid() && stream.Out().pending == "" && !stream.Out().chunked
    requires |table| == 29 && forall turn: nat, request :: GoodHandler(handler(turn, request))
    modifies stream, stream.wrapped, stream.readBuffer, stream.writeBuffer
    ensures stream.Valid() && outcomes == Served(LoaderOf(env), old(stream.Unread()))
    ensures History(table, handler, old(stream.Out().wire), stream.Out(), outcomes, responses)
  {
    outcomes, responses := [], [];
    var turn := 0;
    ghost var load := LoaderOf(env);
    ghost var wire, read := stream.Out().wire, Reads(load, stream.Unread());
    assert wire + WireText(table, []) == wire;
    while true
      invariant stream.Valid() && turn == |outcomes| && outcomes + Reads(load, stream.Unread()) == read
      invariant History(table, handler, wire, stream.Out(), outcomes, responses)
      decreases |stream.Unread()|
    {
      ReadsGrow(load, outcomes, stream.Unread(), read);
      ghost var out := stream.Out();
      var outcome := LoadRequest(env, stream);
      if !outcome.Loaded? {
        return;
      }
      ghost var response := Respond(table, handler, turn, outcome, stream);
      HistoryGrows(table, handler, wire, out, outcomes, responses, outcome, response);
      outcomes, responses := outcomes + [outcome], responses + [response];
      turn := turn + 1;
      if outcome.request.closeConnection {
        return;
      }
    }
  }

  // ---------------------------------------------------------------- the other end of the connection

  /** What a client makes of the answer of a turn: what the handler's calls say, or the refusal.  A
      request that is not loaded is not answered. */
  function AnswerAsRead(handler: Handler): (nat, LoadOutcome) -> Received {
    (turn: nat, outcome: LoadOutcome) =>
      match outcome
      case Loaded(request, None) => CallsAsRead(handler(turn, request))
      case Loaded(_, Some(status)) => RefusalAsRead(status)
      case _ => RefusalAsRead(BadRequest)
  }

  /** What a client should receive: status, headers and body of every answer. */
  function Expected(handler: Handler, outcomes: seq<LoadOutcome>): seq<Received> {
    EachTurn(AnswerAsRead(handler), outcomes, 0)
  }

  lemma AnswerDecodes(table: seq<Row>, handler: Handler, turn: nat, outcome: LoadOutcome, r: Response)
    requires ResponseTable(table) && outcome.Loaded? && Realises(r, Answer(handler, turn, outcome))
    requires outcome.error.None? ==> HonestCalls(table, handler(turn, outcome.request))
    requires OneLineError(outcome)
    ensures Decodable(table, r) && r.trailing == "" && AsRead(r) == AnswerAsRead(handler)(turn, outcome)
  {
    match outcome.error {
      case None => HandledDecodes(table, handler(turn, outcome.request), r);
      case Some(status) => RefusalDecodes(table, status, r);
    }
  }

  lemma AnswersAreExpected(handler: Handler, outcomes: seq<LoadOutcome>, responses: seq<Response>)
    requires |outcomes| == |responses|
    requires forall i :: 0 <= i < |outcomes| ==> AsRead(responses[i]) == AnswerAsRead(handler)(i, outcomes[i])
    ensures AsReceived(responses) == Expected(handler, outcomes)
  {
    FromTheStart(AnswerAsRead(handler), outcomes, AsReceived(responses));
  }

  /** In every turn in which the handler is asked, it tells the truth about its body. */
  ghost predicate HonestHandler(table: seq<Row>, handler: Handler, outcomes: seq<LoadOutcome>) {
    forall i :: 0 <= i < |outcomes| && outcomes[i].Loaded? && outcomes[i].error.None? ==>
                  HonestCalls(table, handler(i, outcomes[i].request))
  }

  /** On every run of the connection loop with handlers that tell the truth about their bodies, a
      client that decodes the wire receives the answer of each turn, in order, and nothing else: the
      head that the handler's calls set and the octets that they write, or the refusal. */
  lemma ClientReceivesAnswers(load: Loader, table: seq<Row>, handler: Handler, input: string,
                              outcomes: seq<LoadOutcome>, responses: seq<Response>)
    requires GoodLoader(load) && ResponseTable(table) && HonestHandler(table, handler, outcomes)
    requires outcomes == Served(load, input) && Answered(handler, outcomes, responses)
    ensures DecodeAll(table, WireText(table, responses)) == Some(Expected(handler, outcomes))
  {
    ServedErrorsAreOneLine(load, input);
    AnswersDecode(table, handler, outcomes, responses);
  }

  lemma AnswersDecode(table: seq<Row>, handler: Handler, outcomes: seq<LoadOutcome>, responses: seq<Response>)
    requires ResponseTable(table) && HonestHandler(table, handler, outcomes)
    requires Answered(handler, outcomes, responses) && OneLineErrors(outcomes)
    ensures DecodeAll(table, WireText(table, responses)) == Some(Expected(handler, outcomes))
  {
    AllDecodable(table, handler, outcomes, responses);
    WireDecodes(table, responses);
    AnswersAreExpected(handler, outcomes, responses);
  }

  lemma AllDecodable(table: seq<Row>, handler: Handler, outcomes: seq<LoadOutcome>, responses: seq<Response>)
    requires ResponseTable(table) && HonestHandler(table, handler, outcomes)
    requires Answered(handler, outcomes, responses) && OneLineErrors(outcomes)
    ensures forall i :: 0 <= i < |responses| ==> Decodable(table, responses[i]) && responses[i].trailing == ""
    ensures forall i :: 0 <= i < |outcomes| ==> AsRead(responses[i]) == AnswerAsRead(handler)(i, outcomes[i])
  {
    forall i | 0 <= i < |responses|
      ensures Decodable(table, responses[i]) && responses[i].trailing == ""
      ensures AsRead(responses[i]) == AnswerAsRead(handler)(i, outcomes[i])
    {
      AnswerDecodes(table, handler, i, outcomes[i], responses[i]);
    }
  }
}
