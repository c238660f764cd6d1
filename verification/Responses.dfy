/** `server/response.rs` as history: what a handler's calls make of a response, how the response
    stands on the wire, and how a client gets it back.
 */
module Responses {
  import opened Octets
  import opened Utf8
  import opened Numbers
  import opened Messages
  import opened Chunked
  import opened HeaderValues
  import opened Headers
  import opened Encoding
  import HeaderWriting
  import opened Requests

  const TRANSFER_ENCODING_ROW: nat := 5
  const CONTENT_LENGTH_ROW: nat := 22
  const CONTENT_TYPE_ROW: nat := 26

  ghost predicate ResponseTable(table: seq<Row>) {
    && GoodTable(table) && |table| == 29
    && table[TRANSFER_ENCODING_ROW].kind == ListKind(CodingKind)
    && table[CONTENT_LENGTH_ROW].kind == NumberKind
    && table[CONTENT_TYPE_ROW].kind == MediaKind
  }

  // ---------------------------------------------------------------- what a handler does

  /** The calls and assignments a handler may make. */
  datatype HandlerOp =
    | SetHead(status: Status, headers: Collection)
    | WriteHeaders
    | TryWriteHeaders
    | WriteBody(buf: string)
    | FlushBody
    | WriteContentAuto(contentType: MediaType, content: string)
    | FinishBody

  datatype Printed = Printed(status: Status, headers: Collection)

  /** A response in the making: the current head, the head as it was printed, the body so far,
      whether a chunked body was already finished, and what was written after that. */
  datatype Draft = Draft(status: Status, headers: Collection, printed: Option<Printed>, body: string,
                         finished: bool, trailing: string)

  function HasLength(headers: Collection): bool {
    CONTENT_LENGTH_ROW < |headers.known| && headers.known[CONTENT_LENGTH_ROW].Some?
  }

  function WithRow(headers: Collection, row: nat, value: Option<HeaderValue>): Collection {
    if row < |headers.known| then headers.(known := headers.known[row := value]) else headers
  }

  /** The Transfer-Encoding that `write_headers` imposes. */
  function WithCoding(headers: Collection): Collection {
    WithRow(headers, TRANSFER_ENCODING_ROW,
            if HasLength(headers) then None else Some(List([CodingItem(ChunkedCoding)])))
  }

  function Print(d: Draft): Draft {
    d.(headers := WithCoding(d.headers), printed := Some(Printed(d.status, WithCoding(d.headers))))
  }

  function TryPrint(d: Draft): Draft { if d.printed.Some? then d else Print(d) }

  /** The length is that of the content's octets. */
  function AutoHeaders(headers: Collection, contentType: MediaType, content: string): Collection {
    WithRow(WithRow(headers, CONTENT_TYPE_ROW, Some(Media(contentType))),
            CONTENT_LENGTH_ROW, Some(Number(|Encode(content)|)))
  }

  /** In chunked mode the last chunk ends the body; otherwise finishing only flushes. */
  function Finish(d: Draft): Draft {
    if d.printed.Some? && !HasLength(d.printed.value.headers) then d.(finished := true) else d
  }

  function Append(d: Draft, octets: string): Draft {
    if d.finished then d.(trailing := d.trailing + octets) else d.(body := d.body + octets)
  }

  function Step(d: Draft, op: HandlerOp): Draft {
    match op
    case SetHead(status, headers) => d.(status := status, headers := headers)
    case WriteHeaders => Print(d)
    case TryWriteHeaders => TryPrint(d)
    case WriteBody(buf) => Append(TryPrint(d), buf)
    case FlushBody => d
    case WriteContentAuto(contentType, content) =>
      Append(Print(d.(headers := AutoHeaders(d.headers, contentType, content))), Encode(content))
    case FinishBody => Finish(d)
  }

  function Steps(d: Draft, ops: seq<HandlerOp>): Draft
    decreases |ops|
  {
    if ops == [] then d else Steps(Step(d, ops[0]), ops[1..])
  }

  /** The head can be printed: the tokens that are asserted to be tokens are. */
  ghost predicate Printable(d: Draft) {
    |d.headers.known| == 29 && HeaderWriting.WritableCollection(WithCoding(d.headers))
  }

  /** The call does not fail: a head is printed once, and only a printable one. */
  ghost predicate Allowed(d: Draft, op: HandlerOp) {
    match op
    case SetHead(_, headers) => |headers.known| == 29
    case WriteHeaders => d.printed.None? && Printable(d)
    case TryWriteHeaders => d.printed.None? ==> Printable(d)
    case WriteBody(_) => d.printed.None? ==> Printable(d)
    case FlushBody => true
    case WriteContentAuto(contentType, content) =>
      d.printed.None? && Printable(d.(headers := AutoHeaders(d.headers, contentType, content)))
    case FinishBody => true
  }

  ghost predicate AllowedAll(d: Draft, ops: seq<HandlerOp>)
    decreases |ops|
  {
    ops == [] || (Allowed(d, ops[0]) && AllowedAll(Step(d, ops[0]), ops[1..]))
  }

  function NewDraft(): Draft { Draft(StatusOk, EmptyCollection(29), None, "", false, "") }

  /** All of a handler's calls and the `try_write_headers` that the server makes after them. */
  function Handled(ops: seq<HandlerOp>): Draft { TryPrint(Steps(NewDraft(), ops)) }

  ghost predicate GoodHandler(ops: seq<HandlerOp>) {
    AllowedAll(NewDraft(), ops) && Allowed(Steps(NewDraft(), ops), TryWriteHeaders)
  }

  /** What the server answers when the request could not be served. */
  function Refused(status: Status): Draft {
    Print(NewDraft().(status := status, headers := WithRow(EmptyCollection(29), CONTENT_LENGTH_ROW, Some(Number(0)))))
  }

  // ---------------------------------------------------------------- how it stands on the wire

  /** The octets of the head. */
  function HeadText(table: seq<Row>, head: Printed): string {
    "HTTP/1.1 " + Encode(StatusText(head.status)) + CRLF + PrintAll(table, EncodeCollection(head.headers))
  }

  /** A response on the wire: its head, then its body verbatim or, without a length, in chunks, then
      what was written after the last chunk. */
  datatype Response = Response(head: Printed, body: string, chunks: seq<string>, trailing: string)

  ghost predicate GoodFraming(r: Response) {
    !HasLength(r.head.headers) ==> NonEmpty(r.chunks) && Flatten(r.chunks) == r.body
  }

  function BodyText(r: Response): string {
    if HasLength(r.head.headers) then r.body else Frames(r.chunks) + LAST_CHUNK
  }

  function ResponseText(table: seq<Row>, r: Response): string { HeadText(table, r.head) + BodyText(r) + r.trailing }

  function TextOf(table: seq<Row>): Response -> string { (r: Response) => ResponseText(table, r) }

  /** Responses one after the other. */
  function WireText(table: seq<Row>, rs: seq<Response>): string { Joined(TextOf(table), rs) }

  /** The response is the one a draft describes. */
  ghost predicate Realises(r: Response, d: Draft) {
    d.printed == Some(r.head) && r.body == d.body && r.trailing == d.trailing && GoodFraming(r)
  }

  // ---------------------------------------------------------------- how a client gets it back

  function StatusLineEnd(s: string): (n: nat)
    ensures n <= |s|
  {
    if s == "" || s[0] == CR then 0 else 1 + StatusLineEnd(s[1..])
  }

  datatype Received = Received(status: string, headers: Collection, body: string)

  function IsChunked(headers: Collection): bool {
    TRANSFER_ENCODING_ROW < |headers.known| &&
    headers.known[TRANSFER_ENCODING_ROW] == Some(List([CodingItem(ChunkedCoding)]))
  }

  /** The body after the head, framed by Transfer-Encoding or else by Content-Length. */
  function DecodeBody(headers: Collection, s: string): Option<(string, string)> {
    if IsChunked(headers) then Decode(s)
    else if HasLength(headers) && headers.known[CONTENT_LENGTH_ROW].value.Number? &&
            headers.known[CONTENT_LENGTH_ROW].value.n <= |s|
    then var n := headers.known[CONTENT_LENGTH_ROW].value.n; Some((s[..n], s[n..]))
    else None
  }

  /** One response off the wire: the status line, the headers as the library's own reader reads
      them, and the body framed as the headers say. */
  function DecodeResponse(table: seq<Row>, wire: string): Option<(Received, string)> {
    if !StartsWith(wire, "HTTP/1.1 ") then None
    else
      var line := wire[9..];
      var n := StatusLineEnd(line);
      if !StartsWith(line[n..], CRLF) then None
      else
        DecodeAfterLine(table, line[..n], line[n + 2..])
  }

  function DecodeAfterLine(table: seq<Row>, status: string, wire: string): Option<(Received, string)> {
    match ReadHeaders(table, wire, EmptyCollection(|table|))
    case (AllRead, headers, rest) =>
      (match DecodeBody(headers, rest)
       case Some((body, after)) => Some((Received(status, headers, body), after))
       case None => None)
    case _ => None
  }

  /** What the client is told is what holds: the length, if any, is the length of the body. */
  ghost predicate Honest(table: seq<Row>, r: Response) {
    && OneLine(StatusText(r.head.status)) && GoodCollection(table, EncodeCollection(r.head.headers))
    && (HasLength(r.head.headers) ==> r.head.headers.known[CONTENT_LENGTH_ROW] == Some(Number(|r.body|)))
  }

  lemma StatusLine(text: string, rest: string)
    requires OneLine(text)
    ensures
      var line := text + CRLF + rest;
      && StatusLineEnd(line) == |text| && line[..|text|] == text
      && StartsWith(line[|text|..], CRLF) && line[|text| + 2..] == rest
  {
    var line := text + CRLF + rest;
    StatusLineEndIs(text, rest);
    assert line[|text|..] == CRLF + rest;
  }

  lemma {:induction false} StatusLineEndIs(text: string, rest: string)
    requires OneLine(text)
    ensures StatusLineEnd(text + CRLF + rest) == |text|
  {
    if text == "" {
      assert text + CRLF + rest == CRLF + rest;
    } else {
      assert text[0] in text && OneLine(text[1..]);
      assert (text + CRLF + rest)[1..] == text[1..] + CRLF + rest;
      StatusLineEndIs(text[1..], rest);
    }
  }

  /** Encoding the texts of the headers changes nothing about the framing. */
  lemma FramingOctets(headers: Collection)
    requires |headers.known| == 29 && WithCoding(headers) == headers
    ensures
      var read := EncodeCollection(headers);
      && HasLength(read) == HasLength(headers) && IsChunked(read) == !HasLength(headers)
      && forall n :: headers.known[CONTENT_LENGTH_ROW] == Some(Number(n)) ==>
                       read.known[CONTENT_LENGTH_ROW] == Some(Number(n))
  {
    var chunked := CodingItem(ChunkedCoding);
    assert EncodeItems([chunked]) == [chunked];
  }

  lemma BodyDecodes(r: Response, after: string)
    requires GoodFraming(r) && |r.head.headers.known| == 29 && WithCoding(r.head.headers) == r.head.headers
    requires HasLength(r.head.headers) ==> r.head.headers.known[CONTENT_LENGTH_ROW] == Some(Number(|r.body|))
    ensures DecodeBody(EncodeCollection(r.head.headers), BodyText(r) + after) == Some((r.body, after))
  {
    var s := BodyText(r) + after;
    FramingOctets(r.head.headers);
    if HasLength(r.head.headers) {
      assert s[..|r.body|] == r.body && s[|r.body|..] == after;
    } else {
      DecodeFrames(r.chunks, after);
    }
  }

  lemma ResponseLayout(table: seq<Row>, r: Response, after: string)
    ensures
      var rest := PrintAll(table, EncodeCollection(r.head.headers)) + (BodyText(r) + (r.trailing + after));
      var line := Encode(StatusText(r.head.status)) + CRLF + rest;
      ResponseText(table, r) + after == "HTTP/1.1 " + line && ("HTTP/1.1 " + line)[9..] == line
      && StartsWith("HTTP/1.1 " + line, "HTTP/1.1 ")
  {
    var head := PrintAll(table, EncodeCollection(r.head.headers));
    LayoutMoves("HTTP/1.1 ", Encode(StatusText(r.head.status)), head, BodyText(r), r.trailing, after);
  }

  lemma LayoutMoves(a: string, b: string, c: string, d: string, e: string, f: string)
    ensures a + b + CRLF + c + d + e + f == a + (b + CRLF + (c + (d + (e + f))))
  {}

  /** What a client makes of a response: every text of the head is what its octets say. */
  function AsRead(r: Response): Received {
    Received(Encode(StatusText(r.head.status)), EncodeCollection(r.head.headers), r.body)
  }

  /** The response went through `write_headers` and tells the truth about its body. */
  ghost predicate Decodable(table: seq<Row>, r: Response) {
    Honest(table, r) && GoodFraming(r) && WithCoding(r.head.headers) == r.head.headers
  }

  /** A client gets exactly the response back, and what was written after it is left on the wire. */
  lemma ResponseDecodes(table: seq<Row>, r: Response, after: string)
    requires ResponseTable(table) && Decodable(table, r)
    ensures DecodeResponse(table, ResponseText(table, r) + after) == Some((AsRead(r), r.trailing + after))
  {
    var status, headers := Encode(StatusText(r.head.status)), EncodeCollection(r.head.headers);
    var rest := BodyText(r) + (r.trailing + after);
    ResponseLayout(table, r, after);
    OneLineOctets(StatusText(r.head.status));
    LineDecodes(table, status, PrintAll(table, headers) + rest);
    CollectionRoundTrip(table, headers, rest);
    BodyDecodes(r, r.trailing + after);
  }

  lemma LineDecodes(table: seq<Row>, status: string, rest: string)
    requires OneLine(status)
    ensures
      var line := status + CRLF + rest;
      ("HTTP/1.1 " + line)[9..] == line && StartsWith("HTTP/1.1 " + line, "HTTP/1.1 ") ==>
        DecodeResponse(table, "HTTP/1.1 " + line) == DecodeAfterLine(table, status, rest)
  {
    StatusLine(status, rest);
  }

  /** A client that reads a response alone on the wire gets it and nothing else exactly when nothing
      was written after the body was finished. */
  lemma DecodesIffNothingTrails(table: seq<Row>, r: Response)
    requires ResponseTable(table) && Decodable(table, r)
    ensures DecodeAll(table, ResponseText(table, r)) == Some([AsRead(r)]) <==> r.trailing == ""
  {
    ResponseDecodes(table, r, "");
    assert ResponseText(table, r) + "" == ResponseText(table, r) && r.trailing + "" == r.trailing;
    TrailingIsShorter(table, r);
    OnlyMessage(ReaderOf(table), ResponseText(table, r), AsRead(r), r.trailing);
  }

  lemma TrailingIsShorter(table: seq<Row>, r: Response)
    ensures |r.trailing| < |ResponseText(table, r)|
  {
    assert |ResponseText(table, r)| >= |HeadText(table, r.head)| + |r.trailing|;
  }

  function ReaderOf(table: seq<Row>): Decoder<Received> { (wire: string) => DecodeResponse(table, wire) }

  /** All responses off the wire, in order; `None` if anything on it is not a response. */
  function DecodeAll(table: seq<Row>, wire: string): Option<seq<Received>> { DecodeEach(ReaderOf(table), wire) }

  function AsReceived(rs: seq<Response>): seq<Received> { Mapped((r: Response) => AsRead(r), rs) }

  lemma IsTakenOff(table: seq<Row>, r: Response)
    requires ResponseTable(table) && Decodable(table, r) && r.trailing == ""
    ensures Decodes(ReaderOf(table), TextOf(table)(r), AsRead(r))
  {
    TrailingIsShorter(table, r);
    forall after ensures ReaderOf(table)(TextOf(table)(r) + after) == Some((AsRead(r), after)) {
      DecodesBefore(table, r, after);
    }
  }

  lemma DecodesBefore(table: seq<Row>, r: Response, after: string)
    requires ResponseTable(table) && Decodable(table, r) && r.trailing == ""
    ensures DecodeResponse(table, ResponseText(table, r) + after) == Some((AsRead(r), after))
  {
    ResponseDecodes(table, r, after);
    assert r.trailing + after == after;
  }

  /** A client that reads the wire gets the responses, each once and in order, with their bodies, and
      nothing else. */
  lemma WireDecodes(table: seq<Row>, rs: seq<Response>)
    requires ResponseTable(table) && forall i :: 0 <= i < |rs| ==> Decodable(table, rs[i]) && rs[i].trailing == ""
    ensures DecodeAll(table, WireText(table, rs)) == Some(AsReceived(rs))
  {
    var value := (r: Response) => AsRead(r);
    forall i | 0 <= i < |rs| ensures Decodes(ReaderOf(table), TextOf(table)(rs[i]), value(rs[i])) {
      IsTakenOff(table, rs[i]);
    }
    EachDecodes(ReaderOf(table), TextOf(table), value, rs);
  }

  // ---------------------------------------------------------------- drafts that decode

  lemma {:induction false} StepsKeepCoding(d: Draft, ops: seq<HandlerOp>)
    requires d.printed.Some? ==> WithCoding(d.printed.value.headers) == d.printed.value.headers
    ensures
      var printed := Steps(d, ops).printed;
      printed.Some? ==> WithCoding(printed.value.headers) == printed.value.headers
    decreases |ops|
  {
    if ops != [] {
      StepsKeepCoding(Step(d, ops[0]), ops[1..]);
    }
  }

  /** A draft that tells the truth about its body and has nothing after it decodes. */
  lemma DraftDecodes(table: seq<Row>, ops: seq<HandlerOp>, r: Response)
    requires Realises(r, Handled(ops)) && Honest(table, r)
    ensures Decodable(table, r)
  {
    HandledKeepsCoding(ops);
  }

  lemma HandledKeepsCoding(ops: seq<HandlerOp>)
    ensures
      var printed := Handled(ops).printed;
      printed.Some? && WithCoding(printed.value.headers) == printed.value.headers
  {
    StepsKeepCoding(NewDraft(), ops);
    CodingTwice(Steps(NewDraft(), ops).headers);
  }

  /** What the server sends instead of serving a request is always an honest empty response. */
  lemma RefusedDecodes(table: seq<Row>, status: Status, r: Response)
    requires ResponseTable(table) && OneLine(StatusText(status)) && Realises(r, Refused(status))
    ensures Decodable(table, r) && r.body == "" && r.trailing == ""
  {
    var headers := WithRow(EmptyCollection(29), CONTENT_LENGTH_ROW, Some(Number(0)));
    assert WithCoding(headers) == headers;
    OneRowOctets(CONTENT_LENGTH_ROW, Number(0));
    OneRowIsGood(table, CONTENT_LENGTH_ROW, Number(0));
  }

  /** Collections with one typed header. */
  lemma OneRowOctets(row: nat, value: HeaderValue)
    requires row < 29
    ensures EncodeCollection(WithRow(EmptyCollection(29), row, Some(value))) ==
              WithRow(EmptyCollection(29), row, Some(EncodeValue(value)))
  {
    var known := EmptyCollection(29).known[row := Some(value)];
    var encoded := EmptyCollection(29).known[row := Some(EncodeValue(value))];
    forall i | 0 <= i < 29 ensures EncodeKnown(known)[i] == encoded[i] {}
    assert EncodeKnown(known) == encoded;
  }

  lemma OneRowIsGood(table: seq<Row>, row: nat, value: HeaderValue)
    requires |table| == 29 && row < 29 && GoodValue(table[row].kind, value)
    ensures GoodCollection(table, WithRow(EmptyCollection(29), row, Some(value)))
  {}

  lemma CodingTwice(headers: Collection)
    ensures WithCoding(WithCoding(headers)) == WithCoding(headers)
  {}

  /** The head of a response without any header of its own. */
  lemma EmptyChunkedIsHonest(table: seq<Row>)
    requires ResponseTable(table)
    ensures
      var headers := WithCoding(EmptyCollection(29));
      GoodCollection(table, EncodeCollection(headers)) && !HasLength(headers) && OneLine(StatusText(StatusOk))
  {
    var value := List([CodingItem(ChunkedCoding)]);
    ChunkedIsGood();
    OneRowOctets(TRANSFER_ENCODING_ROW, value);
    OneRowIsGood(table, TRANSFER_ENCODING_ROW, value);
    assert WithCoding(EmptyCollection(29)) == WithRow(EmptyCollection(29), TRANSFER_ENCODING_ROW, Some(value));
    OneLineOk();
  }

  lemma ChunkedIsGood()
    ensures GoodValue(ListKind(CodingKind), List([CodingItem(ChunkedCoding)]))
    ensures EncodeValue(List([CodingItem(ChunkedCoding)])) == List([CodingItem(ChunkedCoding)])
  {
    assert EncodeItems([CodingItem(ChunkedCoding)]) == [CodingItem(ChunkedCoding)];
  }

  lemma OneLineOk()
    ensures OneLine(StatusText(StatusOk))
  {
    var s := StatusText(StatusOk);
    forall i | 0 <= i < |s| ensures s[i] != CR && s[i] != LF {}
  }
}
