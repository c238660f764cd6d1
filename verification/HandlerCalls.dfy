/** What a handler's calls amount to, from the calls alone: the head that is printed, the octets that
    are written, and which of them come too late.
 */
module HandlerCalls {
  import opened Octets
  import opened Utf8
  import opened Messages
  import opened HeaderValues
  import opened Headers
  import opened Encoding
  import opened Requests
  import opened Responses

  // ---------------------------------------------------------------- the body

  /** The octets that a call writes. */
  function OctetsOf(op: HandlerOp): string {
    match op case WriteBody(buf) => buf case WriteContentAuto(_, content) => Encode(content) case _ => ""
  }

  function WrittenBy(ops: seq<HandlerOp>): string {
    if ops == [] then "" else OctetsOf(ops[0]) + WrittenBy(ops[1..])
  }

  lemma {:induction false} StepsWrite(d: Draft, ops: seq<HandlerOp>)
    requires !d.finished ==> d.trailing == ""
    ensures Steps(d, ops).body + Steps(d, ops).trailing == d.body + d.trailing + WrittenBy(ops)
    decreases |ops|
  {
    var text := d.body + d.trailing;
    if ops == [] {
      assert text + "" == text;
    } else {
      StepWrites(d, ops[0]);
      StepsWrite(Step(d, ops[0]), ops[1..]);
      Associative(text, OctetsOf(ops[0]), WrittenBy(ops[1..]));
    }
  }

  lemma StepWrites(d: Draft, op: HandlerOp)
    requires !d.finished ==> d.trailing == ""
    ensures
      var next := Step(d, op);
      && (!next.finished ==> next.trailing == "")
      && next.body + next.trailing == d.body + d.trailing + OctetsOf(op)
  {
    if d.finished {
      Associative(d.body, d.trailing, OctetsOf(op));
    } else {
      assert d.body + "" == d.body && Step(d, op).body + "" == Step(d, op).body;
    }
  }

  /** The body, with what comes after the last chunk, is what the calls write, in order. */
  lemma BodyIsWritten(ops: seq<HandlerOp>)
    ensures Handled(ops).body + Handled(ops).trailing == WrittenBy(ops)
  {
    StepsWrite(NewDraft(), ops);
    assert "" + "" + WrittenBy(ops) == WrittenBy(ops);
  }

  // ---------------------------------------------------------------- the head

  predicate Prints(op: HandlerOp) {
    op.WriteHeaders? || op.TryWriteHeaders? || op.WriteBody? || op.WriteContentAuto?
  }

  /** The first call that prints the head, or the number of calls. */
  function FirstPrint(ops: seq<HandlerOp>): (k: nat)
    ensures k <= |ops| && (k < |ops| ==> Prints(ops[k]))
    ensures forall i :: 0 <= i < k ==> !Prints(ops[i])
  {
    if ops == [] || Prints(ops[0]) then 0 else 1 + FirstPrint(ops[1..])
  }

  /** The status and headers that were set last. */
  function LastSet(ops: seq<HandlerOp>): Printed {
    if ops == [] then Printed(StatusOk, EmptyCollection(29))
    else
      match ops[|ops| - 1]
      case SetHead(status, headers) => Printed(status, headers)
      case _ => LastSet(ops[..|ops| - 1])
  }

  /** The type and the length that the call sets itself. */
  function Imposed(ops: seq<HandlerOp>, k: nat): Option<(MediaType, nat)> {
    if k < |ops| && ops[k].WriteContentAuto? then Some((ops[k].contentType, |Encode(ops[k].content)|)) else None
  }

  /** Row by row: what was set, but for the type and length imposed and the Transfer-Encoding, which is
      chunked exactly without a length. */
  function HeadRow(given: Collection, imposed: Option<(MediaType, nat)>, i: nat): Option<HeaderValue>
    requires i < 29 == |given.known|
  {
    if i == TRANSFER_ENCODING_ROW then
      if imposed.Some? || given.known[CONTENT_LENGTH_ROW].Some? then None else Some(List([CodingItem(ChunkedCoding)]))
    else if i == CONTENT_TYPE_ROW && imposed.Some? then Some(Media(imposed.value.0))
    else if i == CONTENT_LENGTH_ROW && imposed.Some? then Some(Number(imposed.value.1))
    else given.known[i]
  }

  function HeadRows(given: Collection, imposed: Option<(MediaType, nat)>): Collection {
    if |given.known| != 29 then given
    else Collection(seq(29, i requires 0 <= i < 29 => HeadRow(given, imposed, i)), given.extensions)
  }

  /** The head that the calls print: what was set last before the first call that prints. */
  function HeadOf(ops: seq<HandlerOp>): Printed {
    var k := FirstPrint(ops);
    var given := LastSet(ops[..k]);
    Printed(given.status, HeadRows(given.headers, Imposed(ops, k)))
  }

  lemma RowsAre(given: Collection, contentType: MediaType, content: string)
    requires |given.known| == 29
    ensures WithCoding(given) == HeadRows(given, None)
    ensures WithCoding(AutoHeaders(given, contentType, content)) ==
              HeadRows(given, Some((contentType, |Encode(content)|)))
  {
    assert WithCoding(given).known == HeadRows(given, None).known;
    var auto := WithCoding(AutoHeaders(given, contentType, content));
    assert auto.known == HeadRows(given, Some((contentType, |Encode(content)|))).known;
  }

  /** Before any call prints, the draft holds what was set last. */
  lemma {:induction false} NothingPrinted(ops: seq<HandlerOp>)
    requires AllowedAll(NewDraft(), ops) && forall i :: 0 <= i < |ops| ==> !Prints(ops[i])
    ensures
      var d := Steps(NewDraft(), ops);
      d == NewDraft().(status := LastSet(ops).status, headers := LastSet(ops).headers) && |d.headers.known| == 29
    decreases |ops|
  {
    if ops != [] {
      var n := |ops| - 1;
      assert ops[..n] + [ops[n]] == ops;
      AllowedFront(NewDraft(), ops[..n], ops[n]);
      NothingPrinted(ops[..n]);
      StepsAppend(NewDraft(), ops[..n], ops[n]);
    }
  }

  /** Once printed, a head stays as it is. */
  lemma {:induction false} PrintedStays(d: Draft, ops: seq<HandlerOp>)
    requires AllowedAll(d, ops) && d.printed.Some?
    ensures Steps(d, ops).printed == d.printed
    decreases |ops|
  {
    if ops != [] { PrintedStays(Step(d, ops[0]), ops[1..]); }
  }

  lemma {:induction false} StepsAppend(d: Draft, ops: seq<HandlerOp>, op: HandlerOp)
    ensures Steps(d, ops + [op]) == Step(Steps(d, ops), op)
    decreases |ops|
  {
    if ops == [] {
      assert ops + [op] == [op] && [op][1..] == [];
    } else {
      assert (ops + [op])[1..] == ops[1..] + [op];
      StepsAppend(Step(d, ops[0]), ops[1..], op);
    }
  }

  lemma {:induction false} AllowedFront(d: Draft, ops: seq<HandlerOp>, op: HandlerOp)
    requires AllowedAll(d, ops + [op])
    ensures AllowedAll(d, ops) && Allowed(Steps(d, ops), op)
    decreases |ops|
  {
    if ops == [] {
      assert ops + [op] == [op];
    } else {
      assert (ops + [op])[1..] == ops[1..] + [op];
      AllowedFront(Step(d, ops[0]), ops[1..], op);
    }
  }

  lemma {:induction false} AllowedSplit(d: Draft, ops: seq<HandlerOp>, k: nat)
    requires AllowedAll(d, ops) && k <= |ops|
    ensures AllowedAll(d, ops[..k]) && AllowedAll(Steps(d, ops[..k]), ops[k..])
    ensures Steps(d, ops) == Steps(Steps(d, ops[..k]), ops[k..])
    decreases k
  {
    if k == 0 {
      assert ops[..0] == [] && ops[0..] == ops;
    } else {
      AllowedSplit(Step(d, ops[0]), ops[1..], k - 1);
      assert ops[..k][1..] == ops[1..][..k - 1] && ops[k..] == ops[1..][k - 1..];
    }
  }

  /** The first call that prints, prints the head of the calls. */
  lemma FirstPrintPrints(ops: seq<HandlerOp>)
    requires AllowedAll(NewDraft(), ops) && FirstPrint(ops) < |ops|
    ensures
      var k := FirstPrint(ops);
      AllowedAll(NewDraft(), ops[..k]) && Allowed(Steps(NewDraft(), ops[..k]), ops[k])
      && Step(Steps(NewDraft(), ops[..k]), ops[k]).printed == Some(HeadOf(ops))
  {
    var k := FirstPrint(ops);
    AllowedSplit(NewDraft(), ops, k);
    NothingPrinted(ops[..k]);
    var given := LastSet(ops[..k]);
    if ops[k].WriteContentAuto? {
      RowsAre(given.headers, ops[k].contentType, ops[k].content);
    } else {
      RowsAre(given.headers, MediaType("", "", []), "");
    }
  }

  lemma {:induction false} StepsPrinted(ops: seq<HandlerOp>)
    requires AllowedAll(NewDraft(), ops)
    ensures Steps(NewDraft(), ops).printed == if FirstPrint(ops) < |ops| then Some(HeadOf(ops)) else None
  {
    var k := FirstPrint(ops);
    if k < |ops| {
      FirstPrintPrints(ops);
      AllowedSplit(NewDraft(), ops, k);
      PrintedStays(Step(Steps(NewDraft(), ops[..k]), ops[k]), ops[k..][1..]);
    } else {
      NothingPrinted(ops);
    }
  }

  /** The head that goes out is the head of the calls. */
  lemma HeadIsPrinted(ops: seq<HandlerOp>)
    requires AllowedAll(NewDraft(), ops)
    ensures Handled(ops).printed == Some(HeadOf(ops))
  {
    StepsPrinted(ops);
    if FirstPrint(ops) == |ops| {
      NothingPrinted(ops);
      assert ops[..|ops|] == ops;
      RowsAre(LastSet(ops).headers, MediaType("", "", []), "");
    }
  }

  // ---------------------------------------------------------------- writing after the body was finished

  /** The calls up to a point finish a chunked body: the head is printed before, without a length. */
  ghost predicate FinishedBefore(ops: seq<HandlerOp>, j: nat)
    requires j <= |ops|
  {
    !HasLength(HeadOf(ops).headers) && FinishesBetween(ops, FirstPrint(ops), j)
  }

  ghost predicate FinishesBetween(ops: seq<HandlerOp>, k: nat, j: nat)
    requires j <= |ops|
  {
    exists i :: k < i < j && ops[i].FinishBody?
  }

  lemma FinishesGrows(ops: seq<HandlerOp>, k: nat, n: nat)
    requires n < |ops|
    ensures FinishesBetween(ops, k, n + 1) <==> FinishesBetween(ops, k, n) || (k < n && ops[n].FinishBody?)
  {}

  lemma FinishesFront(ops: seq<HandlerOp>, k: nat, n: nat, j: nat)
    requires j <= n <= |ops|
    ensures FinishesBetween(ops[..n], k, j) <==> FinishesBetween(ops, k, j)
  {
    var front := ops[..n];
    assert forall i :: 0 <= i < n ==> front[i] == ops[i];
    if FinishesBetween(front, k, j) {
      var i :| k < i < j && front[i].FinishBody?;
      assert ops[i].FinishBody?;
    }
    if FinishesBetween(ops, k, j) {
      var i :| k < i < j && ops[i].FinishBody?;
      assert front[i].FinishBody?;
    }
  }

  /** The call writes octets after a chunked body was finished. */
  ghost predicate WritesLate(ops: seq<HandlerOp>, j: nat)
    requires j < |ops|
  {
    FinishedBefore(ops, j) && ops[j].WriteBody? && ops[j].buf != ""
  }

  /** What the calls up to a point say does not depend on the calls after it. */
  lemma HeadOfFront(ops: seq<HandlerOp>, n: nat)
    requires n <= |ops|
    ensures FirstPrint(ops[..n]) == if FirstPrint(ops) < n then FirstPrint(ops) else n
    ensures FirstPrint(ops) < n ==> HeadOf(ops[..n]) == HeadOf(ops)
  {
    var front := ops[..n];
    assert forall i :: 0 <= i < n ==> front[i] == ops[i];
    var k := FirstPrint(ops);
    if k < n { assert front[..k] == ops[..k]; }
  }

  lemma {:induction false} FinishedIff(ops: seq<HandlerOp>)
    requires AllowedAll(NewDraft(), ops)
    ensures
      var d := Steps(NewDraft(), ops);
      (d.finished <==> FinishedBefore(ops, |ops|)) && (!d.finished ==> d.trailing == "")
    decreases |ops|
  {
    if ops != [] {
      var n := |ops| - 1;
      assert ops[..n] + [ops[n]] == ops;
      AllowedFront(NewDraft(), ops[..n], ops[n]);
      FinishedIff(ops[..n]);
      StepsAppend(NewDraft(), ops[..n], ops[n]);
      StepsPrinted(ops[..n]);
      HeadOfFront(ops, n);
      FinishedGrows(ops, n);
    }
  }

  lemma FinishedGrows(ops: seq<HandlerOp>, n: nat)
    requires n + 1 == |ops|
    ensures FinishedBefore(ops, n + 1) <==>
              FinishedBefore(ops, n)
              || (FirstPrint(ops) < n && !HasLength(HeadOf(ops).headers) && ops[n].FinishBody?)
    ensures FinishedBefore(ops[..n], n) <==> FinishedBefore(ops, n)
  {
    FinishedFront(ops, n, n);
    FinishesGrows(ops, FirstPrint(ops), n);
  }

  lemma FinishedFront(ops: seq<HandlerOp>, n: nat, j: nat)
    requires j <= n <= |ops|
    ensures FinishedBefore(ops[..n], j) <==> FinishedBefore(ops, j)
  {
    HeadOfFront(ops, n);
    FinishesFront(ops, FirstPrint(ops), n, j);
  }

  /** Octets stand on the wire after the last chunk exactly when a handler that is allowed writes
      some after it finished a chunked response. */
  lemma {:induction false} TrailsIffWritesLate(ops: seq<HandlerOp>)
    requires AllowedAll(NewDraft(), ops)
    ensures Handled(ops).trailing == Steps(NewDraft(), ops).trailing
    ensures Handled(ops).trailing != "" <==> exists j :: 0 <= j < |ops| && WritesLate(ops, j)
    decreases |ops|
  {
    if ops != [] {
      var n := |ops| - 1;
      var before := ops[..n];
      assert before + [ops[n]] == ops;
      AllowedFront(NewDraft(), before, ops[n]);
      TrailsIffWritesLate(before);
      FinishedIff(before);
      StepsPrinted(before);
      StepsAppend(NewDraft(), before, ops[n]);
      StepTrails(Steps(NewDraft(), before), ops[n]);
      FinishedGrows(ops, n);
      forall j | 0 <= j < n ensures WritesLate(ops, j) <==> WritesLate(before, j) { LateFront(ops, n, j); }
      assert Handled(ops).trailing != "" <==> Handled(before).trailing != "" || WritesLate(ops, n);
    }
  }

  lemma LateFront(ops: seq<HandlerOp>, n: nat, j: nat)
    requires j < n <= |ops|
    ensures WritesLate(ops, j) <==> WritesLate(ops[..n], j)
  {
    FinishedFront(ops, n, j);
  }

  lemma StepTrails(d: Draft, op: HandlerOp)
    requires Allowed(d, op) && (d.finished ==> d.printed.Some?) && (!d.finished ==> d.trailing == "")
    ensures Step(d, op).trailing != "" <==> d.trailing != "" || (d.finished && op.WriteBody? && op.buf != "")
  {}

  // ---------------------------------------------------------------- what a client receives

  /** What a client makes of the calls. */
  function CallsAsRead(ops: seq<HandlerOp>): Received {
    Received(Encode(StatusText(HeadOf(ops).status)), EncodeCollection(HeadOf(ops).headers), WrittenBy(ops))
  }

  /** No call fails, nothing is written late, and the head can be trusted: what it says reads back and
      the length, if any, is that of the octets written. */
  ghost predicate HonestCalls(table: seq<Row>, ops: seq<HandlerOp>) {
    var head := HeadOf(ops);
    && GoodHandler(ops) && (forall j :: 0 <= j < |ops| ==> !WritesLate(ops, j))
    && OneLine(StatusText(head.status)) && GoodCollection(table, EncodeCollection(head.headers))
    && (HasLength(head.headers) ==> head.headers.known[CONTENT_LENGTH_ROW] == Some(Number(|WrittenBy(ops)|)))
  }

  /** The response to honest calls decodes to the head and the octets of the calls. */
  lemma HandledDecodes(table: seq<Row>, ops: seq<HandlerOp>, r: Response)
    requires Realises(r, Handled(ops)) && HonestCalls(table, ops)
    ensures Decodable(table, r) && r.trailing == "" && AsRead(r) == CallsAsRead(ops)
  {
    HeadIsPrinted(ops);
    TrailsIffWritesLate(ops);
    BodyIsWritten(ops);
    assert r.body + "" == r.body;
    DraftDecodes(table, ops, r);
  }

  /** The literal texts that the server sends for errors. */
  lemma ErrorTexts()
    ensures Encode(StatusText(BadRequest)) == "400 Bad Request"
    ensures Encode(StatusText(RequestUriTooLong)) == "414 Request-URI Too Long"
    ensures Encode(StatusText(HttpVersionNotSupported)) == "505 HTTP Version Not Supported"
  {
    BadRequestText();
    TooLongText();
    NotSupportedText();
  }

  lemma BadRequestText()
    ensures Encode("400 Bad Request") == "400 Bad Request"
  {
    AsciiLiteral("400 Bad Request");
  }

  lemma TooLongText()
    ensures Encode("414 Request-URI Too Long") == "414 Request-URI Too Long"
  {
    AsciiLiteral("414 Request-URI Too Long");
  }

  lemma NotSupportedText()
    ensures Encode("505 HTTP Version Not Supported") == "505 HTTP Version Not Supported"
  {
    AsciiLiteral("505 HTTP Version Not Supported");
  }

  /** What a client makes of a refusal: the status, a length of 0 as the only header, and no body. */
  function RefusalAsRead(status: Status): Received {
    Received(Encode(StatusText(status)), WithRow(EmptyCollection(29), CONTENT_LENGTH_ROW, Some(Number(0))), "")
  }

  lemma RefusalDecodes(table: seq<Row>, status: Status, r: Response)
    requires ResponseTable(table) && OneLine(StatusText(status)) && Realises(r, Refused(status))
    ensures Decodable(table, r) && r.trailing == "" && AsRead(r) == RefusalAsRead(status)
  {
    RefusedDecodes(table, status, r);
    RefusalHeaders(status);
  }

  lemma RefusalHeaders(status: Status)
    ensures EncodeCollection(Refused(status).headers) == RefusalAsRead(status).headers
  {
    var headers := WithRow(EmptyCollection(29), CONTENT_LENGTH_ROW, Some(Number(0)));
    OneRowOctets(CONTENT_LENGTH_ROW, Number(0));
    assert WithCoding(headers) == headers;
  }

  /** A handler that does nothing fails nowhere, and its request is answered all the same: with status
      200, a chunked body and nothing in it. */
  lemma SilentHandlerAnswers(table: seq<Row>)
    requires ResponseTable(table)
    ensures HonestCalls(table, [])
    ensures CallsAsRead([]).status == "200 OK" && CallsAsRead([]).body == ""
    ensures IsChunked(CallsAsRead([]).headers)
  {
    SilentHead();
    EmptyChunkedIsHonest(table);
    OkText();
    ChunkedIsRead(EmptyCollection(29));
  }

  lemma OkText()
    ensures Encode("200 OK") == "200 OK"
  {
    AsciiLiteral("200 OK");
  }

  lemma ChunkedIsRead(headers: Collection)
    requires |headers.known| == 29 && !HasLength(headers)
    ensures IsChunked(EncodeCollection(WithCoding(headers)))
  {
    CodingTwice(headers);
    FramingOctets(WithCoding(headers));
  }

  lemma SilentHead()
    ensures GoodHandler([]) && HeadOf([]) == Printed(StatusOk, WithCoding(EmptyCollection(29)))
  {
    RowsAre(EmptyCollection(29), MediaType("", "", []), "");
  }

  // ---------------------------------------------------------------- a handler that writes late

  /** A handler that writes, finishes and writes again fails nowhere, and a client does not get its
      response alone. */
  lemma LateWriteBreaksTheWire(table: seq<Row>, r: Response)
    requires ResponseTable(table)
    requires Realises(r, Handled([WriteBody("a"), FinishBody, WriteBody("x")]))
    ensures GoodHandler([WriteBody("a"), FinishBody, WriteBody("x")])
    ensures r.body == "a" && r.trailing == "x"
    ensures Decodable(table, r) && DecodeAll(table, ResponseText(table, r)) != Some([AsRead(r)])
  {
    LateWriteDraft();
    EmptyHeadDecodes(table, r);
    DecodesIffNothingTrails(table, r);
  }

  lemma EmptyHeadDecodes(table: seq<Row>, r: Response)
    requires ResponseTable(table) && GoodFraming(r)
    requires r.head == Printed(StatusOk, WithCoding(EmptyCollection(29)))
    ensures Decodable(table, r)
  {
    EmptyChunkedIsHonest(table);
    CodingTwice(EmptyCollection(29));
  }

  lemma LateWriteDraft()
    ensures GoodHandler([WriteBody("a"), FinishBody, WriteBody("x")])
    ensures
      var headers := WithCoding(EmptyCollection(29));
      Handled([WriteBody("a"), FinishBody, WriteBody("x")]) ==
        Draft(StatusOk, headers, Some(Printed(StatusOk, headers)), "a", true, "x")
  {
    var headers := WithCoding(EmptyCollection(29));
    var d1 := Draft(StatusOk, headers, Some(Printed(StatusOk, headers)), "a", false, "");
    var d2, d3 := d1.(finished := true), d1.(finished := true, trailing := "x");
    var last := [WriteBody("x")];
    var ops := [WriteBody("a")] + ([FinishBody] + last);
    assert ops == [WriteBody("a"), FinishBody, WriteBody("x")];
    assert last[1..] == [] && ([FinishBody] + last)[1..] == last && ops[1..] == [FinishBody] + last;
    assert Step(NewDraft(), WriteBody("a")) == d1 && Step(d1, FinishBody) == d2 && Step(d2, WriteBody("x")) == d3;
    assert Steps(d2, last) == d3 && AllowedAll(d2, last);
    assert Steps(d1, [FinishBody] + last) == d3 && AllowedAll(d1, [FinishBody] + last);
  }
}
