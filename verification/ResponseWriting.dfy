/** `ResponseWriter` over the buffered stream: when the head is written, when chunked mode is on,
    and that what a handler does is what ends up on the wire.
 */
module ResponseWriting {
  import opened Octets
  import opened Utf8
  import opened Chunked
  import opened BufferedStreams
  import opened HeaderValues
  import opened Headers
  import opened Encoding
  import opened HeaderWriting
  import opened Requests
  import opened Responses

  lemma PlainFlush(o: Output)
    requires !o.chunked
    ensures o.Flush() == Output(o.Total(), "", false)
  {}

  class ResponseWriter {
    const writer: BufferedStream
    const table: seq<Row>
    const headers: HeaderCollection
    var headersWritten: bool
    var status: Status

    ghost const base: string
    ghost var printed: Option<Printed>
    ghost var body: string
    ghost var chunks: seq<string>
    ghost var finished: bool
    ghost var trailing: string

    ghost function View(): Draft
      reads this, headers
    {
      Draft(status, headers.View(), printed, body, finished, trailing)
    }

    ghost function AsResponse(): Response
      requires printed.Some?
      reads this
    {
      Response(printed.value, body, chunks, trailing)
    }

    /** Nothing is chunked, and the wire with the buffer holds exactly `text` after what was there. */
    ghost predicate Plain(text: string)
      reads this, writer`readPos, writer`readMax, writer`writeLen, writer`writingChunkedBody,
            writer.writeBuffer, writer.wrapped`sent
    {
      writer.Valid() && !writer.writingChunkedBody && Total(writer) == base + text
    }

    /** Before its head a response has written nothing; after it the body follows verbatim or, in
        chunked mode, as whole chunks with the rest of it buffered; after a chunked body is finished
        everything is verbatim again. */
    ghost predicate Valid()
      reads this, headers, writer`readPos, writer`readMax, writer`writeLen, writer`writingChunkedBody,
            writer.writeBuffer, writer.wrapped`sent
    {
      && writer.Valid() && |table| == 29 && |headers.known| == 29
      && headersWritten == printed.Some? && (!finished ==> trailing == "")
      && match printed
         case None => Plain("") && body == "" && !finished
         case Some(head) =>
           if HasLength(head.headers) then !finished && Plain(HeadText(table, head) + body)
           else if finished then GoodFraming(AsResponse()) && Plain(ResponseText(table, AsResponse()))
           else Framed(writer.Out(), base + HeadText(table, head), chunks, body, writer.writeBuffer.Length)
    }

    constructor (writer: BufferedStream, table: seq<Row>)
      requires writer.Valid() && !writer.writingChunkedBody && |table| == 29
      ensures Valid() && this.writer == writer && this.table == table && fresh(headers)
      ensures base == Total(writer) && View() == NewDraft()
    {
      this.writer, this.table := writer, table;
      headersWritten, status := false, StatusOk;
      base, printed, body, chunks, finished, trailing := Total(writer), None, "", [], false, "";
      headers := new HeaderCollection(29);
    }

    method WriteHeaders()
      requires Valid() && printed.None? && Printable(View())
      modifies this, headers, writer`writeLen, writer`writingChunkedBody, writer.writeBuffer, writer.wrapped`sent
      ensures Valid() && View() == Print(old(View()))
    {
      PrintHead();
      assert HeadText(table, printed.value) + "" == HeadText(table, printed.value);
      if headers.known[CONTENT_LENGTH_ROW] == None {
        StartChunks(HeadText(table, printed.value));
      }
    }

    /** Flush the head, so that it does not end up in a chunk, and switch chunked mode on. */
    method StartChunks(ghost head: string)
      requires Plain(head)
      modifies this`chunks, writer`writeLen, writer`writingChunkedBody, writer.wrapped`sent
      ensures writer.Valid() && Framed(writer.Out(), base + head, chunks, "", writer.writeBuffer.Length)
    {
      PlainFlush(writer.Out());
      writer.Flush();
      writer.writingChunkedBody := true;
      chunks := [];
      assert base + head + "" == base + head;
    }

    /** The status line and the headers, with the Transfer-Encoding that suits them. */
    method PrintHead()
      requires Valid() && printed.None? && Printable(View())
      modifies this, headers, writer`writeLen, writer.writeBuffer, writer.wrapped`sent
      ensures |headers.known| == 29 && headersWritten
      ensures View() == Print(old(View())) && body == "" && Plain(HeadText(table, printed.value))
    {
      ghost var d := View();
      StatusLineOctets(StatusText(status));
      WriteStr(writer, "HTTP/1.1 " + StatusText(status) + CRLF);
      if headers.known[CONTENT_LENGTH_ROW] == None {
        headers.known := headers.known[TRANSFER_ENCODING_ROW := Some(List([CodingItem(ChunkedCoding)]))];
      } else {
        headers.known := headers.known[TRANSFER_ENCODING_ROW := None];
      }
      assert headers.View() == WithCoding(d.headers);
      headers.WriteAll(writer, table);
      headersWritten := true;
      printed := Some(Printed(status, headers.View()));
      ghost var line := "HTTP/1.1 " + Encode(StatusText(status)) + CRLF;
      ghost var rest := PrintAll(table, EncodeCollection(headers.View()));
      assert base + "" == base;
      Associative(base, line, rest);
    }

    method TryWriteHeaders()
      requires Valid() && Allowed(View(), HandlerOp.TryWriteHeaders)
      modifies this, headers, writer`writeLen, writer`writingChunkedBody, writer.writeBuffer, writer.wrapped`sent
      ensures Valid() && View() == TryPrint(old(View()))
    {
      if !headersWritten {
        WriteHeaders();
      }
    }

    method Write(buf: string)
      requires Valid() && Allowed(View(), WriteBody(buf))
      modifies this, headers, writer`writeLen, writer`writingChunkedBody, writer.writeBuffer, writer.wrapped`sent
      ensures Valid() && View() == Step(old(View()), WriteBody(buf))
    {
      if !headersWritten {
        WriteHeaders();
      }
      WriteAfterHead(buf);
    }

    method WriteAfterHead(buf: string)
      requires Valid() && printed.Some?
      modifies this`body, this`chunks, this`trailing, writer`writeLen, writer.writeBuffer, writer.wrapped`sent
      ensures Valid() && View() == Append(old(View()), buf)
    {
      ghost var start := base + HeadText(table, printed.value);
      if writer.writingChunkedBody {
        chunks := WriteFramed(writer.Out(), start, chunks, body, buf, writer.writeBuffer.Length);
        writer.Write(buf);
        body := body + buf;
      } else {
        PutPlain(buf);
      }
    }

    /** A write that is not framed: the body of a response with a length, or octets after the last chunk. */
    method PutPlain(buf: string)
      requires Valid() && printed.Some? && !writer.writingChunkedBody
      modifies this`body, this`trailing, writer`writeLen, writer.writeBuffer, writer.wrapped`sent
      ensures Valid() && View() == Append(old(View()), buf)
    {
      PutText(writer, buf);
      ghost var head := HeadText(table, printed.value);
      if finished {
        Associative(base, ResponseText(table, AsResponse()), buf);
        Associative(head + BodyText(AsResponse()), trailing, buf);
        trailing := trailing + buf;
      } else {
        Associative(base, head + body, buf);
        Associative(head, body, buf);
        body := body + buf;
      }
    }

    method Flush()
      requires Valid()
      modifies this`chunks, writer`writeLen, writer.wrapped`sent
      ensures Valid() && View() == old(View())
    {
      if writer.writingChunkedBody {
        ghost var start := base + HeadText(table, printed.value);
        chunks := FlushFramed(writer.Out(), start, chunks, body, writer.writeBuffer.Length);
      } else {
        PlainFlush(writer.Out());
      }
      writer.Flush();
    }

    method WriteContent(contentType: MediaType, content: string)
      requires Valid() && Allowed(View(), WriteContentAuto(contentType, content))
      modifies this, headers, writer`writeLen, writer`writingChunkedBody, writer.writeBuffer, writer.wrapped`sent
      ensures Valid() && View() == Step(old(View()), WriteContentAuto(contentType, content))
    {
      var octets := Encode(content);
      headers.known := headers.known[CONTENT_TYPE_ROW := Some(Media(contentType))];
      headers.known := headers.known[CONTENT_LENGTH_ROW := Some(Number(|octets|))];
      WriteHeaders();
      WriteAfterHead(octets);
    }

    /** A chunked body is complete; nothing is left in the buffer and chunked mode is off again. */
    method FinishResponse()
      requires Valid()
      modifies this`chunks, this`finished, writer`writeLen, writer`writingChunkedBody, writer.wrapped`sent
      ensures Valid() && View() == Finish(old(View()))
      ensures !writer.writingChunkedBody && writer.Out().pending == ""
    {
      if !writer.writingChunkedBody {
        PlainFlush(writer.Out());
        writer.FinishResponse();
      } else {
        FinishChunks();
      }
      writer.writingChunkedBody := false;
    }

    method FinishChunks()
      requires Valid() && writer.writingChunkedBody
      modifies this`chunks, this`finished, writer`writeLen, writer.wrapped`sent
      ensures writer.Valid() && finished && GoodFraming(AsResponse()) && writer.Out().pending == ""
      ensures Total(writer) == base + ResponseText(table, AsResponse())
    {
      ghost var head := HeadText(table, printed.value);
      chunks := FinishFramed(writer.Out(), base + head, chunks, body, writer.writeBuffer.Length);
      writer.FinishResponse();
      finished := true;
      FinishedLayout(base, head, Frames(chunks));
    }

    /** What is on the wire once the response is finished. */
    lemma FinishedText()
      requires Valid() && printed.Some? && !writer.writingChunkedBody && writer.Out().pending == ""
      ensures writer.Out() == Output(base + ResponseText(table, AsResponse()), "", false)
      ensures Realises(AsResponse(), View())
    {
      assert writer.Out().wire + "" == writer.Out().wire;
      var head := HeadText(table, printed.value);
      if HasLength(printed.value.headers) { assert head + body + "" == head + body; }
    }

    /** A handler's calls, one after the other. */
    method Run(ops: seq<HandlerOp>)
      requires Valid() && AllowedAll(View(), ops)
      modifies this, headers, writer`writeLen, writer`writingChunkedBody, writer.writeBuffer, writer.wrapped`sent
      ensures Valid() && View() == Steps(old(View()), ops)
      decreases |ops|
    {
      if ops == [] { return; }
      Call(ops[0]);
      Run(ops[1..]);
    }

    /** A handler assigns to the fields of the head as it pleases, before or after it is written. */
    method SetHead(s: Status, hs: Collection)
      requires Valid() && |hs.known| == 29
      modifies this`status, headers
      ensures Valid() && View() == old(View()).(status := s, headers := hs)
    {
      status := s;
      headers.known, headers.extensions := hs.known, hs.extensions;
    }

    method Call(op: HandlerOp)
      requires Valid() && Allowed(View(), op)
      modifies this, headers, writer`writeLen, writer`writingChunkedBody, writer.writeBuffer, writer.wrapped`sent
      ensures Valid() && View() == Step(old(View()), op)
    {
      match op {
        case SetHead(s, hs) => SetHead(s, hs);
        case WriteHeaders => WriteHeaders();
        case TryWriteHeaders => TryWriteHeaders();
        case WriteBody(buf) => Write(buf);
        case FlushBody => Flush();
        case WriteContentAuto(contentType, content) => WriteContent(contentType, content);
        case FinishBody => FinishResponse();
      }
    }
  }

  lemma StatusLineOctets(text: string)
    ensures Encode("HTTP/1.1 " + text + CRLF) == "HTTP/1.1 " + Encode(text) + CRLF
  {
    VersionIsAscii();
    AsciiIsSame(CRLF);
    BetweenAscii("HTTP/1.1 ", text, CRLF);
  }

  lemma VersionIsAscii()
    ensures Encode("HTTP/1.1 ") == "HTTP/1.1 "
  {
    AsciiLiteral("HTTP/1.1 ");
  }

  lemma BetweenAscii(a: string, text: string, b: string)
    requires Encode(a) == a && Encode(b) == b
    ensures Encode(a + text + b) == a + Encode(text) + b
  {
    EncodeConcat(a, text);
    EncodeConcat(a + text, b);
  }

  lemma FinishedLayout(a: string, head: string, frames: string)
    ensures a + head + frames + LAST_CHUNK + "" == a + (head + (frames + LAST_CHUNK) + "")
  {}
}
