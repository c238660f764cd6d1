/** What a buffered writer has sent and still holds back, and the chunked coding of section 3.6.1
    of RFC 2616.  The decoder is independent of the writer.
 */
module Chunked {
  import opened Octets
  import opened Numbers

  // ---------------------------------------------------------------- the coding

  /** chunk = chunk-size CRLF chunk-data CRLF */
  function Frame(data: string): string { Digits(|data|, 16) + CRLF + data + CRLF }

  function Frames(chunks: seq<string>): string {
    if chunks == [] then "" else Frames(chunks[..|chunks| - 1]) + Frame(chunks[|chunks| - 1])
  }

  function Flatten(parts: seq<string>): string {
    if parts == [] then "" else Flatten(parts[..|parts| - 1]) + parts[|parts| - 1]
  }

  /** last-chunk and an empty trailer. */
  const LAST_CHUNK: string := "0\r\n\r\n"

  predicate StartsWith(s: string, prefix: string) { |s| >= |prefix| && s[..|prefix|] == prefix }

  /** Decode a Chunked-Body without extensions or trailer: the body and what follows it. */
  function Decode(s: string): Option<(string, string)>
    decreases |s|
  {
    var n := LeadingDigits(s, 16);
    if n == 0 || !StartsWith(s[n..], CRLF) then None
    else
      var size := NumberValue(s[..n], 16);
      var after := s[n + 2..];
      if size == 0 then
        if StartsWith(after, CRLF) then Some(("", after[2..])) else None
      else if |after| < size || !StartsWith(after[size..], CRLF) then None
      else
        match Decode(after[size + 2..])
        case None => None
        case Some((body, rest)) => Some((after[..size] + body, rest))
  }

  ghost predicate NonEmpty(chunks: seq<string>) { forall i :: 0 <= i < |chunks| ==> chunks[i] != "" }

  lemma {:induction false} FramesFront(chunks: seq<string>)
    requires chunks != []
    ensures Frames(chunks) == Frame(chunks[0]) + Frames(chunks[1..])
    ensures Flatten(chunks) == chunks[0] + Flatten(chunks[1..])
  {
    var last := |chunks| - 1;
    if last == 0 {
      assert chunks[..0] == [] && chunks[1..] == [];
    } else {
      var front, tail := chunks[..last], chunks[1..];
      FramesFront(front);
      assert front[1..] == tail[..last - 1] && front[0] == chunks[0] && tail[last - 1] == chunks[last];
      Associative(Frame(chunks[0]), Frames(front[1..]), Frame(chunks[last]));
      Associative(chunks[0], Flatten(front[1..]), chunks[last]);
    }
  }

  lemma SizeLine(size: string, after: string)
    requires AllDigits(size, 16)
    ensures
      var s := size + CRLF + after;
      && LeadingDigits(s, 16) == |size| && s[..|size|] == size
      && StartsWith(s[|size|..], CRLF) && s[|size| + 2..] == after
  {
    var s := size + CRLF + after;
    assert s == size + (CRLF + after);
    LeadingDigitsOf(size, CRLF + after, 16);
    assert s[|size|..] == CRLF + after;
  }

  lemma DataLine(data: string, tail: string)
    ensures
      var after := data + CRLF + tail;
      StartsWith(after[|data|..], CRLF) && after[..|data|] == data && after[|data| + 2..] == tail
  {}

  lemma DecodeFrame(data: string, tail: string)
    requires data != ""
    ensures Decode(Frame(data) + tail) ==
              match Decode(tail)
              case None => None
              case Some((body, rest)) => Some((data + body, rest))
  {
    var size := Digits(|data|, 16);
    var after := data + CRLF + tail;
    assert Frame(data) + tail == size + CRLF + after;
    DigitsHaveValue(|data|, 16);
    SizeLine(size, after);
    DataLine(data, tail);
  }

  lemma DecodeLast(tail: string)
    ensures Decode(LAST_CHUNK + tail) == Some(("", tail))
  {
    assert LAST_CHUNK + tail == "0" + CRLF + (CRLF + tail);
    SizeLine("0", CRLF + tail);
    assert "0"[..0] == "" && (CRLF + tail)[2..] == tail;
  }

  /** A sequence of non-empty chunks closed by the last chunk is a Chunked-Body that decodes to
      their data and leaves what follows untouched. */
  lemma {:induction false} DecodeFrames(chunks: seq<string>, tail: string)
    requires NonEmpty(chunks)
    ensures Decode(Frames(chunks) + LAST_CHUNK + tail) == Some((Flatten(chunks), tail))
  {
    if chunks == [] {
      assert "" + LAST_CHUNK + tail == LAST_CHUNK + tail;
      DecodeLast(tail);
    } else {
      FramesFront(chunks);
      var rest := Frames(chunks[1..]) + LAST_CHUNK + tail;
      assert Frames(chunks) + LAST_CHUNK + tail == Frame(chunks[0]) + rest;
      DecodeFrames(chunks[1..], tail);
      DecodeFrame(chunks[0], rest);
    }
  }

  // ---------------------------------------------------------------- a writer's output

  /** What was handed to the wrapped stream, what the buffer holds, and the mode. */
  datatype Output = Output(wire: string, pending: string, chunked: bool) {

    function Emit(data: string): Output {
      Output(wire + if chunked then Frame(data) else data, "", chunked)
    }

    /** `write` with a buffer of the given capacity. */
    function Write(buf: string, capacity: nat): Output {
      if |pending| + |buf| >= capacity then Emit(pending + buf) else this.(pending := pending + buf)
    }

    function Flush(): Output { if pending == "" then this else Emit(pending) }

    function Finish(): Output {
      var flushed := Flush();
      if chunked then flushed.(wire := flushed.wire + LAST_CHUNK) else flushed
    }

    /** All that was written, sent or not; the stream of octets when the mode is plain. */
    function Total(): string { wire + pending }
  }

  lemma PlainWrite(o: Output, buf: string, capacity: nat)
    requires !o.chunked
    ensures !o.Write(buf, capacity).chunked && o.Write(buf, capacity).Total() == o.Total() + buf
  {}

  datatype WriteOp = WriteBuf(buf: string) | FlushBuf

  function Apply(o: Output, op: WriteOp, capacity: nat): Output {
    match op case WriteBuf(buf) => o.Write(buf, capacity) case FlushBuf => o.Flush()
  }

  function ApplyAll(o: Output, ops: seq<WriteOp>, capacity: nat): Output {
    if ops == [] then o else Apply(ApplyAll(o, ops[..|ops| - 1], capacity), ops[|ops| - 1], capacity)
  }

  function Written(ops: seq<WriteOp>): string {
    if ops == [] then ""
    else Written(ops[..|ops| - 1]) + match ops[|ops| - 1] case WriteBuf(buf) => buf case FlushBuf => ""
  }

  /** In chunked mode the wire holds whole non-empty chunks after `base`, and the chunks with the
      buffered octets are the body so far. */
  ghost predicate Framed(o: Output, base: string, chunks: seq<string>, body: string, capacity: nat) {
    && o.chunked && NonEmpty(chunks)
    && o.wire == base + Frames(chunks)
    && Flatten(chunks) + o.pending == body
    && |o.pending| < capacity
  }

  lemma EmitFramed(o: Output, base: string, chunks: seq<string>, data: string) returns (more: seq<string>)
    requires o.chunked && NonEmpty(chunks) && o.wire == base + Frames(chunks)
    requires data != ""
    ensures o.Emit(data).wire == base + Frames(more) && NonEmpty(more)
    ensures Flatten(more) == Flatten(chunks) + data
  {
    more := chunks + [data];
    assert more[..|more| - 1] == chunks;
    Associative(base, Frames(chunks), Frame(data));
  }

  lemma WriteFramed(o: Output, base: string, chunks: seq<string>, body: string, buf: string, capacity: nat)
    returns (more: seq<string>)
    requires Framed(o, base, chunks, body, capacity)
    ensures Framed(o.Write(buf, capacity), base, more, body + buf, capacity)
  {
    if |o.pending| + |buf| >= capacity {
      more := EmitFramed(o, base, chunks, o.pending + buf);
    } else {
      more := chunks;
    }
    assert Flatten(chunks) + (o.pending + buf) == body + buf;
  }

  lemma FlushFramed(o: Output, base: string, chunks: seq<string>, body: string, capacity: nat)
    returns (more: seq<string>)
    requires Framed(o, base, chunks, body, capacity)
    ensures Framed(o.Flush(), base, more, body, capacity) && o.Flush().pending == ""
  {
    if o.pending == "" { more := chunks; } else { more := EmitFramed(o, base, chunks, o.pending); }
  }

  lemma FinishFramed(o: Output, base: string, chunks: seq<string>, body: string, capacity: nat)
    returns (all: seq<string>)
    requires Framed(o, base, chunks, body, capacity)
    ensures NonEmpty(all) && Flatten(all) == body
    ensures o.Finish() == Output(base + Frames(all) + LAST_CHUNK, "", true)
  {
    all := FlushFramed(o, base, chunks, body, capacity);
  }

  lemma {:induction false} ApplyAllFramed(base: string, ops: seq<WriteOp>, capacity: nat) returns (chunks: seq<string>)
    requires capacity >= 1
    ensures Framed(ApplyAll(Output(base, "", true), ops, capacity), base, chunks, Written(ops), capacity)
  {
    if ops == [] {
      chunks := [];
    } else {
      var before := ops[..|ops| - 1];
      chunks := ApplyAllFramed(base, before, capacity);
      var o := ApplyAll(Output(base, "", true), before, capacity);
      match ops[|ops| - 1] {
        case WriteBuf(buf) => chunks := WriteFramed(o, base, chunks, Written(before), buf, capacity);
        case FlushBuf => chunks := FlushFramed(o, base, chunks, Written(before), capacity);
      }
    }
  }

  /** Any writes and flushes in chunked mode, then `finish_response`, send a Chunked-Body with no
      zero chunk before the last that decodes to exactly what was written. */
  lemma ChunkedRunDecodes(ops: seq<WriteOp>, capacity: nat, tail: string) returns (chunks: seq<string>)
    requires capacity >= 1
    ensures
      var done := ApplyAll(Output("", "", true), ops, capacity).Finish();
      && done.pending == ""
      && done.wire == Frames(chunks) + LAST_CHUNK && NonEmpty(chunks)
      && Decode(done.wire + tail) == Some((Written(ops), tail))
  {
    chunks := ApplyAllFramed("", ops, capacity);
    chunks := FinishFramed(ApplyAll(Output("", "", true), ops, capacity), "", chunks, Written(ops), capacity);
    assert "" + Frames(chunks) == Frames(chunks);
    DecodeFrames(chunks, tail);
  }
}
