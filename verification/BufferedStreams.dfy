/** `BufferedStream`: reads through a buffer with push-back, writes through a buffer that may frame
    what it sends as chunks.
 */
module BufferedStreams {
  import opened Octets
  import opened Numbers
  import opened Chunked

  /** The wrapped stream.  A read yields nothing at the end of the stream and otherwise any
      number of octets that are there, as the network pleases. */
  class Transport {
    var incoming: string
    var sent: string

    constructor (incoming: string)
      ensures this.incoming == incoming && sent == ""
    {
      this.incoming, sent := incoming, "";
    }

    method Read(buf: array<char>) returns (n: Option<nat>)
      requires buf.Length >= 1
      modifies this`incoming, buf
      ensures n.None? <==> old(incoming) == ""
      ensures n.None? ==> incoming == ""
      ensures n.Some? ==> 1 <= n.value <= buf.Length && n.value <= |old(incoming)|
      ensures n.Some? ==> buf[..n.value] == old(incoming)[..n.value] && incoming == old(incoming)[n.value..]
    {
      if incoming == "" { return None; }
      var size :| 1 <= size <= buf.Length && size <= |incoming|;
      forall i | 0 <= i < size { buf[i] := incoming[i]; }
      incoming := incoming[size..];
      n := Some(size);
    }

    method Write(s: string)
      modifies this`sent
      ensures sent == old(sent) + s
    {
      sent := sent + s;
    }
  }

  /** Writing a chunk piece by piece. */
  lemma EmitParts(o: Output, buf: string)
    ensures
      var size := Digits(|o.pending| + |buf|, 16) + CRLF;
      var data := o.pending + buf;
      && o.wire + o.pending + buf == o.wire + data
      && o.wire + size + o.pending + buf + CRLF == o.wire + Frame(data)
      && o.wire + size + data + CRLF == o.wire + Frame(data)
  {
    var size := Digits(|o.pending| + |buf|, 16) + CRLF;
    var data := o.pending + buf;
    Associative(o.wire, o.pending, buf);
    Associative(o.wire + size, o.pending, buf);
    Associative(o.wire + size, data, CRLF);
    Associative(o.wire, size, data + CRLF);
    Associative(size, data, CRLF);
  }

  class BufferedStream {
    const wrapped: Transport
    const readBuffer: array<char>
    const writeBuffer: array<char>
    var readPos: nat
    var readMax: nat
    var writeLen: nat
    var writingChunkedBody: bool

    ghost predicate ReadSide()
      reads this`readPos, this`readMax
    {
      readBuffer.Length >= 1 && readPos <= readMax <= readBuffer.Length
    }

    ghost predicate WriteSide()
      reads this`writeLen
    {
      writeBuffer.Length >= 1 && writeLen < writeBuffer.Length
    }

    ghost predicate Valid()
      reads this`readPos, this`readMax, this`writeLen
    {
      readBuffer != writeBuffer && ReadSide() && WriteSide()
    }

    ghost function Repr(): set<object> { {this, wrapped, readBuffer, writeBuffer} }

    /** The octets still to be read, as one plain sequence. */
    ghost function Unread(): string
      requires ReadSide()
      reads this`readPos, this`readMax, readBuffer, wrapped`incoming
    {
      readBuffer[readPos..readMax] + wrapped.incoming
    }

    ghost function Out(): Output
      requires WriteSide()
      reads this`writeLen, this`writingChunkedBody, writeBuffer, wrapped`sent
    {
      Output(wrapped.sent, writeBuffer[..writeLen], writingChunkedBody)
    }

    /** `poke_byte` would not fail; true after every call of `read_byte`. */
    ghost predicate CanPoke()
      reads this`readPos, this`readMax
    {
      readPos > 0 || readMax == 0
    }

    constructor (wrapped: Transport, readSize: nat, writeSize: nat)
      requires readSize >= 1 && writeSize >= 1
      ensures Valid() && this.wrapped == wrapped && fresh(readBuffer) && fresh(writeBuffer)
      ensures writeBuffer.Length == writeSize
      ensures Unread() == wrapped.incoming && Out() == Output(wrapped.sent, "", false) && CanPoke()
    {
      this.wrapped := wrapped;
      readBuffer := new char[readSize];
      writeBuffer := new char[writeSize];
      readPos, readMax, writeLen, writingChunkedBody := 0, 0, 0, false;
    }

    /** Push an octet back so that it is read next. */
    method PokeByte(b: char)
      requires Valid() && CanPoke()
      modifies this`readPos, this`readMax, readBuffer
      ensures Valid() && Unread() == [b] + old(Unread()) && Out() == old(Out())
    {
      if readPos == 0 && readMax == 0 {
        readMax := 1;
      } else {
        readPos := readPos - 1;
      }
      readBuffer[readPos] := b;
    }

    method FillBuffer() returns (more: bool)
      requires Valid() && readPos == readMax
      modifies this`readPos, this`readMax, readBuffer, wrapped`incoming
      ensures Valid() && Unread() == old(Unread()) && Out() == old(Out())
      ensures readPos == 0 && (more <==> readMax > 0) && (more <==> old(Unread()) != "")
    {
      var size := wrapped.Read(readBuffer);
      match size {
        case None => readPos, readMax, more := 0, 0, false;
        case Some(i) => readPos, readMax, more := 0, i, true;
      }
    }

    method ReadByte() returns (b: Option<char>)
      requires Valid()
      modifies this`readPos, this`readMax, readBuffer, wrapped`incoming
      ensures Valid() && Out() == old(Out()) && CanPoke()
      ensures old(Unread()) == "" ==> b == None && Unread() == ""
      ensures old(Unread()) != "" ==> b == Some(old(Unread())[0]) && Unread() == old(Unread())[1..]
    {
      if readPos == readMax {
        var more := FillBuffer();
        if !more { return None; }
      }
      ghost var all := Unread();
      readPos := readPos + 1;
      b := Some(readBuffer[readPos - 1]);
      assert all == [b.value] + Unread();
    }

    /** Read at most as many octets as `buf` holds. */
    method Read(buf: array<char>) returns (n: Option<nat>)
      requires Valid() && buf !in Repr()
      modifies this`readPos, this`readMax, readBuffer, wrapped`incoming, buf
      ensures Valid() && Out() == old(Out())
      ensures n.None? <==> old(Unread()) == ""
      ensures n.None? ==> Unread() == ""
      ensures n.Some? ==> n.value <= buf.Length && n.value <= |old(Unread())| && (buf.Length > 0 ==> n.value > 0)
      ensures n.Some? ==> buf[..n.value] == old(Unread())[..n.value] && Unread() == old(Unread())[n.value..]
    {
      if readPos == readMax {
        var more := FillBuffer();
        if !more { return None; }
      }
      var size := if readMax - readPos < buf.Length then readMax - readPos else buf.Length;
      Take(buf, size);
      n := Some(size);
    }

    /** Move octets out of the buffer. */
    method Take(buf: array<char>, size: nat)
      requires Valid() && buf !in Repr() && size <= readMax - readPos && size <= buf.Length
      modifies this`readPos, buf
      ensures Valid() && readPos == old(readPos) + size && Out() == old(Out())
      ensures old(Unread()) == buf[..size] + Unread()
    {
      forall i | 0 <= i < size { buf[i] := readBuffer[readPos + i]; }
      assert buf[..size] == readBuffer[readPos..readPos + size];
      readPos := readPos + size;
    }

    method Write(buf: string)
      requires Valid()
      modifies this`writeLen, writeBuffer, wrapped`sent
      ensures Valid() && Unread() == old(Unread())
      ensures Out() == old(Out()).Write(buf, writeBuffer.Length)
    {
      if |buf| + writeLen > writeBuffer.Length {
        WriteThrough(buf);
      } else {
        Store(buf);
      }
    }

    /** Send the buffer and `buf`, which do not fit together into the buffer. */
    method WriteThrough(buf: string)
      requires Valid()
      modifies this`writeLen, wrapped`sent
      ensures Valid() && Out() == old(Out()).Emit(old(Out()).pending + buf)
    {
      EmitParts(Out(), buf);
      if writingChunkedBody {
        wrapped.Write(Digits(writeLen + |buf|, 16) + CRLF);
      }
      if writeLen > 0 {
        wrapped.Write(writeBuffer[..writeLen]);
        writeLen := 0;
      }
      wrapped.Write(buf);
      writeLen := 0;
      if writingChunkedBody {
        wrapped.Write(CRLF);
      }
    }

    /** Copy `buf` into the buffer and send the buffer once it is full. */
    method Store(buf: string)
      requires Valid() && |buf| + writeLen <= writeBuffer.Length
      modifies this`writeLen, writeBuffer, wrapped`sent
      ensures Valid() && Unread() == old(Unread())
      ensures Out() == old(Out()).Write(buf, writeBuffer.Length)
    {
      EmitParts(Out(), buf);
      forall i | 0 <= i < |buf| { writeBuffer[writeLen + i] := buf[i]; }
      writeLen := writeLen + |buf|;
      assert writeBuffer[..writeLen] == old(Out()).pending + buf;
      if writeLen == writeBuffer.Length {
        assert writeBuffer[..] == writeBuffer[..writeLen];
        if writingChunkedBody {
          wrapped.Write(Digits(writeLen, 16) + CRLF);
          wrapped.Write(writeBuffer[..]);
          wrapped.Write(CRLF);
        } else {
          wrapped.Write(writeBuffer[..]);
        }
        writeLen := 0;
      }
    }

    method Flush()
      requires Valid()
      modifies this`writeLen, wrapped`sent
      ensures Valid() && Unread() == old(Unread())
      ensures Out() == old(Out()).Flush()
    {
      EmitParts(Out(), "");
      assert Out().pending + "" == Out().pending;
      if writeLen > 0 {
        if writingChunkedBody {
          wrapped.Write(Digits(writeLen, 16) + CRLF);
        }
        wrapped.Write(writeBuffer[..writeLen]);
        if writingChunkedBody {
          wrapped.Write(CRLF);
        }
        writeLen := 0;
      }
    }

    method FinishResponse()
      requires Valid()
      modifies this`writeLen, wrapped`sent
      ensures Valid() && Unread() == old(Unread())
      ensures Out() == old(Out()).Finish()
    {
      Flush();
      if writingChunkedBody {
        wrapped.Write(LAST_CHUNK);
      }
    }
  }

  // ---------------------------------------------------------------- any interleaving of reads

  /** `PokeBack` gives back the octet of a byte read right before it, and is not tried elsewhere. */
  datatype ReadOp = ReadOne | ReadMany(size: nat) | PokeBack

  datatype ReadEvent = GotByte(b: char) | GotBlock(s: string) | AtEnd | PushedBack | NotTried

  /** The octets taken and not given back after one more event. */
  function Taken(taken: string, event: ReadEvent): string {
    match event
    case GotByte(b) => taken + [b]
    case GotBlock(s) => taken + s
    case PushedBack => if taken == "" then "" else taken[..|taken| - 1]
    case _ => taken
  }

  /** What an operation does on a plain sequence of octets of which `taken` is gone; `justRead`
      says that the operation before it was a byte read that found an octet. */
  ghost predicate PlainStep(input: string, taken: string, justRead: bool, op: ReadOp, event: ReadEvent) {
    && taken <= input
    && match op
       case ReadOne => event == if taken == input then AtEnd else GotByte(input[|taken|])
       case ReadMany(size) =>
         if taken == input then event == AtEnd
         else event.GotBlock? && event.s <= input[|taken|..] && |event.s| <= size && (size > 0 ==> event.s != "")
       case PokeBack => event == if justRead then PushedBack else NotTried
  }

  ghost predicate PlainRun(input: string, taken: string, justRead: bool, ops: seq<ReadOp>, events: seq<ReadEvent>)
    decreases |ops|
  {
    if ops == [] || events == [] then ops == [] && events == []
    else
      && PlainStep(input, taken, justRead, ops[0], events[0])
      && PlainRun(input, Taken(taken, events[0]), events[0].GotByte?, ops[1..], events[1..])
  }

  /** Where both runs took a block, the blocks are equally long. */
  ghost predicate SameSizes(one: seq<ReadEvent>, other: seq<ReadEvent>) {
    forall k :: 0 <= k < |one| && k < |other| && one[k].GotBlock? && other[k].GotBlock? ==> |one[k].s| == |other[k].s|
  }

  /** The fragments that the wrapped reader delivers show in nothing but the sizes of block reads:
      runs of the same calls in which those agree are the same. */
  lemma {:induction false} ReadsIgnoreFragments(input: string, taken: string, justRead: bool, ops: seq<ReadOp>,
                                                one: seq<ReadEvent>, other: seq<ReadEvent>)
    requires PlainRun(input, taken, justRead, ops, one) && PlainRun(input, taken, justRead, ops, other)
    requires SameSizes(one, other)
    ensures one == other
    decreases |ops|
  {
    if ops == [] {
    } else {
      assert one[0] == other[0];
      ReadsIgnoreFragments(input, Taken(taken, one[0]), one[0].GotByte?, ops[1..], one[1..], other[1..]);
      assert one == [one[0]] + one[1..] && other == [other[0]] + other[1..];
    }
  }

  lemma StepConserves(taken: string, unread: string, event: ReadEvent, after: string)
    requires
      match event
      case GotByte(b) => unread == [b] + after
      case GotBlock(s) => unread == s + after
      case PushedBack => taken != "" && after == [taken[|taken| - 1]] + unread
      case _ => after == unread
    ensures Taken(taken, event) + after == taken + unread
  {}

  method ReadStep(stream: BufferedStream, op: ReadOp, ghost taken: string, last: Option<char>)
    returns (event: ReadEvent)
    requires stream.Valid()
    requires last.Some? ==> stream.CanPoke() && taken != "" && taken[|taken| - 1] == last.value
    modifies stream.Repr()
    ensures stream.Valid() && Taken(taken, event) + stream.Unread() == taken + old(stream.Unread())
    ensures event.GotByte? ==> stream.CanPoke()
    ensures PlainStep(taken + old(stream.Unread()), taken, last.Some?, op, event)
  {
    ghost var unread := stream.Unread();
    assert (taken + unread)[|taken|..] == unread;
    match op {
      case ReadOne =>
        var b := stream.ReadByte();
        event := match b case Some(c) => GotByte(c) case None => AtEnd;
      case ReadMany(size) =>
        var buf := new char[size];
        var n := stream.Read(buf);
        event := match n case Some(k) => GotBlock(buf[..k]) case None => AtEnd;
      case PokeBack =>
        if last.Some? {
          stream.PokeByte(last.value);
          event := PushedBack;
        } else {
          event := NotTried;
        }
    }
    StepConserves(taken, unread, event, stream.Unread());
  }

  /** Every interleaving of reads and push-backs behaves as one plain sequence of octets, and no
      push-back fails. */
  method ReadInterleaved(stream: BufferedStream, ops: seq<ReadOp>, ghost taken: string, last: Option<char>)
    returns (events: seq<ReadEvent>)
    requires stream.Valid()
    requires last.Some? ==> stream.CanPoke() && taken != "" && taken[|taken| - 1] == last.value
    modifies stream.Repr()
    ensures stream.Valid() && PlainRun(taken + old(stream.Unread()), taken, last.Some?, ops, events)
    decreases |ops|
  {
    if ops == [] { return []; }
    var event := ReadStep(stream, ops[0], taken, last);
    var rest := ReadInterleaved(stream, ops[1..], Taken(taken, event),
                                match event case GotByte(b) => Some(b) case _ => None);
    events := [event] + rest;
  }
}
