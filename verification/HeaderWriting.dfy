/** `HeaderConvertible::to_stream`, the writer utilities and `HeaderCollection`, writing to the
    stream in plain mode.
 */
module HeaderWriting {
  import opened Octets
  import opened Utf8
  import opened Numbers
  import opened Chunked
  import opened BufferedStreams
  import opened Serialization
  import opened HeaderValues
  import opened HostAndRanges
  import opened Headers
  import opened Encoding

  /** All that was written to a stream in plain mode, sent or still buffered. */
  ghost function Total(stream: BufferedStream): string
    requires stream.WriteSide()
    reads stream`writeLen, stream`writingChunkedBody, stream.writeBuffer, stream.wrapped`sent
  {
    stream.Out().Total()
  }

  /** Write octets. */
  method PutText(stream: BufferedStream, s: string)
    requires stream.Valid() && !stream.writingChunkedBody
    modifies stream`writeLen, stream.writeBuffer, stream.wrapped`sent
    ensures stream.Valid() && Total(stream) == old(Total(stream)) + s
  {
    PlainWrite(stream.Out(), s, stream.writeBuffer.Length);
    stream.Write(s);
  }

  /** Write the octets of a text. */
  method WriteStr(stream: BufferedStream, s: string)
    requires stream.Valid() && !stream.writingChunkedBody
    modifies stream`writeLen, stream.writeBuffer, stream.wrapped`sent
    ensures stream.Valid() && Total(stream) == old(Total(stream)) + Encode(s)
  {
    PutText(stream, Encode(s));
  }

  method WriteQuotedString(stream: BufferedStream, text: string)
    requires stream.Valid() && !stream.writingChunkedBody
    modifies stream`writeLen, stream.writeBuffer, stream.wrapped`sent
    ensures stream.Valid() && Total(stream) == old(Total(stream)) + QuotedString(Encode(text))
  {
    ghost var start := Total(stream);
    var s := Encode(text);
    PutText(stream, "\"");
    for i := 0 to |s|
      invariant stream.Valid() && Total(stream) + Escape(s[i..]) == start + "\"" + Escape(s)
    {
      ghost var before := Total(stream);
      if s[i] == '\\' || s[i] == '"' {
        PutText(stream, "\\");
      }
      PutText(stream, [s[i]]);
      assert s[i..][1..] == s[i + 1..];
      EscapeMoves(before, s[i], Escape(s[i + 1..]));
    }
    assert s[|s|..] == "" && Total(stream) == start + "\"" + Escape(s);
    PutText(stream, "\"");
    QuotedParts(start, Escape(s));
  }

  lemma EscapeMoves(a: string, c: char, rest: string)
    ensures a + "\\" + [c] + rest == a + (['\\', c] + rest)
    ensures a + [c] + rest == a + ([c] + rest)
  {}

  lemma QuotedParts(a: string, escaped: string)
    ensures a + "\"" + escaped + "\"" == a + ("\"" + escaped + "\"")
  {}

  method WriteMaybeQuotedString(stream: BufferedStream, s: string)
    requires stream.Valid() && !stream.writingChunkedBody
    modifies stream`writeLen, stream.writeBuffer, stream.wrapped`sent
    ensures stream.Valid() && Total(stream) == old(Total(stream)) + MaybeQuoted(Encode(s))
  {
    TokenOctets(s);
    if IsToken(s) { WriteStr(stream, s); } else { WriteQuotedString(stream, s); }
  }

  method WriteParameter(stream: BufferedStream, p: Parameter)
    requires stream.Valid() && !stream.writingChunkedBody
    modifies stream`writeLen, stream.writeBuffer, stream.wrapped`sent
    ensures stream.Valid() && Total(stream) == old(Total(stream)) + PrintParameter((Encode(p.0), Encode(p.1)))
  {
    ghost var start, key := Total(stream), Encode(p.0);
    WriteStr(stream, p.0);
    PutText(stream, "=");
    WriteMaybeQuotedString(stream, p.1);
    Associative(start, key, "=");
    Associative(start, key + "=", MaybeQuoted(Encode(p.1)));
  }

  method WriteParameters(stream: BufferedStream, ps: seq<Parameter>)
    requires stream.Valid() && !stream.writingChunkedBody
    modifies stream`writeLen, stream.writeBuffer, stream.wrapped`sent
    ensures stream.Valid() && Total(stream) == old(Total(stream)) + PrintParameters(EncodeParameters(ps))
  {
    ghost var goal := Total(stream) + PrintParameters(EncodeParameters(ps));
    for i := 0 to |ps|
      invariant stream.Valid() && Total(stream) + PrintParameters(EncodeParameters(ps[i..])) == goal
    {
      assert ps[i..][0] == ps[i] && ps[i..][1..] == ps[i + 1..];
      PrintFirstParameter((Encode(ps[i].0), Encode(ps[i].1)), EncodeParameters(ps[i + 1..]));
      WriteFirstParameter(stream, ps[i], EncodeParameters(ps[i + 1..]));
    }
  }

  /** One turn of the loop of `write_parameters`; `rest` is what later turns write. */
  method WriteFirstParameter(stream: BufferedStream, p: Parameter, ghost rest: seq<Parameter>)
    requires stream.Valid() && !stream.writingChunkedBody
    modifies stream`writeLen, stream.writeBuffer, stream.wrapped`sent
    ensures stream.Valid()
    ensures Total(stream) + PrintParameters(rest) ==
              old(Total(stream)) + (";" + PrintParameter((Encode(p.0), Encode(p.1))) + PrintParameters(rest))
  {
    ghost var before := Total(stream);
    PutText(stream, ";");
    WriteParameter(stream, p);
    ParameterMoves(before, PrintParameter((Encode(p.0), Encode(p.1))), PrintParameters(rest));
  }

  lemma PrintFirstParameter(p: Parameter, rest: seq<Parameter>)
    ensures PrintParameters([p] + rest) == ";" + PrintParameter(p) + PrintParameters(rest)
  {
    assert ([p] + rest)[1..] == rest;
  }

  lemma ParameterMoves(a: string, parameter: string, rest: string)
    ensures a + ";" + parameter + rest == a + (";" + parameter + rest)
  {}

  /** `write_token` asserts that it is given a token. */
  method WriteToken(stream: BufferedStream, token: string)
    requires stream.Valid() && !stream.writingChunkedBody && IsToken(token)
    modifies stream`writeLen, stream.writeBuffer, stream.wrapped`sent
    ensures stream.Valid() && Total(stream) == old(Total(stream)) + Encode(token)
  {
    WriteStr(stream, token);
  }

  /** The tokens that `to_stream` asserts to be tokens are. */
  predicate Writable(value: HeaderValue) {
    match value
    case List(items) =>
      forall i :: 0 <= i < |items| && items[i].CodingItem? && items[i].coding.TransferExtension? ==>
                    IsToken(items[i].coding.name)
    case Media(m) => IsToken(m.mainType) && IsToken(m.subtype)
    case _ => true
  }

  method ItemToStream(stream: BufferedStream, item: ListItem)
    requires stream.Valid() && !stream.writingChunkedBody && Writable(List([item]))
    modifies stream`writeLen, stream.writeBuffer, stream.wrapped`sent
    ensures stream.Valid() && Total(stream) == old(Total(stream)) + PrintItem(EncodeItem(item))
  {
    match item {
      case ConnectionItem(Close) => PutText(stream, "close");
      case ConnectionItem(Token(s)) => WriteStr(stream, s);
      case MethodItem(ExtensionMethod(s)) => WriteStr(stream, s);
      case MethodItem(m) => PutText(stream, PrintMethod(m));
      case CodingItem(ChunkedCoding) => PutText(stream, "chunked");
      case CodingItem(TransferExtension(name, ps)) =>
        assert [item][0] == item;
        ghost var start := Total(stream);
        WriteToken(stream, name);
        WriteParameters(stream, ps);
        Associative(start, Encode(name), PrintParameters(EncodeParameters(ps)));
    }
  }

  /** Lists are written item by item with ", " between them: the text of `http_value`. */
  method ListToStream(stream: BufferedStream, items: seq<ListItem>)
    requires stream.Valid() && !stream.writingChunkedBody && Writable(List(items))
    modifies stream`writeLen, stream.writeBuffer, stream.wrapped`sent
    ensures stream.Valid() && Total(stream) == old(Total(stream)) + PrintList(EncodeItems(items))
  {
    ghost var start, encoded := Total(stream), EncodeItems(items);
    for i := 0 to |items|
      invariant stream.Valid() && Total(stream) + Pending(encoded, i) == start + PrintList(encoded)
    {
      ghost var before := Total(stream);
      if i != 0 {
        PutText(stream, ", ");
      }
      ItemToStream(stream, items[i]);
      PendingStep(encoded, i, before);
    }
  }

  /** What is still to be written of a list before item `i`. */
  ghost function Pending(items: seq<ListItem>, i: nat): string
    requires i <= |items|
  {
    if i == |items| then "" else (if i == 0 then "" else ", ") + PrintList(items[i..])
  }

  lemma PendingStep(items: seq<ListItem>, i: nat, before: string)
    requires i < |items|
    ensures
      var separated := if i != 0 then before + ", " else before;
      separated + PrintItem(items[i]) + Pending(items, i + 1) == before + Pending(items, i)
  {
    var rest := items[i..];
    assert rest[0] == items[i] && rest[1..] == items[i + 1..];
    var separator := if i == 0 then "" else ", ";
    assert Pending(items, i) == separator + (PrintItem(items[i]) + Pending(items, i + 1)) by {
      if |rest| > 1 { Associative(PrintItem(items[i]), ", ", PrintList(rest[1..])); }
    }
    SeparatorMoves(before, separator, PrintItem(items[i]), Pending(items, i + 1));
  }

  lemma SeparatorMoves(a: string, b: string, c: string, d: string)
    ensures a + b + c + d == a + (b + (c + d))
    ensures b == "" ==> a + b == a
  {}

  method TagToStream(stream: BufferedStream, tag: EntityTag)
    requires stream.Valid() && !stream.writingChunkedBody
    modifies stream`writeLen, stream.writeBuffer, stream.wrapped`sent
    ensures stream.Valid() && Total(stream) == old(Total(stream)) + PrintTag(EncodeTag(tag))
  {
    ghost var start := Total(stream);
    if tag.weak {
      PutText(stream, "W/");
    }
    WriteQuotedString(stream, tag.opaqueTag);
    ghost var quoted := QuotedString(Encode(tag.opaqueTag));
    Associative(start, "W/", quoted);
    assert "" + quoted == quoted;
  }

  method MediaToStream(stream: BufferedStream, m: MediaType)
    requires stream.Valid() && !stream.writingChunkedBody && IsToken(m.mainType) && IsToken(m.subtype)
    modifies stream`writeLen, stream.writeBuffer, stream.wrapped`sent
    ensures stream.Valid() && Total(stream) == old(Total(stream)) + PrintMedia(EncodeMedia(m))
  {
    ghost var start := Total(stream);
    WriteToken(stream, m.mainType);
    PutText(stream, "/");
    WriteToken(stream, m.subtype);
    WriteParameters(stream, m.parameters);
    MediaMoves(start, Encode(m.mainType), Encode(m.subtype), PrintParameters(EncodeParameters(m.parameters)));
  }

  lemma MediaMoves(a: string, b: string, c: string, d: string)
    ensures a + b + "/" + c + d == a + (b + "/" + c + d)
  {}

  method RangesToStream(stream: BufferedStream, ranges: AcceptableRanges)
    requires stream.Valid() && !stream.writingChunkedBody
    modifies stream`writeLen, stream.writeBuffer, stream.wrapped`sent
    ensures stream.Valid() && Total(stream) == old(Total(stream)) + PrintRanges(EncodeRanges(ranges))
  {
    match ranges {
      case NoAcceptableRanges => PutText(stream, "none");
      case RangeUnits(units) =>
        ghost var goal := Total(stream) + PrintUnits(EncodeUnits(units));
        for i := 0 to |units|
          invariant stream.Valid() && Total(stream) + PrintUnits(EncodeUnits(units[i..])) == goal
        {
          ghost var before, rest := Total(stream), EncodeUnits(units[i + 1..]);
          assert units[i..][0] == units[i] && units[i..][1..] == units[i + 1..];
          match units[i] {
            case Bytes => PutText(stream, "bytes");
            case OtherRangeUnit(name) => WriteStr(stream, name);
          }
          ghost var u := EncodeUnit(units[i]);
          PrintFirstUnit(u, rest);
          Associative(before, PrintUnit(u), PrintUnits(rest));
        }
    }
  }

  lemma PrintFirstUnit(u: RangeUnit, rest: seq<RangeUnit>)
    ensures PrintUnits([u] + rest) == PrintUnit(u) + PrintUnits(rest)
  {
    assert ([u] + rest)[1..] == rest;
  }

  method ValueToStream(stream: BufferedStream, value: HeaderValue)
    requires stream.Valid() && !stream.writingChunkedBody && Writable(value)
    modifies stream`writeLen, stream.writeBuffer, stream.wrapped`sent
    ensures stream.Valid() && Total(stream) == old(Total(stream)) + PrintValue(EncodeValue(value))
  {
    match value {
      case Text(s) => WriteStr(stream, s);
      case Number(n) => PutText(stream, Digits(n, 10));
      case List(items) => ListToStream(stream, items);
      case Tag(tag) => TagToStream(stream, tag);
      case Media(m) => MediaToStream(stream, m);
      case HostValue(host) =>
        HostOctets(host);
        WriteStr(stream, PrintHost(host));
      case Ranges(ranges) => RangesToStream(stream, ranges);
      case Foreign(text) => WriteStr(stream, text);
    }
  }

  /** `write_header`. */
  method WriteHeader(stream: BufferedStream, table: seq<Row>, h: Header)
    requires stream.Valid() && !stream.writingChunkedBody
    requires h.Known? ==> h.index < |table| && Writable(h.value)
    modifies stream`writeLen, stream.writeBuffer, stream.wrapped`sent
    ensures stream.Valid() && Total(stream) == old(Total(stream)) + PrintHeader(table, EncodeHeader(h))
  {
    ghost var start := Total(stream);
    match h {
      case Extension(name, text) =>
        WriteStr(stream, name + ": " + text);
        PutText(stream, CRLF);
        LineOctets(name, text);
        Associative(start, Encode(name) + ": " + Encode(text), CRLF);
      case Known(i, value) =>
        PutText(stream, table[i].outputName + ": ");
        ValueToStream(stream, value);
        PutText(stream, CRLF);
        ghost var text := PrintValue(EncodeValue(value));
        Associative(start, table[i].outputName + ": ", text);
        Associative(start, table[i].outputName + ": " + text, CRLF);
    }
  }

  lemma LineOctets(name: string, text: string)
    ensures Encode(name + ": " + text) == Encode(name) + ": " + Encode(text)
  {
    EncodeConcat(name + ": ", text);
    EncodeConcat(name, ": ");
    AsciiIsSame(": ");
  }

  // ---------------------------------------------------------------- collections

  ghost predicate WritableCollection(coll: Collection) {
    forall i :: 0 <= i < |coll.known| && coll.known[i].Some? ==> Writable(coll.known[i].value)
  }

  class HeaderCollection {
    var known: seq<Option<HeaderValue>>
    var extensions: seq<(string, string)>

    function View(): Collection
      reads this
    {
      Collection(known, extensions)
    }

    constructor (size: nat)
      ensures View() == EmptyCollection(size)
    {
      known, extensions := seq(size, _ => None), [];
    }

    method Insert(h: Header)
      modifies this
      ensures View() == InsertHeader(old(View()), h)
      ensures Sorted(old(extensions)) ==> Sorted(extensions)
    {
      ghost var before := extensions;
      if h.Extension? && Sorted(before) { InsertIsUpdate(before, h.name, h.text); }
      match h {
        case Known(i, value) => if i < |known| { known := known[i := Some(value)]; }
        case Extension(name, text) => extensions := InsertSorted(extensions, name, text);
      }
    }

    /** Print every header and the empty line that ends them. */
    method WriteAll(stream: BufferedStream, table: seq<Row>)
      requires stream.Valid() && !stream.writingChunkedBody
      requires |known| == |table| && WritableCollection(View())
      modifies stream`writeLen, stream.writeBuffer, stream.wrapped`sent
      ensures stream.Valid() && Total(stream) == old(Total(stream)) + PrintAll(table, EncodeCollection(View()))
    {
      ghost var start, hs := Total(stream), EncodeHeaders(HeadersOf(View()));
      HeadersOfOctets(View());
      var iter := new HeaderCollectionIterator(this);
      WriteRemaining(iter, stream, table);
      PutText(stream, CRLF);
      Associative(start, PrintHeaders(table, hs), CRLF);
    }
  }

  /** The loop of `write_all`. */
  method WriteRemaining(iter: HeaderCollectionIterator, stream: BufferedStream, table: seq<Row>)
    requires stream.Valid() && !stream.writingChunkedBody && iter.Valid()
    requires |iter.coll.known| == |table| && WritableCollection(iter.coll.View())
    modifies iter, stream`writeLen, stream.writeBuffer, stream.wrapped`sent
    ensures stream.Valid()
    ensures Total(stream) == old(Total(stream)) + PrintHeaders(table, EncodeHeaders(old(iter.Remaining())))
  {
    ghost var goal := Total(stream) + PrintHeaders(table, EncodeHeaders(iter.Remaining()));
    var more := true;
    while more
      invariant stream.Valid() && iter.Valid()
      invariant Total(stream) + PrintHeaders(table, EncodeHeaders(iter.Remaining())) == goal
      invariant !more ==> iter.Remaining() == []
      decreases |iter.Remaining()|, more
    {
      more := WriteNext(iter, stream, table);
    }
  }

  /** One turn of the loop. */
  method WriteNext(iter: HeaderCollectionIterator, stream: BufferedStream, table: seq<Row>) returns (more: bool)
    requires stream.Valid() && !stream.writingChunkedBody && iter.Valid()
    requires |iter.coll.known| == |table| && WritableCollection(iter.coll.View())
    modifies iter, stream`writeLen, stream.writeBuffer, stream.wrapped`sent
    ensures stream.Valid() && iter.Valid()
    ensures Total(stream) + PrintHeaders(table, EncodeHeaders(iter.Remaining())) ==
              old(Total(stream)) + PrintHeaders(table, EncodeHeaders(old(iter.Remaining())))
    ensures if more then |iter.Remaining()| < |old(iter.Remaining())|
            else iter.Remaining() == old(iter.Remaining()) == []
  {
    ghost var before, rest := Total(stream), iter.Remaining();
    var h := iter.Next();
    if h == None { return false; }
    WriteHeader(stream, table, h.value);
    PrintFirstHeader(table, rest);
    Associative(before, PrintHeader(table, EncodeHeader(h.value)), PrintHeaders(table, EncodeHeaders(rest[1..])));
    more := true;
  }

  lemma PrintFirstHeader(table: seq<Row>, hs: seq<Header>)
    requires hs != []
    ensures PrintHeaders(table, EncodeHeaders(hs)) ==
              PrintHeader(table, EncodeHeader(hs[0])) + PrintHeaders(table, EncodeHeaders(hs[1..]))
  {
    assert EncodeHeaders(hs)[1..] == EncodeHeaders(hs[1..]);
  }

  /** A typed header is one of the collection's. */
  ghost predicate FromCollection(h: Header, coll: Collection) {
    h.Known? ==> h.index < |coll.known| && coll.known[h.index] == Some(h.value)
  }

  lemma FirstThenRest(h: Header, known: seq<Header>, extensions: seq<Header>)
    ensures
      var all := [h] + known + extensions;
      all[0] == h && all[1..] == known + extensions
  {}

  lemma SlotFirst(known: seq<Option<HeaderValue>>, i: nat, extensions: seq<Header>)
    requires i < |known|
    ensures
      var before, after := KnownFrom(known, i) + extensions, KnownFrom(known, i + 1) + extensions;
      if known[i].Some? then before != [] && before[0] == Known(i, known[i].value) && before[1..] == after
      else before == after
  {
    KnownStep(known, i);
    if known[i].Some? { FirstThenRest(Known(i, known[i].value), KnownFrom(known, i + 1), extensions); }
  }

  class HeaderCollectionIterator {
    var pos: nat
    const coll: HeaderCollection
    var extPos: Option<nat>

    ghost predicate Valid()
      reads this, coll
    {
      (pos > |coll.known| ==> extPos.Some?) && (extPos.Some? ==> extPos.value <= |coll.extensions|)
    }

    /** The headers still to come. */
    ghost function Remaining(): seq<Header>
      requires Valid()
      reads this, coll
    {
      if pos <= |coll.known| then KnownFrom(coll.known, pos) + ExtensionHeaders(coll.extensions)
      else ExtensionHeaders(coll.extensions[extPos.value..])
    }

    constructor (coll: HeaderCollection)
      ensures this.coll == coll && Valid() && Remaining() == HeadersOf(coll.View())
    {
      pos, this.coll, extPos := 0, coll, None;
    }

    method Next() returns (h: Option<Header>)
      requires Valid()
      modifies this
      ensures Valid()
      ensures h.Some? ==> FromCollection(h.value, coll.View())
      ensures old(Remaining()) == [] ==> h == None && Remaining() == []
      ensures old(Remaining()) != [] ==> h == Some(old(Remaining())[0]) && Remaining() == old(Remaining())[1..]
    {
      while true
        invariant Valid() && Remaining() == old(Remaining())
        decreases |coll.known| + 1 - pos
      {
        var done;
        done, h := Turn();
        if done { return; }
      }
    }

    /** One turn of the loop of `next`. */
    method Turn() returns (done: bool, h: Option<Header>)
      requires Valid()
      modifies this
      ensures Valid() && pos == old(pos) + 1
      ensures !done ==> pos <= |coll.known| + 1 && Remaining() == old(Remaining())
      ensures done ==> h.Some? ==> FromCollection(h.value, coll.View())
      ensures done && old(Remaining()) == [] ==> h == None && Remaining() == []
      ensures done && old(Remaining()) != [] ==> h == Some(old(Remaining())[0]) && Remaining() == old(Remaining())[1..]
    {
      pos := pos + 1;
      if pos - 1 < |coll.known| {
        h := NextKnown();
        done := h != None;
      } else if pos - 1 == |coll.known| {
        StartExtensions();
        done, h := false, None;
      } else {
        h := NextExtension();
        done := true;
      }
    }

    method StartExtensions()
      requires pos == |coll.known| + 1
      modifies this`extPos
      ensures Valid() && Remaining() == KnownFrom(coll.known, |coll.known|) + ExtensionHeaders(coll.extensions)
    {
      extPos := Some(0);
      assert coll.extensions[0..] == coll.extensions;
    }

    /** The typed header of the row that was just passed, if there is one. */
    method NextKnown() returns (h: Option<Header>)
      requires Valid() && 0 < pos <= |coll.known|
      ensures
        var before := KnownFrom(coll.known, pos - 1) + ExtensionHeaders(coll.extensions);
        if h.Some? then
          FromCollection(h.value, coll.View()) && before != [] && h.value == before[0] && Remaining() == before[1..]
        else Remaining() == before
    {
      SlotFirst(coll.known, pos - 1, ExtensionHeaders(coll.extensions));
      match coll.known[pos - 1] {
        case Some(v) => h := Some(Known(pos - 1, v));
        case None => h := None;
      }
    }

    method NextExtension() returns (h: Option<Header>)
      requires Valid() && pos > |coll.known| + 1
      modifies this`extPos
      ensures Valid() && (h.Some? ==> FromCollection(h.value, coll.View()))
      ensures old(Remaining()) == [] ==> h == None && Remaining() == []
      ensures old(Remaining()) != [] ==> h == Some(old(Remaining())[0]) && Remaining() == old(Remaining())[1..]
    {
      var k := extPos.value;
      ghost var rest := coll.extensions[k..];
      if k == |coll.extensions| { return None; }
      extPos := Some(k + 1);
      assert rest[0] == coll.extensions[k] && rest[1..] == coll.extensions[k + 1..];
      h := Some(Extension(coll.extensions[k].0, coll.extensions[k].1));
    }
  }
}
