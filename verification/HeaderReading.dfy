/** `HeaderConvertible::from_stream` for every modelled type, `header_enum_from_stream` and
    `read_header`, running over the stream.
 */
module HeaderReading {
  import opened Octets
  import opened BufferedStreams
  import opened HeaderIterators
  import opened Serialization
  import opened HeaderParsing
  import opened HeaderValues
  import opened HostAndRanges
  import opened Headers

  method LowerCaseOf(s: string) returns (r: string)
    ensures r == LowerCase(s)
  {
    r := "";
    for i := 0 to |s|
      invariant r + LowerCase(s[i..]) == LowerCase(s)
    {
      r := r + [ToLower(s[i])];
    }
  }

  method ItemFromStream(kind: ItemKind, it: HeaderValueByteIterator) returns (r: Outcome<ListItem>)
    requires it.Valid()
    modifies it, it.reader`readPos, it.reader`readMax, it.reader.readBuffer, it.reader.wrapped`incoming
    ensures it.Valid() && it.Rest() == old(it.Rest())
    ensures (r, it.View()) == ReadItem(kind, old(it.View()))
  {
    var token := ReadTokenFrom(it);
    if token == None { return Bad; }
    match kind {
      case ConnectionKind =>
        var s := NormaliseHeaderName(token.value);
        return Got(ConnectionItem(if s == "Close" then Close else Token(s)));
      case MethodKind => return Got(MethodItem(MethodOf(token.value)));
      case CodingKind =>
        var name := LowerCaseOf(token.value);
        if name == "chunked" { return Got(CodingItem(ChunkedCoding)); }
        var ps := ReadParametersFrom(it);
        return match ps case Got(p) => Got(CodingItem(TransferExtension(name, p))) case Bad => Bad case Hang => Hang;
    }
  }

  method ListFromStream(kind: ItemKind, it: HeaderValueByteIterator) returns (r: Outcome<seq<ListItem>>)
    requires it.Valid()
    modifies it, it.reader`readPos, it.reader`readMax, it.reader.readBuffer, it.reader.wrapped`incoming
    ensures it.Valid() && it.Rest() == old(it.Rest())
    ensures (r, it.View()) == ReadList(kind, old(it.View()))
  {
    var result: seq<ListItem> := [];
    while true
      invariant it.Valid() && it.Rest() == old(it.Rest())
      invariant ListFrom(kind, it.View(), result) == ReadList(kind, old(it.View()))
      decreases |it.View().text|
    {
      var item := ItemFromStream(kind, it);
      match item {
        case Got(h) => result := result + [h];
        case Bad => return Bad;
        case Hang => return Hang;
      }
      var comma := ConsumeCommaLws(it);
      match comma {
        case CommaConsumed =>
        case EndOfValue => return Got(result);
        case ErrCommaNotFound => return Bad;
      }
    }
  }

  method TagFromStream(it: HeaderValueByteIterator) returns (r: Outcome<EntityTag>)
    requires it.Valid()
    modifies it, it.reader`readPos, it.reader`readMax, it.reader.readBuffer, it.reader.wrapped`incoming
    ensures it.Valid() && it.Rest() == old(it.Rest())
    ensures (r, it.View()) == ReadTag(old(it.View()))
  {
    var weak := false;
    var b := it.Next();
    if b == Some('W') || b == Some('w') {
      var slash := it.Next();
      if slash != Some('/') { return Bad; }
      var quote := it.Next();
      if quote != Some('"') { return Bad; }
      weak := true;
    } else if b != Some('"') {
      return Bad;
    }
    var tag := ReadQuotedString(it, true);
    if tag == None { return Bad; }
    var consumed := VerifyConsumed(it);
    r := if consumed then Got(EntityTag(weak, tag.value)) else Bad;
  }

  method MediaFromStream(it: HeaderValueByteIterator) returns (r: Outcome<MediaType>)
    requires it.Valid()
    modifies it, it.reader`readPos, it.reader`readMax, it.reader.readBuffer, it.reader.wrapped`incoming
    ensures it.Valid() && it.Rest() == old(it.Rest())
    ensures (r, it.View()) == ReadMedia(old(it.View()))
  {
    var mainType := ReadTokenFrom(it);
    if mainType == None { return Bad; }
    var slash := it.Next();
    if slash != Some('/') { return Bad; }
    var subtype := ReadTokenFrom(it);
    if subtype == None { return Bad; }
    var ps := ReadParametersFrom(it);
    match ps {
      case Bad => return Bad;
      case Hang => return Hang;
      case Got(parameters) =>
        var consumed := VerifyConsumed(it);
        return if consumed then Got(MediaType(mainType.value, subtype.value, parameters)) else Bad;
    }
  }

  method RangesFromStream(it: HeaderValueByteIterator) returns (r: AcceptableRanges)
    requires it.Valid()
    modifies it, it.reader`readPos, it.reader`readMax, it.reader.readBuffer, it.reader.wrapped`incoming
    ensures it.Valid() && it.Rest() == old(it.Rest())
    ensures (r, it.View()) == ReadRanges(old(it.View()))
  {
    var units: seq<RangeUnit> := [];
    while true
      invariant it.Valid() && it.Rest() == old(it.Rest())
      invariant RangesFrom(it.View(), units) == ReadRanges(old(it.View()))
      decreases |it.View().text|
    {
      var token := ReadTokenFrom(it);
      if token == None { return RangeUnits(units); }
      var name := LowerCaseOf(token.value);
      if name == "bytes" {
        units := units + [Bytes];
      } else if name == "none" && |units| == 0 {
        return NoAcceptableRanges;
      } else {
        units := units + [OtherRangeUnit(name)];
      }
    }
  }

  method ValueFromStream(kind: Kind, it: HeaderValueByteIterator) returns (r: Outcome<HeaderValue>)
    requires it.Valid()
    modifies it, it.reader`readPos, it.reader`readMax, it.reader.readBuffer, it.reader.wrapped`incoming
    ensures it.Valid() && it.Rest() == old(it.Rest())
    ensures (r, it.View()) == ReadValue(kind, old(it.View()))
  {
    match kind {
      case TextKind =>
        var s := CollectToStr(it);
        r := Got(Text(s));
      case NumberKind =>
        var s := CollectToStr(it);
        r := NumberOf(s);
      case ListKind(item) =>
        var list := ListFromStream(item, it);
        r := match list case Got(items) => Got(List(items)) case Bad => Bad case Hang => Hang;
      case TagKind =>
        var tag := TagFromStream(it);
        r := match tag case Got(t) => Got(Tag(t)) case Bad => Bad case Hang => Hang;
      case MediaKind =>
        var media := MediaFromStream(it);
        r := match media case Got(m) => Got(Media(m)) case Bad => Bad case Hang => Hang;
      case HostKind =>
        var s := CollectToStr(it);
        r := Got(HostValue(HostOf(s)));
      case RangesKind =>
        var ranges := RangesFromStream(it);
        r := Got(Ranges(ranges));
      case ForeignKind(accepts) =>
        var s := CollectToStr(it);
        r := if accepts(s) then Got(Foreign(s)) else Bad;
    }
  }

  /** The row of a normalised name, as the generated `match` finds it. */
  method RowOf(table: seq<Row>, name: string) returns (i: nat)
    ensures i == Dispatch(table, name)
  {
    i := 0;
    while i < |table| && table[i].inputName != name
      invariant i <= |table| && i + Dispatch(table[i..], name) == Dispatch(table, name)
    {
      i := i + 1;
    }
  }

  /** The loop over the header name, up to the colon. */
  method NameFromStream(stream: BufferedStream) returns (scan: NameScan)
    requires stream.Valid()
    modifies stream`readPos, stream`readMax, stream.readBuffer, stream.wrapped`incoming
    ensures stream.Valid() && stream.CanPoke()
    ensures
      match ScanName(NameStart, old(stream.Unread()), "")
      case NameRead(name, raw) => scan.NameRead? && scan.name == name && stream.Unread() == raw
      case ScanEndOfHeaders(rest) => scan.ScanEndOfHeaders? && stream.Unread() == rest
      case ScanBadSyntax(rest) => scan.ScanBadSyntax? && stream.Unread() == rest
      case ScanEndOfFile => scan.ScanEndOfFile? && stream.Unread() == ""
  {
    var state, name := NameStart, "";
    while true
      invariant stream.Valid()
      invariant ScanName(state, stream.Unread(), name) == ScanName(NameStart, old(stream.Unread()), "")
      decreases |stream.Unread()|
    {
      var read := stream.ReadByte();
      if read == None { return ScanEndOfFile; }
      var b := read.value;
      if (state.NameStart? || state.ReadingName?) && IsTokenItem(b) {
        name, state := name + [b], ReadingName;
      } else if state.NameStart? && b == CR {
        state := GotCR;
      } else if (state.NameStart? || state.GotCR?) && b == LF {
        return ScanEndOfHeaders("");
      } else if b == SP {
        state := NameFinished;
      } else if b == ':' {
        return NameRead(name, "");
      } else {
        return ScanBadSyntax("");
      }
    }
  }

  /** `HeaderEnum::value_from_stream`: the reader of the row that the name dispatches to. */
  method HeaderFromStream(table: seq<Row>, name: string, it: HeaderValueByteIterator) returns (header: Outcome<Header>)
    requires it.Valid()
    modifies it, it.reader`readPos, it.reader`readMax, it.reader.readBuffer, it.reader.wrapped`incoming
    ensures it.Valid() && it.Rest() == old(it.Rest())
    ensures (header, it.View()) == ValueFor(table, name, old(it.View()))
  {
    var i := RowOf(table, name);
    if i < |table| {
      var value := ValueFromStream(table[i].kind, it);
      header := match value case Got(v) => Got(Known(i, v)) case Bad => Bad case Hang => Hang;
    } else {
      var s := CollectToStr(it);
      header := Got(Extension(name, s));
    }
  }

  /** The part of `header_enum_from_stream` after the colon: whatever the reader of the value did,
      the line is consumed to its end. */
  method ValueLineFromStream(table: seq<Row>, name: string, stream: BufferedStream)
    returns (header: Outcome<Header>, extra: Option<char>)
    requires stream.Valid() && stream.CanPoke()
    modifies stream`readPos, stream`readMax, stream.readBuffer, stream.wrapped`incoming
    ensures stream.Valid() && stream.CanPoke()
    ensures header == ValueFor(table, name, Value(Unfold(old(stream.Unread()), true, false), true)).0
    ensures !header.Hang? ==>
              (match extra case Some(b) => [b] + stream.Unread() case None => stream.Unread()) ==
              After(old(stream.Unread()), false)
  {
    var it := new HeaderValueByteIterator(stream);
    header := HeaderFromStream(table, name, it);
    if header.Hang? { return header, None; }
    var _ := CollectToStr(it);
    extra := it.nextByte;
  }

  /** `header_enum_from_stream`: the result and the octet that was read too far. */
  method HeaderEnumFromStream(table: seq<Row>, stream: BufferedStream) returns (line: HeaderLine, extra: Option<char>)
    requires stream.Valid()
    modifies stream`readPos, stream`readMax, stream.readBuffer, stream.wrapped`incoming
    ensures stream.Valid() && stream.CanPoke() && line == ReadHeader(table, old(stream.Unread())).0
    ensures !line.NeverReturns? ==>
              (match extra case Some(b) => [b] + stream.Unread() case None => stream.Unread()) ==
              ReadHeader(table, old(stream.Unread())).1
  {
    var scan := NameFromStream(stream);
    match scan {
      case ScanEndOfFile => return EndOfFile, None;
      case ScanEndOfHeaders(_) => return EndOfHeaders, None;
      case ScanBadSyntax(_) => return MalformedHeaderSyntax, None;
      case NameRead(scanned, _) =>
        var name := NormaliseHeaderName(scanned);
        var header;
        header, extra := ValueLineFromStream(table, name, stream);
        line := match header case Got(h) => Line(h) case Bad => MalformedHeaderValue case Hang => NeverReturns;
    }
  }

  /** `RequestBuffer::read_header`: pushes the octet read too far back into the stream. */
  method ReadHeaderFrom(table: seq<Row>, stream: BufferedStream) returns (line: HeaderLine)
    requires stream.Valid()
    modifies stream`readPos, stream`readMax, stream.readBuffer, stream.wrapped`incoming
    ensures stream.Valid() && line == ReadHeader(table, old(stream.Unread())).0
    ensures !line.NeverReturns? ==> stream.Unread() == ReadHeader(table, old(stream.Unread())).1
  {
    var extra;
    line, extra := HeaderEnumFromStream(table, stream);
    if extra.Some? {
      stream.PokeByte(extra.value);
    }
  }

  // ---------------------------------------------------------------- any reader of a value

  datatype ReaderOp = TakeNext | GiveBack

  /** Any reader built on `next` and push-back of the octet just read keeps what follows the
      header, and none of its push-backs fails. */
  method RunReader(it: HeaderValueByteIterator, ops: seq<ReaderOp>, last: Option<char>)
    requires it.Valid() && (last.Some? ==> it.CanPushBack(last.value))
    modifies it, it.reader`readPos, it.reader`readMax, it.reader.readBuffer, it.reader.wrapped`incoming
    ensures it.Valid() && it.Rest() == old(it.Rest())
    decreases |ops|
  {
    if ops == [] { return; }
    match ops[0] {
      case TakeNext =>
        var b := it.Next();
        RunReader(it, ops[1..], b);
      case GiveBack =>
        if last.Some? { it.PushBack(last.value); }
        RunReader(it, ops[1..], None);
    }
  }

  /** Whatever the reader of a value does, the stream ends up after the first LF that no SP or HT
      follows.  An octet was saved on the way exactly when one follows that LF. */
  method ReadLineWith(stream: BufferedStream, ops: seq<ReaderOp>) returns (saved: Option<char>)
    requires stream.Valid() && stream.CanPoke()
    modifies stream`readPos, stream`readMax, stream.readBuffer, stream.wrapped`incoming
    ensures stream.Valid() && stream.Unread() == Remainder(old(stream.Unread()), 0)
    ensures saved.None? <==> HeaderEnd(old(stream.Unread()), 0) + 1 >= |old(stream.Unread())|
  {
    UnfoldingIsDeclarative(stream.Unread());
    var it := new HeaderValueByteIterator(stream);
    RunReader(it, ops, None);
    var _ := CollectToStr(it);
    saved := it.nextByte;
    assert saved.None? <==> it.Raw() == "";
    if saved.Some? {
      stream.PokeByte(saved.value);
    }
  }

  /** A header that ends with the stream leaves no octet to be saved. */
  lemma NothingSavedAtEnd()
    ensures HeaderEnd("x\n", 0) + 1 >= |"x\n"|
  {}
}
