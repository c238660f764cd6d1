/** Header values as octets.  Texts are stored in UTF-8 and written octet by octet, and the reader
    takes every octet for a character of its own: what is read back is the value with each text
    replaced by its octets, which is the value itself exactly when it prints as ASCII.
 */
module Encoding {
  import opened Octets
  import opened Utf8
  import opened Numbers
  import opened HeaderIterators
  import opened Serialization
  import opened HeaderParsing
  import opened HeaderValues
  import opened HostAndRanges
  import opened Headers

  // ---------------------------------------------------------------- values with their octets for texts

  function EncodeParameters(ps: seq<Parameter>): seq<Parameter> {
    if ps == [] then [] else [(Encode(ps[0].0), Encode(ps[0].1))] + EncodeParameters(ps[1..])
  }

  function EncodeItem(item: ListItem): ListItem {
    match item
    case ConnectionItem(Token(s)) => ConnectionItem(Token(Encode(s)))
    case MethodItem(ExtensionMethod(s)) => MethodItem(ExtensionMethod(Encode(s)))
    case CodingItem(TransferExtension(name, ps)) => CodingItem(TransferExtension(Encode(name), EncodeParameters(ps)))
    case _ => item
  }

  function EncodeItems(items: seq<ListItem>): (r: seq<ListItem>)
    ensures |r| == |items| && forall i :: 0 <= i < |items| ==> r[i] == EncodeItem(items[i])
  {
    if items == [] then [] else [EncodeItem(items[0])] + EncodeItems(items[1..])
  }

  function EncodeTag(e: EntityTag): EntityTag { e.(opaqueTag := Encode(e.opaqueTag)) }

  function EncodeMedia(m: MediaType): MediaType {
    MediaType(Encode(m.mainType), Encode(m.subtype), EncodeParameters(m.parameters))
  }

  function EncodeHost(h: Host): Host { h.(name := Encode(h.name)) }

  function EncodeUnits(units: seq<RangeUnit>): seq<RangeUnit> {
    if units == [] then [] else [EncodeUnit(units[0])] + EncodeUnits(units[1..])
  }

  function EncodeUnit(u: RangeUnit): RangeUnit {
    match u case Bytes => Bytes case OtherRangeUnit(s) => OtherRangeUnit(Encode(s))
  }

  function EncodeRanges(r: AcceptableRanges): AcceptableRanges {
    match r case NoAcceptableRanges => r case RangeUnits(units) => RangeUnits(EncodeUnits(units))
  }

  function EncodeValue(value: HeaderValue): HeaderValue {
    match value
    case Text(s) => Text(Encode(s))
    case Number(n) => value
    case List(items) => List(EncodeItems(items))
    case Tag(tag) => Tag(EncodeTag(tag))
    case Media(media) => Media(EncodeMedia(media))
    case HostValue(host) => HostValue(EncodeHost(host))
    case Ranges(ranges) => Ranges(EncodeRanges(ranges))
    case Foreign(s) => Foreign(Encode(s))
  }

  function EncodeHeader(h: Header): Header {
    match h
    case Known(i, value) => Known(i, EncodeValue(value))
    case Extension(name, s) => Extension(Encode(name), Encode(s))
  }

  function EncodeHeaders(hs: seq<Header>): seq<Header> {
    if hs == [] then [] else [EncodeHeader(hs[0])] + EncodeHeaders(hs[1..])
  }

  function EncodeSlot(slot: Option<HeaderValue>): Option<HeaderValue> {
    match slot case Some(value) => Some(EncodeValue(value)) case None => None
  }

  function EncodeKnown(known: seq<Option<HeaderValue>>): (r: seq<Option<HeaderValue>>)
    ensures |r| == |known| && forall i :: 0 <= i < |known| ==> r[i] == EncodeSlot(known[i])
  {
    if known == [] then [] else [EncodeSlot(known[0])] + EncodeKnown(known[1..])
  }

  function EncodeEntries(entries: seq<(string, string)>): seq<(string, string)> {
    if entries == [] then [] else [(Encode(entries[0].0), Encode(entries[0].1))] + EncodeEntries(entries[1..])
  }

  function EncodeCollection(coll: Collection): Collection {
    Collection(EncodeKnown(coll.known), EncodeEntries(coll.extensions))
  }

  // ---------------------------------------------------------------- octets of the printed forms

  lemma {:induction false} EscapeConcat(s: string, t: string)
    ensures Escape(s + t) == Escape(s) + Escape(t)
  {
    if s == "" {
      assert s + t == t;
    } else {
      assert (s + t)[1..] == s[1..] + t;
      EscapeConcat(s[1..], t);
    }
  }

  lemma {:induction false} EscapePlain(s: string)
    requires forall i :: 0 <= i < |s| ==> !NeedsEscape(s[i])
    ensures Escape(s) == s
  {
    if s != "" {
      EscapePlain(s[1..]);
      assert s == [s[0]] + s[1..];
    }
  }

  lemma EncodeOne(c: char)
    ensures Encode([c]) == EncodeChar(c)
  {
    assert [c][1..] == "";
  }

  lemma {:induction false} EscapeOctets(s: string)
    ensures Encode(Escape(s)) == Escape(Encode(s))
  {
    if s != "" {
      EscapeOctets(s[1..]);
      EncodeConcat(EscapeChar(s[0]), Escape(s[1..]));
      EscapeConcat(EncodeChar(s[0]), Encode(s[1..]));
      EscapeCharOctets(s[0]);
    }
  }

  lemma EscapeCharOctets(c: char)
    ensures Encode(EscapeChar(c)) == Escape(EncodeChar(c))
  {
    EncodeOne(c);
    if NeedsEscape(c) {
      assert EscapeChar(c) == "\\" + [c] && [c][1..] == "";
      EncodeConcat("\\", [c]);
      EncodeOne('\\');
      assert Escape("") == "" && Escape([c]) == ['\\', c] + "";
    } else {
      EscapePlain(EncodeChar(c));
    }
  }

  lemma QuotedOctets(s: string)
    ensures Encode(QuotedString(s)) == QuotedString(Encode(s))
    ensures Encode(MaybeQuoted(s)) == MaybeQuoted(Encode(s))
  {
    EncodeOne('"');
    EncodeConcat("\"", Escape(s));
    EncodeConcat("\"" + Escape(s), "\"");
    EscapeOctets(s);
    TokenOctets(s);
  }

  lemma ParameterOctets(p: Parameter)
    ensures Encode(PrintParameter(p)) == PrintParameter((Encode(p.0), Encode(p.1)))
  {
    EncodeOne('=');
    EncodeConcat(p.0, "=");
    EncodeConcat(p.0 + "=", MaybeQuoted(p.1));
    QuotedOctets(p.1);
  }

  lemma {:induction false} ParametersOctets(ps: seq<Parameter>)
    ensures Encode(PrintParameters(ps)) == PrintParameters(EncodeParameters(ps))
  {
    if ps != [] {
      ParametersOctets(ps[1..]);
      ParameterOctets(ps[0]);
      EncodeOne(';');
      EncodeConcat(";", PrintParameter(ps[0]));
      EncodeConcat(";" + PrintParameter(ps[0]), PrintParameters(ps[1..]));
      assert EncodeParameters(ps)[1..] == EncodeParameters(ps[1..]);
    }
  }

  lemma AsciiIsSame(s: string)
    requires Ascii(s)
    ensures Encode(s) == s
  {
    SameIffAscii(s);
  }

  predicate AsciiAt(s: string, i: nat)
    requires i < |s|
  {
    IsAscii(s[i])
  }

  /** A literal text is its own octets. */
  lemma AsciiLiteral(s: string)
    requires forall i :: 0 <= i < |s| ==> AsciiAt(s, i)
    ensures Encode(s) == s
  {
    forall i | 0 <= i < |s| ensures IsAscii(s[i]) { assert AsciiAt(s, i); }
    AsciiIsSame(s);
  }

  lemma ItemOctets(item: ListItem)
    ensures Encode(PrintItem(item)) == PrintItem(EncodeItem(item))
  {
    match item {
      case CodingItem(TransferExtension(name, ps)) =>
        EncodeConcat(name, PrintParameters(ps));
        ParametersOctets(ps);
      case ConnectionItem(Token(s)) =>
      case MethodItem(ExtensionMethod(s)) =>
      case ConnectionItem(Close) => AsciiLiteral("close");
      case CodingItem(ChunkedCoding) => AsciiLiteral("chunked");
      case MethodItem(m) => MethodOctets(m);
    }
  }

  lemma MethodOctets(m: Method)
    requires !m.ExtensionMethod?
    ensures Encode(PrintMethod(m)) == PrintMethod(m)
  {
    MethodReadsBack(m);
    TokenOctets(PrintMethod(m));
  }

  lemma {:induction false} ListOctets(items: seq<ListItem>)
    ensures Encode(PrintList(items)) == PrintList(EncodeItems(items))
  {
    if items != [] {
      ItemOctets(items[0]);
      assert EncodeItems(items)[1..] == EncodeItems(items[1..]);
      if |items| > 1 {
        ListOctets(items[1..]);
        AsciiIsSame(", ");
        EncodeConcat(PrintItem(items[0]), ", ");
        EncodeConcat(PrintItem(items[0]) + ", ", PrintList(items[1..]));
      }
    }
  }

  lemma TagOctets(e: EntityTag)
    ensures Encode(PrintTag(e)) == PrintTag(EncodeTag(e))
  {
    AsciiIsSame("W/");
    EncodeConcat(if e.weak then "W/" else "", QuotedString(e.opaqueTag));
    QuotedOctets(e.opaqueTag);
  }

  lemma MediaOctets(m: MediaType)
    ensures Encode(PrintMedia(m)) == PrintMedia(EncodeMedia(m))
  {
    EncodeOne('/');
    EncodeConcat(m.mainType, "/");
    EncodeConcat(m.mainType + "/", m.subtype);
    EncodeConcat(m.mainType + "/" + m.subtype, PrintParameters(m.parameters));
    ParametersOctets(m.parameters);
  }

  lemma DigitsAreAscii(n: nat)
    ensures Encode(Digits(n, 10)) == Digits(n, 10)
  {
    var s := Digits(n, 10);
    forall i | 0 <= i < |s| ensures IsAscii(s[i]) { assert IsDigit(s[i], 10); }
    AsciiIsSame(s);
  }

  lemma HostOctets(h: Host)
    ensures Encode(PrintHost(h)) == PrintHost(EncodeHost(h))
  {
    if h.port.Some? {
      EncodeOne(':');
      EncodeConcat(h.name, ":");
      EncodeConcat(h.name + ":", Digits(h.port.value, 10));
      DigitsAreAscii(h.port.value);
    }
  }

  lemma {:induction false} UnitsOctets(units: seq<RangeUnit>)
    ensures Encode(PrintUnits(units)) == PrintUnits(EncodeUnits(units))
  {
    if units != [] {
      UnitsOctets(units[1..]);
      AsciiLiteral("bytes");
      EncodeConcat(PrintUnit(units[0]), PrintUnits(units[1..]));
      assert EncodeUnits(units)[1..] == EncodeUnits(units[1..]);
    }
  }

  /** Writing a value as text, or part by part in octets, sends the same octets. */
  lemma ValueOctets(value: HeaderValue)
    ensures Encode(PrintValue(value)) == PrintValue(EncodeValue(value))
  {
    match value {
      case Text(s) =>
      case Number(n) => DigitsAreAscii(n);
      case List(items) => ListOctets(items);
      case Tag(tag) => TagOctets(tag);
      case Media(media) => MediaOctets(media);
      case HostValue(host) => HostOctets(host);
      case Ranges(NoAcceptableRanges) => AsciiLiteral("none");
      case Ranges(RangeUnits(units)) => UnitsOctets(units);
      case Foreign(s) =>
    }
  }

  ghost predicate AsciiNames(table: seq<Row>) {
    forall i :: 0 <= i < |table| ==> Encode(table[i].outputName) == table[i].outputName
  }

  lemma HeaderOctets(table: seq<Row>, h: Header)
    requires AsciiNames(table)
    ensures Encode(PrintHeader(table, h)) == PrintHeader(table, EncodeHeader(h))
  {
    var name, text := HeaderName(table, h), HeaderText(h);
    AsciiIsSame(": ");
    AsciiIsSame(CRLF);
    EncodeConcat(name, ": ");
    EncodeConcat(name + ": ", text);
    EncodeConcat(name + ": " + text, CRLF);
    if h.Known? { ValueOctets(h.value); }
  }

  lemma {:induction false} HeadersOctets(table: seq<Row>, hs: seq<Header>)
    requires AsciiNames(table)
    ensures Encode(PrintHeaders(table, hs)) == PrintHeaders(table, EncodeHeaders(hs))
  {
    if hs != [] {
      HeaderOctets(table, hs[0]);
      HeadersOctets(table, hs[1..]);
      EncodeConcat(PrintHeader(table, hs[0]), PrintHeaders(table, hs[1..]));
      assert EncodeHeaders(hs)[1..] == EncodeHeaders(hs[1..]);
    }
  }

  lemma {:induction false} EncodeHeadersConcat(a: seq<Header>, b: seq<Header>)
    ensures EncodeHeaders(a + b) == EncodeHeaders(a) + EncodeHeaders(b)
  {
    if a == [] {
      assert a + b == b;
    } else {
      assert (a + b)[1..] == a[1..] + b;
      EncodeHeadersConcat(a[1..], b);
    }
  }

  lemma SlotOctets(slot: Option<HeaderValue>, i: nat)
    ensures SlotHeaders(EncodeSlot(slot), i) == EncodeHeaders(SlotHeaders(slot, i))
  {
    if slot.Some? { assert [Known(i, slot.value)][1..] == []; }
  }

  lemma {:induction false} KnownOctets(known: seq<Option<HeaderValue>>, i: nat)
    requires i <= |known|
    ensures KnownFrom(EncodeKnown(known), i) == EncodeHeaders(KnownFrom(known, i))
    decreases |known| - i
  {
    if i < |known| {
      KnownOctets(known, i + 1);
      SlotOctets(known[i], i);
      EncodeHeadersConcat(SlotHeaders(known[i], i), KnownFrom(known, i + 1));
    }
  }

  lemma {:induction false} ExtensionOctets(entries: seq<(string, string)>)
    ensures ExtensionHeaders(EncodeEntries(entries)) == EncodeHeaders(ExtensionHeaders(entries))
  {
    if entries != [] {
      ExtensionOctets(entries[1..]);
      assert EncodeEntries(entries)[1..] == EncodeEntries(entries[1..]);
      assert ExtensionHeaders(entries)[1..] == ExtensionHeaders(entries[1..]);
    }
  }

  lemma HeadersOfOctets(coll: Collection)
    ensures HeadersOf(EncodeCollection(coll)) == EncodeHeaders(HeadersOf(coll))
  {
    KnownOctets(coll.known, 0);
    ExtensionOctets(coll.extensions);
    EncodeHeadersConcat(KnownFrom(coll.known, 0), ExtensionHeaders(coll.extensions));
  }

  lemma CollectionOctets(table: seq<Row>, coll: Collection)
    requires AsciiNames(table)
    ensures Encode(PrintAll(table, coll)) == PrintAll(table, EncodeCollection(coll))
  {
    HeadersOfOctets(coll);
    HeadersOctets(table, HeadersOf(coll));
    EncodeConcat(PrintHeaders(table, HeadersOf(coll)), CRLF);
    AsciiIsSame(CRLF);
  }

  lemma GoodTableNames(table: seq<Row>)
    requires GoodTable(table)
    ensures AsciiNames(table)
  {
    forall i | 0 <= i < |table| ensures Encode(table[i].outputName) == table[i].outputName {
      TokenOctets(table[i].outputName);
    }
  }

  // ---------------------------------------------------------------- what prints as ASCII is its own octets

  lemma AsciiConcat(s: string, t: string)
    ensures Ascii(s + t) <==> Ascii(s) && Ascii(t)
  {
    if Ascii(s + t) {
      forall i | 0 <= i < |s| ensures IsAscii(s[i]) { assert (s + t)[i] == s[i]; }
      forall i | 0 <= i < |t| ensures IsAscii(t[i]) { assert (s + t)[|s| + i] == t[i]; }
    }
  }

  lemma {:induction false} AsciiEscape(s: string)
    requires Ascii(Escape(s))
    ensures Ascii(s)
  {
    if s != "" {
      AsciiConcat(EscapeChar(s[0]), Escape(s[1..]));
      AsciiEscape(s[1..]);
      assert IsAscii(EscapeChar(s[0])[|EscapeChar(s[0])| - 1]);
      AsciiConcat([s[0]], s[1..]);
      assert s == [s[0]] + s[1..];
    }
  }

  lemma AsciiQuoted(s: string)
    requires Ascii(QuotedString(s)) || Ascii(MaybeQuoted(s))
    ensures Encode(s) == s
  {
    if Ascii(QuotedString(s)) {
      AsciiConcat("\"" + Escape(s), "\"");
      AsciiConcat("\"", Escape(s));
      AsciiEscape(s);
    }
    AsciiIsSame(s);
  }

  lemma {:induction false} AsciiParameters(ps: seq<Parameter>)
    requires Ascii(PrintParameters(ps))
    ensures EncodeParameters(ps) == ps
  {
    if ps != [] {
      var p := ps[0];
      AsciiConcat(";" + PrintParameter(p), PrintParameters(ps[1..]));
      AsciiConcat(";", PrintParameter(p));
      AsciiConcat(p.0 + "=", MaybeQuoted(p.1));
      AsciiConcat(p.0, "=");
      AsciiIsSame(p.0);
      AsciiQuoted(p.1);
      AsciiParameters(ps[1..]);
      assert ps == [p] + ps[1..];
    }
  }

  lemma AsciiItem(item: ListItem)
    requires Ascii(PrintItem(item))
    ensures EncodeItem(item) == item
  {
    match item {
      case ConnectionItem(Token(s)) => AsciiIsSame(s);
      case MethodItem(ExtensionMethod(s)) => AsciiIsSame(s);
      case CodingItem(TransferExtension(name, ps)) =>
        AsciiConcat(name, PrintParameters(ps));
        AsciiIsSame(name);
        AsciiParameters(ps);
      case _ =>
    }
  }

  lemma {:induction false} AsciiList(items: seq<ListItem>)
    requires Ascii(PrintList(items))
    ensures EncodeItems(items) == items
  {
    if items != [] {
      if |items| > 1 {
        AsciiConcat(PrintItem(items[0]) + ", ", PrintList(items[1..]));
        AsciiConcat(PrintItem(items[0]), ", ");
      }
      AsciiItem(items[0]);
      assert items == [items[0]] + items[1..];
      if |items| > 1 { AsciiList(items[1..]); } else { assert items[1..] == []; }
    }
  }

  lemma AsciiMedia(m: MediaType)
    requires Ascii(PrintMedia(m))
    ensures EncodeMedia(m) == m
  {
    AsciiConcat(m.mainType + "/" + m.subtype, PrintParameters(m.parameters));
    AsciiConcat(m.mainType + "/", m.subtype);
    AsciiConcat(m.mainType, "/");
    AsciiIsSame(m.mainType);
    AsciiIsSame(m.subtype);
    AsciiParameters(m.parameters);
  }

  lemma {:induction false} AsciiUnits(units: seq<RangeUnit>)
    requires Ascii(PrintUnits(units))
    ensures EncodeUnits(units) == units
  {
    if units != [] {
      AsciiConcat(PrintUnit(units[0]), PrintUnits(units[1..]));
      AsciiIsSame(PrintUnit(units[0]));
      AsciiUnits(units[1..]);
      assert units == [units[0]] + units[1..];
    }
  }

  lemma AsciiHost(h: Host)
    requires Ascii(PrintHost(h))
    ensures EncodeHost(h) == h
  {
    if h.port.Some? {
      AsciiConcat(h.name + ":", Digits(h.port.value, 10));
      AsciiConcat(h.name, ":");
    }
    AsciiIsSame(h.name);
  }

  lemma AsciiTag(e: EntityTag)
    requires Ascii(PrintTag(e))
    ensures EncodeTag(e) == e
  {
    AsciiConcat(if e.weak then "W/" else "", QuotedString(e.opaqueTag));
    AsciiQuoted(e.opaqueTag);
  }

  /** A value is the value of its octets exactly when it prints as ASCII. */
  lemma SameValueIffAscii(value: HeaderValue)
    ensures EncodeValue(value) == value <==> Ascii(PrintValue(value))
  {
    ValueOctets(value);
    SameIffAscii(PrintValue(value));
    if Ascii(PrintValue(value)) {
      match value {
        case Text(s) => AsciiIsSame(s);
        case Number(n) =>
        case List(items) => AsciiList(items);
        case Tag(tag) => AsciiTag(tag);
        case Media(media) => AsciiMedia(media);
        case HostValue(host) => AsciiHost(host);
        case Ranges(NoAcceptableRanges) =>
        case Ranges(RangeUnits(units)) => AsciiUnits(units);
        case Foreign(s) => AsciiIsSame(s);
      }
    }
  }

  lemma AsciiHead(table: seq<Row>, h: Header, rest: seq<Header>)
    requires Ascii(PrintHeaders(table, [h] + rest))
    ensures Ascii(HeaderName(table, h)) && Ascii(HeaderText(h)) && Ascii(PrintHeaders(table, rest))
  {
    assert ([h] + rest)[1..] == rest;
    AsciiConcat(PrintHeader(table, h), PrintHeaders(table, rest));
    AsciiText(table, h);
  }

  predicate SameEncoded(value: HeaderValue) { EncodeValue(value) == value }

  lemma AsciiFirst(table: seq<Row>, known: seq<Option<HeaderValue>>, i: nat)
    requires i < |known| && Ascii(PrintHeaders(table, KnownFrom(known, i)))
    ensures Ascii(PrintHeaders(table, KnownFrom(known, i + 1)))
    ensures known[i].Some? ==> SameEncoded(known[i].value)
  {
    KnownStep(known, i);
    if known[i].Some? {
      AsciiHead(table, Known(i, known[i].value), KnownFrom(known, i + 1));
      SameValueIffAscii(known[i].value);
    }
  }

  lemma {:induction false} AsciiSlot(table: seq<Row>, known: seq<Option<HeaderValue>>, i: nat, k: nat)
    requires i <= k < |known| && Ascii(PrintHeaders(table, KnownFrom(known, i)))
    ensures known[k].Some? ==> SameEncoded(known[k].value)
    decreases k - i
  {
    AsciiFirst(table, known, i);
    if i < k { AsciiSlot(table, known, i + 1, k); }
  }

  lemma SameKnown(known: seq<Option<HeaderValue>>)
    requires forall k :: 0 <= k < |known| && known[k].Some? ==> SameEncoded(known[k].value)
    ensures EncodeKnown(known) == known
  {
    forall k | 0 <= k < |known| ensures EncodeKnown(known)[k] == known[k] {
      if known[k].Some? { assert SameEncoded(known[k].value); }
    }
  }

  lemma AsciiText(table: seq<Row>, h: Header)
    requires Ascii(PrintHeader(table, h))
    ensures Ascii(HeaderName(table, h)) && Ascii(HeaderText(h))
  {
    var name, text := HeaderName(table, h), HeaderText(h);
    AsciiConcat(name + ": " + text, CRLF);
    AsciiConcat(name + ": ", text);
    AsciiConcat(name, ": ");
  }

  lemma {:induction false} AsciiEntries(table: seq<Row>, entries: seq<(string, string)>)
    requires Ascii(PrintHeaders(table, ExtensionHeaders(entries)))
    ensures EncodeEntries(entries) == entries
  {
    if entries != [] {
      var (name, text) := entries[0];
      var rest := ExtensionHeaders(entries[1..]);
      AsciiHead(table, Extension(name, text), rest);
      AsciiIsSame(name);
      AsciiIsSame(text);
      AsciiEntries(table, entries[1..]);
      assert entries == [entries[0]] + entries[1..];
    }
  }

  lemma {:induction false} PrintHeadersConcat(table: seq<Row>, a: seq<Header>, b: seq<Header>)
    ensures PrintHeaders(table, a + b) == PrintHeaders(table, a) + PrintHeaders(table, b)
  {
    if a == [] {
      assert a + b == b;
    } else {
      assert (a + b)[1..] == a[1..] + b;
      PrintHeadersConcat(table, a[1..], b);
      Associative(PrintHeader(table, a[0]), PrintHeaders(table, a[1..]), PrintHeaders(table, b));
    }
  }

  lemma SameCollectionIffAscii(table: seq<Row>, coll: Collection)
    requires AsciiNames(table)
    ensures EncodeCollection(coll) == coll <==> Ascii(PrintAll(table, coll))
  {
    CollectionOctets(table, coll);
    SameIffAscii(PrintAll(table, coll));
    if Ascii(PrintAll(table, coll)) {
      var known, extensions := KnownFrom(coll.known, 0), ExtensionHeaders(coll.extensions);
      AsciiConcat(PrintHeaders(table, HeadersOf(coll)), CRLF);
      PrintHeadersConcat(table, known, extensions);
      AsciiConcat(PrintHeaders(table, known), PrintHeaders(table, extensions));
      forall k | 0 <= k < |coll.known| && coll.known[k].Some? ensures SameEncoded(coll.known[k].value) {
        AsciiSlot(table, coll.known, 0, k);
      }
      SameKnown(coll.known);
      AsciiEntries(table, coll.extensions);
    }
  }

  // ---------------------------------------------------------------- reading back what was written

  /** A value that is written reads back as the value of its octets, and so as itself exactly when
      it prints as ASCII. */
  lemma WrittenValueReadsBackIff(kind: Kind, value: HeaderValue)
    requires GoodValue(kind, EncodeValue(value))
    ensures
      var r := ReadValue(kind, Value(Encode(PrintValue(value)), true)).0;
      r == Got(EncodeValue(value)) && (r == Got(value) <==> Ascii(PrintValue(value)))
  {
    ValueOctets(value);
    ValueReadsBack(kind, EncodeValue(value));
    SameValueIffAscii(value);
  }

  /** Writing a collection and reading headers until their end gives the collection of its octets,
      and so rebuilds the collection exactly when it prints as ASCII; the body is left unread. */
  lemma WrittenCollectionReadsBackIff(table: seq<Row>, coll: Collection, body: string)
    requires GoodTable(table) && GoodCollection(table, EncodeCollection(coll))
    ensures
      var r := ReadHeaders(table, Encode(PrintAll(table, coll)) + body, EmptyCollection(|table|));
      r == (AllRead, EncodeCollection(coll), body) && (r.1 == coll <==> Ascii(PrintAll(table, coll)))
  {
    GoodTableNames(table);
    CollectionOctets(table, coll);
    CollectionRoundTrip(table, EncodeCollection(coll), body);
    SameCollectionIffAscii(table, coll);
  }

  /** A string header that is written reads back as itself exactly when it holds no CR or LF, does
      not start with a blank and is ASCII. */
  lemma TextReadsBackIff(text: string, next: string)
    requires !StartsBlank(next)
    ensures Unfold(" " + Encode(text) + CRLF + next, true, false) == text <==>
              OneLine(text) && !StartsBlank(text) && Ascii(text)
  {
    OctetsReadBackIff(Encode(text), next);
    OneLineOctets(text);
    SameIffAscii(text);
    UnfoldIsOneLine(" " + Encode(text) + CRLF + next, true, false);
    if OneLine(text) { NeverStartsBlank(Encode(text), next); }
  }
}
