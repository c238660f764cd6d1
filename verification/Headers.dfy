/** Header tables, header lines and header collections as `headers_mod!` generates them: what is
    printed, what is read, and that reading a printed collection rebuilds it.
 */
module Headers {
  import opened Octets
  import opened Numbers
  import opened HeaderIterators
  import opened Serialization
  import opened HeaderParsing
  import opened HeaderValues
  import opened HostAndRanges

  // ---------------------------------------------------------------- tables and values

  /** The types a table gives to its headers.  A foreign type converts the whole text of the value
      by code outside the repository, which accepts it or not. */
  datatype Kind = TextKind | NumberKind | ListKind(item: ItemKind) | TagKind | MediaKind | HostKind | RangesKind
                | ForeignKind(accepts: string -> bool)

  datatype Row = Row(outputName: string, inputName: string, kind: Kind)

  datatype HeaderValue = Text(s: string) | Number(n: nat) | List(items: seq<ListItem>) | Tag(tag: EntityTag)
                       | Media(media: MediaType) | HostValue(host: Host) | Ranges(ranges: AcceptableRanges)
                       | Foreign(text: string)

  datatype Header = Known(index: nat, value: HeaderValue) | Extension(name: string, text: string)

  const UINT_LIMIT: nat := 0x1_0000_0000_0000_0000

  function NumberOf(s: string): Outcome<HeaderValue> {
    if s != "" && AllDigits(s, 10) && NumberValue(s, 10) < UINT_LIMIT then Got(Number(NumberValue(s, 10))) else Bad
  }

  function MapOutcome<S, T>(f: S -> T, r: (Outcome<S>, Value)): (Outcome<T>, Value) {
    (match r.0 case Got(x) => Got(f(x)) case Bad => Bad case Hang => Hang, r.1)
  }

  function ReadValue(kind: Kind, v: Value): (Outcome<HeaderValue>, Value) {
    match kind
    case TextKind => var (s, w) := Collect(v); (Got(Text(s)), w)
    case NumberKind => var (s, w) := Collect(v); (NumberOf(s), w)
    case ListKind(item) => MapOutcome(items => List(items), ReadList(item, v))
    case TagKind => MapOutcome(tag => Tag(tag), ReadTag(v))
    case MediaKind => MapOutcome(media => Media(media), ReadMedia(v))
    case HostKind => var (s, w) := Collect(v); (Got(HostValue(HostOf(s))), w)
    case RangesKind => var (r, w) := ReadRanges(v); (Got(Ranges(r)), w)
    case ForeignKind(accepts) => var (s, w) := Collect(v); (if accepts(s) then Got(Foreign(s)) else Bad, w)
  }

  function PrintValue(value: HeaderValue): string {
    match value
    case Text(s) => s
    case Number(n) => Digits(n, 10)
    case List(items) => PrintList(items)
    case Tag(tag) => PrintTag(tag)
    case Media(media) => PrintMedia(media)
    case HostValue(host) => PrintHost(host)
    case Ranges(ranges) => PrintRanges(ranges)
    case Foreign(text) => text
  }

  /** The row whose input name is the name, or the number of rows. */
  function Dispatch(table: seq<Row>, name: string): (i: nat)
    ensures i <= |table|
    ensures i < |table| ==> table[i].inputName == name
    ensures forall j :: 0 <= j < i ==> table[j].inputName != name
  {
    if table == [] then 0 else if table[0].inputName == name then 0 else 1 + Dispatch(table[1..], name)
  }

  function ValueFor(table: seq<Row>, name: string, v: Value): (Outcome<Header>, Value) {
    var i := Dispatch(table, name);
    if i < |table| then MapOutcome(value => Known(i, value), ReadValue(table[i].kind, v))
    else var (s, w) := Collect(v); (Got(Extension(name, s)), w)
  }

  // ---------------------------------------------------------------- one header line

  datatype NameState = NameStart | ReadingName | NameFinished | GotCR

  datatype NameScan = NameRead(name: string, raw: string) | ScanEndOfHeaders(rest: string)
                    | ScanBadSyntax(rest: string) | ScanEndOfFile

  /** The automaton over the header name, up to and including the colon. */
  function ScanName(state: NameState, input: string, name: string): NameScan
    decreases |input|
  {
    if input == "" then ScanEndOfFile
    else
      var b, rest := input[0], input[1..];
      if (state.NameStart? || state.ReadingName?) && IsTokenItem(b) then ScanName(ReadingName, rest, name + [b])
      else if state.NameStart? && b == CR then ScanName(GotCR, rest, name)
      else if (state.NameStart? || state.GotCR?) && b == LF then ScanEndOfHeaders(rest)
      else if b == SP then ScanName(NameFinished, rest, name)
      else if b == ':' then NameRead(name, rest)
      else ScanBadSyntax(rest)
  }

  datatype HeaderLine = Line(header: Header) | EndOfFile | EndOfHeaders | MalformedHeaderValue
                      | MalformedHeaderSyntax | NeverReturns

  /** `read_header` on the octets to come: its result and the octets it leaves. */
  function ReadHeader(table: seq<Row>, input: string): (HeaderLine, string) {
    match ScanName(NameStart, input, "")
    case ScanEndOfFile => (EndOfFile, "")
    case ScanEndOfHeaders(rest) => (EndOfHeaders, rest)
    case ScanBadSyntax(rest) => (MalformedHeaderSyntax, rest)
    case NameRead(name, raw) => ReadNamed(table, Normalise(name), raw)
  }

  /** The value of a header, and the octets after it. */
  function ReadNamed(table: seq<Row>, name: string, raw: string): (HeaderLine, string) {
    var outcome := ValueFor(table, name, Value(Unfold(raw, true, false), true)).0;
    (match outcome case Got(h) => Line(h) case Bad => MalformedHeaderValue case Hang => NeverReturns,
     After(raw, false))
  }

  /** A header has the name of its row; there is no header without a row. */
  function HeaderName(table: seq<Row>, h: Header): string {
    match h case Known(i, _) => if i < |table| then table[i].outputName else "" case Extension(name, _) => name
  }

  function HeaderText(h: Header): string { match h case Known(_, value) => PrintValue(value) case Extension(_, s) => s }

  function PrintHeader(table: seq<Row>, h: Header): string {
    HeaderName(table, h) + ": " + HeaderText(h) + CRLF
  }

  lemma {:induction false} ScanNameColon(state: NameState, input: string, name: string)
    ensures
      var c := FirstColon(input);
      match ScanName(state, input, name)
      case NameRead(_, raw) => c < |input| && raw == input[c + 1..]
      case ScanEndOfHeaders(rest) => |rest| < |input|
      case ScanBadSyntax(rest) => |rest| < |input|
      case ScanEndOfFile => true
    decreases |input|
  {
    if input == "" || input[0] == ':' {
    } else {
      var next := if (state.NameStart? || state.ReadingName?) && IsTokenItem(input[0]) then ReadingName
                  else if state.NameStart? && input[0] == CR then GotCR else NameFinished;
      ScanNameColon(next, input[1..], if next == ReadingName then name + [input[0]] else name);
    }
  }

  /** Where the header that the input starts with ends: at the first LF after the colon that no SP
      or HT follows. */
  predicate LeavesAfterHeader(input: string, rest: string) {
    var c := FirstColon(input);
    c < |input| && rest == Remainder(input, c + 1)
  }

  lemma {:induction false} HeaderEndShift(input: string, c: nat, from: nat)
    requires c <= from <= |input|
    ensures HeaderEnd(input, from) == c + HeaderEnd(input[c..], from - c)
    decreases |input| - from
  {
    if from < |input| && !EndsHeader(input, from) { HeaderEndShift(input, c, from + 1); }
  }

  lemma {:induction false} AfterShrinks(raw: string, gotLF: bool)
    ensures |After(raw, gotLF)| <= |raw|
  {
    if raw != "" { AfterShrinks(raw[1..], !gotLF && raw[0] == LF); }
  }

  lemma RemainderShift(input: string, from: nat)
    requires from <= |input|
    ensures Remainder(input, from) == Remainder(input[from..], 0)
  {
    HeaderEndShift(input, from, from);
  }

  lemma AfterFrom(input: string, from: nat)
    requires from <= |input|
    ensures After(input[from..], false) == Remainder(input, from)
  {
    UnfoldingIsDeclarative(input[from..]);
    RemainderShift(input, from);
  }

  /** Whatever the value parser makes of the value, a header that was read or found malformed
      leaves exactly what follows the first LF after the colon that no SP or HT follows; and every
      call that returns anything but the end of the file takes octets off the input. */
  lemma ReadHeaderStops(table: seq<Row>, input: string)
    ensures
      var (line, rest) := ReadHeader(table, input);
      line.Line? || line.MalformedHeaderValue? ==> LeavesAfterHeader(input, rest)
    ensures !ReadHeader(table, input).0.EndOfFile? ==> |ReadHeader(table, input).1| < |input|
  {
    ScanNameColon(NameStart, input, "");
    var scan := ScanName(NameStart, input, "");
    if scan.NameRead? {
      AfterFrom(input, FirstColon(input) + 1);
      AfterShrinks(scan.raw, false);
    }
  }

  // ---------------------------------------------------------------- a printed line read back

  ghost predicate GoodTable(table: seq<Row>) {
    forall i :: 0 <= i < |table| ==>
      && IsToken(table[i].outputName)
      && Normalise(table[i].outputName) == table[i].inputName
      && Dispatch(table, table[i].inputName) == i
  }

  ghost predicate OneLineParameters(ps: seq<Parameter>) { forall i :: 0 <= i < |ps| ==> OneLine(ps[i].1) }

  ghost predicate OneLineItems(items: seq<ListItem>) {
    forall i :: 0 <= i < |items| ==>
      match items[i] case CodingItem(TransferExtension(_, ps)) => OneLineParameters(ps) case _ => true
  }

  /** The values of a type that the reader gives back once they are printed. */
  ghost predicate GoodValue(kind: Kind, value: HeaderValue) {
    match (kind, value)
    case (TextKind, Text(s)) => OneLine(s) && !StartsBlank(s)
    case (NumberKind, Number(n)) => n < UINT_LIMIT
    case (ListKind(item), List(items)) => GoodList(item, items) && ListReadsBack(items) && OneLineItems(items)
    case (TagKind, Tag(tag)) => OneLine(tag.opaqueTag)
    case (MediaKind, Media(m)) =>
      && IsName(m.mainType) && IsName(m.subtype) && GoodKeys(m.parameters)
      && ReadsBack(m.parameters, "") && OneLineParameters(m.parameters)
    case (HostKind, HostValue(h)) =>
      && ':' !in h.name && (h.port.Some? ==> h.port.value < PORT_LIMIT)
      && OneLine(h.name) && !StartsBlank(h.name)
    case (RangesKind, Ranges(r)) => GoodRanges(r)
    case (ForeignKind(accepts), Foreign(s)) => accepts(s) && OneLine(s) && !StartsBlank(s)
    case (_, _) => false
  }

  ghost predicate GoodHeader(table: seq<Row>, h: Header) {
    match h
    case Known(i, value) => i < |table| && GoodValue(table[i].kind, value)
    case Extension(name, s) =>
      IsToken(name) && Normalise(name) == name && Dispatch(table, name) == |table| && OneLine(s) && !StartsBlank(s)
  }

  lemma {:induction false} ScanToken(token: string, state: NameState, rest: string, name: string)
    requires IsToken(token) && (state.NameStart? || state.ReadingName?)
    ensures ScanName(state, token + ":" + rest, name) == NameRead(name + token, rest)
    decreases |token|
  {
    var input := token + ":" + rest;
    if token == "" {
      assert input == ":" + rest && input[1..] == rest && name + token == name;
    } else {
      assert input[1..] == token[1..] + ":" + rest;
      ScanToken(token[1..], ReadingName, rest, name + [token[0]]);
      MoveFirst(name, token);
    }
  }

  lemma {:induction false} UnfoldText(text: string, next: string, atStart: bool)
    requires OneLine(text) && (atStart ==> !StartsBlank(text)) && !StartsBlank(next)
    ensures Unfold(text + CRLF + next, atStart, false) == text
    ensures After(text + CRLF + next, false) == next
    decreases |text|
  {
    var raw := text + CRLF + next;
    if text == "" {
      assert raw == CRLF + next && raw[1..] == [LF] + next && ([LF] + next)[1..] == next;
      assert Unfold([LF] + next, atStart, false) == Unfold(next, atStart, true) == "";
      assert After([LF] + next, false) == After(next, true) == next;
    } else {
      assert raw[0] == text[0] && raw[1..] == text[1..] + CRLF + next;
      assert text[0] in text && OneLine(text[1..]);
      UnfoldText(text[1..], next, false);
      assert [text[0]] + text[1..] == text;
    }
  }

  /** A one-line text that does not start with a blank is what the reader sees of it. */
  lemma UnfoldPrinted(text: string, next: string)
    requires OneLine(text) && !StartsBlank(text) && !StartsBlank(next)
    ensures Unfold(" " + text + CRLF + next, true, false) == text
    ensures After(" " + text + CRLF + next, false) == next
  {
    var raw := " " + text + CRLF + next;
    assert raw[1..] == text + CRLF + next;
    UnfoldText(text, next, true);
  }

  lemma ValueReadsBack(kind: Kind, value: HeaderValue)
    requires GoodValue(kind, value)
    ensures ReadValue(kind, Value(PrintValue(value), true)).0 == Got(value)
  {
    var v := Value(PrintValue(value), true);
    match (kind, value) {
      case (TextKind, Text(s)) => CollectAll(v);
      case (NumberKind, Number(n)) =>
        CollectAll(v);
        DigitsHaveValue(n, 10);
      case (ListKind(item), List(items)) => ListReadBack(item, items, true);
      case (TagKind, Tag(tag)) => TagReadsBack(tag, true);
      case (MediaKind, Media(m)) => MediaReadsBack(m, true);
      case (HostKind, HostValue(h)) =>
        CollectAll(v);
        HostReadsBack(h);
      case (RangesKind, Ranges(r)) => RangesReadBack(r, true);
      case (ForeignKind(_), Foreign(s)) => CollectAll(v);
    }
  }

  // ---------------------------------------------------------------- printed values are one line

  lemma TokenIsOneLine(s: string)
    requires IsToken(s)
    ensures OneLine(s)
  {}

  lemma OneLineConcat(a: string, b: string)
    ensures OneLine(a + b) <==> OneLine(a) && OneLine(b)
  {}

  lemma {:induction false} EscapeIsOneLine(s: string)
    requires OneLine(s)
    ensures OneLine(Escape(s))
  {
    if s == "" {
    } else {
      assert s[0] in s && OneLine(s[1..]);
      EscapeIsOneLine(s[1..]);
    }
  }

  lemma MaybeQuotedIsOneLine(s: string)
    requires OneLine(s)
    ensures OneLine(MaybeQuoted(s)) && OneLine(QuotedString(s))
  {
    EscapeIsOneLine(s);
  }

  lemma {:induction false} ParametersAreOneLine(ps: seq<Parameter>)
    requires GoodKeys(ps) && OneLineParameters(ps)
    ensures OneLine(PrintParameters(ps))
  {
    if ps == [] {
    } else {
      MaybeQuotedIsOneLine(ps[0].1);
      TokenIsOneLine(ps[0].0);
      OneLineConcat(ps[0].0 + "=", MaybeQuoted(ps[0].1));
      ParametersAreOneLine(ps[1..]);
      OneLineConcat(";" + PrintParameter(ps[0]), PrintParameters(ps[1..]));
    }
  }

  lemma ItemIsOneLine(item: ListItem)
    requires GoodItem(item) && OneLineItems([item])
    ensures OneLine(PrintItem(item))
  {
    match item {
      case ConnectionItem(c) => TokenIsOneLine(PrintConnection(c));
      case MethodItem(m) =>
        MethodReadsBack(m);
        TokenIsOneLine(PrintMethod(m));
      case CodingItem(ChunkedCoding) =>
      case CodingItem(TransferExtension(name, ps)) =>
        assert item == [item][0];
        TokenIsOneLine(name);
        ParametersAreOneLine(ps);
        OneLineConcat(name, PrintParameters(ps));
    }
  }

  lemma {:induction false} ListIsOneLine(items: seq<ListItem>)
    requires OneLineItems(items) && forall i :: 0 <= i < |items| ==> GoodItem(items[i])
    ensures OneLine(PrintList(items))
  {
    if items == [] {
    } else {
      ItemIsOneLine(items[0]);
      ListIsOneLine(items[1..]);
      OneLineConcat(PrintItem(items[0]) + ", ", PrintList(items[1..]));
      OneLineConcat(PrintItem(items[0]), ", ");
    }
  }

  lemma HostIsOneLine(h: Host)
    requires OneLine(h.name) && !StartsBlank(h.name)
    ensures OneLine(PrintHost(h)) && !StartsBlank(PrintHost(h))
  {
    if h.port.Some? {
      var digits := Digits(h.port.value, 10);
      assert forall i :: 0 <= i < |digits| ==> IsDigit(digits[i], 10);
      OneLineConcat(h.name + ":", digits);
      OneLineConcat(h.name, ":");
    }
  }

  lemma RangesAreToken(r: AcceptableRanges)
    requires GoodRanges(r)
    ensures OneLine(PrintRanges(r)) && !StartsBlank(PrintRanges(r))
  {
    NamesAreLower();
    TokenIsOneLine("none");
    match r {
      case NoAcceptableRanges =>
      case RangeUnits(units) =>
        if units != [] {
          UnitIsWord(units[0]);
          TokenIsOneLine(PrintUnit(units[0]));
          OneUnitText(units[0]);
          assert units == [units[0]];
        }
    }
  }

  lemma PrintedValueFits(kind: Kind, value: HeaderValue)
    requires GoodValue(kind, value)
    ensures OneLine(PrintValue(value)) && !StartsBlank(PrintValue(value))
  {
    match (kind, value) {
      case (TextKind, Text(s)) =>
      case (NumberKind, Number(n)) =>
        assert forall i :: 0 <= i < |Digits(n, 10)| ==> IsDigit(Digits(n, 10)[i], 10);
      case (ListKind(item), List(items)) =>
        ListIsOneLine(items);
        PrintListStarts(items);
      case (TagKind, Tag(tag)) =>
        MaybeQuotedIsOneLine(tag.opaqueTag);
        OneLineConcat(if tag.weak then "W/" else "", QuotedString(tag.opaqueTag));
      case (MediaKind, Media(m)) =>
        TokenIsOneLine(m.mainType);
        TokenIsOneLine(m.subtype);
        ParametersAreOneLine(m.parameters);
        OneLineConcat(m.mainType + "/" + m.subtype, PrintParameters(m.parameters));
        OneLineConcat(m.mainType + "/", m.subtype);
        OneLineConcat(m.mainType, "/");
      case (HostKind, HostValue(h)) => HostIsOneLine(h);
      case (RangesKind, Ranges(r)) => RangesAreToken(r);
      case (ForeignKind(_), Foreign(s)) =>
    }
  }

  lemma PrintedHeaderFits(table: seq<Row>, h: Header)
    requires GoodTable(table) && GoodHeader(table, h)
    ensures OneLine(HeaderText(h)) && !StartsBlank(HeaderText(h)) && IsToken(HeaderName(table, h))
    ensures ValueFor(table, Normalise(HeaderName(table, h)), Value(HeaderText(h), true)).0 == Got(h)
  {
    match h {
      case Known(i, value) =>
        PrintedValueFits(table[i].kind, value);
        ValueReadsBack(table[i].kind, value);
      case Extension(name, s) => CollectAll(Value(s, true));
    }
  }

  /** A printed header reads back as itself and leaves exactly what was printed after it. */
  lemma HeaderReadsBack(table: seq<Row>, h: Header, next: string)
    requires GoodTable(table) && GoodHeader(table, h) && !StartsBlank(next)
    ensures ReadHeader(table, PrintHeader(table, h) + next) == (Line(h), next)
  {
    var name, text := HeaderName(table, h), HeaderText(h);
    PrintedHeaderFits(table, h);
    LineLayout(name, text, next);
    ScanToken(name, NameStart, " " + text + CRLF + next, "");
    assert "" + name == name;
    UnfoldPrinted(text, next);
  }

  lemma LineLayout(name: string, text: string, next: string)
    ensures name + ": " + text + CRLF + next == name + ":" + (" " + text + CRLF + next)
  {}

  // ---------------------------------------------------------------- exactly which texts read back

  lemma {:induction false} UnfoldIsOneLine(raw: string, atStart: bool, gotLF: bool)
    ensures OneLine(Unfold(raw, atStart, gotLF))
    decreases |raw|
  {
    if raw == "" || (gotLF && !IsBlank(raw[0])) {
    } else {
      var b := raw[0];
      UnfoldIsOneLine(raw[1..], atStart && IsBlankOrBreak(b, gotLF), !gotLF && b == LF);
    }
  }

  predicate IsBlankOrBreak(b: char, gotLF: bool) { IsBlank(b) || (!gotLF && (b == CR || b == LF)) }

  /** On one line the leading blanks go. */
  lemma {:induction false} UnfoldStartsContent(text: string, next: string)
    requires OneLine(text) && !StartsBlank(next)
    ensures !StartsBlank(Unfold(text + CRLF + next, true, false))
    decreases |text|
  {
    if StartsBlank(text) {
      assert (text + CRLF + next)[1..] == text[1..] + CRLF + next;
      assert OneLine(text[1..]);
      UnfoldStartsContent(text[1..], next);
    } else {
      UnfoldText(text, next, true);
    }
  }

  lemma NeverStartsBlank(text: string, next: string)
    requires OneLine(text) && !StartsBlank(next)
    ensures !StartsBlank(Unfold(" " + text + CRLF + next, true, false))
  {
    assert (" " + text + CRLF + next)[1..] == text + CRLF + next;
    UnfoldStartsContent(text, next);
  }

  /** Octets after the colon read back as they are exactly when there is no CR or LF among them and
      no blank at their start. */
  lemma OctetsReadBackIff(text: string, next: string)
    requires !StartsBlank(next)
    ensures Unfold(" " + text + CRLF + next, true, false) == text <==> OneLine(text) && !StartsBlank(text)
  {
    UnfoldIsOneLine(" " + text + CRLF + next, true, false);
    if OneLine(text) {
      NeverStartsBlank(text, next);
      if !StartsBlank(text) { UnfoldPrinted(text, next); }
    }
  }

  // ---------------------------------------------------------------- collections

  /** The order of the keys of a tree map. */
  predicate Less(s: string, t: string) {
    t != "" && (s == "" || s[0] < t[0] || (s[0] == t[0] && Less(s[1..], t[1..])))
  }

  lemma {:induction false} LessIsStrict(s: string, t: string)
    ensures !(Less(s, t) && Less(t, s)) && !Less(s, s)
  {
    if s != "" {
      LessIsStrict(s[1..], if t == "" then "" else t[1..]);
    }
  }

  lemma {:induction false} LessIsTransitive(r: string, s: string, t: string)
    requires Less(r, s) && Less(s, t)
    ensures Less(r, t)
  {
    if r != "" && r[0] == s[0] == t[0] { LessIsTransitive(r[1..], s[1..], t[1..]); }
  }

  lemma {:induction false} LessIsTotal(s: string, t: string)
    ensures Less(s, t) || Less(t, s) || s == t
  {
    if s != "" && t != "" && s[0] == t[0] {
      LessIsTotal(s[1..], t[1..]);
      assert s == [s[0]] + s[1..] && t == [t[0]] + t[1..];
    }
  }

  /** Typed headers by row, and the extension headers of the tree map in key order. */
  datatype Collection = Collection(known: seq<Option<HeaderValue>>, extensions: seq<(string, string)>)

  function EmptyCollection(size: nat): Collection { Collection(seq(size, _ => None), []) }

  function InsertSorted(entries: seq<(string, string)>, key: string, text: string): seq<(string, string)> {
    if entries == [] || Less(key, entries[0].0) then [(key, text)] + entries
    else if key == entries[0].0 then [(key, text)] + entries[1..]
    else [entries[0]] + InsertSorted(entries[1..], key, text)
  }

  function InsertHeader(coll: Collection, h: Header): (r: Collection)
    ensures |r.known| == |coll.known|
  {
    match h
    case Known(i, value) => if i < |coll.known| then coll.(known := coll.known[i := Some(value)]) else coll
    case Extension(name, s) => coll.(extensions := InsertSorted(coll.extensions, name, s))
  }

  /** What the iterator of a collection yields from row `i` on. */
  function KnownFrom(known: seq<Option<HeaderValue>>, i: nat): seq<Header>
    requires i <= |known|
    decreases |known| - i
  {
    if i == |known| then [] else SlotHeaders(known[i], i) + KnownFrom(known, i + 1)
  }

  /** The typed header of a row, if there is one. */
  function SlotHeaders(slot: Option<HeaderValue>, i: nat): seq<Header> {
    match slot case Some(value) => [Known(i, value)] case None => []
  }

  lemma KnownStep(known: seq<Option<HeaderValue>>, i: nat)
    requires i < |known|
    ensures KnownFrom(known, i) ==
              if known[i].Some? then [Known(i, known[i].value)] + KnownFrom(known, i + 1) else KnownFrom(known, i + 1)
  {
    assert [] + KnownFrom(known, i + 1) == KnownFrom(known, i + 1);
  }

  function ExtensionHeaders(entries: seq<(string, string)>): seq<Header> {
    if entries == [] then [] else [Extension(entries[0].0, entries[0].1)] + ExtensionHeaders(entries[1..])
  }

  function HeadersOf(coll: Collection): seq<Header> { KnownFrom(coll.known, 0) + ExtensionHeaders(coll.extensions) }

  function PrintHeaders(table: seq<Row>, hs: seq<Header>): string {
    if hs == [] then "" else PrintHeader(table, hs[0]) + PrintHeaders(table, hs[1..])
  }

  /** `write_all`. */
  function PrintAll(table: seq<Row>, coll: Collection): string { PrintHeaders(table, HeadersOf(coll)) + CRLF }

  datatype HeadersEnd = AllRead | Eof | BadSyntax | Stalled

  /** The header loop of `Request::load`: malformed values are passed over. */
  function ReadHeaders(table: seq<Row>, input: string, coll: Collection): (HeadersEnd, Collection, string)
    decreases |input|
  {
    ReadHeaderStops(table, input);
    var (line, rest) := ReadHeader(table, input);
    match line
    case Line(h) => ReadHeaders(table, rest, InsertHeader(coll, h))
    case MalformedHeaderValue => ReadHeaders(table, rest, coll)
    case EndOfHeaders => (AllRead, coll, rest)
    case EndOfFile => (Eof, coll, rest)
    case MalformedHeaderSyntax => (BadSyntax, coll, rest)
    case NeverReturns => (Stalled, coll, rest)
  }

  function InsertAll(coll: Collection, hs: seq<Header>): Collection
    decreases |hs|
  {
    if hs == [] then coll else InsertAll(InsertHeader(coll, hs[0]), hs[1..])
  }

  lemma EndReadsBack(table: seq<Row>, body: string)
    ensures ReadHeader(table, CRLF + body) == (EndOfHeaders, body)
  {
    var input := CRLF + body;
    assert input[0] == CR && input[1..] == [LF] + body && ([LF] + body)[1..] == body;
    assert ScanName(GotCR, [LF] + body, "") == ScanEndOfHeaders(body);
  }

  lemma {:induction false} HeadersReadBack(table: seq<Row>, hs: seq<Header>, body: string, coll: Collection)
    requires GoodTable(table)
    requires forall k :: 0 <= k < |hs| ==> GoodHeader(table, hs[k])
    ensures ReadHeaders(table, PrintHeaders(table, hs) + CRLF + body, coll) == (AllRead, InsertAll(coll, hs), body)
    decreases |hs|
  {
    if hs == [] {
      assert PrintHeaders(table, hs) + CRLF + body == CRLF + body;
      EndReadsBack(table, body);
    } else {
      var next := PrintHeaders(table, hs[1..]) + CRLF + body;
      FirstHeader(PrintHeader(table, hs[0]), PrintHeaders(table, hs[1..]), body);
      HeadersStart(table, hs[1..], body);
      HeaderReadsBack(table, hs[0], next);
      HeadersReadBack(table, hs[1..], body, InsertHeader(coll, hs[0]));
    }
  }

  lemma FirstHeader(first: string, rest: string, body: string)
    ensures first + rest + CRLF + body == first + (rest + CRLF + body)
  {}

  lemma HeadersStart(table: seq<Row>, hs: seq<Header>, body: string)
    requires GoodTable(table) && forall k :: 0 <= k < |hs| ==> GoodHeader(table, hs[k])
    ensures !StartsBlank(PrintHeaders(table, hs) + CRLF + body)
  {}

  ghost predicate Sorted(entries: seq<(string, string)>) {
    forall i, j :: 0 <= i < j < |entries| ==> Less(entries[i].0, entries[j].0)
  }

  function MapOf(entries: seq<(string, string)>): map<string, string> {
    if entries == [] then map[] else MapOf(entries[1..])[entries[0].0 := entries[0].1]
  }

  ghost predicate Above(low: string, entries: seq<(string, string)>) {
    forall i :: 0 <= i < |entries| ==> Less(low, entries[i].0)
  }

  lemma {:induction false} InsertAbove(low: string, entries: seq<(string, string)>, key: string, text: string)
    requires Above(low, entries) && Less(low, key)
    ensures Above(low, InsertSorted(entries, key, text))
  {
    if entries != [] && !Less(key, entries[0].0) && key != entries[0].0 { InsertAbove(low, entries[1..], key, text); }
  }

  lemma SortedStep(entry: (string, string), entries: seq<(string, string)>)
    ensures Sorted([entry] + entries) <==> Above(entry.0, entries) && Sorted(entries)
  {
    var all := [entry] + entries;
    assert forall i :: 0 <= i < |entries| ==> all[i + 1] == entries[i];
    if Above(entry.0, entries) && Sorted(entries) {
      forall i, j | 0 <= i < j < |all| ensures Less(all[i].0, all[j].0) {
        if i > 0 { assert Less(entries[i - 1].0, entries[j - 1].0); }
      }
    }
    if Sorted(all) {
      forall i, j | 0 <= i < j < |entries| ensures Less(entries[i].0, entries[j].0) {
        assert Less(all[i + 1].0, all[j + 1].0);
      }
      forall i | 0 <= i < |entries| ensures Less(entry.0, entries[i].0) { assert Less(all[0].0, all[i + 1].0); }
    }
  }

  /** The tree map keeps its keys in order, and an insertion sets one key and no other. */
  lemma {:induction false} InsertIsUpdate(entries: seq<(string, string)>, key: string, text: string)
    requires Sorted(entries)
    ensures Sorted(InsertSorted(entries, key, text))
    ensures MapOf(InsertSorted(entries, key, text)) == MapOf(entries)[key := text]
  {
    if entries == [] {
    } else {
      var first, rest := entries[0], entries[1..];
      assert entries == [first] + rest;
      SortedStep(first, rest);
      if Less(key, first.0) {
        forall i | 0 <= i < |rest| ensures Less(key, rest[i].0) { LessIsTransitive(key, first.0, rest[i].0); }
        SortedStep((key, text), entries);
      } else if key == first.0 {
        SortedStep((key, text), rest);
      } else {
        LessIsTotal(first.0, key);
        InsertIsUpdate(rest, key, text);
        InsertAbove(first.0, rest, key, text);
        SortedStep(first, InsertSorted(rest, key, text));
      }
    }
  }

  /** Whatever is read, the headers collected are those of a tree map. */
  lemma {:induction false} ReadHeadersSorted(table: seq<Row>, input: string, coll: Collection)
    requires Sorted(coll.extensions)
    ensures Sorted(ReadHeaders(table, input, coll).1.extensions)
    decreases |input|
  {
    ReadHeaderStops(table, input);
    var (line, rest) := ReadHeader(table, input);
    match line
    case Line(h) =>
      if h.Extension? { InsertIsUpdate(coll.extensions, h.name, h.text); }
      ReadHeadersSorted(table, rest, InsertHeader(coll, h));
    case MalformedHeaderValue => ReadHeadersSorted(table, rest, coll);
    case _ =>
  }

  ghost predicate GoodCollection(table: seq<Row>, coll: Collection) {
    && |coll.known| == |table| && Sorted(coll.extensions)
    && (forall i :: 0 <= i < |table| && coll.known[i].Some? ==> GoodValue(table[i].kind, coll.known[i].value))
    && forall i :: 0 <= i < |coll.extensions| ==>
         GoodHeader(table, Extension(coll.extensions[i].0, coll.extensions[i].1))
  }

  lemma {:induction false} InsertAtEnd(entries: seq<(string, string)>, key: string, text: string)
    requires forall i :: 0 <= i < |entries| ==> Less(entries[i].0, key)
    ensures InsertSorted(entries, key, text) == entries + [(key, text)]
  {
    if entries == [] {
    } else {
      LessIsStrict(entries[0].0, key);
      InsertAtEnd(entries[1..], key, text);
      assert entries == [entries[0]] + entries[1..];
    }
  }

  lemma {:induction false} InsertKnownAll(coll: Collection, known: seq<Option<HeaderValue>>, i: nat)
    requires i <= |known| == |coll.known|
    requires coll.known[..i] == known[..i] && forall k :: i <= k < |known| ==> coll.known[k] == None
    ensures InsertAll(coll, KnownFrom(known, i)) == coll.(known := known)
    decreases |known| - i
  {
    if i == |known| {
      assert coll.known == known;
    } else if known[i].None? {
      assert [] + KnownFrom(known, i + 1) == KnownFrom(known, i + 1);
      assert coll.known[..i + 1] == coll.known[..i] + [None] == known[..i + 1];
      InsertKnownAll(coll, known, i + 1);
    } else {
      var next := coll.(known := coll.known[i := known[i]]);
      assert next.known[..i + 1] == known[..i] + [known[i]] == known[..i + 1];
      InsertKnownAll(next, known, i + 1);
      assert KnownFrom(known, i)[1..] == KnownFrom(known, i + 1);
    }
  }

  lemma {:induction false} InsertExtensionsAll(coll: Collection, entries: seq<(string, string)>)
    requires Sorted(coll.extensions + entries)
    ensures InsertAll(coll, ExtensionHeaders(entries)) == coll.(extensions := coll.extensions + entries)
    decreases |entries|
  {
    var all := coll.extensions + entries;
    if entries == [] {
      assert all == coll.extensions;
    } else {
      var n := |coll.extensions|;
      assert forall i :: 0 <= i < n ==> all[i] == coll.extensions[i];
      assert all[n] == entries[0];
      InsertAtEnd(coll.extensions, entries[0].0, entries[0].1);
      var next := coll.(extensions := coll.extensions + [entries[0]]);
      MoveFirst(coll.extensions, entries);
      InsertExtensionsAll(next, entries[1..]);
      assert ExtensionHeaders(entries)[1..] == ExtensionHeaders(entries[1..]);
    }
  }

  lemma {:induction false} InsertAllAppend(coll: Collection, a: seq<Header>, b: seq<Header>)
    ensures InsertAll(coll, a + b) == InsertAll(InsertAll(coll, a), b)
    decreases |a|
  {
    if a == [] {
      assert a + b == b;
    } else {
      assert (a + b)[1..] == a[1..] + b;
      InsertAllAppend(InsertHeader(coll, a[0]), a[1..], b);
    }
  }

  /** Inserting what a collection yields into an empty one rebuilds the collection. */
  lemma RebuildCollection(coll: Collection)
    requires Sorted(coll.extensions)
    ensures InsertAll(EmptyCollection(|coll.known|), HeadersOf(coll)) == coll
  {
    var empty := EmptyCollection(|coll.known|);
    InsertAllAppend(empty, KnownFrom(coll.known, 0), ExtensionHeaders(coll.extensions));
    InsertKnownAll(empty, coll.known, 0);
    assert [] + coll.extensions == coll.extensions;
    InsertExtensionsAll(empty.(known := coll.known), coll.extensions);
  }

  /** Printing a collection and reading headers until their end rebuilds the collection and leaves
      exactly the body. */
  lemma CollectionRoundTrip(table: seq<Row>, coll: Collection, body: string)
    requires GoodTable(table) && GoodCollection(table, coll)
    ensures ReadHeaders(table, PrintAll(table, coll) + body, EmptyCollection(|table|)) == (AllRead, coll, body)
  {
    var hs := HeadersOf(coll);
    CollectionHeadersGood(table, coll);
    RebuildCollection(coll);
    HeadersReadBack(table, hs, body, EmptyCollection(|table|));
  }

  lemma {:induction false} KnownHeadersGood(table: seq<Row>, coll: Collection, i: nat)
    requires GoodCollection(table, coll) && i <= |coll.known|
    ensures forall k :: 0 <= k < |KnownFrom(coll.known, i)| ==> GoodHeader(table, KnownFrom(coll.known, i)[k])
    decreases |coll.known| - i
  {
    if i < |coll.known| { KnownHeadersGood(table, coll, i + 1); }
  }

  lemma {:induction false} ExtensionHeadersGood(table: seq<Row>, entries: seq<(string, string)>)
    requires forall i :: 0 <= i < |entries| ==> GoodHeader(table, Extension(entries[i].0, entries[i].1))
    ensures forall k :: 0 <= k < |ExtensionHeaders(entries)| ==> GoodHeader(table, ExtensionHeaders(entries)[k])
  {
    if entries != [] { ExtensionHeadersGood(table, entries[1..]); }
  }

  lemma CollectionHeadersGood(table: seq<Row>, coll: Collection)
    requires GoodCollection(table, coll)
    ensures forall k :: 0 <= k < |HeadersOf(coll)| ==> GoodHeader(table, HeadersOf(coll)[k])
  {
    KnownHeadersGood(table, coll, 0);
    ExtensionHeadersGood(table, coll.extensions);
  }
}
