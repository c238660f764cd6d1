/** Header lines one after the other: which octets make a name, what the header loop keeps of any
    input, which of repeated headers counts, and in which order a collection is printed.
 */
module HeaderLoops {
  import opened Octets
  import opened Numbers
  import opened HeaderIterators
  import opened Serialization
  import opened HeaderParsing
  import opened HeaderValues
  import opened Headers

  // ---------------------------------------------------------------- the name of a header

  function LeadingTokens(input: string): (n: nat)
    ensures n <= |input| && (n < |input| ==> !IsTokenItem(input[n]))
    ensures forall i :: 0 <= i < n ==> IsTokenItem(input[i])
  {
    if input == "" || !IsTokenItem(input[0]) then 0 else 1 + LeadingTokens(input[1..])
  }

  function LeadingSpaces(input: string): (n: nat)
    ensures n <= |input| && (n < |input| ==> input[n] != SP)
    ensures forall i :: 0 <= i < n ==> input[i] == SP
  {
    if input == "" || input[0] != SP then 0 else 1 + LeadingSpaces(input[1..])
  }

  /** After the name, or after a CR in its place: any spaces, then the colon. */
  function AfterName(name: string, input: string): NameScan {
    var m := LeadingSpaces(input);
    if m == |input| then ScanEndOfFile
    else if input[m] == ':' then NameRead(name, input[m + 1..])
    else ScanBadSyntax(input[m + 1..])
  }

  lemma {:induction false} SpacesAfterName(state: NameState, name: string, input: string)
    requires state.NameFinished? || (input != "" && !IsTokenItem(input[0]) && input[0] != CR && input[0] != LF)
    ensures ScanName(state, input, name) == AfterName(name, input)
    decreases |input|
  {
    if input != "" && input[0] == SP { SpacesAfterName(NameFinished, name, input[1..]); }
  }

  lemma {:induction false} TokensAreName(input: string, name: string)
    ensures
      var n := LeadingTokens(input);
      ScanName(ReadingName, input, name) == AfterName(name + input[..n], input[n..])
    decreases |input|
  {
    var n := LeadingTokens(input);
    if n == 0 {
      assert name + input[..0] == name && input[0..] == input;
      if input != "" && input[0] == SP { SpacesAfterName(NameFinished, name, input[1..]); }
    } else {
      TokensAreName(input[1..], name + [input[0]]);
      assert name + [input[0]] + input[1..][..n - 1] == name + input[..n] && input[1..][n - 1..] == input[n..];
    }
  }

  /** What a header line starts with: an empty line, by CRLF or LF alone, ends the headers; otherwise a
      name of token characters, which may be empty and may have a CR in its place, any spaces and a
      colon. */
  lemma NameIs(input: string)
    ensures ScanName(NameStart, input, "") ==
              if input == "" then ScanEndOfFile
              else if input[0] == LF then ScanEndOfHeaders(input[1..])
              else if input[0] == CR then
                if |input| > 1 && input[1] == LF then ScanEndOfHeaders(input[2..]) else AfterName("", input[1..])
              else
                var n := LeadingTokens(input);
                AfterName(input[..n], input[n..])
  {
    if input != "" && input[0] == CR {
      CarriageReturn(input);
    } else if input != "" && input[0] != LF {
      NameOrSpace(input);
    }
  }

  lemma CarriageReturn(input: string)
    requires input != "" && input[0] == CR
    ensures ScanName(NameStart, input, "") ==
              if |input| > 1 && input[1] == LF then ScanEndOfHeaders(input[2..]) else AfterName("", input[1..])
  {
    var rest := input[1..];
    assert ScanName(NameStart, input, "") == ScanName(GotCR, rest, "");
    if rest != "" && rest[0] == SP { SpacesAfterName(NameFinished, "", rest[1..]); }
    if rest != "" && rest[0] == LF { assert rest[1..] == input[2..]; }
  }

  lemma NameOrSpace(input: string)
    requires input != "" && input[0] != CR && input[0] != LF
    ensures
      var n := LeadingTokens(input);
      ScanName(NameStart, input, "") == AfterName(input[..n], input[n..])
  {
    var n := LeadingTokens(input);
    if n > 0 {
      TokensAreName(input, "");
      assert "" + input[..n] == input[..n];
    } else {
      SpacesAfterName(NameStart, "", input);
      assert input[..0] == "" && input[0..] == input;
    }
  }

  // ---------------------------------------------------------------- the header loop

  predicate GoesOn(line: HeaderLine) { line.Line? || line.MalformedHeaderValue? }

  /** The input cut into header lines: each is read where the one before it ends, and the last one is
      neither a header nor a malformed value. */
  ghost predicate Cut(table: seq<Row>, input: string, lines: seq<HeaderLine>, rests: seq<string>) {
    && |rests| == |lines| + 1 && lines != [] && rests[0] == input
    && (forall i :: 0 <= i < |lines| ==> ReadHeader(table, rests[i]) == (lines[i], rests[i + 1]))
    && forall i :: 0 <= i < |lines| ==> (GoesOn(lines[i]) <==> i < |lines| - 1)
  }

  /** The headers among the lines. */
  function HeadersAmong(lines: seq<HeaderLine>): seq<Header> {
    if lines == [] then [] else HeaderIn(lines[0]) + HeadersAmong(lines[1..])
  }

  function InsertLine(coll: Collection, line: HeaderLine): Collection {
    match line case Line(h) => InsertHeader(coll, h) case _ => coll
  }

  function HeaderIn(line: HeaderLine): seq<Header> { match line case Line(h) => [h] case _ => [] }

  function EndOf(line: HeaderLine): HeadersEnd
    requires !GoesOn(line)
  {
    match line
    case EndOfHeaders => AllRead
    case EndOfFile => Eof
    case MalformedHeaderSyntax => BadSyntax
    case NeverReturns => Stalled
  }

  lemma CutTail(table: seq<Row>, input: string, lines: seq<HeaderLine>, rests: seq<string>)
    requires Cut(table, input, lines, rests) && |lines| > 1
    ensures Cut(table, rests[1], lines[1..], rests[1..])
  {
    var ls, rs := lines[1..], rests[1..];
    forall i | 0 <= i < |ls|
      ensures ReadHeader(table, rs[i]) == (ls[i], rs[i + 1]) && (GoesOn(ls[i]) <==> i < |ls| - 1)
    {
      assert ReadHeader(table, rests[i + 1]) == (lines[i + 1], rests[i + 2]);
    }
  }

  /** Whatever the input, the loop inserts the headers in order, passes over malformed values wherever
      they stand, and ends as the first other line says. */
  lemma {:induction false} LoopKeepsHeaders(table: seq<Row>, input: string, lines: seq<HeaderLine>,
                                            rests: seq<string>, coll: Collection)
    requires Cut(table, input, lines, rests)
    ensures ReadHeaders(table, input, coll) ==
              (EndOf(lines[|lines| - 1]), InsertAll(coll, HeadersAmong(lines)), rests[|lines|])
    decreases |lines|
  {
    var line := lines[0];
    assert ReadHeader(table, rests[0]) == (line, rests[1]);
    ReadHeaderStops(table, input);
    if |lines| > 1 {
      CutTail(table, input, lines, rests);
      var next := InsertLine(coll, line);
      LoopKeepsHeaders(table, rests[1], lines[1..], rests[1..], next);
      FirstInserted(coll, line, HeadersAmong(lines[1..]));
    } else {
      assert lines[1..] == [] && [] + HeadersAmong([]) == [];
    }
  }

  lemma FirstInserted(coll: Collection, line: HeaderLine, more: seq<Header>)
    requires GoesOn(line)
    ensures
      var first := HeaderIn(line);
      var next := InsertLine(coll, line);
      InsertAll(coll, first + more) == InsertAll(next, more)
  {
    if line.Line? { assert ([line.header] + more)[1..] == more; } else { assert [] + more == more; }
  }

  /** Every input can be cut. */
  lemma {:induction false} EveryInputIsCut(table: seq<Row>, input: string)
    returns (lines: seq<HeaderLine>, rests: seq<string>)
    ensures Cut(table, input, lines, rests)
    decreases |input|
  {
    var (line, rest) := ReadHeader(table, input);
    ReadHeaderStops(table, input);
    if GoesOn(line) {
      var ls, rs := EveryInputIsCut(table, rest);
      lines, rests := [line] + ls, [input] + rs;
      CutGrows(table, input, line, rest, ls, rs);
    } else {
      lines, rests := [line], [input, rest];
    }
  }

  lemma CutGrows(table: seq<Row>, input: string, line: HeaderLine, rest: string, ls: seq<HeaderLine>, rs: seq<string>)
    requires ReadHeader(table, input) == (line, rest) && GoesOn(line) && Cut(table, rest, ls, rs)
    ensures Cut(table, input, [line] + ls, [input] + rs)
  {
    var lines, rests := [line] + ls, [input] + rs;
    forall i | 0 <= i < |lines|
      ensures ReadHeader(table, rests[i]) == (lines[i], rests[i + 1]) && (GoesOn(lines[i]) <==> i < |lines| - 1)
    {
      if i > 0 { assert ReadHeader(table, rs[i - 1]) == (ls[i - 1], rs[i]); }
    }
  }

  // ---------------------------------------------------------------- lines that can stand anywhere

  /** Text that reads as the line wherever it stands. */
  ghost predicate ReadsAs(table: seq<Row>, text: string, line: HeaderLine) {
    && text != "" && !IsBlank(text[0])
    && forall next :: !StartsBlank(next) ==> ReadHeader(table, text + next) == (line, next)
  }

  function Concat(texts: seq<string>): string { if texts == [] then "" else texts[0] + Concat(texts[1..]) }

  ghost predicate AllReadAs(table: seq<Row>, texts: seq<string>, lines: seq<HeaderLine>) {
    |texts| == |lines| && forall i :: 0 <= i < |lines| ==> ReadsAs(table, texts[i], lines[i]) && GoesOn(lines[i])
  }

  /** Lines one after the other, then something that is no header: the loop keeps the headers among the
      lines and goes on with what follows. */
  lemma {:induction false} LinesThen(table: seq<Row>, texts: seq<string>, lines: seq<HeaderLine>, end: string,
                                     coll: Collection)
    requires AllReadAs(table, texts, lines) && !StartsBlank(end)
    ensures ReadHeaders(table, Concat(texts) + end, coll) ==
              ReadHeaders(table, end, InsertAll(coll, HeadersAmong(lines)))
    decreases |texts|
  {
    if texts == [] {
      assert Concat(texts) + end == end;
    } else {
      var rest := Concat(texts[1..]) + end;
      Associative(texts[0], Concat(texts[1..]), end);
      assert ReadsAs(table, texts[0], lines[0]);
      StartsLine(table, texts[1..], lines[1..], end);
      var line := lines[0];
      var next := InsertLine(coll, line);
      ReadHeaderStops(table, texts[0] + rest);
      LinesThen(table, texts[1..], lines[1..], end, next);
      FirstInserted(coll, line, HeadersAmong(lines[1..]));
    }
  }

  lemma StartsLine(table: seq<Row>, texts: seq<string>, lines: seq<HeaderLine>, end: string)
    requires AllReadAs(table, texts, lines) && !StartsBlank(end)
    ensures !StartsBlank(Concat(texts) + end)
  {
    if texts == [] {
      assert Concat(texts) + end == end;
    } else {
      assert ReadsAs(table, texts[0], lines[0]);
      assert (Concat(texts) + end)[0] == texts[0][0];
    }
  }

  lemma HeaderIsLine(table: seq<Row>, h: Header)
    requires GoodTable(table) && GoodHeader(table, h)
    ensures ReadsAs(table, PrintHeader(table, h), Line(h))
  {
    var text := PrintHeader(table, h);
    var name := HeaderName(table, h);
    assert IsToken(name);
    assert text[0] == if name == "" then ':' else name[0];
    forall next | !StartsBlank(next) ensures ReadHeader(table, text + next) == (Line(h), next) {
      HeaderReadsBack(table, h, next);
    }
  }

  /** The case of a header's name does not matter. */
  lemma CaseOfNameIsIgnored(table: seq<Row>, a: string, b: string, raw: string)
    requires IsToken(a) && IsToken(b) && SameIgnoringCase(a, b)
    ensures ReadHeader(table, a + ":" + raw) == ReadHeader(table, b + ":" + raw)
  {
    NamedIsRead(table, a, raw);
    NamedIsRead(table, b, raw);
    NormaliseIsCanonical(a, b);
  }

  lemma NamedIsRead(table: seq<Row>, name: string, raw: string)
    requires IsToken(name)
    ensures ReadHeader(table, name + ":" + raw) == ReadNamed(table, Normalise(name), raw)
  {
    ScanToken(name, NameStart, raw, "");
    assert "" + name == name;
  }

  /** A foreign value is refused exactly when the foreign code refuses the text. */
  lemma ForeignRefusedIff(accepts: string -> bool, v: Value)
    ensures ReadValue(ForeignKind(accepts), v).0 == if accepts(v.text) then Got(Foreign(v.text)) else Bad
  {
    CollectAll(v);
  }

  /** A header whose value is to be a number of 64 bits and is none. */
  lemma NotANumber(table: seq<Row>, i: nat, text: string)
    requires GoodTable(table) && i < |table| && table[i].kind == NumberKind
    requires OneLine(text) && !StartsBlank(text)
    requires text == "" || !AllDigits(text, 10) || NumberValue(text, 10) >= 0x1_0000_0000_0000_0000
    ensures ReadsAs(table, table[i].outputName + ": " + text + CRLF, MalformedHeaderValue)
  {
    var name := table[i].outputName;
    var line := name + ": " + text + CRLF;
    assert line[0] == if name == "" then ':' else name[0];
    forall next | !StartsBlank(next) ensures ReadHeader(table, line + next) == (MalformedHeaderValue, next) {
      LineLayout(name, text, next);
      NamedIsRead(table, name, " " + text + CRLF + next);
      NumberIsRefused(table, i, text, next);
    }
  }

  lemma NumberIsRefused(table: seq<Row>, i: nat, text: string, next: string)
    requires GoodTable(table) && i < |table| && table[i].kind == NumberKind
    requires OneLine(text) && !StartsBlank(text) && !StartsBlank(next)
    requires text == "" || !AllDigits(text, 10) || NumberValue(text, 10) >= 0x1_0000_0000_0000_0000
    ensures ReadNamed(table, Normalise(table[i].outputName), " " + text + CRLF + next) == (MalformedHeaderValue, next)
  {
    UnfoldPrinted(text, next);
    CollectAll(Value(text, true));
  }

  lemma {:induction false} HeadersAmongConcat(a: seq<HeaderLine>, b: seq<HeaderLine>)
    ensures HeadersAmong(a + b) == HeadersAmong(a) + HeadersAmong(b)
    decreases |a|
  {
    if a == [] {
      assert a + b == b;
    } else {
      assert (a + b)[1..] == a[1..] + b;
      HeadersAmongConcat(a[1..], b);
      Associative(HeaderIn(a[0]), HeadersAmong(a[1..]), HeadersAmong(b));
    }
  }

  /** A malformed value among other lines changes nothing but the octets. */
  lemma MalformedIsPassedOver(table: seq<Row>, before: seq<string>, lines: seq<HeaderLine>, bad: string,
                              after: seq<string>, more: seq<HeaderLine>, end: string, coll: Collection)
    requires AllReadAs(table, before, lines) && AllReadAs(table, after, more) && !StartsBlank(end)
    requires ReadsAs(table, bad, MalformedHeaderValue)
    ensures ReadHeaders(table, Concat(before + [bad] + after) + end, coll) ==
              ReadHeaders(table, Concat(before + after) + end, coll)
  {
    LinesThen(table, before + [bad] + after, lines + [MalformedHeaderValue] + more, end, coll);
    LinesThen(table, before + after, lines + more, end, coll);
    HeadersAmongConcat(lines + [MalformedHeaderValue], more);
    HeadersAmongConcat(lines, [MalformedHeaderValue]);
    HeadersAmongConcat(lines, more);
    assert [MalformedHeaderValue][1..] == [] && HeadersAmong([MalformedHeaderValue]) == [];
    assert HeadersAmong(lines) + [] == HeadersAmong(lines);
  }

  /** A Content-Length that is no number, between two good headers. */
  lemma BadLengthIsPassedOver(table: seq<Row>, i: nat, g: Header, h: Header, body: string, coll: Collection)
    requires GoodTable(table) && GoodHeader(table, g) && GoodHeader(table, h)
    requires i < |table| && table[i].kind == NumberKind
    ensures
      var bad := table[i].outputName + ": x" + CRLF;
      ReadHeaders(table, PrintHeader(table, g) + bad + PrintHeader(table, h) + CRLF + body, coll) ==
        (AllRead, InsertHeader(InsertHeader(coll, g), h), body)
  {
    var bad := table[i].outputName + ": x" + CRLF;
    HeaderIsLine(table, g);
    HeaderIsLine(table, h);
    assert !AllDigits("x", 10) by { assert !IsDigit("x"[0], 10); }
    assert table[i].outputName + ": " + "x" + CRLF == bad;
    NotANumber(table, i, "x");
    BetweenHeaders(table, PrintHeader(table, g), bad, PrintHeader(table, h), g, h, body, coll);
  }

  lemma BetweenHeaders(table: seq<Row>, a: string, bad: string, c: string, g: Header, h: Header, body: string,
                       coll: Collection)
    requires ReadsAs(table, a, Line(g)) && ReadsAs(table, bad, MalformedHeaderValue) && ReadsAs(table, c, Line(h))
    ensures ReadHeaders(table, a + bad + c + CRLF + body, coll) ==
              (AllRead, InsertHeader(InsertHeader(coll, g), h), body)
  {
    LinesThen(table, [a, bad, c], [Line(g), MalformedHeaderValue, Line(h)], CRLF + body, coll);
    ThreeTexts(a, bad, c, CRLF + body);
    ThreeLines(g, h);
    Associative(a + bad + c, CRLF, body);
    TwoInserted(coll, g, h);
    EndReadsBack(table, body);
  }

  lemma ThreeTexts(a: string, b: string, c: string, d: string)
    ensures Concat([a, b, c]) + d == a + b + c + d
  {
    assert [a, b, c][1..] == [b, c] && [b, c][1..] == [c] && [c][1..] == [];
    assert Concat([c]) == c + "" == c;
  }

  lemma ThreeLines(g: Header, h: Header)
    ensures HeadersAmong([Line(g), MalformedHeaderValue, Line(h)]) == [g, h]
  {
    var lines := [Line(g), MalformedHeaderValue, Line(h)];
    assert lines[1..] == [MalformedHeaderValue, Line(h)] && lines[1..][1..] == [Line(h)] && [Line(h)][1..] == [];
    assert HeadersAmong([Line(h)]) == [h] + [] == [h];
    assert HeadersAmong(lines[1..]) == [] + [h] == [h];
  }

  lemma TwoInserted(coll: Collection, g: Header, h: Header)
    ensures InsertAll(coll, [g, h]) == InsertHeader(InsertHeader(coll, g), h)
  {
    var c := InsertHeader(coll, g);
    assert [h][1..] == [] && InsertAll(c, [h]) == InsertHeader(c, h);
    assert [g, h][1..] == [h];
  }

  // ---------------------------------------------------------------- repeated headers

  /** No header of the list is for that row, or has that name. */
  predicate NoneFor(hs: seq<Header>, i: nat) {
    forall k :: 0 <= k < |hs| ==> !(hs[k].Known? && hs[k].index == i)
  }

  predicate NoneNamed(hs: seq<Header>, key: string) {
    forall k :: 0 <= k < |hs| ==> !(hs[k].Extension? && hs[k].name == key)
  }

  lemma {:induction false} OthersStay(coll: Collection, hs: seq<Header>, i: nat)
    requires i < |coll.known| && NoneFor(hs, i)
    ensures |InsertAll(coll, hs).known| == |coll.known| && InsertAll(coll, hs).known[i] == coll.known[i]
    decreases |hs|
  {
    if hs != [] { OthersStay(InsertHeader(coll, hs[0]), hs[1..], i); }
  }

  /** Of repeated typed headers the last one counts, and rows without a header stay as they were. */
  lemma LastTypedCounts(coll: Collection, before: seq<Header>, i: nat, value: HeaderValue, after: seq<Header>)
    requires i < |coll.known| && NoneFor(after, i)
    ensures
      var all := InsertAll(coll, before + [Known(i, value)] + after);
      |all.known| == |coll.known| && all.known[i] == Some(value)
  {
    var h := Known(i, value);
    var c := InsertAll(coll, before);
    SizeStays(coll, before);
    InsertAllAppend(coll, before + [h], after);
    InsertAllAppend(coll, before, [h]);
    assert [h][1..] == [] && InsertAll(c, [h]) == InsertHeader(c, h);
    OthersStay(InsertHeader(c, h), after, i);
  }

  lemma {:induction false} SizeStays(coll: Collection, hs: seq<Header>)
    ensures |InsertAll(coll, hs).known| == |coll.known|
    decreases |hs|
  {
    if hs != [] { SizeStays(InsertHeader(coll, hs[0]), hs[1..]); }
  }

  lemma {:induction false} OtherKeysStay(coll: Collection, hs: seq<Header>, key: string)
    requires Sorted(coll.extensions) && NoneNamed(hs, key)
    ensures
      var now, was := MapOf(InsertAll(coll, hs).extensions), MapOf(coll.extensions);
      (key in now <==> key in was) && (key in now ==> now[key] == was[key])
    ensures Sorted(InsertAll(coll, hs).extensions)
    decreases |hs|
  {
    if hs != [] {
      if hs[0].Extension? { InsertIsUpdate(coll.extensions, hs[0].name, hs[0].text); }
      OtherKeysStay(InsertHeader(coll, hs[0]), hs[1..], key);
    }
  }

  lemma {:induction false} SortedStays(coll: Collection, hs: seq<Header>)
    requires Sorted(coll.extensions)
    ensures Sorted(InsertAll(coll, hs).extensions)
    decreases |hs|
  {
    if hs != [] {
      if hs[0].Extension? { InsertIsUpdate(coll.extensions, hs[0].name, hs[0].text); }
      SortedStays(InsertHeader(coll, hs[0]), hs[1..]);
    }
  }

  /** Of extension headers with the same name the last one counts. */
  lemma LastNamedCounts(coll: Collection, before: seq<Header>, key: string, text: string, after: seq<Header>)
    requires Sorted(coll.extensions) && NoneNamed(after, key)
    ensures
      var all := MapOf(InsertAll(coll, before + [Extension(key, text)] + after).extensions);
      key in all && all[key] == text
  {
    var h := Extension(key, text);
    var c := InsertAll(coll, before);
    SortedStays(coll, before);
    InsertAllAppend(coll, before + [h], after);
    InsertAllAppend(coll, before, [h]);
    assert [h][1..] == [] && InsertAll(c, [h]) == InsertHeader(c, h);
    InsertIsUpdate(c.extensions, key, text);
    OtherKeysStay(InsertHeader(c, h), after, key);
  }

  /** Of repeated headers on the wire the last one is what is read. */
  lemma LastPrintedCounts(table: seq<Row>, before: seq<Header>, i: nat, value: HeaderValue, after: seq<Header>,
                          body: string)
    requires GoodTable(table) && i < |table| && NoneFor(after, i)
    requires
      var hs := before + [Known(i, value)] + after;
      forall k :: 0 <= k < |hs| ==> GoodHeader(table, hs[k])
    ensures
      var text := PrintHeaders(table, before + [Known(i, value)] + after) + CRLF + body;
      var r := ReadHeaders(table, text, EmptyCollection(|table|));
      r.0 == AllRead && r.2 == body && |r.1.known| == |table| && r.1.known[i] == Some(value)
  {
    HeadersReadBack(table, before + [Known(i, value)] + after, body, EmptyCollection(|table|));
    LastTypedCounts(EmptyCollection(|table|), before, i, value, after);
  }

  // ---------------------------------------------------------------- the order of headers

  /** Typed headers come before extensions, the former by row, the latter by key. */
  predicate Before(g: Header, h: Header) {
    match (g, h)
    case (Known(i, _), Known(j, _)) => i < j
    case (Known(_, _), Extension(_, _)) => true
    case (Extension(_, _), Known(_, _)) => false
    case (Extension(a, _), Extension(b, _)) => Less(a, b)
  }

  ghost predicate InOrder(hs: seq<Header>) { forall j, k :: 0 <= j < k < |hs| ==> Before(hs[j], hs[k]) }

  lemma OrderedConcat(a: seq<Header>, b: seq<Header>)
    requires InOrder(a) && InOrder(b)
    requires forall j, k :: 0 <= j < |a| && 0 <= k < |b| ==> Before(a[j], b[k])
    ensures InOrder(a + b)
  {
    var all := a + b;
    forall j, k | 0 <= j < k < |all| ensures Before(all[j], all[k]) {
      if k < |a| {
        assert Before(a[j], a[k]);
      } else if j >= |a| {
        assert Before(b[j - |a|], b[k - |a|]);
      } else {
        assert Before(a[j], b[k - |a|]);
      }
    }
  }

  /** Typed headers of rows from `i` on. */
  ghost predicate FromRow(hs: seq<Header>, i: nat) { forall k :: 0 <= k < |hs| ==> hs[k].Known? && hs[k].index >= i }

  lemma {:induction false} KnownInOrder(known: seq<Option<HeaderValue>>, i: nat)
    requires i <= |known|
    ensures InOrder(KnownFrom(known, i)) && FromRow(KnownFrom(known, i), i)
    decreases |known| - i
  {
    if i < |known| {
      KnownInOrder(known, i + 1);
      KnownStep(known, i);
      if known[i].Some? { OrderedConcat([Known(i, known[i].value)], KnownFrom(known, i + 1)); }
    }
  }

  lemma {:induction false} ExtensionsAt(entries: seq<(string, string)>)
    ensures
      var hs := ExtensionHeaders(entries);
      |hs| == |entries| && forall k :: 0 <= k < |hs| ==> hs[k] == Extension(entries[k].0, entries[k].1)
  {
    if entries != [] { ExtensionsAt(entries[1..]); }
  }

  lemma ExtensionsInOrder(entries: seq<(string, string)>)
    requires Sorted(entries)
    ensures InOrder(ExtensionHeaders(entries))
    ensures forall k :: 0 <= k < |ExtensionHeaders(entries)| ==> ExtensionHeaders(entries)[k].Extension?
  {
    ExtensionsAt(entries);
    var hs := ExtensionHeaders(entries);
    forall j, k | 0 <= j < k < |hs| ensures Before(hs[j], hs[k]) { assert Less(entries[j].0, entries[k].0); }
  }

  /** A collection yields its headers in order, typed ones by row and then extensions by key; inserting
      them rebuilds the collection, so none is missing and none is there twice. */
  lemma HeadersAreInOrder(coll: Collection)
    requires Sorted(coll.extensions)
    ensures
      var hs := HeadersOf(coll);
      InOrder(hs) && InsertAll(EmptyCollection(|coll.known|), hs) == coll
  {
    RebuildCollection(coll);
    var known, extensions := KnownFrom(coll.known, 0), ExtensionHeaders(coll.extensions);
    KnownInOrder(coll.known, 0);
    ExtensionsInOrder(coll.extensions);
    OrderedConcat(known, extensions);
  }
}
