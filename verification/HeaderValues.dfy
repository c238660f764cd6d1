/** The typed header values: how each is printed and read, and when reading undoes printing. */
module HeaderValues {
  import opened Octets
  import opened Numbers
  import opened HeaderIterators
  import opened Serialization
  import opened HeaderParsing

  // ---------------------------------------------------------------- the values

  datatype Connection = Token(name: string) | Close

  datatype Method = Options | Get | Head | Post | Put | Delete | Trace | Connect | Patch | ExtensionMethod(name: string)

  datatype TransferCoding = ChunkedCoding | TransferExtension(name: string, parameters: seq<Parameter>)

  datatype EntityTag = EntityTag(weak: bool, opaqueTag: string)

  datatype MediaType = MediaType(mainType: string, subtype: string, parameters: seq<Parameter>)

  /** The members of comma-separated lists. */
  datatype ListItem =
    | ConnectionItem(connection: Connection)
    | MethodItem(m: Method)
    | CodingItem(coding: TransferCoding)

  datatype ItemKind = ConnectionKind | MethodKind | CodingKind

  function KindOf(item: ListItem): ItemKind {
    match item
    case ConnectionItem(_) => ConnectionKind
    case MethodItem(_) => MethodKind
    case CodingItem(_) => CodingKind
  }

  // ---------------------------------------------------------------- printing

  function PrintConnection(c: Connection): string { match c case Token(s) => s case Close => "close" }

  function PrintMethod(m: Method): string {
    match m
    case Options => "OPTIONS"
    case Get => "GET"
    case Head => "HEAD"
    case Post => "POST"
    case Put => "PUT"
    case Delete => "DELETE"
    case Trace => "TRACE"
    case Connect => "CONNECT"
    case Patch => "PATCH"
    case ExtensionMethod(s) => s
  }

  function PrintCoding(c: TransferCoding): string {
    match c case ChunkedCoding => "chunked" case TransferExtension(name, ps) => name + PrintParameters(ps)
  }

  function PrintItem(item: ListItem): string {
    match item
    case ConnectionItem(c) => PrintConnection(c)
    case MethodItem(m) => PrintMethod(m)
    case CodingItem(c) => PrintCoding(c)
  }

  function PrintList(items: seq<ListItem>): string {
    if items == [] then ""
    else if |items| == 1 then PrintItem(items[0])
    else PrintItem(items[0]) + ", " + PrintList(items[1..])
  }

  function PrintTag(e: EntityTag): string { (if e.weak then "W/" else "") + QuotedString(e.opaqueTag) }

  function PrintMedia(m: MediaType): string { m.mainType + "/" + m.subtype + PrintParameters(m.parameters) }

  // ---------------------------------------------------------------- reading

  function ConnectionOf(token: string): Connection {
    var s := Normalise(token);
    if s == "Close" then Close else Token(s)
  }

  /** `Method::from_str_or_new`. */
  function MethodOf(s: string): Method {
    if s == "OPTIONS" then Options
    else if s == "GET" then Get
    else if s == "HEAD" then Head
    else if s == "POST" then Post
    else if s == "PUT" then Put
    else if s == "DELETE" then Delete
    else if s == "TRACE" then Trace
    else if s == "CONNECT" then Connect
    else if s == "PATCH" then Patch
    else ExtensionMethod(s)
  }

  function LowerCase(s: string): (r: string)
    ensures |r| == |s|
  {
    if s == "" then "" else [ToLower(s[0])] + LowerCase(s[1..])
  }

  function CodingAfter(token: string, v: Value): (r: (Outcome<ListItem>, Value))
    ensures |r.1.text| <= |v.text|
  {
    var name := LowerCase(token);
    if name == "chunked" then (Got(CodingItem(ChunkedCoding)), v)
    else
      match ReadParameters(v)
      case (Got(ps), w) => (Got(CodingItem(TransferExtension(name, ps))), w)
      case (Bad, w) => (Bad, w)
      case (Hang, w) => (Hang, w)
  }

  function ReadItem(kind: ItemKind, v: Value): (r: (Outcome<ListItem>, Value))
    ensures |r.1.text| <= |v.text|
  {
    match ReadToken(v)
    case (None, w) => (Bad, w)
    case (Some(token), w) =>
      match kind
      case ConnectionKind => (Got(ConnectionItem(ConnectionOf(token))), w)
      case MethodKind => (Got(MethodItem(MethodOf(token))), w)
      case CodingKind => CodingAfter(token, w)
  }

  function ListFrom(kind: ItemKind, v: Value, acc: seq<ListItem>): (Outcome<seq<ListItem>>, Value)
    decreases |v.text|
  {
    match ReadItem(kind, v)
    case (Bad, w) => (Bad, w)
    case (Hang, w) => (Hang, w)
    case (Got(item), w) =>
      match ConsumeComma(w)
      case (CommaConsumed, x) => ListFrom(kind, x, acc + [item])
      case (EndOfValue, x) => (Got(acc + [item]), x)
      case (ErrCommaNotFound, x) => (Bad, x)
  }

  function ReadList(kind: ItemKind, v: Value): (Outcome<seq<ListItem>>, Value) { ListFrom(kind, v, []) }

  function SomeIfConsumed<T>(t: T, v: Value): (Outcome<T>, Value) {
    var (yes, w) := Consumed(v);
    (if yes then Got(t) else Bad, w)
  }

  function TagAfter(weak: bool, v: Value): (Outcome<EntityTag>, Value) {
    match ReadQuoted(v, true)
    case (None, w) => (Bad, w)
    case (Some(tag), w) => SomeIfConsumed(EntityTag(weak, tag), w)
  }

  function ReadTag(v: Value): (Outcome<EntityTag>, Value) {
    match v.Next()
    case (None, w) => (Bad, w)
    case (Some(b), w) =>
      if b == 'W' || b == 'w' then
        var (slash, x) := w.Next();
        if slash != Some('/') then (Bad, x)
        else
          var (quote, y) := x.Next();
          if quote != Some('"') then (Bad, y) else TagAfter(true, y)
      else if b == '"' then TagAfter(false, w)
      else (Bad, w)
  }

  function MediaAfter(mainType: string, subtype: string, v: Value): (Outcome<MediaType>, Value) {
    match ReadParameters(v)
    case (Got(ps), w) => SomeIfConsumed(MediaType(mainType, subtype, ps), w)
    case (Bad, w) => (Bad, w)
    case (Hang, w) => (Hang, w)
  }

  function ReadMedia(v: Value): (Outcome<MediaType>, Value) {
    match ReadToken(v)
    case (None, w) => (Bad, w)
    case (Some(mainType), w) =>
      var (slash, x) := w.Next();
      if slash != Some('/') then (Bad, x)
      else
        match ReadToken(x)
        case (None, y) => (Bad, y)
        case (Some(subtype), y) => MediaAfter(mainType, subtype, y)
  }

  // ---------------------------------------------------------------- readers on printed text

  predicate IsName(s: string) { s != "" && IsToken(s) }

  /** The text ends here or goes on with a separator. */
  predicate Stops(rest: string) { rest == "" || IsSeparator(rest[0]) }

  lemma {:induction false} TokenFromReads(v: Value, token: string, rest: string, out: string)
    requires v.text == token + rest && IsToken(token) && Stops(rest)
    requires token == "" ==> !v.atStart
    ensures TokenFrom(v, out) == (out + token, Value(rest, false))
    decreases |token|
  {
    if token == "" {
      assert v.text == rest && out + token == out;
      if rest != "" { assert [rest[0]] + rest[1..] == rest; }
    } else {
      assert v.text[0] == token[0] && v.text[1..] == token[1..] + rest;
      TokenFromReads(v.Next().1, token[1..], rest, out + [token[0]]);
      MoveFirst(out, token);
    }
  }

  lemma TokenReads(v: Value, token: string, rest: string)
    requires v.text == token + rest && IsName(token) && Stops(rest)
    ensures ReadToken(v) == (Some(token), Value(rest, false))
  {
    TokenFromReads(v, token, rest, "");
    assert "" + token == token;
  }

  lemma LwsSkipsNothing(text: string)
    requires !StartsBlank(text)
    ensures AfterLws(Value(text, false)) == Value(text, false)
    ensures SkipBlanks(Value(text, false), true) == (true, Value(text, false))
  {}

  lemma {:induction false} QuotedReads(v: Value, t: string, rest: string, out: string)
    requires v.text == Escape(t) + "\"" + rest && !v.atStart
    ensures QuotedFrom(v, QNormal, out) == (Some(out + t), Value(rest, false))
    decreases |t|
  {
    if t == "" {
      assert v.text == "\"" + rest && v.text[1..] == rest && out + t == out;
    } else {
      var tail := Escape(t[1..]) + "\"" + rest;
      EscapeStep(t, rest);
      MoveFirst(out, t);
      if NeedsEscape(t[0]) {
        assert v.text[1..][1..] == tail;
      } else {
        assert v.text[1..] == tail;
      }
      QuotedReads(Value(tail, false), t[1..], rest, out + [t[0]]);
    }
  }

  lemma EscapeStep(t: string, rest: string)
    requires t != ""
    ensures Escape(t) + "\"" + rest == EscapeChar(t[0]) + (Escape(t[1..]) + "\"" + rest)
  {}

  /** On one text, the streaming quoted-string reader accepts what `unquote_string` accepts. */
  lemma {:induction false} StreamingAgrees(s: string, state: QuoteState, out: string)
    ensures
      var (r, w) := QuotedFrom(Value(s, false), state, out);
      var same := match state case QStart => Start case QNormal => UnquoteState.Normal case QEscaping => Escaping;
      UnquoteFrom(same, s, out) ==
        if r.Some? && w.text == "" then r else None
    decreases |s|
  {
    if s == "" {
    } else {
      match state {
        case QStart => StreamingAgrees(s[1..], QNormal, out);
        case QNormal =>
          if s[0] == '\\' { StreamingAgrees(s[1..], QEscaping, out); }
          else if s[0] != '"' { StreamingAgrees(s[1..], QNormal, out + [s[0]]); }
        case QEscaping => StreamingAgrees(s[1..], QNormal, out + [s[0]]);
      }
    }
  }

  /** A value that starts with a blank, as that of a header folded before its content does, is no
      entity tag, media type or list. */
  lemma LeadingBlankIsRefused(v: Value, kind: ItemKind)
    requires StartsBlank(v.text)
    ensures ReadTag(v).0 == Bad && ReadMedia(v).0 == Bad && ReadList(kind, v).0 == Bad
  {
    assert ReadToken(v).0 == None;
  }

  /** A legally folded entity tag. */
  lemma FoldedTagIsRefused()
    ensures Unfold("\n \"x\"\n", true, false) == " \"x\""
    ensures ReadTag(Value(" \"x\"", true)).0 == Bad
  {
    var s0, s1, s2, s3, s4 := "\n \"x\"\n", " \"x\"\n", "\"x\"\n", "x\"\n", "\"\n";
    assert s0[1..] == s1 && s1[1..] == s2 && s2[1..] == s3 && s3[1..] == s4 && s4[1..] == "\n" && "\n"[1..] == "";
    assert Unfold("\n", false, false) == "";
    assert Unfold(s4, false, false) == "\"";
    assert Unfold(s3, false, false) == "x\"";
    assert Unfold(s2, true, false) == "\"x\"";
    assert Unfold(s1, true, true) == " \"x\"";
  }

  // ---------------------------------------------------------------- parameters read back

  ghost predicate GoodKeys(ps: seq<Parameter>) { forall i :: 0 <= i < |ps| ==> IsName(ps[i].0) }

  /** Nothing follows a value that is printed without quotes, and no value is empty: the reader
      does not return from such a value when anything follows it. */
  predicate ReadsBack(ps: seq<Parameter>, rest: string) {
    forall i :: 0 <= i < |ps| && IsToken(ps[i].1) ==> ps[i].1 != "" && i == |ps| - 1 && rest == ""
  }

  /** What may follow parameters: the end of the value or the comma of a list. */
  predicate EndsItem(rest: string) { rest == "" || rest[0] == ',' }

  /** What may follow one parameter. */
  predicate EndsParameter(rest: string) { EndsItem(rest) || rest[0] == ';' }

  lemma ValueReads(value: string, rest: string)
    requires EndsParameter(rest)
    ensures
      var r := ReadTokenOrQuoted(Value(MaybeQuoted(value) + rest, false));
      if IsToken(value) && (value == "" || rest != "") then !r.0.Got?
      else r == (Got(value), Value(rest, false))
  {
    if IsToken(value) { TokenValueReads(value, rest); } else { QuotedValueReads(value, rest); }
  }

  lemma QuotedValueReads(value: string, rest: string)
    ensures ReadTokenOrQuoted(Value(QuotedString(value) + rest, false)) == (Got(value), Value(rest, false))
  {
    var v := Value(QuotedString(value) + rest, false);
    assert v.text[1..] == Escape(value) + "\"" + rest;
    QuotedReads(v.Next().1, value, rest, "");
    assert "" + value == value;
  }

  lemma TokenValueReads(value: string, rest: string)
    requires IsToken(value) && EndsParameter(rest)
    ensures
      var r := ReadTokenOrQuoted(Value(value + rest, false));
      if value == "" || rest != "" then !r.0.Got? else r == (Got(value), Value(rest, false))
  {
    var v := Value(value + rest, false);
    if v.text != "" {
      assert v.text[0] == if value == "" then rest[0] else value[0];
      assert [v.text[0]] + v.text[1..] == v.text;
      assert v.Next().1.PushBack(v.text[0]) == v;
      UnquotedReads(v, value, rest, "");
      assert "" + value == value;
    }
  }

  lemma {:induction false} UnquotedReads(v: Value, value: string, rest: string, out: string)
    requires v.text == value + rest && !v.atStart && IsToken(value) && EndsParameter(rest)
    ensures TokenLoop(v, out) ==
              if rest != "" then (Hang, Value(rest, false))
              else (if out + value == "" then Bad else Got(out + value), Value("", false))
    decreases |value|
  {
    if value == "" {
      assert v.text == rest && out + value == out;
      if rest != "" { assert [rest[0]] + rest[1..] == rest; }
    } else {
      assert v.text[0] == value[0] && v.text[1..] == value[1..] + rest;
      UnquotedReads(v.Next().1, value[1..], rest, out + [value[0]]);
      MoveFirst(out, value);
    }
  }

  lemma ParameterReads(p: Parameter, rest: string)
    requires IsName(p.0) && EndsParameter(rest)
    ensures
      var r := ReadParameter(Value(PrintParameter(p) + rest, false));
      if IsToken(p.1) && (p.1 == "" || rest != "") then !r.0.Got?
      else r == (Got(p), Value(rest, false))
  {
    var tail := "=" + (MaybeQuoted(p.1) + rest);
    var v := Value(PrintParameter(p) + rest, false);
    assert v.text == p.0 + tail;
    LwsSkipsNothing(v.text);
    TokenReads(v, p.0, tail);
    ParameterValueReads(p.0, p.1, rest);
  }

  lemma ParameterValueReads(key: string, value: string, rest: string)
    requires EndsParameter(rest)
    ensures
      var r := ParameterValue(Value("=" + (MaybeQuoted(value) + rest), false), key);
      if IsToken(value) && (value == "" || rest != "") then !r.0.Got?
      else r == (Got((key, value)), Value(rest, false))
  {
    var printed := MaybeQuoted(value) + rest;
    LwsSkipsNothing("=" + printed);
    assert ("=" + printed)[1..] == printed;
    NotBlank(value, rest);
    LwsSkipsNothing(printed);
    ValueReads(value, rest);
    LwsSkipsNothing(rest);
  }

  lemma NotBlank(value: string, rest: string)
    requires EndsParameter(rest)
    ensures !StartsBlank(MaybeQuoted(value) + rest)
  {}

  lemma PrintParametersStep(ps: seq<Parameter>, rest: string)
    requires ps != []
    ensures PrintParameters(ps) + rest == ";" + (PrintParameter(ps[0]) + (PrintParameters(ps[1..]) + rest))
  {}

  lemma ParametersStart(ps: seq<Parameter>, rest: string)
    requires EndsItem(rest)
    ensures
      var more := PrintParameters(ps) + rest;
      EndsParameter(more) && Stops(more) && (more == "" <==> ps == [] && rest == "")
  {}

  lemma {:induction false} ParametersFromReads(ps: seq<Parameter>, rest: string, acc: seq<Parameter>)
    requires GoodKeys(ps) && EndsItem(rest)
    ensures
      var r := ParametersFrom(Value(PrintParameters(ps) + rest, false), acc);
      if ReadsBack(ps, rest) then r == (Got(acc + ps), Value(rest, false)) else !r.0.Got?
    decreases |ps|
  {
    if ps == [] {
      assert PrintParameters(ps) + rest == rest && acc + ps == acc;
      if rest != "" { assert [rest[0]] + rest[1..] == rest; }
    } else {
      FirstParameterReads(ps, rest, acc);
      ReadsBackStep(ps, rest);
      if FirstReadsBack(ps, rest) {
        ParametersFromReads(ps[1..], rest, acc + [ps[0]]);
        MoveFirst(acc, ps);
      }
    }
  }

  predicate FirstReadsBack(ps: seq<Parameter>, rest: string)
    requires ps != []
  {
    IsToken(ps[0].1) ==> ps[0].1 != "" && |ps| == 1 && rest == ""
  }

  lemma FirstParameterReads(ps: seq<Parameter>, rest: string, acc: seq<Parameter>)
    requires ps != [] && GoodKeys(ps) && EndsItem(rest)
    ensures
      var r := ParametersFrom(Value(PrintParameters(ps) + rest, false), acc);
      if FirstReadsBack(ps, rest) then
        r == ParametersFrom(Value(PrintParameters(ps[1..]) + rest, false), acc + [ps[0]])
      else !r.0.Got?
  {
    var more := PrintParameters(ps[1..]) + rest;
    PrintParametersStep(ps, rest);
    assert (PrintParameters(ps) + rest)[1..] == PrintParameter(ps[0]) + more;
    ParametersStart(ps[1..], rest);
    ParameterReads(ps[0], more);
  }

  lemma ReadsBackStep(ps: seq<Parameter>, rest: string)
    requires ps != []
    ensures ReadsBack(ps, rest) <==>
              (IsToken(ps[0].1) ==> ps[0].1 != "" && |ps| == 1 && rest == "") && ReadsBack(ps[1..], rest)
  {}

  /** Printed parameters read back as themselves exactly when no value is empty and a value that is
      printed without quotes is the last thing in the header. */
  lemma ParametersReadBack(ps: seq<Parameter>, rest: string)
    requires GoodKeys(ps) && EndsItem(rest)
    ensures
      var r := ReadParameters(Value(PrintParameters(ps) + rest, false));
      if ReadsBack(ps, rest) then r == (Got(ps), Value(rest, false)) else !r.0.Got?
  {
    ParametersFromReads(ps, rest, []);
    assert [] + ps == ps;
  }

  // ---------------------------------------------------------------- single values read back

  lemma NothingLeft<T>(t: T)
    ensures SomeIfConsumed(t, Value("", false)) == (Got(t), Value("", false))
  {}

  /** A Content-Type value reads back as itself exactly when its parameters do. */
  lemma MediaReadsBack(m: MediaType, atStart: bool)
    requires IsName(m.mainType) && IsName(m.subtype) && GoodKeys(m.parameters)
    ensures ReadMedia(Value(PrintMedia(m), atStart)).0 == Got(m) <==> ReadsBack(m.parameters, "")
    ensures ReadsBack(m.parameters, "") ==> ReadMedia(Value(PrintMedia(m), atStart)).1.text == ""
  {
    var ps := PrintParameters(m.parameters);
    var v := Value(PrintMedia(m), atStart);
    assert v.text == m.mainType + ("/" + (m.subtype + ps));
    TokenReads(v, m.mainType, "/" + (m.subtype + ps));
    assert ("/" + (m.subtype + ps))[1..] == m.subtype + ps;
    assert ps != "" ==> ps[0] == ';';
    TokenReads(Value(m.subtype + ps, false), m.subtype, ps);
    MediaAfterReads(m);
  }

  lemma MediaAfterReads(m: MediaType)
    requires GoodKeys(m.parameters)
    ensures
      var r := MediaAfter(m.mainType, m.subtype, Value(PrintParameters(m.parameters), false));
      if ReadsBack(m.parameters, "") then r == (Got(m), Value("", false)) else !r.0.Got?
  {
    var ps := PrintParameters(m.parameters);
    assert ps + "" == ps;
    ParametersReadBack(m.parameters, "");
    NothingLeft(m);
  }

  /** Every entity tag reads back as itself. */
  lemma TagReadsBack(e: EntityTag, atStart: bool)
    ensures ReadTag(Value(PrintTag(e), atStart)) == (Got(e), Value("", false))
  {
    var quoted := Escape(e.opaqueTag) + "\"";
    var v := Value(PrintTag(e), atStart);
    TagAfterReads(e);
    if e.weak {
      assert v.text == ['W', '/', '"'] + quoted;
      assert v.text[1..][1..][1..] == quoted;
    } else {
      assert v.text == "\"" + quoted && v.text[1..] == quoted;
    }
  }

  lemma TagAfterReads(e: EntityTag)
    ensures TagAfter(e.weak, Value(Escape(e.opaqueTag) + "\"", false)) == (Got(e), Value("", false))
  {
    var quoted := Escape(e.opaqueTag) + "\"";
    assert quoted + "" == quoted && "" + e.opaqueTag == e.opaqueTag;
    QuotedReads(Value(quoted, false), e.opaqueTag, "", "");
    NothingLeft(e);
  }

  // ---------------------------------------------------------------- lists read back

  ghost predicate GoodItem(item: ListItem) {
    match item
    case ConnectionItem(Close) => true
    case ConnectionItem(Token(s)) => IsName(s) && Normalise(s) == s && s != "Close"
    case MethodItem(m) => m.ExtensionMethod? ==> IsName(m.name) && MethodOf(m.name) == m
    case CodingItem(ChunkedCoding) => true
    case CodingItem(TransferExtension(name, ps)) =>
      IsName(name) && LowerCase(name) == name && name != "chunked" && GoodKeys(ps)
  }

  predicate ItemReadsBack(item: ListItem, rest: string) {
    match item case CodingItem(TransferExtension(_, ps)) => ReadsBack(ps, rest) case _ => true
  }

  lemma MethodReadsBack(m: Method)
    requires GoodItem(MethodItem(m))
    ensures IsName(PrintMethod(m)) && MethodOf(PrintMethod(m)) == m
  {}

  lemma ConnectionReadsBack(c: Connection)
    requires GoodItem(ConnectionItem(c))
    ensures IsName(PrintConnection(c)) && ConnectionOf(PrintConnection(c)) == c
  {
    if c.Close? { CloseIsName(); }
  }

  lemma CloseIsName()
    ensures IsName("close") && Normalise("close") == "Close"
  {
    LowerCaseName("close");
    NormaliseIs("close", "Close");
  }

  lemma {:induction false} LowerCaseIs(s: string, lower: string)
    requires |s| == |lower| && forall i :: 0 <= i < |s| ==> lower[i] == ToLower(s[i])
    ensures LowerCase(s) == lower
  {
    if s == "" {
    } else {
      LowerCaseIs(s[1..], lower[1..]);
      assert lower == [lower[0]] + lower[1..];
    }
  }

  lemma LowerCaseName(s: string)
    requires s != "" && forall i :: 0 <= i < |s| ==> IsLower(s[i])
    ensures IsName(s) && LowerCase(s) == s
  {
    forall i | 0 <= i < |s| ensures IsTokenItem(s[i]) && s[i] == ToLower(s[i]) { LowerIsTokenItem(s[i]); }
    LowerCaseIs(s, s);
  }

  lemma LowerIsTokenItem(c: char)
    requires IsLower(c)
    ensures IsTokenItem(c) && c == ToLower(c)
  {}

  lemma ChunkedIsName()
    ensures IsName("chunked") && LowerCase("chunked") == "chunked"
  {
    LowerCaseName("chunked");
  }

  lemma ConnectionReads(c: Connection, token: string, rest: string, v: Value)
    requires IsName(token) && ConnectionOf(token) == c && EndsItem(rest) && v.text == token + rest
    ensures ReadItem(ConnectionKind, v) == (Got(ConnectionItem(c)), Value(rest, false))
  {
    TokenReads(v, token, rest);
  }

  lemma MethodReads(m: Method, token: string, rest: string, v: Value)
    requires IsName(token) && MethodOf(token) == m && EndsItem(rest) && v.text == token + rest
    ensures ReadItem(MethodKind, v) == (Got(MethodItem(m)), Value(rest, false))
  {
    TokenReads(v, token, rest);
  }

  lemma ChunkedReads(token: string, rest: string, v: Value)
    requires IsName(token) && LowerCase(token) == "chunked" && EndsItem(rest) && v.text == token + rest
    ensures ReadItem(CodingKind, v) == (Got(CodingItem(ChunkedCoding)), Value(rest, false))
  {
    TokenReads(v, token, rest);
  }

  lemma ExtensionReads(name: string, ps: seq<Parameter>, rest: string, v: Value)
    requires GoodItem(CodingItem(TransferExtension(name, ps))) && EndsItem(rest)
    requires v.text == name + PrintParameters(ps) + rest
    ensures
      var r := ReadItem(CodingKind, v);
      if ReadsBack(ps, rest) then r == (Got(CodingItem(TransferExtension(name, ps))), Value(rest, false)) else !r.0.Got?
  {
    var more := PrintParameters(ps) + rest;
    Associative(name, PrintParameters(ps), rest);
    ParametersStart(ps, rest);
    TokenReads(v, name, more);
    CodingAfterReads(name, ps, rest);
  }

  lemma CodingAfterReads(name: string, ps: seq<Parameter>, rest: string)
    requires LowerCase(name) == name && name != "chunked" && GoodKeys(ps) && EndsItem(rest)
    ensures
      var r := CodingAfter(name, Value(PrintParameters(ps) + rest, false));
      if ReadsBack(ps, rest) then r == (Got(CodingItem(TransferExtension(name, ps))), Value(rest, false)) else !r.0.Got?
  {
    ParametersReadBack(ps, rest);
  }

  lemma ItemReads(item: ListItem, rest: string, v: Value)
    requires GoodItem(item) && EndsItem(rest) && v.text == PrintItem(item) + rest
    ensures
      var r := ReadItem(KindOf(item), v);
      if ItemReadsBack(item, rest) then r == (Got(item), Value(rest, false)) else !r.0.Got?
  {
    match item {
      case ConnectionItem(c) =>
        ConnectionReadsBack(c);
        ConnectionReads(c, PrintConnection(c), rest, v);
      case MethodItem(m) =>
        MethodReadsBack(m);
        MethodReads(m, PrintMethod(m), rest, v);
      case CodingItem(ChunkedCoding) =>
        ChunkedIsName();
        ChunkedReads("chunked", rest, v);
      case CodingItem(TransferExtension(name, ps)) => ExtensionReads(name, ps, rest, v);
    }
  }

  ghost predicate GoodList(kind: ItemKind, items: seq<ListItem>) {
    items != [] && forall i :: 0 <= i < |items| ==> KindOf(items[i]) == kind && GoodItem(items[i])
  }

  /** Only the very last thing in a list may be a value printed without quotes. */
  predicate ListReadsBack(items: seq<ListItem>) {
    forall i :: 0 <= i < |items| ==> ItemReadsBack(items[i], if i == |items| - 1 then "" else ",")
  }

  lemma CommaReads(more: string)
    requires !StartsBlank(more)
    ensures ConsumeComma(Value(", " + more, false)) == (CommaConsumed, Value(more, false))
  {
    LwsSkipsNothing(", " + more);
    assert (", " + more)[1..] == " " + more && (" " + more)[1..] == more;
    LwsSkipsNothing(more);
    assert AfterLws(Value(" " + more, false)) == Value(more, false);
  }

  lemma OneItemReads(item: ListItem, v: Value, acc: seq<ListItem>)
    requires GoodItem(item) && v.text == PrintItem(item)
    ensures
      var r := ListFrom(KindOf(item), v, acc);
      if ItemReadsBack(item, "") then r == (Got(acc + [item]), Value("", false)) else !r.0.Got?
  {
    assert v.text == PrintItem(item) + "";
    ItemReads(item, "", v);
    LwsSkipsNothing("");
  }

  lemma NextItemReads(item: ListItem, next: string, v: Value, acc: seq<ListItem>)
    requires GoodItem(item) && !StartsBlank(next) && v.text == PrintItem(item) + ", " + next
    ensures
      var r := ListFrom(KindOf(item), v, acc);
      if ItemReadsBack(item, ",") then r == ListFrom(KindOf(item), Value(next, false), acc + [item]) else !r.0.Got?
  {
    var rest := ", " + next;
    Associative(PrintItem(item), ", ", next);
    ItemReads(item, rest, v);
    ItemSeparator(item, rest);
    CommaReads(next);
    if ItemReadsBack(item, ",") {
      ItemThen(KindOf(item), v, item, Value(rest, false), Value(next, false), acc);
    } else {
      NoItem(KindOf(item), v, acc);
    }
  }

  lemma ItemThen(kind: ItemKind, v: Value, item: ListItem, w: Value, x: Value, acc: seq<ListItem>)
    requires ReadItem(kind, v) == (Got(item), w) && ConsumeComma(w) == (CommaConsumed, x)
    ensures ListFrom(kind, v, acc) == ListFrom(kind, x, acc + [item])
  {}

  lemma NoItem(kind: ItemKind, v: Value, acc: seq<ListItem>)
    requires !ReadItem(kind, v).0.Got?
    ensures !ListFrom(kind, v, acc).0.Got?
  {}

  lemma {:induction false} ListFromReads(kind: ItemKind, items: seq<ListItem>, v: Value, acc: seq<ListItem>)
    requires GoodList(kind, items) && v.text == PrintList(items)
    ensures
      var r := ListFrom(kind, v, acc);
      if ListReadsBack(items) then r.0 == Got(acc + items) && r.1.text == "" else !r.0.Got?
    decreases |items|
  {
    if |items| == 1 {
      assert items == [items[0]];
      OneItemReads(items[0], v, acc);
    } else {
      var next := PrintList(items[1..]);
      ListReadsBackStep(items);
      PrintListStarts(items[1..]);
      NextItemReads(items[0], next, v, acc);
      ListFromReads(kind, items[1..], Value(next, false), acc + [items[0]]);
      MoveFirst(acc, items);
    }
  }

  lemma ItemSeparator(item: ListItem, rest: string)
    requires rest != ""
    ensures ItemReadsBack(item, rest) == ItemReadsBack(item, ",")
  {}

  lemma ListReadsBackStep(items: seq<ListItem>)
    requires |items| > 1
    ensures ListReadsBack(items) <==> ItemReadsBack(items[0], ",") && ListReadsBack(items[1..])
  {}

  lemma PrintListStarts(items: seq<ListItem>)
    requires items != [] && GoodItem(items[0])
    ensures PrintList(items) != "" && IsTokenItem(PrintList(items)[0])
  {}

  /** A non-empty list reads back from its comma-joined form as itself exactly when only its very
      last parameter value may go without quotes; in a list of Connection values or of methods
      there is nothing to prevent it. */
  lemma ListReadBack(kind: ItemKind, items: seq<ListItem>, atStart: bool)
    requires GoodList(kind, items)
    ensures ReadList(kind, Value(PrintList(items), atStart)).0 == Got(items) <==> ListReadsBack(items)
    ensures ListReadsBack(items) ==> ReadList(kind, Value(PrintList(items), atStart)).1.text == ""
    ensures kind != CodingKind ==> ListReadsBack(items)
  {
    ListFromReads(kind, items, Value(PrintList(items), atStart), []);
    assert [] + items == items;
  }
}
