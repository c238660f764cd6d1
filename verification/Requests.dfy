/** `server/request.rs`: what is read of a request, as a function of the octets to come. */
module Requests {
  import opened Octets
  import opened Utf8
  import Numbers
  import opened Branchify
  import opened HeaderIterators
  import opened Serialization
  import opened HeaderParsing
  import opened HeaderValues
  import opened Headers
  import opened Common

  // ---------------------------------------------------------------- the method

  /** The keys of `read_method`. */
  function MethodKeys(): seq<(string, Method)> {
    [("CONNECT", Connect), ("DELETE", Delete), ("GET", Get), ("HEAD", Head), ("OPTIONS", Options),
     ("PATCH", Patch), ("POST", Post), ("PUT", Put), ("TRACE", Trace)]
  }

  const MAX_METHOD_LEN: nat := 64
  const MAX_REQUEST_URI_LEN: nat := 1024

  const METHOD_CONFIG: Config := Config(c => IsTokenItem(c), SP, MAX_METHOD_LEN)

  /** A word of token characters of at most 64 octets up to a space, taken as a method name. */
  function ReadMethod(input: string): (Option<Method>, string) {
    var (word, rest) := ReadWord(METHOD_CONFIG, input);
    (match word case Some(w) => Some(MethodOf(w)) case None => None, rest)
  }

  function MethodFound(found: Found<Method>): Method {
    match found case Known(m) => m case Unknown(s) => ExtensionMethod(s)
  }

  lemma KeysAreUsable()
    ensures UsableKeys(MethodKeys(), true, METHOD_CONFIG) && Distinct(MethodKeys(), true)
  {
    forall i | 0 <= i < |MethodKeys()|
      ensures UsableLetters(MethodKeys()[i].0, true, METHOD_CONFIG) && Length(MethodKeys()[i].0) < METHOD_CONFIG.maxLen
    {
      KeyIsToken(i);
      TokenOctets(MethodKeys()[i].0);
      SameIffAscii(MethodKeys()[i].0);
      TokenIsUsable(MethodKeys()[i].0);
    }
    KeysAreDistinct();
  }

  lemma KeyIsToken(i: nat)
    requires i < |MethodKeys()|
    ensures IsToken(MethodKeys()[i].0) && |MethodKeys()[i].0| < MAX_METHOD_LEN
  {}

  lemma TokenIsUsable(key: string)
    requires IsToken(key)
    ensures UsableLetters(key, true, METHOD_CONFIG)
  {}

  /** The first two letters tell the keys apart. */
  lemma KeysAreDistinct()
    ensures Distinct(MethodKeys(), true)
  {
    forall i, j | 0 <= i < j < |MethodKeys()| ensures !SameKey(MethodKeys()[i].0, MethodKeys()[j].0, true) {
      var a, b := MethodKeys()[i].0, MethodKeys()[j].0;
      assert a[0] != b[0] || a[1] != b[1];
    }
  }

  lemma SameKeyIsEqual(key: string, word: string)
    ensures SameKey(key, word, true) <==> key == word
  {}

  lemma ClassifyIsMethodOf(word: string)
    ensures MethodFound(Classify(MethodKeys(), word, true)) == MethodOf(word)
  {
    FindIsLookup(word, 9);
    var keys := MethodKeys();
    assert keys[..9] == keys;
    assert keys[0].0 == "CONNECT" && keys[1].0 == "DELETE" && keys[2].0 == "GET" && keys[3].0 == "HEAD"
        && keys[4].0 == "OPTIONS" && keys[5].0 == "PATCH" && keys[6].0 == "POST" && keys[7].0 == "PUT"
        && keys[8].0 == "TRACE";
  }

  /** The keys looked up one by one, as `from_str_or_new` does. */
  lemma {:induction false} FindIsLookup(word: string, n: nat)
    requires n <= 9
    ensures
      var found := Find(MethodKeys()[..n], word, true);
      && (found.Some? ==> MethodOf(word) == found.value)
      && (found.None? ==> forall i :: 0 <= i < n ==> word != MethodKeys()[i].0)
  {
    if n > 0 {
      FindIsLookup(word, n - 1);
      assert MethodKeys()[..n][..n - 1] == MethodKeys()[..n - 1];
      SameKeyIsEqual(MethodKeys()[n - 1].0, word);
    }
  }

  /** The generated matcher reads methods as `from_str_or_new` names them. */
  lemma MatcherReadsMethods(input: string)
    ensures
      var run := Run(Compile(Build(MethodKeys(), true).children), METHOD_CONFIG, input);
      && run.Some?
      && ReadMethod(input) == (match run.value.0 case Some(f) => Some(MethodFound(f)) case None => None, run.value.1)
  {
    KeysAreUsable();
    MatcherRefinesReference(MethodKeys(), true, METHOD_CONFIG, input);
    var word := ReadWord(METHOD_CONFIG, input).0;
    if word.Some? { ClassifyIsMethodOf(word.value); }
  }

  // ---------------------------------------------------------------- the request line

  /** The statuses that the server itself gives, and any other. */
  datatype Status = StatusOk | BadRequest | RequestUriTooLong | HttpVersionNotSupported | OtherStatus(text: string)

  function StatusText(status: Status): string {
    match status
    case StatusOk => "200 OK"
    case BadRequest => "400 Bad Request"
    case RequestUriTooLong => "414 Request-URI Too Long"
    case HttpVersionNotSupported => "505 HTTP Version Not Supported"
    case OtherStatus(text) => text
  }

  datatype Result<+T> = Ok(value: T) | Err(status: Status)

  datatype RequestUri = Star | AbsoluteUri(url: string) | AbsolutePath(path: string) | Authority(authority: string)

  /** What the code outside the repository decides: the headers' table and which texts are URLs. */
  datatype Environment = Environment(table: seq<Row>, isUrl: string -> bool)

  function UriOf(s: string, isUrl: string -> bool): Option<RequestUri> {
    if s == "*" then Some(Star)
    else if s != "" && s[0] == '/' then Some(AbsolutePath(s))
    else if '/' in s then if isUrl(s) then Some(AbsoluteUri(s)) else None
    else Some(Authority(s))
  }

  function UriText(uri: RequestUri): string {
    match uri case Star => "*" case AbsoluteUri(s) => s case AbsolutePath(s) => s case Authority(s) => s
  }

  /** A path starts with a slash; a URL holds one elsewhere and is accepted as one; an authority holds
      none and is not the asterisk. */
  predicate GoodUri(uri: RequestUri, isUrl: string -> bool) {
    match uri
    case Star => true
    case AbsolutePath(s) => s != "" && s[0] == '/'
    case AbsoluteUri(s) => s != "" && s[0] != '/' && '/' in s && isUrl(s)
    case Authority(s) => '/' !in s && s != "*"
  }

  /** The text of a Request-URI is taken for what was meant exactly when that is well formed. */
  lemma UriReadsBack(uri: RequestUri, isUrl: string -> bool)
    ensures UriOf(UriText(uri), isUrl) == Some(uri) <==> GoodUri(uri, isUrl)
  {
    var s := UriText(uri);
    if s != "" { assert s[0] in s; }
    assert "*"[0] != '/' && '/' !in "*";
  }

  /** A text is refused exactly when it holds a slash, though not at its start, and is no URL. */
  lemma UriRefusedIff(s: string, isUrl: string -> bool)
    ensures UriOf(s, isUrl) == None <==> '/' in s && s[0] != '/' && !isUrl(s)
  {
    if s != "" { assert s[0] in s; }
    assert '/' !in "*";
  }

  function UriFrom(input: string, uri: string): (Result<string>, string)
    decreases |input|
  {
    if input == "" then (Err(BadRequest), "")
    else if input[0] == SP then (Ok(uri), input[1..])
    else if Length(uri) == MAX_REQUEST_URI_LEN then (Err(RequestUriTooLong), input[1..])
    else UriFrom(input[1..], uri + [input[0]])
  }

  function FirstSpace(input: string): (n: nat)
    ensures n <= |input| && (n < |input| ==> input[n] == SP)
    ensures forall i :: 0 <= i < n ==> input[i] != SP
  {
    if input == "" || input[0] == SP then 0 else 1 + FirstSpace(input[1..])
  }

  /** Where the text is as long as the limit for the first time, if anything follows; else its end.
      A character of length 2 can step over the limit. */
  function LimitMet(text: string, limit: int): (k: nat)
    ensures k <= |text|
  {
    if text == "" || limit == 0 then 0 else 1 + LimitMet(text[1..], limit - Width(text[0]))
  }

  lemma {:induction false} LimitMetIs(text: string, limit: int)
    ensures
      var k := LimitMet(text, limit);
      && (k < |text| ==> Length(text[..k]) == limit)
      && forall j :: 0 <= j < k ==> Length(text[..j]) != limit
  {
    var k := LimitMet(text, limit);
    if text != "" && limit != 0 {
      LimitMetIs(text[1..], limit - Width(text[0]));
      assert text[..k][1..] == text[1..][..k - 1];
      forall j | 0 <= j < k ensures Length(text[..j]) != limit {
        if j > 0 { assert text[..j][1..] == text[1..][..j - 1]; }
      }
    }
  }

  /** The URI is what stands before the first space, unless its length meets the limit before that:
      then the octet that follows is consumed too and the error says so. */
  lemma {:induction false} UriFromIs(input: string, uri: string)
    ensures
      var n := FirstSpace(input);
      var k := LimitMet(input[..n], MAX_REQUEST_URI_LEN - Length(uri));
      UriFrom(input, uri) ==
        if k < n then (Err(RequestUriTooLong), input[k + 1..])
        else if n == |input| then (Err(BadRequest), "")
        else (Ok(uri + input[..n]), input[n + 1..])
    decreases |input|
  {
    if input == "" {
    } else if input[0] == SP {
      assert uri + input[..0] == uri;
    } else if Length(uri) != MAX_REQUEST_URI_LEN {
      var n := FirstSpace(input);
      UriFromIs(input[1..], uri + [input[0]]);
      LengthPush(uri, input[0]);
      UriStep(uri, input, n);
    }
  }

  lemma UriStep(uri: string, input: string, n: nat)
    requires 0 < n <= |input|
    ensures uri + [input[0]] + input[1..][..n - 1] == uri + input[..n]
    ensures input[..n][1..] == input[1..][..n - 1]
  {}

  /** Some character of the text starts before the limit and ends after it. */
  ghost predicate StepsOver(text: string, limit: int) {
    exists k :: 0 <= k < |text| && Length(text[..k]) < limit < Length(text[..k]) + Width(text[k])
  }

  /** A text over the limit is refused, and no other, exactly when it does not step over the limit. */
  lemma LimitHoldsIff(text: string, limit: nat)
    ensures (LimitMet(text, limit) < |text| <==> Length(text) > limit) <==> !StepsOver(text, limit)
  {
    LimitMetIs(text, limit);
    if StepsOver(text, limit) {
      var k :| 0 <= k < |text| && Length(text[..k]) < limit < Length(text[..k]) + Width(text[k]);
      forall j | 0 <= j < |text| ensures Length(text[..j]) != limit {
        if j <= k { PrefixLength(text, j, k); } else { PrefixLength(text, k + 1, j); PrefixPush(text, k); }
      }
      PrefixPush(text, k);
      PrefixLength(text, k + 1, |text|);
    } else {
      LastBelow(text, limit, |text|);
      var m := LimitMet(text, limit);
      if m < |text| {
        PrefixPush(text, m);
        PrefixLength(text, m + 1, |text|);
      }
    }
    assert text[..|text|] == text;
  }

  lemma PrefixPush(text: string, k: nat)
    requires k < |text|
    ensures Length(text[..k + 1]) == Length(text[..k]) + Width(text[k])
  {
    LengthPush(text[..k], text[k]);
    assert text[..k + 1] == text[..k] + [text[k]];
  }

  lemma PrefixLength(text: string, j: nat, k: nat)
    requires j <= k <= |text|
    ensures Length(text[..j]) <= Length(text[..k])
  {
    LengthConcat(text[..j], text[j..k]);
    assert text[..k] == text[..j] + text[j..k];
  }

  /** A text that does not step over the limit and passes it meets it. */
  lemma {:induction false} LastBelow(text: string, limit: nat, n: nat)
    requires n <= |text| && !StepsOver(text, limit)
    ensures Length(text[..n]) > limit ==> exists j :: 0 <= j < n && Length(text[..j]) == limit
  {
    if n > 0 {
      LastBelow(text, limit, n - 1);
      PrefixPush(text, n - 1);
    }
  }

  /** One ASCII octet and 512 or more octets beyond ASCII are accepted as a URI, however many there
      are: the limit is stepped over. */
  lemma LimitNeverApplies(h: char, n: nat)
    requires 128 <= h as int < 256 && n >= 512
    ensures
      var uri := "a" + Repeat(h, n);
      Length(uri) > MAX_REQUEST_URI_LEN && UriFrom(uri + [SP], "") == (Ok(uri), "")
  {
    var uri := "a" + Repeat(h, n);
    LongUri(h, n);
    SteppingUri(uri);
  }

  lemma SteppingUri(uri: string)
    requires SP !in uri && Length(uri) > MAX_REQUEST_URI_LEN && StepsOver(uri, MAX_REQUEST_URI_LEN)
    ensures UriFrom(uri + [SP], "") == (Ok(uri), "")
  {
    LimitHoldsIff(uri, MAX_REQUEST_URI_LEN);
    SpaceAfter(uri, "");
    assert uri + [SP] + "" == uri + [SP];
    UriFromIs(uri + [SP], "");
    assert "" + uri == uri;
  }

  lemma LongUri(h: char, n: nat)
    requires 128 <= h as int < 256 && n >= 512
    ensures
      var uri := "a" + Repeat(h, n);
      SP !in uri && Length(uri) > MAX_REQUEST_URI_LEN && StepsOver(uri, MAX_REQUEST_URI_LEN)
  {
    var uri := "a" + Repeat(h, n);
    RepeatLength(h, 511);
    RepeatLength(h, n);
    OctetWidth(h);
    RepeatPrefix(h, n, 511);
    assert uri[..512] == "a" + Repeat(h, 511) && uri[512] == h;
    LengthConcat("a", Repeat(h, 511));
    LengthConcat("a", Repeat(h, n));
    assert Length("a") == 1;
  }

  lemma SpaceAfter(uri: string, rest: string)
    requires SP !in uri
    ensures
      var input := uri + [SP] + rest;
      FirstSpace(input) == |uri| && input[..|uri|] == uri && input[|uri| + 1..] == rest
  {
    var input := uri + [SP] + rest;
    assert forall i :: 0 <= i < |uri| ==> input[i] == uri[i];
    assert input[|uri|] == SP;
  }

  function ReadUri(env: Environment, input: string): (Result<RequestUri>, string) {
    match UriFrom(input, "")
    case (Err(s), rest) => (Err(s), rest)
    case (Ok(text), rest) =>
      (match UriOf(text, env.isUrl) case Some(uri) => Ok(uri) case None => Err(BadRequest), rest)
  }

  /** The octet after the version is read whether the version was good or not. */
  function VersionLine(input: string): (Option<(nat, nat)>, string) {
    var (version, rest) := ReadVersion(input, CR);
    (if version.Some? && rest != "" && rest[0] == LF then version else None, if rest == "" then "" else rest[1..])
  }

  /** A version, CR and LF. */
  lemma VersionLineIff(input: string)
    ensures
      var (version, rest) := ReadVersion(input, CR);
      VersionLine(input).0 == if VersionStands(input, CR) && rest != "" && rest[0] == LF then version else None
  {
    VersionReadIff(input, CR);
  }

  datatype RequestLine = RequestLine(m: Method, uri: RequestUri, version: (nat, nat))

  function ReadRequestLine(env: Environment, input: string): (Result<RequestLine>, string) {
    match ReadMethod(input)
    case (None, rest) => (Err(BadRequest), rest)
    case (Some(m), rest) =>
      match ReadUri(env, rest)
      case (Err(s), rest) => (Err(s), rest)
      case (Ok(uri), rest) =>
        match VersionLine(rest)
        case (None, rest) => (Err(BadRequest), rest)
        case (Some(version), rest) => (Ok(RequestLine(m, uri, version)), rest)
  }

  /** The request line is refused as too long exactly when the length of the URI meets the limit
      before its end; every other refusal is a bad request. */
  lemma LineRefusedIff(env: Environment, input: string)
    ensures
      var line := ReadRequestLine(env, input).0;
      var (m, rest) := ReadMethod(input);
      var n := FirstSpace(rest);
      && (line == Err(RequestUriTooLong) <==> m.Some? && LimitMet(rest[..n], MAX_REQUEST_URI_LEN) < n)
      && (line.Err? ==> line.status == RequestUriTooLong || line.status == BadRequest)
  {
    UriTooLongIff(env, ReadMethod(input).1);
  }

  lemma UriTooLongIff(env: Environment, input: string)
    ensures
      var uri := ReadUri(env, input).0;
      var n := FirstSpace(input);
      && (uri == Err(RequestUriTooLong) <==> LimitMet(input[..n], MAX_REQUEST_URI_LEN) < n)
      && (uri.Err? ==> uri.status == RequestUriTooLong || uri.status == BadRequest)
  {
    UriFromIs(input, "");
  }

  /** An ASCII URI is read exactly when it has at most 1024 octets. */
  lemma AsciiUriLimit(uri: string, rest: string)
    requires SP !in uri && Ascii(uri)
    ensures UriFrom(uri + " " + rest, "").0 == if |uri| <= 1024 then Ok(uri) else Err(RequestUriTooLong)
  {
    SpaceAfter(uri, rest);
    UriFromIs(uri + [SP] + rest, "");
    assert "" + uri == uri;
    SameIffAscii(uri);
    NoStepOver(uri, MAX_REQUEST_URI_LEN);
    LimitHoldsIff(uri, MAX_REQUEST_URI_LEN);
  }

  lemma NoStepOver(uri: string, limit: nat)
    requires Ascii(uri)
    ensures !StepsOver(uri, limit)
  {
    forall k | 0 <= k < |uri| ensures Width(uri[k]) == 1 { assert IsAscii(uri[k]); }
  }

  // ---------------------------------------------------------------- the request

  const CONNECTION_ROW: nat := 1
  const HOST_ROW: nat := 16

  ghost predicate RequestTable(table: seq<Row>) {
    && GoodTable(table) && |table| == 38
    && table[CONNECTION_ROW].kind == ListKind(ConnectionKind) && table[HOST_ROW].kind == HostKind
  }

  datatype Request = Request(m: Method, uri: RequestUri, version: (nat, nat), headers: Collection,
                             closeConnection: bool)

  /** A request with or without an error status, a client gone before the headers end, or a value
      parser that never returns. */
  datatype LoadOutcome = Loaded(request: Request, error: Option<Status>) | Disconnected | NeverLoads

  /** The loop over the Connection header. */
  function Verdict(items: seq<ListItem>, close: bool): bool {
    if items == [] then close
    else if items[0] == ConnectionItem(Close) then true
    else Verdict(items[1..], if items[0] == ConnectionItem(Token("keep-alive")) then false else close)
  }

  function ClosesAfter(headers: Collection, close: bool): bool {
    if CONNECTION_ROW < |headers.known| && headers.known[CONNECTION_ROW].Some? &&
       headers.known[CONNECTION_ROW].value.List?
    then Verdict(headers.known[CONNECTION_ROW].value.items, close)
    else close
  }

  function HasHost(headers: Collection): bool { HOST_ROW < |headers.known| && headers.known[HOST_ROW].Some? }

  function Blank(env: Environment): Request { Request(Options, Star, (0, 0), EmptyCollection(|env.table|), true) }

  function LoadHeaders(env: Environment, line: RequestLine, close: bool, input: string): (LoadOutcome, string) {
    var request := Request(line.m, line.uri, line.version, EmptyCollection(|env.table|), true);
    match ReadHeaders(env.table, input, EmptyCollection(|env.table|))
    case (Eof, _, rest) => (Disconnected, rest)
    case (Stalled, _, rest) => (NeverLoads, rest)
    case (BadSyntax, headers, rest) => (Loaded(request.(headers := headers), Some(BadRequest)), rest)
    case (AllRead, headers, rest) =>
      if line.version == (1, 1) && !HasHost(headers) then
        (Loaded(request.(headers := headers), Some(BadRequest)), rest)
      else
        (Loaded(request.(headers := headers, closeConnection := ClosesAfter(headers, close)), None), rest)
  }

  /** `Request::load`: the request and the octets it leaves. */
  function Load(env: Environment, input: string): (LoadOutcome, string) {
    match ReadRequestLine(env, input)
    case (Err(s), rest) => (Loaded(Blank(env), Some(s)), rest)
    case (Ok(line), rest) =>
      if line.version == (1, 0) then LoadHeaders(env, line, true, rest)
      else if line.version == (1, 1) then LoadHeaders(env, line, false, rest)
      else
        (Loaded(Request(line.m, line.uri, line.version, EmptyCollection(|env.table|), true),
                Some(HttpVersionNotSupported)), rest)
  }

  // ---------------------------------------------------------------- what a loaded request is

  /** The verdict: close if `Close` is anywhere in the list, else keep open if the token
      "keep-alive" is, else what the version says. */
  lemma {:induction false} VerdictIs(items: seq<ListItem>, close: bool)
    ensures Verdict(items, close) ==
              if ConnectionItem(Close) in items then true
              else if ConnectionItem(Token("keep-alive")) in items then false
              else close
  {
    if items == [] {
    } else {
      assert items == [items[0]] + items[1..];
      VerdictIs(items[1..], if items[0] == ConnectionItem(Token("keep-alive")) then false else close);
    }
  }

  /** An error status always goes with a connection to be closed. */
  lemma ErrorsClose(env: Environment, input: string)
    ensures
      var outcome := Load(env, input).0;
      outcome.Loaded? && outcome.error.Some? ==> outcome.request.closeConnection
  {}

  /** A request without an error is an HTTP/1.0 or HTTP/1.1 request, with a Host in the latter, and
      its connection is closed as the Connection header and the version say. */
  lemma GoodRequests(env: Environment, input: string)
    ensures
      var outcome := Load(env, input).0;
      outcome.Loaded? && outcome.error.None? ==>
        var r := outcome.request;
        && (r.version == (1, 0) || (r.version == (1, 1) && HasHost(r.headers)))
        && r.closeConnection == ClosesAfter(r.headers, r.version == (1, 0))
  {
    var (line, rest) := ReadRequestLine(env, input);
    if line.Ok? { GoodHeaders(env, line.value, line.value.version == (1, 0), rest); }
  }

  lemma GoodHeaders(env: Environment, line: RequestLine, close: bool, input: string)
    ensures
      var outcome := LoadHeaders(env, line, close, input).0;
      outcome.Loaded? && outcome.error.None? ==>
        var r := outcome.request;
        && r.version == line.version && (r.version == (1, 1) ==> HasHost(r.headers))
        && r.closeConnection == ClosesAfter(r.headers, close)
  {}

  /** What a list of Connection values that was read holds is in normalised header case. */
  lemma {:induction false} ConnectionTokensNormalised(v: Value, acc: seq<ListItem>)
    requires forall i :: 0 <= i < |acc| ==> NormalisedToken(acc[i])
    ensures
      var r := ListFrom(ConnectionKind, v, acc).0;
      r.Got? ==> forall i :: 0 <= i < |r.value| ==> NormalisedToken(r.value[i])
    decreases |v.text|
  {
    match ReadItem(ConnectionKind, v)
    case (Got(item), w) =>
      var token := ReadToken(v).0.value;
      NormaliseIsCanonical(token, token);
      match ConsumeComma(w) {
        case (CommaConsumed, x) => ConnectionTokensNormalised(x, acc + [item]);
        case _ =>
      }
    case _ =>
  }

  predicate NormalisedToken(item: ListItem) {
    item.ConnectionItem? && (item.connection.Token? ==> Normalise(item.connection.name) == item.connection.name)
  }

  lemma KeepAliveNotNormal()
    ensures Normalise("keep-alive") != "keep-alive"
  {}

  /** A Connection header among the headers read holds normalised tokens only. */
  predicate NormalisedConnections(headers: Collection) {
    CONNECTION_ROW < |headers.known| && headers.known[CONNECTION_ROW].Some? ==>
      headers.known[CONNECTION_ROW].value.List? &&
      forall i :: 0 <= i < |headers.known[CONNECTION_ROW].value.items| ==>
        NormalisedToken(headers.known[CONNECTION_ROW].value.items[i])
  }

  lemma {:induction false} HeadersNormalised(table: seq<Row>, input: string, coll: Collection)
    requires RequestTable(table) && NormalisedConnections(coll)
    ensures NormalisedConnections(ReadHeaders(table, input, coll).1)
    decreases |input|
  {
    ReadHeaderStops(table, input);
    var (line, rest) := ReadHeader(table, input);
    match line
    case Line(h) =>
      HeaderNormalised(table, input);
      HeadersNormalised(table, rest, InsertHeader(coll, h));
    case MalformedHeaderValue => HeadersNormalised(table, rest, coll);
    case _ =>
  }

  lemma HeaderNormalised(table: seq<Row>, input: string)
    requires RequestTable(table) && ReadHeader(table, input).0.Line?
    ensures
      var h := ReadHeader(table, input).0.header;
      h.Known? && h.index == CONNECTION_ROW ==>
        h.value.List? && forall i :: 0 <= i < |h.value.items| ==> NormalisedToken(h.value.items[i])
  {
    var raw := ScanName(NameStart, input, "").raw;
    ConnectionTokensNormalised(Value(Unfold(raw, true, false), true), []);
  }

  /** The Connection header says `close`. */
  predicate SaysClose(headers: Collection) {
    CONNECTION_ROW < |headers.known| && headers.known[CONNECTION_ROW].Some? &&
    headers.known[CONNECTION_ROW].value.List? && ConnectionItem(Close) in headers.known[CONNECTION_ROW].value.items
  }

  lemma LoadHeadersCloses(env: Environment, line: RequestLine, close: bool, input: string)
    requires RequestTable(env.table)
    ensures
      var outcome := LoadHeaders(env, line, close, input).0;
      outcome.Loaded? && outcome.error.None? ==>
        && outcome.request.version == line.version
        && (outcome.request.closeConnection <==> close || SaysClose(outcome.request.headers))
  {
    HeadersNormalised(env.table, input, EmptyCollection(38));
    CloseDecides(ReadHeaders(env.table, input, EmptyCollection(38)).1, close);
  }

  /** The token "keep-alive" has no effect: an HTTP/1.0 connection is never kept open, and an
      HTTP/1.1 connection is closed exactly when the Connection header says `close`. */
  lemma OnlyCloseMatters(env: Environment, input: string)
    requires RequestTable(env.table)
    ensures
      var outcome := Load(env, input).0;
      outcome.Loaded? && outcome.error.None? ==>
        var r := outcome.request;
        r.closeConnection <==> r.version == (1, 0) || SaysClose(r.headers)
  {
    var (line, rest) := ReadRequestLine(env, input);
    if line.Ok? {
      LoadHeadersCloses(env, line.value, true, rest);
      LoadHeadersCloses(env, line.value, false, rest);
    }
  }

  lemma CloseDecides(headers: Collection, close: bool)
    requires NormalisedConnections(headers)
    ensures ClosesAfter(headers, close) <==> close || SaysClose(headers)
  {
    if CONNECTION_ROW < |headers.known| && headers.known[CONNECTION_ROW].Some? {
      VerdictIs(headers.known[CONNECTION_ROW].value.items, close);
      KeepAliveNotNormal();
      assert !NormalisedToken(ConnectionItem(Token("keep-alive")));
    }
  }

  // ---------------------------------------------------------------- reading makes progress

  lemma {:induction false} ReadHeadersProgress(table: seq<Row>, input: string, coll: Collection)
    ensures |ReadHeaders(table, input, coll).2| <= |input|
    ensures ReadHeaders(table, input, coll).0 != Eof ==> |ReadHeaders(table, input, coll).2| < |input|
    decreases |input|
  {
    ReadHeaderStops(table, input);
    var (line, rest) := ReadHeader(table, input);
    match line
    case Line(h) => ReadHeadersProgress(table, rest, InsertHeader(coll, h));
    case MalformedHeaderValue => ReadHeadersProgress(table, rest, coll);
    case _ =>
  }

  lemma {:induction false} UriProgress(input: string, uri: string)
    ensures |UriFrom(input, uri).1| <= |input|
    decreases |input|
  {
    if input != "" && input[0] != SP && Length(uri) != MAX_REQUEST_URI_LEN {
      UriProgress(input[1..], uri + [input[0]]);
    }
  }

  lemma {:induction false} UintProgress(input: string, digits: nat, n: nat, limit: nat, next: char)
    ensures |UintFrom(input, digits, n, limit, next).1| <= |input|
    decreases |input|
  {
    if digits != limit && input != "" {
      UintProgress(input[1..], digits + 1, Wrap(n * 10 + Numbers.DigitValue(input[0])), limit, next);
    }
  }

  lemma VersionProgress(input: string)
    ensures |VersionLine(input).1| <= |input|
  {
    if |input| >= 5 {
      var r5 := input[1..][1..][1..][1..][1..];
      UintProgress(r5, 0, 0, 5, '.');
      UintProgress(ReadUint(r5, 4, '.').1, 0, 0, 5, CR);
    }
  }

  lemma RequestLineProgress(env: Environment, input: string)
    ensures
      var (line, rest) := ReadRequestLine(env, input);
      line.Ok? ==> |rest| < |input|
  {
    var (m, rest) := ReadMethod(input);
    if m.Some? {
      UriProgress(rest, "");
      VersionProgress(ReadUri(env, rest).1);
    }
  }

  /** A request that was loaded without an error took octets off the input. */
  lemma LoadProgress(env: Environment, input: string)
    ensures
      var (outcome, rest) := Load(env, input);
      outcome.Loaded? && outcome.error.None? ==> |rest| < |input|
  {
    RequestLineProgress(env, input);
    var (line, rest) := ReadRequestLine(env, input);
    if line.Ok? { ReadHeadersProgress(env.table, rest, EmptyCollection(|env.table|)); }
  }
}
