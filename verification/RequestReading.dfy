/** `RequestBuffer` and `Request::load` running over the stream, with `read_method` as the code that
    the matcher compiler emits.
 */
module RequestReading {
  import opened Octets
  import opened Utf8
  import opened Branchify
  import opened BranchifyCode
  import opened BufferedStreams
  import opened HeaderValues
  import opened Headers
  import opened HeaderReading
  import opened HeaderWriting
  import opened Common
  import opened Requests

  // ---------------------------------------------------------------- emitted code on the stream

  /** The same exit, with the octets left unread in `unread` instead of in the exit. */
  ghost predicate SameExit<R>(exit: Exit<R>, spec: Exit<R>, unread: string) {
    match spec
    case Returned(value, rest) => exit.Returned? && exit.value == value && unread == rest
    case FellBack(prefix, next, rest) => exit.FellBack? && exit.prefix == prefix && exit.next == next && unread == rest
    case Stuck => exit.Stuck?
  }

  method PickArm<R>(arms: seq<Arm<R>>, b: Option<char>, config: Config) returns (i: nat)
    ensures i == Pick(arms, b, config)
  {
    i := 0;
    while i < |arms| && !Accepts(arms[i].guard, b, config)
      invariant i <= |arms| && i + Pick(arms[i..], b, config) == Pick(arms, b, config)
    {
      i := i + 1;
    }
  }

  /** Nested matches: read an octet, take the first arm that accepts it. */
  method ExecuteMatch<R>(arms: seq<Arm<R>>, config: Config, stream: BufferedStream) returns (exit: Exit<R>)
    requires stream.Valid()
    modifies stream`readPos, stream`readMax, stream.readBuffer, stream.wrapped`incoming
    ensures stream.Valid() && SameExit(exit, RunMatch(arms, config, old(stream.Unread())), stream.Unread())
    decreases arms
  {
    var b := stream.ReadByte();
    var i := PickArm(arms, b, config);
    if i == |arms| { return Stuck; }
    exit := ExecuteArm(arms[i], b, config, stream);
  }

  method ExecuteArm<R>(arm: Arm<R>, b: Option<char>, config: Config, stream: BufferedStream) returns (exit: Exit<R>)
    requires stream.Valid()
    modifies stream`readPos, stream`readMax, stream.readBuffer, stream.wrapped`incoming
    ensures stream.Valid() && SameExit(exit, Perform(arm, b, config, old(stream.Unread())), stream.Unread())
    decreases arm
  {
    match arm.action {
      case Match(inner) => exit := ExecuteMatch(inner, config, stream);
      case Return(value) => exit := Returned(value, "");
      case FallBack(prefix) => exit := if b.Some? then FellBack(prefix, b.value, "") else Stuck;
    }
  }

  /** The fallback loop of the emitted code. */
  method ExecuteLoop<R>(start: string, config: Config, stream: BufferedStream) returns (r: Option<Found<R>>)
    requires stream.Valid()
    modifies stream`readPos, stream`readMax, stream.readBuffer, stream.wrapped`incoming
    ensures stream.Valid() && (r, stream.Unread()) == RunLoop(start, config, old(stream.Unread()))
  {
    var s := start;
    while true
      invariant stream.Valid()
      invariant RunLoop<R>(s, config, stream.Unread()) == RunLoop<R>(start, config, old(stream.Unread()))
      decreases |stream.Unread()|
    {
      var b := stream.ReadByte();
      if b == None { return None; }
      if b.value == config.end {
        return Some(Unknown(s));
      } else if config.valid(b.value) {
        if Length(s) == config.maxLen { return None; }
        s := s + [b.value];
      } else {
        return None;
      }
    }
  }

  /** `read_method`: the compiled matcher over the nine method names. */
  method ReadMethodFrom(stream: BufferedStream) returns (m: Option<Method>)
    requires stream.Valid()
    modifies stream`readPos, stream`readMax, stream.readBuffer, stream.wrapped`incoming
    ensures stream.Valid() && (m, stream.Unread()) == ReadMethod(old(stream.Unread()))
  {
    KeysAreUsable();
    MatcherReadsMethods(stream.Unread());
    var code := CompileOptions(MethodKeys(), true);
    var exit := ExecuteMatch(code, METHOD_CONFIG, stream);
    var found: Option<Found<Method>> := None;
    match exit {
      case Returned(value, _) => found := value;
      case FellBack(prefix, next, _) => found := ExecuteLoop(prefix + [next], METHOD_CONFIG, stream);
      case Stuck => assert false;
    }
    m := match found case Some(f) => Some(MethodFound(f)) case None => None;
  }

  // ---------------------------------------------------------------- the request line

  method ReadRequestUri(env: Environment, stream: BufferedStream) returns (r: Result<RequestUri>)
    requires stream.Valid()
    modifies stream`readPos, stream`readMax, stream.readBuffer, stream.wrapped`incoming
    ensures stream.Valid() && (r, stream.Unread()) == ReadUri(env, old(stream.Unread()))
  {
    var uri := "";
    while true
      invariant stream.Valid() && UriFrom(stream.Unread(), uri) == UriFrom(old(stream.Unread()), "")
      decreases |stream.Unread()|
    {
      var b := stream.ReadByte();
      match b {
        case None => return Err(BadRequest);
        case Some(c) =>
          if c == SP { break; }
          if Length(uri) == MAX_REQUEST_URI_LEN { return Err(RequestUriTooLong); }
          uri := uri + [c];
      }
    }
    r := match UriOf(uri, env.isUrl) case Some(u) => Ok(u) case None => Err(BadRequest);
  }

  method ReadRequestLineFrom(env: Environment, stream: BufferedStream) returns (r: Result<RequestLine>)
    requires stream.Valid()
    modifies stream`readPos, stream`readMax, stream.readBuffer, stream.wrapped`incoming
    ensures stream.Valid() && (r, stream.Unread()) == ReadRequestLine(env, old(stream.Unread()))
  {
    var m := ReadMethodFrom(stream);
    if m == None { return Err(BadRequest); }
    var uri := ReadRequestUri(env, stream);
    if uri.Err? { return Err(uri.status); }
    var version := ReadHttpVersion(stream, CR);
    var b := stream.ReadByte();
    r := if version.Some? && b == Some(LF) then Ok(RequestLine(m.value, uri.value, version.value)) else Err(BadRequest);
  }

  // ---------------------------------------------------------------- the request

  /** The header loop of `load`, inserting what is read into the collection. */
  method ReadHeadersFrom(table: seq<Row>, stream: BufferedStream, headers: HeaderCollection) returns (end: HeadersEnd)
    requires stream.Valid()
    modifies headers, stream`readPos, stream`readMax, stream.readBuffer, stream.wrapped`incoming
    ensures stream.Valid()
    ensures
      var spec := ReadHeaders(table, old(stream.Unread()), old(headers.View()));
      end == spec.0 && (end != Stalled ==> headers.View() == spec.1 && stream.Unread() == spec.2)
  {
    while true
      invariant stream.Valid()
      invariant ReadHeaders(table, stream.Unread(), headers.View()) ==
                  ReadHeaders(table, old(stream.Unread()), old(headers.View()))
      decreases |stream.Unread()|
    {
      ReadHeaderStops(table, stream.Unread());
      var line := ReadHeaderFrom(table, stream);
      match line {
        case Line(h) => headers.Insert(h);
        case MalformedHeaderValue =>
        case EndOfHeaders => return AllRead;
        case EndOfFile => return Eof;
        case MalformedHeaderSyntax => return BadSyntax;
        case NeverReturns => return Stalled;
      }
    }
  }

  method ConnectionVerdict(headers: Collection, close: bool) returns (r: bool)
    ensures r == ClosesAfter(headers, close)
  {
    r := close;
    if CONNECTION_ROW < |headers.known| && headers.known[CONNECTION_ROW].Some? &&
       headers.known[CONNECTION_ROW].value.List?
    {
      var items := headers.known[CONNECTION_ROW].value.items;
      for i := 0 to |items|
        invariant Verdict(items[i..], r) == Verdict(items, close)
      {
        if items[i] == ConnectionItem(Close) {
          return true;
        } else if items[i] == ConnectionItem(Token("keep-alive")) {
          r := false;
        }
      }
    }
  }

  /** `Request::load`. */
  method LoadRequest(env: Environment, stream: BufferedStream) returns (outcome: LoadOutcome)
    requires stream.Valid()
    modifies stream`readPos, stream`readMax, stream.readBuffer, stream.wrapped`incoming
    ensures stream.Valid() && outcome == Load(env, old(stream.Unread())).0
    ensures outcome.Loaded? ==> stream.Unread() == Load(env, old(stream.Unread())).1
  {
    var line := ReadRequestLineFrom(env, stream);
    match line {
      case Err(status) => return Loaded(Blank(env), Some(status));
      case Ok(l) =>
        if l.version == (1, 0) {
          outcome := LoadHeadersFrom(env, l, true, stream);
        } else if l.version == (1, 1) {
          outcome := LoadHeadersFrom(env, l, false, stream);
        } else {
          outcome := Loaded(Request(l.m, l.uri, l.version, EmptyCollection(|env.table|), true),
                            Some(HttpVersionNotSupported));
        }
    }
  }

  method LoadHeadersFrom(env: Environment, line: RequestLine, close: bool, stream: BufferedStream)
    returns (outcome: LoadOutcome)
    requires stream.Valid()
    modifies stream`readPos, stream`readMax, stream.readBuffer, stream.wrapped`incoming
    ensures stream.Valid() && outcome == LoadHeaders(env, line, close, old(stream.Unread())).0
    ensures outcome.Loaded? ==> stream.Unread() == LoadHeaders(env, line, close, old(stream.Unread())).1
  {
    var headers := new HeaderCollection(|env.table|);
    var end := ReadHeadersFrom(env.table, stream, headers);
    var request := Request(line.m, line.uri, line.version, headers.View(), true);
    match end {
      case Eof => outcome := Disconnected;
      case Stalled => outcome := NeverLoads;
      case BadSyntax => outcome := Loaded(request, Some(BadRequest));
      case AllRead =>
        if line.version == (1, 1) && !HasHost(headers.View()) {
          outcome := Loaded(request, Some(BadRequest));
        } else {
          var verdict := ConnectionVerdict(headers.View(), close);
          outcome := Loaded(request.(closeConnection := verdict), None);
        }
    }
  }
}
