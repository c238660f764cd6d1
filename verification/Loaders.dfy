/** What the keep-alive loop reads from a connection, for any way of loading one request that makes
    progress; and that `Request::load` is one.
 */
module Loaders {
  import opened Octets
  import opened Utf8
  import opened Headers
  import opened Requests

  /** From the octets to come: what is loaded, and the octets it leaves. */
  type Loader = string -> (LoadOutcome, string)

  ghost predicate OneLineError(outcome: LoadOutcome) {
    outcome.Loaded? && outcome.error.Some? ==> OneLine(StatusText(outcome.error.value))
  }

  ghost predicate OneLineErrors(outcomes: seq<LoadOutcome>) {
    forall i :: 0 <= i < |outcomes| ==> OneLineError(outcomes[i])
  }

  /** An error closes the connection and prints on one line; anything else takes octets. */
  ghost predicate GoodOutcome(outcome: LoadOutcome, rest: string, input: string) {
    && OneLineError(outcome)
    && (outcome.Loaded? && outcome.error.Some? ==> outcome.request.closeConnection)
    && (outcome.Loaded? && outcome.error.None? ==> |rest| < |input|)
  }

  ghost predicate GoodLoader(load: Loader) { forall input :: GoodOutcome(load(input).0, load(input).1, input) }

  /** What the connection loop reads from the input, up to the request after which it stops. */
  ghost function Reads(load: Loader, input: string): (read: seq<LoadOutcome>)
    requires GoodLoader(load)
    ensures read != []
    decreases |input|
  {
    var (outcome, rest) := load(input);
    assert GoodOutcome(outcome, rest, input);
    if !outcome.Loaded? || outcome.request.closeConnection then [outcome] else [outcome] + Reads(load, rest)
  }

  /** What is answered: all that is read, but for a last request that never came to be. */
  ghost function Served(load: Loader, input: string): seq<LoadOutcome>
    requires GoodLoader(load)
  {
    var read := Reads(load, input);
    if read[|read| - 1].Loaded? then read else read[..|read| - 1]
  }

  /** A request after which the next one is read. */
  predicate KeepsOpen(outcome: LoadOutcome) {
    outcome.Loaded? && !outcome.request.closeConnection && outcome.error == None
  }

  /** The last request on a connection is the first that closes it; an error is always that. */
  lemma {:induction false} OnlyLastCloses(load: Loader, input: string)
    requires GoodLoader(load)
    ensures
      var read := Reads(load, input);
      && (forall i :: 0 <= i < |read| - 1 ==> KeepsOpen(read[i]))
      && !KeepsOpen(read[|read| - 1])
    decreases |input|
  {
    var (outcome, rest) := load(input);
    assert GoodOutcome(outcome, rest, input);
    if KeepsOpen(outcome) { OnlyLastCloses(load, rest); }
  }

  lemma {:induction false} ErrorsAreOneLine(load: Loader, input: string)
    requires GoodLoader(load)
    ensures forall i :: 0 <= i < |Reads(load, input)| ==> OneLineError(Reads(load, input)[i])
    decreases |input|
  {
    var (outcome, rest) := load(input);
    assert GoodOutcome(outcome, rest, input);
    if outcome.Loaded? && !outcome.request.closeConnection { ErrorsAreOneLine(load, rest); }
  }

  lemma ServedErrorsAreOneLine(load: Loader, input: string)
    requires GoodLoader(load)
    ensures OneLineErrors(Served(load, input))
  {
    ErrorsAreOneLine(load, input);
  }

  /** One turn of the keep-alive loop, after the requests in `before`. */
  lemma ReadsGrow(load: Loader, before: seq<LoadOutcome>, input: string, read: seq<LoadOutcome>)
    requires GoodLoader(load) && before + Reads(load, input) == read
    ensures
      var (outcome, rest) := load(input);
      && read != []
      && (!outcome.Loaded? ==> !read[|read| - 1].Loaded? && before == read[..|read| - 1])
      && (outcome.Loaded? && outcome.request.closeConnection ==>
            read[|read| - 1].Loaded? && before + [outcome] == read)
      && (outcome.Loaded? && !outcome.request.closeConnection ==>
            |rest| < |input| && before + [outcome] + Reads(load, rest) == read)
  {
    var (outcome, rest) := load(input);
    assert GoodOutcome(outcome, rest, input);
    if outcome.Loaded? && !outcome.request.closeConnection { Associative(before, [outcome], Reads(load, rest)); }
  }

  // ---------------------------------------------------------------- Request::load

  /** `Request::load` in an environment. */
  function LoaderOf(env: Environment): (load: Loader)
    ensures GoodLoader(load)
  {
    LoadIsGood(env);
    (input: string) => Load(env, input)
  }

  lemma LoadIsGood(env: Environment)
    ensures forall input :: GoodOutcome(Load(env, input).0, Load(env, input).1, input)
  {
    forall input ensures GoodOutcome(Load(env, input).0, Load(env, input).1, input) { GoodLoad(env, input); }
  }

  lemma GoodLoad(env: Environment, input: string)
    ensures GoodOutcome(Load(env, input).0, Load(env, input).1, input)
  {
    LoadProgress(env, input);
    ErrorsClose(env, input);
    LoadErrors(env, input);
    var outcome := Load(env, input).0;
    if outcome.Loaded? && outcome.error.Some? { LoadErrorIsOneLine(outcome.error.value); }
  }

  predicate VisibleAt(s: string, i: nat)
    requires i < |s|
  {
    s[i] >= ' '
  }

  predicate Visible(s: string) { forall i :: 0 <= i < |s| ==> VisibleAt(s, i) }

  lemma VisibleIsOneLine(s: string)
    requires Visible(s)
    ensures OneLine(s)
  {
    forall i | 0 <= i < |s| ensures s[i] != CR && s[i] != LF { assert VisibleAt(s, i); }
  }

  predicate IsLoadError(status: Status) {
    status == BadRequest || status == RequestUriTooLong || status == HttpVersionNotSupported
  }

  lemma LoadErrorIsOneLine(status: Status)
    requires IsLoadError(status)
    ensures OneLine(StatusText(status))
  {
    BadRequestIsVisible();
    TooLongIsVisible();
    NotSupportedIsVisible();
    VisibleIsOneLine(StatusText(status));
  }

  lemma BadRequestIsVisible()
    ensures Visible(StatusText(BadRequest))
  {}

  lemma TooLongIsVisible()
    ensures Visible(StatusText(RequestUriTooLong))
  {}

  lemma NotSupportedIsVisible()
    ensures Visible(StatusText(HttpVersionNotSupported))
  {}

  lemma RequestLineErrors(env: Environment, input: string)
    ensures
      var line := ReadRequestLine(env, input).0;
      line.Err? ==> line.status == BadRequest || line.status == RequestUriTooLong
  {
    UriErrors(ReadMethod(input).1, "");
  }

  lemma LoadErrors(env: Environment, input: string)
    ensures
      var outcome := Load(env, input).0;
      outcome.Loaded? && outcome.error.Some? ==>
        IsLoadError(outcome.error.value)
  {
    RequestLineErrors(env, input);
  }

  lemma {:induction false} UriErrors(input: string, uri: string)
    ensures
      var r := UriFrom(input, uri).0;
      r.Err? ==> r.status == BadRequest || r.status == RequestUriTooLong
    decreases |input|
  {
    if input != "" && input[0] != SP && Length(uri) != MAX_REQUEST_URI_LEN {
      UriErrors(input[1..], uri + [input[0]]);
    }
  }
}
