# HTTP/1.x server core, modelled and proved in Dafny

The project models the hard core of a Rust HTTP/1.x library and proves what that core is for: the
matcher compiler behind the request line, the buffered stream with its chunked writer, the reader
and the printer of typed headers, the response writer, and the keep-alive loop that drives all of
them over one connection. `dafny verify dfyconfig.toml` checks everything.

Main results, each for all inputs:

* **Compiler correctness.** The code that `branchify` emits for a list of keys is an abstract syntax
  tree with an interpreter; on every input it gives the result of "read a word up to the end octet, check
  its length, look it up" and leaves the same octets unread (`Branchify.MatcherRefinesReference`). For
  usable keys this holds *if and only if* every key is shorter than the limit, no octet can step over the
  limit, and `end` is SP or there is no key to match (`Branchify.MatcherCorrectIffRoom`). The assertion
  inside the trie builder holds if and only if the keys are distinct
  (`BranchifyCode.AssertionsHoldIffDistinct`).
* **Whole connections.** For every input, every fragmentation of it and every handler whose calls do not
  fail, whatever it answers to equal requests in different turns, the connection loop puts exactly one
  response per turn on the wire, in order, with nothing buffered and chunked mode off in between, and stops
  at the first request that closes (`Server.ServeConnection`). A turn has a request unless the stream ends
  where one should begin; that turn is answered with a 400. A client that takes responses off the wire gets
  each status, header collection and body back and nothing else (`Server.ClientReceivesAnswers`): the head
  that the handler's calls set before the first that prints, and all octets that the calls write, in order
  (`HandlerCalls.HeadIsPrinted`, `HandlerCalls.BodyIsWritten`), or the status of the refusal.
* **Conversations.** A request that a client prints is loaded as it was meant and leaves what follows it
  unread, or refused with the status that fits (`Conversations.RequestIsLoaded`); requests sent one after the other are read each once and in
  order (`Conversations.PipelineIsRead`). A client that sends requests of which at most the last closes,
  and then hangs up, receives the handler's answer to each of them, in order, and one more response, a 400
  that answers none of them, *if and only if* its last request does not close the connection
  (`Conversations.ConversationIsAnswered`; end to end over one connection in `Conversations.Converse`).
* **Header collections.** Writing a collection and reading headers until their end rebuilds the
  collection and leaves exactly the body (`Headers.CollectionRoundTrip` on octets,
  `Encoding.WrittenCollectionReadsBackIff` on texts: if and only if it prints as ASCII); single values read
  back exactly under conditions that are proved necessary as well (`HeaderValues.MediaReadsBack`,
  `HeaderValues.ListReadBack`, `HostAndRanges.HostReadsBack`, `HostAndRanges.RangesReadBack`,
  `Encoding.TextReadsBackIff`).
* **Header loops.** Of any input cut into header lines the loop keeps the headers in order, passes over
  malformed values wherever they stand and ends as the first other line says
  (`HeaderLoops.LoopKeepsHeaders`, `HeaderLoops.EveryInputIsCut`); of repeated headers the last one counts
  (`HeaderLoops.LastTypedCounts`, `HeaderLoops.LastNamedCounts`).
* **Header framing.** Whatever a value parser does, the stream is left after the first LF past the colon
  that no SP or HT follows (`Headers.ReadHeaderStops`, `HeaderReading.ReadLineWith`), and what
  the iterator yields is a declarative unfolding (`HeaderIterators.UnfoldingIsDeclarative`).

## How the model is built

| module | models |
|---|---|
| `Octets`, `Numbers`, `Utf8` | character classes of RFC 2616, numerals, texts as octets |
| `Branchify`, `BranchifyCode` | trie, emitted code and its interpreter; the builder in place and the generator |
| `Chunked`, `BufferedStreams` | the Chunked-Body of section 3.6.1 of RFC 2616; `BufferedStream` over a transport |
| `Serialization` | header names, quoting, parameters |
| `HeaderIterators`, `HeaderParsing`, `HeaderValues`, `HeaderGrammar`, `HostAndRanges` | the iterator, its combinators, the typed values and what is accepted beyond their printed forms |
| `Headers`, `HeaderLoops`, `Encoding`, `HeaderReading`, `HeaderWriting`, `HeaderTables` | header lines, loops over them, collections, tables; their octets; the same over a stream |
| `Common`, `Requests`, `RequestReading` | numbers and versions, the request line, `Request::load` |
| `Messages`, `Responses`, `HandlerCalls`, `ResponseWriting` | messages in sequence, response drafts and the wire, what calls amount to, `ResponseWriter` |
| `Loaders`, `Server` | what is read from a connection, the connection loop |
| `Conversations`, `Examples` | printed requests, and both ends of a connection; forms that the source writes out |

Code that updates state is a class or a method with loops, and is proved equal to a function of the
octets still to be read (`Unread`) or of the state before; the properties are proved about those
functions.

* An octet is the Dafny `char` with the same code, which is what `b as char` makes of it, so octets and
  text are both `string`. A text is written as its UTF-8 octets (`Utf8.Encode`) and `len()` counts those
  octets (`Utf8.Length`), so an octet beyond ASCII that is read counts twice.
* The wrapped reader is `Transport`: at the end of the stream it yields nothing, otherwise any number of
  octets from 1 to the buffer's size, chosen freely. Buffer sizes are parameters of at least 1.
* `fail!` and `assert!` are preconditions or are proved never to fail. A handler is any function from
  turns and requests to a list of calls; `GoodHandler` says that none of them fails: the head is not
  written twice and no non-token stands where a token is asserted.
* The loop over an unquoted parameter value does not leave a separator
  (`src/libhttp/headers/mod.rs:384-399`). The outcome `Hang` stands for that; it is proved to be reported
  exactly where the loop never ends, and it is carried up to `NeverLoads` for the request.
* Dates and URLs are converted by code outside the repository; they are `ForeignKind(accepts)`: the whole
  text, and an arbitrary predicate that accepts it or not.
* A `TreeMap` is a sequence sorted by key; `InsertIsUpdate` proves that it behaves as a map.
* `uint` has 64 bits and its wrap-around is written out in `Common`.

Where code and comments disagree the model follows the code, and the exact condition under which the
comment holds is proved:

* A value has no leading white space, `src/libhttp/headers/mod.rs:515` says; it has some exactly when the
  header is folded before any content (`HeaderIterators.StartsBlankIffFolded`), and then the readers of
  entity tags, media types and lists refuse it (`HeaderValues.LeadingBlankIsRefused`,
  `HeaderValues.FoldedTagIsRefused`).
* The field comment at `src/libhttp/headers/mod.rs:151` promises a saved octet in the finished state; there
  is none exactly when the stream ends with the header (`HeaderReading.ReadLineWith`).
* `end` is to mark the end of a word (`src/libhttp/codegen/branchify.rs:75`), but the nested matches compare
  with SP whatever `end` is (line 106): `Branchify.MatcherCorrectIffRoom`, `Branchify.EndIsIgnoredAt`.
* The limits on the length of a URI and of an unknown word are tested for equality only, and a character
  beyond ASCII adds two: `Requests.LimitHoldsIff`, `Requests.LimitNeverApplies`,
  `Branchify.LimitIsSteppedOver`.
* A handler may call `finish_response` itself; what it writes after that in chunked mode stands raw on the
  wire (`HandlerCalls.TrailsIffWritesLate`, `Responses.DecodesIffNothingTrails`,
  `HandlerCalls.LateWriteBreaksTheWire`).
* Connection tokens are normalised when they are read, but `src/libhttp/server/request.rs:269` compares
  with "keep-alive". `Requests.OnlyCloseMatters` proves the consequence: an HTTP/1.0 connection is never
  kept open, and an HTTP/1.1 connection is closed exactly when the header says `close`.
* `is_token` holds of the empty string, so an empty parameter value is printed as nothing and does not
  read back; this is part of the condition `ReadsBack`.
* Range units are printed with nothing between them and at most one is read
  (`HostAndRanges.RangesReadBack`).

## Model

| member | source | states |
|---|---|---|
| `Branchify.BuildIsFind` | src/libhttp/codegen/branchify.rs:23-59 | the trie built from any list of usable keys answers every word as a search of the list does, and its branches keep the invariant `Sound` |
| `Branchify.LookupInsert` | src/libhttp/codegen/branchify.rs:26-52 | inserting a key changes the answer for that key (up to case, if so asked) and for no other word |
| `Branchify.MatchIsWalk` | src/libhttp/codegen/branchify.rs:91-114 | running the nested arms emitted for a trie is walking the trie, octet by octet |
| `Branchify.NodeContinues` | src/libhttp/codegen/branchify.rs:91-145 | where words end at SP, from any node of the trie the emitted code finishes as the reference does after the prefix of that node |
| `Branchify.MatcherRefinesReference` | src/libhttp/codegen/branchify.rs:23-145 | on every input the compiled matcher returns what "read a valid word up to the end octet, check its length, look it up" returns and leaves the same octets unread; no match lacks an arm |
| `Branchify.EndIsIgnored` | src/libhttp/codegen/branchify.rs:105-109 | with `end` other than SP and any key there is an input on which the code ends a word at SP and the reference does not |
| `Branchify.EndIsIgnoredAt` | src/libhttp/codegen/branchify.rs:105-109 | at key "A", end ":" and input "A " the code returns the key and the reference nothing |
| `Branchify.LimitIsNeeded` | src/libhttp/codegen/branchify.rs:132-141 | a key as long as the limit gives an input on which the emitted code accepts a word over the limit |
| `Branchify.LimitIsSteppedOver` | src/libhttp/codegen/branchify.rs:136-140 | where valid octets beyond ASCII can step over the limit, there is an input on which the code accepts a word over it |
| `Branchify.MatcherCorrectIffRoom` | src/libhttp/codegen/branchify.rs:81-145 | the compiled matcher equals the reference on all inputs if and only if the limit exceeds the length of every key, cannot be stepped over, and `end` is SP or no key is non-empty |
| `BranchifyCode.OccupiedIffRepeated` | src/libhttp/codegen/branchify.rs:47-50 | inserting a key would overwrite a result exactly when the same key was inserted before |
| `BranchifyCode.AssertionsHoldIffDistinct` | src/libhttp/codegen/branchify.rs:48-56 | the assertion of `go_down_moses` never fails if and only if no two keys are the same |
| `BranchifyCode.Branch.GoDownMoses` | src/libhttp/codegen/branchify.rs:26-52 | growing the trie in place gives the trie of the inserted key, with children that share nothing |
| `BranchifyCode.Branch.ChildFor` | src/libhttp/codegen/branchify.rs:30-35 | the first child that matches the letter, or none of them does |
| `BranchifyCode.Branch.AddChild` | src/libhttp/codegen/branchify.rs:36-45 | a new last child that holds only the rest of the key |
| `BranchifyCode.Branch.GrowChild` | src/libhttp/codegen/branchify.rs:30-33 | the key goes into one child and the others are unchanged |
| `BranchifyCode.BranchifyOptions` | src/libhttp/codegen/branchify.rs:54-58 | for distinct keys the loop builds the trie of all options without a failed assertion |
| `BranchifyCode.WriteBranch` | src/libhttp/codegen/branchify.rs:91-114 | the loops over octets and children write the arms of a branch |
| `BranchifyCode.GenerateBranchifiedMethod` | src/libhttp/codegen/branchify.rs:81-145 | the arms of the outermost match are written in order |
| `BranchifyCode.CompileOptions` | src/libhttp/codegen/branchify.rs:23-145 | from distinct keys to code that is the reference matcher for every configuration and every input |
| `RequestReading.ExecuteMatch` | src/libhttp/codegen/branchify.rs:91-114 | the emitted matches, executed on the stream, consume and return what the interpreter says |
| `RequestReading.ExecuteLoop` | src/libhttp/codegen/branchify.rs:130-144 | the fallback loop, executed on the stream, collects the rest of an unknown word up to the limit |
| `Chunked.DecodeFrames` | src/libhttp/buffer.rs:100-105 | non-empty chunks closed by the last chunk decode to their data and leave what follows untouched |
| `Chunked.WriteFramed` | src/libhttp/buffer.rs:131-165 | a write in chunked mode keeps the wire a sequence of whole non-empty chunks that with the buffer make up the body |
| `Chunked.FlushFramed` | src/libhttp/buffer.rs:167-182 | a flush keeps that invariant, empties the buffer and never sends a zero chunk |
| `Chunked.FinishFramed` | src/libhttp/buffer.rs:100-105 | finishing closes the chunks with the only zero chunk |
| `Chunked.ChunkedRunDecodes` | src/libhttp/buffer.rs:100-182 | any writes and flushes in chunked mode, then `finish_response`, send a Chunked-Body without an early zero chunk that decodes, with nothing over, to all that was written |
| `BufferedStreams.BufferedStream.PokeByte` | src/libhttp/buffer.rs:55-62 | the octet is read next and nothing else changes; allowed after every byte read |
| `BufferedStreams.BufferedStream.FillBuffer` | src/libhttp/buffer.rs:65-79 | the octets to come stay the same however many the wrapped reader delivers |
| `BufferedStreams.BufferedStream.ReadByte` | src/libhttp/buffer.rs:84-91 | the first of the octets to come, or nothing exactly at their end; a push-back is possible afterwards |
| `BufferedStreams.BufferedStream.Read` | src/libhttp/buffer.rs:113-122 | a non-empty prefix of the octets to come that fits the buffer, or nothing exactly at their end |
| `BufferedStreams.BufferedStream.Write` | src/libhttp/buffer.rs:131-165 | the octets are kept, or sent with the buffer as one piece, framed as one chunk in chunked mode |
| `BufferedStreams.BufferedStream.WriteThrough` | src/libhttp/buffer.rs:132-147 | the pieces written one after the other are one chunk of buffer and argument together |
| `BufferedStreams.BufferedStream.Store` | src/libhttp/buffer.rs:148-164 | the buffer takes the octets and is sent as soon as it is full |
| `BufferedStreams.BufferedStream.Flush` | src/libhttp/buffer.rs:167-182 | what is buffered is sent, as one chunk in chunked mode; nothing is sent for an empty buffer |
| `BufferedStreams.BufferedStream.FinishResponse` | src/libhttp/buffer.rs:100-105 | the buffer is sent, then the last chunk in chunked mode |
| `BufferedStreams.ReadInterleaved` | src/libhttp/buffer.rs:50-122 | every interleaving of byte reads, block reads and push-backs behaves as one plain sequence of octets, and no push-back fails |
| `BufferedStreams.ReadsIgnoreFragments` | src/libhttp/buffer.rs:50-122 | however the wrapped reader cuts up its data, two runs of the same calls whose block reads have the same sizes give the same results |
| `Serialization.NormaliseHeaderName` | src/libhttp/headers/serialization_utils.rs:24-37 | the loop computes the normal form |
| `Serialization.NormaliseIsCanonical` | src/libhttp/headers/serialization_utils.rs:8-37 | normalising is idempotent, and two names have the same normal form if and only if they are equal ignoring case |
| `Serialization.NormaliseIs` | src/libhttp/headers/serialization_utils.rs:10-15 | the normal form letter by letter: upper case at the start and after a hyphen, lower case elsewhere |
| `Serialization.PushQuotedString` | src/libhttp/headers/serialization_utils.rs:164-176 | the text is appended between quotes with quotes and backslashes escaped |
| `Serialization.EscapeLength` | src/libhttp/headers/serialization_utils.rs:168-173 | nothing is escaped but quotes and backslashes, each by one more character |
| `Serialization.PushMaybeQuotedString` | src/libhttp/headers/serialization_utils.rs:145-152 | a token is appended as it is, anything else quoted |
| `Serialization.PushParameters` | src/libhttp/headers/serialization_utils.rs:216-229 | every parameter is appended after a semicolon, in order |
| `Serialization.UnquoteString` | src/libhttp/headers/serialization_utils.rs:184-204 | the loop is the state machine `Unquote`; shorter strings fail at the reservation |
| `Serialization.UnquoteIffQuoted` | src/libhttp/headers/serialization_utils.rs:183-204 | a string is accepted, with meaning t, if and only if it is a quote, plain or escaped characters that mean t, and a closing quote at the end |
| `Serialization.QuoteRoundTrip` | src/libhttp/headers/serialization_utils.rs:155-213 | unquoting undoes quoting, and unquoting if needed undoes quoting if needed, for every string |
| `HeaderIterators.UnfoldingIsDeclarative` | src/libhttp/headers/mod.rs:438-505 | the octets yielded are those before the first LF that no blank follows, without CR and LF and without leading blanks that do not directly follow an LF; what is left is what follows that LF |
| `HeaderIterators.HeaderEndIsFirst` | src/libhttp/headers/mod.rs:472-497 | the end of a header is the first LF that no SP or HT follows |
| `HeaderIterators.StartsBlankIffFolded` | src/libhttp/headers/mod.rs:458-490 | the value starts with a blank if and only if a blank follows an LF before any content |
| `HeaderIterators.HeaderValueByteIterator.Next` | src/libhttp/headers/mod.rs:438-505 | yields the first octet of the unfolded value; afterwards nothing is saved and the state is normal, so a push-back cannot fail; once finished the saved octet is never overwritten; what follows the header is kept |
| `HeaderIterators.HeaderValueByteIterator.PushBack` | src/libhttp/headers/mod.rs:250-256 | the octet just read comes next again; the assertion before it holds |
| `HeaderParsing.ConsumeOptionalLws` | src/libhttp/headers/mod.rs:229-262 | blanks are skipped and the first octet after them is given back |
| `HeaderParsing.ConsumeCommaLws` | src/libhttp/headers/mod.rs:268-282 | a comma with blanks around it, the end, or an error that loses one octet |
| `HeaderParsing.VerifyConsumed` | src/libhttp/headers/mod.rs:190-193 | the method is the function `Consumed` of the value to come |
| `HeaderGrammar.ConsumedIffBlank` | src/libhttp/headers/mod.rs:190-193 | a value counts as consumed if and only if nothing but blanks is left of it |
| `HeaderParsing.CollectToStr` | src/libhttp/headers/mod.rs:208-223 | the whole rest of the value, leaving the iterator finished |
| `HeaderParsing.CollectAll` | src/libhttp/headers/mod.rs:208-223 | collecting yields every octet of the value and leaves none |
| `HeaderParsing.ReadTokenFrom` | src/libhttp/headers/mod.rs:410-434 | the token octets up to a separator, which is given back |
| `Octets.TokenItemsAre` | src/libhttp/rfc2616.rs:93-97 | the token characters are the letters, the digits and fifteen others, one by one |
| `HeaderGrammar.ReadTokenIs` | src/libhttp/headers/mod.rs:410-434 | past the start of a value a token is the token characters up to the first separator, which is left to be read; other octets are dropped; without token characters there is none |
| `HeaderParsing.ReadQuotedString` | src/libhttp/headers/mod.rs:288-308 | the loop is the state machine `ReadQuoted` over the value |
| `HeaderParsing.ReadTokenOrQuotedString` | src/libhttp/headers/mod.rs:360-405 | a quoted string or an unquoted one, with `Hang` where the loop does not end |
| `HeaderParsing.HangIsForever` | src/libhttp/headers/mod.rs:384-399 | `Hang` is reported if and only if the loop goes on for any number of turns |
| `HeaderParsing.HangIffSeparator` | src/libhttp/headers/mod.rs:384-399 | past the start of a value the loop never ends if and only if a separator is still to come |
| `HeaderGrammar.UnquotedIs` | src/libhttp/headers/mod.rs:384-404 | an unquoted value that ends is all its token characters, and is refused if there are none |
| `HeaderParsing.ReadParameterFrom` | src/libhttp/headers/mod.rs:310-330 | a key, an equals sign and a value, with blanks anywhere between them |
| `HeaderParsing.ReadParametersFrom` | src/libhttp/headers/mod.rs:336-355 | parameters up to the first octet that is not a semicolon, which is given back without failing |
| `HeaderGrammar.SpacedParameterReads` | src/libhttp/headers/mod.rs:310-330 | blanks around the key and the value of a quoted parameter are skipped |
| `HeaderValues.TokenReads` | src/libhttp/headers/mod.rs:410-434 | a non-empty token before a separator or the end reads back and leaves what follows |
| `HeaderValues.QuotedReads` | src/libhttp/headers/mod.rs:288-308 | an escaped text and a quote read back as the text and leave what follows |
| `HeaderValues.StreamingAgrees` | src/libhttp/headers/mod.rs:288-308 | the streaming quoted-string reader and `unquote_string` accept the same texts with the same meaning |
| `HeaderValues.LeadingBlankIsRefused` | src/libhttp/headers/mod.rs:410-434 | a value that starts with a blank is refused as an entity tag, a media type and any list |
| `HeaderValues.FoldedTagIsRefused` | src/libhttp/headers/etag.rs:35-48 | an entity tag on a folded line of its own is refused |
| `HeaderValues.ParametersReadBack` | src/libhttp/headers/mod.rs:310-405 | printed parameters read back as themselves if no value is empty and only the last thing in the header is printed without quotes, and otherwise are not read at all |
| `HeaderValues.MediaReadsBack` | src/libhttp/headers/content_type.rs:35-66 | a media type of tokens reads back from its printed form if and only if its parameters do |
| `HeaderGrammar.MediaReadsIffBlank` | src/libhttp/headers/content_type.rs:35-59 | a media type without parameters reads as itself if blanks and nothing else follow it, and is refused otherwise |
| `HeaderValues.TagReadsBack` | src/libhttp/headers/etag.rs:35-65 | every weak or strong entity tag reads back from its printed form |
| `HeaderGrammar.TagReadsIffBlank` | src/libhttp/headers/etag.rs:35-58 | a tag marked weak in either case reads as itself if blanks and nothing else follow it, and is refused otherwise |
| `HeaderValues.MethodReadsBack` | src/libhttp/method.rs:88-102 | the printed name of a method is a token that names the method |
| `HeaderValues.ConnectionReadsBack` | src/libhttp/headers/connection.rs:29-54 | the printed form of `Close` or of a normalised token is a token that reads as it |
| `HeaderGrammar.ConnectionIs` | src/libhttp/headers/connection.rs:29-40 | the token "close" in any case closes; any other token is kept in normal form |
| `HeaderGrammar.CodingIs` | src/libhttp/headers/transfer_encoding.rs:22-38 | the coding "chunked" in any case is chunked and takes no parameters; any other is an extension in lower case |
| `HeaderValues.ItemReads` | src/libhttp/headers/transfer_encoding.rs:22-48 | a list item before a comma or the end reads back and leaves what follows, or, for parameters that do not read back, is not read |
| `HeaderValues.ListReadBack` | src/libhttp/headers/mod.rs:554-590 | a non-empty list of connection values, methods or transfer codings reads back from its comma-joined form if and only if every item does where it stands |
| `HeaderGrammar.SpacedListReads` | src/libhttp/headers/mod.rs:555-569 | a list reads as itself whatever blanks stand around its commas and at its end |
| `HeaderGrammar.ListRefusesJunk` | src/libhttp/headers/mod.rs:275-277 | a list is refused where anything but blanks and a comma follows an item |
| `HeaderGrammar.MissingItemIsRefused` | src/libhttp/headers/mod.rs:558-561 | a list is refused where an item is missing: empty, after a comma or before one |
| `HostAndRanges.HostReadsBack` | src/libhttp/headers/host.rs:17-44 | a host with any port reads back from its printed form if and only if its name holds no colon |
| `HostAndRanges.BadPortIsDropped` | src/libhttp/headers/host.rs:31-38 | what follows the colon and is no port is dropped, and the host is kept |
| `HostAndRanges.RangesReadAreGood` | src/libhttp/headers/accept_ranges.rs:21-38 | of any value at most one unit is read, a lower-case token that is neither "bytes" nor "none" unless it means that |
| `HostAndRanges.RangesReadBack` | src/libhttp/headers/accept_ranges.rs:21-66 | acceptable ranges read back from their printed form if and only if they are none, empty or one lower-case unit |
| `Headers.Dispatch` | src/libhttp/headers/mod.rs:1002-1011 | the first row with that input name, or no row has it |
| `Headers.ReadHeaderStops` | src/libhttp/headers/mod.rs:96-130 | a header that was read or found malformed leaves exactly what follows the first LF past the first colon that no blank follows; every call but one at the end of the file shortens the input |
| `HeaderLoops.NameIs` | src/libhttp/headers/mod.rs:98-117 | what a header line starts with, for every input: the end of the headers by CRLF or LF, or a name, any spaces and a colon, or bad syntax, or the end of the stream |
| `HeaderLoops.CaseOfNameIsIgnored` | src/libhttp/headers/mod.rs:119-119 | names that differ only in case read as the same header, whether it has a row or not |
| `HeaderLoops.ForeignRefusedIff` | src/libhttp/headers/mod.rs:618-621 | a foreign value is refused if and only if the foreign code refuses its text |
| `HeaderLoops.NotANumber` | src/libhttp/headers/mod.rs:608-611 | a number header whose value is empty, not all digits or over 64 bits is a malformed value wherever it stands |
| `Headers.HeaderReadsBack` | src/libhttp/headers/mod.rs:970-1011 | a printed header reads back as itself and leaves exactly what was printed after it |
| `Headers.OctetsReadBackIff` | src/libhttp/headers/mod.rs:438-505 | octets after the colon read back as they are if and only if there is no CR or LF among them and no blank at their start |
| `Headers.InsertIsUpdate` | src/libhttp/headers/mod.rs:900-905 | inserting an extension header keeps the keys in order and sets that key and no other |
| `HeaderLoops.LastTypedCounts` | src/libhttp/headers/mod.rs:902-902 | of repeated typed headers the last one inserted counts |
| `HeaderLoops.OthersStay` | src/libhttp/headers/mod.rs:902-902 | a row that no inserted header is for stays as it was |
| `HeaderLoops.LastNamedCounts` | src/libhttp/headers/mod.rs:903-903 | of extension headers with the same name the last one inserted counts |
| `HeaderLoops.OtherKeysStay` | src/libhttp/headers/mod.rs:903-903 | a name that no inserted header has stays as it was |
| `HeaderLoops.LastPrintedCounts` | src/libhttp/server/request.rs:237-253 | of repeated headers on the wire the last one is what is read |
| `Headers.ReadHeadersSorted` | src/libhttp/server/request.rs:237-253 | whatever is read, the extension headers collected have distinct keys in order |
| `Headers.RebuildCollection` | src/libhttp/headers/mod.rs:900-952 | inserting what a collection's iterator yields into an empty collection rebuilds it |
| `HeaderLoops.HeadersAreInOrder` | src/libhttp/headers/mod.rs:931-952 | a collection yields its headers in order, typed ones by row and then extensions by key, none missing and none twice |
| `Headers.CollectionRoundTrip` | src/libhttp/headers/mod.rs:900-1011 | printing a collection of octet values and reading headers until their end rebuilds the collection and leaves exactly the body |
| `Encoding.ValueOctets` | src/libhttp/headers/mod.rs:536-590 | `to_stream` and `http_value` send the same octets: the octets of the printed text are the text printed from the octets |
| `Encoding.SameValueIffAscii` | src/libhttp/headers/mod.rs:208-223 | a value is the value of its octets if and only if it prints as ASCII |
| `Encoding.WrittenValueReadsBackIff` | src/libhttp/headers/mod.rs:554-616 | a written value reads back as the value of its octets, and so as itself if and only if it prints as ASCII |
| `Encoding.WrittenCollectionReadsBackIff` | src/libhttp/headers/mod.rs:900-1011 | a written collection reads back as the collection of its octets and leaves the body, and so is rebuilt if and only if it prints as ASCII |
| `Encoding.TextReadsBackIff` | src/libhttp/headers/mod.rs:594-606 | the text of a string header reads back if and only if it holds no CR or LF, does not start with a blank and is ASCII |
| `HeaderReading.ItemFromStream` | src/libhttp/headers/connection.rs:29-40 | reading one item of a list from the iterator, for each kind of list |
| `HeaderReading.ListFromStream` | src/libhttp/headers/mod.rs:555-569 | the loop over items and commas is the list reader on the unfolded value |
| `HeaderReading.TagFromStream` | src/libhttp/headers/etag.rs:35-58 | the entity tag reader on the unfolded value |
| `HeaderReading.MediaFromStream` | src/libhttp/headers/content_type.rs:35-59 | the media type reader on the unfolded value |
| `HeaderReading.RangesFromStream` | src/libhttp/headers/accept_ranges.rs:21-38 | the loop over units is the range reader on the unfolded value |
| `HeaderReading.ValueFromStream` | src/libhttp/headers/mod.rs:592-616 | the reader of each type of header |
| `HeaderReading.NameFromStream` | src/libhttp/headers/mod.rs:98-117 | the automaton over the header name, up to the colon, the end of the headers, an error or the end of the stream |
| `HeaderReading.HeaderFromStream` | src/libhttp/headers/mod.rs:1002-1011 | the value is read by the row that the name dispatches to, or taken as text |
| `HeaderReading.HeaderEnumFromStream` | src/libhttp/headers/mod.rs:96-130 | the result, and the octet read too far followed by the unread ones is exactly what follows the header |
| `HeaderReading.ReadHeaderFrom` | src/libhttp/server/request.rs:100-118 | the octet read too far is pushed back without failing, so the stream is left exactly at the next header |
| `HeaderReading.RunReader` | src/libhttp/headers/mod.rs:158-505 | any sequence of `next` and push-backs of the octet just read keeps what follows the header, and no push-back fails |
| `HeaderReading.ReadLineWith` | src/libhttp/headers/mod.rs:118-129 | with any value parser built that way, the stream is left after the first LF that no blank follows; no octet was saved if and only if none follows that LF |
| `HeaderWriting.WriteQuotedString` | src/libhttp/headers/serialization_utils.rs:76-85 | writes the octets of `quoted_string` |
| `HeaderWriting.WriteParameters` | src/libhttp/headers/serialization_utils.rs:94-99 | writes the octets of `push_parameters` |
| `HeaderWriting.ListToStream` | src/libhttp/headers/mod.rs:571-589 | writes item by item the same octets as `http_value` joins |
| `HeaderWriting.ItemToStream` | src/libhttp/headers/transfer_encoding.rs:40-58 | writes the same octets as `http_value` for each kind of item |
| `HeaderWriting.TagToStream` | src/libhttp/headers/etag.rs:60-69 | writes the same octets as `to_str` |
| `HeaderWriting.MediaToStream` | src/libhttp/headers/content_type.rs:61-70 | writes the same octets as `to_str` |
| `HeaderWriting.RangesToStream` | src/libhttp/headers/accept_ranges.rs:40-50 | writes the same octets as `http_value` |
| `HeaderWriting.WriteHeader` | src/libhttp/headers/mod.rs:970-1000 | writes the name, a colon, a space, the value and CRLF |
| `HeaderWriting.HeaderCollection.Insert` | src/libhttp/headers/mod.rs:900-905 | replaces the typed header or the extension header of that name and keeps the order of keys |
| `HeaderWriting.HeaderCollection.WriteAll` | src/libhttp/headers/mod.rs:917-922 | writes every header once, typed ones by row and then extensions by key, and the empty line |
| `HeaderWriting.HeaderCollectionIterator.Next` | src/libhttp/headers/mod.rs:931-952 | yields the headers of the collection one by one and then nothing for ever |
| `HeaderTables.RequestTableIsGood` | src/libhttp/headers/mod.rs:1017-1066 | every name printed for a request header is a token whose normal form dispatches to its own row |
| `HeaderTables.ResponseTableIsGood` | src/libhttp/headers/mod.rs:1068-1108 | every name printed for a response header is a token whose normal form dispatches to its own row |
| `HeaderTables.DispatchIgnoresCase` | src/libhttp/headers/mod.rs:119-119 | a name is dispatched to a row if and only if it is that row's name ignoring case |
| `Common.ReadUintFrom` | src/libhttp/common.rs:5-21 | the loop with its wrapping accumulator and its limit computed in eight bits |
| `Common.ReadUintValue` | src/libhttp/common.rs:5-21 | exactly when a number is read, which octets are consumed, and that it is the value of the digits up to wrap-around |
| `Common.ReadUintExact` | src/libhttp/common.rs:5-21 | with at most 19 digits the number is the exact value of the digits consumed and below that power of ten |
| `Common.ReadHttpVersion` | src/libhttp/common.rs:24-82 | the version reader on the stream |
| `Common.VersionIsExact` | src/libhttp/common.rs:24-82 | a version that is read stands in the input as it is, its numbers are exact and at most 9999, and what follows is left |
| `Common.VersionReadIff` | src/libhttp/common.rs:24-82 | a version is read if and only if "HTTP/" in any case, at most four digits, a dot, at most four digits and the end octet stand there |
| `Requests.MatcherReadsMethods` | src/libhttp/codegen/read_method.rs:15-33 | the matcher generated for the nine methods reads every token of at most 64 octets as `from_str_or_new` names it |
| `Requests.VerdictIs` | src/libhttp/server/request.rs:261-277 | close if `Close` is anywhere in the list, else keep open if the token "keep-alive" is, else what the version says |
| `Requests.ErrorsClose` | src/libhttp/server/request.rs:221-259 | a request loaded with an error status always closes the connection |
| `Requests.GoodRequests` | src/libhttp/server/request.rs:231-279 | a request loaded without an error has version 1.0, or 1.1 and a Host, and the verdict of its headers and version |
| `Requests.OnlyCloseMatters` | src/libhttp/server/request.rs:261-277 | the connection is closed if and only if the version is 1.0 or the Connection header says close; "keep-alive" has no effect |
| `Requests.LoadProgress` | src/libhttp/server/request.rs:207-280 | a request loaded without an error took octets off the input |
| `Requests.ReadHeadersProgress` | src/libhttp/server/request.rs:237-253 | the header loop ends on every input and, unless at the end of the file, shortens it |
| `Requests.UriFromIs` | src/libhttp/server/request.rs:67-81 | the URI text is what stands before the first space unless its length meets the limit before that; which error it is otherwise and what is left unread |
| `Requests.LimitHoldsIff` | src/libhttp/server/request.rs:75-77 | a text over the limit is refused, and no other, if and only if no character of it starts before the limit and ends after it |
| `Requests.LimitNeverApplies` | src/libhttp/server/request.rs:75-78 | an ASCII octet and 512 or more octets beyond ASCII are accepted as a URI, however many there are |
| `Requests.AsciiUriLimit` | src/libhttp/server/request.rs:71-81 | an ASCII URI is read if and only if it has at most 1024 octets |
| `Requests.UriReadsBack` | src/libhttp/server/request.rs:184-202 | the text of a Request-URI is taken for what was meant if and only if that is well formed: the asterisk, a path with a slash at its start, a URL with one elsewhere, an authority with none |
| `Requests.UriRefusedIff` | src/libhttp/server/request.rs:191-196 | a text is refused if and only if it holds a slash, not at its start, and is no URL |
| `Requests.LineRefusedIff` | src/libhttp/server/request.rs:40-59 | a request line is refused as too long if and only if the length of the URI meets the limit before its end; every other refusal is a bad request |
| `Requests.VersionLineIff` | src/libhttp/server/request.rs:55-58 | the version counts if and only if one stands there with CR and LF |
| `RequestReading.ReadMethodFrom` | src/libhttp/server/request.rs:62-64 | executing the compiled matcher on the stream reads a method and never gets stuck |
| `RequestReading.ReadRequestUri` | src/libhttp/server/request.rs:67-86 | the octets before a space up to the limit on their length as text, classified as `UriReadsBack` and `UriRefusedIff` say; which error otherwise |
| `RequestReading.ReadRequestLineFrom` | src/libhttp/server/request.rs:40-59 | method, URI and version, or which error and what is left unread |
| `RequestReading.ReadHeadersFrom` | src/libhttp/server/request.rs:237-253 | the method is the function `ReadHeaders` of the octets to come, of which the rows below say what it keeps and how it ends |
| `HeaderLoops.LoopKeepsHeaders` | src/libhttp/server/request.rs:237-253 | for any input cut into header lines the loop inserts the headers in order, passes over malformed values wherever they stand, and ends as the first other line says |
| `HeaderLoops.EveryInputIsCut` | src/libhttp/server/request.rs:237-253 | every input can be cut into header lines that way |
| `HeaderLoops.MalformedIsPassedOver` | src/libhttp/server/request.rs:245-248 | a malformed value among any lines changes nothing of what is read |
| `HeaderLoops.BadLengthIsPassedOver` | src/libhttp/server/request.rs:245-248 | a Content-Length that is no number between two good headers leaves those two |
| `RequestReading.ConnectionVerdict` | src/libhttp/server/request.rs:261-277 | the loop over the Connection header |
| `RequestReading.LoadRequest` | src/libhttp/server/request.rs:207-280 | the request, its error status and the octets left unread, for every input |
| `Responses.ResponseDecodes` | src/libhttp/server/response.rs:66-104 | a client gets status, headers and body of a response back, and what was written after its end is left on the wire |
| `Responses.DecodesIffNothingTrails` | src/libhttp/server/response.rs:100-114 | a client gets a response alone on the wire, and nothing else, if and only if nothing was written after its chunked body was finished |
| `HandlerCalls.BodyIsWritten` | src/libhttp/server/response.rs:109-114 | the body, with what comes after the last chunk, is the octets of the calls that write, in order |
| `HandlerCalls.HeadIsPrinted` | src/libhttp/server/response.rs:66-98 | the head that goes out is what was set last before the first call that prints, with the type and length that the call sets itself, and says chunked exactly without a length |
| `HandlerCalls.TrailsIffWritesLate` | src/libhttp/server/response.rs:100-114 | octets stand on the wire after the last chunk if and only if a call writes some after a call that finishes a chunked response |
| `HandlerCalls.LateWriteBreaksTheWire` | src/libhttp/server/response.rs:100-114 | a handler that writes, finishes and writes again fails nowhere, and a client does not get its response alone |
| `Responses.WireDecodes` | src/libhttp/server/mod.rs:86-118 | a client that reads a sequence of responses gets each of them once and in order and nothing else |
| `HandlerCalls.HandledDecodes` | src/libhttp/server/response.rs:84-98 | the response to honest calls decodes to the head of the calls and the octets that they write |
| `HandlerCalls.RefusalDecodes` | src/libhttp/server/mod.rs:98-106 | the answer to a request that cannot be served decodes to its status, a Content-Length of 0 as the only header and no body |
| `HandlerCalls.ErrorTexts` | src/libhttp/server/request.rs:47-76 | the texts of the statuses 400, 414 and 505 as they stand on the wire |
| `ResponseWriting.ResponseWriter.WriteHeaders` | src/libhttp/server/response.rs:66-98 | the head is written once, before all body octets and outside every chunk, with the Transfer-Encoding that suits its length; chunked mode is on exactly without a length |
| `ResponseWriting.ResponseWriter.TryWriteHeaders` | src/libhttp/server/response.rs:53-57 | writes the head unless it was written |
| `ResponseWriting.ResponseWriter.Write` | src/libhttp/server/response.rs:109-114 | the body grows by the octets, after the head, verbatim or in chunks |
| `ResponseWriting.ResponseWriter.Flush` | src/libhttp/server/response.rs:116-118 | neither head nor body changes |
| `ResponseWriting.ResponseWriter.WriteContent` | src/libhttp/server/response.rs:44-50 | the head gets the content's type and length and the body is the content |
| `ResponseWriting.ResponseWriter.FinishResponse` | src/libhttp/server/response.rs:100-104 | a chunked body is ended by the last chunk, nothing is buffered and chunked mode is off, whether a handler calls it or the server |
| `ResponseWriting.ResponseWriter.FinishedText` | src/libhttp/server/response.rs:100-104 | once finished, exactly the text of the response is on the wire |
| `ResponseWriting.ResponseWriter.Run` | src/libhttp/server/response.rs:30-120 | any allowed calls of a handler leave the head and the body that the calls describe |
| `Loaders.OnlyLastCloses` | src/libhttp/server/mod.rs:86-118 | every request but the last was loaded without an error and keeps the connection open, and the last does not: no request is read after an error status or a verdict to close |
| `Loaders.GoodLoad` | src/libhttp/server/request.rs:207-280 | whatever is loaded, an error closes the connection and prints on one line, and anything else takes octets off the input |
| `Server.Refuse` | src/libhttp/server/mod.rs:98-106 | an error is answered with its status, a length of 0 and no body |
| `Server.Respond` | src/libhttp/server/mod.rs:90-108 | one complete response is appended to the wire, the answer of that turn; nothing is left buffered and chunked mode is off |
| `Server.ServeConnection` | src/libhttp/server/mod.rs:86-118 | on every run the wire holds one response per turn, in order and each the answer to what was read in its turn; the turns are those up to the first that closes; the buffer is empty and chunked mode off at the end |
| `HandlerCalls.SilentHandlerAnswers` | src/libhttp/server/mod.rs:93-97 | a response is sent even if the handler does nothing: "200 OK" with an empty chunked body |
| `Server.ClientReceivesAnswers` | src/libhttp/server/mod.rs:86-118 | with handlers whose calls tell the truth about their length and write nothing late, a client that decodes the wire receives in each turn, in order, the head and the octets of the calls, or the refusal with its status, and nothing else |
| `Conversations.WordReads` | src/libhttp/codegen/branchify.rs:132-144 | a valid word within the limit, followed by the end octet, reads back and leaves what follows |
| `Conversations.NumberOnWire` | src/libhttp/common.rs:5-21 | the decimal digits of a number up to 9999 and the octet after them read back as the number and leave what follows |
| `Conversations.VersionOnWire` | src/libhttp/common.rs:24-82 | a printed version with CRLF reads back for all numbers up to 9999 |
| `Conversations.LineRoundTrip` | src/libhttp/server/request.rs:40-59 | a printed Request-Line reads back as its method, URI and version and leaves what follows |
| `Conversations.MethodLimit` | src/libhttp/codegen/branchify.rs:132-141 | a method is read if and only if it has at most 64 octets |
| `Conversations.RequestIsLoaded` | src/libhttp/server/request.rs:207-280 | a request on the wire with any version is loaded with the same method, URI, version and headers and closes for HTTP/1.0 or if it says so; or is refused with 505 for another version, with 400 for HTTP/1.1 without a Host; and what is left unread |
| `Conversations.RequestRoundTrip` | src/libhttp/client/request.rs:202-211 | a request as the client prints it, or any that can be served, is loaded as it was meant, and what follows stays unread |
| `Conversations.HeadIsJudged` | src/libhttp/server/request.rs:237-280 | whatever stands after a good Request-Line, the headers among its lines and the line that ends them decide what is loaded |
| `Conversations.GoneInHeaders` | src/libhttp/server/request.rs:239-239 | a client that is gone before the headers end gets no answer |
| `Conversations.MalformedIsIgnored` | src/libhttp/server/request.rs:245-248 | a malformed value in the head of a request leaves the same request as without it |
| `Conversations.PipelineIsRead` | src/libhttp/server/mod.rs:86-118 | requests of which at most the last closes are read each once, in order and as they were meant, and what follows is read only if the last keeps the connection open |
| `Conversations.HangUpIsLoaded` | src/libhttp/server/request.rs:42-48 | the end of the stream where a request should begin is loaded as a bad request |
| `Conversations.ConversationIsServed` | src/libhttp/server/mod.rs:86-118 | the loop serves the requests and, if and only if the last of them keeps the connection open, one more turn for the end of the stream |
| `Conversations.ConversationIsAnswered` | src/libhttp/server/mod.rs:86-118 | a client that sends requests, hangs up and decodes the wire receives the answer to each, in order, and one 400 more if and only if its last request does not close the connection |
| `Conversations.FarewellIs` | src/libhttp/server/request.rs:42-48 | the response that answers no request says "400 Bad Request" and has no body |
| `Conversations.Converse` | src/libhttp/server/mod.rs:83-118 | the same for what the transport has sent in the end, over one connection with buffers of any size |
| `Examples.ChunkForm` | src/libhttp/buffer.rs:136-158 | the form of a chunk, its size in hexadecimal digits |
| `Examples.FoldForm` | src/libhttp/headers/mod.rs:139-142 | the octets of a value folded over two lines, and what follows |
| `Examples.MediaForm` | src/libhttp/headers/content_type.rs:73-78 | the printed form of a media type with a parameter |
| `Examples.ListForm` | src/libhttp/headers/connection.rs:62-66 | the printed form of a list |
| `Examples.TagForm` | src/libhttp/headers/etag.rs:76-86 | the printed forms of entity tags |
| `Examples.HeaderForm` | src/libhttp/headers/mod.rs:970-1000 | the printed forms of a typed and of an extension header |
| `Examples.RequestLineForm` | src/libhttp/client/request.rs:207-208 | the printed form of a Request-Line |

## Left out

- `ChunkedReader` (`src/libhttp/buffer.rs:185-270`): nothing constructs it, and it does not read what its comments say; the writer's partner is the decoder of section 3.6.1 of RFC 2616 in `Chunked`.
- `Tm` and `Url` conversions: foreign date and URL code; such a value is its text, and in a round trip the text must be one that the foreign code accepts.
- Conversion of `uint` header values and of ports is taken to accept exactly non-empty decimal digits below 2^64 and 2^16; the library code is not part of the repository.
- Keys of the matcher are texts of octets, ASCII ones in the case-insensitive form; the generator truncates or fails on others.
- TCP, accepting connections, spawning and timing in `src/libhttp/server/mod.rs`, `peer_name`, and flushing of the wrapped stream.
- `eof` of the buffered stream and of in-memory streams.
- The client beyond the text of its requests (connecting, name lookup, reading responses), the request body, the table of status codes, quality values and `comma_split`/`comma_join`: easy members or code that repeats the loops above.
- Layout of the generated source text; the emitted `match` structure is modelled instead.
- `http_value` and `to_str` as separate builders: they are the printing functions that the writing methods are proved against.
- RequestReading.LoadRequest: when a value parser never returns, only that outcome is stated, not the octets left unread.
- Server.ServeConnection: handlers that make a call fail are excluded, as the connection then ends with a failure.
- Responses.ResponseDecodes: the client reads headers with the library's own reader and table; no other header reader is modelled.
