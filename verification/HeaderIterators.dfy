/** `HeaderValueByteIterator`: the octets of one header value, unfolded, with one octet of
    push-back, over a stream that goes on with the next header.
 */
module HeaderIterators {
  import opened Octets
  import opened BufferedStreams

  // ---------------------------------------------------------------- unfolding, step by step

  /** The octets the iterator yields from `raw`; `gotLF` says that an LF was just read. */
  function Unfold(raw: string, atStart: bool, gotLF: bool): string {
    if raw == "" then ""
    else
      var b, rest := raw[0], raw[1..];
      if gotLF then
        if IsBlank(b) then [b] + Unfold(rest, atStart, false) else ""
      else if IsBlank(b) then
        if atStart then Unfold(rest, true, false) else [b] + Unfold(rest, false, false)
      else if b == CR then Unfold(rest, atStart, false)
      else if b == LF then Unfold(rest, atStart, true)
      else [b] + Unfold(rest, false, false)
  }

  /** What is left of `raw` after the header that it starts in. */
  function After(raw: string, gotLF: bool): string {
    if raw == "" then ""
    else if gotLF && !IsBlank(raw[0]) then raw
    else After(raw[1..], !gotLF && raw[0] == LF)
  }

  // ---------------------------------------------------------------- unfolding, declaratively

  /** An LF that is not followed by SP or HT. */
  predicate EndsHeader(raw: string, k: nat)
    requires k < |raw|
  {
    raw[k] == LF && (k + 1 < |raw| ==> !IsBlank(raw[k + 1]))
  }

  /** Where the first LF not followed by SP or HT is, or the end of the input. */
  function HeaderEnd(raw: string, from: nat): (k: nat)
    requires from <= |raw|
    ensures from <= k <= |raw|
    decreases |raw| - from
  {
    if from == |raw| || EndsHeader(raw, from) then from else HeaderEnd(raw, from + 1)
  }

  lemma {:induction false} HeaderEndIsFirst(raw: string, from: nat)
    requires from <= |raw|
    ensures HeaderEnd(raw, from) < |raw| ==> EndsHeader(raw, HeaderEnd(raw, from))
    ensures forall j :: from <= j < HeaderEnd(raw, from) ==> !EndsHeader(raw, j)
    decreases |raw| - from
  {
    if from < |raw| && !EndsHeader(raw, from) { HeaderEndIsFirst(raw, from + 1); }
  }

  /** What follows the header that ends first after `from`. */
  function Remainder(raw: string, from: nat): string
    requires from <= |raw|
  {
    var end := HeaderEnd(raw, from);
    if end < |raw| then raw[end + 1..] else ""
  }

  predicate IsContent(c: char) { !IsBlank(c) && c != CR && c != LF }

  predicate AfterLF(raw: string, i: nat)
    requires i <= |raw|
  {
    i > 0 && raw[i - 1] == LF
  }

  /** CR and LF go, and so do blanks before all content unless they directly follow an LF. */
  predicate Keeps(raw: string, i: nat)
    requires i < |raw|
  {
    IsContent(raw[i]) || (IsBlank(raw[i]) && (AfterLF(raw, i) || exists j :: 0 <= j < i && IsContent(raw[j])))
  }

  function Kept(raw: string, n: nat): string
    requires n <= |raw|
  {
    if n == 0 then "" else Kept(raw, n - 1) + if Keeps(raw, n - 1) then [raw[n - 1]] else ""
  }

  predicate NoContent(raw: string, n: nat)
    requires n <= |raw|
  {
    forall j :: 0 <= j < n ==> !IsContent(raw[j])
  }

  lemma {:induction false} UnfoldKeeps(raw: string, i: nat)
    requires i <= HeaderEnd(raw, 0)
    ensures Kept(raw, HeaderEnd(raw, 0)) == Kept(raw, i) + Unfold(raw[i..], NoContent(raw, i), AfterLF(raw, i))
    decreases |raw| - i
  {
    var end := HeaderEnd(raw, 0);
    HeaderEndIsFirst(raw, 0);
    if i == end {
      if i < |raw| && i + 1 < |raw| {
        assert raw[i..][1..] == raw[i + 1..] && raw[i + 1..][0] == raw[i + 1];
      }
      if i > 0 { assert !EndsHeader(raw, i - 1); }
    } else {
      assert !EndsHeader(raw, i);
      if i > 0 { assert !EndsHeader(raw, i - 1); }
      UnfoldKeeps(raw, i + 1);
      assert raw[i..][1..] == raw[i + 1..];
      assert NoContent(raw, i + 1) == (NoContent(raw, i) && !IsContent(raw[i]));
    }
  }

  lemma {:induction false} AfterIsSuffix(raw: string, i: nat)
    requires i <= HeaderEnd(raw, 0)
    ensures After(raw[i..], AfterLF(raw, i)) == Remainder(raw, 0)
    decreases |raw| - i
  {
    var end := HeaderEnd(raw, 0);
    HeaderEndIsFirst(raw, 0);
    if i < |raw| { assert raw[i..][1..] == raw[i + 1..]; }
    if i > 0 { assert !EndsHeader(raw, i - 1); }
    if i == end {
      if i + 1 < |raw| { assert raw[i + 1..][0] == raw[i + 1]; }
    } else {
      assert !EndsHeader(raw, i);
      AfterIsSuffix(raw, i + 1);
    }
  }

  /** What the iterator yields and what it leaves, without reference to its states. */
  lemma UnfoldingIsDeclarative(raw: string)
    ensures Unfold(raw, true, false) == Kept(raw, HeaderEnd(raw, 0))
    ensures After(raw, false) == Remainder(raw, 0)
  {
    assert raw[0..] == raw;
    UnfoldKeeps(raw, 0);
    AfterIsSuffix(raw, 0);
  }

  // ---------------------------------------------------------------- blanks at the start of a value

  /** A blank that is kept although no content came before it: it follows an LF. */
  predicate LeadingFold(raw: string, i: nat)
    requires i < |raw|
  {
    IsBlank(raw[i]) && AfterLF(raw, i) && NoContent(raw, i)
  }

  lemma {:induction false} KeptStartsBlank(raw: string, n: nat)
    requires n <= |raw|
    ensures StartsBlank(Kept(raw, n)) <==> exists i :: 0 <= i < n && LeadingFold(raw, i)
    ensures Kept(raw, n) == "" <==> NoContent(raw, n) && !exists i :: 0 <= i < n && LeadingFold(raw, i)
  {
    if n > 0 {
      KeptStartsBlank(raw, n - 1);
      var before, last := Kept(raw, n - 1), n - 1;
      assert NoContent(raw, n) <==> NoContent(raw, last) && !IsContent(raw[last]);
      assert (exists i :: 0 <= i < n && LeadingFold(raw, i)) <==>
             LeadingFold(raw, last) || exists i :: 0 <= i < last && LeadingFold(raw, i);
      if before != "" {
        assert Kept(raw, n)[0] == before[0];
      }
    }
  }

  /** The value that its readers see starts with a blank exactly when the header is folded before
      any content: leading blanks go, but not the one that makes a fold. */
  lemma StartsBlankIffFolded(raw: string)
    ensures StartsBlank(Unfold(raw, true, false)) <==>
              exists i :: 0 <= i < HeaderEnd(raw, 0) && LeadingFold(raw, i)
  {
    UnfoldingIsDeclarative(raw);
    KeptStartsBlank(raw, HeaderEnd(raw, 0));
  }

  // ---------------------------------------------------------------- the iterator

  /** A header value as its readers see it: the octets to come, and whether only blanks came so
      far.  A blank given back at the start is skipped when it is read again. */
  datatype Value = Value(text: string, atStart: bool) {

    function Next(): (Option<char>, Value) {
      if text == "" then (None, this)
      else (Some(text[0]), Value(text[1..], atStart && IsBlank(text[0])))
    }

    function PushBack(b: char): Value {
      if atStart && IsBlank(b) then this else Value([b] + text, atStart)
    }
  }

  datatype IteratorState = Normal | GotLF | Finished

  class HeaderValueByteIterator {
    const reader: BufferedStream
    var nextByte: Option<char>
    var atStart: bool
    var state: IteratorState

    /** Between calls an LF is never left undecided, the stream takes a push-back, and a finished
        iterator without a saved octet is at the end of the stream. */
    ghost predicate Valid()
      reads this, reader`readPos, reader`readMax, reader`writeLen, reader.wrapped`incoming
    {
      && reader.Valid() && reader.CanPoke() && !state.GotLF?
      && (state.Finished? && nextByte.None? ==> reader.readPos == reader.readMax && reader.wrapped.incoming == "")
    }

    /** The saved octet and the unread ones. */
    ghost function Raw(): string
      requires reader.ReadSide()
      reads this`nextByte, reader`readPos, reader`readMax, reader.readBuffer, reader.wrapped`incoming
    {
      match nextByte case Some(b) => [b] + reader.Unread() case None => reader.Unread()
    }

    ghost function View(): Value
      requires reader.ReadSide()
      reads this, reader`readPos, reader`readMax, reader.readBuffer, reader.wrapped`incoming
    {
      Value(if state.Finished? then "" else Unfold(Raw(), atStart, state.GotLF?), atStart)
    }

    /** The octets that belong to what follows the header. */
    ghost function Rest(): string
      requires reader.ReadSide()
      reads this, reader`readPos, reader`readMax, reader.readBuffer, reader.wrapped`incoming
    {
      if state.Finished? then Raw() else After(Raw(), state.GotLF?)
    }

    constructor (reader: BufferedStream)
      requires reader.Valid() && reader.CanPoke()
      ensures Valid() && this.reader == reader
      ensures View() == Value(Unfold(reader.Unread(), true, false), true)
      ensures Rest() == After(reader.Unread(), false)
    {
      this.reader, nextByte, atStart, state := reader, None, true, Normal;
    }

    /** The saved octet if there is one, otherwise the next one of the stream. */
    method Fetch() returns (b: Option<char>)
      requires reader.Valid() && reader.CanPoke()
      modifies this`nextByte, reader`readPos, reader`readMax, reader.readBuffer, reader.wrapped`incoming
      ensures reader.Valid() && reader.CanPoke() && nextByte == None
      ensures old(Raw()) == "" ==> b == None && Raw() == ""
      ensures old(Raw()) != "" ==> b.Some? && old(Raw()) == [b.value] + Raw()
    {
      match nextByte {
        case Some(saved) =>
          b, nextByte := Some(saved), None;
        case None =>
          b := reader.ReadByte();
      }
    }

    method Next() returns (b: Option<char>)
      requires Valid()
      modifies this, reader`readPos, reader`readMax, reader.readBuffer, reader.wrapped`incoming
      ensures Valid() && Rest() == old(Rest())
      ensures (b, View()) == old(View()).Next()
      ensures b.Some? ==> CanPushBack(b.value)
      ensures b.None? ==> state == Finished
      ensures old(state) == Finished ==> nextByte == old(nextByte) && reader.Unread() == old(reader.Unread())
    {
      if state == Finished {
        return None;
      }
      while true
        invariant reader.Valid() && reader.CanPoke() && state != Finished
        invariant Rest() == old(Rest()) && View() == old(View())
        decreases |Raw()|
      {
        var done;
        done, b := Turn();
        if done { return; }
      }
    }

    /** One turn of the loop of `next`. */
    method Turn() returns (done: bool, b: Option<char>)
      requires reader.Valid() && reader.CanPoke() && state != Finished
      modifies this, reader`readPos, reader`readMax, reader.readBuffer, reader.wrapped`incoming
      ensures reader.Valid() && reader.CanPoke() && Rest() == old(Rest())
      ensures !done ==> state != Finished && View() == old(View()) && |Raw()| < |old(Raw())|
      ensures done ==> Valid() && (b, View()) == old(View()).Next()
      ensures done ==> if b.Some? then CanPushBack(b.value) else state == Finished
    {
      b := Fetch();
      if b == None {
        state, done := Finished, true;
      } else {
        done, b := Take(b.value);
      }
    }

    /** What `next` does with an octet: yield it, end the value or go on. */
    method Take(c: char) returns (done: bool, b: Option<char>)
      requires reader.Valid() && reader.CanPoke() && nextByte == None && state != Finished
      modifies this`state, this`atStart, this`nextByte
      ensures
        var rest := old(reader.Unread());
        var text := Unfold([c] + rest, old(atStart), old(state).GotLF?);
        && Rest() == After([c] + rest, old(state).GotLF?)
        && if done then Valid() && (b, View()) == Value(text, old(atStart)).Next()
           else state != Finished && nextByte == None && View() == Value(text, old(atStart))
      ensures done && b.Some? ==> CanPushBack(b.value)
      ensures done && b.None? ==> state == Finished
    {
      ghost var rest := reader.Unread();
      assert ([c] + rest)[1..] == rest;
      done, b := true, Some(c);
      match state {
        case Normal =>
          if c == SP || c == HT {
            done := !atStart;
          } else if c == CR {
            done := false;
          } else if c == LF {
            state, done := GotLF, false;
          } else {
            atStart := false;
          }
        case GotLF =>
          if c == SP || c == HT {
            state := Normal;
          } else {
            nextByte, state, b := Some(c), Finished, None;
          }
      }
    }

    /** What the assertions before a push-back need: nothing is saved and `b` is an octet that
        `next` has just returned. */
    ghost predicate CanPushBack(b: char)
      reads this
    {
      state == Normal && nextByte == None && b != CR && b != LF && (IsBlank(b) || !atStart)
    }

    method PushBack(b: char)
      requires Valid() && CanPushBack(b)
      modifies this`nextByte
      ensures Valid() && Rest() == old(Rest()) && View() == old(View()).PushBack(b)
    {
      assert nextByte == None;
      nextByte := Some(b);
      ghost var u := reader.Unread();
      assert ([b] + u)[1..] == u;
    }
  }
}
