/** The readers built on the iterator: white space, tokens, quoted strings, parameters.  Each
    method is proved equal to a function of the value to come, and keeps what follows the header.
 */
module HeaderParsing {
  import opened Octets
  import opened BufferedStreams
  import opened HeaderIterators
  import opened Serialization

  /** What a reader makes of a value.  `Hang` is a call that never returns. */
  datatype Outcome<+T> = Got(value: T) | Bad | Hang

  function FromOption<T>(o: Option<T>): Outcome<T> { match o case Some(x) => Got(x) case None => Bad }

  // ---------------------------------------------------------------- white space

  function SkipBlanks(v: Value, some: bool): (r: (bool, Value))
    ensures |r.1.text| <= |v.text|
    decreases |v.text|
  {
    match v.Next()
    case (None, w) => (some, w)
    case (Some(b), w) => if IsBlank(b) then SkipBlanks(w, true) else (some, w.PushBack(b))
  }

  function ConsumeLws(v: Value): (bool, Value) { SkipBlanks(v, false) }

  function AfterLws(v: Value): Value { SkipBlanks(v, false).1 }

  method ConsumeOptionalLws(it: HeaderValueByteIterator) returns (some: bool)
    requires it.Valid()
    modifies it, it.reader`readPos, it.reader`readMax, it.reader.readBuffer, it.reader.wrapped`incoming
    ensures it.Valid() && it.Rest() == old(it.Rest())
    ensures (some, it.View()) == ConsumeLws(old(it.View()))
  {
    some := false;
    while true
      invariant it.Valid() && it.Rest() == old(it.Rest())
      invariant SkipBlanks(it.View(), some) == ConsumeLws(old(it.View()))
      decreases |it.View().text|
    {
      var b := it.Next();
      match b {
        case Some(c) =>
          if c != SP && c != HT {
            it.PushBack(c);
            return;
          }
        case None => return;
      }
      some := true;
    }
  }

  datatype CommaResult = CommaConsumed | EndOfValue | ErrCommaNotFound

  function ConsumeComma(v: Value): (r: (CommaResult, Value))
    ensures |r.1.text| <= |v.text| && (r.0 == CommaConsumed ==> |r.1.text| < |v.text|)
  {
    match AfterLws(v).Next()
    case (None, w) => (EndOfValue, w)
    case (Some(b), w) => if b == ',' then (CommaConsumed, AfterLws(w)) else (ErrCommaNotFound, w)
  }

  method ConsumeCommaLws(it: HeaderValueByteIterator) returns (r: CommaResult)
    requires it.Valid()
    modifies it, it.reader`readPos, it.reader`readMax, it.reader.readBuffer, it.reader.wrapped`incoming
    ensures it.Valid() && it.Rest() == old(it.Rest())
    ensures (r, it.View()) == ConsumeComma(old(it.View()))
  {
    var _ := ConsumeOptionalLws(it);
    var b := it.Next();
    if b == Some(',') {
      var _ := ConsumeOptionalLws(it);
      r := CommaConsumed;
    } else {
      r := if b.Some? then ErrCommaNotFound else EndOfValue;
    }
  }

  function Consumed(v: Value): (bool, Value) {
    var (b, w) := AfterLws(v).Next();
    (b == None, w)
  }

  method VerifyConsumed(it: HeaderValueByteIterator) returns (r: bool)
    requires it.Valid()
    modifies it, it.reader`readPos, it.reader`readMax, it.reader.readBuffer, it.reader.wrapped`incoming
    ensures it.Valid() && it.Rest() == old(it.Rest())
    ensures (r, it.View()) == Consumed(old(it.View()))
  {
    var _ := ConsumeOptionalLws(it);
    var b := it.Next();
    r := b == None;
  }

  // ---------------------------------------------------------------- the whole value

  function CollectFrom(v: Value, out: string): (string, Value)
    decreases |v.text|
  {
    match v.Next()
    case (None, w) => (out, w)
    case (Some(b), w) => CollectFrom(w, out + [b])
  }

  function Collect(v: Value): (string, Value) { CollectFrom(v, "") }

  lemma {:induction false} CollectAllFrom(v: Value, out: string)
    ensures CollectFrom(v, out).0 == out + v.text && CollectFrom(v, out).1.text == ""
    decreases |v.text|
  {
    if v.text == "" {
    } else {
      CollectAllFrom(v.Next().1, out + [v.text[0]]);
      assert out + [v.text[0]] + v.text[1..] == out + v.text;
    }
  }

  /** `collect_to_str` yields all of the value. */
  lemma CollectAll(v: Value)
    ensures Collect(v).0 == v.text && Collect(v).1.text == ""
  {
    CollectAllFrom(v, "");
    assert "" + v.text == v.text;
  }

  method CollectToStr(it: HeaderValueByteIterator) returns (out: string)
    requires it.Valid()
    modifies it, it.reader`readPos, it.reader`readMax, it.reader.readBuffer, it.reader.wrapped`incoming
    ensures it.Valid() && it.Rest() == old(it.Rest()) && it.state == Finished
    ensures (out, it.View()) == Collect(old(it.View()))
  {
    out := "";
    while true
      invariant it.Valid() && it.Rest() == old(it.Rest())
      invariant CollectFrom(it.View(), out) == Collect(old(it.View()))
      decreases |it.View().text|
    {
      var b := it.Next();
      match b {
        case None => return;
        case Some(c) => out := out + [c];
      }
    }
  }

  // ---------------------------------------------------------------- tokens

  /** Octets that are neither separators nor token characters are passed over. */
  function TokenFrom(v: Value, out: string): (r: (string, Value))
    ensures |r.1.text| <= |v.text| && (r.0 != out ==> |r.1.text| < |v.text|)
    decreases |v.text|
  {
    match v.Next()
    case (None, w) => (out, w)
    case (Some(b), w) =>
      if IsSeparator(b) then (out, w.PushBack(b))
      else TokenFrom(w, if IsTokenItem(b) then out + [b] else out)
  }

  function ReadToken(v: Value): (r: (Option<string>, Value))
    ensures |r.1.text| <= |v.text| && (r.0.Some? ==> |r.1.text| < |v.text|)
  {
    var (out, w) := TokenFrom(v, "");
    (if out == "" then None else Some(out), w)
  }

  method ReadTokenFrom(it: HeaderValueByteIterator) returns (r: Option<string>)
    requires it.Valid()
    modifies it, it.reader`readPos, it.reader`readMax, it.reader.readBuffer, it.reader.wrapped`incoming
    ensures it.Valid() && it.Rest() == old(it.Rest())
    ensures (r, it.View()) == ReadToken(old(it.View()))
  {
    var output := "";
    while true
      invariant it.Valid() && it.Rest() == old(it.Rest())
      invariant TokenFrom(it.View(), output) == TokenFrom(old(it.View()), "")
      decreases |it.View().text|
    {
      var b := it.Next();
      match b {
        case None => break;
        case Some(c) =>
          if IsSeparator(c) {
            it.PushBack(c);
            break;
          } else if IsTokenItem(c) {
            output := output + [c];
          }
      }
    }
    r := if output == "" then None else Some(output);
  }

  // ---------------------------------------------------------------- quoted strings

  datatype QuoteState = QStart | QNormal | QEscaping

  function QuotedFrom(v: Value, state: QuoteState, out: string): (r: (Option<string>, Value))
    ensures |r.1.text| <= |v.text|
    decreases |v.text|
  {
    match v.Next()
    case (None, w) => (None, w)
    case (Some(b), w) =>
      match state
      case QStart => if b == '"' then QuotedFrom(w, QNormal, out) else (None, w)
      case QNormal =>
        if b == '\\' then QuotedFrom(w, QEscaping, out)
        else if b == '"' then (Some(out), w)
        else QuotedFrom(w, QNormal, out + [b])
      case QEscaping => QuotedFrom(w, QNormal, out + [b])
  }

  function ReadQuoted(v: Value, alreadyOpened: bool): (Option<string>, Value) {
    QuotedFrom(v, if alreadyOpened then QNormal else QStart, "")
  }

  method ReadQuotedString(it: HeaderValueByteIterator, alreadyOpened: bool) returns (r: Option<string>)
    requires it.Valid()
    modifies it, it.reader`readPos, it.reader`readMax, it.reader.readBuffer, it.reader.wrapped`incoming
    ensures it.Valid() && it.Rest() == old(it.Rest())
    ensures (r, it.View()) == ReadQuoted(old(it.View()), alreadyOpened)
  {
    var state, output := if alreadyOpened then QNormal else QStart, "";
    while true
      invariant it.Valid() && it.Rest() == old(it.Rest())
      invariant QuotedFrom(it.View(), state, output) == ReadQuoted(old(it.View()), alreadyOpened)
      decreases |it.View().text|
    {
      var b := it.Next();
      if b == None { return None; }
      var c := b.value;
      match state {
        case QStart => if c == '"' { state := QNormal; } else { return None; }
        case QNormal =>
          if c == '\\' { state := QEscaping; }
          else if c == '"' { return Some(output); }
          else { output := output + [c]; }
        case QEscaping => output, state := output + [c], QNormal;
      }
    }
  }

  // ---------------------------------------------------------------- token or quoted string

  /** One turn of the loop over an unquoted value: `None` when the loop ends.  A separator is
      given back and the loop goes on, so unless the push-back drops it the next turn meets it
      again. */
  function TokenTurn(v: Value, out: string): Option<(Value, string)> {
    match v.Next()
    case (None, w) => None
    case (Some(b), w) =>
      if IsSeparator(b) then Some((w.PushBack(b), out))
      else Some((w, if IsTokenItem(b) then out + [b] else out))
  }

  function TokenLoop(v: Value, out: string): (r: (Outcome<string>, Value))
    ensures |r.1.text| <= |v.text|
    decreases |v.text|
  {
    match TokenTurn(v, out)
    case None => (if out == "" then Bad else Got(out), v)
    case Some((w, more)) => if |w.text| < |v.text| then TokenLoop(w, more) else (Hang, w)
  }

  function ReadTokenOrQuoted(v: Value): (r: (Outcome<string>, Value))
    ensures |r.1.text| <= |v.text|
  {
    match v.Next()
    case (None, w) => (Bad, w)
    case (Some(b), w) =>
      if b == '"' then var (o, x) := QuotedFrom(w, QNormal, ""); (FromOption(o), x)
      else TokenLoop(w.PushBack(b), "")
  }

  method ReadTokenOrQuotedString(it: HeaderValueByteIterator) returns (r: Outcome<string>)
    requires it.Valid()
    modifies it, it.reader`readPos, it.reader`readMax, it.reader.readBuffer, it.reader.wrapped`incoming
    ensures it.Valid() && it.Rest() == old(it.Rest())
    ensures (r, it.View()) == ReadTokenOrQuoted(old(it.View()))
  {
    var b := it.Next();
    match b {
      case Some(c) =>
        if c == '"' {
          var s := ReadQuotedString(it, true);
          return FromOption(s);
        }
        it.PushBack(c);
      case None => return Bad;
    }
    var output := "";
    while true
      invariant it.Valid() && it.Rest() == old(it.Rest())
      invariant TokenLoop(it.View(), output) == ReadTokenOrQuoted(old(it.View()))
      decreases |it.View().text|
    {
      var b := it.Next();
      match b {
        case None => return if output == "" then Bad else Got(output);
        case Some(c) =>
          if IsSeparator(c) {
            var dropped := it.atStart && IsBlank(c);
            it.PushBack(c);
            if !dropped { return Hang; }
          } else if IsTokenItem(c) {
            output := output + [c];
          }
      }
    }
  }

  /** The state of the loop after a number of turns, while it runs. */
  function TokenTurns(v: Value, out: string, n: nat): Option<(Value, string)>
    decreases n
  {
    if n == 0 then Some((v, out))
    else match TokenTurn(v, out)
      case None => None
      case Some((w, more)) => TokenTurns(w, more, n - 1)
  }

  predicate StuckAt(v: Value) { v.text != "" && IsSeparator(v.text[0]) && !(v.atStart && IsBlank(v.text[0])) }

  /** In front of a separator the loop over an unquoted value never ends. */
  lemma {:induction false} SeparatorHangs(v: Value, out: string, n: nat)
    requires StuckAt(v)
    ensures TokenTurns(v, out, n).Some?
    decreases n
  {
    if n == 0 {
    } else {
      var w := v.Next().1.PushBack(v.text[0]);
      assert w.text == v.text;
      SeparatorHangs(w, out, n - 1);
    }
  }

  lemma EndsAfter(v: Value, out: string, n: nat)
    requires !TokenTurns(v, out, n).Some?
    ensures !forall k: nat :: TokenTurns(v, out, k).Some?
  {}

  /** `Hang` is reported exactly where the loop never ends. */
  lemma {:induction false} HangIsForever(v: Value, out: string)
    ensures TokenLoop(v, out).0 == Hang <==> forall n: nat :: TokenTurns(v, out, n).Some?
    decreases |v.text|
  {
    match TokenTurn(v, out)
    case None =>
      EndsAfter(v, out, 1);
    case Some((w, more)) =>
      if |w.text| < |v.text| {
        HangIsForever(w, more);
        if TokenLoop(v, out).0 == Hang {
          forall n: nat ensures TokenTurns(v, out, n).Some? {
            if n > 0 { assert TokenTurns(w, more, n - 1).Some?; }
          }
        } else {
          var n: nat :| !TokenTurns(w, more, n).Some?;
          EndsAfter(v, out, n + 1);
        }
      } else {
        forall n: nat ensures TokenTurns(v, out, n).Some? { SeparatorHangs(v, out, n); }
      }
  }

  /** Past the start of a value, an unquoted string hangs exactly when a separator is to come. */
  lemma {:induction false} HangIffSeparator(v: Value, out: string)
    requires !v.atStart
    ensures TokenLoop(v, out).0 == Hang <==> exists i :: 0 <= i < |v.text| && IsSeparator(v.text[i])
    decreases |v.text|
  {
    if v.text == "" {
    } else if IsSeparator(v.text[0]) {
      assert TokenLoop(v, out).0 == Hang;
    } else {
      var w, more := v.Next().1, TokenTurn(v, out).value.1;
      HangIffSeparator(w, more);
      if exists i :: 0 <= i < |v.text| && IsSeparator(v.text[i]) {
        var i :| 0 <= i < |v.text| && IsSeparator(v.text[i]);
        assert w.text[i - 1] == v.text[i];
      }
    }
  }

  // ---------------------------------------------------------------- parameters

  function ParameterValue(v: Value, key: string): (r: (Outcome<Parameter>, Value))
    ensures |r.1.text| <= |v.text|
  {
    match AfterLws(v).Next()
    case (None, w) => (Bad, w)
    case (Some(b), w) =>
      if b != '=' then (Bad, w)
      else
        match ReadTokenOrQuoted(AfterLws(w))
        case (Got(value), x) => (Got((key, value)), AfterLws(x))
        case (Bad, x) => (Bad, x)
        case (Hang, x) => (Hang, x)
  }

  /** A parameter after its semicolon. */
  function ReadParameter(v: Value): (r: (Outcome<Parameter>, Value))
    ensures |r.1.text| <= |v.text|
  {
    match ReadToken(AfterLws(v))
    case (None, w) => (Bad, w)
    case (Some(key), w) => ParameterValue(w, key)
  }

  function ParametersFrom(v: Value, acc: seq<Parameter>): (r: (Outcome<seq<Parameter>>, Value))
    ensures |r.1.text| <= |v.text|
    decreases |v.text|
  {
    match v.Next()
    case (None, w) => (Got(acc), w)
    case (Some(b), w) =>
      if b != ';' then (Got(acc), w.PushBack(b))
      else
        match ReadParameter(w)
        case (Got(p), x) => ParametersFrom(x, acc + [p])
        case (Bad, x) => (Bad, x)
        case (Hang, x) => (Hang, x)
  }

  function ReadParameters(v: Value): (r: (Outcome<seq<Parameter>>, Value))
    ensures |r.1.text| <= |v.text|
  {
    ParametersFrom(v, [])
  }

  method ReadParameterFrom(it: HeaderValueByteIterator) returns (r: Outcome<Parameter>)
    requires it.Valid()
    modifies it, it.reader`readPos, it.reader`readMax, it.reader.readBuffer, it.reader.wrapped`incoming
    ensures it.Valid() && it.Rest() == old(it.Rest())
    ensures (r, it.View()) == ReadParameter(old(it.View()))
  {
    var _ := ConsumeOptionalLws(it);
    var key := ReadTokenFrom(it);
    if key == None { return Bad; }
    var _ := ConsumeOptionalLws(it);
    var b := it.Next();
    if b != Some('=') { return Bad; }
    var _ := ConsumeOptionalLws(it);
    var value := ReadTokenOrQuotedString(it);
    match value {
      case Bad => return Bad;
      case Hang => return Hang;
      case Got(s) =>
        var _ := ConsumeOptionalLws(it);
        return Got((key.value, s));
    }
  }

  method ReadParametersFrom(it: HeaderValueByteIterator) returns (r: Outcome<seq<Parameter>>)
    requires it.Valid()
    modifies it, it.reader`readPos, it.reader`readMax, it.reader.readBuffer, it.reader.wrapped`incoming
    ensures it.Valid() && it.Rest() == old(it.Rest())
    ensures (r, it.View()) == ReadParameters(old(it.View()))
  {
    var result: seq<Parameter> := [];
    while true
      invariant it.Valid() && it.Rest() == old(it.Rest())
      invariant ParametersFrom(it.View(), result) == ReadParameters(old(it.View()))
      decreases |it.View().text|
    {
      var b := it.Next();
      match b {
        case None => return Got(result);
        case Some(c) =>
          if c != ';' {
            it.PushBack(c);
            return Got(result);
          }
      }
      var p := ReadParameterFrom(it);
      match p {
        case Got(parameter) => result := result + [parameter];
        case Bad => return Bad;
        case Hang => return Hang;
      }
    }
  }
}
