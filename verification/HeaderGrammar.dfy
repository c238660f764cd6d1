/** What the readers of header values accept beyond the printed forms: white space, other cases of
    letters, and octets that belong to no token.
 */
module HeaderGrammar {
  import opened Octets
  import opened HeaderIterators
  import opened Serialization
  import opened HeaderParsing
  import opened HeaderValues

  // ---------------------------------------------------------------- white space

  predicate Blanks(s: string) { forall i :: 0 <= i < |s| ==> IsBlank(s[i]) }

  lemma {:induction false} SkipsBlanks(blanks: string, text: string, some: bool)
    requires Blanks(blanks) && !StartsBlank(text)
    ensures SkipBlanks(Value(blanks + text, false), some) == (some || blanks != "", Value(text, false))
    decreases |blanks|
  {
    if blanks == "" {
      assert blanks + text == text;
      if text != "" { assert [text[0]] + text[1..] == text; }
    } else {
      assert (blanks + text)[1..] == blanks[1..] + text;
      SkipsBlanks(blanks[1..], text, true);
    }
  }

  lemma LwsSkips(blanks: string, text: string)
    requires Blanks(blanks) && !StartsBlank(text)
    ensures AfterLws(Value(blanks + text, false)) == Value(text, false)
  {
    SkipsBlanks(blanks, text, false);
  }

  lemma {:induction false} SkipToEnd(v: Value, some: bool)
    ensures SkipBlanks(v, some).1.text == "" <==> Blanks(v.text)
    ensures SkipBlanks(v, some).1.text != "" ==> !IsBlank(SkipBlanks(v, some).1.text[0])
    decreases |v.text|
  {
    if v.text != "" && IsBlank(v.text[0]) {
      SkipToEnd(v.Next().1, true);
      assert Blanks(v.text) <==> Blanks(v.text[1..]) by {
        if Blanks(v.text[1..]) {
          forall i | 0 <= i < |v.text| ensures IsBlank(v.text[i]) {
            if i > 0 { assert v.text[i] == v.text[1..][i - 1]; }
          }
        }
      }
    }
  }

  /** A value counts as consumed exactly when nothing but blanks is left of it. */
  lemma ConsumedIffBlank(v: Value)
    ensures Consumed(v).0 <==> Blanks(v.text)
  {
    SkipToEnd(v, false);
  }

  // ---------------------------------------------------------------- tokens

  function FirstSeparator(s: string): (n: nat)
    ensures n <= |s| && (n < |s| ==> IsSeparator(s[n]))
    ensures forall i :: 0 <= i < n ==> !IsSeparator(s[i])
  {
    if s == "" || IsSeparator(s[0]) then 0 else 1 + FirstSeparator(s[1..])
  }

  /** The token characters of a text; all others are dropped. */
  function TokenItems(s: string): string {
    if s == "" then "" else (if IsTokenItem(s[0]) then [s[0]] else "") + TokenItems(s[1..])
  }

  lemma {:induction false} TokenFromIs(v: Value, out: string)
    requires !v.atStart
    ensures
      var n := FirstSeparator(v.text);
      TokenFrom(v, out) == (out + TokenItems(v.text[..n]), Value(v.text[n..], false))
    decreases |v.text|
  {
    var n := FirstSeparator(v.text);
    if n == 0 {
      assert out + TokenItems(v.text[..0]) == out && v.text[0..] == v.text;
      if v.text != "" { assert [v.text[0]] + v.text[1..] == v.text; }
    } else {
      var b := v.text[0];
      var more := if IsTokenItem(b) then out + [b] else out;
      TokenFromIs(v.Next().1, more);
      assert v.text[..n][1..] == v.text[1..][..n - 1] && v.text[1..][n - 1..] == v.text[n..];
      TokenItemsStep(out, v.text[..n]);
    }
  }

  lemma TokenItemsStep(out: string, s: string)
    requires s != ""
    ensures (if IsTokenItem(s[0]) then out + [s[0]] else out) + TokenItems(s[1..]) == out + TokenItems(s)
  {}

  /** A token is the token characters up to the first separator, which is left to be read; octets that
      are neither are dropped.  There is no token where there are no such characters. */
  lemma ReadTokenIs(v: Value)
    requires !v.atStart
    ensures
      var n := FirstSeparator(v.text);
      var items := TokenItems(v.text[..n]);
      ReadToken(v) == (if items == "" then None else Some(items), Value(v.text[n..], false))
  {
    TokenFromIs(v, "");
    var items := TokenItems(v.text[..FirstSeparator(v.text)]);
    assert "" + items == items;
  }

  /** An unquoted value that ends is all its token characters, and is refused if there are none. */
  lemma {:induction false} UnquotedIs(v: Value, out: string)
    requires !v.atStart && FirstSeparator(v.text) == |v.text|
    ensures TokenLoop(v, out) ==
              (if out + TokenItems(v.text) == "" then Bad else Got(out + TokenItems(v.text)), Value("", false))
    decreases |v.text|
  {
    if v.text == "" {
      assert out + "" == out;
    } else {
      var b := v.text[0];
      var w, more := v.Next().1, if IsTokenItem(b) then out + [b] else out;
      assert forall i :: 0 <= i < |w.text| ==> w.text[i] == v.text[i + 1];
      assert FirstSeparator(w.text) == |w.text|;
      UnquotedIs(w, more);
      TokenItemsStep(out, v.text);
    }
  }

  // ---------------------------------------------------------------- letters of either case

  /** The token "close" in any case closes; any other token is kept in normal form. */
  lemma ConnectionIs(token: string)
    ensures ConnectionOf(token) == if SameIgnoringCase(token, "close") then Close else Token(Normalise(token))
  {
    NormaliseIsCanonical(token, "close");
    CloseIsName();
  }

  lemma {:induction false} SameLowerCase(s: string, t: string)
    ensures LowerCase(s) == LowerCase(t) <==> SameIgnoringCase(s, t)
  {
    if s == "" || t == "" {
      assert LowerCase(s) == LowerCase(t) ==> |s| == |t|;
    } else {
      SameLowerCase(s[1..], t[1..]);
      SameIgnoringCaseStep(s, t);
      assert ToLower(s[0]) == ToLower(t[0]) <==> SameLetter(s[0], t[0]);
      var a, b := LowerCase(s), LowerCase(t);
      assert a[1..] == LowerCase(s[1..]) && b[1..] == LowerCase(t[1..]);
      assert a == b <==> a[0] == b[0] && a[1..] == b[1..] by { assert a == [a[0]] + a[1..] && b == [b[0]] + b[1..]; }
    }
  }

  /** The coding "chunked" in any case is chunked and takes no parameters; any other is an extension. */
  lemma CodingIs(token: string, v: Value)
    ensures
      var r := CodingAfter(token, v);
      if SameIgnoringCase(token, "chunked") then r == (Got(CodingItem(ChunkedCoding)), v)
      else r.0.Got? ==> r.0.value.CodingItem? && r.0.value.coding.TransferExtension?
                        && r.0.value.coding.name == LowerCase(token)
  {
    SameLowerCase(token, "chunked");
    ChunkedIsName();
  }

  /** A weak tag may be marked in lower case; blanks and nothing else may follow any tag. */
  lemma TagReadsIffBlank(tag: string, weak: string, rest: string, atStart: bool)
    requires weak == "" || weak == "W/" || weak == "w/"
    ensures ReadTag(Value(weak + QuotedString(tag) + rest, atStart)).0 ==
              if Blanks(rest) then Got(EntityTag(weak != "", tag)) else Bad
  {
    if weak == "" {
      assert weak + QuotedString(tag) + rest == QuotedString(tag) + rest;
      StrongTagReads(tag, rest, atStart);
    } else {
      assert weak == [weak[0], '/'];
      WeakTagReads(tag, weak[0], rest, atStart);
    }
  }

  lemma StrongTagReads(tag: string, rest: string, atStart: bool)
    ensures ReadTag(Value(QuotedString(tag) + rest, atStart)).0 ==
              if Blanks(rest) then Got(EntityTag(false, tag)) else Bad
  {
    var v, quoted := Value(QuotedString(tag) + rest, atStart), Escape(tag) + "\"" + rest;
    assert v.text == "\"" + quoted && v.text[1..] == quoted;
    TagAfterReadsIff(tag, false, rest);
  }

  lemma WeakTagReads(tag: string, w: char, rest: string, atStart: bool)
    requires w == 'W' || w == 'w'
    ensures ReadTag(Value([w, '/'] + QuotedString(tag) + rest, atStart)).0 ==
              if Blanks(rest) then Got(EntityTag(true, tag)) else Bad
  {
    var v, quoted := Value([w, '/'] + QuotedString(tag) + rest, atStart), Escape(tag) + "\"" + rest;
    assert v.text == [w, '/', '"'] + quoted && v.text[1..][1..][1..] == quoted;
    TagAfterReadsIff(tag, true, rest);
  }

  lemma TagAfterReadsIff(tag: string, weak: bool, rest: string)
    ensures TagAfter(weak, Value(Escape(tag) + "\"" + rest, false)).0 ==
              if Blanks(rest) then Got(EntityTag(weak, tag)) else Bad
  {
    assert "" + tag == tag;
    QuotedReads(Value(Escape(tag) + "\"" + rest, false), tag, rest, "");
    ConsumedIffBlank(Value(rest, false));
  }

  /** Blanks and nothing else may follow a media type that has no parameters. */
  lemma MediaReadsIffBlank(mainType: string, subtype: string, rest: string, atStart: bool)
    requires IsName(mainType) && IsName(subtype) && Stops(rest) && (rest == "" || rest[0] != ';')
    ensures ReadMedia(Value(mainType + "/" + subtype + rest, atStart)).0 ==
              if Blanks(rest) then Got(MediaType(mainType, subtype, [])) else Bad
  {
    var v := Value(mainType + "/" + subtype + rest, atStart);
    var tail := "/" + (subtype + rest);
    assert v.text == mainType + tail && tail[1..] == subtype + rest;
    TokenReads(v, mainType, tail);
    TokenReads(Value(subtype + rest, false), subtype, rest);
    NoMoreParameters(rest, []);
    ConsumedIffBlank(Value(rest, false));
  }

  // ---------------------------------------------------------------- parameters with blanks

  /** A parameter with blanks wherever they may stand. */
  function Spaced(p: Parameter, gaps: (string, string, string, string)): string {
    gaps.0 + p.0 + gaps.1 + "=" + gaps.2 + QuotedString(p.1) + gaps.3
  }

  predicate AllBlank(gaps: (string, string, string, string)) {
    Blanks(gaps.0) && Blanks(gaps.1) && Blanks(gaps.2) && Blanks(gaps.3)
  }

  lemma SpacedLayout(p: Parameter, gaps: (string, string, string, string), rest: string)
    ensures
      var value := QuotedString(p.1) + (gaps.3 + rest);
      Spaced(p, gaps) + rest == gaps.0 + (p.0 + (gaps.1 + ("=" + (gaps.2 + value))))
  {}

  /** Blanks around the key and the value of a quoted parameter are skipped. */
  lemma SpacedParameterReads(p: Parameter, gaps: (string, string, string, string), rest: string)
    requires IsName(p.0) && AllBlank(gaps) && EndsParameter(rest)
    ensures ReadParameter(Value(Spaced(p, gaps) + rest, false)) == (Got(p), Value(rest, false))
  {
    var value := QuotedString(p.1) + (gaps.3 + rest);
    var after := gaps.1 + ("=" + (gaps.2 + value));
    SpacedLayout(p, gaps, rest);
    assert !StartsBlank(p.0 + after) by { assert (p.0 + after)[0] == p.0[0]; }
    LwsSkips(gaps.0, p.0 + after);
    assert Stops(after) by { assert after[0] == if gaps.1 == "" then '=' else gaps.1[0]; }
    TokenReads(Value(p.0 + after, false), p.0, after);
    SpacedValueReads(p, gaps, rest);
  }

  lemma SpacedValueReads(p: Parameter, gaps: (string, string, string, string), rest: string)
    requires AllBlank(gaps) && EndsParameter(rest)
    ensures
      var value := QuotedString(p.1) + (gaps.3 + rest);
      ParameterValue(Value(gaps.1 + ("=" + (gaps.2 + value)), false), p.0) == (Got(p), Value(rest, false))
  {
    var value := QuotedString(p.1) + (gaps.3 + rest);
    var equals := "=" + (gaps.2 + value);
    LwsSkips(gaps.1, equals);
    assert equals[1..] == gaps.2 + value;
    LwsSkips(gaps.2, value);
    QuotedValueReads(p.1, gaps.3 + rest);
    LwsSkips(gaps.3, rest);
  }

  // ---------------------------------------------------------------- lists with blanks

  /** Every value is printed in quotes. */
  predicate AllQuoted(ps: seq<Parameter>) { forall i :: 0 <= i < |ps| ==> !IsToken(ps[i].1) }

  predicate ItemQuoted(item: ListItem) {
    match item case CodingItem(TransferExtension(_, ps)) => AllQuoted(ps) case _ => true
  }

  lemma {:induction false} QuotedParametersRead(ps: seq<Parameter>, blanks: string, rest: string, acc: seq<Parameter>)
    requires GoodKeys(ps) && AllQuoted(ps) && Blanks(blanks) && EndsItem(rest)
    ensures ParametersFrom(Value(PrintParameters(ps) + (blanks + rest), false), acc) ==
              (Got(acc + ps), Value(if ps == [] then blanks + rest else rest, false))
    decreases |ps|
  {
    var tail := blanks + rest;
    if ps == [] {
      assert PrintParameters(ps) + tail == tail && acc + ps == acc;
      if tail != "" { assert tail[0] == if blanks == "" then rest[0] else blanks[0]; }
      NoMoreParameters(tail, acc);
    } else {
      OneQuotedParameter(ps, blanks, rest);
      var more := if |ps| > 1 then PrintParameters(ps[1..]) + tail else rest;
      var text := PrintParameter(ps[0]) + (PrintParameters(ps[1..]) + tail);
      PrintParametersStep(ps, tail);
      ParameterThen(text, ps[0], more, acc);
      if |ps| > 1 {
        QuotedParametersRead(ps[1..], blanks, rest, acc + [ps[0]]);
      } else {
        NoMoreParameters(rest, acc + [ps[0]]);
        assert ps == [ps[0]];
      }
      MoveFirst(acc, ps);
    }
  }

  lemma NoMoreParameters(rest: string, acc: seq<Parameter>)
    requires rest == "" || rest[0] != ';'
    ensures ParametersFrom(Value(rest, false), acc) == (Got(acc), Value(rest, false))
  {
    if rest != "" { assert [rest[0]] + rest[1..] == rest; }
  }

  lemma ParameterThen(text: string, p: Parameter, more: string, acc: seq<Parameter>)
    requires ReadParameter(Value(text, false)) == (Got(p), Value(more, false))
    ensures ParametersFrom(Value(";" + text, false), acc) == ParametersFrom(Value(more, false), acc + [p])
  {
    assert (";" + text)[1..] == text;
  }

  lemma OneQuotedParameter(ps: seq<Parameter>, blanks: string, rest: string)
    requires ps != [] && GoodKeys(ps) && AllQuoted(ps) && Blanks(blanks) && EndsItem(rest)
    ensures
      var more := if |ps| > 1 then PrintParameters(ps[1..]) + (blanks + rest) else rest;
      ReadParameter(Value(PrintParameter(ps[0]) + (PrintParameters(ps[1..]) + (blanks + rest)), false)) ==
        (Got(ps[0]), Value(more, false))
  {
    var p, tail := ps[0], blanks + rest;
    if |ps| > 1 {
      var more := PrintParameters(ps[1..]) + tail;
      SpacedParameterReads(p, ("", "", "", ""), more);
      NoGaps(p, "");
    } else {
      SpacedParameterReads(p, ("", "", "", blanks), rest);
      assert ps[1..] == [] && PrintParameters(ps[1..]) + tail == tail;
      NoGaps(p, blanks);
      Associative(PrintParameter(p), blanks, rest);
    }
  }

  lemma NoGaps(p: Parameter, blanks: string)
    requires !IsToken(p.1)
    ensures Spaced(p, ("", "", "", blanks)) == PrintParameter(p) + blanks
    ensures PrintParameter(p) + "" == PrintParameter(p)
  {}

  lemma SpacedItemReads(item: ListItem, blanks: string, rest: string, v: Value)
    requires GoodItem(item) && ItemQuoted(item) && Blanks(blanks) && EndsItem(rest)
    requires v.text == PrintItem(item) + (blanks + rest)
    ensures
      var r := ReadItem(KindOf(item), v);
      r == (Got(item), Value(blanks + rest, false)) || r == (Got(item), Value(rest, false))
  {
    var tail := blanks + rest;
    assert Stops(tail) by { if tail != "" { assert tail[0] == if blanks == "" then rest[0] else blanks[0]; } }
    match item {
      case ConnectionItem(c) =>
        ConnectionReadsBack(c);
        TokenReads(v, PrintConnection(c), tail);
      case MethodItem(m) =>
        MethodReadsBack(m);
        TokenReads(v, PrintMethod(m), tail);
      case CodingItem(ChunkedCoding) =>
        ChunkedIsName();
        TokenReads(v, "chunked", tail);
      case CodingItem(TransferExtension(name, ps)) => SpacedCodingReads(name, ps, blanks, rest, v);
    }
  }

  lemma SpacedCodingReads(name: string, ps: seq<Parameter>, blanks: string, rest: string, v: Value)
    requires GoodItem(CodingItem(TransferExtension(name, ps))) && AllQuoted(ps) && Blanks(blanks) && EndsItem(rest)
    requires v.text == name + PrintParameters(ps) + (blanks + rest)
    ensures
      var r := ReadItem(CodingKind, v);
      && r.0 == Got(CodingItem(TransferExtension(name, ps)))
      && (r.1 == Value(blanks + rest, false) || r.1 == Value(rest, false))
  {
    var tail := blanks + rest;
    Associative(name, PrintParameters(ps), tail);
    var more := PrintParameters(ps) + tail;
    assert Stops(more) by {
      if ps == [] {
        assert more == tail;
        if tail != "" { assert tail[0] == if blanks == "" then rest[0] else blanks[0]; }
      }
    }
    TokenReads(v, name, more);
    QuotedParametersRead(ps, blanks, rest, []);
    assert [] + ps == ps;
  }

  /** Items joined by commas with any blanks on either side, and any blanks at the end. */
  function SpacedList(items: seq<ListItem>, gaps: seq<(string, string)>): string
    requires |gaps| == |items|
  {
    if items == [] then ""
    else if |items| == 1 then PrintItem(items[0]) + (gaps[0].0 + "")
    else PrintItem(items[0]) + (gaps[0].0 + ("," + (gaps[0].1 + SpacedList(items[1..], gaps[1..]))))
  }

  ghost predicate BlankGaps(gaps: seq<(string, string)>) {
    forall i :: 0 <= i < |gaps| ==> Blanks(gaps[i].0) && Blanks(gaps[i].1)
  }

  lemma SpacedListStarts(items: seq<ListItem>, gaps: seq<(string, string)>)
    requires items != [] && |gaps| == |items| && GoodItem(items[0])
    ensures !StartsBlank(SpacedList(items, gaps))
  {
    var first := PrintItem(items[0]);
    assert first != "" && IsTokenItem(first[0]) by {
      match items[0] {
        case ConnectionItem(c) => ConnectionReadsBack(c);
        case MethodItem(m) => MethodReadsBack(m);
        case CodingItem(c) => ChunkedIsName();
      }
    }
    assert SpacedList(items, gaps)[0] == first[0];
  }

  lemma CommaWithBlanks(w: Value, blanks: string, more: string, after: string)
    requires Blanks(blanks) && Blanks(after) && !StartsBlank(more)
    requires w == Value(blanks + ("," + (after + more)), false) || w == Value("," + (after + more), false)
    ensures ConsumeComma(w) == (CommaConsumed, Value(more, false))
  {
    var comma := "," + (after + more);
    LwsSkips(blanks, comma);
    LwsSkips("", comma);
    assert "" + comma == comma && comma[1..] == after + more;
    LwsSkips(after, more);
  }

  /** A list reads as itself whatever blanks stand around its commas and at its end. */
  lemma {:induction false} SpacedListReads(kind: ItemKind, items: seq<ListItem>, gaps: seq<(string, string)>, v: Value,
                                           acc: seq<ListItem>)
    requires GoodList(kind, items) && |gaps| == |items| && BlankGaps(gaps)
    requires forall i :: 0 <= i < |items| ==> ItemQuoted(items[i])
    requires v.text == SpacedList(items, gaps)
    ensures ListFrom(kind, v, acc).0 == Got(acc + items)
    decreases |items|
  {
    assert KindOf(items[0]) == kind && GoodItem(items[0]) && ItemQuoted(items[0]) && Blanks(gaps[0].0);
    if |items| == 1 {
      SpacedItemReads(items[0], gaps[0].0, "", v);
      EndWithBlanks(gaps[0].0);
      assert acc + items == acc + [items[0]];
    } else {
      var more := SpacedList(items[1..], gaps[1..]);
      var rest := "," + (gaps[0].1 + more);
      assert GoodItem(items[1]) && GoodItem(items[1..][0]);
      SpacedListStarts(items[1..], gaps[1..]);
      SpacedItemReads(items[0], gaps[0].0, rest, v);
      CommaWithBlanks(ReadItem(kind, v).1, gaps[0].0, more, gaps[0].1);
      assert GoodList(kind, items[1..]);
      SpacedListReads(kind, items[1..], gaps[1..], Value(more, false), acc + [items[0]]);
      MoveFirst(acc, items);
    }
  }

  /** A list is refused where an item is followed by anything but blanks and a comma, and where an item
      is missing: an empty list, two commas in a row or a comma at the end. */
  lemma ListRefusesJunk(item: ListItem, blanks: string, junk: string, v: Value, acc: seq<ListItem>)
    requires GoodItem(item) && !item.CodingItem? && Blanks(blanks)
    requires junk != "" && junk[0] != ',' && !IsBlank(junk[0]) && (blanks != "" || IsSeparator(junk[0]))
    requires v.text == PrintItem(item) + (blanks + junk)
    ensures ListFrom(KindOf(item), v, acc).0 == Bad
  {
    var tail := blanks + junk;
    assert Stops(tail) by { assert tail[0] == if blanks == "" then junk[0] else blanks[0]; }
    match item {
      case ConnectionItem(c) =>
        ConnectionReadsBack(c);
        TokenReads(v, PrintConnection(c), tail);
      case MethodItem(m) =>
        MethodReadsBack(m);
        TokenReads(v, PrintMethod(m), tail);
    }
    LwsSkips(blanks, junk);
  }

  lemma MissingItemIsRefused(kind: ItemKind, v: Value, acc: seq<ListItem>)
    requires v.text == "" || (v.text[0] == ',')
    ensures ListFrom(kind, v, acc).0 == Bad
  {
    assert ReadToken(v).0 == None;
  }

  lemma EndWithBlanks(blanks: string)
    requires Blanks(blanks)
    ensures ConsumeComma(Value(blanks + "", false)).0 == EndOfValue && ConsumeComma(Value("", false)).0 == EndOfValue
  {
    LwsSkips(blanks, "");
    LwsSkips("", "");
  }
}
