/** `headers/host.rs` and `headers/accept_ranges.rs`: how each value is printed and read, and exactly
    when reading undoes printing.
 */
module HostAndRanges {
  import opened Octets
  import opened Numbers
  import opened HeaderIterators
  import opened HeaderParsing
  import opened HeaderValues

  // ---------------------------------------------------------------- Host

  /** The port has 16 bits. */
  datatype Host = Host(name: string, port: Option<nat>)

  const PORT_LIMIT: nat := 0x1_0000

  function PrintHost(h: Host): string {
    match h.port case Some(port) => h.name + ":" + Digits(port, 10) case None => h.name
  }

  function FirstColon(input: string): (c: nat)
    ensures c <= |input| && (c < |input| ==> input[c] == ':')
    ensures forall i :: 0 <= i < c ==> input[i] != ':'
  {
    if input == "" || input[0] == ':' then 0 else 1 + FirstColon(input[1..])
  }

  function PortOf(s: string): Option<nat> {
    if s != "" && AllDigits(s, 10) && NumberValue(s, 10) < PORT_LIMIT then Some(NumberValue(s, 10)) else None
  }

  /** Whatever follows the first colon and is no port is dropped. */
  function HostOf(s: string): Host {
    var c := FirstColon(s);
    Host(s[..c], if c < |s| then PortOf(s[c + 1..]) else None)
  }

  /** A host reads back as itself exactly when its name holds no colon. */
  lemma HostReadsBack(h: Host)
    requires h.port.Some? ==> h.port.value < PORT_LIMIT
    ensures HostOf(PrintHost(h)) == h <==> ':' !in h.name
  {
    var s := PrintHost(h);
    if ':' !in h.name {
      assert forall i :: 0 <= i < |h.name| ==> s[i] == h.name[i];
      match h.port {
        case Some(port) =>
          DigitsHaveValue(port, 10);
          assert s[|h.name|] == ':' && FirstColon(s) == |h.name|;
          assert s[..|h.name|] == h.name && s[|h.name| + 1..] == Digits(port, 10);
        case None => assert FirstColon(s) == |s| && s[..|s|] == s;
      }
    }
  }

  /** What follows the colon and is no number is dropped, and the host is kept. */
  lemma BadPortIsDropped(name: string, port: string)
    requires ':' !in name && (port == "" || !AllDigits(port, 10) || NumberValue(port, 10) >= PORT_LIMIT)
    ensures HostOf(name + ":" + port) == Host(name, None)
  {
    var s := name + ":" + port;
    assert forall i :: 0 <= i < |name| ==> s[i] == name[i];
    assert s[|name|] == ':' && FirstColon(s) == |name|;
    assert s[..|name|] == name && s[|name| + 1..] == port;
  }

  // ---------------------------------------------------------------- Accept-Ranges

  datatype RangeUnit = Bytes | OtherRangeUnit(name: string)

  datatype AcceptableRanges = RangeUnits(units: seq<RangeUnit>) | NoAcceptableRanges

  function PrintUnit(u: RangeUnit): string { match u case Bytes => "bytes" case OtherRangeUnit(name) => name }

  /** Units are printed one after the other, with nothing between them. */
  function PrintUnits(units: seq<RangeUnit>): string {
    if units == [] then "" else PrintUnit(units[0]) + PrintUnits(units[1..])
  }

  function PrintRanges(r: AcceptableRanges): string {
    match r case NoAcceptableRanges => "none" case RangeUnits(units) => PrintUnits(units)
  }

  function UnitOf(token: string): RangeUnit {
    var name := LowerCase(token);
    if name == "bytes" then Bytes else OtherRangeUnit(name)
  }

  function RangesFrom(v: Value, units: seq<RangeUnit>): (AcceptableRanges, Value)
    decreases |v.text|
  {
    match ReadToken(v)
    case (None, w) => (RangeUnits(units), w)
    case (Some(token), w) =>
      if LowerCase(token) == "none" && units == [] then (NoAcceptableRanges, w)
      else RangesFrom(w, units + [UnitOf(token)])
  }

  function ReadRanges(v: Value): (AcceptableRanges, Value) { RangesFrom(v, []) }

  /** A unit as it is read: a lower-case token, and not one that means something else. */
  predicate GoodUnit(u: RangeUnit) {
    match u
    case Bytes => true
    case OtherRangeUnit(name) => IsName(name) && LowerCase(name) == name && name != "bytes" && name != "none"
  }

  /** At most one unit. */
  predicate GoodRanges(r: AcceptableRanges) {
    match r
    case NoAcceptableRanges => true
    case RangeUnits(units) => |units| <= 1 && forall i :: 0 <= i < |units| ==> GoodUnit(units[i])
  }

  lemma {:induction false} TokenFromStops(v: Value, out: string)
    requires !v.atStart && IsToken(out)
    ensures
      var (token, w) := TokenFrom(v, out);
      IsToken(token) && !w.atStart && (w.text == "" || IsSeparator(w.text[0]))
    decreases |v.text|
  {
    if v.text != "" && !IsSeparator(v.text[0]) {
      var b := v.text[0];
      TokenFromStops(v.Next().1, if IsTokenItem(b) then out + [b] else out);
    }
  }

  /** A token is followed by a separator or the end, so no second token follows it directly. */
  lemma OneTokenInARow(v: Value)
    requires ReadToken(v).0.Some?
    ensures IsName(ReadToken(v).0.value) && ReadToken(ReadToken(v).1).0 == None
  {
    if !v.atStart {
      TokenFromStops(v, "");
    } else {
      var b := v.text[0];
      TokenFromStops(v.Next().1, if IsTokenItem(b) then "" + [b] else "");
    }
  }

  lemma {:induction false} LowerCaseIsName(s: string)
    ensures IsToken(s) ==> IsToken(LowerCase(s))
    ensures LowerCase(LowerCase(s)) == LowerCase(s)
  {
    if s != "" {
      LowerCaseIsName(s[1..]);
      var lower := LowerCase(s);
      assert lower == [ToLower(s[0])] + LowerCase(s[1..]) && lower[1..] == LowerCase(s[1..]);
      if IsToken(s) {
        forall i | 0 <= i < |lower| ensures IsTokenItem(lower[i]) {
          if i > 0 { assert lower[i] == LowerCase(s[1..])[i - 1]; }
        }
      }
    }
  }

  /** Of any value at most one unit is read. */
  lemma RangesReadAreGood(v: Value)
    ensures GoodRanges(ReadRanges(v).0)
  {
    var (token, w) := ReadToken(v);
    if token.Some? {
      OneTokenInARow(v);
      LowerCaseIsName(token.value);
      if LowerCase(token.value) != "none" {
        var units := [UnitOf(token.value)];
        assert [] + units == units;
        assert RangesFrom(w, units).0 == RangeUnits(units);
      }
    }
  }

  lemma WordIsRead(word: string, atStart: bool)
    requires IsName(word)
    ensures ReadToken(Value(word, atStart)) == (Some(word), Value("", false))
    ensures ReadToken(Value("", false)).0 == None
  {
    assert word + "" == word;
    TokenReads(Value(word, atStart), word, "");
  }

  lemma NamesAreLower()
    ensures IsName("bytes") && LowerCase("bytes") == "bytes" && IsName("none") && LowerCase("none") == "none"
  {
    LowerCaseName("bytes");
    LowerCaseName("none");
  }

  /** What is read back is what was printed exactly for no ranges, no unit, or one lower-case unit. */
  lemma RangesReadBack(r: AcceptableRanges, atStart: bool)
    ensures ReadRanges(Value(PrintRanges(r), atStart)).0 == r <==> GoodRanges(r)
  {
    RangesReadAreGood(Value(PrintRanges(r), atStart));
    NamesAreLower();
    if GoodRanges(r) {
      match r {
        case NoAcceptableRanges => WordIsRead("none", atStart);
        case RangeUnits(units) =>
          if units != [] { UnitIsRead(units[0], atStart); assert units == [units[0]]; }
      }
    }
  }

  lemma UnitIsRead(u: RangeUnit, atStart: bool)
    requires GoodUnit(u)
    ensures ReadRanges(Value(PrintRanges(RangeUnits([u])), atStart)).0 == RangeUnits([u])
  {
    var word := PrintUnit(u);
    UnitIsWord(u);
    WordIsRead(word, atStart);
    OneUnitText(u);
    assert [] + [u] == [u];
    assert RangesFrom(Value("", false), [u]).0 == RangeUnits([u]);
    assert RangesFrom(Value(word, atStart), []) == RangesFrom(Value("", false), [u]);
  }

  lemma OneUnitText(u: RangeUnit)
    ensures PrintUnits([u]) == PrintUnit(u)
  {
    assert [u][1..] == [] && PrintUnit(u) + "" == PrintUnit(u);
  }

  lemma UnitIsWord(u: RangeUnit)
    requires GoodUnit(u)
    ensures IsName(PrintUnit(u)) && LowerCase(PrintUnit(u)) != "none" && UnitOf(PrintUnit(u)) == u
  {
    NamesAreLower();
  }
}
