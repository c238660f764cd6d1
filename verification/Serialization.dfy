/** `headers/serialization_utils.rs`: header names, quoted strings and parameters as text. */
module Serialization {
  import opened Octets
  import opened Utf8

  // ---------------------------------------------------------------- header names

  function NormaliseFrom(name: string, capitalise: bool): (r: string)
    ensures |r| == |name|
  {
    if name == "" then ""
    else
      var c := if capitalise then ToUpper(name[0]) else ToLower(name[0]);
      [c] + NormaliseFrom(name[1..], c == '-')
  }

  /** Capitalise the first letter and every letter after a hyphen, lower the rest. */
  function Normalise(name: string): string { NormaliseFrom(name, true) }

  method NormaliseHeaderName(name: string) returns (result: string)
    ensures result == Normalise(name)
  {
    result := "";
    var capitalise := true;
    for i := 0 to |name|
      invariant result + NormaliseFrom(name[i..], capitalise) == Normalise(name)
    {
      var c := if capitalise then ToUpper(name[i]) else ToLower(name[i]);
      result := result + [c];
      capitalise := c == '-';
    }
  }

  lemma {:induction false} NormaliseIdempotentFrom(name: string, capitalise: bool)
    ensures NormaliseFrom(NormaliseFrom(name, capitalise), capitalise) == NormaliseFrom(name, capitalise)
  {
    if name == "" {
    } else {
      var c := if capitalise then ToUpper(name[0]) else ToLower(name[0]);
      NormaliseIdempotentFrom(name[1..], c == '-');
      assert NormaliseFrom(name, capitalise)[1..] == NormaliseFrom(name[1..], c == '-');
    }
  }

  lemma {:induction false} NormaliseEqualFrom(a: string, b: string, capitalise: bool)
    ensures NormaliseFrom(a, capitalise) == NormaliseFrom(b, capitalise) <==> SameIgnoringCase(a, b)
  {
    var na, nb := NormaliseFrom(a, capitalise), NormaliseFrom(b, capitalise);
    if a == "" || b == "" {
      assert na == nb ==> |na| == |nb|;
    } else {
      var c := if capitalise then ToUpper(a[0]) else ToLower(a[0]);
      var d := if capitalise then ToUpper(b[0]) else ToLower(b[0]);
      assert c == d <==> SameLetter(a[0], b[0]);
      NormaliseEqualFrom(a[1..], b[1..], c == '-');
      assert na == nb <==> c == d && na[1..] == nb[1..] by {
        assert na == [na[0]] + na[1..] && nb == [nb[0]] + nb[1..];
      }
      assert na[1..] == NormaliseFrom(a[1..], c == '-') && nb[1..] == NormaliseFrom(b[1..], d == '-');
      SameIgnoringCaseStep(a, b);
    }
  }

  lemma SameIgnoringCaseStep(a: string, b: string)
    requires a != "" && b != ""
    ensures SameIgnoringCase(a, b) <==> SameLetter(a[0], b[0]) && SameIgnoringCase(a[1..], b[1..])
  {}

  /** `normalise_header_name` picks one spelling for all names that differ only in case. */
  lemma NormaliseIsCanonical(a: string, b: string)
    ensures Normalise(Normalise(a)) == Normalise(a)
    ensures Normalise(a) == Normalise(b) <==> SameIgnoringCase(a, b)
  {
    NormaliseIdempotentFrom(a, true);
    NormaliseEqualFrom(a, b, true);
  }

  /** The letter of the normal form at one place. */
  predicate NormalAt(name: string, normal: string, i: nat)
    requires i < |name| == |normal|
  {
    normal[i] == if i == 0 || name[i - 1] == '-' then ToUpper(name[i]) else ToLower(name[i])
  }

  lemma {:induction false} NormaliseFromIs(name: string, normal: string, k: nat)
    requires k <= |name| == |normal| && forall i :: k <= i < |name| ==> NormalAt(name, normal, i)
    ensures NormaliseFrom(name[k..], k == 0 || name[k - 1] == '-') == normal[k..]
    decreases |name| - k
  {
    if k == |name| {
    } else {
      NormaliseFromIs(name, normal, k + 1);
      assert NormalAt(name, normal, k);
      assert name[k..][1..] == name[k + 1..] && normal[k..] == [normal[k]] + normal[k + 1..];
    }
  }

  /** The normal form of a name, letter by letter. */
  lemma NormaliseIs(name: string, normal: string)
    requires |name| == |normal| && forall i :: 0 <= i < |name| ==> NormalAt(name, normal, i)
    ensures Normalise(name) == normal
  {
    NormaliseFromIs(name, normal, 0);
    assert name[0..] == name && normal[0..] == normal;
  }

  // ---------------------------------------------------------------- quoted strings

  predicate NeedsEscape(c: char) { c == '\\' || c == '"' }

  function EscapeChar(c: char): string { if NeedsEscape(c) then ['\\', c] else [c] }

  function Escape(t: string): string {
    if t == "" then "" else EscapeChar(t[0]) + Escape(t[1..])
  }

  /** Nothing is escaped but quotes and backslashes. */
  lemma {:induction false} EscapeLength(t: string)
    ensures |Escape(t)| == |t| + multiset(t)['\\'] + multiset(t)['"']
  {
    if t != "" {
      EscapeLength(t[1..]);
      assert t == [t[0]] + t[1..];
    }
  }

  function QuotedString(t: string): string { "\"" + Escape(t) + "\"" }

  method PushQuotedString(s: string, t: string) returns (r: string)
    ensures r == s + QuotedString(t)
  {
    r := s + "\"";
    for i := 0 to |t|
      invariant r + Escape(t[i..]) == s + "\"" + Escape(t)
    {
      if t[i] == '\\' || t[i] == '"' {
        r := r + "\\";
      }
      r := r + [t[i]];
    }
    assert t[|t|..] == "" && r == s + "\"" + Escape(t);
    r := r + "\"";
    assert r == s + QuotedString(t);
  }

  datatype UnquoteState = Start | Normal | Escaping | End

  /** The state machine of `unquote_string` on the rest of its input. */
  function UnquoteFrom(state: UnquoteState, s: string, output: string): Option<string>
    decreases |s|
  {
    if s == "" then if state == End then Some(output) else None
    else match state
      case Start => if s[0] == '"' then UnquoteFrom(Normal, s[1..], output) else None
      case Normal =>
        if s[0] == '\\' then UnquoteFrom(Escaping, s[1..], output)
        else if s[0] == '"' then UnquoteFrom(End, s[1..], output)
        else UnquoteFrom(Normal, s[1..], output + [s[0]])
      case Escaping => UnquoteFrom(Normal, s[1..], output + [s[0]])
      case End => None
  }

  function Unquote(s: string): Option<string> { UnquoteFrom(Start, s, "") }

  /** Reserving `len() - 2` octets fails on shorter strings. */
  method UnquoteString(s: string) returns (r: Option<string>)
    requires Length(s) >= 2
    ensures r == Unquote(s)
  {
    var state, output, i := Start, "", 0;
    while true
      invariant i <= |s| && UnquoteFrom(state, s[i..], output) == Unquote(s)
      decreases |s| - i
    {
      if i == |s| {
        return if state == End then Some(output) else None;
      }
      var c := s[i];
      i := i + 1;
      match state {
        case Start => if c == '"' { state := Normal; } else { return None; }
        case Normal =>
          if c == '\\' { state := Escaping; }
          else if c == '"' { state := End; }
          else { output := output + [c]; }
        case Escaping => output, state := output + [c], Normal;
        case End => return None;
      }
    }
  }

  function MaybeQuoted(s: string): string { if IsToken(s) then s else QuotedString(s) }

  function MaybeUnquote(s: string): Option<string>
    requires IsToken(s) || Length(s) >= 2
  {
    if IsToken(s) then Some(s) else Unquote(s)
  }

  /** The quoted-string grammar: what stands between the quotes, item by item. */
  datatype QuotedItem = Plain(c: char) | Escaped(c: char)

  ghost predicate GoodItems(items: seq<QuotedItem>) {
    forall i :: 0 <= i < |items| ==> items[i].Plain? ==> !NeedsEscape(items[i].c)
  }

  function Render(items: seq<QuotedItem>): string {
    if items == [] then "" else (if items[0].Plain? then [items[0].c] else ['\\', items[0].c]) + Render(items[1..])
  }

  function Meaning(items: seq<QuotedItem>): string {
    if items == [] then "" else [items[0].c] + Meaning(items[1..])
  }

  lemma {:induction false} UnquoteItems(items: seq<QuotedItem>, output: string)
    requires GoodItems(items)
    ensures UnquoteFrom(Normal, Render(items) + "\"", output) == Some(output + Meaning(items))
    decreases |items|
  {
    var s := Render(items) + "\"";
    if items == [] {
      assert s == "\"" && s[1..] == "" && output + "" == output;
    } else {
      UnquoteItems(items[1..], output + [items[0].c]);
      var rest := Render(items[1..]) + "\"";
      assert output + [items[0].c] + Meaning(items[1..]) == output + Meaning(items);
      if items[0].Plain? {
        assert s == [items[0].c] + rest && s[1..] == rest;
      } else {
        assert s == ['\\', items[0].c] + rest && s[1..][1..] == rest;
      }
    }
  }

  lemma {:induction false} UnquoteOnlyItems(s: string, output: string) returns (items: seq<QuotedItem>)
    requires UnquoteFrom(Normal, s, output).Some?
    ensures GoodItems(items) && s == Render(items) + "\""
    decreases |s|
  {
    if s[0] == '"' {
      items := [];
      assert s == "\"" + s[1..];
    } else if s[0] == '\\' {
      items := UnquoteOnlyItems(s[2..], output + [s[1]]);
      assert s == ['\\', s[1]] + s[2..];
      items := [Escaped(s[1])] + items;
    } else {
      items := UnquoteOnlyItems(s[1..], output + [s[0]]);
      assert s == [s[0]] + s[1..];
      items := [Plain(s[0])] + items;
    }
  }

  /** `unquote_string` accepts exactly a quote, plain or backslash-escaped characters and a closing
      quote at the end, and yields the characters meant. */
  lemma UnquoteIffQuoted(s: string, t: string)
    ensures Unquote(s) == Some(t) <==>
              exists items :: GoodItems(items) && Meaning(items) == t && s == "\"" + Render(items) + "\""
  {
    if Unquote(s) == Some(t) {
      var items := UnquoteOnlyItems(s[1..], "");
      UnquoteItems(items, "");
      assert s == "\"" + Render(items) + "\"" && "" + Meaning(items) == Meaning(items);
    }
    if exists items :: GoodItems(items) && Meaning(items) == t && s == "\"" + Render(items) + "\"" {
      var items :| GoodItems(items) && Meaning(items) == t && s == "\"" + Render(items) + "\"";
      UnquoteItems(items, "");
      assert s[1..] == Render(items) + "\"" && "" + t == t;
    }
  }

  function ItemsOf(t: string): (items: seq<QuotedItem>)
    ensures GoodItems(items) && Render(items) == Escape(t) && Meaning(items) == t
  {
    if t == "" then [] else [if NeedsEscape(t[0]) then Escaped(t[0]) else Plain(t[0])] + ItemsOf(t[1..])
  }

  lemma QuoteRoundTrip(s: string)
    ensures Unquote(QuotedString(s)) == Some(s)
    ensures (IsToken(MaybeQuoted(s)) || Length(MaybeQuoted(s)) >= 2) && MaybeUnquote(MaybeQuoted(s)) == Some(s)
  {
    var items := ItemsOf(s);
    assert QuotedString(s) == "\"" + Render(items) + "\"";
    UnquoteIffQuoted(QuotedString(s), s);
    assert QuotedString(s)[0] == '"' && !IsTokenItem('"');
  }

  // ---------------------------------------------------------------- parameters

  type Parameter = (string, string)

  function PrintParameter(p: Parameter): string { p.0 + "=" + MaybeQuoted(p.1) }

  function PrintParameters(ps: seq<Parameter>): string {
    if ps == [] then "" else ";" + PrintParameter(ps[0]) + PrintParameters(ps[1..])
  }

  method PushMaybeQuotedString(s: string, t: string) returns (r: string)
    ensures r == s + MaybeQuoted(t)
  {
    if IsToken(t) { r := s + t; } else { r := PushQuotedString(s, t); }
  }

  lemma ParameterText(s: string, key: string, value: string, rest: string)
    ensures s + ";" + key + "=" + value + rest == s + (";" + (key + "=" + value) + rest)
  {}

  method PushParameters(s: string, ps: seq<Parameter>) returns (r: string)
    ensures r == s + PrintParameters(ps)
  {
    r := s;
    for i := 0 to |ps|
      invariant r + PrintParameters(ps[i..]) == s + PrintParameters(ps)
    {
      ghost var before, rest := r, PrintParameters(ps[i + 1..]);
      r := PushMaybeQuotedString(r + ";" + ps[i].0 + "=", ps[i].1);
      ParameterText(before, ps[i].0, MaybeQuoted(ps[i].1), rest);
    }
  }
}
