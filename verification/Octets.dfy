/** The character classes of RFC 2616 and the small types shared by every module.

    An octet is represented by the character with the same code, which is what the
    source's `b as char` does; a stream of octets and the text built from it are
    therefore both a `string`.
 */
module Octets {

  datatype Option<+T> = None | Some(value: T)

  const CR: char := '\r'
  const LF: char := '\n'
  const SP: char := ' '
  const HT: char := '\t'
  const CRLF: string := "\r\n"

  predicate IsBlank(c: char) { c == SP || c == HT }

  predicate IsCtl(c: char) { c as int < 32 || c as int == 127 }

  predicate IsSeparator(c: char) {
    c == '(' || c == ')' || c == '<' || c == '>' || c == '@' ||
    c == ',' || c == ';' || c == ':' || c == '\\' || c == '"' ||
    c == '/' || c == '[' || c == ']' || c == '?' || c == '=' ||
    c == '{' || c == '}' || c == SP || c == HT
  }

  predicate IsTokenItem(c: char) { c as int < 128 && !IsCtl(c) && !IsSeparator(c) }

  /** The token characters one by one. */
  lemma TokenItemsAre(c: char)
    ensures IsTokenItem(c) <==>
              || IsUpper(c) || IsLower(c) || '0' <= c <= '9'
              || c in {'!', '#', '$', '%', '&', '\'', '*', '+', '-', '.', '^', '_', '`', '|', '~'}
  {}

  /** True of the empty string too, as in the source. */
  predicate IsToken(s: string) { forall i :: 0 <= i < |s| ==> IsTokenItem(s[i]) }

  predicate IsUpper(c: char) { 'A' <= c <= 'Z' }

  predicate IsLower(c: char) { 'a' <= c <= 'z' }

  function ToUpper(c: char): (u: char)
    ensures !IsLower(u)
    ensures IsLower(c) || u == c
    ensures IsTokenItem(u) <==> IsTokenItem(c)
  {
    if IsLower(c) then (c as int - 32) as char else c
  }

  function ToLower(c: char): (l: char)
    ensures !IsUpper(l)
    ensures IsUpper(c) || l == c
    ensures IsTokenItem(l) <==> IsTokenItem(c)
  {
    if IsUpper(c) then (c as int + 32) as char else c
  }

  /** Equality of ASCII letters regardless of case. */
  predicate SameLetter(a: char, b: char) { ToUpper(a) == ToUpper(b) }

  predicate SameIgnoringCase(s: string, t: string) {
    |s| == |t| && forall i :: 0 <= i < |s| ==> SameLetter(s[i], t[i])
  }

  /** The octets can stand in a header value without ending or folding the line. */
  predicate OneLine(s: string) { CR !in s && LF !in s }

  predicate StartsBlank(s: string) { s != "" && IsBlank(s[0]) }

  /** Moving the first element of a sequence to the end of the one before it. */
  lemma MoveFirst<T>(acc: seq<T>, s: seq<T>)
    requires s != []
    ensures acc + [s[0]] + s[1..] == acc + s
  {}

  lemma Associative<T>(a: seq<T>, b: seq<T>, c: seq<T>)
    ensures (a + b) + c == a + (b + c)
  {}
}
