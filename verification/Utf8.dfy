/** Text as octets: a string of characters is stored in UTF-8, so `len()` counts octets and writing
    a string sends its octets.
 */
module Utf8 {
  import opened Octets

  /** An octet of the given value. */
  function Octet(n: nat): (c: char)
    requires n < 256
    ensures c as int == n
  {
    n as char
  }

  /** The octets of a character, section 3 of RFC 3629. */
  function EncodeChar(c: char): (r: string)
    ensures c as int < 128 ==> r == [c]
    ensures |r| == Width(c)
    ensures c as int >= 128 ==> |r| >= 2 && forall i :: 0 <= i < |r| ==> 128 <= r[i] as int < 256
  {
    var n := c as int;
    if n < 0x80 then [c]
    else if n < 0x800 then [Octet(0xC0 + n / 64), Octet(0x80 + n % 64)]
    else if n < 0x1_0000 then [Octet(0xE0 + n / 4096), Octet(0x80 + n / 64 % 64), Octet(0x80 + n % 64)]
    else
      [Octet(0xF0 + n / 0x4_0000), Octet(0x80 + n / 4096 % 64), Octet(0x80 + n / 64 % 64), Octet(0x80 + n % 64)]
  }

  /** The character that octets stand for, by the table of section 3 of RFC 3629. */
  function CodeOf(octets: string): int {
    if |octets| == 1 then octets[0] as int
    else if |octets| == 2 then (octets[0] as int - 0xC0) * 64 + (octets[1] as int - 0x80)
    else if |octets| == 3 then
      (octets[0] as int - 0xE0) * 4096 + (octets[1] as int - 0x80) * 64 + (octets[2] as int - 0x80)
    else if |octets| == 4 then
      (octets[0] as int - 0xF0) * 0x4_0000 + (octets[1] as int - 0x80) * 4096 +
      (octets[2] as int - 0x80) * 64 + (octets[3] as int - 0x80)
    else 0
  }

  /** The first octet tells how many there are, and all others are continuations. */
  predicate WellMarked(octets: string) {
    && octets != ""
    && var first := octets[0] as int;
    && |octets| == (if first < 0x80 then 1 else if 0xC0 <= first < 0xE0 then 2
                    else if 0xE0 <= first < 0xF0 then 3 else if 0xF0 <= first < 0xF8 then 4 else 0)
    && forall i :: 1 <= i < |octets| ==> 0x80 <= octets[i] as int < 0xC0
  }

  /** The octets of a character are well marked and stand for it. */
  lemma EncodeCharIs(c: char)
    ensures WellMarked(EncodeChar(c)) && CodeOf(EncodeChar(c)) == c as int
  {
    Sextets(c as int);
  }

  lemma Sextets(n: nat)
    ensures n == n / 64 * 64 + n % 64
    ensures n / 64 == n / 4096 * 64 + n / 64 % 64
    ensures n / 4096 == n / 0x4_0000 * 64 + n / 4096 % 64
  {
    assert n / 64 / 64 == n / 4096;
    assert n / 4096 / 64 == n / 0x4_0000;
  }

  /** `as_bytes`. */
  function Encode(s: string): string {
    if s == "" then "" else EncodeChar(s[0]) + Encode(s[1..])
  }

  /** `len()` of a character and of a string. */
  function Width(c: char): (n: nat)
    ensures n >= 1
  {
    if c as int < 0x80 then 1 else if c as int < 0x800 then 2 else if c as int < 0x1_0000 then 3 else 4
  }

  function Length(s: string): (n: nat)
    ensures n >= |s|
  {
    if s == "" then 0 else Width(s[0]) + Length(s[1..])
  }

  predicate IsAscii(c: char) { c as int < 128 }

  /** An octet read as a character. */
  lemma OctetWidth(c: char)
    requires c as int < 256
    ensures Width(c) == if IsAscii(c) then 1 else 2
  {}

  predicate Ascii(s: string) { forall i :: 0 <= i < |s| ==> IsAscii(s[i]) }

  lemma {:induction false} EncodeLength(s: string)
    ensures |Encode(s)| == Length(s)
  {
    if s != "" { EncodeLength(s[1..]); }
  }

  lemma {:induction false} EncodeConcat(s: string, t: string)
    ensures Encode(s + t) == Encode(s) + Encode(t)
  {
    if s == "" {
      assert s + t == t;
    } else {
      assert (s + t)[1..] == s[1..] + t;
      EncodeConcat(s[1..], t);
    }
  }

  lemma {:induction false} LengthConcat(s: string, t: string)
    ensures Length(s + t) == Length(s) + Length(t)
  {
    if s == "" {
      assert s + t == t;
    } else {
      assert (s + t)[1..] == s[1..] + t;
      LengthConcat(s[1..], t);
    }
  }

  lemma LengthPush(s: string, c: char)
    ensures Length(s + [c]) == Length(s) + Width(c)
  {
    LengthConcat(s, [c]);
    assert [c][1..] == "";
  }

  function Repeat(c: char, n: nat): (s: string)
    ensures |s| == n && forall i :: 0 <= i < n ==> s[i] == c
  {
    if n == 0 then "" else [c] + Repeat(c, n - 1)
  }

  lemma {:induction false} RepeatLength(c: char, n: nat)
    ensures Length(Repeat(c, n)) == n * Width(c)
  {
    if n > 0 {
      RepeatLength(c, n - 1);
      assert Repeat(c, n)[1..] == Repeat(c, n - 1);
    }
  }

  lemma RepeatPrefix(c: char, n: nat, k: nat)
    requires k <= n
    ensures Repeat(c, n)[..k] == Repeat(c, k)
  {}

  /** A text is its own octets exactly when it is ASCII. */
  lemma {:induction false} SameIffAscii(s: string)
    ensures Encode(s) == s <==> Ascii(s)
    ensures Length(s) == |s| <==> Ascii(s)
  {
    if s == "" {
    } else {
      SameIffAscii(s[1..]);
      EncodeLength(s);
      assert s == [s[0]] + s[1..];
      assert Ascii(s) <==> IsAscii(s[0]) && Ascii(s[1..]);
      if Ascii(s) { assert Encode(s) == [s[0]] + s[1..]; }
    }
  }

  /** The ASCII octets of a text are its ASCII characters. */
  lemma {:induction false} AsciiOctets(s: string, c: char)
    requires IsAscii(c)
    ensures c in Encode(s) <==> c in s
  {
    if s != "" {
      AsciiOctets(s[1..], c);
      assert s == [s[0]] + s[1..];
      assert c in EncodeChar(s[0]) <==> c == s[0];
    }
  }

  lemma {:induction false} TokenOctets(s: string)
    ensures IsToken(Encode(s)) <==> IsToken(s)
    ensures IsToken(s) ==> Encode(s) == s
  {
    if s == "" {
    } else {
      TokenOctets(s[1..]);
      var first, rest := EncodeChar(s[0]), Encode(s[1..]);
      TokenConcat(first, rest);
      TokenConcat([s[0]], s[1..]);
      assert s == [s[0]] + s[1..];
      assert IsToken([s[0]]) <==> IsTokenItem([s[0]][0]);
      if !IsAscii(s[0]) { assert !IsTokenItem(first[0]); }
    }
  }

  lemma TokenConcat(s: string, t: string)
    ensures IsToken(s + t) <==> IsToken(s) && IsToken(t)
  {
    if IsToken(s + t) {
      forall i | 0 <= i < |s| ensures IsTokenItem(s[i]) { assert (s + t)[i] == s[i]; }
      forall i | 0 <= i < |t| ensures IsTokenItem(t[i]) { assert (s + t)[|s| + i] == t[i]; }
    }
  }

  lemma OneLineOctets(s: string)
    ensures OneLine(Encode(s)) <==> OneLine(s)
    ensures StartsBlank(Encode(s)) <==> StartsBlank(s)
  {
    AsciiOctets(s, CR);
    AsciiOctets(s, LF);
  }
}
