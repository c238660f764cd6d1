/** `common.rs`: numbers and the HTTP version read octet by octet. */
module Common {
  import opened Octets
  import opened Numbers
  import opened BufferedStreams

  const UINT_RANGE: nat := 0x1_0000_0000_0000_0000

  /** Arithmetic on a `uint` of 64 bits. */
  function Wrap(n: nat): nat { n % UINT_RANGE }

  type u8 = n: nat | n < 256

  /** The loop of `read_uint`, with an accumulator of 64 bits that wraps around. */
  function UintFrom(input: string, digits: nat, n: nat, limit: nat, next: char): (Option<nat>, string)
    decreases |input|
  {
    if digits == limit then (None, input)
    else if input == "" then (None, "")
    else if IsDigit(input[0], 10) then
      UintFrom(input[1..], digits + 1, Wrap(n * 10 + DigitValue(input[0])), limit, next)
    else if input[0] == next then (Some(n), input[1..])
    else (None, input[1..])
  }

  /** `max_digits + 1`, computed in eight bits. */
  function Limit(maxDigits: u8): u8 { if maxDigits == 255 then 0 else maxDigits + 1 }

  function ReadUint(input: string, maxDigits: u8, next: char): (Option<nat>, string) {
    UintFrom(input, 0, 0, Limit(maxDigits), next)
  }

  method ReadUintFrom(stream: BufferedStream, maxDigits: u8, next: char) returns (r: Option<nat>)
    requires stream.Valid()
    modifies stream`readPos, stream`readMax, stream.readBuffer, stream.wrapped`incoming
    ensures stream.Valid() && (r, stream.Unread()) == ReadUint(old(stream.Unread()), maxDigits, next)
  {
    var digits, n: nat := 0, 0;
    while true
      invariant stream.Valid() && digits <= Limit(maxDigits)
      invariant UintFrom(stream.Unread(), digits, n, Limit(maxDigits), next) ==
                  ReadUint(old(stream.Unread()), maxDigits, next)
      decreases Limit(maxDigits) - digits
    {
      if digits == Limit(maxDigits) { return None; }
      var b := stream.ReadByte();
      match b {
        case Some(c) =>
          if '0' <= c <= '9' {
            n := Wrap(n * 10 + (c as int - '0' as int));
          } else if c == next {
            return Some(n);
          } else {
            return None;
          }
        case None => return None;
      }
      digits := digits + 1;
    }
  }

  function Power10(k: nat): nat { if k == 0 then 1 else 10 * Power10(k - 1) }

  lemma {:induction false} Power10Grows(a: nat, b: nat)
    requires a <= b
    ensures Power10(a) <= Power10(b)
  {
    if a < b { Power10Grows(a, b - 1); }
  }

  /** The largest power of ten that 64 bits hold. */
  lemma Power10Fits()
    ensures Power10(4) == 10_000
    ensures Power10(19) == 10_000_000_000_000_000_000 < UINT_RANGE
  {
    assert Power10(4) == 10_000;
    assert Power10(8) == 100_000_000;
    assert Power10(12) == 1_000_000_000_000;
    assert Power10(16) == 10_000_000_000_000_000;
  }

  lemma {:induction false} DecimalBound(s: string)
    requires AllDigits(s, 10)
    ensures NumberValue(s, 10) < Power10(|s|)
  {
    if s == "" {
    } else {
      var front := s[..|s| - 1];
      assert AllDigits(front, 10) && IsDigit(s[|s| - 1], 10);
      DecimalBound(front);
    }
  }

  lemma NumberStep(s: string, d: char)
    ensures NumberValue(s + [d], 10) == NumberValue(s, 10) * 10 + DigitValue(d)
  {}

  lemma WrapStep(a: nat, d: nat)
    ensures Wrap(Wrap(a) * 10 + d) == Wrap(a * 10 + d)
  {
    var q := a / UINT_RANGE;
    assert a * 10 + d == (Wrap(a) * 10 + d) + UINT_RANGE * (q * 10);
    WrapMultiple(Wrap(a) * 10 + d, q * 10);
  }

  lemma {:induction false} WrapMultiple(x: nat, k: nat)
    ensures Wrap(x + UINT_RANGE * k) == Wrap(x)
  {
    if k > 0 { WrapMultiple(x, k - 1); }
  }

  lemma AccumulatorStep(read: string, d: char)
    ensures Wrap(Wrap(NumberValue(read, 10)) * 10 + DigitValue(d)) == Wrap(NumberValue(read + [d], 10))
  {
    NumberStep(read, d);
    WrapStep(NumberValue(read, 10), DigitValue(d));
  }

  lemma MoveDigit(read: string, input: string, k: nat)
    requires 0 < k <= |input|
    ensures read + [input[0]] + input[1..][..k - 1] == read + input[..k]
  {}

  /** The loop after the digits `read`, in terms of the digits that lead the rest of the input. */
  lemma {:induction false} UintFromReads(read: string, input: string, limit: nat, next: char)
    requires |read| <= limit
    ensures
      var k := LeadingDigits(input, 10);
      UintFrom(input, |read|, Wrap(NumberValue(read, 10)), limit, next) ==
        if |read| + k >= limit then (None, input[limit - |read|..])
        else if k == |input| then (None, "")
        else if input[k] == next then (Some(Wrap(NumberValue(read + input[..k], 10))), input[k + 1..])
        else (None, input[k + 1..])
    decreases |input|
  {
    if |read| == limit {
      assert input[0..] == input;
    } else if input == "" || !IsDigit(input[0], 10) {
      assert read + input[..0] == read;
    } else {
      var k := LeadingDigits(input, 10);
      AccumulatorStep(read, input[0]);
      UintFromReads(read + [input[0]], input[1..], limit, next);
      MoveDigit(read, input, k);
    }
  }

  /** `read_uint` reads the leading digits, at most `maxDigits` of them, and then `next`; what it
      returns is their value up to wrap-around.  With a limit of 255 digits it reads nothing. */
  lemma ReadUintValue(input: string, maxDigits: u8, next: char)
    ensures
      var k := LeadingDigits(input, 10);
      ReadUint(input, maxDigits, next) ==
        if maxDigits == 255 then (None, input)
        else if k > maxDigits then (None, input[maxDigits + 1..])
        else if k == |input| then (None, "")
        else if input[k] == next then (Some(Wrap(NumberValue(input[..k], 10))), input[k + 1..])
        else (None, input[k + 1..])
  {
    UintReads(input, Limit(maxDigits), next);
    assert input[0..] == input;
  }

  lemma UintReads(input: string, limit: nat, next: char)
    ensures
      var k := LeadingDigits(input, 10);
      UintFrom(input, 0, 0, limit, next) ==
        if k >= limit then (None, input[limit..])
        else if k == |input| then (None, "")
        else if input[k] == next then (Some(Wrap(NumberValue(input[..k], 10))), input[k + 1..])
        else (None, input[k + 1..])
  {
    UintFromReads("", input, limit, next);
    var digits := input[..LeadingDigits(input, 10)];
    assert "" + digits == digits;
    NothingRead();
  }

  lemma NothingRead()
    ensures Wrap(NumberValue("", 10)) == 0
  {}

  lemma DecimalFits(s: string, maxDigits: nat)
    requires AllDigits(s, 10) && |s| <= maxDigits <= 19
    ensures Wrap(NumberValue(s, 10)) == NumberValue(s, 10) < Power10(maxDigits)
  {
    DecimalBound(s);
    Power10Grows(|s|, maxDigits);
    Power10Grows(maxDigits, 19);
    Power10Fits();
  }

  /** With up to 19 digits the number returned is the exact value of the digits consumed, although
      the accumulator wraps on longer input. */
  lemma ReadUintExact(input: string, maxDigits: u8, next: char)
    requires maxDigits <= 19
    ensures
      var (r, k) := (ReadUint(input, maxDigits, next).0, LeadingDigits(input, 10));
      r.Some? ==> r.value == NumberValue(input[..k], 10) < Power10(maxDigits)
  {
    ReadUintValue(input, maxDigits, next);
    var k := LeadingDigits(input, 10);
    if k <= maxDigits { DecimalFits(input[..k], maxDigits); }
  }

  // ---------------------------------------------------------------- the HTTP version

  /** One octet that must be one of two. */
  function Expect(input: string, a: char, b: char): (bool, string) {
    if input == "" then (false, "") else (input[0] == a || input[0] == b, input[1..])
  }

  method ExpectByte(stream: BufferedStream, a: char, b: char) returns (ok: bool)
    requires stream.Valid()
    modifies stream`readPos, stream`readMax, stream.readBuffer, stream.wrapped`incoming
    ensures stream.Valid() && (ok, stream.Unread()) == Expect(old(stream.Unread()), a, b)
  {
    var c := stream.ReadByte();
    ok := c == Some(a) || c == Some(b);
  }

  /** "HTTP/" in any case, then two numbers of at most four digits ended by '.' and by `next`. */
  function ReadVersion(input: string, next: char): (Option<(nat, nat)>, string) {
    var (h, r1) := Expect(input, 'h', 'H');
    if !h then (None, r1) else
    var (t, r2) := Expect(r1, 't', 'T');
    if !t then (None, r2) else
    var (u, r3) := Expect(r2, 't', 'T');
    if !u then (None, r3) else
    var (p, r4) := Expect(r3, 'p', 'P');
    if !p then (None, r4) else
    var (slash, r5) := Expect(r4, '/', '/');
    if !slash then (None, r5) else
    var (major, r6) := ReadUint(r5, 4, '.');
    if major.None? then (None, r6) else
    var (minor, r7) := ReadUint(r6, 4, next);
    if minor.None? then (None, r7) else (Some((major.value, minor.value)), r7)
  }

  method ReadHttpVersion(stream: BufferedStream, next: char) returns (r: Option<(nat, nat)>)
    requires stream.Valid()
    modifies stream`readPos, stream`readMax, stream.readBuffer, stream.wrapped`incoming
    ensures stream.Valid() && (r, stream.Unread()) == ReadVersion(old(stream.Unread()), next)
  {
    var ok := ExpectByte(stream, 'h', 'H');
    if !ok { return None; }
    ok := ExpectByte(stream, 't', 'T');
    if !ok { return None; }
    ok := ExpectByte(stream, 't', 'T');
    if !ok { return None; }
    ok := ExpectByte(stream, 'p', 'P');
    if !ok { return None; }
    ok := ExpectByte(stream, '/', '/');
    if !ok { return None; }
    var major := ReadUintFrom(stream, 4, '.');
    if major == None { return None; }
    var minor := ReadUintFrom(stream, 4, next);
    if minor == None { return None; }
    r := Some((major.value, minor.value));
  }

  /** "HTTP/" in any case, at most four digits, a dot, at most four digits and `next`. */
  predicate VersionStands(input: string, next: char) {
    |input| >= 5 && SameIgnoringCase(input[..5], "HTTP/") &&
    var k := LeadingDigits(input[5..], 10);
    k <= 4 && 5 + k < |input| && input[5 + k] == '.' &&
    var tail := input[5 + k + 1..];
    var m := LeadingDigits(tail, 10);
    m <= 4 && m < |tail| && tail[m] == next
  }

  /** A version is read exactly where one stands; either number may have no digits. */
  lemma VersionReadIff(input: string, next: char)
    ensures ReadVersion(input, next).0.Some? <==> VersionStands(input, next)
  {
    SlashIff(input);
    if |input| >= 5 && SameIgnoringCase(input[..5], "HTTP/") {
      assert input[1..][1..][1..][1..][1..] == input[5..];
      var k := LeadingDigits(input[5..], 10);
      NumberReadIff(input[5..], '.');
      if k <= 4 && 5 + k < |input| {
        assert input[5..][k] == input[5 + k] && input[5..][k + 1..] == input[5 + k + 1..];
        NumberReadIff(input[5 + k + 1..], next);
      }
    }
  }

  lemma NumberReadIff(input: string, next: char)
    ensures
      var k := LeadingDigits(input, 10);
      ReadUint(input, 4, next).0.Some? <==> k <= 4 && k < |input| && input[k] == next
    ensures ReadUint(input, 4, next).0.Some? ==> ReadUint(input, 4, next).1 == input[LeadingDigits(input, 10) + 1..]
  {
    ReadUintValue(input, 4, next);
  }

  lemma SlashIff(input: string)
    ensures |input| >= 5 && SameIgnoringCase(input[..5], "HTTP/") <==>
              && |input| >= 5 && (input[0] == 'h' || input[0] == 'H') && (input[1] == 't' || input[1] == 'T')
              && (input[2] == 't' || input[2] == 'T') && (input[3] == 'p' || input[3] == 'P') && input[4] == '/'
  {
    if |input| >= 5 {
      var a, b := input[..5], "HTTP/";
      assert SameIgnoringCase(a, b) <==>
             SameLetter(a[0], b[0]) && SameLetter(a[1], b[1]) && SameLetter(a[2], b[2]) && SameLetter(a[3], b[3])
             && SameLetter(a[4], b[4]);
    }
  }

  /** A version that was read stands in the input as it is, and its numbers are at most 9999. */
  lemma VersionIsExact(input: string, next: char)
    ensures
      var (r, rest) := ReadVersion(input, next);
      r.Some? ==>
        |input| >= 5 &&
        var major := input[5..][..LeadingDigits(input[5..], 10)];
        5 + |major| < |input| &&
        var tail := input[5 + |major| + 1..];
        var minor := tail[..LeadingDigits(tail, 10)];
        && r.value == (NumberValue(major, 10), NumberValue(minor, 10))
        && r.value.0 <= 9999 && r.value.1 <= 9999
        && input[5 + |major|] == '.' && |minor| < |tail| && tail[|minor|] == next && rest == tail[|minor| + 1..]
  {
    var (r, rest) := ReadVersion(input, next);
    if r.Some? {
      assert input[1..][1..][1..][1..][1..] == input[5..];
      ReadUintValue(input[5..], 4, '.');
      ReadUintExact(input[5..], 4, '.');
      var major := input[5..][..LeadingDigits(input[5..], 10)];
      assert input[5..][|major| + 1..] == input[5 + |major| + 1..];
      ReadUintValue(input[5 + |major| + 1..], 4, next);
      ReadUintExact(input[5 + |major| + 1..], 4, next);
      Power10Fits();
    }
  }
}
