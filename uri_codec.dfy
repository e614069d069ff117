/** decodeURIComponent as ECMA-262 defines it (the Decode operation with an empty
    reserved set): every `%XY` escape is an octet, octets are read as UTF-8, and any
    escape that is not two hexadecimal digits, and any octet sequence that is not a
    well-formed UTF-8 encoding of one code point, raises URIError.

    Strings are sequences of code points here; a JavaScript string holds the UTF-16
    code units of the same code points.

    encodeURIComponent is given as the partner of Decode, and Decode is proved to
    invert it. */
module UriCodec {
  import opened Basics

  /** The one exception decodeURIComponent raises. */
  datatype UriError = UriMalformed

  predicate IsHexDigit(c: char) {
    '0' <= c <= '9' || 'A' <= c <= 'F' || 'a' <= c <= 'f'
  }

  function HexValue(c: char): (v: nat)
    requires IsHexDigit(c)
    ensures v < 16
  {
    if c <= '9' then c as int - '0' as int
    else if c <= 'F' then c as int - 'A' as int + 10
    else c as int - 'a' as int + 10
  }

  /** The upper-case digit encodeURIComponent writes for a value below 16. */
  function HexDigit(v: nat): (c: char)
    requires v < 16
    ensures IsHexDigit(c) && HexValue(c) == v
  {
    if v < 10 then ('0' as int + v) as char else ('A' as int + v - 10) as char
  }

  /** The octet that an escape `%XY` at the front of s stands for. */
  function LeadingEscape(s: string): Option<Byte> {
    if |s| >= 3 && s[0] == '%' && IsHexDigit(s[1]) && IsHexDigit(s[2])
    then Some(16 * HexValue(s[1]) + HexValue(s[2]))
    else None
  }

  /** The number of leading one bits of an octet: 0 for an ASCII octet, 1 for a
      continuation octet, 2 to 4 for the first octet of a multi-octet sequence. */
  function LeadingOnes(b: Byte): nat {
    if b < 0x80 then 0
    else if b < 0xC0 then 1
    else if b < 0xE0 then 2
    else if b < 0xF0 then 3
    else if b < 0xF8 then 4
    else if b < 0xFC then 5
    else if b < 0xFE then 6
    else if b < 0xFF then 7
    else 8
  }

  predicate IsContinuation(b: Byte) {
    0x80 <= b < 0xC0
  }

  /** The n continuation octets escaped at the front of s, if each of the n escapes
      is there and carries an octet 10xxxxxx. */
  function Continuations(s: string, n: nat): (r: Option<seq<Byte>>)
    ensures r.Some? ==> |r.value| == n && 3 * n <= |s|
    ensures r.Some? ==> forall i :: 0 <= i < n ==> IsContinuation(r.value[i])
    decreases n
  {
    if n == 0 then Some([])
    else match LeadingEscape(s)
      case None => None
      case Some(b) =>
        if !IsContinuation(b) then None
        else match Continuations(s[3..], n - 1)
          case None => None
          case Some(rest) => Some([b] + rest)
  }

  /** The code point that a lead octet and its continuation octets encode, provided
      they are a well-formed UTF-8 sequence: the shortest encoding of the value, not
      a surrogate, and at most U+10FFFF. */
  function Utf8Scalar(lead: Byte, cont: seq<Byte>): Option<char>
    requires 2 <= LeadingOnes(lead) <= 4 && |cont| == LeadingOnes(lead) - 1
  {
    var v :=
      if |cont| == 1 then (lead as int - 0xC0) * 64 + (cont[0] as int - 0x80)
      else if |cont| == 2 then
        (lead as int - 0xE0) * 4096 + (cont[0] as int - 0x80) * 64 + (cont[1] as int - 0x80)
      else
        (lead as int - 0xF0) * 262144 + (cont[0] as int - 0x80) * 4096
        + (cont[1] as int - 0x80) * 64 + (cont[2] as int - 0x80);
    var least := if |cont| == 1 then 0x80 else if |cont| == 2 then 0x800 else 0x10000;
    if least <= v <= 0x10FFFF && !(0xD800 <= v <= 0xDFFF) then Some(v as char) else None
  }

  /** c in front of a decoded rest; a failure of the rest is passed on. */
  function Prepend(c: char, r: Result<string, UriError>): Result<string, UriError> {
    match r
    case Success(t) => Success([c] + t)
    case Failure(e) => Failure(e)
  }

  /** decodeURIComponent(s). Escapes are decoded from left to right; no output
      character comes from fewer than one input character. */
  function Decode(s: string): (r: Result<string, UriError>)
    ensures r.Success? ==> |r.value| <= |s|
    decreases |s|
  {
    if s == [] then Success([])
    else if s[0] != '%' then Prepend(s[0], Decode(s[1..]))
    else match LeadingEscape(s)
      case None => Failure(UriMalformed)
      case Some(lead) =>
        var n := LeadingOnes(lead);
        if n == 0 then Prepend(lead as char, Decode(s[3..]))
        else if n == 1 || n > 4 then Failure(UriMalformed)
        else match Continuations(s[3..], n - 1)
          case None => Failure(UriMalformed)
          case Some(cont) =>
            match Utf8Scalar(lead, cont)
            case None => Failure(UriMalformed)
            case Some(c) => Prepend(c, Decode(s[3 * n..]))
  }

  /** A string with no `%` decodes to itself. */
  lemma {:induction false} DecodeWithoutPercent(s: string)
    requires '%' !in s
    ensures Decode(s) == Success(s)
  {
    if s != [] {
      assert s[0] in s;
      assert forall c :: c in s[1..] ==> c in s;
      DecodeWithoutPercent(s[1..]);
      assert [s[0]] + s[1..] == s;
    }
  }

  /** A `%` inside the escapes of a continuation run always starts an escape. */
  lemma {:induction false} ContinuationPercentIsEscape(s: string, n: nat, i: nat)
    requires Continuations(s, n).Some?
    requires i < 3 * n && s[i] == '%'
    ensures LeadingEscape(s[i..]).Some?
    decreases n
  {
    if i == 0 {
      assert s[i..] == s;
    } else if i >= 3 {
      assert s[3..][i - 3] == s[i];
      ContinuationPercentIsEscape(s[3..], n - 1, i - 3);
      assert s[3..][i - 3..] == s[i..];
    }
  }

  /** A `%` anywhere in s that is not followed by two hexadecimal digits makes
      decodeURIComponent throw URIError. */
  lemma {:induction false} MalformedEscapeFails(s: string, i: nat)
    requires i < |s| && s[i] == '%' && LeadingEscape(s[i..]).None?
    ensures Decode(s).Failure?
    decreases |s|
  {
    if i == 0 {
      assert s[i..] == s;
    } else if s[0] != '%' {
      ShiftedEscape(s, 1, i);
      MalformedEscapeFails(s[1..], i - 1);
    } else if LeadingEscape(s).Some? {
      var lead := LeadingEscape(s).value;
      var n := LeadingOnes(lead);
      if n == 0 {
        ShiftedEscape(s, 3, i);
        MalformedEscapeFails(s[3..], i - 3);
      } else if 2 <= n <= 4 && Continuations(s[3..], n - 1).Some? {
        var cont := Continuations(s[3..], n - 1).value;
        if Utf8Scalar(lead, cont).Some? {
          if i < 3 * n {
            assert s[3..][i - 3] == s[i];
            ContinuationPercentIsEscape(s[3..], n - 1, i - 3);
          }
          ShiftedEscape(s, 3 * n, i);
          MalformedEscapeFails(s[3 * n..], i - 3 * n);
        }
      }
    }
  }

  /** Position i of s is position i - k of s[k..]. */
  lemma ShiftedEscape(s: string, k: nat, i: nat)
    requires k <= i < |s|
    ensures s[k..][i - k] == s[i] && s[k..][i - k..] == s[i..]
  {
  }

  // ---------------------------------------------------------------------------
  // encodeURIComponent, the inverse Decode is proved against

  /** The characters encodeURIComponent leaves unescaped. */
  predicate IsUnreserved(c: char) {
    'A' <= c <= 'Z' || 'a' <= c <= 'z' || '0' <= c <= '9' || c in "-_.!~*'()"
  }

  /** The UTF-8 encoding of one code point. */
  function Utf8Octets(c: char): (bs: seq<Byte>)
    ensures 1 <= |bs| <= 4
    ensures LeadingOnes(bs[0]) == if |bs| == 1 then 0 else |bs|
    ensures forall i :: 1 <= i < |bs| ==> IsContinuation(bs[i])
  {
    var v := c as int;
    if v < 0x80 then [v]
    else if v < 0x800 then [0xC0 + v / 64, 0x80 + v % 64]
    else if v < 0x10000 then [0xE0 + v / 4096, 0x80 + (v / 64) % 64, 0x80 + v % 64]
    else [0xF0 + v / 262144, 0x80 + (v / 4096) % 64, 0x80 + (v / 64) % 64, 0x80 + v % 64]
  }

  function Escape(b: Byte): string {
    ['%', HexDigit(b / 16), HexDigit(b % 16)]
  }

  function EscapeAll(bs: seq<Byte>): (s: string)
    ensures |s| == 3 * |bs|
  {
    if bs == [] then [] else Escape(bs[0]) + EscapeAll(bs[1..])
  }

  function EncodeChar(c: char): string {
    if IsUnreserved(c) then [c] else EscapeAll(Utf8Octets(c))
  }

  /** encodeURIComponent(s). */
  function Encode(s: string): string {
    if s == [] then [] else EncodeChar(s[0]) + Encode(s[1..])
  }

  lemma EscapeRoundTrip(b: Byte, rest: string)
    ensures LeadingEscape(Escape(b) + rest) == Some(b)
  {
    var t := Escape(b) + rest;
    assert t[0] == '%' && t[1] == HexDigit(b / 16) && t[2] == HexDigit(b % 16);
  }

  lemma {:induction false} ContinuationsRoundTrip(bs: seq<Byte>, rest: string)
    requires forall i :: 0 <= i < |bs| ==> IsContinuation(bs[i])
    ensures Continuations(EscapeAll(bs) + rest, |bs|) == Some(bs)
  {
    if bs != [] {
      var t := EscapeAll(bs) + rest;
      assert t == Escape(bs[0]) + (EscapeAll(bs[1..]) + rest);
      EscapeRoundTrip(bs[0], EscapeAll(bs[1..]) + rest);
      assert t[3..] == EscapeAll(bs[1..]) + rest;
      ContinuationsRoundTrip(bs[1..], rest);
      assert [bs[0]] + bs[1..] == bs;
    }
  }

  lemma Utf8RoundTrip(c: char)
    requires |Utf8Octets(c)| > 1
    ensures Utf8Scalar(Utf8Octets(c)[0], Utf8Octets(c)[1..]) == Some(c)
  {
    var v := c as int;
    var bs := Utf8Octets(c);
    if v < 0x800 {
      Utf8RoundTrip2(v, bs);
    } else if v < 0x10000 {
      Utf8RoundTrip3(v, bs);
    } else {
      Utf8RoundTrip4(v, bs);
    }
  }

  lemma Utf8RoundTrip2(v: int, bs: seq<Byte>)
    requires 0x80 <= v < 0x800 && bs == [0xC0 + v / 64, 0x80 + v % 64]
    ensures (bs[0] as int - 0xC0) * 64 + (bs[1] as int - 0x80) == v
  {
  }

  lemma Utf8RoundTrip3(v: int, bs: seq<Byte>)
    requires 0x800 <= v < 0x10000
    requires bs == [0xE0 + v / 4096, 0x80 + (v / 64) % 64, 0x80 + v % 64]
    ensures (bs[0] as int - 0xE0) * 4096 + (bs[1] as int - 0x80) * 64 + (bs[2] as int - 0x80) == v
  {
    var w := v / 64;
    var u := w / 64;
    assert v == 64 * w + v % 64;
    assert w == 64 * u + w % 64;
    assert v / 4096 == u;
  }

  lemma Utf8RoundTrip4(v: int, bs: seq<Byte>)
    requires 0x10000 <= v < 0x110000
    requires bs == [0xF0 + v / 262144, 0x80 + (v / 4096) % 64, 0x80 + (v / 64) % 64, 0x80 + v % 64]
    ensures (bs[0] as int - 0xF0) * 262144 + (bs[1] as int - 0x80) * 4096
            + (bs[2] as int - 0x80) * 64 + (bs[3] as int - 0x80) == v
  {
    var w := v / 64;
    var u := w / 64;
    var t := u / 64;
    assert v == 64 * w + v % 64;
    assert w == 64 * u + w % 64;
    assert u == 64 * t + u % 64;
    assert v / 4096 == u;
    assert v / 262144 == t;
  }

  lemma DecodeEncodedChar(c: char, rest: string)
    ensures Decode(EncodeChar(c) + rest) == Prepend(c, Decode(rest))
  {
    var t := EncodeChar(c) + rest;
    if IsUnreserved(c) {
      assert t[0] == c && t[1..] == rest;
    } else {
      DecodeEscapedChar(c, rest);
    }
  }

  lemma DecodeEscapedChar(c: char, rest: string)
    ensures Decode(EscapeAll(Utf8Octets(c)) + rest) == Prepend(c, Decode(rest))
  {
    var bs := Utf8Octets(c);
    var t := EscapeAll(bs) + rest;
    assert EscapeAll(bs) == Escape(bs[0]) + EscapeAll(bs[1..]);
    assert t == Escape(bs[0]) + (EscapeAll(bs[1..]) + rest);
    EscapeRoundTrip(bs[0], EscapeAll(bs[1..]) + rest);
    assert t[3..] == EscapeAll(bs[1..]) + rest;
    assert t[3 * |bs|..] == rest;
    if |bs| == 1 {
      assert bs[0] as char == c;
    } else {
      ContinuationsRoundTrip(bs[1..], rest);
      Utf8RoundTrip(c);
    }
  }

  /** Decoding undoes encodeURIComponent: decodeURIComponent(encodeURIComponent(s)) == s. */
  lemma {:induction false} DecodeEncode(s: string)
    ensures Decode(Encode(s)) == Success(s)
  {
    if s != [] {
      DecodeEncodedChar(s[0], Encode(s[1..]));
      DecodeEncode(s[1..]);
      assert [s[0]] + s[1..] == s;
    }
  }
}
