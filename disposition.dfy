/** How the browser client picks the download filename out of a Content-Disposition
    header value (word_form_fe/src/App.tsx:57-70).

    Two regular expressions are tried, each with String.prototype.match, which
    reports the leftmost position where its pattern matches and the first capture
    group there:
      Extended  /filename\*=UTF-8''([^;]+)/   the capture is percent-decoded
      Quoted    /filename="([^"]+)"/          the capture is used as it is
    Extended is tried first; Quoted only when Extended does not match; the fixed
    default name is kept when the header is absent or empty or neither matches.
    Matching is case-sensitive, and there is no unescaping of quoted pairs. */
module Disposition {
  import opened Basics
  import UriCodec

  const DefaultFilename: string := "member-registration.docx"

  datatype Pattern = Extended | Quoted

  /** The literal text each pattern starts with. */
  function Literal(p: Pattern): string {
    match p
    case Extended => "filename*=UTF-8''"
    case Quoted => "filename=\""
  }

  /** The character the capture group of each pattern excludes. */
  function Terminator(p: Pattern): char {
    match p
    case Extended => ';'
    case Quoted => '"'
  }

  predicate LiteralAt(s: string, w: string, i: nat) {
    i + |w| <= |s| && s[i..i + |w|] == w
  }

  /** The length of the maximal run of characters other than c starting at i: the
      extent of a greedy `[^c]+`. */
  function RunLength(s: string, i: nat, c: char): (n: nat)
    requires i <= |s|
    ensures i + n <= |s|
    ensures forall k :: i <= k < i + n ==> s[k] != c
    ensures i + n == |s| || s[i + n] == c
    decreases |s| - i
  {
    if i == |s| || s[i] == c then 0 else 1 + RunLength(s, i + 1, c)
  }

  /** A run of n non-c characters at i that ends in c or in the end of s is the
      maximal run. */
  lemma RunLengthIs(s: string, i: nat, c: char, n: nat)
    requires i + n <= |s|
    requires forall k :: i <= k < i + n ==> s[k] != c
    requires i + n == |s| || s[i + n] == c
    ensures RunLength(s, i, c) == n
  {
  }

  function CaptureStart(p: Pattern, i: nat): nat {
    i + |Literal(p)|
  }

  /** The regular expression of p matches s at position i. A greedy `[^c]+` can
      only give back characters that are not c, so Quoted matches exactly when the
      maximal run is followed by a closing quote. */
  predicate MatchesAt(p: Pattern, s: string, i: nat) {
    && LiteralAt(s, Literal(p), i)
    && var n := RunLength(s, CaptureStart(p, i), Terminator(p));
    && n > 0
    && (p == Quoted ==> CaptureStart(p, i) + n < |s|)
  }

  /** The first capture group of a match of p at i. */
  function Captured(p: Pattern, s: string, i: nat): (v: string)
    requires MatchesAt(p, s, i)
    ensures v != [] && Terminator(p) !in v
    ensures var a := CaptureStart(p, i);
            && a + |v| <= |s| && s[a..a + |v|] == v
            && (a + |v| == |s| || s[a + |v|] == Terminator(p))
            && (p == Quoted ==> a + |v| < |s|)
  {
    var a := CaptureStart(p, i);
    s[a..a + RunLength(s, a, Terminator(p))]
  }

  /** The leftmost position at or after `from` where p matches. */
  function FirstMatch(p: Pattern, s: string, from: nat): (r: Option<nat>)
    requires from <= |s|
    ensures r.Some? ==> from <= r.value <= |s| && MatchesAt(p, s, r.value)
    ensures r.Some? ==> forall j: nat :: from <= j < r.value ==> !MatchesAt(p, s, j)
    ensures r.None? ==> forall j: nat :: from <= j ==> !MatchesAt(p, s, j)
    decreases |s| - from
  {
    if from == |s| then NoMatchAtEnd(p, s); None
    else if MatchesAt(p, s, from) then Some(from)
    else SkipNonMatch(p, s, from); FirstMatch(p, s, from + 1)
  }

  /** A position that does not match extends the no-match range of the search
      from the next one. */
  lemma SkipNonMatch(p: Pattern, s: string, from: nat)
    requires !MatchesAt(p, s, from)
    ensures forall j: nat :: from <= j < from + 1 ==> !MatchesAt(p, s, j)
  {
  }

  lemma NoMatchAtEnd(p: Pattern, s: string)
    ensures forall j: nat :: |s| <= j ==> !MatchesAt(p, s, j)
  {
    assert |Literal(p)| > 0;
  }

  /** The capture group of `s.match(p)`, or None when p matches nowhere. */
  function Match(p: Pattern, s: string): Option<string> {
    match FirstMatch(p, s, 0)
    case None => None
    case Some(i) => Some(Captured(p, s, i))
  }

  /** The filename the client downloads under, given the Content-Disposition header
      (None when the response has none); a failure is the URIError that
      decodeURIComponent throws. */
  function FilenameOf(contentDisposition: Option<string>): Result<string, UriCodec.UriError> {
    if contentDisposition.None? || contentDisposition.value == "" then Success(DefaultFilename)
    else
      var h := contentDisposition.value;
      match Match(Extended, h)
      case Some(encoded) => UriCodec.Decode(encoded)
      case None =>
        match Match(Quoted, h)
        case Some(quoted) => Success(quoted)
        case None => Success(DefaultFilename)
  }

  // ---------------------------------------------------------------------------
  // What FilenameOf promises

  /** The leftmost match is the one `match` reports. */
  lemma LeftmostMatch(p: Pattern, s: string, i: nat)
    requires MatchesAt(p, s, i)
    requires forall j: nat :: j < i ==> !MatchesAt(p, s, j)
    ensures Match(p, s) == Some(Captured(p, s, i))
  {
    assert FirstMatch(p, s, 0) == Some(i);
  }

  /** A header that is absent or empty leaves the default name. */
  lemma AbsentHeaderGivesDefault(h: Option<string>)
    requires h.None? || h == Some("")
    ensures FilenameOf(h) == Success(DefaultFilename)
  {
  }

  /** When the extended form matches, the filename is the percent-decoding of the
      maximal non-`;` run after its leftmost match, whatever quoted form the header
      also holds. */
  lemma ExtendedFormWins(h: string, i: nat)
    requires MatchesAt(Extended, h, i)
    requires forall j: nat :: j < i ==> !MatchesAt(Extended, h, j)
    ensures var a := CaptureStart(Extended, i);
            FilenameOf(Some(h)) == UriCodec.Decode(h[a..a + RunLength(h, a, ';')])
  {
    LeftmostMatch(Extended, h, i);
  }

  /** Without an extended form, the filename is the run between the first
      `filename="` that is followed by at least one character and a closing quote. */
  lemma QuotedFormFallback(h: string, i: nat)
    requires forall j: nat :: !MatchesAt(Extended, h, j)
    requires MatchesAt(Quoted, h, i)
    requires forall j: nat :: j < i ==> !MatchesAt(Quoted, h, j)
    ensures var a := CaptureStart(Quoted, i);
            FilenameOf(Some(h)) == Success(h[a..a + RunLength(h, a, '"')])
  {
    assert Match(Extended, h).None? by {
      assert FirstMatch(Extended, h, 0).None?;
    }
    var a := CaptureStart(Quoted, i);
    var v := Captured(Quoted, h, i);
    assert v == h[a..a + RunLength(h, a, '"')];
    assert Match(Quoted, h) == Some(v) by {
      LeftmostMatch(Quoted, h, i);
    }
    FilenameOfQuoted(h);
    assert FilenameOf(Some(h)) == Success(v);
  }

  lemma FilenameOfQuoted(h: string)
    requires Match(Extended, h).None? && Match(Quoted, h).Some?
    ensures FilenameOf(Some(h)) == Success(Match(Quoted, h).value)
  {
    assert h != "";
  }

  /** A header where neither form matches leaves the default name. */
  lemma NoFormGivesDefault(h: string)
    requires forall j: nat :: !MatchesAt(Extended, h, j)
    requires forall j: nat :: !MatchesAt(Quoted, h, j)
    ensures FilenameOf(Some(h)) == Success(DefaultFilename)
  {
    assert FirstMatch(Extended, h, 0).None?;
    assert FirstMatch(Quoted, h, 0).None?;
  }

  /** A malformed escape in the extended value makes the extraction throw. */
  lemma MalformedExtendedValueFails(h: string, i: nat, k: nat)
    requires MatchesAt(Extended, h, i)
    requires forall j: nat :: j < i ==> !MatchesAt(Extended, h, j)
    requires var v := Captured(Extended, h, i);
             k < |v| && v[k] == '%' && UriCodec.LeadingEscape(v[k..]).None?
    ensures FilenameOf(Some(h)).Failure?
  {
    LeftmostMatch(Extended, h, i);
    UriCodec.MalformedEscapeFails(Captured(Extended, h, i), k);
  }

  /** Extraction throws only through decodeURIComponent; every name it returns
      that did not come from the extended form is non-empty and free of `"`. */
  lemma FilenameShape(h: Option<string>)
    ensures FilenameOf(h).Failure? ==>
              h.Some? && Match(Extended, h.value).Some?
              && UriCodec.Decode(Match(Extended, h.value).value).Failure?
    ensures FilenameOf(h).Success? && (h.None? || Match(Extended, h.value).None?) ==>
              FilenameOf(h).value != [] && '"' !in FilenameOf(h).value
  {
  }

  /** Where the extended form has no `%` at all, its value is used verbatim. */
  lemma ExtendedWithoutPercentIsVerbatim(h: string)
    requires Match(Extended, h).Some? && '%' !in Match(Extended, h).value
    ensures FilenameOf(Some(h)) == Success(Match(Extended, h).value)
  {
    UriCodec.DecodeWithoutPercent(Match(Extended, h).value);
  }

  /** A header with no `*` never carries the extended form. */
  lemma NoStarNoExtended(s: string)
    requires '*' !in s
    ensures forall j: nat :: !LiteralAt(s, Literal(Extended), j)
    ensures forall j: nat :: !MatchesAt(Extended, s, j)
  {
    forall j: nat
      ensures !LiteralAt(s, Literal(Extended), j)
    {
      if LiteralAt(s, Literal(Extended), j) {
        ExtendedLiteralHasStar(s, j);
      }
    }
  }

  lemma ExtendedLiteralHasStar(s: string, j: nat)
    requires LiteralAt(s, Literal(Extended), j)
    ensures s[j + 8] == '*' && '*' in s
  {
    assert s[j + 8] == s[j..j + 17][8];
  }
}
