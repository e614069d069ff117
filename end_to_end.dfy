/** The download-filename contract between the two programs: the server writes
    `attachment; filename="member-registration-<name>.docx"` (word_form_be/src/index.ts:54)
    and the client reads it back with its two regular expressions
    (word_form_fe/src/App.tsx:57-70). */
module EndToEnd {
  import opened Basics
  import UriCodec
  import Disposition
  import Client = RegistrationForm
  import Server = GenerateDocx

  const NamePrefix := "member-registration-"
  const NameSuffix := ".docx"

  /** The filename the server means for a submitted name. */
  function IntendedFilename(name: string): string {
    NamePrefix + name + NameSuffix
  }

  // ---------------------------------------------------------------------------
  // Facts about the header text

  lemma FixedTextParts()
    ensures Server.DispositionPrefix == "attachment; " + "filename=\"" + NamePrefix
    ensures Server.DispositionSuffix == NameSuffix + "\""
    ensures Disposition.Literal(Disposition.Quoted) == "filename=\""
  {
    PrefixParts();
  }

  /** The first fact of FixedTextParts on its own, so that the verifier meets the
      42-character literal in a small proof. */
  lemma PrefixParts()
    ensures Server.DispositionPrefix == "attachment; " + "filename=\"" + NamePrefix
  {
  }

  lemma FixedTextChars()
    ensures forall j :: 0 <= j < 12 ==> "attachment; "[j] != 'f'
    ensures '"' !in NamePrefix && '"' !in NameSuffix
    ensures '*' !in "attachment; " && '*' !in "filename=\"" && '*' !in NamePrefix && '*' !in NameSuffix
  {
  }

  /** The server's header is `attachment; `, then `filename="`, then the intended
      filename, then a closing quote. */
  lemma HeaderLayout(name: string)
    ensures var h := Server.ContentDisposition(name);
            var file := IntendedFilename(name);
            && h == "attachment; " + "filename=\"" + file + "\""
            && |file| == |name| + 25
            && |h| == |file| + 23
            && h[..12] == "attachment; "
            && h[12..22] == "filename=\""
            && h[22..22 + |file|] == file
            && h[22 + |file|] == '"'
  {
    FixedTextParts();
    var file := IntendedFilename(name);
    assert Server.ContentDisposition(name) == "attachment; " + "filename=\"" + file + "\"";
  }

  /** Only the name can bring a `*` into the header. */
  lemma StarOnlyFromName(name: string)
    ensures '*' in Server.ContentDisposition(name) <==> '*' in name
  {
    FixedTextParts();
    FixedTextChars();
  }

  /** Only the name can bring a `"` into the intended filename. */
  lemma QuoteOnlyFromName(name: string)
    ensures '"' in IntendedFilename(name) <==> '"' in name
  {
    FixedTextChars();
  }

  lemma QuotedLiteralStartsWithF(s: string, j: nat)
    requires Disposition.LiteralAt(s, Disposition.Literal(Disposition.Quoted), j)
    ensures s[j] == 'f'
  {
    FixedTextParts();
    assert s[j] == s[j..j + 10][0];
  }

  /** The quoted form of a server header starts at position 12, after `attachment; `,
      and nowhere before. */
  lemma QuotedFormAt12(name: string)
    ensures var h := Server.ContentDisposition(name);
            && Disposition.MatchesAt(Disposition.Quoted, h, 12)
            && forall j: nat :: j < 12 ==> !Disposition.MatchesAt(Disposition.Quoted, h, j)
  {
    var h := Server.ContentDisposition(name);
    var file := IntendedFilename(name);
    HeaderLayout(name);
    FixedTextParts();
    FixedTextChars();
    assert h[22] == file[0] == 'm';
    var n := Disposition.RunLength(h, 22, '"');
    assert n > 0 && 22 + n < |h|;
    forall j: nat | j < 12
      ensures !Disposition.LiteralAt(h, Disposition.Literal(Disposition.Quoted), j)
    {
      assert h[j] == h[..12][j];
      if Disposition.LiteralAt(h, Disposition.Literal(Disposition.Quoted), j) {
        QuotedLiteralStartsWithF(h, j);
      }
    }
  }

  /** Without an extended form, the client takes the quote-free run after the
      server's `filename="`. */
  lemma ServerHeaderReadsQuoted(name: string)
    requires '*' !in name
    ensures var h := Server.ContentDisposition(name);
            Disposition.FilenameOf(Some(h)) == Success(h[22..22 + Disposition.RunLength(h, 22, '"')])
  {
    var h := Server.ContentDisposition(name);
    StarOnlyFromName(name);
    Disposition.NoStarNoExtended(h);
    QuotedFormAt12(name);
    Disposition.QuotedFormFallback(h, 12);
  }

  // ---------------------------------------------------------------------------
  // The round trip

  /** Parsing the header the server built gives back exactly
      member-registration-<name>.docx, for every name without `"` and `*`. */
  lemma HeaderRoundTrip(name: string)
    requires '"' !in name && '*' !in name
    ensures Disposition.FilenameOf(Some(Server.ContentDisposition(name))) == Success(IntendedFilename(name))
  {
    var h := Server.ContentDisposition(name);
    var file := IntendedFilename(name);
    assert Disposition.RunLength(h, 22, '"') == |file| && h[22..22 + |file|] == file by {
      HeaderLayout(name);
      QuoteOnlyFromName(name);
      RunBeforeQuote(h, 22, file, |file|);
    }
    ServerHeaderReadsQuoted(name);
  }

  /** A `"` in the name cuts the filename short at the first quote. */
  lemma QuoteInNameTruncates(name: string, k: nat)
    requires '*' !in name
    requires k < |name| && name[k] == '"' && '"' !in name[..k]
    ensures Disposition.FilenameOf(Some(Server.ContentDisposition(name))) ==
            Success(NamePrefix + name[..k])
  {
    var h := Server.ContentDisposition(name);
    var file := IntendedFilename(name);
    var cut := NamePrefix + name[..k];
    assert Disposition.RunLength(h, 22, '"') == 20 + k && h[22..42 + k] == cut by {
      HeaderLayout(name);
      FixedTextChars();
      assert file[..20 + k] == cut;
      assert file[20 + k] == '"';
      RunBeforeQuote(h, 22, file, 20 + k);
    }
    ServerHeaderReadsQuoted(name);
  }

  /** Where t sits at position a of h, and its first m characters are free of `"`
      and followed by `"` (or by the end of t, which h continues with `"`), the
      greedy `[^"]+` at a takes exactly those m characters. */
  lemma RunBeforeQuote(h: string, a: nat, t: string, m: nat)
    requires a + |t| <= |h| && h[a..a + |t|] == t
    requires m <= |t| && '"' !in t[..m]
    requires if m < |t| then t[m] == '"' else a + |t| == |h| || h[a + |t|] == '"'
    ensures Disposition.RunLength(h, a, '"') == m
    ensures h[a..a + m] == t[..m]
  {
    forall i | a <= i < a + m
      ensures h[i] != '"'
    {
      assert h[i] == t[..m][i - a];
    }
    if m < |t| {
      assert h[a + m] == t[m];
    }
    Disposition.RunLengthIs(h, a, '"', m);
    assert h[a..a + m] == h[a..a + |t|][..m];
  }

  /** So HeaderRoundTrip needs the `"` exclusion: the name `a"b` is saved as
      `member-registration-a`. */
  lemma QuotedNameCounterexample()
    ensures Disposition.FilenameOf(Some(Server.ContentDisposition("a\"b"))) ==
            Success("member-registration-a")
  {
    var name := "a\"b";
    assert '*' !in name && name[1] == '"';
    assert name[..1] == "a" && '"' !in name[..1];
    QuoteInNameTruncates(name, 1);
    assert NamePrefix + "a" == "member-registration-a";
  }

  /** And it needs the `*` exclusion: a name that carries the extended form takes
      over the filename, and the client saves the server's fixed `.docx"` tail
      after it, quote and all. */
  lemma ExtendedNameTakesOver(x: string)
    requires ';' !in x && '%' !in x
    ensures Disposition.FilenameOf(Some(Server.ContentDisposition(Disposition.Literal(Disposition.Extended) + x))) ==
            Success(x + Server.DispositionSuffix)
  {
    var lit := Disposition.Literal(Disposition.Extended);
    var h := Server.ContentDisposition(lit + x);
    var v := x + Server.DispositionSuffix;
    assert h == Server.DispositionPrefix + (lit + v) && |lit| == 17 && |Server.DispositionPrefix| == 42 by {
      FixedTextParts();
    }
    assert h[42..59] == lit;
    assert h[59..] == v;
    assert forall k :: 0 <= k < 50 ==> h[k] != '*' by {
      FixedTextParts();
      FixedTextChars();
      ExtendedLiteralHead();
      forall k | 0 <= k < 50
        ensures h[k] != '*'
      {
        if k < 42 {
          assert h[k] == Server.DispositionPrefix[k];
        } else {
          assert h[k] == lit[k - 42];
        }
      }
    }
    assert ';' !in v && '%' !in v by {
      FixedTextParts();
      assert ';' !in NameSuffix + "\"" && '%' !in NameSuffix + "\"";
    }
    ExtendedFormAfterStarFree(h, 42, v);
    UriCodec.DecodeWithoutPercent(v);
  }

  lemma ExtendedLiteralHead()
    ensures forall k :: 0 <= k < 8 ==> Disposition.Literal(Disposition.Extended)[k] != '*'
  {
  }

  /** An extended form at i, with no `*` before its own, running to the end of a
      header that has no `;` after it, is the one the client decodes. */
  lemma ExtendedFormAfterStarFree(h: string, i: nat, v: string)
    requires Disposition.LiteralAt(h, Disposition.Literal(Disposition.Extended), i)
    requires forall k :: 0 <= k < i + 8 ==> h[k] != '*'
    requires h[i + 17..] == v && v != [] && ';' !in v
    ensures Disposition.FilenameOf(Some(h)) == UriCodec.Decode(v)
  {
    var a := i + 17;
    assert Disposition.CaptureStart(Disposition.Extended, i) == a by {
      assert |Disposition.Literal(Disposition.Extended)| == 17;
    }
    RunToEnd(h, a, v);
    NoExtendedBeforeStar(h, i);
    assert h[a..a + Disposition.RunLength(h, a, ';')] == v;
    Disposition.ExtendedFormWins(h, i);
  }

  /** A `;`-free tail is taken whole by the greedy `[^;]+`. */
  lemma RunToEnd(h: string, a: nat, v: string)
    requires a <= |h| && h[a..] == v && ';' !in v
    ensures Disposition.RunLength(h, a, ';') == |v|
  {
    forall k | a <= k < |h|
      ensures h[k] != ';'
    {
      assert h[k] == v[k - a];
    }
    Disposition.RunLengthIs(h, a, ';', |v|);
  }

  /** The extended form cannot start where the `*` of its literal would fall in a
      `*`-free prefix. */
  lemma NoExtendedBeforeStar(h: string, i: nat)
    requires i + 8 <= |h|
    requires forall k :: 0 <= k < i + 8 ==> h[k] != '*'
    ensures forall j: nat :: j < i ==> !Disposition.MatchesAt(Disposition.Extended, h, j)
  {
    forall j: nat | j < i
      ensures !Disposition.LiteralAt(h, Disposition.Literal(Disposition.Extended), j)
    {
      if Disposition.LiteralAt(h, Disposition.Literal(Disposition.Extended), j) {
        Disposition.ExtendedLiteralHasStar(h, j);
      }
    }
  }

  // ---------------------------------------------------------------------------
  // The whole exchange

  /** JSON.stringify on the client and express.json on the server carry the five
      strings over unchanged, for a body within express.json's size limit (a
      larger one is answered 413 before the handler runs; not modelled). */
  function Transmit(f: Client.FormData): Server.MemberData {
    Server.MemberData(f.name, f.idCardNumber, f.email, f.phone, f.address)
  }

  /** What fetch shows the client of the server's response: ok for a 2xx status,
      the Content-Disposition header (which the server's CORS setting exposes to
      scripts) and the body. */
  function Receive(r: Server.ResponseState): Client.FetchOutcome {
    Client.Received(
      200 <= r.statusCode < 300,
      if Server.ContentDispositionHeader in r.headers
      then Some(r.headers[Server.ContentDispositionHeader]) else None,
      match r.body
      case Binary(bytes) => Success(bytes)
      case _ => Success([]))
  }

  /** The outcome of posting a form to the handler. */
  function Exchange(engine: Server.DocumentEngine, f: Client.FormData): Client.FetchOutcome {
    Receive(Server.HandledResponse(engine, Transmit(f), Server.FreshResponse))
  }

  /** A successful merge for a name the header can carry and the regexes read back
      ends in a success status and a download of the generated document under
      member-registration-<name>.docx. */
  lemma DownloadIsNamedAfterMember(engine: Server.DocumentEngine, f: Client.FormData)
    requires Server.MergeDocument(engine, Transmit(f)).Success?
    requires Server.IsValidHeaderValue(f.name)
    requires '"' !in f.name && '*' !in f.name
    ensures Client.SubmitResult(Exchange(engine, f)) ==
            Client.SubmitEnd(
              Client.Status(Client.Succeeded, Client.SuccessMessage),
              Some(Client.Download(IntendedFilename(f.name),
                                   Server.MergeDocument(engine, Transmit(f)).value)))
  {
    Server.SuccessResponse(engine, Transmit(f));
    HeaderRoundTrip(f.name);
  }

  /** Any failure on the server (a failed merge, or a name setHeader refuses)
      reaches the user as an error status, and nothing is downloaded. */
  lemma ServerFailureIsReported(engine: Server.DocumentEngine, f: Client.FormData)
    requires Server.MergeDocument(engine, Transmit(f)).Failure? || !Server.IsValidHeaderValue(f.name)
    ensures Client.SubmitResult(Exchange(engine, f)) ==
            Client.SubmitEnd(
              Client.Status(Client.Failed, Client.ErrorPrefix + "Error: Failed to generate document"),
              None)
  {
    Server.ResponseOutcomes(engine, Transmit(f));
  }
}
