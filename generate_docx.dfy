/** The `POST /api/generate-docx` handler (word_form_be/src/index.ts:29-62): merge
    the submitted record into the template, then set the two headers, then send the
    document; anything that throws on the way ends in a 500 with a fixed JSON body.

    The template engine (reading the template file, PizZip, docxtemplater) is
    opaque: each of its steps is a function given with the request that either
    yields its result or fails. */
module GenerateDocx {
  import opened Basics

  /** The JSON body of the request. */
  datatype MemberData = MemberData(
    name: string,
    idCardNumber: string,
    email: string,
    phone: string,
    address: string)

  const ContentTypeHeader := "Content-Type"
  const ContentDispositionHeader := "Content-Disposition"
  /** application/vnd.openxmlformats-officedocument.wordprocessingml.document,
      written in three pieces only so that the verifier can check its characters
      piece by piece (ContentTypeIsValid). */
  const DocxContentType := "application/vnd." + "openxmlformats-officedocument" + ".wordprocessingml.document"
  const GenerationFailed := "Failed to generate document"

  /** The Content-Disposition value for a submitted name, in the template string's
      words; the name is inserted without any escaping. */
  function ContentDisposition(name: string): string {
    DispositionPrefix + name + DispositionSuffix
  }

  const DispositionPrefix := "attachment; filename=\"member-registration-"
  const DispositionSuffix := ".docx\""

  /** The length of the text in front of the name. */
  const NameOffset := 42

  /** The value of the header holds the name verbatim, at a fixed offset. */
  lemma ContentDispositionEmbedsName(name: string)
    ensures |ContentDisposition(name)| == |name| + 48
    ensures ContentDisposition(name)[NameOffset..NameOffset + |name|] == name
  {
  }

  /** Distinct names give distinct header values. */
  lemma ContentDispositionInjective(a: string, b: string)
    requires ContentDisposition(a) == ContentDisposition(b)
    ensures a == b
  {
    ContentDispositionEmbedsName(a);
    ContentDispositionEmbedsName(b);
  }

  /** A character Node's setHeader accepts in a header value: tab, printable ASCII
      or an octet from 0x80 to 0xFF. Any other character makes it throw. */
  predicate IsHeaderChar(c: char) {
    c == '\t' || (' ' <= c <= '~') || (0x80 <= c as int <= 0xFF)
  }

  predicate IsValidHeaderValue(v: string) {
    forall i :: 0 <= i < |v| ==> IsHeaderChar(v[i])
  }

  lemma ConcatValid(a: string, b: string)
    requires IsValidHeaderValue(a) && IsValidHeaderValue(b)
    ensures IsValidHeaderValue(a + b)
  {
    forall i | 0 <= i < |a + b|
      ensures IsHeaderChar((a + b)[i])
    {
      if i >= |a| {
        assert (a + b)[i] == b[i - |a|];
      }
    }
  }

  /** The fixed parts of both header values are printable ASCII. */
  lemma FixedTextsAreValid()
    ensures IsValidHeaderValue(DispositionPrefix) && IsValidHeaderValue(DispositionSuffix)
    ensures IsValidHeaderValue(DocxContentType)
  {
    PrefixIsValid();
    SuffixIsValid();
    ContentTypeIsValid();
  }

  lemma PrefixIsValid()
    ensures IsValidHeaderValue(DispositionPrefix)
  {
    assert IsValidHeaderValue("attachment; filename=\"member-registration-");
  }

  lemma SuffixIsValid()
    ensures IsValidHeaderValue(DispositionSuffix)
  {
    assert IsValidHeaderValue(".docx\"");
  }

  lemma ContentTypeIsValid()
    ensures IsValidHeaderValue(DocxContentType)
  {
    var a, b, c := "application/vnd.", "openxmlformats-officedocument", ".wordprocessingml.document";
    LiteralIsValid(a);
    LiteralIsValid(b);
    LiteralIsValid(c);
    ConcatValid(a, b);
    ConcatValid(a + b, c);
    assert DocxContentType == a + b + c;
  }

  lemma LiteralIsValid(s: string)
    requires s in {"application/vnd.", "openxmlformats-officedocument", ".wordprocessingml.document"}
    ensures IsValidHeaderValue(s)
  {
    if s == "application/vnd." {
      assert IsValidHeaderValue("application/vnd.");
    } else if s == "openxmlformats-officedocument" {
      assert IsValidHeaderValue("openxmlformats-officedocument");
    } else {
      assert IsValidHeaderValue(".wordprocessingml.document");
    }
  }

  /** setHeader accepts the Content-Disposition value exactly when it accepts the
      name inside it. */
  lemma ContentDispositionValidIffNameValid(name: string)
    ensures IsValidHeaderValue(ContentDisposition(name)) <==> IsValidHeaderValue(name)
  {
    var v := ContentDisposition(name);
    ContentDispositionEmbedsName(name);
    FixedTextsAreValid();
    if IsValidHeaderValue(name) {
      forall i | 0 <= i < |v|
        ensures IsHeaderChar(v[i])
      {
        if i < NameOffset {
          assert v[i] == DispositionPrefix[i];
        } else if i < NameOffset + |name| {
          assert v[i] == name[i - NameOffset];
        } else {
          assert v[i] == DispositionSuffix[i - NameOffset - |name|];
        }
      }
    }
    if IsValidHeaderValue(v) {
      forall i | 0 <= i < |name|
        ensures IsHeaderChar(name[i])
      {
        assert name[i] == v[NameOffset + i];
      }
    }
  }

  // ---------------------------------------------------------------------------
  // The opaque template engine

  /** A PizZip archive, by its contents. */
  datatype Archive = Archive(entries: seq<Byte>)

  /** A docxtemplater document over an archive. */
  datatype Template = Template(archive: Archive)

  /** The five steps of the merge, each of which can throw (the string is what was
      thrown): read the template file, open it as a zip archive, compile the
      template (the Docxtemplater constructor), render the record into it, and
      generate the zip buffer. */
  datatype DocumentEngine = DocumentEngine(
    readTemplate: Result<seq<Byte>, string>,
    openZip: seq<Byte> -> Result<Archive, string>,
    compile: Archive -> Result<Template, string>,
    render: (Template, MemberData) -> Result<Template, string>,
    generate: Template -> Result<seq<Byte>, string>)

  /** Load, then render, then generate: the first step that throws ends the merge. */
  function MergeDocument(engine: DocumentEngine, data: MemberData): Result<seq<Byte>, string> {
    var content :- engine.readTemplate;
    var zip :- engine.openZip(content);
    var doc :- engine.compile(zip);
    var rendered :- engine.render(doc, data);
    engine.generate(rendered)
  }

  /** The merge yields a buffer only when every step succeeds, and then it is the
      generated buffer of the rendered template. */
  lemma MergeSucceedsExactly(engine: DocumentEngine, data: MemberData)
    ensures MergeDocument(engine, data).Success? <==>
            && engine.readTemplate.Success?
            && engine.openZip(engine.readTemplate.value).Success?
            && engine.compile(engine.openZip(engine.readTemplate.value).value).Success?
            && engine.render(engine.compile(engine.openZip(engine.readTemplate.value).value).value, data).Success?
            && engine.generate(engine.render(engine.compile(engine.openZip(engine.readTemplate.value).value).value, data).value).Success?
    ensures MergeDocument(engine, data).Success? ==>
            MergeDocument(engine, data) ==
            engine.generate(engine.render(engine.compile(engine.openZip(engine.readTemplate.value).value).value, data).value)
  {
  }

  // ---------------------------------------------------------------------------
  // The response

  datatype Body = NotSent | Binary(bytes: seq<Byte>) | JsonError(error: string)

  /** What the handler leaves in the response: status code, the headers it set, body. */
  datatype ResponseState = ResponseState(statusCode: nat, headers: map<string, string>, body: Body)

  /** The response as the handler finds it, counting only what the handler itself
      writes: status 200, none of the headers it sets, nothing sent. Headers that
      Express and the cors middleware set before the handler runs are not
      recorded. */
  const FreshResponse := ResponseState(200, map[], NotSent)

  /** The Express response object, as far as the handler uses it: the status code,
      the headers the handler sets, and the body. Headers set by middleware, and
      headers Express adds or rewrites while sending, are not recorded. */
  class ServerResponse {
    var statusCode: nat
    var headers: map<string, string>
    var body: Body

    constructor ()
      ensures State() == FreshResponse
    {
      statusCode := 200;
      headers := map[];
      body := NotSent;
    }

    function State(): ResponseState
      reads this
    {
      ResponseState(statusCode, headers, body)
    }

    /** res.setHeader: false where Node would throw for an invalid character. */
    method SetHeader(name: string, value: string) returns (accepted: bool)
      modifies this
      ensures accepted == IsValidHeaderValue(value)
      ensures headers == if accepted then old(headers)[name := value] else old(headers)
      ensures statusCode == old(statusCode) && body == old(body)
    {
      accepted := forall i :: 0 <= i < |value| ==> IsHeaderChar(value[i]);
      if accepted {
        headers := headers[name := value];
      }
    }

    /** res.status */
    method Status(code: nat)
      modifies this
      ensures statusCode == code && headers == old(headers) && body == old(body)
    {
      statusCode := code;
    }

    /** res.send with a buffer */
    method Send(bytes: seq<Byte>)
      modifies this
      ensures body == Binary(bytes) && statusCode == old(statusCode) && headers == old(headers)
    {
      body := Binary(bytes);
    }

    /** res.json with `{ error }` */
    method Json(error: string)
      modifies this
      ensures body == JsonError(error) && statusCode == old(statusCode) && headers == old(headers)
    {
      body := JsonError(error);
    }
  }

  /** The response the handler leaves, given the one it was handed. */
  function HandledResponse(engine: DocumentEngine, data: MemberData, before: ResponseState): ResponseState {
    match MergeDocument(engine, data)
    case Failure(_) => ResponseState(500, before.headers, JsonError(GenerationFailed))
    case Success(buf) =>
      var typed := before.headers[ContentTypeHeader := DocxContentType];
      var disposition := ContentDisposition(data.name);
      if IsValidHeaderValue(disposition)
      then ResponseState(before.statusCode, typed[ContentDispositionHeader := disposition], Binary(buf))
      else ResponseState(500, typed, JsonError(GenerationFailed))
  }

  /** The catch block: status 500 and the fixed error body. */
  method RespondWithError(res: ServerResponse)
    modifies res
    ensures res.State() == ResponseState(500, old(res.headers), JsonError(GenerationFailed))
  {
    res.Status(500);
    res.Json(GenerationFailed);
  }

  /** The route handler. */
  method HandleGenerateDocx(engine: DocumentEngine, memberData: MemberData, res: ServerResponse)
    modifies res
    ensures res.State() == HandledResponse(engine, memberData, old(res.State()))
  {
    var generated := MergeDocument(engine, memberData);
    if generated.Failure? {
      RespondWithError(res);
      return;
    }
    FixedTextsAreValid();
    var accepted := res.SetHeader(ContentTypeHeader, DocxContentType);
    accepted := res.SetHeader(ContentDispositionHeader, ContentDisposition(memberData.name));
    if !accepted {
      RespondWithError(res);
      return;
    }
    res.Send(generated.value);
  }

  // ---------------------------------------------------------------------------
  // What the handler promises, for the response Express hands it

  /** On success: status 200, the document content type, the attachment filename
      built from the name, and the generated buffer as the body. */
  lemma SuccessResponse(engine: DocumentEngine, data: MemberData)
    requires MergeDocument(engine, data).Success?
    requires IsValidHeaderValue(data.name)
    ensures HandledResponse(engine, data, FreshResponse) ==
            ResponseState(200,
                          map[ContentTypeHeader := DocxContentType,
                              ContentDispositionHeader := ContentDisposition(data.name)],
                          Binary(MergeDocument(engine, data).value))
  {
    ContentDispositionValidIffNameValid(data.name);
  }

  /** When loading, compiling, rendering or generating throws: status 500, the fixed
      error body, and no header set at all. */
  lemma GenerationFailureResponse(engine: DocumentEngine, data: MemberData)
    requires MergeDocument(engine, data).Failure?
    ensures HandledResponse(engine, data, FreshResponse) ==
            ResponseState(500, map[], JsonError(GenerationFailed))
  {
  }

  /** When the name holds a character setHeader refuses: status 500 and the fixed
      error body; the Content-Type set just before stays, Content-Disposition is
      never set. */
  lemma InvalidNameResponse(engine: DocumentEngine, data: MemberData)
    requires MergeDocument(engine, data).Success?
    requires !IsValidHeaderValue(data.name)
    ensures HandledResponse(engine, data, FreshResponse) ==
            ResponseState(500, map[ContentTypeHeader := DocxContentType], JsonError(GenerationFailed))
  {
    ContentDispositionValidIffNameValid(data.name);
  }

  /** The handler answers 200 or 500, and 200 exactly when the merge succeeds and
      the name is a valid header value; Content-Disposition is set exactly then. */
  lemma ResponseOutcomes(engine: DocumentEngine, data: MemberData)
    ensures var r := HandledResponse(engine, data, FreshResponse);
            && (r.statusCode == 200 || r.statusCode == 500)
            && (r.statusCode == 200 <==>
                MergeDocument(engine, data).Success? && IsValidHeaderValue(data.name))
            && (ContentDispositionHeader in r.headers <==> r.statusCode == 200)
  {
    ContentDispositionValidIffNameValid(data.name);
  }
}
