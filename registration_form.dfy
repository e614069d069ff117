/** The browser form (word_form_fe/src/App.tsx:13-96): the five-field record the
    inputs edit, and the submit handler that posts it, names the download after the
    response's Content-Disposition header and reports success or failure. */
module RegistrationForm {
  import opened Basics
  import Disposition
  import UriCodec

  datatype FormData = FormData(
    name: string,
    idCardNumber: string,
    email: string,
    phone: string,
    address: string)

  const EmptyForm := FormData("", "", "", "", "")

  /** The `name` attributes of the five inputs, and so the keys handleChange writes. */
  datatype Field = Name | IdCardNumber | Email | Phone | Address

  function FieldValue(f: FormData, field: Field): string {
    match field
    case Name => f.name
    case IdCardNumber => f.idCardNumber
    case Email => f.email
    case Phone => f.phone
    case Address => f.address
  }

  /** `{...prev, [field]: value}`: the record with one field replaced. */
  function WithField(f: FormData, field: Field, value: string): (r: FormData)
    ensures FieldValue(r, field) == value
    ensures forall g :: g != field ==> FieldValue(r, g) == FieldValue(f, g)
  {
    match field
    case Name => f.(name := value)
    case IdCardNumber => f.(idCardNumber := value)
    case Email => f.(email := value)
    case Phone => f.(phone := value)
    case Address => f.(address := value)
  }

  /** A record is determined by its five fields. */
  lemma FieldsDetermineForm(f: FormData, g: FormData)
    requires forall field :: FieldValue(f, field) == FieldValue(g, field)
    ensures f == g
  {
    assert FieldValue(f, Name) == FieldValue(g, Name);
    assert FieldValue(f, IdCardNumber) == FieldValue(g, IdCardNumber);
    assert FieldValue(f, Email) == FieldValue(g, Email);
    assert FieldValue(f, Phone) == FieldValue(g, Phone);
    assert FieldValue(f, Address) == FieldValue(g, Address);
  }

  /** Writing back the value a field already holds changes nothing, and a second
      write to the same field overrides the first. */
  lemma WithFieldLaws(f: FormData, field: Field, v: string, w: string)
    ensures WithField(f, field, FieldValue(f, field)) == f
    ensures WithField(WithField(f, field, v), field, w) == WithField(f, field, w)
  {
    FieldsDetermineForm(WithField(f, field, FieldValue(f, field)), f);
    FieldsDetermineForm(WithField(WithField(f, field, v), field, w), WithField(f, field, w));
  }

  /** Writes to two different fields commute. */
  lemma WithFieldCommutes(f: FormData, a: Field, b: Field, v: string, w: string)
    requires a != b
    ensures WithField(WithField(f, a, v), b, w) == WithField(WithField(f, b, w), a, v)
  {
    FieldsDetermineForm(WithField(WithField(f, a, v), b, w), WithField(WithField(f, b, w), a, v));
  }

  // ---------------------------------------------------------------------------
  // Status and the submit handler

  /** `status.type`: null, 'success' or 'error'. */
  datatype StatusType = NoStatus | Succeeded | Failed

  datatype Status = Status(kind: StatusType, message: string)

  const ClearedStatus := Status(NoStatus, "")
  const SuccessMessage := "Document generated and downloaded successfully!"
  const ErrorPrefix := "Failed to generate document. Please try again. "

  /** What the try block of handleSubmit can throw. */
  datatype ClientError =
    | ResponseNotOk          // the Error thrown for a non-ok response
    | MalformedUri           // the URIError of decodeURIComponent
    | Rejected(text: string) // a rejected fetch or response.blob(), by its string form

  /** `${error}`: the string form of what was thrown. */
  function ErrorText(e: ClientError): string {
    match e
    case ResponseNotOk => "Error: Failed to generate document"
    case MalformedUri => "URIError: URI malformed"
    case Rejected(text) => text
  }

  /** What fetch gives the client: a rejection, or a response with its ok flag, its
      Content-Disposition header and what reading its body as a blob gives. */
  datatype FetchOutcome =
    | NetworkError(text: string)
    | Received(ok: bool, contentDisposition: Option<string>, blob: Result<seq<Byte>, string>)

  /** A file the browser was told to save: the anchor's download name and the blob. */
  datatype Download = Download(filename: string, content: seq<Byte>)

  /** The try block of handleSubmit: the download it triggers, or what it throws. */
  function Attempt(outcome: FetchOutcome): Result<Download, ClientError> {
    match outcome
    case NetworkError(text) => Failure(Rejected(text))
    case Received(ok, contentDisposition, blob) =>
      if !ok then Failure(ResponseNotOk)
      else match Disposition.FilenameOf(contentDisposition)
        case Failure(_) => Failure(MalformedUri)
        case Success(filename) =>
          match blob
          case Failure(text) => Failure(Rejected(text))
          case Success(content) => Success(Download(filename, content))
  }

  /** Where handleSubmit ends: the status it leaves and the download, if any. */
  datatype SubmitEnd = SubmitEnd(status: Status, download: Option<Download>)

  /** The effect of handleSubmit after its entry, for a given fetch outcome. Every
      exit sets a status; exactly the successful one downloads; an error message
      always starts with the fixed apology. */
  function SubmitResult(outcome: FetchOutcome): (r: SubmitEnd)
    ensures r.status.kind != NoStatus
    ensures r.download.Some? <==> r.status.kind == Succeeded
    ensures r.status.kind == Succeeded ==> r.status.message == SuccessMessage
    ensures r.status.kind == Failed ==> ErrorPrefix <= r.status.message
  {
    match Attempt(outcome)
    case Success(d) => SubmitEnd(Status(Succeeded, SuccessMessage), Some(d))
    case Failure(e) => SubmitEnd(Status(Failed, ErrorPrefix + ErrorText(e)), None)
  }

  /** A response that is not ok is an error, and nothing is downloaded. */
  lemma NotOkIsError(outcome: FetchOutcome)
    requires outcome.Received? && !outcome.ok
    ensures SubmitResult(outcome) ==
            SubmitEnd(Status(Failed, ErrorPrefix + "Error: Failed to generate document"), None)
  {
  }

  /** A filename that decodeURIComponent rejects is an error, and nothing is
      downloaded. */
  lemma MalformedFilenameIsError(outcome: FetchOutcome)
    requires outcome.Received? && outcome.ok
    requires Disposition.FilenameOf(outcome.contentDisposition).Failure?
    ensures SubmitResult(outcome) ==
            SubmitEnd(Status(Failed, ErrorPrefix + "URIError: URI malformed"), None)
  {
  }

  /** Success exactly when the response is ok, the filename is extracted and the
      body is read; the download is then that body under that filename. */
  lemma SuccessExactly(outcome: FetchOutcome)
    ensures SubmitResult(outcome).status.kind == Succeeded <==>
            && outcome.Received? && outcome.ok
            && Disposition.FilenameOf(outcome.contentDisposition).Success?
            && outcome.blob.Success?
    ensures SubmitResult(outcome).status.kind == Succeeded ==>
            SubmitResult(outcome).download ==
            Some(Download(Disposition.FilenameOf(outcome.contentDisposition).value, outcome.blob.value))
  {
  }

  /** The form component's state: the record, the status line and the submitting
      flag, plus the downloads the browser was told to start. */
  class MemberRegistrationForm {
    var formData: FormData
    var status: Status
    var isSubmitting: bool
    var downloads: seq<Download>

    constructor ()
      ensures formData == EmptyForm && status == ClearedStatus && !isSubmitting
      ensures downloads == []
    {
      formData := EmptyForm;
      status := ClearedStatus;
      isSubmitting := false;
      downloads := [];
    }

    /** handleChange: the input named `field` now holds `value`. */
    method HandleChange(field: Field, value: string)
      modifies this
      ensures formData == WithField(old(formData), field, value)
      ensures status == old(status) && isSubmitting == old(isSubmitting)
      ensures downloads == old(downloads)
    {
      formData := WithField(formData, field, value);
    }

    /** The entry of handleSubmit: the button is disabled and the status cleared. */
    method BeginSubmit()
      modifies this
      ensures isSubmitting && status == ClearedStatus
      ensures formData == old(formData) && downloads == old(downloads)
    {
      isSubmitting := true;
      status := ClearedStatus;
    }

    /** handleSubmit, with `send` standing for fetch: it posts the current record
        and gives what the browser gets back. */
    method HandleSubmit(send: FormData -> FetchOutcome)
      modifies this
      ensures !isSubmitting
      ensures formData == old(formData)
      ensures var r := SubmitResult(send(old(formData)));
              && status == r.status
              && downloads == old(downloads) + (if r.download.Some? then [r.download.value] else [])
    {
      BeginSubmit();
      var outcome := send(formData);
      var thrown: Option<ClientError> := None;

      // try
      if outcome.NetworkError? {
        thrown := Some(Rejected(outcome.text));
      } else if !outcome.ok {
        thrown := Some(ResponseNotOk);
      } else {
        var filename := Disposition.DefaultFilename;
        var contentDisposition := outcome.contentDisposition;
        if contentDisposition.Some? && contentDisposition.value != "" {
          var extended := Disposition.Match(Disposition.Extended, contentDisposition.value);
          if extended.Some? {
            var decoded := UriCodec.Decode(extended.value);
            if decoded.Failure? {
              thrown := Some(MalformedUri);
            } else {
              filename := decoded.value;
            }
          } else {
            var quoted := Disposition.Match(Disposition.Quoted, contentDisposition.value);
            if quoted.Some? {
              filename := quoted.value;
            }
          }
        }
        if thrown.None? {
          if outcome.blob.Failure? {
            thrown := Some(Rejected(outcome.blob.error));
          } else {
            downloads := downloads + [Download(filename, outcome.blob.value)];
            status := Status(Succeeded, SuccessMessage);
          }
        }
      }

      // catch
      if thrown.Some? {
        status := Status(Failed, ErrorPrefix + ErrorText(thrown.value));
      }

      // finally
      isSubmitting := false;
    }
  }
}
