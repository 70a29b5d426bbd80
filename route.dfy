/**
 * The document generation endpoint, `POST /api/letters/fieldtrip`: completes the
 * partial request record with defaults, derives the download name and headers,
 * and turns every failure into a status-500 JSON body.
 *
 * Reading the template from disk, Docxtemplater's rendering and PizZip's
 * re-compression are not modelled: `Post` receives whether the template exists
 * and a `generate` function standing for "load, render and zip" that either
 * yields the document bytes or throws.
 */
module Route {
  import opened Wrappers
  import opened Strings
  import opened Notice
  import opened Errors
  import Newlines
  import UriEncoding

  /** `Partial<FieldTripPayload>` as parsed from the request body: `None` for an absent (or null) field. */
  datatype PartialFields = PartialFields(
    title: Option<string>,
    grade: Option<string>,
    className: Option<string>,
    eventName: Option<string>,
    purpose: Option<string>,
    date: Option<string>,
    meetTime: Option<string>,
    meetPlace: Option<string>,
    dismissTime: Option<string>,
    dismissPlace: Option<string>,
    destination: Option<string>,
    clothes: Option<string>,
    items: Option<string>,
    notes: Option<string>,
    issuedAt: Option<string>,
    teacherName: Option<string>)
  {
    function Supplied(k: Key): Option<string> {
      match k
      case Title => title
      case Grade => grade
      case ClassName => className
      case EventName => eventName
      case Purpose => purpose
      case Date => date
      case MeetTime => meetTime
      case MeetPlace => meetPlace
      case DismissTime => dismissTime
      case DismissPlace => dismissPlace
      case Destination => destination
      case Clothes => clothes
      case Items => items
      case Notes => notes
      case IssuedAt => issuedAt
      case TeacherName => teacherName
    }
  }

  const DefaultTitle: string := "校外学習のお知らせ"

  /** The value an absent field takes. */
  function Default(k: Key): string {
    if k == Title then DefaultTitle else ""
  }

  /** The two list fields whose line endings are normalised. */
  predicate IsMultiline(k: Key) {
    k == Items || k == Notes
  }

  /** The payload: every field merged over its default with `??`; items and notes normalised. */
  function Complete(p: PartialFields): (r: NoticeFields)
    ensures r.title == "" <==> p.title == Some("")
  {
    NoticeFields(
      p.title.GetOr(DefaultTitle),
      p.grade.GetOr(""),
      p.className.GetOr(""),
      p.eventName.GetOr(""),
      p.purpose.GetOr(""),
      p.date.GetOr(""),
      p.meetTime.GetOr(""),
      p.meetPlace.GetOr(""),
      p.dismissTime.GetOr(""),
      p.dismissPlace.GetOr(""),
      p.destination.GetOr(""),
      p.clothes.GetOr(""),
      Newlines.Normalize(p.items.GetOr("")),
      Newlines.Normalize(p.notes.GetOr("")),
      p.issuedAt.GetOr(""),
      p.teacherName.GetOr(""))
  }

  /** A supplied field, even `""`, is copied into the payload; the list fields pass through normalisation. */
  lemma CompleteKeepsSupplied(p: PartialFields, k: Key)
    requires p.Supplied(k).Some?
    ensures Complete(p).Get(k) ==
      if IsMultiline(k) then Newlines.Normalize(p.Supplied(k).value) else p.Supplied(k).value
  {
  }

  /** An absent field takes its default: the notice title for `title`, `""` for the others. */
  lemma CompleteFillsAbsent(p: PartialFields, k: Key)
    requires p.Supplied(k).None?
    ensures Complete(p).Get(k) == Default(k)
  {
  }

  /** The request body the client sends: `JSON.stringify(form)` carries every field. */
  function Whole(f: NoticeFields): (p: PartialFields)
    ensures forall k :: p.Supplied(k) == Some(f.Get(k))
  {
    PartialFields(
      Some(f.title), Some(f.grade), Some(f.className), Some(f.eventName),
      Some(f.purpose), Some(f.date), Some(f.meetTime), Some(f.meetPlace),
      Some(f.dismissTime), Some(f.dismissPlace), Some(f.destination), Some(f.clothes),
      Some(f.items), Some(f.notes), Some(f.issuedAt), Some(f.teacherName))
  }

  /** A complete record sent whole comes back as itself, with only its list fields' CR LFs replaced. */
  lemma CompleteWhole(f: NoticeFields)
    ensures Complete(Whole(f)) == f.With(Items, Newlines.Normalize(f.items)).With(Notes, Newlines.Normalize(f.notes))
  {
    var g := f.With(Items, Newlines.Normalize(f.items)).With(Notes, Newlines.Normalize(f.notes));
    forall k ensures Complete(Whole(f)).Get(k) == g.Get(k) {
      CompleteKeepsSupplied(Whole(f), k);
    }
    Extensionality(Complete(Whole(f)), g);
  }

  /** In particular a record whose lists contain no CR is reproduced exactly. */
  lemma CompleteWholeWithoutCr(f: NoticeFields)
    requires Newlines.CR !in f.items && Newlines.CR !in f.notes
    ensures Complete(Whole(f)) == f
  {
    CompleteWhole(f);
    Newlines.NoCrUnchanged(f.items);
    Newlines.NoCrUnchanged(f.notes);
    WithCurrentValue(f, Items);
    WithCurrentValue(f, Notes);
  }

  // ---------------------------------------------------------------------------
  // Download name and headers

  const FilenamePrefix: string := "校外学習お便り_"
  const DatePlaceholder: string := "日付未設定"
  const DocxExtension: string := ".docx"

  /** `payload.date || "日付未設定"`: an empty date is falsy. */
  function ShownDate(date: string): (r: string)
    ensures r != ""
    ensures date != "" ==> r == date
    ensures date == "" ==> r == DatePlaceholder
  {
    if date != "" then date else DatePlaceholder
  }

  /** The attachment's file name for a given date. */
  function AttachmentName(date: string): (r: string)
    ensures IsPrefix(FilenamePrefix, r)
    ensures |r| > |FilenamePrefix| + |DocxExtension| && r[|r| - |DocxExtension|..] == DocxExtension
  {
    var r := FilenamePrefix + ShownDate(date) + DocxExtension;
    assert r[..|FilenamePrefix|] == FilenamePrefix;
    assert r[|r| - |DocxExtension|..] == DocxExtension;
    r
  }

  /** The date part of a file name of the form prefix + date + ".docx". */
  function DateOfName(name: string): Option<string> {
    if |name| >= |FilenamePrefix| + |DocxExtension|
       && name[..|FilenamePrefix|] == FilenamePrefix
       && name[|name| - |DocxExtension|..] == DocxExtension
    then Some(name[|FilenamePrefix|..|name| - |DocxExtension|])
    else None
  }

  /** The file name carries the date, or the placeholder when the date is empty. */
  lemma AttachmentNameCarriesDate(date: string)
    ensures DateOfName(AttachmentName(date)) == Some(ShownDate(date))
  {
    var name := AttachmentName(date);
    assert name[..|FilenamePrefix|] == FilenamePrefix;
    assert name[|name| - |DocxExtension|..] == DocxExtension;
    assert name[|FilenamePrefix|..|name| - |DocxExtension|] == ShownDate(date);
  }

  /** Two dates give the same file name exactly when they are shown alike: the only collision is "" with "日付未設定". */
  lemma AttachmentNameSame(d1: string, d2: string)
    ensures AttachmentName(d1) == AttachmentName(d2) <==> ShownDate(d1) == ShownDate(d2)
  {
    if AttachmentName(d1) == AttachmentName(d2) {
      AttachmentNameCarriesDate(d1);
      AttachmentNameCarriesDate(d2);
    }
  }

  const DocxContentType: string := "application/vnd.openxmlformats-officedocument.wordprocessingml.document"
  const DispositionPrefix: string := "attachment; filename*=UTF-8''"

  /** The header value the handler builds: the name passed through `encodeURIComponent`. */
  function ContentDispositionAsWritten(filename: string): (r: string)
    ensures IsPrefix(DispositionPrefix, r)
  {
    DispositionPrefix + UriEncoding.EncodeUriComponent(filename)
  }

  /** The header value with a name encoded as an RFC 8187 ext-value (section 4.3 of RFC 6266). */
  function ContentDisposition(filename: string): (r: string)
    ensures IsPrefix(DispositionPrefix, r)
    ensures UriEncoding.ValueChars(r[|DispositionPrefix|..])
  {
    UriEncoding.ExtValueConforms(filename);
    var r := DispositionPrefix + UriEncoding.Encode(UriEncoding.ExtValue, filename);
    assert r[|DispositionPrefix|..] == UriEncoding.Encode(UriEncoding.ExtValue, filename);
    r
  }

  /** What a user agent reads back as the file name from a `filename*=UTF-8''` header value. */
  function DispositionFilename(h: string): Option<string> {
    if IsPrefix(DispositionPrefix, h) then UriEncoding.Decode(h[|DispositionPrefix|..]) else None
  }

  lemma DispositionNamesFile(filename: string)
    ensures DispositionFilename(ContentDisposition(filename)) == Some(filename)
  {
    var h := ContentDisposition(filename);
    assert h[|DispositionPrefix|..] == UriEncoding.Encode(UriEncoding.ExtValue, filename);
    UriEncoding.DecodeEncode(UriEncoding.ExtValue, filename);
  }

  lemma DispositionAsWrittenNamesFile(filename: string)
    ensures DispositionFilename(ContentDispositionAsWritten(filename)) == Some(filename)
  {
    var h := ContentDispositionAsWritten(filename);
    assert h[|DispositionPrefix|..] == UriEncoding.EncodeUriComponent(filename);
    UriEncoding.DecodeEncode(UriEncoding.UriComponent, filename);
  }

  /** A date typed with ASCII parentheses leaves `(` in the header, which RFC 8187 does not allow in an ext-value. */
  lemma AsWrittenDispositionNotExtValue()
    ensures !UriEncoding.ValueChars(ContentDispositionAsWritten(AttachmentName("2月3日(火)"))[|DispositionPrefix|..])
  {
    var name := AttachmentName("2月3日(火)");
    assert name[|FilenamePrefix| + 4] == '(';
    var h := ContentDispositionAsWritten(name);
    assert h[|DispositionPrefix|..] == UriEncoding.EncodeUriComponent(name);
    UriEncoding.UriComponentNotValueChars(name);
  }

  // ---------------------------------------------------------------------------
  // Diagnostics

  /** One flattened template error, as listed under `multi` in the error body. */
  datatype Diagnostic = Diagnostic(
    message: Option<string>,
    name: Option<string>,
    explanation: Option<string>,
    tag: Option<string>,
    context: Option<string>,
    file: Option<string>,
    part: Option<string>,
    offset: Option<int>,
    id: Option<string>,
    xtag: Option<string>)

  /** The ten fields of one error: message and name from the error, the rest from its `properties`. */
  function Flatten(e: Thrown): (d: Diagnostic)
    ensures d.message == e.message && d.name == e.name
    ensures e.properties.None? ==> d == Diagnostic(e.message, e.name, None, None, None, None, None, None, None, None)
    ensures e.properties.Some? ==> var p := e.properties.value;
      d.explanation == p.explanation && d.tag == p.tag && d.context == p.context && d.file == p.file &&
      d.part == p.part && d.offset == p.offset && d.id == p.id && d.xtag == p.xtag
  {
    match e.properties
    case None => Diagnostic(e.message, e.name, None, None, None, None, None, None, None, None)
    case Some(p) => Diagnostic(e.message, e.name, p.explanation, p.tag, p.context, p.file, p.part, p.offset, p.id, p.xtag)
  }

  /** `errors.map(...)`. */
  function FlattenAll(es: seq<Thrown>): (r: seq<Diagnostic>)
    ensures |r| == |es|
    ensures forall i | 0 <= i < |es| :: r[i] == Flatten(es[i])
  {
    if es == [] then [] else [Flatten(es[0])] + FlattenAll(es[1..])
  }

  /** `err?.properties?.errors`, `None` when absent or not an array. */
  function ListedErrors(err: Thrown): (r: Option<seq<Thrown>>)
    ensures r.Some? <==> err.properties.Some? && err.properties.value.errors.Some?
    ensures r.Some? ==> r == err.properties.value.errors
  {
    match err.properties
    case None => None
    case Some(p) => p.errors
  }

  /** `extractMultiErrors`: null without an error list, otherwise one entry per listed error, in order. */
  function ExtractMultiErrors(err: Thrown): (r: Option<seq<Diagnostic>>)
    ensures r.Some? <==> ListedErrors(err).Some?
    ensures r.Some? ==> |r.value| == |ListedErrors(err).value|
    ensures r.Some? ==> forall i | 0 <= i < |r.value| ::
      r.value[i].message == ListedErrors(err).value[i].message &&
      r.value[i].name == ListedErrors(err).value[i].name &&
      r.value[i] == Flatten(ListedErrors(err).value[i])
  {
    match ListedErrors(err)
    case None => None
    case Some(es) => Some(FlattenAll(es))
  }

  /** A tag the engine reported as failing shows up in the flattened list. */
  lemma ReportedTagListed(err: Thrown, i: nat)
    requires ListedErrors(err).Some? && i < |ListedErrors(err).value|
    requires ListedErrors(err).value[i].properties.Some?
    ensures ExtractMultiErrors(err).Some?
    ensures ExtractMultiErrors(err).value[i].tag == ListedErrors(err).value[i].properties.value.tag
  {
  }

  // ---------------------------------------------------------------------------
  // The handler

  const TemplateMissingError: string := "templates/fieldtrip.docx が見つかりません"
  const GenerationError: string := "docx生成でエラーが発生しました"

  /** The request body: parsed fields, or the error `req.json()` threw. */
  datatype Request = Body(fields: PartialFields) | Unparsable(err: Thrown)

  /** What loading, rendering and zipping produced. */
  datatype Generated = Generated(bytes: seq<UriEncoding.Byte>) | Threw(err: Thrown)

  datatype Response =
    | DocxFile(status: nat, contentType: string, contentDisposition: string, body: seq<UriEncoding.Byte>)
    | TemplateMissing(status: nat, error: string, templatePath: string)
    | GenerationFailed(status: nat, error: string, detail: string, multi: Option<seq<Diagnostic>>)

  /** The `catch` block's response. */
  function Failure(e: Thrown): (r: Response)
    ensures r.GenerationFailed? && r.status == 500 && r.error == GenerationError
    ensures r.detail == Describe(e) && r.multi == ExtractMultiErrors(e)
  {
    GenerationFailed(500, GenerationError, Describe(e), ExtractMultiErrors(e))
  }

  function Post(req: Request, templatePath: string, templateExists: bool,
                generate: NoticeFields -> Generated): (r: Response)
    ensures r.status == 200 <==> r.DocxFile?
    ensures r.status == 500 <==> !r.DocxFile?
    ensures r.DocxFile? <==> req.Body? && templateExists && generate(Complete(req.fields)).Generated?
    ensures r.DocxFile? ==>
      r.contentType == DocxContentType &&
      r.body == generate(Complete(req.fields)).bytes &&
      r.contentDisposition == ContentDisposition(AttachmentName(Complete(req.fields).date)) &&
      DispositionFilename(r.contentDisposition) == Some(AttachmentName(Complete(req.fields).date))
    ensures r.TemplateMissing? <==> req.Body? && !templateExists
    ensures r.TemplateMissing? ==> r.templatePath == templatePath && r.error == TemplateMissingError
    ensures req.Unparsable? ==> r == Failure(req.err)
    ensures req.Body? && templateExists && generate(Complete(req.fields)).Threw? ==>
      r == Failure(generate(Complete(req.fields)).err)
  {
    match req
    case Unparsable(e) => Failure(e)
    case Body(data) =>
      var payload := Complete(data);
      if !templateExists then
        TemplateMissing(500, TemplateMissingError, templatePath)
      else
        match generate(payload)
        case Threw(e) => Failure(e)
        case Generated(bytes) =>
          var filename := AttachmentName(payload.date);
          DispositionNamesFile(filename);
          DocxFile(200, DocxContentType, ContentDisposition(filename), bytes)
  }

  /** A successful response names the file after the request's date, or the placeholder when it is absent or empty. */
  lemma PostNamesDate(req: Request, templatePath: string, generate: NoticeFields -> Generated)
    requires req.Body? && generate(Complete(req.fields)).Generated?
    ensures var r := Post(req, templatePath, true, generate);
      DispositionFilename(r.contentDisposition).Some? &&
      DateOfName(DispositionFilename(r.contentDisposition).value) == Some(ShownDate(req.fields.date.GetOr("")))
  {
    AttachmentNameCarriesDate(Complete(req.fields).date);
    assert Complete(req.fields).Get(Date) == Complete(req.fields).date;
  }

  /**
   * The header differs from the one the handler writes with `encodeURIComponent`
   * only when the file name contains `'`, `(`, `)` or `*`.
   */
  lemma PostHeaderAsWritten(req: Request, templatePath: string, generate: NoticeFields -> Generated)
    requires req.Body? && generate(Complete(req.fields)).Generated?
    requires var name := AttachmentName(Complete(req.fields).date);
      forall i | 0 <= i < |name| :: name[i] !in "'()*"
    ensures Post(req, templatePath, true, generate).contentDisposition
            == ContentDispositionAsWritten(AttachmentName(Complete(req.fields).date))
  {
    UriEncoding.EncodersAgree(AttachmentName(Complete(req.fields).date));
  }
}
