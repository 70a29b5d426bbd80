/**
 * The form page: the sample record it starts from, the live preview, the
 * single-field update, and the submission that sets the `loading` and `error`
 * state cells around one request to the endpoint.
 *
 * The network exchange is a parameter (`Reply`); creating the object URL and
 * clicking the hidden anchor are reduced to the file name the anchor is given.
 */
module Page {
  import opened Wrappers
  import opened Strings
  import opened Notice
  import opened Errors
  import Route

  /** The form's initial sample values. */
  const Initial: NoticeFields := NoticeFields(
    "校外学習のお知らせ",
    "3年",
    "1組",
    "姫路城・歴史学習",
    "社会科の学習の一環として、地域の歴史や文化に触れ、学びを深めることを目的とします。",
    "2026年2月3日（火）",
    "8:30",
    "学校運動場",
    "15:10",
    "学校",
    "姫路城（兵庫県姫路市本町68）",
    "体操服、歩きやすい靴",
    "筆記用具\nしおり\n水筒\nハンカチ・ティッシュ\nお弁当\n雨具",
    "雨天の場合も原則実施します。\n欠席される場合は当日朝までに連絡帳でご連絡ください。\n貴重品の持参はご遠慮ください。",
    "2026年1月10日",
    "〇〇 〇〇")

  /** The sample title is the title the endpoint uses when none is sent. */
  lemma InitialTitleIsDefault()
    ensures Initial.title == Route.DefaultTitle
  {
  }

  /** Every field of the sample starts filled in, so the first preview and download show no gaps. */
  lemma InitialAllFilled(k: Key)
    ensures Initial.Get(k) != ""
  {
  }

  /** `[grade, class_name].filter(Boolean).join(" ")`. */
  function GradeClass(grade: string, className: string): (r: string)
    ensures grade != "" && className != "" ==> r == grade + " " + className
    ensures grade != "" && className == "" ==> r == grade
    ensures grade == "" && className != "" ==> r == className
    ensures grade == "" && className == "" ==> r == ""
  {
    var parts := [grade, className];
    assert parts[1..] == [className] && parts[1..][1..] == [];
    assert NonEmpty(parts[1..]) == if className == "" then [] else [className];
    var kept := NonEmpty(parts);
    assert kept == if grade == "" then NonEmpty(parts[1..]) else [grade] + NonEmpty(parts[1..]);
    assert |kept| == 2 ==> kept == [grade, className] && Join(kept[1..], " ") == className;
    Join(kept, " ")
  }

  /** Both parts of the grade/class label occur in it. */
  lemma GradeClassMentionsBoth(grade: string, className: string)
    ensures IsSubstring(grade, GradeClass(grade, className))
    ensures IsSubstring(className, GradeClass(grade, className))
  {
    var r := GradeClass(grade, className);
    EmptyIsSubstring(r);
    if grade != "" {
      assert IsPrefix(grade, r);
    }
    if className != "" {
      var front := if grade != "" then grade + " " else "";
      assert r == front + className;
      assert IsPrefix(className, className);
      SubstringExtendLeft(className, front, className);
    }
  }

  /** The preview's first line: the title in 【】. */
  function Heading(f: NoticeFields): string {
    "【" + f.title + "】"
  }

  /** The rest of the preview's fixed layout, as the pieces of its template literal. */
  function BodyPieces(f: NoticeFields): (r: seq<string>)
    ensures |r| == 29
    ensures forall i | 0 <= i < |r| && i % 2 == 0 :: r[i] != ""
  {
    [ "\n\n保護者の皆様\n\nこのたび、",
      GradeClass(f.grade, f.className),
      "では下記のとおり校外学習を実施いたします。\n\n■ 行事名\n", f.eventName,
      "\n\n■ 目的\n", f.purpose,
      "\n\n■ 日時\n", f.date,
      "\n\n■ 集合\n", f.meetTime, "　", f.meetPlace,
      "\n\n■ 解散\n", f.dismissTime, "　", f.dismissPlace,
      "\n\n■ 行き先\n", f.destination,
      "\n\n■ 服装\n", f.clothes,
      "\n\n■ 持ち物\n", f.items,
      "\n\n■ 注意事項\n", f.notes,
      "\n\n", f.issuedAt,
      "\n担任　", f.teacherName,
      "\n" ]
  }

  /** `previewText`: a function of the form alone, headed by the title in 【】. */
  function Preview(f: NoticeFields): (r: string)
    ensures IsPrefix(Heading(f), r)
  {
    var h := Heading(f);
    assert (h + Concat(BodyPieces(f)))[..|h|] == h;
    h + Concat(BodyPieces(f))
  }

  /** Where each field other than title, grade and class sits among the body's pieces. */
  function PieceIndex(k: Key): (i: nat)
    requires k != Title && k != Grade && k != ClassName
    ensures i < 29
  {
    match k
    case EventName => 3
    case Purpose => 5
    case Date => 7
    case MeetTime => 9
    case MeetPlace => 11
    case DismissTime => 13
    case DismissPlace => 15
    case Destination => 17
    case Clothes => 19
    case Items => 21
    case Notes => 23
    case IssuedAt => 25
    case TeacherName => 27
  }

  lemma PieceIndexHolds(f: NoticeFields, k: Key)
    requires k != Title && k != Grade && k != ClassName
    ensures |BodyPieces(f)| == 29 && BodyPieces(f)[PieceIndex(k)] == f.Get(k)
  {
  }

  /** Every field value of the form occurs in the preview, and so does the joined grade/class label. */
  lemma PreviewMentionsEveryField(f: NoticeFields, k: Key)
    ensures IsSubstring(f.Get(k), Preview(f))
    ensures IsSubstring(GradeClass(f.grade, f.className), Preview(f))
  {
    var h := Heading(f);
    var ps := BodyPieces(f);
    var body := Concat(ps);
    assert Preview(f) == h + body;
    assert ps[1] == GradeClass(f.grade, f.className);
    PieceOfConcat(ps, 1);
    SubstringExtendLeft(ps[1], h, body);
    if k == Title {
      assert h == "【" + (f.title + "】");
      assert IsPrefix(f.title, f.title + "】");
      SubstringExtendLeft(f.title, "【", f.title + "】");
      SubstringOfPrefix(f.title, h, Preview(f));
    } else {
      if k == Grade || k == ClassName {
        assert |ps| == 29 && ps[1] == GradeClass(f.grade, f.className);
        PieceOfConcat(ps, 1);
        GradeClassMentionsBoth(f.grade, f.className);
        SubstringTransitive(f.Get(k), ps[1], body);
      } else {
        PieceIndexHolds(f, k);
        PieceOfConcat(ps, PieceIndex(k));
      }
      SubstringExtendLeft(f.Get(k), h, body);
    }
  }

  /** `a.download`: the name the browser saves the document under. */
  function DownloadName(f: NoticeFields): (r: string)
    ensures r == Route.AttachmentName(f.date)
  {
    "校外学習お便り_" + (if f.date != "" then f.date else "日付未設定") + ".docx"
  }

  /** The client saves the file under the name the server puts in the header for the body the client sent. */
  lemma DownloadNameMatchesServer(f: NoticeFields)
    ensures DownloadName(f) == Route.AttachmentName(Route.Complete(Route.Whole(f)).date)
  {
    Route.CompleteKeepsSupplied(Route.Whole(f), Date);
  }

  // ---------------------------------------------------------------------------
  // Error message

  /** The fields of a JSON error body the client reads (`null` when the body did not parse). */
  datatype ErrorJson = ErrorJson(detail: Option<string>, error: Option<string>)

  /** A JavaScript string value is truthy when present and non-empty. */
  predicate Truthy(s: Option<string>) {
    s.Some? && s.value != ""
  }

  /** `j?.detail || j?.error || `HTTP ${res.status}``. */
  function ErrorMessage(j: Option<ErrorJson>, status: nat): (r: string)
    ensures r != ""
    ensures j.Some? && Truthy(j.value.detail) ==> r == j.value.detail.value
    ensures j.Some? && !Truthy(j.value.detail) && Truthy(j.value.error) ==> r == j.value.error.value
    ensures (j.None? || (!Truthy(j.value.detail) && !Truthy(j.value.error))) ==> r == "HTTP " + NatToString(status)
  {
    match j
    case Some(ErrorJson(detail, error)) =>
      if Truthy(detail) then detail.value
      else if Truthy(error) then error.value
      else "HTTP " + NatToString(status)
    case None => "HTTP " + NatToString(status)
  }

  /** What `fetch` hands back: a network failure, or a status with its JSON body if it parsed. */
  datatype Reply = NetworkError(err: Thrown) | Reply(status: nat, json: Option<ErrorJson>)

  /** `res.ok`. */
  predicate Ok(r: Reply) {
    r.Reply? && 200 <= r.status < 300
  }

  /** The message the `catch` block records for a failed submission. */
  function FailureMessage(r: Reply): (m: string)
    requires !Ok(r)
    ensures r.NetworkError? ==> m == Describe(r.err)
    ensures r.Reply? ==> m == ErrorMessage(r.json, r.status) && m != ""
  {
    match r
    case NetworkError(e) => Describe(e)
    case Reply(status, json) => Describe(ErrorOf(ErrorMessage(json, status)))
  }

  /** How the server's response reaches the client. */
  function ReplyOf(resp: Route.Response): Reply {
    match resp
    case DocxFile(status, _, _, _) => Reply(status, None)
    case TemplateMissing(status, error, _) => Reply(status, Some(ErrorJson(None, Some(error))))
    case GenerationFailed(status, error, detail, _) => Reply(status, Some(ErrorJson(Some(detail), Some(error))))
  }

  /** The client takes the download path exactly when the endpoint produced a document. */
  lemma OkExactlyForDocument(req: Route.Request, templatePath: string, templateExists: bool,
                             generate: NoticeFields -> Route.Generated)
    ensures var resp := Route.Post(req, templatePath, templateExists, generate);
      Ok(ReplyOf(resp)) <==> resp.DocxFile?
  {
  }

  /** A missing template is reported with the server's `error` text. */
  lemma TemplateMissingMessage(templatePath: string)
    ensures FailureMessage(ReplyOf(Route.TemplateMissing(500, Route.TemplateMissingError, templatePath)))
            == Route.TemplateMissingError
  {
  }

  /** A failed generation is reported with the thrown error's message, or the generic text when that is empty. */
  lemma GenerationFailedMessage(e: Thrown)
    ensures var m := FailureMessage(ReplyOf(Route.Failure(e)));
      m == if Describe(e) != "" then Describe(e) else Route.GenerationError
  {
  }

  // ---------------------------------------------------------------------------
  // Component state

  /** The pair of state cells after one setter call. */
  datatype Snapshot = Snapshot(loading: bool, error: string)

  class FieldTripPage {
    var form: NoticeFields
    var loading: bool
    var error: string
    /** The `(loading, error)` values after each `setLoading`/`setError` call, oldest first. */
    ghost var history: seq<Snapshot>

    constructor ()
      ensures form == Initial && !loading && error == "" && history == []
    {
      form := Initial;
      loading := false;
      error := "";
      history := [];
    }

    /** `update(key, value)`: replaces one field of the form. */
    method Update(key: Key, value: string)
      modifies this`form
      ensures form == old(form).With(key, value)
      ensures form.Get(key) == value
      ensures forall k :: k != key ==> form.Get(k) == old(form).Get(k)
    {
      form := form.With(key, value);
    }

    method SetLoading(b: bool)
      modifies this`loading, this`history
      ensures loading == b
      ensures history == old(history) + [Snapshot(b, error)]
    {
      loading := b;
      history := history + [Snapshot(b, error)];
    }

    method SetError(e: string)
      modifies this`error, this`history
      ensures error == e
      ensures history == old(history) + [Snapshot(loading, e)]
    {
      error := e;
      history := history + [Snapshot(loading, e)];
    }

    /**
     * `downloadDocx` given the reply its request gets. Returns the name the
     * document is saved under, or `None` when the submission failed.
     */
    method DownloadDocx(reply: Reply) returns (saved: Option<string>)
      modifies this`loading, this`error, this`history
      ensures form == old(form)
      ensures !loading
      ensures Ok(reply) ==> saved == Some(DownloadName(form)) && error == ""
      ensures !Ok(reply) ==> saved == None && error == FailureMessage(reply)
      ensures history == old(history) + [Snapshot(true, old(error)), Snapshot(true, "")]
                         + (if Ok(reply) then [] else [Snapshot(true, error)])
                         + [Snapshot(false, error)]
    {
      SetLoading(true);
      SetError("");
      if Ok(reply) {
        saved := Some(DownloadName(form));
      } else {
        saved := None;
        SetError(FailureMessage(reply));
      }
      SetLoading(false);
    }
  }
}
