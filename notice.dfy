/**
 * The sixteen-field notice record that the form holds and the endpoint fills into
 * the template (`FieldTripForm` on the client, `FieldTripPayload` on the server;
 * the two declarations list the same fields).
 */
module Notice {

  /** The field names: `keyof FieldTripForm`. */
  datatype Key =
    | Title | Grade | ClassName | EventName | Purpose | Date | MeetTime | MeetPlace
    | DismissTime | DismissPlace | Destination | Clothes | Items | Notes | IssuedAt | TeacherName

  datatype NoticeFields = NoticeFields(
    title: string,
    grade: string,
    className: string,
    eventName: string,
    purpose: string,
    date: string,
    meetTime: string,
    meetPlace: string,
    dismissTime: string,
    dismissPlace: string,
    destination: string,
    clothes: string,
    items: string,
    notes: string,
    issuedAt: string,
    teacherName: string)
  {
    /** `form[k]`. */
    function Get(k: Key): string {
      match k
      case Title => title
      case Grade => grade
      case ClassName => className
      case EventName => eventName
      case Purpose => purpose
      case Date => date
      case MeetTime => meetTime
      case MeetPlace => meetPlace
      case DismissTime => dismissTime
      case DismissPlace => dismissPlace
      case Destination => destination
      case Clothes => clothes
      case Items => items
      case Notes => notes
      case IssuedAt => issuedAt
      case TeacherName => teacherName
    }

    /** `{ ...form, [k]: v }`: a new record with one field replaced. */
    function With(k: Key, v: string): (r: NoticeFields)
      ensures r.Get(k) == v
      ensures forall j :: j != k ==> r.Get(j) == Get(j)
    {
      match k
      case Title => this.(title := v)
      case Grade => this.(grade := v)
      case ClassName => this.(className := v)
      case EventName => this.(eventName := v)
      case Purpose => this.(purpose := v)
      case Date => this.(date := v)
      case MeetTime => this.(meetTime := v)
      case MeetPlace => this.(meetPlace := v)
      case DismissTime => this.(dismissTime := v)
      case DismissPlace => this.(dismissPlace := v)
      case Destination => this.(destination := v)
      case Clothes => this.(clothes := v)
      case Items => this.(items := v)
      case Notes => this.(notes := v)
      case IssuedAt => this.(issuedAt := v)
      case TeacherName => this.(teacherName := v)
    }
  }

  /** Two records that agree on every field are the same record. */
  lemma {:induction false} Extensionality(f: NoticeFields, g: NoticeFields)
    requires forall k :: f.Get(k) == g.Get(k)
    ensures f == g
  {
    assert f.Get(Title) == g.Get(Title) && f.Get(Grade) == g.Get(Grade);
    assert f.Get(ClassName) == g.Get(ClassName) && f.Get(EventName) == g.Get(EventName);
    assert f.Get(Purpose) == g.Get(Purpose) && f.Get(Date) == g.Get(Date);
    assert f.Get(MeetTime) == g.Get(MeetTime) && f.Get(MeetPlace) == g.Get(MeetPlace);
    assert f.Get(DismissTime) == g.Get(DismissTime) && f.Get(DismissPlace) == g.Get(DismissPlace);
    assert f.Get(Destination) == g.Get(Destination) && f.Get(Clothes) == g.Get(Clothes);
    assert f.Get(Items) == g.Get(Items) && f.Get(Notes) == g.Get(Notes);
    assert f.Get(IssuedAt) == g.Get(IssuedAt) && f.Get(TeacherName) == g.Get(TeacherName);
  }

  /** Writing back the value a field already has changes nothing. */
  lemma WithCurrentValue(f: NoticeFields, k: Key)
    ensures f.With(k, f.Get(k)) == f
  {
    Extensionality(f.With(k, f.Get(k)), f);
  }

  /** The later of two writes to the same field wins. */
  lemma WithTwice(f: NoticeFields, k: Key, a: string, b: string)
    ensures f.With(k, a).With(k, b) == f.With(k, b)
  {
    Extensionality(f.With(k, a).With(k, b), f.With(k, b));
  }

  /** Writes to different fields commute. */
  lemma WithCommutes(f: NoticeFields, j: Key, k: Key, a: string, b: string)
    requires j != k
    ensures f.With(j, a).With(k, b) == f.With(k, b).With(j, a)
  {
    Extensionality(f.With(j, a).With(k, b), f.With(k, b).With(j, a));
  }
}
