/** Student administration in app/main.py: create (JSON and form), list,
    get, update (JSON and form), delete with its attendance cascade, and the
    bulk clear. Files on disk (photos, gallery folders) are not modelled;
    only the `photo_path` column they leave behind is. */
module Students {
  import opened Results
  import opened Calendar
  import opened Text
  import opened Paths
  import opened Seqs
  import opened Sorting
  import opened Store

  /** An optional form or query value Python treats as true: present and
      not the empty string. */
  predicate Truthy(o: Option<string>) {
    o.Some? && o.value != ""
  }

  /** What FastAPI hands an optional form parameter: an empty field counts
      as missing and becomes the default None. */
  function FormValue(o: Option<string>): (r: Option<string>)
    ensures r.Some? <==> Truthy(o)
    ensures r.Some? ==> r == o
  {
    if Truthy(o) then o else None
  }

  // ---------------------------------------------------------------------
  // Creating

  /** The columns of a new student (StudentCreate). */
  datatype StudentFields = StudentFields(
    code: string,
    name: string,
    grade: Option<string>,
    section: Option<string>,
    gender: Option<string>,
    registrationDate: Option<Date>,
    photoPath: Option<string>)

  function WithId(f: StudentFields, id: int): Student {
    Student(id, f.code, f.name, f.grade, f.section, f.gender, f.registrationDate, f.photoPath)
  }

  /** `create_student`: refused when the code is taken, otherwise the row is
      added under the next row id and nothing else changes. */
  function CreateStudent(db: Db, f: StudentFields): (r: Result<(Db, Student)>)
    ensures r.Err? <==> exists s | s in db.students :: s.code == f.code
    ensures r.Err? ==> r.error == CodeTaken
    ensures r.Ok? ==>
      var (db', st) := r.value;
      && st.id !in StudentIds(db.students)
      && st == WithId(f, st.id)
      && db'.students == db.students + [st]
      && db'.attendances == db.attendances
  {
    if FindByCode(db.students, f.code).Some? then Err(CodeTaken)
    else
      var st := WithId(f, NewStudentId(db));
      Ok((Db(db.students + [st], db.attendances), st))
  }

  /** Creating keeps every constraint of the store. */
  lemma CreateKeepsWellformed(db: Db, f: StudentFields)
    requires Wellformed(db)
    requires CreateStudent(db, f).Ok?
    ensures Wellformed(CreateStudent(db, f).value.0)
  {
    var (db', st) := CreateStudent(db, f).value;
    forall y | y in db.students
      ensures DistinctIds(y, st) && DistinctCodes(y, st)
    {
    }
    PairwiseAppend(db.students, st, DistinctIds);
    PairwiseAppend(db.students, st, DistinctCodes);
    assert StudentIds(db.students) <= StudentIds(db'.students);
  }

  /** The created student is what a later lookup by id returns. */
  lemma CreateThenGet(db: Db, f: StudentFields)
    requires Wellformed(db)
    requires CreateStudent(db, f).Ok?
    ensures
      var (db', st) := CreateStudent(db, f).value;
      FindStudent(db'.students, st.id) == Some(st)
  {
    CreateKeepsWellformed(db, f);
    var (db', st) := CreateStudent(db, f).value;
    FindStudentUnique(db'.students, st.id, st);
  }

  /** The code normalisation of `create_student_form`:
      `.strip().lower().replace(' ', '_')`. */
  function NormalizeCode(raw: string): string {
    ReplaceChar(Lower(Strip(raw)), ' ', '_')
  }

  /** A normalised code has no space, no upper-case ASCII letter and no
      surrounding whitespace. */
  predicate IsNormalCode(c: string) {
    && (forall i | 0 <= i < |c| :: c[i] != ' ' && !IsAsciiUpper(c[i]))
    && (|c| > 0 ==> !IsPyWhitespace(c[0]) && !IsPyWhitespace(c[|c| - 1]))
  }

  lemma LowerCharFacts(c: char)
    ensures !IsAsciiUpper(LowerChar(c))
    ensures IsPyWhitespace(LowerChar(c)) == IsPyWhitespace(c)
  {
  }

  lemma NormalizeCodeIsNormal(raw: string)
    ensures IsNormalCode(NormalizeCode(raw))
  {
    var t := Strip(raw);
    StripEnds(raw);
    NormalizedChars(t);
  }

  /** Lower-casing and replacing spaces leave no space and no capital, and
      keep a non-blank character non-blank. */
  lemma NormalizedChars(t: string)
    ensures var r := ReplaceChar(Lower(t), ' ', '_');
      forall i | 0 <= i < |r| ::
        && r[i] != ' ' && !IsAsciiUpper(r[i])
        && (!IsPyWhitespace(t[i]) ==> !IsPyWhitespace(r[i]))
  {
    var r := ReplaceChar(Lower(t), ' ', '_');
    forall i | 0 <= i < |r|
      ensures r[i] != ' ' && !IsAsciiUpper(r[i])
      ensures !IsPyWhitespace(t[i]) ==> !IsPyWhitespace(r[i])
    {
      LowerCharFacts(t[i]);
    }
  }

  /** A stripped string neither starts nor ends with whitespace. */
  lemma StripEnds(raw: string)
    ensures var t := Strip(raw);
      |t| > 0 ==> !IsPyWhitespace(t[0]) && !IsPyWhitespace(t[|t| - 1])
  {
    var t := Strip(raw);
    if |t| > 0 {
      var u := TrimStart(raw);
      assert t == u[..|t|];
      assert t[0] == u[0];
    }
  }

  /** Normalising twice changes nothing more than normalising once. */
  lemma NormalizeCodeIdempotent(raw: string)
    ensures NormalizeCode(NormalizeCode(raw)) == NormalizeCode(raw)
  {
    var c := NormalizeCode(raw);
    NormalizeCodeIsNormal(raw);
    assert TrimStart(c) == c;
    assert TrimEnd(c) == c;
    assert Lower(c) == c;
    assert ReplaceChar(c, ' ', '_') == c;
  }

  /** The form's code: the given code, else the name, else `alumno_` and the
      whole seconds of the current time, then normalised. */
  function FormCode(code: Option<string>, name: string, nowSeconds: int): (c: string)
    ensures IsNormalCode(c)
    ensures Truthy(code) ==> c == NormalizeCode(code.value)
    ensures !Truthy(code) && name != "" ==> c == NormalizeCode(name)
    ensures !Truthy(code) && name == "" ==> c == NormalizeCode("alumno_" + SignedDecimal(nowSeconds))
  {
    NormalizeCodeIsNormal(if Truthy(code) then code.value else if name != "" then name else "alumno_" + SignedDecimal(nowSeconds));
    NormalizeCode(if Truthy(code) then code.value else if name != "" then name else "alumno_" + SignedDecimal(nowSeconds))
  }

  /** The extension a stored photo gets: the upload's, or ".jpg". */
  function PhotoExt(fileName: string): (e: string)
    ensures |e| > 0 && e[0] == '.'
  {
    var x := Extension(fileName);
    if x == "" then ".jpg" else x
  }

  /** The `photo_path` of an upload stored as `<code><ext>` under the photo
      folder: the URL keeps only the final component of that path. */
  function PhotoUrl(code: string, fileName: string): string {
    "/media/students/" + BaseName(code + PhotoExt(fileName))
  }

  /** For a code without '/', the URL is the code with the photo's extension. */
  lemma PhotoUrlOfPlainCode(code: string, fileName: string)
    requires NoSlash(code)
    ensures PhotoUrl(code, fileName) == "/media/students/" + code + PhotoExt(fileName)
  {
    var p := code + PhotoExt(fileName);
    assert NoSlash(p) by {
      var x := Extension(fileName);
      forall k | 0 <= k < |p|
        ensures p[k] != '/'
      {
        if k >= |code| && x != "" {
          assert p[k] == x[k - |code|];
        }
      }
    }
    LastIndexOfNone(p, '/');
  }

  /** The fields `create_student_form` receives, as sent. `registrationDate`
      is the parsed date, None when the text was absent, empty or not a
      `%Y-%m-%d` date; `photoName` is the upload's file name, if any. */
  datatype StudentForm = StudentForm(
    name: string,
    grade: Option<string>,
    section: Option<string>,
    gender: Option<string>,
    registrationDate: Option<Date>,
    code: Option<string>,
    photoName: Option<string>)

  /** `create_student_form`. The required name must be non-empty; the
      code is checked before the photo is stored; `photoWritten` is whether
      storing the upload (the photo file and the gallery folder) succeeds,
      and when it does not the handler raises before anything is committed. */
  function CreateStudentForm(db: Db, form: StudentForm, nowSeconds: int, photoWritten: bool): (r: Result<(Db, Student)>)
    ensures r == Err(MissingField) <==> form.name == ""
    ensures
      var code := FormCode(form.code, form.name, nowSeconds);
      && (r == Err(CodeTaken) <==> form.name != "" && exists s | s in db.students :: s.code == code)
      && (r == Err(FileWriteFailed) <==>
            form.name != "" && (forall s | s in db.students :: s.code != code)
            && Truthy(form.photoName) && !photoWritten)
      && (r.Ok? ==>
            var st := r.value.1;
            && st.id !in StudentIds(db.students)
            && st.code == code && st.name == form.name
            && st.grade == FormValue(form.grade) && st.section == FormValue(form.section)
            && st.gender == FormValue(form.gender)
            && st.registrationDate == form.registrationDate
            && st.photoPath == (if Truthy(form.photoName) then Some(PhotoUrl(code, form.photoName.value)) else None)
            && r.value.0.students == db.students + [st]
            && r.value.0.attendances == db.attendances)
    ensures r.Ok? ==>
      r.value.1.code == NormalizeCode(if Truthy(form.code) then form.code.value else form.name)
  {
    if form.name == "" then Err(MissingField)
    else
      var code := FormCode(form.code, form.name, nowSeconds);
      if FindByCode(db.students, code).Some? then Err(CodeTaken)
      else if Truthy(form.photoName) && !photoWritten then Err(FileWriteFailed)
      else CreateStudent(db, FormFields(form, code))
  }

  /** The columns a form creates a student with, under the code `code`. */
  function FormFields(form: StudentForm, code: string): StudentFields {
    var photo := if Truthy(form.photoName) then Some(PhotoUrl(code, form.photoName.value)) else None;
    StudentFields(code, form.name, FormValue(form.grade), FormValue(form.section),
      FormValue(form.gender), form.registrationDate, photo)
  }

  /** Creating from the form keeps every constraint of the store. */
  lemma CreateFormKeepsWellformed(db: Db, form: StudentForm, nowSeconds: int, photoWritten: bool)
    requires Wellformed(db)
    requires CreateStudentForm(db, form, nowSeconds, photoWritten).Ok?
    ensures Wellformed(CreateStudentForm(db, form, nowSeconds, photoWritten).value.0)
  {
    var fields := FormFields(form, FormCode(form.code, form.name, nowSeconds));
    assert CreateStudentForm(db, form, nowSeconds, photoWritten) == CreateStudent(db, fields);
    CreateKeepsWellformed(db, fields);
  }

  // ---------------------------------------------------------------------
  // Reading

  /** `get_student`: the path parameter must be at least 1. */
  function GetStudent(db: Db, id: int): (r: Result<Student>)
    ensures r == Err(OutOfRange) <==> id < 1
    ensures r == Err(NotFound) <==> 1 <= id && id !in StudentIds(db.students)
    ensures r.Ok? ==> r.value in db.students && r.value.id == id
  {
    if id < 1 then Err(OutOfRange)
    else match FindStudent(db.students, id)
      case None => Err(NotFound)
      case Some(s) => Ok(s)
  }

  /** ORDER BY name. */
  predicate ByName(a: Student, b: Student) {
    StrLe(a.name, b.name)
  }

  lemma ByNameIsTotalPreorder()
    ensures IsTotalPreorder(ByName)
  {
    forall a, b
      ensures ByName(a, b) || ByName(b, a)
    {
      StrLeTotal(a.name, b.name);
    }
    forall a, b, c | ByName(a, b) && ByName(b, c)
      ensures ByName(a, c)
    {
      StrLeTransitive(a.name, b.name, c.name);
    }
  }

  /** The WHERE clause of `list_students`: each filter applies only when its
      parameter is truthy; q is matched with LIKE '%q%' on name or code. */
  predicate Listed(s: Student, grade: Option<string>, section: Option<string>, q: Option<string>) {
    && (Truthy(grade) ==> s.grade == grade)
    && (Truthy(section) ==> s.section == section)
    && (Truthy(q) ==> LikeMatch("%" + q.value + "%", s.name) || LikeMatch("%" + q.value + "%", s.code))
  }

  /** `list_students`. */
  function ListStudents(db: Db, grade: Option<string>, section: Option<string>, q: Option<string>): (r: seq<Student>)
    ensures multiset(r) == multiset(Filter(db.students, s => Listed(s, grade, section, q)))
    ensures forall s | s in r :: s in db.students && Listed(s, grade, section, q)
    ensures forall s | s in db.students && Listed(s, grade, section, q) :: s in r
    ensures SortedBy(r, ByName)
  {
    ByNameIsTotalPreorder();
    var chosen := Filter(db.students, s => Listed(s, grade, section, q));
    var r := Sort(chosen, ByName);
    SameMembers(r, chosen);
    r
  }

  /** Without filters every student is listed, each once. */
  lemma ListAllStudents(db: Db)
    ensures multiset(ListStudents(db, None, None, None)) == multiset(db.students)
  {
    FilterAll(db.students, s => Listed(s, None, None, None));
  }

  /** A search text without LIKE wildcards lists exactly the students whose
      name or code contains it, ignoring ASCII case. */
  lemma ListStudentsSearch(db: Db, q: string, s: Student)
    requires q != "" && NoWildcards(q)
    ensures s in ListStudents(db, None, None, Some(q)) <==>
      s in db.students &&
      ((exists i | 0 <= i <= |s.name| :: FoldMatchAt(s.name, q, i)) ||
       (exists i | 0 <= i <= |s.code| :: FoldMatchAt(s.code, q, i)))
  {
    LikeContains(q, s.name);
    LikeContains(q, s.code);
  }

  // ---------------------------------------------------------------------
  // Updating

  /** A field of a partial update: left alone, or set to a value. */
  datatype Patch<T> = Keep | Set(value: T) {
    function Apply(current: T): T {
      match this
      case Keep => current
      case Set(v) => v
    }
  }

  /** StudentUpdate with `exclude_unset`: a field absent from the JSON body
      is Keep; an explicit null is Set(None). */
  datatype StudentPatch = StudentPatch(
    name: Patch<Option<string>>,
    grade: Patch<Option<string>>,
    section: Patch<Option<string>>,
    gender: Patch<Option<string>>,
    registrationDate: Patch<Option<Date>>,
    photoPath: Patch<Option<string>>)

  const NoChange: StudentPatch := StudentPatch(Keep, Keep, Keep, Keep, Keep, Keep)

  /** The student table with the row of st.id replaced by st. */
  function ReplaceStudent(ss: seq<Student>, st: Student): (r: seq<Student>)
    ensures |r| == |ss|
    ensures forall k | 0 <= k < |ss| :: r[k] == (if ss[k].id == st.id then st else ss[k])
  {
    seq(|ss|, k requires 0 <= k < |ss| => if ss[k].id == st.id then st else ss[k])
  }

  /** `update_student`: every field present in the body is written; id and
      code cannot change; a null name is refused by the NOT NULL column. */
  function UpdateStudent(db: Db, id: int, patch: StudentPatch): (r: Result<(Db, Student)>)
    ensures r == Err(NotFound) <==> id !in StudentIds(db.students)
    ensures r == Err(NotNullViolation) <==> id in StudentIds(db.students) && patch.name == Set(None)
    ensures r.Ok? ==>
      var (db', st) := r.value;
      var prev := FindStudent(db.students, id).value;
      && st.id == id && st.code == prev.code
      && Some(st.name) == patch.name.Apply(Some(prev.name))
      && st.grade == patch.grade.Apply(prev.grade)
      && st.section == patch.section.Apply(prev.section)
      && st.gender == patch.gender.Apply(prev.gender)
      && st.registrationDate == patch.registrationDate.Apply(prev.registrationDate)
      && st.photoPath == patch.photoPath.Apply(prev.photoPath)
      && |db'.students| == |db.students|
      && (forall k | 0 <= k < |db.students| :: db.students[k].id != id ==> db'.students[k] == db.students[k])
      && (forall k | 0 <= k < |db.students| :: db.students[k].id == id ==> db'.students[k] == st)
      && db'.attendances == db.attendances
  {
    match FindStudent(db.students, id)
    case None => Err(NotFound)
    case Some(prev) =>
      match patch.name.Apply(Some(prev.name))
      case None => Err(NotNullViolation)
      case Some(name) =>
        var st := Student(id, prev.code, name,
          patch.grade.Apply(prev.grade), patch.section.Apply(prev.section), patch.gender.Apply(prev.gender),
          patch.registrationDate.Apply(prev.registrationDate), patch.photoPath.Apply(prev.photoPath));
        Ok((Db(ReplaceStudent(db.students, st), db.attendances), st))
  }

  /** Updating keeps every constraint: ids and codes stay where they were. */
  lemma UpdateKeepsWellformed(db: Db, id: int, patch: StudentPatch)
    requires Wellformed(db)
    requires UpdateStudent(db, id, patch).Ok?
    ensures Wellformed(UpdateStudent(db, id, patch).value.0)
  {
    var (db', st) := UpdateStudent(db, id, patch).value;
    var prev := FindStudent(db.students, id).value;
    var ss, ss' := db.students, db'.students;
    forall k | 0 <= k < |ss|
      ensures ss'[k].id == ss[k].id && ss'[k].code == ss[k].code
    {
      if ss[k].id == id {
        FindStudentUnique(ss, id, ss[k]);
      }
    }
    assert UniqueStudentIds(ss') by {
      forall i, j | 0 <= i < j < |ss'|
        ensures DistinctIds(ss'[i], ss'[j])
      {
        assert DistinctIds(ss[i], ss[j]);
      }
    }
    assert UniqueCodes(ss') by {
      forall i, j | 0 <= i < j < |ss'|
        ensures DistinctCodes(ss'[i], ss'[j])
      {
        assert DistinctCodes(ss[i], ss[j]);
      }
    }
    assert StudentIds(ss') == StudentIds(ss) by {
      forall x | x in StudentIds(ss)
        ensures x in StudentIds(ss')
      {
        var k :| 0 <= k < |ss| && ss[k].id == x;
        assert ss'[k] in ss';
      }
      forall x | x in StudentIds(ss')
        ensures x in StudentIds(ss)
      {
        var k :| 0 <= k < |ss'| && ss'[k].id == x;
        assert ss[k] in ss;
      }
    }
  }

  /** An update that sets nothing leaves the store as it was. */
  lemma UpdateNothing(db: Db, id: int)
    requires Wellformed(db)
    requires id in StudentIds(db.students)
    ensures UpdateStudent(db, id, NoChange).Ok?
    ensures UpdateStudent(db, id, NoChange).value.0 == db
    ensures Some(UpdateStudent(db, id, NoChange).value.1) == FindStudent(db.students, id)
  {
    var prev := FindStudent(db.students, id).value;
    var (db', st) := UpdateStudent(db, id, NoChange).value;
    assert st == prev;
    forall k | 0 <= k < |db.students|
      ensures db'.students[k] == db.students[k]
    {
      if db.students[k].id == id {
        FindStudentUnique(db.students, id, db.students[k]);
      }
    }
  }

  /** The fields `update_student_form` receives, as sent: a missing or empty
      field leaves the column alone. `registrationDate` is the parsed date,
      None when absent, empty or not parseable (all three leave the stored
      date alone). */
  datatype StudentFormPatch = StudentFormPatch(
    name: Option<string>,
    grade: Option<string>,
    section: Option<string>,
    gender: Option<string>,
    registrationDate: Option<Date>,
    photoName: Option<string>)

  function SetWhenGiven<T>(o: Option<T>): Patch<Option<T>> {
    match o
    case None => Keep
    case Some(v) => Set(Some(v))
  }

  /** The partial update a form amounts to, for a student whose code is
      `code`: given fields are set, a named photo sets the photo URL. */
  function FormAsPatch(code: string, form: StudentFormPatch): StudentPatch {
    var photo := if Truthy(form.photoName) then Set(Some(PhotoUrl(code, form.photoName.value))) else Keep;
    StudentPatch(
      SetWhenGiven(FormValue(form.name)), SetWhenGiven(FormValue(form.grade)), SetWhenGiven(FormValue(form.section)),
      SetWhenGiven(FormValue(form.gender)), SetWhenGiven(form.registrationDate), photo)
  }

  /** `update_student_form`: a name can only be replaced, never cleared; a
      new photo is stored under the student's unchanged code, and when
      storing it fails (`photoWritten` false) the handler raises before the
      commit, so nothing changes. */
  function UpdateStudentForm(db: Db, id: int, form: StudentFormPatch, photoWritten: bool): (r: Result<(Db, Student)>)
    ensures r == Err(NotFound) <==> id !in StudentIds(db.students)
    ensures r == Err(FileWriteFailed) <==>
      id in StudentIds(db.students) && Truthy(form.photoName) && !photoWritten
    ensures r.Ok? ==>
      var (db', st) := r.value;
      var prev := FindStudent(db.students, id).value;
      && st.id == id && st.code == prev.code
      && st.name == (if Truthy(form.name) then form.name.value else prev.name)
      && st.grade == (if Truthy(form.grade) then form.grade else prev.grade)
      && st.section == (if Truthy(form.section) then form.section else prev.section)
      && st.gender == (if Truthy(form.gender) then form.gender else prev.gender)
      && st.registrationDate == (if form.registrationDate.Some? then form.registrationDate else prev.registrationDate)
      && st.photoPath == (if Truthy(form.photoName) then Some(PhotoUrl(prev.code, form.photoName.value)) else prev.photoPath)
      && |db'.students| == |db.students|
      && (forall k | 0 <= k < |db.students| :: db'.students[k] == (if db.students[k].id == id then st else db.students[k]))
      && db'.attendances == db.attendances
  {
    match FindStudent(db.students, id)
    case None => Err(NotFound)
    case Some(prev) =>
      if Truthy(form.photoName) && !photoWritten then Err(FileWriteFailed)
      else UpdateStudent(db, id, FormAsPatch(prev.code, form))
  }

  /** The form update is the partial update of its fields. */
  lemma UpdateFormIsUpdate(db: Db, id: int, form: StudentFormPatch, photoWritten: bool)
    requires UpdateStudentForm(db, id, form, photoWritten).Ok?
    ensures UpdateStudentForm(db, id, form, photoWritten)
      == UpdateStudent(db, id, FormAsPatch(FindStudent(db.students, id).value.code, form))
  {
  }

  /** The form update keeps every constraint of the store. */
  lemma UpdateFormKeepsWellformed(db: Db, id: int, form: StudentFormPatch, photoWritten: bool)
    requires Wellformed(db)
    requires UpdateStudentForm(db, id, form, photoWritten).Ok?
    ensures Wellformed(UpdateStudentForm(db, id, form, photoWritten).value.0)
  {
    var patch := FormAsPatch(FindStudent(db.students, id).value.code, form);
    UpdateFormIsUpdate(db, id, form, photoWritten);
    UpdateKeepsWellformed(db, id, patch);
  }

  // ---------------------------------------------------------------------
  // Deleting

  /** `delete_student`: the ORM cascade removes the student's attendances
      together with the student. */
  function DeleteStudent(db: Db, id: int): (r: Result<Db>)
    ensures r.Err? <==> id !in StudentIds(db.students)
    ensures r.Err? ==> r.error == NotFound
    ensures r.Ok? ==>
      && id !in StudentIds(r.value.students)
      && (forall s | s in r.value.students :: s in db.students)
      && (forall s | s in db.students && s.id != id :: s in r.value.students)
      && (forall a | a in r.value.attendances :: a in db.attendances && a.studentId != id)
      && (forall a | a in db.attendances && a.studentId != id :: a in r.value.attendances)
  {
    if id !in StudentIds(db.students) then Err(NotFound)
    else Ok(Db(Filter(db.students, (s: Student) => s.id != id),
               Filter(db.attendances, (a: Attendance) => a.studentId != id)))
  }

  /** Deleting keeps every constraint, the reference from attendance to
      student included. */
  lemma DeleteKeepsWellformed(db: Db, id: int)
    requires Wellformed(db)
    requires DeleteStudent(db, id).Ok?
    ensures Wellformed(DeleteStudent(db, id).value)
  {
    var keepS := (s: Student) => s.id != id;
    var keepA := (a: Attendance) => a.studentId != id;
    FilterPairwise(db.students, keepS, DistinctIds);
    FilterPairwise(db.students, keepS, DistinctCodes);
    FilterPairwise(db.attendances, keepA, DistinctAttendanceIds);
    FilterPairwise(db.attendances, keepA, DistinctStudentDay);
    var db' := DeleteStudent(db, id).value;
    forall a | a in db'.attendances
      ensures a.studentId in StudentIds(db'.students)
    {
      var s :| s in db.students && s.id == a.studentId;
      assert s in db'.students;
    }
  }

  /** `admin_clear_students_all` as written: a bulk DELETE on the student
      table. It bypasses the ORM cascade and SQLite does not enforce the
      foreign key, so the attendances stay. Returns the rows deleted. */
  function ClearAllStudentsAsWritten(db: Db): (r: (Db, nat))
    ensures r.0.students == [] && r.0.attendances == db.attendances
    ensures r.1 == |db.students|
  {
    (Db([], db.attendances), |db.students|)
  }

  /** The bulk clear with the cascade the single delete has. */
  function ClearAllStudents(db: Db): (r: (Db, nat))
    ensures r.0 == EmptyDb
    ensures r.1 == |db.students|
    ensures Wellformed(r.0)
  {
    (EmptyDb, |db.students|)
  }
}
