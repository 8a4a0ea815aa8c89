/** The week-8 ORM queries over the school database: loading the denormalised student CSV
    into Location, Student, Teacher, Course and Enrollment objects (`add_teacher_data`,
    `add_all_data`), the two updates of `update_queries` and the two deletes of
    `delete_queries`.

    A table is the sequence of its stored objects in insertion order; an object receives
    its primary key when the session flushes it, one more than the largest key in the
    table (SQLite's INTEGER PRIMARY KEY). A `select ... .first()` is the first match in
    that order. */
module OrmQueries {
  import opened Wrappers
  import opened Collections
  import opened Text
  import opened StudentData

  datatype Location = Location(room: string)
  datatype Student = Student(studentName: string, studentEmail: string)
  datatype Teacher = Teacher(teacherName: string, teacherEmail: string)
  datatype Course = Course(courseName: string, courseCode: string, courseSchedule: string, locationId: Option<nat>)
  datatype Enrollment = Enrollment(studentId: Option<nat>, courseId: Option<nat>, teacherId: Option<nat>)

  /** An object together with the primary key it was stored under. */
  datatype Stored<T> = Stored(id: nat, obj: T)

  /** The five tables, as values. */
  datatype School = School(locations: seq<Stored<Location>>, students: seq<Stored<Student>>,
                           teachers: seq<Stored<Teacher>>, courses: seq<Stored<Course>>,
                           enrollments: seq<Stored<Enrollment>>)

  // ---------------------------------------------------------------- keys and ids

  function MaxId<T>(t: seq<Stored<T>>): (m: nat)
    ensures forall i :: 0 <= i < |t| ==> t[i].id <= m
  {
    if |t| == 0 then 0 else var m := MaxId(t[1..]); if t[0].id > m then t[0].id else m
  }

  /** Flushing `objs` into table `t`: each object gets the next key, in the order added. */
  function AddAll<T>(t: seq<Stored<T>>, objs: seq<T>): seq<Stored<T>>
  {
    t + seq(|objs|, i requires 0 <= i < |objs| => Stored(MaxId(t) + 1 + i, objs[i]))
  }

  /** Keys strictly increase along the table. */
  predicate IdsIncrease<T>(t: seq<Stored<T>>)
  {
    forall i, j :: 0 <= i < j < |t| ==> t[i].id < t[j].id
  }

  /** Adding objects keeps what was stored, appends the objects in the order given, gives
      them keys after every existing key (1..n in a table that starts empty), and keeps
      keys increasing, so no key is used twice. */
  lemma AddAllKeys<T>(t: seq<Stored<T>>, objs: seq<T>)
    ensures var r := AddAll(t, objs);
      && |r| == |t| + |objs| && r[..|t|] == t
      && (forall i :: 0 <= i < |objs| ==> r[|t| + i].obj == objs[i] && r[|t| + i].id > MaxId(t))
      && (t == [] ==> forall i :: 0 <= i < |objs| ==> r[i].id == i + 1)
      && (IdsIncrease(t) ==> IdsIncrease(r))
  {
    AddAllAt(t, objs);
    if IdsIncrease(t) {
      AddAllIncrease(t, objs);
    }
  }

  /** Where each object lands: the table first, then object k - |t| at position k under
      key MaxId(t) + 1 + (k - |t|). */
  lemma AddAllAt<T>(t: seq<Stored<T>>, objs: seq<T>)
    ensures var r := AddAll(t, objs);
      && |r| == |t| + |objs| && r[..|t|] == t
      && (forall k :: 0 <= k < |t| ==> r[k] == t[k])
      && (forall k :: |t| <= k < |r| ==> r[k] == Stored(MaxId(t) + 1 + (k - |t|), objs[k - |t|]))
  {
    var r := AddAll(t, objs);
    assert r[..|t|] == t;
  }

  lemma AddAllIncrease<T>(t: seq<Stored<T>>, objs: seq<T>)
    requires IdsIncrease(t)
    ensures IdsIncrease(AddAll(t, objs))
  {
    var r, m := AddAll(t, objs), MaxId(t);
    AddAllAt(t, objs);
    forall i, j | 0 <= i < j < |r| ensures r[i].id < r[j].id {
      if j < |t| {
        assert r[i] == t[i] && r[j] == t[j];
      } else if i < |t| {
        assert r[i] == t[i] && t[i].id <= m;
      }
    }
  }

  lemma AddOneToEmpty<T>(x: T)
    ensures AddAll([], [x]) == [Stored(1, x)]
  {
    assert MaxId<T>([]) == 0;
    assert AddAll([], [x])[0] == Stored(1, x);
  }

  function RoomOf(l: Stored<Location>): string { l.obj.room }
  function StudentEmailOf(s: Stored<Student>): string { s.obj.studentEmail }
  function TeacherEmailOf(t: Stored<Teacher>): string { t.obj.teacherEmail }
  function CourseCodeOf(c: Stored<Course>): string { c.obj.courseCode }
  function CourseNameOf(c: Stored<Course>): string { c.obj.courseName }

  /** `select(X.id).where(X.<column> == k).first()`: the key of the first object whose
      column holds k, None when there is no such object. */
  function IdWhere<T>(t: seq<Stored<T>>, column: Stored<T> -> string, k: string): (r: Option<nat>)
    ensures r.None? <==> forall i :: 0 <= i < |t| ==> column(t[i]) != k
    ensures r.Some? ==> r.value == t[KeyPos(t, column, k)].id
  {
    var p := KeyPos(t, column, k);
    if p < |t| then Some(t[p].id) else None
  }

  // ---------------------------------------------------------------- the database

  /** The database behind the session: what has been committed. */
  class SchoolDb {
    var locations: seq<Stored<Location>>
    var students: seq<Stored<Student>>
    var teachers: seq<Stored<Teacher>>
    var courses: seq<Stored<Course>>
    var enrollments: seq<Stored<Enrollment>>

    constructor (s: School)
      ensures State() == s
    {
      locations, students, teachers, courses, enrollments :=
        s.locations, s.students, s.teachers, s.courses, s.enrollments;
    }

    function State(): School
      reads this
    {
      School(locations, students, teachers, courses, enrollments)
    }
  }

  /** The objects built by a loop over rows: one per row, in order. */
  method BuildObjects<T>(rows: seq<CsvRow>, make: CsvRow -> T) returns (objs: seq<T>)
    ensures objs == MapSeq(rows, make)
  {
    objs := [];
    var i := 0;
    while i < |rows|
      invariant 0 <= i <= |rows|
      invariant |objs| == i && forall k :: 0 <= k < i ==> objs[k] == make(rows[k])
    {
      objs := objs + [make(rows[i])];
      i := i + 1;
    }
  }

  function TeacherOfRow(r: CsvRow): Teacher { Teacher(r.teacherName, r.teacherEmail) }
  function StudentOfRow(r: CsvRow): Student { Student(r.studentName, r.studentEmail) }
  function LocationOfRow(r: CsvRow): Location { Location(r.courseLocation) }
  function CourseOfRow(r: CsvRow): Course { Course(r.courseName, r.courseCode, r.courseSchedule, None) }

  // ---------------------------------------------------------------- add_teacher_data

  /** `add_teacher_data`: one Teacher per CSV row, duplicates included, added and committed
      after the teachers already stored; nothing else changes. */
  method AddTeacherData(db: SchoolDb, df: seq<CsvRow>)
    modifies db
    ensures db.teachers == AddAll(old(db.teachers), MapSeq(df, TeacherOfRow))
    ensures db.State() == old(db.State()).(teachers := db.teachers)
  {
    var teachers := BuildObjects(df, TeacherOfRow);
    db.teachers := AddAll(db.teachers, teachers);
  }

  // ---------------------------------------------------------------- add_all_data

  function RoomKey(r: CsvRow): string { r.courseLocation }
  function StudentNameKey(r: CsvRow): string { r.studentName }
  function TeacherNameKey(r: CsvRow): string { r.teacherName }
  function CourseNameKey(r: CsvRow): string { r.courseName }

  /** The objects `add_all_data` builds before its first commit: a Location per distinct
      room, and a Student, Teacher and Course per distinct student name, teacher name and
      course name, each taken from the first row with that value. */
  function LocationObjects(df: seq<CsvRow>): seq<Location> { MapSeq(DedupBy(df, RoomKey), LocationOfRow) }
  function StudentObjects(df: seq<CsvRow>): seq<Student> { MapSeq(DedupBy(df, StudentNameKey), StudentOfRow) }
  function TeacherObjects(df: seq<CsvRow>): seq<Teacher> { MapSeq(DedupBy(df, TeacherNameKey), TeacherOfRow) }
  function CourseObjects(df: seq<CsvRow>): seq<Course> { MapSeq(DedupBy(df, CourseNameKey), CourseOfRow) }

  /** The store after the first commit of `add_all_data`. */
  function WithEntities(s: School, df: seq<CsvRow>): School
  {
    s.(locations := AddAll(s.locations, LocationObjects(df)),
       students := AddAll(s.students, StudentObjects(df)),
       teachers := AddAll(s.teachers, TeacherObjects(df)),
       courses := AddAll(s.courses, CourseObjects(df)))
  }

  /** The key of the first location with the row's room, None when there is none. */
  function LocationFor(s: School, room: string): Option<nat>
  {
    IdWhere(s.locations, RoomOf, room)
  }

  /** One pass of the row loop of `add_all_data`, committed. The course is the first with
      the row's code; when there is none, `course.location = ...` raises on None and the
      result is None. Otherwise that course's location becomes the first location with the
      row's room, and an enrollment is added with the student and the teacher looked up by
      email (None when no object has that email) and that course's key. */
  function EnrollRow(s: School, r: CsvRow): Option<School>
  {
    var ck := KeyPos(s.courses, CourseCodeOf, r.courseCode);
    if ck == |s.courses| then None
    else
      var c := s.courses[ck];
      var e := Enrollment(IdWhere(s.students, StudentEmailOf, r.studentEmail), Some(c.id),
                          IdWhere(s.teachers, TeacherEmailOf, r.teacherEmail));
      Some(s.(courses := s.courses[ck := Stored(c.id, c.obj.(locationId := LocationFor(s, r.courseLocation)))],
              enrollments := AddAll(s.enrollments, [e])))
  }

  /** The row loop: the store after every row up to the first that raises, and whether
      all rows went through. */
  function EnrollAll(s: School, rows: seq<CsvRow>): (School, bool)
    decreases |rows|
  {
    if |rows| == 0 then (s, true)
    else match EnrollRow(s, rows[0])
      case None => (s, false)
      case Some(s1) => EnrollAll(s1, rows[1..])
  }

  /** `add_all_data`: the entity objects are built and committed first, then the row loop
      runs, committing once per row; a row that raises ends it, with the earlier rows'
      changes kept. */
  method AddAllData(db: SchoolDb, df: seq<CsvRow>) returns (ok: bool)
    modifies db
    ensures (db.State(), ok) == EnrollAll(WithEntities(old(db.State()), df), df)
  {
    AddEntities(db, df);
    ok := EnrollRows(db, df);
  }

  /** The object lists of `add_all_data` and its first commit. */
  method AddEntities(db: SchoolDb, df: seq<CsvRow>)
    modifies db
    ensures db.State() == WithEntities(old(db.State()), df)
  {
    ghost var s := db.State();
    var locObjects := BuildObjects(DedupBy(df, RoomKey), LocationOfRow);
    var stuObjects := BuildObjects(DedupBy(df, StudentNameKey), StudentOfRow);
    var teacherObjects := BuildObjects(DedupBy(df, TeacherNameKey), TeacherOfRow);
    var courseObjects := BuildObjects(DedupBy(df, CourseNameKey), CourseOfRow);
    assert locObjects == LocationObjects(df) && stuObjects == StudentObjects(df);
    assert teacherObjects == TeacherObjects(df) && courseObjects == CourseObjects(df);
    db.locations := AddAll(db.locations, locObjects);
    db.students := AddAll(db.students, stuObjects);
    db.teachers := AddAll(db.teachers, teacherObjects);
    db.courses := AddAll(db.courses, courseObjects);
    assert db.locations == AddAll(s.locations, LocationObjects(df));
    assert db.students == AddAll(s.students, StudentObjects(df));
    assert db.teachers == AddAll(s.teachers, TeacherObjects(df));
    assert db.courses == AddAll(s.courses, CourseObjects(df));
    assert db.enrollments == s.enrollments;
  }

  /** The row loop of `add_all_data`. */
  method EnrollRows(db: SchoolDb, df: seq<CsvRow>) returns (ok: bool)
    modifies db
    ensures (db.State(), ok) == EnrollAll(old(db.State()), df)
  {
    ghost var s1 := db.State();
    var i := 0;
    while i < |df|
      invariant 0 <= i <= |df|
      invariant EnrollAll(db.State(), df[i..]) == EnrollAll(s1, df)
    {
      var row := df[i];
      assert df[i..][0] == row && df[i..][1..] == df[i + 1..];
      ghost var before := db.State();
      var location := LocationFor(db.State(), row.courseLocation);
      var ck := KeyPos(db.courses, CourseCodeOf, row.courseCode);
      var sId := IdWhere(db.students, StudentEmailOf, row.studentEmail);
      var tId := IdWhere(db.teachers, TeacherEmailOf, row.teacherEmail);
      if ck == |db.courses| {
        assert EnrollRow(before, row).None?;
        return false;
      }
      var course := db.courses[ck];
      db.courses := db.courses[ck := Stored(course.id, course.obj.(locationId := location))];
      db.enrollments := AddAll(db.enrollments, [Enrollment(sId, Some(course.id), tId)]);
      assert EnrollRow(before, row) == Some(db.State());
      i := i + 1;
    }
    return true;
  }

  // ---------------------------------------------------------------- properties of add_all_data

  /** The objects built from one key column: one per distinct value, no value twice, every
      value of the CSV present, each object taken from the first row with its value, in the
      order in which the values first occur. */
  lemma FirstRowPerKey(df: seq<CsvRow>, key: CsvRow -> string)
    ensures var d := DedupBy(df, key);
      && (forall i, j :: 0 <= i < j < |d| ==> key(d[i]) != key(d[j]))
      && (forall r :: r in df ==> KeyPos(d, key, key(r)) < |d|)
      && (forall i :: 0 <= i < |d| ==> KeyPos(df, key, key(d[i])) < |df| && d[i] == df[KeyPos(df, key, key(d[i]))])
      && (forall i, j :: 0 <= i < j < |d| ==> KeyPos(df, key, key(d[i])) < KeyPos(df, key, key(d[j])))
  {
    DedupByKeys(df, key);
    DedupByFirstSeen(df, key);
  }

  /** The Student built for a name carries the email of the first row with that name; a
      Course built for a name carries the code and schedule of the first row with that name
      and no location yet. */
  lemma EntitiesFromFirstRows(df: seq<CsvRow>)
    ensures var d, o := DedupBy(df, StudentNameKey), StudentObjects(df);
      |o| == |d| && forall i :: 0 <= i < |o| ==>
        o[i].studentEmail == df[KeyPos(df, StudentNameKey, o[i].studentName)].studentEmail
    ensures var d, o := DedupBy(df, CourseNameKey), CourseObjects(df);
      |o| == |d| && forall i :: 0 <= i < |o| ==>
        var first := df[KeyPos(df, CourseNameKey, o[i].courseName)];
        o[i].courseCode == first.courseCode && o[i].courseSchedule == first.courseSchedule && o[i].locationId.None?
  {
    FirstRowPerKey(df, StudentNameKey);
    FirstRowPerKey(df, CourseNameKey);
  }

  /** The courses of two stores agree in everything but their locations. */
  predicate SameCourses(a: seq<Stored<Course>>, b: seq<Stored<Course>>)
  {
    |a| == |b| &&
    forall i :: 0 <= i < |a| ==>
      a[i].id == b[i].id && a[i].obj.courseName == b[i].obj.courseName &&
      a[i].obj.courseCode == b[i].obj.courseCode && a[i].obj.courseSchedule == b[i].obj.courseSchedule
  }

  /** The row loop creates no location, student, teacher or course: those tables stay as
      committed, courses change only in their location, and enrollments are only added. */
  lemma {:induction false} EnrollAllKeepsEntities(s: School, rows: seq<CsvRow>)
    ensures var s1 := EnrollAll(s, rows).0;
      && s1.locations == s.locations && s1.students == s.students && s1.teachers == s.teachers
      && SameCourses(s.courses, s1.courses)
      && |s1.enrollments| >= |s.enrollments| && s1.enrollments[..|s.enrollments|] == s.enrollments
    decreases |rows|
  {
    if |rows| > 0 {
      EnrollRowEffect(s, rows[0]);
      match EnrollRow(s, rows[0])
      case None =>
      case Some(s1) =>
        EnrollAllKeepsEntities(s1, rows[1..]);
        var s2 := EnrollAll(s1, rows[1..]).0;
        assert s1.enrollments[..|s.enrollments|] == s.enrollments;
        assert s2.enrollments[..|s.enrollments|] == s1.enrollments[..|s1.enrollments|][..|s.enrollments|];
    }
  }

  /** What one pass of the row loop does: it raises exactly when no course has the row's
      code; otherwise only that course's location changes and one enrollment is added. */
  lemma EnrollRowEffect(s: School, r: CsvRow)
    ensures EnrollRow(s, r).None? <==> KeyPos(s.courses, CourseCodeOf, r.courseCode) == |s.courses|
    ensures EnrollRow(s, r).Some? ==>
      var s1, ck := EnrollRow(s, r).value, KeyPos(s.courses, CourseCodeOf, r.courseCode);
      && s1.locations == s.locations && s1.students == s.students && s1.teachers == s.teachers
      && SameCourses(s.courses, s1.courses)
      && (forall i :: 0 <= i < |s.courses| && i != ck ==> s1.courses[i] == s.courses[i])
      && s1.courses[ck].obj.locationId == LocationFor(s, r.courseLocation)
      && |s1.enrollments| == |s.enrollments| + 1 && s1.enrollments[..|s.enrollments|] == s.enrollments
      && s1.enrollments[|s.enrollments|].obj ==
         Enrollment(IdWhere(s.students, StudentEmailOf, r.studentEmail), Some(s.courses[ck].id),
                    IdWhere(s.teachers, TeacherEmailOf, r.teacherEmail))
  {
    if EnrollRow(s, r).Some? {
      var s1 := EnrollRow(s, r).value;
      assert s1.enrollments[..|s.enrollments|] == s.enrollments;
    }
  }

  /** Stores whose courses agree but for locations find the same first course for a code. */
  lemma SameCoursesKeyPos(a: seq<Stored<Course>>, b: seq<Stored<Course>>, code: string)
    requires SameCourses(a, b)
    ensures KeyPos(a, CourseCodeOf, code) == KeyPos(b, CourseCodeOf, code)
    ensures KeyPos(a, CourseCodeOf, code) < |a| ==> a[KeyPos(a, CourseCodeOf, code)].id == b[KeyPos(b, CourseCodeOf, code)].id
  {
    KeyPosSameKeys(a, CourseCodeOf, b, CourseCodeOf, code);
  }

  /** The row loop goes through exactly when every row's course code belongs to a course. */
  lemma {:induction false} EnrollAllSucceeds(s: School, rows: seq<CsvRow>)
    ensures EnrollAll(s, rows).1 <==>
      forall k :: 0 <= k < |rows| ==> KeyPos(s.courses, CourseCodeOf, rows[k].courseCode) < |s.courses|
    decreases |rows|
  {
    if |rows| > 0 {
      EnrollRowEffect(s, rows[0]);
      if EnrollRow(s, rows[0]).Some? {
        var s1 := EnrollRow(s, rows[0]).value;
        EnrollAllSucceeds(s1, rows[1..]);
        CodesFoundShift(s.courses, s1.courses, rows);
      }
    }
  }

  /** When the first row's code is found, the later rows' codes are all found among
      courses that agree but for locations exactly when all rows' codes are found. */
  lemma CodesFoundShift(a: seq<Stored<Course>>, b: seq<Stored<Course>>, rows: seq<CsvRow>)
    requires SameCourses(a, b) && |rows| > 0 && KeyPos(a, CourseCodeOf, rows[0].courseCode) < |a|
    ensures (forall k :: 0 <= k < |rows[1..]| ==> KeyPos(b, CourseCodeOf, rows[1..][k].courseCode) < |b|) <==>
      (forall k :: 0 <= k < |rows| ==> KeyPos(a, CourseCodeOf, rows[k].courseCode) < |a|)
  {
    forall k | 1 <= k < |rows|
      ensures KeyPos(b, CourseCodeOf, rows[1..][k - 1].courseCode) == KeyPos(a, CourseCodeOf, rows[k].courseCode)
    {
      assert rows[1..][k - 1] == rows[k];
      SameCoursesKeyPos(a, b, rows[k].courseCode);
    }
  }

  /** When the row loop goes through it adds one enrollment per row, in row order: the
      student and teacher are the first objects with the row's emails (None when no object
      has that email) and the course is the first with the row's code. */
  lemma {:induction false} OneEnrollmentPerRow(s: School, rows: seq<CsvRow>)
    requires EnrollAll(s, rows).1
    ensures var s1 := EnrollAll(s, rows).0;
      |s1.enrollments| == |s.enrollments| + |rows| &&
      forall k :: 0 <= k < |rows| ==> EnrollmentFor(s, rows[k], s1.enrollments[|s.enrollments| + k].obj)
    decreases |rows|
  {
    if |rows| > 0 {
      EnrollRowKeeps(s, rows[0]);
      var s1 := EnrollRow(s, rows[0]).value;
      OneEnrollmentPerRow(s1, rows[1..]);
      EnrollAllKeepsEntities(s1, rows[1..]);
      var s2 := EnrollAll(s1, rows[1..]).0;
      assert s2 == EnrollAll(s, rows).0;
      EnrollmentsShift(s, s1, s2, rows);
    }
  }

  /** The enrollments after the first pass, followed by those of the remaining rows, are
      the enrollments of all rows. */
  lemma EnrollmentsShift(s: School, s1: School, s2: School, rows: seq<CsvRow>)
    requires |rows| > 0 && EnrollRow(s, rows[0]) == Some(s1)
    requires s1.students == s.students && s1.teachers == s.teachers && SameCourses(s.courses, s1.courses)
    requires |s1.enrollments| == |s.enrollments| + 1
    requires |s2.enrollments| == |s1.enrollments| + |rows| - 1
    requires s2.enrollments[..|s1.enrollments|] == s1.enrollments
    requires forall k :: 0 <= k < |rows[1..]| ==> EnrollmentFor(s1, rows[1..][k], s2.enrollments[|s1.enrollments| + k].obj)
    ensures forall k :: 0 <= k < |rows| ==> EnrollmentFor(s, rows[k], s2.enrollments[|s.enrollments| + k].obj)
  {
    forall k | 0 <= k < |rows| ensures EnrollmentFor(s, rows[k], s2.enrollments[|s.enrollments| + k].obj) {
      if k == 0 {
        FirstEnrollmentFor(s, rows[0], s2);
      } else {
        LaterEnrollmentFor(s, s1, s2, rows, k);
      }
    }
  }

  /** The enrollment of a later row, found in the store after the first pass, is the one
      that row gets from the store before it. */
  lemma LaterEnrollmentFor(s: School, s1: School, s2: School, rows: seq<CsvRow>, k: nat)
    requires 0 < k < |rows|
    requires s1.students == s.students && s1.teachers == s.teachers && SameCourses(s.courses, s1.courses)
    requires |s1.enrollments| == |s.enrollments| + 1
    requires |s2.enrollments| == |s1.enrollments| + |rows| - 1
    requires forall k :: 0 <= k < |rows[1..]| ==> EnrollmentFor(s1, rows[1..][k], s2.enrollments[|s1.enrollments| + k].obj)
    ensures EnrollmentFor(s, rows[k], s2.enrollments[|s.enrollments| + k].obj)
  {
    var e := s2.enrollments[|s.enrollments| + k].obj;
    assert rows[1..][k - 1] == rows[k];
    assert |s1.enrollments| + (k - 1) == |s.enrollments| + k;
    assert EnrollmentFor(s1, rows[k], e);
    EnrollmentForTransfer(s, s1, rows[k], e);
  }

  /** One pass keeps the students, teachers and course keys, and adds one enrollment. */
  lemma EnrollRowKeeps(s: School, r: CsvRow)
    requires EnrollRow(s, r).Some?
    ensures var s1 := EnrollRow(s, r).value;
      && s1.students == s.students && s1.teachers == s.teachers && SameCourses(s.courses, s1.courses)
      && |s1.enrollments| == |s.enrollments| + 1
  {
    EnrollRowEffect(s, r);
  }

  /** The enrollment the first pass appends survives in any store that extends its result. */
  lemma FirstEnrollmentFor(s: School, r: CsvRow, s2: School)
    requires EnrollRow(s, r).Some?
    requires |s2.enrollments| >= |EnrollRow(s, r).value.enrollments|
    requires s2.enrollments[..|EnrollRow(s, r).value.enrollments|] == EnrollRow(s, r).value.enrollments
    ensures |s2.enrollments| > |s.enrollments|
    ensures EnrollmentFor(s, r, s2.enrollments[|s.enrollments|].obj)
  {
    EnrollRowEffect(s, r);
    var s1 := EnrollRow(s, r).value;
    assert s2.enrollments[|s.enrollments|] == s2.enrollments[..|s1.enrollments|][|s.enrollments|];
  }

  /** The enrollment a row gets does not depend on course locations. */
  lemma EnrollmentForTransfer(s: School, s1: School, r: CsvRow, e: Enrollment)
    requires s1.students == s.students && s1.teachers == s.teachers && SameCourses(s.courses, s1.courses)
    requires EnrollmentFor(s1, r, e)
    ensures EnrollmentFor(s, r, e)
  {
    SameCoursesKeyPos(s.courses, s1.courses, r.courseCode);
  }

  /** The enrollment the row loop makes for a row, given the committed entity tables. */
  predicate EnrollmentFor(s: School, r: CsvRow, e: Enrollment)
  {
    var ck := KeyPos(s.courses, CourseCodeOf, r.courseCode);
    && e.studentId == IdWhere(s.students, StudentEmailOf, r.studentEmail)
    && e.teacherId == IdWhere(s.teachers, TeacherEmailOf, r.teacherEmail)
    && ck < |s.courses| && e.courseId == Some(s.courses[ck].id)
  }

  /** The last CSV row with course code `code`, if any. */
  function LastWithCode(rows: seq<CsvRow>, code: string): (r: Option<nat>)
    ensures r.Some? ==> r.value < |rows| && rows[r.value].courseCode == code
    ensures r.Some? ==> forall j :: r.value < j < |rows| ==> rows[j].courseCode != code
    ensures r.None? ==> forall j :: 0 <= j < |rows| ==> rows[j].courseCode != code
  {
    if |rows| == 0 then None
    else match LastWithCode(rows[1..], code)
      case Some(k) => Some(k + 1)
      case None => if rows[0].courseCode == code then Some(0) else None
  }

  /** The location a course ends with after the row loop: for the first course with a
      code, the location of the room of the LAST row with that code (each row overwrites
      it); a course that no row reaches keeps its location. */
  function FinalLocation(s: School, rows: seq<CsvRow>, ci: nat): Option<nat>
    requires ci < |s.courses|
  {
    var c := s.courses[ci];
    if KeyPos(s.courses, CourseCodeOf, c.obj.courseCode) != ci then c.obj.locationId
    else match LastWithCode(rows, c.obj.courseCode)
      case None => c.obj.locationId
      case Some(k) => LocationFor(s, rows[k].courseLocation)
  }

  /** After a row loop that goes through, every course holds its FinalLocation: the row
      that reaches a course last decides its location. */
  lemma {:induction false} LastRowWins(s: School, rows: seq<CsvRow>, ci: nat)
    requires ci < |s.courses| && EnrollAll(s, rows).1
    ensures EnrollAllKeepsCourseCount(s, rows) && EnrollAll(s, rows).0.courses[ci].obj.locationId == FinalLocation(s, rows, ci)
    decreases |rows|
  {
    if |rows| > 0 {
      var s1 := EnrollRow(s, rows[0]).value;
      FinalLocationStep(s, rows[0], rows[1..], ci);
      LastRowWins(s1, rows[1..], ci);
      assert rows == [rows[0]] + rows[1..];
    }
  }

  /** One pass of the row loop moves the final location of a course from the remaining
      rows to all rows. */
  lemma FinalLocationStep(s: School, r: CsvRow, rest: seq<CsvRow>, ci: nat)
    requires ci < |s.courses| && EnrollRow(s, r).Some?
    ensures |EnrollRow(s, r).value.courses| == |s.courses|
    ensures FinalLocation(EnrollRow(s, r).value, rest, ci) == FinalLocation(s, [r] + rest, ci)
  {
    EnrollRowEffect(s, r);
    var s1 := EnrollRow(s, r).value;
    var code := s.courses[ci].obj.courseCode;
    KeyPosSameKeys(s1.courses, CourseCodeOf, s.courses, CourseCodeOf, code);
    var ck := KeyPos(s.courses, CourseCodeOf, r.courseCode);
    if KeyPos(s.courses, CourseCodeOf, code) == ci {
      LastWithCodeCons(r, rest, code);
      if LastWithCode(rest, code).None? {
        if r.courseCode == code {
          assert ck == ci;
        } else {
          assert ck != ci;
        }
      }
    } else {
      assert ck != ci;
    }
  }

  /** The last row with a code among `[r] + rest`: the last in `rest` when there is one,
      otherwise `r` when it has the code. */
  lemma LastWithCodeCons(r: CsvRow, rest: seq<CsvRow>, code: string)
    ensures LastWithCode([r] + rest, code) ==
      match LastWithCode(rest, code)
      case Some(k) => Some(k + 1)
      case None => if r.courseCode == code then Some(0) else None
    ensures LastWithCode(rest, code).Some? ==> ([r] + rest)[LastWithCode(rest, code).value + 1] == rest[LastWithCode(rest, code).value]
  {
    assert ([r] + rest)[1..] == rest;
  }

  predicate EnrollAllKeepsCourseCount(s: School, rows: seq<CsvRow>)
  {
    |EnrollAll(s, rows).0.courses| == |s.courses|
  }

  /** The dedup and lookup keys disagree. Courses are built per distinct NAME but looked up
      by CODE: two rows of one course name with different codes give one course, with the
      first row's code, and the second row raises, after the first row's enrollment has
      been committed. */
  lemma CourseCodeMismatchRaises(s: School, r1: CsvRow, r2: CsvRow)
    requires s.courses == []
    requires r1.courseName == r2.courseName && r1.courseCode != r2.courseCode
    ensures var (s1, ok) := EnrollAll(WithEntities(s, [r1, r2]), [r1, r2]);
      !ok && |s1.enrollments| == |s.enrollments| + 1
  {
    var df := [r1, r2];
    assert df[..1] == [r1];
    assert DedupBy([r1], CourseNameKey) == [r1];
    assert DedupBy(df, CourseNameKey) == [r1];
    var w := WithEntities(s, df);
    assert CourseObjects(df) == [CourseOfRow(r1)];
    AddOneToEmpty(CourseOfRow(r1));
    assert w.courses == [Stored(1, CourseOfRow(r1))];
    var w1 := EnrollRow(w, r1).value;
    assert w1.courses[0].obj.courseCode == r1.courseCode;
    assert KeyPos(w1.courses, CourseCodeOf, r2.courseCode) == 1;
    assert df[1..] == [r2];
    assert |w1.enrollments| == |s.enrollments| + 1;
  }

  /** Students are built per distinct NAME but looked up by EMAIL: when a name appears with
      a second email, that row's enrollment gets no student. */
  lemma StudentEmailMismatchLosesStudent(s: School, r1: CsvRow, email2: string)
    requires s.students == [] && s.courses == []
    requires email2 != r1.studentEmail
    ensures var r2 := r1.(studentEmail := email2);
      var (s1, ok) := EnrollAll(WithEntities(s, [r1, r2]), [r1, r2]);
      ok && |s1.enrollments| == |s.enrollments| + 2 &&
      s1.enrollments[|s.enrollments|].obj.studentId == Some(1) &&
      s1.enrollments[|s.enrollments| + 1].obj.studentId == None
  {
    var r2 := r1.(studentEmail := email2);
    var df := [r1, r2];
    SameNameEntities(s, r1, r2);
    var w := WithEntities(s, df);
    assert KeyPos(w.courses, CourseCodeOf, r1.courseCode) == 0;
    EnrollAllSucceeds(w, df);
    OneEnrollmentPerRow(w, df);
    assert IdWhere(w.students, StudentEmailOf, email2) == None;
  }

  /** The students and courses committed for two rows that share the student name and
      the course name, in a store without students and courses. */
  lemma SameNameEntities(s: School, r1: CsvRow, r2: CsvRow)
    requires s.students == [] && s.courses == []
    requires r1.studentName == r2.studentName && r1.courseName == r2.courseName
    ensures WithEntities(s, [r1, r2]).students == [Stored(1, StudentOfRow(r1))]
    ensures WithEntities(s, [r1, r2]).courses == [Stored(1, CourseOfRow(r1))]
  {
    var df := [r1, r2];
    assert df[..1] == [r1];
    assert DedupBy([r1], StudentNameKey) == [r1] && DedupBy(df, StudentNameKey) == [r1];
    assert DedupBy([r1], CourseNameKey) == [r1] && DedupBy(df, CourseNameKey) == [r1];
    assert StudentObjects(df) == [StudentOfRow(r1)] && CourseObjects(df) == [CourseOfRow(r1)];
    AddOneToEmpty(StudentOfRow(r1));
    AddOneToEmpty(CourseOfRow(r1));
  }

  // ---------------------------------------------------------------- update_queries

  const OldDomain := "@school.com"
  const NewDomain := "@newschool.com"

  /** The teacher with its email rewritten by `.replace("@school.com", "@newschool.com")`. */
  function Rehome(t: Stored<Teacher>): Stored<Teacher>
  {
    Stored(t.id, t.obj.(teacherEmail := ReplaceAll(t.obj.teacherEmail, OldDomain, NewDomain)))
  }

  /** `update_queries`: the first course named "Mathematics" gets code MATH102; when there
      is none, `maths.course_code = ...` raises on None and nothing changes. Then every
      teacher's email has the old domain replaced by the new one. */
  method UpdateQueries(db: SchoolDb) returns (ok: bool)
    modifies db
    ensures var k := KeyPos(old(db.courses), CourseNameOf, "Mathematics");
      && ok == (k < |old(db.courses)|)
      && (ok ==> db.courses == old(db.courses)[k := Stored(old(db.courses)[k].id, old(db.courses)[k].obj.(courseCode := "MATH102"))])
      && (ok ==> db.teachers == MapSeq(old(db.teachers), Rehome))
      && (!ok ==> db.State() == old(db.State()))
    ensures db.locations == old(db.locations) && db.students == old(db.students) && db.enrollments == old(db.enrollments)
  {
    var k := KeyPos(db.courses, CourseNameOf, "Mathematics");
    if k == |db.courses| {
      return false;
    }
    var maths := db.courses[k];
    db.courses := db.courses[k := Stored(maths.id, maths.obj.(courseCode := "MATH102"))];

    ghost var t0, c1 := db.teachers, db.courses;
    var i := 0;
    while i < |db.teachers|
      invariant db.courses == c1 && db.locations == old(db.locations) && db.students == old(db.students)
      invariant db.enrollments == old(db.enrollments)
      invariant 0 <= i <= |db.teachers| && |db.teachers| == |t0|
      invariant forall j :: 0 <= j < i ==> db.teachers[j] == Rehome(t0[j])
      invariant forall j :: i <= j < |t0| ==> db.teachers[j] == t0[j]
    {
      var teacher := db.teachers[i];
      db.teachers := db.teachers[i := Stored(teacher.id, teacher.obj.(teacherEmail := ReplaceAll(teacher.obj.teacherEmail, OldDomain, NewDomain)))];
      i := i + 1;
    }
    assert db.teachers == MapSeq(t0, Rehome);
    return true;
  }

  /** An address in the old domain moves to the new one with the same local part. */
  lemma NewDomainKeepsLocalPart(local: string)
    requires '@' !in local
    ensures ReplaceAll(local + OldDomain, OldDomain, NewDomain) == local + NewDomain
  {
    ReplaceAfter(local, OldDomain, NewDomain, "");
    assert local + OldDomain + "" == local + OldDomain;
    assert ReplaceAll("", OldDomain, NewDomain) == "";
  }

  /** The email rewrite touches nothing but emails: a teacher keeps its key and name, and an
      email without "@school.com" in it stays as it is. */
  lemma RehomeOnlyEmails(t: Stored<Teacher>)
    ensures Rehome(t).id == t.id && Rehome(t).obj.teacherName == t.obj.teacherName
    ensures (forall i :: 0 <= i <= |t.obj.teacherEmail| ==> !OccursAt(t.obj.teacherEmail, OldDomain, i)) ==>
      Rehome(t).obj.teacherEmail == t.obj.teacherEmail
  {
    if forall i :: 0 <= i <= |t.obj.teacherEmail| ==> !OccursAt(t.obj.teacherEmail, OldDomain, i) {
      assert Find(t.obj.teacherEmail, OldDomain) == None;
    }
  }

  // ---------------------------------------------------------------- delete_queries

  predicate IsJohnSmith(t: Stored<Teacher>) { t.obj.teacherName == "John Smith" }

  predicate IsStudent1Course1(e: Stored<Enrollment>) { e.obj.studentId == Some(1) && e.obj.courseId == Some(1) }

  /** `delete_queries`: the first teacher named "John Smith" is deleted, if there is one;
      then the first enrollment of student 1 on course 1, if there is one. */
  method DeleteQueries(db: SchoolDb)
    modifies db
    ensures db.teachers == RemoveFirst(old(db.teachers), IsJohnSmith)
    ensures db.enrollments == RemoveFirst(old(db.enrollments), IsStudent1Course1)
    ensures db.locations == old(db.locations) && db.students == old(db.students) && db.courses == old(db.courses)
  {
    var teacher := FirstWhere(db.teachers, IsJohnSmith);
    if teacher.Some? {
      db.teachers := db.teachers[..teacher.value] + db.teachers[teacher.value + 1..];
    }
    var enrollment := FirstWhere(db.enrollments, IsStudent1Course1);
    if enrollment.Some? {
      db.enrollments := db.enrollments[..enrollment.value] + db.enrollments[enrollment.value + 1..];
    }
  }

  /** Each delete removes at most one object, only one that matches, and none when nothing
      matches; every other teacher and enrollment stays. */
  lemma DeleteQueriesAtMostOne(s: School)
    ensures |RemoveFirst(s.teachers, IsJohnSmith)| ==
      if exists i :: 0 <= i < |s.teachers| && IsJohnSmith(s.teachers[i]) then |s.teachers| - 1 else |s.teachers|
    ensures forall t :: t in s.teachers && !IsJohnSmith(t) ==>
      multiset(RemoveFirst(s.teachers, IsJohnSmith))[t] == multiset(s.teachers)[t]
    ensures |RemoveFirst(s.enrollments, IsStudent1Course1)| ==
      if exists i :: 0 <= i < |s.enrollments| && IsStudent1Course1(s.enrollments[i]) then |s.enrollments| - 1 else |s.enrollments|
    ensures forall e :: e in s.enrollments && !IsStudent1Course1(e) ==>
      multiset(RemoveFirst(s.enrollments, IsStudent1Course1))[e] == multiset(s.enrollments)[e]
  {
    RemoveFirstAtMostOne(s.teachers, IsJohnSmith);
    RemoveFirstAtMostOne(s.enrollments, IsStudent1Course1);
  }
}
