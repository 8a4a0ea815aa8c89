/** The optional extra database exercise: a connection to an SQLite file is used to
    empty tables (`delete_rows`) and to load the denormalised student CSV into the
    normalised student / teacher / course / enrollment tables through parameterised
    INSERT statements (`insert_data`).

    A table is the sequence of its rows in insertion order; the rowid (the
    INTEGER PRIMARY KEY `<table>_id`) of the row at position p is p + 1, and a row holds
    the remaining columns in schema order. */
module RawSqlIngest {
  import opened Wrappers
  import opened Collections
  import opened StudentData

  /** A column value as SQLite stores it. */
  datatype Value = Null | Int(i: int) | Text(s: string)

  type Row = seq<Value>

  /** The tables of a database, by name. */
  type Tables = map<string, seq<Row>>

  /** A statement the connection executed, as far as the properties need to see it. */
  datatype Stmt = PragmaForeignKeys | InsertStmt(table: string, row: Row) | DeleteStmt(table: string) | CommitStmt

  // ---------------------------------------------------------------- the schema's foreign keys

  /** The table that column `c` of `table` refers to: the enrollment table's student_id,
      course_id and teacher_id columns; no other column is a foreign key. */
  function ParentOf(table: string, c: nat): Option<string>
  {
    if table != "enrollment" then None
    else if c == 0 then Some("student")
    else if c == 1 then Some("course")
    else if c == 2 then Some("teacher")
    else None
  }

  /** A foreign-key value is acceptable when it is NULL or the rowid of a row of its parent. */
  predicate RefersTo(t: Tables, parent: string, v: Value)
  {
    v.Null? || (v.Int? && parent in t && 1 <= v.i <= |t[parent]|)
  }

  /** The check that `PRAGMA foreign_keys = ON` switches on for an inserted row. */
  predicate ReferencesHold(t: Tables, table: string, row: Row)
  {
    forall c :: 0 <= c < |row| && ParentOf(table, c).Some? ==> RefersTo(t, ParentOf(table, c).value, row[c])
  }

  /** SQLite's `name LIKE 'sqlite_%'`: "sqlite" in any ASCII letter case, then at least one
      more character, because `_` matches any single character and `%` any rest. */
  predicate LikeSqlitePrefix(name: string)
  {
    |name| >= 7 && forall k :: 0 <= k < 6 ==> AsciiLower(name[k]) == "sqlite"[k]
  }

  function AsciiLower(c: char): char
  {
    if 'A' <= c <= 'Z' then (c as int + 32) as char else c
  }

  /** A name with its ASCII letters in lower case. */
  function Fold(s: string): string
  {
    seq(|s|, k requires 0 <= k < |s| => AsciiLower(s[k]))
  }

  /** SQLite resolves an unquoted table name ignoring the case of ASCII letters. */
  predicate SameName(a: string, b: string)
  {
    Fold(a) == Fold(b)
  }

  /** A character SQLite's tokenizer lets an identifier start with: an ASCII letter, the
      underscore, or any character beyond ASCII. */
  predicate IdentStart(c: char)
  {
    'a' <= c <= 'z' || 'A' <= c <= 'Z' || c == '_' || c as int >= 0x80
  }

  /** A character that may follow inside an identifier: also a digit or a dollar sign. */
  predicate IdentPart(c: char)
  {
    IdentStart(c) || '0' <= c <= '9' || c == '$'
  }

  /** A name that reads as one bare identifier when it is pasted into `DELETE FROM {name}`. */
  predicate PlainName(s: string)
  {
    |s| > 0 && IdentStart(s[0]) && forall k :: 1 <= k < |s| ==> IdentPart(s[k])
  }

  /** `DELETE FROM {name}` runs when the name is a bare identifier that some table's name
      equals up to ASCII letter case. */
  predicate Deletable(t: Tables, name: string)
  {
    PlainName(name) && exists n :: n in t && SameName(n, name)
  }

  /** A DELETE resolves its table name without regard to ASCII case, and a name with a
      space or a leading digit is not a table name at all. */
  lemma DeletableExamples(t: Tables)
    requires "student" in t
    ensures Deletable(t, "student") && Deletable(t, "Student") && Deletable(t, "STUDENT")
    ensures !Deletable(t, "my table") && !Deletable(t, "1st") && !Deletable(t, "")
  {
    assert SameName("student", "Student") by {
      assert Fold("Student") == "student";
    }
    assert SameName("student", "STUDENT") by {
      assert Fold("STUDENT") == "student";
    }
    assert !IdentPart("my table"[2]);
    assert !IdentStart("1st"[0]);
  }

  /** The pattern does more than skip names starting with "sqlite_": letter case is ignored
      and the underscore stands for any character, so a table called "SQLiteNotes" is skipped
      too, while "sqlite" itself is not. */
  lemma LikeSqlitePrefixExamples()
    ensures LikeSqlitePrefix("sqlite_sequence") && LikeSqlitePrefix("sqlite_")
    ensures LikeSqlitePrefix("SQLiteNotes")
    ensures !LikeSqlitePrefix("sqlite") && !LikeSqlitePrefix("student") && !LikeSqlitePrefix("enrollment")
  {
    assert "SQLiteNotes"[0] == 'S' && "SQLiteNotes"[1] == 'Q' && "SQLiteNotes"[2] == 'L';
    assert "SQLiteNotes"[3] == 'i' && "SQLiteNotes"[4] == 't' && "SQLiteNotes"[5] == 'e';
    assert AsciiLower("student"[1]) != "sqlite"[1];
    assert AsciiLower("enrollment"[0]) != "sqlite"[0];
  }

  // ---------------------------------------------------------------- the database file and its connection

  /** An SQLite database file with one open connection. `tables` is what the file holds;
      `pending` is what the connection sees, its uncommitted changes included. */
  class SqliteDb {
    var tables: Tables
    var pending: Tables
    var foreignKeys: bool
    /** Every statement executed so far, in order. */
    ghost var journal: seq<Stmt>

    constructor (tables: Tables)
      ensures this.tables == tables && pending == tables && !foreignKeys && journal == []
    {
      this.tables := tables;
      pending := tables;
      foreignKeys := false;
      journal := [];
    }

    /** `sqlite3.connect`: a new connection sees the file as it is, with foreign keys off. */
    method Connect()
      modifies this
      ensures tables == old(tables) && pending == tables && !foreignKeys && journal == old(journal)
    {
      pending := tables;
      foreignKeys := false;
    }

    /** `PRAGMA foreign_keys = ON`. */
    method EnableForeignKeys()
      modifies this
      ensures foreignKeys && tables == old(tables) && pending == old(pending)
      ensures journal == old(journal) + [PragmaForeignKeys]
    {
      foreignKeys := true;
      journal := journal + [PragmaForeignKeys];
    }

    /** One INSERT: it fails (an exception) when the table does not exist or, with foreign
        keys on, when the row refers to a missing parent row. */
    method Insert(table: string, row: Row) returns (ok: bool)
      modifies this
      ensures ok == (table in old(pending) && (foreignKeys ==> ReferencesHold(old(pending), table, row)))
      ensures ok ==> pending == old(pending)[table := old(pending)[table] + [row]]
      ensures ok ==> journal == old(journal) + [InsertStmt(table, row)]
      ensures !ok ==> pending == old(pending) && journal == old(journal)
      ensures tables == old(tables) && foreignKeys == old(foreignKeys)
    {
      ok := table in pending && (foreignKeys ==> ReferencesHold(pending, table, row));
      if ok {
        pending := pending[table := pending[table] + [row]];
        journal := journal + [InsertStmt(table, row)];
      }
    }

    /** `executemany` of one INSERT over a list of rows, for a table without foreign keys.
        The statement is prepared first, so a missing table fails even for an empty list. */
    method ExecuteMany(table: string, rows: seq<Row>) returns (ok: bool)
      requires forall c: nat :: ParentOf(table, c).None?
      modifies this
      ensures ok == (table in old(pending))
      ensures ok ==> pending == old(pending)[table := old(pending)[table] + rows]
      ensures ok ==> journal == old(journal) + Inserts(table, rows)
      ensures !ok ==> pending == old(pending) && journal == old(journal)
      ensures tables == old(tables) && foreignKeys == old(foreignKeys)
    {
      if table !in pending {
        return false;
      }
      ghost var p0, j0 := pending, journal;
      assert p0[table := p0[table] + rows[..0]] == p0 by {
        assert p0[table] + rows[..0] == p0[table];
      }
      var i := 0;
      while i < |rows|
        invariant 0 <= i <= |rows|
        invariant pending == p0[table := p0[table] + rows[..i]]
        invariant journal == j0 + Inserts(table, rows[..i])
        invariant tables == old(tables) && foreignKeys == old(foreignKeys)
      {
        ok := Insert(table, rows[i]);
        assert rows[..i + 1] == rows[..i] + [rows[i]];
        assert p0[table] + rows[..i] + [rows[i]] == p0[table] + rows[..i + 1];
        InsertsAppend(table, rows[..i], rows[i]);
        i := i + 1;
      }
      assert rows[..i] == rows;
      ok := true;
    }

    /** `DELETE FROM {table}`: every row of the table the name resolves to goes, the table
        stays. A name that is not a bare identifier, or that no table has, raises. */
    method DeleteAll(table: string) returns (ok: bool)
      modifies this
      ensures ok == Deletable(old(pending), table)
      ensures ok ==> pending == Emptied(old(pending), {table}) && journal == old(journal) + [DeleteStmt(table)]
      ensures !ok ==> pending == old(pending) && journal == old(journal)
      ensures tables == old(tables) && foreignKeys == old(foreignKeys)
    {
      ok := PlainName(table) && exists n :: n in pending && SameName(n, table);
      if ok {
        pending := Emptied(pending, {table});
        journal := journal + [DeleteStmt(table)];
      }
    }

    /** `commit`: the connection's view becomes what the file holds. */
    method Commit()
      modifies this
      ensures tables == old(pending) && pending == old(pending) && foreignKeys == old(foreignKeys)
      ensures journal == old(journal) + [CommitStmt]
    {
      tables := pending;
      journal := journal + [CommitStmt];
    }

    /** `SELECT name FROM sqlite_master WHERE type='table' AND name NOT LIKE 'sqlite_%'`:
        each table the connection sees whose name does not match the pattern, once. */
    method UserTableNames() returns (names: seq<string>)
      ensures forall n :: n in names <==> n in pending && !LikeSqlitePrefix(n)
      ensures forall i, j :: 0 <= i < j < |names| ==> names[i] != names[j]
    {
      names := [];
      var rest := pending.Keys;
      while rest != {}
        invariant rest <= pending.Keys
        invariant forall n :: n in names <==> n in pending && n !in rest && !LikeSqlitePrefix(n)
        invariant forall i, j :: 0 <= i < j < |names| ==> names[i] != names[j]
        decreases rest
      {
        var n :| n in rest;
        if !LikeSqlitePrefix(n) {
          names := names + [n];
        }
        rest := rest - {n};
      }
    }
  }

  /** The statements of an `executemany`: one INSERT per row, in order. */
  function Inserts(table: string, rows: seq<Row>): (j: seq<Stmt>)
    ensures |j| == |rows| && forall i :: 0 <= i < |rows| ==> j[i] == InsertStmt(table, rows[i])
  {
    seq(|rows|, i requires 0 <= i < |rows| => InsertStmt(table, rows[i]))
  }

  lemma InsertsAppend(table: string, rows: seq<Row>, row: Row)
    ensures Inserts(table, rows + [row]) == Inserts(table, rows) + [InsertStmt(table, row)]
  {
    assert forall i :: 0 <= i < |rows| ==> (rows + [row])[i] == rows[i];
  }

  // ---------------------------------------------------------------- delete_rows

  /** The tables `delete_rows` empties: the listed ones, or, when no list or an empty list is
      given, every table whose name does not match `sqlite_%`. */
  function DeleteTargets(t: Tables, tableNames: Option<seq<string>>): set<string>
  {
    if tableNames.None? || |tableNames.value| == 0 then set n | n in t && !LikeSqlitePrefix(n)
    else SetOf(tableNames.value)
  }

  function SetOf(s: seq<string>): set<string>
  {
    set n | n in s
  }

  /** A table whose name one of `names` resolves to. */
  predicate Named(names: set<string>, n: string)
  {
    exists m :: m in names && SameName(n, m)
  }

  /** `t` with the rows of the tables that `names` resolve to removed. */
  function Emptied(t: Tables, names: set<string>): (r: Tables)
    ensures r.Keys == t.Keys
    ensures forall n :: n in t ==> r[n] == if Named(names, n) then [] else t[n]
  {
    map n | n in t :: if Named(names, n) then [] else t[n]
  }

  /** `delete_rows`: a DELETE per target table and one commit. When a target does not
      resolve to a table the DELETE raises, nothing is committed and the file does not
      change. The set of tables never changes: rows are deleted, tables are not dropped. */
  method DeleteRows(db: SqliteDb, tableNames: Option<seq<string>>) returns (ok: bool)
    modifies db
    ensures ok == forall n :: n in DeleteTargets(old(db.tables), tableNames) ==> Deletable(old(db.tables), n)
    ensures ok ==> db.tables == Emptied(old(db.tables), DeleteTargets(old(db.tables), tableNames))
    ensures !ok ==> db.tables == old(db.tables)
    ensures db.tables.Keys == old(db.tables).Keys
  {
    db.Connect();
    var names: seq<string>;
    if tableNames.None? || |tableNames.value| == 0 {
      names := db.UserTableNames();
    } else {
      names := tableNames.value;
    }
    assert SetOf(names) == DeleteTargets(db.tables, tableNames) by {
      assert forall n :: n in SetOf(names) <==> n in names;
    }
    ok := DeleteEach(db, names);
    if ok {
      db.Commit();
    }
  }

  /** The DELETE loop of `delete_rows`, up to the first name that does not resolve to a table. */
  method DeleteEach(db: SqliteDb, names: seq<string>) returns (ok: bool)
    modifies db
    ensures ok == forall n :: n in names ==> Deletable(old(db.pending), n)
    ensures ok ==> db.pending == Emptied(old(db.pending), SetOf(names))
    ensures db.tables == old(db.tables) && db.pending.Keys == old(db.pending).Keys
  {
    ghost var p0 := db.pending;
    EmptiedNothing(p0, names);
    var i := 0;
    while i < |names|
      invariant 0 <= i <= |names|
      invariant db.tables == old(db.tables)
      invariant db.pending == Emptied(p0, SetOf(names[..i]))
      invariant forall n :: n in names[..i] ==> Deletable(p0, n)
    {
      EmptiedKeys(p0, SetOf(names[..i]), names[i]);
      ok := db.DeleteAll(names[i]);
      if !ok {
        return;
      }
      EmptiedStep(p0, names, i);
      TakeNext(names, i);
      i := i + 1;
    }
    assert names[..i] == names;
    ok := true;
  }

  /** Emptying nothing changes nothing. */
  lemma EmptiedNothing(t: Tables, names: seq<string>)
    ensures Emptied(t, SetOf(names[..0])) == t
  {
    assert SetOf(names[..0]) == {};
  }

  /** Emptying one more listed table. */
  lemma EmptiedStep(t: Tables, names: seq<string>, i: nat)
    requires i < |names|
    ensures Emptied(Emptied(t, SetOf(names[..i])), {names[i]}) == Emptied(t, SetOf(names[..i + 1]))
  {
    assert names[..i + 1] == names[..i] + [names[i]];
    var s := SetOf(names[..i]);
    assert SetOf(names[..i + 1]) == s + {names[i]};
    forall n | n in t ensures Named(s + {names[i]}, n) <==> Named(s, n) || Named({names[i]}, n) {
      if Named(s + {names[i]}, n) {
        var m :| m in s + {names[i]} && SameName(n, m);
        if m in s {
          assert Named(s, n);
        } else {
          assert Named({names[i]}, n);
        }
      }
    }
  }

  /** Emptying tables does not change whether a name resolves to a table. */
  lemma EmptiedKeys(t: Tables, names: set<string>, x: string)
    ensures Deletable(Emptied(t, names), x) == Deletable(t, x)
  {
  }

  // ---------------------------------------------------------------- insert_data

  function StudentRow(r: CsvRow): Row { [Text(r.studentName), Text(r.studentEmail)] }

  function TeacherRow(r: CsvRow): Row { [Text(r.teacherName), Text(r.teacherEmail)] }

  function CourseRow(r: CsvRow): Row
  {
    [Text(r.courseName), Text(r.courseCode), Text(r.courseSchedule), Text(r.courseLocation)]
  }

  /** `df[columns].drop_duplicates().values.tolist()`; the projection `df[columns]` is
      one row per CSV row. */
  function DistinctRows(df: seq<CsvRow>, cols: CsvRow -> Row): seq<Row>
  {
    DedupBy(MapSeq(df, cols), Whole)
  }

  /** The WHERE clause `col = v AND ...`; a NULL never compares equal. */
  predicate Matches(row: Row, conds: seq<(nat, Value)>)
  {
    forall k :: 0 <= k < |conds| ==> conds[k].0 < |row| && !conds[k].1.Null? && row[conds[k].0] == conds[k].1
  }

  /** The scalar subquery `(SELECT <table>_id FROM <table> WHERE ...)`: the rowid of the
      first matching row, NULL when no row matches. */
  function SelectId(rows: seq<Row>, conds: seq<(nat, Value)>): (v: Value)
    ensures v.Null? || v.Int?
    ensures v.Int? ==> 1 <= v.i <= |rows| && Matches(rows[v.i - 1], conds)
    ensures v.Int? ==> forall p :: 0 <= p < v.i - 1 ==> !Matches(rows[p], conds)
    ensures v.Null? <==> forall p :: 0 <= p < |rows| ==> !Matches(rows[p], conds)
  {
    if |rows| == 0 then Null
    else if Matches(rows[0], conds) then Int(1)
    else match SelectId(rows[1..], conds)
      case Int(i) => Int(i + 1)
      case _ => Null
  }

  /** The tables `insert_data` needs for its statements (the enrollment table only when
      there is a row to enroll). */
  predicate HasParents(t: Tables)
  {
    "student" in t && "teacher" in t && "course" in t
  }

  predicate InsertSucceeds(t: Tables, df: seq<CsvRow>)
  {
    HasParents(t) && (|df| > 0 ==> "enrollment" in t)
  }

  /** The enrollment row for one CSV row: student by email, course by name and code,
      teacher by email. */
  function EnrollmentRow(t: Tables, r: CsvRow): Row
    requires HasParents(t)
  {
    [SelectId(t["student"], [(1, Text(r.studentEmail))]),
     SelectId(t["course"], [(0, Text(r.courseName)), (1, Text(r.courseCode))]),
     SelectId(t["teacher"], [(1, Text(r.teacherEmail))])]
  }

  function EnrollmentRows(t: Tables, df: seq<CsvRow>): (r: seq<Row>)
    requires HasParents(t)
    ensures |r| == |df| && forall i :: 0 <= i < |df| ==> r[i] == EnrollmentRow(t, df[i])
  {
    seq(|df|, i requires 0 <= i < |df| => EnrollmentRow(t, df[i]))
  }

  /** The tables once the three `executemany` calls have run. */
  function WithParents(t: Tables, df: seq<CsvRow>): (p: Tables)
    requires HasParents(t)
    ensures HasParents(p) && p.Keys == t.Keys
  {
    t["student" := t["student"] + DistinctRows(df, StudentRow)]
     ["teacher" := t["teacher"] + DistinctRows(df, TeacherRow)]
     ["course" := t["course"] + DistinctRows(df, CourseRow)]
  }

  /** What the file holds after a successful `insert_data`. */
  function AfterInsert(t: Tables, df: seq<CsvRow>): Tables
    requires InsertSucceeds(t, df)
  {
    var p := WithParents(t, df);
    if |df| == 0 then p else p["enrollment" := p["enrollment"] + EnrollmentRows(p, df)]
  }

  /** The statements a successful `insert_data` executes, in order. */
  function InsertJournal(t: Tables, df: seq<CsvRow>): seq<Stmt>
    requires HasParents(t)
  {
    [PragmaForeignKeys] + ParentInserts(DistinctRows(df, StudentRow), DistinctRows(df, TeacherRow), DistinctRows(df, CourseRow)) +
    Inserts("enrollment", EnrollmentRows(WithParents(t, df), df)) + [CommitStmt]
  }

  function ParentInserts(studentData: seq<Row>, teacherData: seq<Row>, courseData: seq<Row>): seq<Stmt>
  {
    Inserts("student", studentData) + Inserts("teacher", teacherData) + Inserts("course", courseData)
  }

  predicate NoCommit(j: seq<Stmt>)
  {
    forall k :: 0 <= k < |j| ==> !j[k].CommitStmt?
  }

  /** `j` is `j0` followed by statements none of which is a commit. */
  predicate Extends(j0: seq<Stmt>, j: seq<Stmt>)
  {
    |j0| <= |j| && j[..|j0|] == j0 && NoCommit(j[|j0|..])
  }

  lemma ExtendsAppend(j0: seq<Stmt>, x: seq<Stmt>)
    requires NoCommit(x)
    ensures Extends(j0, j0 + x)
  {
    assert (j0 + x)[|j0|..] == x;
  }

  lemma ExtendsTrans(a: seq<Stmt>, b: seq<Stmt>, c: seq<Stmt>)
    requires Extends(a, b) && Extends(b, c)
    ensures Extends(a, c)
  {
    assert c[..|b|] == b;
    assert c[|a|..] == b[|a|..] + c[|b|..];
  }

  /** The three `executemany` calls of `insert_data`, in the order student, teacher, course. */
  method InsertParents(db: SqliteDb, studentData: seq<Row>, teacherData: seq<Row>, courseData: seq<Row>)
    returns (ok: bool)
    modifies db
    ensures ok == HasParents(old(db.pending))
    ensures ok ==> db.pending == old(db.pending)["student" := old(db.pending)["student"] + studentData]
                                 ["teacher" := old(db.pending)["teacher"] + teacherData]
                                 ["course" := old(db.pending)["course"] + courseData]
    ensures ok ==> db.journal == old(db.journal) + ParentInserts(studentData, teacherData, courseData)
    ensures !ok ==> Extends(old(db.journal), db.journal)
    ensures db.tables == old(db.tables) && db.foreignKeys == old(db.foreignKeys)
  {
    ghost var j0 := db.journal;
    ok := db.ExecuteMany("student", studentData);
    if !ok {
      ExtendsAppend(j0, []);
      return;
    }
    ok := db.ExecuteMany("teacher", teacherData);
    if !ok {
      ExtendsAppend(j0, Inserts("student", studentData));
      return;
    }
    ok := db.ExecuteMany("course", courseData);
    if !ok {
      ExtendsAppend(j0, Inserts("student", studentData) + Inserts("teacher", teacherData));
      return;
    }
    assert j0 + Inserts("student", studentData) + Inserts("teacher", teacherData) + Inserts("course", courseData) ==
           j0 + ParentInserts(studentData, teacherData, courseData);
  }

  /** The row loop of `insert_data`: one enrollment INSERT per CSV row, duplicates included,
      its three ids looked up in the tables as they stand. With foreign keys on no row is
      refused, since a lookup yields NULL or an existing rowid; the loop fails only when
      there is no enrollment table, at its first row. */
  method EnrollAll(db: SqliteDb, df: seq<CsvRow>) returns (ok: bool)
    requires HasParents(db.pending)
    modifies db
    ensures ok == (|df| == 0 || "enrollment" in old(db.pending))
    ensures ok && |df| == 0 ==> db.pending == old(db.pending)
    ensures ok && |df| > 0 ==>
      db.pending == old(db.pending)["enrollment" := old(db.pending)["enrollment"] + EnrollmentRows(old(db.pending), df)]
    ensures ok ==> db.journal == old(db.journal) + Inserts("enrollment", EnrollmentRows(old(db.pending), df))
    ensures !ok ==> db.journal == old(db.journal)
    ensures db.tables == old(db.tables) && db.foreignKeys == old(db.foreignKeys)
  {
    ghost var p, j1 := db.pending, db.journal;
    ghost var rows := EnrollmentRows(p, df);
    var i := 0;
    while i < |df|
      invariant 0 <= i <= |df|
      invariant db.tables == old(db.tables) && db.foreignKeys == old(db.foreignKeys)
      invariant i > 0 ==> "enrollment" in p
      invariant db.pending == WithEnrollments(p, rows[..i])
      invariant db.journal == j1 + Inserts("enrollment", rows[..i])
    {
      WithEnrollmentsParents(p, rows[..i]);
      var row := EnrollmentRow(db.pending, df[i]);
      assert row == rows[i];
      EnrollmentRowRefers(db.pending, df[i]);
      ok := db.Insert("enrollment", row);
      if !ok {
        assert i == 0;
        return;
      }
      TakeNext(rows, i);
      WithEnrollmentsStep(p, rows[..i], rows[i]);
      InsertsAppend("enrollment", rows[..i], rows[i]);
      i := i + 1;
    }
    assert rows[..i] == rows;
    ok := true;
  }

  /** Every id of an enrollment row is NULL or the rowid of a row of its parent table,
      so the foreign-key check never refuses it. */
  lemma EnrollmentRowRefers(p: Tables, r: CsvRow)
    requires HasParents(p)
    ensures ReferencesHold(p, "enrollment", EnrollmentRow(p, r))
  {
    var e := EnrollmentRow(p, r);
    forall c | 0 <= c < |e| && ParentOf("enrollment", c).Some?
      ensures RefersTo(p, ParentOf("enrollment", c).value, e[c])
    {
      if c == 0 {
        assert e[0] == SelectId(p["student"], [(1, Text(r.studentEmail))]);
      } else if c == 1 {
        assert e[1] == SelectId(p["course"], [(0, Text(r.courseName)), (1, Text(r.courseCode))]);
      } else {
        assert e[2] == SelectId(p["teacher"], [(1, Text(r.teacherEmail))]);
      }
    }
  }

  /** `p` with `rs` appended to its enrollment table. */
  function WithEnrollments(p: Tables, rs: seq<Row>): Tables
    requires |rs| > 0 ==> "enrollment" in p
  {
    if |rs| == 0 then p else p["enrollment" := p["enrollment"] + rs]
  }

  lemma WithEnrollmentsStep(p: Tables, rs: seq<Row>, x: Row)
    requires "enrollment" in p
    ensures WithEnrollments(p, rs)["enrollment" := WithEnrollments(p, rs)["enrollment"] + [x]] == WithEnrollments(p, rs + [x])
  {
    if |rs| > 0 {
      assert p["enrollment"] + rs + [x] == p["enrollment"] + (rs + [x]);
    } else {
      assert rs + [x] == [x];
    }
  }

  /** Appending enrollments leaves the parent tables and the set of tables alone. */
  lemma WithEnrollmentsParents(p: Tables, rs: seq<Row>)
    requires HasParents(p) && (|rs| > 0 ==> "enrollment" in p)
    ensures var q := WithEnrollments(p, rs);
      q.Keys == p.Keys && q["student"] == p["student"] && q["course"] == p["course"] && q["teacher"] == p["teacher"]
  {
    TableNamesDiffer();
  }

  /** `insert_data`: foreign keys on, the distinct student, teacher and course rows, one
      enrollment per CSV row, and a single commit after all inserts. When a statement
      raises (a missing table), nothing is committed and the file does not change. */
  method InsertData(db: SqliteDb, df: seq<CsvRow>) returns (ok: bool)
    modifies db
    ensures ok == InsertSucceeds(old(db.tables), df)
    ensures ok ==> db.tables == AfterInsert(old(db.tables), df)
    ensures ok ==> db.journal == old(db.journal) + InsertJournal(old(db.tables), df)
    ensures !ok ==> db.tables == old(db.tables) && Extends(old(db.journal), db.journal)
  {
    db.Connect();
    ghost var t0, j0 := db.tables, db.journal;
    db.EnableForeignKeys();
    ExtendsAppend(j0, [PragmaForeignKeys]);
    ghost var j1 := db.journal;
    var studentData, teacherData, courseData :=
      DistinctRows(df, StudentRow), DistinctRows(df, TeacherRow), DistinctRows(df, CourseRow);
    ghost var pi := ParentInserts(studentData, teacherData, courseData);
    ok := InsertParents(db, studentData, teacherData, courseData);
    if !ok {
      ExtendsTrans(j0, j1, db.journal);
      return;
    }
    ghost var p := db.pending;
    assert p == WithParents(t0, df);
    ghost var j2 := db.journal;
    ok := EnrollAll(db, df);
    if !ok {
      ParentInsertsKinds(studentData, teacherData, courseData);
      ExtendsAppend(j1, pi);
      ExtendsTrans(j0, j1, j2);
      return;
    }
    assert db.pending == AfterInsert(t0, df);
    ghost var e := Inserts("enrollment", EnrollmentRows(p, df));
    db.Commit();
    Assoc4(j0, [PragmaForeignKeys], pi, e, [CommitStmt]);
  }

  /** Regrouping five concatenated segments; stated on its own so that InsertData's proof
      sees only the regrouped form. */
  lemma Assoc4<T>(a: seq<T>, b: seq<T>, c: seq<T>, d: seq<T>, e: seq<T>)
    ensures a + b + c + d + e == a + (b + c + d + e)
  {
  }

  // ---------------------------------------------------------------- properties of insert_data

  /** With the whole row as the key, the first position of a key is the first occurrence. */
  lemma KeyPosWholeRow(s: seq<Row>, x: Row)
    ensures KeyPos(s, Whole, x) == IndexOf(s, x)
  {
    if |s| > 0 && s[0] != x {
      KeyPosWholeRow(s[1..], x);
    }
  }

  /** The rows the `executemany` calls insert: each projected row of the CSV once (no row
      twice, every CSV row's projection present, nothing else), in the order in which the
      distinct projections first occur in the CSV. */
  lemma DistinctRowsFirstSeen(df: seq<CsvRow>, cols: CsvRow -> Row)
    ensures var d := DistinctRows(df, cols);
      forall i, j :: 0 <= i < j < |d| ==> d[i] != d[j]
    ensures forall k :: 0 <= k < |df| ==> cols(df[k]) in DistinctRows(df, cols)
    ensures forall x :: x in DistinctRows(df, cols) ==> exists k :: 0 <= k < |df| && x == cols(df[k])
    ensures var d, s := DistinctRows(df, cols), MapSeq(df, cols);
      forall i, j :: 0 <= i < j < |d| ==> IndexOf(s, d[i]) < IndexOf(s, d[j])
  {
    var s := MapSeq(df, cols);
    var d := DistinctRows(df, cols);
    DedupByKeys(s, Whole);
    DedupByFirstSeen(s, Whole);
    forall i, j | 0 <= i < j < |d| ensures d[i] != d[j] && IndexOf(s, d[i]) < IndexOf(s, d[j]) {
      assert Whole(d[i]) != Whole(d[j]);
      KeyPosWholeRow(s, d[i]);
      KeyPosWholeRow(s, d[j]);
    }
    forall k | 0 <= k < |df| ensures cols(df[k]) in d {
      assert s[k] == cols(df[k]);
      assert KeyPos(d, Whole, Whole(s[k])) < |d|;
    }
    forall x | x in d ensures exists k :: 0 <= k < |df| && x == cols(df[k]) {
      var k := IndexOf(s, x);
      assert s[k] == cols(df[k]);
    }
  }

  /** The course rows are distinct on all four columns, so two CSV rows for the same course
      name and code that differ in schedule give two course rows; the enrollment lookup,
      which matches on name and code only, sends both rows to the first of them. */
  lemma SameCourseTwoSchedules(t: Tables, r1: CsvRow, r2: CsvRow)
    requires HasParents(t) && t["course"] == []
    requires r1.courseName == r2.courseName && r1.courseCode == r2.courseCode
    requires r1.courseSchedule != r2.courseSchedule
    ensures |DistinctRows([r1, r2], CourseRow)| == 2
    ensures EnrollmentRow(WithParents(t, [r1, r2]), r1)[1] == Int(1)
    ensures EnrollmentRow(WithParents(t, [r1, r2]), r2)[1] == Int(1)
  {
    var df := [r1, r2];
    var c1, c2 := CourseRow(r1), CourseRow(r2);
    assert c1 != c2 by {
      assert c1[2] != c2[2];
    }
    var s := MapSeq(df, CourseRow);
    assert |s| == 2 && s[0] == c1 && s[1] == c2;
    assert s == [c1, c2];
    assert s[..1] == [c1];
    assert DedupBy([c1], Whole) == [c1];
    assert DistinctRows(df, CourseRow) == [c1, c2];
    var c := WithParents(t, df)["course"];
    assert c == [c1, c2];
    var conds := [(0, Text(r1.courseName)), (1, Text(r1.courseCode))];
    CourseRowMatches(r1);
    SelectIdFirst(c, conds);
    assert EnrollmentRow(WithParents(t, df), r1)[1] == SelectId(c, conds);
    assert EnrollmentRow(WithParents(t, df), r2)[1] == SelectId(c, conds);
  }

  /** A course row matches the name and code it was made from. */
  lemma CourseRowMatches(r: CsvRow)
    ensures Matches(CourseRow(r), [(0, Text(r.courseName)), (1, Text(r.courseCode))])
  {
  }

  /** A table whose first row matches gives rowid 1. */
  lemma SelectIdFirst(rows: seq<Row>, conds: seq<(nat, Value)>)
    requires |rows| > 0 && Matches(rows[0], conds)
    ensures SelectId(rows, conds) == Int(1)
  {
  }

  /** Every enrollment row names, for its CSV row, the first student row with that email,
      the first course row with that name AND code and the first teacher row with that
      email. None of the three is NULL, because the parent inserts put a matching row in
      each table first, so the foreign-key check never refuses an enrollment. */
  lemma EnrollmentResolves(t: Tables, df: seq<CsvRow>, i: nat)
    requires HasParents(t) && i < |df|
    ensures var p := WithParents(t, df); var e := EnrollmentRow(p, df[i]);
      && Resolves(p["student"], e[0], [(1, Text(df[i].studentEmail))])
      && Resolves(p["course"], e[1], [(0, Text(df[i].courseName)), (1, Text(df[i].courseCode))])
      && Resolves(p["teacher"], e[2], [(1, Text(df[i].teacherEmail))])
    ensures ReferencesHold(WithParents(t, df), "enrollment", EnrollmentRow(WithParents(t, df), df[i]))
  {
    var p := WithParents(t, df);
    var e := EnrollmentRow(p, df[i]);
    StudentIdResolves(t, df, i);
    CourseIdResolves(t, df, i);
    TeacherIdResolves(t, df, i);
    assert e[0] == SelectId(p["student"], [(1, Text(df[i].studentEmail))]);
  }

  lemma StudentIdResolves(t: Tables, df: seq<CsvRow>, i: nat)
    requires HasParents(t) && i < |df|
    ensures var p := WithParents(t, df);
      Resolves(p["student"], SelectId(p["student"], [(1, Text(df[i].studentEmail))]), [(1, Text(df[i].studentEmail))])
  {
    ProjectionPresent(df, StudentRow, i);
    LookupFinds(t["student"], DistinctRows(df, StudentRow), StudentRow(df[i]), [(1, Text(df[i].studentEmail))]);
  }

  lemma CourseIdResolves(t: Tables, df: seq<CsvRow>, i: nat)
    requires HasParents(t) && i < |df|
    ensures var p, conds := WithParents(t, df), [(0, Text(df[i].courseName)), (1, Text(df[i].courseCode))];
      Resolves(p["course"], SelectId(p["course"], conds), conds)
  {
    ProjectionPresent(df, CourseRow, i);
    LookupFinds(t["course"], DistinctRows(df, CourseRow), CourseRow(df[i]),
                [(0, Text(df[i].courseName)), (1, Text(df[i].courseCode))]);
  }

  lemma TeacherIdResolves(t: Tables, df: seq<CsvRow>, i: nat)
    requires HasParents(t) && i < |df|
    ensures var p := WithParents(t, df);
      Resolves(p["teacher"], SelectId(p["teacher"], [(1, Text(df[i].teacherEmail))]), [(1, Text(df[i].teacherEmail))])
  {
    ProjectionPresent(df, TeacherRow, i);
    LookupFinds(t["teacher"], DistinctRows(df, TeacherRow), TeacherRow(df[i]), [(1, Text(df[i].teacherEmail))]);
  }

  /** `v` is the rowid of a row of `rows` that satisfies the WHERE clause. */
  predicate Resolves(rows: seq<Row>, v: Value, conds: seq<(nat, Value)>)
  {
    v.Int? && 1 <= v.i <= |rows| && Matches(rows[v.i - 1], conds)
  }

  lemma ProjectionPresent(df: seq<CsvRow>, cols: CsvRow -> Row, i: nat)
    requires i < |df|
    ensures cols(df[i]) in DistinctRows(df, cols)
  {
    DistinctRowsFirstSeen(df, cols);
  }

  /** A lookup over earlier rows plus newly inserted ones finds a row when one of the new
      rows matches. */
  lemma LookupFinds(before: seq<Row>, added: seq<Row>, x: Row, conds: seq<(nat, Value)>)
    requires x in added && Matches(x, conds)
    ensures Resolves(before + added, SelectId(before + added, conds), conds)
  {
    var k :| 0 <= k < |added| && added[k] == x;
    assert (before + added)[|before| + k] == x;
  }

  /** How many INSERTs into `table` a list of statements holds. */
  function CountInserts(j: seq<Stmt>, table: string): nat
  {
    if |j| == 0 then 0
    else (if j[0].InsertStmt? && j[0].table == table then 1 else 0) + CountInserts(j[1..], table)
  }

  lemma {:induction false} CountInsertsAppend(a: seq<Stmt>, b: seq<Stmt>, table: string)
    ensures CountInserts(a + b, table) == CountInserts(a, table) + CountInserts(b, table)
  {
    if |a| > 0 {
      assert (a + b)[0] == a[0];
      assert (a + b)[1..] == a[1..] + b;
      CountInsertsAppend(a[1..], b, table);
    } else {
      assert a + b == b;
    }
  }

  lemma {:induction false} CountInsertsOf(tb: string, rows: seq<Row>, table: string)
    ensures CountInserts(Inserts(tb, rows), table) == if tb == table then |rows| else 0
  {
    if |rows| > 0 {
      assert Inserts(tb, rows) == [InsertStmt(tb, rows[0])] + Inserts(tb, rows[1..]);
      CountInsertsAppend([InsertStmt(tb, rows[0])], Inserts(tb, rows[1..]), table);
      CountInsertsOf(tb, rows[1..], table);
    }
  }

  predicate IsParentInsert(st: Stmt)
  {
    st.InsertStmt? && (st.table == "student" || st.table == "teacher" || st.table == "course")
  }

  predicate IsEnrollmentInsert(st: Stmt)
  {
    st.InsertStmt? && st.table == "enrollment"
  }

  /** The order of the statements of `insert_data`: the foreign-key pragma first; then the
      student, teacher and course inserts, one per distinct row; then exactly one
      enrollment insert per CSV row, none of them before a parent insert; and one commit,
      the last statement. */
  lemma InsertJournalOrder(t: Tables, df: seq<CsvRow>)
    requires HasParents(t)
    ensures var j := InsertJournal(t, df);
      && |j| >= 2 && j[0] == PragmaForeignKeys && j[|j| - 1] == CommitStmt && NoCommit(j[..|j| - 1])
      && (forall a, b :: 0 <= a < b < |j| && IsEnrollmentInsert(j[a]) ==> !IsParentInsert(j[b]))
    ensures var j := InsertJournal(t, df);
      && CountInserts(j, "enrollment") == |df|
      && CountInserts(j, "student") == |DistinctRows(df, StudentRow)|
      && CountInserts(j, "teacher") == |DistinctRows(df, TeacherRow)|
      && CountInserts(j, "course") == |DistinctRows(df, CourseRow)|
  {
    var ds, dt, dc := DistinctRows(df, StudentRow), DistinctRows(df, TeacherRow), DistinctRows(df, CourseRow);
    var er := EnrollmentRows(WithParents(t, df), df);
    assert InsertJournal(t, df) == [PragmaForeignKeys] + ParentInserts(ds, dt, dc) + Inserts("enrollment", er) + [CommitStmt];
    ParentInsertsKinds(ds, dt, dc);
    JournalShape(ParentInserts(ds, dt, dc), Inserts("enrollment", er));
    JournalCountsAll(ds, dt, dc, er);
  }

  /** Every statement of the parent inserts is a parent insert. */
  lemma ParentInsertsKinds(ds: seq<Row>, dt: seq<Row>, dc: seq<Row>)
    ensures var pi := ParentInserts(ds, dt, dc); forall k :: 0 <= k < |pi| ==> IsParentInsert(pi[k])
  {
    var a, b, c := Inserts("student", ds), Inserts("teacher", dt), Inserts("course", dc);
    var pi := ParentInserts(ds, dt, dc);
    assert pi == a + b + c;
    forall k | 0 <= k < |pi| ensures IsParentInsert(pi[k]) {
      if k < |a| {
        assert pi[k] == a[k];
      } else if k < |a| + |b| {
        assert pi[k] == b[k - |a|];
      } else {
        assert pi[k] == c[k - |a| - |b|];
      }
    }
  }

  /** The insert counts of the journal, table by table. */
  lemma JournalCountsAll(ds: seq<Row>, dt: seq<Row>, dc: seq<Row>, er: seq<Row>)
    ensures var j := [PragmaForeignKeys] + ParentInserts(ds, dt, dc) + Inserts("enrollment", er) + [CommitStmt];
      && CountInserts(j, "enrollment") == |er| && CountInserts(j, "student") == |ds|
      && CountInserts(j, "teacher") == |dt| && CountInserts(j, "course") == |dc|
  {
    TableNamesDiffer();
    JournalCounts(ds, dt, dc, er, "enrollment");
    JournalCounts(ds, dt, dc, er, "student");
    JournalCounts(ds, dt, dc, er, "teacher");
    JournalCounts(ds, dt, dc, er, "course");
  }

  lemma TableNamesDiffer()
    ensures "student" != "teacher" && "student" != "course" && "student" != "enrollment"
    ensures "teacher" != "course" && "teacher" != "enrollment" && "course" != "enrollment"
  {
    assert "student"[0] == 's' && "teacher"[0] == 't' && "course"[0] == 'c' && "enrollment"[0] == 'e';
  }

  /** The statement order of a pragma, parent inserts, enrollment inserts and a commit. */
  lemma JournalShape(pi: seq<Stmt>, e: seq<Stmt>)
    requires forall k :: 0 <= k < |pi| ==> IsParentInsert(pi[k])
    requires forall k :: 0 <= k < |e| ==> IsEnrollmentInsert(e[k])
    ensures var j := [PragmaForeignKeys] + pi + e + [CommitStmt];
      && |j| >= 2 && j[0] == PragmaForeignKeys && j[|j| - 1] == CommitStmt && NoCommit(j[..|j| - 1])
      && (forall a, b :: 0 <= a < b < |j| && IsEnrollmentInsert(j[a]) ==> !IsParentInsert(j[b]))
  {
    var j := [PragmaForeignKeys] + pi + e + [CommitStmt];
    forall k | 0 <= k < |j| - 1 ensures !j[k].CommitStmt? {
      if k == 0 {
      } else if k < 1 + |pi| {
        assert j[k] == pi[k - 1];
      } else {
        assert j[k] == e[k - 1 - |pi|];
      }
    }
    assert j[..|j| - 1] == [PragmaForeignKeys] + pi + e;
    forall a, b | 0 <= a < b < |j| && IsEnrollmentInsert(j[a]) ensures !IsParentInsert(j[b]) {
      if a >= 1 + |pi| && b < |j| - 1 {
        assert j[b] == e[b - 1 - |pi|];
      }
    }
  }

  lemma JournalCounts(ds: seq<Row>, dt: seq<Row>, dc: seq<Row>, er: seq<Row>, table: string)
    ensures CountInserts([PragmaForeignKeys] + ParentInserts(ds, dt, dc) + Inserts("enrollment", er) + [CommitStmt], table) ==
      (if table == "student" then |ds| else 0) + (if table == "teacher" then |dt| else 0) +
      (if table == "course" then |dc| else 0) + (if table == "enrollment" then |er| else 0)
  {
    var pi, e := ParentInserts(ds, dt, dc), Inserts("enrollment", er);
    CountInsertsAppend([PragmaForeignKeys] + pi + e, [CommitStmt], table);
    CountInsertsAppend([PragmaForeignKeys] + pi, e, table);
    CountInsertsAppend([PragmaForeignKeys], pi, table);
    CountInsertsAppend(Inserts("student", ds) + Inserts("teacher", dt), Inserts("course", dc), table);
    CountInsertsAppend(Inserts("student", ds), Inserts("teacher", dt), table);
    CountInsertsOf("student", ds, table);
    CountInsertsOf("teacher", dt, table);
    CountInsertsOf("course", dc, table);
    CountInsertsOf("enrollment", er, table);
  }

  /** A successful `insert_data` adds exactly one enrollment row per CSV row after the rows
      already there, the distinct student, teacher and course rows after theirs, and no
      table. */
  lemma OneEnrollmentPerRow(t: Tables, df: seq<CsvRow>)
    requires InsertSucceeds(t, df) && |df| > 0
    ensures var a := AfterInsert(t, df);
      && a.Keys == t.Keys
      && |a["enrollment"]| == |t["enrollment"]| + |df|
      && a["enrollment"][..|t["enrollment"]|] == t["enrollment"]
      && a["student"] == t["student"] + DistinctRows(df, StudentRow)
      && a["teacher"] == t["teacher"] + DistinctRows(df, TeacherRow)
      && a["course"] == t["course"] + DistinctRows(df, CourseRow)
  {
    var p := WithParents(t, df);
    assert p["enrollment"] == t["enrollment"];
    var a := AfterInsert(t, df);
    assert a["enrollment"] == t["enrollment"] + EnrollmentRows(p, df);
  }
}
