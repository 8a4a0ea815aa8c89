# A verified model of the comp0035 tutorial solutions

The repository holds worked solutions to a software-engineering course's weekly
exercises. This project models the four pieces that follow rules a model can state:

- **Raw-SQL ingestion** (`solutions_extra_db.py`). `delete_rows` empties tables over an
  SQLite connection. `insert_data` loads the denormalised student CSV into the student,
  teacher, course and enrollment tables. The model is the class `RawSqlIngest.SqliteDb`:
  the committed file (`tables`), the connection's uncommitted view (`pending`), the
  foreign-key switch, and a ghost journal of the statements executed.
- **ORM ingestion and queries** (`queries.py`). `add_teacher_data` and `add_all_data` build
  Location, Student, Teacher, Course and Enrollment objects. `update_queries` and
  `delete_queries` change them. The model is the class `OrmQueries.SchoolDb`: five
  tables, each a sequence of stored objects with their primary keys.
- **The plain classes** (`classes_python.py`). `ParalympicEvent` is a class with an
  append-only athlete list. `Athlete`, `Runner`, `Medal` and `AthleteWithMedals` are value
  records, each with the string Python renders for it.
- **Event-table cleaning** (`solutions_pandas.py`). `prepare_event_data` is a pipeline of
  dataframe steps. `Demonstrate.where` and `Demonstrate.when_events` are two selections.
  A dataframe is modelled as a list of distinct column labels plus rows of cells. Every
  pandas operation returns a `Result`: a `Failure` is the exception pandas raises.

In both ingestion variants a table is a sequence in insertion order, and keys are
1..n. A lookup (`SELECT ... WHERE`, `select(...).first()`) is the first match in that
order. Shared pieces live in three modules:

- `Collections`: first match, order-preserving deduplication, removal of a first match;
- `Text`: Python's `join`, `split`, `find`, `replace`, `strip`, `str(n)`, `repr(s)` and `<=`
  on strings;
- `StudentData`: one CSV row.

The source is followed as written, including where its dedup key and its lookup key
disagree. `OrmQueries.CourseCodeMismatchRaises`,
`OrmQueries.StudentEmailMismatchLosesStudent` and `RawSqlIngest.SameCourseTwoSchedules`
show the consequences.

Source paths below are relative to the repository root.

## Model

| member | source | states |
|---|---|---|
| Collections.FirstWhere | src/activities/database2_wk8/queries.py:179 | the first index that matches, with nothing matching before it; None exactly when nothing matches |
| Collections.KeyPos | src/activities/database2_wk8/queries.py:76-79 | the first position of a key, or the length when the key is absent |
| Collections.KeyPosAppend | src/activities/database2_wk8/queries.py:64-71 | adding an object does not move the first match of a key already present |
| Collections.DedupBy | src/activities/database2_wk8/queries.py:43 | `drop_duplicates(subset=...)` keeps only elements of the input, and no more of them |
| Collections.DedupByKeys | src/activities/database2_wk8/queries.py:43 | deduplication keeps exactly one element per key: no key twice, every key present |
| Collections.DedupByFirstSeen | src/activities/database2_wk8/queries.py:43 | each kept element is the first with its key, and the kept ones are in first-seen order |
| Collections.RemoveFirstAtMostOne | src/activities/database2_wk8/queries.py:179-193 | removal deletes at most one element, only a matching one; the multiset of the others is unchanged |
| Text.JoinAppend | src/activities/classes_wk5/classes_python.py:30 | joining one more name adds the separator and the name at the end |
| Text.Find | src/activities/database2_wk8/queries.py:161 | the first occurrence of the pattern; None exactly when it never occurs |
| Text.SplitJoin | src/activities/classes_wk5/classes_python.py:82 | splitting a join of at least one part gives the parts back when no part holds the separator's first character |
| Text.JoinSplit | src/activities/classes_wk5/classes_python.py:125 | joining a split gives the string back |
| Text.SplitJoinPrefix | src/activities/classes_wk5/classes_python.py:125 | splitting a join returns the separator-free leading parts, then the split of the last part |
| Text.ReplaceAbsent | src/activities/database2_wk8/queries.py:161 | `replace` leaves a string alone when it lacks the pattern's first character |
| Text.ReplaceAfter | src/activities/database2_wk8/queries.py:161 | `replace` rewrites the first occurrence after a pattern-free piece and goes on after it |
| Text.StripSpec | src/activities/pandas_wk2/solutions_pandas.py:142 | `strip` keeps a contiguous middle, removes only whitespace, and leaves none at either end |
| Text.StripAgain | src/activities/pandas_wk2/solutions_pandas.py:142 | stripping twice equals stripping once |
| Text.ParseNatToString | src/activities/classes_wk5/classes_python.py:53 | `str(n)` of a natural number reads back to n |
| Text.StrReprRoundTrip | src/activities/classes_wk5/classes_python.py:51-52 | `repr` of a string loses nothing: the string reads back from it, every escape included |
| Text.HexDigitsRoundTrip | src/activities/classes_wk5/classes_python.py:51-52 | the fixed-width hexadecimal digits of an escape read back to the code point |
| Text.StrReprNoBreakSpace | src/activities/classes_wk5/classes_python.py:51-52 | `repr` writes a no-break space, a non-printable character below 0x100, as `\xa0` |
| Text.StrReprLineSeparator | src/activities/classes_wk5/classes_python.py:51-52 | `repr` writes the line separator U+2028 as `\u2028` |
| Text.StrReprPrivateUse | src/activities/classes_wk5/classes_python.py:51-52 | `repr` writes a private-use character beyond 0xFFFF with `\U` and eight digits |
| Text.StrLeTotal | src/activities/pandas_wk2/solutions_pandas.py:231 | string `<=` is total |
| Text.StrLeTrans | src/activities/pandas_wk2/solutions_pandas.py:231 | string `<=` is transitive |
| RawSqlIngest.LikeSqlitePrefixExamples | src/activities/database_wk4/solutions_extra_db.py:14 | `NOT LIKE 'sqlite_%'` also skips "SQLiteNotes" and keeps "sqlite": case-insensitive, with a one-character wildcard |
| RawSqlIngest.SqliteDb.constructor | src/activities/database_wk4/solutions_extra_db.py:11 | a database file whose connection sees what the file holds, with foreign keys off |
| RawSqlIngest.SqliteDb.Connect | src/activities/database_wk4/solutions_extra_db.py:30 | a fresh connection sees the file, with foreign keys off |
| RawSqlIngest.SqliteDb.EnableForeignKeys | src/activities/database_wk4/solutions_extra_db.py:37 | the pragma switches the check on and changes no table |
| RawSqlIngest.SqliteDb.Insert | src/activities/database_wk4/solutions_extra_db.py:68-76 | an INSERT succeeds exactly when the table exists and, with checking on, the row's foreign keys hold; it then appends the row, and otherwise changes nothing |
| RawSqlIngest.SqliteDb.ExecuteMany | src/activities/database_wk4/solutions_extra_db.py:56-58 | `executemany` appends all rows in order, or fails with no change when the table is missing, even for an empty list |
| RawSqlIngest.SqliteDb.DeleteAll | src/activities/database_wk4/solutions_extra_db.py:17 | `DELETE FROM {name}` runs exactly when the name is a bare identifier naming a table up to ASCII case; it then empties that table and keeps it, and otherwise fails with no change |
| RawSqlIngest.DeletableExamples | src/activities/database_wk4/solutions_extra_db.py:17 | "Student" and "STUDENT" delete from the table "student"; "my table", "1st" and "" are refused |
| RawSqlIngest.SqliteDb.Commit | src/activities/database_wk4/solutions_extra_db.py:79 | commit makes the connection's view the file's content |
| RawSqlIngest.SqliteDb.UserTableNames | src/activities/database_wk4/solutions_extra_db.py:14-15 | the catalogue query lists each visible table not matching the pattern, once each |
| RawSqlIngest.Emptied | src/activities/database_wk4/solutions_extra_db.py:16-17 | emptying keeps the set of table names, clears every table a listed name resolves to and keeps every other table's rows |
| RawSqlIngest.DeleteRows | src/activities/database_wk4/solutions_extra_db.py:10-19 | empties the tables the listed names resolve to, or every non-`sqlite_%` table when the list is None or empty; succeeds exactly when every target is a bare identifier naming a table, and otherwise leaves the file unchanged; the set of tables never changes |
| RawSqlIngest.DeleteEach | src/activities/database_wk4/solutions_extra_db.py:16-17 | the delete loop empties every table the names resolve to, and fails exactly when some name does not resolve to a table |
| RawSqlIngest.SelectId | src/activities/database_wk4/solutions_extra_db.py:63-65 | a scalar subquery gives the rowid of the first matching row, or NULL when none matches |
| RawSqlIngest.WithParents | src/activities/database_wk4/solutions_extra_db.py:56-58 | the three inserts extend only the student, teacher and course tables, and keep the set of tables |
| RawSqlIngest.InsertParents | src/activities/database_wk4/solutions_extra_db.py:56-58 | the student, teacher and course inserts, in that order; when one fails nothing is committed |
| RawSqlIngest.EnrollAll | src/activities/database_wk4/solutions_extra_db.py:67-76 | the row loop appends one enrollment per CSV row and is never refused by the foreign-key check; it fails only without an enrollment table |
| RawSqlIngest.EnrollmentRowRefers | src/activities/database_wk4/solutions_extra_db.py:61-66 | every id an enrollment row carries is NULL or an existing parent rowid |
| RawSqlIngest.InsertData | src/activities/database_wk4/solutions_extra_db.py:22-83 | succeeds exactly when the needed tables exist; then the file holds the parent rows and enrollments, after the pragma and before the one commit; on failure the file is unchanged and nothing is committed |
| RawSqlIngest.DistinctRowsFirstSeen | src/activities/database_wk4/solutions_extra_db.py:46-53 | each distinct projected row is inserted once: no duplicates, none missing, nothing extra, in first-seen order |
| RawSqlIngest.SameCourseTwoSchedules | src/activities/database_wk4/solutions_extra_db.py:48 | one name and code with two schedules gives two course rows, and both CSV rows enroll on the first |
| RawSqlIngest.EnrollmentResolves | src/activities/database_wk4/solutions_extra_db.py:61-75 | each enrollment names the first student with the row's email, the first course with its name AND code, and the first teacher with its email; none is NULL |
| RawSqlIngest.InsertJournalOrder | src/activities/database_wk4/solutions_extra_db.py:37-79 | pragma first; commit last and only once; no parent insert after an enrollment insert; one insert per distinct parent row and one enrollment insert per CSV row |
| RawSqlIngest.OneEnrollmentPerRow | src/activities/database_wk4/solutions_extra_db.py:56-76 | a successful load appends exactly the CSV's row count of enrollments and the distinct parent rows after the existing rows; no table is added |
| OrmQueries.AddAllKeys | src/activities/database2_wk8/queries.py:64-71 | flushing keeps the existing objects and appends the new ones in order; keys follow every existing key (1..n from empty) and stay increasing |
| OrmQueries.IdWhere | src/activities/database2_wk8/queries.py:78-79 | `select(X.id).where(...).first()`: the key of the first match, or None exactly when nothing matches |
| OrmQueries.SchoolDb.constructor | src/activities/database2_wk8/queries.py:26 | a database holding the given tables |
| OrmQueries.BuildObjects | src/activities/database2_wk8/queries.py:20-23 | the object loop builds one object per row, in row order |
| OrmQueries.AddTeacherData | src/activities/database2_wk8/queries.py:14-28 | one Teacher per CSV row, duplicates included, appended and committed; the other tables are unchanged |
| OrmQueries.AddAllData | src/activities/database2_wk8/queries.py:31-85 | entities are committed first, then the row loop runs; a raising row stops it, and earlier rows' commits stay |
| OrmQueries.AddEntities | src/activities/database2_wk8/queries.py:36-71 | one Location per distinct room and one Student, Teacher and Course per distinct name; all committed, with no enrollment |
| OrmQueries.EnrollRows | src/activities/database2_wk8/queries.py:74-85 | the row loop, one committed pass per row, up to the first row whose course code is not found |
| OrmQueries.FirstRowPerKey | src/activities/database2_wk8/queries.py:36-62 | one object per distinct key value, none missing, each from the first row with its value, in first-seen order |
| OrmQueries.EntitiesFromFirstRows | src/activities/database2_wk8/queries.py:43-62 | a Student has the email of the first row with its name; a Course has that row's code and schedule, and no location yet |
| OrmQueries.EnrollAllKeepsEntities | src/activities/database2_wk8/queries.py:74-85 | the loop adds no location, student, teacher or course; it changes only course locations, and enrollments are only appended |
| OrmQueries.EnrollRowEffect | src/activities/database2_wk8/queries.py:76-85 | a pass raises exactly when no course has the row's code; otherwise it sets that course's location and appends one enrollment |
| OrmQueries.EnrollAllSucceeds | src/activities/database2_wk8/queries.py:77-81 | the loop goes through exactly when every row's course code is found |
| OrmQueries.OneEnrollmentPerRow | src/activities/database2_wk8/queries.py:76-84 | one enrollment per row, in order: student and teacher by email (None when absent), course by code |
| OrmQueries.LastWithCode | src/activities/database2_wk8/queries.py:77 | the last CSV row with a course code, with none after it; None exactly when no row has it |
| OrmQueries.LastRowWins | src/activities/database2_wk8/queries.py:74-85 | a course's location ends as the first location of the room of the last row with its code |
| OrmQueries.CourseCodeMismatchRaises | src/activities/database2_wk8/queries.py:58-62 | one name with two codes gives one course; the second code's row raises after the first's enrollment is committed |
| OrmQueries.StudentEmailMismatchLosesStudent | src/activities/database2_wk8/queries.py:43-47 | one name with a second email: that row's enrollment gets no student |
| OrmQueries.SameNameEntities | src/activities/database2_wk8/queries.py:43-62 | two rows sharing a student name and a course name give one student and one course, from the first row |
| OrmQueries.UpdateQueries | src/activities/database2_wk8/queries.py:135-169 | only the first "Mathematics" course gets MATH102, and every teacher email gets the domain rewrite; without such a course it raises and nothing changes |
| OrmQueries.NewDomainKeepsLocalPart | src/activities/database2_wk8/queries.py:161 | an "@school.com" address becomes the same local part at "@newschool.com" |
| OrmQueries.RehomeOnlyEmails | src/activities/database2_wk8/queries.py:160-162 | a teacher keeps its key and name; an email without "@school.com" stays as it is |
| OrmQueries.DeleteQueries | src/activities/database2_wk8/queries.py:172-193 | removes the first "John Smith" teacher and the first (student 1, course 1) enrollment, each if present; the other tables are unchanged |
| OrmQueries.DeleteQueriesAtMostOne | src/activities/database2_wk8/queries.py:179-193 | each delete removes at most one object, only a matching one, none when nothing matches; the rest stay |
| ParalympicClasses.ParalympicEvent.constructor | src/activities/classes_wk5/classes_python.py:21-25 | name, sport and classification as given, and no athletes |
| ParalympicClasses.ParalympicEvent.DescribeAthletes | src/activities/classes_wk5/classes_python.py:30 | the line starts with the label "Athletes competing: ", is the label alone with no athletes, and after the label splits back into the registered names when there is at least one and none holds a comma |
| ParalympicClasses.ParalympicEvent.RegisterAthlete | src/activities/classes_wk5/classes_python.py:32-38 | the name goes at the end, earlier entries stay in order, duplicates are allowed, and the other fields are unchanged |
| ParalympicClasses.AthletesLineRegister | src/activities/classes_wk5/classes_python.py:30 | registering one more athlete extends the line by ", " and the name, or by the name alone for the first |
| ParalympicClasses.AthletesLineLists | src/activities/classes_wk5/classes_python.py:30 | the line lists the names in registration order: with at least one name and no ',' in any name, splitting after the label gives the list back |
| ParalympicClasses.AthleteStringFields | src/activities/classes_wk5/classes_python.py:76-82 | `__str__` is the four fields, in order, with a single space between each two, for any fields; when no field contains a space, splitting it at spaces gives the four fields back |
| ParalympicClasses.RunnerInherits | src/activities/classes_wk5/classes_python.py:84-107 | a Runner's inherited `__str__` is its own four athlete fields, in order, separated by single spaces, without the distance, for any fields; when no field contains a space, it splits back into those four |
| ParalympicClasses.DateReprFields | src/activities/classes_wk5/classes_python.py:53 | the year, month and day read back from a date's repr |
| ParalympicClasses.MedalReprs | src/activities/classes_wk5/classes_python.py:119-125 | the medal reprs, one per medal, in order |
| ParalympicClasses.MedalsReprAppend | src/activities/classes_wk5/classes_python.py:111-125 | no medals render as "[]", and one more medal adds its repr last, keeping the given order |
| ParalympicClasses.AthleteWithMedalsFields | src/activities/classes_wk5/classes_python.py:119-125 | `__str__` is the four fields, each followed by a space, then the repr of the medals list, for any fields; when no field contains a space, splitting it gives the four fields first and then the medals repr |
| EventPreparation.DropColumns | src/activities/pandas_wk2/solutions_pandas.py:126-127 | `drop(columns=...)` succeeds exactly when every named label exists, and keeps every row |
| EventPreparation.DropKeepsLabels | src/activities/pandas_wk2/solutions_pandas.py:126-127 | the labels after a drop are exactly those not named |
| EventPreparation.DropKeepsOrder | src/activities/pandas_wk2/solutions_pandas.py:126-127 | the kept columns keep their order, and each row keeps its cell under each kept column |
| EventPreparation.NormaliseType | src/activities/pandas_wk2/solutions_pandas.py:139-142 | the two `type` assignments succeed exactly when `type` exists; the labels and the row count are unchanged |
| EventPreparation.TypeNormalised | src/activities/pandas_wk2/solutions_pandas.py:139-142 | only a cell exactly "Summer" is lowercased; every string is then stripped, a non-string becomes missing, and other columns are untouched |
| EventPreparation.SummerBeforeStrip | src/activities/pandas_wk2/solutions_pandas.py:139-142 | the fix precedes the strip: " Summer " ends as "Summer"; "Summer" and "summer " end as "summer" |
| EventPreparation.AddDuration | src/activities/pandas_wk2/solutions_pandas.py:165-166 | succeeds exactly when `start` and `end` exist and `duration` does not; `duration` is inserted just after `end` |
| EventPreparation.DurationAfterEnd | src/activities/pandas_wk2/solutions_pandas.py:165-166 | `duration` sits right after `end`, holds the days from start to end in each row, and every old cell is kept |
| EventPreparation.InsertedColumn | src/activities/pandas_wk2/solutions_pandas.py:166 | the inserted label is found at the insertion position, and the label before it one earlier |
| EventPreparation.RenameCountries | src/activities/pandas_wk2/solutions_pandas.py:179 | the replacement succeeds exactly when `country` exists; the labels and rows are kept |
| EventPreparation.CountryRenaming | src/activities/pandas_wk2/solutions_pandas.py:172-179 | only the five listed names change, each to its replacement; all other values and columns are unchanged |
| EventPreparation.RenameOnce | src/activities/pandas_wk2/solutions_pandas.py:172-179 | the replacement does not chain: renaming twice equals renaming once |
| EventPreparation.LeftMerge | src/activities/pandas_wk2/solutions_pandas.py:183 | the merge appends `Code` and `Name` and loses no row; it is refused without `country`, or when `Code` or `Name` exists |
| EventPreparation.MergeKeepsRows | src/activities/pandas_wk2/solutions_pandas.py:183-185 | every output row extends an event row, every event row is extended, and an unmatched row gets a missing code and name |
| EventPreparation.MergeOneToOne | src/activities/pandas_wk2/solutions_pandas.py:183 | when each country matches at most one code, output row i is event row i with its code (missing when unmatched) |
| EventPreparation.DistinctNamesMatchOnce | src/activities/pandas_wk2/solutions_pandas.py:182-183 | a codes table with distinct names matches each country at most once |
| EventPreparation.DropLastColumn | src/activities/pandas_wk2/solutions_pandas.py:188 | dropping `Name`, the last column, keeps every other label in order and drops each row's last cell |
| EventPreparation.CleanSteps | src/activities/pandas_wk2/solutions_pandas.py:125-160 | cleaning keeps the frame well formed and keeps every row |
| EventPreparation.CleanStepsColumns | src/activities/pandas_wk2/solutions_pandas.py:125-160 | cleaning succeeds exactly when the dropped columns, `type` and the dtype columns exist; it then keeps all but the dropped columns |
| EventPreparation.EnrichedSucceeds | src/activities/pandas_wk2/solutions_pandas.py:163-188 | the second half succeeds exactly when `start`, `end` and `country` exist and `duration`, `Code` and `Name` do not |
| EventPreparation.PrepareStepsSucceed | src/activities/pandas_wk2/solutions_pandas.py:125-188 | the pipeline succeeds exactly when every looked-up column exists and no created column does |
| EventPreparation.PrepareSucceedsIff | src/activities/pandas_wk2/solutions_pandas.py:109-197 | that condition, for the source's own column lists |
| EventPreparation.PrepareStepsLayout | src/activities/pandas_wk2/solutions_pandas.py:125-188 | the dropped columns and `Name` are gone, `duration` follows `end`, `Code` is last, and no row is lost |
| EventPreparation.PrepareLayout | src/activities/pandas_wk2/solutions_pandas.py:109-197 | that layout, for the source's own column lists |
| EventPreparation.PrepareStepsKeeps | src/activities/pandas_wk2/solutions_pandas.py:147-160 | every column the cleaning looks up survives to the result |
| EventPreparation.PrepareKeeps | src/activities/pandas_wk2/solutions_pandas.py:147-160 | the prepared table still has the integer, date and string columns |
| EventPreparation.ConvertColumns | src/activities/pandas_wk2/solutions_pandas.py:147-149 | the conversion loop looks up each listed column; the first missing one raises a KeyError |
| EventPreparation.PrepareEventData | src/activities/pandas_wk2/solutions_pandas.py:109-197 | the step-by-step method computes the pipeline the lemmas above describe |
| EventDemonstration.CellLeTotal | src/activities/pandas_wk2/solutions_pandas.py:231 | the order `sort_values` uses within a column is total |
| EventDemonstration.CellLeTrans | src/activities/pandas_wk2/solutions_pandas.py:231 | that order is transitive |
| EventDemonstration.Insert | src/activities/pandas_wk2/solutions_pandas.py:243 | inserting a row adds exactly that row, keeping the multiset of the others |
| EventDemonstration.SortOn | src/activities/pandas_wk2/solutions_pandas.py:243 | sorting is a permutation of the rows |
| EventDemonstration.SortOnSorted | src/activities/pandas_wk2/solutions_pandas.py:243 | sorting orders the rows on the chosen column |
| EventDemonstration.Demonstrate.Where | src/activities/pandas_wk2/solutions_pandas.py:231 | `where` succeeds exactly when `host` and `country` exist, giving those two columns |
| EventDemonstration.Demonstrate.WhenEvents | src/activities/pandas_wk2/solutions_pandas.py:242-243 | `when_events` succeeds exactly when its four columns exist, giving those four |
| EventDemonstration.WhereDistinctSorted | src/activities/pandas_wk2/solutions_pandas.py:231 | the pairs are sorted by country, each occurs once, and they are exactly the table's (host, country) pairs |
| EventDemonstration.WhenEventsSorted | src/activities/pandas_wk2/solutions_pandas.py:242-243 | every event row appears once, as (start, end, host, year), sorted by start |
| EventDemonstration.PreparedAnswers | src/activities/pandas_wk2/solutions_pandas.py:203-244 | a prepared table has every column both selections need |

## Left out

- Printing, plotting and file output. `describe`, `explore_event_data`, `change_over_time`, the
  histograms and the timeseries plots only print or draw. So do `example_select_queries`,
  `select_students`, `select_student` and `select_queries`. `describe` is kept only for its
  athletes line: that line is computed, not printed.
- File and library input. Reading the CSV, Excel and npc-codes files, `to_csv`
  (step 2.16), `create_unnormalised_db`, and the engine and session setup are not part of
  this model. The CSV rows and the codes table are parameters.
- Closing connections and cursors has no effect on the modelled state.
- The `Int64` and `string` conversions and the date conversion (step 2.13). These become
  column lookups that raise KeyError like the source's; the values are unchanged.
  `ConvertColumns` and `PrepareEventData` model only that lookup.
- Date parsing. `start` and `end` are day numbers, so a difference of dates is an integer
  day count. A missing start or end gives a missing duration, as pandas' NaT does.
- EventPreparation.ConvertColumns: the dates are not parsed. A `start` or `end` string that
  is not a day/month/year date makes `pd.to_datetime` raise
  (src/activities/pandas_wk2/solutions_pandas.py:153-154). The model does not raise there,
  and such a cell later gives a missing duration.
- The "Address missing values" part of step 2.12 only prints rows and changes nothing.
- EventPreparation.StripCell: `.str.strip()` on a non-string cell becomes missing, as
  pandas does. Other pandas dtype behaviours are not modelled.
- EventPreparation.LeftMerge: when the event table already has a `Code` or `Name` column,
  pandas would add suffixes. The model refuses that case instead.
- EventPreparation.LeftMerge: keys are matched by cell equality, so a missing country
  matches a missing name. pandas' merge pairs missing keys in the same way, so the two
  agree.
- EventDemonstration.SortOn: it is a stable insertion sort. pandas' default sort is not
  stable, so the model claims only that the result is sorted and is a permutation.
- EventDemonstration.CellLeTotal: cells of different kinds are ranked (numbers, then
  dates, then strings, missing last). pandas would raise a TypeError comparing a string
  with a number.
- EventDemonstration.Demonstrate.Where: the printed column order (country before host)
  is not modelled. The result keeps the selected (host, country) order.
- Exception texts. A `Failure` carries a short text, not pandas' or SQLite's exact
  message.
- RawSqlIngest.SelectId: when a subquery matches several rows, SQLite's choice is left
  open. The model takes the first row in insertion order.
- RawSqlIngest.LikeSqlitePrefix: the model follows the code's `NOT LIKE 'sqlite_%'`.
  This skips more names than "starts with sqlite_": the match is ASCII case-insensitive
  and `_` matches any character.
- RawSqlIngest.SqliteDb.UserTableNames: the catalogue query returns tables in an order
  SQLite chooses. The model fixes the set and distinctness, not the order.
- RawSqlIngest.SqliteDb.DeleteAll: the name check is the tokenizer's identifier rule
  and ASCII case folding only. A reserved keyword passes it, but SQLite would report a
  syntax error. A schema-qualified name (`main.student`) is refused, but SQLite would
  accept it. A name followed by more SQL (`student WHERE ...`) is refused, but SQLite
  would run that text.
- RawSqlIngest.DeleteRows: each target name has the limits of
  RawSqlIngest.SqliteDb.DeleteAll above.
- RawSqlIngest.SqliteDb.Insert: the table name must match exactly. `insert_data` uses only
  its four lower-case literal names, so a table created as, say, "Student" would be found
  by SQLite but not by the model.
- RawSqlIngest.SqliteDb.Insert: only the enrollment table's three foreign keys are
  checked. The schema's other constraints (NOT NULL, UNIQUE, types) are not part of
  this model.
- RawSqlIngest.SqliteDb: the statement journal is ghost. It records the order of
  statements for the proofs, so its contracts are not executable.
- OrmQueries: the relationship mechanics (`back_populates`, cascades, lazy loading,
  identity map) are not modelled. Foreign keys are stored as optional ids, and a NULL id
  is accepted.
- OrmQueries.AddAll: keys come from SQLite's rule, one more than the largest key in
  the table.
- OrmQueries.AddTeacherData: the extra database columns that `Teacher(**row.to_dict())`
  leaves empty are not modelled.
- OrmQueries.UpdateQueries: the two reads that print the course and teachers are left
  out. When no "Mathematics" course exists the source raises on `None` before any
  commit, so nothing changes.
- OrmQueries.DeleteQueries: each delete commits on its own. Both are modelled as
  applied together, because neither can fail.
- Text.StrRepr: the non-printable set is the Cc, Cf, Co, Zl and Zp characters and the
  Zs characters other than the space, as of Unicode 15. Unassigned code points (Cn), which
  Python also escapes, pass through unescaped. Surrogates (Cs) are not `char` values, so
  they cannot occur. A Python built on a newer Unicode version may escape more characters.
- ParalympicClasses.AthleteWithMedals: `__init__` stores the caller's list itself
  (src/activities/classes_wk5/classes_python.py:117). A later change to that list shows in
  the athlete's medals. The model is a value record and does not capture that aliasing.
- ParalympicClasses.Date: any three natural numbers. `datetime.date` refuses a month or
  day out of range, and the model has no such check.
- ParalympicClasses.AthleteStringFields: the split round trip is proved only for fields
  without spaces. A space inside a field, as in a first name "Sungjoon Jung", cannot be
  told apart from a separator. The rendering itself is stated for all fields.
- ParalympicClasses.RunnerInherits: the split round trip has the same space-free
  condition as AthleteStringFields. The rendering is stated for all fields.
- ParalympicClasses.AthleteWithMedalsFields: splitting the rendering recovers the four
  fields only when none contains a space. The rendering is stated for all fields.
- StudentData.CsvRow: every cell is a string, so no cell is ever missing. `pd.read_csv`
  would read an empty field as NaN, which `drop_duplicates` treats as equal to NaN.
  SQLite stores it as NULL, and an `= ?` or ORM equality lookup never matches it. None of
  this is modelled: an empty cell here is "" and matches a stored "".
- Concurrency and other connections to the same database file are not modelled.
