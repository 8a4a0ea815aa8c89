/** The cleaning of the Paralympic events table (`prepare_event_data`). A dataframe is a
    list of column names and a list of rows of cells; dates are day numbers, so the
    difference of two dates is an integer number of days. */
module EventPreparation {
  import opened Wrappers
  import opened Collections
  import opened Text

  /** One cell of a dataframe: missing (NaN, NaT or NA), a string, an integer or a date. */
  datatype Cell = Missing | Str(s: string) | Num(n: int) | Day(d: int)

  type Row = seq<Cell>

  datatype Frame = Frame(columns: seq<string>, rows: seq<Row>)

  predicate Distinct<T(==)>(s: seq<T>)
  {
    forall i, j :: 0 <= i < j < |s| ==> s[i] != s[j]
  }

  /** What every dataframe satisfies: distinct column labels and one cell per column in
      every row. */
  predicate WellFormed(f: Frame)
  {
    Distinct(f.columns) && forall i :: 0 <= i < |f.rows| ==> |f.rows[i]| == |f.columns|
  }

  /** The cell of row `i` under the column labelled `name`. */
  function At(f: Frame, i: nat, name: string): Cell
    requires WellFormed(f) && i < |f.rows| && name in f.columns
  {
    f.rows[i][IndexOf(f.columns, name)]
  }

  lemma IndexOfDistinct<T>(s: seq<T>, p: nat)
    requires Distinct(s) && p < |s|
    ensures IndexOf(s, s[p]) == p
  {
  }

  /** The row with the cell of column `c` replaced by `g` of it. */
  function MapColumn(f: Frame, c: nat, g: Cell -> Cell): (r: Frame)
    requires WellFormed(f) && c < |f.columns|
    ensures WellFormed(r) && r.columns == f.columns && |r.rows| == |f.rows|
    ensures forall i, k :: 0 <= i < |f.rows| && 0 <= k < |f.columns| ==>
      r.rows[i][k] == if k == c then g(f.rows[i][c]) else f.rows[i][k]
  {
    Frame(f.columns, seq(|f.rows|, i requires 0 <= i < |f.rows| => f.rows[i][c := g(f.rows[i][c])]))
  }

  /** Every label in `names` is one of `cols`. */
  predicate HasAll(cols: seq<string>, names: seq<string>)
  {
    forall n :: n in names ==> n in cols
  }

  /** Two column lists that agree on the labels in `names` hold all of them alike. */
  lemma HasAllTransfer(cols: seq<string>, cols': seq<string>, names: seq<string>)
    requires forall n :: n in names ==> (n in cols <==> n in cols')
    ensures HasAll(cols, names) <==> HasAll(cols', names)
  {
  }

  /** Success with `f` itself when every label in `names` is a column of `f`; otherwise the
      KeyError for the first one that is not. */
  function RequireColumns(f: Frame, names: seq<string>): (r: Result<Frame>)
    ensures r.Success? <==> HasAll(f.columns, names)
    ensures r.Success? ==> r.value == f
  {
    if |names| == 0 then Success(f)
    else if names[0] !in f.columns then Failure("KeyError: '" + names[0] + "'")
    else RequireColumns(f, names[1..])
  }

  // ---------------------------------------------------------------- step 2.11: drop columns

  /** Positions of the columns whose labels are not in `names`, in increasing order. */
  function KeptPositions(cols: seq<string>, names: seq<string>): (ks: seq<nat>)
    ensures forall k :: 0 <= k < |ks| ==> ks[k] < |cols| && cols[ks[k]] !in names
    ensures forall k, l :: 0 <= k < l < |ks| ==> ks[k] < ks[l]
    ensures forall p :: 0 <= p < |cols| && cols[p] !in names ==> p in ks
  {
    if |cols| == 0 then []
    else
      var ks := KeptPositions(cols[..|cols| - 1], names);
      if cols[|cols| - 1] in names then ks else ks + [|cols| - 1]
  }

  /** The elements of `row` at the positions `ks`. */
  function Pick<T>(row: seq<T>, ks: seq<nat>): (r: seq<T>)
    requires forall k :: 0 <= k < |ks| ==> ks[k] < |row|
    ensures |r| == |ks| && forall k :: 0 <= k < |ks| ==> r[k] == row[ks[k]]
  {
    seq(|ks|, k requires 0 <= k < |ks| => row[ks[k]])
  }

  /** Strictly increasing positions, each below `n`. */
  predicate Positions(ks: seq<nat>, n: nat)
  {
    (forall k :: 0 <= k < |ks| ==> ks[k] < n) && forall k, l :: 0 <= k < l < |ks| ==> ks[k] < ks[l]
  }

  /** The columns of `f` at the positions `ks`, in that order. */
  function Select(f: Frame, ks: seq<nat>): (r: Frame)
    requires WellFormed(f) && Positions(ks, |f.columns|)
    ensures WellFormed(r) && |r.rows| == |f.rows| && |r.columns| == |ks|
  {
    var g := Frame(Pick(f.columns, ks), seq(|f.rows|, i requires 0 <= i < |f.rows| => Pick(f.rows[i], ks)));
    assert Distinct(g.columns) by {
      forall k, l | 0 <= k < l < |ks| ensures g.columns[k] != g.columns[l] {
        assert ks[k] < ks[l];
      }
    }
    g
  }

  /** A selection keeps the column order of `f`, and under each selected column every row
      keeps its cell. */
  lemma SelectKeepsCells(f: Frame, ks: seq<nat>)
    requires WellFormed(f) && Positions(ks, |f.columns|)
    ensures var g := Select(f, ks);
      (forall k :: 0 <= k < |ks| ==> g.columns[k] == f.columns[ks[k]] && IndexOf(f.columns, g.columns[k]) == ks[k]) &&
      (forall i, c :: 0 <= i < |g.rows| && c in g.columns ==> At(g, i, c) == At(f, i, c))
  {
    var g := Select(f, ks);
    forall k | 0 <= k < |ks| ensures g.columns[k] == f.columns[ks[k]] && IndexOf(f.columns, g.columns[k]) == ks[k] {
      IndexOfDistinct(f.columns, ks[k]);
    }
    forall i, c | 0 <= i < |g.rows| && c in g.columns ensures At(g, i, c) == At(f, i, c) {
      var k := IndexOf(g.columns, c);
      assert g.rows[i] == Pick(f.rows[i], ks);
      assert g.rows[i][k] == f.rows[i][ks[k]];
    }
  }

  /** `df.drop(columns=names)`: a KeyError unless every label is a column; otherwise the
      frame without those columns. */
  function DropColumns(f: Frame, names: seq<string>): (r: Result<Frame>)
    requires WellFormed(f)
    ensures r.Success? <==> HasAll(f.columns, names)
    ensures r.Success? ==> WellFormed(r.value) && |r.value.rows| == |f.rows|
  {
    if exists n :: n in names && n !in f.columns then Failure("KeyError: not found in axis")
    else Success(Select(f, KeptPositions(f.columns, names)))
  }

  /** The labels left after a drop are exactly those not named. */
  lemma DropKeepsLabels(f: Frame, names: seq<string>)
    requires WellFormed(f) && DropColumns(f, names).Success?
    ensures forall c :: c in DropColumns(f, names).value.columns <==> c in f.columns && c !in names
  {
    DropKeepsOrder(f, names);
  }

  /** Dropping keeps exactly the columns not named, in their original order, and under each
      kept column every row keeps its cell. */
  lemma DropKeepsOrder(f: Frame, names: seq<string>)
    requires WellFormed(f) && DropColumns(f, names).Success?
    ensures var g := DropColumns(f, names).value;
      (forall c :: c in g.columns <==> c in f.columns && c !in names) &&
      (forall k, l :: 0 <= k < l < |g.columns| ==> IndexOf(f.columns, g.columns[k]) < IndexOf(f.columns, g.columns[l])) &&
      (forall i, c :: 0 <= i < |g.rows| && c in g.columns ==> At(g, i, c) == At(f, i, c))
  {
    var ks := KeptPositions(f.columns, names);
    var g := Select(f, ks);
    assert DropColumns(f, names).value == g;
    SelectKeepsCells(f, ks);
    forall c | c in f.columns && c !in names ensures c in g.columns {
      var p := IndexOf(f.columns, c);
      var k :| 0 <= k < |ks| && ks[k] == p;
      assert g.columns[k] == c;
    }
  }

  /** When no label of `cols` is in `names`, every position is kept. */
  lemma {:induction false} KeptAll(cols: seq<string>, names: seq<string>)
    requires forall k :: 0 <= k < |cols| ==> cols[k] !in names
    ensures KeptPositions(cols, names) == seq(|cols|, k => k)
  {
    if |cols| > 0 {
      KeptAll(cols[..|cols| - 1], names);
    }
  }

  // ---------------------------------------------------------------- step 2.12: the event type

  /** The loc assignment: a cell equal to "Summer" becomes "summer"; any other cell stays. */
  function FixSummer(v: Cell): Cell
  {
    if v == Str("Summer") then Str("summer") else v
  }

  /** `.str.strip()`: a string loses its leading and trailing whitespace, and a cell that
      holds no string becomes missing. */
  function StripCell(v: Cell): Cell
  {
    if v.Str? then Str(Strip(v.s)) else Missing
  }

  /** The two assignments to the `type` column, in the order the source makes them. */
  function NormaliseType(f: Frame): (r: Result<Frame>)
    requires WellFormed(f)
    ensures r.Success? <==> "type" in f.columns
    ensures r.Success? ==> WellFormed(r.value) && r.value.columns == f.columns && |r.value.rows| == |f.rows|
  {
    var c := IndexOf(f.columns, "type");
    if c == |f.columns| then Failure("KeyError: 'type'")
    else Success(MapColumn(MapColumn(f, c, FixSummer), c, StripCell))
  }

  /** The `type` cell of one row after normalisation: only a cell exactly "Summer" is
      lowercased, every other string is only stripped, a non-string is missing, and the
      result has no leading or trailing whitespace. */
  predicate TypeFixed(before: Cell, after: Cell)
  {
    (after == if before == Str("Summer") then Str("summer")
              else if before.Str? then Str(Strip(before.s)) else Missing) &&
    (after.Str? && |after.s| > 0 ==> !IsSpace(after.s[0]) && !IsSpace(after.s[|after.s| - 1]))
  }

  lemma TypeFixedCell(before: Cell)
    ensures TypeFixed(before, StripCell(FixSummer(before)))
  {
    if before == Str("Summer") {
      LowerSummerStripped();
    } else if before.Str? {
      StripSpec(before.s);
    }
  }

  lemma LowerSummerStripped()
    ensures Strip("summer") == "summer"
  {
    assert !IsSpace("summer"[0]) && !IsSpace("summer"[5]);
    TrimStartKeeps("summer");
    TrimEndKeeps("summer");
  }

  /** The cells of a frame after MapColumn, by label. */
  lemma MapColumnAt(f: Frame, c: nat, g: Cell -> Cell, i: nat, name: string)
    requires WellFormed(f) && c < |f.columns| && i < |f.rows| && name in f.columns
    ensures At(MapColumn(f, c, g), i, name) == if name == f.columns[c] then g(At(f, i, name)) else At(f, i, name)
  {
    IndexOfDistinct(f.columns, c);
  }

  /** Normalisation fixes every row's `type` cell as TypeFixed says and leaves every other
      column untouched. */
  lemma TypeNormalised(f: Frame)
    requires WellFormed(f) && "type" in f.columns
    ensures var g := NormaliseType(f).value;
      (forall i :: 0 <= i < |f.rows| ==> TypeFixed(At(f, i, "type"), At(g, i, "type"))) &&
      (forall i, c :: 0 <= i < |f.rows| && c in f.columns && c != "type" ==> At(g, i, c) == At(f, i, c))
  {
    var t := IndexOf(f.columns, "type");
    var g1 := MapColumn(f, t, FixSummer);
    var g := MapColumn(g1, t, StripCell);
    assert NormaliseType(f).value == g;
    forall i | 0 <= i < |f.rows| ensures TypeFixed(At(f, i, "type"), At(g, i, "type")) {
      MapColumnAt(f, t, FixSummer, i, "type");
      MapColumnAt(g1, t, StripCell, i, "type");
      TypeFixedCell(At(f, i, "type"));
    }
    forall i, c | 0 <= i < |f.rows| && c in f.columns && c != "type" ensures At(g, i, c) == At(f, i, c) {
      MapColumnAt(f, t, FixSummer, i, c);
      MapColumnAt(g1, t, StripCell, i, c);
    }
  }

  /** The case fix runs before the strip: " Summer " keeps its capital, "Summer" and
      "summer " end as "summer". */
  lemma SummerBeforeStrip()
    ensures StripCell(FixSummer(Str(" Summer "))) == Str("Summer")
    ensures StripCell(FixSummer(Str("Summer"))) == Str("summer")
    ensures StripCell(FixSummer(Str("summer "))) == Str("summer")
  {
    assert |" Summer "| != |"Summer"| && |"summer "| != |"Summer"|;
    assert " " + "Summer" + " " == " Summer ";
    assert "summer" + " " == "summer ";
    PaddedStripped("Summer");
    LowerSummerStripped();
    TrailingStripped("summer");
  }

  /** Stripping a word with one space on either side gives the word. */
  lemma PaddedStripped(w: string)
    requires |w| > 0 && !IsSpace(w[0]) && !IsSpace(w[|w| - 1])
    ensures Strip(" " + w + " ") == w
  {
    assert " " + w + " " == " " + (w + " ");
    TrimStartOneSpace(w + " ");
    TrimEndOneSpace(w);
  }

  /** Stripping a word with one trailing space gives the word. */
  lemma TrailingStripped(w: string)
    requires |w| > 0 && !IsSpace(w[0]) && !IsSpace(w[|w| - 1])
    ensures Strip(w + " ") == w
  {
    TrimStartKeeps(w + " ");
    TrimEndOneSpace(w);
  }

  // ---------------------------------------------------------------- step 2.14: duration

  /** `(end - start).dt.days`: the number of days from start to end when both are dates,
      missing otherwise. */
  function DaysBetween(start: Cell, end: Cell): Cell
  {
    if start.Day? && end.Day? then Num(end.d - start.d) else Missing
  }

  /** `s` with `x` inserted at position `p`. */
  function InsertAt<T>(s: seq<T>, p: nat, x: T): (r: seq<T>)
    requires p <= |s|
    ensures |r| == |s| + 1 && r[p] == x
  {
    s[..p] + [x] + s[p..]
  }

  /** Where the elements of `s` sit after the insertion. */
  lemma InsertAtIndex<T>(s: seq<T>, p: nat, x: T, k: nat)
    requires p <= |s| && k <= |s|
    ensures InsertAt(s, p, x)[k] == if k < p then s[k] else if k == p then x else s[k - 1]
  {
  }

  /** Inserting a new label into distinct labels keeps them distinct. */
  lemma InsertDistinct<T>(s: seq<T>, p: nat, x: T)
    requires p <= |s| && Distinct(s) && x !in s
    ensures Distinct(InsertAt(s, p, x))
  {
    var g := InsertAt(s, p, x);
    forall k, l | 0 <= k < l < |g| ensures g[k] != g[l] {
      InsertAtIndex(s, p, x, k);
      InsertAtIndex(s, p, x, l);
    }
  }

  /** Computing the durations (a KeyError without `end` or `start`) and inserting them as a
      new column just after `end` (a ValueError when `duration` already exists). */
  function AddDuration(f: Frame): (r: Result<Frame>)
    requires WellFormed(f)
    ensures r.Success? <==> "start" in f.columns && "end" in f.columns && "duration" !in f.columns
    ensures r.Success? ==> WellFormed(r.value) && |r.value.rows| == |f.rows|
    ensures r.Success? ==> r.value.columns == InsertAt(f.columns, IndexOf(f.columns, "end") + 1, "duration")
  {
    var s, e := IndexOf(f.columns, "start"), IndexOf(f.columns, "end");
    if e == |f.columns| then Failure("KeyError: 'end'")
    else if s == |f.columns| then Failure("KeyError: 'start'")
    else if "duration" in f.columns then Failure("ValueError: cannot insert duration, already exists")
    else Success(WithDuration(f, s, e))
  }

  /** The frame with the durations from column `s` to column `e` inserted after `e`. */
  function WithDuration(f: Frame, s: nat, e: nat): (g: Frame)
    requires WellFormed(f) && s < |f.columns| && e < |f.columns| && "duration" !in f.columns
    ensures WellFormed(g) && |g.rows| == |f.rows| && g.columns == InsertAt(f.columns, e + 1, "duration")
    ensures forall i :: 0 <= i < |f.rows| ==>
      g.rows[i] == InsertAt(f.rows[i], e + 1, DaysBetween(f.rows[i][s], f.rows[i][e]))
  {
    var g := Frame(InsertAt(f.columns, e + 1, "duration"),
                   seq(|f.rows|, i requires 0 <= i < |f.rows| =>
                     InsertAt(f.rows[i], e + 1, DaysBetween(f.rows[i][s], f.rows[i][e]))));
    InsertDistinct(f.columns, e + 1, "duration");
    g
  }

  /** One cell of a frame with a column inserted: the new column holds the inserted cell and
      every old column keeps its cell. */
  lemma InsertedCell(f: Frame, g: Frame, p: nat, name: string, i: nat, x: Cell, c: string)
    requires WellFormed(f) && WellFormed(g) && p <= |f.columns| && i < |f.rows| && i < |g.rows|
    requires g.columns == InsertAt(f.columns, p, name) && g.rows[i] == InsertAt(f.rows[i], p, x)
    requires c in f.columns || c == name
    ensures c in g.columns && At(g, i, c) == if c == name then x else At(f, i, c)
  {
    if c == name {
      IndexOfDistinct(g.columns, p);
    } else {
      var k := IndexOf(f.columns, c);
      var q := if k < p then k else k + 1;
      InsertAtIndex(f.columns, p, name, q);
      InsertAtIndex(f.rows[i], p, x, q);
      IndexOfDistinct(g.columns, q);
    }
  }

  /** `duration` sits immediately after `end`, every row's duration is the number of days
      from its start to its end, and every earlier column keeps its cells. */
  lemma DurationAfterEnd(f: Frame)
    requires WellFormed(f) && "start" in f.columns && "end" in f.columns && "duration" !in f.columns
    ensures var g := AddDuration(f).value;
      IndexOf(g.columns, "duration") == IndexOf(g.columns, "end") + 1 &&
      (forall i :: 0 <= i < |g.rows| ==> At(g, i, "duration") == DaysBetween(At(f, i, "start"), At(f, i, "end"))) &&
      (forall i, c :: 0 <= i < |g.rows| && c in f.columns ==> At(g, i, c) == At(f, i, c))
  {
    var s, e := IndexOf(f.columns, "start"), IndexOf(f.columns, "end");
    var g := WithDuration(f, s, e);
    assert AddDuration(f).value == g;
    forall i | 0 <= i < |g.rows| ensures At(g, i, "duration") == DaysBetween(At(f, i, "start"), At(f, i, "end")) {
      InsertedCell(f, g, e + 1, "duration", i, DaysBetween(f.rows[i][s], f.rows[i][e]), "duration");
    }
    forall i, c | 0 <= i < |g.rows| && c in f.columns ensures At(g, i, c) == At(f, i, c) {
      InsertedCell(f, g, e + 1, "duration", i, DaysBetween(f.rows[i][s], f.rows[i][e]), c);
    }
    InsertedColumn(f.columns, g.columns, e + 1, "duration");
  }

  /** The label inserted at `p` is found at `p`, and the label before it at `p - 1`. */
  lemma InsertedColumn(cols: seq<string>, g: seq<string>, p: nat, name: string)
    requires Distinct(g) && p <= |cols| && g == InsertAt(cols, p, name)
    ensures IndexOf(g, name) == p
    ensures p > 0 ==> IndexOf(g, cols[p - 1]) == p - 1
  {
    IndexOfDistinct(g, p);
    if p > 0 {
      InsertAtIndex(cols, p, name, p - 1);
      IndexOfDistinct(g, p - 1);
    }
  }

  // ---------------------------------------------------------------- step 2.15: country names

  /** The replacement names for the five countries whose names differ from the codes table. */
  const CountryNames: map<string, string> := map[
    "UK" := "Great Britain",
    "USA" := "United States of America",
    "Korea" := "Republic of Korea",
    "Russia" := "Russian Federation",
    "China" := "People's Republic of China"]

  /** `Series.replace` with that mapping: a whole-value match of a key is replaced. */
  function RenameCountry(v: Cell): Cell
  {
    if v.Str? && v.s in CountryNames then Str(CountryNames[v.s]) else v
  }

  function RenameCountries(f: Frame): (r: Result<Frame>)
    requires WellFormed(f)
    ensures r.Success? <==> "country" in f.columns
    ensures r.Success? ==> WellFormed(r.value) && r.value.columns == f.columns && |r.value.rows| == |f.rows|
  {
    var c := IndexOf(f.columns, "country");
    if c == |f.columns| then Failure("KeyError: 'country'")
    else Success(MapColumn(f, c, RenameCountry))
  }

  /** Only the five listed names change, each to its replacement; every other country value
      and every other column is unchanged. */
  lemma CountryRenaming(f: Frame)
    requires WellFormed(f) && "country" in f.columns
    ensures var g := RenameCountries(f).value;
      forall i :: 0 <= i < |f.rows| ==>
        (var before, after := At(f, i, "country"), At(g, i, "country");
         (before in [Str("UK"), Str("USA"), Str("Korea"), Str("Russia"), Str("China")] ==>
            after == Str(CountryNames[before.s])) &&
         (before !in [Str("UK"), Str("USA"), Str("Korea"), Str("Russia"), Str("China")] ==> after == before) &&
         forall c :: c in f.columns && c != "country" ==> At(g, i, c) == At(f, i, c))
  {
    var g := RenameCountries(f).value;
    assert CountryNames.Keys == {"UK", "USA", "Korea", "Russia", "China"};
    forall i, c | 0 <= i < |f.rows| && c in f.columns && c != "country" ensures At(g, i, c) == At(f, i, c) {
      assert IndexOf(f.columns, c) != IndexOf(f.columns, "country");
    }
  }

  /** The replacement is not chained: no new name is itself a key, so renaming twice is the
      same as renaming once. */
  lemma RenameOnce(v: Cell)
    ensures RenameCountry(RenameCountry(v)) == RenameCountry(v)
  {
    if v.Str? && v.s in CountryNames {
      assert v.s in {"UK", "USA", "Korea", "Russia", "China"};
      assert "Great Britain" !in CountryNames && "United States of America" !in CountryNames &&
        "Republic of Korea" !in CountryNames && "Russian Federation" !in CountryNames &&
        "People's Republic of China" !in CountryNames;
    }
  }

  // ---------------------------------------------------------------- step 2.15: merge with the codes

  /** One row of the codes table: the NPC code and the country name it stands for. */
  datatype NpcCode = NpcCode(code: Cell, name: Cell)

  /** The rows of `codes` whose name equals `key`, in table order. */
  function MatchesFor(key: Cell, codes: seq<NpcCode>): (ms: seq<NpcCode>)
    ensures forall m :: m in ms ==> m in codes && m.name == key
    ensures forall m :: m in codes && m.name == key ==> m in ms
  {
    if |codes| == 0 then []
    else (if codes[0].name == key then [codes[0]] else []) + MatchesFor(key, codes[1..])
  }

  /** The code of the first row of `codes` named `key`; missing when there is none. */
  function CodeFor(key: Cell, codes: seq<NpcCode>): Cell
  {
    if |codes| == 0 then Missing
    else if codes[0].name == key then codes[0].code
    else CodeFor(key, codes[1..])
  }

  lemma {:induction false} CodeForFirstMatch(key: Cell, codes: seq<NpcCode>)
    ensures |MatchesFor(key, codes)| == 0 ==> CodeFor(key, codes) == Missing
    ensures |MatchesFor(key, codes)| > 0 ==> CodeFor(key, codes) == MatchesFor(key, codes)[0].code
  {
    if |codes| > 0 {
      CodeForFirstMatch(key, codes[1..]);
    }
  }

  /** What a left merge makes of one event row: one row per matching code, or the row with
      a missing code and name when nothing matches. */
  function MergeRow(row: Row, key: Cell, codes: seq<NpcCode>): (out: seq<Row>)
    ensures |out| >= 1
    ensures forall k :: 0 <= k < |out| ==> |out[k]| == |row| + 2 && out[k][..|row|] == row
  {
    var ms := MatchesFor(key, codes);
    if |ms| == 0 then [row + [Missing, Missing]]
    else seq(|ms|, k requires 0 <= k < |ms| => row + [ms[k].code, ms[k].name])
  }

  /** The left merge of the event rows with the codes on column `c`, event rows in order. */
  function MergeRows(rows: seq<Row>, c: nat, w: nat, codes: seq<NpcCode>): (out: seq<Row>)
    requires c < w && forall i :: 0 <= i < |rows| ==> |rows[i]| == w
    ensures |out| >= |rows|
    ensures forall k :: 0 <= k < |out| ==> |out[k]| == w + 2
  {
    if |rows| == 0 then []
    else MergeRow(rows[0], rows[0][c], codes) + MergeRows(rows[1..], c, w, codes)
  }

  /** `df.merge(npc_df, how='left', left_on='country', right_on='Name')`. A frame that already
      has a `Code` or `Name` column would get suffixed labels; that case is refused here. */
  function LeftMerge(f: Frame, codes: seq<NpcCode>): (r: Result<Frame>)
    requires WellFormed(f)
    ensures r.Success? <==> "country" in f.columns && "Code" !in f.columns && "Name" !in f.columns
    ensures r.Success? ==> WellFormed(r.value) && r.value.columns == f.columns + ["Code", "Name"]
    ensures r.Success? ==> |r.value.rows| >= |f.rows|
  {
    var c := IndexOf(f.columns, "country");
    if c == |f.columns| then Failure("KeyError: 'country'")
    else if "Code" in f.columns || "Name" in f.columns then Failure("overlapping columns are suffixed")
    else
      var g := Frame(f.columns + ["Code", "Name"], MergeRows(f.rows, c, |f.columns|, codes));
      assert Distinct(g.columns) by {
        forall k, l | 0 <= k < l < |g.columns| ensures g.columns[k] != g.columns[l] {
          if l < |f.columns| { assert g.columns[k] == f.columns[k] && g.columns[l] == f.columns[l]; }
          else if k < |f.columns| { assert g.columns[k] in f.columns; }
        }
      }
      Success(g)
  }

  /** The merge keeps every event row: each output row extends an event row, each event row
      is extended by at least one output row, and an event row whose country matches no name
      is extended by a missing code and name. */
  lemma {:induction false} MergeKeepsRows(rows: seq<Row>, c: nat, w: nat, codes: seq<NpcCode>)
    requires c < w && forall i :: 0 <= i < |rows| ==> |rows[i]| == w
    ensures var out := MergeRows(rows, c, w, codes);
      (forall k :: 0 <= k < |out| ==> out[k][..w] in rows) &&
      (forall i :: 0 <= i < |rows| ==> exists k :: 0 <= k < |out| && out[k][..w] == rows[i]) &&
      (forall i :: 0 <= i < |rows| && |MatchesFor(rows[i][c], codes)| == 0 ==> rows[i] + [Missing, Missing] in out)
  {
    if |rows| > 0 {
      var rest := rows[1..];
      forall i | 0 <= i < |rest| ensures |rest[i]| == w {
        assert rest[i] == rows[i + 1];
      }
      MergeKeepsRows(rest, c, w, codes);
      var head := MergeRow(rows[0], rows[0][c], codes);
      var tail := MergeRows(rest, c, w, codes);
      assert MergeRows(rows, c, w, codes) == head + tail;
      KeepsRowsStep(rows, w, head, tail, head + tail);
      MissingRowsStep(rows, c, codes, head, tail);
    }
  }

  /** The merged rows of the first event row, followed by those of the rest, extend only
      event rows and extend each of them. */
  lemma KeepsRowsStep(rows: seq<Row>, w: nat, head: seq<Row>, tail: seq<Row>, out: seq<Row>)
    requires |rows| > 0 && |head| >= 1 && out == head + tail
    requires forall k :: 0 <= k < |head| ==> |head[k]| >= w && head[k][..w] == rows[0]
    requires forall k :: 0 <= k < |tail| ==> |tail[k]| >= w && tail[k][..w] in rows[1..]
    requires forall i :: 0 <= i < |rows[1..]| ==> exists k :: 0 <= k < |tail| && tail[k][..w] == rows[1..][i]
    ensures forall k :: 0 <= k < |out| ==> |out[k]| >= w && out[k][..w] in rows
    ensures forall i :: 0 <= i < |rows| ==> exists k :: 0 <= k < |out| && out[k][..w] == rows[i]
  {
    forall k | 0 <= k < |out| ensures |out[k]| >= w && out[k][..w] in rows {
      if k < |head| {
        assert out[k] == head[k];
      } else {
        assert out[k] == tail[k - |head|];
        var j :| 0 <= j < |rows[1..]| && rows[1..][j] == tail[k - |head|][..w];
        assert rows[j + 1] == out[k][..w];
      }
    }
    forall i | 0 <= i < |rows| ensures exists k :: 0 <= k < |out| && out[k][..w] == rows[i] {
      if i == 0 {
        assert out[0] == head[0];
        assert out[0][..w] == rows[i];
      } else {
        assert rows[i] == rows[1..][i - 1];
        var k :| 0 <= k < |tail| && tail[k][..w] == rows[1..][i - 1];
        assert out[|head| + k] == tail[k];
        assert out[|head| + k][..w] == rows[i];
      }
    }
  }

  /** An event row that matches nothing stays in the merged rows, with a missing code and name. */
  lemma MissingRowsStep(rows: seq<Row>, c: nat, codes: seq<NpcCode>, head: seq<Row>, tail: seq<Row>)
    requires |rows| > 0 && forall i :: 0 <= i < |rows| ==> c < |rows[i]|
    requires |MatchesFor(rows[0][c], codes)| == 0 ==> rows[0] + [Missing, Missing] in head
    requires forall i :: 0 <= i < |rows[1..]| && |MatchesFor(rows[1..][i][c], codes)| == 0 ==>
      rows[1..][i] + [Missing, Missing] in tail
    ensures forall i :: 0 <= i < |rows| && |MatchesFor(rows[i][c], codes)| == 0 ==>
      rows[i] + [Missing, Missing] in head + tail
  {
    forall i | 0 <= i < |rows| && |MatchesFor(rows[i][c], codes)| == 0 ensures rows[i] + [Missing, Missing] in head + tail {
      if i > 0 {
        assert rows[i] == rows[1..][i - 1];
      }
    }
  }

  /** When every event country matches at most one code, the merge is one-to-one: output row
      i is event row i extended by its code (missing when nothing matched) and a name. */
  lemma {:induction false} MergeOneToOne(rows: seq<Row>, c: nat, w: nat, codes: seq<NpcCode>)
    requires c < w && forall i :: 0 <= i < |rows| ==> |rows[i]| == w
    requires forall i :: 0 <= i < |rows| ==> |MatchesFor(rows[i][c], codes)| <= 1
    ensures var out := MergeRows(rows, c, w, codes);
      |out| == |rows| &&
      forall i :: 0 <= i < |rows| ==> out[i][..w] == rows[i] && out[i][w] == CodeFor(rows[i][c], codes)
  {
    if |rows| > 0 {
      var rest := rows[1..];
      forall i | 0 <= i < |rest| ensures |rest[i]| == w && |MatchesFor(rest[i][c], codes)| <= 1 {
        assert rest[i] == rows[i + 1];
      }
      MergeOneToOne(rest, c, w, codes);
      SingleMatchRow(rows[0], rows[0][c], codes);
      var head := MergeRow(rows[0], rows[0][c], codes);
      var tail := MergeRows(rest, c, w, codes);
      assert MergeRows(rows, c, w, codes) == head + tail;
      MergeOneToOneStep(rows, c, w, codes, head, tail);
    }
  }

  /** The one merged row of the first event row, followed by the merged rows of the rest,
      line up with the event rows. */
  lemma MergeOneToOneStep(rows: seq<Row>, c: nat, w: nat, codes: seq<NpcCode>, head: seq<Row>, tail: seq<Row>)
    requires |rows| > 0 && c < w && forall i :: 0 <= i < |rows| ==> |rows[i]| == w
    requires |head| == 1 && |head[0]| > w && head[0][..w] == rows[0] && head[0][w] == CodeFor(rows[0][c], codes)
    requires |tail| == |rows| - 1
    requires forall i :: 0 <= i < |tail| ==>
      |tail[i]| > w && tail[i][..w] == rows[1..][i] && tail[i][w] == CodeFor(rows[1..][i][c], codes)
    ensures var out := head + tail;
      |out| == |rows| &&
      forall i :: 0 <= i < |rows| ==> |out[i]| > w && out[i][..w] == rows[i] && out[i][w] == CodeFor(rows[i][c], codes)
  {
    var out := head + tail;
    forall i | 0 <= i < |rows| ensures |out[i]| > w && out[i][..w] == rows[i] && out[i][w] == CodeFor(rows[i][c], codes) {
      if i > 0 {
        assert out[i] == tail[i - 1];
        assert rows[i] == rows[1..][i - 1];
      }
    }
  }

  /** An event row whose key matches at most once gives exactly one merged row, carrying the
      first matching code. */
  lemma SingleMatchRow(row: Row, key: Cell, codes: seq<NpcCode>)
    requires |MatchesFor(key, codes)| <= 1
    ensures |MergeRow(row, key, codes)| == 1
    ensures MergeRow(row, key, codes)[0][..|row|] == row
    ensures MergeRow(row, key, codes)[0][|row|] == CodeFor(key, codes)
  {
    CodeForFirstMatch(key, codes);
  }

  /** Names that occur at most once in the codes table match at most once. */
  lemma {:induction false} DistinctNamesMatchOnce(key: Cell, codes: seq<NpcCode>)
    requires forall j, l :: 0 <= j < l < |codes| ==> codes[j].name != codes[l].name
    ensures |MatchesFor(key, codes)| <= 1
  {
    if |codes| > 0 {
      DistinctNamesMatchOnce(key, codes[1..]);
      if codes[0].name == key {
        assert forall l :: 0 <= l < |codes| - 1 ==> codes[1..][l].name != key;
        NoMatch(key, codes[1..]);
      }
    }
  }

  lemma {:induction false} NoMatch(key: Cell, codes: seq<NpcCode>)
    requires forall l :: 0 <= l < |codes| ==> codes[l].name != key
    ensures MatchesFor(key, codes) == []
  {
    if |codes| > 0 {
      NoMatch(key, codes[1..]);
    }
  }

  /** Dropping the last column succeeds and leaves the other labels, in order. */
  lemma DropLastShape(f: Frame, name: string)
    requires WellFormed(f) && |f.columns| > 0 && f.columns[|f.columns| - 1] == name
    ensures DropColumns(f, [name]).Success?
    ensures DropColumns(f, [name]).value.columns == f.columns[..|f.columns| - 1]
    ensures |DropColumns(f, [name]).value.rows| == |f.rows|
  {
    DropLastColumn(f, name);
  }

  /** Dropping the last column, when no other column has its label, leaves every row
      without its last cell. */
  lemma DropLastColumn(f: Frame, name: string)
    requires WellFormed(f) && |f.columns| > 0 && f.columns[|f.columns| - 1] == name
    ensures var n := |f.columns| - 1;
      DropColumns(f, [name]).Success? &&
      DropColumns(f, [name]).value.columns == f.columns[..n] &&
      |DropColumns(f, [name]).value.rows| == |f.rows| &&
      forall i :: 0 <= i < |f.rows| ==> DropColumns(f, [name]).value.rows[i] == f.rows[i][..n]
  {
    var n := |f.columns| - 1;
    KeptDropLast(f.columns, name);
    assert HasAll(f.columns, [name]);
    assert DropColumns(f, [name]).value == Select(f, seq(n, k => k));
    SelectPrefix(f, n);
  }

  /** Dropping the last label of distinct labels keeps every other position. */
  lemma KeptDropLast(cols: seq<string>, name: string)
    requires Distinct(cols) && |cols| > 0 && cols[|cols| - 1] == name
    ensures KeptPositions(cols, [name]) == seq(|cols| - 1, k => k)
  {
    var n := |cols| - 1;
    forall k | 0 <= k < n ensures cols[..n][k] !in [name] {
      assert cols[..n][k] == cols[k];
    }
    KeptAll(cols[..n], [name]);
  }

  /** Selecting the first `n` positions keeps the first `n` labels and cells. */
  lemma SelectPrefix(f: Frame, n: nat)
    requires WellFormed(f) && n <= |f.columns|
    ensures Positions(seq(n, k => k), |f.columns|)
    ensures var g := Select(f, seq(n, k => k));
      g.columns == f.columns[..n] && |g.rows| == |f.rows| &&
      forall i :: 0 <= i < |f.rows| ==> g.rows[i] == f.rows[i][..n]
  {
    var ks := seq(n, k => k);
    var g := Select(f, ks);
    assert g.columns == Pick(f.columns, ks);
    forall i | 0 <= i < |f.rows| ensures g.rows[i] == f.rows[i][..n] {
      assert g.rows[i] == Pick(f.rows[i], ks);
    }
  }

  // ---------------------------------------------------------------- the whole preparation

  const DroppedColumns: seq<string> := ["URL", "disabilities_included", "highlights"]
  const IntColumns: seq<string> := ["countries", "events", "participants_m", "participants_f", "participants", "sports", "year"]
  const DateColumns: seq<string> := ["start", "end"]
  const StringColumns: seq<string> := ["type", "country", "host"]

  /** No label the steps look up after the drop, or create, is one of the dropped ones. */
  lemma LookupsNotDropped()
    ensures forall c :: c in ["type"] + IntColumns + DateColumns + StringColumns ==> c !in DroppedColumns
    ensures forall c :: c in DroppedColumns ==> c != "duration" && c != "Code" && c != "Name"
    ensures "start" in DateColumns && "end" in DateColumns && "country" in StringColumns
    ensures "Name" != "duration" && "Name" != "Code"
  {
  }

  /** Steps 2.11 to 2.13 with the column lists as parameters: drop, fix `type`, and the
      dtype conversions, of which only the column lookups are modelled. */
  function CleanSteps(df: Frame, dropped: seq<string>, ints: seq<string>, dates: seq<string>, strs: seq<string>): (r: Result<Frame>)
    requires WellFormed(df)
    ensures r.Success? ==> WellFormed(r.value) && |r.value.rows| == |df.rows|
  {
    var d :- DropColumns(df, dropped);
    var t :- NormaliseType(d);
    var n :- RequireColumns(t, ints);
    var s :- RequireColumns(n, dates);
    RequireColumns(s, strs)
  }

  /** Cleaning succeeds exactly when the dropped and the looked-up columns all exist, and
      then it keeps every column but the dropped ones and every row. */
  lemma CleanStepsColumns(df: Frame, dropped: seq<string>, ints: seq<string>, dates: seq<string>, strs: seq<string>)
    requires WellFormed(df)
    requires forall c :: c in ["type"] + ints + dates + strs ==> c !in dropped
    ensures CleanSteps(df, dropped, ints, dates, strs).Success? <==>
      HasAll(df.columns, dropped) && "type" in df.columns &&
      HasAll(df.columns, ints) && HasAll(df.columns, dates) && HasAll(df.columns, strs)
    ensures CleanSteps(df, dropped, ints, dates, strs).Success? ==>
      CleanSteps(df, dropped, ints, dates, strs).value.columns == DropColumns(df, dropped).value.columns
  {
    var r := DropColumns(df, dropped);
    if r.Success? {
      DropKeepsOrder(df, dropped);
      var d := r.value;
      assert "type" in ["type"] + ints + dates + strs;
      HasAllTransfer(d.columns, df.columns, ints);
      HasAllTransfer(d.columns, df.columns, dates);
      HasAllTransfer(d.columns, df.columns, strs);
      var t := NormaliseType(d);
      if t.Success? {
        assert t.value.columns == d.columns;
      }
    }
  }

  /** Steps 2.14 and 2.15: add `duration`, rename countries, merge with the codes and drop
      `Name`. */
  function Enriched(x: Frame, codes: seq<NpcCode>): (r: Result<Frame>)
    requires WellFormed(x)
    ensures r.Success? ==> WellFormed(r.value)
  {
    var u :- AddDuration(x);
    var c :- RenameCountries(u);
    var m :- LeftMerge(c, codes);
    DropColumns(m, ["Name"])
  }

  /** `prepare_event_data` with the column lists as parameters. */
  function PrepareSteps(df: Frame, codes: seq<NpcCode>, dropped: seq<string>, ints: seq<string>,
                        dates: seq<string>, strs: seq<string>): (r: Result<Frame>)
    requires WellFormed(df)
    ensures r.Success? ==> WellFormed(r.value)
  {
    var x :- CleanSteps(df, dropped, ints, dates, strs);
    Enriched(x, codes)
  }

  /** `prepare_event_data` as one expression. */
  function PrepareSpec(df: Frame, codes: seq<NpcCode>): (r: Result<Frame>)
    requires WellFormed(df)
    ensures r.Success? ==> WellFormed(r.value)
  {
    PrepareSteps(df, codes, DroppedColumns, IntColumns, DateColumns, StringColumns)
  }

  /** The second half succeeds exactly when `start`, `end` and `country` exist and
      `duration`, `Code` and `Name` do not. */
  lemma EnrichedSucceeds(x: Frame, codes: seq<NpcCode>)
    requires WellFormed(x)
    ensures Enriched(x, codes).Success? <==>
      "start" in x.columns && "end" in x.columns && "country" in x.columns &&
      "duration" !in x.columns && "Code" !in x.columns && "Name" !in x.columns
  {
    var u := AddDuration(x);
    if u.Success? {
      var e := IndexOf(x.columns, "end");
      InsertedMember(x.columns, e + 1, "duration", "country");
      InsertedMember(x.columns, e + 1, "duration", "Code");
      InsertedMember(x.columns, e + 1, "duration", "Name");
      var c := RenameCountries(u.value);
      assert c.Success? <==> "country" in x.columns;
      if c.Success? {
        var m := LeftMerge(c.value, codes);
        assert m.Success? <==> "Code" !in x.columns && "Name" !in x.columns;
        if m.Success? {
          assert m.value.columns[|m.value.columns| - 1] == "Name";
        }
      }
    }
  }

  /** After the second half the columns are those after the duration step with `Code`
      appended, and the rows extend the rows given. */
  lemma EnrichedLayout(x: Frame, codes: seq<NpcCode>)
    requires WellFormed(x) && Enriched(x, codes).Success?
    ensures AddDuration(x).Success?
    ensures Enriched(x, codes).value.columns == AddDuration(x).value.columns + ["Code"]
    ensures |Enriched(x, codes).value.rows| >= |x.rows|
  {
    EnrichedSteps(x, codes);
    var u := AddDuration(x).value;
    var c := RenameCountries(u).value;
    var m := LeftMerge(c, codes).value;
    DropNameAfterMerge(m, u.columns);
  }

  /** The second half is the three steps followed by the drop of `Name`, each succeeding. */
  lemma EnrichedSteps(x: Frame, codes: seq<NpcCode>)
    requires WellFormed(x) && Enriched(x, codes).Success?
    ensures AddDuration(x).Success? && RenameCountries(AddDuration(x).value).Success? &&
      LeftMerge(RenameCountries(AddDuration(x).value).value, codes).Success? &&
      Enriched(x, codes) == DropColumns(LeftMerge(RenameCountries(AddDuration(x).value).value, codes).value, ["Name"])
  {
  }

  /** Dropping `Name` after the merge leaves the merged-in `Code` as the last column. */
  lemma DropNameAfterMerge(m: Frame, cols: seq<string>)
    requires WellFormed(m) && m.columns == cols + ["Code", "Name"]
    ensures DropColumns(m, ["Name"]).Success? && DropColumns(m, ["Name"]).value.columns == cols + ["Code"]
    ensures |DropColumns(m, ["Name"]).value.rows| == |m.rows|
  {
    DropLastShape(m, "Name");
    assert m.columns[..|m.columns| - 1] == cols + ["Code"];
  }

  /** Where `duration` and `Code` land in the final column list, and which labels it lacks. */
  lemma LayoutOf(x: Frame, g: seq<string>, dropped: seq<string>)
    requires WellFormed(x) && "Code" !in x.columns && "Name" !in x.columns
    requires forall c :: c in dropped ==> c !in x.columns && c != "duration" && c != "Code"
    requires AddDuration(x).Success? && g == AddDuration(x).value.columns + ["Code"]
    ensures PreparedLayout(g, dropped)
  {
    var cols, u := x.columns, AddDuration(x).value.columns;
    var e := IndexOf(cols, "end");
    assert u == InsertAt(cols, e + 1, "duration");
    AppendedDistinct(cols, e + 1, "duration", "Code", u, g);
    InsertAtIndex(cols, e + 1, "duration", e);
    assert g[e] == "end" && g[e + 1] == "duration";
    IndexOfDistinct(g, e);
    IndexOfDistinct(g, e + 1);
    forall c | c in dropped + ["Name"] ensures c !in g {
      assert c in dropped || c == "Name";
      InsertedMember(cols, e + 1, "duration", c);
    }
  }

  /** Inserting one new label and appending another keeps the labels distinct. */
  lemma AppendedDistinct(cols: seq<string>, p: nat, x: string, y: string, u: seq<string>, g: seq<string>)
    requires Distinct(cols) && p <= |cols| && x !in cols && y !in cols && x != y
    requires u == InsertAt(cols, p, x) && g == u + [y]
    ensures Distinct(g)
  {
    InsertDistinct(cols, p, x);
    forall k | 0 <= k < |u| ensures u[k] != y {
      assert u[k] in u;
      InsertedMember(cols, p, x, u[k]);
    }
  }

  lemma InsertedMember<T>(s: seq<T>, p: nat, x: T, y: T)
    requires p <= |s|
    ensures y in InsertAt(s, p, x) <==> y in s || y == x
  {
    assert s == s[..p] + s[p..];
  }

  /** The conditions under which every step finds the columns it needs and creates only
      columns that do not exist yet. */
  predicate StepsSucceed(df: Frame, dropped: seq<string>, ints: seq<string>, dates: seq<string>, strs: seq<string>)
  {
    HasAll(df.columns, dropped) && "type" in df.columns &&
    HasAll(df.columns, ints) && HasAll(df.columns, dates) && HasAll(df.columns, strs) &&
    "start" in df.columns && "end" in df.columns && "country" in df.columns &&
    "duration" !in df.columns && "Code" !in df.columns && "Name" !in df.columns
  }

  lemma PrepareStepsSucceed(df: Frame, codes: seq<NpcCode>, dropped: seq<string>, ints: seq<string>,
                            dates: seq<string>, strs: seq<string>)
    requires WellFormed(df)
    requires forall c :: c in ["type"] + ints + dates + strs ==> c !in dropped
    requires "start" !in dropped && "end" !in dropped && "country" !in dropped
    requires "duration" !in dropped && "Code" !in dropped && "Name" !in dropped
    ensures PrepareSteps(df, codes, dropped, ints, dates, strs).Success? <==> StepsSucceed(df, dropped, ints, dates, strs)
  {
    CleanStepsColumns(df, dropped, ints, dates, strs);
    var x := CleanSteps(df, dropped, ints, dates, strs);
    if x.Success? {
      DropKeepsLabels(df, dropped);
      EnrichedSucceeds(x.value, codes);
      assert PrepareSteps(df, codes, dropped, ints, dates, strs) == Enriched(x.value, codes);
    }
  }

  /** The preparation succeeds exactly when every column it looks up exists (the three it
      drops, `type`, the dtype columns, `start`, `end`, `country`) and none of the columns
      it creates (`duration`, `Code`, `Name`) does. */
  lemma PrepareSucceedsIff(df: Frame, codes: seq<NpcCode>)
    requires WellFormed(df)
    ensures PrepareSpec(df, codes).Success? <==> StepsSucceed(df, DroppedColumns, IntColumns, DateColumns, StringColumns)
  {
    LookupsNotDropped();
    assert "start" in ["type"] + IntColumns + DateColumns + StringColumns;
    assert "end" in ["type"] + IntColumns + DateColumns + StringColumns;
    assert "country" in ["type"] + IntColumns + DateColumns + StringColumns;
    PrepareStepsSucceed(df, codes, DroppedColumns, IntColumns, DateColumns, StringColumns);
  }

  /** The second half, applied to a table without the dropped labels, gives the prepared layout. */
  lemma EnrichedPrepared(x: Frame, codes: seq<NpcCode>, dropped: seq<string>)
    requires WellFormed(x) && Enriched(x, codes).Success?
    requires forall c :: c in dropped ==> c !in x.columns && c != "duration" && c != "Code"
    ensures PreparedLayout(Enriched(x, codes).value.columns, dropped)
  {
    EnrichedNeeds(x, codes);
    EnrichedLayout(x, codes);
    LayoutOf(x, Enriched(x, codes).value.columns, dropped);
  }

  /** A second half that succeeds had `end` and none of the labels it creates. */
  lemma EnrichedNeeds(x: Frame, codes: seq<NpcCode>)
    requires WellFormed(x) && Enriched(x, codes).Success?
    ensures "Code" !in x.columns && "Name" !in x.columns
  {
    EnrichedSucceeds(x, codes);
  }

  /** The column layout of a prepared table: the dropped columns and `Name` are gone,
      `duration` sits right after `end`, and `Code` is the last column. */
  predicate PreparedLayout(g: seq<string>, dropped: seq<string>)
  {
    (forall c :: c in dropped + ["Name"] ==> c !in g) &&
    "end" in g && "duration" in g && IndexOf(g, "duration") == IndexOf(g, "end") + 1 &&
    |g| > 0 && g[|g| - 1] == "Code"
  }

  lemma PrepareStepsLayout(df: Frame, codes: seq<NpcCode>, dropped: seq<string>, ints: seq<string>,
                           dates: seq<string>, strs: seq<string>)
    requires WellFormed(df) && PrepareSteps(df, codes, dropped, ints, dates, strs).Success?
    requires forall c :: c in ["type"] + ints + dates + strs ==> c !in dropped
    requires forall c :: c in dropped ==> c != "duration" && c != "Code"
    ensures PreparedLayout(PrepareSteps(df, codes, dropped, ints, dates, strs).value.columns, dropped)
    ensures |PrepareSteps(df, codes, dropped, ints, dates, strs).value.rows| >= |df.rows|
  {
    CleanStepsColumns(df, dropped, ints, dates, strs);
    var x := CleanSteps(df, dropped, ints, dates, strs).value;
    DropKeepsLabels(df, dropped);
    assert PrepareSteps(df, codes, dropped, ints, dates, strs) == Enriched(x, codes);
    EnrichedLayout(x, codes);
    EnrichedPrepared(x, codes, dropped);
  }

  /** The layout of the prepared table: the three dropped columns and `Name` are gone,
      `duration` sits right after `end`, `Code` is the last column, and no event row is lost. */
  lemma PrepareLayout(df: Frame, codes: seq<NpcCode>)
    requires WellFormed(df) && PrepareSpec(df, codes).Success?
    ensures PreparedLayout(PrepareSpec(df, codes).value.columns, DroppedColumns)
    ensures |PrepareSpec(df, codes).value.rows| >= |df.rows|
  {
    LookupsNotDropped();
    PrepareStepsLayout(df, codes, DroppedColumns, IntColumns, DateColumns, StringColumns);
  }

  /** The second half only adds columns. */
  lemma EnrichedKeeps(x: Frame, codes: seq<NpcCode>)
    requires WellFormed(x) && Enriched(x, codes).Success?
    ensures forall c :: c in x.columns ==> c in Enriched(x, codes).value.columns
  {
    EnrichedLayout(x, codes);
    EnrichedSucceeds(x, codes);
    var e := IndexOf(x.columns, "end");
    forall c | c in x.columns ensures c in Enriched(x, codes).value.columns {
      InsertedMember(x.columns, e + 1, "duration", c);
    }
  }

  /** Every column the cleaning looks up survives to the prepared table. */
  lemma PrepareStepsKeeps(df: Frame, codes: seq<NpcCode>, dropped: seq<string>, ints: seq<string>,
                          dates: seq<string>, strs: seq<string>)
    requires WellFormed(df) && PrepareSteps(df, codes, dropped, ints, dates, strs).Success?
    requires forall c :: c in ["type"] + ints + dates + strs ==> c !in dropped
    ensures forall c :: c in ints + dates + strs ==> c in PrepareSteps(df, codes, dropped, ints, dates, strs).value.columns
  {
    CleanStepsColumns(df, dropped, ints, dates, strs);
    var x := CleanSteps(df, dropped, ints, dates, strs).value;
    DropKeepsLabels(df, dropped);
    assert PrepareSteps(df, codes, dropped, ints, dates, strs) == Enriched(x, codes);
    EnrichedKeeps(x, codes);
    forall c | c in ints + dates + strs ensures c in x.columns {
      assert c in ["type"] + ints + dates + strs;
    }
  }

  /** The prepared table still has the integer, date and string columns. */
  lemma PrepareKeeps(df: Frame, codes: seq<NpcCode>)
    requires WellFormed(df) && PrepareSpec(df, codes).Success?
    ensures forall c :: c in IntColumns + DateColumns + StringColumns ==> c in PrepareSpec(df, codes).value.columns
  {
    LookupsNotDropped();
    PrepareStepsKeeps(df, codes, DroppedColumns, IntColumns, DateColumns, StringColumns);
  }

  /** The dtype conversion loop: each listed column is looked up in turn, and the first
      missing one raises a KeyError. */
  method ConvertColumns(f: Frame, names: seq<string>) returns (r: Result<Frame>)
    ensures r == RequireColumns(f, names)
  {
    var i := 0;
    while i < |names|
      invariant 0 <= i <= |names|
      invariant RequireColumns(f, names[i..]) == RequireColumns(f, names)
    {
      if names[i] !in f.columns {
        return Failure("KeyError: '" + names[i] + "'");
      }
      assert names[i..][1..] == names[i + 1..];
      i := i + 1;
    }
    return Success(f);
  }

  /** `prepare_event_data`, step by step, with `df` rebound after every step. */
  method PrepareEventData(df: Frame, codes: seq<NpcCode>) returns (r: Result<Frame>)
    requires WellFormed(df)
    ensures r == PrepareSpec(df, codes)
  {
    r := DropColumns(df, DroppedColumns);
    if r.Failure? { return; }
    var f := r.value;
    r := NormaliseType(f);
    if r.Failure? { return; }
    f := r.value;
    r := ConvertColumns(f, IntColumns);
    if r.Failure? { return; }
    r := RequireColumns(f, DateColumns);
    if r.Failure? { return; }
    r := ConvertColumns(f, StringColumns);
    if r.Failure? { return; }
    r := AddDuration(f);
    if r.Failure? { return; }
    f := r.value;
    r := RenameCountries(f);
    if r.Failure? { return; }
    f := r.value;
    r := LeftMerge(f, codes);
    if r.Failure? { return; }
    f := r.value;
    r := DropColumns(f, ["Name"]);
  }
}
