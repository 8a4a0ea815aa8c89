/** The two table selections of the `Demonstrate` class over a prepared events table:
    `where`, the distinct (host, country) pairs sorted by country, and `when_events`, the
    (start, end, host, year) of every event sorted by start. Sorting follows the order
    `sort_values` uses within one column: numbers and dates by value, strings by code
    point, missing values last. */
module EventDemonstration {
  import opened Wrappers
  import opened Collections
  import opened Text
  import opened EventPreparation

  // ---------------------------------------------------------------- the order on cells

  /** Which kind of cell sorts first; a missing value sorts after everything else. */
  function Rank(v: Cell): nat
  {
    match v
    case Num(_) => 0
    case Day(_) => 1
    case Str(_) => 2
    case Missing => 3
  }

  /** `a` sorts no later than `b`. */
  predicate CellLe(a: Cell, b: Cell)
  {
    match (a, b)
    case (Num(x), Num(y)) => x <= y
    case (Day(x), Day(y)) => x <= y
    case (Str(x), Str(y)) => StrLe(x, y)
    case _ => Rank(a) <= Rank(b)
  }

  /** Any two cells are ordered one way or the other. */
  lemma CellLeTotal(a: Cell, b: Cell)
    ensures CellLe(a, b) || CellLe(b, a)
  {
    if a.Str? && b.Str? {
      StrLeTotal(a.s, b.s);
    }
  }

  /** The order on cells is transitive. */
  lemma CellLeTrans(a: Cell, b: Cell, c: Cell)
    requires CellLe(a, b) && CellLe(b, c)
    ensures CellLe(a, c)
  {
    if a.Str? && b.Str? && c.Str? {
      StrLeTrans(a.s, b.s, c.s);
    }
  }

  // ---------------------------------------------------------------- sorting rows on a column

  /** The cell of `row` at position `k`; missing when the row is shorter. */
  function KeyAt(row: Row, k: nat): Cell
  {
    if k < |row| then row[k] else Missing
  }

  /** The rows are in order on the cells at position `k`. */
  predicate SortedOn(s: seq<Row>, k: nat)
  {
    forall i, j :: 0 <= i < j < |s| ==> CellLe(KeyAt(s[i], k), KeyAt(s[j], k))
  }

  /** `x` inserted into `s` before the first row that does not sort before it. */
  function Insert(s: seq<Row>, x: Row, k: nat): (r: seq<Row>)
    ensures multiset(r) == multiset(s) + multiset{x}
  {
    if |s| == 0 then [x]
    else if CellLe(KeyAt(x, k), KeyAt(s[0], k)) then [x] + s
    else
      assert s == [s[0]] + s[1..];
      [s[0]] + Insert(s[1..], x, k)
  }

  /** The rows of `s` sorted on position `k`. */
  function SortOn(s: seq<Row>, k: nat): (r: seq<Row>)
    ensures multiset(r) == multiset(s)
  {
    if |s| == 0 then []
    else
      assert s == [s[0]] + s[1..];
      Insert(SortOn(s[1..], k), s[0], k)
  }

  lemma {:induction false} InsertSorted(s: seq<Row>, x: Row, k: nat)
    requires SortedOn(s, k)
    ensures SortedOn(Insert(s, x, k), k)
  {
    if |s| > 0 {
      var r := Insert(s, x, k);
      if CellLe(KeyAt(x, k), KeyAt(s[0], k)) {
        forall j | 0 < j < |r| ensures CellLe(KeyAt(r[0], k), KeyAt(r[j], k)) {
          assert r[j] == s[j - 1];
          if j > 1 {
            CellLeTrans(KeyAt(x, k), KeyAt(s[0], k), KeyAt(s[j - 1], k));
          }
        }
      } else {
        var t := s[1..];
        assert SortedOn(t, k);
        assert forall j :: 0 <= j < |t| ==> t[j] == s[j + 1];
        InsertSorted(t, x, k);
        var it := Insert(t, x, k);
        assert r == [s[0]] + it;
        CellLeTotal(KeyAt(x, k), KeyAt(s[0], k));
        InsertBounded(t, x, k, KeyAt(s[0], k));
      }
    }
  }

  /** A key no later than every key of `t` and than that of `x` is no later than any key
      after inserting `x`. */
  lemma InsertBounded(t: seq<Row>, x: Row, k: nat, lo: Cell)
    requires forall j :: 0 <= j < |t| ==> CellLe(lo, KeyAt(t[j], k))
    requires CellLe(lo, KeyAt(x, k))
    ensures forall j :: 0 <= j < |Insert(t, x, k)| ==> CellLe(lo, KeyAt(Insert(t, x, k)[j], k))
  {
    var it := Insert(t, x, k);
    forall j | 0 <= j < |it| ensures CellLe(lo, KeyAt(it[j], k)) {
      assert it[j] in multiset(it);
      if it[j] != x {
        assert it[j] in multiset(t);
        var l :| 0 <= l < |t| && t[l] == it[j];
      }
    }
  }

  /** SortOn puts the rows in order on position `k`. */
  lemma {:induction false} SortOnSorted(s: seq<Row>, k: nat)
    ensures SortedOn(SortOn(s, k), k)
  {
    if |s| > 0 {
      SortOnSorted(s[1..], k);
      InsertSorted(SortOn(s[1..], k), s[0], k);
    }
  }

  /** A sequence without repeated elements holds each of its elements exactly once. */
  lemma {:induction false} DistinctOnce<T>(s: seq<T>)
    requires Distinct(s)
    ensures forall x :: x in s ==> multiset(s)[x] == 1
  {
    if |s| > 0 {
      var t := s[1..];
      assert s == [s[0]] + t;
      assert Distinct(t);
      DistinctOnce(t);
      assert s[0] !in t;
    }
  }

  // ---------------------------------------------------------------- selecting columns

  /** `df[names]`: a KeyError unless every label is a column; otherwise the cells of each row
      under those labels, in the order of `names`. */
  function Columns(f: Frame, names: seq<string>): (r: Result<seq<Row>>)
    requires WellFormed(f)
    ensures r.Success? <==> HasAll(f.columns, names)
    ensures r.Success? ==> |r.value| == |f.rows|
    ensures r.Success? ==> forall i :: 0 <= i < |f.rows| ==>
      |r.value[i]| == |names| && (forall k :: 0 <= k < |names| ==> r.value[i][k] == At(f, i, names[k]))
  {
    if exists n :: n in names && n !in f.columns then Failure("KeyError: not in index")
    else Success(seq(|f.rows|, i requires 0 <= i < |f.rows| =>
                   seq(|names|, k requires 0 <= k < |names| => At(f, i, names[k]))))
  }

  // ---------------------------------------------------------------- Demonstrate

  /** The prepared events table the questions are checked against. */
  datatype Demonstrate = Demonstrate(df: Frame)
  {
    /** `where`: the (host, country) pairs, each kept once where it first occurs, sorted
        by country. */
    function Where(): (r: Result<Frame>)
      requires WellFormed(df)
      ensures r.Success? <==> "host" in df.columns && "country" in df.columns
      ensures r.Success? ==> r.value.columns == ["host", "country"]
    {
      var pairs :- Columns(df, ["host", "country"]);
      Success(Frame(["host", "country"], SortOn(DedupBy(pairs, Whole), 1)))
    }

    /** `when_events`: the start, end, host and year of every event, sorted by start. */
    function WhenEvents(): (r: Result<Frame>)
      requires WellFormed(df)
      ensures r.Success? <==> "start" in df.columns && "end" in df.columns &&
                              "host" in df.columns && "year" in df.columns
      ensures r.Success? ==> r.value.columns == ["start", "end", "host", "year"]
    {
      HasAllOfFour(df.columns, "start", "end", "host", "year");
      var t :- Columns(df, ["start", "end", "host", "year"]);
      Success(Frame(["start", "end", "host", "year"], SortOn(t, 0)))
    }
  }

  /** The pair of host and country of event row `i`. */
  function HostCountry(f: Frame, i: nat): Row
    requires WellFormed(f) && i < |f.rows| && "host" in f.columns && "country" in f.columns
  {
    [At(f, i, "host"), At(f, i, "country")]
  }

  lemma HasAllOfFour(cols: seq<string>, a: string, b: string, c: string, e: string)
    ensures HasAll(cols, [a, b, c, e]) <==> a in cols && b in cols && c in cols && e in cols
  {
    if a in cols && b in cols && c in cols && e in cols {
      forall n | n in [a, b, c, e] ensures n in cols {
      }
    }
  }

  /** Order-preserving deduplication of whole rows keeps each row of `s` exactly once. */
  lemma DedupRows(s: seq<Row>)
    ensures Distinct(DedupBy(s, Whole))
    ensures forall p :: p in DedupBy(s, Whole) <==> p in s
  {
    var u := DedupBy(s, Whole);
    DedupByKeys(s, Whole);
    forall i, j | 0 <= i < j < |u| ensures u[i] != u[j] {
      assert Whole(u[i]) != Whole(u[j]);
    }
    forall p | p in s ensures p in u {
      var q := KeyPos(u, Whole, Whole(p));
      assert u[q] == p;
    }
  }

  /** Sorting neither adds nor removes rows. */
  lemma SortedMembers(u: seq<Row>, k: nat)
    ensures forall p :: p in SortOn(u, k) <==> p in u
    ensures forall p :: multiset(SortOn(u, k))[p] == multiset(u)[p]
  {
    var r := SortOn(u, k);
    forall p ensures p in r <==> p in u {
      assert p in r <==> p in multiset(r);
      assert p in u <==> p in multiset(u);
    }
  }

  /** The selected pairs are the pairs of host and country of the rows. */
  lemma PairsOfRows(f: Frame)
    requires WellFormed(f) && "host" in f.columns && "country" in f.columns
    ensures Columns(f, ["host", "country"]).Success?
    ensures forall p :: p in Columns(f, ["host", "country"]).value <==>
      exists i :: 0 <= i < |f.rows| && p == HostCountry(f, i)
  {
    var pairs := Columns(f, ["host", "country"]).value;
    forall p ensures p in pairs <==> exists i :: 0 <= i < |f.rows| && p == HostCountry(f, i) {
      if p in pairs {
        var i :| 0 <= i < |pairs| && pairs[i] == p;
        assert p == HostCountry(f, i);
      }
      if exists i :: 0 <= i < |f.rows| && p == HostCountry(f, i) {
        var i :| 0 <= i < |f.rows| && p == HostCountry(f, i);
        assert pairs[i] == p;
      }
    }
  }

  /** The answer to "where": sorted by country, every pair at most once, and exactly the
      pairs of host and country that occur in the table. */
  lemma WhereDistinctSorted(d: Demonstrate)
    requires WellFormed(d.df) && d.Where().Success?
    ensures var r := d.Where().value.rows;
      SortedOn(r, 1) &&
      (forall p :: p in r ==> multiset(r)[p] == 1) &&
      (forall p :: p in r <==> exists i :: 0 <= i < |d.df.rows| && p == HostCountry(d.df, i))
  {
    var pairs := Columns(d.df, ["host", "country"]).value;
    var u := DedupBy(pairs, Whole);
    var r := d.Where().value.rows;
    assert r == SortOn(u, 1);
    SortOnSorted(u, 1);
    DedupRows(pairs);
    DistinctOnce(u);
    SortedMembers(u, 1);
    PairsOfRows(d.df);
  }

  /** The answer to "when": every event row once, as its start, end, host and year, sorted
      by start. */
  lemma WhenEventsSorted(d: Demonstrate)
    requires WellFormed(d.df) && d.WhenEvents().Success?
    ensures var r := d.WhenEvents().value.rows;
      SortedOn(r, 0) && |r| == |d.df.rows| &&
      multiset(r) == multiset(Columns(d.df, ["start", "end", "host", "year"]).value)
  {
    var t := Columns(d.df, ["start", "end", "host", "year"]).value;
    SortOnSorted(t, 0);
    assert d.WhenEvents().value.rows == SortOn(t, 0);
    assert |multiset(SortOn(t, 0))| == |multiset(t)|;
  }

  /** A table that `prepare_event_data` produced answers both questions: `where` and
      `when_events` find all the columns they select. */
  lemma PreparedAnswers(df: Frame, codes: seq<NpcCode>)
    requires WellFormed(df) && PrepareSpec(df, codes).Success?
    ensures Demonstrate(PrepareSpec(df, codes).value).Where().Success?
    ensures Demonstrate(PrepareSpec(df, codes).value).WhenEvents().Success?
  {
    PrepareKeeps(df, codes);
    LookupsInLists();
  }

  lemma LookupsInLists()
    ensures "year" in IntColumns && "start" in DateColumns && "end" in DateColumns
    ensures "host" in StringColumns && "country" in StringColumns
  {
    assert IntColumns[6] == "year" && DateColumns[0] == "start" && DateColumns[1] == "end";
    assert StringColumns[2] == "host" && StringColumns[1] == "country";
  }
}
