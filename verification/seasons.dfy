/** The `SEASONS` table and `filter_season` (functions/functions_manage_data.py). */
module Seasons {
  import opened Wrappers
  import opened Seqs
  import opened Frames
  import opened Text
  import Dates

  /** Season name to the two-digit months (`strftime("%m")` values) it covers. */
  const SEASONS: map<string, seq<string>> := map[
    "Winter" := ["12", "01", "02"],
    "Spring" := ["03", "04", "05"],
    "Summer" := ["06", "07", "08"],
    "Fall" := ["09", "10", "11"]
  ]

  /** An independent reading of the calendar: December to February is winter, and each
      following run of three months is the next season. */
  function SeasonOfMonth(m: int): string
    requires 1 <= m <= 12
  {
    if m == 12 || m <= 2 then "Winter"
    else if m <= 5 then "Spring"
    else if m <= 8 then "Summer"
    else "Fall"
  }

  /** Month `m` as `strftime("%m")` renders it: two digits, zero-padded. */
  function MonthCode(m: int): string
    requires 1 <= m <= 12
  {
    Pad(m, 2)
  }

  /** The cell is a timestamp whose two-digit month is one of `months`. */
  predicate InMonths(cell: Cell, months: seq<string>) {
    cell.Some? && cell.value.Stamp? && Dates.MonthText(cell.value.t) in months
  }

  /** A cell the `.dt` accessor accepts: a timestamp or NaT. */
  predicate DatetimeLike(cell: Cell) {
    cell.None? || cell.value.Stamp?
  }

  /** `filter_season(season, df)`: the rows whose `date` month lies in the season, in order.
      The column is looked up and read through `.dt` before the season name is. */
  function FilterSeason(season: string, f: Frame): (r: Result<Frame>)
    requires WellFormed(f)
    ensures r.Ok? <==> season in SEASONS && "date" in f.cols
                       && forall i :: 0 <= i < |f.rows| ==> DatetimeLike(f.rows[i][IndexOf(f.cols, "date").value])
    ensures "date" !in f.cols ==> r == Err(KeyError("date"))
    ensures "date" in f.cols && season !in SEASONS && r.Err? ==> r.fault in {KeyError(season), NotDatetimeLike("date")}
    ensures r.Ok? ==> WellFormed(r.value) && r.value.cols == f.cols
    ensures r.Ok? ==> forall x :: x in r.value.rows <==>
                        x in f.rows && InMonths(x[IndexOf(f.cols, "date").value], SEASONS[season])
    ensures r.Ok? ==> r.value.rows == SeasonRows(f.rows, IndexOf(f.cols, "date").value, SEASONS[season])
  {
    var col :- Column(f, "date");
    if exists i :: 0 <= i < |col| && !DatetimeLike(col[i]) then Err(NotDatetimeLike("date"))
    else if season !in SEASONS then Err(KeyError(season))
    else
      var k := IndexOf(f.cols, "date").value;
      var r := SelectRows(f, SeasonMask(f, k, SEASONS[season]));
      assert forall x :: x in r.rows <==> x in f.rows && InMonths(x[k], SEASONS[season]) by {
        forall x ensures x in r.rows <==> x in f.rows && InMonths(x[k], SEASONS[season]) {
          if x in f.rows && InMonths(x[k], SEASONS[season]) {
            var i :| 0 <= i < |f.rows| && f.rows[i] == x;
            assert SeasonMask(f, k, SEASONS[season])[i];
          }
        }
      }
      assert r.rows == SeasonRows(f.rows, k, SEASONS[season]) by {
        MaskIsFilter(f, k, SEASONS[season]);
      }
      Ok(r)
  }

  /** The boolean row mask `df["date"].dt.strftime("%m").isin(months)`. */
  function SeasonMask(f: Frame, k: nat, months: seq<string>): (m: seq<bool>)
    requires WellFormed(f) && k < |f.cols|
    ensures |m| == |f.rows|
  {
    seq(|f.rows|, i requires 0 <= i < |f.rows| => InMonths(f.rows[i][k], months))
  }

  /** The reference list filter: the rows whose cell `k` lies in `months`, in order. */
  function SeasonRows(rows: seq<Row>, k: nat, months: seq<string>): (out: seq<Row>)
    requires forall i :: 0 <= i < |rows| ==> k < |rows[i]|
  {
    if |rows| == 0 then []
    else
      assert forall i :: 1 <= i < |rows| ==> rows[1..][i - 1] == rows[i];
      (if InMonths(rows[0][k], months) then [rows[0]] else []) + SeasonRows(rows[1..], k, months)
  }

  /** The season mask selects what the reference list filter keeps. */
  lemma {:induction false} MaskIsFilter(f: Frame, k: nat, months: seq<string>)
    requires WellFormed(f) && k < |f.cols|
    ensures Mask(f.rows, SeasonMask(f, k, months)) == SeasonRows(f.rows, k, months)
    decreases |f.rows|
  {
    if |f.rows| > 0 {
      var g := Frame(f.cols, f.rows[1..]);
      MaskIsFilter(g, k, months);
      assert SeasonMask(f, k, months)[1..] == SeasonMask(g, k, months);
    }
  }

  /** Filtering twice by the same season is filtering once. */
  lemma FilterSeasonIdempotent(season: string, f: Frame)
    requires WellFormed(f) && FilterSeason(season, f).Ok?
    ensures FilterSeason(season, FilterSeason(season, f).value) == FilterSeason(season, f)
  {
    var g := FilterSeason(season, f).value;
    var k := IndexOf(f.cols, "date").value;
    assert forall i :: 0 <= i < |g.rows| ==> g.rows[i] in f.rows;
    assert FilterSeason(season, g).Ok?;
    SeasonRowsTwice(f.rows, k, SEASONS[season]);
  }

  /** The reference filter keeps nothing it would drop on a second pass. */
  lemma {:induction false} SeasonRowsTwice(rows: seq<Row>, k: nat, months: seq<string>)
    requires forall i :: 0 <= i < |rows| ==> k < |rows[i]|
    ensures var once := SeasonRows(rows, k, months);
      (forall i :: 0 <= i < |once| ==> k < |once[i]|) && SeasonRows(once, k, months) == once
  {
    if |rows| > 0 {
      assert forall i :: 1 <= i < |rows| ==> rows[1..][i - 1] == rows[i];
      SeasonRowsTwice(rows[1..], k, months);
      var rest := SeasonRows(rows[1..], k, months);
      if InMonths(rows[0][k], months) {
        var once := [rows[0]] + rest;
        assert SeasonRows(rows, k, months) == once;
        assert once[0] == rows[0] && once[1..] == rest;
        assert SeasonRows(once, k, months) == [rows[0]] + SeasonRows(rest, k, months);
      } else {
        assert SeasonRows(rows, k, months) == [] + rest == rest;
      }
    }
  }

  /** The four seasons list twelve two-digit months, and month `m` is listed under
      exactly the season the calendar places it in: every listed string is the code of a
      month of that season, so the lists are disjoint and cover "01" to "12". */
  lemma SeasonsPartitionMonths()
    ensures SEASONS.Keys == {"Winter", "Spring", "Summer", "Fall"}
    ensures forall s, x :: s in SEASONS && x in SEASONS[s] ==>
              exists m :: 1 <= m <= 12 && x == MonthCode(m) && SeasonOfMonth(m) == s
    ensures forall m, s :: 1 <= m <= 12 && s in SEASONS ==> (MonthCode(m) in SEASONS[s] <==> s == SeasonOfMonth(m))
  {
    forall s, x | s in SEASONS && x in SEASONS[s]
      ensures exists m :: 1 <= m <= 12 && x == MonthCode(m) && SeasonOfMonth(m) == s
    {
      ListedMonth(s, x);
    }
    forall m, s | 1 <= m <= 12 && s in SEASONS
      ensures MonthCode(m) in SEASONS[s] <==> s == SeasonOfMonth(m)
    {
      MonthInSeason(m, s);
    }
  }

  lemma MonthInSeason(m: int, s: string)
    requires 1 <= m <= 12 && s in SEASONS
    ensures MonthCode(m) in SEASONS[s] <==> s == SeasonOfMonth(m)
  {
    if MonthCode(m) in SEASONS[s] {
      ListedMonth(s, MonthCode(m));
      var n :| 1 <= n <= 12 && MonthCode(m) == MonthCode(n) && SeasonOfMonth(n) == s;
      PadInjective(m, n, 2);
    }
    if s == SeasonOfMonth(m) {
      MonthListed(m);
    }
  }

  /** Every listed string is the zero-padded code of a month of that season. */
  lemma ListedMonth(s: string, x: string)
    requires s in SEASONS && x in SEASONS[s]
    ensures exists m :: 1 <= m <= 12 && x == MonthCode(m) && SeasonOfMonth(m) == s
  {
    SeasonListing(s);
    var k :| 0 <= k < 3 && SEASONS[s][k] == x;
    var m := MonthNumbers(s)[k];
    assert x == MonthCode(m);
    assert SeasonOfMonth(m) == s;
  }

  /** The month numbers behind each season's list. */
  function MonthNumbers(s: string): (ms: seq<int>)
    ensures |ms| == 3
  {
    if s == "Winter" then [12, 1, 2]
    else if s == "Spring" then [3, 4, 5]
    else if s == "Summer" then [6, 7, 8]
    else [9, 10, 11]
  }

  lemma SeasonListing(s: string)
    requires s in SEASONS
    ensures |SEASONS[s]| == 3
    ensures forall k :: 0 <= k < 3 ==> 1 <= MonthNumbers(s)[k] <= 12 && SeasonOfMonth(MonthNumbers(s)[k]) == s
    ensures forall k :: 0 <= k < 3 ==> SEASONS[s][k] == MonthCode(MonthNumbers(s)[k])
  {
    var ms := MonthNumbers(s);
    assert SEASONS[s] == ListOf(s);
    forall k | 0 <= k < 3 ensures SEASONS[s][k] == MonthCode(ms[k]) {
      PadTwo(ms[k]);
    }
  }

  /** The literal list for each season name. */
  function ListOf(s: string): seq<string> {
    if s == "Winter" then ["12", "01", "02"]
    else if s == "Spring" then ["03", "04", "05"]
    else if s == "Summer" then ["06", "07", "08"]
    else ["09", "10", "11"]
  }

  /** Every month is listed under its season. */
  lemma MonthListed(m: int)
    requires 1 <= m <= 12
    ensures SeasonOfMonth(m) in SEASONS && MonthCode(m) in SEASONS[SeasonOfMonth(m)]
  {
    var s := SeasonOfMonth(m);
    assert SEASONS[s] == ListOf(s);
    PadTwo(m);
    var k := m % 3;
    assert SEASONS[s][k] == MonthCode(m);
  }

}
