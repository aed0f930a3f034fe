/** `join_dataframes` (functions/functions_manage_data.py:70-87): both tables get a
    `YYYY-MM` period key, then they are inner-joined on it. The pandas function
    mutates both arguments; here the mutated tables are returned next to the join. */
module Join {
  import opened Wrappers
  import opened Seqs
  import opened Frames
  import opened Dates
  import MergeLaws

  const YEAR_MONTH := "year-month"
  const START_READ_DATE := "start_read_date"
  const DATE := "date"

  /** `pd.to_datetime` on one cell: NaN stays NaT, a timestamp stays as it is, ISO text is parsed. */
  function ToDatetime(c: Cell): (r: Result<Cell>)
    ensures r.Ok? ==> r.value.None? || r.value.value.Stamp?
    ensures c.None? ==> r == Ok(None)
    ensures c.Some? && c.value.Stamp? ==> r == Ok(c)
    ensures c.Some? && c.value.Text? ==>
      (r.Ok? <==> ParseTimestamp(c.value.s).Ok?) &&
      (r.Ok? ==> r.value == Some(Stamp(ParseTimestamp(c.value.s).value)))
  {
    match c
    case None => Ok(None)
    case Some(v) =>
      match v
      case Stamp(_) => Ok(c)
      case Text(s) =>
        var t :- ParseTimestamp(s);
        Ok(Some(Stamp(t)))
      case Int(i) => Err(ParseError(""))
      case Real(x) => Err(ParseError(""))
  }

  /** `pd.to_datetime` on a column: fails on the first cell it cannot convert. */
  function ToDatetimeAll(cells: seq<Cell>): (r: Result<seq<Cell>>)
    ensures r.Ok? <==> forall i :: 0 <= i < |cells| ==> ToDatetime(cells[i]).Ok?
    ensures r.Ok? ==> |r.value| == |cells|
    ensures r.Ok? ==> forall i :: 0 <= i < |cells| ==> r.value[i] == ToDatetime(cells[i]).value
  {
    if |cells| == 0 then Ok([])
    else
      var head :- ToDatetime(cells[0]);
      var tail :- ToDatetimeAll(cells[1..]);
      assert forall i :: 1 <= i < |cells| ==> cells[1..][i - 1] == cells[i];
      Ok([head] + tail)
  }

  /** `dt.strftime("%Y-%m")` on one cell; NaT renders as NaN. */
  function KeyCell(c: Cell): (k: Cell)
    ensures c.Some? && c.value.Stamp? ==> k == Some(Text(PeriodKey(c.value.t)))
    ensures c.None? || !c.value.Stamp? ==> k.None?
  {
    if c.Some? && c.value.Stamp? then Some(Text(PeriodKey(c.value.t))) else None
  }

  /** Column `c` converted in place by `pd.to_datetime`. */
  function ParseDateColumn(f: Frame, c: string): (r: Result<Frame>)
    requires WellFormed(f)
    ensures c !in f.cols ==> r == Err(KeyError(c))
    ensures r.Ok? ==> c in f.cols && WellFormed(r.value) && r.value.cols == f.cols && |r.value.rows| == |f.rows|
    ensures r.Ok? ==> var k := IndexOf(f.cols, c).value;
      forall i :: 0 <= i < |f.rows| ==> ToDatetime(f.rows[i][k]) == Ok(r.value.rows[i][k])
    ensures r.Ok? ==> forall i, k :: 0 <= i < |f.rows| && 0 <= k < |f.cols| && f.cols[k] != c ==>
      r.value.rows[i][k] == f.rows[i][k]
  {
    var col :- Column(f, c);
    var parsed :- ToDatetimeAll(col);
    Ok(SetColumn(f, c, parsed))
  }

  /** `df["year-month"] = df[c].dt.strftime("%Y-%m")`. */
  function AddPeriodKey(f: Frame, c: string): (r: Frame)
    requires WellFormed(f) && c in f.cols
    ensures WellFormed(r) && |r.rows| == |f.rows|
    ensures r.cols == if YEAR_MONTH in f.cols then f.cols else f.cols + [YEAR_MONTH]
    ensures forall i :: 0 <= i < |f.rows| ==>
      r.rows[i][IndexOf(r.cols, YEAR_MONTH).value] == KeyCell(f.rows[i][IndexOf(f.cols, c).value])
    ensures forall i, k :: 0 <= i < |f.rows| && 0 <= k < |f.cols| && f.cols[k] != YEAR_MONTH ==>
      r.rows[i][k] == f.rows[i][k]
  {
    var k := IndexOf(f.cols, c).value;
    SetColumn(f, YEAR_MONTH, seq(|f.rows|, i requires 0 <= i < |f.rows| => KeyCell(f.rows[i][k])))
  }

  /** The joined table together with both arguments as `join_dataframes` leaves them. */
  datatype Joined = Joined(table: Frame, util: Frame, weather: Frame)

  /** `join_dataframes(df_weather, df_util)`. */
  function JoinDataframes(weather: Frame, util: Frame): (r: Result<Joined>)
    requires WellFormed(weather) && WellFormed(util)
    ensures START_READ_DATE !in util.cols ==> r == Err(KeyError(START_READ_DATE))
    ensures START_READ_DATE in util.cols && DATE !in weather.cols && ParseDateColumn(util, START_READ_DATE).Ok? ==>
      r == Err(KeyError(DATE))
    ensures r.Ok? ==> WellFormed(r.value.table) && WellFormed(r.value.util) && WellFormed(r.value.weather)
    ensures r.Ok? ==> START_READ_DATE in util.cols && DATE in weather.cols
    // the mutated utility table: only `start_read_date` is replaced and `year-month` added
    ensures r.Ok? ==> r.value.util.cols == if YEAR_MONTH in util.cols then util.cols else util.cols + [YEAR_MONTH]
    ensures r.Ok? ==> |r.value.util.rows| == |util.rows|
    ensures r.Ok? ==> forall i, k ::
      (0 <= i < |util.rows| && 0 <= k < |util.cols| && util.cols[k] != START_READ_DATE && util.cols[k] != YEAR_MONTH)
      ==> r.value.util.rows[i][k] == util.rows[i][k]
    // the mutated weather table: only `date` is replaced and `year-month` added
    ensures r.Ok? ==> r.value.weather.cols == if YEAR_MONTH in weather.cols then weather.cols else weather.cols + [YEAR_MONTH]
    ensures r.Ok? ==> |r.value.weather.rows| == |weather.rows|
    ensures r.Ok? ==> forall i, k ::
      (0 <= i < |weather.rows| && 0 <= k < |weather.cols| && weather.cols[k] != DATE && weather.cols[k] != YEAR_MONTH)
      ==> r.value.weather.rows[i][k] == weather.rows[i][k]
  {
    var u1 :- ParseDateColumn(util, START_READ_DATE);
    var u2 := AddPeriodKey(u1, START_READ_DATE);
    var w1 :- ParseDateColumn(weather, DATE);
    var w2 := AddPeriodKey(w1, DATE);
    var t :- Merge(u2, w2, YEAR_MONTH);
    Ok(Joined(t, u2, w2))
  }
}

/** What the join means for the two tables of the pipeline. */
module JoinLaws {
  import opened Wrappers
  import opened Seqs
  import opened Frames
  import opened Dates
  import opened Join
  import MergeLaws
  import Seasons

  /** The argument tables share no label and neither already has a period key. */
  predicate SeparateLabels(weather: Frame, util: Frame) {
    && YEAR_MONTH !in util.cols && YEAR_MONTH !in weather.cols
    && (forall c :: c in util.cols ==> c !in weather.cols)
  }

  /** Position of a label known to be present. */
  function Pos(cols: seq<string>, c: string): nat
    requires c in cols
  {
    IndexOf(cols, c).value
  }

  /** Rows holding `n` cells of their own and then a period key: the period key of their
      parsed date cell `kd`, which holds a timestamp or is missing. */
  predicate Keyed(rs: seq<Row>, n: nat, kd: nat) {
    && kd < n
    && forall i :: 0 <= i < |rs| ==>
         && |rs[i]| == n + 1
         && (rs[i][kd].None? || rs[i][kd].value.Stamp?)
         && rs[i][n] == KeyCell(rs[i][kd])
  }

  /** One argument after `to_datetime` on its date column `c` and the period key: the key is
      the new last label, and each row is the argument's row with the date parsed, followed by
      the period key of that date. */
  lemma KeySide(f: Frame, c: string)
    requires WellFormed(f) && YEAR_MONTH !in f.cols && ParseDateColumn(f, c).Ok?
    ensures c in f.cols
    ensures var g := AddPeriodKey(ParseDateColumn(f, c).value, c);
      && g.cols == f.cols + [YEAR_MONTH] && |g.rows| == |f.rows|
      && Keyed(g.rows, |f.cols|, Pos(f.cols, c))
      && forall i :: 0 <= i < |f.rows| ==> ToDatetime(f.rows[i][Pos(f.cols, c)]) == Ok(g.rows[i][Pos(f.cols, c)])
  {
    var p := ParseDateColumn(f, c).value;
    var g := AddPeriodKey(p, c);
    var k := Pos(f.cols, c);
    IndexOfAppend(f.cols, YEAR_MONTH);
    assert IndexOf(g.cols, YEAR_MONTH) == Some(|f.cols|);
    forall i | 0 <= i < |f.rows|
      ensures g.rows[i][k] == p.rows[i][k] && ToDatetime(f.rows[i][k]) == Ok(g.rows[i][k])
      ensures g.rows[i][|f.cols|] == KeyCell(g.rows[i][k])
    {
      assert f.cols[k] == c && c != YEAR_MONTH;
    }
  }

  /** The shape of a successful join of separately labelled tables: the utility labels, the key,
      then the weather labels; each joined row is a utility row (with its key) followed by a
      weather row with equal key; every key is the period key of the row's own date cell. */
  lemma JoinShape(weather: Frame, util: Frame)
    requires WellFormed(weather) && WellFormed(util) && SeparateLabels(weather, util)
    requires JoinDataframes(weather, util).Ok?
    ensures var j := JoinDataframes(weather, util).value;
      && START_READ_DATE in util.cols && DATE in weather.cols
      && j.util.cols == util.cols + [YEAR_MONTH]
      && j.weather.cols == weather.cols + [YEAR_MONTH]
      && j.table.cols == util.cols + [YEAR_MONTH] + weather.cols
      && Keyed(j.util.rows, |util.cols|, Pos(util.cols, START_READ_DATE))
      && Keyed(j.weather.rows, |weather.cols|, Pos(weather.cols, DATE))
      && |j.util.rows| == |util.rows| && |j.weather.rows| == |weather.rows|
      && (forall i :: 0 <= i < |util.rows| ==>
            ToDatetime(util.rows[i][Pos(util.cols, START_READ_DATE)]) == Ok(j.util.rows[i][Pos(util.cols, START_READ_DATE)]))
      && (forall w :: 0 <= w < |weather.rows| ==>
            ToDatetime(weather.rows[w][Pos(weather.cols, DATE)]) == Ok(j.weather.rows[w][Pos(weather.cols, DATE)]))
      && j.table.rows == JoinRows(j.util.rows, |util.cols|, j.weather.rows, |weather.cols|)
  {
    KeySide(util, START_READ_DATE);
    KeySide(weather, DATE);
    var u2 := AddPeriodKey(ParseDateColumn(util, START_READ_DATE).value, START_READ_DATE);
    var w2 := AddPeriodKey(ParseDateColumn(weather, DATE).value, DATE);
    IndexOfAppend(util.cols, YEAR_MONTH);
    IndexOfAppend(weather.cols, YEAR_MONTH);
    assert w2.cols[..|weather.cols|] == weather.cols;
    MergedLabelsDisjoint(u2.cols, w2.cols, |weather.cols|);
    assert w2.cols[|weather.cols| + 1..] == [];
  }

  /** A utility row and a weather row are joined exactly when their dates fall in the same
      calendar month, or both dates are missing (pandas matches NaN keys with each other). */
  lemma KeyCellsMatch(a: Cell, b: Cell)
    requires a.None? || a.value.Stamp?
    requires b.None? || b.value.Stamp?
    ensures KeyCell(a) == KeyCell(b) <==>
      (a.None? && b.None?) ||
      (a.Some? && b.Some? && a.value.t.year == b.value.t.year && a.value.t.month == b.value.t.month)
  {
    if a.Some? && b.Some? {
      PeriodKeySameMonth(a.value.t, b.value.t);
    }
  }

  /** The joined rows are exactly the pairs of a utility row and a weather row whose parsed
      dates fall in the same month (or are both missing), the utility row first. */
  lemma JoinPairsSameMonth(weather: Frame, util: Frame, x: Row)
    requires WellFormed(weather) && WellFormed(util) && SeparateLabels(weather, util)
    requires JoinDataframes(weather, util).Ok?
    ensures var j := JoinDataframes(weather, util).value;
      var ks := Pos(util.cols, START_READ_DATE);
      var kd := Pos(weather.cols, DATE);
      x in j.table.rows <==>
        exists i, w :: 0 <= i < |util.rows| && 0 <= w < |weather.rows|
          && SameMonth(j.util.rows[i][ks], j.weather.rows[w][kd])
          && x == j.util.rows[i] + j.weather.rows[w][..|weather.cols|]
  {
    JoinShape(weather, util);
    var j := JoinDataframes(weather, util).value;
    PairsSameMonth(j.util.rows, |util.cols|, Pos(util.cols, START_READ_DATE),
                   j.weather.rows, |weather.cols|, Pos(weather.cols, DATE), x);
  }

  /** Two parsed date cells name the same month, or are both missing. */
  predicate SameMonth(a: Cell, b: Cell) {
    (a.None? && b.None?) ||
    (a.Some? && b.Some? && a.value.Stamp? && b.value.Stamp?
      && a.value.t.year == b.value.t.year && a.value.t.month == b.value.t.month)
  }

  /** Keyed rows are joined exactly when their dates fall in the same month or are both missing;
      a joined row is the left row followed by the right row without its key. */
  lemma PairsSameMonth(us: seq<Row>, nu: nat, ks: nat, ws: seq<Row>, nw: nat, kd: nat, x: Row)
    requires Keyed(us, nu, ks) && Keyed(ws, nw, kd)
    ensures x in JoinRows(us, nu, ws, nw) <==>
      exists i, w :: 0 <= i < |us| && 0 <= w < |ws|
        && SameMonth(us[i][ks], ws[w][kd]) && x == us[i] + ws[w][..nw]
  {
    MergeLaws.JoinRowsMember(us, nu, ws, nw, x);
    forall i, w | 0 <= i < |us| && 0 <= w < |ws|
      ensures us[i][nu] == ws[w][nw] <==> SameMonth(us[i][ks], ws[w][kd])
      ensures Combine(us[i], ws[w], nw) == us[i] + ws[w][..nw]
    {
      KeyCellsMatch(us[i][ks], ws[w][kd]);
      assert ws[w][nw + 1..] == [];
    }
  }

  /** Which rows of `ws` have a date cell in the month of `a`. */
  function MonthMatch(a: Cell, ws: seq<Row>, kd: nat): (m: seq<bool>)
    requires MergeLaws.KeyWidth(ws, kd)
    ensures |m| == |ws| && forall w :: 0 <= w < |ws| ==> m[w] == SameMonth(a, ws[w][kd])
  {
    seq(|ws|, w requires 0 <= w < |ws| => SameMonth(a, ws[w][kd]))
  }

  /** The number of pairs of a utility row and a weather row whose dates share a month. */
  function MonthPairs(us: seq<Row>, ks: nat, ws: seq<Row>, kd: nat): nat
    requires MergeLaws.KeyWidth(us, ks) && MergeLaws.KeyWidth(ws, kd)
  {
    if |us| == 0 then 0 else CountTrue(MonthMatch(us[0][ks], ws, kd)) + MonthPairs(us[1..], ks, ws, kd)
  }

  /** The join has one row for every pair of a utility row and a weather row whose parsed
      dates fall in the same month (or are both missing): a utility month with three weather
      days gives three rows. */
  lemma JoinCountSameMonth(weather: Frame, util: Frame)
    requires WellFormed(weather) && WellFormed(util) && SeparateLabels(weather, util)
    requires JoinDataframes(weather, util).Ok?
    ensures var j := JoinDataframes(weather, util).value;
      var ks := Pos(util.cols, START_READ_DATE);
      var kd := Pos(weather.cols, DATE);
      MergeLaws.KeyWidth(j.util.rows, ks) && MergeLaws.KeyWidth(j.weather.rows, kd)
      && |j.table.rows| == MonthPairs(j.util.rows, ks, j.weather.rows, kd)
  {
    JoinShape(weather, util);
    var j := JoinDataframes(weather, util).value;
    CountByMonth(j.util.rows, |util.cols|, Pos(util.cols, START_READ_DATE),
                 j.weather.rows, |weather.cols|, Pos(weather.cols, DATE));
  }

  /** Keyed rows join into one row per pair of rows whose dates share a month. */
  lemma {:induction false} CountByMonth(us: seq<Row>, nu: nat, ks: nat, ws: seq<Row>, nw: nat, kd: nat)
    requires Keyed(us, nu, ks) && Keyed(ws, nw, kd)
    ensures |JoinRows(us, nu, ws, nw)| == MonthPairs(us, ks, ws, kd)
  {
    MergeLaws.JoinRowsCount(us, nu, ws, nw);
    PairsByMonth(us, nu, ks, ws, nw, kd);
  }

  /** Counting pairs by equal period keys is counting them by shared month. */
  lemma {:induction false} PairsByMonth(us: seq<Row>, nu: nat, ks: nat, ws: seq<Row>, nw: nat, kd: nat)
    requires Keyed(us, nu, ks) && Keyed(ws, nw, kd)
    ensures MergeLaws.PairCount(us, nu, ws, nw) == MonthPairs(us, ks, ws, kd)
  {
    if |us| > 0 {
      forall w | 0 <= w < |ws| ensures (ws[w][nw] == us[0][nu]) == SameMonth(us[0][ks], ws[w][kd]) {
        KeyCellsMatch(us[0][ks], ws[w][kd]);
      }
      assert MergeLaws.KeyMatch(us[0][nu], ws, nw) == MonthMatch(us[0][ks], ws, kd);
      assert Keyed(us[1..], nu, ks) by {
        forall i | 0 <= i < |us[1..]| ensures us[1..][i] == us[i + 1] { }
      }
      PairsByMonth(us[1..], nu, ks, ws, nw, kd);
    }
  }

  /** Every cell holds a timestamp and no two of them fall in the same month. */
  predicate OnePerMonth(rs: seq<Row>, k: nat)
    requires MergeLaws.KeyWidth(rs, k)
  {
    && (forall i :: 0 <= i < |rs| ==> rs[i][k].Some? && rs[i][k].value.Stamp?)
    && (forall a, b :: 0 <= a < b < |rs| ==> !SameMonth(rs[a][k], rs[b][k]))
  }

  /** With one row per month on each side, the join has at most as many rows as the smaller table. */
  lemma JoinCardinalityByMonth(weather: Frame, util: Frame)
    requires WellFormed(weather) && WellFormed(util) && SeparateLabels(weather, util)
    requires JoinDataframes(weather, util).Ok?
    requires var j := JoinDataframes(weather, util).value;
      && OnePerMonth(j.util.rows, Pos(util.cols, START_READ_DATE))
      && OnePerMonth(j.weather.rows, Pos(weather.cols, DATE))
    ensures |JoinDataframes(weather, util).value.table.rows| <= |util.rows|
    ensures |JoinDataframes(weather, util).value.table.rows| <= |weather.rows|
  {
    JoinShape(weather, util);
    var j := JoinDataframes(weather, util).value;
    CardinalityByMonth(j.util.rows, |util.cols|, Pos(util.cols, START_READ_DATE),
                       j.weather.rows, |weather.cols|, Pos(weather.cols, DATE));
  }

  /** Keyed rows with one date per month on each side join into at most as many rows as
      either side has. */
  lemma CardinalityByMonth(us: seq<Row>, nu: nat, ks: nat, ws: seq<Row>, nw: nat, kd: nat)
    requires Keyed(us, nu, ks) && Keyed(ws, nw, kd)
    requires OnePerMonth(us, ks) && OnePerMonth(ws, kd)
    ensures |JoinRows(us, nu, ws, nw)| <= |us| && |JoinRows(us, nu, ws, nw)| <= |ws|
  {
    forall a, b | 0 <= a < b < |us| ensures us[a][nu] != us[b][nu] {
      KeyCellsMatch(us[a][ks], us[b][ks]);
    }
    forall a, b | 0 <= a < b < |ws| ensures ws[a][nw] != ws[b][nw] {
      KeyCellsMatch(ws[a][kd], ws[b][kd]);
    }
    MergeLaws.JoinCardinality(us, nu, ws, nw);
  }

  /** For a date given as ISO text, the period key is the text's first seven characters. */
  lemma PeriodKeyIsPrefix(weather: Frame, util: Frame, i: nat)
    requires WellFormed(weather) && WellFormed(util) && SeparateLabels(weather, util)
    requires JoinDataframes(weather, util).Ok?
    requires i < |util.rows|
    requires var c := util.rows[i][Pos(util.cols, START_READ_DATE)]; c.Some? && c.value.Text?
    ensures var s := util.rows[i][Pos(util.cols, START_READ_DATE)].value.s;
      |s| >= 7 && JoinDataframes(weather, util).value.util.rows[i][|util.cols|] == Some(Text(s[..7]))
  {
    JoinShape(weather, util);
    var s := util.rows[i][Pos(util.cols, START_READ_DATE)].value.s;
    ParsedPeriodKey(s);
  }

  /** The property the season test asserts: after `filter_season`, every row's `year-month`
      ends in a two-digit month listed for the season. */
  lemma FilterSeasonAfterJoin(weather: Frame, util: Frame, season: string, x: Row)
    requires WellFormed(weather) && WellFormed(util) && SeparateLabels(weather, util)
    requires JoinDataframes(weather, util).Ok?
    requires Seasons.FilterSeason(season, JoinDataframes(weather, util).value.table).Ok?
    requires x in Seasons.FilterSeason(season, JoinDataframes(weather, util).value.table).value.rows
    ensures season in Seasons.SEASONS
    ensures |util.cols| < |x| && x[|util.cols|].Some? && x[|util.cols|].value.Text?
    ensures var key := x[|util.cols|].value.s; |key| == 7 && key[5..] in Seasons.SEASONS[season]
  {
    JoinShape(weather, util);
    var j := JoinDataframes(weather, util).value;
    DatePosition(util.cols, weather.cols);
    SeasonKey(j.table, j.util.rows, |util.cols|, Pos(util.cols, START_READ_DATE),
              j.weather.rows, |weather.cols|, Pos(weather.cols, DATE), season, x);
  }

  /** A row `filter_season` keeps from a join of keyed rows, whose `date` label sits at the
      right side's date cell, has a period key ending in one of the season's months. */
  lemma SeasonKey(t: Frame, us: seq<Row>, nu: nat, ks: nat, ws: seq<Row>, nw: nat, kd: nat, season: string, x: Row)
    requires Keyed(us, nu, ks) && Keyed(ws, nw, kd)
    requires WellFormed(t) && t.rows == JoinRows(us, nu, ws, nw)
    requires DATE in t.cols && Pos(t.cols, DATE) == nu + 1 + kd
    requires Seasons.FilterSeason(season, t).Ok? && x in Seasons.FilterSeason(season, t).value.rows
    ensures season in Seasons.SEASONS
    ensures nu < |x| && x[nu].Some? && x[nu].value.Text?
    ensures var key := x[nu].value.s; |key| == 7 && key[5..] in Seasons.SEASONS[season]
  {
    SeasonRow(t, season, x, nu + 1 + kd);
    JoinedKeyOfDate(us, nu, ks, ws, nw, kd, x);
    PeriodKeyShape(x[nu + 1 + kd].value.t);
  }

  /** A row kept by `filter_season`, with `date` at position `k`, is a row of the input
      whose date falls in one of the season's months. */
  lemma SeasonRow(f: Frame, season: string, x: Row, k: nat)
    requires WellFormed(f) && DATE in f.cols && Pos(f.cols, DATE) == k
    requires Seasons.FilterSeason(season, f).Ok? && x in Seasons.FilterSeason(season, f).value.rows
    ensures season in Seasons.SEASONS && x in f.rows && k < |x|
    ensures Seasons.InMonths(x[k], Seasons.SEASONS[season])
  {
  }

  /** In a join of keyed rows, a joined row's key is the period key of its right-side date. */
  lemma JoinedKeyOfDate(us: seq<Row>, nu: nat, ks: nat, ws: seq<Row>, nw: nat, kd: nat, x: Row)
    requires Keyed(us, nu, ks) && Keyed(ws, nw, kd)
    requires x in JoinRows(us, nu, ws, nw)
    ensures nu + 1 + kd < |x| && x[nu] == KeyCell(x[nu + 1 + kd])
  {
    MergeLaws.JoinRowsMember(us, nu, ws, nw, x);
    var i, w :| 0 <= i < |us| && 0 <= w < |ws| && us[i][nu] == ws[w][nw] && x == Combine(us[i], ws[w], nw);
    var urow, wrow := us[i], ws[w];
    CombinedCells(urow, wrow, nu, nw, kd, x);
    assert x[nu] == wrow[nw];
  }

  lemma CombinedCells(urow: Row, wrow: Row, nu: nat, nw: nat, kd: nat, x: Row)
    requires |urow| == nu + 1 && |wrow| == nw + 1 && kd < nw
    requires x == Combine(urow, wrow, nw)
    ensures x[nu] == urow[nu] && x[nu + 1 + kd] == wrow[kd]
  {
    assert x == urow + wrow[..nw] + wrow[nw + 1..];
  }

  /** In the joined labels, `date` sits after the utility labels and the key. */
  lemma DatePosition(ucols: seq<string>, wcols: seq<string>)
    requires DATE in wcols && DATE !in ucols
    ensures DATE in ucols + [YEAR_MONTH] + wcols
    ensures Pos(ucols + [YEAR_MONTH] + wcols, DATE) == |ucols| + 1 + Pos(wcols, DATE)
  {
    assert DATE != YEAR_MONTH;
    LabelAfterKey(ucols, YEAR_MONTH, wcols, DATE);
  }

  /** A label absent from `head` and distinct from `key` is found in `tail`, shifted. */
  lemma LabelAfterKey(head: seq<string>, key: string, tail: seq<string>, c: string)
    requires c in tail && c !in head && c != key
    ensures c in head + [key] + tail && Pos(head + [key] + tail, c) == |head| + 1 + Pos(tail, c)
  {
    var front := head + [key];
    assert c !in front by {
      forall k | 0 <= k < |front| ensures front[k] != c {
        if k < |head| {
          assert front[k] == head[k];
        }
      }
    }
    IndexOfAfter(front, tail, c);
  }
}
