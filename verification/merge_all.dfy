/** `merge_all_df` (functions/functions_manage_data.py:192-246): the weather tables are merged
    on `date` one after another, each merge narrowed by a label filter and relabelled with the
    datatype codes; the result is joined with the utility table, the date columns are dropped,
    and the peak-demand time and the month become numbers. Reading the utility CSV is outside
    the model: the utility table is a parameter. */
module MergeAll {
  import opened Wrappers
  import opened Seqs
  import opened Text
  import opened Dates
  import opened Frames
  import Join

  const DATE := "date"
  const PEAK := "time_of_peak_demand"
  const MONTH := "month"

  /** The labels dropped after the join. */
  const DROPPED: seq<string> := ["start_read_date", "end_read_date", "date"]

  /** `filter(regex="date|value|[A-Z]{4}")`: a label containing `date` or `value`, or four
      upper-case letters in a row. */
  predicate KeptLabel(c: string) {
    Contains(c, "date") || Contains(c, "value") || HasUpperRun(c, 4)
  }

  /** `filter(regex="datatype")`. */
  predicate DatatypeLabel(c: string) {
    Contains(c, "datatype")
  }

  /** `tolist()` used as column labels: labels are strings here, so every cell must be text. */
  function Labels(cells: seq<Cell>): (r: Result<seq<string>>)
    ensures r.Ok? <==> forall i :: 0 <= i < |cells| ==> cells[i].Some? && cells[i].value.Text?
    ensures r.Err? ==> r.fault == BadLabel
    ensures r.Ok? ==> |r.value| == |cells| && forall i :: 0 <= i < |cells| ==> cells[i] == Some(Text(r.value[i]))
  {
    if |cells| == 0 then Ok([])
    else if cells[0].None? || !cells[0].value.Text? then Err(BadLabel)
    else
      var rest :- Labels(cells[1..]);
      assert forall i :: 1 <= i < |cells| ==> cells[i] == cells[1..][i - 1];
      Ok([cells[0].value.s] + rest)
  }

  /** `df.filter(regex="datatype").iloc[0, :].tolist()`: the first row's cells under the
      datatype labels, in column order; a frame without rows has no row 0. */
  function DatatypeCodes(f: Frame): (r: Result<seq<string>>)
    requires WellFormed(f)
    ensures |f.rows| == 0 ==> r == Err(IndexError)
    ensures r.Err? ==> r.fault in {IndexError, BadLabel}
    ensures r.Ok? ==> |f.rows| > 0 && |r.value| == |Mask(f.cols, MaskOf(f.cols, DatatypeLabel))|
    ensures r.Ok? ==> forall t :: 0 <= t < |r.value| ==>
      Mask(f.rows[0], MaskOf(f.cols, DatatypeLabel))[t] == Some(Text(r.value[t]))
    ensures r.Ok? ==> forall s :: s in r.value <==>
      exists k :: 0 <= k < |f.cols| && DatatypeLabel(f.cols[k]) && f.rows[0][k] == Some(Text(s))
  {
    if |f.rows| == 0 then Err(IndexError)
    else
      var keep := MaskOf(f.cols, DatatypeLabel);
      var cells := Mask(f.rows[0], keep);
      var codes :- Labels(cells);
      forall s ensures s in codes <==> Some(Text(s)) in cells {
        if Some(Text(s)) in cells {
          var i :| 0 <= i < |cells| && cells[i] == Some(Text(s));
          assert codes[i] == s;
        }
      }
      forall s ensures Some(Text(s)) in cells <==>
        exists k :: 0 <= k < |f.cols| && DatatypeLabel(f.cols[k]) && f.rows[0][k] == Some(Text(s))
      {
        MaskMember(f.rows[0], keep, Some(Text(s)));
      }
      Ok(codes)
  }

  /** The codes can be read exactly when there is a first row and every cell of it under a
      datatype label is text. */
  lemma DatatypeCodesOk(f: Frame)
    requires WellFormed(f)
    ensures DatatypeCodes(f).Ok? <==>
      (|f.rows| > 0
       && forall k :: 0 <= k < |f.cols| && DatatypeLabel(f.cols[k]) ==> f.rows[0][k].Some? && f.rows[0][k].value.Text?)
  {
    if |f.rows| > 0 {
      var keep := MaskOf(f.cols, DatatypeLabel);
      var cells := Mask(f.rows[0], keep);
      forall x ensures x in cells <==> exists k :: 0 <= k < |f.cols| && keep[k] && f.rows[0][k] == x {
        MaskMember(f.rows[0], keep, x);
      }
      assert forall i :: 0 <= i < |cells| ==> cells[i] in cells;
      assert forall k :: 0 <= k < |f.cols| && keep[k] ==> f.rows[0][k] in cells;
    }
  }

  /** One pass of the loop over `list_df_weather[1:]`, with the label filter `keep`: merge on
      `date`, narrow to the kept labels, read the new codes from the merged frame's first row,
      and relabel the narrowed frame with the codes named so far followed by the new ones. */
  function StepWith(merged: Frame, names: seq<string>, df: Frame, keep: string -> bool): (r: Result<Frame>)
    requires WellFormed(merged) && WellFormed(df)
    ensures r.Ok? ==> WellFormed(r.value) && |names| <= |r.value.cols|
    ensures r.Ok? ==> r.value.cols[..|names|] == names
    ensures r.Err? ==>
      (r.fault in {KeyError(DATE), NotUnique(DATE), IndexError, BadLabel}
       || (r.fault.LengthMismatch? && r.fault.axis != r.fault.labels))
  {
    var m :- Merge(merged, df, DATE);
    var filtered := FilterColumns(m, keep);
    var codes :- DatatypeCodes(m);
    assert (names + codes)[..|names|] == names;
    SetLabels(filtered, names + codes)
  }

  /** The loop body as written: the filter is the regular expression alone. */
  function MergeStep(merged: Frame, names: seq<string>, df: Frame): (r: Result<Frame>)
    requires WellFormed(merged) && WellFormed(df)
    ensures r.Ok? ==> WellFormed(r.value) && |names| <= |r.value.cols| && r.value.cols[..|names|] == names
  {
    StepWith(merged, names, df, KeptLabel)
  }

  /** The loop body as intended: the columns already named after a datatype code are kept
      as well, whatever the code looks like. */
  function IntendedStep(merged: Frame, names: seq<string>, df: Frame): (r: Result<Frame>)
    requires WellFormed(merged) && WellFormed(df)
    ensures r.Ok? ==> WellFormed(r.value) && |names| <= |r.value.cols| && r.value.cols[..|names|] == names
  {
    StepWith(merged, names, df, c => c in names || KeptLabel(c))
  }

  /** The loop over the tables from position `k` on; after a pass the running labels are the
      frame's own. */
  function MergeFold(merged: Frame, names: seq<string>, ts: seq<Frame>, k: nat, intended: bool): (r: Result<Frame>)
    requires WellFormed(merged) && forall t :: 0 <= t < |ts| ==> WellFormed(ts[t])
    requires k <= |ts|
    ensures r.Ok? ==> WellFormed(r.value)
    ensures k < |ts| && r.Ok? ==> |names| <= |r.value.cols| && r.value.cols[..|names|] == names
    decreases |ts| - k, 1
  {
    if k == |ts| then Ok(merged) else MergePass(merged, names, ts, k, intended)
  }

  /** One pass of the loop, over table `k`, and then the loop over the tables after it. */
  function MergePass(merged: Frame, names: seq<string>, ts: seq<Frame>, k: nat, intended: bool): (r: Result<Frame>)
    requires WellFormed(merged) && forall t :: 0 <= t < |ts| ==> WellFormed(ts[t])
    requires k < |ts|
    ensures r.Ok? ==> WellFormed(r.value) && |names| <= |r.value.cols| && r.value.cols[..|names|] == names
    decreases |ts| - k, 0
  {
    var next :- if intended then IntendedStep(merged, names, ts[k]) else MergeStep(merged, names, ts[k]);
    var r := MergeFold(next, next.cols, ts, k + 1, intended);
    if r.Ok? && k + 1 < |ts| then
      PrefixOfPrefix(r.value.cols, next.cols, names);
      r
    else r
  }

  /** A prefix of a prefix is a prefix. */
  lemma PrefixOfPrefix(s: seq<string>, a: seq<string>, b: seq<string>)
    requires |a| <= |s| && s[..|a|] == a && |b| <= |a| && a[..|b|] == b
    ensures s[..|b|] == b
  {
    assert s[..|b|] == s[..|a|][..|b|];
  }

  /** The merged weather table `df_filtered`, or the fault on the way to it. An empty list
      fails at `list_df_weather[0]`; with a single table the loop never runs and
      `df_filtered` is read before it is bound. */
  function MergeWeather(weathers: seq<Frame>, intended: bool): (r: Result<Frame>)
    requires forall t :: 0 <= t < |weathers| ==> WellFormed(weathers[t])
    ensures |weathers| == 0 ==> r == Err(IndexError)
    ensures |weathers| == 1 ==> r == Err(Unbound)
    ensures r.Ok? ==> WellFormed(r.value) && |r.value.cols| > 0 && r.value.cols[0] == DATE
  {
    if |weathers| == 0 then Err(IndexError)
    else if |weathers| == 1 then Err(Unbound)
    else
      var r := MergeFold(weathers[0], [DATE], weathers, 1, intended);
      assert r.Ok? ==> r.value.cols[0] == r.value.cols[..1][0];
      r
  }

  /** `pd.to_datetime` on a peak-demand cell, then `dt.hour + dt.minute / 60`: NaN stays NaN,
      a timestamp gives its time of day, text is read as a full ISO timestamp or else as a
      bare time of day. */
  function PeakHour(c: Cell): (r: Result<Cell>)
    ensures r.Ok? ==> (r.value.None? <==> c.None?)
    ensures r.Ok? && r.value.Some? ==> r.value.value.Real? && 0.0 <= r.value.value.r < 24.0
    ensures c.Some? && c.value.Stamp? ==> r == Ok(Some(Real(FractionalHour(c.value.t.hour, c.value.t.minute))))
    ensures c.Some? && c.value.Text? ==>
      (r.Ok? <==> ParseTimestamp(c.value.s).Ok? || ParseClock(c.value.s).Ok?)
    ensures c.Some? && c.value.Text? && ParseTimestamp(c.value.s).Ok? ==>
      var t := ParseTimestamp(c.value.s).value; r == Ok(Some(Real(FractionalHour(t.hour, t.minute))))
    ensures c.Some? && c.value.Text? && ParseTimestamp(c.value.s).Err? && ParseClock(c.value.s).Ok? ==>
      var k := ParseClock(c.value.s).value; r == Ok(Some(Real(FractionalHour(k.hour, k.minute))))
  {
    match c
    case None => Ok(None)
    case Some(v) =>
      match v
      case Stamp(t) => Ok(Some(Real(FractionalHour(t.hour, t.minute))))
      case Text(s) =>
        (match ParseTimestamp(s)
         case Ok(t) => Ok(Some(Real(FractionalHour(t.hour, t.minute))))
         case Err(_) =>
           var k :- ParseClock(s);
           Ok(Some(Real(FractionalHour(k.hour, k.minute)))))
      case Int(_) => Err(ParseError(""))
      case Real(_) => Err(ParseError(""))
  }

  /** `pd.to_datetime(column).dt.month`: NaT gives NaN. */
  function MonthOf(c: Cell): (r: Result<Cell>)
    ensures r.Ok? ==> (r.value.None? <==> c.None?)
    ensures r.Ok? && r.value.Some? ==> r.value.value.Int? && 1 <= r.value.value.i <= 12
    ensures r.Ok? <==> Join.ToDatetime(c).Ok?
    ensures c.Some? && c.value.Text? && r.Ok? ==>
      r.value == Some(Int(ParseTimestamp(c.value.s).value.month))
  {
    var d :- Join.ToDatetime(c);
    match d
    case None => Ok(None)
    case Some(v) => Ok(Some(Int(v.t.month)))
  }

  /** A cell conversion applied down a column; the first failure aborts. */
  function MapCells(cells: seq<Cell>, conv: Cell -> Result<Cell>): (r: Result<seq<Cell>>)
    ensures r.Ok? <==> forall i :: 0 <= i < |cells| ==> conv(cells[i]).Ok?
    ensures r.Ok? ==> |r.value| == |cells| && forall i :: 0 <= i < |cells| ==> conv(cells[i]) == Ok(r.value[i])
  {
    if |cells| == 0 then Ok([])
    else
      var head :- conv(cells[0]);
      var tail :- MapCells(cells[1..], conv);
      assert forall i :: 1 <= i < |cells| ==> cells[i] == cells[1..][i - 1];
      Ok([head] + tail)
  }

  /** `df[c] = conv(df[c])`. */
  function ConvertColumn(f: Frame, c: string, target: string, conv: Cell -> Result<Cell>): (r: Result<Frame>)
    requires WellFormed(f)
    ensures c !in f.cols ==> r == Err(KeyError(c))
    ensures r.Ok? ==> WellFormed(r.value) && |r.value.rows| == |f.rows| && c in f.cols
    ensures r.Ok? ==> r.value.cols == if target in f.cols then f.cols else f.cols + [target]
    ensures r.Ok? ==> forall i :: 0 <= i < |f.rows| ==>
      conv(f.rows[i][IndexOf(f.cols, c).value]) == Ok(r.value.rows[i][IndexOf(r.value.cols, target).value])
    ensures r.Ok? ==> forall i, k :: 0 <= i < |f.rows| && 0 <= k < |f.cols| && f.cols[k] != target ==>
      r.value.rows[i][k] == f.rows[i][k]
  {
    var col :- Column(f, c);
    var out :- MapCells(col, conv);
    Ok(SetColumn(f, target, out))
  }

  /** The derived columns: the peak-demand time becomes a fractional hour in place and the
      month number is added. */
  function AddDerived(f: Frame): (r: Result<Frame>)
    requires WellFormed(f)
    ensures r.Ok? ==> WellFormed(r.value) && |r.value.rows| == |f.rows| && PEAK in f.cols
    ensures r.Ok? ==> forall c :: c in r.value.cols <==> c in f.cols || c == PEAK || c == MONTH
  {
    var withPeak :- ConvertColumn(f, PEAK, PEAK, PeakHour);
    var r := ConvertColumn(withPeak, Join.YEAR_MONTH, MONTH, MonthOf);
    assert r.Ok? ==> r.value.cols == withPeak.cols || r.value.cols == withPeak.cols + [MONTH];
    r
  }

  /** A converted peak-demand cell: missing, or an hour of the day as a fraction. */
  predicate HourCell(c: Cell) {
    c.None? || (c.value.Real? && 0.0 <= c.value.r < 24.0)
  }

  /** A month cell: missing, or a month number. */
  predicate MonthCell(c: Cell) {
    c.None? || (c.value.Int? && 1 <= c.value.i <= 12)
  }

  /** Every row of a frame with the derived columns has an hour of the day under the
      peak-demand label and a month number under the month label. */
  predicate DerivedRows(g: Frame)
    requires WellFormed(g)
  {
    PEAK in g.cols && MONTH in g.cols
    && forall i :: 0 <= i < |g.rows| ==>
      HourCell(g.rows[i][IndexOf(g.cols, PEAK).value]) && MonthCell(g.rows[i][IndexOf(g.cols, MONTH).value])
  }

  /** `g` is `f` without the `dropped` columns and with the derived ones: each row's
      peak-demand cell is the fractional hour of `f`'s, its month cell is the month of
      `f`'s `year-month` cell, and every other cell is `f`'s under the same label. */
  ghost predicate DerivedFrom(f: Frame, dropped: seq<string>, g: Frame)
    requires WellFormed(f) && WellFormed(g)
  {
    PEAK in f.cols && Join.YEAR_MONTH in f.cols && PEAK in g.cols && MONTH in g.cols
    && |g.rows| == |f.rows|
    && (forall c :: c in g.cols <==> (c in f.cols && c !in dropped) || c == MONTH)
    && (forall i :: 0 <= i < |f.rows| ==>
          PeakHour(f.rows[i][IndexOf(f.cols, PEAK).value]) == Ok(g.rows[i][IndexOf(g.cols, PEAK).value]))
    && (forall i :: 0 <= i < |f.rows| ==>
          MonthOf(f.rows[i][IndexOf(f.cols, Join.YEAR_MONTH).value]) == Ok(g.rows[i][IndexOf(g.cols, MONTH).value]))
    && (forall i, c :: 0 <= i < |f.rows| && c in g.cols && c != PEAK && c != MONTH ==>
          g.rows[i][IndexOf(g.cols, c).value] == f.rows[i][IndexOf(f.cols, c).value])
  }

  /** The derived columns hold the converted cells, hours of the day and month numbers, the
      peak-demand column keeping its place; every other cell is unchanged. */
  lemma DerivedCells(f: Frame)
    requires WellFormed(f) && AddDerived(f).Ok?
    ensures WellFormed(AddDerived(f).value) && DerivedRows(AddDerived(f).value)
    ensures IndexOf(AddDerived(f).value.cols, PEAK) == IndexOf(f.cols, PEAK)
    ensures DerivedFrom(f, [], AddDerived(f).value)
  {
    var w := ConvertColumn(f, PEAK, PEAK, PeakHour).value;
    var g := AddDerived(f).value;
    assert g == ConvertColumn(w, Join.YEAR_MONTH, MONTH, MonthOf).value;
    var p := IndexOf(w.cols, PEAK).value;
    var y := IndexOf(w.cols, Join.YEAR_MONTH).value;
    assert w.cols == f.cols;
    forall c | c in f.cols ensures IndexOf(g.cols, c) == IndexOf(f.cols, c) {
      if g.cols != w.cols {
        IndexOfBefore(w.cols, [MONTH], c);
      }
    }
    forall i | 0 <= i < |g.rows|
      ensures HourCell(g.rows[i][p]) && MonthCell(g.rows[i][IndexOf(g.cols, MONTH).value])
      ensures PeakHour(f.rows[i][p]) == Ok(g.rows[i][p])
      ensures MonthOf(f.rows[i][y]) == Ok(g.rows[i][IndexOf(g.cols, MONTH).value])
    {
      assert PeakHour(f.rows[i][p]) == Ok(w.rows[i][p]);
      assert g.rows[i][p] == w.rows[i][p];
      assert w.rows[i][y] == f.rows[i][y];
    }
    forall i, c | 0 <= i < |f.rows| && c in g.cols && c != PEAK && c != MONTH
      ensures g.rows[i][IndexOf(g.cols, c).value] == f.rows[i][IndexOf(f.cols, c).value]
    {
      var k := IndexOf(f.cols, c).value;
      assert g.rows[i][k] == w.rows[i][k];
    }
  }

  /** The steps after the weather merge: join, drop the date columns, then add the derived
      columns. */
  function Finish(weather: Frame, util: Frame): (r: Result<Frame>)
    requires WellFormed(weather) && WellFormed(util)
    ensures r.Ok? ==> WellFormed(r.value)
    ensures r.Ok? ==> PEAK in r.value.cols && MONTH in r.value.cols
    ensures r.Ok? ==> forall c :: c in DROPPED ==> c !in r.value.cols
    ensures r.Ok? ==> JoinedTable(weather, util).Ok? && |r.value.rows| == |JoinedTable(weather, util).value.rows|
  {
    var joined :- JoinedTable(weather, util);
    var dropped :- DropColumns(joined, DROPPED);
    DerivedNotDropped();
    AddDerived(dropped)
  }

  /** The derived columns are not among the dropped ones. */
  lemma DerivedNotDropped()
    ensures PEAK !in DROPPED && MONTH !in DROPPED
  {
  }

  /** The joined table alone, without the mutated inputs the join also returns. */
  function JoinedTable(weather: Frame, util: Frame): (r: Result<Frame>)
    requires WellFormed(weather) && WellFormed(util)
    ensures r.Ok? ==> WellFormed(r.value)
  {
    var joined :- Join.JoinDataframes(weather, util);
    Ok(joined.table)
  }

  /** After the join, every saved row holds the fractional hour of the joined row's peak
      demand, the month of its `year-month`, and its other cells but the three dates. */
  lemma FinishCells(weather: Frame, util: Frame)
    requires WellFormed(weather) && WellFormed(util) && Finish(weather, util).Ok?
    ensures JoinedTable(weather, util).Ok?
    ensures WellFormed(Finish(weather, util).value) && DerivedRows(Finish(weather, util).value)
    ensures DerivedFrom(JoinedTable(weather, util).value, DROPPED, Finish(weather, util).value)
  {
    var joined := JoinedTable(weather, util).value;
    var dropped := DropColumns(joined, DROPPED).value;
    DerivedCells(dropped);
    DroppedThenDerived(joined, dropped, Finish(weather, util).value);
  }

  /** Deriving after dropping: the derived cells read the dropped frame's cells, which are
      the joined frame's under the same labels. */
  lemma DroppedThenDerived(j: Frame, d: Frame, g: Frame)
    requires WellFormed(j) && WellFormed(d) && WellFormed(g)
    requires DropColumns(j, DROPPED) == Ok(d) && DerivedFrom(d, [], g)
    ensures DerivedFrom(j, DROPPED, g)
  {
    forall c ensures c in g.cols <==> (c in j.cols && c !in DROPPED) || c == MONTH {
    }
    forall i | 0 <= i < |j.rows|
      ensures PeakHour(j.rows[i][IndexOf(j.cols, PEAK).value]) == Ok(g.rows[i][IndexOf(g.cols, PEAK).value])
      ensures MonthOf(j.rows[i][IndexOf(j.cols, Join.YEAR_MONTH).value]) == Ok(g.rows[i][IndexOf(g.cols, MONTH).value])
    {
      assert d.rows[i][IndexOf(d.cols, PEAK).value] == j.rows[i][IndexOf(j.cols, PEAK).value];
      assert d.rows[i][IndexOf(d.cols, Join.YEAR_MONTH).value] == j.rows[i][IndexOf(j.cols, Join.YEAR_MONTH).value];
    }
    forall i, c | 0 <= i < |j.rows| && c in g.cols && c != PEAK && c != MONTH
      ensures g.rows[i][IndexOf(g.cols, c).value] == j.rows[i][IndexOf(j.cols, c).value]
    {
      assert c in d.cols;
      assert d.rows[i][IndexOf(d.cols, c).value] == j.rows[i][IndexOf(j.cols, c).value];
    }
  }

  /** `merge_all_df(list_df_weather)` with the utility table it reads passed in. The weather
      loop runs as written when `intended` is false, and with the corrected filter when it
      is true. */
  function MergeAllDf(weathers: seq<Frame>, util: Frame, intended: bool): (r: Result<Frame>)
    requires forall t :: 0 <= t < |weathers| ==> WellFormed(weathers[t])
    requires WellFormed(util)
    ensures |weathers| == 0 ==> r == Err(IndexError)
    ensures |weathers| == 1 ==> r == Err(Unbound)
    ensures r.Ok? ==> WellFormed(r.value) && PEAK in r.value.cols && MONTH in r.value.cols
    ensures r.Ok? ==> forall c :: c in DROPPED ==> c !in r.value.cols
    ensures MergeWeather(weathers, intended).Err? ==> r == Err(MergeWeather(weathers, intended).fault)
  {
    var weather :- MergeWeather(weathers, intended);
    Finish(weather, util)
  }

  /** The whole of `merge_all_df`: the weather loop succeeds, the join succeeds, and every
      row of the result is the joined row with the date columns dropped, the fractional
      hour of its peak demand and the month of its `year-month`. */
  lemma MergeAllDfCells(weathers: seq<Frame>, util: Frame, intended: bool)
    requires forall t :: 0 <= t < |weathers| ==> WellFormed(weathers[t])
    requires WellFormed(util) && MergeAllDf(weathers, util, intended).Ok?
    ensures MergeWeather(weathers, intended).Ok?
    ensures JoinedTable(MergeWeather(weathers, intended).value, util).Ok?
    ensures WellFormed(MergeAllDf(weathers, util, intended).value)
    ensures DerivedRows(MergeAllDf(weathers, util, intended).value)
    ensures DerivedFrom(JoinedTable(MergeWeather(weathers, intended).value, util).value, DROPPED,
                        MergeAllDf(weathers, util, intended).value)
  {
    FinishCells(MergeWeather(weathers, intended).value, util);
  }
}
