/** What the weather merge of `merge_all_df` (functions/functions_manage_data.py:206-222)
    computes when every weather table has the layout of a flattened NOAA response: with the
    intended label filter, the rows are exactly the dates every table has a value for; with the
    filter as written, a code without four upper-case letters in a row breaks the relabelling. */
module MergeAllLaws {
  import opened Wrappers
  import opened Seqs
  import opened Frames
  import opened MergeLaws
  import opened MergeAll

  /** The columns of one flattened NOAA response, in order. */
  const NOAA_COLS: seq<string> := ["date", "datatype", "station", "attributes", "value"]

  /** The NOAA columns after the merge key. */
  const NOAA_TAIL: seq<string> := ["datatype", "station", "attributes", "value"]

  /** The labels of the first merge, where both sides have the NOAA columns. */
  const FIRST_LABELS: seq<string> :=
    ["date", "datatype_x", "station_x", "attributes_x", "value_x",
     "datatype_y", "station_y", "attributes_y", "value_y"]

  /** Every table has the NOAA columns. */
  predicate Shaped(ts: seq<Frame>) {
    forall t :: 0 <= t < |ts| ==> ts[t].cols == NOAA_COLS && WellFormed(ts[t])
  }

  /** A weather table for one datatype code: the NOAA columns, every row naming the code. */
  predicate NoaaTable(f: Frame, code: string) {
    f.cols == NOAA_COLS && WellFormed(f)
    && forall i :: 0 <= i < |f.rows| ==> f.rows[i][1] == Some(Text(code))
  }

  /** A datatype code that is neither a NOAA column label nor caught by the `datatype` filter. */
  predicate PlainCode(c: string) {
    c !in NOAA_COLS && !DatatypeLabel(c)
  }

  predicate PlainCodes(cs: seq<string>) {
    forall k :: 0 <= k < |cs| ==> PlainCode(cs[k])
  }

  /** One NOAA table per code, in order. */
  predicate NoaaTables(ts: seq<Frame>, codes: seq<string>) {
    |ts| == |codes| && PlainCodes(codes) && forall t :: 0 <= t < |ts| ==> NoaaTable(ts[t], codes[t])
  }

  /** Table `f` has a row dated `d` whose value is `v`. */
  predicate ValueOn(f: Frame, d: Cell, v: Cell)
    requires f.cols == NOAA_COLS && WellFormed(f)
  {
    exists i :: 0 <= i < |f.rows| && f.rows[i][0] == d && f.rows[i][4] == v
  }

  /** `x` is a date followed, table by table, by the value of one of that table's rows on
      that date: the rows the merged weather table is meant to hold. */
  predicate Matches(ts: seq<Frame>, x: Row)
    requires Shaped(ts)
  {
    |x| == |ts| + 1 && forall t :: 0 <= t < |ts| ==> ValueOn(ts[t], x[0], x[t + 1])
  }

  /** `x` is a date followed by one value of each of the first `k` tables on that date. */
  predicate Upto(ts: seq<Frame>, k: nat, x: Row)
    requires Shaped(ts) && k <= |ts|
  {
    |x| == k + 1 && forall t :: 0 <= t < k ==> ValueOn(ts[t], x[0], x[t + 1])
  }

  /** Some row matches all the tables. */
  ghost predicate AnyMatch(ts: seq<Frame>)
    requires Shaped(ts)
  {
    exists x :: Upto(ts, |ts|, x)
  }

  /** The rows are exactly the matches of the first `k` tables. */
  ghost predicate RowsUpto(rows: seq<Row>, ts: seq<Frame>, k: nat)
    requires Shaped(ts) && k <= |ts|
  {
    forall x :: x in rows <==> Upto(ts, k, x)
  }

  /** The running frame after merging the first `k` of the tables `ts` with the intended filter:
      `date` and the first `k` codes as labels, and as rows exactly the matches of those tables. */
  ghost predicate Running(m: Frame, ts: seq<Frame>, codes: seq<string>, k: nat)
    requires Shaped(ts)
  {
    && 2 <= k <= |ts| && k <= |codes|
    && m.cols == [DATE] + codes[..k] && WellFormed(m) && |m.rows| > 0
    && RowsUpto(m.rows, ts, k)
  }

  /** What the weather merge is meant to give: a failure exactly when nothing matches all the
      tables, and otherwise `date` and the codes as labels and the matches as rows. */
  ghost predicate Outcome(r: Result<Frame>, ts: seq<Frame>, codes: seq<string>)
    requires Shaped(ts)
  {
    && (r.Ok? <==> AnyMatch(ts))
    && (r.Err? ==> r == Err(IndexError))
    && (r.Ok? ==> r.value.cols == [DATE] + codes && RowsUpto(r.value.rows, ts, |ts|))
  }

  /** A running frame `m` with at least one label, and a table `f` with the NOAA columns. */
  predicate Pair(m: Frame, f: Frame) {
    WellFormed(m) && |m.cols| > 0 && f.cols == NOAA_COLS && WellFormed(f)
  }

  /** Every merged row has the running cells and the four NOAA cells after the date. */
  predicate Wide(m: Frame, f: Frame)
    requires Pair(m, f)
  {
    forall k :: 0 <= k < |JoinRows(m.rows, 0, f.rows, 0)| ==> |JoinRows(m.rows, 0, f.rows, 0)[k]| == |m.cols| + 4
  }

  /** Some row of `m` and some row of `f` share their date (column 0 on both sides). */
  predicate Overlap(m: Frame, f: Frame)
    requires Pair(m, f)
  {
    exists i, j :: 0 <= i < |m.rows| && 0 <= j < |f.rows| && m.rows[i][0] == f.rows[j][0]
  }

  /** `x` is a row of `m` followed by the value of a row of `f` on the same date. */
  predicate Extends(m: Frame, f: Frame, x: Row)
    requires Pair(m, f)
  {
    exists i, j :: 0 <= i < |m.rows| && 0 <= j < |f.rows| && m.rows[i][0] == f.rows[j][0]
      && x == m.rows[i] + [f.rows[j][4]]
  }

  /** `next` is `m` after a pass over the table `f` of code `c`: one more label, and as rows
      exactly the extensions of the rows of `m` by a value of `f` on the same date. */
  ghost predicate Passed(m: Frame, f: Frame, c: string, next: Frame) {
    && Pair(m, f) && next.cols == m.cols + [c] && WellFormed(next)
    && forall x :: x in next.rows <==> Extends(m, f, x)
  }

  /** The rows a filter keeping the first `n` columns and the last of four more leaves. */
  function NarrowRows(rows: seq<Row>, n: nat): (r: seq<Row>)
    requires forall i :: 0 <= i < |rows| ==> |rows[i]| == n + 4
    ensures |r| == |rows|
  {
    seq(|rows|, i requires 0 <= i < |rows| => rows[i][..n] + [rows[i][n + 3]])
  }

  // ---------------------------------------------------------------------------------------
  // Masks and labels of a merge with a NOAA table

  lemma QuadMasks<T>(y: seq<T>)
    requires |y| == 4
    ensures Mask(y, [false, false, false, true]) == [y[3]]
    ensures Mask(y, [true, false, false, false]) == [y[0]]
  {
    assert y[1..][1..] == y[2..];
    assert y[2..][1..] == y[3..];
    assert Mask(y[3..], [true]) == [y[3]];
    assert Mask(y[3..], [false]) == [];
    assert Mask(y[2..], [false, true]) == [y[3]];
    assert Mask(y[2..], [false, false]) == [];
    assert Mask(y[1..], [false, false, true]) == [y[3]];
    assert Mask(y[1..], [false, false, false]) == [];
  }

  /** Keeping the first `n` entries and then only the last of four. */
  lemma TailMask<T>(x: seq<T>, n: nat, keep: seq<bool>)
    requires |x| == n + 4 && |keep| == n + 4
    requires forall k :: 0 <= k < n ==> keep[k]
    requires keep[n..] == [false, false, false, true]
    ensures Mask(x, keep) == x[..n] + [x[n + 3]]
  {
    assert x == x[..n] + x[n..];
    assert keep == keep[..n] + keep[n..];
    MaskAppend(x[..n], keep[..n], x[n..], keep[n..]);
    MaskAll(x[..n], keep[..n]);
    QuadMasks(x[n..]);
  }

  /** Dropping the first `n` entries and keeping only the first of four more. */
  lemma HeadMask<T>(x: seq<T>, n: nat, keep: seq<bool>)
    requires |x| == n + 4 && |keep| == n + 4
    requires forall k :: 0 <= k < n ==> !keep[k]
    requires keep[n..] == [true, false, false, false]
    ensures Mask(x, keep) == [x[n]]
  {
    assert x == x[..n] + x[n..];
    assert keep == keep[..n] + keep[n..];
    MaskAppend(x[..n], keep[..n], x[n..], keep[n..]);
    MaskNone(x[..n], keep[..n]);
    QuadMasks(x[n..]);
  }

  // How the two filters treat each NOAA label and each label of the first merge, one label
  // at a time.

  lemma LabelDate()
    ensures KeptLabel("date") && !DatatypeLabel("date")
  {
  }

  lemma LabelDatatype()
    ensures !KeptLabel("datatype") && DatatypeLabel("datatype")
  {
  }

  lemma LabelStation()
    ensures !KeptLabel("station") && !DatatypeLabel("station")
  {
  }

  lemma LabelAttributes()
    ensures !KeptLabel("attributes") && !DatatypeLabel("attributes")
  {
  }

  lemma LabelValue()
    ensures KeptLabel("value") && !DatatypeLabel("value")
  {
  }

  lemma LabelDatatypeX()
    ensures !KeptLabel("datatype_x") && DatatypeLabel("datatype_x")
  {
  }

  lemma LabelStationX()
    ensures !KeptLabel("station_x") && !DatatypeLabel("station_x")
  {
  }

  lemma LabelAttributesX()
    ensures !KeptLabel("attributes_x") && !DatatypeLabel("attributes_x")
  {
  }

  lemma LabelValueX()
    ensures KeptLabel("value_x") && !DatatypeLabel("value_x")
  {
  }

  lemma LabelDatatypeY()
    ensures !KeptLabel("datatype_y") && DatatypeLabel("datatype_y")
  {
  }

  lemma LabelStationY()
    ensures !KeptLabel("station_y") && !DatatypeLabel("station_y")
  {
  }

  lemma LabelAttributesY()
    ensures !KeptLabel("attributes_y") && !DatatypeLabel("attributes_y")
  {
  }

  lemma LabelValueY()
    ensures KeptLabel("value_y") && !DatatypeLabel("value_y")
  {
  }

  /** How the two label filters treat the NOAA labels. */
  lemma NoaaLabels()
    ensures KeptLabel("date") && !KeptLabel("datatype") && !KeptLabel("station")
    ensures !KeptLabel("attributes") && KeptLabel("value")
    ensures !DatatypeLabel("date") && DatatypeLabel("datatype") && !DatatypeLabel("station")
    ensures !DatatypeLabel("attributes") && !DatatypeLabel("value")
  {
    LabelDate();
    LabelDatatype();
    LabelStation();
    LabelAttributes();
    LabelValue();
  }

  /** The running labels `[date] + cs` share only `date` with the NOAA labels. */
  lemma RunningLabels(cs: seq<string>)
    requires PlainCodes(cs)
    ensures forall c :: c in [DATE] + cs && c in NOAA_COLS ==> c == DATE
    ensures forall c :: c in NOAA_TAIL ==> c !in [DATE] + cs
    ensures UniqueLabel([DATE] + cs, DATE) && IndexOf([DATE] + cs, DATE) == Some(0)
    ensures forall k :: 0 <= k < |[DATE] + cs| ==> !DatatypeLabel(([DATE] + cs)[k])
  {
    NoaaLabels();
    forall c | c in [DATE] + cs && c != DATE ensures c !in NOAA_COLS {
      var k :| 0 <= k < |cs| && cs[k] == c;
      assert PlainCode(cs[k]);
    }
  }

  // ---------------------------------------------------------------------------------------
  // A later pass of the loop: the running frame has labels `[date] + cs`

  /** The running frame `m` is labelled `[date] + cs` and `f` is the NOAA table for `c`. */
  predicate Later(m: Frame, cs: seq<string>, f: Frame, c: string) {
    m.cols == [DATE] + cs && WellFormed(m) && PlainCodes(cs) && NoaaTable(f, c)
  }

  /** Merging the running frame with a NOAA table appends the NOAA columns after `date`. */
  lemma NextMerge(m: Frame, cs: seq<string>, f: Frame, c: string)
    requires Later(m, cs, f, c)
    ensures Merge(m, f, DATE) == Ok(Frame(m.cols + NOAA_TAIL, JoinRows(m.rows, 0, f.rows, 0)))
  {
    RunningLabels(cs);
    assert IndexOf(f.cols, DATE) == Some(0);
    assert UniqueLabel(f.cols, DATE);
    MergedLabelsDisjoint(m.cols, NOAA_COLS, 0);
    assert NOAA_COLS[..0] == [] && NOAA_COLS[1..] == NOAA_TAIL;
    assert m.cols + NOAA_COLS[..0] + NOAA_COLS[1..] == m.cols + NOAA_TAIL;
    assert MergedLabels(m.cols, f.cols, 0) == m.cols + NOAA_TAIL;
  }

  /** A filter that keeps every running column, drops `datatype`, `station` and `attributes`
      and keeps `value` narrows each merged row to the running cells and the new value. */
  lemma NextFilter(mm: Frame, n: nat, p: string -> bool)
    requires WellFormed(mm) && |mm.cols| == n + 4 && mm.cols[n..] == NOAA_TAIL
    requires forall k :: 0 <= k < n ==> p(mm.cols[k])
    requires !p("datatype") && !p("station") && !p("attributes") && p("value")
    ensures FilterColumns(mm, p) == Frame(mm.cols[..n] + ["value"], NarrowRows(mm.rows, n))
  {
    var keep := MaskOf(mm.cols, p);
    assert keep[n..] == [false, false, false, true];
    TailMask(mm.cols, n, keep);
    forall i | 0 <= i < |mm.rows| ensures Mask(mm.rows[i], keep) == NarrowRows(mm.rows, n)[i] {
      TailMask(mm.rows[i], n, keep);
    }
  }

  /** The `datatype` filter on the merged frame finds the one `datatype` column, so the codes
      read from row 0 are the new table's code. */
  lemma NextCodes(mm: Frame, n: nat, c: string)
    requires WellFormed(mm) && |mm.cols| == n + 4 && mm.cols[n..] == NOAA_TAIL
    requires forall k :: 0 <= k < n ==> !DatatypeLabel(mm.cols[k])
    requires |mm.rows| > 0 && mm.rows[0][n] == Some(Text(c))
    ensures DatatypeCodes(mm) == Ok([c])
  {
    var keep := MaskOf(mm.cols, DatatypeLabel);
    NoaaLabels();
    assert keep[n..] == [true, false, false, false];
    HeadMask(mm.rows[0], n, keep);
    assert Mask(mm.rows[0], keep) == [Some(Text(c))];
    SingleLabel(c);
  }

  lemma SingleLabel(c: string)
    ensures Labels([Some(Text(c))]) == Ok([c])
  {
    assert [Some(Text(c))][1..] == [];
    assert Labels([]) == Ok([]);
    assert [c] + [] == [c];
  }

  /** A merged row is a running row followed by the NOAA cells after the date. */
  lemma NextJoined(m: Frame, f: Frame, x: Row)
    requires Pair(m, f)
    ensures x in JoinRows(m.rows, 0, f.rows, 0) <==>
      exists i, j :: 0 <= i < |m.rows| && 0 <= j < |f.rows| && m.rows[i][0] == f.rows[j][0]
        && x == m.rows[i] + f.rows[j][1..]
  {
    JoinRowsMember(m.rows, 0, f.rows, 0, x);
    forall i, j | 0 <= i < |m.rows| && 0 <= j < |f.rows|
      ensures Combine(m.rows[i], f.rows[j], 0) == m.rows[i] + f.rows[j][1..]
    {
    }
  }

  /** Narrowing a joined row keeps the running row and the value. */
  lemma NarrowJoined(a: Row, b: Row)
    requires |b| == 5
    ensures (a + b[1..])[..|a|] + [(a + b[1..])[|a| + 3]] == a + [b[4]]
  {
    assert (a + b[1..])[..|a|] == a;
  }

  /** The narrowed merged rows are exactly the extensions of running rows by a value. */
  lemma NextRows(m: Frame, f: Frame, x: Row)
    requires Pair(m, f)
    requires Wide(m, f)
    ensures x in NarrowRows(JoinRows(m.rows, 0, f.rows, 0), |m.cols|) <==> Extends(m, f, x)
  {
    if x in NarrowRows(JoinRows(m.rows, 0, f.rows, 0), |m.cols|) {
      NarrowedExtends(m, f, x);
    }
    if Extends(m, f, x) {
      ExtendsNarrowed(m, f, x);
    }
  }

  lemma NarrowedExtends(m: Frame, f: Frame, x: Row)
    requires Pair(m, f)
    requires Wide(m, f)
    requires x in NarrowRows(JoinRows(m.rows, 0, f.rows, 0), |m.cols|)
    ensures Extends(m, f, x)
  {
    var js := JoinRows(m.rows, 0, f.rows, 0);
    var n := |m.cols|;
    var k :| 0 <= k < |js| && NarrowRows(js, n)[k] == x;
    assert js[k] in js;
    NextJoined(m, f, js[k]);
    var i, j :| 0 <= i < |m.rows| && 0 <= j < |f.rows| && m.rows[i][0] == f.rows[j][0]
      && js[k] == m.rows[i] + f.rows[j][1..];
    NarrowJoined(m.rows[i], f.rows[j]);
    assert x == m.rows[i] + [f.rows[j][4]];
  }

  lemma ExtendsNarrowed(m: Frame, f: Frame, x: Row)
    requires Pair(m, f)
    requires Wide(m, f)
    requires Extends(m, f, x)
    ensures x in NarrowRows(JoinRows(m.rows, 0, f.rows, 0), |m.cols|)
  {
    var js := JoinRows(m.rows, 0, f.rows, 0);
    var n := |m.cols|;
    var i, j :| 0 <= i < |m.rows| && 0 <= j < |f.rows| && m.rows[i][0] == f.rows[j][0]
      && x == m.rows[i] + [f.rows[j][4]];
    var y := m.rows[i] + f.rows[j][1..];
    NextJoined(m, f, y);
    var k :| 0 <= k < |js| && js[k] == y;
    NarrowJoined(m.rows[i], f.rows[j]);
    assert NarrowRows(js, n)[k] == x;
  }

  /** The merge has rows exactly when the running frame and the table share a date. */
  lemma NextOverlap(m: Frame, f: Frame)
    requires Pair(m, f)
    ensures |JoinRows(m.rows, 0, f.rows, 0)| > 0 <==> Overlap(m, f)
  {
    var js := JoinRows(m.rows, 0, f.rows, 0);
    if |js| > 0 {
      NextJoined(m, f, js[0]);
    }
    if Overlap(m, f) {
      var i, j :| 0 <= i < |m.rows| && 0 <= j < |f.rows| && m.rows[i][0] == f.rows[j][0];
      NextJoined(m, f, m.rows[i] + f.rows[j][1..]);
    }
  }

  /** The intended filter on the merged frame of a later pass. */
  lemma IntendedFilter(m: Frame, cs: seq<string>, rows: seq<Row>)
    requires m.cols == [DATE] + cs && PlainCodes(cs)
    requires WellFormed(Frame(m.cols + NOAA_TAIL, rows))
    ensures FilterColumns(Frame(m.cols + NOAA_TAIL, rows), c => c in m.cols || KeptLabel(c))
         == Frame(m.cols + ["value"], NarrowRows(rows, |m.cols|))
  {
    RunningLabels(cs);
    NoaaLabels();
    var mm := Frame(m.cols + NOAA_TAIL, rows);
    assert mm.cols[..|m.cols|] == m.cols && mm.cols[|m.cols|..] == NOAA_TAIL;
    NextFilter(mm, |m.cols|, c => c in m.cols || KeptLabel(c));
  }

  /** The codes read in a later pass with at least one merged row. */
  lemma NextCode(m: Frame, cs: seq<string>, f: Frame, c: string)
    requires Later(m, cs, f, c)
    requires WellFormed(Frame(m.cols + NOAA_TAIL, JoinRows(m.rows, 0, f.rows, 0)))
    requires |JoinRows(m.rows, 0, f.rows, 0)| > 0
    ensures DatatypeCodes(Frame(m.cols + NOAA_TAIL, JoinRows(m.rows, 0, f.rows, 0))) == Ok([c])
  {
    var js := JoinRows(m.rows, 0, f.rows, 0);
    var mm := Frame(m.cols + NOAA_TAIL, js);
    var n := |m.cols|;
    NextJoined(m, f, js[0]);
    var i, j :| 0 <= i < |m.rows| && 0 <= j < |f.rows| && m.rows[i][0] == f.rows[j][0]
      && js[0] == m.rows[i] + f.rows[j][1..];
    assert js[0][n] == f.rows[j][1];
    RunningLabels(cs);
    assert mm.cols[..n] == m.cols && mm.cols[n..] == NOAA_TAIL;
    NextCodes(mm, n, c);
  }

  /** Every merged row of a later pass has the running cells and four NOAA cells. */
  lemma NextWidth(m: Frame, f: Frame)
    requires Pair(m, f)
    ensures Wide(m, f)
  {
    var js := JoinRows(m.rows, 0, f.rows, 0);
    JoinRowsWidth(m.rows, 0, f.rows, 0, |m.cols|, 5);
    assert forall k :: 0 <= k < |js| ==> js[k] in js;
  }

  /** The result of a later pass with the intended filter, computed. */
  lemma NextStepValue(m: Frame, cs: seq<string>, f: Frame, c: string)
    requires Later(m, cs, f, c)
    requires Pair(m, f) && Wide(m, f)
    ensures IntendedStep(m, m.cols, f) ==
        if |JoinRows(m.rows, 0, f.rows, 0)| == 0 then Err(IndexError)
        else Ok(Frame(m.cols + [c], NarrowRows(JoinRows(m.rows, 0, f.rows, 0), |m.cols|)))
  {
    IntendedIsStep(m, m.cols, f);
    NextParts(m, cs, f, c);
  }

  /** The intended loop body is a pass whose filter keeps the running labels as well. */
  lemma IntendedIsStep(merged: Frame, names: seq<string>, df: Frame)
    requires WellFormed(merged) && WellFormed(df)
    ensures IntendedStep(merged, names, df) == StepWith(merged, names, df, l => l in names || KeptLabel(l))
  {
  }

  /** A later pass with the intended filter, from the merged frame, what the filter keeps of
      it and the codes read from its first row. */
  lemma NextParts(m: Frame, cs: seq<string>, f: Frame, c: string)
    requires Later(m, cs, f, c)
    requires Pair(m, f) && Wide(m, f)
    ensures StepWith(m, m.cols, f, l => l in m.cols || KeptLabel(l)) ==
        if |JoinRows(m.rows, 0, f.rows, 0)| == 0 then Err(IndexError)
        else Ok(Frame(m.cols + [c], NarrowRows(JoinRows(m.rows, 0, f.rows, 0), |m.cols|)))
  {
    if |JoinRows(m.rows, 0, f.rows, 0)| == 0 {
      NextNoRows(m, cs, f, c, l => l in m.cols || KeptLabel(l));
    } else {
      NextSomeRows(m, cs, f, c);
    }
  }

  /** A later pass that shares no date fails reading the codes, whatever its filter. */
  lemma NextNoRows(m: Frame, cs: seq<string>, f: Frame, c: string, keep: string -> bool)
    requires Later(m, cs, f, c) && |JoinRows(m.rows, 0, f.rows, 0)| == 0
    ensures StepWith(m, m.cols, f, keep) == Err(IndexError)
  {
    NextMerge(m, cs, f, c);
    var mm := Frame(m.cols + NOAA_TAIL, JoinRows(m.rows, 0, f.rows, 0));
    StepValue(m, m.cols, f, keep, mm, FilterColumns(mm, keep), []);
  }

  /** A later pass with the intended filter and a shared date keeps the running columns and
      the new value, under the running labels and the new code. */
  lemma NextSomeRows(m: Frame, cs: seq<string>, f: Frame, c: string)
    requires Later(m, cs, f, c)
    requires Pair(m, f) && Wide(m, f) && |JoinRows(m.rows, 0, f.rows, 0)| > 0
    ensures StepWith(m, m.cols, f, l => l in m.cols || KeptLabel(l)) ==
        Ok(Frame(m.cols + [c], NarrowRows(JoinRows(m.rows, 0, f.rows, 0), |m.cols|)))
  {
    var js := JoinRows(m.rows, 0, f.rows, 0);
    var keep, mm, narrow := l => l in m.cols || KeptLabel(l), Frame(m.cols + NOAA_TAIL, js),
                            Frame(m.cols + ["value"], NarrowRows(js, |m.cols|));
    assert StepParts(m, m.cols, f, keep, mm, narrow, [c]) by {
      NextMerge(m, cs, f, c);
      IntendedFilter(m, cs, js);
      NextCode(m, cs, f, c);
    }
    StepValue(m, m.cols, f, keep, mm, narrow, [c]);
  }

  /** A later pass with the intended filter: it fails only when no date is shared, and
      otherwise appends the new code to the labels and, to every running row, the value of
      each row of the new table on the same date. */
  lemma NextStep(m: Frame, cs: seq<string>, f: Frame, c: string)
    requires Later(m, cs, f, c)
    ensures var r := IntendedStep(m, m.cols, f);
      && (r.Ok? <==> Overlap(m, f))
      && (r.Err? ==> r == Err(IndexError))
      && (r.Ok? ==> r.value.cols == m.cols + [c])
      && (r.Ok? ==> forall x :: x in r.value.rows <==> Extends(m, f, x))
  {
    NextWidth(m, f);
    NextStepValue(m, cs, f, c);
    NextOverlap(m, f);
    forall x ensures x in NarrowRows(JoinRows(m.rows, 0, f.rows, 0), |m.cols|) <==> Extends(m, f, x) {
      NextRows(m, f, x);
    }
  }

  /** Two filters that agree on every label narrow a frame alike. */
  lemma FilterAgree(f: Frame, p: string -> bool, q: string -> bool)
    requires WellFormed(f)
    requires forall k :: 0 <= k < |f.cols| ==> p(f.cols[k]) == q(f.cols[k])
    ensures FilterColumns(f, p) == FilterColumns(f, q)
  {
    assert MaskOf(f.cols, p) == MaskOf(f.cols, q);
  }

  /** With every running code matching the regular expression, the written filter and the
      intended one narrow the merged frame of a later pass alike. */
  lemma WrittenFilterAgrees(m: Frame, cs: seq<string>, rows: seq<Row>)
    requires m.cols == [DATE] + cs && PlainCodes(cs)
    requires forall k :: 0 <= k < |cs| ==> KeptLabel(cs[k])
    requires WellFormed(Frame(m.cols + NOAA_TAIL, rows))
    ensures FilterColumns(Frame(m.cols + NOAA_TAIL, rows), KeptLabel)
         == FilterColumns(Frame(m.cols + NOAA_TAIL, rows), c => c in m.cols || KeptLabel(c))
  {
    var mm := Frame(m.cols + NOAA_TAIL, rows);
    RunningLabels(cs);
    NoaaLabels();
    forall k | 0 <= k < |mm.cols|
      ensures KeptLabel(mm.cols[k]) == (mm.cols[k] in m.cols || KeptLabel(mm.cols[k]))
    {
      if 0 < k < |m.cols| {
        assert mm.cols[k] == cs[k - 1];
      }
    }
    FilterAgree(mm, KeptLabel, c => c in m.cols || KeptLabel(c));
  }

  /** A later pass as written behaves as intended when every running code matches the
      regular expression, or when there is no shared date (both then fail alike). */
  lemma WrittenNextAgrees(m: Frame, cs: seq<string>, f: Frame, c: string)
    requires Later(m, cs, f, c)
    requires (forall k :: 0 <= k < |cs| ==> KeptLabel(cs[k])) || !Overlap(m, f)
    ensures MergeStep(m, m.cols, f) == IntendedStep(m, m.cols, f)
  {
    NextMerge(m, cs, f, c);
    NextOverlap(m, f);
    var mm := Frame(m.cols + NOAA_TAIL, JoinRows(m.rows, 0, f.rows, 0));
    if forall k :: 0 <= k < |cs| ==> KeptLabel(cs[k]) {
      WrittenFilterAgrees(m, cs, mm.rows);
    }
    StepsAgree(m, m.cols, f, mm);
  }

  /** The two loop bodies agree when their filters keep the same columns of the merged
      frame, or when the merged frame has no row to read the codes from. */
  lemma StepsAgree(merged: Frame, names: seq<string>, df: Frame, mm: Frame)
    requires WellFormed(merged) && WellFormed(df) && Merge(merged, df, DATE) == Ok(mm)
    requires |mm.rows| == 0 || FilterColumns(mm, KeptLabel) == FilterColumns(mm, c => c in names || KeptLabel(c))
    ensures MergeStep(merged, names, df) == IntendedStep(merged, names, df)
  {
  }

  /** The number of labels the written filter keeps among the merged frame's labels. */
  lemma WrittenWidth(m: Frame, cs: seq<string>, rows: seq<Row>)
    requires m.cols == [DATE] + cs && PlainCodes(cs)
    requires WellFormed(Frame(m.cols + NOAA_TAIL, rows))
    ensures |FilterColumns(Frame(m.cols + NOAA_TAIL, rows), KeptLabel).cols|
         == KeptCount(m.cols) + 1
  {
    NoaaLabels();
    MaskOfAppend(m.cols, NOAA_TAIL, KeptLabel);
    assert MaskOf(NOAA_TAIL, KeptLabel) == [false, false, false, true];
    MaskAppend(m.cols, MaskOf(m.cols, KeptLabel), NOAA_TAIL, MaskOf(NOAA_TAIL, KeptLabel));
    QuadMasks(NOAA_TAIL);
  }

  /** A later pass as written with at least one merged row: the narrowed frame is relabelled
      with the running labels and the new code. */
  lemma WrittenStepValue(m: Frame, cs: seq<string>, f: Frame, c: string)
    requires Later(m, cs, f, c) && |JoinRows(m.rows, 0, f.rows, 0)| > 0
    ensures WellFormed(Frame(m.cols + NOAA_TAIL, JoinRows(m.rows, 0, f.rows, 0)))
    ensures MergeStep(m, m.cols, f) ==
      SetLabels(FilterColumns(Frame(m.cols + NOAA_TAIL, JoinRows(m.rows, 0, f.rows, 0)), KeptLabel), m.cols + [c])
  {
    NextMerge(m, cs, f, c);
    NextCode(m, cs, f, c);
  }

  /** The number of labels of `cols` the written filter keeps. */
  function KeptCount(cols: seq<string>): nat {
    CountTrue(MaskOf(cols, KeptLabel))
  }

  /** A running code the regular expression misses is a label the written filter drops. */
  lemma CodeDropped(cols: seq<string>, cs: seq<string>)
    requires cols == [DATE] + cs
    requires exists k :: 0 <= k < |cs| && !KeptLabel(cs[k])
    ensures KeptCount(cols) < |cols|
  {
    var k :| 0 <= k < |cs| && !KeptLabel(cs[k]);
    assert !MaskOf(cols, KeptLabel)[k + 1];
  }

  /** A later pass as written, once a running code does not match the regular expression:
      the filter drops that code's column, so there is one label fewer than the running codes
      and the new one, and the relabelling fails. */
  lemma WrittenNextBreaks(m: Frame, cs: seq<string>, f: Frame, c: string)
    requires Later(m, cs, f, c) && Overlap(m, f)
    requires exists k :: 0 <= k < |cs| && !KeptLabel(cs[k])
    ensures KeptCount(m.cols) < |m.cols|
    ensures MergeStep(m, m.cols, f) == Err(LengthMismatch(KeptCount(m.cols) + 1, |m.cols| + 1))
  {
    CodeDropped(m.cols, cs);
    WrittenParts(m, cs, f, c);
  }

  /** A later pass as written with a shared date relabels the narrowed merged frame, which
      keeps one column more than the running codes the regular expression matches; with a
      running code it misses, the labels do not fit. */
  lemma WrittenParts(m: Frame, cs: seq<string>, f: Frame, c: string)
    requires Later(m, cs, f, c) && Overlap(m, f)
    ensures var mm := Frame(m.cols + NOAA_TAIL, JoinRows(m.rows, 0, f.rows, 0));
      WellFormed(mm)
      && MergeStep(m, m.cols, f) == SetLabels(FilterColumns(mm, KeptLabel), m.cols + [c])
      && |FilterColumns(mm, KeptLabel).cols| == KeptCount(m.cols) + 1
    ensures KeptCount(m.cols) < |m.cols| ==>
      MergeStep(m, m.cols, f) == Err(LengthMismatch(KeptCount(m.cols) + 1, |m.cols| + 1))
  {
    var js := JoinRows(m.rows, 0, f.rows, 0);
    NextOverlap(m, f);
    WrittenStepValue(m, cs, f, c);
    WrittenWidth(m, cs, js);
    var g := FilterColumns(Frame(m.cols + NOAA_TAIL, js), KeptLabel);
    if KeptCount(m.cols) < |m.cols| {
      WrittenRelabel(MergeStep(m, m.cols, f), g, m.cols, c, KeptCount(m.cols));
    }
  }

  /** Relabelling with the running labels and one new code fails when the narrowed frame
      kept fewer of the running labels than there are. */
  lemma WrittenRelabel(r: Result<Frame>, g: Frame, cols: seq<string>, c: string, kept: nat)
    requires WellFormed(g) && r == SetLabels(g, cols + [c])
    requires |g.cols| == kept + 1 && kept < |cols|
    ensures r == Err(LengthMismatch(kept + 1, |cols| + 1))
  {
  }

  // ---------------------------------------------------------------------------------------
  // The first pass: both sides are NOAA tables

  /** The columns the filter keeps in the first pass: `date`, `value_x` and `value_y`. */
  const FIRST_KEEP: seq<bool> := [true, false, false, false, true, false, false, false, true]

  /** The columns the `datatype` filter finds in the first pass: `datatype_x` and `datatype_y`. */
  const FIRST_CODES: seq<bool> := [false, true, false, false, false, true, false, false, false]

  lemma SuffixedLabel(c: string, others: seq<string>, s: string)
    requires c in others && c != DATE
    ensures Suffixed(c, DATE, others, s) == c + s
  {
  }

  /** Both sides carry the NOAA columns, so every label but `date` gets a suffix. */
  lemma FirstLabels()
    ensures MergedLabels(NOAA_COLS, NOAA_COLS, 0) == FIRST_LABELS
  {
    var rest := NOAA_COLS[..0] + NOAA_COLS[1..];
    assert rest == NOAA_TAIL;
    forall k | 1 <= k < 5 ensures Suffixed(NOAA_COLS[k], DATE, rest, "_x") == NOAA_COLS[k] + "_x" {
      SuffixedLabel(NOAA_COLS[k], rest, "_x");
    }
    forall k | 0 <= k < 4 ensures Suffixed(rest[k], DATE, NOAA_COLS, "_y") == rest[k] + "_y" {
      SuffixedLabel(rest[k], NOAA_COLS, "_y");
    }
    assert "datatype" + "_x" == "datatype_x" && "datatype" + "_y" == "datatype_y";
    assert "station" + "_x" == "station_x" && "station" + "_y" == "station_y";
    assert "attributes" + "_x" == "attributes_x" && "attributes" + "_y" == "attributes_y";
    assert "value" + "_x" == "value_x" && "value" + "_y" == "value_y";
  }

  lemma FirstLabel(k: nat)
    requires k < 9
    ensures KeptLabel(FIRST_LABELS[k]) == FIRST_KEEP[k]
    ensures DatatypeLabel(FIRST_LABELS[k]) == FIRST_CODES[k]
  {
      if k == 0 { LabelDate(); }
      else if k == 1 { LabelDatatypeX(); }
      else if k == 2 { LabelStationX(); }
      else if k == 3 { LabelAttributesX(); }
      else if k == 4 { LabelValueX(); }
      else if k == 5 { LabelDatatypeY(); }
      else if k == 6 { LabelStationY(); }
      else if k == 7 { LabelAttributesY(); }
      else { LabelValueY(); }
  }

  /** The regular expression keeps `date` and the two value columns of the first merge. */
  lemma FirstKeep()
    ensures MaskOf(FIRST_LABELS, KeptLabel) == FIRST_KEEP
  {
    forall k | 0 <= k < 9 ensures MaskOf(FIRST_LABELS, KeptLabel)[k] == FIRST_KEEP[k] {
      FirstLabel(k);
    }
  }

  /** The `datatype` filter finds the two datatype columns of the first merge. */
  lemma FirstCodeMask()
    ensures MaskOf(FIRST_LABELS, DatatypeLabel) == FIRST_CODES
  {
    forall k | 0 <= k < 9 ensures MaskOf(FIRST_LABELS, DatatypeLabel)[k] == FIRST_CODES[k] {
      FirstLabel(k);
    }
  }

  /** The intended filter keeps the same columns of the first merge: only `date` is named. */
  lemma FirstKeepIntended()
    ensures MaskOf(FIRST_LABELS, c => c in [DATE] || KeptLabel(c)) == FIRST_KEEP
  {
    forall k | 0 <= k < 9
      ensures MaskOf(FIRST_LABELS, c => c in [DATE] || KeptLabel(c))[k] == FIRST_KEEP[k]
    {
      FirstLabel(k);
    }
  }

  /** A first-merge row is `date`, then the four columns of each table. */
  lemma NineSplit<T>(x: seq<T>)
    requires |x| == 9
    ensures x == x[..1] + x[1..5] + x[5..]
  {
  }

  lemma KeepSplit<T>(x: seq<T>)
    requires |x| == 9
    ensures Mask(x, FIRST_KEEP) ==
      Mask(x[..1] + x[1..5] + x[5..], [true] + [false, false, false, true] + [false, false, false, true])
  {
    NineSplit(x);
    assert FIRST_KEEP == [true] + [false, false, false, true] + [false, false, false, true];
  }

  lemma CodeSplit<T>(x: seq<T>)
    requires |x| == 9
    ensures Mask(x, FIRST_CODES) ==
      Mask(x[..1] + x[1..5] + x[5..], [false] + [true, false, false, false] + [true, false, false, false])
  {
    NineSplit(x);
    assert FIRST_CODES == [false] + [true, false, false, false] + [true, false, false, false];
  }

  lemma KeepPieces<T>(a: seq<T>, b: seq<T>, c: seq<T>)
    requires |a| == 1 && |b| == 4 && |c| == 4
    ensures Mask(a + b + c, [true] + [false, false, false, true] + [false, false, false, true])
         == [a[0], b[3], c[3]]
  {
    MaskAppend3(a, [true], b, [false, false, false, true], c, [false, false, false, true]);
    assert Mask(a, [true]) == [a[0]] by { MaskAll(a, [true]); }
    assert Mask(b, [false, false, false, true]) == [b[3]] by { QuadMasks(b); }
    assert Mask(c, [false, false, false, true]) == [c[3]] by { QuadMasks(c); }
  }

  lemma CodePieces<T>(a: seq<T>, b: seq<T>, c: seq<T>)
    requires |a| == 1 && |b| == 4 && |c| == 4
    ensures Mask(a + b + c, [false] + [true, false, false, false] + [true, false, false, false])
         == [b[0], c[0]]
  {
    MaskAppend3(a, [false], b, [true, false, false, false], c, [true, false, false, false]);
    assert Mask(a, [false]) == [] by { MaskNone(a, [false]); }
    assert Mask(b, [true, false, false, false]) == [b[0]] by { QuadMasks(b); }
    assert Mask(c, [true, false, false, false]) == [c[0]] by { QuadMasks(c); }
  }

  /** The first filter keeps the date and the two values. */
  lemma NineKeep<T>(x: seq<T>)
    requires |x| == 9
    ensures Mask(x, FIRST_KEEP) == [x[0], x[4], x[8]]
  {
    KeepSplit(x);
    KeepPieces(x[..1], x[1..5], x[5..]);
  }

  /** The `datatype` filter finds the two datatype columns. */
  lemma NineCodes<T>(x: seq<T>)
    requires |x| == 9
    ensures Mask(x, FIRST_CODES) == [x[1], x[5]]
  {
    CodeSplit(x);
    CodePieces(x[..1], x[1..5], x[5..]);
  }

  /** The rows of the first pass: the date and the two values of each merged row. */
  function FirstRows(rows: seq<Row>): (r: seq<Row>)
    requires forall i :: 0 <= i < |rows| ==> |rows[i]| == 9
    ensures |r| == |rows|
  {
    seq(|rows|, i requires 0 <= i < |rows| => [rows[i][0], rows[i][4], rows[i][8]])
  }

  /** `x` pairs a row of `a` with a row of `b` on the same date: date, value of `a`, value
      of `b`. */
  predicate Pairs(a: Frame, b: Frame, x: Row)
    requires a.cols == NOAA_COLS && WellFormed(a) && b.cols == NOAA_COLS && WellFormed(b)
  {
    exists i, j :: 0 <= i < |a.rows| && 0 <= j < |b.rows| && a.rows[i][0] == b.rows[j][0]
      && x == [a.rows[i][0], a.rows[i][4], b.rows[j][4]]
  }

  /** The first merge, computed. */
  lemma FirstMerge(a: Frame, c0: string, b: Frame, c1: string)
    requires NoaaTable(a, c0) && NoaaTable(b, c1)
    ensures var js := JoinRows(a.rows, 0, b.rows, 0);
      Merge(a, b, DATE) == Ok(Frame(FIRST_LABELS, js)) && forall k :: 0 <= k < |js| ==> |js[k]| == 9
  {
    assert IndexOf(NOAA_COLS, DATE) == Some(0);
    assert UniqueLabel(NOAA_COLS, DATE);
    FirstLabels();
    NextWidth(a, b);
  }

  /** A filter keeping `date` and the two value columns narrows each first-merge row to its
      date and the two values. */
  lemma FirstFilter(labels: seq<string>, rows: seq<Row>, p: string -> bool)
    requires |labels| == 9 && forall k :: 0 <= k < |rows| ==> |rows[k]| == 9
    requires MaskOf(labels, p) == FIRST_KEEP
    ensures FilterColumns(Frame(labels, rows), p) == Frame([labels[0], labels[4], labels[8]], FirstRows(rows))
  {
    NineKeep(labels);
    forall i | 0 <= i < |rows| ensures Mask(rows[i], FIRST_KEEP) == FirstRows(rows)[i] {
      NineKeep(rows[i]);
    }
  }

  /** A pass from its parts: the merged frame, what the filter keeps of it and the codes
      read from its first row; with no merged row reading the codes fails. */
  lemma StepValue(merged: Frame, names: seq<string>, df: Frame, keep: string -> bool, mm: Frame,
                  narrow: Frame, codes: seq<string>)
    ensures StepParts(merged, names, df, keep, mm, narrow, codes) ==>
      StepWith(merged, names, df, keep) ==
        if |mm.rows| == 0 then Err(IndexError) else Ok(Frame(names + codes, narrow.rows))
  {
  }

  /** `mm` is the merge of a pass, `narrow` what its filter keeps and `codes` the codes read
      from its first row, which fit the labels. */
  predicate StepParts(merged: Frame, names: seq<string>, df: Frame, keep: string -> bool, mm: Frame,
                      narrow: Frame, codes: seq<string>)
  {
    && WellFormed(merged) && WellFormed(df)
    && Merge(merged, df, DATE) == Ok(mm) && FilterColumns(mm, keep) == narrow
    && (|mm.rows| > 0 ==> DatatypeCodes(mm) == Ok(codes) && |names + codes| == |narrow.cols|)
  }

  /** The first pass with a filter that keeps `date` and the two values, computed from the
      merge and the codes it reads. */
  lemma FirstStepWith(a: Frame, b: Frame, labels: seq<string>, js: seq<Row>, c0: string, c1: string,
                      p: string -> bool)
    requires WellFormed(a) && WellFormed(b) && |labels| == 9
    requires (forall k :: 0 <= k < |js| ==> |js[k]| == 9) && Merge(a, b, DATE) == Ok(Frame(labels, js))
    requires |js| > 0 ==> DatatypeCodes(Frame(labels, js)) == Ok([c0, c1])
    requires FilterColumns(Frame(labels, js), p) == Frame([labels[0], labels[4], labels[8]], FirstRows(js))
    ensures StepWith(a, [DATE], b, p) ==
      if |js| == 0 then Err(IndexError) else Ok(Frame([DATE, c0, c1], FirstRows(js)))
  {
    StepValue(a, [DATE], b, p, Frame(labels, js), Frame([labels[0], labels[4], labels[8]], FirstRows(js)), [c0, c1]);
    assert [DATE] + [c0, c1] == [DATE, c0, c1];
  }

  /** The first pass with either filter, computed: both filters agree on the first merge. */
  lemma FirstStepValue(a: Frame, c0: string, b: Frame, c1: string)
    requires NoaaTable(a, c0) && NoaaTable(b, c1)
    ensures var js := JoinRows(a.rows, 0, b.rows, 0);
      && (forall k :: 0 <= k < |js| ==> |js[k]| == 9)
      && MergeStep(a, [DATE], b) == IntendedStep(a, [DATE], b)
      && MergeStep(a, [DATE], b) ==
        if |js| == 0 then Err(IndexError) else Ok(Frame([DATE, c0, c1], FirstRows(js)))
  {
    var js := JoinRows(a.rows, 0, b.rows, 0);
    FirstMerge(a, c0, b, c1);
    if |js| > 0 {
      FirstCodes(a, c0, b, c1);
    }
    assert FilterColumns(Frame(FIRST_LABELS, js), KeptLabel) == Frame([DATE, "value_x", "value_y"], FirstRows(js)) by {
      FirstKeep();
      FirstFilter(FIRST_LABELS, js, KeptLabel);
    }
    assert FilterColumns(Frame(FIRST_LABELS, js), c => c in [DATE] || KeptLabel(c))
        == Frame([DATE, "value_x", "value_y"], FirstRows(js)) by {
      FirstKeepIntended();
      FirstFilter(FIRST_LABELS, js, c => c in [DATE] || KeptLabel(c));
    }
    FirstStepWith(a, b, FIRST_LABELS, js, c0, c1, KeptLabel);
    FirstStepWith(a, b, FIRST_LABELS, js, c0, c1, c => c in [DATE] || KeptLabel(c));
  }

  /** The codes read in the first pass are the two tables' codes. */
  lemma FirstCodes(a: Frame, c0: string, b: Frame, c1: string)
    requires NoaaTable(a, c0) && NoaaTable(b, c1)
    requires var js := JoinRows(a.rows, 0, b.rows, 0); |js| > 0 && forall k :: 0 <= k < |js| ==> |js[k]| == 9
    ensures DatatypeCodes(Frame(FIRST_LABELS, JoinRows(a.rows, 0, b.rows, 0))) == Ok([c0, c1])
  {
    var js := JoinRows(a.rows, 0, b.rows, 0);
    NextJoined(a, b, js[0]);
    var i, j :| 0 <= i < |a.rows| && 0 <= j < |b.rows| && a.rows[i][0] == b.rows[j][0]
      && js[0] == a.rows[i] + b.rows[j][1..];
    assert js[0][1] == Some(Text(c0)) && js[0][5] == Some(Text(c1));
    FirstCodeMask();
    NineCodes(js[0]);
    TwoLabels(c0, c1);
  }

  lemma TwoLabels(c0: string, c1: string)
    ensures Labels([Some(Text(c0)), Some(Text(c1))]) == Ok([c0, c1])
  {
    SingleLabel(c1);
    assert [Some(Text(c0)), Some(Text(c1))][1..] == [Some(Text(c1))];
    assert [c0] + [c1] == [c0, c1];
  }

  /** The two sides of a first merge. */
  predicate FirstPair(a: Frame, b: Frame) {
    Pair(a, b) && a.cols == NOAA_COLS && Wide(a, b)
  }

  /** A first-pass row is a date shared by the two tables, with one value of each on it. */
  lemma FirstPaired(a: Frame, b: Frame, x: Row)
    requires FirstPair(a, b)
    requires x in FirstRows(JoinRows(a.rows, 0, b.rows, 0))
    ensures Pairs(a, b, x)
  {
    var js := JoinRows(a.rows, 0, b.rows, 0);
    var k :| 0 <= k < |js| && FirstRows(js)[k] == x;
    assert js[k] in js;
    NextJoined(a, b, js[k]);
    var i, j :| 0 <= i < |a.rows| && 0 <= j < |b.rows| && a.rows[i][0] == b.rows[j][0]
      && js[k] == a.rows[i] + b.rows[j][1..];
    assert x == [a.rows[i][0], a.rows[i][4], b.rows[j][4]];
  }

  lemma PairedFirst(a: Frame, b: Frame, x: Row)
    requires FirstPair(a, b)
    requires Pairs(a, b, x)
    ensures x in FirstRows(JoinRows(a.rows, 0, b.rows, 0))
  {
    var js := JoinRows(a.rows, 0, b.rows, 0);
    var i, j :| 0 <= i < |a.rows| && 0 <= j < |b.rows| && a.rows[i][0] == b.rows[j][0]
      && x == [a.rows[i][0], a.rows[i][4], b.rows[j][4]];
    var y := a.rows[i] + b.rows[j][1..];
    NextJoined(a, b, y);
    var k :| 0 <= k < |js| && js[k] == y;
    assert FirstRows(js)[k] == x;
  }

  lemma FirstRowsExact(a: Frame, b: Frame)
    requires FirstPair(a, b)
    ensures forall x :: x in FirstRows(JoinRows(a.rows, 0, b.rows, 0)) <==> Pairs(a, b, x)
  {
    forall x ensures x in FirstRows(JoinRows(a.rows, 0, b.rows, 0)) <==> Pairs(a, b, x) {
      if x in FirstRows(JoinRows(a.rows, 0, b.rows, 0)) {
        FirstPaired(a, b, x);
      }
      if Pairs(a, b, x) {
        PairedFirst(a, b, x);
      }
    }
  }

  /** The first pass: the filter as written and the intended one agree; the pass fails only
      when the two tables share no date, and otherwise labels the columns `date` and the two
      codes and holds exactly the date-value-value triples the two tables agree on. */
  lemma FirstStep(a: Frame, c0: string, b: Frame, c1: string)
    requires NoaaTable(a, c0) && NoaaTable(b, c1)
    ensures var r := IntendedStep(a, [DATE], b);
      && MergeStep(a, [DATE], b) == r
      && (r.Ok? <==> Overlap(a, b))
      && (r.Err? ==> r == Err(IndexError))
      && (r.Ok? ==> r.value.cols == [DATE, c0, c1])
      && (r.Ok? ==> forall x :: x in r.value.rows <==> Pairs(a, b, x))
  {
    FirstStepValue(a, c0, b, c1);
    NextOverlap(a, b);
    NextWidth(a, b);
    FirstRowsExact(a, b);
  }
}
