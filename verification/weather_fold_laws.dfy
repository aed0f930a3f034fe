/** The whole weather merge of `merge_all_df` (functions/functions_manage_data.py:206-222) on
    NOAA tables, pass by pass: with the intended filter the result holds exactly the dates all
    tables share, each with one value per table; the filter as written gives the same result
    while every running code has four upper-case letters in a row, and otherwise fails the
    relabelling as soon as a further table is merged. */
module WeatherFoldLaws {
  import opened Wrappers
  import opened Seqs
  import opened Frames
  import opened MergeAll
  import opened MergeAllLaws

  /** NOAA tables for the codes, and the running frame after merging the first `k` of them. */
  ghost predicate Stage(m: Frame, ts: seq<Frame>, codes: seq<string>, k: nat) {
    NoaaTables(ts, codes) && Running(m, ts, codes, k)
  }

  lemma Tables(ts: seq<Frame>, codes: seq<string>)
    requires NoaaTables(ts, codes)
    ensures Shaped(ts)
    ensures forall t :: 0 <= t < |ts| ==> NoaaTable(ts[t], codes[t])
  {
  }

  /** A match of `k + 1` tables is a match of the first `k` and one value of the next. */
  lemma UptoNext(ts: seq<Frame>, k: nat, x: Row)
    requires Shaped(ts) && k < |ts| && Upto(ts, k + 1, x)
    ensures Upto(ts, k, x[..k + 1]) && ValueOn(ts[k], x[0], x[k + 1])
  {
  }

  /** The running labels of a stage are the ones a later pass needs. */
  lemma StageLater(m: Frame, ts: seq<Frame>, codes: seq<string>, k: nat)
    requires Stage(m, ts, codes, k) && k < |ts|
    ensures Later(m, codes[..k], ts[k], codes[k])
  {
    assert NoaaTable(ts[k], codes[k]);
    assert PlainCodes(codes[..k]) by {
      forall t | 0 <= t < k ensures PlainCode(codes[..k][t]) {
        assert codes[..k][t] == codes[t];
      }
    }
  }

  /** Extending a stage row by a value of the next table on its date is matching one more
      table. */
  lemma ExtendsUpto(m: Frame, ts: seq<Frame>, codes: seq<string>, k: nat, x: Row)
    requires Stage(m, ts, codes, k) && k < |ts|
    ensures Pair(m, ts[k])
    ensures Extends(m, ts[k], x) <==> Upto(ts, k + 1, x)
  {
    var f := ts[k];
    if Extends(m, f, x) {
      var i, j :| 0 <= i < |m.rows| && 0 <= j < |f.rows| && m.rows[i][0] == f.rows[j][0]
        && x == m.rows[i] + [f.rows[j][4]];
      assert m.rows[i] in m.rows;
      assert Upto(ts, k, m.rows[i]);
      forall t | 0 <= t < k + 1 ensures ValueOn(ts[t], x[0], x[t + 1]) {
        if t < k {
          assert x[t + 1] == m.rows[i][t + 1];
        } else {
          assert f.rows[j][0] == x[0] && f.rows[j][4] == x[k + 1];
        }
      }
    }
    if Upto(ts, k + 1, x) {
      UptoNext(ts, k, x);
      var y := x[..k + 1];
      var i :| 0 <= i < |m.rows| && m.rows[i] == y;
      var j :| 0 <= j < |f.rows| && f.rows[j][0] == x[0] && f.rows[j][4] == x[k + 1];
      assert x == m.rows[i] + [f.rows[j][4]];
    }
  }

  /** When the next table shares no date with the stage, nothing matches all the tables. */
  lemma NoOverlapNoMatch(m: Frame, ts: seq<Frame>, codes: seq<string>, k: nat)
    requires Stage(m, ts, codes, k) && k < |ts|
    requires !Overlap(m, ts[k])
    ensures forall x :: !Upto(ts, |ts|, x)
  {
    forall x | Upto(ts, |ts|, x) ensures false {
      var y := x[..k + 2];
      assert Upto(ts, k + 1, y);
      ExtendsUpto(m, ts, codes, k, y);
    }
  }

  /** The rows after one more pass are the matches of one more table. */
  lemma StageRows(m: Frame, ts: seq<Frame>, codes: seq<string>, k: nat, next: Frame)
    requires Stage(m, ts, codes, k) && k < |ts|
    requires Pair(m, ts[k]) && forall x :: x in next.rows <==> Extends(m, ts[k], x)
    ensures RowsUpto(next.rows, ts, k + 1)
  {
    forall x ensures x in next.rows <==> Upto(ts, k + 1, x) {
      ExtendsUpto(m, ts, codes, k, x);
    }
  }

  /** A shared date gives a row after one more pass. */
  lemma StageNonEmpty(m: Frame, f: Frame, next: Frame)
    requires Pair(m, f) && Overlap(m, f)
    requires forall x :: x in next.rows <==> Extends(m, f, x)
    ensures |next.rows| > 0
  {
    var i, j :| 0 <= i < |m.rows| && 0 <= j < |f.rows| && m.rows[i][0] == f.rows[j][0];
    assert Extends(m, f, m.rows[i] + [f.rows[j][4]]);
  }

  /** The loop run from the frame `m` after `k` tables, `m`'s labels being the names it keeps. */
  function Rest(m: Frame, ts: seq<Frame>, k: nat, intended: bool): (r: Result<Frame>)
    requires WellFormed(m) && Shaped(ts) && k <= |ts|
    ensures k == |ts| ==> r == Ok(m)
  {
    MergeFold(m, m.cols, ts, k, intended)
  }

  /** The loop, one pass unfolded. */
  lemma FoldUnfold(merged: Frame, names: seq<string>, ts: seq<Frame>, k: nat, intended: bool)
    requires WellFormed(merged) && forall t :: 0 <= t < |ts| ==> WellFormed(ts[t])
    requires k < |ts|
    ensures var step := if intended then IntendedStep(merged, names, ts[k]) else MergeStep(merged, names, ts[k]);
      MergeFold(merged, names, ts, k, intended) ==
        if step.Err? then Err(step.fault)
        else MergeFold(step.value, step.value.cols, ts, k + 1, intended)
  {
  }

  /** The loop after the last table. */
  lemma FoldDone(m: Frame, ts: seq<Frame>, codes: seq<string>, k: nat)
    requires Stage(m, ts, codes, k) && k == |ts|
    ensures Rest(m, ts, k, true) == Ok(m)
    ensures m.cols == [DATE] + codes && AnyMatch(ts) && RowsUpto(m.rows, ts, |ts|)
  {
    assert codes[..k] == codes;
    assert m.rows[0] in m.rows;
  }

  /** The loop stops at a table that shares no date with the stage. */
  lemma FoldStop(m: Frame, ts: seq<Frame>, codes: seq<string>, k: nat)
    requires Stage(m, ts, codes, k) && k < |ts| && !Overlap(m, ts[k])
    ensures Rest(m, ts, k, true) == Err(IndexError)
    ensures !AnyMatch(ts)
  {
    FoldUnfold(m, m.cols, ts, k, true);
    StageLater(m, ts, codes, k);
    NextStep(m, codes[..k], ts[k], codes[k]);
    NoOverlapNoMatch(m, ts, codes, k);
  }

  /** A pass over a table that shares a date with the running frame succeeds, and the loop
      goes on from the frame it produced; so does the loop as written while every running code
      matches the regular expression. */
  lemma PassNext(m: Frame, cs: seq<string>, ts: seq<Frame>, k: nat, c: string) returns (next: Frame)
    requires Shaped(ts) && k < |ts| && Later(m, cs, ts[k], c) && Overlap(m, ts[k])
    ensures Passed(m, ts[k], c, next)
    ensures Rest(m, ts, k, true) == Rest(next, ts, k + 1, true)
    ensures (forall j :: 0 <= j < |cs| ==> KeptLabel(cs[j])) ==>
      Rest(m, ts, k, false) == Rest(next, ts, k + 1, false)
  {
    NextStep(m, cs, ts[k], c);
    next := IntendedStep(m, m.cols, ts[k]).value;
    FoldUnfold(m, m.cols, ts, k, true);
    if forall j :: 0 <= j < |cs| ==> KeptLabel(cs[j]) {
      WrittenNextAgrees(m, cs, ts[k], c);
      FoldUnfold(m, m.cols, ts, k, false);
    }
  }

  /** A stage grows by one table through a pass over a table that shares a date with it. */
  lemma StageGrown(m: Frame, ts: seq<Frame>, codes: seq<string>, k: nat, next: Frame)
    requires Stage(m, ts, codes, k) && k < |ts| && Overlap(m, ts[k])
    requires Passed(m, ts[k], codes[k], next)
    ensures Stage(next, ts, codes, k + 1)
  {
    TakeNext(codes, k);
    StageRows(m, ts, codes, k, next);
    StageNonEmpty(m, ts[k], next);
  }

  /** The loop goes on from the next stage at a table that shares a date with the stage. */
  lemma FoldNext(m: Frame, ts: seq<Frame>, codes: seq<string>, k: nat) returns (next: Frame)
    requires Stage(m, ts, codes, k) && k < |ts| && Overlap(m, ts[k])
    ensures Stage(next, ts, codes, k + 1)
    ensures Finishes(next, ts, codes, k + 1) ==> Finishes(m, ts, codes, k)
  {
    StageLater(m, ts, codes, k);
    next := PassNext(m, codes[..k], ts, k, codes[k]);
    StageGrown(m, ts, codes, k, next);
  }

  /** The rest of the loop with the intended filter, run from the stage `m` after `k` tables,
      gives what the whole merge is meant to give. */
  ghost predicate Finishes(m: Frame, ts: seq<Frame>, codes: seq<string>, k: nat)
    requires Stage(m, ts, codes, k)
  {
    Outcome(Rest(m, ts, k, true), ts, codes)
  }

  /** The rest of the loop with the intended filter, from a stage: it fails only when no date
      is shared by all the tables, and otherwise labels the columns `date` and the codes and
      holds exactly the matches of all the tables. */
  lemma {:induction false} FoldShape(m: Frame, ts: seq<Frame>, codes: seq<string>, k: nat)
    requires Stage(m, ts, codes, k)
    ensures Finishes(m, ts, codes, k)
    decreases |ts| - k, 1
  {
    if k == |ts| {
      FoldDone(m, ts, codes, k);
    } else if Overlap(m, ts[k]) {
      FoldOn(m, ts, codes, k);
    } else {
      FoldStop(m, ts, codes, k);
    }
  }

  /** The inductive step: the next table shares a date with the stage. */
  lemma {:induction false} FoldOn(m: Frame, ts: seq<Frame>, codes: seq<string>, k: nat)
    requires Stage(m, ts, codes, k) && k < |ts| && Overlap(m, ts[k])
    ensures Finishes(m, ts, codes, k)
    decreases |ts| - k, 0
  {
    var next := FoldNext(m, ts, codes, k);
    FoldShape(next, ts, codes, k + 1);
  }

  /** The loop as written stops like the intended one at a table that shares no date. */
  lemma WrittenStop(m: Frame, ts: seq<Frame>, codes: seq<string>, k: nat)
    requires Stage(m, ts, codes, k) && k < |ts| && !Overlap(m, ts[k])
    ensures Rest(m, ts, k, false) == Err(IndexError)
  {
    FoldUnfold(m, m.cols, ts, k, false);
    StageLater(m, ts, codes, k);
    NextStep(m, codes[..k], ts[k], codes[k]);
    WrittenNextAgrees(m, codes[..k], ts[k], codes[k]);
  }

  /** The rest of the loop as written, run from the stage `m`, gives what the intended loop
      gives. */
  ghost predicate AsIntended(m: Frame, ts: seq<Frame>, codes: seq<string>, k: nat)
    requires Stage(m, ts, codes, k)
  {
    Rest(m, ts, k, false) == Rest(m, ts, k, true)
  }

  /** From a stage, the loop as written gives the intended result when every code but the
      last matches the regular expression (or no table is left). */
  lemma {:induction false} WrittenAgrees(m: Frame, ts: seq<Frame>, codes: seq<string>, k: nat)
    requires Stage(m, ts, codes, k)
    requires k == |ts| || forall t {:trigger KeptLabel(codes[t])} :: 0 <= t < |ts| - 1 ==> KeptLabel(codes[t])
    ensures AsIntended(m, ts, codes, k)
    decreases |ts| - k, 1
  {
    if k == |ts| {
      FoldDone(m, ts, codes, k);
    } else if Overlap(m, ts[k]) {
      WrittenOn(m, ts, codes, k);
    } else {
      FoldStop(m, ts, codes, k);
      WrittenStop(m, ts, codes, k);
    }
  }

  lemma {:induction false} WrittenOn(m: Frame, ts: seq<Frame>, codes: seq<string>, k: nat)
    requires Stage(m, ts, codes, k) && k < |ts| && Overlap(m, ts[k])
    requires forall t {:trigger KeptLabel(codes[t])} :: 0 <= t < |ts| - 1 ==> KeptLabel(codes[t])
    ensures AsIntended(m, ts, codes, k)
    decreases |ts| - k, 0
  {
    var next := WrittenNext(m, ts, codes, k);
    WrittenAgrees(next, ts, codes, k + 1);
  }

  /** A date shared by all the tables is shared by a stage and the next table. */
  lemma MatchOverlap(m: Frame, ts: seq<Frame>, codes: seq<string>, k: nat)
    requires Stage(m, ts, codes, k) && k < |ts| && AnyMatch(ts)
    ensures Overlap(m, ts[k])
  {
    var x :| Upto(ts, |ts|, x);
    var y := x[..k + 2];
    assert Upto(ts, k + 1, y);
    ExtendsUpto(m, ts, codes, k, y);
  }

  /** The rest of the loop as written, run from the stage `m`, fails the relabelling: fewer
      columns are left than labels are given. */
  ghost predicate Breaks(m: Frame, ts: seq<Frame>, codes: seq<string>, k: nat)
    requires Stage(m, ts, codes, k)
  {
    var r := Rest(m, ts, k, false);
    r.Err? && r.fault.LengthMismatch? && r.fault.axis < r.fault.labels
  }

  /** The pass as written fails once a code of the stage does not match the regular
      expression. */
  lemma BreakHere(m: Frame, ts: seq<Frame>, codes: seq<string>, k: nat)
    requires Stage(m, ts, codes, k) && k < |ts| && Overlap(m, ts[k])
    requires exists t :: 0 <= t < k && !KeptLabel(codes[t])
    ensures Breaks(m, ts, codes, k)
    ensures Rest(m, ts, k, false) == Err(LengthMismatch(KeptCount(m.cols) + 1, |m.cols| + 1))
  {
    StageLater(m, ts, codes, k);
    var t :| 0 <= t < k && !KeptLabel(codes[t]);
    assert codes[..k][t] == codes[t];
    WrittenNextBreaks(m, codes[..k], ts[k], codes[k]);
    FoldUnfold(m, m.cols, ts, k, false);
  }

  /** From a stage, when the tables share a date and some code before the last does not match
      the regular expression, the loop as written fails the relabelling. */
  lemma {:induction false} WrittenBreaks(m: Frame, ts: seq<Frame>, codes: seq<string>, k: nat)
    requires Stage(m, ts, codes, k) && k < |ts| && AnyMatch(ts)
    requires exists t :: 0 <= t < |ts| - 1 && !KeptLabel(codes[t])
    ensures Breaks(m, ts, codes, k)
    decreases |ts| - k, 1
  {
    MatchOverlap(m, ts, codes, k);
    if exists t :: 0 <= t < k && !KeptLabel(codes[t]) {
      BreakHere(m, ts, codes, k);
    } else {
      BreaksLater(m, ts, codes, k);
    }
  }

  lemma {:induction false} BreaksLater(m: Frame, ts: seq<Frame>, codes: seq<string>, k: nat)
    requires Stage(m, ts, codes, k) && k < |ts| && AnyMatch(ts) && Overlap(m, ts[k])
    requires exists t :: 0 <= t < |ts| - 1 && !KeptLabel(codes[t])
    requires forall t :: 0 <= t < k ==> KeptLabel(codes[t])
    ensures Breaks(m, ts, codes, k)
    decreases |ts| - k, 0
  {
    var next := WrittenNext(m, ts, codes, k);
    WrittenBreaks(next, ts, codes, k + 1);
  }

  /** The loop as written goes on from the same next stage as the intended one while the codes
      of the stage match the regular expression: it gives the intended result, or fails the
      relabelling, exactly when it does so from that next stage. */
  lemma WrittenNext(m: Frame, ts: seq<Frame>, codes: seq<string>, k: nat) returns (next: Frame)
    requires Stage(m, ts, codes, k) && k < |ts| && Overlap(m, ts[k])
    requires forall t :: 0 <= t < k ==> KeptLabel(codes[t])
    ensures Stage(next, ts, codes, k + 1)
    ensures AsIntended(next, ts, codes, k + 1) ==> AsIntended(m, ts, codes, k)
    ensures Breaks(next, ts, codes, k + 1) ==> Breaks(m, ts, codes, k)
  {
    StageLater(m, ts, codes, k);
    assert forall t :: 0 <= t < k ==> codes[..k][t] == codes[t];
    next := PassNext(m, codes[..k], ts, k, codes[k]);
    StageGrown(m, ts, codes, k, next);
  }

  // ---------------------------------------------------------------------------------------
  // The whole weather merge

  /** A row of the first pass is a match of the first two tables. */
  lemma PairsUpto(ts: seq<Frame>, x: Row)
    requires Shaped(ts) && 2 <= |ts|
    ensures Pairs(ts[0], ts[1], x) <==> Upto(ts, 2, x)
  {
    var a, b := ts[0], ts[1];
    if Pairs(a, b, x) {
      var i, j :| 0 <= i < |a.rows| && 0 <= j < |b.rows| && a.rows[i][0] == b.rows[j][0]
        && x == [a.rows[i][0], a.rows[i][4], b.rows[j][4]];
      assert ValueOn(a, x[0], x[1]);
      assert ValueOn(b, x[0], x[2]);
    }
    if Upto(ts, 2, x) {
      assert ValueOn(ts[0], x[0], x[0 + 1]) && ValueOn(ts[1], x[0], x[1 + 1]);
      var i :| 0 <= i < |a.rows| && a.rows[i][0] == x[0] && a.rows[i][4] == x[1];
      var j :| 0 <= j < |b.rows| && b.rows[j][0] == x[0] && b.rows[j][4] == x[2];
      assert x == [a.rows[i][0], a.rows[i][4], b.rows[j][4]];
    }
  }

  /** A date shared by all the tables is shared by the first two. */
  lemma MatchFirstOverlap(ts: seq<Frame>, x: Row)
    requires Shaped(ts) && 2 <= |ts| && Upto(ts, |ts|, x)
    ensures Overlap(ts[0], ts[1])
  {
    var y := x[..3];
    assert Upto(ts, 2, y);
    PairsUpto(ts, y);
    var a, b := ts[0], ts[1];
    var i, j :| 0 <= i < |a.rows| && 0 <= j < |b.rows| && a.rows[i][0] == b.rows[j][0]
      && y == [a.rows[i][0], a.rows[i][4], b.rows[j][4]];
  }

  /** When the first two tables share a date, the first pass gives the stage after two tables
      and the loop, with either filter, goes on from it. */
  lemma FirstStage(ts: seq<Frame>, codes: seq<string>) returns (m: Frame)
    requires NoaaTables(ts, codes) && 2 <= |ts| && Overlap(ts[0], ts[1])
    ensures Stage(m, ts, codes, 2)
    ensures MergeWeather(ts, true) == Rest(m, ts, 2, true)
    ensures MergeWeather(ts, false) == Rest(m, ts, 2, false)
  {
    Tables(ts, codes);
    var first := IntendedStep(ts[0], [DATE], ts[1]);
    assert first.Ok? && first.value.cols == [DATE, codes[0], codes[1]] && WellFormed(first.value)
        && forall x :: x in first.value.rows <==> Pairs(ts[0], ts[1], x) by {
      FirstStep(ts[0], codes[0], ts[1], codes[1]);
    }
    m := first.value;
    assert MergeWeather(ts, true) == Rest(m, ts, 2, true) by {
      FoldUnfold(ts[0], [DATE], ts, 1, true);
    }
    assert MergeWeather(ts, false) == Rest(m, ts, 2, false) by {
      FirstStep(ts[0], codes[0], ts[1], codes[1]);
      FoldUnfold(ts[0], [DATE], ts, 1, false);
    }
    FirstRunning(ts, codes, m);
  }

  /** The frame of the first pass, when the first two tables share a date, is the stage after
      two tables. */
  lemma FirstRunning(ts: seq<Frame>, codes: seq<string>, m: Frame)
    requires NoaaTables(ts, codes) && Shaped(ts) && 2 <= |ts| && Overlap(ts[0], ts[1])
    requires m.cols == [DATE, codes[0], codes[1]] && WellFormed(m)
    requires forall x :: x in m.rows <==> Pairs(ts[0], ts[1], x)
    ensures Stage(m, ts, codes, 2)
  {
    forall x ensures x in m.rows <==> Upto(ts, 2, x) {
      PairsUpto(ts, x);
    }
    assert codes[..2] == [codes[0], codes[1]];
    var a, b := ts[0], ts[1];
    var i, j :| 0 <= i < |a.rows| && 0 <= j < |b.rows| && a.rows[i][0] == b.rows[j][0];
    assert Pairs(a, b, [a.rows[i][0], a.rows[i][4], b.rows[j][4]]);
  }

  /** When the first two tables share no date, both loops fail reading the codes and nothing
      matches all the tables. */
  lemma FirstNoMatch(ts: seq<Frame>, codes: seq<string>)
    requires NoaaTables(ts, codes) && 2 <= |ts| && !Overlap(ts[0], ts[1])
    ensures MergeWeather(ts, true) == Err(IndexError) && MergeWeather(ts, false) == Err(IndexError)
    ensures !AnyMatch(ts)
  {
    Tables(ts, codes);
    FirstStep(ts[0], codes[0], ts[1], codes[1]);
    FoldUnfold(ts[0], [DATE], ts, 1, true);
    FoldUnfold(ts[0], [DATE], ts, 1, false);
    forall x | Upto(ts, |ts|, x) ensures false {
      MatchFirstOverlap(ts, x);
    }
  }

  /** The weather merge with the intended filter on NOAA tables: no table is an `IndexError`,
      one table leaves the merged frame unbound, and from two tables on the merge fails exactly
      when no date is shared by all of them, and otherwise labels the columns `date` and the
      codes in table order and holds exactly the rows matching every table. */
  lemma MergeWeatherNoaa(ts: seq<Frame>, codes: seq<string>)
    requires NoaaTables(ts, codes)
    ensures Shaped(ts)
    ensures |ts| == 0 ==> MergeWeather(ts, true) == Err(IndexError)
    ensures |ts| == 1 ==> MergeWeather(ts, true) == Err(Unbound)
    ensures |ts| >= 2 ==> Outcome(MergeWeather(ts, true), ts, codes)
  {
    Tables(ts, codes);
    if |ts| >= 2 {
      if Overlap(ts[0], ts[1]) {
        var m := FirstStage(ts, codes);
        FoldShape(m, ts, codes, 2);
      } else {
        FirstNoMatch(ts, codes);
      }
    }
  }

  /** The weather merge as written gives the intended result when every code but the last
      has four upper-case letters in a row. */
  lemma MergeWeatherWrittenAgrees(ts: seq<Frame>, codes: seq<string>)
    requires NoaaTables(ts, codes)
    requires forall t :: 0 <= t < |ts| - 1 ==> KeptLabel(codes[t])
    ensures MergeWeather(ts, false) == MergeWeather(ts, true)
  {
    if |ts| >= 2 {
      if Overlap(ts[0], ts[1]) {
        var m := FirstStage(ts, codes);
        WrittenAgrees(m, ts, codes, 2);
      } else {
        FirstNoMatch(ts, codes);
      }
    }
  }

  /** The weather merge as written fails the relabelling when the tables share a date and a
      code before the last lacks four upper-case letters in a row, where the intended merge
      succeeds. */
  lemma MergeWeatherWrittenBreaks(ts: seq<Frame>, codes: seq<string>)
    requires NoaaTables(ts, codes) && 3 <= |ts|
    requires Shaped(ts) && AnyMatch(ts)
    requires exists t :: 0 <= t < |ts| - 1 && !KeptLabel(codes[t])
    ensures MergeWeather(ts, true).Ok?
    ensures var r := MergeWeather(ts, false);
      r.Err? && r.fault.LengthMismatch? && r.fault.axis < r.fault.labels
  {
    Tables(ts, codes);
    var x :| Upto(ts, |ts|, x);
    MatchFirstOverlap(ts, x);
    var m := FirstStage(ts, codes);
    FoldShape(m, ts, codes, 2);
    WrittenBreaks(m, ts, codes, 2);
  }

  /** One flattened NOAA row: the date, the code, no station or attributes, and the value. */
  function NoaaRow(d: string, code: string, v: int): Row {
    [Some(Text(d)), Some(Text(code)), None, None, Some(Int(v))]
  }

  /** Three one-row tables on the same day, for `TAVG`, `DX90` and `PRCP`. */
  function Dx90Tables(): seq<Frame> {
    [Frame(NOAA_COLS, [NoaaRow("2023-01-01", "TAVG", 5)]),
     Frame(NOAA_COLS, [NoaaRow("2023-01-01", "DX90", 0)]),
     Frame(NOAA_COLS, [NoaaRow("2023-01-01", "PRCP", 3)])]
  }

  const DX90_CODES: seq<string> := ["TAVG", "DX90", "PRCP"]

  /** The day the three tables share, with their three values. */
  const DX90_ROW: Row := [Some(Text("2023-01-01")), Some(Int(5)), Some(Int(0)), Some(Int(3))]

  lemma Dx90Shape()
    ensures NoaaTables(Dx90Tables(), DX90_CODES) && Upto(Dx90Tables(), 3, DX90_ROW)
  {
    var ts, x := Dx90Tables(), DX90_ROW;
    assert NoaaTables(ts, DX90_CODES);
    forall t | 0 <= t < 3 ensures ValueOn(ts[t], x[0], x[t + 1]) {
      assert ts[t].rows[0][0] == x[0] && ts[t].rows[0][4] == x[t + 1];
    }
  }

  lemma Dx90Labels()
    ensures [DATE] + DX90_CODES[..2] == ["date", "TAVG", "DX90"]
    ensures [DATE] + DX90_CODES == ["date", "TAVG", "DX90", "PRCP"]
    ensures !KeptLabel(DX90_CODES[1])
    ensures KeptCount(["date", "TAVG", "DX90"]) == 2
  {
    assert KeptLabel("date") && KeptLabel("TAVG") && !KeptLabel("DX90");
    assert MaskOf(["date", "TAVG", "DX90"], KeptLabel) == [true, true, false];
    assert CountTrue([true, true, false]) == 2;
  }

  /** The code `DX90` has a digit where the regular expression wants a fourth upper-case
      letter: once it is a running label, the filter as written drops its column and the
      third pass has three columns for four labels, while the intended merge keeps the day. */
  lemma Dx90Breaks()
    ensures MergeWeather(Dx90Tables(), false) == Err(LengthMismatch(3, 4))
    ensures var r := MergeWeather(Dx90Tables(), true);
      r.Ok? && r.value.cols == ["date", "TAVG", "DX90", "PRCP"] && DX90_ROW in r.value.rows
  {
    Dx90Written();
    Dx90Intended(Dx90Tables());
  }

  /** `merge_all_df` as written on the three tables stops in the weather loop, whatever the
      utility table holds. */
  lemma MergeAllDfDx90(util: Frame)
    requires WellFormed(util)
    ensures NoaaTables(Dx90Tables(), DX90_CODES)
    ensures MergeAllDf(Dx90Tables(), util, false) == Err(LengthMismatch(3, 4))
  {
    Dx90Shape();
    Dx90Written();
  }

  lemma Dx90Intended(ts: seq<Frame>)
    requires ts == Dx90Tables()
    ensures var r := MergeWeather(ts, true);
      r.Ok? && r.value.cols == ["date", "TAVG", "DX90", "PRCP"] && DX90_ROW in r.value.rows
  {
    var codes := DX90_CODES;
    Dx90Shape();
    Dx90Labels();
    assert AnyMatch(ts);
    MergeWeatherNoaa(ts, codes);
  }

  lemma Dx90Written()
    ensures MergeWeather(Dx90Tables(), false) == Err(LengthMismatch(3, 4))
  {
    Dx90Shape();
    Dx90Labels();
    ThirdPassBreaks(Dx90Tables(), DX90_CODES, DX90_ROW);
  }

  /** With a shared day and one of the first two codes missed by the regular expression, the
      loop as written fails at the third table: the filter keeps `date`, the codes it matches
      and the new value, for four labels. */
  lemma ThirdPassBreaks(ts: seq<Frame>, codes: seq<string>, x: Row)
    requires NoaaTables(ts, codes) && Shaped(ts) && 3 <= |ts| && Upto(ts, |ts|, x)
    requires !KeptLabel(codes[0]) || !KeptLabel(codes[1])
    ensures MergeWeather(ts, false) == Err(LengthMismatch(KeptCount([DATE] + codes[..2]) + 1, 4))
  {
    MatchFirstOverlap(ts, x);
    var m := FirstStage(ts, codes);
    assert Overlap(m, ts[2]) by {
      MatchOverlap(m, ts, codes, 2);
    }
    assert exists t :: 0 <= t < 2 && !KeptLabel(codes[t]) by {
      if !KeptLabel(codes[0]) {
        assert 0 <= 0 < 2 && !KeptLabel(codes[0]);
      } else {
        assert 0 <= 1 < 2 && !KeptLabel(codes[1]);
      }
    }
    BreakHere(m, ts, codes, 2);
  }
}
