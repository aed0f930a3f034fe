/** `tidy_data` (functions/functions_manage_data.py:126-189): every fiscal-year sheet of the
    utility workbook lists one variable per sheet row and one billing period per sheet column.
    Each sheet is transposed, narrowed to the five variables the project uses, relabelled in
    snake case and stripped of its header row; the sheets are stacked and incomplete rows dropped.
    Reading the workbook and writing the CSV are outside the model: a workbook is a map from
    sheet name to the block of cells `read_excel` returns. */
module Tidy {
  import opened Wrappers
  import opened Seqs
  import opened Frames

  /** An unlabelled block of cells, as `read_excel(header=None)` returns it. */
  datatype Grid = Grid(width: nat, rows: seq<Row>)

  /** Every row of the block has `width` cells. */
  predicate Rectangular(g: Grid) {
    forall i :: 0 <= i < |g.rows| ==> |g.rows[i]| == g.width
  }

  /** The sheets read, `FY13` to `FY23`, in this order. */
  const SHEETS: seq<string> :=
    ["FY13", "FY14", "FY15", "FY16", "FY17", "FY18", "FY19", "FY20", "FY21", "FY22", "FY23"]

  /** The sheet headers of the variables kept. */
  const USEFUL_HEADERS: seq<string> :=
    ["Start Read Date", "End Read Date", "Time of Peak Demand", "Total Cons. (kwh)",
     "Total Monthly Electricity Cost"]

  /** The labels given, by position, to the kept columns. */
  const TIDY_LABELS: seq<string> :=
    ["start_read_date", "end_read_date", "total_consumption", "time_of_peak_demand", "total_cost"]

  /** `notnull()` on a header cell. */
  predicate Present(c: Cell) {
    c.Some?
  }

  /** `isin(useful_cols)` on a header cell. */
  predicate Useful(c: Cell) {
    c.Some? && c.value.Text? && c.value.s in USEFUL_HEADERS
  }

  /** Column `j` of the block, top to bottom. */
  function SheetColumn(g: Grid, j: nat): (col: seq<Cell>)
    requires Rectangular(g) && j < g.width
    ensures |col| == |g.rows|
  {
    seq(|g.rows|, i requires 0 <= i < |g.rows| => g.rows[i][j])
  }

  /** `df.T`: row `j` of the result is column `j` of the block. */
  function Transpose(g: Grid): (t: Grid)
    requires Rectangular(g)
    ensures Rectangular(t) && t.width == |g.rows| && |t.rows| == g.width
    ensures forall j, i :: 0 <= j < g.width && 0 <= i < |g.rows| ==> t.rows[j][i] == g.rows[i][j]
  {
    Grid(|g.rows|, seq(g.width, j requires 0 <= j < g.width => SheetColumn(g, j)))
  }

  /** The body of the first loop for one sheet: transpose, then keep the columns whose header
      cell (the first transposed row) is present. `iloc[0, :]` on a transposed block without
      rows is an `IndexError`. */
  function KeepPresent(g: Grid): (r: Result<Grid>)
    requires Rectangular(g)
    ensures r.Err? <==> g.width == 0
    ensures r.Err? ==> r.fault == IndexError
    ensures r.Ok? ==> Rectangular(r.value) && |r.value.rows| == g.width
    ensures r.Ok? ==> forall k :: 0 <= k < r.value.width ==> r.value.rows[0][k].Some?
  {
    var t := Transpose(g);
    if |t.rows| == 0 then Err(IndexError)
    else
      var keep := MaskOf(t.rows[0], Present);
      MaskOfKeeps(t.rows[0], Present);
      var header := Mask(t.rows[0], keep);
      assert forall k :: 0 <= k < |header| ==> header[k] in header;
      Ok(Grid(CountTrue(keep), seq(|t.rows|, j requires 0 <= j < |t.rows| => Mask(t.rows[j], keep))))
  }

  /** The body of the second loop for one transposed sheet: keep the columns with a useful
      header, relabel them by position (a `LengthMismatch` unless exactly five are kept) and
      drop the header row. The result is the sheet's data rows under `TIDY_LABELS`. */
  function KeepUseful(t: Grid): (r: Result<seq<Row>>)
    requires Rectangular(t) && |t.rows| > 0
    ensures var n := CountTrue(MaskOf(t.rows[0], Useful));
      (r.Ok? <==> n == |TIDY_LABELS|) && (r.Err? ==> r.fault == LengthMismatch(n, |TIDY_LABELS|))
    ensures r.Ok? ==> |r.value| == |t.rows| - 1
    ensures r.Ok? ==> forall j :: 0 <= j < |r.value| ==> |r.value[j]| == |TIDY_LABELS|
  {
    var keep := MaskOf(t.rows[0], Useful);
    var n := CountTrue(keep);
    if n != |TIDY_LABELS| then Err(LengthMismatch(n, |TIDY_LABELS|))
    else Ok(seq(|t.rows| - 1, j requires 0 <= j < |t.rows| - 1 => Mask(t.rows[j + 1], keep)))
  }

  /** The first loop: every named sheet, in order, through `KeepPresent`. A missing sheet stops
      the loop (`read_excel` refuses an unknown sheet name), as does an `IndexError`. */
  function ReadSheets(book: map<string, Grid>, names: seq<string>): (r: Result<seq<Grid>>)
    requires forall n :: n in book ==> Rectangular(book[n])
    ensures r.Ok? <==> forall k :: 0 <= k < |names| ==> names[k] in book && book[names[k]].width > 0
    ensures r.Ok? ==> |r.value| == |names|
    ensures r.Ok? ==> forall k :: 0 <= k < |names| ==> r.value[k] == KeepPresent(book[names[k]]).value
    ensures r.Err? ==> r.fault == IndexError || (r.fault.MissingSheet? && r.fault.sheet in names && r.fault.sheet !in book)
  {
    if |names| == 0 then Ok([])
    else if names[0] !in book then Err(MissingSheet(names[0]))
    else
      var g :- KeepPresent(book[names[0]]);
      var rest :- ReadSheets(book, names[1..]);
      assert forall k :: 1 <= k < |names| ==> names[k] == names[1..][k - 1];
      Ok([g] + rest)
  }

  /** The second loop: every transposed sheet, in order, through `KeepUseful`. */
  function FilterSheets(ts: seq<Grid>): (r: Result<seq<seq<Row>>>)
    requires forall k :: 0 <= k < |ts| ==> Rectangular(ts[k]) && |ts[k].rows| > 0
    ensures r.Ok? <==> forall k :: 0 <= k < |ts| ==> KeepUseful(ts[k]).Ok?
    ensures r.Ok? ==> |r.value| == |ts|
    ensures r.Ok? ==> forall k :: 0 <= k < |ts| ==> r.value[k] == KeepUseful(ts[k]).value
    ensures r.Err? ==> exists k :: 0 <= k < |ts| && KeepUseful(ts[k]) == Err(r.fault)
  {
    if |ts| == 0 then Ok([])
    else
      var rows :- KeepUseful(ts[0]);
      var rest :- FilterSheets(ts[1..]);
      assert forall k :: 1 <= k < |ts| ==> ts[k] == ts[1..][k - 1];
      Ok([rows] + rest)
  }

  /** The first column of a sheet: its variable names. */
  function Headers(g: Grid): (h: seq<Cell>)
    requires Rectangular(g) && g.width > 0
    ensures |h| == |g.rows|
  {
    SheetColumn(g, 0)
  }

  /** The useful headers of a sheet, top to bottom. */
  function UsefulHeaders(g: Grid): (h: seq<Cell>)
    requires Rectangular(g) && g.width > 0
    ensures forall c :: c in h ==> Useful(c) && c in Headers(g)
    ensures forall k :: 0 <= k < |h| ==> Useful(h[k])
  {
    var hs := Headers(g);
    MaskOfKeeps(hs, Useful);
    assert forall k :: 0 <= k < |Mask(hs, MaskOf(hs, Useful))| ==> Mask(hs, MaskOf(hs, Useful))[k] in Mask(hs, MaskOf(hs, Useful));
    forall c | c in Mask(hs, MaskOf(hs, Useful)) ensures c in hs {
      MaskMember(hs, MaskOf(hs, Useful), c);
    }
    Mask(hs, MaskOf(hs, Useful))
  }

  /** A sheet `tidy_data` accepts: it has columns, and exactly five of its rows carry a useful header. */
  predicate SheetFits(g: Grid)
    requires Rectangular(g)
  {
    g.width > 0 && |UsefulHeaders(g)| == |TIDY_LABELS|
  }

  /** The reference reshape of one sheet, without any transposition: for every column after the
      header column, the cells of the rows whose header is useful, top to bottom. */
  function DirectRows(g: Grid): (rs: seq<Row>)
    requires Rectangular(g) && g.width > 0
    ensures |rs| == g.width - 1
  {
    seq(g.width - 1, j requires 0 <= j < g.width - 1 => UsefulColumn(g, j + 1))
  }

  /** Column `j` of a sheet, restricted to the rows with a useful header. */
  function UsefulColumn(g: Grid, j: nat): (x: Row)
    requires Rectangular(g) && j < g.width
    ensures |x| == |UsefulHeaders(g)|
  {
    Mask(SheetColumn(g, j), MaskOf(Headers(g), Useful))
  }

  /** `tidy_data(utility_data)` up to the CSV it writes: the frame it would save. */
  function TidyData(book: map<string, Grid>): (r: Result<Frame>)
    requires forall n :: n in book ==> Rectangular(book[n])
    ensures r.Ok? <==> forall n :: n in SHEETS ==> n in book && SheetFits(book[n])
    ensures r.Ok? ==> WellFormed(r.value) && r.value.cols == TIDY_LABELS
    ensures r.Ok? ==> forall x :: x in r.value.rows ==> Complete(x)
    // the first loop finishes before the second starts: a missing or empty sheet wins
    ensures (exists n :: n in SHEETS && (n !in book || book[n].width == 0)) ==> r.Err? && !r.fault.LengthMismatch?
    ensures r.Err? && r.fault.LengthMismatch? ==>
      r.fault.labels == |TIDY_LABELS| &&
      exists n :: (n in SHEETS && n in book && book[n].width > 0 && !SheetFits(book[n])
        && r.fault.axis == |UsefulHeaders(book[n])|)
  {
    TidyFaults(book, SHEETS);
    TidySheets(book, SHEETS)
  }

  /** The two loops and the concatenation of `tidy_data` over the sheets `names`. */
  function TidySheets(book: map<string, Grid>, names: seq<string>): (r: Result<Frame>)
    requires forall n :: n in book ==> Rectangular(book[n])
    ensures r.Ok? <==> forall n :: n in names ==> n in book && SheetFits(book[n])
    ensures r.Ok? ==> WellFormed(r.value) && r.value.cols == TIDY_LABELS
    ensures r.Ok? ==> forall x :: x in r.value.rows ==> Complete(x)
  {
    var sheets :- ReadSheets(book, names);
    SheetsFit(book, names, sheets);
    var blocks :- FilterSheets(sheets);
    BlocksWellFormed(blocks);
    Ok(DropNA(Frame(TIDY_LABELS, Flatten(blocks))))
  }

  /** The first loop finishes before the second starts: a missing or empty sheet is reported
      even when an earlier sheet would fail the second loop; a `LengthMismatch` names the
      number of useful headers of a sheet that does not fit. */
  lemma TidyFaults(book: map<string, Grid>, names: seq<string>)
    requires forall n :: n in book ==> Rectangular(book[n])
    ensures var r := TidySheets(book, names);
      (exists n :: n in names && (n !in book || book[n].width == 0)) ==> r.Err? && !r.fault.LengthMismatch?
    ensures var r := TidySheets(book, names);
      r.Err? && r.fault.LengthMismatch? ==>
        r.fault.labels == |TIDY_LABELS| &&
        exists n :: (n in names && n in book && book[n].width > 0 && !SheetFits(book[n])
          && r.fault.axis == |UsefulHeaders(book[n])|)
  {
    var rs := ReadSheets(book, names);
    if rs.Ok? {
      SheetsFit(book, names, rs.value);
      var fs := FilterSheets(rs.value);
      if fs.Err? {
        var k :| 0 <= k < |rs.value| && KeepUseful(rs.value[k]) == Err(fs.fault);
        assert names[k] in names;
      }
    } else {
      assert !rs.fault.LengthMismatch?;
    }
  }

  /** After the first loop, a sheet passes the second exactly when it fits. */
  lemma SheetsFit(book: map<string, Grid>, names: seq<string>, sheets: seq<Grid>)
    requires forall n :: n in book ==> Rectangular(book[n])
    requires ReadSheets(book, names) == Ok(sheets)
    ensures forall k :: 0 <= k < |names| ==> names[k] in book && book[names[k]].width > 0
    ensures forall k :: 0 <= k < |names| ==>
      (KeepUseful(sheets[k]).Ok? <==> SheetFits(book[names[k]])) &&
      (KeepUseful(sheets[k]).Err? ==>
        KeepUseful(sheets[k]) == Err(LengthMismatch(|UsefulHeaders(book[names[k]])|, |TIDY_LABELS|)))
  {
    forall k | 0 <= k < |names|
      ensures (KeepUseful(sheets[k]).Ok? <==> SheetFits(book[names[k]])) &&
        (KeepUseful(sheets[k]).Err? ==>
          KeepUseful(sheets[k]) == Err(LengthMismatch(|UsefulHeaders(book[names[k]])|, |TIDY_LABELS|)))
    {
      UsefulCount(book[names[k]]);
    }
  }

  /** Stacked blocks of five-cell rows form a frame under `TIDY_LABELS`. */
  lemma {:induction false} BlocksWellFormed(blocks: seq<seq<Row>>)
    requires forall k, j :: 0 <= k < |blocks| && 0 <= j < |blocks[k]| ==> |blocks[k][j]| == |TIDY_LABELS|
    ensures WellFormed(Frame(TIDY_LABELS, Flatten(blocks)))
  {
    if |blocks| > 0 {
      BlocksWellFormed(blocks[1..]);
      assert forall k :: 1 <= k < |blocks| ==> blocks[1..][k - 1] == blocks[k];
      var rest := Flatten(blocks[1..]);
      assert Flatten(blocks) == blocks[0] + rest;
      assert forall i :: 0 <= i < |blocks[0]| ==> (blocks[0] + rest)[i] == blocks[0][i];
      assert forall i :: 0 <= i < |rest| ==> (blocks[0] + rest)[|blocks[0]| + i] == rest[i];
    }
  }

  /** The useful headers of the transposed, narrowed sheet are those of the sheet itself. */
  lemma UsefulCount(g: Grid)
    requires Rectangular(g) && g.width > 0
    ensures CountTrue(MaskOf(KeepPresent(g).value.rows[0], Useful)) == |UsefulHeaders(g)|
  {
    var hs := Headers(g);
    MaskRefine(hs, hs, Present, Useful);
  }
}
