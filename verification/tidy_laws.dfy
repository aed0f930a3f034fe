/** What `tidy_data` computes, stated without its transpose-and-mask mechanics. */
module TidyLaws {
  import opened Wrappers
  import opened Seqs
  import opened Frames
  import opened Tidy

  /** Transposing twice gives the block back. */
  lemma TransposeInvolution(g: Grid)
    requires Rectangular(g)
    ensures Transpose(Transpose(g)) == g
  {
    var t := Transpose(Transpose(g));
    assert |t.rows| == |g.rows|;
    forall i | 0 <= i < |g.rows| ensures t.rows[i] == g.rows[i] {
      assert |t.rows[i]| == g.width;
    }
  }

  /** One sheet's share of the result, before `dropna`, is its reference reshape: the two
      column masks of the two loops act like the single mask "header is useful". */
  lemma SheetDirect(g: Grid)
    requires Rectangular(g) && SheetFits(g)
    ensures KeepPresent(g).Ok? && KeepUseful(KeepPresent(g).value) == Ok(DirectRows(g))
  {
    PresentRows(g);
    var p, cols, hs := KeepPresent(g).value, DataColumns(g), Headers(g);
    UsefulHeaderCount(p.rows[0], hs);
    UsefulLength(p);
    forall j | 0 <= j < |cols| ensures KeepUseful(p).value[j] == DirectRows(g)[j] {
      PresentRowUseful(p, j, cols[j], hs);
      DirectRow(g, j);
    }
    assert KeepUseful(p).value == DirectRows(g);
  }

  lemma DirectRow(g: Grid, j: nat)
    requires Rectangular(g) && g.width > 0 && j < g.width - 1
    ensures DirectRows(g)[j] == UsefulColumn(g, j + 1)
  {
  }

  /** The billing columns of a sheet (every column after the header column), left to right. */
  function DataColumns(g: Grid): (cols: seq<seq<Cell>>)
    requires Rectangular(g) && g.width > 0
    ensures |cols| == g.width - 1
    ensures forall j :: 0 <= j < |cols| ==> cols[j] == SheetColumn(g, j + 1) && |cols[j]| == |g.rows|
  {
    seq(g.width - 1, j requires 0 <= j < g.width - 1 => SheetColumn(g, j + 1))
  }

  /** The first loop on a sheet: transposed row 0 holds the present headers, and transposed
      row `j + 1` is billing column `j`, keeping the cells whose header is present. */
  lemma PresentRows(g: Grid)
    requires Rectangular(g) && g.width > 0
    ensures KeepPresent(g).Ok? && |KeepPresent(g).value.rows| == |DataColumns(g)| + 1
    ensures KeepPresent(g).value.rows[0] == Mask(Headers(g), MaskOf(Headers(g), Present))
    ensures forall j :: 0 <= j < |DataColumns(g)| ==>
      KeepPresent(g).value.rows[j + 1] == Mask(DataColumns(g)[j], MaskOf(Headers(g), Present))
    ensures CountTrue(MaskOf(Headers(g), Useful)) == |UsefulHeaders(g)|
  {
  }

  /** A successful second loop keeps every data row. */
  lemma UsefulLength(t: Grid)
    requires Rectangular(t) && |t.rows| > 0 && CountTrue(MaskOf(t.rows[0], Useful)) == |TIDY_LABELS|
    ensures KeepUseful(t).Ok? && |KeepUseful(t).value| == |t.rows| - 1
  {
  }

  /** The present headers hold as many useful ones as all the headers do. */
  lemma UsefulHeaderCount(h0: seq<Cell>, hs: seq<Cell>)
    requires h0 == Mask(hs, MaskOf(hs, Present))
    ensures CountTrue(MaskOf(h0, Useful)) == CountTrue(MaskOf(hs, Useful))
  {
    MaskRefine(hs, hs, Present, Useful);
    assert |Mask(h0, MaskOf(h0, Useful))| == |Mask(hs, MaskOf(hs, Useful))|;
  }

  /** Row `j + 1` of such a block, after the second loop. */
  lemma PresentRowUseful(t: Grid, j: nat, col: seq<Cell>, hs: seq<Cell>)
    requires Rectangular(t) && j + 1 < |t.rows| && |col| == |hs|
    requires t.rows[0] == Mask(hs, MaskOf(hs, Present)) && t.rows[j + 1] == Mask(col, MaskOf(hs, Present))
    requires CountTrue(MaskOf(t.rows[0], Useful)) == |TIDY_LABELS|
    ensures KeepUseful(t).Ok? && |KeepUseful(t).value| == |t.rows| - 1
    ensures KeepUseful(t).value[j] == Mask(col, MaskOf(hs, Useful))
  {
    UsefulRow(t, j);
    PresentThenUseful(col, hs);
  }

  /** After the second loop, data row `j` is transposed row `j + 1` restricted to the columns
      whose header (transposed row 0) is useful. */
  lemma UsefulRow(t: Grid, j: nat)
    requires Rectangular(t) && j + 1 < |t.rows| && KeepUseful(t).Ok?
    ensures KeepUseful(t).value[j] == Mask(t.rows[j + 1], MaskOf(t.rows[0], Useful))
  {
  }

  /** Keeping the present headers and then the useful ones is keeping the useful ones. */
  lemma PresentThenUseful(col: seq<Cell>, hs: seq<Cell>)
    requires |col| == |hs|
    ensures Mask(Mask(col, MaskOf(hs, Present)), MaskOf(Mask(hs, MaskOf(hs, Present)), Useful))
         == Mask(col, MaskOf(hs, Useful))
  {
    MaskRefine(col, hs, Present, Useful);
  }

  /** `dropna` after stacking equals stacking after `dropna` on each block: the order of the
      surviving rows is sheet by sheet, and within a sheet column by column. */
  lemma {:induction false} CompleteRowsFlatten(bs: seq<seq<Row>>)
    ensures CompleteRows(Flatten(bs)) == Flatten(CompleteEach(bs))
  {
    if |bs| > 0 {
      CompleteRowsFlatten(bs[1..]);
      var rest := Flatten(bs[1..]);
      assert Flatten(bs) == bs[0] + rest;
      MaskOfAppend(bs[0], rest, Complete);
      MaskAppend(bs[0], MaskOf(bs[0], Complete), rest, MaskOf(rest, Complete));
      assert CompleteEach(bs) == [CompleteRows(bs[0])] + CompleteEach(bs[1..]);
    }
  }

  /** `dropna` on each block. */
  function CompleteEach(bs: seq<seq<Row>>): (per: seq<seq<Row>>)
    ensures |per| == |bs| && forall k :: 0 <= k < |bs| ==> per[k] == CompleteRows(bs[k])
  {
    seq(|bs|, k requires 0 <= k < |bs| => CompleteRows(bs[k]))
  }

  /** The per-sheet reference reshapes of the sheets, in sheet order. */
  function DirectBlocks(book: map<string, Grid>, names: seq<string>): (bs: seq<seq<Row>>)
    requires forall n :: n in book ==> Rectangular(book[n])
    requires forall k :: 0 <= k < |names| ==> names[k] in book && SheetFits(book[names[k]])
    ensures |bs| == |names|
  {
    seq(|names|, k requires 0 <= k < |names| =>
      var g := book[names[k]];
      assert SheetFits(g);
      DirectRows(g))
  }

  /** The saved table, described directly: the complete rows of the sheets' reference reshapes,
      sheet by sheet in `FY13` … `FY23` order. */
  lemma TidyDirect(book: map<string, Grid>)
    requires forall n :: n in book ==> Rectangular(book[n])
    requires TidyData(book).Ok?
    ensures TidyData(book).value.rows ==
      Flatten(CompleteEach(DirectBlocks(book, SHEETS)))
  {
    assert forall k :: 0 <= k < |SHEETS| ==> SHEETS[k] in SHEETS;
    TidySheetsDirect(book, SHEETS);
    CompleteRowsFlatten(DirectBlocks(book, SHEETS));
  }

  lemma TidySheetsDirect(book: map<string, Grid>, names: seq<string>)
    requires forall n :: n in book ==> Rectangular(book[n])
    requires TidySheets(book, names).Ok?
    ensures forall k :: 0 <= k < |names| ==> names[k] in book && SheetFits(book[names[k]])
    ensures TidySheets(book, names).value.rows == CompleteRows(Flatten(DirectBlocks(book, names)))
  {
    assert forall k :: 0 <= k < |names| ==> names[k] in names;
    var sheets := ReadSheets(book, names).value;
    var blocks := FilterSheets(sheets).value;
    forall k | 0 <= k < |names| ensures blocks[k] == DirectBlocks(book, names)[k] {
      SheetDirect(book[names[k]]);
    }
    assert blocks == DirectBlocks(book, names);
  }

  /** A row is saved exactly when it is complete and is the useful cells of some billing
      column (not the header column) of one of the sheets. */
  lemma TidyMember(book: map<string, Grid>, x: Row)
    requires forall n :: n in book ==> Rectangular(book[n])
    requires TidyData(book).Ok?
    ensures x in TidyData(book).value.rows <==>
      Complete(x) && exists k, j :: (0 <= k < |SHEETS| && SHEETS[k] in book && 0 < j < book[SHEETS[k]].width
        && x == UsefulColumn(book[SHEETS[k]], j))
  {
    assert forall k :: 0 <= k < |SHEETS| ==> SHEETS[k] in SHEETS;
    var bs := DirectBlocks(book, SHEETS);
    TidySheetsDirect(book, SHEETS);
    FlattenMember(bs, x);
    BlockMember(book, SHEETS, x);
  }

  lemma BlockMember(book: map<string, Grid>, names: seq<string>, x: Row)
    requires forall n :: n in book ==> Rectangular(book[n])
    requires forall k :: 0 <= k < |names| ==> names[k] in book && SheetFits(book[names[k]])
    ensures (exists k :: 0 <= k < |names| && x in DirectBlocks(book, names)[k]) <==>
      exists k, j :: (0 <= k < |names| && names[k] in book && 0 < j < book[names[k]].width
        && x == UsefulColumn(book[names[k]], j))
  {
    var bs := DirectBlocks(book, names);
    forall k | 0 <= k < |names| && x in bs[k]
      ensures exists j :: 0 < j < book[names[k]].width && x == UsefulColumn(book[names[k]], j)
    {
      var j :| 0 <= j < |bs[k]| && bs[k][j] == x;
      BlockCell(book, names, k, j + 1);
    }
    forall k, j | 0 <= k < |names| && names[k] in book && 0 < j < book[names[k]].width
        && x == UsefulColumn(book[names[k]], j)
      ensures x in bs[k]
    {
      BlockCell(book, names, k, j);
    }
  }

  lemma BlockCell(book: map<string, Grid>, names: seq<string>, k: nat, j: nat)
    requires forall n :: n in book ==> Rectangular(book[n])
    requires forall k :: 0 <= k < |names| ==> names[k] in book && SheetFits(book[names[k]])
    requires k < |names| && 0 < j < book[names[k]].width
    ensures |DirectBlocks(book, names)[k]| == book[names[k]].width - 1
    ensures DirectBlocks(book, names)[k][j - 1] == UsefulColumn(book[names[k]], j)
  {
  }

  /** The snake-case label each useful header is meant to get. */
  function Intended(h: string): string {
    if h == "Start Read Date" then "start_read_date"
    else if h == "End Read Date" then "end_read_date"
    else if h == "Total Cons. (kwh)" then "total_consumption"
    else if h == "Time of Peak Demand" then "time_of_peak_demand"
    else if h == "Total Monthly Electricity Cost" then "total_cost"
    else h
  }

  /** The sheet layout for which the positional relabelling names every column correctly. */
  const SHEET_ORDER: seq<string> :=
    ["Start Read Date", "End Read Date", "Total Cons. (kwh)", "Time of Peak Demand",
     "Total Monthly Electricity Cost"]

  /** The relabelling is by position, so a kept column gets its intended label exactly when the
      sheet lists the five variables in `SHEET_ORDER` (consumption before peak time, unlike the
      order of the header list in the code, which `isin` ignores). */
  lemma LabelsFaithful(g: Grid)
    requires Rectangular(g) && SheetFits(g)
    ensures (forall k :: 0 <= k < |TIDY_LABELS| ==> Intended(UsefulHeaders(g)[k].value.s) == TIDY_LABELS[k])
      <==> (forall k :: 0 <= k < |TIDY_LABELS| ==> UsefulHeaders(g)[k] == Some(Text(SHEET_ORDER[k])))
  {
    var h := UsefulHeaders(g);
    assert forall k :: 0 <= k < |h| ==> h[k] in h;
    forall k | 0 <= k < |TIDY_LABELS|
      ensures Intended(h[k].value.s) == TIDY_LABELS[k] <==> h[k] == Some(Text(SHEET_ORDER[k]))
    {
      IntendedLabel(h[k].value.s, k);
    }
  }

  lemma IntendedLabel(s: string, k: nat)
    requires s in USEFUL_HEADERS && k < |TIDY_LABELS|
    ensures Intended(s) == TIDY_LABELS[k] <==> s == SHEET_ORDER[k]
  {
  }
}
