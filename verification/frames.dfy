/** The pandas semantics the pipeline relies on, fixed explicitly over immutable
    values. A frame is a sequence of column labels and a sequence of rows; a cell
    is `None` when pandas would hold NaN / NaT. Row order is significant, as it is
    in a DataFrame with a default index. */
module Frames {
  import opened Wrappers
  import opened Seqs
  import Dates

  /** A cell value: text, an integer, a float, or a parsed timestamp. */
  datatype Value = Text(s: string) | Int(i: int) | Real(r: real) | Stamp(t: Dates.Stamp)

  type Cell = Option<Value>

  type Row = seq<Cell>

  datatype Frame = Frame(cols: seq<string>, rows: seq<Row>)

  /** Every row has one cell per column label. */
  predicate WellFormed(f: Frame) {
    forall i :: 0 <= i < |f.rows| ==> |f.rows[i]| == |f.cols|
  }

  /** No cell of the row is missing. */
  predicate Complete(row: Row) {
    forall k :: 0 <= k < |row| ==> row[k].Some?
  }

  /** Position of the first occurrence of a label. */
  function IndexOf(cols: seq<string>, c: string): (r: Option<nat>)
    ensures r.None? <==> c !in cols
    ensures r.Some? ==> r.value < |cols| && cols[r.value] == c
    ensures r.Some? ==> forall k :: 0 <= k < r.value ==> cols[k] != c
  {
    if |cols| == 0 then None
    else if cols[0] == c then Some(0)
    else
      match IndexOf(cols[1..], c)
      case None => None
      case Some(k) => Some(k + 1)
  }

  /** The label occurs exactly once, so that pandas can use it as a merge key. */
  predicate UniqueLabel(cols: seq<string>, c: string) {
    c in cols && forall a, b :: 0 <= a < b < |cols| && cols[a] == c ==> cols[b] != c
  }

  /** `df[c]`: the cells of the column labelled `c`, or a `KeyError`. */
  function Column(f: Frame, c: string): (r: Result<seq<Cell>>)
    requires WellFormed(f)
    ensures r.Ok? <==> c in f.cols
    ensures r.Err? ==> r.fault == KeyError(c)
    ensures r.Ok? ==> |r.value| == |f.rows|
    ensures r.Ok? ==> forall i :: 0 <= i < |f.rows| ==> r.value[i] == f.rows[i][IndexOf(f.cols, c).value]
  {
    match IndexOf(f.cols, c)
    case None => Err(KeyError(c))
    case Some(k) => Ok(seq(|f.rows|, i requires 0 <= i < |f.rows| => f.rows[i][k]))
  }

  /** `df[c] = col`: replaces the column labelled `c`, or appends it as the last column. */
  function SetColumn(f: Frame, c: string, col: seq<Cell>): (r: Frame)
    requires WellFormed(f) && |col| == |f.rows|
    ensures WellFormed(r) && |r.rows| == |f.rows|
    ensures c in f.cols ==> r.cols == f.cols
    ensures c !in f.cols ==> r.cols == f.cols + [c]
    ensures forall i :: 0 <= i < |r.rows| ==> r.rows[i][IndexOf(r.cols, c).value] == col[i]
    ensures forall i, k :: 0 <= i < |f.rows| && 0 <= k < |f.cols| && f.cols[k] != c ==> r.rows[i][k] == f.rows[i][k]
  {
    match IndexOf(f.cols, c)
    case Some(k) =>
      Frame(f.cols, seq(|f.rows|, i requires 0 <= i < |f.rows| => f.rows[i][k := col[i]]))
    case None =>
      assert IndexOf(f.cols + [c], c) == Some(|f.cols|) by {
        IndexOfAppend(f.cols, c);
      }
      Frame(f.cols + [c], seq(|f.rows|, i requires 0 <= i < |f.rows| => f.rows[i] + [col[i]]))
  }

  lemma {:induction false} IndexOfAppend(cols: seq<string>, c: string)
    requires c !in cols
    ensures IndexOf(cols + [c], c) == Some(|cols|)
  {
    if |cols| > 0 {
      assert (cols + [c])[1..] == cols[1..] + [c];
      IndexOfAppend(cols[1..], c);
    }
  }

  /** A label absent from a prefix is found in the suffix, shifted by the prefix length. */
  lemma {:induction false} IndexOfAfter(head: seq<string>, tail: seq<string>, c: string)
    requires c !in head && c in tail
    ensures IndexOf(head + tail, c) == Some(|head| + IndexOf(tail, c).value)
  {
    if |head| > 0 {
      assert (head + tail)[1..] == head[1..] + tail;
      IndexOfAfter(head[1..], tail, c);
    } else {
      assert head + tail == tail;
    }
  }

  /** A label present in a prefix is found there. */
  lemma {:induction false} IndexOfBefore(head: seq<string>, tail: seq<string>, c: string)
    requires c in head
    ensures IndexOf(head + tail, c) == IndexOf(head, c)
  {
    if head[0] != c {
      assert (head + tail)[1..] == head[1..] + tail;
      IndexOfBefore(head[1..], tail, c);
    }
  }

  /** `df.loc[:, keep]`: the columns at the `true` positions of the mask, in order. */
  function SelectColumns(f: Frame, keep: seq<bool>): (r: Frame)
    requires WellFormed(f) && |keep| == |f.cols|
    ensures WellFormed(r) && |r.rows| == |f.rows|
    ensures r.cols == Mask(f.cols, keep)
    ensures forall i :: 0 <= i < |f.rows| ==> r.rows[i] == Mask(f.rows[i], keep)
  {
    Frame(Mask(f.cols, keep), seq(|f.rows|, i requires 0 <= i < |f.rows| => Mask(f.rows[i], keep)))
  }

  /** `df.filter(regex=…, axis=1)`: the columns whose label satisfies `p`, in order. */
  function FilterColumns(f: Frame, p: string -> bool): (r: Frame)
    requires WellFormed(f)
    ensures WellFormed(r) && |r.rows| == |f.rows|
    ensures forall c :: c in r.cols <==> c in f.cols && p(c)
    ensures r.cols == Mask(f.cols, MaskOf(f.cols, p))
  {
    var keep := MaskOf(f.cols, p);
    forall c ensures c in Mask(f.cols, keep) <==> c in f.cols && p(c) {
      MaskMember(f.cols, keep, c);
    }
    SelectColumns(f, keep)
  }

  /** Under each label `filter` keeps, every row holds the cell it held before. */
  lemma FilterColumnsCells(f: Frame, p: string -> bool)
    requires WellFormed(f)
    ensures var r := FilterColumns(f, p);
      forall i, c :: 0 <= i < |f.rows| && c in r.cols ==>
        r.rows[i][IndexOf(r.cols, c).value] == f.rows[i][IndexOf(f.cols, c).value]
  {
    var r := FilterColumns(f, p);
    forall i, c | 0 <= i < |f.rows| && c in r.cols
      ensures r.rows[i][IndexOf(r.cols, c).value] == f.rows[i][IndexOf(f.cols, c).value]
    {
      MaskCell(f.cols, f.rows[i], MaskOf(f.cols, p), c);
    }
  }

  /** A label whose first occurrence survives a column mask sits, after masking, over the
      cell it sat over before. */
  lemma {:induction false} MaskCell(cols: seq<string>, row: Row, keep: seq<bool>, c: string)
    requires |keep| == |cols| == |row| && c in cols && keep[IndexOf(cols, c).value]
    ensures c in Mask(cols, keep)
    ensures Mask(row, keep)[IndexOf(Mask(cols, keep), c).value] == row[IndexOf(cols, c).value]
  {
    if cols[0] != c {
      assert c in cols[1..] && IndexOf(cols, c).value == IndexOf(cols[1..], c).value + 1;
      MaskCell(cols[1..], row[1..], keep[1..], c);
      if keep[0] {
        assert Mask(cols, keep) == [cols[0]] + Mask(cols[1..], keep[1..]);
        assert Mask(row, keep) == [row[0]] + Mask(row[1..], keep[1..]);
      }
    }
  }

  /** `df.columns = labels`: relabels by position; pandas refuses a label list of the wrong length. */
  function SetLabels(f: Frame, labels: seq<string>): (r: Result<Frame>)
    requires WellFormed(f)
    ensures r.Ok? <==> |labels| == |f.cols|
    ensures r.Err? ==> r.fault == LengthMismatch(|f.cols|, |labels|)
    ensures r.Ok? ==> WellFormed(r.value) && r.value.cols == labels && r.value.rows == f.rows
  {
    if |labels| != |f.cols| then Err(LengthMismatch(|f.cols|, |labels|))
    else Ok(Frame(labels, f.rows))
  }

  /** The first label of `names` that `cols` lacks. */
  function FirstMissing(cols: seq<string>, names: seq<string>): (r: Option<string>)
    ensures r.None? <==> forall n :: n in names ==> n in cols
    ensures r.Some? ==> r.value in names && r.value !in cols
  {
    if |names| == 0 then None
    else if names[0] !in cols then Some(names[0])
    else FirstMissing(cols, names[1..])
  }

  /** The mask of the labels `drop(columns=names)` leaves in place. */
  function Survivors(cols: seq<string>, names: seq<string>): (keep: seq<bool>)
    ensures |keep| == |cols| && forall k :: 0 <= k < |cols| ==> keep[k] == (cols[k] !in names)
  {
    seq(|cols|, k requires 0 <= k < |cols| => cols[k] !in names)
  }

  /** `df.drop(columns=names)`: removes every column carrying one of the labels, keeping the
      others in order with their cells; a label the frame lacks is a `KeyError`. */
  function DropColumns(f: Frame, names: seq<string>): (r: Result<Frame>)
    requires WellFormed(f)
    ensures r.Ok? <==> forall n :: n in names ==> n in f.cols
    ensures r.Err? ==> r.fault.KeyError? && r.fault.key in names && r.fault.key !in f.cols
    ensures r.Ok? ==> WellFormed(r.value) && |r.value.rows| == |f.rows|
    ensures r.Ok? ==> forall c :: c in r.value.cols <==> c in f.cols && c !in names
    ensures r.Ok? ==> r.value.cols == Mask(f.cols, Survivors(f.cols, names))
    ensures r.Ok? ==> forall i, c :: 0 <= i < |f.rows| && c in r.value.cols ==>
      r.value.rows[i][IndexOf(r.value.cols, c).value] == f.rows[i][IndexOf(f.cols, c).value]
  {
    match FirstMissing(f.cols, names)
    case Some(n) => Err(KeyError(n))
    case None =>
      var keep := Survivors(f.cols, names);
      var g := SelectColumns(f, keep);
      assert forall c :: c in g.cols <==> c in f.cols && c !in names by {
        forall c ensures c in g.cols <==> c in f.cols && c !in names {
          MaskMember(f.cols, keep, c);
        }
      }
      assert forall i, c :: 0 <= i < |f.rows| && c in g.cols ==>
        g.rows[i][IndexOf(g.cols, c).value] == f.rows[i][IndexOf(f.cols, c).value] by {
        forall i, c | 0 <= i < |f.rows| && c in g.cols
          ensures g.rows[i][IndexOf(g.cols, c).value] == f.rows[i][IndexOf(f.cols, c).value]
        {
          MaskCell(f.cols, f.rows[i], keep, c);
        }
      }
      Ok(g)
  }

  /** `df[mask]`: the rows at the `true` positions of a boolean mask, in order. */
  function SelectRows(f: Frame, keep: seq<bool>): (r: Frame)
    requires WellFormed(f) && |keep| == |f.rows|
    ensures WellFormed(r) && r.cols == f.cols && r.rows == Mask(f.rows, keep)
    ensures forall x :: x in r.rows <==> exists i :: 0 <= i < |f.rows| && keep[i] && f.rows[i] == x
  {
    forall x ensures x in Mask(f.rows, keep) <==> exists i :: 0 <= i < |f.rows| && keep[i] && f.rows[i] == x {
      MaskMember(f.rows, keep, x);
    }
    var m := Mask(f.rows, keep);
    assert forall t :: 0 <= t < |m| ==> m[t] in m;
    Frame(f.cols, m)
  }

  /** `df.dropna(axis=0)`: removes every row holding a missing cell, keeping order. */
  function DropNA(f: Frame): (r: Frame)
    requires WellFormed(f)
    ensures WellFormed(r) && r.cols == f.cols
    ensures r.rows == CompleteRows(f.rows)
  {
    SelectRows(f, MaskOf(f.rows, Complete))
  }

  /** `dropna(axis=0)` on a block of rows. */
  function CompleteRows(rs: seq<Row>): (out: seq<Row>)
    ensures forall x :: x in out <==> x in rs && Complete(x)
  {
    forall x ensures x in Mask(rs, MaskOf(rs, Complete)) <==> x in rs && Complete(x) {
      MaskMember(rs, MaskOf(rs, Complete), x);
    }
    Mask(rs, MaskOf(rs, Complete))
  }

  /** `dropna` keeps each complete row once and in its place: it is the list filter that
      walks the rows in order. */
  lemma CompleteRowsFilter(rs: seq<Row>)
    ensures |rs| == 0 ==> CompleteRows(rs) == []
    ensures |rs| > 0 ==>
      CompleteRows(rs) == (if Complete(rs[0]) then [rs[0]] else []) + CompleteRows(rs[1..])
  {
    if |rs| > 0 {
      assert MaskOf(rs, Complete)[1..] == MaskOf(rs[1..], Complete);
    }
  }

  /** A right row with its key cell removed, appended to a left row. */
  function Combine(l: Row, r: Row, kr: nat): (out: Row)
    requires kr < |r|
    ensures |out| == |l| + |r| - 1
  {
    l + r[..kr] + r[kr + 1..]
  }

  /** All right rows whose key equals the left row's key, each combined with it, in right-row order. */
  function MatchRows(l: Row, kl: nat, rs: seq<Row>, kr: nat): (out: seq<Row>)
    requires kl < |l|
    requires forall j :: 0 <= j < |rs| ==> kr < |rs[j]|
    ensures |out| <= |rs|
  {
    if |rs| == 0 then []
    else
      (if rs[0][kr] == l[kl] then [Combine(l, rs[0], kr)] else []) + MatchRows(l, kl, rs[1..], kr)
  }

  /** The inner join of two row sequences on key positions `kl` and `kr`: for every left row in
      order, every right row with an equal key, in order. Two missing keys count as equal:
      pandas matches NaN with NaN in merge keys. */
  function JoinRows(ls: seq<Row>, kl: nat, rs: seq<Row>, kr: nat): (out: seq<Row>)
    requires forall i :: 0 <= i < |ls| ==> kl < |ls[i]|
    requires forall j :: 0 <= j < |rs| ==> kr < |rs[j]|
  {
    if |ls| == 0 then [] else MatchRows(ls[0], kl, rs, kr) + JoinRows(ls[1..], kl, rs, kr)
  }

  /** The label pandas gives a non-key column present in both merged frames. */
  function Suffixed(c: string, on: string, others: seq<string>, suffix: string): string {
    if c != on && c in others then c + suffix else c
  }

  /** The labels of `pd.merge(left, right, on=on)`: left labels, then right labels without the
      key; a non-key label shared by both sides gets `_x` on the left and `_y` on the right. */
  function MergedLabels(lc: seq<string>, rc: seq<string>, kr: nat): (r: seq<string>)
    requires kr < |rc|
    ensures |r| == |lc| + |rc| - 1
  {
    var on := rc[kr];
    var rest := rc[..kr] + rc[kr + 1..];
    seq(|lc|, k requires 0 <= k < |lc| => Suffixed(lc[k], on, rest, "_x"))
      + seq(|rest|, k requires 0 <= k < |rest| => Suffixed(rest[k], on, lc, "_y"))
  }

  /** `pd.merge(left, right, on=on)` with the default inner join. The key must label exactly one
      column on each side. */
  function Merge(left: Frame, right: Frame, on: string): (r: Result<Frame>)
    requires WellFormed(left) && WellFormed(right)
    ensures r.Ok? <==> UniqueLabel(left.cols, on) && UniqueLabel(right.cols, on)
    ensures on !in left.cols || on !in right.cols ==> r == Err(KeyError(on))
    ensures r.Ok? ==> WellFormed(r.value)
  {
    match (IndexOf(left.cols, on), IndexOf(right.cols, on))
    case (None, _) => Err(KeyError(on))
    case (_, None) => Err(KeyError(on))
    case (Some(kl), Some(kr)) =>
      if !UniqueLabel(left.cols, on) || !UniqueLabel(right.cols, on) then Err(NotUnique(on))
      else
        var rows := JoinRows(left.rows, kl, right.rows, kr);
        assert forall x :: x in rows ==> |x| == |left.cols| + |right.cols| - 1 by {
          JoinRowsWidth(left.rows, kl, right.rows, kr, |left.cols|, |right.cols|);
        }
        Ok(Frame(MergedLabels(left.cols, right.cols, kr), rows))
  }

  /** With no non-key label shared by the two sides, merging adds no suffixes: the labels are
      the left labels followed by the right labels without the key. */
  lemma MergedLabelsDisjoint(lc: seq<string>, rc: seq<string>, kr: nat)
    requires kr < |rc|
    requires forall c :: c in lc && c in rc ==> c == rc[kr]
    ensures MergedLabels(lc, rc, kr) == lc + rc[..kr] + rc[kr + 1..]
  {
    var on := rc[kr];
    var rest := rc[..kr] + rc[kr + 1..];
    assert forall k :: 0 <= k < |rest| ==> rest[k] in rc;
  }

  lemma {:induction false} MatchRowsWidth(l: Row, kl: nat, rs: seq<Row>, kr: nat, wr: nat)
    requires kl < |l| && kr < wr
    requires forall j :: 0 <= j < |rs| ==> |rs[j]| == wr
    ensures forall x :: x in MatchRows(l, kl, rs, kr) ==> |x| == |l| + wr - 1
  {
    if |rs| > 0 {
      MatchRowsWidth(l, kl, rs[1..], kr, wr);
    }
  }

  lemma {:induction false} JoinRowsWidth(ls: seq<Row>, kl: nat, rs: seq<Row>, kr: nat, wl: nat, wr: nat)
    requires kl < wl && kr < wr
    requires forall i :: 0 <= i < |ls| ==> |ls[i]| == wl
    requires forall j :: 0 <= j < |rs| ==> |rs[j]| == wr
    ensures forall x :: x in JoinRows(ls, kl, rs, kr) ==> |x| == wl + wr - 1
  {
    if |ls| > 0 {
      MatchRowsWidth(ls[0], kl, rs, kr, wr);
      JoinRowsWidth(ls[1..], kl, rs, kr, wl, wr);
    }
  }
}
