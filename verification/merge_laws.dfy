/** What the inner join of `Frames.JoinRows` means: exactly the matching pairs, in
    left-row order, and the cardinality bounds that follow from unique keys. */
module MergeLaws {
  import opened Wrappers
  import opened Seqs
  import opened Frames

  predicate KeyWidth(rs: seq<Row>, k: nat) {
    forall j :: 0 <= j < |rs| ==> k < |rs[j]|
  }

  /** No two rows share a key cell. */
  predicate DistinctKeys(rs: seq<Row>, k: nat)
    requires KeyWidth(rs, k)
  {
    forall a, b :: 0 <= a < b < |rs| ==> rs[a][k] != rs[b][k]
  }

  /** The key cells occurring in a sequence of rows. */
  function KeySet(rs: seq<Row>, k: nat): (s: set<Cell>)
    requires KeyWidth(rs, k)
    ensures forall key :: key in s <==> exists j :: 0 <= j < |rs| && rs[j][k] == key
  {
    set j | 0 <= j < |rs| :: rs[j][k]
  }

  /** The position of the first row carrying a key. */
  function FindKey(rs: seq<Row>, k: nat, key: Cell): (r: Option<nat>)
    requires KeyWidth(rs, k)
    ensures r.None? <==> key !in KeySet(rs, k)
    ensures r.Some? ==> r.value < |rs| && rs[r.value][k] == key
  {
    if |rs| == 0 then None
    else if rs[0][k] == key then Some(0)
    else
      match FindKey(rs[1..], k, key)
      case None => None
      case Some(j) => Some(j + 1)
  }

  /** A left row extended with its unique partner (unchanged when it has none). */
  function Extend(l: Row, kl: nat, rs: seq<Row>, kr: nat): Row
    requires kl < |l| && KeyWidth(rs, kr)
  {
    match FindKey(rs, kr, l[kl])
    case None => l
    case Some(j) => Combine(l, rs[j], kr)
  }

  /** Which left rows have a partner on the right. */
  function PartnerMask(ls: seq<Row>, kl: nat, rs: seq<Row>, kr: nat): (m: seq<bool>)
    requires KeyWidth(ls, kl) && KeyWidth(rs, kr)
    ensures |m| == |ls|
  {
    seq(|ls|, i requires 0 <= i < |ls| => ls[i][kl] in KeySet(rs, kr))
  }

  function Extended(ls: seq<Row>, kl: nat, rs: seq<Row>, kr: nat): (e: seq<Row>)
    requires KeyWidth(ls, kl) && KeyWidth(rs, kr)
    ensures |e| == |ls|
  {
    seq(|ls|, i requires 0 <= i < |ls| => Extend(ls[i], kl, rs, kr))
  }

  lemma {:induction false} MatchRowsMember(l: Row, kl: nat, rs: seq<Row>, kr: nat, x: Row)
    requires kl < |l| && KeyWidth(rs, kr)
    ensures x in MatchRows(l, kl, rs, kr) <==> exists j :: 0 <= j < |rs| && rs[j][kr] == l[kl] && x == Combine(l, rs[j], kr)
  {
    if |rs| > 0 {
      MatchRowsMember(l, kl, rs[1..], kr, x);
      if exists j :: 0 <= j < |rs| && rs[j][kr] == l[kl] && x == Combine(l, rs[j], kr) {
        var j :| 0 <= j < |rs| && rs[j][kr] == l[kl] && x == Combine(l, rs[j], kr);
        if j > 0 {
          assert rs[1..][j - 1] == rs[j];
        }
      }
      if exists j :: 0 <= j < |rs[1..]| && rs[1..][j][kr] == l[kl] && x == Combine(l, rs[1..][j], kr) {
        var j :| 0 <= j < |rs[1..]| && rs[1..][j][kr] == l[kl] && x == Combine(l, rs[1..][j], kr);
        assert rs[j + 1] == rs[1..][j];
      }
    }
  }

  /** A row is in the inner join exactly when it combines a left row with a right row of
      equal key; how often each pair contributes is `JoinRowsCount`'s business. */
  lemma {:induction false} JoinRowsMember(ls: seq<Row>, kl: nat, rs: seq<Row>, kr: nat, x: Row)
    requires KeyWidth(ls, kl) && KeyWidth(rs, kr)
    ensures x in JoinRows(ls, kl, rs, kr) <==>
      exists i, j :: 0 <= i < |ls| && 0 <= j < |rs| && ls[i][kl] == rs[j][kr] && x == Combine(ls[i], rs[j], kr)
  {
    if |ls| > 0 {
      MatchRowsMember(ls[0], kl, rs, kr, x);
      JoinRowsMember(ls[1..], kl, rs, kr, x);
      if exists i, j :: 0 <= i < |ls| && 0 <= j < |rs| && ls[i][kl] == rs[j][kr] && x == Combine(ls[i], rs[j], kr) {
        var i, j :| 0 <= i < |ls| && 0 <= j < |rs| && ls[i][kl] == rs[j][kr] && x == Combine(ls[i], rs[j], kr);
        if i > 0 {
          assert ls[1..][i - 1] == ls[i];
        }
      }
      if exists i, j :: 0 <= i < |ls[1..]| && 0 <= j < |rs| && ls[1..][i][kl] == rs[j][kr] && x == Combine(ls[1..][i], rs[j], kr) {
        var i, j :| 0 <= i < |ls[1..]| && 0 <= j < |rs| && ls[1..][i][kl] == rs[j][kr] && x == Combine(ls[1..][i], rs[j], kr);
        assert ls[i + 1] == ls[1..][i];
      }
    }
  }

  /** Which right rows carry `key`. */
  function KeyMatch(key: Cell, rs: seq<Row>, kr: nat): (m: seq<bool>)
    requires KeyWidth(rs, kr)
    ensures |m| == |rs| && forall j :: 0 <= j < |rs| ==> m[j] == (rs[j][kr] == key)
  {
    seq(|rs|, j requires 0 <= j < |rs| => rs[j][kr] == key)
  }

  /** Every right row combined with the left row `l`. */
  function Combined(l: Row, rs: seq<Row>, kr: nat): (c: seq<Row>)
    requires KeyWidth(rs, kr)
    ensures |c| == |rs| && forall j :: 0 <= j < |rs| ==> c[j] == Combine(l, rs[j], kr)
  {
    seq(|rs|, j requires 0 <= j < |rs| => Combine(l, rs[j], kr))
  }

  /** The number of pairs of a left row and a right row with equal keys. */
  function PairCount(ls: seq<Row>, kl: nat, rs: seq<Row>, kr: nat): nat
    requires KeyWidth(ls, kl) && KeyWidth(rs, kr)
  {
    if |ls| == 0 then 0 else CountTrue(KeyMatch(ls[0][kl], rs, kr)) + PairCount(ls[1..], kl, rs, kr)
  }

  /** The matches of one left row are its combinations with the right rows of equal key, in
      right-row order: one row per matching right row, no more and no fewer. */
  lemma {:induction false} MatchRowsMasked(l: Row, kl: nat, rs: seq<Row>, kr: nat)
    requires kl < |l| && KeyWidth(rs, kr)
    ensures MatchRows(l, kl, rs, kr) == Mask(Combined(l, rs, kr), KeyMatch(l[kl], rs, kr))
    ensures |MatchRows(l, kl, rs, kr)| == CountTrue(KeyMatch(l[kl], rs, kr))
  {
    if |rs| > 0 {
      MatchRowsMasked(l, kl, rs[1..], kr);
      assert Combined(l, rs, kr)[1..] == Combined(l, rs[1..], kr);
      assert KeyMatch(l[kl], rs, kr)[1..] == KeyMatch(l[kl], rs[1..], kr);
    }
  }

  /** The inner join has one row for every pair of rows with equal keys: the size of the
      join is the number of such pairs. */
  lemma {:induction false} JoinRowsCount(ls: seq<Row>, kl: nat, rs: seq<Row>, kr: nat)
    requires KeyWidth(ls, kl) && KeyWidth(rs, kr)
    ensures |JoinRows(ls, kl, rs, kr)| == PairCount(ls, kl, rs, kr)
  {
    if |ls| > 0 {
      MatchRowsMasked(ls[0], kl, rs, kr);
      JoinRowsCount(ls[1..], kl, rs, kr);
    }
  }

  /** Every joined row carries, at the left key position, a key that occurs on both sides. */
  lemma JoinKeyInBoth(ls: seq<Row>, kl: nat, rs: seq<Row>, kr: nat, x: Row)
    requires KeyWidth(ls, kl) && KeyWidth(rs, kr)
    requires x in JoinRows(ls, kl, rs, kr)
    ensures kl < |x| && x[kl] in KeySet(ls, kl) && x[kl] in KeySet(rs, kr)
  {
    JoinRowsMember(ls, kl, rs, kr, x);
    var i, j :| 0 <= i < |ls| && 0 <= j < |rs| && ls[i][kl] == rs[j][kr] && x == Combine(ls[i], rs[j], kr);
    assert x[kl] == ls[i][kl];
  }

  lemma {:induction false} MatchRowsUnique(l: Row, kl: nat, rs: seq<Row>, kr: nat)
    requires kl < |l| && KeyWidth(rs, kr) && DistinctKeys(rs, kr)
    ensures MatchRows(l, kl, rs, kr) == (if l[kl] in KeySet(rs, kr) then [Extend(l, kl, rs, kr)] else [])
  {
    if |rs| > 0 {
      MatchRowsUnique(l, kl, rs[1..], kr);
      assert KeySet(rs, kr) == {rs[0][kr]} + KeySet(rs[1..], kr) by {
        forall key ensures key in KeySet(rs, kr) <==> key in {rs[0][kr]} + KeySet(rs[1..], kr) {
          if key in KeySet(rs, kr) {
            var j :| 0 <= j < |rs| && rs[j][kr] == key;
            if j > 0 {
              assert rs[1..][j - 1] == rs[j];
            }
          }
        }
      }
      if rs[0][kr] == l[kl] {
        assert l[kl] !in KeySet(rs[1..], kr);
      } else if l[kl] in KeySet(rs[1..], kr) {
        var j := FindKey(rs[1..], kr, l[kl]).value;
        assert FindKey(rs, kr, l[kl]) == Some(j + 1);
      }
    }
  }

  /** With unique right keys the join is the left rows that have a partner, in left order,
      each extended with its partner's non-key cells. */
  lemma {:induction false} JoinUniqueRight(ls: seq<Row>, kl: nat, rs: seq<Row>, kr: nat)
    requires KeyWidth(ls, kl) && KeyWidth(rs, kr) && DistinctKeys(rs, kr)
    ensures JoinRows(ls, kl, rs, kr) == Mask(Extended(ls, kl, rs, kr), PartnerMask(ls, kl, rs, kr))
  {
    if |ls| > 0 {
      MatchRowsUnique(ls[0], kl, rs, kr);
      JoinUniqueRight(ls[1..], kl, rs, kr);
      assert Extended(ls, kl, rs, kr)[1..] == Extended(ls[1..], kl, rs, kr);
      assert PartnerMask(ls, kl, rs, kr)[1..] == PartnerMask(ls[1..], kl, rs, kr);
    }
  }

  lemma {:induction false} KeySetSize(rs: seq<Row>, k: nat)
    requires KeyWidth(rs, k)
    ensures |KeySet(rs, k)| <= |rs|
  {
    if |rs| > 0 {
      KeySetSize(rs[1..], k);
      assert KeySet(rs, k) <= {rs[0][k]} + KeySet(rs[1..], k) by {
        forall key | key in KeySet(rs, k) ensures key in {rs[0][k]} + KeySet(rs[1..], k) {
          var j :| 0 <= j < |rs| && rs[j][k] == key;
          if j > 0 {
            assert rs[1..][j - 1] == rs[j];
          }
        }
      }
      assert |{rs[0][k]} + KeySet(rs[1..], k)| <= 1 + |KeySet(rs[1..], k)|;
      SubsetSize(KeySet(rs, k), {rs[0][k]} + KeySet(rs[1..], k));
    }
  }

  lemma SubsetSize<T>(a: set<T>, b: set<T>)
    requires a <= b
    ensures |a| <= |b|
  {
    assert b == a + (b - a);
  }

  function InSetMask(ls: seq<Row>, kl: nat, s: set<Cell>): (m: seq<bool>)
    requires KeyWidth(ls, kl)
    ensures |m| == |ls|
  {
    seq(|ls|, i requires 0 <= i < |ls| => ls[i][kl] in s)
  }

  /** Rows with distinct keys: at most `|s|` of them have a key in `s`. */
  lemma {:induction false} CountDistinctIn(ls: seq<Row>, kl: nat, s: set<Cell>)
    requires KeyWidth(ls, kl) && DistinctKeys(ls, kl)
    ensures CountTrue(InSetMask(ls, kl, s)) <= |s|
  {
    if |ls| > 0 {
      var k0 := ls[0][kl];
      CountDistinctIn(ls[1..], kl, s - {k0});
      assert InSetMask(ls, kl, s)[1..] == InSetMask(ls[1..], kl, s - {k0}) by {
        forall i | 0 <= i < |ls| - 1 ensures InSetMask(ls, kl, s)[1..][i] == InSetMask(ls[1..], kl, s - {k0})[i] {
          assert ls[1..][i] == ls[i + 1];
          assert ls[i + 1][kl] != k0;
        }
      }
      if k0 in s {
        assert |s - {k0}| == |s| - 1;
      } else {
        assert s - {k0} == s;
      }
    }
  }

  /** With unique keys on both sides the join has at most as many rows as the smaller side,
      and at most one row per left row. */
  lemma JoinCardinality(ls: seq<Row>, kl: nat, rs: seq<Row>, kr: nat)
    requires KeyWidth(ls, kl) && KeyWidth(rs, kr)
    requires DistinctKeys(ls, kl) && DistinctKeys(rs, kr)
    ensures |JoinRows(ls, kl, rs, kr)| <= |ls|
    ensures |JoinRows(ls, kl, rs, kr)| <= |rs|
  {
    JoinUniqueRight(ls, kl, rs, kr);
    assert PartnerMask(ls, kl, rs, kr) == InSetMask(ls, kl, KeySet(rs, kr));
    CountDistinctIn(ls, kl, KeySet(rs, kr));
    KeySetSize(rs, kr);
  }
}
