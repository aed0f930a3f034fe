/** Order-preserving selection on sequences. Boolean masks are how pandas keeps
    columns (`.loc[:, mask]`, `filter(regex=…)`) and rows (`df[mask]`, `dropna`). */
module Seqs {

  /** Number of `true` entries of a mask. */
  function CountTrue(keep: seq<bool>): (n: nat)
    ensures n <= |keep|
    ensures n == |keep| <==> forall i :: 0 <= i < |keep| ==> keep[i]
    ensures n == 0 <==> forall i :: 0 <= i < |keep| ==> !keep[i]
  {
    if |keep| == 0 then 0
    else
      var rest := CountTrue(keep[1..]);
      assert forall i :: 1 <= i < |keep| ==> keep[i] == keep[1..][i - 1];
      (if keep[0] then 1 else 0) + rest
  }

  /** Keeps `s[i]` exactly where `keep[i]` holds, in the original order. */
  function Mask<T>(s: seq<T>, keep: seq<bool>): (r: seq<T>)
    requires |keep| == |s|
    ensures |r| == CountTrue(keep)
  {
    if |s| == 0 then []
    else
      var tail := Mask(s[1..], keep[1..]);
      if keep[0] then [s[0]] + tail else tail
  }

  /** The mask of positions of `s` whose element satisfies `p`. */
  function MaskOf<T>(s: seq<T>, p: T -> bool): (keep: seq<bool>)
    ensures |keep| == |s|
    ensures forall i :: 0 <= i < |s| ==> keep[i] == p(s[i])
  {
    seq(|s|, i requires 0 <= i < |s| => p(s[i]))
  }

  /** The concatenation of a sequence of sequences (`pd.concat(..., ignore_index=True)` on rows). */
  function Flatten<T>(ss: seq<seq<T>>): (r: seq<T>)
  {
    if |ss| == 0 then [] else ss[0] + Flatten(ss[1..])
  }

  /** An element survives a mask exactly when it sits at a kept position. */
  lemma {:induction false} MaskMember<T>(s: seq<T>, keep: seq<bool>, x: T)
    requires |keep| == |s|
    ensures x in Mask(s, keep) <==> exists i :: 0 <= i < |s| && keep[i] && s[i] == x
  {
    if |s| > 0 {
      MaskMember(s[1..], keep[1..], x);
      if exists i :: 0 <= i < |s| && keep[i] && s[i] == x {
        var i :| 0 <= i < |s| && keep[i] && s[i] == x;
        if i > 0 {
          assert keep[1..][i - 1] && s[1..][i - 1] == x;
        }
      }
      if exists i :: 0 <= i < |s[1..]| && keep[1..][i] && s[1..][i] == x {
        var i :| 0 <= i < |s[1..]| && keep[1..][i] && s[1..][i] == x;
        assert keep[i + 1] && s[i + 1] == x;
      }
    }
  }

  /** Selection distributes over concatenation: masking keeps blocks in their order. */
  lemma {:induction false} MaskAppend<T>(a: seq<T>, ka: seq<bool>, b: seq<T>, kb: seq<bool>)
    requires |ka| == |a| && |kb| == |b|
    ensures Mask(a + b, ka + kb) == Mask(a, ka) + Mask(b, kb)
  {
    if |a| == 0 {
      assert a + b == b && ka + kb == kb;
    } else {
      assert (a + b)[1..] == a[1..] + b;
      assert (ka + kb)[1..] == ka[1..] + kb;
      MaskAppend(a[1..], ka[1..], b, kb);
    }
  }

  /** The first `k + 1` elements are the first `k` and element `k`. */
  lemma TakeNext<T>(s: seq<T>, k: nat)
    requires k < |s|
    ensures s[..k + 1] == s[..k] + [s[k]]
  {
  }

  /** Masking three concatenated pieces, piece by piece. */
  lemma MaskAppend3<T>(a: seq<T>, ka: seq<bool>, b: seq<T>, kb: seq<bool>, c: seq<T>, kc: seq<bool>)
    requires |ka| == |a| && |kb| == |b| && |kc| == |c|
    ensures Mask(a + b + c, ka + kb + kc) == Mask(a, ka) + Mask(b, kb) + Mask(c, kc)
  {
    MaskAppend(a, ka, b, kb);
    MaskAppend(a + b, ka + kb, c, kc);
  }

  /** An all-true mask keeps everything. */
  lemma {:induction false} MaskAll<T>(s: seq<T>, keep: seq<bool>)
    requires |keep| == |s|
    requires forall i :: 0 <= i < |keep| ==> keep[i]
    ensures Mask(s, keep) == s
  {
    if |s| > 0 {
      MaskAll(s[1..], keep[1..]);
    }
  }

  /** An all-false mask keeps nothing. */
  lemma MaskNone<T>(s: seq<T>, keep: seq<bool>)
    requires |keep| == |s|
    requires forall i :: 0 <= i < |keep| ==> !keep[i]
    ensures Mask(s, keep) == []
  {
  }

  /** Masking commutes with applying a function to every element. */
  lemma {:induction false} MaskMap<T, U>(s: seq<T>, keep: seq<bool>, f: T -> U)
    requires |keep| == |s|
    ensures Mask(seq(|s|, i requires 0 <= i < |s| => f(s[i])), keep)
         == (var m := Mask(s, keep); seq(|m|, t requires 0 <= t < |m| => f(m[t])))
  {
    var fs := seq(|s|, i requires 0 <= i < |s| => f(s[i]));
    if |s| > 0 {
      MaskMap(s[1..], keep[1..], f);
      assert fs[1..] == seq(|s[1..]|, i requires 0 <= i < |s[1..]| => f(s[1..][i]));
    }
  }

  /** Flattening distributes over concatenation of the outer sequence. */
  lemma {:induction false} FlattenAppend<T>(a: seq<seq<T>>, b: seq<seq<T>>)
    ensures Flatten(a + b) == Flatten(a) + Flatten(b)
  {
    if |a| == 0 {
      assert a + b == b;
    } else {
      assert (a + b)[1..] == a[1..] + b;
      FlattenAppend(a[1..], b);
    }
  }

  /** Every element a predicate's own mask keeps satisfies the predicate. */
  lemma MaskOfKeeps<T>(s: seq<T>, p: T -> bool)
    ensures forall x :: x in Mask(s, MaskOf(s, p)) ==> p(x)
  {
    forall x | x in Mask(s, MaskOf(s, p)) ensures p(x) {
      MaskMember(s, MaskOf(s, p), x);
    }
  }

  /** The mask of a predicate over a concatenation is the concatenation of the masks. */
  lemma MaskOfAppend<T>(a: seq<T>, b: seq<T>, p: T -> bool)
    ensures MaskOf(a + b, p) == MaskOf(a, p) + MaskOf(b, p)
  {
  }

  /** Selecting by a weaker predicate `p` and then by a stronger `q` on what survived is the
      same as selecting by `q` at once; `h` holds the elements the predicates look at. */
  lemma {:induction false} MaskRefine<T, U>(s: seq<T>, h: seq<U>, p: U -> bool, q: U -> bool)
    requires |s| == |h|
    requires forall x :: q(x) ==> p(x)
    ensures Mask(Mask(s, MaskOf(h, p)), MaskOf(Mask(h, MaskOf(h, p)), q)) == Mask(s, MaskOf(h, q))
  {
    if |s| > 0 {
      var kp := MaskOf(h, p);
      assert kp[1..] == MaskOf(h[1..], p);
      assert MaskOf(h, q)[1..] == MaskOf(h[1..], q);
      MaskRefine(s[1..], h[1..], p, q);
      var ms := Mask(s[1..], kp[1..]);
      var mh := Mask(h[1..], kp[1..]);
      if p(h[0]) {
        assert Mask(s, kp) == [s[0]] + ms;
        assert Mask(h, kp) == [h[0]] + mh;
        MaskOfAppend([h[0]], mh, q);
        assert MaskOf([h[0]], q) == [q(h[0])];
        assert ([s[0]] + ms)[1..] == ms;
      }
    }
  }

  /** An element is in a flattening exactly when it is in one of the parts. */
  lemma {:induction false} FlattenMember<T>(ss: seq<seq<T>>, x: T)
    ensures x in Flatten(ss) <==> exists k :: 0 <= k < |ss| && x in ss[k]
  {
    if |ss| > 0 {
      FlattenMember(ss[1..], x);
      if exists k :: 0 <= k < |ss| && x in ss[k] {
        var k :| 0 <= k < |ss| && x in ss[k];
        if k > 0 {
          assert ss[1..][k - 1] == ss[k];
        }
      }
      if exists k :: 0 <= k < |ss[1..]| && x in ss[1..][k] {
        var k :| 0 <= k < |ss[1..]| && x in ss[1..][k];
        assert ss[k + 1] == ss[1..][k];
      }
    }
  }
}
