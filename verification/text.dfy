/** Character-level helpers: decimal digits with zero padding (the `%Y`, `%m`
    and `f"FY{i}"` renderings) and the substring tests behind `filter(regex=…)`. */
module Text {

  predicate IsDigit(c: char) {
    '0' <= c <= '9'
  }

  predicate AllDigits(s: string) {
    forall i :: 0 <= i < |s| ==> IsDigit(s[i])
  }

  predicate IsUpper(c: char) {
    'A' <= c <= 'Z'
  }

  function Pow10(w: nat): (p: nat)
    ensures p >= 1
  {
    if w == 0 then 1 else 10 * Pow10(w - 1)
  }

  /** The number a string of decimal digits denotes. */
  function DigitsValue(s: string): (n: nat)
    requires AllDigits(s)
    ensures n < Pow10(|s|)
  {
    if |s| == 0 then 0
    else DigitsValue(s[..|s| - 1]) * 10 + (s[|s| - 1] as int - '0' as int)
  }

  /** `n` rendered in exactly `w` decimal digits, zero-padded on the left. */
  function Pad(n: nat, w: nat): (s: string)
    requires n < Pow10(w)
    ensures |s| == w && AllDigits(s)
    ensures DigitsValue(s) == n
  {
    if w == 0 then ""
    else
      SplitDigit(n, w);
      var s := Pad(n / 10, w - 1) + [('0' as int + n % 10) as char];
      assert s[..|s| - 1] == Pad(n / 10, w - 1);
      s
  }

  /** A number of `w` digits is its leading `w - 1` digits and its last digit. */
  lemma SplitDigit(n: nat, w: nat)
    requires 0 < w && n < Pow10(w)
    ensures n / 10 < Pow10(w - 1) && n == n / 10 * 10 + n % 10 && n % 10 < 10
  {
  }

  /** Reading a digit string back and padding it to its own width gives the string. */
  lemma {:induction false} PadDigitsValue(s: string)
    requires AllDigits(s)
    ensures Pad(DigitsValue(s), |s|) == s
  {
    if |s| > 0 {
      var init := s[..|s| - 1];
      PadDigitsValue(init);
      var d := s[|s| - 1] as int - '0' as int;
      LastDigit(DigitsValue(init), d);
      assert s == init + [('0' as int + d) as char];
    }
  }

  /** Appending decimal digit `d` to `a` and splitting it off again. */
  lemma LastDigit(a: nat, d: nat)
    requires d < 10
    ensures (a * 10 + d) / 10 == a && (a * 10 + d) % 10 == d
  {
  }

  /** The two characters of a two-digit padding. */
  lemma PadTwo(m: nat)
    requires m < 100
    ensures Pad(m, 2) == [('0' as int + m / 10) as char, ('0' as int + m % 10) as char]
  {
  }

  /** Two paddings to the same width agree exactly when the numbers do. */
  lemma PadInjective(m: nat, n: nat, w: nat)
    requires m < Pow10(w) && n < Pow10(w)
    ensures Pad(m, w) == Pad(n, w) <==> m == n
  {
  }

  /** `sub` occurs in `s` starting at position `i`. */
  predicate OccursAt(s: string, sub: string, i: nat) {
    i + |sub| <= |s| && s[i..i + |sub|] == sub
  }

  /** Character-by-character comparison of `sub[k..]` against `s` at offset `i + k`. */
  function MatchFrom(s: string, sub: string, i: nat, k: nat): bool
    requires i + |sub| <= |s| && k <= |sub|
    decreases |sub| - k
  {
    k == |sub| || (s[i + k] == sub[k] && MatchFrom(s, sub, i, k + 1))
  }

  /** Substring search, `re.search` for a literal pattern; `ContainsSpec` gives its meaning. */
  function Contains(s: string, sub: string): bool {
    ContainsFrom(s, sub, 0)
  }

  function ContainsFrom(s: string, sub: string, from: nat): bool
    decreases |s| - from
  {
    from + |sub| <= |s| && (MatchFrom(s, sub, from, 0) || ContainsFrom(s, sub, from + 1))
  }

  /** The character comparison decides equality of the compared slices. */
  lemma {:induction false} MatchFromSpec(s: string, sub: string, i: nat, k: nat)
    requires i + |sub| <= |s| && k <= |sub|
    ensures MatchFrom(s, sub, i, k) <==> s[i + k..i + |sub|] == sub[k..]
    decreases |sub| - k
  {
    if k < |sub| {
      MatchFromSpec(s, sub, i, k + 1);
      assert s[i + k..i + |sub|] == [s[i + k]] + s[i + k + 1..i + |sub|];
      assert sub[k..] == [sub[k]] + sub[k + 1..];
    }
  }

  lemma {:induction false} ContainsFromSpec(s: string, sub: string, from: nat)
    ensures ContainsFrom(s, sub, from) <==> exists i: nat :: from <= i && OccursAt(s, sub, i)
    decreases |s| - from
  {
    if from + |sub| <= |s| {
      MatchFromSpec(s, sub, from, 0);
      ContainsFromSpec(s, sub, from + 1);
      if MatchFrom(s, sub, from, 0) {
        assert OccursAt(s, sub, from);
      }
      if exists i: nat :: from <= i && OccursAt(s, sub, i) {
        var i: nat :| from <= i && OccursAt(s, sub, i);
        assert i == from || from + 1 <= i;
      }
    } else {
      assert forall i: nat :: from <= i ==> !OccursAt(s, sub, i);
    }
  }

  /** `Contains(s, sub)` holds exactly when `sub` occurs somewhere in `s`. */
  lemma ContainsSpec(s: string, sub: string)
    ensures Contains(s, sub) <==> exists i: nat :: OccursAt(s, sub, i)
  {
    ContainsFromSpec(s, sub, 0);
  }

  /** `s` holds `k` consecutive upper-case ASCII letters starting at `i`. */
  predicate UpperRunAt(s: string, k: nat, i: nat) {
    i + k <= |s| && forall j :: i <= j < i + k ==> IsUpper(s[j])
  }

  /** The letters `s[from + j .. from + k]` are all upper case. */
  function UpperTail(s: string, k: nat, from: nat, j: nat): bool
    requires from + k <= |s| && j <= k
    decreases k - j
  {
    j == k || (IsUpper(s[from + j]) && UpperTail(s, k, from, j + 1))
  }

  /** `re.search("[A-Z]{k}", s)`; `HasUpperRunSpec` gives its meaning. */
  function HasUpperRun(s: string, k: nat): bool {
    UpperRunFrom(s, k, 0)
  }

  function UpperRunFrom(s: string, k: nat, from: nat): bool
    decreases |s| - from
  {
    from + k <= |s| && (UpperTail(s, k, from, 0) || UpperRunFrom(s, k, from + 1))
  }

  lemma {:induction false} UpperTailSpec(s: string, k: nat, from: nat, j: nat)
    requires from + k <= |s| && j <= k
    ensures UpperTail(s, k, from, j) <==> forall t :: from + j <= t < from + k ==> IsUpper(s[t])
    decreases k - j
  {
    if j < k {
      UpperTailSpec(s, k, from, j + 1);
    }
  }

  lemma {:induction false} UpperRunFromSpec(s: string, k: nat, from: nat)
    ensures UpperRunFrom(s, k, from) <==> exists i: nat :: from <= i && UpperRunAt(s, k, i)
    decreases |s| - from
  {
    if from + k <= |s| {
      UpperTailSpec(s, k, from, 0);
      UpperRunFromSpec(s, k, from + 1);
      if UpperTail(s, k, from, 0) {
        assert UpperRunAt(s, k, from);
      }
      if exists i: nat :: from <= i && UpperRunAt(s, k, i) {
        var i: nat :| from <= i && UpperRunAt(s, k, i);
        assert i == from || from + 1 <= i;
      }
    } else {
      assert forall i: nat :: from <= i ==> !UpperRunAt(s, k, i);
    }
  }

  /** `HasUpperRun(s, k)` holds exactly when `s` has `k` upper-case letters in a row. */
  lemma HasUpperRunSpec(s: string, k: nat)
    ensures HasUpperRun(s, k) <==> exists i: nat :: UpperRunAt(s, k, i)
  {
    UpperRunFromSpec(s, k, 0);
  }
}
