/**
  The similarity ratio of two strings as Python's `difflib.SequenceMatcher`
  computes it without junk: the longest common block is taken first, the
  parts to its left and to its right are matched recursively, and the ratio
  is twice the number of matched characters over the total length.
*/
module Difflib {

  /** Length of the common run of `a` and `b` starting at `a[i]` and `b[j]`. */
  function MatchLen(a: string, b: string, i: nat, j: nat): (k: nat)
    requires i <= |a| && j <= |b|
    ensures i + k <= |a| && j + k <= |b|
    decreases |a| - i
  {
    if i < |a| && j < |b| && a[i] == b[j] then 1 + MatchLen(a, b, i + 1, j + 1) else 0
  }

  /** The run is common to both strings and cannot be extended. */
  lemma {:induction false} MatchLenRun(a: string, b: string, i: nat, j: nat)
    requires i <= |a| && j <= |b|
    ensures var k := MatchLen(a, b, i, j);
      && a[i..i + k] == b[j..j + k]
      && (i + k == |a| || j + k == |b| || a[i + k] != b[j + k])
    decreases |a| - i
  {
    if i < |a| && j < |b| && a[i] == b[j] {
      MatchLenRun(a, b, i + 1, j + 1);
      var k := MatchLen(a, b, i + 1, j + 1);
      assert a[i..i + 1 + k] == [a[i]] + a[i + 1..i + 1 + k];
      assert b[j..j + 1 + k] == [b[j]] + b[j + 1..j + 1 + k];
    }
  }

  /** `MatchLen` at a position, as quantified statements about the scan see it. */
  function RunAt(a: string, b: string, i: nat, j: nat): nat
    requires i <= |a| && j <= |b|
  {
    MatchLen(a, b, i, j)
  }

  /** A matching block: `a[i..i+k] == b[j..j+k]`. */
  datatype Block = Block(i: nat, j: nat, k: nat)

  predicate Fits(a: string, b: string, m: Block)
  {
    m.i + m.k <= |a| && m.j + m.k <= |b|
  }

  predicate IsBlock(a: string, b: string, m: Block)
  {
    Fits(a, b, m) && a[m.i..m.i + m.k] == b[m.j..m.j + m.k]
  }

  /** `(i', j')` comes before `(i, j)` in the order the scan visits positions. */
  predicate Before(i': nat, j': nat, i: nat, j: nat)
  {
    i' < i || (i' == i && j' < j)
  }

  /** No block starting before `(i, j)` is longer than `k`. */
  ghost predicate NoneLongerBefore(a: string, b: string, i: nat, j: nat, k: nat)
  {
    forall i': nat, j': nat :: i' < |a| && j' < |b| && Before(i', j', i, j) ==> RunAt(a, b, i', j') <= k
  }

  /** `m` is a maximal run and no run of its length starts before it. */
  ghost predicate FirstOfItsLength(a: string, b: string, m: Block)
  {
    && Fits(a, b, m)
    && (m.k > 0 ==> m.i < |a| && m.j < |b| && MatchLen(a, b, m.i, m.j) == m.k)
    && (forall i': nat, j': nat :: i' < |a| && j' < |b| && Before(i', j', m.i, m.j) ==> RunAt(a, b, i', j') < m.k)
  }

  /** The block the scan keeps after visiting `(i, j)`. */
  function Keep(a: string, b: string, i: nat, j: nat, best: Block): Block
    requires i < |a| && j < |b|
  {
    var k := MatchLen(a, b, i, j);
    if k > best.k then Block(i, j, k) else best
  }

  lemma KeepStep(a: string, b: string, i: nat, j: nat, best: Block)
    requires i < |a| && j < |b|
    requires NoneLongerBefore(a, b, i, j, best.k) && FirstOfItsLength(a, b, best)
    ensures NoneLongerBefore(a, b, i, j + 1, Keep(a, b, i, j, best).k)
    ensures FirstOfItsLength(a, b, Keep(a, b, i, j, best))
  {
    var k := MatchLen(a, b, i, j);
    if k > best.k {
      forall i': nat, j': nat | i' < |a| && j' < |b| && Before(i', j', i, j)
        ensures RunAt(a, b, i', j') < k
      {
      }
    }
  }

  lemma NextRow(a: string, b: string, i: nat, k: nat)
    requires NoneLongerBefore(a, b, i, |b|, k)
    ensures NoneLongerBefore(a, b, i + 1, 0, k)
  {
    forall i': nat, j': nat | i' < |a| && j' < |b| && Before(i', j', i + 1, 0)
      ensures RunAt(a, b, i', j') <= k
    {
      assert Before(i', j', i, |b|);
    }
  }

  /** The scan of `find_longest_match`: positions row by row, keeping the first
      block strictly longer than the best so far. */
  function Scan(a: string, b: string, i: nat, j: nat, best: Block): Block
    requires i <= |a| && j <= |b|
    decreases |a| - i, |b| - j
  {
    if i == |a| then best
    else if j == |b| then Scan(a, b, i + 1, 0, best)
    else Scan(a, b, i, j + 1, Keep(a, b, i, j, best))
  }

  lemma ScanRowEnd(a: string, b: string, i: nat, best: Block)
    requires i < |a|
    ensures Scan(a, b, i, |b|, best) == Scan(a, b, i + 1, 0, best)
  {
  }

  lemma ScanStep(a: string, b: string, i: nat, j: nat, best: Block)
    requires i < |a| && j < |b|
    ensures Scan(a, b, i, j, best) == Scan(a, b, i, j + 1, Keep(a, b, i, j, best))
  {
  }

  /** Past the last row every position has been visited. */
  lemma ScanEnd(a: string, b: string, j: nat, k: nat)
    requires NoneLongerBefore(a, b, |a|, j, k)
    ensures NoneLongerBefore(a, b, |a|, 0, k)
  {
    assert forall i': nat, j': nat :: Before(i', j', |a|, 0) ==> Before(i', j', |a|, j);
  }

  /** The scan keeps the invariant of `find_longest_match` up to its end. */
  lemma {:induction false} ScanFinds(a: string, b: string, i: nat, j: nat, best: Block)
    requires i <= |a| && j <= |b|
    requires NoneLongerBefore(a, b, i, j, best.k) && FirstOfItsLength(a, b, best)
    ensures NoneLongerBefore(a, b, |a|, 0, Scan(a, b, i, j, best).k)
    ensures FirstOfItsLength(a, b, Scan(a, b, i, j, best))
    decreases |a| - i, |b| - j
  {
    if i == |a| {
      ScanEnd(a, b, j, best.k);
    } else if j == |b| {
      ScanRowEnd(a, b, i, best);
      NextRow(a, b, i, best.k);
      ScanFinds(a, b, i + 1, 0, best);
    } else {
      ScanStep(a, b, i, j, best);
      KeepStep(a, b, i, j, best);
      ScanFinds(a, b, i, j + 1, Keep(a, b, i, j, best));
    }
  }

  /** No common block is longer than `m`, and none as long starts before it. */
  ghost predicate IsLongest(a: string, b: string, m: Block)
  {
    && (forall i': nat, j': nat :: i' < |a| && j' < |b| ==> RunAt(a, b, i', j') <= m.k)
    && (forall i': nat, j': nat :: i' < |a| && j' < |b| && Before(i', j', m.i, m.j) ==> RunAt(a, b, i', j') < m.k)
  }

  /** `find_longest_match` over the whole of `a` and `b`: a longest common block,
      the one starting earliest in `a`, and among those the earliest in `b`. */
  function Longest(a: string, b: string): (r: Block)
    ensures Fits(a, b, r)
  {
    ScanFinds(a, b, 0, 0, Block(0, 0, 0));
    Scan(a, b, 0, 0, Block(0, 0, 0))
  }

  /** The block `find_longest_match` returns is a common block of `a` and `b`. */
  lemma LongestIsBlock(a: string, b: string)
    ensures IsBlock(a, b, Longest(a, b))
  {
    ScanFinds(a, b, 0, 0, Block(0, 0, 0));
    var m := Longest(a, b);
    if m.k > 0 {
      MatchLenRun(a, b, m.i, m.j);
    }
  }

  /** ... and no common block is longer, nor as long and earlier. */
  lemma LongestIsLongest(a: string, b: string)
    ensures IsLongest(a, b, Longest(a, b))
  {
    ScanFinds(a, b, 0, 0, Block(0, 0, 0));
    assert forall i': nat, j': nat :: i' < |a| ==> Before(i', j', |a|, 0);
  }

  /** The number of characters in the matching blocks of `get_matching_blocks`. */
  function Matched(a: string, b: string): (r: nat)
    ensures r <= |a| && r <= |b|
    decreases |a| + |b|, 1
  {
    MatchedAround(a, b, Longest(a, b))
  }

  /** The block `m`, then the blocks matched to its left and to its right. */
  function MatchedAround(a: string, b: string, m: Block): (r: nat)
    requires Fits(a, b, m)
    ensures r <= |a| && r <= |b|
    decreases |a| + |b|, 0
  {
    if m.k == 0 then 0
    else m.k + Matched(a[..m.i], b[..m.j]) + Matched(a[m.i + m.k..], b[m.j + m.k..])
  }

  /** `SequenceMatcher(None, a, b).ratio()`: 2M/T, and 1.0 for two empty strings. */
  function Ratio(a: string, b: string): (r: real)
    ensures 0.0 <= r <= 1.0
  {
    var t := |a| + |b|;
    if t == 0 then 1.0
    else
      var m := Matched(a, b);
      FractionBounds(2.0 * m as real, t as real);
      2.0 * m as real / t as real
  }

  lemma FractionBounds(x: real, t: real)
    requires 0.0 <= x <= t && t > 0.0
    ensures 0.0 <= x / t <= 1.0
  {
    assert x / t * t == x;
  }

  /** A string matches itself completely. */
  lemma MatchedSelf(a: string)
    ensures Matched(a, a) == |a|
  {
    if |a| > 0 {
      var m := Longest(a, a);
      LongestIsLongest(a, a);
      assert RunAt(a, a, 0, 0) == |a| by {
        MatchLenSelf(a, 0);
      }
      assert m.k == |a| && m.i == 0 && m.j == 0;
      MatchedUnfold(a, a, m);
      assert a[..0] == [] && a[|a|..] == [];
    }
  }

  lemma {:induction false} MatchLenSelf(a: string, i: nat)
    requires i <= |a|
    ensures MatchLen(a, a, i, i) == |a| - i
    decreases |a| - i
  {
    if i < |a| {
      MatchLenSelf(a, i + 1);
    }
  }

  /** When every character of both strings is matched, the strings are equal. */
  lemma {:induction false} MatchedAll(a: string, b: string)
    requires Matched(a, b) == |a| == |b|
    ensures a == b
    decreases |a| + |b|
  {
    var m := Longest(a, b);
    if m.k > 0 {
      var aL, bL := a[..m.i], b[..m.j];
      var aR, bR := a[m.i + m.k..], b[m.j + m.k..];
      SplitAtBlock(a, b, m);
      LongestIsBlock(a, b);
      MatchedAll(aL, bL);
      MatchedAll(aR, bR);
      assert a == aL + a[m.i..m.i + m.k] + aR;
      assert b == bL + b[m.j..m.j + m.k] + bR;
    }
  }

  lemma MatchedUnfold(a: string, b: string, m: Block)
    requires m == Longest(a, b) && m.k > 0
    ensures Matched(a, b) == m.k + Matched(a[..m.i], b[..m.j]) + Matched(a[m.i + m.k..], b[m.j + m.k..])
  {
    assert Matched(a, b) == MatchedAround(a, b, m);
    AroundUnfold(a, b, m);
  }

  lemma AroundUnfold(a: string, b: string, m: Block)
    requires Fits(a, b, m) && m.k > 0
    ensures MatchedAround(a, b, m) == m.k + Matched(a[..m.i], b[..m.j]) + Matched(a[m.i + m.k..], b[m.j + m.k..])
  {
  }

  /** Matching everything means matching everything on both sides of the longest block. */
  lemma SplitAtBlock(a: string, b: string, m: Block)
    requires Matched(a, b) == |a| == |b| && m == Longest(a, b) && m.k > 0
    ensures Matched(a[..m.i], b[..m.j]) == m.i == m.j
    ensures Matched(a[m.i + m.k..], b[m.j + m.k..]) == |a| - m.i - m.k == |b| - m.j - m.k
  {
    MatchedUnfold(a, b, m);
    var aL, bL := a[..m.i], b[..m.j];
    var aR, bR := a[m.i + m.k..], b[m.j + m.k..];
    assert |aL| == m.i && |bL| == m.j;
    assert |aR| == |a| - m.i - m.k && |bR| == |b| - m.j - m.k;
    var mL, mR := Matched(aL, bL), Matched(aR, bR);
    assert mL <= m.i && mL <= m.j && mR <= |aR| && mR <= |bR|;
  }

  /** A quotient over a positive total is 1 exactly when the two are equal. */
  lemma QuotientOne(x: real, t: real)
    requires t > 0.0
    ensures x / t == 1.0 <==> x == t
  {
    assert x / t * t == x;
  }

  /** The ratio is 1 exactly for equal strings. */
  lemma RatioOne(a: string, b: string)
    ensures Ratio(a, b) == 1.0 <==> a == b
  {
    if |a| + |b| > 0 {
      var x, t := 2.0 * Matched(a, b) as real, (|a| + |b|) as real;
      assert Ratio(a, b) == x / t;
      QuotientOne(x, t);
      if a == b {
        MatchedSelf(a);
      } else if Ratio(a, b) == 1.0 {
        MatchedAll(a, b);
      }
    }
  }
}
