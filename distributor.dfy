/** The word distributor `_distribute_new_val`: the replacement's words are
    shared out over the matched leaves in proportion to their original word
    counts, rounding drift is reconciled, and the words are sliced out in
    order. */
module Distributor {
  import opened Text

  /** `new_words`: the words of the normalised replacement. */
  function NewWords(s: string): (ws: seq<string>)
    ensures ws == Split(s)
    ensures JoinWords(ws) == Normalize(s)
  {
    SplitNormalize(s);
    CanonicalJoinSplit(Normalize(s));
    Split(Normalize(s))
  }

  function WordCount(s: string): nat {
    |Split(Normalize(s))|
  }

  /** `current_word_counts`. */
  function WordCounts(texts: seq<string>): (counts: seq<nat>)
    ensures |counts| == |texts|
    ensures forall k :: 0 <= k < |texts| ==> counts[k] == WordCount(texts[k])
  {
    seq(|texts|, k requires 0 <= k < |texts| => WordCount(texts[k]))
  }

  function Sum(xs: seq<int>): int {
    if xs == [] then 0 else Sum(xs[..|xs| - 1]) + xs[|xs| - 1]
  }

  /** How many entries are positive. */
  function Positives(xs: seq<int>): nat {
    if xs == [] then 0 else Positives(xs[..|xs| - 1]) + (if xs[|xs| - 1] > 0 then 1 else 0)
  }

  /** Python's `round` on the exact quotient `num / den`: the nearest
      integer, ties to the even one. */
  function RoundHalfEven(num: nat, den: nat): (r: nat)
    requires den > 0
    ensures 2 * num - den <= 2 * r * den <= 2 * num + den
    ensures 2 * r * den == 2 * num + den || 2 * r * den == 2 * num - den ==> r % 2 == 0
  {
    var q, m := num / den, num % den;
    assert num == q * den + m;
    assert 2 * q * den == 2 * num - 2 * m;
    assert 2 * (q + 1) * den == 2 * num - 2 * m + 2 * den;
    if 2 * m < den then q
    else if 2 * m > den then q + 1
    else if q % 2 == 0 then q
    else q + 1
  }

  /** The initial word count of each leaf: proportional rounding when the
      originals have words, an even spread (earlier leaves first) when they
      have none. */
  function Shares(counts: seq<nat>, total: nat): (sh: seq<nat>)
    ensures |sh| == |counts|
  {
    var n := |counts|;
    var s := Sum(counts);
    if s > 0 then seq(n, i requires 0 <= i < n => RoundHalfEven(total * counts[i], s))
    else seq(n, i requires 0 <= i < n => total / n + (if i < total % n then 1 else 0))
  }

  /** The excess of a nonnegative assignment over `total` is at most the
      number of positive entries: one pass of decrements removes it. */
  ghost predicate DriftBounded(a: seq<int>, total: nat) {
    NonNegative(a) && Sum(a) - total <= Positives(a)
  }

  ghost predicate NonNegative(xs: seq<int>) {
    forall k :: 0 <= k < |xs| ==> xs[k] >= 0
  }

  /** `c` is `sh` with `d` words handed out one per leaf, cyclically from
      the first leaf. */
  ghost predicate SpreadUp(sh: seq<int>, c: seq<int>, d: nat) {
    && |c| == |sh| > 0
    && forall k :: 0 <= k < |c| ==> c[k] == sh[k] + d / |sh| + (if k < d % |sh| then 1 else 0)
  }

  /** `c` is `sh` with one word taken from each leaf below `m` that has one. */
  ghost predicate TrimmedBelow(sh: seq<int>, c: seq<int>, m: nat) {
    && |c| == |sh| && m <= |sh|
    && forall k :: 0 <= k < |c| ==> c[k] == (if k < m && sh[k] > 0 then sh[k] - 1 else sh[k])
  }

  /** `c` is what reconciling `sh` towards `total` ends with: a deficit
      handed out round-robin from the first leaf, or a surplus taken back
      one word each from the first leaves that have words. */
  ghost predicate IsReconciliation(sh: seq<int>, c: seq<int>, total: nat) {
    && (Sum(sh) <= total ==> SpreadUp(sh, c, total - Sum(sh)))
    && (Sum(sh) > total ==> exists m: nat :: TrimmedBelow(sh, c, m) && Positives(sh[..m]) == Sum(sh) - total)
  }

  /** `piece` holds exactly slice `k` of `words` when `words` is cut into
      consecutive slices of `counts[0]`, `counts[1]`, ... words. */
  ghost predicate HoldsSlice(piece: string, words: seq<string>, counts: seq<int>, k: nat)
    requires k < |counts|
  {
    && 0 <= Sum(counts[..k]) <= Sum(counts[..k + 1]) <= |words|
    && Split(piece) == words[Sum(counts[..k])..Sum(counts[..k + 1])]
  }

  /** `counts` are non-negative and cut exactly `total` words. */
  ghost predicate ExactCounts(counts: seq<int>, total: nat) {
    (forall k :: 0 <= k < |counts| ==> counts[k] >= 0) && Sum(counts) == total
  }

  /** Pieces `0` to `i - 1` hold their slices of `words`. */
  ghost predicate SlicedUpTo(pieces: seq<string>, words: seq<string>, counts: seq<int>, i: nat)
    requires i <= |pieces| == |counts|
  {
    forall k :: 0 <= k < i ==> HoldsSlice(pieces[k], words, counts, k)
  }

  /** The pieces are one per original, each a single-space join of words,
      and together they hold the replacement's words in order. */
  ghost predicate CarriesWords(pieces: seq<string>, texts: seq<string>, newVal: string) {
    && |pieces| == |texts|
    && WordsOf(pieces) == (if texts == [] then [] else NewWords(newVal))
    && AllCanonical(pieces)
  }

  /** Each piece holds exactly its slice of the words, cut by the
      reconciled proportional shares. */
  ghost predicate FollowsShares(pieces: seq<string>, texts: seq<string>, newVal: string)
    requires |pieces| == |texts|
  {
    var words := NewWords(newVal);
    var sh := Shares(WordCounts(texts), |words|);
    texts != [] && words != [] ==>
      exists c: seq<int> :: && |c| == |pieces| && IsReconciliation(sh, c, |words|)
                           && ExactCounts(c, |words|) && SlicedUpTo(pieces, words, c, |pieces|)
  }

  /** What `_distribute_new_val` promises of its result. */
  ghost predicate IsDistributionOf(pieces: seq<string>, texts: seq<string>, newVal: string) {
    CarriesWords(pieces, texts, newVal) && FollowsShares(pieces, texts, newVal)
  }

  // ---------------------------------------------------------------------
  // Sums and counts

  lemma {:induction false} SumConcat(a: seq<int>, b: seq<int>)
    ensures Sum(a + b) == Sum(a) + Sum(b)
    decreases |b|
  {
    if b == [] {
      assert a + b == a;
    } else {
      assert (a + b)[..|a + b| - 1] == a + b[..|b| - 1];
      SumConcat(a, b[..|b| - 1]);
    }
  }

  lemma {:induction false} PositivesConcat(a: seq<int>, b: seq<int>)
    ensures Positives(a + b) == Positives(a) + Positives(b)
    decreases |b|
  {
    if b == [] {
      assert a + b == a;
    } else {
      assert (a + b)[..|a + b| - 1] == a + b[..|b| - 1];
      PositivesConcat(a, b[..|b| - 1]);
    }
  }

  lemma SumPrefixStep(xs: seq<int>, i: nat)
    requires i < |xs|
    ensures Sum(xs[..i + 1]) == Sum(xs[..i]) + xs[i]
    ensures Positives(xs[..i + 1]) == Positives(xs[..i]) + (if xs[i] > 0 then 1 else 0)
  {
    assert xs[..i + 1][..i] == xs[..i];
  }

  lemma SumUpdate(xs: seq<int>, k: nat, v: int)
    requires k < |xs|
    ensures Sum(xs[k := v]) == Sum(xs) - xs[k] + v
  {
    var ys := xs[k := v];
    assert xs == xs[..k] + [xs[k]] + xs[k + 1..];
    assert ys == xs[..k] + [v] + xs[k + 1..];
    SumConcat(xs[..k] + [xs[k]], xs[k + 1..]);
    SumConcat(xs[..k], [xs[k]]);
    SumConcat(xs[..k] + [v], xs[k + 1..]);
    SumConcat(xs[..k], [v]);
  }

  lemma PositivesSuffixStep(xs: seq<int>, i: nat)
    requires i < |xs|
    ensures Positives(xs[i..]) == (if xs[i] > 0 then 1 else 0) + Positives(xs[i + 1..])
  {
    assert xs[i..] == [xs[i]] + xs[i + 1..];
    PositivesConcat([xs[i]], xs[i + 1..]);
    assert [xs[i]][..0] == [];
  }

  lemma {:induction false} SumNonnegPrefix(xs: seq<int>, i: nat)
    requires forall k :: 0 <= k < |xs| ==> xs[k] >= 0
    requires i <= |xs|
    ensures 0 <= Sum(xs[..i]) <= Sum(xs)
    decreases |xs| - i
  {
    SumNonnegAll(xs[..i]);
    if i < |xs| {
      SumPrefixStep(xs, i);
      SumNonnegPrefix(xs, i + 1);
    } else {
      assert xs[..i] == xs;
      SumNonnegAll(xs);
    }
  }

  lemma {:induction false} SumNonnegAll(xs: seq<int>)
    requires forall k :: 0 <= k < |xs| ==> xs[k] >= 0
    ensures Sum(xs) >= 0
  {
    if xs != [] {
      SumNonnegAll(xs[..|xs| - 1]);
    }
  }

  lemma DriftFinal(s: int, x: int, total: int, p: int)
    requires s > 0 && 2 * (s * x - total * s) <= s * p
    ensures 2 * (x - total) <= p
  {
    assert 2 * (s * x - total * s) == s * (2 * (x - total));
  }

  // ---------------------------------------------------------------------
  // Initial shares

  /** The `for i in range(...)` loops that fill `assigned_word_counts`. */
  method InitialCounts(counts: seq<nat>, total: nat) returns (assignedCounts: seq<int>)
    ensures assignedCounts == Shares(counts, total)
  {
    var n := |counts|;
    assignedCounts := seq(n, _ => 0);
    var totalCurrent := Sum(counts);
    if totalCurrent > 0 {
      for i := 0 to n
        invariant |assignedCounts| == n
        invariant forall k :: 0 <= k < i ==> assignedCounts[k] == Shares(counts, total)[k]
      {
        assignedCounts := assignedCounts[i := RoundHalfEven(total * counts[i], totalCurrent)];
      }
    } else if n > 0 {
      var base := total / n;
      var remainder := total % n;
      for i := 0 to n
        invariant |assignedCounts| == n
        invariant forall k :: 0 <= k < i ==> assignedCounts[k] == Shares(counts, total)[k]
      {
        assignedCounts := assignedCounts[i := base + (if i < remainder then 1 else 0)];
      }
    }
  }

  lemma EvenStep(i: int, base: int, rem: int)
    requires i > 0
    ensures (i - 1) * base + (if i - 1 < rem then i - 1 else rem) + (base + if i - 1 < rem then 1 else 0)
      == i * base + (if i < rem then i else rem)
  {
    assert i * base == (i - 1) * base + base;
  }

  lemma {:induction false} EvenPrefix(counts: seq<nat>, total: nat, i: nat)
    requires counts != [] && Sum(counts) == 0 && i <= |counts|
    ensures Sum(Shares(counts, total)[..i]) == i * (total / |counts|) + (if i < total % |counts| then i else total % |counts|)
  {
    if i > 0 {
      var sh := Shares(counts, total);
      EvenPrefix(counts, total, i - 1);
      SumPrefixStep(sh, i - 1);
      EvenEntries(counts, total);
      EvenStep(i, total / |counts|, total % |counts|);
    }
  }

  lemma EvenEntries(counts: seq<nat>, total: nat)
    requires counts != [] && Sum(counts) == 0
    ensures forall i :: 0 <= i < |counts| ==>
      Shares(counts, total)[i] == total / |counts| + (if i < total % |counts| then 1 else 0)
  {
  }

  lemma DivMod(total: nat, n: nat)
    requires n > 0
    ensures total % n < n && total == n * (total / n) + total % n
  {
  }

  /** When the originals have no words the even spread hands out exactly
      `total` words, and no two leaves differ by more than one. */
  lemma SharesEven(counts: seq<nat>, total: nat)
    requires counts != [] && Sum(counts) == 0
    ensures Sum(Shares(counts, total)) == total
    ensures forall i, j :: 0 <= i < j < |counts| ==>
      Shares(counts, total)[j] <= Shares(counts, total)[i] <= Shares(counts, total)[j] + 1
  {
    var n, sh := |counts|, Shares(counts, total);
    EvenEntries(counts, total);
    EvenPrefix(counts, total, n);
    assert sh[..n] == sh;
    DivMod(total, n);
  }

  /** One leaf's contribution to the drift bound of `DriftPrefix`. */
  lemma DriftStep(s: int, a: int, r: int, total: int, cs: int, c: int, p: int)
    requires s > 0 && r >= 0 && total * c >= 0
    requires 2 * (s * a - total * cs) <= s * p
    requires 2 * r * s <= 2 * (total * c) + s
    ensures 2 * (s * (a + r) - total * (cs + c)) <= s * (p + if r > 0 then 1 else 0)
  {
    assert s * (a + r) == s * a + s * r;
    assert total * (cs + c) == total * cs + total * c;
    assert s * (p + 1) == s * p + s;
    assert 2 * r * s == 2 * (s * r);
  }

  /** Leaf `i`'s proportional share is at most half a word above its exact
      share `total * counts[i] / Sum(counts)`. */
  lemma ShareAt(counts: seq<nat>, total: nat, i: nat)
    requires Sum(counts) > 0 && i < |counts|
    ensures total * counts[i] >= 0
    ensures 2 * Shares(counts, total)[i] * Sum(counts) <= 2 * (total * counts[i]) + Sum(counts)
    ensures 2 * Shares(counts, total)[i] * Sum(counts) >= 2 * (total * counts[i]) - Sum(counts)
  {
    var s, c := Sum(counts), counts[i];
    var num: nat := total * c;
    var r := RoundHalfEven(num, s);
    assert Shares(counts, total)[i] == r;
    assert 2 * num - s <= 2 * r * s <= 2 * num + s;
  }

  lemma {:induction false} DriftPrefix(counts: seq<nat>, total: nat, i: nat)
    requires Sum(counts) > 0 && i <= |counts|
    ensures 2 * (Sum(counts) * Sum(Shares(counts, total)[..i]) - total * Sum(counts[..i]))
      <= Sum(counts) * Positives(Shares(counts, total)[..i])
  {
    if i > 0 {
      var s, sh := Sum(counts), Shares(counts, total);
      DriftPrefix(counts, total, i - 1);
      SumPrefixStep(sh, i - 1);
      SumPrefixStep(counts, i - 1);
      ShareAt(counts, total, i - 1);
      DriftStep(s, Sum(sh[..i - 1]), sh[i - 1], total, Sum(counts[..i - 1]), counts[i - 1], Positives(sh[..i - 1]));
    }
  }

  /** The initial shares never overshoot by more than half the number of
      positive shares, so one reconciliation pass always suffices. */
  lemma SharesDrift(counts: seq<nat>, total: nat)
    requires counts != []
    ensures DriftBounded(Shares(counts, total), total)
    ensures 2 * (Sum(Shares(counts, total)) - total) <= Positives(Shares(counts, total))
  {
    var sh := Shares(counts, total);
    var s := Sum(counts);
    if s > 0 {
      DriftPrefix(counts, total, |counts|);
      assert sh[..|counts|] == sh && counts[..|counts|] == counts;
      DriftFinal(s, Sum(sh), total, Positives(sh));
    } else {
      SumNonnegAll(counts);
      SharesEven(counts, total);
    }
  }

  /** One leaf's contribution to the deficit bound of `DeficitPrefix`. */
  lemma DeficitStep(s: int, a: int, r: int, total: int, cs: int, c: int, i: int)
    requires s > 0 && 2 * (total * cs - s * a) <= s * i
    requires 2 * r * s >= 2 * (total * c) - s
    ensures 2 * (total * (cs + c) - s * (a + r)) <= s * (i + 1)
  {
    assert s * (a + r) == s * a + s * r;
    assert total * (cs + c) == total * cs + total * c;
    assert s * (i + 1) == s * i + s;
    assert 2 * r * s == 2 * (s * r);
  }

  lemma {:induction false} DeficitPrefix(counts: seq<nat>, total: nat, i: nat)
    requires Sum(counts) > 0 && i <= |counts|
    ensures 2 * (total * Sum(counts[..i]) - Sum(counts) * Sum(Shares(counts, total)[..i])) <= Sum(counts) * i
  {
    if i > 0 {
      var s, sh := Sum(counts), Shares(counts, total);
      DeficitPrefix(counts, total, i - 1);
      SumPrefixStep(sh, i - 1);
      SumPrefixStep(counts, i - 1);
      ShareAt(counts, total, i - 1);
      DeficitStep(s, Sum(sh[..i - 1]), sh[i - 1], total, Sum(counts[..i - 1]), counts[i - 1], i - 1);
    }
  }

  lemma DeficitFinal(s: int, x: int, total: int, n: int)
    requires s > 0 && 2 * (total * s - s * x) <= s * n
    ensures 2 * (total - x) <= n
  {
    assert 2 * (total * s - s * x) == s * (2 * (total - x));
  }

  /** The initial shares fall short of `total` by at most half a word per
      leaf. */
  lemma SharesDeficit(counts: seq<nat>, total: nat)
    requires counts != []
    ensures 2 * (total - Sum(Shares(counts, total))) <= |counts|
  {
    var sh := Shares(counts, total);
    var s := Sum(counts);
    if s > 0 {
      DeficitPrefix(counts, total, |counts|);
      assert sh[..|counts|] == sh && counts[..|counts|] == counts;
      DeficitFinal(s, Sum(sh), total, |counts|);
    } else {
      SumNonnegAll(counts);
      SharesEven(counts, total);
    }
  }

  /** The example of two leaves of two words each and four new words. */
  lemma SharesTwoByTwo()
    ensures Shares([2, 2], 4) == [2, 2]
  {
    assert Sum([2, 2]) == 4 by {
      assert [2, 2][..1] == [2];
      assert [2][..0] == [];
    }
    assert RoundHalfEven(8, 4) == 2;
  }

  // ---------------------------------------------------------------------
  // Reconciliation

  /** The `while diff != 0` loop: walk the leaves cyclically, moving one
      word at a time towards `total` without going below zero, with the
      safety cutoff after `2 * (total + n)` steps. */
  method Reconcile(initial: seq<int>, total: nat) returns (a: seq<int>, steps: nat)
    ensures |a| == |initial|
    ensures steps <= 2 * (total + |initial|) + 1
    ensures NonNegative(initial) ==> NonNegative(a)
    ensures Sum(initial) == total ==> a == initial && steps == 0
    ensures initial != [] && DriftBounded(initial, total) ==> Sum(a) == total && steps <= total + |initial|
    ensures initial != [] && DriftBounded(initial, total) && Sum(initial) <= total ==>
      steps == total - Sum(initial) && SpreadUp(initial, a, steps)
    ensures initial != [] && DriftBounded(initial, total) && Sum(initial) > total ==>
      TrimmedBelow(initial, a, steps) && Positives(initial[..steps]) == Sum(initial) - total
  {
    a := initial;
    var diff := total - Sum(a);
    var idx := 0;
    ghost var nonneg := NonNegative(initial);
    ghost var bounded := initial != [] && DriftBounded(initial, total);
    ghost var d0 := diff;
    if bounded {
      SumNonnegAll(initial);
      assert a[0..] == a;
    }
    while diff != 0
      invariant |a| == |initial|
      invariant diff == total - Sum(a)
      invariant 0 <= idx <= 2 * (total + |a|)
      invariant nonneg ==> NonNegative(a)
      invariant d0 == 0 ==> a == initial && idx == 0
      invariant bounded ==> Tracking(a, total, diff, idx, d0)
      invariant bounded ==> Course(initial, a, diff, idx, d0)
      decreases 2 * (total + |a|) - idx
    {
      if |a| == 0 {
        break;
      }
      if bounded {
        TrackingStep(a, total, diff, idx, d0);
        CourseStep(initial, a, total, diff, idx, d0);
      }
      a, diff := AdjustAt(a, idx, diff, total);
      idx := idx + 1;
      if idx > 2 * (total + |a|) {
        a := ForceLast(a, total);
        break;
      }
    }
    steps := idx;
    if bounded {
      CourseEnd(initial, a, total, idx, d0);
    }
  }

  /** The safety cutoff: put whatever drift is left on the last leaf,
      clamped at zero. */
  method ForceLast(a: seq<int>, total: nat) returns (b: seq<int>)
    ensures |b| == |a| && (|a| > 0 ==> b[..|a| - 1] == a[..|a| - 1])
    ensures NonNegative(a) ==> NonNegative(b)
    ensures |a| > 0 && Sum(a) != total ==> b[|a| - 1] == if a[|a| - 1] + total - Sum(a) < 0 then 0 else a[|a| - 1] + total - Sum(a)
    ensures |a| > 0 && a[|a| - 1] + total - Sum(a) >= 0 ==> Sum(b) == total
    ensures |a| == 0 || Sum(a) == total ==> b == a
  {
    b := a;
    var finalDiff := total - Sum(a);
    if finalDiff != 0 && |a| > 0 {
      var last := |a| - 1;
      var v := a[last] + finalDiff;
      if v < 0 {
        v := 0;
      }
      SumUpdate(a, last, v);
      if NonNegative(a) {
      }
      b := a[last := v];
    }
  }

  /** When the loop stops with no drift left, the ghost course gives the
      final counts. */
  lemma CourseEnd(initial: seq<int>, a: seq<int>, total: nat, idx: nat, d0: int)
    requires d0 == total - Sum(initial) && Tracking(a, total, 0, idx, d0) && Course(initial, a, 0, idx, d0)
    requires initial != [] && (d0 == 0 ==> a == initial && idx == 0)
    ensures Sum(initial) <= total ==> idx == total - Sum(initial) && SpreadUp(initial, a, idx)
    ensures Sum(initial) > total ==> TrimmedBelow(initial, a, idx) && Positives(initial[..idx]) == Sum(initial) - total
  {
    if d0 == 0 {
      DivModUnique(0, |initial|, 0, 0);
    }
  }

  /** The body of the reconciliation loop: move the leaf at `idx % n` one
      word towards `total`, unless that would make it negative. */
  method AdjustAt(a: seq<int>, idx: nat, diff: int, total: nat) returns (b: seq<int>, newDiff: int)
    requires |a| > 0 && diff != 0 && diff == total - Sum(a)
    ensures |b| == |a| && newDiff == total - Sum(b)
    ensures NonNegative(a) ==> NonNegative(b)
    ensures var t, adj := idx % |a|, if diff > 0 then 1 else -1;
      if a[t] + adj >= 0 then b == a[t := a[t] + adj] && newDiff == diff - adj
      else b == a && newDiff == diff
  {
    var t := idx % |a|;
    var adjustment := if diff > 0 then 1 else -1;
    b, newDiff := a, diff;
    if a[t] + adjustment >= 0 {
      SumUpdate(a, t, a[t] + adjustment);
      if NonNegative(a) {
      }
      b := a[t := a[t] + adjustment];
      newDiff := diff - adjustment;
    }
  }

  /** The course of the loop from counts whose drift is bounded: a surplus
      `d0 > 0` is handed out one word per step, and a deficit `d0 < 0` is
      taken back within the first pass, from leaves that still have words. */
  ghost predicate Tracking(a: seq<int>, total: nat, diff: int, idx: nat, d0: int) {
    && NonNegative(a) && d0 <= total
    && (d0 > 0 ==> 0 <= diff == d0 - idx)
    && (d0 < 0 ==> diff <= 0 && idx <= |a| && -diff <= Positives(a[idx..]))
  }

  /** One step of the loop keeps `Tracking`. */
  lemma TrackingStep(a: seq<int>, total: nat, diff: int, idx: nat, d0: int)
    requires |a| > 0 && diff != 0 && d0 != 0 && Tracking(a, total, diff, idx, d0)
    ensures var t, adj := idx % |a|, if diff > 0 then 1 else -1;
      if a[t] + adj >= 0 then Tracking(a[t := a[t] + adj], total, diff - adj, idx + 1, d0)
      else Tracking(a, total, diff, idx + 1, d0)
  {
    var t, adj := idx % |a|, if diff > 0 then 1 else -1;
    if d0 < 0 {
      DownStepAt(a, idx, diff);
      if a[t] + adj >= 0 {
      }
    } else {
    }
  }

  /** The counts the loop has reached after `idx` steps from counts with
      bounded drift: a deficit is being handed out round-robin, a surplus
      taken back from the first leaves with words. */
  ghost predicate Course(initial: seq<int>, a: seq<int>, diff: int, idx: nat, d0: int) {
    && (d0 > 0 ==> SpreadUp(initial, a, idx))
    && (d0 < 0 ==> TrimmedBelow(initial, a, idx) && idx <= |initial| && diff == d0 + Positives(initial[..idx]))
  }

  /** One step of the loop keeps `Course`. */
  lemma CourseStep(initial: seq<int>, a: seq<int>, total: nat, diff: int, idx: nat, d0: int)
    requires |a| == |initial| > 0 && diff != 0 && d0 != 0 && NonNegative(initial)
    requires Tracking(a, total, diff, idx, d0) && Course(initial, a, diff, idx, d0)
    ensures var t, adj := idx % |a|, if diff > 0 then 1 else -1;
      if a[t] + adj >= 0 then Course(initial, a[t := a[t] + adj], diff - adj, idx + 1, d0)
      else Course(initial, a, diff, idx + 1, d0)
  {
    if d0 > 0 {
      SpreadStep(initial, a, idx);
    } else {
      DownStepAt(a, idx, diff);
      TrimStep(initial, a, idx);
      SumPrefixStep(initial, idx);
    }
  }

  lemma DivModNext(d: nat, n: nat)
    requires n > 0
    ensures d % n + 1 < n ==> (d + 1) / n == d / n && (d + 1) % n == d % n + 1
    ensures d % n + 1 == n ==> (d + 1) / n == d / n + 1 && (d + 1) % n == 0
  {
    var q, r := d / n, d % n;
    assert d == q * n + r;
    if r + 1 < n {
      DivModUnique(d + 1, n, q, r + 1);
    } else {
      assert d + 1 == (q + 1) * n;
      DivModUnique(d + 1, n, q + 1, 0);
    }
  }

  lemma DivModUnique(x: nat, n: nat, q: int, r: int)
    requires n > 0 && 0 <= r < n && x == q * n + r
    ensures x / n == q && x % n == r
  {
    var q', r' := x / n, x % n;
    assert x == q' * n + r';
    assert (q - q') * n == r' - r;
    MulBounds(q - q', n);
  }

  lemma MulBounds(e: int, n: nat)
    requires n > 0
    ensures e >= 1 ==> e * n >= n
    ensures e <= -1 ==> e * n + n <= 0
  {
    assert e * n == (e - 1) * n + n;
    assert e * n == (e + 1) * n - n;
  }

  /** Handing out word `d + 1` adds one to leaf `d % n`. */
  lemma SpreadStep(sh: seq<int>, c: seq<int>, d: nat)
    requires SpreadUp(sh, c, d)
    ensures SpreadUp(sh, c[d % |sh| := c[d % |sh|] + 1], d + 1)
  {
    DivModNext(d, |sh|);
  }

  /** Step `m` of a surplus pass: leaf `m` is still untouched, and loses a
      word exactly when it has one. */
  lemma TrimStep(sh: seq<int>, c: seq<int>, m: nat)
    requires TrimmedBelow(sh, c, m) && m < |sh| && NonNegative(sh)
    ensures c[m] == sh[m]
    ensures sh[m] > 0 ==> TrimmedBelow(sh, c[m := c[m] - 1], m + 1)
    ensures sh[m] <= 0 ==> TrimmedBelow(sh, c, m + 1)
  {
  }

  lemma DownStepAt(a: seq<int>, idx: nat, diff: int)
    requires idx <= |a| && diff < 0 && -diff <= Positives(a[idx..])
    requires NonNegative(a)
    ensures idx < |a| && idx % |a| == idx
    ensures a[idx] > 0 ==> -(diff + 1) <= Positives(a[idx := a[idx] - 1][idx + 1..])
    ensures a[idx] == 0 ==> -diff <= Positives(a[idx + 1..])
  {
    PositivesSuffixStep(a, idx);
    assert a[idx := a[idx] - 1][idx + 1..] == a[idx + 1..];
  }

  // ---------------------------------------------------------------------
  // Slicing

  /** The final loop: piece `i` takes the next `max(0, counts[i])` words
      (fewer if the words run out), and any words left over go to the last
      piece. */
  method SliceWords(words: seq<string>, counts: seq<int>) returns (pieces: seq<string>)
    requires forall k :: 0 <= k < |words| ==> IsWord(words[k])
    ensures |pieces| == |counts|
    ensures counts != [] ==> WordsOf(pieces) == words
    ensures AllCanonical(pieces)
    ensures ExactCounts(counts, |words|) ==> SlicedUpTo(pieces, words, counts, |pieces|)
  {
    var n, total := |counts|, |words|;
    pieces := seq(n, _ => "");
    var wordIdx := 0;
    ghost var exact := ExactCounts(counts, total);
    for i := 0 to n
      invariant |pieces| == n && AllCanonical(pieces)
      invariant Taken(pieces, i, words, wordIdx)
      invariant exact ==> ExactSoFar(pieces, words, counts, i, wordIdx)
    {
      var numToTake := if counts[i] > 0 then counts[i] else 0;
      var endWordIdx := if wordIdx + numToTake < total then wordIdx + numToTake else total;
      var piece := JoinWords(words[wordIdx..endWordIdx]);
      PieceStep(pieces, i, words, wordIdx, endWordIdx);
      if exact {
        ExactStep(pieces, words, counts, i, wordIdx, endWordIdx);
      }
      pieces := pieces[i := piece];
      wordIdx := endWordIdx;
    }
    TakenAll(pieces, words, wordIdx);
    if exact {
      ExactDone(pieces, words, counts, wordIdx);
    }
    if wordIdx < total && n > 0 {
      var remaining := JoinWords(words[wordIdx..]);
      LeftoverStep(pieces, words, wordIdx);
      pieces := pieces[n - 1 := Strip(pieces[n - 1] + " " + remaining)];
    }
  }

  /** The first `i` pieces hold the first `wordIdx` words. */
  ghost predicate Taken(pieces: seq<string>, i: nat, words: seq<string>, wordIdx: nat) {
    i <= |pieces| && wordIdx <= |words| && WordsOf(pieces[..i]) == words[..wordIdx]
  }

  /** With exact counts, the first `i` pieces hold their slices and end at
      word `wordIdx`. */
  ghost predicate ExactSoFar(pieces: seq<string>, words: seq<string>, counts: seq<int>, i: nat, wordIdx: nat) {
    i <= |pieces| == |counts| && wordIdx == Sum(counts[..i]) && SlicedUpTo(pieces, words, counts, i)
  }

  lemma TakenAll(pieces: seq<string>, words: seq<string>, wordIdx: nat)
    requires Taken(pieces, |pieces|, words, wordIdx)
    ensures WordsOf(pieces) == words[..wordIdx]
  {
    assert pieces[..|pieces|] == pieces;
  }

  lemma ExactDone(pieces: seq<string>, words: seq<string>, counts: seq<int>, wordIdx: nat)
    requires ExactCounts(counts, |words|) && ExactSoFar(pieces, words, counts, |counts|, wordIdx)
    ensures wordIdx == |words| && SlicedUpTo(pieces, words, counts, |pieces|)
  {
    assert counts[..|counts|] == counts;
  }

  /** Appending the leftover words to the last piece. */
  lemma LeftoverStep(pieces: seq<string>, words: seq<string>, from: nat)
    requires forall k :: 0 <= k < |words| ==> IsWord(words[k])
    requires pieces != [] && from < |words|
    requires AllCanonical(pieces) && WordsOf(pieces) == words[..from]
    ensures var n := |pieces|;
      var updated := pieces[n - 1 := Strip(pieces[n - 1] + " " + JoinWords(words[from..]))];
      AllCanonical(updated) && WordsOf(updated) == words
  {
    var n := |pieces|;
    var last := Strip(pieces[n - 1] + " " + JoinWords(words[from..]));
    LeftoverPiece(pieces[n - 1], words, from);
    LeftoverWords(pieces, last, words, from);
  }

  lemma PieceStep(pieces: seq<string>, i: nat, words: seq<string>, from: nat, to: nat)
    requires forall k :: 0 <= k < |words| ==> IsWord(words[k])
    requires i < |pieces| && from <= to <= |words|
    requires AllCanonical(pieces) && Taken(pieces, i, words, from)
    ensures AllCanonical(pieces[i := JoinWords(words[from..to])])
    ensures Taken(pieces[i := JoinWords(words[from..to])], i + 1, words, to)
  {
    JoinedSlice(words, from, to);
    PiecesStep(pieces, i, JoinWords(words[from..to]), words, from, to);
  }

  lemma ExactStep(pieces: seq<string>, words: seq<string>, counts: seq<int>, i: nat, from: nat, to: nat)
    requires forall k :: 0 <= k < |words| ==> IsWord(words[k])
    requires i < |pieces| == |counts| && ExactCounts(counts, |words|)
    requires from <= to <= |words|
    requires ExactSoFar(pieces, words, counts, i, from)
    requires to == if from + (if counts[i] > 0 then counts[i] else 0) < |words|
      then from + (if counts[i] > 0 then counts[i] else 0) else |words|
    ensures ExactSoFar(pieces[i := JoinWords(words[from..to])], words, counts, i + 1, to)
  {
    ExactShare(counts, i, |words|);
    JoinedSlice(words, from, to);
    SlicedStep(pieces, words, counts, i, JoinWords(words[from..to]));
  }

  /** With non-negative counts adding up to `total`, share `i` starts at the
      sum of the earlier counts and ends within the words. */
  lemma ExactShare(counts: seq<int>, i: nat, total: nat)
    requires i < |counts|
    requires ExactCounts(counts, total)
    ensures 0 <= Sum(counts[..i]) && Sum(counts[..i]) + counts[i] == Sum(counts[..i + 1]) <= total
  {
    SumPrefixStep(counts, i);
    SumNonnegPrefix(counts, i + 1);
    SumNonnegPrefix(counts, i);
  }

  lemma SlicedStep(pieces: seq<string>, words: seq<string>, counts: seq<int>, i: nat, piece: string)
    requires i < |pieces| == |counts|
    requires SlicedUpTo(pieces, words, counts, i) && HoldsSlice(piece, words, counts, i)
    ensures SlicedUpTo(pieces[i := piece], words, counts, i + 1)
  {
  }

  lemma PiecesStep(pieces: seq<string>, i: nat, piece: string, words: seq<string>, from: nat, to: nat)
    requires i < |pieces| && from <= to <= |words|
    requires WordsOf(pieces[..i]) == words[..from]
    requires Split(piece) == words[from..to]
    ensures WordsOf(pieces[i := piece][..i + 1]) == words[..to]
  {
    assert pieces[i := piece][..i + 1] == pieces[..i] + [piece];
    WordsOfAppend(pieces[..i], piece);
    assert words[..to] == words[..from] + words[from..to];
  }

  /** The last piece with the leftover words appended is canonical and
      holds its own words followed by the leftover ones. */
  lemma LeftoverPiece(piece: string, words: seq<string>, from: nat)
    requires Canonical(piece) && from < |words|
    requires forall k :: 0 <= k < |words| ==> IsWord(words[k])
    ensures Canonical(Strip(piece + " " + JoinWords(words[from..])))
    ensures Split(Strip(piece + " " + JoinWords(words[from..]))) == Split(piece) + words[from..]
  {
    JoinedSlice(words, from, |words|);
    assert words[from..|words|] == words[from..];
    StripJoin(piece, JoinWords(words[from..]));
  }

  lemma LeftoverWords(pieces: seq<string>, last: string, words: seq<string>, from: nat)
    requires pieces != [] && from <= |words|
    requires WordsOf(pieces) == words[..from]
    requires Split(last) == Split(pieces[|pieces| - 1]) + words[from..]
    ensures WordsOf(pieces[|pieces| - 1 := last]) == words
  {
    var n := |pieces|;
    WordsOfLast(pieces, pieces[n - 1]);
    WordsOfLast(pieces, last);
    assert pieces[n - 1 := pieces[n - 1]] == pieces;
    Regroup(WordsOf(pieces[..n - 1]), Split(pieces[n - 1]), words, from);
  }

  lemma Regroup(a: seq<string>, b: seq<string>, words: seq<string>, from: nat)
    requires from <= |words| && a + b == words[..from]
    ensures a + (b + words[from..]) == words
  {
    assert a + (b + words[from..]) == (a + b) + words[from..];
  }

  /** The words of `pieces` with its last piece replaced by `p`. */
  lemma WordsOfLast(pieces: seq<string>, p: string)
    requires pieces != []
    ensures WordsOf(pieces[|pieces| - 1 := p]) == WordsOf(pieces[..|pieces| - 1]) + Split(p)
  {
    assert pieces[|pieces| - 1 := p] == pieces[..|pieces| - 1] + [p];
    WordsOfAppend(pieces[..|pieces| - 1], p);
  }

  /** A space-joined run of words is canonical and splits back into the run. */
  lemma JoinedWords(ws: seq<string>)
    requires forall k :: 0 <= k < |ws| ==> IsWord(ws[k])
    ensures Canonical(JoinWords(ws)) && Split(JoinWords(ws)) == ws
  {
    JoinWordsCanonical(ws);
    SplitJoinWords(ws);
  }

  lemma JoinedSlice(words: seq<string>, from: nat, to: nat)
    requires forall k :: 0 <= k < |words| ==> IsWord(words[k])
    requires from <= to <= |words|
    ensures Canonical(JoinWords(words[from..to])) && Split(JoinWords(words[from..to])) == words[from..to]
  {
    JoinedWords(words[from..to]);
  }

  lemma {:induction false} WordsOfBlank(n: nat)
    ensures WordsOf(seq(n, _ => "")) == []
  {
    if n > 0 {
      assert seq(n, _ => "")[1..] == seq(n - 1, _ => "");
      WordsOfBlank(n - 1);
    }
  }

  // ---------------------------------------------------------------------
  // The distributor

  /** `_distribute_new_val`. */
  method DistributeNewVal(newVal: string, texts: seq<string>) returns (pieces: seq<string>)
    ensures IsDistributionOf(pieces, texts, newVal)
    ensures NewWords(newVal) == [] ==> forall k :: 0 <= k < |pieces| ==> pieces[k] == ""
    ensures |texts| == 1 ==> pieces == [Normalize(newVal)]
  {
    var newWords := NewWords(newVal);
    var total := |newWords|;
    if |texts| == 0 {
      return [];
    }
    if total == 0 {
      pieces := seq(|texts|, _ => "");
      WordsOfBlank(|texts|);
      return;
    }
    var counts := WordCounts(texts);
    var initial := InitialCounts(counts, total);
    SharesDrift(counts, total);
    var reconciled, steps := Reconcile(initial, total);
    ReconciledShape(initial, reconciled, total, steps);
    pieces := SliceWords(newWords, reconciled);
    assert |reconciled| == |pieces| && IsReconciliation(initial, reconciled, total)
      && ExactCounts(reconciled, total) && SlicedUpTo(pieces, newWords, reconciled, |pieces|);
    if |texts| == 1 {
      DistributionSingle(pieces, texts, newVal);
    }
  }

  lemma ReconciledShape(sh: seq<int>, c: seq<int>, total: nat, steps: nat)
    requires Sum(sh) <= total ==> steps == total - Sum(sh) && SpreadUp(sh, c, steps)
    requires Sum(sh) > total ==> TrimmedBelow(sh, c, steps) && Positives(sh[..steps]) == Sum(sh) - total
    ensures IsReconciliation(sh, c, total)
  {
  }

  /** Shares that already add up to `total` are left as they are. */
  lemma ExactSharesKept(sh: seq<int>, c: seq<int>, total: nat)
    requires |sh| > 0 && Sum(sh) == total && IsReconciliation(sh, c, total)
    ensures c == sh
  {
    DivModUnique(0, |sh|, 0, 0);
  }

  /** Reconciling the initial shares moves each leaf by at most one word:
      the proportional shares fall short by less than one word per leaf. */
  lemma ReconciledNearShares(counts: seq<nat>, total: nat, c: seq<int>)
    requires counts != [] && IsReconciliation(Shares(counts, total), c, total)
    ensures |c| == |counts|
    ensures forall k :: 0 <= k < |c| ==> Shares(counts, total)[k] - 1 <= c[k] <= Shares(counts, total)[k] + 1
  {
    var sh := Shares(counts, total);
    if Sum(sh) <= total {
      var d := total - Sum(sh);
      SharesDeficit(counts, total);
      DivModUnique(d, |sh|, 0, d);
    } else {
      var m: nat :| TrimmedBelow(sh, c, m) && Positives(sh[..m]) == Sum(sh) - total;
    }
  }

  /** Each piece holds within one word of its leaf's proportional share. */
  lemma DistributionNearShares(pieces: seq<string>, texts: seq<string>, newVal: string)
    requires IsDistributionOf(pieces, texts, newVal) && texts != [] && NewWords(newVal) != []
    ensures var sh := Shares(WordCounts(texts), |NewWords(newVal)|);
      forall k :: 0 <= k < |pieces| ==> sh[k] - 1 <= |Split(pieces[k])| <= sh[k] + 1
  {
    var words := NewWords(newVal);
    var sh := Shares(WordCounts(texts), |words|);
    var c: seq<int> :| && |c| == |pieces| && IsReconciliation(sh, c, |words|)
                       && ExactCounts(c, |words|) && SlicedUpTo(pieces, words, c, |pieces|);
    ReconciledNearShares(WordCounts(texts), |words|, c);
    forall k | 0 <= k < |pieces|
      ensures sh[k] - 1 <= |Split(pieces[k])| <= sh[k] + 1
    {
      SliceLength(pieces[k], words, c, k);
    }
  }

  /** A piece holding slice `k` has `counts[k]` words. */
  lemma SliceLength(piece: string, words: seq<string>, counts: seq<int>, k: nat)
    requires k < |counts| && HoldsSlice(piece, words, counts, k)
    ensures |Split(piece)| == counts[k]
  {
    SumPrefixStep(counts, k);
  }

  /** When the initial shares already add up to the word count, piece `k`
      holds exactly slice `k` of the words cut by those shares. */
  lemma DistributionWithoutDrift(pieces: seq<string>, texts: seq<string>, newVal: string)
    requires IsDistributionOf(pieces, texts, newVal) && texts != [] && NewWords(newVal) != []
    requires Sum(Shares(WordCounts(texts), |NewWords(newVal)|)) == |NewWords(newVal)|
    ensures var words := NewWords(newVal);
      SlicedUpTo(pieces, words, Shares(WordCounts(texts), |words|), |pieces|)
  {
    var words := NewWords(newVal);
    var sh := Shares(WordCounts(texts), |words|);
    var c: seq<int> :| && |c| == |pieces| && IsReconciliation(sh, c, |words|)
                       && ExactCounts(c, |words|) && SlicedUpTo(pieces, words, c, |pieces|);
    ExactSharesKept(sh, c, |words|);
  }

  /** A single original receives the whole normalised replacement. */
  lemma DistributionSingle(pieces: seq<string>, texts: seq<string>, newVal: string)
    requires CarriesWords(pieces, texts, newVal) && |texts| == 1
    ensures pieces == [Normalize(newVal)]
  {
    var p := pieces[0];
    assert pieces == [p];
    WordsOfOne(p);
    var words := NewWords(newVal);
    assert Split(p) == words;
    CanonicalJoinSplit(p);
    assert p == JoinWords(words);
  }

  /** The round trip: the pieces joined by spaces normalise to the
      normalised replacement. */
  lemma DistributionRoundTrip(pieces: seq<string>, texts: seq<string>, newVal: string)
    requires CarriesWords(pieces, texts, newVal) && texts != []
    ensures Normalize(JoinWords(pieces)) == Normalize(newVal)
  {
    SplitJoinPieces(pieces);
  }

  function PieceCounts(pieces: seq<string>): (counts: seq<int>)
    ensures |counts| == |pieces|
  {
    seq(|pieces|, k requires 0 <= k < |pieces| => |Split(pieces[k])|)
  }

  lemma {:induction false} WordsOfCount(pieces: seq<string>)
    ensures |WordsOf(pieces)| == Sum(PieceCounts(pieces))
    decreases |pieces|
  {
    if pieces != [] {
      var init := pieces[..|pieces| - 1];
      WordsOfCount(init);
      assert pieces == init + [pieces[|pieces| - 1]];
      WordsOfAppend(init, pieces[|pieces| - 1]);
      assert PieceCounts(pieces)[..|pieces| - 1] == PieceCounts(init);
    }
  }

  /** Count preservation: the pieces' word counts add up to the number of
      words of the replacement. */
  lemma DistributionCount(pieces: seq<string>, texts: seq<string>, newVal: string)
    requires CarriesWords(pieces, texts, newVal) && texts != []
    ensures Sum(PieceCounts(pieces)) == |NewWords(newVal)|
  {
    WordsOfCount(pieces);
  }

  /** A text written as two words joined by one space counts two words. */
  lemma TwoWordCount(t: string, a: string, b: string)
    requires IsWord(a) && IsWord(b) && t == a + " " + b
    ensures WordCount(t) == 2
  {
    assert JoinWords([a, b]) == t;
    WordsLiteral(t, [a, b]);
  }

  lemma FourWords(newVal: string, w1: string, w2: string, w3: string, w4: string)
    requires IsWord(w1) && IsWord(w2) && IsWord(w3) && IsWord(w4)
    requires newVal == w1 + " " + w2 + " " + w3 + " " + w4
    ensures NewWords(newVal) == [w1, w2, w3, w4]
  {
    var ws := [w1, w2, w3, w4];
    assert ws[1..][1..][1..] == [w4];
    assert JoinWords(ws[1..][1..]) == w3 + " " + w4;
    assert JoinWords(ws[1..]) == w2 + " " + w3 + " " + w4;
    assert JoinWords(ws) == newVal;
    WordsLiteral(newVal, ws);
  }

  /** The plan for two two-word leaves and four new words: shares of two
      and two, needing no reconciliation. */
  lemma TwoByTwoPlan(texts: seq<string>, newVal: string,
                     a1: string, a2: string, b1: string, b2: string,
                     w1: string, w2: string, w3: string, w4: string)
    requires IsWord(a1) && IsWord(a2) && IsWord(b1) && IsWord(b2)
    requires IsWord(w1) && IsWord(w2) && IsWord(w3) && IsWord(w4)
    requires texts == [a1 + " " + a2, b1 + " " + b2]
    requires newVal == w1 + " " + w2 + " " + w3 + " " + w4
    ensures NewWords(newVal) == [w1, w2, w3, w4]
    ensures Shares(WordCounts(texts), 4) == [2, 2] && Sum([2, 2]) == 4
  {
    FourWords(newVal, w1, w2, w3, w4);
    TwoWordCount(texts[0], a1, a2);
    TwoWordCount(texts[1], b1, b2);
    assert WordCounts(texts) == [2, 2];
    SharesTwoByTwo();
    assert [2, 2][..1] == [2];
  }

  /** Canonical pieces holding the slices two and two of four words are
      the pairs joined by a space. */
  lemma TwoSlices(p: string, q: string, words: seq<string>)
    requires |words| == 4 && Canonical(p) && Canonical(q)
    requires HoldsSlice(p, words, [2, 2], 0) && HoldsSlice(q, words, [2, 2], 1)
    ensures p == words[0] + " " + words[1] && q == words[2] + " " + words[3]
  {
    var sh := [2, 2];
    assert sh[..0] == [] && sh[..1] == [2] && sh[..2] == sh;
    assert Sum([2]) == 2 && Sum(sh) == 4;
    assert Split(p) == [words[0], words[1]] && Split(q) == [words[2], words[3]];
    CanonicalJoinSplit(p);
    CanonicalJoinSplit(q);
  }

  /** Two leaves of two words each, replaced by four words: the shares are
      two and two, so each leaf receives a consecutive pair. With the
      example suggestion "Talk to CRO Expert" held in leaves "Talk to" and
      "CRO Expert", the replacement "Get Your CRO Analysis" becomes
      "Get Your" and "CRO Analysis". */
  lemma TwoByTwoScenario(pieces: seq<string>, texts: seq<string>, newVal: string,
                         a1: string, a2: string, b1: string, b2: string,
                         w1: string, w2: string, w3: string, w4: string)
    requires IsWord(a1) && IsWord(a2) && IsWord(b1) && IsWord(b2)
    requires IsWord(w1) && IsWord(w2) && IsWord(w3) && IsWord(w4)
    requires texts == [a1 + " " + a2, b1 + " " + b2]
    requires newVal == w1 + " " + w2 + " " + w3 + " " + w4
    requires IsDistributionOf(pieces, texts, newVal)
    ensures pieces == [w1 + " " + w2, w3 + " " + w4]
  {
    TwoByTwoPlan(texts, newVal, a1, a2, b1, b2, w1, w2, w3, w4);
    var words := NewWords(newVal);
    DistributionWithoutDrift(pieces, texts, newVal);
    assert HoldsSlice(pieces[0], words, [2, 2], 0) && HoldsSlice(pieces[1], words, [2, 2], 1);
    TwoSlices(pieces[0], pieces[1], words);
  }

  /** Three shares of one add up to three, and a prefix of them has as
      many positive entries as it is long. */
  lemma ThreeOnes()
    ensures Sum([1, 1, 1]) == 3
    ensures forall m :: 0 <= m <= 3 ==> Positives([1, 1, 1][..m]) == m
  {
    var sh := [1, 1, 1];
    assert sh[..0] == [] && sh[..1] == [1] && sh[..2] == [1, 1] && sh[..3] == sh;
    assert [1, 1][..1] == [1] && [1][..0] == [];
  }

  /** A single word counts one word. */
  lemma OneWordCount(t: string)
    requires IsWord(t)
    ensures WordCount(t) == 1
  {
    assert JoinWords([t]) == t;
    WordsLiteral(t, [t]);
  }

  lemma TwoWords(newVal: string, w1: string, w2: string)
    requires IsWord(w1) && IsWord(w2) && newVal == w1 + " " + w2
    ensures NewWords(newVal) == [w1, w2]
  {
    assert JoinWords([w1, w2]) == newVal;
    WordsLiteral(newVal, [w1, w2]);
  }

  lemma SharesThreeOnes()
    ensures Shares([1, 1, 1], 2) == [1, 1, 1]
  {
    ThreeOnes();
    assert RoundHalfEven(2, 3) == 1;
  }

  /** The plan for three one-word leaves and two new words: every share is
      one, one word too many. */
  lemma ThreeByOnePlan(texts: seq<string>, newVal: string,
                       a: string, b: string, c: string, w1: string, w2: string)
    requires IsWord(a) && IsWord(b) && IsWord(c) && IsWord(w1) && IsWord(w2)
    requires texts == [a, b, c] && newVal == w1 + " " + w2
    ensures NewWords(newVal) == [w1, w2]
    ensures Shares(WordCounts(texts), 2) == [1, 1, 1]
  {
    TwoWords(newVal, w1, w2);
    OneWordCount(a);
    OneWordCount(b);
    OneWordCount(c);
    assert WordCounts(texts) == [1, 1, 1];
    SharesThreeOnes();
  }

  /** Three shares of one reconciled down to two words: the first leaf
      gives up its word. */
  lemma SurplusOfThree(c: seq<int>)
    requires IsReconciliation([1, 1, 1], c, 2)
    ensures c == [0, 1, 1]
  {
    ThreeOnes();
    var m: nat :| TrimmedBelow([1, 1, 1], c, m) && Positives([1, 1, 1][..m]) == 1;
    assert m == 1;
  }

  /** Canonical pieces cut from two words by the counts none, one and one
      are the empty text and the two words. */
  lemma ThreeCut(pieces: seq<string>, words: seq<string>)
    requires |pieces| == 3 && |words| == 2 && AllCanonical(pieces)
    requires SlicedUpTo(pieces, words, [0, 1, 1], 3)
    ensures pieces == ["", words[0], words[1]]
  {
    var cs := [0, 1, 1];
    assert HoldsSlice(pieces[0], words, cs, 0) && HoldsSlice(pieces[1], words, cs, 1)
      && HoldsSlice(pieces[2], words, cs, 2);
    assert cs[..0] == [] && cs[..1] == [0] && cs[..2] == [0, 1] && cs[..3] == cs;
    assert [0, 1][..1] == [0] && [0][..0] == [];
    assert Split(pieces[0]) == [] && Split(pieces[1]) == [words[0]] && Split(pieces[2]) == [words[1]];
    CanonicalJoinSplit(pieces[0]);
    CanonicalJoinSplit(pieces[1]);
    CanonicalJoinSplit(pieces[2]);
  }

  /** The reconciled counts a distribution is cut by. */
  lemma ReconciledCounts(pieces: seq<string>, texts: seq<string>, newVal: string) returns (c: seq<int>)
    requires IsDistributionOf(pieces, texts, newVal) && texts != [] && NewWords(newVal) != []
    ensures |c| == |pieces|
    ensures IsReconciliation(Shares(WordCounts(texts), |NewWords(newVal)|), c, |NewWords(newVal)|)
    ensures SlicedUpTo(pieces, NewWords(newVal), c, |pieces|)
  {
    var words := NewWords(newVal);
    c :| && |c| == |pieces| && IsReconciliation(Shares(WordCounts(texts), |words|), c, |words|)
         && ExactCounts(c, |words|) && SlicedUpTo(pieces, words, c, |pieces|);
  }

  /** Three one-word leaves replaced by two words: the initial shares of
      one each overshoot by one, reconciliation takes the first leaf's
      word back, so the first leaf is emptied and the other two receive
      one word each. */
  lemma ThreeByOneScenario(pieces: seq<string>, texts: seq<string>, newVal: string,
                           a: string, b: string, c: string, w1: string, w2: string)
    requires IsWord(a) && IsWord(b) && IsWord(c) && IsWord(w1) && IsWord(w2)
    requires texts == [a, b, c] && newVal == w1 + " " + w2
    requires IsDistributionOf(pieces, texts, newVal)
    ensures pieces == ["", w1, w2]
  {
    ThreeByOnePlan(texts, newVal, a, b, c, w1, w2);
    var words := NewWords(newVal);
    var cs := ReconciledCounts(pieces, texts, newVal);
    SurplusOfThree(cs);
    ThreeCut(pieces, words);
  }
}
