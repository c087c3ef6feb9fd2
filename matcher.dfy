/** The run matcher of `find_and_prepare_changes`: the earliest contiguous
    run of cached leaves whose space-joined normalised text is the target,
    found by extending a run only while it ends on a word boundary of the
    target. */
module Matcher {
  import opened Wrappers
  import opened Text
  import opened Leaves

  /** Leaves `first..last` of the cache, both included. */
  datatype Run = Run(first: nat, last: nat)

  function Norms(leaves: seq<Leaf>): (ns: seq<string>)
    ensures |ns| == |leaves|
    ensures forall k :: 0 <= k < |leaves| ==> ns[k] == leaves[k].norm
  {
    seq(|leaves|, k requires 0 <= k < |leaves| => leaves[k].norm)
  }

  /** The text the scan compares when leaves `i..k` are in the run: their
      normalised texts joined by spaces and normalised once more. */
  function Joined(cache: seq<Leaf>, i: nat, k: nat): string
    requires i <= k < |cache|
  {
    Normalize(JoinWords(Norms(cache[i..k + 1])))
  }

  /** `p` is a proper prefix of `target` that ends where a space follows. */
  predicate IsBoundaryPrefix(p: string, target: string) {
    |p| < |target| && target[..|p|] == p && target[|p|] == ' '
  }

  /** Starting at `i`, every run shorter than `i..j` was a boundary prefix,
      so the scan reaches leaf `j`. */
  ghost predicate ScanContinues(cache: seq<Leaf>, target: string, i: nat, j: nat)
    requires i <= j <= |cache|
  {
    forall k :: i <= k < j ==> IsBoundaryPrefix(Joined(cache, i, k), target)
  }

  /** The scan from `i` reaches `j` and finds the target there. */
  ghost predicate CompletesAt(cache: seq<Leaf>, target: string, i: nat, j: nat) {
    i <= j < |cache| && ScanContinues(cache, target, i, j) && Joined(cache, i, j) == target
  }

  /** `run` completes, and no scan from an earlier start does. */
  ghost predicate IsFirstRun(cache: seq<Leaf>, target: string, run: Run) {
    && CompletesAt(cache, target, run.first, run.last)
    && forall i, j :: 0 <= i < run.first && i <= j < |cache| ==> !CompletesAt(cache, target, i, j)
  }

  ghost predicate NoRun(cache: seq<Leaf>, target: string) {
    forall i, j :: 0 <= i <= j < |cache| ==> !CompletesAt(cache, target, i, j)
  }

  /** The nested `i`/`j` scan: for each start, extend the run while its
      joined text is a boundary prefix of the target; stop at the first
      start whose run completes. */
  method FindRun(cache: seq<Leaf>, target: string) returns (run: Option<Run>)
    ensures run.Some? ==> IsFirstRun(cache, target, run.value)
    ensures run.None? ==> NoRun(cache, target)
  {
    var i := 0;
    while i < |cache|
      invariant 0 <= i <= |cache|
      invariant NoStartBelow(cache, target, i)
    {
      var norms: seq<string> := [];
      var j := i;
      while j < |cache|
        invariant i <= j <= |cache|
        invariant norms == Norms(cache[i..j])
        invariant ScanContinues(cache, target, i, j)
      {
        NormsStep(cache, i, j);
        var joined := Normalize(JoinWords(norms + [cache[j].norm]));
        assert joined == Joined(cache, i, j);
        if joined == target {
          FoundFirst(cache, target, i, j);
          return Some(Run(i, j));
        } else if IsBoundaryPrefix(joined, target) {
          ScanStep(cache, target, i, j);
          norms := norms + [cache[j].norm];
          j := j + 1;
        } else {
          NoCompletionAfter(cache, target, i, j);
          break;
        }
      }
      NoCompletionBefore(cache, target, i, j);
      NextStart(cache, target, i);
      i := i + 1;
    }
    return None;
  }

  lemma NormsStep(cache: seq<Leaf>, i: nat, j: nat)
    requires i <= j < |cache|
    ensures Norms(cache[i..j]) + [cache[j].norm] == Norms(cache[i..j + 1])
  {
  }

  lemma ScanStep(cache: seq<Leaf>, target: string, i: nat, j: nat)
    requires i <= j < |cache| && ScanContinues(cache, target, i, j)
    requires IsBoundaryPrefix(Joined(cache, i, j), target)
    ensures ScanContinues(cache, target, i, j + 1)
  {
  }

  /** No scan from a start below `i` completes. */
  ghost predicate NoStartBelow(cache: seq<Leaf>, target: string, i: nat) {
    forall i', j' :: 0 <= i' < i && i' <= j' < |cache| ==> !CompletesAt(cache, target, i', j')
  }

  lemma FoundFirst(cache: seq<Leaf>, target: string, i: nat, j: nat)
    requires i <= j < |cache| && NoStartBelow(cache, target, i)
    requires ScanContinues(cache, target, i, j) && Joined(cache, i, j) == target
    ensures IsFirstRun(cache, target, Run(i, j))
  {
  }

  lemma NextStart(cache: seq<Leaf>, target: string, i: nat)
    requires i < |cache| && NoStartBelow(cache, target, i)
    requires forall j' :: i <= j' < |cache| ==> !CompletesAt(cache, target, i, j')
    ensures NoStartBelow(cache, target, i + 1)
  {
  }

  lemma NoCompletionBefore(cache: seq<Leaf>, target: string, i: nat, j: nat)
    requires i <= j <= |cache| && ScanContinues(cache, target, i, j)
    ensures forall j' :: i <= j' < j ==> !CompletesAt(cache, target, i, j')
  {
  }

  lemma NoCompletionAfter(cache: seq<Leaf>, target: string, i: nat, j: nat)
    requires i <= j < |cache|
    requires Joined(cache, i, j) != target && !IsBoundaryPrefix(Joined(cache, i, j), target)
    ensures forall j' :: j <= j' < |cache| ==> !CompletesAt(cache, target, i, j')
  {
  }

  /** At most one run is the first: the scan is deterministic. */
  lemma FirstRunUnique(cache: seq<Leaf>, target: string, r1: Run, r2: Run)
    requires IsFirstRun(cache, target, r1) && IsFirstRun(cache, target, r2)
    ensures r1 == r2
  {
    assert r1.first == r2.first;
  }

  /** On a cache of well-formed leaves, re-normalising a joined run changes nothing. */
  lemma JoinedIsJoin(cache: seq<Leaf>, i: nat, k: nat)
    requires WellFormed(cache) && i <= k < |cache|
    ensures Joined(cache, i, k) == JoinWords(Norms(cache[i..k + 1]))
    ensures Joined(cache, i, k) != ""
  {
    var ns := Norms(cache[i..k + 1]);
    forall m | 0 <= m < |ns|
      ensures ns[m] != [] && Canonical(ns[m])
    {
      assert cache[i..k + 1][m] == cache[i + m];
      assert WellFormedLeaf(cache[i + m]);
    }
    JoinCanonical(ns);
    NormalizeCanonical(JoinWords(ns));
  }

  /** On a cache of well-formed leaves the prefix pruning loses nothing:
      the scan from `i` completes at `j` exactly when leaves `i..j`, joined
      by spaces, spell the target. */
  lemma CompletesIffJoined(cache: seq<Leaf>, target: string, i: nat, j: nat)
    requires WellFormed(cache) && i <= j < |cache|
    ensures CompletesAt(cache, target, i, j) <==> JoinWords(Norms(cache[i..j + 1])) == target
  {
    JoinedIsJoin(cache, i, j);
    if JoinWords(Norms(cache[i..j + 1])) == target {
      forall k | i <= k < j
        ensures IsBoundaryPrefix(Joined(cache, i, k), target)
      {
        BoundaryBefore(cache, i, k, j);
      }
    }
  }

  /** Each shorter run of an occurrence is a boundary prefix of it. */
  lemma BoundaryBefore(cache: seq<Leaf>, i: nat, k: nat, j: nat)
    requires WellFormed(cache) && i <= k < j < |cache|
    ensures IsBoundaryPrefix(Joined(cache, i, k), JoinWords(Norms(cache[i..j + 1])))
  {
    JoinedIsJoin(cache, i, k);
    var ns := Norms(cache[i..j + 1]);
    var m := k - i + 1;
    assert ns[..m] == Norms(cache[i..k + 1]);
    JoinPrefixBoundary(ns, m);
  }

  /** A well-formed cache in which the target occurs as a run always yields
      a first run, and it starts no later than that occurrence. */
  lemma OccurrenceIsFound(cache: seq<Leaf>, i: nat, j: nat, run: Run)
    requires WellFormed(cache) && i <= j < |cache|
    requires IsFirstRun(cache, JoinWords(Norms(cache[i..j + 1])), run)
    ensures run.first <= i
  {
    CompletesIffJoined(cache, JoinWords(Norms(cache[i..j + 1])), i, j);
  }

  lemma OccurrenceIsNotMissed(cache: seq<Leaf>, i: nat, j: nat)
    requires WellFormed(cache) && i <= j < |cache|
    ensures !NoRun(cache, JoinWords(Norms(cache[i..j + 1])))
  {
    CompletesIffJoined(cache, JoinWords(Norms(cache[i..j + 1])), i, j);
  }

  /** Some scan completes exactly when there is a first run: starting from
      `i`, the earliest start at or above `i` whose scan completes is it. */
  lemma {:induction false} FirstRunExists(cache: seq<Leaf>, target: string, i: nat, i0: nat, j0: nat)
    requires i <= i0 <= j0 < |cache| && CompletesAt(cache, target, i0, j0)
    requires NoStartBelow(cache, target, i)
    ensures exists run :: IsFirstRun(cache, target, run)
    decreases i0 - i
  {
    if exists j :: i <= j < |cache| && CompletesAt(cache, target, i, j) {
      var j :| i <= j < |cache| && CompletesAt(cache, target, i, j);
      assert IsFirstRun(cache, target, Run(i, j));
    } else {
      NextStart(cache, target, i);
      FirstRunExists(cache, target, i + 1, i0, j0);
    }
  }

  /** A run matches whole leaves only: two one-word leaves `a` and `b` never
      spell `a + " " + c` for a word `c` other than `b`, even when `c` is a
      prefix of `b` (leaves "Hello" and "Worldwide" against "Hello World"). */
  lemma NoMidWordMatch(cache: seq<Leaf>, a: string, b: string, c: string)
    requires WellFormed(cache) && |cache| == 2
    requires IsWord(a) && IsWord(b) && c != b
    requires cache[0].norm == a && cache[1].norm == b
    ensures NoRun(cache, a + " " + c)
  {
    forall i, j | 0 <= i <= j < |cache|
      ensures !CompletesAt(cache, a + " " + c, i, j)
    {
      CompletesIffJoined(cache, a + " " + c, i, j);
      NoMidWordAt(cache, a, b, c, i, j);
    }
  }

  lemma NoMidWordAt(cache: seq<Leaf>, a: string, b: string, c: string, i: nat, j: nat)
    requires |cache| == 2 && i <= j < 2
    requires IsWord(b) && c != b
    requires cache[0].norm == a && cache[1].norm == b
    ensures JoinWords(Norms(cache[i..j + 1])) != a + " " + c
  {
    var target := a + " " + c;
    var ns := Norms(cache[i..j + 1]);
    if i == 0 && j == 0 {
      assert ns == [a];
    } else if i == 0 {
      assert ns == [a, b];
      assert JoinWords(ns) == a + " " + b;
      assert (a + " " + b)[|a| + 1..] == b && target[|a| + 1..] == c;
    } else {
      assert ns == [b];
      assert target[|a|] == ' ';
    }
  }
}
