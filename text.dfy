/** The text normaliser of the replacer (`_normalize_text`) and the word
    splitting (`str.split()`) and joining (`" ".join`) it is used with. */
module Text {
  import opened Wrappers

  /** Whitespace as Python's `str.isspace()` defines it: the characters that
      `\s` matches in a `str` pattern and that `str.split()` splits on. */
  predicate IsSpace(c: char) {
    || c == ' ' || '\t' <= c <= '\r' || '\U{1c}' <= c <= '\U{1f}'
    || c == '\U{85}' || c == '\U{a0}' || c == '\U{1680}'
    || '\U{2000}' <= c <= '\U{200a}' || c == '\U{2028}' || c == '\U{2029}'
    || c == '\U{202f}' || c == '\U{205f}' || c == '\U{3000}'
  }

  predicate AllSpace(s: string) {
    forall k :: 0 <= k < |s| ==> IsSpace(s[k])
  }

  /** A word as `str.split()` yields it: non-empty, no whitespace. */
  predicate IsWord(w: string) {
    w != [] && forall k :: 0 <= k < |w| ==> !IsSpace(w[k])
  }

  /** The shape of normalised text: no whitespace at either end, no two
      whitespace characters side by side, and every whitespace character
      a plain space. */
  predicate Canonical(r: string) {
    && (r != [] ==> !IsSpace(r[0]) && !IsSpace(r[|r| - 1]))
    && (forall k :: 0 <= k < |r| && IsSpace(r[k]) ==> r[k] == ' ')
    && (forall k :: 0 < k < |r| && IsSpace(r[k]) ==> !IsSpace(r[k - 1]))
  }

  /** `re.sub(r"\s+", " ", s)`: every maximal run of whitespace becomes one
      space. `inRun` says that the character before `s` was whitespace. */
  function CollapseFrom(s: string, inRun: bool): string {
    if s == [] then []
    else if IsSpace(s[0]) then (if inRun then "" else " ") + CollapseFrom(s[1..], true)
    else [s[0]] + CollapseFrom(s[1..], false)
  }

  function Collapse(s: string): string {
    CollapseFrom(s, false)
  }

  function TrimLeft(s: string): string {
    if s != [] && IsSpace(s[0]) then TrimLeft(s[1..]) else s
  }

  function TrimRight(s: string): string {
    if s != [] && IsSpace(s[|s| - 1]) then TrimRight(s[..|s| - 1]) else s
  }

  /** `str.strip()` with no argument. */
  function Strip(s: string): string {
    TrimRight(TrimLeft(s))
  }

  /** `_normalize_text` on a string: collapse whitespace runs, then strip.
      The result is the words of `s` joined by single spaces. */
  function Normalize(s: string): (r: string)
    ensures r == JoinWords(Split(s))
    ensures Canonical(r)
  {
    NormalizeIsJoin(s);
    JoinWordsCanonical(Split(s));
    Strip(Collapse(s))
  }

  /** `_normalize_text` with its `None` case. */
  function NormalizeOpt(t: Option<string>): (r: string)
    ensures t.None? ==> r == ""
    ensures Canonical(r)
    ensures t.Some? ==> r == JoinWords(Split(t.value))
  {
    match t
    case None => ""
    case Some(s) => Normalize(s)
  }

  /** The longest prefix of `s` that holds no whitespace. */
  function WordPrefix(s: string): (w: string)
    ensures |w| <= |s| && w == s[..|w|]
    ensures forall k :: 0 <= k < |w| ==> !IsSpace(w[k])
    ensures |w| < |s| ==> IsSpace(s[|w|])
  {
    if s == [] || IsSpace(s[0]) then [] else [s[0]] + WordPrefix(s[1..])
  }

  /** `s.split()`: the maximal runs of non-whitespace, in order. */
  function Split(s: string): (ws: seq<string>)
    ensures forall k :: 0 <= k < |ws| ==> IsWord(ws[k])
    decreases |s|
  {
    if s == [] then []
    else if IsSpace(s[0]) then Split(s[1..])
    else
      var w := WordPrefix(s);
      [w] + Split(s[|w|..])
  }

  /** `" ".join(ws)`. */
  function JoinWords(ws: seq<string>): string {
    if ws == [] then ""
    else if |ws| == 1 then ws[0]
    else ws[0] + " " + JoinWords(ws[1..])
  }

  /** The words of several texts taken in order. */
  function WordsOf(ps: seq<string>): seq<string> {
    if ps == [] then [] else Split(ps[0]) + WordsOf(ps[1..])
  }

  // ---------------------------------------------------------------------
  // Splitting

  lemma {:induction false} WordPrefixAppend(a: string, t: string)
    requires t == [] || IsSpace(t[0])
    ensures WordPrefix(a + t) == WordPrefix(a)
  {
    if a == [] {
      assert a + t == t;
    } else if !IsSpace(a[0]) {
      assert (a + t)[1..] == a[1..] + t;
      WordPrefixAppend(a[1..], t);
    }
  }

  /** Splitting at a space splits the two sides independently. */
  lemma {:induction false} SplitConcat(a: string, b: string)
    ensures Split(a + " " + b) == Split(a) + Split(b)
    decreases |a|
  {
    var s := a + " " + b;
    if a == [] {
      assert s[1..] == b;
    } else if IsSpace(a[0]) {
      assert s[1..] == a[1..] + " " + b;
      SplitConcat(a[1..], b);
    } else {
      WordPrefixAppend(a, " " + b);
      var w := WordPrefix(a);
      assert s == a + (" " + b);
      assert s[|w|..] == a[|w|..] + " " + b;
      SplitConcat(a[|w|..], b);
    }
  }

  lemma SplitWord(w: string)
    requires IsWord(w)
    ensures Split(w) == [w]
  {
    WordPrefixAppend(w, []);
    assert w + [] == w;
  }

  /** Splitting a space-joined list of words gives the words back. */
  lemma {:induction false} SplitJoinWords(ws: seq<string>)
    requires forall k :: 0 <= k < |ws| ==> IsWord(ws[k])
    ensures Split(JoinWords(ws)) == ws
  {
    if ws == [] {
    } else if |ws| == 1 {
      SplitWord(ws[0]);
    } else {
      SplitConcat(ws[0], JoinWords(ws[1..]));
      SplitWord(ws[0]);
      SplitJoinWords(ws[1..]);
    }
  }

  /** Splitting the space-joined texts gives the words of each text in order. */
  lemma {:induction false} SplitJoinPieces(ps: seq<string>)
    ensures Split(JoinWords(ps)) == WordsOf(ps)
  {
    if |ps| == 1 {
      assert WordsOf(ps) == Split(ps[0]) + [];
    } else if |ps| > 1 {
      SplitConcat(ps[0], JoinWords(ps[1..]));
      SplitJoinPieces(ps[1..]);
    }
  }

  lemma WordsOfOne(p: string)
    ensures WordsOf([p]) == Split(p)
  {
    assert [p][1..] == [];
  }

  lemma {:induction false} WordsOfAppend(ps: seq<string>, p: string)
    ensures WordsOf(ps + [p]) == WordsOf(ps) + Split(p)
  {
    if ps == [] {
      assert [p][1..] == [];
    } else {
      assert (ps + [p])[1..] == ps[1..] + [p];
      WordsOfAppend(ps[1..], p);
    }
  }

  /** Splitting text that starts with a non-space character `c`. */
  lemma SplitCons(c: char, t: string)
    requires !IsSpace(c)
    ensures t == [] || IsSpace(t[0]) ==> Split([c] + t) == [[c]] + Split(t)
    ensures t != [] && !IsSpace(t[0]) ==>
      Split(t) != [] && Split([c] + t) == [[c] + Split(t)[0]] + Split(t)[1..]
  {
    var s := [c] + t;
    assert s[1..] == t;
    var w := WordPrefix(t);
    assert WordPrefix(s) == [c] + w;
    assert s[|[c] + w|..] == t[|w|..];
  }

  // ---------------------------------------------------------------------
  // Collapsing and stripping

  /** Collapsing after whitespace yields the words joined by single spaces,
      followed by nothing but spaces. */
  lemma {:induction false} CollapseSplit(s: string)
    ensures CollapsePadded(s)
    decreases |s|
  {
    if s == [] {
    } else if IsSpace(s[0]) {
      CollapseSplit(s[1..]);
    } else {
      assert s == [s[0]] + s[1..];
      CollapseSplit(s[1..]);
      CollapseSplitWord(s[0], s[1..]);
    }
  }

  ghost predicate CollapsePadded(s: string) {
    var c := CollapseFrom(s, true);
    var j := JoinWords(Split(s));
    |j| <= |c| && c[..|j|] == j && AllSpace(c[|j|..])
  }

  /** The step of `CollapseSplit` for text that starts with a word character. */
  lemma CollapseSplitWord(ch: char, t: string)
    requires !IsSpace(ch) && CollapsePadded(t)
    ensures CollapsePadded([ch] + t)
  {
    var s := [ch] + t;
    assert s[1..] == t;
    SplitCons(ch, t);
    var ct := CollapseFrom(t, true);
    var jt := JoinWords(Split(t));
    var c := CollapseFrom(s, true);
    assert c == [ch] + CollapseFrom(t, false);
    if t == [] {
      assert c == [ch];
    } else if IsSpace(t[0]) {
      CollapseSplitSpace(ch, t);
    } else {
      assert c == [ch] + ct;
      var ws := Split(t);
      if |ws| == 1 {
        assert JoinWords(Split(s)) == [ch] + jt;
      } else {
        assert JoinWords(Split(s)) == ([ch] + ws[0]) + " " + JoinWords(ws[1..]);
        assert JoinWords(Split(s)) == [ch] + jt;
      }
      assert c[|[ch] + jt|..] == ct[|jt|..];
    }
  }

  lemma CollapseSplitSpace(ch: char, t: string)
    requires !IsSpace(ch) && CollapsePadded(t) && t != [] && IsSpace(t[0])
    ensures CollapsePadded([ch] + t)
  {
    var s := [ch] + t;
    assert s[1..] == t;
    SplitCons(ch, t);
    var ct := CollapseFrom(t, true);
    var jt := JoinWords(Split(t));
    var c := CollapseFrom(s, true);
    assert CollapseFrom(t, false) == " " + CollapseFrom(t[1..], true);
    assert ct == CollapseFrom(t[1..], true);
    assert c == [ch] + CollapseFrom(t, false);
    assert c == [ch] + " " + ct;
    if Split(t) == [] {
      assert JoinWords(Split(s)) == [ch];
      assert c[1..] == " " + ct;
    } else {
      assert JoinWords(Split(s)) == [ch] + " " + jt;
      assert c[|[ch] + " " + jt|..] == ct[|jt|..];
    }
  }

  lemma {:induction false} TrimLeftSpaces(p: string, x: string)
    requires AllSpace(p)
    ensures TrimLeft(p + x) == TrimLeft(x)
  {
    if p != [] {
      assert (p + x)[1..] == p[1..] + x;
      TrimLeftSpaces(p[1..], x);
    } else {
      assert p + x == x;
    }
  }

  lemma {:induction false} TrimRightSpaces(x: string, q: string)
    requires AllSpace(q)
    ensures TrimRight(x + q) == TrimRight(x)
    decreases |q|
  {
    if q != [] {
      assert (x + q)[..|x + q| - 1] == x + q[..|q| - 1];
      TrimRightSpaces(x, q[..|q| - 1]);
    } else {
      assert x + q == x;
    }
  }

  /** Stripping removes whitespace padding around canonical text and nothing else. */
  lemma StripPadded(p: string, j: string, q: string)
    requires AllSpace(p) && AllSpace(q) && Canonical(j)
    ensures Strip(p + j + q) == j
  {
    assert p + j + q == p + (j + q);
    TrimLeftSpaces(p, j + q);
    if j == [] {
      assert j + q == q;
      TrimLeftSpaces(q, []);
      assert q + [] == q;
    } else {
      assert (j + q)[0] == j[0];
      TrimRightSpaces(j, q);
    }
  }

  lemma NormalizeIsJoin(s: string)
    ensures Strip(Collapse(s)) == JoinWords(Split(s))
  {
    CollapseSplit(s);
    JoinWordsCanonical(Split(s));
    var c := CollapseFrom(s, true);
    var j := JoinWords(Split(s));
    var lead := if s != [] && IsSpace(s[0]) then " " else "";
    assert Collapse(s) == lead + c;
    assert c == j + c[|j|..];
    assert Collapse(s) == lead + j + c[|j|..];
    StripPadded(lead, j, c[|j|..]);
  }

  // ---------------------------------------------------------------------
  // Canonical text

  lemma CanonicalConcat(a: string, b: string)
    requires Canonical(a) && Canonical(b) && a != [] && b != []
    ensures Canonical(a + " " + b)
  {
    var r := a + " " + b;
    forall k | 0 <= k < |r| && IsSpace(r[k])
      ensures r[k] == ' '
    {
      if k < |a| { assert r[k] == a[k]; }
      else if k > |a| { assert r[k] == b[k - |a| - 1]; }
    }
    forall k | 0 < k < |r| && IsSpace(r[k])
      ensures !IsSpace(r[k - 1])
    {
      if k < |a| {
        assert r[k] == a[k] && r[k - 1] == a[k - 1];
      } else if k > |a| + 1 {
        assert r[k] == b[k - |a| - 1] && r[k - 1] == b[k - |a| - 2];
      }
    }
  }

  /** Joining non-empty canonical texts with single spaces gives canonical text. */
  lemma {:induction false} JoinCanonical(ps: seq<string>)
    requires forall k :: 0 <= k < |ps| ==> ps[k] != [] && Canonical(ps[k])
    ensures Canonical(JoinWords(ps))
    ensures ps != [] ==> JoinWords(ps) != []
  {
    if |ps| > 1 {
      JoinCanonical(ps[1..]);
      CanonicalConcat(ps[0], JoinWords(ps[1..]));
    }
  }

  lemma JoinWordsCanonical(ws: seq<string>)
    requires forall k :: 0 <= k < |ws| ==> IsWord(ws[k])
    ensures Canonical(JoinWords(ws))
  {
    JoinCanonical(ws);
  }

  /** Canonical text is the space-join of its own words. */
  lemma {:induction false} CanonicalJoinSplit(r: string)
    requires Canonical(r)
    ensures JoinWords(Split(r)) == r
    decreases |r|
  {
    if r != [] {
      var w := WordPrefix(r);
      if |w| < |r| {
        var rest := r[|w| + 1..];
        assert r[|w|] == ' ';
        assert |w| < |r| - 1;
        assert !IsSpace(r[|w| + 1]);
        forall k | 0 <= k < |rest| && IsSpace(rest[k])
          ensures rest[k] == ' '
        {
          assert rest[k] == r[k + |w| + 1];
        }
        forall k | 0 < k < |rest| && IsSpace(rest[k])
          ensures !IsSpace(rest[k - 1])
        {
          assert rest[k] == r[k + |w| + 1] && rest[k - 1] == r[k + |w|];
        }
        assert Canonical(rest);
        assert r == w + " " + rest;
        assert r[|w|..] == " " + rest;
        assert r[|w|..][1..] == rest;
        CanonicalJoinSplit(rest);
        assert Split(r) == [w] + Split(rest);
        assert Split(rest) != [];
      } else {
        assert r[|w|..] == [];
        assert Split(r) == [w];
      }
    }
  }

  /** Normalising canonical text leaves it as it is. */
  lemma NormalizeCanonical(r: string)
    requires Canonical(r)
    ensures Normalize(r) == r
  {
    CanonicalJoinSplit(r);
  }

  /** Normalisation is idempotent (there is no entity decoding in this model). */
  lemma NormalizeIdempotent(s: string)
    ensures Normalize(Normalize(s)) == Normalize(s)
  {
    NormalizeCanonical(Normalize(s));
  }

  /** Normalising does not change the words of a text. */
  lemma SplitNormalize(s: string)
    ensures Split(Normalize(s)) == Split(s)
  {
    SplitJoinWords(Split(s));
  }

  /** Joining a list is joining its two halves with one more space. */
  lemma {:induction false} JoinWordsAt(ws: seq<string>, m: nat)
    requires 0 < m < |ws|
    ensures JoinWords(ws) == JoinWords(ws[..m]) + " " + JoinWords(ws[m..])
  {
    if m > 1 {
      JoinWordsAt(ws[1..], m - 1);
      assert ws[1..][..m - 1] == ws[..m][1..];
      assert ws[1..][m - 1..] == ws[m..];
    } else {
      assert ws[..1] == [ws[0]];
      assert ws[1..] == ws[m..];
    }
  }

  /** The join of the first `m` words is followed by a space in the join
      of all of them. */
  lemma JoinPrefixBoundary(ws: seq<string>, m: nat)
    requires 0 < m < |ws|
    ensures var p, t := JoinWords(ws[..m]), JoinWords(ws);
      |p| < |t| && t[..|p|] == p && t[|p|] == ' '
  {
    JoinWordsAt(ws, m);
    var p := JoinWords(ws[..m]);
    assert JoinWords(ws) == p + (" " + JoinWords(ws[m..]));
  }

  /** Every text of `ps` is canonical. */
  ghost predicate AllCanonical(ps: seq<string>) {
    forall k :: 0 <= k < |ps| ==> Canonical(ps[k])
  }

  /** Appending canonical text after a space and stripping, as done with
      leftover words, keeps the text canonical and the words in order. */
  lemma StripJoin(a: string, b: string)
    requires Canonical(a) && Canonical(b) && b != []
    ensures Canonical(Strip(a + " " + b))
    ensures Split(Strip(a + " " + b)) == Split(a) + Split(b)
  {
    SplitConcat(a, b);
    if a == [] {
      StripLeadingSpace(b);
    } else {
      StripCanonicalJoin(a, b);
    }
  }

  lemma StripLeadingSpace(b: string)
    requires Canonical(b)
    ensures Strip([] + " " + b) == b
  {
    assert [] + " " + b == " " + b + [];
    StripPadded(" ", b, []);
  }

  lemma StripCanonicalJoin(a: string, b: string)
    requires Canonical(a) && Canonical(b) && a != [] && b != []
    ensures Canonical(a + " " + b) && Strip(a + " " + b) == a + " " + b
  {
    CanonicalConcat(a, b);
    assert a + " " + b == [] + (a + " " + b) + [];
    StripPadded([], a + " " + b, []);
  }

  /** A literal written as words joined by single spaces is already
      normalised and splits into those words. */
  lemma WordsLiteral(s: string, ws: seq<string>)
    requires forall k :: 0 <= k < |ws| ==> IsWord(ws[k])
    requires JoinWords(ws) == s
    ensures Split(s) == ws && Normalize(s) == s
  {
    SplitJoinWords(ws);
    JoinWordsCanonical(ws);
    NormalizeCanonical(s);
  }
}
