/** Text leaves of a page: what the tree provider yields for each text node,
    and the leaf filter of `_extract_text_segments_with_parents`. */
module Leaves {
  import opened Wrappers
  import opened Text

  /** A handle on an element of the externally owned tree. */
  type ElementHandle = nat

  /** The element that `getparent()` returns for a text node, with its tag
      when the tag is a string (comments and processing instructions have none). */
  datatype Owner = Owner(element: ElementHandle, tag: Option<string>)

  /** A text node in document order: its owner, if any, and its raw text. */
  datatype TextNode = TextNode(owner: Option<Owner>, text: string)

  /** A cached leaf: owner element, raw text and normalised text. */
  datatype Leaf = Leaf(parent: ElementHandle, raw: string, norm: string)

  /** Tags whose text is never page content. */
  const NonContentTags: seq<string> := ["script", "style", "noscript", "title", "meta", "link", "head"]

  function LowerChar(c: char): char {
    if 'A' <= c <= 'Z' then (c as int + 32) as char else c
  }

  /** `str.lower()` on ASCII letters. */
  function Lower(s: string): (r: string)
    ensures |r| == |s|
  {
    seq(|s|, i requires 0 <= i < |s| => LowerChar(s[i]))
  }

  predicate IsNonContent(o: Owner) {
    o.tag.Some? && Lower(o.tag.value) in NonContentTags
  }

  /** A node is kept when it has an owner, the owner is a content element,
      and its text does not normalise to empty. */
  predicate Keep(n: TextNode) {
    n.owner.Some? && !IsNonContent(n.owner.value) && Normalize(n.text) != ""
  }

  function LeafOf(n: TextNode): Leaf
    requires n.owner.Some?
  {
    Leaf(n.owner.value.element, n.text, Normalize(n.text))
  }

  /** A leaf as the filter produces it: its normalised text is the
      normalisation of its raw text and is not empty. */
  ghost predicate WellFormedLeaf(l: Leaf) {
    l.norm == Normalize(l.raw) && l.norm != ""
  }

  ghost predicate WellFormed(cache: seq<Leaf>) {
    forall k :: 0 <= k < |cache| ==> WellFormedLeaf(cache[k])
  }

  /** The leaves extracted from `nodes`, in document order. */
  function ExtractLeaves(nodes: seq<TextNode>): (cache: seq<Leaf>)
    ensures WellFormed(cache)
    ensures |cache| <= |nodes|
  {
    if nodes == [] then []
    else
      var n := nodes[|nodes| - 1];
      ExtractLeaves(nodes[..|nodes| - 1]) + (if Keep(n) then [LeafOf(n)] else [])
  }

  /** Extraction keeps document order: it distributes over concatenation. */
  lemma {:induction false} ExtractAppend(a: seq<TextNode>, b: seq<TextNode>)
    ensures ExtractLeaves(a + b) == ExtractLeaves(a) + ExtractLeaves(b)
    decreases |b|
  {
    if b == [] {
      assert a + b == a;
    } else {
      var b' := b[..|b| - 1];
      assert (a + b)[..|a + b| - 1] == a + b';
      ExtractAppend(a, b');
    }
  }

  /** A leaf is cached exactly when some kept node produced it. */
  lemma {:induction false} ExtractMembership(nodes: seq<TextNode>, l: Leaf)
    ensures l in ExtractLeaves(nodes) <==> exists n :: n in nodes && Keep(n) && LeafOf(n) == l
  {
    if nodes != [] {
      var init := nodes[..|nodes| - 1];
      var last := nodes[|nodes| - 1];
      assert nodes == init + [last];
      ExtractMembership(init, l);
      if l in ExtractLeaves(nodes) && l !in ExtractLeaves(init) {
        assert Keep(last) && LeafOf(last) == l;
      }
      if exists n :: n in nodes && Keep(n) && LeafOf(n) == l {
        var n :| n in nodes && Keep(n) && LeafOf(n) == l;
        if n != last {
          assert n in init;
        }
      }
    }
  }

  /** Nodes of non-content elements, ownerless nodes and blank nodes are
      never cached. */
  lemma {:induction false} ExtractSkips(nodes: seq<TextNode>)
    requires forall k :: 0 <= k < |nodes| ==> !Keep(nodes[k])
    ensures ExtractLeaves(nodes) == []
  {
    if nodes != [] {
      ExtractSkips(nodes[..|nodes| - 1]);
    }
  }
}
