# DomTextReplacer in Dafny

`DomTextReplacer` takes a web page and a list of suggestions. Each
suggestion pairs a `current_val`, the text to find, with a `new_val`, its
replacement. For each suggestion it finds the text on the page and prepares
a change log. The log names every text node the text spans, by the XPath of
its parent element, and gives the part of the replacement that node should
receive. This project models the logic behind that, and proves what it
promises:

- **Normaliser** (`Text`, `_normalize_text`). It collapses every run of
  whitespace to one space and strips both ends. `None` becomes `""`.
  `Split` and `JoinWords` model `str.split()` and `" ".join`.
- **Leaf filter** (`Leaves`, `_extract_text_segments_with_parents`). It
  walks the body's text nodes in document order. It drops nodes with no
  parent, nodes whose parent tag is one of `script`, `style`,
  `noscript`, `title`, `meta`, `link` or `head` (in any case), and nodes that
  normalise to nothing. It caches `(parent, raw, normalised)` leaves.
- **Run matcher** (`Matcher`, the nested `i`/`j` loop of
  `find_and_prepare_changes`). For each start leaf it extends the run for
  as long as the normalised join is a prefix of the target that ends just
  before a space. It stops at the first start whose run spells the whole
  target.
- **Word distributor** (`Distributor`, `_distribute_new_val`). It shares
  the replacement's words over the matched leaves in proportion to their
  original word counts, or spreads them evenly when the originals have no
  words. A wrap-around loop with a step cutoff then repairs the rounding
  drift. Finally the words are sliced out in order, and any leftover words
  go to the last leaf.
- **Batch** (`Replacer`, class `DomTextReplacer`). The class holds the page
  body and the leaf cache, rebuilds the cache from a page, and answers
  every suggestion in order.

The page is a sequence of abstract text nodes, `Leaves.TextNode`. Each
node has an optional owner, giving the element handle and the tag when
the tag is a string, and the node's raw text. The element-to-XPath
lookup of the tree library is the parameter `locate`.

The proofs establish the following:

- Normalised text is canonical and idempotent under normalisation.
- The cache holds exactly the kept nodes, in document order.
- The matcher returns the first run, and its prefix pruning loses no
  occurrence on a well-formed cache.
- The distributor returns one piece per original. The pieces hold the
  replacement's words in order and re-join to the normalised replacement.
  Piece `k` holds slice `k` of the words, cut by the reconciled shares,
  and no piece is more than one word from its proportional share.
- Reconciliation keeps counts non-negative and stops within the cutoff.
  From the initial shares it hits the word count: a shortfall is handed
  out one word per leaf from the first leaf round, and a surplus is taken
  back one word each from the first leaves that have words.
- Each result echoes its suggestion and carries the change log of the
  first run, or an empty log.

## Model

| member | source | states |
|---|---|---|
| Text.Normalize | dom_text_replacer.py:53-62 | the result is the input's words joined by single spaces: no whitespace at either end, no two whitespace characters together, only plain spaces |
| Text.NormalizeOpt | dom_text_replacer.py:55-56 | `None` normalises to `""`; any other text to its canonical word join |
| Text.NormalizeIdempotent | dom_text_replacer.py:53-62 | normalising normalised text changes nothing (whitespace handling only) |
| Text.SplitNormalize | dom_text_replacer.py:127 | normalising a text does not change its words |
| Text.NormalizeCanonical | dom_text_replacer.py:258-260 | re-normalising canonical text returns it unchanged |
| Text.JoinPrefixBoundary | dom_text_replacer.py:305-308 | in the join of a word list, the join of its first `m` words is a proper prefix followed by a space |
| Text.StripJoin | dom_text_replacer.py:199-201 | appending canonical leftover text after a space and stripping stays canonical and concatenates the words |
| Leaves.ExtractLeaves | dom_text_replacer.py:83-119 | every cached leaf has a non-empty normalised text equal to the normalisation of its raw text; at most one leaf per node |
| Leaves.ExtractAppend | dom_text_replacer.py:88-119 | extraction distributes over concatenation of node sequences, so the cache keeps document order |
| Leaves.ExtractMembership | dom_text_replacer.py:90-117 | a leaf is cached exactly when some kept node (owned, content parent, non-blank) produced it |
| Leaves.ExtractSkips | dom_text_replacer.py:91-114 | ownerless nodes, non-content nodes and blank nodes give an empty cache |
| Replacer.DomTextReplacer.ExtractTextSegments | dom_text_replacer.py:77-120 | the cache becomes the extraction of the body's nodes (empty when there is no body), and every leaf is well formed |
| Matcher.FindRun | dom_text_replacer.py:241-318 | a returned run is reached by boundary prefixes, spells the target, and no earlier start completes; no run means no scan completes |
| Matcher.FirstRunUnique | dom_text_replacer.py:243-318 | there is at most one first run |
| Matcher.FirstRunExists | dom_text_replacer.py:243-318 | if some scan completes, a first run exists |
| Matcher.JoinedIsJoin | dom_text_replacer.py:255-260 | on well-formed leaves the re-normalised join of a run is the plain join, and is not empty |
| Matcher.CompletesIffJoined | dom_text_replacer.py:248-315 | the scan from `i` completes at `j` if and only if leaves `i..j` joined by spaces equal the target, so pruning loses nothing |
| Matcher.BoundaryBefore | dom_text_replacer.py:305-308 | every shorter run of an occurrence is a proper prefix of it followed by a space |
| Matcher.OccurrenceIsFound | dom_text_replacer.py:243-318 | the first run starts no later than any occurrence of the target |
| Matcher.OccurrenceIsNotMissed | dom_text_replacer.py:243-318 | a target that occurs as a run is always found |
| Matcher.NoMidWordMatch | dom_text_replacer.py:305-308 | leaves `a` and `b` never match `a c` for a word `c` other than `b`, even a prefix of `b` ("Hello" + "Worldwide" against "Hello World") |
| Distributor.NewWords | dom_text_replacer.py:127-128 | the replacement's words are its `split()` words and re-join to its normalisation |
| Distributor.RoundHalfEven | dom_text_replacer.py:149-151 | the nearest integer to `num / den`, with ties going to the even one |
| Distributor.InitialCounts | dom_text_replacer.py:143-159 | the filled counts are the proportional shares, or the even spread when the originals have no words |
| Distributor.SharesEven | dom_text_replacer.py:153-159 | the even spread sums to the word count, earlier leaves get the remainder, and no two leaves differ by more than one |
| Distributor.SharesDrift | dom_text_replacer.py:146-151 | the initial shares are non-negative and overshoot by at most half the number of positive shares |
| Distributor.SharesTwoByTwo | dom_text_replacer.py:146-151 | counts `[2, 2]` with four new words give `[2, 2]` |
| Distributor.Reconcile | dom_text_replacer.py:161-187 | counts never go negative; the loop stops within `2 * (total + n) + 1` steps; exact counts are left alone; counts with bounded drift end up summing to the word count, a shortfall of `d` giving leaf `k` exactly `d / n` words more plus one when `k < d % n`, a surplus taking one word from each of the first positive leaves that cover it |
| Distributor.ForceLast | dom_text_replacer.py:180-187 | at the cutoff only the last count changes: it absorbs the remaining drift, clamped at zero, so the sum hits the word count unless the clamp bites; exact counts are left alone |
| Distributor.AdjustAt | dom_text_replacer.py:170-176 | one loop step moves the count at `idx % n` one word towards the total, unless it would go negative, and keeps `diff` equal to the remaining drift |
| Distributor.SliceWords | dom_text_replacer.py:189-203 | one piece per count; the pieces hold all the words in order, each is canonical, and with exact counts piece `k` holds exactly slice `k` |
| Distributor.DistributeNewVal | dom_text_replacer.py:122-203 | one piece per original (none for none), a replacement with no words gives all `""`, a single original gets the normalised replacement, and piece `k` holds exactly slice `k` of the words cut by the reconciliation of the initial shares |
| Distributor.SharesDeficit | dom_text_replacer.py:143-159 | the initial shares fall short of the word count by at most half the number of leaves |
| Distributor.ExactSharesKept | dom_text_replacer.py:161-166 | shares that already add up to the word count are their own reconciliation |
| Distributor.ReconciledNearShares | dom_text_replacer.py:143-187 | reconciling the initial shares moves every leaf by at most one word |
| Distributor.DistributionNearShares | dom_text_replacer.py:143-203 | every piece holds within one word of its proportional share |
| Distributor.DistributionWithoutDrift | dom_text_replacer.py:143-203 | when the shares already add up to the word count, piece `k` holds exactly slice `k` cut by the shares |
| Distributor.DistributionSingle | dom_text_replacer.py:189-203 | a single original receives the whole normalised replacement |
| Distributor.DistributionRoundTrip | dom_text_replacer.py:189-203 | the pieces joined by spaces normalise to the normalised replacement |
| Distributor.DistributionCount | dom_text_replacer.py:189-203 | the pieces' word counts add up to the replacement's word count |
| Distributor.TwoByTwoScenario | test_scenario_runner.py:28-29 | two two-word leaves replaced by four words receive the first and the last pair |
| Distributor.ThreeByOneScenario | dom_text_replacer.py:161-203 | three one-word leaves replaced by two words receive `""`, the first word and the second word: the surplus word is taken from the first leaf |
| Replacer.XPath | dom_text_replacer.py:64-75 | a located element yields its path; no element yields the no-element sentinel, an element outside a tree the not-in-tree sentinel, and a failed lookup the exception sentinel |
| Replacer.AttachNewTexts | dom_text_replacer.py:283-293 | with matching lengths entry `k` gets piece `k`; otherwise only entry 0 gets the replacement; paths and texts are kept |
| Replacer.RunEntries | dom_text_replacer.py:266-276 | one fresh entry per leaf of the run, naming its parent's path and carrying its raw text with no new text yet, and the run's raw texts in order |
| Replacer.DomTextReplacer.BuildChangeLog | dom_text_replacer.py:264-295 | entry `k` names leaf `first + k` by its parent's path, carries its raw text, and has a new text; the new texts are a distribution over the run's raw texts |
| Replacer.FirstRunLog | dom_text_replacer.py:262-301 | the log built for the first run is the log of the only first run, and the target occurs |
| Replacer.DomTextReplacer.Answer | dom_text_replacer.py:218-320 | the result echoes `current_val` and `new_val`; the log is empty for an empty target or no match, and is otherwise the first run's log |
| Replacer.AnswerFindsOccurrence | dom_text_replacer.py:241-318 | when the target occurs in a well-formed cache, the answer's log is not empty and belongs to a run starting no later than the occurrence |
| Replacer.DomTextReplacer.PrepareChanges | dom_text_replacer.py:216-325 | one result per suggestion, in order, each the answer to its suggestion |
| Replacer.DomTextReplacer.FindAndPrepareChanges | dom_text_replacer.py:205-325 | the body becomes the page, the cache its extraction, and every suggestion is answered in order |
| Replacer.DomTextReplacer.constructor | dom_text_replacer.py:16-22 | a new replacer has no body and an empty cache |

## Left out

- `_fetch_content` (browser fetch, HTML parsing, body lookup and its errors) is I/O. The page body is the `page` parameter of `FindAndPrepareChanges`, given as a sequence of text nodes in document order.
- `html.unescape` is the identity in this model. The source unescapes a second time when it re-normalises a joined run, so text such as `&amp;lt;` can normalise differently twice. `NormalizeIdempotent` and the matcher completeness lemmas hold for whitespace handling only.
- Distributor.RoundHalfEven: the source computes `round(count / total * new)` in floating point. The model rounds the exact quotient half to even, so a float product that lands on the other side of a half is not modelled.
- Whitespace is Python's `str.isspace()` set, used for both `\s` and `str.split()`. Tag lowercasing covers ASCII letters only.
- `getpath` of the tree library is the `locate` parameter. Its answer decides the path or the sentinel.
- Which element `getparent()` returns for a text node is left to the tree provider, and the node carries it as its owner. In lxml a tail text's parent is the element the tail follows, so in `<p><script>…</script>Visible</p>` the text `Visible` is owned by `script` and dropped. The model filters on whatever owner the node is given and does not derive owners from a tree.
- Suggestion values are strings or `None`; other values are not modelled. In the source, numbers, bools, bytes and containers holding `"&"` make `html.unescape` raise `TypeError`, which `_normalize_text` turns into `""` (dom_text_replacer.py:57-60): such a `current_val` is skipped as empty (dom_text_replacer.py:234-239) and such a `new_val` gives every matched node `""` (dom_text_replacer.py:133-134). Containers without `"&"` pass `unescape` unchanged, so `re.sub` at dom_text_replacer.py:61, outside the `try`, raises and aborts the whole batch: at dom_text_replacer.py:221 for a `current_val`, and at dom_text_replacer.py:279 for a `new_val` once a match is found. A suggestion that lacks either key raises `KeyError` at dom_text_replacer.py:219-220 and aborts the batch too.
- All `print` logging is left out.
- Replacer.AttachNewTexts: when the lengths differ and `new_val` is `None`, the source stores `None` on entry 0, while the model stores `""`. `BuildChangeLog` never reaches that branch, because a distribution always has one piece per original.
- Distributor.Reconcile: the sum equals the word count only for counts whose excess is at most the number of positive counts. The initial shares always meet this (`SharesDrift`). For arbitrary counts the cutoff and the clamp at zero can miss the total, e.g. `[10, 0]` with one word ends at `[6, 0]`.
- test_scenario_runner.py runs the tool against a live site and only prints the results. Only its example suggestion appears here, in `TwoByTwoScenario`.
