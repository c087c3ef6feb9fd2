/** `DomTextReplacer`: the leaf cache it keeps, and the batch loop of
    `find_and_prepare_changes` that answers each suggestion with a change
    log naming the matched leaves and the replacement text for each. */
module Replacer {
  import opened Wrappers
  import opened Text
  import opened Leaves
  import opened Matcher
  import opened Distributor

  /** One suggestion: the text to look for and its replacement, either of
      which may be absent. */
  datatype Suggestion = Suggestion(currentVal: Option<string>, newVal: Option<string>)

  /** One change-log entry; `newText` is `None` when the entry never
      received a `new_text` key. */
  datatype ChangeLogEntry = ChangeLogEntry(xPath: string, currentText: string, newText: Option<string>)

  /** The answer to one suggestion. */
  datatype SuggestionResult = SuggestionResult(currentVal: Option<string>, newVal: Option<string>, changeLog: seq<ChangeLogEntry>)

  /** What the tree provider answers when asked for an element's path. */
  datatype PathLookup = Located(path: string) | NotInTree | LookupFailed

  const NoElementPath := "XPATH_ERROR_NO_ELEMENT_PROVIDED"
  const NotInTreePath := "XPATH_ERROR_ELEMENT_NOT_IN_TREE"
  const ExceptionPath := "XPATH_ERROR_EXCEPTION_OCCURRED"

  /** `_get_element_xpath`: the located path, or the sentinel for the
      failure that stopped the lookup. */
  function XPath(element: Option<ElementHandle>, locate: ElementHandle -> PathLookup): (path: string)
    ensures element.Some? && locate(element.value).Located? ==> path == locate(element.value).path
    ensures element.None? ==> path == NoElementPath
    ensures element.Some? && locate(element.value).NotInTree? ==> path == NotInTreePath
    ensures element.Some? && locate(element.value).LookupFailed? ==> path == ExceptionPath
  {
    match element
    case None => NoElementPath
    case Some(e) =>
      match locate(e)
      case Located(p) => p
      case NotInTree => NotInTreePath
      case LookupFailed => ExceptionPath
  }

  /** The replacement as the distributor and the fallback receive it; a
      missing one normalises to no words at all. */
  function Replacement(v: Option<string>): string {
    match v
    case Some(s) => s
    case None => ""
  }

  /** The raw texts of a run of leaves: what the distributor receives. */
  function Raws(leaves: seq<Leaf>): (texts: seq<string>)
    ensures |texts| == |leaves|
    ensures forall k :: 0 <= k < |leaves| ==> texts[k] == leaves[k].raw
  {
    seq(|leaves|, k requires 0 <= k < |leaves| => leaves[k].raw)
  }

  function NewTextOf(e: ChangeLogEntry): string {
    match e.newText
    case Some(t) => t
    case None => ""
  }

  /** The replacement texts carried by a change log. */
  function NewTexts(log: seq<ChangeLogEntry>): (texts: seq<string>)
    ensures |texts| == |log|
    ensures forall k :: 0 <= k < |log| ==> texts[k] == NewTextOf(log[k])
  {
    seq(|log|, k requires 0 <= k < |log| => NewTextOf(log[k]))
  }

  /** `log` is the change log of `run`: entry `k` names leaf `first + k`,
      carries its raw text, and holds piece `k` of a distribution of
      `newVal` over the run's raw texts. */
  ghost predicate LogMatches(cache: seq<Leaf>, locate: ElementHandle -> PathLookup, run: Run,
                             newVal: string, log: seq<ChangeLogEntry>) {
    && run.first <= run.last < |cache|
    && |log| == run.last - run.first + 1
    && (forall k :: 0 <= k < |log| ==>
          && log[k].xPath == XPath(Some(cache[run.first + k].parent), locate)
          && log[k].currentText == cache[run.first + k].raw
          && log[k].newText.Some?)
    && IsDistributionOf(NewTexts(log), Raws(cache[run.first..run.last + 1]), newVal)
  }

  /** `r` is the answer to suggestion `s` on `cache`: it echoes the
      suggestion; its log is empty when the normalised target is empty or
      no run completes, and otherwise is the log of the first run. */
  ghost predicate Answers(cache: seq<Leaf>, locate: ElementHandle -> PathLookup,
                          s: Suggestion, r: SuggestionResult) {
    var target := NormalizeOpt(s.currentVal);
    && r.currentVal == s.currentVal && r.newVal == s.newVal
    && (target == "" || NoRun(cache, target) ==> r.changeLog == [])
    && (target != "" ==> forall run :: IsFirstRun(cache, target, run) ==>
          LogMatches(cache, locate, run, Replacement(s.newVal), r.changeLog))
  }

  /** `entries` are the fresh entries for the leaves from `first` on: each
      names its leaf, carries its raw text, and has no `new_text` yet. */
  ghost predicate EntriesFor(cache: seq<Leaf>, locate: ElementHandle -> PathLookup, first: nat,
                             entries: seq<ChangeLogEntry>) {
    forall m :: 0 <= m < |entries| ==>
      && first + m < |cache|
      && entries[m] == ChangeLogEntry(XPath(Some(cache[first + m].parent), locate), cache[first + m].raw, None)
  }

  lemma RawsStep(cache: seq<Leaf>, first: nat, k: nat)
    requires first <= k < |cache|
    ensures Raws(cache[first..k]) + [cache[k].raw] == Raws(cache[first..k + 1])
  {
  }

  lemma EntriesStep(cache: seq<Leaf>, locate: ElementHandle -> PathLookup, first: nat,
                    entries: seq<ChangeLogEntry>)
    requires EntriesFor(cache, locate, first, entries) && first + |entries| < |cache|
    ensures var leaf := cache[first + |entries|];
      EntriesFor(cache, locate, first, entries + [ChangeLogEntry(XPath(Some(leaf.parent), locate), leaf.raw, None)])
  {
  }

  /** The fresh entries of a run with the distributed texts attached form
      its change log. */
  lemma LogFromParts(cache: seq<Leaf>, locate: ElementHandle -> PathLookup, run: Run, newVal: string,
                     entries: seq<ChangeLogEntry>, distributed: seq<string>, log: seq<ChangeLogEntry>)
    requires run.first <= run.last < |cache|
    requires EntriesFor(cache, locate, run.first, entries) && |entries| == run.last - run.first + 1
    requires IsDistributionOf(distributed, Raws(cache[run.first..run.last + 1]), newVal)
    requires Attached(entries, distributed, newVal, log)
    ensures LogMatches(cache, locate, run, newVal, log)
  {
    var raws := Raws(cache[run.first..run.last + 1]);
    DistributionLength(distributed, raws, newVal);
    AttachedTexts(log, distributed);
    forall k | 0 <= k < |log|
      ensures log[k].xPath == XPath(Some(cache[run.first + k].parent), locate)
      ensures log[k].currentText == cache[run.first + k].raw
    {
      assert entries[k] == ChangeLogEntry(XPath(Some(cache[run.first + k].parent), locate), cache[run.first + k].raw, None);
    }
  }

  lemma DistributionLength(pieces: seq<string>, texts: seq<string>, newVal: string)
    requires IsDistributionOf(pieces, texts, newVal)
    ensures |pieces| == |texts|
  {
    assert CarriesWords(pieces, texts, newVal);
  }

  lemma AttachedTexts(log: seq<ChangeLogEntry>, distributed: seq<string>)
    requires |log| == |distributed|
    requires forall k :: 0 <= k < |log| ==> log[k].newText == Some(distributed[k])
    ensures NewTexts(log) == distributed
  {
  }

  /** The log of the first run is the log of every first run, and a
      first run means the target occurs. */
  lemma FirstRunLog(cache: seq<Leaf>, locate: ElementHandle -> PathLookup, target: string,
                    run: Run, newVal: string, log: seq<ChangeLogEntry>)
    requires IsFirstRun(cache, target, run) && LogMatches(cache, locate, run, newVal, log)
    ensures !NoRun(cache, target)
    ensures forall other :: IsFirstRun(cache, target, other) ==> LogMatches(cache, locate, other, newVal, log)
  {
    forall other | IsFirstRun(cache, target, other)
      ensures LogMatches(cache, locate, other, newVal, log)
    {
      FirstRunUnique(cache, target, other, run);
    }
  }

  /** End to end: when leaves `i..j` of a well-formed cache spell the
      normalised target, the answer's change log is not empty and belongs
      to a run that starts no later than `i`. */
  lemma AnswerFindsOccurrence(cache: seq<Leaf>, locate: ElementHandle -> PathLookup, s: Suggestion,
                              r: SuggestionResult, i: nat, j: nat)
    requires WellFormed(cache) && i <= j < |cache| && Answers(cache, locate, s, r)
    requires JoinWords(Norms(cache[i..j + 1])) == NormalizeOpt(s.currentVal)
    ensures r.changeLog != []
    ensures exists run: Run :: run.first <= i && LogMatches(cache, locate, run, Replacement(s.newVal), r.changeLog)
  {
    var target := NormalizeOpt(s.currentVal);
    JoinedIsJoin(cache, i, j);
    CompletesIffJoined(cache, target, i, j);
    FirstRunExists(cache, target, 0, i, j);
    var run: Run :| IsFirstRun(cache, target, run);
    OccurrenceIsFound(cache, i, j, run);
    assert LogMatches(cache, locate, run, Replacement(s.newVal), r.changeLog);
  }

  /** The loop over the matched leaves: one fresh entry per leaf, naming
      its parent's path and carrying its raw text, and the raw texts handed
      to the distributor. */
  method RunEntries(cache: seq<Leaf>, run: Run, locate: ElementHandle -> PathLookup)
    returns (entries: seq<ChangeLogEntry>, originals: seq<string>)
    requires run.first <= run.last < |cache|
    ensures EntriesFor(cache, locate, run.first, entries) && |entries| == run.last - run.first + 1
    ensures originals == Raws(cache[run.first..run.last + 1])
  {
    entries, originals := [], [];
    for k := run.first to run.last + 1
      invariant EntriesFor(cache, locate, run.first, entries) && |entries| == k - run.first
      invariant originals == Raws(cache[run.first..k])
    {
      var leaf := cache[k];
      EntriesStep(cache, locate, run.first, entries);
      RawsStep(cache, run.first, k);
      entries := entries + [ChangeLogEntry(XPath(Some(leaf.parent), locate), leaf.raw, None)];
      originals := originals + [leaf.raw];
    }
  }

  /** `updated` is `entries` with the distributed texts attached: one text
      per entry when the counts agree, otherwise the whole replacement on
      the first entry only; paths and current texts are kept. */
  ghost predicate Attached(entries: seq<ChangeLogEntry>, distributed: seq<string>, newVal: string,
                           updated: seq<ChangeLogEntry>) {
    && |updated| == |entries|
    && (forall k :: 0 <= k < |entries| ==>
          updated[k].xPath == entries[k].xPath && updated[k].currentText == entries[k].currentText)
    && (|distributed| == |entries| ==>
          forall k :: 0 <= k < |entries| ==> updated[k].newText == Some(distributed[k]))
    && (|distributed| != |entries| ==>
          forall k :: 0 <= k < |entries| ==> updated[k].newText == (if k == 0 then Some(newVal) else entries[k].newText))
  }

  /** Attaching the distributed texts to the change-log entries. */
  method AttachNewTexts(entries: seq<ChangeLogEntry>, distributed: seq<string>, newVal: string)
    returns (updated: seq<ChangeLogEntry>)
    ensures Attached(entries, distributed, newVal, updated)
  {
    updated := entries;
    if |distributed| == |entries| {
      for k := 0 to |entries|
        invariant |updated| == |entries|
        invariant forall m :: 0 <= m < |entries| ==>
          updated[m].xPath == entries[m].xPath && updated[m].currentText == entries[m].currentText
        invariant forall m :: 0 <= m < |entries| ==>
          updated[m].newText == if m < k then Some(distributed[m]) else entries[m].newText
      {
        updated := updated[k := updated[k].(newText := Some(distributed[k]))];
      }
    } else if |entries| > 0 {
      updated := updated[0 := updated[0].(newText := Some(newVal))];
    }
  }

  /** The page-side object: the text nodes of the page body (absent before
      a page is loaded) and the cache of content leaves. */
  class DomTextReplacer {
    var body: Option<seq<TextNode>>
    var cache: seq<Leaf>

    constructor()
      ensures body == None && cache == []
    {
      body := None;
      cache := [];
    }

    /** `_extract_text_segments_with_parents`. */
    method ExtractTextSegments()
      modifies this`cache
      ensures cache == if body.None? then [] else ExtractLeaves(body.value)
      ensures WellFormed(cache)
    {
      if body.None? {
        cache := [];
        return;
      }
      var nodes := body.value;
      var extracted: seq<Leaf> := [];
      for k := 0 to |nodes|
        invariant extracted == ExtractLeaves(nodes[..k])
      {
        var node := nodes[k];
        assert nodes[..k + 1][..k] == nodes[..k];
        if node.owner.None? {
          continue;
        }
        if IsNonContent(node.owner.value) {
          continue;
        }
        var normalized := Normalize(node.text);
        if normalized != "" {
          extracted := extracted + [Leaf(node.owner.value.element, node.text, normalized)];
        }
      }
      assert nodes[..|nodes|] == nodes;
      cache := extracted;
    }

    /** The change log for the run `run` of the cache: one entry per leaf,
        then the distributed replacement attached. */
    method BuildChangeLog(run: Run, newVal: string, locate: ElementHandle -> PathLookup)
      returns (log: seq<ChangeLogEntry>)
      requires run.first <= run.last < |cache|
      ensures LogMatches(cache, locate, run, newVal, log)
    {
      var entries, originals := RunEntries(cache, run, locate);
      var distributed := DistributeNewVal(newVal, originals);
      log := AttachNewTexts(entries, distributed, newVal);
      LogFromParts(cache, locate, run, newVal, entries, distributed, log);
    }

    /** The body of the batch loop for one suggestion: an empty target is
        skipped, otherwise the first run found gets its change log. */
    method Answer(suggestion: Suggestion, locate: ElementHandle -> PathLookup)
      returns (result: SuggestionResult)
      ensures Answers(cache, locate, suggestion, result)
    {
      var target := NormalizeOpt(suggestion.currentVal);
      var changeLog: seq<ChangeLogEntry> := [];
      if target != "" {
        var run := FindRun(cache, target);
        if run.Some? {
          var replacement := Replacement(suggestion.newVal);
          changeLog := BuildChangeLog(run.value, replacement, locate);
          FirstRunLog(cache, locate, target, run.value, replacement, changeLog);
        }
      }
      result := SuggestionResult(suggestion.currentVal, suggestion.newVal, changeLog);
    }

    /** The batch loop of `find_and_prepare_changes` over the current
        cache: one result per suggestion, in order. */
    method PrepareChanges(suggestions: seq<Suggestion>, locate: ElementHandle -> PathLookup)
      returns (results: seq<SuggestionResult>)
      ensures |results| == |suggestions|
      ensures forall k :: 0 <= k < |suggestions| ==> Answers(cache, locate, suggestions[k], results[k])
    {
      results := [];
      for s := 0 to |suggestions|
        invariant |results| == s
        invariant forall k :: 0 <= k < s ==> Answers(cache, locate, suggestions[k], results[k])
      {
        var result := Answer(suggestions[s], locate);
        results := results + [result];
      }
    }

    /** `find_and_prepare_changes`: load the page body, rebuild the cache
        from it, and answer every suggestion. */
    method FindAndPrepareChanges(page: seq<TextNode>, suggestions: seq<Suggestion>,
                                 locate: ElementHandle -> PathLookup)
      returns (results: seq<SuggestionResult>)
      modifies this
      ensures body == Some(page) && cache == ExtractLeaves(page)
      ensures |results| == |suggestions|
      ensures forall k :: 0 <= k < |suggestions| ==> Answers(cache, locate, suggestions[k], results[k])
    {
      body := Some(page);
      ExtractTextSegments();
      results := PrepareChanges(suggestions, locate);
    }
  }
}
