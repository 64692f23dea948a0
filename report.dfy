/**
 * The structure of the text `PDFComparisonTool.generate_comparison_report`
 * assembles. Each `Line` stands for one templated line (or paragraph) of the
 * report; the Portuguese wording itself is not modelled, only which lines
 * appear, in which order, and the numbers and values they carry.
 */
module Report {
  import opened Wrappers
  import opened Metadata

  /** The placeholder printed for a falsy metadata value. */
  const NotAvailable: string := "Não disponível"

  /** The similarity bound of the interpretation paragraph: above it the texts are "very similar". */
  const SimilarityBound: real := 0.80

  datatype Verdict = VerySimilar | QuiteDifferent

  datatype Line =
    | Title
      // "PDF Comparison Report" under a rule of 30 '='
    | Summary(textSimilarity: real, metadataFields: nat, totalPages: nat, pagesWithDifferences: nat)
    | MetadataHeading
    | MetadataEntry(key: string, value1: string, value2: string)
    | NoMetadataDifferences
    | ImagesHeading(totalPages: nat, pagesWithDifferences: nat)
    | AffectedList(pages: seq<nat>)
    | SavedImagesLocation
    | NoVisualDifferences
    | Interpretation(textSimilarity: real, verdict: Verdict)
    | MetadataWarning
    | VisualChanges(pageCount: nat)
    | VisuallyIdentical

  /** `value or "Não disponível"`: `None` and the empty string are falsy. */
  function Shown(v: Option<string>): string {
    if v == None || v == Some("") then NotAvailable else v.value
  }

  /** A falsy value is shown as the placeholder, any other value as itself. */
  lemma ShownValue(v: Option<string>)
    ensures v == None || v == Some("") ==> Shown(v) == NotAvailable
    ensures v.Some? && v.value != "" ==> Shown(v) == v.value
  {
  }

  /** The adjective of the interpretation paragraph. */
  function VerdictFor(textSimilarity: real): (v: Verdict)
    ensures v == VerySimilar <==> textSimilarity > SimilarityBound
  {
    if textSimilarity > SimilarityBound then VerySimilar else QuiteDifferent
  }

  // ---------------------------------------------------------------------------
  // Pages with differences

  /** `sum(1 for ... if flag)`: how many pages are flagged. */
  function CountTrue(flags: seq<bool>): nat {
    if flags == [] then 0 else CountTrue(flags[..|flags| - 1]) + (if flags[|flags| - 1] then 1 else 0)
  }

  /** No page is counted exactly when no flag is set. */
  lemma {:induction false} CountTrueNone(flags: seq<bool>)
    ensures CountTrue(flags) == 0 <==> forall i :: 0 <= i < |flags| ==> !flags[i]
  {
    if flags != [] {
      var init := flags[..|flags| - 1];
      CountTrueNone(init);
      assert forall i :: 0 <= i < |init| ==> init[i] == flags[i];
    }
  }

  /** Every page is counted exactly when every flag is set. */
  lemma {:induction false} CountTrueAll(flags: seq<bool>)
    ensures CountTrue(flags) <= |flags|
    ensures CountTrue(flags) == |flags| <==> forall i :: 0 <= i < |flags| ==> flags[i]
  {
    if flags != [] {
      var init := flags[..|flags| - 1];
      CountTrueAll(init);
      assert forall i :: 0 <= i < |init| ==> init[i] == flags[i];
    }
  }

  /** `[i + 1 for i, ... in enumerate(...) if flag]`: the 1-based numbers of the flagged pages. */
  function AffectedPages(flags: seq<bool>): seq<nat> {
    if flags == [] then []
    else AffectedPages(flags[..|flags| - 1]) + (if flags[|flags| - 1] then [|flags|] else [])
  }

  /** The list of affected pages is as long as the count the summary prints. */
  lemma {:induction false} AffectedPagesCount(flags: seq<bool>)
    ensures |AffectedPages(flags)| == CountTrue(flags)
  {
    if flags != [] {
      AffectedPagesCount(flags[..|flags| - 1]);
    }
  }

  /** A page number is listed exactly when it is in range and its page is flagged. */
  lemma {:induction false} AffectedPagesMembers(flags: seq<bool>)
    ensures forall p :: p in AffectedPages(flags) <==> 1 <= p <= |flags| && flags[p - 1]
  {
    if flags != [] {
      var init := flags[..|flags| - 1];
      AffectedPagesMembers(init);
      assert forall i :: 0 <= i < |init| ==> init[i] == flags[i];
    }
  }

  /** The affected pages are listed in strictly ascending order. */
  lemma {:induction false} AffectedPagesAscending(flags: seq<bool>)
    ensures forall i, j :: 0 <= i < j < |AffectedPages(flags)| ==> AffectedPages(flags)[i] < AffectedPages(flags)[j]
  {
    if flags != [] {
      var init := flags[..|flags| - 1];
      AffectedPagesAscending(init);
      AffectedPagesMembers(init);
      var pages := AffectedPages(init);
      assert forall i :: 0 <= i < |pages| ==> pages[i] in pages;
    }
  }

  // ---------------------------------------------------------------------------
  // The report

  /** `order` lists every key of `keys` exactly once. */
  ghost predicate Enumerates(order: seq<string>, keys: set<string>) {
    && (forall i, j :: 0 <= i < j < |order| ==> order[i] != order[j])
    && (forall k :: k in keys <==> k in order)
  }

  /** The lines printed for one differing metadata key: its name and both shown values. */
  function Entry(diff: map<string, ValuePair>, key: string): Line
    requires key in diff
  {
    MetadataEntry(key, Shown(diff[key].0), Shown(diff[key].1))
  }

  /** One entry per key, in iteration order. */
  function MetadataLines(diff: map<string, ValuePair>, order: seq<string>): (lines: seq<Line>)
    requires forall k :: k in order ==> k in diff
    ensures |lines| == |order|
    ensures forall i :: 0 <= i < |order| ==> lines[i] == Entry(diff, order[i])
  {
    seq(|order|, i requires 0 <= i < |order| => Entry(diff, order[i]))
  }

  /** Lines 145-155: the title, the summary and the metadata heading. */
  function Header(textSimilarity: real, diff: map<string, ValuePair>, flags: seq<bool>): seq<Line> {
    [Title, Summary(textSimilarity, |diff|, |flags|, CountTrue(flags)), MetadataHeading]
  }

  /** Lines 156-162: one entry per differing key, or the fallback line. */
  function MetadataSection(diff: map<string, ValuePair>, order: seq<string>): seq<Line>
    requires forall k :: k in order ==> k in diff
  {
    if |diff| > 0 then MetadataLines(diff, order) else [NoMetadataDifferences]
  }

  /** Lines 164-172: the image totals, then the affected pages or the fallback line. */
  function ImagesSection(flags: seq<bool>): seq<Line> {
    var count := CountTrue(flags);
    [ImagesHeading(|flags|, count)]
    + (if count > 0 then [AffectedList(AffectedPages(flags)), SavedImagesLocation] else [NoVisualDifferences])
  }

  /** Lines 174-190: the interpretation paragraph. */
  function InterpretationSection(textSimilarity: real, diff: map<string, ValuePair>, flags: seq<bool>): seq<Line> {
    var count := CountTrue(flags);
    [Interpretation(textSimilarity, VerdictFor(textSimilarity))]
    + (if |diff| > 0 then [MetadataWarning] else [])
    + (if count > 0 then [VisualChanges(count)] else [VisuallyIdentical])
  }

  /**
   * The report for a text similarity, a metadata diff, the per-page
   * difference flags of the diff records, and the order in which the
   * metadata diff's keys are iterated.
   */
  function ReportLines(textSimilarity: real, diff: map<string, ValuePair>, flags: seq<bool>,
                       order: seq<string>): seq<Line>
    requires Enumerates(order, diff.Keys)
  {
    Header(textSimilarity, diff, flags) + MetadataSection(diff, order)
    + ImagesSection(flags) + InterpretationSection(textSimilarity, diff, flags)
  }

  /** The loop of lines 157-160 over the diff's items, in the order the dictionary yields them. */
  method ListMetadataEntries(diff: map<string, ValuePair>) returns (entries: seq<Line>, order: seq<string>)
    ensures Enumerates(order, diff.Keys)
    ensures entries == MetadataLines(diff, order)
  {
    entries, order := [], [];
    var remaining := diff.Keys;
    while remaining != {}
      invariant forall i, j :: 0 <= i < j < |order| ==> order[i] != order[j]
      invariant forall k :: k in order <==> k in diff.Keys && k !in remaining
      invariant remaining <= diff.Keys
      invariant entries == MetadataLines(diff, order)
      decreases remaining
    {
      var key :| key in remaining;
      var (value1, value2) := diff[key];
      entries := entries + [MetadataEntry(key, Shown(value1), Shown(value2))];
      order := order + [key];
      remaining := remaining - {key};
    }
  }

  /**
   * Lines 145-192: the report accumulated line by line, the metadata entries
   * in whatever order the diff's keys are iterated; `order` is that order.
   */
  method AssembleReport(textSimilarity: real, diff: map<string, ValuePair>, flags: seq<bool>)
    returns (lines: seq<Line>, order: seq<string>)
    ensures Enumerates(order, diff.Keys)
    ensures lines == ReportLines(textSimilarity, diff, flags, order)
  {
    var totalPages := |flags|;
    var pagesWithDifferences := CountTrue(flags);
    lines := [Title, Summary(textSimilarity, |diff|, totalPages, pagesWithDifferences), MetadataHeading];
    assert lines == Header(textSimilarity, diff, flags);

    var metadata;
    if |diff| > 0 {
      metadata, order := ListMetadataEntries(diff);
    } else {
      metadata, order := [NoMetadataDifferences], [];
    }
    assert metadata == MetadataSection(diff, order);
    lines := lines + metadata;

    var images := [ImagesHeading(totalPages, pagesWithDifferences)];
    if pagesWithDifferences > 0 {
      images := images + [AffectedList(AffectedPages(flags)), SavedImagesLocation];
    } else {
      images := images + [NoVisualDifferences];
    }
    assert images == ImagesSection(flags);
    lines := lines + images;

    var interpretation := [Interpretation(textSimilarity, VerdictFor(textSimilarity))];
    if |diff| > 0 {
      interpretation := interpretation + [MetadataWarning];
    }
    if pagesWithDifferences > 0 {
      interpretation := interpretation + [VisualChanges(pagesWithDifferences)];
    } else {
      interpretation := interpretation + [VisuallyIdentical];
    }
    assert interpretation == InterpretationSection(textSimilarity, diff, flags);
    lines := lines + interpretation;
  }

  // ---------------------------------------------------------------------------
  // Properties of the report, for every iteration order

  /** The summary reports the diff size, the page total and the number of affected pages. */
  lemma SummaryCounts(textSimilarity: real, diff: map<string, ValuePair>, flags: seq<bool>, order: seq<string>)
    requires Enumerates(order, diff.Keys)
    ensures ReportLines(textSimilarity, diff, flags, order)[1]
              == Summary(textSimilarity, |diff|, |flags|, |AffectedPages(flags)|)
  {
    AffectedPagesCount(flags);
  }

  /** A line is in the report exactly when it is in one of its four sections. */
  lemma InReport(l: Line, textSimilarity: real, diff: map<string, ValuePair>, flags: seq<bool>, order: seq<string>)
    requires Enumerates(order, diff.Keys)
    ensures l in ReportLines(textSimilarity, diff, flags, order) <==>
              || l in Header(textSimilarity, diff, flags)
              || l in MetadataSection(diff, order)
              || l in ImagesSection(flags)
              || l in InterpretationSection(textSimilarity, diff, flags)
  {
  }

  lemma InHeader(l: Line, textSimilarity: real, diff: map<string, ValuePair>, flags: seq<bool>)
    ensures l in Header(textSimilarity, diff, flags) <==>
              l == Title || l == Summary(textSimilarity, |diff|, |flags|, CountTrue(flags)) || l == MetadataHeading
  {
  }

  /** The metadata section holds one entry per differing key, or the fallback line alone. */
  lemma InMetadataSection(l: Line, diff: map<string, ValuePair>, order: seq<string>)
    requires Enumerates(order, diff.Keys)
    ensures l in MetadataSection(diff, order) <==>
              if |diff| > 0 then l.MetadataEntry? && l.key in diff && l == Entry(diff, l.key)
              else l == NoMetadataDifferences
  {
    if |diff| > 0 {
      if l in MetadataSection(diff, order) {
        ListedLineIsEntry(l, diff, order);
      }
      if l.MetadataEntry? && l.key in diff && l == Entry(diff, l.key) {
        EntryIsListed(l.key, diff, order);
      }
    } else {
      assert MetadataSection(diff, order) == [NoMetadataDifferences];
    }
  }

  lemma ListedLineIsEntry(l: Line, diff: map<string, ValuePair>, order: seq<string>)
    requires (forall k :: k in order ==> k in diff) && |diff| > 0
    requires l in MetadataSection(diff, order)
    ensures l.MetadataEntry? && l.key in diff && l == Entry(diff, l.key)
  {
    var entries := MetadataLines(diff, order);
    var i :| 0 <= i < |entries| && entries[i] == l;
    assert l == Entry(diff, order[i]);
  }

  lemma EntryIsListed(key: string, diff: map<string, ValuePair>, order: seq<string>)
    requires forall k :: k in order ==> k in diff
    requires key in order
    ensures Entry(diff, key) in MetadataSection(diff, order)
  {
    var entries := MetadataLines(diff, order);
    var i :| 0 <= i < |order| && order[i] == key;
    assert entries[i] == Entry(diff, key);
  }

  lemma InImagesSection(l: Line, flags: seq<bool>)
    ensures l in ImagesSection(flags) <==>
              || l == ImagesHeading(|flags|, CountTrue(flags))
              || (CountTrue(flags) > 0 && (l == AffectedList(AffectedPages(flags)) || l == SavedImagesLocation))
              || (CountTrue(flags) == 0 && l == NoVisualDifferences)
  {
    var heading := ImagesHeading(|flags|, CountTrue(flags));
    if CountTrue(flags) > 0 {
      assert ImagesSection(flags) == [heading, AffectedList(AffectedPages(flags)), SavedImagesLocation];
      InTriple(l, heading, AffectedList(AffectedPages(flags)), SavedImagesLocation);
    } else {
      assert ImagesSection(flags) == [heading, NoVisualDifferences];
      InPair(l, heading, NoVisualDifferences);
    }
  }

  lemma InInterpretationSection(l: Line, textSimilarity: real, diff: map<string, ValuePair>, flags: seq<bool>)
    ensures l in InterpretationSection(textSimilarity, diff, flags) <==>
              || l == Interpretation(textSimilarity, VerdictFor(textSimilarity))
              || (|diff| > 0 && l == MetadataWarning)
              || (CountTrue(flags) > 0 && l == VisualChanges(CountTrue(flags)))
              || (CountTrue(flags) == 0 && l == VisuallyIdentical)
  {
  }

  /** Where a line can occur: its membership in the report, section by section. */
  lemma Locate(l: Line, textSimilarity: real, diff: map<string, ValuePair>, flags: seq<bool>, order: seq<string>)
    requires Enumerates(order, diff.Keys)
    ensures l in ReportLines(textSimilarity, diff, flags, order) <==>
              || l == Title || l == Summary(textSimilarity, |diff|, |flags|, CountTrue(flags)) || l == MetadataHeading
              || (if |diff| > 0 then l.MetadataEntry? && l.key in diff && l == Entry(diff, l.key)
                  else l == NoMetadataDifferences)
              || l == ImagesHeading(|flags|, CountTrue(flags))
              || (CountTrue(flags) > 0 && (l == AffectedList(AffectedPages(flags)) || l == SavedImagesLocation))
              || (CountTrue(flags) == 0 && l == NoVisualDifferences)
              || l == Interpretation(textSimilarity, VerdictFor(textSimilarity))
              || (|diff| > 0 && l == MetadataWarning)
              || (CountTrue(flags) > 0 && l == VisualChanges(CountTrue(flags)))
              || (CountTrue(flags) == 0 && l == VisuallyIdentical)
  {
    InReport(l, textSimilarity, diff, flags, order);
    InHeader(l, textSimilarity, diff, flags);
    InMetadataSection(l, diff, order);
    InImagesSection(l, flags);
    InInterpretationSection(l, textSimilarity, diff, flags);
  }

  /** The metadata fallback line appears exactly when the diff is empty; the warning exactly when it is not. */
  lemma MetadataFallbackIffNoDiff(textSimilarity: real, diff: map<string, ValuePair>, flags: seq<bool>, order: seq<string>)
    requires Enumerates(order, diff.Keys)
    ensures NoMetadataDifferences in ReportLines(textSimilarity, diff, flags, order) <==> |diff| == 0
    ensures MetadataWarning in ReportLines(textSimilarity, diff, flags, order) <==> |diff| > 0
  {
    Locate(NoMetadataDifferences, textSimilarity, diff, flags, order);
    Locate(MetadataWarning, textSimilarity, diff, flags, order);
  }

  /**
   * The visual fallback lines appear exactly when no page is flagged;
   * otherwise the report lists the affected pages.
   */
  lemma VisualFallbackIffNoFlaggedPage(textSimilarity: real, diff: map<string, ValuePair>, flags: seq<bool>, order: seq<string>)
    requires Enumerates(order, diff.Keys)
    ensures NoVisualDifferences in ReportLines(textSimilarity, diff, flags, order) <==> CountTrue(flags) == 0
    ensures VisuallyIdentical in ReportLines(textSimilarity, diff, flags, order) <==> CountTrue(flags) == 0
    ensures AffectedList(AffectedPages(flags)) in ReportLines(textSimilarity, diff, flags, order) <==> CountTrue(flags) > 0
  {
    Locate(NoVisualDifferences, textSimilarity, diff, flags, order);
    Locate(VisuallyIdentical, textSimilarity, diff, flags, order);
    Locate(AffectedList(AffectedPages(flags)), textSimilarity, diff, flags, order);
  }

  /** The interpretation calls the texts very similar exactly when the similarity exceeds 0.80. */
  lemma VerdictIffAboveBound(textSimilarity: real, diff: map<string, ValuePair>, flags: seq<bool>, order: seq<string>)
    requires Enumerates(order, diff.Keys)
    ensures (Interpretation(textSimilarity, VerySimilar) in ReportLines(textSimilarity, diff, flags, order)
             <==> textSimilarity > SimilarityBound)
    ensures (Interpretation(textSimilarity, QuiteDifferent) in ReportLines(textSimilarity, diff, flags, order)
             <==> textSimilarity <= SimilarityBound)
  {
    Locate(Interpretation(textSimilarity, VerySimilar), textSimilarity, diff, flags, order);
    Locate(Interpretation(textSimilarity, QuiteDifferent), textSimilarity, diff, flags, order);
  }

  /** Every differing key is listed with both of its values as printed. */
  lemma EveryDifferingKeyListed(textSimilarity: real, diff: map<string, ValuePair>, flags: seq<bool>, order: seq<string>)
    requires Enumerates(order, diff.Keys)
    ensures forall key :: key in diff ==>
              MetadataEntry(key, Shown(diff[key].0), Shown(diff[key].1)) in ReportLines(textSimilarity, diff, flags, order)
  {
    forall key | key in diff
      ensures MetadataEntry(key, Shown(diff[key].0), Shown(diff[key].1)) in ReportLines(textSimilarity, diff, flags, order)
    {
      Locate(Entry(diff, key), textSimilarity, diff, flags, order);
    }
  }

  /** Listed metadata entries come from the diff and there is one per differing key. */
  lemma EntriesComeFromDiff(textSimilarity: real, diff: map<string, ValuePair>, flags: seq<bool>, order: seq<string>)
    requires Enumerates(order, diff.Keys)
    ensures forall l :: l in ReportLines(textSimilarity, diff, flags, order) && l.MetadataEntry? ==>
              l.key in diff && l == Entry(diff, l.key)
    ensures |order| == |diff|
  {
    forall l | l in ReportLines(textSimilarity, diff, flags, order) && l.MetadataEntry?
      ensures l.key in diff && l == Entry(diff, l.key)
    {
      Locate(l, textSimilarity, diff, flags, order);
    }
    DistinctLength(order, diff.Keys);
  }

  lemma InPair<T>(x: T, a: T, b: T)
    ensures x in [a, b] <==> x == a || x == b
  {
  }

  lemma InTriple<T>(x: T, a: T, b: T, c: T)
    ensures x in [a, b, c] <==> x == a || x == b || x == c
  {
  }

  lemma {:induction false} DistinctLength(order: seq<string>, keys: set<string>)
    requires Enumerates(order, keys)
    ensures |order| == |keys|
  {
    if order != [] {
      var last := order[|order| - 1];
      var init := order[..|order| - 1];
      assert forall k :: k in init <==> k in order && k != last by {
        forall k ensures k in init <==> k in order && k != last {
          if k in order && k != last {
            var i :| 0 <= i < |order| && order[i] == k;
            assert i < |order| - 1 && init[i] == k;
          }
        }
      }
      DistinctLength(init, keys - {last});
    }
  }
}
