/**
 * `PDFComparisonTool`: the session object that holds the rendered pages of
 * both documents, the comparison parameters and the diff records rebuilt
 * from them, and that reports progress and page-count mismatches through
 * callbacks.
 *
 * Rendering and contrast enhancement are calls into PyMuPDF and OpenCV, so the
 * enhanced pages enter `ProcessPdfs` as parameters; the text similarity and
 * the metadata dictionaries enter `GenerateComparisonReport` the same way.
 * Each callback invocation is recorded as a `Callback` value, in call order.
 */
module PdfTool {
  import opened Wrappers
  import opened Raster
  import opened Differ
  import opened Metadata
  import opened Report

  /** One entry of `diff_images`. */
  datatype DiffRecord = DiffRecord(image: Grid<Rgb>, pageNumber: nat, isExtraPage: bool)

  /** An invocation of `mismatch_callback(len1, len2)` or of `progress_callback(percent)`. */
  datatype Callback = Mismatch(pages1: nat, pages2: nat) | Progress(percent: real)

  predicate AllWellFormed(pages: seq<Grid<Rgb>>) {
    forall i :: 0 <= i < |pages| ==> pages[i].WellFormed()
  }

  /** Every record holds a well-formed diff image. */
  predicate RecordsWellFormed(records: seq<DiffRecord>) {
    forall i :: 0 <= i < |records| ==> records[i].image.WellFormed()
  }

  /** Python's `zip`: pairs of same-index elements, as many as the shorter sequence has. */
  function Zip<A, B>(a: seq<A>, b: seq<B>): (z: seq<(A, B)>)
    ensures |z| == Min(|a|, |b|)
    ensures forall i :: 0 <= i < |z| ==> z[i] == (a[i], b[i])
  {
    if a == [] || b == [] then [] else [(a[0], b[0])] + Zip(a[1..], b[1..])
  }

  /**
   * The comprehension of `recompute_diff_images`: one record per pair that
   * `zip` yields, numbered from 1, with `is_extra_page` computed as
   * `i >= min(len1, len2)`. Since `zip` stops at the shorter document, there
   * are exactly `min(len1, len2)` records and none is an extra page.
   */
  function DiffRecords(lib: ImageLibrary, pages1: seq<Grid<Rgb>>, pages2: seq<Grid<Rgb>>,
                       threshold: int, colorIntensity: real): (records: seq<DiffRecord>)
    requires AllWellFormed(pages1) && AllWellFormed(pages2)
    ensures |records| == Min(|pages1|, |pages2|)
    ensures RecordsWellFormed(records)
    ensures forall i :: 0 <= i < |records| ==>
              && records[i].pageNumber == i + 1
              && !records[i].isExtraPage
              && records[i].image == CompareImages(lib, pages1[i], pages2[i], threshold, colorIntensity)
  {
    var pairs := Zip(pages1, pages2);
    seq(|pairs|, i requires 0 <= i < |pairs| =>
      DiffRecord(CompareImages(lib, pairs[i].0, pairs[i].1, threshold, colorIntensity),
                 i + 1,
                 i >= Min(|pages1|, |pages2|)))
  }

  /**
   * The report's per-record test at lines 143 and 168, as written: does the
   * diff image have a pixel whose channel 2 is 255?
   */
  function DifferenceFlags(records: seq<DiffRecord>): (flags: seq<bool>)
    requires RecordsWellFormed(records)
    ensures |flags| == |records|
    ensures forall i :: 0 <= i < |records| ==> flags[i] == AnyChannel2Full(records[i].image)
  {
    seq(|records|, i requires 0 <= i < |records| => AnyChannel2Full(records[i].image))
  }

  /**
   * The corrected per-page test: a compared page has differences exactly when
   * its change mask marks some pixel, whatever the colour intensity.
   */
  function ChangedPageFlags(lib: ImageLibrary, pages1: seq<Grid<Rgb>>, pages2: seq<Grid<Rgb>>,
                            threshold: int): (flags: seq<bool>)
    requires AllWellFormed(pages1) && AllWellFormed(pages2)
    ensures |flags| == Min(|pages1|, |pages2|)
    ensures forall i :: 0 <= i < |flags| ==>
              flags[i] == (ChangedPixels(ChangeMask(lib, pages1[i], pages2[i], threshold)) != {})
  {
    seq(Min(|pages1|, |pages2|), i requires 0 <= i < Min(|pages1|, |pages2|) =>
      ChangedPixels(ChangeMask(lib, pages1[i], pages2[i], threshold)) != {})
  }

  // ---------------------------------------------------------------------------
  // Callbacks of process_pdfs

  /** `(i + 1) / total_pages * 100`, the value of the i-th progress callback. */
  function ProgressValue(i: nat, total: nat): real
    requires i < total
  {
    ((i + 1) as real / total as real) * 100.0
  }

  /** Later progress callbacks report strictly larger values. */
  lemma ProgressValueIncreasing(i: nat, j: nat, total: nat)
    requires i < j < total
    ensures ProgressValue(i, total) < ProgressValue(j, total)
  {
    var n := total as real;
    assert (i + 1) as real / n < (j + 1) as real / n by {
      assert (i + 1) as real < (j + 1) as real;
      assert n > 0.0;
    }
  }

  /** The last progress callback reports exactly 100. */
  lemma LastProgressIs100(total: nat)
    requires total > 0
    ensures ProgressValue(total - 1, total) == 100.0
  {
    assert total as real / total as real == 1.0;
  }

  /** The values of all progress callbacks for `total` pages, in order. */
  function ProgressValues(total: nat): (values: seq<real>)
    ensures |values| == total
    ensures forall i :: 0 <= i < total ==> values[i] == ProgressValue(i, total)
  {
    seq(total, i requires 0 <= i < total => ProgressValue(i, total))
  }

  /** Progress values increase strictly and end at exactly 100. */
  lemma ProgressValuesIncreaseTo100(total: nat)
    ensures forall i, j :: 0 <= i < j < total ==> ProgressValues(total)[i] < ProgressValues(total)[j]
    ensures total > 0 ==> ProgressValues(total)[total - 1] == 100.0
  {
    forall i, j | 0 <= i < j < total ensures ProgressValues(total)[i] < ProgressValues(total)[j] {
      ProgressValueIncreasing(i, j, total);
    }
    if total > 0 {
      LastProgressIs100(total);
    }
  }

  /** The progress callbacks for the given values, in order. */
  function ProgressCalls(values: seq<real>): (calls: seq<Callback>)
    ensures |calls| == |values|
    ensures forall i :: 0 <= i < |values| ==> calls[i] == Progress(values[i])
  {
    seq(|values|, i requires 0 <= i < |values| => Progress(values[i]))
  }

  /** The progress loop of lines 96-98: one call per page of the longer document. */
  method ReportProgress(totalPages: nat) returns (calls: seq<Callback>)
    ensures calls == ProgressCalls(ProgressValues(totalPages))
  {
    calls := [];
    var i := 0;
    while i < totalPages
      invariant 0 <= i <= totalPages
      invariant |calls| == i
      invariant forall k :: 0 <= k < i ==> calls[k] == Progress(ProgressValue(k, totalPages))
    {
      calls := calls + [Progress(((i + 1) as real / totalPages as real) * 100.0)];
      i := i + 1;
    }
  }

  /**
   * What `process_pdfs` sends to its callbacks for documents of `len1` and
   * `len2` pages: a mismatch notice first, when the counts differ and a
   * mismatch callback is given, then one progress value per page of the
   * longer document, when a progress callback is given.
   */
  function CallbackTrace(len1: nat, len2: nat, hasProgressCallback: bool, hasMismatchCallback: bool): seq<Callback> {
    MismatchCalls(len1, len2, hasMismatchCallback) + ProgressTrace(Max(len1, len2), hasProgressCallback)
  }

  /** The mismatch notice, when the counts differ and a mismatch callback is given. */
  function MismatchCalls(len1: nat, len2: nat, hasMismatchCallback: bool): seq<Callback> {
    if len1 != len2 && hasMismatchCallback then [Mismatch(len1, len2)] else []
  }

  /** One progress value per page of the longer document, when a progress callback is given. */
  function ProgressTrace(total: nat, hasProgressCallback: bool): seq<Callback> {
    if hasProgressCallback then ProgressCalls(ProgressValues(total)) else []
  }

  /**
   * The mismatch callback is invoked exactly once, first and with both page
   * counts, when the counts differ (and a callback is given), and never
   * otherwise.
   */
  lemma MismatchReportedIffCountsDiffer(len1: nat, len2: nat, hasProgressCallback: bool, hasMismatchCallback: bool)
    ensures var trace := CallbackTrace(len1, len2, hasProgressCallback, hasMismatchCallback);
            && ((exists i :: 0 <= i < |trace| && trace[i].Mismatch?) <==> hasMismatchCallback && len1 != len2)
            && (forall i :: 0 <= i < |trace| && trace[i].Mismatch? ==> i == 0 && trace[i] == Mismatch(len1, len2))
  {
    var trace := CallbackTrace(len1, len2, hasProgressCallback, hasMismatchCallback);
    if hasMismatchCallback && len1 != len2 {
      assert trace[0].Mismatch?;
    }
  }

  /** `progress` is `count` progress calls with strictly increasing values, the last of them 100. */
  predicate IsProgressRun(progress: seq<Callback>, count: nat) {
    && |progress| == count
    && (forall i :: 0 <= i < |progress| ==> progress[i].Progress?)
    && (forall i, j :: 0 <= i < j < |progress| ==> progress[i].percent < progress[j].percent)
    && (count > 0 ==> progress[count - 1].percent == 100.0)
  }

  /**
   * With a progress callback, it is invoked `max(len1, len2)` times, after
   * any mismatch notice, with strictly increasing values, the last of them
   * 100; without one, never.
   */
  lemma ProgressCallsCounted(len1: nat, len2: nat, hasProgressCallback: bool, hasMismatchCallback: bool)
    ensures var trace := CallbackTrace(len1, len2, hasProgressCallback, hasMismatchCallback);
            var first := if len1 != len2 && hasMismatchCallback then 1 else 0;
            && first <= |trace|
            && (forall i :: 0 <= i < first ==> !trace[i].Progress?)
            && IsProgressRun(trace[first..], if hasProgressCallback then Max(len1, len2) else 0)
  {
    var trace := CallbackTrace(len1, len2, hasProgressCallback, hasMismatchCallback);
    var first := if len1 != len2 && hasMismatchCallback then 1 else 0;
    var mismatch := MismatchCalls(len1, len2, hasMismatchCallback);
    var progress := ProgressTrace(Max(len1, len2), hasProgressCallback);
    assert |mismatch| == first;
    ProgressTraceShape(Max(len1, len2), hasProgressCallback);
    assert trace[first..] == progress;
    forall i | 0 <= i < first ensures !trace[i].Progress? {
      assert trace[i] == mismatch[i];
    }
  }

  /** The progress part of the trace: `total` increasing values ending at 100, or nothing. */
  lemma ProgressTraceShape(total: nat, hasProgressCallback: bool)
    ensures IsProgressRun(ProgressTrace(total, hasProgressCallback), if hasProgressCallback then total else 0)
  {
    if hasProgressCallback {
      ProgressValuesIncreaseTo100(total);
    }
  }

  // ---------------------------------------------------------------------------
  // The tool

  class ComparisonTool {
    /** The image-library primitives the differ calls. */
    const lib: ImageLibrary
    var pdf1Images: seq<Grid<Rgb>>
    var pdf2Images: seq<Grid<Rgb>>
    var diffImages: seq<DiffRecord>
    var threshold: int
    var colorIntensity: real

    /** All cached pages and all diff images are well-formed bitmaps. */
    ghost predicate Valid()
      reads this
    {
      AllWellFormed(pdf1Images) && AllWellFormed(pdf2Images) && RecordsWellFormed(diffImages)
    }

    /**
     * The diff records are those of the cached pages under the current
     * parameters. The constructor, `RecomputeDiffImages`,
     * `UpdateComparisonParams` and every completed `ProcessPdfs` establish it,
     * and the read-only calls leave it as it was; a `ProcessPdfs` whose second
     * render fails can leave it broken until the next recompute.
     */
    ghost predicate Current()
      reads this
    {
      && AllWellFormed(pdf1Images) && AllWellFormed(pdf2Images)
      && diffImages == DiffRecords(lib, pdf1Images, pdf2Images, threshold, colorIntensity)
    }

    /** `__init__`: no pages, no records, threshold 30, colour intensity 0.3. */
    constructor (lib: ImageLibrary)
      ensures Valid() && Current() && this.lib == lib
      ensures pdf1Images == [] && pdf2Images == [] && diffImages == []
      ensures threshold == 30 && colorIntensity == 0.3
    {
      this.lib := lib;
      pdf1Images, pdf2Images, diffImages := [], [], [];
      threshold, colorIntensity := 30, 0.3;
    }

    /** Rebuilds `diff_images` from the cached pages under the current parameters. */
    method RecomputeDiffImages()
      requires AllWellFormed(pdf1Images) && AllWellFormed(pdf2Images)
      modifies this`diffImages
      ensures Valid() && Current()
      ensures |diffImages| == Min(|pdf1Images|, |pdf2Images|)
      ensures forall i :: 0 <= i < |diffImages| ==> diffImages[i].pageNumber == i + 1 && !diffImages[i].isExtraPage
    {
      diffImages := DiffRecords(lib, pdf1Images, pdf2Images, threshold, colorIntensity);
    }

    /**
     * Sets both parameters and recomputes the records from the cached pages;
     * the pages themselves are not touched (nothing is rendered again).
     */
    method UpdateComparisonParams(threshold: int, colorIntensity: real)
      requires Valid()
      modifies this`threshold, this`colorIntensity, this`diffImages
      ensures Valid() && Current()
      ensures this.threshold == threshold && this.colorIntensity == colorIntensity
      ensures pdf1Images == old(pdf1Images) && pdf2Images == old(pdf2Images)
      ensures diffImages == DiffRecords(lib, pdf1Images, pdf2Images, threshold, colorIntensity)
    {
      this.threshold := threshold;
      this.colorIntensity := colorIntensity;
      RecomputeDiffImages();
    }

    /**
     * `process_pdfs` for documents whose enhanced pages are `rendered1` and
     * `rendered2`, `None` standing for a conversion that raises: caches the
     * pages, notifies a page-count mismatch, rebuilds the records and reports
     * progress; `calls` are the callback invocations in order. When the first
     * conversion raises nothing changes; when only the second one does, the
     * first document's pages are already replaced while the second
     * document's pages and the records keep their old values.
     */
    method ProcessPdfs(rendered1: Option<seq<Grid<Rgb>>>, rendered2: Option<seq<Grid<Rgb>>>,
                       hasProgressCallback: bool, hasMismatchCallback: bool)
      returns (calls: seq<Callback>, completed: bool)
      requires Valid()
      requires rendered1.Some? ==> AllWellFormed(rendered1.value)
      requires rendered2.Some? ==> AllWellFormed(rendered2.value)
      modifies this`pdf1Images, this`pdf2Images, this`diffImages
      ensures Valid()
      ensures completed <==> rendered1.Some? && rendered2.Some?
      ensures rendered1.None? ==> pdf1Images == old(pdf1Images)
      ensures rendered1.Some? ==> pdf1Images == rendered1.value
      ensures !completed ==> pdf2Images == old(pdf2Images) && diffImages == old(diffImages) && calls == []
      ensures completed ==> && pdf2Images == rendered2.value
                            && Current()
                            && |diffImages| == Min(|pdf1Images|, |pdf2Images|)
                            && calls == CallbackTrace(|pdf1Images|, |pdf2Images|, hasProgressCallback, hasMismatchCallback)
    {
      calls, completed := [], false;
      if rendered1.None? {
        return;
      }
      pdf1Images := rendered1.value;
      if rendered2.None? {
        return;
      }
      pdf2Images := rendered2.value;
      completed := true;
      var pages1, pages2 := pdf1Images, pdf2Images;

      var totalPages := Max(|pages1|, |pages2|);

      if |pages1| != |pages2| {
        if hasMismatchCallback {
          calls := [Mismatch(|pages1|, |pages2|)];
        }
      }
      assert calls == MismatchCalls(|pages1|, |pages2|, hasMismatchCallback);

      RecomputeDiffImages();

      if hasProgressCallback {
        var progress := ReportProgress(totalPages);
        calls := calls + progress;
      }
    }

    /** `get_diff_image(page_num)`: the record at that 0-based index, or `None` out of range. */
    function GetDiffImage(pageNum: int): (r: Option<DiffRecord>)
      reads this
      ensures r.Some? <==> 0 <= pageNum < |diffImages|
      ensures r.Some? ==> r.value == diffImages[pageNum]
      ensures Current() ==> (r.Some? <==> 0 <= pageNum < Min(|pdf1Images|, |pdf2Images|))
      ensures Current() && r.Some? ==> r.value.pageNumber == pageNum + 1 && !r.value.isExtraPage
    {
      if 0 <= pageNum < |diffImages| then Some(diffImages[pageNum]) else None
    }

    /**
     * `generate_comparison_report` for the given text similarity and metadata
     * dictionaries: the metadata diff, the per-record test and the report
     * lines; `order` is the order in which the metadata diff was iterated.
     */
    method GenerateComparisonReport(textSimilarity: real, metadata1: Properties, metadata2: Properties)
      returns (report: seq<Line>, order: seq<string>)
      requires Valid()
      ensures Enumerates(order, MetadataDiff(metadata1, metadata2).Keys)
      ensures report == ReportLines(textSimilarity, MetadataDiff(metadata1, metadata2), DifferenceFlags(diffImages), order)
    {
      var metadataDiff := CompareMetadata(metadata1, metadata2);
      var flags := DifferenceFlags(diffImages);
      report, order := AssembleReport(textSimilarity, metadataDiff, flags);
    }

    /**
     * The report with the corrected per-page test: a compared page counts as
     * having differences exactly when its change mask marks a pixel.
     */
    method GenerateCorrectedReport(textSimilarity: real, metadata1: Properties, metadata2: Properties)
      returns (report: seq<Line>, order: seq<string>)
      requires Valid()
      ensures Enumerates(order, MetadataDiff(metadata1, metadata2).Keys)
      ensures report == ReportLines(textSimilarity, MetadataDiff(metadata1, metadata2),
                                    ChangedPageFlags(lib, pdf1Images, pdf2Images, threshold), order)
    {
      var metadataDiff := CompareMetadata(metadata1, metadata2);
      var flags := ChangedPageFlags(lib, pdf1Images, pdf2Images, threshold);
      report, order := AssembleReport(textSimilarity, metadataDiff, flags);
    }
  }

  /** Two parameter updates with the same arguments leave the same records. */
  method UpdateIsIdempotent(tool: ComparisonTool, threshold: int, colorIntensity: real)
    returns (first: seq<DiffRecord>, second: seq<DiffRecord>)
    requires tool.Valid()
    modifies tool
    ensures tool.Valid() && tool.Current()
    ensures first == second == tool.diffImages
  {
    tool.UpdateComparisonParams(threshold, colorIntensity);
    first := tool.diffImages;
    tool.UpdateComparisonParams(threshold, colorIntensity);
    second := tool.diffImages;
  }

  // ---------------------------------------------------------------------------
  // Which pages the report counts

  /** Identical documents have no page with a changed pixel, for any threshold of at least 0. */
  lemma IdenticalDocumentsHaveNoChangedPages(lib: ImageLibrary, pages: seq<Grid<Rgb>>, threshold: int)
    requires AllWellFormed(pages) && 0 <= threshold
    ensures CountTrue(ChangedPageFlags(lib, pages, pages, threshold)) == 0
  {
    var flags := ChangedPageFlags(lib, pages, pages, threshold);
    forall i | 0 <= i < |flags| ensures !flags[i] {
      IdenticalPagesHaveNoChanges(lib, pages[i], threshold);
    }
    CountTrueNone(flags);
  }

  /**
   * As written, at colour intensity 0 two identical documents whose pages all
   * contain a pixel with channel 2 at 255 (a white pixel, say) have every
   * compared page counted as a page with differences.
   */
  lemma ZeroIntensityCountsIdenticalPages(lib: ImageLibrary, pages: seq<Grid<Rgb>>, threshold: int)
    requires AllWellFormed(pages) && 0 <= threshold
    requires forall i :: 0 <= i < |pages| ==> AnyChannel2Full(pages[i])
    ensures CountTrue(DifferenceFlags(DiffRecords(lib, pages, pages, threshold, 0.0))) == |pages|
    ensures CountTrue(ChangedPageFlags(lib, pages, pages, threshold)) == 0
  {
    var flags := DifferenceFlags(DiffRecords(lib, pages, pages, threshold, 0.0));
    forall i | 0 <= i < |flags| ensures flags[i] {
      ZeroIntensityFlagsIdenticalPage(lib, pages[i], threshold);
    }
    CountTrueAll(flags);
    IdenticalDocumentsHaveNoChangedPages(lib, pages, threshold);
  }

  /** At colour intensity 1 the as-written test and the corrected one agree on every page. */
  lemma FullIntensityFlagsAgree(lib: ImageLibrary, pages1: seq<Grid<Rgb>>, pages2: seq<Grid<Rgb>>, threshold: int)
    requires AllWellFormed(pages1) && AllWellFormed(pages2)
    ensures DifferenceFlags(DiffRecords(lib, pages1, pages2, threshold, 1.0)) == ChangedPageFlags(lib, pages1, pages2, threshold)
  {
    var asWritten := DifferenceFlags(DiffRecords(lib, pages1, pages2, threshold, 1.0));
    var corrected := ChangedPageFlags(lib, pages1, pages2, threshold);
    forall i | 0 <= i < |asWritten| ensures asWritten[i] == corrected[i] {
      FullIntensityChannel2MeansChange(lib, pages1[i], pages2[i], threshold);
    }
  }

  /**
   * As written, at the default colour intensity one-page documents whose only
   * page differs in a pixel that is black in the first and white in the
   * second are reported with no page with differences.
   */
  lemma DefaultIntensityCountsNoChangedPage(lib: ImageLibrary, threshold: int)
    requires Distance(lib.toGray(Black), lib.toGray(White)) > threshold
    ensures var pages1, pages2 := [Grid(1, 1, [[Black]])], [Grid(1, 1, [[White]])];
            && CountTrue(DifferenceFlags(DiffRecords(lib, pages1, pages2, threshold, 0.3))) == 0
            && CountTrue(ChangedPageFlags(lib, pages1, pages2, threshold)) == 1
  {
    var pages1, pages2 := [Grid(1, 1, [[Black]])], [Grid(1, 1, [[White]])];
    DefaultIntensityMissesDarkChange(lib, threshold);
    var asWritten := DifferenceFlags(DiffRecords(lib, pages1, pages2, threshold, 0.3));
    var corrected := ChangedPageFlags(lib, pages1, pages2, threshold);
    assert asWritten == [false];
    assert corrected == [true];
    assert [true][..0] == [];
    assert [false][..0] == [];
  }
}
