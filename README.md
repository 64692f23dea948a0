# PDFComparator comparison core in Dafny

This project models `PDFComparisonTool` (`src/pdf_tool.py`), the session object in PDFComparator that compares two PDF documents page by page. It holds:
- the rendered pages of both documents;
- the threshold and colour intensity of the comparison;
- the list of per-page diff records rebuilt from those.

For each pair of pages the tool does the following:
1. It resizes both pages to the larger of their dimensions and converts them to grayscale.
2. It binarises their absolute difference against the threshold.
3. It paints a two-colour overlay, `[0, 255, 0]` for unchanged and `[0, 0, 255]` for changed, and blends it with the first page.

`process_pdfs` loads the pages, reports a page-count mismatch and progress through callbacks, and rebuilds the records. `compare_metadata` pairs up the differing metadata values. `generate_comparison_report` assembles a textual report from:
- the text similarity;
- the metadata diff;
- the pages whose diff image has a pixel with channel 2 at 255.

Modules:
- `Wrappers`: `Option`.
- `Raster`: 8-bit channels, RGB pixels and rectangular grids, which stand for NumPy arrays.
- `Differ`: `compare_images`.
  - Resizing, grayscale conversion, `absdiff`, `THRESH_BINARY`, the overlay and `cv2.addWeighted` are each a function.
  - `cv2.addWeighted` is modelled over exact reals: a weighted sum, rounded half to even and saturated to 0..255.
  - Bilinear resampling and the RGB-to-gray formula are fields of an `ImageLibrary` value.
  - The overlay is also built in place into a zero-filled `array2` by `PaintOverlay`, as the source does with NumPy masks.
- `Metadata`: `compare_metadata`, as a loop over the union of the key sets, proved against a map comprehension.
- `Report`: the report as a sequence of `Line` values, one per templated line.
  - Its shape: which lines appear, in which order, and the counts, page numbers and values they carry.
  - The method that assembles it is proved equal to the specification function `ReportLines`.
- `PdfTool`: the diff records, the callback trace and the class `ComparisonTool`.
  - Its fields are the tool's attributes.
  - Its methods update them in place. `Valid()` states that every cached page and diff image is a well-formed bitmap.
  - `Current()` states that the records match the cached pages under the current parameters. It holds after the constructor, `RecomputeDiffImages`, `UpdateComparisonParams` and every completed `ProcessPdfs`; the read-only calls (`GetDiffImage` and the two report methods) leave it as it was. A `process_pdfs` whose second conversion raises leaves the first document's new pages beside the second document's old pages and the old records, so `Current()` may then fail until the next recompute; the as-written report then counts those stale records.

The code writes `[0, 0, 255]` into an array in RGB layout, so a changed pixel is blue (channel 2), not red. The report's test therefore reads channel 2, and the model follows the code.

## Model

| member | source | states |
|---|---|---|
| Differ.Resize | src/pdf_tool.py:64-65 | The result has exactly the requested height and width; an image that already has that size comes back unchanged |
| Differ.RoundHalfEven | src/pdf_tool.py:78 | The result is within 0.5 of the input, and a tie goes to the even integer |
| Differ.SaturateByte | src/pdf_tool.py:78 | Values in 0..255 are rounded; values below 0 give 0 and values above 255 give 255 |
| Differ.WeighChannel | src/pdf_tool.py:77-78 | Weights (1, 0) give the first channel value and weights (0, 1) give the second |
| Differ.AddWeighted | src/pdf_tool.py:77-78 | The blend has the operands' shape, and every pixel is the weighted, saturated combination of the two same-position pixels |
| Differ.AddWeightedSelects | src/pdf_tool.py:77-78 | Blending with weights (1, 0) gives the first image, and with (0, 1) the second |
| Differ.Distance | src/pdf_tool.py:70 | The per-pixel `absdiff` value is one of the two differences, so it is never negative |
| Differ.Gray | src/pdf_tool.py:67-68 | The grayscale image has the input's shape, and each cell is the converted pixel |
| Differ.AbsDiff | src/pdf_tool.py:70 | Same shape as its inputs; each cell is the distance of the two gray values |
| Differ.Threshold | src/pdf_tool.py:71 | Same shape as its input; a cell is 255 when the value is above the threshold and 0 otherwise |
| Differ.Overlay | src/pdf_tool.py:73-75 | Same shape as the mask; `[0,255,0]` where the mask is 0 and `[0,0,255]` elsewhere |
| Differ.ResizedGray | src/pdf_tool.py:64-68 | The resized grayscale page has the common shape |
| Differ.ChangeMask | src/pdf_tool.py:61-71 | The mask has max-height by max-width shape |
| Differ.CompareImages | src/pdf_tool.py:60-80 | The diff image has the maximum of both heights and the maximum of both widths |
| Differ.ChangedIffGrayDifference | src/pdf_tool.py:70-71 | The changed pixels are exactly the positions where the resized gray values differ by more than the threshold |
| Differ.MaskCell | src/pdf_tool.py:70-71 | A mask cell is 255 if the gray distance exceeds the threshold, and 0 otherwise |
| Differ.RaisingThresholdNeverAddsChanges | src/pdf_tool.py:71 | A higher threshold marks a subset of the pixels a lower one marks |
| Differ.IdenticalPagesHaveNoChanges | src/pdf_tool.py:70-71 | A page compared with itself has no changed pixel for any threshold of at least 0 |
| Differ.ChangeMaskSymmetric | src/pdf_tool.py:70 | Swapping the two pages gives the same mask |
| Differ.OverlayMarksChanges | src/pdf_tool.py:60-75 | The overlay has the common shape; a pixel is `[0,0,255]` iff the gray distance exceeds the threshold, and `[0,255,0]` iff it does not |
| Differ.ZeroIntensityShowsFirstPage | src/pdf_tool.py:77-78 | At colour intensity 0 the diff image is the resized first page |
| Differ.FullIntensityShowsOverlay | src/pdf_tool.py:77-78 | At colour intensity 1 the diff image is the bare overlay |
| Differ.FullIntensityChannel2MeansChange | src/pdf_tool.py:143 | At colour intensity 1 the channel-2 test holds iff the mask has a changed pixel |
| Differ.OverlayChannel2MeansChange | src/pdf_tool.py:73-75 | In the overlay, some pixel has channel 2 at 255 iff the mask marks some pixel |
| Differ.ZeroIntensityFlagsIdenticalPage | src/pdf_tool.py:77-78 | At colour intensity 0 a page compared with itself passes the channel-2 test whenever it has a channel-2-full pixel, though its mask is empty |
| Differ.DefaultBlendChannel2 | src/pdf_tool.py:77-78 | Under weights 0.7/0.3, a blended channel 2 is 255 iff the overlay marks a change and the page's channel 2 is already 255 |
| Differ.DefaultIntensityChannel2 | src/pdf_tool.py:77-78 | At colour intensity 0.3 a pixel of the diff image has channel 2 at 255 iff it is changed and the resized first page has channel 2 at 255 there |
| Differ.DefaultIntensityMissesDarkChange | src/pdf_tool.py:143 | At colour intensity 0.3 a black-to-white pixel is changed in the mask, yet the diff image fails the channel-2 test |
| Differ.PaintOverlay | src/pdf_tool.py:73-75 | Painting a fresh zero array in two masked passes gives exactly the overlay, with the mask's shape |
| Metadata.CompareMetadata | src/pdf_tool.py:127-133 | The loop over the union of the keys builds exactly the reference diff |
| Metadata.DiffCharacterization | src/pdf_tool.py:129-132 | A key is in the diff iff it belongs to either document and its `.get` values differ; its entry pairs both values, absence read as `None` |
| Metadata.DiffWithItselfIsEmpty | src/pdf_tool.py:127-133 | Comparing a document's metadata with itself gives an empty diff |
| Metadata.DiffSwapped | src/pdf_tool.py:127-133 | Swapping the documents keeps the key set and swaps each value pair |
| Metadata.NoneValueMeansAbsent | src/pdf_tool.py:131 | A key stored with `None` is indistinguishable from an absent key |
| Report.ShownValue | src/pdf_tool.py:158-159 | `None` and the empty string are shown as "Não disponível"; any other value is shown as itself |
| Report.VerdictFor | src/pdf_tool.py:177 | The verdict is "very similar" iff the similarity is above 0.80 |
| Report.CountTrueNone | src/pdf_tool.py:143 | The count of pages with differences is 0 iff no page is flagged |
| Report.CountTrueAll | src/pdf_tool.py:143 | The count is at most the number of pages, and equals it iff every page is flagged |
| Report.AffectedPagesCount | src/pdf_tool.py:168 | The affected-page list has exactly as many entries as the count of pages with differences |
| Report.AffectedPagesMembers | src/pdf_tool.py:168 | The list holds exactly the 1-based numbers of the flagged pages |
| Report.AffectedPagesAscending | src/pdf_tool.py:168 | The affected-page list is strictly ascending |
| Report.MetadataLines | src/pdf_tool.py:157-160 | One entry per key in iteration order, each showing the key and both values |
| Report.ListMetadataEntries | src/pdf_tool.py:157-160 | The loop visits every diff key exactly once and emits one entry per key in the order it visited them |
| Report.AssembleReport | src/pdf_tool.py:145-192 | The assembled lines are the report specification, and the order is an enumeration of the diff keys |
| Report.SummaryCounts | src/pdf_tool.py:145-153 | The summary carries the similarity, the number of differing fields, the number of compared pages and the flagged-page count |
| Report.InReport | src/pdf_tool.py:145-192 | A line is in the report iff it is in one of its four sections |
| Report.InHeader | src/pdf_tool.py:145-153 | The opening lines are exactly the title, the summary and the metadata heading |
| Report.InMetadataSection | src/pdf_tool.py:155-162 | The metadata section holds exactly the entry of every diff key or, for an empty diff, only the fallback line |
| Report.ListedLineIsEntry | src/pdf_tool.py:157-160 | Every line listed for a non-empty diff is the entry of one of its keys |
| Report.EntryIsListed | src/pdf_tool.py:157-160 | Every enumerated key's entry is listed |
| Report.InImagesSection | src/pdf_tool.py:164-172 | The images section holds its heading plus either the affected list and save location (count > 0) or the fallback line |
| Report.InInterpretationSection | src/pdf_tool.py:174-190 | The interpretation holds the verdict, the metadata warning iff the diff is non-empty, and either the visual-changes line or the identical line |
| Report.Locate | src/pdf_tool.py:145-192 | A line's membership in the whole report, spelled out case by case |
| Report.MetadataFallbackIffNoDiff | src/pdf_tool.py:155-183 | The "no metadata differences" line appears iff the diff is empty, and the metadata warning iff it is not |
| Report.VisualFallbackIffNoFlaggedPage | src/pdf_tool.py:164-190 | Both "no visual differences" lines appear iff no page is flagged; the affected list appears iff some page is |
| Report.VerdictIffAboveBound | src/pdf_tool.py:174-178 | "Very similar" appears iff the similarity is above 0.80, and "quite different" iff it is not |
| Report.EveryDifferingKeyListed | src/pdf_tool.py:156-160 | Every differing key appears with both values shown through the falsy fallback |
| Report.EntriesComeFromDiff | src/pdf_tool.py:156-160 | Every metadata entry of the report belongs to a diff key, and there is one entry per key |
| PdfTool.Zip | src/pdf_tool.py:57 | The pairs are as many as the shorter sequence has, and pair i holds the i-th elements |
| PdfTool.DiffRecords | src/pdf_tool.py:50-58 | There are min(len1, len2) records, record i is numbered i+1, none is an extra page, and each holds the compared pair |
| PdfTool.DifferenceFlags | src/pdf_tool.py:143 | As written: one flag per record, true iff the diff image has a pixel with channel 2 at 255 |
| PdfTool.ChangedPageFlags | src/pdf_tool.py:143 | Corrected: one flag per compared page, true iff its mask marks a pixel |
| PdfTool.ProgressValueIncreasing | src/pdf_tool.py:96-98 | Later progress values are strictly larger |
| PdfTool.LastProgressIs100 | src/pdf_tool.py:98 | The last progress value is exactly 100 |
| PdfTool.ProgressValues | src/pdf_tool.py:96-98 | As many values as the longer document has pages, value i being (i+1)/total*100 |
| PdfTool.ProgressValuesIncreaseTo100 | src/pdf_tool.py:96-98 | The progress values increase strictly and end at 100 |
| PdfTool.ProgressCalls | src/pdf_tool.py:96-98 | One progress call per value, in order |
| PdfTool.ReportProgress | src/pdf_tool.py:96-98 | The loop issues the progress calls for exactly those values |
| PdfTool.MismatchReportedIffCountsDiffer | src/pdf_tool.py:89-92 | A mismatch call occurs iff the counts differ and a callback is given; it is then the first call and carries (len1, len2) |
| PdfTool.ProgressCallsCounted | src/pdf_tool.py:82-98 | After any mismatch notice, with a progress callback, come max(len1, len2) progress calls, strictly increasing and ending at 100; without one, none |
| PdfTool.ProgressTraceShape | src/pdf_tool.py:96-98 | The progress part of the trace is an increasing run ending at 100, or empty |
| PdfTool.ComparisonTool.constructor | src/pdf_tool.py:17-23 | No pages, no records, threshold 30, colour intensity 0.3, and the records invariant holds |
| PdfTool.ComparisonTool.RecomputeDiffImages | src/pdf_tool.py:50-58 | Only the records change; afterwards they match the cached pages, with min(len1, len2) records numbered from 1, none an extra page |
| PdfTool.ComparisonTool.UpdateComparisonParams | src/pdf_tool.py:45-48 | Both parameters are set, the pages stay untouched, and the records are recomputed under the new parameters |
| PdfTool.ComparisonTool.ProcessPdfs | src/pdf_tool.py:82-98 | On success the pages are cached, min(len1, len2) current records are rebuilt, and the callbacks receive exactly the mismatch-then-progress trace. If the first conversion raises, nothing changes. If only the second does, the first document's pages are replaced while the second's pages and the records stay as they were, and no callback runs |
| PdfTool.ComparisonTool.GetDiffImage | src/pdf_tool.py:100-104 | Some record iff 0 <= page_num < len(diff_images); while the records are current that bound is min(len1, len2) and the record is numbered page_num + 1 |
| PdfTool.ComparisonTool.GenerateComparisonReport | src/pdf_tool.py:135-193 | The report is the specification over the metadata diff and the as-written channel-2 flags |
| PdfTool.ComparisonTool.GenerateCorrectedReport | src/pdf_tool.py:143 | The same report, but with flags computed from the change masks |
| PdfTool.UpdateIsIdempotent | src/pdf_tool.py:45-48 | Two updates with the same arguments leave the same records |
| PdfTool.IdenticalDocumentsHaveNoChangedPages | src/pdf_tool.py:143 | Under the corrected test, identical documents have no page with differences |
| PdfTool.ZeroIntensityCountsIdenticalPages | src/pdf_tool.py:143 | As written, at colour intensity 0 identical documents whose pages each hold a channel-2-full pixel have every page counted; under the corrected test none is |
| PdfTool.FullIntensityFlagsAgree | src/pdf_tool.py:143 | At colour intensity 1 the as-written and corrected flags agree |
| PdfTool.DefaultIntensityCountsNoChangedPage | src/pdf_tool.py:143 | As written, at colour intensity 0.3 a black-to-white page change counts 0 pages; the corrected test counts 1 |

## Left out

- `convert_pdf_to_images` (lines 25-34) and `extract_text_and_metadata` (lines 114-122) call PyMuPDF rendering and text extraction. The rendered pages enter `ProcessPdfs` as `Option` parameters, `None` standing for a conversion that raises (a missing or unreadable file), and the metadata dictionaries enter the report methods.
- `enhance_image` (lines 36-43) is OpenCV CLAHE on the LAB lightness channel. The pages passed to `ProcessPdfs` are the enhanced ones.
- `compare_text` (lines 124-125) is difflib's `SequenceMatcher.ratio`. The similarity is a parameter of the report methods.
- `save_diff_images` (lines 106-112) writes files. It is not modelled.
- Differ.Resize: bilinear interpolation for a size change is the abstract `resample` field. Only the identity at the page's own size is modelled.
- Differ.Gray: the RGB-to-gray weights are the abstract `toGray` field.
- Differ.WeighChannel: the 8-bit blend is computed over exact reals, not in OpenCV's floating point with the weights `1 - 0.3` and `0.3`. Some exact sums fall on a half (5·0.7 = 3.5, 255·0.3 = 76.5); the floating-point products of those operands round onto the same halves, so the two roundings are expected to agree, but the model does not prove that.
- PdfTool.ProgressValue: the progress value is the exact quotient `(i + 1) / total * 100` over the reals, not the Python double. Strict increase and the final 100 are proved for the exact value only.
- Report.VerdictFor: the similarity is compared with the exact real 0.80, not with the double nearest to `0.80`. A similarity lying between the two is classified by the exact bound.
- Differ.Threshold: the threshold is an integer. The GUI passes `int(...)` of its slider, and the model does not cover a fractional threshold.
- The `lru_cache` on page conversion, the unused `self.cache` attribute, and logging are not modelled.
- `src/gui.py`, `src/utils.py` and `setup.py` are not part of this model. The GUI is cited only for its slider ranges and defaults.
- Report.AssembleReport: the Portuguese wording, the `:.2%` formatting of the similarity and the `", ".join` of page numbers are not modelled. Each line is a `Line` value carrying the numbers and values it prints.
- The iteration order of a Python set or dict is not tied to Python's hashing. `CompareMetadata` and `ListMetadataEntries` take the keys in any order, and the report methods return the order they used.
- Exceptions other than a failed conversion, such as one raised inside a callback or by OpenCV on a malformed array, are not modelled.
- Callbacks are modelled as the returned sequence of calls, so the code a callback runs is not modelled. A callback is present or absent; a falsy non-`None` callable is not distinguished.
- The `absdiff` pipeline on non-3-channel or empty arrays is not modelled: every page is a well-formed RGB grid.

## Findings

| source | as written | input that shows it | evidently intended | confidence | as-written member | corrected member |
|---|---|---|---|---|---|---|
| src/pdf_tool.py:143 | A page counts as having differences when its blended diff image has any pixel with channel 2 at 255. At colour intensity 0 (the GUI slider's lower end, `src/gui.py:80`) the diff image is the first page itself. | Two identical documents whose pages contain white pixels, at colour intensity 0: every page is counted and listed as affected, although every mask is empty | A page counts when its change mask marks a pixel | not executed | PdfTool.ZeroIntensityCountsIdenticalPages | PdfTool.ChangedPageFlags |
| src/pdf_tool.py:143 | At the default colour intensity 0.3, a blended pixel's channel 2 reaches 255 only if the first page's channel 2 is already 255 there, because 255·0.7 + 255·0.3 is the only way to reach 255 | One-page documents, page 1 a black pixel and page 2 a white one, with any threshold below their gray distance: the mask marks the pixel, yet 0 pages are counted | A page counts when its change mask marks a pixel | not executed | PdfTool.DefaultIntensityCountsNoChangedPage | PdfTool.ChangedPageFlags |

`PdfTool.ComparisonTool.GenerateCorrectedReport` uses the corrected flags. `PdfTool.IdenticalDocumentsHaveNoChangedPages` proves that they count no page for identical documents, and `PdfTool.FullIntensityFlagsAgree` that they agree with the as-written test at colour intensity 1. The per-pixel facts behind the findings are `Differ.ZeroIntensityFlagsIdenticalPage` and `Differ.DefaultIntensityMissesDarkChange`.
