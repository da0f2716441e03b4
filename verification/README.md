# OCR_Project core, modelled in Dafny

OCR_Project turns scanned PDF forms into text. Each page is rendered to an
image. `ImageProcessor.ExtractContours` finds rectangular field regions on the
page, sorts them into reading order, keeps those within a size range and saves
each as a crop. `PDFProcessor.PageOCR` runs Tesseract on a crop and keeps only
the words whose confidence reaches a threshold. `StringFilter` cleans the
text, and `ProcessPdf` appends one line per non-empty crop to a results file.
Two helpers fill a field dictionary from regular-expression matches, and
`CleanDictionaryValues` removes whitespace that stands before commas.

The model has four modules, one file each:

- `Text` (text.dfy) holds the .NET primitives the filters rest on:
  - the whitespace class shared by `\s` and `Char.IsWhiteSpace`;
  - `String.Trim`;
  - ordinal `String.Replace`, which is leftmost-first, non-overlapping and
    single-pass.
- `StringFilter` (string_filter.dfy) models `ReduceWhitespace`, `RemoveWords`
  and `RemoveRepeatingNewLines`.
- `ImageProcessor` (image_processor.dfy) models `ExtractContours(imagePath,
  pageNumber)` from the bounding rectangles onward:
  - the (Y, X) sort;
  - the inclusive size filter;
  - crop names that number a crop by its position in the full sorted list;
  - the fallback to the page image.
- `PdfProcessor` (pdf_processor.dfy) models:
  - the confidence filter of `PageOCR`;
  - the line rule of `ProcessPdf`;
  - `AddFieldToDictionaryFromPattern` and
    `AddListFieldToDictionaryFromPattern`;
  - `CleanDictionaryValues`.

The external steps become inputs:

- The words Tesseract's iterator visits are a sequence of (text,
  confidence) pairs.
- The matches the regex engine finds are sequences of group values.
- The contours OpenCV finds are their bounding rectangles.
- The crop directory is a parameter.
- `maxDimension` is a parameter.

`List.Sort` is not stable. The model therefore states the selection for any
sorting of the rectangles by (Y, X), and proves that any two such sortings
give the same multiset of crop rectangles.

The two-argument `ExtractContours` does not deduplicate rectangles.

## Model

| member | source | states |
|---|---|---|
| Text.Trim | StringFiltering.cs:11 | `String.Trim()`: whitespace removed from both ends; its contract is stated by `Text.TrimShape`, `Text.TrimKeepsContent` and `Text.TrimOfTrimmed` |
| Text.TrimShape | StringFiltering.cs:11 | `Trim` cuts off a whitespace prefix and a whitespace suffix, and leaves no whitespace at either end |
| Text.TrimKeepsContent | StringFiltering.cs:11 | `Trim` removes whitespace characters only |
| Text.TrimOfTrimmed | StringFiltering.cs:11 | text with no whitespace at either end is left unchanged by `Trim` |
| Text.ReplaceAll | StringFiltering.cs:18 | `Replace` by a text that is no longer than the searched text never lengthens the string |
| Text.ReplaceAbsent | StringFiltering.cs:18 | when the searched text does not occur, `Replace` returns its input |
| Text.ReplaceFirstOccurrence | StringFiltering.cs:18 | the text before the first occurrence is kept, that occurrence is replaced, and the scan resumes right after it |
| Text.ReplaceKeepsPrefix | StringFiltering.cs:18 | a prefix in which no occurrence starts is copied unchanged and the scan continues on the rest |
| Text.ReplaceUpTo | StringFiltering.cs:18 | with no occurrence before position i, the result is the first i characters followed by the replacement of the rest |
| Text.ReplaceKeepsContent | StringFiltering.cs:9 | replacing whitespace by whitespace keeps every non-whitespace character in order |
| Text.ReplaceChars | StringFiltering.cs:18 | every character of the result comes from the input or from the replacement |
| Text.ReplaceIsNonOverlapping | StringFiltering.cs:18 | removing "aa" from "aaa" leaves "a": overlapping occurrences are not both replaced |
| Text.ReplaceIsSinglePass | StringFiltering.cs:18 | removing "ab" from "aabb" leaves "ab": text formed by a replacement is not rescanned |
| Text.ReplaceAroundWhite | StringFiltering.cs:9 | replacing a whitespace text only touches the whitespace between two texts without whitespace |
| Text.ReplaceInWhite | StringFiltering.cs:9 | replacing whitespace by non-empty whitespace inside a whitespace run leaves a whitespace run, non-empty if the run was |
| StringFilter.CollapseWhite | StringFiltering.cs:10 | `Regex.Replace(s, @"\s+", " ")`: each maximal whitespace run becomes one space; its contract is stated by `CollapseWhiteSingleSpaced`, `CollapseWhiteHead`, `CollapseWhiteKeepsContent`, `CollapseWhiteOfRun` and `CollapseWhiteAround` |
| StringFilter.CollapseWhiteSingleSpaced | StringFiltering.cs:10 | after `\s+` → " " the only whitespace is single spaces |
| StringFilter.CollapseWhiteHead | StringFiltering.cs:10 | a non-empty input gives a non-empty result that starts with whitespace exactly when the input does |
| StringFilter.CollapseWhiteSplit | StringFiltering.cs:10 | text ending in a non-whitespace character is collapsed independently of what follows it |
| StringFilter.CollapseWhiteOfRun | StringFiltering.cs:10 | a whitespace run at the front becomes exactly one space, whatever its length and kind |
| StringFilter.CollapseWhiteAround | StringFiltering.cs:10 | a whitespace run between non-whitespace characters becomes exactly one space and both sides collapse on their own |
| StringFilter.CollapseWhiteSeparates | StringFiltering.cs:10 | two texts without whitespace separated by any whitespace run come out separated by one space |
| StringFilter.LineBreaksToSpacesAround | StringFiltering.cs:9 | the line-break replacements change only the whitespace between two texts without whitespace, and leave it non-empty whitespace |
| StringFilter.CollapseWhiteKeepsContent | StringFiltering.cs:10 | collapsing whitespace runs keeps every non-whitespace character in order |
| StringFilter.CollapseWhiteOfSingleSpaced | StringFiltering.cs:10 | text whose only whitespace is single spaces is unchanged by the collapse |
| StringFilter.LineBreaksToSpaces | StringFiltering.cs:9 | the three literal `Replace` calls, CR LF then LF then CR each to a space; its contract is stated by `LineBreaksToSpacesKeepsContent` and `LineBreaksToSpacesAround` |
| StringFilter.LineBreaksToSpacesKeepsContent | StringFiltering.cs:9 | turning CR LF, LF and CR into spaces keeps every non-whitespace character |
| StringFilter.ReduceWhitespace | StringFiltering.cs:7-12 | the whole filter; its contract is stated by `ReduceWhitespaceNormalises`, `ReduceWhitespaceKeepsContent`, `ReduceWhitespaceSeparates` and `ReduceWhitespaceIdempotent` |
| StringFilter.ReduceWhitespaceNormalises | StringFiltering.cs:7-12 | the result has no whitespace at either end, no whitespace but single spaces, and the input's non-whitespace characters in order |
| StringFilter.ReduceWhitespaceKeepsContent | StringFiltering.cs:7-12 | the result keeps exactly the input's non-whitespace characters, in order |
| StringFilter.TrimOfSingleSpaced | StringFiltering.cs:10-11 | trimming text whose only whitespace is single spaces gives whitespace-normalised text |
| StringFilter.ReduceWhitespaceOfNormalised | StringFiltering.cs:7-12 | already-normalised text is a fixed point |
| StringFilter.ReduceWhitespaceIdempotent | StringFiltering.cs:7-12 | applying `ReduceWhitespace` twice is applying it once |
| StringFilter.ReduceWhitespaceSeparates | StringFiltering.cs:7-12 | two texts without whitespace joined by any non-empty whitespace, line breaks included, become the two texts joined by one space |
| StringFilter.RemoveWords | StringFiltering.cs:14-21 | it fails exactly when some word is empty, where `Replace` throws; on success the result is never longer than the input |
| StringFilter.RemoveWordsAbsent | StringFiltering.cs:14-21 | when no word occurs, the input is returned unchanged |
| StringFilter.RemoveWordsSequential | StringFiltering.cs:16-19 | removing a list of words is removing its first part and then its second part, in list order |
| StringFilter.RemoveWordsExamples | StringFiltering.cs:14-21 | "aaa" minus "aa" is "a"; "aabb" minus "ab" is "ab"; removing "ab" twice from "aabb" gives "" |
| StringFilter.CollapseRuns | StringFiltering.cs:25 | `Regex.Replace(s, "(u){2,}", u)` for a literal unit; its contract is stated by `CollapseCrLfNoDouble`, `CollapseCrLfMarker`, `CollapseCharNoRepeat` and `CollapseCharIsSqueeze` |
| StringFilter.RemoveRepeatingNewLines | StringFiltering.cs:23-27 | the filter as written; its contract is stated by `RemoveRepeatingNewLinesCollapsesCrLf` and `RemoveRepeatingNewLinesCrLfRuns` |
| StringFilter.CollapseCrLfNoDouble | StringFiltering.cs:25 | after `(\r\n){2,}` → CR LF, no CR LF pair is directly followed by another |
| StringFilter.CollapseCrLfOfNoDouble | StringFiltering.cs:25 | text without a doubled CR LF is unchanged by the collapse |
| StringFilter.CollapseCrLfKeepsText | StringFiltering.cs:25 | the collapse changes only the number of CR LF pairs: with all pairs deleted, input and output agree |
| StringFilter.CrLfDup | StringFiltering.cs:25 | two CR LF pairs at the front collapse like one |
| StringFilter.MarkerDup | StringFiltering.cs:25 | two copies of a character at the front collapse like one |
| StringFilter.CollapseCrLfMarker | StringFiltering.cs:25 | with each CR LF pair marked by a character the text lacks, collapsing CR LF runs is collapsing runs of the marker: each run keeps exactly one pair and every other character stays in order |
| StringFilter.CollapseRunsChars | StringFiltering.cs:25 | the collapse introduces no character the input lacks |
| StringFilter.RemoveRepeatingNewLinesWithoutBrace | StringFiltering.cs:23-27 | for text without `{`, the two literal replacements never fire, so only CR LF runs collapse |
| StringFilter.RemoveRepeatingNewLinesCollapsesCrLf | StringFiltering.cs:23-27 | for text without `{`: no doubled CR LF remains, only CR LF pairs are removed, and a second call changes nothing |
| StringFilter.RemoveRepeatingNewLinesCrLfRuns | StringFiltering.cs:23-27 | for text without `{`: every run of CR LF pairs keeps exactly one pair, and nothing else changes |
| StringFilter.RemoveRepeatingNewLinesKeepsLfRuns | StringFiltering.cs:25 | "a\n\n\nb" is returned unchanged: runs of bare line feeds are not collapsed |
| StringFilter.RemoveRepeatingNewLinesLeavesLfRun | StringFiltering.cs:25 | the result for "a\n\n\nb" still has two line feeds in a row |
| StringFilter.RemoveRepeatingNewLinesRewritesLiteral | StringFiltering.cs:25 | the literal five characters `\n{2,}` are rewritten to one line feed |
| StringFilter.RemoveRepeatingNewLinesNotIdempotent | StringFiltering.cs:23-27 | "\r\n\r{2,}\n" becomes "\r\n\r\n", and a second call turns that into "\r\n" |
| StringFilter.CollapseCharNoRepeat | StringFiltering.cs:25 | after collapsing runs of one character, that character never occurs twice in a row |
| StringFilter.CollapseCharKeepsNoRepeat | StringFiltering.cs:25 | collapsing runs of one character never makes another character occur twice in a row |
| StringFilter.CollapseRunsKeepsContent | StringFiltering.cs:25 | collapsing runs of a whitespace unit removes whitespace only |
| StringFilter.RemoveRepeatingNewLinesIntended | StringFiltering.cs:25 | the corrected filter, all three patterns as regular expressions; its contract is stated by `RemoveRepeatingNewLinesIntendedSpec` and `RemoveRepeatingNewLinesIntendedBreaksOnly` |
| StringFilter.RemoveRepeatingNewLinesIntendedSpec | StringFiltering.cs:23-27 | with all three patterns as regular expressions: no LF or CR twice in a row, and only whitespace is removed |
| StringFilter.Squeeze | StringFiltering.cs:25 | reference definition of collapsing runs of one character, by deleting each copy directly followed by another; `CollapseCharIsSqueeze` ties it to the regular-expression collapse and `SqueezeKeepsNonBreaks` states what it removes |
| StringFilter.CollapseCharIsSqueeze | StringFiltering.cs:25 | collapsing runs of a character agrees with the reference definition that deletes each copy directly followed by another, so each run keeps one copy |
| StringFilter.SqueezeKeepsNonBreaks | StringFiltering.cs:25 | squeezing runs of LF or CR deletes line breaks only |
| StringFilter.CollapseCrLfKeepsNonBreaks | StringFiltering.cs:25 | collapsing CR LF runs deletes line breaks only |
| StringFilter.RemoveRepeatingNewLinesIntendedBreaksOnly | StringFiltering.cs:23-27 | the intended filter keeps one CR LF pair per run, then one LF per run of LFs, then one CR per run of CRs; with line breaks deleted, output and input agree |
| ImageProcessor.Insert | ImageProcessor.cs:42-47 | inserting into a list sorted by (Y, X) adds exactly that rectangle and keeps the list sorted |
| ImageProcessor.SortRects | ImageProcessor.cs:42-47 | the result is a permutation of the rectangles, ordered by Y and then X |
| ImageProcessor.MinDimension | ImageProcessor.cs:31 | the minimum size is the page width divided by 11 and the height divided by 35, both rounded down |
| ImageProcessor.Fits | ImageProcessor.cs:53-54 | the size filter: width and height each within the minimum and maximum, all four bounds inclusive; used by `FitOnlyCount` and `SelectFromSpec` |
| ImageProcessor.FitOnly | ImageProcessor.cs:53-54 | the fitting rectangles in order, never more than the input; `FitOnlyCount` states the multiplicity of each |
| ImageProcessor.FitOnlyCount | ImageProcessor.cs:53-54 | a rectangle is kept as often as it occurs when its width and height lie within the inclusive bounds, and never otherwise |
| ImageProcessor.SelectFrom | ImageProcessor.cs:50-65 | the loop over the sorted list from a given position; its contract is stated by `SelectFromSpec` and `SelectFromIndices` |
| ImageProcessor.SelectCrops | ImageProcessor.cs:50-65 | the whole loop from position 0; its contract is stated by `SelectCropsRects`, `SelectCropsOfAnySortedOrder` and `CropCount` |
| ImageProcessor.SelectFromSpec | ImageProcessor.cs:50-65 | each crop's number is its position in the whole sorted list and its rectangle is the one there; numbers strictly increase; the numbers are exactly the positions of fitting rectangles |
| ImageProcessor.SelectFromIndices | ImageProcessor.cs:50-65 | the crop numbers are exactly the sorted positions whose rectangle fits |
| ImageProcessor.SelectCropsRects | ImageProcessor.cs:50-65 | the crops' rectangles are the fitting rectangles, in sorted order |
| ImageProcessor.SelectCropsOfAnySortedOrder | ImageProcessor.cs:42-65 | for any (Y, X) sorting, the crops are exactly the fitting rectangles, counted with multiplicity, in reading order |
| ImageProcessor.SortedOrdersAgree | ImageProcessor.cs:42-65 | two (Y, X) sortings of the same rectangles give the same multiset of crop rectangles and the same number of crops |
| ImageProcessor.CropFileName | ImageProcessor.cs:60 | `contour_{pageNumber}_{i}.png`; `CropFileNameInjective` and `ExampleFileName` state it |
| ImageProcessor.CropPath | ImageProcessor.cs:60 | that name joined to the crop directory; `CropPathInjective` and `ExamplePath` state it |
| ImageProcessor.NatToStringInjective | ImageProcessor.cs:60 | different crop numbers give different decimal texts |
| ImageProcessor.CropPathInjective | ImageProcessor.cs:60 | on one page, different crop numbers give different file paths |
| ImageProcessor.JoinPathInjective | ImageProcessor.cs:60 | in one directory, equal paths mean equal file names |
| ImageProcessor.CropFileNameInjective | ImageProcessor.cs:60 | on one page, equal crop file names mean equal crop numbers |
| ImageProcessor.NoneFitsIffNoneKept | ImageProcessor.cs:50-65 | no crop is saved exactly when no rectangle fits the size range |
| ImageProcessor.CropCount | ImageProcessor.cs:42-65 | the number of crops equals the number of fitting rectangles, whatever the sort order |
| ImageProcessor.ExtractContours | ImageProcessor.cs:9-74 | `ExtractContours(imagePath, pageNumber)` from the bounding rectangles on; its contract is stated by `ExtractContoursFallback`, `ExtractCropsSpec` and `ExtractContoursPaths` |
| ImageProcessor.ExtractContoursFallback | ImageProcessor.cs:67-73 | the result is never empty; it is just the page image exactly when no rectangle fits, and otherwise has one path per fitting rectangle |
| ImageProcessor.ExtractCrops | ImageProcessor.cs:31-65 | sort, then select with the page-derived minimum; its contract is stated by `ExtractCropsSpec` |
| ImageProcessor.ExtractCropsSpec | ImageProcessor.cs:31-65 | with the page-derived minimum: fitting rectangles counted with multiplicity, in reading order, each numbered by its sorted position, numbers increasing |
| ImageProcessor.ExtractContoursPaths | ImageProcessor.cs:50-63 | when something fits, the k-th path is `contour_{page}_{number}.png` in the crop directory, and all paths differ |
| ImageProcessor.CropNumberSkipsUnqualified | ImageProcessor.cs:50-60 | on a 110×350 page the small rectangle sorts first but fails the filter, so the only crop is `contour_3_1.png`: the number counts positions in the full sorted list |
| ImageProcessor.ExampleCrops | ImageProcessor.cs:50-65 | in that example the only crop is the second rectangle in sorted order, numbered 1 |
| ImageProcessor.ExampleSorted | ImageProcessor.cs:42-47 | in that example the sort puts the small rectangle, which lies higher, first |
| ImageProcessor.ExampleSelect | ImageProcessor.cs:50-65 | in that example only the rectangle at sorted position 1 passes the filter |
| ImageProcessor.ExamplePath | ImageProcessor.cs:60 | page 3, crop 1 in directory "crops" is "crops/contour_3_1.png" |
| ImageProcessor.ExampleFileName | ImageProcessor.cs:60 | page 3, crop 1 is named "contour_3_1.png" |
| PdfProcessor.KeptWords | PDFProcessor.cs:155-163 | the texts of the words whose confidence reaches the threshold, in iterator order; its contract is stated by `KeptWordsAppend` and `KeptWordsMembers` |
| PdfProcessor.Spaced | PDFProcessor.cs:161 | each kept word followed by one space; `SpacedKeepsContent` states it |
| PdfProcessor.KeptWordsAppend | PDFProcessor.cs:154-163 | the filter runs through the words in iterator order: filtering a concatenation is concatenating the filtered parts |
| PdfProcessor.KeptWordsMembers | PDFProcessor.cs:157-162 | a text is kept exactly when some word with that text has confidence at or above the threshold |
| PdfProcessor.SpacedKeepsContent | PDFProcessor.cs:161 | appending a space after each word adds whitespace only |
| PdfProcessor.PageOcr | PDFProcessor.cs:140-175 | the confidence filter and text assembly of `PageOCR`; its contract is stated by `PageOcrTrimmed` and `PageOcrJoinsKeptWords` |
| PdfProcessor.PageOcrTrimmed | PDFProcessor.cs:140-175 | the OCR text has no whitespace at either end and keeps every non-whitespace character of the kept words, in order |
| PdfProcessor.PageOcrJoinsKeptWords | PDFProcessor.cs:140-175 | when every word is non-empty with no whitespace at its ends, the OCR text is exactly the kept words joined by single spaces |
| PdfProcessor.JoinWordsTrimmed | PDFProcessor.cs:161-174 | kept words without whitespace at their ends, joined by single spaces, give non-empty text with no whitespace at either end |
| PdfProcessor.CropText | PDFProcessor.cs:83-86 | a crop's text: `PageOCR` at `0.85f`, then `ReduceWhitespace`; `CropWrittenIff` and `PageLinesNormalised` state it |
| PdfProcessor.Written | PDFProcessor.cs:89 | the append test: neither empty nor a single line feed; `WrittenLinesMembers` and `CropWrittenIff` state it |
| PdfProcessor.WrittenLines | PDFProcessor.cs:78-95 | the crop texts that pass the append test, in order; its contract is stated by `WrittenLinesMembers` and `WrittenLinesAppend` |
| PdfProcessor.CropWrittenIff | PDFProcessor.cs:83-95 | the reduced text is never "\n"; a crop gets a line exactly when some kept word has a non-whitespace character |
| PdfProcessor.PageLines | PDFProcessor.cs:78-99 | a page gets at most one line per crop |
| PdfProcessor.PageLinesNormalised | PDFProcessor.cs:83-95 | every line written is non-empty and whitespace-normalised |
| PdfProcessor.PageLinesAppend | PDFProcessor.cs:78-99 | lines are written in crop order: the lines of a concatenation of crops are the concatenation of their lines |
| PdfProcessor.WrittenLinesMembers | PDFProcessor.cs:89-95 | every line written is one of the crop texts and is neither empty nor a single line feed |
| PdfProcessor.WrittenLinesAppend | PDFProcessor.cs:78-99 | the crop texts are tested one after the other, so lines keep the crops' order |
| PdfProcessor.ProcessPdf | PDFProcessor.cs:50-103 | the lines `ProcessPdf` appends for a document; its contract is stated by `ProcessPdfInCropOrder` and `ProcessPdfLines` |
| PdfProcessor.ProcessPdfInCropOrder | PDFProcessor.cs:50-103 | page boundaries leave no trace: the lines for all pages are those of all their crops, page after page |
| PdfProcessor.ProcessPdfLines | PDFProcessor.cs:50-103 | a document gets at most one line per crop, and every line is non-empty and whitespace-normalised |
| PdfProcessor.AddFieldFromPattern | PDFProcessor.cs:177-199 | only the field's key is set, and every other entry stays; without a match the field is "Not found"; with a match it is a string no longer than groups 1 to 3 together |
| PdfProcessor.AddFieldFromPatternValue | PDFProcessor.cs:192 | the field is group 1, then group 2, then group 3; groups the pattern lacks contribute "", so a one-group pattern stores group 1 |
| PdfProcessor.Group1Values | PDFProcessor.cs:206-212 | group 1 of every match that has a capture group, in match order; its contract is stated by `Group1ValuesEmpty` and `Group1ValuesAppend` |
| PdfProcessor.Group1ValuesEmpty | PDFProcessor.cs:206-212 | no group-1 value is collected exactly when no match has a capture group |
| PdfProcessor.Group1ValuesAppend | PDFProcessor.cs:206-212 | group-1 values are collected in match order |
| PdfProcessor.AddListFieldFromPattern | PDFProcessor.cs:201-222 | `AddListFieldToDictionaryFromPattern`; its contract is stated by `AddListFieldFromPatternSpec` |
| PdfProcessor.AddListFieldFromPatternSpec | PDFProcessor.cs:201-222 | it returns true exactly when some match has a capture group; on false the dictionary is unchanged; on true only the field changes, to the group-1 values in match order |
| PdfProcessor.CleanCommas | PDFProcessor.cs:231 | the cleaned text is never longer |
| PdfProcessor.CleanCommasNoWhiteBeforeComma | PDFProcessor.cs:231 | after `\s+,` → ",", no whitespace character stands before a comma |
| PdfProcessor.CleanCommasKeepsContent | PDFProcessor.cs:231 | the replacement removes whitespace and nothing else |
| PdfProcessor.CleanCommasOfClean | PDFProcessor.cs:231 | text with no whitespace before a comma is unchanged |
| PdfProcessor.CleanCommasSplit | PDFProcessor.cs:231 | text ending in a non-whitespace character is cleaned independently of what follows it |
| PdfProcessor.CleanCommasWhiteRun | PDFProcessor.cs:231 | a whitespace run at the front disappears when a comma follows it and is kept character for character otherwise |
| PdfProcessor.CleanCommasAround | PDFProcessor.cs:231 | a whitespace run between non-whitespace characters is kept unchanged unless a comma follows it, in which case it disappears |
| PdfProcessor.CleanValue | PDFProcessor.cs:229-232 | a string value is cleaned and any other value is left as it is; `CleanDictionaryValuesSpec` states it |
| PdfProcessor.CleanDictionaryValues | PDFProcessor.cs:224-234 | the key set is unchanged |
| PdfProcessor.CleanDictionaryValuesSpec | PDFProcessor.cs:224-234 | keys stay; values that are not strings, lists included, stay; every string value ends with no whitespace before a comma and loses whitespace only; cleaning twice is cleaning once (that whitespace elsewhere is kept is `CleanCommasAround`) |

## Left out

- OpenCV:
  - image loading, grayscale conversion and adaptive thresholding;
  - contour finding, bounding rectangles and `Imwrite`.
  The bounding rectangles are the input, and the crop directory is a
  parameter.
- maxDimension: `src.Width / 1.4` is double arithmetic truncated to int, so
  the maximum size is a parameter of the model.
- `Path.Combine` and `Directory.GetCurrentDirectory`: the crop directory is a
  parameter, and paths are joined with "/" whatever the platform separator.
- Tesseract: engine set-up, image loading and the word iterator. Its words
  are the input.
- PageOcr: the `do … while` reads one word even from an empty page. The
  model's word sequence starts at the first word, so an empty page gives no
  words.
- Word confidences are reals. Single-precision rounding and NaN are not
  modelled. The `0.85f` threshold is the exact value of that float.
- PDF rendering and page-to-image conversion are not modelled:
  `ConvertPdfPageToImage`, PdfiumViewer and the DPI arithmetic.
- `ProcessPdf` bookkeeping is not modelled:
  - the processed-files log;
  - the skip of already-processed files;
  - opening and appending to the results file.
  Its lines are the output.
- `ProcessPdf` calls a six-argument `ExtractContours`. That overload, and
  `FixBoxAboveText`, are not part of this model. Each crop is given as the
  words OCR finds on it.
- Console output is not modelled: `AddFieldToDictionaryFromPattern` prints
  "No match found!" before storing "Not found".
- The regular-expression engine is not modelled:
  - matches for the two dictionary helpers are inputs, as group values;
  - `RegexOptions.Multiline` affects only which matches are found.
- AddListFieldFromPatternSpec: a .NET match's group count is the same for
  every match of a pattern, but the model lets it vary per match. The stated
  property is the one the source's per-match test implies.
- Dictionary values other than strings and lists of strings are opaque
  tokens.
- `CreatePatientRecord`, `AIChat`, `OpenAIProxy`, `ConsoleProgressBar`, the
  calibrator and the checkbox detection are outside the modelled core.
- SortedOrdersAgree: rectangles with equal (Y, X) but different sizes may
  trade places between two sortings, and so trade crop numbers. Which one
  gets which number depends on `List.Sort`'s order, so the model promises
  only the same multiset of crop rectangles and the same count.
- Strings are sequences of Unicode scalar values, not of UTF-16 code units:
  lone surrogates cannot be represented, and lengths count scalars, so a
  character outside the Basic Multilingual Plane has length 1 here and 2 in
  .NET.
- Integers are unbounded. Rectangle coordinates and sizes, and page numbers,
  are 32-bit in the source, but no arithmetic on them can overflow here.

## Findings

| source | as written | input that shows it | evidently intended | confidence | as-written member | corrected member |
|---|---|---|---|---|---|---|
| StringFiltering.cs:25 | `.Replace("\n{2,}", "\n").Replace("\r{2,}", "\r")` are plain `String.Replace` calls. They search for the literal five characters `\n{2,}` and `\r{2,}`, so runs of line feeds or carriage returns stay | "a\n\n\nb" is returned unchanged; "\r\n\r{2,}\n" becomes "\r\n\r\n", which a second call changes again | all three patterns applied as regular expressions, collapsing each run of CR LF, LF or CR to one | high (not executed) | StringFilter.RemoveRepeatingNewLinesLeavesLfRun | StringFilter.RemoveRepeatingNewLinesIntendedSpec |
