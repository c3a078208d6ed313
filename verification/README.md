# PDF and OCR-result utilities, modelled in Dafny

This project models the ordering, assembly and decomposition logic of three
small utilities for scanned financial documents:

- `combine_pdf.py`:
  - `collect_pdfs` turns file and directory arguments into a list of PDF files. It fails on a missing path and skips non-PDF files. It drops repeated paths, keeping the first, resolves them, and sorts them by a natural key, so `page_9` comes before `page_10`.
  - `merge_pdfs` concatenates the pages of those files into one output document. It refuses an empty list, and it refuses an existing output unless overwriting is allowed.
- `split_pdf.py`: `split_pdf` writes each page of a PDF to its own file, `<stem>_page_<n>.pdf` with `n` counting from 1, and returns the files in page order.
- `combine_ocr_json.py`:
  - `combine_ocr_json_files` orders the per-page OCR results (`*_res.json`) by the page number in their file names. It wraps each readable result in a record that says where it came from, and skips results that cannot be used.
  - `create_summary_report` counts, for each page, the parsing blocks, layout boxes and OCR polygons.

The file system is a map from path to entry. An entry is a PDF (a sequence of opaque pages), an unreadable file, or a directory that carries what the glob patterns yield for it. A JSON result is a small datatype. What `json.load` makes of a file (a value or an exception) and what `Path.resolve` makes of a path are function parameters.

Modules:

- `Seqs`: flattening, first index, no-duplicates.
- `Paths`: digits, `split`, and pathlib's name, suffix and stem.
- `Ordering`: strict total orders and the lexicographic order of Python lists and strings.
- `Sorting`: a stable sort by key, with permutation, sortedness and stability, and their uniqueness.
- `NaturalOrder`: the natural key.
- `NaturalOrderExamples`: concrete orderings.
- `Files`: the file system and the errors.
- `CombinePdf`, `SplitPdf` and `CombineOcrJson`: the three scripts.

The model follows the code as written; in particular:

- Duplicates are detected on the path as given, before `resolve()`. Two spellings of one file therefore both survive (`CombinePdf.RepeatsSurviveResolution`).
- The OCR page number of a file with no all-digit token is 0, not its position.
- `total_pages` is the number of files found, including files that then fail.
- The merge saves straight to the output path; there is no temporary file and rename.

## Model

| member | source | states |
|---|---|---|
| Paths.Split | combine_ocr_json.py:34 | `str.split` with a one-character separator: no part holds the separator, and joining the parts with it gives back the string |
| Paths.SplitJoinWith | combine_ocr_json.py:34 | splitting undoes joining when no part holds the separator |
| Paths.SplitConcat | combine_ocr_json.py:34 | splitting at one separator splits the two sides independently |
| Paths.Name | combine_ocr_json.py:33 | the base name holds no `/` and ends the path, and it is either the whole path or preceded by a `/`: what follows the last `/` |
| Paths.NameOfPlainPath | combine_ocr_json.py:33 | a path without `/`, such as `input1.pdf`, is its own name |
| Paths.NameOfJoin | split_pdf.py:50 | the name of `dir / name` is `name` |
| Paths.Stem | combine_pdf.py:69 | the stem followed by the suffix is the name; a non-empty suffix leaves a non-empty stem |
| Paths.Suffix | combine_pdf.py:49 | pathlib's suffix: empty, or a dot followed by at least one character and no further dot |
| Paths.PdfName | split_pdf.py:50 | `x.pdf` has stem `x` and a PDF suffix |
| Paths.NatToDigits | split_pdf.py:50 | `str(n)`: all digits, reads back as `n`, no leading zero |
| Paths.NatToDigitsInjective | split_pdf.py:50 | different numbers print differently |
| Paths.LeadingZeroValue | combine_pdf.py:70 | `int()` ignores leading zeros |
| Ordering.LexIsStrictTotal | combine_pdf.py:73 | Python's list and string `<` is a strict total order when the element order is |
| Ordering.LexCommonPrefix | combine_pdf.py:73 | a common prefix does not change how two lists compare |
| Sorting.SortByPermutes | combine_pdf.py:73 | `sorted` returns a permutation of its input |
| Sorting.SortBySorted | combine_pdf.py:73 | `sorted` returns a list non-decreasing by key |
| Sorting.SortByStable | combine_pdf.py:73 | `sorted` keeps the input order among elements with equal keys |
| Sorting.SortedStableIsUnique | combine_pdf.py:73 | any sorted, stable rearrangement of the input is the result of `sorted` |
| Sorting.SortBySortedIsIdentity | combine_pdf.py:73 | sorting an already sorted list changes nothing |
| Sorting.SortByKeyInjectiveOn | combine_pdf.py:73 | when no two different elements share a key, the result depends only on which elements are present, not on their order |
| Sorting.SortByInjectiveKey | combine_pdf.py:46 | with a one-to-one key, the result depends only on which elements are present, not on their order |
| NaturalOrder.DigitRuns | combine_pdf.py:69 | `re.split(r"(\d+)", stem)`: maximal digit runs at odd positions, digit-free text at even positions, an odd number of runs |
| NaturalOrder.DigitRunsRejoin | combine_pdf.py:69 | the runs joined together give back the stem |
| NaturalOrder.StemKey | combine_pdf.py:69-71 | the key alternates text and number, starting and ending with text |
| NaturalOrder.NaturalKeysCompare | combine_pdf.py:70-73 | comparing two keys never compares a number with a string, so Python's `<` never raises and agrees with the model's order |
| NaturalOrder.KeyLessIsStrictTotal | combine_pdf.py:73 | the natural-key order is a strict total order |
| NaturalOrder.NaturalSort | combine_pdf.py:73 | the sorted paths are a permutation of the input, non-decreasing by natural key, stable among equal keys |
| NaturalOrder.NumberSuffixOrder | combine_pdf.py:62-71 | two stems that differ only in a trailing number compare by that number's value, and tie exactly when the values are equal |
| NaturalOrder.StemKeyAppendDigits | combine_pdf.py:69-70 | appending digits to a stem appends their value and an empty text to its key |
| NaturalOrder.StemKeyIgnoresCase | combine_pdf.py:70 | the key of a lower-cased stem equals the key of the stem |
| NaturalOrderExamples.PageNumbersSortNumerically | combine_pdf.py:62-73 | `a_page_9`, `a_page_10`, `a_page_2` sort as 2, 9, 10 |
| NaturalOrderExamples.ZeroPaddedNumbersTie | combine_pdf.py:70 | `page_7` and `page_007` have the same key |
| CombinePdf.GlobSorted | combine_pdf.py:46 | `sorted(path.glob(...))`: a permutation of the matches, in path order |
| CombinePdf.GlobSortedIgnoresListingOrder | combine_pdf.py:46 | the order in which the file system lists a directory does not matter |
| CombinePdf.Gather | combine_pdf.py:39-52 | the loop succeeds exactly when every input exists; otherwise it fails on the first missing input |
| CombinePdf.GatherSkipped | combine_pdf.py:44-52 | an argument is skipped, with a warning, exactly when it is an existing non-directory file without a `.pdf` suffix in any case |
| CombinePdf.GatherCandidates | combine_pdf.py:40-52 | a path is a candidate exactly when some input brings it: a directory's glob match, or a file input with a `.pdf` suffix in any case |
| CombinePdf.GatherAppend | combine_pdf.py:40-52 | the candidates of two input lists are those of the first followed by those of the second |
| CombinePdf.GatherAppendSkipped | combine_pdf.py:40-52 | the skipped inputs of two input lists are those of the first followed by those of the second |
| CombinePdf.Dedupe | combine_pdf.py:54-60 | no repeats, the same elements as the input, ordered by first occurrence |
| CombinePdf.DedupeUnique | combine_pdf.py:54-60 | any repeat-free list with the input's elements ordered by first occurrence is the dedupe result |
| CombinePdf.DedupeIdempotent | combine_pdf.py:54-60 | deduplicating twice is deduplicating once |
| CombinePdf.FirstOccurrencesOfDistinct | combine_pdf.py:54-60 | a list without repeats passes dedupe unchanged |
| CombinePdf.UniqueWhenResolveInjective | combine_pdf.py:57-60 | when resolution is one-to-one, the resolved list has no repeats |
| CombinePdf.RepeatsSurviveResolution | combine_pdf.py:57-60 | two different spellings of one file both survive dedupe and resolve to the same path |
| CombinePdf.CollectPdfs | combine_pdf.py:26-73 | fails with FileNotFoundError on the first missing input and only then; otherwise returns the resolved, deduplicated candidates as a permutation, in natural order, stable among equal keys, with the skipped inputs |
| CombinePdf.OpenAll | combine_pdf.py:100-103 | every input opens to its pages, or the first input that cannot be opened is reported |
| CombinePdf.MergePdfs | combine_pdf.py:76-104 | ValueError on an empty list; FileExistsError on an existing output without overwrite; otherwise the output holds the inputs' pages concatenated in list order, and no other path changes |
| CombinePdf.FlattenPlacesPages | combine_pdf.py:100-103 | page `n` of input `i` sits in the output after all pages of the inputs before it |
| SplitPdf.PageFileNamesDistinct | split_pdf.py:50 | different page indices give different file names |
| SplitPdf.PageFiles | split_pdf.py:47-53 | one output path per page in the output directory, pairwise distinct, the i-th with name `<stem>_page_<i+1>.pdf` and a `.pdf` suffix |
| SplitPdf.WritePages | split_pdf.py:47-54 | each output file holds exactly its one page, and every other path is unchanged |
| SplitPdf.SplitPdf | split_pdf.py:31-57 | errors in order: missing source, non-`.pdf` suffix, unopenable file, zero pages; succeeds exactly when none of these applies; on success one file per page, in page order, distinct, each holding its source page, and no other path's entry changes |
| SplitPdf.SplitKeepsSource | split_pdf.py:47-54 | splitting never overwrites the source |
| SplitPdf.PageFilesOrdered | split_pdf.py:50 | the natural key of page file `i` is below that of page file `j` when `i < j` |
| SplitPdf.PageFilesInNaturalOrder | split_pdf.py:50 | the page file names, in page order, are already sorted by the natural key of combine_pdf.py, so sorting leaves them unchanged |
| SplitPdf.SplitFilesSortInPageOrder | split_pdf.py:47-57 | natural sorting the files returned by the split leaves them in page order |
| SplitPdf.PageFilesAnyOrder | combine_pdf.py:62-73 | natural sorting any arrangement of the page file paths gives them in page order |
| SplitPdf.SplitFilesAnyOrder | combine_pdf.py:62-73 | natural sorting any arrangement of the split output, such as path order, where `_page_10` precedes `_page_2`, restores page order |
| SplitPdf.SplitFilesArePdfs | split_pdf.py:47-57 | every returned file exists, has a `.pdf` suffix and holds exactly its one source page; the files are distinct |
| SplitPdf.GatherPdfFiles | combine_pdf.py:40-52 | arguments that are all existing `.pdf` files are gathered unchanged, in order, with none skipped |
| SplitPdf.CollectWrittenFiles | combine_pdf.py:26-73 | distinct `.pdf` files whose resolved paths are already in natural order are collected as exactly those resolved paths, in that order |
| SplitPdf.MergeWrittenPages | combine_pdf.py:88-104 | merging one-page files writes an output holding those pages in list order and changes nothing else |
| SplitPdf.CollectSplitFiles | combine_pdf.py:26-73 | collecting the files returned by `split_pdf`, with a name-preserving resolution, gives the resolved files in page order and skips nothing |
| SplitPdf.MergeSplitFiles | combine_pdf.py:76-104 | merging the files returned by `split_pdf`, in page order, reproduces the source document |
| SplitPdf.SplitCollectMergeRoundTrip | split_pdf.py:31-57 | splitting, then collecting the returned files with `collect_pdfs` and merging them with `merge_pdfs`, gives back the source document |
| CombineOcrJson.FirstNumber | combine_ocr_json.py:35-38 | the value of the first all-digit token, or 0 when there is none |
| CombineOcrJson.ExtractPageNumber | combine_ocr_json.py:30-40 | the value of the first all-digit `_`-token of the base name, or 0 when there is none |
| CombineOcrJson.TokensOfNumberedName | combine_ocr_json.py:34 | `<prefix>_<digits>_<rest>` splits into the prefix's tokens, the digits, and the rest's tokens |
| CombineOcrJson.PageNumberOfName | combine_ocr_json.py:30-40 | a page number written into a name after a digit-free prefix is read back |
| CombineOcrJson.PageNumberExample | combine_ocr_json.py:32 | `clean_data_combine_0_res.json` has page number 0, read from its `0` token |
| CombineOcrJson.NoPageNumberExample | combine_ocr_json.py:35-38 | `page10_res.json` has page number 0 |
| CombineOcrJson.SortByPageNumber | combine_ocr_json.py:42 | a permutation of the files, non-decreasing in page number, stable among equal numbers |
| CombineOcrJson.UsablePositions | combine_ocr_json.py:55-75 | the positions of the files that load and give an object, strictly increasing, never more than the files |
| CombineOcrJson.UsablePositionListed | combine_ocr_json.py:55-75 | every usable file's position is listed: no usable file is dropped |
| CombineOcrJson.UsablePositionsComplete | combine_ocr_json.py:55-75 | there are as many positions as files exactly when every file is usable |
| CombineOcrJson.RecordsAreUsableFiles | combine_ocr_json.py:55-75 | record `k` is built from the `k`-th usable file at its position in the sorted list, counting failed files |
| CombineOcrJson.CombineOcrJsonFiles | combine_ocr_json.py:25-75 | no output without files; `total_pages` is the number of files; the page count is at most that, and equal exactly when every file is usable |
| CombineOcrJson.CombinedPagesFollowSortedFiles | combine_ocr_json.py:55-75 | the records follow the sorted usable files: each has the file's base name and page number, the payload unchanged, and the payload's `page_index` and `input_path`, else the sorted position and `""` |
| CombineOcrJson.FailedFileStillCounted | combine_ocr_json.py:44-75 | one usable and one failing file give `total_pages` 2 but one page |
| CombineOcrJson.PageCounts | combine_ocr_json.py:115-124 | a page has counts exactly when none of its three lookups raises, and they are then the three lookups' lengths |
| CombineOcrJson.CountsDefaultToZero | combine_ocr_json.py:116-124 | a count whose key or parent key is absent is 0 |
| CombineOcrJson.CountsAreLengths | combine_ocr_json.py:116-124 | a present list is counted by its length |
| CombineOcrJson.SummaryReport | combine_ocr_json.py:112-130 | the report fails exactly when some page's counts raise; otherwise it has four lines per page |
| CombineOcrJson.SummaryReportLines | combine_ocr_json.py:112-125 | when the report does not fail, page `k` contributes its heading and its three counts at lines `4k` to `4k+3` |
| CombineOcrJson.MissingParsingListReportsZero | combine_ocr_json.py:112-117 | a page without `parsing_res_list` gets the line for 0 parsing blocks at `4k+1` |
| CombineOcrJson.RecordOcrDataIsObject | combine_ocr_json.py:63-69 | records hold objects, so the outer lookups of the summary never raise |

## Left out

- The PDF library (`fitz.open`, `insert_pdf`, `save`, `close`): a document is its sequence of opaque pages. A file that the library cannot open is the `Unreadable` entry. Resource release order is not modelled.
- Glob traversal, recursion depth and the case sensitivity of `*.pdf`: a directory entry carries the flat and the recursive glob results as given sequences.
- `Path.resolve()` and symlinks: resolution is a function parameter. The round-trip lemmas assume it keeps each file's name, or use the identity.
- `Path.exists()` on a directory passed to `merge_pdfs` or `split_pdf`: directories there are treated like any existing entry.
- Save failures in `merge_pdfs` and `split_pdf`: writes always succeed in the model.
- SplitPdf.SplitPdf: `output_dir.mkdir(parents=True, exist_ok=True)` is not modelled. The output directory and its parents are not added to the file system, and the glob results of an existing directory entry do not gain the page files written into it. The clause that no other path's entry changes is a statement about the model, not about a real file system, where those directories appear. Splitting into a directory and then collecting that directory is therefore outside the model; the round-trip lemmas collect the returned file list instead.
- Paths are strings split on `/`. PurePath ordering is the lexicographic order of the `/`-separated components; `.` and `..` components and drive letters are not normalised.
- Digits are ASCII `0`..`9`. Unicode digits, which `\d` and `str.isdigit` also accept, are not modelled. Lower-casing affects ASCII letters only.
- NaturalOrder.PartLess: a number against a text, which raises TypeError in Python, gets a fixed answer. `NaturalOrder.NaturalKeysCompare` shows that two natural keys never reach that case.
- JSON decoding: what `json.load` makes of each file is a parameter, `Parsed(value)` or `Failed`. JSON numbers are integers; floats are not modelled.
- The glob for `*_res.json` in `combine_ocr_json_files`: the files found are a parameter.
- Writing the combined file, the `datetime.now()` timestamp, the file-size printout, and all logging and printing.
- Reading the combined file back in `create_summary_report`: the report works on the records directly. The header lines and the text layout of the report are not modelled; a report line records only which count it shows and its value.
- `main.py`, argparse, `sys.exit` and the command-line entry points.
