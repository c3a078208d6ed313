/** combine_ocr_json.py: gather the per-page OCR results (`*_res.json`),
    order them by the page number in their file names, wrap each in a record
    that says where it came from, and count what each page holds. */
module CombineOcrJson {
  import opened Seqs
  import opened Paths
  import opened Ordering
  import opened Sorting

  /** A JSON value. Numbers are integers here; floats are not modelled. */
  datatype Json =
    | Null
    | Bool(b: bool)
    | Number(n: int)
    | Str(s: string)
    | Arr(items: seq<Json>)
    | Obj(fields: map<string, Json>)

  /** What `json.load` makes of one file: a value, or an exception (the file
      cannot be read or is not JSON). */
  datatype Loaded = Parsed(value: Json) | Failed

  datatype Option<T> = Some(value: T) | None

  // ---------------------------------------------------------------- page numbers

  /** Token `i` is the first one made only of digits. */
  predicate FirstNumberToken(tokens: seq<string>, i: nat) {
    i < |tokens| && IsAllDigits(tokens[i]) && forall j | 0 <= j < i :: !IsAllDigits(tokens[j])
  }

  /** No token is made only of digits. */
  predicate NoNumberToken(tokens: seq<string>) {
    forall i | 0 <= i < |tokens| :: !IsAllDigits(tokens[i])
  }

  /** The value of the first token made only of digits, or 0 if none is. */
  function FirstNumber(tokens: seq<string>): (n: nat)
    ensures NoNumberToken(tokens) ==> n == 0
    ensures forall i: nat | FirstNumberToken(tokens, i) :: n == DigitsValue(tokens[i])
    decreases |tokens|
  {
    if |tokens| == 0 then 0
    else if IsAllDigits(tokens[0]) then DigitsValue(tokens[0])
    else
      var rest := tokens[1..];
      assert forall j | 0 <= j < |rest| :: rest[j] == tokens[j + 1];
      assert forall i: nat | FirstNumberToken(tokens, i) :: i > 0 && FirstNumberToken(rest, i - 1);
      FirstNumber(rest)
  }

  /** `extract_page_number(filename)`: the first `_`-separated token of the
      base name that is all digits, as an integer; 0 when there is none. */
  function ExtractPageNumber(filename: Path): (n: nat)
    ensures NoNumberToken(Split(Name(filename), '_')) ==> n == 0
    ensures forall i: nat | FirstNumberToken(Split(Name(filename), '_'), i) ::
      n == DigitsValue(Split(Name(filename), '_')[i])
  {
    FirstNumber(Split(Name(filename), '_'))
  }

  /** A token of a text without digits is never all digits. */
  lemma TokensOfDigitFreeText(prefix: string)
    requires NoDigits(prefix)
    ensures NoNumberToken(Split(prefix, '_'))
  {
    var parts := Split(prefix, '_');
    forall i | 0 <= i < |parts| ensures !IsAllDigits(parts[i]) {
      if |parts[i]| > 0 {
        JoinWithContains(parts, '_', i, 0);
      }
    }
  }

  /** The name `<prefix>_<digits>_<rest>` splits into the prefix's tokens,
      the digits, and the rest's tokens. */
  lemma TokensOfNumberedName(prefix: string, d: string, rest: string)
    requires IsAllDigits(d)
    ensures Split(prefix + "_" + d + "_" + rest, '_') == Split(prefix, '_') + [d] + Split(rest, '_')
  {
    NumberedNameShape(prefix, d, rest);
    DigitsHoldNoSeparator(d, '_');
    SplitAroundPart(prefix, d, rest, '_');
  }

  lemma NumberedNameShape(prefix: string, d: string, rest: string)
    ensures prefix + "_" + d + "_" + rest == prefix + ['_'] + (d + ['_'] + rest)
  {
  }

  lemma DigitsHoldNoSeparator(d: string, sep: char)
    requires IsAllDigits(d) && sep == '_'
    ensures sep !in d
  {
    forall k | 0 <= k < |d| ensures d[k] != sep { assert IsDigit(d[k]); }
  }

  lemma NumberedNameHasNoSlash(prefix: string, d: string, rest: string)
    requires IsAllDigits(d) && '/' !in prefix && '/' !in rest
    ensures '/' !in prefix + "_" + d + "_" + rest
  {
    var name := prefix + "_" + d + "_" + rest;
    forall k | 0 <= k < |name| ensures name[k] != '/' {
      if k < |prefix| {
        assert name[k] == prefix[k];
      } else if |prefix| < k <= |prefix| + |d| {
        assert name[k] == d[k - |prefix| - 1];
        assert IsDigit(d[k - |prefix| - 1]);
      } else if k > |prefix| + |d| + 1 {
        assert name[k] == rest[k - |prefix| - |d| - 2];
      }
    }
  }

  /** A file named `<prefix>_<n>_<rest>`, with no digit in the prefix, has
      page number `n`: the number written into a name is read back. */
  lemma PageNumberOfName(dir: Path, prefix: string, n: nat, rest: string)
    requires NoDigits(prefix) && '/' !in prefix && '/' !in rest
    ensures ExtractPageNumber(Join(dir, prefix + "_" + NatToDigits(n) + "_" + rest)) == n
  {
    var d := NatToDigits(n);
    var name := prefix + "_" + d + "_" + rest;
    NumberedNameHasNoSlash(prefix, d, rest);
    NameOfJoin(dir, name);
    TokensOfNumberedName(prefix, d, rest);
    TokensOfDigitFreeText(prefix);
    var pre := Split(prefix, '_');
    NumberAfterText(pre, d, Split(rest, '_'));
  }

  /** A number token that follows only non-number tokens is the first number token. */
  lemma NumberAfterText(pre: seq<string>, d: string, post: seq<string>)
    requires NoNumberToken(pre) && IsAllDigits(d)
    ensures FirstNumberToken(pre + [d] + post, |pre|)
  {
    var tokens := pre + [d] + post;
    assert tokens[|pre|] == d;
    assert forall j | 0 <= j < |pre| :: tokens[j] == pre[j];
  }

  /** The file name the code's own comment gives, `clean_data_combine_0_res.json`,
      has page number 0, read from its `0` token. */
  lemma PageNumberExample(dir: Path)
    ensures ExtractPageNumber(Join(dir, "clean_data_combine_0_res.json")) == 0
  {
    var prefix, rest, d := "clean_data_combine", "res.json", "0";
    ExampleNameParts(prefix, rest, d);
    PageNumberOfName(dir, prefix, 0, rest);
  }

  lemma ExampleNameParts(prefix: string, rest: string, d: string)
    requires prefix == "clean_data_combine" && rest == "res.json" && d == "0"
    ensures NoDigits(prefix) && '/' !in prefix && '/' !in rest
    ensures NatToDigits(0) == d
    ensures prefix + "_" + d + "_" + rest == "clean_data_combine_0_res.json"
  {
  }

  /** `page10_res.json` has page number 0: `page10` is not all digits, so no
      token is a number. */
  lemma NoPageNumberExample(dir: Path)
    ensures ExtractPageNumber(Join(dir, "page10_res.json")) == 0
  {
    var a, b := "page10", "res.json";
    UnnumberedNameParts(a, b);
    NameOfJoin(dir, a + ['_'] + b);
    TwoTokens(a, b);
    assert NoNumberToken([a, b]);
  }

  lemma UnnumberedNameParts(a: string, b: string)
    requires a == "page10" && b == "res.json"
    ensures '_' !in a && '_' !in b && '/' !in a + ['_'] + b
    ensures !IsDigit(a[0]) && !IsDigit(b[0])
    ensures a + ['_'] + b == "page10_res.json"
  {
  }

  /** A name with one `_` splits into the two sides. */
  lemma TwoTokens(a: string, b: string)
    requires '_' !in a && '_' !in b
    ensures Split(a + ['_'] + b, '_') == [a, b]
  {
    SplitConcat(a, b, '_');
  }

  // ---------------------------------------------------------------- order

  /** `json_files.sort(key=extract_page_number)`: a permutation of the files,
      non-decreasing in page number, files with the same number in the
      order they were found. */
  function SortByPageNumber(files: seq<Path>): (r: seq<Path>)
    ensures multiset(r) == multiset(files)
    ensures forall i, j | 0 <= i < j < |r| :: ExtractPageNumber(r[i]) <= ExtractPageNumber(r[j])
    ensures StableFor(r, files, ExtractPageNumber)
  {
    NatLessIsStrictTotal();
    SortByPermutes(files, ExtractPageNumber, NatLess);
    SortBySorted(files, ExtractPageNumber, NatLess);
    SortByStable(files, ExtractPageNumber, NatLess);
    SortBy(files, ExtractPageNumber, NatLess)
  }

  // ---------------------------------------------------------------- records

  /** The record kept for one page, with where it came from. */
  datatype PageRecord = PageRecord(
    sourceFile: string,
    pageNumber: nat,
    pageIndex: Json,
    inputPath: Json,
    ocrData: Json)

  /** `fields.get(key, default)` on a JSON object. */
  function Get(fields: map<string, Json>, key: string, default: Json): Json {
    if key in fields then fields[key] else default
  }

  /** The record for the file at position `i` of the sorted list, whose
      payload is the object `fields`. */
  function MakeRecord(file: Path, i: nat, fields: map<string, Json>): (r: PageRecord)
    ensures r.ocrData == Obj(fields)
    ensures r.pageIndex == Get(r.ocrData.fields, "page_index", Number(i))
    ensures r.inputPath == Get(r.ocrData.fields, "input_path", Str(""))
  {
    PageRecord(Name(file), ExtractPageNumber(file), Get(fields, "page_index", Number(i)),
               Get(fields, "input_path", Str("")), Obj(fields))
  }

  /** A file yields a record when it parses to an object: any other value
      makes `.get` raise, and the file is skipped like an unreadable one. */
  predicate Usable(l: Loaded) {
    l.Parsed? && l.value.Obj?
  }

  /** The loop of `combine_ocr_json_files` from position `i` of the sorted
      files on: one record per usable file, the others skipped. */
  function RecordsFrom(files: seq<Path>, load: Path -> Loaded, i: nat): (pages: seq<PageRecord>)
    requires i <= |files|
    decreases |files| - i
  {
    if i == |files| then []
    else
      var l := load(files[i]);
      var rest := RecordsFrom(files, load, i + 1);
      if Usable(l) then [MakeRecord(files[i], i, l.value.fields)] + rest else rest
  }

  /** The positions at or after `i` of the files that yield a record, in
      increasing order; there are at most as many as files
      (`UsablePositionsComplete` shows that every usable file is there). */
  function UsablePositions(files: seq<Path>, load: Path -> Loaded, i: nat): (idx: seq<nat>)
    requires i <= |files|
    ensures forall k | 0 <= k < |idx| :: i <= idx[k] < |files| && Usable(load(files[idx[k]]))
    ensures forall k, m | 0 <= k < m < |idx| :: idx[k] < idx[m]
    ensures |idx| <= |files| - i
    decreases |files| - i
  {
    if i == |files| then []
    else
      var rest := UsablePositions(files, load, i + 1);
      if Usable(load(files[i])) then [i] + rest else rest
  }

  /** Every usable file at or after `i` has its position listed. */
  lemma {:induction false} UsablePositionListed(files: seq<Path>, load: Path -> Loaded, i: nat, j: nat)
    requires i <= j < |files| && Usable(load(files[j]))
    ensures j in UsablePositions(files, load, i)
    decreases j - i
  {
    PositionsStep(files, load, i);
    if j > i {
      UsablePositionListed(files, load, i + 1, j);
    }
  }

  /** There are as many positions as files exactly when every file is usable. */
  lemma {:induction false} UsablePositionsComplete(files: seq<Path>, load: Path -> Loaded, i: nat)
    requires i <= |files|
    ensures |UsablePositions(files, load, i)| == |files| - i <==>
      forall j | i <= j < |files| :: Usable(load(files[j]))
    decreases |files| - i
  {
    if i < |files| {
      UsablePositionsComplete(files, load, i + 1);
      PositionsStep(files, load, i);
      if !Usable(load(files[i])) {
        assert |UsablePositions(files, load, i)| < |files| - i;
      }
    }
  }

  /** One step of the position list: a usable file's position goes in front. */
  lemma PositionsStep(files: seq<Path>, load: Path -> Loaded, i: nat)
    requires i < |files|
    ensures UsablePositions(files, load, i)
         == (if Usable(load(files[i])) then [i] else []) + UsablePositions(files, load, i + 1)
  {
  }

  /** Record `k` is built from the file at position `idx[k]`, which is usable. */
  predicate RecordsMatch(files: seq<Path>, load: Path -> Loaded, pages: seq<PageRecord>, idx: seq<nat>) {
    && |pages| == |idx|
    && forall k | 0 <= k < |idx| ::
         && idx[k] < |files|
         && Usable(load(files[idx[k]]))
         && pages[k] == MakeRecord(files[idx[k]], idx[k], load(files[idx[k]]).value.fields)
  }

  /** The records are those of the usable files, in sorted order: record `k`
      is built from the `k`-th usable file, at its position in the sorted list. */
  lemma {:induction false} RecordsAreUsableFiles(files: seq<Path>, load: Path -> Loaded, i: nat)
    requires i <= |files|
    ensures RecordsMatch(files, load, RecordsFrom(files, load, i), UsablePositions(files, load, i))
    decreases |files| - i
  {
    if i < |files| {
      RecordsAreUsableFiles(files, load, i + 1);
      RecordsMatchStep(files, load, i);
    }
  }

  lemma RecordsMatchStep(files: seq<Path>, load: Path -> Loaded, i: nat)
    requires i < |files|
    requires RecordsMatch(files, load, RecordsFrom(files, load, i + 1), UsablePositions(files, load, i + 1))
    ensures RecordsMatch(files, load, RecordsFrom(files, load, i), UsablePositions(files, load, i))
  {
    if Usable(load(files[i])) {
      RecordsStep(files, load, i);
      RecordsMatchCons(files, load, i, RecordsFrom(files, load, i + 1), UsablePositions(files, load, i + 1));
    } else {
      RecordsSkip(files, load, i);
    }
  }

  /** One step of the loop over a file that cannot be used: nothing is added. */
  lemma RecordsSkip(files: seq<Path>, load: Path -> Loaded, i: nat)
    requires i < |files| && !Usable(load(files[i]))
    ensures RecordsFrom(files, load, i) == RecordsFrom(files, load, i + 1)
    ensures UsablePositions(files, load, i) == UsablePositions(files, load, i + 1)
  {
  }

  lemma RecordsMatchCons(files: seq<Path>, load: Path -> Loaded, i: nat, pages: seq<PageRecord>, idx: seq<nat>)
    requires i < |files| && Usable(load(files[i]))
    requires RecordsMatch(files, load, pages, idx)
    ensures RecordsMatch(files, load, [MakeRecord(files[i], i, load(files[i]).value.fields)] + pages, [i] + idx)
  {
    var pages', idx' := [MakeRecord(files[i], i, load(files[i]).value.fields)] + pages, [i] + idx;
    forall k | 0 < k < |idx'| ensures pages'[k] == pages[k - 1] && idx'[k] == idx[k - 1] {
    }
  }

  /** One step of the loop over a usable file: its record and position go in
      front of those of the files after it. */
  lemma RecordsStep(files: seq<Path>, load: Path -> Loaded, i: nat)
    requires i < |files| && Usable(load(files[i]))
    ensures var pages, idx := RecordsFrom(files, load, i), UsablePositions(files, load, i);
      var pages', idx' := RecordsFrom(files, load, i + 1), UsablePositions(files, load, i + 1);
      && pages == [MakeRecord(files[i], i, load(files[i]).value.fields)] + pages'
      && idx == [i] + idx'
  {
  }

  /** What `combine_ocr_json_files` writes out, or that it found nothing. */
  datatype Combined =
    | NoFiles
    | Combined(totalPages: nat, sourceDirectory: string, pages: seq<PageRecord>)

  /** `combine_ocr_json_files(input_dir)`, with the glob result `found` and
      `json.load` as `load`. With no file it returns before writing anything.
      Otherwise `total_pages` is the number of files found, fixed before any
      is read, and `pages` holds the records of the files that could be used. */
  function CombineOcrJsonFiles(inputDir: string, found: seq<Path>, load: Path -> Loaded): (r: Combined)
    ensures |found| == 0 <==> r.NoFiles?
    ensures r.Combined? ==> r.totalPages == |found| && r.sourceDirectory == inputDir
    ensures r.Combined? ==> |r.pages| <= r.totalPages
    ensures r.Combined? ==> (|r.pages| == r.totalPages <==> forall f | f in found :: Usable(load(f)))
  {
    if |found| == 0 then NoFiles
    else
      var files := SortByPageNumber(found);
      RecordsAreUsableFiles(files, load, 0);
      UsablePositionsComplete(files, load, 0);
      assert forall f :: f in found <==> f in files by {
        assert forall f :: f in found <==> f in multiset(found);
        assert forall f :: f in files <==> f in multiset(files);
      }
      Combined(|found|, inputDir, RecordsFrom(files, load, 0))
  }

  /** Every record comes from a usable file, and every usable file gives one,
      in the sorted order: the records follow the sorted files, skipping
      those that failed. */
  lemma CombinedPagesFollowSortedFiles(inputDir: string, found: seq<Path>, load: Path -> Loaded)
    requires |found| > 0
    ensures var files, idx := SortByPageNumber(found), UsablePositions(SortByPageNumber(found), load, 0);
      var pages := CombineOcrJsonFiles(inputDir, found, load).pages;
      && |pages| == |idx|
      && forall k | 0 <= k < |idx| ::
           && pages[k].sourceFile == Name(files[idx[k]])
           && pages[k].pageNumber == ExtractPageNumber(files[idx[k]])
           && pages[k].ocrData == load(files[idx[k]]).value
           && pages[k].pageIndex == Get(load(files[idx[k]]).value.fields, "page_index", Number(idx[k]))
           && pages[k].inputPath == Get(load(files[idx[k]]).value.fields, "input_path", Str(""))
  {
    RecordsAreUsableFiles(SortByPageNumber(found), load, 0);
  }

  /** A file that fails still counts toward `total_pages`: with one usable and
      one failing file the total is 2 but only one page is kept. */
  lemma FailedFileStillCounted(inputDir: string, good: Path, bad: Path, load: Path -> Loaded)
    requires Usable(load(good)) && load(bad) == Failed
    ensures var r := CombineOcrJsonFiles(inputDir, [good, bad], load);
      r.totalPages == 2 && |r.pages| == 1
  {
    var found := [good, bad];
    var r := CombineOcrJsonFiles(inputDir, found, load);
    assert bad in found && !Usable(load(bad));
    var files := SortByPageNumber(found);
    RecordsAreUsableFiles(files, load, 0);
    assert good in multiset(files);
    var g :| 0 <= g < |files| && files[g] == good;
    UsablePositionListed(files, load, 0, g);
  }

  // ---------------------------------------------------------------- summary

  /** `len(v)`: the length of a list or string or the size of an object;
      any other value raises `TypeError`. */
  function Len(v: Json): Option<nat> {
    match v
    case Arr(items) => Some(|items|)
    case Str(s) => Some(|s|)
    case Obj(fields) => Some(|fields|)
    case _ => None
  }

  /** `v.get(key, default)`: defined on objects; any other value raises
      `AttributeError`. */
  function GetOr(v: Json, key: string, default: Json): Option<Json> {
    if v.Obj? then Some(Get(v.fields, key, default)) else None
  }

  /** `len(ocr.get(key, []))`. */
  function CountOf(ocr: Json, key: string): Option<nat> {
    var v := GetOr(ocr, key, Arr([]));
    if v.None? then None else Len(v.value)
  }

  /** `len(ocr.get(outer, {}).get(inner, []))`. */
  function NestedCountOf(ocr: Json, outer: string, inner: string): Option<nat> {
    var o := GetOr(ocr, outer, Obj(map[]));
    if o.None? then None else CountOf(o.value, inner)
  }

  /** The three counts the summary reports for a page. */
  datatype Counts = Counts(parsingBlocks: nat, layoutBoxes: nat, ocrPolygons: nat)

  function ParsingCount(ocr: Json): Option<nat> {
    CountOf(ocr, "parsing_res_list")
  }

  function LayoutCount(ocr: Json): Option<nat> {
    NestedCountOf(ocr, "layout_det_res", "boxes")
  }

  function OcrCount(ocr: Json): Option<nat> {
    NestedCountOf(ocr, "overall_ocr_res", "dt_polys")
  }

  /** The counts of a page, when none of the three lookups raises. */
  function PageCounts(ocr: Json): (r: Option<Counts>)
    ensures r.Some? <==> ParsingCount(ocr).Some? && LayoutCount(ocr).Some? && OcrCount(ocr).Some?
    ensures r.Some? ==>
      r.value == Counts(ParsingCount(ocr).value, LayoutCount(ocr).value, OcrCount(ocr).value)
  {
    var p, l, o := ParsingCount(ocr), LayoutCount(ocr), OcrCount(ocr);
    if p.Some? && l.Some? && o.Some? then Some(Counts(p.value, l.value, o.value)) else None
  }

  /** A count whose key, or whose parent key, is absent is 0. */
  lemma CountsDefaultToZero(fields: map<string, Json>)
    ensures "parsing_res_list" !in fields ==> ParsingCount(Obj(fields)) == Some(0)
    ensures "layout_det_res" !in fields ==> LayoutCount(Obj(fields)) == Some(0)
    ensures "overall_ocr_res" !in fields ==> OcrCount(Obj(fields)) == Some(0)
    ensures ("layout_det_res" in fields && fields["layout_det_res"].Obj? &&
             "boxes" !in fields["layout_det_res"].fields) ==> LayoutCount(Obj(fields)) == Some(0)
    ensures ("overall_ocr_res" in fields && fields["overall_ocr_res"].Obj? &&
             "dt_polys" !in fields["overall_ocr_res"].fields) ==> OcrCount(Obj(fields)) == Some(0)
  {
  }

  /** Present lists are counted by their length. */
  lemma CountsAreLengths(fields: map<string, Json>, xs: seq<Json>)
    ensures ("parsing_res_list" in fields && fields["parsing_res_list"] == Arr(xs)) ==>
      ParsingCount(Obj(fields)) == Some(|xs|)
    ensures ("layout_det_res" in fields && fields["layout_det_res"].Obj? &&
             "boxes" in fields["layout_det_res"].fields &&
             fields["layout_det_res"].fields["boxes"] == Arr(xs)) ==>
      LayoutCount(Obj(fields)) == Some(|xs|)
    ensures ("overall_ocr_res" in fields && fields["overall_ocr_res"].Obj? &&
             "dt_polys" in fields["overall_ocr_res"].fields &&
             fields["overall_ocr_res"].fields["dt_polys"] == Arr(xs)) ==>
      OcrCount(Obj(fields)) == Some(|xs|)
  {
  }

  /** One entry of the summary report, without its text layout. */
  datatype ReportLine =
    | PageLine(pageNumber: nat, sourceFile: string)
    | ParsingLine(count: nat)
    | LayoutLine(count: nat)
    | OcrLine(count: nat)

  /** The lines written, and whether an exception cut the report short. */
  datatype Report = Report(lines: seq<ReportLine>, failed: bool)

  /** The lines for one page: its heading, then each count as soon as it is
      computed; the first count that raises stops the page. */
  function PageReport(page: PageRecord): Report {
    var head := [PageLine(page.pageNumber, page.sourceFile)];
    var p := ParsingCount(page.ocrData);
    if p.None? then Report(head, true)
    else
      var l := LayoutCount(page.ocrData);
      if l.None? then Report(head + [ParsingLine(p.value)], true)
      else
        var o := OcrCount(page.ocrData);
        if o.None? then Report(head + [ParsingLine(p.value), LayoutLine(l.value)], true)
        else Report(head + [ParsingLine(p.value), LayoutLine(l.value), OcrLine(o.value)], false)
  }

  /** The page loop of `create_summary_report`. An exception in any page ends
      the whole report, keeping what was already written. */
  function SummaryReport(pages: seq<PageRecord>): (r: Report)
    ensures r.failed <==> exists k | 0 <= k < |pages| :: PageCounts(pages[k].ocrData).None?
    ensures !r.failed ==> |r.lines| == 4 * |pages|
    decreases |pages|
  {
    if |pages| == 0 then Report([], false)
    else
      var first := PageReport(pages[0]);
      if first.failed then first
      else
        var rest := SummaryReport(pages[1..]);
        assert forall k | 0 <= k < |pages| - 1 :: pages[1..][k] == pages[k + 1];
        Report(first.lines + rest.lines, rest.failed)
  }

  /** Lines `4k` to `4k + 3` are the heading of `page` and its three counts. */
  predicate PageLinesAt(lines: seq<ReportLine>, k: nat, page: PageRecord) {
    && 4 * k + 4 <= |lines|
    && PageCounts(page.ocrData).Some?
    && var c := PageCounts(page.ocrData).value;
       && lines[4 * k] == PageLine(page.pageNumber, page.sourceFile)
       && lines[4 * k + 1] == ParsingLine(c.parsingBlocks)
       && lines[4 * k + 2] == LayoutLine(c.layoutBoxes)
       && lines[4 * k + 3] == OcrLine(c.ocrPolygons)
  }

  /** When no lookup raises, page `k` of the report is its heading followed
      by its three counts. */
  lemma {:induction false} SummaryReportLines(pages: seq<PageRecord>, k: nat)
    requires !SummaryReport(pages).failed && k < |pages|
    ensures PageLinesAt(SummaryReport(pages).lines, k, pages[k])
    decreases k
  {
    SummaryStep(pages);
    var first, rest := PageReport(pages[0]).lines, SummaryReport(pages[1..]).lines;
    if k == 0 {
      PageReportLines(pages[0]);
      PageLinesPrefix(first, rest, pages[0]);
    } else {
      assert pages[1..][k - 1] == pages[k];
      SummaryReportLines(pages[1..], k - 1);
      PageLinesShift(first, rest, k, pages[k]);
    }
  }

  /** A page without `parsing_res_list` reports 0 parsing blocks, and its
      line in the report says so. */
  lemma MissingParsingListReportsZero(pages: seq<PageRecord>, k: nat)
    requires !SummaryReport(pages).failed && k < |pages|
    requires pages[k].ocrData.Obj? && "parsing_res_list" !in pages[k].ocrData.fields
    ensures 4 * k + 1 < |SummaryReport(pages).lines|
    ensures SummaryReport(pages).lines[4 * k + 1] == ParsingLine(0)
  {
    SummaryReportLines(pages, k);
    CountsDefaultToZero(pages[k].ocrData.fields);
  }

  /** A report that did not fail is the first page's lines, then the rest's. */
  lemma SummaryStep(pages: seq<PageRecord>)
    requires |pages| > 0 && !SummaryReport(pages).failed
    ensures !PageReport(pages[0]).failed && !SummaryReport(pages[1..]).failed
    ensures |PageReport(pages[0]).lines| == 4
    ensures SummaryReport(pages).lines == PageReport(pages[0]).lines + SummaryReport(pages[1..]).lines
  {
  }

  /** A page whose lookups all succeed gets its heading and its three counts. */
  lemma PageReportLines(page: PageRecord)
    requires !PageReport(page).failed
    ensures PageLinesAt(PageReport(page).lines, 0, page)
  {
  }

  lemma PageLinesPrefix(first: seq<ReportLine>, rest: seq<ReportLine>, page: PageRecord)
    requires PageLinesAt(first, 0, page)
    ensures PageLinesAt(first + rest, 0, page)
  {
  }

  lemma PageLinesShift(first: seq<ReportLine>, rest: seq<ReportLine>, k: nat, page: PageRecord)
    requires |first| == 4 && k > 0 && PageLinesAt(rest, k - 1, page)
    ensures PageLinesAt(first + rest, k, page)
  {
  }

  /** The records of `combine_ocr_json_files` hold objects, so the outer
      lookups of the summary never raise: a page fails only on a nested value
      that is not an object or a count of something without a length. */
  lemma RecordOcrDataIsObject(file: Path, i: nat, fields: map<string, Json>)
    ensures GetOr(MakeRecord(file, i, fields).ocrData, "parsing_res_list", Arr([])).Some?
    ensures GetOr(MakeRecord(file, i, fields).ocrData, "layout_det_res", Obj(map[])).Some?
    ensures GetOr(MakeRecord(file, i, fields).ocrData, "overall_ocr_res", Obj(map[])).Some?
  {
  }
}
