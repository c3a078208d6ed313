/** split_pdf.py: write each page of a PDF to its own file named
    `<stem>_page_<n>.pdf`, with `n` counted from 1. */
module SplitPdf {
  import opened Seqs
  import opened Paths
  import opened Ordering
  import opened Sorting
  import opened NaturalOrder
  import opened Files
  import opened CombinePdf

  /** The name of the file that receives page `i`, counted from 0. */
  function PageFileName(stem: string, i: nat): string {
    stem + "_page_" + NatToDigits(i + 1) + ".pdf"
  }

  /** Different pages get different names. */
  lemma PageFileNamesDistinct(stem: string, i: nat, j: nat)
    requires PageFileName(stem, i) == PageFileName(stem, j)
    ensures i == j
  {
    var a := stem + "_page_";
    var di, dj := NatToDigits(i + 1), NatToDigits(j + 1);
    assert PageFileName(stem, i) == a + (di + ".pdf");
    assert PageFileName(stem, j) == a + (dj + ".pdf");
    assert di + ".pdf" == PageFileName(stem, i)[|a|..];
    assert dj + ".pdf" == PageFileName(stem, j)[|a|..];
    assert |di| == |dj|;
    assert di == (di + ".pdf")[..|di|];
    assert dj == (dj + ".pdf")[..|dj|];
  }

  /** The stem of a path holds no `/`. */
  lemma StemHasNoSlash(p: Path)
    ensures '/' !in Stem(p)
  {
    var st, name := Stem(p), Name(p);
    forall k | 0 <= k < |st| ensures st[k] != '/' {
      assert st[k] == (st + Suffix(p))[k];
      assert name[k] in name;
    }
  }

  /** A page file name holds no `/` when the stem holds none. */
  lemma PageFileNameHasNoSlash(stem: string, i: nat)
    requires '/' !in stem
    ensures '/' !in PageFileName(stem, i)
  {
    var d := NatToDigits(i + 1);
    var n := PageFileName(stem, i);
    forall k | 0 <= k < |n| ensures n[k] != '/' {
      if k < |stem| {
        assert n[k] == stem[k];
      } else if |stem| + 6 <= k < |stem| + 6 + |d| {
        assert n[k] == d[k - |stem| - 6];
        assert IsDigit(d[k - |stem| - 6]);
      }
    }
  }

  /** The output paths, one per page, in page order: pairwise distinct, and
      each named after its page with a `.pdf` suffix. */
  function PageFiles(source: Path, outputDir: Path, count: nat): (files: seq<Path>)
    ensures |files| == count
    ensures forall i | 0 <= i < count :: files[i] == Join(outputDir, PageFileName(Stem(source), i))
    ensures NoDup(files)
    ensures forall i | 0 <= i < count ::
      Name(files[i]) == PageFileName(Stem(source), i) && HasPdfSuffix(files[i])
  {
    var files := seq(count, i requires 0 <= i < count => Join(outputDir, PageFileName(Stem(source), i)));
    assert NoDup(files) by {
      forall i, j | 0 <= i < j < count ensures files[i] != files[j] {
        PagePathsDistinct(source, outputDir, i, j);
      }
    }
    assert forall i | 0 <= i < count ::
      Name(files[i]) == PageFileName(Stem(source), i) && HasPdfSuffix(files[i]) by {
      forall i | 0 <= i < count
        ensures Name(files[i]) == PageFileName(Stem(source), i) && HasPdfSuffix(files[i])
      {
        PagePathIsPdf(source, outputDir, i);
      }
    }
    files
  }

  /** Different pages go to different paths. */
  lemma PagePathsDistinct(source: Path, outputDir: Path, i: nat, j: nat)
    requires i != j
    ensures Join(outputDir, PageFileName(Stem(source), i)) != Join(outputDir, PageFileName(Stem(source), j))
  {
    var ni, nj := PageFileName(Stem(source), i), PageFileName(Stem(source), j);
    StemHasNoSlash(source);
    PageFileNameHasNoSlash(Stem(source), i);
    PageFileNameHasNoSlash(Stem(source), j);
    NameOfJoin(outputDir, ni);
    NameOfJoin(outputDir, nj);
    if Join(outputDir, ni) == Join(outputDir, nj) {
      PageFileNamesDistinct(Stem(source), i, j);
    }
  }

  /** The path of page `i` is named after it and has a `.pdf` suffix. */
  lemma PagePathIsPdf(source: Path, outputDir: Path, i: nat)
    ensures Name(Join(outputDir, PageFileName(Stem(source), i))) == PageFileName(Stem(source), i)
    ensures HasPdfSuffix(Join(outputDir, PageFileName(Stem(source), i)))
  {
    StemHasNoSlash(source);
    PageFileNameHasNoSlash(Stem(source), i);
    NameOfJoin(outputDir, PageFileName(Stem(source), i));
    PageFileIsPdf(outputDir, Stem(source), i);
  }

  /** Saves page `i` as a one-page document at `files[i]`, in order. */
  function WritePages(fs: FileSystem, files: seq<Path>, pages: seq<Page>): (r: FileSystem)
    requires |files| == |pages| && NoDup(files)
    ensures forall i | 0 <= i < |files| :: files[i] in r && r[files[i]] == Pdf([pages[i]])
    ensures forall q | q !in files :: (q in r <==> q in fs) && (q in fs ==> r[q] == fs[q])
    decreases |files|
  {
    if |files| == 0 then fs
    else
      var rest := files[1..];
      assert NoDup(rest) by {
        forall i, j | 0 <= i < j < |rest| ensures rest[i] != rest[j] {
          assert rest[i] == files[i + 1] && rest[j] == files[j + 1];
        }
      }
      assert forall i | 0 <= i < |rest| :: rest[i] == files[i + 1] && rest[i] != files[0];
      assert forall q | q !in files :: q != files[0] && q !in rest;
      WritePages(fs[files[0] := Pdf([pages[0]])], rest, pages[1..])
  }

  /** What a successful split leaves: the file system with the page files
      written, and the list of those files. */
  datatype SplitResult = SplitResult(fs: FileSystem, files: seq<Path>)

  /** `split_pdf(source_path, output_dir)`. The checks come in this order:
      the source exists, its suffix is `.pdf` in any case, it opens as a PDF,
      and it has a page. Then page `i` goes to
      `output_dir/<stem>_page_<i+1>.pdf`, and the files are returned in page
      order. */
  function SplitPdf(fs: FileSystem, source: Path, outputDir: Path): (r: Result<SplitResult>)
    ensures source !in fs ==> r == Err(NotFound(source))
    ensures source in fs && !HasPdfSuffix(source) ==> r == Err(NotPdf(source))
    ensures source in fs && HasPdfSuffix(source) && !fs[source].Pdf? ==> r == Err(CannotOpen(source))
    ensures source in fs && HasPdfSuffix(source) && fs[source].Pdf? && |fs[source].pages| == 0 ==>
      r == Err(NoPages(source))
    ensures r.Ok? <==> source in fs && HasPdfSuffix(source) && fs[source].Pdf? && |fs[source].pages| > 0
    ensures r.Ok? ==>
      var pages, files := fs[source].pages, r.value.files;
      && |files| == |pages|
      && NoDup(files)
      && (forall i | 0 <= i < |files| ::
            && files[i] == Join(outputDir, PageFileName(Stem(source), i))
            && files[i] in r.value.fs
            && r.value.fs[files[i]] == Pdf([pages[i]]))
      && (forall q | q !in files :: (q in r.value.fs <==> q in fs) && (q in fs ==> r.value.fs[q] == fs[q]))
  {
    if source !in fs then Err(NotFound(source))
    else if !HasPdfSuffix(source) then Err(NotPdf(source))
    else if !fs[source].Pdf? then Err(CannotOpen(source))
    else
      var pages := fs[source].pages;
      if |pages| == 0 then Err(NoPages(source))
      else
        var files := PageFiles(source, outputDir, |pages|);
        Ok(SplitResult(WritePages(fs, files, pages), files))
  }

  /** The split never overwrites its source: the page files all have longer
      names than it. */
  lemma SplitKeepsSource(fs: FileSystem, source: Path, outputDir: Path)
    requires SplitPdf(fs, source, outputDir).Ok?
    ensures source in SplitPdf(fs, source, outputDir).value.fs
    ensures SplitPdf(fs, source, outputDir).value.fs[source] == fs[source]
  {
    var files := SplitPdf(fs, source, outputDir).value.files;
    StemHasNoSlash(source);
    forall i | 0 <= i < |files| ensures files[i] != source {
      var n := PageFileName(Stem(source), i);
      PageFileNameHasNoSlash(Stem(source), i);
      NameOfJoin(outputDir, n);
      assert |Suffix(source)| <= 4 by {
        assert Lower(Suffix(source)) == ".pdf";
      }
      assert |Name(files[i])| > |Name(source)|;
    }
  }

  // ---------------------------------------------------------------- round trip

  /** The natural key of page file `i`: the key of `<stem>_page_`, then the
      page number `i + 1` and an empty text. */
  lemma PageFileKey(outputDir: Path, stem: string, i: nat)
    requires '/' !in stem
    ensures NaturalKey(Join(outputDir, PageFileName(stem, i)))
         == StemKey(stem + "_page_") + [Num(i + 1), Text("")]
  {
    var a := stem + "_page_";
    var d := NatToDigits(i + 1);
    var x := a + d;
    assert PageFileName(stem, i) == x + ".pdf";
    assert '/' !in x by {
      PageFileNameHasNoSlash(stem, i);
      forall k | 0 <= k < |x| ensures x[k] != '/' {
        assert x[k] == PageFileName(stem, i)[k];
      }
    }
    PdfName(outputDir, x);
    assert a[|a| - 1] == '_';
    StemKeyAppendDigits(a, d);
  }

  /** An earlier page's file has a smaller natural key. */
  lemma PageFilesOrdered(outputDir: Path, stem: string, i: nat, j: nat)
    requires '/' !in stem && i < j
    ensures KeyLess(NaturalKey(Join(outputDir, PageFileName(stem, i))),
                    NaturalKey(Join(outputDir, PageFileName(stem, j))))
  {
    PageFileKey(outputDir, stem, i);
    PageFileKey(outputDir, stem, j);
    var k := StemKey(stem + "_page_");
    LexCommonPrefix(k, [Num(i + 1), Text("")], [Num(j + 1), Text("")], PartLess);
  }

  /** The page files, as returned, are already in natural order: sorting
      them with the natural key of combine_pdf.py keeps them in page order. */
  lemma SplitFilesSortInPageOrder(fs: FileSystem, source: Path, outputDir: Path)
    requires SplitPdf(fs, source, outputDir).Ok?
    ensures var files := SplitPdf(fs, source, outputDir).value.files;
      NaturalSort(files) == files
  {
    var files := SplitPdf(fs, source, outputDir).value.files;
    assert files == PageFiles(source, outputDir, |fs[source].pages|);
    PageFilesInNaturalOrder(source, outputDir, |fs[source].pages|);
  }

  /** The output paths, one per page, are in natural order already. */
  lemma PageFilesInNaturalOrder(source: Path, outputDir: Path, count: nat)
    ensures var files := PageFiles(source, outputDir, count);
      NaturalSort(files) == files
  {
    var files := PageFiles(source, outputDir, count);
    StemHasNoSlash(source);
    KeyLessIsStrictTotal();
    forall i, j | 0 <= i < j < |files| ensures !KeyLess(NaturalKey(files[j]), NaturalKey(files[i])) {
      PageFilesOrdered(outputDir, Stem(source), i, j);
    }
    SortBySortedIsIdentity(files, NaturalKey, KeyLess);
  }

  /** Natural sorting puts the page files back in page order from any
      arrangement, such as the path order of a directory listing, where
      `_page_10` comes before `_page_2`. */
  lemma SplitFilesAnyOrder(fs: FileSystem, source: Path, outputDir: Path, s: seq<Path>)
    requires SplitPdf(fs, source, outputDir).Ok?
    requires multiset(s) == multiset(SplitPdf(fs, source, outputDir).value.files)
    ensures NaturalSort(s) == SplitPdf(fs, source, outputDir).value.files
  {
    var files := SplitPdf(fs, source, outputDir).value.files;
    assert files == PageFiles(source, outputDir, |fs[source].pages|);
    PageFilesAnyOrder(source, outputDir, |fs[source].pages|, s);
  }

  /** Natural sorting any arrangement of the output paths gives them in page order. */
  lemma PageFilesAnyOrder(source: Path, outputDir: Path, count: nat, s: seq<Path>)
    requires multiset(s) == multiset(PageFiles(source, outputDir, count))
    ensures NaturalSort(s) == PageFiles(source, outputDir, count)
  {
    var files := PageFiles(source, outputDir, count);
    PageFilesKeysDistinct(source, outputDir, count);
    DistinctKeysAtIndices(files, NaturalKey);
    KeyLessIsStrictTotal();
    SortByKeyInjectiveOn(files, s, NaturalKey, KeyLess);
    PageFilesInNaturalOrder(source, outputDir, count);
  }

  /** Different page files have different natural keys. */
  lemma PageFilesKeysDistinct(source: Path, outputDir: Path, count: nat)
    ensures var files := PageFiles(source, outputDir, count);
      forall i, j | 0 <= i < count && 0 <= j < count && i != j :: NaturalKey(files[i]) != NaturalKey(files[j])
  {
    var files := PageFiles(source, outputDir, count);
    StemHasNoSlash(source);
    KeyLessIsStrictTotal();
    forall i, j | 0 <= i < count && 0 <= j < count && i != j
      ensures NaturalKey(files[i]) != NaturalKey(files[j])
    {
      if i < j {
        PageFilesOrdered(outputDir, Stem(source), i, j);
      } else {
        PageFilesOrdered(outputDir, Stem(source), j, i);
      }
    }
  }

  /** An argument that is a PDF file with a `.pdf` suffix. */
  predicate PdfArgument(fs: FileSystem, p: Path) {
    p in fs && fs[p].Pdf? && HasPdfSuffix(p)
  }

  /** Gathering arguments that are all `.pdf` files keeps them as they are. */
  lemma GatherPdfFiles(fs: FileSystem, s: seq<Path>, recursive: bool)
    requires forall i | 0 <= i < |s| :: PdfArgument(fs, s[i])
    ensures AllExist(fs, s)
    ensures Gather(fs, s, recursive).value == Gathered(s, [])
  {
    GatherPdfCandidates(fs, s, recursive);
    GatherPdfSkipsNothing(fs, s, recursive);
  }

  lemma {:induction false} GatherPdfCandidates(fs: FileSystem, s: seq<Path>, recursive: bool)
    requires forall i | 0 <= i < |s| :: PdfArgument(fs, s[i])
    ensures AllExist(fs, s)
    ensures Gather(fs, s, recursive).value.candidates == s
    decreases |s|
  {
    if |s| > 0 {
      var tail := s[1..];
      PdfArgumentsTail(fs, s);
      GatherPdfCandidates(fs, tail, recursive);
      PdfContribution(fs, s[0], recursive);
      GatherStep(fs, s, recursive);
      assert [s[0]] + tail == s;
    }
  }

  lemma {:induction false} GatherPdfSkipsNothing(fs: FileSystem, s: seq<Path>, recursive: bool)
    requires forall i | 0 <= i < |s| :: PdfArgument(fs, s[i])
    ensures AllExist(fs, s)
    ensures Gather(fs, s, recursive).value.skipped == []
    decreases |s|
  {
    if |s| > 0 {
      PdfArgumentsTail(fs, s);
      GatherPdfSkipsNothing(fs, s[1..], recursive);
      PdfContribution(fs, s[0], recursive);
      GatherStep(fs, s, recursive);
    }
  }

  lemma PdfArgumentsTail(fs: FileSystem, s: seq<Path>)
    requires |s| > 0 && forall i | 0 <= i < |s| :: PdfArgument(fs, s[i])
    ensures forall i | 0 <= i < |s| - 1 :: PdfArgument(fs, s[1..][i])
  {
    forall i | 0 <= i < |s| - 1 ensures PdfArgument(fs, s[1..][i]) {
      assert s[1..][i] == s[i + 1];
    }
  }

  /** A `.pdf` file argument contributes itself and is not skipped. */
  lemma PdfContribution(fs: FileSystem, p: Path, recursive: bool)
    requires PdfArgument(fs, p)
    ensures Contribution(fs, p, recursive) == [p]
    ensures !Skipped(fs, p)
  {
  }

  /** Page files as a split leaves them: file `i` is a one-page PDF holding
      page `i`, under a `.pdf` name. */
  predicate PagesWritten(fs: FileSystem, files: seq<Path>, pages: seq<Page>) {
    && |files| == |pages|
    && forall i | 0 <= i < |files| :: PdfArgument(fs, files[i]) && fs[files[i]] == Pdf([pages[i]])
  }

  /** A successful split leaves its page files as `PagesWritten` describes. */
  lemma SplitFilesArePdfs(fs: FileSystem, source: Path, outputDir: Path)
    requires SplitPdf(fs, source, outputDir).Ok?
    ensures source in fs && fs[source].Pdf?
    ensures var out := SplitPdf(fs, source, outputDir).value;
      PagesWritten(out.fs, out.files, fs[source].pages) && NoDup(out.files)
  {
    var files := SplitPdf(fs, source, outputDir).value.files;
    StemHasNoSlash(source);
    forall i | 0 <= i < |files| ensures HasPdfSuffix(files[i]) {
      PageFileIsPdf(outputDir, Stem(source), i);
    }
  }

  lemma PageFileIsPdf(outputDir: Path, stem: string, i: nat)
    requires '/' !in stem
    ensures HasPdfSuffix(Join(outputDir, PageFileName(stem, i)))
  {
    var x := stem + "_page_" + NatToDigits(i + 1);
    assert PageFileName(stem, i) == x + ".pdf";
    PageFileNameHasNoSlash(stem, i);
    assert '/' !in x by {
      forall k | 0 <= k < |x| ensures x[k] != '/' {
        assert x[k] == PageFileName(stem, i)[k];
      }
    }
    PdfName(outputDir, x);
  }

  /** Collecting page files that are already in natural order, once resolved,
      gives them back resolved and in that order, and skips nothing. */
  lemma CollectWrittenFiles(fs: FileSystem, files: seq<Path>, pages: seq<Page>, recursive: bool,
                            resolve: Path -> Path)
    requires PagesWritten(fs, files, pages) && NoDup(files)
    requires SortedBy(MapSeq(resolve, files), NaturalKey, KeyLess)
    ensures CollectPdfs(fs, files, recursive, resolve) == Ok(Collected(MapSeq(resolve, files), []))
  {
    GatherPdfFiles(fs, files, recursive);
    FirstOccurrencesOfDistinct(files, {});
    var u := MapSeq(resolve, files);
    assert Unique(resolve, files) == u;
    SortBySortedIsIdentity(u, NaturalKey, KeyLess);
  }

  /** Merging page files in order gives back the pages they hold. */
  lemma MergeWrittenPages(fs: FileSystem, files: seq<Path>, pages: seq<Page>, output: Path, overwrite: bool)
    requires PagesWritten(fs, files, pages) && |files| > 0
    requires output !in fs || overwrite
    ensures MergePdfs(fs, files, output, overwrite) == Ok(fs[output := Pdf(pages)])
  {
    var docs := OpenAll(fs, files).value;
    FlattenSingletons(docs, pages);
  }

  /** The natural key depends on the last path component only. */
  lemma NaturalKeyByName(p: Path, q: Path)
    requires Name(p) == Name(q)
    ensures NaturalKey(p) == NaturalKey(q)
  {
    assert Stem(p) == Stem(q);
  }

  /** Passing the page files back to `collect_pdfs` gives them back in page
      order, when resolution keeps each file's name. */
  lemma CollectSplitFiles(fs: FileSystem, source: Path, outputDir: Path, recursive: bool, resolve: Path -> Path)
    requires SplitPdf(fs, source, outputDir).Ok?
    requires forall p :: Name(resolve(p)) == Name(p)
    ensures var out := SplitPdf(fs, source, outputDir).value;
      CollectPdfs(out.fs, out.files, recursive, resolve) == Ok(Collected(MapSeq(resolve, out.files), []))
  {
    var out := SplitPdf(fs, source, outputDir).value;
    SplitFilesArePdfs(fs, source, outputDir);
    ResolvedFilesStaySorted(fs, source, outputDir, resolve);
    CollectWrittenFiles(out.fs, out.files, fs[source].pages, recursive, resolve);
  }

  /** Resolving the page files, name by name, keeps them in natural order. */
  lemma ResolvedFilesStaySorted(fs: FileSystem, source: Path, outputDir: Path, resolve: Path -> Path)
    requires SplitPdf(fs, source, outputDir).Ok?
    requires forall p :: Name(resolve(p)) == Name(p)
    ensures SortedBy(MapSeq(resolve, SplitPdf(fs, source, outputDir).value.files), NaturalKey, KeyLess)
  {
    var files := SplitPdf(fs, source, outputDir).value.files;
    var u := MapSeq(resolve, files);
    SplitFilesSortInPageOrder(fs, source, outputDir);
    assert SortedBy(files, NaturalKey, KeyLess);
    forall i | 0 <= i < |u| ensures NaturalKey(u[i]) == NaturalKey(files[i]) {
      NaturalKeyByName(u[i], files[i]);
    }
  }

  /** Merging the page files in the order they were written gives back the
      source's pages. */
  lemma MergeSplitFiles(fs: FileSystem, source: Path, outputDir: Path, output: Path, overwrite: bool)
    requires SplitPdf(fs, source, outputDir).Ok?
    requires var out := SplitPdf(fs, source, outputDir).value; output !in out.fs || overwrite
    ensures var out := SplitPdf(fs, source, outputDir).value;
      var merged := MergePdfs(out.fs, out.files, output, overwrite);
      merged.Ok? && merged.value[output] == fs[source]
  {
    var out := SplitPdf(fs, source, outputDir).value;
    SplitFilesArePdfs(fs, source, outputDir);
    MergeWrittenPages(out.fs, out.files, fs[source].pages, output, overwrite);
  }

  /** `Path.resolve` on paths that are already absolute and free of links. */
  function Identity(p: Path): Path {
    p
  }

  /** The round trip in full: split, collect the page files (resolving each
      to itself), and merge them; the output holds the source's pages. */
  lemma SplitCollectMergeRoundTrip(fs: FileSystem, source: Path, outputDir: Path, output: Path, overwrite: bool)
    requires SplitPdf(fs, source, outputDir).Ok?
    requires var out := SplitPdf(fs, source, outputDir).value; output !in out.fs || overwrite
    ensures var out := SplitPdf(fs, source, outputDir).value;
      var collected := CollectPdfs(out.fs, out.files, false, Identity);
      && collected.Ok?
      && var merged := MergePdfs(out.fs, collected.value.files, output, overwrite);
      && merged.Ok?
      && merged.value[output] == fs[source]
  {
    var out := SplitPdf(fs, source, outputDir).value;
    CollectSplitFiles(fs, source, outputDir, false, Identity);
    ResolveToItself(out.files);
    var collected := CollectPdfs(out.fs, out.files, false, Identity);
    assert collected.value.files == out.files;
    MergeSplitFiles(fs, source, outputDir, output, overwrite);
  }

  lemma ResolveToItself(s: seq<Path>)
    ensures MapSeq(Identity, s) == s
  {
  }
}
