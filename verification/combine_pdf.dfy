/** combine_pdf.py: collect PDF paths from file and directory arguments,
    drop repeated paths, sort them naturally, and merge their pages into one
    output document. */
module CombinePdf {
  import opened Seqs
  import opened Paths
  import opened Ordering
  import opened Sorting
  import opened NaturalOrder
  import opened Files

  // ---------------------------------------------------------------- glob order

  /** The parts of a path, which `PurePath` compares as a list of strings. */
  function Components(p: Path): seq<string> {
    Split(p, '/')
  }

  function ComponentsLess(a: seq<string>, b: seq<string>): bool {
    LexLess(a, b, StrLess)
  }

  lemma ComponentsLessIsStrictTotal()
    ensures StrictTotalOrder(ComponentsLess)
  {
    StrLessIsStrictTotal();
    LexIsStrictTotal(StrLess, ComponentsLess);
  }

  /** Different paths have different parts. */
  lemma ComponentsInjective()
    ensures forall p, q :: Components(p) == Components(q) ==> p == q
  {
  }

  /** `sorted(path.glob(pattern))`: the matches in path order. */
  function GlobSorted(matches: seq<Path>): (r: seq<Path>)
    ensures multiset(r) == multiset(matches)
    ensures SortedBy(r, Components, ComponentsLess)
  {
    ComponentsLessIsStrictTotal();
    SortByPermutes(matches, Components, ComponentsLess);
    SortBySorted(matches, Components, ComponentsLess);
    SortBy(matches, Components, ComponentsLess)
  }

  /** The order in which the file system lists a directory does not matter:
      any two listings of the same matches sort alike. */
  lemma GlobSortedIgnoresListingOrder(a: seq<Path>, b: seq<Path>)
    requires multiset(a) == multiset(b)
    ensures GlobSorted(a) == GlobSorted(b)
  {
    ComponentsLessIsStrictTotal();
    ComponentsInjective();
    SortByInjectiveKey(a, b, Components, ComponentsLess);
  }

  // ---------------------------------------------------------------- gathering

  /** The glob matches of a directory for the `recursive` flag. */
  function Matches(e: Entry, recursive: bool): seq<Path>
    requires e.Dir?
  {
    if recursive then e.deepMatches else e.matches
  }

  /** Whether an existing input is a file that is skipped with a warning. */
  predicate Skipped(fs: FileSystem, p: Path)
    requires p in fs
  {
    !fs[p].Dir? && !HasPdfSuffix(p)
  }

  /** What one existing input adds to the candidate list. */
  function Contribution(fs: FileSystem, p: Path, recursive: bool): seq<Path>
    requires p in fs
  {
    if fs[p].Dir? then GlobSorted(Matches(fs[p], recursive))
    else if HasPdfSuffix(p) then [p]
    else []
  }

  /** The candidate PDF paths in argument order, and the files skipped with a
      warning because their suffix is not `.pdf`. */
  datatype Gathered = Gathered(candidates: seq<Path>, skipped: seq<Path>)

  /** Every argument names something that exists. */
  predicate AllExist(fs: FileSystem, inputs: seq<Path>) {
    forall i | 0 <= i < |inputs| :: inputs[i] in fs
  }

  /** Argument `i` is the first one that does not exist. */
  predicate FirstMissing(fs: FileSystem, inputs: seq<Path>, i: nat) {
    && i < |inputs|
    && inputs[i] !in fs
    && forall j | 0 <= j < i :: inputs[j] in fs
  }

  /** The first loop of `collect_pdfs`. A missing argument raises
      `FileNotFoundError`, whatever came before it; a directory adds its sorted
      glob matches; a file is kept when its suffix is `.pdf` in any case and
      skipped otherwise. */
  function Gather(fs: FileSystem, inputs: seq<Path>, recursive: bool): (r: Result<Gathered>)
    ensures r.Ok? <==> AllExist(fs, inputs)
    ensures r.Err? ==> exists i: nat :: FirstMissing(fs, inputs, i) && r.error == NotFound(inputs[i])
    decreases |inputs|
  {
    if |inputs| == 0 then Ok(Gathered([], []))
    else
      var p := inputs[0];
      if p !in fs then
        assert FirstMissing(fs, inputs, 0);
        Err(NotFound(p))
      else
        var rest := Gather(fs, inputs[1..], recursive);
        assert forall j | 0 <= j < |inputs| - 1 :: inputs[1..][j] == inputs[j + 1];
        if rest.Err? then
          var i: nat :| FirstMissing(fs, inputs[1..], i) && rest.error == NotFound(inputs[1..][i]);
          assert FirstMissing(fs, inputs, i + 1);
          rest
        else
          Ok(Gathered(Contribution(fs, p, recursive) + rest.value.candidates,
                      (if Skipped(fs, p) then [p] else []) + rest.value.skipped))
  }

  /** Whether `x` is a candidate that argument `p` brings in: a glob match
      of a directory, or the argument itself when it is a `.pdf` file. */
  predicate Brings(fs: FileSystem, p: Path, recursive: bool, x: Path)
    requires p in fs
  {
    if fs[p].Dir? then x in Matches(fs[p], recursive) else HasPdfSuffix(p) && x == p
  }

  /** A candidate is a `.pdf` file named by an argument or a glob match of a
      directory argument, and every one of those is a candidate. */
  lemma {:induction false} GatherCandidates(fs: FileSystem, inputs: seq<Path>, recursive: bool, x: Path)
    requires AllExist(fs, inputs)
    ensures x in Gather(fs, inputs, recursive).value.candidates <==>
      exists i | 0 <= i < |inputs| :: Brings(fs, inputs[i], recursive, x)
    decreases |inputs|
  {
    if |inputs| > 0 {
      var p, tail := inputs[0], inputs[1..];
      assert forall j | 0 <= j < |tail| :: tail[j] == inputs[j + 1];
      assert AllExist(fs, tail);
      GatherCandidates(fs, tail, recursive, x);
      assert x in Contribution(fs, p, recursive) <==> Brings(fs, p, recursive, x) by {
        if fs[p].Dir? {
          var m := Matches(fs[p], recursive);
          assert x in GlobSorted(m) <==> x in multiset(GlobSorted(m));
          assert x in m <==> x in multiset(m);
        }
      }
      if exists i | 0 <= i < |inputs| :: Brings(fs, inputs[i], recursive, x) {
        var i :| 0 <= i < |inputs| && Brings(fs, inputs[i], recursive, x);
        if i > 0 {
          assert Brings(fs, tail[i - 1], recursive, x);
        }
      }
    }
  }

  /** One step of the loop: the first argument's contribution, then the rest. */
  lemma GatherStep(fs: FileSystem, s: seq<Path>, recursive: bool)
    requires |s| > 0 && AllExist(fs, s)
    ensures AllExist(fs, s[1..])
    ensures Gather(fs, s, recursive).value.candidates
         == Contribution(fs, s[0], recursive) + Gather(fs, s[1..], recursive).value.candidates
    ensures Gather(fs, s, recursive).value.skipped
         == (if Skipped(fs, s[0]) then [s[0]] else []) + Gather(fs, s[1..], recursive).value.skipped
  {
    assert forall j | 0 <= j < |s| - 1 :: s[1..][j] == s[j + 1];
  }

  /** Arguments are gathered one after another: the candidates of `a + b` are
      those of `a` followed by those of `b`. */
  lemma {:induction false} GatherAppend(fs: FileSystem, a: seq<Path>, b: seq<Path>, recursive: bool)
    requires AllExist(fs, a + b)
    ensures AllExist(fs, a) && AllExist(fs, b)
    ensures Gather(fs, a + b, recursive).value.candidates
         == Gather(fs, a, recursive).value.candidates + Gather(fs, b, recursive).value.candidates
    decreases |a|
  {
    AllExistSplit(fs, a, b);
    if |a| == 0 {
      assert a + b == b;
    } else {
      assert (a + b)[0] == a[0] && (a + b)[1..] == a[1..] + b;
      GatherStep(fs, a + b, recursive);
      GatherAppend(fs, a[1..], b, recursive);
      GatherStep(fs, a, recursive);
    }
  }

  /** The files skipped for `a + b` are those skipped for `a`, then for `b`. */
  lemma {:induction false} GatherAppendSkipped(fs: FileSystem, a: seq<Path>, b: seq<Path>, recursive: bool)
    requires AllExist(fs, a + b)
    ensures AllExist(fs, a) && AllExist(fs, b)
    ensures Gather(fs, a + b, recursive).value.skipped
         == Gather(fs, a, recursive).value.skipped + Gather(fs, b, recursive).value.skipped
    decreases |a|
  {
    AllExistSplit(fs, a, b);
    if |a| == 0 {
      assert a + b == b;
    } else {
      assert (a + b)[0] == a[0] && (a + b)[1..] == a[1..] + b;
      GatherStep(fs, a + b, recursive);
      GatherAppendSkipped(fs, a[1..], b, recursive);
      GatherStep(fs, a, recursive);
      var h := if Skipped(fs, a[0]) then [a[0]] else [];
      var s1, s2 := Gather(fs, a[1..], recursive).value.skipped, Gather(fs, b, recursive).value.skipped;
      assert h + (s1 + s2) == (h + s1) + s2;
    }
  }

  /** The skipped arguments are exactly the existing files without a `.pdf`
      suffix. */
  lemma {:induction false} GatherSkipped(fs: FileSystem, inputs: seq<Path>, recursive: bool, p: Path)
    requires AllExist(fs, inputs)
    ensures p in Gather(fs, inputs, recursive).value.skipped <==> p in inputs && Skipped(fs, p)
    decreases |inputs|
  {
    if |inputs| > 0 {
      GatherStep(fs, inputs, recursive);
      GatherSkipped(fs, inputs[1..], recursive, p);
      assert p in inputs <==> p == inputs[0] || p in inputs[1..] by {
        assert inputs == [inputs[0]] + inputs[1..];
      }
    }
  }

  lemma AllExistSplit(fs: FileSystem, a: seq<Path>, b: seq<Path>)
    requires AllExist(fs, a + b)
    ensures AllExist(fs, a) && AllExist(fs, b)
  {
    var ab := a + b;
    assert forall i | 0 <= i < |a| :: ab[i] == a[i];
    assert forall i | 0 <= i < |b| :: ab[|a| + i] == b[i];
  }

  // ---------------------------------------------------------------- dedupe

  /** The dedupe loop of `collect_pdfs` without the `resolve()`: the first
      occurrence of each element not yet in `seen`, in order. */
  function FirstOccurrences(s: seq<Path>, seen: set<Path>): (r: seq<Path>)
    ensures NoDup(r)
    ensures forall x :: x in r <==> x in s && x !in seen
    ensures forall i, j | 0 <= i < j < |r| :: FirstIndex(s, r[i]) < FirstIndex(s, r[j])
    decreases |s|
  {
    if |s| == 0 then []
    else if s[0] in seen then
      var r := FirstOccurrences(s[1..], seen);
      FirstIndexBeyondHead(s, r);
      r
    else
      var rest := FirstOccurrences(s[1..], seen + {s[0]});
      FirstIndexBeyondHead(s, rest);
      [s[0]] + rest
  }

  /** Elements of the tail that differ from the head are found one step
      later in the whole sequence. */
  lemma FirstIndexBeyondHead(s: seq<Path>, r: seq<Path>)
    requires |s| > 0
    requires forall i | 0 <= i < |r| :: r[i] in s[1..] && r[i] != s[0]
    ensures forall i | 0 <= i < |r| :: FirstIndex(s, r[i]) == 1 + FirstIndex(s[1..], r[i])
  {
  }

  /** `unique_pdfs` before resolution: repeated paths dropped, first
      occurrences kept in order. */
  function Dedupe(s: seq<Path>): (r: seq<Path>)
    ensures NoDup(r)
    ensures forall x :: x in r <==> x in s
    ensures forall i, j | 0 <= i < j < |r| :: FirstIndex(s, r[i]) < FirstIndex(s, r[j])
  {
    FirstOccurrences(s, {})
  }

  /** A sequence without repeats, none of them seen before, is kept whole. */
  lemma {:induction false} FirstOccurrencesOfDistinct(s: seq<Path>, seen: set<Path>)
    requires NoDup(s)
    requires forall x | x in s :: x !in seen
    ensures FirstOccurrences(s, seen) == s
    decreases |s|
  {
    if |s| > 0 {
      assert forall x | x in s[1..] :: x != s[0] by {
        forall x | x in s[1..] ensures x != s[0] {
          var k :| 0 <= k < |s[1..]| && s[1..][k] == x;
          assert s[k + 1] == x;
        }
      }
      FirstOccurrencesOfDistinct(s[1..], seen + {s[0]});
    }
  }

  /** Removing repeats twice is the same as removing them once. */
  lemma DedupeIdempotent(s: seq<Path>)
    ensures Dedupe(Dedupe(s)) == Dedupe(s)
  {
    FirstOccurrencesOfDistinct(Dedupe(s), {});
  }

  /** Any sequence with the three properties of `Dedupe` is `Dedupe`'s result:
      no repeats, the same elements, first occurrences in order. */
  lemma DedupeUnique(s: seq<Path>, r: seq<Path>)
    requires NoDup(r)
    requires forall x :: x in r <==> x in s
    requires forall i, j | 0 <= i < j < |r| :: FirstIndex(s, r[i]) < FirstIndex(s, r[j])
    ensures r == Dedupe(s)
  {
    FirstIndexOrderUnique(s, r, Dedupe(s));
  }

  /** Two repeat-free sequences of the same elements of `s`, both ordered by
      first index in `s`, are equal. */
  lemma {:induction false} FirstIndexOrderUnique(s: seq<Path>, r: seq<Path>, d: seq<Path>)
    requires NoDup(r) && NoDup(d)
    requires forall x :: x in r ==> x in s
    requires forall x :: x in r <==> x in d
    requires forall i, j | 0 <= i < j < |r| :: FirstIndex(s, r[i]) < FirstIndex(s, r[j])
    requires forall i, j | 0 <= i < j < |d| :: FirstIndex(s, d[i]) < FirstIndex(s, d[j])
    ensures r == d
    decreases |r|
  {
    assert |r| == 0 || r[0] in d;
    assert |d| == 0 || d[0] in r;
    if |r| > 0 && |d| > 0 {
      var a, b := r[0], d[0];
      HeadHasLeastFirstIndex(s, r, b);
      HeadHasLeastFirstIndex(s, d, a);
      assert a == s[FirstIndex(s, a)] && b == s[FirstIndex(s, b)];
      var r', d' := r[1..], d[1..];
      OrderedTail(s, r);
      OrderedTail(s, d);
      FirstIndexOrderUnique(s, r', d');
      assert r == [a] + r' && d == [b] + d';
    }
  }

  /** Dropping the head of a repeat-free sequence ordered by first index
      leaves one with the other elements, still repeat-free and ordered. */
  lemma OrderedTail(s: seq<Path>, r: seq<Path>)
    requires |r| > 0 && NoDup(r)
    requires forall x :: x in r ==> x in s
    requires forall i, j | 0 <= i < j < |r| :: FirstIndex(s, r[i]) < FirstIndex(s, r[j])
    ensures NoDup(r[1..])
    ensures forall x :: x in r[1..] ==> x in s
    ensures forall i, j | 0 <= i < j < |r| - 1 :: FirstIndex(s, r[1..][i]) < FirstIndex(s, r[1..][j])
    ensures forall x :: x in r[1..] <==> x in r && x != r[0]
  {
    var t := r[1..];
    assert forall i | 0 <= i < |t| :: t[i] == r[i + 1];
    forall x | x in r && x != r[0] ensures x in t {
      var m :| 0 <= m < |r| && r[m] == x;
      assert t[m - 1] == x;
    }
  }

  /** The head of a sequence ordered by first index has the least first index. */
  lemma HeadHasLeastFirstIndex(s: seq<Path>, r: seq<Path>, x: Path)
    requires |r| > 0 && x in r
    requires forall y :: y in r ==> y in s
    requires forall i, j | 0 <= i < j < |r| :: FirstIndex(s, r[i]) < FirstIndex(s, r[j])
    ensures FirstIndex(s, r[0]) <= FirstIndex(s, x)
  {
    var m :| 0 <= m < |r| && r[m] == x;
    assert m == 0 || FirstIndex(s, r[0]) < FirstIndex(s, r[m]);
  }

  /** `unique_pdfs`: the first occurrence of each candidate path, then
      resolved. Repeats are detected before resolution. */
  function Unique(resolve: Path -> Path, candidates: seq<Path>): seq<Path> {
    MapSeq(resolve, Dedupe(candidates))
  }

  /** When resolution keeps distinct paths distinct, `unique_pdfs` has no repeats. */
  lemma UniqueWhenResolveInjective(resolve: Path -> Path, candidates: seq<Path>)
    requires forall p, q :: resolve(p) == resolve(q) ==> p == q
    ensures NoDup(Unique(resolve, candidates))
  {
    var d := Dedupe(candidates);
    var u := Unique(resolve, candidates);
    forall i, j | 0 <= i < j < |u| ensures u[i] != u[j] {
      assert u[i] == resolve(d[i]) && u[j] == resolve(d[j]);
    }
  }

  /** Two different spellings of one file both survive: repeats are found
      on the paths as given, and both resolve to the same path. */
  lemma RepeatsSurviveResolution(resolve: Path -> Path, p: Path, q: Path)
    requires p != q && resolve(p) == resolve(q)
    ensures Unique(resolve, [p, q]) == [resolve(p), resolve(p)]
  {
    FirstOccurrencesOfDistinct([p, q], {});
  }

  // ---------------------------------------------------------------- collect

  /** The result of `collect_pdfs`, with the files it warned about. */
  datatype Collected = Collected(files: seq<Path>, skipped: seq<Path>)

  /** `collect_pdfs(paths, recursive)`, with `Path.resolve` as `resolve`:
      gather, drop repeats, resolve, and sort by natural key. */
  function CollectPdfs(fs: FileSystem, inputs: seq<Path>, recursive: bool, resolve: Path -> Path): (r: Result<Collected>)
    ensures r.Ok? <==> AllExist(fs, inputs)
    ensures r.Err? ==> exists i: nat :: FirstMissing(fs, inputs, i) && r.error == NotFound(inputs[i])
    ensures r.Ok? ==>
      var u := Unique(resolve, Gather(fs, inputs, recursive).value.candidates);
      && multiset(r.value.files) == multiset(u)
      && SortedBy(r.value.files, NaturalKey, KeyLess)
      && StableFor(r.value.files, u, NaturalKey)
    ensures r.Ok? ==> forall p :: p in r.value.skipped <==> p in inputs && Skipped(fs, p)
  {
    var g := Gather(fs, inputs, recursive);
    if g.Err? then Err(g.error)
    else
      assert forall p :: p in g.value.skipped <==> p in inputs && Skipped(fs, p) by {
        forall p ensures p in g.value.skipped <==> p in inputs && Skipped(fs, p) {
          GatherSkipped(fs, inputs, recursive, p);
        }
      }
      Ok(Collected(NaturalSort(Unique(resolve, g.value.candidates)), g.value.skipped))
  }

  // ---------------------------------------------------------------- merge

  /** Opens each input in order; the first one that cannot be opened raises. */
  function OpenAll(fs: FileSystem, inputs: seq<Path>): (r: Result<seq<seq<Page>>>)
    ensures r.Ok? <==> forall i | 0 <= i < |inputs| :: inputs[i] in fs && fs[inputs[i]].Pdf?
    ensures r.Ok? ==> |r.value| == |inputs| && forall i | 0 <= i < |inputs| :: r.value[i] == fs[inputs[i]].pages
    ensures r.Err? ==> exists i | 0 <= i < |inputs| ::
      && Open(fs, inputs[i]).Err?
      && r.error == Open(fs, inputs[i]).error
      && forall j | 0 <= j < i :: Open(fs, inputs[j]).Ok?
    decreases |inputs|
  {
    if |inputs| == 0 then Ok([])
    else
      var first := Open(fs, inputs[0]);
      if first.Err? then Err(first.error)
      else
        var rest := OpenAll(fs, inputs[1..]);
        assert forall j | 0 <= j < |inputs| - 1 :: inputs[1..][j] == inputs[j + 1];
        if rest.Err? then Err(rest.error)
        else Ok([first.value] + rest.value)
  }

  /** `merge_pdfs(input_paths, output_path, overwrite)`: refuses an empty
      list, refuses to replace an existing output unless asked to, and
      otherwise writes the inputs' pages one document after another to the
      output path, leaving every other path as it was. */
  function MergePdfs(fs: FileSystem, inputs: seq<Path>, output: Path, overwrite: bool): (r: Result<FileSystem>)
    ensures |inputs| == 0 ==> r == Err(NothingToMerge)
    ensures |inputs| > 0 && output in fs && !overwrite ==> r == Err(OutputExists(output))
    ensures r.Ok? <==>
      && |inputs| > 0
      && (output !in fs || overwrite)
      && forall i | 0 <= i < |inputs| :: inputs[i] in fs && fs[inputs[i]].Pdf?
    ensures r.Ok? ==>
      && output in r.value
      && r.value[output]
           == Pdf(Flatten(seq(|inputs|, i requires 0 <= i < |inputs| && inputs[i] in fs && fs[inputs[i]].Pdf? =>
                                fs[inputs[i]].pages)))
      && forall q | q != output :: (q in r.value <==> q in fs) && (q in fs ==> r.value[q] == fs[q])
  {
    if |inputs| == 0 then Err(NothingToMerge)
    else if output in fs && !overwrite then Err(OutputExists(output))
    else
      var docs := OpenAll(fs, inputs);
      if docs.Err? then Err(docs.error)
      else
        assert docs.value
            == seq(|inputs|, i requires 0 <= i < |inputs| && inputs[i] in fs && fs[inputs[i]].Pdf? =>
                     fs[inputs[i]].pages);
        Ok(fs[output := Pdf(Flatten(docs.value))])
  }

  /** The merged document has as many pages as the inputs together, and page
      `n` of input `i` lands after all pages of the inputs before it. */
  lemma {:induction false} FlattenPlacesPages(docs: seq<seq<Page>>, i: nat, n: nat)
    requires i < |docs| && n < |docs[i]|
    ensures |Flatten(docs[..i])| + n < |Flatten(docs)|
    ensures Flatten(docs)[|Flatten(docs[..i])| + n] == docs[i][n]
    decreases i
  {
    assert docs == [docs[0]] + docs[1..];
    if i == 0 {
      assert docs[..0] == [];
    } else {
      assert docs[..i] == [docs[0]] + docs[1..][..i - 1];
      assert docs[..i][1..] == docs[1..][..i - 1];
      FlattenPlacesPages(docs[1..], i - 1, n);
    }
  }
}
