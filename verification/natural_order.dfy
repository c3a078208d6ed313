/** The natural sort key of combine_pdf.py: a file's stem is split into
    alternating non-digit and digit runs; digit runs become integers and the
    other runs are lower-cased, so `page_9` sorts before `page_10`. */
module NaturalOrder {
  import opened Seqs
  import opened Paths
  import opened Ordering
  import opened Sorting

  /** One element of a natural key: a lower-cased text run or a number. */
  datatype Part = Text(text: string) | Num(value: nat)

  // ---------------------------------------------------------------- runs

  /** The runs alternate: maximal digit runs at odd positions, text without
      digits at even positions, and only the first and the last text may be
      empty. */
  ghost predicate AlternatingRuns(runs: seq<string>) {
    && |runs| % 2 == 1
    && (forall i | 0 <= i < |runs| :: if i % 2 == 0 then NoDigits(runs[i]) else IsAllDigits(runs[i]))
    && (forall i | 0 < i < |runs| - 1 && i % 2 == 0 :: |runs[i]| > 0)
  }

  /** `re.split(r"(\d+)", s)`: the maximal digit runs of `s` at odd positions
      and the (possibly empty) text around them at even positions
      (`DigitRunsRejoin` shows that joined together they give back `s`).
      Built from the back: the first character joins the leading text,
      extends a leading digit run, or opens a new one. */
  function DigitRuns(s: string): (runs: seq<string>)
    ensures AlternatingRuns(runs)
    ensures |runs[0]| == 0 <==> |s| == 0 || IsDigit(s[0])
    ensures |runs| == 1 ==> runs[0] == s
    decreases |s|
  {
    if |s| == 0 then [""]
    else
      var c, rest := s[0], DigitRuns(s[1..]);
      if !IsDigit(c) then
        JoinText(c, rest);
        [[c] + rest[0]] + rest[1..]
      else if |rest[0]| == 0 && |rest| > 1 then
        ExtendRun(c, rest);
        ["", [c] + rest[1]] + rest[2..]
      else
        OpenRun(c, rest);
        ["", [c]] + rest
  }

  lemma JoinText(c: char, rest: seq<string>)
    requires AlternatingRuns(rest) && !IsDigit(c)
    ensures AlternatingRuns([[c] + rest[0]] + rest[1..])
  {
    var runs := [[c] + rest[0]] + rest[1..];
    assert forall i | 1 <= i < |runs| :: runs[i] == rest[i];
    assert NoDigits(rest[0]);
  }

  lemma ExtendRun(c: char, rest: seq<string>)
    requires AlternatingRuns(rest) && IsDigit(c)
    requires |rest[0]| == 0 && |rest| > 1
    ensures AlternatingRuns(["", [c] + rest[1]] + rest[2..])
  {
    var runs := ["", [c] + rest[1]] + rest[2..];
    assert forall i | 2 <= i < |runs| :: runs[i] == rest[i];
    assert IsAllDigits(rest[1]);
  }

  lemma OpenRun(c: char, rest: seq<string>)
    requires AlternatingRuns(rest) && IsDigit(c)
    requires |rest[0]| > 0 || |rest| == 1
    ensures AlternatingRuns(["", [c]] + rest)
  {
    var runs := ["", [c]] + rest;
    assert forall i | 2 <= i < |runs| :: runs[i] == rest[i - 2];
  }

  /** Concatenating the runs gives back the stem. */
  lemma {:induction false} DigitRunsRejoin(s: string)
    ensures Flatten(DigitRuns(s)) == s
    decreases |s|
  {
    if |s| > 0 {
      var c, rest := s[0], DigitRuns(s[1..]);
      DigitRunsRejoin(s[1..]);
      assert s == [c] + s[1..];
      var runs := DigitRuns(s);
      if !IsDigit(c) {
        assert runs[1..] == rest[1..];
      } else if |rest[0]| == 0 && |rest| > 1 {
        assert runs[1..][1..] == rest[2..];
        assert rest[1..][1..] == rest[2..];
      } else {
        assert runs[1..][1..] == rest;
      }
    }
  }

  // ---------------------------------------------------------------- keys

  /** One run as the source converts it: `int(run)` for a digit run,
      `run.lower()` otherwise. */
  function ToPart(run: string): Part {
    if IsAllDigits(run) then Num(DigitsValue(run)) else Text(Lower(run))
  }

  /** The natural key of a stem. It alternates text and number, starting and
      ending with a (possibly empty) text part, so comparing two keys
      position by position never compares a number with a text. */
  function StemKey(stem: string): (k: seq<Part>)
    ensures |k| % 2 == 1
    ensures forall i | 0 <= i < |k| :: if i % 2 == 0 then k[i].Text? else k[i].Num?
  {
    var runs := DigitRuns(stem);
    var k := MapSeq(ToPart, runs);
    assert forall i | 0 <= i < |k| && i % 2 == 0 :: !IsAllDigits(runs[i]) by {
      forall i | 0 <= i < |k| && i % 2 == 0 ensures !IsAllDigits(runs[i]) {
        assert NoDigits(runs[i]);
        if |runs[i]| > 0 { assert !IsDigit(runs[i][0]); }
      }
    }
    k
  }

  /** `_natural_key(path)`: the natural key of the path's stem. */
  function NaturalKey(p: Path): seq<Part> {
    StemKey(Stem(p))
  }

  // ---------------------------------------------------------------- order

  /** Python's `<` between two key elements. Numbers compare as integers and
      texts as strings; a number against a text would raise `TypeError` in
      Python, and keys never meet that case (see `StemKey`), so it is given
      an arbitrary fixed answer here to keep the order total. */
  function PartLess(a: Part, b: Part): bool {
    match (a, b)
    case (Num(m), Num(n)) => m < n
    case (Text(s), Text(t)) => StrLess(s, t)
    case (Num(_), Text(_)) => true
    case (Text(_), Num(_)) => false
  }

  /** Python's `<` between two natural keys (lists). */
  function KeyLess(a: seq<Part>, b: seq<Part>): bool {
    LexLess(a, b, PartLess)
  }

  /** What Python's `<` on two keys yields: a truth value, or `TypeError`
      when the first differing elements are a number and a text. */
  datatype Compared = Answer(less: bool) | TypeError

  function PyKeyLess(a: seq<Part>, b: seq<Part>): Compared
    decreases |a|
  {
    if |a| == 0 then Answer(|b| > 0)
    else if |b| == 0 then Answer(false)
    else if a[0] == b[0] then PyKeyLess(a[1..], b[1..])
    else if a[0].Text? != b[0].Text? then TypeError
    else Answer(PartLess(a[0], b[0]))
  }

  /** Position by position, the two keys hold parts of the same kind. */
  ghost predicate KindsAgree(a: seq<Part>, b: seq<Part>) {
    forall i | 0 <= i < |a| && i < |b| :: a[i].Text? == b[i].Text?
  }

  lemma {:induction false} PyKeyLessWhenKindsAgree(a: seq<Part>, b: seq<Part>)
    requires KindsAgree(a, b)
    ensures PyKeyLess(a, b) == Answer(KeyLess(a, b))
    decreases |a|
  {
    if |a| > 0 && |b| > 0 {
      if a[0] == b[0] {
        assert KindsAgree(a[1..], b[1..]) by {
          forall i | 0 <= i < |a[1..]| && i < |b[1..]| ensures a[1..][i].Text? == b[1..][i].Text? {
            assert a[1..][i] == a[i + 1] && b[1..][i] == b[i + 1];
          }
        }
        PyKeyLessWhenKindsAgree(a[1..], b[1..]);
      } else {
        assert a[0].Text? == b[0].Text?;
      }
    }
  }

  /** Comparing two natural keys never reaches a number against a text, so
      Python's comparison never raises and agrees with `KeyLess`. */
  lemma NaturalKeysCompare(p: Path, q: Path)
    ensures PyKeyLess(NaturalKey(p), NaturalKey(q)) == Answer(KeyLess(NaturalKey(p), NaturalKey(q)))
  {
    PyKeyLessWhenKindsAgree(NaturalKey(p), NaturalKey(q));
  }

  lemma PartLessIsStrictTotal()
    ensures StrictTotalOrder(PartLess)
  {
    StrLessIsStrictTotal();
    forall a, b, c | PartLess(a, b) && PartLess(b, c) ensures PartLess(a, c) {
      if a.Text? && b.Text? && c.Text? {
        assert StrLess(a.text, b.text) && StrLess(b.text, c.text);
      }
    }
    forall a, b ensures a == b || PartLess(a, b) || PartLess(b, a) {
      if a.Text? && b.Text? {
        assert a.text == b.text || StrLess(a.text, b.text) || StrLess(b.text, a.text);
      }
    }
  }

  lemma KeyLessIsStrictTotal()
    ensures StrictTotalOrder(KeyLess)
  {
    PartLessIsStrictTotal();
    LexIsStrictTotal(PartLess, KeyLess);
  }

  /** `sorted(paths, key=_natural_key)`: a permutation of the input, in
      non-decreasing natural-key order, with equal keys in input order. */
  function NaturalSort(paths: seq<Path>): (r: seq<Path>)
    ensures multiset(r) == multiset(paths)
    ensures SortedBy(r, NaturalKey, KeyLess)
    ensures StableFor(r, paths, NaturalKey)
  {
    KeyLessIsStrictTotal();
    SortByPermutes(paths, NaturalKey, KeyLess);
    SortBySorted(paths, NaturalKey, KeyLess);
    SortByStable(paths, NaturalKey, KeyLess);
    SortBy(paths, NaturalKey, KeyLess)
  }

  // ---------------------------------------------------------------- digit suffixes

  /** A string of digits is one digit run between two empty texts. */
  lemma {:induction false} DigitRunsOfDigits(d: string)
    requires IsAllDigits(d)
    ensures DigitRuns(d) == ["", d, ""]
    decreases |d|
  {
    assert IsDigit(d[0]);
    if |d| == 1 {
      assert d[1..] == "" && d == [d[0]];
    } else {
      assert IsAllDigits(d[1..]);
      DigitRunsOfDigits(d[1..]);
      assert d == [d[0]] + d[1..];
    }
  }

  /** Appending a digit run to a text that does not end in a digit adds one
      number and one empty text to the runs. */
  lemma {:induction false} DigitRunsAppendDigits(a: string, d: string)
    requires |a| == 0 || !IsDigit(a[|a| - 1])
    requires IsAllDigits(d)
    ensures DigitRuns(a + d) == DigitRuns(a) + [d, ""]
    decreases |a|
  {
    if |a| == 0 {
      assert a + d == d;
      DigitRunsOfDigits(d);
    } else {
      var s := a + d;
      var a' := a[1..];
      assert s[1..] == a' + d && s[0] == a[0];
      if |a'| == 0 {
        DigitRunsOfDigits(d);
        assert a' + d == d;
        assert DigitRuns(a) == [[a[0]] + ""] by { assert a[1..] == ""; }
      } else {
        assert a'[|a'| - 1] == a[|a| - 1];
        DigitRunsAppendDigits(a', d);
        RunShapesAppend(a[0], DigitRuns(a'), [d, ""]);
      }
    }
  }

  /** Each of the three ways `DigitRuns` puts a character in front of the
      runs of the rest commutes with appending runs at the back. */
  lemma RunShapesAppend(c: char, r: seq<string>, x: seq<string>)
    requires |r| > 0
    ensures [[c] + (r + x)[0]] + (r + x)[1..] == [[c] + r[0]] + r[1..] + x
    ensures |r| > 1 ==> ["", [c] + (r + x)[1]] + (r + x)[2..] == ["", [c] + r[1]] + r[2..] + x
    ensures ["", [c]] + (r + x) == ["", [c]] + r + x
  {
    assert (r + x)[1..] == r[1..] + x;
    if |r| > 1 {
      assert (r + x)[2..] == r[2..] + x;
    }
  }

  /** The natural key of a text followed by a number: the text's key, then
      the number's value and an empty text. */
  lemma StemKeyAppendDigits(a: string, d: string)
    requires |a| == 0 || !IsDigit(a[|a| - 1])
    requires IsAllDigits(d)
    ensures StemKey(a + d) == StemKey(a) + [Num(DigitsValue(d)), Text("")]
  {
    DigitRunsAppendDigits(a, d);
    var runs := DigitRuns(a);
    assert DigitRuns(a + d) == runs + [d, ""];
    assert ToPart("") == Text("");
    assert ToPart(d) == Num(DigitsValue(d));
  }

  /** Digit runs compare by integer value: with the same text in front, the
      smaller number sorts first and equal values (say `7` and `007`) tie. */
  lemma NumberSuffixOrder(a: string, d1: string, d2: string)
    requires |a| == 0 || !IsDigit(a[|a| - 1])
    requires IsAllDigits(d1) && IsAllDigits(d2)
    ensures KeyLess(StemKey(a + d1), StemKey(a + d2)) <==> DigitsValue(d1) < DigitsValue(d2)
    ensures StemKey(a + d1) == StemKey(a + d2) <==> DigitsValue(d1) == DigitsValue(d2)
  {
    StemKeyAppendDigits(a, d1);
    StemKeyAppendDigits(a, d2);
    var v1, v2 := DigitsValue(d1), DigitsValue(d2);
    LexCommonPrefix(StemKey(a), [Num(v1), Text("")], [Num(v2), Text("")], PartLess);
    if v1 == v2 {
      LexIrreflexive([Num(v1), Text("")], PartLess);
    } else {
      assert StemKey(a + d1)[|StemKey(a)|] == Num(v1);
    }
  }

  // ---------------------------------------------------------------- case

  lemma LowerKeepsDigits(s: string)
    ensures forall i | 0 <= i < |s| :: IsDigit(Lower(s)[i]) <==> IsDigit(s[i])
  {
  }

  /** `lr` is `r` with every run lower-cased. */
  ghost predicate LoweredRuns(lr: seq<string>, r: seq<string>) {
    |lr| == |r| && forall i | 0 <= i < |r| :: lr[i] == Lower(r[i])
  }

  /** Lower-casing a string lower-cases each of its runs and keeps them apart. */
  lemma {:induction false} DigitRunsOfLower(s: string)
    ensures LoweredRuns(DigitRuns(Lower(s)), DigitRuns(s))
    decreases |s|
  {
    if |s| > 0 {
      var l := Lower(s);
      var c := s[0];
      assert l[0] == LowerChar(c) && l[1..] == Lower(s[1..]);
      assert IsDigit(l[0]) <==> IsDigit(c);
      DigitRunsOfLower(s[1..]);
      LowerRunsStep(c, DigitRuns(s[1..]), DigitRuns(l[1..]));
    }
  }

  /** One step of `DigitRuns` commutes with lower-casing. */
  lemma LowerRunsStep(c: char, rest: seq<string>, lrest: seq<string>)
    requires |rest| > 0 && LoweredRuns(lrest, rest)
    ensures !IsDigit(c) ==>
      LoweredRuns([[LowerChar(c)] + lrest[0]] + lrest[1..], [[c] + rest[0]] + rest[1..])
    ensures IsDigit(c) && |rest| > 1 ==>
      LoweredRuns(["", [c] + lrest[1]] + lrest[2..], ["", [c] + rest[1]] + rest[2..])
    ensures IsDigit(c) ==> LoweredRuns(["", [c]] + lrest, ["", [c]] + rest)
  {
    LowerConcat([c], rest[0]);
    assert Lower("") == "";
    if IsDigit(c) {
      assert Lower([c]) == [c];
      if |rest| > 1 {
        LowerConcat([c], rest[1]);
      }
    }
  }

  lemma LowerConcat(x: string, y: string)
    ensures Lower(x + y) == Lower(x) + Lower(y)
  {
  }

  lemma ToPartOfLower(run: string)
    ensures ToPart(Lower(run)) == ToPart(run)
  {
    if IsAllDigits(run) {
      assert Lower(run) == run;
    } else {
      assert !IsAllDigits(Lower(run));
      assert Lower(Lower(run)) == Lower(run);
    }
  }

  /** Text runs compare case-insensitively: lower-casing a stem does not
      change its natural key. */
  lemma StemKeyIgnoresCase(stem: string)
    ensures StemKey(Lower(stem)) == StemKey(stem)
  {
    DigitRunsOfLower(stem);
    var runs := DigitRuns(stem);
    forall i | 0 <= i < |runs| ensures ToPart(Lower(runs[i])) == ToPart(runs[i]) {
      ToPartOfLower(runs[i]);
    }
    assert MapSeq(ToPart, DigitRuns(Lower(stem))) == MapSeq(ToPart, runs);
  }
}
