/** Strings as file paths: `str.split`, the last path component, the pathlib
    suffix and stem, ASCII lower-casing, and decimal digit strings. */
module Paths {
  import opened Seqs

  type Path = string

  // ---------------------------------------------------------------- digits

  predicate IsDigit(c: char) {
    '0' <= c <= '9'
  }

  /** `str.isdigit()` restricted to ASCII: non-empty and only digits. */
  predicate IsAllDigits(s: string) {
    |s| > 0 && forall i | 0 <= i < |s| :: IsDigit(s[i])
  }

  /** No character of `s` is a digit. */
  predicate NoDigits(s: string) {
    forall i | 0 <= i < |s| :: !IsDigit(s[i])
  }

  /** `int(s)` for a string of decimal digits. */
  function DigitsValue(s: string): nat
    requires forall i | 0 <= i < |s| :: IsDigit(s[i])
  {
    if |s| == 0 then 0
    else
      var last := s[|s| - 1];
      assert IsDigit(last);
      10 * DigitsValue(s[..|s| - 1]) + (last as int - '0' as int)
  }

  function DigitChar(d: nat): (c: char)
    requires d < 10
    ensures IsDigit(c) && c as int - '0' as int == d
  {
    ('0' as int + d) as char
  }

  /** `str(n)`: the decimal digits of `n`, with no leading zero. */
  function NatToDigits(n: nat): (r: string)
    ensures IsAllDigits(r)
    ensures DigitsValue(r) == n
    ensures r[0] == '0' ==> r == "0"
  {
    if n < 10 then [DigitChar(n)]
    else
      var a := NatToDigits(n / 10);
      var r := a + [DigitChar(n % 10)];
      assert r[..|r| - 1] == a;
      r
  }

  lemma NatToDigitsInjective(m: nat, n: nat)
    ensures NatToDigits(m) == NatToDigits(n) ==> m == n
  {
  }

  /** Leading zeros do not change the value of a digit string. */
  lemma {:induction false} LeadingZeroValue(z: string, d: string)
    requires forall i | 0 <= i < |z| :: z[i] == '0'
    requires forall i | 0 <= i < |d| :: IsDigit(d[i])
    ensures forall i | 0 <= i < |z + d| :: IsDigit((z + d)[i])
    ensures DigitsValue(z + d) == DigitsValue(d)
    decreases |d|
  {
    if |d| == 0 {
      assert z + d == z;
      AllZerosValue(z);
    } else {
      var d' := d[..|d| - 1];
      assert (z + d)[..|z + d| - 1] == z + d';
      LeadingZeroValue(z, d');
    }
  }

  lemma {:induction false} AllZerosValue(z: string)
    requires forall i | 0 <= i < |z| :: z[i] == '0'
    ensures DigitsValue(z) == 0
    decreases |z|
  {
    if |z| > 0 {
      AllZerosValue(z[..|z| - 1]);
    }
  }

  // ---------------------------------------------------------------- split

  /** Position of the first `c` in `s`. */
  function IndexOf(s: string, c: char): (k: nat)
    requires c in s
    ensures k < |s| && s[k] == c && c !in s[..k]
  {
    if s[0] == c then 0 else 1 + IndexOf(s[1..], c)
  }

  /** `sep.join(parts)`. */
  function JoinWith(parts: seq<string>, sep: char): string
    requires |parts| > 0
  {
    if |parts| == 1 then parts[0] else parts[0] + [sep] + JoinWith(parts[1..], sep)
  }

  /** `s.split(sep)` with an explicit one-character separator: every
      occurrence separates, so empty parts are kept. */
  function Split(s: string, sep: char): (parts: seq<string>)
    ensures |parts| > 0
    ensures forall i | 0 <= i < |parts| :: sep !in parts[i]
    ensures JoinWith(parts, sep) == s
    decreases |s|
  {
    if sep !in s then [s]
    else
      var k := IndexOf(s, sep);
      var rest := Split(s[k + 1..], sep);
      assert s == s[..k] + [sep] + s[k + 1..];
      [s[..k]] + rest
  }

  /** Splitting undoes joining, when no part contains the separator. */
  lemma {:induction false} SplitJoinWith(parts: seq<string>, sep: char)
    requires |parts| > 0
    requires forall i | 0 <= i < |parts| :: sep !in parts[i]
    ensures Split(JoinWith(parts, sep), sep) == parts
    decreases |parts|
  {
    if |parts| > 1 {
      var s := JoinWith(parts, sep);
      var p := parts[0];
      assert s == p + [sep] + JoinWith(parts[1..], sep);
      assert sep in s by { assert s[|p|] == sep; }
      IndexOfAfterFree(p, sep, JoinWith(parts[1..], sep));
      assert s[..|p|] == p;
      assert s[|p| + 1..] == JoinWith(parts[1..], sep);
      SplitJoinWith(parts[1..], sep);
    }
  }

  lemma IndexOfAfterFree(p: string, sep: char, rest: string)
    requires sep !in p
    ensures sep in p + [sep] + rest
    ensures IndexOf(p + [sep] + rest, sep) == |p|
  {
    var s := p + [sep] + rest;
    assert s[|p|] == sep;
    assert s[..|p|] == p;
  }

  lemma {:induction false} JoinWithAppend(parts: seq<string>, x: string, sep: char)
    requires |parts| > 0
    ensures JoinWith(parts + [x], sep) == JoinWith(parts, sep) + [sep] + x
    decreases |parts|
  {
    if |parts| > 1 {
      assert (parts + [x])[1..] == parts[1..] + [x];
      JoinWithAppend(parts[1..], x, sep);
    }
  }

  /** The last part of `JoinWith` is a suffix of the joined string, and
      either the whole of it or preceded by a separator. */
  lemma {:induction false} JoinWithEndsWithLast(parts: seq<string>, sep: char)
    requires |parts| > 0
    ensures var s := JoinWith(parts, sep); var l := parts[|parts| - 1];
      |l| <= |s| && s[|s| - |l|..] == l
    ensures var s := JoinWith(parts, sep); var l := parts[|parts| - 1];
      |l| == |s| || s[|s| - |l| - 1] == sep
    decreases |parts|
  {
    if |parts| > 1 {
      JoinWithEndsWithLast(parts[1..], sep);
      var s, t, l := JoinWith(parts, sep), JoinWith(parts[1..], sep), parts[|parts| - 1];
      assert s == (parts[0] + [sep]) + t;
      assert |s| - |l| - 1 >= |parts[0]|;
      assert s[|s| - |l| - 1] == (if |l| == |t| then sep else t[|t| - |l| - 1]);
    }
  }

  lemma {:induction false} JoinWithConcat(p: seq<string>, q: seq<string>, sep: char)
    requires |p| > 0 && |q| > 0
    ensures JoinWith(p + q, sep) == JoinWith(p, sep) + [sep] + JoinWith(q, sep)
    decreases |p|
  {
    assert (p + q)[0] == p[0];
    if |p| == 1 {
      assert (p + q)[1..] == q;
    } else {
      assert (p + q)[1..] == p[1..] + q;
      JoinWithConcat(p[1..], q, sep);
    }
  }

  /** Splitting at a separator splits the two sides independently. */
  lemma SplitConcat(a: string, b: string, sep: char)
    ensures Split(a + [sep] + b, sep) == Split(a, sep) + Split(b, sep)
  {
    var p, q := Split(a, sep), Split(b, sep);
    JoinWithConcat(p, q, sep);
    assert forall i | 0 <= i < |p + q| :: sep !in (p + q)[i] by {
      forall i | 0 <= i < |p + q| ensures sep !in (p + q)[i] {
        if i < |p| { assert (p + q)[i] == p[i]; } else { assert (p + q)[i] == q[i - |p|]; }
      }
    }
    SplitJoinWith(p + q, sep);
  }

  /** A separator-free part between two separators is a token of its own. */
  lemma SplitAroundPart(a: string, d: string, b: string, sep: char)
    requires sep !in d
    ensures Split(a + [sep] + (d + [sep] + b), sep) == Split(a, sep) + [d] + Split(b, sep)
  {
    var tail := d + [sep] + b;
    SplitConcat(a, tail, sep);
    assert Split(d, sep) == [d];
    SplitConcat(d, b, sep);
    var x, y := Split(a, sep), Split(b, sep);
    assert x + ([d] + y) == x + [d] + y;
  }

  /** Every character of a part occurs in the joined string. */
  lemma {:induction false} JoinWithContains(parts: seq<string>, sep: char, i: nat, k: nat)
    requires i < |parts| && k < |parts[i]|
    ensures parts[i][k] in JoinWith(parts, sep)
    decreases i
  {
    var s := JoinWith(parts, sep);
    if i == 0 {
      if |parts| > 1 {
        assert s == parts[0] + ([sep] + JoinWith(parts[1..], sep));
      }
      assert s[k] == parts[0][k];
    } else {
      JoinWithContains(parts[1..], sep, i - 1, k);
      var t := JoinWith(parts[1..], sep);
      var m :| 0 <= m < |t| && t[m] == parts[i][k];
      assert s == (parts[0] + [sep]) + t;
      assert s[|parts[0]| + 1 + m] == t[m];
    }
  }

  // ---------------------------------------------------------------- names

  /** `os.path.basename(p)`, equally `Path(p).name` for a normalised path:
      what follows the last `/`. */
  function Name(p: Path): (name: string)
    ensures '/' !in name
    ensures |name| <= |p| && p[|p| - |name|..] == name
    ensures |name| == |p| || p[|p| - |name| - 1] == '/'
  {
    var parts := Split(p, '/');
    JoinWithEndsWithLast(parts, '/');
    parts[|parts| - 1]
  }

  /** A path without `/` is its own name. */
  lemma NameOfPlainPath(p: Path)
    requires '/' !in p
    ensures Name(p) == p
  {
  }

  /** `Path(dir) / name`. */
  function Join(dir: Path, name: string): Path {
    dir + "/" + name
  }

  /** Joining a name onto a directory and taking the name back gives it. */
  lemma NameOfJoin(dir: Path, name: string)
    requires '/' !in name
    ensures Name(Join(dir, name)) == name
  {
    var parts := Split(dir, '/');
    JoinWithAppend(parts, name, '/');
    assert JoinWith(parts + [name], '/') == Join(dir, name);
    SplitJoinWith(parts + [name], '/');
  }

  /** `str.rfind(c)`: the last position of `c`, or -1. */
  function RFind(s: string, c: char): (i: int)
    ensures -1 <= i < |s|
    ensures i >= 0 ==> s[i] == c
    ensures forall j | i < j < |s| :: s[j] != c
  {
    if |s| == 0 then -1
    else if s[|s| - 1] == c then |s| - 1
    else RFind(s[..|s| - 1], c)
  }

  /** Whether the name's last dot opens a pathlib suffix: not at the start and
      not at the end. */
  predicate HasSuffixDot(name: string) {
    var i := RFind(name, '.');
    0 < i < |name| - 1
  }

  /** The suffix of a file name: from its last dot, when that dot opens one. */
  function NameSuffix(name: string): (r: string)
    ensures r == "" || (r[0] == '.' && |r| >= 2 && '.' !in r[1..])
  {
    if HasSuffixDot(name) then name[RFind(name, '.')..] else ""
  }

  /** The stem of a file name: what comes before its suffix. */
  function NameStem(name: string): (r: string)
    ensures r + NameSuffix(name) == name
    ensures NameSuffix(name) != "" ==> |r| > 0
  {
    if HasSuffixDot(name) then
      var i := RFind(name, '.');
      assert name[..i] + name[i..] == name;
      name[..i]
    else
      name
  }

  /** `Path(p).suffix`. */
  function Suffix(p: Path): (r: string)
    ensures r == "" || (r[0] == '.' && |r| >= 2 && '.' !in r[1..])
  {
    NameSuffix(Name(p))
  }

  /** `Path(p).stem`. */
  function Stem(p: Path): (r: string)
    ensures r + Suffix(p) == Name(p)
    ensures Suffix(p) != "" ==> |r| > 0
  {
    NameStem(Name(p))
  }

  // ---------------------------------------------------------------- case

  function LowerChar(c: char): char {
    if 'A' <= c <= 'Z' then (c as int + 32) as char else c
  }

  /** `str.lower()` on ASCII letters; other characters are kept. */
  function Lower(s: string): (r: string)
    ensures |r| == |s|
    ensures forall i | 0 <= i < |s| :: r[i] == LowerChar(s[i])
  {
    seq(|s|, i requires 0 <= i < |s| => LowerChar(s[i]))
  }

  /** `Path(p).suffix.lower() == ".pdf"`. */
  predicate HasPdfSuffix(p: Path) {
    Lower(Suffix(p)) == ".pdf"
  }

  /** A name `x + ".pdf"` with non-empty, dot-free-ended `x` has stem `x` and
      a PDF suffix. */
  lemma PdfName(dir: Path, x: string)
    requires |x| > 0 && '/' !in x
    ensures Name(Join(dir, x + ".pdf")) == x + ".pdf"
    ensures Stem(Join(dir, x + ".pdf")) == x
    ensures HasPdfSuffix(Join(dir, x + ".pdf"))
  {
    var ext := "pdf";
    PdfNameHasNoSlash(x, ext);
    NameOfJoin(dir, x + ['.'] + ext);
    SuffixOfName(Join(dir, x + ['.'] + ext), x, ext);
    LowerOfPdf(['.'] + ext);
  }

  lemma LowerOfPdf(s: string)
    requires s == ".pdf"
    ensures Lower(s) == ".pdf"
  {
    assert forall i | 0 <= i < |s| :: LowerChar(s[i]) == s[i];
  }

  lemma PdfNameHasNoSlash(x: string, ext: string)
    requires '/' !in x && ext == "pdf"
    ensures '/' !in x + ['.'] + ext
    ensures x + ['.'] + ext == x + ".pdf"
  {
    var name := x + ['.'] + ext;
    forall i | 0 <= i < |name| ensures name[i] != '/' {
      if i < |x| { assert name[i] == x[i]; } else { assert name[i] in ".pdf"; }
    }
  }

  /** A name `x.ext`, with a non-empty `x` and a dot-free, non-empty `ext`,
      has suffix `.ext` and stem `x`. */
  lemma SuffixOfName(p: Path, x: string, ext: string)
    requires Name(p) == x + ['.'] + ext
    requires |x| > 0 && |ext| > 0 && '.' !in ext
    ensures Suffix(p) == ['.'] + ext
    ensures Stem(p) == x
  {
    var name := x + ['.'] + ext;
    RFindBeforeFree(x, '.', ext);
    assert HasSuffixDot(name);
    NameParts(x, ext);
  }

  lemma NameParts(x: string, ext: string)
    ensures (x + ['.'] + ext)[|x|..] == ['.'] + ext
    ensures (x + ['.'] + ext)[..|x|] == x
  {
  }

  /** The last `c` of `a + [c] + t` is the one after `a` when `t` has none. */
  lemma {:induction false} RFindBeforeFree(a: string, c: char, t: string)
    requires c !in t
    ensures RFind(a + [c] + t, c) == |a|
    decreases |t|
  {
    var s := a + [c] + t;
    if |t| > 0 {
      var t' := t[..|t| - 1];
      assert s[..|s| - 1] == a + [c] + t';
      assert s[|s| - 1] == t[|t| - 1];
      RFindBeforeFree(a, c, t');
    }
  }
}
