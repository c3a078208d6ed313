/** Worked instances of the natural order on file names of the shape the
    splitter writes. */
module NaturalOrderExamples {
  import opened Paths
  import opened Ordering
  import opened Sorting
  import opened NaturalOrder

  /** In any directory, `a_page_9.pdf`, `a_page_10.pdf`, `a_page_2.pdf` sort
      as 2, 9, 10. */
  lemma PageNumbersSortNumerically(dir: Path)
    ensures NaturalSort([Join(dir, "a_page_9.pdf"), Join(dir, "a_page_10.pdf"), Join(dir, "a_page_2.pdf")])
         == [Join(dir, "a_page_2.pdf"), Join(dir, "a_page_9.pdf"), Join(dir, "a_page_10.pdf")]
  {
    var a, d2, d9, d10 := "a_page_", "2", "9", "10";
    assert "a_page_2.pdf" == a + d2 + ".pdf" && "a_page_9.pdf" == a + d9 + ".pdf";
    assert "a_page_10.pdf" == a + d10 + ".pdf";
    assert !IsDigit(a[|a| - 1]);
    assert IsAllDigits(d2) && IsAllDigits(d9) && IsAllDigits(d10);
    assert DigitsValue(d2) == 2 && DigitsValue(d9) == 9 && DigitsValue(d10) == 10;
    NumberedNamesOrder(dir, a, d2, d9);
    NumberedNamesOrder(dir, a, d9, d10);
    KeyLessIsStrictTotal();
    SortThree(Join(dir, a + d9 + ".pdf"), Join(dir, a + d10 + ".pdf"), Join(dir, a + d2 + ".pdf"), NaturalKey, KeyLess);
  }

  /** Two names that differ only in a trailing number order by that number. */
  lemma NumberedNamesOrder(dir: Path, a: string, d1: string, d2: string)
    requires |a| > 0 && '/' !in a && !IsDigit(a[|a| - 1])
    requires IsAllDigits(d1) && IsAllDigits(d2) && DigitsValue(d1) < DigitsValue(d2)
    ensures KeyLess(NaturalKey(Join(dir, a + d1 + ".pdf")), NaturalKey(Join(dir, a + d2 + ".pdf")))
  {
    ExampleKey(dir, a, d1);
    ExampleKey(dir, a, d2);
    NumberSuffixOrder(a, d1, d2);
  }

  /** Sorting `[x, y, z]` whose keys are ordered `z < x < y`. */
  lemma SortThree<T, K(!new)>(x: T, y: T, z: T, key: T -> K, less: (K, K) -> bool)
    requires StrictTotalOrder(less)
    requires less(key(z), key(x)) && less(key(x), key(y))
    ensures SortBy([x, y, z], key, less) == [z, x, y]
  {
    var s := [x, y, z];
    assert s[1..] == [y, z] && s[1..][1..] == [z] && s[1..][1..][1..] == [];
    assert !less(key(y), key(x));
    assert SortBy([z], key, less) == [z];
    assert [z][1..] == [] && Insert(y, [z], key, less) == [z, y];
    assert SortBy([y, z], key, less) == [z, y];
    assert [z, y][1..] == [y];
    assert Insert(x, [y], key, less) == [x, y];
    assert Insert(x, [z, y], key, less) == [z, x, y];
  }

  /** `page_7` and `page_007` have the same natural key. */
  lemma ZeroPaddedNumbersTie(dir: Path)
    ensures NaturalKey(Join(dir, "page_7.pdf")) == NaturalKey(Join(dir, "page_007.pdf"))
  {
    var a, d1, d2 := "page_", "7", "007";
    ZeroPaddedParts(a, d1, d2);
    ExampleKey(dir, a, d1);
    ExampleKey(dir, a, d2);
    NumberSuffixOrder(a, d1, d2);
  }

  lemma ZeroPaddedParts(a: string, d1: string, d2: string)
    requires a == "page_" && d1 == "7" && d2 == "007"
    ensures "page_7.pdf" == a + d1 + ".pdf" && "page_007.pdf" == a + d2 + ".pdf"
    ensures |a| > 0 && '/' !in a && '/' !in d1 && '/' !in d2 && !IsDigit(a[|a| - 1])
    ensures IsAllDigits(d1) && IsAllDigits(d2) && DigitsValue(d1) == DigitsValue(d2)
  {
    var z := "00";
    assert d2 == z + d1;
    LeadingZeroValue(z, d1);
  }

  lemma ExampleKey(dir: Path, a: string, d: string)
    requires |a| > 0 && '/' !in a && '/' !in d
    ensures NaturalKey(Join(dir, a + d + ".pdf")) == StemKey(a + d)
  {
    var x := a + d;
    assert '/' !in x by {
      forall i | 0 <= i < |x| ensures x[i] != '/' {
        if i < |a| { assert x[i] == a[i]; } else { assert x[i] == d[i - |a|]; }
      }
    }
    PdfName(dir, x);
  }
}
