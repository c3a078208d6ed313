/** Python's `<` on the values the core compares: code-point order on
    characters, lexicographic order on lists and strings (a proper prefix
    sorts first), and integer order. */
module Ordering {

  ghost predicate Irreflexive<T(!new)>(less: (T, T) -> bool) {
    forall x :: !less(x, x)
  }

  ghost predicate Transitive<T(!new)>(less: (T, T) -> bool) {
    forall x, y, z :: less(x, y) && less(y, z) ==> less(x, z)
  }

  ghost predicate Trichotomous<T(!new)>(less: (T, T) -> bool) {
    forall x, y :: x == y || less(x, y) || less(y, x)
  }

  /** A strict total order: the condition under which Python's `sorted`
      yields a sorted, stable arrangement of its input. */
  ghost predicate StrictTotalOrder<T(!new)>(less: (T, T) -> bool) {
    Irreflexive(less) && Transitive(less) && Trichotomous(less)
  }

  /** Python's `<` on two lists (or strings) whose elements compare by `less`:
      the first differing position decides; otherwise the shorter is less. */
  function LexLess<T(==)>(a: seq<T>, b: seq<T>, less: (T, T) -> bool): bool
    decreases |a|
  {
    if |a| == 0 then |b| > 0
    else if |b| == 0 then false
    else if a[0] == b[0] then LexLess(a[1..], b[1..], less)
    else less(a[0], b[0])
  }

  lemma {:induction false} LexIrreflexive<T>(a: seq<T>, less: (T, T) -> bool)
    ensures !LexLess(a, a, less)
    decreases |a|
  {
    if |a| > 0 {
      LexIrreflexive(a[1..], less);
    }
  }

  lemma {:induction false} LexTransitive<T(!new)>(a: seq<T>, b: seq<T>, c: seq<T>, less: (T, T) -> bool)
    requires StrictTotalOrder(less)
    requires LexLess(a, b, less) && LexLess(b, c, less)
    ensures LexLess(a, c, less)
    decreases |a|
  {
    if |a| > 0 && |b| > 0 && |c| > 0 && a[0] == b[0] && b[0] == c[0] {
      LexTransitive(a[1..], b[1..], c[1..], less);
    }
  }

  lemma {:induction false} LexTrichotomous<T(!new)>(a: seq<T>, b: seq<T>, less: (T, T) -> bool)
    requires StrictTotalOrder(less)
    ensures a == b || LexLess(a, b, less) || LexLess(b, a, less)
    decreases |a|
  {
    if |a| > 0 && |b| > 0 && a[0] == b[0] {
      LexTrichotomous(a[1..], b[1..], less);
      if a[1..] == b[1..] {
        assert a == [a[0]] + a[1..] && b == [b[0]] + b[1..];
      }
    }
  }

  /** A common prefix does not change the comparison. */
  lemma {:induction false} LexCommonPrefix<T>(p: seq<T>, a: seq<T>, b: seq<T>, less: (T, T) -> bool)
    ensures LexLess(p + a, p + b, less) == LexLess(a, b, less)
    decreases |p|
  {
    if |p| == 0 {
      assert p + a == a && p + b == b;
    } else {
      assert (p + a)[1..] == p[1..] + a;
      assert (p + b)[1..] == p[1..] + b;
      LexCommonPrefix(p[1..], a, b, less);
    }
  }

  // ---------------------------------------------------------------- instances

  /** Python compares characters by code point. */
  function CharLess(a: char, b: char): bool {
    a < b
  }

  /** Python's `<` on `str`. */
  function StrLess(a: string, b: string): bool {
    LexLess(a, b, CharLess)
  }

  /** Python's `<` on `int`. */
  function NatLess(a: nat, b: nat): bool {
    a < b
  }

  lemma CharLessIsStrictTotal()
    ensures StrictTotalOrder(CharLess)
  {
  }

  /** Lexicographic extension of a strict total order is a strict total order. */
  lemma LexIsStrictTotal<T(!new)>(less: (T, T) -> bool, lex: (seq<T>, seq<T>) -> bool)
    requires StrictTotalOrder(less)
    requires forall a, b :: lex(a, b) == LexLess(a, b, less)
    ensures StrictTotalOrder(lex)
  {
    forall a ensures !lex(a, a) {
      LexIrreflexive(a, less);
    }
    forall a, b, c | lex(a, b) && lex(b, c) ensures lex(a, c) {
      LexTransitive(a, b, c, less);
    }
    forall a, b ensures a == b || lex(a, b) || lex(b, a) {
      LexTrichotomous(a, b, less);
    }
  }

  lemma StrLessIsStrictTotal()
    ensures StrictTotalOrder(StrLess)
  {
    CharLessIsStrictTotal();
    LexIsStrictTotal(CharLess, StrLess);
  }

  lemma NatLessIsStrictTotal()
    ensures StrictTotalOrder(NatLess)
  {
  }
}
