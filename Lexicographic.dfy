/** Python's `<` on strings and on lists: lexicographic comparison, where the
    first differing position decides and a proper prefix is smaller. */
module Lexicographic {

  /** `less` is irreflexive, transitive and relates any two distinct values. */
  ghost predicate StrictTotalOrder<T(!new)>(less: (T, T) -> bool)
  {
    && (forall x :: !less(x, x))
    && (forall x, y, z :: less(x, y) && less(y, z) ==> less(x, z))
    && (forall x, y :: x != y ==> less(x, y) || less(y, x))
  }

  /** Lexicographic extension of `less` to sequences. */
  predicate LexLess<T(==)>(s: seq<T>, t: seq<T>, less: (T, T) -> bool): (b: bool)
    ensures |s| < |t| && s == t[..|s|] ==> b
  {
    if |s| == 0 then |t| > 0
    else if |t| == 0 then false
    else
      assert |s| < |t| && s == t[..|s|] ==> s[0] == t[0] && s[1..] == t[1..][..|s| - 1];
      less(s[0], t[0]) || (s[0] == t[0] && LexLess(s[1..], t[1..], less))
  }

  function CharLess(c: char, d: char): bool
  {
    c < d
  }

  /** Python's `<` on two strings: code point by code point, a proper
      prefix being smaller. */
  predicate StrLess(s: string, t: string): (b: bool)
    ensures |s| < |t| && s == t[..|s|] ==> b
    ensures b ==> s != t
  {
    assert StrictTotalOrder(CharLess);
    LexIrreflexive(s, CharLess);
    LexLess(s, t, CharLess)
  }

  /** Python's `<` on two lists of strings, element by element with `<` on
      strings, a proper prefix being smaller. */
  predicate StrListLess(s: seq<string>, t: seq<string>): (b: bool)
    ensures |s| < |t| && s == t[..|s|] ==> b
    ensures b ==> s != t
  {
    StrLessIsStrictTotalOrder();
    LexIrreflexive(s, StrLess);
    LexLess(s, t, StrLess)
  }

  lemma {:induction false} LexIrreflexive<T(!new)>(s: seq<T>, less: (T, T) -> bool)
    requires StrictTotalOrder(less)
    ensures !LexLess(s, s, less)
  {
    if |s| > 0 {
      LexIrreflexive(s[1..], less);
    }
  }

  lemma {:induction false} LexTransitive<T(!new)>(s: seq<T>, t: seq<T>, u: seq<T>, less: (T, T) -> bool)
    requires StrictTotalOrder(less)
    requires LexLess(s, t, less) && LexLess(t, u, less)
    ensures LexLess(s, u, less)
  {
    if |s| > 0 && |t| > 0 && |u| > 0 && s[0] == t[0] == u[0] {
      LexTransitive(s[1..], t[1..], u[1..], less);
    }
  }

  lemma {:induction false} LexTotal<T(!new)>(s: seq<T>, t: seq<T>, less: (T, T) -> bool)
    requires StrictTotalOrder(less)
    requires s != t
    ensures LexLess(s, t, less) || LexLess(t, s, less)
  {
    if |s| > 0 && |t| > 0 && s[0] == t[0] {
      assert s == [s[0]] + s[1..] && t == [t[0]] + t[1..];
      LexTotal(s[1..], t[1..], less);
    }
  }

  /** Python's `<` on strings is a strict total order. */
  lemma StrLessIsStrictTotalOrder()
    ensures StrictTotalOrder(StrLess)
  {
    assert StrictTotalOrder(CharLess);
    forall s: string ensures !StrLess(s, s) {
      LexIrreflexive(s, CharLess);
    }
    forall s: string, t: string, u: string | StrLess(s, t) && StrLess(t, u) ensures StrLess(s, u) {
      LexTransitive(s, t, u, CharLess);
    }
    forall s: string, t: string | s != t ensures StrLess(s, t) || StrLess(t, s) {
      LexTotal(s, t, CharLess);
    }
  }

  /** Python's `<` on lists of strings is a strict total order. */
  lemma StrListLessIsStrictTotalOrder()
    ensures StrictTotalOrder(StrListLess)
  {
    StrLessIsStrictTotalOrder();
    forall s: seq<string> ensures !StrListLess(s, s) {
      LexIrreflexive(s, StrLess);
    }
    forall s: seq<string>, t: seq<string>, u: seq<string> | StrListLess(s, t) && StrListLess(t, u)
      ensures StrListLess(s, u)
    {
      LexTransitive(s, t, u, StrLess);
    }
    forall s: seq<string>, t: seq<string> | s != t ensures StrListLess(s, t) || StrListLess(t, s) {
      LexTotal(s, t, StrLess);
    }
  }
}
