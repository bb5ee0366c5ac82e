/**
 * The free comparison operators of `art::vector`, over the two operands'
 * element sequences. The element type's own `operator<` is the parameter
 * `less`; element `!=` is Dafny's equality.
 *
 * `operator<` and `operator<=` are modelled as written. Neither is the
 * lexicographic order: `Lex` below is that order, with the lemmas that relate
 * the written operators to it.
 */
module Relational {

  function Min(a: nat, b: nat): nat
  {
    if a < b then a else b
  }

  /** The scan of `operator==` from position `i`: true when no pair at or
      after `i` differs. */
  function EqualFrom<T(==)>(lhs: seq<T>, rhs: seq<T>, i: nat): (r: bool)
    requires |lhs| == |rhs| && i <= |lhs|
    ensures r <==> forall j :: i <= j < |lhs| ==> lhs[j] == rhs[j]
    decreases |lhs| - i
  {
    if i == |lhs| then true
    else if lhs[i] != rhs[i] then false
    else EqualFrom(lhs, rhs, i + 1)
  }

  /** `operator==`: the sizes must match, then every pair. */
  function Equal<T(==)>(lhs: seq<T>, rhs: seq<T>): (r: bool)
    ensures r <==> |lhs| == |rhs| && forall i :: 0 <= i < |lhs| ==> lhs[i] == rhs[i]
    ensures r <==> lhs == rhs
  {
    if |lhs| != |rhs| then false else EqualFrom(lhs, rhs, 0)
  }

  /** `operator!=`: `!(lhs == rhs)`. */
  function NotEqual<T(==)>(lhs: seq<T>, rhs: seq<T>): (r: bool)
    ensures r <==> lhs != rhs
  {
    !Equal(lhs, rhs)
  }

  /** The loop of `operator<` from position `i` below `n`: true as soon as
      some pair has `lhs[j] < rhs[j]`, and otherwise `|lhs| < |rhs|`. */
  function LessFrom<T>(lhs: seq<T>, rhs: seq<T>, less: (T, T) -> bool, i: nat, n: nat): (r: bool)
    requires i <= n <= |lhs| && n <= |rhs|
    ensures r <==> (exists j :: i <= j < n && less(lhs[j], rhs[j])) || |lhs| < |rhs|
    decreases n - i
  {
    if i == n then |lhs| < |rhs|
    else if less(lhs[i], rhs[i]) then true
    else LessFrom(lhs, rhs, less, i + 1, n)
  }

  /** `operator<` as written: some common position with `lhs[i] < rhs[i]`,
      or a shorter `lhs`. An earlier pair with `rhs[i] < lhs[i]` does not
      stop the scan. */
  function Less<T>(lhs: seq<T>, rhs: seq<T>, less: (T, T) -> bool): (r: bool)
    ensures r <==> (exists i :: 0 <= i < |lhs| && i < |rhs| && less(lhs[i], rhs[i])) || |lhs| < |rhs|
  {
    LessFrom(lhs, rhs, less, 0, Min(|lhs|, |rhs|))
  }

  /** The loop of `operator<=` from position `i` below `n`: the same scan as
      `operator<`, ending in `|lhs| == |rhs|`. */
  function LessEqFrom<T>(lhs: seq<T>, rhs: seq<T>, less: (T, T) -> bool, i: nat, n: nat): (r: bool)
    requires i <= n <= |lhs| && n <= |rhs|
    ensures r <==> (exists j :: i <= j < n && less(lhs[j], rhs[j])) || |lhs| == |rhs|
    decreases n - i
  {
    if i == n then |lhs| == |rhs|
    else if less(lhs[i], rhs[i]) then true
    else LessEqFrom(lhs, rhs, less, i + 1, n)
  }

  /** `operator<=` as written. */
  function LessEq<T>(lhs: seq<T>, rhs: seq<T>, less: (T, T) -> bool): (r: bool)
    ensures r <==> (exists i :: 0 <= i < |lhs| && i < |rhs| && less(lhs[i], rhs[i])) || |lhs| == |rhs|
  {
    LessEqFrom(lhs, rhs, less, 0, Min(|lhs|, |rhs|))
  }

  /** `operator>`: `rhs < lhs`. */
  function Greater<T>(lhs: seq<T>, rhs: seq<T>, less: (T, T) -> bool): (r: bool)
    ensures r <==> (exists i :: 0 <= i < |lhs| && i < |rhs| && less(rhs[i], lhs[i])) || |rhs| < |lhs|
  {
    Less(rhs, lhs, less)
  }

  /** `operator>=`: `rhs <= lhs`. */
  function GreaterEq<T>(lhs: seq<T>, rhs: seq<T>, less: (T, T) -> bool): (r: bool)
    ensures r <==> (exists i :: 0 <= i < |lhs| && i < |rhs| && less(rhs[i], lhs[i])) || |rhs| == |lhs|
  {
    LessEq(rhs, lhs, less)
  }

  // -------------------------------------------------------------------------
  // The lexicographic order the operators are meant to implement.

  /** Lexicographic `<`: the first pair that differs under `less` decides; if
      none does, the shorter sequence is the smaller. */
  function Lex<T>(lhs: seq<T>, rhs: seq<T>, less: (T, T) -> bool): bool
    decreases |lhs|
  {
    if |lhs| == 0 then |rhs| > 0
    else if |rhs| == 0 then false
    else if less(lhs[0], rhs[0]) then true
    else if less(rhs[0], lhs[0]) then false
    else Lex(lhs[1..], rhs[1..], less)
  }

  /** Lexicographic `<=`: `!(rhs < lhs)`. */
  function LexLessEq<T>(lhs: seq<T>, rhs: seq<T>, less: (T, T) -> bool): bool
  {
    !Lex(rhs, lhs, less)
  }

  ghost predicate Irreflexive<T(!new)>(less: (T, T) -> bool)
  {
    forall x :: !less(x, x)
  }

  ghost predicate Asymmetric<T(!new)>(less: (T, T) -> bool)
  {
    forall x, y :: less(x, y) ==> !less(y, x)
  }

  /** A strict total order: asymmetric, and any two distinct values are
      ordered one way or the other. */
  ghost predicate StrictTotal<T(!new)>(less: (T, T) -> bool)
  {
    Asymmetric(less) && forall x, y :: x != y ==> less(x, y) || less(y, x)
  }

  /** Whatever is lexicographically smaller is also smaller under the written
      `operator<`: the written operator errs only by saying "less" too often. */
  lemma {:induction false} LexImpliesLess<T>(lhs: seq<T>, rhs: seq<T>, less: (T, T) -> bool)
    ensures Lex(lhs, rhs, less) ==> Less(lhs, rhs, less)
    decreases |lhs|
  {
    if Lex(lhs, rhs, less) && |lhs| > 0 && |rhs| > 0
       && !less(lhs[0], rhs[0]) && !less(rhs[0], lhs[0]) {
      LexImpliesLess(lhs[1..], rhs[1..], less);
      if i :| 0 <= i < |lhs| - 1 && i < |rhs| - 1 && less(lhs[1..][i], rhs[1..][i]) {
        assert less(lhs[i + 1], rhs[i + 1]);
      }
    }
  }

  /** The lexicographic order is asymmetric for an asymmetric element order. */
  lemma {:induction false} LexAsymmetric<T(!new)>(lhs: seq<T>, rhs: seq<T>, less: (T, T) -> bool)
    requires Asymmetric(less)
    ensures Lex(lhs, rhs, less) ==> !Lex(rhs, lhs, less)
    decreases |lhs|
  {
    if |lhs| > 0 && |rhs| > 0 && !less(lhs[0], rhs[0]) && !less(rhs[0], lhs[0]) {
      LexAsymmetric(lhs[1..], rhs[1..], less);
    }
  }

  /** For a strict total element order, exactly one of `lhs < rhs`,
      `lhs == rhs`, `rhs < lhs` holds lexicographically. */
  lemma {:induction false} LexTrichotomy<T(!new)>(lhs: seq<T>, rhs: seq<T>, less: (T, T) -> bool)
    requires StrictTotal(less)
    ensures Lex(lhs, rhs, less) || lhs == rhs || Lex(rhs, lhs, less)
    ensures lhs == rhs ==> !Lex(lhs, rhs, less)
    decreases |lhs|
  {
    LexAsymmetric(lhs, rhs, less);
    if |lhs| > 0 && |rhs| > 0 && !less(lhs[0], rhs[0]) && !less(rhs[0], lhs[0]) {
      LexTrichotomy(lhs[1..], rhs[1..], less);
      assert lhs[0] == rhs[0];
      if lhs[1..] == rhs[1..] {
        assert lhs == [lhs[0]] + lhs[1..] && rhs == [rhs[0]] + rhs[1..];
      }
    }
  }

  /** A prefix is lexicographically at most the whole, for an irreflexive
      element order. */
  lemma {:induction false} LexPrefixLessEq<T(!new)>(s: seq<T>, k: nat, less: (T, T) -> bool)
    requires k <= |s| && Irreflexive(less)
    ensures LexLessEq(s[..k], s, less)
    decreases k
  {
    if k > 0 {
      assert !less(s[0], s[0]);
      LexPrefixLessEq(s[1..], k - 1, less);
      assert s[..k][1..] == s[1..][..k - 1];
    }
  }

  function IntLess(x: int, y: int): bool
  {
    x < y
  }

  /** The written `operator<` is not an order: [2, 1] < [1, 2] and
      [1, 2] < [2, 1] both hold, while lexicographically only the second
      does. */
  lemma LessNotAsymmetric()
    ensures Less([2, 1], [1, 2], IntLess) && Less([1, 2], [2, 1], IntLess)
    ensures !Lex([2, 1], [1, 2], IntLess) && Lex([1, 2], [2, 1], IntLess)
  {
    assert IntLess([2, 1][1], [1, 2][1]);
    assert IntLess([1, 2][0], [2, 1][0]);
  }

  /** The written `operator<=` rejects a proper prefix: [1] <= [1, 2] is
      false, while lexicographically it holds. */
  lemma LessEqPrefixCounterexample()
    ensures !LessEq([1], [1, 2], IntLess)
    ensures LexLessEq([1], [1, 2], IntLess)
  {
    assert [1, 2][..1] == [1];
    LexPrefixLessEq([1, 2], 1, IntLess);
  }
}
