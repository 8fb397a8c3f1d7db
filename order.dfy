/**
  Python compares strings and lists lexicographically: the first position
  where the two sequences differ decides, and a proper prefix comes first.
  The cache of `FastEditDistance` keeps its keys in that order (`bisect`),
  and `_shift` / `align` pick the least candidate tuple under it.
  This module defines that order once, for any element order, and proves
  that it is a strict total order whenever the element order is one.
*/
module LexOrder {

  ghost predicate Irreflexive<T(!new)>(less: (T, T) -> bool) {
    forall x :: !less(x, x)
  }

  ghost predicate Transitive<T(!new)>(less: (T, T) -> bool) {
    forall x, y, z :: less(x, y) && less(y, z) ==> less(x, z)
  }

  ghost predicate Trichotomous<T(!new)>(less: (T, T) -> bool) {
    forall x, y :: x == y || less(x, y) || less(y, x)
  }

  ghost predicate StrictTotalOrder<T(!new)>(less: (T, T) -> bool) {
    Irreflexive(less) && Transitive(less) && Trichotomous(less)
  }

  /** Python's `a < b` on two sequences whose elements are compared by `less`. */
  predicate LexLess<T(==)>(a: seq<T>, b: seq<T>, less: (T, T) -> bool)
    decreases |a|
  {
    if |a| == 0 then |b| > 0
    else if |b| == 0 then false
    else if a[0] == b[0] then LexLess(a[1..], b[1..], less)
    else less(a[0], b[0])
  }

  lemma {:induction false} LexIrreflexive<T>(a: seq<T>, less: (T, T) -> bool)
    ensures !LexLess(a, a, less)
    decreases |a|
  {
    if |a| > 0 {
      LexIrreflexive(a[1..], less);
    }
  }

  lemma {:induction false} LexTransitive<T(!new)>(a: seq<T>, b: seq<T>, c: seq<T>, less: (T, T) -> bool)
    requires Irreflexive(less) && Transitive(less)
    requires LexLess(a, b, less) && LexLess(b, c, less)
    ensures LexLess(a, c, less)
    decreases |a|
  {
    if |a| > 0 && a[0] == b[0] && b[0] == c[0] {
      LexTransitive(a[1..], b[1..], c[1..], less);
    } else if |a| > 0 && a[0] != b[0] && b[0] != c[0] {
      assert less(a[0], b[0]) && less(b[0], c[0]);
    }
  }

  lemma {:induction false} LexTrichotomous<T(!new)>(a: seq<T>, b: seq<T>, less: (T, T) -> bool)
    requires Trichotomous(less)
    ensures a == b || LexLess(a, b, less) || LexLess(b, a, less)
    decreases |a|
  {
    if |a| > 0 && |b| > 0 && a[0] == b[0] {
      LexTrichotomous(a[1..], b[1..], less);
      if a[1..] == b[1..] {
        assert a == [a[0]] + a[1..] && b == [b[0]] + b[1..];
      }
    }
  }

  /** The lexicographic extension of a strict total order is a strict total order. */
  lemma LexStrictTotal<T(!new)>(less: (T, T) -> bool)
    requires StrictTotalOrder(less)
    ensures forall a: seq<T> :: !LexLess(a, a, less)
    ensures forall a: seq<T>, b: seq<T>, c: seq<T> ::
              LexLess(a, b, less) && LexLess(b, c, less) ==> LexLess(a, c, less)
    ensures forall a: seq<T>, b: seq<T> :: a == b || LexLess(a, b, less) || LexLess(b, a, less)
  {
    forall a: seq<T> ensures !LexLess(a, a, less) {
      LexIrreflexive(a, less);
    }
    forall a: seq<T>, b: seq<T>, c: seq<T> | LexLess(a, b, less) && LexLess(b, c, less)
      ensures LexLess(a, c, less)
    {
      LexTransitive(a, b, c, less);
    }
    forall a: seq<T>, b: seq<T> ensures a == b || LexLess(a, b, less) || LexLess(b, a, less) {
      LexTrichotomous(a, b, less);
    }
  }

  /** Python's `<` on two characters compares code points. */
  predicate CharLess(a: char, b: char) {
    a < b
  }

  /** Python's `<` on two strings (tokens). */
  predicate TokenLess(a: string, b: string) {
    LexLess(a, b, CharLess)
  }

  /** Python's `<` on two lists of strings (hypotheses). */
  predicate TokensLess(a: seq<string>, b: seq<string>) {
    LexLess(a, b, TokenLess)
  }

  lemma TokenOrder()
    ensures StrictTotalOrder(TokenLess)
  {
    assert StrictTotalOrder(CharLess);
    LexStrictTotal(CharLess);
  }

  lemma TokensOrder()
    ensures StrictTotalOrder(TokensLess)
  {
    TokenOrder();
    LexStrictTotal(TokenLess);
  }

  /** Asymmetry, the form in which callers usually need the order. */
  lemma TokensLessAsymmetric(a: seq<string>, b: seq<string>)
    requires TokensLess(a, b)
    ensures !TokensLess(b, a)
  {
    TokensOrder();
  }

  /** The first least element of `xs`: what `sorted(xs)[0]` picks when
      `less` is the order the sort uses. Scanning left to right, an element
      replaces the current choice only when it is strictly smaller. */
  function Least<T>(xs: seq<T>, less: (T, T) -> bool): (m: T)
    requires |xs| > 0
    ensures m in xs
    decreases |xs|
  {
    if |xs| == 1 then xs[0]
    else
      var m := Least(xs[..|xs| - 1], less);
      if less(xs[|xs| - 1], m) then xs[|xs| - 1] else m
  }

  /** No element of `xs` is strictly below `Least(xs, less)`. */
  lemma {:induction false} LeastIsMinimal<T(!new)>(xs: seq<T>, less: (T, T) -> bool)
    requires |xs| > 0
    requires Irreflexive(less) && Transitive(less)
    ensures forall x :: x in xs ==> !less(x, Least(xs, less))
    decreases |xs|
  {
    if |xs| > 1 {
      var init := xs[..|xs| - 1];
      LeastIsMinimal(init, less);
      assert xs == init + [xs[|xs| - 1]];
    }
  }

  /** `Least` over a growing prefix: the running minimum of a left-to-right scan. */
  lemma LeastOfPrefix<T>(xs: seq<T>, i: nat, less: (T, T) -> bool)
    requires i < |xs|
    ensures i == 0 ==> Least(xs[..i + 1], less) == xs[0]
    ensures i > 0 ==> (Least(xs[..i + 1], less) ==
                       if less(xs[i], Least(xs[..i], less)) then xs[i] else Least(xs[..i], less))
  {
    assert xs[..i + 1][..i] == xs[..i];
  }
}
