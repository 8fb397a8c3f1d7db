/**
  `edit_distance(s, t)`: the Levenshtein distance, computed by filling the
  (|s|+1) x (|t|+1) dynamic-programming matrix.  `Lev` is the recursive
  definition the matrix tabulates: cell (i, j) holds `Lev(s[..i], t[..j])`.
*/
module Levenshtein {
  import opened Tokens

  function Min3(a: int, b: int, c: int): (m: int)
    ensures m <= a && m <= b && m <= c
    ensures m == a || m == b || m == c
  {
    if a <= b && a <= c then a else if b <= c then b else c
  }

  /** Substitution cost of the last tokens: 0 when equal, 1 otherwise. */
  function Cost(a: Token, b: Token): nat {
    if a == b then 0 else 1
  }

  /** Unit-cost insert/delete/substitute distance, by the recurrence on the
      last tokens of both sequences. */
  function Lev(s: seq<Token>, t: seq<Token>): nat
    decreases |s| + |t|
  {
    if |s| == 0 then |t|
    else if |t| == 0 then |s|
    else Min3(Lev(s[..|s| - 1], t) + 1,
              Lev(s, t[..|t| - 1]) + 1,
              Lev(s[..|s| - 1], t[..|t| - 1]) + Cost(s[|s| - 1], t[|t| - 1]))
  }

  /** The recurrence as it is used on prefixes, cell (i, j) of the matrix. */
  lemma LevCell(s: seq<Token>, t: seq<Token>, i: nat, j: nat)
    requires 1 <= i <= |s| && 1 <= j <= |t|
    ensures Lev(s[..i], t[..j]) ==
            Min3(Lev(s[..i - 1], t[..j]) + 1,
                 Lev(s[..i], t[..j - 1]) + 1,
                 Lev(s[..i - 1], t[..j - 1]) + Cost(s[i - 1], t[j - 1]))
  {
    assert s[..i][..i - 1] == s[..i - 1];
    assert t[..j][..j - 1] == t[..j - 1];
  }

  /** Cell (i, j) from the three cells it depends on. */
  lemma CellFrom(s: seq<Token>, t: seq<Token>, i: nat, j: nat, up: int, left: int, diag: int)
    requires 1 <= i <= |s| && 1 <= j <= |t|
    requires up == Lev(s[..i - 1], t[..j]) && left == Lev(s[..i], t[..j - 1])
    requires diag == Lev(s[..i - 1], t[..j - 1])
    ensures Min3(up + 1, left + 1, diag + Cost(s[i - 1], t[j - 1])) == Lev(s[..i], t[..j])
  {
    LevCell(s, t, i, j);
  }

  lemma {:induction false} LevSymmetric(s: seq<Token>, t: seq<Token>)
    ensures Lev(s, t) == Lev(t, s)
    decreases |s| + |t|
  {
    if |s| > 0 && |t| > 0 {
      LevSymmetric(s[..|s| - 1], t);
      LevSymmetric(s, t[..|t| - 1]);
      LevSymmetric(s[..|s| - 1], t[..|t| - 1]);
    }
  }

  /** The distance is zero exactly for equal sequences. */
  lemma {:induction false} LevZeroIffEqual(s: seq<Token>, t: seq<Token>)
    ensures Lev(s, t) == 0 <==> s == t
    decreases |s| + |t|
  {
    if |s| > 0 && |t| > 0 {
      var s', t' := s[..|s| - 1], t[..|t| - 1];
      LevZeroIffEqual(s', t');
      assert s == s' + [s[|s| - 1]] && t == t' + [t[|t| - 1]];
      if s == t {
        assert s' == t';
      }
    }
  }

  /** Delete-all-insert-all bounds: at least the length difference, at most
      the longer length. */
  lemma {:induction false} LevBounds(s: seq<Token>, t: seq<Token>)
    ensures |s| - |t| <= Lev(s, t) && |t| - |s| <= Lev(s, t)
    ensures Lev(s, t) <= if |s| < |t| then |t| else |s|
    decreases |s| + |t|
  {
    if |s| > 0 && |t| > 0 {
      LevBounds(s[..|s| - 1], t);
      LevBounds(s, t[..|t| - 1]);
      LevBounds(s[..|s| - 1], t[..|t| - 1]);
    }
  }

  /** Row `p` of the matrix against `t`: the distances of `p` to every prefix of `t`. */
  function Row(p: seq<Token>, t: seq<Token>): (r: seq<int>)
    ensures |r| == |t| + 1
  {
    seq(|t| + 1, j requires 0 <= j <= |t| => Lev(p, t[..j]))
  }

  /** The whole matrix: row i is `Row(s[..i], t)`. */
  function DPTable(s: seq<Token>, t: seq<Token>): (m: seq<seq<int>>)
    ensures |m| == |s| + 1
  {
    seq(|s| + 1, i requires 0 <= i <= |s| => Row(s[..i], t))
  }

  /** The first `n + 1` rows depend on the first `n` tokens only: this is what
      lets `FastEditDistance` reuse rows of a cached table. */
  lemma DPTablePrefix(a: seq<Token>, b: seq<Token>, t: seq<Token>, n: nat)
    requires n <= |a| && n <= |b| && a[..n] == b[..n]
    ensures DPTable(a, t)[..n + 1] == DPTable(b, t)[..n + 1]
  {
    forall i | 0 <= i <= n ensures DPTable(a, t)[i] == DPTable(b, t)[i] {
      assert a[..i] == a[..n][..i] == b[..n][..i] == b[..i];
    }
  }

  /** Row i of `edit_distance`'s matrix, cells 1..|t| (the inner loop of
      the `itertools.product` iteration). */
  method FillRow(l: array2<int>, s: seq<Token>, t: seq<Token>, i: nat)
    requires l.Length0 == |s| + 1 && l.Length1 == |t| + 1
    requires 1 <= i <= |s|
    requires forall b :: 0 <= b <= |t| ==> l[i - 1, b] == Lev(s[..i - 1], t[..b])
    requires l[i, 0] == Lev(s[..i], t[..0])
    modifies l
    ensures forall b :: 0 <= b <= |t| ==> l[i, b] == Lev(s[..i], t[..b])
    ensures forall a, b :: 0 <= a < l.Length0 && 0 <= b < l.Length1 && a != i ==> l[a, b] == old(l[a, b])
  {
    var j := 1;
    while j <= |t|
      invariant 1 <= j <= |t| + 1
      invariant forall b :: 0 <= b < j ==> l[i, b] == Lev(s[..i], t[..b])
      invariant forall a, b :: 0 <= a < l.Length0 && 0 <= b < l.Length1 && a != i ==> l[a, b] == old(l[a, b])
    {
      var up, left, diag := l[i - 1, j], l[i, j - 1], l[i - 1, j - 1];
      CellFrom(s, t, i, j, up, left, diag);
      l[i, j] := Min3(up + 1, left + 1, diag + Cost(s[i - 1], t[j - 1]));
      j := j + 1;
    }
  }

  /** `edit_distance(s, t)`: fills the matrix row by row and returns its
      bottom-right cell. */
  method EditDistance(s: seq<Token>, t: seq<Token>) returns (d: nat)
    ensures d == Lev(s, t)
  {
    var l := new int[|s| + 1, |t| + 1];
    var j := 0;
    while j <= |t|
      invariant 0 <= j <= |t| + 1
      invariant forall b :: 0 <= b < j ==> l[0, b] == Lev(s[..0], t[..b])
    {
      l[0, j] := j;
      j := j + 1;
    }
    var x := 0;
    while x <= |s|
      invariant 0 <= x <= |s| + 1
      invariant forall b :: 0 <= b <= |t| ==> l[0, b] == Lev(s[..0], t[..b])
      invariant forall a :: 0 <= a < x ==> l[a, 0] == Lev(s[..a], t[..0])
    {
      l[x, 0] := x;
      x := x + 1;
    }
    var i := 1;
    while i <= |s|
      invariant 1 <= i <= |s| + 1
      invariant forall a, b :: 0 <= a < i && 0 <= b <= |t| ==> l[a, b] == Lev(s[..a], t[..b])
      invariant forall a :: i <= a <= |s| ==> l[a, 0] == Lev(s[..a], t[..0])
    {
      FillRow(l, s, t, i);
      i := i + 1;
    }
    assert s[..|s|] == s && t[..|t|] == t;
    d := l[|s|, |t|];
  }
}
