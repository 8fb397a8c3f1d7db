/**
  Tokens of the TER engine: `_str2list` turns a sentence into a list of
  tokens, either the pieces between single spaces (`s.split(' ')`) or the
  single characters of the string (`list(s)`).  The glue variants pad a
  hypothesis with empty tokens and later drop them again
  (`filter(None, x)`).
*/
module Tokens {

  type Token = string

  /** Python's `s.split(' ')`: every single space separates two tokens, so
      a leading, trailing or repeated space gives an empty token, and the
      result is never empty. */
  function Split(s: string): (r: seq<Token>)
    ensures |r| >= 1
    ensures forall i :: 0 <= i < |r| ==> ' ' !in r[i]
    decreases |s|
  {
    if |s| == 0 then [""]
    else
      var rest := Split(s[1..]);
      if s[0] == ' ' then [""] + rest
      else [[s[0]] + rest[0]] + rest[1..]
  }

  /** `' '.join(toks)`, the inverse of `Split`. */
  function Join(toks: seq<Token>): string
    requires |toks| >= 1
    decreases |toks|
  {
    if |toks| == 1 then toks[0] else toks[0] + " " + Join(toks[1..])
  }

  lemma {:induction false} JoinSplit(s: string)
    ensures Join(Split(s)) == s
    decreases |s|
  {
    if |s| > 0 {
      var rest := Split(s[1..]);
      JoinSplit(s[1..]);
      if s[0] == ' ' {
        assert Split(s)[1..] == rest;
      } else {
        var r := Split(s);
        if |rest| == 1 {
          assert r == [[s[0]] + rest[0]];
        } else {
          assert r[1..] == rest[1..];
          assert Join(rest) == rest[0] + " " + Join(rest[1..]);
        }
      }
    }
  }

  lemma {:induction false} SplitWord(a: string)
    requires ' ' !in a
    ensures Split(a) == [a]
    decreases |a|
  {
    if |a| > 0 {
      SplitWord(a[1..]);
      assert [a[0]] + a[1..] == a;
    }
  }

  lemma {:induction false} SplitSeparated(a: string, b: string)
    requires ' ' !in a
    ensures Split(a + " " + b) == [a] + Split(b)
    decreases |a|
  {
    var s := a + " " + b;
    if |a| == 0 {
      assert s == " " + b;
      assert s[1..] == b;
    } else {
      assert s[1..] == a[1..] + " " + b;
      SplitSeparated(a[1..], b);
      assert [a[0]] + a[1..] == a;
    }
  }

  lemma {:induction false} SplitJoin(toks: seq<Token>)
    requires |toks| >= 1
    requires forall i :: 0 <= i < |toks| ==> ' ' !in toks[i]
    ensures Split(Join(toks)) == toks
    decreases |toks|
  {
    if |toks| == 1 {
      SplitWord(toks[0]);
    } else {
      SplitJoin(toks[1..]);
      SplitSeparated(toks[0], Join(toks[1..]));
      assert [toks[0]] + toks[1..] == toks;
    }
  }

  /** Two spaces in a row somewhere in `s`. */
  ghost predicate DoubleSpace(s: string) {
    exists i :: 0 <= i < |s| - 1 && s[i] == ' ' && s[i + 1] == ' '
  }

  /** `s.split(' ')` yields an empty token exactly when `s` is empty, starts
      or ends with a space, or holds two spaces in a row. */
  lemma {:induction false} SplitEmptyToken(s: string)
    ensures "" in Split(s) <==> s == "" || s[0] == ' ' || s[|s| - 1] == ' ' || DoubleSpace(s)
    decreases |s|
  {
    if |s| > 0 && s[0] != ' ' {
      var t := s[1..];
      var rest := Split(t);
      assert Split(s)[1..] == rest[1..];
      if |t| == 0 {
        assert !DoubleSpace(s);
      } else if t[0] == ' ' {
        var u := t[1..];
        assert rest[1..] == Split(u);
        SplitEmptyToken(u);
        if |u| == 0 {
          assert s[|s| - 1] == ' ';
        } else {
          if DoubleSpace(s) {
            var i :| 0 <= i < |s| - 1 && s[i] == ' ' && s[i + 1] == ' ';
            if i >= 2 {
              assert u[i - 2] == ' ' && u[i - 1] == ' ';
            }
          }
          if DoubleSpace(u) {
            var i :| 0 <= i < |u| - 1 && u[i] == ' ' && u[i + 1] == ' ';
            assert s[i + 2] == ' ' && s[i + 3] == ' ';
          }
          if u[0] == ' ' {
            assert s[1] == ' ' && s[2] == ' ';
          }
        }
      } else {
        SplitEmptyToken(t);
        assert rest[0] != "";
        assert "" in rest[1..] <==> "" in rest;
        if DoubleSpace(s) {
          var i :| 0 <= i < |s| - 1 && s[i] == ' ' && s[i + 1] == ' ';
          assert t[i - 1] == ' ' && t[i] == ' ';
        }
        if DoubleSpace(t) {
          var i :| 0 <= i < |t| - 1 && t[i] == ' ' && t[i + 1] == ' ';
          assert s[i + 1] == ' ' && s[i + 2] == ' ';
        }
      }
    }
  }

  /** Python's `list(s)`: one token per character. */
  function Chars(s: string): (r: seq<Token>)
    ensures |r| == |s| && forall i :: 0 <= i < |s| ==> r[i] == [s[i]]
  {
    seq(|s|, i requires 0 <= i < |s| => [s[i]])
  }

  function Concat(toks: seq<Token>): string
    decreases |toks|
  {
    if |toks| == 0 then "" else Concat(toks[..|toks| - 1]) + toks[|toks| - 1]
  }

  lemma {:induction false} ConcatChars(s: string)
    ensures Concat(Chars(s)) == s
    decreases |s|
  {
    if |s| > 0 {
      var n := |s| - 1;
      assert Chars(s)[..n] == Chars(s[..n]);
      ConcatChars(s[..n]);
      assert s[..n] + [s[n]] == s;
    }
  }

  /** `_str2list`: the word split never yields an empty list, the character
      split yields one token per character. */
  function Str2List(s: string, wordmatch: bool): (r: seq<Token>)
    ensures wordmatch ==> |r| >= 1 && Join(r) == s && forall i :: 0 <= i < |r| ==> ' ' !in r[i]
    ensures !wordmatch ==> |r| == |s| && Concat(r) == s && forall i :: 0 <= i < |s| ==> r[i] == [s[i]]
  {
    if wordmatch then JoinSplit(s); Split(s) else ConcatChars(s); Chars(s)
  }

  /** The reference list is empty exactly for the empty string in character mode. */
  lemma EmptyTokensOnlyInCharMode(s: string, wordmatch: bool)
    ensures |Str2List(s, wordmatch)| == 0 <==> !wordmatch && s == ""
  {
  }

  /** `hyp += [''] * (n - len(hyp))` when the hypothesis is shorter than `n`. */
  function Glued(hyp: seq<Token>, n: nat): (r: seq<Token>)
    ensures |r| == if |hyp| < n then n else |hyp|
    ensures r[..|hyp|] == hyp
    ensures forall i :: |hyp| <= i < |r| ==> r[i] == ""
  {
    if |hyp| < n then hyp + seq(n - |hyp|, _ => "") else hyp
  }

  /** `list(filter(None, x))`: the non-empty tokens of `x`, in order. */
  function NonEmpty(x: seq<Token>): (r: seq<Token>)
    ensures "" !in r
    ensures multiset(r) == multiset(x)["" := 0]
    decreases |x|
  {
    if |x| == 0 then []
    else
      var rest := NonEmpty(x[..|x| - 1]);
      assert x == x[..|x| - 1] + [x[|x| - 1]];
      if x[|x| - 1] == "" then rest else rest + [x[|x| - 1]]
  }

  /** Filtering keeps the order: it filters each part of a concatenation
      separately. */
  lemma {:induction false} NonEmptyAppend(a: seq<Token>, b: seq<Token>)
    ensures NonEmpty(a + b) == NonEmpty(a) + NonEmpty(b)
    decreases |b|
  {
    if |b| > 0 {
      var n := |b| - 1;
      assert (a + b)[..|a + b| - 1] == a + b[..n];
      assert b == b[..n] + [b[n]];
      NonEmptyAppend(a, b[..n]);
    } else {
      assert a + b == a;
    }
  }

  lemma {:induction false} NonEmptyIdentity(x: seq<Token>)
    requires "" !in x
    ensures NonEmpty(x) == x
    decreases |x|
  {
    if |x| > 0 {
      NonEmptyIdentity(x[..|x| - 1]);
      assert x == x[..|x| - 1] + [x[|x| - 1]];
    }
  }
}
