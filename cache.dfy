/**
  `FastEditDistance`: edit distance against one fixed reference, caching the
  whole dynamic-programming table of every hypothesis it was asked about.
  The keys are kept in Python's list order (`bisect_left` / `list.insert`),
  and a new query reuses the rows of the neighbour that shares the longest
  prefix with it.  The cache invariant (`Valid`) is that every cached table
  is exactly `DPTable(key, ref)`; from it, every query returns
  `Lev(hyp, ref)` whatever queries came before.
*/
module FastEdit {
  import opened Tokens
  import opened LexOrder
  import opened Levenshtein

  /** Non-decreasing in Python's list order (duplicates allowed). */
  ghost predicate Sorted(keys: seq<seq<Token>>) {
    forall i, j :: 0 <= i < j < |keys| ==> !TokensLess(keys[j], keys[i])
  }

  /** The first position whose key is not below `s`; for sorted keys this is
      what `bisect.bisect_left(keys, s)` returns. */
  function InsertionPoint(keys: seq<seq<Token>>, s: seq<Token>): (idx: nat)
    ensures idx <= |keys|
    ensures forall k :: 0 <= k < idx ==> TokensLess(keys[k], s)
    ensures idx < |keys| ==> !TokensLess(keys[idx], s)
    decreases |keys|
  {
    if |keys| == 0 || !TokensLess(keys[0], s) then 0
    else 1 + InsertionPoint(keys[1..], s)
  }

  /** In a sorted list nothing from the insertion point on is below `s`. */
  lemma SortedAboveInsertionPoint(keys: seq<seq<Token>>, s: seq<Token>)
    requires Sorted(keys)
    ensures forall k :: InsertionPoint(keys, s) <= k < |keys| ==> !TokensLess(keys[k], s)
  {
    TokensOrder();
    var idx := InsertionPoint(keys, s);
    forall k | idx < k < |keys| ensures !TokensLess(keys[k], s) {
      assert !TokensLess(keys[k], keys[idx]);
    }
  }

  /** The partition property pins the insertion point down. */
  lemma {:induction false} InsertionPointUnique(keys: seq<seq<Token>>, s: seq<Token>, idx: nat)
    requires idx <= |keys|
    requires forall k :: 0 <= k < idx ==> TokensLess(keys[k], s)
    requires idx < |keys| ==> !TokensLess(keys[idx], s)
    ensures idx == InsertionPoint(keys, s)
    decreases |keys|
  {
    if idx > 0 {
      InsertionPointUnique(keys[1..], s, idx - 1);
    }
  }

  /** `bisect.bisect_left`: binary search for the insertion point. */
  method BisectLeft(keys: seq<seq<Token>>, s: seq<Token>) returns (idx: nat)
    requires Sorted(keys)
    ensures idx == InsertionPoint(keys, s)
  {
    TokensOrder();
    var lo, hi := 0, |keys|;
    while lo < hi
      invariant 0 <= lo <= hi <= |keys|
      invariant forall k :: 0 <= k < lo ==> TokensLess(keys[k], s)
      invariant forall k :: hi <= k < |keys| ==> !TokensLess(keys[k], s)
    {
      var mid := (lo + hi) / 2;
      if TokensLess(keys[mid], s) {
        forall k | lo <= k < mid ensures TokensLess(keys[k], s) {
          assert !TokensLess(keys[mid], keys[k]);
        }
        lo := mid + 1;
      } else {
        forall k | mid < k < hi ensures !TokensLess(keys[k], s) {
          assert !TokensLess(keys[k], keys[mid]);
        }
        hi := mid;
      }
    }
    InsertionPointUnique(keys, s, lo);
    idx := lo;
  }

  function InsertAt<T>(xs: seq<T>, idx: nat, x: T): (r: seq<T>)
    requires idx <= |xs|
    ensures |r| == |xs| + 1 && r[idx] == x
    ensures r[..idx] == xs[..idx] && r[idx + 1..] == xs[idx..]
  {
    xs[..idx] + [x] + xs[idx..]
  }

  /** Inserting only adds: every element stays, with its multiplicity. */
  lemma InsertGrows<T>(xs: seq<T>, idx: nat, x: T)
    requires idx <= |xs|
    ensures multiset(InsertAt(xs, idx, x)) == multiset(xs) + multiset{x}
  {
    assert xs == xs[..idx] + xs[idx..];
  }

  /** Inserting at the insertion point keeps the keys sorted. */
  lemma InsertKeepsSorted(keys: seq<seq<Token>>, s: seq<Token>)
    requires Sorted(keys)
    ensures Sorted(InsertAt(keys, InsertionPoint(keys, s), s))
  {
    TokensOrder();
    SortedAboveInsertionPoint(keys, s);
    var idx := InsertionPoint(keys, s);
    var r := InsertAt(keys, idx, s);
    forall i, j | 0 <= i < j < |r| ensures !TokensLess(r[j], r[i]) {
      if j < idx {
        assert r[i] == keys[i] && r[j] == keys[j];
      } else if j == idx {
        assert TokensLess(r[i], s);
      } else if i == idx {
        assert r[j] == keys[j - 1];
      } else if i < idx {
        assert r[i] == keys[i] && r[j] == keys[j - 1];
      } else {
        assert r[i] == keys[i - 1] && r[j] == keys[j - 1];
      }
    }
  }

  /** The test of `_add_cache`: the key one past the insertion point equals `s`. */
  predicate SkipsInsert(keys: seq<seq<Token>>, s: seq<Token>) {
    var idx := InsertionPoint(keys, s);
    idx < |keys| - 1 && keys[idx + 1] == s
  }

  /** As written, `_add_cache` declines to insert only when `s` is already
      in the cache twice: the second query for a hypothesis inserts a
      duplicate key. */
  lemma SkipsOnlyWhenTwice(keys: seq<seq<Token>>, s: seq<Token>)
    requires Sorted(keys)
    ensures SkipsInsert(keys, s) <==>
            exists i, j :: 0 <= i < j < |keys| && keys[i] == s && keys[j] == s
  {
    TokensOrder();
    SortedAboveInsertionPoint(keys, s);
    var idx := InsertionPoint(keys, s);
    if i, j :| 0 <= i < j < |keys| && keys[i] == s && keys[j] == s {
      LexIrreflexive(s, TokenLess);
      assert idx <= i;
      assert keys[idx] == s by {
        assert !TokensLess(keys[i], keys[idx]) || idx == i;
      }
      assert keys[idx + 1] == s by {
        assert !TokensLess(keys[j], keys[idx + 1]) || idx + 1 == j;
        assert !TokensLess(keys[idx + 1], keys[idx]);
      }
    }
    if SkipsInsert(keys, s) {
      LexIrreflexive(s, TokenLess);
      assert keys[idx] == s by {
        assert !TokensLess(keys[idx + 1], keys[idx]);
      }
      assert keys[idx] == s && keys[idx + 1] == s;
    }
  }

  /** Length of the longest common prefix. */
  function Lcp(s: seq<Token>, t: seq<Token>): (r: nat)
    ensures r <= |s| && r <= |t| && s[..r] == t[..r]
    ensures r < |s| && r < |t| ==> s[r] != t[r]
    decreases |s|
  {
    if |s| == 0 || |t| == 0 || s[0] != t[0] then 0
    else
      var r := 1 + Lcp(s[1..], t[1..]);
      assert s[..r] == [s[0]] + s[1..][..r - 1];
      assert t[..r] == [t[0]] + t[1..][..r - 1];
      r
  }

  /** `_common_prefix_index`: counts matching leading tokens. */
  method CommonPrefixIndex(s: seq<Token>, t: seq<Token>) returns (r: nat)
    ensures r == Lcp(s, t)
  {
    r := 0;
    var m := if |s| < |t| then |s| else |t|;
    var i := 0;
    while i < m
      invariant 0 <= i <= m && r == i
      invariant s[..i] == t[..i]
    {
      if s[i] != t[i] {
        break;
      }
      assert s[..i + 1] == s[..i] + [s[i]] && t[..i + 1] == t[..i] + [t[i]];
      r := r + 1;
      i := i + 1;
    }
  }

  /** The prefix length `_find_cache` reuses: the longer common prefix with
      the two bisect neighbours (0 when there is none). */
  function CachedPrefix(keys: seq<seq<Token>>, hyp: seq<Token>): nat {
    var idx := InsertionPoint(keys, hyp);
    var pre := if idx == 0 then 0 else Lcp(keys[idx - 1], hyp);
    var pos := if idx == |keys| then 0 else Lcp(keys[idx], hyp);
    if pre < pos then pos else pre
  }

  /** The first `n + 1` rows of a cached table serve any hypothesis that
      shares the key's first `n` tokens; what is left to compute is the rest
      of the hypothesis. */
  lemma ReuseRows(key: seq<Token>, table: seq<seq<int>>, hyp: seq<Token>, ref: seq<Token>, n: nat,
                  cond: seq<seq<int>>, rest: seq<Token>)
    requires table == DPTable(key, ref) && n <= |key| && n <= |hyp| && key[..n] == hyp[..n]
    requires cond == table[..n + 1] && rest == hyp[n..]
    ensures |cond| == n + 1 && rest == hyp[|cond| - 1..] && cond == DPTable(hyp, ref)[..|cond|]
  {
    DPTablePrefix(key, hyp, ref, n);
  }

  /** With nothing shared, only the first row, the one of the empty
      hypothesis, is reused. */
  lemma TrivialRows(hyp: seq<Token>, ref: seq<Token>, cond: seq<seq<int>>, rest: seq<Token>)
    requires cond == DPTable([], ref) && rest == hyp
    ensures |cond| == 1 && rest == hyp[|cond| - 1..] && cond == DPTable(hyp, ref)[..|cond|]
  {
    DPTablePrefix([], hyp, ref, 0);
    assert hyp[0..] == hyp;
  }

  /** Column 0 of row `i`: one more than the row above. */
  lemma FirstCell(hyp: seq<Token>, ref: seq<Token>, i: nat, above: seq<int>)
    requires 1 <= i <= |hyp| && above == Row(hyp[..i - 1], ref)
    ensures above[0] + 1 == Lev(hyp[..i], ref[..0])
  {
  }

  /** Column `j` of row `i` from the row above and the cell to its left. */
  lemma NextCell(hyp: seq<Token>, ref: seq<Token>, i: nat, j: nat, above: seq<int>, left: int)
    requires 1 <= i <= |hyp| && 1 <= j <= |ref| && above == Row(hyp[..i - 1], ref)
    requires left == Lev(hyp[..i], ref[..j - 1])
    ensures Min3(above[j] + 1, left + 1, above[j - 1] + Cost(hyp[i - 1], ref[j - 1]))
            == Lev(hyp[..i], ref[..j])
  {
    LevCell(hyp, ref, i, j);
  }

  /** Inserting a key and its table at the same position keeps every table
      the matrix of its key. */
  lemma InsertKeepsTables(keys: seq<seq<Token>>, values: seq<seq<seq<int>>>, ref: seq<Token>,
                          idx: nat, s: seq<Token>)
    requires |keys| == |values| && idx <= |keys|
    requires forall k :: 0 <= k < |keys| ==> values[k] == DPTable(keys[k], ref)
    ensures var ks, vs := InsertAt(keys, idx, s), InsertAt(values, idx, DPTable(s, ref));
            forall k :: 0 <= k < |ks| ==> vs[k] == DPTable(ks[k], ref)
  {
    var ks, vs := InsertAt(keys, idx, s), InsertAt(values, idx, DPTable(s, ref));
    forall k | 0 <= k < |ks| ensures vs[k] == DPTable(ks[k], ref) {
      if k < idx {
        assert ks[k] == keys[k] && vs[k] == values[k];
      } else if k > idx {
        assert ks[k] == keys[k - 1] && vs[k] == values[k - 1];
      }
    }
  }

  lemma CachedPrefixIs(keys: seq<seq<Token>>, hyp: seq<Token>, idx: nat, pre: nat, pos: nat)
    requires idx == InsertionPoint(keys, hyp)
    requires pre == if idx == 0 then 0 else Lcp(keys[idx - 1], hyp)
    requires pos == if idx == |keys| then 0 else Lcp(keys[idx], hyp)
    ensures CachedPrefix(keys, hyp) == if pre < pos then pos else pre
  {
  }

  class FastEditDistance {
    const ref: seq<Token>
    var cacheKeys: seq<seq<Token>>
    var cacheValue: seq<seq<seq<int>>>
    const trivialList: seq<seq<int>>

    /** Keys sorted, one table per key, and each table the full matrix of
        its key against `ref`. */
    ghost predicate Valid()
      reads this
    {
      && |cacheKeys| == |cacheValue|
      && Sorted(cacheKeys)
      && trivialList == DPTable([], ref)
      && forall k :: 0 <= k < |cacheKeys| ==> cacheValue[k] == DPTable(cacheKeys[k], ref)
    }

    constructor (ref: seq<Token>)
      ensures Valid() && this.ref == ref
      ensures cacheKeys == [] && cacheValue == []
    {
      this.ref := ref;
      cacheKeys := [];
      cacheValue := [];
      trivialList := [seq(|ref| + 1, j requires 0 <= j <= |ref| => j)];
      ghost var empty: seq<Token> := [];
      assert empty[..0] == empty;
      assert Row(empty, ref) == seq(|ref| + 1, j requires 0 <= j <= |ref| => j);
      assert DPTable(empty, ref) == [Row(empty, ref)];
    }

    /** `__call__`: the distance from `hyp` to the reference, with the cache
        updated as `_add_cache` does. */
    method Query(hyp: seq<Token>) returns (score: int)
      requires Valid()
      modifies this
      ensures Valid()
      ensures score == Lev(hyp, ref)
      ensures var idx := InsertionPoint(old(cacheKeys), hyp);
              if SkipsInsert(old(cacheKeys), hyp)
              then cacheKeys == old(cacheKeys) && cacheValue == old(cacheValue)
              else cacheKeys == InsertAt(old(cacheKeys), idx, hyp) &&
                   cacheValue == InsertAt(old(cacheValue), idx, DPTable(hyp, ref))
    ensures multiset(old(cacheKeys)) <= multiset(cacheKeys)
    {
      ghost var keys := cacheKeys;
      var condition, resthyp := FindCache(hyp);
      var newCache;
      newCache, score := ExtendTable(resthyp, condition, hyp);
      AddCache(newCache, hyp);
      if !SkipsInsert(keys, hyp) {
        InsertGrows(keys, InsertionPoint(keys, hyp), hyp);
      }
    }

    /** `_find_cache`: the reusable leading rows and the tokens still to process. */
    method FindCache(hyp: seq<Token>) returns (cond: seq<seq<int>>, rest: seq<Token>)
      requires Valid()
      ensures |cond| == 1 + CachedPrefix(cacheKeys, hyp) && |cond| <= |hyp| + 1
      ensures rest == hyp[|cond| - 1..]
      ensures cond == DPTable(hyp, ref)[..|cond|]
    {
      var idx := BisectLeft(cacheKeys, hyp);
      var cplenPre := 0;
      if idx != 0 {
        cplenPre := CommonPrefixIndex(cacheKeys[idx - 1], hyp);
      }
      var cplenPos := 0;
      if idx != |cacheKeys| {
        cplenPos := CommonPrefixIndex(cacheKeys[idx], hyp);
      }
      CachedPrefixIs(cacheKeys, hyp, idx, cplenPre, cplenPos);
      if cplenPre > cplenPos {
        cond, rest := cacheValue[idx - 1][..cplenPre + 1], hyp[cplenPre..];
        ReuseRows(cacheKeys[idx - 1], cacheValue[idx - 1], hyp, ref, cplenPre, cond, rest);
      } else if cplenPre < cplenPos {
        cond, rest := cacheValue[idx][..cplenPos + 1], hyp[cplenPos..];
        ReuseRows(cacheKeys[idx], cacheValue[idx], hyp, ref, cplenPos, cond, rest);
      } else if cplenPre > 0 {
        cond, rest := cacheValue[idx - 1][..cplenPre + 1], hyp[cplenPre..];
        ReuseRows(cacheKeys[idx - 1], cacheValue[idx - 1], hyp, ref, cplenPre, cond, rest);
      } else {
        cond, rest := trivialList, hyp;
        TrivialRows(hyp, ref, cond, rest);
      }
    }

    /** `_add_cache`: insert key and table together at the bisect position,
        unless the key just after that position already equals `s`. */
    method AddCache(ncache: seq<seq<int>>, s: seq<Token>)
      requires Valid() && ncache == DPTable(s, ref)
      modifies this
      ensures Valid()
      ensures var idx := InsertionPoint(old(cacheKeys), s);
              if SkipsInsert(old(cacheKeys), s)
              then cacheKeys == old(cacheKeys) && cacheValue == old(cacheValue)
              else cacheKeys == InsertAt(old(cacheKeys), idx, s) &&
                   cacheValue == InsertAt(old(cacheValue), idx, ncache)
    {
      var idx := BisectLeft(cacheKeys, s);
      if idx < |cacheKeys| - 1 && cacheKeys[idx + 1] == s {
        return;
      }
      InsertKeepsSorted(cacheKeys, s);
      InsertKeepsTables(cacheKeys, cacheValue, ref, idx, s);
      cacheKeys := InsertAt(cacheKeys, idx, s);
      cacheValue := InsertAt(cacheValue, idx, ncache);
    }

    /** `_edit_distance`: appends the rows for `rest` below the reused rows
        `cond` (rows of the prefix `hyp[..|cond| - 1]`), filling each new row
        from column 0 to |ref|. */
    method ExtendTable(rest: seq<Token>, cond: seq<seq<int>>, ghost hyp: seq<Token>)
      returns (table: seq<seq<int>>, score: int)
      requires 1 <= |cond| && |cond| - 1 + |rest| == |hyp| && rest == hyp[|cond| - 1..]
      requires cond == DPTable(hyp, ref)[..|cond|]
      ensures table == DPTable(hyp, ref)
      ensures score == Lev(hyp, ref)
    {
      var offset := |cond|;
      table := cond;
      var i := offset;
      while i < offset + |rest|
        invariant offset <= i <= offset + |rest|
        invariant table == DPTable(hyp, ref)[..i]
      {
        assert rest[i - offset] == hyp[i - 1];
        var row := FillRow(table[i - 1], rest[i - offset], i, hyp);
        assert DPTable(hyp, ref)[..i + 1] == DPTable(hyp, ref)[..i] + [row];
        table := table + [row];
        i := i + 1;
      }
      assert hyp[..|hyp|] == hyp && ref[..|ref|] == ref;
      score := table[|table| - 1][|ref|];
    }

    /** One new row of `_edit_distance`: row `i` (token `tok`, the i-th of
        `hyp`) from the row above it. */
    method FillRow(above: seq<int>, tok: Token, i: nat, ghost hyp: seq<Token>) returns (row: seq<int>)
      requires 1 <= i <= |hyp| && tok == hyp[i - 1]
      requires above == Row(hyp[..i - 1], ref)
      ensures row == Row(hyp[..i], ref)
    {
      var r := new int[|ref| + 1];
      var j := 0;
      while j <= |ref|
        invariant 0 <= j <= |ref| + 1
        invariant forall b :: 0 <= b < j ==> r[b] == Lev(hyp[..i], ref[..b])
      {
        if j == 0 {
          FirstCell(hyp, ref, i, above);
          r[j] := above[j] + 1;
        } else {
          NextCell(hyp, ref, i, j, above, r[j - 1]);
          r[j] := Min3(above[j] + 1,
                       r[j - 1] + 1,
                       above[j - 1] + Cost(tok, ref[j - 1]));
        }
        j := j + 1;
      }
      row := r[..];
    }
  }
}
