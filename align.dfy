/**
  `align(ref, hyp, wordmatch)`: the TER shift search run once more, this
  time remembering where every moved block came from (`replaced_map`) and
  which reference position it was moved to (`marks`); then a left-to-right
  pass that matches the reference positions no shift covered against hypothesis
  positions no shift moved; then the blocks, sorted, optionally turned
  into character offsets.
*/
module Alignment {
  import opened Tokens
  import opened LexOrder
  import opened Levenshtein
  import opened Shifting

  datatype Option<T> = None | Some(value: T)

  /** A token-level alignment block `(ref index, hyp index, length)`. */
  datatype Block = Block(r: nat, h: nat, n: nat)

  /** A returned triple; in word mode its parts are character offsets and a
      character width, and `sum(...) - 1` is -1 for an empty slice. */
  datatype Span = Span(r: int, h: int, n: int)

  /** `range(n)`, the initial `replaced_map`. */
  function Range(n: nat): (r: seq<nat>)
    ensures |r| == n && forall i :: 0 <= i < n ==> r[i] == i
  {
    seq(n, i requires 0 <= i < n => i)
  }

  // ---------------------------------------------------------------------
  // Choosing a shift
  // ---------------------------------------------------------------------

  /** An entry `(dist(ref, nhyp), nhyp, csr, sp, ep)` of `scores`. */
  datatype AlignCand = AlignCand(score: nat, nhyp: seq<Token>, mv: Move)

  function BlockLen(mv: Move): int {
    mv.ep - mv.sp
  }

  /** Python's order on `(csr, sp, ep)`. */
  predicate MoveLess(a: Move, b: Move) {
    a.csr < b.csr || (a.csr == b.csr && (a.sp < b.sp || (a.sp == b.sp && a.ep < b.ep)))
  }

  /** The entry `scores[0]` ends up being: `scores.sort()` orders whole
      tuples, the filter keeps the least distance, and the stable
      `sort(key=ep - sp, reverse=True)` brings the longest block forward
      without disturbing the tuple order among equally long ones. Together:
      least distance, then longest block, then least `nhyp`, then least
      `(csr, sp, ep)`. */
  predicate AlignLess(a: AlignCand, b: AlignCand) {
    a.score < b.score ||
    (a.score == b.score &&
     (BlockLen(a.mv) > BlockLen(b.mv) ||
      (BlockLen(a.mv) == BlockLen(b.mv) &&
       (TokensLess(a.nhyp, b.nhyp) || (a.nhyp == b.nhyp && MoveLess(a.mv, b.mv))))))
  }

  /** The combined order is a strict total order, so `scores[0]` is the one
      least entry. */
  lemma AlignOrder()
    ensures StrictTotalOrder(AlignLess)
  {
    TokensOrder();
    forall a: AlignCand, b: AlignCand ensures a == b || AlignLess(a, b) || AlignLess(b, a) {
      if a.score == b.score && BlockLen(a.mv) == BlockLen(b.mv) && a.nhyp == b.nhyp {
        assert a.mv == b.mv || MoveLess(a.mv, b.mv) || MoveLess(b.mv, a.mv);
      }
    }
  }

  /** The `dist` of line 70, `edit_distance(ref, list(filter(None, y)))`,
      as a function of `y`. The search below is stated for any such `dist`. */
  function Dist(ref: seq<Token>): seq<Token> -> nat {
    Mtd(Glue, ref)
  }

  /** The list `scores` before sorting, one entry per move of
      `_iter_matches(ref, h)`, in that order. */
  function AlignCands(dist: seq<Token> -> nat, ref: seq<Token>, h: seq<Token>): (cs: seq<AlignCand>)
    ensures |cs| == |IterMatches(ref, h)|
    ensures forall c :: c in cs ==>
              c.mv.sp < c.mv.ep <= |h| && |c.nhyp| == |h| && c.score == dist(c.nhyp)
  {
    var mvs := IterMatches(ref, h);
    seq(|mvs|, i requires 0 <= i < |mvs| =>
      var p := Splice(h, mvs[i]);
      AlignCand(dist(p), p, mvs[i]))
  }

  /** Entry `i` of `scores` belongs to move `i` of `_iter_matches`. */
  lemma AlignCandAt(dist: seq<Token> -> nat, ref: seq<Token>, h: seq<Token>, i: nat)
    requires i < |IterMatches(ref, h)|
    ensures var mv := IterMatches(ref, h)[i];
            AlignCands(dist, ref, h)[i] == AlignCand(dist(Splice(h, mv)), Splice(h, mv), mv)
  {
  }

  /** `scores[0]` after both sorts. */
  function Chosen(dist: seq<Token> -> nat, ref: seq<Token>, h: seq<Token>): (b: AlignCand)
    requires |IterMatches(ref, h)| > 0
    ensures b in AlignCands(dist, ref, h)
    ensures b.mv.sp < b.mv.ep <= |h| && |b.nhyp| == |h| && b.score == dist(b.nhyp)
  {
    Least(AlignCands(dist, ref, h), AlignLess)
  }

  /** The chosen entry has the least distance of all, and the longest block
      among those of that distance. */
  lemma ChosenIsBest(dist: seq<Token> -> nat, ref: seq<Token>, h: seq<Token>)
    requires |IterMatches(ref, h)| > 0
    ensures forall c :: c in AlignCands(dist, ref, h) ==> Chosen(dist, ref, h).score <= c.score
    ensures forall c :: c in AlignCands(dist, ref, h) && c.score == Chosen(dist, ref, h).score ==>
              BlockLen(c.mv) <= BlockLen(Chosen(dist, ref, h).mv)
  {
    AlignOrder();
    LeastIsMinimal(AlignCands(dist, ref, h), AlignLess);
  }

  /** The chosen entry is the splice of a move `_iter_matches` proposes. */
  lemma ChosenIsCandidate(dist: seq<Token> -> nat, ref: seq<Token>, h: seq<Token>)
    requires |IterMatches(ref, h)| > 0
    ensures IsCandidate(ref, h, Chosen(dist, ref, h).mv)
    ensures Chosen(dist, ref, h).nhyp == Splice(h, Chosen(dist, ref, h).mv)
  {
    var cs := AlignCands(dist, ref, h);
    var i :| 0 <= i < |cs| && cs[i] == Chosen(dist, ref, h);
    AlignCandAt(dist, ref, h, i);
    IterMatchesSound(ref, h, i);
  }

  lemma PickStep(dist: seq<Token> -> nat, ref: seq<Token>, h: seq<Token>, i: nat, best: AlignCand, c: AlignCand)
    requires i < |IterMatches(ref, h)|
    requires c == AlignCands(dist, ref, h)[i]
    requires i > 0 ==> best == Least(AlignCands(dist, ref, h)[..i], AlignLess)
    ensures (if i == 0 || AlignLess(c, best) then c else best) == Least(AlignCands(dist, ref, h)[..i + 1], AlignLess)
  {
    LeastOfPrefix(AlignCands(dist, ref, h), i, AlignLess);
  }

  lemma PickComplete(dist: seq<Token> -> nat, ref: seq<Token>, h: seq<Token>, best: AlignCand)
    requires |IterMatches(ref, h)| > 0
    requires best == Least(AlignCands(dist, ref, h)[..|IterMatches(ref, h)|], AlignLess)
    ensures best == Chosen(dist, ref, h)
  {
    assert AlignCands(dist, ref, h)[..|IterMatches(ref, h)|] == AlignCands(dist, ref, h);
  }

  /** Building `scores` and taking `scores[0]`: a left-to-right scan that
      keeps the least entry seen so far. */
  method PickShift(ref: seq<Token>, h: seq<Token>) returns (best: AlignCand)
    requires |IterMatches(ref, h)| > 0
    ensures best == Chosen(Dist(ref), ref, h)
  {
    ghost var dist := Dist(ref);
    var mvs := IterMatches(ref, h);
    best := AlignCand(0, [], Move(0, 0, 0));
    var i := 0;
    while i < |mvs|
      invariant 0 <= i <= |mvs|
      invariant i > 0 ==> best == Least(AlignCands(dist, ref, h)[..i], AlignLess)
    {
      var nhyp := Splice(h, mvs[i]);
      var d := EditDistance(ref, NonEmpty(nhyp));
      var c := AlignCand(d, nhyp, mvs[i]);
      AlignCandAt(dist, ref, h, i);
      PickStep(dist, ref, h, i, best, c);
      if i == 0 || AlignLess(c, best) {
        best := c;
      }
      i := i + 1;
    }
    PickComplete(dist, ref, h, best);
  }

  // ---------------------------------------------------------------------
  // The shift loop and its trace
  // ---------------------------------------------------------------------

  /** The loop state: the current hypothesis `h`, `replaced_map`, and the
      dictionary `marks` as its keys in insertion order plus its contents. */
  datatype Trace = Trace(h: seq<Token>, rmap: seq<nat>, keys: seq<nat>, marks: map<nat, seq<nat>>)

  function Start(hyp: seq<Token>): Trace {
    Trace(hyp, Range(|hyp|), [], map[])
  }

  /** The bookkeeping that keeps the loop and the later passes well defined. */
  predicate WellFormed(t: Trace) {
    && |t.rmap| == |t.h|
    && (forall i :: 0 <= i < |t.keys| ==> t.keys[i] in t.marks)
    && (forall c :: c in t.marks ==> |t.marks[c]| >= 1)
  }

  /** Accepting entry `c`: `h` becomes its `nhyp`, `replaced_map` is spliced
      the same way, and `marks[csr]` records the original positions of the
      moved block (an existing key keeps its place in the dictionary). */
  function Apply(t: Trace, c: AlignCand): (r: Trace)
    requires WellFormed(t) && c.mv.sp < c.mv.ep <= |t.h| && |c.nhyp| == |t.h|
    ensures WellFormed(r) && r.h == c.nhyp
  {
    var mark := t.rmap[c.mv.sp..c.mv.ep];
    Trace(c.nhyp, Splice(t.rmap, c.mv),
          if c.mv.csr in t.marks then t.keys else t.keys + [c.mv.csr],
          t.marks[c.mv.csr := mark])
  }

  /** The `while True` loop of lines 75-101: apply the chosen shift while it
      strictly lowers the distance. */
  function Shifts(dist: seq<Token> -> nat, ref: seq<Token>, t: Trace): (r: Trace)
    requires WellFormed(t)
    ensures WellFormed(r) && |r.h| == |t.h|
    decreases dist(t.h)
  {
    if |IterMatches(ref, t.h)| == 0 then t
    else
      var b := Chosen(dist, ref, t.h);
      if b.score >= dist(t.h) then t
      else Shifts(dist, ref, Apply(t, b))
  }

  lemma ShiftsStep(dist: seq<Token> -> nat, ref: seq<Token>, t: Trace)
    requires WellFormed(t)
    ensures |IterMatches(ref, t.h)| == 0 ==> Shifts(dist, ref, t) == t
    ensures |IterMatches(ref, t.h)| > 0 && Chosen(dist, ref, t.h).score >= dist(t.h) ==> Shifts(dist, ref, t) == t
    ensures |IterMatches(ref, t.h)| > 0 && Chosen(dist, ref, t.h).score < dist(t.h) ==>
              Shifts(dist, ref, t) == Shifts(dist, ref, Apply(t, Chosen(dist, ref, t.h)))
  {
  }

  /** Lines 73-101. */
  method ShiftBlocks(ref: seq<Token>, hyp: seq<Token>)
    returns (h: seq<Token>, rmap: seq<nat>, keys: seq<nat>, marks: map<nat, seq<nat>>)
    ensures Trace(h, rmap, keys, marks) == Shifts(Dist(ref), ref, Start(hyp))
  {
    ghost var dist := Dist(ref);
    h, rmap, keys, marks := hyp, Range(|hyp|), [], map[];
    while true
      invariant WellFormed(Trace(h, rmap, keys, marks))
      invariant Shifts(dist, ref, Trace(h, rmap, keys, marks)) == Shifts(dist, ref, Start(hyp))
      decreases dist(h)
    {
      ShiftsStep(dist, ref, Trace(h, rmap, keys, marks));
      if |IterMatches(ref, h)| == 0 {
        return;
      }
      var best := PickShift(ref, h);
      var prescore := EditDistance(ref, NonEmpty(h));
      if best.score >= prescore {
        return;
      }
      var csr, sp, ep := best.mv.csr, best.mv.sp, best.mv.ep;
      var hypMark := rmap[sp..ep];
      h := best.nhyp;
      rmap := Splice(rmap, best.mv);
      if csr !in marks {
        keys := keys + [csr];
      }
      marks := marks[csr := hypMark];
    }
  }

  /** Where entry `i` of a splice comes from. */
  function SpliceSource(n: nat, mv: Move, i: nat): (j: nat)
    requires mv.sp <= mv.ep <= n && i < n
    ensures j < n
  {
    var len := mv.ep - mv.sp;
    var c := if mv.csr <= n - len then mv.csr else n - len;
    if i < c then (if i < mv.sp then i else i + len)
    else if i < c + len then mv.sp + (i - c)
    else if i - len < mv.sp then i - len
    else i
  }

  lemma SpliceAt<T>(xs: seq<T>, mv: Move, i: nat)
    requires mv.sp <= mv.ep <= |xs| && i < |xs|
    ensures Splice(xs, mv)[i] == xs[SpliceSource(|xs|, mv, i)]
  {
    var rest := xs[..mv.sp] + xs[mv.ep..];
    var c := if mv.csr <= |rest| then mv.csr else |rest|;
    assert Splice(xs, mv) == rest[..c] + xs[mv.sp..mv.ep] + rest[c..];
  }

  /** Marked block `mark`, placed at reference position `c`, holds original
      hypothesis tokens equal to `ref[c:c + len(mark)]`. */
  ghost predicate MarkMatches(ref: seq<Token>, hyp: seq<Token>, c: nat, mark: seq<nat>) {
    && |mark| >= 1 && c + |mark| <= |ref|
    && forall k :: 0 <= k < |mark| ==> mark[k] < |hyp| && hyp[mark[k]] == ref[c + k]
  }

  /** What the loop keeps true of its state, against the padded original
      hypothesis `hyp`: `replaced_map` is a permutation of
      `range(len(hyp))`, `h[i] == hyp[replaced_map[i]]`, every mark matches
      the reference where it was placed, and the key list is the key set of
      `marks` without repetition. */
  ghost predicate Traced(ref: seq<Token>, hyp: seq<Token>, t: Trace) {
    && WellFormed(t) && |t.h| == |hyp|
    && multiset(t.rmap) == multiset(Range(|hyp|))
    && (forall i :: 0 <= i < |t.h| ==> t.rmap[i] < |hyp| && t.h[i] == hyp[t.rmap[i]])
    && (forall c :: c in t.marks ==> MarkMatches(ref, hyp, c, t.marks[c]))
    && (forall c :: c in t.marks ==> c in t.keys)
    && (forall i, j :: 0 <= i < j < |t.keys| ==> t.keys[i] != t.keys[j])
  }

  lemma StartTraced(ref: seq<Token>, hyp: seq<Token>)
    ensures Traced(ref, hyp, Start(hyp))
  {
  }

  /** An applied shift rearranges `replaced_map` as it rearranges `h`. */
  lemma ApplyRemaps(hyp: seq<Token>, t: Trace, b: AlignCand)
    requires WellFormed(t) && |t.h| == |hyp| && b.mv.sp < b.mv.ep <= |t.h| && b.nhyp == Splice(t.h, b.mv)
    requires forall i :: 0 <= i < |t.h| ==> t.rmap[i] < |hyp| && t.h[i] == hyp[t.rmap[i]]
    ensures forall i :: 0 <= i < |Apply(t, b).h| ==>
              Apply(t, b).rmap[i] < |hyp| && Apply(t, b).h[i] == hyp[Apply(t, b).rmap[i]]
  {
    var r := Apply(t, b);
    forall i | 0 <= i < |r.h| ensures r.rmap[i] < |hyp| && r.h[i] == hyp[r.rmap[i]] {
      SpliceAt(t.rmap, b.mv, i);
      SpliceAt(t.h, b.mv, i);
    }
  }

  /** The block an applied shift records matches the reference at the
      cursor. */
  lemma ApplyMarks(ref: seq<Token>, hyp: seq<Token>, t: Trace, mv: Move)
    requires |t.h| == |t.rmap| == |hyp|
    requires forall i :: 0 <= i < |t.h| ==> t.rmap[i] < |hyp| && t.h[i] == hyp[t.rmap[i]]
    requires IsCandidate(ref, t.h, mv)
    ensures MarkMatches(ref, hyp, mv.csr, t.rmap[mv.sp..mv.ep])
  {
    var mark := t.rmap[mv.sp..mv.ep];
    forall k | 0 <= k < |mark| ensures mark[k] < |hyp| && hyp[mark[k]] == ref[mv.csr + k] {
      var x := mv.sp + k;
      assert mark[k] == t.rmap[x];
      assert ref[mv.csr + (x - mv.sp)] == t.h[x];
    }
  }

  /** Every mark of an applied shift matches the reference. */
  lemma ApplyMarksAll(ref: seq<Token>, hyp: seq<Token>, t: Trace, b: AlignCand)
    requires WellFormed(t) && |t.h| == |hyp| && |b.nhyp| == |t.h|
    requires forall i :: 0 <= i < |t.h| ==> t.rmap[i] < |hyp| && t.h[i] == hyp[t.rmap[i]]
    requires forall c :: c in t.marks ==> MarkMatches(ref, hyp, c, t.marks[c])
    requires IsCandidate(ref, t.h, b.mv)
    ensures forall c :: c in Apply(t, b).marks ==> MarkMatches(ref, hyp, c, Apply(t, b).marks[c])
  {
    ApplyMarks(ref, hyp, t, b.mv);
  }

  /** The key list of an applied shift still lists every mark once. */
  lemma ApplyKeys(t: Trace, b: AlignCand)
    requires WellFormed(t) && b.mv.sp < b.mv.ep <= |t.h| && |b.nhyp| == |t.h|
    requires forall c :: c in t.marks ==> c in t.keys
    requires forall i, j :: 0 <= i < j < |t.keys| ==> t.keys[i] != t.keys[j]
    ensures forall c :: c in Apply(t, b).marks ==> c in Apply(t, b).keys
    ensures forall i, j :: 0 <= i < j < |Apply(t, b).keys| ==> Apply(t, b).keys[i] != Apply(t, b).keys[j]
  {
    var keys := Apply(t, b).keys;
    forall i, j | 0 <= i < j < |keys| ensures keys[i] != keys[j] {
      if j == |t.keys| {
        assert keys[i] == t.keys[i] && keys[j] == b.mv.csr;
      }
    }
  }

  /** One accepted shift keeps the trace. */
  lemma ApplyKeepsTrace(ref: seq<Token>, hyp: seq<Token>, t: Trace, b: AlignCand)
    requires Traced(ref, hyp, t)
    requires IsCandidate(ref, t.h, b.mv) && b.nhyp == Splice(t.h, b.mv)
    ensures Traced(ref, hyp, Apply(t, b))
  {
    ApplyRemaps(hyp, t, b);
    ApplyMarksAll(ref, hyp, t, b);
    ApplyKeys(t, b);
  }

  /** `replaced_map` stays a permutation of the original positions with
      `h[i] == hyp[replaced_map[i]]`, and every mark is a genuine match,
      however many shifts the loop takes. */
  lemma {:induction false} ShiftsKeepTrace(dist: seq<Token> -> nat, ref: seq<Token>, hyp: seq<Token>, t: Trace)
    requires Traced(ref, hyp, t)
    ensures Traced(ref, hyp, Shifts(dist, ref, t))
    decreases dist(t.h)
  {
    ShiftsStep(dist, ref, t);
    if |IterMatches(ref, t.h)| > 0 && Chosen(dist, ref, t.h).score < dist(t.h) {
      ChosenIsCandidate(dist, ref, t.h);
      ApplyKeepsTrace(ref, hyp, t, Chosen(dist, ref, t.h));
      ShiftsKeepTrace(dist, ref, hyp, Apply(t, Chosen(dist, ref, t.h)));
    }
  }

  /** The loop never raises the distance, and it stops only where no
      proposed shift would lower it. */
  lemma {:induction false} ShiftsConverge(dist: seq<Token> -> nat, ref: seq<Token>, t: Trace)
    requires WellFormed(t)
    ensures dist(Shifts(dist, ref, t).h) <= dist(t.h)
    ensures forall c :: c in AlignCands(dist, ref, Shifts(dist, ref, t).h) ==>
              dist(Shifts(dist, ref, t).h) <= c.score
    decreases dist(t.h)
  {
    ShiftsStep(dist, ref, t);
    if |IterMatches(ref, t.h)| > 0 {
      ChosenIsBest(dist, ref, t.h);
      if Chosen(dist, ref, t.h).score < dist(t.h) {
        ShiftsConverge(dist, ref, Apply(t, Chosen(dist, ref, t.h)));
      }
    }
  }

  // ---------------------------------------------------------------------
  // Filling the gaps
  // ---------------------------------------------------------------------

  /** `hyp_indexes`: the hypothesis positions that no mark holds. */
  function Unmarked(n: nat, marks: map<nat, seq<nat>>): (free: set<nat>)
    ensures forall i: nat :: i in free <==> i < n && !Held(marks, i)
  {
    set i | 0 <= i < n && !Held(marks, i)
  }

  /** Some mark holds hypothesis position `i`. */
  predicate Held(marks: map<nat, seq<nat>>, i: nat) {
    exists c :: c in marks && i in marks[c]
  }

  /** The search of lines 110-114 from position `from` on: the first
      position holding `tok` that is in `free`. */
  function FirstFree(hyp: seq<Token>, free: set<nat>, tok: Token, from: nat): (r: Option<nat>)
    requires from <= |hyp|
    ensures r.Some? ==> from <= r.value < |hyp| && hyp[r.value] == tok && r.value in free
    decreases |hyp| - from
  {
    if from == |hyp| then None
    else if hyp[from] == tok && from in free then Some(from)
    else FirstFree(hyp, free, tok, from + 1)
  }

  /** No free position holding `tok` comes before the one found, and one is
      found whenever there is one. */
  lemma {:induction false} FirstFreeIsFirst(hyp: seq<Token>, free: set<nat>, tok: Token, from: nat, i: nat)
    requires from <= i < |hyp| && hyp[i] == tok && i in free
    ensures FirstFree(hyp, free, tok, from).Some? && FirstFree(hyp, free, tok, from).value <= i
    decreases |hyp| - from
  {
    if from < i && !(hyp[from] == tok && from in free) {
      FirstFreeIsFirst(hyp, free, tok, from + 1, i);
    }
  }

  /** The `for h_ep in range(h_sp + 1, len(hyp) + 1)` search of lines
      119-123, from `e` on: the first end at which the run runs out of
      `hyp`, runs out of `ref`, or stops matching. */
  function RunEnd(ref: seq<Token>, hyp: seq<Token>, r: nat, h: nat, e: nat): (end: nat)
    requires h < e <= |hyp|
    ensures e <= end <= |hyp|
    ensures end == |hyp| || r + (end - h) >= |ref| || hyp[end] != ref[r + (end - h)]
    decreases |hyp| - e
  {
    if e == |hyp| || r + (e - h) >= |ref| || hyp[e] != ref[r + (e - h)] then e
    else RunEnd(ref, hyp, r, h, e + 1)
  }

  /** Every token the run passes over matches the reference. */
  lemma {:induction false} RunEndMatches(ref: seq<Token>, hyp: seq<Token>, r: nat, h: nat, e: nat, x: int)
    requires h < e <= |hyp|
    requires e <= x < RunEnd(ref, hyp, r, h, e)
    ensures r + (x - h) < |ref| && hyp[x] == ref[r + (x - h)]
    decreases |hyp| - e
  {
    if x > e {
      RunEndMatches(ref, hyp, r, h, e + 1, x);
    }
  }

  /** The `while sp < len(ref)` loop of lines 105-124, from `sp` on: skip
      a marked position by its mark's length; otherwise take the first free
      hypothesis position holding `ref[sp]` and the longest run from there. */
  function Gaps(ref: seq<Token>, hyp: seq<Token>, marks: map<nat, seq<nat>>, free: set<nat>, sp: nat): (r: seq<Block>)
    requires forall c :: c in marks ==> |marks[c]| >= 1
    decreases |ref| - sp
  {
    if sp >= |ref| then []
    else if sp in marks then Gaps(ref, hyp, marks, free, sp + |marks[sp]|)
    else
      var found := FirstFree(hyp, free, ref[sp], 0);
      if found.None? then Gaps(ref, hyp, marks, free, sp + 1)
      else
        var he := RunEnd(ref, hyp, sp, found.value, found.value + 1);
        [Block(sp, found.value, he - found.value)] + Gaps(ref, hyp, marks, free, sp + (he - found.value))
  }

  /** Blocks at reference positions from `lo` on, in increasing order, each
      ending in the reference before the next one starts. */
  ghost predicate AscendingFrom(bs: seq<Block>, lo: nat) {
    && (forall i :: 0 <= i < |bs| ==> lo <= bs[i].r)
    && (forall i, j :: 0 <= i < j < |bs| ==> bs[i].r < bs[j].r && bs[i].r + bs[i].n <= bs[j].r)
  }

  lemma ConsAscending(b: Block, rest: seq<Block>, lo: nat)
    requires AscendingFrom(rest, lo) && b.r < lo && b.r + b.n <= lo
    ensures AscendingFrom([b] + rest, b.r)
  {
    var r := [b] + rest;
    forall i, j | 0 <= i < j < |r| ensures r[i].r < r[j].r && r[i].r + r[i].n <= r[j].r {
      assert r[j] == rest[j - 1];
      if i > 0 {
        assert r[i] == rest[i - 1];
      }
    }
  }

  lemma AscendingEq(xs: seq<Block>, ys: seq<Block>, lo: nat, lo': nat)
    requires xs == ys && AscendingFrom(ys, lo') && lo <= lo'
    ensures AscendingFrom(xs, lo)
  {
  }

  /** The second pass emits its blocks in reference order, from where it
      starts, and no two of them share a reference position. */
  lemma {:induction false} GapsAscending(ref: seq<Token>, hyp: seq<Token>, marks: map<nat, seq<nat>>,
                                         free: set<nat>, sp: nat)
    requires forall c :: c in marks ==> |marks[c]| >= 1
    ensures AscendingFrom(Gaps(ref, hyp, marks, free, sp), sp)
    decreases |ref| - sp
  {
    if sp >= |ref| {
      GapsEnd(ref, hyp, marks, free, sp);
    } else if sp in marks {
      var next := sp + |marks[sp]|;
      GapsSkip(ref, hyp, marks, free, sp, next);
      GapsAscending(ref, hyp, marks, free, next);
      AscendingEq(Gaps(ref, hyp, marks, free, sp), Gaps(ref, hyp, marks, free, next), sp, next);
    } else if FirstFree(hyp, free, ref[sp], 0).None? {
      GapsSkip(ref, hyp, marks, free, sp, sp + 1);
      GapsAscending(ref, hyp, marks, free, sp + 1);
      AscendingEq(Gaps(ref, hyp, marks, free, sp), Gaps(ref, hyp, marks, free, sp + 1), sp, sp + 1);
    } else {
      var hs := FirstFree(hyp, free, ref[sp], 0).value;
      var he := RunEnd(ref, hyp, sp, hs, hs + 1);
      var next := sp + (he - hs);
      GapsFound(ref, hyp, marks, free, sp, hs, he);
      GapsAscending(ref, hyp, marks, free, next);
      var rest := Gaps(ref, hyp, marks, free, next);
      ConsAscending(Block(sp, hs, he - hs), rest, next);
      AscendingEq(Gaps(ref, hyp, marks, free, sp), [Block(sp, hs, he - hs)] + rest, sp, sp);
    }
  }

  /** What every second-pass block is: at an unmarked reference position,
      starting at the first free hypothesis position holding that token,
      at least one token long, matching token for token, and as long as the
      run goes. */
  ghost predicate GapBlock(ref: seq<Token>, hyp: seq<Token>, marks: map<nat, seq<nat>>, free: set<nat>, b: Block) {
    && b.r < |ref| && b.r !in marks
    && 1 <= b.n && b.h + b.n <= |hyp| && b.r + b.n <= |ref|
    && b.h in free && (forall i :: 0 <= i < b.h ==> !(hyp[i] == ref[b.r] && i in free))
    && (forall x :: b.h <= x < b.h + b.n ==> hyp[x] == ref[b.r + (x - b.h)])
    && (b.h + b.n == |hyp| || b.r + b.n == |ref| || hyp[b.h + b.n] != ref[b.r + b.n])
  }

  /** The second pass ends at the end of the reference. */
  lemma GapsEnd(ref: seq<Token>, hyp: seq<Token>, marks: map<nat, seq<nat>>, free: set<nat>, sp: nat)
    requires forall c :: c in marks ==> |marks[c]| >= 1
    requires sp >= |ref|
    ensures Gaps(ref, hyp, marks, free, sp) == []
  {
  }

  /** A round of the second pass that emits nothing: a marked position, or
      a token no free hypothesis position holds. */
  lemma GapsSkip(ref: seq<Token>, hyp: seq<Token>, marks: map<nat, seq<nat>>, free: set<nat>, sp: nat, next: nat)
    requires forall c :: c in marks ==> |marks[c]| >= 1
    requires sp < |ref|
    requires || (sp in marks && next == sp + |marks[sp]|)
             || (sp !in marks && FirstFree(hyp, free, ref[sp], 0).None? && next == sp + 1)
    ensures Gaps(ref, hyp, marks, free, sp) == Gaps(ref, hyp, marks, free, next)
  {
  }

  /** The round of the second pass that emits a block. */
  lemma GapsFound(ref: seq<Token>, hyp: seq<Token>, marks: map<nat, seq<nat>>, free: set<nat>,
                  sp: nat, hs: nat, he: nat)
    requires forall c :: c in marks ==> |marks[c]| >= 1
    requires sp < |ref| && sp !in marks && FirstFree(hyp, free, ref[sp], 0) == Some(hs)
    requires he == RunEnd(ref, hyp, sp, hs, hs + 1)
    ensures Gaps(ref, hyp, marks, free, sp) == [Block(sp, hs, he - hs)] + Gaps(ref, hyp, marks, free, sp + (he - hs))
  {
  }

  lemma GapBlockFound(ref: seq<Token>, hyp: seq<Token>, marks: map<nat, seq<nat>>, free: set<nat>,
                      sp: nat, hs: nat, he: nat)
    requires sp < |ref| && sp !in marks && FirstFree(hyp, free, ref[sp], 0) == Some(hs)
    requires he == RunEnd(ref, hyp, sp, hs, hs + 1)
    ensures GapBlock(ref, hyp, marks, free, Block(sp, hs, he - hs))
  {
    RunFits(ref, hyp, sp, hs, he);
    RunMatches(ref, hyp, sp, hs, he);
    FirstFreeNoneBefore(hyp, free, ref[sp], hs);
  }

  /** The run found ends inside both sentences. */
  lemma RunFits(ref: seq<Token>, hyp: seq<Token>, sp: nat, hs: nat, he: nat)
    requires sp < |ref| && hs < |hyp| && hyp[hs] == ref[sp]
    requires he == RunEnd(ref, hyp, sp, hs, hs + 1)
    ensures hs < he <= |hyp| && sp + (he - hs) <= |ref|
  {
    if he > hs + 1 {
      RunEndMatches(ref, hyp, sp, hs, hs + 1, he - 1);
    }
  }

  /** The run found matches the reference token for token. */
  lemma RunMatches(ref: seq<Token>, hyp: seq<Token>, sp: nat, hs: nat, he: nat)
    requires sp < |ref| && hs < |hyp| && hyp[hs] == ref[sp]
    requires he == RunEnd(ref, hyp, sp, hs, hs + 1) && sp + (he - hs) <= |ref|
    ensures forall x :: hs <= x < he ==> hyp[x] == ref[sp + (x - hs)]
  {
    forall x | hs <= x < he ensures hyp[x] == ref[sp + (x - hs)] {
      if x > hs {
        RunEndMatches(ref, hyp, sp, hs, hs + 1, x);
      }
    }
  }

  /** No free position before the first one found holds the token. */
  lemma FirstFreeNoneBefore(hyp: seq<Token>, free: set<nat>, tok: Token, hs: nat)
    requires FirstFree(hyp, free, tok, 0) == Some(hs)
    ensures forall i :: 0 <= i < hs ==> !(hyp[i] == tok && i in free)
  {
    forall i | 0 <= i < hs ensures !(hyp[i] == tok && i in free) {
      if hyp[i] == tok && i in free {
        FirstFreeIsFirst(hyp, free, tok, 0, i);
      }
    }
  }

  lemma {:induction false} GapsSound(ref: seq<Token>, hyp: seq<Token>, marks: map<nat, seq<nat>>, free: set<nat>, sp: nat)
    requires forall c :: c in marks ==> |marks[c]| >= 1
    ensures forall b :: b in Gaps(ref, hyp, marks, free, sp) ==> GapBlock(ref, hyp, marks, free, b)
    decreases |ref| - sp
  {
    if sp >= |ref| {
      GapsEnd(ref, hyp, marks, free, sp);
    } else if sp in marks {
      GapsSkip(ref, hyp, marks, free, sp, sp + |marks[sp]|);
      GapsSound(ref, hyp, marks, free, sp + |marks[sp]|);
    } else if FirstFree(hyp, free, ref[sp], 0).None? {
      GapsSkip(ref, hyp, marks, free, sp, sp + 1);
      GapsSound(ref, hyp, marks, free, sp + 1);
    } else {
      var hs := FirstFree(hyp, free, ref[sp], 0).value;
      var he := RunEnd(ref, hyp, sp, hs, hs + 1);
      GapsFound(ref, hyp, marks, free, sp, hs, he);
      GapsSound(ref, hyp, marks, free, sp + (he - hs));
      GapBlockFound(ref, hyp, marks, free, sp, hs, he);
      ConsGapBlocks(ref, hyp, marks, free, Block(sp, hs, he - hs), Gaps(ref, hyp, marks, free, sp + (he - hs)));
    }
  }

  lemma ConsGapBlocks(ref: seq<Token>, hyp: seq<Token>, marks: map<nat, seq<nat>>, free: set<nat>,
                      b: Block, rest: seq<Block>)
    requires GapBlock(ref, hyp, marks, free, b)
    requires forall x :: x in rest ==> GapBlock(ref, hyp, marks, free, x)
    ensures forall x :: x in [b] + rest ==> GapBlock(ref, hyp, marks, free, x)
  {
  }

  /** Lines 110-114 over `enumerate(hyp)`. */
  method FindFree(hyp: seq<Token>, free: set<nat>, tok: Token) returns (r: Option<nat>)
    ensures r == FirstFree(hyp, free, tok, 0)
  {
    var idx := 0;
    while idx < |hyp|
      invariant idx <= |hyp|
      invariant FirstFree(hyp, free, tok, idx) == FirstFree(hyp, free, tok, 0)
    {
      if hyp[idx] == tok && idx in free {
        return Some(idx);
      }
      idx := idx + 1;
    }
    return None;
  }

  /** Lines 118-124; the loop always leaves by its `break` (at the latest
      when `h_ep == len(hyp)`), so the `assert(False)` is unreachable. */
  method ScanRun(ref: seq<Token>, hyp: seq<Token>, sp: nat, hs: nat) returns (he: nat)
    requires hs < |hyp|
    ensures he == RunEnd(ref, hyp, sp, hs, hs + 1)
  {
    he := hs + 1;
    while !(he == |hyp| || sp + he - hs >= |ref| || hyp[he] != ref[sp + he - hs])
      invariant hs < he <= |hyp|
      invariant RunEnd(ref, hyp, sp, hs, he) == RunEnd(ref, hyp, sp, hs, hs + 1)
      decreases |hyp| - he
    {
      he := he + 1;
    }
  }

  /** One round of the loop of lines 105-124 at `sp`: the blocks it
      appends (none or one) and where the next round starts. */
  method GapRound(ref: seq<Token>, hyp: seq<Token>, marks: map<nat, seq<nat>>, free: set<nat>, sp: nat)
    returns (emitted: seq<Block>, next: nat)
    requires forall c :: c in marks ==> |marks[c]| >= 1
    requires sp < |ref|
    ensures sp < next
    ensures Gaps(ref, hyp, marks, free, sp) == emitted + Gaps(ref, hyp, marks, free, next)
  {
    if sp in marks {
      GapsSkip(ref, hyp, marks, free, sp, sp + |marks[sp]|);
      return [], sp + |marks[sp]|;
    }
    var found := FindFree(hyp, free, ref[sp]);
    if found.None? {
      GapsSkip(ref, hyp, marks, free, sp, sp + 1);
      return [], sp + 1;
    }
    var hs := found.value;
    var he := ScanRun(ref, hyp, sp, hs);
    GapsFound(ref, hyp, marks, free, sp, hs, he);
    emitted, next := [Block(sp, hs, he - hs)], sp + (he - hs);
  }

  /** Lines 105-124: the blocks the second pass appends, in order. */
  method FillGaps(ref: seq<Token>, hyp: seq<Token>, marks: map<nat, seq<nat>>, free: set<nat>)
    returns (gaps: seq<Block>)
    requires forall c :: c in marks ==> |marks[c]| >= 1
    ensures gaps == Gaps(ref, hyp, marks, free, 0)
  {
    gaps := [];
    var sp := 0;
    while sp < |ref|
      invariant gaps + Gaps(ref, hyp, marks, free, sp) == Gaps(ref, hyp, marks, free, 0)
      decreases |ref| - sp
    {
      var emitted, next := GapRound(ref, hyp, marks, free, sp);
      assert gaps + (emitted + Gaps(ref, hyp, marks, free, next))
          == (gaps + emitted) + Gaps(ref, hyp, marks, free, next);
      gaps, sp := gaps + emitted, next;
    }
    GapsEnd(ref, hyp, marks, free, sp);
  }

  // ---------------------------------------------------------------------
  // Assembling the result
  // ---------------------------------------------------------------------

  /** `[(x, y[0], len(y)) for x, y in marks.items()]`. */
  function MarkBlocks(keys: seq<nat>, marks: map<nat, seq<nat>>): (r: seq<Block>)
    requires forall i :: 0 <= i < |keys| ==> keys[i] in marks
    requires forall c :: c in marks ==> |marks[c]| >= 1
    ensures |r| == |keys|
    ensures forall i :: 0 <= i < |r| ==>
              r[i].r == keys[i] && r[i].h == marks[keys[i]][0] && r[i].n == |marks[keys[i]]|
  {
    seq(|keys|, i requires 0 <= i < |keys| => Block(keys[i], marks[keys[i]][0], |marks[keys[i]]|))
  }

  /** Python's `<` on `(r, h, n)` triples. */
  predicate BlockLess(a: Block, b: Block) {
    a.r < b.r || (a.r == b.r && (a.h < b.h || (a.h == b.h && a.n < b.n)))
  }

  predicate SortedBlocks(xs: seq<Block>) {
    forall i, j :: 0 <= i < j < |xs| ==> !BlockLess(xs[j], xs[i])
  }

  lemma ConsSorted(a: Block, rest: seq<Block>, xs: seq<Block>, x: Block)
    requires |xs| > 0 && a == xs[0] && SortedBlocks(xs) && BlockLess(a, x)
    requires SortedBlocks(rest) && multiset(rest) == multiset(xs[1..]) + multiset{x}
    ensures SortedBlocks([a] + rest)
  {
    forall j | 0 <= j < |rest| ensures !BlockLess(rest[j], a) {
      assert rest[j] in multiset(rest);
      if rest[j] != x {
        assert rest[j] in multiset(xs[1..]);
        var k :| 0 <= k < |xs[1..]| && xs[1..][k] == rest[j];
        assert xs[k + 1] == rest[j];
      }
    }
  }

  function InsertBlock(x: Block, xs: seq<Block>): (r: seq<Block>)
    requires SortedBlocks(xs)
    ensures SortedBlocks(r) && multiset(r) == multiset(xs) + multiset{x}
    decreases |xs|
  {
    if |xs| == 0 then [x]
    else if !BlockLess(xs[0], x) then [x] + xs
    else
      var rest := InsertBlock(x, xs[1..]);
      assert xs == [xs[0]] + xs[1..];
      ConsSorted(xs[0], rest, xs, x);
      [xs[0]] + rest
  }

  /** `aligns.sort()`: a sorted rearrangement of its argument. */
  function SortBlocks(xs: seq<Block>): (r: seq<Block>)
    ensures SortedBlocks(r) && multiset(r) == multiset(xs)
    decreases |xs|
  {
    if |xs| == 0 then []
    else
      assert xs == xs[..|xs| - 1] + [xs[|xs| - 1]];
      InsertBlock(xs[|xs| - 1], SortBlocks(xs[..|xs| - 1]))
  }

  lemma SortedHeadLeast(a: seq<Block>, x: Block)
    requires SortedBlocks(a) && x in a
    ensures !BlockLess(x, a[0])
  {
    var i :| 0 <= i < |a| && a[i] == x;
  }

  lemma SortedTail(a: seq<Block>)
    requires SortedBlocks(a) && |a| > 0
    ensures SortedBlocks(a[1..]) && multiset(a[1..]) == multiset(a) - multiset{a[0]}
  {
    assert a == [a[0]] + a[1..];
  }

  /** A sorted rearrangement is unique, so every correct sort returns the
      list `SortBlocks` does. */
  lemma {:induction false} SortedUnique(a: seq<Block>, b: seq<Block>)
    requires SortedBlocks(a) && SortedBlocks(b) && multiset(a) == multiset(b)
    ensures a == b
    decreases |a|
  {
    assert |a| == |multiset(a)| == |multiset(b)| == |b|;
    if |a| > 0 {
      assert a[0] in multiset(b) && b[0] in multiset(a);
      SortedHeadLeast(b, a[0]);
      SortedHeadLeast(a, b[0]);
      SortedTail(a);
      SortedTail(b);
      SortedUnique(a[1..], b[1..]);
      assert a == [a[0]] + a[1..] && b == [b[0]] + b[1..];
    }
  }

  /** `sum(len(x) + 1 for x in toks)`. */
  function Width(toks: seq<Token>): nat
    decreases |toks|
  {
    if |toks| == 0 then 0 else |toks[0]| + 1 + Width(toks[1..])
  }

  function MinNat(a: nat, b: nat): nat {
    if a < b then a else b
  }

  /** One triple of the result: token indices as they are in character
      mode, in word mode `(offset of ref[y], offset of hyp[z], width of
      ref[y:y + w])` over the texts rejoined with single spaces. */
  function ToSpan(ref: seq<Token>, hyp: seq<Token>, b: Block, wordmatch: bool): Span {
    if wordmatch then
      var y := MinNat(b.r, |ref|);
      Span(Width(ref[..y]), Width(hyp[..MinNat(b.h, |hyp|)]), Width(ref[y..MinNat(b.r + b.n, |ref|)]) - 1)
    else Span(b.r, b.h, b.n)
  }

  function ToSpans(ref: seq<Token>, hyp: seq<Token>, bs: seq<Block>, wordmatch: bool): (r: seq<Span>)
    ensures |r| == |bs| && forall i :: 0 <= i < |bs| ==> r[i] == ToSpan(ref, hyp, bs[i], wordmatch)
  {
    seq(|bs|, i requires 0 <= i < |bs| => ToSpan(ref, hyp, bs[i], wordmatch))
  }

  /** The token-level alignment of `ref` against the padded `hyp`: the
      marks of the shift loop and the second-pass blocks, sorted. */
  function AlignTokens(ref: seq<Token>, hyp: seq<Token>): (r: seq<Block>)
    ensures SortedBlocks(r)
  {
    var t := Shifts(Dist(ref), ref, Start(hyp));
    SortBlocks(MarkBlocks(t.keys, t.marks) + Gaps(ref, hyp, t.marks, Unmarked(|hyp|, t.marks), 0))
  }

  /** What `align(ref, hyp, wordmatch)` returns. */
  function AlignResult(refText: string, hypText: string, wordmatch: bool): seq<Span> {
    var ref := Str2List(refText, wordmatch);
    var hyp := Glued(Str2List(hypText, wordmatch), |ref|);
    ToSpans(ref, hyp, AlignTokens(ref, hyp), wordmatch)
  }

  /** `align(ref, hyp, wordmatch)`, lines 60-132. */
  method Align(refText: string, hypText: string, wordmatch: bool) returns (aligns: seq<Span>)
    ensures aligns == AlignResult(refText, hypText, wordmatch)
  {
    var ref := Str2List(refText, wordmatch);
    var hyp := Str2List(hypText, wordmatch);
    hyp := Glued(hyp, |ref|);
    var h, rmap, keys, marks := ShiftBlocks(ref, hyp);
    var blocks := MarkBlocks(keys, marks);
    var free := Unmarked(|hyp|, marks);
    var gaps := FillGaps(ref, hyp, marks, free);
    blocks := SortBlocks(blocks + gaps);
    aligns := ToSpans(ref, hyp, blocks, wordmatch);
  }

  // ---------------------------------------------------------------------
  // Properties of the result
  // ---------------------------------------------------------------------

  /** A block that stays inside the reference and the hypothesis, is at
      least one token long, and pairs two equal tokens at its start. */
  ghost predicate Anchored(ref: seq<Token>, hyp: seq<Token>, b: Block) {
    1 <= b.n && b.r + b.n <= |ref| && b.h < |hyp| && hyp[b.h] == ref[b.r]
  }

  lemma MarkBlocksAnchored(ref: seq<Token>, hyp: seq<Token>, t: Trace)
    requires Traced(ref, hyp, t)
    ensures forall b :: b in MarkBlocks(t.keys, t.marks) ==> Anchored(ref, hyp, b)
  {
    var bs := MarkBlocks(t.keys, t.marks);
    forall b | b in bs ensures Anchored(ref, hyp, b) {
      var i :| 0 <= i < |bs| && bs[i] == b;
      assert MarkMatches(ref, hyp, t.keys[i], t.marks[t.keys[i]]);
    }
  }

  lemma GapsAnchored(ref: seq<Token>, hyp: seq<Token>, marks: map<nat, seq<nat>>, free: set<nat>)
    requires forall c :: c in marks ==> |marks[c]| >= 1
    ensures forall b :: b in Gaps(ref, hyp, marks, free, 0) ==> Anchored(ref, hyp, b)
  {
    var gs := Gaps(ref, hyp, marks, free, 0);
    GapsSound(ref, hyp, marks, free, 0);
    forall b | b in gs ensures Anchored(ref, hyp, b) {
      assert GapBlock(ref, hyp, marks, free, b);
      assert hyp[b.h] == ref[b.r + (b.h - b.h)];
    }
  }

  /** Every block `align` returns pairs equal tokens at its start and lies
      within the reference: a shifted block because the shift matched, a
      second-pass block because the pass compared it. */
  lemma AlignAnchored(ref: seq<Token>, hyp: seq<Token>)
    ensures forall b :: b in AlignTokens(ref, hyp) ==> Anchored(ref, hyp, b)
  {
    var t := Shifts(Dist(ref), ref, Start(hyp));
    StartTraced(ref, hyp);
    ShiftsKeepTrace(Dist(ref), ref, hyp, Start(hyp));
    var ms := MarkBlocks(t.keys, t.marks);
    var gs := Gaps(ref, hyp, t.marks, Unmarked(|hyp|, t.marks), 0);
    MarkBlocksAnchored(ref, hyp, t);
    GapsAnchored(ref, hyp, t.marks, Unmarked(|hyp|, t.marks));
    forall b | b in AlignTokens(ref, hyp) ensures Anchored(ref, hyp, b) {
      assert b in multiset(ms + gs);
      assert b in ms || b in gs;
    }
  }

  lemma {:induction false} RunEndSelf(ref: seq<Token>, e: nat)
    requires 0 < e <= |ref|
    ensures RunEnd(ref, ref, 0, 0, e) == |ref|
    decreases |ref| - e
  {
    if e < |ref| {
      RunEndSelf(ref, e + 1);
    }
  }

  /** A sentence aligned with itself is one block covering all of it. */
  lemma AlignIdentical(ref: seq<Token>)
    requires |ref| >= 1
    ensures AlignTokens(ref, ref) == [Block(0, 0, |ref|)]
  {
    NoMatchesWhenEqual(ref);
    var t := Start(ref);
    assert Shifts(Dist(ref), ref, t) == t;
    var free := Unmarked(|ref|, t.marks);
    assert 0 in free;
    assert FirstFree(ref, free, ref[0], 0) == Some(0);
    RunEndSelf(ref, 1);
    GapsFound(ref, ref, t.marks, free, 0, 0, |ref|);
    GapsEnd(ref, ref, t.marks, free, |ref|);
    assert MarkBlocks(t.keys, t.marks) == [];
    assert SortBlocks([Block(0, 0, |ref|)]) == [Block(0, 0, |ref|)];
  }

  lemma {:induction false} JoinAppend(a: seq<Token>, b: seq<Token>)
    requires |a| >= 1 && |b| >= 1
    ensures Join(a + b) == Join(a) + " " + Join(b)
    decreases |a|
  {
    if |a| > 1 {
      JoinAppend(a[1..], b);
      assert (a + b)[1..] == a[1..] + b;
    }
  }

  lemma {:induction false} JoinWidth(toks: seq<Token>)
    requires |toks| >= 1
    ensures |Join(toks)| == Width(toks) - 1
    decreases |toks|
  {
    if |toks| > 1 {
      JoinWidth(toks[1..]);
    }
  }

  /** The words from `y` on start at character `Width(toks[:y])`. */
  lemma JoinSuffix(toks: seq<Token>, y: nat)
    requires y < |toks|
    ensures Width(toks[..y]) <= |Join(toks)| && Join(toks)[Width(toks[..y])..] == Join(toks[y..])
  {
    if y > 0 {
      var pre := toks[..y];
      JoinWidth(pre);
      JoinAppend(pre, toks[y..]);
      assert toks == pre + toks[y..];
      var a := Join(pre) + " ";
      assert Join(toks) == a + Join(toks[y..]);
      assert (a + Join(toks[y..]))[|a|..] == Join(toks[y..]);
    }
  }

  /** The first `w` words are the first `Width(toks[:w]) - 1` characters. */
  lemma JoinPrefix(toks: seq<Token>, w: nat)
    requires 1 <= w <= |toks|
    ensures Width(toks[..w]) - 1 <= |Join(toks)| && Join(toks)[..Width(toks[..w]) - 1] == Join(toks[..w])
  {
    var a := toks[..w];
    JoinWidth(a);
    if w < |toks| {
      var b := toks[w..];
      JoinAppend(a, b);
      assert toks == a + b;
      var ja, tail := Join(a), " " + Join(b);
      assert Join(toks) == ja + tail;
      assert (ja + tail)[..|ja|] == ja;
    } else {
      assert a == toks;
    }
  }

  /** In word mode the offsets locate the block in the text rejoined with
      single spaces: from `Width(toks[:y])` on, `Width(toks[y:y + w]) - 1`
      characters spell `toks[y:y + w]` joined. */
  lemma JoinSlice(toks: seq<Token>, y: nat, w: nat)
    requires 1 <= w && y + w <= |toks|
    ensures Width(toks[..y]) + Width(toks[y..y + w]) - 1 <= |Join(toks)|
    ensures Join(toks)[Width(toks[..y])..Width(toks[..y]) + Width(toks[y..y + w]) - 1] == Join(toks[y..y + w])
  {
    var start := Width(toks[..y]);
    var rest := toks[y..];
    JoinSuffix(toks, y);
    JoinPrefix(rest, w);
    assert rest[..w] == toks[y..y + w];
    var j := Join(toks);
    assert j[start..][..Width(rest[..w]) - 1] == j[start..start + Width(rest[..w]) - 1];
  }

  lemma WordSpan(ref: seq<Token>, hyp: seq<Token>, b: Block)
    requires Anchored(ref, hyp, b)
    ensures ToSpan(ref, hyp, b, true) == Span(Width(ref[..b.r]), Width(hyp[..b.h]), Width(ref[b.r..b.r + b.n]) - 1)
  {
  }

  lemma HypOffset(hyp: seq<Token>, z: nat)
    requires z < |hyp|
    ensures Width(hyp[..z]) + |hyp[z]| <= |Join(hyp)|
    ensures Join(hyp)[Width(hyp[..z])..Width(hyp[..z]) + |hyp[z]|] == hyp[z]
  {
    JoinSlice(hyp, z, 1);
    assert hyp[z..z + 1] == [hyp[z]];
    assert Width([hyp[z]]) == |hyp[z]| + 1;
    assert Join([hyp[z]]) == hyp[z];
  }

  /** The offsets of a word-mode triple, for any anchored block (every
      returned block is one, `AlignAnchored`): the reference offset and
      width spell the aligned reference words inside the reference text
      itself, and the hypothesis offset points, in the rejoined hypothesis,
      at a word equal to the first of them. */
  lemma WordOffsets(refText: string, hyp: seq<Token>, b: Block)
    requires Anchored(Split(refText), hyp, b)
    ensures var ref := Split(refText);
            var s := ToSpan(ref, hyp, b, true);
            && 0 <= s.r <= s.r + s.n <= |refText|
            && refText[s.r..s.r + s.n] == Join(ref[b.r..b.r + b.n])
            && s.h + |hyp[b.h]| <= |Join(hyp)|
            && Join(hyp)[s.h..s.h + |hyp[b.h]|] == ref[b.r]
  {
    JoinSplit(refText);
    OffsetsInText(refText, Split(refText), hyp, b);
  }

  /** `WordOffsets` for a reference given as tokens that rejoin to `text`. */
  lemma OffsetsInText(text: string, ref: seq<Token>, hyp: seq<Token>, b: Block)
    requires Anchored(ref, hyp, b) && Join(ref) == text
    ensures var s := ToSpan(ref, hyp, b, true);
            && 0 <= s.r <= s.r + s.n <= |text|
            && text[s.r..s.r + s.n] == Join(ref[b.r..b.r + b.n])
            && s.h + |hyp[b.h]| <= |Join(hyp)|
            && Join(hyp)[s.h..s.h + |hyp[b.h]|] == ref[b.r]
  {
    WordSpan(ref, hyp, b);
    JoinSlice(ref, b.r, b.n);
    HypOffset(hyp, b.h);
  }
}
