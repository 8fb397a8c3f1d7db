/**
  The greedy shift search of TER: `_iter_matches` proposes block moves,
  `_shift` applies each and keeps the best strictly improving one, `_ter`
  repeats until no move improves and scores
  `(shifts + residual distance) / len(ref)`; `ter` and `ter_glue` differ in
  the distance they hand to `_ter` and in padding.
*/
module Shifting {
  import opened Tokens
  import opened LexOrder
  import opened Levenshtein
  import opened FastEdit

  /** A shift `(csr, sp, ep)`: move `hyp[sp:ep]` so that it starts at `csr`. */
  datatype Move = Move(csr: nat, sp: nat, ep: nat)

  function MaxLen(ref: seq<Token>, hyp: seq<Token>): nat {
    if |ref| < |hyp| then |ref| else |hyp|
  }

  /** The moves `_iter_matches` proposes: a mismatching cursor `csr`, a
      different start `sp` whose token is the one missing at `csr`, and the
      longest run from there that keeps matching the reference. */
  ghost predicate IsCandidate(ref: seq<Token>, hyp: seq<Token>, mv: Move) {
    var m := MaxLen(ref, hyp);
    && mv.csr < m && ref[mv.csr] != hyp[mv.csr]
    && mv.sp < m && mv.sp != mv.csr && ref[mv.csr] == hyp[mv.sp]
    && mv.sp < mv.ep <= m && mv.csr + (mv.ep - mv.sp) <= |ref|
    && (forall x :: mv.sp <= x < mv.ep ==> ref[mv.csr + (x - mv.sp)] == hyp[x])
    && (mv.ep == m || mv.csr + (mv.ep - mv.sp) == |ref| || ref[mv.csr + (mv.ep - mv.sp)] != hyp[mv.ep])
  }

  /** The `for ep in range(sp + 1, maxlen + 1)` search: the first end at
      which the run stops matching, runs out of `hyp` or out of `ref`. */
  function MatchEnd(ref: seq<Token>, hyp: seq<Token>, csr: nat, sp: nat, ep: nat): (e: nat)
    requires csr < MaxLen(ref, hyp) && sp < ep <= MaxLen(ref, hyp) && csr + (ep - sp) <= |ref|
    ensures ep <= e <= MaxLen(ref, hyp) && csr + (e - sp) <= |ref|
    ensures forall x :: ep <= x < e ==> ref[csr + (x - sp)] == hyp[x]
    ensures e == MaxLen(ref, hyp) || csr + (e - sp) == |ref| || ref[csr + (e - sp)] != hyp[e]
    decreases MaxLen(ref, hyp) - ep
  {
    if ep == MaxLen(ref, hyp) || csr + (ep - sp) == |ref| || ref[csr + (ep - sp)] != hyp[ep] then ep
    else MatchEnd(ref, hyp, csr, sp, ep + 1)
  }

  /** The first proposal order: by cursor, then by start. */
  predicate MoveBefore(a: Move, b: Move) {
    a.csr < b.csr || (a.csr == b.csr && a.sp < b.sp)
  }

  /** The `for sp in range(maxlen)` loop for one cursor, from `sp` on: the
      moves it yields keep the cursor and come by increasing start. */
  function MatchesFrom(ref: seq<Token>, hyp: seq<Token>, csr: nat, sp: nat): (r: seq<Move>)
    requires csr < MaxLen(ref, hyp) && ref[csr] != hyp[csr] && sp <= MaxLen(ref, hyp)
    ensures forall i :: 0 <= i < |r| ==> r[i].csr == csr && sp <= r[i].sp < r[i].ep <= MaxLen(ref, hyp)
    ensures forall i, j :: 0 <= i < j < |r| ==> r[i].sp < r[j].sp
    decreases MaxLen(ref, hyp) - sp
  {
    if sp == MaxLen(ref, hyp) then []
    else
      var rest := MatchesFrom(ref, hyp, csr, sp + 1);
      if csr != sp && ref[csr] == hyp[sp] then
        [Move(csr, sp, MatchEnd(ref, hyp, csr, sp, sp + 1))] + rest
      else rest
  }

  /** The `for csr in range(maxlen)` loop, from `csr` on: moves come by
      cursor, then by start. */
  function MatchesAt(ref: seq<Token>, hyp: seq<Token>, csr: nat): (r: seq<Move>)
    requires csr <= MaxLen(ref, hyp)
    ensures forall i :: 0 <= i < |r| ==> csr <= r[i].csr && r[i].sp < r[i].ep <= MaxLen(ref, hyp)
    ensures forall i, j :: 0 <= i < j < |r| ==> MoveBefore(r[i], r[j])
    decreases MaxLen(ref, hyp) - csr
  {
    if csr == MaxLen(ref, hyp) then []
    else if ref[csr] == hyp[csr] then MatchesAt(ref, hyp, csr + 1)
    else MatchesFrom(ref, hyp, csr, 0) + MatchesAt(ref, hyp, csr + 1)
  }

  /** `_iter_matches(ref, hyp)`, as the list of what it yields, by cursor and
      then start; `IterMatchesExactly` says which moves these are. */
  function IterMatches(ref: seq<Token>, hyp: seq<Token>): (r: seq<Move>)
    ensures forall i :: 0 <= i < |r| ==> r[i].sp < r[i].ep <= MaxLen(ref, hyp)
    ensures forall i, j :: 0 <= i < j < |r| ==> MoveBefore(r[i], r[j])
  {
    MatchesAt(ref, hyp, 0)
  }

  /** The move proposed at a matching start is a candidate. */
  lemma HeadCandidate(ref: seq<Token>, hyp: seq<Token>, mv: Move)
    requires mv.csr < MaxLen(ref, hyp) && ref[mv.csr] != hyp[mv.csr]
    requires mv.sp < MaxLen(ref, hyp) && mv.csr != mv.sp && ref[mv.csr] == hyp[mv.sp]
    requires mv.ep == MatchEnd(ref, hyp, mv.csr, mv.sp, mv.sp + 1)
    ensures IsCandidate(ref, hyp, mv)
  {
    forall x | mv.sp <= x < mv.ep ensures ref[mv.csr + (x - mv.sp)] == hyp[x] {
      if x > mv.sp {
        assert mv.sp + 1 <= x < mv.ep;
      }
    }
  }

  lemma ConsCandidates(ref: seq<Token>, hyp: seq<Token>, mv: Move, rest: seq<Move>)
    requires IsCandidate(ref, hyp, mv)
    requires forall m :: m in rest ==> IsCandidate(ref, hyp, m)
    ensures forall m :: m in [mv] + rest ==> IsCandidate(ref, hyp, m)
  {
  }

  /** Every move the loop over starts yields is a candidate. */
  lemma {:induction false} MatchesFromSound(ref: seq<Token>, hyp: seq<Token>, csr: nat, sp: nat)
    requires csr < MaxLen(ref, hyp) && ref[csr] != hyp[csr] && sp <= MaxLen(ref, hyp)
    ensures forall mv :: mv in MatchesFrom(ref, hyp, csr, sp) ==> IsCandidate(ref, hyp, mv)
    decreases MaxLen(ref, hyp) - sp
  {
    if sp < MaxLen(ref, hyp) {
      var rest := MatchesFrom(ref, hyp, csr, sp + 1);
      MatchesFromSound(ref, hyp, csr, sp + 1);
      if csr != sp && ref[csr] == hyp[sp] {
        var head := Move(csr, sp, MatchEnd(ref, hyp, csr, sp, sp + 1));
        assert MatchesFrom(ref, hyp, csr, sp) == [head] + rest;
        HeadCandidate(ref, hyp, head);
        ConsCandidates(ref, hyp, head, rest);
      } else {
        assert MatchesFrom(ref, hyp, csr, sp) == rest;
      }
    }
  }

  /** Every move the loop over cursors yields is a candidate. */
  lemma {:induction false} MatchesAtSound(ref: seq<Token>, hyp: seq<Token>, csr: nat)
    requires csr <= MaxLen(ref, hyp)
    ensures forall mv :: mv in MatchesAt(ref, hyp, csr) ==> IsCandidate(ref, hyp, mv)
    decreases MaxLen(ref, hyp) - csr
  {
    if csr < MaxLen(ref, hyp) {
      MatchesAtSound(ref, hyp, csr + 1);
      if ref[csr] != hyp[csr] {
        MatchesFromSound(ref, hyp, csr, 0);
      }
    }
  }

  /** Entry `i` of `_iter_matches` is a candidate. */
  lemma IterMatchesSound(ref: seq<Token>, hyp: seq<Token>, i: nat)
    requires i < |IterMatches(ref, hyp)|
    ensures IsCandidate(ref, hyp, IterMatches(ref, hyp)[i])
  {
    MatchesAtSound(ref, hyp, 0);
    assert IterMatches(ref, hyp)[i] in IterMatches(ref, hyp);
  }

  lemma {:induction false} MatchEndFinds(ref: seq<Token>, hyp: seq<Token>, mv: Move, ep: nat)
    requires IsCandidate(ref, hyp, mv) && mv.sp < ep <= mv.ep
    ensures MatchEnd(ref, hyp, mv.csr, mv.sp, ep) == mv.ep
    decreases mv.ep - ep
  {
    if ep < mv.ep {
      assert ref[mv.csr + (ep - mv.sp)] == hyp[ep];
      MatchEndFinds(ref, hyp, mv, ep + 1);
    }
  }

  /** The loop over starts, from any start up to the move's, yields a move
      whose end is the one the search finds. */
  lemma {:induction false} MatchesFromFinds(ref: seq<Token>, hyp: seq<Token>, mv: Move, sp: nat)
    requires mv.csr < MaxLen(ref, hyp) && ref[mv.csr] != hyp[mv.csr]
    requires mv.sp < MaxLen(ref, hyp) && mv.csr != mv.sp && ref[mv.csr] == hyp[mv.sp]
    requires mv.ep == MatchEnd(ref, hyp, mv.csr, mv.sp, mv.sp + 1)
    requires sp <= mv.sp
    ensures mv in MatchesFrom(ref, hyp, mv.csr, sp)
    decreases mv.sp - sp
  {
    if sp < mv.sp {
      MatchesFromFinds(ref, hyp, mv, sp + 1);
      MatchesFromTail(ref, hyp, mv.csr, sp, mv);
    } else {
      MatchesFromHead(ref, hyp, mv);
    }
  }

  /** What a later start yields, an earlier start's loop yields too. */
  lemma MatchesFromTail(ref: seq<Token>, hyp: seq<Token>, csr: nat, sp: nat, mv: Move)
    requires csr < MaxLen(ref, hyp) && ref[csr] != hyp[csr] && sp < MaxLen(ref, hyp)
    requires mv in MatchesFrom(ref, hyp, csr, sp + 1)
    ensures mv in MatchesFrom(ref, hyp, csr, sp)
  {
  }

  /** The loop over starts yields the move found at its first start. */
  lemma MatchesFromHead(ref: seq<Token>, hyp: seq<Token>, mv: Move)
    requires mv.csr < MaxLen(ref, hyp) && ref[mv.csr] != hyp[mv.csr]
    requires mv.sp < MaxLen(ref, hyp) && mv.csr != mv.sp && ref[mv.csr] == hyp[mv.sp]
    requires mv.ep == MatchEnd(ref, hyp, mv.csr, mv.sp, mv.sp + 1)
    ensures mv in MatchesFrom(ref, hyp, mv.csr, mv.sp)
  {
    assert MatchesFrom(ref, hyp, mv.csr, mv.sp)[0] == mv;
  }

  lemma {:induction false} MatchesAtFinds(ref: seq<Token>, hyp: seq<Token>, mv: Move, csr: nat)
    requires IsCandidate(ref, hyp, mv) && csr <= mv.csr
    ensures mv in MatchesAt(ref, hyp, csr)
    decreases mv.csr - csr
  {
    if csr < mv.csr {
      MatchesAtFinds(ref, hyp, mv, csr + 1);
    } else {
      MatchEndFinds(ref, hyp, mv, mv.sp + 1);
      MatchesFromFinds(ref, hyp, mv, 0);
    }
  }

  /** `_iter_matches` yields exactly the candidate moves: a mismatching
      cursor, a different start holding the missing token, and the longest
      run from there that keeps matching the reference. */
  lemma IterMatchesExactly(ref: seq<Token>, hyp: seq<Token>, mv: Move)
    ensures mv in IterMatches(ref, hyp) <==> IsCandidate(ref, hyp, mv)
  {
    MatchesAtSound(ref, hyp, 0);
    if IsCandidate(ref, hyp, mv) {
      MatchesAtFinds(ref, hyp, mv, 0);
    }
  }

  lemma {:induction false} NoMatchesAtWhenEqual(ref: seq<Token>, csr: nat)
    requires csr <= |ref|
    ensures MatchesAt(ref, ref, csr) == []
    decreases |ref| - csr
  {
    if csr < |ref| {
      NoMatchesAtWhenEqual(ref, csr + 1);
    }
  }

  /** A hypothesis equal to the reference has nothing to shift. */
  lemma NoMatchesWhenEqual(ref: seq<Token>)
    ensures IterMatches(ref, ref) == []
  {
    NoMatchesAtWhenEqual(ref, 0);
  }

  /** The splice of lines 193-194: `nhyp = h[:sp] + h[ep:]`, then
      `nhyp[:csr] + h[sp:ep] + nhyp[csr:]` (Python clamps `csr` to the
      shortened list). A rearrangement: same length, same tokens. */
  function Splice<T>(xs: seq<T>, mv: Move): (r: seq<T>)
    requires mv.sp <= mv.ep <= |xs|
    ensures |r| == |xs| && multiset(r) == multiset(xs)
  {
    var rest := xs[..mv.sp] + xs[mv.ep..];
    var c := if mv.csr <= |rest| then mv.csr else |rest|;
    assert xs == xs[..mv.sp] + xs[mv.sp..mv.ep] + xs[mv.ep..];
    assert rest == rest[..c] + rest[c..];
    assert multiset(rest[..c] + xs[mv.sp..mv.ep] + rest[c..])
        == multiset(rest) + multiset(xs[mv.sp..mv.ep])
        == multiset(xs);
    rest[..c] + xs[mv.sp..mv.ep] + rest[c..]
  }

  /** When it fits, the moved block lands exactly at the cursor. */
  lemma SpliceLandsAtCursor<T>(xs: seq<T>, mv: Move)
    requires mv.sp <= mv.ep <= |xs| && mv.csr + (mv.ep - mv.sp) <= |xs|
    ensures Splice(xs, mv)[mv.csr..mv.csr + (mv.ep - mv.sp)] == xs[mv.sp..mv.ep]
  {
    var rest := xs[..mv.sp] + xs[mv.ep..];
    assert mv.csr <= |rest|;
    var r := Splice(xs, mv);
    assert r == rest[..mv.csr] + xs[mv.sp..mv.ep] + rest[mv.csr..];
  }

  /** The distances `_ter` is handed as `mtd`: `FastEditDistance(ref)`, i.e.
      `edit_distance(hyp, ref)` (`ter`), or
      `edit_distance(ref, filter(None, hyp))` (`ter_glue`). */
  datatype Metric = Plain | Glue

  function Distance(m: Metric, ref: seq<Token>, x: seq<Token>): nat {
    match m
    case Plain => Lev(x, ref)
    case Glue => Lev(ref, NonEmpty(x))
  }

  /** `mtd` as the function value `_ter` and `_shift` receive. */
  function Mtd(m: Metric, ref: seq<Token>): seq<Token> -> nat {
    x => Distance(m, ref, x)
  }

  /** `ter` needs a cache for its own reference; `ter_glue` needs nothing. */
  ghost predicate Ready(m: Metric, ed: FastEditDistance?, ref: seq<Token>)
    reads ed
  {
    m.Plain? ==> ed != null && ed.Valid() && ed.ref == ref
  }

  /** A call `mtd(x)`. */
  method Score(m: Metric, ed: FastEditDistance?, ref: seq<Token>, x: seq<Token>) returns (d: nat)
    requires Ready(m, ed, ref)
    modifies ed
    ensures Ready(m, ed, ref)
    ensures d == Distance(m, ref, x)
    ensures ed != null ==> multiset(old(ed.cacheKeys)) <= multiset(ed.cacheKeys)
  {
    if m.Plain? {
      d := ed.Query(x);
    } else {
      d := EditDistance(ref, NonEmpty(x));
    }
  }

  /** A scored candidate `(mtd(nhyp), nhyp)`; Python orders such tuples by
      score, then by the hypothesis list. */
  datatype Scored = Scored(score: nat, hyp: seq<Token>)

  predicate ScoredLess(a: Scored, b: Scored) {
    a.score < b.score || (a.score == b.score && TokensLess(a.hyp, b.hyp))
  }

  lemma ScoredOrder()
    ensures Irreflexive(ScoredLess) && Transitive(ScoredLess)
  {
    TokensOrder();
  }

  /** The rearranged hypotheses `_shift` scores, one per proposed move, in
      `_iter_matches` order. */
  function Proposals(ref: seq<Token>, h: seq<Token>): (ps: seq<seq<Token>>)
    ensures |ps| == |IterMatches(ref, h)|
    ensures forall i :: 0 <= i < |ps| ==> |ps[i]| == |h| && multiset(ps[i]) == multiset(h)
  {
    var mvs := IterMatches(ref, h);
    seq(|mvs|, i requires 0 <= i < |mvs| => Splice(h, mvs[i]))
  }

  /** The proposals are exactly the splices of the candidate moves. */
  lemma ProposalsExactly(ref: seq<Token>, h: seq<Token>, p: seq<Token>)
    ensures p in Proposals(ref, h) <==> exists mv :: IsCandidate(ref, h, mv) && p == Splice(h, mv)
  {
    var mvs := IterMatches(ref, h);
    var ps := Proposals(ref, h);
    if p in ps {
      var i :| 0 <= i < |ps| && ps[i] == p;
      IterMatchesSound(ref, h, i);
      assert IsCandidate(ref, h, mvs[i]) && p == Splice(h, mvs[i]);
    }
    if mv :| IsCandidate(ref, h, mv) && p == Splice(h, mv) {
      IterMatchesExactly(ref, h, mv);
      var i :| 0 <= i < |mvs| && mvs[i] == mv;
      assert ps[i] == p;
    }
  }

  /** The `scores` list of `_shift`: each proposal with its distance. */
  function Candidates(mtd: seq<Token> -> nat, ref: seq<Token>, h: seq<Token>): (cs: seq<Scored>)
    ensures |cs| == |IterMatches(ref, h)|
  {
    var ps := Proposals(ref, h);
    seq(|ps|, i requires 0 <= i < |ps| => Scored(mtd(ps[i]), ps[i]))
  }

  /** Entry `i` of `scores` is the `i`-th proposed move applied to `h`, with
      its distance. */
  lemma CandidateAt(mtd: seq<Token> -> nat, ref: seq<Token>, h: seq<Token>, i: nat)
    requires i < |IterMatches(ref, h)|
    ensures var nhyp := Splice(h, IterMatches(ref, h)[i]);
            Candidates(mtd, ref, h)[i] == Scored(mtd(nhyp), nhyp)
  {
  }

  /** The head of `_shift`'s sorted `scores`. */
  function Best(mtd: seq<Token> -> nat, ref: seq<Token>, h: seq<Token>): (b: Scored)
    requires |IterMatches(ref, h)| > 0
    ensures b in Candidates(mtd, ref, h)
  {
    Least(Candidates(mtd, ref, h), ScoredLess)
  }

  /** No scored proposal is below the head of the sorted list. */
  lemma BestIsLeast(mtd: seq<Token> -> nat, ref: seq<Token>, h: seq<Token>)
    requires |IterMatches(ref, h)| > 0
    ensures forall i :: 0 <= i < |Candidates(mtd, ref, h)| ==> !ScoredLess(Candidates(mtd, ref, h)[i], Best(mtd, ref, h))
  {
    ScoredOrder();
    LeastIsMinimal(Candidates(mtd, ref, h), ScoredLess);
  }

  /** The head of the sorted list is a proposal with its own distance. */
  lemma BestIsProposal(mtd: seq<Token> -> nat, ref: seq<Token>, h: seq<Token>)
    requires |IterMatches(ref, h)| > 0
    ensures Best(mtd, ref, h).hyp in Proposals(ref, h)
    ensures Best(mtd, ref, h).score == mtd(Best(mtd, ref, h).hyp)
  {
    var ps := Proposals(ref, h);
    var cs := Candidates(mtd, ref, h);
    var j :| 0 <= j < |cs| && cs[j] == Best(mtd, ref, h);
    assert cs[j] == Scored(mtd(ps[j]), ps[j]);
  }

  /** `_shift(ref, h, mtd)` as a value: the least `(score, nhyp)` if its score
      is strictly below `mtd(h)`, otherwise `(0, h)`. */
  function ShiftStep(mtd: seq<Token> -> nat, ref: seq<Token>, h: seq<Token>): (int, seq<Token>) {
    if |IterMatches(ref, h)| == 0 then (0, h)
    else
      var best := Best(mtd, ref, h);
      if best.score < mtd(h) then (best.score - mtd(h), best.hyp) else (0, h)
  }

  /** `_shift` returns `delta <= 0` and a hypothesis whose distance is
      exactly `mtd(h) + delta`; `delta == 0` leaves `h` unchanged. */
  lemma ShiftStepImproves(mtd: seq<Token> -> nat, ref: seq<Token>, h: seq<Token>)
    ensures ShiftStep(mtd, ref, h).0 <= 0
    ensures mtd(ShiftStep(mtd, ref, h).1) == mtd(h) + ShiftStep(mtd, ref, h).0
    ensures ShiftStep(mtd, ref, h).0 == 0 ==> ShiftStep(mtd, ref, h).1 == h
  {
    if |IterMatches(ref, h)| > 0 {
      BestIsProposal(mtd, ref, h);
    }
  }

  /** What `_shift` returns is a rearrangement of `h`: one of the proposals
      when it strictly improves. */
  lemma ShiftStepPermutes(mtd: seq<Token> -> nat, ref: seq<Token>, h: seq<Token>)
    ensures |ShiftStep(mtd, ref, h).1| == |h| && multiset(ShiftStep(mtd, ref, h).1) == multiset(h)
    ensures ShiftStep(mtd, ref, h).0 < 0 ==> ShiftStep(mtd, ref, h).1 in Proposals(ref, h)
  {
    if |IterMatches(ref, h)| > 0 {
      BestIsProposal(mtd, ref, h);
    }
  }

  /** No proposal reaches a lower distance than a strictly improving
      `_shift`, and among those reaching the same distance none is a
      smaller list. */
  lemma ShiftStepOptimal(mtd: seq<Token> -> nat, ref: seq<Token>, h: seq<Token>)
    requires ShiftStep(mtd, ref, h).0 < 0
    ensures forall p :: p in Proposals(ref, h) ==>
              mtd(ShiftStep(mtd, ref, h).1) < mtd(p)
              || (mtd(ShiftStep(mtd, ref, h).1) == mtd(p) && !TokensLess(p, ShiftStep(mtd, ref, h).1))
  {
    var ps := Proposals(ref, h);
    var cs := Candidates(mtd, ref, h);
    var best := Best(mtd, ref, h);
    BestIsProposal(mtd, ref, h);
    BestIsLeast(mtd, ref, h);
    forall p | p in ps
      ensures best.score < mtd(p) || (best.score == mtd(p) && !TokensLess(p, best.hyp))
    {
      var i :| 0 <= i < |ps| && ps[i] == p;
      assert cs[i] == Scored(mtd(p), p);
    }
  }

  /** No proposal beats a `_shift` that found nothing better than `h`. */
  lemma ShiftStepStops(mtd: seq<Token> -> nat, ref: seq<Token>, h: seq<Token>)
    requires ShiftStep(mtd, ref, h).0 == 0
    ensures forall p :: p in Proposals(ref, h) ==> mtd(h) <= mtd(p)
  {
    var ps := Proposals(ref, h);
    if |ps| > 0 {
      var cs := Candidates(mtd, ref, h);
      BestIsLeast(mtd, ref, h);
      forall p | p in ps ensures mtd(h) <= mtd(p) {
        var i :| 0 <= i < |ps| && ps[i] == p;
        assert cs[i] == Scored(mtd(p), p);
      }
    }
  }

  /** One step of the scan below: scoring the `i`-th proposal and keeping
      it only when it is strictly below the least so far yields the least
      of the first `i + 1` entries of `scores`. */
  lemma ScanStep(mtd: seq<Token> -> nat, ref: seq<Token>, h: seq<Token>, i: nat, best: Scored, c: Scored)
    requires i < |IterMatches(ref, h)|
    requires c.hyp == Splice(h, IterMatches(ref, h)[i]) && c.score == mtd(c.hyp)
    requires i > 0 ==> best == Least(Candidates(mtd, ref, h)[..i], ScoredLess)
    ensures (if i == 0 || ScoredLess(c, best) then c else best) == Least(Candidates(mtd, ref, h)[..i + 1], ScoredLess)
  {
    CandidateAt(mtd, ref, h, i);
    LeastOfPrefix(Candidates(mtd, ref, h), i, ScoredLess);
  }

  /** A scan over all of `scores` ends with its head. */
  lemma ScanComplete(mtd: seq<Token> -> nat, ref: seq<Token>, h: seq<Token>, best: Scored)
    requires |IterMatches(ref, h)| > 0
    requires best == Least(Candidates(mtd, ref, h)[..|IterMatches(ref, h)|], ScoredLess)
    ensures best == Best(mtd, ref, h)
  {
    assert Candidates(mtd, ref, h)[..|IterMatches(ref, h)|] == Candidates(mtd, ref, h);
  }

  /** The scoring loop of `_shift` followed by `scores.sort()` and
      `scores[0]`, as one pass that keeps the least `(score, nhyp)` so far. */
  method ScoreProposals(m: Metric, ed: FastEditDistance?, ref: seq<Token>, h: seq<Token>)
    returns (best: Scored)
    requires Ready(m, ed, ref) && |IterMatches(ref, h)| > 0
    modifies ed
    ensures Ready(m, ed, ref)
    ensures best == Best(Mtd(m, ref), ref, h)
    ensures ed != null ==> multiset(old(ed.cacheKeys)) <= multiset(ed.cacheKeys)
  {
    var moves := IterMatches(ref, h);
    ghost var mtd := Mtd(m, ref);
    best := Scored(0, h);
    var i := 0;
    while i < |moves|
      invariant 0 <= i <= |moves|
      invariant Ready(m, ed, ref)
      invariant ed != null ==> multiset(old(ed.cacheKeys)) <= multiset(ed.cacheKeys)
      invariant i > 0 ==> best == Least(Candidates(mtd, ref, h)[..i], ScoredLess)
    {
      var nhyp := Splice(h, moves[i]);
      var score := Score(m, ed, ref, nhyp);
      ScanStep(mtd, ref, h, i, best, Scored(score, nhyp));
      if i == 0 || ScoredLess(Scored(score, nhyp), best) {
        best := Scored(score, nhyp);
      }
      i := i + 1;
    }
    ScanComplete(mtd, ref, h, best);
  }

  /** `ShiftStep` read off from `mtd(h)` and the head of `scores`. */
  lemma ShiftStepCases(mtd: seq<Token> -> nat, ref: seq<Token>, h: seq<Token>, pre: nat)
    requires pre == mtd(h)
    ensures |IterMatches(ref, h)| == 0 ==> ShiftStep(mtd, ref, h).0 == 0 && ShiftStep(mtd, ref, h).1 == h
    ensures |IterMatches(ref, h)| > 0 ==>
              var best := Best(mtd, ref, h);
              && ShiftStep(mtd, ref, h).0 == (if best.score < pre then best.score - pre else 0)
              && ShiftStep(mtd, ref, h).1 == (if best.score < pre then best.hyp else h)
  {
  }

  /** `_shift`: scores every proposed move with `mtd` and keeps the least
      `(score, nhyp)` when it beats `mtd(h)`. */
  method Shift(m: Metric, ed: FastEditDistance?, ref: seq<Token>, h: seq<Token>)
    returns (delta: int, nh: seq<Token>)
    requires Ready(m, ed, ref)
    modifies ed
    ensures Ready(m, ed, ref)
    ensures delta == ShiftStep(Mtd(m, ref), ref, h).0 && nh == ShiftStep(Mtd(m, ref), ref, h).1
    ensures ed != null ==> multiset(old(ed.cacheKeys)) <= multiset(ed.cacheKeys)
  {
    var preScore := Score(m, ed, ref, h);
    ShiftStepCases(Mtd(m, ref), ref, h, preScore);
    if |IterMatches(ref, h)| == 0 {
      return 0, h;
    }
    var best := ScoreProposals(m, ed, ref, h);
    if best.score < preScore {
      delta, nh := best.score - preScore, best.hyp;
    } else {
      delta, nh := 0, h;
    }
  }

  /** The loop of `_ter` as a value: the number of accepted shifts and the
      final hypothesis. It terminates because every accepted shift lowers
      the non-negative distance. */
  function Converge(mtd: seq<Token> -> nat, ref: seq<Token>, h: seq<Token>): (nat, seq<Token>)
    decreases mtd(h)
  {
    var (delta, nh) := ShiftStep(mtd, ref, h);
    if delta < 0 then
      ShiftStepImproves(mtd, ref, h);
      var (k, f) := Converge(mtd, ref, nh);
      (k + 1, f)
    else (0, h)
  }

  /** The numerator `err + mtd(hyp)` of `_ter`; the denominator is `len(ref)`. */
  function Numerator(mtd: seq<Token> -> nat, ref: seq<Token>, hyp: seq<Token>): nat {
    var (k, f) := Converge(mtd, ref, hyp);
    k + mtd(f)
  }

  /** Shifts plus residual distance never exceed the starting distance; the
      final hypothesis is a rearrangement of the first and admits no
      improving shift. */
  lemma {:induction false} ConvergeBound(mtd: seq<Token> -> nat, ref: seq<Token>, h: seq<Token>)
    ensures var (k, f) := Converge(mtd, ref, h);
            && k + mtd(f) <= mtd(h)
            && |f| == |h| && multiset(f) == multiset(h)
            && ShiftStep(mtd, ref, f).0 == 0
    decreases mtd(h)
  {
    ShiftStepImproves(mtd, ref, h);
    ShiftStepPermutes(mtd, ref, h);
    var (delta, nh) := ShiftStep(mtd, ref, h);
    if delta < 0 {
      ConvergeBound(mtd, ref, nh);
    }
  }

  /** The TER numerator is at most the distance of the unshifted hypothesis. */
  lemma NumeratorAtMostDistance(mtd: seq<Token> -> nat, ref: seq<Token>, hyp: seq<Token>)
    ensures Numerator(mtd, ref, hyp) <= mtd(hyp)
  {
    ConvergeBound(mtd, ref, hyp);
  }

  /** A hypothesis equal to the reference scores 0 under `ter`'s distance. */
  lemma NumeratorOfReference(ref: seq<Token>)
    ensures Numerator(Mtd(Plain, ref), ref, ref) == 0
  {
    NoMatchesWhenEqual(ref);
    LevZeroIffEqual(ref, ref);
  }

  lemma NoEmptyKept(x: seq<Token>, y: seq<Token>)
    requires "" !in x && multiset(y) == multiset(x)
    ensures "" !in y
  {
    assert "" !in multiset(x);
  }

  /** Two distances that agree on hypotheses without empty tokens make the
      same `_shift` from such a hypothesis. */
  lemma ShiftStepAgrees(mtd1: seq<Token> -> nat, mtd2: seq<Token> -> nat, ref: seq<Token>, h: seq<Token>)
    requires forall x :: "" !in x ==> mtd1(x) == mtd2(x)
    requires "" !in h
    ensures ShiftStep(mtd1, ref, h).0 == ShiftStep(mtd2, ref, h).0
    ensures ShiftStep(mtd1, ref, h).1 == ShiftStep(mtd2, ref, h).1
  {
    var ps := Proposals(ref, h);
    forall i | 0 <= i < |ps| ensures Candidates(mtd1, ref, h)[i] == Candidates(mtd2, ref, h)[i] {
      NoEmptyKept(h, ps[i]);
    }
    assert Candidates(mtd1, ref, h) == Candidates(mtd2, ref, h);
  }

  /** ... and drive `_ter` through the same shifts. */
  lemma {:induction false} ConvergeAgrees(mtd1: seq<Token> -> nat, mtd2: seq<Token> -> nat, ref: seq<Token>, h: seq<Token>)
    requires forall x :: "" !in x ==> mtd1(x) == mtd2(x)
    requires "" !in h
    ensures Converge(mtd1, ref, h).0 == Converge(mtd2, ref, h).0
    ensures Converge(mtd1, ref, h).1 == Converge(mtd2, ref, h).1
    decreases mtd1(h)
  {
    ShiftStepAgrees(mtd1, mtd2, ref, h);
    ConvergeStep(mtd1, ref, h);
    ConvergeStep(mtd2, ref, h);
    ShiftStepPermutes(mtd1, ref, h);
    if ShiftStep(mtd1, ref, h).0 < 0 {
      var nh := ShiftStep(mtd1, ref, h).1;
      NoEmptyKept(h, nh);
      ConvergeAgrees(mtd1, mtd2, ref, nh);
    }
  }

  /** Without empty tokens the two distances agree (`Lev` is symmetric). */
  lemma DistancesAgree(ref: seq<Token>, x: seq<Token>)
    requires "" !in x
    ensures Distance(Glue, ref, x) == Distance(Plain, ref, x)
  {
    NonEmptyIdentity(x);
    LevSymmetric(ref, x);
  }

  /** `ter_glue` agrees with `ter` when the hypothesis is at least as long as
      the reference and has no empty token (no padding, nothing filtered). */
  lemma GlueAgreesWithPlain(ref: seq<Token>, hyp: seq<Token>)
    requires |hyp| >= |ref| && "" !in hyp
    ensures Numerator(Mtd(Glue, ref), ref, Glued(hyp, |ref|)) == Numerator(Mtd(Plain, ref), ref, hyp)
  {
    var glue, plain := Mtd(Glue, ref), Mtd(Plain, ref);
    forall x | "" !in x ensures glue(x) == plain(x) {
      DistancesAgree(ref, x);
    }
    assert Glued(hyp, |ref|) == hyp;
    ConvergeAgrees(glue, plain, ref, hyp);
    var (k, f) := Converge(plain, ref, hyp);
    ConvergeBound(plain, ref, hyp);
    NoEmptyKept(hyp, f);
  }

  /** For `ref = ["a"]`, the empty token of `hyp = ["a", ""]` costs
      `ter`'s distance one deletion ... */
  lemma PlainCountsPadding()
    ensures Distance(Plain, ["a"], ["a", ""]) == 1
  {
    var r: seq<Token>, x: seq<Token> := ["a"], ["a", ""];
    assert x[..1] == r && r[..0] == [];
    LevZeroIffEqual(r, r);
    assert Lev(r, r[..0]) == 1 && Lev(x, r[..0]) == 2;
    assert Lev(x, r) == Min3(Lev(r, r) + 1, Lev(x, r[..0]) + 1, Lev(r, r[..0]) + Cost("", "a"));
  }

  /** `ter_glue`'s distance ignores empty tokens wherever they are. */
  lemma GlueIgnoresEmpty(ref: seq<Token>, x: seq<Token>)
    ensures Distance(Glue, ref, x) == Distance(Glue, ref, NonEmpty(x))
  {
    NonEmptyIdentity(NonEmpty(x));
  }

  /** With no move to propose, `_ter` adds nothing to the distance. */
  lemma NoMovesNumerator(mtd: seq<Token> -> nat, ref: seq<Token>, h: seq<Token>)
    requires |IterMatches(ref, h)| == 0
    ensures Numerator(mtd, ref, h) == mtd(h)
  {
    ConvergeStep(mtd, ref, h);
  }

  lemma NoMovesOnPaddedA()
    ensures |IterMatches(["a"], ["a", ""])| == 0
  {
    var r: seq<Token>, x: seq<Token> := ["a"], ["a", ""];
    assert MatchesAt(r, x, 1) == [];
  }

  /** ... so the two scores differ: against `ref = ["a"]`, `ter` gives the
      hypothesis `["a", ""]` numerator 1, `ter_glue` numerator 0. */
  lemma GlueBelowPlainOnEmptyToken()
    ensures Numerator(Mtd(Plain, ["a"]), ["a"], ["a", ""]) == 1
    ensures Numerator(Mtd(Glue, ["a"]), ["a"], Glued(["a", ""], 1)) == 0
  {
    var r: seq<Token>, x: seq<Token> := ["a"], ["a", ""];
    NoMovesOnPaddedA();
    NoMovesNumerator(Mtd(Plain, r), r, x);
    NoMovesNumerator(Mtd(Glue, r), r, x);
    PlainCountsPadding();
    assert Glued(x, 1) == x;
    assert NonEmpty(x) == r by {
      assert x[..1] == r;
      NonEmptyIdentity(r);
    }
    LevZeroIffEqual(r, r);
  }

  /** The outcome of `ter` / `ter_glue`: `numerator / denominator`, or the
      `ZeroDivisionError` of an empty reference. */
  datatype TerResult = Rate(numerator: nat, denominator: nat) | DivisionUndefined

  /** One round of the `_ter` loop: an improving shift adds one to the
      count and continues from the shifted hypothesis, which is strictly
      closer; otherwise the loop stops where it is. */
  lemma ConvergeStep(mtd: seq<Token> -> nat, ref: seq<Token>, h: seq<Token>)
    ensures ShiftStep(mtd, ref, h).0 < 0 ==>
              && mtd(ShiftStep(mtd, ref, h).1) < mtd(h)
              && Converge(mtd, ref, h).0 == Converge(mtd, ref, ShiftStep(mtd, ref, h).1).0 + 1
              && Converge(mtd, ref, h).1 == Converge(mtd, ref, ShiftStep(mtd, ref, h).1).1
    ensures ShiftStep(mtd, ref, h).0 >= 0 ==> Converge(mtd, ref, h).0 == 0 && Converge(mtd, ref, h).1 == h
  {
    ShiftStepImproves(mtd, ref, h);
  }

  /** `_ter`: shift while some shift strictly improves, counting them, then
      add the remaining distance. */
  method TerCore(m: Metric, ed: FastEditDistance?, ref: seq<Token>, hyp: seq<Token>) returns (num: nat)
    requires Ready(m, ed, ref)
    modifies ed
    ensures Ready(m, ed, ref)
    ensures num == Numerator(Mtd(m, ref), ref, hyp)
    ensures ed != null ==> multiset(old(ed.cacheKeys)) <= multiset(ed.cacheKeys)
  {
    ghost var mtd := Mtd(m, ref);
    var err := 0;
    var h := hyp;
    while true
      invariant Ready(m, ed, ref)
      invariant ed != null ==> multiset(old(ed.cacheKeys)) <= multiset(ed.cacheKeys)
      invariant Converge(mtd, ref, hyp).0 == err + Converge(mtd, ref, h).0
      invariant Converge(mtd, ref, hyp).1 == Converge(mtd, ref, h).1
      decreases mtd(h)
    {
      var delta, nh := Shift(m, ed, ref, h);
      ConvergeStep(mtd, ref, h);
      if !(delta < 0) {
        break;
      }
      h := nh;
      err := err + 1;
    }
    var last := Score(m, ed, ref, h);
    num := err + last;
  }

  /** `ter(ref, hyp, wordmatch)`: no padding, cached `edit_distance(hyp, ref)`. */
  method Ter(refText: string, hypText: string, wordmatch: bool) returns (r: TerResult)
    ensures var ref := Str2List(refText, wordmatch);
            r == if |ref| == 0 then DivisionUndefined
                 else Rate(Numerator(Mtd(Plain, ref), ref, Str2List(hypText, wordmatch)), |ref|)
  {
    var ref := Str2List(refText, wordmatch);
    var hyp := Str2List(hypText, wordmatch);
    var ed := new FastEditDistance(ref);
    var num := TerCore(Plain, ed, ref, hyp);
    if |ref| == 0 {
      return DivisionUndefined;
    }
    r := Rate(num, |ref|);
  }

  /** `ter_glue(ref, hyp, wordmatch)`: pad with empty tokens up to `len(ref)`
      and score with `edit_distance(ref, filter(None, x))`. */
  method TerGlue(refText: string, hypText: string, wordmatch: bool) returns (r: TerResult)
    ensures var ref := Str2List(refText, wordmatch);
            r == if |ref| == 0 then DivisionUndefined
                 else Rate(Numerator(Mtd(Glue, ref), ref, Glued(Str2List(hypText, wordmatch), |ref|)), |ref|)
  {
    var ref := Str2List(refText, wordmatch);
    var hyp := Str2List(hypText, wordmatch);
    hyp := Glued(hyp, |ref|);
    var num := TerCore(Glue, null, ref, hyp);
    if |ref| == 0 {
      return DivisionUndefined;
    }
    r := Rate(num, |ref|);
  }

  /** `ter(s, s)` is 0 for every sentence. */
  lemma TerOfIdenticalSentences(text: string, wordmatch: bool)
    ensures Numerator(Mtd(Plain, Str2List(text, wordmatch)), Str2List(text, wordmatch), Str2List(text, wordmatch)) == 0
  {
    NumeratorOfReference(Str2List(text, wordmatch));
  }
}
