/** What the content check answers, said of the operations, the text and the threshold
    alone: which operation stops it, which are kept and where, which are rejected and why. */
module Outcomes {
  import opened Text
  import opened Search
  import opened Wrappers
  import opened AiOps
  import opened ContentCheck
  import opened Recheck
  import opened Targets
  import opened EditDistance
  import opened Similarity

  // ----- one operation -----

  /** What the operation quotes is nowhere in the text. */
  ghost predicate Missing(op: Op, text: string) {
    if op.Insert? then op.anchor.Some? && forall k: nat :: !Matches(text, op.anchor.value.quote, k)
    else !IsThere(op, text)
  }

  /** A shortest script between the trimmed texts is no longer than the share of the longer
      text that the threshold allows. */
  ghost predicate Reaches(expected: string, actual: string, threshold: real) {
    exists d: nat, longest: nat ::
      IsDistance(Trim(expected), Trim(actual), d) && IsLonger(expected, actual, longest) && Allows(threshold, d, longest)
  }

  ghost predicate Allows(threshold: real, d: nat, longest: nat) { d as real <= (1.0 - threshold) * longest as real }

  /** It is nowhere, yet similar enough to what stands at its range. */
  ghost predicate Stops(op: Op, text: string, threshold: real) {
    !op.Insert? && Missing(op, text) && Reaches(op.expected, Slice(text, op.start, op.end), threshold)
  }

  lemma ShareAllows(score: real, threshold: real, d: nat, longest: nat)
    requires IsShare(score, d, longest) && longest > 0
    ensures score >= threshold <==> Allows(threshold, d, longest)
  {
    var n := longest as real;
    if score >= threshold {
      assert (score - threshold) * n >= 0.0;
    } else {
      assert (threshold - score) * n > 0.0;
    }
  }

  lemma ReachesIsScore(expected: string, actual: string, threshold: real)
    requires expected != actual
    ensures Score(expected, actual) >= threshold <==> Reaches(expected, actual, threshold)
  {
    ScoreMeasures(expected, actual);
    var score := Score(expected, actual);
    var d: nat, longest: nat :|
      IsDistance(Trim(expected), Trim(actual), d) && IsLonger(expected, actual, longest) && IsShare(score, d, longest);
    assert longest > 0;
    assert forall n: nat :: IsLonger(expected, actual, n) <==> n == longest;
    hide Score, IsDistance, IsLonger, IsShare, Trim, Allows, Measures;
    ShareAllows(score, threshold, d, longest);
    forall e: nat ensures IsDistance(Trim(expected), Trim(actual), e) <==> e == d {
      DistanceIs(Trim(expected), Trim(actual), d);
      DistanceIs(Trim(expected), Trim(actual), e);
    }
  }

  lemma PlacedUnlessMissing(ops: seq<Op>, text: string, i: nat)
    requires i < |ops|
    ensures Placements(ops, text, map[])[i].None? <==> Missing(ops[i], text)
  {
    var op := ops[i];
    if !op.Insert? {
      RangePlacement(ops, text, map[], i);
      ThereIsLocated(op, text);
    } else if op.anchor.Some? {
      AnchoredPlacement(ops, text, map[], i);
      MatchedIsFound(text, op.anchor.value.quote, op.position);
    } else {
      InsertionsFollowTheirRange(ops, text, map[], i);
    }
    hide Placements, Located, Matches, Find, IsThere;
  }

  lemma MatchedIsFound(text: string, quote: string, hint: int)
    ensures Find(text, quote, hint).Some? <==> exists k: nat :: Matches(text, quote, k)
  {
    if k: nat :| Matches(text, quote, k) {
      SomethingFound(text, quote, k, hint);
    }
    if Find(text, quote, hint).Some? {
      FoundIsAMatch(text, quote, hint);
    }
    hide Matches, Find;
  }

  lemma StopsIsAlike(ops: seq<Op>, text: string, threshold: real, i: nat)
    requires i < |ops|
    ensures Placements(ops, text, map[])[i].None? && Alike(ops[i], text, threshold) <==> Stops(ops[i], text, threshold)
  {
    PlacedUnlessMissing(ops, text, i);
    var op := ops[i];
    hide Placements, Reaches, Score;
    if !op.Insert? && Missing(op, text) {
      ReachesIsScore(op.expected, Slice(text, op.start, op.end), threshold);
    }
    hide Missing, Slice;
  }

  // ----- the answer -----

  ghost predicate FirstToStop(ops: seq<Op>, text: string, threshold: real, i: nat) {
    i < |ops| && Stops(ops[i], text, threshold) && forall j | 0 <= j < i :: !Stops(ops[j], text, threshold)
  }

  ghost predicate NoneStops(ops: seq<Op>, text: string, threshold: real) {
    forall i | 0 <= i < |ops| :: !Stops(ops[i], text, threshold)
  }

  predicate SameButOffsets(op: Op, placed: Op) {
    match op
    case Insert(_, t, a) => placed.Insert? && placed.text == t && placed.anchor == a
    case Delete(_, _, e) => placed.Delete? && placed.expected == e
    case Format(_, _, attrs, e) => placed.Format? && placed.attributes == attrs && placed.expected == e
  }

  /** Operation `i`, moved to its target. */
  ghost predicate IsMoved(ops: seq<Op>, text: string, i: nat, placed: Op)
    requires i < |ops|
  {
    SameButOffsets(ops[i], placed) && Target(ops, text, i, placed.At(), End(placed))
  }

  /** The rejection of operation `i`. */
  predicate IsRejection(ops: seq<Op>, i: nat, rejection: Rejection)
    requires i < |ops|
  {
    && rejection.index == i
    && (ops[i].Insert? <==> rejection.reason.AnchorMissing?)
    && (rejection.reason.TextMissing? ==> rejection.reason.start == ops[i].start && rejection.reason.end == ops[i].end)
  }

  /** In list order: what is not missing is kept, moved to its target, and what is missing is
      rejected. */
  ghost predicate Splits(ops: seq<Op>, text: string, kept: seq<Op>, rejected: seq<Rejection>) {
    exists ks: seq<nat>, rs: seq<nat> :: SplitsAt(ops, text, kept, rejected, ks, rs)
  }

  ghost predicate SplitsAt(ops: seq<Op>, text: string, kept: seq<Op>, rejected: seq<Rejection>, ks: seq<nat>, rs: seq<nat>) {
    && Ascending(ks) && Ascending(rs) && Parted(ops, text, ks, rs)
    && AllMoved(ops, text, kept, ks) && AllRejected(ops, rejected, rs)
  }

  /** The indices of what is there, and of what is missing. */
  ghost predicate Parted(ops: seq<Op>, text: string, ks: seq<nat>, rs: seq<nat>) {
    forall i | 0 <= i < |ops| :: (i in ks <==> !Missing(ops[i], text)) && (i in rs <==> Missing(ops[i], text))
  }

  ghost predicate AllMoved(ops: seq<Op>, text: string, kept: seq<Op>, ks: seq<nat>) {
    |ks| == |kept| && forall j | 0 <= j < |ks| :: ks[j] < |ops| && IsMoved(ops, text, ks[j], kept[j])
  }

  ghost predicate AllRejected(ops: seq<Op>, rejected: seq<Rejection>, rs: seq<nat>) {
    |rs| == |rejected| && forall j | 0 <= j < |rs| :: rs[j] < |ops| && IsRejection(ops, rs[j], rejected[j])
  }

  ghost predicate IsOutcome(ops: seq<Op>, text: string, threshold: real, r: Outcome) {
    match r
    case AllExact(valid) => NoneStops(ops, text, threshold) && Splits(ops, text, valid, [])
    case Partial(valid, rejected) => NoneStops(ops, text, threshold) && rejected != [] && Splits(ops, text, valid, rejected)
    case Fuzzy(i, expected, actual) =>
      && FirstToStop(ops, text, threshold, i) && !ops[i].Insert?
      && expected == ops[i].expected && actual == Slice(text, ops[i].start, ops[i].end)
  }

  lemma IsMovedWhenPlaced(ops: seq<Op>, text: string, i: nat)
    requires i < |ops| && Placements(ops, text, map[])[i].Some?
    ensures IsMoved(ops, text, i, Placements(ops, text, map[])[i].value)
  {
    OneTarget(ops, text, i);
    PlacementsAreSound(ops, text, map[], i);
    hide Placements, Target;
  }

  /** The indices below `n` of the operations that were not placed. */
  ghost function RejectedAt(ps: seq<Option<Op>>, n: nat): seq<nat>
    requires n <= |ps|
  {
    if n == 0 then [] else RejectedAt(ps, n - 1) + if ps[n - 1].Some? then [] else [n - 1]
  }

  lemma {:induction false} RejectedAtTheirs(ops: seq<Op>, ps: seq<Option<Op>>, n: nat)
    requires n <= |ops| == |ps|
    ensures var rs, rejected := RejectedAt(ps, n), Rejected(ops, ps, n);
            && |rs| == |rejected| && Ascending(rs)
            && forall j | 0 <= j < |rs| :: rs[j] < n && ps[rs[j]].None? && IsRejection(ops, rs[j], rejected[j])
  {
    if n != 0 {
      RejectedAtTheirs(ops, ps, n - 1);
    }
  }

  lemma {:induction false} RejectedAtMembers(ps: seq<Option<Op>>, n: nat, i: nat)
    requires i < n <= |ps|
    ensures i in RejectedAt(ps, n) <==> ps[i].None?
  {
    if i < n - 1 {
      RejectedAtMembers(ps, n - 1, i);
    } else {
      RejectedAtBelow(ps, n - 1);
    }
  }

  lemma {:induction false} RejectedAtBelow(ps: seq<Option<Op>>, n: nat)
    requires n <= |ps|
    ensures forall i | i in RejectedAt(ps, n) :: i < n
  {
    if n != 0 {
      RejectedAtBelow(ps, n - 1);
    }
  }

  lemma PlacementsParted(ops: seq<Op>, text: string)
    ensures var ps := Placements(ops, text, map[]); Parted(ops, text, KeptAt(ps, |ops|), RejectedAt(ps, |ops|))
  {
    var ps := Placements(ops, text, map[]);
    var ks, rs := KeptAt(ps, |ops|), RejectedAt(ps, |ops|);
    hide Placements, KeptAt, RejectedAt, Missing;
    forall i | 0 <= i < |ops| ensures (i in ks <==> !Missing(ops[i], text)) && (i in rs <==> Missing(ops[i], text)) {
      KeptMembers(ps, |ops|, i);
      RejectedAtMembers(ps, |ops|, i);
      PlacedUnlessMissing(ops, text, i);
    }
  }

  lemma PlacementsMoved(ops: seq<Op>, text: string)
    ensures var ps := Placements(ops, text, map[]); AllMoved(ops, text, Kept(ps, |ops|), KeptAt(ps, |ops|))
  {
    var ps := Placements(ops, text, map[]);
    KeptBelow(ps, |ops|);
    var ks, kept := KeptAt(ps, |ops|), Kept(ps, |ops|);
    hide Placements, KeptAt, Kept, IsMoved;
    forall j | 0 <= j < |ks| ensures ks[j] < |ops| && IsMoved(ops, text, ks[j], kept[j]) {
      IsMovedWhenPlaced(ops, text, ks[j]);
    }
  }

  lemma PlacementsSplit(ops: seq<Op>, text: string)
    ensures var ps := Placements(ops, text, map[]); Splits(ops, text, Kept(ps, |ops|), Rejected(ops, ps, |ops|))
  {
    var ps := Placements(ops, text, map[]);
    KeptBelow(ps, |ops|);
    RejectedAtTheirs(ops, ps, |ops|);
    hide Placements, KeptAt, Kept, Rejected, RejectedAt, Parted, AllMoved, IsRejection;
    PlacementsParted(ops, text);
    PlacementsMoved(ops, text);
    assert SplitsAt(ops, text, Kept(ps, |ops|), Rejected(ops, ps, |ops|), KeptAt(ps, |ops|), RejectedAt(ps, |ops|));
  }

  /** The check stops at the first operation that is nowhere but similar enough, and names
      it and both texts; if there is none, it keeps what is there, each moved to its target,
      and rejects the rest, each under its own index and for its own reason. */
  lemma CheckIsOutcome(ops: seq<Op>, text: string, threshold: real)
    ensures IsOutcome(ops, text, threshold, Check(ops, text, threshold))
  {
    var ps, alike := Placements(ops, text, map[]), Verdicts(ops, text, threshold);
    CheckStopsAtFirstAlike(ops, text, threshold);
    PlacementsSplit(ops, text);
    hide Placements, Splits, Stops, Alike, Kept, Rejected, Slice, Verdicts;
    forall i | 0 <= i < |ops| ensures ps[i].None? && alike[i] <==> Stops(ops[i], text, threshold) {
      StopsIsAlike(ops, text, threshold, i);
    }
  }

  /** What is kept and rejected does not depend on how it is told apart. */
  lemma NothingRejected(ops: seq<Op>, text: string, kept: seq<Op>, rejected: seq<Rejection>)
    requires Splits(ops, text, kept, rejected)
    ensures rejected == [] <==> forall i | 0 <= i < |ops| :: !Missing(ops[i], text)
    ensures kept == [] <==> forall i | 0 <= i < |ops| :: Missing(ops[i], text)
  {
    var ks, rs :| SplitsAt(ops, text, kept, rejected, ks, rs);
    hide Missing, IsMoved, IsRejection;
    if rejected != [] {
      assert rs[0] in rs;
    }
    if kept != [] {
      assert ks[0] in ks;
    }
  }
}
