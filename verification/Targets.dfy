/** Where the content check locates the operations of a list, said of the text and the list
    alone, and when what it keeps fits the text and is apart. */
module Targets {
  import opened Text
  import opened Search
  import opened Wrappers
  import opened AiOps
  import opened ContentCheck
  import opened Recheck
  import opened EditOrder

  /** A match that no other match beats: nearer to the hint than all others, or as near and
      further left. */
  ghost predicate Best(text: string, needle: string, hint: int, k: nat) {
    && Matches(text, needle, k)
    && forall j: nat | Matches(text, needle, j) && j != k ::
         Abs(k - hint) < Abs(j - hint) || (Abs(k - hint) == Abs(j - hint) && k < j)
  }

  /** A range stays where it is if it quotes its own slice; else it goes to the best match. */
  ghost predicate RangeTarget(op: Op, text: string, lo: nat, hi: nat)
    requires !op.Insert?
  {
    if op.expected == Slice(text, op.start, op.end) then lo == op.start && hi == op.end
    else Best(text, op.expected, op.start, lo) && hi == lo + |op.expected|
  }

  /** An anchored insertion goes to an edge of the best match of its quote. */
  ghost predicate AnchorTarget(op: Op, text: string, at: nat)
    requires op.Insert? && op.anchor.Some?
  {
    var quote := op.anchor.value.quote;
    if op.anchor.value.before then Best(text, quote, op.position, at)
    else |quote| <= at && Best(text, quote, op.position, at - |quote|)
  }

  /** The text of a range is where it was planned, or matches somewhere else. */
  ghost predicate IsThere(op: Op, text: string)
    requires !op.Insert?
  {
    op.expected == Slice(text, op.start, op.end) || exists k: nat :: Matches(text, op.expected, k)
  }

  /** Looking back from index `i`, the nearest range that was planned at `offset` and whose
      text is there. */
  ghost function Leader(ops: seq<Op>, text: string, i: nat, offset: nat): (leader: Option<nat>)
    requires i <= |ops|
    ensures leader.Some? ==>
              leader.value < i && !ops[leader.value].Insert? && ops[leader.value].start == offset && IsThere(ops[leader.value], text)
  {
    if i == 0 then None
    else if !ops[i - 1].Insert? && ops[i - 1].start == offset && IsThere(ops[i - 1], text) then Some(i - 1)
    else Leader(ops, text, i - 1, offset)
  }

  /** Operation `i` is to work on the offsets from `lo` to `hi`. An insertion without an
      anchor goes where its leader goes, and stays if it has none. */
  ghost predicate Target(ops: seq<Op>, text: string, i: nat, lo: nat, hi: nat)
    requires i < |ops|
  {
    var op := ops[i];
    if !op.Insert? then RangeTarget(op, text, lo, hi)
    else
      && lo == hi
      && if op.anchor.Some? then AnchorTarget(op, text, lo)
         else
           match Leader(ops, text, i, op.position)
           case None => lo == op.position
           case Some(j) => exists end :: RangeTarget(ops[j], text, lo, end)
  }

  // ----- targets are what the check finds -----

  function End(op: Op): nat { if op.Insert? then op.position else op.end }

  /** Two operations of the same kind with the same offsets. */
  ghost predicate At(op: Op, lo: nat, hi: nat) { op.At() == lo && End(op) == hi }

  lemma FoundIsBest(text: string, needle: string, hint: int, k: nat)
    ensures Best(text, needle, hint, k) <==> Find(text, needle, hint).Some? && Find(text, needle, hint).value.start == k
  {
    FindRanksMatches(text, needle, hint, k);
    if Find(text, needle, hint).Some? {
      FoundIsAMatch(text, needle, hint);
    }
  }

  lemma RangeIsLocated(op: Op, text: string, lo: nat, hi: nat)
    requires !op.Insert?
    ensures RangeTarget(op, text, lo, hi) <==> Located(op, text).Some? && At(Located(op, text).value, lo, hi)
  {
    FoundIsBest(text, op.expected, op.start, lo);
    if Find(text, op.expected, op.start).Some? {
      FoundIsAMatch(text, op.expected, op.start);
    }
    hide Best, Slice;
  }

  lemma AnchorIsFound(op: Op, text: string, moves: Moves, at: nat)
    requires op.Insert? && op.anchor.Some?
    ensures AnchorTarget(op, text, at) <==> Anchored(op, text, moves).Some? && Anchored(op, text, moves).value.position == at
  {
    var quote := op.anchor.value.quote;
    if Find(text, quote, op.position).Some? {
      FoundIsAMatch(text, quote, op.position);
    }
    if op.anchor.value.before {
      FoundIsBest(text, quote, op.position, at);
    } else if |quote| <= at {
      FoundIsBest(text, quote, op.position, at - |quote|);
    }
    hide Best;
  }

  lemma ThereIsLocated(op: Op, text: string)
    requires !op.Insert?
    ensures IsThere(op, text) <==> Located(op, text).Some?
  {
    if k: nat :| Matches(text, op.expected, k) {
      SomethingFound(text, op.expected, k, op.start);
    }
    if Find(text, op.expected, op.start).Some? {
      FoundIsAMatch(text, op.expected, op.start);
    }
    hide Matches, Slice, Find;
  }

  lemma {:induction false} DestinationIsLeaders(ops: seq<Op>, text: string, i: nat, offset: nat)
    requires i <= |ops|
    ensures match Leader(ops, text, i, offset)
            case None => Destination(ops, text, map[], i, offset) == offset
            case Some(j) => Located(ops[j], text).Some? && Destination(ops, text, map[], i, offset) == Located(ops[j], text).value.start
  {
    hide IsThere, Located;
    if i > 0 {
      DestinationIsLeaders(ops, text, i - 1, offset);
      if !ops[i - 1].Insert? {
        ThereIsLocated(ops[i - 1], text);
      }
    }
  }

  predicate SameKind(a: Op, b: Op) { a.Insert? == b.Insert? && a.Delete? == b.Delete? }

  lemma {:induction false} RangePlacement(ops: seq<Op>, text: string, moves: Moves, i: nat)
    requires i < |ops| && !ops[i].Insert?
    ensures Placements(ops, text, moves)[i] == Located(ops[i], text)
    decreases |ops|
  {
    hide Located, Learn;
    if i > 0 {
      RangePlacement(ops[1..], text, Learn(ops[0], text, moves), i - 1);
    }
  }

  lemma {:induction false} AnchoredPlacement(ops: seq<Op>, text: string, moves: Moves, i: nat)
    requires i < |ops| && ops[i].Insert? && ops[i].anchor.Some?
    ensures Placements(ops, text, moves)[i] == Anchored(ops[i], text, map[])
    decreases |ops|
  {
    hide Learn;
    if i > 0 {
      AnchoredPlacement(ops[1..], text, Learn(ops[0], text, moves), i - 1);
    }
  }

  /** The targets of an operation are the offsets it is placed at, if it is placed. */
  lemma TargetIsPlaced(ops: seq<Op>, text: string, i: nat, lo: nat, hi: nat)
    requires i < |ops|
    ensures var placed := Placements(ops, text, map[])[i];
            && (Target(ops, text, i, lo, hi) <==> placed.Some? && At(placed.value, lo, hi))
            && (placed.Some? ==> SameKind(ops[i], placed.value))
  {
    var op := ops[i];
    if !op.Insert? {
      RangePlacement(ops, text, map[], i);
      RangeIsLocated(op, text, lo, hi);
    } else if op.anchor.Some? {
      AnchoredPlacement(ops, text, map[], i);
      AnchorIsFound(op, text, map[], lo);
    } else {
      LedIsPlaced(ops, text, i, lo);
    }
  }

  lemma LedIsPlaced(ops: seq<Op>, text: string, i: nat, at: nat)
    requires i < |ops| && ops[i].Insert? && ops[i].anchor.None?
    ensures var placed := Placements(ops, text, map[])[i];
            placed.Some? && placed.value.Insert? && (Target(ops, text, i, at, at) <==> placed.value.position == at)
  {
    var offset := ops[i].position;
    InsertionsFollowTheirRange(ops, text, map[], i);
    DestinationIsLeaders(ops, text, i, offset);
    match Leader(ops, text, i, offset)
    case None =>
    case Some(j) =>
      var placed := Located(ops[j], text).value;
      forall end ensures RangeTarget(ops[j], text, at, end) <==> At(placed, at, end) {
        RangeIsLocated(ops[j], text, at, end);
      }
      assert RangeTarget(ops[j], text, at, placed.end) <==> placed.start == at;
  }

  // ----- when kept operations fit and are apart -----

  /** Two deletions do not overlap; an insertion is not strictly inside a deletion. */
  ghost predicate Clear(a: Op, lo: nat, hi: nat, b: Op, lo': nat, hi': nat) {
    && (a.Delete? && b.Delete? ==> hi <= lo' || hi' <= lo)
    && (a.Delete? && b.Insert? ==> lo' <= lo || hi <= lo')
    && (a.Insert? && b.Delete? ==> lo <= lo' || hi' <= lo)
  }

  ghost predicate PairClear(ops: seq<Op>, text: string, i: nat, j: nat)
    requires i < |ops| && j < |ops|
  {
    forall lo: nat, hi: nat, lo': nat, hi': nat | Target(ops, text, i, lo, hi) && Target(ops, text, j, lo', hi') ::
      Clear(ops[i], lo, hi, ops[j], lo', hi')
  }

  /** No two operations' targets overlap. */
  ghost predicate TargetsApart(ops: seq<Op>, text: string) {
    forall i, j | 0 <= i < j < |ops| :: PairClear(ops, text, i, j)
  }

  ghost predicate PairFalls(ops: seq<Op>, text: string, i: nat, j: nat)
    requires i < |ops| && j < |ops|
  {
    forall lo: nat, hi: nat, lo': nat, hi': nat | Target(ops, text, i, lo, hi) && Target(ops, text, j, lo', hi') :: lo' <= lo
  }

  /** No target lies further back than that of an operation before it in the list. */
  ghost predicate TargetsFall(ops: seq<Op>, text: string) {
    forall i, j | 0 <= i < j < |ops| :: PairFalls(ops, text, i, j)
  }

  ghost predicate Fitting(op: Op, lo: nat, hi: nat, size: nat) {
    (op.Insert? ==> lo <= size) && (op.Delete? ==> lo < hi <= size)
  }

  ghost predicate TargetFits(ops: seq<Op>, text: string, i: nat)
    requires i < |ops|
  {
    forall lo: nat, hi: nat | Target(ops, text, i, lo, hi) :: Fitting(ops[i], lo, hi, |text|)
  }

  /** Every target lies within the text, and those of deletions are not empty. */
  ghost predicate TargetsFit(ops: seq<Op>, text: string) {
    forall i | 0 <= i < |ops| :: TargetFits(ops, text, i)
  }

  lemma OneTarget(ops: seq<Op>, text: string, i: nat)
    requires i < |ops|
    ensures var placed := Placements(ops, text, map[])[i];
            && (placed.Some? ==> Target(ops, text, i, placed.value.At(), End(placed.value)) && SameKind(ops[i], placed.value))
            && forall lo: nat, hi: nat | Target(ops, text, i, lo, hi) :: placed.Some? && At(placed.value, lo, hi)
  {
    hide Target, Placements;
    var placed := Placements(ops, text, map[])[i];
    forall lo: nat, hi: nat ensures Target(ops, text, i, lo, hi) <==> placed.Some? && At(placed.value, lo, hi) {
      TargetIsPlaced(ops, text, i, lo, hi);
    }
    TargetIsPlaced(ops, text, i, 0, 0);
    if placed.Some? {
      TargetIsPlaced(ops, text, i, placed.value.At(), End(placed.value));
    }
  }

  /** Pairs of placed operations say what pairs of targets say. */
  lemma PairOfTargets(ops: seq<Op>, text: string, i: nat, j: nat)
    requires i < j < |ops|
    ensures var a, b := Placements(ops, text, map[])[i], Placements(ops, text, map[])[j];
            && (PairClear(ops, text, i, j) <==> (a.Some? && b.Some? ==> Apart(a.value, b.value)))
            && (PairFalls(ops, text, i, j) <==> (a.Some? && b.Some? ==> b.value.At() <= a.value.At()))
  {
    OneTarget(ops, text, i);
    OneTarget(ops, text, j);
    var a, b := Placements(ops, text, map[])[i], Placements(ops, text, map[])[j];
    hide Target, Placements;
    if a.Some? && b.Some? {
      var (x, y) := (a.value, b.value);
      assert Apart(x, y) <==> Clear(ops[i], x.At(), End(x), ops[j], y.At(), End(y));
    }
  }

  lemma TargetFitting(ops: seq<Op>, text: string, i: nat)
    requires i < |ops|
    ensures var a := Placements(ops, text, map[])[i];
            TargetFits(ops, text, i) <==> (a.Some? ==> Fitting(a.value, a.value.At(), End(a.value), |text|))
  {
    OneTarget(ops, text, i);
    hide Target, Placements;
  }

  // ----- of the placements, those that are kept -----

  ghost predicate PlacedApart(ps: seq<Option<Op>>, i: nat, j: nat)
    requires i < |ps| && j < |ps|
  {
    ps[i].Some? && ps[j].Some? ==> Apart(ps[i].value, ps[j].value)
  }

  ghost predicate PlacedFalls(ps: seq<Option<Op>>, i: nat, j: nat)
    requires i < |ps| && j < |ps|
  {
    ps[i].Some? && ps[j].Some? ==> ps[j].value.At() <= ps[i].value.At()
  }

  /** The place of a placement among those that are kept. */
  lemma KeptPlace(ps: seq<Option<Op>>, i: nat) returns (k: nat)
    requires i < |ps| && ps[i].Some?
    ensures k < |Kept(ps, |ps|)| && k < |KeptAt(ps, |ps|)| && KeptAt(ps, |ps|)[k] == i && Kept(ps, |ps|)[k] == ps[i].value
  {
    KeptBelow(ps, |ps|);
    KeptMembers(ps, |ps|, i);
    hide Kept, KeptAt;
    k :| 0 <= k < |KeptAt(ps, |ps|)| && KeptAt(ps, |ps|)[k] == i;
  }

  lemma KeptTwo(ps: seq<Option<Op>>, i: nat, j: nat) returns (k: nat, l: nat)
    requires i < j < |ps| && ps[i].Some? && ps[j].Some?
    ensures k < l < |Kept(ps, |ps|)| && Kept(ps, |ps|)[k] == ps[i].value && Kept(ps, |ps|)[l] == ps[j].value
  {
    KeptBelow(ps, |ps|);
    hide Kept, KeptAt;
    k := KeptPlace(ps, i);
    l := KeptPlace(ps, j);
  }

  lemma PlacedTwo(ps: seq<Option<Op>>, k: nat, l: nat) returns (i: nat, j: nat)
    requires k < l < |Kept(ps, |ps|)|
    ensures i < j < |ps| && ps[i] == Some(Kept(ps, |ps|)[k]) && ps[j] == Some(Kept(ps, |ps|)[l])
  {
    KeptBelow(ps, |ps|);
    hide Kept, KeptAt;
    i, j := KeptAt(ps, |ps|)[k], KeptAt(ps, |ps|)[l];
  }

  lemma KeptApart(ps: seq<Option<Op>>)
    ensures AllApart(Kept(ps, |ps|)) <==> forall i, j | 0 <= i < j < |ps| :: PlacedApart(ps, i, j)
  {
    var kept := Kept(ps, |ps|);
    hide Kept, KeptAt, Apart;
    if AllApart(kept) {
      forall i, j | 0 <= i < j < |ps| && ps[i].Some? && ps[j].Some? ensures Apart(ps[i].value, ps[j].value) {
        var k, l := KeptTwo(ps, i, j);
      }
    }
    if forall i, j | 0 <= i < j < |ps| :: PlacedApart(ps, i, j) {
      forall k, l | 0 <= k < l < |kept| ensures Apart(kept[k], kept[l]) {
        var i, j := PlacedTwo(ps, k, l);
        assert PlacedApart(ps, i, j);
      }
    }
  }

  lemma KeptFalling(ps: seq<Option<Op>>)
    ensures NeverRises(Kept(ps, |ps|)) <==> forall i, j | 0 <= i < j < |ps| :: PlacedFalls(ps, i, j)
  {
    var kept := Kept(ps, |ps|);
    hide Kept, KeptAt, Apart;
    if NeverRises(kept) {
      forall i, j | 0 <= i < j < |ps| && ps[i].Some? && ps[j].Some? ensures ps[j].value.At() <= ps[i].value.At() {
        var k, l := KeptTwo(ps, i, j);
      }
    }
    if forall i, j | 0 <= i < j < |ps| :: PlacedFalls(ps, i, j) {
      forall k, l | 0 <= k < l < |kept| ensures kept[l].At() <= kept[k].At() {
        var i, j := PlacedTwo(ps, k, l);
        assert PlacedFalls(ps, i, j);
      }
    }
  }

  lemma KeptOnes(ps: seq<Option<Op>>)
    ensures forall op :: op in Kept(ps, |ps|) <==> Some(op) in ps
  {
    KeptBelow(ps, |ps|);
    forall op ensures op in Kept(ps, |ps|) <==> Some(op) in ps {
      if Some(op) in ps {
        var i :| 0 <= i < |ps| && ps[i] == Some(op);
        var k := KeptPlace(ps, i);
      }
    }
  }

  lemma PairsKept(ops: seq<Op>, text: string)
    ensures var kept := Kept(Placements(ops, text, map[]), |ops|);
            (AllApart(kept) <==> TargetsApart(ops, text)) && (NeverRises(kept) <==> TargetsFall(ops, text))
  {
    var ps := Placements(ops, text, map[]);
    KeptApart(ps);
    KeptFalling(ps);
    hide PairClear, PairFalls, Placements, Kept, AllApart, NeverRises, Apart;
    forall i, j | 0 <= i < j < |ops|
      ensures PairClear(ops, text, i, j) <==> PlacedApart(ps, i, j)
      ensures PairFalls(ops, text, i, j) <==> PlacedFalls(ps, i, j)
    {
      PairOfTargets(ops, text, i, j);
    }
  }

  lemma FitKept(ops: seq<Op>, text: string)
    ensures var kept := Kept(Placements(ops, text, map[]), |ops|);
            (forall op | op in kept :: Fitting(op, op.At(), End(op), |text|)) <==> TargetsFit(ops, text)
  {
    var ps := Placements(ops, text, map[]);
    KeptOnes(ps);
    hide TargetFits, Placements, Kept, Fitting;
    forall i | 0 <= i < |ops|
      ensures TargetFits(ops, text, i) <==> (ps[i].Some? ==> Fitting(ps[i].value, ps[i].value.At(), End(ps[i].value), |text|))
    {
      TargetFitting(ops, text, i);
    }
    assert forall i | 0 <= i < |ps| :: ps[i] in ps;
  }

  lemma PlannableIsFitting(ops: seq<Op>, size: nat)
    ensures Plannable(ops, size) <==> AllApart(ops) && forall op | op in ops :: Fitting(op, op.At(), End(op), size)
  {
    hide AllApart;
  }

  predicate HasFormat(ops: seq<Op>) { exists op | op in ops :: op.Format? }

  /** Some range edit, or some formatting, has its text there. */
  ghost predicate SomeRangeThere(ops: seq<Op>, text: string) { exists op | op in ops :: !op.Insert? && IsThere(op, text) }

  ghost predicate SomeFormatThere(ops: seq<Op>, text: string) { exists op | op in ops :: op.Format? && IsThere(op, text) }

  /** For every list at which the check does not stop: what it keeps is pairwise apart
      exactly if no two targets overlap, and can be carried out at once exactly if the
      targets also fit the text. An operation whose text is nowhere has no target. */
  lemma KeptIsApart(ops: seq<Op>, text: string, threshold: real)
    requires !Check(ops, text, threshold).Fuzzy?
    ensures var kept := Check(ops, text, threshold).valid;
            && (AllApart(kept) <==> TargetsApart(ops, text))
            && (Plannable(kept, |text|) <==> TargetsFit(ops, text) && TargetsApart(ops, text))
            && (NeverRises(kept) <==> TargetsFall(ops, text))
            && (HasRangeEdit(kept) <==> SomeRangeThere(ops, text))
            && (HasFormat(kept) <==> SomeFormatThere(ops, text))
  {
    var kept := Check(ops, text, threshold).valid;
    KeptOutcome(ops, text, threshold);
    hide Check, TargetsFit, TargetsApart, TargetsFall, NeverRises, AllApart, Plannable, HasRangeEdit, HasFormat, Fitting, Kept,
         Placements, SomeRangeThere, SomeFormatThere;
    PairsKept(ops, text);
    FitKept(ops, text);
    PlannableIsFitting(kept, |text|);
    KindsKept(ops, text);
  }

  lemma KeptOutcome(ops: seq<Op>, text: string, threshold: real)
    requires !Check(ops, text, threshold).Fuzzy?
    ensures Check(ops, text, threshold).valid == Kept(Placements(ops, text, map[]), |ops|)
  {
    hide Placements, Kept, Rejected;
  }

  lemma KindPlaced(ops: seq<Op>, text: string, i: nat)
    requires i < |ops|
    ensures var placed := Placements(ops, text, map[])[i];
            && (placed.Some? ==> SameKind(ops[i], placed.value))
            && (!ops[i].Insert? ==> (placed.Some? <==> IsThere(ops[i], text)))
  {
    TargetIsPlaced(ops, text, i, 0, 0);
    if !ops[i].Insert? {
      RangePlacement(ops, text, map[], i);
      ThereIsLocated(ops[i], text);
    }
    hide Placements, Located, IsThere;
  }

  lemma KindsKept(ops: seq<Op>, text: string)
    ensures var kept := Kept(Placements(ops, text, map[]), |ops|);
            (HasRangeEdit(kept) <==> SomeRangeThere(ops, text)) && (HasFormat(kept) <==> SomeFormatThere(ops, text))
  {
    var ps := Placements(ops, text, map[]);
    KeptOnes(ps);
    hide Placements, Kept, IsThere;
    forall i | 0 <= i < |ops|
      ensures (ps[i].Some? ==> SameKind(ops[i], ps[i].value)) && (!ops[i].Insert? ==> (ps[i].Some? <==> IsThere(ops[i], text)))
    {
      KindPlaced(ops, text, i);
    }
    hide SameKind, HasRangeEdit, SomeRangeThere, HasFormat, SomeFormatThere;
    RangesAgree(ops, text, ps, Kept(ps, |ps|));
    FormatsAgree(ops, text, ps, Kept(ps, |ps|));
  }

  lemma RangesAgree(ops: seq<Op>, text: string, ps: seq<Option<Op>>, kept: seq<Op>)
    requires |ops| == |ps| && forall op :: op in kept <==> Some(op) in ps
    requires forall i | 0 <= i < |ops| :: ps[i].Some? ==> SameKind(ops[i], ps[i].value)
    requires forall i | 0 <= i < |ops| && !ops[i].Insert? :: ps[i].Some? <==> IsThere(ops[i], text)
    ensures HasRangeEdit(kept) <==> SomeRangeThere(ops, text)
  {
    hide IsThere;
    if op :| op in kept && !op.Insert? {
      assert Some(op) in ps;
      var i :| 0 <= i < |ps| && ps[i] == Some(op);
      assert ops[i] in ops && IsThere(ops[i], text);
    }
    if op :| op in ops && !op.Insert? && IsThere(op, text) {
      var i :| 0 <= i < |ops| && ops[i] == op;
      assert ps[i] == Some(ps[i].value) && ps[i] in ps;
      assert ps[i].value in kept;
    }
  }

  lemma FormatsAgree(ops: seq<Op>, text: string, ps: seq<Option<Op>>, kept: seq<Op>)
    requires |ops| == |ps| && forall op :: op in kept <==> Some(op) in ps
    requires forall i | 0 <= i < |ops| :: ps[i].Some? ==> SameKind(ops[i], ps[i].value)
    requires forall i | 0 <= i < |ops| && !ops[i].Insert? :: ps[i].Some? <==> IsThere(ops[i], text)
    ensures HasFormat(kept) <==> SomeFormatThere(ops, text)
  {
    hide IsThere;
    if op :| op in kept && op.Format? {
      assert Some(op) in ps;
      var i :| 0 <= i < |ps| && ps[i] == Some(op);
      assert ops[i] in ops && IsThere(ops[i], text);
    }
    if op :| op in ops && op.Format? && IsThere(op, text) {
      var i :| 0 <= i < |ops| && ops[i] == op;
      assert ps[i] == Some(ps[i].value) && ps[i] in ps;
      assert ps[i].value in kept;
    }
  }

  /** If everything is located, everything is there. */
  lemma ExactKinds(ops: seq<Op>, text: string, threshold: real)
    requires Check(ops, text, threshold).AllExact?
    ensures SomeRangeThere(ops, text) <==> HasRangeEdit(ops)
    ensures SomeFormatThere(ops, text) <==> HasFormat(ops)
  {
    ExactOutcome(ops, text, threshold);
    hide Check, Placements, IsThere;
    forall op | op in ops && !op.Insert? ensures IsThere(op, text) {
      var i :| 0 <= i < |ops| && ops[i] == op;
      KindPlaced(ops, text, i);
    }
  }

  // ----- lists that stay as they are -----

  /** A range or an anchored insertion is already where it is to go. */
  ghost predicate InPlace(op: Op, text: string) {
    if !op.Insert? then RangeTarget(op, text, op.start, op.end)
    else op.anchor.Some? ==> AnchorTarget(op, text, op.position)
  }

  /** The check returns the very list it is given exactly if every range and every anchored
      insertion is in place. */
  lemma ListStays(ops: seq<Op>, text: string, threshold: real)
    ensures Check(ops, text, threshold) == AllExact(ops) <==> forall op | op in ops :: InPlace(op, text)
  {
    ExactOutcome(ops, text, threshold);
    PlacementsInPlace(ops, text);
    var r := Check(ops, text, threshold);
    hide Check, Placements, InPlace;
    assert (forall op | op in ops :: InPlace(op, text)) <==> forall i | 0 <= i < |ops| :: InPlace(ops[i], text);
    if r.AllExact? && forall i | 0 <= i < |ops| :: Placements(ops, text, map[])[i] == Some(ops[i]) {
      assert forall i | 0 <= i < |ops| :: Some(r.valid[i]) == Placements(ops, text, map[])[i] == Some(ops[i]);
      assert r.valid == ops;
    }
  }

  lemma PlacementsInPlace(ops: seq<Op>, text: string)
    ensures (forall i | 0 <= i < |ops| :: Placements(ops, text, map[])[i] == Some(ops[i])) <==>
            forall i | 0 <= i < |ops| :: InPlace(ops[i], text)
  {
    hide RangeTarget, AnchorTarget, Best;
    forall i | 0 <= i < |ops| && (!ops[i].Insert? || ops[i].anchor.Some?)
      ensures Placements(ops, text, map[])[i] == Some(ops[i]) <==> InPlace(ops[i], text)
    {
      PlacementInPlace(ops, text, i);
    }
    if forall i | 0 <= i < |ops| :: InPlace(ops[i], text) {
      forall i | 0 <= i < |ops| && ops[i].Insert? && ops[i].anchor.None?
        ensures Placements(ops, text, map[])[i] == Some(ops[i])
      {
        LedInPlace(ops, text, i);
      }
    }
  }

  lemma PlacementInPlace(ops: seq<Op>, text: string, i: nat)
    requires i < |ops| && (!ops[i].Insert? || ops[i].anchor.Some?)
    ensures Placements(ops, text, map[])[i] == Some(ops[i]) <==> InPlace(ops[i], text)
  {
    var op := ops[i];
    hide RangeTarget, AnchorTarget, Find;
    if !op.Insert? {
      RangePlacement(ops, text, map[], i);
      RangeIsLocated(op, text, op.start, op.end);
    } else {
      AnchoredPlacement(ops, text, map[], i);
      AnchorIsFound(op, text, map[], op.position);
    }
  }

  lemma LedInPlace(ops: seq<Op>, text: string, i: nat)
    requires i < |ops| && ops[i].Insert? && ops[i].anchor.None?
    requires forall j | 0 <= j < i && !ops[j].Insert? :: InPlace(ops[j], text)
    ensures Placements(ops, text, map[])[i] == Some(ops[i])
  {
    InsertionsFollowTheirRange(ops, text, map[], i);
    hide RangeTarget;
    forall j | 0 <= j < i && !ops[j].Insert? ensures Located(ops[j], text).Some? && Located(ops[j], text).value.start == ops[j].start {
      assert InPlace(ops[j], text);
      RangeIsLocated(ops[j], text, ops[j].start, ops[j].end);
    }
    DestinationIsLeaders(ops, text, i, ops[i].position);
  }

  /** A list of operations that fit and are apart, whose ranges quote their own slices and
      whose anchored insertions are in place, is kept as it is, and so stays apart. */
  lemma OwnQuotesStayApart(ops: seq<Op>, text: string, threshold: real)
    requires forall op | op in ops && !op.Insert? :: op.expected == Slice(text, op.start, op.end)
    requires forall op | op in ops && op.Insert? && op.anchor.Some? :: AnchorTarget(op, text, op.position)
    requires Plannable(ops, |text|)
    ensures Check(ops, text, threshold) == AllExact(ops) && TargetsFit(ops, text) && TargetsApart(ops, text)
  {
    hide Check, AnchorTarget, TargetsFit, TargetsApart, Plannable;
    ListStays(ops, text, threshold);
    KeptIsApart(ops, text, threshold);
  }
}
