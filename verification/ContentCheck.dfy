/** The content-existence check: every operation is located in the live text before
    anything is applied. */
module ContentCheck {
  import opened Text
  import opened Search
  import opened Wrappers
  import opened AiOps
  import Sim = Similarity

  datatype Reason = AnchorMissing | TextMissing(start: nat, end: nat)

  datatype Rejection = Rejection(index: nat, reason: Reason)

  datatype Outcome =
    | AllExact(valid: seq<Op>)
    | Fuzzy(index: nat, expectedText: string, actualText: string)
    | Partial(valid: seq<Op>, rejected: seq<Rejection>)

  /** Starts of the range operations met so far, mapped to where they were located. */
  type Moves = map<nat, nat>

  // ----- one operation -----

  /** Where a delete or format really is: at its own range, or at the nearest match. */
  function Located(op: Op, text: string): Option<Op>
    requires !op.Insert?
  {
    if op.expected == Slice(text, op.start, op.end) then Some(op)
    else
      match Find(text, op.expected, op.start)
      case Some(r) => Some(op.(start := r.start, end := r.end))
      case None => None
  }

  function Edge(a: Anchor, r: Range): nat { if a.before then r.start else r.end }

  function MovedTo(moves: Moves, offset: nat): nat { if offset in moves then moves[offset] else offset }

  /** An insertion as it will be applied: beside its anchor, or moved along with the
      range operation that was planned at the same offset. */
  function Anchored(op: Op, text: string, moves: Moves): Option<Op>
    requires op.Insert?
  {
    if op.anchor.None? then Some(op.(position := MovedTo(moves, op.position)))
    else
      match Find(text, op.anchor.value.quote, op.position)
      case Some(r) => Some(op.(position := Edge(op.anchor.value, r)))
      case None => None
  }

  /** An operation as it will be applied, or none when its text is not there. */
  function Place(op: Op, text: string, moves: Moves): Option<Op> {
    if op.Insert? then Anchored(op, text, moves) else Located(op, text)
  }

  function Learn(op: Op, text: string, moves: Moves): Moves {
    if op.Insert? || Located(op, text).None? then moves
    else moves[op.start := Located(op, text).value.start]
  }

  function Placements(ops: seq<Op>, text: string, moves: Moves): (ps: seq<Option<Op>>)
    ensures |ps| == |ops|
    decreases |ops|
  {
    if ops == [] then []
    else [Place(ops[0], text, moves)] + Placements(ops[1..], text, Learn(ops[0], text, moves))
  }

  /** The text an operation points at is similar enough to the text it expects. */
  ghost predicate Alike(op: Op, text: string, threshold: real) {
    !op.Insert? && Sim.Score(op.expected, Slice(text, op.start, op.end)) >= threshold
  }

  ghost function Verdicts(ops: seq<Op>, text: string, threshold: real): (alike: seq<bool>)
    ensures |alike| == |ops| && forall i | 0 <= i < |ops| :: alike[i] == Alike(ops[i], text, threshold)
    ensures forall i | 0 <= i < |ops| && alike[i] :: !ops[i].Insert?
  {
    seq(|ops|, i requires 0 <= i < |ops| => Alike(ops[i], text, threshold))
  }

  // ----- the whole list -----

  /** The first operation that is nowhere in the text, yet similar to what stands there. */
  ghost predicate FirstStop(ps: seq<Option<Op>>, alike: seq<bool>, i: nat) {
    && i < |ps| == |alike| && ps[i].None? && alike[i]
    && forall j | 0 <= j < i :: ps[j].Some? || !alike[j]
  }

  /** Of the first `n` placements: the operations located, and the rejections. */
  function Kept(ps: seq<Option<Op>>, n: nat): seq<Op>
    requires n <= |ps|
  {
    if n == 0 then []
    else Kept(ps, n - 1) + if ps[n - 1].Some? then [ps[n - 1].value] else []
  }

  function Why(op: Op): Reason {
    if op.Insert? then AnchorMissing else TextMissing(op.start, op.end)
  }

  function Rejected(ops: seq<Op>, ps: seq<Option<Op>>, n: nat): seq<Rejection>
    requires n <= |ops| == |ps|
  {
    if n == 0 then []
    else Rejected(ops, ps, n - 1) + if ps[n - 1].Some? then [] else [Rejection(n - 1, Why(ops[n - 1]))]
  }

  ghost function Combine(ops: seq<Op>, text: string, ps: seq<Option<Op>>, alike: seq<bool>): Outcome
    requires |ops| == |ps| == |alike| && forall i | 0 <= i < |ops| && alike[i] :: !ops[i].Insert?
  {
    if i: nat :| FirstStop(ps, alike, i) then
      Fuzzy(i, ops[i].expected, Slice(text, ops[i].start, ops[i].end))
    else if Rejected(ops, ps, |ops|) == [] then AllExact(Kept(ps, |ops|))
    else Partial(Kept(ps, |ops|), Rejected(ops, ps, |ops|))
  }

  ghost function Check(ops: seq<Op>, text: string, threshold: real): Outcome {
    Combine(ops, text, Placements(ops, text, map[]), Verdicts(ops, text, threshold))
  }

  // ----- the loop -----

  method LocateInsert(op: Op, text: string, relocated: Moves) returns (placed: Option<Op>)
    requires op.Insert?
    ensures placed == Place(op, text, relocated) && Learn(op, text, relocated) == relocated
  {
    if op.anchor.Some? {
      var found := FindNearestExactText(text, op.anchor.value.quote, op.position);
      if found.None? {
        return None;
      }
      var position := if op.anchor.value.before then found.value.start else found.value.end;
      return Some(op.(position := position));
    }
    var position := if op.position in relocated then relocated[op.position] else op.position;
    placed := Some(op.(position := position));
  }

  method LocateRange(op: Op, text: string, relocated: Moves) returns (placed: Option<Op>, relocated': Moves)
    requires !op.Insert?
    ensures placed == Place(op, text, relocated) && relocated' == Learn(op, text, relocated)
  {
    if op.expected == Slice(text, op.start, op.end) {
      return Some(op), relocated[op.start := op.start];
    }
    var found := FindNearestExactText(text, op.expected, op.start);
    if found.None? {
      return None, relocated;
    }
    placed := Some(op.(start := found.value.start, end := found.value.end));
    relocated' := relocated[op.start := found.value.start];
  }

  method Resembles(op: Op, text: string, threshold: real) returns (alike: bool)
    requires !op.Insert?
    ensures alike == Alike(op, text, threshold)
  {
    var score := Sim.Similarity(op.expected, Slice(text, op.start, op.end));
    alike := score >= threshold;
  }

  lemma NextPlacement(ops: seq<Op>, text: string, moves: Moves, ps: seq<Option<Op>>, i: nat)
    requires i < |ops| == |ps| && ps[i..] == Placements(ops[i..], text, moves)
    ensures ps[i] == Place(ops[i], text, moves)
    ensures ps[i + 1..] == Placements(ops[i + 1..], text, Learn(ops[i], text, moves))
  {
    assert ps[i..][0] == ps[i] && ps[i..][1..] == ps[i + 1..];
    assert ops[i..][0] == ops[i] && ops[i..][1..] == ops[i + 1..];
  }

  lemma StopsHere(ops: seq<Op>, text: string, ps: seq<Option<Op>>, alike: seq<bool>, i: nat)
    requires |ops| == |ps| == |alike| && forall i | 0 <= i < |ops| && alike[i] :: !ops[i].Insert?
    requires FirstStop(ps, alike, i)
    ensures Combine(ops, text, ps, alike) == Fuzzy(i, ops[i].expected, Slice(text, ops[i].start, ops[i].end))
  {
  }

  lemma NeverStops(ops: seq<Op>, text: string, ps: seq<Option<Op>>, alike: seq<bool>)
    requires |ops| == |ps| == |alike| && forall i | 0 <= i < |ops| && alike[i] :: !ops[i].Insert?
    requires forall j | 0 <= j < |ps| :: ps[j].Some? || !alike[j]
    ensures var kept, rejected := Kept(ps, |ops|), Rejected(ops, ps, |ops|);
            Combine(ops, text, ps, alike) == if rejected == [] then AllExact(kept) else Partial(kept, rejected)
  {
  }

  method CheckContentExistence(ops: seq<Op>, text: string, threshold: real) returns (outcome: Outcome)
    ensures outcome == Check(ops, text, threshold)
  {
    var valid: seq<Op>, rejected: seq<Rejection>, relocated: Moves := [], [], map[];
    ghost var ps, alike := Placements(ops, text, map[]), Verdicts(ops, text, threshold);
    hide Placements, Verdicts, Combine, Place, Learn;
    for i := 0 to |ops|
      invariant valid == Kept(ps, i) && rejected == Rejected(ops, ps, i)
      invariant ps[i..] == Placements(ops[i..], text, relocated)
      invariant forall j | 0 <= j < i :: ps[j].Some? || !alike[j]
    {
      var op, placed := ops[i], None;
      NextPlacement(ops, text, relocated, ps, i);
      if op.Insert? {
        placed := LocateInsert(op, text, relocated);
      } else {
        placed, relocated := LocateRange(op, text, relocated);
        if placed.None? {
          var resembles := Resembles(op, text, threshold);
          if resembles {
            StopsHere(ops, text, ps, alike, i);
            return Fuzzy(i, op.expected, Slice(text, op.start, op.end));
          }
        }
      }
      if placed.Some? {
        valid := valid + [placed.value];
      } else {
        rejected := rejected + [Rejection(i, Why(op))];
      }
    }
    NeverStops(ops, text, ps, alike);
    outcome := if rejected != [] then Partial(valid, rejected) else AllExact(valid);
  }

  // ----- nothing is lost, nothing is misplaced -----

  /** `placed` differs from `op` in offsets only, and those point at the text that `op`
      quotes: where they did already, or at the match that the search finds. */
  ghost predicate PointsAtItsText(op: Op, placed: Op, text: string) {
    match op
    case Insert(_, t, a) =>
      && placed.Insert? && placed.text == t && placed.anchor == a
      && (a.Some? ==> exists r ::
            && Find(text, a.value.quote, op.position) == Some(r) && r.end == r.start + |a.value.quote|
            && LooseAt(text, a.value.quote, r.start)
            && placed.position == Edge(a.value, r))
    case Delete(_, _, e) =>
      placed.Delete? && placed.expected == e && RangeAgrees(op, placed, text)
    case Format(_, _, attrs, e) =>
      placed.Format? && placed.attributes == attrs && placed.expected == e && RangeAgrees(op, placed, text)
  }

  ghost predicate RangeAgrees(op: Op, placed: Op, text: string)
    requires !op.Insert? && !placed.Insert?
  {
    && Agree(Slice(text, placed.start, placed.end), op.expected)
    && (if op.expected == Slice(text, op.start, op.end) then placed == op
        else Find(text, op.expected, op.start) == Some(Range(placed.start, placed.end)))
  }

  lemma FoundTextAgrees(text: string, needle: string, hint: int)
    requires Find(text, needle, hint).Some?
    ensures var r := Find(text, needle, hint).value;
            && r.start <= r.end <= |text| && r.end == r.start + |needle|
            && LooseAt(text, needle, r.start) && Agree(Slice(text, r.start, r.end), needle)
  {
    FindIsOptimal(text, needle, hint);
    var r := Find(text, needle, hint).value;
    if Occurs(text, needle, r.start) {
      ExactIsLoose(text, needle, r.start);
    }
    assert forall i | 0 <= i < |needle| :: Slice(text, r.start, r.end)[i] == text[r.start + i];
  }

  lemma PlaceIsSound(op: Op, text: string, moves: Moves)
    requires Place(op, text, moves).Some?
    ensures PointsAtItsText(op, Place(op, text, moves).value, text)
  {
    if op.Insert? {
      if op.anchor.Some? {
        FoundTextAgrees(text, op.anchor.value.quote, op.position);
      }
    } else if op.expected != Slice(text, op.start, op.end) {
      FoundTextAgrees(text, op.expected, op.start);
    }
  }

  lemma {:induction false} PlacementsAreSound(ops: seq<Op>, text: string, moves: Moves, i: nat)
    requires i < |ops| && Placements(ops, text, moves)[i].Some?
    ensures PointsAtItsText(ops[i], Placements(ops, text, moves)[i].value, text)
    decreases |ops|
  {
    if i == 0 {
      PlaceIsSound(ops[0], text, moves);
    } else {
      PlacementsAreSound(ops[1..], text, Learn(ops[0], text, moves), i - 1);
    }
  }

  /** The indices below `n` of the operations that were located. */
  ghost function KeptAt(ps: seq<Option<Op>>, n: nat): seq<nat>
    requires n <= |ps|
  {
    if n == 0 then []
    else KeptAt(ps, n - 1) + if ps[n - 1].Some? then [n - 1] else []
  }

  ghost predicate Ascending(s: seq<nat>) { forall i, j | 0 <= i < j < |s| :: s[i] < s[j] }

  lemma {:induction false} KeptBelow(ps: seq<Option<Op>>, n: nat)
    requires n <= |ps|
    ensures var ks, kept := KeptAt(ps, n), Kept(ps, n);
            && |kept| == |ks| && Ascending(ks)
            && forall j | 0 <= j < |ks| :: ks[j] < n && ps[ks[j]] == Some(kept[j])
  {
    if n != 0 {
      KeptBelow(ps, n - 1);
    }
  }

  lemma {:induction false} KeptMembers(ps: seq<Option<Op>>, n: nat, i: nat)
    requires i < n <= |ps|
    ensures i in KeptAt(ps, n) <==> ps[i].Some?
  {
    KeptBelow(ps, n - 1);
    if i < n - 1 {
      KeptMembers(ps, n - 1, i);
    }
  }

  lemma {:induction false} RejectedBelow(ops: seq<Op>, ps: seq<Option<Op>>, n: nat)
    requires n <= |ops| == |ps|
    ensures var rs := Rejected(ops, ps, n);
            && |KeptAt(ps, n)| + |rs| == n
            && (forall i, j | 0 <= i < j < |rs| :: rs[i].index < rs[j].index)
            && forall i | 0 <= i < |rs| :: rs[i].index < n
  {
    if n != 0 {
      RejectedBelow(ops, ps, n - 1);
    }
  }

  lemma {:induction false} RejectedMembers(ops: seq<Op>, ps: seq<Option<Op>>, n: nat, i: nat)
    requires i < n <= |ops| == |ps|
    ensures Rejection(i, Why(ops[i])) in Rejected(ops, ps, n) <==> ps[i].None?
  {
    RejectedBelow(ops, ps, n - 1);
    if i < n - 1 {
      RejectedMembers(ops, ps, n - 1, i);
    }
  }

  function Refusals(r: Outcome): seq<Rejection> { if r.Partial? then r.rejected else [] }

  /** The check stops exactly at the first operation that is nowhere to be found but
      similar enough. */
  lemma CheckStopsAtFirstAlike(ops: seq<Op>, text: string, threshold: real)
    ensures var r, ps, alike := Check(ops, text, threshold), Placements(ops, text, map[]), Verdicts(ops, text, threshold);
            && (r.Fuzzy? <==> exists i | 0 <= i < |ops| :: ps[i].None? && alike[i])
            && (r.Fuzzy? ==>
                  && FirstStop(ps, alike, r.index)
                  && r == Fuzzy(r.index, ops[r.index].expected, Slice(text, ops[r.index].start, ops[r.index].end)))
            && (r.AllExact? <==> !r.Fuzzy? && Rejected(ops, ps, |ops|) == [])
  {
    NoFirstStop(Placements(ops, text, map[]), Verdicts(ops, text, threshold), |ops|);
  }

  lemma {:induction false} NoFirstStop(ps: seq<Option<Op>>, alike: seq<bool>, n: nat)
    requires n <= |ps| == |alike|
    ensures (forall i: nat :: !FirstStop(ps, alike, i)) ==> forall j | 0 <= j < n :: ps[j].Some? || !alike[j]
  {
    if n != 0 && forall i: nat :: !FirstStop(ps, alike, i) {
      NoFirstStop(ps, alike, n - 1);
      assert !FirstStop(ps, alike, n - 1);
    }
  }

  /** Unless it stops, the check splits its input: each operation is either kept, in order
      and pointing at the text it quotes, or rejected under its own index. */
  lemma CheckSplitsItsInput(ops: seq<Op>, text: string, threshold: real)
    requires !Check(ops, text, threshold).Fuzzy?
    ensures var r := Check(ops, text, threshold);
            var ks, rs := KeptAt(Placements(ops, text, map[]), |ops|), Refusals(r);
            && Ascending(ks) && |ks| == |r.valid| && |ks| + |rs| == |ops|
            && (forall j | 0 <= j < |ks| :: ks[j] < |ops| && PointsAtItsText(ops[ks[j]], r.valid[j], text))
            && (forall i, j | 0 <= i < j < |rs| :: rs[i].index < rs[j].index)
            && (forall i | 0 <= i < |ops| :: i !in ks <==> Rejection(i, Why(ops[i])) in rs)
            && (r.AllExact? <==> rs == [])
  {
    var ps := Placements(ops, text, map[]);
    KeptBelow(ps, |ops|);
    RejectedBelow(ops, ps, |ops|);
    KeptAreSound(ops, text);
    KeptOrRejected(ops, ps);
    hide PointsAtItsText, KeptAt, Kept, Rejected, Placements, Ascending;
  }

  lemma KeptAreSound(ops: seq<Op>, text: string)
    ensures var ps := Placements(ops, text, map[]);
            var ks := KeptAt(ps, |ops|);
            && |ks| == |Kept(ps, |ops|)|
            && forall j | 0 <= j < |ks| :: ks[j] < |ops| && PointsAtItsText(ops[ks[j]], Kept(ps, |ops|)[j], text)
  {
    var ps := Placements(ops, text, map[]);
    KeptBelow(ps, |ops|);
    var ks := KeptAt(ps, |ops|);
    hide PointsAtItsText, KeptAt, Kept, Placements;
    forall j | 0 <= j < |ks| ensures ks[j] < |ops| && PointsAtItsText(ops[ks[j]], Kept(ps, |ops|)[j], text) {
      PlacementsAreSound(ops, text, map[], ks[j]);
    }
  }

  lemma KeptOrRejected(ops: seq<Op>, ps: seq<Option<Op>>)
    requires |ops| == |ps|
    ensures forall i | 0 <= i < |ops| :: i !in KeptAt(ps, |ops|) <==> Rejection(i, Why(ops[i])) in Rejected(ops, ps, |ops|)
  {
    hide KeptAt, Rejected, Why;
    forall i | 0 <= i < |ops| ensures i !in KeptAt(ps, |ops|) <==> Rejection(i, Why(ops[i])) in Rejected(ops, ps, |ops|) {
      KeptMembers(ps, |ops|, i);
      RejectedMembers(ops, ps, |ops|, i);
    }
  }

  // ----- insertions without an anchor -----

  /** Looking back from index `i`: where the nearest range that was planned at `offset` and
      found in the text is. */
  ghost function Destination(ops: seq<Op>, text: string, moves: Moves, i: nat, offset: nat): nat
    requires i <= |ops|
  {
    if i == 0 then MovedTo(moves, offset)
    else
      var op := ops[i - 1];
      if !op.Insert? && op.start == offset && Located(op, text).Some? then Located(op, text).value.start
      else Destination(ops, text, moves, i - 1, offset)
  }

  lemma {:induction false} DestinationBehind(ops: seq<Op>, text: string, moves: Moves, i: nat, offset: nat)
    requires 0 < i <= |ops|
    ensures Destination(ops, text, moves, i, offset)
            == Destination(ops[1..], text, Learn(ops[0], text, moves), i - 1, offset)
    decreases i
  {
    if i > 1 {
      DestinationBehind(ops, text, moves, i - 1, offset);
      hide Located, Learn;
      assert ops[1..][i - 2] == ops[i - 1];
    } else {
      HeadMoves(ops[0], text, moves, offset);
    }
  }

  lemma HeadMoves(op: Op, text: string, moves: Moves, offset: nat)
    ensures MovedTo(Learn(op, text, moves), offset)
            == if !op.Insert? && op.start == offset && Located(op, text).Some? then Located(op, text).value.start
               else MovedTo(moves, offset)
  {
  }

  /** An insertion without an anchor moves with the nearest range before it in the list that
      was planned at the same offset; without one, it stays. */
  lemma {:induction false} InsertionsFollowTheirRange(ops: seq<Op>, text: string, moves: Moves, i: nat)
    requires i < |ops| && ops[i].Insert? && ops[i].anchor.None?
    ensures Placements(ops, text, moves)[i]
            == Some(ops[i].(position := Destination(ops, text, moves, i, ops[i].position)))
    decreases |ops|
  {
    if i > 0 {
      DestinationBehind(ops, text, moves, i, ops[i].position);
      hide Place, Learn, Destination;
      InsertionsFollowTheirRange(ops[1..], text, Learn(ops[0], text, moves), i - 1);
    }
  }
}
