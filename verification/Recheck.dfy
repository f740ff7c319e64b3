/** Checking staged operations a second time, as accepting a proposal does. */
module Recheck {
  import opened Text
  import opened Search
  import opened Wrappers
  import opened AiOps
  import opened ContentCheck

  /** The matches a search ranks: exact ones if there are any, else loose ones. */
  ghost predicate Matches(text: string, needle: string, k: nat) {
    if exists j: nat :: Occurs(text, needle, j) then Occurs(text, needle, k)
    else needle != "" && LooseAt(text, needle, k)
  }

  lemma MatchesAre(text: string, needle: string)
    ensures (exists j: nat :: Occurs(text, needle, j)) ==>
              forall j: nat :: Matches(text, needle, j) <==> Occurs(text, needle, j)
    ensures (forall j: nat :: !Occurs(text, needle, j)) ==>
              needle != "" && forall j: nat :: Matches(text, needle, j) <==> LooseAt(text, needle, j)
  {
    if needle == "" {
      assert Occurs(text, needle, 0);
    }
  }

  lemma FindRanksMatches(text: string, needle: string, hint: int, k: nat)
    ensures Find(text, needle, hint) == Some(Range(k, k + |needle|)) <==>
            && Matches(text, needle, k)
            && forall j: nat | Matches(text, needle, j) && j != k ::
                 Abs(k - hint) < Abs(j - hint) || (Abs(k - hint) == Abs(j - hint) && k < j)
  {
    MatchesAre(text, needle);
    NearestIsOptimal(text, needle, hint);
    if exists j: nat :: Occurs(text, needle, j) {
      assert Nearest(text, needle, hint) == Some(k) <==> IsNearest(text, needle, hint, k);
    } else {
      NearestIsOptimal(Normal(text), Normal(needle), hint);
      NearestLooseIsNormal(text, needle, hint, k);
    }
    hide Nearest, Occurs, LooseAt, Matches, Normal;
  }

  lemma FoundIsAMatch(text: string, needle: string, hint: int)
    requires Find(text, needle, hint).Some?
    ensures var r := Find(text, needle, hint).value; r.end == r.start + |needle| && Matches(text, needle, r.start)
  {
    FindRanksMatches(text, needle, hint, Find(text, needle, hint).value.start);
  }

  lemma SomethingFound(text: string, needle: string, k: nat, hint: int)
    requires Matches(text, needle, k)
    ensures Find(text, needle, hint).Some?
  {
    FindIsOptimal(text, needle, hint);
    MatchesAre(text, needle);
    if Occurs(text, needle, k) {
      ExactIsLoose(text, needle, k);
    }
    hide Find, Occurs, LooseAt, IsNearest, IsNearestLoose;
  }

  /** For an insertion placed after its anchor: no other match of the quote starts strictly
      within two quote lengths of the one it was placed at. */
  ghost predicate Settled(op: Op, text: string) {
    op.Insert? && op.anchor.Some? && !op.anchor.value.before ==>
      var quote := op.anchor.value.quote;
      forall j: nat | op.position - |quote| < j < op.position + |quote| :: !Matches(text, quote, j)
  }

  lemma FoundAgainAtStart(text: string, needle: string, hint: int)
    requires Find(text, needle, hint).Some?
    ensures Find(text, needle, Find(text, needle, hint).value.start) == Find(text, needle, hint)
  {
    var k := Find(text, needle, hint).value.start;
    FoundIsAMatch(text, needle, hint);
    FindRanksMatches(text, needle, k, k);
  }

  lemma FoundAgainAtEnd(text: string, needle: string, k: nat)
    requires Matches(text, needle, k)
    ensures Find(text, needle, k + |needle|) == Some(Range(k, k + |needle|)) <==>
            forall j: nat | k < j < k + 2 * |needle| :: !Matches(text, needle, j)
  {
    FindRanksMatches(text, needle, k + |needle|, k);
  }

  lemma InsertPlacedAgain(op: Op, r: Range, text: string)
    requires op.Insert? && op.anchor.Some? && Find(text, op.anchor.value.quote, op.position) == Some(r)
    ensures var again := op.(position := Edge(op.anchor.value, r));
            var found := Find(text, op.anchor.value.quote, again.position);
            found.Some? && (Edge(op.anchor.value, found.value) == again.position <==> Settled(again, text))
  {
    var quote := op.anchor.value.quote;
    FoundIsAMatch(text, quote, op.position);
    SomethingFound(text, quote, r.start, Edge(op.anchor.value, r));
    FoundIsAMatch(text, quote, Edge(op.anchor.value, r));
    if op.anchor.value.before {
      FoundAgainAtStart(text, quote, op.position);
    } else {
      FoundAgainAtEnd(text, quote, r.start);
    }
  }

  ghost predicate Identity(moves: Moves) { forall p | p in moves :: moves[p] == p }

  lemma PlacedAgain(op: Op, text: string, moves: Moves, moves': Moves)
    requires Place(op, text, moves).Some? && Identity(moves')
    ensures var placed := Place(op, text, moves).value;
            && Place(placed, text, moves').Some? && Identity(Learn(placed, text, moves'))
            && (Place(placed, text, moves') == Some(placed) <==> Settled(placed, text))
  {
    if op.Insert? {
      if op.anchor.Some? {
        InsertPlacedAgain(op, Find(text, op.anchor.value.quote, op.position).value, text);
      }
    } else if op.expected != Slice(text, op.start, op.end) {
      FoundAgainAtStart(text, op.expected, op.start);
    }
  }

  ghost predicate PlacedAs(ops: seq<Op>, kept: seq<Op>, text: string, moves: Moves) {
    |kept| == |ops| && forall i | 0 <= i < |ops| :: Placements(ops, text, moves)[i] == Some(kept[i])
  }

  lemma PlacedAsTail(ops: seq<Op>, kept: seq<Op>, text: string, moves: Moves)
    requires PlacedAs(ops, kept, text, moves) && ops != []
    ensures Place(ops[0], text, moves) == Some(kept[0])
    ensures PlacedAs(ops[1..], kept[1..], text, Learn(ops[0], text, moves))
  {
    hide Place, Learn;
    var rest := Placements(ops[1..], text, Learn(ops[0], text, moves));
    assert Placements(ops, text, moves)[0] == Some(kept[0]);
    assert forall i | 0 <= i < |rest| :: rest[i] == Placements(ops, text, moves)[i + 1];
  }

  lemma {:induction false} AllPlacedAgain(ops: seq<Op>, kept: seq<Op>, text: string, moves: Moves, moves': Moves, i: nat)
    requires PlacedAs(ops, kept, text, moves) && i < |kept| && Identity(moves')
    ensures var p := Placements(kept, text, moves')[i]; p.Some? && (p == Some(kept[i]) <==> Settled(kept[i], text))
    decreases |ops|
  {
    PlacedAsTail(ops, kept, text, moves);
    PlacedAgain(ops[0], text, moves, moves');
    hide Place, Learn, Settled, Identity, PlacedAs;
    if i != 0 {
      AllPlacedAgain(ops[1..], kept[1..], text, Learn(ops[0], text, moves), Learn(kept[0], text, moves'), i - 1);
    }
  }

  lemma {:induction false} AllKept(ps: seq<Option<Op>>, n: nat)
    requires n <= |ps| && forall i | 0 <= i < n :: ps[i].Some?
    ensures |Kept(ps, n)| == n
    ensures forall i | 0 <= i < n :: ps[i] == Some(Kept(ps, n)[i])
  {
    if n != 0 {
      AllKept(ps, n - 1);
    }
  }

  lemma {:induction false} NoneRejected(ops: seq<Op>, ps: seq<Option<Op>>, n: nat)
    requires n <= |ops| == |ps|
    ensures Rejected(ops, ps, n) == [] <==> forall i | 0 <= i < n :: ps[i].Some?
  {
    if n != 0 {
      NoneRejected(ops, ps, n - 1);
    }
  }

  /** What `AllExact` means, one operation at a time. */
  lemma ExactOutcome(ops: seq<Op>, text: string, threshold: real)
    ensures var r, ps := Check(ops, text, threshold), Placements(ops, text, map[]);
            && (r.AllExact? <==> forall i | 0 <= i < |ops| :: ps[i].Some?)
            && (r.AllExact? ==> |r.valid| == |ops| && forall i | 0 <= i < |ops| :: ps[i] == Some(r.valid[i]))
  {
    var ps := Placements(ops, text, map[]);
    CheckStopsAtFirstAlike(ops, text, threshold);
    NoneRejected(ops, ps, |ops|);
    if Rejected(ops, ps, |ops|) == [] {
      AllKept(ps, |ops|);
    }
  }

  /** Checking the returned operations again, on the same text, succeeds again. It returns
      the very same operations if and only if every insertion placed after its anchor is
      settled: no other match of the quote starts within two quote lengths of it. */
  lemma CheckIsFixedPoint(ops: seq<Op>, text: string, threshold: real)
    requires Check(ops, text, threshold).AllExact?
    ensures var kept := Check(ops, text, threshold).valid;
            && Check(kept, text, threshold).AllExact?
            && (Check(kept, text, threshold) == AllExact(kept) <==> forall op | op in kept :: Settled(op, text))
  {
    var kept := Check(ops, text, threshold).valid;
    ExactOutcome(ops, text, threshold);
    forall i | 0 <= i < |kept|
      ensures var p := Placements(kept, text, map[])[i]; p.Some? && (p == Some(kept[i]) <==> Settled(kept[i], text))
    {
      AllPlacedAgain(ops, kept, text, map[], map[], i);
    }
    ExactOutcome(kept, text, threshold);
    var again := Check(kept, text, threshold).valid;
    if again == kept {
      forall op | op in kept ensures Settled(op, text) {
        var i :| 0 <= i < |kept| && kept[i] == op;
        assert Placements(kept, text, map[])[i] == Some(again[i]);
      }
    }
    if forall op | op in kept :: Settled(op, text) {
      assert forall i | 0 <= i < |kept| :: Placements(kept, text, map[])[i] == Some(kept[i]) == Some(again[i]);
      assert again == kept;
    }
  }

  /** Settling is not a matter of course: in "aa", text to be placed after the first "a" is
      placed after the second one when the returned operation is checked again. */
  lemma CheckMovesOn(threshold: real)
    ensures var op := Insert(0, "x", Some(Anchor("a", false)));
            && Check([op], "aa", threshold) == AllExact([op.(position := 1)])
            && Check([op.(position := 1)], "aa", threshold) == AllExact([op.(position := 2)])
  {
    assert Occurs("aa", "a", 0) && Occurs("aa", "a", 1);
    var op := Insert(0, "x", Some(Anchor("a", false)));
    NearestIsOptimal("aa", "a", 0);
    NearestIsOptimal("aa", "a", 1);
    assert IsNearest("aa", "a", 0, 0) && IsNearest("aa", "a", 1, 1);
    OneInsert(op, "aa", threshold);
    OneInsert(op.(position := 1), "aa", threshold);
  }

  lemma OneInsert(op: Op, text: string, threshold: real)
    requires op.Insert? && op.anchor.Some? && Find(text, op.anchor.value.quote, op.position).Some?
    ensures Check([op], text, threshold)
            == AllExact([op.(position := Edge(op.anchor.value, Find(text, op.anchor.value.quote, op.position).value))])
  {
    ExactOutcome([op], text, threshold);
    assert Placements([op], text, map[]) == [Place(op, text, map[])];
  }
}
