/** Applying a checked list of operations to a paragraph document. */
module ParagraphEdits {
  import opened AiOps
  import opened Wrappers
  import opened BlockText
  import opened Marked
  import opened Simultaneous
  import opened EditOrder
  import opened Paragraphs

  function ApplyOp(blocks: seq<string>, op: Op): seq<string> {
    match op
    case Insert(p, t, _) => Paragraphs.Insert(blocks, p, t)
    case Delete(lo, hi, _) => Paragraphs.Delete(blocks, lo, hi - lo)
    case Format(_, _, _, _) => blocks
  }

  function ApplyAll(blocks: seq<string>, ops: seq<Op>): seq<string>
    decreases |ops|
  {
    if ops == [] then blocks else ApplyOp(ApplyAll(blocks, ops[..|ops| - 1]), ops[|ops| - 1])
  }

  // ----- when a deletion empties no paragraph -----

  predicate Removes(op: Op, p: nat) { op.Delete? && op.start <= p < op.end }

  ghost predicate Gone(ops: seq<Op>, p: nat) { exists op | op in ops :: Removes(op, p) }

  ghost predicate AllChars(x: seq<Sym>) { forall i | 0 <= i < |x| :: x[i].Ch? }

  /** Reading on from offset `j`, text is met before any paragraph break: text that is
      inserted there, or a character that stays. */
  ghost predicate TextFollows(m: seq<Sym>, ops: seq<Op>, j: nat)
    requires j <= |m|
    decreases |m| - j
  {
    var x := Inserted(Edits(ops, true), j);
    if x != [] then x[0].Ch?
    else j < |m| && m[j].Ch? && (!Gone(ops, j) || TextFollows(m, ops, j + 1))
  }

  /** Each character that `d` deletes shares its paragraph with a character in front of the
      range, or the paragraph goes on behind the range. */
  ghost predicate Leaves(m: seq<Sym>, ops: seq<Op>, d: Op)
    requires d.Delete? && 0 < d.end <= |m|
  {
    forall p: nat | Removes(d, p) && m[p].Ch? ::
      (exists k: nat :: k < d.start && SameBlock(m, p, k)) || (SameBlock(m, p, d.end - 1) && TextFollows(m, ops, d.end))
  }

  /** There is only one paragraph when `d` is applied. */
  ghost predicate Alone(m: seq<Sym>, ops: seq<Op>, d: Op)
    requires d.Delete?
  {
    AllChars(m) && forall op | op in ops && op.Insert? && d.end <= op.position :: Breaks(op.text) == 0
  }

  ghost predicate Harmless(m: seq<Sym>, ops: seq<Op>, d: Op)
    requires d.Delete? && 0 < d.end <= |m|
  {
    Leaves(m, ops, d) || Alone(m, ops, d)
  }

  // ----- the document just before a deletion -----

  lemma PieceAfterChar(m: seq<Sym>, es: seq<Edit>, j: nat)
    requires 0 < j <= |m| && m[j - 1].Ch? && (j < |m| ==> !m[j].Sep2?)
    ensures Piece(m, es, j) == if j == |m| || (m[j].Ch? && Deleted(es, j)) then Inserted(es, j) else Inserted(es, j) + [m[j]]
  {
  }

  lemma FlatFrom(pieces: seq<seq<Sym>>, j: nat)
    requires j < |pieces|
    ensures Flat(pieces[j..]) == pieces[j] + Flat(pieces[j + 1..])
  {
    assert pieces[j..][1..] == pieces[j + 1..];
  }

  /** What `TextFollows` says of the operations, the symbols behind the range show. */
  lemma {:induction false} FollowingSymbol(m: seq<Sym>, ops: seq<Op>, j: nat)
    requires Paired(m) && 0 < j <= |m| && m[j - 1].Ch?
    ensures var rest := Flat(Pieces(m, Edits(ops, true))[j..]); TextFollows(m, ops, j) <==> rest != [] && rest[0].Ch?
    decreases |m| - j
  {
    var es := Edits(ops, true);
    if j < |m| {
      assert PairedAt(m, j);
    }
    PieceAfterChar(m, es, j);
    FlatFrom(Pieces(m, es), j);
    DeletedByMembers(ops, true, j);
    if Inserted(es, j) == [] {
      if j == |m| {
        assert Pieces(m, es)[j + 1..] == [];
      } else if m[j].Ch? && Deleted(es, j) {
        FollowingSymbol(m, ops, j + 1);
      }
    }
  }

  lemma SameBlockInFront(m: seq<Sym>, rest: seq<Sym>, hi: nat, p: nat, k: nat)
    requires hi <= |m| && p < hi
    ensures k < hi ==> (SameBlock(m[..hi] + rest, p, k) <==> SameBlock(m, p, k))
    ensures k >= hi && SameBlock(m[..hi] + rest, p, k) ==> SameBlock(m, p, hi - 1) && rest != [] && rest[0].Ch?
    ensures SameBlock(m, p, hi - 1) && rest != [] && rest[0].Ch? ==> SameBlock(m[..hi] + rest, p, hi)
  {
    var now := m[..hi] + rest;
    assert forall j | 0 <= j < hi :: now[j] == m[j];
    assert rest != [] ==> now[hi] == rest[0];
  }

  /** The deletion leaves text in every paragraph it touches exactly if `Leaves` says so. */
  lemma LeavesIsSpared(m: seq<Sym>, ops: seq<Op>, d: Op)
    requires Paired(m) && d.Delete? && d.start < d.end <= |m| && From(Edits(ops, true), d.end)
    ensures Leaves(m, ops, d) <==> Spared(AtOnce(m, Edits(ops, true)), d.start, d.end)
  {
    hide Pieces, Flat, SameBlock, TextFollows;
    var lo, hi, rest := d.start, d.end, Flat(Pieces(m, Edits(ops, true))[d.end..]);
    Untouched(m, Edits(ops, true), hi);
    hide AtOnce, Edits;
    var now := m[..hi] + rest;
    assert AtOnce(m, Edits(ops, true)) == now;
    assert forall p: nat | p < hi :: now[p] == m[p];
    forall p: nat | p < hi && lo <= p && m[p].Ch?
      ensures (exists k: nat :: SameBlock(now, p, k) && !(lo <= k < hi)) <==>
              (exists k: nat :: k < lo && SameBlock(m, p, k)) || (SameBlock(m, p, hi - 1) && TextFollows(m, ops, hi))
    {
      LeavesAt(m, ops, rest, lo, hi, p);
    }
  }

  lemma LeavesAt(m: seq<Sym>, ops: seq<Op>, rest: seq<Sym>, lo: nat, hi: nat, p: nat)
    requires Paired(m) && lo <= p < hi <= |m| && m[p].Ch?
    requires rest == Flat(Pieces(m, Edits(ops, true))[hi..])
    ensures (exists k: nat :: SameBlock(m[..hi] + rest, p, k) && !(lo <= k < hi)) <==>
            (exists k: nat :: k < lo && SameBlock(m, p, k)) || (SameBlock(m, p, hi - 1) && TextFollows(m, ops, hi))
  {
    var now := m[..hi] + rest;
    if k: nat :| SameBlock(now, p, k) && !(lo <= k < hi) {
      SameBlockInFront(m, rest, hi, p, k);
      if k >= hi {
        FollowingSymbol(m, ops, hi);
      }
    }
    if k: nat :| k < lo && SameBlock(m, p, k) {
      SameBlockInFront(m, rest, hi, p, k);
    }
    if SameBlock(m, p, hi - 1) && TextFollows(m, ops, hi) {
      FollowingSymbol(m, ops, hi);
      SameBlockInFront(m, rest, hi, p, hi);
    }
  }

  // ----- counting paragraphs -----

  ghost function Seps(x: seq<Sym>): nat {
    if x == [] then 0 else (if x[0].Sep1? then 1 else 0) + Seps(x[1..])
  }

  lemma {:induction false} SepsJoin(a: seq<Sym>, b: seq<Sym>)
    ensures Seps(a + b) == Seps(a) + Seps(b)
    decreases |a|
  {
    if a == [] {
      assert a + b == b;
    } else {
      SepsJoin(a[1..], b);
      assert (a + b)[1..] == a[1..] + b;
    }
  }

  lemma {:induction false} SepsOfChars(x: seq<Sym>)
    requires Paired(x)
    ensures Seps(x) == 0 <==> AllChars(x)
  {
    NoSep1(x);
    if Seps(x) == 0 {
      forall i | 0 <= i < |x| ensures x[i].Ch? {
        assert PairedAt(x, i);
      }
    }
  }

  lemma {:induction false} NoSep1(x: seq<Sym>)
    ensures Seps(x) == 0 <==> forall i | 0 <= i < |x| :: !x[i].Sep1?
  {
    if x != [] {
      NoSep1(x[1..]);
      assert forall i | 0 < i < |x| :: x[i] == x[1..][i - 1];
    }
  }

  lemma {:induction false} SepsOfMark(blocks: seq<string>)
    requires blocks != []
    ensures Seps(Mark(blocks)) == |blocks| - 1
  {
    NoSep1(Chars(blocks[0]));
    if |blocks| > 1 {
      SepsOfMark(blocks[1..]);
      SepsJoin(Chars(blocks[0]) + [Sep1, Sep2], Mark(blocks[1..]));
      SepsJoin(Chars(blocks[0]), [Sep1, Sep2]);
      assert Seps([Sep1, Sep2]) == 1 by {
        assert [Sep1, Sep2][1..] == [Sep2] && [Sep2][1..] == [];
      }
    }
  }

  lemma {:induction false} SepsOfPieces(m: seq<Sym>, pieces: seq<seq<Sym>>)
    requires |pieces| == |m|
    requires forall i | 0 <= i < |m| :: pieces[i] == [m[i]] || (pieces[i] == [] && m[i].Ch?)
    ensures Seps(Flat(pieces)) == Seps(m)
    decreases |m|
  {
    if m != [] {
      SepsOfPieces(m[1..], pieces[1..]);
      SepsJoin(pieces[0], Flat(pieces[1..]));
      assert pieces[0] == [m[0]] ==> pieces[0][1..] == [];
    }
  }

  function Added(op: Op): nat { if op.Insert? then Breaks(op.text) else 0 }

  lemma StepCounts(x: seq<Sym>, op: Op)
    ensures Seps(Step(x, ToEdit(op, true))) == Seps(x) + Added(op)
  {
    match op
    case Insert(p, t, _) =>
      var at := Landing(x, p);
      SepsJoin(x[..at] + Mark(Split(t)), x[at..]);
      SepsJoin(x[..at], Mark(Split(t)));
      SepsJoin(x[..at], x[at..]);
      assert x[..at] + x[at..] == x;
      SepsOfMark(Split(t));
      SplitCounts(t);
    case Delete(lo, hi, _) => SepsOfPieces(x, DropPieces(x, lo, hi));
    case Format(_, _, _, _) =>
  }

  ghost function TotalBreaks(ops: seq<Op>): nat
    decreases |ops|
  {
    if ops == [] then 0 else TotalBreaks(ops[..|ops| - 1]) + Added(ops[|ops| - 1])
  }

  lemma {:induction false} NoBreaks(ops: seq<Op>)
    ensures TotalBreaks(ops) == 0 <==> forall op | op in ops :: Added(op) == 0
    decreases |ops|
  {
    if ops != [] {
      NoBreaks(ops[..|ops| - 1]);
      assert ops == ops[..|ops| - 1] + [ops[|ops| - 1]];
    }
  }

  // ----- one step -----

  lemma WithoutLast(m: seq<Sym>, ops: seq<Op>, op: Op)
    requires Paired(m) && Plannable(ops + [op], |m|) && BackToFront(Edits(ops + [op], true))
    ensures Plannable(ops, |m|) && BackToFront(Edits(ops, true))
    ensures From(Edits(ops, true), if op.Delete? then op.end else op.At())
    ensures Steps(m, Edits(ops + [op], true)) == Step(Steps(m, Edits(ops, true)), ToEdit(op, true))
    ensures Steps(m, Edits(ops, true)) == AtOnce(m, Edits(ops, true))
  {
    var all, es, e := ops + [op], Edits(ops, true), ToEdit(op, true);
    assert Edits(all, true) == es + [e];
    assert forall i | 0 <= i < |ops| :: all[i] == ops[i];
    PlannableIsCompatible(m, all, true);
    PlannableIsCompatible(m, ops, true);
    LastComesFirst(m, es, e);
    assert (es + [e])[..|es|] == es;
    BackToFrontIsAtOnce(m, es);
  }

  lemma InsertMidway(blocks: seq<string>, op: Op)
    requires blocks != [] && op.Insert?
    ensures Mark(ApplyOp(blocks, op)) == Step(Mark(blocks), ToEdit(op, true)) && ApplyOp(blocks, op) != []
  {
    hide Mark, Split, InsertAt, Landing;
    InsertSplices(blocks, op.position, op.text);
  }

  lemma DeleteStep(blocks: seq<string>, d: Op)
    requires blocks != [] && d.Delete? && d.start <= d.end
    ensures Spared(Mark(blocks), d.start, d.end) || |blocks| == 1 ==>
              Mark(ApplyOp(blocks, d)) == Step(Mark(blocks), ToEdit(d, true))
    ensures !Spared(Mark(blocks), d.start, d.end) && |blocks| > 1 ==> |ApplyOp(blocks, d)| < |blocks|
  {
    hide Drop, Spared, Paragraphs.Delete, Mark;
    DeleteDropsOrShrinks(blocks, d.start, d.end - d.start);
    assert d.start + (d.end - d.start) == d.end;
  }

  lemma AloneIsSingle(blocks: seq<string>, m: seq<Sym>, done: seq<Op>, d: Op)
    requires Paired(m) && d.Delete? && From(Edits(done, true), d.end) && blocks != []
    requires Seps(Mark(blocks)) == Seps(m) + TotalBreaks(done)
    ensures Alone(m, done, d) <==> |blocks| == 1
  {
    hide Edits, From, Mark, Paired, AllChars, Breaks, Seps, TotalBreaks;
    SepsOfMark(blocks);
    SepsOfChars(m);
    NoBreaks(done);
    DoneInserts(done, d.end);
  }

  lemma DeleteMidway(blocks: seq<string>, m: seq<Sym>, done: seq<Op>, d: Op)
    requires Paired(m) && d.Delete? && d.start < d.end <= |m| && From(Edits(done, true), d.end)
    requires Mark(blocks) == AtOnce(m, Edits(done, true)) && blocks != []
    requires Seps(Mark(blocks)) == Seps(m) + TotalBreaks(done)
    ensures Harmless(m, done, d) ==> Mark(ApplyOp(blocks, d)) == Step(Mark(blocks), ToEdit(d, true))
    ensures !Harmless(m, done, d) ==> |ApplyOp(blocks, d)| < |blocks|
  {
    hide AtOnce, Edits, Spared, ApplyOp, Step, ToEdit, Leaves, Alone, Mark, Paired, From, Seps, TotalBreaks;
    LeavesIsSpared(m, done, d);
    AloneIsSingle(blocks, m, done, d);
    DeleteStep(blocks, d);
  }

  lemma DoneInserts(done: seq<Op>, q: nat)
    requires From(Edits(done, true), q)
    ensures forall op | op in done && op.Insert? :: q <= op.position
  {
    forall op | op in done && op.Insert? ensures q <= op.position {
      var i :| 0 <= i < |done| && done[i] == op;
      assert Edits(done, true)[i] in Edits(done, true);
    }
  }

  lemma StepShrinks(blocks: seq<string>, op: Op)
    requires blocks != []
    ensures ApplyOp(blocks, op) != [] && |ApplyOp(blocks, op)| <= |blocks| + Added(op)
  {
    hide Spared, Mark, Drop, Paragraphs.Delete, InsertAt, Breaks;
    match op
    case Insert(p, t, _) => InsertCounts(blocks, p, t);
    case Delete(lo, hi, _) => DeleteDropsOrShrinks(blocks, lo, hi - lo);
    case Format(_, _, _, _) =>
  }

  /** No run of insertions and deletions ever leaves a document without a paragraph. */
  lemma {:induction false} RunNeverEmpties(blocks: seq<string>, ops: seq<Op>)
    requires blocks != []
    ensures ApplyAll(blocks, ops) != []
    decreases |ops|
  {
    if ops != [] {
      RunNeverEmpties(blocks, ops[..|ops| - 1]);
      StepShrinks(ApplyAll(blocks, ops[..|ops| - 1]), ops[|ops| - 1]);
    }
  }

  // ----- the whole run -----

  /** Every deletion is harmless, judged by the operations applied before it. */
  ghost predicate AllHarmless(m: seq<Sym>, ops: seq<Op>)
    requires Plannable(ops, |m|)
  {
    forall i | 0 <= i < |ops| && ops[i].Delete? :: HarmlessAt(m, ops, i)
  }

  ghost predicate HarmlessAt(m: seq<Sym>, ops: seq<Op>, i: nat)
    requires i < |ops| && ops[i].Delete? && Plannable(ops, |m|)
  {
    assert ops[i] in ops;
    Harmless(m, ops[..i], ops[i])
  }

  lemma AllHarmlessSnoc(m: seq<Sym>, done: seq<Op>, op: Op)
    requires Plannable(done + [op], |m|) && Plannable(done, |m|) && (op.Delete? ==> 0 < op.end <= |m|)
    ensures AllHarmless(m, done + [op]) <==> AllHarmless(m, done) && (op.Delete? ==> Harmless(m, done, op))
  {
    hide Harmless, Plannable;
    var all := done + [op];
    forall i | 0 <= i < |done| && done[i].Delete? ensures HarmlessAt(m, all, i) <==> HarmlessAt(m, done, i) {
      assert all[..i] == done[..i];
    }
    assert all[..|done|] == done;
    assert op.Delete? ==> (HarmlessAt(m, all, |done|) <==> Harmless(m, done, op));
  }

  lemma TotalBreaksSnoc(done: seq<Op>, op: Op)
    ensures TotalBreaks(done + [op]) == TotalBreaks(done) + Added(op)
  {
    assert (done + [op])[..|done|] == done;
  }

  /** How the document stands to `symbols`, which have `total` separators: it is them if all
      deletions were harmless, and has fewer paragraphs if not. */
  ghost predicate Tracks(now: seq<string>, symbols: seq<Sym>, total: nat, harmless: bool) {
    && now != [] && Seps(symbols) == total && |now| - 1 <= total
    && (if harmless then Mark(now) == symbols else |now| - 1 < total)
  }

  ghost predicate TracksAll(m: seq<Sym>, now: seq<string>, ops: seq<Op>)
    requires Plannable(ops, |m|)
  {
    Tracks(now, Steps(m, Edits(ops, true)), Seps(m) + TotalBreaks(ops), AllHarmless(m, ops))
  }

  lemma TracksInsert(now: seq<string>, symbols: seq<Sym>, total: nat, harmless: bool, op: Op)
    requires Tracks(now, symbols, total, harmless) && op.Insert?
    ensures Tracks(ApplyOp(now, op), Step(symbols, ToEdit(op, true)), total + Added(op), harmless)
  {
    hide ApplyOp, Step, ToEdit, Mark, Seps, Added;
    StepCounts(symbols, op);
    StepShrinks(now, op);
    InsertMidway(now, op);
  }

  lemma TracksDelete(now: seq<string>, m: seq<Sym>, done: seq<Op>, d: Op, harmless: bool)
    requires Paired(m) && d.Delete? && d.start < d.end <= |m| && From(Edits(done, true), d.end)
    requires Tracks(now, AtOnce(m, Edits(done, true)), Seps(m) + TotalBreaks(done), harmless)
    ensures Tracks(ApplyOp(now, d), Step(AtOnce(m, Edits(done, true)), ToEdit(d, true)),
                   Seps(m) + TotalBreaks(done), harmless && Harmless(m, done, d))
  {
    hide ApplyOp, Step, ToEdit, Mark, Seps, AtOnce, Edits, Harmless, Paired, From, TotalBreaks;
    StepCounts(AtOnce(m, Edits(done, true)), d);
    StepShrinks(now, d);
    SepsOfMark(now);
    if harmless {
      DeleteMidway(now, m, done, d);
    }
  }

  lemma LastFits(done: seq<Op>, op: Op, size: nat)
    requires Plannable(done + [op], size)
    ensures op.Delete? ==> op.start < op.end <= size
  {
    assert op in done + [op];
  }

  lemma TracksStep(m: seq<Sym>, now: seq<string>, done: seq<Op>, op: Op)
    requires Paired(m) && Plannable(done + [op], |m|) && BackToFront(Edits(done + [op], true)) && !op.Format?
    requires Plannable(done, |m|) && TracksAll(m, now, done)
    ensures TracksAll(m, ApplyOp(now, op), done + [op])
  {
    hide Steps, Edits, ApplyOp, Step, ToEdit, AtOnce, Harmless, BackToFront, Paired, Seps, From, AllHarmless, Plannable,
         Tracks, TotalBreaks;
    WithoutLast(m, done, op);
    LastFits(done, op, |m|);
    AllHarmlessSnoc(m, done, op);
    TotalBreaksSnoc(done, op);
    if op.Insert? {
      TracksInsert(now, Steps(m, Edits(done, true)), Seps(m) + TotalBreaks(done), AllHarmless(m, done), op);
    } else {
      TracksDelete(now, m, done, op, AllHarmless(m, done));
    }
  }

  lemma TracksNothing(blocks: seq<string>)
    requires blocks != []
    ensures Plannable([], |Mark(blocks)|) && TracksAll(Mark(blocks), ApplyAll(blocks, []), [])
  {
    hide Mark, Seps;
    SepsOfMark(blocks);
  }

  lemma {:induction false} RunOnSymbols(blocks: seq<string>, ops: seq<Op>)
    requires blocks != [] && forall op | op in ops :: !op.Format?
    requires Plannable(ops, |Mark(blocks)|) && BackToFront(Edits(ops, true))
    ensures TracksAll(Mark(blocks), ApplyAll(blocks, ops), ops)
    decreases |ops|
  {
    hide Edits, ApplyOp, BackToFront, Paired, Plannable, Mark, TracksAll;
    MarkIsPaired(blocks);
    if ops == [] {
      TracksNothing(blocks);
    } else {
      var done, op := ops[..|ops| - 1], ops[|ops| - 1];
      assert ops == done + [op];
      WithoutLast(Mark(blocks), done, op);
      RunOnSymbols(blocks, done);
      TracksStep(Mark(blocks), ApplyAll(blocks, done), done, op);
    }
  }

  // ----- judging a deletion by the whole list -----

  /** The operations from index `i` on all work in front of offset `q`. */
  ghost predicate InFrontFrom(ops: seq<Op>, i: nat, q: nat) {
    forall k | i <= k < |ops| :: (ops[k].Insert? ==> ops[k].position < q) && (ops[k].Delete? ==> ops[k].end <= q)
  }

  lemma LastElsewhere(ops: seq<Op>, i: nat, q: nat, p: nat)
    requires i < |ops| && InFrontFrom(ops, i, q) && q <= p
    ensures Inserted(Edits(ops, true), p) == Inserted(Edits(ops[..|ops| - 1], true), p)
    ensures InFrontFrom(ops[..|ops| - 1], i, q)
  {
    var n := |ops| - 1;
    var es := Edits(ops, true);
    assert es[..n] == Edits(ops[..n], true);
    assert es[n] == ToEdit(ops[n], true);
    hide Edits, Inserted, Mark, Split;
    InsertedSnoc(es, p);
    assert Own(es[n], p) == [];
    assert [] + Inserted(es[..n], p) == Inserted(es[..n], p);
  }

  lemma {:induction false} InsertedByFirst(ops: seq<Op>, i: nat, q: nat, p: nat)
    requires i <= |ops| && InFrontFrom(ops, i, q) && q <= p
    ensures Inserted(Edits(ops, true), p) == Inserted(Edits(ops[..i], true), p)
    decreases |ops|
  {
    hide Edits, Inserted, InFrontFrom;
    if i < |ops| {
      var rest := ops[..|ops| - 1];
      LastElsewhere(ops, i, q, p);
      assert rest[..i] == ops[..i];
      InsertedByFirst(rest, i, q, p);
    } else {
      assert ops[..i] == ops;
    }
  }

  lemma GoneByFirst(ops: seq<Op>, i: nat, q: nat, p: nat)
    requires i <= |ops| && InFrontFrom(ops, i, q) && q <= p
    ensures Gone(ops, p) <==> Gone(ops[..i], p)
  {
    if op :| op in ops && Removes(op, p) {
      var k :| 0 <= k < |ops| && ops[k] == op;
      assert ops[..i][k] == op;
    }
    if op :| op in ops[..i] && Removes(op, p) {
      assert op in ops;
    }
  }

  lemma {:induction false} TextFollowsByFirst(m: seq<Sym>, ops: seq<Op>, i: nat, q: nat, j: nat)
    requires i <= |ops| && InFrontFrom(ops, i, q) && q <= j <= |m|
    ensures TextFollows(m, ops, j) <==> TextFollows(m, ops[..i], j)
    decreases |m| - j
  {
    hide InFrontFrom, Inserted, Edits, Gone;
    InsertedByFirst(ops, i, q, j);
    GoneByFirst(ops, i, q, j);
    if j < |m| {
      TextFollowsByFirst(m, ops, i, q, j + 1);
    }
  }

  lemma HarmlessByFirst(m: seq<Sym>, ops: seq<Op>, i: nat, d: Op)
    requires d.Delete? && 0 < d.end <= |m| && i <= |ops| && InFrontFrom(ops, i, d.end)
    ensures Harmless(m, ops, d) <==> Harmless(m, ops[..i], d)
  {
    TextFollowsByFirst(m, ops, i, d.end, d.end);
    hide TextFollows, SameBlock;
    forall op | op in ops && op.Insert? && d.end <= op.position ensures op in ops[..i] {
      var k :| 0 <= k < |ops| && ops[k] == op;
      assert ops[..i][k] == op;
    }
  }

  lemma LaterPair(ops: seq<Op>, size: nat, i: nat, k: nat)
    requires i < k < |ops| && ops[i].Delete? && Plannable(ops, size) && BackToFront(Edits(ops, true))
    ensures ops[i].start < ops[i].end && ops[k].At() <= ops[i].start && Apart(ops[i], ops[k])
    ensures ops[k].Delete? ==> ops[k].start < ops[k].end
  {
    hide Apart;
    assert ops[i] in ops && ops[k] in ops;
    assert ToEdit(ops[k], true).At() == ops[k].At() && ToEdit(ops[i], true).At() == ops[i].At();
    assert Edits(ops, true)[k].At() <= Edits(ops, true)[i].At();
  }

  lemma LaterInFront(ops: seq<Op>, size: nat, i: nat)
    requires i < |ops| && ops[i].Delete? && Plannable(ops, size) && BackToFront(Edits(ops, true))
    ensures InFrontFrom(ops, i, ops[i].end)
  {
    hide Plannable, BackToFront, Edits;
    forall k | i <= k < |ops|
      ensures (ops[k].Insert? ==> ops[k].position < ops[i].end) && (ops[k].Delete? ==> ops[k].end <= ops[i].end)
    {
      if i < k {
        LaterPair(ops, size, i, k);
      }
    }
  }

  /** `Harmless` depends on the operations, not on their order. */
  lemma HarmlessSorted(m: seq<Sym>, ops: seq<Op>, d: Op)
    requires d.Delete? && 0 < d.end <= |m|
    ensures Harmless(m, Sort(ops), d) <==> Harmless(m, ops, d)
  {
    SameMembers(ops);
    TextFollowsSorted(m, ops, d.end);
    hide TextFollows, SameBlock, Sort;
  }

  lemma GoneSorted(ops: seq<Op>, p: nat)
    ensures Gone(Sort(ops), p) <==> Gone(ops, p)
  {
    SameMembers(ops);
  }

  lemma {:induction false} TextFollowsSorted(m: seq<Sym>, ops: seq<Op>, j: nat)
    requires j <= |m|
    ensures TextFollows(m, Sort(ops), j) <==> TextFollows(m, ops, j)
    decreases |m| - j
  {
    hide Inserted, Edits, Gone, Sort;
    GoneSorted(ops, j);
    SortInserts(ops, true, j);
    if j < |m| {
      TextFollowsSorted(m, ops, j + 1);
    }
  }

  /** Every deletion in the list is harmless. */
  ghost predicate NoHarm(m: seq<Sym>, ops: seq<Op>)
    requires Plannable(ops, |m|)
  {
    forall d | d in ops && d.Delete? :: Harmless(m, ops, d)
  }

  lemma NoHarmSorted(m: seq<Sym>, ops: seq<Op>)
    requires Plannable(ops, |m|) && Plannable(Sort(ops), |m|) && BackToFront(Edits(Sort(ops), true))
    ensures AllHarmless(m, Sort(ops)) <==> NoHarm(m, ops)
  {
    var sorted := Sort(ops);
    SameMembers(ops);
    hide Harmless, Sort;
    forall i | 0 <= i < |sorted| && sorted[i].Delete?
      ensures sorted[i] in ops && (HarmlessAt(m, sorted, i) <==> Harmless(m, ops, sorted[i]))
    {
      assert sorted[i] in sorted;
      LaterInFront(sorted, |m|, i);
      HarmlessByFirst(m, sorted, i, sorted[i]);
      HarmlessSorted(m, ops, sorted[i]);
    }
    if AllHarmless(m, sorted) {
      forall d | d in ops && d.Delete? ensures Harmless(m, ops, d) {
        var i :| 0 <= i < |sorted| && sorted[i] == d;
        assert HarmlessAt(m, sorted, i);
      }
    }
  }

  // ----- back to front on paragraphs -----

  /** Insertions and deletions, at least one of these, whose offsets fit and whose ranges
      are apart: applied one after another in their order to a document that has
      paragraphs, they make it what all of them at once make of the original, exactly if
      every deletion is harmless. */
  lemma OrderActsAtOnceOnParagraphs(blocks: seq<string>, ops: seq<Op>)
    requires blocks != [] && HasRangeEdit(ops) && (forall op | op in ops :: !op.Format?)
    requires Plannable(ops, |Mark(blocks)|)
    ensures Mark(ApplyAll(blocks, Order(ops))) == AtOnce(Mark(blocks), Edits(ops, true)) <==> NoHarm(Mark(blocks), ops)
  {
    var m, sorted := Mark(blocks), Sort(ops);
    DeletesSomething(ops, |m|);
    MarkIsPaired(blocks);
    OrderActsAtOnce(m, ops, true);
    SameMembers(ops);
    SortKeepsApart(ops);
    SortedIsBackToFront(ops, true);
    RunOnSymbols(blocks, sorted);
    NoHarmSorted(m, ops);
    SepsOfMark(ApplyAll(blocks, sorted));
    hide Mark, ApplyAll, Sort, Edits, AtOnce, Steps, Seps, NoHarm, AllHarmless;
  }

  lemma DeletesSomething(ops: seq<Op>, size: nat)
    requires HasRangeEdit(ops) && (forall op | op in ops :: !op.Format?) && Plannable(ops, size)
    ensures size > 0
  {
    var op :| op in ops && !op.Insert?;
  }

  // ----- insertions alone -----

  lemma {:induction false} EmptyIsOneParagraph(ops: seq<Op>)
    requires ops != [] && forall op | op in ops :: op.Insert?
    ensures ApplyAll([], ops) == ApplyAll([""], ops)
    decreases |ops|
  {
    var front, op := ops[..|ops| - 1], ops[|ops| - 1];
    assert op in ops;
    if front == [] {
      WeaveIntoNothing(Split(op.text));
    } else {
      EmptyIsOneParagraph(front);
    }
  }

  lemma WeaveIntoNothing(segments: seq<string>)
    requires segments != []
    ensures Weave("", 0, segments) + [""][1..] == segments
  {
    var n := |segments| - 1;
    var woven := Weave("", 0, segments);
    assert "" + segments[0] + "" == segments[0] && segments[n] + "" == segments[n] && "" + segments[0] == segments[0];
    assert woven == segments;
  }

  /** A list of insertions alone acts at once on a document, too, if offsets never increase
      along it, whatever paragraphs they break. */
  lemma FallingInsertionsActAtOnceOnParagraphs(blocks: seq<string>, ops: seq<Op>)
    requires !HasRangeEdit(ops) && NeverRises(ops) && Plannable(ops, |Mark(blocks)|)
    ensures Mark(ApplyAll(blocks, Order(ops))) == AtOnce(Mark(blocks), Edits(ops, true))
    ensures Print(ApplyAll(blocks, Order(ops))) == Plain(AtOnce(Mark(blocks), Edits(ops, true)))
  {
    var some := if blocks == [] then [""] else blocks;
    assert Mark(some) == Mark(blocks) && Order(ops) == ops;
    OnlyInserts(ops);
    hide Mark, ApplyAll, Edits, AtOnce, Steps, Plannable, NeverRises, HasRangeEdit, Plain, Print;
    PlainOfMark(ApplyAll(blocks, ops));
    if ops == [] {
      NoInsertions(blocks);
    } else {
      if blocks == [] {
        EmptyIsOneParagraph(ops);
      }
      FallingInsertionsOnSome(some, ops);
    }
  }

  lemma NoInsertions(blocks: seq<string>)
    ensures Mark(ApplyAll(blocks, [])) == AtOnce(Mark(blocks), Edits([], true))
  {
    MarkIsPaired(blocks);
    FallingActsAtOnce(Mark(blocks), [], true);
  }

  lemma FallingInsertionsOnSome(blocks: seq<string>, ops: seq<Op>)
    requires blocks != [] && !HasRangeEdit(ops) && NeverRises(ops) && Plannable(ops, |Mark(blocks)|)
    ensures Mark(ApplyAll(blocks, ops)) == AtOnce(Mark(blocks), Edits(ops, true))
  {
    var m := Mark(blocks);
    MarkIsPaired(blocks);
    OnlyInserts(ops);
    NothingDeleted(m, ops);
    assert Order(ops) == ops;
    hide Mark, ApplyAll, Edits, AtOnce, Steps, Plannable, NeverRises, HasRangeEdit, AllHarmless;
    FallingIsBackToFront(ops, true);
    FallingActsAtOnce(m, ops, true);
    RunOnSymbols(blocks, ops);
  }

  lemma OnlyInserts(ops: seq<Op>)
    requires !HasRangeEdit(ops)
    ensures forall op | op in ops :: op.Insert?
  {
  }

  lemma NothingDeleted(m: seq<Sym>, ops: seq<Op>)
    requires !HasRangeEdit(ops) && Plannable(ops, |m|)
    ensures AllHarmless(m, ops)
  {
    assert forall i | 0 <= i < |ops| :: ops[i] in ops;
  }

  // ----- when no deletion does harm -----

  /** Every deleted character shares its paragraph with one that stays. */
  ghost predicate KeepsText(m: seq<Sym>, ops: seq<Op>) {
    forall p: nat | p < |m| && m[p].Ch? && Gone(ops, p) :: exists k: nat :: SameBlock(m, p, k) && !Gone(ops, k)
  }

  lemma {:induction false} InsertedIsText(ops: seq<Op>, p: nat)
    requires forall op | op in ops && op.Insert? :: Breaks(op.text) == 0
    ensures forall x | x in Inserted(Edits(ops, true), p) :: x.Ch?
    decreases |ops|
  {
    if ops != [] {
      var rest, op := ops[..|ops| - 1], ops[|ops| - 1];
      assert op in ops && Edits(ops, true)[..|ops| - 1] == Edits(rest, true);
      InsertedIsText(rest, p);
      if op.Insert? {
        SplitCounts(op.text);
        OneSegment(op.text);
      }
    }
  }

  lemma {:induction false} TextFollowsUpTo(m: seq<Sym>, ops: seq<Op>, j: nat, k: nat)
    requires j <= k < |m| && !Gone(ops, k) && forall i | j <= i <= k :: m[i].Ch?
    requires forall op | op in ops && op.Insert? :: Breaks(op.text) == 0
    ensures TextFollows(m, ops, j)
    decreases k - j
  {
    InsertedIsText(ops, j);
    if j < k {
      TextFollowsUpTo(m, ops, j + 1, k);
    }
  }

  /** If nothing inserted breaks a paragraph, and every paragraph that loses characters
      also keeps one, no deletion does harm. */
  lemma KeepingTextIsHarmless(m: seq<Sym>, ops: seq<Op>)
    requires Plannable(ops, |m|) && KeepsText(m, ops)
    requires forall op | op in ops && op.Insert? :: Breaks(op.text) == 0
    ensures NoHarm(m, ops)
  {
    hide TextFollows, Breaks;
    forall d | d in ops && d.Delete? ensures Leaves(m, ops, d) {
      forall p: nat | Removes(d, p) && m[p].Ch?
        ensures (exists k: nat :: k < d.start && SameBlock(m, p, k))
                || (SameBlock(m, p, d.end - 1) && TextFollows(m, ops, d.end))
      {
        assert Gone(ops, p);
        var k: nat :| SameBlock(m, p, k) && !Gone(ops, k);
        assert !Removes(d, k);
        if d.end <= k {
          TextFollowsUpTo(m, ops, d.end, k);
        }
      }
    }
  }

  lemma BlankLineSplits()
    ensures Split("\n\n") == ["", ""] && Breaks("\n\n") == 1
  {
    assert "\n\n"[2..] == "" && "\n\n"[1..] == "\n" && "\n"[1..] == "";
  }

  lemma BreakFollows(m: seq<Sym>, i: Op, d: Op)
    requires i.Insert? && i.text == "\n\n" && d.Delete? && i.position <= |m|
    ensures !TextFollows(m, [i, d], i.position)
  {
    BreakStartsWithSeparator();
    hide Mark, Split;
    assert [i, d] == [i] + [d];
    InsertedFirst(i, [d], true, i.position);
    NoneInserted([d], true, i.position);
  }

  lemma BreakStartsWithSeparator()
    ensures var x := Mark(Split("\n\n")); x != [] && x[0] == Sep1
  {
    BlankLineSplits();
    assert ["", ""][1..] == [""] && Mark(["", ""]) == Chars("") + [Sep1, Sep2] + Mark([""]);
  }

  /** Without the first condition it is false: an insertion may split a paragraph so that
      the deletion empties one of the halves, which then vanishes with its separator. */
  lemma KeepingTextIsNotEnough()
    ensures var blocks, ops := ["ab"], [Insert(1, "\n\n", None), Delete(0, 1, "a")];
            && HasRangeEdit(ops) && Plannable(ops, |Mark(blocks)|) && KeepsText(Mark(blocks), ops)
            && Mark(ApplyAll(blocks, Order(ops))) != AtOnce(Mark(blocks), Edits(ops, true))
  {
    var blocks, i, d := ["ab"], Insert(1, "\n\n", None), Delete(0, 1, "a");
    var m := Mark(blocks);
    assert m == [Ch('a'), Ch('b')];
    KeepsSecond(m, i, d);
    BreaksBehind(m, i, d);
    hide KeepsText, Harmless, Mark, ApplyAll, Edits, Order, Plannable, AtOnce;
    OrderActsAtOnceOnParagraphs(blocks, [i, d]);
  }

  lemma KeepsSecond(m: seq<Sym>, i: Op, d: Op)
    requires |m| == 2 && m[0].Ch? && m[1].Ch? && i.Insert? && i.position == 1
    requires d.Delete? && d.start == 0 && d.end == 1
    ensures Plannable([i, d], 2) && HasRangeEdit([i, d]) && KeepsText(m, [i, d])
  {
    assert d in [i, d];
    assert !Gone([i, d], 1) && SameBlock(m, 0, 1);
  }

  lemma BreaksBehind(m: seq<Sym>, i: Op, d: Op)
    requires |m| == 2 && m[0].Ch? && m[1].Ch? && i.Insert? && i.position == 1 && i.text == "\n\n"
    requires d.Delete? && d.start == 0 && d.end == 1
    ensures !Harmless(m, [i, d], d)
  {
    BlankLineSplits();
    BreakFollows(m, i, d);
    hide TextFollows, Breaks, SameBlock;
    assert !Leaves(m, [i, d], d) by { assert Removes(d, 0); }
    assert i in [i, d];
  }

  lemma SplitChar(c: char)
    requires c != '\n'
    ensures Split([c]) == [[c]]
  {
    assert [c][1..] == "";
    SplitCounts([c]);
    OneSegment([c]);
  }

  /** Without the second it is false, too: a paragraph that loses all its characters
      vanishes, and what is inserted where it stood lands in its neighbour. */
  lemma LosingTextMovesInsertions()
    ensures var blocks, ops := ["a", "b"], [Insert(0, "x", None), Delete(0, 1, "a")];
            && HasRangeEdit(ops) && Plannable(ops, |Mark(blocks)|)
            && ApplyAll(blocks, Order(ops)) == ["xb"]
            && Mark(ApplyAll(blocks, Order(ops))) != AtOnce(Mark(blocks), Edits(ops, true))
  {
    var blocks, i, d := ["a", "b"], Insert(0, "x", None), Delete(0, 1, "a");
    var m, ops := Mark(blocks), [i, d];
    assert m == [Ch('a'), Sep1, Sep2, Ch('b')] by { assert blocks[1..] == ["b"]; }
    InsertsAndDeletes(i, d, |m|);
    assert Order(ops) == Sort(ops) && d in ops;
    SortPair(i, d);
    hide Harmless, Mark, ApplyAll, Edits, AtOnce, Sort, Plannable, HasRangeEdit;
    DeletesThenInserts(i, d);
    DeletesLoneText(m, i, d);
    OrderActsAtOnceOnParagraphs(blocks, ops);
  }

  lemma InsertsAndDeletes(i: Op, d: Op, size: nat)
    requires i == Insert(0, "x", None) && d == Delete(0, 1, "a") && size > 0
    ensures HasRangeEdit([i, d]) && Plannable([i, d], size) && forall op | op in [i, d] :: !op.Format?
  {
    assert d in [i, d];
  }

  lemma DeletesThenInserts(i: Op, d: Op)
    requires i == Insert(0, "x", None) && d == Delete(0, 1, "a")
    ensures ApplyAll(["a", "b"], [d, i]) == ["xb"]
  {
    var blocks, first, all := ["a", "b"], [d], [d, i];
    assert all[..1] == first && first[..0] == [];
    assert Survivors(blocks, 0, 1) == ["b"] by { assert blocks[1..] == ["b"] && ["b"][1..] == []; }
    assert ApplyAll(blocks, first) == ApplyOp(ApplyAll(blocks, first[..0]), d) == ["b"];
    SplitChar('x');
    assert Weave("b", 0, ["x"])[0] == "xb";
  }

  lemma DeletesLoneText(m: seq<Sym>, i: Op, d: Op)
    requires |m| > 1 && m[0].Ch? && m[1].Sep1? && i.Insert? && i.position == 0
    requires d.Delete? && d.start == 0 && d.end == 1
    ensures !Harmless(m, [i, d], d)
  {
    var ops := [i, d];
    NoneInserted(ops, true, 1);
    hide Edits, Inserted;
    assert !TextFollows(m, ops, 1);
    assert !Leaves(m, ops, d) by { assert Removes(d, 0) && m[0].Ch?; }
    assert !Alone(m, ops, d) by { assert !m[1].Ch?; }
  }
}
