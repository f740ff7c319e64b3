/** When a checked list makes of a document's flat text what its operations make at once:
    a deletion that does harm leaves a shorter text, and nothing makes up for it. */
module FlatEdits {
  import opened AiOps
  import opened BlockText
  import opened Marked
  import opened Simultaneous
  import opened EditOrder
  import opened Paragraphs
  import opened ParagraphEdits

  // ----- how much a deletion drops -----

  /** The characters of `x` at the offsets from `lo` to `hi`. */
  ghost function CharsIn(x: seq<Sym>, lo: int, hi: int): nat
    decreases hi - lo
  {
    if hi <= lo then 0 else CharsIn(x, lo, hi - 1) + if 0 <= hi - 1 < |x| && x[hi - 1].Ch? then 1 else 0
  }

  lemma {:induction false} CharsInSnoc(x: seq<Sym>, c: Sym, lo: int, hi: int)
    ensures CharsIn(x + [c], lo, hi) == CharsIn(x, lo, hi) + if lo <= |x| < hi && c.Ch? then 1 else 0
    decreases hi - lo
  {
    if lo < hi {
      CharsInSnoc(x, c, lo, hi - 1);
    }
  }

  lemma {:induction false} CharsInNothing(lo: int, hi: int)
    ensures CharsIn([], lo, hi) == 0
    decreases hi - lo
  {
    if lo < hi {
      CharsInNothing(lo, hi - 1);
    }
  }

  lemma DropOne(c: Sym, lo: int, hi: int)
    ensures |Drop([c], lo, hi)| == if lo <= 0 < hi && c.Ch? then 0 else 1
  {
    if lo <= 0 < hi && c.Ch? {
      DropEverything([c], lo, hi);
    } else {
      DropMisses([c], lo, hi);
    }
  }

  lemma {:induction false} DropLength(x: seq<Sym>, lo: int, hi: int)
    ensures |Drop(x, lo, hi)| == |x| - CharsIn(x, lo, hi)
    decreases |x|
  {
    if x == [] {
      DropMisses(x, lo, hi);
      CharsInNothing(lo, hi);
    } else {
      var front, c := x[..|x| - 1], x[|x| - 1];
      assert x == front + [c];
      DropLength(front, lo, hi);
      DropJoins(front, [c], lo, hi);
      DropOne(c, lo - |front|, hi - |front|);
      CharsInSnoc(front, c, lo, hi);
      hide Drop;
    }
  }

  lemma {:induction false} CharsInAtLeast(x: seq<Sym>, y: seq<Sym>, lo: int, hi: int)
    requires forall p | 0 <= p < |y| && lo <= p < hi && y[p].Ch? :: p < |x| && x[p].Ch?
    ensures CharsIn(y, lo, hi) <= CharsIn(x, lo, hi)
    decreases hi - lo
  {
    if lo < hi {
      CharsInAtLeast(x, y, lo, hi - 1);
    }
  }

  // ----- how much text is left -----

  ghost function Total(blocks: seq<string>): nat { if blocks == [] then 0 else |blocks[0]| + Total(blocks[1..]) }

  lemma {:induction false} TotalJoin(a: seq<string>, b: seq<string>)
    ensures Total(a + b) == Total(a) + Total(b)
    decreases |a|
  {
    if a == [] {
      assert a + b == b;
    } else {
      TotalJoin(a[1..], b);
      assert (a + b)[1..] == a[1..] + b;
    }
  }

  lemma {:induction false} MarkLength(blocks: seq<string>)
    requires blocks != []
    ensures |Mark(blocks)| == Total(blocks) + 2 * (|blocks| - 1)
  {
    if |blocks| > 1 {
      MarkLength(blocks[1..]);
    }
  }

  lemma TotalOfLeft(block: string, lo: int, hi: int)
    ensures Total(Left(block, lo, hi)) == |Cut(block, lo, hi)|
  {
    assert [Cut(block, lo, hi)][1..] == [];
  }

  lemma SurvivorsTotal(block: string, rest: seq<string>, lo: int, hi: int)
    ensures var shift := |block| + |BLOCK_SEPARATOR|;
            Total(Survivors([block] + rest, lo, hi)) == |Cut(block, lo, hi)| + Total(Survivors(rest, lo - shift, hi - shift))
  {
    var shift := |block| + |BLOCK_SEPARATOR|;
    SurvivorsCons(block, rest, lo, hi);
    TotalOfLeft(block, lo, hi);
    hide Left, Cut, Total, Survivors;
    TotalJoin(Left(block, lo, hi), Survivors(rest, lo - shift, hi - shift));
  }

  lemma DropPastFirst(block: string, rest: seq<string>, lo: int, hi: int)
    requires rest != []
    ensures var shift := |block| + |BLOCK_SEPARATOR|;
            |Drop(Mark([block] + rest), lo, hi)|
            == |Cut(block, lo, hi)| + |BLOCK_SEPARATOR| + |Drop(Mark(rest), lo - shift, hi - shift)|
  {
    hide Drop, Cut, Mark;
    MarkCons(block, rest);
    CutDropsFirst(block, Mark(rest), lo, hi);
  }

  lemma DropOnly(block: string, lo: int, hi: int)
    ensures |Drop(Mark([block]), lo, hi)| == |Cut(block, lo, hi)|
  {
    hide Drop, Cut;
    CutDrops(block, lo, hi);
  }

  /** The dropped text has the characters of the survivors, and all separators. */
  lemma {:induction false} DropTotal(blocks: seq<string>, lo: int, hi: int)
    requires blocks != []
    ensures |Drop(Mark(blocks), lo, hi)| == Total(Survivors(blocks, lo, hi)) + 2 * (|blocks| - 1)
    decreases |blocks|
  {
    var block, rest, shift := blocks[0], blocks[1..], |blocks[0]| + |BLOCK_SEPARATOR|;
    assert blocks == [block] + rest;
    hide Cut, Drop, Total, Survivors, Mark;
    SurvivorsTotal(block, rest, lo, hi);
    if rest == [] {
      assert blocks == [block];
      DropOnly(block, lo, hi);
      NoSurvivorsOfNothing(lo - shift, hi - shift);
    } else {
      DropTotal(rest, lo - shift, hi - shift);
      DropPastFirst(block, rest, lo, hi);
    }
  }

  lemma NoSurvivorsOfNothing(lo: int, hi: int)
    ensures Total(Survivors([], lo, hi)) == 0
  {
  }

  /** A deletion leaves at most what dropping leaves, and less if it takes paragraphs away. */
  lemma DeleteLength(blocks: seq<string>, start: nat, length: nat)
    requires blocks != []
    ensures |Mark(Paragraphs.Delete(blocks, start, length))| <= |Drop(Mark(blocks), start, start + length)|
    ensures |Paragraphs.Delete(blocks, start, length)| < |blocks| ==>
              |Mark(Paragraphs.Delete(blocks, start, length))| < |Drop(Mark(blocks), start, start + length)|
  {
    hide Drop, Mark, Total, Paragraphs.Delete;
    DropTotal(blocks, start, start + length);
    DeleteTotal(blocks, start, length);
    MarkLength(Paragraphs.Delete(blocks, start, length));
  }

  /** A deletion leaves the survivors' characters, in no more paragraphs. */
  lemma DeleteTotal(blocks: seq<string>, start: nat, length: nat)
    requires blocks != []
    ensures var after := Paragraphs.Delete(blocks, start, length);
            && 0 < |after| <= |blocks| && Total(after) == Total(Survivors(blocks, start, start + length))
  {
    hide Survivors, Spares;
    SurvivorsCount(blocks, start, start + length);
    assert [""][1..] == [];
  }

  // ----- what stays in front -----

  ghost predicate TextAt(m: seq<Sym>, p: int) { 0 <= p < |m| && m[p].Ch? }

  /** Where `m` has text in front of offset `q`, the document has text. */
  ghost predicate FrontText(now: seq<string>, m: seq<Sym>, q: int) {
    forall p | p < q && TextAt(m, p) :: TextAt(Mark(now), p)
  }

  lemma InsertKeepsFront(now: seq<string>, position: nat, text: string, p: nat)
    requires now != [] && p < position && TextAt(Mark(now), p)
    ensures TextAt(Mark(InsertAt(now, position, text)), p)
  {
    hide InsertAt, Mark, Split;
    InsertSplices(now, position, text);
  }

  lemma CharInCut(block: string, lo: int, hi: int, p: nat)
    requires p < |block| && p < lo
    ensures p < |Cut(block, lo, hi)| && Left(block, lo, hi) == [Cut(block, lo, hi)]
  {
  }

  lemma CharInFirst(block: string, rest: seq<string>, p: nat)
    requires p < |block|
    ensures TextAt(Mark([block] + rest), p)
  {
    FirstPart(block, rest);
  }

  lemma CharBehindFirst(block: string, rest: seq<string>, p: nat)
    requires p >= |block| && TextAt(Mark([block] + rest), p)
    ensures var shift := |block| + |BLOCK_SEPARATOR|; shift <= p && TextAt(Mark(rest), p - shift)
  {
    FirstPart(block, rest);
    var m := Mark([block] + rest);
    if rest != [] {
      assert m[|block|] == Sep1 && m[|block| + 1] == Sep2 by {
        assert m[|block|..][0] == Sep1 && m[|block|..][1] == Sep2;
      }
      assert p >= |block| + 2 ==> m[p] == m[|block| + 2..][p - |block| - 2];
    }
  }

  lemma CharShifted(block: string, rest: seq<string>, p: nat)
    requires TextAt(Mark(rest), p)
    ensures TextAt(Mark([block] + rest), p + |block| + |BLOCK_SEPARATOR|)
  {
    MarkCons(block, rest);
  }

  lemma UncutFirst(block: string, lo: int, hi: int)
    requires |block| + |BLOCK_SEPARATOR| < lo
    ensures Left(block, lo, hi) == [block]
  {
  }

  lemma {:induction false} SurvivorsKeepFront(blocks: seq<string>, lo: int, hi: int, p: nat)
    requires p < lo && TextAt(Mark(blocks), p)
    ensures TextAt(Mark(Survivors(blocks, lo, hi)), p)
    decreases |blocks|
  {
    hide Mark, Survivors, Left, TextAt;
    NothingInNothing(blocks, p);
    var block, rest, shift := blocks[0], blocks[1..], |blocks[0]| + |BLOCK_SEPARATOR|;
    assert blocks == [block] + rest;
    if p >= |block| {
      CharBehindFirst(block, rest, p);
      SurvivorsKeepFront(rest, lo - shift, hi - shift, p - shift);
    }
    FirstKeepsFront(block, Survivors(rest, lo - shift, hi - shift), lo, hi, p);
    SurvivorsCons(block, rest, lo, hi);
  }

  lemma FirstKeepsFront(block: string, left: seq<string>, lo: int, hi: int, p: nat)
    requires p < lo && (p >= |block| ==> var shift := |block| + |BLOCK_SEPARATOR|; shift <= p && TextAt(Mark(left), p - shift))
    ensures TextAt(Mark(Left(block, lo, hi) + left), p)
  {
    hide Mark, Cut, Left, TextAt;
    if p < |block| {
      CharInCut(block, lo, hi, p);
      CharInFirst(Cut(block, lo, hi), left, p);
    } else {
      UncutFirst(block, lo, hi);
      CharShifted(block, left, p - |block| - |BLOCK_SEPARATOR|);
    }
  }

  lemma NothingInNothing(blocks: seq<string>, p: nat)
    requires TextAt(Mark(blocks), p)
    ensures blocks != []
  {
  }

  lemma DeleteKeepsFront(now: seq<string>, start: nat, length: int, p: nat)
    requires p < start && TextAt(Mark(now), p)
    ensures TextAt(Mark(Paragraphs.Delete(now, start, length)), p)
  {
    SurvivorsKeepFront(now, start, start + length, p);
    NothingInNothing(Survivors(now, start, start + length), p);
    hide Mark, Survivors;
  }

  // ----- one step -----

  /** The flat text is no longer than the symbols', and shorter if a deletion did harm. */
  ghost predicate Shorter(now: seq<string>, symbols: seq<Sym>, harmless: bool) {
    |Mark(now)| <= |symbols| && (!harmless ==> |Mark(now)| < |symbols|)
  }

  /** The document has the text in front of everything done so far. */
  ghost predicate FrontKept(now: seq<string>, m: seq<Sym>, done: seq<Op>) {
    forall q: nat | q <= |m| && From(Edits(done, true), q) :: FrontText(now, m, q)
  }

  /** Both, of the operations done so far. */
  ghost predicate Measured(now: seq<string>, m: seq<Sym>, done: seq<Op>)
    requires Plannable(done, |m|)
  {
    Shorter(now, Steps(m, Edits(done, true)), AllHarmless(m, done)) && FrontKept(now, m, done)
  }

  lemma InsertShorter(now: seq<string>, symbols: seq<Sym>, harmless: bool, op: Op)
    requires now != [] && op.Insert? && Shorter(now, symbols, harmless)
    ensures Shorter(ApplyOp(now, op), Step(symbols, ToEdit(op, true)), harmless)
  {
    InsertMidway(now, op);
    StepLength(Mark(now), op.position, Mark(Split(op.text)));
    StepLength(symbols, op.position, Mark(Split(op.text)));
    hide Mark, Split, ApplyOp, Step;
  }

  lemma StepLength(x: seq<Sym>, p: nat, payload: seq<Sym>)
    ensures |Step(x, Ins(p, payload))| == |x| + |payload|
  {
  }

  lemma FrontInRange(now: seq<string>, symbols: seq<Sym>, lo: int, hi: int)
    requires FrontText(now, symbols, hi)
    ensures forall p | 0 <= p < |symbols| && lo <= p < hi && symbols[p].Ch? :: p < |Mark(now)| && Mark(now)[p].Ch?
  {
    hide Mark;
    assert forall p | 0 <= p < |symbols| && lo <= p < hi && symbols[p].Ch? :: TextAt(symbols, p);
  }

  lemma DeleteShorter(now: seq<string>, symbols: seq<Sym>, before: bool, after: bool, d: Op)
    requires now != [] && d.Delete? && d.start < d.end && Shorter(now, symbols, before)
    requires FrontText(now, symbols, d.end)
    requires !after ==> !before || |ApplyOp(now, d)| < |now|
    ensures Shorter(ApplyOp(now, d), Step(symbols, ToEdit(d, true)), after)
  {
    hide Mark, Drop, Paragraphs.Delete;
    DeleteLength(now, d.start, d.end - d.start);
    assert d.start + (d.end - d.start) == d.end;
    DropLength(Mark(now), d.start, d.end);
    DropLength(symbols, d.start, d.end);
    FrontInRange(now, symbols, d.start, d.end);
    CharsInAtLeast(Mark(now), symbols, d.start, d.end);
  }

  lemma FrontStep(now: seq<string>, m: seq<Sym>, done: seq<Op>, op: Op)
    requires now != [] && FrontKept(now, m, done) && !op.Format?
    ensures FrontKept(ApplyOp(now, op), m, done + [op])
  {
    forall q: nat | q <= |m| && From(Edits(done + [op], true), q) ensures FrontText(ApplyOp(now, op), m, q) {
      FromSnoc(done, op, q);
      assert FrontText(now, m, q);
      hide Mark, ApplyOp;
      forall p | p < q && TextAt(m, p) ensures TextAt(Mark(ApplyOp(now, op)), p) {
        OpKeepsFront(now, op, p);
      }
    }
  }

  lemma FromSnoc(done: seq<Op>, op: Op, q: nat)
    requires From(Edits(done + [op], true), q) && !op.Format?
    ensures From(Edits(done, true), q) && q <= op.At()
  {
    var all, es := Edits(done + [op], true), Edits(done, true);
    assert all[|done|] == ToEdit(op, true) && all[|done|] in all;
    forall e | e in es ensures e in all {
      var i :| 0 <= i < |es| && es[i] == e;
      assert all[i] == ToEdit((done + [op])[i], true) == es[i];
    }
  }

  lemma OpKeepsFront(now: seq<string>, op: Op, p: nat)
    requires now != [] && !op.Format? && p < op.At() && TextAt(Mark(now), p)
    ensures TextAt(Mark(ApplyOp(now, op)), p)
  {
    hide Mark, Paragraphs.Delete, InsertAt;
    match op
    case Insert(position, text, _) => InsertKeepsFront(now, position, text, p);
    case Delete(start, end, _) => DeleteKeepsFront(now, start, end - start, p);
  }

  lemma LengthStep(m: seq<Sym>, now: seq<string>, done: seq<Op>, op: Op)
    requires Paired(m) && Plannable(done + [op], |m|) && BackToFront(Edits(done + [op], true)) && !op.Format?
    requires Plannable(done, |m|) && TracksAll(m, now, done)
    requires Measured(now, m, done)
    ensures Measured(ApplyOp(now, op), m, done + [op])
  {
    hide Steps, Edits, ApplyOp, Step, ToEdit, AtOnce, Harmless, BackToFront, Paired, Seps, From, AllHarmless, Plannable,
         TotalBreaks, Shorter, FrontKept, Mark;
    WithoutLast(m, done, op);
    LastFits(done, op, |m|);
    AllHarmlessSnoc(m, done, op);
    FrontStep(now, m, done, op);
    if op.Insert? {
      InsertShorter(now, Steps(m, Edits(done, true)), AllHarmless(m, done), op);
    } else {
      DeleteOnSymbols(m, now, done, op, AllHarmless(m, done), AllHarmless(m, done + [op]));
    }
  }

  lemma DeleteOnSymbols(m: seq<Sym>, now: seq<string>, done: seq<Op>, d: Op, before: bool, after: bool)
    requires Paired(m) && d.Delete? && d.start < d.end <= |m| && From(Edits(done, true), d.end) && now != []
    requires FrontKept(now, m, done) && Shorter(now, AtOnce(m, Edits(done, true)), before)
    requires before ==> Mark(now) == AtOnce(m, Edits(done, true)) && Seps(Mark(now)) == Seps(m) + TotalBreaks(done)
    requires after <==> before && Harmless(m, done, d)
    ensures Shorter(ApplyOp(now, d), Step(AtOnce(m, Edits(done, true)), ToEdit(d, true)), after)
  {
    hide Edits, ApplyOp, Step, ToEdit, AtOnce, Harmless, Paired, Seps, From, TotalBreaks, Shorter, FrontKept, Mark;
    FrontOfSymbols(m, now, done, d.end);
    if before {
      DeleteMidway(now, m, done, d);
    }
    DeleteShorter(now, AtOnce(m, Edits(done, true)), before, after, d);
  }

  lemma FrontOfSymbols(m: seq<Sym>, now: seq<string>, done: seq<Op>, q: nat)
    requires FrontKept(now, m, done) && From(Edits(done, true), q) && q <= |m|
    requires Paired(m)
    ensures FrontText(now, AtOnce(m, Edits(done, true)), q)
  {
    Untouched(m, Edits(done, true), q);
    assert FrontText(now, m, q);
    hide Mark, AtOnce, Edits, Flat, Pieces;
    var symbols := AtOnce(m, Edits(done, true));
    assert forall p | p < q && TextAt(symbols, p) :: symbols[p] == m[p] && TextAt(m, p);
  }

  // ----- the whole run -----

  lemma NothingRun(blocks: seq<string>)
    requires blocks != []
    ensures Measured(ApplyAll(blocks, []), Mark(blocks), [])
  {
  }

  lemma {:induction false} RunLengths(blocks: seq<string>, ops: seq<Op>)
    requires blocks != [] && forall op | op in ops :: !op.Format?
    requires Plannable(ops, |Mark(blocks)|) && BackToFront(Edits(ops, true))
    ensures Measured(ApplyAll(blocks, ops), Mark(blocks), ops)
    decreases |ops|
  {
    hide Edits, ApplyOp, BackToFront, Paired, Plannable, Mark, TracksAll, Measured;
    MarkIsPaired(blocks);
    if ops == [] {
      NothingRun(blocks);
    } else {
      var done, op := ops[..|ops| - 1], ops[|ops| - 1];
      assert ops == done + [op];
      WithoutLast(Mark(blocks), done, op);
      RunLengths(blocks, done);
      RunOnSymbols(blocks, done);
      LengthStep(Mark(blocks), ApplyAll(blocks, done), done, op);
    }
  }

  /** Insertions and deletions, at least one of these, whose offsets fit and whose ranges
      are apart: the flat text they leave, applied one after another in their order, is that
      of all of them carried out at once if and only if every deletion is harmless. */
  lemma FlatTextActsAtOnce(blocks: seq<string>, ops: seq<Op>)
    requires HasRangeEdit(ops) && (forall op | op in ops :: !op.Format?)
    requires Plannable(ops, |Mark(blocks)|)
    ensures Print(ApplyAll(blocks, Order(ops))) == Plain(AtOnce(Mark(blocks), Edits(ops, true))) <==> NoHarm(Mark(blocks), ops)
  {
    var m, sorted := Mark(blocks), Sort(ops);
    DeletesSomething(ops, |m|);
    OrderActsAtOnceOnParagraphs(blocks, ops);
    PlainOfMark(ApplyAll(blocks, Order(ops)));
    MarkIsPaired(blocks);
    SortActsAtOnce(m, ops, true);
    SameMembers(ops);
    SortKeepsApart(ops);
    SortedIsBackToFront(ops, true);
    RunLengths(blocks, sorted);
    NoHarmSorted(m, ops);
    hide Mark, ApplyAll, Sort, Edits, AtOnce, Steps, NoHarm, AllHarmless;
  }
}
