/** Applying a checked list of operations to a document that is one plain text. */
module PlainEdits {
  import opened AiOps
  import opened Wrappers
  import opened Marked
  import opened Simultaneous
  import opened EditOrder
  import opened Paragraphs
  import opened Weights
  import Text

  /** Offsets past the end count as the end; formatting leaves the characters. */
  function ApplyOp(s: string, op: Op): string {
    match op
    case Insert(p, t, _) => s[..Text.Least(p, |s|)] + t + s[Text.Least(p, |s|)..]
    case Delete(lo, hi, _) => Cut(s, lo, hi)
    case Format(_, _, _, _) => s
  }

  function ApplyAll(s: string, ops: seq<Op>): string
    decreases |ops|
  {
    if ops == [] then s else ApplyOp(ApplyAll(s, ops[..|ops| - 1]), ops[|ops| - 1])
  }

  class TextDocument {
    var chars: string

    constructor (initial: string)
      ensures chars == initial
    {
      chars := initial;
    }

    method InsertText(position: nat, text: string)
      modifies this
      ensures chars == ApplyOp(old(chars), Insert(position, text, None))
    {
      var at := Text.Least(position, |chars|);
      chars := chars[..at] + text + chars[at..];
    }

    method DeleteText(start: nat, length: nat)
      modifies this
      ensures chars == Cut(old(chars), start, start + length)
    {
      var from, end := Text.Least(start, |chars|), Text.Least(start + length, |chars|);
      if from < end {
        chars := chars[..from] + chars[end..];
      }
    }

    method ApplyInOrder(ops: seq<Op>)
      modifies this
      ensures chars == ApplyAll(old(chars), Order(ops))
    {
      var ordered := Order(ops);
      for k := 0 to |ordered|
        invariant chars == ApplyAll(old(chars), ordered[..k])
      {
        assert ordered[..k + 1][..k] == ordered[..k];
        match ordered[k]
        case Insert(position, text, anchor) => InsertText(position, text);
        case Delete(start, end, _) => DeleteText(start, if start <= end then end - start else 0);
        case Format(_, _, _, _) =>
      }
      assert ordered[..|ordered|] == ordered;
    }
  }

  lemma CharsSlice(s: string, at: nat)
    requires at <= |s|
    ensures Chars(s)[..at] == Chars(s[..at]) && Chars(s)[at..] == Chars(s[at..])
  {
  }

  lemma InsertOnSymbols(s: string, p: nat, t: string)
    ensures Step(Chars(s), Ins(p, Chars(t))) == Chars(s[..Text.Least(p, |s|)] + t + s[Text.Least(p, |s|)..])
  {
    var at := Text.Least(p, |s|);
    CharsSlice(s, at);
    CharsJoin(s[..at] + t, s[at..]);
    CharsJoin(s[..at], t);
  }

  lemma OpOnSymbols(s: string, op: Op)
    ensures Step(Chars(s), ToEdit(op, false)) == Chars(ApplyOp(s, op))
  {
    match op
    case Insert(p, t, _) => InsertOnSymbols(s, p, t);
    case Delete(lo, hi, _) => CutDrops(s, lo, hi);
    case Format(_, _, _, _) =>
  }

  lemma {:induction false} RunOnSymbols(s: string, ops: seq<Op>)
    ensures Steps(Chars(s), Edits(ops, false)) == Chars(ApplyAll(s, ops))
    decreases |ops|
  {
    hide Step, ApplyOp, ToEdit;
    if ops != [] {
      var n := |ops| - 1;
      assert Edits(ops, false)[..n] == Edits(ops[..n], false);
      RunOnSymbols(s, ops[..n]);
      OpOnSymbols(ApplyAll(s, ops[..n]), ops[n]);
    }
  }

  lemma CharsArePaired(s: string)
    ensures Paired(Chars(s)) && Plain(Chars(s)) == s
  {
  }

  /** Any list with a deletion or a formatting, whose offsets fit and whose ranges are
      apart: applied one after another in their order, its operations make of a plain text
      what all of them at once make of it. */
  lemma OrderActsAtOnceOnText(s: string, ops: seq<Op>)
    requires Plannable(ops, |s|) && HasRangeEdit(ops)
    ensures ApplyAll(s, Order(ops)) == Plain(AtOnce(Chars(s), Edits(ops, false)))
  {
    CharsArePaired(s);
    OrderActsAtOnce(Chars(s), ops, false);
    RunOnSymbols(s, Order(ops));
    CharsArePaired(ApplyAll(s, Order(ops)));
  }

  /** With at most one insertion per offset, the order of the list does not matter. */
  lemma ListOrderDoesNotMatterOnText(s: string, ops: seq<Op>, ops': seq<Op>)
    requires Plannable(ops, |s|) && Plannable(ops', |s|) && HasRangeEdit(ops)
    requires multiset(ops) == multiset(ops') && OneInsertPerOffset(ops)
    ensures ApplyAll(s, Order(ops)) == ApplyAll(s, Order(ops'))
  {
    assert HasRangeEdit(ops') by {
      var op :| op in ops && !op.Insert?;
      assert op in multiset(ops');
    }
    OrderActsAtOnceOnText(s, ops);
    OrderActsAtOnceOnText(s, ops');
    ListOrderDoesNotMatter(Chars(s), ops, ops', false);
  }

  // ----- insertions alone -----

  /** A list of insertions alone keeps list order. If offsets never increase along it, it
      acts at once, too. */
  lemma FallingInsertionsActAtOnce(s: string, ops: seq<Op>)
    requires Plannable(ops, |s|) && !HasRangeEdit(ops) && NeverRises(ops)
    ensures ApplyAll(s, Order(ops)) == Plain(AtOnce(Chars(s), Edits(ops, false)))
  {
    CharsArePaired(s);
    FallingActsAtOnce(Chars(s), ops, false);
    RunOnSymbols(s, Order(ops));
    CharsArePaired(ApplyAll(s, Order(ops)));
  }

  /** Insertions of text that shares no character with `s`, at offsets of `s`. */
  ghost predicate Inserts(ops: seq<Op>, s: string) {
    forall op | op in ops :: op.Insert? && op.text != "" && Foreign(op.text, s) && op.position <= |s|
  }

  function Reach(op: Op): nat { if op.Insert? then |op.text| * op.position else 0 }

  /** The weight if each insertion stands behind as many characters as its offset says. */
  ghost function Intended(ops: seq<Op>): nat { Sum(ops, Reach) }

  lemma {:induction false} FrontStays(s: string, ops: seq<Op>, q: nat)
    requires Inserts(ops, s) && q <= |s| && forall op | op in ops :: q <= op.At()
    ensures var now := ApplyAll(s, ops); |s| <= |now| && now[..q] == s[..q]
    decreases |ops|
  {
    if ops != [] {
      var front, op := ops[..|ops| - 1], ops[|ops| - 1];
      assert op in ops;
      FrontStays(s, front, q);
    }
  }

  /** The text inserted last begins at its offset. */
  lemma LastStands(s: string, ops: seq<Op>)
    requires Inserts(ops, s) && ops != []
    ensures var now, q := ApplyAll(s, ops), ops[|ops| - 1].At(); q < |now| && now[q] !in s
  {
    var front, op := ops[..|ops| - 1], ops[|ops| - 1];
    assert op in ops;
    FrontStays(s, front, 0);
    assert op.text[0] !in s;
  }

  /** What one more insertion adds to the weight is at most what is intended, and less if
      something foreign stands in front. */
  lemma NextWeight(s: string, now: string, op: Op)
    requires op.Insert? && op.text != "" && Foreign(op.text, s) && op.position <= |now|
    ensures var before := Originals(now[..op.position], s);
            && Weight(ApplyOp(now, op), s) == Weight(now, s) + |op.text| * before
            && before <= op.position && |op.text| * before <= |op.text| * op.position
            && (before < op.position ==> |op.text| * before < |op.text| * op.position)
  {
    var p, before := op.position, Originals(now[..op.position], s);
    assert now == now[..p] + now[p..];
    hide Originals, Weight, Foreign;
    WeightOfInsertion(now[..p], op.text, now[p..], s);
    OriginalsAtMost(now[..p], s);
    Products(|op.text|, before, p);
  }

  lemma NeverRisesSnoc(ops: seq<Op>, op: Op)
    ensures NeverRises(ops + [op]) <==> NeverRises(ops) && (ops != [] ==> op.At() <= ops[|ops| - 1].At())
    ensures NeverRises(ops + [op]) ==> forall x | x in ops :: op.At() <= x.At()
  {
    var all := ops + [op];
    assert forall i | 0 <= i < |ops| :: all[i] == ops[i];
    if NeverRises(ops) && (ops != [] ==> op.At() <= ops[|ops| - 1].At()) {
      assert NeverRises(all);
    }
    if NeverRises(all) {
      forall x | x in ops ensures op.At() <= x.At() {
        var i :| 0 <= i < |ops| && ops[i] == x;
        assert all[i] == x && all[|ops|] == op;
      }
    }
  }

  /** The weight is at most what is intended, and all of it only if offsets never increase. */
  lemma {:induction false} WeightOfRun(s: string, ops: seq<Op>)
    requires Inserts(ops, s)
    ensures Weight(ApplyAll(s, ops), s) <= Intended(ops)
    ensures Weight(ApplyAll(s, ops), s) == Intended(ops) <==> NeverRises(ops)
    decreases |ops|
  {
    if ops == [] {
      NoForeignWeight(s, s);
    } else {
      var front, op := ops[..|ops| - 1], ops[|ops| - 1];
      assert ops == front + [op] && op in ops;
      WeightOfRun(s, front);
      WeightStep(s, front, op);
    }
  }

  lemma WeightStep(s: string, front: seq<Op>, op: Op)
    requires Inserts(front, s) && Inserts([op], s)
    requires Weight(ApplyAll(s, front), s) <= Intended(front)
    requires Weight(ApplyAll(s, front), s) == Intended(front) <==> NeverRises(front)
    ensures Weight(ApplyAll(s, front + [op]), s) <= Intended(front + [op])
    ensures Weight(ApplyAll(s, front + [op]), s) == Intended(front + [op]) <==> NeverRises(front + [op])
  {
    var now := ApplyAll(s, front);
    assert op in [op] && (front + [op])[..|front|] == front;
    FrontStays(s, front, 0);
    assert ApplyAll(s, front + [op]) == ApplyOp(now, op);
    OriginalsInFront(s, front, op);
    hide ApplyAll, ApplyOp, Originals, Weight, Intended, NeverRises, Foreign;
    NextWeight(s, now, op);
    SumSnoc(front, op, Reach);
    assert Intended(front + [op]) == Intended(front) + |op.text| * op.position;
    NeverRisesSnoc(front, op);
  }

  /** All that stands in front of the next offset is original as long as offsets do not
      increase, and not when they do for the first time. */
  lemma OriginalsInFront(s: string, front: seq<Op>, op: Op)
    requires Inserts(front, s) && op.Insert? && op.position <= |s|
    ensures var now := ApplyAll(s, front);
            && op.position <= |now|
            && (NeverRises(front + [op]) ==> Originals(now[..op.position], s) == op.position)
            && (NeverRises(front) && !NeverRises(front + [op]) ==> Originals(now[..op.position], s) < op.position)
  {
    var now, p := ApplyAll(s, front), op.position;
    hide ApplyAll, Originals, NeverRises, Foreign;
    FrontStays(s, front, 0);
    NeverRisesSnoc(front, op);
    if NeverRises(front + [op]) {
      FrontStays(s, front, p);
      OriginalsAtMost(s[..p], s);
    } else if NeverRises(front) {
      LastStands(s, front);
      ForeignInFront(now, s, front[|front| - 1].At(), p);
    }
  }

  /** For insertions that share no character with the text: they act at once if and only if
      offsets never increase along the list. After an increase, the later insertion stands
      behind fewer of the original characters than its offset says. */
  lemma InsertionsActAtOnceIfFalling(s: string, ops: seq<Op>)
    requires Inserts(ops, s)
    ensures ApplyAll(s, Order(ops)) == Plain(AtOnce(Chars(s), Edits(ops, false))) <==> NeverRises(ops)
  {
    InsertsArePlannable(s, ops);
    if NeverRises(ops) {
      FallingInsertionsActAtOnce(s, ops);
    } else {
      var sorted := Sort(ops);
      SameMembers(ops);
      SortNeverRises(ops);
      WeightOfRun(s, ops);
      WeightOfRun(s, sorted);
      SumSorted(ops, Reach);
      CharsArePaired(s);
      SortActsAtOnce(Chars(s), ops, false);
      RunOnSymbols(s, sorted);
      CharsArePaired(ApplyAll(s, sorted));
    }
  }

  lemma InsertsArePlannable(s: string, ops: seq<Op>)
    requires Inserts(ops, s)
    ensures Plannable(ops, |s|) && !HasRangeEdit(ops)
  {
    forall i, j | 0 <= i < j < |ops| ensures Apart(ops[i], ops[j]) {
      assert ops[i] in ops && ops[j] in ops;
    }
  }

  /** Such a list: the later offset counts what the earlier insertion added. */
  lemma InsertionsAloneShift()
    ensures var ops := [Insert(0, "ab", None), Insert(1, "x", None)];
            && Plannable(ops, 1) && !HasRangeEdit(ops)
            && ApplyAll("c", Order(ops)) == "axbc" && Plain(AtOnce(Chars("c"), Edits(ops, false))) == "abcx"
  {
    var first, second := Insert(0, "ab", None), Insert(1, "x", None);
    var ops := [first, second];
    var es := Edits(ops, false);
    assert ops[..1] == [first] && [first][..0] == [];
    assert ApplyAll("c", [first]) == ApplyOp("c", first) == "abc";
    assert ApplyOp("abc", second) == "axbc";
    BothInserted(first, second);
    assert Plain(Chars("ab") + [Ch('c')] + Chars("x")) == "abcx";
  }

  lemma BothInserted(first: Op, second: Op)
    requires first == Insert(0, "ab", None) && second == Insert(1, "x", None)
    ensures AtOnce(Chars("c"), Edits([first, second], false)) == Chars("ab") + [Ch('c')] + Chars("x")
  {
    var m, es := Chars("c"), Edits([first, second], false);
    InsertedHere(first, second);
    hide Edits, Inserted, Deleted;
    assert Piece(m, es, 0) == Chars("ab") + [Ch('c')] && Piece(m, es, 1) == Chars("x");
    assert Pieces(m, es) == [Piece(m, es, 0), Piece(m, es, 1)];
    FlatOfTwo(Piece(m, es, 0), Piece(m, es, 1));
  }

  lemma InsertedHere(first: Op, second: Op)
    requires first == Insert(0, "ab", None) && second == Insert(1, "x", None)
    ensures var es := Edits([first, second], false);
            && Inserted(es, 0) == Chars("ab") && Inserted(es, 1) == Chars("x") && !Deleted(es, 0)
  {
    assert [first, second] == [first] + [second];
    InsertedFirst(first, [second], false, 0);
    InsertedFirst(first, [second], false, 1);
    NoneInserted([second], false, 0);
    assert OneInsertPerOffset([second]);
    OnlyInserted([second], false, second);
    DeletedByMembers([first, second], false, 0);
  }

  lemma FlatOfTwo(a: seq<Sym>, b: seq<Sym>)
    ensures Flat([a, b]) == a + b
  {
    assert [a, b][1..] == [b] && [b][1..] == [] && Flat([b]) == b + [];
  }
}
