/** The order in which checked operations are applied, and what that order achieves. */
module EditOrder {
  import opened AiOps
  import opened Wrappers
  import opened BlockText
  import opened Marked
  import opened Simultaneous
  import opened Sequences

  predicate HasRangeEdit(ops: seq<Op>) { exists op | op in ops :: !op.Insert? }

  /** The comparator: back to front, ranges before insertions at one offset. */
  function Compare(a: Op, b: Op): int {
    if a.At() != b.At() then b.At() - a.At()
    else if a.Insert? && !b.Insert? then 1
    else if !a.Insert? && b.Insert? then -1
    else 0
  }

  function Place(op: Op, sorted: seq<Op>): seq<Op> {
    if sorted == [] then [op]
    else if Compare(op, sorted[0]) <= 0 then [op] + sorted
    else [sorted[0]] + Place(op, sorted[1..])
  }

  /** The runtime's sort, which is stable. */
  function Sort(ops: seq<Op>): seq<Op> {
    if ops == [] then [] else Place(ops[0], Sort(ops[1..]))
  }

  /** Lists made of insertions alone keep their order. */
  function Order(ops: seq<Op>): seq<Op> { if HasRangeEdit(ops) then Sort(ops) else ops }

  // ----- the sort is a stable sort -----

  ghost predicate Sorted(ops: seq<Op>) { forall i, j | 0 <= i < j < |ops| :: Compare(ops[i], ops[j]) <= 0 }

  /** The operations that compare equal to `op`, in list order. */
  ghost function Equals(ops: seq<Op>, op: Op): seq<Op> {
    if ops == [] then []
    else if Compare(ops[0], op) == 0 then [ops[0]] + Equals(ops[1..], op)
    else Equals(ops[1..], op)
  }

  lemma {:induction false} PlaceMembers(op: Op, sorted: seq<Op>)
    ensures multiset(Place(op, sorted)) == multiset{op} + multiset(sorted)
    ensures forall x :: x in Place(op, sorted) <==> x == op || x in sorted
  {
    if sorted != [] && Compare(op, sorted[0]) > 0 {
      PlaceMembers(op, sorted[1..]);
      assert sorted == [sorted[0]] + sorted[1..];
    }
  }

  lemma ConsSorted(op: Op, rest: seq<Op>)
    requires Sorted(rest) && forall x | x in rest :: Compare(op, x) <= 0
    ensures Sorted([op] + rest)
  {
    var all := [op] + rest;
    forall i, j | 0 <= i < j < |all| ensures Compare(all[i], all[j]) <= 0 {
      assert all[j] == rest[j - 1] && (i > 0 ==> all[i] == rest[i - 1]);
    }
  }

  lemma HeadFirst(sorted: seq<Op>)
    requires Sorted(sorted) && sorted != []
    ensures Sorted(sorted[1..]) && forall x | x in sorted :: Compare(sorted[0], x) <= 0
  {
    forall x | x in sorted ensures Compare(sorted[0], x) <= 0 {
      var i :| 0 <= i < |sorted| && sorted[i] == x;
    }
  }

  lemma {:induction false} PlaceSorts(op: Op, sorted: seq<Op>)
    requires Sorted(sorted)
    ensures Sorted(Place(op, sorted))
  {
    if sorted != [] {
      HeadFirst(sorted);
      if Compare(op, sorted[0]) <= 0 {
        ConsSorted(op, sorted);
      } else {
        PlaceSorts(op, sorted[1..]);
        PlaceMembers(op, sorted[1..]);
        ConsSorted(sorted[0], Place(op, sorted[1..]));
      }
    }
  }

  lemma {:induction false} PlaceIsStable(op: Op, sorted: seq<Op>, k: Op)
    ensures Equals(Place(op, sorted), k) == Equals([op] + sorted, k)
  {
    if sorted != [] && Compare(op, sorted[0]) > 0 {
      PlaceIsStable(op, sorted[1..], k);
      assert ([op] + sorted)[1..] == sorted && ([op] + sorted[1..])[1..] == sorted[1..];
      assert ([sorted[0]] + Place(op, sorted[1..]))[1..] == Place(op, sorted[1..]);
    }
  }

  /** Sorting permutes, orders, and leaves equal operations in list order. */
  lemma {:induction false} SortIsStable(ops: seq<Op>, k: Op)
    ensures Sorted(Sort(ops)) && multiset(Sort(ops)) == multiset(ops)
    ensures Equals(Sort(ops), k) == Equals(ops, k)
  {
    if ops != [] {
      SortIsStable(ops[1..], k);
      PlaceSorts(ops[0], Sort(ops[1..]));
      PlaceMembers(ops[0], Sort(ops[1..]));
      PlaceIsStable(ops[0], Sort(ops[1..]), k);
      assert ops == [ops[0]] + ops[1..];
      assert ([ops[0]] + Sort(ops[1..]))[1..] == Sort(ops[1..]);
    }
  }

  ghost function Sum(ops: seq<Op>, weigh: Op -> nat): nat { if ops == [] then 0 else weigh(ops[0]) + Sum(ops[1..], weigh) }

  lemma {:induction false} SumSnoc(ops: seq<Op>, op: Op, weigh: Op -> nat)
    ensures Sum(ops + [op], weigh) == Sum(ops, weigh) + weigh(op)
  {
    if ops == [] {
      assert ops + [op] == [op] && [op][1..] == [];
    } else {
      SumSnoc(ops[1..], op, weigh);
      assert (ops + [op])[1..] == ops[1..] + [op];
    }
  }

  lemma {:induction false} SumPlaced(op: Op, sorted: seq<Op>, weigh: Op -> nat)
    ensures Sum(Place(op, sorted), weigh) == weigh(op) + Sum(sorted, weigh)
  {
    assert ([op] + sorted)[1..] == sorted;
    if sorted != [] && Compare(op, sorted[0]) > 0 {
      SumPlaced(op, sorted[1..], weigh);
      assert ([sorted[0]] + Place(op, sorted[1..]))[1..] == Place(op, sorted[1..]);
    } else {
      assert Place(op, sorted)[1..] == sorted;
    }
  }

  lemma {:induction false} SumSorted(ops: seq<Op>, weigh: Op -> nat)
    ensures Sum(Sort(ops), weigh) == Sum(ops, weigh)
  {
    if ops != [] {
      SumSorted(ops[1..], weigh);
      SumPlaced(ops[0], Sort(ops[1..]), weigh);
    }
  }

  lemma SameMembers(ops: seq<Op>)
    ensures forall op :: op in Sort(ops) <==> op in ops
  {
    SortIsStable(ops, Insert(0, "", None));
    forall op ensures op in Sort(ops) <==> op in ops {
      assert op in multiset(Sort(ops)) <==> op in multiset(ops);
    }
  }

  lemma SortPair(a: Op, b: Op)
    ensures Sort([a, b]) == if Compare(a, b) > 0 then [b, a] else [a, b]
  {
    var one, two := [b], [a, b];
    assert two[1..] == one && one[1..] == [];
    assert Sort(one) == Place(b, Sort(one[1..])) == one;
    assert Compare(a, b) > 0 ==> Place(a, one) == [b] + Place(a, one[1..]);
  }

  // ----- operations as edits of symbols -----

  /** In a plain text, inserted newlines are text; in a block document, blank lines break. */
  function ToEdit(op: Op, rich: bool): Edit {
    match op
    case Insert(p, t, _) => Ins(p, if rich then Mark(Split(t)) else Chars(t))
    case Delete(lo, hi, _) => Del(lo, hi)
    case Format(lo, _, _, _) => Idle(lo)
  }

  function Edits(ops: seq<Op>, rich: bool): (es: seq<Edit>)
    ensures |es| == |ops| && forall i | 0 <= i < |ops| :: es[i] == ToEdit(ops[i], rich)
  {
    if ops == [] then [] else [ToEdit(ops[0], rich)] + Edits(ops[1..], rich)
  }

  /** Two deletions are disjoint; an insertion is not strictly inside a deletion. */
  ghost predicate Apart(a: Op, b: Op) {
    && (a.Delete? && b.Delete? ==> a.end <= b.start || b.end <= a.start)
    && (a.Delete? && b.Insert? ==> b.position <= a.start || a.end <= b.position)
    && (a.Insert? && b.Delete? ==> a.position <= b.start || b.end <= a.position)
  }

  ghost predicate AllApart(ops: seq<Op>) { forall i, j | 0 <= i < j < |ops| :: Apart(ops[i], ops[j]) }

  /** Offsets within a text of `n` characters, deletions not empty, all apart. */
  ghost predicate Plannable(ops: seq<Op>, n: nat) {
    && (forall op | op in ops :: (op.Insert? ==> op.position <= n) && (op.Delete? ==> op.start < op.end <= n))
    && AllApart(ops)
  }

  lemma PayloadStartsWhole(text: string)
    ensures var x := Mark(Split(text)); x != [] ==> !x[0].Sep2?
  {
    MarkIsPaired(Split(text));
    var x := Mark(Split(text));
    if x != [] {
      assert PairedAt(x, 0);
    }
  }

  lemma AllFit(m: seq<Sym>, ops: seq<Op>, rich: bool)
    requires Plannable(ops, |m|)
    ensures forall e | e in Edits(ops, rich) :: Fits(m, e)
  {
    hide AllApart;
    var es := Edits(ops, rich);
    forall e | e in es ensures Fits(m, e) {
      var i :| 0 <= i < |es| && es[i] == e;
      assert ops[i] in ops;
      hide Fits;
      OneFits(m, ops[i], rich);
    }
  }

  lemma OneFits(m: seq<Sym>, op: Op, rich: bool)
    requires (op.Insert? ==> op.position <= |m|) && (op.Delete? ==> op.start < op.end <= |m|)
    ensures Fits(m, ToEdit(op, rich))
  {
    if op.Insert? {
      PayloadStartsWhole(op.text);
    }
    hide Mark, Split;
  }

  lemma PairIsClear(a: Op, b: Op, rich: bool)
    requires Apart(a, b)
    ensures Clear(ToEdit(a, rich), ToEdit(b, rich))
  {
    hide Mark, Split, Chars;
  }

  lemma AllClear(ops: seq<Op>, rich: bool)
    requires AllApart(ops)
    ensures forall i, j | 0 <= i < j < |ops| :: Clear(Edits(ops, rich)[i], Edits(ops, rich)[j])
  {
    var es := Edits(ops, rich);
    hide Clear, ToEdit;
    forall i, j | 0 <= i < j < |es| ensures Clear(es[i], es[j]) {
      PairIsClear(ops[i], ops[j], rich);
    }
  }

  lemma PlannableIsCompatible(m: seq<Sym>, ops: seq<Op>, rich: bool)
    requires Plannable(ops, |m|)
    ensures Compatible(m, Edits(ops, rich))
  {
    AllFit(m, ops, rich);
    AllClear(ops, rich);
    hide Plannable, Clear, Fits;
  }

  lemma ConsApart(op: Op, rest: seq<Op>)
    requires AllApart(rest) && forall x | x in rest :: Apart(op, x)
    ensures AllApart([op] + rest)
  {
    var all := [op] + rest;
    forall i, j | 0 <= i < j < |all| ensures Apart(all[i], all[j]) {
      assert all[j] == rest[j - 1] && (i > 0 ==> all[i] == rest[i - 1]);
    }
  }

  lemma HeadApart(ops: seq<Op>)
    requires AllApart(ops) && ops != []
    ensures AllApart(ops[1..]) && forall x | x in ops[1..] :: Apart(ops[0], x)
  {
    forall x | x in ops[1..] ensures Apart(ops[0], x) {
      var i :| 0 <= i < |ops[1..]| && ops[1..][i] == x;
      assert ops[i + 1] == x;
    }
  }

  lemma {:induction false} PlaceKeepsApart(op: Op, sorted: seq<Op>)
    requires AllApart(sorted) && forall x | x in sorted :: Apart(op, x)
    ensures AllApart(Place(op, sorted))
  {
    if sorted == [] || Compare(op, sorted[0]) <= 0 {
      ConsApart(op, sorted);
      assert [op] + sorted == Place(op, sorted);
    } else {
      HeadApart(sorted);
      PlaceKeepsApart(op, sorted[1..]);
      PlaceMembers(op, sorted[1..]);
      assert Apart(op, sorted[0]) && Apart(sorted[0], op);
      ConsApart(sorted[0], Place(op, sorted[1..]));
    }
  }

  lemma {:induction false} SortKeepsApart(ops: seq<Op>)
    requires AllApart(ops)
    ensures AllApart(Sort(ops))
  {
    if ops != [] {
      HeadApart(ops);
      SortKeepsApart(ops[1..]);
      SameMembers(ops[1..]);
      PlaceKeepsApart(ops[0], Sort(ops[1..]));
    }
  }

  // ----- sorting does not change the simultaneous effect -----

  function Own(e: Edit, p: int): seq<Sym> { if e.Ins? && e.at == p then e.payload else [] }

  lemma {:induction false} InsertedCons(e: Edit, es: seq<Edit>, p: int)
    ensures Inserted([e] + es, p) == Inserted(es, p) + Own(e, p)
    decreases |es|
  {
    var all := [e] + es;
    if es == [] {
      assert all[..0] == [];
    } else {
      var last := es[|es| - 1];
      assert all[..|es|] == [e] + es[..|es| - 1] && all[|es|] == last;
      InsertedCons(e, es[..|es| - 1], p);
      Associate(Own(last, p), Inserted(es[..|es| - 1], p), Own(e, p));
      InsertedSnoc(all, p);
      InsertedSnoc(es, p);
    }
  }

  lemma InsertedSnoc(es: seq<Edit>, p: int)
    requires es != []
    ensures Inserted(es, p) == Own(es[|es| - 1], p) + Inserted(es[..|es| - 1], p)
  {
    assert [] + Inserted(es[..|es| - 1], p) == Inserted(es[..|es| - 1], p);
  }

  lemma InsertedFirst(op: Op, ops: seq<Op>, rich: bool, p: int)
    ensures Inserted(Edits([op] + ops, rich), p) == Inserted(Edits(ops, rich), p) + Own(ToEdit(op, rich), p)
  {
    assert ([op] + ops)[1..] == ops;
    InsertedCons(ToEdit(op, rich), Edits(ops, rich), p);
  }

  lemma {:induction false} PlaceInserts(op: Op, sorted: seq<Op>, rich: bool, p: int)
    ensures Inserted(Edits(Place(op, sorted), rich), p) == Inserted(Edits(sorted, rich), p) + Own(ToEdit(op, rich), p)
  {
    if sorted == [] || Compare(op, sorted[0]) <= 0 {
      assert Place(op, sorted) == [op] + sorted;
      InsertedFirst(op, sorted, rich, p);
    } else {
      var first, rest := sorted[0], sorted[1..];
      PlaceInserts(op, rest, rich, p);
      InsertedFirst(first, Place(op, rest), rich, p);
      assert sorted == [first] + rest;
      InsertedFirst(first, rest, rich, p);
      NotBoth(op, first, rich, p);
      SwapNothing(Inserted(Edits(rest, rich), p), Own(ToEdit(op, rich), p), Own(ToEdit(first, rich), p));
    }
  }

  lemma NotBoth(a: Op, b: Op, rich: bool, p: int)
    requires Compare(a, b) > 0
    ensures Own(ToEdit(a, rich), p) == [] || Own(ToEdit(b, rich), p) == []
  {
  }

  lemma SwapNothing(a: seq<Sym>, x: seq<Sym>, y: seq<Sym>)
    requires x == [] || y == []
    ensures (a + x) + y == (a + y) + x
  {
  }

  lemma {:induction false} SortInserts(ops: seq<Op>, rich: bool, p: int)
    ensures Inserted(Edits(Sort(ops), rich), p) == Inserted(Edits(ops, rich), p)
  {
    if ops != [] {
      SortInserts(ops[1..], rich, p);
      PlaceInserts(ops[0], Sort(ops[1..]), rich, p);
      InsertedCons(ToEdit(ops[0], rich), Edits(ops[1..], rich), p);
    }
  }

  lemma DeletedByMembers(ops: seq<Op>, rich: bool, p: int)
    ensures Deleted(Edits(ops, rich), p) <==> exists op | op in ops :: op.Delete? && op.start <= p < op.end
  {
    var es := Edits(ops, rich);
    if Deleted(es, p) {
      var e :| e in es && e.Del? && e.lo <= p < e.hi;
      var i :| 0 <= i < |es| && es[i] == e;
      assert ops[i] in ops;
    }
    if op :| op in ops && op.Delete? && op.start <= p < op.end {
      var i :| 0 <= i < |ops| && ops[i] == op;
      assert es[i] in es;
    }
  }

  lemma PairBackToFront(a: Op, b: Op, rich: bool)
    requires Compare(a, b) <= 0
    ensures var d, e := ToEdit(a, rich), ToEdit(b, rich); e.At() <= d.At() && (e.At() == d.At() && d.Ins? ==> !e.Del?)
  {
  }

  lemma SortedIsBackToFront(ops: seq<Op>, rich: bool)
    ensures BackToFront(Edits(Sort(ops), rich))
  {
    SortIsStable(ops, Insert(0, "", None));
    var sorted := Sort(ops);
    var es := Edits(sorted, rich);
    hide Sort, ToEdit, Compare, Edits;
    forall i, j | 0 <= i < j < |es|
      ensures es[j].At() <= es[i].At() && (es[j].At() == es[i].At() && es[i].Ins? ==> !es[j].Del?)
    {
      PairBackToFront(sorted[i], sorted[j], rich);
    }
  }

  /** Any list whose offsets fit and whose ranges are apart: sorted, it does to the symbols
      what all its operations at once do to the original. */
  lemma SortActsAtOnce(m: seq<Sym>, ops: seq<Op>, rich: bool)
    requires Paired(m) && Plannable(ops, |m|)
    ensures Steps(m, Edits(Sort(ops), rich)) == AtOnce(m, Edits(ops, rich))
  {
    var sorted := Sort(ops);
    SameMembers(ops);
    SortKeepsApart(ops);
    PlannableIsCompatible(m, sorted, rich);
    SortedIsBackToFront(ops, rich);
    BackToFrontIsAtOnce(m, Edits(sorted, rich));
    forall p: int ensures Inserted(Edits(sorted, rich), p) == Inserted(Edits(ops, rich), p) {
      SortInserts(ops, rich, p);
    }
    forall p: int ensures Deleted(Edits(sorted, rich), p) <==> Deleted(Edits(ops, rich), p) {
      DeletedByMembers(ops, rich, p);
      DeletedByMembers(sorted, rich, p);
    }
    SameEffect(m, Edits(sorted, rich), Edits(ops, rich));
  }

  /** With at least one deletion or formatting, the list is applied in that order. */
  lemma OrderActsAtOnce(m: seq<Sym>, ops: seq<Op>, rich: bool)
    requires Paired(m) && Plannable(ops, |m|) && HasRangeEdit(ops)
    ensures Steps(m, Edits(Order(ops), rich)) == AtOnce(m, Edits(ops, rich))
  {
    SortActsAtOnce(m, ops, rich);
  }

  // ----- lists of insertions alone -----

  /** No operation works further back than one before it in the list. */
  ghost predicate NeverRises(ops: seq<Op>) { forall i, j | 0 <= i < j < |ops| :: ops[j].At() <= ops[i].At() }

  lemma SortNeverRises(ops: seq<Op>)
    ensures NeverRises(Sort(ops))
  {
    SortIsStable(ops, Insert(0, "", None));
    var sorted := Sort(ops);
    forall i, j | 0 <= i < j < |sorted| ensures sorted[j].At() <= sorted[i].At() {
      assert Compare(sorted[i], sorted[j]) <= 0;
    }
  }

  /** Insertions alone keep list order; they are back to front if offsets never increase. */
  lemma FallingIsBackToFront(ops: seq<Op>, rich: bool)
    requires !HasRangeEdit(ops) && NeverRises(ops)
    ensures BackToFront(Edits(ops, rich)) && Order(ops) == ops
  {
    var es := Edits(ops, rich);
    forall i, j | 0 <= i < j < |es| ensures es[j].At() <= es[i].At() && !es[j].Del? {
      assert ops[i] in ops && ops[j] in ops && ops[j].At() <= ops[i].At();
      assert es[i] == ToEdit(ops[i], rich) && es[j] == ToEdit(ops[j], rich);
    }
  }

  lemma FallingActsAtOnce(m: seq<Sym>, ops: seq<Op>, rich: bool)
    requires Paired(m) && Plannable(ops, |m|) && !HasRangeEdit(ops) && NeverRises(ops)
    ensures Steps(m, Edits(Order(ops), rich)) == AtOnce(m, Edits(ops, rich))
  {
    FallingIsBackToFront(ops, rich);
    PlannableIsCompatible(m, ops, rich);
    BackToFrontIsAtOnce(m, Edits(ops, rich));
  }

  // ----- when list order does not matter -----

  ghost predicate OneInsertPerOffset(ops: seq<Op>) {
    forall i, j | 0 <= i < j < |ops| && ops[i].Insert? && ops[j].Insert? :: ops[i].position != ops[j].position
  }

  lemma {:induction false} NoneInserted(ops: seq<Op>, rich: bool, p: int)
    requires forall op | op in ops && op.Insert? :: op.position != p
    ensures Inserted(Edits(ops, rich), p) == []
  {
    if ops != [] {
      NoneInserted(ops[1..], rich, p);
      assert ops == [ops[0]] + ops[1..] && ops[0] in ops;
      InsertedFirst(ops[0], ops[1..], rich, p);
    }
  }

  lemma HeadInsertsAlone(ops: seq<Op>)
    requires OneInsertPerOffset(ops) && ops != []
    ensures OneInsertPerOffset(ops[1..])
    ensures ops[0].Insert? ==> forall op | op in ops[1..] && op.Insert? :: op.position != ops[0].position
  {
    forall op | op in ops[1..] && op.Insert? && ops[0].Insert? ensures op.position != ops[0].position {
      var i :| 0 <= i < |ops[1..]| && ops[1..][i] == op;
      assert ops[i + 1] == op;
    }
  }

  lemma {:induction false} OnlyInserted(ops: seq<Op>, rich: bool, op: Op)
    requires op in ops && op.Insert? && OneInsertPerOffset(ops)
    ensures Inserted(Edits(ops, rich), op.position) == ToEdit(op, rich).payload
  {
    HeadInsertsAlone(ops);
    InsertedCons(ToEdit(ops[0], rich), Edits(ops[1..], rich), op.position);
    if op in ops[1..] {
      OnlyInserted(ops[1..], rich, op);
    } else {
      NoneInserted(ops[1..], rich, op.position);
    }
  }

  lemma SameInserted(ops: seq<Op>, ops': seq<Op>, rich: bool, p: int)
    requires forall op :: op in ops <==> op in ops'
    requires OneInsertPerOffset(ops) && OneInsertPerOffset(ops')
    ensures Inserted(Edits(ops, rich), p) == Inserted(Edits(ops', rich), p)
  {
    if op :| op in ops && op.Insert? && op.position == p {
      OnlyInserted(ops, rich, op);
      OnlyInserted(ops', rich, op);
    } else {
      NoneInserted(ops, rich, p);
      NoneInserted(ops', rich, p);
    }
  }

  lemma {:induction false} TwoCopies(ops: seq<Op>, op: Op)
    requires multiset(ops)[op] >= 2
    ensures exists i, j :: 0 <= i < j < |ops| && ops[i] == op == ops[j]
  {
    assert ops == [ops[0]] + ops[1..];
    if ops[0] == op {
      assert op in multiset(ops[1..]);
      var j :| 0 <= j < |ops[1..]| && ops[1..][j] == op;
      assert ops[0] == op == ops[j + 1];
    } else {
      TwoCopies(ops[1..], op);
      var i, j :| 0 <= i < j < |ops[1..]| && ops[1..][i] == op == ops[1..][j];
      assert ops[i + 1] == op == ops[j + 1];
    }
  }

  lemma {:induction false} CopiesCounted(ops: seq<Op>, i: nat, j: nat)
    requires i < j < |ops| && ops[i] == ops[j]
    ensures multiset(ops)[ops[i]] >= 2
  {
    assert ops == ops[..j] + [ops[j]] + ops[j + 1..];
    assert ops[i] in ops[..j];
  }

  lemma PermutedInserts(ops: seq<Op>, ops': seq<Op>)
    requires multiset(ops) == multiset(ops') && OneInsertPerOffset(ops)
    ensures OneInsertPerOffset(ops')
  {
    forall i, j | 0 <= i < j < |ops'| && ops'[i].Insert? && ops'[j].Insert?
      ensures ops'[i].position != ops'[j].position
    {
      var a, b := ops'[i], ops'[j];
      if a == b {
        CopiesCounted(ops', i, j);
        TwoCopies(ops, a);
      } else {
        assert a in multiset(ops) && b in multiset(ops);
        var k :| 0 <= k < |ops| && ops[k] == a;
        var l :| 0 <= l < |ops| && ops[l] == b;
      }
    }
  }

  /** With at most one insertion per offset, every order of the list has the same effect. */
  lemma ListOrderDoesNotMatter(m: seq<Sym>, ops: seq<Op>, ops': seq<Op>, rich: bool)
    requires multiset(ops) == multiset(ops') && OneInsertPerOffset(ops)
    ensures AtOnce(m, Edits(ops, rich)) == AtOnce(m, Edits(ops', rich))
  {
    PermutedInserts(ops, ops');
    forall op ensures op in ops <==> op in ops' {
      assert op in multiset(ops) <==> op in multiset(ops');
    }
    forall p: int ensures Inserted(Edits(ops, rich), p) == Inserted(Edits(ops', rich), p) {
      SameInserted(ops, ops', rich, p);
    }
    forall p: int ensures Deleted(Edits(ops, rich), p) <==> Deleted(Edits(ops', rich), p) {
      DeletedByMembers(ops, rich, p);
      DeletedByMembers(ops', rich, p);
    }
    SameEffect(m, Edits(ops, rich), Edits(ops', rich));
  }
}
