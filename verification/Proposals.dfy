/** Proposing an edit, and accepting it later against the document as it is then. */
module Proposals {
  import opened AiOps
  import opened Search
  import opened Wrappers
  import opened ContentCheck
  import opened Recheck
  import opened Targets
  import opened Outcomes
  import opened Text
  import BlockText
  import EditOrder
  import PlainEdits
  import ParagraphEdits
  import FlatEdits
  import Marked
  import opened Simultaneous

  datatype Document = PlainText(chars: string) | Paragraphed(blocks: seq<string>)

  function TextOf(doc: Document): string {
    match doc
    case PlainText(chars) => chars
    case Paragraphed(blocks) => BlockText.Print(blocks)
  }

  /** The document with the operations applied in their order. */
  function After(doc: Document, ops: seq<Op>): Document {
    match doc
    case PlainText(chars) => PlainText(PlainEdits.ApplyAll(chars, EditOrder.Order(ops)))
    case Paragraphed(blocks) => Paragraphed(ParagraphEdits.ApplyAll(blocks, EditOrder.Order(ops)))
  }

  datatype Proposal = Proposal(operations: seq<Op>, before: string, after: string)

  datatype Answer =
    | Applied(doc: Document, operations: seq<Op>, rejected: seq<Rejection>)
    | Reconfirm(before: string, after: string, index: nat, expectedText: string, actualText: string)

  datatype ChatResult =
    | Edited(doc: Document, operations: seq<Op>, rejected: seq<Rejection>)
    | Conflict(index: nat, expectedText: string, actualText: string)

  /** Applying immediately: what was located is applied, unless the check stops. */
  ghost function Chatted(doc: Document, ops: seq<Op>, threshold: real): ChatResult {
    match Check(ops, TextOf(doc), threshold)
    case AllExact(valid) => Edited(After(doc, valid), valid, [])
    case Partial(valid, rejected) => Edited(After(doc, valid), valid, rejected)
    case Fuzzy(index, expected, actual) => Conflict(index, expected, actual)
  }

  /** Only operations that were all located are staged, with a preview of their result. */
  ghost function Propose(doc: Document, ops: seq<Op>, threshold: real): Option<Proposal> {
    match Check(ops, TextOf(doc), threshold)
    case AllExact(valid) =>
      if valid == [] then None else Some(Proposal(valid, TextOf(doc), TextOf(After(doc, valid))))
    case _ => None
  }

  ghost function Accept(doc: Document, p: Proposal, threshold: real, confirm: bool): Answer {
    match Check(p.operations, TextOf(doc), threshold)
    case AllExact(valid) => Applied(After(doc, valid), valid, [])
    case Partial(valid, rejected) => Applied(After(doc, valid), valid, rejected)
    case Fuzzy(index, expected, actual) =>
      if confirm then Applied(After(doc, p.operations), p.operations, [])
      else Reconfirm(TextOf(doc), TextOf(After(doc, p.operations)), index, expected, actual)
  }

  // ----- what each answer means -----

  /** The first operation that stops the check, what it expects, and what stands there. */
  ghost predicate Names(ops: seq<Op>, text: string, threshold: real, i: nat, expected: string, actual: string) {
    && FirstToStop(ops, text, threshold, i) && !ops[i].Insert?
    && expected == ops[i].expected && actual == Slice(text, ops[i].start, ops[i].end)
  }

  /** If some operation stops the check, the first is named and nothing changes. Otherwise
      what is there is applied, each at its target, and the rest rejected. */
  ghost predicate IsChatResult(doc: Document, ops: seq<Op>, threshold: real, result: ChatResult) {
    match result
    case Conflict(i, expected, actual) => Names(ops, TextOf(doc), threshold, i, expected, actual)
    case Edited(after, applied, rejected) =>
      NoneStops(ops, TextOf(doc), threshold) && Splits(ops, TextOf(doc), applied, rejected) && after == After(doc, applied)
  }

  /** A list is staged exactly if it is not empty and nothing in it is missing: moved to its
      targets, with the texts before and after. */
  ghost predicate IsProposal(doc: Document, ops: seq<Op>, proposal: Option<Proposal>) {
    match proposal
    case None => ops == [] || exists i :: 0 <= i < |ops| && Missing(ops[i], TextOf(doc))
    case Some(p) =>
      && ops != [] && (forall i | 0 <= i < |ops| :: !Missing(ops[i], TextOf(doc)))
      && Splits(ops, TextOf(doc), p.operations, [])
      && p.before == TextOf(doc) && p.after == TextOf(After(doc, p.operations))
  }

  /** If some operation stops the check, the author is asked again, unless this is the
      confirmation: then exactly the staged operations are applied. Otherwise what is there
      is applied, each at its target, and the rest rejected. */
  ghost predicate IsAnswer(doc: Document, p: Proposal, threshold: real, confirm: bool, answer: Answer) {
    match answer
    case Reconfirm(before, after, i, expected, actual) =>
      && !confirm && Names(p.operations, TextOf(doc), threshold, i, expected, actual)
      && before == TextOf(doc) && after == TextOf(After(doc, p.operations))
    case Applied(after, applied, rejected) =>
      && after == After(doc, applied)
      && if NoneStops(p.operations, TextOf(doc), threshold) then Splits(p.operations, TextOf(doc), applied, rejected)
         else confirm && applied == p.operations && rejected == []
  }

  lemma NamesIsOne(ops: seq<Op>, text: string, threshold: real, i: nat, expected: string, actual: string)
    requires Names(ops, text, threshold, i, expected, actual)
    ensures !NoneStops(ops, text, threshold)
  {
  }

  lemma ChatStopsOrApplies(doc: Document, ops: seq<Op>, threshold: real)
    ensures IsChatResult(doc, ops, threshold, Chatted(doc, ops, threshold))
    ensures Chatted(doc, ops, threshold).Conflict? <==> !NoneStops(ops, TextOf(doc), threshold)
  {
    CheckIsOutcome(ops, TextOf(doc), threshold);
    hide Check, NoneStops, Splits, FirstToStop, After, TextOf, Slice;
    var r := Check(ops, TextOf(doc), threshold);
    if r.Fuzzy? {
      NamesIsOne(ops, TextOf(doc), threshold, r.index, r.expectedText, r.actualText);
    }
  }

  lemma ProposalStagesAll(doc: Document, ops: seq<Op>, threshold: real)
    ensures IsProposal(doc, ops, Propose(doc, ops, threshold))
  {
    var r, text := Check(ops, TextOf(doc), threshold), TextOf(doc);
    CheckIsOutcome(ops, text, threshold);
    hide Check, Splits, After, TextOf, Slice, Missing, Reaches;
    match r
    case AllExact(valid) =>
      NothingRejected(ops, text, valid, []);
      assert ops != [] ==> !Missing(ops[0], text);
    case Partial(valid, rejected) => NothingRejected(ops, text, valid, rejected);
    case Fuzzy(i, _, _) => assert Missing(ops[i], text);
  }

  lemma AcceptAsksOrApplies(doc: Document, p: Proposal, threshold: real, confirm: bool)
    ensures IsAnswer(doc, p, threshold, confirm, Accept(doc, p, threshold, confirm))
    ensures Accept(doc, p, threshold, confirm).Reconfirm? <==> !confirm && !NoneStops(p.operations, TextOf(doc), threshold)
  {
    var r, text := Check(p.operations, TextOf(doc), threshold), TextOf(doc);
    CheckIsOutcome(p.operations, text, threshold);
    hide Check, NoneStops, Splits, FirstToStop, After, TextOf, Slice;
    if r.Fuzzy? {
      NamesIsOne(p.operations, text, threshold, r.index, r.expectedText, r.actualText);
    }
  }

  // ----- the requests -----

  method Chat(doc: Document, ops: seq<Op>, threshold: real) returns (result: ChatResult)
    ensures result == Chatted(doc, ops, threshold) && IsChatResult(doc, ops, threshold, result)
  {
    ChatStopsOrApplies(doc, ops, threshold);
    hide IsChatResult;
    var currentText := TextOf(doc);
    var checkResult := CheckContentExistence(ops, currentText, threshold);
    if checkResult.Fuzzy? {
      return Conflict(checkResult.index, checkResult.expectedText, checkResult.actualText);
    }
    var opsToApply, rejectedOps := checkResult.valid, if checkResult.Partial? then checkResult.rejected else [];
    if |opsToApply| == 0 {
      NothingApplied(doc);
      return Edited(doc, opsToApply, rejectedOps);
    }
    result := Edited(After(doc, opsToApply), opsToApply, rejectedOps);
  }

  lemma NothingApplied(doc: Document)
    ensures After(doc, []) == doc
  {
  }

  method ProposeChat(doc: Document, ops: seq<Op>, threshold: real) returns (proposal: Option<Proposal>)
    ensures proposal == Propose(doc, ops, threshold) && IsProposal(doc, ops, proposal)
  {
    ProposalStagesAll(doc, ops, threshold);
    hide IsProposal;
    var currentText := TextOf(doc);
    var checkResult := CheckContentExistence(ops, currentText, threshold);
    if !checkResult.AllExact? || |checkResult.valid| == 0 {
      return None;
    }
    proposal := Some(Proposal(checkResult.valid, currentText, TextOf(After(doc, checkResult.valid))));
  }

  method AcceptProposal(doc: Document, p: Proposal, threshold: real, confirm: bool) returns (answer: Answer)
    ensures answer == Accept(doc, p, threshold, confirm) && IsAnswer(doc, p, threshold, confirm, answer)
  {
    AcceptAsksOrApplies(doc, p, threshold, confirm);
    hide IsAnswer;
    var currentText := TextOf(doc);
    var checkResult := CheckContentExistence(p.operations, currentText, threshold);
    if checkResult.Fuzzy? && !confirm {
      return Reconfirm(currentText, TextOf(After(doc, p.operations)), checkResult.index,
                       checkResult.expectedText, checkResult.actualText);
    }
    var opsToApply, rejectedOps := p.operations, [];
    if checkResult.Partial? {
      opsToApply, rejectedOps := checkResult.valid, checkResult.rejected;
    } else if checkResult.AllExact? {
      opsToApply := checkResult.valid;
    }
    answer := Applied(After(doc, opsToApply), opsToApply, rejectedOps);
  }

  /** Accepting on an unchanged document never asks again and rejects nothing. It applies the
      staged operations themselves exactly if all of them are settled, and then the result
      is the one previewed. */
  lemma AcceptingAppliesThePreview(doc: Document, ops: seq<Op>, threshold: real, confirm: bool)
    requires Propose(doc, ops, threshold).Some?
    ensures var p := Propose(doc, ops, threshold).value;
            var answer := Accept(doc, p, threshold, confirm);
            && p.before == TextOf(doc)
            && answer.Applied? && answer.rejected == [] && |answer.operations| == |p.operations|
            && (answer.operations == p.operations <==> forall op | op in p.operations :: Settled(op, TextOf(doc)))
            && ((forall op | op in p.operations :: Settled(op, TextOf(doc))) ==> TextOf(answer.doc) == p.after)
  {
    CheckIsFixedPoint(ops, TextOf(doc), threshold);
    ExactOutcome(Check(ops, TextOf(doc), threshold).valid, TextOf(doc), threshold);
  }

  /** `after` is the flat text of the document with the operations carried out at once. */
  ghost predicate IsAtOnce(doc: Document, ops: seq<Op>, after: string) {
    match doc
    case PlainText(chars) => after == Marked.Plain(AtOnce(Marked.Chars(chars), EditOrder.Edits(ops, false)))
    case Paragraphed(blocks) => after == Marked.Plain(AtOnce(Marked.Mark(blocks), EditOrder.Edits(ops, true)))
  }

  ghost predicate NoHarmIn(doc: Document, ops: seq<Op>)
    requires EditOrder.Plannable(ops, |TextOf(doc)|)
  {
    match doc
    case PlainText(_) => true
    case Paragraphed(blocks) => Marked.PlainOfMark(blocks); ParagraphEdits.NoHarm(Marked.Mark(blocks), ops)
  }

  lemma OrderedIsAtOnce(doc: Document, ops: seq<Op>)
    requires EditOrder.HasRangeEdit(ops) && EditOrder.Plannable(ops, |TextOf(doc)|) && (doc.Paragraphed? ==> !HasFormat(ops))
    ensures IsAtOnce(doc, ops, TextOf(After(doc, ops))) <==> NoHarmIn(doc, ops)
  {
    match doc
    case PlainText(chars) => PlainEdits.OrderActsAtOnceOnText(chars, ops);
    case Paragraphed(blocks) =>
      Marked.PlainOfMark(blocks);
      assert |Marked.Plain(Marked.Mark(blocks))| == |Marked.Mark(blocks)|;
      FlatEdits.FlatTextActsAtOnce(blocks, ops);
  }

  lemma FallingIsAtOnce(doc: Document, ops: seq<Op>)
    requires !EditOrder.HasRangeEdit(ops) && EditOrder.NeverRises(ops) && EditOrder.Plannable(ops, |TextOf(doc)|)
    ensures IsAtOnce(doc, ops, TextOf(After(doc, ops)))
  {
    match doc
    case PlainText(chars) => PlainEdits.FallingInsertionsActAtOnce(chars, ops);
    case Paragraphed(blocks) =>
      Marked.PlainOfMark(blocks);
      assert |Marked.Plain(Marked.Mark(blocks))| == |Marked.Mark(blocks)|;
      ParagraphEdits.FallingInsertionsActAtOnceOnParagraphs(blocks, ops);
  }

  lemma InsertionsAreApart(ops: seq<Op>)
    requires !EditOrder.HasRangeEdit(ops)
    ensures EditOrder.AllApart(ops)
  {
    assert forall i | 0 <= i < |ops| :: ops[i] in ops;
  }

  /** What applying the operations that a check kept makes of the document it was made on.
      They can be carried out at once exactly if the targets, found from the list and the
      text, fit and do not overlap. With a range edit that is there, the result is then the
      document with all of them carried out at once, in a paragraph document exactly if no
      deletion does harm; with insertions alone it is, if targets never increase. */
  lemma KeptActAtOnce(doc: Document, ops: seq<Op>, threshold: real)
    requires !Check(ops, TextOf(doc), threshold).Fuzzy?
    ensures var kept, text := Check(ops, TextOf(doc), threshold).valid, TextOf(doc);
            && (EditOrder.Plannable(kept, |text|) <==> TargetsFit(ops, text) && TargetsApart(ops, text))
            && (TargetsFit(ops, text) && TargetsApart(ops, text) ==>
                  (if SomeRangeThere(ops, text)
                   then (doc.Paragraphed? && SomeFormatThere(ops, text)) || (IsAtOnce(doc, kept, TextOf(After(doc, kept))) <==> NoHarmIn(doc, kept))
                   else TargetsFall(ops, text) ==> IsAtOnce(doc, kept, TextOf(After(doc, kept)))))
  {
    var kept, text := Check(ops, TextOf(doc), threshold).valid, TextOf(doc);
    KeptIsApart(ops, text, threshold);
    hide TargetsFit, TargetsApart, TargetsFall, IsAtOnce, NoHarmIn, TextOf, After, Check, SomeRangeThere, SomeFormatThere,
         EditOrder.Plannable, EditOrder.NeverRises, EditOrder.AllApart, EditOrder.HasRangeEdit, HasFormat;
    if TargetsFit(ops, text) && TargetsApart(ops, text) {
      if SomeRangeThere(ops, text) {
        if !(doc.Paragraphed? && SomeFormatThere(ops, text)) {
          OrderedIsAtOnce(doc, kept);
        }
      } else if TargetsFall(ops, text) {
        FallingIsAtOnce(doc, kept);
      }
    }
  }

  /** An edit that is applied at once, and one that is accepted without being asked again:
      both apply what a check on the live document kept. */
  lemma AppliedIsKept(doc: Document, ops: seq<Op>, threshold: real, before: string, after: string, confirm: bool)
    requires !Check(ops, TextOf(doc), threshold).Fuzzy?
    ensures var kept, result := Check(ops, TextOf(doc), threshold).valid, Chatted(doc, ops, threshold);
            var answer := Accept(doc, Proposal(ops, before, after), threshold, confirm);
            && result.Edited? && result.operations == kept && result.doc == After(doc, kept)
            && answer == Applied(result.doc, kept, result.rejected)
            && |kept| + |result.rejected| == |ops|
  {
    CheckSplitsItsInput(ops, TextOf(doc), threshold);
  }

  /** What a preview of a list with a range edit shows. The staged operations can be carried
      out at once exactly if their targets, found from the list and the text, fit and do not
      overlap. Then the preview is the document with all of them carried out at once, in a
      paragraph document exactly if no deletion does harm. */
  lemma PreviewActsAtOnce(doc: Document, ops: seq<Op>, threshold: real)
    requires Propose(doc, ops, threshold).Some? && EditOrder.HasRangeEdit(ops) && (doc.Paragraphed? ==> !HasFormat(ops))
    ensures var p, text := Propose(doc, ops, threshold).value, TextOf(doc);
            && p.before == text
            && (EditOrder.Plannable(p.operations, |text|) <==> TargetsFit(ops, text) && TargetsApart(ops, text))
            && (TargetsFit(ops, text) && TargetsApart(ops, text) ==>
                  (IsAtOnce(doc, p.operations, p.after) <==> NoHarmIn(doc, p.operations)))
  {
    ExactKinds(ops, TextOf(doc), threshold);
    hide TargetsFit, TargetsApart, TargetsFall, IsAtOnce, NoHarmIn, TextOf, After, Check, SomeRangeThere, SomeFormatThere;
    KeptActAtOnce(doc, ops, threshold);
  }

  /** What a preview of insertions alone shows: all of them carried out at once, if their
      targets fit and never increase along the list. */
  lemma PreviewOfInsertions(doc: Document, ops: seq<Op>, threshold: real)
    requires Propose(doc, ops, threshold).Some? && !EditOrder.HasRangeEdit(ops)
    requires TargetsFit(ops, TextOf(doc)) && TargetsFall(ops, TextOf(doc))
    ensures var p := Propose(doc, ops, threshold).value; IsAtOnce(doc, p.operations, p.after)
  {
    ExactKinds(ops, TextOf(doc), threshold);
    KeptIsApart(ops, TextOf(doc), threshold);
    hide TargetsFit, TargetsApart, TargetsFall, IsAtOnce, NoHarmIn, TextOf, After, Check, SomeRangeThere, SomeFormatThere,
         EditOrder.Plannable, EditOrder.NeverRises, EditOrder.AllApart, EditOrder.HasRangeEdit, HasFormat;
    InsertionsAreApart(Propose(doc, ops, threshold).value.operations);
    KeptActAtOnce(doc, ops, threshold);
  }

  /** Operations that fit, are apart, and quote what is there are staged as they are, and the
      preview shows them carried out at once. */
  lemma PreviewOfOwnQuotes(doc: Document, ops: seq<Op>, threshold: real)
    requires EditOrder.HasRangeEdit(ops) && (doc.Paragraphed? ==> !HasFormat(ops))
    requires forall op | op in ops && !op.Insert? :: op.expected == Slice(TextOf(doc), op.start, op.end)
    requires forall op | op in ops && op.Insert? && op.anchor.Some? :: AnchorTarget(op, TextOf(doc), op.position)
    requires EditOrder.Plannable(ops, |TextOf(doc)|)
    ensures var p := Propose(doc, ops, threshold);
            p.Some? && p.value.operations == ops && (IsAtOnce(doc, ops, p.value.after) <==> NoHarmIn(doc, ops))
  {
    OwnQuotesStayApart(ops, TextOf(doc), threshold);
    hide TargetsFit, TargetsApart, IsAtOnce, NoHarmIn, TextOf, After, Check, AnchorTarget;
    OrderedIsAtOnce(doc, ops);
  }

  /** The check does not see to it that targets are apart. Two deletions of one quote may
      both be located at its only occurrence, and the second then deletes what follows it. */
  lemma LocatedRangesMayCoincide(threshold: real)
    ensures var ops, d := [Delete(3, 4, "x"), Delete(5, 6, "x")], Delete(0, 1, "x");
            && Check(ops, "xy", threshold) == AllExact([d, d]) && !TargetsApart(ops, "xy")
            && TextOf(After(PlainText("xy"), [d, d])) == ""
  {
    var first, second, d := Delete(3, 4, "x"), Delete(5, 6, "x"), Delete(0, 1, "x");
    OnlyMatch(first);
    OnlyMatch(second);
    TwoRanges(first, second, d, "xy", threshold);
    KeptIsApart([first, second], "xy", threshold);
    assert !EditOrder.AllApart([d, d]) by { assert !EditOrder.Apart([d, d][0], [d, d][1]); }
    EditOrder.SortPair(d, d);
    var once, twice := [d], [d, d];
    assert twice[..1] == once && once[..0] == [];
    assert d in twice;
    assert PlainEdits.ApplyAll("xy", once) == PlainEdits.ApplyOp("xy", d) == "y";
    assert PlainEdits.ApplyAll("xy", twice) == PlainEdits.ApplyOp("y", d) == "";
  }

  lemma OnlyMatch(op: Op)
    requires op.Delete? && op.expected == "x" && 2 < op.start <= op.end
    ensures Located(op, "xy") == Some(Delete(0, 1, "x"))
  {
    var text := "xy";
    assert Occurs(text, "x", 0) && !Occurs(text, "x", 2);
    assert !Occurs(text, "x", 1) by { assert text[1..2][0] == 'y'; }
    NearestIsOptimal("xy", "x", op.start);
    assert IsNearest("xy", "x", op.start, 0);
  }

  lemma TwoRanges(a: Op, b: Op, d: Op, text: string, threshold: real)
    requires !a.Insert? && !b.Insert? && Located(a, text) == Located(b, text) == Some(d)
    ensures Check([a, b], text, threshold) == AllExact([d, d])
  {
    var ops := [a, b];
    assert ops[1..] == [b] && [b][1..] == [];
    assert Placements(ops, text, map[]) == [Some(d), Some(d)];
    ExactOutcome(ops, text, threshold);
  }
}
