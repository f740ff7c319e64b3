/** A paragraph document as the editing service changes it in place: text nodes found
    through the offset index, paragraphs added and pruned in the fragment. */
module BlockDocument {
  import opened AiOps
  import opened Wrappers
  import opened BlockText
  import opened OffsetIndex
  import opened Paragraphs
  import opened EditOrder
  import opened ParagraphEdits
  import opened Sequences

  /** A paragraph element that holds one text node. */
  function Paragraph(id: nat): Node { Element([TextNode(id)]) }

  function TextId(node: Node): nat {
    if node.Element? && |node.children| == 1 && node.children[0].TextNode? then node.children[0].id else 0
  }

  predicate IsParagraph(node: Node) { node == Paragraph(TextId(node)) }

  /** All blocks are paragraphs, each with a text node of its own. */
  ghost predicate Paragraphic(text: Store, children: seq<Node>) {
    && (forall i | 0 <= i < |children| :: IsParagraph(children[i]) && TextId(children[i]) in text)
    && (forall i, j | 0 <= i < j < |children| :: TextId(children[i]) != TextId(children[j]))
  }

  lemma ParagraphText(text: Store, id: nat)
    ensures InlineText(text, Paragraph(id)) == Content(text, id)
    ensures Indexed(text, Paragraph(id)) == |Content(text, id)|
    ensures forall offset: nat :: Spans(text, Paragraph(id), offset) == [Span(id, offset, offset + |Content(text, id)|)]
  {
    var nodes := [TextNode(id)];
    assert nodes[1..] == [];
    assert InlineText(text, Element(nodes)) == InlineTexts(text, nodes) == Content(text, id) + "";
    assert Indexed(text, Element(nodes)) == IndexedAll(text, nodes) == |Content(text, id)| + 0;
    forall offset: nat
      ensures SpansOfAll(text, nodes, offset) == [Span(id, offset, offset + |Content(text, id)|)]
    {
      assert SpansOfAll(text, nodes, offset) == Spans(text, nodes[0], offset) + [];
    }
  }

  lemma TextsAreContents(text: Store, children: seq<Node>)
    requires Paragraphic(text, children)
    ensures forall i | 0 <= i < |children| :: BlockTexts(text, children)[i] == Content(text, TextId(children[i]))
  {
    forall i | 0 <= i < |children| ensures InlineText(text, children[i]) == Content(text, TextId(children[i])) {
      ParagraphText(text, TextId(children[i]));
    }
  }

  /** The flat offset at which block `i` starts. */
  ghost function Start(blocks: seq<string>, i: nat): nat
    requires i <= |blocks|
  {
    if i == 0 then 0 else |blocks[0]| + |BLOCK_SEPARATOR| + Start(blocks[1..], i - 1)
  }

  /** The span of block `i`, at its flat offset. */
  ghost predicate SpanAt(span: Span, children: seq<Node>, blocks: seq<string>, offset: nat, i: nat) {
    && i < |children| == |blocks|
    && span == Span(TextId(children[i]), offset + Start(blocks, i), offset + Start(blocks, i) + |blocks[i]|)
  }

  ghost predicate SpansMatch(spans: seq<Span>, children: seq<Node>, blocks: seq<string>, offset: nat) {
    |spans| == |children| == |blocks| && forall i | 0 <= i < |spans| :: SpanAt(spans[i], children, blocks, offset, i)
  }

  lemma SpansMatchCons(spans: seq<Span>, children: seq<Node>, blocks: seq<string>, offset: nat)
    requires children != [] && blocks != []
    requires SpansMatch(spans, children[1..], blocks[1..], offset + |blocks[0]| + |BLOCK_SEPARATOR|)
    ensures SpansMatch([Span(TextId(children[0]), offset, offset + |blocks[0]|)] + spans, children, blocks, offset)
  {
    var all := [Span(TextId(children[0]), offset, offset + |blocks[0]|)] + spans;
    forall i | 0 <= i < |all| ensures SpanAt(all[i], children, blocks, offset, i) {
      if i > 0 {
        assert SpanAt(spans[i - 1], children[1..], blocks[1..], offset + |blocks[0]| + |BLOCK_SEPARATOR|, i - 1);
        assert all[i] == spans[i - 1] && children[i] == children[1..][i - 1] && blocks[i] == blocks[1..][i - 1];
      }
    }
  }

  lemma ParagraphicTail(text: Store, children: seq<Node>)
    requires Paragraphic(text, children) && children != []
    ensures Paragraphic(text, children[1..]) && IsParagraph(children[0])
  {
    assert forall i | 0 <= i < |children| - 1 :: children[1..][i] == children[i + 1];
  }

  lemma IndexHead(text: Store, children: seq<Node>, offset: nat)
    requires children != [] && IsParagraph(children[0])
    ensures var blocks, next := BlockTexts(text, children), offset + |InlineText(text, children[0])| + |BLOCK_SEPARATOR|;
            && blocks[0] == InlineText(text, children[0]) && blocks[1..] == BlockTexts(text, children[1..])
            && Index(text, children, offset)
               == [Span(TextId(children[0]), offset, offset + |blocks[0]|)] + Index(text, children[1..], next)
  {
    ParagraphText(text, TextId(children[0]));
  }

  lemma {:induction false} IndexOfParagraphs(text: Store, children: seq<Node>, offset: nat)
    requires Paragraphic(text, children)
    ensures SpansMatch(Index(text, children, offset), children, BlockTexts(text, children), offset)
    decreases |children|
  {
    if children != [] {
      ParagraphicTail(text, children);
      IndexHead(text, children, offset);
      var blocks := BlockTexts(text, children);
      var next := offset + |blocks[0]| + |BLOCK_SEPARATOR|;
      hide Index, Paragraphic, SpansMatch, IsParagraph, InlineText;
      IndexOfParagraphs(text, children[1..], next);
      SpansMatchCons(Index(text, children[1..], next), children, blocks, offset);
    }
  }

  // ----- insertion at the block an offset belongs to -----

  /** The first block that ends at or behind the offset, or the last block. */
  ghost predicate IsTarget(blocks: seq<string>, position: int, i: nat) {
    && i < |blocks|
    && (position <= Start(blocks, i) + |blocks[i]| || i == |blocks| - 1)
    && forall j | 0 <= j < i :: position > Start(blocks, j) + |blocks[j]|
  }

  lemma TargetBehind(blocks: seq<string>, position: int, i: nat)
    requires IsTarget(blocks, position, i) && i > 0
    ensures IsTarget(blocks[1..], position - |blocks[0]| - |BLOCK_SEPARATOR|, i - 1)
    ensures |blocks| > 1 && position > |blocks[0]|
  {
    var rest, position' := blocks[1..], position - |blocks[0]| - |BLOCK_SEPARATOR|;
    assert position > Start(blocks, 0) + |blocks[0]|;
    forall j | 0 <= j < i - 1 ensures position' > Start(rest, j) + |rest[j]| {
      assert position > Start(blocks, j + 1) + |blocks[j + 1]|;
    }
  }

  lemma InMiddle(blocks: seq<string>, woven: seq<string>, i: nat)
    requires 0 < i < |blocks|
    ensures [blocks[0]] + (blocks[1..][..i - 1] + woven + blocks[1..][i..]) == blocks[..i] + woven + blocks[i + 1..]
  {
    assert [blocks[0]] + blocks[1..][..i - 1] == blocks[..i] && blocks[1..][i..] == blocks[i + 1..];
  }

  lemma {:induction false} InsertAtTarget(blocks: seq<string>, position: int, text: string, i: nat)
    requires IsTarget(blocks, position, i)
    ensures InsertAt(blocks, position, text)
            == blocks[..i] + Weave(blocks[i], Clamp(position - Start(blocks, i), 0, |blocks[i]|), Split(text)) + blocks[i + 1..]
    decreases i
  {
    hide Weave, Split;
    if i == 0 {
      assert blocks[..0] == [];
    } else {
      TargetBehind(blocks, position, i);
      hide IsTarget;
      var rest, position' := blocks[1..], position - |blocks[0]| - |BLOCK_SEPARATOR|;
      InsertAtTarget(rest, position', text, i - 1);
      InMiddle(blocks, Weave(blocks[i], Clamp(position - Start(blocks, i), 0, |blocks[i]|), Split(text)), i);
    }
  }

  // ----- removing blocks -----

  ghost function Without(children: seq<Node>, gone: set<Node>): seq<Node> {
    if children == [] then []
    else if children[0] in gone then Without(children[1..], gone)
    else [children[0]] + Without(children[1..], gone)
  }

  lemma {:induction false} WithoutMembers(children: seq<Node>, gone: set<Node>)
    ensures forall b :: b in Without(children, gone) <==> b in children && b !in gone
  {
    if children != [] {
      WithoutMembers(children[1..], gone);
      assert children == [children[0]] + children[1..];
    }
  }

  lemma {:induction false} WithoutNothing(children: seq<Node>)
    ensures Without(children, {}) == children
  {
    if children != [] {
      WithoutNothing(children[1..]);
      assert children == [children[0]] + children[1..];
    }
  }

  ghost predicate Distinct(children: seq<Node>) { forall i, j | 0 <= i < j < |children| :: children[i] != children[j] }

  lemma RemoveCons<T>(first: T, rest: seq<T>, index: nat)
    requires 0 < index <= |rest|
    ensures [first] + (rest[..index - 1] + rest[index..]) == ([first] + rest)[..index] + ([first] + rest)[index + 1..]
  {
  }

  lemma HeadIsElsewhere(children: seq<Node>, block: Node)
    requires Distinct(children) && children != [] && block in children[1..]
    ensures block != children[0]
  {
    var j :| 0 <= j < |children[1..]| && children[1..][j] == block;
    assert children[j + 1] == block;
  }

  lemma {:induction false} WithoutOneMore(children: seq<Node>, gone: set<Node>, block: Node, index: nat)
    requires Distinct(children) && index < |Without(children, gone)| && Without(children, gone)[index] == block
    ensures var left := Without(children, gone); Without(children, gone + {block}) == left[..index] + left[index + 1..]
  {
    var left, rest := Without(children, gone), children[1..];
    assert Distinct(rest) by {
      assert forall i | 0 <= i < |rest| :: rest[i] == children[i + 1];
    }
    if children[0] in gone {
      WithoutOneMore(rest, gone, block, index);
    } else if index == 0 {
      assert block == children[0] && left[1..] == Without(rest, gone);
      assert block !in rest by {
        assert forall j | 0 <= j < |rest| :: rest[j] == children[j + 1] != block;
      }
      WithoutAbsent(rest, gone, block);
    } else {
      WithoutMembers(rest, gone);
      assert left[index] == Without(rest, gone)[index - 1];
      assert block in rest;
      HeadIsElsewhere(children, block);
      WithoutOneMore(rest, gone, block, index - 1);
      RemoveCons(children[0], Without(rest, gone), index);
    }
  }

  lemma {:induction false} WithoutAbsent(children: seq<Node>, gone: set<Node>, block: Node)
    requires block !in children
    ensures Without(children, gone + {block}) == Without(children, gone)
  {
    if children != [] {
      WithoutAbsent(children[1..], gone, block);
    }
  }

  /** Block `i` has lost its overlap, and is marked as gone if that was all it had. */
  ghost predicate CutAt(text: Store, node: Node, blocks: seq<string>, i: nat, lo: int, hi: int, gone: set<Node>)
    requires i < |blocks|
  {
    && InlineText(text, node) == Cut(blocks[i], lo - Start(blocks, i), hi - Start(blocks, i))
    && (node in gone <==> Emptied(blocks[i], lo - Start(blocks, i), hi - Start(blocks, i)))
  }

  ghost predicate CutAll(text: Store, children: seq<Node>, blocks: seq<string>, lo: int, hi: int, gone: set<Node>) {
    |children| == |blocks| && forall i | 0 <= i < |children| :: CutAt(text, children[i], blocks, i, lo, hi, gone)
  }

  lemma CutAllBehind(text: Store, children: seq<Node>, blocks: seq<string>, lo: int, hi: int, gone: set<Node>)
    requires CutAll(text, children, blocks, lo, hi, gone) && blocks != []
    ensures var shift := |blocks[0]| + |BLOCK_SEPARATOR|;
            CutAll(text, children[1..], blocks[1..], lo - shift, hi - shift, gone)
  {
    var shift := |blocks[0]| + |BLOCK_SEPARATOR|;
    hide InlineText, Emptied, Cut;
    forall i | 0 <= i < |children| - 1
      ensures CutAt(text, children[1..][i], blocks[1..], i, lo - shift, hi - shift, gone)
    {
      assert CutAt(text, children[i + 1], blocks, i + 1, lo, hi, gone);
      hide CutAt, CutAll;
      CutAtBehind(text, children[i + 1], blocks, i, lo, hi, gone);
    }
  }

  lemma CutAtBehind(text: Store, node: Node, blocks: seq<string>, i: nat, lo: int, hi: int, gone: set<Node>)
    requires i + 1 < |blocks| && CutAt(text, node, blocks, i + 1, lo, hi, gone)
    ensures var shift := |blocks[0]| + |BLOCK_SEPARATOR|; CutAt(text, node, blocks[1..], i, lo - shift, hi - shift, gone)
  {
    hide InlineText, Emptied, Cut;
    assert Start(blocks, i + 1) == |blocks[0]| + |BLOCK_SEPARATOR| + Start(blocks[1..], i);
  }

  lemma BlockTextsCons(text: Store, node: Node, rest: seq<Node>)
    ensures BlockTexts(text, [node] + rest) == [InlineText(text, node)] + BlockTexts(text, rest)
  {
  }

  /** The blocks without the emptied ones are the survivors. */
  lemma {:induction false} PrunedAreSurvivors(
      text: Store, children: seq<Node>, blocks: seq<string>, lo: int, hi: int, gone: set<Node>)
    requires CutAll(text, children, blocks, lo, hi, gone)
    ensures BlockTexts(text, Without(children, gone)) == Survivors(blocks, lo, hi)
    decreases |children|
  {
    if children != [] {
      assert CutAt(text, children[0], blocks, 0, lo, hi, gone);
      FirstLeft(text, children[0], blocks, lo, hi, gone);
      CutAllBehind(text, children, blocks, lo, hi, gone);
      PrunedStep(text, children, blocks, lo, hi, gone);
    }
  }

  lemma PrunedStep(text: Store, children: seq<Node>, blocks: seq<string>, lo: int, hi: int, gone: set<Node>)
    requires children != [] && blocks != []
    requires var shift := |blocks[0]| + |BLOCK_SEPARATOR|; CutAll(text, children[1..], blocks[1..], lo - shift, hi - shift, gone)
    requires children[0] in gone ==> Left(blocks[0], lo, hi) == []
    requires children[0] !in gone ==> Left(blocks[0], lo, hi) == [InlineText(text, children[0])]
    ensures BlockTexts(text, Without(children, gone)) == Survivors(blocks, lo, hi)
    decreases |children|, 0
  {
    hide CutAll, Left, InlineText;
    var shift := |blocks[0]| + |BLOCK_SEPARATOR|;
    PrunedAreSurvivors(text, children[1..], blocks[1..], lo - shift, hi - shift, gone);
    if children[0] in gone {
      NothingFirst(Left(blocks[0], lo, hi), Survivors(blocks[1..], lo - shift, hi - shift));
    } else {
      BlockTextsCons(text, children[0], Without(children[1..], gone));
    }
  }

  lemma FirstLeft(text: Store, node: Node, blocks: seq<string>, lo: int, hi: int, gone: set<Node>)
    requires blocks != [] && CutAt(text, node, blocks, 0, lo, hi, gone)
    ensures node in gone ==> Left(blocks[0], lo, hi) == []
    ensures node !in gone ==> Left(blocks[0], lo, hi) == [InlineText(text, node)]
  {
  }

  lemma EmptiedIsCutAway(block: string, lo: int, hi: int)
    ensures Emptied(block, lo, hi) <==> Overlaps(|block|, lo, hi) && Cut(block, lo, hi) == ""
  {
  }

  // ----- frames: what changing one text node or the list of blocks does -----

  lemma OneTextChanged(text: Store, children: seq<Node>, i: nat, chars: string)
    requires Paragraphic(text, children) && i < |children|
    ensures var text' := text[TextId(children[i]) := chars];
            && Paragraphic(text', children)
            && BlockTexts(text', children) == BlockTexts(text, children)[i := chars]
  {
    var text' := text[TextId(children[i]) := chars];
    assert Paragraphic(text', children);
    TextsAreContents(text, children);
    TextsAreContents(text', children);
  }

  lemma BlocksInserted(text: Store, children: seq<Node>, more: seq<Node>, text': Store, at: nat)
    requires Paragraphic(text, children) && Paragraphic(text', more) && at <= |children|
    requires forall i | 0 <= i < |children| :: TextId(children[i]) in text' && text'[TextId(children[i])] == text[TextId(children[i])]
    requires forall i | 0 <= i < |more| :: TextId(more[i]) !in text
    ensures var all := children[..at] + more + children[at..];
            && Paragraphic(text', all)
            && BlockTexts(text', all) == BlockTexts(text, children)[..at] + BlockTexts(text', more) + BlockTexts(text, children)[at..]
  {
    var all := children[..at] + more + children[at..];
    forall i, j | 0 <= i < j < |all| ensures TextId(all[i]) != TextId(all[j]) {
    }
    TextsAreContents(text, children);
    TextsAreContents(text', more);
    TextsAreContents(text', all);
  }

  lemma {:induction false} WithoutIsParagraphic(text: Store, children: seq<Node>, gone: set<Node>)
    requires Paragraphic(text, children)
    ensures Paragraphic(text, Without(children, gone))
  {
    if children != [] {
      var rest := children[1..];
      WithoutIsParagraphic(text, rest, gone);
      WithoutMembers(rest, gone);
      var left := Without(rest, gone);
      forall j | 0 <= j < |left| ensures TextId(left[j]) != TextId(children[0]) {
        assert left[j] in rest;
        var k :| 0 <= k < |rest| && rest[k] == left[j];
        assert children[k + 1] == left[j];
      }
    }
  }

  lemma TargetFound(text: Store, children: seq<Node>, spans: seq<Span>, position: int, i: nat)
    requires Paragraphic(text, children) && spans == Index(text, children, 0)
    requires i < |spans| && (position <= spans[i].end || i == |spans| - 1)
    requires forall j | 0 <= j < i :: position > spans[j].end
    ensures var blocks := BlockTexts(text, children);
            && IsTarget(blocks, position, i) && i < |children| && spans[i].id == TextId(children[i])
            && spans[i].start == Start(blocks, i) && spans[i].end == Start(blocks, i) + |blocks[i]|
  {
    IndexOfParagraphs(text, children, 0);
    var blocks := BlockTexts(text, children);
    assert SpanAt(spans[i], children, blocks, 0, i);
    forall j | 0 <= j < i ensures position > Start(blocks, j) + |blocks[j]| {
      assert SpanAt(spans[j], children, blocks, 0, j);
    }
  }

  lemma WeaveOne(blocks: seq<string>, i: nat, at: nat, chars: string)
    requires i < |blocks| && at <= |blocks[i]|
    ensures blocks[..i] + Weave(blocks[i], at, [chars]) + blocks[i + 1..]
            == blocks[i := blocks[i][..at] + chars + blocks[i][at..]]
  {
  }

  lemma WeaveMany(blocks: seq<string>, i: nat, at: nat, segments: seq<string>)
    requires i < |blocks| && at <= |blocks[i]| && |segments| > 1
    ensures var first, n := blocks[i := blocks[i][..at] + segments[0]], |segments| - 1;
            blocks[..i] + Weave(blocks[i], at, segments) + blocks[i + 1..]
            == first[..i + 1] + (segments[1..n] + [segments[n] + blocks[i][at..]]) + first[i + 1..]
  {
  }

  // ----- deletion, text node by text node -----

  /** The first `k` blocks without their overlap. */
  ghost function CutFirst(blocks: seq<string>, lo: int, hi: int, k: nat): (cut: seq<string>)
    requires k <= |blocks|
    ensures |cut| == |blocks|
  {
    if k == 0 then blocks
    else CutFirst(blocks, lo, hi, k - 1)[k - 1 := Cut(blocks[k - 1], lo - Start(blocks, k - 1), hi - Start(blocks, k - 1))]
  }

  lemma {:induction false} CutFirstAt(blocks: seq<string>, lo: int, hi: int, k: nat, i: nat)
    requires k <= |blocks| && i < |blocks|
    ensures CutFirst(blocks, lo, hi, k)[i]
            == if i < k then Cut(blocks[i], lo - Start(blocks, i), hi - Start(blocks, i)) else blocks[i]
  {
    hide Cut, Start;
    if k > 0 {
      CutFirstAt(blocks, lo, hi, k - 1, i);
    }
  }

  /** Those of the first `k` blocks that overlap the range. */
  ghost function Touched(children: seq<Node>, blocks: seq<string>, lo: int, hi: int, k: nat): seq<Node>
    requires k <= |blocks| == |children|
  {
    if k == 0 then []
    else
      Touched(children, blocks, lo, hi, k - 1)
        + if Overlaps(|blocks[k - 1]|, lo - Start(blocks, k - 1), hi - Start(blocks, k - 1)) then [children[k - 1]] else []
  }

  lemma NothingDeletedYet(children: seq<Node>, blocks: seq<string>, lo: int, hi: int)
    requires |blocks| == |children|
    ensures DeletedFrom(blocks, [], children, blocks, lo, hi, 0)
  {
  }

  lemma ParagraphAt(text: Store, children: seq<Node>, k: nat)
    requires Paragraphic(text, children) && k < |children|
    ensures children[k] == Paragraph(TextId(children[k])) && children[k] in children
  {
  }

  /** The range is taken out of the first `k` blocks, and `affected` lists those touched. */
  ghost predicate DeletedFrom(
      now: seq<string>, affected: seq<Node>, children: seq<Node>, blocks: seq<string>, lo: int, hi: int, k: nat)
  {
    && k <= |blocks| == |children|
    && now == CutFirst(blocks, lo, hi, k) && affected == Touched(children, blocks, lo, hi, k)
  }

  lemma {:induction false} TouchedMembers(children: seq<Node>, blocks: seq<string>, lo: int, hi: int, k: nat, i: nat)
    requires Distinct(children) && k <= |blocks| == |children| && i < |children|
    ensures children[i] in Touched(children, blocks, lo, hi, k) <==>
            i < k && Overlaps(|blocks[i]|, lo - Start(blocks, i), hi - Start(blocks, i))
  {
    if k > 0 {
      TouchedMembers(children, blocks, lo, hi, k - 1, i);
    }
  }

  lemma TouchedBelow(text: Store, children: seq<Node>, blocks: seq<string>, lo: int, hi: int, k: nat)
    requires Paragraphic(text, children) && k < |blocks| == |children|
    ensures children[k] !in Touched(children, blocks, lo, hi, k)
  {
    assert Distinct(children);
    TouchedMembers(children, blocks, lo, hi, k, k);
  }

  /** The empty ones among some blocks. */
  ghost function Emptys(text: Store, blocks: seq<Node>): set<Node> {
    set block | block in blocks && InlineText(text, block) == ""
  }

  lemma {:induction false} TouchedAreBlocks(children: seq<Node>, blocks: seq<string>, lo: int, hi: int, k: nat)
    requires k <= |blocks| == |children|
    ensures forall block | block in Touched(children, blocks, lo, hi, k) :: block in children
  {
    if k > 0 {
      TouchedAreBlocks(children, blocks, lo, hi, k - 1);
    }
  }

  lemma AffectedAreBlocks(text: Store, children: seq<Node>, affected: seq<Node>, blocks: seq<string>, lo: int, hi: int)
    requires DeletedFrom(BlockTexts(text, children), affected, children, blocks, lo, hi, |children|)
    ensures forall block | block in affected :: block in children
  {
    TouchedAreBlocks(children, blocks, lo, hi, |children|);
  }

  /** The emptied blocks are those touched and empty. */
  lemma EmptiedAreTouchedAndEmpty(
      text: Store, children: seq<Node>, affected: seq<Node>, blocks: seq<string>, lo: int, hi: int)
    requires Paragraphic(text, children)
    requires DeletedFrom(BlockTexts(text, children), affected, children, blocks, lo, hi, |children|)
    ensures CutAll(text, children, blocks, lo, hi, Emptys(text, affected))
  {
    var empties := Emptys(text, affected);
    ParagraphsDistinct(text, children);
    hide Cut, Overlaps, Start, InlineText;
    forall i | 0 <= i < |children| ensures CutAt(text, children[i], blocks, i, lo, hi, empties) {
      CutFirstAt(blocks, lo, hi, |children|, i);
      TouchedMembers(children, blocks, lo, hi, |children|, i);
      EmptiedAt(text, children[i], blocks, i, lo, hi, empties);
    }
  }

  lemma EmptiedAt(text: Store, node: Node, blocks: seq<string>, i: nat, lo: int, hi: int, gone: set<Node>)
    requires i < |blocks| && InlineText(text, node) == Cut(blocks[i], lo - Start(blocks, i), hi - Start(blocks, i))
    requires node in gone <==>
             Overlaps(|blocks[i]|, lo - Start(blocks, i), hi - Start(blocks, i)) && InlineText(text, node) == ""
    ensures CutAt(text, node, blocks, i, lo, hi, gone)
  {
    EmptiedIsCutAway(blocks[i], lo - Start(blocks, i), hi - Start(blocks, i));
  }

  ghost predicate AllEmpty(text: Store, blocks: seq<Node>) {
    forall i | 0 <= i < |blocks| :: InlineText(text, blocks[i]) == ""
  }

  lemma {:induction false} NoSurvivors(blocks: seq<string>, lo: int, hi: int, i: nat)
    requires Survivors(blocks, lo, hi) == [] && i < |blocks|
    ensures Emptied(blocks[i], lo - Start(blocks, i), hi - Start(blocks, i))
    decreases i
  {
    if i > 0 {
      var shift := |blocks[0]| + |BLOCK_SEPARATOR|;
      NoSurvivors(blocks[1..], lo - shift, hi - shift, i - 1);
    }
  }

  lemma {:induction false} AllTouched(children: seq<Node>, blocks: seq<string>, lo: int, hi: int, k: nat)
    requires Survivors(blocks, lo, hi) == [] && k <= |blocks| == |children|
    ensures Touched(children, blocks, lo, hi, k) == children[..k]
  {
    if k > 0 {
      hide Start, Survivors, Emptied, Cut, Overlaps;
      AllTouched(children, blocks, lo, hi, k - 1);
      assert children[..k] == children[..k - 1] + [children[k - 1]];
      NoSurvivors(blocks, lo, hi, k - 1);
      EmptiedIsCutAway(blocks[k - 1], lo - Start(blocks, k - 1), hi - Start(blocks, k - 1));
    }
  }

  /** If a deletion leaves no block any text, it touches and empties them all. */
  lemma EverythingEmptied(text: Store, children: seq<Node>, affected: seq<Node>, blocks: seq<string>, lo: int, hi: int)
    requires DeletedFrom(BlockTexts(text, children), affected, children, blocks, lo, hi, |children|)
    requires Survivors(blocks, lo, hi) == []
    ensures affected == children && AllEmpty(text, affected)
  {
    AllTouched(children, blocks, lo, hi, |children|);
    assert children[..|children|] == children;
    hide CutFirst, Touched, InlineText, Survivors;
    forall i | 0 <= i < |children| ensures BlockTexts(text, children)[i] == "" {
      CutToNothing(blocks, lo, hi, i);
    }
  }

  lemma CutToNothing(blocks: seq<string>, lo: int, hi: int, i: nat)
    requires Survivors(blocks, lo, hi) == [] && i < |blocks|
    ensures CutFirst(blocks, lo, hi, |blocks|)[i] == ""
  {
    hide Start, Survivors;
    CutFirstAt(blocks, lo, hi, |blocks|, i);
    NoSurvivors(blocks, lo, hi, i);
    EmptiedIsCutAway(blocks[i], lo - Start(blocks, i), hi - Start(blocks, i));
  }

  /** What is left when the affected blocks that are empty are removed, but not the last. */
  ghost predicate PrunedTo(text: Store, all: seq<Node>, affected: seq<Node>, children: seq<Node>) {
    var left := Without(all, Emptys(text, affected));
    if left != [] || all == [] then children == left
    else |children| == 1 && InlineText(text, children[0]) == ""
  }

  lemma PrunedTexts(text: Store, all: seq<Node>, affected: seq<Node>, children: seq<Node>)
    requires PrunedTo(text, all, affected, children)
    ensures var left := BlockTexts(text, Without(all, Emptys(text, affected)));
            BlockTexts(text, children) == if left != [] || all == [] then left else [""]
  {
    hide Without, Emptys, InlineText;
    if Without(all, Emptys(text, affected)) == [] && all != [] {
      OneEmptyBlock(text, children);
    }
  }

  /** Pruning what a deletion emptied completes the deletion. */
  lemma PrunedIsDeleted(text: Store, all: seq<Node>, children: seq<Node>, affected: seq<Node>, blocks: seq<string>,
                        start: int, length: int)
    requires Paragraphic(text, all) && PrunedTo(text, all, affected, children) && |blocks| == |all|
    requires DeletedFrom(BlockTexts(text, all), affected, all, blocks, start, start + length, |all|)
    ensures BlockTexts(text, children) == Paragraphs.Delete(blocks, start, length)
  {
    hide DeletedFrom, CutAll, Survivors, Without, Emptys, InlineText, Paragraphic, PrunedTo, BlockTexts;
    EmptiedAreTouchedAndEmpty(text, all, affected, blocks, start, start + length);
    PrunedAreSurvivors(text, all, blocks, start, start + length, Emptys(text, affected));
    PrunedTexts(text, all, affected, children);
  }

  lemma OneEmptyBlock(text: Store, children: seq<Node>)
    requires |children| == 1 && InlineText(text, children[0]) == ""
    ensures BlockTexts(text, children) == [""]
  {
  }

  lemma ParagraphsDistinct(text: Store, children: seq<Node>)
    requires Paragraphic(text, children)
    ensures Distinct(children)
  {
  }

  lemma {:induction false} WithoutSame(children: seq<Node>, gone: set<Node>, gone': set<Node>)
    requires forall block | block in children :: block in gone <==> block in gone'
    ensures Without(children, gone) == Without(children, gone')
  {
    if children != [] {
      WithoutSame(children[1..], gone, gone');
    }
  }

  lemma {:induction false} WithoutAll(children: seq<Node>, gone: set<Node>)
    requires forall block | block in children :: block in gone
    ensures Without(children, gone) == []
  {
    if children != [] {
      WithoutAll(children[1..], gone);
    }
  }

  /** Of the first `k` affected blocks, the empty ones are gone from the document, and no
      other block is. */
  ghost predicate Pruning(text: Store, all: seq<Node>, affected: seq<Node>, children: seq<Node>, gone: set<Node>, k: nat) {
    && k <= |affected| && Distinct(all) && children == Without(all, gone) && gone <= Emptys(text, affected)
    && (forall j | 0 <= j < k && InlineText(text, affected[j]) == "" :: affected[j] in gone)
    && (all != [] ==> children != [])
    && (affected == all && AllEmpty(text, affected) ==> children == all[k..])
  }

  lemma PruningStarts(text: Store, all: seq<Node>, affected: seq<Node>)
    requires Distinct(all)
    ensures Pruning(text, all, affected, all, {}, 0)
  {
    WithoutNothing(all);
  }

  lemma PruningSkips(text: Store, all: seq<Node>, affected: seq<Node>, children: seq<Node>, gone: set<Node>, k: nat)
    requires Pruning(text, all, affected, children, gone, k) && k < |affected| && affected[k] in all
    requires InlineText(text, affected[k]) != "" || affected[k] !in children
    ensures Pruning(text, all, affected, children, gone, k + 1)
  {
    WithoutMembers(all, gone);
    assert affected == all ==> all[k..][0] == affected[k];
  }

  lemma PruningRemoves(text: Store, all: seq<Node>, affected: seq<Node>, children: seq<Node>, left: seq<Node>,
                       gone: set<Node>, k: nat)
    requires Pruning(text, all, affected, children, gone, k) && k < |affected| && |children| > 1
    requires InlineText(text, affected[k]) == ""
    requires exists index :: 0 <= index < |children| && children[index] == affected[k] && affected[k] !in children[..index]
                             && left == children[..index] + children[index + 1..]
    ensures Pruning(text, all, affected, left, gone + {affected[k]}, k + 1)
  {
    var index :| 0 <= index < |children| && children[index] == affected[k] && affected[k] !in children[..index]
                 && left == children[..index] + children[index + 1..];
    WithoutOneMore(all, gone, affected[k], index);
    if affected == all && AllEmpty(text, affected) {
      assert children[0] == affected[k];
      assert index == 0;
    }
  }

  /** Pruning stops at the last block, or has removed every empty one. */
  lemma PruningEnds(text: Store, all: seq<Node>, affected: seq<Node>, children: seq<Node>, gone: set<Node>, k: nat)
    requires Pruning(text, all, affected, children, gone, k)
    requires |children| <= 1 || k == |affected|
    ensures PrunedTo(text, all, affected, children) && (Paragraphic(text, all) ==> Paragraphic(text, children))
    ensures affected == all != [] && AllEmpty(text, affected) ==> children == [affected[|affected| - 1]]
  {
    if Paragraphic(text, all) {
      WithoutIsParagraphic(text, all, gone);
    }
    hide InlineText, Paragraphic, Without;
    PrunedEarly(text, all, affected, gone, children);
  }

  lemma PrunedEarly(text: Store, all: seq<Node>, affected: seq<Node>, gone: set<Node>, children: seq<Node>)
    requires children == Without(all, gone) && gone <= Emptys(text, affected) && (all != [] ==> children != [])
    requires |children| <= 1 || forall j | 0 <= j < |affected| && InlineText(text, affected[j]) == "" :: affected[j] in gone
    ensures PrunedTo(text, all, affected, children)
  {
    var empties := Emptys(text, affected);
    WithoutMembers(all, gone);
    WithoutMembers(all, empties);
    if empties == gone || all == [] {
    } else {
      assert |children| == 1;
      var last := children[0];
      if last in empties {
        forall block | block in all ensures block in empties {
          assert block in children ==> block == last;
        }
        WithoutAll(all, empties);
      } else {
        WithoutSame(all, empties, gone);
      }
    }
  }

  class Document {
    var text: Store
    var children: seq<Node>
    /** No text node has this identity or a later one. */
    var unused: nat

    ghost predicate Valid()
      reads this
    {
      Paragraphic(text, children) && forall id | id in text :: id < unused
    }

    /** What `extractText` prints, block by block. */
    ghost function Texts(): seq<string>
      reads this
    {
      BlockTexts(text, children)
    }

    constructor ()
      ensures Valid() && Texts() == []
    {
      text, children, unused := map[], [], 0;
    }

    method CreateParagraph(chars: string) returns (paragraph: Node)
      requires Valid()
      modifies this`text, this`unused
      ensures Valid() && paragraph == Paragraph(old(unused)) && unused == old(unused) + 1
      ensures text == old(text)[old(unused) := chars] && Texts() == old(Texts())
    {
      paragraph := Paragraph(unused);
      text, unused := text[unused := chars], unused + 1;
      TextsAreContents(old(text), children);
      TextsAreContents(text, children);
    }

    /** One new paragraph per segment, not yet part of the document. */
    method CreateParagraphs(segments: seq<string>) returns (paragraphs: seq<Node>)
      requires Valid()
      modifies this`text, this`unused
      ensures Valid() && Paragraphic(text, paragraphs) && BlockTexts(text, paragraphs) == segments
      ensures forall id | id in old(text) :: id in text && text[id] == old(text)[id]
      ensures forall i | 0 <= i < |paragraphs| :: TextId(paragraphs[i]) !in old(text)
    {
      paragraphs := [];
      for i := 0 to |segments|
        invariant Valid() && Paragraphic(text, paragraphs) && |paragraphs| == i && old(unused) <= unused
        invariant forall id | id in old(text) :: id in text && text[id] == old(text)[id]
        invariant forall k | 0 <= k < i :: old(unused) <= TextId(paragraphs[k])
        invariant forall k | 0 <= k < i :: text[TextId(paragraphs[k])] == segments[k]
      {
        var paragraph := CreateParagraph(segments[i]);
        paragraphs := paragraphs + [paragraph];
      }
      TextsAreContents(text, paragraphs);
    }

    /** `Y.XmlText.insert` and `Y.XmlText.delete` on the text node of block `i`. */
    method InsertChars(ghost i: nat, id: nat, at: nat, chars: string)
      requires Valid() && i < |children| && id == TextId(children[i]) && at <= |Texts()[i]|
      modifies this`text
      ensures Valid() && Texts() == old(Texts())[i := old(Texts())[i][..at] + chars + old(Texts())[i][at..]]
    {
      TextsAreContents(text, children);
      OneTextChanged(text, children, i, text[id][..at] + chars + text[id][at..]);
      text := text[id := text[id][..at] + chars + text[id][at..]];
    }

    method DeleteChars(ghost i: nat, id: nat, at: nat, length: nat)
      requires Valid() && i < |children| && id == TextId(children[i]) && at + length <= |Texts()[i]|
      modifies this`text
      ensures Valid() && Texts() == old(Texts())[i := old(Texts())[i][..at] + old(Texts())[i][at + length..]]
    {
      TextsAreContents(text, children);
      OneTextChanged(text, children, i, text[id][..at] + text[id][at + length..]);
      text := text[id := text[id][..at] + text[id][at + length..]];
    }

    method IndexOf(block: Node) returns (index: nat)
      requires block in children
      ensures index < |children| && children[index] == block && block !in children[..index]
    {
      index := 0;
      while children[index] != block
        invariant index < |children| && block !in children[..index]
        decreases |children| - index
      {
        index := index + 1;
      }
    }

    /** Replaces what follows `at` in block `i` with a segment. */
    method ReplaceTail(ghost i: nat, id: nat, at: nat, segment: string) returns (tail: string)
      requires Valid() && i < |children| && id == TextId(children[i]) && at <= |Texts()[i]|
      modifies this`text
      ensures Valid() && tail == old(Texts())[i][at..]
      ensures Texts() == old(Texts())[i := old(Texts())[i][..at] + segment]
    {
      TextsAreContents(text, children);
      var nodeText := text[id];
      ghost var blocks := Texts();
      tail := nodeText[at..];
      if |tail| > 0 {
        DeleteChars(i, id, at, |nodeText| - at);
        assert nodeText[..at] + nodeText[at + (|nodeText| - at)..] == nodeText[..at];
      } else {
        assert nodeText[..at] == nodeText == blocks[i];
      }
      assert Texts() == blocks[i := nodeText[..at]];
      if segment != "" {
        InsertChars(i, id, at, segment);
        assert nodeText[..at][..at] + segment + nodeText[..at][at..] == nodeText[..at] + segment;
      } else {
        assert nodeText[..at] + segment == nodeText[..at];
      }
    }

    method AddBlocks(index: nat, segments: seq<string>)
      requires Valid() && index <= |children|
      modifies this
      ensures Valid() && Texts() == old(Texts())[..index] + segments + old(Texts())[index..]
    {
      var before := text;
      var added := CreateParagraphs(segments);
      BlocksInserted(before, children, added, text, index);
      children := children[..index] + added + children[index..];
    }

    /** Splits block `i` at `at` and puts the segments between the halves. */
    method InsertBlocks(ghost i: nat, id: nat, at: nat, segments: seq<string>)
      requires Valid() && i < |children| && id == TextId(children[i])
      requires at <= |Texts()[i]| && |segments| > 1
      modifies this
      ensures Valid()
      ensures Texts() == old(Texts())[..i] + Weave(old(Texts())[i], at, segments) + old(Texts())[i + 1..]
    {
      hide Paragraphic;
      var blockIndex := IndexOfText(i, id);
      var tail := ReplaceTail(i, id, at, segments[0]);
      var n := |segments| - 1;
      AddBlocks(blockIndex + 1, segments[1..n] + [segments[n] + tail]);
      WeaveMany(old(Texts()), i, at, segments);
    }

    method IndexOfText(ghost i: nat, id: nat) returns (index: nat)
      requires Valid() && i < |children| && id == TextId(children[i])
      ensures index == i
    {
      index := IndexOf(Paragraph(id));
    }

    method FindTarget(spans: seq<Span>, position: int) returns (i: nat)
      requires spans != []
      ensures i < |spans| && (position <= spans[i].end || i == |spans| - 1)
      ensures forall j | 0 <= j < i :: position > spans[j].end
    {
      i := 0;
      while i < |spans| - 1 && position > spans[i].end
        invariant i < |spans| && forall j | 0 <= j < i :: position > spans[j].end
      {
        i := i + 1;
      }
    }

    /** An empty fragment is given one paragraph per segment. */
    method Seed(segments: seq<string>)
      requires Valid() && children == []
      modifies this
      ensures Valid() && Texts() == segments
    {
      var paragraphs := CreateParagraphs(segments);
      children := paragraphs + children;
      assert children == paragraphs;
    }

    method InsertText(position: int, inserted: string)
      requires Valid()
      modifies this
      ensures Valid() && Texts() == Paragraphs.Insert(old(Texts()), position, inserted)
    {
      hide Weave, Split, InsertAt, Start, Index, Paragraphic, IsTarget;
      var spans := LinearizeXmlText(text, children);
      IndexOfParagraphs(text, children, 0);
      if |spans| == 0 {
        Seed(Split(inserted));
        return;
      }
      var i := FindTarget(spans, position);
      var target := spans[i];
      TargetFound(text, children, spans, position, i);
      var localOffset := Clamp(position - target.start, 0, target.end - target.start);
      var segments := Split(inserted);
      InsertAtTarget(Texts(), position, inserted, i);
      if |segments| <= 1 {
        OneSegment(inserted);
        WeaveOne(Texts(), i, localOffset, inserted);
        InsertChars(i, target.id, localOffset, inserted);
        return;
      }
      InsertBlocks(i, target.id, localOffset, segments);
    }

    // ----- deletion -----

    /** The block that holds a text node, found by walking up from it. */
    method TopLevelBlock(id: nat) returns (block: Option<Node>)
      requires Valid()
      ensures block.Some? <==> Paragraph(id) in children
      ensures block.Some? ==> block.value == Paragraph(id)
    {
      block := if Paragraph(id) in children then Some(Paragraph(id)) else None;
    }

    /** Takes the overlap with the range out of one text node. */
    method DeleteOverlap(ghost k: nat, span: Span, start: int, end: int) returns (touched: bool)
      requires Valid() && k < |children| && span.id == TextId(children[k]) && span.end == span.start + |Texts()[k]|
      modifies this`text
      ensures Valid() && Texts() == old(Texts())[k := Cut(old(Texts())[k], start - span.start, end - span.start)]
      ensures touched == Overlaps(|old(Texts())[k]|, start - span.start, end - span.start)
    {
      var overlapStart := if start > span.start then start else span.start;
      var overlapEnd := if end < span.end then end else span.end;
      if overlapStart >= overlapEnd {
        return false;
      }
      DeleteChars(k, span.id, overlapStart - span.start, overlapEnd - overlapStart);
      touched := true;
    }

    /** The same for the node of block `k`, once those before it are done. */
    method DeleteNext(ghost blocks: seq<string>, ghost k: nat, span: Span, start: int, end: int, touched: seq<Node>)
        returns (affected: seq<Node>)
      requires Valid() && k < |children| == |blocks|
      requires DeletedFrom(Texts(), touched, children, blocks, start, end, k)
      requires SpanAt(span, children, blocks, 0, k)
      modifies this`text
      ensures Valid() && DeletedFrom(Texts(), affected, children, blocks, start, end, k + 1)
    {
      CutFirstAt(blocks, start, end, k, k);
      TouchedBelow(text, children, blocks, start, end, k);
      ParagraphAt(text, children, k);
      hide Cut, Overlaps, Start, Paragraphic;
      affected := touched;
      var overlaps := DeleteOverlap(k, span, start, end);
      if overlaps {
        var block := TopLevelBlock(span.id);
        if block.Some? && block.value !in affected {
          affected := affected + [block.value];
        }
      }
    }

    /** Takes the range out of every text node it overlaps, and lists the blocks touched. */
    method DeleteRange(spans: seq<Span>, start: int, end: int) returns (affected: seq<Node>)
      requires Valid() && SpansMatch(spans, children, Texts(), 0)
      modifies this`text
      ensures Valid() && DeletedFrom(Texts(), affected, children, old(Texts()), start, end, |spans|)
    {
      affected := [];
      ghost var blocks := Texts();
      NothingDeletedYet(children, blocks, start, end);
      hide DeletedFrom, SpanAt;
      for k := 0 to |spans|
        invariant Valid() && DeletedFrom(Texts(), affected, children, blocks, start, end, k)
      {
        affected := DeleteNext(blocks, k, spans[k], start, end, affected);
      }
    }

    method BlockIsEmpty(block: Node) returns (empty: bool)
      ensures empty == (InlineText(text, block) == "")
    {
      empty := InlineText(text, block) == "";
    }

    method RemoveBlock(block: Node)
      requires block in children
      modifies this`children
      ensures exists index ::
                && 0 <= index < |old(children)| && old(children)[index] == block && block !in old(children)[..index]
                && children == old(children)[..index] + old(children)[index + 1..]
    {
      var index := IndexOf(block);
      children := children[..index] + children[index + 1..];
    }

    /** Removes the affected blocks that are empty, but never the last block. */
    method PruneEmptyBlocks(affected: seq<Node>)
      requires Distinct(children) && forall block | block in affected :: block in children
      modifies this`children
      ensures PrunedTo(text, old(children), affected, children) && (old(Valid()) ==> Valid())
      ensures affected == old(children) != [] && AllEmpty(text, affected) ==> children == [affected[|affected| - 1]]
    {
      ghost var all, gone: set<Node> := children, {};
      PruningStarts(text, children, affected);
      ghost var done := 0;
      for k := 0 to |affected|
        invariant done == k && Pruning(text, all, affected, children, gone, done)
      {
        if |children| <= 1 {
          break;
        }
        var empty := BlockIsEmpty(affected[k]);
        if empty && affected[k] in children {
          label before:
          RemoveBlock(affected[k]);
          PruningRemoves(text, all, affected, old@before(children), children, gone, k);
          gone := gone + {affected[k]};
        } else {
          PruningSkips(text, all, affected, children, gone, k);
        }
        done := k + 1;
      }
      PruningEnds(text, all, affected, children, gone, done);
    }

    /** The range is deleted, and what that emptied is known. */
    method DeleteCharacters(start: int, end: int) returns (affected: seq<Node>)
      requires Valid()
      modifies this`text
      ensures Valid() && DeletedFrom(Texts(), affected, children, old(Texts()), start, end, |children|)
      ensures forall block | block in affected :: block in children
      ensures Survivors(old(Texts()), start, end) == [] ==> affected == children && AllEmpty(text, affected)
    {
      var spans := LinearizeXmlText(text, children);
      IndexOfParagraphs(text, children, 0);
      affected := DeleteRange(spans, start, end);
      AffectedAreBlocks(text, children, affected, old(Texts()), start, end);
      if Survivors(old(Texts()), start, end) == [] {
        EverythingEmptied(text, children, affected, old(Texts()), start, end);
      }
    }

    method DeleteText(start: int, length: int)
      requires Valid()
      modifies this
      ensures Valid() && Texts() == Paragraphs.Delete(old(Texts()), start, length)
      ensures Survivors(old(Texts()), start, start + length) == [] && old(children) != [] ==>
                children == [old(children)[|old(children)| - 1]]
    {
      hide DeletedFrom, PrunedTo, AllEmpty, Survivors, Paragraphs.Delete;
      ghost var all := children;
      var affected := DeleteCharacters(start, start + length);
      ParagraphsDistinct(text, children);
      PruneEmptyBlocks(affected);
      PrunedIsDeleted(text, all, children, affected, old(Texts()), start, length);
    }

    method Apply(op: Op)
      requires Valid() && !op.Format?
      modifies this
      ensures Valid() && Texts() == ApplyOp(old(Texts()), op)
    {
      match op
      case Insert(position, inserted, _) => InsertText(position, inserted);
      case Delete(start, end, _) => DeleteText(start, end - start);
    }

    /** Applies checked operations in their order, as previewing and accepting do. */
    method ApplyInOrder(ops: seq<Op>)
      requires Valid() && forall op | op in ops :: !op.Format?
      modifies this
      ensures Valid() && Texts() == ApplyAll(old(Texts()), Order(ops))
    {
      var ordered := Order(ops);
      SameMembers(ops);
      assert forall op | op in ordered :: !op.Format?;
      hide Valid, Texts, Order;
      for k := 0 to |ordered|
        invariant Valid() && Texts() == ApplyAll(old(Texts()), ordered[..k])
      {
        assert ordered[..k + 1][..k] == ordered[..k] && ordered[k] in ordered;
        Apply(ordered[k]);
      }
      assert ordered[..|ordered|] == ordered;
    }

    method ExtractText() returns (flat: string)
      ensures flat == Print(Texts())
    {
      flat := FragmentText(text, children);
    }
  }
}