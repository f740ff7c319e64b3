/** A document's tree of inline nodes, its flat text, and the index that maps flat offsets
    back to text nodes. */
module OffsetIndex {
  import opened BlockText
  import opened Sequences

  /** What a fragment holds. A text node is known by its identity; its characters, which
      editing changes, are kept in a store. */
  datatype Node =
    | TextNode(id: nat)
    | Element(children: seq<Node>)
    | NestedFragment(children: seq<Node>)
    | OtherType

  type Store = map<nat, string>

  function Content(store: Store, id: nat): string { if id in store then store[id] else "" }

  // ----- the flat text -----

  function InlineText(store: Store, node: Node): string {
    match node
    case TextNode(id) => Content(store, id)
    case Element(children) => InlineTexts(store, children)
    case NestedFragment(children) => InlineTexts(store, children)
    case OtherType => ""
  }

  function InlineTexts(store: Store, nodes: seq<Node>): string {
    if nodes == [] then "" else InlineText(store, nodes[0]) + InlineTexts(store, nodes[1..])
  }

  function BlockTexts(store: Store, children: seq<Node>): (texts: seq<string>)
    ensures |texts| == |children| && forall i | 0 <= i < |children| :: texts[i] == InlineText(store, children[i])
  {
    seq(|children|, i requires 0 <= i < |children| => InlineText(store, children[i]))
  }

  function FragmentText(store: Store, children: seq<Node>): string { Print(BlockTexts(store, children)) }

  // ----- the index -----

  datatype Span = Span(id: nat, start: nat, end: nat)

  /** How far collecting `node` advances the offset. A nested fragment is passed over. */
  function Indexed(store: Store, node: Node): nat {
    match node
    case TextNode(id) => |Content(store, id)|
    case Element(children) => IndexedAll(store, children)
    case NestedFragment(_) => 0
    case OtherType => 0
  }

  function IndexedAll(store: Store, nodes: seq<Node>): nat {
    if nodes == [] then 0 else Indexed(store, nodes[0]) + IndexedAll(store, nodes[1..])
  }

  function Spans(store: Store, node: Node, offset: nat): seq<Span> {
    match node
    case TextNode(id) => [Span(id, offset, offset + |Content(store, id)|)]
    case Element(children) => SpansOfAll(store, children, offset)
    case NestedFragment(_) => []
    case OtherType => []
  }

  function SpansOfAll(store: Store, nodes: seq<Node>, offset: nat): seq<Span> {
    if nodes == [] then []
    else Spans(store, nodes[0], offset) + SpansOfAll(store, nodes[1..], offset + Indexed(store, nodes[0]))
  }

  /** The spans of a fragment's children, with room for a separator between two of them. */
  function Index(store: Store, children: seq<Node>, offset: nat): seq<Span> {
    if children == [] then []
    else
      Spans(store, children[0], offset)
        + Index(store, children[1..], offset + Indexed(store, children[0]) + |BLOCK_SEPARATOR|)
  }

  // ----- the loops that build it -----

  class SpanList {
    var spans: seq<Span>

    constructor ()
      ensures spans == []
    {
      spans := [];
    }
  }

  lemma {:induction false} SpansSnoc(store: Store, nodes: seq<Node>, node: Node, offset: nat)
    ensures IndexedAll(store, nodes + [node]) == IndexedAll(store, nodes) + Indexed(store, node)
    ensures SpansOfAll(store, nodes + [node], offset)
            == SpansOfAll(store, nodes, offset) + Spans(store, node, offset + IndexedAll(store, nodes))
    decreases |nodes|
  {
    hide Spans, Indexed;
    if nodes == [] {
      assert nodes + [node] == [node] && [node][1..] == [];
      NothingLast(Spans(store, node, offset), SpansOfAll(store, [], offset + Indexed(store, node)));
      NothingFirst(SpansOfAll(store, nodes, offset), Spans(store, node, offset));
    } else {
      var first, rest, next := nodes[0], nodes[1..], offset + Indexed(store, nodes[0]);
      assert (nodes + [node])[1..] == rest + [node];
      SpansSnoc(store, rest, node, next);
      Associate(Spans(store, first, offset), SpansOfAll(store, rest, next),
                Spans(store, node, next + IndexedAll(store, rest)));
    }
  }

  lemma SpansNext(store: Store, nodes: seq<Node>, i: nat, offset: nat)
    requires i < |nodes|
    ensures IndexedAll(store, nodes[..i + 1]) == IndexedAll(store, nodes[..i]) + Indexed(store, nodes[i])
    ensures SpansOfAll(store, nodes[..i + 1], offset)
            == SpansOfAll(store, nodes[..i], offset) + Spans(store, nodes[i], offset + IndexedAll(store, nodes[..i]))
  {
    SpansSnoc(store, nodes[..i], nodes[i], offset);
    assert nodes[..i + 1] == nodes[..i] + [nodes[i]];
  }

  method CollectXmlText(store: Store, node: Node, start: nat, nodes: SpanList) returns (offset: nat)
    modifies nodes
    ensures offset == start + Indexed(store, node)
    ensures nodes.spans == old(nodes.spans) + Spans(store, node, start)
    decreases node
  {
    offset := start;
    match node
    case TextNode(id) =>
      offset := start + |Content(store, id)|;
      nodes.spans := nodes.spans + [Span(id, start, offset)];
    case Element(children) =>
      for i := 0 to |children|
        invariant offset == start + IndexedAll(store, children[..i])
        invariant nodes.spans == old(nodes.spans) + SpansOfAll(store, children[..i], start)
      {
        offset := CollectXmlText(store, children[i], offset, nodes);
        SpansNext(store, children, i, start);
      }
      assert children[..|children|] == children;
    case NestedFragment(_) =>
    case OtherType =>
  }

  /** How far some children advance the offset, with a separator after each. */
  ghost function Extent(store: Store, children: seq<Node>): nat {
    if children == [] then 0 else Indexed(store, children[0]) + |BLOCK_SEPARATOR| + Extent(store, children[1..])
  }

  lemma {:induction false} IndexSnoc(store: Store, children: seq<Node>, node: Node, offset: nat)
    ensures Extent(store, children + [node]) == Extent(store, children) + Indexed(store, node) + |BLOCK_SEPARATOR|
    ensures Index(store, children + [node], offset)
            == Index(store, children, offset) + Spans(store, node, offset + Extent(store, children))
    decreases |children|
  {
    hide Spans, Indexed;
    if children == [] {
      assert children + [node] == [node] && [node][1..] == [];
      NothingLast(Spans(store, node, offset), Index(store, [], offset + Indexed(store, node) + |BLOCK_SEPARATOR|));
      NothingFirst(Index(store, children, offset), Spans(store, node, offset));
    } else {
      var first, rest := children[0], children[1..];
      var next := offset + Indexed(store, first) + |BLOCK_SEPARATOR|;
      assert (children + [node])[1..] == rest + [node];
      IndexSnoc(store, rest, node, next);
      Associate(Spans(store, first, offset), Index(store, rest, next), Spans(store, node, next + Extent(store, rest)));
    }
  }

  method LinearizeXmlText(store: Store, children: seq<Node>) returns (spans: seq<Span>)
    ensures spans == Index(store, children, 0)
  {
    var nodes := new SpanList();
    var offset := 0;
    for index := 0 to |children|
      invariant fresh(nodes) && nodes.spans == Index(store, children[..index], 0)
      invariant offset == if index == 0 then 0 else Extent(store, children[..index]) - |BLOCK_SEPARATOR|
    {
      if index > 0 {
        offset := offset + |BLOCK_SEPARATOR|;
      }
      offset := CollectXmlText(store, children[index], offset, nodes);
      IndexSnoc(store, children[..index], children[index], 0);
      assert children[..index + 1] == children[..index] + [children[index]];
    }
    assert children[..|children|] == children;
    return nodes.spans;
  }

  // ----- what the index says of the flat text -----

  /** No nested fragment holds text. */
  ghost predicate AllIndexed(store: Store, node: Node) {
    match node
    case TextNode(_) => true
    case Element(children) => forall i | 0 <= i < |children| :: AllIndexed(store, children[i])
    case NestedFragment(children) => InlineTexts(store, children) == ""
    case OtherType => true
  }

  /** The spans follow each other without a gap from `start` to `end`. */
  ghost predicate Tiles(spans: seq<Span>, start: nat, end: nat) {
    if spans == [] then start == end
    else spans[0].start == start <= spans[0].end && Tiles(spans[1..], spans[0].end, end)
  }

  lemma {:induction false} TilesJoin(a: seq<Span>, b: seq<Span>, start: nat, middle: nat, end: nat)
    requires Tiles(a, start, middle) && Tiles(b, middle, end)
    ensures Tiles(a + b, start, end)
    decreases |a|
  {
    if a == [] {
      assert a + b == b;
    } else {
      TilesJoin(a[1..], b, a[0].end, middle, end);
      assert (a + b)[1..] == a[1..] + b;
    }
  }

  lemma {:induction false} SpansTile(store: Store, node: Node, offset: nat)
    ensures Tiles(Spans(store, node, offset), offset, offset + Indexed(store, node))
    decreases node, 0
  {
    if node.Element? {
      SpansOfAllTile(store, node.children, offset);
    }
  }

  lemma {:induction false} SpansOfAllTile(store: Store, nodes: seq<Node>, offset: nat)
    ensures Tiles(SpansOfAll(store, nodes, offset), offset, offset + IndexedAll(store, nodes))
    decreases nodes
  {
    if nodes != [] {
      var next := offset + Indexed(store, nodes[0]);
      SpansTile(store, nodes[0], offset);
      SpansOfAllTile(store, nodes[1..], next);
      TilesJoin(Spans(store, nodes[0], offset), SpansOfAll(store, nodes[1..], next), offset, next,
                offset + IndexedAll(store, nodes));
    }
  }

  /** Reading `text`, which starts at `offset`, between a span's ends gives its node's text. */
  ghost predicate ReadsBack(store: Store, spans: seq<Span>, text: string, offset: nat) {
    forall s | s in spans :: ReadsBackAt(store, s, text, offset)
  }

  ghost predicate ReadsBackAt(store: Store, s: Span, text: string, offset: nat) {
    offset <= s.start <= s.end <= offset + |text| && text[s.start - offset..s.end - offset] == Content(store, s.id)
  }

  lemma ReadsBackInFront(store: Store, s: Span, x: string, rest: string, offset: nat)
    requires ReadsBackAt(store, s, x, offset)
    ensures ReadsBackAt(store, s, x + rest, offset)
  {
    assert (x + rest)[s.start - offset..s.end - offset] == x[s.start - offset..s.end - offset];
  }

  lemma ReadsBackBehind(store: Store, s: Span, x: string, rest: string, offset: nat)
    requires ReadsBackAt(store, s, rest, offset + |x|)
    ensures ReadsBackAt(store, s, x + rest, offset)
  {
    var from := offset + |x|;
    assert (x + rest)[s.start - offset..s.end - offset] == rest[s.start - from..s.end - from];
  }

  lemma ReadsBackJoin(store: Store, a: seq<Span>, b: seq<Span>, x: string, y: string, offset: nat)
    requires ReadsBack(store, a, x, offset) && ReadsBack(store, b, y, offset + |x|)
    ensures ReadsBack(store, a + b, x + y, offset)
  {
    hide ReadsBackAt;
    forall s | s in a + b ensures ReadsBackAt(store, s, x + y, offset) {
      if s in a {
        ReadsBackInFront(store, s, x, y, offset);
      } else {
        ReadsBackBehind(store, s, x, y, offset);
      }
    }
  }

  lemma ReadsBackBehindGap(store: Store, b: seq<Span>, gap: string, y: string, offset: nat)
    requires ReadsBack(store, b, y, offset + |gap|)
    ensures ReadsBack(store, b, gap + y, offset)
  {
    ReadsBackJoin(store, [], b, gap, y, offset);
    assert [] + b == b;
  }

  lemma {:induction false} NodeReadsBack(store: Store, node: Node, offset: nat)
    requires AllIndexed(store, node)
    ensures Indexed(store, node) == |InlineText(store, node)|
    ensures ReadsBack(store, Spans(store, node, offset), InlineText(store, node), offset)
    decreases node, 0
  {
    if node.Element? {
      NodesReadBack(store, node.children, offset);
    }
  }

  lemma {:induction false} NodesReadBack(store: Store, nodes: seq<Node>, offset: nat)
    requires forall i | 0 <= i < |nodes| :: AllIndexed(store, nodes[i])
    ensures IndexedAll(store, nodes) == |InlineTexts(store, nodes)|
    ensures ReadsBack(store, SpansOfAll(store, nodes, offset), InlineTexts(store, nodes), offset)
    decreases nodes
  {
    if nodes != [] {
      var first, rest := InlineText(store, nodes[0]), InlineTexts(store, nodes[1..]);
      var next := offset + Indexed(store, nodes[0]);
      NodeReadsBack(store, nodes[0], offset);
      NodesReadBack(store, nodes[1..], next);
      ReadsBackJoin(store, Spans(store, nodes[0], offset), SpansOfAll(store, nodes[1..], next), first, rest, offset);
    }
  }

  lemma {:induction false} IndexedAtMost(store: Store, node: Node)
    ensures Indexed(store, node) <= |InlineText(store, node)|
    ensures Indexed(store, node) == |InlineText(store, node)| ==> AllIndexed(store, node)
    decreases node, 0
  {
    if node.Element? {
      IndexedAllAtMost(store, node.children);
    }
  }

  lemma {:induction false} IndexedAllAtMost(store: Store, nodes: seq<Node>)
    ensures IndexedAll(store, nodes) <= |InlineTexts(store, nodes)|
    ensures IndexedAll(store, nodes) == |InlineTexts(store, nodes)| ==>
              forall i | 0 <= i < |nodes| :: AllIndexed(store, nodes[i])
    decreases nodes
  {
    if nodes != [] {
      IndexedAtMost(store, nodes[0]);
      IndexedAllAtMost(store, nodes[1..]);
      assert forall i | 0 < i < |nodes| :: nodes[i] == nodes[1..][i - 1];
    }
  }

  // ----- the index of a whole fragment -----

  /** The characters that the spans cover. */
  ghost function Covered(spans: seq<Span>): int {
    if spans == [] then 0 else spans[0].end - spans[0].start + Covered(spans[1..])
  }

  lemma {:induction false} CoveredJoin(a: seq<Span>, b: seq<Span>)
    ensures Covered(a + b) == Covered(a) + Covered(b)
    decreases |a|
  {
    if a == [] {
      assert a + b == b;
    } else {
      CoveredJoin(a[1..], b);
      assert (a + b)[1..] == a[1..] + b;
    }
  }

  lemma {:induction false} TilesCover(spans: seq<Span>, start: nat, end: nat)
    requires Tiles(spans, start, end)
    ensures Covered(spans) == end - start
    ensures forall i | 0 <= i < |spans| :: start <= spans[i].start <= spans[i].end <= end
    ensures InOrder(spans)
  {
    if spans != [] {
      TilesCover(spans[1..], spans[0].end, end);
      assert forall i | 0 < i < |spans| :: spans[i] == spans[1..][i - 1];
    }
  }

  ghost predicate InOrder(spans: seq<Span>) {
    forall i, j | 0 <= i < j < |spans| :: spans[i].start <= spans[i].end <= spans[j].start
  }

  ghost predicate Within(spans: seq<Span>, lo: nat) {
    forall s | s in spans :: lo <= s.start <= s.end
  }

  lemma InOrderJoin(a: seq<Span>, b: seq<Span>, middle: nat)
    requires InOrder(a) && InOrder(b) && Within(b, middle)
    requires forall i | 0 <= i < |a| :: a[i].start <= a[i].end <= middle
    ensures InOrder(a + b)
  {
    var all := a + b;
    forall i, j | 0 <= i < j < |all| ensures all[i].start <= all[i].end <= all[j].start {
      if |a| <= j {
        assert all[j] == b[j - |a|] && b[j - |a|] in b;
      }
    }
  }

  /** Whatever the tree, the nodes are listed in order and do not overlap. */
  lemma {:induction false} IndexInOrder(store: Store, children: seq<Node>, offset: nat)
    ensures InOrder(Index(store, children, offset)) && Within(Index(store, children, offset), offset)
    decreases |children|
  {
    if children != [] {
      var end := offset + Indexed(store, children[0]);
      var first, rest := Spans(store, children[0], offset), Index(store, children[1..], end + 2);
      SpansTile(store, children[0], offset);
      TilesCover(first, offset, end);
      IndexInOrder(store, children[1..], end + 2);
      InOrderJoin(first, rest, end);
    }
  }

  lemma FragmentTextCons(store: Store, children: seq<Node>)
    requires |children| > 1
    ensures FragmentText(store, children)
            == InlineText(store, children[0]) + (BLOCK_SEPARATOR + FragmentText(store, children[1..]))
  {
    assert BlockTexts(store, children)[1..] == BlockTexts(store, children[1..]);
  }

  ghost predicate AllChildrenIndexed(store: Store, children: seq<Node>) {
    forall i | 0 <= i < |children| :: AllIndexed(store, children[i])
  }

  lemma {:induction false} IndexReadsBackFrom(store: Store, children: seq<Node>, offset: nat)
    requires AllChildrenIndexed(store, children)
    ensures ReadsBack(store, Index(store, children, offset), FragmentText(store, children), offset)
    decreases |children|
  {
    if children != [] {
      var node, rest := children[0], children[1..];
      var end := offset + Indexed(store, node);
      NodeReadsBack(store, node, offset);
      if rest == [] {
        assert Index(store, rest, end + 2) == [];
        assert Index(store, children, offset) == Spans(store, node, offset);
      } else {
        IndexReadsBackFrom(store, rest, end + 2);
        FragmentTextCons(store, children);
        ReadsBackBehindGap(store, Index(store, rest, end + 2), BLOCK_SEPARATOR, FragmentText(store, rest), end);
        ReadsBackJoin(store, Spans(store, node, offset), Index(store, rest, end + 2), InlineText(store, node),
                      BLOCK_SEPARATOR + FragmentText(store, rest), offset);
      }
    }
  }

  lemma NodeCovers(store: Store, node: Node, offset: nat)
    ensures Covered(Spans(store, node, offset)) == Indexed(store, node) <= |InlineText(store, node)|
    ensures Indexed(store, node) == |InlineText(store, node)| <==> AllIndexed(store, node)
  {
    SpansTile(store, node, offset);
    TilesCover(Spans(store, node, offset), offset, offset + Indexed(store, node));
    IndexedAtMost(store, node);
    if AllIndexed(store, node) {
      NodeReadsBack(store, node, offset);
    }
  }

  lemma AllChildrenIndexedCons(store: Store, children: seq<Node>)
    requires children != []
    ensures AllChildrenIndexed(store, children) <==>
            AllIndexed(store, children[0]) && AllChildrenIndexed(store, children[1..])
  {
    hide AllIndexed;
    assert forall i | 0 < i < |children| :: children[i] == children[1..][i - 1];
  }

  lemma {:induction false} IndexCovers(store: Store, children: seq<Node>, offset: nat)
    requires children != []
    ensures var covered := Covered(Index(store, children, offset)) + |BLOCK_SEPARATOR| * (|children| - 1);
            && covered <= |FragmentText(store, children)|
            && (covered == |FragmentText(store, children)| <==> AllChildrenIndexed(store, children))
    decreases |children|
  {
    var node, rest := children[0], children[1..];
    var next := offset + Indexed(store, node) + 2;
    NodeCovers(store, node, offset);
    CoveredJoin(Spans(store, node, offset), Index(store, rest, next));
    AllChildrenIndexedCons(store, children);
    hide Covered, Spans, Indexed, InlineText, AllIndexed;
    if rest != [] {
      hide AllChildrenIndexed;
      IndexCovers(store, rest, next);
      FragmentTextCons(store, children);
      hide FragmentText;
    }
  }

  /** For every tree, the index agrees with the flat text exactly if no nested fragment
      holds text: the listed nodes, in order and disjoint, cover it together with the
      separators; and then reading it at a node's offsets gives that node's text. */
  lemma IndexAgreesWithText(store: Store, children: seq<Node>)
    requires children != []
    ensures var spans, text := Index(store, children, 0), FragmentText(store, children);
            && InOrder(spans)
            && (Covered(spans) + |BLOCK_SEPARATOR| * (|children| - 1) == |text| <==> AllChildrenIndexed(store, children))
            && (AllChildrenIndexed(store, children) ==> ReadsBack(store, spans, text, 0))
  {
    IndexInOrder(store, children, 0);
    IndexCovers(store, children, 0);
    if AllChildrenIndexed(store, children) {
      IndexReadsBackFrom(store, children, 0);
    }
  }

  /** A nested fragment's text is printed and not indexed, so what follows it is off. */
  lemma NestedFragmentMisaligns()
    ensures var store, children := map[0 := "a", 1 := "b"], [Element([NestedFragment([TextNode(0)]), TextNode(1)])];
            && FragmentText(store, children) == "ab" && Index(store, children, 0) == [Span(1, 0, 1)]
            && !ReadsBack(store, Index(store, children, 0), FragmentText(store, children), 0)
  {
    var store := map[0 := "a", 1 := "b"];
    var inner, last := [TextNode(0)], [TextNode(1)];
    var block := [NestedFragment(inner)] + last;
    assert block == [NestedFragment([TextNode(0)]), TextNode(1)];
    assert inner[1..] == [] && last[1..] == [] && block[1..] == last && [Element(block)][1..] == [];
    assert InlineTexts(store, inner) == "a" && InlineTexts(store, last) == "b";
    assert Spans(store, TextNode(1), 0) == [Span(1, 0, 1)];
    assert SpansOfAll(store, last, 0) == [Span(1, 0, 1)];
    assert Spans(store, Element(block), 0) == [Span(1, 0, 1)] by {
      assert SpansOfAll(store, block, 0) == [] + SpansOfAll(store, last, 0);
    }
    assert Index(store, [Element(block)], 0) == [Span(1, 0, 1)] + [];
    assert InlineText(store, Element(block)) == "ab" by {
      assert InlineTexts(store, block) == "a" + InlineTexts(store, last);
    }
    assert !ReadsBackAt(store, Span(1, 0, 1), "ab", 0);
  }
}
