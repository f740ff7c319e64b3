/** Insertion and deletion at flat offsets of a paragraph document, as functions on the
    list of paragraph texts, and what they do to the flat text. */
module Paragraphs {
  import opened BlockText
  import opened Marked
  import opened Sequences

  function Clamp(value: int, min: int, max: int): int {
    var atLeast := if value > min then value else min;
    if atLeast < max then atLeast else max
  }

  // ----- insertion -----

  /** The first segment continues the paragraph, the last one takes over its tail, and
      those between become paragraphs of their own. */
  function Weave(block: string, at: nat, segments: seq<string>): seq<string>
    requires at <= |block| && segments != []
  {
    if |segments| == 1 then [block[..at] + segments[0] + block[at..]]
    else
      var n := |segments| - 1;
      [block[..at] + segments[0]] + segments[1..n] + [segments[n] + block[at..]]
  }

  /** Insertion at `position`, counted from the start of the first paragraph. */
  function InsertAt(blocks: seq<string>, position: int, text: string): seq<string>
    requires blocks != []
  {
    if |blocks| == 1 || position <= |blocks[0]| then
      Weave(blocks[0], Clamp(position, 0, |blocks[0]|), Split(text)) + blocks[1..]
    else [blocks[0]] + InsertAt(blocks[1..], position - |blocks[0]| - |BLOCK_SEPARATOR|, text)
  }

  /** An empty fragment is seeded with one paragraph per segment. */
  function Insert(blocks: seq<string>, position: int, text: string): seq<string> {
    if blocks == [] then Split(text) else InsertAt(blocks, position, text)
  }

  // ----- deletion -----

  /** The offsets of a paragraph of `n` characters that fall into the range. */
  predicate Overlaps(n: nat, lo: int, hi: int) { Clamp(lo, 0, n) < Clamp(hi, 0, n) }

  /** A paragraph without its overlap with the range. */
  function Cut(block: string, lo: int, hi: int): string {
    if Overlaps(|block|, lo, hi) then block[..Clamp(lo, 0, |block|)] + block[Clamp(hi, 0, |block|)..] else block
  }

  /** The deletion takes something from the paragraph and leaves nothing. */
  predicate Emptied(block: string, lo: int, hi: int) { block != "" && lo <= 0 && |block| <= hi }

  /** What is left of one paragraph: nothing if it is emptied. */
  function Left(block: string, lo: int, hi: int): seq<string> {
    if Emptied(block, lo, hi) then [] else [Cut(block, lo, hi)]
  }

  /** The paragraphs left, in order: each without its overlap, the emptied ones gone. */
  function Survivors(blocks: seq<string>, lo: int, hi: int): seq<string> {
    if blocks == [] then []
    else
      var shift := |blocks[0]| + |BLOCK_SEPARATOR|;
      Left(blocks[0], lo, hi) + Survivors(blocks[1..], lo - shift, hi - shift)
  }

  /** A document that had paragraphs keeps one. */
  function Delete(blocks: seq<string>, start: int, length: int): seq<string> {
    var left := Survivors(blocks, start, start + length);
    if left == [] && blocks != [] then [""] else left
  }

  // ----- what insertion does to the flat text -----

  lemma CharsJoin(a: string, b: string)
    ensures Chars(a + b) == Chars(a) + Chars(b)
  {
  }

  lemma MarkCons(block: string, rest: seq<string>)
    requires rest != []
    ensures Mark([block] + rest) == Chars(block) + [Sep1, Sep2] + Mark(rest)
  {
    assert ([block] + rest)[1..] == rest;
  }

  lemma {:induction false} MarkPrepends(a: string, b: string, rest: seq<string>)
    ensures Mark([a + b] + rest) == Chars(a) + Mark([b] + rest)
  {
    CharsJoin(a, b);
    if rest == [] {
      assert [a + b] + rest == [a + b] && [b] + rest == [b];
    } else {
      MarkCons(a + b, rest);
      MarkCons(b, rest);
    }
  }

  lemma {:induction false} MarkAppends(segments: seq<string>, tail: string)
    requires segments != []
    ensures var n := |segments| - 1;
            Mark(segments[..n] + [segments[n] + tail]) == Mark(segments) + Chars(tail)
  {
    var n := |segments| - 1;
    if n == 0 {
      CharsJoin(segments[0], tail);
      assert segments[..n] + [segments[n] + tail] == [segments[0] + tail];
    } else {
      var rest := segments[1..];
      MarkAppends(rest, tail);
      assert segments[..n] + [segments[n] + tail] == [segments[0]] + (rest[..n - 1] + [rest[n - 1] + tail]);
      MarkCons(segments[0], rest[..n - 1] + [rest[n - 1] + tail]);
    }
  }

  lemma WeaveAsSegments(block: string, at: nat, segments: seq<string>)
    requires at <= |block| && segments != []
    ensures var n := |segments| - 1;
            var tailed := segments[..n] + [segments[n] + block[at..]];
            Weave(block, at, segments) == [block[..at] + tailed[0]] + tailed[1..]
  {
    var n := |segments| - 1;
    var tailed := segments[..n] + [segments[n] + block[at..]];
    if n == 0 {
      assert tailed == [segments[0] + block[at..]] && tailed[1..] == [];
      assert block[..at] + segments[0] + block[at..] == block[..at] + (segments[0] + block[at..]);
    } else {
      assert tailed[1..] == segments[1..n] + [segments[n] + block[at..]];
    }
  }

  /** Weaving splices the marked segments into the paragraph. */
  lemma WeaveSplices(block: string, at: nat, segments: seq<string>)
    requires at <= |block| && segments != []
    ensures Mark(Weave(block, at, segments)) == Chars(block[..at]) + Mark(segments) + Chars(block[at..])
  {
    var n := |segments| - 1;
    var tailed := segments[..n] + [segments[n] + block[at..]];
    WeaveAsSegments(block, at, segments);
    MarkAppends(segments, block[at..]);
    MarkPrepends(block[..at], tailed[0], tailed[1..]);
    assert [tailed[0]] + tailed[1..] == tailed;
    Associate(Chars(block[..at]), Mark(segments), Chars(block[at..]));
  }

  lemma {:induction false} MarkJoins(a: seq<string>, b: seq<string>)
    requires a != [] && b != []
    ensures Mark(a + b) == Mark(a) + ([Sep1, Sep2] + Mark(b))
  {
    var first, tail := a[0], [Sep1, Sep2] + Mark(b);
    if |a| == 1 {
      assert a + b == [first] + b;
      MarkCons(first, b);
      Associate(Chars(first), [Sep1, Sep2], Mark(b));
    } else {
      MarkJoins(a[1..], b);
      assert a + b == [first] + (a[1..] + b) && a == [first] + a[1..];
      MarkCons(first, a[1..] + b);
      MarkCons(first, a[1..]);
      Associate(Chars(first) + [Sep1, Sep2], Mark(a[1..]), tail);
    }
  }

  lemma FirstPart(block: string, rest: seq<string>)
    ensures var m := Mark([block] + rest);
            && |block| <= |m| && (rest == [] <==> |m| == |block|)
            && m[..|block|] == Chars(block)
            && (rest != [] ==> m[|block|..] == [Sep1, Sep2] + Mark(rest) && m[|block| + 2..] == Mark(rest))
            && (forall i | 0 <= i < |block| :: m[i].Ch?)
  {
    if rest == [] {
      assert [block] + rest == [block];
    } else {
      MarkCons(block, rest);
    }
  }

  ghost predicate Spliced(m: seq<Sym>, position: int, x: seq<Sym>, after: seq<Sym>) {
    var at := Landing(m, if position < 0 then 0 else position);
    after == m[..at] + x + m[at..]
  }

  lemma SlicesFirst(block: string, tail: seq<Sym>, at: nat)
    requires at <= |block|
    ensures (Chars(block) + tail)[..at] == Chars(block[..at])
    ensures (Chars(block) + tail)[at..] == Chars(block[at..]) + tail
  {
  }

  /** Weaving into the first paragraph, seen as part of the whole document. */
  lemma WeaveSplicesFirst(block: string, rest: seq<string>, at: nat, segments: seq<string>)
    requires at <= |block| && segments != []
    ensures var m := Mark([block] + rest);
            Mark(Weave(block, at, segments) + rest) == m[..at] + Mark(segments) + m[at..]
  {
    var woven := Weave(block, at, segments);
    WeaveSplices(block, at, segments);
    if rest == [] {
      assert [block] + rest == [block] && woven + rest == woven;
      SlicesFirst(block, [], at);
      assert Chars(block) + [] == Chars(block) && Chars(block[at..]) + [] == Chars(block[at..]);
    } else {
      WeaveSplicesBefore(block, rest, at, segments, woven);
    }
  }

  lemma WeaveSplicesBefore(block: string, rest: seq<string>, at: nat, segments: seq<string>, woven: seq<string>)
    requires at <= |block| && rest != [] && woven != []
    requires Mark(woven) == Chars(block[..at]) + Mark(segments) + Chars(block[at..])
    ensures var m := Mark([block] + rest); Mark(woven + rest) == m[..at] + Mark(segments) + m[at..]
  {
    var tail := [Sep1, Sep2] + Mark(rest);
    MarkJoins(woven, rest);
    MarkCons(block, rest);
    hide Mark, Chars;
    Associate(Chars(block), [Sep1, Sep2], Mark(rest));
    SlicesFirst(block, tail, at);
    Associate(Chars(block[..at]) + Mark(segments), Chars(block[at..]), tail);
  }

  lemma LandsInFirst(block: string, rest: seq<string>, position: int)
    requires rest == [] || position <= |block|
    ensures Landing(Mark([block] + rest), if position < 0 then 0 else position) == Clamp(position, 0, |block|)
  {
    FirstPart(block, rest);
  }

  lemma SplicedBehind(head: seq<Sym>, m: seq<Sym>, position: nat, x: seq<Sym>, after: seq<Sym>)
    requires |head| >= 2 && head[|head| - 1].Sep2? && |head| - 1 <= position
    requires m != [] ==> !m[0].Sep2?
    requires Spliced(m, position - |head|, x, after)
    ensures Spliced(head + m, position, x, head + after)
  {
    var at := Landing(m, if position < |head| then 0 else position - |head|);
    LandingBehind(head, m, position);
    SpliceBehind(head, m, at, x);
  }

  lemma SplicesBehind(block: string, rest: seq<string>, position: int, x: seq<Sym>, after: seq<string>)
    requires rest != [] && after != [] && |block| < position
    requires Spliced(Mark(rest), position - |block| - 2, x, Mark(after))
    ensures Spliced(Mark([block] + rest), position, x, Mark([block] + after))
  {
    var head := Chars(block) + [Sep1, Sep2];
    MarkStartsWhole(rest);
    SplicedBehind(head, Mark(rest), position, x, Mark(after));
    assert Mark([block] + rest) == head + Mark(rest) by {
      MarkCons(block, rest);
    }
    assert Mark([block] + after) == head + Mark(after) by {
      MarkCons(block, after);
    }
  }

  lemma MarkStartsWhole(blocks: seq<string>)
    ensures Mark(blocks) != [] ==> !Mark(blocks)[0].Sep2?
  {
    MarkIsPaired(blocks);
    if Mark(blocks) != [] {
      assert PairedAt(Mark(blocks), 0);
    }
  }

  /** The symbols of the text's segments are spliced in at the landing offset. */
  lemma {:induction false} InsertSplices(blocks: seq<string>, position: int, text: string)
    requires blocks != []
    ensures Spliced(Mark(blocks), position, Mark(Split(text)), Mark(InsertAt(blocks, position, text)))
    ensures InsertAt(blocks, position, text) != []
  {
    if |blocks| == 1 || position <= |blocks[0]| {
      LandsInFirst(blocks[0], blocks[1..], position);
      WeaveSplicesFirst(blocks[0], blocks[1..], Clamp(position, 0, |blocks[0]|), Split(text));
      assert blocks == [blocks[0]] + blocks[1..];
    } else {
      var rest, position' := blocks[1..], position - |blocks[0]| - 2;
      InsertSplices(rest, position', text);
      SplicesBehind(blocks[0], rest, position, Mark(Split(text)), InsertAt(rest, position', text));
      assert blocks == [blocks[0]] + rest;
    }
  }

  lemma LandingBehind(head: seq<Sym>, m: seq<Sym>, position: nat)
    requires |head| >= 2 && head[|head| - 1].Sep2? && |head| - 1 <= position
    requires m != [] ==> !m[0].Sep2?
    ensures Landing(head + m, position) == |head| + Landing(m, if position < |head| then 0 else position - |head|)
  {
  }

  lemma SpliceBehind(head: seq<Sym>, m: seq<Sym>, at: nat, x: seq<Sym>)
    requires at <= |m|
    ensures (head + m)[..|head| + at] + x + (head + m)[|head| + at..] == head + (m[..at] + x + m[at..])
  {
  }

  lemma PlainSpliced(m: seq<Sym>, at: nat, x: seq<Sym>)
    requires at <= |m|
    ensures Plain(m[..at] + x + m[at..]) == Plain(m)[..at] + Plain(x) + Plain(m)[at..]
  {
  }

  /** Insertion refines string splicing. The text, each run of two or more newlines
      collapsed to two, is spliced into the flat text at the least offset at or after the
      requested one that belongs to a paragraph, or at the end; and there is one more
      paragraph for every such run. */
  lemma InsertRefinesSplicing(blocks: seq<string>, position: nat, text: string)
    requires blocks != []
    ensures var flat, at := Print(blocks), Landing(Mark(blocks), position);
            at <= |flat| && Print(Insert(blocks, position, text)) == flat[..at] + Collapse(text) + flat[at..]
    ensures |Insert(blocks, position, text)| == |blocks| + Breaks(text)
  {
    hide Mark, Print, Split, Collapse, Plain, InsertAt, Breaks;
    var m, x := Mark(blocks), Mark(Split(text));
    InsertSplices(blocks, position, text);
    PlainOfMark(blocks);
    PlainOfMark(Split(text));
    PlainOfMark(Insert(blocks, position, text));
    PrintAfterSplit(text);
    PlainSpliced(m, Landing(m, position), x);
    InsertCounts(blocks, position, text);
  }

  lemma {:induction false} InsertCounts(blocks: seq<string>, position: int, text: string)
    requires blocks != []
    ensures |InsertAt(blocks, position, text)| == |blocks| + Breaks(text)
  {
    SplitCounts(text);
    if |blocks| > 1 && position > |blocks[0]| {
      InsertCounts(blocks[1..], position - |blocks[0]| - 2, text);
    }
  }

  /** Text written into an empty document reads back with its newline runs collapsed. */
  lemma {:induction false} WriteThenRead(position: nat, text: string)
    ensures Print(Insert([], position, text)) == Collapse(text)
  {
    PrintAfterSplit(text);
  }

  // ----- what deletion does, paragraph by paragraph -----

  /** The flat offset at which the paragraph after `before` starts. */
  ghost function Offset(before: seq<string>): nat {
    if before == [] then 0 else |Print(before)| + |BLOCK_SEPARATOR|
  }

  lemma OffsetCons(block: string, rest: seq<string>)
    ensures Offset([block] + rest) == |block| + |BLOCK_SEPARATOR| + Offset(rest)
  {
    assert rest == [] ==> [block] + rest == [block];
    assert ([block] + rest)[1..] == rest;
  }

  lemma SurvivorsCons(block: string, rest: seq<string>, lo: int, hi: int)
    ensures var shift := |block| + |BLOCK_SEPARATOR|;
            Survivors([block] + rest, lo, hi) == Left(block, lo, hi) + Survivors(rest, lo - shift, hi - shift)
  {
    hide Left;
    assert ([block] + rest)[1..] == rest;
  }

  lemma {:induction false} SurvivorsJoin(a: seq<string>, b: seq<string>, lo: int, hi: int)
    ensures Survivors(a + b, lo, hi) == Survivors(a, lo, hi) + Survivors(b, lo - Offset(a), hi - Offset(a))
  {
    if a == [] {
      assert a + b == b;
    } else {
      var first, rest := a[0], a[1..];
      var lo', hi' := lo - |first| - |BLOCK_SEPARATOR|, hi - |first| - |BLOCK_SEPARATOR|;
      assert a == [first] + rest;
      Associate([first], rest, b);
      OffsetCons(first, rest);
      SurvivorsJoin(rest, b, lo', hi');
      SurvivorsCons(first, rest, lo, hi);
      SurvivorsCons(first, rest + b, lo, hi);
      Associate(Left(first, lo, hi), Survivors(rest, lo', hi'), Survivors(b, lo' - Offset(rest), hi' - Offset(rest)));
    }
  }

  lemma SurvivorsOfOne(block: string, lo: int, hi: int)
    ensures Survivors([block], lo, hi) == Left(block, lo, hi)
  {
    assert [block][1..] == [];
  }

  /** Deletion has a closed form, whatever the document. A paragraph loses exactly its
      overlap with the range, measured from the flat offset where the paragraph starts,
      and disappears exactly when that overlap is all of a text that was not empty. What
      happens to the paragraphs before and after it does not depend on it. */
  lemma DeletionClosedForm(before: seq<string>, block: string, after: seq<string>, lo: int, hi: int)
    ensures var at := Offset(before);
            && Survivors(before + [block] + after, lo, hi)
               == Survivors(before, lo, hi) + Left(block, lo - at, hi - at)
                  + Survivors(after, lo - Offset(before + [block]), hi - Offset(before + [block]))
            && at <= |Print(before + [block])| && Print(before + [block])[at..] == block
  {
    hide Survivors, Left, Offset;
    SurvivorsJoin(before + [block], after, lo, hi);
    SurvivorsJoin(before, [block], lo, hi);
    SurvivorsOfOne(block, lo - Offset(before), hi - Offset(before));
    PrintLast(before, block);
  }

  lemma {:induction false} PrintLast(before: seq<string>, block: string)
    ensures Offset(before) + |block| == |Print(before + [block])|
    ensures Print(before + [block])[Offset(before)..] == block
  {
    if before == [] {
      assert before + [block] == [block];
    } else {
      PrintLast(before[1..], block);
      OffsetCons(before[0], before[1..]);
      assert before == [before[0]] + before[1..] && (before + [block])[1..] == before[1..] + [block];
    }
  }

  // ----- what deletion does to the flat text -----

  /** No paragraph is emptied. */
  ghost predicate Spares(blocks: seq<string>, lo: int, hi: int) {
    blocks == []
    || (var shift := |blocks[0]| + |BLOCK_SEPARATOR|;
        !Emptied(blocks[0], lo, hi) && Spares(blocks[1..], lo - shift, hi - shift))
  }

  lemma CutDrops(block: string, lo: int, hi: int)
    ensures Chars(Cut(block, lo, hi)) == Drop(Chars(block), lo, hi)
  {
    hide Drop, Chars;
    var l, h := Clamp(lo, 0, |block|), Clamp(hi, 0, |block|);
    if l < h {
      InThree(block, l, h);
      DropsMiddle(block[..l], block[l..h], block[h..], lo, hi);
    } else {
      DropMisses(Chars(block), lo, hi);
    }
  }

  lemma InThree(s: string, l: nat, h: nat)
    requires l <= h <= |s|
    ensures s == s[..l] + (s[l..h] + s[h..])
  {
  }

  lemma DropsMiddle(a: string, b: string, c: string, lo: int, hi: int)
    requires a == "" || |a| <= lo
    requires lo <= |a| && |a| + |b| <= hi
    requires c == "" || hi <= |a| + |b|
    ensures Drop(Chars(a + (b + c)), lo, hi) == Chars(a + c)
  {
    hide Drop, Chars;
    var x, y := Chars(a), Chars(b + c);
    assert Chars(a + (b + c)) == x + y by { CharsJoin(a, b + c); }
    assert Chars(a + c) == x + Chars(c) by { CharsJoin(a, c); }
    DropJoins(x, y, lo, hi);
    DropMisses(x, lo, hi);
    DropsFront(b, c, lo - |x|, hi - |x|);
  }

  lemma DropsFront(b: string, c: string, lo: int, hi: int)
    requires lo <= 0 && |b| <= hi && (c == "" || hi <= |b|)
    ensures Drop(Chars(b + c), lo, hi) == Chars(c)
  {
    hide Drop, Chars;
    var x, y := Chars(b), Chars(c);
    assert Chars(b + c) == x + y by { CharsJoin(b, c); }
    DropJoins(x, y, lo, hi);
    DropEverything(x, lo, hi);
    DropMisses(y, lo - |x|, hi - |x|);
    NothingFirst(Drop(x, lo, hi), y);
  }

  lemma CutDropsFirst(block: string, rest: seq<Sym>, lo: int, hi: int)
    ensures Drop(Chars(block) + [Sep1, Sep2] + rest, lo, hi)
            == Chars(Cut(block, lo, hi)) + [Sep1, Sep2] + Drop(rest, lo - |block| - 2, hi - |block| - 2)
  {
    hide Drop, Chars, Cut;
    var x, sep := Chars(block), [Sep1, Sep2];
    CutDrops(block, lo, hi);
    DropJoins(x + sep, rest, lo, hi);
    DropJoins(x, sep, lo, hi);
    DropMisses(sep, lo - |x|, hi - |x|);
    assert lo - |x + sep| == lo - |block| - 2 && hi - |x + sep| == hi - |block| - 2;
  }

  /** A deletion that empties no paragraph drops exactly the characters in its range, and
      no separator. */
  lemma NothingToDrop(lo: int, hi: int)
    ensures Survivors([], lo, hi) == [] && Mark([]) == Drop(Mark([]), lo, hi)
  {
    DropMisses([], lo, hi);
  }

  lemma SparesFirst(block: string, rest: seq<string>, lo: int, hi: int)
    requires Spares([block] + rest, lo, hi)
    ensures var shift := |block| + |BLOCK_SEPARATOR|;
            && Spares(rest, lo - shift, hi - shift)
            && Survivors([block] + rest, lo, hi) == [Cut(block, lo, hi)] + Survivors(rest, lo - shift, hi - shift)
  {
    assert ([block] + rest)[0] == block && ([block] + rest)[1..] == rest;
    assert !Emptied(block, lo, hi) && Left(block, lo, hi) == [Cut(block, lo, hi)];
    hide Survivors, Cut, Emptied, Left;
    SurvivorsCons(block, rest, lo, hi);
  }

  ghost predicate DropsTo(blocks: seq<string>, lo: int, hi: int) {
    Mark(Survivors(blocks, lo, hi)) == Drop(Mark(blocks), lo, hi) && |Survivors(blocks, lo, hi)| == |blocks|
  }

  lemma DropsCons(block: string, rest: seq<string>, lo: int, hi: int)
    requires Spares([block] + rest, lo, hi) && DropsTo(rest, lo - |block| - |BLOCK_SEPARATOR|, hi - |block| - |BLOCK_SEPARATOR|)
    ensures DropsTo([block] + rest, lo, hi)
  {
    hide Mark, Drop, Survivors, Cut, Spares;
    SparesFirst(block, rest, lo, hi);
    SparedFirst(block, rest, Survivors(rest, lo - |block| - |BLOCK_SEPARATOR|, hi - |block| - |BLOCK_SEPARATOR|), lo, hi);
  }

  lemma {:induction false} SparesDrop(blocks: seq<string>, lo: int, hi: int)
    requires Spares(blocks, lo, hi)
    ensures DropsTo(blocks, lo, hi)
  {
    if blocks == [] {
      NothingToDrop(lo, hi);
    } else {
      var block, rest, shift := blocks[0], blocks[1..], |blocks[0]| + |BLOCK_SEPARATOR|;
      assert blocks == [block] + rest;
      assert Spares(rest, lo - shift, hi - shift);
      hide Spares, DropsTo, Emptied;
      SparesDrop(rest, lo - shift, hi - shift);
      DropsCons(block, rest, lo, hi);
    }
  }

  lemma SurvivorsDrop(blocks: seq<string>, lo: int, hi: int)
    requires Spares(blocks, lo, hi)
    ensures Mark(Survivors(blocks, lo, hi)) == Drop(Mark(blocks), lo, hi)
    ensures |Survivors(blocks, lo, hi)| == |blocks|
  {
    SparesDrop(blocks, lo, hi);
    hide Mark, Survivors, Drop, Spares;
  }

  lemma SparedFirst(block: string, rest: seq<string>, left: seq<string>, lo: int, hi: int)
    requires Mark(left) == Drop(Mark(rest), lo - |block| - 2, hi - |block| - 2) && |left| == |rest|
    ensures Mark([Cut(block, lo, hi)] + left) == Drop(Mark([block] + rest), lo, hi)
  {
    if rest == [] {
      assert [Cut(block, lo, hi)] + left == [Cut(block, lo, hi)] && [block] + rest == [block];
      CutDrops(block, lo, hi);
    } else {
      hide Drop, Mark, Cut, Chars;
      MarkCons(Cut(block, lo, hi), left);
      MarkCons(block, rest);
      CutDropsFirst(block, Mark(rest), lo, hi);
    }
  }

  lemma DeleteDrops(blocks: seq<string>, start: int, length: int)
    requires Spares(blocks, start, start + length)
    ensures Mark(Delete(blocks, start, length)) == Drop(Mark(blocks), start, start + length)
  {
    hide Survivors, Spares, Drop, Mark;
    SurvivorsDrop(blocks, start, start + length);
  }

  /** Two characters of one paragraph: no separator stands between them. */
  ghost predicate SameBlock(m: seq<Sym>, p: nat, k: nat) {
    p < |m| && k < |m| && forall j | 0 <= j < |m| && (p <= j <= k || k <= j <= p) :: m[j].Ch?
  }

  /** Every character in the range shares its paragraph with one outside the range. */
  ghost predicate Spared(m: seq<Sym>, lo: int, hi: int) {
    forall p | 0 <= p < |m| && lo <= p < hi && m[p].Ch? :: exists k: nat :: SameBlock(m, p, k) && !(lo <= k < hi)
  }

  lemma {:induction false} SparedIsSpares(blocks: seq<string>, lo: int, hi: int)
    requires Spared(Mark(blocks), lo, hi)
    ensures Spares(blocks, lo, hi)
  {
    if blocks != [] {
      var block, rest, shift := blocks[0], blocks[1..], |blocks[0]| + |BLOCK_SEPARATOR|;
      assert blocks == [block] + rest;
      FirstPart(block, rest);
      FirstNotEmptied(block, rest, lo, hi);
      hide Mark, Spared, Emptied, SameBlock;
      if rest == [] {
        assert Spares(rest, lo - shift, hi - shift);
      } else {
        SparedBehind(Mark(blocks), Mark(rest), lo, hi, shift);
        SparedIsSpares(rest, lo - shift, hi - shift);
      }
    }
  }

  lemma FirstNotEmptied(block: string, rest: seq<string>, lo: int, hi: int)
    requires Spared(Mark([block] + rest), lo, hi)
    ensures !Emptied(block, lo, hi)
  {
    FirstPart(block, rest);
    var m := Mark([block] + rest);
    if block != "" && lo <= 0 < hi {
      assert m[0].Ch?;
      var k: nat :| SameBlock(m, 0, k) && !(lo <= k < hi);
      assert |m| > |block| ==> m[|block|] == Sep1;
      assert k < |block|;
    }
  }

  lemma SparedBehind(m: seq<Sym>, rest: seq<Sym>, lo: int, hi: int, shift: nat)
    requires 0 < shift <= |m| && m[shift..] == rest && !m[shift - 1].Ch? && Spared(m, lo, hi)
    ensures Spared(rest, lo - shift, hi - shift)
  {
    forall p | 0 <= p < |rest| && lo - shift <= p < hi - shift && rest[p].Ch?
      ensures exists k: nat :: SameBlock(rest, p, k) && !(lo - shift <= k < hi - shift)
    {
      assert m[p + shift] == rest[p];
      var k: nat :| SameBlock(m, p + shift, k) && !(lo <= k < hi);
      assert k >= shift;
      assert forall j | 0 <= j < |rest| :: rest[j] == m[j + shift];
      assert SameBlock(rest, p, k - shift);
    }
  }

  lemma SparedInFirst(block: string, rest: seq<string>, lo: int, hi: int, p: nat)
    requires !Emptied(block, lo, hi) && p < |block| && lo <= p < hi
    ensures exists k: nat :: SameBlock(Mark([block] + rest), p, k) && !(lo <= k < hi)
  {
    FirstPart(block, rest);
    assert SameBlock(Mark([block] + rest), p, if lo > 0 then lo - 1 else hi);
  }

  lemma SparedInRest(m: seq<Sym>, rest: seq<Sym>, lo: int, hi: int, shift: nat, p: nat)
    requires shift <= p < |m| && m[shift..] == rest && m[p].Ch? && lo <= p < hi
    requires Spared(rest, lo - shift, hi - shift)
    ensures exists k: nat :: SameBlock(m, p, k) && !(lo <= k < hi)
  {
    assert rest[p - shift] == m[p];
    var k: nat :| SameBlock(rest, p - shift, k) && !(lo - shift <= k < hi - shift);
    assert forall j | shift <= j < |m| :: m[j] == rest[j - shift];
    assert SameBlock(m, p, k + shift);
  }

  lemma {:induction false} SparesIsSpared(blocks: seq<string>, lo: int, hi: int)
    requires Spares(blocks, lo, hi)
    ensures Spared(Mark(blocks), lo, hi)
  {
    if blocks != [] {
      var block, rest, shift := blocks[0], blocks[1..], |blocks[0]| + |BLOCK_SEPARATOR|;
      assert blocks == [block] + rest;
      SparesIsSpared(rest, lo - shift, hi - shift);
      FirstPart(block, rest);
      var m := Mark(blocks);
      hide SameBlock, Mark, Emptied, Spares;
      forall p | 0 <= p < |m| && lo <= p < hi && m[p].Ch?
        ensures exists k: nat :: SameBlock(m, p, k) && !(lo <= k < hi)
      {
        if p < |block| {
          SparedInFirst(block, rest, lo, hi, p);
        } else {
          SparedInRest(m, Mark(rest), lo, hi, shift, p);
        }
      }
    }
  }

  lemma {:induction false} SurvivorsCount(blocks: seq<string>, lo: int, hi: int)
    ensures |Survivors(blocks, lo, hi)| <= |blocks|
    ensures !Spares(blocks, lo, hi) ==> |Survivors(blocks, lo, hi)| < |blocks|
  {
    if blocks != [] {
      var shift := |blocks[0]| + |BLOCK_SEPARATOR|;
      SurvivorsCount(blocks[1..], lo - shift, hi - shift);
    }
  }

  /** A deletion drops the characters of its range and nothing else, unless it empties one
      of several paragraphs: then it also takes away paragraphs. */
  lemma DeleteDropsOrShrinks(blocks: seq<string>, start: int, length: int)
    requires blocks != []
    ensures Delete(blocks, start, length) != [] && |Delete(blocks, start, length)| <= |blocks|
    ensures Spared(Mark(blocks), start, start + length) || |blocks| == 1 ==>
              Mark(Delete(blocks, start, length)) == Drop(Mark(blocks), start, start + length)
    ensures !Spared(Mark(blocks), start, start + length) && |blocks| > 1 ==>
              |Delete(blocks, start, length)| < |blocks|
  {
    var lo, hi := start, start + length;
    hide Survivors, Spares, Spared, Mark, Drop, Emptied;
    SurvivorsCount(blocks, lo, hi);
    if Spares(blocks, lo, hi) {
      SparesIsSpared(blocks, lo, hi);
      DeleteDrops(blocks, start, length);
    } else {
      if Spared(Mark(blocks), lo, hi) {
        SparedIsSpares(blocks, lo, hi);
      }
      if |blocks| == 1 {
        OnlyBlockEmptied(blocks, lo, hi);
      }
    }
  }

  lemma OnlyBlockEmptied(blocks: seq<string>, lo: int, hi: int)
    requires |blocks| == 1 && !Spares(blocks, lo, hi)
    ensures Survivors(blocks, lo, hi) == [] && Mark([""]) == Drop(Mark(blocks), lo, hi)
  {
    assert blocks == [blocks[0]] && blocks[1..] == [];
    DropEverything(Chars(blocks[0]), lo, hi);
    assert Emptied(blocks[0], lo, hi);
  }

  /** An empty range, or one that ends before it starts, deletes nothing. */
  lemma {:induction false} NothingToDelete(blocks: seq<string>, start: int, length: int)
    requires length <= 0
    ensures Survivors(blocks, start, start + length) == blocks && Delete(blocks, start, length) == blocks
  {
    if blocks != [] {
      var shift := |blocks[0]| + |BLOCK_SEPARATOR|;
      NothingToDelete(blocks[1..], start - shift, length);
      assert blocks == [blocks[0]] + blocks[1..];
    }
  }
}
