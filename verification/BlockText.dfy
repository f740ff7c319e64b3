/** The flat text of a block document: blocks printed with a blank line between them, and
    text split into blocks at its blank lines. */
module BlockText {

  const BLOCK_SEPARATOR := "\n\n"

  /** The blocks' texts joined with the separator. */
  function Print(blocks: seq<string>): string {
    if blocks == [] then ""
    else if |blocks| == 1 then blocks[0]
    else blocks[0] + BLOCK_SEPARATOR + Print(blocks[1..])
  }

  /** The number of newlines that `s` begins with. */
  function Run(s: string): (n: nat)
    ensures n <= |s| && (n < |s| ==> s[n] != '\n') && forall i | 0 <= i < n :: s[i] == '\n'
  {
    if s != "" && s[0] == '\n' then 1 + Run(s[1..]) else 0
  }

  /** `s.split(/\n{2,}/)`: every run of two or more newlines separates. */
  function Split(s: string): (segments: seq<string>)
    ensures segments != []
    decreases |s|
  {
    if s == "" then [""]
    else if Run(s) >= 2 then [""] + Split(s[Run(s)..])
    else
      var rest := Split(s[1..]);
      [[s[0]] + rest[0]] + rest[1..]
  }

  /** `s` with each run of two or more newlines shortened to exactly two. */
  function Collapse(s: string): string
    decreases |s|
  {
    if s == "" then ""
    else if Run(s) >= 2 then "\n\n" + Collapse(s[Run(s)..])
    else [s[0]] + Collapse(s[1..])
  }

  /** The number of runs of two or more newlines. */
  function Breaks(s: string): nat
    decreases |s|
  {
    if s == "" then 0
    else if Run(s) >= 2 then 1 + Breaks(s[Run(s)..])
    else Breaks(s[1..])
  }

  predicate NoBreak(s: string) { forall i | 0 <= i < |s| - 1 :: !(s[i] == '\n' == s[i + 1]) }

  predicate StartsNewline(s: string) { s != "" && s[0] == '\n' }

  predicate EndsNewline(s: string) { s != "" && s[|s| - 1] == '\n' }

  /** No block contains a blank line, no newline touches a separator, and the blocks
      strictly between the first and the last are not empty. */
  ghost predicate Separable(blocks: seq<string>) {
    && blocks != [] && NoBreak(blocks[0])
    && (|blocks| > 1 ==>
          && !EndsNewline(blocks[0]) && !StartsNewline(blocks[1])
          && (|blocks| > 2 ==> blocks[1] != "")
          && Separable(blocks[1..]))
  }

  lemma {:induction false} SplitIsSeparable(s: string)
    ensures Separable(Split(s))
    ensures StartsNewline(Split(s)[0]) <==> Run(s) == 1
    ensures Split(s)[0] == "" <==> s == "" || Run(s) >= 2
    decreases |s|
  {
    if s == "" {
    } else if Run(s) >= 2 {
      var rest := s[Run(s)..];
      SplitIsSeparable(rest);
      assert Split(s)[1..] == Split(rest);
    } else {
      SplitIsSeparable(s[1..]);
      var rest := Split(s[1..]);
      assert Split(s)[1..] == rest[1..];
      assert Run(s[1..]) == if s[0] == '\n' then Run(s) - 1 else Run(s[1..]);
    }
  }

  lemma PrintFirst(c: char, b: string, rest: seq<string>)
    ensures Print([[c] + b] + rest) == [c] + Print([b] + rest)
  {
    if rest == [] {
      assert [[c] + b] + rest == [[c] + b] && [b] + rest == [b];
    } else {
      assert ([[c] + b] + rest)[1..] == rest && ([b] + rest)[1..] == rest;
      assert Print([[c] + b] + rest) == [c] + (b + BLOCK_SEPARATOR + Print(rest));
    }
  }

  lemma {:induction false} PrintAfterSplit(s: string)
    ensures Print(Split(s)) == Collapse(s)
    decreases |s|
  {
    if s == "" {
    } else if Run(s) >= 2 {
      var rest := s[Run(s)..];
      PrintAfterSplit(rest);
      assert ([""] + Split(rest))[1..] == Split(rest);
    } else {
      PrintAfterSplit(s[1..]);
      var rest := Split(s[1..]);
      PrintFirst(s[0], rest[0], rest[1..]);
      assert [rest[0]] + rest[1..] == rest;
    }
  }

  /** There is one block more than there are runs of two or more newlines. */
  lemma {:induction false} SplitCounts(s: string)
    ensures |Split(s)| == 1 + Breaks(s)
    decreases |s|
  {
    if s != "" {
      SplitCounts(if Run(s) >= 2 then s[Run(s)..] else s[1..]);
    }
  }

  lemma ShortRun(c: char, b: string, rest: seq<string>)
    requires Separable([[c] + b] + rest)
    ensures Run([c] + Print([b] + rest)) < 2
    ensures Separable([b] + rest)
  {
    var blocks, shorter := [[c] + b] + rest, [b] + rest;
    assert blocks[0] == [c] + b && blocks[1..] == rest && shorter[1..] == rest;
    forall i | 0 <= i < |b| - 1 ensures !(b[i] == '\n' == b[i + 1]) {
      assert blocks[0][i + 1] == b[i] && blocks[0][i + 2] == b[i + 1];
    }
    if b != "" {
      assert blocks[0][0] == c && blocks[0][1] == b[0];
      assert Print(shorter)[0] == b[0];
    } else if rest != [] {
      assert EndsNewline(blocks[0]) <==> c == '\n';
    }
  }

  lemma {:induction false} SplitAfterPrint(blocks: seq<string>)
    requires Separable(blocks)
    ensures Split(Print(blocks)) == blocks
    decreases |Print(blocks)|
  {
    var s := Print(blocks);
    if blocks[0] != "" {
      var c, t := blocks[0][0], blocks[0][1..];
      assert blocks[0] == [c] + t && [[c] + t] + blocks[1..] == blocks;
      PrintFirst(c, t, blocks[1..]);
      ShortRun(c, t, blocks[1..]);
      assert s[1..] == Print([t] + blocks[1..]);
      SplitAfterPrint([t] + blocks[1..]);
      assert ([t] + blocks[1..])[1..] == blocks[1..];
    } else if |blocks| > 1 {
      var rest := blocks[1..];
      assert s == BLOCK_SEPARATOR + Print(rest);
      assert !StartsNewline(Print(rest));
      assert Run(s) == 2 by {
        assert s[0] == '\n' && s[1] == '\n' && (|s| > 2 ==> s[2] == Print(rest)[0]);
      }
      assert s[2..] == Print(rest);
      SplitAfterPrint(rest);
      assert [""] + rest == blocks;
    }
  }

  /** Splitting undoes printing for exactly the block lists that are separable. */
  lemma SplitUndoesPrint(blocks: seq<string>)
    ensures Split(Print(blocks)) == blocks <==> Separable(blocks)
  {
    SplitIsSeparable(Print(blocks));
    if Separable(blocks) {
      SplitAfterPrint(blocks);
    }
  }

  /** Printing undoes splitting up to collapsed newlines, and collapsing twice is
      collapsing once. */
  lemma PrintUndoesSplit(s: string)
    ensures Print(Split(s)) == Collapse(s) && Collapse(Collapse(s)) == Collapse(s)
    ensures Split(Collapse(s)) == Split(s)
  {
    PrintAfterSplit(s);
    SplitIsSeparable(s);
    SplitAfterPrint(Split(s));
    PrintAfterSplit(Collapse(s));
  }

  /** The only separable way to print the collapsed text is the split itself. */
  lemma SplitIsUnique(s: string, blocks: seq<string>)
    ensures blocks == Split(s) <==> Separable(blocks) && Print(blocks) == Collapse(s)
  {
    PrintUndoesSplit(s);
    SplitIsSeparable(s);
    if Separable(blocks) && Print(blocks) == Collapse(s) {
      SplitAfterPrint(blocks);
    }
  }

  /** Text without a blank line is one block, unchanged. */
  lemma {:induction false} OneSegment(s: string)
    requires |Split(s)| == 1
    ensures Split(s) == [s]
    decreases |s|
  {
    if s != "" && Run(s) < 2 {
      OneSegment(s[1..]);
      assert [s[0]] + s[1..] == s;
    }
  }
}
