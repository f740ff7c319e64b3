/** Finding quoted text near a hinted offset: exact occurrences first, then occurrences
    that agree up to the kind of white space. */
module Search {
  import opened Text
  import opened Wrappers

  datatype Range = Range(start: nat, end: nat)

  function Abs(x: int): (distance: nat)
    ensures distance == x || distance == -x
  {
    if x < 0 then -x else x
  }

  predicate Occurs(text: string, needle: string, k: nat) {
    k + |needle| <= |text| && text[k..k + |needle|] == needle
  }

  /** An occurrence with no other one nearer to the hint, nor as near and further left. */
  ghost predicate IsNearest(text: string, needle: string, hint: int, k: nat) {
    && Occurs(text, needle, k)
    && forall j: nat | Occurs(text, needle, j) && j != k ::
         Abs(k - hint) < Abs(j - hint) || (Abs(k - hint) == Abs(j - hint) && k < j)
  }

  /** The needle stands at `k` up to the kind of white space. */
  predicate LooseAt(text: string, needle: string, k: nat) {
    k + |needle| <= |text| && forall i | 0 <= i < |needle| :: SameUpToSpace(text[k + i], needle[i])
  }

  /** The same of occurrences up to the kind of white space. */
  ghost predicate IsNearestLoose(text: string, needle: string, hint: int, k: nat) {
    && LooseAt(text, needle, k)
    && forall j: nat | LooseAt(text, needle, j) && j != k ::
         Abs(k - hint) < Abs(j - hint) || (Abs(k - hint) == Abs(j - hint) && k < j)
  }

  lemma LooseIsNormal(text: string, needle: string, k: nat)
    ensures LooseAt(text, needle, k) <==> Occurs(Normal(text), Normal(needle), k)
  {
    if k + |needle| <= |text| {
      var part := text[k..k + |needle|];
      assert Normal(text)[k..k + |needle|] == Normal(part);
      NormalIdentifies(part, needle);
      assert forall i | 0 <= i < |needle| :: part[i] == text[k + i];
    }
  }

  lemma NearestLooseIsNormal(text: string, needle: string, hint: int, k: nat)
    ensures IsNearestLoose(text, needle, hint, k) <==> IsNearest(Normal(text), Normal(needle), hint, k)
  {
    forall j: nat ensures LooseAt(text, needle, j) <==> Occurs(Normal(text), Normal(needle), j) {
      LooseIsNormal(text, needle, j);
    }
    hide LooseAt, Occurs;
  }

  /** The best start below `n`, scanning from the left and keeping the first of equals. */
  function NearestBelow(text: string, needle: string, hint: int, n: nat): Option<nat> {
    if n == 0 then None
    else
      var best := NearestBelow(text, needle, hint, n - 1);
      if Occurs(text, needle, n - 1) && (best.None? || Abs(n - 1 - hint) < Abs(best.value - hint)) then Some(n - 1)
      else best
  }

  function Nearest(text: string, needle: string, hint: int): Option<nat> {
    NearestBelow(text, needle, hint, |text| + 1)
  }

  /** What a search returns: nearest exact occurrence, else nearest loose one, else none. */
  function Find(text: string, needle: string, hint: int): Option<Range> {
    match Nearest(text, needle, hint)
    case Some(k) => Some(Range(k, k + |needle|))
    case None =>
      if needle == "" then None
      else
        match Nearest(Normal(text), Normal(needle), hint)
        case Some(k) => Some(Range(k, k + |needle|))
        case None => None
  }

  lemma {:induction false} BelowIsNearest(text: string, needle: string, hint: int, n: nat)
    ensures var best := NearestBelow(text, needle, hint, n);
            && (best.None? ==> forall j: nat | j < n :: !Occurs(text, needle, j))
            && (best.Some? ==>
                  && best.value < n && Occurs(text, needle, best.value)
                  && forall j: nat | j < n && j != best.value && Occurs(text, needle, j) ::
                       var d, e := Abs(best.value - hint), Abs(j - hint); d < e || (d == e && best.value < j))
  {
    hide Occurs;
    if n != 0 {
      BelowIsNearest(text, needle, hint, n - 1);
    }
  }

  lemma NearestIsOptimal(text: string, needle: string, hint: int)
    ensures forall k: nat :: Nearest(text, needle, hint) == Some(k) <==> IsNearest(text, needle, hint, k)
    ensures Nearest(text, needle, hint).None? <==> forall k: nat :: !Occurs(text, needle, k)
  {
    BelowIsNearest(text, needle, hint, |text| + 1);
  }

  /** What every caller may rely on: a search finds the leftmost nearest exact occurrence;
      failing any, the leftmost nearest range of the needle's length that equals the
      needle up to the kind of white space; and nothing only when neither exists. */
  ghost predicate IsFound(text: string, needle: string, hint: int, r: Option<Range>) {
    && (r.Some? ==> r.value.start <= r.value.end <= |text| && r.value.end == r.value.start + |needle|)
    && (r.None? <==> needle != "" && forall k: nat :: !LooseAt(text, needle, k))
    && (r.Some? && (exists k: nat :: Occurs(text, needle, k)) ==> IsNearest(text, needle, hint, r.value.start))
    && (r.Some? && (forall k: nat :: !Occurs(text, needle, k)) ==> IsNearestLoose(text, needle, hint, r.value.start))
  }

  lemma FindIsOptimal(text: string, needle: string, hint: int)
    ensures IsFound(text, needle, hint, Find(text, needle, hint))
  {
    NearestIsOptimal(text, needle, hint);
    NearestIsOptimal(Normal(text), Normal(needle), hint);
    if needle == "" {
      assert Occurs(text, needle, 0);
    }
    forall k: nat ensures LooseAt(text, needle, k) <==> Occurs(Normal(text), Normal(needle), k) {
      LooseIsNormal(text, needle, k);
    }
    forall k: nat ensures IsNearestLoose(text, needle, hint, k) <==> IsNearest(Normal(text), Normal(needle), hint, k) {
      NearestLooseIsNormal(text, needle, hint, k);
    }
    forall k: nat | Occurs(text, needle, k) ensures LooseAt(text, needle, k) {
      ExactIsLoose(text, needle, k);
    }
    hide LooseAt, IsNearestLoose;
  }

  lemma ExactIsLoose(text: string, needle: string, k: nat)
    requires Occurs(text, needle, k)
    ensures LooseAt(text, needle, k)
  {
    var part := text[k..k + |needle|];
    assert forall i | 0 <= i < |needle| :: part[i] == text[k + i];
  }

  // ----- the loops -----

  /** The runtime's `indexOf`: the first occurrence at or after `from`, or -1. */
  method IndexOf(text: string, needle: string, from: nat) returns (index: int)
    ensures index == -1 || from <= index
    ensures index == -1 ==> forall j: nat | from <= j :: !Occurs(text, needle, j)
    ensures index != -1 ==> Occurs(text, needle, index) && forall j: nat | from <= j < index :: !Occurs(text, needle, j)
  {
    index := from;
    while index + |needle| <= |text|
      invariant from <= index
      invariant forall j: nat | from <= j < index :: !Occurs(text, needle, j)
    {
      if text[index..index + |needle|] == needle {
        return;
      }
      index := index + 1;
    }
    index := -1;
  }

  lemma {:induction false} SkipMisses(text: string, needle: string, hint: int, lo: nat, hi: nat)
    requires lo <= hi && forall j: nat | lo <= j < hi :: !Occurs(text, needle, j)
    ensures NearestBelow(text, needle, hint, hi) == NearestBelow(text, needle, hint, lo)
    decreases hi
  {
    if lo < hi {
      SkipMisses(text, needle, hint, lo, hi - 1);
    }
  }

  /** A search, in terms of what the two loops look for. */
  lemma FindInTwo(text: string, needle: string, hint: int)
    ensures NearestBelow(text, needle, hint, 0) == None
    ensures var exact, loose := NearestBelow(text, needle, hint, |text| + 1), Nearest(Normal(text), Normal(needle), hint);
            Find(text, needle, hint)
            == if exact.Some? then Some(Range(exact.value, exact.value + |needle|))
               else if needle == "" || loose.None? then None
               else Some(Range(loose.value, loose.value + |needle|))
  {
  }

  lemma NextOccurrence(text: string, needle: string, hint: int, k: nat)
    requires Occurs(text, needle, k)
    ensures var best := NearestBelow(text, needle, hint, k);
            NearestBelow(text, needle, hint, k + 1)
            == if best.None? || Abs(k - hint) < Abs(best.value - hint) then Some(k) else best
  {
  }

  method FindNearestExactText(text: string, needle: string, preferredStart: int) returns (r: Option<Range>)
    ensures r == Find(text, needle, preferredStart) && IsFound(text, needle, preferredStart, r)
  {
    FindIsOptimal(text, needle, preferredStart);
    FindInTwo(text, needle, preferredStart);
    hide IsFound, Occurs, LooseAt, IsNearestLoose, NearestBelow, Find, Nearest, Normal, Abs;
    var bestIndex, bestDistance := -1, 0;
    var fromIndex: nat := 0;
    while fromIndex <= |text|
      invariant fromIndex <= |text| + 1
      invariant -1 <= bestIndex
      invariant NearestBelow(text, needle, preferredStart, fromIndex)
                == if bestIndex == -1 then None else Some(bestIndex)
      invariant bestIndex != -1 ==> bestDistance == Abs(bestIndex - preferredStart)
    {
      var index := IndexOf(text, needle, fromIndex);
      if index == -1 {
        SkipMisses(text, needle, preferredStart, fromIndex, |text| + 1);
        break;
      }
      SkipMisses(text, needle, preferredStart, fromIndex, index);
      NextOccurrence(text, needle, preferredStart, index);
      var distance := Abs(index - preferredStart);
      if bestIndex == -1 || distance < bestDistance {
        bestIndex, bestDistance := index, distance;
      }
      fromIndex := index + 1;
    }
    if bestIndex != -1 {
      return Some(Range(bestIndex, bestIndex + |needle|));
    }
    r := FindNearestWhitespaceInsensitiveText(text, needle, preferredStart);
  }

  lemma NearestIsLoose(text: string, needle: string, hint: int)
    ensures var best := Nearest(Normal(text), Normal(needle), hint);
            && (best.None? <==> forall k: nat :: !LooseAt(text, needle, k))
            && (best.Some? ==> IsNearestLoose(text, needle, hint, best.value))
  {
    NearestIsOptimal(Normal(text), Normal(needle), hint);
    forall k: nat
      ensures LooseAt(text, needle, k) <==> Occurs(Normal(text), Normal(needle), k)
      ensures IsNearestLoose(text, needle, hint, k) <==> IsNearest(Normal(text), Normal(needle), hint, k)
    {
      LooseIsNormal(text, needle, k);
      NearestLooseIsNormal(text, needle, hint, k);
    }
    hide LooseAt, IsNearestLoose, Occurs, IsNearest;
  }

  method FindNearestWhitespaceInsensitiveText(text: string, needle: string, preferredStart: int)
    returns (r: Option<Range>)
    ensures var best := Nearest(Normal(text), Normal(needle), preferredStart);
            r == if needle == "" || best.None? then None else Some(Range(best.value, best.value + |needle|))
    ensures r.None? <==> needle == "" || forall k: nat :: !LooseAt(text, needle, k)
    ensures r.Some? ==> IsNearestLoose(text, needle, preferredStart, r.value.start) && r.value.end == r.value.start + |needle|
  {
    NearestIsLoose(text, needle, preferredStart);
    hide IsNearestLoose, LooseAt;
    var normalNeedle := Normal(needle);
    if normalNeedle == "" {
      return None;
    }
    var best: Option<(nat, nat, nat)> := None;
    for start := 0 to |text|
      invariant best.None? <==> NearestBelow(Normal(text), normalNeedle, preferredStart, start).None?
      invariant best.Some? ==>
          && NearestBelow(Normal(text), normalNeedle, preferredStart, start) == Some(best.value.0)
          && best.value.1 == best.value.0 + |needle|
          && best.value.2 == Abs(best.value.0 - preferredStart)
    {
      var normal := "";
      var end := start;
      while end < |text| && |normal| < |normalNeedle|
        invariant start <= end <= |text| && |normal| <= |normalNeedle|
        invariant normal == Normal(text)[start..end]
      {
        normal := normal + [NormalChar(text[end])];
        end := end + 1;
      }
      assert normal == normalNeedle <==> Occurs(Normal(text), normalNeedle, start);
      if normal == normalNeedle {
        var distance := Abs(start - preferredStart);
        if best.None? || distance < best.value.2 {
          best := Some((start, end, distance));
        }
      }
    }
    r := if best.Some? then Some(Range(best.value.0, best.value.1)) else None;
  }
}
