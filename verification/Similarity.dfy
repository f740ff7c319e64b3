/** The similarity score that decides between a fuzzy match and a rejection. */
module Similarity {
  import opened EditDistance
  import Text

  ghost function Score(a: string, b: string): real {
    var longest := Max(|a|, |b|);
    if a == b || longest == 0 then 1.0
    else 1.0 - Distance(Text.Trim(a), Text.Trim(b)) as real / longest as real
  }

  ghost predicate IsLonger(a: string, b: string, longest: nat) {
    longest >= |a| && longest >= |b| && (longest == |a| || longest == |b|)
  }

  ghost predicate IsShare(score: real, d: nat, longest: nat) { (1.0 - score) * longest as real == d as real }

  /** For different strings: what the score leaves of 1 is the share that a shortest script
      between the trimmed strings has of the longer untrimmed length. */
  ghost predicate Measures(a: string, b: string, score: real) {
    exists d: nat, longest: nat ::
      IsDistance(Text.Trim(a), Text.Trim(b), d) && IsLonger(a, b, longest) && IsShare(score, d, longest)
  }

  lemma ScoreMeasures(a: string, b: string)
    requires a != b
    ensures Measures(a, b, Score(a, b))
  {
    var d, longest := Distance(Text.Trim(a), Text.Trim(b)), Max(|a|, |b|);
    assert IsLonger(a, b, longest) && longest > 0;
    assert Score(a, b) == 1.0 - d as real / longest as real;
    hide Score, IsDistance, IsLonger, IsShare, Distance, Text.Trim, Max;
    DistanceIs(Text.Trim(a), Text.Trim(b), d);
    Divided(d, longest);
  }

  lemma Divided(d: nat, n: nat)
    requires 0 < n
    ensures IsShare(1.0 - d as real / n as real, d, n)
  {
  }

  method Similarity(a: string, b: string) returns (score: real)
    ensures score == Score(a, b)
    ensures if a == b then score == 1.0 else Measures(a, b, score)
  {
    if a == b {
      return 1.0;
    }
    ScoreMeasures(a, b);
    hide Measures;
    var longest := Max(|a|, |b|);
    if longest == 0 {
      return 1.0;
    }
    var d := Levenshtein(Text.Trim(a), Text.Trim(b));
    score := 1.0 - d as real / longest as real;
  }

  lemma Quotient(d: nat, n: nat)
    requires d <= n && 0 < n
    ensures 0.0 <= d as real / n as real <= 1.0
    ensures d as real / n as real == 0.0 <==> d == 0
  {
    assert d as real / n as real * n as real == d as real;
  }

  /** The strings are trimmed before they are measured, but the distance is divided by an
      untrimmed length: the score still stays within 0 and 1, and is 1 exactly for
      strings that trim to the same text. */
  lemma ScoreInRange(a: string, b: string)
    ensures 0.0 <= Score(a, b) <= 1.0
    ensures Score(a, b) == 1.0 <==> Text.Trim(a) == Text.Trim(b)
  {
    var l, r := Text.TrimSpec(a);
    var l', r' := Text.TrimSpec(b);
    var s, t := Text.Trim(a), Text.Trim(b);
    Bounds(s, t);
    ZeroOnlyForEqual(s, t);
    if a != b {
      Quotient(Distance(s, t), Max(|a|, |b|));
    }
  }
}
