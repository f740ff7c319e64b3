/** How far back foreign elements stand in a sequence: a measure that tells where insertions
    landed. */
module Weights {
  /** The elements of `r` that occur in `s`, the original. */
  ghost function Originals<T>(r: seq<T>, s: seq<T>): nat
    decreases |r|
  {
    if r == [] then 0 else Originals(r[..|r| - 1], s) + if r[|r| - 1] in s then 1 else 0
  }

  /** How far back the foreign elements stand: for each, the original ones in front of it. */
  ghost function Weight<T>(r: seq<T>, s: seq<T>): nat
    decreases |r|
  {
    if r == [] then 0
    else Weight(r[..|r| - 1], s) + if r[|r| - 1] in s then 0 else Originals(r[..|r| - 1], s)
  }

  ghost predicate Foreign<T>(t: seq<T>, s: seq<T>) { forall i | 0 <= i < |t| :: t[i] !in s }

  lemma OriginalsSnoc<T>(r: seq<T>, c: T, s: seq<T>)
    ensures Originals(r + [c], s) == Originals(r, s) + if c in s then 1 else 0
    ensures Weight(r + [c], s) == Weight(r, s) + if c in s then 0 else Originals(r, s)
  {
    assert (r + [c])[..|r|] == r;
  }

  lemma {:induction false} OriginalsJoin<T>(a: seq<T>, b: seq<T>, s: seq<T>)
    ensures Originals(a + b, s) == Originals(a, s) + Originals(b, s)
    decreases |b|
  {
    if b == [] {
      assert a + b == a;
    } else {
      var front, c := b[..|b| - 1], b[|b| - 1];
      OriginalsJoin(a, front, s);
      assert a + b == (a + front) + [c] && b == front + [c];
      OriginalsSnoc(a + front, c, s);
    }
  }

  lemma {:induction false} OriginalsAtMost<T>(r: seq<T>, s: seq<T>)
    ensures Originals(r, s) <= |r|
    ensures Originals(r, s) == |r| <==> forall i | 0 <= i < |r| :: r[i] in s
    ensures Foreign(r, s) ==> Originals(r, s) == 0
    decreases |r|
  {
    if r != [] {
      OriginalsAtMost(r[..|r| - 1], s);
    }
  }

  lemma {:induction false} WeightOfForeign<T>(x: seq<T>, t: seq<T>, s: seq<T>)
    requires Foreign(t, s)
    ensures Weight(x + t, s) == Weight(x, s) + |t| * Originals(x, s)
    decreases |t|
  {
    if t == [] {
      assert x + t == x;
    } else {
      var front, c := t[..|t| - 1], t[|t| - 1];
      WeightOfForeign(x, front, s);
      assert x + t == (x + front) + [c];
      OriginalsSnoc(x + front, c, s);
      OriginalsJoin(x, front, s);
      OriginalsAtMost(front, s);
      assert |t| * Originals(x, s) == (|t| - 1) * Originals(x, s) + Originals(x, s);
    }
  }

  /** A foreign part adds to the weight what stands in front of it, and changes nothing else. */
  lemma {:induction false} WeightOfInsertion<T>(x: seq<T>, t: seq<T>, y: seq<T>, s: seq<T>)
    requires Foreign(t, s)
    ensures Weight(x + t + y, s) == Weight(x + y, s) + |t| * Originals(x, s)
    decreases |y|
  {
    hide Originals, Weight, Foreign;
    if y == [] {
      assert x + t + y == x + t && x + y == x;
      WeightOfForeign(x, t, s);
    } else {
      var front, c := y[..|y| - 1], y[|y| - 1];
      WeightOfInsertion(x, t, front, s);
      assert x + t + y == (x + t + front) + [c] && x + y == (x + front) + [c];
      OriginalsSnoc(x + t + front, c, s);
      OriginalsSnoc(x + front, c, s);
      OriginalsJoin(x + t, front, s);
      OriginalsJoin(x, t, s);
      OriginalsJoin(x, front, s);
      OriginalsAtMost(t, s);
    }
  }

  lemma {:induction false} NoForeignWeight<T>(r: seq<T>, s: seq<T>)
    requires forall c | c in r :: c in s
    ensures Weight(r, s) == 0
    decreases |r|
  {
    if r != [] {
      NoForeignWeight(r[..|r| - 1], s);
    }
  }

  lemma ForeignInFront<T>(now: seq<T>, s: seq<T>, q: nat, p: nat)
    requires q < p <= |now| && now[q] !in s
    ensures Originals(now[..p], s) < p
  {
    OriginalsAtMost(now[..p], s);
    assert now[..p][q] == now[q];
  }

  lemma Products(n: nat, a: nat, b: nat)
    requires a <= b
    ensures n * a <= n * b && (0 < n && a < b ==> n * a < n * b)
  {
    assert n * b - n * a == n * (b - a);
  }
}
