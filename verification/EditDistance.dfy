/** Edit distance between strings: the dynamic-programming table of the AI operation
    checker, proved to hold the length of the shortest edit script, and the similarity
    score built on it. */
module EditDistance {

  /** One edit of a string, at any position. */
  datatype Edit = Insert(at: nat, c: char) | Delete(at: nat) | Replace(at: nat, c: char)

  ghost predicate Fits(s: string, e: Edit) {
    if e.Insert? then e.at <= |s| else e.at < |s|
  }

  ghost function Apply(s: string, e: Edit): string
    requires Fits(s, e)
  {
    match e
    case Insert(i, c) => s[..i] + [c] + s[i..]
    case Delete(i) => s[..i] + s[i + 1..]
    case Replace(i, c) => s[..i] + [c] + s[i + 1..]
  }

  /** The edits `es`, carried out one after the other, turn `a` into `b`. */
  ghost predicate Rewrites(a: string, es: seq<Edit>, b: string)
    decreases |es|
  {
    if es == [] then a == b
    else Fits(a, es[0]) && Rewrites(Apply(a, es[0]), es[1..], b)
  }

  function Min(x: int, y: int): (least: int)
    ensures least <= x && least <= y && (least == x || least == y)
  {
    if x < y then x else y
  }

  function Max(x: int, y: int): (largest: int)
    ensures x <= largest && y <= largest && (largest == x || largest == y)
  {
    if x < y then y else x
  }

  function Front(s: string): string
    requires s != ""
  {
    s[..|s| - 1]
  }

  function Last(s: string): char
    requires s != ""
  {
    s[|s| - 1]
  }

  lemma FrontThenLast(s: string)
    requires s != ""
    ensures Front(s) + [Last(s)] == s
  {
  }

  /** The textbook recurrence: every cell compares all three of its neighbours. */
  ghost function Distance(a: string, b: string): nat
    decreases |a| + |b|
  {
    if a == "" then |b|
    else if b == "" then |a|
    else
      Min(Min(Distance(Front(a), b), Distance(a, Front(b))) + 1,
          Distance(Front(a), Front(b)) + if Last(a) == Last(b) then 0 else 1)
  }

  // ----- the diagonal shortcut -----

  /** Neighbouring cells differ by at most one. */
  lemma {:induction false} Adjacent(a: string, b: string)
    ensures a != "" ==> -1 <= Distance(a, b) - Distance(Front(a), b) <= 1
    ensures b != "" ==> -1 <= Distance(a, b) - Distance(a, Front(b)) <= 1
    decreases |a| + |b|
  {
    if a != "" && b != "" {
      Adjacent(Front(a), b);
      Adjacent(a, Front(b));
    }
  }

  /** On equal characters the diagonal neighbour alone decides the cell. */
  lemma Diagonal(a: string, b: string)
    requires a != "" && b != "" && Last(a) == Last(b)
    ensures Distance(a, b) == Distance(Front(a), Front(b))
  {
    Adjacent(Front(a), b);
    Adjacent(a, Front(b));
  }

  // ----- some script is that short -----

  lemma ApplyUnder(a: string, e: Edit, c: char)
    requires Fits(a, e)
    ensures Fits(a + [c], e) && Apply(a + [c], e) == Apply(a, e) + [c]
  {
    assert (a + [c])[..e.at] == a[..e.at];
    if e.Insert? {
      assert (a + [c])[e.at..] == a[e.at..] + [c];
    } else {
      assert (a + [c])[e.at + 1..] == a[e.at + 1..] + [c];
    }
  }

  lemma {:induction false} AppendUnder(a: string, es: seq<Edit>, b: string, c: char)
    requires Rewrites(a, es, b)
    ensures Rewrites(a + [c], es, b + [c])
    decreases |es|
  {
    if es != [] {
      ApplyUnder(a, es[0], c);
      AppendUnder(Apply(a, es[0]), es[1..], b, c);
    }
  }

  /** A script from `a` to the front of `b` extends to one that ends with `b`'s last character. */
  lemma ThenLast(a: string, x: string, es: seq<Edit>, b: string)
    requires b != "" && Rewrites(a, es, Front(b))
    requires x == a + [Last(b)]
    ensures Rewrites(x, es, b)
  {
    AppendUnder(a, es, Front(b), Last(b));
    FrontThenLast(b);
  }

  lemma First(a: string, e: Edit, x: string, es: seq<Edit>, b: string)
    requires Fits(a, e) && Apply(a, e) == x && Rewrites(x, es, b)
    ensures Rewrites(a, [e] + es, b)
  {
    assert ([e] + es)[1..] == es;
  }

  lemma Nothing()
    ensures Rewrites("", [], "")
  {
  }

  lemma InsertLast(a: string, rest: seq<Edit>, b: string)
    requires b != "" && Rewrites(a, rest, Front(b))
    ensures Rewrites(a, [Insert(|a|, Last(b))] + rest, b)
  {
    ThenLast(a, a + [Last(b)], rest, b);
    First(a, Insert(|a|, Last(b)), a + [Last(b)], rest, b);
  }

  lemma DeleteLast(a: string, rest: seq<Edit>, b: string)
    requires a != "" && Rewrites(Front(a), rest, b)
    ensures Rewrites(a, [Delete(|a| - 1)] + rest, b)
  {
    First(a, Delete(|a| - 1), Front(a), rest, b);
  }

  lemma OtherLast(a: string, rest: seq<Edit>, b: string)
    requires a != "" && b != "" && Rewrites(Front(a), rest, Front(b))
    ensures Rewrites(a, if Last(a) == Last(b) then rest else [Replace(|a| - 1, Last(b))] + rest, b)
  {
    ThenLast(Front(a), Front(a) + [Last(b)], rest, b);
    if Last(a) == Last(b) {
      FrontThenLast(a);
    } else {
      First(a, Replace(|a| - 1, Last(b)), Front(a) + [Last(b)], rest, b);
    }
  }

  lemma {:induction false} Script(a: string, b: string) returns (es: seq<Edit>)
    ensures Rewrites(a, es, b) && |es| == Distance(a, b)
    decreases |a| + |b|
  {
    hide Rewrites;
    if a == "" && b == "" {
      Nothing();
      es := [];
    } else if b != "" && (a == "" || Distance(a, b) == Distance(a, Front(b)) + 1) {
      var rest := Script(a, Front(b));
      InsertLast(a, rest, b);
      es := [Insert(|a|, Last(b))] + rest;
    } else if b == "" || Distance(a, b) == Distance(Front(a), b) + 1 {
      var rest := Script(Front(a), b);
      DeleteLast(a, rest, b);
      es := [Delete(|a| - 1)] + rest;
    } else {
      var rest := Script(Front(a), Front(b));
      OtherLast(a, rest, b);
      es := if Last(a) == Last(b) then rest else [Replace(|a| - 1, Last(b))] + rest;
    }
  }

  // ----- no script is shorter -----

  /** Replacing a middle part of at most one character by another of at most one
      character raises the distance to any fixed string by at most one. */
  lemma {:induction false} OneEdit(p: string, x: string, y: string, s: string, b: string)
    requires |x| <= 1 && |y| <= 1
    ensures Distance(p + y + s, b) <= Distance(p + x + s, b) + 1
    decreases |s| + |b|
  {
    var u, v := p + x + s, p + y + s;
    if s == "" {
      assert u == p + x && v == p + y;
      Around(p, x, b);
      Around(p, y, b);
      if |x| == 1 && |y| == 1 {
        assert Front(u) == p && Front(v) == p;
        if b != "" {
          OneEdit(p, x, y, s, Front(b));
        }
      } else {
        assert x == "" ==> u == p;
        assert y == "" ==> v == p;
      }
    } else {
      assert Front(u) == p + x + Front(s) && Front(v) == p + y + Front(s);
      assert Last(u) == Last(v);
      OneEdit(p, x, y, Front(s), b);
      if b != "" {
        OneEdit(p, x, y, s, Front(b));
        OneEdit(p, x, y, Front(s), Front(b));
      }
    }
  }

  lemma Around(p: string, x: string, b: string)
    requires |x| <= 1
    ensures -1 <= Distance(p + x, b) - Distance(p, b) <= 1
  {
    if x == "" {
      assert p + x == p;
    } else {
      assert Front(p + x) == p;
      Adjacent(p + x, b);
    }
  }

  lemma EditMovesByOne(a: string, e: Edit, b: string)
    requires Fits(a, e)
    ensures Distance(a, b) <= Distance(Apply(a, e), b) + 1
  {
    var i := e.at;
    var old_, new_, rest :=
      if e.Insert? then "" else [a[i]], if e.Delete? then "" else [e.c], if e.Insert? then a[i..] else a[i + 1..];
    assert a == a[..i] + old_ + rest;
    assert Apply(a, e) == a[..i] + new_ + rest;
    OneEdit(a[..i], new_, old_, rest, b);
  }

  lemma {:induction false} SelfZero(a: string)
    ensures Distance(a, a) == 0
    decreases |a|
  {
    if a != "" {
      SelfZero(Front(a));
    }
  }

  lemma {:induction false} NoShorterScript(a: string, es: seq<Edit>, b: string)
    requires Rewrites(a, es, b)
    ensures Distance(a, b) <= |es|
    decreases |es|
  {
    if es == [] {
      SelfZero(a);
    } else {
      NoShorterScript(Apply(a, es[0]), es[1..], b);
      EditMovesByOne(a, es[0], b);
    }
  }

  // ----- the table -----

  /** The distance between a prefix of `a` and a prefix of `b`. */
  ghost function Cell(a: string, b: string, i: nat, j: nat): nat
    requires i <= |a| && j <= |b|
  {
    Distance(a[..i], b[..j])
  }

  lemma Borders(a: string, b: string)
    ensures forall i | 0 <= i <= |a| :: Cell(a, b, i, 0) == i
    ensures forall j | 0 <= j <= |b| :: Cell(a, b, 0, j) == j
  {
  }

  lemma CellFromNeighbours(a: string, b: string, i: nat, j: nat)
    requires 1 <= i <= |a| && 1 <= j <= |b|
    ensures Cell(a, b, i, j) ==
            if a[i - 1] == b[j - 1] then Cell(a, b, i - 1, j - 1)
            else 1 + Min(Min(Cell(a, b, i - 1, j), Cell(a, b, i, j - 1)), Cell(a, b, i - 1, j - 1))
  {
    var s, t := a[..i], b[..j];
    assert Front(s) == a[..i - 1] && Front(t) == b[..j - 1];
    if a[i - 1] == b[j - 1] {
      Diagonal(s, t);
    }
  }

  lemma ShortestScript(a: string, b: string)
    ensures exists es :: Rewrites(a, es, b) && |es| == Distance(a, b)
    ensures forall es :: Rewrites(a, es, b) ==> Distance(a, b) <= |es|
  {
    var es := Script(a, b);
    forall es | Rewrites(a, es, b) ensures Distance(a, b) <= |es| {
      NoShorterScript(a, es, b);
    }
  }

  /** Some script of `d` edits leads from `a` to `b`, and none is shorter. */
  ghost predicate IsDistance(a: string, b: string, d: nat) {
    (exists es :: Rewrites(a, es, b) && |es| == d) && forall es :: Rewrites(a, es, b) ==> d <= |es|
  }

  lemma DistanceIs(a: string, b: string, d: nat)
    ensures IsDistance(a, b, d) <==> d == Distance(a, b)
  {
    ShortestScript(a, b);
    hide Rewrites, Distance;
    if IsDistance(a, b, d) {
      var es :| Rewrites(a, es, b) && |es| == d;
      var fs :| Rewrites(a, fs, b) && |fs| == Distance(a, b);
    }
  }

  /** The table-filling loop. What it returns is the length of a shortest script of
      insertions, deletions and replacements from `a` to `b`. */
  method Levenshtein(a: string, b: string) returns (d: nat)
    ensures d == Distance(a, b)
    ensures exists es :: Rewrites(a, es, b) && |es| == d
    ensures forall es :: Rewrites(a, es, b) ==> d <= |es|
  {
    var m, n := |a|, |b|;
    var dp := new nat[m + 1, n + 1]((i: nat, j: nat) => if i == 0 then j else if j == 0 then i else 0);
    Borders(a, b);
    for i := 1 to m + 1
      invariant forall x | 0 <= x <= m :: dp[x, 0] == Cell(a, b, x, 0)
      invariant forall x, y | 0 <= x < i && 0 <= y <= n :: dp[x, y] == Cell(a, b, x, y)
    {
      for j := 1 to n + 1
        invariant forall x | 0 <= x <= m :: dp[x, 0] == Cell(a, b, x, 0)
        invariant forall x, y | 0 <= x < i && 0 <= y <= n :: dp[x, y] == Cell(a, b, x, y)
        invariant forall y | 0 <= y < j :: dp[i, y] == Cell(a, b, i, y)
      {
        CellFromNeighbours(a, b, i, j);
        if a[i - 1] == b[j - 1] {
          dp[i, j] := dp[i - 1, j - 1];
        } else {
          dp[i, j] := 1 + Min(Min(dp[i - 1, j], dp[i, j - 1]), dp[i - 1, j - 1]);
        }
      }
    }
    assert a[..m] == a && b[..n] == b;
    d := dp[m, n];
    ShortestScript(a, b);
  }

  // ----- a metric -----

  lemma AfterFirst(a: string, es: seq<Edit>, b: string)
    requires Rewrites(a, es, b)
    ensures if es == [] then a == b else Fits(a, es[0]) && Rewrites(Apply(a, es[0]), es[1..], b)
  {
  }

  lemma {:induction false} Chain(a: string, es: seq<Edit>, b: string, fs: seq<Edit>, c: string)
    requires Rewrites(a, es, b) && Rewrites(b, fs, c)
    ensures Rewrites(a, es + fs, c)
    decreases |es|
  {
    hide Rewrites, Apply, Fits;
    AfterFirst(a, es, b);
    if es == [] {
      assert es + fs == fs;
    } else {
      assert es + fs == [es[0]] + (es[1..] + fs);
      Chain(Apply(a, es[0]), es[1..], b, fs, c);
      First(a, es[0], Apply(a, es[0]), es[1..] + fs, c);
    }
  }

  lemma {:induction false} Symmetric(a: string, b: string)
    ensures Distance(a, b) == Distance(b, a)
    decreases |a| + |b|
  {
    if a != "" && b != "" {
      Symmetric(Front(a), b);
      Symmetric(a, Front(b));
      Symmetric(Front(a), Front(b));
    }
  }

  lemma {:induction false} ZeroOnlyForEqual(a: string, b: string)
    ensures Distance(a, b) == 0 <==> a == b
  {
    SelfZero(a);
    var es := Script(a, b);
  }

  /** Scripts from `a` to `b` and from `b` to `c` join to one from `a` to `c`. */
  lemma {:induction false} Triangle(a: string, b: string, c: string)
    ensures Distance(a, c) <= Distance(a, b) + Distance(b, c)
  {
    var es := Script(a, b);
    var fs := Script(b, c);
    Chain(a, es, b, fs, c);
    NoShorterScript(a, es + fs, c);
  }

  lemma {:induction false} Bounds(a: string, b: string)
    ensures |a| - |b| <= Distance(a, b) && |b| - |a| <= Distance(a, b)
    ensures Distance(a, b) <= Max(|a|, |b|)
    decreases |a| + |b|
  {
    if a != "" && b != "" {
      Bounds(Front(a), b);
      Bounds(a, Front(b));
      Bounds(Front(a), Front(b));
    }
  }
}
