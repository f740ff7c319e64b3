/** A block document as one sequence of symbols: the characters of its blocks, with the
    two characters of every separator kept apart from ordinary newlines. */
module Marked {
  import opened BlockText
  import opened Sequences

  datatype Sym = Ch(c: char) | Sep1 | Sep2

  function Chars(s: string): (m: seq<Sym>)
    ensures |m| == |s| && forall i | 0 <= i < |s| :: m[i] == Ch(s[i])
  {
    seq(|s|, i requires 0 <= i < |s| => Ch(s[i]))
  }

  function Mark(blocks: seq<string>): seq<Sym> {
    if blocks == [] then []
    else if |blocks| == 1 then Chars(blocks[0])
    else Chars(blocks[0]) + [Sep1, Sep2] + Mark(blocks[1..])
  }

  /** The symbols as plain text; a separator reads as two newlines. */
  function Plain(m: seq<Sym>): (s: string)
    ensures |s| == |m| && forall i | 0 <= i < |m| :: s[i] == Read(m[i])
  {
    seq(|m|, i requires 0 <= i < |m| => Read(m[i]))
  }

  function Read(x: Sym): char { if x.Ch? then x.c else '\n' }

  lemma {:induction false} PlainOfMark(blocks: seq<string>)
    ensures Plain(Mark(blocks)) == Print(blocks)
  {
    if |blocks| > 1 {
      PlainOfMark(blocks[1..]);
    }
  }

  ghost predicate PairedAt(m: seq<Sym>, i: nat)
    requires i < |m|
  {
    && (m[i].Sep1? ==> i + 1 < |m| && m[i + 1].Sep2?)
    && (m[i].Sep2? ==> 0 < i && m[i - 1].Sep1?)
  }

  /** Separators come in whole pairs. */
  ghost predicate Paired(m: seq<Sym>) { forall i | 0 <= i < |m| :: PairedAt(m, i) }

  lemma {:induction false} MarkIsPaired(blocks: seq<string>)
    ensures Paired(Mark(blocks))
  {
    if |blocks| > 1 {
      var head, rest := Chars(blocks[0]) + [Sep1, Sep2], Mark(blocks[1..]);
      MarkIsPaired(blocks[1..]);
      var m := Mark(blocks);
      assert m == head + rest;
      forall i | 0 <= i < |m| ensures PairedAt(m, i) {
        if |head| <= i {
          assert m[i] == rest[i - |head|] && PairedAt(rest, i - |head|);
        }
      }
    }
  }

  // ----- editing symbols -----

  /** An offset that belongs to some block: one not between the two halves of a separator. */
  predicate Carries(m: seq<Sym>, p: nat) {
    p <= |m| && (p < |m| ==> !m[p].Sep2?)
  }

  /** Where an insertion at `p` goes: past the separator it may stand in, and never past the end. */
  function Landing(m: seq<Sym>, p: nat): nat {
    if p >= |m| then |m| else if m[p].Sep2? then p + 1 else p
  }

  lemma LandingIsLeast(m: seq<Sym>, p: nat)
    requires Paired(m)
    ensures var e := Landing(m, p);
            && Carries(m, e)
            && (forall q: nat | p <= q && Carries(m, q) :: p <= e <= q)
            && ((forall q: nat | p <= q :: !Carries(m, q)) ==> e == |m|)
  {
    assert Carries(m, |m|);
    if p < |m| {
      assert PairedAt(m, p);
      if p + 1 < |m| {
        assert PairedAt(m, p + 1);
      }
    }
  }

  // ----- symbols in pieces -----

  function Flat(pieces: seq<seq<Sym>>): seq<Sym> {
    if pieces == [] then [] else pieces[0] + Flat(pieces[1..])
  }

  lemma {:induction false} FlatJoins(a: seq<seq<Sym>>, b: seq<seq<Sym>>)
    ensures Flat(a + b) == Flat(a) + Flat(b)
    decreases |a|
  {
    if a == [] {
      assert a + b == b;
    } else {
      FlatJoins(a[1..], b);
      assert (a + b)[1..] == a[1..] + b;
      Associate(a[0], Flat(a[1..]), Flat(b));
    }
  }

  lemma FlatAt(pieces: seq<seq<Sym>>, i: nat)
    requires i <= |pieces|
    ensures Flat(pieces) == Flat(pieces[..i]) + Flat(pieces[i..])
  {
    FlatJoins(pieces[..i], pieces[i..]);
    assert pieces[..i] + pieces[i..] == pieces;
  }

  /** Text put in front of one piece is found in front of what that piece begins. */
  lemma FlatWithOneLonger(a: seq<seq<Sym>>, b: seq<seq<Sym>>, k: nat, x: seq<Sym>)
    requires k < |a| == |b| && b[k] == x + a[k]
    requires forall i | 0 <= i < |a| && i != k :: a[i] == b[i]
    ensures Flat(b) == Flat(a[..k]) + (x + Flat(a[k..]))
  {
    FlatAt(b, k);
    assert b[..k] == a[..k] && b[k..][1..] == a[k..][1..];
    Associate(x, a[k], Flat(a[k..][1..]));
  }

  lemma FlatWithOtherFront(a: seq<seq<Sym>>, b: seq<seq<Sym>>, front: seq<seq<Sym>>)
    requires |front| <= |a| == |b|
    requires forall i | 0 <= i < |front| :: b[i] == front[i]
    requires forall i | |front| <= i < |a| :: b[i] == a[i]
    ensures Flat(b) == Flat(front) + Flat(a[|front|..])
  {
    FlatAt(b, |front|);
    assert b[..|front|] == front && b[|front|..] == a[|front|..];
  }

  lemma {:induction false} FlatSingles(pieces: seq<seq<Sym>>, m: seq<Sym>)
    requires |pieces| == |m| && forall i | 0 <= i < |m| :: pieces[i] == [m[i]]
    ensures Flat(pieces) == m
    decreases |m|
  {
    if m != [] {
      FlatSingles(pieces[1..], m[1..]);
      assert m == [m[0]] + m[1..];
    }
  }

  /** What is left of symbol `i` when the characters from `lo` to `hi` are dropped. */
  function DropPiece(m: seq<Sym>, lo: int, hi: int, i: nat): seq<Sym>
    requires i < |m|
  {
    if lo <= i < hi && m[i].Ch? then [] else [m[i]]
  }

  function DropFirst(m: seq<Sym>, lo: int, hi: int, n: nat): (pieces: seq<seq<Sym>>)
    requires n <= |m|
    ensures |pieces| == n && forall i | 0 <= i < n :: pieces[i] == DropPiece(m, lo, hi, i)
  {
    if n == 0 then [] else DropFirst(m, lo, hi, n - 1) + [DropPiece(m, lo, hi, n - 1)]
  }

  function DropPieces(m: seq<Sym>, lo: int, hi: int): (pieces: seq<seq<Sym>>)
    ensures |pieces| == |m| && forall i | 0 <= i < |m| :: pieces[i] == DropPiece(m, lo, hi, i)
  {
    DropFirst(m, lo, hi, |m|)
  }

  /** `m` without its characters in the offsets from `lo` to `hi`; separators stay. */
  function Drop(m: seq<Sym>, lo: int, hi: int): seq<Sym> { Flat(DropPieces(m, lo, hi)) }

  lemma DropJoins(a: seq<Sym>, b: seq<Sym>, lo: int, hi: int)
    ensures Drop(a + b, lo, hi) == Drop(a, lo, hi) + Drop(b, lo - |a|, hi - |a|)
  {
    FlatJoins(DropPieces(a, lo, hi), DropPieces(b, lo - |a|, hi - |a|));
    assert DropPieces(a + b, lo, hi) == DropPieces(a, lo, hi) + DropPieces(b, lo - |a|, hi - |a|);
  }

  lemma DropMisses(m: seq<Sym>, lo: int, hi: int)
    requires forall i | 0 <= i < |m| && lo <= i < hi :: !m[i].Ch?
    ensures Drop(m, lo, hi) == m
  {
    FlatSingles(DropPieces(m, lo, hi), m);
  }

  lemma DropInFront(a: seq<Sym>, b: seq<Sym>, lo: int)
    ensures Drop(a + b, lo, |a|) == Drop(a, lo, |a|) + b
  {
    DropJoins(a, b, lo, |a|);
    DropMisses(b, lo - |a|, 0);
  }

  lemma {:induction false} FlatNothing(pieces: seq<seq<Sym>>)
    requires forall i | 0 <= i < |pieces| :: pieces[i] == []
    ensures Flat(pieces) == []
  {
    if pieces != [] {
      FlatNothing(pieces[1..]);
    }
  }

  lemma DropEverything(m: seq<Sym>, lo: int, hi: int)
    requires lo <= 0 && |m| <= hi && forall i | 0 <= i < |m| :: m[i].Ch?
    ensures Drop(m, lo, hi) == []
  {
    FlatNothing(DropPieces(m, lo, hi));
  }
}
