/** Edits applied one after the other from the back of a document to its front have the
    effect of all of them applied at once to the original. */
module Simultaneous {
  import opened Marked
  import opened Sequences

  datatype Edit =
    | Ins(at: nat, payload: seq<Sym>)
    | Del(lo: nat, hi: nat)
    | Idle(at: nat)
  {
    function At(): nat { if Del? then lo else at }
  }

  function Step(m: seq<Sym>, e: Edit): seq<Sym> {
    match e
    case Ins(p, x) => m[..Landing(m, p)] + x + m[Landing(m, p)..]
    case Del(lo, hi) => Drop(m, lo, hi)
    case Idle(_) => m
  }

  function Steps(m: seq<Sym>, es: seq<Edit>): seq<Sym>
    decreases |es|
  {
    if es == [] then m else Step(Steps(m, es[..|es| - 1]), es[|es| - 1])
  }

  // ----- all at once -----

  /** Everything inserted at offset `p`; what comes later in the list stands further left. */
  ghost function Inserted(es: seq<Edit>, p: int): seq<Sym>
    decreases |es|
  {
    if es == [] then []
    else
      var last, rest := es[|es| - 1], Inserted(es[..|es| - 1], p);
      if last.Ins? && last.at == p then last.payload + rest else rest
  }

  ghost predicate Deleted(es: seq<Edit>, i: int) { exists e | e in es :: e.Del? && e.lo <= i < e.hi }

  /** Everything that ends up in front of symbol `i`. Text for the middle of a separator
      moves behind it. */
  ghost function InFront(m: seq<Sym>, es: seq<Edit>, i: nat): seq<Sym>
    requires i <= |m|
  {
    if i < |m| && m[i].Sep2? then []
    else if 0 < i && m[i - 1].Sep2? then Inserted(es, i - 1) + Inserted(es, i)
    else Inserted(es, i)
  }

  /** Symbol `i` in the result: kept unless it is a deleted character, and with everything
      inserted in front of it. */
  ghost function Piece(m: seq<Sym>, es: seq<Edit>, i: nat): seq<Sym>
    requires i <= |m|
  {
    if i == |m| || (m[i].Ch? && Deleted(es, i)) then InFront(m, es, i) else InFront(m, es, i) + [m[i]]
  }

  ghost function FirstPieces(m: seq<Sym>, es: seq<Edit>, n: nat): (pieces: seq<seq<Sym>>)
    requires n <= |m| + 1
    ensures |pieces| == n && forall i | 0 <= i < n :: pieces[i] == Piece(m, es, i)
  {
    if n == 0 then [] else FirstPieces(m, es, n - 1) + [Piece(m, es, n - 1)]
  }

  ghost function Pieces(m: seq<Sym>, es: seq<Edit>): (pieces: seq<seq<Sym>>)
    ensures |pieces| == |m| + 1 && forall i | 0 <= i <= |m| :: pieces[i] == Piece(m, es, i)
  {
    FirstPieces(m, es, |m| + 1)
  }

  /** The original with all edits carried out at once. */
  ghost function AtOnce(m: seq<Sym>, es: seq<Edit>): seq<Sym> { Flat(Pieces(m, es)) }

  // ----- which lists of edits -----

  /** In bounds; a deletion is not empty; inserted text does not begin inside a separator. */
  ghost predicate Fits(m: seq<Sym>, e: Edit) {
    && (e.Ins? ==> e.at <= |m| && (e.payload != [] ==> !e.payload[0].Sep2?))
    && (e.Del? ==> e.lo < e.hi <= |m|)
  }

  /** Two deletions are disjoint; an insertion is not strictly inside a deletion. */
  ghost predicate Clear(a: Edit, b: Edit) {
    && (a.Del? && b.Del? ==> a.hi <= b.lo || b.hi <= a.lo)
    && (a.Del? && b.Ins? ==> b.at <= a.lo || a.hi <= b.at)
    && (a.Ins? && b.Del? ==> a.at <= b.lo || b.hi <= a.at)
  }

  ghost predicate Compatible(m: seq<Sym>, es: seq<Edit>) {
    && (forall e | e in es :: Fits(m, e))
    && (forall i, j | 0 <= i < j < |es| :: Clear(es[i], es[j]))
  }

  /** The effect depends only on what is inserted and deleted at each offset. */
  lemma SameEffect(m: seq<Sym>, es: seq<Edit>, fs: seq<Edit>)
    requires forall p: int :: Inserted(es, p) == Inserted(fs, p)
    requires forall p: int :: Deleted(es, p) <==> Deleted(fs, p)
    ensures AtOnce(m, es) == AtOnce(m, fs)
  {
    forall i | 0 <= i <= |m| ensures Piece(m, es, i) == Piece(m, fs, i) {
    }
    assert Pieces(m, es) == Pieces(m, fs);
  }

  /** Later edits first; at one offset, deletions before insertions. */
  ghost predicate BackToFront(es: seq<Edit>) {
    forall i, j | 0 <= i < j < |es| :: es[j].At() <= es[i].At() && (es[j].At() == es[i].At() && es[i].Ins? ==> !es[j].Del?)
  }

  /** Every edit works at or behind offset `q`. */
  ghost predicate From(es: seq<Edit>, q: nat) { forall e | e in es && !e.Idle? :: q <= e.At() }

  lemma {:induction false} NothingInserted(es: seq<Edit>, p: int)
    requires forall e | e in es && e.Ins? :: e.at != p
    ensures Inserted(es, p) == []
    decreases |es|
  {
    if es != [] {
      NothingInserted(es[..|es| - 1], p);
    }
  }

  lemma {:induction false} InsertedStartsWhole(es: seq<Edit>, p: int)
    requires forall e | e in es && e.Ins? :: e.payload != [] ==> !e.payload[0].Sep2?
    ensures Inserted(es, p) != [] ==> !Inserted(es, p)[0].Sep2?
    decreases |es|
  {
    if es != [] {
      InsertedStartsWhole(es[..|es| - 1], p);
    }
  }

  /** The original is untouched in front of the first edit. */
  lemma UntouchedPiece(m: seq<Sym>, es: seq<Edit>, i: nat)
    requires i < |m| && From(es, if m[i].Sep2? then i else i + 1)
    ensures Piece(m, es, i) == [m[i]]
  {
    assert !m[i].Sep2? ==> !Deleted(es, i);
    NothingInserted(es, i - 1);
    if !m[i].Sep2? {
      NothingInserted(es, i);
    }
  }

  lemma Untouched(m: seq<Sym>, es: seq<Edit>, q: nat)
    requires q <= |m| && (From(es, q) || (0 < q && m[q - 1].Sep2? && From(es, q - 1)))
    ensures Flat(Pieces(m, es)[..q]) == m[..q]
    ensures AtOnce(m, es) == m[..q] + Flat(Pieces(m, es)[q..])
  {
    forall i | 0 <= i < q ensures Pieces(m, es)[..q][i] == [m[i]] {
      UntouchedPiece(m, es, i);
    }
    FlatSingles(Pieces(m, es)[..q], m[..q]);
    FlatAt(Pieces(m, es), q);
  }

  lemma {:induction false} StartsWhole(m: seq<Sym>, es: seq<Edit>, i: nat)
    requires Paired(m) && Compatible(m, es) && Carries(m, i)
    ensures var rest := Flat(Pieces(m, es)[i..]); rest != [] ==> !rest[0].Sep2?
    decreases |m| - i
  {
    InsertedStartsWhole(es, i - 1);
    InsertedStartsWhole(es, i);
    var rest := Pieces(m, es)[i..];
    assert rest[0] == Piece(m, es, i) && rest[1..] == Pieces(m, es)[i + 1..];
    if i < |m| && rest[0] == [] {
      assert PairedAt(m, i) && (i + 1 < |m| ==> PairedAt(m, i + 1));
      StartsWhole(m, es, i + 1);
    }
  }

  // ----- one more edit, further to the front -----

  lemma Added(es: seq<Edit>, e: Edit, p: int)
    ensures Inserted(es + [e], p) == if e.Ins? && e.at == p then e.payload + Inserted(es, p) else Inserted(es, p)
    ensures Deleted(es + [e], p) <==> Deleted(es, p) || (e.Del? && e.lo <= p < e.hi)
  {
    assert (es + [e])[..|es|] == es;
    assert forall x :: x in es + [e] <==> x in es || x == e;
  }

  lemma SamePiece(m: seq<Sym>, es: seq<Edit>, e: Edit, i: nat)
    requires i <= |m|
    requires e.Ins? ==> i != (if e.at < |m| && m[e.at].Sep2? then e.at + 1 else e.at)
    requires e.Del? ==> i < e.lo || e.hi <= i
    ensures Piece(m, es + [e], i) == Piece(m, es, i)
  {
    Added(es, e, i - 1);
    Added(es, e, i);
  }

  lemma AddInsertion(m: seq<Sym>, es: seq<Edit>, e: Edit)
    requires Paired(m) && Compatible(m, es) && From(es, e.At())
    requires e.Ins? && e.at <= |m|
    ensures Step(AtOnce(m, es), e) == AtOnce(m, es + [e])
  {
    var landing := Landing(m, e.at);
    Untouched(m, es, landing);
    OneLongerPiece(m, es, e);
    SameLanding(m, es, e.at);
    Splice(m[..landing], e.payload, Flat(Pieces(m, es)[landing..]));
  }

  lemma OneLongerPiece(m: seq<Sym>, es: seq<Edit>, e: Edit)
    requires Paired(m) && From(es, e.At()) && e.Ins? && e.at <= |m|
    ensures var landing, before := Landing(m, e.at), Pieces(m, es);
            AtOnce(m, es + [e]) == Flat(before[..landing]) + (e.payload + Flat(before[landing..]))
  {
    var landing := Landing(m, e.at);
    var before, after := Pieces(m, es), Pieces(m, es + [e]);
    forall i | 0 <= i <= |m| && i != landing ensures after[i] == before[i] {
      SamePiece(m, es, e, i);
    }
    LandsInPiece(m, es, e);
    FlatWithOneLonger(before, after, landing, e.payload);
  }

  lemma LandsInFront(m: seq<Sym>, es: seq<Edit>, e: Edit)
    requires Paired(m) && From(es, e.At()) && e.Ins? && e.at <= |m|
    ensures InFront(m, es + [e], Landing(m, e.at)) == e.payload + InFront(m, es, Landing(m, e.at))
  {
    var i := Landing(m, e.at);
    Added(es, e, i - 1);
    Added(es, e, i);
    if i != e.at {
      assert i < |m| ==> PairedAt(m, i);
      Associate(e.payload, Inserted(es, e.at), Inserted(es, i));
    } else if 0 < i && m[i - 1].Sep2? {
      NothingInserted(es, i - 1);
      NothingFirst([], Inserted(es, i));
      NothingFirst([], e.payload + Inserted(es, i));
    }
  }

  lemma LandsInPiece(m: seq<Sym>, es: seq<Edit>, e: Edit)
    requires Paired(m) && From(es, e.At()) && e.Ins? && e.at <= |m|
    ensures Piece(m, es + [e], Landing(m, e.at)) == e.payload + Piece(m, es, Landing(m, e.at))
  {
    var i := Landing(m, e.at);
    LandsInFront(m, es, e);
    Added(es, e, i);
    if i < |m| {
      Associate(e.payload, InFront(m, es, i), [m[i]]);
    }
  }

  lemma SameLanding(m: seq<Sym>, es: seq<Edit>, p: nat)
    requires Paired(m) && Compatible(m, es) && From(es, p) && p <= |m|
    ensures Landing(AtOnce(m, es), p) == Landing(m, p)
  {
    Untouched(m, es, Landing(m, p));
    if Carries(m, p) {
      StartsWhole(m, es, p);
    } else {
      assert AtOnce(m, es)[p] == m[p];
    }
  }

  lemma Splice(a: seq<Sym>, x: seq<Sym>, b: seq<Sym>)
    ensures (a + b)[..|a|] + x + (a + b)[|a|..] == a + (x + b)
  {
    assert (a + b)[..|a|] == a && (a + b)[|a|..] == b;
  }

  lemma AddDeletion(m: seq<Sym>, es: seq<Edit>, e: Edit)
    requires e.Del? && e.lo < e.hi <= |m| && From(es, e.hi)
    ensures Step(AtOnce(m, es), e) == AtOnce(m, es + [e])
  {
    var before, after := Pieces(m, es), Pieces(m, es + [e]);
    Untouched(m, es, e.hi);
    DropInFront(m[..e.hi], Flat(before[e.hi..]), e.lo);
    forall i | e.hi <= i <= |m| ensures after[i] == before[i] {
      SamePiece(m, es, e, i);
    }
    forall i | 0 <= i < e.hi ensures after[i] == DropPiece(m[..e.hi], e.lo, e.hi, i) {
      DeletedPiece(m, es, e, i);
    }
    FlatWithOtherFront(before, after, DropPieces(m[..e.hi], e.lo, e.hi));
  }

  lemma DeletedPiece(m: seq<Sym>, es: seq<Edit>, e: Edit, i: nat)
    requires e.Del? && i < e.hi <= |m| && From(es, e.hi)
    ensures Piece(m, es + [e], i) == if e.lo <= i && m[i].Ch? then [] else [m[i]]
  {
    UntouchedPiece(m, es, i);
    Added(es, e, i - 1);
    Added(es, e, i);
    NothingInserted(es, i - 1);
    NothingInserted(es, i);
  }

  lemma AddIdle(m: seq<Sym>, es: seq<Edit>, e: Edit)
    requires e.Idle?
    ensures AtOnce(m, es) == AtOnce(m, es + [e])
  {
    forall i | 0 <= i <= |m| ensures Piece(m, es + [e], i) == Piece(m, es, i) {
      SamePiece(m, es, e, i);
    }
    assert Pieces(m, es + [e]) == Pieces(m, es);
  }

  lemma LastComesFirst(m: seq<Sym>, es: seq<Edit>, e: Edit)
    requires Compatible(m, es + [e]) && BackToFront(es + [e])
    ensures Compatible(m, es) && BackToFront(es)
    ensures From(es, if e.Del? then e.hi else e.At())
  {
    var all := es + [e];
    assert forall i | 0 <= i < |es| :: all[i] == es[i];
    assert forall x | x in es :: x in all;
    forall x | x in es && !x.Idle? ensures (if e.Del? then e.hi else e.At()) <= x.At() {
      var i :| 0 <= i < |es| && es[i] == x;
      assert all[i] == x && all[|es|] == e;
      assert Clear(x, e) && Fits(m, e) && Fits(m, x);
    }
  }

  /** Applying compatible edits in order from back to front does what applying all of them
      at once to the original does. */
  lemma {:induction false} BackToFrontIsAtOnce(m: seq<Sym>, es: seq<Edit>)
    requires Paired(m) && Compatible(m, es) && BackToFront(es)
    ensures Steps(m, es) == AtOnce(m, es)
    decreases |es|
  {
    if es == [] {
      UntouchedEnd(m);
    } else {
      var first, e := es[..|es| - 1], es[|es| - 1];
      assert es == first + [e];
      assert Fits(m, e);
      LastComesFirst(m, first, e);
      BackToFrontIsAtOnce(m, first);
      match e
      case Ins(_, _) => AddInsertion(m, first, e);
      case Idle(_) => AddIdle(m, first, e);
      case Del(_, _) => AddDeletion(m, first, e);
    }
  }

  lemma UntouchedEnd(m: seq<Sym>)
    ensures AtOnce(m, []) == m
  {
    Untouched(m, [], |m|);
    var last := Pieces(m, [])[|m|..];
    assert last == [Piece(m, [], |m|)] && last[1..] == [];
    assert m[..|m|] == m;
  }
}
