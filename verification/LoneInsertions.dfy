/** Lists of insertions alone on paragraph documents: exactly when applying them in list
    order does what all of them do at once. An offset that stands inside a separator, once
    something is inserted in front of it, lands behind the separator; so a list may rise
    over a separator by one character and still do the right thing. */
module LoneInsertions {
  import opened AiOps
  import opened Wrappers
  import opened BlockText
  import opened Marked
  import opened Simultaneous
  import opened EditOrder
  import opened Paragraphs
  import opened ParagraphEdits
  import opened Weights
  import opened Sequences

  // ----- where insertions land in the original -----

  ghost predicate AllChars(x: seq<Sym>) { forall i | 0 <= i < |x| :: x[i].Ch? }

  /** Insertions of text without a separator, at offsets of `m`. */
  ghost predicate Insertions(m: seq<Sym>, es: seq<Edit>) {
    forall i | 0 <= i < |es| :: es[i].Ins? && es[i].at <= |m| && AllChars(es[i].payload)
  }

  /** They are not empty and share no symbol with `m`. */
  ghost predicate AllForeign(m: seq<Sym>, es: seq<Edit>) {
    forall i | 0 <= i < |es| :: es[i].Ins? && es[i].payload != [] && Foreign(es[i].payload, m)
  }

  function LandedAt(m: seq<Sym>, e: Edit): Edit { if e.Ins? then Ins(Landing(m, e.at), e.payload) else e }

  /** Every insertion moved to where it lands in the original. */
  function Landed(m: seq<Sym>, es: seq<Edit>): (fs: seq<Edit>)
    ensures |fs| == |es| && forall i | 0 <= i < |es| :: fs[i] == LandedAt(m, es[i])
  {
    seq(|es|, i requires 0 <= i < |es| => LandedAt(m, es[i]))
  }

  ghost predicate OnLandings(m: seq<Sym>, fs: seq<Edit>) {
    Insertions(m, fs) && forall i | 0 <= i < |fs| :: fs[i].at < |m| ==> !m[fs[i].at].Sep2?
  }

  lemma LandedOnLandings(m: seq<Sym>, es: seq<Edit>)
    requires Paired(m) && Insertions(m, es)
    ensures OnLandings(m, Landed(m, es))
  {
    forall i | 0 <= i < |es| ensures var at := Landed(m, es)[i].at; at <= |m| && (at < |m| ==> !m[at].Sep2?) {
      assert es[i].at < |m| ==> PairedAt(m, es[i].at);
      assert es[i].at + 1 < |m| ==> PairedAt(m, es[i].at + 1);
    }
  }

  /** How much is inserted in front of offset `q`. */
  ghost function InsertedBefore(es: seq<Edit>, q: int): nat
    decreases |es|
  {
    if es == [] then 0
    else
      var last := es[|es| - 1];
      InsertedBefore(es[..|es| - 1], q) + if last.Ins? && last.at < q then |last.payload| else 0
  }

  lemma {:induction false} NextInserted(es: seq<Edit>, q: int)
    ensures InsertedBefore(es, q + 1) == InsertedBefore(es, q) + |Inserted(es, q)|
    decreases |es|
  {
    if es != [] {
      NextInserted(es[..|es| - 1], q);
    }
  }

  lemma {:induction false} NoneBefore(es: seq<Edit>, q: int)
    requires forall i | 0 <= i < |es| && es[i].Ins? :: q <= es[i].at
    ensures InsertedBefore(es, q) == 0
    decreases |es|
  {
    if es != [] {
      NoneBefore(es[..|es| - 1], q);
    }
  }

  lemma {:induction false} SomeBefore(es: seq<Edit>, q: int, i: nat)
    requires i < |es| && es[i].Ins? && es[i].at < q
    ensures InsertedBefore(es, q) >= |es[i].payload|
    decreases |es|
  {
    if i < |es| - 1 {
      SomeBefore(es[..|es| - 1], q, i);
    }
  }

  lemma {:induction false} InsertedIsChars(es: seq<Edit>, p: int)
    requires forall i | 0 <= i < |es| :: es[i].Ins? && AllChars(es[i].payload)
    ensures AllChars(Inserted(es, p))
    decreases |es|
  {
    if es != [] {
      InsertedIsChars(es[..|es| - 1], p);
    }
  }

  lemma {:induction false} InsertedIsForeign(m: seq<Sym>, es: seq<Edit>, p: int)
    requires AllForeign(m, es)
    ensures Foreign(Inserted(es, p), m)
    decreases |es|
  {
    if es != [] {
      InsertedIsForeign(m, es[..|es| - 1], p);
    }
  }

  // ----- the simultaneous edit, piece by piece -----

  lemma NothingDeleted(m: seq<Sym>, fs: seq<Edit>, i: nat)
    requires Insertions(m, fs)
    ensures !Deleted(fs, i)
  {
    forall e | e in fs ensures e.Ins? {
      var k :| 0 <= k < |fs| && fs[k] == e;
    }
  }

  lemma NoneInside(m: seq<Sym>, fs: seq<Edit>, p: nat)
    requires OnLandings(m, fs) && p < |m| && m[p].Sep2?
    ensures Inserted(fs, p) == []
  {
    forall e | e in fs && e.Ins? ensures e.at != p {
      var k :| 0 <= k < |fs| && fs[k] == e;
    }
    NothingInserted(fs, p);
  }

  lemma LandedPiece(m: seq<Sym>, fs: seq<Edit>, i: nat)
    requires OnLandings(m, fs) && i <= |m|
    ensures Piece(m, fs, i) == if i < |m| then Inserted(fs, i) + [m[i]] else Inserted(fs, i)
  {
    NothingDeleted(m, fs, i);
    if i < |m| && m[i].Sep2? {
      NoneInside(m, fs, i);
    } else if 0 < i && m[i - 1].Sep2? {
      NoneInside(m, fs, i - 1);
      NothingFirst([], Inserted(fs, i));
    }
  }

  /** What the simultaneous edit puts in front of offset `i`. */
  ghost function Head(m: seq<Sym>, fs: seq<Edit>, i: nat): seq<Sym>
    requires i <= |m|
  {
    Flat(Pieces(m, fs)[..i])
  }

  ghost function Tail(m: seq<Sym>, fs: seq<Edit>, i: nat): seq<Sym>
    requires i <= |m|
  {
    Flat(Pieces(m, fs)[i..])
  }

  lemma HeadAndTail(m: seq<Sym>, fs: seq<Edit>, i: nat)
    requires i <= |m|
    ensures AtOnce(m, fs) == Head(m, fs, i) + Tail(m, fs, i)
  {
    FlatAt(Pieces(m, fs), i);
  }

  lemma NextHead(m: seq<Sym>, fs: seq<Edit>, i: nat)
    requires OnLandings(m, fs) && i < |m|
    ensures Head(m, fs, i + 1) == Head(m, fs, i) + (Inserted(fs, i) + [m[i]])
  {
    var ps := Pieces(m, fs);
    assert ps[..i + 1] == ps[..i] + [ps[i]];
    FlatJoins(ps[..i], [ps[i]]);
    FlatOne(ps[i]);
    LandedPiece(m, fs, i);
  }

  lemma FlatOne(piece: seq<Sym>)
    ensures Flat([piece]) == piece
  {
    assert [piece][1..] == [];
  }

  ghost predicate EndsWith(x: seq<Sym>, c: Sym) { x != [] && x[|x| - 1] == c }

  lemma EndsWithLast(a: seq<Sym>, b: seq<Sym>, c: Sym)
    ensures EndsWith(a + (b + [c]), c) && |a + (b + [c])| == |a| + |b| + 1
  {
  }

  /** In front of offset `i` stand the first `i` symbols of the original, the last of them at
      the end, and all that is inserted in front of it. */
  lemma {:induction false} HeadLength(m: seq<Sym>, fs: seq<Edit>, i: nat)
    requires OnLandings(m, fs) && i <= |m|
    ensures |Head(m, fs, i)| == i + InsertedBefore(fs, i)
    ensures i > 0 ==> EndsWith(Head(m, fs, i), m[i - 1])
  {
    if i == 0 {
      NothingBeforeStart(m, fs);
    } else {
      hide Head, InsertedBefore, Inserted, OnLandings, EndsWith;
      HeadLength(m, fs, i - 1);
      NextHead(m, fs, i - 1);
      NextInserted(fs, i - 1);
      EndsWithLast(Head(m, fs, i - 1), Inserted(fs, i - 1), m[i - 1]);
    }
  }

  lemma NothingBeforeStart(m: seq<Sym>, fs: seq<Edit>)
    requires OnLandings(m, fs)
    ensures Head(m, fs, 0) == [] && InsertedBefore(fs, 0) == 0
  {
    NoneBefore(fs, 0);
    assert Pieces(m, fs)[..0] == [];
  }

  lemma {:induction false} HeadOriginals(m: seq<Sym>, fs: seq<Edit>, i: nat)
    requires OnLandings(m, fs) && AllForeign(m, fs) && i <= |m|
    ensures Originals(Head(m, fs, i), m) == i
  {
    if i == 0 {
      NothingBeforeStart(m, fs);
    } else {
      hide Head, OnLandings, AllForeign;
      HeadOriginals(m, fs, i - 1);
      NextHead(m, fs, i - 1);
      InsertedIsForeign(m, fs, i - 1);
      OriginalsAtMost(Inserted(fs, i - 1), m);
      OriginalsSnoc(Inserted(fs, i - 1), m[i - 1], m);
      OriginalsJoin(Head(m, fs, i - 1), Inserted(fs, i - 1) + [m[i - 1]], m);
      hide Originals, Inserted;
    }
  }

  lemma TailStartsWhole(m: seq<Sym>, fs: seq<Edit>, i: nat)
    requires Paired(m) && OnLandings(m, fs) && i <= |m| && (i < |m| ==> !m[i].Sep2?)
    ensures Tail(m, fs, i) != [] ==> !Tail(m, fs, i)[0].Sep2?
  {
    var rest := Pieces(m, fs)[i..];
    assert rest[0] == Piece(m, fs, i);
    LandedPiece(m, fs, i);
    InsertedIsChars(fs, i);
    var inserted := Inserted(fs, i);
    hide Inserted, Pieces, OnLandings;
    assert Tail(m, fs, i) == rest[0] + Flat(rest[1..]);
    if i == |m| {
      assert rest[1..] == [];
      assert Tail(m, fs, i) == inserted;
    } else {
      assert rest[0][0] == if inserted == [] then m[i] else inserted[0];
      assert Tail(m, fs, i)[0] == rest[0][0];
    }
  }

  /** One more insertion at a landing offset goes between the two. */
  lemma OneMore(m: seq<Sym>, fs: seq<Edit>, e: Edit)
    requires OnLandings(m, fs) && OnLandings(m, [e]) && e.Ins? && e.at <= |m|
    ensures OnLandings(m, fs + [e])
    ensures AtOnce(m, fs + [e]) == Head(m, fs, e.at) + (e.payload + Tail(m, fs, e.at))
  {
    var after := fs + [e];
    assert [e][0] == e && e.at <= |m|;
    forall i | 0 <= i < |after| ensures after[i].Ins? && after[i].at <= |m| && AllChars(after[i].payload)
                                        && (after[i].at < |m| ==> !m[after[i].at].Sep2?) {
      assert i < |fs| ==> after[i] == fs[i];
    }
    forall i | 0 <= i <= |m| && i != e.at ensures Pieces(m, after)[i] == Pieces(m, fs)[i] {
      OneMorePiece(m, fs, e, i);
    }
    OneMorePiece(m, fs, e, e.at);
    FlatWithOneLonger(Pieces(m, fs), Pieces(m, after), e.at, e.payload);
  }

  lemma OneMorePiece(m: seq<Sym>, fs: seq<Edit>, e: Edit, i: nat)
    requires OnLandings(m, fs) && OnLandings(m, fs + [e]) && e.Ins? && i <= |m|
    ensures Piece(m, fs + [e], i) == if i == e.at then e.payload + Piece(m, fs, i) else Piece(m, fs, i)
  {
    LandedPiece(m, fs, i);
    LandedPiece(m, fs + [e], i);
    Simultaneous.Added(fs, e, i);
    hide Piece, Inserted, OnLandings;
    if i < |m| {
      Associate(e.payload, Inserted(fs, i), [m[i]]);
    }
  }

  // ----- where the next insertion of a run lands -----

  /** After `front`, an insertion at `p` lands where it lands in the original: nothing was
      inserted in front of that, or one character was, and `p` stands directly behind a
      separator. */
  ghost predicate WellPlaced(m: seq<Sym>, front: seq<Edit>, p: nat) {
    var shift := InsertedBefore(Landed(m, front), Landing(m, p));
    shift == 0 || (shift == 1 && 0 < p <= |m| && m[p - 1].Sep2?)
  }

  /** What stands at an offset of a head, and at its end. */
  lemma AtHead(now: seq<Sym>, head: seq<Sym>, tail: seq<Sym>, p: nat)
    requires now == head + tail
    ensures p < |head| ==> p < |now| && now[p] == head[p]
    ensures p == |head| && p < |now| ==> tail != [] && now[p] == tail[0]
    ensures |head| <= |now|
  {
  }

  lemma LandsWell(m: seq<Sym>, front: seq<Edit>, p: nat)
    requires Paired(m) && Insertions(m, front) && p <= |m| && WellPlaced(m, front, p)
    ensures var fs := Landed(m, front); Landing(AtOnce(m, fs), p) == |Head(m, fs, Landing(m, p))|
  {
    var fs, at := Landed(m, front), Landing(m, p);
    assert p < |m| ==> PairedAt(m, p);
    assert p + 1 < |m| ==> PairedAt(m, p + 1);
    LandedOnLandings(m, front);
    hide Insertions, Landed, Paired, OnLandings, AtOnce, Head, Tail, InsertedBefore;
    HeadLength(m, fs, at);
    HeadAndTail(m, fs, at);
    assert at < |m| ==> !m[at].Sep2?;
    TailStartsHere(m, fs, at);
    var now, head := AtOnce(m, fs), Head(m, fs, at);
    AtHead(now, head, Tail(m, fs, at), p);
    LandsBehindHead(m, now, head, p, InsertedBefore(fs, at));
  }

  lemma TailStartsHere(m: seq<Sym>, fs: seq<Edit>, at: nat)
    requires Paired(m) && OnLandings(m, fs) && at <= |m| && (at < |m| ==> !m[at].Sep2?)
    ensures Tail(m, fs, at) != [] ==> !Tail(m, fs, at)[0].Sep2?
  {
    TailStartsWhole(m, fs, at);
  }

  lemma LandsBehindHead(m: seq<Sym>, now: seq<Sym>, head: seq<Sym>, p: nat, shift: nat)
    requires p <= |m| && (p < |m| && m[p].Sep2? ==> p > 0 && m[p - 1].Sep1?)
    requires |head| == Landing(m, p) + shift && |head| <= |now|
    requires Landing(m, p) > 0 ==> EndsWith(head, m[Landing(m, p) - 1])
    requires p < |head| ==> now[p] == head[p]
    requires p == |head| && p < |now| ==> !now[p].Sep2?
    requires shift == 0 || (shift == 1 && 0 < p && m[p - 1].Sep2?)
    ensures Landing(now, p) == |head|
  {
  }

  lemma OriginalsOfPart(x: seq<Sym>, m: seq<Sym>, n: nat)
    requires n < |x| && x[|x| - 1] in m
    ensures Originals(x[..n], m) < Originals(x, m)
  {
    var rest := x[n..|x| - 1];
    OriginalsSnoc(x[..|x| - 1], x[|x| - 1], m);
    assert x == x[..|x| - 1] + [x[|x| - 1]] && x[..|x| - 1] == x[..n] + rest;
    OriginalsJoin(x[..n], rest, m);
  }

  lemma LandsBeforeHead(m: seq<Sym>, now: seq<Sym>, head: seq<Sym>, p: nat, shift: nat)
    requires p <= |m| && |head| == Landing(m, p) + shift && shift > 0 && |head| <= |now|
    requires Landing(m, p) > 0 && EndsWith(head, m[Landing(m, p) - 1])
    requires p < |head| ==> now[p] == head[p]
    requires !(shift == 1 && 0 < p && m[p - 1].Sep2?)
    ensures Landing(now, p) < |head|
  {
  }

  lemma FewerInPart(m: seq<Sym>, now: seq<Sym>, head: seq<Sym>, tail: seq<Sym>, n: nat)
    requires now == head + tail && n < |head| && exists c :: EndsWith(head, c) && c in m
    ensures Originals(now[..n], m) < Originals(head, m)
  {
    hide Originals;
    assert now[..n] == head[..n];
    OriginalsOfPart(head, m, n);
  }

  /** If it does not, it lands behind fewer of the original's symbols. */
  lemma LandsShort(m: seq<Sym>, front: seq<Edit>, p: nat)
    requires Paired(m) && Insertions(m, front) && AllForeign(m, front) && p <= |m| && !WellPlaced(m, front, p)
    ensures var now := AtOnce(m, Landed(m, front));
            Landing(now, p) <= |now| && Originals(now[..Landing(now, p)], m) < Landing(m, p)
  {
    var fs, at := Landed(m, front), Landing(m, p);
    assert at <= |m|;
    LandedOnLandings(m, front);
    LandedForeign(m, front);
    hide Paired, AllForeign, Insertions, Landed;
    HeadLength(m, fs, at);
    HeadOriginals(m, fs, at);
    HeadAndTail(m, fs, at);
    NothingBeforeStart(m, fs);
    var now, head := AtOnce(m, fs), Head(m, fs, at);
    hide AtOnce, Head, Tail, OnLandings, InsertedBefore, Originals;
    AtHead(now, head, Tail(m, fs, at), p);
    LandsBeforeHead(m, now, head, p, InsertedBefore(fs, at));
    FewerInPart(m, now, head, Tail(m, fs, at), Landing(now, p));
  }

  lemma LandedForeign(m: seq<Sym>, es: seq<Edit>)
    requires AllForeign(m, es)
    ensures AllForeign(m, Landed(m, es))
  {
  }

  // ----- whole runs -----

  ghost predicate AllWellPlaced(m: seq<Sym>, es: seq<Edit>)
    requires Insertions(m, es)
  {
    forall j | 0 <= j < |es| :: WellPlaced(m, es[..j], es[j].at)
  }

  lemma WellPlacedSnoc(m: seq<Sym>, front: seq<Edit>, e: Edit)
    requires Insertions(m, front + [e])
    ensures Insertions(m, front) && e.Ins? && e.at <= |m| && AllChars(e.payload)
    ensures AllWellPlaced(m, front + [e]) <==> AllWellPlaced(m, front) && WellPlaced(m, front, e.at)
  {
    var all := front + [e];
    hide WellPlaced;
    assert all[|front|] == e && all[..|front|] == front;
    assert forall j | 0 <= j < |front| :: all[j] == front[j] && all[..j] == front[..j];
    if AllWellPlaced(m, front) && WellPlaced(m, front, e.at) {
      forall j | 0 <= j < |all| ensures WellPlaced(m, all[..j], all[j].at) {
        assert j < |front| ==> WellPlaced(m, front[..j], front[j].at);
      }
    }
    if AllWellPlaced(m, all) {
      forall j | 0 <= j < |front| ensures WellPlaced(m, front[..j], front[j].at) {
        assert WellPlaced(m, all[..j], all[j].at);
      }
      assert WellPlaced(m, all[..|front|], all[|front|].at);
    }
  }

  lemma StepsSnoc(m: seq<Sym>, front: seq<Edit>, e: Edit)
    ensures Steps(m, front + [e]) == Step(Steps(m, front), e)
  {
    assert (front + [e])[..|front|] == front;
  }

  lemma AtOnceNothing(m: seq<Sym>)
    ensures AtOnce(m, []) == m
  {
    forall i | 0 <= i < |m| ensures Pieces(m, [])[i] == [m[i]] {
    }
    var ps := Pieces(m, []);
    FlatSingles(ps[..|m|], m);
    FlatAt(ps, |m|);
    assert ps[|m|..] == [[]];
    FlatOne([]);
  }

  lemma StepLands(m: seq<Sym>, front: seq<Edit>, e: Edit)
    requires Paired(m) && Insertions(m, front + [e]) && e.Ins? && WellPlaced(m, front, e.at)
    ensures Step(AtOnce(m, Landed(m, front)), e) == AtOnce(m, Landed(m, front + [e]))
  {
    var fs, at := Landed(m, front), Landing(m, e.at);
    assert (front + [e])[|front|] == e && forall i | 0 <= i < |front| :: (front + [e])[i] == front[i];
    assert Insertions(m, front) && Insertions(m, [e]);
    assert Landed(m, front + [e]) == fs + [LandedAt(m, e)] && Landed(m, [e]) == [LandedAt(m, e)];
    LandedOnLandings(m, front);
    LandedOnLandings(m, [e]);
    LandsWell(m, front, e.at);
    HeadAndTail(m, fs, at);
    OneMore(m, fs, LandedAt(m, e));
    hide AtOnce, Head, Tail, Landed, Insertions, OnLandings, WellPlaced;
    Splice(Head(m, fs, at), e.payload, Tail(m, fs, at));
  }

  /** A list whose insertions all land where they land in the original does what these do
      at once, moved to where they land. */
  lemma {:induction false} RunLands(m: seq<Sym>, es: seq<Edit>)
    requires Paired(m) && Insertions(m, es) && AllWellPlaced(m, es)
    ensures Steps(m, es) == AtOnce(m, Landed(m, es))
    decreases |es|
  {
    if es == [] {
      AtOnceNothing(m);
    } else {
      var front, e := es[..|es| - 1], es[|es| - 1];
      assert es == front + [e];
      WellPlacedSnoc(m, front, e);
      StepsSnoc(m, front, e);
      hide AtOnce, Steps, Step, Landed, Insertions, AllWellPlaced, WellPlaced, Paired;
      RunLands(m, front);
      StepLands(m, front, e);
    }
  }

  // ----- how far back the foreign text stands -----

  /** The symbols of `r` that the original has, in order. */
  ghost function Own(r: seq<Sym>, m: seq<Sym>): seq<Sym>
    decreases |r|
  {
    if r == [] then [] else Own(r[..|r| - 1], m) + if r[|r| - 1] in m then [r[|r| - 1]] else []
  }

  lemma {:induction false} OwnJoin(a: seq<Sym>, b: seq<Sym>, m: seq<Sym>)
    ensures Own(a + b, m) == Own(a, m) + Own(b, m)
    decreases |b|
  {
    if b == [] {
      assert a + b == a;
      NothingLast(Own(a, m), []);
    } else {
      var front, c := b[..|b| - 1], b[|b| - 1];
      OwnJoin(a, front, m);
      assert a + b == (a + front) + [c] && (a + b)[..|a + b| - 1] == a + front;
      Associate(Own(a, m), Own(front, m), if c in m then [c] else []);
    }
  }

  lemma {:induction false} OwnParts(r: seq<Sym>, m: seq<Sym>)
    ensures |Own(r, m)| == Originals(r, m)
    ensures Originals(r, m) == |r| ==> Own(r, m) == r
    ensures Foreign(r, m) ==> Own(r, m) == []
    decreases |r|
  {
    OriginalsAtMost(r, m);
    if r != [] {
      var front, c := r[..|r| - 1], r[|r| - 1];
      assert r == front + [c];
      OwnParts(front, m);
      OriginalsAtMost(front, m);
    }
  }

  lemma {:induction false} OwnOfItself(r: seq<Sym>, m: seq<Sym>)
    requires forall i | 0 <= i < |r| :: r[i] in m
    ensures Own(r, m) == r
    decreases |r|
  {
    if r != [] {
      OwnOfItself(r[..|r| - 1], m);
    }
  }

  lemma StepKeepsOwn(m: seq<Sym>, now: seq<Sym>, e: Edit)
    requires e.Ins? && Foreign(e.payload, m) && Own(now, m) == m && Landing(now, e.at) <= |now|
    ensures Own(Step(now, e), m) == m
  {
    var l := Landing(now, e.at);
    assert now == now[..l] + now[l..];
    OwnParts(e.payload, m);
    hide Own, Landing;
    OwnJoin(now[..l], now[l..], m);
    OwnJoin(now[..l] + e.payload, now[l..], m);
    OwnJoin(now[..l], e.payload, m);
    NothingLast(Own(now[..l], m), []);
  }

  lemma LandsInside(now: seq<Sym>, p: nat)
    ensures Landing(now, p) <= |now|
  {
  }

  /** Wherever an insertion lands, it lands behind no more of the original's symbols than it
      does in the original. */
  lemma LandsAtMost(m: seq<Sym>, now: seq<Sym>, p: nat)
    requires Own(now, m) == m && p <= |m|
    ensures Landing(now, p) <= |now| && Originals(now[..Landing(now, p)], m) <= Landing(m, p)
  {
    LandsInside(now, p);
    hide Own, Originals;
    OwnPrefix(m, now, Landing(now, p));
    if Originals(now[..Landing(now, p)], m) == p + 1 {
      assert m[p] == m[..p + 1][p] == now[..p + 1][p] == now[p];
    }
  }

  lemma OwnPrefix(m: seq<Sym>, now: seq<Sym>, l: nat)
    requires Own(now, m) == m && l <= |now|
    ensures Originals(now[..l], m) <= l && Originals(now[..l], m) <= |m|
    ensures Originals(now[..l], m) == l ==> m[..l] == now[..l]
  {
    var c := now[..l];
    assert now == c + now[l..];
    hide Own, Originals, Foreign;
    OwnJoin(c, now[l..], m);
    OwnParts(c, m);
    OriginalsAtMost(c, m);
    if Originals(c, m) == l {
      assert m == c + Own(now[l..], m);
    }
  }

  lemma {:induction false} RunKeepsOwn(m: seq<Sym>, es: seq<Edit>)
    requires AllForeign(m, es)
    ensures Own(Steps(m, es), m) == m
    decreases |es|
  {
    if es == [] {
      OwnOfItself(m, m);
    } else {
      var front, e := es[..|es| - 1], es[|es| - 1];
      RunKeepsOwn(m, front);
      LandsInside(Steps(m, front), e.at);
      StepKeepsOwn(m, Steps(m, front), e);
    }
  }

  ghost function ReachOf(m: seq<Sym>, e: Edit): nat { if e.Ins? then |e.payload| * Landing(m, e.at) else 0 }

  /** The weight if every insertion stands where it lands in the original. */
  ghost function Reaches(m: seq<Sym>, es: seq<Edit>): nat
    decreases |es|
  {
    if es == [] then 0 else Reaches(m, es[..|es| - 1]) + ReachOf(m, es[|es| - 1])
  }

  lemma WeightOfStep(m: seq<Sym>, now: seq<Sym>, e: Edit)
    requires e.Ins? && e.payload != [] && Foreign(e.payload, m) && Own(now, m) == m && e.at <= |m|
    ensures Landing(now, e.at) <= |now|
    ensures var before := Originals(now[..Landing(now, e.at)], m);
            && before <= Landing(m, e.at)
            && Weight(Step(now, e), m) <= Weight(now, m) + ReachOf(m, e)
            && (Weight(Step(now, e), m) == Weight(now, m) + ReachOf(m, e) <==> before == Landing(m, e.at))
  {
    hide Originals, Weight, Foreign, Own, Step, ReachOf;
    LandsAtMost(m, now, e.at);
    hide Landing;
    var l := Landing(now, e.at);
    StepParts(m, now, e);
    WeightOfInsertion(now[..l], e.payload, now[l..], m);
    AtMostReached(|e.payload|, Originals(now[..l], m), Landing(m, e.at), Weight(now, m), Weight(Step(now, e), m));
  }

  lemma StepParts(m: seq<Sym>, now: seq<Sym>, e: Edit)
    requires e.Ins? && Landing(now, e.at) <= |now|
    ensures var l := Landing(now, e.at); now[..l] + now[l..] == now && Step(now, e) == now[..l] + e.payload + now[l..]
    ensures ReachOf(m, e) == |e.payload| * Landing(m, e.at)
  {
  }

  lemma AtMostReached(n: nat, before: nat, at: nat, weight: nat, next: nat)
    requires 0 < n && before <= at && next == weight + n * before
    ensures next <= weight + n * at && (next == weight + n * at <==> before == at)
  {
    Products(n, before, at);
  }

  lemma PlacedOriginals(m: seq<Sym>, front: seq<Edit>, p: nat)
    requires Paired(m) && Insertions(m, front) && AllForeign(m, front) && p <= |m|
    ensures var now := AtOnce(m, Landed(m, front));
            && Landing(now, p) <= |now|
            && (Originals(now[..Landing(now, p)], m) == Landing(m, p) <==> WellPlaced(m, front, p))
  {
    var fs, at := Landed(m, front), Landing(m, p);
    var now := AtOnce(m, fs);
    LandsInside(now, p);
    if WellPlaced(m, front, p) {
      LandsWell(m, front, p);
      assert at <= |m| by {
        assert p < |m| ==> PairedAt(m, p);
      }
      LandedOnLandings(m, front);
      LandedForeign(m, front);
      HeadAndTail(m, fs, at);
      HeadOriginals(m, fs, at);
      assert now[..Landing(now, p)] == Head(m, fs, at);
    } else {
      LandsShort(m, front, p);
    }
  }

  /** The weight of a run is at most what is intended, and all of it only if every insertion
      lands well. */
  lemma {:induction false} WeightOfRun(m: seq<Sym>, es: seq<Edit>)
    requires Paired(m) && Insertions(m, es) && AllForeign(m, es)
    ensures Weight(Steps(m, es), m) <= Reaches(m, es)
    ensures Weight(Steps(m, es), m) == Reaches(m, es) <==> AllWellPlaced(m, es)
    decreases |es|
  {
    if es == [] {
      NoForeignWeight(m, m);
    } else {
      var front, e := es[..|es| - 1], es[|es| - 1];
      assert es == front + [e] && AllForeign(m, front);
      assert Foreign(e.payload, m) && e.payload != [];
      WellPlacedSnoc(m, front, e);
      StepsSnoc(m, front, e);
      hide AtOnce, Steps, Step, Landed, Insertions, AllForeign, AllWellPlaced, WellPlaced, Paired, Weight, Originals, Own, Landing,
           Foreign, ReachOf;
      WeightOfRun(m, front);
      RunKeepsOwn(m, front);
      WeightOfStep(m, Steps(m, front), e);
      if AllWellPlaced(m, front) {
        RunLands(m, front);
        PlacedOriginals(m, front, e.at);
      }
    }
  }

  // ----- ties -----

  /** Text for the inside of a separator lands behind it. It stands there in reverse list
      order with the text that is for there. */
  ghost predicate TieAgrees(m: seq<Sym>, es: seq<Edit>, i: nat)
    requires i <= |m|
  {
    0 < i && m[i - 1].Sep2? ==> Inserted(es, i - 1) + Inserted(es, i) == Inserted(Landed(m, es), i)
  }

  ghost predicate TiesAgree(m: seq<Sym>, es: seq<Edit>) { forall i: nat | i <= |m| :: TieAgrees(m, es, i) }

  lemma LandedSnoc(m: seq<Sym>, es: seq<Edit>)
    requires es != []
    ensures Landed(m, es)[..|es| - 1] == Landed(m, es[..|es| - 1])
  {
  }

  lemma {:induction false} LandedInserts(m: seq<Sym>, es: seq<Edit>, i: nat)
    requires Paired(m) && Insertions(m, es) && i <= |m| && (i < |m| ==> !m[i].Sep2?)
    ensures 0 < i && m[i - 1].Sep2? ==> |Inserted(Landed(m, es), i)| == |Inserted(es, i - 1)| + |Inserted(es, i)|
    ensures !(0 < i && m[i - 1].Sep2?) ==> Inserted(Landed(m, es), i) == Inserted(es, i)
    decreases |es|
  {
    if es != [] {
      LandedSnoc(m, es);
      LandedInserts(m, es[..|es| - 1], i);
      var p := es[|es| - 1].at;
      assert p < |m| ==> PairedAt(m, p);
      hide Landed;
    }
  }

  lemma TiedPiece(m: seq<Sym>, es: seq<Edit>, i: nat)
    requires Paired(m) && Insertions(m, es) && i <= |m|
    ensures |Piece(m, es, i)| == |Piece(m, Landed(m, es), i)|
    ensures Piece(m, es, i) == Piece(m, Landed(m, es), i) <==> TieAgrees(m, es, i)
  {
    var fs := Landed(m, es);
    LandedOnLandings(m, es);
    LandedPiece(m, fs, i);
    NothingDeleted(m, es, i);
    assert i < |m| ==> PairedAt(m, i);
    if i < |m| && m[i].Sep2? {
      NoneInside(m, fs, i);
    } else {
      LandedInserts(m, es, i);
      hide Landed, Insertions, OnLandings, Inserted;
      if i < |m| {
        LastSame(InFront(m, es, i), Inserted(fs, i), m[i]);
      }
    }
  }

  lemma LastSame(a: seq<Sym>, b: seq<Sym>, c: Sym)
    ensures a + [c] == b + [c] <==> a == b
  {
    assert (a + [c])[..|a|] == a && (b + [c])[..|b|] == b;
  }

  lemma {:induction false} SamePieces(a: seq<seq<Sym>>, b: seq<seq<Sym>>)
    requires |a| == |b| && forall i | 0 <= i < |a| :: |a[i]| == |b[i]|
    ensures Flat(a) == Flat(b) <==> a == b
    ensures |Flat(a)| == |Flat(b)|
  {
    if a != [] {
      SamePieces(a[1..], b[1..]);
      assert a == [a[0]] + a[1..] && b == [b[0]] + b[1..];
      assert Flat(a)[..|a[0]|] == a[0] && Flat(b)[..|b[0]|] == b[0];
      assert Flat(a)[|a[0]|..] == Flat(a[1..]) && Flat(b)[|b[0]|..] == Flat(b[1..]);
    }
  }

  /** Moving all insertions to where they land does not change what they do at once if and
      only if ties agree. */
  lemma LandedAgrees(m: seq<Sym>, es: seq<Edit>)
    requires Paired(m) && Insertions(m, es)
    ensures AtOnce(m, es) == AtOnce(m, Landed(m, es)) <==> TiesAgree(m, es)
  {
    var a, b := Pieces(m, es), Pieces(m, Landed(m, es));
    hide Piece, Landed, Insertions, Paired, Flat, TieAgrees;
    forall i: nat | i <= |m| ensures |a[i]| == |b[i]| && (a[i] == b[i] <==> TieAgrees(m, es, i)) {
      TiedPiece(m, es, i);
    }
    SamePieces(a, b);
  }

  // ----- lists of operations -----

  /** Insertions, not empty, without a blank line, and of characters that the document does
      not have. */
  ghost predicate ForeignInsertions(ops: seq<Op>, m: seq<Sym>) {
    forall op | op in ops ::
      op.Insert? && op.position <= |m| && op.text != "" && Breaks(op.text) == 0 && Foreign(Chars(op.text), m)
  }

  lemma PlainPayload(text: string)
    requires Breaks(text) == 0
    ensures Mark(Split(text)) == Chars(text)
  {
    SplitCounts(text);
    OneSegment(text);
  }

  lemma TheirEdits(ops: seq<Op>, m: seq<Sym>)
    requires ForeignInsertions(ops, m)
    ensures Insertions(m, Edits(ops, true)) && AllForeign(m, Edits(ops, true))
    ensures Plannable(ops, |m|) && !HasRangeEdit(ops)
  {
    var es := Edits(ops, true);
    forall i | 0 <= i < |ops|
      ensures es[i].Ins? && es[i].at <= |m| && AllChars(es[i].payload) && es[i].payload != [] && Foreign(es[i].payload, m)
    {
      assert ops[i] in ops;
      hide Foreign, Edits;
      ItsEdit(ops[i]);
    }
    hide Foreign;
    InsertionsPlannable(ops, m);
  }

  lemma ItsEdit(op: Op)
    requires op.Insert? && op.text != "" && Breaks(op.text) == 0
    ensures ToEdit(op, true) == Ins(op.position, Chars(op.text)) && Chars(op.text) != [] && AllChars(Chars(op.text))
  {
    PlainPayload(op.text);
  }

  lemma InsertionsPlannable(ops: seq<Op>, m: seq<Sym>)
    requires forall op | op in ops :: op.Insert? && op.position <= |m|
    ensures Plannable(ops, |m|) && !HasRangeEdit(ops)
  {
    forall i, j | 0 <= i < j < |ops| ensures Apart(ops[i], ops[j]) {
      assert ops[i] in ops && ops[j] in ops;
    }
  }

  /** The paragraphs after a run of insertions, read as symbols. */
  ghost predicate ReadsAsSteps(blocks: seq<string>, ops: seq<Op>) {
    ApplyAll(blocks, ops) != [] && Mark(ApplyAll(blocks, ops)) == Steps(Mark(blocks), Edits(ops, true))
  }

  lemma ReadsNothing(blocks: seq<string>)
    requires blocks != []
    ensures ReadsAsSteps(blocks, [])
  {
  }

  lemma ReadsOneMore(blocks: seq<string>, front: seq<Op>, op: Op)
    requires ReadsAsSteps(blocks, front) && op.Insert?
    ensures ReadsAsSteps(blocks, front + [op])
  {
    assert (front + [op])[..|front|] == front;
    assert ApplyAll(blocks, front + [op]) == ApplyOp(ApplyAll(blocks, front), op);
    assert Edits(front + [op], true) == Edits(front, true) + [ToEdit(op, true)];
    hide Mark, ToEdit, Edits, ApplyOp, Step, Steps, ApplyAll;
    InsertMidway(ApplyAll(blocks, front), op);
    StepsSnoc(Mark(blocks), Edits(front, true), ToEdit(op, true));
  }

  lemma {:induction false} RunOfInsertions(blocks: seq<string>, ops: seq<Op>)
    requires blocks != [] && forall op | op in ops :: op.Insert?
    ensures ReadsAsSteps(blocks, ops)
    decreases |ops|
  {
    hide ReadsAsSteps;
    if ops == [] {
      ReadsNothing(blocks);
    } else {
      var front, op := ops[..|ops| - 1], ops[|ops| - 1];
      assert op in ops && ops == front + [op];
      RunOfInsertions(blocks, front);
      ReadsOneMore(blocks, front, op);
    }
  }

  ghost function ReachIn(m: seq<Sym>): Op -> nat { op => ReachOf(m, ToEdit(op, true)) }

  lemma {:induction false} ReachesAreSums(m: seq<Sym>, ops: seq<Op>)
    ensures Reaches(m, Edits(ops, true)) == Sum(ops, ReachIn(m))
    decreases |ops|
  {
    if ops != [] {
      var front, op := ops[..|ops| - 1], ops[|ops| - 1];
      assert ops == front + [op] && Edits(ops, true)[..|front|] == Edits(front, true);
      ReachesAreSums(m, front);
      SumSnoc(front, op, ReachIn(m));
    }
  }

  lemma LaterLandsLater(m: seq<Sym>, p: nat, q: nat)
    requires p <= q <= |m|
    ensures Landing(m, p) <= Landing(m, q)
  {
  }

  /** Behind nothing but insertions at its offset or further back, an insertion lands well. */
  lemma PlacedInFront(m: seq<Sym>, es: seq<Edit>, j: nat)
    requires Insertions(m, es) && j < |es| && forall i | 0 <= i < j :: es[j].at <= es[i].at
    ensures WellPlaced(m, es[..j], es[j].at)
  {
    hide Landing;
    var front, p := es[..j], es[j].at;
    forall i | 0 <= i < j ensures Landed(m, front)[i].Ins? && Landing(m, p) <= Landed(m, front)[i].at {
      assert front[i] == es[i];
      LaterLandsLater(m, p, es[i].at);
    }
    NoneBefore(Landed(m, front), Landing(m, p));
  }

  /** The edits of such lists rise where the operations do. */
  lemma SameOffsets(m: seq<Sym>, ops: seq<Op>)
    requires Insertions(m, Edits(ops, true))
    ensures var es := Edits(ops, true);
            NeverRises(ops) <==> forall i, j | 0 <= i < j < |es| :: es[j].at <= es[i].at
  {
    var es := Edits(ops, true);
    forall i | 0 <= i < |es| ensures es[i].Ins? && es[i].at == ops[i].At() {
      assert es[i] == ToEdit(ops[i], true);
    }
    hide Edits, ToEdit, Insertions;
    if NeverRises(ops) {
      forall i, j | 0 <= i < j < |es| ensures es[j].at <= es[i].at {
        assert ops[j].At() <= ops[i].At();
      }
    }
    if forall i, j | 0 <= i < j < |es| :: es[j].at <= es[i].at {
      forall i, j | 0 <= i < j < |ops| ensures ops[j].At() <= ops[i].At() {
        assert es[j].at <= es[i].at;
      }
    }
  }

  /** If offsets never increase, nothing is ever inserted in front of the next one. */
  lemma FallingIsWellPlaced(m: seq<Sym>, ops: seq<Op>)
    requires Insertions(m, Edits(ops, true)) && NeverRises(ops)
    ensures AllWellPlaced(m, Edits(ops, true))
  {
    var es := Edits(ops, true);
    SameOffsets(m, ops);
    hide WellPlaced, Edits;
    forall j | 0 <= j < |es| ensures WellPlaced(m, es[..j], es[j].at) {
      PlacedInFront(m, es, j);
    }
  }

  lemma SortedWeight(m: seq<Sym>, ops: seq<Op>)
    requires Paired(m) && ForeignInsertions(ops, m)
    ensures Weight(AtOnce(m, Edits(ops, true)), m) == Reaches(m, Edits(ops, true))
  {
    var sorted := Sort(ops);
    SameMembers(ops);
    TheirEdits(ops, m);
    TheirEdits(sorted, m);
    SortNeverRises(ops);
    hide Edits, AtOnce, Steps, Weight, Reaches, Sum, ReachIn, Sort, NeverRises, Insertions, AllForeign, AllWellPlaced, Paired,
         ForeignInsertions, Plannable;
    SortActsAtOnce(m, ops, true);
    FallingIsWellPlaced(m, sorted);
    WeightOfRun(m, Edits(sorted, true));
    ReachesAreSums(m, ops);
    ReachesAreSums(m, sorted);
    SumSorted(ops, ReachIn(m));
  }

  lemma OnSymbols(m: seq<Sym>, ops: seq<Op>)
    requires Paired(m) && ForeignInsertions(ops, m)
    ensures Insertions(m, Edits(ops, true))
    ensures Steps(m, Edits(ops, true)) == AtOnce(m, Edits(ops, true)) <==>
            AllWellPlaced(m, Edits(ops, true)) && TiesAgree(m, Edits(ops, true))
  {
    TheirEdits(ops, m);
    var es := Edits(ops, true);
    hide Edits, AtOnce, Steps, Weight, Reaches, Insertions, AllForeign, AllWellPlaced, TiesAgree, Paired, ForeignInsertions,
         Plannable, Landed;
    SortedWeight(m, ops);
    WeightOfRun(m, es);
    LandedAgrees(m, es);
    if AllWellPlaced(m, es) {
      RunLands(m, es);
    }
  }

  /** For insertions alone whose text the document does not have: applied in list order they
      do to its paragraphs what all of them do at once if and only if each lands where it
      lands in the original, and ties agree. */
  lemma LoneInsertionsActAtOnce(blocks: seq<string>, ops: seq<Op>)
    requires ForeignInsertions(ops, Mark(blocks))
    ensures Insertions(Mark(blocks), Edits(ops, true))
    ensures Mark(ApplyAll(blocks, Order(ops))) == AtOnce(Mark(blocks), Edits(ops, true)) <==>
            AllWellPlaced(Mark(blocks), Edits(ops, true)) && TiesAgree(Mark(blocks), Edits(ops, true))
  {
    var some := if blocks == [] then [""] else blocks;
    assert Mark(some) == Mark(blocks);
    TheirEdits(ops, Mark(blocks));
    OnlyInserts(ops);
    MarkIsPaired(blocks);
    OnSymbols(Mark(blocks), ops);
    RunOfInsertions(some, ops);
    if blocks == [] {
      if ops == [] {
        assert ApplyAll(blocks, ops) == [];
      } else {
        EmptyIsOneParagraph(ops);
      }
    }
    hide Mark, Edits, AtOnce, Steps, Insertions, AllForeign, AllWellPlaced, TiesAgree, ForeignInsertions;
  }

  /** Where there is no separator, this is so exactly if offsets never increase. */
  lemma InOneParagraph(block: string, ops: seq<Op>)
    requires ForeignInsertions(ops, Mark([block]))
    ensures Mark(ApplyAll([block], Order(ops))) == AtOnce(Mark([block]), Edits(ops, true)) <==> NeverRises(ops)
  {
    var m, es := Mark([block]), Edits(ops, true);
    assert m == Chars(block);
    LoneInsertionsActAtOnce([block], ops);
    TheirEdits(ops, m);
    assert TiesAgree(m, es);
    hide Mark, Edits, ApplyAll, AtOnce, ForeignInsertions, TiesAgree, Insertions, AllForeign, AllWellPlaced, NeverRises, Plannable;
    if NeverRises(ops) {
      FallingIsWellPlaced(m, ops);
    }
    if AllWellPlaced(m, es) {
      WellPlacedIsFalling(m, ops);
    }
  }

  lemma WellPlacedIsFalling(m: seq<Sym>, ops: seq<Op>)
    requires Insertions(m, Edits(ops, true)) && AllForeign(m, Edits(ops, true)) && AllChars(m)
    requires AllWellPlaced(m, Edits(ops, true))
    ensures NeverRises(ops)
  {
    var es := Edits(ops, true);
    SameOffsets(m, ops);
    hide Edits, NeverRises, WellPlaced;
    forall i, j | 0 <= i < j < |es| ensures es[j].at <= es[i].at {
      assert WellPlaced(m, es[..j], es[j].at);
      NotBefore(m, es, i, j);
    }
  }

  lemma NotBefore(m: seq<Sym>, es: seq<Edit>, i: nat, j: nat)
    requires i < j < |es| && Insertions(m, es) && AllForeign(m, es) && AllChars(m)
    requires WellPlaced(m, es[..j], es[j].at)
    ensures es[j].at <= es[i].at
  {
    var fs := Landed(m, es[..j]);
    assert fs[i] == LandedAt(m, es[i]);
    if es[i].at < es[j].at {
      SomeBefore(fs, Landing(m, es[j].at), i);
    }
  }

  /** A list that rises over a separator, behind one inserted character, and still acts at
      once on the document. */
  lemma RisingMayActAtOnce()
    ensures var blocks, ops := ["a", "b"], [Insert(0, "x", None), Insert(3, "y", None)];
            && ForeignInsertions(ops, Mark(blocks)) && !NeverRises(ops)
            && Mark(ApplyAll(blocks, Order(ops))) == AtOnce(Mark(blocks), Edits(ops, true))
  {
    var blocks, first, second := ["a", "b"], Insert(0, "x", None), Insert(3, "y", None);
    var ops, m := [first, second], Mark(blocks);
    assert m == [Ch('a'), Sep1, Sep2, Ch('b')] by { assert blocks[1..] == ["b"]; }
    OneLetter("x");
    OneLetter("y");
    assert ops[1].At() > ops[0].At();
    LoneInsertionsActAtOnce(blocks, ops);
    PlacedByOne(m, Edits(ops, true), first, second);
  }

  lemma OneLetter(letter: string)
    requires |letter| == 1
    ensures Breaks(letter) == 0
  {
    assert letter[1..] == "";
  }

  lemma PlacedByOne(m: seq<Sym>, es: seq<Edit>, first: Op, second: Op)
    requires m == [Ch('a'), Sep1, Sep2, Ch('b')] && first == Insert(0, "x", None) && second == Insert(3, "y", None)
    requires es == Edits([first, second], true) && Insertions(m, es)
    ensures AllWellPlaced(m, es) && TiesAgree(m, es)
  {
    OneLetter("x");
    OneLetter("y");
    PlainPayload("x");
    PlainPayload("y");
    assert es == [Ins(0, Chars("x")), Ins(3, Chars("y"))];
    var fs := Landed(m, es);
    assert es[..0] == [] && Landed(m, []) == [] && es[..1] == [es[0]];
    assert Landed(m, es[..1]) == [es[0]] && [es[0]][..0] == [];
    assert InsertedBefore(Landed(m, es[..1]), 3) == InsertedBefore([], 3) + 1 == 1;
    assert WellPlaced(m, es[..0], 0) && WellPlaced(m, es[..1], 3);
    NothingInserted(es, 2);
    NothingFirst([], Inserted(es, 3));
    assert fs == es;
  }
}
