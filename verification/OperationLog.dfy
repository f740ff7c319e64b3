/** One document's operation log and its snapshots, changed by many writers and snapshot
    workers in any interleaving. */
module OperationLog {
  import opened Wrappers

  /** An update as the set of changes it carries: applying updates joins them, in any
      order and any number of times with the same result. */
  type Update = set<nat>

  datatype Row = Row(sequence: nat, clock: nat, update: Update)

  datatype Snapshot = Snapshot(content: Update, mark: nat)

  /** A transaction that holds the document's write lock: the clock it has read and last
      given out, and the rows it has inserted. */
  datatype Writer = Writer(clock: Option<nat>, rows: seq<Row>)

  /** A snapshot worker between its steps. */
  datatype Worker =
    | HasSnapshot(base: Option<Snapshot>)
    | HasDelta(base: Option<Snapshot>, delta: seq<Row>)

  datatype State = State(
    committed: seq<Row>,
    unused: nat,                 // the next number of the sequence all documents share
    writer: Option<Writer>,
    stored: seq<Snapshot>,       // all snapshot rows, in commit order
    workers: map<nat, Worker>)
  {
    /** The snapshot the document row refers to: the one committed last. */
    function Latest(): Option<Snapshot> { if stored == [] then None else Some(stored[|stored| - 1]) }
  }

  datatype Event =
    | Lock
    | ReadClock
    | InsertHuman(received: nat, update: Update)
    | InsertAi(update: Update)
    | Commit
    | Abort
    | DrawElsewhere
    | ReadSnapshot(worker: nat)
    | ReadDelta(worker: nat)
    | Store(worker: nat)
    | GiveUp(worker: nat)

  function Init(): State { State([], 1, None, [], map[]) }

  // ----- what the queries return -----

  function Join(rows: seq<Row>): Update
    decreases |rows|
  {
    if rows == [] then {} else Join(rows[..|rows| - 1]) + rows[|rows| - 1].update
  }

  /** The rows above a mark, ascending. */
  function Since(rows: seq<Row>, mark: nat): seq<Row>
    decreases |rows|
  {
    if rows == [] then []
    else
      var last, rest := rows[|rows| - 1], Since(rows[..|rows| - 1], mark);
      if last.sequence > mark then rest + [last] else rest
  }

  function MaxClock(rows: seq<Row>): nat
    decreases |rows|
  {
    if rows == [] then 0
    else
      var last, rest := rows[|rows| - 1].clock, MaxClock(rows[..|rows| - 1]);
      if last > rest then last else rest
  }

  function Max(x: nat, y: nat): (largest: nat)
    ensures x <= largest && y <= largest && (largest == x || largest == y)
  {
    if x > y then x else y
  }

  function MarkOf(base: Option<Snapshot>): nat { if base.Some? then base.value.mark else 0 }

  function ContentOf(base: Option<Snapshot>): Update { if base.Some? then base.value.content else {} }

  // ----- the steps -----

  predicate Enabled(s: State, e: Event) {
    match e
    case Lock => s.writer.None?
    case ReadClock => s.writer.Some? && s.writer.value.clock.None?
    case InsertHuman(_, _) => s.writer.Some? && s.writer.value.clock.Some? && s.writer.value.rows == []
    case InsertAi(_) => s.writer.Some? && s.writer.value.clock.Some?
    case Commit => s.writer.Some?
    case Abort => s.writer.Some?
    case DrawElsewhere => true
    case ReadSnapshot(w) => w !in s.workers
    case ReadDelta(w) => w in s.workers && s.workers[w].HasSnapshot?
    case Store(w) => w in s.workers && s.workers[w].HasDelta? && s.workers[w].delta != []
    case GiveUp(w) => w in s.workers
  }

  /** Draws the next sequence number for a row with the given clock. */
  function Insert(s: State, clock: nat, update: Update): State
    requires s.writer.Some?
  {
    s.(unused := s.unused + 1,
       writer := Some(Writer(Some(clock), s.writer.value.rows + [Row(s.unused, clock, update)])))
  }

  function Apply(s: State, e: Event): State
    requires Enabled(s, e)
  {
    match e
    case Lock => s.(writer := Some(Writer(None, [])))
    case ReadClock => s.(writer := Some(s.writer.value.(clock := Some(MaxClock(s.committed)))))
    case InsertHuman(received, update) => Insert(s, Max(s.writer.value.clock.value, received) + 1, update)
    case InsertAi(update) => Insert(s, s.writer.value.clock.value + 1, update)
    case Commit => s.(committed := s.committed + s.writer.value.rows, writer := None)
    case Abort => s.(writer := None)
    case DrawElsewhere => s.(unused := s.unused + 1)
    case ReadSnapshot(w) => s.(workers := s.workers[w := HasSnapshot(s.Latest())])
    case ReadDelta(w) =>
      var base := s.workers[w].base;
      s.(workers := s.workers[w := HasDelta(base, Since(s.committed, MarkOf(base)))])
    case Store(w) =>
      s.(stored := s.stored + [Compacted(s.workers[w].base, s.workers[w].delta)], workers := s.workers - {w})
    case GiveUp(w) => s.(workers := s.workers - {w})
  }

  /** The snapshot that replaying the delta onto the base gives. */
  function Compacted(base: Option<Snapshot>, delta: seq<Row>): Snapshot
    requires delta != []
  {
    Snapshot(ContentOf(base) + Join(delta), delta[|delta| - 1].sequence)
  }

  // ----- the invariant -----

  ghost predicate Ascending(rows: seq<Row>) {
    forall i, j | 0 <= i < j < |rows| :: rows[i].sequence < rows[j].sequence && rows[i].clock < rows[j].clock
  }

  /** The rows at or below a mark. */
  ghost function UpTo(rows: seq<Row>, mark: nat): seq<Row>
    decreases |rows|
  {
    if rows == [] then []
    else
      var last, rest := rows[|rows| - 1], UpTo(rows[..|rows| - 1], mark);
      if last.sequence > mark then rest else rest + [last]
  }

  ghost predicate Reaches(rows: seq<Row>, mark: nat) {
    mark == 0 || exists i :: 0 <= i < |rows| && rows[i].sequence == mark
  }

  /** A snapshot holds exactly the operations up to its mark, which is that of a committed row. */
  ghost predicate Faithful(rows: seq<Row>, s: Snapshot) {
    Reaches(rows, s.mark) && s.content == Join(UpTo(rows, s.mark))
  }

  ghost predicate WorkerOk(rows: seq<Row>, w: Worker) {
    && (w.base.Some? ==> Faithful(rows, w.base.value))
    && (w.HasDelta? && w.delta != [] ==> Faithful(rows, Compacted(w.base, w.delta)))
  }

  /** The log with the writer's rows, if it commits them now. */
  ghost function Ahead(s: State): seq<Row> {
    if s.writer.Some? then s.committed + s.writer.value.rows else s.committed
  }

  /** Rows ascend and are numbered below what is unused; a clock the writer has read or
      given out is one no row exceeds. */
  ghost predicate LogOk(s: State) {
    && Ascending(Ahead(s)) && Numbered(Ahead(s), s.unused)
    && (s.writer.Some? && s.writer.value.clock.None? ==> s.writer.value.rows == [])
    && (s.writer.Some? && s.writer.value.clock.Some? ==> ClockedBelow(Ahead(s), s.writer.value.clock.value))
  }

  ghost predicate Numbered(rows: seq<Row>, unused: nat) {
    0 < unused && forall i | 0 <= i < |rows| :: 0 < rows[i].sequence < unused
  }

  ghost predicate ClockedBelow(rows: seq<Row>, clock: nat) { forall i | 0 <= i < |rows| :: rows[i].clock <= clock }

  ghost predicate SnapshotsOk(rows: seq<Row>, stored: seq<Snapshot>) {
    forall i | 0 <= i < |stored| :: Faithful(rows, stored[i])
  }

  ghost predicate WorkersOk(rows: seq<Row>, workers: map<nat, Worker>) {
    forall w | w in workers :: WorkerOk(rows, workers[w])
  }

  ghost predicate Inv(s: State) {
    LogOk(s) && SnapshotsOk(s.committed, s.stored) && WorkersOk(s.committed, s.workers)
  }

  // ----- joins and marks -----

  lemma JoinSnoc(rows: seq<Row>, row: Row)
    ensures Join(rows + [row]) == Join(rows) + row.update
  {
    assert (rows + [row])[..|rows|] == rows;
  }

  /** What is up to a mark and what is above it are everything. */
  lemma {:induction false} SplitAtMark(rows: seq<Row>, mark: nat)
    ensures Join(UpTo(rows, mark)) + Join(Since(rows, mark)) == Join(rows)
    decreases |rows|
  {
    if rows != [] {
      var front, last := rows[..|rows| - 1], rows[|rows| - 1];
      SplitAtMark(front, mark);
      JoinSnoc(UpTo(front, mark), last);
      JoinSnoc(Since(front, mark), last);
    }
  }

  lemma {:induction false} UpToGrown(rows: seq<Row>, more: seq<Row>, mark: nat)
    requires forall i | 0 <= i < |more| :: mark < more[i].sequence
    ensures UpTo(rows + more, mark) == UpTo(rows, mark)
    decreases |more|
  {
    if more == [] {
      assert rows + more == rows;
    } else {
      var n := |more| - 1;
      UpToGrown(rows, more[..n], mark);
      assert (rows + more)[..|rows| + n] == rows + more[..n];
    }
  }

  /** The rows at the indices `at`: all those above the mark and no others, in order. */
  ghost predicate IsSelection(rows: seq<Row>, at: seq<nat>, selected: seq<Row>, mark: nat) {
    && |at| == |selected| && (forall i, j | 0 <= i < j < |at| :: at[i] < at[j])
    && (forall j | 0 <= j < |at| :: at[j] < |rows| && selected[j] == rows[at[j]])
    && (forall i | 0 <= i < |rows| :: i in at <==> rows[i].sequence > mark)
  }

  /** The indices of the rows above a mark. */
  ghost function Above(rows: seq<Row>, mark: nat): seq<nat>
    decreases |rows|
  {
    if rows == [] then []
    else
      var n := |rows| - 1;
      Above(rows[..n], mark) + if rows[n].sequence > mark then [n] else []
  }

  /** The delta query returns exactly the rows above the mark, in order. */
  lemma {:induction false} SinceSelects(rows: seq<Row>, mark: nat)
    ensures IsSelection(rows, Above(rows, mark), Since(rows, mark), mark)
    decreases |rows|
  {
    if rows != [] {
      var n := |rows| - 1;
      assert rows == rows[..n] + [rows[n]];
      assert Above(rows[..n], mark) + [] == Above(rows[..n], mark);
      hide IsSelection;
      SinceSelects(rows[..n], mark);
      OneMoreSelected(rows[..n], rows[n], Above(rows[..n], mark), Since(rows[..n], mark), mark);
    }
  }

  lemma OneMoreSelected(rows: seq<Row>, last: Row, at: seq<nat>, selected: seq<Row>, mark: nat)
    requires IsSelection(rows, at, selected, mark)
    ensures last.sequence > mark ==> IsSelection(rows + [last], at + [|rows|], selected + [last], mark)
    ensures last.sequence <= mark ==> IsSelection(rows + [last], at, selected, mark)
  {
    var n := |rows|;
    forall i | i in at ensures i < n {
      var j :| 0 <= j < |at| && at[j] == i;
    }
    forall i | 0 <= i <= n ensures i in at + [n] <==> i in at || i == n {
    }
  }

  lemma {:induction false} AllSince(rows: seq<Row>, mark: nat)
    requires forall i | 0 <= i < |rows| :: mark < rows[i].sequence
    ensures Since(rows, mark) == rows
    decreases |rows|
  {
    if rows != [] {
      AllSince(rows[..|rows| - 1], mark);
    }
  }

  lemma {:induction false} AllUpTo(rows: seq<Row>, mark: nat)
    requires forall i | 0 <= i < |rows| :: rows[i].sequence <= mark
    ensures UpTo(rows, mark) == rows
    decreases |rows|
  {
    if rows != [] {
      AllUpTo(rows[..|rows| - 1], mark);
    }
  }

  lemma {:induction false} NoneSince(rows: seq<Row>, mark: nat)
    requires forall i | 0 <= i < |rows| :: rows[i].sequence <= mark
    ensures Since(rows, mark) == []
    decreases |rows|
  {
    if rows != [] {
      NoneSince(rows[..|rows| - 1], mark);
    }
  }

  /** The delta ends with the newest row. */
  lemma SinceEndsLast(rows: seq<Row>, mark: nat)
    requires Ascending(rows) && Since(rows, mark) != []
    ensures rows != [] && Since(rows, mark)[|Since(rows, mark)| - 1] == rows[|rows| - 1]
  {
    if rows[|rows| - 1].sequence <= mark {
      NoneSince(rows, mark);
    }
  }

  /** The largest clock of the rows; zero if there is none. */
  ghost predicate IsLargestClock(rows: seq<Row>, clock: nat) {
    && (forall i | 0 <= i < |rows| :: rows[i].clock <= clock)
    && if rows == [] then clock == 0 else exists i :: 0 <= i < |rows| && rows[i].clock == clock
  }

  lemma {:induction false} MaxClockIsMax(rows: seq<Row>)
    ensures IsLargestClock(rows, MaxClock(rows))
    decreases |rows|
  {
    if rows != [] {
      MaxClockIsMax(rows[..|rows| - 1]);
    }
  }

  /** Snapshot and later operations make up the whole log. */
  lemma BaseAndDelta(rows: seq<Row>, base: Option<Snapshot>)
    requires base.Some? ==> Faithful(rows, base.value)
    requires forall i | 0 <= i < |rows| :: 0 < rows[i].sequence
    ensures ContentOf(base) + Join(Since(rows, MarkOf(base))) == Join(rows)
  {
    SplitAtMark(rows, MarkOf(base));
    if base.None? {
      AllSince(rows, 0);
    }
  }

  lemma CompactedIsFaithful(rows: seq<Row>, base: Option<Snapshot>)
    requires Ascending(rows) && (base.Some? ==> Faithful(rows, base.value))
    requires forall i | 0 <= i < |rows| :: 0 < rows[i].sequence
    requires Since(rows, MarkOf(base)) != []
    ensures Faithful(rows, Compacted(base, Since(rows, MarkOf(base))))
  {
    SinceEndsLast(rows, MarkOf(base));
    NewestIsAll(rows);
    hide Ascending, Since, Join, UpTo, Faithful;
    BaseAndDelta(rows, base);
  }

  lemma NewestIsAll(rows: seq<Row>)
    requires Ascending(rows) && rows != []
    ensures var mark := rows[|rows| - 1].sequence;
            forall content :: content == Join(rows) ==> Faithful(rows, Snapshot(content, mark))
  {
    AllUpTo(rows, rows[|rows| - 1].sequence);
  }

  /** A faithful snapshot stays so when newer rows are committed. */
  lemma FaithfulLater(rows: seq<Row>, more: seq<Row>, s: Snapshot)
    requires Ascending(rows + more) && Faithful(rows, s)
    requires forall i | 0 <= i < |more| :: 0 < more[i].sequence
    ensures Faithful(rows + more, s)
  {
    var all := rows + more;
    forall i | 0 <= i < |more| ensures s.mark < more[i].sequence {
      if s.mark > 0 {
        var k :| 0 <= k < |rows| && rows[k].sequence == s.mark;
        assert all[k].sequence < all[|rows| + i].sequence;
      }
    }
    UpToGrown(rows, more, s.mark);
    if s.mark > 0 {
      var k :| 0 <= k < |rows| && rows[k].sequence == s.mark;
      assert all[k].sequence == s.mark;
    }
  }

  // ----- every step keeps the invariant -----

  lemma AscendingSnoc(rows: seq<Row>, unused: nat, last: nat, clock: nat, update: Update)
    requires Ascending(rows) && Numbered(rows, unused) && ClockedBelow(rows, last) && last < clock
    ensures var rows' := rows + [Row(unused, clock, update)];
            Ascending(rows') && Numbered(rows', unused + 1) && ClockedBelow(rows', clock)
  {
  }

  lemma InsertKeeps(s: State, clock: nat, update: Update)
    requires LogOk(s) && s.writer.Some? && s.writer.value.clock.Some? && clock > s.writer.value.clock.value
    ensures LogOk(Insert(s, clock, update))
  {
    hide Ascending, Numbered, ClockedBelow;
    AscendingSnoc(Ahead(s), s.unused, s.writer.value.clock.value, clock, update);
    assert Ahead(Insert(s, clock, update)) == Ahead(s) + [Row(s.unused, clock, update)];
  }

  lemma CommittedOk(s: State)
    requires LogOk(s)
    ensures Ascending(s.committed) && Numbered(s.committed, s.unused)
    ensures s.writer.Some? ==> Ascending(s.committed + s.writer.value.rows)
  {
    assert forall i | 0 <= i < |s.committed| :: Ahead(s)[i] == s.committed[i];
  }

  lemma SnapshotsLater(rows: seq<Row>, more: seq<Row>, stored: seq<Snapshot>)
    requires Ascending(rows + more) && SnapshotsOk(rows, stored)
    requires forall i | 0 <= i < |more| :: 0 < more[i].sequence
    ensures SnapshotsOk(rows + more, stored)
  {
    hide Faithful, Ascending;
    forall i | 0 <= i < |stored| ensures Faithful(rows + more, stored[i]) {
      FaithfulLater(rows, more, stored[i]);
    }
  }

  lemma WorkersLater(rows: seq<Row>, more: seq<Row>, workers: map<nat, Worker>)
    requires Ascending(rows + more) && WorkersOk(rows, workers)
    requires forall i | 0 <= i < |more| :: 0 < more[i].sequence
    ensures WorkersOk(rows + more, workers)
  {
    hide Faithful, Ascending, Compacted;
    forall w | w in workers ensures WorkerOk(rows + more, workers[w]) {
      var worker := workers[w];
      if worker.base.Some? {
        FaithfulLater(rows, more, worker.base.value);
      }
      if worker.HasDelta? && worker.delta != [] {
        FaithfulLater(rows, more, Compacted(worker.base, worker.delta));
      }
    }
  }

  lemma CommitKeeps(s: State)
    requires Inv(s) && s.writer.Some?
    ensures Inv(Apply(s, Commit))
  {
    var more := s.writer.value.rows;
    assert forall i | 0 <= i < |more| :: Ahead(s)[|s.committed| + i] == more[i];
    assert Ahead(Apply(s, Commit)) == Ahead(s);
    hide SnapshotsOk, WorkersOk, ClockedBelow;
    SnapshotsLater(s.committed, more, s.stored);
    WorkersLater(s.committed, more, s.workers);
  }

  lemma ReadDeltaKeeps(rows: seq<Row>, unused: nat, base: Option<Snapshot>)
    requires Ascending(rows) && Numbered(rows, unused) && WorkerOk(rows, HasSnapshot(base))
    ensures WorkerOk(rows, HasDelta(base, Since(rows, MarkOf(base))))
  {
    hide Ascending, Faithful, Since;
    if Since(rows, MarkOf(base)) != [] {
      CompactedIsFaithful(rows, base);
    }
  }

  /** Steps that leave the committed rows alone. */
  lemma LogStepKeeps(s: State, e: Event)
    requires LogOk(s) && Enabled(s, e) && !e.Commit?
    ensures LogOk(Apply(s, e)) && Apply(s, e).committed == s.committed
  {
    hide Ascending, MaxClock;
    match e
    case ReadClock =>
      MaxClockIsMax(s.committed);
      assert Ahead(s) == s.committed && Ahead(Apply(s, e)) == s.committed;
    case InsertHuman(received, update) => InsertKeeps(s, Max(s.writer.value.clock.value, received) + 1, update);
    case InsertAi(update) => InsertKeeps(s, s.writer.value.clock.value + 1, update);
    case Lock => assert Ahead(Apply(s, e)) == Ahead(s);
    case Abort => CommittedOk(s);
    case _ =>
  }

  lemma WorkerStepKeeps(s: State, e: Event)
    requires Inv(s) && Enabled(s, e) && !e.Commit?
    ensures SnapshotsOk(s.committed, Apply(s, e).stored) && WorkersOk(s.committed, Apply(s, e).workers)
  {
    hide Faithful, Since, Ahead, Compacted;
    match e
    case ReadDelta(w) =>
      CommittedOk(s);
      ReadDeltaKeeps(s.committed, s.unused, s.workers[w].base);
    case _ =>
  }

  lemma StepKeepsInv(s: State, e: Event)
    requires Inv(s) && Enabled(s, e)
    ensures Inv(Apply(s, e))
  {
    if e.Commit? {
      CommitKeeps(s);
    } else {
      LogStepKeeps(s, e);
      WorkerStepKeeps(s, e);
    }
  }

  // ----- runs -----

  ghost predicate IsRun(states: seq<State>, events: seq<Event>) {
    && |states| == |events| + 1 && states[0] == Init()
    && forall i | 0 <= i < |events| :: Enabled(states[i], events[i]) && states[i + 1] == Apply(states[i], events[i])
  }

  lemma {:induction false} RunKeepsInv(states: seq<State>, events: seq<Event>, i: nat)
    requires IsRun(states, events) && i < |states|
    ensures Inv(states[i])
  {
    if i > 0 {
      RunKeepsInv(states, events, i - 1);
      assert Enabled(states[i - 1], events[i - 1]);
      StepKeepsInv(states[i - 1], events[i - 1]);
    }
  }

  /** In every state of every run, the latest snapshot joined with the operations above its
      mark is the join of all committed operations. */
  lemma SnapshotPlusDeltaIsFullReplay(states: seq<State>, events: seq<Event>, i: nat)
    requires IsRun(states, events) && i < |states|
    ensures var s := states[i];
            ContentOf(s.Latest()) + Join(Since(s.committed, MarkOf(s.Latest()))) == Join(s.committed)
  {
    RunKeepsInv(states, events, i);
    CommittedOk(states[i]);
    BaseAndDelta(states[i].committed, states[i].Latest());
  }

  lemma {:induction false} LogOnlyGrows(states: seq<State>, events: seq<Event>, i: nat, j: nat)
    requires IsRun(states, events) && i <= j < |states|
    ensures states[i].committed <= states[j].committed && states[i].stored <= states[j].stored
    ensures states[i].unused <= states[j].unused
    decreases j - i
  {
    if i < j {
      LogOnlyGrows(states, events, i, j - 1);
      assert Enabled(states[j - 1], events[j - 1]);
    }
  }

  /** A snapshot read at one time and the operations above its mark read later make up the
      log as it is then, whatever happened in between. */
  lemma ReadsApartMakeFullReplay(states: seq<State>, events: seq<Event>, i: nat, j: nat)
    requires IsRun(states, events) && i <= j < |states|
    ensures var base, rows := states[i].Latest(), states[j].committed;
            ContentOf(base) + Join(Since(rows, MarkOf(base))) == Join(rows)
  {
    RunKeepsInv(states, events, j);
    CommittedOk(states[j]);
    LogOnlyGrows(states, events, i, j);
    var base := states[i].Latest();
    assert base.Some? ==> base.value == states[j].stored[|states[i].stored| - 1];
    BaseAndDelta(states[j].committed, base);
  }

  /** Once a snapshot is stored, no operation commits with a sequence number up to its mark. */
  lemma NothingCommitsBelowAMark(states: seq<State>, events: seq<Event>, i: nat, j: nat, k: nat, n: nat)
    requires IsRun(states, events) && i <= j < |states|
    requires k < |states[i].stored| && |states[i].committed| <= n < |states[j].committed|
    ensures states[i].stored[k].mark < states[j].committed[n].sequence
  {
    RunKeepsInv(states, events, i);
    RunKeepsInv(states, events, j);
    CommittedOk(states[j]);
    LogOnlyGrows(states, events, i, j);
    var rows, later, mark := states[i].committed, states[j].committed, states[i].stored[k].mark;
    assert Faithful(rows, states[i].stored[k]);
    if mark > 0 {
      var m :| 0 <= m < |rows| && rows[m].sequence == mark;
      assert later[m] == rows[m];
    }
  }

  /** Along every run, clocks strictly increase with the sequence numbers of the log. A human
      operation's clock exceeds the clock its update carried, and every committed one; an AI
      operation's is the one that follows the last its transaction has read or given out. */
  lemma ClocksIncrease(states: seq<State>, events: seq<Event>, i: nat)
    requires IsRun(states, events) && i < |states|
    ensures Ascending(states[i].committed)
    ensures i + 1 < |states| && events[i].InsertHuman? ==>
              var rows := states[i + 1].writer.value.rows;
              && rows == states[i].writer.value.rows + [rows[|rows| - 1]]
              && rows[|rows| - 1].clock > events[i].received
              && forall n | 0 <= n < |states[i].committed| :: rows[|rows| - 1].clock > states[i].committed[n].clock
    ensures i + 1 < |states| && events[i].InsertAi? ==>
              var before, rows := states[i].writer.value, states[i + 1].writer.value.rows;
              rows == before.rows + [Row(states[i].unused, before.clock.value + 1, events[i].update)]
  {
    RunKeepsInv(states, events, i);
    CommittedOk(states[i]);
    if i + 1 < |states| && events[i].InsertHuman? {
      assert Enabled(states[i], events[i]) && states[i + 1] == Apply(states[i], events[i]);
      assert forall n | 0 <= n < |states[i].committed| :: Ahead(states[i])[n] == states[i].committed[n];
    }
  }

  /** A snapshot job that nothing interrupts, step by step: one snapshot more, of the latest
      with the rows above its mark, and nothing else. */
  lemma JobIsThreeSteps(s: State, worker: nat)
    requires worker !in s.workers && Since(s.committed, MarkOf(s.Latest())) != []
    ensures Enabled(s, ReadSnapshot(worker)) && Enabled(Apply(s, ReadSnapshot(worker)), ReadDelta(worker))
    ensures var read := Apply(Apply(s, ReadSnapshot(worker)), ReadDelta(worker));
            && Enabled(read, Store(worker))
            && Apply(read, Store(worker)) == s.(stored := s.stored + [Compacted(s.Latest(), Since(s.committed, MarkOf(s.Latest())))])
  {
    var read := Apply(Apply(s, ReadSnapshot(worker)), ReadDelta(worker));
    assert Apply(read, Store(worker)).workers == s.workers;
  }
}
