/** The tables behind one document's log, and the transactions that write them. Every
    method that touches the tables is one step of the log's machine. */
module LogStore {
  import opened Wrappers
  import opened OperationLog

  /** The first `n` rows of a batch: sequence numbers and clocks count up from the given. */
  ghost function Batch(updates: seq<Update>, n: nat, sequence: nat, clock: nat): (rows: seq<Row>)
    requires n <= |updates|
    ensures |rows| == n && forall i | 0 <= i < n :: rows[i] == Row(sequence + i, clock + i, updates[i])
  {
    if n == 0 then []
    else Batch(updates, n - 1, sequence, clock) + [Row(sequence + n - 1, clock + n - 1, updates[n - 1])]
  }

  /** Where a transaction fails: waiting for the lock, reading the clock, or after its row
      has drawn a sequence number. */
  datatype Failure = Locking | ReadingClock | BeforeCommit

  class Tables {
    var operations: seq<Row>
    var unused: nat
    var writer: Option<Writer>
    var snapshots: seq<Snapshot>

    /** The tables as a state of the machine, without the workers' own memory. */
    ghost function View(): State
      reads this
    {
      State(operations, unused, writer, snapshots, map[])
    }

    ghost predicate Valid()
      reads this
    {
      Inv(View())
    }

    constructor ()
      ensures Valid() && View() == Init()
    {
      operations, unused, writer, snapshots := [], 1, None, [];
    }

    method AcquireDocumentWriteLock()
      requires Valid() && Enabled(View(), Lock)
      modifies this`writer
      ensures Valid() && View() == Apply(old(View()), Lock)
    {
      StepKeepsInv(View(), Lock);
      writer := Some(Writer(None, []));
    }

    method GetMaxClockValue() returns (clock: nat)
      requires Valid() && Enabled(View(), ReadClock)
      modifies this`writer
      ensures Valid() && View() == Apply(old(View()), ReadClock) && writer.value.clock == Some(clock)
      ensures clock == MaxClock(operations) && IsLargestClock(operations, clock)
    {
      StepKeepsInv(View(), ReadClock);
      MaxClockIsMax(operations);
      clock := MaxClock(operations);
      hide Inv, MaxClock, Enabled;
      ghost var next := Apply(View(), ReadClock);
      assert next.writer == Some(writer.value.(clock := Some(clock)));
      writer := Some(writer.value.(clock := Some(clock)));
      assert View() == next;
    }

    /** Inserts a row with the next sequence number. Clocks above the one the writer has read
        or given out last keep the log's order. */
    method InsertOperation(clock: nat, update: Update) returns (row: Row)
      requires writer.Some?
      modifies this`writer, this`unused
      ensures View() == Insert(old(View()), clock, update) && row == Row(old(unused), clock, update)
      ensures old(Valid()) && old(writer).value.clock.Some? && old(writer).value.clock.value < clock ==> Valid()
    {
      if Valid() && writer.value.clock.Some? && writer.value.clock.value < clock {
        InsertKeeps(View(), clock, update);
      }
      row := Row(unused, clock, update);
      writer := Some(Writer(Some(clock), writer.value.rows + [row]));
      unused := unused + 1;
    }

    method CommitTransaction()
      requires Valid() && Enabled(View(), Commit)
      modifies this`operations, this`writer
      ensures Valid() && View() == Apply(old(View()), Commit)
    {
      StepKeepsInv(View(), Commit);
      operations, writer := operations + writer.value.rows, None;
    }

    method AbortTransaction()
      requires Valid() && Enabled(View(), Abort)
      modifies this`writer
      ensures Valid() && View() == Apply(old(View()), Abort)
    {
      StepKeepsInv(View(), Abort);
      writer := None;
    }

    /** The transaction of a client's update. If it fails before its row is inserted, nothing
        is left of it; if it fails later, a gap in the sequence numbers is. */
    method HandleUpdate(received: nat, update: Update, failing: Option<Failure>) returns (row: Option<Row>)
      requires Valid() && writer.None?
      modifies this
      ensures Valid() && writer.None? && snapshots == old(snapshots)
      ensures failing.None? ==>
                && row == Some(Row(old(unused), Max(MaxClock(old(operations)), received) + 1, update))
                && operations == old(operations) + [row.value]
      ensures failing.None? ==> exists local: nat :: IsLargestClock(old(operations), local)
                                                && row.value.clock == if local > received then local + 1 else received + 1
      ensures failing.Some? ==> row.None? && operations == old(operations)
      ensures unused == if failing.None? || failing.value.BeforeCommit? then old(unused) + 1 else old(unused)
    {
      hide Inv, MaxClock, IsLargestClock;
      if failing == Some(Locking) {
        return None;
      }
      AcquireDocumentWriteLock();
      if failing == Some(ReadingClock) {
        AbortTransaction();
        return None;
      }
      var localClock := GetMaxClockValue();
      var inserted := InsertOperation((if localClock > received then localClock else received) + 1, update);
      if failing.Some? {
        AbortTransaction();
        return None;
      }
      CommitTransaction();
      row := Some(inserted);
    }

    /** The writer has inserted the first `n` rows of a batch, the last with clock `clock`. */
    ghost predicate Inserted(updates: seq<Update>, n: nat, sequence: nat, first: nat, clock: nat)
      requires n <= |updates|
      reads this
    {
      && unused == sequence + n && clock + 1 == first + n
      && writer == Some(Writer(Some(clock), Batch(updates, n, sequence, first)))
    }

    method BeginBatch(ghost updates: seq<Update>) returns (clock: nat)
      requires Valid() && writer.None?
      modifies this`writer
      ensures Valid() && clock == MaxClock(operations) && Inserted(updates, 0, unused, clock + 1, clock)
    {
      AcquireDocumentWriteLock();
      hide Inv, MaxClock, IsLargestClock;
      clock := GetMaxClockValue();
    }

    method InsertNext(updates: seq<Update>, n: nat, ghost sequence: nat, ghost first: nat, clock: nat)
      requires Valid() && n < |updates| && Inserted(updates, n, sequence, first, clock)
      modifies this`writer, this`unused
      ensures Valid() && Inserted(updates, n + 1, sequence, first, clock + 1)
    {
      hide Inv;
      var row := InsertOperation(clock + 1, updates[n]);
    }

    method CommitBatch(ghost updates: seq<Update>, ghost sequence: nat, ghost first: nat, ghost clock: nat)
      requires Valid() && Inserted(updates, |updates|, sequence, first, clock)
      modifies this`operations, this`writer
      ensures Valid() && writer.None? && operations == old(operations) + Batch(updates, |updates|, sequence, first)
    {
      hide Inv, Batch;
      CommitTransaction();
    }

    /** The transaction of an AI batch: one row per update, their clocks counted on from the
        largest clock in the log. */
    method ApplyOps(updates: seq<Update>)
      requires Valid() && writer.None?
      modifies this
      ensures Valid() && writer.None? && snapshots == old(snapshots)
      ensures operations == old(operations) + Batch(updates, |updates|, old(unused), MaxClock(old(operations)) + 1)
      ensures IsLargestClock(old(operations), MaxClock(old(operations)))
    {
      MaxClockIsMax(operations);
      hide Inv, Inserted, IsLargestClock;
      ghost var sequence, first := unused, MaxClock(operations) + 1;
      var clock := BeginBatch(updates);
      for i := 0 to |updates|
        modifies this`writer, this`unused
        invariant Valid() && Inserted(updates, i, sequence, first, clock)
      {
        InsertNext(updates, i, sequence, first, clock);
        clock := clock + 1;
      }
      CommitBatch(updates, sequence, first, clock);
    }

    method GetLatestSnapshot() returns (snapshot: Option<Snapshot>)
      ensures snapshot == View().Latest()
    {
      snapshot := if snapshots == [] then None else Some(snapshots[|snapshots| - 1]);
    }

    method GetOperationsSinceSequence(afterSequence: nat) returns (delta: seq<Row>)
      ensures delta == Since(operations, afterSequence)
      ensures IsSelection(operations, Above(operations, afterSequence), delta, afterSequence)
    {
      SinceSelects(operations, afterSequence);
      delta := Since(operations, afterSequence);
    }

    /** Inserts the snapshot row and makes it the document's latest. */
    method CreateSnapshot(content: Update, mark: nat)
      modifies this`snapshots
      ensures snapshots == old(snapshots) + [Snapshot(content, mark)]
      ensures old(Valid()) && Faithful(operations, Snapshot(content, mark)) ==> Valid()
    {
      snapshots := snapshots + [Snapshot(content, mark)];
    }

    /** A snapshot job that runs alone compacts the whole log. */
    method ProcessSnapshot()
      requires Valid()
      modifies this`snapshots
      ensures Valid() && operations == old(operations)
      ensures var base := old(View().Latest());
              if Since(operations, MarkOf(base)) == [] then snapshots == old(snapshots)
              else
                var latest := Snapshot(Join(operations), operations[|operations| - 1].sequence);
                snapshots == old(snapshots) + [latest] && View().Latest() == Some(latest)
    {
      hide Inv, Join, Faithful, IsSelection, Above;
      var snapshot := GetLatestSnapshot();
      var afterSequence := if snapshot.Some? then snapshot.value.mark else 0;
      var delta := GetOperationsSinceSequence(afterSequence);
      if |delta| == 0 {
        return;
      }
      CompactsAll(View());
      hide Since, Compacted;
      var content, highestSequence := Replay(snapshot, delta);
      CreateSnapshot(content, highestSequence);
    }
  }

  lemma CompactsAll(s: State)
    requires Inv(s) && Since(s.committed, MarkOf(s.Latest())) != []
    ensures var base, delta := s.Latest(), Since(s.committed, MarkOf(s.Latest()));
            && s.committed != [] && Faithful(s.committed, Compacted(base, delta))
            && Compacted(base, delta) == Snapshot(Join(s.committed), s.committed[|s.committed| - 1].sequence)
  {
    CommittedOk(s);
    hide Ascending, Since, Join, UpTo;
    CompactedIsFaithful(s.committed, s.Latest());
    BaseAndDelta(s.committed, s.Latest());
    SinceEndsLast(s.committed, MarkOf(s.Latest()));
  }

  /** Rebuilds a document from its base snapshot and the operations since. */
  method Replay(snapshot: Option<Snapshot>, delta: seq<Row>) returns (content: Update, mark: nat)
    requires delta != []
    ensures Snapshot(content, mark) == Compacted(snapshot, delta)
  {
    content := if snapshot.Some? then snapshot.value.content else {};
    for i := 0 to |delta|
      invariant content == ContentOf(snapshot) + Join(delta[..i])
    {
      content := content + delta[i].update;
      JoinSnoc(delta[..i], delta[i]);
      assert delta[..i + 1] == delta[..i] + [delta[i]];
    }
    assert delta[..|delta|] == delta;
    mark := delta[|delta| - 1].sequence;
  }
}
