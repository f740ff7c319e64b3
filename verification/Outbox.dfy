/** The transactional outbox: rows written with their operations, delivered by a worker that
    may fail or crash at any point, retried up to a limit. */
module Outbox {
  import opened Wrappers

  type Bytes = seq<bv8>

  /** Delivery attempts that failed so far, and what is to be delivered. */
  datatype Entry = Entry(payload: Bytes, attempts: nat)

  // ----- frames -----

  const HEADER_SIZE: nat := 16

  function Zeros(n: nat): (z: Bytes)
    ensures |z| == n && forall i | 0 <= i < n :: z[i] == 0
  {
    seq(n, i requires 0 <= i < n => 0 as bv8)
  }

  /** The frame an outbox row is published as: a header of zeros, then the payload. */
  function FrameOf(payload: Bytes): Bytes { Zeros(HEADER_SIZE) + payload }

  /** What an instance relays of a frame: nothing of its own, else all behind the header. */
  function Relayed(instanceId: Bytes, frame: Bytes): Option<Bytes> {
    var size := if |frame| < HEADER_SIZE then |frame| else HEADER_SIZE;
    if frame[..size] == instanceId then None else Some(frame[size..])
  }

  /** An instance skips its own frames. Of outbox frames it recovers the payload exactly,
      unless its own identity is all zeros, which a random one never is. */
  lemma {:induction false} FramesRelay(instanceId: Bytes, payload: Bytes)
    requires |instanceId| == HEADER_SIZE
    ensures Relayed(instanceId, instanceId + payload) == None
    ensures Relayed(instanceId, FrameOf(payload)) == Some(payload) <==>
            exists i :: 0 <= i < HEADER_SIZE && instanceId[i] != 0
  {
    var frame := FrameOf(payload);
    assert frame[..HEADER_SIZE] == Zeros(HEADER_SIZE) && frame[HEADER_SIZE..] == payload;
    assert (instanceId + payload)[..HEADER_SIZE] == instanceId;
    if forall i :: 0 <= i < HEADER_SIZE ==> instanceId[i] == 0 {
      assert instanceId == Zeros(HEADER_SIZE);
    }
  }

  /** A frame too short for a header is relayed as nothing at all. */
  lemma ShortFramesRelay(instanceId: Bytes, frame: Bytes)
    requires |instanceId| == 16 && |frame| < 16
    ensures Relayed(instanceId, frame) == Some([])
  {
    assert |frame[..|frame|]| < |instanceId| && frame[|frame|..] == [];
  }

  // ----- the machine -----

  /** A worker on a row: it has read the row, or also published it. */
  datatype Stage = Taken(entry: Entry) | Sent(entry: Entry)

  datatype State = State(
    committed: map<nat, Bytes>,  // the operations' payloads
    rows: map<nat, Entry>,
    queue: set<nat>,
    working: map<nat, Stage>,    // one worker per row
    frames: set<(nat, Bytes)>,   // everything published, by row
    failures: map<nat, nat>,     // failures recorded, by row
    exhausted: set<nat>)         // rows given up

  datatype Event =
    | Commit(id: nat, payload: Bytes)
    | Enqueue(id: nat)
    | Take(id: nat)
    | Publish(id: nat)
    | Remove(id: nat)
    | GiveUp(id: nat)
    | Fail(id: nat)
    | Crash(kept: set<nat>)
    | Recover

  function Init(): State { State(map[], map[], {}, map[], {}, map[], {}) }

  predicate Enabled(s: State, e: Event, limit: nat) {
    match e
    case Commit(id, _) => id !in s.committed
    case Enqueue(id) => id in s.committed
    case Take(id) => id in s.queue && id !in s.working
    case Publish(id) => id in s.working && s.working[id].Taken? && s.working[id].entry.attempts < limit
    case Remove(id) => id in s.working && s.working[id].Sent?
    case GiveUp(id) => id in s.working && s.working[id].Taken? && s.working[id].entry.attempts >= limit
    case Fail(id) => id in s.working
    case Crash(_) => true
    case Recover => true
  }

  function Pending(rows: map<nat, Entry>, limit: nat): set<nat> { set id | id in rows && rows[id].attempts < limit }

  function Apply(s: State, e: Event, limit: nat): State
    requires Enabled(s, e, limit)
  {
    match e
    case Commit(id, payload) =>
      s.(committed := s.committed[id := payload], rows := s.rows[id := Entry(payload, 0)],
         failures := s.failures[id := 0])
    case Enqueue(id) => s.(queue := s.queue + {id})
    case Take(id) =>
      s.(queue := s.queue - {id}, working := if id in s.rows then s.working[id := Taken(s.rows[id])] else s.working)
    case Publish(id) =>
      var entry := s.working[id].entry;
      s.(frames := s.frames + {(id, FrameOf(entry.payload))}, working := s.working[id := Sent(entry)])
    case Remove(id) => s.(rows := s.rows - {id}, working := s.working - {id})
    case GiveUp(id) => s.(rows := s.rows - {id}, working := s.working - {id}, exhausted := s.exhausted + {id})
    case Fail(id) =>
      var entry := s.working[id].entry;
      s.(rows := if id in s.rows then s.rows[id := s.rows[id].(attempts := entry.attempts + 1)] else s.rows,
         failures := if id in s.failures then s.failures[id := s.failures[id] + 1] else s.failures,
         queue := s.queue + {id}, working := s.working - {id})
    case Crash(kept) => s.(queue := s.queue * kept, working := map[])
    case Recover => s.(queue := s.queue + Pending(s.rows, limit))
  }

  // ----- conservation -----

  /** An operation waits in a row, or was published so that its payload is recovered
      exactly, or its delivery failed up to the limit. */
  ghost predicate Conserved(s: State, id: nat)
    requires id in s.committed
  {
    || id in s.rows
    || (id, FrameOf(s.committed[id])) in s.frames
    || id in s.exhausted
  }

  ghost predicate RowOk(s: State, id: nat)
    requires id in s.rows
  {
    && id in s.committed && s.rows[id].payload == s.committed[id]
    && id in s.failures && s.failures[id] == s.rows[id].attempts
  }

  ghost predicate WorkOk(s: State, id: nat)
    requires id in s.working
  {
    && id in s.rows && s.working[id].entry == s.rows[id]
    && (s.working[id].Sent? ==> id in s.committed && (id, FrameOf(s.committed[id])) in s.frames)
  }

  /** A row is given up only after as many recorded failures as the limit. */
  ghost predicate ExhaustedOk(s: State, limit: nat) {
    forall id | id in s.exhausted :: id in s.committed && id !in s.rows && id in s.failures && s.failures[id] >= limit
  }

  ghost predicate Inv(s: State, limit: nat) {
    && (forall id | id in s.committed :: Conserved(s, id))
    && (forall id | id in s.rows :: RowOk(s, id))
    && (forall id | id in s.working :: WorkOk(s, id))
    && (forall f | f in s.frames :: f.0 in s.committed && f.1 == FrameOf(s.committed[f.0]))
    && ExhaustedOk(s, limit) && s.failures.Keys == s.committed.Keys
  }

  lemma StepKeepsRows(s: State, e: Event, limit: nat, id: nat)
    requires Inv(s, limit) && Enabled(s, e, limit) && id in Apply(s, e, limit).rows
    ensures RowOk(Apply(s, e, limit), id)
  {
    if id in s.rows {
      assert RowOk(s, id);
    }
    if id in s.working {
      assert WorkOk(s, id);
    }
  }

  lemma StepKeepsWork(s: State, e: Event, limit: nat, id: nat)
    requires Inv(s, limit) && Enabled(s, e, limit) && id in Apply(s, e, limit).working
    ensures WorkOk(Apply(s, e, limit), id)
  {
    if id in s.working {
      assert WorkOk(s, id);
    }
    if id in s.rows {
      assert RowOk(s, id);
    }
  }

  lemma StepConserves(s: State, e: Event, limit: nat, id: nat)
    requires Inv(s, limit) && Enabled(s, e, limit) && id in Apply(s, e, limit).committed
    ensures Conserved(Apply(s, e, limit), id)
  {
    if id in s.committed {
      assert Conserved(s, id);
    }
    if id in s.working {
      assert WorkOk(s, id);
    }
  }

  lemma StepKeepsExhausted(s: State, e: Event, limit: nat)
    requires Inv(s, limit) && Enabled(s, e, limit)
    ensures ExhaustedOk(Apply(s, e, limit), limit)
  {
    if e.GiveUp? {
      assert WorkOk(s, e.id) && RowOk(s, e.id);
    } else if e.Fail? {
      assert WorkOk(s, e.id);
    }
  }

  lemma StepKeepsFrames(s: State, e: Event, limit: nat)
    requires Inv(s, limit) && Enabled(s, e, limit)
    ensures var t := Apply(s, e, limit); forall f | f in t.frames :: f.0 in t.committed && f.1 == FrameOf(t.committed[f.0])
  {
    if e.Publish? {
      assert WorkOk(s, e.id) && RowOk(s, e.id);
    }
  }

  lemma StepKeepsInv(s: State, e: Event, limit: nat)
    requires Inv(s, limit) && Enabled(s, e, limit)
    ensures Inv(Apply(s, e, limit), limit)
  {
    var t := Apply(s, e, limit);
    StepKeepsExhausted(s, e, limit);
    StepKeepsFrames(s, e, limit);
    hide Apply, FrameOf, RowOk, WorkOk, Conserved, ExhaustedOk;
    forall id | id in t.rows ensures RowOk(t, id) {
      StepKeepsRows(s, e, limit, id);
    }
    forall id | id in t.working ensures WorkOk(t, id) {
      StepKeepsWork(s, e, limit, id);
    }
    forall id | id in t.committed ensures Conserved(t, id) {
      StepConserves(s, e, limit, id);
    }
  }

  ghost predicate IsRun(states: seq<State>, events: seq<Event>, limit: nat) {
    && |states| == |events| + 1 && states[0] == Init()
    && forall i | 0 <= i < |events| ::
         Enabled(states[i], events[i], limit) && states[i + 1] == Apply(states[i], events[i], limit)
  }

  lemma {:induction false} RunKeepsInv(states: seq<State>, events: seq<Event>, limit: nat, i: nat)
    requires IsRun(states, events, limit) && i < |states|
    ensures Inv(states[i], limit)
  {
    if i > 0 {
      RunKeepsInv(states, events, limit, i - 1);
      assert Enabled(states[i - 1], events[i - 1], limit);
      StepKeepsInv(states[i - 1], events[i - 1], limit);
    }
  }

  /** In every state of every run, whatever fails or crashes, no committed operation is
      lost, and everything published is the frame of a committed operation. */
  lemma NothingIsLost(states: seq<State>, events: seq<Event>, limit: nat, i: nat)
    requires IsRun(states, events, limit) && i < |states|
    ensures forall id | id in states[i].committed :: Conserved(states[i], id)
    ensures forall id | id in states[i].exhausted :: id in states[i].failures && states[i].failures[id] >= limit
    ensures forall f | f in states[i].frames :: f.0 in states[i].committed && f.1 == FrameOf(states[i].committed[f.0])
  {
    RunKeepsInv(states, events, limit, i);
  }

  // ----- what recovery finds -----

  /** A row at the limit that has neither a job nor a worker. */
  ghost predicate Stranded(s: State, id: nat, limit: nat) {
    id in s.rows && s.rows[id].attempts >= limit && id !in s.queue && id !in s.working
  }

  /** After a crash and recovery, a row has a job exactly if it has attempts left or the
      queue has kept its job; otherwise it is stranded. No row is changed. */
  lemma RecoveryFindsRows(s: State, kept: set<nat>, limit: nat, id: nat)
    requires Inv(s, limit) && id in s.rows
    ensures var t := Apply(Apply(s, Crash(kept), limit), Recover, limit);
            && t.rows == s.rows
            && (id in t.queue <==> s.rows[id].attempts < limit || (id in s.queue && id in kept))
            && (Stranded(t, id, limit) <==> s.rows[id].attempts >= limit && !(id in s.queue && id in kept))
  {
  }

  /** Only enqueueing it anew could help a stranded row. */
  lemma StrandedStays(s: State, e: Event, limit: nat, id: nat)
    requires Inv(s, limit) && Stranded(s, id, limit) && Enabled(s, e, limit) && e != Enqueue(id)
    ensures Stranded(Apply(s, e, limit), id, limit) && e != Publish(id) && id !in s.exhausted
  {
    assert RowOk(s, id);
  }

  lemma RunStep(states: seq<State>, events: seq<Event>, limit: nat, i: nat)
    requires IsRun(states, events, limit) && i < |events|
    ensures |states| == |events| + 1 && Enabled(states[i], events[i], limit)
    ensures states[i + 1] == Apply(states[i], events[i], limit)
  {
  }

  lemma NotGivenUp(s: State, limit: nat, id: nat)
    requires Inv(s, limit)
    ensures Stranded(s, id, limit) ==> id !in s.exhausted
  {
    assert id in s.rows ==> RowOk(s, id);
  }

  /** Along every run, a stranded row that is not enqueued anew stays stranded: it is
      neither published again nor given up. */
  lemma {:induction false} StrandedForGood(states: seq<State>, events: seq<Event>, limit: nat, id: nat, i: nat, j: nat)
    requires IsRun(states, events, limit) && i <= j < |states| && |states| == |events| + 1
    requires Stranded(states[i], id, limit) && forall k | i <= k < j :: events[k] != Enqueue(id)
    ensures Stranded(states[j], id, limit) && id !in states[j].exhausted
    ensures forall k | i <= k < j :: events[k] != Publish(id)
    decreases j - i
  {
    hide Inv, Enabled, Stranded, Apply, IsRun;
    RunKeepsInv(states, events, limit, j);
    NotGivenUp(states[j], limit, id);
    if i < j {
      RunStep(states, events, limit, j - 1);
      StrandedForGood(states, events, limit, id, i, j - 1);
      RunKeepsInv(states, events, limit, j - 1);
      StrandedStays(states[j - 1], events[j - 1], limit, id);
    }
  }

  lemma FailsAtTheLimit(s: State, t: State)
    requires s.rows == map[0 := Entry([7], 0)] && s.working == map[0 := Taken(Entry([7], 0))] && s.queue == {}
    requires s.failures == map[0 := 0]
    requires t == s.(rows := map[0 := Entry([7], 1)], queue := {0}, working := map[], failures := map[0 := 1])
    ensures Enabled(s, Fail(0), 1) && Apply(s, Fail(0), 1) == t
  {
  }

  lemma NothingPending(s: State, t: State)
    requires s.rows == map[0 := Entry([7], 1)] && s.working == map[] && t == s.(queue := {})
    ensures Apply(s, Crash({}), 1) == t == Apply(t, Recover, 1)
  {
    assert Pending(s.rows, 1) == {};
  }

  /** There are runs that come to this. */
  lemma RecoveryStrandsExhaustedRows() returns (states: seq<State>)
    ensures IsRun(states, [Commit(0, [7]), Enqueue(0), Take(0), Fail(0), Crash({}), Recover], 1)
    ensures 0 in states[6].rows && states[6].queue == {} && states[6].exhausted == {} && states[6].frames == {}
  {
    var payloads: map<nat, Bytes>, unspent, spent := map[0 := [7]], Entry([7], 0), Entry([7], 1);
    var row, spentRow := map[0 := unspent], map[0 := spent];
    var s1 := State(payloads, row, {}, map[], {}, map[0 := 0], {});
    var s2 := s1.(queue := {0});
    var s3 := s1.(working := map[0 := Taken(unspent)]);
    var s4 := State(payloads, spentRow, {0}, map[], {}, map[0 := 1], {});
    var s5 := s4.(queue := {});
    assert Apply(Init(), Commit(0, [7]), 1) == s1 && Apply(s1, Enqueue(0), 1) == s2;
    assert Apply(s2, Take(0), 1) == s3;
    FailsAtTheLimit(s3, s4);
    NothingPending(s4, s5);
    states := [Init(), s1, s2, s3, s4, s5, s5];
  }

  // ----- attempts are failures -----

  ghost function Failures(events: seq<Event>, id: nat): nat
    decreases |events|
  {
    if events == [] then 0 else Failures(events[..|events| - 1], id) + if events[|events| - 1] == Fail(id) then 1 else 0
  }

  /** Attempts are spent by failures and nothing else: each failure of a row below the limit
      takes one from those that are left. */
  lemma FailureTakesAnAttempt(s: State, e: Event, limit: nat, id: nat)
    requires Inv(s, limit) && Enabled(s, e, limit) && id in s.rows
    ensures var t := Apply(s, e, limit);
            && (e == Fail(id) ==> id in t.rows)
            && (id in t.rows ==> t.rows[id] == s.rows[id].(attempts := s.rows[id].attempts + if e == Fail(id) then 1 else 0))
            && (e == Fail(id) && s.rows[id].attempts < limit ==> limit - t.rows[id].attempts == limit - s.rows[id].attempts - 1)
            && (id !in t.rows <==> e == Remove(id) || e == GiveUp(id))
            && (e == GiveUp(id) ==> s.rows[id].attempts >= limit)
            && (e == Publish(id) ==> s.rows[id].attempts < limit)
  {
    assert RowOk(s, id);
    if id in s.working {
      assert WorkOk(s, id);
    }
  }

  ghost function Recorded(s: State, id: nat): nat { if id in s.failures then s.failures[id] else 0 }

  lemma FailureCounted(s: State, e: Event, limit: nat, id: nat)
    requires Inv(s, limit) && Enabled(s, e, limit)
    ensures Recorded(Apply(s, e, limit), id) == Recorded(s, id) + if e == Fail(id) then 1 else 0
  {
    if e == Fail(id) {
      assert WorkOk(s, id) && RowOk(s, id);
    }
  }

  lemma {:induction false} FailuresRecorded(states: seq<State>, events: seq<Event>, limit: nat, i: nat, id: nat)
    requires IsRun(states, events, limit) && i < |states|
    ensures Recorded(states[i], id) == Failures(events[..i], id)
    decreases i
  {
    if i > 0 {
      FailuresRecorded(states, events, limit, i - 1, id);
      RunKeepsInv(states, events, limit, i - 1);
      assert Enabled(states[i - 1], events[i - 1], limit);
      assert events[..i][..i - 1] == events[..i - 1];
      hide Inv;
      FailureCounted(states[i - 1], events[i - 1], limit, id);
    }
  }

  /** In every run, a row's attempts are the failures it has had, and a row is given up only
      after as many as the limit. */
  lemma AttemptsAreFailures(states: seq<State>, events: seq<Event>, limit: nat, i: nat, id: nat)
    requires IsRun(states, events, limit) && i < |states|
    ensures id in states[i].rows ==> states[i].rows[id].attempts == Failures(events[..i], id)
    ensures id in states[i].exhausted ==> Failures(events[..i], id) >= limit
  {
    FailuresRecorded(states, events, limit, i, id);
    RunKeepsInv(states, events, limit, i);
    hide IsRun;
    if id in states[i].rows {
      assert RowOk(states[i], id);
    }
  }

  // ----- retries -----

  const BASE_DELAY_MS: real := 1000.0
  const MAX_DELAY_MS: real := 300000.0

  function PowerOfTwo(n: nat): nat { if n == 0 then 1 else 2 * PowerOfTwo(n - 1) }

  function Capped(attempts: nat): real {
    var delay := BASE_DELAY_MS * PowerOfTwo(attempts) as real;
    if delay < MAX_DELAY_MS then delay else MAX_DELAY_MS
  }

  lemma Spread(delay: real, random: real)
    requires 0.0 < delay && 0.0 <= random < 1.0
    ensures 0.5 * delay <= delay * (0.5 + random * 0.5) < delay
  {
    assert delay * random >= 0.0 && delay * (1.0 - random) > 0.0;
    assert delay * (0.5 + random * 0.5) == 0.5 * delay + 0.5 * (delay * random);
  }

  /** The pause before attempt `attempts` is repeated, for a random number below one. */
  method RetryDelay(attempts: nat, random: real) returns (delay: real)
    requires 0.0 <= random < 1.0
    ensures delay == Capped(attempts) * (0.5 + random * 0.5)
    ensures 0.5 * Capped(attempts) <= delay < Capped(attempts) <= 300000.0
  {
    hide PowerOfTwo;
    PowerPositive(attempts);
    delay := BASE_DELAY_MS * PowerOfTwo(attempts) as real;
    delay := if delay < MAX_DELAY_MS then delay else MAX_DELAY_MS;
    assert delay == Capped(attempts);
    Spread(delay, random);
    delay := delay * (0.5 + random * 0.5);
  }

  lemma {:induction false} PowerPositive(n: nat)
    ensures PowerOfTwo(n) >= 1
  {
    if n > 0 {
      PowerPositive(n - 1);
    }
  }

  /** The backoff starts at two seconds after the first failure and doubles up to the cap of
      five minutes, which it reaches with the ninth. */
  lemma {:induction false} BackoffGrows(attempts: nat)
    ensures Capped(0) == 1000.0 && Capped(1) == 2000.0
    ensures attempts < 8 ==> Capped(attempts + 1) == 2.0 * Capped(attempts)
    ensures Capped(attempts) <= Capped(attempts + 1) <= 2.0 * Capped(attempts)
    ensures if attempts >= 9 then Capped(attempts) == 300000.0 else Capped(attempts) < 300000.0
  {
    if attempts > 9 {
      BackoffGrows(attempts - 1);
    } else {
      assert PowerOfTwo(1) == 2 && PowerOfTwo(2) == 4 && PowerOfTwo(3) == 8 && PowerOfTwo(4) == 16;
      assert PowerOfTwo(5) == 32 && PowerOfTwo(6) == 64 && PowerOfTwo(7) == 128;
      assert PowerOfTwo(8) == 256 && PowerOfTwo(9) == 512 && PowerOfTwo(10) == 1024;
    }
  }

  // ----- the worker -----

  lemma RowAtWork(s: State, id: nat, limit: nat)
    requires Inv(s, limit) && id in s.working
    ensures id in s.rows && s.rows[id] == s.working[id].entry && id in s.failures
  {
    assert WorkOk(s, id) && RowOk(s, id);
  }

  lemma FailedState(s: State, id: nat, limit: nat)
    requires Inv(s, limit) && id in s.working
    ensures var entry := s.working[id].entry;
            && id in s.failures && Inv(Apply(s, Fail(id), limit), limit)
            && Apply(s, Fail(id), limit)
               == State(s.committed, s.rows[id := entry.(attempts := entry.attempts + 1)], s.queue + {id}, s.working - {id},
                        s.frames, s.failures[id := s.failures[id] + 1], s.exhausted)
  {
    StepKeepsInv(s, Fail(id), limit);
    RowAtWork(s, id, limit);
    hide Inv;
  }

  class OutboxWorker {
    const maxAttempts: nat
    var rows: map<nat, Entry>
    var queue: set<nat>
    var frames: set<(nat, Bytes)>
    ghost var committed: map<nat, Bytes>
    ghost var working: map<nat, Stage>
    ghost var failures: map<nat, nat>
    ghost var exhausted: set<nat>

    ghost function View(): State
      reads this
    {
      State(committed, rows, queue, working, frames, failures, exhausted)
    }

    ghost predicate Valid()
      reads this
    {
      Inv(View(), maxAttempts)
    }

    /** Rows left over from before a restart are enqueued again. */
    method OnModuleInit()
      requires Valid()
      modifies this`queue
      ensures Valid() && View() == Apply(old(View()), Recover, maxAttempts)
    {
      StepKeepsInv(View(), Recover, maxAttempts);
      queue := queue + Pending(rows, maxAttempts);
    }

    method TakeJob(id: nat) returns (row: Option<Entry>)
      requires Valid() && Enabled(View(), Take(id), maxAttempts)
      modifies this`queue, this`working
      ensures Valid() && View() == Apply(old(View()), Take(id), maxAttempts)
      ensures row == if id in rows then Some(rows[id]) else None
    {
      StepKeepsInv(View(), Take(id), maxAttempts);
      queue := queue - {id};
      row := if id in rows then Some(rows[id]) else None;
      if id in rows {
        working := working[id := Taken(rows[id])];
      }
    }

    method PublishFrame(id: nat, entry: Entry)
      requires Valid() && Enabled(View(), Publish(id), maxAttempts) && working[id].entry == entry
      modifies this`frames, this`working
      ensures Valid() && View() == Apply(old(View()), Publish(id), maxAttempts)
    {
      StepKeepsInv(View(), Publish(id), maxAttempts);
      frames, working := frames + {(id, FrameOf(entry.payload))}, working[id := Sent(entry)];
    }

    method DeleteRow(id: nat)
      requires Valid() && (Enabled(View(), Remove(id), maxAttempts) || Enabled(View(), GiveUp(id), maxAttempts))
      modifies this`rows, this`working, this`exhausted
      ensures Valid()
      ensures View() == Apply(old(View()), if old(working)[id].Sent? then Remove(id) else GiveUp(id), maxAttempts)
    {
      StepKeepsInv(View(), if working[id].Sent? then Remove(id) else GiveUp(id), maxAttempts);
      hide Inv;
      exhausted := if working[id].Sent? then exhausted else exhausted + {id};
      rows, working := rows - {id}, working - {id};
    }

    method RecordFailure(id: nat, entry: Entry)
      requires Valid() && id in working && working[id].entry == entry
      modifies this`rows, this`queue, this`working, this`failures
      ensures Valid() && View() == Apply(old(View()), Fail(id), maxAttempts)
      ensures rows == old(rows)[id := entry.(attempts := entry.attempts + 1)]
    {
      FailedState(View(), id, maxAttempts);
      ghost var next := Apply(View(), Fail(id), maxAttempts);
      hide Apply, Enabled, Inv;
      working, failures := working - {id}, failures[id := failures[id] + 1];
      rows, queue := rows[id := entry.(attempts := entry.attempts + 1)], queue + {id};
      assert View() == next;
    }

    /** One job, of which the publishing and the deletion may each fail. Afterwards the row is
        gone, or it has one attempt more and is queued again after a pause. */
    method Process(id: nat, publishes: bool, deletes: bool, random: real) returns (delay: Option<real>)
      requires Valid() && id in queue && id !in working && 0.0 <= random < 1.0
      modifies this
      ensures Valid() && id !in working
      ensures id !in old(rows) ==> rows == old(rows) && frames == old(frames) && delay == None
      ensures id in old(rows) && deletes ==>
                match AfterJob(old(rows)[id], publishes, maxAttempts)
                case Waiting(next) => rows == old(rows)[id := next] && frames == old(frames) && exhausted == old(exhausted)
                case Published =>
                  && rows == old(rows) - {id} && exhausted == old(exhausted) && delay == None
                  && frames == old(frames) + {(id, FrameOf(old(rows)[id].payload))}
                case GivenUp =>
                  && rows == old(rows) - {id} && frames == old(frames)
                  && exhausted == old(exhausted) + {id} && delay == None
      ensures id in old(rows) && !deletes ==>
                var entry := old(rows)[id];
                && rows == old(rows)[id := entry.(attempts := entry.attempts + 1)] && exhausted == old(exhausted)
                && frames == if entry.attempts < maxAttempts && publishes
                             then old(frames) + {(id, FrameOf(entry.payload))} else old(frames)
      ensures id in old(rows) && id in rows ==>
                var attempts := rows[id].attempts;
                id in queue && delay.Some? && 0.5 * Capped(attempts) <= delay.value < Capped(attempts)
    {
      hide Inv, Capped, FrameOf;
      delay := None;
      var row := TakeJob(id);
      if row.None? {
        return;
      }
      if row.value.attempts >= maxAttempts {
        if deletes {
          DeleteRow(id);
          return;
        }
      } else if publishes {
        PublishFrame(id, row.value);
        if deletes {
          DeleteRow(id);
          return;
        }
      }
      RecordFailure(id, row.value);
      var pause := RetryDelay(row.value.attempts + 1, random);
      delay := Some(pause);
    }
  }

  // ----- an end to retrying -----

  datatype Ending = Waiting(entry: Entry) | Published | GivenUp

  /** A row after one job whose deletion, if it comes to that, succeeds. */
  function AfterJob(entry: Entry, publishes: bool, limit: nat): Ending {
    if entry.attempts >= limit then GivenUp
    else if publishes then Published
    else Waiting(entry.(attempts := entry.attempts + 1))
  }

  /** A row after the jobs with the given publishing outcomes. */
  function AfterJobs(entry: Entry, outcomes: seq<bool>, limit: nat): Ending
    decreases |outcomes|
  {
    if outcomes == [] then Waiting(entry)
    else
      match AfterJob(entry, outcomes[0], limit)
      case Waiting(next) => AfterJobs(next, outcomes[1..], limit)
      case end => end
  }

  /** The attempts left: the measure of retrying. */
  function AttemptsLeft(entry: Entry, limit: nat): nat { if entry.attempts < limit then limit - entry.attempts else 0 }

  ghost predicate Succeeds(outcomes: seq<bool>, n: nat) { exists i :: 0 <= i < n && i < |outcomes| && outcomes[i] }

  /** A row is published if and only if one of as many publishing outcomes as it has attempts
      left is a success, and given up if and only if there is one job more and none is. It
      waits, with an attempt more for each job, only as long as attempts are left. */
  lemma {:induction false} RetriesEnd(entry: Entry, outcomes: seq<bool>, limit: nat)
    ensures var left, end := AttemptsLeft(entry, limit), AfterJobs(entry, outcomes, limit);
            && (end == Published <==> Succeeds(outcomes, left))
            && (end == GivenUp <==> |outcomes| > left && !Succeeds(outcomes, left))
            && (end.Waiting? ==> end.entry == entry.(attempts := entry.attempts + |outcomes|))
    decreases |outcomes|
  {
    if outcomes != [] {
      var left, rest := AttemptsLeft(entry, limit), outcomes[1..];
      if entry.attempts < limit && !outcomes[0] {
        var next := entry.(attempts := entry.attempts + 1);
        RetriesEnd(next, rest, limit);
        if Succeeds(outcomes, left) {
          var i :| 0 <= i < left && i < |outcomes| && outcomes[i];
          assert rest[i - 1];
        }
        if Succeeds(rest, left - 1) {
          var i :| 0 <= i < left - 1 && i < |rest| && rest[i];
          assert outcomes[i + 1];
        }
      } else if entry.attempts < limit {
        assert Succeeds(outcomes, left);
      }
    }
  }

  /** So the outbox does not retry until delivered: whatever the limit, a row is given up if
      publishing succeeds only after that many failures. */
  lemma GivenUpBeforeSuccess(payload: Bytes, limit: nat)
    ensures var outcomes := seq(limit + 1, i requires 0 <= i <= limit => i == limit);
            outcomes[limit] && AfterJobs(Entry(payload, 0), outcomes, limit) == GivenUp
  {
    var outcomes := seq(limit + 1, i requires 0 <= i <= limit => i == limit);
    RetriesEnd(Entry(payload, 0), outcomes, limit);
  }
}
