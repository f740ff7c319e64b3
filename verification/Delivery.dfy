/** One document's updates on their way to the sockets: instances that subscribe and relay,
    sockets that join, close and leave, and outbox rows published at least once. */
module Delivery {
  import opened Wrappers
  import opened OperationLog

  /** How far a join handler has come. */
  datatype Phase =
    | InRoom
    | HasBase(base: Option<Snapshot>)
    | HasInitialState(content: Update)
    | Live

  datatype Socket = Socket(instance: nat, open: bool, phase: Phase, held: Update)

  datatype Frame = Frame(instance: nat, row: Row)

  datatype System = System(
    log: State,
    outbox: set<Row>,
    published: set<Row>,        // rows published at least once
    dead: set<Row>,             // rows given up
    subscribed: set<nat>,       // instances that relay the document's channel
    frames: multiset<Frame>,    // frames on their way to an instance
    sockets: map<nat, Socket>)  // those in some instance's room

  datatype Move =
    | OnLog(event: Event)
    | Enter(socket: nat, instance: nat)
    | Subscribe(instance: nat)
    | ReadBase(socket: nat)
    | ReadOperations(socket: nat)
    | SendInitialState(socket: nat)
    | Publish(row: Row)
    | BroadcastAi(row: Row)
    | DeleteRow(row: Row)
    | DeadLetter(row: Row)
    | Relay(frame: Frame)
    | SendToPeers(row: Row, instance: nat, except: Option<nat>)   // whose sender may have left
    | Close(socket: nat)
    | Disconnect(socket: nat)

  function Start(): System { System(Init(), {}, {}, {}, {}, multiset{}, map[]) }

  predicate CanMove(s: System, m: Move) {
    match m
    case OnLog(e) => Enabled(s.log, e)
    case Enter(id, _) => id !in s.sockets
    case Subscribe(_) => true
    case ReadBase(id) => id in s.sockets && s.sockets[id].phase.InRoom? && s.sockets[id].instance in s.subscribed
    case ReadOperations(id) => id in s.sockets && s.sockets[id].phase.HasBase?
    case SendInitialState(id) => id in s.sockets && s.sockets[id].phase.HasInitialState?
    case Publish(row) => row in s.outbox
    case BroadcastAi(row) => row in s.log.committed
    case DeleteRow(row) => row in s.outbox && row in s.published
    case DeadLetter(row) => row in s.outbox
    case Relay(frame) => frame in s.frames
    case SendToPeers(row, _, _) => row in s.log.committed
    case Close(id) => id in s.sockets
    case Disconnect(id) => id in s.sockets && !s.sockets[id].open
  }

  predicate Occupied(sockets: map<nat, Socket>, instance: nat) {
    exists id | id in sockets :: sockets[id].instance == instance
  }

  /** Sends an update to the open sockets in an instance's room, except one. */
  function Send(sockets: map<nat, Socket>, instance: nat, except: Option<nat>, update: Update): map<nat, Socket> {
    map id | id in sockets ::
      if sockets[id].instance == instance && sockets[id].open && Some(id) != except
      then sockets[id].(held := sockets[id].held + update) else sockets[id]
  }

  function FramesFor(instances: set<nat>, row: Row): multiset<Frame> {
    multiset(set i | i in instances :: Frame(i, row))
  }

  /** The last socket to leave takes the subscription with it. */
  function Leave(s: System, id: nat): System
    requires id in s.sockets
  {
    var rest, instance := s.sockets - {id}, s.sockets[id].instance;
    s.(sockets := rest, subscribed := if Occupied(rest, instance) then s.subscribed else s.subscribed - {instance})
  }

  function Phased(s: System, id: nat, phase: Phase): System
    requires id in s.sockets
  {
    s.(sockets := s.sockets[id := s.sockets[id].(phase := phase)])
  }

  function Go(s: System, m: Move): System
    requires CanMove(s, m)
  {
    match m
    case OnLog(e) =>
      var added := if e.Commit? then (set row | row in s.log.writer.value.rows) else {};
      s.(log := Apply(s.log, e), outbox := s.outbox + added)
    case Enter(id, instance) => s.(sockets := s.sockets[id := Socket(instance, true, InRoom, {})])
    case Subscribe(instance) => s.(subscribed := s.subscribed + {instance})
    case ReadBase(id) => Phased(s, id, HasBase(s.log.Latest()))
    case ReadOperations(id) =>
      var base := s.sockets[id].phase.base;
      Phased(s, id, HasInitialState(ContentOf(base) + Join(Since(s.log.committed, MarkOf(base)))))
    case SendInitialState(id) =>
      var socket := s.sockets[id];
      s.(sockets := s.sockets[id := socket.(phase := Live, held := socket.held + socket.phase.content)])
    case Publish(row) => s.(frames := s.frames + FramesFor(s.subscribed, row), published := s.published + {row})
    case BroadcastAi(row) => s.(frames := s.frames + FramesFor(s.subscribed, row))
    case DeleteRow(row) => s.(outbox := s.outbox - {row})
    case DeadLetter(row) => s.(outbox := s.outbox - {row}, dead := s.dead + {row})
    case Relay(frame) =>
      s.(frames := s.frames - multiset{frame}, sockets := Send(s.sockets, frame.instance, None, frame.row.update))
    case SendToPeers(row, instance, except) => s.(sockets := Send(s.sockets, instance, except, row.update))
    case Close(id) => s.(sockets := s.sockets[id := s.sockets[id].(open := false)])
    case Disconnect(id) => Leave(s, id)
  }

  // ----- the invariant -----

  /** What a socket has been sent, or is about to be sent as its initial state. */
  ghost function Known(socket: Socket): Update {
    if socket.phase.HasInitialState? then socket.held + socket.phase.content else socket.held
  }

  ghost predicate Follows(socket: Socket) { socket.open && (socket.phase.HasInitialState? || socket.phase.Live?) }

  /** A committed row is known to a socket, on its way, waiting to be published, or given up. */
  ghost predicate Covered(s: System, socket: Socket, row: Row) {
    || row.update <= Known(socket)
    || (row in s.outbox && row !in s.published)
    || row in s.dead
    || Frame(socket.instance, row) in s.frames
  }

  ghost predicate NoGap(s: System, socket: Socket) {
    Follows(socket) ==> forall row | row in s.log.committed :: Covered(s, socket, row)
  }

  ghost predicate SocketOk(s: System, socket: Socket) {
    && Known(socket) <= Join(s.log.committed)
    && (!socket.phase.InRoom? ==> socket.instance in s.subscribed)
    && (socket.phase.HasBase? && socket.phase.base.Some? ==> Faithful(s.log.committed, socket.phase.base.value))
    && NoGap(s, socket)
  }

  ghost predicate AllCommitted(s: System) {
    && (forall row | row in s.outbox + s.published + s.dead :: row in s.log.committed)
    && (forall frame | frame in s.frames :: frame.row in s.log.committed)
  }

  ghost predicate Safe(s: System) {
    && Inv(s.log) && AllCommitted(s)
    && forall id | id in s.sockets :: SocketOk(s, s.sockets[id])
  }

  // ----- joins -----

  lemma {:induction false} JoinHolds(rows: seq<Row>, row: Row)
    requires row in rows
    ensures row.update <= Join(rows)
    decreases |rows|
  {
    if row != rows[|rows| - 1] {
      assert row in rows[..|rows| - 1];
      JoinHolds(rows[..|rows| - 1], row);
    }
  }

  lemma {:induction false} JoinWithin(rows: seq<Row>, held: Update)
    requires forall row | row in rows :: row.update <= held
    ensures Join(rows) <= held
    decreases |rows|
  {
    if rows != [] {
      JoinWithin(rows[..|rows| - 1], held);
    }
  }

  lemma {:induction false} JoinGrows(rows: seq<Row>, more: seq<Row>)
    ensures Join(rows) <= Join(rows + more)
    decreases |more|
  {
    if more == [] {
      assert rows + more == rows;
    } else {
      JoinGrows(rows, more[..|more| - 1]);
      assert (rows + more)[..|rows| + |more| - 1] == rows + more[..|more| - 1];
    }
  }

  // ----- every move keeps it -----

  lemma CommitKeepsSafe(s: System)
    requires Safe(s) && s.log.writer.Some?
    ensures Safe(Go(s, OnLog(Commit)))
  {
    var t, more := Go(s, OnLog(Commit)), s.log.writer.value.rows;
    StepKeepsInv(s.log, Commit);
    NewRows(s.log);
    JoinGrows(s.log.committed, more);
    hide Inv, Ascending, Faithful;
    forall id | id in t.sockets ensures SocketOk(t, t.sockets[id]) {
      var socket := s.sockets[id];
      assert SocketOk(s, socket);
      if socket.phase.HasBase? && socket.phase.base.Some? {
        FaithfulLater(s.log.committed, more, socket.phase.base.value);
      }
      forall row | row in t.log.committed && Follows(socket) ensures Covered(t, socket, row) {
        if row in s.log.committed {
          assert Covered(s, socket, row);
        }
      }
    }
  }

  /** The writer's rows are none of the committed ones. */
  lemma NewRows(log: State)
    requires Inv(log) && log.writer.Some?
    ensures var more := log.writer.value.rows;
            && Ascending(log.committed + more) && (forall i | 0 <= i < |more| :: 0 < more[i].sequence)
            && forall row | row in more :: row !in log.committed
  {
    CommittedOk(log);
    var rows, more := log.committed, log.writer.value.rows;
    assert forall i | 0 <= i < |more| :: Ahead(log)[|rows| + i] == more[i];
    hide Inv, Numbered;
    forall i | 0 <= i < |more| ensures more[i] !in rows {
      NewRow(rows, more, i);
    }
  }

  lemma NewRow(rows: seq<Row>, more: seq<Row>, i: nat)
    requires Ascending(rows + more) && i < |more|
    ensures more[i] !in rows
  {
    var all := rows + more;
    assert forall j | 0 <= j < |rows| :: rows[j] == all[j] && all[j].sequence < all[|rows| + i].sequence;
  }

  lemma ReadOperationsKeepsSafe(s: System, id: nat)
    requires Safe(s) && CanMove(s, ReadOperations(id))
    ensures Safe(Go(s, ReadOperations(id)))
  {
    var t, socket := Go(s, ReadOperations(id)), s.sockets[id];
    assert SocketOk(s, socket);
    CommittedOk(s.log);
    BaseAndDelta(s.log.committed, socket.phase.base);
    forall row | row in s.log.committed ensures Covered(t, t.sockets[id], row) {
      JoinHolds(s.log.committed, row);
    }
    hide Inv, Faithful;
    OthersStay(s, t, id);
  }

  /** A move that changes one socket alone leaves the others as they are. */
  lemma OthersStay(s: System, t: System, id: nat)
    requires Safe(s) && t == s.(sockets := t.sockets)
    requires t.sockets.Keys <= s.sockets.Keys + {id}
    requires forall other | other in t.sockets && other != id :: t.sockets[other] == s.sockets[other]
    ensures forall other | other in t.sockets && other != id :: SocketOk(t, t.sockets[other])
  {
    forall other | other in t.sockets && other != id ensures SocketOk(t, t.sockets[other]) {
      assert SocketOk(s, s.sockets[other]);
      forall row | row in t.log.committed && Follows(t.sockets[other]) ensures Covered(t, t.sockets[other], row) {
        assert Covered(s, s.sockets[other], row);
      }
    }
  }

  lemma LogMoveKeepsSafe(s: System, e: Event)
    requires Safe(s) && Enabled(s.log, e) && !e.Commit?
    ensures Safe(Go(s, OnLog(e)))
  {
    var t := Go(s, OnLog(e));
    StepKeepsInv(s.log, e);
    assert t.outbox == s.outbox && t.log.committed == s.log.committed;
    hide Inv, Faithful, Known;
    forall id | id in t.sockets ensures SocketOk(t, t.sockets[id]) {
      assert SocketOk(s, s.sockets[id]);
      forall row | row in t.log.committed && Follows(t.sockets[id]) ensures Covered(t, t.sockets[id], row) {
        assert Covered(s, s.sockets[id], row);
      }
    }
  }

  /** Moves of one socket that do not read the log. */
  lemma SocketMoveKeepsSafe(s: System, m: Move)
    requires Safe(s) && CanMove(s, m)
    requires m.Enter? || m.ReadBase? || m.SendInitialState? || (m.Close? && m.socket in s.sockets)
    ensures Safe(Go(s, m))
  {
    var t, id := Go(s, m), m.socket;
    if id in s.sockets {
      assert SocketOk(s, s.sockets[id]);
      forall row | row in t.log.committed && Follows(t.sockets[id]) ensures Covered(t, t.sockets[id], row) {
        assert Covered(s, s.sockets[id], row);
      }
    }
    if m.ReadBase? && s.log.stored != [] {
      assert Faithful(s.log.committed, s.log.stored[|s.log.stored| - 1]);
    }
    hide Inv, Faithful;
    OthersStay(s, t, id);
  }

  lemma DisconnectKeepsSafe(s: System, id: nat)
    requires Safe(s) && CanMove(s, Disconnect(id))
    ensures Safe(Go(s, Disconnect(id)))
  {
    var t, rest := Go(s, Disconnect(id)), s.sockets - {id};
    hide Inv, Faithful, Known;
    forall other | other in t.sockets ensures SocketOk(t, t.sockets[other]) {
      assert SocketOk(s, s.sockets[other]) && t.sockets[other] == s.sockets[other];
      assert Occupied(rest, t.sockets[other].instance);
      forall row | row in t.log.committed && Follows(t.sockets[other]) ensures Covered(t, t.sockets[other], row) {
        assert Covered(s, s.sockets[other], row);
      }
    }
  }

  /** Moves of the outbox worker, and of frames into the channel. */
  lemma OutboxMoveKeepsSafe(s: System, m: Move)
    requires Safe(s) && CanMove(s, m)
    requires m.Publish? || m.BroadcastAi? || m.DeleteRow? || m.DeadLetter? || m.Subscribe?
    ensures Safe(Go(s, m))
  {
    var t := Go(s, m);
    hide Inv, SocketOk;
    forall id | id in t.sockets ensures SocketOk(t, t.sockets[id]) {
      OutboxMoveKeepsOk(s, m, s.sockets[id]);
    }
  }

  lemma OutboxMoveKeepsOk(s: System, m: Move, socket: Socket)
    requires SocketOk(s, socket) && CanMove(s, m)
    requires m.Publish? || m.BroadcastAi? || m.DeleteRow? || m.DeadLetter? || m.Subscribe?
    ensures SocketOk(Go(s, m), socket)
  {
    hide Faithful, Known, Covered, Join;
    forall row | row in s.log.committed && Follows(socket) ensures Covered(Go(s, m), socket, row) {
      assert Covered(s, socket, row);
      StaysCovered(s, m, socket, row);
    }
  }

  lemma StaysCovered(s: System, m: Move, socket: Socket, row: Row)
    requires Covered(s, socket, row) && CanMove(s, m) && socket.instance in s.subscribed
    requires m.Publish? || m.BroadcastAi? || m.DeleteRow? || m.DeadLetter? || m.Subscribe?
    ensures Covered(Go(s, m), socket, row)
  {
    hide Known, Inv, Faithful;
    if m.Publish? && m.row == row {
      assert Frame(socket.instance, row) in FramesFor(s.subscribed, row);
    }
  }

  /** A socket that an update may have been sent to, while at most a frame for its
      instance with that update was taken away. */
  lemma SentKeepsOk(s: System, t: System, before: Socket, after: Socket, row: Row)
    requires SocketOk(s, before) && row in s.log.committed && after == before.(held := after.held)
    requires before.held <= after.held <= before.held + row.update
    requires t == s.(frames := t.frames, sockets := t.sockets)
    requires forall frame | frame in s.frames :: frame in t.frames || frame.row == row
    requires after.open && Frame(after.instance, row) in s.frames ==>
               row.update <= after.held || Frame(after.instance, row) in t.frames
    ensures SocketOk(t, after)
  {
    JoinHolds(s.log.committed, row);
    hide Faithful, Join;
    forall other | other in t.log.committed && Follows(after) ensures Covered(t, after, other) {
      assert Covered(s, before, other);
    }
  }

  /** What is sent is committed, and a frame that is relayed reaches every open socket of
      its instance. */
  lemma SendKeepsSafe(s: System, m: Move)
    requires Safe(s) && CanMove(s, m) && (m.Relay? || m.SendToPeers?)
    ensures Safe(Go(s, m))
  {
    var t := Go(s, m);
    hide Inv, SocketOk;
    forall id | id in t.sockets ensures SocketOk(t, t.sockets[id]) {
      SendKeepsOk(s, m, id);
    }
  }

  lemma SendKeepsOk(s: System, m: Move, id: nat)
    requires AllCommitted(s) && CanMove(s, m) && (m.Relay? || m.SendToPeers?) && id in s.sockets && SocketOk(s, s.sockets[id])
    ensures SocketOk(Go(s, m), Go(s, m).sockets[id])
  {
    var t, row := Go(s, m), if m.Relay? then m.frame.row else m.row;
    hide SocketOk;
    SentKeepsOk(s, t, s.sockets[id], t.sockets[id], row);
  }

  lemma MoveKeepsSafe(s: System, m: Move)
    requires Safe(s) && CanMove(s, m)
    ensures Safe(Go(s, m))
  {
    hide Safe;
    match m
    case OnLog(e) =>
      if e.Commit? {
        CommitKeepsSafe(s);
      } else {
        LogMoveKeepsSafe(s, e);
      }
    case ReadOperations(id) => ReadOperationsKeepsSafe(s, id);
    case Disconnect(id) => DisconnectKeepsSafe(s, id);
    case Relay(_) => SendKeepsSafe(s, m);
    case SendToPeers(_, _, _) => SendKeepsSafe(s, m);
    case Publish(_) => OutboxMoveKeepsSafe(s, m);
    case BroadcastAi(_) => OutboxMoveKeepsSafe(s, m);
    case DeleteRow(_) => OutboxMoveKeepsSafe(s, m);
    case DeadLetter(_) => OutboxMoveKeepsSafe(s, m);
    case Subscribe(_) => OutboxMoveKeepsSafe(s, m);
    case _ => SocketMoveKeepsSafe(s, m);
  }

  // ----- runs -----

  ghost predicate IsHistory(systems: seq<System>, moves: seq<Move>) {
    && |systems| == |moves| + 1 && systems[0] == Start()
    && forall i | 0 <= i < |moves| :: CanMove(systems[i], moves[i]) && systems[i + 1] == Go(systems[i], moves[i])
  }

  lemma {:induction false} HistoryIsSafe(systems: seq<System>, moves: seq<Move>, i: nat)
    requires IsHistory(systems, moves) && i < |systems|
    ensures Safe(systems[i])
  {
    if i > 0 {
      HistoryIsSafe(systems, moves, i - 1);
      assert CanMove(systems[i - 1], moves[i - 1]);
      MoveKeepsSafe(systems[i - 1], moves[i - 1]);
    }
  }

  /** In every state of every run, a socket has been sent nothing that is not committed. */
  lemma NothingUncommittedIsSent(systems: seq<System>, moves: seq<Move>, i: nat, id: nat)
    requires IsHistory(systems, moves) && i < |systems| && id in systems[i].sockets
    ensures systems[i].sockets[id].held <= Join(systems[i].log.committed)
  {
    HistoryIsSafe(systems, moves, i);
    assert SocketOk(systems[i], systems[i].sockets[id]);
  }

  /** Once every outbox row is published, none is given up and no frame is under way, each
      open socket that has its initial state holds the join of all committed operations. */
  lemma NoGapBeforeTheLiveStream(systems: seq<System>, moves: seq<Move>, i: nat, id: nat)
    requires IsHistory(systems, moves) && i < |systems| && id in systems[i].sockets
    requires systems[i].outbox <= systems[i].published && systems[i].dead == {} && systems[i].frames == multiset{}
    requires systems[i].sockets[id].open && systems[i].sockets[id].phase.Live?
    ensures systems[i].sockets[id].held == Join(systems[i].log.committed)
  {
    HistoryIsSafe(systems, moves, i);
    var s, socket := systems[i], systems[i].sockets[id];
    assert SocketOk(s, socket);
    forall row | row in s.log.committed ensures row.update <= socket.held {
      assert Covered(s, socket, row);
    }
    JoinWithin(s.log.committed, socket.held);
  }

  // ----- what a frame does -----

  /** An update that is published reaches every subscribed instance: once its frame there is
      relayed, each open socket of that instance holds it, and no other socket changes. */
  lemma PublishedReaches(s: System, m: Move, instance: nat, id: nat)
    requires CanMove(s, m) && (m.Publish? || m.BroadcastAi?) && instance in s.subscribed && id in s.sockets
    ensures CanMove(Go(s, m), Relay(Frame(instance, m.row)))
    ensures m.Publish? ==> m.row in Go(s, m).published
    ensures var before, after := s.sockets[id], Go(Go(s, m), Relay(Frame(instance, m.row))).sockets;
            && after.Keys == s.sockets.Keys && after[id] == before.(held := after[id].held)
            && after[id].held == if before.instance == instance && before.open then before.held + m.row.update else before.held
  {
    assert Frame(instance, m.row) in FramesFor(s.subscribed, m.row);
  }

  /** What a client sends goes to the open sockets of its room, not back to itself. */
  lemma PeersReceive(s: System, row: Row, instance: nat, sender: Option<nat>, id: nat)
    requires CanMove(s, SendToPeers(row, instance, sender)) && id in s.sockets
    ensures var before, after := s.sockets[id], Go(s, SendToPeers(row, instance, sender)).sockets;
            && after.Keys == s.sockets.Keys && after[id] == before.(held := after[id].held)
            && after[id].held == if before.instance == instance && before.open && sender != Some(id)
                                 then before.held + row.update else before.held
  {
  }

  /** A socket that has been closed receives nothing more, and can be taken from its room. */
  lemma ClosedReceivesNothing(s: System, id: nat, m: Move)
    requires id in s.sockets && CanMove(s, m) && (m.Relay? || m.SendToPeers?)
    ensures var closed := Go(s, Close(id));
            CanMove(closed, Disconnect(id)) && CanMove(closed, m) && id in Go(closed, m).sockets
            && Go(closed, m).sockets[id].held == s.sockets[id].held
  {
  }
}
