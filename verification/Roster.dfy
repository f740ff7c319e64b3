/** Which users the roster of a document names: in runs whose handlers finish in time, and
    in all runs. */
module Roster {
  import opened Presence

  // ----- handlers that finish before their socket's disconnect -----

  /** A socket joins once and while it is open; its handler is through when its disconnect
      runs, which finds the room. */
  ghost predicate InTime(s: State, e: Event) {
    match e
    case Join(_, c) => c in s.sockets && s.sockets[c].open && forall h | h in s.handlers :: s.handlers[h].socket != c
    case Disconnect(c, found) => forall h | h in s.handlers && s.handlers[h].socket == c :: s.handlers[h].stage.Done? && found
    case _ => true
  }

  /** A handler that is to write its user's name. */
  predicate ToName(handler: Handler) { handler.stage.Naming? || handler.stage == Answered(true) }

  ghost predicate Pending(s: State, user: User) {
    exists h | h in s.handlers :: s.handlers[h].user == user && ToName(s.handlers[h])
  }

  ghost predicate RosterOk(s: State, user: User) {
    user in s.store.names <==> Of(s.live, user) != {} && !Pending(s, user)
  }

  /** A handler that is not through: its socket is open, and live if it has been counted. A
      handler that is through has set the mark. */
  ghost predicate Timely(s: State, h: nat)
    requires h in s.handlers
  {
    var Handler(c, user, stage) := s.handlers[h];
    && c in s.sockets && s.sockets[c].user == user
    && (stage.Entered? ==> s.sockets[c].open && c !in s.live)
    && (stage.Answered? || stage.Naming? ==> s.sockets[c].open && c in s.live && s.live[c] == user)
    && (stage.Naming? || stage.Done? ==> s.sockets[c].counted)
  }

  ghost predicate OnePerSocket(s: State) {
    forall h, g | h in s.handlers && g in s.handlers && h != g :: s.handlers[h].socket != s.handlers[g].socket
  }

  ghost predicate OneNamer(s: State) {
    forall h, g | h in s.handlers && g in s.handlers && h != g && ToName(s.handlers[h]) && ToName(s.handlers[g]) ::
      s.handlers[h].user != s.handlers[g].user
  }

  ghost predicate AllTimely(s: State) {
    && s.lost == multiset{} && OnePerSocket(s) && OneNamer(s)
    && forall h | h in s.handlers :: Timely(s, h)
  }

  lemma CountIsTimely(s: State, g: nat, h: nat)
    requires AllTimely(s) && Enabled(s, Counts(g)) && h in s.handlers
    ensures Timely(Counted(s, g), h)
  {
    assert Timely(s, g) && Timely(s, h);
    hide OneNamer;
  }

  lemma DisconnectIsTimely(s: State, c: nat, found: bool, h: nat)
    requires AllTimely(s) && Enabled(s, Disconnect(c, found)) && InTime(s, Disconnect(c, found)) && h in s.handlers
    ensures Timely(Disconnected(s, c, found), h)
  {
    assert Timely(s, h);
    hide OneNamer, OnePerSocket;
  }

  lemma JoinIsTimely(s: State, g: nat, c: nat, h: nat)
    requires AllTimely(s) && Linked(s) && Enabled(s, Join(g, c)) && InTime(s, Join(g, c)) && h in Apply(s, Join(g, c)).handlers
    ensures Timely(Apply(s, Join(g, c)), h)
  {
    assert SocketOk(s, c);
    assert h in s.handlers ==> Timely(s, h);
    hide OneNamer, OnePerSocket;
  }

  lemma StepIsTimely(s: State, e: Event, h: nat)
    requires AllTimely(s) && Linked(s) && Enabled(s, e) && InTime(s, e) && h in Apply(s, e).handlers
    ensures Timely(Apply(s, e), h)
  {
    match e
    case Join(g, c) => JoinIsTimely(s, g, c, h);
    case Counts(g) => CountIsTimely(s, g, h);
    case Disconnect(c, found) => DisconnectIsTimely(s, c, found, h);
    case _ =>
      assert Timely(s, h);
      hide OneNamer, Linked;
  }

  lemma NothingLost(s: State, e: Event)
    requires AllTimely(s) && Linked(s) && Enabled(s, e) && InTime(s, e)
    ensures Apply(s, e).lost == multiset{}
  {
    match e
    case Counts(h) => assert Timely(s, h);
    case Disconnect(c, _) =>
      assert SocketOk(s, c);
      if c in s.live {
        var h :| h in s.handlers && s.handlers[h].socket == c && !s.handlers[h].stage.Entered?;
        assert Timely(s, h);
      }
    case _ =>
  }

  /** A user's first count finds no handler that is to write the same name. */
  lemma FirstHasNoRival(s: State, user: User)
    requires AllTimely(s) && CountOk(s, user) && Count(s.store, user) == 0
    ensures !Pending(s, user) && Of(s.live, user) == {}
  {
    hide Heard, Alternates;
    forall h | h in s.handlers && s.handlers[h].user == user ensures !ToName(s.handlers[h]) {
      assert Timely(s, h);
      assert s.handlers[h].socket !in Of(s.live, user);
    }
  }

  lemma StepKeepsOneNamer(s: State, e: Event)
    requires AllTimely(s) && Enabled(s, e) && InTime(s, e)
    requires e.Counts? ==> CountOk(s, s.handlers[e.handler].user)
    ensures OneNamer(Apply(s, e)) && OnePerSocket(Apply(s, e))
  {
    hide CountOk, Timely;
    if e.Counts? && Count(s.store, s.handlers[e.handler].user) == 0 {
      FirstHasNoRival(s, s.handlers[e.handler].user);
    }
  }

  lemma StepKeepsTimely(s: State, e: Event)
    requires AllTimely(s) && Linked(s) && Enabled(s, e) && InTime(s, e)
    requires e.Counts? ==> CountOk(s, s.handlers[e.handler].user)
    ensures AllTimely(Apply(s, e))
  {
    NothingLost(s, e);
    StepKeepsOneNamer(s, e);
    hide Timely, OnePerSocket, OneNamer, Linked, CountOk, InTime;
    forall h | h in Apply(s, e).handlers ensures Timely(Apply(s, e), h) {
      StepIsTimely(s, e, h);
    }
  }

  // ----- the roster, step by step -----

  lemma SamePending(s: State, t: State, user: User)
    requires forall h | h in t.handlers && t.handlers[h].user == user && ToName(t.handlers[h]) ::
               h in s.handlers && s.handlers[h].user == user && ToName(s.handlers[h])
    requires forall h | h in s.handlers && s.handlers[h].user == user && ToName(s.handlers[h]) ::
               h in t.handlers && t.handlers[h].user == user && ToName(t.handlers[h])
    ensures Pending(s, user) <==> Pending(t, user)
  {
  }

  lemma CountKeepsRoster(s: State, h: nat, user: User)
    requires RosterOk(s, user) && AllTimely(s) && Enabled(s, Counts(h))
    requires CountOk(s, user) && CountOk(s, s.handlers[h].user)
    ensures RosterOk(Counted(s, h), user)
  {
    var t, caller := Counted(s, h), s.handlers[h].user;
    assert Timely(s, h);
    hide Heard, Alternates;
    if user == caller && Count(s.store, user) == 0 {
      FirstHasNoRival(s, user);
      assert ToName(t.handlers[h]);
    } else {
      SamePending(s, t, user);
      if user == caller {
        assert s.handlers[h].socket in Of(t.live, user);
      } else {
        assert Of(t.live, user) == Of(s.live, user);
      }
    }
  }

  lemma NameKeepsRoster(s: State, h: nat, name: string, user: User)
    requires RosterOk(s, user) && AllTimely(s) && Enabled(s, WriteName(h, name))
    ensures RosterOk(Apply(s, WriteName(h, name)), user)
  {
    var t := Apply(s, WriteName(h, name));
    assert Timely(s, h);
    if user == s.handlers[h].user {
      assert s.handlers[h].socket in Of(t.live, user);
      assert !Pending(t, user);
    } else {
      SamePending(s, t, user);
    }
  }

  lemma DisconnectKeepsRoster(s: State, c: nat, found: bool, user: User)
    requires RosterOk(s, user) && AllTimely(s) && Linked(s) && CountOk(s, user)
    requires Enabled(s, Disconnect(c, found)) && InTime(s, Disconnect(c, found))
    ensures RosterOk(Disconnected(s, c, found), user)
  {
    var t := Disconnected(s, c, found);
    SamePending(s, t, user);
    assert SocketOk(s, c);
    hide Heard, Alternates, Pending;
    if c in s.live {
      var h :| h in s.handlers && s.handlers[h].socket == c && !s.handlers[h].stage.Entered?;
      assert Timely(s, h);
      LiveLeaves(s, c, found, user);
    } else {
      assert s.live - {c} == s.live;
      NoMark(s, c);
    }
  }

  lemma NoMark(s: State, c: nat)
    requires Linked(s) && c in s.sockets && s.sockets[c].open && c !in s.live
    ensures !s.sockets[c].counted
  {
    assert SocketOk(s, c);
  }

  lemma LiveLeaves(s: State, c: nat, found: bool, user: User)
    requires RosterOk(s, user) && s.lost == multiset{} && CountOk(s, user) && AllTimely(s)
    requires Enabled(s, Disconnect(c, found)) && TakesBack(s, c, found) && c in s.live && s.live[c] == s.sockets[c].user
    ensures RosterOk(Disconnected(s, c, found), user)
  {
    var t := Disconnected(s, c, found);
    hide Heard, Alternates;
    SamePending(s, t, user);
    OfWithout(s.live, c, user);
    if user != s.live[c] {
      assert Of(t.live, user) == Of(s.live, user);
    } else {
      assert c in Of(s.live, user);
    }
  }

  lemma StepKeepsRoster(s: State, e: Event, user: User)
    requires RosterOk(s, user) && AllTimely(s) && Linked(s) && Enabled(s, e) && InTime(s, e)
    requires CountOk(s, user) && (e.Counts? ==> CountOk(s, s.handlers[e.handler].user))
    ensures RosterOk(Apply(s, e), user)
  {
    hide RosterOk, AllTimely, Linked, CountOk, InTime;
    match e
    case Counts(h) => CountKeepsRoster(s, h, user);
    case WriteName(h, name) => NameKeepsRoster(s, h, name, user);
    case Disconnect(c, found) => DisconnectKeepsRoster(s, c, found, user);
    case _ => QuietKeepsRoster(s, e, user);
  }

  lemma QuietKeepsRoster(s: State, e: Event, user: User)
    requires RosterOk(s, user) && Enabled(s, e) && (e.Connect? || e.Join? || e.Resume?)
    ensures RosterOk(Apply(s, e), user)
  {
    SamePending(s, Apply(s, e), user);
  }

  /** A run whose first `i` events are in time. */
  ghost predicate IsTimelyRun(states: seq<State>, events: seq<Event>, i: nat) {
    IsRun(states, events) && i < |states| && forall k: nat | k < i :: InTime(states[k], events[k])
  }

  lemma TimelyStep(states: seq<State>, events: seq<Event>, i: nat)
    requires IsTimelyRun(states, events, i) && i > 0
    ensures |states| == |events| + 1 && i <= |events| && IsRun(states, events) && IsTimelyRun(states, events, i - 1)
    ensures Enabled(states[i - 1], events[i - 1]) && InTime(states[i - 1], events[i - 1])
    ensures states[i] == Apply(states[i - 1], events[i - 1])
  {
    hide Enabled, Apply, InTime;
    assert states[i - 1 + 1] == states[i];
  }

  lemma Start(user: User)
    ensures RosterOk(Init(), user) && AllTimely(Init())
  {
    assert Of(map[], user) == {};
  }

  /** The caller of an event that counts has a count that is in order. */
  lemma CallerOk(states: seq<State>, events: seq<Event>, i: nat)
    requires IsRun(states, events) && i < |events| && |states| == |events| + 1 && Enabled(states[i], events[i])
    ensures events[i].Counts? ==> CountOk(states[i], states[i].handlers[events[i].handler].user)
  {
    hide IsRun, CountOk, Linked;
    if events[i].Counts? {
      RunKeepsCount(states, events, i, states[i].handlers[events[i].handler].user);
    }
  }

  lemma {:induction false} RunKeepsRoster(states: seq<State>, events: seq<Event>, i: nat, user: User)
    requires IsTimelyRun(states, events, i)
    ensures i < |states| && RosterOk(states[i], user) && AllTimely(states[i])
  {
    if i == 0 {
      Start(user);
    } else {
      TimelyStep(states, events, i);
      hide IsRun, IsTimelyRun, CountOk, RosterOk, AllTimely, Linked, InTime, Apply;
      RunKeepsRoster(states, events, i - 1, user);
      RunKeepsCount(states, events, i - 1, user);
      CallerOk(states, events, i - 1);
      hide Enabled;
      StepKeepsRoster(states[i - 1], events[i - 1], user);
      StepKeepsTimely(states[i - 1], events[i - 1]);
    }
  }

  /** In every state of every such run no count is lost, and the roster names exactly the
      users who have a live socket and no handler that is still to write the name. */
  lemma PresenceIsExact(states: seq<State>, events: seq<Event>, i: nat, user: User)
    requires IsTimelyRun(states, events, i)
    ensures var s := states[i];
            && Count(s.store, user) == |Of(s.live, user)|
            && (|Heard(s.turns, user)| % 2 == 1 <==> Of(s.live, user) != {})
            && (user in s.store.names <==> Of(s.live, user) != {} && !Pending(s, user))
  {
    PresenceIsCounted(states, events, i, user);
    RunKeepsRoster(states, events, i, user);
  }

  /** What reading the roster gives in such a run, when no name is still to be written: the
      users of the live sockets. */
  lemma RosterIsPresent(states: seq<State>, events: seq<Event>, i: nat)
    requires IsTimelyRun(states, events, i)
    requires forall h | h in states[i].handlers :: !ToName(states[i].handlers[h])
    ensures states[i].store.names.Keys == states[i].live.Values
  {
    var s := states[i];
    forall user ensures user in s.store.names <==> user in s.live.Values {
      PresenceIsExact(states, events, i, user);
      if user in s.live.Values {
        var c :| c in s.live && s.live[c] == user;
        assert c in Of(s.live, user);
      }
      if c :| c in Of(s.live, user) {
        assert s.live[c] == user;
      }
    }
  }

  // ----- names that are stranded -----

  /** The user has neither a live socket nor a lost count. */
  ghost predicate Absent(s: State, user: User) { Of(s.live, user) == {} && s.lost[user] == 0 }

  /** The roster names a user who has no live socket. */
  ghost predicate Stranded(s: State, user: User) { user in s.store.names && Of(s.live, user) == {} }

  ghost predicate Writes(s: State, e: Event, user: User) {
    e.WriteName? && e.handler in s.handlers && s.handlers[e.handler].user == user
  }

  /** A name is written for a user who is absent. */
  ghost predicate WrittenTooLate(s: State, e: Event, user: User) { Writes(s, e, user) && Absent(s, user) }

  ghost predicate CountsFor(s: State, e: Event, user: User) {
    e.Counts? && e.handler in s.handlers && s.handlers[e.handler].user == user
  }

  /** The disconnect of a user's last live socket, no count being lost. */
  ghost predicate LastLeft(s: State, e: Event, user: User) {
    && e.Disconnect? && e.connection in s.sockets && s.sockets[e.connection].counted && e.found
    && Of(s.live, user) == {e.connection} && s.lost[user] == 0
  }

  lemma AbsentIsZero(s: State, user: User)
    requires CountOk(s, user)
    ensures Absent(s, user) <==> Count(s.store, user) == 0
  {
    hide Heard, Alternates;
  }

  lemma AbsentStep(s: State, e: Event, user: User)
    requires CountOk(s, user) && Linked(s) && Enabled(s, e)
    ensures var t := Apply(s, e);
            user in t.store.names && Absent(t, user) <==>
              WrittenTooLate(s, e, user) || (user in s.store.names && Absent(s, user) && !CountsFor(s, e, user))
  {
    var t := Apply(s, e);
    StepKeepsCount(s, e, user);
    AbsentIsZero(s, user);
    AbsentIsZero(t, user);
    StoreStep(s, e, user);
    hide CountOk, Absent, Linked, Apply, Enabled, Writes, CountsFor;
  }

  /** A name without a count: it was written so, or it was there and nothing was counted. */
  lemma StoreStep(s: State, e: Event, user: User)
    requires CountOk(s, user) && Linked(s) && Enabled(s, e)
    ensures var t := Apply(s, e);
            user in t.store.names && Count(t.store, user) == 0 <==>
              (Writes(s, e, user) && Count(s.store, user) == 0)
              || (user in s.store.names && Count(s.store, user) == 0 && !CountsFor(s, e, user))
  {
    hide Heard, Alternates, HasCounted;
    assert Count(s.store, user) >= 0;
    if e.Disconnect? {
      assert SocketOk(s, e.connection);
      if TakesBack(s, e.connection, e.found) {
        OfWithout(s.live, e.connection, user);
      }
    }
    hide Of, Linked;
  }

  lemma NamesStep(s: State, e: Event, user: User)
    requires CountOk(s, user) && Linked(s) && Enabled(s, e)
    ensures user in Apply(s, e).store.names <==> Writes(s, e, user) || (user in s.store.names && !LastLeft(s, e, user))
  {
    hide Heard, Alternates;
    if e.Disconnect? && TakesBack(s, e.connection, e.found) {
      var c := e.connection;
      assert SocketOk(s, c);
      if s.live[c] == user {
        OfWithout(s.live, c, user);
        assert |Of(s.live, user)| == 1 ==> Of(s.live, user) == {c} by {
          assert c in Of(s.live, user);
          OnlyOne(Of(s.live, user), c);
        }
      } else {
        assert c !in Of(s.live, user);
      }
    }
  }

  lemma OnlyOne(cs: set<nat>, c: nat)
    requires c in cs
    ensures |cs| == 1 <==> cs == {c}
  {
    assert cs == {c} + (cs - {c});
  }

  ghost predicate WrittenTooLateAt(states: seq<State>, events: seq<Event>, i: nat, n: nat, user: User)
    requires n <= |events| && |states| == |events| + 1
  {
    && i < n && WrittenTooLate(states[i], events[i], user)
    && forall j | i < j < n :: !CountsFor(states[j], events[j], user)
  }

  /** A name was written for the absent user, who has not been counted since. */
  ghost predicate LateName(states: seq<State>, events: seq<Event>, n: nat, user: User)
    requires n <= |events| && |states| == |events| + 1
  {
    exists i: nat :: WrittenTooLateAt(states, events, i, n, user)
  }

  ghost predicate LateAgrees(states: seq<State>, events: seq<Event>, n: nat, user: User)
    requires n <= |events| && |states| == |events| + 1
  {
    user in states[n].store.names && Absent(states[n], user) <==> LateName(states, events, n, user)
  }

  lemma LateAgreesStep(states: seq<State>, events: seq<Event>, n: nat, user: User)
    requires IsRun(states, events) && n < |events| && |states| == |events| + 1 && LateAgrees(states, events, n, user)
    ensures LateAgrees(states, events, n + 1, user)
  {
    RunStep(states, events, n);
    RunKeepsCount(states, events, n, user);
    hide IsRun, Apply, Enabled, CountOk, Linked, Absent, WrittenTooLate, LateName, CountsFor;
    AbsentStep(states[n], events[n], user);
    OneMoreLate(states, events, n + 1, user);
  }

  lemma {:induction false} LateExactly(states: seq<State>, events: seq<Event>, n: nat, user: User)
    requires IsRun(states, events) && n <= |events| && |states| == |events| + 1
    ensures LateAgrees(states, events, n, user)
    decreases n
  {
    if n > 0 {
      hide IsRun, LateAgrees;
      LateExactly(states, events, n - 1, user);
      LateAgreesStep(states, events, n - 1, user);
    }
  }

  lemma OneMoreLate(states: seq<State>, events: seq<Event>, n: nat, user: User)
    requires 0 < n <= |events| && |states| == |events| + 1
    ensures LateName(states, events, n, user) <==>
            WrittenTooLate(states[n - 1], events[n - 1], user)
            || (LateName(states, events, n - 1, user) && !CountsFor(states[n - 1], events[n - 1], user))
  {
    hide WrittenTooLate, CountsFor;
    if WrittenTooLate(states[n - 1], events[n - 1], user) {
      assert WrittenTooLateAt(states, events, n - 1, n, user);
    }
    if LateName(states, events, n - 1, user) && !CountsFor(states[n - 1], events[n - 1], user) {
      var i: nat :| WrittenTooLateAt(states, events, i, n - 1, user);
      assert WrittenTooLateAt(states, events, i, n, user);
    }
    if LateName(states, events, n, user) {
      var i: nat :| WrittenTooLateAt(states, events, i, n, user);
      assert i < n - 1 ==> WrittenTooLateAt(states, events, i, n - 1, user) && !CountsFor(states[n - 1], events[n - 1], user);
    }
  }

  ghost predicate WrittenToStayAt(states: seq<State>, events: seq<Event>, i: nat, n: nat, user: User)
    requires n <= |events| && |states| == |events| + 1
  {
    && i < n && Writes(states[i], events[i], user)
    && forall j | i < j < n :: !LastLeft(states[j], events[j], user)
  }

  /** A name was written, and the user's last live socket has not left since, no count
      being lost. */
  ghost predicate LastingName(states: seq<State>, events: seq<Event>, n: nat, user: User)
    requires n <= |events| && |states| == |events| + 1
  {
    exists i: nat :: WrittenToStayAt(states, events, i, n, user)
  }

  ghost predicate NameAgrees(states: seq<State>, events: seq<Event>, n: nat, user: User)
    requires n <= |events| && |states| == |events| + 1
  {
    user in states[n].store.names <==> LastingName(states, events, n, user)
  }

  lemma NameAgreesStep(states: seq<State>, events: seq<Event>, n: nat, user: User)
    requires IsRun(states, events) && n < |events| && |states| == |events| + 1 && NameAgrees(states, events, n, user)
    ensures NameAgrees(states, events, n + 1, user)
  {
    RunStep(states, events, n);
    RunKeepsCount(states, events, n, user);
    hide IsRun, Apply, Enabled, CountOk, Linked, Writes, LastingName, LastLeft;
    NamesStep(states[n], events[n], user);
    OneMoreWritten(states, events, n + 1, user);
  }

  /** In every run, the roster names a user if and only if the name was written and the
      user's last live socket has not left since with no count lost. */
  lemma {:induction false} NamedExactly(states: seq<State>, events: seq<Event>, n: nat, user: User)
    requires IsRun(states, events) && n <= |events| && |states| == |events| + 1
    ensures NameAgrees(states, events, n, user)
    decreases n
  {
    if n > 0 {
      hide IsRun, NameAgrees;
      NamedExactly(states, events, n - 1, user);
      NameAgreesStep(states, events, n - 1, user);
    }
  }

  lemma OneMoreWritten(states: seq<State>, events: seq<Event>, n: nat, user: User)
    requires 0 < n <= |events| && |states| == |events| + 1
    ensures LastingName(states, events, n, user) <==>
            Writes(states[n - 1], events[n - 1], user)
            || (LastingName(states, events, n - 1, user) && !LastLeft(states[n - 1], events[n - 1], user))
  {
    hide Writes, LastLeft;
    if Writes(states[n - 1], events[n - 1], user) {
      assert WrittenToStayAt(states, events, n - 1, n, user);
    }
    if LastingName(states, events, n - 1, user) && !LastLeft(states[n - 1], events[n - 1], user) {
      var i: nat :| WrittenToStayAt(states, events, i, n - 1, user);
      assert WrittenToStayAt(states, events, i, n, user);
    }
    if LastingName(states, events, n, user) {
      var i: nat :| WrittenToStayAt(states, events, i, n, user);
      assert i < n - 1 ==> WrittenToStayAt(states, events, i, n - 1, user) && !LastLeft(states[n - 1], events[n - 1], user);
    }
  }

  /** In every run a user without live sockets is in the roster for one of two causes, and
      for no other. If no count was lost, a name was written while the user was absent, and
      no handler has counted the user since. If one was, a name was written and the user's
      last socket has not left since without a lost count. */
  lemma StrandedExactly(states: seq<State>, events: seq<Event>, n: nat, user: User)
    requires IsRun(states, events) && n < |states|
    ensures Stranded(states[n], user) <==>
            if NoneLost(states, events, n, user)
            then LateName(states, events, n, user)
            else Of(states[n].live, user) == {} && LastingName(states, events, n, user)
  {
    CountIsLive(states, events, n, user);
    PresenceIsCounted(states, events, n, user);
    LateExactly(states, events, n, user);
    NamedExactly(states, events, n, user);
    assert |states| == |events| + 1;
    hide IsRun, LateName, LastingName, NoneLost, Heard, Alternates;
  }

  /** The second cause, in a run: a socket closes while its join handler is under way, which
      then counts it and writes the name. */
  lemma ClosedBeforeCounted(user: User, name: string) returns (states: seq<State>)
    ensures var events := [Connect(0, user), Join(0, 0), Disconnect(0, true), Counts(0), Resume(0), WriteName(0, name)];
            && IsRun(states, events) && Stranded(states[6], user) && Count(states[6].store, user) == 1
            && Heard(states[6].turns, user) == [true] && states[6].live == map[] && states[6].lost[user] == 1
            && !WrittenTooLate(states[5], events[5], user)
  {
    var s1 := State(Store(map[], map[]), map[0 := Socket(user, true, false)], map[], map[], multiset{}, []);
    var s2 := s1.(handlers := map[0 := Handler(0, user, Entered)]);
    var s3 := s2.(sockets := map[0 := Socket(user, false, false)]);
    var s4 := State(Store(map[user := 1], map[]), s3.sockets, map[0 := Handler(0, user, Answered(true))], map[], multiset{user}, [(user, true)]);
    var s5 := s4.(sockets := map[0 := Socket(user, false, true)], handlers := map[0 := Handler(0, user, Naming)]);
    var s6 := s5.(store := Store(map[user := 1], map[user := name]), handlers := map[0 := Handler(0, user, Done)]);
    states := [Init(), s1, s2, s3, s4, s5, s6];
    ClosesFirst(s1, s2, s3, user);
    CountsClosed(s3, s4, user);
    NamesClosed(s4, s5, s6, user, name);
    hide Enabled, Apply;
    var events := [Connect(0, user), Join(0, 0), Disconnect(0, true), Counts(0), Resume(0), WriteName(0, name)];
    assert IsRun(states, events);
  }

  lemma ClosesFirst(s1: State, s2: State, s3: State, user: User)
    requires s1 == State(Store(map[], map[]), map[0 := Socket(user, true, false)], map[], map[], multiset{}, [])
    requires s2 == s1.(handlers := map[0 := Handler(0, user, Entered)])
    requires s3 == s2.(sockets := map[0 := Socket(user, false, false)])
    ensures Enabled(Init(), Connect(0, user)) && Apply(Init(), Connect(0, user)) == s1
    ensures Enabled(s1, Join(0, 0)) && Apply(s1, Join(0, 0)) == s2
    ensures Enabled(s2, Disconnect(0, true)) && Apply(s2, Disconnect(0, true)) == s3
  {
    assert Apply(s2, Disconnect(0, true)).live == map[];
  }

  lemma NamesClosed(s4: State, s5: State, s6: State, user: User, name: string)
    requires s4.store == Store(map[user := 1], map[]) && s4.sockets == map[0 := Socket(user, false, false)]
    requires s4.handlers == map[0 := Handler(0, user, Answered(true))] && s4.live == map[] && s4.lost == multiset{user}
    requires s4.turns == [(user, true)]
    requires s5 == s4.(sockets := map[0 := Socket(user, false, true)], handlers := map[0 := Handler(0, user, Naming)])
    requires s6 == s5.(store := Store(map[user := 1], map[user := name]), handlers := map[0 := Handler(0, user, Done)])
    ensures Enabled(s4, Resume(0)) && Apply(s4, Resume(0)) == s5
    ensures Enabled(s5, WriteName(0, name)) && Apply(s5, WriteName(0, name)) == s6
    ensures !Absent(s5, user) && Stranded(s6, user) && Heard(s6.turns, user) == [true]
  {
    HeardSnoc([], user, user, true);
    assert [] + [(user, true)] == s4.turns;
  }

  lemma CountsClosed(s: State, t: State, user: User)
    requires s.store == Store(map[], map[]) && s.sockets == map[0 := Socket(user, false, false)]
    requires s.handlers == map[0 := Handler(0, user, Entered)] && s.live == map[] && s.lost == multiset{} && s.turns == []
    requires t.store == Store(map[user := 1], map[]) && t.sockets == s.sockets
    requires t.handlers == map[0 := Handler(0, user, Answered(true))] && t.live == map[] && t.lost == multiset{user}
    requires t.turns == [(user, true)]
    ensures Enabled(s, Counts(0)) && Apply(s, Counts(0)) == t
  {
  }
}
