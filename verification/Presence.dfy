/** Who is present in a document: connections counted in a store all instances share, and
    the names of the roster. */
module Presence {
  import opened Wrappers

  type User = nat

  /** The two hashes of one document. */
  datatype Store = Store(counts: map<User, int>, names: map<User, string>)

  function Count(store: Store, user: User): int { if user in store.counts then store.counts[user] else 0 }

  function Joined(store: Store, user: User): Store {
    store.(counts := store.counts[user := Count(store, user) + 1])
  }

  function Named(store: Store, user: User, name: string): Store { store.(names := store.names[user := name]) }

  /** The leave script: decrement, and clear both fields at zero. */
  function Left(store: Store, user: User): Store {
    var n := Count(store, user) - 1;
    if n <= 0 then Store(store.counts - {user}, store.names - {user})
    else store.(counts := store.counts[user := n])
  }

  class PresenceStore {
    var store: Store

    constructor ()
      ensures store == Store(map[], map[])
    {
      store := Store(map[], map[]);
    }

    method PresenceJoin(user: User) returns (count: int)
      modifies this
      ensures store == Joined(old(store), user) && count == Count(store, user) == Count(old(store), user) + 1
    {
      count := Count(store, user) + 1;
      store := store.(counts := store.counts[user := count]);
    }

    method SetPresenceIdentity(user: User, name: string)
      modifies this
      ensures store == Named(old(store), user, name)
    {
      store := store.(names := store.names[user := name]);
    }

    method PresenceLeave(user: User) returns (remaining: int, name: Option<string>)
      modifies this
      ensures store == Left(old(store), user)
      ensures remaining == if Count(old(store), user) <= 1 then 0 else Count(old(store), user) - 1
      ensures name == if remaining == 0 && user in old(store).names then Some(old(store).names[user]) else None
    {
      var n := Count(store, user) - 1;
      if n <= 0 {
        name := if user in store.names then Some(store.names[user]) else None;
        store := Store(store.counts - {user}, store.names - {user});
        return 0, name;
      }
      store := store.(counts := store.counts[user := n]);
      return n, None;
    }

    method PresenceRoster() returns (roster: map<User, string>)
      ensures roster == store.names
    {
      roster := store.names;
    }
  }

  // ----- join handlers and disconnects, on many instances -----

  /** How far a join handler has come: in the room, told the count by the store, about to
      write the name of a user whose first connection it is, or through. */
  datatype Stage = Entered | Answered(first: bool) | Naming | Done

  datatype Handler = Handler(socket: nat, user: User, stage: Stage)

  /** `counted` is the mark that makes the socket's disconnect take a count back. */
  datatype Socket = Socket(user: User, open: bool, counted: bool)

  datatype State = State(
    store: Store,
    sockets: map<nat, Socket>,
    handlers: map<nat, Handler>,
    live: map<nat, User>,       // the open sockets that a handler has counted
    lost: multiset<User>,       // counts that nothing will take back
    turns: seq<(User, bool)>)   // users told to be present by their first count, absent by their last

  /** A socket's messages may be handled late, even after its disconnect. A disconnect finds
      its room unless another teardown has removed it. */
  datatype Event =
    | Connect(connection: nat, user: User)
    | Join(handler: nat, connection: nat)
    | Counts(handler: nat)
    | Resume(handler: nat)
    | WriteName(handler: nat, name: string)
    | Disconnect(connection: nat, found: bool)

  function Init(): State { State(Store(map[], map[]), map[], map[], map[], multiset{}, []) }

  predicate Enabled(s: State, e: Event) {
    match e
    case Connect(c, _) => c !in s.sockets
    case Join(h, c) => h !in s.handlers && c in s.sockets
    case Counts(h) => h in s.handlers && s.handlers[h].socket in s.sockets && s.handlers[h].stage.Entered?
    case Resume(h) => h in s.handlers && s.handlers[h].socket in s.sockets && s.handlers[h].stage.Answered?
    case WriteName(h, _) => h in s.handlers && s.handlers[h].stage.Naming?
    case Disconnect(c, _) => c in s.sockets && s.sockets[c].open
  }

  /** The socket has gone, or another handler has counted it before. */
  predicate CountsInVain(s: State, h: nat)
    requires Enabled(s, Counts(h))
  {
    var c := s.handlers[h].socket;
    !s.sockets[c].open || c in s.live
  }

  function Counted(s: State, h: nat): State
    requires Enabled(s, Counts(h))
  {
    var Handler(c, user, _) := s.handlers[h];
    var store := Joined(s.store, user);
    var first := Count(store, user) == 1;
    s.(store := store, handlers := s.handlers[h := Handler(c, user, Answered(first))],
       live := if CountsInVain(s, h) then s.live else s.live[c := user],
       lost := if CountsInVain(s, h) then s.lost + multiset{user} else s.lost,
       turns := if first then s.turns + [(user, true)] else s.turns)
  }

  function Resumed(s: State, h: nat): State
    requires Enabled(s, Resume(h))
  {
    var Handler(c, user, stage) := s.handlers[h];
    s.(sockets := s.sockets[c := s.sockets[c].(counted := true)],
       handlers := s.handlers[h := Handler(c, user, if stage.first then Naming else Done)])
  }

  predicate TakesBack(s: State, c: nat, found: bool)
    requires c in s.sockets
  {
    s.sockets[c].counted && found
  }

  function Disconnected(s: State, c: nat, found: bool): State
    requires Enabled(s, Disconnect(c, found))
  {
    var user, sockets := s.sockets[c].user, s.sockets[c := s.sockets[c].(open := false)];
    if TakesBack(s, c, found) then
      s.(store := Left(s.store, user), sockets := sockets, live := s.live - {c},
         turns := if Count(s.store, user) <= 1 then s.turns + [(user, false)] else s.turns)
    else
      s.(sockets := sockets, live := s.live - {c}, lost := if c in s.live then s.lost + multiset{s.live[c]} else s.lost)
  }

  function Apply(s: State, e: Event): State
    requires Enabled(s, e)
  {
    match e
    case Connect(c, user) => s.(sockets := s.sockets[c := Socket(user, true, false)])
    case Join(h, c) => s.(handlers := s.handlers[h := Handler(c, s.sockets[c].user, Entered)])
    case Counts(h) => Counted(s, h)
    case Resume(h) => Resumed(s, h)
    case WriteName(h, name) =>
      var handler := s.handlers[h];
      s.(store := Named(s.store, handler.user, name), handlers := s.handlers[h := handler.(stage := Done)])
    case Disconnect(c, found) => Disconnected(s, c, found)
  }

  ghost predicate IsRun(states: seq<State>, events: seq<Event>) {
    && |states| == |events| + 1 && states[0] == Init()
    && forall i | 0 <= i < |events| :: Enabled(states[i], events[i]) && states[i + 1] == Apply(states[i], events[i])
  }

  lemma RunStep(states: seq<State>, events: seq<Event>, i: nat)
    requires IsRun(states, events) && i < |events|
    ensures |states| == |events| + 1 && Enabled(states[i], events[i]) && states[i + 1] == Apply(states[i], events[i])
  {
  }

  // ----- which sockets are live -----

  ghost predicate HasCounted(s: State, c: nat) {
    exists h | h in s.handlers :: s.handlers[h].socket == c && !s.handlers[h].stage.Entered?
  }

  ghost predicate SocketOk(s: State, c: nat)
    requires c in s.sockets
  {
    && (c in s.live <==> s.sockets[c].open && HasCounted(s, c))
    && (c in s.live ==> s.live[c] == s.sockets[c].user)
    && (s.sockets[c].counted ==> HasCounted(s, c))
  }

  ghost predicate HandlerOk(s: State, h: nat)
    requires h in s.handlers
  {
    s.handlers[h].socket in s.sockets && s.handlers[h].user == s.sockets[s.handlers[h].socket].user
  }

  /** The live sockets are those that are open and that a handler has counted. */
  ghost predicate Linked(s: State) {
    && s.live.Keys <= s.sockets.Keys
    && (forall c | c in s.sockets :: SocketOk(s, c))
    && (forall h | h in s.handlers :: HandlerOk(s, h))
  }

  /** Counting is the only way for a socket to have been counted. */
  lemma HasCountedStep(s: State, e: Event, c: nat)
    requires Enabled(s, e)
    ensures HasCounted(Apply(s, e), c) <==> HasCounted(s, c) || (e.Counts? && s.handlers[e.handler].socket == c)
  {
    var t := Apply(s, e);
    if HasCounted(s, c) {
      var h :| h in s.handlers && s.handlers[h].socket == c && !s.handlers[h].stage.Entered?;
      assert h in t.handlers && t.handlers[h].socket == c && !t.handlers[h].stage.Entered?;
    }
    if e.Counts? && s.handlers[e.handler].socket == c {
      assert t.handlers[e.handler].socket == c && !t.handlers[e.handler].stage.Entered?;
    }
    if HasCounted(t, c) {
      var h :| h in t.handlers && t.handlers[h].socket == c && !t.handlers[h].stage.Entered?;
      assert e != Counts(h) ==> h in s.handlers && s.handlers[h].socket == c && !s.handlers[h].stage.Entered?;
    }
  }

  lemma StepKeepsSocket(s: State, e: Event, c: nat)
    requires Linked(s) && Enabled(s, e) && c in Apply(s, e).sockets
    ensures SocketOk(Apply(s, e), c)
  {
    HasCountedStep(s, e, c);
    if e.Counts? {
      assert HandlerOk(s, e.handler);
    }
    if e.Resume? {
      assert HasCounted(s, s.handlers[e.handler].socket);
    }
    hide HasCounted;
    if c in s.sockets {
      assert SocketOk(s, c);
    } else {
      FreshSocket(s, c);
    }
  }

  lemma FreshSocket(s: State, c: nat)
    requires Linked(s) && c !in s.sockets
    ensures !HasCounted(s, c) && c !in s.live
  {
    forall h | h in s.handlers ensures s.handlers[h].socket != c {
      assert HandlerOk(s, h);
    }
  }

  lemma StepKeepsHandler(s: State, e: Event, h: nat)
    requires Linked(s) && Enabled(s, e) && h in Apply(s, e).handlers
    ensures HandlerOk(Apply(s, e), h)
  {
    if h in s.handlers {
      assert HandlerOk(s, h);
    }
    hide SocketOk, CountsInVain;
  }

  lemma StepKeepsLinked(s: State, e: Event)
    requires Linked(s) && Enabled(s, e)
    ensures Linked(Apply(s, e))
  {
    var t := Apply(s, e);
    hide SocketOk, HandlerOk;
    assert t.live.Keys <= t.sockets.Keys;
    forall c | c in t.sockets ensures SocketOk(t, c) {
      StepKeepsSocket(s, e, c);
    }
    forall h | h in t.handlers ensures HandlerOk(t, h) {
      StepKeepsHandler(s, e, h);
    }
  }

  lemma {:induction false} RunKeepsLinked(states: seq<State>, events: seq<Event>, i: nat)
    requires IsRun(states, events) && i < |states|
    ensures Linked(states[i])
  {
    if i > 0 {
      RunStep(states, events, i - 1);
      hide IsRun, Linked, Enabled, Apply;
      RunKeepsLinked(states, events, i - 1);
      StepKeepsLinked(states[i - 1], events[i - 1]);
    }
  }

  // ----- counts, in every run -----

  ghost function Of(live: map<nat, User>, user: User): set<nat> { set c | c in live && live[c] == user }

  /** What the counts told of one user. */
  ghost function Heard(turns: seq<(User, bool)>, user: User): seq<bool>
    decreases |turns|
  {
    if turns == [] then []
    else
      var last, rest := turns[|turns| - 1], Heard(turns[..|turns| - 1], user);
      if last.0 == user then rest + [last.1] else rest
  }

  /** Present first, then absent and present in turn. */
  ghost predicate Alternates(heard: seq<bool>) { forall i | 0 <= i < |heard| :: heard[i] == (i % 2 == 0) }

  ghost predicate CountOk(s: State, user: User) {
    && Count(s.store, user) == |Of(s.live, user)| + s.lost[user]
    && (user in s.store.counts ==> s.store.counts[user] > 0)
    && Alternates(Heard(s.turns, user))
    && (Count(s.store, user) > 0 <==> |Heard(s.turns, user)| % 2 == 1)
  }

  lemma HeardSnoc(turns: seq<(User, bool)>, user: User, other: User, present: bool)
    ensures Heard(turns + [(other, present)], user)
            == if other == user then Heard(turns, user) + [present] else Heard(turns, user)
  {
    assert (turns + [(other, present)])[..|turns|] == turns;
  }

  lemma AlternatesOn(heard: seq<bool>, next: bool)
    requires Alternates(heard) && next == (|heard| % 2 == 0)
    ensures Alternates(heard + [next])
  {
  }

  lemma OfWith(live: map<nat, User>, c: nat, other: User, user: User)
    requires c !in live
    ensures |Of(live[c := other], user)| == |Of(live, user)| + if other == user then 1 else 0
  {
    var before, after := Of(live, user), Of(live[c := other], user);
    if other == user {
      assert after == before + {c};
    } else {
      assert after == before;
    }
  }

  lemma OfWithout(live: map<nat, User>, c: nat, user: User)
    requires c in live
    ensures |Of(live - {c}, user)| == |Of(live, user)| - if live[c] == user then 1 else 0
  {
    assert live == (live - {c})[c := live[c]];
    OfWith(live - {c}, c, live[c], user);
  }

  /** A count adds one to its user's live sockets and lost counts together. */
  lemma CountedOnce(s: State, h: nat, user: User)
    requires Enabled(s, Counts(h))
    ensures var t := Counted(s, h);
            |Of(t.live, user)| + t.lost[user] == |Of(s.live, user)| + s.lost[user] + if s.handlers[h].user == user then 1 else 0
  {
    if !CountsInVain(s, h) {
      hide Of;
      OfWith(s.live, s.handlers[h].socket, s.handlers[h].user, user);
    }
  }

  lemma FirstCountOk(s: State, h: nat)
    requires Enabled(s, Counts(h)) && CountOk(s, s.handlers[h].user) && Count(s.store, s.handlers[h].user) == 0
    ensures CountOk(Counted(s, h), s.handlers[h].user)
  {
    var user := s.handlers[h].user;
    hide Heard, Alternates, Of;
    CountedOnce(s, h, user);
    HeardSnoc(s.turns, user, user, true);
    AlternatesOn(Heard(s.turns, user), true);
    hide CountsInVain;
  }

  lemma LaterCountOk(s: State, h: nat)
    requires Enabled(s, Counts(h)) && CountOk(s, s.handlers[h].user) && Count(s.store, s.handlers[h].user) != 0
    ensures CountOk(Counted(s, h), s.handlers[h].user)
  {
    hide Heard, Alternates, Of, CountsInVain;
    CountedOnce(s, h, s.handlers[h].user);
  }

  lemma OtherCountOk(s: State, h: nat, user: User)
    requires Enabled(s, Counts(h)) && CountOk(s, user) && s.handlers[h].user != user
    ensures CountOk(Counted(s, h), user)
  {
    hide Heard, Alternates, Of, CountsInVain;
    CountedOnce(s, h, user);
    HeardSnoc(s.turns, user, s.handlers[h].user, true);
  }

  lemma CountsKeepsCount(s: State, h: nat, user: User)
    requires Enabled(s, Counts(h)) && CountOk(s, user)
    ensures CountOk(Counted(s, h), user)
  {
    hide CountOk, Counted;
    if s.handlers[h].user != user {
      OtherCountOk(s, h, user);
    } else if Count(s.store, user) == 0 {
      FirstCountOk(s, h);
    } else {
      LaterCountOk(s, h);
    }
  }

  lemma LastTakenBackOk(s: State, c: nat)
    requires c in s.live && Enabled(s, Disconnect(c, true)) && TakesBack(s, c, true) && s.live[c] == s.sockets[c].user
    requires CountOk(s, s.live[c]) && Count(s.store, s.live[c]) == 1
    ensures CountOk(Disconnected(s, c, true), s.live[c])
  {
    var user := s.live[c];
    hide Heard, Alternates, Of;
    HeardSnoc(s.turns, user, user, false);
    AlternatesOn(Heard(s.turns, user), false);
    OfWithout(s.live, c, user);
  }

  lemma EarlierTakenBackOk(s: State, c: nat)
    requires c in s.live && Enabled(s, Disconnect(c, true)) && TakesBack(s, c, true) && s.live[c] == s.sockets[c].user
    requires CountOk(s, s.live[c]) && Count(s.store, s.live[c]) > 1
    ensures CountOk(Disconnected(s, c, true), s.live[c])
  {
    hide Heard, Alternates, Of;
    OfWithout(s.live, c, s.live[c]);
  }

  lemma OtherTakenBackOk(s: State, c: nat, user: User)
    requires c in s.live && Enabled(s, Disconnect(c, true)) && TakesBack(s, c, true) && s.live[c] == s.sockets[c].user
    requires CountOk(s, user) && user != s.live[c]
    ensures CountOk(Disconnected(s, c, true), user)
  {
    hide Heard, Alternates, Of;
    HeardSnoc(s.turns, user, s.live[c], false);
    OfWithout(s.live, c, user);
  }

  lemma NotTakenBackOk(s: State, c: nat, found: bool, user: User)
    requires Enabled(s, Disconnect(c, found)) && !TakesBack(s, c, found) && CountOk(s, user)
    ensures CountOk(Disconnected(s, c, found), user)
  {
    hide Heard, Alternates, Of;
    if c in s.live {
      OfWithout(s.live, c, user);
    } else {
      assert s.live - {c} == s.live;
    }
  }

  lemma DisconnectKeepsCount(s: State, c: nat, found: bool, user: User)
    requires Linked(s) && Enabled(s, Disconnect(c, found)) && CountOk(s, user)
    ensures CountOk(Disconnected(s, c, found), user)
  {
    assert SocketOk(s, c);
    if !TakesBack(s, c, found) {
      NotTakenBackOk(s, c, found, user);
    } else if user != s.live[c] {
      hide CountOk, Linked;
      OtherTakenBackOk(s, c, user);
    } else {
      OfWithout(s.live, c, user);
      assert Count(s.store, user) >= 1;
      hide CountOk, Linked;
      if Count(s.store, user) == 1 {
        LastTakenBackOk(s, c);
      } else {
        EarlierTakenBackOk(s, c);
      }
    }
  }

  lemma StepKeepsCount(s: State, e: Event, user: User)
    requires Linked(s) && CountOk(s, user) && Enabled(s, e)
    ensures CountOk(Apply(s, e), user)
  {
    match e
    case Counts(h) => CountsKeepsCount(s, h, user);
    case Disconnect(c, found) => DisconnectKeepsCount(s, c, found, user);
    case _ => assert Apply(s, e).live == s.live && Apply(s, e).turns == s.turns;
  }

  lemma {:induction false} RunKeepsCount(states: seq<State>, events: seq<Event>, i: nat, user: User)
    requires IsRun(states, events) && i < |states|
    ensures CountOk(states[i], user) && Linked(states[i])
  {
    RunKeepsLinked(states, events, i);
    if i > 0 {
      RunStep(states, events, i - 1);
      hide IsRun, Linked, CountOk, Enabled, Apply;
      RunKeepsCount(states, events, i - 1, user);
      StepKeepsCount(states[i - 1], events[i - 1], user);
    } else {
      assert Of(map[], user) == {};
    }
  }

  /** In every state of every run, however late a handler and whatever a disconnect finds: a
      user's stored count is that of their live sockets, which are the open ones that some
      handler has counted, and of the counts that are lost; it is that of the live sockets
      alone exactly if none is lost. The user is told to be present and absent in turn, and
      is present at the end exactly if there is a live socket or a lost count. */
  lemma PresenceIsCounted(states: seq<State>, events: seq<Event>, i: nat, user: User)
    requires IsRun(states, events) && i < |states|
    ensures var s := states[i];
            && (forall c | c in s.sockets :: c in Of(s.live, user) <==> s.sockets[c].user == user && s.sockets[c].open && HasCounted(s, c))
            && s.live.Keys <= s.sockets.Keys
            && Count(s.store, user) == |Of(s.live, user)| + s.lost[user]
            && (Count(s.store, user) == |Of(s.live, user)| <==> s.lost[user] == 0)
            && Alternates(Heard(s.turns, user))
            && (|Heard(s.turns, user)| % 2 == 1 <==> Of(s.live, user) != {} || s.lost[user] > 0)
  {
    RunKeepsCount(states, events, i, user);
    var s := states[i];
    assert forall c | c in s.sockets :: SocketOk(s, c);
    hide HasCounted;
  }

  // ----- when a count is lost -----

  /** A handler counts a socket that has gone, or that another has counted before; or a
      counted socket's disconnect comes before the mark, or does not find the room. */
  ghost predicate Loses(s: State, e: Event, user: User)
    requires Enabled(s, e)
  {
    match e
    case Counts(h) =>
      var c := s.handlers[h].socket;
      s.handlers[h].user == user && (!s.sockets[c].open || HasCounted(s, c))
    case Disconnect(c, found) => s.sockets[c].user == user && HasCounted(s, c) && !(s.sockets[c].counted && found)
    case _ => false
  }

  lemma LostStep(s: State, e: Event, user: User)
    requires Enabled(s, e) && Linked(s)
    ensures Apply(s, e).lost[user] == s.lost[user] + if Loses(s, e, user) then 1 else 0
  {
    if e.Counts? {
      assert HandlerOk(s, e.handler) && SocketOk(s, s.handlers[e.handler].socket);
    } else if e.Disconnect? {
      assert SocketOk(s, e.connection);
    }
    hide HasCounted;
  }

  ghost predicate LosesAt(states: seq<State>, events: seq<Event>, i: nat, user: User) {
    i < |events| && i < |states| && Enabled(states[i], events[i]) && Loses(states[i], events[i], user)
  }

  /** No event before the `n`-th state has lost a count of the user. */
  ghost predicate NoneLost(states: seq<State>, events: seq<Event>, n: nat, user: User) {
    forall i: nat | i < n :: !LosesAt(states, events, i, user)
  }

  lemma OneMoreLost(states: seq<State>, events: seq<Event>, n: nat, user: User)
    requires n < |events| && |states| == |events| + 1 && Enabled(states[n], events[n])
    ensures NoneLost(states, events, n + 1, user) <==> NoneLost(states, events, n, user) && !Loses(states[n], events[n], user)
  {
    assert LosesAt(states, events, n, user) <==> Loses(states[n], events[n], user);
    hide LosesAt, Loses, Enabled;
  }

  ghost predicate LostAgrees(states: seq<State>, events: seq<Event>, n: nat, user: User)
    requires n < |states|
  {
    states[n].lost[user] == 0 <==> NoneLost(states, events, n, user)
  }

  lemma LostAgreesStep(states: seq<State>, events: seq<Event>, n: nat, user: User)
    requires IsRun(states, events) && n < |events| && n < |states| && LostAgrees(states, events, n, user)
    ensures n + 1 < |states| && LostAgrees(states, events, n + 1, user)
  {
    RunStep(states, events, n);
    RunKeepsLinked(states, events, n);
    hide IsRun, Apply, Enabled, Loses, NoneLost, Linked;
    LostStep(states[n], events[n], user);
    OneMoreLost(states, events, n, user);
  }

  lemma {:induction false} LostExactly(states: seq<State>, events: seq<Event>, n: nat, user: User)
    requires IsRun(states, events) && n < |states|
    ensures LostAgrees(states, events, n, user)
    decreases n
  {
    if n > 0 {
      assert |states| == |events| + 1;
      hide IsRun, LostAgrees;
      LostExactly(states, events, n - 1, user);
      LostAgreesStep(states, events, n - 1, user);
    }
  }

  /** In every run, counts and live sockets agree if and only if no event before has lost a
      count. */
  lemma CountIsLive(states: seq<State>, events: seq<Event>, n: nat, user: User)
    requires IsRun(states, events) && n < |states|
    ensures Count(states[n].store, user) == |Of(states[n].live, user)| <==> NoneLost(states, events, n, user)
  {
    LostExactly(states, events, n, user);
    RunKeepsCount(states, events, n, user);
    hide IsRun, Linked, Heard, Alternates, Of, NoneLost;
  }

  lemma LostIsCounted(s: State, user: User)
    requires CountOk(s, user)
    ensures s.lost[user] > 0 ==> Count(s.store, user) > 0
  {
    hide Heard, Alternates, Of;
  }

  lemma TurnsStep(s: State, e: Event, user: User)
    requires Enabled(s, e) && Linked(s) && CountOk(s, user) && s.lost[user] > 0
    ensures Heard(Apply(s, e).turns, user) == Heard(s.turns, user) && Apply(s, e).lost[user] >= s.lost[user]
  {
    LostStep(s, e, user);
    match e
    case Counts(h) => HeardSnoc(s.turns, user, s.handlers[h].user, true);
    case Disconnect(c, found) =>
      HeardSnoc(s.turns, user, s.sockets[c].user, false);
      assert SocketOk(s, c);
      if TakesBack(s, c, found) && s.sockets[c].user == user {
        OfWithout(s.live, c, user);
      }
    case _ =>
  }

  /** In `t` as in `s`, a count of the user is lost, and nothing was told in between. */
  ghost predicate StaysLost(s: State, t: State, user: User) {
    s.lost[user] > 0 && t.lost[user] > 0 && Heard(t.turns, user) == Heard(s.turns, user)
  }

  lemma RunStaysLost(states: seq<State>, events: seq<Event>, j: nat, s: State, user: User)
    requires IsRun(states, events) && j < |events| && j < |states| && StaysLost(s, states[j], user)
    ensures j + 1 < |states| && StaysLost(s, states[j + 1], user)
  {
    RunStep(states, events, j);
    RunKeepsCount(states, events, j, user);
    hide IsRun, Linked, CountOk, Apply, Enabled, Heard;
    TurnsStep(states[j], events[j], user);
  }

  lemma {:induction false} LostAlways(states: seq<State>, events: seq<Event>, i: nat, j: nat, user: User)
    requires IsRun(states, events) && i <= j < |states| && states[i].lost[user] > 0
    ensures StaysLost(states[i], states[j], user)
    decreases j - i
  {
    if i < j {
      assert |states| == |events| + 1;
      hide IsRun, StaysLost;
      LostAlways(states, events, i, j - 1, user);
      RunStaysLost(states, events, j - 1, states[i], user);
    }
  }

  /** Along every run, once a count of a user is lost, the user never counts as absent again,
      and is told to be neither present nor absent ever after. */
  lemma LostForGood(states: seq<State>, events: seq<Event>, i: nat, j: nat, user: User)
    requires IsRun(states, events) && i <= j < |states| && states[i].lost[user] > 0
    ensures states[j].lost[user] > 0 && Count(states[j].store, user) > 0
    ensures Heard(states[j].turns, user) == Heard(states[i].turns, user)
  {
    LostAlways(states, events, i, j, user);
    RunKeepsCount(states, events, j, user);
    LostIsCounted(states[j], user);
    hide IsRun, Linked, CountOk, Heard;
  }
}
