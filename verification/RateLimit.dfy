/** The limit on a socket's updates: counted in windows of one second, warned of once per
    window, and enforced by closing the socket. */
module RateLimit {

  const MAX_VIOLATIONS: nat := 3

  datatype Limiter = Limiter(messageCount: nat, consecutiveViolations: nat, closed: bool)

  datatype Verdict = Processed | Warned | Dropped

  function Fresh(): Limiter { Limiter(0, 0, false) }

  function Judge(l: Limiter, limit: nat): Verdict {
    if l.messageCount + 1 == limit + 1 then Warned
    else if l.messageCount + 1 > limit then Dropped
    else Processed
  }

  function Counted(l: Limiter): Limiter { l.(messageCount := l.messageCount + 1) }

  function Ticked(l: Limiter, limit: nat): Limiter {
    if l.messageCount > limit then
      Limiter(0, l.consecutiveViolations + 1, l.consecutiveViolations + 1 >= MAX_VIOLATIONS)
    else Limiter(0, 0, false)
  }

  class AuthenticatedSocket {
    const limit: nat
    var messageCount: nat
    var consecutiveViolations: nat
    var closed: bool

    ghost function View(): Limiter
      reads this
    {
      Limiter(messageCount, consecutiveViolations, closed)
    }

    constructor (limit: nat)
      ensures View() == Fresh() && this.limit == limit
    {
      this.limit := limit;
      messageCount, consecutiveViolations, closed := 0, 0, false;
    }

    /** Whether an update is processed, and whether the client is warned. */
    method OnUpdate() returns (processed: bool, warned: bool)
      modifies this`messageCount
      ensures View() == Counted(old(View()))
      ensures processed == (Judge(old(View()), limit) == Processed) && warned == (Judge(old(View()), limit) == Warned)
    {
      messageCount := messageCount + 1;
      warned := messageCount == limit + 1;
      processed := messageCount <= limit;
    }

    /** The window timer, once a second until it is cleared. */
    method OnTick()
      requires !closed
      modifies this
      ensures View() == Ticked(old(View()), limit)
    {
      var wasViolation := messageCount > limit;
      messageCount := 0;
      if wasViolation {
        consecutiveViolations := consecutiveViolations + 1;
        if consecutiveViolations >= MAX_VIOLATIONS {
          closed := true;
        }
      } else {
        consecutiveViolations := 0;
      }
    }
  }

  // ----- traces -----

  datatype Event = Update | Tick

  function Run(trace: seq<Event>, limit: nat): Limiter
    decreases |trace|
  {
    if trace == [] then Fresh()
    else
      var before := Run(trace[..|trace| - 1], limit);
      if trace[|trace| - 1].Update? then Counted(before) else Ticked(before, limit)
  }

  /** What one window saw: updates, those processed, warnings sent. */
  datatype Window = Window(updates: nat, processed: nat, warnings: nat)

  function Seen(w: Window, v: Verdict): Window {
    Window(w.updates + 1, w.processed + (if v == Processed then 1 else 0), w.warnings + if v == Warned then 1 else 0)
  }

  /** The windows that ticks have ended, and the one still open, from the verdicts given. */
  function Windows(trace: seq<Event>, limit: nat): (seq<Window>, Window)
    decreases |trace|
  {
    if trace == [] then ([], Window(0, 0, 0))
    else
      var (ended, current) := Windows(trace[..|trace| - 1], limit);
      if trace[|trace| - 1].Update? then (ended, Seen(current, Judge(Run(trace[..|trace| - 1], limit), limit)))
      else (ended + [current], Window(0, 0, 0))
  }

  ghost predicate Violates(w: Window, limit: nat) { w.updates > limit }

  /** Three violating windows in a row, the last of them with index `k`. */
  ghost predicate ThreeEndingAt(windows: seq<Window>, limit: nat, k: int) {
    2 <= k < |windows| && Violates(windows[k - 2], limit) && Violates(windows[k - 1], limit) && Violates(windows[k], limit)
  }

  /** The violating windows at the end. */
  ghost function Streak(windows: seq<Window>, limit: nat): nat
    decreases |windows|
  {
    if windows == [] || !Violates(windows[|windows| - 1], limit) then 0
    else 1 + Streak(windows[..|windows| - 1], limit)
  }

  ghost predicate WindowOk(w: Window, limit: nat) {
    && w.processed == (if w.updates < limit then w.updates else limit)
    && w.warnings == (if w.updates > limit then 1 else 0)
  }

  ghost predicate Keeps(trace: seq<Event>, limit: nat) {
    var l, (ended, current) := Run(trace, limit), Windows(trace, limit);
    && (forall w | w in ended :: WindowOk(w, limit)) && WindowOk(current, limit)
    && l.messageCount == current.updates
    && l.consecutiveViolations == Streak(ended, limit)
    && (l.closed <==> Streak(ended, limit) >= MAX_VIOLATIONS)
    && Streak(ended, limit) <= MAX_VIOLATIONS
    && forall k | 0 <= k < |ended| - 1 :: !ThreeEndingAt(ended, limit, k)
  }

  /** Closing the socket clears the timer: no tick comes after it, though updates may. */
  ghost predicate TimerCleared(trace: seq<Event>, limit: nat) {
    forall i | 0 <= i < |trace| && Run(trace[..i], limit).closed :: trace[i].Update?
  }

  lemma {:induction false} StreakReaches(windows: seq<Window>, limit: nat, k: nat)
    ensures Streak(windows, limit) >= k <==>
            k <= |windows| && forall i | |windows| - k <= i < |windows| :: Violates(windows[i], limit)
    decreases |windows|
  {
    if k > 0 && windows != [] {
      var n := |windows| - 1;
      StreakReaches(windows[..n], limit, k - 1);
    }
  }

  lemma StreakIsThree(windows: seq<Window>, limit: nat)
    ensures Streak(windows, limit) >= MAX_VIOLATIONS <==> ThreeEndingAt(windows, limit, |windows| - 1)
  {
    StreakReaches(windows, limit, MAX_VIOLATIONS);
  }

  lemma ClearedBefore(trace: seq<Event>, limit: nat)
    requires trace != [] && TimerCleared(trace, limit)
    ensures var front := trace[..|trace| - 1];
            TimerCleared(front, limit) && (trace[|trace| - 1].Tick? ==> !Run(front, limit).closed)
  {
    var front := trace[..|trace| - 1];
    hide Run;
    assert forall i | 0 <= i < |front| :: front[..i] == trace[..i];
  }

  lemma UpdateKeeps(trace: seq<Event>, limit: nat)
    requires trace != [] && trace[|trace| - 1].Update? && Keeps(trace[..|trace| - 1], limit)
    ensures Keeps(trace, limit)
  {
    hide Streak, ThreeEndingAt;
  }

  lemma TickKeeps(trace: seq<Event>, limit: nat)
    requires trace != [] && trace[|trace| - 1].Tick? && Keeps(trace[..|trace| - 1], limit)
    requires !Run(trace[..|trace| - 1], limit).closed
    ensures Keeps(trace, limit)
  {
    var (ended, current) := Windows(trace[..|trace| - 1], limit);
    var windows := ended + [current];
    assert windows[..|windows| - 1] == ended;
    NoneBefore(ended, current, limit);
    hide ThreeEndingAt;
  }

  lemma NoneBefore(ended: seq<Window>, current: Window, limit: nat)
    requires Streak(ended, limit) < MAX_VIOLATIONS
    requires forall k | 0 <= k < |ended| - 1 :: !ThreeEndingAt(ended, limit, k)
    ensures forall k | 0 <= k < |ended| :: !ThreeEndingAt(ended + [current], limit, k)
  {
    StreakIsThree(ended, limit);
    forall k | 0 <= k < |ended| ensures !ThreeEndingAt(ended + [current], limit, k) {
      assert !ThreeEndingAt(ended, limit, k);
    }
  }

  lemma {:induction false} LimiterKeeps(trace: seq<Event>, limit: nat)
    requires TimerCleared(trace, limit)
    ensures Keeps(trace, limit)
    decreases |trace|
  {
    if trace != [] {
      ClearedBefore(trace, limit);
      hide Keeps, TimerCleared, Run;
      LimiterKeeps(trace[..|trace| - 1], limit);
      if trace[|trace| - 1].Tick? {
        TickKeeps(trace, limit);
      } else {
        UpdateKeeps(trace, limit);
      }
    } else {
      assert Windows(trace, limit) == ([], Window(0, 0, 0));
    }
  }

  /** For every trace of updates and ticks, updates behind the closing tick included: each
      window processes its updates up to the limit, and sends one warning if it violates the
      limit and none if not; and the socket is closed exactly if the last tick has ended the
      first three violating windows in a row. */
  lemma LimiterKeepsItsPromise(trace: seq<Event>, limit: nat)
    requires TimerCleared(trace, limit)
    ensures var (ended, current) := Windows(trace, limit);
            && (forall w | w in ended :: WindowOk(w, limit)) && WindowOk(current, limit)
            && (Run(trace, limit).closed <==> ThreeEndingAt(ended, limit, |ended| - 1))
            && forall k | 0 <= k < |ended| - 1 :: !ThreeEndingAt(ended, limit, k)
  {
    hide TimerCleared, Run, Windows, Streak, ThreeEndingAt, WindowOk;
    LimiterKeeps(trace, limit);
    StreakIsThree(Windows(trace, limit).0, limit);
  }

  /** It is a tick that closes the socket. */
  lemma ClosedByATick(trace: seq<Event>, limit: nat)
    requires trace != [] && Run(trace, limit).closed && !Run(trace[..|trace| - 1], limit).closed
    ensures trace[|trace| - 1].Tick?
  {
  }
}
