/** Automatic service restarts within a sliding window. */
module Recovery {
  import opened Options

  datatype RecoveryState = Idle | Restarting | GaveUp

  /** Whether a run is active: waiting for its restart, or returned and about to be cleared. */
  datatype Phase = Inactive | Waiting | Returned

  /**
   The policy's fields, with every restart it ever took and how many of them have ended; the object
   itself keeps only those still in the window.
   */
  datatype Policy = Policy(restarts: seq<real>, restartCount: nat, state: RecoveryState, phase: Phase,
                           log: seq<real>, ended: nat)

  const NEW_POLICY := Policy([], 0, Idle, Inactive, [], 0)

  /** The largest integer a JavaScript number holds without loss. */
  const MAX_SAFE_INTEGER := 0x1F_FFFF_FFFF_FFFF

  datatype Limits = Limits(maxRestarts: nat, windowMs: real)

  /** Times still inside the window. */
  function InWindow(times: seq<real>, now: real, windowMs: real): seq<real> {
    if times == [] then []
    else (if now - times[0] < windowMs then [times[0]] else []) + InWindow(times[1..], now, windowMs)
  }

  lemma NoneInWindow(now: real, windowMs: real)
    ensures InWindow([], now, windowMs) == []
  {
  }

  /** The loop that filters: one more time looked at. */
  lemma WindowStep(recent: seq<real>, times: seq<real>, now: real, windowMs: real)
    requires times != []
    ensures recent + InWindow(times, now, windowMs)
         == (if now - times[0] < windowMs then recent + [times[0]] else recent)
            + InWindow(times[1..], now, windowMs)
  {
    var rest := InWindow(times[1..], now, windowMs);
    hide InWindow;
    assert recent + ([times[0]] + rest) == recent + [times[0]] + rest;
    assert [] + rest == rest;
    assert InWindow(times, now, windowMs) == (if now - times[0] < windowMs then [times[0]] else []) + rest by {
      WindowUnfolds(times, now, windowMs);
    }
  }

  lemma WindowUnfolds(times: seq<real>, now: real, windowMs: real)
    requires times != []
    ensures InWindow(times, now, windowMs)
         == (if now - times[0] < windowMs then [times[0]] else []) + InWindow(times[1..], now, windowMs)
  {
  }

  /** `#takeRestart`. */
  function Take(l: Limits, p: Policy, now: real): (Policy, bool) {
    var recent := InWindow(p.restarts, now, l.windowMs);
    if |recent| >= l.maxRestarts then (p.(restarts := recent), false)
    else (p.(restarts := recent + [now], restartCount := p.restartCount + 1, log := p.log + [now]), true)
  }

  /** One turn of `#run` up to its next wait. */
  function Turn(l: Limits, p: Policy, shuttingDown: bool, now: real): Policy {
    if shuttingDown then p.(state := Idle, phase := Returned)
    else
      var (q, taken) := Take(l, p, now);
      if taken then q.(state := Restarting, phase := Waiting) else q.(state := GaveUp, phase := Returned)
  }

  /** What the policy is told; times come from its clock. */
  datatype Event =
    | Lost(shuttingDown: bool, now: real)
    | Ended(connected: bool, shuttingDown: bool, now: real)   // the restart it waited for
    | Cleared                                                 // the returned run is forgotten
    | Connected

  predicate Enabled(p: Policy, e: Event) {
    (e.Ended? ==> p.phase.Waiting?) && (e.Cleared? ==> p.phase.Returned?)
  }

  function Next(l: Limits, p: Policy, e: Event): Policy
    requires Enabled(p, e)
  {
    match e
    case Lost(shuttingDown, now) =>
      if !p.phase.Inactive? || p.state.GaveUp? || shuttingDown then p else Turn(l, p, shuttingDown, now)
    case Ended(connected, shuttingDown, now) =>
      var q := p.(ended := p.ended + 1);
      if connected then q.(state := Idle, phase := Returned) else Turn(l, q, shuttingDown, now)
    case Cleared => p.(phase := Inactive)
    case Connected => if p.phase.Inactive? && p.state.GaveUp? then p.(state := Idle) else p
  }

  // ---------------------------------------------------------------- The policy object

  class ServiceRecoveryPolicy {
    const maxRestarts: nat
    const windowMs: real
    var restarts: seq<real>
    var restartCount: nat
    var state: RecoveryState
    var phase: Phase
    ghost var log: seq<real>
    ghost var ended: nat

    ghost function View(): Policy
      reads this
    {
      Policy(restarts, restartCount, state, phase, log, ended)
    }

    function Bounds(): Limits { Limits(maxRestarts, windowMs) }

    constructor (maxRestarts: nat, windowMs: real)
      requires windowMs > 0.0
      ensures View() == NEW_POLICY && Bounds() == Limits(maxRestarts, windowMs)
    {
      this.maxRestarts, this.windowMs := maxRestarts, windowMs;
      restarts, restartCount, state, phase, log, ended := [], 0, Idle, Inactive, [], 0;
    }

    /** The limits are checked first; None is the error for limits that are not positive. */
    static method Create(maxRestarts: int, windowMs: real) returns (r: Option<ServiceRecoveryPolicy>)
      ensures r.Some? <==> 0 <= maxRestarts <= MAX_SAFE_INTEGER && windowMs > 0.0
      ensures r.Some? ==> fresh(r.value) && r.value.View() == NEW_POLICY
                          && r.value.Bounds() == Limits(maxRestarts, windowMs)
    {
      if maxRestarts < 0 || maxRestarts > MAX_SAFE_INTEGER || windowMs <= 0.0 {
        return None;
      }
      var policy := new ServiceRecoveryPolicy(maxRestarts, windowMs);
      return Some(policy);
    }

    method TakeRestart(now: real) returns (taken: bool)
      modifies this
      ensures (View(), taken) == Take(Bounds(), old(View()), now)
    {
      hide InWindow;
      var recent: seq<real> := [];
      var k := 0;
      while k < |restarts|
        invariant k <= |restarts| && View() == old(View())
        invariant recent + InWindow(restarts[k..], now, windowMs) == InWindow(restarts, now, windowMs)
      {
        WindowStep(recent, restarts[k..], now, windowMs);
        assert restarts[k..][1..] == restarts[k + 1..];
        if now - restarts[k] < windowMs {
          recent := recent + [restarts[k]];
        }
        k := k + 1;
      }
      assert restarts[k..] == [] && recent + [] == recent;
      assert InWindow([], now, windowMs) == [] by {
        NoneInWindow(now, windowMs);
      }
      assert recent == InWindow(restarts, now, windowMs);
      restarts := recent;
      if |restarts| >= maxRestarts {
        return false;
      }
      restarts := restarts + [now];
      restartCount := restartCount + 1;
      log := log + [now];
      return true;
    }

    method RunTurn(shuttingDown: bool, now: real)
      modifies this
      ensures View() == Turn(Bounds(), old(View()), shuttingDown, now)
    {
      if shuttingDown {
        state, phase := Idle, Returned;
        return;
      }
      var taken := TakeRestart(now);
      if !taken {
        state, phase := GaveUp, Returned;
        return;
      }
      state, phase := Restarting, Waiting;
    }

    method ServiceLost(shuttingDown: bool, now: real)
      modifies this
      ensures View() == Next(Bounds(), old(View()), Lost(shuttingDown, now))
    {
      if !phase.Inactive? || state.GaveUp? || shuttingDown {
        return;
      }
      RunTurn(shuttingDown, now);
    }

    method RestartEnded(connected: bool, shuttingDown: bool, now: real)
      requires phase.Waiting?
      modifies this
      ensures View() == Next(Bounds(), old(View()), Ended(connected, shuttingDown, now))
    {
      ended := ended + 1;
      if connected {
        state, phase := Idle, Returned;
        return;
      }
      RunTurn(shuttingDown, now);
    }

    method ServiceConnected()
      modifies this`state
      ensures View() == Next(Bounds(), old(View()), Connected)
    {
      if phase.Inactive? && state.GaveUp? {
        state := Idle;
      }
    }
  }

  // ---------------------------------------------------------------- Runs with a clock that never goes back

  ghost predicate Nondecreasing(times: seq<real>) {
    forall i, j :: 0 <= i < j < |times| ==> times[i] <= times[j]
  }

  /** What every run keeps: `clock` is the latest time the policy has read. */
  ghost predicate Inv(l: Limits, p: Policy, clock: real) {
    && Nondecreasing(p.log) && (forall i :: 0 <= i < |p.log| ==> p.log[i] <= clock)
    && |p.restarts| <= |p.log| && p.restarts == p.log[|p.log| - |p.restarts|..]
    && (forall i :: 0 <= i < |p.log| - |p.restarts| ==> clock - p.log[i] >= l.windowMs)
    && p.restartCount == |p.log|
    && |p.log| == p.ended + (if p.phase.Waiting? then 1 else 0)
    && SpacedOut(l, p.log)
  }

  /** Any restart and the one `maxRestarts` later are at least a window apart. */
  ghost predicate SpacedOut(l: Limits, log: seq<real>) {
    forall i :: 0 <= i < |log| - l.maxRestarts ==> log[i + l.maxRestarts] - log[i] >= l.windowMs
  }

  lemma {:induction false} AllInWindow(times: seq<real>, now: real, windowMs: real)
    requires forall i :: 0 <= i < |times| ==> now - times[i] < windowMs
    ensures InWindow(times, now, windowMs) == times
  {
    if times != [] {
      AllInWindow(times[1..], now, windowMs);
      assert times == [times[0]] + times[1..];
    }
  }

  /** In order of time, what leaves the window is a prefix. */
  lemma {:induction false} WindowIsSuffix(times: seq<real>, now: real, windowMs: real) returns (gone: nat)
    requires Nondecreasing(times)
    ensures gone <= |times| && InWindow(times, now, windowMs) == times[gone..]
    ensures forall i :: 0 <= i < gone ==> now - times[i] >= windowMs
  {
    hide InWindow;
    if times == [] {
      NoneInWindow(now, windowMs);
      gone := 0;
    } else if now - times[0] < windowMs {
      AllInWindow(times, now, windowMs);
      gone := 0;
    } else {
      WindowUnfolds(times, now, windowMs);
      var rest := WindowIsSuffix(times[1..], now, windowMs);
      gone := rest + 1;
      assert times[1..][rest..] == times[gone..];
      assert forall i :: 1 <= i < gone ==> times[i] == times[1..][i - 1];
    }
  }

  /** Forgetting restarts outside the window does not change the answer: it counts as over the whole log. */
  lemma {:induction false} OldRestartsDoNotCount(times: seq<real>, k: nat, now: real, windowMs: real)
    requires k <= |times| && forall i :: 0 <= i < k ==> now - times[i] >= windowMs
    ensures InWindow(times, now, windowMs) == InWindow(times[k..], now, windowMs)
  {
    if k > 0 {
      OldRestartsDoNotCount(times[1..], k - 1, now, windowMs);
      assert times[1..][k - 1..] == times[k..];
    } else {
      assert times[0..] == times;
    }
  }

  /** A restart is refused exactly when the window already holds as many as allowed. */
  lemma RefusedWhenWindowFull(l: Limits, p: Policy, clock: real, now: real)
    requires Inv(l, p, clock) && clock <= now
    ensures Take(l, p, now).1 <==> |InWindow(p.log, now, l.windowMs)| < l.maxRestarts
  {
    OldRestartsDoNotCount(p.log, |p.log| - |p.restarts|, now, l.windowMs);
  }

  /** What is still in the window is the end of the log. */
  lemma WindowEndsLog(l: Limits, p: Policy, clock: real, now: real) returns (gone: nat)
    requires Inv(l, p, clock) && clock <= now
    ensures gone <= |p.log| && InWindow(p.restarts, now, l.windowMs) == p.log[gone..]
    ensures forall i :: 0 <= i < gone ==> now - p.log[i] >= l.windowMs
  {
    hide SpacedOut, InWindow;
    OldRestartsDoNotCount(p.log, |p.log| - |p.restarts|, now, l.windowMs);
    gone := WindowIsSuffix(p.log, now, l.windowMs);
  }

  lemma AddKeepsOrder(log: seq<real>, now: real)
    requires Nondecreasing(log) && forall i :: 0 <= i < |log| ==> log[i] <= now
    ensures Nondecreasing(log + [now])
  {
  }

  lemma AddKeepsSpacing(l: Limits, log: seq<real>, gone: nat, now: real)
    requires SpacedOut(l, log) && gone <= |log| && |log| - gone < l.maxRestarts
    requires forall i :: 0 <= i < gone ==> now - log[i] >= l.windowMs
    ensures SpacedOut(l, log + [now])
  {
  }

  lemma TakeKeeps(l: Limits, p: Policy, clock: real, now: real)
    requires Inv(l, p, clock) && clock <= now && !p.phase.Waiting?
    ensures var (q, taken) := Take(l, p, now);
            Inv(l, q.(phase := if taken then Waiting else Returned), now)
  {
    hide InWindow, SpacedOut, Nondecreasing;
    var gone := WindowEndsLog(l, p, clock, now);
    if |p.log| - gone < l.maxRestarts {
      AddKeepsOrder(p.log, now);
      AddKeepsSpacing(l, p.log, gone, now);
      assert (p.log + [now])[gone..] == p.log[gone..] + [now];
    }
  }

  lemma TurnKeeps(l: Limits, p: Policy, clock: real, shuttingDown: bool, now: real)
    requires Inv(l, p, clock) && clock <= now && !p.phase.Waiting?
    ensures Inv(l, Turn(l, p, shuttingDown, now), now)
  {
    hide Take, SpacedOut, Nondecreasing;
    if !shuttingDown {
      TakeKeeps(l, p, clock, now);
    }
  }

  /** A turn sets the phase whatever it was. */
  lemma PhaseIsSet(l: Limits, p: Policy, shuttingDown: bool, now: real)
    ensures Turn(l, p.(phase := Returned), shuttingDown, now) == Turn(l, p, shuttingDown, now)
  {
  }

  function TimeOf(e: Event, clock: real): real {
    match e
    case Lost(_, now) => now
    case Ended(_, _, now) => now
    case _ => clock
  }

  lemma StepKeeps(l: Limits, p: Policy, clock: real, e: Event)
    requires Inv(l, p, clock) && Enabled(p, e) && clock <= TimeOf(e, clock)
    ensures Inv(l, Next(l, p, e), TimeOf(e, clock))
  {
    hide Turn, SpacedOut, Nondecreasing;
    match e {
      case Lost(shuttingDown, now) =>
        if p.phase.Inactive? && !p.state.GaveUp? && !shuttingDown {
          TurnKeeps(l, p, clock, shuttingDown, now);
        }
      case Ended(connected, shuttingDown, now) =>
        var q := p.(ended := p.ended + 1);
        if !connected {
          TurnKeeps(l, q.(phase := Returned), clock, shuttingDown, now);
          PhaseIsSet(l, q, shuttingDown, now);
        }
      case _ =>
    }
  }

  // ---------------------------------------------------------------- Retrying and giving up

  /** The window holds as many restarts as allowed: the last but so many was taken less than a window ago. */
  predicate WindowFull(l: Limits, log: seq<real>, now: real) {
    l.maxRestarts == 0 || (|log| >= l.maxRestarts && now - log[|log| - l.maxRestarts] < l.windowMs)
  }

  /** One more restart is taken and waited for, unless the window is full: then the policy gives up. */
  predicate Tried(l: Limits, p: Policy, now: real, q: Policy) {
    if WindowFull(l, p.log, now) then q.state.GaveUp? && q.phase.Returned? && q.log == p.log
    else q.state.Restarting? && q.phase.Waiting? && q.log == p.log + [now]
  }

  lemma {:induction false} KeptAreRecent(times: seq<real>, now: real, windowMs: real)
    ensures forall t :: t in InWindow(times, now, windowMs) ==> now - t < windowMs
  {
    if times != [] {
      KeptAreRecent(times[1..], now, windowMs);
    }
  }

  lemma TakenUnlessFull(l: Limits, p: Policy, clock: real, now: real)
    requires Inv(l, p, clock) && clock <= now
    ensures Take(l, p, now).1 <==> !WindowFull(l, p.log, now)
  {
    hide InWindow, SpacedOut, Nondecreasing;
    var gone := WindowEndsLog(l, p, clock, now);
    KeptAreRecent(p.restarts, now, l.windowMs);
    if |p.log| >= l.maxRestarts > 0 {
      var at := |p.log| - l.maxRestarts;
      if at >= gone {
        assert p.log[at] == p.log[gone..][at - gone];
        assert p.log[at] in InWindow(p.restarts, now, l.windowMs);
      }
    }
  }

  /**
   What each event leads to, by the times of all restarts taken, those forgotten included: a loss starts a
   run only from rest, an unconnected restart is followed by another, and only a full window ends in giving up.
   */
  lemma StepOutcome(l: Limits, p: Policy, clock: real, e: Event)
    requires Inv(l, p, clock) && Enabled(p, e) && clock <= TimeOf(e, clock)
    ensures var q := Next(l, p, e);
            match e
            case Lost(shuttingDown, now) =>
              if p.phase.Inactive? && !p.state.GaveUp? && !shuttingDown then Tried(l, p, now, q) && q.ended == p.ended
              else q == p
            case Ended(connected, shuttingDown, now) =>
              && q.ended == p.ended + 1
              && if connected || shuttingDown then q.state.Idle? && q.phase.Returned? && q.log == p.log
                 else Tried(l, p, now, q)
            case Cleared => q == p.(phase := Inactive)
            case Connected => q == if p.phase.Inactive? && p.state.GaveUp? then p.(state := Idle) else p
  {
    hide Inv, WindowFull, InWindow;
    match e {
      case Lost(_, now) => TakenUnlessFull(l, p, clock, now);
      case Ended(_, _, now) =>
        TakenUnlessFull(l, p, clock, now);
        SameTake(l, p, now);
      case _ =>
    }
  }

  lemma SameTake(l: Limits, p: Policy, now: real)
    ensures Take(l, p.(ended := p.ended + 1), now).1 == Take(l, p, now).1
  {}

  /** A run whose clock never goes back. */
  ghost predicate Run(l: Limits, p: Policy, clock: real, events: seq<Event>, q: Policy, end: real)
    decreases |events|
  {
    if events == [] then p == q && clock == end
    else
      Enabled(p, events[0]) && clock <= TimeOf(events[0], clock)
      && Run(l, Next(l, p, events[0]), TimeOf(events[0], clock), events[1..], q, end)
  }

  lemma {:induction false} RunKeeps(l: Limits, p: Policy, clock: real, events: seq<Event>, q: Policy, end: real)
    requires Inv(l, p, clock) && Run(l, p, clock, events, q, end)
    ensures Inv(l, q, end)
    decreases |events|
  {
    hide Inv, Next, Enabled;
    if events != [] {
      StepKeeps(l, p, clock, events[0]);
      RunKeeps(l, Next(l, p, events[0]), TimeOf(events[0], clock), events[1..], q, end);
    }
  }

  /**
   Over every run: any `maxRestarts + 1` consecutive automatic restarts span at least the window, and
   all but the one being waited for have ended, so no two ever run at once.
   */
  lemma RestartBudget(l: Limits, clock: real, events: seq<Event>, q: Policy, end: real)
    requires l.windowMs > 0.0 && Run(l, NEW_POLICY, clock, events, q, end)
    ensures SpacedOut(l, q.log) && q.restartCount == |q.log|
    ensures |q.log| == q.ended + (if q.phase.Waiting? then 1 else 0)
  {
    hide Run;
    RunKeeps(l, NEW_POLICY, clock, events, q, end);
  }

  lemma NotSpacedFromItself(l: Limits, log: seq<real>)
    requires SpacedOut(l, log) && l.maxRestarts == 0
    ensures log == [] || l.windowMs <= 0.0
  {
    if log != [] {
      var i := 0;
      assert log[i + l.maxRestarts] - log[i] >= l.windowMs;
    }
  }

  /** With no restarts allowed, none is ever taken. */
  lemma NoBudgetNoRestart(l: Limits, clock: real, events: seq<Event>, q: Policy, end: real)
    requires l.windowMs > 0.0 && l.maxRestarts == 0 && Run(l, NEW_POLICY, clock, events, q, end)
    ensures q.log == []
  {
    hide Run, SpacedOut;
    RestartBudget(l, clock, events, q, end);
    NotSpacedFromItself(l, q.log);
  }

  /** After giving up, losses start nothing until a connection made some other way. */
  lemma {:induction false} GaveUpStays(l: Limits, p: Policy, clock: real, events: seq<Event>, q: Policy, end: real)
    requires p.state.GaveUp? && !p.phase.Waiting? && Run(l, p, clock, events, q, end)
    requires forall k :: 0 <= k < |events| ==> !events[k].Connected?
    ensures q.state.GaveUp? && q.log == p.log
    decreases |events|
  {
    if events != [] {
      GaveUpStays(l, Next(l, p, events[0]), TimeOf(events[0], clock), events[1..], q, end);
    }
  }

  /** A run on any clock; None when an event is not possible. */
  function After(l: Limits, p: Policy, events: seq<Event>): Option<Policy>
    decreases |events|
  {
    if events == [] then Some(p)
    else if !Enabled(p, events[0]) then None
    else After(l, Next(l, p, events[0]), events[1..])
  }

  /** A restart at this time that connects, its run forgotten before the next event. */
  function Recovered(now: real): seq<Event> {
    [Lost(false, now), Ended(true, false, now), Cleared]
  }

  lemma {:induction false} AfterConcat(l: Limits, p: Policy, x: seq<Event>, y: seq<Event>)
    requires After(l, p, x).Some?
    ensures After(l, p, x + y) == After(l, After(l, p, x).value, y)
    decreases |x|
  {
    hide Next, Enabled;
    if x == [] {
      assert x + y == y;
    } else {
      assert (x + y)[1..] == x[1..] + y;
      AfterConcat(l, Next(l, p, x[0]), x[1..], y);
    }
  }

  lemma RecoveredOnce(l: Limits, p: Policy, now: real)
    requires p.phase.Inactive? && p.state.Idle? && |InWindow(p.restarts, now, l.windowMs)| < l.maxRestarts
    ensures After(l, p, Recovered(now))
         == Some(Policy(InWindow(p.restarts, now, l.windowMs) + [now], p.restartCount + 1, Idle, Inactive,
                        p.log + [now], p.ended + 1))
  {
    hide InWindow;
    var events := Recovered(now);
    assert events[1..] == [Ended(true, false, now), Cleared] && events[1..][1..] == [Cleared];
    assert events[1..][1..][1..] == [];
    var waiting := Next(l, p, events[0]);
    var returned := Next(l, waiting, events[1]);
    assert After(l, returned, [Cleared]) == After(l, Next(l, returned, Cleared), []);
    assert After(l, waiting, events[1..]) == After(l, returned, [Cleared]);
  }

  /**
   Why the clock matters: once it goes back, a third restart of a new policy can follow the first by less
   than a window that allows two.
   */
  lemma ClockThatGoesBack()
    ensures var l := Limits(2, 10.0);
            var end := After(l, NEW_POLICY, Recovered(100.0) + (Recovered(200.0) + Recovered(105.0)));
            end.Some? && end.value.log == [100.0, 200.0, 105.0] && !SpacedOut(l, end.value.log)
  {
    hide After, Recovered;
    var l := Limits(2, 10.0);
    assert InWindow([], 100.0, 10.0) == [] && [100.0][1..] == [] && [200.0][1..] == [];
    assert InWindow([100.0], 200.0, 10.0) == [] && InWindow([200.0], 105.0, 10.0) == [200.0];
    RecoveredOnce(l, NEW_POLICY, 100.0);
    var first := After(l, NEW_POLICY, Recovered(100.0)).value;
    assert [] + [100.0] == [100.0] && [] + [200.0] == [200.0];
    RecoveredOnce(l, first, 200.0);
    var second := After(l, first, Recovered(200.0)).value;
    RecoveredOnce(l, second, 105.0);
    AfterConcat(l, NEW_POLICY, Recovered(100.0), Recovered(200.0) + Recovered(105.0));
    AfterConcat(l, first, Recovered(200.0), Recovered(105.0));
    var log := After(l, second, Recovered(105.0)).value.log;
    assert log == [100.0, 200.0, 105.0];
    assert log[0 + l.maxRestarts] - log[0] == 5.0;
  }
}
