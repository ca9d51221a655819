/** The polling Freeze service: `start` records an absolute expiry instant
    computed from the injected clock, and `isFrozen` compares the clock's
    current instant with that expiry on every query.

    Time is a natural number of milliseconds. The clock is not part of the
    service: it is passed in as `now`, and a virtual clock that is advanced
    by a test is the `World` below, whose `Adjust` step moves `now` forward.
 */
module Time {
  import opened Wrappers

  const OneSecondMs: nat := 1000
  const TenMinutesMs: nat := 10 * 60 * OneSecondMs

  /** The single piece of mutable state of one Freeze instance: the instant
      at which the current session expires, `None` until the first start. */
  datatype FreezeState = FreezeState(expiresAt: Option<nat>)

  /** A freshly built Freeze: no session has been started. */
  function Initial(): (s: FreezeState)
    ensures forall now: nat :: !IsFrozen(s, now)
  {
    FreezeState(None)
  }

  /** The `isFrozen` query at clock reading `now`. The boundary is exclusive:
      at the expiry instant itself the freeze is already over. */
  predicate IsFrozen(s: FreezeState, now: nat): (b: bool)
    ensures s.expiresAt.None? ==> !b
    ensures s.expiresAt.Some? ==> (b <==> now < s.expiresAt.value)
  {
    match s.expiresAt
    case None => false
    case Some(expiry) => now < expiry
  }

  /** The `start` operation at clock reading `now`: the freeze is armed for
      `timeoutMs` from that instant, whatever session came before. */
  function Start(s: FreezeState, now: nat, timeoutMs: nat): (r: FreezeState)
    ensures forall t: nat :: IsFrozen(r, t) <==> t < now + timeoutMs
  {
    FreezeState(Some(now + timeoutMs))
  }

  /** Being frozen at some instant means being frozen at every earlier one. */
  lemma FrozenEarlier(s: FreezeState, t: nat, t': nat)
    requires t <= t'
    requires IsFrozen(s, t')
    ensures IsFrozen(s, t)
  {
  }

  /** For one and the same state (no new start in between), once a session
      has expired, later readings of the clock never see it frozen again. */
  lemma ExpiredStaysExpired(s: FreezeState, t: nat, t': nat)
    requires t <= t'
    requires !IsFrozen(s, t)
    ensures !IsFrozen(s, t')
  {
  }

  /** A second start replaces the first: the state after re-arming is the
      same as arming a fresh Freeze at the second instant. */
  lemma RestartOverwrites(s: FreezeState, now1: nat, t1: nat, now2: nat, t2: nat)
    ensures Start(Start(s, now1, t1), now2, t2) == Start(Initial(), now2, t2)
    ensures forall t: nat :: IsFrozen(Start(Start(s, now1, t1), now2, t2), t) <==> t < now2 + t2
  {
  }

  // ---------------------------------------------------------------------
  // The Freeze running against a virtual clock.

  /** One thing a test does: start the freeze, or advance the clock. */
  datatype Step = StartFreeze(timeoutMs: nat) | Adjust(deltaMs: nat)

  /** The Freeze instance together with the virtual clock it reads. */
  datatype World = World(freeze: FreezeState, now: nat)

  /** One step of a test: `start` reads the clock without moving it, and
      advancing the clock leaves the Freeze state untouched. */
  function Apply(w: World, step: Step): (r: World)
    ensures step.StartFreeze? ==> r.now == w.now
    ensures step.StartFreeze? ==> forall t: nat :: IsFrozen(r.freeze, t) <==> t < w.now + step.timeoutMs
    ensures step.Adjust? ==> r.freeze == w.freeze && r.now == w.now + step.deltaMs
  {
    match step
    case StartFreeze(timeoutMs) => World(Start(w.freeze, w.now, timeoutMs), w.now)
    case Adjust(deltaMs) => World(w.freeze, w.now + deltaMs)
  }

  function Run(w: World, steps: seq<Step>): World
    decreases |steps|
  {
    if steps == [] then w else Run(Apply(w, steps[0]), steps[1..])
  }

  /** What `isFrozen` answers in a world. */
  predicate Frozen(w: World)
  {
    IsFrozen(w.freeze, w.now)
  }

  predicate NoStart(steps: seq<Step>)
  {
    forall i :: 0 <= i < |steps| ==> steps[i].Adjust?
  }

  /** Total clock advance made by a sequence of steps. */
  function Elapsed(steps: seq<Step>): nat
    decreases |steps|
  {
    if steps == [] then 0
    else (if steps[0].Adjust? then steps[0].deltaMs else 0) + Elapsed(steps[1..])
  }

  lemma {:induction false} RunAppend(w: World, a: seq<Step>, b: seq<Step>)
    ensures Run(w, a + b) == Run(Run(w, a), b)
    decreases |a|
  {
    if a == [] {
      assert a + b == b;
    } else {
      assert (a + b)[0] == a[0];
      assert (a + b)[1..] == a[1..] + b;
      RunAppend(Apply(w, a[0]), a[1..], b);
    }
  }

  /** A run of clock advances alone leaves the Freeze state as it was and
      moves the clock by their sum. */
  lemma {:induction false} AdjustsOnlyMoveClock(w: World, steps: seq<Step>)
    requires NoStart(steps)
    ensures Run(w, steps) == World(w.freeze, w.now + Elapsed(steps))
    decreases |steps|
  {
    if steps != [] {
      assert steps[0].Adjust?;
      assert NoStart(steps[1..]) by {
        forall i | 0 <= i < |steps[1..]|
          ensures steps[1..][i].Adjust?
        {
          assert steps[1..][i] == steps[i + 1];
        }
      }
      AdjustsOnlyMoveClock(Apply(w, steps[0]), steps[1..]);
    }
  }

  /** Without a new start, an expired (or never started) freeze stays
      unfrozen however far the clock moves. */
  lemma StaysExpiredWithoutStart(w: World, steps: seq<Step>)
    requires NoStart(steps)
    requires !Frozen(w)
    ensures !Frozen(Run(w, steps))
  {
    AdjustsOnlyMoveClock(w, steps);
  }

  /** The last start decides: after any history, a start with `timeoutMs`
      followed by clock advances totalling `Elapsed(after)` leaves the
      freeze active exactly when less than `timeoutMs` has elapsed. Earlier
      sessions do not stack. */
  lemma LastStartDecides(w: World, before: seq<Step>, timeoutMs: nat, after: seq<Step>)
    requires NoStart(after)
    ensures Frozen(Run(w, before + [StartFreeze(timeoutMs)] + after)) <==> Elapsed(after) < timeoutMs
  {
    var w1 := Run(w, before);
    var w2 := Apply(w1, StartFreeze(timeoutMs));
    RunAppend(w, before + [StartFreeze(timeoutMs)], after);
    RunAppend(w, before, [StartFreeze(timeoutMs)]);
    assert Run(w1, [StartFreeze(timeoutMs)]) == w2 by {
      assert [StartFreeze(timeoutMs)][1..] == [];
    }
    AdjustsOnlyMoveClock(w2, after);
  }

  /** A freshly built Freeze, started with `timeoutMs` and then advanced by
      less than `timeoutMs`, is still frozen; advanced by `timeoutMs` or
      more, it is not. */
  lemma StartThenAdjust(now: nat, timeoutMs: nat, deltaMs: nat)
    ensures Frozen(Run(World(Initial(), now), [StartFreeze(timeoutMs), Adjust(deltaMs)]))
            <==> deltaMs < timeoutMs
  {
    var after := [Adjust(deltaMs)];
    assert [StartFreeze(timeoutMs), Adjust(deltaMs)] == [] + [StartFreeze(timeoutMs)] + after;
    assert Elapsed(after) == deltaMs by {
      assert after[1..] == [];
    }
    LastStartDecides(World(Initial(), now), [], timeoutMs, after);
  }

  /** Still frozen one second before the timeout, for every timeout of at
      least one second. */
  lemma FrozenOneSecondBeforeTimeout(now: nat, timeoutMs: nat)
    requires timeoutMs >= OneSecondMs
    ensures Frozen(Run(World(Initial(), now), [StartFreeze(timeoutMs), Adjust(timeoutMs - OneSecondMs)]))
  {
    StartThenAdjust(now, timeoutMs, timeoutMs - OneSecondMs);
  }

  /** No longer frozen once exactly the timeout has elapsed. */
  lemma ExpiredAtTimeout(now: nat, timeoutMs: nat)
    ensures !Frozen(Run(World(Initial(), now), [StartFreeze(timeoutMs), Adjust(timeoutMs)]))
  {
    StartThenAdjust(now, timeoutMs, timeoutMs);
  }

  /** The two scenarios with the ten-minute timeout. */
  lemma TenMinuteScenarios(now: nat)
    ensures Frozen(Run(World(Initial(), now), [StartFreeze(TenMinutesMs), Adjust(TenMinutesMs - OneSecondMs)]))
    ensures !Frozen(Run(World(Initial(), now), [StartFreeze(TenMinutesMs), Adjust(TenMinutesMs)]))
  {
    FrozenOneSecondBeforeTimeout(now, TenMinutesMs);
    ExpiredAtTimeout(now, TenMinutesMs);
  }

  /** A zero timeout is already expired at the instant it is started. */
  lemma ZeroTimeoutNotFrozen(w: World)
    ensures !Frozen(Apply(w, StartFreeze(0)))
  {
  }
}
