// A connect the balance blocked, recovering by itself (app/src/Common/BalanceGate.h): a refused start or a held
// connection waits for the balance, and a reading of enough of it, no older than what armed the wait, retries it.
// Every time is in milliseconds on one clock.
module BalanceRecovery {
  import opened Options

  const THRESHOLD_BYTES := 67108864
  const MAX_RETRIES := 3
  const RESET_MILLIS := 600000

  datatype Balance = Balance(known: bool, available: int, fetchedAt: int)

  datatype Recovery<T> = Recovery(
    refused: Option<T>, held: bool, armedAt: Option<int>, retries: nat, lastRetryAt: int)

  datatype Retry<T> = NoRetry | Start(target: T) | Rebuild

  datatype Event<T> =
    | StartRefused(target: T, now: int)
    | Clear
    | Observe(gate: bool, requested: bool, balance: Balance, now: int)

  function Arm<T>(s: Recovery<T>, at: int): Recovery<T> {
    if s.armedAt.Some? then s else s.(armedAt := Some(at))
  }

  // A connection the user asked for is held out of balance.
  predicate Held<T>(e: Event<T>) {
    e.Observe? && e.gate && e.requested
  }

  // An observation that refills the retries: a retried connection has stayed out of the block long enough.
  predicate StayedUp<T>(s: Recovery<T>, e: Event<T>) {
    e.Observe? && e.requested && !e.gate && s.retries > 0 && RESET_MILLIS <= e.now - s.lastRetryAt
  }

  // The observation's start: a new hold arms the wait, and a connection that stayed up refills the retries.
  function Noted<T>(s: Recovery<T>, e: Event<T>): Recovery<T>
    requires e.Observe?
  {
    var noted := (if Held(e) && !s.held then Arm(s, e.now) else s).(held := Held(e));
    if StayedUp(s, e) then noted.(retries := 0) else noted
  }

  function Observed<T>(s: Recovery<T>, e: Event<T>): (Recovery<T>, Retry<T>)
    requires e.Observe?
  {
    var noted := Noted(s, e);
    if noted.refused.None? && !Held(e) then (noted.(armedAt := None), NoRetry)
    else if !e.balance.known then (noted, NoRetry)
    else if e.balance.available < THRESHOLD_BYTES then (Arm(noted, e.balance.fetchedAt), NoRetry)
    else if noted.armedAt.None? || e.balance.fetchedAt < noted.armedAt.value || MAX_RETRIES <= noted.retries then
      (noted, NoRetry)
    else (noted.(armedAt := None, retries := noted.retries + 1, lastRetryAt := e.now, refused := None),
          if noted.refused.Some? then Start(noted.refused.value) else Rebuild)
  }

  function Idle<T>(): Recovery<T> {
    Recovery(None, false, None, 0, 0)
  }

  function Step<T>(s: Recovery<T>, e: Event<T>): (Recovery<T>, Retry<T>) {
    match e
    case StartRefused(target, now) => (Arm(s.(refused := Some(target), retries := 0), now), NoRetry)
    case Clear => (s.(refused := None, armedAt := None, retries := 0), NoRetry)
    case Observe(_, _, _, _) => Observed(s, e)
  }

  function At<T>(es: seq<Event<T>>, n: nat): Recovery<T>
    requires n <= |es|
  {
    if n == 0 then Idle() else Step(At(es, n - 1), es[n - 1]).0
  }

  function RetryAt<T>(es: seq<Event<T>>, n: nat): Retry<T>
    requires n < |es|
  {
    Step(At(es, n), es[n]).1
  }

  class BalanceRecovery<T(==)> {
    var refusedStart: Option<T>
    var held: bool
    var armedAtMs: Option<int>
    var retries: nat
    var lastRetryAtMs: int

    function Model(): Recovery<T>
      reads this
    {
      Recovery(refusedStart, held, armedAtMs, retries, lastRetryAtMs)
    }

    constructor ()
      ensures Model() == Idle()
    {
      refusedStart, held, armedAtMs, retries, lastRetryAtMs := None, false, None, 0, 0;
    }

    method ArmAt(at: int)
      modifies this`armedAtMs
      ensures Model() == Arm(old(Model()), at)
    {
      if armedAtMs.None? {
        armedAtMs := Some(at);
      }
    }

    method StartRefused(target: T, now: int)
      modifies this
      ensures Model() == Step(old(Model()), Event.StartRefused(target, now)).0
    {
      refusedStart := Some(target);
      retries := 0;
      ArmAt(now);
    }

    method Clear()
      modifies this
      ensures Model() == Step(old(Model()), Event.Clear).0
    {
      refusedStart := None;
      armedAtMs := None;
      retries := 0;
    }

    method Observe(gate: bool, requested: bool, balance: Balance, now: int) returns (retry: Retry<T>)
      modifies this
      ensures (Model(), retry) == Step(old(Model()), Event.Observe(gate, requested, balance, now))
    {
      var heldNow := gate && requested;
      if heldNow && !held {
        ArmAt(now);
      }
      held := heldNow;
      if requested && !heldNow && 0 < retries && RESET_MILLIS <= now - lastRetryAtMs {
        retries := 0;
      }
      if refusedStart.None? && !heldNow {
        armedAtMs := None;
        return NoRetry;
      }
      if !balance.known {
        return NoRetry;
      }
      if balance.available < THRESHOLD_BYTES {
        ArmAt(balance.fetchedAt);
        return NoRetry;
      }
      if armedAtMs.None? || balance.fetchedAt < armedAtMs.value || MAX_RETRIES <= retries {
        return NoRetry;
      }
      armedAtMs := None;
      retries := retries + 1;
      lastRetryAtMs := now;
      if refusedStart.Some? {
        retry := Start(refusedStart.value);
        refusedStart := None;
      } else {
        retry := Rebuild;
      }
    }
  }

  // ---- the bound ----

  // The last retry before n.
  ghost predicate LastRetry<T>(es: seq<Event<T>>, j: nat, n: nat)
    requires n <= |es|
  {
    j < n && !RetryAt(es, j).NoRetry? && forall i | j < i < n :: RetryAt(es, i).NoRetry?
  }

  // A requested connection that is not held, long enough after the last retry.
  ghost predicate StaysUp<T>(es: seq<Event<T>>, k: nat)
    requires k < |es|
  {
    && es[k].Observe? && es[k].requested && !es[k].gate
    && exists j: nat :: LastRetry(es, j, k) && RESET_MILLIS <= es[k].now - es[j].now
  }

  // A new ask, a Clear, or a retried connection that stayed up refills the retries.
  ghost predicate Refills<T>(es: seq<Event<T>>, k: nat)
    requires k < |es|
  {
    es[k].StartRefused? || es[k].Clear? || StaysUp(es, k)
  }

  // The retries made since the last refill; one that refills may retry too.
  ghost function RetriesSince<T>(es: seq<Event<T>>, n: nat): nat
    requires n <= |es|
  {
    if n == 0 then 0
    else (if Refills(es, n - 1) then 0 else RetriesSince(es, n - 1)) + if RetryAt(es, n - 1).NoRetry? then 0 else 1
  }

  function RetriesMade<T>(es: seq<Event<T>>, i: nat, n: nat): nat
    requires i <= n <= |es|
    decreases n
  {
    if i == n then 0 else RetriesMade(es, i, n - 1) + if RetryAt(es, n - 1).NoRetry? then 0 else 1
  }

  lemma RetriesStep<T>(s: Recovery<T>, e: Event<T>)
    ensures var (t, retry) := Step(s, e);
            && t.retries == (if e.StartRefused? || e.Clear? || StayedUp(s, e) then 0 else s.retries)
                            + (if retry.NoRetry? then 0 else 1)
            && t.lastRetryAt == (if retry.NoRetry? then s.lastRetryAt else e.now)
            && (s.retries <= MAX_RETRIES ==> t.retries <= MAX_RETRIES)
            && (!retry.NoRetry? ==> e.Observe?)
  {
  }

  lemma {:induction false} LastRetryBefore<T>(es: seq<Event<T>>, n: nat) returns (j: nat)
    requires n <= |es| && RetriesSince(es, n) > 0
    ensures LastRetry(es, j, n)
  {
    hide At, RetryAt, StaysUp;
    if RetryAt(es, n - 1).NoRetry? {
      j := LastRetryBefore(es, n - 1);
    } else {
      j := n - 1;
    }
  }

  // The state keeps the time of the last retry.
  lemma {:induction false} LastRetryKnown<T>(es: seq<Event<T>>, j: nat, n: nat)
    requires n <= |es| && LastRetry(es, j, n)
    ensures es[j].Observe? && At(es, n).lastRetryAt == es[j].now
    decreases n
  {
    hide Step, StayedUp;
    var last: nat := n - 1;
    RetriesStep(At(es, last), es[last]);
    if j < last {
      LastRetryKnown(es, j, last);
      assert RetryAt(es, last).NoRetry?;
    }
  }

  lemma StayedUpExactly<T>(es: seq<Event<T>>, k: nat)
    requires k < |es| && At(es, k).retries == RetriesSince(es, k)
    ensures StayedUp(At(es, k), es[k]) <==> RetriesSince(es, k) > 0 && StaysUp(es, k)
  {
    hide At, RetryAt, RetriesSince;
    if RetriesSince(es, k) > 0 {
      var last := LastRetryBefore(es, k);
      forall j: nat | LastRetry(es, j, k) ensures j == last {
      }
      LastRetryKnown(es, last, k);
    }
  }

  // The retries counted are those made since the last refill, over every run.
  lemma {:induction false} RetriesKnown<T>(es: seq<Event<T>>, n: nat)
    requires n <= |es|
    ensures At(es, n).retries == RetriesSince(es, n) <= MAX_RETRIES
  {
    hide Step, StayedUp, StaysUp;
    assert Idle<T>().retries == 0;
    if n > 0 {
      RetriesKnown(es, n - 1);
      StayedUpExactly(es, n - 1);
      RetriesStep(At(es, n - 1), es[n - 1]);
    }
  }

  lemma {:induction false} RetriesCounted<T>(es: seq<Event<T>>, i: nat, n: nat)
    requires i <= n <= |es| && forall k | i <= k < n :: !Refills(es, k)
    ensures RetriesSince(es, n) == RetriesSince(es, i) + RetriesMade(es, i, n)
    decreases n
  {
    hide RetryAt, Refills;
    if i < n {
      RetriesCounted(es, i, n - 1);
      assert !Refills(es, n - 1);
    }
  }

  // At most three retries between refills.
  lemma {:induction false} AtMostThreeRetries<T>(es: seq<Event<T>>, i: nat, n: nat)
    requires i <= n <= |es| && forall k | i <= k < n :: !Refills(es, k)
    ensures RetriesMade(es, i, n) <= MAX_RETRIES
  {
    RetriesCounted(es, i, n);
    RetriesKnown(es, n);
  }

  // The last observation before n saw a requested connection held.
  predicate HeldBefore<T>(es: seq<Event<T>>, n: nat)
    requires n <= |es|
  {
    n > 0 && if es[n - 1].Observe? then Held(es[n - 1]) else HeldBefore(es, n - 1)
  }

  lemma HeldStep<T>(s: Recovery<T>, e: Event<T>)
    ensures Step(s, e).0.held == if e.Observe? then Held(e) else s.held
  {
  }

  lemma {:induction false} HeldKnown<T>(es: seq<Event<T>>, n: nat)
    requires n <= |es|
    ensures At(es, n).held <==> HeldBefore(es, n)
  {
    hide Step;
    assert !Idle<T>().held;
    if n > 0 {
      HeldKnown(es, n - 1);
      HeldStep(At(es, n - 1), es[n - 1]);
    }
  }

  // ---- what arms a wait ----

  // A reading too low to retry on, while something waits.
  predicate ReadsLow<T>(s: Recovery<T>, e: Event<T>) {
    e.Observe? && e.balance.known && e.balance.available < THRESHOLD_BYTES && (s.refused.Some? || Held(e))
  }

  // A connection is newly held.
  predicate NewlyHeld<T>(s: Recovery<T>, e: Event<T>) {
    Held(e) && !s.held
  }

  // The moment an event would arm the wait at: a refusal or a new hold at its own time, a low reading at the time it
  // was fetched.
  function ArmsAt<T>(s: Recovery<T>, e: Event<T>): Option<int> {
    if e.StartRefused? then Some(e.now)
    else if NewlyHeld(s, e) then Some(e.now)
    else if ReadsLow(s, e) then Some(e.balance.fetchedAt)
    else None
  }

  // An event that leaves an armed wait as it is: no retry, no Clear, and an observation only while a start waits or a
  // connection is held.
  predicate KeepsArmed<T>(s: Recovery<T>, e: Event<T>) {
    Step(s, e).1.NoRetry? && !e.Clear? && (e.Observe? ==> s.refused.Some? || Held(e))
  }

  // Event k armed the wait at t, and every event from k to n kept it.
  ghost predicate ArmedBy<T>(es: seq<Event<T>>, k: nat, n: nat, t: int)
    requires n <= |es|
  {
    && k < n && At(es, k).armedAt.None? && ArmsAt(At(es, k), es[k]) == Some(t)
    && forall j | k <= j < n :: KeepsArmed(At(es, j), es[j])
  }

  lemma ArmingStep<T>(s: Recovery<T>, e: Event<T>)
    ensures Step(s, e).0.armedAt == if !KeepsArmed(s, e) then None
                                    else if s.armedAt.Some? then s.armedAt else ArmsAt(s, e)
  {
  }

  lemma {:induction false} ArmedSince<T>(es: seq<Event<T>>, n: nat) returns (k: nat)
    requires n <= |es| && At(es, n).armedAt.Some?
    ensures ArmedBy(es, k, n, At(es, n).armedAt.value)
  {
    hide Step, ArmsAt, KeepsArmed;
    assert n > 0 by {
      assert Idle<T>().armedAt.None?;
    }
    var s := At(es, n - 1);
    ArmingStep(s, es[n - 1]);
    if s.armedAt.Some? {
      k := ArmedSince(es, n - 1);
    } else {
      k := n - 1;
    }
  }

  lemma {:induction false} ArmedUntil<T>(es: seq<Event<T>>, k: nat, n: nat, t: int)
    requires n <= |es| && ArmedBy(es, k, n, t)
    ensures At(es, n).armedAt == Some(t)
    decreases n
  {
    hide Step, ArmsAt, KeepsArmed;
    ArmingStep(At(es, n - 1), es[n - 1]);
    if k < n - 1 {
      ArmedUntil(es, k, n - 1, t);
    }
  }

  // The wait is armed at t exactly when an event armed it at t and everything since has kept it.
  lemma ArmedExactly<T>(es: seq<Event<T>>, n: nat, t: int)
    requires n <= |es|
    ensures At(es, n).armedAt == Some(t) <==> exists k :: ArmedBy(es, k, n, t)
  {
    if At(es, n).armedAt == Some(t) {
      var k := ArmedSince(es, n);
    } else if k :| ArmedBy(es, k, n, t) {
      ArmedUntil(es, k, n, t);
    }
  }

  // ---- when a retry is made ----

  // A reading with enough balance to retry on.
  predicate ReadsEnough<T>(e: Event<T>) {
    e.Observe? && e.balance.known && e.balance.available >= THRESHOLD_BYTES
  }

  // Event k, at or before n, armed the wait no later than the reading at n was fetched, and it was kept until n.
  ghost predicate ArmedFor<T>(es: seq<Event<T>>, k: nat, n: nat)
    requires n < |es| && es[n].Observe?
  {
    && k <= n && At(es, k).armedAt.None?
    && ArmsAt(At(es, k), es[k]).Some? && ArmsAt(At(es, k), es[k]).value <= es[n].balance.fetchedAt
    && forall j | k <= j < n :: KeepsArmed(At(es, j), es[j])
  }

  // The moment the wait is armed at once the event has had its say.
  function ArmedBeforeOrBy<T>(s: Recovery<T>, e: Event<T>): Option<int> {
    if s.armedAt.Some? then s.armedAt else ArmsAt(s, e)
  }

  // One observation retries exactly on a reading of enough balance, with something waiting, a retry left and the wait
  // armed, before it or by it, no later than the reading was fetched.
  lemma RetryStep<T>(s: Recovery<T>, e: Event<T>)
    ensures !Step(s, e).1.NoRetry? <==>
              && ReadsEnough(e) && (s.refused.Some? || Held(e))
              && (s.retries < MAX_RETRIES || StayedUp(s, e))
              && ArmedBeforeOrBy(s, e).Some? && ArmedBeforeOrBy(s, e).value <= e.balance.fetchedAt
    ensures Step(s, e).1.Start? <==> !Step(s, e).1.NoRetry? && s.refused.Some?
  {
  }

  lemma ArmedForTheWait<T>(es: seq<Event<T>>, k: nat, n: nat)
    requires n < |es| && es[n].Observe? && ArmedFor(es, k, n)
    ensures var armed := ArmedBeforeOrBy(At(es, n), es[n]); armed.Some? && armed.value <= es[n].balance.fetchedAt
  {
    hide ArmsAt, KeepsArmed, At;
    if k < n {
      ArmedUntil(es, k, n, ArmsAt(At(es, k), es[k]).value);
    }
  }

  lemma WaitArmedFor<T>(es: seq<Event<T>>, n: nat) returns (k: nat)
    requires n < |es| && es[n].Observe? && ArmedBeforeOrBy(At(es, n), es[n]).Some?
    requires ArmedBeforeOrBy(At(es, n), es[n]).value <= es[n].balance.fetchedAt
    ensures ArmedFor(es, k, n)
  {
    hide ArmsAt, KeepsArmed, At;
    k := n;
    if At(es, n).armedAt.Some? {
      k := ArmedSince(es, n);
    }
  }

  // A retry is made exactly on a reading of enough balance, while a start waits or a connection is held, with a retry
  // left, that was fetched no earlier than the moment the wait was armed at.
  lemma {:induction false} RetriesExactly<T>(es: seq<Event<T>>, n: nat)
    requires n < |es|
    ensures !RetryAt(es, n).NoRetry? <==>
              && ReadsEnough(es[n]) && (At(es, n).refused.Some? || Held(es[n]))
              && (RetriesSince(es, n) < MAX_RETRIES || StaysUp(es, n))
              && exists k :: ArmedFor(es, k, n)
    ensures RetryAt(es, n).Start? <==> !RetryAt(es, n).NoRetry? && At(es, n).refused.Some?
  {
    hide Step, ArmsAt, KeepsArmed, At, ArmedFor, ArmedBeforeOrBy, StayedUp, StaysUp, RetriesSince;
    RetriesKnown(es, n);
    StayedUpExactly(es, n);
    var armed := ArmedBeforeOrBy(At(es, n), es[n]);
    RetryStep(At(es, n), es[n]);
    if !es[n].Observe? {
    } else if armed.Some? && armed.value <= es[n].balance.fetchedAt {
      var k := WaitArmedFor(es, n);
    } else if k: nat :| ArmedFor(es, k, n) {
      ArmedForTheWait(es, k, n);
    }
  }

  // Between two retries the wait is armed again: by a new ask, a new hold, or a low reading.
  lemma {:induction false} ArmedBetweenRetries<T>(es: seq<Event<T>>, i: nat, n: nat) returns (k: nat)
    requires i < n < |es| && !RetryAt(es, i).NoRetry? && !RetryAt(es, n).NoRetry?
    ensures es[n].Observe? && ArmedFor(es, k, n) && i < k <= n
    ensures es[k].StartRefused? || NewlyHeld(At(es, k), es[k]) || ReadsLow(At(es, k), es[k])
  {
    RetriesExactly(es, n);
    k :| ArmedFor(es, k, n);
  }

  // ---- rebuilds ----

  lemma NotWaitingStep<T>(s: Recovery<T>, e: Event<T>)
    requires Step(s, e).1.Rebuild? || (s.refused.None? && !e.StartRefused?)
    ensures Step(s, e).0.refused.None?
  {
  }

  lemma {:induction false} NothingWaitsAfterRebuild<T>(es: seq<Event<T>>, i: nat, n: nat)
    requires i < n <= |es| && RetryAt(es, i).Rebuild? && forall j | i < j < n :: !es[j].StartRefused?
    ensures At(es, n).refused.None?
    decreases n
  {
    hide Step;
    if i < n - 1 {
      NothingWaitsAfterRebuild(es, i, n - 1);
    }
    NotWaitingStep(At(es, n - 1), es[n - 1]);
  }

  // A connection held anew at k and held ever since, until a reading of enough balance fetched after that.
  ghost predicate HeldAnew<T>(es: seq<Event<T>>, k: nat, n: nat)
    requires n < |es|
  {
    && k <= n && NewlyHeld(At(es, k), es[k]) && (forall j | k <= j <= n :: Held(es[j]))
    && ReadsEnough(es[n]) && es[k].now <= es[n].balance.fetchedAt
  }

  // Nothing between two moments retries, refuses a start or reads low.
  ghost predicate Quiet<T>(es: seq<Event<T>>, i: nat, n: nat)
    requires n < |es|
  {
    forall j | i < j < n :: RetryAt(es, j).NoRetry? && !es[j].StartRefused? && !ReadsLow(At(es, j), es[j])
  }

  lemma HeldAnewArms<T>(es: seq<Event<T>>, i: nat, k: nat, n: nat)
    requires i < n < |es| && RetryAt(es, i).Rebuild? && Quiet(es, i, n) && i < k && HeldAnew(es, k, n)
    ensures ArmedFor(es, k, n)
  {
    NothingWaitsAfterRebuild(es, i, k);
  }

  lemma ArmedHoldsAnew<T>(es: seq<Event<T>>, i: nat, k: nat, n: nat)
    requires i < n < |es| && RetryAt(es, i).Rebuild? && Quiet(es, i, n)
    requires ReadsEnough(es[n]) && Held(es[n]) && ArmedFor(es, k, n)
    ensures i < k && HeldAnew(es, k, n)
  {
    hide At;
    forall j | i < j <= n ensures At(es, j).refused.None? {
      NothingWaitsAfterRebuild(es, i, j);
    }
    assert !KeepsArmed(At(es, i), es[i]);
    assert forall j | k <= j < n :: KeepsArmed(At(es, j), es[j]) && Held(es[j]);
  }

  // With no low reading, no new ask and no other retry since a rebuild, a held connection is rebuilt again exactly when
  // it was let go and held anew, has been held since, and the reading of enough balance was fetched after that, with a
  // retry left. So this is when two rebuilds have no low reading between them.
  lemma {:induction false} RebuildsAgainExactly<T>(es: seq<Event<T>>, i: nat, n: nat)
    requires i < n < |es| && RetryAt(es, i).Rebuild? && Quiet(es, i, n)
    ensures RetryAt(es, n).Rebuild? <==> RetriesSince(es, n) < MAX_RETRIES && exists k :: i < k && HeldAnew(es, k, n)
    ensures !RetryAt(es, n).Start?
  {
    hide Step, At, ArmsAt, KeepsArmed;
    RetriesExactly(es, n);
    NothingWaitsAfterRebuild(es, i, n);
    if k :| i < k && HeldAnew(es, k, n) {
      HeldAnewArms(es, i, k, n);
    } else if RetryAt(es, n).Rebuild? {
      var k :| ArmedFor(es, k, n);
      ArmedHoldsAnew(es, i, k, n);
    }
  }

  // Every reading was fetched by the time it is observed.
  ghost predicate FetchedBefore<T>(es: seq<Event<T>>) {
    forall e | e in es && e.Observe? :: e.balance.fetchedAt <= e.now
  }

  // Held, let go and held again, each time with a fresh reading of enough balance.
  function LetGoBetween(): seq<Event<int>> {
    [Event.Observe(true, true, Balance(true, THRESHOLD_BYTES, 1), 1),
     Event.Observe(false, true, Balance(true, THRESHOLD_BYTES, 1), 2),
     Event.Observe(true, true, Balance(true, THRESHOLD_BYTES, 3), 3)]
  }

  // That run rebuilds twice with no low reading between.
  lemma RebuiltTwiceWithoutLowReading()
    ensures var es := LetGoBetween();
            && FetchedBefore(es) && RetryAt(es, 0).Rebuild? && RetryAt(es, 2).Rebuild?
            && forall k | 0 <= k < 3 :: !ReadsLow(At(es, k), es[k])
  {
    var es := LetGoBetween();
    assert At(es, 1) == Step(At(es, 0), es[0]).0;
    assert At(es, 2) == Step(At(es, 1), es[1]).0;
  }

  // ---- a refused start ----

  // The start refused at r still waits before n.
  ghost predicate WaitsSince<T>(es: seq<Event<T>>, r: nat, n: nat)
    requires n <= |es|
  {
    && r < n && es[r].StartRefused?
    && forall j | r < j < n :: !es[j].StartRefused? && !es[j].Clear? && !RetryAt(es, j).Start?
  }

  lemma WaitingStep<T>(s: Recovery<T>, e: Event<T>)
    requires Step(s, e).0.refused.Some?
    ensures Step(s, e).0.refused == if e.StartRefused? then Some(e.target) else s.refused
    ensures !Step(s, e).1.Start? && !e.Clear?
  {
  }

  lemma {:induction false} WaitingSince<T>(es: seq<Event<T>>, n: nat) returns (r: nat)
    requires n <= |es| && At(es, n).refused.Some?
    ensures WaitsSince(es, r, n) && es[r].target == At(es, n).refused.value
  {
    hide Step;
    assert n > 0 by {
      assert Idle<T>().refused.None?;
    }
    var last: nat := n - 1;
    WaitingStep(At(es, last), es[last]);
    if es[last].StartRefused? {
      r := last;
    } else {
      r := WaitingSince(es, last);
    }
  }

  // A start runs again only for the user's last ask: made since the last Clear, and not run again before.
  lemma StartIsTheLastAsk<T>(es: seq<Event<T>>, n: nat) returns (r: nat)
    requires n < |es| && RetryAt(es, n).Start?
    ensures WaitsSince(es, r, n) && es[r].target == RetryAt(es, n).target
  {
    r := WaitingSince(es, n);
  }

  lemma {:induction false} StaysArmed<T>(es: seq<Event<T>>, r: nat, n: nat)
    requires r < n <= |es| && WaitsSince(es, r, n)
    ensures At(es, n).refused == Some(es[r].target) && At(es, n).retries == 0
    ensures At(es, n).armedAt == Some(At(es, r).armedAt.GetOr(es[r].now))
    decreases n
  {
    if r < n - 1 {
      hide Step;
      assert WaitsSince(es, r, n - 1);
      StaysArmed(es, r, n - 1);
      assert !RetryAt(es, n - 1).Start?;
    }
  }

  // A start waits exactly when it was refused and nothing since has replaced it, cleared it or run it again.
  lemma {:induction false} WaitsExactly<T>(es: seq<Event<T>>, n: nat, target: T)
    requires n <= |es|
    ensures At(es, n).refused == Some(target) <==> exists r: nat :: WaitsSince(es, r, n) && es[r].target == target
  {
    hide At;
    if At(es, n).refused == Some(target) {
      var r := WaitingSince(es, n);
    } else if r: nat :| WaitsSince(es, r, n) && es[r].target == target {
      StaysArmed(es, r, n);
    }
  }

  // The reading a refused start runs again on is exactly one of enough balance fetched no earlier than the refusal, if
  // nothing was armed when the start was refused, and otherwise no earlier than that arming.
  lemma StartsExactly<T>(es: seq<Event<T>>, r: nat, n: nat)
    requires r < n < |es| && WaitsSince(es, r, n)
    ensures RetryAt(es, n) == Start(es[r].target) <==>
              ReadsEnough(es[n]) && At(es, r).armedAt.GetOr(es[r].now) <= es[n].balance.fetchedAt
  {
    hide At;
    StaysArmed(es, r, n);
  }

  // A start refused at 10 while a connection has been held since 1, and a reading fetched at 5.
  function RefusedWhileHeld(): seq<Event<int>> {
    [Event.Observe(true, true, Balance(true, 0, 0), 1), Event.StartRefused(7, 10),
     Event.Observe(true, true, Balance(true, THRESHOLD_BYTES, 5), 11)]
  }

  // That start runs again on that reading, fetched before it was refused.
  lemma StartOnAnOlderReading()
    ensures var es := RefusedWhileHeld();
            FetchedBefore(es) && RetryAt(es, 2) == Start(7) && es[2].balance.fetchedAt < es[1].now
  {
    var es := RefusedWhileHeld();
    assert At(es, 1) == Step(At(es, 0), es[0]).0;
    assert At(es, 2) == Step(At(es, 1), es[1]).0;
  }
}
