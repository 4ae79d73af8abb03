// What every run of the dead-tunnel failsafe's session keeps (app/src/Service/DeadTunnelVerdict.h,
// app/tools/dead-tunnel-verdict-tests.cpp): when the balance holds it, when a dead session is stopped and why, and what
// its countdown counts to.
module DeadTunnelRuns {
  import opened DeadTunnel
  import opened Options

  // ---- while held ----

  // Out of balance, the only verdict and the only countdown are those of a silent sdk.
  lemma HeldEvaluates(s: Signals, now: int, settings: Settings)
    requires s.outOfBalance
    ensures var v := Evaluate(s, now, settings);
            var sampleAge := AgeSince(s.lastSample, s.upSince, now);
            && (v.reason == NoReason || v.reason == SdkUnresponsive)
            && (v.reason == SdkUnresponsive ==> sampleAge >= settings.unresponsive)
            && (v.armed ==> v.reason == NoReason && settings.unresponsiveArm <= sampleAge < settings.unresponsive
                            && v.millisToFailsafe == settings.unresponsive - sampleAge)
  {
  }

  // Over every run: a tick that ends with the hold up stops the session, or warns that it will, only for a silent
  // sdk.
  lemma HeldOnlyUnresponsive(settings: Settings, start: Session, es: seq<Event>, n: nat)
    requires n < |es| && At(settings, start, es, n + 1).hold.held
    ensures var v := VerdictAt(settings, start, es, n);
            var s := At(settings, start, es, n + 1);
            var sampleAge := AgeSince(StampInSession(s.lastSample, s.sessionStart), s.sessionStart, s.now);
            && (v.reason == NoReason || v.reason == SdkUnresponsive)
            && (v.armed ==> settings.unresponsiveArm <= sampleAge < settings.unresponsive
                            && v.millisToFailsafe == settings.unresponsive - sampleAge)
  {
    hide Evaluate;
    if es[n].Tick? {
      var s := At(settings, start, es, n + 1);
      HeldEvaluates(SignalsOf(s), s.now, settings);
    }
  }

  // The last balance reading a sample brought before n.
  function ReadingAt(start: Session, es: seq<Event>, n: nat): Reading
    requires n <= |es|
  {
    if n == 0 then start.reading
    else if es[n - 1].Sample? && es[n - 1].balance.Some? then es[n - 1].balance.value
    else ReadingAt(start, es, n - 1)
  }

  lemma {:induction false} ReadingKnown(settings: Settings, start: Session, es: seq<Event>, n: nat)
    requires n <= |es|
    ensures At(settings, start, es, n).reading == ReadingAt(start, es, n)
  {
    if n > 0 {
      ReadingKnown(settings, start, es, n - 1);
      StepReads(settings, At(settings, start, es, n - 1), es[n - 1]);
    }
  }

  // What a step does to what the channel wrote and to the clock.
  lemma StepReads(settings: Settings, s: Session, e: Event)
    ensures var t := Step(settings, s, e);
            match e
            case Sample(proven, generation, minSatisfied, balance) =>
              && t.now == s.now && t.lastSample == s.now && t.proven == proven && t.generation == generation
              && t.minSatisfied == minSatisfied && t.lastProven == (if proven > 0 then s.now else s.lastProven)
              && t.reading == balance.GetOr(s.reading)
            case Tick(step, _, _) =>
              && t.now == s.now + step && t.lastSample == s.lastSample && t.proven == s.proven
              && t.generation == s.generation && t.minSatisfied == s.minSatisfied && t.lastProven == s.lastProven
              && t.reading == s.reading
  {
    hide Evaluate;
  }

  // Tick i saw a refusal, and no tick after it and before n saw another, or contracts go through again.
  ghost predicate RefusedSince(start: Session, es: seq<Event>, i: nat, n: nat)
    requires n <= |es|
  {
    && i < n && es[i].Tick? && Refuses(ReadingAt(start, es, i))
    && forall j | i < j < n && es[j].Tick? ::
         var r := ReadingAt(start, es, j);
         !Refuses(r) && !Grants(r, ReadingAt(start, es, i).generation)
  }

  lemma StepHolds(settings: Settings, s: Session, e: Event)
    ensures Step(settings, s, e).hold == if e.Tick? then Observe(s.hold, s.reading).0 else s.hold
  {
    hide Evaluate, Observe;
  }

  lemma {:induction false} LastRefusal(settings: Settings, start: Session, es: seq<Event>, n: nat) returns (i: nat)
    requires n <= |es| && !start.hold.held && At(settings, start, es, n).hold.held
    ensures RefusedSince(start, es, i, n)
    ensures At(settings, start, es, n).hold.refusedGeneration == ReadingAt(start, es, i).generation
  {
    hide Step;
    var last: nat := n - 1;
    StepHolds(settings, At(settings, start, es, last), es[last]);
    ReadingKnown(settings, start, es, last);
    if es[last].Tick? && Refuses(ReadingAt(start, es, last)) {
      i := last;
    } else {
      i := LastRefusal(settings, start, es, last);
    }
  }

  lemma {:induction false} HeldSinceRefusal(settings: Settings, start: Session, es: seq<Event>, i: nat, n: nat)
    requires i < n <= |es| && RefusedSince(start, es, i, n)
    ensures At(settings, start, es, n).hold == Hold(true, ReadingAt(start, es, i).generation)
    decreases n
  {
    hide Step;
    var last: nat := n - 1;
    StepHolds(settings, At(settings, start, es, last), es[last]);
    ReadingKnown(settings, start, es, last);
    if i < last {
      assert RefusedSince(start, es, i, last);
      HeldSinceRefusal(settings, start, es, i, last);
      assert es[last].Tick? ==> !Grants(ReadingAt(start, es, last), ReadingAt(start, es, i).generation);
    }
  }

  // The hold is up exactly from a refusal until a reading that says contracts go through: read, not refused, not
  // displaced by a no-permission result, and at the refused generation or with a provider admitted past a reset.
  lemma HeldExactlySinceRefusal(settings: Settings, start: Session, es: seq<Event>, n: nat)
    requires n <= |es| && !start.hold.held
    ensures At(settings, start, es, n).hold.held <==> exists i :: RefusedSince(start, es, i, n)
  {
    if At(settings, start, es, n).hold.held {
      var i := LastRefusal(settings, start, es, n);
    }
    if i: nat :| RefusedSince(start, es, i, n) {
      HeldSinceRefusal(settings, start, es, i, n);
    }
  }

  // ---- after a release ----

  // The clock and the session's start only move forward, and no stamp is ahead of the clock.
  ghost predicate Timely(s: Session) {
    s.sessionStart <= s.now && s.lastProven <= s.now && s.lastSample <= s.now
  }

  ghost predicate Onward(s: Session, t: Session) {
    s.now <= t.now && s.sessionStart <= t.sessionStart && s.lastProven <= t.lastProven
  }

  lemma StepsOnward(settings: Settings, s: Session, e: Event)
    requires Timely(s)
    ensures Timely(Step(settings, s, e)) && Onward(s, Step(settings, s, e))
  {
    hide Evaluate;
  }

  lemma {:induction false} RunsOnward(settings: Settings, start: Session, es: seq<Event>, i: nat, j: nat)
    requires i <= j <= |es| && Timely(start)
    ensures Timely(At(settings, start, es, j)) && Onward(At(settings, start, es, i), At(settings, start, es, j))
    decreases j
  {
    if i < j {
      RunsOnward(settings, start, es, i, j - 1);
      StepsOnward(settings, At(settings, start, es, j - 1), es[j - 1]);
    } else if j > 0 {
      RunsOnward(settings, start, es, j - 1, j - 1);
      StepsOnward(settings, At(settings, start, es, j - 1), es[j - 1]);
    }
  }

  // What a traffic verdict rests on: no proven exit, and none for the rule's whole window, counted no further back
  // than the session's start.
  lemma TrafficVerdictRests(s: Session, settings: Settings)
    requires s.sessionStart > 0
    ensures var reason := Evaluate(SignalsOf(s), s.now, settings).reason;
            var (up, unproven) := (s.now - s.sessionStart, s.now - s.lastProven);
            && (reason == NoExit ==> up >= settings.deadSlow && unproven >= settings.deadSlow)
            && (reason == NoInbound ==> up >= settings.deadFast && unproven >= settings.deadFast)
            && (reason == NoExit || reason == NoInbound ==> !s.hold.held && s.proven == 0)
  {
  }

  // A tick that starts every window again: a release, or a freeze.
  predicate StartsAgain(settings: Settings, start: Session, es: seq<Event>, k: nat)
    requires k < |es|
  {
    es[k].Tick? && Rebases(settings, At(settings, start, es, k), es[k].step)
  }

  lemma RebaseStarts(settings: Settings, start: Session, es: seq<Event>, k: nat)
    requires k < |es| && StartsAgain(settings, start, es, k)
    ensures At(settings, start, es, k + 1).sessionStart == At(settings, start, es, k + 1).now
  {
    hide Evaluate;
  }

  // NoExit never fires within its full window of a release, of a freeze, or of a completed sample with a proven
  // exit; and NoInbound never within its own.
  lemma NoStopWithinWindow(settings: Settings, start: Session, es: seq<Event>, k: nat, n: nat)
    requires k < n < |es| && Timely(start) && start.sessionStart > 0
    requires StartsAgain(settings, start, es, k) || (es[k].Sample? && es[k].proven > 0)
    ensures var since := At(settings, start, es, n + 1).now - At(settings, start, es, k + 1).now;
            && (VerdictAt(settings, start, es, n).reason == NoExit ==> since >= settings.deadSlow)
            && (VerdictAt(settings, start, es, n).reason == NoInbound ==> since >= settings.deadFast)
  {
    hide Evaluate;
    RunsOnward(settings, start, es, 0, k + 1);
    RunsOnward(settings, start, es, k + 1, n + 1);
    RunsOnward(settings, start, es, 0, n + 1);
    if es[k].Tick? {
      RebaseStarts(settings, start, es, k);
    }
    TrafficVerdictRests(At(settings, start, es, n + 1), settings);
  }

  // ---- a dead session is stopped ----

  // A session whose windows have just started: at a start, or after a tick that starts them again.
  ghost predicate JustStarted(s: Session) {
    && Timely(s) && s.sessionStart == s.now > 0 && s.epoch.initialized && s.generation <= s.epoch.generation
    && s.traffic.lastInboundMillis == -1 && s.inbound <= s.traffic.lastInbound
  }

  // Nothing comes back through the tunnel at this event: no packet, no proven exit, no later generation and no new
  // start of the windows.
  predicate NothingBack(settings: Settings, s: Session, e: Event, generation: int) {
    match e
    case Sample(proven, seen, _, _) => proven == 0 && seen <= generation
    case Tick(step, _, received) => received == 0 && !Rebases(settings, s, step)
  }

  ghost predicate DeadSince(settings: Settings, start: Session, es: seq<Event>, m: nat, n: nat)
    requires m <= n <= |es|
  {
    && JustStarted(At(settings, start, es, m))
    && forall j | m <= j < n ::
         NothingBack(settings, At(settings, start, es, j), es[j], At(settings, start, es, m).epoch.generation)
  }

  // What stays of such a start while nothing comes back.
  ghost predicate Waiting(s: Session, since: int, generation: int) {
    && s.sessionStart == since && 0 < since <= s.now && s.lastProven <= since && s.lastSample <= s.now
    && s.epoch.initialized && s.epoch.generation == generation && s.generation <= generation
    && s.traffic.lastInboundMillis == -1 && s.inbound <= s.traffic.lastInbound
  }

  lemma WaitingOn(settings: Settings, s: Session, e: Event, since: int, generation: int)
    requires Waiting(s, since, generation) && NothingBack(settings, s, e, generation)
    ensures Waiting(Step(settings, s, e), since, generation)
    ensures s.lastSample <= Step(settings, s, e).lastSample
  {
    hide Evaluate;
  }

  lemma {:induction false} DeadWaits(settings: Settings, start: Session, es: seq<Event>, m: nat, n: nat)
    requires m <= n <= |es| && DeadSince(settings, start, es, m, n)
    ensures var s := At(settings, start, es, m); Waiting(At(settings, start, es, n), s.now, s.epoch.generation)
    decreases n
  {
    if m < n {
      hide Step, Waiting, NothingBack;
      DeadWaits(settings, start, es, m, n - 1);
      var s := At(settings, start, es, m);
      WaitingOn(settings, At(settings, start, es, n - 1), es[n - 1], s.now, s.epoch.generation);
    }
  }

  // A sample completed between two moments.
  ghost predicate Answered(es: seq<Event>, m: nat, n: nat)
    requires n <= |es|
  {
    exists j | m <= j < n :: es[j].Sample?
  }

  lemma SampleStamps(settings: Settings, s: Session, e: Event)
    ensures var t := Step(settings, s, e);
            if e.Sample? then t.lastSample == s.now && t.proven == e.proven
            else t.lastSample == s.lastSample && t.proven == s.proven
  {
    hide Evaluate;
  }

  lemma {:induction false} SampledSince(settings: Settings, start: Session, es: seq<Event>, m: nat, n: nat)
    requires m <= n <= |es| && DeadSince(settings, start, es, m, n)
    ensures var s, t := At(settings, start, es, m), At(settings, start, es, n);
            if Answered(es, m, n) then s.now <= t.lastSample && t.proven == 0 else t.lastSample == s.lastSample
    decreases n
  {
    hide Step, JustStarted, Rebases;
    if m < n {
      SampledSince(settings, start, es, m, n - 1);
      DeadWaits(settings, start, es, m, n - 1);
      SampleStamps(settings, At(settings, start, es, n - 1), es[n - 1]);
      assert Answered(es, m, n) <==> Answered(es, m, n - 1) || es[n - 1].Sample?;
    }
  }

  lemma WaitingIsStopped(s: Session, since: int, generation: int, settings: Settings)
    requires Waiting(s, since, generation)
    ensures var v := Evaluate(SignalsOf(s), s.now, settings);
            && (s.lastSample <= since && s.now - since >= settings.unresponsive ==> v.reason == SdkUnresponsive)
            && (since <= s.lastSample && s.proven == 0 && !s.hold.held && s.now - since >= settings.deadSlow ==>
                  v.reason != NoReason)
  {
  }

  lemma TickEvaluates(settings: Settings, start: Session, es: seq<Event>, n: nat)
    requires n < |es| && es[n].Tick? && !Rebases(settings, At(settings, start, es, n), es[n].step)
    ensures var t := At(settings, start, es, n + 1);
            VerdictAt(settings, start, es, n) == Evaluate(SignalsOf(t), t.now, settings)
  {
    hide Evaluate;
  }

  // A session that gets nothing back is stopped: by the first tick past the unresponsive window if the sdk has not
  // answered since the windows started, held or not; and in balance, once it has, by the first past the slow window.
  lemma {:induction false} DeadIsStopped(settings: Settings, start: Session, es: seq<Event>, m: nat, n: nat)
    requires m <= n < |es| && DeadSince(settings, start, es, m, n + 1) && es[n].Tick?
    ensures var s, t := At(settings, start, es, m), At(settings, start, es, n + 1);
            && (!Answered(es, m, n) && t.now - s.now >= settings.unresponsive ==>
                  VerdictAt(settings, start, es, n).reason == SdkUnresponsive)
            && (Answered(es, m, n) && !t.hold.held && t.now - s.now >= settings.deadSlow ==>
                  VerdictAt(settings, start, es, n).reason != NoReason)
  {
    hide Evaluate, At, Waiting, Rebases, VerdictAt, SignalsOf;
    var s, t := At(settings, start, es, m), At(settings, start, es, n + 1);
    DeadWaits(settings, start, es, m, n + 1);
    SampledSince(settings, start, es, m, n + 1);
    assert Answered(es, m, n + 1) <==> Answered(es, m, n);
    TickEvaluates(settings, start, es, n);
    WaitingIsStopped(t, s.now, s.epoch.generation, settings);
  }

  // ---- the session read off its run ----

  // A session as it starts.
  predicate Opening(start: Session) {
    start == Fresh(start.now, start.generation)
  }

  function Clock(start: Session, es: seq<Event>, n: nat): int
    requires n <= |es|
  {
    if n == 0 then start.now else Clock(start, es, n - 1) + if es[n - 1].Tick? then es[n - 1].step else 0
  }

  // What the last sample said of the connection.
  function Generation(start: Session, es: seq<Event>, n: nat): int
    requires n <= |es|
  {
    if n == 0 then start.generation
    else if es[n - 1].Sample? then es[n - 1].generation else Generation(start, es, n - 1)
  }

  predicate MinSatisfied(start: Session, es: seq<Event>, n: nat)
    requires n <= |es|
  {
    if n == 0 then start.minSatisfied
    else if es[n - 1].Sample? then es[n - 1].minSatisfied else MinSatisfied(start, es, n - 1)
  }

  function Proven(start: Session, es: seq<Event>, n: nat): int
    requires n <= |es|
  {
    if n == 0 then start.proven else if es[n - 1].Sample? then es[n - 1].proven else Proven(start, es, n - 1)
  }

  // When the last sample completed, and the last with a proven exit; -1 when none has.
  function LastSample(start: Session, es: seq<Event>, n: nat): int
    requires n <= |es|
  {
    if n == 0 then -1 else if es[n - 1].Sample? then Clock(start, es, n - 1) else LastSample(start, es, n - 1)
  }

  function LastProven(start: Session, es: seq<Event>, n: nat): int
    requires n <= |es|
  {
    if n == 0 then -1
    else if es[n - 1].Sample? && es[n - 1].proven > 0 then Clock(start, es, n - 1)
    else LastProven(start, es, n - 1)
  }

  lemma {:induction false} ChannelKnown(settings: Settings, start: Session, es: seq<Event>, n: nat)
    requires n <= |es| && Opening(start)
    ensures var s := At(settings, start, es, n);
            && s.now == Clock(start, es, n) && s.generation == Generation(start, es, n)
            && s.minSatisfied == MinSatisfied(start, es, n) && s.proven == Proven(start, es, n)
            && s.lastSample == LastSample(start, es, n) && s.lastProven == LastProven(start, es, n)
  {
    hide Step;
    if n > 0 {
      ChannelKnown(settings, start, es, n - 1);
      StepReads(settings, At(settings, start, es, n - 1), es[n - 1]);
    }
  }

  // The windows start again: after a freeze, or when contracts go through after a refusal.
  ghost predicate WindowsStart(settings: Settings, start: Session, es: seq<Event>, k: nat)
    requires k < |es|
  {
    es[k].Tick? &&
    (es[k].step >= settings.frozen
     || exists i: nat ::
          RefusedSince(start, es, i, k) && Grants(ReadingAt(start, es, k), ReadingAt(start, es, i).generation))
  }

  lemma ReleasedExactly(h: Hold, r: Reading)
    ensures Observe(h, r).1 == Released <==> h.held && Grants(r, h.refusedGeneration)
  {
  }

  lemma WindowsStartExactly(settings: Settings, start: Session, es: seq<Event>, k: nat)
    requires k < |es| && !start.hold.held && es[k].Tick?
    ensures Rebases(settings, At(settings, start, es, k), es[k].step) <==> WindowsStart(settings, start, es, k)
  {
    hide At, Observe, RefusedSince, Grants;
    var s := At(settings, start, es, k);
    ReadingKnown(settings, start, es, k);
    ReleasedExactly(s.hold, s.reading);
    HeldExactlySinceRefusal(settings, start, es, k);
    forall i: nat | RefusedSince(start, es, i, k)
      ensures i < k && s.hold == Hold(true, ReadingAt(start, es, i).generation)
    {
      RefusedBefore(start, es, i, k);
      HeldSinceRefusal(settings, start, es, i, k);
    }
  }

  lemma RefusedBefore(start: Session, es: seq<Event>, i: nat, n: nat)
    requires n <= |es| && RefusedSince(start, es, i, n)
    ensures i < n
  {
  }

  // The highest generation the ticks have seen.
  function Highest(start: Session, es: seq<Event>, n: nat): int
    requires n <= |es|
  {
    if n == 0 then start.generation
    else
      var before, now := Highest(start, es, n - 1), Generation(start, es, n - 1);
      if es[n - 1].Tick? && now > before then now else before
  }

  // A tick that sees a new generation.
  predicate NewGeneration(start: Session, es: seq<Event>, k: nat)
    requires k < |es|
  {
    es[k].Tick? && Generation(start, es, k) > Highest(start, es, k)
  }

  // A tick that sees the latest generation's window satisfied.
  predicate Satisfied(start: Session, es: seq<Event>, k: nat)
    requires k < |es|
  {
    es[k].Tick? && Generation(start, es, k) == Highest(start, es, k) && MinSatisfied(start, es, k)
  }

  // The latest generation's window has not formed: no tick has seen it satisfied.
  predicate Forming(start: Session, es: seq<Event>, n: nat)
    requires n <= |es|
  {
    n == 0 || if NewGeneration(start, es, n - 1) then !MinSatisfied(start, es, n - 1)
              else Forming(start, es, n - 1) && !Satisfied(start, es, n - 1)
  }

  // A tick at which the verdict's windows start again, and one at which the traffic's do.
  ghost predicate SessionStarts(settings: Settings, start: Session, es: seq<Event>, k: nat)
    requires k < |es|
  {
    WindowsStart(settings, start, es, k) || NewGeneration(start, es, k)
  }

  ghost predicate TrafficStarts(settings: Settings, start: Session, es: seq<Event>, k: nat)
    requires k < |es|
  {
    SessionStarts(settings, start, es, k) || (Satisfied(start, es, k) && Forming(start, es, k))
  }

  ghost function SessionStart(settings: Settings, start: Session, es: seq<Event>, n: nat): int
    requires n <= |es|
  {
    if n == 0 then start.now
    else if SessionStarts(settings, start, es, n - 1) then Clock(start, es, n)
    else SessionStart(settings, start, es, n - 1)
  }

  ghost function TrafficStart(settings: Settings, start: Session, es: seq<Event>, n: nat): int
    requires n <= |es|
  {
    if n == 0 then start.now
    else if TrafficStarts(settings, start, es, n - 1) then Clock(start, es, n)
    else TrafficStart(settings, start, es, n - 1)
  }

  // When a packet last came back since the traffic's windows started; -1 when none has.
  ghost function LastInbound(settings: Settings, start: Session, es: seq<Event>, n: nat): int
    requires n <= |es|
  {
    if n == 0 || TrafficStarts(settings, start, es, n - 1) then -1
    else if es[n - 1].Tick? && es[n - 1].received > 0 then Clock(start, es, n)
    else LastInbound(settings, start, es, n - 1)
  }

  // What has been sent since then, or since the windows started.
  ghost function SentSince(settings: Settings, start: Session, es: seq<Event>, n: nat): nat
    requires n <= |es|
  {
    if n == 0 || TrafficStarts(settings, start, es, n - 1) then 0
    else if es[n - 1].Sample? then SentSince(settings, start, es, n - 1)
    else if es[n - 1].received > 0 then 0
    else SentSince(settings, start, es, n - 1) + es[n - 1].sent
  }

  lemma StepSeesEpoch(settings: Settings, s: Session, e: Event)
    requires s.epoch.initialized
    ensures var t, g := Step(settings, s, e), s.epoch.generation;
            if e.Sample? || s.generation < g then t.epoch == s.epoch
            else if s.generation > g then t.epoch == Epoch(true, !s.minSatisfied, s.generation)
            else t.epoch == Epoch(true, s.epoch.forming && !s.minSatisfied, g)
  {
    hide Evaluate;
  }

  lemma {:induction false} EpochKnown(settings: Settings, start: Session, es: seq<Event>, n: nat)
    requires n <= |es| && Opening(start)
    ensures At(settings, start, es, n).epoch == Epoch(true, Forming(start, es, n), Highest(start, es, n))
  {
    hide Step;
    if n > 0 {
      EpochKnown(settings, start, es, n - 1);
      ChannelKnown(settings, start, es, n - 1);
      StepSeesEpoch(settings, At(settings, start, es, n - 1), es[n - 1]);
    }
  }

  // What one event does to the windows, told whether it starts them.
  lemma StepStarts(settings: Settings, s: Session, e: Event, restarts: bool, advances: bool, forms: bool)
    requires s.epoch.initialized && (restarts <==> e.Tick? && Rebases(settings, s, e.step))
    requires advances <==> e.Tick? && s.generation > s.epoch.generation
    requires forms <==> e.Tick? && s.generation == s.epoch.generation && s.minSatisfied && s.epoch.forming
    ensures var t := Step(settings, s, e);
            && t.sessionStart == (if restarts || advances then t.now else s.sessionStart)
            && t.trafficStart == (if restarts || advances || forms then t.now else s.trafficStart)
            && t.inbound == (if e.Tick? then s.inbound + e.received else s.inbound)
            && t.outbound == (if e.Tick? then s.outbound + e.sent else s.outbound)
            && t.traffic == (if restarts || advances || forms then Traffic(t.outbound, t.inbound, t.outbound, -1)
                             else if e.Tick? then s.traffic.Observe(t.outbound, t.inbound, t.now) else s.traffic)
  {
    hide Evaluate;
  }

  ghost predicate TrafficIs(s: Session, lastInbound: int, sent: nat) {
    && s.traffic.lastInboundMillis == lastInbound && s.traffic.lastInbound == s.inbound
    && s.traffic.lastOutbound == s.outbound && s.outbound == s.traffic.outboundAtLastInbound + sent
  }

  lemma {:induction false} WindowsKnown(settings: Settings, start: Session, es: seq<Event>, n: nat)
    requires n <= |es| && Opening(start)
    ensures var s := At(settings, start, es, n);
            && s.sessionStart == SessionStart(settings, start, es, n)
            && s.trafficStart == TrafficStart(settings, start, es, n)
            && TrafficIs(s, LastInbound(settings, start, es, n), SentSince(settings, start, es, n))
  {
    hide Step, Rebases, WindowsStart, Generation, Highest, MinSatisfied, Forming;
    if n > 0 {
      var k: nat := n - 1;
      var s := At(settings, start, es, k);
      WindowsKnown(settings, start, es, k);
      ChannelKnown(settings, start, es, k);
      ChannelKnown(settings, start, es, n);
      EpochKnown(settings, start, es, k);
      if es[k].Tick? {
        WindowsStartExactly(settings, start, es, k);
      } else {
        OnlyTicksStart(settings, start, es, k);
      }
      StepStarts(settings, s, es[k], WindowsStart(settings, start, es, k), NewGeneration(start, es, k),
                 Satisfied(start, es, k) && Forming(start, es, k));
    }
  }

  lemma OnlyTicksStart(settings: Settings, start: Session, es: seq<Event>, k: nat)
    requires k < |es| && !es[k].Tick?
    ensures !WindowsStart(settings, start, es, k) && !TrafficStarts(settings, start, es, k)
  {
  }

  // The signals a verdict is given on, read off the run: no stamp of a sample from before the session counts.
  ghost function SignalsAt(settings: Settings, start: Session, es: seq<Event>, n: nat): Signals
    requires n <= |es|
  {
    var since := SessionStart(settings, start, es, n);
    Signals(true, true, since, TrafficStart(settings, start, es, n), !Forming(start, es, n), Proven(start, es, n),
            if LastProven(start, es, n) >= since then LastProven(start, es, n) else -1,
            if LastSample(start, es, n) >= since then LastSample(start, es, n) else -1,
            LastInbound(settings, start, es, n), SentSince(settings, start, es, n),
            exists i: nat :: RefusedSince(start, es, i, n))
  }

  lemma SignalsKnown(settings: Settings, start: Session, es: seq<Event>, n: nat)
    requires n <= |es| && Opening(start)
    ensures SignalsOf(At(settings, start, es, n)) == SignalsAt(settings, start, es, n)
    ensures At(settings, start, es, n).now == Clock(start, es, n)
  {
    hide At, Forming, Proven, LastProven, LastSample, LastInbound, SentSince, SessionStart, TrafficStart, RefusedSince;
    ChannelKnown(settings, start, es, n);
    EpochKnown(settings, start, es, n);
    WindowsKnown(settings, start, es, n);
    HeldExactlySinceRefusal(settings, start, es, n);
  }

  lemma {:induction false} SessionStartsLate(settings: Settings, start: Session, es: seq<Event>, n: nat)
    requires n <= |es| && start.now > 0
    ensures 0 < SessionStart(settings, start, es, n) <= Clock(start, es, n)
  {
    hide SessionStarts;
    if n > 0 {
      SessionStartsLate(settings, start, es, n - 1);
    }
  }

  // In every run a tick gives each reason exactly on what the run holds: none when it starts the windows again or a
  // packet came back within the fast window, then the sdk's silence, then traffic with nothing back, then no exit.
  lemma {:induction false} StopsExactly(settings: Settings, start: Session, es: seq<Event>, n: nat)
    requires n < |es| && es[n].Tick? && Opening(start) && start.now > 0
    ensures var (s, now) := (SignalsAt(settings, start, es, n + 1), Clock(start, es, n + 1));
            VerdictAt(settings, start, es, n).reason ==
            if WindowsStart(settings, start, es, n) || Vetoed(s, now, settings) then NoReason
            else if Silent(s, now, settings) then SdkUnresponsive
            else if FastDead(s, now, settings) then NoInbound
            else if SlowDead(s, now, settings) then NoExit
            else NoReason
  {
    hide At, Evaluate, WindowsStart, Rebases, Vetoed, Silent, FastDead, SlowDead, Clock, SignalsOf;
    VerdictGiven(settings, start, es, n);
    SessionStartsLate(settings, start, es, n + 1);
    ReasonExactly(SignalsAt(settings, start, es, n + 1), Clock(start, es, n + 1), settings);
  }

  lemma VerdictGiven(settings: Settings, start: Session, es: seq<Event>, n: nat)
    requires n < |es| && es[n].Tick? && Opening(start)
    ensures VerdictAt(settings, start, es, n) ==
            if WindowsStart(settings, start, es, n) then NO_VERDICT
            else Evaluate(SignalsAt(settings, start, es, n + 1), Clock(start, es, n + 1), settings)
  {
    hide At, Evaluate, WindowsStart, Rebases, SignalsAt, SignalsOf;
    WindowsStartExactly(settings, start, es, n);
    SignalsKnown(settings, start, es, n + 1);
    if !WindowsStart(settings, start, es, n) {
      TickEvaluates(settings, start, es, n);
    }
  }

  // ---- the countdown ----

  // A tick settles the trackers: another one on the same readings finds nothing new.
  lemma TickSettles(settings: Settings, s: Session, e: Event)
    requires e.Tick? && s.epoch.initialized && !Rebases(settings, s, e.step)
    ensures var t := Step(settings, s, e);
            Observe(t.hold, t.reading) == (t.hold, NoStep)
            && t.epoch.Observe(t.generation, t.minSatisfied) == (t.epoch, false, false)
  {
    hide Evaluate;
  }

  lemma QuietTick(settings: Settings, t: Session, after: nat)
    requires Observe(t.hold, t.reading) == (t.hold, NoStep) && after < settings.frozen
    requires t.epoch.Observe(t.generation, t.minSatisfied) == (t.epoch, false, false)
    requires t.traffic.lastInbound == t.inbound && t.traffic.lastOutbound == t.outbound
    ensures Ticked(settings, t, after, 0, 0).1 == Evaluate(SignalsOf(t), t.now + after, settings)
  {
    hide Evaluate;
    var u := Advanced(t, after, 0, 0).0;
    assert u.hold == t.hold && Tracked(u).traffic == t.traffic && Tracked(u).epoch == t.epoch;
    assert SignalsOf(Tracked(u)) == SignalsOf(t);
  }

  // What a tick would answer that comes `after` the last one, with nothing sent or come back and no new sample.
  lemma NextQuietTick(settings: Settings, start: Session, es: seq<Event>, n: nat, after: nat)
    requires n < |es| && es[n].Tick? && Opening(start) && !WindowsStart(settings, start, es, n)
    requires after < settings.frozen
    ensures Ticked(settings, At(settings, start, es, n + 1), after, 0, 0).1
         == Evaluate(SignalsAt(settings, start, es, n + 1), Clock(start, es, n + 1) + after, settings)
  {
    hide Evaluate, Step, Ticked, WindowsStart, Rebases, SignalsAt, SignalsOf, Observe, Clock;
    WindowsStartExactly(settings, start, es, n);
    EpochKnown(settings, start, es, n);
    TickSettles(settings, At(settings, start, es, n), es[n]);
    WindowsKnown(settings, start, es, n + 1);
    SignalsKnown(settings, start, es, n + 1);
    QuietTick(settings, At(settings, start, es, n + 1), after);
  }

  // The countdown a tick shows is the least time after which another one would stop the session with nothing come back
  // and no sample since; an sdk that answers when it is shown may fall silent before that. Without a countdown none
  // within the notice would, but for that silence.
  lemma {:induction false} CountdownIsLeastTime(settings: Settings, start: Session, es: seq<Event>, n: nat, after: nat)
    requires n < |es| && es[n].Tick? && Opening(start) && start.now > 0 && !WindowsStart(settings, start, es, n)
    requires after < settings.frozen
    ensures var (s, now) := (SignalsAt(settings, start, es, n + 1), Clock(start, es, n + 1));
            var v := VerdictAt(settings, start, es, n);
            var stops := Ticked(settings, At(settings, start, es, n + 1), after, 0, 0).1.reason != NoReason;
            && (v.armed ==> (stops <==> v.millisToFailsafe <= after || Silent(s, now + after, settings)))
            && (v.armed && Overdue(s, now, settings) ==> (stops <==> v.millisToFailsafe <= after))
            && (!v.armed && v.reason == NoReason && !Vetoed(s, now, settings) && after <= settings.notice && stops ==>
                  Silent(s, now + after, settings) && !Overdue(s, now, settings))
  {
    hide At, Evaluate, WindowsStart, Ticked, Clock, SignalsAt, FastDead, SlowDead, Silent, Overdue;
    var s, now := SignalsAt(settings, start, es, n + 1), Clock(start, es, n + 1);
    VerdictGiven(settings, start, es, n);
    NextQuietTick(settings, start, es, n, after);
    SessionSignals(settings, start, es, n + 1);
    CountdownExactly(s, now, settings, after);
    ReasonExactly(s, now + after, settings);
  }

  lemma SessionSignals(settings: Settings, start: Session, es: seq<Event>, n: nat)
    requires n <= |es| && start.now > 0
    ensures var s := SignalsAt(settings, start, es, n); s.tunnelUp && s.routesInstalled && s.upSince > 0
  {
    SessionStartsLate(settings, start, es, n);
  }

  // The sdk is never blamed within its window of a completed sample, or of a start of the windows.
  lemma {:induction false} NotSilentWithinWindow(settings: Settings, start: Session, es: seq<Event>, k: nat, n: nat)
    requires k < n < |es| && Opening(start) && start.now > 0
    requires es[k].Sample? || SessionStarts(settings, start, es, k)
    requires VerdictAt(settings, start, es, n).reason == SdkUnresponsive
    ensures Clock(start, es, n + 1) - Clock(start, es, k + 1) >= settings.unresponsive
  {
    hide At, WindowsStart, Vetoed, FastDead, SlowDead, SessionStarts, Proven, LastProven, LastInbound, SentSince;
    hide Forming;
    StopsExactly(settings, start, es, n);
    SessionStartsLate(settings, start, es, n + 1);
    StampsSince(settings, start, es, k, n + 1);
  }

  lemma {:induction false} StampsSince(settings: Settings, start: Session, es: seq<Event>, k: nat, n: nat)
    requires k < n <= |es| && start.now > 0
    ensures es[k].Sample? ==> LastSample(start, es, n) >= Clock(start, es, k + 1)
    ensures SessionStarts(settings, start, es, k) ==> SessionStart(settings, start, es, n) >= Clock(start, es, k + 1)
    decreases n
  {
    hide SessionStarts;
    if k < n - 1 {
      StampsSince(settings, start, es, k, n - 1);
      ClockGrows(start, es, k + 1, n - 1);
    }
  }

  lemma {:induction false} ClockGrows(start: Session, es: seq<Event>, i: nat, n: nat)
    requires i <= n <= |es|
    ensures Clock(start, es, i) <= Clock(start, es, n)
    decreases n
  {
    if i < n {
      ClockGrows(start, es, i, n - 1);
    }
  }
}
