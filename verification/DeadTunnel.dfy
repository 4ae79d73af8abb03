// The dead-tunnel failsafe's decision, its balance hold and its trackers (app/src/Service/DeadTunnelVerdict.h), and
// the session that ticks them (app/tools/dead-tunnel-verdict-tests.cpp). A run is any order of completed samples
// and evaluator ticks.
module DeadTunnel {
  import opened Options

  datatype Settings = Settings(
    deadFast: int, deadFastPackets: nat, deadSlow: int, unresponsive: int, unresponsiveArm: int, notice: int,
    frozen: int)

  // ---- the balance hold ----

  datatype Reading = Reading(sampled: bool, insufficient: bool, noPermission: bool, generation: int, added: int)

  const UNREAD: Reading := Reading(false, false, false, 0, 0)

  datatype BalanceStep = NoStep | Entered | Released

  datatype Hold = Hold(held: bool, refusedGeneration: int)

  // A refusal.
  predicate Refuses(r: Reading) {
    r.sampled && r.insufficient
  }

  // Contracts go through again, past a refusal on `refused`.
  predicate Grants(r: Reading, refused: int) {
    r.sampled && !r.insufficient && !r.noPermission && (r.generation <= refused || r.added > 0)
  }

  function Observe(h: Hold, r: Reading): (Hold, BalanceStep) {
    if !r.sampled then (h, NoStep)
    else if r.insufficient then (Hold(true, r.generation), if h.held then NoStep else Entered)
    else if !h.held || r.noPermission then (h, NoStep)
    else if !(r.generation <= h.refusedGeneration || r.added > 0) then (h, NoStep)
    else (h.(held := false), Released)
  }

  // ---- the verdict ----

  datatype Reason = NoReason | NoExit | NoInbound | SdkUnresponsive

  // A timestamp of -1 means never in this session.
  datatype Signals = Signals(
    tunnelUp: bool, routesInstalled: bool, upSince: int, trafficStart: int, providerWindowReady: bool, proven: int,
    lastProven: int, lastSample: int, lastInbound: int, outboundSinceInbound: nat, outOfBalance: bool)

  datatype Verdict = Verdict(reason: Reason, armed: bool, millisToFailsafe: int)

  const NO_VERDICT: Verdict := Verdict(NoReason, false, 0)

  function AgeSince(stamp: int, upSince: int, now: int): int {
    now - if stamp < 0 then upSince else stamp
  }

  // The earlier of the running countdowns; -1 is none.
  function Consider(soonest: int, applies: bool, remaining: int): int {
    var left := if remaining < 0 then 0 else remaining;
    if applies && (soonest < 0 || left < soonest) then left else soonest
  }

  function Evaluate(s: Signals, now: int, settings: Settings): Verdict {
    if !s.tunnelUp || !s.routesInstalled || s.upSince <= 0 then NO_VERDICT
    else
      var sampleAge := AgeSince(s.lastSample, s.upSince, now);
      var provenAge := AgeSince(s.lastProven, s.upSince, now);
      var inboundAge := AgeSince(s.lastInbound, if s.trafficStart > 0 then s.trafficStart else s.upSince, now);
      if s.lastInbound >= 0 && inboundAge < settings.deadFast then NO_VERDICT
      else if sampleAge >= settings.unresponsive then Verdict(SdkUnresponsive, false, 0)
      else
        var fast :=
          && !s.outOfBalance && s.providerWindowReady && s.proven == 0
          && s.outboundSinceInbound >= settings.deadFastPackets;
        var slow := !s.outOfBalance && s.proven == 0 && s.lastSample >= 0;
        if fast && inboundAge >= settings.deadFast && provenAge >= settings.deadFast then Verdict(NoInbound, false, 0)
        else if slow && provenAge >= settings.deadSlow then Verdict(NoExit, false, 0)
        else
          var first := Consider(-1, sampleAge >= settings.unresponsiveArm, settings.unresponsive - sampleAge);
          var elapsed := if inboundAge < provenAge then inboundAge else provenAge;
          var second := Consider(first, fast, settings.deadFast - elapsed);
          var soonest := Consider(second, slow, settings.deadSlow - provenAge);
          if 0 <= soonest <= settings.notice then Verdict(NoReason, true, soonest) else NO_VERDICT
  }

  // ---- the trackers ----

  datatype Traffic = Traffic(lastOutbound: nat, lastInbound: nat, outboundAtLastInbound: nat, lastInboundMillis: int) {
    function Observe(outbound: nat, inbound: nat, now: int): Traffic {
      var t := if inbound > lastInbound
               then this.(lastInbound := inbound, lastInboundMillis := now, outboundAtLastInbound := outbound)
               else this;
      if outbound > lastOutbound then t.(lastOutbound := outbound) else t
    }

    function OutboundSinceInbound(): nat {
      if lastOutbound > outboundAtLastInbound then lastOutbound - outboundAtLastInbound else 0
    }
  }

  datatype Epoch = Epoch(initialized: bool, forming: bool, generation: int) {
    // The new tracker, and whether the verdict's clock and the traffic's begin again.
    function Observe(seen: int, minSatisfied: bool): (Epoch, bool, bool) {
      if !initialized then (Epoch(true, !minSatisfied, seen), false, false)
      else if seen < generation then (this, false, false)
      else if seen > generation then (Epoch(true, !minSatisfied, seen), true, true)
      else if forming && minSatisfied then (this.(forming := false), false, true)
      else (this, false, false)
    }
  }

  // ---- the session ----

  datatype Session = Session(
    now: int, sessionStart: int, trafficStart: int,
    // the channel
    proven: int, lastProven: int, lastSample: int, reading: Reading, generation: int, minSatisfied: bool,
    // the pump
    outbound: nat, inbound: nat,
    // the evaluator
    traffic: Traffic, epoch: Epoch, hold: Hold)

  datatype Event =
    | Sample(proven: int, generation: int, minSatisfied: bool, balance: Option<Reading>)
    | Tick(step: nat, sent: nat, received: nat)

  function Fresh(now: int, generation: int): Session {
    Session(now, now, now, 0, -1, -1, UNREAD, generation, false, 0, 0, Traffic(0, 0, 0, -1),
            Epoch(true, true, generation), Hold(false, 0))
  }

  function Sampled(s: Session, proven: int, generation: int, minSatisfied: bool, balance: Option<Reading>): Session {
    s.(proven := proven, lastProven := if proven > 0 then s.now else s.lastProven, lastSample := s.now,
       generation := generation, minSatisfied := minSatisfied, reading := balance.GetOr(s.reading))
  }

  function StampInSession(stamp: int, start: int): int {
    if stamp >= start then stamp else -1
  }

  // A freeze or a release: every window starts again.
  function Rebased(s: Session): Session {
    s.(sessionStart := s.now, trafficStart := s.now, traffic := Traffic(s.outbound, s.inbound, s.outbound, -1),
       epoch := s.epoch.Observe(s.generation, s.minSatisfied).0)
  }

  // Any other tick, before the verdict.
  function Tracked(s: Session): Session {
    var (epoch, verdictReset, trafficReset) := s.epoch.Observe(s.generation, s.minSatisfied);
    var traffic := if trafficReset then Traffic(s.outbound, s.inbound, s.outbound, -1) else s.traffic;
    s.(epoch := epoch, sessionStart := if verdictReset then s.now else s.sessionStart,
       trafficStart := if trafficReset then s.now else s.trafficStart,
       traffic := traffic.Observe(s.outbound, s.inbound, s.now))
  }

  function SignalsOf(s: Session): Signals {
    Signals(true, true, s.sessionStart, s.trafficStart, s.epoch.initialized && !s.epoch.forming, s.proven,
            StampInSession(s.lastProven, s.sessionStart), StampInSession(s.lastSample, s.sessionStart),
            s.traffic.lastInboundMillis, s.traffic.OutboundSinceInbound(), s.hold.held)
  }

  // The tick's start: the clock, the counters and the hold.
  function Advanced(s: Session, step: nat, sent: nat, received: nat): (Session, BalanceStep) {
    var (hold, balanceStep) := Observe(s.hold, s.reading);
    (s.(now := s.now + step, outbound := s.outbound + sent, inbound := s.inbound + received, hold := hold), balanceStep)
  }

  predicate Rebases(settings: Settings, s: Session, step: nat) {
    step >= settings.frozen || Observe(s.hold, s.reading).1 == Released
  }

  function Ticked(settings: Settings, s: Session, step: nat, sent: nat, received: nat): (Session, Verdict) {
    var t := Advanced(s, step, sent, received).0;
    if Rebases(settings, s, step) then (Rebased(t), NO_VERDICT)
    else (Tracked(t), Evaluate(SignalsOf(Tracked(t)), t.now, settings))
  }

  function Step(settings: Settings, s: Session, e: Event): Session {
    match e
    case Sample(proven, generation, minSatisfied, balance) => Sampled(s, proven, generation, minSatisfied, balance)
    case Tick(step, sent, received) => Ticked(settings, s, step, sent, received).0
  }

  function At(settings: Settings, start: Session, es: seq<Event>, n: nat): Session
    requires n <= |es|
  {
    if n == 0 then start else Step(settings, At(settings, start, es, n - 1), es[n - 1])
  }

  // The verdict of a tick; a sample has none.
  function VerdictAt(settings: Settings, start: Session, es: seq<Event>, n: nat): Verdict
    requires n < |es|
  {
    match es[n]
    case Sample(_, _, _, _) => NO_VERDICT
    case Tick(step, sent, received) => Ticked(settings, At(settings, start, es, n), step, sent, received).1
  }

  class WatchedSession {
    const settings: Settings
    var now: int
    var sessionStart: int
    var trafficStart: int
    var proven: int
    var lastProven: int
    var lastSample: int
    var reading: Reading
    var generation: int
    var minSatisfied: bool
    var outbound: nat
    var inbound: nat
    var traffic: Traffic
    var epoch: Epoch
    var hold: Hold

    function Model(): Session
      reads this
    {
      Session(now, sessionStart, trafficStart, proven, lastProven, lastSample, reading, generation, minSatisfied,
              outbound, inbound, traffic, epoch, hold)
    }

    constructor (settings: Settings, now: int, generation: int)
      ensures Model() == Fresh(now, generation) && this.settings == settings
    {
      this.settings := settings;
      this.now, sessionStart, trafficStart := now, now, now;
      proven, lastProven, lastSample, reading := 0, -1, -1, UNREAD;
      this.generation, minSatisfied, outbound, inbound := generation, false, 0, 0;
      traffic, epoch, hold := Traffic(0, 0, 0, -1), Epoch(true, true, generation), Hold(false, 0);
    }

    method Sample(proven: int, generation: int, minSatisfied: bool, balance: Option<Reading>)
      modifies this
      ensures Model() == Sampled(old(Model()), proven, generation, minSatisfied, balance)
    {
      this.proven := proven;
      if proven > 0 {
        lastProven := now;
      }
      lastSample := now;
      this.generation, this.minSatisfied := generation, minSatisfied;
      if balance.Some? {
        reading := balance.value;
      }
    }

    method Rebase()
      modifies this
      ensures Model() == Rebased(old(Model()))
    {
      sessionStart, trafficStart := now, now;
      traffic := Traffic(outbound, inbound, outbound, -1);
      epoch := epoch.Observe(generation, minSatisfied).0;
    }

    // The trackers on a tick that does not rebase.
    method Track()
      modifies this
      ensures Model() == Tracked(old(Model()))
    {
      var (seen, verdictReset, trafficReset) := epoch.Observe(generation, minSatisfied);
      epoch := seen;
      if verdictReset {
        sessionStart := now;
      }
      if trafficReset {
        trafficStart := now;
        traffic := Traffic(outbound, inbound, outbound, -1);
      }
      traffic := traffic.Observe(outbound, inbound, now);
    }

    method Step(step: nat, sent: nat, received: nat) returns (verdict: Verdict)
      modifies this
      ensures (Model(), verdict) == Ticked(settings, old(Model()), step, sent, received)
    {
      hide Evaluate, SignalsOf, Rebased;
      now, outbound, inbound := now + step, outbound + sent, inbound + received;
      var (held, balanceStep) := Observe(hold, reading);
      hold := held;
      if step >= settings.frozen || balanceStep == Released {
        Rebase();
        return NO_VERDICT;
      }
      Track();
      return Evaluate(SignalsOf(Model()), now, settings);
    }
  }

  // ---- the verdict ----

  // A packet came back within the fast window.
  predicate Vetoed(s: Signals, now: int, settings: Settings) {
    s.lastInbound >= 0 && now - s.lastInbound < settings.deadFast
  }

  // The sdk has not answered for its window, counted from the session's start until it first does.
  predicate Silent(s: Signals, now: int, settings: Settings) {
    now - (if s.lastSample >= 0 then s.lastSample else s.upSince) >= settings.unresponsive
  }

  // No proven exit for a window, counted from the session's start until there is one.
  predicate UnprovenFor(s: Signals, now: int, window: int) {
    s.proven == 0 && now - (if s.lastProven >= 0 then s.lastProven else s.upSince) >= window
  }

  // Out of a formed window, enough was sent and nothing came back for the fast window, with no proven exit in it.
  predicate FastDead(s: Signals, now: int, settings: Settings) {
    var since := if s.lastInbound >= 0 then s.lastInbound else if s.trafficStart > 0 then s.trafficStart else s.upSince;
    && !s.outOfBalance && s.providerWindowReady && s.outboundSinceInbound >= settings.deadFastPackets
    && now - since >= settings.deadFast && UnprovenFor(s, now, settings.deadFast)
  }

  // The sdk has answered in this session, with no proven exit for the slow window.
  predicate SlowDead(s: Signals, now: int, settings: Settings) {
    !s.outOfBalance && s.lastSample >= 0 && UnprovenFor(s, now, settings.deadSlow)
  }

  // Each reason is given exactly when it holds and none before it does: a packet that came back outranks them all, then
  // come the sdk's silence, traffic with nothing back, and no exit.
  lemma ReasonExactly(s: Signals, now: int, settings: Settings)
    requires s.tunnelUp && s.routesInstalled && s.upSince > 0
    ensures Evaluate(s, now, settings).reason ==
            if Vetoed(s, now, settings) then NoReason
            else if Silent(s, now, settings) then SdkUnresponsive
            else if FastDead(s, now, settings) then NoInbound
            else if SlowDead(s, now, settings) then NoExit
            else NoReason
  {
  }

  // What the countdown runs to, `after` from now: a traffic rule, or an sdk that is overdue already falling silent.
  predicate Due(s: Signals, now: int, after: int, settings: Settings) {
    || FastDead(s, now + after, settings) || SlowDead(s, now + after, settings)
    || (Overdue(s, now, settings) && Silent(s, now + after, settings))
  }

  predicate Overdue(s: Signals, now: int, settings: Settings) {
    now - (if s.lastSample >= 0 then s.lastSample else s.upSince) >= settings.unresponsiveArm
  }

  // The countdown is shown exactly when nothing has come back, nothing is due yet and something is within the notice;
  // and it is the least time after which something is.
  lemma CountdownExactly(s: Signals, now: int, settings: Settings, after: int)
    requires s.tunnelUp && s.routesInstalled && s.upSince > 0 && 0 <= after
    ensures var v := Evaluate(s, now, settings);
            && (v.armed ==>
                  !Vetoed(s, now, settings) && v.reason == NoReason && 0 <= v.millisToFailsafe <= settings.notice)
            && (v.armed ==> (Due(s, now, after, settings) <==> v.millisToFailsafe <= after))
            && (!v.armed && v.reason == NoReason && !Vetoed(s, now, settings) && after <= settings.notice ==>
                  !Due(s, now, after, settings))
  {
  }
}
