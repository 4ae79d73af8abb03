// The session's evidence as an object, and the four-stage transaction that captures traffic on it
// (app/src/Service/CaptureReadiness.h), driven against the machine of app/tools/capture-readiness-tests.cpp with
// any operations of other threads between its own accesses.
module CaptureTransaction {
  import opened Options
  import Spec = CaptureSpec

  class CaptureReadiness {
    const freshness: int
    var revision: nat
    var generation: int
    var proofSince: int
    var networkRevision: nat
    var handled: nat
    var sampled: int
    var proven: bool
    var cancelled: bool
    var active: bool

    function State(): Spec.State
      reads this
    {
      Spec.State(revision, generation, proofSince, networkRevision, handled, sampled, proven, cancelled, active)
    }

    constructor (freshness: int)
      ensures State() == Spec.INITIAL && this.freshness == freshness
    {
      this.freshness := freshness;
      revision, generation, proofSince, networkRevision, handled := 0, 0, -1, 0, 0;
      sampled, proven, cancelled, active := 0, false, false, false;
    }

    method Invalidate(retired: int)
      modifies this
      ensures State() == Spec.Step(freshness, old(State()), Spec.Invalidate(retired), 0)
    {
      if retired < generation {
        return;
      }
      generation := retired;
      revision := revision + 1;
      proven := false;
    }

    method ProofBarrier(at: int)
      modifies this
      ensures State() == Spec.Step(freshness, old(State()), Spec.ProofBarrier(at), 0)
    {
      if proofSince < at {
        proofSince := at;
      }
      revision := revision + 1;
      proven := false;
    }

    method NetworkChanged(at: int)
      modifies this
      ensures State() == Spec.Step(freshness, old(State()), Spec.NetworkChanged(at), 0)
    {
      if proofSince < at {
        proofSince := at;
      }
      networkRevision := networkRevision + 1;
      revision := revision + 1;
      proven := false;
    }

    method NetworkEventHandled(event: Spec.NetworkEpoch)
      modifies this`handled
      ensures State() == Spec.Step(freshness, old(State()), Spec.NetworkHandled(event), 0)
    {
      if handled < event.revision <= networkRevision {
        handled := event.revision;
      }
    }

    method CompleteSample(sample: Spec.Sample, before: Spec.Window, after: Spec.Window, usable: int, now: int)
      modifies this
      ensures State() == Spec.Completed(freshness, old(State()), sample, before, after, usable, now)
    {
      if cancelled || active || sample.revision != revision {
        return;
      }
      var proves :=
        && before.generation == after.generation && after.generation >= generation && after.generation > 0
        && before.added > 0 && after.added > 0 && usable > 0 && Spec.Fresh(freshness, sample.started, now);
      if generation != after.generation || proven != proves {
        revision := revision + 1;
      }
      if generation < before.generation {
        generation := before.generation;
      }
      if generation < after.generation {
        generation := after.generation;
      }
      proven := proves;
      sampled := sample.started;
    }

    method Current(ticket: Spec.Ticket, now: int) returns (current: bool)
      ensures current <==> Spec.Current(freshness, State(), ticket, now)
    {
      current :=
        && !cancelled && !active && proven && ticket.revision == revision && ticket.generation == generation
        && Spec.Fresh(freshness, ticket.sampled, now);
    }

    method Commit(ticket: Spec.Ticket, now: int) returns (committed: bool)
      modifies this`active
      ensures committed <==> Spec.Current(freshness, old(State()), ticket, now)
      ensures State() == Spec.Step(freshness, old(State()), Spec.Commit(ticket), now)
    {
      committed := Current(ticket, now);
      if committed {
        active := true;
      }
    }

    method Cancel()
      modifies this
      ensures State() == Spec.Step(freshness, old(State()), Spec.Cancel, 0)
    {
      cancelled := true;
      proven := false;
      revision := revision + 1;
    }

    // One operation of another thread.
    method Perform(op: Spec.Op, now: int)
      modifies this
      ensures State() == Spec.Step(freshness, old(State()), op, now)
    {
      match op {
        case Invalidate(retired) => Invalidate(retired);
        case NetworkChanged(at) => NetworkChanged(at);
        case ProofBarrier(at) => ProofBarrier(at);
        case BeginSample =>
        case CompleteSample(sample, before, after, usable) => CompleteSample(sample, before, after, usable, now);
        case PeekNetwork =>
        case NetworkHandled(event) => NetworkEventHandled(event);
        case Commit(ticket) => var committed := Commit(ticket, now);
        case Cancel => Cancel();
      }
    }

    // What other threads do between two accesses of the transaction.
    method Meanwhile(ops: seq<Spec.Timed>)
      modifies this
      ensures State() == After(freshness, old(State()), ops)
    {
      for i := 0 to |ops|
        invariant State() == After(freshness, old(State()), ops[..i])
      {
        assert ops[..i + 1] == ops[..i] + [ops[i]];
        Perform(ops[i].op, ops[i].now);
      }
      assert ops[..|ops|] == ops;
    }
  }

  function After(freshness: int, s: Spec.State, ops: seq<Spec.Timed>): Spec.State {
    if ops == [] then s
    else
      var last := |ops| - 1;
      Spec.Step(freshness, After(freshness, s, ops[..last]), ops[last].op, ops[last].now)
  }

  datatype Stage = Prepare | Firewall | Network | Connected

  const STAGES: seq<Stage> := [Prepare, Firewall, Network, Connected]

  datatype FirewallState = Off | Armed | Connecting | Open

  // What a stage may have written when it stopped.
  datatype Settings = Settings(pump: bool, routes: bool, nativeDns: bool, firewall: FirewallState)

  datatype Effect = Continue | Halt(left: Settings) | Throw(left: Settings)

  // Threw: the exception is passed on after the rollback.
  datatype Result = Waiting | Active | Halted | Threw

  class Machine {
    const killSwitch: bool
    var settings: Settings
    var stages: seq<Stage>
    var rollbacks: nat

    predicate Native()
      reads this
    {
      !settings.routes && settings.nativeDns && settings.firewall == if killSwitch then Armed else Off
    }

    predicate Captured()
      reads this
    {
      settings.pump && settings.routes && !settings.nativeDns && settings.firewall == Open
    }

    method Apply(stage: Stage, effect: Effect)
      requires stage.Prepare? || settings.pump
      modifies this`settings, this`stages
      ensures stages == old(stages) + [stage]
      ensures settings == if effect.Continue? then Applied(old(settings), stage) else effect.left
    {
      stages := stages + [stage];
      if !effect.Continue? {
        settings := effect.left;
        return;
      }
      match stage {
        case Prepare => settings := settings.(pump := true);
        case Firewall => settings := settings.(firewall := Connecting);
        case Network => settings := settings.(routes := true, nativeDns := false);
        case Connected => settings := settings.(firewall := Open);
      }
    }

    method Rollback()
      modifies this`settings, this`rollbacks
      ensures Native() && rollbacks == old(rollbacks) + 1 && settings.pump == old(settings.pump)
    {
      rollbacks := rollbacks + 1;
      settings := settings.(routes := false, nativeDns := true, firewall := if killSwitch then Armed else Off);
    }
  }

  function Applied(settings: Settings, stage: Stage): Settings {
    match stage
    case Prepare => settings.(pump := true)
    case Firewall => settings.(firewall := Connecting)
    case Network => settings.(routes := true, nativeDns := false)
    case Connected => settings.(firewall := Open)
  }

  // One interleaving: what other threads do before the transaction's i-th access of the evidence (0 is the
  // check before it starts, 1 to 4 the checks before each stage, 5 the commit), the clock at that access, and
  // what each stage does.
  datatype Interleaving = Interleaving(meanwhile: nat -> seq<Spec.Timed>, clock: nat -> int, effects: nat -> Effect)

  // The evidence at the transaction's i-th access.
  function Seen(freshness: int, s: Spec.State, x: Interleaving, i: nat): Spec.State {
    After(freshness, if i == 0 then s else Seen(freshness, s, x, i - 1), x.meanwhile(i))
  }

  predicate CurrentAt(freshness: int, s: Spec.State, x: Interleaving, ticket: Spec.Ticket, i: nat) {
    Spec.Current(freshness, Seen(freshness, s, x, i), ticket, x.clock(i))
  }

  // How a transaction that is past its first i stages ends, and how many of them have run by then.
  function Remaining(freshness: int, s: Spec.State, x: Interleaving, ticket: Spec.Ticket, i: nat): (Result, nat)
    requires i <= 4
    decreases 4 - i
  {
    if !CurrentAt(freshness, s, x, ticket, i + 1) then (Waiting, i)
    else if i == 4 then (Active, 4)
    else
      match x.effects(i)
      case Continue => Remaining(freshness, s, x, ticket, i + 1)
      case Halt(_) => (Halted, i + 1)
      case Throw(_) => (Threw, i + 1)
  }

  method ApplyCapture(readiness: CaptureReadiness, ticket: Spec.Ticket, machine: Machine, x: Interleaving)
    returns (result: Result)
    modifies readiness, machine
    ensures var f, s := readiness.freshness, old(readiness.State());
            var first := CurrentAt(f, s, x, ticket, 0);
            var (ending, ran) := Ending(f, s, x, ticket);
            && result == ending && EndsAs(f, s, x, ticket, ending, ran)
            && ran <= 4 && machine.stages == old(machine.stages) + STAGES[..ran]
            && machine.rollbacks == old(machine.rollbacks) + (if first && ending != Active then 1 else 0)
            && (result == Active ==> ran == 4 && machine.Captured() && readiness.active)
            && (first && result != Active ==> machine.Native())
            && (!first ==> machine.settings == old(machine.settings))
  {
    ghost var (ending, ran) := Ending(readiness.freshness, readiness.State(), x, ticket);
    EndsExactly(readiness.freshness, readiness.State(), x, ticket, ending, ran);
    hide EndsAs;
    readiness.Meanwhile(x.meanwhile(0));
    var current := readiness.Current(ticket, x.clock(0));
    if !current {
      return Waiting;
    }
    result := RunStages(readiness, ticket, machine, x, old(readiness.State()));
  }

  // What the machine holds once the first i stages have run.
  ghost predicate Reached(settings: Settings, i: nat) {
    && (i >= 1 ==> settings.pump)
    && (i == 2 || i == 3 ==> settings.firewall == Connecting)
    && (i >= 3 ==> settings.routes && !settings.nativeDns)
    && (i >= 4 ==> settings.firewall == Open)
  }

  // One turn of the loop: the check, the stage, and the rollback when either says no.
  method RunStage(readiness: CaptureReadiness, ticket: Spec.Ticket, machine: Machine, x: Interleaving,
                  ghost s: Spec.State, i: nat)
    returns (stopped: Option<Result>)
    requires i < 4 && readiness.State() == Seen(readiness.freshness, s, x, i) && Reached(machine.settings, i)
    modifies readiness, machine
    ensures readiness.State() == Seen(readiness.freshness, s, x, i + 1)
    ensures var (ending, ran) := Remaining(readiness.freshness, s, x, ticket, i);
            match stopped
            case None =>
              && (ending, ran) == Remaining(readiness.freshness, s, x, ticket, i + 1)
              && machine.stages == old(machine.stages) + [STAGES[i]] && machine.rollbacks == old(machine.rollbacks)
              && Reached(machine.settings, i + 1)
            case Some(result) =>
              && ending == result != Active && i <= ran <= i + 1
              && machine.stages == old(machine.stages) + STAGES[i..ran]
              && machine.Native() && machine.rollbacks == old(machine.rollbacks) + 1
  {
    hide Spec.Current, Machine.Captured;
    readiness.Meanwhile(x.meanwhile(i + 1));
    var current := readiness.Current(ticket, x.clock(i + 1));
    if !current {
      machine.Rollback();
      return Some(Waiting);
    }
    machine.Apply(STAGES[i], x.effects(i));
    if x.effects(i).Continue? {
      return None;
    }
    machine.Rollback();
    return Some(if x.effects(i).Halt? then Halted else Threw);
  }

  method RunStages(readiness: CaptureReadiness, ticket: Spec.Ticket, machine: Machine, x: Interleaving,
                   ghost s: Spec.State)
    returns (result: Result)
    requires readiness.State() == Seen(readiness.freshness, s, x, 0)
    modifies readiness, machine
    ensures var (ending, ran) := Remaining(readiness.freshness, s, x, ticket, 0);
            && result == ending && ran <= 4 && machine.stages == old(machine.stages) + STAGES[..ran]
            && machine.rollbacks == old(machine.rollbacks) + (if result == Active then 0 else 1)
            && (if result == Active then ran == 4 && machine.Captured() && readiness.active else machine.Native())
  {
    hide Seen, Remaining, CurrentAt;
    ghost var f := readiness.freshness;
    for i := 0 to 4
      invariant readiness.State() == Seen(f, s, x, i)
      invariant Remaining(f, s, x, ticket, 0) == Remaining(f, s, x, ticket, i)
      invariant machine.stages == old(machine.stages) + STAGES[..i] && machine.rollbacks == old(machine.rollbacks)
      invariant Reached(machine.settings, i)
    {
      var stopped := RunStage(readiness, ticket, machine, x, s, i);
      if stopped.Some? {
        ghost var ran := Remaining(f, s, x, ticket, i).1;
        assert STAGES[..ran] == STAGES[..i] + STAGES[i..ran];
        return stopped.value;
      }
      assert STAGES[..i + 1] == STAGES[..i] + [STAGES[i]];
    }
    result := Finish(readiness, ticket, machine, x, s);
  }

  method Finish(readiness: CaptureReadiness, ticket: Spec.Ticket, machine: Machine, x: Interleaving,
                ghost s: Spec.State)
    returns (result: Result)
    requires readiness.State() == Seen(readiness.freshness, s, x, 4) && Reached(machine.settings, 4)
    modifies readiness, machine
    ensures (result, 4) == Remaining(readiness.freshness, s, x, ticket, 4) && machine.stages == old(machine.stages)
    ensures machine.rollbacks == old(machine.rollbacks) + if result == Active then 0 else 1
    ensures if result == Active then machine.Captured() && readiness.active else machine.Native()
  {
    readiness.Meanwhile(x.meanwhile(5));
    var committed := readiness.Commit(ticket, x.clock(5));
    if committed {
      return Active;
    }
    machine.Rollback();
    return Waiting;
  }

  // ---- what the endings mean ----

  // These operations run in order between the two moments.
  ghost predicate Within(ops: seq<Spec.Timed>, from: int, to: int) {
    from <= to && (forall k | 0 <= k < |ops| :: from <= ops[k].now <= to)
    && (forall k, l | 0 <= k <= l < |ops| :: ops[k].now <= ops[l].now)
  }

  // The clock never runs back over an interleaving.
  ghost predicate ClockSteady(x: Interleaving) {
    forall i: nat | i > 0 :: Within(x.meanwhile(i), x.clock(i - 1), x.clock(i))
  }

  // No operation brings a ticket back within the transaction.
  lemma {:induction false} DeadAfter(freshness: int, s: Spec.State, ticket: Spec.Ticket, ops: seq<Spec.Timed>,
                                     from: int, to: int)
    requires Spec.Dead(freshness, s, ticket, from) && Within(ops, from, to)
    ensures Spec.Dead(freshness, After(freshness, s, ops), ticket, to)
  {
    if ops == [] {
      Spec.StaysDead(freshness, s, ticket, from, Spec.BeginSample, to);
    } else {
      var last := |ops| - 1;
      DeadAfter(freshness, s, ticket, ops[..last], from, ops[last].now);
      Spec.StaysDead(freshness, After(freshness, s, ops[..last]), ticket, ops[last].now, ops[last].op, ops[last].now);
      Spec.StaysDead(freshness, After(freshness, s, ops), ticket, ops[last].now, Spec.BeginSample, to);
    }
  }

  lemma {:induction false} DeadStaysDead(freshness: int, s: Spec.State, x: Interleaving, ticket: Spec.Ticket,
                                         i: nat, j: nat)
    requires i <= j && ClockSteady(x)
    requires Spec.Dead(freshness, Seen(freshness, s, x, i), ticket, x.clock(i))
    ensures Spec.Dead(freshness, Seen(freshness, s, x, j), ticket, x.clock(j))
    decreases j
  {
    if i < j {
      DeadStaysDead(freshness, s, x, ticket, i, j - 1);
      DeadAfter(freshness, Seen(freshness, s, x, j - 1), ticket, x.meanwhile(j), x.clock(j - 1), x.clock(j));
    }
  }

  // The ticket was handed out before the transaction's first access.
  predicate Issued(freshness: int, s: Spec.State, x: Interleaving, ticket: Spec.Ticket) {
    ticket.revision <= Seen(freshness, s, x, 0).revision && ticket.sampled <= x.clock(0)
  }

  lemma {:induction false} RevisionsGrow(freshness: int, s: Spec.State, ops: seq<Spec.Timed>)
    ensures s.revision <= After(freshness, s, ops).revision
  {
    if ops != [] {
      RevisionsGrow(freshness, s, ops[..|ops| - 1]);
    }
  }

  lemma {:induction false} StaysIssued(freshness: int, s: Spec.State, x: Interleaving, ticket: Spec.Ticket, i: nat)
    requires Issued(freshness, s, x, ticket) && ClockSteady(x)
    ensures ticket.revision <= Seen(freshness, s, x, i).revision && ticket.sampled <= x.clock(i)
  {
    if i > 0 {
      StaysIssued(freshness, s, x, ticket, i - 1);
      RevisionsGrow(freshness, Seen(freshness, s, x, i - 1), x.meanwhile(i));
      assert Within(x.meanwhile(i), x.clock(i - 1), x.clock(i));
    }
  }

  // A ticket current at one access was current at every access before it.
  lemma CurrentAllAlong(freshness: int, s: Spec.State, x: Interleaving, ticket: Spec.Ticket, i: nat, j: nat)
    requires i <= j && ClockSteady(x) && Issued(freshness, s, x, ticket) && CurrentAt(freshness, s, x, ticket, j)
    ensures CurrentAt(freshness, s, x, ticket, i)
  {
    if !CurrentAt(freshness, s, x, ticket, i) {
      StaysIssued(freshness, s, x, ticket, i);
      DeadStaysDead(freshness, s, x, ticket, i, j);
    }
  }

  function Ending(freshness: int, s: Spec.State, x: Interleaving, ticket: Spec.Ticket): (Result, nat) {
    if CurrentAt(freshness, s, x, ticket, 0) then Remaining(freshness, s, x, ticket, 0) else (Waiting, 0)
  }

  // How a transaction ends, said of its checks and its stages alone. Every stage that ran was checked just before, and
  // only the last one may have stopped it. It waits when the check or the commit after those stages is the first to
  // fail, and halts or throws when the last stage did.
  ghost predicate EndsAs(freshness: int, s: Spec.State, x: Interleaving, ticket: Spec.Ticket, ending: Result, ran: nat)
  {
    && ran <= 4
    && (ran > 0 ==> CurrentAt(freshness, s, x, ticket, 0))
    && (forall k | 1 <= k <= ran :: CurrentAt(freshness, s, x, ticket, k))
    && (forall k: nat | k + 1 < ran :: x.effects(k).Continue?)
    && match ending
       case Waiting =>
         if ran == 0 then !CurrentAt(freshness, s, x, ticket, 0) || !CurrentAt(freshness, s, x, ticket, 1)
         else x.effects(ran - 1).Continue? && !CurrentAt(freshness, s, x, ticket, ran + 1)
       case Active => ran == 4 && x.effects(3).Continue? && CurrentAt(freshness, s, x, ticket, 5)
       case Halted => ran > 0 && x.effects(ran - 1).Halt?
       case Threw => ran > 0 && x.effects(ran - 1).Throw?
  }

  lemma {:induction false} RemainingEnds(freshness: int, s: Spec.State, x: Interleaving, ticket: Spec.Ticket, i: nat)
    requires i <= 4 && forall k: nat | k <= i :: CurrentAt(freshness, s, x, ticket, k)
    requires forall k: nat | k < i :: x.effects(k).Continue?
    ensures var (ending, ran) := Remaining(freshness, s, x, ticket, i); EndsAs(freshness, s, x, ticket, ending, ran)
    decreases 4 - i
  {
    hide Seen, CurrentAt;
    if CurrentAt(freshness, s, x, ticket, i + 1) && i < 4 && x.effects(i).Continue? {
      RemainingEnds(freshness, s, x, ticket, i + 1);
    }
  }

  lemma EndsOneWay(freshness: int, s: Spec.State, x: Interleaving, ticket: Spec.Ticket, a: Result, m: nat, b: Result,
                   n: nat)
    requires EndsAs(freshness, s, x, ticket, a, m) && EndsAs(freshness, s, x, ticket, b, n) && m <= n
    ensures a == b && m == n
  {
    hide CurrentAt;
    if m < n {
      assert false;
    }
  }

  // The ending, and the stages that ran, are the one pair those checks and stages allow.
  lemma EndsExactly(freshness: int, s: Spec.State, x: Interleaving, ticket: Spec.Ticket, ending: Result, ran: nat)
    ensures Ending(freshness, s, x, ticket) == (ending, ran) <==> EndsAs(freshness, s, x, ticket, ending, ran)
  {
    hide CurrentAt, Remaining;
    var (e, r) := Ending(freshness, s, x, ticket);
    if CurrentAt(freshness, s, x, ticket, 0) {
      RemainingEnds(freshness, s, x, ticket, 0);
    }
    assert EndsAs(freshness, s, x, ticket, e, r);
    hide EndsAs;
    if EndsAs(freshness, s, x, ticket, ending, ran) {
      if ran <= r {
        EndsOneWay(freshness, s, x, ticket, ending, ran, e, r);
      } else {
        EndsOneWay(freshness, s, x, ticket, e, r, ending, ran);
      }
    }
  }

  // The transaction commits exactly when the ticket is current at the commit and no stage stopped it: whatever the
  // interleaving, the five checks before the commit pass then, and all four stages have run.
  lemma CommitsExactly(freshness: int, s: Spec.State, x: Interleaving, ticket: Spec.Ticket)
    requires ClockSteady(x) && Issued(freshness, s, x, ticket)
    ensures Ending(freshness, s, x, ticket).0 == Active
            <==> CurrentAt(freshness, s, x, ticket, 5) && forall i: nat | i < 4 :: x.effects(i).Continue?
    ensures Ending(freshness, s, x, ticket).0 == Active
            ==> Ending(freshness, s, x, ticket).1 == 4
                && forall i: nat | i <= 5 :: CurrentAt(freshness, s, x, ticket, i)
  {
    if CurrentAt(freshness, s, x, ticket, 5) {
      forall i: nat | i <= 5 ensures CurrentAt(freshness, s, x, ticket, i) {
        CurrentAllAlong(freshness, s, x, ticket, i, 5);
      }
    }
  }

  // A transaction that does not commit rolls back once if any stage ran. It also rolls back once, with no stage
  // run, exactly when the ticket lapses between the check before the transaction and the one before its first
  // stage.
  lemma RollbackWithoutStageExactly(freshness: int, s: Spec.State, x: Interleaving, ticket: Spec.Ticket)
    ensures var (ending, ran) := Ending(freshness, s, x, ticket);
            CurrentAt(freshness, s, x, ticket, 0) && ending != Active && ran == 0
            <==> CurrentAt(freshness, s, x, ticket, 0) && !CurrentAt(freshness, s, x, ticket, 1)
  {
  }

  // Such a lapse: a cancellation just after the first check.
  lemma CancelledAfterFirstCheck(freshness: int, ticket: Spec.Ticket, s: Spec.State, now: int)
    requires Spec.Current(freshness, s, ticket, now)
    ensures var x := Interleaving(i => if i == 1 then [Spec.Timed(Spec.Cancel, now)] else [], _ => now, _ => Continue);
            CurrentAt(freshness, s, x, ticket, 0) && Ending(freshness, s, x, ticket) == (Waiting, 0)
  {
    var x := Interleaving(i => if i == 1 then [Spec.Timed(Spec.Cancel, now)] else [], _ => now, _ => Continue);
    assert x.meanwhile(0) == [] && x.meanwhile(1) == [Spec.Timed(Spec.Cancel, now)];
    assert After(freshness, s, []) == s;
    assert After(freshness, s, x.meanwhile(1)) == Spec.Step(freshness, After(freshness, s, []), Spec.Cancel, now);
    assert Seen(freshness, s, x, 0) == s;
  }
}
