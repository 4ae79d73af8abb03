// The gate with the threads around it: each redirected launch on its own threadpool thread, the UI thread with its
// queue, and any number of closes (app/src/Common/InstanceHandover.h, app/tools/instance-handover-tests.cpp). A run
// is any order of their steps; a step its thread is not at changes nothing.
module GateRuns {
  import opened GateSpec
  import opened Lists

  // Where the thread of a launch is: about to hand its work to the UI thread, having to close because that thread
  // takes no more, about to take the lock for that close, waiting for its outcome, or back with it.
  datatype Taker = Posting | MustClose | Locking | Awaiting | Returned(outcome: Outcome)

  datatype System = System(
    gate: Gate,
    takers: map<LaunchId, Taker>,
    deadlines: map<LaunchId, int>,
    now: int,
    // the UI thread's queue of posted work, the launches it has taken and not acted on yet, and those acted on
    queue: seq<LaunchId>,
    serving: seq<LaunchId>,
    served: seq<LaunchId>,
    takesWork: bool,
    // closes that have raised the signal and not taken the lock
    closing: nat,
    // how many launches had been registered when the gate opened
    held: nat,
    // a lookup found no entry
    thrown: bool)

  const START: System := System(NEW_GATE, map[], map[], 0, [], [], [], true, 0, 0, false)

  datatype Event =
    | Arrive(deadline: int)
    | PostWork(id: LaunchId)
    | BeginTakersClose(id: LaunchId)
    | FinishTakersClose(id: LaunchId)
    | FinishTake(id: LaunchId)
    | OpenGate
    | ServeNext
    | RunPosted
    | StopTakingWork
    | BeginClose
    | FinishClose
    | Tick(to: int)

  predicate TakerIs(s: System, id: LaunchId, taker: Taker) {
    id in s.takers && s.takers[id] == taker
  }

  predicate DeadlinePassed(s: System, id: LaunchId) {
    id in s.deadlines && s.deadlines[id] <= s.now
  }

  predicate Enabled(s: System, e: Event) {
    match e
    case Arrive(_) => true
    case PostWork(id) => TakerIs(s, id, Posting)
    case BeginTakersClose(id) => TakerIs(s, id, MustClose)
    case FinishTakersClose(id) => TakerIs(s, id, Locking)
    case FinishTake(id) =>
      TakerIs(s, id, Awaiting) &&
      (id in s.gate.launches && s.gate.launches[id].outcome == Undecided ==> DeadlinePassed(s, id))
    case OpenGate => s.serving == []
    case ServeNext => s.serving != []
    case RunPosted => s.serving == [] && s.queue != []
    case StopTakingWork => true
    case BeginClose => true
    case FinishClose => s.closing > 0
    case Tick(to) => s.now <= to
  }

  function Step(s: System, e: Event): System {
    if !Enabled(s, e) then s
    else
      match e
      case Arrive(deadline) =>
        if s.gate.phase == Closed then s
        else
          var id := s.gate.lastId + 1;
          s.(gate := Arrived(s.gate), deadlines := s.deadlines[id := deadline],
             takers := s.takers[id := if s.gate.phase == Open then Posting else Awaiting])
      case PostWork(id) =>
        if s.takesWork then s.(queue := s.queue + [id], takers := s.takers[id := Awaiting])
        else s.(takers := s.takers[id := MustClose])
      case BeginTakersClose(id) => s.(gate := Raised(s.gate), takers := s.takers[id := Locking])
      case FinishTakersClose(id) => s.(gate := ShutDown(s.gate), takers := s.takers[id := Awaiting])
      case FinishTake(id) =>
        if id !in s.gate.launches then s.(thrown := true)
        else s.(gate := Decided(s.gate, id), takers := s.takers[id := Returned(s.gate.launches[id].outcome)])
      case OpenGate =>
        if s.gate.phase != Starting then s
        else s.(gate := Opened(s.gate), serving := Held(s.gate), held := s.gate.lastId)
      case ServeNext => s.(served := s.served + [s.serving[0]], serving := s.serving[1..])
      case RunPosted =>
        var id := s.queue[0];
        s.(gate := PostedRan(s.gate, id), queue := s.queue[1..], serving := if Serves(s.gate, id) then [id] else [])
      case StopTakingWork => s.(takesWork := false)
      case BeginClose => s.(gate := Raised(s.gate), closing := s.closing + 1)
      case FinishClose => s.(gate := ShutDown(s.gate), closing := s.closing - 1)
      case Tick(to) => s.(now := to)
  }

  function At(es: seq<Event>, n: nat): System
    requires n <= |es|
  {
    if n == 0 then START else Step(At(es, n - 1), es[n - 1])
  }

  // The launches acted on, or about to be by the UI thread, in that order.
  function Acts(s: System): seq<LaunchId> {
    s.served + s.serving
  }

  // ---- the invariant ----

  // What holds of a launch's entry in the gate.
  predicate EntryOk(s: System, id: LaunchId) {
    id in s.gate.launches ==>
      var entry := s.gate.launches[id];
      && (entry.outcome == Served <==> id in Acts(s))
      && (entry.outcome == Refused ==> s.gate.phase == Closed)
      && (entry.outcome == Undecided ==> s.gate.phase != Closed)
      && (s.gate.phase == Starting ==> !entry.posted)
      && (s.gate.phase == Open && entry.outcome == Undecided ==> entry.posted && (entry.abandoned || id in s.takers))
  }

  // What holds of a launch by where its thread is.
  predicate TakerOk(s: System, id: LaunchId) {
    && (id in s.takers <==> id <= s.gate.lastId)
    && (id in s.takers <==> id in s.deadlines)
    && (id in s.gate.launches ==> id in s.takers)
    && (id in s.takers ==>
          match s.takers[id]
          case Returned(Served) => id in Acts(s) && id !in s.gate.launches
          case Returned(Refused) => id !in Acts(s) && id !in s.gate.launches && s.gate.phase == Closed
          case Returned(Undecided) =>
            && DeadlinePassed(s, id)
            && (id in s.gate.launches ==> s.gate.launches[id].abandoned)
            && (id !in s.gate.launches ==> id in Acts(s) || s.gate.phase == Closed)
          case Awaiting => id in s.gate.launches && !s.gate.launches[id].abandoned
          case _ => id in s.gate.launches && !s.gate.launches[id].abandoned && s.gate.launches[id].posted)
    && (TakerIs(s, id, Locking) ==> s.gate.raised)
  }

  // The launch's thread has not handed its work to the UI thread.
  predicate Unqueued(s: System, id: LaunchId) {
    id in s.takers && s.takers[id] in {Posting, MustClose, Locking}
  }

  // What holds of a launch's work in the UI thread's queue.
  predicate QueueOk(s: System, id: LaunchId) {
    && (id in s.queue ==> id in s.takers && !Unqueued(s, id) && id !in Acts(s))
    && (id in Acts(s) ==> id in s.takers && !Unqueued(s, id))
    && (s.gate.phase == Open && Serves(s.gate, id) && !Unqueued(s, id) ==> id in s.queue)
    && (s.gate.phase == Starting && id in s.takers ==> id in s.gate.launches && !Unqueued(s, id))
  }

  predicate LaunchOk(s: System, id: LaunchId) {
    EntryOk(s, id) && TakerOk(s, id) && QueueOk(s, id)
  }

  // What holds of the system as a whole: nothing is acted on or queued twice, and those acted on begin with the
  // launches registered before the gate opened, in the order they came.
  ghost predicate SystemOk(s: System) {
    && !s.thrown && Distinct(Acts(s)) && Distinct(s.queue)
    && (s.gate.phase == Closed || s.closing > 0 ==> s.gate.raised)
    && (s.gate.phase == Starting ==> Acts(s) == [] && s.queue == [] && s.held == 0)
    && s.held <= |Acts(s)| && forall i | 0 <= i < s.held :: Acts(s)[i] == i + 1
  }

  ghost predicate Inv(s: System) {
    SystemOk(s) && forall id :: LaunchOk(s, id)
  }

  lemma HeldAreAll(g: Gate, n: nat)
    requires forall id: LaunchId | id <= n :: id in g.launches
    ensures HeldUpTo(g, n) == seq(n, i requires 0 <= i < n => i + 1)
  {
  }

  lemma OpeningTakesAll(s: System)
    requires Inv(s) && s.gate.phase == Starting
    ensures Held(s.gate) == seq(s.gate.lastId, i requires 0 <= i < s.gate.lastId => i + 1)
    ensures forall id: LaunchId :: id in Held(s.gate) <==> id <= s.gate.lastId
  {
    forall id: LaunchId | id <= s.gate.lastId ensures id in s.gate.launches {
      assert LaunchOk(s, id);
    }
    HeldAreAll(s.gate, s.gate.lastId);
    forall id: LaunchId ensures id in Held(s.gate) <==> id <= s.gate.lastId {
      assert id <= s.gate.lastId ==> Held(s.gate)[id - 1] == id;
    }
  }

  lemma OpensLaunch(s: System, id: LaunchId)
    requires SystemOk(s) && LaunchOk(s, id) && Enabled(s, OpenGate) && s.gate.phase == Starting
    requires id in Held(s.gate) <==> id <= s.gate.lastId
    ensures LaunchOk(Step(s, OpenGate), id)
  {
    hide Held, HeldUpTo, Distinct;
    assert Acts(Step(s, OpenGate)) == Held(s.gate);
  }

  lemma OpensSystem(s: System)
    requires Inv(s) && Enabled(s, OpenGate) && s.gate.phase == Starting
    ensures SystemOk(Step(s, OpenGate))
  {
    OpeningTakesAll(s);
    hide LaunchOk, Held, Opened;
    assert Acts(Step(s, OpenGate)) == Held(s.gate);
  }

  lemma GateOpens(s: System, id: LaunchId)
    requires Inv(s) && Enabled(s, OpenGate) && s.gate.phase == Starting
    ensures LaunchOk(Step(s, OpenGate), id) && SystemOk(Step(s, OpenGate))
  {
    hide LaunchOk, SystemOk, Step, Held;
    OpeningTakesAll(s);
    OpensLaunch(s, id);
    OpensSystem(s);
  }

  lemma PostedRuns(s: System, id: LaunchId)
    requires Inv(s) && Enabled(s, RunPosted)
    ensures LaunchOk(Step(s, RunPosted), id) && SystemOk(Step(s, RunPosted))
  {
    var head := s.queue[0];
    assert LaunchOk(s, head) && LaunchOk(s, id);
    assert Acts(Step(s, RunPosted)) == Acts(s) + if Serves(s.gate, head) then [head] else [];
  }

  lemma Acted(s: System, id: LaunchId)
    requires Inv(s) && Enabled(s, ServeNext)
    ensures LaunchOk(Step(s, ServeNext), id) && SystemOk(Step(s, ServeNext))
  {
    assert LaunchOk(s, id);
    assert Acts(Step(s, ServeNext)) == Acts(s);
  }

  lemma Arrives(s: System, e: Event, id: LaunchId)
    requires Inv(s) && e.Arrive?
    ensures LaunchOk(Step(s, e), id) && SystemOk(Step(s, e))
  {
    hide Distinct;
    assert LaunchOk(s, id) && LaunchOk(s, s.gate.lastId + 1);
  }

  lemma WorkPosted(s: System, e: Event, id: LaunchId)
    requires Inv(s) && Enabled(s, e) && e.PostWork?
    ensures LaunchOk(Step(s, e), id) && SystemOk(Step(s, e))
  {
    assert LaunchOk(s, id) && LaunchOk(s, e.id);
  }

  lemma TakeEnds(s: System, e: Event, id: LaunchId)
    requires Inv(s) && Enabled(s, e) && (e.BeginTakersClose? || e.FinishTake?)
    ensures LaunchOk(Step(s, e), id) && SystemOk(Step(s, e))
  {
    assert LaunchOk(s, id) && LaunchOk(s, e.id);
  }

  lemma Closes(s: System, e: Event, id: LaunchId)
    requires Inv(s) && Enabled(s, e)
    requires e.FinishTakersClose? || e.FinishClose?
    ensures LaunchOk(Step(s, e), id) && SystemOk(Step(s, e))
  {
    assert LaunchOk(s, id);
    if e.FinishTakersClose? {
      assert LaunchOk(s, e.id);
    }
  }

  lemma Kept(s: System, e: Event)
    requires Inv(s)
    ensures Inv(Step(s, e))
  {
    if Enabled(s, e) {
      forall id ensures LaunchOk(Step(s, e), id) && SystemOk(Step(s, e)) {
        assert LaunchOk(s, id);
        match e {
          case OpenGate => if s.gate.phase == Starting { GateOpens(s, id); }
          case RunPosted => PostedRuns(s, id);
          case ServeNext => Acted(s, id);
          case FinishTakersClose(_) => Closes(s, e, id);
          case FinishClose => Closes(s, e, id);
          case Arrive(_) => Arrives(s, e, id);
          case PostWork(_) => WorkPosted(s, e, id);
          case BeginTakersClose(_) => TakeEnds(s, e, id);
          case FinishTake(_) => TakeEnds(s, e, id);
          case _ =>
        }
      }
      assert SystemOk(Step(s, e)) by {
        assert LaunchOk(Step(s, e), 1);
      }
    }
  }

  lemma {:induction false} InvHolds(es: seq<Event>, n: nat)
    requires n <= |es|
    ensures Inv(At(es, n))
  {
    if n > 0 {
      InvHolds(es, n - 1);
      Kept(At(es, n - 1), es[n - 1]);
    }
  }

  // ---- what a run promises ----

  // What one step appends to the launches acted on.
  function MoreActs(s: System, e: Event): seq<LaunchId> {
    if !Enabled(s, e) then []
    else if e.OpenGate? then Held(s.gate)
    else if e.RunPosted? && Serves(s.gate, s.queue[0]) then [s.queue[0]]
    else []
  }

  lemma ActsGrow(s: System, e: Event)
    requires Inv(s)
    ensures Acts(Step(s, e)) == Acts(s) + MoreActs(s, e)
  {
  }

  // From s to t the launches acted on only grow at the end, a returned outcome stands, the signal stays raised, and
  // a gate never goes back to an earlier phase.
  ghost predicate NothingUndone(s: System, t: System) {
    && Acts(s) <= Acts(t) && s.gate.lastId <= t.gate.lastId && s.now <= t.now
    && (s.gate.raised ==> t.gate.raised)
    && (s.gate.phase == Closed ==> t.gate.phase == Closed)
    && (s.gate.phase != Starting ==> t.gate.phase != Starting && t.held == s.held)
    && forall id, outcome | TakerIs(s, id, Returned(outcome)) :: TakerIs(t, id, Returned(outcome))
  }

  lemma SignalStands(s: System, e: Event)
    ensures var t := Step(s, e);
            && s.gate.lastId <= t.gate.lastId && s.now <= t.now
            && (s.gate.raised ==> t.gate.raised)
            && (s.gate.phase == Closed ==> t.gate.phase == Closed)
            && (s.gate.phase != Starting ==> t.gate.phase != Starting && t.held == s.held)
  {
    hide Held, Serves;
  }

  lemma StepUndoesNothing(s: System, e: Event)
    requires Inv(s)
    ensures NothingUndone(s, Step(s, e))
  {
    ActsGrow(s, e);
    hide *;
    SignalStands(s, e);
    forall id, outcome | TakerIs(s, id, Returned(outcome)) ensures TakerIs(Step(s, e), id, Returned(outcome)) {
      ReturnStands(s, e, id);
    }
  }

  lemma ReturnStands(s: System, e: Event, id: LaunchId)
    requires Inv(s) && id in s.takers && s.takers[id].Returned?
    ensures TakerIs(Step(s, e), id, s.takers[id])
  {
    hide SystemOk, EntryOk, QueueOk, DeadlinePassed, Serves, Arrived, Opened, ShutDown, PostedRan, Decided, Held;
    assert LaunchOk(s, id);
  }

  lemma {:induction false} RunUndoesNothing(es: seq<Event>, i: nat, j: nat)
    requires i <= j <= |es|
    ensures NothingUndone(At(es, i), At(es, j))
    decreases j
  {
    if i < j {
      RunUndoesNothing(es, i, j - 1);
      InvHolds(es, j - 1);
      StepUndoesNothing(At(es, j - 1), es[j - 1]);
    }
  }

  // Every launch is acted on at most once, and every lookup of a waiting launch finds its entry.
  lemma ActedAtMostOnce(es: seq<Event>, n: nat)
    requires n <= |es|
    ensures Distinct(At(es, n).served) && !At(es, n).thrown
  {
    InvHolds(es, n);
    assert forall i | 0 <= i < |At(es, n).served| :: Acts(At(es, n))[i] == At(es, n).served[i];
  }

  // A launch told it was served is acted on: it has been, or the UI thread has it in hand.
  lemma ServedIsActedOn(es: seq<Event>, n: nat, id: LaunchId)
    requires n <= |es| && TakerIs(At(es, n), id, Returned(Served))
    ensures id in At(es, n).served || id in At(es, n).serving
  {
    InvHolds(es, n);
    assert LaunchOk(At(es, n), id);
  }

  // A launch told it was refused was never acted on and never will be, and the exiting signal was already raised.
  lemma RefusedIsNeverActedOn(es: seq<Event>, n: nat, m: nat, id: LaunchId)
    requires n <= |es| && m <= |es| && TakerIs(At(es, n), id, Returned(Refused))
    ensures id !in Acts(At(es, m)) && At(es, n).gate.raised
  {
    InvHolds(es, n);
    assert LaunchOk(At(es, n), id);
    if m <= n {
      RunUndoesNothing(es, m, n);
    } else {
      RunUndoesNothing(es, n, m);
      InvHolds(es, m);
      assert LaunchOk(At(es, m), id);
    }
  }

  // Nothing is refused, at the door or after a wait, before the exiting signal is raised.
  lemma SignalPrecedesRefusal(es: seq<Event>, n: nat, id: LaunchId)
    requires n <= |es|
    requires At(es, n).gate.phase == Closed
             || (id in At(es, n).gate.launches && At(es, n).gate.launches[id].outcome == Refused)
    ensures At(es, n).gate.raised
  {
    InvHolds(es, n);
    assert LaunchOk(At(es, n), id);
  }

  // A launch is left undecided only past its deadline, and then it is still queued, acted on, or overtaken by the
  // exit.
  lemma UndecidedOnlyPastDeadline(es: seq<Event>, n: nat, id: LaunchId)
    requires n <= |es| && TakerIs(At(es, n), id, Returned(Undecided))
    ensures var s := At(es, n);
            && DeadlinePassed(s, id)
            && (s.gate.phase == Starting || id in s.queue || id in Acts(s) || s.gate.phase == Closed)
  {
    InvHolds(es, n);
    assert LaunchOk(At(es, n), id);
  }

  // The launches registered before the gate opened are the first acted on, in the order they came.
  lemma HeldServedInOrder(es: seq<Event>, i: nat, n: nat)
    requires i < n <= |es| && es[i].OpenGate? && Enabled(At(es, i), es[i]) && At(es, i).gate.phase == Starting
    ensures var held := At(es, i).gate.lastId;
            held <= |Acts(At(es, n))| && forall k | 0 <= k < held :: Acts(At(es, n))[k] == k + 1
  {
    RunUndoesNothing(es, i + 1, n);
    InvHolds(es, n);
  }

  // While the gate is open no launch is lost: each one registered is acted on, queued for the UI thread, about to
  // be handed to it, or has found that thread gone and is closing the gate.
  lemma NoneLostWhileOpen(es: seq<Event>, n: nat, id: LaunchId)
    requires n <= |es| && At(es, n).gate.phase == Open && id <= At(es, n).gate.lastId
    ensures id in Acts(At(es, n)) || id in At(es, n).queue || Unqueued(At(es, n), id)
  {
    InvHolds(es, n);
    assert LaunchOk(At(es, n), id);
  }

  lemma ClosedStep(s: System, e: Event)
    requires Inv(s) && s.gate.phase == Closed
    ensures var t := Step(s, e); t.gate.phase == Closed && Acts(t) == Acts(s) && t.gate.lastId == s.gate.lastId
  {
    ActsGrow(s, e);
    if Enabled(s, e) && e.RunPosted? {
      assert LaunchOk(s, s.queue[0]);
    }
  }

  // Close is permanent: from then on no launch is registered, and nothing more is acted on than the UI thread
  // already has in hand.
  lemma {:induction false} CloseIsPermanent(es: seq<Event>, i: nat, n: nat)
    requires i <= n <= |es| && At(es, i).gate.phase == Closed
    ensures At(es, n).gate.phase == Closed && Acts(At(es, n)) == Acts(At(es, i))
    ensures At(es, n).gate.lastId == At(es, i).gate.lastId
    decreases n
  {
    if i < n {
      CloseIsPermanent(es, i, n - 1);
      InvHolds(es, n - 1);
      ClosedStep(At(es, n - 1), es[n - 1]);
    }
  }
}
