// The session-request slot, its worker, and what an ending of the app does with them (app/src/App/SdkHost.cpp,
// app/src/Common/ExitDrain.h). A run is any order of the sections that take the slot's lock, and of the ends of
// the worker's passes. An ending holds the app's only thread that signs out (app/src/App/SdkHost.h), so no sign-out
// empties the slot once one has begun.
module ExitDrain {
  import opened Options

  datatype Kind = Ensure | BestAvailable | Location | Selected | Disconnect | Provider

  // Requests are numbered as they are made. A row click may not be taken before its deadline and may be cancelled.
  datatype Request = Request(id: nat, kind: Kind, notBefore: int, rowClick: bool)

  datatype State = State(
    pending: Option<Request>,
    alive: bool,
    running: Option<Request>,
    ran: seq<Request>,
    // the requests refused, covered, replaced, cancelled or dropped
    gone: set<nat>,
    issued: nat,
    quitting: bool,
    // the app's only thread that signs out is held by an ending, and has closed its gate
    uiHeld: bool,
    loggedIn: bool,
    now: int)

  const START: State := State(None, false, None, [], {}, 0, false, false, true, 0)

  datatype Event =
    | Submit(kind: Kind, notBefore: int, rowClick: bool)
    | CancelRowConnect
    | WorkerTurn
    | PassEnds
    | QuitLatch
    | SettleBegins
    | SignOutClears
    | SignedOut
    | SignedIn
    | Tick(to: int)

  predicate IsConnect(kind: Kind) {
    kind in {BestAvailable, Location, Selected}
  }

  // How much a request asks: the user's connect or Disconnect the most, and a provider reconcile the least.
  function Rank(kind: Kind): nat {
    match kind
    case Provider => 0
    case Ensure => 1
    case _ => 2
  }

  predicate KeepsQueued(kind: Kind) {
    kind == Disconnect
  }

  // The pending request already implies what the new one asks.
  predicate Covered(pending: Option<Request>, kind: Kind) {
    pending.Some? &&
    ((kind == Ensure && pending.value.kind != Ensure && pending.value.kind != Provider) ||
     (kind == Provider && pending.value.kind != Provider))
  }

  predicate Refused(s: State, kind: Kind) {
    s.quitting || (!s.loggedIn && IsConnect(kind))
  }

  function Cleared(s: State): State {
    s.(pending := None, gone := s.gone + IdsOf(s.pending))
  }

  function IdsOf(request: Option<Request>): set<nat> {
    match request
    case None => {}
    case Some(r) => {r.id}
  }

  function Step(s: State, e: Event): State {
    match e
    case Submit(kind, notBefore, rowClick) =>
      var id := s.issued;
      if Refused(s, kind) then s.(issued := id + 1, gone := s.gone + {id})
      else if Covered(s.pending, kind) then s.(issued := id + 1, gone := s.gone + {id}, alive := true)
      else s.(issued := id + 1, gone := s.gone + IdsOf(s.pending), alive := true,
              pending := Some(Request(id, kind, notBefore, rowClick)))
    case CancelRowConnect => if s.pending.Some? && s.pending.value.rowClick then Cleared(s) else s
    case WorkerTurn =>
      if !s.alive || s.running.Some? then s
      else if s.pending.None? then s.(alive := false)
      else if s.now < s.pending.value.notBefore then s
      else s.(pending := None, running := s.pending)
    case PassEnds => if s.running.None? then s else s.(running := None, ran := s.ran + [s.running.value])
    case QuitLatch => s.(quitting := true, uiHeld := true)
    case SettleBegins =>
      (if s.pending.Some? && !KeepsQueued(s.pending.value.kind) then Cleared(s) else s).(uiHeld := true)
    case SignOutClears => if s.uiHeld then s else Cleared(s)
    case SignedOut => s.(loggedIn := false)
    case SignedIn => s.(loggedIn := true)
    case Tick(to) => s.(now := if s.now < to then to else s.now)
  }

  function At(es: seq<Event>, n: nat): State
    requires n <= |es|
  {
    if n == 0 then START else Step(At(es, n - 1), es[n - 1])
  }

  // SettleQueued's answer: whether its wait finds the worker idle.
  predicate Settled(s: State) {
    !s.alive
  }

  // A row click is a connect.
  ghost predicate RowClicksConnect(es: seq<Event>) {
    forall i | 0 <= i < |es| && es[i].Submit? && es[i].rowClick :: IsConnect(es[i].kind)
  }

  class SessionHost {
    var pending: Request
    var requested: bool
    var alive: bool
    var running: Option<Request>
    var quitting: bool
    var loggedIn: bool
    var now: int
    var issued: nat
    ghost var ran: seq<Request>
    ghost var gone: set<nat>
    ghost var uiHeld: bool

    ghost function Model(): State
      reads this
    {
      var slot := if requested then Some(pending) else None;
      State(slot, alive, running, ran, gone, issued, quitting, uiHeld, loggedIn, now)
    }

    constructor ()
      ensures Model() == START
    {
      pending, requested, alive, running := Request(0, Ensure, 0, false), false, false, None;
      quitting, uiHeld, loggedIn, now, issued, ran, gone := false, false, true, 0, 0, [], {};
    }

    // The slot emptied, by a cancel, a sign-out or an ending.
    method Drop()
      requires requested
      modifies this`requested, this`gone
      ensures Model() == Cleared(old(Model()))
    {
      gone := gone + {pending.id};
      requested := false;
    }

    // The slot given a request that what it holds does not cover.
    method Fill(request: Request)
      modifies this`pending, this`requested, this`gone
      ensures Model() == old(Model()).(pending := Some(request), gone := old(gone) + IdsOf(old(Model()).pending))
    {
      gone := gone + if requested then {pending.id} else {};
      pending := request;
      requested := true;
    }

    // Last request wins, unless the pending one covers it; a worker is started when none is alive.
    method RequestSession(kind: Kind, notBefore: int, rowClick: bool)
      modifies this
      ensures Model() == Step(old(Model()), Submit(kind, notBefore, rowClick))
    {
      hide IsConnect, IdsOf;
      var id := issued;
      issued := issued + 1;
      if quitting || (!loggedIn && IsConnect(kind)) {
        gone := gone + {id};
        return;
      }
      var covered := Covered(if requested then Some(pending) else None, kind);
      if covered {
        gone := gone + {id};
      } else {
        Fill(Request(id, kind, notBefore, rowClick));
      }
      if alive {
        return;
      }
      alive := true;
    }

    method CancelPendingRowConnect()
      modifies this
      ensures Model() == Step(old(Model()), CancelRowConnect)
    {
      if requested && pending.rowClick {
        Drop();
      }
    }

    // The worker between two passes: it waits out a row click's deadline, ends when the slot is empty, and takes
    // the request otherwise.
    method TakeNext()
      requires alive && running.None?
      modifies this
      ensures Model() == Step(old(Model()), WorkerTurn)
    {
      if requested && now < pending.notBefore {
        return;
      }
      if !requested {
        alive := false;
        return;
      }
      running := Some(pending);
      requested := false;
    }

    method FinishPass()
      requires running.Some?
      modifies this
      ensures Model() == Step(old(Model()), PassEnds)
    {
      ran := ran + [running.value];
      running := None;
    }

    // Quit's first step, which leaves its thread waiting for the rest.
    method CloseSlot()
      modifies this
      ensures Model() == Step(old(Model()), QuitLatch)
    {
      quitting, uiHeld := true, true;
    }

    // SettleQueued before its wait.
    method BeginSettle()
      modifies this
      ensures Model() == Step(old(Model()), SettleBegins)
    {
      if requested && !KeepsQueued(pending.kind) {
        Drop();
      }
      uiHeld := true;
    }

    // A sign-out empties the slot on the thread an ending holds, so none does once one has begun.
    method SignOutClear()
      requires !uiHeld
      modifies this
      ensures Model() == Step(old(Model()), SignOutClears)
    {
      if requested {
        Drop();
      }
    }
  }

  // ---- where a request is ----

  predicate HasRun(ran: seq<Request>, id: nat) {
    exists i | 0 <= i < |ran| :: ran[i].id == id
  }

  // A request still to run: made, not gone and not run.
  predicate Waits(s: State, request: Option<Request>) {
    request.Some? ==>
      request.value.id < s.issued && request.value.id !in s.gone && !HasRun(s.ran, request.value.id) && s.alive
  }

  // Every request made is in exactly one place: the slot, the pass in flight, the passes done, or gone. No request
  // waits without a worker, and none has run twice.
  ghost predicate Inv(s: State) {
    && (s.quitting ==> s.uiHeld)
    && Waits(s, s.pending) && Waits(s, s.running) && IdsOf(s.pending) !! IdsOf(s.running)
    && (forall id | id in s.gone :: id < s.issued && !HasRun(s.ran, id))
    && (forall i | 0 <= i < |s.ran| :: s.ran[i].id < s.issued)
    && (forall i, j | 0 <= i < j < |s.ran| :: s.ran[i].id != s.ran[j].id)
    && (forall id | 0 <= id < s.issued ::
          id in IdsOf(s.pending) || id in IdsOf(s.running) || id in s.gone || HasRun(s.ran, id))
  }

  lemma RanGrows(ran: seq<Request>, r: Request, id: nat)
    ensures HasRun(ran + [r], id) <==> HasRun(ran, id) || id == r.id
  {
    if HasRun(ran, id) {
      var i :| 0 <= i < |ran| && ran[i].id == id;
      assert (ran + [r])[i].id == id;
    }
    assert (ran + [r])[|ran|] == r;
  }

  lemma PassEndKeeps(s: State)
    requires Inv(s) && s.running.Some?
    ensures Inv(Step(s, PassEnds))
  {
    var t := Step(s, PassEnds);
    forall id ensures HasRun(t.ran, id) <==> HasRun(s.ran, id) || id == s.running.value.id {
      RanGrows(s.ran, s.running.value, id);
    }
    forall i | 0 <= i < |s.ran| ensures s.ran[i].id != s.running.value.id {
      assert HasRun(s.ran, s.ran[i].id);
    }
  }

  lemma UnmadeNotRun(s: State)
    requires Inv(s)
    ensures !HasRun(s.ran, s.issued) && s.issued !in s.gone
  {
  }

  lemma TurnedAwayKeeps(s: State, alive: bool)
    requires Inv(s) && (s.alive ==> alive)
    ensures Inv(s.(issued := s.issued + 1, gone := s.gone + {s.issued}, alive := alive))
  {
    UnmadeNotRun(s);
    hide HasRun;
  }

  lemma TakenKeeps(s: State, r: Request)
    requires Inv(s) && r.id == s.issued
    ensures Inv(s.(issued := s.issued + 1, gone := s.gone + IdsOf(s.pending), alive := true, pending := Some(r)))
  {
    UnmadeNotRun(s);
    hide HasRun;
  }

  lemma SubmitKeeps(s: State, e: Event)
    requires Inv(s) && e.Submit?
    ensures Inv(Step(s, e))
  {
    hide Inv, Refused, Covered;
    if Refused(s, e.kind) || Covered(s.pending, e.kind) {
      TurnedAwayKeeps(s, Step(s, e).alive);
    } else {
      TakenKeeps(s, Request(s.issued, e.kind, e.notBefore, e.rowClick));
    }
  }

  lemma Kept(s: State, e: Event)
    requires Inv(s)
    ensures Inv(Step(s, e))
  {
    hide HasRun, KeepsQueued;
    if e.Submit? {
      SubmitKeeps(s, e);
    } else if e.PassEnds? && s.running.Some? {
      PassEndKeeps(s);
    }
  }

  // Over every run each request made is in one place, and none runs twice.
  lemma {:induction false} InvHolds(es: seq<Event>, n: nat)
    requires n <= |es|
    ensures Inv(At(es, n))
    ensures var ran := At(es, n).ran; forall i, j | 0 <= i < j < |ran| :: ran[i].id != ran[j].id
  {
    if n > 0 {
      InvHolds(es, n - 1);
      Kept(At(es, n - 1), es[n - 1]);
    }
  }

  // Nothing goes back to the slot, and an ending is never undone.
  ghost predicate Onward(s: State, t: State) {
    s.gone <= t.gone && s.ran <= t.ran && (s.quitting ==> t.quitting) && (s.uiHeld ==> t.uiHeld)
  }

  lemma StepsOnward(s: State, e: Event)
    ensures Onward(s, Step(s, e))
  {
  }

  lemma {:induction false} RunsOnward(es: seq<Event>, i: nat, n: nat)
    requires i <= n <= |es|
    ensures Onward(At(es, i), At(es, n))
    decreases n
  {
    if i < n {
      RunsOnward(es, i, n - 1);
      StepsOnward(At(es, n - 1), es[n - 1]);
    }
  }

  // ---- when a request is taken ----

  // The request in flight, and each that has run, was taken at or after its deadline.
  ghost predicate OnTime(s: State) {
    (s.running.Some? ==> s.running.value.notBefore <= s.now) && forall r | r in s.ran :: r.notBefore <= s.now
  }

  lemma StaysOnTime(s: State, e: Event)
    requires OnTime(s)
    ensures OnTime(Step(s, e))
  {
    hide Refused, Covered, KeepsQueued;
  }

  // In every run no request is taken before its deadline.
  lemma {:induction false} TakenOnTime(es: seq<Event>, n: nat)
    requires n <= |es|
    ensures OnTime(At(es, n))
  {
    hide Step;
    assert OnTime(START);
    if n > 0 {
      TakenOnTime(es, n - 1);
      StaysOnTime(At(es, n - 1), es[n - 1]);
    }
  }

  // The worker's turn takes the pending request exactly when no pass is in flight and its deadline has come, and ends
  // the worker exactly when none is pending.
  lemma TakenExactly(es: seq<Event>, n: nat)
    requires n < |es| && es[n].WorkerTurn?
    ensures var s, t := At(es, n), At(es, n + 1);
            && (s.pending.Some? ==>
                  (t.pending.None? && t.running == s.pending <==>
                   s.running.None? && s.pending.value.notBefore <= s.now))
            && (s.alive && !t.alive <==> s.alive && s.running.None? && s.pending.None?)
  {
    InvHolds(es, n);
  }

  // ---- what an ending may rely on ----

  // A request in the slot, or a pass in flight, always has a live worker: "settled" is answered only with the
  // worker idle and the slot empty.
  lemma {:induction false} SettledMeansIdleAndEmpty(es: seq<Event>, n: nat)
    requires n <= |es| && Settled(At(es, n))
    ensures At(es, n).pending == None && At(es, n).running == None
  {
    InvHolds(es, n);
  }

  // What an ending drops never runs.
  lemma DroppedNeverRuns(es: seq<Event>, i: nat, n: nat, r: Request)
    requires i < n <= |es| && es[i].SettleBegins?
    requires At(es, i).pending == Some(r) && r.kind != Disconnect
    ensures var s := At(es, n);
            !HasRun(s.ran, r.id) && r.id !in IdsOf(s.running) && r.id !in IdsOf(s.pending)
  {
    RunsOnward(es, i + 1, n);
    InvHolds(es, n);
    GoneNeverRuns(At(es, n), r.id);
  }

  lemma GoneNeverRuns(s: State, id: nat)
    requires Inv(s) && id in s.gone
    ensures !HasRun(s.ran, id) && id !in IdsOf(s.running) && id !in IdsOf(s.pending)
  {
  }

  // A new request takes the slot from one that asks no more, unless it is refused: after Quit has closed the slot, or a
  // connect of a signed-out account.
  predicate TakesSlot(s: State, e: Event, r: Request) {
    e.Submit? && !s.quitting && (IsConnect(e.kind) ==> s.loggedIn) && Rank(r.kind) <= Rank(e.kind)
  }

  // A pending request is taken out of the slot unrun: by a newer one, a row click's cancel, a sign-out, or an ending
  // that does not keep it.
  predicate Evicts(s: State, e: Event, r: Request) {
    || TakesSlot(s, e, r)
    || (e.CancelRowConnect? && r.rowClick)
    || (e.SignOutClears? && !s.uiHeld)
    || (e.SettleBegins? && r.kind != Disconnect)
  }

  ghost predicate Evicted(es: seq<Event>, i: nat, n: nat, r: Request)
    requires i <= n <= |es|
  {
    exists k | i <= k < n :: At(es, k).pending == Some(r) && Evicts(At(es, k), es[k], r)
  }

  // Where a request can be that nothing has evicted.
  ghost predicate OnItsWay(s: State, r: Request) {
    s.pending == Some(r) || s.running == Some(r) || r in s.ran
  }

  // The pending request covers exactly the ones that ask less.
  lemma CoversLess(s: State, e: Event)
    requires e.Submit? && s.pending.Some?
    ensures !Refused(s, e.kind) && !Covered(s.pending, e.kind) <==> TakesSlot(s, e, s.pending.value)
  {
  }

  lemma OneStepOnItsWay(s: State, e: Event, r: Request)
    requires OnItsWay(s, r)
    ensures s.pending == Some(r) && Evicts(s, e, r) ==> r.id in Step(s, e).gone
    ensures !(s.pending == Some(r) && Evicts(s, e, r)) ==> OnItsWay(Step(s, e), r)
  {
    hide Rank, IsConnect, Covered;
    if s.running == Some(r) && e.PassEnds? {
      assert Step(s, e).ran[|s.ran|] == r;
    } else if e.Submit? && s.pending == Some(r) {
      CoversLess(s, e);
    }
  }

  lemma EvictedNext(es: seq<Event>, i: nat, n: nat, r: Request)
    requires i < n <= |es|
    ensures Evicted(es, i, n, r) <==>
            Evicted(es, i, n - 1, r) || (At(es, n - 1).pending == Some(r) && Evicts(At(es, n - 1), es[n - 1], r))
  {
    hide At, Evicts;
  }

  // One more event, for a request evicted or on its way so far.
  lemma WhereNext(es: seq<Event>, i: nat, n: nat, r: Request)
    requires i < n <= |es|
    requires if Evicted(es, i, n - 1, r) then r.id in At(es, n - 1).gone else OnItsWay(At(es, n - 1), r)
    ensures if Evicted(es, i, n, r) then r.id in At(es, n).gone else OnItsWay(At(es, n), r)
  {
    hide Step, Evicts, Evicted, OnItsWay;
    var k: nat := n - 1;
    EvictedNext(es, i, n, r);
    StepsOnward(At(es, k), es[k]);
    if !Evicted(es, i, k, r) {
      OneStepOnItsWay(At(es, k), es[k], r);
    }
  }

  lemma {:induction false} WhereTheRequestIs(es: seq<Event>, i: nat, n: nat, r: Request)
    requires i <= n <= |es| && At(es, i).pending == Some(r)
    ensures if Evicted(es, i, n, r) then r.id in At(es, n).gone else OnItsWay(At(es, n), r)
    decreases n
  {
    hide At, Step, Evicts;
    if i < n {
      WhereTheRequestIs(es, i, n - 1, r);
      WhereNext(es, i, n, r);
    }
  }

  // A request in the slot has run when the worker settles, exactly unless a newer one that asks no less, its cancel, a
  // sign-out or an ending took it out. So no ensure and no provider reconcile ever costs the user a connect or a
  // Disconnect.
  lemma {:induction false} RequestRunsExactly(es: seq<Event>, i: nat, n: nat, r: Request)
    requires i <= n <= |es| && At(es, i).pending == Some(r) && Settled(At(es, n))
    ensures HasRun(At(es, n).ran, r.id) <==> !Evicted(es, i, n, r)
  {
    hide At, Evicted;
    WhereTheRequestIs(es, i, n, r);
    InvHolds(es, n);
  }

  lemma RowClickStep(s: State, e: Event)
    requires e.Submit? && e.rowClick ==> IsConnect(e.kind)
    requires s.pending.Some? && s.pending.value.rowClick ==> IsConnect(s.pending.value.kind)
    ensures var t := Step(s, e); t.pending.Some? && t.pending.value.rowClick ==> IsConnect(t.pending.value.kind)
  {
    hide IsConnect, Covered, Refused, KeepsQueued;
  }

  lemma {:induction false} NotARowClick(es: seq<Event>, n: nat)
    requires n <= |es| && RowClicksConnect(es)
    ensures At(es, n).pending.Some? && At(es, n).pending.value.rowClick ==> IsConnect(At(es, n).pending.value.kind)
  {
    hide Step, IsConnect;
    assert START.pending.None?;
    if n > 0 {
      NotARowClick(es, n - 1);
      RowClickStep(At(es, n - 1), es[n - 1]);
    }
  }

  // A Disconnect in the slot when an ending begins has run when the worker settles, exactly unless another
  // Disconnect, or a connect of a signed-in account, replaced it while it waited.
  lemma {:induction false} DisconnectRunsBeforeSettling(es: seq<Event>, i: nat, n: nat, d: Request)
    requires i <= n <= |es| && RowClicksConnect(es) && At(es, i).uiHeld
    requires At(es, i).pending == Some(d) && d.kind == Disconnect && Settled(At(es, n))
    ensures HasRun(At(es, n).ran, d.id) <==>
            !exists k | i <= k < n :: At(es, k).pending == Some(d) && TakesSlot(At(es, k), es[k], d)
  {
    hide At, TakesSlot;
    NotARowClick(es, i);
    RequestRunsExactly(es, i, n, d);
    forall k | i <= k < n ensures Evicts(At(es, k), es[k], d) <==> TakesSlot(At(es, k), es[k], d) {
      RunsOnward(es, i, k);
    }
  }

  // After Quit has closed the slot nothing replaces it: it has always run.
  lemma DisconnectRunsBeforeQuitting(es: seq<Event>, i: nat, n: nat, d: Request)
    requires i <= n <= |es| && RowClicksConnect(es) && At(es, i).quitting
    requires At(es, i).pending == Some(d) && d.kind == Disconnect && Settled(At(es, n))
    ensures HasRun(At(es, n).ran, d.id)
  {
    hide At;
    InvHolds(es, i);
    DisconnectRunsBeforeSettling(es, i, n, d);
    forall k | i <= k < n ensures !TakesSlot(At(es, k), es[k], d) {
      RunsOnward(es, i, k);
    }
  }
}
