// The evidence a session gathers before it may capture traffic, as a value (app/src/Service/CaptureReadiness.h),
// and what every run of its operations keeps. Every operation is atomic and carries the clock's reading.
module CaptureSpec {
  import opened Options

  datatype Window = Window(generation: int, added: int)

  datatype Ticket = Ticket(revision: nat, generation: int, sampled: int)

  datatype Sample = Sample(revision: nat, proofSince: int, started: int)

  datatype NetworkEpoch = NetworkEpoch(revision: nat, millis: int)

  datatype State = State(
    revision: nat,
    generation: int,
    proofSince: int,
    networkRevision: nat,
    handled: nat,
    sampled: int,
    proven: bool,
    cancelled: bool,
    active: bool)

  const INITIAL: State := State(0, 0, -1, 0, 0, 0, false, false, false)

  datatype Op =
    | Invalidate(generation: int)
    | NetworkChanged(at: int)
    | ProofBarrier(at: int)
    | BeginSample
    | CompleteSample(sample: Sample, before: Window, after: Window, usable: int)
    | PeekNetwork
    | NetworkHandled(event: NetworkEpoch)
    | Commit(ticket: Ticket)
    | Cancel

  // An operation and the clock when it runs.
  datatype Timed = Timed(op: Op, now: int)

  function Max(a: int, b: int): int {
    if a < b then b else a
  }

  predicate Fresh(freshness: int, sampled: int, now: int) {
    0 <= now - sampled <= freshness
  }

  function SampleOf(s: State, now: int): Sample {
    Sample(s.revision, s.proofSince, now)
  }

  predicate Proves(freshness: int, s: State, sample: Sample, before: Window, after: Window, usable: int, now: int) {
    && before.generation == after.generation && after.generation >= s.generation && after.generation > 0
    && before.added > 0 && after.added > 0 && usable > 0
    && Fresh(freshness, sample.started, now)
  }

  function Completed(freshness: int, s: State, sample: Sample, before: Window, after: Window, usable: int, now: int)
    : State
  {
    if s.cancelled || s.active || sample.revision != s.revision then s
    else
      var proven := Proves(freshness, s, sample, before, after, usable, now);
      var moved := s.generation != after.generation || s.proven != proven;
      s.(revision := if moved then s.revision + 1 else s.revision,
         generation := Max(Max(s.generation, before.generation), after.generation),
         proven := proven, sampled := sample.started)
  }

  predicate Current(freshness: int, s: State, ticket: Ticket, now: int) {
    && !s.cancelled && !s.active && s.proven
    && ticket.revision == s.revision && ticket.generation == s.generation
    && Fresh(freshness, ticket.sampled, now)
  }

  function Ready(freshness: int, s: State, now: int): Option<Ticket> {
    if s.cancelled || s.active || !s.proven || !Fresh(freshness, s.sampled, now) then None
    else Some(Ticket(s.revision, s.generation, s.sampled))
  }

  function PendingNetworkEvent(s: State): Option<NetworkEpoch> {
    if s.cancelled || s.networkRevision == s.handled then None
    else Some(NetworkEpoch(s.networkRevision, s.proofSince))
  }

  function Step(freshness: int, s: State, op: Op, now: int): State {
    match op
    case Invalidate(generation) =>
      if generation < s.generation then s
      else s.(generation := generation, revision := s.revision + 1, proven := false)
    case NetworkChanged(at) =>
      s.(proofSince := Max(s.proofSince, at), networkRevision := s.networkRevision + 1, revision := s.revision + 1,
         proven := false)
    case ProofBarrier(at) => s.(proofSince := Max(s.proofSince, at), revision := s.revision + 1, proven := false)
    case BeginSample => s
    case CompleteSample(sample, before, after, usable) => Completed(freshness, s, sample, before, after, usable, now)
    case PeekNetwork => s
    case NetworkHandled(event) =>
      if s.handled < event.revision <= s.networkRevision then s.(handled := event.revision) else s
    case Commit(ticket) => if Current(freshness, s, ticket, now) then s.(active := true) else s
    case Cancel => s.(cancelled := true, proven := false, revision := s.revision + 1)
  }

  // The state after the first n operations of a run.
  function At(freshness: int, es: seq<Timed>, n: nat): State
    requires n <= |es|
  {
    if n == 0 then INITIAL else Step(freshness, At(freshness, es, n - 1), es[n - 1].op, es[n - 1].now)
  }

  ghost predicate ClockSteady(es: seq<Timed>) {
    forall i, j | 0 <= i <= j < |es| :: es[i].now <= es[j].now
  }

  // The operations that turn earlier proof away.
  predicate Barrier(s: State, op: Op) {
    match op
    case Invalidate(generation) => generation >= s.generation
    case NetworkChanged(at) => true
    case ProofBarrier(at) => true
    case Cancel => true
    case _ => false
  }

  // ---- tickets ----

  // A ticket that cannot be current, now or after any operation: it is from a past revision or an expired
  // sample, or the session is cancelled, committed or unproven at the ticket's own revision.
  predicate Dead(freshness: int, s: State, ticket: Ticket, now: int) {
    ticket.revision <= s.revision && ticket.sampled <= now && !Current(freshness, s, ticket, now)
  }

  lemma StaysDead(freshness: int, s: State, ticket: Ticket, seen: int, op: Op, now: int)
    requires Dead(freshness, s, ticket, seen) && seen <= now
    ensures Dead(freshness, Step(freshness, s, op, now), ticket, now)
    ensures forall later | now <= later :: Dead(freshness, s, ticket, later)
  {
  }

  // Once a ticket is not current it never is again, whatever operations follow.
  lemma {:induction false} TicketsNeverRevive(freshness: int, es: seq<Timed>, i: nat, j: nat, ticket: Ticket,
                                              seen: int, now: int)
    requires i <= j <= |es| && ClockSteady(es)
    requires Dead(freshness, At(freshness, es, i), ticket, seen)
    requires forall k | i <= k < j :: seen <= es[k].now <= now
    requires seen <= now
    ensures Dead(freshness, At(freshness, es, j), ticket, now)
    decreases j
  {
    if i < j {
      var last := es[j - 1].now;
      TicketsNeverRevive(freshness, es, i, j - 1, ticket, seen, last);
      StaysDead(freshness, At(freshness, es, j - 1), ticket, last, es[j - 1].op, last);
      StaysDead(freshness, At(freshness, es, j), ticket, last, BeginSample, now);
    } else {
      StaysDead(freshness, At(freshness, es, i), ticket, seen, BeginSample, now);
    }
  }

  lemma StepsOnward(freshness: int, s: State, op: Op, now: int)
    ensures var t := Step(freshness, s, op, now);
            && s.revision <= t.revision && s.generation <= t.generation && s.proofSince <= t.proofSince
            && s.networkRevision <= t.networkRevision && s.handled <= t.handled
            && (s.cancelled ==> t.cancelled) && (s.active ==> t.active)
            && (Barrier(s, op) ==> s.revision < t.revision)
  {
    hide Proves, Current;
  }

  lemma {:induction false} NothingRunsBack(freshness: int, es: seq<Timed>, i: nat, j: nat)
    requires i <= j <= |es|
    ensures var s, t := At(freshness, es, i), At(freshness, es, j);
            && s.revision <= t.revision && s.generation <= t.generation && s.proofSince <= t.proofSince
            && s.networkRevision <= t.networkRevision && s.handled <= t.handled
            && (s.cancelled ==> t.cancelled) && (s.active ==> t.active)
    decreases j
  {
    hide Step;
    if i < j {
      NothingRunsBack(freshness, es, i, j - 1);
      StepsOnward(freshness, At(freshness, es, j - 1), es[j - 1].op, es[j - 1].now);
    }
  }

  // A ticket handed out at i and not current at j is not current at any k after it.
  lemma IssuedTicketNeverRevives(freshness: int, es: seq<Timed>, i: nat, j: nat, k: nat, ticket: Ticket)
    requires i <= j <= k < |es| && ClockSteady(es)
    requires Ready(freshness, At(freshness, es, i), es[i].now) == Some(ticket)
    requires !Current(freshness, At(freshness, es, j), ticket, es[j].now)
    ensures !Current(freshness, At(freshness, es, k), ticket, es[k].now)
  {
    NothingRunsBack(freshness, es, i, j);
    TicketsNeverRevive(freshness, es, j, k, ticket, es[j].now, es[k].now);
  }

  // Cancellation is permanent: nothing is ready, current, committed or pending afterwards.
  lemma {:induction false} CancelIsAbsorbing(freshness: int, es: seq<Timed>, i: nat, n: nat, ticket: Ticket, now: int)
    requires i < n <= |es| && es[i].op.Cancel?
    ensures var s := At(freshness, es, n);
            && s.cancelled && Ready(freshness, s, now) == None && !Current(freshness, s, ticket, now)
            && Step(freshness, s, Commit(ticket), now) == s && PendingNetworkEvent(s) == None
  {
    NothingRunsBack(freshness, es, i + 1, n);
  }

  // ---- the witness of readiness ----

  // Every completed sample was begun by an earlier operation of the run.
  ghost predicate SamplesBegun(freshness: int, es: seq<Timed>) {
    forall m | 0 <= m < |es| && es[m].op.CompleteSample? :: exists k :: Begun(freshness, es, k, m, es[m].op.sample)
  }

  ghost predicate Begun(freshness: int, es: seq<Timed>, k: nat, m: nat, sample: Sample)
    requires m <= |es|
  {
    k < m && es[k].op.BeginSample? && sample == SampleOf(At(freshness, es, k), es[k].now)
  }

  ghost predicate NoBarrier(freshness: int, es: seq<Timed>, from: nat, to: nat)
    requires to <= |es|
  {
    forall b | from <= b < to :: !Barrier(At(freshness, es, b), es[b].op)
  }

  // The sample begun at k and completed at m: no barrier since it began, one generation before and after, not
  // since retired, providers added before and after, and a usable one proven.
  ghost predicate Witness(freshness: int, es: seq<Timed>, n: nat, k: nat, m: nat)
    requires n <= |es|
  {
    && k < m < n && es[k].op.BeginSample? && es[m].op.CompleteSample?
    && NoBarrier(freshness, es, k, n)
    && var op := es[m].op;
       && op.sample == SampleOf(At(freshness, es, k), es[k].now)
       && op.before.generation == op.after.generation == At(freshness, es, n).generation > 0
       && op.before.added > 0 && op.after.added > 0 && op.usable > 0
  }

  lemma {:induction false} SameRevisionNoBarrier(freshness: int, es: seq<Timed>, k: nat, m: nat)
    requires k <= m <= |es| && At(freshness, es, k).revision == At(freshness, es, m).revision
    ensures NoBarrier(freshness, es, k, m)
  {
    hide Step, Barrier;
    forall b | k <= b < m ensures !Barrier(At(freshness, es, b), es[b].op) {
      NothingRunsBack(freshness, es, k, b);
      StepsOnward(freshness, At(freshness, es, b), es[b].op, es[b].now);
      NothingRunsBack(freshness, es, b + 1, m);
    }
  }

  lemma NoBarrierNext(freshness: int, es: seq<Timed>, k: nat, n: nat)
    requires k < n <= |es| && NoBarrier(freshness, es, k, n - 1)
    requires !Barrier(At(freshness, es, n - 1), es[n - 1].op)
    ensures NoBarrier(freshness, es, k, n)
  {
    hide At, Barrier;
  }

  lemma {:induction false} ProvenHasWitness(freshness: int, es: seq<Timed>, n: nat) returns (k: nat, m: nat)
    requires n <= |es| && SamplesBegun(freshness, es) && At(freshness, es, n).proven
    ensures Witness(freshness, es, n, k, m) && At(freshness, es, n).sampled == es[k].now
  {
    hide NoBarrier;
    var s, last: nat := At(freshness, es, n - 1), n - 1;
    var op := es[last].op;
    if op.CompleteSample? && !s.cancelled && !s.active && op.sample.revision == s.revision {
      m := last;
      k :| Begun(freshness, es, k, m, op.sample);
      SameRevisionNoBarrier(freshness, es, k, m);
    } else {
      assert !Barrier(s, op);
      k, m := ProvenHasWitness(freshness, es, last);
    }
    NoBarrierNext(freshness, es, k, n);
  }

  lemma {:induction false} EpochKeptWithoutBarrier(freshness: int, es: seq<Timed>, k: nat, n: nat)
    requires k <= n <= |es| && NoBarrier(freshness, es, k, n)
    ensures At(freshness, es, n).proofSince == At(freshness, es, k).proofSince
    decreases n
  {
    if k < n {
      EpochKeptWithoutBarrier(freshness, es, k, n - 1);
      assert !Barrier(At(freshness, es, n - 1), es[n - 1].op);
    }
  }

  // A ready session always has a witness, begun after the last barrier and no older than the freshness window; its
  // exits were counted against the proof epoch still in force.
  lemma ReadyHasWitness(freshness: int, es: seq<Timed>, n: nat, now: int) returns (k: nat, m: nat)
    requires n <= |es| && SamplesBegun(freshness, es) && Ready(freshness, At(freshness, es, n), now).Some?
    ensures Witness(freshness, es, n, k, m) && 0 <= now - es[k].now <= freshness
    ensures Ready(freshness, At(freshness, es, n), now).value.sampled == es[k].now
    ensures es[m].op.sample.proofSince == At(freshness, es, n).proofSince
  {
    k, m := ProvenHasWitness(freshness, es, n);
    EpochKeptWithoutBarrier(freshness, es, k, n);
  }

  // A completed sample that is not stale: the evidence's revision is the one it was begun at.
  predicate Counts(freshness: int, es: seq<Timed>, j: nat)
    requires j < |es|
  {
    es[j].op.CompleteSample? && es[j].op.sample.revision == At(freshness, es, j).revision
  }

  // The sample begun at k and completed at m proves the session, and nothing since has undone or replaced it: it is not
  // stale, it took no longer than the freshness window, one unretired generation held before and after it with a
  // provider added each time, and at least one provider was usable and proven.
  ghost predicate ProvedBy(freshness: int, es: seq<Timed>, n: nat, k: nat, m: nat)
    requires n <= |es|
  {
    && k < m < n && es[k].op.BeginSample? && Counts(freshness, es, m)
    && es[m].op.sample == SampleOf(At(freshness, es, k), es[k].now)
    && 0 <= es[m].now - es[k].now <= freshness
    && es[m].op.before.generation == es[m].op.after.generation >= 1
    && es[m].op.after.generation >= At(freshness, es, m).generation
    && es[m].op.before.added >= 1 && es[m].op.after.added >= 1 && es[m].op.usable >= 1
    && NoBarrier(freshness, es, m, n) && forall j: nat | m < j < n :: !Counts(freshness, es, j)
  }

  lemma {:induction false} CancelledIsUnproven(freshness: int, es: seq<Timed>, n: nat)
    requires n <= |es|
    ensures At(freshness, es, n).cancelled ==> !At(freshness, es, n).proven
  {
    hide Proves, Current;
    if n > 0 {
      CancelledIsUnproven(freshness, es, n - 1);
    }
  }

  lemma {:induction false} ProvenHasProof(freshness: int, es: seq<Timed>, n: nat) returns (k: nat, m: nat)
    requires n <= |es| && SamplesBegun(freshness, es) && At(freshness, es, n).proven
    requires !At(freshness, es, n).active
    ensures ProvedBy(freshness, es, n, k, m) && At(freshness, es, n).sampled == es[k].now
  {
    hide NoBarrier;
    var s, last: nat := At(freshness, es, n - 1), n - 1;
    CancelledIsUnproven(freshness, es, last);
    if Counts(freshness, es, last) {
      m := last;
      k :| Begun(freshness, es, k, m, es[m].op.sample);
      SameRevisionNoBarrier(freshness, es, m, m);
    } else {
      assert !Barrier(s, es[last].op);
      k, m := ProvenHasProof(freshness, es, last);
    }
    NoBarrierNext(freshness, es, m, n);
  }

  lemma {:induction false} ProofProves(freshness: int, es: seq<Timed>, n: nat, k: nat, m: nat)
    requires n <= |es| && ProvedBy(freshness, es, n, k, m)
    requires !At(freshness, es, n).active && !At(freshness, es, n).cancelled
    ensures At(freshness, es, n).proven && At(freshness, es, n).sampled == es[k].now
    decreases n
  {
    if m < n - 1 {
      ProofProves(freshness, es, n - 1, k, m);
      assert !Counts(freshness, es, n - 1) && !Barrier(At(freshness, es, n - 1), es[n - 1].op);
    }
  }

  ghost predicate ProvedFreshly(freshness: int, es: seq<Timed>, n: nat, k: nat, m: nat, now: int)
    requires n <= |es|
  {
    ProvedBy(freshness, es, n, k, m) && 0 <= now - es[k].now <= freshness
  }

  // A session is ready exactly while it is neither cancelled nor committed and some sample that proves it, undone and
  // replaced by nothing since, was begun within the freshness window; and the ticket it hands out is current.
  lemma ReadyExactly(freshness: int, es: seq<Timed>, n: nat, now: int)
    requires n <= |es| && SamplesBegun(freshness, es)
    ensures var s := At(freshness, es, n);
            Ready(freshness, s, now).Some? <==>
            && !s.cancelled && !s.active
            && exists k: nat, m: nat :: ProvedFreshly(freshness, es, n, k, m, now)
    ensures var s := At(freshness, es, n);
            Ready(freshness, s, now).Some? ==> Current(freshness, s, Ready(freshness, s, now).value, now)
  {
    hide At;
    var s := At(freshness, es, n);
    if Ready(freshness, s, now).Some? {
      var k, m := ProvenHasProof(freshness, es, n);
      assert ProvedFreshly(freshness, es, n, k, m, now);
    } else if !s.cancelled && !s.active {
      forall k: nat, m: nat ensures !ProvedFreshly(freshness, es, n, k, m, now) {
        if ProvedBy(freshness, es, n, k, m) {
          ProofProves(freshness, es, n, k, m);
        }
      }
    }
  }

  // ---- network events ----

  // The event at c was covered: a notification sampled after it was completed.
  ghost predicate Covered(freshness: int, es: seq<Timed>, n: nat, c: nat)
    requires n <= |es|
  {
    exists p, h :: c < p < h < n && Handles(freshness, es, p, h)
  }

  ghost predicate Uncovered(freshness: int, es: seq<Timed>, n: nat, c: nat)
    requires n <= |es|
  {
    c < n && es[c].op.NetworkChanged? && !Covered(freshness, es, n, c)
  }

  // The notification sampled at p was completed at h.
  ghost predicate Handles(freshness: int, es: seq<Timed>, p: nat, h: nat) {
    && p < h < |es| && es[p].op.PeekNetwork? && es[h].op.NetworkHandled?
    && PendingNetworkEvent(At(freshness, es, p)) == Some(es[h].op.event)
  }

  // Every completed notification was sampled by an earlier operation of the run.
  ghost predicate EventsPeeked(freshness: int, es: seq<Timed>) {
    forall h | 0 <= h < |es| && es[h].op.NetworkHandled? :: exists p :: Handles(freshness, es, p, h)
  }

  // Where the handled revision comes from.
  lemma {:induction false} HandledFromPeek(freshness: int, es: seq<Timed>, n: nat) returns (p: nat, h: nat)
    requires n <= |es| && EventsPeeked(freshness, es) && At(freshness, es, n).handled > 0
    ensures Handles(freshness, es, p, h) && h < n
    ensures At(freshness, es, n).handled == At(freshness, es, p).networkRevision
  {
    var s, last: nat := At(freshness, es, n - 1), n - 1;
    var op := es[last].op;
    if op.NetworkHandled? && s.handled < op.event.revision <= s.networkRevision {
      h := last;
      p :| Handles(freshness, es, p, h);
    } else {
      p, h := HandledFromPeek(freshness, es, last);
    }
  }

  lemma {:induction false} LastChange(freshness: int, es: seq<Timed>, n: nat) returns (c: nat)
    requires n <= |es| && At(freshness, es, n).networkRevision > 0
    ensures c < n && es[c].op.NetworkChanged?
    ensures At(freshness, es, c + 1).networkRevision == At(freshness, es, n).networkRevision
  {
    c := n - 1;
    if !es[c].op.NetworkChanged? {
      c := LastChange(freshness, es, c);
    }
  }

  lemma {:induction false} HandledIsPast(freshness: int, es: seq<Timed>, n: nat)
    requires n <= |es|
    ensures At(freshness, es, n).handled <= At(freshness, es, n).networkRevision
  {
    hide Proves, Current;
    if n > 0 {
      HandledIsPast(freshness, es, n - 1);
    }
  }

  lemma HandledReachesPeek(freshness: int, es: seq<Timed>, p: nat, h: nat, n: nat)
    requires p < h < n <= |es| && Handles(freshness, es, p, h)
    ensures At(freshness, es, n).handled >= At(freshness, es, p).networkRevision
  {
    NothingRunsBack(freshness, es, p, h);
    NothingRunsBack(freshness, es, h + 1, n);
  }

  lemma CoveredOnceHandled(freshness: int, es: seq<Timed>, n: nat, c: nat)
    requires c < n <= |es| && EventsPeeked(freshness, es) && es[c].op.NetworkChanged?
    requires At(freshness, es, n).networkRevision == At(freshness, es, n).handled
    ensures Covered(freshness, es, n, c)
  {
    NothingRunsBack(freshness, es, c + 1, n);
    var p, h := HandledFromPeek(freshness, es, n);
    if p <= c {
      NothingRunsBack(freshness, es, p, c);
    }
  }

  lemma UncoveredWhilePending(freshness: int, es: seq<Timed>, n: nat) returns (c: nat)
    requires n <= |es| && At(freshness, es, n).networkRevision > At(freshness, es, n).handled
    ensures Uncovered(freshness, es, n, c)
  {
    c := LastChange(freshness, es, n);
    forall p, h | c < p < h < n && Handles(freshness, es, p, h) ensures false {
      NothingRunsBack(freshness, es, c + 1, p);
      HandledReachesPeek(freshness, es, p, h, n);
    }
  }

  // No network change is lost and none is replayed for nothing: an event is pending exactly while the session is
  // not cancelled and some change has had no notification that was sampled after it and completed.
  lemma PendingExactlyWhileUncovered(freshness: int, es: seq<Timed>, n: nat)
    requires n <= |es| && EventsPeeked(freshness, es)
    ensures PendingNetworkEvent(At(freshness, es, n)).Some?
            <==> !At(freshness, es, n).cancelled && exists c :: Uncovered(freshness, es, n, c)
  {
    var s := At(freshness, es, n);
    if s.networkRevision != s.handled {
      HandledIsPast(freshness, es, n);
      var c := UncoveredWhilePending(freshness, es, n);
    } else {
      forall c: nat | c < n && es[c].op.NetworkChanged? ensures Covered(freshness, es, n, c) {
        CoveredOnceHandled(freshness, es, n, c);
      }
    }
  }

  // ---- the proof epoch ----

  // The epoch never falls behind a network change or a stall.
  lemma {:induction false} EpochReachesEveryBarrier(freshness: int, es: seq<Timed>, b: nat, n: nat)
    requires b < n <= |es| && (es[b].op.NetworkChanged? || es[b].op.ProofBarrier?)
    ensures es[b].op.at <= At(freshness, es, n).proofSince
  {
    NothingRunsBack(freshness, es, b + 1, n);
  }

  // How many network changes there have been.
  function Changes(es: seq<Timed>, n: nat): nat
    requires n <= |es|
  {
    if n == 0 then 0 else Changes(es, n - 1) + if es[n - 1].op.NetworkChanged? then 1 else 0
  }

  // A network change or a stall before n.
  predicate IsMark(es: seq<Timed>, b: nat, n: nat)
    requires n <= |es|
  {
    b < n && (es[b].op.NetworkChanged? || es[b].op.ProofBarrier?)
  }

  lemma StepMarks(freshness: int, s: State, op: Op, now: int)
    ensures var t := Step(freshness, s, op, now);
            && t.networkRevision == s.networkRevision + (if op.NetworkChanged? then 1 else 0)
            && t.proofSince
               == (if op.NetworkChanged? || op.ProofBarrier? then Max(s.proofSince, op.at) else s.proofSince)
  {
    hide Proves, Current;
  }

  // The proof epoch is the latest of all network changes and stalls, and the network revision counts the changes.
  lemma {:induction false} EpochIsLatest(freshness: int, es: seq<Timed>, n: nat)
    requires n <= |es|
    ensures var s := At(freshness, es, n);
            && s.networkRevision == Changes(es, n)
            && (s.proofSince == -1 || exists b: nat :: IsMark(es, b, n) && es[b].op.at == s.proofSince)
  {
    hide Step;
    if n > 0 {
      var before := At(freshness, es, n - 1);
      EpochIsLatest(freshness, es, n - 1);
      StepMarks(freshness, before, es[n - 1].op, es[n - 1].now);
      assert es[n - 1].op.NetworkChanged? || es[n - 1].op.ProofBarrier? ==> IsMark(es, n - 1, n);
      if b: nat :| IsMark(es, b, n - 1) && es[b].op.at == before.proofSince {
        assert IsMark(es, b, n);
      }
    }
  }

  // A pending event is the last change's: its revision is how many there have been, and its time is the latest of all
  // changes and stalls.
  lemma {:induction false} PendingEventExactly(freshness: int, es: seq<Timed>, n: nat)
    requires n <= |es| && PendingNetworkEvent(At(freshness, es, n)).Some?
    ensures var e := PendingNetworkEvent(At(freshness, es, n)).value;
            && e.revision == Changes(es, n)
            && (forall b: nat | IsMark(es, b, n) :: es[b].op.at <= e.millis)
            && (e.millis == -1 || exists b: nat :: IsMark(es, b, n) && es[b].op.at == e.millis)
  {
    hide At;
    EpochIsLatest(freshness, es, n);
    forall b: nat | IsMark(es, b, n) ensures es[b].op.at <= At(freshness, es, n).proofSince {
      EpochReachesEveryBarrier(freshness, es, b, n);
    }
  }

  // The settings' whole-second age, as the sampler reads it.
  predicate ProofAfterNetworkChange(ageSeconds: int, sampled: int, changed: int, resolution: int) {
    changed < 0 ||
    var slack := Max(resolution, 0);
    var elapsed := sampled - changed;
    ageSeconds >= 0 && elapsed >= slack && ageSeconds <= (elapsed - slack) / 1000
  }

  // A proof made at `proof` reads as this many seconds old, truncated.
  predicate ReadsAs(ageSeconds: int, proof: int, sampled: int, resolution: int) {
    1000 * ageSeconds <= sampled - proof < 1000 * ageSeconds + resolution
  }

  // ... and was made no longer ago than that age and the resolution.
  predicate MadeWithin(ageSeconds: int, proof: int, sampled: int, resolution: int) {
    1000 * ageSeconds <= sampled - proof <= 1000 * ageSeconds + Max(resolution, 0)
  }

  // Without a change every proof qualifies; after one, exactly a proof with an age such that no moment it can come from
  // is before the change. With a resolution those are the moments that read as this age, and all lie after the change.
  lemma QualifiesExactlyAfterChange(ageSeconds: int, sampled: int, changed: int, resolution: int)
    ensures ProofAfterNetworkChange(ageSeconds, sampled, changed, resolution) <==>
            changed < 0
            || (ageSeconds >= 0 &&
                forall proof | MadeWithin(ageSeconds, proof, sampled, resolution) :: changed <= proof)
    ensures changed >= 0 && resolution > 0 && ageSeconds >= 0 ==>
              (ProofAfterNetworkChange(ageSeconds, sampled, changed, resolution) <==>
               forall proof | ReadsAs(ageSeconds, proof, sampled, resolution) :: changed < proof)
  {
    var earliest := sampled - 1000 * ageSeconds - Max(resolution, 0);
    assert changed >= 0 && ageSeconds >= 0 ==>
        (ProofAfterNetworkChange(ageSeconds, sampled, changed, resolution) <==> changed <= earliest);
    assert MadeWithin(ageSeconds, earliest, sampled, resolution);
    assert resolution > 0 ==> ReadsAs(ageSeconds, earliest + 1, sampled, resolution);
  }
}
