// The gate as an object: the sections its methods run under the lock, over the map of launches they share
// (app/src/Common/InstanceHandover.h).
module ActivationGate {
  import opened Options
  import opened GateSpec

  class ActivationGate {
    var phase: Phase
    var lastId: nat
    var launches: map<LaunchId, Launch>
    // the exiting signal
    var raised: bool

    function State(): Gate
      reads this
    {
      Gate(phase, lastId, launches, raised)
    }

    ghost predicate Valid()
      reads this
    {
      forall id | id in launches :: id <= lastId
    }

    constructor ()
      ensures Valid() && State() == NEW_GATE
    {
      phase, lastId, launches, raised := Starting, 0, map[], false;
    }

    method Arrive() returns (id: Option<LaunchId>)
      requires Valid()
      modifies this
      ensures Valid() && State() == Arrived(old(State()))
      ensures id == if old(phase) == Closed then None else Some(lastId)
    {
      if phase == Closed {
        return None;
      }
      lastId := lastId + 1;
      launches := launches[lastId := Launch(phase == Phase.Open, Undecided, false)];
      return Some(lastId);
    }

    method Open() returns (held: seq<LaunchId>)
      requires Valid()
      modifies this
      ensures Valid() && State() == Opened(old(State())) && held == GateSpec.Held(old(State()))
    {
      held := [];
      if phase != Starting {
        return;
      }
      phase := Phase.Open;
      ghost var g := old(State());
      for n := 1 to lastId + 1
        invariant lastId == old(lastId) && phase == Phase.Open && raised == old(raised)
        invariant forall id :: id in launches <==> id in g.launches && (id < n ==> !g.launches[id].abandoned)
        invariant forall id | id in launches ::
            launches[id] == if id < n then g.launches[id].(outcome := Served) else g.launches[id]
        invariant held == HeldUpTo(g, n - 1)
      {
        if n in launches {
          held := held + [n];
          launches := if launches[n].abandoned then launches - {n}
                      else launches[n := launches[n].(outcome := Served)];
        }
      }
    }

    method RaiseExitingSignal()
      modifies this`raised
      ensures State() == Raised(old(State()))
    {
      raised := true;
    }

    method Close()
      requires Valid()
      modifies this
      ensures Valid() && State() == ShutDown(old(State()))
    {
      if phase == Closed {
        return;
      }
      phase := Closed;
      ghost var g := old(State());
      for n := 1 to lastId + 1
        invariant lastId == old(lastId) && phase == Closed && raised == old(raised)
        invariant forall id :: id in launches <==>
            id in g.launches && (id < n ==> !(g.launches[id].abandoned && !g.launches[id].posted))
        invariant forall id | id in launches ::
            launches[id] == if id < n then Refusing(g.launches[id]) else g.launches[id]
      {
        if n in launches {
          if launches[n].outcome == Undecided {
            launches := launches[n := launches[n].(outcome := Refused)];
          }
          if launches[n].abandoned && !launches[n].posted {
            launches := launches - {n};
          }
        }
      }
    }

    method ServePosted(id: LaunchId) returns (serve: bool)
      requires Valid()
      modifies this`launches
      ensures Valid() && State() == PostedRan(old(State()), id) && serve == Serves(old(State()), id)
    {
      if id !in launches {
        return false;
      }
      serve := launches[id].outcome == Undecided;
      if serve {
        launches := launches[id := launches[id].(outcome := Served)];
      }
      if launches[id].abandoned {
        launches := launches - {id};
      }
    }

    method FinishAwait(id: LaunchId) returns (outcome: Outcome)
      requires Valid() && id in launches
      modifies this`launches
      ensures Valid() && State() == Decided(old(State()), id) && outcome == old(launches)[id].outcome
    {
      outcome := launches[id].outcome;
      if outcome == Undecided {
        launches := launches[id := launches[id].(abandoned := true)];
      } else {
        launches := launches - {id};
      }
    }
  }
}
