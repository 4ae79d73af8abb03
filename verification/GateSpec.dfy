// The gate a running instance puts in front of the launches redirected to it, as a value: one function for each
// section its methods run under the lock (app/src/Common/InstanceHandover.h).
module GateSpec {
  type LaunchId = id: int | 0 < id witness 1

  datatype Outcome = Served | Refused | Undecided

  datatype Phase = Starting | Open | Closed

  datatype Launch = Launch(posted: bool, outcome: Outcome, abandoned: bool)

  datatype Gate = Gate(phase: Phase, lastId: nat, launches: map<LaunchId, Launch>, raised: bool)

  const NEW_GATE: Gate := Gate(Starting, 0, map[], false)

  // Take's entry: turned away at a closed gate, otherwise registered under the next id.
  function Arrived(g: Gate): Gate {
    if g.phase == Closed then g
    else
      var id := g.lastId + 1;
      g.(lastId := id, launches := g.launches[id := Launch(g.phase == Open, Undecided, false)])
  }

  // Open's section. The launches it takes are served in the order of their ids.
  function Opened(g: Gate): Gate {
    if g.phase != Starting then g
    else g.(phase := Open,
            launches := map id | id in g.launches && !g.launches[id].abandoned :: g.launches[id].(outcome := Served))
  }

  // The launches Open takes: those still registered, by id.
  function Held(g: Gate): seq<LaunchId> {
    if g.phase != Starting then [] else HeldUpTo(g, g.lastId)
  }

  function HeldUpTo(g: Gate, n: nat): seq<LaunchId> {
    if n == 0 then []
    else if n in g.launches then HeldUpTo(g, n - 1) + [n]
    else HeldUpTo(g, n - 1)
  }

  function Raised(g: Gate): Gate {
    g.(raised := true)
  }

  function Refusing(launch: Launch): Launch {
    if launch.outcome == Undecided then launch.(outcome := Refused) else launch
  }

  // Close's section, after the signal is raised.
  function ShutDown(g: Gate): Gate {
    if g.phase == Closed then g
    else g.(phase := Closed,
            launches := map id | id in g.launches && !(g.launches[id].abandoned && !g.launches[id].posted)
                          :: Refusing(g.launches[id]))
  }

  // ServePosted's section: whether the UI thread acts on the launch.
  predicate Serves(g: Gate, id: LaunchId) {
    id in g.launches && g.launches[id].outcome == Undecided
  }

  function PostedRan(g: Gate, id: LaunchId): Gate {
    if id !in g.launches then g
    else if g.launches[id].abandoned then g.(launches := g.launches - {id})
    else if Serves(g, id) then g.(launches := g.launches[id := g.launches[id].(outcome := Served)])
    else g
  }

  // The end of Await: what it returns, and the entry it leaves behind.
  function Decided(g: Gate, id: LaunchId): Gate
    requires id in g.launches
  {
    if g.launches[id].outcome == Undecided
    then g.(launches := g.launches[id := g.launches[id].(abandoned := true)])
    else g.(launches := g.launches - {id})
  }
}
