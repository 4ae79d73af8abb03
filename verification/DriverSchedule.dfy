// Any schedule of the driver's lock sections, from load to unload, run on the object itself, with any number of path
// replacements under way at once: what the pool holds at every point and what an unload leaves of it
// (app/driver/Driver.c).
module DriverSchedule {
  import opened Options
  import opened DriverSpec
  import opened DriverRuns
  import opened PackedPaths
  import D = Driver

  datatype Section =
    | Notify(pid: Pid, info: Option<D.CreateInfo>, granted: bool)
    // a control code other than the path list's, with its payload
    | Control(code: D.IoControl, payload: seq<Byte>)
    // the second section of a controller's close
    | ClearAll
    | OpenBy(pid: Pid)
    | CloseBy(pid: Pid)
    // the parse of a new replacement, outside the lock
    | Parse(buf: seq<Byte>, pool: nat -> bool)
    // that replacement takes its next lock section: its clear, and then its install
    | Continue(id: nat)

  // A replacement under way: what it parsed, and whether its clear has run.
  datatype Stage = Stage(strings: Option<seq<UnicodeString>>, cleared: bool)

  // The replacements under way by their numbers, how many have been started, and the run so far.
  datatype Progress = Progress(stages: map<nat, Stage>, started: nat, events: seq<Event>)

  const LOADED := Progress(map[], 0, [])

  // The lock section a schedule's section is, if it is one.
  function EventOf(stages: map<nat, Stage>, section: Section): Option<Event> {
    match section
    case Notify(pid, info, granted) =>
      Some(if info.None? then Exit(pid)
           else Create(pid, info.value.image, info.value.parent, info.value.creator, granted))
    case Control(code, payload) => D.ControlEvent(code, payload)
    case ClearAll => Some(Clear)
    case OpenBy(pid) => Some(Open(pid))
    case CloseBy(pid) => Some(Forget(pid))
    case Parse(_, _) => None
    case Continue(id) =>
      if id !in stages then None else if stages[id].cleared then Some(Install(stages[id].strings)) else Some(Clear)
  }

  function StagesAfter(p: Progress, section: Section): map<nat, Stage> {
    match section
    case Parse(buf, pool) =>
      if D.ParseStatus(buf, pool) == D.Success then p.stages[p.started := Stage(D.Parsed(buf, pool), false)]
      else p.stages
    case Continue(id) =>
      if id !in p.stages then p.stages
      else if p.stages[id].cleared then p.stages - {id}
      else p.stages[id := p.stages[id].(cleared := true)]
    case _ => p.stages
  }

  function Advance(p: Progress, section: Section): Progress {
    var e := EventOf(p.stages, section);
    Progress(StagesAfter(p, section), if section.Parse? then p.started + 1 else p.started,
             if e.Some? then p.events + [e.value] else p.events)
  }

  function Trace(schedule: seq<Section>): Progress {
    if schedule == [] then LOADED
    else
      var last := |schedule| - 1;
      Advance(Trace(schedule[..last]), schedule[last])
  }

  lemma TraceOneMore(schedule: seq<Section>, section: Section)
    ensures Trace(schedule + [section]) == Advance(Trace(schedule), section)
  {
    assert (schedule + [section])[..|schedule|] == schedule;
  }

  lemma {:induction false} Numbered(schedule: seq<Section>)
    ensures forall id | id in Trace(schedule).stages :: id < Trace(schedule).started
  {
    if schedule != [] {
      Numbered(schedule[..|schedule| - 1]);
    }
  }

  lemma {:induction false} AtExtends(upcase: CaseTable, es: seq<Event>, more: seq<Event>, n: nat)
    requires n <= |es|
    ensures At(upcase, es + more, n) == At(upcase, es, n)
  {
    if n > 0 {
      AtExtends(upcase, es, more, n - 1);
    }
  }

  function AtEnd(upcase: CaseTable, es: seq<Event>): State {
    At(upcase, es, |es|)
  }

  lemma AtOneMore(upcase: CaseTable, es: seq<Event>, e: Event)
    ensures AtEnd(upcase, es + [e]) == Step(upcase, AtEnd(upcase, es), e)
  {
    AtExtends(upcase, es, [e], |es|);
  }

  // ---- serial schedules ----

  // Replacements made one at a time: none takes a lock section while another is between its clear and its install.
  ghost predicate Serial(schedule: seq<Section>) {
    forall n | 0 <= n < |schedule| :: TakesTurn(Trace(schedule[..n]).stages, schedule[n])
  }

  predicate TakesTurn(stages: map<nat, Stage>, section: Section) {
    section.Continue? ==> forall other | other in stages && other != section.id :: !stages[other].cleared
  }

  // A clear with no install after it.
  ghost predicate ClearStands(es: seq<Event>) {
    exists c | 0 <= c < |es| :: es[c].Clear? && forall k | c < k < |es| :: !es[k].Install?
  }

  lemma ClearStandsOn(es: seq<Event>, e: Event)
    requires e.Clear? || (ClearStands(es) && !e.Install?)
    ensures ClearStands(es + [e])
  {
    if e.Clear? {
      assert (es + [e])[|es|] == e;
    } else {
      var c :| 0 <= c < |es| && es[c].Clear? && forall k | c < k < |es| :: !es[k].Install?;
      assert (es + [e])[c] == es[c];
    }
  }

  lemma OneAtATimeExtends(es: seq<Event>, e: Event)
    requires OneAtATime(es) && (e.Install? ==> ClearStands(es))
    ensures OneAtATime(es + [e])
  {
    var more := es + [e];
    forall i | 0 <= i < |more| && more[i].Install?
      ensures exists c | 0 <= c < i :: more[c].Clear? && forall k | c < k < i :: !more[k].Install?
    {
      var c :| 0 <= c < i && es[c].Clear? && forall k | c < k < i :: !es[k].Install?;
      assert more[c].Clear? && forall k | c < k < i :: !more[k].Install?;
    }
  }

  lemma SerialStart(schedule: seq<Section>)
    requires schedule != [] && Serial(schedule)
    ensures Serial(schedule[..|schedule| - 1])
  {
    hide TakesTurn, Trace;
    var start := schedule[..|schedule| - 1];
    forall n | 0 <= n < |start| ensures TakesTurn(Trace(start[..n]).stages, start[n]) {
      assert start[..n] == schedule[..n] && start[n] == schedule[n];
      assert TakesTurn(Trace(schedule[..n]).stages, schedule[n]);
    }
  }

  // At most one replacement is between its clear and its install, and its clear is then the last of the two kinds.
  ghost predicate OneCleared(p: Progress) {
    && (forall i, j | i in p.stages && j in p.stages && p.stages[i].cleared && p.stages[j].cleared :: i == j)
    && (forall i | i in p.stages && p.stages[i].cleared :: ClearStands(p.events))
    && OneAtATime(p.events)
  }

  lemma OneClearedOn(p: Progress, section: Section)
    requires OneCleared(p) && TakesTurn(p.stages, section) && p.started !in p.stages
    ensures OneCleared(Advance(p, section))
  {
    hide OneAtATime, ClearStands, D.ParseStatus, D.Parsed;
    var e := EventOf(p.stages, section);
    if e.Some? {
      OneAtATimeExtends(p.events, e.value);
      if e.value.Clear? || (!e.value.Install? && ClearStands(p.events)) {
        ClearStandsOn(p.events, e.value);
      }
    }
  }

  // A schedule that makes its replacements one at a time is a run that does.
  lemma {:induction false} SerialIsOneAtATime(schedule: seq<Section>)
    requires Serial(schedule)
    ensures OneCleared(Trace(schedule)) && OneAtATime(Trace(schedule).events)
  {
    hide TakesTurn, Advance;
    if schedule != [] {
      var last := |schedule| - 1;
      SerialStart(schedule);
      SerialIsOneAtATime(schedule[..last]);
      Numbered(schedule[..last]);
      assert TakesTurn(Trace(schedule[..last]).stages, schedule[last]);
      OneClearedOn(Trace(schedule[..last]), schedule[last]);
    }
  }

  // ---- the pool ----

  // A path list, the strings it holds and the pool blocks it owns.
  datatype Holding = Holding(list: D.PathList, strings: Option<seq<UnicodeString>>, blocks: set<object>)

  ghost predicate HoldingOk(h: Holding)
    reads h.list.entries
  {
    h.list.Valid() && h.list.Blocks() == h.blocks && h.list.Strings() == h.strings
  }

  ghost predicate AllOk(hs: map<nat, Holding>)
    reads set i | i in hs :: hs[i].list.entries
  {
    forall i | i in hs :: HoldingOk(hs[i])
  }

  ghost function BlocksOf(hs: map<nat, Holding>): set<object> {
    set i, b | i in hs && b in hs[i].blocks :: b
  }

  ghost predicate Separate(hs: map<nat, Holding>) {
    forall i, j | i in hs && j in hs && i != j :: hs[i].blocks !! hs[j].blocks
  }

  // Section i installed a list over an array in place.
  ghost predicate Overwrites(upcase: CaseTable, es: seq<Event>, i: nat) {
    i < |es| && es[i].Install? && At(upcase, es, i).paths.Some?
  }

  // The lists under way are those of the stages.
  ghost predicate HoldsStages(flights: map<nat, Holding>, stages: map<nat, Stage>) {
    flights.Keys == stages.Keys && forall id | id in stages :: flights[id].strings == stages[id].strings
  }

  // The lists lost are exactly the arrays that installs found in place, by the sections that did.
  ghost predicate HoldsLost(lost: map<nat, Holding>, upcase: CaseTable, es: seq<Event>) {
    forall i: nat :: (i in lost <==> Overwrites(upcase, es, i))
                     && (i in lost ==> lost[i].strings == At(upcase, es, i).paths)
  }

  // The object agrees with the schedule so far: its state is the run's, and the pool holds what is installed, what the
  // replacements under way have parsed, and what installs have lost.
  ghost predicate Agrees(driver: D.Driver, flights: map<nat, Holding>, lost: map<nat, Holding>, p: Progress)
    reads driver, driver.paths, driver.trackedPids, set i | i in flights :: flights[i].list.entries,
          set i | i in lost :: lost[i].list.entries
  {
    && driver.Valid() && driver.Model() == AtEnd(driver.upcase, p.events)
    && AllOk(flights) && AllOk(lost) && Separate(flights)
    && driver.pending == BlocksOf(flights) && driver.leaked == BlocksOf(lost)
    && HoldsStages(flights, p.stages) && HoldsLost(lost, driver.upcase, p.events)
  }

  lemma AddedBlocks(hs: map<nat, Holding>, i: nat, h: Holding)
    requires i !in hs
    ensures BlocksOf(hs[i := h]) == BlocksOf(hs) + h.blocks
    ensures Separate(hs) && BlocksOf(hs) !! h.blocks ==> Separate(hs[i := h])
  {
    var more := hs[i := h];
    forall b ensures b in BlocksOf(more) <==> b in BlocksOf(hs) || b in h.blocks {
      if b in BlocksOf(hs) {
        var j :| j in hs && b in hs[j].blocks;
        assert j in more && b in more[j].blocks;
      }
      if b in h.blocks {
        assert i in more && b in more[i].blocks;
      }
    }
    forall j, b | j in hs && b in hs[j].blocks ensures b in BlocksOf(hs) {
    }
  }

  // Nothing writes a path list once it is parsed.
  twostate lemma StillOk(hs: map<nat, Holding>)
    requires old(AllOk(hs)) && forall i | i in hs && hs[i].list.entries != null :: unchanged(hs[i].list.entries)
    ensures AllOk(hs)
  {
    forall i | i in hs ensures HoldingOk(hs[i]) {
      assert old(HoldingOk(hs[i]));
    }
  }

  lemma AddedHolding(hs: map<nat, Holding>, i: nat, h: Holding)
    requires AllOk(hs) && HoldingOk(h)
    ensures AllOk(hs[i := h])
  {
  }

  lemma RemovedBlocks(hs: map<nat, Holding>, i: nat)
    requires i in hs && Separate(hs)
    ensures BlocksOf(hs - {i}) == BlocksOf(hs) - hs[i].blocks && hs[i].blocks <= BlocksOf(hs) && Separate(hs - {i})
  {
    var fewer := hs - {i};
    forall b ensures b in BlocksOf(fewer) <==> b in BlocksOf(hs) && b !in hs[i].blocks {
      if b in BlocksOf(fewer) {
        var j :| j in fewer && b in fewer[j].blocks;
        assert j in hs && b in hs[j].blocks;
      }
      if b in BlocksOf(hs) && b !in hs[i].blocks {
        var j :| j in hs && b in hs[j].blocks;
        assert j in fewer && b in fewer[j].blocks;
      }
    }
  }

  // One more section overwrites what it finds in place, and changes nothing about the earlier ones.
  lemma LostOneMore(lost: map<nat, Holding>, upcase: CaseTable, es: seq<Event>, e: Event)
    requires HoldsLost(lost, upcase, es) && !(e.Install? && AtEnd(upcase, es).paths.Some?)
    ensures HoldsLost(lost, upcase, es + [e])
  {
    hide At;
    OverwritesOneMore(upcase, es, e);
  }

  lemma OverwritesOneMore(upcase: CaseTable, es: seq<Event>, e: Event)
    ensures forall i: nat | i < |es| :: Overwrites(upcase, es + [e], i) <==> Overwrites(upcase, es, i)
    ensures forall i: nat | i <= |es| :: At(upcase, es + [e], i) == At(upcase, es, i)
    ensures Overwrites(upcase, es + [e], |es|) <==> e.Install? && AtEnd(upcase, es).paths.Some?
    ensures |es + [e]| == |es| + 1
  {
    hide At;
    forall i: nat | i <= |es| ensures At(upcase, es + [e], i) == At(upcase, es, i) {
      AtExtends(upcase, es, [e], i);
    }
    assert forall i: nat | i < |es| :: (es + [e])[i] == es[i];
  }

  lemma LostHereToo(lost: map<nat, Holding>, upcase: CaseTable, es: seq<Event>, e: Event, h: Holding)
    requires HoldsLost(lost, upcase, es) && e.Install? && AtEnd(upcase, es).paths.Some?
    requires h.strings == AtEnd(upcase, es).paths
    ensures |es| !in lost && HoldsLost(lost[|es| := h], upcase, es + [e])
  {
    hide At;
    OverwritesOneMore(upcase, es, e);
  }

  lemma RemovedHolding(hs: map<nat, Holding>, i: nat)
    requires AllOk(hs) && i in hs
    ensures AllOk(hs - {i}) && HoldingOk(hs[i])
  {
  }

  // ---- running a schedule on the object ----

  method Parses(driver: D.Driver, ghost flights: map<nat, Holding>, ghost lost: map<nat, Holding>, ghost p: Progress,
                section: Section)
    returns (status: D.Status, list: D.PathList, ghost flights': map<nat, Holding>)
    requires Agrees(driver, flights, lost, p) && section.Parse? && p.started !in p.stages
    modifies driver
    ensures Agrees(driver, flights', lost, Advance(p, section))
    ensures status == D.ParseStatus(section.buf, section.pool)
    ensures if status == D.Success then p.started in flights' && flights' == flights[p.started := flights'[p.started]]
                                        && flights'[p.started].list == list
            else flights' == flights
    ensures driver.trackedPids == old(driver.trackedPids)
  {
    hide DriverSpec.At, HoldsLost, D.Parsed, D.ParseStatus, BlocksOf, Separate, AllOk, D.Driver.Valid, D.Driver.Model;
    hide D.PathList.Strings, D.StringsOf;
    status, list := driver.BeginReplacement(section.buf, section.pool);
    flights' := flights;
    StillOk(lost);
    StillOk(flights);
    if status == D.Success {
      ghost var h := Holding(list, list.Strings(), list.Blocks());
      AddedHolding(flights, p.started, h);
      AddedBlocks(flights, p.started, h);
      flights' := flights[p.started := h];
    }
  }

  method Clears(driver: D.Driver, ghost flights: map<nat, Holding>, ghost lost: map<nat, Holding>, ghost p: Progress,
                section: Section)
    requires Agrees(driver, flights, lost, p) && EventOf(p.stages, section) == Some(Clear)
    modifies driver
    ensures Agrees(driver, flights, lost, Advance(p, section)) && driver.trackedPids == old(driver.trackedPids)
  {
    hide DriverSpec.At, HoldsLost, BlocksOf, Separate, AllOk, D.Driver.Valid, D.Driver.Model;
    AtOneMore(driver.upcase, p.events, Clear);
    LostOneMore(lost, driver.upcase, p.events, Clear);
    driver.ClearExcluded();
    StillOk(lost);
    StillOk(flights);
  }

  lemma InPlace(driver: D.Driver)
    requires driver.Valid()
    ensures driver.Installed().Valid() && driver.Model().paths == driver.Installed().Strings()
  {
  }

  method Installs(driver: D.Driver, list: D.PathList, ghost flights: map<nat, Holding>, ghost lost: map<nat, Holding>,
                  ghost p: Progress, id: nat)
    returns (ghost flights': map<nat, Holding>, ghost lost': map<nat, Holding>)
    requires Agrees(driver, flights, lost, p) && id in p.stages && p.stages[id].cleared
    requires id in flights ==> flights[id].list == list
    modifies driver
    ensures Agrees(driver, flights', lost', Advance(p, Continue(id))) && flights' == flights - {id}
    ensures driver.trackedPids == old(driver.trackedPids)
  {
    hide DriverSpec.At, HoldsLost, BlocksOf, Separate, AllOk, D.Driver.Valid, D.Driver.Model;
    ghost var es, e := p.events, Install(p.stages[id].strings);
    InPlace(driver);
    ghost var found := Holding(driver.Installed(), driver.Installed().Strings(), driver.Installed().Blocks());
    RemovedBlocks(flights, id);
    RemovedHolding(flights, id);
    AtOneMore(driver.upcase, es, e);
    driver.InstallPaths(list);
    StillOk(lost);
    StillOk(flights);
    RemovedHolding(flights, id);
    flights', lost' := flights - {id}, lost;
    if found.strings.Some? {
      LostHereToo(lost, driver.upcase, es, e, found);
      AddedHolding(lost, |es|, found);
      AddedBlocks(lost, |es|, found);
      lost' := lost[|es| := found];
    } else {
      LostOneMore(lost, driver.upcase, es, e);
    }
  }

  method Notifies(driver: D.Driver, ghost flights: map<nat, Holding>, ghost lost: map<nat, Holding>, ghost p: Progress,
                  section: Section)
    requires Agrees(driver, flights, lost, p) && section.Notify?
    modifies driver, driver.trackedPids
    ensures Agrees(driver, flights, lost, Advance(p, section))
    ensures driver.trackedPids == old(driver.trackedPids) || fresh(driver.trackedPids)
  {
    hide DriverSpec.At, HoldsLost, BlocksOf, Separate, AllOk, D.Driver.Valid, D.Driver.Model;
    ghost var e := EventOf(p.stages, section).value;
    AtOneMore(driver.upcase, p.events, e);
    LostOneMore(lost, driver.upcase, p.events, e);
    driver.CreateProcessNotify(section.pid, section.info, section.granted);
    StillOk(lost);
    StillOk(flights);
  }

  method Controls(driver: D.Driver, ghost flights: map<nat, Holding>, ghost lost: map<nat, Holding>, ghost p: Progress,
                  section: Section)
    requires Agrees(driver, flights, lost, p) && section.Control? && section.code != D.SetPathsCode
    modifies driver
    ensures Agrees(driver, flights, lost, Advance(p, section)) && driver.trackedPids == old(driver.trackedPids)
  {
    hide DriverSpec.At, HoldsLost, BlocksOf, Separate, AllOk, D.Driver.Valid, D.Driver.Model, D.ControlEvent;
    ghost var e := D.ControlEvent(section.code, section.payload);
    if e.Some? {
      assert !e.value.Install? by {
        ControlsInstallNothing(section.code, section.payload);
      }
      AtOneMore(driver.upcase, p.events, e.value);
      LostOneMore(lost, driver.upcase, p.events, e.value);
    }
    var status := driver.DeviceControl(section.code, section.payload, ALWAYS);
    ControlledByEvent(driver.upcase, old(driver.Model()), section.code, section.payload);
    StillOk(lost);
    StillOk(flights);
  }

  lemma ControlsInstallNothing(code: D.IoControl, payload: seq<Byte>)
    ensures D.ControlEvent(code, payload).Some? ==> !D.ControlEvent(code, payload).value.Install?
  {
  }

  lemma ControlledByEvent(upcase: CaseTable, s: State, code: D.IoControl, payload: seq<Byte>)
    requires code != D.SetPathsCode
    ensures D.Controlled(upcase, s, code, payload, ALWAYS).1
         == match D.ControlEvent(code, payload) case None => s case Some(e) => Step(upcase, s, e)
  {
  }

  method Requests(driver: D.Driver, ghost flights: map<nat, Holding>, ghost lost: map<nat, Holding>, ghost p: Progress,
                  section: Section)
    requires Agrees(driver, flights, lost, p)
    requires section.OpenBy? || section.CloseBy?
    modifies driver
    ensures Agrees(driver, flights, lost, Advance(p, section)) && driver.trackedPids == old(driver.trackedPids)
  {
    hide DriverSpec.At, HoldsLost, BlocksOf, Separate, AllOk, D.Driver.Valid, D.Driver.Model;
    ghost var e := EventOf(p.stages, section).value;
    AtOneMore(driver.upcase, p.events, e);
    LostOneMore(lost, driver.upcase, p.events, e);
    match section {
      case OpenBy(pid) => driver.Open(pid);
      case CloseBy(pid) => var wasController := driver.Forget(pid);
    }
    StillOk(lost);
    StillOk(flights);
  }

  // A handler between the lock sections of its replacement: the list it parsed, and whether its clear has run.
  datatype Handler = Handler(list: D.PathList, cleared: bool)

  ghost predicate Handles(handlers: map<nat, Handler>, flights: map<nat, Holding>, stages: map<nat, Stage>) {
    && handlers.Keys == flights.Keys == stages.Keys
    && forall id | id in stages :: handlers[id] == Handler(flights[id].list, stages[id].cleared)
  }

  // One section more: the object agrees with the schedule with it.
  method Serve(driver: D.Driver, handlers: map<nat, Handler>, started: nat, ghost flights: map<nat, Holding>,
               ghost lost: map<nat, Holding>, ghost before: seq<Section>, section: Section)
    returns (handlers': map<nat, Handler>, started': nat, ghost flights': map<nat, Holding>,
             ghost lost': map<nat, Holding>)
    requires var p := Trace(before);
             Agrees(driver, flights, lost, p) && Handles(handlers, flights, p.stages) && started == p.started
    modifies driver, driver.trackedPids
    ensures var p := Trace(before + [section]);
            Agrees(driver, flights', lost', p) && Handles(handlers', flights', p.stages) && started' == p.started
    ensures driver.trackedPids == old(driver.trackedPids) || fresh(driver.trackedPids)
  {
    hide Agrees, D.ParseStatus, D.Parsed, Trace;
    ghost var p := Trace(before);
    TraceOneMore(before, section);
    Numbered(before);
    handlers', started', flights', lost' := handlers, started, flights, lost;
    match section {
      case Parse(buf, pool) =>
        var status, list;
        status, list, flights' := Parses(driver, flights, lost, p, section);
        handlers' := if status == D.Success then handlers[started := Handler(list, false)] else handlers;
        started' := started + 1;
      case Continue(id) =>
        if id in handlers {
          if handlers[id].cleared {
            flights', lost' := Installs(driver, handlers[id].list, flights, lost, p, id);
            handlers' := handlers - {id};
          } else {
            Clears(driver, flights, lost, p, section);
            handlers' := handlers[id := handlers[id].(cleared := true)];
          }
        }
      case ClearAll =>
        Clears(driver, flights, lost, p, section);
      case Notify(_, _, _) =>
        Notifies(driver, flights, lost, p, section);
      case Control(code, _) =>
        if code != D.SetPathsCode {
          Controls(driver, flights, lost, p, section);
        }
      case _ =>
        Requests(driver, flights, lost, p, section);
    }
  }

  lemma EmptyExactly(hs: map<nat, Holding>)
    requires AllOk(hs)
    ensures BlocksOf(hs) == {} <==> forall i | i in hs :: hs[i].strings.None?
  {
    forall i | i in hs ensures hs[i].strings.None? <==> hs[i].blocks == {} {
      assert HoldingOk(hs[i]);
      assert hs[i].strings.Some? ==> hs[i].list.entries as object in hs[i].blocks;
    }
    assert forall i, b | i in hs && b in hs[i].blocks :: b in BlocksOf(hs);
  }

  // Nothing is left exactly when nothing under way holds a list and no install found one.
  lemma NothingLeftExactly(flights: map<nat, Holding>, lost: map<nat, Holding>, upcase: CaseTable, p: Progress)
    requires AllOk(flights) && AllOk(lost) && HoldsStages(flights, p.stages) && HoldsLost(lost, upcase, p.events)
    ensures BlocksOf(flights) + BlocksOf(lost) == {} <==>
            (forall id | id in p.stages :: p.stages[id].strings.None?) && NothingOverwritten(upcase, p.events)
  {
    hide At, BlocksOf, AllOk;
    EmptyExactly(flights);
    EmptyExactly(lost);
    assert forall i: nat | i in lost :: Overwrites(upcase, p.events, i) && lost[i].strings.Some?;
    if !NothingOverwritten(upcase, p.events) {
      var i :| 0 <= i < |p.events| && p.events[i].Install? && !At(upcase, p.events, i).paths.None?;
      assert Overwrites(upcase, p.events, i);
    }
  }

  method Load(upcase: CaseTable) returns (driver: D.Driver)
    ensures fresh(driver) && driver.upcase == upcase && driver.trackedPids == null
    ensures Agrees(driver, map[], map[], LOADED)
  {
    driver := new D.Driver(upcase);
  }

  // The pool after an unload at any point of any schedule: exactly what the replacements under way have parsed and
  // what installs found in place. A schedule that makes its replacements one at a time and ends them all leaves none.
  method Run(upcase: CaseTable, schedule: seq<Section>)
    returns (driver: D.Driver, ghost flights: map<nat, Holding>, ghost lost: map<nat, Holding>)
    ensures fresh(driver) && driver.upcase == upcase && AllOk(flights) && AllOk(lost)
    ensures var p := Trace(schedule); HoldsStages(flights, p.stages) && HoldsLost(lost, upcase, p.events)
    ensures driver.live == BlocksOf(flights) + BlocksOf(lost)
    ensures var p := Trace(schedule);
            driver.live == {} <==>
            (forall id | id in p.stages :: p.stages[id].strings.None?) && NothingOverwritten(upcase, p.events)
    ensures Serial(schedule) && Trace(schedule).stages == map[] ==> driver.live == {}
  {
    hide D.Driver.Valid, D.Driver.Model, BlocksOf, AllOk, At, HoldsLost, HoldsStages, Separate;
    driver := Load(upcase);
    var handlers, started := map[], 0;
    flights, lost := map[], map[];
    for i := 0 to |schedule|
      invariant fresh(driver) && driver.upcase == upcase
      invariant driver.trackedPids == null || fresh(driver.trackedPids)
      invariant var p := Trace(schedule[..i]);
                Agrees(driver, flights, lost, p) && Handles(handlers, flights, p.stages) && started == p.started
    {
      assert schedule[..i + 1] == schedule[..i] + [schedule[i]];
      handlers, started, flights, lost := Serve(driver, handlers, started, flights, lost, schedule[..i], schedule[i]);
    }
    assert schedule[..|schedule|] == schedule;
    label Before:
    driver.Unload();
    StillOk@Before(flights);
    StillOk@Before(lost);
    NothingLeftExactly(flights, lost, upcase, Trace(schedule));
    if Serial(schedule) {
      SerialIsOneAtATime(schedule);
      OneAtATimeOverwritesNothing(upcase, Trace(schedule).events);
    }
  }
}
