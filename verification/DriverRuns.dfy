// What every run of the driver's lock sections keeps: which processes are tracked, when a bind may be
// redirected, and when an installed path set would be overwritten without being freed.
module DriverRuns {
  import opened Options
  import opened DriverSpec
  import opened Lists

  // ---- the tracked processes ----

  // The sizes the array can have: none, or 32 doubled k times.
  function Doubled(k: nat): nat {
    if k == 0 then 32 else 2 * Doubled(k - 1)
  }

  ghost predicate IsCapacity(n: nat) {
    n == 0 || exists k: nat :: n == Doubled(k)
  }

  lemma Doubles(n: nat)
    requires IsCapacity(n)
    ensures IsCapacity(if n == 0 then 32 else 2 * n)
  {
    if n == 0 {
      assert 32 == Doubled(0);
    } else {
      var k: nat :| n == Doubled(k);
      assert 2 * n == Doubled(k + 1);
    }
  }

  lemma {:induction false} CapacityDoubles(upcase: CaseTable, es: seq<Event>, n: nat)
    requires n <= |es|
    ensures IsCapacity(At(upcase, es, n).capacity)
  {
    hide IsCapacity, SwapRemove, Excluded;
    if n > 0 {
      CapacityDoubles(upcase, es, n - 1);
      Doubles(At(upcase, es, n - 1).capacity);
    } else {
      NoCapacity();
    }
  }

  lemma NoCapacity()
    ensures IsCapacity(0)
  {
  }

  lemma {:induction false} TrackedAreDistinctAndFit(upcase: CaseTable, es: seq<Event>, n: nat)
    requires n <= |es|
    ensures var s := At(upcase, es, n); Distinct(s.tracked) && |s.tracked| <= s.capacity
  {
    if n > 0 {
      TrackedAreDistinctAndFit(upcase, es, n - 1);
      if es[n - 1].Exit? {
        SwapRemoveRemoves(At(upcase, es, n - 1).tracked, es[n - 1].pid);
      }
    }
  }

  // The path set in force before section n, read off the run alone.
  function PathsBefore(es: seq<Event>, n: nat): seq<UnicodeString>
    requires n <= |es|
  {
    if n == 0 || es[n - 1].Clear? then []
    else if es[n - 1].Install? then es[n - 1].installed.GetOr([])
    else PathsBefore(es, n - 1)
  }

  // The process created by section i has neither exited nor been cleared away by section n.
  ghost predicate Undone(es: seq<Event>, i: nat, k: nat)
    requires i < |es| && k < |es| && es[i].Create?
  {
    es[k].Clear? || (es[k].Exit? && es[k].pid == es[i].pid)
  }

  ghost predicate Alive(es: seq<Event>, i: nat, n: nat)
    requires n <= |es|
  {
    i < n && es[i].Create? && forall k | i < k < n :: !Undone(es, i, k)
  }

  ghost predicate Begets(es: seq<Event>, i: nat, j: nat)
    requires j < |es|
  {
    Alive(es, i, j) && es[j].Create? && (es[j].parent == es[i].pid || es[j].creator == es[i].pid)
  }

  // A line of create sections: the first runs an image then in the path set, each next one names a process of
  // the line, alive at that moment, as its parent or creator, and the last one's process is alive before n.
  ghost predicate Line(upcase: CaseTable, es: seq<Event>, n: nat, line: seq<nat>)
    requires n <= |es|
  {
    && |line| > 0
    && (forall j | 0 <= j < |line| :: line[j] < n)
    && es[line[0]].Create? && es[line[0]].image.Some?
    && InSet(upcase, PathsBefore(es, line[0]), es[line[0]].image.value)
    && (forall j | 0 <= j < |line| - 1 :: Begets(es, line[j], line[j + 1]))
    && Alive(es, line[|line| - 1], n)
  }

  ghost predicate Descends(upcase: CaseTable, es: seq<Event>, n: nat, pid: Pid)
    requires n <= |es|
  {
    exists line :: Line(upcase, es, n, line) && es[line[|line| - 1]].pid == pid
  }

  lemma {:induction false} PathsInForce(upcase: CaseTable, es: seq<Event>, n: nat)
    requires n <= |es|
    ensures At(upcase, es, n).paths.GetOr([]) == PathsBefore(es, n)
  {
    if n > 0 {
      PathsInForce(upcase, es, n - 1);
    }
  }

  // Whatever the allocations did, a tracked process ends a line.
  lemma {:induction false} LineOfTracked(upcase: CaseTable, es: seq<Event>, n: nat, pid: Pid) returns (line: seq<nat>)
    requires n <= |es| && pid in At(upcase, es, n).tracked
    ensures Line(upcase, es, n, line) && es[line[|line| - 1]].pid == pid
  {
    var before, e, last: nat := At(upcase, es, n - 1), es[n - 1], n - 1;
    TrackedAreDistinctAndFit(upcase, es, last);
    if e.Exit? {
      SwapRemoveRemoves(before.tracked, e.pid);
    }
    if pid in before.tracked {
      line := LineOfTracked(upcase, es, last, pid);
    } else if e.image.Some? && InSet(upcase, before.paths.GetOr([]), e.image.value) {
      PathsInForce(upcase, es, last);
      line := [last];
    } else {
      var older := LineOfTracked(upcase, es, last, if e.parent in before.tracked then e.parent else e.creator);
      line := older + [last];
      assert line[0] == older[0];
      assert Begets(es, older[|older| - 1], last);
    }
  }

  // No create section found the pool short.
  ghost predicate PoolHolds(es: seq<Event>) {
    forall i | 0 <= i < |es| && es[i].Create? :: es[i].granted
  }

  // With the pool never short, the end of every line is tracked from its creation until it is undone.
  lemma {:induction false} LineIsTracked(upcase: CaseTable, es: seq<Event>, n: nat, line: seq<nat>)
    requires n <= |es| && PoolHolds(es) && Line(upcase, es, n, line)
    ensures es[line[|line| - 1]].pid in At(upcase, es, n).tracked
    decreases n
  {
    var end := line[|line| - 1];
    var before, e, last: nat := At(upcase, es, n - 1), es[n - 1], n - 1;
    TrackedAreDistinctAndFit(upcase, es, last);
    LineIsBounded(es, line);
    if end < last {
      assert !Undone(es, end, last);
      assert Line(upcase, es, last, line);
      LineIsTracked(upcase, es, last, line);
      if e.Exit? {
        SwapRemoveRemoves(before.tracked, e.pid);
      }
    } else if |line| == 1 {
      PathsInForce(upcase, es, last);
    } else {
      var older := line[..|line| - 1];
      assert Begets(es, older[|older| - 1], end);
      assert forall j | 0 <= j < |older| :: older[j] == line[j];
      assert Line(upcase, es, last, older);
      LineIsTracked(upcase, es, last, older);
    }
  }

  // Each section of a line comes before the next.
  lemma {:induction false} LineIsBounded(es: seq<Event>, line: seq<nat>)
    requires |line| > 0 && forall j | 0 <= j < |line| :: line[j] < |es|
    requires forall j | 0 <= j < |line| - 1 :: Begets(es, line[j], line[j + 1])
    ensures forall j | 0 <= j < |line| - 1 :: line[j] < line[|line| - 1]
  {
    if |line| > 1 {
      var shorter := line[..|line| - 1];
      LineIsBounded(es, shorter);
      assert Begets(es, line[|line| - 2], line[|line| - 1]);
      forall j | 0 <= j < |line| - 1 ensures line[j] < line[|line| - 1] {
        if j < |line| - 2 {
          assert shorter[j] < shorter[|shorter| - 1];
        }
      }
    }
  }

  // Descendant tracking, for every run: a tracked process always descends from an image of the path set in
  // force when that image was created, through parents and creators alive at each step, and has not exited or
  // been cleared since; with the pool never short, every such process is tracked.
  lemma TrackedExactlyTheDescendants(upcase: CaseTable, es: seq<Event>, n: nat, pid: Pid)
    requires n <= |es|
    ensures pid in At(upcase, es, n).tracked ==> Descends(upcase, es, n, pid)
    ensures PoolHolds(es) ==> (pid in At(upcase, es, n).tracked <==> Descends(upcase, es, n, pid))
  {
    if pid in At(upcase, es, n).tracked {
      var line := LineOfTracked(upcase, es, n, pid);
    }
    if PoolHolds(es) && Descends(upcase, es, n, pid) {
      var line: seq<nat> :| Line(upcase, es, n, line) && es[line[|line| - 1]].pid == pid;
      LineIsTracked(upcase, es, n, line);
    }
  }

  // ---- arming ----

  // Whether the last section before n that sets the enable flag is SET_ENABLED with a nonzero value.
  predicate EnabledSinceClear(es: seq<Event>, n: nat)
    requires n <= |es|
  {
    n > 0 && match es[n - 1]
             case SetEnabled(on) => on
             case Clear => false
             case _ => EnabledSinceClear(es, n - 1)
  }

  predicate KeepSetSinceClear(es: seq<Event>, n: nat)
    requires n <= |es|
  {
    n > 0 && match es[n - 1]
             case SetMode(keepSet) => keepSet
             case Clear => false
             case _ => KeepSetSinceClear(es, n - 1)
  }

  lemma {:induction false} ArmedOnlySinceClear(upcase: CaseTable, es: seq<Event>, n: nat)
    requires n <= |es|
    ensures At(upcase, es, n).enabled <==> EnabledSinceClear(es, n)
    ensures At(upcase, es, n).allowlist <==> KeepSetSinceClear(es, n)
  {
    if n > 0 {
      ArmedOnlySinceClear(upcase, es, n - 1);
    }
  }

  lemma {:induction false} DisarmedUntilReenabled(es: seq<Event>, i: nat, n: nat)
    requires i < n <= |es| && es[i].Clear?
    requires forall k | i < k < n :: es[k] != SetEnabled(true)
    ensures !EnabledSinceClear(es, n)
  {
    if i < n - 1 {
      DisarmedUntilReenabled(es, i, n - 1);
    }
  }

  // After the clear of a path replacement, of CLEAR or of a controller's close, whatever runs in between, no
  // bind of any process is redirected until redirection is enabled again.
  lemma NoRedirectAfterClear(upcase: CaseTable, es: seq<Event>, i: nat, n: nat, appId: UnicodeString, pid: Pid)
    requires i < n <= |es| && es[i].Clear?
    requires forall k | i < k < n :: es[k] != SetEnabled(true)
    ensures !Redirects(upcase, At(upcase, es, n), appId, pid)
  {
    DisarmedUntilReenabled(es, i, n);
    ArmedOnlySinceClear(upcase, es, n);
  }

  // The process that opened the device is never redirected, in either mode and whatever is tracked, until
  // another opens it or it closes it.
  lemma {:induction false} OpenerNeverRedirected(upcase: CaseTable, es: seq<Event>, i: nat, n: nat,
                                                 appId: UnicodeString)
    requires i < n <= |es| && es[i].Open? && es[i].pid != NO_PID
    requires forall k | i < k < n :: !es[k].Open? && es[k] != Forget(es[i].pid)
    ensures At(upcase, es, n).servicePid == es[i].pid
    ensures !Redirects(upcase, At(upcase, es, n), appId, es[i].pid)
  {
    if i < n - 1 {
      OpenerNeverRedirected(upcase, es, i, n - 1, appId);
    }
  }

  // ---- the whole decision ----

  // The process that opened the device and has not closed it since, read off the run alone.
  function ControllerBefore(es: seq<Event>, n: nat): Pid
    requires n <= |es|
  {
    if n == 0 then NO_PID
    else
      var before := ControllerBefore(es, n - 1);
      match es[n - 1]
      case Open(pid) => pid
      case Forget(pid) => if before == pid then NO_PID else before
      case _ => before
  }

  lemma {:induction false} ControllerKnown(upcase: CaseTable, es: seq<Event>, n: nat)
    requires n <= |es|
    ensures At(upcase, es, n).servicePid == ControllerBefore(es, n)
  {
    if n > 0 {
      ControllerKnown(upcase, es, n - 1);
    }
  }

  // The process's image is in the path set in force, or the process descends from one whose image was.
  ghost predicate Matches(upcase: CaseTable, es: seq<Event>, n: nat, appId: UnicodeString, pid: Pid)
    requires n <= |es|
  {
    (appId.length != 0 && InSet(upcase, PathsBefore(es, n), appId)) || Descends(upcase, es, n, pid)
  }

  // With the pool never short, a bind is redirected exactly when redirection was enabled after the last clear, the
  // process is not the controller, and it matches: or, when the set was made the one to keep after the last clear,
  // does not match.
  lemma RedirectsExactly(upcase: CaseTable, es: seq<Event>, n: nat, appId: UnicodeString, pid: Pid)
    requires n <= |es| && PoolHolds(es)
    ensures Redirects(upcase, At(upcase, es, n), appId, pid) <==>
            && EnabledSinceClear(es, n) && !(pid != NO_PID && pid == ControllerBefore(es, n))
            && (Matches(upcase, es, n, appId, pid) <==> !KeepSetSinceClear(es, n))
  {
    hide At, Descends, PathsBefore, EnabledSinceClear, KeepSetSinceClear, ControllerBefore, InSet, PoolHolds;
    ArmedOnlySinceClear(upcase, es, n);
    ControllerKnown(upcase, es, n);
    PathsInForce(upcase, es, n);
    TrackedExactlyTheDescendants(upcase, es, n, pid);
  }

  // ---- when an install would lose the set it replaces ----

  // A set was installed and neither cleared nor replaced by a NULL one before n.
  predicate SetStands(es: seq<Event>, n: nat)
    requires n <= |es|
  {
    n > 0 && match es[n - 1]
             case Install(installed) => installed.Some?
             case Clear => false
             case _ => SetStands(es, n - 1)
  }

  // Every install finds no array in place.
  ghost predicate NothingOverwritten(upcase: CaseTable, es: seq<Event>) {
    forall i | 0 <= i < |es| && es[i].Install? :: At(upcase, es, i).paths.None?
  }

  lemma {:induction false} PathsStand(upcase: CaseTable, es: seq<Event>, n: nat)
    requires n <= |es|
    ensures At(upcase, es, n).paths.Some? <==> SetStands(es, n)
  {
    if n > 0 {
      PathsStand(upcase, es, n - 1);
    }
  }

  // Nothing is overwritten, and so nothing leaks, exactly when no install follows another non-NULL one without
  // a clear between them.
  lemma NothingOverwrittenExactly(upcase: CaseTable, es: seq<Event>)
    ensures NothingOverwritten(upcase, es) <==> forall i | 0 <= i < |es| && es[i].Install? :: !SetStands(es, i)
  {
    forall i | 0 <= i < |es| && es[i].Install?
      ensures At(upcase, es, i).paths.None? <==> !SetStands(es, i)
    {
      PathsStand(upcase, es, i);
    }
  }

  // Replacements made one at a time: every install's own clear is the last section of that kind before it.
  ghost predicate OneAtATime(es: seq<Event>) {
    forall i | 0 <= i < |es| && es[i].Install? ::
      exists c | 0 <= c < i :: es[c].Clear? && forall k | c < k < i :: !es[k].Install?
  }

  lemma {:induction false} NoSetStandsAfterClear(es: seq<Event>, c: nat, n: nat)
    requires c < n <= |es| && es[c].Clear? && forall k | c < k < n :: !es[k].Install?
    ensures !SetStands(es, n)
  {
    if c < n - 1 {
      NoSetStandsAfterClear(es, c, n - 1);
    }
  }

  lemma OneAtATimeOverwritesNothing(upcase: CaseTable, es: seq<Event>)
    requires OneAtATime(es)
    ensures NothingOverwritten(upcase, es)
  {
    forall i | 0 <= i < |es| && es[i].Install? ensures At(upcase, es, i).paths.None? {
      var c :| 0 <= c < i && es[c].Clear? && forall k | c < k < i :: !es[k].Install?;
      NoSetStandsAfterClear(es, c, i);
      PathsStand(upcase, es, i);
    }
  }

  // Two replacements that both clear before either installs: the second install overwrites the first's array.
  lemma InterleavedReplacementsOverwrite(upcase: CaseTable, first: seq<UnicodeString>, second: seq<UnicodeString>)
    ensures !NothingOverwritten(upcase, [Clear, Clear, Install(Some(first)), Install(Some(second))])
  {
    var es := [Clear, Clear, Install(Some(first)), Install(Some(second))];
    assert es[3].Install? && At(upcase, es, 3) == Step(upcase, At(upcase, es, 2), es[2]);
  }
}
