// The split-tunnel driver's lock-guarded state as a value, and what each lock section of its handlers does to
// it (app/driver/Driver.c). A run is any sequence of lock sections: a handler that takes the lock twice
// contributes two of them, and any other handler's sections may stand between the two.
module DriverSpec {
  import opened Lists
  import opened Options

  // HANDLE of a process; 0 is NULL.
  type Pid = nat

  const NO_PID: Pid := 0

  // One UTF-16 code unit.
  type Wchar = w: int | 0 <= w < 0x1_0000

  // A UNICODE_STRING: what its buffer holds, and Length in bytes.
  datatype CountedString = CountedString(buffer: seq<Wchar>, length: nat) {
    // The characters a reader of the string sees.
    function Text(): seq<Wchar>
      requires length <= 2 * |buffer|
    {
      buffer[..length / 2]
    }
  }

  // Length never reaches past the buffer.
  type UnicodeString = s: CountedString | s.length <= 2 * |s.buffer| witness CountedString([], 0)

  // The case table of the running system, upcasing one unit.
  type CaseTable = Wchar -> Wchar

  // RtlEqualUnicodeString, ignoring case.
  predicate EqualIgnoringCase(upcase: CaseTable, a: UnicodeString, b: UnicodeString) {
    a.length == b.length && forall i | 0 <= i < a.length / 2 :: upcase(a.buffer[i]) == upcase(b.buffer[i])
  }

  function Upcased(upcase: CaseTable, text: seq<Wchar>): (r: seq<Wchar>)
    ensures |r| == |text|
  {
    seq(|text|, i requires 0 <= i < |text| => upcase(text[i]))
  }

  // Strings are equal ignoring case exactly when they are as long and their texts are the same once upcased.
  lemma EqualOnceUpcased(upcase: CaseTable, a: UnicodeString, b: UnicodeString)
    ensures EqualIgnoringCase(upcase, a, b) <==>
            a.length == b.length && Upcased(upcase, a.Text()) == Upcased(upcase, b.Text())
  {
    var p, q := Upcased(upcase, a.Text()), Upcased(upcase, b.Text());
    assert forall i | 0 <= i < |p| :: p[i] == upcase(a.buffer[i]);
    assert forall i | 0 <= i < |q| :: q[i] == upcase(b.buffer[i]);
    if a.length == b.length && p == q {
      forall i | 0 <= i < a.length / 2 ensures upcase(a.buffer[i]) == upcase(b.buffer[i]) {
        assert p[i] == q[i];
      }
    }
  }

  predicate InSet(upcase: CaseTable, paths: seq<UnicodeString>, image: UnicodeString) {
    exists i | 0 <= i < |paths| :: EqualIgnoringCase(upcase, image, paths[i])
  }

  datatype State = State(
    enabled: bool,
    allowlist: bool,
    servicePid: Pid,
    // the physical source addresses, as the service packed them
    physical: seq<int>,
    // None is a NULL array; Some holds its first pathCount entries
    paths: Option<seq<UnicodeString>>,
    tracked: seq<Pid>,
    capacity: nat)

  const INITIAL: State := State(false, false, NO_PID, [], None, [], 0)

  datatype Event =
    | Create(pid: Pid, image: Option<UnicodeString>, parent: Pid, creator: Pid, granted: bool)
    | Exit(pid: Pid)
    | SetEnabled(on: bool)
    | SetPhysical(addresses: seq<int>)
    | SetMode(keepSet: bool)
    | Clear
    | Install(installed: Option<seq<UnicodeString>>)
    | Open(pid: Pid)
    // the first section of a close; the second, when it was the controller's, is Clear
    | Forget(pid: Pid)

  // Appending a pid, growing a full array by doubling (32 at first); nothing when the growth fails.
  function Track(s: State, pid: Pid, granted: bool): State {
    if pid in s.tracked then s
    else if |s.tracked| < s.capacity then s.(tracked := s.tracked + [pid])
    else if !granted then s
    else s.(tracked := s.tracked + [pid], capacity := if s.capacity == 0 then 32 else 2 * s.capacity)
  }

  // The last pid takes the place of the removed one.
  function SwapRemove(pids: seq<Pid>, pid: Pid): seq<Pid> {
    if pid !in pids then pids
    else
      var last := |pids| - 1;
      pids[IndexOf(pids, pid) := pids[last]][..last]
  }

  predicate Excluded(upcase: CaseTable, s: State, image: Option<UnicodeString>, parent: Pid, creator: Pid) {
    (image.Some? && InSet(upcase, s.paths.GetOr([]), image.value)) || parent in s.tracked || creator in s.tracked
  }

  function Step(upcase: CaseTable, s: State, e: Event): State {
    match e
    case Create(pid, image, parent, creator, granted) =>
      if Excluded(upcase, s, image, parent, creator) then Track(s, pid, granted) else s
    case Exit(pid) => s.(tracked := SwapRemove(s.tracked, pid))
    case SetEnabled(on) => s.(enabled := on)
    case SetPhysical(addresses) => s.(physical := addresses)
    case SetMode(keepSet) => s.(allowlist := keepSet)
    case Clear => s.(paths := None, tracked := [], enabled := false, allowlist := false)
    case Install(installed) => s.(paths := installed)
    case Open(pid) => s.(servicePid := pid)
    case Forget(pid) => if s.servicePid == pid then s.(servicePid := NO_PID) else s
  }

  // The classify decision for a bind of `pid`, whose image path is `appId` (empty when unavailable).
  predicate Redirects(upcase: CaseTable, s: State, appId: UnicodeString, pid: Pid) {
    var isMatch := (appId.length != 0 && InSet(upcase, s.paths.GetOr([]), appId)) || pid in s.tracked;
    var isService := s.servicePid != NO_PID && pid == s.servicePid;
    s.enabled && !isService && (if s.allowlist then !isMatch else isMatch)
  }

  // The state after the first n sections of a run.
  function At(upcase: CaseTable, es: seq<Event>, n: nat): State
    requires n <= |es|
  {
    if n == 0 then INITIAL else Step(upcase, At(upcase, es, n - 1), es[n - 1])
  }

  // Swap-remove takes exactly the one pid away and leaves the rest, still once each.
  lemma SwapRemoveRemoves(pids: seq<Pid>, pid: Pid)
    requires Distinct(pids)
    ensures Distinct(SwapRemove(pids, pid))
    ensures forall p :: p in SwapRemove(pids, pid) <==> p in pids && p != pid
    ensures |SwapRemove(pids, pid)| == if pid in pids then |pids| - 1 else |pids|
  {
    if pid in pids {
      var i, last, r := IndexOf(pids, pid), |pids| - 1, SwapRemove(pids, pid);
      forall p | p in pids && p != pid ensures p in r {
        var k :| 0 <= k < |pids| && pids[k] == p;
        assert r[if k == last then i else k] == p;
      }
    }
  }
}
