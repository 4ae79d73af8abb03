// The driver's global state as an object (app/driver/Driver.c): the handlers' lock sections, the pool they
// allocate from, and which pool block is owned by what. Each section is proved against DriverSpec.Step.
module Driver {
  import opened Lists
  import opened Options
  import opened DriverSpec
  import opened PackedPaths

  // A pool block holding the characters of one path; nothing writes it once it is filled.
  class PathBuffer {
    const chars: seq<Wchar>

    constructor (chars: seq<Wchar>)
      ensures this.chars == chars
    {
      this.chars := chars;
    }
  }

  // One UNICODE_STRING of the paths array.
  datatype PathEntry = PathEntry(buffer: PathBuffer?, length: nat)

  predicate Filled(e: PathEntry) {
    e.buffer != null && e.length <= 2 * |e.buffer.chars|
  }

  function StringOf(e: PathEntry): UnicodeString {
    if Filled(e) then CountedString(e.buffer.chars, e.length) else CountedString([], 0)
  }

  function StringsOf(entries: seq<PathEntry>): (strings: seq<UnicodeString>)
    ensures |strings| == |entries| && forall i | 0 <= i < |entries| :: strings[i] == StringOf(entries[i])
  {
    seq(|entries|, i requires 0 <= i < |entries| => StringOf(entries[i]))
  }

  lemma StringsOfAppend(entries: seq<PathEntry>, e: PathEntry)
    ensures StringsOf(entries + [e]) == StringsOf(entries) + [StringOf(e)]
  {
  }

  // A paths array and how many of its entries are filled.
  datatype PathList = PathList(entries: array?<PathEntry>, count: nat) {
    ghost predicate Valid()
      reads entries
    {
      && (entries == null ==> count == 0)
      && (entries != null ==>
            && count <= entries.Length
            && (forall i | 0 <= i < count :: Filled(entries[i]))
            && (forall i, j | 0 <= i < j < count :: entries[i].buffer != entries[j].buffer))
    }

    // The pool blocks the list owns: the array and every filled entry's buffer.
    ghost function Blocks(): set<object>
      requires Valid()
      reads entries
    {
      if entries == null then {} else {entries as object} + BuffersUpTo(count)
    }

    ghost function BuffersUpTo(n: nat): set<object>
      requires Valid() && entries != null && n <= count
      reads entries
    {
      set i | 0 <= i < n :: entries[i].buffer as object
    }

    ghost function Strings(): Option<seq<UnicodeString>>
      requires Valid()
      reads entries
    {
      if entries == null then None else Some(StringsOf(entries[..count]))
    }
  }

  datatype CreateInfo = CreateInfo(image: Option<UnicodeString>, parent: Pid, creator: Pid)

  datatype IoControl = SetEnabledCode | SetPhysicalCode | SetPathsCode | SetModeCode | ClearCode | OtherCode

  datatype Status = Success | BufferTooSmall | InsufficientResources | InvalidDeviceRequest

  // sizeof URST_ENABLED, URST_PHYSICAL_ADDRS, URST_MODE
  const ENABLED_BYTES := 4
  const PHYSICAL_BYTES := 28
  const MODE_BYTES := 4

  // The one lock section of a control code other than the path list's; None when its payload is cut short, or there is
  // no such code.
  function ControlEvent(code: IoControl, buf: seq<Byte>): Option<Event> {
    match code
    case SetEnabledCode => if |buf| < ENABLED_BYTES then None else Some(SetEnabled(Uint32(buf) != 0))
    case SetPhysicalCode => if |buf| < PHYSICAL_BYTES then None else Some(SetPhysical(buf[..PHYSICAL_BYTES]))
    case SetModeCode => if |buf| < MODE_BYTES then None else Some(SetMode(Uint32(buf) != 0))
    case ClearCode => Some(Clear)
    case _ => None
  }

  // What an uninterrupted device control answers and does.
  function Controlled(upcase: CaseTable, s: State, code: IoControl, buf: seq<Byte>, granted: nat -> bool)
    : (Status, State)
  {
    match code
    case SetPathsCode =>
      var status := ParseStatus(buf, granted);
      if status != Success then (status, s)
      else (Success, Step(upcase, Step(upcase, s, Clear), Install(Parsed(buf, granted))))
    case OtherCode => (InvalidDeviceRequest, s)
    case _ =>
      var e := ControlEvent(code, buf);
      if e.None? then (BufferTooSmall, s) else (Success, Step(upcase, s, e.value))
  }

  class Driver {
    const upcase: CaseTable
    var enabled: bool
    var allowlist: bool
    var servicePid: Pid
    var physical: seq<int>
    var paths: array?<PathEntry>
    var pathCount: nat
    var trackedPids: array?<Pid>
    var trackedCount: nat
    var trackedCapacity: nat

    // the pool blocks allocated and not freed
    ghost var live: set<object>
    // those of parsed lists not installed yet
    ghost var pending: set<object>
    // those nothing points to any more
    ghost var leaked: set<object>

    ghost function Installed(): PathList
      reads this
    {
      PathList(paths, pathCount)
    }

    ghost function TrackedBlock(): set<object>
      reads this
    {
      if trackedPids == null then {} else {trackedPids as object}
    }

    // Every live block is owned by exactly one of the path list, the tracked array, a list not installed yet,
    // and nothing at all.
    ghost predicate Valid()
      reads this, paths, trackedPids
    {
      && Installed().Valid()
      && (trackedPids == null ==> trackedCapacity == 0)
      && (trackedPids != null ==> trackedPids.Length == trackedCapacity)
      && trackedCount <= trackedCapacity
      && live == Installed().Blocks() + TrackedBlock() + pending + leaked
      && Installed().Blocks() !! TrackedBlock() !! pending !! leaked
    }

    ghost function Model(): State
      requires Valid()
      reads this, paths, trackedPids
    {
      State(enabled, allowlist, servicePid, physical, Installed().Strings(),
            if trackedPids == null then [] else trackedPids[..trackedCount], trackedCapacity)
    }

    // DriverEntry: the state is zeroed.
    constructor (upcase: CaseTable)
      ensures Valid() && Model() == INITIAL && live == {} && this.upcase == upcase
    {
      this.upcase := upcase;
      enabled, allowlist, servicePid, physical := false, false, NO_PID, [];
      paths, pathCount := null, 0;
      trackedPids, trackedCount, trackedCapacity := null, 0, 0;
      live, pending, leaked := {}, {}, {};
    }

    // ExFreePoolWithTag: only a live block may be freed.
    ghost method Free(block: object)
      requires block in live
      modifies this`live
      ensures live == old(live) - {block}
    {
      live := live - {block};
    }

    method IsPidTracked(pid: Pid) returns (tracked: bool)
      requires Valid()
      ensures tracked <==> pid in Model().tracked
    {
      for i := 0 to trackedCount
        invariant trackedPids != null ==> pid !in trackedPids[..i]
      {
        if trackedPids[i] == pid {
          return true;
        }
      }
      return false;
    }

    method TrackPid(pid: Pid, granted: bool)
      requires Valid()
      modifies this`trackedPids, this`trackedCount, this`trackedCapacity, this`live, trackedPids
      ensures Valid() && Model() == Track(old(Model()), pid, granted)
      ensures trackedPids == old(trackedPids) || fresh(trackedPids)
    {
      hide StringsOf, PathList.Valid, PathList.Blocks;
      var already := IsPidTracked(pid);
      if already {
        return;
      }
      if trackedCount == trackedCapacity {
        if !granted {
          return;
        }
        Grow();
      }
      Append(pid);
    }

    method Append(pid: Pid)
      requires Valid() && trackedCount < trackedCapacity
      modifies this`trackedCount, trackedPids
      ensures Valid() && Model() == old(Model()).(tracked := old(Model()).tracked + [pid])
    {
      trackedPids[trackedCount] := pid;
      trackedCount := trackedCount + 1;
    }

    // The array moves to a block twice as large, and the old block is freed.
    method Grow()
      requires Valid() && trackedCount == trackedCapacity
      modifies this`trackedPids, this`trackedCapacity, this`live
      ensures Valid() && trackedPids != null && fresh(trackedPids) && trackedCount < trackedCapacity
      ensures Model() == old(Model()).(capacity := if old(trackedCapacity) == 0 then 32 else 2 * old(trackedCapacity))
    {
      hide StringsOf, PathList.Valid, PathList.Blocks;
      var newCapacity := if trackedCapacity != 0 then trackedCapacity * 2 else 32;
      var grown := new Pid[newCapacity];
      live := live + {grown};
      if trackedPids != null {
        forall i | 0 <= i < trackedCount {
          grown[i] := trackedPids[i];
        }
        Free(trackedPids);
      }
      trackedPids := grown;
      trackedCapacity := newCapacity;
    }

    method UntrackPid(pid: Pid)
      requires Valid()
      modifies this`trackedCount, trackedPids
      ensures Valid() && Model() == old(Model()).(tracked := SwapRemove(old(Model()).tracked, pid))
    {
      hide StringsOf, PathList.Valid, PathList.Blocks;
      var i: nat := 0;
      while i < trackedCount && trackedPids[i] != pid
        invariant i <= trackedCount && (trackedPids != null ==> pid !in trackedPids[..i])
      {
        i := i + 1;
      }
      if i < trackedCount {
        FirstIndex(Model().tracked, pid, i);
        SwapOut(i);
      }
    }

    // trackedPids[i] = trackedPids[--trackedCount]
    method SwapOut(i: nat)
      requires Valid() && i < trackedCount
      modifies this`trackedCount, trackedPids
      ensures Valid() && var was := old(Model()).tracked;
              Model() == old(Model()).(tracked := was[i := was[|was| - 1]][..|was| - 1])
    {
      ghost var was := Model().tracked;
      trackedCount := trackedCount - 1;
      trackedPids[i] := trackedPids[trackedCount];
      assert trackedPids[..trackedCount] == was[i := was[|was| - 1]][..|was| - 1];
    }

    method ImageInSet(image: UnicodeString) returns (found: bool)
      requires Valid()
      ensures found <==> InSet(upcase, Model().paths.GetOr([]), image)
    {
      ghost var strings := Model().paths.GetOr([]);
      for i := 0 to pathCount
        invariant forall j | 0 <= j < i :: !EqualIgnoringCase(upcase, image, strings[j])
      {
        assert strings[i] == StringOf(paths[i]);
        if EqualIgnoringCase(upcase, image, StringOf(paths[i])) {
          return true;
        }
      }
      return false;
    }

    method CreateProcessNotify(pid: Pid, info: Option<CreateInfo>, granted: bool)
      requires Valid()
      modifies this`trackedPids, this`trackedCount, this`trackedCapacity, this`live, trackedPids
      ensures Valid() && (trackedPids == old(trackedPids) || fresh(trackedPids))
      ensures Model() == Step(upcase, old(Model()),
                              if info.None? then Exit(pid)
                              else Create(pid, info.value.image, info.value.parent, info.value.creator, granted))
    {
      hide Driver.Valid, Driver.Model, InSet, SwapRemove, Track;
      if info.None? {
        UntrackPid(pid);
        return;
      }
      var excluded := false;
      if info.value.image.Some? {
        excluded := ImageInSet(info.value.image.value);
      }
      if !excluded {
        excluded := IsPidTracked(info.value.parent);
        if !excluded {
          excluded := IsPidTracked(info.value.creator);
        }
      }
      if excluded {
        TrackPid(pid, granted);
      }
    }

    method Classify(appId: UnicodeString, pid: Pid) returns (redirect: bool)
      requires Valid()
      ensures redirect <==> Redirects(upcase, Model(), appId, pid)
    {
      var isMatch := false;
      if appId.length != 0 {
        isMatch := ImageInSet(appId);
      }
      if !isMatch {
        isMatch := IsPidTracked(pid);
      }
      var isService := servicePid != NO_PID && pid == servicePid;
      redirect := enabled && !isService && (if allowlist then !isMatch else isMatch);
    }

    method FreeBuffers()
      requires Installed().Valid() && paths != null && Installed().BuffersUpTo(pathCount) <= live
      modifies this`live
      ensures live == old(live) - Installed().BuffersUpTo(pathCount)
    {
      ghost var list := Installed();
      for i := 0 to pathCount
        invariant list == Installed() && live == old(live) - list.BuffersUpTo(i)
        invariant forall j | i <= j < pathCount :: paths[j].buffer in live
      {
        if paths[i].buffer != null {
          Free(paths[i].buffer);
        }
      }
    }

    // Frees every path buffer and then the array.
    method ClearExcluded()
      requires Valid()
      modifies this
      ensures Valid() && Model() == Step(upcase, old(Model()), Clear)
      ensures pending == old(pending) && leaked == old(leaked) && trackedPids == old(trackedPids)
      ensures paths == null
    {
      if paths != null {
        FreeBuffers();
        Free(paths);
        paths := null;
      }
      pathCount := 0;
      trackedCount := 0;
      enabled := false;
      allowlist := false;
    }

    // The parse, outside the lock: what it allocates belongs to the list it returns until that is installed.
    method BeginReplacement(buf: seq<Byte>, granted: nat -> bool) returns (status: Status, list: PathList)
      requires Valid()
      modifies this`live, this`pending
      ensures Valid() && Model() == old(Model())
      ensures status == ParseStatus(buf, granted) && list.Valid()
      ensures if status == Success then list.Strings() == Parsed(buf, granted) else list == PathList(null, 0)
      ensures pending == old(pending) + list.Blocks() && list.Blocks() !! old(pending)
    {
      ghost var made;
      status, list, made := ParsePaths(buf, granted);
      live, pending := live + made, pending + made;
    }

    // The second lock section of a replacement. An array it finds in place is lost, not freed.
    method InstallPaths(list: PathList)
      requires Valid() && list.Valid() && list.Blocks() <= pending
      modifies this`paths, this`pathCount, this`pending, this`leaked
      ensures Valid() && Model() == Step(upcase, old(Model()), Install(list.Strings()))
      ensures pending == old(pending) - list.Blocks() && leaked == old(leaked) + old(Installed().Blocks())
    {
      hide StringsOf;
      Handed(live, Installed().Blocks(), TrackedBlock(), pending, leaked, list.Blocks());
      leaked, pending := leaked + Installed().Blocks(), pending - list.Blocks();
      paths, pathCount := list.entries, list.count;
      assert Installed() == list;
    }

    // The whole handler, with nothing between its two lock sections.
    method SetExcludedPaths(buf: seq<Byte>, granted: nat -> bool) returns (status: Status)
      requires Valid()
      modifies this
      ensures Valid() && pending == old(pending) && leaked == old(leaked) && trackedPids == old(trackedPids)
      ensures status == ParseStatus(buf, granted)
      ensures Model() == if status != Success then old(Model())
                         else Step(upcase, Step(upcase, old(Model()), Clear), Install(Parsed(buf, granted)))
    {
      hide Parsed, ParseStatus, StringsOf, Driver.Valid, Driver.Model;
      var list;
      status, list := BeginReplacement(buf, granted);
      if status == Success {
        ClearExcluded();
        InstallPaths(list);
      }
    }

    method SetEnabled(on: bool)
      requires Valid()
      modifies this`enabled
      ensures Valid() && Model() == Step(upcase, old(Model()), DriverSpec.SetEnabled(on))
    {
      enabled := on;
    }

    method SetPhysical(addresses: seq<int>)
      requires Valid()
      modifies this`physical
      ensures Valid() && Model() == Step(upcase, old(Model()), DriverSpec.SetPhysical(addresses))
    {
      physical := addresses;
    }

    method SetMode(keepSet: bool)
      requires Valid()
      modifies this`allowlist
      ensures Valid() && Model() == Step(upcase, old(Model()), DriverSpec.SetMode(keepSet))
    {
      allowlist := keepSet;
    }

    // IRP_MJ_DEVICE_CONTROL: the payload's length is checked before a byte of it is read.
    method DeviceControl(code: IoControl, buf: seq<Byte>, granted: nat -> bool) returns (status: Status)
      requires Valid()
      modifies this
      ensures Valid() && pending == old(pending) && leaked == old(leaked) && trackedPids == old(trackedPids)
      ensures (status, Model()) == Controlled(upcase, old(Model()), code, buf, granted)
    {
      status := Success;
      match code {
        case SetEnabledCode =>
          if |buf| >= ENABLED_BYTES { SetEnabled(Uint32(buf) != 0); } else { status := BufferTooSmall; }
        case SetPhysicalCode =>
          if |buf| >= PHYSICAL_BYTES { SetPhysical(buf[..PHYSICAL_BYTES]); } else { status := BufferTooSmall; }
        case SetPathsCode =>
          status := SetExcludedPaths(buf, granted);
        case SetModeCode =>
          if |buf| >= MODE_BYTES { SetMode(Uint32(buf) != 0); } else { status := BufferTooSmall; }
        case ClearCode =>
          ClearExcluded();
        case OtherCode =>
          status := InvalidDeviceRequest;
      }
    }

    // IRP_MJ_CREATE.
    method Open(pid: Pid)
      requires Valid()
      modifies this`servicePid
      ensures Valid() && Model() == Step(upcase, old(Model()), DriverSpec.Open(pid))
    {
      servicePid := pid;
    }

    // The first lock section of IRP_MJ_CLOSE.
    method Forget(pid: Pid) returns (wasController: bool)
      requires Valid()
      modifies this`servicePid
      ensures Valid() && Model() == Step(upcase, old(Model()), DriverSpec.Forget(pid))
      ensures wasController <==> old(servicePid) == pid
    {
      wasController := servicePid == pid;
      if wasController {
        servicePid := NO_PID;
      }
    }

    // IRP_MJ_CLOSE, with nothing between its two lock sections: a controller's close disarms the driver.
    method Close(pid: Pid)
      requires Valid()
      modifies this
      ensures Valid() && pending == old(pending) && leaked == old(leaked)
      ensures var forgotten := Step(upcase, old(Model()), DriverSpec.Forget(pid));
              Model() == if old(servicePid) == pid then Step(upcase, forgotten, Clear) else forgotten
    {
      var wasController := Forget(pid);
      if wasController {
        ClearExcluded();
      }
    }

    // The pool is left with what was lost and what an unfinished replacement holds.
    method Unload()
      requires Valid()
      modifies this
      ensures live == old(pending) + old(leaked) && pending == old(pending) && leaked == old(leaked)
    {
      ClearExcluded();
      if trackedPids != null {
        Free(trackedPids);
      }
    }
  }

  // The blocks of a pending list become the installed ones, and those that were installed are lost.
  lemma Handed(live: set<object>, installed: set<object>, tracked: set<object>, pending: set<object>,
               leaked: set<object>, list: set<object>)
    requires live == installed + tracked + pending + leaked && installed !! tracked !! pending !! leaked
    requires list <= pending
    ensures live == list + tracked + (pending - list) + (leaked + installed)
    ensures list !! tracked !! (pending - list) !! (leaked + installed)
  {
  }

  // The parse of a packed payload into owned strings: an advancing position, one buffer for each framed path,
  // and an early end at the first frame that is cut short or refused by the pool.
  method ParsePaths(buf: seq<Byte>, granted: nat -> bool)
    returns (status: Status, list: PathList, ghost made: set<object>)
    ensures status == ParseStatus(buf, granted)
    ensures list.Valid() && fresh(made) && made == list.Blocks()
    ensures if status == Success then list.Strings() == Parsed(buf, granted) else list == PathList(null, 0)
  {
    list, made := PathList(null, 0), {};
    if |buf| < HEADER_BYTES {
      return BufferTooSmall, list, made;
    }
    var count := Count(buf);
    if count == 0 {
      return Success, list, made;
    }
    if !granted(0) {
      return InsufficientResources, list, made;
    }
    var entries := new PathEntry[count](_ => PathEntry(null, 0));
    list, made := PathList(entries, 0), {entries};
    ghost var buffers;
    list, buffers := ParseFrames(buf, granted, list);
    made := made + buffers;
    return Success, list, made;
  }

  // Where the loop stands: `done` is parsed and stored, the rest is what the parse from p yields, and `made` are
  // the buffers allocated for it.
  ghost predicate SoFar(buf: seq<Byte>, granted: nat -> bool, list: PathList, made: set<object>, p: nat,
                        done: seq<Path>)
    reads list.entries
  {
    && |buf| >= HEADER_BYTES && list.entries != null && list.Valid()
    && Decode(buf, granted) == done + DecodeFrom(buf, p, Count(buf), list.count, granted)
    && list.Strings() == Some(StoredAll(done))
    && list.Blocks() == {list.entries as object} + made
  }

  method ParseFrames(buf: seq<Byte>, granted: nat -> bool, empty: PathList)
    returns (list: PathList, ghost made: set<object>)
    requires |buf| >= HEADER_BYTES && empty.entries != null && empty.entries.Length == Count(buf) && empty.count == 0
    modifies empty.entries
    ensures list.entries == empty.entries && fresh(made)
    ensures list.Valid() && list.Blocks() == {list.entries as object} + made
    ensures list.Strings() == Some(StoredAll(Decode(buf, granted)))
  {
    hide DecodeFrom, Units, Unit, Uint32, StoredAll, StringsOf;
    list, made := empty, {};
    assert StringsOf([]) == StoredAll([]);
    var p: nat := HEADER_BYTES;
    ghost var done: seq<Path> := [];
    while list.count < list.entries.Length
      invariant list.entries == empty.entries && fresh(made)
      invariant SoFar(buf, granted, list, made, p, done)
    {
      var path := ParseFrame(buf, p, granted(list.count + 1));
      if path.None? {
        DecodeStops(buf, p, list.count, granted);
        break;
      }
      list, made := StoreFrame(buf, granted, list, made, p, done, path.value);
      done, p := done + [path.value], p + 2 + 2 * |path.value|;
    }
    DecodeStops(buf, p, list.count, granted);
    assert Decode(buf, granted) == done;
  }

  method StoreFrame(buf: seq<Byte>, granted: nat -> bool, list: PathList, ghost made: set<object>, p: nat,
                    ghost done: seq<Path>, path: Path)
    returns (longer: PathList, ghost made': set<object>)
    requires SoFar(buf, granted, list, made, p, done) && list.count < list.entries.Length == Count(buf)
    requires Framed(buf, p) && granted(list.count + 1) && path == Units(buf, p + 2, Unit(buf, p))
    modifies list.entries
    ensures longer.entries == list.entries && fresh(made' - made)
    ensures longer.count == list.count + 1
    ensures SoFar(buf, granted, longer, made', p + 2 + 2 * |path|, done + [path])
  {
    DecodeStep(buf, p, list.count, granted, done);
    hide DecodeFrom, Units, Unit, Uint32, StoredAll, StringsOf;
    ghost var copy;
    longer, copy := AppendPath(list, done, path);
    made' := made + {copy};
  }

  // One turn of the loop: the frame at p, unless it is cut short or the pool refuses its buffer.
  method ParseFrame(buf: seq<Byte>, p: nat, granted: bool) returns (path: Option<Path>)
    ensures path == if Framed(buf, p) && granted then Some(Units(buf, p + 2, Unit(buf, p))) else None
  {
    if p + 2 > |buf| {
      return None;
    }
    var chars: nat := Unit(buf, p);
    if p + 2 + 2 * chars > |buf| || !granted {
      return None;
    }
    return Some(Units(buf, p + 2, chars));
  }

  lemma DecodeStops(buf: seq<Byte>, p: nat, k: nat, granted: nat -> bool)
    requires |buf| >= HEADER_BYTES && (k >= Count(buf) || !Framed(buf, p) || !granted(k + 1))
    ensures DecodeFrom(buf, p, Count(buf), k, granted) == []
  {
  }

  lemma DecodeStep(buf: seq<Byte>, p: nat, k: nat, granted: nat -> bool, done: seq<Path>)
    requires |buf| >= HEADER_BYTES && k < Count(buf) && Framed(buf, p) && granted(k + 1)
    requires Decode(buf, granted) == done + DecodeFrom(buf, p, Count(buf), k, granted)
    ensures var path := Units(buf, p + 2, Unit(buf, p));
            Decode(buf, granted) == done + [path] + DecodeFrom(buf, p + 2 + 2 * |path|, Count(buf), k + 1, granted)
  {
  }

  method AppendPath(list: PathList, ghost done: seq<Path>, path: Path)
    returns (longer: PathList, ghost copy: PathBuffer)
    requires list.Valid() && list.entries != null && list.count < list.entries.Length
    requires list.Strings() == Some(StoredAll(done))
    modifies list.entries
    ensures longer == PathList(list.entries, list.count + 1) && longer.Valid()
    ensures longer.Strings() == Some(StoredAll(done + [path]))
    ensures fresh(copy) && longer.Blocks() == old(list.Blocks()) + {copy}
  {
    var buffer := new PathBuffer(path);
    copy := buffer;
    ghost var before := list.entries[..list.count];
    list.entries[list.count] := PathEntry(buffer, 2 * |path| % 0x1_0000);
    longer := PathList(list.entries, list.count + 1);
    StringsOfAppend(before, list.entries[list.count]);
    StoredAllAppend(done, path);
    assert list.entries[..list.count + 1] == before + [list.entries[list.count]];
    assert forall i | 0 <= i < list.count :: list.entries[i] == before[i] == old(list.entries[i]);
    assert longer.BuffersUpTo(list.count + 1) == old(list.BuffersUpTo(list.count)) + {copy};
  }

  // The status of the parse, and the strings it yields.
  function ParseStatus(buf: seq<Byte>, granted: nat -> bool): Status {
    if |buf| < HEADER_BYTES then BufferTooSmall
    else if Count(buf) != 0 && !granted(0) then InsufficientResources
    else Success
  }

  function Parsed(buf: seq<Byte>, granted: nat -> bool): Option<seq<UnicodeString>>
    requires |buf| >= HEADER_BYTES
  {
    if Count(buf) == 0 then None else Some(StoredAll(Decode(buf, granted)))
  }
}
