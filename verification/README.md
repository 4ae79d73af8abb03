# The URnetwork Windows app: driver, lifecycle and grammars

A Dafny model of the parts of the Windows client whose correctness spans more than one function: the split-tunnel
driver, the session and lifecycle protocols of the service and the tray app, and the exact languages and arithmetic
they rest on. `dafny verify dfyconfig.toml` verifies it.

Where the source updates state in place the model is a class whose methods are proved against functions on values, and
what the source promises is then proved of every run of those functions: a run is a sequence of the sections that hold
the lock, so anything may stand between two of them. The source's loops are loops here, but for scans that only look
for a character or fold its case, which are functions. Clocks, pool allocations, the SDK's readings and the operating
system's answers are inputs.

* **The driver.** `DriverSpec` is its lock-guarded state and what each lock section does to it; `DriverRuns` is what
  every run keeps (which processes are tracked, when a bind is redirected, when a path set would be lost).
  `PackedPaths` is the packed path list and its decoder. `Driver` is the object: arrays, owned buffers and a ledger of
  the pool's live blocks. `ClientRequests` is the client's side of the control codes. `DriverSchedule` runs the object
  from load to unload, with any number of path replacements under way.
* **Capturing traffic.** `CaptureSpec` is a session's evidence (samples, tickets, the proof epoch, network events) and
  `CaptureTransaction` the four-stage transaction over a machine, with any operations of other threads between its
  accesses.
* **One instance.** `GateSpec` and `ActivationGate` are the gate for redirected launches, `GateRuns` the gate with the
  threads around it, `LaunchLoop` the launch's side.
* **Leaving.** `ExitDrain` is the session-request slot, its worker and what an ending does with them.
* **The rules sheet.** `Reconciling` brings a panel's children to a list in place; `AppRuleRows` builds that list.
* **Links.** `LinkScan` and `LinkRedaction` are the redaction of links in text; `AuthLink` and `AuthLinkForms` the
  strict reading of a sign-in's return and the printer it inverts.
* **Grammars, dates and prefixes.** `ApprovalNetwork`, `DataInfo`, `PrefixCover` and `NetPolicy`.
* **Failsafe and recovery.** `DeadTunnel` with its runs in `DeadTunnelRuns`, and `BalanceRecovery`.

`Options`, `Lists` and `Texts` hold what several of them share.

Some properties one would expect hold only under a condition. The model follows the code, gives an input on which each
fails, and proves for all inputs exactly when it holds:

* A path of 32768 to 65535 characters fits the packed format, but its byte length is cut to sixteen bits when it is
  installed (`PackedPaths.StoredReadsBackExactly`), and two path replacements that interleave lose an array
  (`DriverRuns.NothingOverwrittenExactly`).
* A capture whose ticket lapses between its first two checks rolls back once with no stage run
  (`CaptureTransaction.RollbackWithoutStageExactly`).
* The reconcile keeps a second copy of a wanted child that the panel already held twice, so the children are then not
  the list that app/src/App/AppRuleRows.h:79 speaks of (`Reconciling.ReconcilesExactly`).
* The one trailing slash a url may have is one: a second changes what it names (`ApprovalNetwork.TrailingSlashExactly`),
  and so does `:443` after it (`ApprovalNetwork.OwnPortExactly`).
* A connection let go and held again is rebuilt without a low reading in between
  (`BalanceRecovery.RebuildsAgainExactly`).
* A balance read before a start was refused can retry it when the wait was already armed, which the comment at
  app/src/Common/BalanceGate.h:398-399 rules out (`BalanceRecovery.StartsExactly`).

An ending of the app holds the thread that signs out (app/src/App/SdkHost.h:977, app/src/App/AppController.cpp:442-514),
so in `ExitDrain` no sign-out empties the slot once an ending has begun.

## Model

| member | source | states |
|---|---|---|
| DriverRuns.TrackedExactlyTheDescendants | app/driver/Driver.c:70-140 | In every run a tracked process ends a line of create events that starts at an image then in the path set, each link naming a parent or creator alive at that moment, and it has neither exited nor been cleared since; with the pool never short, exactly those processes are tracked |
| DriverRuns.TrackedAreDistinctAndFit | app/driver/Driver.c:78-102 | In every run the tracked array holds no process twice and never more than its capacity, through doubling and swap-remove |
| DriverRuns.CapacityDoubles | app/driver/Driver.c:82-91 | In every run the tracked array has no room or 32 doubled some number of times |
| DriverRuns.LineOfTracked | app/driver/Driver.c:119-140 | Whatever the allocations did, a tracked process has such a line: a failed allocation only leaves a process out |
| DriverRuns.LineIsTracked | app/driver/Driver.c:78-140 | With the pool never short, the last process of any such line is tracked until it exits or the driver is cleared |
| DriverRuns.RedirectsExactly | app/driver/Driver.c:190-204 | In every run with the pool never short, a bind is redirected exactly when redirection was enabled after the last clear, the process is not the controller, and it matches the set in force or descends from a match (does not, when the set is the one to keep) |
| DriverRuns.ArmedOnlySinceClear | app/driver/Driver.c:315-329 | Enabled, and the keep-set mode, hold exactly when the last section that decides them since the last clear turned them on |
| DriverRuns.NoRedirectAfterClear | app/driver/Driver.c:360-364 | After the clear of a path replacement, of CLEAR or of the controller's close, whatever runs in between, no bind of any process is redirected until redirection is enabled again |
| DriverRuns.OpenerNeverRedirected | app/driver/Driver.c:415-437 | The process that opened the device is never redirected, in either mode, until another opens it or it closes it |
| DriverRuns.NothingOverwrittenExactly | app/driver/Driver.c:315-364 | No install finds an array in place, and so none is lost, exactly when no two non-NULL installs stand without a clear between them |
| DriverRuns.OneAtATimeOverwritesNothing | app/driver/Driver.c:360-364 | Replacements made one at a time lose nothing, whatever other handlers do between their two lock sections |
| DriverRuns.InterleavedReplacementsOverwrite | app/driver/Driver.c:360-364 | Two replacements that both clear before either installs do lose an array |
| DriverSpec.SwapRemoveRemoves | app/driver/Driver.c:95-102 | Swap-remove takes exactly the one process out and keeps the others once each |
| DriverSpec.EqualOnceUpcased | app/driver/Driver.c:107-112 | Two image strings are equal ignoring case exactly when they are as long and their texts are the same once upcased |
| Driver.Driver.IsPidTracked | app/driver/Driver.c:70-76 | Finds a process exactly when it is in the tracked array |
| Driver.Driver.TrackPid | app/driver/Driver.c:78-93 | Adds a process once, growing a full array by doubling; a refused allocation changes nothing |
| Driver.Driver.Grow | app/driver/Driver.c:82-91 | The tracked processes move to a block twice as large and the old block is freed: each live block still has one owner |
| Driver.Driver.UntrackPid | app/driver/Driver.c:95-102 | Removes the first occurrence by moving the last entry into its place |
| Driver.Driver.ImageInSet | app/driver/Driver.c:107-112 | Finds an image exactly when a string of the set equals it without regard to case |
| Driver.Driver.CreateProcessNotify | app/driver/Driver.c:119-140 | A create or exit notification does to the array what its lock section does to the model's state |
| Driver.Driver.Classify | app/driver/Driver.c:196-204 | The redirect decision of a bind, computed over the arrays, is the model's |
| Driver.Driver.FreeBuffers | app/driver/Driver.c:318-320 | Frees each path's buffer once, and nothing else |
| Driver.Driver.ClearExcluded | app/driver/Driver.c:315-329 | Frees every buffer and the array, and disarms; no other block changes owner |
| Driver.Driver.BeginReplacement | app/driver/Driver.c:332-358 | Everything the parse allocated, whole or cut short, belongs to the list it returns |
| Driver.Driver.InstallPaths | app/driver/Driver.c:361-364 | The second section of a replacement: the list becomes the driver's, and the array it finds in place is lost |
| Driver.Driver.SetExcludedPaths | app/driver/Driver.c:332-366 | Parse, clear and install with nothing between: nothing is lost and nothing left pending |
| Driver.Driver.DeviceControl | app/driver/Driver.c:368-413 | Every control code's status and effect, each payload's length checked before a byte of it is read |
| ClientRequests.ValueIsRead | app/src/Service/SplitTunnelClient.cpp:155-163 | The four bytes of any value enable redirection, or choose the mode to keep the set, exactly when the value is not zero, whatever follows them |
| ClientRequests.AddressesAreStored | app/src/Service/SplitTunnelClient.cpp:165-175 | The client's physical addresses are stored with each field where it packed it |
| ClientRequests.PathsAreInstalled | app/src/Service/SplitTunnelClient.cpp:177-195 | The client's path list installs, after a clear, exactly the paths it packs, and none when it packs none |
| ClientRequests.OthersChangeNothing | app/driver/Driver.c:377-408 | A clear needs no payload; a payload cut short, a list without an array and an unknown code are refused and change nothing |
| Driver.Driver.Close | app/driver/Driver.c:423-447 | A controller's close forgets it and disarms the driver; another handle's close changes nothing |
| Driver.Driver.Unload | app/driver/Driver.c:456-465 | What is left allocated is what was lost and what an unfinished replacement holds |
| Driver.ParsePaths | app/driver/Driver.c:332-358 | The parse loop computes the decoder's list, and its allocations are exactly the blocks of the list it returns |
| DriverSchedule.Serve | app/driver/Driver.c:119-447 | After any schedule of lock sections, with any number of path replacements under way, the object agrees with the run, every live block has one owner, and the pool holds exactly what is installed, what the replacements under way have parsed, and the arrays that installs found in place |
| DriverSchedule.SerialIsOneAtATime | app/driver/Driver.c:332-366 | A schedule in which no replacement takes a section between another's clear and install is a run that makes its replacements one at a time |
| DriverSchedule.NothingLeftExactly | app/driver/Driver.c:332-366 | Nothing is held or lost exactly when no replacement under way has a list and no install found an array in place |
| DriverSchedule.Run | app/driver/Driver.c:456-465 | From load to unload over any schedule no block is freed twice, and what stays allocated is exactly the lists of the replacements under way and the arrays that installs found in place; nothing, when replacements are made one at a time and have ended |
| PackedPaths.DecodeEncode | app/driver/Driver.c:332-358 | Decoding what a client packed gives its list back, in order |
| PackedPaths.DecodesLongestFramedPrefix | app/driver/Driver.c:345-358 | For any buffer that holds the header, a list's frames start the payload exactly when the list starts the decoder's result, up to the announced count |
| PackedPaths.ShortPoolKeepsPrefix | app/driver/Driver.c:351-352 | A refused allocation only cuts the list short |
| PackedPaths.StoredReadsBackExactly | app/driver/Driver.c:354-356 | The installed strings read back as the packed list exactly when every path is shorter than 32768 characters |
| PackedPaths.LongPathInstallsEmpty | app/driver/Driver.c:354-356 | A path of 32768 characters installs as the empty string |
| CaptureSpec.TicketsNeverRevive | app/src/Service/CaptureReadiness.h:243-252 | Under every sequence of operations and a steady clock, a ticket that is not current never is again |
| CaptureSpec.IssuedTicketNeverRevives | app/src/Service/CaptureReadiness.h:210-221 | The same for a ticket the session handed out, between any later two moments |
| CaptureSpec.ReadyHasWitness | app/src/Service/CaptureReadiness.h:195-216 | A ready session has a sample begun after its last barrier, completed with one unretired generation before and after, providers added before and after and a usable one proven, no older than the freshness window, and counted against the proof epoch in force |
| CaptureSpec.ReadyExactly | app/src/Service/CaptureReadiness.h:195-216 | A session is ready exactly while it is neither cancelled nor committed and a sample proves it that nothing has undone or replaced since and that was begun within the freshness window; and its ticket is current |
| CaptureSpec.CancelIsAbsorbing | app/src/Service/CaptureReadiness.h:230-235 | After a cancel nothing is ready, current, committed or pending, ever |
| CaptureSpec.NothingRunsBack | app/src/Service/CaptureReadiness.h:136-208 | The revision, the generation, the proof epoch and both network revisions never decrease; cancelled and active never clear |
| CaptureSpec.EpochReachesEveryBarrier | app/src/Service/CaptureReadiness.h:144-162 | The proof epoch never falls behind a network change or a stall |
| CaptureSpec.PendingEventExactly | app/src/Service/CaptureReadiness.h:173-178 | A pending event's revision is the number of network changes so far, and its time the latest of all changes and stalls |
| CaptureSpec.PendingExactlyWhileUncovered | app/src/Service/CaptureReadiness.h:173-185 | A network event is pending exactly while the session is not cancelled and some change has had no notification that was sampled after it and completed |
| CaptureSpec.QualifiesExactlyAfterChange | app/src/Service/CaptureReadiness.h:68-81 | For every age, change and resolution: with no change a proof qualifies, and after one a truncated proof age qualifies exactly when every moment it can stand for lies after the change |
| CaptureTransaction.CaptureReadiness.CompleteSample | app/src/Service/CaptureReadiness.h:195-208 | Completing a sample on the object is the specification's operation |
| CaptureTransaction.CaptureReadiness.Commit | app/src/Service/CaptureReadiness.h:223-228 | Commits exactly a current ticket |
| CaptureTransaction.ApplyCapture | app/src/Service/CaptureReadiness.h:307-330 | For every interleaving and every stage outcome: the stages run are a prefix of the four in order, each one checked just before on a ticket then current, there is one rollback exactly when the first check passed and the transaction did not commit, and the machine ends captured, native or armed, or untouched |
| CaptureTransaction.EndsExactly | app/src/Service/CaptureReadiness.h:310-325 | The ending and the number of stages run are the one pair that the checks and the stages' outcomes allow: it waits at the first check or commit that fails, and halts or throws at the first stage that does |
| CaptureTransaction.CommitsExactly | app/src/Service/CaptureReadiness.h:307-330 | The transaction commits exactly when the ticket is current at the commit and no stage stopped it; then all four stages ran and the ticket was current at all six accesses |
| CaptureTransaction.RollbackWithoutStageExactly | app/src/Service/CaptureReadiness.h:310-319 | A rollback with no stage run happens exactly when the ticket lapses between the check before the transaction and the one before its first stage |
| CaptureTransaction.CancelledAfterFirstCheck | app/src/Service/CaptureReadiness.h:310-319 | Such a lapse: a cancellation just after the first check |
| CaptureTransaction.CurrentAllAlong | app/src/Service/CaptureReadiness.h:243-247 | A ticket current at one access of the transaction was current at every access before it |
| CaptureTransaction.Machine.Rollback | app/tools/capture-readiness-tests.cpp:61-66 | A rollback leaves routes, DNS and firewall native, or armed under the kill switch |
| ActivationGate.ActivationGate.Arrive | app/src/Common/InstanceHandover.h:241-252 | Take's first section: turned away at a closed gate, registered otherwise |
| ActivationGate.ActivationGate.Open | app/src/Common/InstanceHandover.h:263-279 | Opening takes the held launches in the order of their ids and marks each served |
| ActivationGate.ActivationGate.Close | app/src/Common/InstanceHandover.h:283-297 | Closing refuses every undecided launch and keeps the entries posted work still has to find |
| ActivationGate.ActivationGate.ServePosted | app/src/Common/InstanceHandover.h:320-339 | Posted work acts on its launch exactly when it is still undecided |
| ActivationGate.ActivationGate.FinishAwait | app/src/Common/InstanceHandover.h:342-356 | A wait's end returns the entry's outcome, and leaves it behind only when undecided |
| GateRuns.InvHolds | app/src/Common/InstanceHandover.h:213-367 | The invariant of the gate, its launches' threads, the UI thread's queue and any number of closes, over every interleaving |
| GateRuns.ActedAtMostOnce | app/src/Common/InstanceHandover.h:320-339 | Every launch is acted on at most once, and a waiting launch's entry is always found |
| GateRuns.ServedIsActedOn | app/src/Common/InstanceHandover.h:215-218 | A launch told it was served has been acted on, or the UI thread has it in hand |
| GateRuns.RefusedIsNeverActedOn | app/src/Common/InstanceHandover.h:218-220 | A launch told it was refused was never acted on and never will be, and the exiting signal was already raised |
| GateRuns.SignalPrecedesRefusal | app/src/Common/InstanceHandover.h:283-297 | Nothing is refused, at the door or after a wait, before the signal is raised |
| GateRuns.UndecidedOnlyPastDeadline | app/src/Common/InstanceHandover.h:342-356 | A launch is left undecided only past its deadline, and then is still queued, acted on or overtaken by the exit |
| GateRuns.HeldServedInOrder | app/src/Common/InstanceHandover.h:263-280 | The launches registered before the gate opened are the first acted on, in the order they came |
| GateRuns.NoneLostWhileOpen | app/src/Common/InstanceHandover.h:241-258 | While the gate is open every registered launch is acted on, queued, about to be queued, or closing the gate |
| GateRuns.CloseIsPermanent | app/src/Common/InstanceHandover.h:283-297 | A closed gate stays closed: no launch is registered and nothing more is acted on than the UI thread has in hand |
| LaunchLoop.Launch | app/src/Common/InstanceHandover.h:507-527 | A launch passes at most four holders, each gone or waited out, and ends as its last round says |
| LaunchLoop.EndsOneWay | app/src/Common/InstanceHandover.h:433-497 | The ways a round can end exclude one another, so that contract fixes the result |
| ExitDrain.SessionHost.RequestSession | app/src/App/SdkHost.cpp:7270-7345 | The last request wins unless the pending one covers it; a quitting or signed-out app refuses; a worker is started when none is alive |
| ExitDrain.SessionHost.TakeNext | app/src/App/SdkHost.cpp:7349-7374 | The worker waits out a row click's deadline, ends on an empty slot, and takes the request otherwise |
| ExitDrain.TakenOnTime | app/src/App/SdkHost.cpp:7353-7363 | In every run no request is taken before its deadline |
| ExitDrain.TakenExactly | app/src/App/SdkHost.cpp:7353-7374 | The worker's turn takes the pending request exactly when no pass is in flight and its deadline has come, and ends the worker exactly when none is pending |
| ExitDrain.SessionHost.BeginSettle | app/src/Common/ExitDrain.h:75-82 | An ending drops a queued request it does not keep |
| ExitDrain.InvHolds | app/src/App/SdkHost.cpp:7270-7374 | Over every interleaving each request is in exactly one place, none runs twice, and none waits without a live worker |
| ExitDrain.SettledMeansIdleAndEmpty | app/src/Common/ExitDrain.h:75-83 | Settled is answered only with the worker idle and the slot empty |
| ExitDrain.RequestRunsExactly | app/src/App/SdkHost.cpp:7297-7345 | A request in the slot has run when the worker settles, exactly unless a newer one that asks no less, its cancel, a sign-out or an ending took it out: so an ensure or a provider reconcile never costs the user a connect or a Disconnect |
| ExitDrain.DroppedNeverRuns | app/src/Common/ExitDrain.h:75-83 | A queued request of any other kind is dropped and never runs |
| ExitDrain.DisconnectRunsBeforeSettling | app/src/App/AppController.cpp:495-514 | A Disconnect in the slot when an ending begins has run when the worker settles, exactly unless another Disconnect, or a connect of a signed-in account, replaced it while it waited |
| ExitDrain.DisconnectRunsBeforeQuitting | app/src/App/SdkHost.h:992-1025 | A Disconnect in the slot when Quit closes it has always run when the worker settles |
| Reconciling.Reconcile | app/src/App/AppRuleRows.h:86-105 | The in-place passes over the children compute the specification's list, or fail where an index is out of bounds |
| Reconciling.ReconciledIsWantAndSurplus | app/src/App/AppRuleRows.h:80-105 | For a duplicate-free wanted list no index is ever out of bounds, and the children end as that list followed by the surplus copies of its elements |
| Reconciling.ReconcilesExactly | app/src/App/AppRuleRows.h:80-105 | The children end as exactly the wanted list when, and only when, the panel held none of its elements twice |
| Reconciling.SurplusCopyStays | app/src/App/AppRuleRows.h:86-105 | A panel that holds a wanted child twice keeps the second copy |
| Reconciling.WantedTwiceThrows | app/src/App/AppRuleRows.h:7-17 | A list that wants one child twice throws |
| AppRuleRows.RuledApps | app/src/App/AppRuleRows.h:43-63 | One row for each key a rule names, in rule order: the last installed app of that key, or else the path as the first rule of that key spells it, named by its file |
| AppRuleRows.UnruledApps | app/src/App/AppRuleRows.h:65-77 | The installed apps no rule names, in order: for each key the first one enumerated |
| AppRuleRows.RowKeyExactly | app/src/App/AppRuleRows.h:33-37 | Two paths have one key exactly when they differ in nothing but the case of letters |
| AppRuleRows.FileNameIsLongest | app/src/App/AppRuleRows.h:56-59 | The name shown for an app not installed is the longest end of its path without a slash |
| AppRuleRows.InstalledAsLast | app/src/App/AppRuleRows.h:45-46 | An installed app stands for its key exactly when it is the last one enumerated of that key |
| AppRuleRows.MatchesExactly | app/tools/app-rule-rows-tests.cpp:113-117 | A query finds an app exactly when it is a part of its name or its path, put in small letters |
| AppRuleRows.RowsAreDistinct | app/src/App/AppRuleRows.h:6-17 | The two groups together hold every app a rule names or the enumeration found, once |
| AppRuleRows.Sheet.Want | app/tools/app-rule-rows-tests.cpp:110-140 | The list built from any rules, installed apps and query holds no child twice |
| AppRuleRows.Sheet.Render | app/tools/app-rule-rows-tests.cpp:142-165 | Every render, after any earlier ones, throws nothing and leaves exactly the wanted list |
| LinkRedaction.RedactLogTextIsIdempotent | app/src/App/AuthLink.h:395-418 | Redacting a log twice is redacting it once, for every text the machine can hold |
| LinkRedaction.RedactCommandLineIsIdempotent | app/src/App/AuthLink.h:429-431 | The same for a command line |
| LinkRedaction.OnlyReducedLinksRemain | app/src/App/AuthLink.h:376-418 | Every link left in a redacted log is a reduced one: a pass that would change any other link changes nothing |
| LinkRedaction.AgreeOnOneLine | app/src/App/AuthLink.h:420-439 | On a text without line breaks the two redactions agree |
| LinkRedaction.RedactsAcrossBreak | app/src/App/AuthLink.h:433-439 | Redacting a text is redacting both sides of any of its line breaks |
| LinkRedaction.CopyWithoutLinks | app/src/App/LogExport.h:41-44 | A log copied a line at a time, each redacted and its break kept, is the log redacted whole |
| LinkRedaction.ReplacementStays | app/src/App/AuthLink.h:376-393 | Whatever a link was reduced to is left alone by a second redaction, and no link forms across its seams |
| LinkRedaction.OnlySchemeHostAndLengthShow | app/src/App/AuthLink.h:332-360 | Any two links read the same in the log exactly when they have one length and, both or neither having a plain scheme, the same scheme and the same shown host; a link without a plain scheme shows its length alone |
| LinkRedaction.ShowsExactly | app/src/App/AuthLink.h:332-360 | Of scheme://text the host shows exactly when it is a short plain one followed by a path, a query, a fragment or the end; otherwise a star does |
| LinkRedaction.UserIsHidden | app/src/App/AuthLink.h:347-353 | A ':' or '@' before any path, query or fragment hides all that follows the scheme |
| LinkRedaction.NoSchemeShowsLength | app/src/App/AuthLink.h:338-359 | A link that is no plain scheme, :// and a text shows its length alone |
| LinkRedaction.IsRedactedExactly | app/src/App/AuthLink.h:376-393 | A link is left alone exactly when it is a plain scheme, :// and a short plain host or a star, and a count in brackets follows it within the window |
| LinkRedaction.LogHoldsOnlyReduced | app/src/App/AuthLink.h:395-418 | Every link of a redacted log has that form |
| LinkScan.RedactLinks | app/src/App/AuthLink.h:395-418 | The scanning loop computes the replacement of every link, for any scheme, enders and replacement |
| LinkScan.PeelLink | app/src/App/AuthLink.h:395-418 | A text is what comes before its first link, that link replaced, and the rest |
| LinkScan.ReplacesAcrossSeam | app/src/App/AuthLink.h:395-418 | Links are replaced independently on both sides of a character that ends them |
| LinkScan.SameReplacement | app/src/App/AuthLink.h:200-207 | Sets of enders a text does not tell apart give one result |
| AuthLink.Parse | app/src/App/AuthLink.h:235-317 | The parser, with its loops over the pairs, computes the specified result |
| AuthLinkForms.SealedExactly | app/tools/auth-link-tests.cpp:354-357 | Sealed is answered for exactly the links the page prints for an approved sign-in, the four pairs in any order, and returns the values printed |
| AuthLinkForms.DeniedExactly | app/tools/auth-link-tests.cpp:359-361 | Denied is answered for exactly the links of a cancelled one |
| AuthLinkForms.RejectedCarriesNothing | app/src/App/AuthLink.h:128-135 | Everything else is Invalid, with a reason and without a value |
| AuthLinkForms.AlphabetsExactly | app/src/App/AuthLink.h:155-167 | The two alphabets, character by character |
| AuthLinkForms.ReasonBeforeHost | app/src/App/AuthLink.h:241-248 | A link is refused first for its length, then for a character no link holds, then for another host, then for an escape |
| AuthLinkForms.ReasonAtHost | app/src/App/AuthLink.h:250-264 | After the host and at most one slash each continuation but a query has its own reason |
| AuthLinkForms.ReasonInPairs | app/src/App/AuthLink.h:266-278 | The first segment that is no pair is an empty pair, and a seventh pair is too many |
| AuthLinkForms.ReasonInFields | app/src/App/AuthLink.h:280-296 | The first pair that is not good is an unknown key, a key met before or too long a value |
| AuthLinkForms.ReasonInValues | app/src/App/AuthLink.h:298-315 | With every pair good the state is judged first, and then the shape and its values, each with its own reason |
| AuthLinkForms.RoutedExactly | app/src/App/AuthLink.h:228-233 | A legible link of the prefix is routed to the parser exactly when the parser does not find another host in it |
| AuthLinkForms.FieldsExactly | app/src/App/AuthLink.h:264-300 | A link's fields are read exactly when it is a printing of their pairs in some order |
| AuthLinkForms.SplitJoined | app/src/App/AuthLink.h:266-278 | Joined pairs split back into themselves |
| AuthLinkForms.JoinSplit | app/src/App/AuthLink.h:266-278 | What splits was joined |
| AuthLinkForms.AcceptedIsRouted | app/src/App/AuthLink.h:228-233 | Every link the parser accepts is one the app routes to it |
| ApprovalNetwork.IsValidApiHost | app/src/App/ApprovalNetwork.h:86-105 | The scanner, with its loop over the labels, computes the specified answer |
| ApprovalNetwork.LabelExactly | app/tools/approval-network-tests.cpp:327-333 | The label test accepts exactly the grammar's labels: a letter or digit, or two with up to 61 of those and hyphens between them |
| ApprovalNetwork.NumberExactly | app/tools/approval-network-tests.cpp:334-340 | A name ends in a number exactly when its last label is digits, or 0x and hex digits |
| ApprovalNetwork.ValidExactly | app/tools/approval-network-tests.cpp:327-342 | The scanner accepts exactly the grammar's hosts: labels joined by dots, at least two, the last no number, and an optional port written in decimal |
| ApprovalNetwork.PortExactly | app/src/App/ApprovalNetwork.h:71-76 | A port is accepted exactly when it is a number from 1 to 65535, not 443, without a leading zero |
| ApprovalNetwork.NamesAHost | app/src/App/ApprovalNetwork.h:107-129 | A url names a valid host or nothing |
| ApprovalNetwork.NamesItsHost | app/src/App/ApprovalNetwork.h:107-129 | https:// and a valid host names that host |
| ApprovalNetwork.CaseMakesNoDifference | app/src/App/ApprovalNetwork.h:115-118 | Capitals make no difference |
| ApprovalNetwork.NamesExactly | app/src/App/ApprovalNetwork.h:107-129 | The urls that name a host are exactly its spellings: https:// and the host, in capitals or not, with :443 if it has no port, and with at most one slash |
| ApprovalNetwork.TrailingSlashExactly | app/src/App/ApprovalNetwork.h:122 | One slash more makes no difference, exactly unless the url spells a host of the grammar and has its one slash already |
| ApprovalNetwork.TwoSlashesNameNothing | app/src/App/ApprovalNetwork.h:122 | https://a.b/ names a.b, and https://a.b// nothing |
| ApprovalNetwork.OwnPortExactly | app/src/App/ApprovalNetwork.h:123-127 | Spelling out :443 after a name without a port makes no difference, exactly unless the name is a host of the grammar with a slash after it there |
| DataInfo.NextIsOneMore | app/tools/data-info-tests.cpp:61-68 | The day after any valid date, in any year, is one more |
| DataInfo.OrderPreserved | app/tools/data-info-tests.cpp:61-68 | Dates and their day numbers are in one order, and no two dates share a number |
| DataInfo.EveryDayHasADate | app/tools/data-info-tests.cpp:61-68 | Every whole number is the day number of a date |
| DataInfo.EpochIsZero | app/tools/data-info-tests.cpp:59-68 | 1970-01-01 is day 0 |
| DataInfo.RefreshIsNextMidnight | app/src/App/DataInfo.h:30-39 | The next refresh is the least multiple of a day strictly after any time, before the epoch too |
| DataInfo.ConstantUntilTheWake | app/src/App/DataInfo.h:49-60 | The countdown reads the same from now until the computed wake, and differently at it |
| DataInfo.CountdownIsNeverZero | app/src/App/DataInfo.h:47-53 | The countdown never reads zero |
| PrefixCover.CoverExactly | app/tools/ip-family-tests.cpp:347-360 | Of prefixes none of which contains another each address lies in at most one, and in exactly one when, and only when, 2^-length sums to 1 |
| PrefixCover.FullExactly | app/tools/ip-family-tests.cpp:347-360 | The same below any node: such prefixes hold at most its addresses, and all of them exactly when their sizes add up to its own |
| PrefixCover.CapturesExactly | app/src/Service/NetPolicy.h:97-137 | An address is captured exactly when no bypassed prefix contains it |
| PrefixCover.CapturesAscending | app/src/Service/NetPolicy.h:266-307 | The captured prefixes are emitted in ascending order |
| PrefixCover.CapturesAreMaximal | app/src/Service/NetPolicy.h:97-137 | No larger prefix could stand in a captured one's place, and no two make up one |
| NetPolicy.ContainsByBits | app/src/Service/NetPolicy.h:260-264 | The mask test is the prefix test on bits |
| NetPolicy.Subtract | app/src/Service/NetPolicy.h:269-308 | The explicit-stack subtraction yields that complement, and its stack never holds more than the width and one |
| NetPolicy.CapturesSiblings | app/src/Service/NetPolicy.h:107-137 | Below a node that holds a single bypassed prefix, what is captured is exactly the siblings of the nodes on the way to it, one for each bit |
| NetPolicy.CaptureV4 | app/src/Service/NetPolicy.h:141-160 | From the IPv4 table it yields 31 prefixes: the siblings on the way to 10.0.0.0/8, 172.16.0.0/12 and 192.168.0.0/16 |
| NetPolicy.TableV4 | app/src/Service/NetPolicy.h:79-83 | The table's three prefixes are well formed, and what their bits are |
| NetPolicy.V4CoverExactly | app/tools/ip-family-tests.cpp:347-360 | Every IPv4 address lies in exactly one of the 31 captured and three bypassed prefixes |
| NetPolicy.CaptureV6 | app/src/Service/NetPolicy.h:311-319 | From the IPv6 table it yields the eight prefixes |
| NetPolicy.TableV6 | app/src/Service/NetPolicy.h:239-243 | The table's three prefixes are well formed, and what their bits are |
| NetPolicy.CaptureAndBypassCover | app/tools/ip-family-tests.cpp:347-360 | For any table whose prefixes are apart, each address lies in exactly one captured or bypassed prefix, and their sizes add up to all addresses |
| NetPolicy.V6CoverExactly | app/tools/ip-family-tests.cpp:333-360 | Every IPv6 address lies in exactly one of the eight captured and three bypassed prefixes |
| DeadTunnel.WatchedSession.Step | app/tools/dead-tunnel-verdict-tests.cpp:114-149 | A tick of the session, its counters, hold, trackers and verdict, is the specification's |
| DeadTunnel.WatchedSession.Sample | app/tools/dead-tunnel-verdict-tests.cpp:90-104 | A completed sample of the session is the specification's |
| DeadTunnel.ReasonExactly | app/src/Service/DeadTunnelVerdict.h:281-365 | Each reason is given exactly when it holds and none before it does: a packet back outranks them all, then come the sdk's silence, traffic with nothing back, and no exit |
| DeadTunnel.CountdownExactly | app/src/Service/DeadTunnelVerdict.h:367-392 | The countdown is shown exactly when nothing has come back, nothing is due and something is within the notice, and it is the least time after which something is |
| DeadTunnelRuns.SignalsKnown | app/tools/dead-tunnel-verdict-tests.cpp:114-149 | In every run what a verdict is given on is read off the run: its samples, its starts of the session's and the traffic's windows, the packets back and sent since, and its refusals |
| DeadTunnelRuns.StopsExactly | app/src/Service/DeadTunnelVerdict.h:281-365 | In every run a tick gives each of the three reasons exactly on what the run holds |
| DeadTunnelRuns.CountdownIsLeastTime | app/src/Service/DeadTunnelVerdict.h:367-392 | In every run the countdown a tick shows is the least time after which another would stop the session with nothing come back, but for an sdk still answering that falls silent first |
| DeadTunnelRuns.NotSilentWithinWindow | app/src/Service/DeadTunnelVerdict.h:323-336 | The sdk is never blamed within its window of a completed sample or of a start of the windows |
| DeadTunnelRuns.HeldOnlyUnresponsive | app/src/Service/DeadTunnelVerdict.h:281-392 | In every run, a tick that ends out of balance stops the session, or warns that it will, only for a silent sdk |
| DeadTunnelRuns.HeldExactlySinceRefusal | app/src/Service/DeadTunnelVerdict.h:98-121 | The hold is up exactly from a refusal until a reading that was read, not refused, not displaced by a no-permission result, and at the refused generation or with a provider admitted past a reset |
| DeadTunnelRuns.NoStopWithinWindow | app/src/Service/DeadTunnelVerdict.h:338-365 | NoExit never fires within its full window of a release, a freeze or a sample with a proven exit, and NoInbound never within its own |
| DeadTunnelRuns.DeadIsStopped | app/src/Service/DeadTunnelVerdict.h:281-365 | In every run, once its windows have started a session that gets nothing back is stopped: by the first tick past the unresponsive window if the sdk has not answered, held or not, and in balance, once it has, by the first past the slow window |
| DeadTunnelRuns.TrafficVerdictRests | app/src/Service/DeadTunnelVerdict.h:338-365 | A traffic verdict rests on no proven exit for its whole window, counted no further back than the session's start |
| BalanceRecovery.BalanceRecovery.Observe | app/src/Common/BalanceGate.h:485-518 | An observation on the object, and the retry it returns, are the specification's |
| BalanceRecovery.AtMostThreeRetries | app/src/Common/BalanceGate.h:400-402 | At most three retries between refills: a new ask, a clear, or a retried connection that stayed up |
| BalanceRecovery.RetriesKnown | app/src/Common/BalanceGate.h:490-493 | In every run the retries counted are those made since the last refill: a new ask, a clear, or an unheld request long enough after the last retry's own time |
| BalanceRecovery.LastRetryKnown | app/src/Common/BalanceGate.h:506-508 | In every run the state keeps the time of the last retry |
| BalanceRecovery.HeldKnown | app/src/Common/BalanceGate.h:487-489 | In every run a connection is held exactly when the last observation saw a requested one out of balance |
| BalanceRecovery.ArmedExactly | app/src/Common/BalanceGate.h:397-399 | In every run the wait is armed at a moment exactly when a refusal, a new hold or a low reading armed it then and nothing since retried, cleared or let go |
| BalanceRecovery.RetriesExactly | app/src/Common/BalanceGate.h:397-405 | In every run a retry is made exactly on a reading of enough balance, while a start waits or a connection is held, with a retry left, fetched no earlier than the moment the wait was armed at; it is a start exactly when one waits |
| BalanceRecovery.ArmedBetweenRetries | app/src/Common/BalanceGate.h:397-399 | Between two retries the wait is armed again: by a new ask, a new hold or a low reading |
| BalanceRecovery.RebuildsAgainExactly | app/src/Common/BalanceGate.h:397-405 | Since a rebuild with no low reading, new ask or other retry, a connection is rebuilt again exactly when it was let go and held anew, has been held since, and a reading of enough balance was fetched after that, with a retry left |
| BalanceRecovery.RebuiltTwiceWithoutLowReading | app/src/Common/BalanceGate.h:397-399 | A connection held, let go and held again is rebuilt twice without a low reading, each reading fetched by the time it is observed |
| BalanceRecovery.WaitsExactly | app/src/Common/BalanceGate.h:466-480 | A start waits exactly when it was refused and nothing since has replaced it, cleared it or run it again |
| BalanceRecovery.StartIsTheLastAsk | app/src/Common/BalanceGate.h:403-405 | A start runs again only for the user's last ask, made since the last clear and not run again before |
| BalanceRecovery.StartsExactly | app/src/Common/BalanceGate.h:468-515 | A waiting start runs again exactly on a reading of enough balance fetched no earlier than its refusal, or than the arming that was already there |
| BalanceRecovery.StartOnAnOlderReading | app/src/Common/BalanceGate.h:397-399 | A start refused while a connection was already held runs again on a reading fetched before the refusal |

## Left out

- DriverRuns.TrackedExactlyTheDescendants: process ids are as the kernel reports them; a process id reused before its exit event is one process to the driver and to the model.
- Driver.Driver.TrackPid: the doubled capacity and the byte sizes of allocations are unbounded here; the 32-bit count would wrap only past two billion processes.
- Driver.Driver.Classify: the callout's early returns (no write right, no process id), the clipping of the image path to 65534 bytes and the rewriting of the address; the decision itself is modelled.
- DriverSchedule.Run: handlers still running while the driver unloads; the unload is the schedule's last section.
- CaptureSpec.TicketsNeverRevive: revisions are unbounded rather than 64-bit counters.
- CaptureTransaction.ApplyCapture: a rollback that itself throws, which the source would run a second time, and the deadlines of the service's own stages.
- GateRuns.InvHolds: a UI thread that serves posted work from inside the serving of another launch.
- LaunchLoop.Launch: the relaunch's wait for an update to end, and the command line's arguments.
- ExitDrain.DisconnectRunsBeforeSettling: what a pass does inside the sdk, the gesture's tap hold, and the caps as wall-clock times; a settle that gives up at its cap promises nothing; sign-ins and sign-outs change the account at any time before an ending.
- AppRuleRows.Sheet.Want: sizes are unbounded rather than 32-bit, and case folding is of ASCII letters.
- LinkRedaction.RedactLogTextIsIdempotent: texts of bytes and of UTF-16 units are both texts of characters, since every unit above 0x7F reads the same; the length is below 2^64, past which the count would no longer fit the 40 characters the recognition reads.
- LinkRedaction.CopyWithoutLinks: opening, comparing and writing the files.
- AuthLink.Parse: other contracts than the page's current one.
- ApprovalNetwork.NamesItsHost: the network a space is and the version of its request, which read the host.
- DataInfo.NextIsOneMore: 64-bit overflow far outside any date.
- NetPolicy.Subtract: an IPv6 address's two 64-bit halves are one number; the order of its bytes in the route and filter calls.
- DeadTunnelRuns.NoStopWithinWindow: counters are unbounded; the reading of a counter while another thread moves it is one value.
- BalanceRecovery.AtMostThreeRetries: what the retried connect does, and the banner's lines and kinds.
- The out-of-balance latch, the data-limit gate and the notice tracker: short tables a reading settles.
- WFP registration and the kernel's device and symlink setup; the service's pipe, wintun and route writes; the SDK; the WinUI pages, their strings and the drawn maps.
- LinkInCommandLine and the routing of links of other hosts.
