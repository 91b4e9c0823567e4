# Machinekit: models of its stateful cores, with proofs

Each module models one piece of the repository that changes state step by step, and proves
what that piece is for over every input, every run or every reachable state. Operations on
objects are classes and methods that work in place; each is proved against a function of the old
state, and the theorems are about those functions.

| module | models | main results |
|---|---|---|
| RtapiApp | loading, unloading and shutting down realtime modules | ReverseOrderIffUpward, ShutdownInReverse |
| Dlist, HalFunctSpec, HalFunct | functions on HAL threads: circular lists, a shared free list, use counts | RunSound, AddAtPosition, DelFirst, AddThenDel, FreeSound and the methods of HalData |
| StatusReplication, StatusServer | incremental publication of the machine status | ReplicaFollowsPoll, CyclePublishes, Topic.Update |
| BossTimer, BossSpindle, BossLimit, BossAmp | the Bridgeport PLC: timers, spindle and brake, limit switches, amplifiers | Interlock, DriveWaitsForBrake, BrakeWaitsForSpindle, DriveStarts, BrakeReturns, LimitFollowsHistory, FaultIsDelayedNotReady, NeverShortIff |
| Base64Encoder, Base64Decoder | resumable base64 | EncodedIsRfc4648, RoundTrip, DecodedLength |
| SyslogAsync, Slist, SyslogLogger | a bounded queue flushed without blocking, whose flush may log, on two linked lists | RunFromStart, FlushTurn, FlushDelivers, FlushKeeps, ReportIsOneLevelDeep, HearsIff and the methods of Logger |
| TimerTask | 64-bit multiplication, division and decimal printing by shifts | LongLongToDecStr, UllDiv, DivTen, UllMul |
| Bitfile | the Xilinx bitfile container | BitfileRoundTrip, ReadExactly, BuiltIsAccepted |
| ZwsFraming | fragmentation and reassembly of multipart messages | RelayDelivers, OtherFlagApart |

Some intended properties hold only under a condition; each is stated with the exact condition.

- rtapi_app.cc calls std::remove and ignores its result. A slot it has moved from and not refilled
  holds, by the C++ standard, an unspecified string; in the model each call may keep the text of
  any such slots and empty the others. Shutdown is in reverse order for all runs if and only if no
  call keeps a slot, from the third on, and empties a later one. Otherwise the vector n, n, x, y can become x, y, x,
  empty, and x is closed before y.
- bitfile.c writes only the first chunk of each of the tags a to e and drops chunks with tag 0
  (strchr finds the terminator), so lookups survive a write and a read if and only if there are
  no such chunks to lose.
- syslog_async.c lowers its backlog on closing to the number of entries allocated. When there is none,
  the logger accepts no message again until it is tuned; whenever an entry or a backlog is left it
  can be made to accept one.
- syslog_async.c clears its count of lost messages before it logs the report. The losses are reported if and
  only if the mask lets warnings through; otherwise they are forgotten.
- webtalk_zws_policy.cc says that more than 1000 frames are refused; a message of up to 1002 frames
  passes, because the check is made before a frame is appended and not on the last frame.
- boss_plc.c keeps the nanoseconds carried from an earlier use of a timer when it is enabled again.
  A delay is never short if and only if nothing is carried or the timeout is 0, with one
  nanosecond allowed for a timeout of 1 ms; otherwise some periods end it early by the carry (one
  nanosecond less for 1 ms). The first brake-off delay is never short; later delays of drive, brake
  and fault can be, as runs from the start show.

A client of the status service keeps what it has, replaces it on a full update and merges an
incremental one by field path; items of repeated fields are addressed by their index, and an absent
field reads as its default. In the model of replication a poll is a function from paths to values.

## Model

| member | source | states |
|---|---|---|
| RtapiApp.ReverseOrderIffUpward | src/executables/rtapi_app/src/rtapi_app.cc:508-585 | For any set of ways in which single calls of std::remove may leave their slots: over all sequences of successful and failed loads and unloads, shutdown closes the loaded modules in exact reverse order of their current load if and only if no allowed way keeps the text of a slot (from the third on) and empties a later one |
| RtapiApp.ShutdownInReverse | src/executables/rtapi_app/src/rtapi_app.cc:605-619 | If every call, those of the shutdown included, leaves its slots so (all kept and all emptied are special cases), every run is shut down completely, each live module closed once, newest first, although every unload rewrites the vector under the reverse iterator |
| RtapiApp.KeptBelowEmptiedBreaks | src/executables/rtapi_app/src/rtapi_app.cc:1527-1531 | A call that keeps slot i and empties slot i + 1 makes the shutdown order of some run wrong, whatever the shutdown itself leaves |
| RtapiApp.RunTracks | src/executables/rtapi_app/src/rtapi_app.cc:508-585 | Invariant of every run whose calls keep no slot below an emptied one: the live names are the loaded modules without repetition, and ordering them by last occurrence in the vector gives the load order, whatever stale slots it has |
| RtapiApp.LoadedFrom | src/executables/rtapi_app/src/rtapi_app.cc:508-585 | A module that is live after a run was loaded by some successful load at which it was not live, has not been unloaded since, and is known under the path given then |
| RtapiApp.StaysLoaded | src/executables/rtapi_app/src/rtapi_app.cc:508-585 | Conversely a module stays live after any load that meets every condition, until it is unloaded |
| RtapiApp.ExitReverses | src/executables/rtapi_app/src/rtapi_app.cc:613-618 | With such calls the reverse walk from any point where all live names are still ahead closes exactly those, in reverse load order, and leaves no module |
| RtapiApp.ExitStep | src/executables/rtapi_app/src/rtapi_app.cc:613-618 | With such a call one step of the walk either skips a stale slot or closes the newest live module, and what is closed plus what is left never changes |
| RtapiApp.CloseNewest | src/executables/rtapi_app/src/rtapi_app.cc:613-618 | A slot that names a live module names the newest one, and unloading it by such a call keeps the invariant for the slots below |
| RtapiApp.RemovedKeepsOrder | src/executables/rtapi_app/src/rtapi_app.cc:1527-1531 | std::remove without erase, if it keeps no slot below an emptied one, keeps the relative order of last occurrences of the other names |
| RtapiApp.LastRemoved | src/executables/rtapi_app/src/rtapi_app.cc:1527-1531 | For every way of leaving the slots: the last occurrence of another name stays where it was if that slot kept it, else is at a kept slot between, else where filtering moves it |
| RtapiApp.TracksUnload | src/executables/rtapi_app/src/rtapi_app.cc:566-585 | An unload by such a call keeps the invariant for the live names without the one unloaded |
| RtapiApp.TracksLoad | src/executables/rtapi_app/src/rtapi_app.cc:558-559 | A successful load keeps the invariant with the new name as the newest |
| RtapiApp.App.DoLoadCmd | src/executables/rtapi_app/src/rtapi_app.cc:508-564 | Returns 0 exactly when the module opens, is not loaded yet, has an entry point, takes its arguments and starts, the code of the entry point if only that fails, and -1 otherwise; only a success is recorded and appended |
| RtapiApp.App.DoUnloadCmd | src/executables/rtapi_app/src/rtapi_app.cc:566-585 | Returns 0 exactly when the module is loaded; only then it is closed, erased and removed from the order |
| RtapiApp.App.RemoveModule | src/executables/rtapi_app/src/rtapi_app.cc:1527-1531 | The in-place forward move computes the filtered names followed by what is left of the old tail, at the old length |
| RtapiApp.App.ExitActions | src/executables/rtapi_app/src/rtapi_app.cc:605-619 | The loop over the vector it rewrites computes the specified shutdown |
| HalFunctSpec.AddAtPosition | src/libraries/hal/src/hal_funct.c:221-303 | It succeeds, returning 0, if and only if function and thread are found and compatible and the position is not 0 and at most one beyond the length either way; it then makes the new entry the position-th of its thread, counted from the start or from the end, holding the function's own kind, argument and code and the barriers given, leaves all other entries and threads alone, counts one user more of that function alone and makes a new cell only if none is spare; otherwise it returns -EINVAL and changes nothing |
| HalFunctSpec.DelFirst | src/libraries/hal/src/hal_funct.c:308-365 | Deleting succeeds if and only if function and thread are found, the function is in use and the thread calls it; it then takes the first such entry off that thread, counts one user less and makes one cell spare, and touches nothing else; otherwise it returns -EINVAL and changes nothing |
| HalFunctSpec.ExportStores | src/libraries/hal/src/hal_funct.c:80-127 | Which refusal of an export has which error code, exactly; an accepted export stores the function as given, with no users, and changes no other |
| HalFunctSpec.OwnersThatExport | src/libraries/hal/src/hal_funct.c:94-111 | Only a realtime component may export, and after hal_ready only an instance of it |
| HalFunctSpec.FindsSuffixed | src/libraries/hal/src/hal_funct.c:207-235 | A function is found by its own name first, else by the name with .funct added, of which at most 40 characters count |
| HalFunctSpec.RunSound | src/libraries/hal/src/hal_funct.c:197-455 | After any sequence of export, add, del and free calls from threads without entries: users equals the entries over all threads, a non-reentrant function has at most one, floating-point functions are only on threads that allow them, and spare plus used entries equal all ever made |
| HalFunctSpec.RunKeepsSound | src/libraries/hal/src/hal_funct.c:197-455 | The same invariant from any state that has it |
| HalFunctSpec.AddSound | src/libraries/hal/src/hal_funct.c:245-303 | Adding, accepted or refused, keeps the invariant |
| HalFunctSpec.DelSound | src/libraries/hal/src/hal_funct.c:333-360 | Deleting, accepted or refused, keeps the invariant |
| HalFunctSpec.FreeSound | src/libraries/hal/src/hal_funct.c:414-455 | After freeing a function no thread mentions it, every thread keeps its other entries in order, all other functions stay as they are, and the invariant holds; the shortcut for users equal to 0 skips nothing |
| HalFunctSpec.ExportSound | src/libraries/hal/src/hal_funct.c:90-127 | Exporting keeps the invariant: a new name is on no thread |
| HalFunctSpec.AddThenDel | src/libraries/hal/src/hal_funct.c:197-365 | Deleting right after adding a function that was not on the thread succeeds and restores all threads and counts |
| HalFunctSpec.FirstEntry | src/libraries/hal/src/hal_funct.c:343-363 | The entry deleted is the first one that calls the function; none is found only when there is none |
| HalFunctSpec.FindName | src/libraries/hal/src/hal_funct.c:250-255 | The thread found has the name; none is found only when no thread has it |
| HalFunctSpec.PurgedAll | src/libraries/hal/src/hal_funct.c:441-455 | Purging the threads one after the other gives all threads without the function and moves as many entries to the free list as called it |
| HalFunct.HalData.DlistAddAfter | src/libraries/hal/src/hal_funct.c:301 | Relinking four pointers inserts the cell at one place of one circular list; all other lists stay, and every cell is again on exactly one list |
| HalFunct.HalData.DlistRemoveEntry | src/libraries/hal/src/hal_funct.c:430 | Unlinking deletes exactly that cell from its list, makes it the only loose one and returns its successor |
| HalFunct.HalData.AllocFunctEntryStruct | src/libraries/hal/src/hal_funct.c:367-392 | Takes the first free entry if there is one and makes a new one only otherwise |
| HalFunct.HalData.FreeFunctEntryStruct | src/libraries/hal/src/hal_funct.c:394-409 | Takes the entry off its function's count and puts it at the front of the free list |
| HalFunct.HalData.FromStart | src/libraries/hal/src/hal_funct.c:264-273 | The walk from the head stops at the cell of the specified index or refuses exactly when the position is too high |
| HalFunct.HalData.FromEnd | src/libraries/hal/src/hal_funct.c:274-286 | The walk backwards, with its one step more, stops at the cell of the specified index or refuses exactly when the position is too low |
| HalFunct.HalData.FindInsertionPoint | src/libraries/hal/src/hal_funct.c:260-286 | Either walk agrees with the index of the position |
| HalFunct.HalData.HalExportFunct | src/libraries/hal/src/hal_funct.c:80-127 | A name too long or taken, an owner that is missing, not realtime, or past hal_ready without being an instance is refused with the code of the original; otherwise the function is added with no users |
| HalFunct.HalData.HalAddFunctToThread | src/libraries/hal/src/hal_funct.c:197-306 | On the linked cells, computes the specified return code and new threads, counts and free list, and every cell stays on exactly one list |
| HalFunct.HalData.AddEntryAfter | src/libraries/hal/src/hal_funct.c:287-303 | Inserts the filled entry into one thread, uses a spare entry if there is one and counts one user more |
| HalFunct.HalData.LinkEntry | src/libraries/hal/src/hal_funct.c:300-303 | Linking the loose entry inserts it at the index found, leaves the free list alone and counts one user more |
| HalFunct.HalData.HalDelFunctFromThread | src/libraries/hal/src/hal_funct.c:308-365 | On the linked cells, computes the specified return code and new state |
| HalFunct.HalData.FindEntry | src/libraries/hal/src/hal_funct.c:343-363 | The walk ends at the first entry of the function or, at the head, with none |
| HalFunct.HalData.DropEntry | src/libraries/hal/src/hal_funct.c:429-432 | Unlinking and freeing one entry deletes it from its thread, adds it to the free list, takes one user off and leads on to its successor |
| HalFunct.HalData.ThreadCb | src/libraries/hal/src/hal_funct.c:414-439 | Deleting while walking leaves exactly the entries of other functions, in order |
| HalFunct.HalData.FreeFunctStruct | src/libraries/hal/src/hal_funct.c:441-455 | Over all threads, computes the specified purge and removes the function |
| Dlist.RingAdd | src/libraries/hal/src/hal_funct.c:301 | add-after on a circular list gives the circular list of the sequence with the cell inserted |
| Dlist.RingRemove | src/libraries/hal/src/hal_funct.c:430 | remove on a circular list gives the circular list of the sequence without the cell; its next pointer is the successor |
| Dlist.LinkedInsert | src/libraries/hal/src/hal_funct.c:367-409 | Inserting into one of several disjoint lists leaves the others linked and all disjoint |
| Dlist.LinkedRemove | src/libraries/hal/src/hal_funct.c:367-409 | Removing from one of several disjoint lists leaves the others linked and all disjoint |
| StatusReplication.ReplicaFollowsPoll | src/executables/mkwrapper/src/mkwrapper.py:1741-1754 | Whatever a client held and whatever polls and subscription events came before: after a poll of a topic whose last event was a subscription, the client reads as the server on every field and list item, every plain value is the polled one and every float is within 0.0001 of it |
| StatusReplication.RunInStep | src/executables/mkwrapper/src/mkwrapper.py:1741-1908 | Over every run a subscribed client is in agreement or about to get everything, and a topic that never had its first run is about to be sent in full |
| StatusReplication.ServeInStep | src/executables/mkwrapper/src/mkwrapper.py:1347-1383 | One event keeps that |
| StatusReplication.RunSubscribed | src/executables/mkwrapper/src/mkwrapper.py:1884-1908 | The server serves a topic exactly when its last subscription event was a subscription |
| StatusReplication.DeltaIsExact | src/executables/mkwrapper/src/mkwrapper.py:821-929 | What a cycle collects is exactly the polled paths that differ from the status at its start, with the polled value, and laid over the start they give the new status, also where items with default fields were added |
| StatusReplication.CyclePublishes | src/executables/mkwrapper/src/mkwrapper.py:1636-1641 | What a cycle publishes: nothing without a subscription; one full update, of its new status, if one is due; otherwise nothing exactly when no polled path differs from the status, and else one incremental update of exactly the paths that differ, with the polled values; in each case the flags afterwards |
| StatusReplication.SubscriptionIsFull | src/executables/mkwrapper/src/mkwrapper.py:1884-1908 | A subscription publishes nothing itself and makes the next cycle publish the whole status; its end makes cycles publish nothing; neither changes the status |
| StatusReplication.WhatDiffers | src/executables/mkwrapper/src/mkwrapper.py:821-824 | Coordinates and float fields differ if they are more than 0.0001 apart, all else if it is not equal |
| StatusReplication.AddItemAdds | src/executables/mkwrapper/src/mkwrapper.py:1581-1600 | Adding a missing item gives it all its fields, changes nothing that is read and adds nothing to the message |
| StatusReplication.ItemsArePresent | src/executables/mkwrapper/src/mkwrapper.py:895-917 | After a cycle the status has an item for every item of the poll |
| StatusReplication.FieldsArePresent | src/executables/mkwrapper/src/mkwrapper.py:1432-1476 | The first cycle gives every plain field and coordinate a value |
| StatusReplication.StepsCoverThePoll | src/executables/mkwrapper/src/mkwrapper.py:1478-1634 | A cycle compares exactly the fields, coordinates, list items and axes in use of the topic |
| StatusReplication.CycleFollows | src/executables/mkwrapper/src/mkwrapper.py:821-824 | After a cycle the status follows the poll on every compared path, without accumulated drift |
| StatusReplication.RepeatedPollIsQuiet | src/executables/mkwrapper/src/mkwrapper.py:1636-1641 | Polling the same values again publishes nothing and changes nothing that is read |
| StatusReplication.TouchesLists | src/executables/mkwrapper/src/mkwrapper.py:895-917 | The loops over repeated fields compare exactly the items that the poll has |
| StatusReplication.TouchesAxes | src/executables/mkwrapper/src/mkwrapper.py:1575-1634 | The axis loop compares exactly the fields of the axes before the break |
| StatusServer.Topic.UpdateProtoValue | src/executables/mkwrapper/src/mkwrapper.py:879-885 | Writes status and message together, and reports a change, exactly when the value differs |
| StatusServer.Topic.UpdateProtoFloat | src/executables/mkwrapper/src/mkwrapper.py:887-893 | The same for floats with the threshold |
| StatusServer.Topic.UpdateListItem | src/executables/mkwrapper/src/mkwrapper.py:898-915 | Adding a missing item, comparing it and copying a changed item into the message is one specified step |
| StatusServer.Topic.UpdateProtoList | src/executables/mkwrapper/src/mkwrapper.py:895-917 | The loop over the polled values performs the steps of the list, and reports a change exactly when the message grew |
| StatusServer.Topic.CheckPosition | src/executables/mkwrapper/src/mkwrapper.py:840-877 | Collects exactly the coordinates that moved by more than the threshold |
| StatusServer.Topic.UpdateProtoPosition | src/executables/mkwrapper/src/mkwrapper.py:919-929 | Comparing all coordinates first and merging afterwards has the effect of comparing them one by one, and the copy into the message loses nothing |
| StatusServer.Topic.UpdateValues | src/executables/mkwrapper/src/mkwrapper.py:1478-1505 | The loops over names perform the comparisons of their paths in order |
| StatusServer.Topic.UpdateFloats | src/executables/mkwrapper/src/mkwrapper.py:1507-1519 | The same for floats |
| StatusServer.Topic.UpdatePositions | src/executables/mkwrapper/src/mkwrapper.py:1521-1533 | The loop over positions performs their comparisons; no position is in the message before its turn |
| StatusServer.Topic.UpdateLists | src/executables/mkwrapper/src/mkwrapper.py:1535-1573 | The repeated fields are updated one after the other |
| StatusServer.Topic.UpdateAxis | src/executables/mkwrapper/src/mkwrapper.py:1577-1633 | Adding a missing axis and collecting its changes aside has the effect of collecting them in the message |
| StatusServer.Topic.UpdateAxes | src/executables/mkwrapper/src/mkwrapper.py:1575-1634 | The loop with its break performs the comparisons of the axes in use and no other |
| StatusServer.Topic.Update | src/executables/mkwrapper/src/mkwrapper.py:1429-1641 | One cycle of a topic on its objects in place gives the status, flags and published message whose exact content CyclePublishes states |
| StatusServer.Wrapper.UpdateStatus | src/executables/mkwrapper/src/mkwrapper.py:1741-1754 | A poll is a cycle of every subscribed topic and leaves the others and their flags alone |
| StatusServer.Wrapper.ProcessStatus | src/executables/mkwrapper/src/mkwrapper.py:1884-1908 | A subscription event sets the two flags of the topic named and of no other |
| StatusServer.TouchesAtOnce | src/executables/mkwrapper/src/mkwrapper.py:840-877 | Comparing paths one after the other is the same as comparing all of them with the start |
| StatusServer.DoAside | src/executables/mkwrapper/src/mkwrapper.py:1603-1633 | Changes collected in an item of their own and added afterwards are the changes collected in place |
| BossSpindle.Interlock | attic/hal/components/attic/boss_plc.c:857-949 | In every reachable state of every run, for any inputs: the brake output and a drive output are never both on, nor forward and reverse, nor increase and decrease |
| BossSpindle.DriveWaitsForBrake | attic/hal/components/attic/boss_plc.c:863-895 | A drive output rises only when the brake has been released continuously, since a refresh that saw the brake input off, for at least the delay sampled there less what the timer carried then, at most 1 ms |
| BossSpindle.BrakeWaitsForSpindle | attic/hal/components/attic/boss_plc.c:910-934 | Once a driven spindle has been seen running, the brake output rises only after a later refresh saw the spindle stopped and the delay sampled there has passed, less what the timer carried then |
| BossSpindle.DriveStarts | attic/hal/components/attic/boss_plc.c:863-895 | If a refresh releases the brake and from then on the brake input stays off and the speed is never zero, a drive is on as soon as more than the sampled delay has passed, in the direction that a refresh since then asked for, unless a counter can wrap |
| BossSpindle.BrakeReturns | attic/hal/components/attic/boss_plc.c:897-934 | If a running spindle is asked to stop, is first seen stopped at some refresh and the brake input stays on from then on, the brake is on again once more than the delay sampled there has passed, unless a counter can wrap |
| BossSpindle.ZeroTwiceStops | attic/hal/components/attic/boss_plc.c:897-918 | In every run two refreshes in a row with a speed of zero leave no drive on |
| BossSpindle.RefreshOutputs | attic/hal/components/attic/boss_plc.c:862-949 | In a sound state: exactly when a refresh turns a drive on or off, has the brake on, and passes increase or decrease on |
| BossSpindle.GearReverses | attic/hal/components/attic/boss_plc.c:884-890 | Below the gear threshold the drive turns against the sign of the speed, above it with it |
| BossSpindle.FirstDelayIsFull | attic/hal/components/attic/boss_plc.c:863-895 | Until the brake output has been on for the first time, a drive output rises only after the whole delay |
| BossSpindle.ShortDriveDelay | attic/hal/components/attic/boss_plc.c:863-895 | A run from the start in which a drive output rises half a millisecond before its delay of 2 ms is over |
| BossSpindle.ShortBrakeDelay | attic/hal/components/attic/boss_plc.c:921-934 | A run from the start in which the brake output rises before its delay of 2 ms after the stop is over |
| BossSpindle.FindRelease | attic/hal/components/attic/boss_plc.c:863-871 | Outside the state off, the brake has been released since some refresh and the timer counts from there or has finished |
| BossSpindle.FindStop | attic/hal/components/attic/boss_plc.c:910-934 | Since the spindle was on, it is on or stopping, or some refresh saw it stopped and the timer counts from there or has finished |
| BossSpindle.DirectionChosenAtStart | attic/hal/components/attic/boss_plc.c:881-918 | A drive that is on has kept, since it rose, the direction asked for by the speed at that refresh: the spindle reverses only through a stop |
| BossSpindle.DriveStopsOnZeroSpeed | attic/hal/components/attic/boss_plc.c:897-918 | In every run a drive output falls only on a speed of zero |
| BossSpindle.RunSound | attic/hal/components/attic/boss_plc.c:857-949 | Invariant of every run: a drive is on exactly in the states waiting for on and on, the brake only in the state off, and the timer runs only in the two brake waits |
| BossSpindle.StepSound | attic/hal/components/attic/boss_plc.c:857-949 | A refresh keeps the invariant of every run |
| BossSpindle.Plc.RefreshSpindle | attic/hal/components/attic/boss_plc.c:857-949 | The refresh of the pins in place is one specified step |
| BossSpindle.Plc.SwitchState | attic/hal/components/attic/boss_plc.c:862-941 | The switch on the updated timer does the specified transition |
| BossTimer.NeverShortIff | attic/hal/components/attic/boss_plc.c:1151-1205 | A one-shot keeps its whole timeout for every way of refreshing if and only if the timeout is 0, or nothing is carried when it is enabled, or the timeout is 1 ms and at most 1 ns is carried |
| BossTimer.ShortestAttained | attic/hal/components/attic/boss_plc.c:1174-1205 | The shortest time to expiry, what the timeout needs less the carry, is attained by some periods for every carry and timeout |
| BossTimer.OneShotTimer | attic/hal/components/attic/boss_plc.c:1151-1205 | Over any periods after enabling: expired only if carry plus elapsed time reaches the timeout (and exceeds it for 1 ms); while running, without 32-bit overflow, count and carry are exactly the carry at enabling plus the elapsed time; and once that exceeds the timeout the timer has expired |
| BossTimer.OneShotStep | attic/hal/components/attic/boss_plc.c:1174-1197 | One update of a one-shot timer never gains time, also when 32 bits wrap, and ends it only after its timeout |
| BossTimer.TickTotal | attic/hal/components/attic/boss_plc.c:1180-1185 | Carrying nanoseconds into milliseconds conserves time; only wrapping loses some |
| BossTimer.OneShotExact | attic/hal/components/attic/boss_plc.c:1174-1197 | Where no counter can wrap, an update counts its period to the nanosecond and a timer still enabled is within its timeout |
| BossTimer.ContinuousStep | attic/hal/components/attic/boss_plc.c:1174-1197 | A continuous timer stays enabled and, when it reaches its timeout, loses only that much of what it has counted |
| BossTimer.Timer.TimerUpdate | attic/hal/components/attic/boss_plc.c:1174-1197 | The update in place, with 32-bit unsigned arithmetic |
| BossLimit.LimitFollowsHistory | attic/hal/components/attic/boss_plc.c:1016-1079 | After every run the latches are those of a specification over the history alone: closed exactly when a latch is set, naming the direction seen at the last open refresh or both; with the switch open the state is the sign of the displacement since the refresh before |
| BossLimit.Limit.Refresh | attic/hal/components/attic/boss_plc.c:1016-1079 | The refresh of latches and pins in place is one specified step, fall-through included |
| BossAmp.FaultIsDelayedNotReady | attic/hal/components/attic/boss_plc.c:1119-1137 | After every run: a fault implies enabled and not ready now, and enabled continuously for at least the ready delay less what the timer carried; and not ready past the delay, without overflow, is a fault |
| BossAmp.ShortFaultDelay | attic/hal/components/attic/boss_plc.c:1119-1137 | A run from the start in which a fault comes before its delay of 2 ms is over |
| BossAmp.Carry | attic/hal/components/attic/boss_plc.c:1180-1185 | The carry when the amplifier was last enabled is at most 1 ms |
| BossAmp.TimerSinceRise | attic/hal/components/attic/boss_plc.c:1119-1137 | While enabled, the timer is the one started at the last rise of enable and updated ever since |
| BossAmp.CarryBound | attic/hal/components/attic/boss_plc.c:1119-1137 | In every run the carry is at most 1 ms and the remembered enable is the last one seen |
| BossAmp.Rise | attic/hal/components/attic/boss_plc.c:1124-1128 | The last rise: enabled ever since and not before |
| BossAmp.Amp.Refresh | attic/hal/components/attic/boss_plc.c:1119-1137 | The refresh in place is one specified step |
| Base64Encoder.EncodedIsRfc4648 | src/executables/webtalk/src/cencode.c:26-108 | For every chunking of n bytes: the output without line feeds is section 4 of RFC 4648 with padding, and it is 4*ceil(n/3) + floor(n/54) + 1 bytes long |
| Base64Encoder.EncodedIsLines | src/executables/webtalk/src/cencode.c:75-80 | For every chunking the output is the encoding broken into lines of 72 characters, each closed by a line feed, and one final line feed |
| Base64Encoder.ChunksAreOneBlock | src/executables/webtalk/src/cencode.c:26-85 | Encoding chunk by chunk is encoding everything at once |
| Base64Encoder.EncodeAppend | src/executables/webtalk/src/cencode.c:26-85 | Stopping anywhere and resuming from the saved state changes neither output nor state |
| Base64Encoder.RestIsLines | src/executables/webtalk/src/cencode.c:26-108 | From any column and group boundary the remaining output finishes the line and goes on in full lines |
| Base64Encoder.LinesText | src/executables/webtalk/src/cencode.c:75-80 | The lines without line feeds are the encoding |
| Base64Encoder.LinesLength | src/executables/webtalk/src/cencode.c:10 | The exact length of the lines |
| Base64Encoder.QuadMasks | src/executables/webtalk/src/cencode.c:47-73 | The masks and shifts on the bytes of a group give the digits of base 64 of the 24-bit number it is |
| Base64Encoder.QuadChars | src/executables/webtalk/src/cencode.c:47-73 | What the coroutine keeps between its cases gives the same characters, also when the input ends early |
| Base64Encoder.DigitsAreAlphabet | src/executables/webtalk/src/cencode.c:19-24 | Each digit is written as the character at its place in A-Z, a-z, 0-9, +, /; padding is the equals sign |
| Base64Encoder.EncodeBlockend | src/executables/webtalk/src/cencode.c:87-108 | Writes the pending character, the padding and the last line feed, and nothing beyond |
| Base64Encoder.EncodeBlock | src/executables/webtalk/src/cencode.c:26-85 | The resumable loop writes exactly the specified characters at the front of the buffer, leaves the rest alone and saves the specified state |
| Base64Decoder.RoundTrip | src/executables/webtalk/src/cdecode.c:25-87 | For every chunking of the plain bytes and every other chunking of the encoded text, decoding gives back the bytes, whatever the dead byte holds |
| Base64Decoder.DecodedLength | src/executables/webtalk/src/cdecode.c:25-87 | For any text and chunking the count is floor(3k/4) for k characters of the alphabet |
| Base64Decoder.ChunksAreOneStream | src/executables/webtalk/src/cdecode.c:25-87 | Output and state depend only on the concatenated text, up to the byte carried in step a |
| Base64Decoder.DeadByte | src/executables/webtalk/src/cdecode.c:37-47 | The byte carried in step a is never read |
| Base64Decoder.DecodeAppend | src/executables/webtalk/src/cdecode.c:25-87 | Stopping anywhere and resuming changes neither output nor state |
| Base64Decoder.DecodedLengthFrom | src/executables/webtalk/src/cdecode.c:25-87 | The same count from any step |
| Base64Decoder.EncodeDecodeValue | src/executables/webtalk/src/cdecode.c:10-17 | The decoding table inverts the encoding table on the alphabet |
| Base64Decoder.DecodeEncodeValue | src/executables/webtalk/src/cdecode.c:10-17 | And the other way round on the values below 64 |
| Base64Decoder.DecodesAlphabet | src/executables/webtalk/src/cdecode.c:10-17 | Exactly those 64 characters are decoded, each to its place |
| Base64Decoder.GroupBits | src/executables/webtalk/src/cdecode.c:47-82 | The masks and shifts reassemble the three bytes of a group |
| Base64Decoder.DecodeLinesFrom | src/executables/webtalk/src/cdecode.c:25-87 | From any column the lines of any bytes decode to the bytes |
| Base64Decoder.DecodeSkip | src/executables/webtalk/src/cdecode.c:38-46 | Characters outside the alphabet change nothing |
| Base64Decoder.DecodeBlock | src/executables/webtalk/src/cdecode.c:25-87 | The resumable loop writes exactly the specified bytes and touches at most one byte beyond the count it returns |
| SyslogAsync.RunFromStart | attic/hal/lib/syslog_async.c:113-385 | For every run of log, flush, tune and close calls, each meeting any finite sequence of partial sends, interrupts, blocking, reconnects and failures and then a socket that takes everything: queued plus free entries equal those allocated, at most 99; accepted messages are sent whole, with the length they were logged with, given up or queued; rejected ones are given by a report that was accepted, by one that the mask held back, or are still counted; messages start in acceptance order and their bytes are contiguous over partial sends |
| SyslogAsync.RunConserves | attic/hal/lib/syslog_async.c:113-385 | The same from any state that has it |
| SyslogAsync.FlushTurn | attic/hal/lib/syslog_async.c:175-296 | Each turn of the flush uses up an answer of the oracle or lowers twice the queue length plus one for pending losses, report and nested flush included: with unlimited successful sends and finitely many other answers the flush ends from any queue |
| SyslogAsync.IterateProgress | attic/hal/lib/syslog_async.c:175-288 | A turn that goes round again without freeing the head uses up an answer |
| SyslogAsync.FlushDrains | attic/hal/lib/syslog_async.c:169-297 | If no answer asks to come back later, a flush ends with an empty queue and, if there was anything to send, with no loss still counted |
| SyslogAsync.FlushDelivers | attic/hal/lib/syslog_async.c:169-297 | After any run from the start, a flush over a socket that breaks connections and sends in parts but never blocks or fails for good leaves every message ever accepted sent whole, in order, but for those given up before it |
| SyslogAsync.FlushGivesUpNone | attic/hal/lib/syslog_async.c:169-297 | Such a flush empties the queue and gives up no message, its own report included |
| SyslogAsync.TurnOutcome | attic/hal/lib/syslog_async.c:175-288 | One turn: exactly which answers end the flush, give the head up or free it, what becomes of the socket and its state, and that what is recorded as sent is what the socket took |
| SyslogAsync.TuneSets | attic/hal/lib/syslog_async.c:113-126 | tunelog_async sets the size asked for within 1 to 99, never below the entries allocated, and nothing else |
| SyslogAsync.MaskIsLastSet | attic/hal/lib/syslog_async.c:103-111 | Over every run the mask is the one that the last close or non-empty mask call chose |
| SyslogAsync.DoMasks | attic/hal/lib/syslog_async.c:103-158 | No call but these two changes the mask |
| SyslogAsync.FlushConserved | attic/hal/lib/syslog_async.c:169-297 | A flush keeps the books, with its reports |
| SyslogAsync.LogConserved | attic/hal/lib/syslog_async.c:308-385 | Logging keeps them, with its flush |
| SyslogAsync.IterateConserved | attic/hal/lib/syslog_async.c:175-288 | One turn of the loop, whichever label it jumps to, keeps them |
| SyslogAsync.SendConserved | attic/hal/lib/syslog_async.c:183-196 | A partial send keeps them: bytes go out from where the last send stopped |
| SyslogAsync.ReportIsOneLevelDeep | attic/hal/lib/syslog_async.c:283-294 | A report issued by the flush finds the entry just freed: if warnings pass the mask it is accepted with its losses, and the flush inside it loses nothing and issues no report; if not it is muted |
| SyslogAsync.FlushWithoutLossIsPlain | attic/hal/lib/syslog_async.c:175-296 | A flush that starts without losses equals a flush that cannot log at all |
| SyslogAsync.FlushKeeps | attic/hal/lib/syslog_async.c:169-297 | A flush rejects no message and allocates no entry; if it clears the count of losses, one report giving them, of the length its text has, is accepted if and only if warnings pass the mask, and otherwise the losses are muted; if it does not, nothing is accepted |
| SyslogAsync.LogRejectsIffFull | attic/hal/lib/syslog_async.c:315-385 | Over a whole call, flush and report included, a message that passes the mask is rejected if and only if all entries are queued and none may be allocated; otherwise it is accepted with its length; besides it one report is accepted exactly when the losses are cleared and warnings pass the mask; a call that the mask holds back changes nothing |
| SyslogAsync.DrainReportsIffHeard | attic/hal/lib/syslog_async.c:283-316 | Draining a queue with losses reports them if and only if warnings pass the mask; else count and report are gone |
| SyslogAsync.LossesVanish | attic/hal/lib/syslog_async.c:283-316 | A run from the start, with warnings masked, in which a message is lost, the count is back to zero and no report of it is ever accepted |
| SyslogAsync.HearsIff | attic/hal/lib/syslog_async.c:113-385 | From any conserved state some run without a tune call accepts another message if and only if an entry exists or the backlog is not zero |
| SyslogAsync.DeafUntilTuned | attic/hal/lib/syslog_async.c:308-385 | Otherwise no run of log, flush, mask and close calls accepts, sends or reports anything |
| SyslogAsync.CloseRestores | attic/hal/lib/syslog_async.c:136-158 | Closing flushes, gives the socket up, lets all eight levels through and lowers the backlog to five or to the entries allocated if fewer, so to zero exactly when none was allocated before the call; it changes nothing else |
| SyslogAsync.ClosedBeforeFirstMessage | attic/hal/lib/syslog_async.c:136-158 | A program that closes its log before the first message never logs one, whatever else it calls but tune |
| SyslogLogger.Logger.CellsKept | attic/hal/lib/syslog_async.c:283-288 | Every cell allocated is on exactly one of the two linked lists, so together they are as long as there are cells |
| SyslogLogger.Logger.FreeHead | attic/hal/lib/syslog_async.c:283-287 | The head cell itself moves to the front of the free list |
| SyslogLogger.Logger.TakeEntry | attic/hal/lib/syslog_async.c:318-321 | A free cell is taken off its list, or a new one is allocated, or there is none |
| SyslogLogger.Logger.AppendEntry | attic/hal/lib/syslog_async.c:325-336 | The cell is hung behind the last one found by walking along the queue; both lists stay intact |
| SyslogLogger.Logger.Accept | attic/hal/lib/syslog_async.c:318-360 | On the linked cells, a message is taken in or counted as lost as specified |
| SyslogLogger.Logger.Advance | attic/hal/lib/syslog_async.c:183-190 | After a partial send the head cell and the record of bytes sent are as specified |
| SyslogLogger.Logger.WriteHead | attic/hal/lib/syslog_async.c:177-258 | One turn on the fields in place, with its jumps, ends as specified |
| SyslogLogger.Logger.Reconnect | attic/hal/lib/syslog_async.c:216-258 | The reconnection on the fields in place ends as specified |
| SyslogLogger.Logger.ReopenStream | attic/hal/lib/syslog_async.c:252-257 | The reopen label ends as specified |
| SyslogLogger.Logger.FreeAndReport | attic/hal/lib/syslog_async.c:283-294 | Freeing the head and reporting losses, through the logger itself, is the specified step |
| SyslogLogger.Logger.LogWriteAsync | attic/hal/lib/syslog_async.c:169-297 | The loop on the linked cells, mutually recursive with the logger, ends and computes the specified flush |
| SyslogLogger.Logger.VsyslogAsync | attic/hal/lib/syslog_async.c:308-385 | Logging on the linked cells ends and computes the specified state |
| SyslogLogger.Logger.TunelogAsync | attic/hal/lib/syslog_async.c:113-126 | The backlog is set within its limits and never below the entries allocated |
| SyslogLogger.Logger.SetlogmaskAsync | attic/hal/lib/syslog_async.c:103-111 | An empty mask changes nothing, any other is set; the old one is returned |
| SyslogLogger.Logger.CloselogAsync | attic/hal/lib/syslog_async.c:136-158 | Closing in place gives the specified state |
| Slist.AppendList | attic/hal/lib/syslog_async.c:332-335 | Pointing the last cell at a new one appends it to the list |
| Slist.SharedCount | attic/hal/lib/syslog_async.c:283-321 | Two lists that share out the cells 1 to n are together n long |
| TimerTask.LongLongToDecStr | attic/timer/timertask.c:163-197 | For every signed 64-bit value, the most negative included, the buffer starts with its canonical decimal and a terminator, and nothing beyond 24 bytes is written despite the overlapping shift |
| TimerTask.DecimalCanonical | attic/timer/timertask.c:163-197 | That text parses back to the value, has no leading zero except in 0, is never -0 and has only digits after the sign |
| TimerTask.UllDiv | attic/timer/timertask.c:134-161 | For every 64-bit a and b > 0 the exact quotient is returned and the exact remainder left, and no shift, addition or subtraction wraps; b = 0 gives 0 |
| TimerTask.SubtractDown | attic/timer/timertask.c:150-160 | The subtracting loop alone, from any divisor shifted up far enough |
| TimerTask.DivTen | attic/timer/timertask.c:108-127 | floor(x/10) for every 64-bit x, and nothing wraps |
| TimerTask.UllMul | attic/timer/timertask.c:91-106 | The product modulo 2^64 for all 64-bit factors |
| TimerTask.MulTenExact | attic/timer/timertask.c:76-84 | Ten times the argument modulo 2^64 |
| TimerTask.DigitsCanonical | attic/timer/timertask.c:181-196 | Digits parse back and have no leading zero |
| TimerTask.FixedStrip | attic/timer/timertask.c:180-196 | The fixed-width digits are zeros followed by the canonical digits |
| TimerTask.WriteDigits | attic/timer/timertask.c:180-196 | Printing a magnitude at an offset leaves its canonical digits and a terminator there and changes nothing around |
| TimerTask.WriteFixed | attic/timer/timertask.c:180-186 | The loop writes every digit of the fixed width |
| TimerTask.SkipZeros | attic/timer/timertask.c:187-195 | The scan stops at the first canonical digit, also for all zeros |
| TimerTask.CopyDown | attic/timer/timertask.c:196 | The overlapping copy moves the text down unharmed |
| Bitfile.BitfileRoundTrip | attic/bitfile.c:158-357 | For every sequence of add calls, writing then reading succeeds, keeps the other chunks in order and writes the same bytes again; and every lookup by tag and number gives what the accepted calls added if and only if they added no zero tag and no Xilinx tag twice |
| Bitfile.BuiltIsAccepted | attic/bitfile.c:318-342 | After any calls the chunks are those of the first 49 calls that are not too long, in order |
| Bitfile.BuiltStoresAll | attic/bitfile.c:318-342 | Up to 49 calls with nothing too long are all stored, each with its own tag and data |
| Bitfile.AddStores | attic/bitfile.c:318-342 | A chunk is refused, with -1 and no change, if and only if it is too long for a two-byte length or 49 are stored; otherwise it is stored behind the others |
| Bitfile.ReadExactly | attic/bitfile.c:158-227 | A file is read as some chunks if and only if it is the 13 header bytes followed by exactly those chunks as written, at most 50 and each within its length field |
| Bitfile.ParseChunkInverse | attic/bitfile.c:109-156 | A chunk that is read was written there: tag, length and body as the writer puts them |
| Bitfile.SerializedBytes | attic/bitfile.c:229-265 | Byte by byte: the tag, a big-endian length of two bytes for a to d and zero and of four otherwise, and the body |
| Bitfile.CanonicalOrder | attic/bitfile.c:285-309 | Chunks tagged a to e come first, each tag once, in this order; all others follow in the order in which they were added |
| Bitfile.OthersKeepOrder | attic/bitfile.c:298-309 | Each chunk that is not a Xilinx one is written, between the same others as before |
| Bitfile.NthIsNumbered | attic/bitfile.c:344-357 | Every chunk is found under its tag and the number of chunks of that tag before it |
| Bitfile.CanonicalKeepsLookups | attic/bitfile.c:285-309 | The order in which chunks are written preserves all lookups exactly under that condition |
| Bitfile.CanonicalNth | attic/bitfile.c:285-309 | What a lookup finds after writing, for every tag and number: of a Xilinx tag only the first chunk survives, of a zero tag none |
| Bitfile.CanonicalTwice | attic/bitfile.c:285-309 | Reordering twice changes nothing more |
| Bitfile.WriteThenRead | attic/bitfile.c:109-316 | Reading what was written gives the chunks in the order written, for all storable chunks |
| Bitfile.ParseSerialized | attic/bitfile.c:109-156 | Reading one written chunk gives it back and leaves the rest of the file |
| Bitfile.LenRoundTrip | attic/bitfile.c:133-142 | The big-endian lengths of both widths are inverse to each other within their ranges |
| Bitfile.BuiltStorable | attic/bitfile.c:318-342 | Chunks added successfully always fit the file, and there are fewer than the maximum |
| Bitfile.NthFound | attic/bitfile.c:344-357 | A lookup succeeds exactly for numbers below the count of the tag and gives a chunk of that tag |
| Bitfile.BitfileStruct.FindChunk | attic/bitfile.c:344-357 | The loop finds the chunk of the given tag and number, or none |
| Bitfile.BitfileStruct.Add | attic/bitfile.c:318-342 | Refuses a small chunk that is too long and a full table, otherwise appends |
| Bitfile.BitfileStruct.WriteFile | attic/bitfile.c:267-316 | The file gets the header and the chunks in preferred order |
| Bitfile.BitfileStruct.WriteFirsts | attic/bitfile.c:285-297 | The first loop writes the first chunk of each Xilinx tag in order |
| Bitfile.BitfileStruct.WriteOthers | attic/bitfile.c:298-309 | The second loop writes the other chunks in their order |
| Bitfile.BitfileStruct.WriteChunk | attic/bitfile.c:229-265 | Appends tag, length and body |
| Bitfile.BitfileStruct.ReadChunk | attic/bitfile.c:109-156 | Tells the end of the file, a defect and a chunk apart and leaves the rest unread |
| Bitfile.BitfileStruct.ReadFile | attic/bitfile.c:158-227 | Succeeds exactly on a header and at most the maximum of whole chunks, and then holds them in order |
| Bitfile.BitfileStruct.ReadChunks | attic/bitfile.c:193-210 | The loop, its bound and the check for trailing bytes |
| ZwsFraming.RelayDelivers | src/executables/webtalk/src/webtalk_zws_policy.cc:168-259 | Any sequence of messages of at least one frame, with any bytes, arrives with the same boundaries and nothing left over if and only if each has at most 1002 frames; otherwise exactly those before the first longer one arrive and the relay refuses |
| ZwsFraming.RelayAll | src/executables/webtalk/src/webtalk_zws_policy.cc:168-259 | The same from any session between messages |
| ZwsFraming.ReceiveMessage | src/executables/webtalk/src/webtalk_zws_policy.cc:216-246 | One message is delivered whole or refused with its first 1001 frames held |
| ZwsFraming.ReceivePrefix | src/executables/webtalk/src/webtalk_zws_policy.cc:231-246 | What the accumulator holds after any prefix of a message |
| ZwsFraming.ReceiveAllAppend | src/executables/webtalk/src/webtalk_zws_policy.cc:205-259 | Receiving in two parts is receiving at once, up to the first refusal |
| ZwsFraming.FrameFlags | src/executables/webtalk/src/webtalk_zws_policy.cc:168-196 | On the wire each part has the character 1 in front, the last one 0 |
| ZwsFraming.OtherFlagApart | src/executables/webtalk/src/webtalk_zws_policy.cc:251-257 | A frame with any other flag is delivered at once as a message of its own, and the message under construction and everything received later are as without it |
| ZwsFraming.DeliverableMeaning | src/executables/webtalk/src/webtalk_zws_policy.cc:15 | The deliverable part is the longest prefix of messages within the bound |
| ZwsFraming.ToWebsocket | src/executables/webtalk/src/webtalk_zws_policy.cc:168-196 | The popping loop flags every frame but the last as having more to come |
| ZwsFraming.Relay.HandleWebsocketFrame | src/executables/webtalk/src/webtalk_zws_policy.cc:205-259 | One frame in place accumulates, delivers, passes on or refuses as specified, and refuses exactly when it returns -1 |

## Left out

- Sockets, ZeroMQ, libwebsockets, protobuf encoding, dlopen, shared memory, clocks and files are not modelled: their answers are parameters (what a load attempt meets, what send and connect return, the bytes of a file).
- RtapiApp: recording instance parameters, flavour configuration, stopping threads and user components, and messages are not part of the model; shutdown without the HAL library loaded, where the original dereferences a null module, is not either. A module name is never empty in the runs considered.
- RtapiApp.Leftover: a moved-from string either keeps its text or is empty; other values that the standard allows are not considered.
- HalFunct: null and lock checks, the mutex, the lookup of an owner (its outcome is a parameter), timing pins of an export, and running out of shared memory are left out; halg_foreach is a plain loop over the threads. The list primitives are those of a standard list with a sentinel; their header is not part of this model.
- StatusReplication: the io, config and ui topics, the tool table, commands, previews and pings are left out; they use the same update functions. Enumerations and flags are numbers; total_lines, which the original keeps itself, is part of the poll.
- StatusServer.Wrapper.ProcessStatus: the original compares a byte with a string; the model follows the intent that the first byte tells a subscription from its end.
- StatusServer.Topic.CheckPosition: the nine comparisons written out in the original are a loop over the nine coordinates.
- BossSpindle: feed hold, jogging, coolant, the Z limit and the export of pins are left out; speeds and positions are reals, so not-a-number is not covered; periods are not negative.
- BossTimer: no timer of the component has a callback, so calling one is left out.
- Base64Encoder.EncodeBlock: the tables are written as ranges of characters, and a byte is eight bits where the original has a signed char; the pointers into the buffers are indices.
- SyslogAsync: the console fallback, formatting, the copy to standard error, opening a log and the delay after logging are left out; a message is its length and number. A socket that answers with retries without end, on which the original loops for ever, is outside the oracle.
- TimerTask: printing in hexadecimal and the timer task itself are left out.
- Bitfile: allocation and write errors are left out; an allocation of zero bytes succeeds. A negative length read from a file counts as a defect.
- ZwsFraming.Relay.HandleWebsocketFrame: a websocket frame without any byte, which a client can send, is not covered: the original then reads a flag from an older buffer and passes a length that has wrapped round.
- ZwsFraming: the branch that inspects SUB and XSUB messages, statistics and the queue towards the browser are left out.
- The message bus, component shutdown, triple buffers, the Python bitfile tool, the protobuf decoder and the launcher are not modelled: their essential parts are libraries or headers that are not in the repository, or their intended properties fail in the code at hand.
