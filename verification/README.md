# Verified models of apps/, base/ and ash/ components

Dafny models of the stateful parts of the apps and base layers of the browser, and of
one presubmit check, with proofs about whole runs of them. `dafny verify dfyconfig.toml`
checks everything. The state that the program keeps in objects is kept in classes here,
and every method of a class is proved against a specification on values; what the program
promises is then proved of that specification, for every run.

* **Saved files.** `SavedFilesSpec`, `SavedFilesRecency`, `SavedFilesStore`, `SavedFiles`, `SavedFilesService`
  (with `OrderedKeys` for iteration over an ordered map). The queue of retained files is held
  three times: in the registered entries' sequence numbers, in a map ordered by sequence number,
  and in a preference dictionary. The three are proved to agree in every reachable state, and the
  queue to be a plain bounded list of ids, through renumbering, eviction, the compaction loop that
  erases and inserts while it iterates, unloading and reloading.
* **Window geometry.** `GeometrySpec`, `GeometryRuns`, `GeometryLimit`, `GeometryCache` (with `Gfx`, and
  `Lexicographic` for key order). A write-behind cache over stored dictionaries: what a client reads never shows whether
  data is cached, dirty or stored. `WindowBounds` takes a remembered geometry to the bounds a
  window opens with.
* **Atomics.** `Atomics`, `AtomicClients`, `Barrier`. Threads that make one shared access at a time,
  in any interleaving, on the compare-and-swap retry loops, the ARMv5 kernel helper loops and the
  load/store-exclusive loops. Every call is proved to take effect at one instant; sequence numbers
  and the barrier closure are proved on top of that.
* **Asynchronous reads.** `AsyncRead`, `AsyncSocket`. A read that completes runs a callback that may
  read again, to any depth.
* **Window registry.** `RegistrySpec`, `Registry`. The list of app windows and the lifetime events
  derived from it.
* **Focus rotation.** `FocusRotation`, `FocusCycling`.
* **Include order.** `IncludeLines`, `IncludeForms`, `IncludeOrder`, `IncludeFile`. The presubmit check of the order of
  `#include` lines.
* **Logarithms.** `Bits`.

The environment is an input: clock readings, the outcome of system calls, of widget activation and of
conditional stores, which thread runs next, what callbacks do, and which work area a display has.

Some results say where the code does something its callers may not expect:

* With an entry limit equal to the largest sequence number the transient number exceeds that limit
  (`SavedFilesSpec.NeverExceedsIff`); production uses 500 and the largest 32-bit integer.
* Saving the default geometry for a window that is not cached leaves an entry that no flush is
  scheduled for (`GeometrySpec.SaveCoherentIff`, `GeometryRuns.DefaultSaveIncoherent`), and a save before
  an extension has been loaded or read hides what is stored for its other windows
  (`GeometryRuns.KeepsAnswerIff`, `GeometryRuns.EarlySaveHides`).
* The documented maximum of 100 windows per app is not kept over runs: a load can pass it, and so can
  the default save of an uncached window (`GeometryLimit.AlwaysWithinIff`, `GeometryLimit.LimitPassed`).
* A read that becomes pending after its watch call has failed is never answered
  (`AsyncRead.AttendedIff`, `AsyncRead.FirstReadStranded`, `AsyncRead.AnswerableIffWatched`).
* The removal of a window of another type than the default is reported as the deactivation of an
  app that was not reported active, and an icon that comes before its window can hide an activation;
  `RegistrySpec.AlwaysAgreesIff` says exactly for which histories the events are right.
* With a window to focus and no active widget, focus rotation never gives the focus to the windows
  (`FocusCycling.LapOverAtWindow`).
* With neither a window nor an active widget, focus rotation may not end
  (`FocusRotation.EndsIffAccepted`, `FocusRotation.UnwillingWidgetLoops`) and, going forward, tries the second widget first
  (`FocusRotation.FirstSlotSkipped`).
* The include-order check raises a type error on a system include that is not closed
  (`IncludeFile.FileFailsIff`, `IncludeFile.OpenIncludeFails`): it puts a bare number on a list that it later unpacks as pairs.

In the load/store-exclusive compare-and-swap the comment (base/atomicops_internals_arm_gcc.h:69)
disagrees with the instructions (lines 71-77), which store when the values are equal; the model follows
the instructions.

## Model

| member | source | states |
|---|---|---|
| SavedFilesSpec.EnqueueRefinesList | apps/saved_files_service.cc:326-361 | Read in key order, the ids of the queue after enqueueing are the plain bounded list: unchanged if the file is last, moved to the back if present, appended with the front dropped if over the limit; renumbering and compaction are invisible |
| SavedFilesSpec.EnqueueWellFormed | apps/saved_files_service.cc:326-361 | Enqueueing keeps sequence numbers positive and strictly increasing and ids distinct |
| SavedFilesSpec.EnqueueFits | apps/saved_files_service.cc:333-346 | Between operations no number exceeds the high-water mark (one less than the maximum, if the entry limit is below it), and the number computed before compaction exceeds it by one at most |
| SavedFilesSpec.RunRefinesList | apps/saved_files_service.h:75-80 | For every run of enqueue calls, the queue is the bounded list and respects both limits |
| SavedFilesRecency.MostRecentlyUsed | apps/saved_files_service.h:75-80 | After every run of enqueue calls on an empty queue, the files in it are exactly those after whose last use fewer than maxEntries others have been used, from the least to the most recently used |
| SavedFilesRecency.NumbersKept | apps/saved_files_service.cc:333-346 | While the next number is below the maximum, the file gets it and every other file that stays keeps its number |
| SavedFilesRecency.NumbersRestart | apps/saved_files_service.cc:398-421 | When the next number reaches the maximum, all files are numbered anew from 1 |
| SavedFilesSpec.NeverExceedsIff | apps/saved_files_service.cc:389-401 | No run makes the service compute a number above the maximum, exactly when the entry limit is strictly below it |
| SavedFilesService.ServiceNeverExceedsIff | apps/saved_files_service.cc:333-346 | The same over every run of the service, of registering, retaining and host destruction: no number above the maximum is computed, exactly when the entry limit is strictly below it |
| SavedFilesSpec.ListsUnique | apps/saved_files_service.cc:181-184 | An ordered map from numbers to ids has exactly one reading in key order, of the map's size |
| SavedFilesStore.ListsRenumber | apps/saved_files_service.cc:403-421 | In round j of the compaction loop the new number is free (or is the entry's own), and afterwards the first j entries are numbered 1 to j and the others are as they were |
| SavedFilesStore.IteratorStep | apps/saved_files_service.cc:405-420 | After j rounds of erasing and inserting, the iterator's next stop is the first entry that has not been visited |
| SavedFilesStore.LinkedDetermined | apps/saved_files_service.cc:424-436 | Two valid states with the same dictionary retain the same queue with the same numbers |
| SavedFilesStore.ReloadRetained | apps/saved_files_service.cc:296-311 | Persistence round trip: from any valid state, dropping and reloading gives the same queue, numbers, paths and flags, and drops exactly the files that are registered and not retained |
| SavedFilesStore.CopiesAreEntries | apps/saved_files_service.cc:106-136 | The entries read straight from the preferences are those that loading would register |
| SavedFilesStore.LoadableMeans | apps/saved_files_service.cc:116-133 | An entry is loaded if it is a dictionary with a path and a number other than 0; a missing directory flag is false |
| SavedFiles.ExtensionPrefs.AddSavedFileEntry | apps/saved_files_service.cc:53-69 | Stores a complete entry; its debug check is a precondition that every caller meets |
| SavedFiles.ExtensionPrefs.UpdateSavedFileEntry | apps/saved_files_service.cc:72-85 | Changes only the number of a stored entry; its debug checks are preconditions that every caller meets |
| SavedFiles.ExtensionPrefs.RemoveSavedFileEntry | apps/saved_files_service.cc:88-97 | Removes one entry of one extension |
| SavedFiles.ExtensionPrefs.ClearSavedFileEntries | apps/saved_files_service.cc:100-103 | Removes an extension's dictionary |
| SavedFiles.ExtensionPrefs.GetSavedFileEntries | apps/saved_files_service.cc:106-136 | Returns exactly the loadable entries of the dictionary, each once |
| SavedFiles.SavedFiles.constructor | apps/saved_files_service.cc:305-311 | A new container registers exactly the stored files and its three structures agree |
| SavedFiles.SavedFiles.LoadSavedFileEntriesFromPreferences | apps/saved_files_service.cc:424-436 | The loading loop registers every stored entry and brings the three structures into agreement |
| SavedFiles.SavedFiles.RegisterFileEntry | apps/saved_files_service.cc:315-324 | Registers a new id without retaining it; a known id is left as it is |
| SavedFiles.SavedFiles.EnqueueFileEntry | apps/saved_files_service.cc:326-361 | The three structures still agree, and the queue is Enqueue of the old queue |
| SavedFiles.SavedFiles.MaybeCompactSequenceNumbers | apps/saved_files_service.cc:389-401 | Compacts exactly when the last number has reached the maximum |
| SavedFiles.SavedFiles.CompactSequenceNumbers | apps/saved_files_service.cc:403-421 | The loop that erases and inserts under its iterator ends with numbers 1 to n in the old order, in all three structures |
| SavedFiles.SavedFiles.IsRegistered | apps/saved_files_service.cc:363-365 | Answers whether the id is registered |
| SavedFiles.SavedFiles.GetAllFileEntries | apps/saved_files_service.cc:377-387 | Returns every registered file once, with its path, flag and number |
| SavedFilesService.SavedFilesService.GetOrInsert | apps/saved_files_service.cc:284-294 | Loading an extension cannot be seen: every extension's view is as before |
| SavedFilesService.SavedFilesService.RegisterFileEntry | apps/saved_files_service.cc:230-235 | Changes the view of this extension only, by the file if it is new |
| SavedFilesService.SavedFilesService.EnqueueFileEntry | apps/saved_files_service.cc:237-240 | Changes the queue of this extension only, loaded or not |
| SavedFilesService.SavedFilesService.GetAllFileEntries | apps/saved_files_service.cc:242-248 | Returns the same entries whether the extension is loaded or not |
| SavedFilesService.SavedFilesService.IsRegistered | apps/saved_files_service.cc:250-253 | Answers from the view and changes no view |
| SavedFilesService.SavedFilesService.Clear | apps/saved_files_service.cc:296-303 | Keeps exactly the retained files of the extension |
| SavedFilesService.SavedFilesService.ClearQueue | apps/saved_files_service.cc:269-272 | Leaves the extension with no file at all |
| SavedFilesService.SavedFilesService.OnHostDestroyed | apps/saved_files_service.cc:207-219 | Keeps the retained files if the extension may retain, else none |
| SavedFilesService.SavedFilesService.Replay | apps/saved_files_service.cc:207-303 | After any run of calls on any extensions, every extension's view is that of the simple model, and all invariants hold |
| SavedFilesService.RunViewIsList | apps/saved_files_service.cc:326-361 | For every run of registering, retaining and host destruction, an extension's queue is the bounded list and respects both limits |
| SavedFilesService.CallMeans | apps/saved_files_service.cc:207-240 | What each call changes of an extension's files: the first registration counts, retaining changes none, host destruction keeps the retained ones or none, other extensions are untouched |
| GeometrySpec.DecodeEncode | apps/shell_window_geometry_cache.cc:108-129 | Round trip: loading what was stored gives back the windows |
| GeometrySpec.EncodeKeys | apps/shell_window_geometry_cache.cc:117-127 | Each value is stored under its own key |
| GeometrySpec.DecodeKeys | apps/shell_window_geometry_cache.cc:236-263 | Each value is read from its own key; a missing key reads as 0, and so does a negative width or height |
| GeometrySpec.WriteBehindRun | apps/shell_window_geometry_cache.cc:49-132 | Over every run whose saves are not of the default geometry, on any store: unsynced extensions are cached, a cached extension that is not unsynced equals its stored dictionary, unsynced data has a flush scheduled |
| GeometrySpec.CheckedStep | apps/shell_window_geometry_cache.cc:112-116 | On stores whose windows meet the debug checks of SyncToStorage, saves of valid geometries keep every cached and stored window within them |
| GeometrySpec.SaveCoherentIff | apps/shell_window_geometry_cache.cc:55-63 | A save leaves synced extensions equal to their stored dictionary, except exactly when it is the default geometry for an uncached window of a synced extension and that window alone is not what is stored |
| GeometryRuns.DefaultSaveIncoherent | apps/shell_window_geometry_cache.cc:59-63 | A default save on an empty cache is such a save |
| GeometrySpec.Invisible | apps/shell_window_geometry_cache.cc:100-178 | Flushing, unloading, reading and shutdown change no answer |
| GeometryRuns.FlushStores | apps/shell_window_geometry_cache.cc:100-132 | The timer, shutdown and unloading write every unsynced extension as it is cached and no other, leave none unsynced, and change the cache only by the extension that is unloaded |
| GeometryRuns.RestartKeepsAnswers | apps/shell_window_geometry_cache.cc:176-178 | On any store and after any run, a new cache over the store that shutdown leaves answers all that could be read before, and exactly the same if no save was of the default geometry |
| GeometryRuns.ReadCaches | apps/shell_window_geometry_cache.cc:147-151 | A read or load caches the extension, and changes nothing else |
| GeometrySpec.LoadKeepsAnswers | apps/shell_window_geometry_cache.cc:226-231 | Loading never overwrites what could be read |
| GeometrySpec.LoadAnswers | apps/shell_window_geometry_cache.cc:224-231 | After a load, a cached window is answered as before, and any other as it is stored |
| GeometrySpec.SaveThenRead | apps/shell_window_geometry_cache.cc:77-78 | A valid save can be read back at once: the window just saved is not evicted |
| GeometrySpec.SavedWindows | apps/shell_window_geometry_cache.cc:65-89 | A save changes the saved window and removes exactly the evicted one: the first in key order of those changed longest ago, future times counting as now |
| GeometrySpec.EvictsMeans | apps/shell_window_geometry_cache.cc:72-88 | The evicted window is not the saved one, and of the others the one with the least time, future times counting as now, and of these the first in the order of strings; only if there are more than 100 |
| GeometrySpec.KnownIgnored | apps/shell_window_geometry_cache.cc:57-63 | A save of what is cached, with nothing to flush, changes nothing |
| GeometrySpec.SaveStamps | apps/shell_window_geometry_cache.cc:65-97 | Any other save of a geometry that is not the default one gives the window that geometry and the present time, marks the extension for a flush that is scheduled, stores nothing, and leaves the other windows' geometry, and their time unless there are too many |
| GeometryLimit.SavedBoundIff | apps/shell_window_geometry_cache.cc:55-89 | A save leaves at most 100 windows, or no more than there were, exactly unless it is the default save of an uncached window in a full, synced extension |
| GeometryLimit.WithinIffFits | apps/shell_window_geometry_cache.h:87-88 | One operation keeps every extension within 100 windows exactly if it is not such a save and, when it loads, the stored and cached windows together are at most 100 |
| GeometryLimit.AlwaysWithinIff | apps/shell_window_geometry_cache.h:87-88 | Over every run from a cache within the limit, the limit holds at every moment if and only if every operation meets that condition |
| GeometryLimit.LimitPassed | apps/shell_window_geometry_cache.cc:215-235 | With 100 windows stored, a valid save of another before any load, and then a load, leave 101 |
| GeometryRuns.BackedRun | apps/shell_window_geometry_cache.cc:49-273 | Over every run, whatever is saved, every valid geometry of a cached extension that is not unsynced is also stored, so that dropping the extension loses none |
| GeometryRuns.KeepsAnswerIff | apps/shell_window_geometry_cache.cc:49-98 | Any operation keeps an answer exactly if it does not save another geometry for the window, evict it, or save another window of an extension that is not in the cache |
| GeometryRuns.KeptOverRunIff | apps/shell_window_geometry_cache.cc:49-273 | Over every run an answer that is there stays at every moment if and only if no such operation occurs |
| GeometryRuns.ReadYourWrites | apps/shell_window_geometry_cache.cc:134-174 | On any store, after any operations and whatever operations follow, saves of the default geometry included: a valid saved geometry is read back at every moment if and only if no such operation occurs |
| GeometryRuns.EarlySaveHides | apps/shell_window_geometry_cache.cc:55-98 | A save before the extension has been loaded hides its stored window |
| GeometryCache.ShellWindowGeometryCache.SaveGeometry | apps/shell_window_geometry_cache.cc:49-98 | The new state is Saved of the old one |
| GeometryCache.EvictOldest | apps/shell_window_geometry_cache.cc:72-89 | The loop in key order, which clamps times as it goes, removes the window that Evict defines |
| GeometryCache.ShellWindowGeometryCache.SyncToStorage | apps/shell_window_geometry_cache.cc:100-132 | Writes every unsynced extension, and no other, and leaves none unsynced |
| GeometryCache.EncodeWindows | apps/shell_window_geometry_cache.cc:108-129 | The stored dictionary of an extension's windows |
| GeometryCache.ShellWindowGeometryCache.GetGeometry | apps/shell_window_geometry_cache.cc:134-174 | Loads on demand, and answers from cache or store exactly if the window is known and no part that is asked for is corrupt |
| GeometryCache.ShellWindowGeometryCache.LoadGeometryFromStorage | apps/shell_window_geometry_cache.cc:215-267 | Adds the stored windows that are not cached |
| GeometryCache.DecodeWindow | apps/shell_window_geometry_cache.cc:236-263 | Missing keys keep their defaults, negative sizes become 0 |
| GeometryCache.ShellWindowGeometryCache.OnExtensionUnloaded | apps/shell_window_geometry_cache.cc:269-273 | Flushes everything, then drops the extension |
| GeometryCache.Replay | apps/shell_window_geometry_cache.cc:49-273 | Any run of operations on the object is the run of the state machine, and keeps the invariant and the debug checks |
| Atomics.AccessAtomic | base/atomicops_internals_gcc.h:15-53 | Every shared access of every loop, on every machine, either changes nothing a client can see or performs the whole operation with its result |
| Atomics.LinearizedStep | base/atomicops_internals_arm_gcc.h:175-214 | Every move of any thread keeps linearizability |
| Atomics.Linearizable | base/atomicops_internals_arm_gcc.h:59-146 | For every interleaving on every machine: the effects in their order are a sequential execution that leaves the cell as it is, and each call has one effect, between its invocation and its return, with its result |
| Atomics.LockFree | base/atomicops_internals_gcc.h:41-53 | From the start of a round, two accesses of a thread, with any moves of the others in between, settle its operation, or another thread's operation has taken effect in the meantime, unless a store fails spuriously |
| Atomics.SettlesAlone | base/atomicops_internals_arm_gcc.h:175-214 | A thread that is left alone settles any operation in three accesses at most |
| AtomicClients.ReturnExplained | base/atomicops_internals_gcc.h:27-53 | Every call that returns took effect at one instant inside the call, on a value the cell then held |
| AtomicClients.CompareAndSwapExplained | base/atomicops_internals_gcc.h:15-25 | A compare-and-swap that fails returns a value other than the expected one that the cell held during the call, and writes nothing; one that succeeds replaces the expected value |
| AtomicClients.ExchangeExplained | base/atomicops_internals_gcc.h:27-34 | An exchange returns the value that the cell held, and replaces it, at one instant inside the call |
| AtomicClients.LoadExplained | base/atomic_ref_count.h:70-76 | A load returns the value that the cell holds at one instant inside the call, and leaves it |
| AtomicClients.StoreExplained | base/atomic_sequence_num.h:32-34 | A store leaves its value in the cell at one instant inside the call |
| AtomicClients.IncrementExplained | base/atomicops_internals_gcc.h:41-53 | An increment leaves in the cell, and returns, the 32-bit number that is the sum modulo 2^32 |
| AtomicClients.RunAddsUp | base/atomicops_internals_arm_gcc.h:202-214 | After every run of increments and loads, on every machine, the cell holds the sum modulo 2^32 |
| AtomicClients.ReturnedSum | base/atomicops_internals_arm_gcc.h:100-119 | In every run, an increment that returns has returned the sum just after its own addition, at one instant inside the call |
| AtomicClients.GetNextDistinct | base/atomic_sequence_num.h:24-27 | Up to 2^32 calls of GetNext in any interleaving return distinct numbers |
| AtomicClients.GetNextCounts | base/atomic_sequence_num.h:24-34 | From 0, a call of GetNext gets the number of calls that have taken effect before it |
| Barrier.DecrementEffect | base/atomic_ref_count.h:31-40 | A decrement makes one call more decremented, and its call the winner exactly if the count is then zero |
| Barrier.InvHolds | base/barrier_closure.cc:28-34 | In every interleaving of at most n calls, or fewer than 2^32 if n is 0: the count is n less the calls that have decremented, modulo 2^32, there is a winner exactly when all n have, and only the winner has touched the closure |
| Barrier.ClosureIsTheWinners | base/barrier_closure.cc:28-34 | The debug check never fails, one decrement returns zero exactly when n calls have decremented, and only that call runs the closure, at most once, and then resets it |
| Barrier.ClosureRunsIff | base/barrier_closure.cc:40-50 | When all calls have finished, the closure has been run and reset, once, if all n calls were made, and not touched otherwise |
| Barrier.NothingToWaitFor | base/barrier_closure.cc:44-45 | With n = 0 the closure runs once, at construction, and not again in any interleaving of fewer than 2^32 calls of Run |
| Barrier.CheckFailsAtZero | base/barrier_closure.cc:28-29 | A call of Run on a barrier with n = 0 fails the debug check |
| Barrier.CallCanFinish | base/barrier_closure.cc:28-34 | From every state that can be reached, any call of Run can go on and finish |
| AsyncRead.RunKeeps | base/async_socket_io_handler_posix.cc:24-65 | Over every run, with reads issued inside callbacks: the i-th callback answers the i-th accepted read, into its buffer and within its length, at most the last read is open and it is the pending one, and the delivered bytes are a prefix of the stream |
| AsyncRead.CountMeans | base/async_socket_io_handler_posix.cc:52-52 | A successful system call hands over the least of what it offers, the buffer takes and the stream has |
| AsyncRead.ReadAnswered | base/async_socket_io_handler_posix.cc:52-63 | A read that succeeds is accepted and its callback runs at once with the next bytes, whatever that callback does then |
| AsyncRead.ReadWaitsOrFails | base/async_socket_io_handler_posix.cc:50-61 | A read that has to wait is accepted and pending and runs no callback; one that fails is not accepted; both have watched the socket first |
| AsyncRead.CallbackReadsTwice | base/async_socket_io_handler_posix.cc:62-63 | A callback may issue a read that is answered at once, by a nested callback, and then one that waits: both are accepted, in order |
| AsyncRead.IdleStopsWatching | base/async_socket_io_handler_posix.cc:36-42 | A readable socket that nobody reads from is not watched any more, until the next read |
| AsyncRead.RunAttended | base/async_socket_io_handler_posix.cc:89-96 | If the watch calls of reads that have to wait succeed, a pending read is on a watched socket, over every run |
| AsyncRead.AttendedIff | base/async_socket_io_handler_posix.cc:50-57 | A read that has to wait is attended exactly if the socket was watched already or the watch call succeeds |
| AsyncRead.PendingAnswered | base/async_socket_io_handler_posix.cc:29-35 | A readable watched socket answers the pending read with the next bytes, or with none if the system call fails |
| AsyncRead.PendingStranded | base/async_socket_io_handler_posix.cc:45-57 | A pending read on a socket that is not watched is never answered |
| AsyncRead.FirstReadStranded | base/async_socket_io_handler_posix.cc:50-57 | One failing watch call is enough: the first read that has to wait is then never answered, whatever follows |
| AsyncRead.AnswerableIffWatched | base/async_socket_io_handler_posix.cc:89-96 | A pending read can still be answered exactly if the socket is watched |
| AsyncSocket.AsyncSocketIoHandler.Read | base/async_socket_io_handler_posix.cc:45-65 | Returns false exactly on an error other than EAGAIN; the state, after all nested callbacks, is that of the specification and consistent |
| AsyncSocket.AsyncSocketIoHandler.OnFileCanReadWithoutBlocking | base/async_socket_io_handler_posix.cc:24-43 | Answers the pending read, which is cleared before its callback runs, or stops watching |
| AsyncSocket.AsyncSocketIoHandler.EnsureWatchingSocket | base/async_socket_io_handler_posix.cc:89-96 | Watches if not watching yet |
| AsyncSocket.Replay | base/async_socket_io_handler_posix.cc:24-65 | Any run of the message loop on a new handler, with its nested callbacks, is a run of the specification and consistent |
| WindowBounds.ClampNearest | apps/shell_window.cc:72-80 | ClampSize gives the allowed size nearest to the given one, and the only one so near |
| WindowBounds.ClampTwice | apps/shell_window.cc:101-109 | Sizes are left alone exactly if allowed; clamping again, also with the effective maximum, changes nothing |
| WindowBounds.AdjustBoundsToBeVisibleOnScreen | apps/shell_window.cc:668-696 | The updates through the pointer give Adjusted, whatever the bounds were |
| Gfx.ContainsIff | apps/shell_window.cc:679-680 | A rectangle contains one that is not empty if it covers all of its points |
| WindowBounds.LoadDefaultsAndConstrain | apps/shell_window.cc:698-738 | The stepwise pipeline gives Loaded |
| WindowBounds.OpensAsAsked | apps/shell_window.cc:698-703 | When nothing is restored, the window opens at the position and in the state asked for, with the size asked for, or 512 or 384 where that is 0, within the limits |
| WindowBounds.OpensAsRemembered | apps/shell_window.cc:676-696 | A restored window opens in its state and with its size, cut to the work area if it moves, within the limits; one that does not move opens where it was |
| WindowBounds.LimitsKept | apps/shell_window.cc:733-736 | The limits come out as they went in, but for a maximum below the minimum |
| WindowBounds.OpensAllowed | apps/shell_window.cc:733-736 | A window always opens with a size that its constraints allow, and never empty |
| WindowBounds.LoadedTwice | apps/shell_window.cc:698-738 | Loading and constraining again changes nothing |
| WindowBounds.OpensInsideIff | apps/shell_window.cc:676-695 | Exactly when a restored window opens inside the work area: if it is moved, when its minimum fits; if it stays, when it starts inside and has room there for its minimum and its clamped size |
| WindowBounds.RestoredInside | apps/shell_window.cc:668-738 | On another work area that the minimum fits, with a remembered size of at least the minimum: inside it, and between minimum and effective maximum |
| WindowBounds.MovedTo | apps/shell_window.cc:687-694 | On each axis a moved window goes to the origin if its minimum does not fit, else stays if it can, else goes to the nearer edge |
| WindowBounds.ReopensAsClosed | apps/shell_window.cc:706-731 | A window closed as it opened opens with the same bounds on the same work area |
| RegistrySpec.MostRecentFirst | apps/shell_window_registry.cc:248-264 | After every history the list has no duplicates and is in strict order of rank: added and activated windows by their last addition or activation, most recent first, then windows only known by their icon, in order of appearance |
| RegistrySpec.AgreesIffGuard | apps/app_lifetime_monitor.cc:80-99 | One call keeps an app's events right exactly if it meets its guard, which speaks of the app's windows before the call; calls of other apps change nothing |
| RegistrySpec.AlwaysAgreesIff | apps/app_lifetime_monitor.cc:80-99 | Throughout a history an app's Activated and Deactivated events alternate, and it is active exactly while a window of it is shown, if and only if every call of its windows meets its guard |
| RegistrySpec.ActiveIffHasWindow | apps/app_lifetime_monitor.cc:80-99 | As long as an app's own windows are of default type and call in the expected order, every call meets its guard, and the app is active exactly while it has an added window |
| RegistrySpec.PanelMisreported | apps/app_lifetime_monitor.cc:93-99 | Adding and removing a window of another type reports the end of an app that was not reported active |
| RegistrySpec.EarlyIconMisreported | apps/app_lifetime_monitor.cc:84-88 | An app whose icon comes early is not reported active when another window is added first |
| Registry.AppLifetimeMonitor.OnShellWindowAdded | apps/app_lifetime_monitor.cc:80-89 | Emits Activated exactly for the first default window of an app |
| Registry.AppLifetimeMonitor.OnShellWindowRemoved | apps/app_lifetime_monitor.cc:93-99 | Emits Deactivated exactly if no window of the app is left |
| Registry.ShellWindowRegistry.AddShellWindow | apps/shell_window_registry.cc:68-71 | The list and the events are those of the specification |
| Registry.ShellWindowRegistry.ShellWindowIconChanged | apps/shell_window_registry.cc:73-77 | An unknown window goes to the back; no event |
| Registry.ShellWindowRegistry.ShellWindowActivated | apps/shell_window_registry.cc:79-81 | The window goes to the front; no event |
| Registry.ShellWindowRegistry.RemoveShellWindow | apps/shell_window_registry.cc:83-90 | The window leaves the list, if it is there, and the monitor is told |
| Registry.ShellWindowRegistry.GetShellWindowsForApp | apps/shell_window_registry.cc:100-109 | The app's windows in the order of the list |
| Registry.ShellWindowRegistry.AddShellWindowToList | apps/shell_window_registry.cc:248-255 | Appends a window that is not in the list |
| Registry.ShellWindowRegistry.BringToFront | apps/shell_window_registry.cc:257-264 | Moves or inserts the window at the front |
| Registry.Replay | apps/shell_window_registry.cc:68-109 | After any history the object holds what the specification says, ranked and without duplicates |
| FocusRotation.EachSlotOnce | ash/focus_cycler.cc:68-76 | From a slot, each slot has its turn exactly once in a lap, the slot itself last |
| FocusRotation.TurnsWithWindow | ash/focus_cycler.cc:58-76 | With a focusable window and no active widget, the widgets have their turns from the first going forward and from the last going backward, and then the loop is over |
| FocusRotation.TurnsFromActive | ash/focus_cycler.cc:58-76 | From active widget i the slots have their turns after or before i around the ring, and the loop is over at i |
| FocusRotation.TurnsWithNeither | ash/focus_cycler.cc:63-101 | With neither, the slots have their turns again and again, going forward from the second one |
| FocusRotation.EndsWithinALap | ash/focus_cycler.cc:63-76 | With a focusable window or an active widget the loop ends within one lap and tries no slot twice, and not the starting one |
| FocusRotation.EndsIffAccepted | ash/focus_cycler.cc:63-101 | With neither, the loop ends exactly if some attempt is accepted |
| FocusRotation.UnwillingWidgetLoops | ash/focus_cycler.cc:63-101 | With neither, a single widget that never accepts keeps the loop going for good |
| FocusRotation.EndsIffSomeWidgetAccepts | ash/focus_cycler.cc:63-101 | With neither, and answers that do not change, the loop ends exactly if some widget accepts |
| FocusRotation.FirstSlotSkipped | ash/focus_cycler.cc:68-72 | With neither, the first slot tried is the second going forward and the last going backward |
| FocusCycling.FocusCycler.RotateFocus | ash/focus_cycler.cc:39-102 | Followed for any number of rounds: the widgets are activated in the order of their turns, the loop ends in the first round in which one accepts, the windows' turn comes or the lap is over, and is still running exactly if there was no such round; without slots it divides by zero |
| FocusCycling.VisitedWithWindow | ash/focus_cycler.cc:68-100 | With a window and no active widget, the widgets activated in k rounds are the first k in order, or the last k in reverse |
| FocusCycling.TriedMeans | ash/focus_cycler.cc:97-100 | A widget that accepts has been activated, last of all; a round that ends the loop otherwise activates none |
| FocusCycling.LapOverAtWindow | ash/focus_cycler.cc:75-79 | Then the lap is over at the windows' slot, which is not given the focus, since the start is looked at first |
| FocusCycling.OutcomeFromActive | ash/focus_cycler.cc:75-100 | From an active widget, the windows get the focus at their slot, and the lap is over at the widget |
| FocusCycling.FocusCycler.FocusWidget | ash/focus_cycler.cc:104-111 | Activates the widget, tells whether it is active, and clears the activating widget |
| FocusCycling.FocusCycler.AddWidget | ash/focus_cycler.cc:35-37 | Appends the widget |
| IncludeOrder.NoProblemIffWellOrdered | PRESUBMIT.py:522-562 | The list of problems is empty exactly if the scope is a sorted block of C system includes, then of C++ system includes, then of project includes |
| Lexicographic.LessIff | PRESUBMIT.py:544-545 | One line is before another if it ends where the other goes on, or has the lesser character where they first differ |
| IncludeOrder.ProblemConcerns | PRESUBMIT.py:538-562 | Every problem is a line with the line before it, or a line of no known class |
| IncludeOrder.TypeErrorIff | PRESUBMIT.py:558-568 | The check of a scope fails exactly if some line has no known class |
| IncludeOrder.PassesIffWellOrdered | PRESUBMIT.py:522-568 | When its lines have all changed, a scope passes exactly if it is well ordered |
| IncludeOrder.ProblemsExact | PRESUBMIT.py:538-562 | The list of problems is exactly this, line by line: a line of no class, alone; a line of a lower class than has been reached, or of that class and before the line above it in the order of strings, with that line |
| IncludeOrder.OutcomeExact | PRESUBMIT.py:522-568 | For any set of changed lines: a type error if some line has no class, else the numbers of exactly the misplaced lines that the change touches, in order |
| IncludeOrder.NoWarningIff | PRESUBMIT.py:564-568 | There is no warning exactly if no misplaced line has changed, nor the line before one |
| IncludeOrder.CheckIncludeOrderForScope | PRESUBMIT.py:522-568 | The two loops give ScopeOutcome |
| IncludeLines.OnlyOpenSystemIncludes | PRESUBMIT.py:530-532 | Among lines that take part, exactly the system includes that are not closed have no class |
| IncludeForms.KindIff | PRESUBMIT.py:530-532 | A C system include is blanks, #include, an angle bracket, anything, ".h>", anything; a C++ one the same with ">" and not the former; a custom one has a quotation mark |
| IncludeForms.SystemIff | PRESUBMIT.py:574-574 | A system include has an angle bracket after #include |
| IncludeForms.CustomIff | PRESUBMIT.py:580-580 | A custom include has a quoted name |
| IncludeForms.ExcludedIff | PRESUBMIT.py:578-579 | Excluded are system includes with a slash, atlbase.h, and the build configuration |
| IncludeForms.EligibleIff | PRESUBMIT.py:636-639 | A line takes part if it is a system or a custom include and none of the excluded ones |
| IncludeForms.DirectiveIff | PRESUBMIT.py:585-586 | A directive is blanks, a number sign, blanks, and one of the six words |
| IncludeForms.UncheckableIff | PRESUBMIT.py:589-591 | Uncheckable are the macro headers of ipc, windows.h, and quoted names with gl and autogen.h at the end |
| IncludeFile.SkipSpecialInclude | PRESUBMIT.py:607-625 | Skips up to the first include, and with it if it is the file's own header |
| IncludeFile.StartsIff | PRESUBMIT.py:607-625 | The lines skipped are no includes but for the last, which may be the file's own header; and the next one, if there is any and no own header was skipped, is an include that is not it |
| IncludeFile.SplitScopes | PRESUBMIT.py:627-640 | Gives up exactly if an uncheckable include occurs; else scope k holds exactly the eligible lines between directives k and k + 1 |
| IncludeFile.ScopesHoldEligible | PRESUBMIT.py:629-640 | Each eligible line is in the scope given by the directives before it, under its own number, and nothing else is in a scope |
| IncludeFile.ScopesInFileOrder | PRESUBMIT.py:629-640 | Scopes keep the order of the file, without duplicates |
| IncludeFile.CheckIncludeOrderInFile | PRESUBMIT.py:594-645 | The whole check gives FileOutcome from the line after the special include |
| IncludeFile.FilePassesIff | PRESUBMIT.py:627-645 | When all lines have changed, a file without uncheckable includes passes exactly if every scope is well ordered |
| IncludeFile.FileExact | PRESUBMIT.py:627-645 | For any set of changed lines: nothing if an include is uncheckable, a type error if a system include that takes part is not closed, else the warnings of the scopes in order |
| IncludeFile.FileFailsIff | PRESUBMIT.py:558-566 | The check raises a type error exactly if no include is uncheckable and an eligible system include is not closed |
| IncludeFile.OpenIncludeFails | PRESUBMIT.py:558-566 | A file with one unclosed system include raises it |
| Bits.Log2Floor | base/bits.h:17-32 | For every 32-bit n other than 0, the i with 2^i <= n < 2^(i+1); -1 for 0; the halving loop ends with the value 1 |
| Bits.Log2Ceiling | base/bits.h:35-42 | The i with 2^(i-1) < n <= 2^i, up to 32; -1 for 0 |
| Bits.LogarithmUnique | base/bits.h:16-17 | No other integer satisfies the bounds |

## Left out

- SavedFiles.SavedFiles.constructor: preference content with duplicate or negative sequence numbers, or with entries that cannot be loaded, is excluded by `Storable`; `GetSavedFileEntries` skips such entries.
- SavedFiles.SavedFiles.LoadSavedFileEntriesFromPreferences: the same content is excluded.
- `GetFileEntry`, which hands out a pointer to an entry, and the registration for notifications, which stops when the application terminates.
- The text form of time stamps and file paths in the preferences; both are values here, and the preference and dictionary classes are maps.
- Timers are a flag that says whether a flush is scheduled; delays are not modelled.
- Memory ordering: shared accesses are sequentially consistent, and acquire, release and barrier variants are the same operation. The 64-bit operations, and the other platforms' assembler, are not modelled.
- Signed overflow of an atomic addition, and of the subtraction in GetNext, wraps around.
- The barrier is used for at most n calls, one per thread; two calls made by one thread are two threads that happen to run one after the other. For n of at least 1, more than n calls fail the debug check and are not modelled.
- Initialization and destruction of the socket handler, and the Windows handler.
- Integer overflow of rectangle edges, the choice of the display for a rectangle, and everything about a window but its bounds, size limits, key and show state (draggable regions, full screen, show on first paint).
- FocusCycling.FocusCycler.RotateFocus: follows the loop for a given number of rounds, because it need not end (`FocusRotation.EndsIffAccepted`); what the window cycle controller does with the windows is not modelled.
- Which custom include names the file's own header (base names, test suffixes) is an input of `IncludeFile.SkipSpecialInclude`; warnings are line numbers without the path.
- CloseAllShellWindowsForApp, inspected windows, and observers of the registry other than the lifetime monitor.
- Service factories, singletons, command line switches, delegates, launchers, template machinery and UI wiring.
