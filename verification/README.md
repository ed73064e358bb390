# A verified model of the reactor library and its servers

A Dafny 4.11 model of the parts of the repository where correctness is hardest to see: the dancing-links
Sudoku solver, the event loop's task queue, the timer queue, the output side of a connection, the calendar and
time-zone arithmetic, the sliding-window statistics, the framing codecs with their buffer, the poll table and
the connector. `dafny verify dfyconfig.toml` checks everything.

How the files hang together:

- **Sudoku.** `ExactCover` states the problem on sets. `Links` and `Torus` describe the four-way linked
  structure as arrays of indices and say what a well-formed torus is. `Covering` gives `cover` and `uncover` as
  functions on such stores. `DancingLinks` is the code itself, on arrays rewritten in place, proved against those
  functions. `Building` and `SudokuLayout` describe how the constructor grows the torus, `SudokuRules` relates
  exact covers to solved grids, `SudokuSolver` and `SudokuService` are the constructor and `solveSudoku`.
- **Event loop.** `EventLoop` is a state machine. One event is one atomic step of one thread, a run is any
  interleaving, and the history of pushes and of started functors is part of the state.
- **Timers.** `TimerSets` is the pair of indexes, `TimerHistory` the events of a run and what the heap says about
  them, `TimerScript` what callbacks make of a queue, `TimerQueue` the class. Callbacks are scripts of timer
  operations; the allocator may return any free address.
- **Connections.** `TcpConnection` is the class, with the kernel's answer to each write as a parameter. A call from
  another thread is a step for its test of the state, one for its change of it and one for queueing its functor; the
  steps of different threads may come in any order.
- **Time.** `Calendar` is `Date.cc`, `UtcTime` and `TimeZone` are `TimeZone.cc`.
- **Statistics.** `SudokuStat` is the class, with the list of responses since the last reset as its history.
- **Codecs.** `Bytes` and `Buffer` are the byte buffer, `Framing` the decoding loop for any frame format,
  `LengthHeaderCodec`, `Adler32` and `ProtobufCodec` the two formats.
- **Poller and connector.** `Poller` and `Connector` are the classes.

Classes have a `Valid` predicate that every method keeps, so what it says holds in every reachable state: for
instance that both timer indexes agree, that accepted bytes and output buffer are the kept messages, that every
socket but the current attempt's is settled, that channels and slots are in bijection.

Where the code does not do what one would expect of it, the model follows the code; a lemma or method gives a
case, and another the exact condition:

- A functor queued by the loop thread outside `loop()` may get no wakeup (`EventLoop.LostWakeupRun`,
  `EventLoop.StuckIff`). The flag that decides it is not initialised by the constructor. A quit made before the loop
  is entered is lost (`EventLoop.LostQuitRun`, `EventLoop.QuitStandsIff`).
- A cancel of a timer another thread has just created can be lost (`TimerQueues.LostCancel`,
  `TimerQueue.CancelTakesIff`).
- The write side of a connection can be shut twice, and a message sent before the shutdown can be lost
  (`TcpConnections.ShutTwice`, `TcpConnections.ShutByTwo`, `TcpConnections.LostToDrain`). By the invariant `HalfClosed`
  it is shut again once for each call of `shutdown` under way when it is first shut (`TcpConnections.ShutsInAll`);
  `Connection.RunNext` says exactly which queued messages are lost.
- Local time leads back to the instant exactly in zones whose backward shifts are the usual hour
  (`TimeZones.HalfHourBackFails`, `TimeZones.RoundTripIff`). A local time that is skipped, or marked daylight saving
  in standard time, is not the one shown at its instant (`TimeZones.SkippedHourMoves`,
  `TimeZones.MarkedInStandardTime`, `TimeZones.ReadingComesBackIff`).
- The weekday of very early days is negative (`UtcTime.NegativeWeekday`, `UtcTime.WeekdayInRangeIff`), and the day of
  the year is one short in year -4800 (`UtcTime.ShortYearDay`, `UtcTime.YearDayIsExact`).
- The statistics take a last second of 0 for "none yet" (`SudokuStats.MisstepHappens`,
  `SudokuStat.RecordResponse`).
- The poller's assertion on a removed slot fails for a channel added without events and not updated since
  (`Pollers.RemovedAtOnce`, `Poller.RemoveChannel`).

## Model

| member | source | states |
|---|---|---|
| `ExactCover.BranchOnColumn` | excercises/sudoku/sudoku.cc:115-131 | branching on one open column is complete and sound: an exact cover exists if and only if some row meeting the column and no closed column leaves a coverable rest |
| `Links.RelinkUndoesUnlink` | excercises/sudoku/sudoku.cc:221-238 | putting a node back right after taking it out restores every link and the column size |
| `Links.RelinkUndoesUnlinkHeader` | excercises/sudoku/sudoku.cc:217-241 | putting a column header back right after taking it out restores every link |
| `Links.BypassShortensRing` | excercises/sudoku/sudoku.cc:219-225 | making the neighbours of one node of a circular list point past it leaves a circular list of the others, in order |
| `Torus.UnlinkShape` | excercises/sudoku/sudoku.cc:222-226 | taking one node out keeps the whole torus well-formed: its column loses exactly that node and one from its size, every other column and every row ring is untouched |
| `Torus.RelinkAllUndoes` | excercises/sudoku/sudoku.cc:221-238 | any sequence of unlinked nodes put back in reverse order restores the structure exactly |
| `Covering.CoverKeepsRegular` | excercises/sudoku/sudoku.cc:217-228 | after covering an open column the structure is again well-formed and shows exactly the rows that do not meet the covered column |
| `Covering.RowMeetsCovered` | excercises/sudoku/sudoku.cc:217-228 | a row of open columns has a node in the covered column exactly when that column is one of its own, so the cover hides exactly the rows it must |
| `Covering.UncoverUndoesCover` | excercises/sudoku/sudoku.cc:217-241 | uncover right after cover restores every left, right, up and down link and every size |
| `Covering.CoverManyRegular` | excercises/sudoku/sudoku.cc:119-121 | covering any sequence of open columns in turn keeps the structure well-formed |
| `Covering.UncoverManyUndoes` | excercises/sudoku/sudoku.cc:119-128 | any sequence of covers of open columns, undone in reverse order, restores every link and every size |
| `DancingLinks.Dancer.PutLeft` | excercises/sudoku/sudoku.cc:243-249 | the in-place updates link the new header or node in left of the old one and change no other link |
| `DancingLinks.Dancer.PutUp` | excercises/sudoku/sudoku.cc:251-259 | the in-place updates link the new node in at the bottom of its column, count it in the size and change no other link |
| `DancingLinks.Dancer.Cover` | excercises/sudoku/sudoku.cc:217-228 | the two nested pointer walks end, in place, in exactly the specified covered store, for every well-formed torus |
| `DancingLinks.Dancer.Uncover` | excercises/sudoku/sudoku.cc:230-241 | walking up and left from a covered column restores, in place, the store from before the cover |
| `DancingLinks.Dancer.GetMinColumn` | excercises/sudoku/sudoku.cc:200-215 | the result is an open column; if its size is more than 1, no open column is smaller |
| `DancingLinks.Dancer.CoverRow` | excercises/sudoku/sudoku.cc:119-121 | covers the columns of a row in ring order, reaching the specified store |
| `DancingLinks.Dancer.UncoverRow` | excercises/sudoku/sudoku.cc:126-128 | uncovers the same columns in reverse order, restoring the store from before |
| `DancingLinks.Dancer.TryRow` | excercises/sudoku/sudoku.cc:117-129 | one turn of the loop: a hit leaves the row and a cover of the rest on the stack, a miss leaves no cover with that row and everything restored |
| `DancingLinks.Dancer.TryRows` | excercises/sudoku/sudoku.cc:117-129 | all rows of the column: a hit leaves a cover on the stack, a miss rules every row out and restores everything |
| `DancingLinks.Dancer.Solve` | excercises/sudoku/sudoku.cc:94-132 | for every exact-cover matrix: true with one node of every row of an exact cover pushed on the stack, or false exactly if there is none, with all links, sizes and the stack as they were; it terminates on the shrinking set of headers |
| `DancingLinks.CoverFound` | excercises/sudoku/sudoku.cc:117-124 | a candidate row and a cover of what it leaves open are a cover |
| `DancingLinks.NoCoverLeft` | excercises/sudoku/sudoku.cc:117-131 | if no row of the chosen column works, there is no exact cover |
| `Building.AppendHeader` | excercises/sudoku/sudoku.cc:157-164 | appending a header keeps all rings and columns well-formed and adds an empty column at the end |
| `Building.AppendNode` | excercises/sudoku/sudoku.cc:166-183 | appending a node keeps all columns well-formed and adds it at the end of its own |
| `Building.AppendRow` | excercises/sudoku/sudoku.cc:81-87 | four nodes linked into their columns and closed into a ring make a well-formed matrix with one more row |
| `SudokuRules.GridIsCover` | excercises/sudoku/sudoku.cc:46-91 | a solved grid that extends the board gives an exact cover of the open constraints by candidates |
| `SudokuRules.CoverIsGrid` | excercises/sudoku/sudoku.cc:46-111 | an exact cover written into the board is a solved grid that extends it, contradictory givens included: the count of missing values against empty cells rules a cover out |
| `SudokuRules.SolvedIff` | excercises/sudoku/sudoku.cc:46-91 | the rules by the solver's numbers of rows, columns and boxes are the rules: no value twice in a row, a column or one of the nine boxes of three by three cells |
| `SudokuLayout.LayColumn` | excercises/sudoku/sudoku.cc:157-164 | a new constraint column keeps the layout |
| `SudokuLayout.LayRow` | excercises/sudoku/sudoku.cc:81-87 | a new candidate row keeps the layout, its four nodes named by its four constraints |
| `SudokuLayout.LaidIsRegular` | excercises/sudoku/sudoku.cc:32-92 | a finished layout is a well-formed torus that shows the whole matrix |
| `SudokuLayout.MatrixCoverIsCover` | excercises/sudoku/sudoku.cc:56-91 | an exact cover of the laid-out matrix is an exact cover of the open constraints |
| `SudokuLayout.CoverIsMatrixCover` | excercises/sudoku/sudoku.cc:56-91 | and the other way round |
| `SudokuSolver.Solver.constructor` | excercises/sudoku/sudoku.cc:32-40 | an empty layout with the root linked to itself |
| `SudokuSolver.Solver.AppendColumn` | excercises/sudoku/sudoku.cc:157-164 | the layout gains the column; the node store does not overflow |
| `SudokuSolver.Solver.AddCandidate` | excercises/sudoku/sudoku.cc:81-87 | the layout gains the candidate; the node store does not overflow |
| `SudokuService.MarkAll` | excercises/sudoku/sudoku.cc:42-54 | the three tables mark exactly the values the givens use up in each row, column and box |
| `SudokuService.AppendCells` | excercises/sudoku/sudoku.cc:56-60 | exactly the empty cells get a column |
| `SudokuService.AppendUnits` | excercises/sudoku/sudoku.cc:62-71 | exactly the unused values of each row, column and box get a column |
| `SudokuService.AddCandidates` | excercises/sudoku/sudoku.cc:73-91 | exactly the values free in all three units of an empty cell get a row |
| `SudokuService.LayBoard` | excercises/sudoku/sudoku.cc:32-92 | for every board the constructor lays out exactly its open constraints and candidates, within 1 + 81*4 + 9*9*9*4 nodes |
| `SudokuService.ReadRow` | excercises/sudoku/sudoku.cc:98-107 | walking right from any node of a row finds the cell and the value of its candidate |
| `SudokuService.ReadStack` | excercises/sudoku/sudoku.cc:97-111 | every stacked candidate is written into its cell and no other cell changes |
| `SudokuService.SolveBoard` | excercises/sudoku/sudoku.cc:94-132 | true with the board turned into a solved grid that extends it, or false exactly if there is none, with the board unchanged |
| `SudokuService.ParsePuzzle` | excercises/sudoku/sudoku.cc:268-274 | the board of the text, and whether it is all digits |
| `SudokuService.FormatBoard` | excercises/sudoku/sudoku.cc:281-286 | the text of a board |
| `SudokuService.SolveSudoku` | excercises/sudoku/sudoku.cc:262-290 | for every 81-character text: a solved grid that keeps the givens, or "NoSolution" if and only if the text is not all digits or no solved grid extends it |
| `EventLoop.Bump` | EventLoop.cc:172-181 | a wakeup leaves the event descriptor readable, also when its counter is full |
| `EventLoop.StepKeepsInv` | EventLoop.cc:81-208 | every atomic step of every thread, a `poll` that fails included, keeps the queue and wakeup invariant |
| `EventLoop.RunKeepsInv` | EventLoop.cc:81-208 | the invariant holds at every point of every interleaving from a fresh loop, whatever the uninitialised flag holds |
| `EventLoop.RunsInOrder` | EventLoop.cc:125-208 | functors started, then the rest of the swapped batch, then the queue, are the log of queueInLoop calls: in order, at most once each, also those queued by a functor |
| `EventLoop.PassRunsEverything` | EventLoop.cc:81-208 | whatever is queued before a pass swaps the queue has been started when the loop polls again |
| `EventLoop.StartedAre` | EventLoop.cc:113-208 | at every moment of every run the started functors are the first ones pushed, as many as were started |
| `EventLoop.CounterIs` | EventLoop.cc:172-191 | at every moment of every run the event descriptor counts the wakeups written since it was last read, up to its limit |
| `EventLoop.OwesIff` | EventLoop.cc:103-136 | a thread owes a wakeup exactly from its push or quit to its write |
| `EventLoop.FlagsAre` | EventLoop.cc:81-208 | the calling flag, the loop thread's own debt, a seen and unread wakeup and a running functor, each from the events; what `poll` saw is still readable |
| `EventLoop.LeavesLoopIff` | EventLoop.cc:81-111 | `loop` returns exactly at a test with a quit since it was entered, and polls at any other test |
| `EventLoop.LoopGoesOn` | EventLoop.cc:81-208 | in every interleaving the loop thread can take its next step, and sees a readable event descriptor |
| `EventLoop.UnwokenIff` | EventLoop.cc:125-136 | the ghost mark stands exactly while a push made outside loop() without wakeup awaits a swap |
| `EventLoop.NoLostWakeup` | EventLoop.cc:81-208 | in every interleaving, polling with work pending means the event descriptor is readable, or an enqueuer has pushed and not yet written, or the loop thread itself queued outside loop() with the flag down |
| `EventLoop.NoLostQuit` | EventLoop.cc:81-111 | a quit set while the loop polls has its wakeup there or on its way |
| `EventLoop.QuitStandsIff` | EventLoop.cc:81-111 | at every moment of every run a quit stands exactly if one was made since `loop` was last entered |
| `EventLoop.LostQuitRun` | EventLoop.cc:81-111 | a run in which a quit made before `loop` is entered is lost |
| `EventLoop.StuckIff` | EventLoop.cc:81-208 | in every interleaving the wakeup is lost, the loop polling with work pending and no wakeup write there or coming, if and only if it polls with the descriptor empty, no thread owes a write and the loop thread has queued outside loop() with the flag down since the last swap |
| `EventLoop.LostWakeupRun` | EventLoop.cc:40-136 | a run from a fresh loop that gets there |
| `TimerSets.InsertKeeps` | TimerQueue.cc:221-246 | a timer put into both indexes was in neither, and they still agree, sorted, keyed by current expiration |
| `TimerSets.EraseKeeps` | TimerQueue.cc:133-139 | a timer found active is in the list under its current expiration; taken out of both and freed, they still agree |
| `TimerSets.ExpireKeeps` | TimerQueue.cc:175-183 | the first entry taken off the list is active; taken off both, they still agree |
| `TimerSets.FreeKeeps` | TimerQueue.cc:203-207 | freeing a batch timer leaves both indexes agreeing |
| `TimerSets.RestartKeeps` | TimerQueue.cc:197-202 | a batch timer may change its expiration: no index holds it |
| `TimerSets.LowerBound` | TimerQueue.cc:172-174 | the number of entries due by now; all later ones are not |
| `TimerHistory.SoundMeans` | TimerQueue.cc:100-208 | over a whole history: sequence numbers ascend, nothing runs or is freed before it is created or after it is freed, and a cancelled timer does not run once a later handleRead has begun |
| `TimerHistory.AliveIff` | TimerQueue.cc:100-208 | the timers the history counts as existing are those created and not freed; in every reachable state these are the timers allocated |
| `TimerHistory.CancelAccounted` | TimerQueue.cc:133-139 | cancelling a queued timer keeps the history sound |
| `TimerHistory.MarkAccounted` | TimerQueue.cc:140-143 | marking a running timer keeps the history sound |
| `TimerHistory.StartAccounted` | TimerQueue.cc:153-156 | clearing the marks at the start of a batch forgets no cancel: every timer cancelled before is gone |
| `TimerHistory.RestartAccounted` | TimerQueue.cc:197-202 | a timer that is not marked has not been cancelled, so it may go back |
| `TimerHistory.FreeAccounted` | TimerQueue.cc:203-207 | freeing a live timer is its first free |
| `TimerQueues.HowMuchTimeFromNow` | TimerQueue.cc:33-47 | seconds and nanoseconds that add up to the time left, at least 100 microseconds |
| `TimerQueues.TimerQueue.ResetTimerfd` | TimerQueue.cc:60-73 | the alarm is due at the expiration, or 100 microseconds from now if that is later |
| `TimerQueues.TimerQueue.NewTimer` | Timer.h:17-23 | any free address, reused ones included, and a sequence number never used before |
| `TimerQueues.TimerQueue.AddTimerInLoop` | TimerQueue.cc:116-125 | the timer, which was in neither index, joins both; the alarm is set exactly if it is the earliest, and still covers the earliest |
| `TimerQueues.TimerQueue.CancelInLoop` | TimerQueue.cc:127-145 | a queued timer leaves both indexes and is freed; a running one is marked; a stale identity changes no timer, list or index; a live timer is missed, and the history says so, exactly if its `addTimerInLoop` is still to come |
| `TimerQueues.TimerQueue.CancelTakesIff` | TimerQueue.cc:100-145 | a cancel of a timer still allocated takes effect exactly if its `addTimerInLoop` has run |
| `TimerQueues.LostCancel` | TimerQueue.cc:100-166 | a course of events in which a timer is created, cancelled, added and run |
| `TimerQueues.TimerQueue.GetExpired` | TimerQueue.cc:168-187 | exactly the timers due by now, in order, leave both indexes for the batch, and nothing else changes |
| `TimerQueues.TimerQueue.RunTimer` | TimerQueue.cc:158-162 | a callback that creates, adds and cancels timers at will touches no timer of the batch, marks exactly the identities it cancels, and leaves the queue as playing its actions does |
| `TimerScripts.PlayedIff` | TimerQueue.cc:100-145 | for any actions: queued afterwards are exactly the timers queued before and not cancelled, and the timers added and not cancelled afterwards |
| `TimerQueues.TimerQueue.ResetOne` | TimerQueue.cc:196-207 | a repeating, unmarked timer is queued again for now plus its interval; any other is freed |
| `TimerQueues.TimerQueue.Reset` | TimerQueue.cc:189-219 | the whole batch restarted or freed, and the alarm set exactly if the earliest timer left is due after 0; with the clock past 0 it covers the earliest |
| `TimerQueues.TimerQueue.HandleRead` | TimerQueue.cc:147-166 | for every clock: runs exactly the timers due by now in order of expiration; afterwards exactly the repeating ones whose own identity no callback cancelled are queued again for now plus their interval; the whole queue is what the callbacks make of the timers not due, with those; with the clock past 0, or every timer left due after 0, the alarm covers the earliest |
| `TimerQueues.HandledIff` | TimerQueue.cc:147-219 | what that queue holds: exactly the timers not due and not cancelled, the timers callbacks add and do not cancel afterwards, and the restarted ones |
| `TimerQueues.ListIsQueue` | TimerQueue.cc:221-246 | the sorted list holds exactly the queued timers, under their expirations |
| `TcpConnections.ConserveSend` | TcpConnection.cc:122-155 | the bytes the kernel took and the bytes buffered are the kept messages in order, whatever part of a message was written |
| `TcpConnections.Connection.SendInLoop` | TcpConnection.cc:108-161 | a message is dropped whole (disconnected, EPIPE or ECONNRESET on a direct write) or kept whole; accepted bytes plus buffer are the kept messages; the write-complete and high-water notices come exactly on a full direct write and on crossing the mark |
| `TcpConnections.Connection.Send` | TcpConnection.cc:73-83 | only a connected socket takes a message |
| `TcpConnections.Connection.AskSend` | TcpConnection.cc:75-79 | another thread's `send` tests the state: it goes on exactly if connected, and then the write side is still open |
| `TcpConnections.Connection.PostSend` | TcpConnection.cc:79-80 | its message joins the queue, whatever has become of the connection since the test |
| `TcpConnections.Connection.SendElsewhere` | TcpConnection.cc:73-83 | an undisturbed `send` from another thread: the message waits in the queue |
| `TcpConnections.Connection.HandleWrite` | TcpConnection.cc:249-282 | the kernel takes a prefix of the buffer; draining it drops write interest, announces completion and shuts the write side exactly when disconnecting |
| `TcpConnections.Connection.ShutdownInLoop` | TcpConnection.cc:175-183 | the write side is shut exactly if nothing is being written |
| `TcpConnections.Connection.Shutdown` | TcpConnection.cc:163-173 | from the loop thread: shut at once if nothing waits, else left to the drain |
| `TcpConnections.Connection.AskShutdown` | TcpConnection.cc:166-168 | another thread's `shutdown` tests the state: it goes on exactly if connected |
| `TcpConnections.Connection.MarkShutdown` | TcpConnection.cc:168 | it sets the state, whatever that is by now |
| `TcpConnections.Connection.PostShutdown` | TcpConnection.cc:170-171 | its request joins the queue |
| `TcpConnections.Connection.ShutdownElsewhere` | TcpConnection.cc:163-173 | an undisturbed `shutdown` from another thread: the state changes now, the request is queued |
| `TcpConnections.Connection.AskForceClose` | TcpConnection.cc:187-189 | `forceClose` tests the state: it goes on exactly if connected or disconnecting |
| `TcpConnections.Connection.MarkForceClose` | TcpConnection.cc:189 | it sets the state, whatever that is by now |
| `TcpConnections.Connection.PostForceClose` | TcpConnection.cc:190 | its close joins the queue |
| `TcpConnections.Connection.ForceClose` | TcpConnection.cc:185-192 | an undisturbed `forceClose`: the state is set and a close queued, if connected or disconnecting |
| `TcpConnections.Connection.HandleClose` | TcpConnection.cc:284-293 | write interest ends; nothing accepted or buffered changes |
| `TcpConnections.Connection.ConnectDestroyed` | TcpConnection.cc:222-231 | the connection is disconnected and its channel disabled |
| `TcpConnections.Connection.RunNext` | TcpConnection.cc:108-201 | queued sends, shutdowns and closes run in order; before close, a message is lost exactly if the write side was shut while it was under way or a direct write of it fails on the open side; a queued shutdown shuts the write side exactly if nothing waits, and again exactly if it is shut already; a queued close disables the channel exactly if connected or disconnecting, and touches no bytes |
| `TcpConnections.ShutsInAll` | TcpConnection.cc:163-282 | when no `shutdown` is under way any more, the write side has been shut once for every call that was under way at the first shut, and once for that: more than once exactly if there was such a call |
| `TcpConnections.Connection.AllIn` | TcpConnection.cc:73-282 | once nothing is under way: the number of shuts, and as many messages lost to them as were under way at the first |
| `TcpConnections.ShutTwice` | TcpConnection.cc:163-282 | a course of events in which a drain and a request shut the write side |
| `TcpConnections.ShutByTwo` | TcpConnection.cc:163-183 | a course of events in which two threads both pass the test and shut the write side of an empty connection twice |
| `TcpConnections.LostToDrain` | TcpConnection.cc:73-282 | a course of events in which a message sent before the shutdown is lost: the drain shuts the write side before its functor runs |
| `Calendar.NextDayNextNumber` | Date.cc:16-23 | from 1 March of year -4800 on, the next Gregorian day has the next Julian day number |
| `Calendar.CivilOfNumber` | Date.cc:16-38 | from a date to its number and back is the identity |
| `Calendar.NumberOfCivil` | Date.cc:16-38 | every number from the first day on is the number of the valid date it converts to |
| `Calendar.CivilFitsIff` | Date.cc:25-38 | the conversion stays within 32-bit arithmetic exactly up to day number 536838867 |
| `UtcTime.SplitIsEuclidean` | TimeZone.cc:322-328 | the truncating split with its borrow rounds down for negative instants too |
| `UtcTime.UtcFields` | TimeZone.cc:317-334 | the fields of every representable instant are in range and name its day and second |
| `UtcTime.FromUtcOfToUtc` | TimeZone.cc:317-358 | from an instant to its fields and back is the identity, before the epoch too |
| `UtcTime.ToUtcOfFromUtc` | TimeZone.cc:317-358 | from valid fields to their instant and back is the identity |
| `UtcTime.WeekdayInRangeIff` | Date.h:93-97 | the weekday is in 0 to 6 exactly from day number -1 on, or where the remainder is zero |
| `UtcTime.NegativeWeekday` | Date.h:93-97 | every second of day number -2 has weekday -1 |
| `UtcTime.YearDayIsExact` | TimeZone.cc:337-341 | the day of the year is the number of days before it since 1 January, exactly in the years after -4800 |
| `UtcTime.ShortYearDay` | TimeZone.cc:337-341 | every second of 1 March of year -4800 has day of the year 59, with 60 days before it |
| `UtcTime.EpochDay` | Date.cc:39 | the Julian day number of 1 January 1970 |
| `TimeZones.LowerBound` | TimeZone.cc:229-232 | the first transition not before the key, by binary search |
| `TimeZones.FindLocaltime` | TimeZone.cc:218-250 | the period of the last transition not after the key, on either clock |
| `TimeZones.LastIsUnique` | TimeZone.cc:218-250 | there is one such transition |
| `TimeZones.ReadAt` | TimeZone.cc:272-292 | the reading of an instant is the UTC reading of instant plus offset, with the offset and daylight flag of its period |
| `TimeZones.OwnConversionsLawful` | TimeZone.cc:284-300 | the library's own UTC conversions satisfy what toLocalTime and fromLocalTime need of gmtime_r and timegm |
| `TimeZones.BackFolded` | TimeZone.cc:294-315 | in a repeated stretch the way back is off by the shift, less an hour exactly if the reading is daylight saving and the later period is not |
| `TimeZones.InstantRoundTrips` | TimeZone.cc:272-315 | in a regular zone every instant comes back, both passes of the repeated hour included |
| `TimeZones.RoundTripIff` | TimeZone.cc:272-315 | every instant comes back if and only if every backward shift of the zone is one hour from daylight saving to standard time |
| `TimeZones.IrregularShiftFails` | TimeZone.cc:294-315 | the last second before any other backward shift does not |
| `TimeZones.HalfHourBackFails` | TimeZone.cc:294-315 | such a zone, with its instant |
| `TimeZones.ReadingComesBackIff` | TimeZone.cc:294-315 | any reading: the offset last in force on the local clock is taken off, and an hour where the code takes it; the clock shows the reading at the result exactly if it is not skipped, or, an hour being taken, if the zone was an hour ahead then |
| `TimeZones.TakesHourIff` | TimeZone.cc:303-313 | outside skipped stretches the hour is taken exactly if the reading is marked daylight saving and the period is not |
| `TimeZones.SkippedTakesNoHour` | TimeZone.cc:303-313 | in a skipped stretch it is not, for jumps from a minute to a day less a minute |
| `TimeZones.MarkedInStandardTime` | TimeZone.cc:294-315 | a reading marked daylight saving where there is none comes out an hour early |
| `TimeZones.SkippedHourMoves` | TimeZone.cc:294-315 | a skipped reading comes out after the jump |
| `SudokuStats.PushKeeps` | excercises/sudoku/stat.h:123-128 | a new slot for the next second is exactly empty, and the oldest of sixty makes room |
| `SudokuStats.AddKeeps` | excercises/sudoku/stat.h:148-151 | a response adds to the slot of its second and to no other |
| `SudokuStats.BetweenIsFrom` | excercises/sudoku/stat.h:41-59 | counting second by second over the window and counting responses agree |
| `SudokuStats.SudokuStat.RecordResponse` | excercises/sudoku/stat.h:85-160 | for every course of the clock, seconds before the epoch included: each slot is the exact count and latency sum of its second over all non-negative-latency responses since reset, the window has exactly the seconds it should, at most sixty, and neither end moves back, if and only if the window does not end in second 0 with the new second neither 0 nor 1 |
| `SudokuStats.SudokuStat.Slot` | excercises/sudoku/stat.h:101-158 | the same, branch by branch: same second, next second, jump ahead, jump back, too old; and what the code does instead where second 0 is taken for "none yet" |
| `SudokuStats.SudokuStat.NextSecond` | excercises/sudoku/stat.h:108-116 | one slot more with the one response in it; exact if the buffers were empty or it is the next second |
| `SudokuStats.MisstepBreaks` | excercises/sudoku/stat.h:108-116 | taking a second from 2 on for the next one after 0 leaves a wrong slot |
| `SudokuStats.MisstepHappens` | excercises/sudoku/stat.h:85-160 | three responses after which the window is wrong |
| `SudokuStats.SudokuStat.CatchUp` | excercises/sudoku/stat.h:120-129 | the catch-up loop adds one exact empty slot for each second |
| `SudokuStats.SudokuStat.Reset` | excercises/sudoku/stat.h:68-83 | an empty history and window; the dropped-request count stays |
| `SudokuStats.SudokuStat.WindowReport` | excercises/sudoku/stat.h:41-61 | the 60-second sums are those of exactly the responses from the first second of the window on |
| `Bytes.DecodeEncode32` | Buffer.h:139-165 | a 32-bit integer in network order is read back, negative ones included |
| `Bytes.EncodesInOrder` | Buffer.h:139-143 | the four bytes, the first weighing most |
| `Bytes.DecodesInOrder` | Buffer.h:159-165 | the integer from its four bytes |
| `Buffers.Buffer.constructor` | Buffer.h:39-47 | empty, with 8 bytes in front and 1024 behind |
| `Buffers.Buffer.FindCRLF` | Buffer.h:70-74 | the first CR LF of the readable bytes, or none |
| `Buffers.Buffer.Retrieve` | Buffer.h:79-83 | drops a prefix of the contents |
| `Buffers.Buffer.RetrieveAll` | Buffer.h:92-96 | empties the contents |
| `Buffers.Buffer.RetrieveAsString` | Buffer.h:102-108 | returns a prefix of the contents and drops it |
| `Buffers.Buffer.MoveDown` | Buffer.h:225-227 | the forward copy over itself moves the readable bytes intact |
| `Buffers.Buffer.MakeSpace` | Buffer.h:214-232 | both branches keep the contents and make room; the compaction assertion holds |
| `Buffers.Buffer.Append` | Buffer.h:115-120 | contents plus the bytes, growing or compacting as needed |
| `Buffers.Buffer.Prepend` | Buffer.h:185-191 | the bytes plus the contents |
| `Buffers.Buffer.ReadFd` | Buffer.cc:18-37 | contents plus exactly the bytes read, across one segment or both; unchanged on error |
| `Framing.DecodeSplits` | excercises/chatServer/codec/codec.cc:113-145 | decoding a prefix and then the rest is decoding at once |
| `Framing.ChunkingIsInvisible` | excercises/chatServer/codec/codec.cc:113-145 | however a stream is cut, the same messages are delivered and the same bytes kept |
| `Framing.DecodeEncodeAll` | excercises/chatServer/codec/codec.cc:113-145 | the encodings of a list of readable messages decode to that list with nothing left |
| `LengthHeaderCodecs.HeadIsLawful` | excercises/chatServer/codec.h:28-50 | a delivered frame lies in the buffer and does not depend on what follows it |
| `LengthHeaderCodecs.HeadOfEncode` | excercises/chatServer/codec.h:53-62 | a message of up to 65536 bytes is read back, a longer one refused |
| `LengthHeaderCodecs.RoundTrip` | excercises/chatServer/codec.h:24-62 | a list of messages within the limit survives encoding and any chunking, with an empty buffer at the end |
| `LengthHeaderCodecs.OnMessage` | excercises/chatServer/codec.h:24-51 | the loop over the buffer delivers exactly the specified messages, leaves exactly the rest, and shuts exactly on an invalid length |
| `LengthHeaderCodecs.Receive` | excercises/chatServer/codec.h:24-51 | all chunks of a stream, appended and decoded one by one, deliver what the whole stream holds |
| `LengthHeaderCodecs.BuildFrame` | excercises/chatServer/codec.h:53-61 | append and prepend build the encoding |
| `Adler32.OneByteChangesChecksum` | excercises/chatServer/codec/codec.cc:169-174 | a change of exactly one byte changes the Adler-32 checksum of section 2.2 of RFC 1950 |
| `Adler32.ChecksumIs` | excercises/chatServer/codec/codec.cc:169-174 | the lower half is one plus the sum of the bytes, the upper half the length plus the sum of the bytes by their distance from the end, both modulo 65521, as section 2.2 of RFC 1950 has it |
| `ProtobufCodecs.HeadIsLawful` | excercises/chatServer/codec/codec.cc:113-145 | a delivered frame lies in the buffer and does not depend on what follows it |
| `ProtobufCodecs.ParseOfBody` | excercises/chatServer/codec/codec.cc:164-213 | the body of a message within the limit passes the checksum, the name check and the parser, and gives the message |
| `ProtobufCodecs.ParseExact` | excercises/chatServer/codec/codec.cc:164-213 | every body: a checksum error exactly if it does not end in its checksum, a name error exactly if it does and has no name length, name and message, and else judged by its name and its message |
| `ProtobufCodecs.HeadOfEncode` | excercises/chatServer/codec/codec.cc:20-145 | the encoding of a message within the limit is delivered as that message |
| `ProtobufCodecs.RoundTrip` | excercises/chatServer/codec/codec.cc:20-213 | a list of messages within the limit survives encoding and any chunking, with an empty buffer at the end |
| `ProtobufCodecs.AlteredBodyFails` | excercises/chatServer/codec/codec.cc:164-213 | a body that checks, altered in exactly one byte of the covered part or of the checksum, fails with the checksum error |
| `ProtobufCodecs.AlteredFrameFails` | excercises/chatServer/codec/codec.cc:113-213 | a delivered frame altered in exactly one byte behind its length is refused for its checksum |
| `ProtobufCodecs.OnMessage` | excercises/chatServer/codec/codec.cc:113-145 | the loop over the buffer delivers exactly the specified messages, leaves exactly the rest, and reports exactly the error the rest starts with |
| `ProtobufCodecs.Look` | excercises/chatServer/codec/codec.cc:117-143 | one turn decides on the buffer as the specification does |
| `ProtobufCodecs.FillEmptyBuffer` | excercises/chatServer/codec/codec.cc:20-52 | builds the encoding in an empty buffer |
| `Pollers.FdOfIgnored` | Poller.cc:76-82 | a slot belongs to a descriptor exactly if it holds it or its ignored form, 0 included |
| `Pollers.Poller.Bijection` | Poller.cc:53-111 | no two channels share a slot |
| `Pollers.TableRemove` | Poller.cc:98-110 | descriptors and slots stay in bijection when the last slot takes the place of a removed one |
| `Pollers.Poller.UpdateChannel` | Poller.cc:53-84 | a new channel gets the last slot, a known one has its slot refreshed or ignored; channels and slots stay in bijection through the index, and the ignored slots are those of the channels updated without events since they were added |
| `Pollers.Poller.RemoveChannel` | Poller.cc:86-111 | the channel and its slot are gone, the last slot has taken its place, every other slot stays; the bijection is kept; the assertion on the slot holds exactly if the channel was updated without events since it was added and its slot shows none |
| `Pollers.RemovedAtOnce` | Poller.cc:53-111 | a channel added without events and removed at once fails the assertion |
| `Pollers.EventfulExact` | Poller.cc:34-51 | the list of slots with events holds exactly those, each once, in order |
| `Pollers.Poller.FillActiveChannels` | Poller.cc:34-51 | exactly the channels of the first numEvents slots with events, in slot order, each given its slot's events; all of them for a correct count; no other channel is touched |
| `Connectors.DelayStep` | Connector.cc:207 | doubling and capping follows min(500 * 2^k, 30000) |
| `Connectors.Connector.Connect` | Connector.cc:60-99 | one more socket, which is under way, or closed, or closed with a retry ahead |
| `Connectors.Connector.Retry` | Connector.cc:196-213 | the socket is closed; if still wanted, one timer with the delay of the closed form |
| `Connectors.Connector.HandleWrite` | Connector.cc:146-183 | the attempt's socket is handed over exactly if there is no error, no self-connection and no stop, else closed; nothing if the attempt has already ended |
| `Connectors.Connector.HandleError` | Connector.cc:185-194 | the attempt's socket is closed and retried |
| `Connectors.Connector.HandleEvent` | Channel.cc:41-63 | error and write events together settle the socket once |
| `Connectors.Connector.TimerFires` | Connector.cc:46-58 | a retry makes exactly one new attempt, or none after a stop |
| `Connectors.Connector.Restart` | Connector.cc:101-108 | from a connected or an idle connector: a new attempt with the delays starting again |
| `Connectors.Connector.Start` | Connector.cc:40-58 | a new attempt, also while a retry timer waits |
| `Connectors.Connector.ResetChannel` | Connector.cc:141-144 | the channel is gone, and every socket is as it was |
| `Connectors.Connector.Stop` | Connector.cc:110-114 | no more attempts are wanted; timers and sockets are as they were |

## Left out

- DancingLinks.Dancer.Solve: the nodes are array indices, not pointers, and the deepest call does not write the board; the stack is read out after the search returns.
- SudokuService.SolveSudoku: requires 81 characters, as the source asserts.
- EventLoop.NoLostWakeup: says that a wakeup is there or on its way, not when the kernel delivers it; the poll timeout of ten seconds and other descriptors, which also end a poll, are not counted as wakeups.
- TimerQueues.TimerQueue.HandleRead: with the clock at or before 0 and a timer left that is due by 0, nothing is claimed about the alarm, which the source then leaves alone; intervals are whole microseconds, and the truncation of a `double` interval is done by the caller.
- TcpConnections.Connection.Shutdown: the loop thread's own calls are single steps; each acts on one reading of the state, so what another thread does in the middle could as well come before or after.
- TcpConnections.Connection.PostSend: how many threads are past the test is kept, not which message each of them holds.
- TcpConnections.Connection.HandleClose: no once-only claim; repeated forced closes enter it again, and the half-close invariant ends there.
- TimeZones.RoundTripIff: both clocks must ascend over the transitions, and a repeated stretch must end before the next transition; instants within about 272 years of the ends of the calendar's range are not covered.
- UtcTime.FromUtcOfToUtc: instants before 1 March of year -4800, where the calendar formulas do not hold, and beyond 32-bit day arithmetic are not covered.
- SudokuStats.SudokuStat.RecordResponse: requires that the first response of all does not fall in second 0, where the source reads the last element of an empty buffer.
- SudokuStats.SudokuStat.Slot: requires the same.
- Pollers.Poller.UpdateChannel: a slot once ignored stays ignored when events are enabled again, as in the source; nothing is claimed about such a channel's events.
- Connectors.Connector.Start: requires that no attempt is under way and the last channel is gone; a `start` in between trips the source's assertions.
- Connectors.Connector.TimerFires: requires that no attempt is under way and that the functor destroying the last channel has run, which the event loop does before it polls again; the source asserts both.
- `Buffer::shrink`: it does not update the indices, so it has no clean specification.
- 64-bit integers in the buffer: the same as the 32-bit ones.
- `readTimeZoneFile`: the zone tables are a parameter.
- Protobuf serialisation, zlib and the C library: serialise and parse are an inverse pair, Adler-32 is written from its definition, `gmtime_r` and `timegm` are parameters with a law.
- Sockets, addresses, threads, mutexes, logging, `EPoller`: operating-system wrappers.
- The chat, hub and other example servers, the load tests and clients, percentiles and integer formatting: they would only add easy members.
