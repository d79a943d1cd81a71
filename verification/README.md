# Energy-storage controller: a verified model

This project models the state machines at the heart of the controller and proves what they keep
over every input, run or interleaving. `dafny verify dfyconfig.toml` checks all of it.

* **Modbus streams.** `CrcRegister`, `ModbusCrc`, `Octets`: the CRC. `StreamCut`: cutting any
  stream by any rule. `RequestAssembler`, `ResponseAssembler`: the two frame assemblers (sections
  6 and 7 of the MODBUS Application Protocol V1.1b3, sections 2.5.1 and 6.2.2 of MODBUS over Serial
  Line V1.02).
* **Control loop.** `ControlLoop`: two queues, the latest-snapshot slot and its marker, with every
  locked region one step of an interleaving.
* **Debouncing.** `Debounce`: two debouncers and what they mean. `FaultConditions`: their keyed
  tables. `FaultEvaluator`: the evaluator's cycle on shared keys.
* **Fault history.** `Activations`: what a run of on/off reports says. `FaultDb`: the table.
  `FaultCenterModel`: the fault centre. `FaultHistory`: the log over runs. `FaultRows`: the
  database calls and rows over runs. `FaultCatalog`, `Sorting`, `CurrentPages`: the catalog and the
  current pages. `HistoryCache`: the cache over the table. `RefreshProtocol`: the centre, the cache
  and the buttons together.
* **High-voltage commands.** `BmsRuntime`: the battery cache. `BmsCommand`: the manager and the
  tick. `BmsWire`: bit packing.
* **Scheduler.** `Scheduler`: aging and polling.
* **Display encoding.** `HmiEncoding`: scaling, rounding, saturation and registers.

Objects whose methods update fields are classes; each method is proved against a function of the
old state, and the theorems over runs are about those functions. Events of a run carry what the
environment decides: times, the outcomes of database statements and queries, what the business
code writes, and whether a frame builder refuses.

## What turned out not to hold

Where the code falls short of what it is for, the model follows the code, a lemma shows the case,
and a theorem says exactly when the code is right.

* A dirty refresh clears the mark before its queries succeed, so one failed query can hide a row
  for good: `RefreshProtocol.LostUpdate`. What is on display is the page as it was at the last load,
  however many reloads fail since, and is right exactly when the page has not changed:
  `RefreshProtocol.DisplayIsOfLastLoad`, `RefreshProtocol.FailedReloadsExact`. A page outside the
  window shows the old hot prefix or nothing until the next good refresh puts it right:
  `RefreshProtocol.OutsideWindowRecovers`.
* A failed clear by id leaves a stale row that a later clear by code misdates:
  `FaultRows.FailedClearMisdatesRow`; the rows are right exactly when no clear by id fails,
  `FaultRows.RowsAreActivations`.
* Beyond 1000 active recorded codes the log loses open records: `FaultHistory.OverflowLosesRecord`,
  exactly then by `FaultHistory.OpenBijectionIffRoom`. It takes a larger catalog than the 653 items
  of config/fault_map.jsonl.
* `pcu1_emergency_stop` is written from both PCUs and a stop of PCU_1 alone is never confirmed:
  `FaultEvaluator.StopOfOneIsIgnored`, exactly when both have stopped by
  `FaultEvaluator.EmergencyStopNeedsBoth`.
* The fire level that blocks high voltage is never filled in: `BmsCommand.PowerOnAfterFireAlarm`,
  `BmsCommand.FireNeverBlocks`; what does block is exact in `BmsCommand.AllowedIffSafe`.
* The business code's verdict is inverted on its way to the frame: `BmsCommand.BusinessVerdictInverted`.
* A tick that reads the clock before taking the lock can drop a device that has just reported, and
  the next one raises it again: `Scheduler.LateTickDropsDevice`, `Scheduler.LateTickRaisesDevice`,
  exactly then by `Scheduler.OnlineAfterTick` and `Scheduler.EdgeKinds`.
* The response drain loop stops at a dropped byte: `ResponseAssembler.StrayByteDelaysResponse`,
  exactly then by `ResponseAssembler.DrainLoopQuiescent`.
* A signed double-word default wraps instead of saturating: `HmiEncoding.DefaultShownNegative`,
  exactly then by `HmiEncoding.DefaultSaturatesIff`.
* A hot limit that is not a multiple of the page size truncates a page:
  `HistoryCache.MisalignedHotShowsShortPage`, exactly then by `HistoryCache.ReadExact`.
* A clock that jumps back within a stretch and then climbs separates the two debouncers:
  `Debounce.ClockJumpSeparates`, exactly then by `Debounce.DebouncersAgreeIff`.
* A Stop event that the loop never popped ends a loop started again: `ControlLoop.RestartMeetsStaleStop`,
  exactly then by `ControlLoop.RestartLeavesIff` and `ControlLoop.StaleIffNotPopped`.

## Model

| member | source | states |
|---|---|---|
| CrcRegister.Absorb | services/protocol/modbus/modbus_crc.cpp:40-53 | the eight shifts of the inner loop fold one byte into the register as the polynomial step does |
| CrcRegister.ByteStepInjective | services/protocol/modbus/modbus_crc.cpp:40-53 | for a given byte, different registers stay different |
| ModbusCrc.Calc | services/protocol/modbus/modbus_crc.cpp:36-56 | the nested loops compute the CRC of the first len bytes, whatever the bytes |
| ModbusCrc.VerifyFrame | services/protocol/modbus/modbus_crc.cpp:64-79 | verify, including the refusal of frames under four bytes |
| ModbusCrc.VerifyIsZeroResidue | services/protocol/modbus/modbus_crc.cpp:64-79 | verify accepts exactly the frames whose CRC over everything, check bytes included, is zero |
| ModbusCrc.SealVerifies | services/protocol/modbus/modbus_crc.cpp:64-79 | every body with its CRC appended low byte first is accepted |
| ModbusCrc.CheckValue | services/protocol/modbus/modbus_crc.cpp:36-56 | the CRC of the digits 1 to 9 is 0x4B37, the catalogued check value of this polynomial |
| ModbusCrc.ByteFaultDetected | services/protocol/modbus/modbus_crc.cpp:64-79 | changing any one byte of an accepted frame, check bytes included, makes it refused |
| StreamCut.RunConserves | services/parser/modbus_rtu_req_assembler.cpp:41-69 | for any framing rule, frames, dropped bytes and the buffer spell the stream in order |
| StreamCut.RunSplit | services/parser/modbus_rtu_req_assembler.cpp:8-70 | for any rule whose decisions are final, splitting a stream anywhere changes nothing |
| StreamCut.RunOfFrames | services/parser/modbus_rtu_req_assembler.cpp:41-69 | whole frames back to back come back as those frames with nothing left |
| StreamCut.RunIsParse | services/parser/modbus_rtu_req_assembler.cpp:41-69 | cutting a stream by a rule gives the one cut in which every frame is whole, every dropped byte stands where the following bytes rule a frame out, and the rest is open; and no other cut is so |
| RequestAssembler.WholeIsWellFormed | services/parser/modbus_rtu_req_assembler.cpp:13-69 | what the rule cuts is exactly the requests of the right length and CRC, said without the rule |
| RequestAssembler.DecideSound | services/parser/modbus_rtu_req_assembler.cpp:13-69 | a decision once taken is not changed by bytes that arrive later, nor by bytes beyond the frame |
| RequestAssembler.ChunkingIndependent | services/parser/protocol_parser_thread.cpp:212-214 | for every chunking and every interleaving of ports, frames and left-over bytes equal those of the whole stream fed at once |
| RequestAssembler.RoundTrip | services/parser/modbus_rtu_req_assembler.cpp:34-70 | well-formed requests, concatenated and chunked at will, come back as that sequence with an empty buffer |
| RequestAssembler.EmittedFromStream | services/parser/modbus_rtu_req_assembler.cpp:34-70 | on any stream the frames are well-formed requests, with dropped and buffered bytes they spell it, and what is buffered is under four bytes or a request not there to its end |
| RequestAssembler.ServedIsParse | services/parser/modbus_rtu_req_assembler.cpp:34-70 | exactly the cut of the port's stream in which frames are well-formed requests, bytes are dropped only and always where no request can begin, and what is left is under four bytes or a request not there to its end |
| RequestAssembler.StrayByteIsDropped | services/parser/modbus_rtu_req_assembler.cpp:46-49 | a request behind a stray byte is returned and the byte dropped, where its address is no function code |
| RequestAssembler.ModbusRtuReqAssembler.OnBytes | services/parser/modbus_rtu_req_assembler.cpp:8-11 | appends to one port and to no other |
| RequestAssembler.ModbusRtuReqAssembler.PopAndVerify | services/parser/modbus_rtu_req_assembler.cpp:53-66 | popping, checking and pushing back all but the first byte equals dropping one byte |
| RequestAssembler.ModbusRtuReqAssembler.TryOnce | services/parser/modbus_rtu_req_assembler.cpp:42-68 | one turn of the loop takes the decision of the rule and moves the buffer accordingly |
| RequestAssembler.ModbusRtuReqAssembler.TryGetFrame | services/parser/modbus_rtu_req_assembler.cpp:34-70 | the loop terminates and finds the first frame of the port's buffer, leaving other ports alone |
| RequestAssembler.ModbusRtuReqAssembler.Receive | services/parser/protocol_parser_thread.cpp:212-214 | append then drain gives the frames and rest of draining the joined buffer |
| RequestAssembler.ModbusRtuReqAssembler.ServeAll | services/parser/protocol_parser_thread.cpp:212-214 | over a whole life of the object every port ends where the stream specification says |
| ResponseAssembler.WholeIsWellFormed | services/parser/frame_assembler.cpp:29-85 | what the rule cuts is exactly the responses of the right shape, exceptions included |
| ResponseAssembler.DecideSound | services/parser/frame_assembler.cpp:29-85 | decisions are final and local, so the stream theorems apply |
| ResponseAssembler.EmittedIsPrefix | services/parser/frame_assembler.cpp:19-85 | after any interleaving of calls a link has emitted a prefix of the frames of its whole stream; frames, dropped bytes and buffer spell what it received |
| ResponseAssembler.AttemptExact | services/parser/frame_assembler.cpp:29-85 | an attempt leaves a buffer that is open as it is, reports the well-formed response in front if there is one, and otherwise drops one byte, a bad byte count included |
| ResponseAssembler.QuiescentIsParse | services/parser/frame_assembler.cpp:29-85 | once attempts change nothing any more, frames, dropped bytes and rest are the one cut of what the link received in which bytes are dropped only and always where no response can begin |
| ResponseAssembler.PiecesBeginParse | services/parser/frame_assembler.cpp:29-85 | and until then they begin that cut |
| ResponseAssembler.LinksIndependent | services/parser/frame_assembler.cpp:19-85 | calls on other links make no difference to a link |
| ResponseAssembler.DrainLoopQuiescent | services/parser/frame_assembler.cpp:53-56 | a drain loop that stops at the first false reaches quiescence exactly when no byte is dropped before the last piece |
| ResponseAssembler.StrayByteDelaysResponse | services/parser/frame_assembler.cpp:82-84 | a whole response behind one stray byte is not delivered by the drain loop that received it |
| ResponseAssembler.FrameAssembler.OnBytes | services/parser/frame_assembler.cpp:19-23 | appends to one link and to no other |
| ResponseAssembler.FrameAssembler.TryGetFrame | services/parser/frame_assembler.cpp:29-85 | takes one decision: reports a frame exactly when one is cut, and reports false after dropping a byte |
| ResponseAssembler.FrameAssembler.Perform | services/parser/frame_assembler.cpp:19-85 | over any calls the object's buffers and outputs are those of the per-link specification |
| ControlLoop.AlwaysInv | services/control/control_loop.cpp:501-575 | the protocol invariant holds in every interleaving of posters, loop thread and stop |
| ControlLoop.NoStrandedSnapshot | services/control/control_loop.cpp:501-575 | a stored snapshot implies the flag and at least one marker owed, queued or popped; once all are quiet the newest stored has been handed on |
| ControlLoop.ExactlyOneMarker | services/control/control_loop.cpp:501-560 | without stop there is one marker while a snapshot waits and none otherwise |
| ControlLoop.AtMostTwoMarkers | services/control/control_loop.cpp:464-479 | with stop there are never more than two markers |
| ControlLoop.StopCanLeaveTwoMarkers | services/control/control_loop.cpp:464-479 | an interleaving with stop that reaches two markers |
| ControlLoop.TakenInStoringOrder | services/control/control_loop.cpp:547-560 | snapshots are delivered in storing order, each at most once, each the newest stored when taken |
| ControlLoop.StopIsPrompt | services/control/control_loop.cpp:464-479 | after stop begins at most one more event is processed, and nothing stored before the clear is taken after it |
| ControlLoop.QueuesAreFifo | services/control/control_loop.cpp:72-108 | what has been popped from each queue is a prefix of what was pushed to it |
| ControlLoop.UrgentFirst | services/control/control_loop.cpp:44-56 | in every interleaving, while an HMI write, an HMI heartbeat or a stop waits, only such an event is popped |
| ControlLoop.PostedWaits | services/control/control_loop.cpp:72-85 | a posted event joins the waiting ones, of which none is lost |
| ControlLoop.PoppedLeaves | services/control/control_loop.cpp:87-108 | a pop takes exactly the event it returns |
| ControlLoop.StopPoppedOrQueued | services/control/control_loop.cpp:464-479 | a finished stop has left its Stop event popped or still queued |
| ControlLoop.RestartLeavesIff | services/control/control_loop.cpp:457-479 | after a finished stop, a loop started again can leave although nobody stops it any more exactly when a Stop event is still in the high queue |
| ControlLoop.StaleIffNotPopped | services/control/control_loop.cpp:464-479 | and, where only stop posts one, that is so exactly when the stopped loop never popped it |
| ControlLoop.RestartMeetsStaleStop | services/control/control_loop.cpp:564-569 | an interleaving that leaves it queued, so that a loop started again pops it first and leaves at once |
| ControlLoop.Loop.PushEvent | services/control/control_loop.cpp:72-85 | the event joins the queue of its priority |
| ControlLoop.Loop.PopEvent | services/control/control_loop.cpp:87-108 | the front of the high queue if there is one, else of the normal queue |
| ControlLoop.Loop.Store | services/control/control_loop.cpp:523-537 | the locked half of a snapshot post: overwrite, set the flag, and say whether a marker is owed |
| ControlLoop.Loop.PostUninterrupted | services/control/control_loop.cpp:491-545 | both halves of a post with no other thread in between |
| ControlLoop.Loop.TakeLatestSnapshot | services/control/control_loop.cpp:547-560 | hands out the stored snapshot if there is one and clears both flags |
| ControlLoop.Loop.ClearSnapshot | services/control/control_loop.cpp:469-473 | the locked region of stop |
| Debounce.TurnsExactlyWhen | services/control/fault/fault_condition_state.cpp:45-132 | while off the output turns on exactly when assert_now has held at every sample for the assert delay since the last change; while on it turns off exactly when clear_now has |
| Debounce.ChangesApart | services/control/fault/fault_condition_state.cpp:45-132 | opposite changes are at least the matching delay apart |
| Debounce.DebouncersAgreeIff | services/control/fault/fault_runtime_mapper.cpp:1287-1337 | update and debounceRule_ show the same output after every sample and for any delays if and only if the clock is calm: once the signal has been raised, it never climbs further above an earlier sample of a stretch than above the one that opened it |
| Debounce.DebouncersAgree | services/control/fault/fault_runtime_mapper.cpp:1287-1337 | so they agree in every run in which no sample is earlier than the one that opened its stretch of equal raw values |
| Debounce.MovingTimeMovesStretches | services/control/fault/fault_runtime_mapper.cpp:1319-1323 | which is so whenever time does not run backwards |
| Debounce.ClockJumpSeparates | services/control/fault/fault_runtime_mapper.cpp:1319-1323 | a clock that jumps back makes the two debouncers disagree |
| Debounce.InstantClear | services/control/fault/fault_condition_state.cpp:29-35 | with no clear delay the output says whether the raw signal has held for the assert delay |
| FaultConditions.FaultConditionState.UpdateWithClear | services/control/fault/fault_condition_state.cpp:45-132 | the fields move as the specification of the debounce says, and the change record tells whether and when |
| FaultConditions.FaultConditionState.Update | services/control/fault/fault_condition_state.cpp:29-35 | one raw signal asserts and its negation clears |
| FaultConditions.FaultConditionEngine.UpdateCondition | services/control/fault/fault_condition_engine.cpp:11-32 | updates the state of one key, created on first use, and of no other key |
| FaultConditions.FaultConditionEngine.UpdateConditionWithClear | services/control/fault/fault_condition_engine.cpp:34-57 | the same with a separate clearing condition |
| FaultConditions.FaultConditionEngine.ResetCondition | services/control/fault/fault_condition_engine.cpp:85-90 | a key in the table starts over, and nothing else changes |
| FaultConditions.FaultConditionEngine.GetConfirmed | services/control/fault/fault_condition_engine.cpp:59-64 | the output of the key's state, false for a key never updated |
| FaultConditions.KeysSeparateRules | services/control/fault/fault_runtime_mapper.cpp:1278-1285 | rules with equal debounce keys have equal code and instance, and are the same rule when signal names hold no separator |
| FaultConditions.PolicyDelays | services/control/fault/fault_runtime_mapper.cpp:1201-1276 | the sixteen offline signals have delays 3000 and 0 ms, every other 3000 and 1000; debounced are ups, air, smoke and gas |
| FaultConditions.RuleDebouncer.DebounceRule | services/control/fault/fault_runtime_mapper.cpp:1287-1337 | only the rule's own state moves, as the specification says; undebounced sources pass through |
| FaultEvaluator.KeysAreOwnDebounces | services/control/fault/fault_logic_evaluator.cpp:159-390 | after every run each of the 19 keys other than pcu1_emergency_stop holds the debounce of its own raw condition with its own delays; pcu1_comm_fault and pcu2_comm_fault, updated twice a cycle with different clear delays, are 3000/0, and the doubled remote_comm_fault is 3000/1000 |
| FaultEvaluator.EmergencyStopNeedsBoth | services/control/fault/fault_logic_evaluator.cpp:212-217 | pcu1_emergency_stop, written from both PCUs, is confirmed exactly when both have been online and stopped for 300 ms |
| FaultEvaluator.EmergencyStopOnlyWithBoth | services/control/fault/fault_logic_evaluator.cpp:212-217 | it is on only in cycles where both raw stops are true |
| FaultEvaluator.StopOfOneIsIgnored | services/control/fault/fault_logic_evaluator.cpp:212-217 | with PCU_1 stopped in every cycle and PCU_0 in none it is never confirmed, however long that lasts |
| FaultEvaluator.Context.EvaluatePcu | services/control/fault/fault_logic_evaluator.cpp:159-218 | the updates of this part, in order, and the confirmed map in step with the engine |
| FaultEvaluator.Context.EvaluateLogicFirst | services/control/fault/fault_logic_evaluator.cpp:220-293 | the updates of this part, in order |
| FaultEvaluator.Context.EvaluateLogicRest | services/control/fault/fault_logic_evaluator.cpp:295-390 | the updates of this part, in order |
| FaultEvaluator.Context.EvaluateAll | services/control/fault/fault_logic_evaluator.cpp:392-400 | a cycle moves the engine as the run specification says and keeps the confirmed map in step |
| FaultDb.ClearById | services/snapshot/sqlite/sqlite_fault_sink/sqlite_fault_sink.cpp:162-183 | the row with the id gets the clear time and state 0; every other row stays |
| FaultDb.ClearByCodeIdle | services/snapshot/sqlite/sqlite_fault_sink/sqlite_fault_sink.cpp:135-160 | with no open row of the code, clearing by code changes nothing |
| FaultDb.ClearByCodeExact | services/snapshot/sqlite/sqlite_fault_sink/sqlite_fault_sink.cpp:135-160 | with an open row of the code, clearing by code dates the newest one, sets its state to 0 and changes no other |
| FaultDb.ClearedExact | services/snapshot/sqlite/sqlite_fault_sink/sqlite_fault_sink.cpp:279-283 | the list the pages are cut from holds exactly the cleared rows, and from a table in id order each once, highest id first |
| HistoryCache.TotalPagesExact | services/control/fault/fault_history_cache.cpp:36-40 | for every 32-bit row count the 16-bit page count is right exactly when the rows fit 65535 pages, the wrapping sum included |
| HistoryCache.TotalPagesCover | services/control/fault/fault_history_cache.cpp:36-40 | within that bound the pages cover the rows and the last page is not empty |
| HistoryCache.WindowAround | services/control/fault/fault_history_cache.cpp:140-166 | the window holds the page, lies in 1..total and spans exactly min(total, window_pages) pages |
| HistoryCache.WindowCentred | services/control/fault/fault_history_cache.cpp:140-166 | the page is in the middle of the window unless the window meets an end of the list, and it meets one only where the middle would reach beyond |
| HistoryCache.RefreshMetaCoherent | services/control/fault/fault_history_cache.cpp:65-90 | one successful refreshMeta on a freshly bound cache makes it agree with the list |
| HistoryCache.FaultHistoryCache.SetSizes | services/control/fault/fault_history_cache.h:62-64 | the sizes are replaced, zero being refused |
| HistoryCache.RefreshWindowCoherent | services/control/fault/fault_history_cache.cpp:121-207 | a successful window refresh makes the cache agree with the list, whatever it held before |
| HistoryCache.CacheRefinesSlice | services/control/fault/fault_history_cache.cpp:209-314 | from a coherent cache, loading any page number and reading it gives the plain slice of the clamped page, for every window size, and the cache stays coherent |
| HistoryCache.ShownPageExact | services/control/fault/fault_history_cache.cpp:209-314 | row by row: page p is rows (p - 1) * page_size on, up to page_size of them; 0 means the first page and a number beyond the list the last |
| HistoryCache.ReadExact | services/control/fault/fault_history_cache.cpp:238-314 | reading without loading shows the page or nothing exactly when the window holds the page, or no hot prefix is held, or the prefix does not end inside the page |
| HistoryCache.ReadShowsPageOrNothing | services/control/fault/fault_history_cache.cpp:264-314 | so a hot limit that is a multiple of the page size never shows a wrong page |
| HistoryCache.MisalignedHotShowsShortPage | services/control/fault/fault_history_cache.cpp:264-314 | and every page outside the window that the limit falls inside is shown truncated |
| HistoryCache.FaultHistoryCache.BindDb | services/control/fault/fault_history_cache.cpp:14-34 | forgets everything and marks a bound cache valid with zero pages |
| HistoryCache.FaultHistoryCache.RefreshMeta | services/control/fault/fault_history_cache.cpp:65-90 | counts and pages as specified, or nothing changes when the query fails |
| HistoryCache.FaultHistoryCache.RefreshHotCache | services/control/fault/fault_history_cache.cpp:92-119 | the newest rows up to the limit, or nothing changes |
| HistoryCache.FaultHistoryCache.RefreshWindow | services/control/fault/fault_history_cache.cpp:121-207 | the window as specified, with its failure cases |
| HistoryCache.FaultHistoryCache.EnsurePageLoaded | services/control/fault/fault_history_cache.cpp:215-236 | loads the window only when the page is outside it |
| HistoryCache.FaultHistoryCache.Read | services/control/fault/fault_history_cache.cpp:238-314 | the page out of the window if it holds it, else out of the hot prefix |
| Activations.EndsAt | services/control/fault/fault_center.cpp:199-258 | an activation's end time is that of the first later off report of its code |
| Activations.OneOngoing | services/control/fault/fault_center.cpp:117-139 | a code has at most one activation in progress |
| FaultCenterModel.FaultCenter.SetActiveCode | services/control/fault/fault_center.cpp:105-274 | the centre and the bound table move as the specification says, in all branches |
| FaultCenterModel.FaultCenter.TrimHistoryIfNeeded | services/control/fault/fault_center.cpp:362-381 | the loop removes the oldest closed record, or the oldest if all are open, until the bound holds |
| FaultCenterModel.TrimExact | services/control/fault/fault_center.cpp:362-381 | a log of more than 1000 records loses its oldest closed one, or its oldest when all are open; a shorter log is left alone |
| FaultCenterModel.FaultCenter.CloseNewest | services/control/fault/fault_center.cpp:211-219 | the reverse scan closes the newest open record of the code and no other |
| FaultCenterModel.CloseLastExact | services/control/fault/fault_center.cpp:211-219 | the newest open record of the code gets the clear time and state 0, and no other record changes |
| FaultCenterModel.DirtyExactly | services/control/fault/fault_center.cpp:263-266 | the mark is set and the version counted up exactly by reports that begin or end an activation of a recorded code |
| FaultCenterModel.FaultCenter.ConsumeHistoryDirty | services/control/fault/fault_center.cpp:275-284 | returns and clears the mark |
| FaultCenterModel.FaultCenter.NextCurrentPage | services/control/fault/fault_center.cpp:304-313 | one page on, unless it is the last or there is none |
| FaultCenterModel.FaultCenter.PrevCurrentPage | services/control/fault/fault_center.cpp:315-318 | one page back, unless it is the first |
| FaultCenterModel.FaultCenter.NextHistoryPage | services/control/fault/fault_center.cpp:320-329 | one history page on, unless it is the last or there is none |
| FaultCenterModel.FaultCenter.PrevHistoryPage | services/control/fault/fault_center.cpp:331-334 | one history page back, unless it is the first |
| FaultCenterModel.FaultCenter.ClampPages | services/control/fault/fault_center.cpp:538-548 | both page indexes are brought within their totals |
| FaultCenterModel.ClampExact | services/control/fault/fault_center.cpp:538-548 | a page within the total stays, any other becomes the last page, or 0 |
| FaultCenterModel.TotalPagesExact | services/control/fault/fault_center.cpp:524-536 | five rows to a page, the last page not empty |
| FaultCenterModel.PagesTurn | services/control/fault/fault_center.cpp:304-334 | Next turned n times moves n pages on up to the last, Prev n pages back down to the first |
| FaultHistory.ActiveIsLastReport | services/control/fault/fault_center.cpp:117-130 | after every run a code is active exactly when its latest report says on |
| FaultHistory.BeginTimes | services/control/fault/fault_center.cpp:139-254 | the begin-time map's keys are the active codes, each with the time its activation in progress began |
| FaultHistory.LogDescribes | services/control/fault/fault_center.cpp:144-151 | every record of the log is one activation with its begin, end and number, oldest first, at most 1000 of them; while there is room none in progress is missing |
| FaultHistory.OpenRecordsAreActive | services/control/fault/fault_center.cpp:211-219 | in every run, open records belong to different active recorded codes and carry their begin times, and the log never exceeds 1000 |
| FaultHistory.OpenBijectionIffRoom | services/control/fault/fault_center.cpp:362-381 | all along a run every active recorded code has its open record exactly when never more than 1000 recorded codes are active |
| FaultHistory.OverflowLosesRecord | services/control/fault/fault_center.cpp:376-379 | with more than 1000 recorded codes on, some active code has no open record |
| FaultRows.BookRun | services/control/fault/fault_center.cpp:153-258 | after every run, whatever statements fail, the id map holds exactly the ids of the open rows, under active recorded codes |
| FaultRows.BookHolds | services/control/fault/fault_center.cpp:153-258 | the k-th row stored is that of the k-th stored activation with its begin and end |
| FaultRows.IdKeysAreActive | services/control/fault/fault_center.cpp:176-257 | the id map's keys are active record_db codes |
| FaultRows.ClearMatchesInsert | services/control/fault/fault_center.cpp:223-230 | an id passed to markHistoryClearedById was returned by the insert of the very activation that this clear ends |
| FaultRows.ClearedAtMostOnce | services/control/fault/fault_center.cpp:223-230 | no id is cleared twice |
| FaultRows.RowsAreActivations | services/control/fault/fault_center.cpp:153-235 | all along a run the table holds one row per stored activation with its own times exactly when no clear by id fails; failed inserts and clears by code do no harm |
| FaultRows.ListIsNewestFirst | services/snapshot/sqlite/sqlite_fault_sink/sqlite_fault_sink.cpp:279-283 | after every run the list holds exactly the cleared rows, each once, the one inserted last first, whatever statements fail |
| FaultRows.FailedClearMisdatesRow | services/control/fault/fault_center.cpp:231-234 | a failed clear by id lets a later clear by code date the stale row with the end of another activation |
| Sorting.SortedUnique | services/control/fault/fault_catalog.cpp:186-191 | strictly sorted sequences of the same elements are equal, so any correct sort gives one result |
| FaultCatalog.TableKeepsBest | services/control/fault/fault_catalog.cpp:169-176 | the table holds exactly the codes of the items, each with the item of lowest rank, of those the lowest order, of those the first |
| FaultCatalog.ListingUnique | services/control/fault/fault_catalog.cpp:182-191 | the sorted list does not depend on the order in which the hash table is walked |
| FaultCatalog.CurrentListExact | services/control/fault/fault_catalog.cpp:193-197 | the current list holds, once each, exactly the codes whose best item asks for it, by rank, then order, then code |
| FaultCatalog.HistoryListExact | services/control/fault/fault_catalog.cpp:193-197 | the history list those whose best item asks for that, in the same order |
| FaultCatalog.AllListExact | services/control/fault/fault_catalog.cpp:193-197 | and the list of all codes those of the table |
| FaultCatalog.Load | services/control/fault/fault_catalog.cpp:133-200 | the loops, walking the table in an arbitrary order, give the table and the sorted lists |
| CurrentPages.VisibleExact | services/control/fault/fault_center.cpp:394-418 | the visible list is the active codes of the current list, each once, a later begin time first and of equal ones the lower code |
| CurrentPages.VisibleUnique | services/control/fault/fault_center.cpp:407-415 | no other list is sorted so and has those elements |
| CurrentPages.VisibleOfLoaded | services/control/fault/fault_center.cpp:399-402 | with a loaded catalog, visible means active and asked for by the code's best item |
| CurrentPages.BuildCurrentRows | services/control/fault/fault_center.cpp:463-496 | the loop builds the rows of the page on display |
| CurrentPages.PageRowsExact | services/control/fault/fault_center.cpp:463-496 | page p shows the visible codes from place 5p on, at most five, numbered from 5p + 1, each with its begin time in seconds |
| CurrentPages.PagesPartition | services/control/fault/fault_center.cpp:463-529 | pages 0 to total - 1 concatenate to the rows of the whole visible list |
| CurrentPages.PagesNumbered | services/control/fault/fault_center.cpp:463-529 | which are its codes in order, numbered 1 to n |
| CurrentPages.PageStaysInRange | services/control/fault/fault_center.cpp:290-344 | through every run of reports and page moves the current and the history page index name pages that exist |
| CurrentPages.CurrentMoves | services/control/fault/fault_center.cpp:290-318 | Next turns one page on exactly while visible codes lie beyond the page, Prev one page back exactly while one lies before it, the others go to page 0; nothing else changes |
| CurrentPages.HistoryMoves | services/control/fault/fault_center.cpp:320-344 | the same of the history page and the records of shown codes |
| CurrentPages.PageShowsSomething | services/control/fault/fault_center.cpp:538-548 | the page on display is empty only when nothing is visible |
| RefreshProtocol.AlwaysInStep | services/control/logic/logic_fault_refresh.cpp:29-76 | over every run of reports, refreshes and button presses, the centre is dirty or the cache agrees with the database; queries may fail anywhere except in a dirty refresh |
| RefreshProtocol.DisplayIsCurrent | services/control/logic/logic_fault_refresh.cpp:29-76 | after every refresh with succeeding queries the page on display is the current slice of the database |
| RefreshProtocol.QuietReport | services/control/fault/fault_center.cpp:263-266 | a report that leaves the mark unset leaves the database alone |
| RefreshProtocol.PressShowsOldOrNew | services/control/logic/logic_hmi_input.cpp:631-655 | a history button pressed while the cache lags behind shows its target page as it was if the old window holds it, and as it is otherwise |
| RefreshProtocol.PressShows | services/control/logic/logic_hmi_input.cpp:631-655 | so pressed while the cache agrees it shows the current slice of its target page |
| RefreshProtocol.ButtonMoves | services/control/logic/logic_hmi_input.cpp:797-940 | Next leads one page on unless it is the last, Prev one back unless it is the first, Enter and First to page 1, by the pages the list needs now |
| RefreshProtocol.FailedPressIdle | services/control/logic/logic_hmi_input.cpp:797-940 | a button whose first query fails changes nothing |
| RefreshProtocol.FailedReloadKeepsWindow | services/control/logic/logic_fault_refresh.cpp:34-46 | a dirty refresh in which any query fails leaves the window as it was |
| RefreshProtocol.ReloadForgets | services/control/fault/fault_center.cpp:281-283 | and a dirty refresh has consumed the mark, whatever its queries do |
| RefreshProtocol.DisplayIsOfLastLoad | services/control/logic/logic_fault_refresh.cpp:29-76 | after any mix of reports, presses and refreshes that succeed or fail in any way, the page on display is that page of the list at the last load, so it is right exactly when the page has not changed since |
| RefreshProtocol.FailedReloadsExact | services/control/logic/logic_fault_refresh.cpp:34-62 | however many reloads fail, by whichever query, with reports and refreshes in between, the page stays on display as it was, so it is right exactly when it is the same in the old list and the current one |
| RefreshProtocol.FailedReloadExact | services/control/logic/logic_fault_refresh.cpp:34-62 | the same for one failed reload and the refreshes after it |
| RefreshProtocol.FailedReloadAlongRun | services/control/logic/logic_fault_refresh.cpp:29-76 | the same from the start of the system, after a run that has gone well up to some point |
| RefreshProtocol.OutsideWindowRecovers | services/control/logic/logic_fault_refresh.cpp:58-64 | where the window does not hold the page, the next good refresh puts the display right |
| RefreshProtocol.LostUpdate | services/control/logic/logic_fault_refresh.cpp:29-76 | a run from an empty system: a fault is shown, a second comes and goes, some query of the reload fails, and no number of refreshes ever shows the second row although it heads the list |
| RefreshProtocol.HistoryPages.RefreshHistory | services/control/logic/logic_fault_refresh.cpp:29-76 | consumes the mark, then reloads or tops up the cache as specified |
| RefreshProtocol.HistoryPages.Show | services/control/logic/logic_hmi_input.cpp:631-655 | refreshes the totals, clamps the page and loads it |
| RefreshProtocol.HistoryPages.PressButton | services/control/logic/logic_hmi_input.cpp:797-940 | the four history buttons, with their failure cases |
| BmsRuntime.BmsLogicCache.OnDeviceData | services/control/bms/bms_logic_adapter.cpp:1640-1792 | one instance's entry moves as specified, and hv_allow_close follows from its fields |
| BmsRuntime.BmsLogicCache.UpdateHealth | services/control/logic/logic_tick.cpp:677-744 | every entry's health is recomputed from its times, in any order of entries; what it then says is HealthTells |
| BmsRuntime.TimesTell | services/control/bms/bms_logic_adapter.cpp:1699-1758 | each group time is that of the latest message of the group for that instance |
| BmsRuntime.LevelsTell | services/control/bms/bms_logic_adapter.cpp:844-866 | each level is the one carried by the latest message that carries it; fire_fault_level is never written |
| BmsRuntime.Flags1Tell | services/control/bms/bms_logic_adapter.cpp:251-305 | each Fault1 flag is the one carried by the latest message that carries it |
| BmsRuntime.Flags2Tell | services/control/bms/bms_logic_adapter.cpp:410-428 | each Fault2 flag is that of the latest Fault2 message, absent fields reading false |
| BmsRuntime.AllowCloseTells | services/control/bms/bms_logic_adapter.cpp:1767-1781 | hv_allow_close is never out of date with the fields it is made of |
| BmsRuntime.MessageMarks | services/control/bms/bms_logic_adapter.cpp:1664-1690 | a message marks its own group online and leaves the other marks to the next tick |
| BmsCommand.AllowedIffSafe | services/control/bms/bms_command_manager.cpp:83-144 | closing is allowed exactly when the messages received make it safe: the latest St2 and CurrentLimit at most 3000 ms old, the latest Fault1, Fault2 and message of any kind at most 5000 ms old, none from the future, and the latest word on each blocking condition is that it is absent |
| BmsCommand.HealthTells | services/control/logic/logic_tick.cpp:677-744 | each mark a tick leaves says whether the latest message of its group is there, not from the future and at most 3000 or 5000 ms old, and stale that a group once heard is not so |
| BmsCommand.ReasonIsTrue | services/control/bms/bms_command_manager.cpp:83-144 | the reason on record after a tick is true of the messages: a stale-group reason means the group was never heard, AllowClose that closing is safe and wished for |
| BmsCommand.EmittedExactly | services/control/bms/bms_command_manager.cpp:194-340 | every frame a tick emits carries the business code's wish if the messages so far make closing safe, and PowerOff otherwise |
| BmsCommand.StaleGroupForcesPowerOff | services/control/logic/logic_tick.cpp:584-591 | every frame a tick emits says 2, PowerOff, when St2 or CurrentLimit was never heard, bears a later time or is over 3000 ms old, or Fault1, Fault2 or every message over 5000 |
| BmsCommand.PowerOnIsSafe | services/control/bms/bms_command_manager.cpp:268-305 | over every run, frame k was emitted by the one tick before which k frames had been, and says PowerOff unless the messages received by then made closing safe, for an arbitrary business writer |
| BmsCommand.PowerOnReadIsSafe | services/protocol/can/bms/bms_tx.cpp:180-200 | the same for what a battery reads off the bus, where the command is cut to two bits |
| BmsCommand.FireNeverBlocks | services/control/bms/bms_command_manager.cpp:126-128 | in no run does the manager ever block for fire, because the level it checks is never filled in |
| BmsCommand.FireAlarmDoesNotBlock | services/control/bms/bms_command_manager.cpp:126-128 | a tick that follows a fire alarm of any level emits what the business code wishes |
| BmsCommand.PowerOnAfterFireAlarm | services/control/bms/bms_command_manager.cpp:307-340 | a run in which PowerOn is emitted after a fire alarm |
| BmsCommand.BusinessVerdictInverted | services/control/business/business_engine.cpp:193-198 | a frame says PowerOn exactly when the verdict is off and closing is safe, and says what the verdict means exactly when the verdict is off and closing is not safe |
| BmsCommand.LifeCounts | services/control/bms/bms_command_manager.cpp:318-338 | the n-th frame of an instance carries n modulo 256 in every run, however often the builder refuses and whatever the clock does |
| BmsCommand.FramesApart | services/control/bms/bms_command_manager.cpp:314-316 | from frame a to frame b at least b - a periods pass |
| BmsCommand.SentExactlyWhen | services/control/bms/bms_command_manager.cpp:314-316 | in every run a tick sends exactly if the builder does not refuse and there is no frame yet, or the latest one is a period back in unsigned 64-bit arithmetic |
| BmsCommand.SentExactlyWhenDue | services/control/bms/bms_command_manager.cpp:314-316 | so on a clock that does not go back exactly if there is none yet or the latest is at least a period old |
| BmsCommand.BmsCommandManager.RebuildDesiredFromCache | services/control/bms/bms_command_manager.cpp:194-267 | all four instances are rebuilt from the cache |
| BmsCommand.BmsCommandManager.WriteDesired | services/control/bms/bms_command_manager.cpp:171-185 | one instance's command is overwritten, no other |
| BmsCommand.BmsCommandManager.EnforceSafetyFromCache | services/control/bms/bms_command_manager.cpp:268-305 | all four instances are clamped from the cache |
| BmsCommand.BmsCommandManager.EmitPeriodicCommands | services/control/bms/bms_command_manager.cpp:307-340 | frames in instance order, for those due and not refused, with life counter and send time moved |
| BmsCommand.OnTick | services/control/logic/logic_tick.cpp:416-451 | health, rebuild, business writes, clamp and emission compose to the per-instance tick of the run specification |
| BmsCommand.TickedInOrder | services/control/bms/bms_command_manager.cpp:307-340 | the frames of a tick go out by instance, and are exactly those each instance sends by itself |
| BmsWire.PackIsBitwise | services/protocol/can/bms/bms_tx.cpp:157-161 | the masks and shifts, bit by bit, compute the arithmetic the module reasons with |
| BmsWire.PackSplices | services/protocol/can/bms/bms_tx.cpp:157-161 | packing replaces a range of the word by the low bits of the value |
| BmsWire.PackKeeps | services/protocol/can/bms/bms_tx.cpp:139-166 | packing a bit range leaves every range apart from it as it was |
| BmsWire.FrameReadsBack | services/protocol/can/bms/bms_tx.cpp:180-316 | every signal of a layout without overlaps reads back, cut to its width |
| BmsWire.CommandLayout | services/protocol/can/bms/generated/proto_bms_table.cpp:924-1315 | the command frame's 26 signals do not overlap and fit the word |
| BmsWire.CommandOnWire | services/protocol/can/bms/bms_tx.cpp:196-200 | the receiver reads the life counter modulo 256 and the command modulo 4 |
| BmsWire.RestOnWire | services/protocol/can/bms/generated/proto_bms_table.cpp:924-1315 | the switches, the speed and the twenty states are read in their places, each cut to its width |
| Scheduler.OnlineAfterTick | app/scheduler/device_scheduler.cpp:288-298 | after a tick a device is online exactly when its latest report is no later than the tick and within its window, 2000 ms if none was set up |
| Scheduler.LateTickDropsDevice | app/scheduler/device_scheduler.cpp:280-297 | a tick that read the clock before a report but took the lock after it drops the device that has just reported |
| Scheduler.EdgeKinds | app/scheduler/device_scheduler.cpp:229-241 | down edges come only from ticks and report edges only from the device's own reports; a tick raises a device exactly when it finds it within the window and the tick before was late |
| Scheduler.LateTickRaisesDevice | app/scheduler/device_scheduler.cpp:280-297 | a report, a late tick and a tick in time: the last one raises the device |
| Scheduler.EdgesCount | app/scheduler/device_scheduler.cpp:300-307 | edges alternate, disconnect_count is the number of down edges modulo 2^32, and last_offline_ms the time of the latest |
| Scheduler.PollsSpaced | app/scheduler/device_scheduler.cpp:311-329 | successive polls of a task are at least its period apart, late ticks included |
| Scheduler.PolledExactlyWhen | app/scheduler/device_scheduler.cpp:311-326 | a tick polls a task exactly when it is enabled and its period has passed since it was last polled or, being the first of its device, postponed by a report, or neither has happened |
| Scheduler.DueInOrder | app/scheduler/device_scheduler.cpp:311-326 | the polls go out in the order of the tasks |
| Scheduler.TickMarks | app/scheduler/device_scheduler.cpp:326-329 | last_send_ms becomes the tick's time for exactly the devices polled |
| Scheduler.DueOnce | app/scheduler/device_scheduler.cpp:311-329 | each task that is due is polled once in a tick |
| Scheduler.DeviceScheduler.OnDeviceData | app/scheduler/device_scheduler.cpp:218-246 | the device is fed, its first task postponed, and the health callback is due exactly on an up edge |
| Scheduler.DeviceScheduler.PollTick | app/scheduler/device_scheduler.cpp:266-330 | aging and due collection as specified; the callback list is the devices that changed |
| HmiEncoding.SplitCombines | services/normal/normal_hmi_writer.cpp:204-224 | high and low words recombine to the 32-bit value |
| HmiEncoding.ImageReadsBack | services/normal/normal_hmi_writer.cpp:1022-1048 | a written raw value reads back as itself brought into the register's range |
| HmiEncoding.WrittenSaturates | services/normal/normal_hmi_writer.cpp:162-202 | a resolved item shows its rounded raw value or the end of the range it lies beyond |
| HmiEncoding.WrittenIsNearest | services/normal/normal_hmi_writer.cpp:136-185 | what is shown, decoded by the item's own scale and offset, is the nearest to the value cut to the item's own bounds of everything the register can show; a missing or vanishing scale counts as 1 |
| HmiEncoding.WrittenWithinHalfStep | services/normal/normal_hmi_writer.cpp:162-185 | and within half a scale step of it when the value lies between two that the register can show |
| HmiEncoding.WrittenTie | services/normal/normal_hmi_writer.cpp:136-151 | a value half way between two raw values is shown as the one further from zero |
| HmiEncoding.NotNumberShowsDefault | services/normal/normal_hmi_writer.cpp:1002-1020 | a node that is not a number is shown as the item's default would be, saturated |
| HmiEncoding.PairReadsBack | services/normal/normal_hmi_writer.cpp:873-911 | a hi/lo pair reads back as the number it was split from |
| HmiEncoding.PairIsTwoWords | services/normal/normal_hmi_writer.cpp:873-911 | any pair, whole or not, in range or not, is shown as two unscaled unsigned words would be |
| HmiEncoding.DefaultReadsBack | services/normal/normal_hmi_writer.cpp:955-972 | a default is shown saturated, except that a signed double word wraps around |
| HmiEncoding.DefaultSaturatesIff | services/normal/normal_hmi_writer.cpp:959-961 | when such a default is nevertheless shown saturated, exactly |
| HmiEncoding.DefaultWraps | services/normal/normal_hmi_writer.cpp:955-972 | a whole-number default of an unscaled signed double word is shown as the 32-bit number congruent to it, cut to 64 bits before |
| HmiEncoding.DefaultShownNegative | services/normal/normal_hmi_writer.cpp:959-961 | a default of three thousand million is shown as a negative number |
| HmiEncoding.RegisterHoldsLast | services/normal/normal_hmi_writer.cpp:913-1050 | after a flush a register holds the word of the last item that covers it, register by register |
| HmiEncoding.HmiRegisters.WriteItem | services/normal/normal_hmi_writer.cpp:945-1050 | the integer branch writes the words of the specification and nothing else |
| HmiEncoding.HmiRegisters.Flush | services/normal/normal_hmi_writer.cpp:913-1050 | the loop over the items stores their blocks in order |

## Left out

- Sockets, epoll, termios, GPIO, ADC, CAN and serial drivers: system calls only.
- JSON and JSONL reading, configuration, file and uplink sinks: their results are given lists and fields.
- SQLite itself: a table of rows in id order whose ids are never reused, with statements and queries that may fail where the events say so.
- `restoreHistoryFromDb`, which fills the maps for codes that are not active: runs start from an empty centre, bound to a table with no open row.
- The rows of the centre's own history page, which the cache has replaced on the display; its page index is modelled.
- `buildLogicView`, the long field tables of the battery adapter that the high-voltage path does not read, and the PCU, UPS and air-conditioner state: field copies without branching.
- The decision inside `BusinessEngine::evaluate`: it is an arbitrary writer of commands; only what it writes for its verdict is taken from the code.
- The raw-signal helpers of the fault evaluator beyond what the shared keys read: their values are inputs of a cycle.
- Boolean and bit items of the HMI writer, and its path resolution: an item comes with what its path resolves to.
- Data races and the memory model: each locked region, and each refresh, report or button press, is one step.
- 64-bit millisecond sums, which are taken not to wrap, except the send-time difference of the command manager.
- HmiEncoding.WrittenIsNearest: real arithmetic stands in for doubles, so the error of the floating-point division is not covered, nor infinities and a raw value of exactly 2^63.
- ModbusCrc.VerifyIsZeroResidue: frames longer than the 16-bit length argument can address are not covered, because the source truncates their length.
- HistoryCache.CacheRefinesSlice: the list must fit 65535 pages and 2^31 rows, beyond which the source's 16-bit page count and 32-bit query arguments overflow.
- RefreshProtocol.AlwaysInStep: the same bound on the list, at every state of the run.
- ModbusCrc.ByteFaultDetected: the same bound on the length of frames.
- ControlLoop.RestartLeavesIff: of a loop started again only when it leaves is proved; the other guarantees are for the first run.
- RefreshProtocol.DisplayIsOfLastLoad: does not cover presses whose queries fail, after which the page may be outside the window.
- BmsWire.FrameReadsBack: leaves out the byte overrides that the frame builder applies last (services/protocol/can/bms/bms_tx.cpp, lines 318-329), because nothing in the repository sets one.
- Scheduler.PollsSpaced: a report is no earlier than the ticks it follows, which reading its clock under the lock gives; a tick may be earlier than the reports it follows.
- FaultHistory.LogDescribes: clock times are positive, because a clear time of zero means "still open" in the source.
