# Dapper, modelled and proved in Dafny

Dapper is a Python debug adapter.  This project models the parts of it that are hard to get right
and proves what they promise:

* **The bytecode breakpoint injector**: a small compiler pass that weaves a call to
  `_dapper_breakpoint(line)` into an instruction list, resolves its constants and names against
  append-only pools, writes two-byte wordcode, and can recognise and strip what it wove
  (`Bytecode`, `Injector`, `StackMachine`, `Stripper`, `Wordcode`, `InjectionLimits`, `InlineCaches`,
  `RoundTrips`, `CodeRebuild`, `LineTable`).  A `Python` record holds opcode numbers, operand kinds, the
  place of the NULL, the inline-cache count of every opcode and whether `dis` lists cache entries and counts
  them by opcode, so each theorem covers every interpreter version the record can describe.
* **The `sys.monitoring` backend** as a state machine over the event model of PEP 669, with every API
  call, callback and debuggee step as one input (`Monitoring`, `SparseTracer`, `MonitoringBackend`).
* **Caches that must agree with something simpler** (`FuncCodeInfoCache`, `BreakpointCache`,
  `ModifiedCode`, `SelectiveTracer`, with the list facts of `Recency`).
* **Debugger-core state and small languages** (`LogTemplate`, `HitConditions`, `BreakpointResolver`,
  `BreakpointManager`, `DataBreakpoints`, `ThreadTracker`, `IpcBinary`, `Lifecycle`).

Objects that the program updates in place are classes; each method is proved against a function on the
object's abstract value, and the properties are then proved of runs of that function.  Loops are loops.
Evaluated expressions, clocks, file modification times, chunk sizes and the outcome of a rebuild are inputs.

Where the code does not do what its documentation or its purpose suggests, the model follows the code, and
a lemma states the exact condition under which the two agree:

| what happens | exact condition |
|---|---|
| a check raises NameError: it loads `_dapper_breakpoint` from the debuggee's globals, and nothing in the repository puts it there | `StackMachine.InjectionMeaningIff`, `StackMachine.UnboundHelperEndsProgram` |
| from Python 3.13 on `dis` lists no CACHE entries, so every rebuild drops them, and the lookup of cache counts by opcode finds none, so checks have none | `Wordcode.ListThenEncodeIff`, `RoundTrips.RoundTripIff`, `RoundTrips.CheckNeutralIff` |
| an index above 255 is cut to its low byte | `InjectionLimits.ByteLimitIsExact`, `InjectionLimits.InjectedDecodesIff` |
| a check between an EXTENDED_ARG and its target destroys both | `InjectionLimits.InjectedDecodesIff`, `InjectionLimits.PrefixesKeptIff` |
| a check after a first LOAD_GLOBAL separates it from its inline caches, and the interpreter then takes the check for cache entries | `InlineCaches.WovenAligned`, `InlineCaches.SplitsExactlyAtCachedFirstLoads` |
| all of these, for the breakpoint lines of one code object | `CodeRebuild.EncodableIff` |
| a breakpoint line gets no check | `Injector.LineIsCheckedUnlessStarved` |
| the fallback line table is written as an lnotab but passed as the line table of Python 3.10, which shows every range with the line of the next and loses the last | `LineTable.RangesAreShiftedIff`, `LineTable.RangesNeverComeBack` |
| read as an lnotab, its line deltas are cut to a signed byte and not carried | `LineTable.LnotabLinesIffStepsFit` |
| the registry keeps one of several equal code objects, and breakpoints set later do not reach the others | `SparseTracer.SparseRefinesNaiveIff` |
| a line passed in CONTINUE stays disabled when STEP_IN begins, which restarts no events, although every line is documented to fire | `SparseTracer.StepInFiresIff` |
| equal code objects of different files share their entries in every store, so one file is served the other's code and loses its entry with it | `ModifiedCode.InvalidateIsExactIff`, `ModifiedCode.LookupIsOwnFileIff`, `ModifiedCode.MemoIsCachedIff` |
| a literal `}` right after an expression is swallowed, and the expression gets a control character | `LogTemplate.ReadAsWrittenIff` |
| `cleanup_expired` counts entries that are already gone | `FuncCodeInfoCache.CleanupCountExact` |
| `clear_breakpoints()` leaves the cache filled | `SelectiveTracer.ClearEverythingKeepsMirrorOnlyIfEmpty` |
| `remove_cached_code` leaves metadata and memo behind | `ModifiedCode.RemoveCachedAgreesIff` |
| a watched value changed in place is not reported | `DataBreakpoints.ReportIsRightIff` |
| a comparison without a truth value ends the check | `DataBreakpoints.DataBreakpointState.CheckForChanges` |
| an empty payload ends the receive loop | `IpcBinary.AllUpToEmptyIff` |
| a recovery while an operation or initialisation is in flight lets two operations in | `Lifecycle.RecoveryIsSafeIff` |

`capture_step_context` says it is to be called after `set_stepping`, but `set_stepping` reads the captured code
(`dapper/_frame_eval/monitoring_backend.py:363` and `:376`); the model allows every order of the two.

## Model

| member | source | states |
|---|---|---|
| `Bytecode.CodePools.FindOrAppendConstant` | `dapper/_frame_eval/_code_object_builder.py:23-30` | the index is the first occurrence of a constant of that type and value, the list grows only at its end and only when the constant was absent |
| `Bytecode.CodePools.FindOrAppendName` | `dapper/_frame_eval/_code_object_builder.py:33-40` | the same for names; the constants are untouched |
| `Bytecode.IndexStable` | `dapper/_frame_eval/_code_object_builder.py:23-40` | a first occurrence stays the first occurrence in every list that extends the pool |
| `Bytecode.DenotationStable` | `dapper/_frame_eval/_code_object_builder.py:43-71` | appending to the pools never changes what an index valid before denotes |
| `Bytecode.ResolveIdentity` | `dapper/_frame_eval/_code_object_builder.py:52-71` | a list without synthetic arguments resolves to itself and adds nothing to the pools |
| `Bytecode.ResolvedConstant` | `dapper/_frame_eval/_code_object_builder.py:52-58` | a constant load that had to be resolved denotes its own constant in the grown pools, or None when it had none |
| `Bytecode.ResolvedGlobal` | `dapper/_frame_eval/_code_object_builder.py:59-67` | a global load denotes its own name there, and its argument is odd where a NULL is to be pushed |
| `Bytecode.ResolveInstructionArguments` | `dapper/_frame_eval/_code_object_builder.py:43-71` | the loop over growing pools computes the resolution that the theorems below are about |
| `Injector.FindInjectionPoints` | `dapper/_frame_eval/modify_bytecode.py:370-401` | the scan with a current line, where a line number goes before a starts-line marker, finds in order of discovery the points that the five lemmas below are about |
| `Injector.ActiveLine` | `dapper/_frame_eval/modify_bytecode.py:388-392` | the active line of an instruction is that of the last mark at or before it with either field: the line number when there is one, whatever the starts-line marker holds; there is none exactly when there is no such mark |
| `Injector.MarkersBesideLinesAreIgnored` | `dapper/_frame_eval/modify_bytecode.py:388-392` | two markings that differ only in starts-line markers beside line numbers give the same points |
| `Injector.PointPlace` | `dapper/_frame_eval/modify_bytecode.py:394-399` | the point of a breakpoint line lies after its first instruction when that loads a constant, local or global or stores a local, and at it otherwise |
| `Injector.PointsAreFirstInstructions` | `dapper/_frame_eval/modify_bytecode.py:381-399` | there is a point for a breakpoint line exactly when some instruction is on it; it is unique, comes from the first such instruction and lies after it exactly for the four preferred opcodes |
| `Injector.CreateBreakpointInstructions` | `dapper/_frame_eval/modify_bytecode.py:403-433` | the new list is the old one with one check after each instruction that has a site, for the first line in the dict with that index |
| `Injector.CreateBreakpointCheckInstructions` | `dapper/_frame_eval/modify_bytecode.py:435-528` | a check is the two loads, the call and the pop, the global load and the call each with the cache entries that the lookup by opcode finds |
| `Injector.LineIsCheckedUnlessStarved` | `dapper/_frame_eval/modify_bytecode.py:394-420` | a breakpoint line gets exactly one check, at its index, unless it is starved, and none then: its index is 0, or an earlier breakpoint line already claimed it |
| `Injector.ResolveWeave` | `dapper/_frame_eval/_code_object_builder.py:43-71` | resolving a woven list leaves every original instruction alone and gives all checks the first-occurrence indices in the final pools, which extend the original ones |
| `StackMachine.CheckIsNeutral` | `dapper/_frame_eval/modify_bytecode.py:435-497` | a resolved check leaves the stack and the rest of the program as they were and makes one helper call with its line exactly when the name `_dapper_breakpoint` is bound where it stands, for every placement of the NULL; otherwise it raises NameError |
| `StackMachine.InjectionMeaningIff` | `dapper/_frame_eval/modify_bytecode.py:403-497` | for every jump-free list, sites and pools: the injected, resolved list with the grown pools does what the original list did with one more helper call at each site passed, if and only if the name is bound at every one of them; what it does otherwise is given too |
| `StackMachine.InjectionPreservesMeaning` | `dapper/_frame_eval/modify_bytecode.py:403-497` | so where the name is always bound it reaches the outcome of the original list, with the original helper calls and one more at each site passed |
| `StackMachine.UnboundHelperEndsProgram` | `dapper/_frame_eval/modify_bytecode.py:440-455` | where nothing binds the name the first site passed ends the program, and the injection is faithful exactly when no site is passed |
| `StackMachine.OneReportPerSite` | `dapper/_frame_eval/modify_bytecode.py:412-433` | an injected list whose original reaches its end reports each site exactly once, in order |
| `Stripper.MatchBreakpointSequence` | `dapper/_frame_eval/modify_bytecode.py:566-615` | the matcher with its inner readers computes the length of the sequence at a position, 0 where there is none; the lemmas below say which calls that is |
| `Stripper.ShapeMatches` | `dapper/_frame_eval/modify_bytecode.py:573-615` | four real instructions of the right kinds with only CACHE entries between them match, in either order of the loads |
| `Stripper.MatchHasShape` | `dapper/_frame_eval/modify_bytecode.py:573-615` | and nothing else matches |
| `Stripper.OtherCallsStay` | `dapper/_frame_eval/modify_bytecode.py:315-342` | a list that never loads the global `_dapper_breakpoint` is stripped to itself, whatever it calls |
| `Stripper.CallsWithoutIntsStay` | `dapper/_frame_eval/modify_bytecode.py:607-613` | and so is a list that loads no int or bool constant |
| `Stripper.RemoveBreakpoints` | `dapper/_frame_eval/modify_bytecode.py:315-342` | the skipping loop computes the stripped list |
| `Stripper.NoStraddle` | `dapper/_frame_eval/modify_bytecode.py:566-615` | a match that starts on an original instruction never reaches into a check, even when a check splits an opcode from its CACHE entries |
| `Stripper.StripWoven` | `dapper/_frame_eval/modify_bytecode.py:315-342` | stripping inverts weaving for every list without a sequence of its own, whatever the sites |
| `Stripper.StripWovenIsStrip` | `dapper/_frame_eval/modify_bytecode.py:315-342` | for every list, also one injected before, stripping after weaving outside its sequences gives what stripping alone gives |
| `Wordcode.EncodeInstructions` | `dapper/_frame_eval/_code_object_builder.py:96-99` | the byte loop computes the encoding that the round trips are about |
| `Wordcode.EncodedAt` | `dapper/_frame_eval/_code_object_builder.py:96-99` | word i holds the opcode of instruction i and the low byte of its argument, or 0 |
| `Wordcode.WideArguments` | `dapper/_frame_eval/_code_object_builder.py:88-99` | each EXTENDED_ARG before an opcode puts one more byte in front of its argument, and none is carried past it |
| `Wordcode.DecodeEncodeIff` | `dapper/_frame_eval/_code_object_builder.py:88-99` | a list decodes back from its own bytes exactly when every instruction fits its two bytes, EXTENDED_ARG prefixes carried along, and every opcode is followed by exactly its cache entries |
| `Wordcode.EncodeDecode` | `dapper/_frame_eval/_code_object_builder.py:88-99` | the bytes of a real code object come back from decoding, as the interpreter reads them, and encoding |
| `Wordcode.ListThenEncodeIff` | `dapper/_frame_eval/_bytecode_instructions.py:59-70` | listing and encoding give the bytes back exactly when CACHE entries are listed or no opcode of the code has any, and exactly then the listing is what the interpreter reads |
| `RoundTrips.BytesMeaningIff` | `dapper/_frame_eval/_code_object_builder.py:74-99` | what the interpreter does with the injected bytes is what it did with the original ones, with one report at each site passed, exactly when the helper is bound there |
| `RoundTrips.BytesKeepMeaning` | `dapper/_frame_eval/_code_object_builder.py:74-99` | so where the helper is always bound the injected bytes reach the outcome of the original bytes |
| `RoundTrips.StripInvertsInject` | `dapper/_frame_eval/modify_bytecode.py:315-342` | list, inject, resolve, encode, list, strip, resolve, encode gives the original wordcode back and adds nothing more to the pools |
| `RoundTrips.RoundTripIff` | `dapper/_frame_eval/modify_bytecode.py:315-342` | other limits apart, that round trip gives the bytes back exactly when CACHE entries are listed or no opcode of the code has any, whatever the sites |
| `RoundTrips.StripAfterInjectIsStrip` | `dapper/_frame_eval/modify_bytecode.py:315-342` | the same through bytes: removing after another injection gives what removing gave before |
| `RoundTrips.CheckNeutralIff` | `dapper/_frame_eval/modify_bytecode.py:499-528` | the bytes of a check, as the interpreter reads them, are neutral exactly when the lookup gave its opcodes the cache entries that the interpreter skips |
| `InjectionLimits.ByteLimitIsExact` | `dapper/_frame_eval/_code_object_builder.py:99` | a check's loads denote the helper and the line after encoding exactly when their arguments are below 256 |
| `InjectionLimits.InjectedDecodesIff` | `dapper/_frame_eval/_code_object_builder.py:88-99` | the interpreter reads the injected bytes as the woven list exactly when the listing had every cache entry, no check separates an opcode from its own or cuts off a non-zero EXTENDED_ARG, checks bring theirs, and their indices fit a byte |
| `InjectionLimits.PrefixesKeptIff` | `dapper/_frame_eval/modify_bytecode.py:381-420` | checks keep clear of EXTENDED_ARG prefixes exactly when no breakpoint line begins, on a non-preferred instruction, right after one |
| `InlineCaches.WovenAligned` | `dapper/_frame_eval/modify_bytecode.py:412-433` | the woven list has every cache entry in its place exactly when the original has, no check separates an opcode from its own, and checks, if any, bring theirs |
| `InlineCaches.SplitsExactlyAtCachedFirstLoads` | `dapper/_frame_eval/modify_bytecode.py:394-399` | the breakpoint lines that do separate one are exactly those whose first instruction is a preferred opcode with inline caches |
| `CodeRebuild.EncodableIff` | `dapper/_frame_eval/modify_bytecode.py:166-221` | exactly which breakpoint lines a code object can take: all the conditions on its bytes, in terms of its lines, its interpreter and the pools |
| `CodeRebuild.MarksFit` | `dapper/_frame_eval/_bytecode_instructions.py:59-70` | one line mark for each instruction listed, none of their own for CACHE entries, also on a code object that was already injected |
| `CodeRebuild.MarksAreTheTable` | `dapper/_frame_eval/_bytecode_instructions.py:59-70` | where CACHE entries are listed, an instruction has the mark of its word in the line table and a CACHE entry none |
| `CodeRebuild.AcceptsIff` | `dapper/_frame_eval/bytecode_safety.py:69-147` | the validator accepts exactly the code of even length with known opcodes at even offsets and a stack grown by 0 to 16 |
| `CodeRebuild.InjectionIsAccepted` | `dapper/_frame_eval/bytecode_safety.py:69-147` | the validator accepts an injection exactly when the original code is plausible itself |
| `CodeRebuild.InjectBreakpoints` | `dapper/_frame_eval/modify_bytecode.py:184-221` | the whole pass: the code object itself without points, failure and the code object itself when rejected, the injected one otherwise |
| `CodeRebuild.RemoveBreakpointsFrom` | `dapper/_frame_eval/modify_bytecode.py:315-351` | the whole inverse pass, which keeps the code object when the rebuild is rejected |
| `CodeRebuild.InjectThenRemove` | `dapper/_frame_eval/modify_bytecode.py:166-351` | injecting and removing gives the original bytes and line table back; the pools keep what was appended and the declared stack has grown twice |
| `LineTable.BuildLineTable` | `dapper/_frame_eval/_code_object_builder.py:144-173` | the nested loops terminate, for chunked byte deltas and line deltas out of range, with every emitted value a byte, and produce the table below |
| `LineTable.EmitReads` | `dapper/_frame_eval/_code_object_builder.py:150-171` | read as an lnotab, an entry advances the offset by its whole byte delta however it is cut into pairs, and the line by its delta cut to a signed byte |
| `LineTable.OnePair` | `dapper/_frame_eval/_code_object_builder.py:159-171` | a step that fits one pair is written as one pair, negative line steps in two's complement |
| `LineTable.UsedExactly` | `dapper/_frame_eval/_code_object_builder.py:148-149` | of rows in order, exactly those that start after the last byte and have a line reach the table, in order |
| `LineTable.TableReads` | `dapper/_frame_eval/_code_object_builder.py:148-173` | the lnotab sums over a prefix of the finished table are exactly the offset and line recorded after each used entry |
| `LineTable.OffsetsConserved` | `dapper/_frame_eval/_code_object_builder.py:148-173` | after every used entry the byte increments sum to its start offset, for any entries and lines |
| `LineTable.LnotabLinesIffStepsFit` | `dapper/_frame_eval/_code_object_builder.py:152-173` | read as an lnotab, which is how the loop writes it, the table gives the lines of the used entries exactly when every step between consecutive ones fits a signed byte |
| `LineTable.RangesAreShiftedIff` | `dapper/_frame_eval/_code_object_builder.py:141-175` | read as Python 3.10 reads it, range by range, it gives the used entries with every line moved to the range before, exactly when every step fits one pair |
| `LineTable.OneRangeEarly` | `dapper/_frame_eval/_code_object_builder.py:141-175` | so for ranges that all have lines and fit, each range but the last is shown with the line of the next one |
| `LineTable.RangesNeverComeBack` | `dapper/_frame_eval/_code_object_builder.py:141-175` | the ranges of `co_lines()` come back exactly when there are none |
| `LineTable.ThreeLinesComeBackEarly` | `dapper/_frame_eval/_code_object_builder.py:141-175` | the input that fails: three ranges on lines 10, 11 and 12 come back as two, on lines 11 and 12, though every step fits |
| `SparseTracer.AlwaysArmed` | `dapper/_frame_eval/monitoring_backend.py:243-396` | in every reachable state, stepping included: no current breakpoint location is disabled, PY_START is disabled only where an equal code object is registered, LINE is global exactly in STEP_IN, a registered code object of a file with breakpoints has LINE locally exactly when no STEP_OUT has muted it, and any other has it exactly when it got it on its own; in CONTINUE nothing registered is muted |
| `SparseTracer.BreakpointLineStops` | `dapper/_frame_eval/monitoring_backend.py:476-535` | for every code object, registered or not: a breakpoint line whose condition passes stops exactly when lines are observed globally or that code object is armed, and always in CONTINUE if it is registered |
| `SparseTracer.LineStopsIff` | `dapper/_frame_eval/monitoring_backend.py:476-535` | in every state, a line reached stops exactly when it is observed at a place not disabled and is a breakpoint whose condition passed or fell back, or any other line while stepping; it is disabled exactly when it is neither, and nothing else changes |
| `SparseTracer.LineCountsExactly` | `dapper/_frame_eval/monitoring_backend.py:490-535` | each line callback adds to exactly one counter: hits when it stops, disabled when it disables, skips otherwise |
| `SparseTracer.SteppingLineStops` | `dapper/_frame_eval/monitoring_backend.py:526-535` | while stepping, every line delivered that is not a breakpoint stops and goes on being delivered |
| `SparseTracer.StepInStops` | `dapper/_frame_eval/monitoring_backend.py:476-535` | over every run that ends in STEP_IN, every line reached at a place not disabled stops, unless a condition holds it back |
| `SparseTracer.StepInFiresIff` | `dapper/_frame_eval/monitoring_backend.py:332-365` | over every run that ends in STEP_IN, a line that is no breakpoint stops if and only if it was not reached in CONTINUE, as no breakpoint, since events were last restarted; the documentation promises every line |
| `SparseTracer.StepInMissesSeenLine` | `dapper/_frame_eval/monitoring_backend.py:332-365` | the input that fails: a line passed in CONTINUE beside a breakpoint does not stop in STEP_IN |
| `SparseTracer.ReturnEndsStep` | `dapper/_frame_eval/monitoring_backend.py:598-620` | over every run that ends in STEP_OVER or STEP_OUT, a return anywhere switches to STEP_IN with lines observed everywhere |
| `SparseTracer.ReturnKeepsMode` | `dapper/_frame_eval/monitoring_backend.py:598-620` | over every other run a return changes no mode, and in CONTINUE it is not delivered at all |
| `SparseTracer.SteppingCommands` | `dapper/_frame_eval/monitoring_backend.py:332-396` | the mode, the global events, the local events of every code object and the restart for each command name; any unknown name continues |
| `SparseTracer.ConditionsAfter` | `dapper/_frame_eval/monitoring_backend.py:243-308` | a condition goes when it is set to nothing or its file loses all its lines, and stays otherwise, also on lines no longer among the breakpoints |
| `SparseTracer.StepCodeAfter` | `dapper/_frame_eval/monitoring_backend.py:332-406` | the code stepped in is what was captured last, until CONTINUE or a return ends the step |
| `SparseTracer.RegistryIsFirst` | `dapper/_frame_eval/monitoring_backend.py:588-594` | over every run the registry holds, of all equal code objects of a file, exactly the one first entered |
| `SparseTracer.SparseRefinesNaiveIff` | `dapper/_frame_eval/monitoring_backend.py:476-596` | over every run in CONTINUE mode the `user_line` calls are, in order, those of a debugger that looks at every line of every code object entered, if and only if each line that one stops at is reached in a code object first entered of its equals or entered while its file had breakpoints |
| `SparseTracer.SparseRefinesNaive` | `dapper/_frame_eval/monitoring_backend.py:476-596` | so always when no two code objects entered from one file are equal |
| `SparseTracer.EqualCodeIsMissed` | `dapper/_frame_eval/monitoring_backend.py:310-326` | the input that fails: of two equal code objects, both entered before the breakpoint is set, the second does not stop |
| `SparseTracer.DisableIsOneTimeCost` | `dapper/_frame_eval/monitoring_backend.py:490-515` | disabling callbacks number at most (restarts + 1) times the locations reached, and line callbacks are hits, disabling ones and skipped conditions, over every run |
| `SparseTracer.DisablesFreshPlaces` | `dapper/_frame_eval/monitoring_backend.py:497-499` | a callback that disables adds exactly the location reached, which was not disabled before |
| `MonitoringBackend.SysMonitoringBackend.Install` | `dapper/_frame_eval/monitoring_backend.py:101-191` | a freshly installed backend is the initial state of every run |
| `MonitoringBackend.SysMonitoringBackend.UpdateBreakpoints` | `dapper/_frame_eval/monitoring_backend.py:243-272` | one step of the state machine: lines replaced or removed with the file's conditions, local events applied, events restarted |
| `MonitoringBackend.SysMonitoringBackend.SetConditions` | `dapper/_frame_eval/monitoring_backend.py:296-308` | one step: an empty expression removes the condition |
| `MonitoringBackend.SysMonitoringBackend.ApplyLocalEvents` | `dapper/_frame_eval/monitoring_backend.py:310-326` | the loop sets the same local events on every code object in the registry for the file and on no other |
| `MonitoringBackend.SysMonitoringBackend.SetStepping` | `dapper/_frame_eval/monitoring_backend.py:332-396` | one step for each mode; CONTINUE restores LINE on every registered code object of every file with breakpoints |
| `MonitoringBackend.SysMonitoringBackend.CaptureStepContext` | `dapper/_frame_eval/monitoring_backend.py:398-406` | one step: only the step code changes |
| `MonitoringBackend.SysMonitoringBackend.UpdateFunctionBreakpoints` | `dapper/_frame_eval/monitoring_backend.py:457-470` | one step: CALL is added, or removed in CONTINUE mode only |
| `MonitoringBackend.SysMonitoringBackend.OnLine` | `dapper/_frame_eval/monitoring_backend.py:476-535` | the callback disables exactly on non-breakpoint lines in CONTINUE, skips on a failed condition without disabling, and calls `user_line` otherwise, in the terms of `SparseTracer.LineStopsIff` and `SparseTracer.SteppingLineStops` |
| `MonitoringBackend.SysMonitoringBackend.OnPyStart` | `dapper/_frame_eval/monitoring_backend.py:573-596` | the callback registers the code object unless an equal one is registered, sets LINE on it when its file has breakpoints, and always disables |
| `MonitoringBackend.SysMonitoringBackend.OnPyReturn` | `dapper/_frame_eval/monitoring_backend.py:598-620` | the callback disables in CONTINUE and turns STEP_OVER and STEP_OUT into STEP_IN |
| `MonitoringBackend.SysMonitoringBackend.Line` | `dapper/_frame_eval/monitoring_backend.py:476-535` | a line reached by the debuggee is one step: delivered when observed and not disabled, and disabled when the callback says so |
| `FuncCodeInfoCache.GetIsSound` | `dapper/_frame_eval/cache_manager.py:264-283` | over every run and any clock, `get` returns only the value last set, younger than the time to live, and not removed or cleared since |
| `FuncCodeInfoCache.GetSurvives` | `dapper/_frame_eval/cache_manager.py:285-370` | an unexpired value is returned unless at least `max_size` distinct other keys were set or hit since its key was, although cleanup leaves stale keys in the order |
| `FuncCodeInfoCache.SizeBounded` | `dapper/_frame_eval/cache_manager.py:352-370` | the recency order never exceeds `max_size` and holds every stored key |
| `FuncCodeInfoCache.CleanupCountExact` | `dapper/_frame_eval/cache_manager.py:444-468` | the count returned is the number of entries removed exactly when every expired timestamp still belongs to a stored entry |
| `FuncCodeInfoCache.CleanupDropsExpired` | `dapper/_frame_eval/cache_manager.py:444-468` | over every run, a cleanup drops exactly the records older than the time to live, and exactly the timestamps older than it, and leaves the order alone |
| `FuncCodeInfoCache.ReadDropsExpired` | `dapper/_frame_eval/cache_manager.py:264-283` | over every run, a read gives exactly the records younger than the time to live and drops any other, out of the order as well |
| `FuncCodeInfoCache.StampsAfter` | `dapper/_frame_eval/cache_manager.py:264-468` | over every run, only a set writes a timestamp, and only a cleanup that finds it expired or the removal of a stored key drops one |
| `FuncCodeInfoCache.FuncCodeInfoCache.Get` | `dapper/_frame_eval/cache_manager.py:264-405` | updates the three maps as the specification does: promotion on a hit, removal on expiry with the timestamp left behind |
| `FuncCodeInfoCache.FuncCodeInfoCache.Set` | `dapper/_frame_eval/cache_manager.py:285-350` | stores, stamps, moves to the recent end and evicts, or nothing while caching is off |
| `FuncCodeInfoCache.FuncCodeInfoCache.EvictIfNeeded` | `dapper/_frame_eval/cache_manager.py:352-370` | the loop removes oldest keys until the order is within bounds |
| `FuncCodeInfoCache.FuncCodeInfoCache.Remove` | `dapper/_frame_eval/cache_manager.py:407-432` | removes the key from all three maps when it is stored, and says whether it was |
| `FuncCodeInfoCache.FuncCodeInfoCache.Clear` | `dapper/_frame_eval/cache_manager.py:434-442` | empties records and order and leaves the timestamps |
| `FuncCodeInfoCache.FuncCodeInfoCache.CleanupExpired` | `dapper/_frame_eval/cache_manager.py:444-468` | removes exactly the expired keys from records and timestamps, not from the order, and counts the timestamps |
| `FuncCodeInfoCache.FuncCodeInfoCache.SetEnabled` | `dapper/_frame_eval/cache_manager.py:948-953` | switching off clears |
| `BreakpointCache.GetReturnsLastCall` | `dapper/_frame_eval/cache_manager.py:637-673` | over every run, caching switched off and on included, a read gives the lines of the latest call for the file or nothing, never anything older or empty |
| `BreakpointCache.GetSurvives` | `dapper/_frame_eval/cache_manager.py:637-729` | and it does give the lines last stored for a file that has not changed, unless at least `max_entries` other files were set or read since it was |
| `BreakpointCache.ServedIffUnchanged` | `dapper/_frame_eval/cache_manager.py:637-673` | a stored entry is served exactly when the file is missing, is a test file by one of three patterns in its name, or was not modified after the entry's time; otherwise the read drops it and no other |
| `BreakpointCache.ChangedFileIsNotServed` | `dapper/_frame_eval/cache_manager.py:637-729` | over every run, a file modified after the time it was last stored with is not served, unless it is a test file |
| `BreakpointCache.SetStores` | `dapper/_frame_eval/cache_manager.py:675-729` | over every run with caching on, a set leaves the lines with the modification time of the file, or the clock without one; nothing for no lines or no room |
| `BreakpointCache.EntriesAreLastCalls` | `dapper/_frame_eval/cache_manager.py:675-729` | every stored entry holds the lines of the latest call for its file |
| `BreakpointCache.SizeBounded` | `dapper/_frame_eval/cache_manager.py:692-729` | the number of entries never exceeds `max_entries`, 0 included, with one entry for each file |
| `BreakpointCache.EvictsLeastRecent` | `dapper/_frame_eval/cache_manager.py:692-729` | a set evicts another file only when the cache is full, and every file that stays was set or read later |
| `BreakpointCache.BreakpointCache.GetBreakpoints` | `dapper/_frame_eval/cache_manager.py:637-673` | the three maps keep one key set and stand for the recency list: moved to the end on a hit, dropped when the file changed |
| `BreakpointCache.BreakpointCache.SetBreakpoints` | `dapper/_frame_eval/cache_manager.py:675-729` | evicting before and after storing leaves the recency list with the new entry last, cut to its bound from the old end; an empty set only drops |
| `BreakpointCache.BreakpointCache.InvalidateFile` | `dapper/_frame_eval/cache_manager.py:731-734` | drops exactly the entry of the file |
| `BreakpointCache.BreakpointCache.RemoveEntry` | `dapper/_frame_eval/cache_manager.py:776-782` | the file leaves all three maps and the order of the others stays |
| `BreakpointCache.BreakpointCache.ClearAll` | `dapper/_frame_eval/cache_manager.py:736-741` | empties the three maps |
| `BreakpointCache.BreakpointCache.SetEnabled` | `dapper/_frame_eval/cache_manager.py:948-953` | switching off clears |
| `ModifiedCode.LookupIsLastStored` | `dapper/_frame_eval/_frame_evaluator.py:187-199` | over every run the two-tier lookup and the plain cache both give what was stored last under the key of the code object, until the file that stored it or the owner of the memo is invalidated or everything cleared |
| `ModifiedCode.StoredIsFound` | `dapper/_frame_eval/_frame_evaluator.py:170-199` | over every run, what was stored is found by every equal code object, with its breakpoint lines in the metadata, until an equal one is stored or injected or something is invalidated or cleared |
| `ModifiedCode.LookupIsOwnFileIff` | `dapper/_frame_eval/_frame_evaluator.py:187-199` | a lookup gives code of the file asked for exactly when what was stored last was built from a code object of that file |
| `ModifiedCode.OneFileServesItself` | `dapper/_frame_eval/_frame_evaluator.py:187-199` | so always when equal code objects in the run are of one file, and then the entry goes exactly when that file is invalidated |
| `ModifiedCode.RunAgrees` | `dapper/_frame_eval/cache_manager.py:130-176` | over every run the code cache and the path map have one key set, and the metadata is inside it and in accord with the cache |
| `ModifiedCode.MemoIsCachedIff` | `dapper/_frame_eval/cache_manager.py:877-888` | over every run the keys of the bytecode cache are inside those of the code cache exactly when every key whose memo has an owner is served |
| `ModifiedCode.OneFileMemoIsCached` | `dapper/_frame_eval/cache_manager.py:877-888` | so over every run in which equal code objects are of one file |
| `ModifiedCode.MemoOutlivesEntry` | `dapper/_frame_eval/cache_manager.py:877-888` | the input that fails: of two equal code objects of two files, invalidating the second leaves the memo of the first without its entry |
| `ModifiedCode.MemoStaysCachedIff` | `dapper/_frame_eval/cache_manager.py:877-888` | a single invalidation keeps the memo inside the cache exactly when no key goes whose memo is another file's |
| `ModifiedCode.InvalidateIsExactIff` | `dapper/_frame_eval/cache_manager.py:877-900` | over every run, invalidating a file takes away all that is kept for its code objects and leaves all that is kept for those of other files, if and only if no kept code object of the file equals one of another file |
| `ModifiedCode.SharedEntryIsLost` | `dapper/_frame_eval/cache_manager.py:130-139` | the input that fails: two equal code objects of two files share an entry, the second file's code is served for both, and invalidating it takes both |
| `ModifiedCode.InvalidatedAt` | `dapper/_frame_eval/cache_manager.py:877-888` | what the three removals do to one key, by the recorded path and the file of the memo key |
| `ModifiedCode.MemoIsBuilt` | `dapper/_frame_eval/modify_bytecode.py:178-208` | the memo holds exactly the code built first for a key and breakpoint set since it was dropped, under the file of the code object that came first |
| `ModifiedCode.InjectionServesFreshCode` | `dapper/_frame_eval/modify_bytecode.py:166-221` | a successful injection that changes the code returns code built for exactly the requested lines from an equal code object, and evaluation finds that code next |
| `ModifiedCode.NestedInjectionIsUnseen` | `dapper/_frame_eval/modify_bytecode.py:239-242` | when nested code was instrumented first, the frame's own lookup does not see the injection until the caller stores the result for it |
| `ModifiedCode.RemoveCachedAgreesIff` | `dapper/_frame_eval/cache_manager.py:155-162` | the public removal keeps the stores in agreement exactly when no metadata or memo is left behind |
| `ModifiedCode.ModifiedCodeStores.StoreModifiedCodeForEvaluation` | `dapper/_frame_eval/_frame_evaluator.py:170-184` | stores cache, path and metadata together |
| `ModifiedCode.ModifiedCodeStores.ApplyInjection` | `dapper/_frame_eval/modify_bytecode.py:166-221` | memo hit, no sites, rejected, raised and rebuilt, with success and code for each |
| `ModifiedCode.ModifiedCodeStores.InvalidateCachedCodeForFile` | `dapper/_frame_eval/cache_manager.py:164-176` | removes and returns exactly the codes recorded for the path |
| `ModifiedCode.ModifiedCodeStores.InvalidateBytecodeCacheForFile` | `dapper/_frame_eval/modify_bytecode.py:807-832` | removes exactly the memo entries of the file with their metadata and cached code |
| `ModifiedCode.ModifiedCodeStores.InvalidateBreakpoints` | `dapper/_frame_eval/cache_manager.py:877-888` | the three removals in sequence are one invalidation |
| `ModifiedCode.ModifiedCodeStores.ClearAllCaches` | `dapper/_frame_eval/cache_manager.py:915-928` | clears the metadata of cached codes first, then everything else |
| `ModifiedCode.ModifiedCodeStores.GetModifiedCodeForEvaluation` | `dapper/_frame_eval/_frame_evaluator.py:187-199` | metadata first, then the cache |
| `SelectiveTracer.MirrorAlwaysAgrees` | `dapper/_frame_eval/selective_tracer.py:674-738` | over every run with unchanged files and room for all files with breakpoints, the cached lookup of every file is the authoritative set, or nothing when that is empty |
| `SelectiveTracer.ClearEverythingKeepsMirrorOnlyIfEmpty` | `dapper/_frame_eval/selective_tracer.py:739-742` | clearing without a file keeps the mirror exactly when no file had breakpoints |
| `SelectiveTracer.DecisionReportsKnownLines` | `dapper/_frame_eval/selective_tracer.py:290-377` | a decision names lines exactly when it traces, only known breakpoint lines, only the current one on a breakpoint line, and others only while stepping |
| `SelectiveTracer.DecisionExactly` | `dapper/_frame_eval/selective_tracer.py:290-377` | the decision for every input: skipped for five reasons; on a breakpoint line that line alone, unless a frame is given in which its condition neither passes nor falls back; on another line of such a file exactly the breakpoints inside the code, and only for a step; else the original path for tracked files |
| `SelectiveTracer.TrackedIff` | `dapper/_frame_eval/selective_tracer.py:395-413` | a file is tracked exactly when its name ends in `.py` and none of the seven patterns occurs in it |
| `SelectiveTracer.FrameTraceManager.ShouldTraceCode` | `dapper/_frame_eval/selective_tracer.py:290-377` | while the mirror agrees: a location that is not skipped and whose line is in the authoritative set gives the breakpointed path with exactly that line if and only if it has no condition, or no frame is given, or the condition passed or fell back, and the original path otherwise; another line of a file with breakpoints is traced for a step only, with the breakpoints inside its code; the mirror still agrees |
| `SelectiveTracer.FrameTraceManager.UpdateFileBreakpoints` | `dapper/_frame_eval/selective_tracer.py:674-678` | authority and cache get the same set |
| `SelectiveTracer.FrameTraceManager.SetConditionalBreakpoints` | `dapper/_frame_eval/selective_tracer.py:680-710` | authority and cache get the lines of the specifications, and each line the condition of the last one for it; conditions of other lines of the file go, those of other files stay |
| `SelectiveTracer.FrameTraceManager.SetBreakpointConditions` | `dapper/_frame_eval/selective_tracer.py:488-502` | the conditions of a file are replaced by those asked for |
| `SelectiveTracer.FrameTraceManager.AddBreakpoint` | `dapper/_frame_eval/selective_tracer.py:721-725` | one line is added to the authority and the cache gets the result |
| `SelectiveTracer.FrameTraceManager.RemoveBreakpoint` | `dapper/_frame_eval/selective_tracer.py:727-731` | one line is removed, also from an unknown file |
| `SelectiveTracer.FrameTraceManager.ClearBreakpoints` | `dapper/_frame_eval/selective_tracer.py:733-742` | one file is emptied on both sides; without a file, or with an empty name, only the authority is |
| `LogTemplate.FormatRendersRead` | `dapper/core/debug_utils.py:54-72` | every template renders to its literals and evaluated expressions in order, where literal closing braces right after an expression have moved into it as placeholders |
| `LogTemplate.ReadAsWrittenIff` | `dapper/core/debug_utils.py:67-72` | the template is read as written exactly when no expression is directly followed by a literal closing brace |
| `LogTemplate.FormatRendersMeaning` | `dapper/core/debug_utils.py:54-72` | such a template renders to the literals concatenated with the evaluated expressions, "<error>" where evaluation fails |
| `LogTemplate.EscapedTextComesBack` | `dapper/core/debug_utils.py:63-72` | a text with its braces doubled formats to itself |
| `LogTemplate.StrayBracesStay` | `dapper/core/debug_utils.py:67-72` | a text without doubled braces and without an expression in braces comes out as it is, empty and stray braces included |
| `HitConditions.WrittenConditionReads` | `dapper/core/debug_utils.py:36-46` | an operator and a decimal number, spaced anywhere around either, read as intended |
| `HitConditions.NumberReads` | `dapper/core/debug_utils.py:47-48` | a plain number reads as equality with it |
| `HitConditions.WrittenConditionDecides` | `dapper/core/debug_utils.py:36-46` | what `%n`, `==n` and `>=n` decide about a count, in numbers; `%0` never passes |
| `HitConditions.UnreadableAlwaysPasses` | `dapper/core/debug_utils.py:36-51` | a condition passes whatever the count when, stripped, it is no operator, white space and digits, nor digits alone |
| `HitConditions.EveryCounts` | `dapper/core/debug_utils.py:37-40` | of the next n hits after h, `%k` passes (h + n) / k - h / k |
| `HitConditions.ExactlyCounts` | `dapper/core/debug_utils.py:41-43` | `==k` passes once if k is in reach and never otherwise |
| `HitConditions.AtLeastCounts` | `dapper/core/debug_utils.py:44-46` | `>=k` passes on a suffix of the hits, of known length |
| `BreakpointResolver.Resolve` | `dapper/core/breakpoint_resolver.py:123-213` | the outcome for the counted hit, and the count written back to the record with nothing else changed |
| `BreakpointResolver.ResolveRepeatedly` | `dapper/core/breakpoint_resolver.py:149-167` | over successive calls on one record the hit condition passes as often as the history says, and the record's count grows by the number of calls |
| `BreakpointResolver.StopsExactlyWhenAllPass` | `dapper/core/breakpoint_resolver.py:162-190` | it stops exactly when the hit condition and the condition are absent, empty or met, where a condition is met only in a given frame in which it tests true, and there is no log message; with one it outputs the rendered text, or the template itself without a frame; the hit condition is looked at first |
| `BreakpointResolver.HitConditionsCountCorrectly` | `dapper/core/breakpoint_resolver.py:162-167` | from count h, n calls pass a written `%k`, `==k`, plain `k` or `>=k` exactly as often as the language says |
| `BreakpointManager.BreakpointManager.RecordLineBreakpoint` | `dapper/core/breakpoint_manager.py:50-81` | the record's condition, hit condition and log message are the arguments, its count the override, or the old count, or 0, its extras the old with the new over them; both indices hold the same record, updated in place, and no other line changes |
| `BreakpointManager.ConfigurationIsLastRecorded` | `dapper/core/breakpoint_manager.py:50-139` | over every run, condition, hit condition, log message and extras of a line are those of its last recording, until it is recorded again or cleared, whatever else happens |
| `BreakpointManager.BreakpointManager.GetLineMeta` | `dapper/core/breakpoint_manager.py:83-104` | either index answers, and a record found only in one is put in the other; in a valid state nothing changes |
| `BreakpointManager.BreakpointManager.ClearLineMetaForFile` | `dapper/core/breakpoint_manager.py:106-121` | exactly the file's lines leave both indices, on both branches |
| `BreakpointManager.BreakpointManager.IncrementHitCount` | `dapper/core/breakpoint_manager.py:123-139` | the count grows by one as seen through both indices, and nothing else changes |
| `BreakpointManager.BreakpointManager.ResolveAt` | `dapper/core/breakpoint_resolver.py:149-160` | a hit resolved on the shared record stops exactly when the recorded hit condition and condition are absent, empty or met and there is no log message; only the count of that entry changes |
| `BreakpointManager.BreakpointManager.ClearAll` | `dapper/core/breakpoint_manager.py:234-240` | both indices are emptied |
| `BreakpointManager.HitCountsSurviveRerecording` | `dapper/core/breakpoint_manager.py:50-139` | over every run a line has a record exactly when recorded and not cleared since, and its count is the number of increments since it was created, however often it was recorded again |
| `DataBreakpoints.DataBreakpointState.RegisterWatches` | `dapper/core/data_breakpoint_state.py:81-115` | which names end up watched for writes and for reads, and that snapshots stay |
| `DataBreakpoints.DataBreakpointState.CheckForChanges` | `dapper/core/data_breakpoint_state.py:176-217` | the names returned, each once, are exactly the watched ones that refer to another object, now unequal, than the history of visits gives as baseline; it raises exactly when some such comparison has no truth value |
| `DataBreakpoints.DataBreakpointState.UpdateSnapshots` | `dapper/core/data_breakpoint_state.py:219-237` | the snapshots remain what the history of visits says |
| `DataBreakpoints.DataBreakpointState.VisitFrame` | `dapper/core/debugger_bdb.py:657-661` | check then update: a name is reported exactly when it is present and refers to another object than, and one now unequal to, that of this frame's previous visit if present there, else the latest in any frame; a check that raises leaves the snapshots alone |
| `DataBreakpoints.ReportIsRightIff` | `dapper/core/data_breakpoint_state.py:196-215` | the report is right about contents exactly when the baseline object was not mutated since it was seen, or the value now equals neither what it contained nor what it contains |
| `DataBreakpoints.MutationIsNotReported` | `dapper/core/data_breakpoint_state.py:209-215` | an object changed in place is never reported, although it changed exactly when it was mutated |
| `DataBreakpoints.DataBreakpointState.ClearValueSnapshots` | `dapper/core/data_breakpoint_state.py:132-137` | history starts anew and the watches stay |
| `DataBreakpoints.StableFrameIsQuiet` | `dapper/core/data_breakpoint_state.py:176-237` | visiting a frame again with the same locals reports nothing |
| `DataBreakpoints.OtherFramesDoNotInterfere` | `dapper/core/data_breakpoint_state.py:200-207` | visits to other frames do not move the baseline of a name present at this frame's previous visit |
| `DataBreakpoints.PreviousVisitDecides` | `dapper/core/data_breakpoint_state.py:196-217` | whatever visits to other frames come between, a name present at this frame's previous visit is reported exactly when it refers to another object, now unequal |
| `DataBreakpoints.NewNameUsesLatest` | `dapper/core/data_breakpoint_state.py:203-209` | a name absent from this frame's previous visit is compared with what it was at the latest visit to any frame |
| `DataBreakpoints.ClearedIsQuiet` | `dapper/core/data_breakpoint_state.py:132-137` | after the snapshots are cleared nothing is reported until it has been seen again |
| `DataBreakpoints.FirstSightIsQuiet` | `dapper/core/data_breakpoint_state.py:196-209` | a name never seen before in any frame is not reported |
| `IpcBinary.AcceptsExactlyPackedHeaders` | `dapper/ipc/ipc_binary.py:22-36` | `unpack_header` accepts exactly the headers that `pack_frame` makes, and reads off the kind and length of every frame with that header |
| `IpcBinary.PackedHeader` | `dapper/ipc/ipc_binary.py:10-36` | the header of a packed frame unpacks to its kind and length, and the rest is the payload |
| `IpcBinary.WireFormat` | `dapper/ipc/ipc_binary.py:4-16` | the bytes of a frame on the wire, and the two ways packing fails |
| `IpcBinary.HeaderOutcome` | `dapper/ipc/ipc_binary.py:22-36` | what every header is refused for, in order, or the kind and the big-endian length read off |
| `IpcBinary.ReadExact` | `dapper/ipc/ipc_binary.py:39-48` | whatever the chunks, exactly n bytes in order, or all that is left |
| `IpcBinary.ReadFrames` | `dapper/ipc/ipc_binary.py:10-48` | a concatenation of packed frames is read back as the same list under every chunking |
| `IpcBinary.ReceiveCommands` | `dapper/launcher/debug_launcher.py:165-200` | the receive loop handles exactly the commands before the first empty payload |
| `IpcBinary.EndsAtFirstEmpty` | `dapper/launcher/debug_launcher.py:188-190` | the frames looked at are those before the first empty payload |
| `IpcBinary.CommandsAreKindTwo` | `dapper/launcher/debug_launcher.py:191-193` | of these the ones of kind 2 are handled, each in its place |
| `IpcBinary.AllUpToEmptyIff` | `dapper/launcher/debug_launcher.py:189-191` | that is all of the stream exactly when no payload is empty |
| `Lifecycle.AtMostOneBody` | `dapper/adapter/lifecycle.py:169-197` | over every interleaving at the awaits, racing initialisations and termination included, with no recovery in flight, no two coroutines are inside an operation together |
| `Lifecycle.AlwaysExclusive` | `dapper/adapter/lifecycle.py:115-197` | at most one coroutine may move the manager to READY, none in UNINITIALIZED or READY, and none that is still initialising in BUSY |
| `Lifecycle.RecoveryIsSafeIff` | `dapper/adapter/lifecycle.py:225-231` | after every disciplined run that ends in ERROR, a recovery keeps at most one operation inside in all further disciplined runs if and only if no operation or initialisation is in flight |
| `Lifecycle.InFlightBreaks` | `dapper/adapter/lifecycle.py:169-231` | whatever phase the one in flight is in, some interleaving after the recovery has two operations inside |
| `Lifecycle.FailedInitialisationRecovers` | `dapper/adapter/external_backend.py:530-541` | an initialisation that marks the error and raises leaves nothing in flight, so recovering from it is disciplined and safe |
| `Lifecycle.RecoveryInFlightBreaksExclusion` | `dapper/adapter/lifecycle.py:225-231` | such a run from the start: an operation marked as failed while still inside, recovered, and joined by another |
| `Lifecycle.StepsFollowTable` | `dapper/adapter/lifecycle.py:47-76` | every step stays or follows the transition table, and nothing leaves TERMINATED |
| `Lifecycle.OperationFromReady` | `dapper/adapter/lifecycle.py:169-197` | an operation by itself enters from READY and leaves READY behind, or ERROR with its message when its body fails, "Unknown error" for an empty one |
| `Lifecycle.OperationElsewhere` | `dapper/adapter/lifecycle.py:180-189` | from UNINITIALIZED it initialises first; in BUSY it is refused on entering and in every other state before that, without a trace |
| `Lifecycle.GivingUp` | `dapper/adapter/lifecycle.py:189-197` | a coroutine that ends at an await moves nothing, but after a failed body the finally clause still releases a manager that is BUSY |
| `Lifecycle.CallsMove` | `dapper/adapter/lifecycle.py:207-231` | from which states each call from outside moves the manager and where to; in all others, and to the coroutines in flight, nothing happens |
| `Lifecycle.TerminatedIsFinal` | `dapper/adapter/lifecycle.py:75` | whatever happens after TERMINATED, state and error information stay |
| `Lifecycle.ErrorInfoExactlyInError` | `dapper/adapter/lifecycle.py:137-140` | over every interleaving, non-empty error information is present exactly in ERROR |
| `Lifecycle.LifecycleManager.TransitionTo` | `dapper/adapter/lifecycle.py:115-142` | succeeds exactly on fifteen pairs of states, then with the error text asked for, or "Unknown error", in ERROR and none elsewhere, and otherwise changes nothing |
| `Lifecycle.LifecycleManager.Cleanup` | `dapper/adapter/lifecycle.py:153-167` | calls every registered callback once, in order, and forgets them |
| `Lifecycle.LifecycleManager.CompleteTermination` | `dapper/adapter/lifecycle.py:220-223` | the callbacks are called even when the final transition is refused, which is so except in UNINITIALIZED and TERMINATING |
| `Lifecycle.LifecycleManager.Recover` | `dapper/adapter/lifecycle.py:225-231` | succeeds exactly in ERROR |
| `ThreadTracker.ThreadTracker.BuildStackFrames` | `dapper/core/thread_tracker.py:169-228` | terminates on cyclic chains; reports the longest walk of distinct readable frames within the depth limit, with fresh consecutive ids registered to those frames and earlier registrations untouched |
| `ThreadTracker.ThreadTracker.ClearFrames` | `dapper/core/thread_tracker.py:152-159` | forgets frames and stacks and reuses no id |
| `ThreadTracker.CompleteWalkIsUnique` | `dapper/core/thread_tracker.py:191-226` | the walk reported for a chain within the limit is determined by the chain |

## Left out

Bytecode:

- Jumps, exception tables and the position table are not adjusted by the injector, so meaning is stated for lists without jumps.
- StackMachine.InjectionMeaningIff: a program that binds `_dapper_breakpoint` to something of its own is left out, and the helper returns None without touching the program; other instructions are uninterpreted functions of the stack and the rest of the program.
- StackMachine.OneReportPerSite: counts one report for each site, not for each line, because two lines can claim one index and index 0 is never used; `Injector.LineIsCheckedUnlessStarved` says which lines those are.
- CodeRebuild.InjectionIsAccepted: that a stack growth of 2 suffices at run time is not stated; `dis` raising on an opcode stream that looks plausible is not modelled.
- CodeRebuild.InjectBreakpoints: nested code objects are injected by the same steps and the constants that hold them are not modelled; the memo in front of the injection is in `ModifiedCode`.
- Bytecode.CodePools.FindOrAppendConstant: constants that Python compares equal but tells apart (0.0 and -0.0) or apart but alike (NaN) are abstract identities here.
- Wordcode.DecodeEncodeIff: the wrap of an argument built from more than three EXTENDED_ARG words is not modelled.
- `_optimize_instructions`, `create_breakpoint_wrapper_code` and `insert_code` are not part of this model.
- LineTable.BuildLineTable: models the fallback constructor path only; `co_lines()` is an input.
- LineTable.RangesAreShiftedIff: 3.10 is the only version that reads the table, and reading on after an empty last pair is left out.

Monitoring:

- SparseTracer.SparseRefinesNaive: covers runs whose only stepping command is CONTINUE; what stepping keeps is `SparseTracer.AlwaysArmed`.
- SparseTracer.BreakpointLineStops: says nothing about lines that are not breakpoints; `SparseTracer.LineStopsIff` and `SparseTracer.StepInFiresIff` do.
- SparseTracer.StepInStops: covers STEP_IN; whether STEP_OVER stops in the frame it started from is left out, since any return switches to STEP_IN (`SparseTracer.ReturnEndsStep`).
- MonitoringBackend.SysMonitoringBackend.SetStepping: the mode string is taken after upper-casing, and monitoring calls that raise are left out.
- Function breakpoints and read watches themselves, shutdown and reinstallation, thread races inside a callback, and the counters of the CALL and INSTRUCTION callbacks are left out.

Caches:

- FuncCodeInfoCache.GetSurvives: keys are taken to be alive; collection of weakly held code objects, and statistics, are left out, and the clock is an input.
- BreakpointCache.GetReturnsLastCall: whether a file exists and its modification time are inputs; the retry after a failing `stat` is left out.
- ModifiedCode.InjectionServesFreshCode: how nested code objects are replaced inside the constants is left out; `ModifiedCode.NestedInjectionIsUnseen` says what it does to lookups.
- ModifiedCode.MemoIsBuilt: the memo is keyed by the breakpoint set itself, where the code uses a hash of its sorted lines; a raised exception leaves the stores as they were.
- SelectiveTracer.MirrorAlwaysAgrees: leaves out `update_all_breakpoints`, `invalidate_file_cache` and `clear_breakpoints()`, which do not keep the two sides in step, and caching switched off; `set_conditional_breakpoints` is the request `UpdateFile` to both sides.
- SelectiveTracer.DecisionReportsKnownLines: the reason texts and counters of a decision are left out, and the last line of a function is an input.

Core:

- LogTemplate.FormatRendersRead: evaluation and `str()` are an arbitrary partial function whose results, like the literals, contain neither of the two placeholder characters.
- HitConditions.WrittenConditionReads: decimal digits and spaces are those of ASCII, and Python's limit on the length of an integer text is left out.
- BreakpointResolver.Resolve: values of `hit` that are not integers are left out, and emitting the output is the caller's.
- BreakpointResolver.ResolveRepeatedly: starts from a count of 0 or more, because a stored count that reaches 0 reads as absent.
- BreakpointManager.BreakpointManager.RecordLineBreakpoint: extra keywords that override the condition, hit condition or log message, or set `hit_count`, are left out; one that overrides the count is not.
- DataBreakpoints.DataBreakpointState.CheckForChanges: comparison is arbitrary, unequal where it raises TypeError or ValueError; other exceptions from comparing, expression watches and the texts of access types are left out.
- IpcBinary.ReceiveCommands: frames are well formed; a malformed header, which the loop reports and skips, a connection error, and a session that ends meanwhile are left out.
- Lifecycle.InFlightBreaks: steps of a coroutine that an uncontended lock never separates are separate here, so for phases other than Inside and Starting the interleavings need other coroutines waiting for the lock.
- Lifecycle.AtMostOneBody: `mark_ready` is called only by the coroutine that initialised; `Lifecycle.RecoveryIsSafeIff` covers recoveries in flight; cleanup callbacks do not register callbacks.
- ThreadTracker.ThreadTracker.BuildStackFrames: reading `f_back` does not raise, and names and paths are one text.
- Custom and function breakpoints, adapters, transports, hot reload and configuration would add only simple members.
