# Index builds and runtime server parameters, modelled in Dafny

This project models two decision cores of a MongoDB-derived server.

**`IndexBuilder`** builds one index on behalf of replication. A foreground build runs under the caller's locks. A background build runs on its own thread, and its steps are:
- it holds the database lock in X mode;
- once `init` has succeeded, or failed with an error the build ignores, it signals a single-slot start handshake;
- it drops the lock to IX for the collection scan, then goes back to X for the commit;
- after committing, it checks that the database and the collection still resolve.

Failures are classified by `_failIndexBuild`:
- some are returned;
- an interruption at shutdown abandons the build as if the process had been killed;
- the rest are fatal (`invariant` or `fassert`).

Writes to the catalog that no oplog entry timestamps get a "ghost" commit timestamp from the cluster time. Setting it is retried while the storage engine answers BadValue.

**The `getParameter` and `setParameter` commands** work over the registry of server parameters, a `std::map` from name to parameter. Several parameters are defined alongside the commands, each with a `set` and a `setFromString` validator: `logLevel`, `logComponentVerbosity`, `readOnly`, `automationServiceDescriptor`, `isImplicitCreateCol`, `maxIncomingConnections`, `allowCommands` and `maxInternalIncomingConnections`.

`setParameter` runs in two passes:
1. It checks every argument: the name must be registered, changeable at runtime and given only once.
2. It sets the accepted ones in key order. It stops at the first failure and rolls nothing back.

## Modelling choices

Everything is a pure function over immutable data.

- **Registry.** The `std::map` registry, and the `parametersToSet` map it builds, are strictly sorted association lists (`SortedMap`). They are ordered by the byte-wise string order (`StringOrder.Less`), so iterating the map means walking the sequence.
- **Parameters.** The commands (`ParameterCommands`) are generic in the server state. A parameter's `set` is an `apply` function and its `append` is a `show` function. `ParameterSettings` supplies the concrete parameters of this file (`SetByName`, `ShowByName`, `FileRegistry`).
- **Oracles.** Everything the cores call but do not decide is an input, chosen in advance:
  - the indexer's `init` attempts and scan result;
  - the replication context;
  - the answers of `setTimestamp` and of the interrupt checks;
  - the catalog lookups after the commit;
  - the service entry point's answer to a connection limit;
  - the parse of a number or of a verbosity document;
  - the set of generic command arguments;
  - the set of disabled commands.
- **Unfinished runs.** A retry loop that is still retrying when the oracle runs out of answers ends as `Pending` (or `TimestampPending`, `None`, `Blocked`).
- **Traces.** A build returns a trace of its events, each recorded with the database lock mode held at that moment. The lock properties are stated over this trace.
- **Integers.** Integers in elements are `Int32`. The model stores connection limits only after checking that they are non-negative, so no conversion can wrap around.

Behaviour the code has that the model keeps:
- **`found` is never set.** It stays false in `setParameter`, so "no option found to set" depends on the count of parameters set alone.
- **The `*` rule.** `getParameter` selects everything when the first character of the first field's string value is `*`, so `"*x"` also selects everything.
- **Empty tokens.** `allowCommands` splits on each ',' and each ' ' separately (no token compression), so empty tokens are kept.
- **Descriptor "was" field.** If the first parameter set is an empty `automationServiceDescriptor`, the reply gets no "was" field.

## Model

| member | source | states |
|---|---|---|
| GhostTimestamp.RequiresGhostCommitTimestamp | src/mongo/db/index_builder.cpp:62-90 | a ghost timestamp is required iff the namespace is replicated, its collection does not start with "tmp.mr.", replica sets are in use, no commit timestamp is set, and the member state is neither STARTUP nor STARTUP2 |
| GhostTimestamp.MapReduceOutputNotTimestamped | src/mongo/db/index_builder.cpp:63-65 | every collection named "tmp.mr." followed by anything is exempt, whatever the rest of the context |
| GhostTimestamp.NearMissPrefixTimestamped | src/mongo/db/index_builder.cpp:63-65 | the test is a prefix test: "tmp.mr" (no final dot) on a primary is timestamped |
| GhostTimestamp.TimestampLoop | src/mongo/db/index_builder.cpp:249-265 | defines the `while (!tryTimestamp()) checkForInterrupt();` loop over the storage engine's answers and the interrupt checks. It has no contract of its own; TimestampLoopSpec and TimestampLoopDecides state what it decides |
| GhostTimestamp.TimestampLoopSpec | src/mongo/db/index_builder.cpp:249-265 | the loop stamps after n attempts exactly when the first n-1 answers were BadValue, each followed by a passing interrupt check, and the n-th answer is OK. It is fatal at the first answer that is neither OK nor BadValue. It is interrupted by the first interrupt check that throws after a BadValue. It is still pending only if every answer so far was BadValue with a passing check, or the last answer was BadValue and its check has not been answered yet |
| GhostTimestamp.TimestampLoopDecides | src/mongo/db/index_builder.cpp:249-265 | the converse: after k retries, an OK k-th answer stamps after k+1 attempts; any other non-BadValue answer is fatal with that status; a BadValue whose check throws is interrupted with the thrown status; a BadValue whose check is not yet answered is pending |
| GhostTimestamp.TimestampLoopExamples | src/mongo/db/index_builder.cpp:249-265 | OK at once stamps in one attempt; BadValue then OK stamps in two; a throwing check after BadValue interrupts; any other error is fatal at once |
| GhostTimestamp.TryTimestampUntilSet | src/mongo/db/index_builder.cpp:263-265 | the `while (!tryTimestamp())` loop computes the same outcome as the recursive definition |
| BgIndexStarting.Play | src/mongo/db/index_builder.cpp:95-159 | defines a sequence of signal and wait critical sections on the one flag: a signal on a raised flag trips the invariant, and a wait on a lowered flag blocks. No contract of its own; RoundsKeepFlagDown, DoubleSignalCrashes and WaitBeforeSignalBlocks state its behaviour |
| BgIndexStarting.SetBgIndexStarting | src/mongo/db/index_builder.cpp:99-104 | signalling succeeds iff the flag is down, and it leaves the flag up |
| BgIndexStarting.ConsumeBgIndexStarting | src/mongo/db/index_builder.cpp:152-159 | one look returns iff the flag is up, and then it leaves the flag down |
| BgIndexStarting.WaitForBgIndexStarting | src/mongo/db/index_builder.cpp:152-159 | the wait returns iff some look finds the flag up; it returns at the first such look and always leaves the flag down |
| BgIndexStarting.RoundsKeepFlagDown | src/mongo/db/index_builder.cpp:95-104 | any number of signal-then-wait rounds from the initial state never trips the invariant and ends with the flag down |
| BgIndexStarting.DoubleSignalCrashes | src/mongo/db/index_builder.cpp:99-104 | a second signal before a wait trips the invariant |
| BgIndexStarting.WaitBeforeSignalBlocks | src/mongo/db/index_builder.cpp:152-159 | a wait with no signal before it does not return |
| IndexBuilder.Build | src/mongo/db/index_builder.cpp:184-223 | defines `_build` up to the decision on `init`: a missing collection fails fassert 40409; `init` is retried while it throws a write conflict; a thrown error is returned as the catch clause does. No contract of its own; the IndexBuilder lemmas below state its outcomes and traces |
| IndexBuilder.AfterInit | src/mongo/db/index_builder.cpp:212-242 | defines what follows `init`: ignored errors, failures routed to `_failIndexBuild`, and in the background the signal and the relock to IX before the scan. No contract of its own; IgnoredInitSkipsScan, InitFailureRouted and BackgroundLockOrder state it |
| IndexBuilder.Scan | src/mongo/db/index_builder.cpp:231-242 | defines the collection scan and its failure routing, then the relock to X in the background. No contract of its own; ScanFailureRouted and BackgroundLockOrder state it |
| IndexBuilder.Commit | src/mongo/db/index_builder.cpp:243-268 | defines the commit unit of work: the indexer commits, the ghost timestamp loop runs when it is required, and fassert 50701 or an interruption ends it early. No contract of its own; CommitOutcome, SuccessfulBuildCommits, FatalTimestampAnswerIsFassert and GhostTimestampBeforeCommit state it |
| IndexBuilder.Finish | src/mongo/db/index_builder.cpp:267-277 | defines `wunit.commit()` and, in the background, the relock to X and the catalog re-check. No contract of its own; FinishChecksCatalog states it |
| IndexBuilder.BuildInForeground | src/mongo/db/index_builder.cpp:148-150 | defines `buildInForeground` as `_build` with no background building and no lock of its own. No contract of its own; ForegroundIsQuiet states it |
| IndexBuilder.Run | src/mongo/db/index_builder.cpp:120-146 | the background thread's trace starts with the database lock taken in X, and an error it ends with is always an interruption, because any other error becomes fassert 28555 |
| IndexBuilder.WriteConflictRetry | src/mongo/db/index_builder.cpp:207-209 | the init status is the first attempt that did not throw a write conflict; it is still retrying iff every attempt so far conflicted |
| IndexBuilder.FailIndexBuild | src/mongo/db/index_builder.cpp:165-181 | it crashes iff the status is WriteConflict, or InterruptedAtShutdown in the foreground, or any other status in the background (fassert 50769); otherwise it returns the status unchanged, and it abandons the build without cleanup iff the build is in the background and the status is InterruptedAtShutdown |
| IndexBuilder.IgnoredInitSkipsScan | src/mongo/db/index_builder.cpp:212-220 | IndexAlreadyExists, or IndexOptionsConflict with relaxed constraints, returns OK with no scan and no commit; in the background it signals first, and it crashes if the flag is already up |
| IndexBuilder.InitFailureRouted | src/mongo/db/index_builder.cpp:221-223 | any other failed init gets exactly `_failIndexBuild`'s outcome, with no scan and no signal, and the flag is untouched |
| IndexBuilder.ScanFailureRouted | src/mongo/db/index_builder.cpp:225-238 | a scan that returns an error gets `_failIndexBuild`'s outcome, with no commit; in the background the handshake has already been signalled |
| IndexBuilder.ForegroundIsQuiet | src/mongo/db/index_builder.cpp:148-150 | a foreground build never signals, never relocks, runs every step under the caller's mode and leaves the flag as it was |
| IndexBuilder.BackgroundLockOrder | src/mongo/db/index_builder.cpp:225-242 | a background run locks X first; the scan runs under IX, right after the signal and the relock to IX; every commit-phase step runs under X. After the first lock, no step locks again, and each step runs in the mode of the last relock before it, or in X if there was none |
| IndexBuilder.BackgroundRelocksBeforeCommit | src/mongo/db/index_builder.cpp:225-242 | between the scan and any later commit-phase step, a background run relocks to X |
| IndexBuilder.BackgroundErrorsAreInterruptions | src/mongo/db/index_builder.cpp:184-280 | an error returned by a background build is an interruption, or a status thrown by the `init` attempt that `writeConflictRetry` settled on or by the scan that followed a successful `init` |
| IndexBuilder.CommitOutcome | src/mongo/db/index_builder.cpp:243-268 | the commit phase always commits the indexer. With no timestamp required, or the timestamp set, it commits the unit of work and ends as `Finish` does. A fatal `setTimestamp` answer is fassert 50701 and an interrupted retry returns the interruption, both with no unit commit. A retry still in progress is pending |
| IndexBuilder.ReachesCommit | src/mongo/db/index_builder.cpp:205-268 | once `init` and the scan succeed, `_build` ends exactly as its commit phase does, and it commits the unit of work iff the commit phase does |
| IndexBuilder.SuccessfulBuildCommits | src/mongo/db/index_builder.cpp:205-277 | a build whose `init` and scan succeed, with no timestamp required or the timestamp set, commits the indexer and the unit of work and ends as `Finish` does: OK in the foreground, and in the background OK iff the database and the collection still resolve |
| IndexBuilder.FatalTimestampAnswerIsFassert | src/mongo/db/index_builder.cpp:249-268 | with `init` and the scan successful and a timestamp required, a `setTimestamp` answer that is neither OK nor BadValue fails fassert 50701 after the indexer commits and before the unit of work commits, in `_build` and in `run` |
| IndexBuilder.CommitBackgroundStatus | src/mongo/db/index_builder.cpp:243-268 | the only error a background commit phase returns is the interruption thrown by the interrupt check; CommitOutcome states its other outcomes (commit and `Finish`, fassert 50701, pending) |
| IndexBuilder.RunFatalOnlyOnThrownErrors | src/mongo/db/index_builder.cpp:141-145 | `run` fails fassert 28555 only when an indexer call that ran (the settled `init` attempt, or the scan after a successful `init`) threw a non-interruption status; conversely, every build that ends with an error that is not an interruption makes `run` fail fassert 28555 |
| IndexBuilder.ThrownScanErrorIsFatal | src/mongo/db/index_builder.cpp:141-145 | a scan that throws BadValue in the background makes `run` fail fassert 28555 |
| IndexBuilder.GhostTimestampBeforeCommit | src/mongo/db/index_builder.cpp:243-268 | when the ghost-timestamp gate holds, the unit of work commits only right after the timestamp was set; when it does not hold, no timestamp is set |
| IndexBuilder.FinishChecksCatalog | src/mongo/db/index_builder.cpp:270-275 | after a background commit the build returns iff both the database and the collection resolve; otherwise fassert 28553, then 28554 |
| IndexBuilder.BackgroundRechecksCatalog | src/mongo/db/index_builder.cpp:270-275 | a background run that committed returns OK iff the database and the collection still resolve, and fails 28553 or 28554 otherwise |
| IndexBuilder.SignalReleasesWaiter | src/mongo/db/index_builder.cpp:215-229 | a background run that signalled leaves the flag up, so the spawning thread's wait returns and lowers it |
| IndexBuilder.ShutdownDuringInitStrandsWaiter | src/mongo/db/index_builder.cpp:168-173 | an init interrupted at shutdown in the background abandons the build, returns the status, never signals, and leaves a waiter blocked |
| SortedMap.Insert | src/mongo/db/commands/parameters.cpp:200 | defines `parametersToSet[name] = value` for a key not yet present, as an insertion into the sorted list. No contract of its own; InsertContents and InsertSorted state it |
| SortedMap.Find | src/mongo/db/commands/parameters.cpp:174 | the lookup finds a key iff the key is in the map, and returns a value stored under it |
| SortedMap.InsertContents | src/mongo/db/commands/parameters.cpp:200 | inserting a new key adds exactly that key with its value, and changes no other key |
| SortedMap.InsertSorted | src/mongo/db/commands/parameters.cpp:164 | insertion keeps the map in strictly increasing key order |
| StringOrder.LessTotal | src/mongo/db/commands/parameters.cpp:164 | the key order is total on distinct strings |
| StringOrder.LessIrreflexive | src/mongo/db/commands/parameters.cpp:164 | no key is ordered before itself |
| StringOrder.LessTransitive | src/mongo/db/commands/parameters.cpp:164 | the key order is transitive |
| ParameterCommands.ValidateFrom | src/mongo/db/commands/parameters.cpp:168-201 | defines the first pass from argument i on, with the map built so far. No contract of its own; ValidateFromSpec states it |
| ParameterCommands.Validate | src/mongo/db/commands/parameters.cpp:157-201 | defines the whole first pass over the arguments that follow the command name, starting from an empty map. No contract of its own; ValidateSpec states it |
| ParameterCommands.ApplyFrom | src/mongo/db/commands/parameters.cpp:203-232 | defines the second pass over the accepted entries in key order, ending with the "no option found to set" test on the count of parameters set. No contract of its own; ApplyFromSpec states it |
| ParameterCommands.SetParameter | src/mongo/db/commands/parameters.cpp:145-235 | defines `setParameter`: it skips the command name, runs the first pass, and runs the second pass only if the first accepted every argument. No contract of its own; SetParameterSpec states it |
| ParameterCommands.Gather | src/mongo/db/commands/parameters.cpp:104-109 | defines the walk over the registry that appends each selected parameter. No contract of its own; GatherContents and GatherOrder state it |
| ParameterCommands.ValidateFromSpec | src/mongo/db/commands/parameters.cpp:168-201 | the first pass reports the first offending argument (unrecognized, not changeable at runtime, or given twice), skipping generic arguments; otherwise it succeeds with a sorted map of exactly the non-generic arguments and their values |
| ParameterCommands.ValidateSpec | src/mongo/db/commands/parameters.cpp:168-201 | the same for the whole argument list |
| ParameterCommands.ApplyFromSpec | src/mongo/db/commands/parameters.cpp:206-232 | the second pass never reports a validation error. It answers OK iff every set succeeds, and then the state is the replay of all sets and "was" is the first key's old value. If the k-th set fails, the first k stay applied and the state is the one the failing setter left |
| ParameterCommands.ApplyTwoStops | src/mongo/db/commands/parameters.cpp:203-227 | with two accepted parameters, when the first set succeeds and the second fails, the command fails with the second one's status and keeps the first one's effect |
| ParameterCommands.SetParameterSpec | src/mongo/db/commands/parameters.cpp:145-235 | a validation error reports the first offence and changes nothing. "No option found to set" is returned iff nothing offends and no non-generic argument is given. Otherwise the parameters are set in key order, the reply is OK iff all succeed, and nothing is rolled back |
| ParameterCommands.GetParameter | src/mongo/db/commands/parameters.cpp:95-116 | the reply fails iff no selected registered parameter appends a value. Otherwise it holds exactly the selected parameters that show a value, with those values, in key order. "Selected" means '*' as the first character of the first field's string, or named in the command |
| ParameterCommands.GatherContents | src/mongo/db/commands/parameters.cpp:104-109 | a field is appended iff its name is registered and selected, and the parameter shows that value |
| ParameterCommands.GatherOrder | src/mongo/db/commands/parameters.cpp:104-109 | appended names are registered, and they come in registry order |
| LogSettings.SeverityOf | src/mongo/db/commands/parameters.cpp:259-260 | level 0 maps to Log() and n > 0 maps to Debug(n); in both cases the severity's integer is the level |
| LogSettings.NonNegative | src/mongo/db/commands/parameters.cpp:255 | a value is accepted iff it coerces to an int that is >= 0 |
| LogSettings.SetLogLevel | src/mongo/db/commands/parameters.cpp:253-263 | `logLevel` accepts iff the value is an int >= 0. An error is BadValue and changes nothing. On success the default level is the value, Log() iff it is 0, and no other component changes |
| LogSettings.SetLogLevelFromString | src/mongo/db/commands/parameters.cpp:265-277 | a parse error is returned as is; a negative number is BadValue and changes nothing; anything else has the same effect as `set` |
| LogSettings.ApplySettings | src/mongo/db/commands/parameters.cpp:395-409 | defines the loop that applies the parsed settings in order. No contract of its own; LastSettingWins states it |
| LogSettings.LastSettingWins | src/mongo/db/commands/parameters.cpp:395-409 | after the settings are applied in order, the last setting naming a component decides it: a negative level clears it, and n >= 0 gives it level n. A component that no setting names is unchanged |
| LogSettings.SetComponentVerbosity | src/mongo/db/commands/parameters.cpp:298-306 | an element for which `isABSONObj()` fails is TypeMismatch, and a parse error is returned as is, both with no change; it succeeds iff an object or array parses, and then applies the settings in order |
| LogSettings.SetComponentVerbosityFromString | src/mongo/db/commands/parameters.cpp:308-314 | a parse error of the text or of the document is returned as is; otherwise it has the same effect as `set` of an object |
| ParameterSettings.FileRegistry | src/mongo/db/commands/parameters.cpp:245-694 | defines the registry entries of the eight parameters of this file, all changeable at runtime, in key order. No contract of its own; NoRollbackExample and EmptyDescriptorGetFails use it |
| ParameterSettings.SetByName | src/mongo/db/commands/parameters.cpp:253-693 | defines `set` dispatched by parameter name. No contract of its own; the Set* members and SetByNameKeepsOnError state it |
| ParameterSettings.ShowByName | src/mongo/db/commands/parameters.cpp:249-651 | defines `append` dispatched by parameter name. No contract of its own; the round-trip lemmas state it |
| ParameterSettings.ParseBool | src/mongo/db/commands/parameters.cpp:451-464 | only "true" and "false" parse, to true and false |
| ParameterSettings.ParseBoolText | src/mongo/db/commands/parameters.cpp:451-464 | the text of a boolean parses back to it |
| ParameterSettings.SetReadOnly | src/mongo/db/commands/parameters.cpp:442-449 | `readOnly` accepts iff the element is a Bool, and then stores it; anything else is BadValue with no change; no other global changes |
| ParameterSettings.SetReadOnlyFromString | src/mongo/db/commands/parameters.cpp:451-464 | accepts iff the string is exactly "true" or "false"; otherwise BadValue with no change; no other global changes |
| ParameterSettings.SetImplicitCreateCol | src/mongo/db/commands/parameters.cpp:529-537 | the same Bool-only rule for `isImplicitCreateCol` |
| ParameterSettings.SetImplicitCreateColFromString | src/mongo/db/commands/parameters.cpp:539-552 | the same "true"/"false" rule for `isImplicitCreateCol` |
| ParameterSettings.SetDescriptorFromString | src/mongo/db/commands/parameters.cpp:498-512 | accepts iff the string is at most 64 bytes, and then stores it; otherwise Overflow with no change |
| ParameterSettings.SetDescriptor | src/mongo/db/commands/parameters.cpp:490-496 | a non-string is TypeMismatch with no change; a string is handled as `setFromString` |
| ParameterSettings.DescriptorRoundTrip | src/mongo/db/commands/parameters.cpp:482-488 | a stored descriptor is appended back, except that an empty one appends nothing |
| ParameterSettings.SetMaxConns | src/mongo/db/commands/parameters.cpp:564-583 | accepts iff the value is an int >= 0 and the entry point accepts it. A bad value is BadValue, and a refusal is the entry point's status, both with no change. Only the limit changes |
| ParameterSettings.SetMaxConnsFromString | src/mongo/db/commands/parameters.cpp:586-605 | a parse error is returned as is; a number is handled as `set` of that number |
| ParameterSettings.SetMaxInternalConns | src/mongo/db/commands/parameters.cpp:653-671 | the same rule for the internal connection limit |
| ParameterSettings.SetMaxInternalConnsFromString | src/mongo/db/commands/parameters.cpp:673-693 | a parse error is returned as is; a number is handled as `set` of that number |
| ParameterSettings.SetAllowCommandsFromString | src/mongo/db/commands/parameters.cpp:628-641 | accepts iff every token of the split is a disabled command, and then stores the tokens; otherwise BadValue with no change |
| ParameterSettings.SetAllowCommands | src/mongo/db/commands/parameters.cpp:616-626 | a non-string element is BadValue with no change; a string is handled as `setFromString` |
| ParameterSettings.CommaSpaceKeepsEmptyToken | src/mongo/db/commands/parameters.cpp:631 | "a, b" splits into a, the empty token and b, so it is refused unless the empty name is a disabled command |
| ParameterSettings.AllowCommandsRoundTrip | src/mongo/db/commands/parameters.cpp:612-614 | an accepted list is appended back as the input with every delimiter written as ',' |
| ParameterSettings.SetByNameKeepsOnError | src/mongo/db/commands/parameters.cpp:253-693 | every setter of this file leaves all globals unchanged when it reports an error |
| ParameterSettings.LogLevelRoundTrip | src/mongo/db/commands/parameters.cpp:249-262 | after `logLevel` is set to n >= 0, `getParameter` shows n |
| ParameterSettings.ReadOnlyRoundTrip | src/mongo/db/commands/parameters.cpp:438-449 | a boolean flag shows the value it was set to |
| ParameterSettings.NoRollbackExample | src/mongo/db/commands/parameters.cpp:203-227 | `{setParameter: 1, readOnly: 5, logLevel: 2}` sets logLevel first (key order), then fails on readOnly with BadValue; logLevel stays 2 and readOnly is unchanged |
| ParameterSettings.EmptyDescriptorGetFails | src/mongo/db/commands/parameters.cpp:111-114 | asking only for an empty descriptor appends nothing, so `getParameter` fails |
| TokenSplit.Split | src/mongo/db/commands/parameters.cpp:631 | the split always yields at least one token; SplitShape, JoinSplit and SplitJoin state the rest |
| TokenSplit.Join | src/mongo/db/commands/parameters.cpp:613 | defines `boost::algorithm::join` with a separator. No contract of its own; JoinSplit and SplitJoin state it |
| TokenSplit.SplitShape | src/mongo/db/commands/parameters.cpp:631 | the split yields one more token than there are delimiters, and no token contains a delimiter |
| TokenSplit.JoinSplit | src/mongo/db/commands/parameters.cpp:631 | joining the split with ',' gives the input with each delimiter replaced by ',' |
| TokenSplit.SplitJoin | src/mongo/db/commands/parameters.cpp:631 | splitting delimiter-free tokens joined with ',' gives the tokens back |

## Left out

- Threads, the mutex and the condition variable of the handshake. The waiter's looks at the flag are an input; wake-ups and interleavings are not modelled.
- The lock manager. The database lock mode is recorded in the trace. The collection lock taken in IX for the scan is not recorded.
- `writeConflictRetry` around the commit. The model takes the attempt that does not conflict. Exceptions thrown by `indexer.commit()` or `wunit.commit()`, and the rollback of an aborted unit of work, are not modelled.
- The `TimestampBlock` for `_initIndexTs`, the `CurOp` description, the build's thread name and counter, authorization, and all logging.
- A null `Database*` in `run`. The model takes the database to exist whenever the collection lookup is answered.
- The statuses of `checkForInterrupt`: the interrupt check is assumed (type `GhostTimestamp.InterruptStatus`) to throw only statuses of the Interruption category. The server's error-code table, which defines that category and what `checkForInterrupt` throws, is not part of this model.
- The Interruption category: the eight codes of `ErrorCodes.IsInterruption` come from the server's error-code table, which is not part of this model.
- BSON building and parsing, `fromjson`, `parseNumberFromString` and `parseLogComponentSettings`. Their results are inputs.
- `LogComponentVerbositySetting::_get` and `_getParentElement`. They depend on the log component hierarchy, which is not part of this model. `ShowByName` reports only the top-level "verbosity" of the default component.
- Bson.CoerceInt: accepts only 32-bit integer elements, because the coercion of doubles, longs and decimals by `BSONElement::coerce` is not part of this model.
- The `quiet` and `traceExceptions` parameters. They are instances of `ExportedServerParameter`, whose template is not part of this model.
- `isGenericArgument` and `Command::globleDisableCommands`. They are given as sets.
- `ServiceEntryPoint::setMaxNumConnections`. It is an accept/reject input.
- Parameters registered in other files: `SetByName` answers InternalError for a name outside this file. The registry's other parameters are not part of this model.
- ParameterSettings.SetDescriptorFromString: counts characters as bytes, because strings are modelled as sequences of single-byte characters.
- Error message texts, help texts and privileges. No decision depends on them.
