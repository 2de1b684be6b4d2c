# Safe decoder service: a verified model

A Dafny 4.11 model of the stateful parts of the Safe decoder service, with proofs about whole runs.
`dafny verify dfyconfig.toml` checks all of it.

The service keeps a table of contract ABIs and a table of contracts. From the ABIs it builds an
in-memory index from 4-byte selectors to functions, which it extends while it runs; with the index it
decodes calldata recursively. Workers download missing contract metadata, behind a negative cache and
with follow-ups for proxy implementations. Responses are cached in Redis, and the rows of the Safe
contracts are created by tasks that hold a leased lock.

| file | models |
|---|---|
| `Encoding.dfy`, `Wrappers.dfy`, `Sets.dfy` | hexadecimal, decimal and big-endian text, each with its inverse; an option type and a fact about sizes |
| `Runs.dfy` | runs of a state machine, and what steps and runs keep |
| `Abis.dfy`, `AbiTable.dfy` | ABIs, their selector dictionaries, the queries on the `abi` table |
| `SelectorIndex.dfy` | the two merge orders of the index and how they relate |
| `DecoderService.dfy` | the service object with its index, cursor and lock |
| `IndexLoader.dfy` | start-up, loads and inserts as interleaved steps |
| `FunctionLookup.dfy` | function lookup behind the global index, and decoding accuracy |
| `BuiltinAbis.dfy` | the start-up loader of built-in ABIs and the precedence of the Safe contracts |
| `MultiSend.dfy` | the packed payload, its parser, and its decoded text |
| `TransactionDecoder.dfy` | the mutually recursive decoder and the number of payloads it tries |
| `ContractRows.dfy`, `ContractMetadataService.dfy` | a contract row, a download's outcome, one worker's task |
| `MetadataDownload.dfy`, `RetryBound.dfy` | any number of workers, scans and events interleaved |
| `ResponseCache.dfy` | the response cache with its late expiry |
| `SafeContracts.dfy`, `CreationLease.dfy` | creation of the Safe contract rows, and its lock |
| `Pagination.dfy` | pages and the links between them |

A state machine is a datatype of states, a datatype of steps, `Enabled` and `Apply`; a step is what the
code does between two awaits. `Runs.IsRun` and `Runs.Final` make runs of it, and `Runs.Along` says that
each step of a run meets a condition. Objects that the code updates in place are classes, and each of
their methods is proved equal to the specification functions the lemmas are about.

## Main results

- Index: `CoverageIff` for every run and `StepKeepsCoverageIff` for every step, `IncrementalRefinesRebuild`,
  `CaughtUpIndexIsARebuildIff`, and `OwnFunctionIsFound` on top of them.
- Precedence: `SafeOnTopIff` and, end to end, `SafeWinsInRunsIff`, however start-ups and downloads interleave.
- Decoder: `GivesTheAnswer` with `AnswerIsUnique`, `AttemptsAreBounded`, and `ParsesIffEncodes` with
  `DecodedMultisendReencodes`.
- Lookup: `LookupOnRows` and `AccuracyOnRows`, on the rows of the tables.
- Downloads: `RefusalsAreTrue`, `CascadesTerminate`, `CascadesNeverRepeat`, and `RetriesAreBounded` with
  `BoundIsReached`.
- Coordination: `CreationIsConserving`, `CountIsExact`, `FreshAfterCrashIff`, `InvalidationIsFinalIff`,
  `ExclusionAfterTickIff`.
- Pages: `PagingIsComplete`.

## Conditions and counter-runs

Some properties fail on some runs. Where a step is to blame, its exact condition is a named predicate on
the state and the step; a lemma proves that the property survives the step exactly if the condition holds,
another lifts it to runs, and concrete runs show the failure.

| condition on steps | exact by | what it guarantees over runs | without it |
|---|---|---|---|
| `IndexLoader.OverlooksNothing`: no row with a missing selector becomes visible at or below the cursor, or is dropped by an interrupted load | `StepKeepsCoverageIff`, `CoverageIff` | `IndexCoverage` | `InterruptedLoadLosesSelector`, `LostStaysLost`, `LateRowIsNotCovered` |
| `BuiltinAbis.LeavesSafe`: no Safe contract ABI is downloaded before its own store | `StaysRankedIff`, `SafeOnTopIff` | `SafeOnTopIff`, and by `SafeWinsInRunsIff` that the Safe contracts win their selectors | `TakenSafeStaysLow`, `DownloadBeforeStartupLosesPrecedence`, `DownloadDuringStartupLosesPrecedence` |
| `ResponseCache.LeavesWriter`: no crash takes the last writer that owes the key an expiry | `StaysAttendedIff` | `KeysExpire` | `AbandonedKeyStays`, `CrashedWriterLeavesKey` |
| `ResponseCache.LeavesEarlyWriter`: no crash takes the last one that computed before the key was born | `FreshAfterCrashIff` | `StalenessIsBounded` | `OldResponseIsServed`; `RelayedCrashesServeOldResponses` shows that `LeavesWriter` is not enough |
| `ResponseCache.HoldsNothingOlder` at an invalidation: no request has read rows from before the last commit and not yet stored them | `InvalidationIsFinalIff`, in the states of runs (`RunsAreCounted`) | no such rows are served | `LateStoreIsServed` |
| `CreationLease.InTime`: no task inside is past its lease at a tick | `ExclusionAfterTickIff` | `LeaseExcludes` | `OverstayerIsJoined`, `OverstayingBreaksExclusion` |
| `SelectorIndex.Consistent`: ABIs agree on shared selectors | `RebuildIndependentIff` for splits and orders, `CaughtUpIndexIsARebuildIff` for runs | `IncrementalRefinesRebuild`, `CaughtUpIndexIsARebuild` | `DisagreementShows` |
| `RetryBound.Overwrites`: a failure is written over more failures than the worker had read | `RetriesGoDownIff` | without overlap (`Alone`) there is none: `AloneKeepsRetries` | `RetriesCanGoDown` |

What the Safe contracts need to win their selectors is less than `LeavesSafe` (`TakenSafeMayWin`):
`BuiltinAbis.NoRivalOnTop`, that no row with another function is among the most relevant definers, is exact
by `SafeWinsIff`, and one Safe contract ABI that kept its relevance decides its selectors (`KeptSafeDecides`).

`IndexLoader.Orderly` (ids become visible in increasing order, and a load that moved the cursor is not
interrupted) is the usual case of `OverlooksNothing`, by `OrderlyOverlooksNothing`.

The retries of a contract have a bound without any hypothesis: `RetriesAreBounded` counts the extra
downloads of a run, those of checked messages and those that another message of the scan repeats, and
`BoundIsReached` shows runs that need every one of them. Where downloads of a contract do not overlap
(`RetryBound.Alone`) and scans drain (`RetryBound.Drained`) there is a fixed bound,
`SerializedRetriesAreBounded`, for every limit, 0 included (`ZeroLimitReachesTwo`). `OverlapExceedsBound` and
`UndrainedScansExceedBound` break it without the one or the other.

`ResponseCache.Prompt` (a request that does not crash ends within a delay of its first read) is the
parameter of the bound on staleness. The unique constraint on address and chain is a hypothesis of
`CountIsExact`; `DuplicatesDeceiveTheCount` is what happens without it.

Assumptions about libraries are in one predicate, `TransactionDecoder.WellBehaved`: a decoded `bytes`
argument is a slice of the parameters behind a 32-byte length word (Solidity Contract ABI
Specification, sections "Function Selector" and "Formal Specification of the Encoding"), arguments 0
and 2 of selector `0x6a761202` are an address and a `bytes`, and a MultiSend function has an argument.
The packed MultiSend layout is an assumption as well; `app/tests/services/mocks_multisend.py` shows it.
For these assumptions `AttemptsAreBounded` is the best bound (`AssumptionsGiveNoBetterBound`). That is not
a statement about the real `execTransaction`, whose ten arguments take more room than the assumptions ask for.

## Where the code and its comments differ

- `get_contracts_without_abi` speaks of fewer retries than the limit, and selects rows with at most that
  many. The bound on retries is therefore the limit plus one.
- `load_new_abis` returns the number of ABIs that added a key, not the number loaded, and 0 when a
  timeout cut the stream although ABIs were added.
- The lock timeout of `load_new_abis` is caught by a handler that also covers the streaming, so a
  timeout there looks like a busy lock; the cursor has already moved.
- `load_new_abis` without a cursor streams by relevance, least relevant first, and keeps the first
  definition: the opposite precedence of a start-up.
- The accuracy looks up an empty address, the function lookup does not.
- A next link leads back from a previous page only if the page was not past the end.

## Model

| member | source | states |
|---|---|---|
| Abis.SelectorMapContent | app/services/data_decoder.py:139-149 | an ABI maps a selector to its last function entry with that selector, and nothing else |
| SelectorIndex.LastWinsContent | app/services/data_decoder.py:151-165 | the built index holds a selector iff some ABI defines it, with the function of the last ABI that does |
| SelectorIndex.LoadAllContent | app/services/data_decoder.py:499-512 | a load keeps every entry and gives a new selector the function of the first ABI that defines it |
| SelectorIndex.LoadKeepsEntries | app/services/data_decoder.py:505-511 | no load changes or removes an entry |
| SelectorIndex.LoadCountZeroIff | app/services/data_decoder.py:549-558 | the returned count is zero exactly when the load changed nothing |
| SelectorIndex.InitPicksMostRelevant | app/datasources/db/models.py:149-158 | for any order of ties, exactly the table's selectors are keys, each from an ABI of greatest relevance among its definers |
| SelectorIndex.EveryOrderMeetsIff | app/datasources/db/models.py:149-158 | what the built index gives a selector meets a property for every order of ties iff the definitions of all its most relevant rows do |
| SelectorIndex.LoadFromEmptyPicksLeastRelevant | app/services/data_decoder.py:532-534 | a load without a cursor resolves new selectors to an ABI of least relevance |
| SelectorIndex.IncrementalRefinesRebuild | app/services/data_decoder.py:499-512 | for any split into a first build and batches, the keys are those of one build over all; the entries too if ABIs agree on shared selectors |
| SelectorIndex.RebuildIndependentIff | app/services/data_decoder.py:155-156 | the index is independent of splits and orders iff no two ABIs disagree on a selector |
| SelectorIndex.LoadCountIsAdders | app/services/data_decoder.py:549-558 | the count is the number of ABIs that define a selector which neither the index nor an earlier ABI of the load defines |
| AbiTable.LastInsertedIdIsGreatest | app/datasources/db/models.py:137-147 | the last id is that of a row and no row's is greater; there is none iff the table is empty |
| AbiTable.IdGreaterThanContent | app/datasources/db/models.py:160-179 | exactly the rows past the id, in ascending order |
| DecoderService.DataDecoderService.GenerateSelectorsFromAbis | app/services/data_decoder.py:151-165 | computes the index in which the last ABI wins |
| DecoderService.DataDecoderService.Init | app/services/data_decoder.py:101-130 | sets the cursor to the last id, builds both indexes, frees the lock |
| DecoderService.DataDecoderService.AddAbi | app/services/data_decoder.py:499-512 | adds only missing selectors and reports whether it added one |
| DecoderService.DataDecoderService.LoadNewAbis | app/services/data_decoder.py:514-567 | does nothing under a held lock; moves the cursor; merges the rows past the old cursor by id, or all by relevance, first definition winning; counts the ABIs that brought a selector, 0 if cut; an uncut call covers the rows up to the new cursor; on one table the call is a run of the loader |
| IndexLoader.CoverageIff | app/services/data_decoder.py:514-567 | in every run, only overlooked rows can be uncovered, and the index covers the table up to the cursor iff each of them has become a key or pending since |
| IndexLoader.StepKeepsCoverageIff | app/services/data_decoder.py:107-119 | each step of start-up, load and insert keeps coverage iff it overlooks no row, although the cursor moves before the rows are merged |
| IndexLoader.IndexCoverage | app/services/data_decoder.py:514-567 | in every run that overlooks nothing, with the lock free each selector up to the cursor is a key; after the cursor moved, each up to the previous cursor; under a load it is a key or pending; every entry is a visible row's definition |
| IndexLoader.OrderlyOverlooksNothing | app/services/data_decoder.py:517-518 | ids that become visible in order and loads that complete overlook nothing |
| IndexLoader.StepKeepsInv | app/services/data_decoder.py:524-558 | every step, orderly or not, keeps the entries sound and the cursors ids of visible rows |
| IndexLoader.CaughtUpIndexIsExact | app/services/data_decoder.py:107-119 | with the cursor at the last row and the lock free, the keys are exactly the selectors of the table |
| IndexLoader.CaughtUpIndexIsARebuild | app/services/data_decoder.py:151-165 | if the ABIs agree, a caught-up index is the one a start-up would build now, from any order of the table |
| IndexLoader.CaughtUpIndexIsARebuildIff | app/services/data_decoder.py:499-567 | every caught-up index on tables of given ABIs is the rebuilt one, for all runs that overlook nothing and all orders of ties, iff the ABIs agree on shared selectors |
| IndexLoader.EntriesNeverChange | app/services/data_decoder.py:509-510 | after start-up no run changes an entry |
| IndexLoader.UninterruptedStart | app/services/data_decoder.py:101-130 | the interleaved steps of a start-up, left alone, do what the method of the service promises |
| IndexLoader.UninterruptedLoad | app/services/data_decoder.py:524-558 | the interleaved steps, left alone, do what the method of the service promises, the returned number included |
| IndexLoader.AbortKeepsCoverageIff | app/services/data_decoder.py:559-567 | an interrupted load keeps coverage iff the rows up to the cursor that it had not merged had nothing to add, before and after the stream opened |
| IndexLoader.InsertKeepsCoverageIff | app/services/data_decoder.py:517-518 | a row that becomes visible keeps coverage iff it is past the cursor or has nothing to add |
| IndexLoader.LostStaysLost | app/services/data_decoder.py:530-541 | a selector skipped by an interrupted load stays missing in every later run until a new row defines it |
| IndexLoader.InterruptedLoadLosesSelector | app/services/data_decoder.py:531-567 | a concrete run that ends idle, uncovered and with a lost selector |
| IndexLoader.LateRowIsNotCovered | app/services/data_decoder.py:517-518 | a concrete run in which a row becomes visible below the cursor and is not covered |
| FunctionLookup.SelectedRowIsUnique | app/datasources/db/models.py:246-248 | the constraints leave one row for the query by address |
| FunctionLookup.SomeRowIsSelectedIff | app/datasources/db/models.py:355-369 | the query by address finds a row iff some contract matches it and has an ABI |
| FunctionLookup.OwnChainHasPriority | app/services/data_decoder.py:201-207 | a contract with an ABI on the chain is resolved with it |
| FunctionLookup.OtherChainsAreTheFallback | app/datasources/db/models.py:361-369 | without one, the lowest chain with an ABI decides |
| FunctionLookup.AccuracyAgreesWithLookup | app/services/data_decoder.py:487-497 | no match iff no function; function-only implies the global entry; an address match iff the lookup consults an own ABI, except for the empty address |
| FunctionLookup.AccuracyOnRows | app/services/data_decoder.py:469-497 | each accuracy is given exactly if: the selector is no key; a contract of the address on the chain has a non-empty ABI; not that but its lowest chain with an ABI has one; otherwise |
| FunctionLookup.LookupOnRows | app/services/data_decoder.py:191-236 | no key, no function; else the row of the chain, or without one that of the lowest chain, decides if it defines the selector, and the global entry if not |
| FunctionLookup.GateNeverHidesOwnFunction | app/services/data_decoder.py:218-236 | under coverage a contract within the cursor gets its own function if its ABI has it, else the global entry, else none |
| FunctionLookup.LookupFindsLoadedSelectors | app/services/data_decoder.py:209-236 | in every run that overlooks nothing, none means no row up to the cursor defines the selector, and a result is some row's definition |
| FunctionLookup.OwnFunctionIsFound | app/services/data_decoder.py:201-236 | in every run, a contract whose consulted ABI, of its own chain or of another, is within the cursor gets that ABI's function iff the selector is a key; if it is none the run overlooked the ABI |
| FunctionLookup.OwnFunctionIsNeverHidden | app/services/data_decoder.py:201-236 | in every run that overlooks nothing such a contract gets that function |
| FunctionLookup.OwnChainIsConsulted | app/services/data_decoder.py:191-207 | after every run a contract with an ABI on the chain consults it |
| FunctionLookup.LowestChainIsConsulted | app/datasources/db/models.py:361-369 | after every run a contract without one consults that of its lowest chain with an ABI |
| BuiltinAbis.AbiService.StoreAbisInDatabase | app/services/abis.py:68-79 | without interference, stores the ABIs that are missing, in order, with the relevance given |
| BuiltinAbis.AbiService.LoadLocalAbisInDatabase | app/services/abis.py:81-91 | without interference, stores the three lists at 100, 90 and 50 |
| BuiltinAbis.StoreContent | app/services/abis.py:74-79 | old rows stay; new rows have the relevance and were missing; exactly the list is added |
| BuiltinAbis.RunsKeepNumbers | app/datasources/db/models.py:116-117 | however start-ups and downloads interleave, ids ascend and none is given twice |
| BuiltinAbis.LoadLocalIsIdempotent | app/services/abis.py:81-91 | running the loader again changes nothing |
| BuiltinAbis.LoadLocalFromEmpty | app/services/abis.py:81-91 | from an empty database each ABI has the relevance of the first list that has it |
| BuiltinAbis.StartupRanksIff | app/services/abis.py:74-79 | a start-up without interference leaves the Safe contracts on top iff no stored row was misplaced |
| BuiltinAbis.StartUpAlone | app/services/abis.py:68-91 | the steps of a start-up, which awaits between looking and creating, do what the method promises if left alone |
| BuiltinAbis.StartUpFailsIff | app/services/abis.py:75-79 | a start-up fails iff an ABI it found missing has been stored since |
| BuiltinAbis.SafeSelectorsResolveToSafe | app/services/data_decoder.py:151-165 | every selector of a Safe contract ABI then resolves to a Safe contract ABI |
| BuiltinAbis.SafeWinsIff | app/services/data_decoder.py:151-165 | with all Safe contract ABIs stored, each of their selectors resolves to one in every order of ties iff no row with another function is among its most relevant definers |
| BuiltinAbis.StaysRankedIff | app/services/abis.py:74-79 | a step misplaces a row iff it downloads a Safe contract ABI that is missing, and a misplaced row stays |
| BuiltinAbis.SafeOnTopIff | app/main.py:45-59 | however start-ups and downloads interleave, once a start-up has come through the Safe contracts are on top iff none of their ABIs was downloaded before its own store |
| BuiltinAbis.SafeWinsInRunsIff | app/main.py:45-59 | end to end: once a start-up has come through, every later start resolves the selectors of the Safe contracts to them iff they have no rival on top; and they do if none of their ABIs was downloaded before its own store |
| BuiltinAbis.KeptSafeDecides | app/services/abis.py:81-91 | in every run, a Safe contract ABI that kept its relevance has its selectors resolved to a Safe contract ABI, even if others were taken |
| BuiltinAbis.TakenSafeMayWin | app/services/abis.py:75-79 | a concrete run in which a download takes an ABI and costs it nothing |
| BuiltinAbis.SafeStaysOnTop | app/main.py:55-59 | once on top they stay there in every later run |
| BuiltinAbis.TakenSafeStaysLow | app/services/abis.py:75-79 | after a download that takes a missing Safe contract ABI they are never on top |
| BuiltinAbis.HigherRowWins | app/services/data_decoder.py:151-165 | a selector that a low row shares with a higher one resolves to an ABI above the low row |
| BuiltinAbis.DownloadDuringStartupLosesPrecedence | app/main.py:45-59 | a concrete run in which a download between two stores of the first start-up takes a selector from a Safe contract ABI |
| BuiltinAbis.DownloadBeforeStartupLosesPrecedence | app/services/abis.py:75-79 | a Safe contract ABI downloaded first loses a shared selector to a built-in ABI |
| Encoding.HexRoundTrip | app/services/data_decoder.py:254-255 | hexadecimal text reads back to the bytes |
| Encoding.HexIff | app/services/data_decoder.py:254-255 | a text is the hexadecimal text of bytes iff it reads back to them |
| Encoding.IntRoundTrip | app/services/data_decoder.py:256-257 | decimal text reads back to the integer |
| Encoding.IntTextIff | app/services/data_decoder.py:256-257 | a text is the decimal text of an integer iff it is canonical and reads back to it |
| MultiSend.ParsesIffEncodes | app/tests/services/mocks_multisend.py:6-15 | a payload parses to a list iff the list is well formed and encodes to exactly the payload |
| MultiSend.DecodedTextReencodes | app/services/data_decoder.py:318-333 | the decoded text of a payload re-encodes to the original bytes |
| TransactionDecoder.ParsingIsLossless | app/services/data_decoder.py:238-258 | within a type, different values have different text |
| TransactionDecoder.GetDataDecoded | app/services/data_decoder.py:342-370 | terminates; 36 times the attempts is at most 36 plus the length, and 0 for empty data |
| TransactionDecoder.GivesTheAnswer | app/services/data_decoder.py:342-440 | the decoder gives the answer: none iff there is nothing to decode, no function or no fitting parameters; else name, kind and text of each argument and, recursively, the answers for the calls inside a MultiSend and an `execTransaction` |
| TransactionDecoder.WithTypesGivesTheAnswer | app/services/data_decoder.py:411-440 | so does the variant that raises, which tells a missing function from parameters that do not fit |
| TransactionDecoder.AnswerIsUnique | app/services/data_decoder.py:342-440 | there is one answer only |
| TransactionDecoder.ParseArgumentIff | app/services/data_decoder.py:238-258 | each value has exactly one text: hexadecimal, canonical decimal, a capitalised boolean, item by item |
| TransactionDecoder.DecodeTransactionWithTypes | app/services/data_decoder.py:411-440 | the attempts below a call fit in its length divided by 36 |
| TransactionDecoder.DecodeParametersData | app/services/data_decoder.py:372-409 | keeps the parameters' number, and the attempts fit |
| TransactionDecoder.DecodeMultisendData | app/services/data_decoder.py:306-340 | the attempts of all inner payloads together fit |
| TransactionDecoder.DecodeTransactions | app/services/data_decoder.py:318-333 | one entry a transaction, in order, with its text |
| TransactionDecoder.DecodeParametersInPlace | app/services/data_decoder.py:388-409 | writing into the list gives the specified parameters |
| TransactionDecoder.DecodedParametersFit | app/services/data_decoder.py:395-399 | the inner call read back from parameter 2 leaves room for a selector and a length word |
| TransactionDecoder.AttemptsAreBounded | app/services/data_decoder.py:342-440 | decoding L bytes tries at most 1 + L / 36 payloads |
| TransactionDecoder.DecodedMultisendReencodes | app/services/data_decoder.py:306-340 | a decoded MultiSend call keeps order and number, and its text encodes to its payload |
| ContractRows.WriteSettles | app/services/contract_metadata_service.py:174-219 | success and failure settle a row and never unlink its ABI or implementation, however stale the row read |
| ContractRows.OutcomeColumns | app/services/contract_metadata_service.py:174-219 | for a stale read: each written column ends with the new value unless that was what was read and the column changed since; other columns stay |
| ContractRows.ProxyImplementationIff | app/services/contract_metadata_service.py:221-231 | an implementation is followed iff the metadata names an address that is not empty and not null |
| ContractMetadataService.Worker.ShouldAttemptDownload | app/services/contract_metadata_service.py:236-271 | a refusal is cached, a permission is not, and the answer is the row's |
| ContractMetadataService.Worker.ProcessContractMetadata | app/services/contract_metadata_service.py:159-219 | on success the row has the stored ABI, the fetched name and an implementation that is neither empty nor null, and its old retries; on failure one retry more and nothing else; other rows untouched |
| ContractMetadataService.Worker.GetContractMetadataTask | app/workers/tasks.py:43-85 | a permitted download settles the key, drops the cached responses of the address iff it succeeds, and follows up exactly for a proxy; a refused one changes nothing |
| ContractMetadataService.TokenAloneDoesTheTask | app/workers/tasks.py:43-85 | the interleaved steps of one message, left alone, do what the method promises, the message for a proxy implementation included |
| ContractMetadataService.ProxyRefresh | app/workers/tasks.py:102-111 | the refresh of a proxy downloads it without a check, and the implementation found replaces the one recorded |
| MetadataDownload.RefusalsAreTrue | app/services/contract_metadata_service.py:249-271 | in every interleaving a cached refusal means an ABI or a failed download |
| MetadataDownload.CompletedDownloadSettlesForGood | app/services/contract_metadata_service.py:174-219 | a completed download settles its key in every later state |
| MetadataDownload.StepKeepsInv | app/workers/tasks.py:50-83 | each step of each worker keeps the invariant and every row's achievements |
| MetadataDownload.CascadesNeverRepeat | app/workers/tasks.py:71-83 | no cascade downloads an address twice, on any implementation graph |
| MetadataDownload.AdvanceLowersMeasure | app/workers/tasks.py:50-83 | each step of a worker lowers the measure over the unsettled addresses |
| MetadataDownload.CascadesTerminate | app/workers/tasks.py:71-83 | from any reachable state the cascades end within a number of steps linear in messages and addresses |
| RetryBound.RetriesAreBounded | app/workers/tasks.py:88-111 | in every run the retries of a contract without ABI exceed the limit by at most one more than its extra downloads, and the proxy refresh never works on one |
| RetryBound.StepKeepsCount | app/services/contract_metadata_service.py:174-219 | each step keeps that bound with what messages have read, one lower while a message of the scan is outstanding |
| RetryBound.BoundIsReached | app/workers/tasks.py:50-63 | for every limit and number of extra downloads a run with drained scans reaches the bound |
| RetryBound.SerializedRetriesAreBounded | app/workers/tasks.py:88-99 | if downloads do not overlap and scans drain, at most one retry more than the limit, and two for a limit of 0 |
| RetryBound.StepKeepsBound | app/datasources/db/models.py:371-403 | each serialized step keeps that bound, what scans selected and what messages may still do |
| RetryBound.OverlapExceedsBound | app/workers/tasks.py:50-63 | downloads that overlap break it although scans drain |
| RetryBound.UndrainedScansExceedBound | app/workers/tasks.py:88-99 | two scans without draining retry twice beyond the limit |
| RetryBound.RetriesGoDownIff | app/services/contract_metadata_service.py:216-218 | a step lowers the retries of a row iff it writes a failure over more failures than its worker had read |
| RetryBound.AloneKeepsRetries | app/services/contract_metadata_service.py:174-219 | in runs where downloads of a contract do not overlap no row's retries ever go down |
| RetryBound.AloneKeepsRefusalsTrue | app/services/contract_metadata_service.py:249-271 | there a refusal stays true for every number of retries |
| RetryBound.RetriesCanGoDown | app/services/contract_metadata_service.py:216-218 | overlapping downloads make the retries of a row go down, and a refusal for more than 0 retries false |
| RetryBound.ZeroLimitReachesTwo | app/config.py:48-50 | with a limit of 0 a serialized run retries a new contract twice |
| ResponseCache.StaysAttendedIff | app/datasources/cache/redis.py:111-116 | a step leaves a key without expiry and without a writer that owes it one iff it is the crash of the last such writer |
| ResponseCache.KeysExpire | app/datasources/cache/redis.py:93-118 | without such a crash a key without expiry has a writer that owes it one, and otherwise ends within 60 seconds of the last expire call |
| ResponseCache.TickDropsIff | app/datasources/cache/redis.py:114-116 | time drops the key exactly when 60 seconds have passed since the expire call |
| ResponseCache.StalenessIsBounded | app/datasources/cache/redis.py:93-118 | with prompt writers, and unless a crash takes the last early writer, nobody is served rows read more than 60 seconds and three delays ago |
| ResponseCache.FreshAfterCrashIff | app/datasources/cache/redis.py:111-116 | all continuations of a crash keep that bound iff the crash does not take the last early writer of a key without expiry |
| ResponseCache.RelayedCrashesServeOldResponses | app/datasources/cache/redis.py:111-116 | crashes that each leave another writer can still keep a response for any time |
| ResponseCache.AbandonedKeyStays | app/datasources/cache/redis.py:111-116 | a key left without a writer stays with its fields until an invalidation or until a later writer sets the expiry |
| ResponseCache.NextMissSetsExpiry | app/datasources/cache/redis.py:101-116 | the next miss on another field is such a writer, and prolongs the fields stored before |
| ResponseCache.CrashedWriterLeavesKey | app/datasources/cache/redis.py:111-116 | a concrete run to a key that no passage of time removes |
| ResponseCache.CachedEndpoint.Call | app/datasources/cache/redis.py:93-118 | a hit changes nothing; a miss stores the response and leaves the key with an expiry |
| ResponseCache.HitAlone | app/datasources/cache/redis.py:98-102 | the steps of a request that hits, left alone, do what the method promises |
| ResponseCache.MissAlone | app/datasources/cache/redis.py:104-118 | and so do those of one that misses |
| ResponseCache.InvalidationIsFinalIff | app/workers/tasks.py:61-67 | after an invalidation nobody is served rows from before the last commit, in any continuation, iff no request had read such rows and not yet stored them |
| ResponseCache.LateStoreIsServed | app/services/contract.py:28-31 | a request that has read its page, and perhaps not yet its count, stores after an invalidation and is served |
| SafeContracts.CreateAllCompletes | app/services/safe_contracts_service.py:85-102 | creation keeps rows and uniqueness and leaves every deployment address on the chain |
| SafeContracts.CreateAllContent | app/services/safe_contracts_service.py:85-102 | each row that creation adds had none before and carries the info of the first deployment listed for its address |
| SafeContracts.CreateAllIdleIff | app/datasources/db/models.py:315-345 | creation adds nothing iff the chain was complete |
| SafeContracts.CreationIsConserving | app/services/safe_contracts_service.py:74-115 | under any interleaving one row per address and chain, the counts add up to the rows added, and a finished creator leaves its chain complete |
| SafeContracts.CreatedRowsAreDeployments | app/services/safe_contracts_service.py:74-115 | under any interleaving a row that a run added, and that no other insert or refresh wrote, is that of the first deployment listed for its address, on the chain of a creator |
| SafeContracts.CreatorAlone | app/services/safe_contracts_service.py:84-115 | the steps of a creation, left alone, do what the method promises |
| SafeContracts.RefreshAlone | app/services/safe_contracts_service.py:117-145 | and so do those of a refresh |
| SafeContracts.CountIsPresent | app/datasources/db/models.py:447-458 | the count of rows is the number of addresses that have one |
| SafeContracts.CountIsExact | app/datasources/db/models.py:435-458 | the test by counting holds iff there are deployments and all are present |
| SafeContracts.DuplicatesDeceiveTheCount | app/datasources/db/models.py:246-248 | without the unique constraint the test is wrong |
| SafeContracts.CompleteForGood | app/services/safe_contracts_service.py:60-72 | a complete chain stays complete, so remembering it is safe |
| SafeContracts.UpdateAllContent | app/datasources/db/models.py:405-433 | a row gets the info of the last deployment of its address, on every chain; others are untouched |
| SafeContracts.SafeContractsService.SafeContractsExist | app/services/safe_contracts_service.py:50-72 | the answer, cached or counted, is whether the chain is complete |
| SafeContracts.SafeContractsService.CreateSafeContracts | app/services/safe_contracts_service.py:74-115 | the created rows with their addresses, chain and info, their count, and 0 iff the chain was complete |
| SafeContracts.SafeContractsService.UpdateSafeContractsInfo | app/services/safe_contracts_service.py:117-145 | the refreshed rows; remembered chains stay complete |
| CreationLease.LeaseExcludes | app/workers/tasks.py:123-140 | if every task ends before its lease, by leaving or by dying inside, no two are inside for one chain, a delete leaves every other task its own lock, and no lock outlives the lease |
| CreationLease.GetsInIff | app/workers/tasks.py:125-133 | a task gets in iff there is no lock for its chain, and then holds it for 300 seconds; otherwise it is turned away for good |
| CreationLease.ExclusionAfterTickIff | app/workers/tasks.py:125-127 | from any such state, the continuations of a tick keep the exclusion iff no task inside is past its lease at that tick |
| CreationLease.OverstayingBreaksExclusion | app/workers/tasks.py:139-140 | a task that overstays is joined by a second and its delete lets in a third |
| Pagination.PagingIsComplete | app/services/pagination.py:34-71 | next links lead through every row once and in order, in as many pages as needed |
| Pagination.CreateContent | app/services/pagination.py:34-36 | limits from 1 to 100 are taken as they are, none and 0 mean 10, more means 100; no offset means 0 |
| Pagination.PageContent | app/services/pagination.py:63-71 | the page is the rows from the offset, at most the limit of them, in order |
| Pagination.LinksIff | app/services/pagination.py:38-61 | a next link iff rows lie past the page, to the first of them; none back from offset 0, else one page back or to the start |
| Pagination.PreviousUndoesNext | app/services/pagination.py:38-61 | the previous link of a next page leads back |
| Pagination.NextUndoesPreviousIff | app/services/pagination.py:46-61 | the next link of a previous page leads back iff the offset is at least the limit and below the count |

## Left out

- HTTP routers, the admin panel, commands, logging and configuration loading: plumbing without state of its own.
- Explorer clients: what they answer is an arbitrary input to each download.
- Message broker: messages are delivered in any order by any number of workers; its retries after a crash are not modelled.
- Database sessions: each query and each commit is one atomic step; admin edits and migrations that clear an `abi_id` are not steps.
- Hashes: selectors are fields of functions, ABIs are compared by content, cache fields are names; nothing is proved about hash functions.
- Address checksums: addresses are rendered as lower-case hexadecimal text.
- Lookup caches of `get_contract_abi` and `get_contract_abi_selectors_with_functions`: lookups are stated on one snapshot, without the memory caches in front of them.
- `decode_transaction`: the dictionary of parameter names, and the exceptions as they reach the HTTP layer.
- Event filtering and display names: one-branch checks and string formatting.
- WriteOutcome: does not model that a duplicate ABI rolls back the session, after which all assigned columns are written instead of only the changed ones.
- ParseOne: does not model the older MultiSend encoding without an operation byte that the library also reads.
- AttemptsAreBounded: does not use the room that the ten arguments of `execTransaction` take, so real nested calls need not reach the bound.
- RefusalsAreTrue: is about `max_retries` 0, the only value the service uses, because for other values it is false (`RetriesCanGoDown`); `AloneKeepsRefusalsTrue` has them where downloads do not overlap.
- StoreAbisInDatabase: is one caller; a concurrent insert between look and create, which fails the start-up, is a step of the state machine beside it.
- CachedEndpoint: stands for one contract's key; keys of different contracts do not interact.
- GetDataDecoded: is modelled on values, because it builds its result; only the write into the parameter list is in place, in `DecodeParametersInPlace`.
- MetadataDownload and the other state machines are modelled on values, because their steps interleave; the classes beside them model one caller at a time.
- Pagination.Create: takes the values that the query validation lets through, so no negative limit or offset.
