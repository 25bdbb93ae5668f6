# Peerplays contract node: a verified model

A Dafny model of the node's block synchronisation, of its contract registry, table monitors and plugin
life cycle, and of the Infra library's compile-time programs, with proofs of what they are for.
`dafny verify dfyconfig.toml` checks everything.

## What is modelled

**Block synchronisation** (`Uint32`, `HalvingLoop`, `BlockTree`, `Graphene`, `P2pHandler`, `BlockAcceptor`,
`BlockSync`, `SyncFlag`). A client summarises a chain in a synopsis, a responder looks for the latest entry on
its own chain and replies with the blocks from there, and the client takes blocks one at a time on top of its
head. Block ids carry a number and determine a parent; chains are sequences linked through parents, and that two
chains agree below any block they share is derived from those links. The 32-bit arithmetic wraps explicitly. The
synopsis loop is proved against a closed form: with `T` the number of the reference block plus the blocks to
follow and `L` the lowest number, entry `k` has number `T + 2 - ceil((T - L + 2) / 2^k)`. The two nodes together
give the point of resumption, the overlap bound, and the exact condition and number of rounds for convergence.

**Contracts and plugins** (`Uint8`, `Exceptions`, `ContractRegistry`, `TableMonitor`, `PluginLifecycle`). A name is
recorded once, its record number gives an object space cut down to eight bits, and loading never replaces what a
space holds. Monitors turn table changes into events; replaying the events onto a snapshot is a partial function that
insists on every old value, and the tables are compared with its result. Plugins are loaded, initialised and given up
over any number of passes; what a run comes to is forecast from the records and the files alone, and the node does
as forecast if no pass leaves libraries behind.

**Infra** (`Sequences`, `TypeList`, `StaticVariant`, `VariantRuns`, `Modular`, `SplitString`, `ApiManager`). Types
are values with equality, type lists are sequences, the module tree is a tree. A variant is a tag and a storage cell;
every object ever placed has a cell of its own that records as what it was destroyed, and whole runs over any number
of variants are shown to behave like plain values of sum types.

## Assumed of the surroundings

- Graphene is present only through `Graphene.View`: lookups by number (none outside the chain, where graphene
  throws), known blocks, fork histories that follow parents from the reference block to a block of the main chain or
  to zero and throw for other ids, and a last non-undoable block no higher than the head.
- A pushed block either becomes the head, or the push throws, or the head stays; a delivered block's id determines
  its parent, which is the absence of hash collisions.
- Record numbers are handed out from 0 in sequence and survive restarts. Exceptions of the fc library are not boost
  exceptions, so the handler around plugin initialisation does not catch them. Whether a table takes a monitor, or
  throws and what, is an input, and so is whether the search of a directory throws and after which files.
- Runs of the node go on after any pass. An fc exception that escapes the start-up pass ends the node
  (Modules/ContractNode.cpp:221-224), so of such a run only the first pass takes place.
- An aborted modification leaves its row unchanged; a modification keeps its row's number; rows are loaded or created
  only where there are none, and not removed while they are being modified.
- Constructors, assignments and destructors of the types in a variant do not throw.

## Where the code falls short of what one expects of it

- The synopsis loop ends exactly if `HalvingLoop.Ends` holds, a check on `L`, the reference number and the blocks to
  follow (`HalvingLoop.ExitsExactly`). If the sum of the latter two fits in 32 bits, it ends exactly if nothing wraps
  (`HalvingLoop.EndsIfWrapFree`, `HalvingLoop.NeverWrapsExactly`). If it does not end, the call throws when it asks for
  block zero, exactly if `HalvingLoop.ComesToZero` holds, or else goes on for ever (`HalvingLoop.ZeroExactly`).
- On a chain of 2^32 - 1 blocks a reply with a limit beyond the head goes on from block 1
  (`BlockSync.ReplyIsRunExactly`).
- With more than 256 contracts on record, a contract can be loaded and yet not be found
  (`ContractRegistry.LookupExactly`, `ContractRegistry.TooManyContracts`); its plugin then makes an exception escape.
- An exception that escapes while plugins are initialised leaves libraries behind that are neither initialised nor
  ever tried again (`PluginLifecycle.EscapeLeavesOrphan`). So does the search of a directory that throws once plugins
  were found (`PluginLifecycle.SearchLeavesOrphans`). Exactly when that happens is told from the records and the files
  beforehand (`PluginLifecycle.SettledExactly`, and for up to 256 names `PluginLifecycle.SettledUpTo256`).
- The handler around putting a monitor on a table (Modules/ChainHandler.cpp:177) catches a pointer to an exception.
  An exception thrown as an object, which is how fc throws, is not let go with a log line but ends the observation of
  the contract, and escapes unless it is boost's (`TableMonitor.MultiTableMonitor.Attach`,
  `PluginLifecycle.EscapeExactly`). The monitors already put on tables stay there and refer to signals that are
  destroyed (`ContractRegistry.ChainHandler.ObserveContract`, `ContractRegistry.DanglingExactly`). If the exception is
  boost's, the library is given up although its contract stays loaded (`PluginLifecycle.DroppedWhileLoaded`).
- The events of a modification inside another of the same table cannot be replayed, unless the inner one is aborted
  and of the same row (`TableMonitor.NestedIsLost`). Which runs can be replayed at all is
  `TableMonitor.RunRebuildsExactly`.
- Assigning a variant the object inside itself, or any part of that object, reads it after its destruction
  (`VariantRuns.StepIsSound`). The test for self-assignment does not help where the part is another variant.
- Fetching a submodule by its path also takes methods that are demarcated otherwise, which the walk over the module
  tree does not list (`Modular.FetchedYetNotListed`).

## Model

| member | source | states |
|---|---|---|
| HalvingLoop.Length | Modules/P2pHandler.cpp:216-228 | The number of entries is the least k with (n + 1) * 2^k at least T - L + 2 |
| HalvingLoop.NumberAtSteps | Modules/P2pHandler.cpp:226 | The closed form starts at L and each pass adds half of what is left to T + 2 |
| HalvingLoop.NumberAtExit | Modules/P2pHandler.cpp:228 | The closed form passes the reference number exactly when the halved gap is down to n + 1 |
| HalvingLoop.NumbersHalve | Modules/P2pHandler.cpp:216-228 | The closed form is a run of the loop: starts at L, stays within [L, H], rises, halves, and could not go on |
| HalvingLoop.HalvingIsUnique | Modules/P2pHandler.cpp:216-228 | There is only one such run |
| HalvingLoop.LengthAtMost32 | Modules/P2pHandler.cpp:118-119 | A synopsis of 32-bit numbers has at most 32 entries |
| HalvingLoop.NeverWrapsExactly | Modules/P2pHandler.cpp:216-228 | No 32-bit operation of the loop wraps exactly if T is at most 2^32 - 2, or T is 2^32 - 1 with L at least 2 and n at least 1 |
| HalvingLoop.HalvingPass | Modules/P2pHandler.cpp:226-228 | In every 32-bit loop that ends or comes to zero, a pass takes each reported number to the next and the last one past the reference number, or to zero |
| HalvingLoop.LowAfterIsNumberAt | Modules/P2pHandler.cpp:226 | While the first gap fits in 32 bits, the low number after k wrapping passes is the closed form's, wrapped |
| HalvingLoop.ExitsExactly | Modules/P2pHandler.cpp:216-228 | For all 32-bit inputs the loop ends exactly if the first gap and the number it exits with fit in 32 bits |
| HalvingLoop.ZeroExactly | Modules/P2pHandler.cpp:216-228 | A loop that does not end comes to number zero exactly if it would exit with 2^32; otherwise its number stays from 1 up to the reference number for ever |
| HalvingLoop.EndsIfWrapFree | Modules/P2pHandler.cpp:216-228 | If T fits in 32 bits the loop ends exactly when nothing wraps |
| BlockTree.SharedBelow | Modules/P2pHandler.cpp:12-16 | Linked chains that share a block share everything below it |
| BlockTree.PathIsUnique | Modules/P2pHandler.cpp:159-178 | There is one linked path to a block, so a spliced fork is the path to its tip |
| BlockTree.SharedExactly | Modules/P2pHandler.cpp:76-78 | Two chains agree at a number exactly up to the highest they share |
| P2pHandler.SummarisedIsThePath | Modules/P2pHandler.cpp:125-204 | What a synopsis summarises is linked and ends at the reference block, or at the head without one |
| P2pHandler.SummarisedFailsExactly | Modules/P2pHandler.cpp:131-191 | Which of the two errors comes for which reference, from its fork history, the ancestor's number and the last non-undoable block |
| P2pHandler.SplicedIsLinked | Modules/P2pHandler.cpp:158-178 | Main chain up to the common ancestor plus the reversed fork is linked, ends at the reference block, and has its number |
| P2pHandler.LowestNum | Modules/P2pHandler.cpp:122-207 | In all entry cases the lowest number is the last block that cannot be undone, or 1 if that is zero, or the reference number if that is lower |
| P2pHandler.Pick | Modules/P2pHandler.cpp:222-225 | Every pick, from the main chain or the fork history, is in range and is the path's block of that number |
| P2pHandler.P2pHandler.EnterLoop | Modules/P2pHandler.cpp:120-207 | The four entry cases and two errors: the loop is entered on the summarised path with its lowest number, the source's asserts hold |
| P2pHandler.P2pHandler.ReadFork | Modules/P2pHandler.cpp:158-178 | The fork case's variables, with the asserted equality of the high number and the fork tip's |
| P2pHandler.P2pHandler.Halve | Modules/P2pHandler.cpp:216-230 | The loop returns the path's blocks at the closed form's numbers, or throws when it asks for block zero, whenever it does not go on for ever |
| P2pHandler.P2pHandler.GetBlockchainSynopsis | Modules/P2pHandler.cpp:115-231 | The synopsis, or the error, is that of the specification for every reference and every n for which the loop ends; where it asks for block zero the call throws |
| P2pHandler.UsableMeans | Modules/P2pHandler.cpp:77-78 | A numbered entry is recognised exactly if it is the main chain's block of its number |
| P2pHandler.LastUsable | Modules/P2pHandler.cpp:75-83 | What the backward search finds is an entry and is recognised |
| P2pHandler.CounterMoves | Modules/P2pHandler.cpp:87-91 | The block counter's positions, including where it wraps to zero |
| P2pHandler.ReplyEnds | Modules/P2pHandler.cpp:93-94 | The reply's last block is as far below the head as the remaining count says |
| P2pHandler.P2pHandler.SearchSynopsis | Modules/P2pHandler.cpp:75-83 | The loop from the end finds the specified entry |
| P2pHandler.P2pHandler.CollectIds | Modules/P2pHandler.cpp:87-91 | The loop collects the main chain's ids from the first number on, up to the limit, with its overflow case |
| P2pHandler.P2pHandler.GetBlockIds | Modules/P2pHandler.cpp:57-97 | The reply, or the unreachable-fork error, is that of the specification for every synopsis and limit |
| P2pHandler.P2pHandler.RequestSync | Modules/P2pHandler.cpp:268-271 | The flag is set and nothing is emitted; both agree with the history |
| P2pHandler.P2pHandler.ReceiveBlock | Modules/P2pHandler.cpp:31-45 | The block is announced, then the end of the sync exactly if one is under way, the block is live and no listener throws; flag and signals agree with the history; the transactions' message ids are returned in order |
| BlockSync.SampledIsSynopsis | Modules/P2pHandler.cpp:216-230 | Synopsis ids lie on the path at the halving loop's numbers |
| BlockSync.SynopsisEnds | Modules/P2pHandler.cpp:209-216 | No zero id; the last entry is within n blocks of the reference block, and is it if n is zero |
| BlockSync.SynopsisStarts | Modules/P2pHandler.cpp:122-207 | Every synopsis with ids starts at the last non-undoable block, or at 1 or the reference number, stated on its first id alone |
| BlockSync.SynopsisShape | Modules/P2pHandler.cpp:115-231 | A successful synopsis is a rising selection of one linked path that ends at the reference block |
| BlockSync.LastUsableAt | Modules/P2pHandler.cpp:75-83 | The search result is recognised and nothing after it is; there is no result exactly if nothing is |
| BlockSync.ReplyIsRunExactly | Modules/P2pHandler.cpp:87-91 | The reply is the contiguous run min(limit, head - start + 1) long exactly unless the counter overflows |
| BlockSync.ReplyConservesExactly | Modules/P2pHandler.cpp:87-94 | Length plus remaining count is head - start + 1 exactly if the limit is positive and the counter does not overflow |
| BlockSync.ReplyFailsExactly | Modules/P2pHandler.cpp:84-85 | The unreachable-fork error comes exactly if there are blocks and entries and none is recognised |
| BlockSync.ReplyResumes | Modules/P2pHandler.cpp:75-97 | A reply to non-zero ids begins with one of them, is a run, and its count accounts for the rest |
| BlockSync.ReplyStarts | Modules/P2pHandler.cpp:57-97 | Where any reply starts, for every synopsis: at the last recognised entry, or at block 1; its run and count |
| P2pHandler.NothingToReply | Modules/P2pHandler.cpp:59-61 | Without blocks the reply is empty |
| BlockSync.UsableExactly | Modules/P2pHandler.cpp:76-78 | A responder recognises a block of a path exactly up to the highest shared number |
| BlockSync.OverlapBound | Modules/P2pHandler.cpp:226 | The distance from the best entry up to a shared number c is at most T - c |
| BlockSync.ResumeEntry | Modules/P2pHandler.cpp:75-97 | The entry resumed at is the highest not above the highest shared number; there is none exactly if L is above it |
| BlockSync.SynopsisAndReply | Modules/P2pHandler.cpp:57-231 | Both functions composed: unreachable fork exactly if nothing is shared or the highest shared number c is below both the last non-undoable block and the path's end, otherwise resumption at s with c - s at most T - c |
| BlockSync.ClientCallEnds | Modules/P2pHandler.cpp:216-230 | The synopsis call of a client with fewer than 2^32 - 1 blocks comes to an end |
| BlockSync.RunIsAccepted | Modules/ContractNode.cpp:230-244 | A run delivered in order takes a prefix of its chain to the run's end, repeated blocks ignored |
| BlockSync.AnswerResumesAtHead | Modules/P2pHandler.cpp:57-231 | A client on the responder's chain is answered from its own head on |
| BlockSync.RoundProgress | Modules/P2pHandler.cpp:87-97 | A round gains limit - 1 blocks, or limit from nothing, or reaches the head; the remaining count is the gap left |
| BlockSync.RoundsProgress | Modules/P2pHandler.cpp:57-97 | How far any number of rounds goes |
| BlockSync.RoundsFromNothing | Modules/P2pHandler.cpp:66-74 | The same from an empty chain |
| BlockSync.RoundsOffChain | Modules/ContractNode.cpp:231-243 | A client whose head is off the responder's chain never moves |
| BlockSync.ConvergesExactly | Modules/P2pHandler.cpp:57-231 | Rounds reach chain equality exactly if the client's head is on the responder's chain and the rounds are enough |
| BlockSync.RoundsNeeded | Modules/P2pHandler.cpp:57-231 | Enough is ceil((headR - headC) / (limit - 1)), no less |
| BlockAcceptor.BlockHandler.OnBlockReceived | Modules/ContractNode.cpp:230-244 | A block is pushed exactly if its parent is the head; what becomes of the chain and which line is logged |
| BlockAcceptor.BlockHandler.PushBlock | Modules/ContractNode.cpp:235-237 | The assumed outcomes of a push |
| BlockAcceptor.AppendOnly | Modules/ContractNode.cpp:230-244 | Over any deliveries, every later chain extends every earlier one |
| BlockAcceptor.StaysLinked | Modules/ContractNode.cpp:231 | Over any deliveries, the chain stays linked |
| BlockAcceptor.PrefixExactly | Modules/ContractNode.cpp:231 | A linked chain is a prefix of another exactly if its head is on it or it is empty |
| BlockAcceptor.OneSource | Modules/ContractNode.cpp:230-244 | Fed from one chain, a node stays a prefix of it or, with its head off it, never changes |
| SyncFlag.SyncingExactly | Modules/P2pHandler.cpp:38-41 | The flag is set exactly while a request has had no later live block |
| SyncFlag.AnnouncedAsHandedOver | Modules/P2pHandler.cpp:32 | Over any run the blocks announced are the blocks handed over, in order |
| SyncFlag.OneCompletionPerSync | Modules/P2pHandler.cpp:38-41 | Between two finished signals lies a request |
| SyncFlag.FirstLiveBlockFinishes | Modules/P2pHandler.cpp:38-41 | The first live block after a request emits the finished signal |
| SyncFlag.CompletionsBounded | Modules/P2pHandler.cpp:31-45 | Listeners hear of no more completions than requests, one less while one is open |
| ContractRegistry.ChainHandler.constructor | Modules/ChainHandler.cpp:49-52 | A start has the records of the last run and nothing loaded |
| ContractRegistry.ChainHandler.InitializeContract | Modules/ChainHandler.cpp:96-118 | A record whatever the initialiser does, the call with the record's space, loading only if accepted and the space is free |
| ContractRegistry.ChainHandler.GetSpaceId | Modules/ChainHandler.hpp:86-92 | The lowest space that holds the name, or failure |
| ContractRegistry.ChainHandler.ObserveContract | Modules/ChainHandler.hpp:104-106 | A monitor for the name's space that watches each table that takes one, or an exception; in both cases which table monitors are in the database then, and whether their signals are alive |
| ContractRegistry.DanglingExactly | Modules/ChainHandler.cpp:167-181 | Monitors are left with destroyed signals exactly if the space is found and a table takes a monitor before the first that throws |
| ContractRegistry.PutOnAre | Modules/ChainHandler.cpp:168-181 | Monitors are put on just the tables that take one before the first that throws, in order |
| ContractRegistry.FirstSpace | Modules/ChainHandler.hpp:86-92 | The result holds the name and no lower space does; failure means none does |
| ContractRegistry.Observed | Modules/ChainHandler.hpp:104-106 | The monitor is of the name asked for and the lowest space that holds it; which exception comes otherwise |
| ContractRegistry.SpaceIsForever | Modules/ChainHandler.cpp:100-111 | Over all histories of initialisations and restarts a name keeps its space |
| ContractRegistry.RecordsAreFirsts | Modules/ChainHandler.cpp:100-111 | Over all histories the records are the first occurrences of all names ever initialised, in order, whatever came of it |
| ContractRegistry.SpaceGivenIsForever | Modules/ChainHandler.cpp:100-113 | From the first call of its initialiser on, a name is on record with the space of that call, and later calls get the same |
| ContractRegistry.LoadedStays | Modules/ChainHandler.cpp:114 | What a space holds it keeps until the node restarts |
| ContractRegistry.SpacesAreConsecutive | Modules/ChainHandler.cpp:24 | Records' spaces follow one another from 10, with 0 after 255 |
| ContractRegistry.AfterIsSound | Modules/ChainHandler.cpp:96-118 | Over all histories records are distinct, spaces hold names that own them, running contracts' spaces are taken |
| ContractRegistry.SpacesDifferExactly | Modules/ChainHandler.cpp:23-24 | Spaces are pairwise distinct exactly up to 256 names |
| ContractRegistry.SpacesAvailableExactly | Modules/ChainHandler.cpp:23-24 | All spaces are at least 10 exactly up to 246 names |
| ContractRegistry.LookupIsRight | Modules/ChainHandler.hpp:86-92 | A lookup never returns a wrong space |
| ContractRegistry.LookupFindsOwner | Modules/ChainHandler.hpp:86-92 | A lookup succeeds exactly for the name its space holds |
| ContractRegistry.LookupExactly | Modules/ChainHandler.cpp:113-116 | After any history all running contracts are found exactly if no two share a space |
| ContractRegistry.LookupUpTo256 | Modules/ChainHandler.hpp:86-92 | With at most 256 names every running contract is found under its space |
| ContractRegistry.TooManyContracts | Modules/ChainHandler.cpp:113-116 | The 257th contract runs and cannot be found |
| TableMonitor.TableMonitor.OnLoaded | Modules/ChainHandler.cpp:129-132 | Emits the loaded signal with the object, or throws if not set up |
| TableMonitor.TableMonitor.OnCreated | Modules/ChainHandler.cpp:133-136 | Emits the created signal with the object, or throws if not set up |
| TableMonitor.TableMonitor.OnRemoved | Modules/ChainHandler.cpp:137-140 | Emits the deleted signal with the object, or throws if not set up |
| TableMonitor.TableMonitor.OnAboutToModify | Modules/ChainHandler.cpp:141-143 | Remembers the old object, replacing any other |
| TableMonitor.TableMonitor.OnModified | Modules/ChainHandler.cpp:144-156 | Emits old and new and forgets, or writes the error line if nothing is remembered |
| TableMonitor.MultiTableMonitor.constructor | Modules/ChainHandler.cpp:164-165 | A monitor for a name and a space, with no tables yet |
| TableMonitor.MultiTableMonitor.Attach | Modules/ChainHandler.cpp:167-181 | One monitor per table that takes one, with its table's type and the common signals; a pointer thrown is let go, an object thrown ends it and the signals with it |
| TableMonitor.ThrownBy | Modules/ChainHandler.cpp:168-181 | The exception that ends it is that of the first table that throws an object |
| TableMonitor.ObservedTypesAre | Modules/ChainHandler.cpp:170-176 | The observed types are those of the tables that take a monitor, in order |
| TableMonitor.EventsTellDeeds | Modules/ChainHandler.cpp:128-156 | Over any run the events tell of every load, creation, deletion and modification of observed tables by its own signal, once and in order, and of nothing else |
| TableMonitor.StepRebuildsExactly | Modules/ChainHandler.cpp:128-156 | A table change keeps the replay going exactly if an ended modification finds the row's old value remembered |
| TableMonitor.LastStepToldRight | Modules/ChainHandler.cpp:141-156 | After any run it does so exactly if the table's last beginning or end before was its own beginning |
| TableMonitor.RunRebuildsExactly | Modules/ChainHandler.cpp:128-156 | Over any run, replaying rebuilds all observed tables exactly if each ended modification is the one its table last saw begin, none ended since |
| TableMonitor.NeverNestedEndsLastBegun | Modules/ChainHandler.cpp:141-156 | Modifications interleaved over tables and aborted at will, but not overlapping within a table, all are |
| TableMonitor.EventsRebuildTables | Modules/ChainHandler.cpp:120-182 | Such a run's events, from empty tables or any others, rebuild every observed table from a snapshot, and the error line is never written |
| TableMonitor.NestedIsLost | Modules/ChainHandler.cpp:141-156 | A modification inside another of its table cannot be replayed, unless the inner one is aborted and of the same row |
| TableMonitor.NestedIsUnannounced | Modules/ChainHandler.cpp:151-155 | If the inner one is carried out the outer one writes the error line |
| PluginLifecycle.ContractNode.LoadPlugin | Modules/ContractNode.cpp:62-79 | A plugin is added under its path if there is none, anything else changes nothing |
| PluginLifecycle.ContractNode.LoadPlugins | Modules/ContractNode.cpp:81-101 | The libraries and the new paths after going through a directory's files, also if that throws in the end |
| PluginLifecycle.ContractNode.SearchForPlugins | Modules/ContractNode.cpp:103-110 | The same for both directories, the second one not searched if the first search throws |
| PluginLifecycle.ContractNode.InitializePlugin | Modules/ContractNode.cpp:112-170 | Registry, monitors, watched tables and outcome of one initialisation, with the exceptions caught and not caught |
| PluginLifecycle.ContractNode.InitializePlugins | Modules/ContractNode.cpp:172-181 | The state after the loop, which drops failed plugins and ends on an escaping exception |
| PluginLifecycle.ContractNode.ScanForPlugins | Modules/ContractNode.cpp:35 | A whole pass over both directories, at start-up and on the signal, with nothing initialised if a search throws |
| PluginLifecycle.NewPaths | Modules/ContractNode.cpp:89-100 | New paths are distinct, were not loaded before, and make up the difference |
| PluginLifecycle.NewPathsInOrder | Modules/ContractNode.cpp:89-100 | New paths come in the order in which files first offer them, with those files' plugins |
| PluginLifecycle.PickedUpExactly | Modules/ContractNode.cpp:103-110 | A search picks up exactly what is not loaded and the first directory offers, or the second unless the first search throws |
| PluginLifecycle.PickedUpInOrder | Modules/ContractNode.cpp:103-110 | The first directory's paths come before the second's, each in the order of its files and with their plugins |
| PluginLifecycle.RegisteredExactly | Modules/ContractNode.cpp:124-125 | What one plugin's turn does to records and loaded spaces |
| PluginLifecycle.InitializeOneKeeps | Modules/ContractNode.cpp:125-161 | One monitor more exactly on success, of the plugin's own contract and aimed at the space that holds it; older ones stay right |
| PluginLifecycle.InitializeAllKeeps | Modules/ContractNode.cpp:172-181 | A pass over new paths keeps consistency and leaves one of them uninitialised exactly if an exception escapes |
| PluginLifecycle.ScanKeeps | Modules/ContractNode.cpp:103-110 | The same for a pass over both directories: libraries are left exactly if an exception escapes once something was found |
| PluginLifecycle.SettledCounts | Modules/ContractNode.cpp:157 | A settled node has one monitor per library |
| PluginLifecycle.PassEscapesExactly | Modules/ContractNode.cpp:172-181 | An exception escapes a pass exactly if some plugin throws uncaught or finds its space occupied at its turn; otherwise registry and libraries are as forecast |
| PluginLifecycle.PassStops | Modules/ContractNode.cpp:172-181 | An escape ends the pass at the first plugin it can come from; those after it are neither registered nor initialised nor given up |
| PluginLifecycle.KeptExactly | Modules/ContractNode.cpp:176-179 | Of its paths a pass without escape keeps exactly those that initialise at their turn |
| PluginLifecycle.PassUpTo256 | Modules/ContractNode.cpp:172-181 | With at most 256 names in the end it escapes exactly if some plugin throws uncaught |
| PluginLifecycle.SettledExactly | Modules/ContractNode.cpp:62-181 | Over any passes the node is consistent; its libraries are the initialised ones exactly if no pass that picks up plugins has a search that throws, or a plugin that throws uncaught or finds its space occupied, and then all is as forecast from records and files |
| PluginLifecycle.SettledUpTo256 | Modules/ContractNode.cpp:62-181 | With at most 256 names in the end, exactly if none picked up throws uncaught or comes of a search that throws |
| PluginLifecycle.EscapeLeavesOrphan | Modules/ContractNode.cpp:172-181 | From any consistent node, a plugin that throws uncaught stays among the libraries for ever, uninitialised and never picked up again |
| PluginLifecycle.SearchLeavesOrphans | Modules/ContractNode.cpp:81-110 | So does every plugin picked up by a search that throws |
| PluginLifecycle.InitialisedOnce | Modules/ContractNode.cpp:93-96 | No path is initialised twice, and none is forgotten |
| PluginLifecycle.EligibleExactly | Modules/ContractNode.cpp:90-98 | A path is picked up exactly if it is not loaded and a plugin is there |
| PluginLifecycle.FailedIsEligibleAgain | Modules/ContractNode.cpp:176-179 | Of a settled node a plugin is picked up again exactly if it was never initialised |
| PluginLifecycle.EscapeExactly | Modules/ContractNode.cpp:125-169 | An exception escapes exactly if the plugin or one of its tables throws it uncaught, or another contract holds its space beforehand; and when a plugin is initialised |
| PluginLifecycle.NoEscapeUpTo256 | Modules/ContractNode.cpp:125-169 | With at most 256 names only uncaught ones of the plugin or its tables can |
| PluginLifecycle.DroppedWhileLoaded | Modules/ContractNode.cpp:125-180 | An accepted plugin is given up, with its contract loaded, exactly if a table throws boost's exception |
| TypeList.IndexOf | Infra/TypeList.hpp:62-68 | The first position of a type, or -1 exactly if it is not in the list |
| TypeList.At | Infra/TypeList.hpp:94-98 | Selection by position |
| TypeList.Slice | Infra/TypeList.hpp:125-133 | The sublist of an interval |
| TypeList.ConcatUniqueKeepsFirst | Infra/TypeList.hpp:70-92 | The result is the first occurrences of all types of all lists, in order |
| TypeList.KeepsFirstKeepsAll | Infra/TypeList.hpp:239-241 | Such a result has each type of the lists once |
| TypeList.DuplicateCheckExactly | Infra/StaticVariant.hpp:51-52 | The length is preserved exactly if there are no duplicates, and then the list is |
| TypeList.TagsAreExact | Infra/TypeList.hpp:337-360 | Positions and types determine each other exactly without duplicates; a stored tag dispatches to its type |
| TypeList.FilterIsSublist | Infra/TypeList.hpp:108-116 | A filter keeps what passes, in order |
| StaticVariant.StaticVariant.Init | Infra/StaticVariant.hpp:60-70 | Tag and placed object |
| StaticVariant.StaticVariant.InitFromTag | Infra/StaticVariant.hpp:72-84 | A default object of the tag's type, or an exception and no change |
| StaticVariant.StaticVariant.Clean | Infra/StaticVariant.hpp:86-91 | The object is destroyed as the type the tag says |
| StaticVariant.StaticVariant.Default | Infra/StaticVariant.hpp:148-151 | A default object of the first type |
| StaticVariant.StaticVariant.FromValue | Infra/StaticVariant.hpp:183-186 | The given value under its type's tag |
| StaticVariant.StaticVariant.CopyOf | Infra/StaticVariant.hpp:153-166 | The source's value under its type's tag in the own list; the source is unchanged |
| StaticVariant.StaticVariant.MoveOf | Infra/StaticVariant.hpp:168-181 | The same, leaving a moved-from object of the same type |
| StaticVariant.StaticVariant.Get | Infra/StaticVariant.hpp:231-254 | The value exactly if the type is the held one |
| StaticVariant.StaticVariant.Assign | Infra/StaticVariant.hpp:190-195 | The old object destroyed, the new one placed |
| StaticVariant.StaticVariant.AssignCopy | Infra/StaticVariant.hpp:196-203 | The same from a variant; nothing for itself |
| StaticVariant.StaticVariant.AssignMove | Infra/StaticVariant.hpp:204-211 | The same, leaving a moved-from object |
| StaticVariant.StaticVariant.SetWhich | Infra/StaticVariant.hpp:328-337 | A default object of the new type, or an exception before anything is destroyed |
| VariantRuns.StepIsSound | Infra/StaticVariant.hpp:131-337 | A step is defined exactly unless it assigns a variant its own object or a part of it, keeps the lifetime discipline, and means what it does to plain values |
| VariantRuns.StepsAreMethods | Infra/StaticVariant.hpp:131-337 | Each step of a run leaves cells and variant as the class's method does |
| VariantRuns.AssignmentGives | Infra/StaticVariant.hpp:196-211 | Copy and move assignment give the target the source's value; a copy keeps the source, a move leaves a moved-from object |
| VariantRuns.RunMeansTheSame | Infra/StaticVariant.hpp:131-337 | Over any run the tagged storage behaves like plain values |
| VariantRuns.NothingLeaks | Infra/StaticVariant.hpp:86-91 | When all variants are gone every object was destroyed once, as the type placed |
| VariantRuns.TagIsPosition | Infra/StaticVariant.hpp:60-84 | The tag is the position of the held type |
| VariantRuns.ImportBack | Infra/StaticVariant.hpp:131-159 | Converting to more types and importing back gives tag and value back and changes nothing else |
| VariantRuns.EqualIsSameHolding | Infra/StaticVariant.hpp:213-221 | Variants compare equal exactly if they hold the same value of the same type |
| VariantRuns.LessIsStrictTotalOrder | Infra/StaticVariant.hpp:222-229 | Variants are strictly and totally ordered if their objects are, in agreement with equality |
| VariantRuns.LessIsByTypeThenObject | Infra/StaticVariant.hpp:222-229 | Of different types the earlier in the list is less; of one type the objects decide |
| Modular.WalkIsFold | Infra/Modular.hpp:56-78 | For every accumulator the walk is a left fold over the pre-order listing |
| Modular.WalkLists | Infra/Modular.hpp:80-84 | The listing accumulator gives the listing |
| Modular.ListingIsPreOrder | Infra/Modular.hpp:56-75 | The listing has the end of every route of submodules once, in pre-order, with the demarcations along it |
| Modular.ListingHasWhatPathsLeadTo | Infra/Modular.hpp:68-75 | The listing has exactly the modules that chains of demarcations lead to |
| Modular.FetchFindsWhatIsListed | Infra/Modular.hpp:86-97 | The listing has a module under a path exactly if the path fetches it and names submodules all along |
| Modular.FetchedYetNotListed | Infra/Modular.hpp:86-97 | A method not demarcated as a submodule is fetched and never listed |
| Modular.PathsDifferExactly | Infra/Modular.hpp:68-75 | Paths are listed once exactly if siblings' demarcations differ throughout |
| SplitString.SplitYieldsMaximalRuns | Infra/Utilities.hpp:49-68 | The parts are exactly the maximal non-empty delimiter-free runs, in order |
| SplitString.SplitOfJoin | Infra/Utilities.hpp:49-68 | Splitting a join is splitting each part |
| SplitString.SplitUndoesJoinExactly | Infra/Utilities.hpp:49-68 | Splitting undoes joining exactly for parts that are non-empty and free of the delimiter |
| ApiManager.CategorizationsMatch | Infra/ApiManager.hpp:172-182 | One category matches another exactly if it is a prefix of it |
| ApiManager.SameStrings | Infra/Utilities.hpp:70-76 | Equal position by position |
| ApiManager.MatchesAreThese | Infra/ApiManager.hpp:170-229 | Exact and inexact matches are these sublists of the advertisements, in order |
| ApiManager.BlankQueryMatches | Infra/ApiManager.hpp:223-225 | A query of nothing but delimiters has no exact match and all advertisements as inexact ones |
| ApiManager.MatchesOwnCategoryExactly | Infra/ApiManager.hpp:170-182 | The exact matches are in the query's own category exactly if no API of that name is in one below it |
| ApiManager.FullPathFindsExactly | Infra/ApiManager.hpp:184-191 | Which APIs their own full path matches exactly, for every category and name |
| ApiManager.FullPathFinds | Infra/ApiManager.hpp:209-229 | An API with proper category and name is among the exact matches of its full path |
| ApiManager.AllocatesExactly | Infra/ApiManager.hpp:240-252 | A query that names an API allocates it exactly if it names no other and begins no API's category |
| ApiManager.FullPathAllocatesExactly | Infra/ApiManager.hpp:240-252 | Which APIs their own full path allocates, for every list of advertisements |
| ApiManager.WalkAdvertises | Infra/ApiManager.hpp:161-168 | Collected advertisements are the tree's listing cut down to modules that have any |
| ApiManager.AdvertisedExactly | Infra/ApiManager.hpp:161-168 | Collected is, for every module that a path leads to, just what it advertises, if it does |

## Left out

- P2pHandler.P2pHandler.GetBlockchainSynopsis: requires that the loop does not go on for ever, which is exact (`HalvingLoop.ExitsExactly`, `HalvingLoop.ZeroExactly`).
- P2pHandler.P2pHandler.Halve: requires the same.
- P2pHandler.P2pHandler.ReceiveBlock: leaves out listeners of the finished signal that throw, which changes neither the flag nor the signals; the hash of a message is an input.
- PluginLifecycle.ContractNode.ScanForPlugins: takes the searches as they would go when the pass starts, and passes do not interleave.
- VariantRuns.StepIsSound: leaves out element operations that throw, after which a variant's storage is empty under its old tag. Moving out of a part of another variant's object is a copy followed by `Alter`.
- TableMonitor.EventsRebuildTables: leaves out graphene's undo, which changes tables in ways not shown here.
- TableMonitor.MultiTableMonitor.Attach: is called on a monitor just constructed; what emitting on destroyed signals does is undefined.
- Visitors of a variant, which only dispatch on its tag.
- The destructor of the multi-table monitor, which takes its table monitors off again.
- Sockets, threads, the network layer's own logic, signatures and hashing.
- Genesis creation, JSON, paths, and opening and flushing of databases.
- Loading of shared libraries, log lines, dumping of databases, the exit promise.
- The runtime side of the API manager, which the source declares without bodies, its reflection macros, and the static allocator's refusal of allocators with arguments.
