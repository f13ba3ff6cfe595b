# Ellipticoin: contracts, blocks, stores and wire formats

This project models the parts of the Ellipticoin node in which several pieces of code have to agree, and proves
what that agreement amounts to. `dafny verify dfyconfig.toml` checks all of it.

**Contracts and blocks** (`Bytes`, `Overlay`, `Machine`, `MachineFacts`, `MachineTheorems`, `Atomicity`,
`SoleContracts`, `TrapExample`, `PlainMachine`, `FlatBlock`, `Vm`, `Processor`). A transaction runs a Wasm contract,
which reads and writes a two-layer overlay, pays gas and calls other contracts on the same overlays. `Machine` is the
specification: a contract is an arbitrary step machine (the record `Host` holds the interpreter, the codec and the
stores below), and an execution yields an exit, the shared state and a trace of everything it did. `Vm` and
`Processor` hold the same thing as the program has it, objects updated in place, proved against `Machine`.
`MachineFacts` reads traces one event at a time, independently of how they came about, and shows by induction over the
call tree that the trace explains the state. Everything else about calls follows from that: what survives, what is
paid, who is touched, when it stops. `PlainMachine` and `FlatBlock` are independent references: contracts executed one
instruction at a time with an explicit stack, and blocks as one growing list of writes; the recursion and the block
fold arrive at the same.

**The versioned store** (`BlockIndex`, `Reorganisation`, `Chain`, `Redis`). Per key a newest-first list of block
numbers and a hash from block number to position counted from the oldest end. The reference is a plain stack of
snapshots, one per block; `Represents` relates the two, allows orphaned values and stale positions, and is kept by
every set, every flush and every revert within its exact condition. `Chain` puts whole runs together and connects
block execution with what both readers return afterwards. `Redis` has the store as it lies in one space of names in
which commands fail on the wrong type, updated in place, and shows that it goes through the same states as long as no
key is another one followed by `_index`.

**The message codec** (`Words`, `Varint`, `Wire`, `Messages`). The generated Go code is proved against a grammar of
Protocol Buffers records (Encoding guide: Base 128 Varints, Message Structure, Groups, Last One Wins) in which tags
and lengths may be longer than necessary: the skipper and `Unmarshal` accept exactly that grammar.

**Smaller protocols.** `Framing`: length-prefixed messages under any chunking. `Transcoding` and
`TranscodingTheorems`: Rustler's encoders and decoders over a universe of types, with the exact condition for a
round trip. `OwnedEnvironments`: saved terms and environment generations. `ProofOfWork`: the nonce search against
its verifier, and the part of a block that both hash.

Where the code falls short of what one would expect, the model follows the code, and an example stands beside the
exact condition:

- A transaction that traps can leave committed writes behind, its own included, because a call that returned inside
  it has committed the overlays they share (`TrapExample.TrapKeepsCommittedWrites`). A call changes nothing exactly when
  the last surviving write of every key wrote what was there (`Atomicity.CallChangesNothingExactly`), and a contract
  whose code calls no other is atomic (`SoleContracts.SolitaryCallIsAtomic`).
- The price of a write is computed in u32. In release builds, which `mix.exs:38-41` selects in production, it wraps
  around (`PriceWraps`); other builds panic instead. `PriceExactWhenItFits` says for which sizes.
- The reorganisation test describes a revert as returning to the state of an earlier block
  (`test/transaction_processor/block_reorganization_test.exs:42-53`). The code does this exactly when every key it
  goes over has a recorded position for that block that keeps as many entries as the key has up to it, and no other
  key has an entry above it (`RevertRestoresExactly`). Outside the condition it crashes or follows a stale position
  (`RevertCrashesOnUnwrittenKey`, `StalePositionKeepsLaterBlock`), and can tell a block that was flushed twice
  (`StaleRevertSeesDoubleFlush`). A revert of storage goes over the keys of memory (`StorageRevertSkipsStorageKeys`).
- Contracts choose their keys, and a key that is another one followed by `_index` breaks that one's index
  (`Redis.IndexNamedKeyBreaks`, `Redis.SetShowsExactly`).
- `readMessage` takes the header with a single read and does not look at how much came; it takes off what was written
  exactly when that read finds all four bytes (`ReadBackExactly`, `CutHeaderIsMisread`).
- `split_messages` puts the last message first, so it keeps the order only of equal messages (`OrderKeptExactly`).
- Options of booleans and options of options do not survive Rustler's encoding (`BooleanAndNestedOptionsAreLost`).

## Model

| member | source | states |
|---|---|---|
| Bytes.RightPadVec | native/vm/src/helpers.rs:16-24 | padding never shortens and fills with zeros up to the length |
| Bytes.PaddingEqualExactlyUpToZeros | native/vm/src/helpers.rs:16-24 | two short addresses pad to the same bytes if and only if they differ only in trailing zeros |
| Bytes.LittleEndianRoundTrip | native/vm/src/helpers.rs:8-14 | fixed-width little-endian bytes give the number back |
| Bytes.LittleEndianConcat | native/vm/src/helpers.rs:8-14 | every byte counts 256 times as much as the one before it |
| Overlay.SurvivorsDecide | native/vm/src/memory.rs:59-70 | for every log of sets, commits and rollbacks, the committed layer holds the last write of each key whose next switch is a commit, else its old value; the working layer holds the last write with no switch after it |
| Overlay.SegmentsRefine | native/vm/src/memory.rs:63-70 | running a log equals writing one by one exactly the writes of the segments that end in a commit |
| Overlay.NoCommitNoChange | native/vm/src/storage.rs:69-80 | without a commit the committed layer stays as it was |
| Overlay.UnchangedExactly | native/vm/src/memory.rs:59-70 | a log leaves the committed layer as it was if and only if the last surviving write of every key wrote what the key held |
| Overlay.ReadsLastSurvivor | native/vm/src/memory.rs:43-57 | after any log, with anything pending, a read returns a value if and only if it is what the last surviving write of the key wrote or, if none survives, what the changeset or the base held |
| Overlay.Store.Get | native/vm/src/memory.rs:43-57 | a key in the changeset reads as there, any other as in the base; the working changeset is not consulted |
| Overlay.Store.Set | native/vm/src/storage.rs:69-71 | a write goes to the working layer only |
| Overlay.Store.Commit | native/vm/src/memory.rs:63-66 | the working layer is laid over the committed one and emptied |
| Overlay.Store.Rollback | native/vm/src/storage.rs:78-80 | the working layer is emptied and nothing else changes |
| MachineFacts.GasConserved | native/vm/src/vm/gas.rs:5-15 | along any legal trace the gas left is the gas given minus the accepted charges, and unmetered stays unmetered |
| MachineFacts.InstructionsArePaid | native/vm/src/vm/externals.rs:150-153 | no more instructions run than gas is paid |
| MachineFacts.InvokeFacts | native/vm/src/vm/externals.rs:150-185 | the trace of any execution of an instance is legal and explains its final state, its writes stay in the namespaces of contracts entered, its nesting is at most its instructions |
| MachineFacts.CallFunctionFacts | native/vm/src/vm/call.rs:7-31 | the same for a call with argument passing, commit and rollback |
| MachineFacts.ExternalCallFacts | native/vm/src/vm/externals.rs:91-127 | the same for a nested call seen from its caller, which stands one level above |
| MachineTheorems.CallLeavesSurvivors | native/vm/src/vm/call.rs:7-31 | for every call tree, both changesets end up as the initial ones overlaid by the last surviving write of each key, memory and storage switching together |
| MachineTheorems.ReadsSeeCommitted | native/vm/src/memory.rs:43-57 | every read anywhere in the tree returned what the last write before it wrote whose next switch, also before it, is a commit, or else the initial or base value |
| MachineTheorems.HostFunctionsDo | native/vm/src/vm/externals.rs:51-89 | each of the four host functions: its reply, the one overlay and padded key it touches and how, and its charge in units per byte, or out of gas with nothing done |
| MachineTheorems.NothingCommittedNothingChanged | native/vm/src/vm/call.rs:23-27 | a call in whose tree nothing committed leaves both changesets unchanged, however it ends |
| MachineTheorems.WhatStaysPending | native/vm/src/vm/call.rs:9-16 | a failure to pass arguments leaves pending writes pending; any other answered call leaves none |
| Atomicity.AnswerTellsSwitch | native/vm/src/vm/call.rs:9-27 | a call answered with what the contract returned ends by committing, one that trapped in its function by rolling back, one that trapped before by neither |
| SoleContracts.SolitaryCallIsAtomic | native/vm/src/vm/call.rs:17-27 | a contract whose reachable program points hold no call commits all its writes in order and is answered with what it returned, or commits none and is answered with a trap, for every transaction in every state |
| Atomicity.CallChangesNothingExactly | native/vm/src/vm/call.rs:7-31 | any call, whatever it calls and however it ends, leaves both changesets unchanged if and only if the last surviving write of every key in its tree wrote the value the key had |
| TrapExample.TrapKeepsCommittedWrites | native/vm/src/vm/call.rs:18-27 | a contract that writes, calls another and traps is answered with a trap while its write is committed |
| MachineTheorems.AnswersRoundTrip | native/vm/src/result.rs:19-40 | an answer written as bytes is read back, as far as the value codec inverts itself |
| MachineTheorems.CallConservesGas | native/vm/src/vm/gas.rs:5-15 | from gas g a call tree, trapped sub-calls included, leaves g minus all accepted charges |
| MachineTheorems.SettlementIsExact | native/vm/src/vm/externals.rs:115-126 | the closing charge never fails, equals what the callee's tree paid and leaves the caller the callee's leftover; an unmetered caller never gets a reply |
| MachineTheorems.PriceExactWhenItFits | native/vm/src/vm/externals.rs:51-89 | the u32 price is the list price if and only if the list price fits in u32 |
| MachineTheorems.PriceWraps | native/vm/src/gas_costs.rs:1-5 | 858994 bytes of memory are charged 2704 units |
| MachineTheorems.GasBoundsWork | native/vm/src/vm/externals.rs:59-89 | instructions plus the list price of all bytes written are at most the gas given, if no single write's price overflows |
| MachineTheorems.MeteredCallsTerminate | native/vm/src/vm/externals.rs:91-153 | with gas g every call tree ends, with at most g instructions and nesting at most g |
| MachineTheorems.CallFunctionSame | native/vm/src/vm/call.rs:7-31 | the recursion bound does not influence the outcome once it suffices |
| PlainMachine.CallIsMachineRun | native/vm/src/vm/externals.rs:51-185 | a call, with everything it sets off, is what a machine halts with that executes one instruction at a time with a stack of callers and a single gas meter |
| PlainMachine.CallEndsExactly | native/vm/src/vm/call.rs:7-31 | a call comes to an answer in a world if and only if that machine halts with them |
| PlainMachine.GetsReplyCommitted | native/vm/src/vm/externals.rs:51-57 | at every point of a run, the reply of a get that the contract resumes with is the value committed at that point under its own padded address, in the overlay asked for |
| PlainMachine.MeteredMachineHalts | native/vm/src/vm/externals.rs:91-153 | with gas g the machine halts within 3g + 1 steps and never has more than g callers suspended |
| MachineTheorems.OutsidersKeepTheirState | native/vm/src/vm/externals.rs:129-135 | a key outside the namespaces of the contracts that ran keeps its committed value in memory and storage |
| MachineTheorems.NamespacesOverlapExactly | native/vm/src/vm/externals.rs:129-135 | two namespaces share a key if and only if one padded address is a prefix of the other |
| MachineTheorems.ShortAddressesOverlapExactly | native/vm/src/vm/externals.rs:129-135 | addresses of at most 64 bytes share a key if and only if they differ only in trailing zeros; distinct ones without a trailing zero never do |
| Vm.VM.TakeGas | native/vm/src/vm/gas.rs:5-15 | gas is taken if it suffices and left alone otherwise |
| Vm.VM.HostFunction | native/vm/src/vm/externals.rs:51-89 | the four host functions charge, read and write as specified, writes only after they are paid |
| Vm.VM.InvokeExport | native/vm/src/vm/externals.rs:150-185 | the interpreter's loop with its callbacks ends as specified, in the specified shared state |
| Vm.VM.WriteArguments | native/vm/src/vm/call.rs:8-16 | arguments are passed in order; a trap on the way is reported as out of gas with nothing switched |
| Vm.VM.Call | native/vm/src/vm/call.rs:7-31 | a call ends with the specified answer and shared state: committed on return, rolled back on a trap |
| Vm.VM.CallExternal | native/vm/src/vm/externals.rs:91-127 | a nested call on the caller's own overlay objects has the specified effect on them and on the caller's gas |
| Processor.RunIsCall | native/vm/src/transaction.rs:42-70 | a run is the call of the code under the padded address, with the narrowed limit; without code it is answered with code 2 and nothing changes; it dies if and only if the code cannot be instantiated or the call does not come to an answer |
| Processor.TransactionWrites | native/transaction_processor/src/main.rs:149-191 | a transaction writes exactly what the calls it consists of commit: memory its run's and then its gas payment's, storage its run's only; the process dies if and only if one of them does not come to an answer |
| Processor.DeployWrites | native/transaction_processor/src/system_contracts.rs:18-71 | deploying stores the code under the padded sender and name whatever the constructor does, then adds what the constructor call commits; other system transactions change nothing |
| Processor.BlockIsFlat | native/transaction_processor/src/main.rs:43-72 | a block's changesets are all writes of its calls applied one by one, each transaction starting on the flat maps written so far, and every transaction is completed in order with the answer it gives there |
| Processor.AnswerOnEarlierWrites | native/transaction_processor/src/main.rs:58-70 | the i-th recorded answer is that of the i-th transaction on the writes of the ones before it |
| Processor.CompletedInOrder | native/transaction_processor/src/main.rs:58-71 | every transaction is completed once, in order |
| Processor.FuelDoesNotMatter | native/transaction_processor/src/main.rs:43-72 | two recursion bounds that suffice for a block give the same block |
| Processor.AmountIsGasPaid | native/transaction_processor/src/main.rs:169-184 | for every u64 gas limit the subtraction does not underflow and the u32 amount transferred is the gas that the contract call paid |
| Processor.OrdinaryExactly | native/transaction_processor/src/main.rs:166-189 | an ordinary transaction on an existing contract is a metered call of it and an unmetered call of the pre-block token code that moves exactly the gas paid from the sender to the winner; answer and storage come from the first, memory from the second |
| Processor.MissingExactly | native/vm/src/transaction.rs:49-58 | on a missing contract the answer has code 2 and a payment of nothing is made |
| Processor.BlockProcess.Run | native/vm/src/transaction.rs:42-70 | a metered run yields the specified changesets, answer and gas left |
| Processor.BlockProcess.RunSystemContract | native/transaction_processor/src/system_contracts.rs:18-71 | system transactions yield the specified changesets and answer |
| Processor.BlockProcess.PayForGas | native/transaction_processor/src/system_contracts.rs:73-113 | the transfer runs unmetered on the block's memory changeset and an empty storage changeset; only memory is kept |
| Processor.BlockProcess.RunOne | native/transaction_processor/src/main.rs:149-191 | one transaction extends both changesets as specified |
| Processor.BlockProcess.ProcessExistingBlock | native/transaction_processor/src/main.rs:43-72 | the loop over a block yields the specified changesets and completed transactions |
| BlockIndex.NamesCollideExactly | lib/ellipticoind/block_index.ex:2-41 | Redis names of lists and indexes collide if and only if they are of one prefix and the list's key is the other followed by `_index` |
| BlockIndex.NamesSpelled | lib/ellipticoind/block_index.ex:28-41 | the names of lists and indexes under both prefixes |
| BlockIndex.HashKeyInjective | lib/ellipticoind/memory.ex:21-30 | values of different blocks or keys never share a hash field |
| Reorganisation.EmptyRepresents | lib/ellipticoind/memory.ex:21-30 | the empty store represents the empty stack, from which every reachable state starts |
| Reorganisation.GetIsTop | lib/ellipticoind/memory.ex:21-30 | reading the store is reading the top of the stack of snapshots |
| Reorganisation.SetRepresents | lib/ellipticoind/memory.ex:45-58 | a set, of memory or of storage, is a write into the snapshot of its block |
| Reorganisation.FlushRepresents | lib/ellipticoind/memory.ex:32-36 | flushing a changeset is one write of all of it into the snapshot of its block |
| Reorganisation.FlushTwiceIsOnce | lib/ellipticoind/transaction_processor.ex:36-38 | flushing a memory or storage changeset again, in another order, represents the same history |
| Reorganisation.TrimIsBelowExactly | lib/ellipticoind/block_index.ex:6-10 | a trim keeps exactly the entries up to the block if and only if their number fits the position |
| Reorganisation.RevertNeverEmpties | lib/ellipticoind/block_index.ex:6-10 | no position, stale or not, lets a revert empty a list |
| Reorganisation.RevertKeyByKey | lib/ellipticoind/block_index.ex:2-12 | a revert trims each key by itself up to the first without a position for the block, where it crashes and leaves the rest alone |
| Reorganisation.LiveIsRevertible | lib/ellipticoind/block_index.ex:2-12 | a block that is live in a key's list can be reverted to, stale positions and duplicates notwithstanding |
| Reorganisation.RevertRestoresExactly | lib/ellipticoind/block_index.ex:2-12 | a revert of memory or storage, over any keys, completes and leaves the popped stack if and only if each of these keys has a position that keeps as many entries as it has up to the block, and no other key has an entry above it |
| Reorganisation.MemoryRevertRestoresExactly | lib/ellipticoind/block_index.ex:2-12 | for memory, whose reverts go over all its keys, the condition on those keys alone is exact |
| Chain.ReadersAgree | native/vm/src/storage.rs:59-89 | after any run, with blocks in any order and reverts that follow stale positions or crash half way, the Rust and Elixir readers agree on every key and the sentinel for a missing entry is only returned where it was stored |
| Chain.NeverSetReadsEmpty | native/vm/src/memory.rs:49-79 | after any run, a key that was never set reads empty on both sides, although Rust falls back to block 0 |
| Chain.StoreIsSnapshotStack | lib/ellipticoind/block_index.ex:2-41 | over any run of sets, flushes and reverts that meet the exact condition, no revert crashes and both readers see the top of a plain stack of snapshots |
| Chain.SameHistorySameFuture | lib/ellipticoind/block_index.ex:2-41 | stores of the same history, whatever else they still hold, cannot be told apart by a later run whose reverts meet the exact condition in both |
| Chain.LiveRunsFit | lib/ellipticoind/block_index.ex:2-12 | reverts over the known keys to blocks at which all were written meet the condition in every store of that history |
| Chain.DoubleFlushUnobservable | lib/ellipticoind/models/block.ex:99-105 | flushing a received block's memory or storage changeset twice cannot be told from once by a later run whose reverts go to live blocks, or meet the exact condition in both stores |
| Chain.StaleRevertSeesDoubleFlush | lib/ellipticoind/block_index.ex:4-10 | an example outside the condition: a revert by a stale position reads one value after a single flush and another after a double one |
| Chain.PopBringsBack | lib/ellipticoind/block_index.ex:2-12 | popping to a block restores the view recorded for it and the stack below |
| Chain.RevertCrashesOnUnwrittenKey | lib/ellipticoind/block_index.ex:4-8 | an example outside the condition: a revert to a block at which one key was not written crashes |
| Chain.StalePositionKeepsLaterBlock | lib/ellipticoind/block_index.ex:4-10 | an example outside the condition: a stale position leaves the value of a later block readable |
| Chain.StorageRevertSkipsStorageKeys | lib/ellipticoind/block_index.ex:2-12 | reverting storage walks the memory keys, so other storage keys keep their value |
| Chain.FlatReadIsOverlayRead | native/vm/src/memory.rs:43-66 | reading through a changeset is reading a flat map to which its writes were applied |
| Chain.BlockReadsAsFlatMap | native/transaction_processor/src/main.rs:43-72 | executing any block and flushing its changesets, in any order, makes readable what applying the writes of its calls one by one to flat maps would |
| Redis.SetShowsExactly | lib/ellipticoind/memory.ex:45-58 | in the one space of Redis names, a set does what it does to separate lists and indexes if and only if neither its key nor a key in use is the other followed by `_index` |
| Redis.ReadShowsExactly | lib/ellipticoind/memory.ex:21-30 | both readers return what the separate lists say if and only if the key is not a used one followed by `_index`; otherwise both crash |
| Redis.RevertShows | lib/ellipticoind/block_index.ex:2-12 | a revert does to Redis exactly what it does to the separate lists, crashes included |
| Redis.RunRefines | lib/redis.ex:177-347 | over any run whose keys are apart, Redis goes through the states, completed or crashed, of the separate lists |
| Redis.DatabaseIsSnapshotStack | lib/ellipticoind/block_index.ex:2-41 | over any run from empty with keys that are apart and reverts within the exact condition, nothing crashes and both readers see the top of a plain stack of snapshots |
| Redis.DatabaseReadersAgree | native/vm/src/memory.rs:49-79 | over any run from empty with keys that are apart, both readers answer and agree |
| Redis.IndexNamedKeyBreaks | lib/redis.ex:249-281 | for every key: set after its `_index` namesake it has no position and no revert over it completes; set before it, the namesake's set crashes |
| Redis.StepKeepsOther | lib/ellipticoind/storage.ex:39-42 | nothing done to memory changes storage, nor the other way round, crashes and clashes included |
| Redis.Database.Push | lib/redis.ex:270-281 | pushes onto a list and does nothing to a name of another type |
| Redis.Database.IndexAdd | lib/ellipticoind/block_index.ex:28-41 | pushes the block and records its position from the oldest end, or crashes on a name of another type |
| Redis.Database.SetValue | lib/ellipticoind/memory.ex:45-58 | a set updates index, key set and value, or storage's value, as specified, up to where it crashes |
| Redis.Database.GetValue | lib/ellipticoind/memory.ex:21-30 | the value filed under the newest block, or a crash |
| Redis.Database.WriteAllEntries | lib/ellipticoind/memory.ex:32-36 | the entries are set one after the other |
| Redis.Database.Revert | lib/ellipticoind/block_index.ex:2-12 | every recorded key is trimmed by its recorded position, up to the one on which the revert crashes |
| Varint.EncodeIsVarint | native/noise/ellipticoin.pb.go:522-530 | every uint64 becomes a varint of one to ten bytes that stands for it, as many as `sov` says |
| Varint.NoVarintIsShorter | native/noise/ellipticoin.pb.go:566-575 | no varint of the same value is shorter |
| Varint.ReadVarintExactly | native/noise/ellipticoin.pb.go:673-689 | the decode loop yields a value and an end if and only if the bytes up to there are a varint of that value |
| Varint.ReadFailsExactly | native/noise/ellipticoin.pb.go:675-688 | it overflows if and only if ten bytes go on, and hits the end if and only if all that is left, less than that, goes on |
| Varint.EncodedReadsBack | native/noise/ellipticoin.pb.go:673-689 | an encoded value is read back whatever surrounds it |
| Words.OrIsSum | native/noise/ellipticoin.pb.go:684 | the bitwise or of a word below a shift and one shifted by it is their sum |
| Varint.RoundIsSum | native/noise/ellipticoin.pb.go:675-688 | in each round of the decode loop shift and or add the next seven bits modulo 2^64 |
| Varint.SovMethod | native/noise/ellipticoin.pb.go:566-575 | the loop counts the bytes of the shortest varint |
| Varint.EncodeVarint | native/noise/ellipticoin.pb.go:522-530 | the varint is written in place and no other byte changes |
| Varint.ReadVarintLoop | native/noise/ellipticoin.pb.go:673-689 | the loop, with its 64-bit shift and or, decodes as specified, for every input |
| Wire.Skip | native/noise/ellipticoin.pb.go:843-947 | the skipper panics only on empty input and a success is a positive length, despite 64-bit wrap-around |
| Wire.SkipExactly | native/noise/ellipticoin.pb.go:843-947 | the skipper accepts n bytes if and only if they are one record of the grammar, groups nested arbitrarily |
| Wire.SkipComplete | native/noise/ellipticoin.pb.go:843-947 | a well-formed record is skipped whole, whatever follows it |
| Wire.SkipSound | native/noise/ellipticoin.pb.go:843-947 | what is skipped within the input is a well-formed record |
| Wire.SkipDependsOnSkippedBytes | native/noise/ellipticoin.pb.go:843-947 | an answer within the input depends on the skipped bytes only |
| Messages.UnmarshalComplete | native/noise/ellipticoin.pb.go:669-755 | any sequence of acceptable records is unmarshalled, unknown ones skipped whole, the last field 1 winning |
| Messages.UnmarshalSound | native/noise/ellipticoin.pb.go:669-755 | whatever is unmarshalled is such a sequence |
| Messages.UnmarshalExactly | native/noise/ellipticoin.pb.go:669-755 | success with given contents if and only if the input is a sequence of acceptable records whose last field 1 they are |
| Messages.UnmarshalStops | native/noise/ellipticoin.pb.go:669-755 | an error is raised at the first position, after acceptable records, where no other begins; the last field 1 before it stays in the message |
| Messages.FieldErrors | native/noise/ellipticoin.pb.go:689-750 | which error it is, by the tag at that position and what follows it, outside groups |
| Messages.FieldNumberExactly | native/noise/ellipticoin.pb.go:689 | the field number is the signed 32-bit number that agrees with the tag shifted by three |
| Messages.RoundTrip | native/noise/ellipticoin.pb.go:474-496 | a marshalled message has the announced size and unmarshals to itself |
| Messages.SkipMethod | native/noise/ellipticoin.pb.go:843-947 | the loops of the skipper compute the specified result and terminate |
| Messages.Message.SizeMethod | native/noise/ellipticoin.pb.go:540-551 | the size of the marshalled message |
| Messages.Message.MarshalTo | native/noise/ellipticoin.pb.go:484-496 | writes exactly `Size` bytes at the front of the buffer and leaves the rest alone |
| Messages.Message.MarshalMethod | native/noise/ellipticoin.pb.go:474-482 | the allocated buffer is filled exactly |
| Messages.Message.UnmarshalMethod | native/noise/ellipticoin.pb.go:669-755 | error and contents are as specified, fields read before an error staying in place |
| Framing.SplitExactly | lib/p2p/transport/libp2p.ex:122-149 | a delivery ends with given messages if and only if chunk and mailbox carry frames, completed at a chunk's end, whose payloads they are, the last one first |
| Framing.DeliveredOnce | lib/p2p/transport/libp2p.ex:128-136 | every payload is delivered exactly once |
| Framing.OrderKeptExactly | lib/p2p/transport/libp2p.ex:128-136 | the order is kept if and only if all payloads are equal |
| Framing.SessionDelivers | lib/p2p/transport/libp2p.ex:83-87 | a stream cut into complete deliveries is delivered in full |
| Framing.ReadBackExactly | native/libp2p/libp2p.go:84-92 | however the stream is cut, the written message and nothing else is taken off it if and only if the message is below 2^32 bytes and the first read finds the whole header |
| Framing.ReadsAnyStream | native/libp2p/libp2p.go:84-92 | what is read off any stream, header and body filled up with zeros where it is short, and what stays behind |
| Framing.CutHeaderIsMisread | native/libp2p/libp2p.go:84-92 | an example outside the condition: with the header cut after one byte an empty message is read and part of the frame stays behind |
| Framing.Pipe.WriteMessage | native/libp2p/libp2p.go:26-31 | appends the frame of the message in two writes |
| Framing.Pipe.ReadMessageMethod | native/libp2p/libp2p.go:84-92 | reads as specified, the header with a single read |
| Framing.Pipe.ReadFullMethod | native/libp2p/libp2p.go:88-90 | reads on until the buffer is full or the stream ends, the rest staying zero |
| Transcoding.CastInRange | priv/rustler/rustler/src/types/primitive.rs:5-35 | narrowing casts keep every value of the type |
| Transcoding.NarrowingAcceptsMore | priv/rustler/rustler/src/types/primitive.rs:5-35 | a byte decoder turns 300 into 44 |
| Transcoding.EncodeStruct | priv/rustler/rustler_codegen/src/ex_struct.rs:86-114 | the generated puts build the specified map |
| Transcoding.ListIterator.Next | priv/rustler/rustler/src/types/list.rs:56-78 | yields the head and moves to the tail, ends at the empty list, panics at an improper tail |
| Transcoding.DecodeVec | priv/rustler/rustler/src/types/list.rs:105-114 | collecting over the iterator decodes the list up to the first failure |
| TranscodingTheorems.RoundTrip | priv/rustler/rustler/src/types/mod.rs:57-117 | every value of an unambiguous type comes back |
| TranscodingTheorems.FaithfulExactly | priv/rustler/rustler/src/types/mod.rs:57-117 | all values of a type come back if and only if options hold payloads rejecting nil, unit atoms are distinct, no untagged variant shadows a later one and no struct field takes the place of the module key |
| TranscodingTheorems.FaithfulIsUnambiguous | priv/rustler/rustler_codegen/src/untagged_enum.rs:33-86 | the conditions are necessary, in every nested position |
| TranscodingTheorems.EncodeStandsFor | priv/rustler/rustler/src/types/mod.rs:57-98 | the term every encoder writes: atoms, tagged tuples, list cells, and a struct's map with exactly its fields and module |
| TranscodingTheorems.LeavesDecodeExactly | priv/rustler/rustler/src/types/primitive.rs:5-66 | which terms the integer and boolean decoders take for which values |
| TranscodingTheorems.StructIsTuple | priv/rustler/rustler_codegen/src/ex_struct.rs:51-114 | a derived struct decodes to what its fields as a tuple would if its map still names the module, and is rejected otherwise |
| TranscodingTheorems.RecordIsTuple | priv/rustler/rustler_codegen/src/record.rs:42-121 | a derived record decodes to what its fields as a tuple would |
| TranscodingTheorems.FirstAtomFinds | priv/rustler/rustler_codegen/src/unit_enum.rs:44-76 | a unit variant comes back if and only if no earlier one has its atom |
| TranscodingTheorems.FirstVariantFinds | priv/rustler/rustler_codegen/src/untagged_enum.rs:33-60 | an untagged variant is found if and only if every earlier one fails and its own decoder does not |
| TranscodingTheorems.OptionTells | priv/rustler/rustler/src/types/mod.rs:57-85 | an option that always comes back has a payload that rejects nil |
| TranscodingTheorems.BooleanAndNestedOptionsAreLost | priv/rustler/rustler/src/types/mod.rs:69-85 | options of booleans and options of options lose values |
| OwnedEnvironments.LoadIsSafeExactly | priv/rustler/rustler/src/env.rs:233-278 | over any run, a load succeeds if and only if the environment has not been cleared, sent or dropped since the save and is the one behind the pointer, reused pointer values notwithstanding |
| OwnedEnvironments.RunExplained | priv/rustler/rustler/src/env.rs:143-278 | environments, generations and saved terms after any run are what its history says |
| OwnedEnvironments.Environments.NewEnv | priv/rustler/rustler/src/env.rs:145-149 | allocates an environment with a generation of its own |
| OwnedEnvironments.Environments.SaveTerm | priv/rustler/rustler/src/env.rs:233-238 | keeps a weak reference to the current generation |
| OwnedEnvironments.Environments.ClearEnv | priv/rustler/rustler/src/env.rs:197-203 | replaces the generation, keeping the pointer |
| OwnedEnvironments.Environments.SendAndClear | priv/rustler/rustler/src/env.rs:172-187 | replaces the generation unless the thread is managed |
| OwnedEnvironments.Environments.DropEnv | priv/rustler/rustler/src/env.rs:241-247 | frees the environment and its generation |
| OwnedEnvironments.Environments.LoadTerm | priv/rustler/rustler/src/env.rs:269-278 | succeeds only for a live generation behind the same pointer |
| ProofOfWork.MinimalExactly | native/hashfactor/src/main.rs:59-65 | the nonce bytes are the only ones of the nonce that are [0] or do not end in zero |
| ProofOfWork.MinimalLength | native/hashfactor/src/main.rs:59-65 | one byte below 256, and above as many as the nonce needs |
| ProofOfWork.ValidNonceExactly | lib/hashfactor.ex:28-36 | a nonce is valid if and only if the first eight digest bytes, of the data's digest followed by those bytes, are a multiple of the target plus one |
| ProofOfWork.Hashfactor | native/hashfactor/src/main.rs:32-49 | what the search finds is the least nonce at or above its start that the Elixir verifier accepts, or, if it has wrapped around, the least of all when none from the start on is accepted |
| ProofOfWork.HashedViewExactly | lib/ellipticoind/views/block_view.ex:6-41 | two blocks have the same hashed view if and only if they agree on the hashed fields; hash, parent, proof value, burned total, transaction hashes and signatures are not among them |
| ProofOfWork.Mine | lib/ellipticoind/miner.ex:39-80 | a mined block passes the validation of its proof whatever is filled in outside the hashed fields |

## Left out

- Wasm, CBOR, SHA-256 and Ed25519: the interpreter, the codec and the hash are parameters; each instruction is charged once before it runs. Modules with a start section are not part of the model.
- Machine.PassArguments: `__malloc` is explicit where arguments are passed; when a host function's reply triggers it, its instructions count among the guest's ordinary ones.
- Host functions that only read the environment, log or do nothing (`externals.rs:26-49`, `137-147`, `177`): each is a plain instruction with a reply.
- Machine.Invoke: `fuel` bounds the recursion, because an unmetered contract may run forever; a metered one needs no more than its gas plus one, and `CallFunctionSame` shows that any amount that suffices gives the same outcome.
- Processor.RunTransaction: when the unmetered gas payment does not end or panics there is no result; the process is gone.
- Vm.VM.Call: a panic ends the process, so nothing is said about the shared state after one.
- Vm.VM.InvokeIndex: dispatch by function index is by the kind of action instead; pointers into linear memory are resolved by the host.
- Machine.Price: wraps around as in release builds; in other builds the host panics when the product does not fit.
- Overlay.Store: one class stands for `Memory` and `Storage`, which differ only in where the base value is read.
- `process_new_block` (`main.rs:74-100`): the same loop over transactions from a queue until time runs out; the queue, the removal from `transactions::processing`, base64 and CBOR output are not modelled.
- Redis.Database: the commands the store uses; connections, timeouts and durability are left out. Block numbers are 64 bits wide. After a crash the database is as the last command left it.
- Races between miner and block application, websocket, router, database schemas and configuration: plumbing.
- Messages.Message: only `Block`; `Transaction` is the same code under another name and `Empty` has no field. Absent and empty byte fields are not told apart, as in the source's `Equal`.
- Wire.SkipExactly: for slices of fewer than 2^63 - 8 bytes, so that adding the width of a fixed field to a position does not wrap; like the code, it does not compare the field numbers at the two ends of a group.
- `handle_port_data` (`libp2p.ex:89-120`): what is done with a message is not modelled; the mailbox is a sequence of chunks.
- Floats, maps with keys other than atoms, and the foreign-function layer of Rustler.
- TranscodingTheorems.FaithfulExactly: for types the compiler accepts, that is with one distinct name per struct field.
- OwnedEnvironments.Environments: one object holds the tables of all environments instead of one object each, so that runs over several can be described; a failed `enif_send` counts as clearing, as in the source.
- ProofOfWork.Hashfactor: the random start is a parameter, and `patience` bounds the otherwise unbounded search. A target of zero or 2^64 - 1 makes the source panic and is excluded; the nonce wraps around as in a release build.
- Casting of block attributes before insertion, and `total_burned`, which nothing computes.
