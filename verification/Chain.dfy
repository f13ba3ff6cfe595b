/** Whole runs of the store, and whole blocks from execution to the readers. */
module Chain {
  import opened Bytes
  import opened Overlay
  import opened BlockIndex
  import opened Reorganisation
  import FlatBlock
  import Machine
  import Processor

  // ---- What the readers see after any run ----

  lemma {:induction false} RunKeepsFiled(kind: Kind, st: State, ops: seq<StoreOp>)
    requires Filed(st)
    ensures Filed(After(kind, st, ops))
    decreases ops
  {
    if ops == [] {
    } else {
      match ops[0] {
        case SetOp(b, k, v) => SetKeepsFiled(kind, st, b, k, v);
        case FlushOp(b, entries) => WriteKeepsFiled(kind, st, entries, b);
        case RevertOp(b, order) => RevertKeepsFiled(st, order, b);
      }
      RunKeepsFiled(kind, Step(kind, st, ops[0]).state, ops[1..]);
    }
  }

  /** The sentinel byte that the RocksDB helper answers for a missing entry. */
  const MISSING: bytes := [123]

  /** `Storage.get`: an indexed key is looked up through the helper. */
  function StorageGet(st: State, key: bytes): bytes {
    match Get(st, key)
    case Empty => []
    case Found(v) => v
    case Missing => MISSING
  }

  /** After any run of sets, flushes and reverts at all, at block numbers in any order and with reverts that follow
      stale positions or crash half way, the Elixir and Rust readers agree on every key, and the sentinel is only
      ever returned as the stored value itself. */
  lemma ReadersAgree(kind: Kind, ops: seq<StoreOp>, key: bytes)
    ensures var st := After(kind, EMPTY, ops);
            && !Get(st, key).Missing?
            && RustGet(st, key) == (if Get(st, key).Found? then Get(st, key).value else [])
            && StorageGet(st, key) == RustGet(st, key)
            && (StorageGet(st, key) == MISSING ==> Get(st, key) == Found(MISSING))
  {
    assert Filed(EMPTY);
    RunKeepsFiled(kind, EMPTY, ops);
    FiledReadersAgree(After(kind, EMPTY, ops), key);
  }

  predicate Sets(op: StoreOp, key: bytes) {
    match op
    case SetOp(_, k, _) => k == key
    case FlushOp(_, entries) => exists e :: e in entries && e.key == key
    case RevertOp(_, _) => false
  }

  /** A key that no operation sets reads empty on both sides, though the Rust reader falls back to block 0. */
  lemma NeverSetReadsEmpty(kind: Kind, ops: seq<StoreOp>, key: bytes)
    requires forall op :: op in ops ==> !Sets(op, key)
    ensures Get(After(kind, EMPTY, ops), key) == Empty && RustGet(After(kind, EMPTY, ops), key) == []
  {
    NeverSetNoList(kind, EMPTY, ops, key);
    ReadersAgree(kind, ops, key);
  }

  lemma {:induction false} NeverSetNoList(kind: Kind, st: State, ops: seq<StoreOp>, key: bytes)
    requires ListOf(st, key) == [] && forall op :: op in ops ==> !Sets(op, key)
    ensures ListOf(After(kind, st, ops), key) == []
    decreases ops
  {
    if ops == [] {
    } else {
      assert ops[0] in ops;
      match ops[0] {
        case SetOp(_, _, _) =>
        case FlushOp(b, entries) => FlushNoList(kind, st, entries, b, key);
        case RevertOp(b, order) => RevertNoList(st, order, b, key);
      }
      NeverSetNoList(kind, Step(kind, st, ops[0]).state, ops[1..], key);
    }
  }

  lemma {:induction false} FlushNoList(kind: Kind, st: State, entries: seq<Write>, block: u64, key: bytes)
    requires ListOf(st, key) == [] && forall e :: e in entries ==> e.key != key
    ensures ListOf(WriteChangeset(kind, st, entries, block), key) == []
    decreases entries
  {
    if entries == [] {
    } else {
      assert entries[0] in entries;
      FlushNoList(kind, Set(kind, st, block, entries[0].key, entries[0].value), entries[1..], block, key);
    }
  }

  lemma {:induction false} RevertNoList(st: State, order: seq<bytes>, block: u64, key: bytes)
    requires ListOf(st, key) == []
    ensures ListOf(RevertTo(st, order, block).state, key) == []
    decreases order
  {
    if order == [] || block !in PositionsOf(st, order[0]) {
    } else {
      RevertNoList(RevertKey(st, order[0], block), order[1..], block, key);
    }
  }

  // ---- Runs against the stack of snapshots ----

  function StackStep(h: History, op: StoreOp): History {
    match op
    case SetOp(b, k, v) => Record(h, b, map[k := v])
    case FlushOp(b, entries) => if entries == [] then h else Record(h, b, Entries(entries))
    case RevertOp(b, _) => Pop(h, b)
  }

  function StackRun(h: History, ops: seq<StoreOp>): History
    decreases ops
  {
    if ops == [] then h else StackRun(StackStep(h, ops[0]), ops[1..])
  }

  /** Block numbers do not decrease, and a revert meets the condition of `RevertRestoresExactly`, over the keys
      recorded in memory. */
  ghost predicate Fits(kind: Kind, st: State, h: History, op: StoreOp) {
    match op
    case SetOp(b, _, _) => NotBefore(h, b)
    case FlushOp(b, _) => NotBefore(h, b)
    case RevertOp(b, order) =>
      && Distinct(order)
      && if kind.Memory? then
           (forall k :: k in order <==> k in st.keys) && forall k :: k in order ==> Revertible(st, k, b)
         else Restorable(st, order, b)
  }

  ghost predicate AllFit(kind: Kind, st: State, h: History, ops: seq<StoreOp>)
    decreases ops
  {
    ops == [] ||
    (Fits(kind, st, h, ops[0]) && AllFit(kind, Step(kind, st, ops[0]).state, StackStep(h, ops[0]), ops[1..]))
  }

  lemma StepRefines(kind: Kind, st: State, h: History, op: StoreOp)
    requires Represents(kind, st, h) && Fits(kind, st, h, op)
    ensures Step(kind, st, op).completed && Represents(kind, Step(kind, st, op).state, StackStep(h, op))
  {
    match op
    case SetOp(b, k, v) => SetRepresents(kind, st, h, b, k, v);
    case FlushOp(b, entries) => if entries != [] { FlushRepresents(kind, st, h, entries, b); }
    case RevertOp(b, order) =>
      if kind.Memory? { MemoryRevertRestoresExactly(st, h, order, b); } else { RevertRestoresExactly(st, h, order, b); }
  }

  /** Over any run, memory and storage behave like the plain stack of snapshots: reverts never crash, and every key
      reads as on top of the stack, for the Elixir and for the Rust reader. */
  lemma {:induction false} StoreIsSnapshotStack(kind: Kind, st: State, h: History, ops: seq<StoreOp>)
    requires Represents(kind, st, h) && AllFit(kind, st, h, ops)
    ensures Completes(kind, st, ops)
    ensures var st', top := After(kind, st, ops), TopView(StackRun(h, ops));
            && Represents(kind, st', StackRun(h, ops))
            && (forall k :: Get(st', k) == if k in top then Found(top[k]) else Empty)
            && (forall k :: RustGet(st', k) == if k in top then top[k] else [])
    decreases ops
  {
    if ops == [] {
      forall k ensures Get(st, k) == if k in TopView(h) then Found(TopView(h)[k]) else Empty { GetIsTop(st, h, k); }
      forall k ensures RustGet(st, k) == if k in TopView(h) then TopView(h)[k] else [] { RustGetIsTop(st, h, k); }
    } else {
      StepRefines(kind, st, h, ops[0]);
      StoreIsSnapshotStack(kind, Step(kind, st, ops[0]).state, StackStep(h, ops[0]), ops[1..]);
    }
  }

  /** Two stores that represent the same history cannot be told apart by any later run whose reverts meet the
      condition in both of them. In particular such a run cannot tell a reverted store from one in which the
      dropped blocks never happened, whatever it still holds of them. */
  lemma SameHistorySameFuture(kind: Kind, a: State, b: State, h: History, ops: seq<StoreOp>, key: bytes)
    requires Represents(kind, a, h) && Represents(kind, b, h)
    requires AllFit(kind, a, h, ops) && AllFit(kind, b, h, ops)
    ensures Completes(kind, a, ops) && Completes(kind, b, ops)
    ensures Get(After(kind, a, ops), key) == Get(After(kind, b, ops), key)
    ensures RustGet(After(kind, a, ops), key) == RustGet(After(kind, b, ops), key)
  {
    StoreIsSnapshotStack(kind, a, h, ops);
    StoreIsSnapshotStack(kind, b, h, ops);
  }

  /** A condition on the history alone: reverts go over the known keys, to blocks at which all of them were
      written. */
  ghost predicate Live(h: History, op: StoreOp) {
    match op
    case SetOp(b, _, _) => NotBefore(h, b)
    case FlushOp(b, _) => NotBefore(h, b)
    case RevertOp(b, order) =>
      && Distinct(order)
      && (forall k :: k in order <==> Known(h, k))
      && (forall k :: Known(h, k) ==> Wrote(h, k, b))
  }

  ghost predicate AllLive(h: History, ops: seq<StoreOp>)
    decreases ops
  {
    ops == [] || (Live(h, ops[0]) && AllLive(StackStep(h, ops[0]), ops[1..]))
  }

  lemma LiveFits(kind: Kind, st: State, h: History, op: StoreOp)
    requires Represents(kind, st, h) && Live(h, op)
    ensures Fits(kind, st, h, op)
  {
    if op.RevertOp? {
      forall k | k in op.order ensures Revertible(st, k, op.block) {
        assert KeyAgrees(st, h, k);
        LiveIsRevertible(st, h, k, op.block);
      }
      forall k | k !in op.order ensures ListOf(st, k) == [] {
        assert KeyAgrees(st, h, k);
        KnownIsWrote(h, k);
        HasMember(ListOf(st, k));
      }
    }
  }

  /** Such runs meet the condition in every store that represents the history. */
  lemma {:induction false} LiveRunsFit(kind: Kind, st: State, h: History, ops: seq<StoreOp>)
    requires Represents(kind, st, h) && AllLive(h, ops)
    ensures AllFit(kind, st, h, ops)
    decreases ops
  {
    if ops == [] {
    } else {
      LiveFits(kind, st, h, ops[0]);
      StepRefines(kind, st, h, ops[0]);
      LiveRunsFit(kind, Step(kind, st, ops[0]).state, StackStep(h, ops[0]), ops[1..]);
    }
  }

  /** Applying a received block flushes its changesets twice. No later run can tell whose reverts meet the condition
      in both stores; those that go to live blocks always do. */
  lemma DoubleFlushUnobservable(kind: Kind, st: State, h: History, entries: seq<Write>, again: seq<Write>,
                                changes: map<bytes, bytes>, block: u64, ops: seq<StoreOp>, key: bytes)
    requires Represents(kind, st, h) && NotBefore(h, block)
    requires changes != map[] && Lists(entries, changes) && Lists(again, changes)
    requires var once := WriteChangeset(kind, st, entries, block);
             || AllLive(Record(h, block, changes), ops)
             || (&& AllFit(kind, once, Record(h, block, changes), ops)
                 && AllFit(kind, WriteChangeset(kind, once, again, block), Record(h, block, changes), ops))
    ensures var once := WriteChangeset(kind, st, entries, block);
            var twice := WriteChangeset(kind, once, again, block);
            && Completes(kind, once, ops) && Completes(kind, twice, ops)
            && Get(After(kind, once, ops), key) == Get(After(kind, twice, ops), key)
            && RustGet(After(kind, once, ops), key) == RustGet(After(kind, twice, ops), key)
  {
    FlushTwiceIsOnce(kind, st, h, entries, again, changes, block);
    var once := WriteChangeset(kind, st, entries, block);
    var twice := WriteChangeset(kind, once, again, block);
    var r := Record(h, block, changes);
    if AllLive(r, ops) {
      LiveRunsFit(kind, once, r, ops);
      LiveRunsFit(kind, twice, r, ops);
    }
    SameHistorySameFuture(kind, once, twice, r, ops, key);
  }

  /** Popping to a block on the stack brings back the view recorded for it. */
  lemma PopBringsBack(h: History, i: nat)
    requires Increasing(h) && i < |h|
    ensures Pop(h, h[i].block) == h[..i + 1]
    ensures TopView(Pop(h, h[i].block)) == h[i].view
    decreases |h|
  {}

  // ---- Reverts outside the condition ----

  /** A key that was not written at the block has no position for it: the revert crashes. */
  lemma RevertCrashesOnUnwrittenKey()
    ensures var st := Set(Memory, Set(Memory, EMPTY, 1, [0], [10]), 2, [1], [20]);
            !RevertTo(st, [[0], [1]], 2).completed
  {}

  lemma RevertOneKey(st: State, key: bytes, block: u64)
    requires block in PositionsOf(st, key)
    ensures RevertTo(st, [key], block) == Effect(RevertKey(st, key, block), true)
  {
    assert [key][1..] == [];
  }

  /** A position left over from before an earlier revert is followed without notice: this revert to block 2
      leaves the value of block 3 readable. */
  lemma StalePositionKeepsLaterBlock()
    ensures var three := Set(Memory, Set(Memory, Set(Memory, EMPTY, 1, [7], [1]), 2, [7], [2]), 3, [7], [3]);
            var reverted := RevertTo(three, [[7]], 1);
            && reverted.completed
            && var again := RevertTo(Set(Memory, reverted.state, 3, [7], [4]), [[7]], 2);
               again.completed && Get(again.state, [7]) == Found([4])
  {
    var key: bytes := [7];
    var three := Set(Memory, Set(Memory, Set(Memory, EMPTY, 1, key, [1]), 2, key, [2]), 3, key, [3]);
    assert ListOf(three, key) == [3, 2, 1];
    assert PositionsOf(three, key) == map[1 := 0, 2 := 1, 3 := 2];
    RevertOneKey(three, key, 1);
    var four := Set(Memory, RevertTo(three, [key], 1).state, 3, key, [4]);
    assert ListOf(four, key) == [3, 1] && PositionsOf(four, key)[2] == 1;
    RevertOneKey(four, key, 2);
  }

  /** The store after blocks 1, 2 and 4 have set a key and a revert to block 1 has left their positions behind. */
  function WithStalePositions(key: bytes): State {
    var four := Set(Memory, Set(Memory, Set(Memory, EMPTY, 1, key, [1]), 2, key, [2]), 4, key, [4]);
    RevertTo(four, [key], 1).state
  }

  /** That store after block 3 has been flushed a number of times. */
  function Flushed(key: bytes, times: nat): State {
    if times == 0 then WithStalePositions(key)
    else WriteChangeset(Memory, Flushed(key, times - 1), [Write(key, [3])], 3)
  }

  /** A later set at block 5 and a revert to block 4, whose position is stale. */
  function Reverted(st: State, key: bytes): Effect {
    RevertTo(Set(Memory, st, 5, key, [5]), [key], 4)
  }

  /** A revert that follows a stale position does tell whether an earlier block was flushed once or twice. */
  lemma StaleRevertSeesDoubleFlush(key: bytes)
    ensures var once, twice := Reverted(Flushed(key, 1), key), Reverted(Flushed(key, 2), key);
            && once.completed && Get(once.state, key) == Found([5])
            && twice.completed && Get(twice.state, key) == Found([3])
  {
    StalePositions(key);
    FlushThree(Flushed(key, 0), key, [1]);
    StaleRevert(Flushed(key, 1), key, [3, 1], 5);
    FlushThree(Flushed(key, 1), key, [3, 1]);
    StaleRevert(Flushed(key, 2), key, [3, 3, 1], 3);
  }

  lemma StalePositions(key: bytes)
    ensures var st := WithStalePositions(key);
            ListOf(st, key) == [1] && 4 in PositionsOf(st, key) && PositionsOf(st, key)[4] == 2
  {
    var four := Set(Memory, Set(Memory, Set(Memory, EMPTY, 1, key, [1]), 2, key, [2]), 4, key, [4]);
    assert ListOf(four, key) == [4, 2, 1] && PositionsOf(four, key) == map[1 := 0, 2 := 1, 4 := 2];
    RevertOneKey(four, key, 1);
  }

  lemma FlushThree(st: State, key: bytes, list: seq<u64>)
    requires ListOf(st, key) == list && 4 in PositionsOf(st, key) && PositionsOf(st, key)[4] == 2
    ensures var st' := WriteChangeset(Memory, st, [Write(key, [3])], 3);
            && ListOf(st', key) == [3] + list && 4 in PositionsOf(st', key) && PositionsOf(st', key)[4] == 2
            && HashKey(3, key) in st'.values && st'.values[HashKey(3, key)] == [3]
  {
    FlushFirst(Memory, st, [Write(key, [3])], 3);
  }

  lemma StaleRevert(st: State, key: bytes, list: seq<u64>, newest: u64)
    requires ListOf(st, key) == list && 4 in PositionsOf(st, key) && PositionsOf(st, key)[4] == 2
    requires HashKey(3, key) in st.values && st.values[HashKey(3, key)] == [3]
    requires |list| >= 2 && newest == ([5] + list)[|list| - 2] && (newest == 3 || newest == 5)
    ensures var r := Reverted(st, key);
            r.completed && Get(r.state, key) == Found(if newest == 5 then [5] else [3])
  {
    var five := Set(Memory, st, 5, key, [5]);
    RevertOneKey(five, key, 4);
    TrimIsSuffix([5] + list, 2);
    HashKeyInjective(3, key, 5, key);
    assert ListOf(RevertKey(five, key, 4), key)[0] == newest;
  }

  /** `revert_to("storage", n)` walks the memory keys, so the list of a storage key outside them stays. */
  lemma StorageRevertSkipsStorageKeys(st: State, order: seq<bytes>, block: u64, key: bytes)
    requires Distinct(order) && key !in order
    ensures Get(RevertTo(st, order, block).state, key) == Get(st, key)
  {
    RevertKeyByKey(st, order, block);
  }

  // ---- From executed transactions to the readers ----

  /** Reading a flat map to which the writes have been applied one after the other. */
  function FlatRead(base: bytes -> bytes, writes: seq<Write>, key: bytes): bytes {
    if writes == [] then base(key)
    else if writes[|writes| - 1].key == key then writes[|writes| - 1].value
    else FlatRead(base, writes[..|writes| - 1], key)
  }

  lemma {:induction false} FlatReadIsOverlayRead(base: bytes -> bytes, writes: seq<Write>, key: bytes)
    ensures FlatRead(base, writes, key) == Read(Layers(WriteAll(map[], writes), map[]), base, key)
    decreases |writes|
  {
    if writes == [] {
    } else {
      var n := |writes| - 1;
      FlatReadIsOverlayRead(base, writes[..n], key);
      assert writes == writes[..n] + [writes[n]];
      WriteAllConcat(map[], writes[..n], [writes[n]]);
      assert [writes[n]][1..] == [];
    }
  }

  /** What flushing a changeset makes readable, key by key. */
  lemma FlushedReads(kind: Kind, st: State, h: History, changes: map<bytes, bytes>, entries: seq<Write>, block: u64,
                     key: bytes)
    requires Represents(kind, st, h) && NotBefore(h, block) && Lists(entries, changes)
    ensures RustGet(WriteChangeset(kind, st, entries, block), key) ==
            if key in changes then changes[key] else RustGet(st, key)
  {
    if changes == map[] {
      EmptyListing(entries);
    } else {
      FlushReadsTop(kind, st, h, changes, entries, block, key);
      RustGetIsTop(st, h, key);
      RecordTop(h, block, changes);
    }
  }

  lemma FlushReadsTop(kind: Kind, st: State, h: History, changes: map<bytes, bytes>, entries: seq<Write>, block: u64,
                      key: bytes)
    requires Represents(kind, st, h) && NotBefore(h, block) && Lists(entries, changes) && changes != map[]
    ensures var top := TopView(Record(h, block, changes));
            RustGet(WriteChangeset(kind, st, entries, block), key) == if key in top then top[key] else []
  {
    ListingIsChangeset(entries, changes);
    ListingNonEmpty(entries, changes);
    FlushRepresents(kind, st, h, entries, block);
    RustGetIsTop(WriteChangeset(kind, st, entries, block), Record(h, block, changes), key);
  }

  lemma RecordTop(h: History, block: u64, changes: map<bytes, bytes>)
    ensures TopView(Record(h, block, changes)) == TopView(h) + changes
  {}

  lemma RustGetIsTop(st: State, h: History, key: bytes)
    requires Agrees(st, h)
    ensures RustGet(st, key) == if key in TopView(h) then TopView(h)[key] else []
  {
    GetIsTop(st, h, key);
    AgreesIsFiled(st, h);
    FiledReadersAgree(st, key);
  }

  /** Executing any list of transactions over the two stores and flushing the resulting changesets, in any
      order of their entries, makes readable exactly what applying the writes of the flat block one by one to flat
      maps would. */
  lemma BlockReadsAsFlatMap(host: Machine.Host, fuel: nat, txs: seq<Machine.Transaction>, env: Machine.Env,
                            mem: State, memHistory: History, sto: State, stoHistory: History,
                            memEntries: seq<Write>, stoEntries: seq<Write>, key: bytes)
    requires Represents(Memory, mem, memHistory) && NotBefore(memHistory, env.blockNumber)
    requires Represents(Storage, sto, stoHistory) && NotBefore(stoHistory, env.blockNumber)
    requires forall k :: host.memoryBase(k) == RustGet(mem, k)
    requires forall k :: host.storageBase(k) == RustGet(sto, k)
    requires Processor.Process(host, fuel, txs, env, Processor.EMPTY_BLOCK).Some?
    requires var b := Processor.Process(host, fuel, txs, env, Processor.EMPTY_BLOCK).value;
             Lists(memEntries, b.memory) && Lists(stoEntries, b.storage)
    ensures var f := FlatBlock.Fold(host, fuel, txs, env, FlatBlock.NOTHING);
            && f.Some?
            && RustGet(WriteChangeset(Memory, mem, memEntries, env.blockNumber), key) ==
               FlatRead(host.memoryBase, f.value.memory, key)
            && RustGet(WriteChangeset(Storage, sto, stoEntries, env.blockNumber), key) ==
               FlatRead(host.storageBase, f.value.storage, key)
  {
    var b := Processor.Process(host, fuel, txs, env, Processor.EMPTY_BLOCK).value;
    Processor.BlockIsFlat(host, fuel, txs, env);
    var f := FlatBlock.Fold(host, fuel, txs, env, FlatBlock.NOTHING).value;
    FlushedReads(Memory, mem, memHistory, b.memory, memEntries, env.blockNumber, key);
    FlushedReads(Storage, sto, stoHistory, b.storage, stoEntries, env.blockNumber, key);
    FlatReadIsOverlayRead(host.memoryBase, f.memory, key);
    FlatReadIsOverlayRead(host.storageBase, f.storage, key);
  }

  lemma EmptyListing(entries: seq<Write>)
    requires Lists(entries, map[])
    ensures entries == []
  {
    HasEntry(entries);
  }

  lemma HasEntry(entries: seq<Write>)
    ensures entries != [] ==> exists e :: e in entries
  {
    assert entries != [] ==> entries[0] in entries;
  }
}
