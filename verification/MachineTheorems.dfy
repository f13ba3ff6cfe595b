/** The main results about calls: what survives, what it costs, when it stops and whose keys it touches. */
module MachineTheorems {
  import opened Bytes
  import opened Overlay
  import opened Machine
  import opened MachineFacts

  // ---- What survives a call tree ----

  function MemoryOps(e: Event): seq<Op> {
    match e
    case MemorySet(k, v) => [Put(k, v)]
    case Committed => [Keep]
    case RolledBack => [Drop]
    case _ => []
  }

  function StorageOps(e: Event): seq<Op> {
    match e
    case StorageSet(k, v) => [Put(k, v)]
    case Committed => [Keep]
    case RolledBack => [Drop]
    case _ => []
  }

  /** The writes and switches that a trace makes on the memory overlay. */
  function MemoryLog(t: seq<Event>): seq<Op> {
    if t == [] then [] else MemoryOps(t[0]) + MemoryLog(t[1..])
  }

  function StorageLog(t: seq<Event>): seq<Op> {
    if t == [] then [] else StorageOps(t[0]) + StorageLog(t[1..])
  }

  function Switches(log: seq<Op>): seq<Op> {
    if log == [] then [] else (if log[0].Put? then [] else [log[0]]) + Switches(log[1..])
  }

  lemma EventOps(w: World, e: Event)
    ensures ApplyAll(w.memory, MemoryOps(e)) == Effect(w, e).memory
    ensures ApplyAll(w.storage, StorageOps(e)) == Effect(w, e).storage
  {}

  lemma {:induction false} LogsExplainLayers(w: World, t: seq<Event>)
    ensures EffectAll(w, t).memory == ApplyAll(w.memory, MemoryLog(t))
    ensures EffectAll(w, t).storage == ApplyAll(w.storage, StorageLog(t))
    decreases t
  {
    if t == [] {
    } else {
      LogsExplainLayers(Effect(w, t[0]), t[1..]);
      EventOps(w, t[0]);
      ApplyAllConcat(w.memory, MemoryOps(t[0]), MemoryLog(t[1..]));
      ApplyAllConcat(w.storage, StorageOps(t[0]), StorageLog(t[1..]));
    }
  }

  /** Memory and storage switch at the same points, in the same direction. */
  lemma {:induction false} SwitchesAgree(t: seq<Event>)
    ensures Switches(MemoryLog(t)) == Switches(StorageLog(t))
  {
    if t == [] {
    } else {
      SwitchesAgree(t[1..]);
      SwitchesFirst(MemoryOps(t[0]), MemoryLog(t[1..]));
      SwitchesFirst(StorageOps(t[0]), StorageLog(t[1..]));
      SameSwitches(t[0]);
    }
  }

  lemma SwitchesFirst(first: seq<Op>, log: seq<Op>)
    requires |first| <= 1
    ensures Switches(first + log) == Switches(first) + Switches(log)
  {
    if first == [] {
      assert first + log == log;
    } else {
      assert (first + log)[1..] == log;
    }
  }

  lemma SameSwitches(e: Event)
    ensures Switches(MemoryOps(e)) == Switches(StorageOps(e))
  {
    assert e.MemorySet? ==> MemoryOps(e)[1..] == [];
    assert e.StorageSet? ==> StorageOps(e)[1..] == [];
  }

  /** Cut at its commits and rollbacks, a call tree leaves in both committed layers exactly the last write of
      each key whose segment ended in a commit, and everything else as it was. */
  lemma CallLeavesSurvivors(h: Host, fuel: nat, tx: Transaction, env: Env, local: Local, w: World, key: bytes)
    requires w.memory.working == map[] && w.storage.working == map[]
    ensures var o := CallTransaction(h, fuel, tx, env, local, w);
            && CommittedRight(w.memory.changeset, MemoryLog(o.trace), key, o.world.memory)
            && CommittedRight(w.storage.changeset, StorageLog(o.trace), key, o.world.storage)
            && Switches(MemoryLog(o.trace)) == Switches(StorageLog(o.trace))
  {
    var o := CallTransaction(h, fuel, tx, env, local, w);
    CallFunctionFacts(h, fuel, tx, env, local, tx.arguments, w);
    LogsExplainLayers(w, o.trace);
    SwitchesAgree(o.trace);
    SurvivorsDecide(w.memory.changeset, MemoryLog(o.trace), key);
    SurvivorsDecide(w.storage.changeset, StorageLog(o.trace), key);
  }

  /** Every read in the call tree returned the value committed at that point, or the base value: from empty working
      layers, what the last write before it wrote whose next switch, also before it, is a commit. */
  lemma ReadsSeeCommitted(h: Host, fuel: nat, tx: Transaction, env: Env, local: Local, w: World, i: nat)
    requires i < |CallTransaction(h, fuel, tx, env, local, w).trace|
    ensures var t := CallTransaction(h, fuel, tx, env, local, w).trace;
            && (t[i].MemoryRead? ==> ReadRight(w.memory, MemoryLog(t[..i]), h.memoryBase, t[i].key, t[i].value))
            && (t[i].StorageRead? ==> ReadRight(w.storage, StorageLog(t[..i]), h.storageBase, t[i].key, t[i].value))
  {
    var t := CallTransaction(h, fuel, tx, env, local, w).trace;
    CallFunctionFacts(h, fuel, tx, env, local, tx.arguments, w);
    assert t == t[..i] + t[i..];
    Concat(h, w, t[..i], t[i..]);
    LogsExplainLayers(w, t[..i]);
    if t[i].MemoryRead? {
      ReadsLastSurvivor(w.memory.changeset, MemoryLog(t[..i]), h.memoryBase, t[i].key, t[i].value);
    }
    if t[i].StorageRead? {
      ReadsLastSurvivor(w.storage.changeset, StorageLog(t[..i]), h.storageBase, t[i].key, t[i].value);
    }
  }

  ghost predicate ReadRight(o: Layers, log: seq<Op>, base: bytes -> bytes, key: bytes, value: bytes) {
    && (var c := ApplyAll(o, log).changeset; value == if key in c then c[key] else base(key))
    && (o.working == map[] ==> IsCommittedValue(o.changeset, log, base, key, value))
  }

  lemma {:induction false} NoCommitNoKeep(t: seq<Event>)
    requires Committed !in t
    ensures Keep !in MemoryLog(t) && Keep !in StorageLog(t)
  {
    if t == [] {
    } else {
      NoCommitNoKeep(t[1..]);
    }
  }

  /** However a call ends, if nothing in its tree committed, both committed layers are unchanged. */
  lemma NothingCommittedNothingChanged(h: Host, fuel: nat, tx: Transaction, env: Env, local: Local, w: World)
    requires Committed !in CallTransaction(h, fuel, tx, env, local, w).trace
    ensures var o := CallTransaction(h, fuel, tx, env, local, w);
            o.world.memory.changeset == w.memory.changeset && o.world.storage.changeset == w.storage.changeset
  {
    var o := CallTransaction(h, fuel, tx, env, local, w);
    CallFunctionFacts(h, fuel, tx, env, local, tx.arguments, w);
    LogsExplainLayers(w, o.trace);
    NoCommitNoKeep(o.trace);
    NoCommitNoChange(w.memory, MemoryLog(o.trace));
    NoCommitNoChange(w.storage, StorageLog(o.trace));
  }

  /** A failure to pass the arguments neither commits nor rolls back: after the last switch inside `__malloc`,
      if any, pending writes stay pending. Otherwise a call that answers leaves nothing pending. */
  lemma WhatStaysPending(h: Host, fuel: nat, tx: Transaction, env: Env, local: Local, w: World)
    requires CallTransaction(h, fuel, tx, env, local, w).exit.Answered?
    ensures var o := CallTransaction(h, fuel, tx, env, local, w);
            var p := PassArguments(h, fuel, tx, env, local, tx.arguments, w);
            if p.exit.Trapped?
            then o.world == p.world && o.exit.answer == WasmTrap(h, OutOfGas)
            else o.world.memory.working == map[] && o.world.storage.working == map[]
  {
    PassedOrTrapped(h, fuel, tx, env, local, tx.arguments, w);
    var p := PassArguments(h, fuel, tx, env, local, tx.arguments, w);
    if p.exit.Finished? {
      var entry := h.enter(p.exit.local, tx, env).value;
      assert CallTransaction(h, fuel, tx, env, local, w) == Prepend(p.trace, RunBody(h, fuel, tx, env, entry, p.world));
      assert RunBody(h, fuel, tx, env, entry, p.world).exit.Answered?;
    }
  }

  lemma {:induction false} PassedOrTrapped(h: Host, fuel: nat, tx: Transaction, env: Env, local: Local,
                                           arguments: seq<Value>, w: World)
    ensures var p := PassArguments(h, fuel, tx, env, local, arguments, w);
            p.exit.Trapped? ==> p.exit.kind == OutOfGas
    decreases |arguments|
  {
    if arguments == [] {
    } else {
      var argument := h.encode(arguments[0]);
      var o := Invoke(h, fuel, tx, env, h.malloc(local, 4 + |argument|), w);
      if o.exit.Finished? && h.write(o.exit.local, o.exit.result, argument).Some? {
        var l := h.write(o.exit.local, o.exit.result, argument).value;
        PassedOrTrapped(h, fuel, tx, env, l, arguments[1..], o.world);
      }
    }
  }

  /** What a contract returns as `to_bytes` of an answer is read as that answer, as far as the value codec
      inverts itself. */
  lemma AnswersRoundTrip(h: Host, a: Answer)
    requires h.decode(h.encode(a.value)) == Some(a.value)
    ensures FromBytes(h, ToBytes(h, a)) == Some(a)
  {
    var b := ToBytes(h, a);
    LittleEndianRoundTrip(a.code, 4);
    assert Power256(2) == 0x1_0000 && Power256(4) == U32;
    assert b[..4] == LittleEndian(a.code, 4) && b[4..] == h.encode(a.value);
  }

  // ---- Gas ----

  /** Gas is conserved over the whole call tree, trapped sub-calls included. */
  lemma CallConservesGas(h: Host, fuel: nat, tx: Transaction, env: Env, local: Local, w: World)
    ensures var o := CallTransaction(h, fuel, tx, env, local, w);
            match w.gas
            case None => o.world.gas == None
            case Some(g) => Paid(o.trace) <= g && o.world.gas == Some(g - Paid(o.trace))
  {
    CallFunctionFacts(h, fuel, tx, env, local, tx.arguments, w);
    GasConserved(h, w, CallTransaction(h, fuel, tx, env, local, w).trace);
  }

  /** `external_call` on an existing contract: a metered caller is left with exactly what the callee left and the
      closing charge, which equals what the callee's tree paid, cannot fail; an unmetered caller never gets
      an answer, because the missing gas is unwrapped. */
  lemma SettlementIsExact(h: Host, fuel: nat, tx: Transaction, env: Env, address: bytes, function_: bytes,
                          arguments: seq<Value>, w: World)
    requires var code := Read(w.storage, h.storageBase, RightPad(address, ADDRESS_LENGTH));
             code != [] && h.instantiate(code).Some?
    ensures var local := h.instantiate(Read(w.storage, h.storageBase, RightPad(address, ADDRESS_LENGTH))).value;
            var c := CallFunction(h, fuel, tx.(contractAddress := address, function_ := function_),
                                  env.(caller := Some(tx.contractAddress)), local, arguments, w);
            var o := ExternalCall(h, fuel, tx, env, address, function_, arguments, w);
            && o.world == c.world
            && !o.exit.Trapped?
            && (w.gas.None? ==> !o.exit.Replied?)
            && (w.gas.Some? ==> (o.exit.Replied? <==> c.exit.Answered?))
            && (o.exit.Replied? ==>
                  && o.exit.reply == ToBytes(h, c.exit.answer)
                  && o.trace != [] && o.trace[|o.trace| - 1].Settled?
                  && o.trace[|o.trace| - 1].amount == Paid(c.trace)
                  && Paid(o.trace) == Paid(c.trace))
  {
    var key := RightPad(address, ADDRESS_LENGTH);
    var read := StorageRead(key, Read(w.storage, h.storageBase, key));
    var local := h.instantiate(read.value).value;
    var tx' := tx.(contractAddress := address, function_ := function_);
    var env' := env.(caller := Some(tx.contractAddress));
    var c := CallFunction(h, fuel, tx', env', local, arguments, w);
    var o := ExternalCall(h, fuel, tx, env, address, function_, arguments, w);
    CallFunctionFacts(h, fuel, tx', env', local, arguments, w);
    SettleFacts(h, tx.contractAddress, address, w, read, c);
    GasConserved(h, w, c.trace);
    ExternalCallFacts(h, fuel, tx, env, address, function_, arguments, w);
    GasConserved(h, w, o.trace);
  }

  // ---- The host functions ----

  predicate Affords(gas: Option<u32>, units: nat) {
    gas.None? || units <= gas.value
  }

  /** The world with so many units of gas less, if it is metered. */
  function Charge(w: World, units: nat): World
    requires Affords(w.gas, units)
  {
    w.(gas := if w.gas.None? then None else Some(w.gas.value - units))
  }

  /** The outcome is the reply in the given world, charged, if the gas covers it, and else out of gas with nothing
      done. */
  predicate Does(o: Outcome, w: World, units: nat, reply: bytes, done: World) {
    if Affords(w.gas, units) then o.exit == Replied(reply) && done.gas == w.gas && o.world == Charge(done, units)
    else o.exit == Trapped(OutOfGas) && o.world == w
  }

  /** A get of memory replies the value committed under the contract's padded address, or what lies below, at 200
      units a byte; a get of storage the same for storage at 10; a set of memory leaves the value pending under
      that address at 5000, a set of storage at 500. Nothing else changes. */
  lemma HostFunctionsDo(h: Host, tx: Transaction, k: bytes, value: bytes, w: World)
    ensures var key := RightPad(tx.contractAddress, 64) + k;
            var inMemory := if key in w.memory.changeset then w.memory.changeset[key] else h.memoryBase(key);
            var inStorage := if key in w.storage.changeset then w.storage.changeset[key] else h.storageBase(key);
            && (|inMemory| * 200 < U32 ==>
                  Does(HostCall(h, tx, GetMemory(k), w), w, |inMemory| * 200, inMemory, w))
            && (|inStorage| * 10 < U32 ==>
                  Does(HostCall(h, tx, GetStorage(k), w), w, |inStorage| * 10, inStorage, w))
            && (|value| * 5000 < U32 ==>
                  Does(HostCall(h, tx, SetMemory(k, value), w), w, |value| * 5000, [],
                       World(Layers(w.memory.changeset, w.memory.working[key := value]), w.storage, w.gas)))
            && (|value| * 500 < U32 ==>
                  Does(HostCall(h, tx, SetStorage(k, value), w), w, |value| * 500, [],
                       World(w.memory, Layers(w.storage.changeset, w.storage.working[key := value]), w.gas)))
  {
    GetsDo(h, tx, k, w);
    SetsDo(h, tx, k, value, w);
  }

  lemma GetsDo(h: Host, tx: Transaction, k: bytes, w: World)
    ensures var key := RightPad(tx.contractAddress, 64) + k;
            var inMemory := Read(w.memory, h.memoryBase, key);
            var inStorage := Read(w.storage, h.storageBase, key);
            && (|inMemory| * 200 < U32 ==>
                  Does(HostCall(h, tx, GetMemory(k), w), w, |inMemory| * 200, inMemory, w))
            && (|inStorage| * 10 < U32 ==>
                  Does(HostCall(h, tx, GetStorage(k), w), w, |inStorage| * 10, inStorage, w))
  {
    var key := RightPad(tx.contractAddress, 64) + k;
    PriceExactWhenItFits(ReadMemory(|Read(w.memory, h.memoryBase, key)|));
    PriceExactWhenItFits(ReadStorage(|Read(w.storage, h.storageBase, key)|));
  }

  lemma SetsDo(h: Host, tx: Transaction, k: bytes, value: bytes, w: World)
    ensures var key := RightPad(tx.contractAddress, 64) + k;
            && (|value| * 5000 < U32 ==>
                  Does(HostCall(h, tx, SetMemory(k, value), w), w, |value| * 5000, [],
                       World(Layers(w.memory.changeset, w.memory.working[key := value]), w.storage, w.gas)))
            && (|value| * 500 < U32 ==>
                  Does(HostCall(h, tx, SetStorage(k, value), w), w, |value| * 500, [],
                       World(w.memory, Layers(w.storage.changeset, w.storage.working[key := value]), w.gas)))
  {
    PriceExactWhenItFits(WroteMemory(|value|));
    PriceExactWhenItFits(WroteStorage(|value|));
  }

  /** The units an operation should cost per its price list, in unbounded arithmetic. */
  function ListPrice(cost: Cost): nat {
    match cost
    case Instruction => INSTRUCTION
    case ReadMemory(n) => n * GET_BYTE_MEMORY
    case WroteMemory(n) => n * SET_BYTE_MEMORY
    case ReadStorage(n) => n * GET_BYTE_STORAGE
    case WroteStorage(n) => n * SET_BYTE_STORAGE
  }

  /** The u32 price is the list price exactly when the list price fits in u32. */
  lemma PriceExactWhenItFits(cost: Cost)
    ensures Price(cost) == ListPrice(cost) <==> ListPrice(cost) < U32
  {
    match cost
    case Instruction =>
    case ReadMemory(n) => ProductFits(n, GET_BYTE_MEMORY);
    case WroteMemory(n) => ProductFits(n, SET_BYTE_MEMORY);
    case ReadStorage(n) => ProductFits(n, GET_BYTE_STORAGE);
    case WroteStorage(n) => ProductFits(n, SET_BYTE_STORAGE);
  }

  lemma ProductFits(n: nat, k: u32)
    requires k > 0
    ensures n % U32 * k % U32 == n * k <==> n * k < U32
  {
    if n * k < U32 {
      assert n <= n * k;
      assert n % U32 == n;
    } else {
      assert n % U32 * k % U32 < U32;
    }
  }

  /** 858994 bytes of contract memory list at 4294970000 units and are charged 2704. */
  lemma PriceWraps()
    ensures ListPrice(WroteMemory(858994)) == 4294970000 && Price(WroteMemory(858994)) == 2704
  {}

  /** The list price of all the bytes a trace wrote. */
  function WrittenWeight(t: seq<Event>): nat {
    if t == [] then 0
    else (match t[0]
          case MemorySet(_, v) => ListPrice(WroteMemory(|v|))
          case StorageSet(_, v) => ListPrice(WroteStorage(|v|))
          case _ => 0) + WrittenWeight(t[1..])
  }

  predicate WritesFit(t: seq<Event>) {
    forall e :: e in t ==>
      && (e.MemorySet? ==> ListPrice(WroteMemory(|e.value|)) < U32)
      && (e.StorageSet? ==> ListPrice(WroteStorage(|e.value|)) < U32)
  }

  lemma {:induction false} WrittenWeightIsPaid(h: Host, w: World, t: seq<Event>)
    requires Legal(h, w, t) && WritesFit(t)
    ensures WrittenWeight(t) + Instructions(t) <= Paid(t)
    decreases t
  {
    if t == [] {
    } else {
      assert t[0] in t;
      WrittenWeightIsPaid(h, Effect(w, t[0]), t[1..]);
      if t[0].MemorySet? { PriceExactWhenItFits(WroteMemory(|t[0].value|)); }
      if t[0].StorageSet? { PriceExactWhenItFits(WroteStorage(|t[0].value|)); }
    }
  }

  /** With gas `g`, the instructions run plus the list price of the bytes written are at most `g`, as long as
      no single write's price overflows. */
  lemma GasBoundsWork(h: Host, fuel: nat, tx: Transaction, env: Env, local: Local, w: World)
    requires w.gas.Some?
    requires WritesFit(CallTransaction(h, fuel, tx, env, local, w).trace)
    ensures var t := CallTransaction(h, fuel, tx, env, local, w).trace;
            WrittenWeight(t) + Instructions(t) <= w.gas.value
  {
    var t := CallTransaction(h, fuel, tx, env, local, w).trace;
    CallFunctionFacts(h, fuel, tx, env, local, tx.arguments, w);
    GasConserved(h, w, t);
    WrittenWeightIsPaid(h, w, t);
  }

  // ---- Termination ----

  lemma {:induction false} InvokeStops(h: Host, fuel: nat, tx: Transaction, env: Env, local: Local, w: World)
    requires w.gas.Some? && fuel > w.gas.value
    ensures !Invoke(h, fuel, tx, env, local, w).exit.OutOfFuel?
    decreases fuel, 0, 0
  {
    if UseGas(w.gas, INSTRUCTION).None? || h.step(local).Return? {
    } else {
      var w1 := w.(gas := UseGas(w.gas, INSTRUCTION).value);
      var action := h.step(local);
      var o := CarryOut(h, fuel - 1, tx, env, action, w1);
      CarryOutStops(h, fuel - 1, tx, env, action, w1);
      if o.exit.Replied? {
        InvokeStops(h, fuel - 1, tx, env, h.resume(local, o.exit.reply), o.world);
      }
    }
  }

  /** Nothing the host does for an action adds gas. */
  lemma {:induction false} CarryOutStops(h: Host, fuel: nat, tx: Transaction, env: Env, action: Action, w: World)
    requires w.gas.Some? && fuel > w.gas.value
    ensures var o := CarryOut(h, fuel, tx, env, action, w);
            !o.exit.OutOfFuel? && o.world.gas.Some? && o.world.gas.value <= w.gas.value
    decreases fuel, 4, 0
  {
    if action.Call? {
      ExternalCallStops(h, fuel, tx, env, action.address, action.function_, action.arguments, w);
    }
    CarryOutFacts(h, fuel, tx, env, action, w);
    GasConserved(h, w, CarryOut(h, fuel, tx, env, action, w).trace);
  }

  lemma {:induction false} PassArgumentsStops(h: Host, fuel: nat, tx: Transaction, env: Env, local: Local,
                                              arguments: seq<Value>, w: World)
    requires w.gas.Some? && fuel > w.gas.value
    ensures !PassArguments(h, fuel, tx, env, local, arguments, w).exit.OutOfFuel?
    decreases fuel, 1, |arguments|
  {
    if arguments == [] {
    } else {
      var argument := h.encode(arguments[0]);
      var start := h.malloc(local, 4 + |argument|);
      var o := Invoke(h, fuel, tx, env, start, w);
      InvokeStops(h, fuel, tx, env, start, w);
      InvokeFacts(h, fuel, tx, env, start, w);
      GasConserved(h, w, o.trace);
      if o.exit.Finished? && h.write(o.exit.local, o.exit.result, argument).Some? {
        var l := h.write(o.exit.local, o.exit.result, argument).value;
        PassArgumentsStops(h, fuel, tx, env, l, arguments[1..], o.world);
      }
    }
  }

  lemma {:induction false} CallFunctionStops(h: Host, fuel: nat, tx: Transaction, env: Env, local: Local,
                                             arguments: seq<Value>, w: World)
    requires w.gas.Some? && fuel > w.gas.value
    ensures !CallFunction(h, fuel, tx, env, local, arguments, w).exit.OutOfFuel?
    decreases fuel, 2, 0
  {
    var p := PassArguments(h, fuel, tx, env, local, arguments, w);
    PassArgumentsStops(h, fuel, tx, env, local, arguments, w);
    PassArgumentsFacts(h, fuel, tx, env, local, arguments, w);
    GasConserved(h, w, p.trace);
    if p.exit.Finished? && h.enter(p.exit.local, tx, env).Some? {
      InvokeStops(h, fuel, tx, env, h.enter(p.exit.local, tx, env).value, p.world);
    }
  }

  lemma {:induction false} ExternalCallStops(h: Host, fuel: nat, tx: Transaction, env: Env, address: bytes,
                                             function_: bytes, arguments: seq<Value>, w: World)
    requires w.gas.Some? && fuel > w.gas.value
    ensures !ExternalCall(h, fuel, tx, env, address, function_, arguments, w).exit.OutOfFuel?
    decreases fuel, 3, 0
  {
    var code := Read(w.storage, h.storageBase, RightPad(address, ADDRESS_LENGTH));
    if code != [] && h.instantiate(code).Some? {
      CallFunctionStops(h, fuel, tx.(contractAddress := address, function_ := function_),
                        env.(caller := Some(tx.contractAddress)), h.instantiate(code).value, arguments, w);
    }
  }

  /** Metered execution always ends, whatever the contracts do and however they call each other: with gas `g`
      it needs no more than g + 1 units of fuel, runs at most g instructions and nests at most g deep. */
  lemma MeteredCallsTerminate(h: Host, fuel: nat, tx: Transaction, env: Env, local: Local, w: World)
    requires w.gas.Some? && fuel > w.gas.value
    ensures var o := CallTransaction(h, fuel, tx, env, local, w);
            && !o.exit.OutOfFuel?
            && Instructions(o.trace) <= w.gas.value
            && Depth(o.trace) <= w.gas.value
  {
    CallFunctionStops(h, fuel, tx, env, local, tx.arguments, w);
    CallFunctionFacts(h, fuel, tx, env, local, tx.arguments, w);
    GasConserved(h, w, CallTransaction(h, fuel, tx, env, local, w).trace);
    InstructionsArePaid(h, w, CallTransaction(h, fuel, tx, env, local, w).trace);
  }

  // ---- Fuel is only a way to write the recursion down: any amount that suffices gives the same outcome ----

  lemma {:induction false} InvokeSame(h: Host, f: nat, f': nat, tx: Transaction, env: Env, local: Local, w: World)
    requires f <= f' && !Invoke(h, f, tx, env, local, w).exit.OutOfFuel?
    ensures Invoke(h, f', tx, env, local, w) == Invoke(h, f, tx, env, local, w)
    decreases f, 0, 0
  {
    if UseGas(w.gas, INSTRUCTION).None? || h.step(local).Return? {
    } else {
      var w1 := w.(gas := UseGas(w.gas, INSTRUCTION).value);
      var action := h.step(local);
      var o := CarryOut(h, f - 1, tx, env, action, w1);
      CarryOutSame(h, f - 1, f' - 1, tx, env, action, w1);
      if o.exit.Replied? {
        InvokeSame(h, f - 1, f' - 1, tx, env, h.resume(local, o.exit.reply), o.world);
      }
    }
  }

  lemma {:induction false} CarryOutSame(h: Host, f: nat, f': nat, tx: Transaction, env: Env, action: Action, w: World)
    requires f <= f' && !CarryOut(h, f, tx, env, action, w).exit.OutOfFuel?
    ensures CarryOut(h, f', tx, env, action, w) == CarryOut(h, f, tx, env, action, w)
    decreases f, 4, 0
  {
    if action.Call? {
      ExternalCallSame(h, f, f', tx, env, action.address, action.function_, action.arguments, w);
    }
  }

  lemma {:induction false} PassArgumentsSame(h: Host, f: nat, f': nat, tx: Transaction, env: Env, local: Local,
                                             arguments: seq<Value>, w: World)
    requires f <= f' && !PassArguments(h, f, tx, env, local, arguments, w).exit.OutOfFuel?
    ensures PassArguments(h, f', tx, env, local, arguments, w) == PassArguments(h, f, tx, env, local, arguments, w)
    decreases f, 1, |arguments|
  {
    if arguments == [] {
    } else {
      var argument := h.encode(arguments[0]);
      var start := h.malloc(local, 4 + |argument|);
      var o := Invoke(h, f, tx, env, start, w);
      InvokeSame(h, f, f', tx, env, start, w);
      if o.exit.Finished? && h.write(o.exit.local, o.exit.result, argument).Some? {
        var l := h.write(o.exit.local, o.exit.result, argument).value;
        PassArgumentsSame(h, f, f', tx, env, l, arguments[1..], o.world);
      }
    }
  }

  lemma {:induction false} CallFunctionSame(h: Host, f: nat, f': nat, tx: Transaction, env: Env, local: Local,
                                            arguments: seq<Value>, w: World)
    requires f <= f' && !CallFunction(h, f, tx, env, local, arguments, w).exit.OutOfFuel?
    ensures CallFunction(h, f', tx, env, local, arguments, w) == CallFunction(h, f, tx, env, local, arguments, w)
    decreases f, 2, 0
  {
    var p := PassArguments(h, f, tx, env, local, arguments, w);
    PassArgumentsSame(h, f, f', tx, env, local, arguments, w);
    if p.exit.Finished? && h.enter(p.exit.local, tx, env).Some? {
      InvokeSame(h, f, f', tx, env, h.enter(p.exit.local, tx, env).value, p.world);
    }
  }

  lemma {:induction false} ExternalCallSame(h: Host, f: nat, f': nat, tx: Transaction, env: Env, address: bytes,
                                            function_: bytes, arguments: seq<Value>, w: World)
    requires f <= f' && !ExternalCall(h, f, tx, env, address, function_, arguments, w).exit.OutOfFuel?
    ensures ExternalCall(h, f', tx, env, address, function_, arguments, w) ==
            ExternalCall(h, f, tx, env, address, function_, arguments, w)
    decreases f, 3, 0
  {
    var code := Read(w.storage, h.storageBase, RightPad(address, ADDRESS_LENGTH));
    if code != [] && h.instantiate(code).Some? {
      CallFunctionSame(h, f, f', tx.(contractAddress := address, function_ := function_),
                       env.(caller := Some(tx.contractAddress)), h.instantiate(code).value, arguments, w);
    }
  }

  // ---- Namespaces ----

  lemma {:induction false} UnwrittenKeyKept(w: World, t: seq<Event>, key: bytes)
    requires forall e :: e in t ==> WriteKey(e) != Some(key)
    requires key !in w.memory.working && key !in w.storage.working
    ensures var w' := EffectAll(w, t);
            && key !in w'.memory.working && key !in w'.storage.working
            && Same(w.memory.changeset, w'.memory.changeset, key)
            && Same(w.storage.changeset, w'.storage.changeset, key)
    decreases t
  {
    if t == [] {
    } else {
      assert t[0] in t;
      UnwrittenKeyKept(Effect(w, t[0]), t[1..], key);
    }
  }

  predicate Same(c: Changeset, c': Changeset, key: bytes) {
    (key in c <==> key in c') && (key in c ==> c[key] == c'[key])
  }

  /** A key outside the namespaces of the called contract and of every contract entered on the way keeps its
      committed value in memory and in storage. */
  lemma OutsidersKeepTheirState(h: Host, fuel: nat, tx: Transaction, env: Env, local: Local, w: World, key: bytes)
    requires w.memory.working == map[] && w.storage.working == map[]
    requires forall address :: Ran(tx.contractAddress, CallTransaction(h, fuel, tx, env, local, w).trace, address) ==>
               !InNamespace(address, key)
    ensures var o := CallTransaction(h, fuel, tx, env, local, w);
            && Same(w.memory.changeset, o.world.memory.changeset, key)
            && Same(w.storage.changeset, o.world.storage.changeset, key)
  {
    var o := CallTransaction(h, fuel, tx, env, local, w);
    CallFunctionFacts(h, fuel, tx, env, local, tx.arguments, w);
    forall e | e in o.trace ensures WriteKey(e) != Some(key) {
      if WriteKey(e).Some? {
        assert KeyConfined(tx.contractAddress, o.trace, WriteKey(e).value);
      }
    }
    UnwrittenKeyKept(w, o.trace, key);
  }

  /** Two namespaces share a key exactly when one padded address is a prefix of the other. */
  lemma NamespacesOverlapExactly(a: bytes, b: bytes)
    ensures (exists key :: InNamespace(a, key) && InNamespace(b, key)) <==>
            RightPad(a, ADDRESS_LENGTH) <= RightPad(b, ADDRESS_LENGTH) ||
            RightPad(b, ADDRESS_LENGTH) <= RightPad(a, ADDRESS_LENGTH)
  {
    var pa, pb := RightPad(a, ADDRESS_LENGTH), RightPad(b, ADDRESS_LENGTH);
    if key :| InNamespace(a, key) && InNamespace(b, key) {
      assert pa == key[..|pa|] && pb == key[..|pb|];
    }
    if pa <= pb { assert InNamespace(a, pb) && InNamespace(b, pb); }
    if pb <= pa { assert InNamespace(a, pa) && InNamespace(b, pa); }
  }

  /** Addresses of at most 64 bytes share a key exactly when they differ only in trailing zero bytes; so
      distinct addresses without a trailing zero byte never do. */
  lemma ShortAddressesOverlapExactly(a: bytes, b: bytes)
    requires |a| <= ADDRESS_LENGTH && |b| <= ADDRESS_LENGTH
    ensures (exists key :: InNamespace(a, key) && InNamespace(b, key)) <==> StripZeros(a) == StripZeros(b)
    ensures a != b && (a == [] || a[|a| - 1] != 0) && (b == [] || b[|b| - 1] != 0) ==>
              !exists key :: InNamespace(a, key) && InNamespace(b, key)
  {
    NamespacesOverlapExactly(a, b);
    PaddingEqualExactlyUpToZeros(a, b, ADDRESS_LENGTH);
  }
}
