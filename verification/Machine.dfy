/** The contract virtual machine as a specification: what a call does to the shared overlays and the gas,
    together with the trace of everything it did on the way. */
module Machine {
  import opened Bytes
  import opened Overlay

  // ---- Gas prices (`gas_costs.rs`) ----

  const INSTRUCTION: u32 := 1
  const GET_BYTE_MEMORY: u32 := 200
  const SET_BYTE_MEMORY: u32 := 5000
  const GET_BYTE_STORAGE: u32 := 10
  const SET_BYTE_STORAGE: u32 := 500

  const ADDRESS_LENGTH: nat := 64

  // ---- Data ----

  datatype Value = Null | Integer(n: int) | Text(text: bytes) | ByteString(b: bytes) | Array(elements: seq<Value>)

  datatype Transaction = Transaction(
    contractAddress: bytes, sender: bytes, nonce: u64, gasLimit: u64, function_: bytes, arguments: seq<Value>)

  datatype Env = Env(blockNumber: u64, blockWinner: bytes, blockHash: bytes, caller: Option<bytes>)

  datatype TrapKind = OutOfGas | Other(code: nat)

  /** `result::Result`: a return code and a value. */
  datatype Answer = Answer(code: u32, value: Value)

  /** The whole state of a Wasm instance: linear memory, globals, stack and program counter. */
  type Local = bytes

  /** What one Wasm instruction asks of the host. `Fault` stands for everything that makes the host panic: a
      pointer outside linear memory, a function name that is not UTF-8, a result of the wrong type. */
  datatype Action =
    | Plain
    | Return(result: bytes)
    | Trap(kind: TrapKind)
    | Fault
    | GetMemory(key: bytes)
    | SetMemory(key: bytes, value: bytes)
    | GetStorage(key: bytes)
    | SetStorage(key: bytes, value: bytes)
    | Call(address: bytes, function_: bytes, arguments: seq<Value>)

  /** Everything outside the repository: the Wasm interpreter, the CBOR codec and the stores below the overlays. */
  datatype Host = Host(
    instantiate: bytes -> Option<Local>,
    malloc: (Local, nat) -> Local,
    write: (Local, bytes, bytes) -> Option<Local>,
    enter: (Local, Transaction, Env) -> Option<Local>,
    step: Local -> Action,
    resume: (Local, bytes) -> Local,
    encode: Value -> bytes,
    decode: bytes -> Option<Value>,
    trapText: TrapKind -> bytes,
    memoryBase: bytes -> bytes,
    storageBase: bytes -> bytes)

  /** What the frames of a call tree share, with the gas of the frame that is running. */
  datatype World = World(memory: Layers, storage: Layers, gas: Option<u32>)

  datatype Cost = Instruction | ReadMemory(n: nat) | WroteMemory(n: nat) | ReadStorage(n: nat) | WroteStorage(n: nat)

  /** A write is recorded once it has been paid for, so `MemorySet` and `StorageSet` stand for both. */
  datatype Event =
    | Charged(cost: Cost, amount: u32)
    | MemoryRead(key: bytes, value: bytes)
    | StorageRead(key: bytes, value: bytes)
    | MemorySet(key: bytes, value: bytes)
    | StorageSet(key: bytes, value: bytes)
    | Committed
    | RolledBack
    | Entered(address: bytes)
    | Left
    | Settled(amount: u32)

  datatype Exit =
    | Finished(local: Local, result: bytes)
    | Trapped(kind: TrapKind)
    | Replied(reply: bytes)
    | Answered(answer: Answer)
    | Panicked
    | OutOfFuel

  datatype Outcome = Outcome(exit: Exit, world: World, trace: seq<Event>)

  // ---- Gas (`gas.rs`) ----

  /** `use_gas`: nothing when the gas does not suffice; unmetered frames pay nothing. */
  function UseGas(gas: Option<u32>, amount: u32): Option<Option<u32>> {
    match gas
    case None => Some(None)
    case Some(g) => if g < amount then None else Some(Some(g - amount))
  }

  /** The price of an operation, in the u32 arithmetic of the host as release builds have it. */
  function Price(cost: Cost): u32 {
    match cost
    case Instruction => INSTRUCTION
    case ReadMemory(n) => n % U32 * GET_BYTE_MEMORY % U32
    case WroteMemory(n) => n % U32 * SET_BYTE_MEMORY % U32
    case ReadStorage(n) => n % U32 * GET_BYTE_STORAGE % U32
    case WroteStorage(n) => n % U32 * SET_BYTE_STORAGE % U32
  }

  // ---- Results (`result.rs`) ----

  const VM_PANIC: Answer := Answer(1, Text(Ascii("vm panic")))

  function WasmTrap(h: Host, kind: TrapKind): Answer {
    Answer(1, Text(Ascii("WebAssembly Trap: ") + h.trapText(kind)))
  }

  const CONTRACT_NOT_FOUND: Answer := Answer(2, Text(Ascii("Contract not found")))

  function ToBytes(h: Host, a: Answer): bytes {
    LittleEndian(a.code, 4) + h.encode(a.value)
  }

  /** Nothing when the bytes make the host panic. */
  function FromBytes(h: Host, b: bytes): Option<Answer> {
    if b == [] then Some(VM_PANIC)
    else if |b| < 4 then None
    else match h.decode(b[4..])
      case None => None
      case Some(v) => Some(Answer(FromLittleEndian(b[..4]) % U32, v))
  }

  /** The reply to a call of a contract that does not exist is CBOR of a pair, not the `ToBytes` form. */
  function NotFoundReply(h: Host, tx: Transaction): bytes {
    h.encode(Array([Array([Integer(CONTRACT_NOT_FOUND.code), CONTRACT_NOT_FOUND.value]), Integer(tx.gasLimit % U32)]))
  }

  // ---- Host functions (`externals.rs`) ----

  function Namespaced(tx: Transaction, key: bytes): bytes {
    RightPad(tx.contractAddress, ADDRESS_LENGTH) + key
  }

  /** Charges for a byte operation that has already been recorded as `before` and ends with `reply`. */
  function Pay(w: World, cost: Cost, before: seq<Event>, reply: bytes): Outcome {
    match UseGas(w.gas, Price(cost))
    case None => Outcome(Trapped(OutOfGas), w, before)
    case Some(gas) => Outcome(Replied(reply), w.(gas := gas), before + [Charged(cost, Price(cost))])
  }

  function HostCall(h: Host, tx: Transaction, action: Action, w: World): (o: Outcome)
    requires !action.Call?
    ensures o.exit.Replied? || o.exit.Trapped? || o.exit.Panicked?
  {
    match action
    case GetMemory(k) =>
      var key := Namespaced(tx, k);
      var value := Read(w.memory, h.memoryBase, key);
      Pay(w, ReadMemory(|value|), [MemoryRead(key, value)], value)
    case GetStorage(k) =>
      var key := Namespaced(tx, k);
      var value := Read(w.storage, h.storageBase, key);
      Pay(w, ReadStorage(|value|), [StorageRead(key, value)], value)
    case SetMemory(k, value) =>
      (match UseGas(w.gas, Price(WroteMemory(|value|)))
       case None => Outcome(Trapped(OutOfGas), w, [])
       case Some(gas) =>
         var key := Namespaced(tx, k);
         Outcome(Replied([]), w.(gas := gas, memory := Apply(w.memory, Put(key, value))), [MemorySet(key, value)]))
    case SetStorage(k, value) =>
      (match UseGas(w.gas, Price(WroteStorage(|value|)))
       case None => Outcome(Trapped(OutOfGas), w, [])
       case Some(gas) =>
         var key := Namespaced(tx, k);
         Outcome(Replied([]), w.(gas := gas, storage := Apply(w.storage, Put(key, value))), [StorageSet(key, value)]))
    case Plain => Outcome(Replied([]), w, [])
    case Trap(kind) => Outcome(Trapped(kind), w, [])
    case Return(_) => Outcome(Panicked, w, [])
    case Fault => Outcome(Panicked, w, [])
  }

  function Prepend(before: seq<Event>, o: Outcome): Outcome {
    o.(trace := before + o.trace)
  }

  /** Runs an instance until the exported function it is in returns, traps or panics. Each instruction is
      charged before it is carried out. */
  function Invoke(h: Host, fuel: nat, tx: Transaction, env: Env, local: Local, w: World): (o: Outcome)
    ensures o.exit.Finished? || o.exit.Trapped? || o.exit.Panicked? || o.exit.OutOfFuel?
    decreases fuel, 0, 0
  {
    if fuel == 0 then Outcome(OutOfFuel, w, [])
    else match UseGas(w.gas, INSTRUCTION)
      case None => Outcome(Trapped(OutOfGas), w, [])
      case Some(gas) =>
        var w1 := w.(gas := gas);
        var action := h.step(local);
        Prepend([Charged(Instruction, INSTRUCTION)],
          if action.Return? then Outcome(Finished(local, action.result), w1, [])
          else
            var o := CarryOut(h, fuel - 1, tx, env, action, w1);
            if o.exit.Replied?
            then Prepend(o.trace, Invoke(h, fuel - 1, tx, env, h.resume(local, o.exit.reply), o.world))
            else o)
  }

  /** `invoke_index`: what the host does for one action. */
  function CarryOut(h: Host, fuel: nat, tx: Transaction, env: Env, action: Action, w: World): (o: Outcome)
    ensures o.exit.Replied? || o.exit.Trapped? || o.exit.Panicked? || o.exit.OutOfFuel?
    decreases fuel, 4, 0
  {
    if action.Call? then ExternalCall(h, fuel, tx, env, action.address, action.function_, action.arguments, w)
    else HostCall(h, tx, action, w)
  }

  /** Copies the arguments into the instance, one run of its `__malloc` each. Whatever trap `__malloc` ends
      with is reported as out of gas. */
  function PassArguments(h: Host, fuel: nat, tx: Transaction, env: Env, local: Local, arguments: seq<Value>, w: World)
    : (o: Outcome)
    ensures o.exit.Finished? || o.exit.Trapped? || o.exit.Panicked? || o.exit.OutOfFuel?
    decreases fuel, 1, |arguments|
  {
    if arguments == [] then Outcome(Finished(local, []), w, [])
    else
      var argument := h.encode(arguments[0]);
      var o := Invoke(h, fuel, tx, env, h.malloc(local, 4 + |argument|), w);
      match o.exit
      case Finished(local', pointer) =>
        (match h.write(local', pointer, argument)
         case None => Outcome(Panicked, o.world, o.trace)
         case Some(l) => Prepend(o.trace, PassArguments(h, fuel, tx, env, l, arguments[1..], o.world)))
      case Trapped(_) => o.(exit := Trapped(OutOfGas))
      case _ => o
  }

  function BothApply(w: World, op: Op): World {
    w.(memory := Apply(w.memory, op), storage := Apply(w.storage, op))
  }

  /** `VM::call`: commits when the function returns, rolls back when it traps, and does neither when the
      arguments cannot be passed. */
  function CallFunction(h: Host, fuel: nat, tx: Transaction, env: Env, local: Local, arguments: seq<Value>, w: World)
    : (o: Outcome)
    ensures o.exit.Answered? || o.exit.Panicked? || o.exit.OutOfFuel?
    decreases fuel, 2, 0
  {
    var p := PassArguments(h, fuel, tx, env, local, arguments, w);
    match p.exit
    case Trapped(kind) => p.(exit := Answered(WasmTrap(h, kind)))
    case Finished(local', _) =>
      (match h.enter(local', tx, env)
       case None => p.(exit := Panicked)
       case Some(entry) => Prepend(p.trace, RunBody(h, fuel, tx, env, entry, p.world)))
    case _ => p
  }

  /** A call of the function and arguments that the transaction itself names. */
  function CallTransaction(h: Host, fuel: nat, tx: Transaction, env: Env, local: Local, w: World): Outcome {
    CallFunction(h, fuel, tx, env, local, tx.arguments, w)
  }

  /** The part of `VM::call` after the arguments are in place. */
  function RunBody(h: Host, fuel: nat, tx: Transaction, env: Env, entry: Local, w: World): (o: Outcome)
    ensures o.exit.Answered? || o.exit.Panicked? || o.exit.OutOfFuel?
    decreases fuel, 1, 0
  {
    var r := Invoke(h, fuel, tx, env, entry, w);
    match r.exit
    case Finished(_, b) =>
      Outcome(match FromBytes(h, b) case None => Panicked case Some(a) => Answered(a),
              BothApply(r.world, Keep), r.trace + [Committed])
    case Trapped(kind) =>
      Outcome(Answered(WasmTrap(h, kind)), BothApply(r.world, Drop), r.trace + [RolledBack])
    case _ => r
  }

  /** `external_call`: the callee runs on the caller's overlays with a copy of its gas; the difference is
      charged to the caller afterwards. */
  function ExternalCall(h: Host, fuel: nat, tx: Transaction, env: Env,
                        address: bytes, function_: bytes, arguments: seq<Value>, w: World): (o: Outcome)
    ensures o.exit.Replied? || o.exit.Trapped? || o.exit.Panicked? || o.exit.OutOfFuel?
    decreases fuel, 3, 0
  {
    var key := RightPad(address, ADDRESS_LENGTH);
    var code := Read(w.storage, h.storageBase, key);
    var before := [StorageRead(key, code)];
    if code == [] then Outcome(Replied(NotFoundReply(h, tx)), w, before)
    else match h.instantiate(code)
      case None => Outcome(Panicked, w, before)
      case Some(local) =>
        var tx' := tx.(contractAddress := address, function_ := function_);
        var env' := env.(caller := Some(tx.contractAddress));
        var c := CallFunction(h, fuel, tx', env', local, arguments, w);
        Settle(h, w, Prepend(before + [Entered(address)], c))
  }

  /** The end of `external_call`: both gas values are unwrapped, subtracted in u32 and charged. */
  function Settle(h: Host, w: World, c: Outcome): Outcome {
    if !c.exit.Answered? then c
    else if w.gas.None? || c.world.gas.None? then c.(exit := Panicked)
    else
      var used := (w.gas.value - c.world.gas.value) % U32;
      match UseGas(w.gas, used)
      case None => Outcome(Trapped(OutOfGas), c.world.(gas := w.gas), c.trace + [Left])
      case Some(gas) =>
        Outcome(Replied(ToBytes(h, c.exit.answer)), c.world.(gas := gas), c.trace + [Left, Settled(used)])
  }
}
