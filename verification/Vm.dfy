/** The virtual machine as the program runs it: frames are objects, and all frames of a call tree share one
    memory overlay and one storage overlay. Every method is proved against `Machine`. */
module Vm {
  import opened Bytes
  import opened Overlay
  import opened Machine

  class VM {
    const host: Host
    const memory: Store
    const storage: Store
    const transaction: Transaction
    const env: Env
    var gas: Option<u32>

    ghost predicate Valid() {
      && memory != storage
      && memory.base == host.memoryBase
      && storage.base == host.storageBase
    }

    ghost function View(): World
      reads this, memory, storage
    {
      World(memory.View(), storage.View(), gas)
    }

    constructor (host: Host, memory: Store, storage: Store, transaction: Transaction, env: Env, gas: Option<u32>)
      requires memory != storage && memory.base == host.memoryBase && storage.base == host.storageBase
      ensures Valid()
      ensures this.host == host && this.memory == memory && this.storage == storage
      ensures this.transaction == transaction && this.env == env
      ensures View() == World(memory.View(), storage.View(), gas)
    {
      this.host := host;
      this.memory := memory;
      this.storage := storage;
      this.transaction := transaction;
      this.env := env;
      this.gas := gas;
    }

    method TakeGas(amount: u32) returns (ok: bool)
      modifies this`gas
      ensures ok == UseGas(old(gas), amount).Some?
      ensures gas == if ok then UseGas(old(gas), amount).value else old(gas)
    {
      ok := true;
      if gas.Some? {
        if gas.value < amount { ok := false; } else { gas := Some(gas.value - amount); }
      }
    }

    method NamespacedKey(key: bytes) returns (r: bytes)
      ensures r == Namespaced(transaction, key)
    {
      var padded := RightPadVec(transaction.contractAddress, ADDRESS_LENGTH);
      r := padded + key;
    }

    /** `get_memory`, `set_memory`, `get_storage` and `set_storage`, and the actions that end the instance. */
    method HostFunction(action: Action) returns (exit: Exit)
      requires Valid() && !action.Call?
      modifies this`gas, memory, storage
      ensures exit == HostCall(host, transaction, action, old(View())).exit
      ensures View() == HostCall(host, transaction, action, old(View())).world
    {
      exit := Panicked;
      match action
      case GetMemory(k) =>
        var key := NamespacedKey(k);
        var value := memory.Get(key);
        var ok := TakeGas(Price(ReadMemory(|value|)));
        exit := if ok then Replied(value) else Trapped(OutOfGas);
      case SetMemory(k, value) =>
        var ok := TakeGas(Price(WroteMemory(|value|)));
        if ok {
          var key := NamespacedKey(k);
          memory.Set(key, value);
          exit := Replied([]);
        } else {
          exit := Trapped(OutOfGas);
        }
      case GetStorage(k) =>
        var key := NamespacedKey(k);
        var value := storage.Get(key);
        var ok := TakeGas(Price(ReadStorage(|value|)));
        exit := if ok then Replied(value) else Trapped(OutOfGas);
      case SetStorage(k, value) =>
        var ok := TakeGas(Price(WroteStorage(|value|)));
        if ok {
          var key := NamespacedKey(k);
          storage.Set(key, value);
          exit := Replied([]);
        } else {
          exit := Trapped(OutOfGas);
        }
      case Plain => exit := Replied([]);
      case Trap(kind) => exit := Trapped(kind);
      case Return(_) =>
      case Fault =>
    }

    method InvokeIndex(fuel: nat, action: Action) returns (exit: Exit)
      requires Valid()
      modifies this`gas, memory, storage
      ensures EndsAs(exit, View(), CarryOut(host, fuel, transaction, env, action, old(View())))
      decreases fuel, 4, 0
    {
      if action.Call? {
        exit := CallExternal(fuel, action.address, action.function_, action.arguments);
      } else {
        exit := HostFunction(action);
      }
    }

    /** The interpreter's loop over one exported function, calling back into this frame. */
    method InvokeExport(fuel: nat, local: Local) returns (exit: Exit)
      requires Valid()
      modifies this`gas, memory, storage
      ensures EndsAs(exit, View(), Invoke(host, fuel, transaction, env, local, old(View())))
      decreases fuel, 0, 0
    {
      var l, f: nat := local, fuel;
      while f > 0
        invariant f <= fuel
        invariant SameEnd(Invoke(host, fuel, transaction, env, local, old(View())),
                          Invoke(host, f, transaction, env, l, View()))
        decreases f
      {
        ghost var w := View();
        var ok := TakeGas(INSTRUCTION);
        if !ok { return Trapped(OutOfGas); }
        var action := host.step(l);
        if action.Return? { return Finished(l, action.result); }
        InvokeUnfolds(host, f, transaction, env, l, w, View());
        var e := InvokeIndex(f - 1, action);
        if !e.Replied? { return e; }
        l := host.resume(l, e.reply);
        f := f - 1;
      }
      exit := OutOfFuel;
    }

    method WriteArguments(fuel: nat, local: Local, arguments: seq<Value>) returns (exit: Exit)
      requires Valid()
      modifies this`gas, memory, storage
      ensures EndsAs(exit, View(), PassArguments(host, fuel, transaction, env, local, arguments, old(View())))
      decreases fuel, 1, 0
    {
      var l := local;
      for i := 0 to |arguments|
        invariant SameEnd(PassArguments(host, fuel, transaction, env, local, arguments, old(View())),
                          PassArguments(host, fuel, transaction, env, l, arguments[i..], View()))
      {
        assert arguments[i..][1..] == arguments[i + 1..];
        var argument := host.encode(arguments[i]);
        var e := InvokeExport(fuel, host.malloc(l, 4 + |argument|));
        if e.Trapped? { return Trapped(OutOfGas); }
        if !e.Finished? { return e; }
        var written := host.write(e.local, e.result, argument);
        if written.None? { return Panicked; }
        l := written.value;
      }
      exit := Finished(l, []);
    }

    method Call(fuel: nat, local: Local, arguments: seq<Value>) returns (exit: Exit)
      requires Valid()
      modifies this`gas, memory, storage
      ensures EndsAs(exit, View(), CallFunction(host, fuel, transaction, env, local, arguments, old(View())))
      decreases fuel, 2, 0
    {
      var p := WriteArguments(fuel, local, arguments);
      if p.Trapped? { return Answered(WasmTrap(host, p.kind)); }
      if !p.Finished? { return p; }
      var entry := host.enter(p.local, transaction, env);
      if entry.None? { return Panicked; }
      var r := InvokeExport(fuel, entry.value);
      match r
      case Finished(_, b) =>
        memory.Commit();
        storage.Commit();
        var answer := FromBytes(host, b);
        exit := if answer.None? then Panicked else Answered(answer.value);
      case Trapped(kind) =>
        memory.Rollback();
        storage.Rollback();
        exit := Answered(WasmTrap(host, kind));
      case _ =>
        exit := r;
    }

    method CallExternal(fuel: nat, address: bytes, function_: bytes, arguments: seq<Value>) returns (exit: Exit)
      requires Valid()
      modifies this`gas, memory, storage
      ensures EndsAs(exit, View(),
                     ExternalCall(host, fuel, transaction, env, address, function_, arguments, old(View())))
      decreases fuel, 3, 0
    {
      var key := RightPadVec(address, ADDRESS_LENGTH);
      var code := storage.Get(key);
      if code == [] { return Replied(NotFoundReply(host, transaction)); }
      var instance := host.instantiate(code);
      if instance.None? { return Panicked; }
      var vm := new VM(host, memory, storage,
                       transaction.(contractAddress := address, function_ := function_),
                       env.(caller := Some(transaction.contractAddress)), gas);
      ghost var w := View();
      var e := vm.Call(fuel, instance.value, arguments);
      ghost var c := CallFunction(host, fuel, vm.transaction, vm.env, instance.value, arguments, w);
      assert EndsAs(e, vm.View(), c);
      exit := CloseCall(e, vm.gas, w, [StorageRead(key, code)] + [Entered(address)], c);
    }

    /** The end of `external_call`, given the exit of the callee's frame and the gas left in it. */
    method CloseCall(e: Exit, left: Option<u32>, ghost w: World, ghost before: seq<Event>, ghost c: Outcome)
      returns (exit: Exit)
      requires e.Answered? || e.Panicked? || e.OutOfFuel?
      requires EndsAs(e, World(memory.View(), storage.View(), left), c) && gas == w.gas
      modifies this`gas
      ensures EndsAs(exit, View(), Settle(host, w, Prepend(before, c)))
    {
      SettleEnds(host, w, before, c);
      if !e.Answered? { return e; }
      if gas.None? || left.None? { return Panicked; }
      var ok := TakeGas((gas.value - left.value) % U32);
      if !ok { return Trapped(OutOfGas); }
      exit := Replied(ToBytes(host, e.answer));
    }
  }

  /** How a settled call ends, by the answer and the gas of the callee. */
  lemma SettleEnds(h: Host, w: World, before: seq<Event>, c: Outcome)
    ensures var s := Settle(h, w, Prepend(before, c));
            if !c.exit.Answered? then s.exit == c.exit
            else if w.gas.None? || c.world.gas.None? then s.exit == Panicked
            else match UseGas(w.gas, (w.gas.value - c.world.gas.value) % U32)
              case None => s.exit == Trapped(OutOfGas) && s.world == c.world.(gas := w.gas)
              case Some(gas) => s.exit == Replied(ToBytes(h, c.exit.answer)) && s.world == c.world.(gas := gas)
  {}

  /** One round of the interpreter after its charge: the host's reply is resumed, anything else ends it. */
  lemma InvokeUnfolds(h: Host, f: nat, tx: Transaction, env: Env, l: Local, w: World, w1: World)
    requires f > 0 && UseGas(w.gas, INSTRUCTION).Some? && w1 == w.(gas := UseGas(w.gas, INSTRUCTION).value)
    requires !h.step(l).Return?
    ensures var o := CarryOut(h, f - 1, tx, env, h.step(l), w1);
            SameEnd(Invoke(h, f, tx, env, l, w),
                    if o.exit.Replied? then Invoke(h, f - 1, tx, env, h.resume(l, o.exit.reply), o.world) else o)
  {}

  /** The same exit in the same state; a panic ends the process, so nothing is said about its state. */
  ghost predicate EndsAs(exit: Exit, world: World, o: Outcome) {
    exit == o.exit && (!exit.Panicked? && !exit.OutOfFuel? ==> world == o.world)
  }

  ghost predicate SameEnd(a: Outcome, b: Outcome) {
    a.exit == b.exit && a.world == b.world
  }
}
