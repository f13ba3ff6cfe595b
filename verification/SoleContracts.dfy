/** Contracts whose code calls no other contract take effect as a whole or not at all. */
module SoleContracts {
  import opened Bytes
  import opened Overlay
  import opened Machine
  import opened MachineTheorems
  import opened Atomicity

  /** From the program points `own` execution comes to no others, and no instruction there calls a contract. */
  ghost predicate KeepsToItself(h: Host, own: Local -> bool) {
    && (forall l :: own(l) ==> !h.step(l).Call?)
    && (forall l, reply :: own(l) ==> own(h.resume(l, reply)))
    && (forall l, n :: own(l) ==> own(h.malloc(l, n)))
    && (forall l, pointer, b :: own(l) && h.write(l, pointer, b).Some? ==> own(h.write(l, pointer, b).value))
    && (forall l, tx, env :: own(l) && h.enter(l, tx, env).Some? ==> own(h.enter(l, tx, env).value))
  }

  lemma {:induction false} InvokeStays(h: Host, own: Local -> bool, fuel: nat, tx: Transaction, env: Env, local: Local,
                                       w: World)
    requires KeepsToItself(h, own) && own(local)
    ensures var o := Invoke(h, fuel, tx, env, local, w);
            Solitary(o.trace) && (o.exit.Finished? ==> own(o.exit.local))
    decreases fuel
  {
    if fuel == 0 || UseGas(w.gas, INSTRUCTION).None? || h.step(local).Return? {
    } else {
      var w1 := w.(gas := UseGas(w.gas, INSTRUCTION).value);
      var o := HostCall(h, tx, h.step(local), w1);
      assert o == CarryOut(h, fuel - 1, tx, env, h.step(local), w1);
      HostCallStays(h, tx, h.step(local), w1);
      if o.exit.Replied? { InvokeStays(h, own, fuel - 1, tx, env, h.resume(local, o.exit.reply), o.world); }
    }
  }

  lemma HostCallStays(h: Host, tx: Transaction, action: Action, w: World)
    requires !action.Call?
    ensures Solitary(HostCall(h, tx, action, w).trace)
  {}

  lemma {:induction false} PassArgumentsStays(h: Host, own: Local -> bool, fuel: nat, tx: Transaction, env: Env,
                                              local: Local, arguments: seq<Value>, w: World)
    requires KeepsToItself(h, own) && own(local)
    ensures var o := PassArguments(h, fuel, tx, env, local, arguments, w);
            Solitary(o.trace) && (o.exit.Finished? ==> own(o.exit.local))
    decreases |arguments|
  {
    if arguments == [] {
    } else {
      var argument := h.encode(arguments[0]);
      var o := Invoke(h, fuel, tx, env, h.malloc(local, 4 + |argument|), w);
      InvokeStays(h, own, fuel, tx, env, h.malloc(local, 4 + |argument|), w);
      if o.exit.Finished? && h.write(o.exit.local, o.exit.result, argument).Some? {
        var l := h.write(o.exit.local, o.exit.result, argument).value;
        PassArgumentsStays(h, own, fuel, tx, env, l, arguments[1..], o.world);
      }
    }
  }

  lemma CallStays(h: Host, own: Local -> bool, fuel: nat, tx: Transaction, env: Env, local: Local, w: World)
    requires KeepsToItself(h, own) && own(local)
    ensures Solitary(CallTransaction(h, fuel, tx, env, local, w).trace)
  {
    var p := PassArguments(h, fuel, tx, env, local, tx.arguments, w);
    PassArgumentsStays(h, own, fuel, tx, env, local, tx.arguments, w);
    if p.exit.Finished? && h.enter(p.exit.local, tx, env).Some? {
      var entry := h.enter(p.exit.local, tx, env).value;
      var body := RunBody(h, fuel, tx, env, entry, p.world);
      InvokeStays(h, own, fuel, tx, env, entry, p.world);
      assert CallTransaction(h, fuel, tx, env, local, w) == Prepend(p.trace, body);
      assert Solitary(body.trace);
    }
  }

  /** A contract whose code calls no other takes effect as a whole or not at all, for every transaction in every
      state: if it is answered with what it returned, all its writes are committed, in order; if it is answered
      with a trap, none is. */
  lemma SolitaryCallIsAtomic(h: Host, own: Local -> bool, fuel: nat, tx: Transaction, env: Env, local: Local, w: World)
    requires KeepsToItself(h, own) && own(local)
    requires w.memory.working == map[] && w.storage.working == map[]
    requires CallTransaction(h, fuel, tx, env, local, w).exit.Answered?
    ensures var o := CallTransaction(h, fuel, tx, env, local, w);
            || (&& Returned(h, o.exit.answer)
                && o.world.memory.changeset == WriteAll(w.memory.changeset, Puts(MemoryLog(o.trace)))
                && o.world.storage.changeset == WriteAll(w.storage.changeset, Puts(StorageLog(o.trace))))
            || (&& ReportsTrap(h, o.exit.answer)
                && o.world.memory.changeset == w.memory.changeset
                && o.world.storage.changeset == w.storage.changeset)
  {
    CallStays(h, own, fuel, tx, env, local, w);
    SolitaryTraceIsAtomic(h, fuel, tx, env, local, w);
  }
}
