/** When a call takes effect as a whole or not at all. A transaction that calls other contracts and traps can still
    change committed state: the writes of the calls that returned on the way, and its own from before them, stay. */
module Atomicity {
  import opened Bytes
  import opened Overlay
  import opened Machine
  import opened MachineFacts
  import opened MachineTheorems

  // ---- How a call's answer and its last switch belong together ----

  /** The answer was read from bytes that the contract returned. */
  ghost predicate Returned(h: Host, answer: Answer) {
    exists b: bytes :: FromBytes(h, b) == Some(answer)
  }

  /** The answer reports a trap. */
  ghost predicate ReportsTrap(h: Host, answer: Answer) {
    exists kind :: answer == WasmTrap(h, kind)
  }

  predicate EndsWith(t: seq<Event>, e: Event) {
    t != [] && t[|t| - 1] == e
  }

  /** A call that returned ends by committing, one that trapped in its function ends by rolling back, and one
      that trapped before leaves it at what `__malloc` did. */
  lemma AnswerTellsSwitch(h: Host, fuel: nat, tx: Transaction, env: Env, local: Local, w: World)
    requires CallTransaction(h, fuel, tx, env, local, w).exit.Answered?
    ensures var o := CallTransaction(h, fuel, tx, env, local, w);
            var p := PassArguments(h, fuel, tx, env, local, tx.arguments, w);
            if p.exit.Trapped? then o.trace == p.trace && ReportsTrap(h, o.exit.answer)
            else (EndsWith(o.trace, Committed) && Returned(h, o.exit.answer)) ||
                 (EndsWith(o.trace, RolledBack) && ReportsTrap(h, o.exit.answer))
  {
    var p := PassArguments(h, fuel, tx, env, local, tx.arguments, w);
    if p.exit.Finished? {
      var entry := h.enter(p.exit.local, tx, env).value;
      var r := Invoke(h, fuel, tx, env, entry, p.world);
      var body := RunBody(h, fuel, tx, env, entry, p.world);
      if r.exit.Finished? {
        assert FromBytes(h, r.exit.result) == Some(body.exit.answer);
        assert EndsWith(p.trace + body.trace, Committed);
      } else {
        assert EndsWith(p.trace + body.trace, RolledBack);
      }
    }
  }

  // ---- When a call changes nothing ----

  /** Whatever it calls and however it ends, a call leaves both changesets as they were exactly when the last
      surviving write of every key, in its whole tree, wrote the value that the key had. */
  lemma CallChangesNothingExactly(h: Host, fuel: nat, tx: Transaction, env: Env, local: Local, w: World)
    requires w.memory.working == map[] && w.storage.working == map[]
    ensures var o := CallTransaction(h, fuel, tx, env, local, w);
            (o.world.memory.changeset == w.memory.changeset && o.world.storage.changeset == w.storage.changeset) <==>
            (SurvivorsRestore(w.memory.changeset, MemoryLog(o.trace)) &&
             SurvivorsRestore(w.storage.changeset, StorageLog(o.trace)))
  {
    var o := CallTransaction(h, fuel, tx, env, local, w);
    CallFunctionFacts(h, fuel, tx, env, local, tx.arguments, w);
    LogsExplainLayers(w, o.trace);
    UnchangedExactly(w.memory.changeset, MemoryLog(o.trace));
    UnchangedExactly(w.storage.changeset, StorageLog(o.trace));
  }

  // ---- A call that enters no other contract is atomic ----

  predicate Solitary(t: seq<Event>) {
    forall e :: e in t ==> !e.Entered?
  }

  predicate NoSwitch(t: seq<Event>) {
    Committed !in t && RolledBack !in t
  }

  /** Only nested calls switch the overlays before the function has ended. */
  lemma {:induction false} InvokeNoSwitch(h: Host, fuel: nat, tx: Transaction, env: Env, local: Local, w: World)
    requires Solitary(Invoke(h, fuel, tx, env, local, w).trace)
    ensures NoSwitch(Invoke(h, fuel, tx, env, local, w).trace)
    decreases fuel
  {
    if fuel == 0 || UseGas(w.gas, INSTRUCTION).None? || h.step(local).Return? {
    } else {
      var w1 := w.(gas := UseGas(w.gas, INSTRUCTION).value);
      var first := [Charged(Instruction, INSTRUCTION)];
      var o := CarryOut(h, fuel - 1, tx, env, h.step(local), w1);
      if o.exit.Replied? {
        var rest := Invoke(h, fuel - 1, tx, env, h.resume(local, o.exit.reply), o.world);
        SolitaryParts(first, o.trace + rest.trace);
        SolitaryParts(o.trace, rest.trace);
        CarryOutNoSwitch(h, fuel - 1, tx, env, h.step(local), w1);
        InvokeNoSwitch(h, fuel - 1, tx, env, h.resume(local, o.exit.reply), o.world);
      } else {
        SolitaryParts(first, o.trace);
        CarryOutNoSwitch(h, fuel - 1, tx, env, h.step(local), w1);
      }
    }
  }

  lemma SolitaryParts(a: seq<Event>, b: seq<Event>)
    requires Solitary(a + b)
    ensures Solitary(a) && Solitary(b)
  {
    forall e | e in a ensures !e.Entered? { assert e in a + b; }
    forall e | e in b ensures !e.Entered? { assert e in a + b; }
  }

  lemma CarryOutNoSwitch(h: Host, fuel: nat, tx: Transaction, env: Env, action: Action, w: World)
    requires Solitary(CarryOut(h, fuel, tx, env, action, w).trace)
    ensures NoSwitch(CarryOut(h, fuel, tx, env, action, w).trace)
  {
    if action.Call? {
      var key := RightPad(action.address, ADDRESS_LENGTH);
      var code := Read(w.storage, h.storageBase, key);
      if code != [] && h.instantiate(code).Some? {
        EnteredIsRecorded(h, fuel, tx, env, action.address, action.function_, action.arguments, w);
      }
    }
  }

  lemma EnteredIsRecorded(h: Host, fuel: nat, tx: Transaction, env: Env, address: bytes, function_: bytes,
                          arguments: seq<Value>, w: World)
    requires var code := Read(w.storage, h.storageBase, RightPad(address, ADDRESS_LENGTH));
             code != [] && h.instantiate(code).Some?
    ensures Entered(address) in ExternalCall(h, fuel, tx, env, address, function_, arguments, w).trace
  {
    var t := ExternalCall(h, fuel, tx, env, address, function_, arguments, w).trace;
    assert |t| > 1 && t[1] == Entered(address);
  }

  lemma {:induction false} PassArgumentsNoSwitch(h: Host, fuel: nat, tx: Transaction, env: Env, local: Local,
                                                 arguments: seq<Value>, w: World)
    requires Solitary(PassArguments(h, fuel, tx, env, local, arguments, w).trace)
    ensures NoSwitch(PassArguments(h, fuel, tx, env, local, arguments, w).trace)
    decreases |arguments|
  {
    if arguments == [] {
    } else {
      var argument := h.encode(arguments[0]);
      var o := Invoke(h, fuel, tx, env, h.malloc(local, 4 + |argument|), w);
      if o.exit.Finished? && h.write(o.exit.local, o.exit.result, argument).Some? {
        var l := h.write(o.exit.local, o.exit.result, argument).value;
        SolitaryParts(o.trace, PassArguments(h, fuel, tx, env, l, arguments[1..], o.world).trace);
        PassArgumentsNoSwitch(h, fuel, tx, env, l, arguments[1..], o.world);
      }
      InvokeNoSwitch(h, fuel, tx, env, h.malloc(local, 4 + |argument|), w);
    }
  }

  /** The writes of a trace, whatever becomes of them. */
  function Puts(log: seq<Op>): seq<Write> {
    if log == [] then []
    else (if log[0].Put? then [Write(log[0].key, log[0].value)] else []) + Puts(log[1..])
  }

  /** Writes followed by one commit are all kept, in order; followed by a rollback, none. */
  lemma {:induction false} OneSwitchDecides(open: seq<Write>, log: seq<Op>, switch: Op)
    requires !switch.Put? && forall i :: 0 <= i < |log| ==> log[i].Put?
    ensures Kept(open, log + [switch]) == if switch.Keep? then open + Puts(log + [switch]) else []
    decreases |log|
  {
    var all := log + [switch];
    if log == [] {
      assert all[1..] == [];
      assert Kept(open, all) == if switch.Keep? then open + [] else [];
    } else {
      assert all[1..] == log[1..] + [switch];
      var w := Write(log[0].key, log[0].value);
      OneSwitchDecides(open + [w], log[1..], switch);
      assert open + [w] + Puts(all[1..]) == open + ([w] + Puts(all[1..]));
    }
  }

  lemma {:induction false} LogOfQuiet(t: seq<Event>, last: Event)
    requires NoSwitch(t)
    requires last == Committed || last == RolledBack
    ensures var switch := if last == Committed then Keep else Drop;
            && (forall i :: 0 <= i < |MemoryLog(t)| ==> MemoryLog(t)[i].Put?)
            && (forall i :: 0 <= i < |StorageLog(t)| ==> StorageLog(t)[i].Put?)
            && MemoryLog(t + [last]) == MemoryLog(t) + [switch]
            && StorageLog(t + [last]) == StorageLog(t) + [switch]
    decreases |t|
  {
    var all := t + [last];
    if t == [] {
      assert all[1..] == [];
    } else {
      assert all[1..] == t[1..] + [last];
      assert t[0] in t;
      LogOfQuiet(t[1..], last);
    }
  }

  lemma QuietLogKeepsNothing(t: seq<Event>)
    requires NoSwitch(t)
    ensures forall i :: 0 <= i < |MemoryLog(t)| ==> !MemoryLog(t)[i].Keep?
    ensures forall i :: 0 <= i < |StorageLog(t)| ==> !StorageLog(t)[i].Keep?
  {
    LogOfQuiet(t, Committed);
  }

  lemma SolitaryTraceIsAtomic(h: Host, fuel: nat, tx: Transaction, env: Env, local: Local, w: World)
    requires w.memory.working == map[] && w.storage.working == map[]
    requires CallTransaction(h, fuel, tx, env, local, w).exit.Answered?
    requires Solitary(CallTransaction(h, fuel, tx, env, local, w).trace)
    ensures var o := CallTransaction(h, fuel, tx, env, local, w);
            || (&& Returned(h, o.exit.answer)
                && o.world.memory.changeset == WriteAll(w.memory.changeset, Puts(MemoryLog(o.trace)))
                && o.world.storage.changeset == WriteAll(w.storage.changeset, Puts(StorageLog(o.trace))))
            || (&& ReportsTrap(h, o.exit.answer)
                && o.world.memory.changeset == w.memory.changeset
                && o.world.storage.changeset == w.storage.changeset)
  {
    var o := CallTransaction(h, fuel, tx, env, local, w);
    AnswerTellsSwitch(h, fuel, tx, env, local, w);
    CallFunctionFacts(h, fuel, tx, env, local, tx.arguments, w);
    SolitaryCallSwitchesOnce(h, fuel, tx, env, local, w);
    if PassArguments(h, fuel, tx, env, local, tx.arguments, w).exit.Trapped? {
      QuietTraceChangesNothing(w, o.trace);
    } else {
      OneSwitchTrace(w, o.trace[..|o.trace| - 1], o.trace[|o.trace| - 1], o.trace);
    }
  }

  lemma QuietTraceChangesNothing(w: World, t: seq<Event>)
    requires NoSwitch(t)
    ensures EffectAll(w, t).memory.changeset == w.memory.changeset
    ensures EffectAll(w, t).storage.changeset == w.storage.changeset
  {
    QuietLogKeepsNothing(t);
    LogsExplainLayers(w, t);
    NoCommitNoChange(w.memory, MemoryLog(t));
    NoCommitNoChange(w.storage, StorageLog(t));
  }

  /** A trace whose only switch comes last commits all its writes or none. */
  lemma OneSwitchTrace(w: World, t: seq<Event>, last: Event, all: seq<Event>)
    requires NoSwitch(t) && (last == Committed || last == RolledBack) && all == t + [last]
    requires w.memory.working == map[] && w.storage.working == map[]
    ensures var r := EffectAll(w, all);
            if last == Committed then
              && r.memory.changeset == WriteAll(w.memory.changeset, Puts(MemoryLog(all)))
              && r.storage.changeset == WriteAll(w.storage.changeset, Puts(StorageLog(all)))
            else r.memory.changeset == w.memory.changeset && r.storage.changeset == w.storage.changeset
  {
    LogOfQuiet(t, last);
    LogsExplainLayers(w, all);
    var switch := if last == Committed then Keep else Drop;
    OneSwitchLayer(w.memory, MemoryLog(t), switch);
    OneSwitchLayer(w.storage, StorageLog(t), switch);
  }

  lemma OneSwitchLayer(o: Layers, log: seq<Op>, switch: Op)
    requires !switch.Put? && forall i :: 0 <= i < |log| ==> log[i].Put?
    requires o.working == map[]
    ensures ApplyAll(o, log + [switch]).changeset ==
            if switch.Keep? then WriteAll(o.changeset, Puts(log + [switch])) else o.changeset
  {
    OneSwitchDecides([], log, switch);
    assert [] + Puts(log + [switch]) == Puts(log + [switch]);
    assert WriteAll(map[], []) == o.working;
    SegmentsRefine(o, [], log + [switch]);
  }

  /** Its trace holds at most one switch, and at the end. */
  lemma SolitaryCallSwitchesOnce(h: Host, fuel: nat, tx: Transaction, env: Env, local: Local, w: World)
    requires CallTransaction(h, fuel, tx, env, local, w).exit.Answered?
    requires Solitary(CallTransaction(h, fuel, tx, env, local, w).trace)
    ensures var o := CallTransaction(h, fuel, tx, env, local, w);
            if PassArguments(h, fuel, tx, env, local, tx.arguments, w).exit.Trapped? then NoSwitch(o.trace)
            else o.trace != [] && NoSwitch(o.trace[..|o.trace| - 1])
  {
    var o := CallTransaction(h, fuel, tx, env, local, w);
    var p := PassArguments(h, fuel, tx, env, local, tx.arguments, w);
    if p.exit.Finished? {
      var entry := h.enter(p.exit.local, tx, env).value;
      var r := Invoke(h, fuel, tx, env, entry, p.world);
      var switch := if r.exit.Finished? then Committed else RolledBack;
      var body := RunBody(h, fuel, tx, env, entry, p.world);
      assert o == Prepend(p.trace, body) && body.trace == r.trace + [switch];
      SolitaryParts(p.trace, r.trace + [switch]);
      SolitaryParts(r.trace, [switch]);
      InvokeNoSwitch(h, fuel, tx, env, entry, p.world);
      assert o.trace[..|o.trace| - 1] == p.trace + r.trace;
    }
    PassArgumentsNoSwitch(h, fuel, tx, env, local, tx.arguments, w);
  }
}
