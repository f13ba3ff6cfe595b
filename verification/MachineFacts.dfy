/** What holds of every execution: its trace explains its effects, gas is conserved, writes stay in the
    namespaces of the contracts entered, and nesting is paid for. */
module MachineFacts {
  import opened Bytes
  import opened Overlay
  import opened Machine

  // ---- An independent reading of traces, one event at a time ----

  /** What an event takes from the gas. A settlement repeats what the callee's events have already taken. */
  function Amount(e: Event): u32 {
    match e
    case Charged(_, amount) => amount
    case MemorySet(_, v) => Price(WroteMemory(|v|))
    case StorageSet(_, v) => Price(WroteStorage(|v|))
    case _ => 0
  }

  function Effect(w: World, e: Event): World {
    var w1 := w.(gas := match UseGas(w.gas, Amount(e)) case None => w.gas case Some(gas) => gas);
    match e
    case MemorySet(k, v) => w1.(memory := Apply(w.memory, Put(k, v)))
    case StorageSet(k, v) => w1.(storage := Apply(w.storage, Put(k, v)))
    case Committed => BothApply(w1, Keep)
    case RolledBack => BothApply(w1, Drop)
    case _ => w1
  }

  /** A charge is the price of its operation, the gas covers it, and a read returns the committed value. */
  predicate Allowed(h: Host, w: World, e: Event) {
    && UseGas(w.gas, Amount(e)).Some?
    && match e
       case Charged(cost, amount) => amount == Price(cost)
       case MemoryRead(k, v) => v == Read(w.memory, h.memoryBase, k)
       case StorageRead(k, v) => v == Read(w.storage, h.storageBase, k)
       case _ => true
  }

  function EffectAll(w: World, t: seq<Event>): World
    decreases t
  {
    if t == [] then w else EffectAll(Effect(w, t[0]), t[1..])
  }

  predicate Legal(h: Host, w: World, t: seq<Event>)
    decreases t
  {
    t == [] || (Allowed(h, w, t[0]) && Legal(h, Effect(w, t[0]), t[1..]))
  }

  lemma {:induction false} Concat(h: Host, w: World, a: seq<Event>, b: seq<Event>)
    ensures EffectAll(w, a + b) == EffectAll(EffectAll(w, a), b)
    ensures Legal(h, w, a + b) <==> Legal(h, w, a) && Legal(h, EffectAll(w, a), b)
    decreases a
  {
    if a == [] {
      assert a + b == b;
    } else {
      assert (a + b)[1..] == a[1..] + b;
      Concat(h, Effect(w, a[0]), a[1..], b);
    }
  }

  // ---- Measures of a trace ----

  /** Gas paid by the accepted charges; settlements are not counted again. */
  function Paid(t: seq<Event>): nat {
    if t == [] then 0 else Amount(t[0]) + Paid(t[1..])
  }

  function Instructions(t: seq<Event>): nat {
    if t == [] then 0
    else (if t[0].Charged? && t[0].cost.Instruction? then 1 else 0) + Instructions(t[1..])
  }

  function Net(t: seq<Event>): int {
    if t == [] then 0 else (if t[0].Entered? then 1 else if t[0].Left? then -1 else 0) + Net(t[1..])
  }

  /** The deepest nesting reached, counted from the frame the trace starts in. */
  function Depth(t: seq<Event>): nat {
    if t == [] then 0
    else
      var d := (if t[0].Entered? then 1 else if t[0].Left? then -1 else 0) + Depth(t[1..]);
      if d < 0 then 0 else d
  }

  lemma {:induction false} MeasureConcat(a: seq<Event>, b: seq<Event>)
    ensures Paid(a + b) == Paid(a) + Paid(b)
    ensures Instructions(a + b) == Instructions(a) + Instructions(b)
    ensures Net(a + b) == Net(a) + Net(b)
    ensures Net(a) <= Depth(a)
    ensures Depth(a + b) == if Net(a) + Depth(b) > Depth(a) then Net(a) + Depth(b) else Depth(a)
    decreases a
  {
    if a == [] {
      assert a + b == b;
    } else {
      assert (a + b)[1..] == a[1..] + b;
      MeasureConcat(a[1..], b);
    }
  }

  function WriteKey(e: Event): Option<bytes> {
    match e
    case MemorySet(k, _) => Some(k)
    case StorageSet(k, _) => Some(k)
    case _ => None
  }

  predicate InNamespace(address: bytes, key: bytes) {
    RightPad(address, ADDRESS_LENGTH) <= key
  }

  /** `address` is the frame's own contract or one that the trace enters. */
  predicate Ran(own: bytes, t: seq<Event>, address: bytes) {
    address == own || Entered(address) in t
  }

  ghost predicate KeyConfined(own: bytes, t: seq<Event>, key: bytes) {
    exists address :: Ran(own, t, address) && InNamespace(address, key)
  }

  ghost predicate Confined(own: bytes, t: seq<Event>) {
    forall e :: e in t && WriteKey(e).Some? ==> KeyConfined(own, t, WriteKey(e).value)
  }

  lemma ConfinedConcat(own: bytes, a: seq<Event>, b: seq<Event>)
    requires Confined(own, a) && Confined(own, b)
    ensures Confined(own, a + b)
  {}

  // ---- The facts, kept by every piece of an execution ----

  predicate Orderly(exit: Exit) {
    !exit.Panicked? && !exit.OutOfFuel?
  }

  ghost predicate Facts(h: Host, own: bytes, w: World, o: Outcome, free: nat) {
    && Legal(h, w, o.trace)
    && o.world == EffectAll(w, o.trace)
    && Confined(own, o.trace)
    && Depth(o.trace) <= Instructions(o.trace) + free
    && (Orderly(o.exit) ==> Net(o.trace) == 0)
  }

  lemma Sequence(h: Host, own: bytes, w: World, a: Outcome, b: Outcome, free: nat)
    requires Facts(h, own, w, a, free) && Orderly(a.exit)
    requires Facts(h, own, a.world, b, 0)
    ensures Facts(h, own, w, Prepend(a.trace, b), free)
  {
    Concat(h, w, a.trace, b.trace);
    MeasureConcat(a.trace, b.trace);
    ConfinedConcat(own, a.trace, b.trace);
  }

  /** Unfolds everything about a trace of one event. */
  lemma Single(h: Host, w: World, e: Event)
    ensures EffectAll(w, [e]) == Effect(w, e)
    ensures Legal(h, w, [e]) <==> Allowed(h, w, e)
    ensures Paid([e]) == Amount(e)
    ensures Instructions([e]) == if e.Charged? && e.cost.Instruction? then 1 else 0
    ensures Net([e]) == if e.Entered? then 1 else if e.Left? then -1 else 0
    ensures Depth([e]) == if e.Entered? then 1 else 0
  {}

  lemma SingleFacts(h: Host, own: bytes, w: World, e: Event, o: Outcome)
    requires o.trace == [e] && o.world == Effect(w, e) && Allowed(h, w, e)
    requires !e.Entered? && !e.Left?
    requires WriteKey(e).Some? ==> InNamespace(own, WriteKey(e).value)
    ensures Facts(h, own, w, o, 0)
  {}

  lemma InNamespaceOfFrame(tx: Transaction, key: bytes)
    ensures InNamespace(tx.contractAddress, Namespaced(tx, key))
  {}

  lemma HostCallFacts(h: Host, tx: Transaction, action: Action, w: World)
    requires !action.Call?
    ensures Facts(h, tx.contractAddress, w, HostCall(h, tx, action, w), 0)
  {
    var own := tx.contractAddress;
    var o := HostCall(h, tx, action, w);
    match action
    case GetMemory(k) =>
      var read := MemoryRead(Namespaced(tx, k), Read(w.memory, h.memoryBase, Namespaced(tx, k)));
      ReadFacts(h, own, w, read, ReadMemory(|read.value|), read.value);
    case GetStorage(k) =>
      var read := StorageRead(Namespaced(tx, k), Read(w.storage, h.storageBase, Namespaced(tx, k)));
      ReadFacts(h, own, w, read, ReadStorage(|read.value|), read.value);
    case SetMemory(k, v) =>
      InNamespaceOfFrame(tx, k);
      if o.exit.Replied? { SingleFacts(h, own, w, MemorySet(Namespaced(tx, k), v), o); }
    case SetStorage(k, v) =>
      InNamespaceOfFrame(tx, k);
      if o.exit.Replied? { SingleFacts(h, own, w, StorageSet(Namespaced(tx, k), v), o); }
    case _ =>
  }

  lemma ReadFacts(h: Host, own: bytes, w: World, read: Event, cost: Cost, reply: bytes)
    requires read.MemoryRead? || read.StorageRead?
    requires Allowed(h, w, read)
    requires !cost.Instruction?
    ensures Facts(h, own, w, Pay(w, cost, [read], reply), 0)
  {
    var a := Outcome(Replied(reply), w, [read]);
    SingleFacts(h, own, w, read, a);
    var p := Pay(w, cost, [read], reply);
    if p.exit.Replied? {
      var b := Outcome(Replied(reply), p.world, [Charged(cost, Price(cost))]);
      SingleFacts(h, own, w, Charged(cost, Price(cost)), b);
      Sequence(h, own, w, a, b, 0);
      assert p == Prepend([read], b);
    } else {
      assert p.trace == a.trace;
    }
  }

  // ---- Gas along a trace ----

  /** From `Some(g)` the gas left is `g` minus the accepted charges; unmetered stays unmetered. */
  lemma {:induction false} GasConserved(h: Host, w: World, t: seq<Event>)
    requires Legal(h, w, t)
    ensures match w.gas
            case None => EffectAll(w, t).gas == None
            case Some(g) => Paid(t) <= g && EffectAll(w, t).gas == Some(g - Paid(t))
    decreases t
  {
    if t == [] {
    } else {
      GasConserved(h, Effect(w, t[0]), t[1..]);
    }
  }

  lemma {:induction false} InstructionsArePaid(h: Host, w: World, t: seq<Event>)
    requires Legal(h, w, t)
    ensures Instructions(t) <= Paid(t)
    decreases t
  {
    if t == [] {
    } else {
      InstructionsArePaid(h, Effect(w, t[0]), t[1..]);
    }
  }

  // ---- The induction over the call tree ----

  lemma {:induction false} InvokeFacts(h: Host, fuel: nat, tx: Transaction, env: Env, local: Local, w: World)
    ensures Facts(h, tx.contractAddress, w, Invoke(h, fuel, tx, env, local, w), 0)
    decreases fuel, 0, 0
  {
    var own := tx.contractAddress;
    var r := Invoke(h, fuel, tx, env, local, w);
    if fuel == 0 || UseGas(w.gas, INSTRUCTION).None? {
    } else {
      var charge := Charged(Instruction, INSTRUCTION);
      var w1 := w.(gas := UseGas(w.gas, INSTRUCTION).value);
      var first := Outcome(Replied([]), w1, [charge]);
      SingleFacts(h, own, w, charge, first);
      var action := h.step(local);
      if action.Return? {
        assert r.trace == [charge];
      } else {
        var o := CarryOut(h, fuel - 1, tx, env, action, w1);
        CarryOutFacts(h, fuel - 1, tx, env, action, w1);
        StepFacts(h, own, w, first, o);
        if o.exit.Replied? {
          InvokeFacts(h, fuel - 1, tx, env, h.resume(local, o.exit.reply), o.world);
          var rest := Invoke(h, fuel - 1, tx, env, h.resume(local, o.exit.reply), o.world);
          Sequence(h, own, w, Prepend(first.trace, o), rest, 0);
          PrependTwice(first.trace, o.trace, rest);
        }
      }
    }
  }

  lemma {:induction false} CarryOutFacts(h: Host, fuel: nat, tx: Transaction, env: Env, action: Action, w: World)
    ensures Facts(h, tx.contractAddress, w, CarryOut(h, fuel, tx, env, action, w), 1)
    decreases fuel, 4, 0
  {
    if action.Call? {
      ExternalCallFacts(h, fuel, tx, env, action.address, action.function_, action.arguments, w);
    } else {
      HostCallFacts(h, tx, action, w);
    }
  }

  lemma PrependTwice(a: seq<Event>, b: seq<Event>, o: Outcome)
    ensures Prepend(a, Prepend(b, o)) == Prepend(a + b, o)
  {}

  /** One charged instruction pays for the level of nesting that its host call may open. */
  lemma StepFacts(h: Host, own: bytes, w: World, first: Outcome, o: Outcome)
    requires Facts(h, own, w, first, 0) && first.trace == [Charged(Instruction, INSTRUCTION)]
    requires Facts(h, own, first.world, o, 1)
    ensures Facts(h, own, w, Prepend(first.trace, o), 0)
  {
    Concat(h, w, first.trace, o.trace);
    MeasureConcat(first.trace, o.trace);
    Single(h, w, first.trace[0]);
    ConfinedConcat(own, first.trace, o.trace);
  }

  lemma {:induction false} PassArgumentsFacts(h: Host, fuel: nat, tx: Transaction, env: Env, local: Local,
                                              arguments: seq<Value>, w: World)
    ensures Facts(h, tx.contractAddress, w, PassArguments(h, fuel, tx, env, local, arguments, w), 0)
    decreases fuel, 1, |arguments|
  {
    if arguments == [] {
    } else {
      var argument := h.encode(arguments[0]);
      var start := h.malloc(local, 4 + |argument|);
      var o := Invoke(h, fuel, tx, env, start, w);
      InvokeFacts(h, fuel, tx, env, start, w);
      if o.exit.Finished? && h.write(o.exit.local, o.exit.result, argument).Some? {
        var l := h.write(o.exit.local, o.exit.result, argument).value;
        PassArgumentsFacts(h, fuel, tx, env, l, arguments[1..], o.world);
        Sequence(h, tx.contractAddress, w, o, PassArguments(h, fuel, tx, env, l, arguments[1..], o.world), 0);
      }
    }
  }

  lemma {:induction false} RunBodyFacts(h: Host, fuel: nat, tx: Transaction, env: Env, entry: Local, w: World)
    ensures Facts(h, tx.contractAddress, w, RunBody(h, fuel, tx, env, entry, w), 0)
    decreases fuel, 1, 0
  {
    var r := Invoke(h, fuel, tx, env, entry, w);
    InvokeFacts(h, fuel, tx, env, entry, w);
    if r.exit.Finished? || r.exit.Trapped? {
      var switch := if r.exit.Finished? then Committed else RolledBack;
      var end := Outcome(RunBody(h, fuel, tx, env, entry, w).exit, Effect(r.world, switch), [switch]);
      SingleFacts(h, tx.contractAddress, r.world, switch, end);
      Sequence(h, tx.contractAddress, w, r, end, 0);
    }
  }

  lemma {:induction false} CallFunctionFacts(h: Host, fuel: nat, tx: Transaction, env: Env, local: Local,
                                             arguments: seq<Value>, w: World)
    ensures Facts(h, tx.contractAddress, w, CallFunction(h, fuel, tx, env, local, arguments, w), 0)
    decreases fuel, 2, 0
  {
    var p := PassArguments(h, fuel, tx, env, local, arguments, w);
    PassArgumentsFacts(h, fuel, tx, env, local, arguments, w);
    if p.exit.Finished? && h.enter(p.exit.local, tx, env).Some? {
      var entry := h.enter(p.exit.local, tx, env).value;
      RunBodyFacts(h, fuel, tx, env, entry, p.world);
      Sequence(h, tx.contractAddress, w, p, RunBody(h, fuel, tx, env, entry, p.world), 0);
    }
  }

  lemma {:induction false} ExternalCallFacts(h: Host, fuel: nat, tx: Transaction, env: Env, address: bytes,
                                             function_: bytes, arguments: seq<Value>, w: World)
    ensures Facts(h, tx.contractAddress, w, ExternalCall(h, fuel, tx, env, address, function_, arguments, w), 1)
    decreases fuel, 3, 0
  {
    var own := tx.contractAddress;
    var key := RightPad(address, ADDRESS_LENGTH);
    var read := StorageRead(key, Read(w.storage, h.storageBase, key));
    SingleFacts(h, own, w, read, Outcome(Replied([]), w, [read]));
    if read.value != [] && h.instantiate(read.value).Some? {
      var tx' := tx.(contractAddress := address, function_ := function_);
      var env' := env.(caller := Some(own));
      var c := CallFunction(h, fuel, tx', env', h.instantiate(read.value).value, arguments, w);
      CallFunctionFacts(h, fuel, tx', env', h.instantiate(read.value).value, arguments, w);
      SettleFacts(h, own, address, w, read, c);
    }
  }

  /** A trace in which a callee has been entered and not yet left. */
  ghost predicate Inside(h: Host, own: bytes, w: World, w': World, t: seq<Event>, orderly: bool) {
    && Legal(h, w, t)
    && w' == EffectAll(w, t)
    && Confined(own, t)
    && Depth(t) <= Instructions(t) + 1
    && (orderly ==> Net(t) == 1)
  }

  lemma EnterFacts(h: Host, own: bytes, callee: bytes, w: World, read: Event, c: Outcome)
    requires read.StorageRead? && Allowed(h, w, read)
    requires Facts(h, callee, w, c, 0)
    ensures Inside(h, own, w, c.world, [read] + [Entered(callee)] + c.trace, Orderly(c.exit))
  {}

  lemma LeaveFacts(h: Host, own: bytes, w: World, w': World, t: seq<Event>, used: u32)
    requires Inside(h, own, w, w', t, true)
    ensures var u := t + [Left, Settled(used)];
            && Legal(h, w, u) && w' == EffectAll(w, u) && Confined(own, u)
            && Depth(u) <= Instructions(u) + 1 && Net(u) == 0
  {
    var end := [Left] + [Settled(used)];
    assert [Left, Settled(used)] == end;
    Single(h, w', Left);
    Single(h, w', Settled(used));
    Concat(h, w', [Left], [Settled(used)]);
    MeasureConcat([Left], [Settled(used)]);
    Concat(h, w, t, end);
    MeasureConcat(t, end);
    assert Confined(own, end);
    ConfinedConcat(own, t, end);
  }

  /** The level a call opens is closed again, and the closing charge leaves the caller with exactly what the
      callee left. */
  lemma SettleFacts(h: Host, own: bytes, callee: bytes, w: World, read: Event, c: Outcome)
    requires read.StorageRead? && Allowed(h, w, read)
    requires Facts(h, callee, w, c, 0)
    requires c.exit.Answered? || c.exit.Panicked? || c.exit.OutOfFuel?
    ensures var s := Settle(h, w, Prepend([read] + [Entered(callee)], c));
            Facts(h, own, w, s, 1) && s.world == c.world && !s.exit.Trapped?
  {
    EnterFacts(h, own, callee, w, read, c);
    GasConserved(h, w, c.trace);
    if c.exit.Answered? && w.gas.Some? {
      LeaveFacts(h, own, w, c.world, [read] + [Entered(callee)] + c.trace, (w.gas.value - c.world.gas.value) % U32);
    }
  }
}
