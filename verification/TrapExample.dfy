/** A transaction that is answered with a trap and has its write committed all the same. */
module TrapExample {
  import opened Bytes
  import opened Overlay
  import opened Machine

  /** What an interpreter does at each of the program points below, whatever code it was given. */
  function Program(l: Local): Action {
    if l == [0] then SetMemory([5], [6])
    else if l == [1] then Call([2], [], [])
    else if l == [2] then Trap(Other(0))
    else Return([0, 0, 0, 0])
  }

  function Next(l: Local): Local {
    if l == [0] then [1] else [2]
  }

  /** A caller at point 0 writes, calls a contract that returns at once, and traps. */
  const TRAPPING: Host := Host(
    (code: bytes) => Some([3]),
    (l: Local, n: nat) => l,
    (l: Local, pointer: bytes, b: bytes) => Some(l),
    (l: Local, tx: Transaction, env: Env) => Some(l),
    (l: Local) => Program(l),
    (l: Local, reply: bytes) => Next(l),
    (v: Value) => [],
    (b: bytes) => Some(Null),
    (k: TrapKind) => [],
    (k: bytes) => [],
    (k: bytes) => [1])

  const BARE: World := World(Layers(map[], map[]), Layers(map[], map[]), Some(10000))

  lemma Callee(fuel: nat, tx: Transaction, env: Env, w: World)
    requires fuel > 0 && w.gas.Some? && w.gas.value > 0
    ensures var o := CallFunction(TRAPPING, fuel, tx, env, [3], [], w);
            o.exit == Answered(Answer(0, Null)) && o.world == BothApply(w.(gas := Some(w.gas.value - 1)), Keep)
  {
    var w1 := w.(gas := Some(w.gas.value - 1));
    assert TRAPPING.step([3]) == Return([0, 0, 0, 0]);
    assert PassArguments(TRAPPING, fuel, tx, env, [3], [], w) == Outcome(Finished([3], []), w, []);
    assert TRAPPING.enter([3], tx, env) == Some([3]);
    var r := Invoke(TRAPPING, fuel, tx, env, [3], w);
    assert r.exit == Finished([3], [0, 0, 0, 0]) && r.world == w1;
    NullAnswer();
    assert RunBody(TRAPPING, fuel, tx, env, [3], w) ==
           Outcome(Answered(Answer(0, Null)), BothApply(w1, Keep), r.trace + [Committed]);
  }

  lemma NullAnswer()
    ensures FromBytes(TRAPPING, [0, 0, 0, 0]) == Some(Answer(0, Null))
  {}

  lemma AtTrap(fuel: nat, tx: Transaction, env: Env, w: World)
    requires fuel > 0 && w.gas.Some? && w.gas.value > 0
    ensures var o := Invoke(TRAPPING, fuel, tx, env, [2], w);
            o.exit == Trapped(Other(0)) && o.world == w.(gas := Some(w.gas.value - 1))
  {}

  lemma CallOut(fuel: nat, tx: Transaction, env: Env, w: World)
    requires fuel > 0 && w.gas.Some? && w.gas.value > 0 && w.storage.changeset == map[]
    ensures var o := CarryOut(TRAPPING, fuel, tx, env, Call([2], [], []), w);
            o.exit.Replied? && o.world == BothApply(w.(gas := Some(w.gas.value - 1)), Keep)
  {
    Callee(fuel, tx.(contractAddress := [2], function_ := []), env.(caller := Some(tx.contractAddress)), w);
    assert Read(w.storage, TRAPPING.storageBase, RightPad([2], ADDRESS_LENGTH)) == [1];
  }

  lemma AtCall(fuel: nat, tx: Transaction, env: Env, w: World)
    requires fuel > 1 && w.gas.Some? && w.gas.value > 2 && w.storage.changeset == map[]
    ensures var o := Invoke(TRAPPING, fuel, tx, env, [1], w);
            o.exit == Trapped(Other(0)) && o.world == BothApply(w.(gas := Some(w.gas.value - 3)), Keep)
  {
    assert TRAPPING.step([1]) == Call([2], [], []);
    var w1 := w.(gas := Some(w.gas.value - 1));
    CallOut(fuel - 1, tx, env, w1);
    AtTrap(fuel - 1, tx, env, BothApply(w1.(gas := Some(w1.gas.value - 1)), Keep));
  }

  lemma AtWrite(fuel: nat, tx: Transaction, env: Env, w: World)
    requires fuel > 2 && w.gas.Some? && w.gas.value > 5003 && w.storage.changeset == map[]
    ensures var o := Invoke(TRAPPING, fuel, tx, env, [0], w);
            && o.exit == Trapped(Other(0))
            && o.world.memory == Apply(Apply(w.memory, Put(Namespaced(tx, [5]), [6])), Keep)
  {
    assert TRAPPING.step([0]) == SetMemory([5], [6]) && TRAPPING.resume([0], []) == [1];
    var w1 := w.(gas := Some(w.gas.value - 1));
    var o := CarryOut(TRAPPING, fuel - 1, tx, env, SetMemory([5], [6]), w1);
    AtCall(fuel - 1, tx, env, o.world);
  }

  /** The transaction is answered with a trap, and yet its write is in the committed layer. */
  lemma TrapKeepsCommittedWrites(tx: Transaction, env: Env)
    requires tx.arguments == []
    ensures var o := CallTransaction(TRAPPING, 3, tx, env, [0], BARE);
            && o.exit == Answered(WasmTrap(TRAPPING, Other(0)))
            && o.world.memory.changeset == map[Namespaced(tx, [5]) := [6]]
  {
    var r := Invoke(TRAPPING, 3, tx, env, [0], BARE);
    AtWrite(3, tx, env, BARE);
    var p := PassArguments(TRAPPING, 3, tx, env, [0], tx.arguments, BARE);
    assert p == Outcome(Finished([0], []), BARE, []);
    assert TRAPPING.enter([0], tx, env) == Some([0]);
    var body := RunBody(TRAPPING, 3, tx, env, [0], BARE);
    assert body.exit == Answered(WasmTrap(TRAPPING, Other(0))) && body.world == BothApply(r.world, Drop);
    assert map[] + map[Namespaced(tx, [5]) := [6]] == map[Namespaced(tx, [5]) := [6]];
  }
}
