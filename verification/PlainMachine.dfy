/** Contracts executed one instruction at a time, with an explicit stack of callers and a single gas meter: what
    `Machine` computes by recursion, with a copy of the gas in every frame, is what this machine arrives at. */
module PlainMachine {
  import opened Bytes
  import opened Overlay
  import opened Machine
  import opened MachineFacts
  import opened MachineTheorems

  // ---- Configurations ----

  /** Whether an instance is in `__malloc`, to place an argument ahead of further ones, or in the called function. */
  datatype Mode = Passing(argument: bytes, rest: seq<Value>) | InBody

  datatype Frame = Frame(tx: Transaction, env: Env, mode: Mode, local: Local)

  datatype Config =
    | Running(frame: Frame, callers: seq<Frame>, world: World)
    | Answering(answer: Answer, callers: seq<Frame>, world: World)
    | Stopped

  /** The outermost call has been answered, or the process has panicked. */
  predicate Halted(c: Config) {
    c.Stopped? || (c.Answering? && c.callers == [])
  }

  // ---- The machine ----

  /** The next argument is placed, or if there is none left the function is entered. */
  function Start(h: Host, tx: Transaction, env: Env, local: Local, arguments: seq<Value>, callers: seq<Frame>,
                 w: World): Config
  {
    if arguments == [] then
      match h.enter(local, tx, env)
      case None => Stopped
      case Some(entry) => Running(Frame(tx, env, InBody, entry), callers, w)
    else
      var argument := h.encode(arguments[0]);
      Running(Frame(tx, env, Passing(argument, arguments[1..]), h.malloc(local, 4 + |argument|)), callers, w)
  }

  function TrapText(h: Host, kind: TrapKind): Answer {
    Answer(1, Text(Ascii("WebAssembly Trap: ") + h.trapText(kind)))
  }

  /** A trap in the function rolls both overlays back; one in `__malloc` is reported as out of gas. */
  function TrapIn(h: Host, f: Frame, kind: TrapKind, callers: seq<Frame>, w: World): Config {
    match f.mode
    case Passing(_, _) => Answering(TrapText(h, OutOfGas), callers, w)
    case InBody =>
      Answering(TrapText(h, kind), callers,
                World(Layers(w.memory.changeset, map[]), Layers(w.storage.changeset, map[]), w.gas))
  }

  /** A return from the function commits both overlays; one from `__malloc` is a place for the argument. */
  function ReturnFrom(h: Host, f: Frame, result: bytes, callers: seq<Frame>, w: World): Config {
    match f.mode
    case Passing(argument, rest) =>
      (match h.write(f.local, result, argument)
       case None => Stopped
       case Some(l) => Start(h, f.tx, f.env, l, rest, callers, w))
    case InBody =>
      var w' := World(Layers(w.memory.changeset + w.memory.working, map[]),
                      Layers(w.storage.changeset + w.storage.working, map[]), w.gas);
      if result == [] then Answering(Answer(1, Text(Ascii("vm panic"))), callers, w')
      else if |result| < 4 then Stopped
      else match h.decode(result[4..])
        case None => Stopped
        case Some(v) => Answering(Answer(FromLittleEndian(result[..4]) % 0x1_0000_0000, v), callers, w')
  }

  function Spend(w: World, units: nat): Option<World> {
    match w.gas
    case None => Some(w)
    case Some(g) => if g < units then None else Some(w.(gas := Some(g - units)))
  }

  /** `n` bytes at so many units each, in u32 arithmetic. */
  function Units(n: nat, each: nat): nat {
    n % 0x1_0000_0000 * each % 0x1_0000_0000
  }

  function Resume(h: Host, f: Frame, reply: bytes, callers: seq<Frame>, w: World): Config {
    Running(f.(local := h.resume(f.local, reply)), callers, w)
  }

  /** One instruction that has been paid for. */
  function Act(h: Host, f: Frame, callers: seq<Frame>, w: World): Config {
    var space := RightPad(f.tx.contractAddress, 64);
    match h.step(f.local)
    case Plain => Resume(h, f, [], callers, w)
    case Return(result) => ReturnFrom(h, f, result, callers, w)
    case Trap(kind) => TrapIn(h, f, kind, callers, w)
    case Fault => Stopped
    case GetMemory(k) =>
      var key := space + k;
      var value := if key in w.memory.changeset then w.memory.changeset[key] else h.memoryBase(key);
      (match Spend(w, Units(|value|, 200))
       case None => TrapIn(h, f, OutOfGas, callers, w)
       case Some(w') => Resume(h, f, value, callers, w'))
    case GetStorage(k) =>
      var key := space + k;
      var value := if key in w.storage.changeset then w.storage.changeset[key] else h.storageBase(key);
      (match Spend(w, Units(|value|, 10))
       case None => TrapIn(h, f, OutOfGas, callers, w)
       case Some(w') => Resume(h, f, value, callers, w'))
    case SetMemory(k, value) =>
      (match Spend(w, Units(|value|, 5000))
       case None => TrapIn(h, f, OutOfGas, callers, w)
       case Some(w') =>
         Resume(h, f, [], callers,
                w'.(memory := Layers(w.memory.changeset, w.memory.working[space + k := value]))))
    case SetStorage(k, value) =>
      (match Spend(w, Units(|value|, 500))
       case None => TrapIn(h, f, OutOfGas, callers, w)
       case Some(w') =>
         Resume(h, f, [], callers,
                w'.(storage := Layers(w.storage.changeset, w.storage.working[space + k := value]))))
    case Call(address, function_, arguments) =>
      var key := RightPad(address, 64);
      var code := if key in w.storage.changeset then w.storage.changeset[key] else h.storageBase(key);
      if code == [] then
        Resume(h, f, h.encode(Array([Array([Integer(2), Text(Ascii("Contract not found"))]),
                                     Integer(f.tx.gasLimit % 0x1_0000_0000)])), callers, w)
      else match h.instantiate(code)
        case None => Stopped
        case Some(local) =>
          Start(h, f.tx.(contractAddress := address, function_ := function_),
                f.env.(caller := Some(f.tx.contractAddress)), local, arguments, [f] + callers, w)
  }

  function Step(h: Host, c: Config): Config {
    match c
    case Stopped => c
    case Answering(answer, callers, w) =>
      if callers == [] then c
      else if w.gas.None? then Stopped
      else Resume(h, callers[0], LittleEndian(answer.code, 4) + h.encode(answer.value), callers[1..], w)
    case Running(f, callers, w) =>
      match Spend(w, 1)
      case None => TrapIn(h, f, OutOfGas, callers, w)
      case Some(w') => Act(h, f, callers, w')
  }

  function Steps(h: Host, n: nat, c: Config): Config {
    if n == 0 then c else Steps(h, n - 1, Step(h, c))
  }

  lemma {:induction false} StepsAdd(h: Host, n: nat, m: nat, c: Config)
    ensures Steps(h, n + m, c) == Steps(h, m, Steps(h, n, c))
    decreases n
  {
    if n == 0 {
    } else {
      StepsAdd(h, n - 1, m, Step(h, c));
    }
  }

  lemma {:induction false} HaltedStays(h: Host, n: nat, c: Config)
    requires Halted(c)
    ensures Steps(h, n, c) == c
    decreases n
  {
    if n == 0 {
    } else {
      HaltedStays(h, n - 1, c);
    }
  }

  // ---- What the recursion computes, the machine arrives at ----

  /** Where the machine stands when an instance has run to the given end. */
  function Landing(h: Host, f: Frame, o: Outcome, callers: seq<Frame>): Config {
    match o.exit
    case Finished(l, result) => ReturnFrom(h, f.(local := l), result, callers, o.world)
    case Trapped(kind) => TrapIn(h, f, kind, callers, o.world)
    case _ => Stopped
  }

  /** Where it stands when a call has come to the given end. */
  function Ended(o: Outcome, callers: seq<Frame>): Config {
    if o.exit.Answered? then Answering(o.exit.answer, callers, o.world) else Stopped
  }

  /** What the host functions do, instruction by instruction. */
  lemma HostCallActs(h: Host, f: Frame, callers: seq<Frame>, w: World)
    requires var a := h.step(f.local); !a.Call? && !a.Return?
    ensures var o := HostCall(h, f.tx, h.step(f.local), w);
            Act(h, f, callers, w) ==
            if o.exit.Replied? then Resume(h, f, o.exit.reply, callers, o.world) else Landing(h, f, o, callers)
  {}

  lemma {:induction false} InvokeSteps(h: Host, fuel: nat, f: Frame, callers: seq<Frame>, w: World) returns (n: nat)
    ensures var o, c := Invoke(h, fuel, f.tx, f.env, f.local, w), Steps(h, n, Running(f, callers, w));
            if o.exit.OutOfFuel? then n >= fuel && !Halted(c) else c == Landing(h, f, o, callers)
    decreases fuel, 0, 0
  {
    if fuel == 0 {
      n := 0;
    } else if UseGas(w.gas, INSTRUCTION).None? || h.step(f.local).Return? {
      n := 1;
      assert Steps(h, 1, Running(f, callers, w)) == Step(h, Running(f, callers, w));
    } else {
      var w1 := w.(gas := UseGas(w.gas, INSTRUCTION).value);
      var o := CarryOut(h, fuel - 1, f.tx, f.env, h.step(f.local), w1);
      var first := CarryOutSteps(h, fuel - 1, f, callers, w, w1);
      InvokeGoesOn(h, fuel, f, w, w1, o);
      if o.exit.Replied? {
        var next := f.(local := h.resume(f.local, o.exit.reply));
        var rest := InvokeSteps(h, fuel - 1, next, callers, o.world);
        n := Then(h, first, rest, Running(f, callers, w), Running(next, callers, o.world));
      } else {
        n := first;
      }
    }
  }

  /** How the recursion goes on after an instruction. */
  lemma InvokeGoesOn(h: Host, fuel: nat, f: Frame, w: World, w1: World, o: Outcome)
    requires fuel > 0 && UseGas(w.gas, INSTRUCTION).Some? && w1 == w.(gas := UseGas(w.gas, INSTRUCTION).value)
    requires !h.step(f.local).Return? && o == CarryOut(h, fuel - 1, f.tx, f.env, h.step(f.local), w1)
    ensures var all := Invoke(h, fuel, f.tx, f.env, f.local, w);
            var end := if !o.exit.Replied? then o
                       else Invoke(h, fuel - 1, f.tx, f.env, h.resume(f.local, o.exit.reply), o.world);
            all.exit == end.exit && all.world == end.world
  {}

  /** Runs of the machine one after the other. */
  lemma Then(h: Host, first: nat, rest: nat, c: Config, next: Config) returns (n: nat)
    requires Steps(h, first, c) == next
    ensures n == first + rest && Steps(h, n, c) == Steps(h, rest, next)
  {
    n := first + rest;
    StepsAdd(h, first, rest, c);
  }

  /** One instruction other than a return, with everything a call sets off until it is answered. */
  lemma {:induction false} CarryOutSteps(h: Host, fuel: nat, f: Frame, callers: seq<Frame>, w: World, w1: World)
    returns (n: nat)
    requires UseGas(w.gas, INSTRUCTION).Some? && w1 == w.(gas := UseGas(w.gas, INSTRUCTION).value)
    requires !h.step(f.local).Return?
    ensures var o, c := CarryOut(h, fuel, f.tx, f.env, h.step(f.local), w1), Steps(h, n, Running(f, callers, w));
            && n >= 1
            && if o.exit.OutOfFuel? then n >= fuel + 1 && !Halted(c)
               else if o.exit.Replied? then c == Resume(h, f, o.exit.reply, callers, o.world)
               else c == Landing(h, f, o, callers)
    decreases fuel, 4, 0
  {
    var start := Running(f, callers, w);
    assert Step(h, start) == Act(h, f, callers, w1);
    assert Steps(h, 1, start) == Step(h, start);
    if h.step(f.local).Call? {
      var rest := ExternalCallSteps(h, fuel, f, callers, w1);
      n := 1 + rest;
      StepsAdd(h, 1, rest, start);
    } else {
      n := 1;
      HostCallActs(h, f, callers, w1);
    }
  }

  /** From a paid call instruction until the caller resumes. */
  lemma {:induction false} ExternalCallSteps(h: Host, fuel: nat, f: Frame, callers: seq<Frame>, w: World)
    returns (n: nat)
    requires h.step(f.local).Call?
    ensures var o, c := CarryOut(h, fuel, f.tx, f.env, h.step(f.local), w), Steps(h, n, Act(h, f, callers, w));
            if o.exit.OutOfFuel? then n >= fuel && !Halted(c)
            else if o.exit.Replied? then c == Resume(h, f, o.exit.reply, callers, o.world)
            else c == Landing(h, f, o, callers)
    decreases fuel, 3, 0
  {
    var a := h.step(f.local);
    var code := Read(w.storage, h.storageBase, RightPad(a.address, ADDRESS_LENGTH));
    if code == [] || h.instantiate(code).None? {
      n := 0;
    } else {
      var tx' := f.tx.(contractAddress := a.address, function_ := a.function_);
      var env' := f.env.(caller := Some(f.tx.contractAddress));
      var local := h.instantiate(code).value;
      var c := CallFunction(h, fuel, tx', env', local, a.arguments, w);
      var inner := CallSteps(h, fuel, tx', env', local, a.arguments, [f] + callers, w);
      CallEnds(h, fuel, f, w, c);
      n := inner;
      if c.exit.Answered? {
        n := inner + 1;
        StepsAdd(h, inner, 1, Act(h, f, callers, w));
        Pops(h, f, callers, c);
      }
    }
  }

  /** How the recursion ends a nested call, by the end of the callee: its gas is what the callee has left. */
  lemma CallEnds(h: Host, fuel: nat, f: Frame, w: World, c: Outcome)
    requires h.step(f.local).Call?
    requires var a := h.step(f.local);
             var code := Read(w.storage, h.storageBase, RightPad(a.address, ADDRESS_LENGTH));
             && code != [] && h.instantiate(code).Some?
             && c == CallFunction(h, fuel, f.tx.(contractAddress := a.address, function_ := a.function_),
                                  f.env.(caller := Some(f.tx.contractAddress)), h.instantiate(code).value,
                                  a.arguments, w)
    ensures var o := CarryOut(h, fuel, f.tx, f.env, h.step(f.local), w);
            && (c.world.gas.None? <==> w.gas.None?)
            && if !c.exit.Answered? then o.exit == c.exit
               else if c.world.gas.None? then o.exit == Panicked
               else o.exit == Replied(ToBytes(h, c.exit.answer)) && o.world == c.world
  {
    var a := h.step(f.local);
    var code := Read(w.storage, h.storageBase, RightPad(a.address, ADDRESS_LENGTH));
    SettlementIsExact(h, fuel, f.tx, f.env, a.address, a.function_, a.arguments, w);
    CallFunctionFacts(h, fuel, f.tx.(contractAddress := a.address, function_ := a.function_),
                      f.env.(caller := Some(f.tx.contractAddress)), h.instantiate(code).value, a.arguments, w);
    GasConserved(h, w, c.trace);
  }

  /** An answer is handed to the caller on top of the stack. */
  lemma Pops(h: Host, f: Frame, callers: seq<Frame>, c: Outcome)
    requires c.exit.Answered?
    ensures Steps(h, 1, Ended(c, [f] + callers)) ==
            if c.world.gas.None? then Stopped
            else Resume(h, f, ToBytes(h, c.exit.answer), callers, c.world)
  {
    assert ([f] + callers)[0] == f && ([f] + callers)[1..] == callers;
    assert Steps(h, 1, Ended(c, [f] + callers)) == Step(h, Ended(c, [f] + callers));
  }

  lemma {:induction false} PassSteps(h: Host, fuel: nat, tx: Transaction, env: Env, local: Local,
                                     arguments: seq<Value>, callers: seq<Frame>, w: World) returns (n: nat)
    ensures var o, c := PassArguments(h, fuel, tx, env, local, arguments, w),
                        Steps(h, n, Start(h, tx, env, local, arguments, callers, w));
            match o.exit
            case OutOfFuel => n >= fuel && !Halted(c)
            case Finished(l, _) => c == Start(h, tx, env, l, [], callers, o.world)
            case Trapped(_) => c == Answering(TrapText(h, OutOfGas), callers, o.world)
            case _ => c == Stopped
    decreases fuel, 1, |arguments|
  {
    if arguments == [] {
      n := 0;
    } else {
      var argument := h.encode(arguments[0]);
      var f := Frame(tx, env, Passing(argument, arguments[1..]), h.malloc(local, 4 + |argument|));
      var o := Invoke(h, fuel, tx, env, f.local, w);
      var first := InvokeSteps(h, fuel, f, callers, w);
      n := first;
      if o.exit.Finished? && h.write(o.exit.local, o.exit.result, argument).Some? {
        var l := h.write(o.exit.local, o.exit.result, argument).value;
        var rest := PassSteps(h, fuel, tx, env, l, arguments[1..], callers, o.world);
        n := Then(h, first, rest, Running(f, callers, w), Start(h, tx, env, l, arguments[1..], callers, o.world));
      }
    }
  }

  lemma {:induction false} BodySteps(h: Host, fuel: nat, tx: Transaction, env: Env, entry: Local, callers: seq<Frame>,
                                     w: World) returns (n: nat)
    ensures var o, c := RunBody(h, fuel, tx, env, entry, w),
                        Steps(h, n, Running(Frame(tx, env, InBody, entry), callers, w));
            if o.exit.OutOfFuel? then n >= fuel && !Halted(c) else c == Ended(o, callers)
    decreases fuel, 1, 0
  {
    n := InvokeSteps(h, fuel, Frame(tx, env, InBody, entry), callers, w);
  }

  lemma {:induction false} CallSteps(h: Host, fuel: nat, tx: Transaction, env: Env, local: Local,
                                     arguments: seq<Value>, callers: seq<Frame>, w: World) returns (n: nat)
    ensures var o, c := CallFunction(h, fuel, tx, env, local, arguments, w),
                        Steps(h, n, Start(h, tx, env, local, arguments, callers, w));
            if o.exit.OutOfFuel? then n >= fuel && !Halted(c) else c == Ended(o, callers)
    decreases fuel, 2, 0
  {
    var p := PassArguments(h, fuel, tx, env, local, arguments, w);
    var first := PassSteps(h, fuel, tx, env, local, arguments, callers, w);
    n := first;
    PassedOrTrapped(h, fuel, tx, env, local, arguments, w);
    if p.exit.Finished? && h.enter(p.exit.local, tx, env).Some? {
      var entry := h.enter(p.exit.local, tx, env).value;
      var rest := BodySteps(h, fuel, tx, env, entry, callers, p.world);
      n := first + rest;
      StepsAdd(h, first, rest, Start(h, tx, env, local, arguments, callers, w));
    }
  }

  // ---- The main results ----

  function StartOf(h: Host, tx: Transaction, env: Env, local: Local, w: World): Config {
    Start(h, tx, env, local, tx.arguments, [], w)
  }

  /** A call computed with any amount of fuel that suffices is what the machine halts with, and in it alone. */
  lemma CallIsMachineRun(h: Host, fuel: nat, tx: Transaction, env: Env, local: Local, w: World, n: nat)
    requires !CallTransaction(h, fuel, tx, env, local, w).exit.OutOfFuel?
    ensures var o := CallTransaction(h, fuel, tx, env, local, w);
            && (exists m :: Steps(h, m, StartOf(h, tx, env, local, w)) == Ended(o, []))
            && (Halted(Steps(h, n, StartOf(h, tx, env, local, w))) ==>
                  Steps(h, n, StartOf(h, tx, env, local, w)) == Ended(o, []))
  {
    var start := StartOf(h, tx, env, local, w);
    var m := CallSteps(h, fuel, tx, env, local, tx.arguments, [], w);
    if Halted(Steps(h, n, start)) { SameHalt(h, n, m, start); }
  }

  lemma SameHalt(h: Host, n: nat, m: nat, c: Config)
    requires Halted(Steps(h, n, c)) && Halted(Steps(h, m, c))
    ensures Steps(h, n, c) == Steps(h, m, c)
  {
    if n <= m {
      StepsAdd(h, n, m - n, c);
      HaltedStays(h, m - n, Steps(h, n, c));
    } else {
      StepsAdd(h, m, n - m, c);
      HaltedStays(h, n - m, Steps(h, m, c));
    }
  }

  /** At every point of a run at which a contract reads, if it goes on at all it goes on with the value that is
      committed at that point under its own padded address, or with what lies below; what is pending is not seen. */
  lemma GetsReplyCommitted(h: Host, start: Config, n: nat, k: bytes)
    requires Steps(h, n, start).Running? && Steps(h, n + 1, start).Running?
    requires var a := h.step(Steps(h, n, start).frame.local); a == GetMemory(k) || a == GetStorage(k)
    ensures var c, c' := Steps(h, n, start), Steps(h, n + 1, start);
            var key := RightPad(c.frame.tx.contractAddress, 64) + k;
            var memory, storage := c.world.memory.changeset, c.world.storage.changeset;
            var value := if h.step(c.frame.local).GetMemory?
                         then if key in memory then memory[key] else h.memoryBase(key)
                         else if key in storage then storage[key] else h.storageBase(key);
            && c'.callers == c.callers
            && c'.frame == c.frame.(local := h.resume(c.frame.local, value))
            && c'.world.memory == c.world.memory && c'.world.storage == c.world.storage
  {
    var c := Steps(h, n, start);
    StepsAdd(h, n, 1, start);
    assert Steps(h, 1, c) == Step(h, c);
    assert Step(h, c).Running?;
    assert Spend(c.world, 1).Some?;
    assert Step(h, c) == Act(h, c.frame, c.callers, Spend(c.world, 1).value);
  }

  /** If the machine halts within so many steps, that much fuel suffices; so calls come to an end exactly when the
      machine does. */
  lemma HaltingIsEnoughFuel(h: Host, fuel: nat, tx: Transaction, env: Env, local: Local, w: World, n: nat)
    requires Halted(Steps(h, n, StartOf(h, tx, env, local, w))) && fuel >= n
    ensures !CallTransaction(h, fuel, tx, env, local, w).exit.OutOfFuel?
  {
    var start := StartOf(h, tx, env, local, w);
    var m := CallSteps(h, fuel, tx, env, local, tx.arguments, [], w);
    if m >= n {
      StepsAdd(h, n, m - n, start);
      HaltedStays(h, m - n, Steps(h, n, start));
    }
  }

  /** A call ends for some amount of fuel exactly when the machine halts, and then with the same answer and world. */
  lemma CallEndsExactly(h: Host, tx: Transaction, env: Env, local: Local, w: World, answer: Answer, w': World)
    ensures (exists fuel, t :: CallTransaction(h, fuel, tx, env, local, w) == Outcome(Answered(answer), w', t)) <==>
            (exists n :: Steps(h, n, StartOf(h, tx, env, local, w)) == Answering(answer, [], w'))
  {
    if fuel, t :| CallTransaction(h, fuel, tx, env, local, w) == Outcome(Answered(answer), w', t) {
      CallIsMachineRun(h, fuel, tx, env, local, w, 0);
    }
    if n :| Steps(h, n, StartOf(h, tx, env, local, w)) == Answering(answer, [], w') {
      HaltingIsEnoughFuel(h, n, tx, env, local, w, n);
      CallIsMachineRun(h, n, tx, env, local, w, n);
      var o := CallTransaction(h, n, tx, env, local, w);
      assert o == Outcome(Answered(answer), w', o.trace);
    }
  }

  // ---- Metered runs halt ----

  function CallersOf(c: Config): seq<Frame> {
    if c.Stopped? then [] else c.callers
  }

  /** An instruction is paid for with one unit at least and suspends at most one caller. */
  function Weight(c: Config): nat
    requires !c.Stopped? ==> c.world.gas.Some?
  {
    match c
    case Stopped => 0
    case Answering(_, callers, w) => 3 * w.gas.value + 2 * |callers|
    case Running(_, callers, w) => 3 * w.gas.value + 2 * |callers| + 1
  }

  lemma StepWeighsLess(h: Host, c: Config)
    requires !Halted(c) && c.world.gas.Some?
    ensures var c' := Step(h, c);
            (!c'.Stopped? ==> c'.world.gas.Some?) && Weight(c') < Weight(c)
    ensures var c' := Step(h, c);
            !c'.Stopped? ==> c'.world.gas.value + |c'.callers| <= c.world.gas.value + |c.callers|
  {}

  /** With gas `g` and no callers the machine halts within 3 * g + 1 steps, whatever the contracts do, and never has
      more than `g` callers suspended. */
  lemma {:induction false} MeteredMachineHalts(h: Host, n: nat, c: Config)
    requires !c.Stopped? ==> c.world.gas.Some?
    ensures n >= Weight(c) ==> Halted(Steps(h, n, c))
    ensures !c.Stopped? ==> |CallersOf(Steps(h, n, c))| <= c.world.gas.value + |c.callers|
    decreases n
  {
    if n == 0 {
    } else if Halted(c) {
      HaltedStays(h, n, c);
    } else {
      StepWeighsLess(h, c);
      MeteredMachineHalts(h, n - 1, Step(h, c));
      if Step(h, c).Stopped? { HaltedStays(h, n - 1, Stopped); }
    }
  }
}
