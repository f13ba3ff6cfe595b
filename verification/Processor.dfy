/** Blocks of transactions: each runs on copies of the accumulated changesets, pays for its gas and is folded
    back into them. */
module Processor {
  import opened Bytes
  import opened Overlay
  import opened Machine
  import opened MachineFacts
  import opened MachineTheorems
  import opened Vm
  import FlatBlock

  function ZeroAddress(): bytes {
    seq(32, _ => 0)
  }

  const SYSTEM_ADDRESS: bytes := ZeroAddress() + Ascii("system")
  const BASE_TOKEN_ADDRESS: bytes := ZeroAddress() + Ascii("BaseToken")
  const CREATE_CONTRACT: bytes := Ascii("create_contract")
  const CONSTRUCTOR: bytes := Ascii("constructor")
  const TRANSFER: bytes := Ascii("transfer")

  // ---- Transaction::run ----

  /** How a run ended: with an answer, or with the process gone. */
  datatype Ran = Ran(memory: Changeset, storage: Changeset, answer: Answer, gasLeft: Option<u32>) | Died

  function StartWorld(m: Changeset, s: Changeset, gas: Option<u32>): World {
    World(Layers(m, map[]), Layers(s, map[]), gas)
  }

  function CodeKey(tx: Transaction): bytes {
    RightPad(tx.contractAddress, ADDRESS_LENGTH)
  }

  /** Runs the given code; what is still uncommitted when it ends is lost. */
  function RunCode(h: Host, fuel: nat, tx: Transaction, env: Env, code: bytes, w: World): Ran {
    match h.instantiate(code)
    case None => Died
    case Some(local) =>
      var o := CallTransaction(h, fuel, tx, env, local, w);
      if o.exit.Answered?
      then Ran(o.world.memory.changeset, o.world.storage.changeset, o.exit.answer, o.world.gas)
      else Died
  }

  /** The u64 gas limit is narrowed to u32 on entry. */
  function RunMetered(h: Host, fuel: nat, tx: Transaction, env: Env, m: Changeset, s: Changeset): Ran {
    var w := StartWorld(m, s, Some(tx.gasLimit % U32));
    var code := Read(w.storage, h.storageBase, CodeKey(tx));
    if code == [] then Ran(m, s, CONTRACT_NOT_FOUND, w.gas)
    else RunCode(h, fuel, tx, env, code, w)
  }

  // ---- The token transfer that pays for gas ----

  function TransferTransaction(tx: Transaction, amount: u32, from: bytes, to: bytes): Transaction {
    Transaction(BASE_TOKEN_ADDRESS, from, 0, tx.gasLimit, TRANSFER, [ByteString(to), Integer(amount)])
  }

  /** Unmetered, on an empty storage changeset: the token's code is read from the base. */
  function Transfer(h: Host, fuel: nat, tx: Transaction, env: Env, m: Changeset, amount: u32, from: bytes, to: bytes)
    : Ran
  {
    var transfer := TransferTransaction(tx, amount, from, to);
    RunCode(h, fuel, transfer, env, h.storageBase(CodeKey(transfer)), StartWorld(m, map[], None))
  }

  // ---- run_transaction ----

  /** The accumulated changesets after a transaction, and its answer. */
  datatype Processed = Processed(memory: Changeset, storage: Changeset, answer: Answer)

  function ConstructorTransaction(tx: Transaction, name: bytes, arguments: seq<Value>): Transaction {
    Transaction(tx.sender + name, tx.sender, tx.nonce, tx.gasLimit, CONSTRUCTOR, arguments)
  }

  predicate CreatesContract(tx: Transaction) {
    && tx.function_ == CREATE_CONTRACT && |tx.arguments| == 3
    && tx.arguments[0].Text? && tx.arguments[1].ByteString? && tx.arguments[2].Array?
  }

  function NewContractKey(tx: Transaction): bytes
    requires CreatesContract(tx)
  {
    RightPad(tx.sender + tx.arguments[0].text, ADDRESS_LENGTH)
  }

  /** System transactions: deploying a contract stores and commits its code, then runs its constructor;
      everything else is answered with null. Neither pays for gas. */
  function RunSystem(h: Host, fuel: nat, tx: Transaction, env: Env, m: Changeset, s: Changeset): Option<Processed> {
    if !CreatesContract(tx) then Some(Processed(m + map[], s + map[], Answer(0, Null)))
    else
      var code := tx.arguments[1].b;
      var deployed := Apply(Apply(Layers(s, map[]), Put(NewContractKey(tx), code)), Keep).changeset;
      var constructor_ := ConstructorTransaction(tx, tx.arguments[0].text, tx.arguments[2].elements);
      match RunMetered(h, fuel, constructor_, env, m, deployed)
      case Died => None
      case Ran(memory, storage, answer, _) => Some(Processed(m + memory, s + storage, answer))
  }

  /** The gas used, computed in u64 from the u64 limit and narrowed to u32 for the transfer. */
  function GasAmount(tx: Transaction, gasLeft: u32): u32 {
    (tx.gasLimit - gasLeft) % U64 % U32
  }

  function RunTransaction(h: Host, fuel: nat, tx: Transaction, env: Env, m: Changeset, s: Changeset)
    : Option<Processed>
  {
    if tx.contractAddress == SYSTEM_ADDRESS then RunSystem(h, fuel, tx, env, m, s)
    else match RunMetered(h, fuel, tx, env, m, s)
      case Died => None
      case Ran(memory, storage, answer, gasLeft) =>
        if gasLeft.None? then None
        else
          match Transfer(h, fuel, tx, env, memory, GasAmount(tx, gasLeft.value), tx.sender, env.blockWinner)
          case Died => None
          case Ran(paidMemory, _, _, _) => Some(Processed(m + paidMemory, s + storage, answer))
  }

  datatype Completed = Completed(transaction: Transaction, answer: Answer)

  datatype Block = Block(memory: Changeset, storage: Changeset, completed: seq<Completed>)

  /** Folds `txs` into a block under way; nothing when the process dies on one of them. */
  function Process(h: Host, fuel: nat, txs: seq<Transaction>, env: Env, b: Block): Option<Block>
    decreases txs
  {
    if txs == [] then Some(b)
    else match RunTransaction(h, fuel, txs[0], env, b.memory, b.storage)
      case None => None
      case Some(p) => Process(h, fuel, txs[1..], env, Extend(b, txs[0], p))
  }

  function Extend(b: Block, tx: Transaction, p: Processed): Block {
    Block(p.memory, p.storage, b.completed + [Completed(tx, p.answer)])
  }

  const EMPTY_BLOCK: Block := Block(map[], map[], [])

  // ---- What single runs do ----

  /** A run reads the code under the padded address of the contract: without any it is answered with code 2 and
      nothing changes; otherwise the code is instantiated and called, metered by the limit modulo 2^32, and what
      the call answers, commits and leaves of the gas is the result. It dies exactly when the code cannot be
      instantiated or the call does not come to an answer. */
  lemma RunIsCall(h: Host, fuel: nat, tx: Transaction, env: Env, m: Changeset, s: Changeset)
    ensures var r := RunMetered(h, fuel, tx, env, m, s);
            var key := RightPad(tx.contractAddress, 64);
            var code := if key in s then s[key] else h.storageBase(key);
            var gas := Some(tx.gasLimit % 0x1_0000_0000);
            if code == [] then r == Ran(m, s, Answer(2, Text(Ascii("Contract not found"))), gas)
            else match h.instantiate(code)
              case None => r == Died
              case Some(local) =>
                var o := CallTransaction(h, fuel, tx, env, local, World(Layers(m, map[]), Layers(s, map[]), gas));
                match o.exit
                case Answered(answer) =>
                  r == Ran(o.world.memory.changeset, o.world.storage.changeset, answer, o.world.gas)
                case _ => r == Died
  {}

  /** The results of a run are the flat ones applied: its writes, its answer, and the gas left over. */
  predicate SameRun(r: Ran, f: Option<FlatBlock.Run>, m: Changeset, s: Changeset, gas: Option<u32>) {
    match f
    case None => r.Died?
    case Some(run) =>
      && r.Ran? && r.memory == WriteAll(m, run.memory) && r.storage == WriteAll(s, run.storage)
      && r.answer == run.answer
      && match gas
         case None => r.gasLeft == None
         case Some(g) => run.paid <= g && r.gasLeft == Some(g - run.paid)
  }

  lemma RunCodeIsFlat(h: Host, fuel: nat, tx: Transaction, env: Env, code: bytes, m: Changeset, s: Changeset,
                      gas: Option<u32>)
    ensures SameRun(RunCode(h, fuel, tx, env, code, StartWorld(m, s, gas)),
                    FlatBlock.Called(h, fuel, tx, env, code, m, s, gas), m, s, gas)
  {
    var w := StartWorld(m, s, gas);
    if h.instantiate(code).Some? {
      var o := CallTransaction(h, fuel, tx, env, h.instantiate(code).value, w);
      CallFunctionFacts(h, fuel, tx, env, h.instantiate(code).value, tx.arguments, w);
      LogsExplainLayers(w, o.trace);
      SegmentsRefine(w.memory, [], MemoryLog(o.trace));
      SegmentsRefine(w.storage, [], StorageLog(o.trace));
      GasConserved(h, w, o.trace);
    }
  }

  lemma RunMeteredIsFlat(h: Host, fuel: nat, tx: Transaction, env: Env, m: Changeset, s: Changeset)
    ensures SameRun(RunMetered(h, fuel, tx, env, m, s), FlatBlock.Metered(h, fuel, tx, env, m, s), m, s,
                    Some(tx.gasLimit % U32))
  {
    var w := StartWorld(m, s, Some(tx.gasLimit % U32));
    var code := Read(w.storage, h.storageBase, CodeKey(tx));
    RunCodeIsFlat(h, fuel, tx, env, code, m, s, w.gas);
  }

  lemma ExtendIsResult(c: Changeset, writes: seq<Write>)
    ensures c + WriteAll(c, writes) == WriteAll(c, writes)
  {
    WriteAllOverlays(c, map[], writes);
  }

  // ---- What a transaction does ----

  predicate SameEffect(p: Option<Processed>, f: Option<FlatBlock.Run>, m: Changeset, s: Changeset) {
    match f
    case None => p.None?
    case Some(run) =>
      p == Some(Processed(WriteAll(m, run.memory), WriteAll(s, run.storage), run.answer))
  }

  /** A transaction adds to the memory changeset the committed writes of its run followed by those of its gas payment,
      and to the storage changeset, for a deployment, the code and the committed writes of the constructor, and else
      the committed writes of its run; it takes the process with it exactly when one of these calls does not come
      to an answer. */
  lemma TransactionWrites(h: Host, fuel: nat, tx: Transaction, env: Env, m: Changeset, s: Changeset)
    ensures SameEffect(RunTransaction(h, fuel, tx, env, m, s), FlatBlock.TransactionOn(h, fuel, tx, env, m, s), m, s)
  {
    if tx.contractAddress == SYSTEM_ADDRESS {
      DeployWrites(h, fuel, tx, env, m, s);
    } else {
      OrdinaryWrites(h, fuel, tx, env, m, s);
    }
  }

  lemma OrdinaryWrites(h: Host, fuel: nat, tx: Transaction, env: Env, m: Changeset, s: Changeset)
    requires tx.contractAddress != SYSTEM_ADDRESS
    ensures SameEffect(RunTransaction(h, fuel, tx, env, m, s), FlatBlock.Ordinary(h, fuel, tx, env, m, s), m, s)
  {
    RunMeteredIsFlat(h, fuel, tx, env, m, s);
    var r := RunMetered(h, fuel, tx, env, m, s);
    if r.Ran? {
      var run := FlatBlock.Metered(h, fuel, tx, env, m, s).value;
      NarrowedDifference(tx.gasLimit, r.gasLeft.value);
      assert GasAmount(tx, r.gasLeft.value) == run.paid;
      PaymentIsFlat(h, fuel, tx, env, m, run);
      ExtendIsResult(s, run.storage);
    }
  }

  /** The transfer of the gas that a run paid, on the memory it has written. */
  lemma PaymentIsFlat(h: Host, fuel: nat, tx: Transaction, env: Env, m: Changeset, run: FlatBlock.Run)
    requires run.paid < U32
    ensures var p := Transfer(h, fuel, tx, env, WriteAll(m, run.memory), run.paid, tx.sender, env.blockWinner);
            var payment := FlatBlock.Payment(tx, env, run.paid);
            var paid := FlatBlock.Called(h, fuel, payment, env, h.storageBase(RightPad(payment.contractAddress, 64)),
                                         WriteAll(m, run.memory), map[], None);
            && (p.Ran? <==> paid.Some?)
            && (p.Ran? ==> m + p.memory == WriteAll(m, run.memory + paid.value.memory))
  {
    var payment := TransferTransaction(tx, run.paid, tx.sender, env.blockWinner);
    assert payment == FlatBlock.Payment(tx, env, run.paid);
    var code, m1 := h.storageBase(CodeKey(payment)), WriteAll(m, run.memory);
    RunCodeIsFlat(h, fuel, payment, env, code, m1, map[], None);
    var paid := FlatBlock.Called(h, fuel, payment, env, code, m1, map[], None);
    if paid.Some? {
      WriteAllConcat(m, run.memory, paid.value.memory);
      ExtendIsResult(m, run.memory + paid.value.memory);
    }
  }

  lemma DeployWrites(h: Host, fuel: nat, tx: Transaction, env: Env, m: Changeset, s: Changeset)
    ensures SameEffect(RunSystem(h, fuel, tx, env, m, s), FlatBlock.System(h, fuel, tx, env, m, s), m, s)
  {
    assert m + map[] == m && s + map[] == s;
    if CreatesContract(tx) {
      var code := Write(NewContractKey(tx), tx.arguments[1].b);
      var deployed := s[code.key := code.value];
      assert s + map[code.key := code.value] == deployed;
      var constructor_ := ConstructorTransaction(tx, tx.arguments[0].text, tx.arguments[2].elements);
      RunMeteredIsFlat(h, fuel, constructor_, env, m, deployed);
      var r := FlatBlock.Metered(h, fuel, constructor_, env, m, deployed);
      if r.Some? {
        assert ([code] + r.value.storage)[1..] == r.value.storage;
        ExtendIsResult(m, r.value.memory);
        ExtendIsResult(s, [code] + r.value.storage);
      }
    }
  }

  // ---- What a block does ----

  ghost predicate Matches(b: Block, f: FlatBlock.Flat) {
    && b.memory == WriteAll(map[], f.memory) && b.storage == WriteAll(map[], f.storage)
    && |b.completed| == |f.answers| && forall i :: 0 <= i < |f.answers| ==> b.completed[i].answer == f.answers[i]
  }

  lemma {:induction false} ProcessIsFold(h: Host, fuel: nat, txs: seq<Transaction>, env: Env, b: Block,
                                         f: FlatBlock.Flat)
    requires Matches(b, f)
    ensures var r, g := Process(h, fuel, txs, env, b), FlatBlock.Fold(h, fuel, txs, env, f);
            (r.Some? <==> g.Some?) && (r.Some? ==> Matches(r.value, g.value))
    decreases txs
  {
    if txs == [] {
    } else {
      TransactionWrites(h, fuel, txs[0], env, b.memory, b.storage);
      var r := FlatBlock.TransactionOn(h, fuel, txs[0], env, b.memory, b.storage);
      if r.Some? {
        WriteAllConcat(map[], f.memory, r.value.memory);
        WriteAllConcat(map[], f.storage, r.value.storage);
        var p := RunTransaction(h, fuel, txs[0], env, b.memory, b.storage).value;
        ProcessIsFold(h, fuel, txs[1..], env, Extend(b, txs[0], p), FlatBlock.Next(h, fuel, txs[0], env, f).value);
      }
    }
  }

  /** Running any list of transactions, each on copies of what the earlier ones accumulated, amounts to the flat block:
      the changesets are all its writes applied one by one, and every transaction is completed once, in order, with
      the answer it has there. The process dies in the one exactly when there is nothing in the other. */
  lemma BlockIsFlat(h: Host, fuel: nat, txs: seq<Transaction>, env: Env)
    ensures var r, f := Process(h, fuel, txs, env, EMPTY_BLOCK), FlatBlock.Fold(h, fuel, txs, env, FlatBlock.NOTHING);
            && (r.Some? <==> f.Some?)
            && (r.Some? ==>
                  && r.value.memory == WriteAll(map[], f.value.memory)
                  && r.value.storage == WriteAll(map[], f.value.storage)
                  && |r.value.completed| == |txs| == |f.value.answers|
                  && forall i :: 0 <= i < |txs| ==> r.value.completed[i] == Completed(txs[i], f.value.answers[i]))
  {
    ProcessIsFold(h, fuel, txs, env, EMPTY_BLOCK, FlatBlock.NOTHING);
    var r := Process(h, fuel, txs, env, EMPTY_BLOCK);
    if r.Some? {
      FlatBlock.FoldExtends(h, fuel, txs, env, FlatBlock.NOTHING);
      CompletedInOrder(h, fuel, txs, env, EMPTY_BLOCK);
      forall i | 0 <= i < |txs| ensures r.value.completed[i].transaction == txs[i] {
        assert Transactions(r.value.completed) == [] + txs;
        assert Transactions(r.value.completed)[i] == txs[i];
      }
    }
  }

  /** The answer recorded for a transaction is the one it gives on what the writes of those before it amount to. */
  lemma AnswerOnEarlierWrites(h: Host, fuel: nat, txs: seq<Transaction>, env: Env, i: nat)
    requires Process(h, fuel, txs, env, EMPTY_BLOCK).Some? && i < |txs|
    ensures var b := Process(h, fuel, txs, env, EMPTY_BLOCK).value;
            var before := FlatBlock.Fold(h, fuel, txs[..i], env, FlatBlock.NOTHING);
            && before.Some? && |b.completed| == |txs|
            && var r := FlatBlock.TransactionOn(h, fuel, txs[i], env, WriteAll(map[], before.value.memory),
                                                WriteAll(map[], before.value.storage));
               r.Some? && b.completed[i] == Completed(txs[i], r.value.answer)
  {
    BlockIsFlat(h, fuel, txs, env);
    FlatBlock.AnswersInOrder(h, fuel, txs, env, i);
  }

  lemma RunCodeSame(h: Host, f: nat, f': nat, tx: Transaction, env: Env, code: bytes, w: World)
    requires f <= f' && RunCode(h, f, tx, env, code, w).Ran?
    ensures RunCode(h, f', tx, env, code, w) == RunCode(h, f, tx, env, code, w)
  {
    CallFunctionSame(h, f, f', tx, env, h.instantiate(code).value, tx.arguments, w);
  }

  lemma RunTransactionSame(h: Host, f: nat, f': nat, tx: Transaction, env: Env, m: Changeset, s: Changeset)
    requires f <= f' && RunTransaction(h, f, tx, env, m, s).Some?
    ensures RunTransaction(h, f', tx, env, m, s) == RunTransaction(h, f, tx, env, m, s)
  {
    if tx.contractAddress != SYSTEM_ADDRESS {
      var r := RunMetered(h, f, tx, env, m, s);
      RunMeteredSame(h, f, f', tx, env, m, s);
      var payment := TransferTransaction(tx, GasAmount(tx, r.gasLeft.value), tx.sender, env.blockWinner);
      RunCodeSame(h, f, f', payment, env, h.storageBase(CodeKey(payment)), StartWorld(r.memory, map[], None));
    } else if CreatesContract(tx) {
      var deployed := Apply(Apply(Layers(s, map[]), Put(NewContractKey(tx), tx.arguments[1].b)), Keep).changeset;
      var constructor_ := ConstructorTransaction(tx, tx.arguments[0].text, tx.arguments[2].elements);
      RunMeteredSame(h, f, f', constructor_, env, m, deployed);
    }
  }

  lemma RunMeteredSame(h: Host, f: nat, f': nat, tx: Transaction, env: Env, m: Changeset, s: Changeset)
    requires f <= f' && RunMetered(h, f, tx, env, m, s).Ran?
    ensures RunMetered(h, f', tx, env, m, s) == RunMetered(h, f, tx, env, m, s)
  {
    var w := StartWorld(m, s, Some(tx.gasLimit % U32));
    var code := Read(w.storage, h.storageBase, CodeKey(tx));
    if code != [] { RunCodeSame(h, f, f', tx, env, code, w); }
  }

  lemma {:induction false} MoreFuelSameBlock(h: Host, f: nat, f': nat, txs: seq<Transaction>, env: Env, b: Block)
    requires f <= f' && Process(h, f, txs, env, b).Some?
    ensures Process(h, f', txs, env, b) == Process(h, f, txs, env, b)
    decreases txs
  {
    if txs == [] {
    } else {
      RunTransactionSame(h, f, f', txs[0], env, b.memory, b.storage);
      var p := RunTransaction(h, f, txs[0], env, b.memory, b.storage).value;
      MoreFuelSameBlock(h, f, f', txs[1..], env, Extend(b, txs[0], p));
    }
  }

  /** Two amounts of fuel that suffice for a block give the same block. */
  lemma FuelDoesNotMatter(h: Host, f: nat, g: nat, txs: seq<Transaction>, env: Env, b: Block)
    requires Process(h, f, txs, env, b).Some? && Process(h, g, txs, env, b).Some?
    ensures Process(h, f, txs, env, b) == Process(h, g, txs, env, b)
  {
    if f <= g { MoreFuelSameBlock(h, f, g, txs, env, b); } else { MoreFuelSameBlock(h, g, f, txs, env, b); }
  }

  /** Every transaction is completed once, in order. */
  lemma {:induction false} CompletedInOrder(h: Host, fuel: nat, txs: seq<Transaction>, env: Env, b: Block)
    requires Process(h, fuel, txs, env, b).Some?
    ensures Transactions(Process(h, fuel, txs, env, b).value.completed) == Transactions(b.completed) + txs
    decreases txs
  {
    if txs == [] {
    } else {
      var next := Extend(b, txs[0], RunTransaction(h, fuel, txs[0], env, b.memory, b.storage).value);
      CompletedInOrder(h, fuel, txs[1..], env, next);
      assert Transactions(next.completed) == Transactions(b.completed) + [txs[0]];
      assert [txs[0]] + txs[1..] == txs;
      assert Transactions(b.completed) + [txs[0]] + txs[1..] == Transactions(b.completed) + ([txs[0]] + txs[1..]);
    }
  }

  function Transactions(completed: seq<Completed>): seq<Transaction> {
    seq(|completed|, i requires 0 <= i < |completed| => completed[i].transaction)
  }

  /** For every u64 gas limit the subtraction does not underflow, and the narrowed amount handed to the transfer is
      exactly the gas that the call paid, or nothing for a missing contract. */
  lemma AmountIsGasPaid(h: Host, fuel: nat, tx: Transaction, env: Env, m: Changeset, s: Changeset)
    requires RunMetered(h, fuel, tx, env, m, s).Ran?
    ensures var r := RunMetered(h, fuel, tx, env, m, s);
            var key := RightPad(tx.contractAddress, 64);
            var code := if key in s then s[key] else h.storageBase(key);
            && r.gasLeft.Some? && r.gasLeft.value <= tx.gasLimit
            && if code == [] then GasAmount(tx, r.gasLeft.value) == 0
               else h.instantiate(code).Some? &&
                    GasAmount(tx, r.gasLeft.value) ==
                    Paid(CallTransaction(h, fuel, tx, env, h.instantiate(code).value,
                                         World(Layers(m, map[]), Layers(s, map[]), Some(tx.gasLimit % U32))).trace)
  {
    RunMeteredIsFlat(h, fuel, tx, env, m, s);
    var r := RunMetered(h, fuel, tx, env, m, s);
    NarrowedDifference(tx.gasLimit, r.gasLeft.value);
  }

  /** An ordinary transaction on an existing contract is a call of it, and a call of the base token for exactly the gas
      that the first one paid, from the sender to the block winner: with the code stored before the block, unmetered,
      on the memory that the first call committed and on an empty storage changeset. The answer and the storage are
      those of the first call, the memory that of the second. If one of them does not come to an answer, or one of
      the codes cannot be instantiated, the process dies. */
  lemma OrdinaryExactly(h: Host, fuel: nat, tx: Transaction, env: Env, m: Changeset, s: Changeset)
    requires tx.contractAddress != SYSTEM_ADDRESS
    requires var key := RightPad(tx.contractAddress, 64); (if key in s then s[key] else h.storageBase(key)) != []
    ensures var key := RightPad(tx.contractAddress, 64);
            var code := if key in s then s[key] else h.storageBase(key);
            var token := seq(32, _ => 0) + Ascii("BaseToken");
            var tokenCode := h.storageBase(RightPad(token, 64));
            var p := RunTransaction(h, fuel, tx, env, m, s);
            if h.instantiate(code).None? || h.instantiate(tokenCode).None? then p == None
            else
              var o := CallTransaction(h, fuel, tx, env, h.instantiate(code).value,
                                       World(Layers(m, map[]), Layers(s, map[]), Some(tx.gasLimit % 0x1_0000_0000)));
              var payment := Transaction(token, tx.sender, 0, tx.gasLimit, Ascii("transfer"),
                                         [ByteString(env.blockWinner), Integer(Paid(o.trace))]);
              var paid := CallTransaction(h, fuel, payment, env, h.instantiate(tokenCode).value,
                                          World(Layers(o.world.memory.changeset, map[]), Layers(map[], map[]), None));
              if !o.exit.Answered? || !paid.exit.Answered? then p == None
              else p == Some(Processed(paid.world.memory.changeset, o.world.storage.changeset, o.exit.answer))
  {
    OrdinaryWrites(h, fuel, tx, env, m, s);
    RunMeteredIsFlat(h, fuel, tx, env, m, s);
    RunIsCall(h, fuel, tx, env, m, s);
    var run := FlatBlock.Metered(h, fuel, tx, env, m, s);
    if run.Some? {
      var payment := FlatBlock.Payment(tx, env, run.value.paid);
      var token := h.storageBase(RightPad(payment.contractAddress, 64));
      RunCodeIsFlat(h, fuel, payment, env, token, WriteAll(m, run.value.memory), map[], None);
      var paid := FlatBlock.Called(h, fuel, payment, env, token, WriteAll(m, run.value.memory), map[], None);
      if paid.Some? { WriteAllConcat(m, run.value.memory, paid.value.memory); }
    }
  }

  /** An ordinary transaction on a missing contract is answered with code 2, and the payment moves nothing. */
  lemma MissingExactly(h: Host, fuel: nat, tx: Transaction, env: Env, m: Changeset, s: Changeset)
    requires tx.contractAddress != SYSTEM_ADDRESS
    requires var key := RightPad(tx.contractAddress, 64); (if key in s then s[key] else h.storageBase(key)) == []
    ensures var token := seq(32, _ => 0) + Ascii("BaseToken");
            var tokenCode := h.storageBase(RightPad(token, 64));
            var p := RunTransaction(h, fuel, tx, env, m, s);
            if h.instantiate(tokenCode).None? then p == None
            else
              var payment := Transaction(token, tx.sender, 0, tx.gasLimit, Ascii("transfer"),
                                         [ByteString(env.blockWinner), Integer(0)]);
              var paid := CallTransaction(h, fuel, payment, env, h.instantiate(tokenCode).value,
                                          World(Layers(m, map[]), Layers(map[], map[]), None));
              if !paid.exit.Answered? then p == None
              else p == Some(Processed(paid.world.memory.changeset, s, Answer(2, Text(Ascii("Contract not found")))))
  {
    OrdinaryWrites(h, fuel, tx, env, m, s);
    var payment := FlatBlock.Payment(tx, env, 0);
    var token := h.storageBase(RightPad(payment.contractAddress, 64));
    RunCodeIsFlat(h, fuel, payment, env, token, m, map[], None);
    assert WriteAll(m, []) == m && WriteAll(s, []) == s;
    var paid := FlatBlock.Called(h, fuel, payment, env, token, m, map[], None);
    if paid.Some? { assert [] + paid.value.memory == paid.value.memory; }
  }

  lemma NarrowedDifference(limit: u64, left: u32)
    requires left <= limit % U32
    ensures left <= limit && (limit - left) % U64 % U32 == limit % U32 - left
  {
    var q := limit / U32;
    assert limit == q * U32 + limit % U32;
    assert (limit - left) % U64 == limit - left;
    assert limit - left == q * U32 + (limit % U32 - left);
  }

  /** The payment runs the token code stored before the block: when there is none that can be instantiated, no
      ordinary transaction can be processed, whatever the block itself has deployed so far. */
  lemma PaymentNeedsTokenBeforeBlock(h: Host, fuel: nat, tx: Transaction, env: Env, m: Changeset, s: Changeset)
    requires tx.contractAddress != SYSTEM_ADDRESS
    requires h.instantiate(h.storageBase(RightPad(BASE_TOKEN_ADDRESS, ADDRESS_LENGTH))).None?
    ensures RunTransaction(h, fuel, tx, env, m, s).None?
  {}

  // ---- transaction_processor as it runs ----

  class BlockProcess {
    const host: Host
    const env: Env
    var memory_changeset: Changeset
    var storage_changeset: Changeset
    var completed_transactions: seq<Completed>

    constructor (host: Host, env: Env)
      ensures this.host == host && this.env == env
      ensures memory_changeset == map[] && storage_changeset == map[] && completed_transactions == []
    {
      this.host := host;
      this.env := env;
      memory_changeset := map[];
      storage_changeset := map[];
      completed_transactions := [];
    }

    /** `Transaction::run` and the run inside `transfer`. */
    method Execute(fuel: nat, tx: Transaction, code: bytes, m: Changeset, s: Changeset, gas: Option<u32>)
      returns (alive: bool, memory: Changeset, storage: Changeset, answer: Answer, gasLeft: Option<u32>)
      ensures var r := RunCode(host, fuel, tx, env, code, StartWorld(m, s, gas));
              && alive == r.Ran?
              && (alive ==> memory == r.memory && storage == r.storage && answer == r.answer && gasLeft == r.gasLeft)
    {
      alive, memory, storage, answer, gasLeft := false, m, s, VM_PANIC, gas;
      var instance := host.instantiate(code);
      if instance.None? { return; }
      var memoryStore := new Store(host.memoryBase, m);
      var storageStore := new Store(host.storageBase, s);
      var vm := new VM(host, memoryStore, storageStore, tx, env, gas);
      var exit := vm.Call(fuel, instance.value, tx.arguments);
      if exit.Answered? {
        alive, answer := true, exit.answer;
        memory, storage, gasLeft := memoryStore.changeset, storageStore.changeset, vm.gas;
      }
    }

    method Run(fuel: nat, tx: Transaction, m: Changeset, s: Changeset)
      returns (alive: bool, memory: Changeset, storage: Changeset, answer: Answer, gasLeft: Option<u32>)
      ensures var r := RunMetered(host, fuel, tx, env, m, s);
              && alive == r.Ran?
              && (alive ==> memory == r.memory && storage == r.storage && answer == r.answer && gasLeft == r.gasLeft)
    {
      var storageStore := new Store(host.storageBase, s);
      var key := RightPadVec(tx.contractAddress, ADDRESS_LENGTH);
      var code := storageStore.Get(key);
      if code == [] { return true, m, s, CONTRACT_NOT_FOUND, Some(tx.gasLimit % U32); }
      alive, memory, storage, answer, gasLeft := Execute(fuel, tx, code, m, s, Some(tx.gasLimit % U32));
    }

    /** `system_contracts::run`. */
    method RunSystemContract(fuel: nat, tx: Transaction, m: Changeset, s: Changeset)
      returns (alive: bool, memory: Changeset, storage: Changeset, answer: Answer)
      ensures var p := RunSystem(host, fuel, tx, env, m, s);
              && alive == p.Some?
              && (alive ==> m + memory == p.value.memory && s + storage == p.value.storage && answer == p.value.answer)
    {
      if !CreatesContract(tx) { return true, map[], map[], Answer(0, Null); }
      var storageStore := new Store(host.storageBase, s);
      var key := RightPadVec(tx.sender + tx.arguments[0].text, ADDRESS_LENGTH);
      storageStore.Set(key, tx.arguments[1].b);
      storageStore.Commit();
      var gasLeft;
      alive, memory, storage, answer, gasLeft :=
        Run(fuel, ConstructorTransaction(tx, tx.arguments[0].text, tx.arguments[2].elements),
            m, storageStore.changeset);
    }

    /** `system_contracts::transfer` from the sender to the block winner, keeping its memory changes only. */
    method PayForGas(fuel: nat, tx: Transaction, m: Changeset, amount: u32) returns (alive: bool, memory: Changeset)
      ensures var r := Transfer(host, fuel, tx, env, m, amount, tx.sender, env.blockWinner);
              alive == r.Ran? && (alive ==> memory == r.memory)
    {
      var transfer := TransferTransaction(tx, amount, tx.sender, env.blockWinner);
      var empty := new Store(host.storageBase, map[]);
      var key := RightPadVec(transfer.contractAddress, ADDRESS_LENGTH);
      var code := empty.Get(key);
      var ignoredStorage, ignoredAnswer, ignoredGas;
      alive, memory, ignoredStorage, ignoredAnswer, ignoredGas := Execute(fuel, transfer, code, m, map[], None);
    }

    /** `run_transaction`: false when the process has died. */
    method RunOne(fuel: nat, tx: Transaction) returns (alive: bool, answer: Answer)
      modifies this`memory_changeset, this`storage_changeset
      ensures var p := RunTransaction(host, fuel, tx, env, old(memory_changeset), old(storage_changeset));
              && alive == p.Some?
              && (alive ==> memory_changeset == p.value.memory && storage_changeset == p.value.storage
                            && answer == p.value.answer)
    {
      var memory, storage;
      if tx.contractAddress == SYSTEM_ADDRESS {
        alive, memory, storage, answer := RunSystemContract(fuel, tx, memory_changeset, storage_changeset);
        if !alive { return; }
      } else {
        var gasLeft;
        alive, memory, storage, answer, gasLeft := Run(fuel, tx, memory_changeset, storage_changeset);
        if !alive { return; }
        if gasLeft.None? { alive := false; return; }
        alive, memory := PayForGas(fuel, tx, memory, GasAmount(tx, gasLeft.value));
        if !alive { return; }
      }
      memory_changeset := memory_changeset + memory;
      storage_changeset := storage_changeset + storage;
    }

    /** `process_existing_block`; `process_new_block` does the same for the transactions it takes off the queue. */
    method ProcessExistingBlock(fuel: nat, txs: seq<Transaction>) returns (alive: bool)
      requires memory_changeset == map[] && storage_changeset == map[] && completed_transactions == []
      modifies this
      ensures var b := Process(host, fuel, txs, env, EMPTY_BLOCK);
              && alive == b.Some?
              && (alive ==> memory_changeset == b.value.memory && storage_changeset == b.value.storage
                            && completed_transactions == b.value.completed)
    {
      ghost var b := EMPTY_BLOCK;
      for i := 0 to |txs|
        invariant b.memory == memory_changeset && b.storage == storage_changeset
        invariant b.completed == completed_transactions
        invariant Process(host, fuel, txs, env, EMPTY_BLOCK) == Process(host, fuel, txs[i..], env, b)
      {
        var answer;
        b := var p := RunTransaction(host, fuel, txs[i], env, memory_changeset, storage_changeset);
             if p.Some? then Extend(b, txs[i], p.value) else b;
        alive, answer := RunOne(fuel, txs[i]);
        if !alive { return; }
        completed_transactions := completed_transactions + [Completed(txs[i], answer)];
        assert txs[i..][1..] == txs[i + 1..];
      }
      alive := true;
    }
  }
}
