/** What a block of transactions amounts to, without changesets that are copied and folded back: a list of writes
    that grows transaction by transaction, each of which starts on the flat maps written so far. */
module FlatBlock {
  import opened Bytes
  import opened Overlay
  import opened Machine
  import opened MachineFacts
  import opened MachineTheorems

  /** The committed writes of some calls, in order, the answer, and the gas the calls paid for themselves. */
  datatype Run = Run(memory: seq<Write>, storage: seq<Write>, answer: Answer, paid: nat)

  /** The call that a transaction names, on the given contract code; nothing when it does not come to an answer. */
  function Called(h: Host, fuel: nat, tx: Transaction, env: Env, code: bytes, m: Changeset, s: Changeset,
                  gas: Option<u32>): Option<Run>
  {
    match h.instantiate(code)
    case None => None
    case Some(local) =>
      var o := CallTransaction(h, fuel, tx, env, local, World(Layers(m, map[]), Layers(s, map[]), gas));
      if !o.exit.Answered? then None
      else Some(Run(Kept([], MemoryLog(o.trace)), Kept([], StorageLog(o.trace)), o.exit.answer, Paid(o.trace)))
  }

  /** A call of a contract, metered by the limit modulo 2^32. */
  function Metered(h: Host, fuel: nat, tx: Transaction, env: Env, m: Changeset, s: Changeset): Option<Run> {
    var key := RightPad(tx.contractAddress, 64);
    var code := if key in s then s[key] else h.storageBase(key);
    if code == [] then Some(Run([], [], Answer(2, Text(Ascii("Contract not found"))), 0))
    else Called(h, fuel, tx, env, code, m, s, Some(tx.gasLimit % 0x1_0000_0000))
  }

  /** The call of the base token that moves the gas paid from the sender to the winner. */
  function Payment(tx: Transaction, env: Env, paid: nat): Transaction {
    Transaction(seq(32, _ => 0) + Ascii("BaseToken"), tx.sender, 0, tx.gasLimit, Ascii("transfer"),
                [ByteString(env.blockWinner), Integer(paid)])
  }

  /** An ordinary transaction: its run, then the payment for it, unmetered, with the code stored before the block. */
  function Ordinary(h: Host, fuel: nat, tx: Transaction, env: Env, m: Changeset, s: Changeset): Option<Run> {
    match Metered(h, fuel, tx, env, m, s)
    case None => None
    case Some(r) =>
      var payment := Payment(tx, env, r.paid);
      match Called(h, fuel, payment, env, h.storageBase(RightPad(payment.contractAddress, 64)),
                   WriteAll(m, r.memory), map[], None)
      case None => None
      case Some(p) => Some(r.(memory := r.memory + p.memory))
  }

  /** A system transaction: the code of a new contract is stored, then its constructor runs; anything else is
      answered with null. Neither is paid for. */
  function System(h: Host, fuel: nat, tx: Transaction, env: Env, m: Changeset, s: Changeset): Option<Run> {
    var a := tx.arguments;
    if tx.function_ == Ascii("create_contract") && |a| == 3 && a[0].Text? && a[1].ByteString? && a[2].Array? then
      var address := tx.sender + a[0].text;
      var code := Write(RightPad(address, 64), a[1].b);
      var constructor_ := Transaction(address, tx.sender, tx.nonce, tx.gasLimit, Ascii("constructor"), a[2].elements);
      match Metered(h, fuel, constructor_, env, m, s[code.key := code.value])
      case None => None
      case Some(r) => Some(r.(storage := [code] + r.storage))
    else Some(Run([], [], Answer(0, Null), 0))
  }

  function TransactionOn(h: Host, fuel: nat, tx: Transaction, env: Env, m: Changeset, s: Changeset): Option<Run> {
    if tx.contractAddress == seq(32, _ => 0) + Ascii("system") then System(h, fuel, tx, env, m, s)
    else Ordinary(h, fuel, tx, env, m, s)
  }

  /** A flat block: everything written so far and the answers given. */
  datatype Flat = Flat(memory: seq<Write>, storage: seq<Write>, answers: seq<Answer>)

  const NOTHING: Flat := Flat([], [], [])

  /** The next transaction runs on the flat maps written so far. */
  function Next(h: Host, fuel: nat, tx: Transaction, env: Env, f: Flat): Option<Flat> {
    match TransactionOn(h, fuel, tx, env, WriteAll(map[], f.memory), WriteAll(map[], f.storage))
    case None => None
    case Some(r) => Some(Flat(f.memory + r.memory, f.storage + r.storage, f.answers + [r.answer]))
  }

  function Fold(h: Host, fuel: nat, txs: seq<Transaction>, env: Env, f: Flat): Option<Flat>
    decreases txs
  {
    if txs == [] then Some(f)
    else match Next(h, fuel, txs[0], env, f)
      case None => None
      case Some(next) => Fold(h, fuel, txs[1..], env, next)
  }

  lemma {:induction false} FoldConcat(h: Host, fuel: nat, a: seq<Transaction>, b: seq<Transaction>, env: Env, f: Flat)
    ensures Fold(h, fuel, a + b, env, f) ==
            match Fold(h, fuel, a, env, f) case None => None case Some(mid) => Fold(h, fuel, b, env, mid)
    decreases a
  {
    if a == [] {
      assert a + b == b;
    } else {
      assert (a + b)[1..] == a[1..] + b;
      match Next(h, fuel, a[0], env, f)
      case None =>
      case Some(next) => FoldConcat(h, fuel, a[1..], b, env, next);
    }
  }

  lemma {:induction false} FoldExtends(h: Host, fuel: nat, txs: seq<Transaction>, env: Env, f: Flat)
    requires Fold(h, fuel, txs, env, f).Some?
    ensures var g := Fold(h, fuel, txs, env, f).value;
            f.memory <= g.memory && f.storage <= g.storage && f.answers <= g.answers &&
            |g.answers| == |f.answers| + |txs|
    decreases txs
  {
    if txs == [] {
    } else {
      FoldExtends(h, fuel, txs[1..], env, Next(h, fuel, txs[0], env, f).value);
    }
  }

  /** The `i`-th answer is that of the `i`-th transaction on the writes of the ones before it, and those writes come
      first. */
  lemma AnswersInOrder(h: Host, fuel: nat, txs: seq<Transaction>, env: Env, i: nat)
    requires Fold(h, fuel, txs, env, NOTHING).Some? && i < |txs|
    ensures Fold(h, fuel, txs[..i], env, NOTHING).Some?
    ensures var all, before := Fold(h, fuel, txs, env, NOTHING).value, Fold(h, fuel, txs[..i], env, NOTHING).value;
            var r := TransactionOn(h, fuel, txs[i], env, WriteAll(map[], before.memory),
                                   WriteAll(map[], before.storage));
            && r.Some? && |all.answers| == |txs| && all.answers[i] == r.value.answer
            && before.memory + r.value.memory <= all.memory && before.storage + r.value.storage <= all.storage
  {
    assert txs == txs[..i] + txs[i..];
    FoldConcat(h, fuel, txs[..i], txs[i..], env, NOTHING);
    var before := Fold(h, fuel, txs[..i], env, NOTHING).value;
    FoldExtends(h, fuel, txs, env, NOTHING);
    FoldExtends(h, fuel, txs[..i], env, NOTHING);
    var next := Next(h, fuel, txs[i], env, before).value;
    FoldExtends(h, fuel, txs[i..][1..], env, next);
    assert next.answers[i] == Fold(h, fuel, txs, env, NOTHING).value.answers[i];
  }
}
