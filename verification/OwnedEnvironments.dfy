/** Rustler's owned environments: a saved term can be loaded only while the generation it was saved in lasts. */
module OwnedEnvironments {
  import opened Bytes

  /** A raw environment pointer; the allocator may hand out a freed one again. */
  type Pointer = nat

  /** What happens to owned environments. An environment is named by the position of its `New` in the run, a
      saved term by the position of its `Save`. A `Send` from a thread managed by the virtual machine panics
      before it does anything. */
  datatype Op =
    | New(pointer: Pointer)
    | Save(env: nat)
    | Clear(env: nat)
    | Send(env: nat, managed: bool)
    | Drop(env: nat)
    | Load(saved: nat, pointer: Pointer)

  /** An `OwnedEnv`: its raw pointer and the generation (the `Arc`) that it holds the only strong reference to. */
  datatype Owned = Owned(pointer: Pointer, generation: nat)

  /** Generations are named by the position of the operation that allocated them. `saved` holds the weak
      references of the saved terms and `pointers` what the generations point to. */
  datatype State = State(envs: map<nat, Owned>, saved: map<nat, nat>, pointers: map<nat, Pointer>, time: nat)

  const START: State := State(map[], map[], map[], 0)

  /** What Rust's ownership rules and the allocator guarantee: an operation names a live environment or an existing
      saved term, and a new environment has a pointer that no live one has. */
  predicate Possible(st: State, op: Op) {
    match op
    case New(p) => forall e :: e in st.envs ==> st.envs[e].pointer != p
    case Load(i, _) => i in st.saved
    case Save(e) => e in st.envs
    case Clear(e) => e in st.envs
    case Send(e, _) => e in st.envs
    case Drop(e) => e in st.envs
  }

  /** `self.env = Arc::new(c_env)`: the old generation loses its only strong reference. */
  function Renew(st: State, e: nat): State
    requires e in st.envs
  {
    st.(envs := st.envs[e := st.envs[e].(generation := st.time)],
        pointers := st.pointers[st.time := st.envs[e].pointer])
  }

  function Step(st: State, op: Op): State
    requires Possible(st, op)
  {
    var next := match op
      case New(p) => st.(envs := st.envs[st.time := Owned(p, st.time)], pointers := st.pointers[st.time := p])
      case Save(e) => st.(saved := st.saved[st.time := st.envs[e].generation])
      case Clear(e) => Renew(st, e)
      case Send(e, managed) => if managed then st else Renew(st, e)
      case Drop(e) => st.(envs := st.envs - {e})
      case Load(_, _) => st;
    next.(time := st.time + 1)
  }

  /** `Weak::upgrade`: some environment still holds the generation. */
  predicate Alive(st: State, generation: nat) {
    exists e :: e in st.envs && st.envs[e].generation == generation
  }

  /** `SavedTerm::load` into the environment behind `pointer` does not panic. */
  predicate LoadSucceeds(st: State, saved: nat, pointer: Pointer) {
    && saved in st.saved
    && Alive(st, st.saved[saved])
    && st.saved[saved] in st.pointers && st.pointers[st.saved[saved]] == pointer
  }

  /** The state after a run, if every operation was possible when it came. */
  function Run(ops: seq<Op>): Option<State>
    decreases |ops|
  {
    if ops == [] then Some(START)
    else match Run(ops[..|ops| - 1])
      case None => None
      case Some(before) =>
        if Possible(before, ops[|ops| - 1]) then Some(Step(before, ops[|ops| - 1])) else None
  }

  // ---- The same, read off the history alone ----

  /** The operation frees or invalidates all terms of the environment. */
  predicate Wipes(op: Op, e: nat) {
    op == Clear(e) || op == Send(e, false) || op == Drop(e)
  }

  /** The operation gives the environment a generation. */
  predicate Renews(ops: seq<Op>, i: nat, e: nat)
    requires i < |ops|
  {
    (i == e && ops[i].New?) || ops[i] == Clear(e) || ops[i] == Send(e, false)
  }

  ghost predicate Untouched(ops: seq<Op>, from: nat, to: nat, e: nat) {
    forall i :: from <= i < to && i < |ops| ==> !Wipes(ops[i], e)
  }

  /** The last operation that gave the environment a generation. */
  ghost predicate LastRenewal(ops: seq<Op>, e: nat, i: nat) {
    && i < |ops| && Renews(ops, i, e)
    && forall j :: i < j < |ops| ==> !Renews(ops, j, e)
  }

  ghost predicate Living(ops: seq<Op>, e: nat) {
    && e < |ops| && ops[e].New?
    && forall j :: e < j < |ops| ==> ops[j] != Drop(e)
  }

  /** State and history agree. */
  ghost predicate Explained(ops: seq<Op>, st: State) {
    && st.time == |ops|
    && (forall e :: e in st.envs <==> Living(ops, e))
    && (forall e :: e in st.envs ==> LastRenewal(ops, e, st.envs[e].generation) && st.envs[e].pointer == ops[e].pointer)
    && (forall e :: e in st.envs ==>
          st.envs[e].generation in st.pointers && st.pointers[st.envs[e].generation] == st.envs[e].pointer)
    && (forall i: nat :: i in st.saved <==> i < |ops| && ops[i].Save?)
    && (forall i :: i in st.saved ==> LastRenewal(ops[..i], ops[i].env, st.saved[i]) && Living(ops[..i], ops[i].env))
  }

  lemma StepExplained(ops: seq<Op>, st: State, op: Op, all: seq<Op>)
    requires Explained(ops, st) && Possible(st, op) && all == ops + [op]
    ensures Explained(all, Step(st, op))
  {
    var next := Step(st, op);
    forall e ensures e in next.envs <==> Living(all, e) { LivingStep(ops, op, e); }
    forall e | e in next.envs
      ensures LastRenewal(all, e, next.envs[e].generation) && next.envs[e].pointer == all[e].pointer
      ensures next.envs[e].generation in next.pointers
      ensures next.pointers[next.envs[e].generation] == next.envs[e].pointer
    {
      EnvStep(ops, st, op, e);
    }
    forall i: nat ensures i in next.saved <==> i < |all| && all[i].Save? {
      if i < |ops| { assert all[i] == ops[i]; }
    }
    forall i | i in next.saved
      ensures LastRenewal(all[..i], all[i].env, next.saved[i]) && Living(all[..i], all[i].env)
    {
      SavedStep(ops, st, op, i);
    }
  }

  lemma EnvStep(ops: seq<Op>, st: State, op: Op, e: nat)
    requires Explained(ops, st) && Possible(st, op) && e in Step(st, op).envs
    ensures var all, next := ops + [op], Step(st, op);
            && LastRenewal(all, e, next.envs[e].generation) && next.envs[e].pointer == all[e].pointer
            && next.envs[e].generation in next.pointers
            && next.pointers[next.envs[e].generation] == next.envs[e].pointer
  {
    var all, n := ops + [op], |ops|;
    if e == n {
      assert Renews(all, n, e);
    } else {
      RenewalStep(ops, op, e, st.envs[e].generation);
    }
  }

  lemma SavedStep(ops: seq<Op>, st: State, op: Op, i: nat)
    requires Explained(ops, st) && Possible(st, op) && i in Step(st, op).saved
    ensures var all := ops + [op];
            i < |all| && all[i].Save? &&
            LastRenewal(all[..i], all[i].env, Step(st, op).saved[i]) && Living(all[..i], all[i].env)
  {
    var all := ops + [op];
    if i == |ops| { assert all[..i] == ops; } else { assert all[..i] == ops[..i]; }
  }

  lemma LivingStep(ops: seq<Op>, op: Op, e: nat)
    ensures Living(ops + [op], e) <==> (Living(ops, e) && op != Drop(e)) || (e == |ops| && op.New?)
  {
    var all := ops + [op];
    if Living(all, e) && e < |ops| {
      assert all[e] == ops[e];
      forall j | e < j < |ops| ensures ops[j] != Drop(e) { assert all[j] == ops[j]; }
      assert all[|ops|] == op;
    }
    if Living(ops, e) && op != Drop(e) {
      forall j | e < j < |all| ensures all[j] != Drop(e) { if j < |ops| { assert all[j] == ops[j]; } }
    }
  }

  lemma RenewalStep(ops: seq<Op>, op: Op, e: nat, i: nat)
    requires LastRenewal(ops, e, i) && e < |ops|
    ensures if op == Clear(e) || op == Send(e, false) then LastRenewal(ops + [op], e, |ops|)
            else LastRenewal(ops + [op], e, i)
  {
    var all := ops + [op];
    forall j | 0 <= j < |all| ensures Renews(all, j, e) <==> if j < |ops| then Renews(ops, j, e) else
                                                             op == Clear(e) || op == Send(e, false) {
      if j < |ops| { assert all[j] == ops[j]; }
    }
  }

  lemma {:induction false} RunExplained(ops: seq<Op>) returns (st: State)
    requires Run(ops).Some?
    ensures st == Run(ops).value && Explained(ops, st)
    decreases |ops|
  {
    if ops == [] {
      st := START;
      StartExplained();
    } else {
      var init, last := RunUnfolds(ops);
      var before := RunExplained(init);
      st := Step(before, last);
      StepExplained(init, before, last, ops);
    }
  }

  lemma RunUnfolds(ops: seq<Op>) returns (init: seq<Op>, last: Op)
    requires ops != [] && Run(ops).Some?
    ensures |init| < |ops| && ops == init + [last]
    ensures Run(init).Some? && Possible(Run(init).value, last) && Run(ops).value == Step(Run(init).value, last)
  {
    init, last := ops[..|ops| - 1], ops[|ops| - 1];
  }

  lemma StartExplained()
    ensures Explained([], START)
  {}

  // ---- The main result ----

  /** A generation belongs to one environment. */
  lemma OneEnvPerGeneration(ops: seq<Op>, e: nat, f: nat, i: nat)
    requires i < |ops| && Renews(ops, i, e) && Renews(ops, i, f)
    ensures e == f
  {}

  /** Over any run: loading a saved term succeeds exactly when the environment it was saved in has not been
      cleared, sent or dropped since the save and is the one behind the given pointer. A reused pointer value
      makes no difference. */
  lemma LoadIsSafeExactly(ops: seq<Op>, i: nat, pointer: Pointer)
    requires Run(ops).Some? && i < |ops| && ops[i].Save?
    ensures var e := ops[i].env;
            LoadSucceeds(Run(ops).value, i, pointer) <==>
              Untouched(ops, i, |ops|, e) && e < |ops| && ops[e] == New(pointer)
  {
    var st := RunExplained(ops);
    var e, g := ops[i].env, st.saved[i];
    assert LastRenewal(ops[..i], e, g) && Living(ops[..i], e);
    assert ops[e].New? && ops[g] == ops[..i][g] && Renews(ops, g, e);
    if Untouched(ops, i, |ops|, e) {
      UntouchedKeeps(ops, i, e, g);
      assert e in st.envs;
      SameRenewal(ops, e, g, st.envs[e].generation);
    }
    if LoadSucceeds(st, i, pointer) {
      var f :| f in st.envs && st.envs[f].generation == g;
      OneEnvPerGeneration(ops, e, f, g);
      LastRenewalTells(ops, i, e, g);
    }
  }

  lemma SameRenewal(ops: seq<Op>, e: nat, g: nat, h: nat)
    requires LastRenewal(ops, e, g) && LastRenewal(ops, e, h)
    ensures g == h
  {}

  lemma UntouchedKeeps(ops: seq<Op>, i: nat, e: nat, g: nat)
    requires i < |ops| && LastRenewal(ops[..i], e, g) && Living(ops[..i], e) && Untouched(ops, i, |ops|, e)
    ensures LastRenewal(ops, e, g) && Living(ops, e)
  {
    assert ops[e] == ops[..i][e] && ops[g] == ops[..i][g];
    forall j | g < j < |ops| ensures !Renews(ops, j, e) {
      if j < i { assert ops[j] == ops[..i][j] && !Renews(ops[..i], j, e); } else { assert !Wipes(ops[j], e); }
    }
    forall j | e < j < |ops| ensures ops[j] != Drop(e) {
      if j < i { assert ops[j] == ops[..i][j]; } else { assert !Wipes(ops[j], e); }
    }
  }

  lemma LastRenewalTells(ops: seq<Op>, i: nat, e: nat, g: nat)
    requires i < |ops| && g < i && LastRenewal(ops, e, g) && Living(ops, e) && e < i
    ensures Untouched(ops, i, |ops|, e)
  {
    forall j | i <= j < |ops| ensures !Wipes(ops[j], e) {
      assert !Renews(ops, j, e) && ops[j] != Drop(e);
    }
  }

  /** The environments of a process, as the program updates them. */
  class Environments {
    var envs: map<nat, Owned>
    var saved: map<nat, nat>
    var pointers: map<nat, Pointer>
    var time: nat

    ghost function View(): State
      reads this
    {
      State(envs, saved, pointers, time)
    }

    constructor ()
      ensures View() == START
    {
      envs, saved, pointers, time := map[], map[], map[], 0;
    }

    method NewEnv(pointer: Pointer) returns (env: nat)
      requires Possible(View(), New(pointer))
      modifies this
      ensures View() == Step(old(View()), New(pointer)) && env == old(time)
    {
      env := time;
      envs := envs[env := Owned(pointer, time)];
      pointers := pointers[time := pointer];
      time := time + 1;
    }

    method SaveTerm(env: nat) returns (handle: nat)
      requires Possible(View(), Save(env))
      modifies this`saved, this`time
      ensures View() == Step(old(View()), Save(env)) && handle == old(time)
    {
      handle := time;
      saved := saved[handle := envs[env].generation];
      time := time + 1;
    }

    method ClearEnv(env: nat)
      requires Possible(View(), Clear(env))
      modifies this
      ensures View() == Step(old(View()), Clear(env))
    {
      var pointer := envs[env].pointer;
      envs := envs[env := Owned(pointer, time)];
      pointers := pointers[time := pointer];
      time := time + 1;
    }

    method SendAndClear(env: nat, managed: bool) returns (sent: bool)
      requires Possible(View(), Send(env, managed))
      modifies this
      ensures View() == Step(old(View()), Send(env, managed)) && sent == !managed
    {
      sent := !managed;
      if managed { time := time + 1; } else { ClearEnv(env); }
    }

    method DropEnv(env: nat)
      requires Possible(View(), Drop(env))
      modifies this`envs, this`time
      ensures View() == Step(old(View()), Drop(env))
    {
      envs := envs - {env};
      time := time + 1;
    }

    method LoadTerm(handle: nat, pointer: Pointer) returns (ok: bool)
      requires Possible(View(), Load(handle, pointer))
      modifies this`time
      ensures View() == Step(old(View()), Load(handle, pointer))
      ensures ok == LoadSucceeds(old(View()), handle, pointer)
    {
      var generation := saved[handle];
      var alive := exists e :: e in envs && envs[e].generation == generation;
      ok := alive && generation in pointers && pointers[generation] == pointer;
      time := time + 1;
    }
  }
}
