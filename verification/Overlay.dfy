/** The two-layer overlay of `memory.rs` and `storage.rs`, and what a log of operations leaves in it. */
module Overlay {
  import opened Bytes

  type Changeset = map<bytes, bytes>

  datatype Layers = Layers(changeset: Changeset, working: Changeset)

  /** One operation on an overlay. */
  datatype Op = Put(key: bytes, value: bytes) | Keep | Drop

  function Apply(o: Layers, op: Op): Layers {
    match op
    case Put(k, v) => o.(working := o.working[k := v])
    case Keep => Layers(o.changeset + o.working, map[])
    case Drop => Layers(o.changeset, map[])
  }

  function ApplyAll(o: Layers, log: seq<Op>): Layers
    decreases log
  {
    if log == [] then o else ApplyAll(Apply(o, log[0]), log[1..])
  }

  /** A read consults committed writes only, then the base the block started from. */
  function Read(o: Layers, base: bytes -> bytes, key: bytes): bytes {
    if key in o.changeset then o.changeset[key] else base(key)
  }

  lemma {:induction false} ApplyAllConcat(o: Layers, a: seq<Op>, b: seq<Op>)
    ensures ApplyAll(o, a + b) == ApplyAll(ApplyAll(o, a), b)
    decreases a
  {
    if a == [] {
      assert a + b == b;
    } else {
      assert (a + b)[1..] == a[1..] + b;
      ApplyAllConcat(Apply(o, a[0]), a[1..], b);
    }
  }

  lemma ApplyAllSnoc(o: Layers, log: seq<Op>)
    requires log != []
    ensures ApplyAll(o, log) == Apply(ApplyAll(o, log[..|log| - 1]), log[|log| - 1])
  {
    var init, last := log[..|log| - 1], [log[|log| - 1]];
    assert log == init + last;
    ApplyAllConcat(o, init, last);
    assert last[1..] == [];
  }

  // ---- The log cut into segments: which writes are kept, stated by position ----

  /** The position of the first commit or rollback at or after `i`, or the end of the log. */
  function NextSwitch(log: seq<Op>, i: nat): (j: nat)
    requires i <= |log|
    ensures i <= j <= |log|
    decreases |log| - i
  {
    if i == |log| || !log[i].Put? then i else NextSwitch(log, i + 1)
  }

  /** A write survives when the first switch after it is a commit. */
  predicate Survives(log: seq<Op>, i: int) {
    0 <= i < |log| && log[i].Put? && NextSwitch(log, i) < |log| && log[NextSwitch(log, i)].Keep?
  }

  /** A write is pending when no switch follows it. */
  predicate Pending(log: seq<Op>, i: int) {
    0 <= i < |log| && log[i].Put? && NextSwitch(log, i) == |log|
  }

  ghost predicate LastSurvivor(log: seq<Op>, key: bytes, i: int) {
    && Survives(log, i) && log[i].key == key
    && forall m :: i < m < |log| && Survives(log, m) ==> log[m].key != key
  }

  ghost predicate LastPending(log: seq<Op>, key: bytes, i: int) {
    && Pending(log, i) && log[i].key == key
    && forall m :: i < m < |log| && Pending(log, m) ==> log[m].key != key
  }

  ghost predicate NeverSurvives(log: seq<Op>, key: bytes) {
    forall i :: Survives(log, i) ==> log[i].key != key
  }

  ghost predicate NeverPending(log: seq<Op>, key: bytes) {
    forall i :: Pending(log, i) ==> log[i].key != key
  }

  lemma {:induction false} NextSwitchSnoc(log: seq<Op>, i: nat)
    requires i < |log|
    ensures var n := |log| - 1;
            NextSwitch(log, i) == if NextSwitch(log[..n], i) < n then NextSwitch(log[..n], i)
                                  else if log[n].Put? then n + 1 else n
    decreases |log| - i
  {
    if i >= |log| - 1 || !log[i].Put? {
    } else {
      NextSwitchSnoc(log, i + 1);
    }
  }

  lemma SurvivesSnoc(log: seq<Op>, i: int)
    requires log != []
    ensures var n := |log| - 1;
            && (Survives(log, i) <==> Survives(log[..n], i) || (log[n].Keep? && Pending(log[..n], i)))
            && (Pending(log, i) <==> log[n].Put? && (i == n || Pending(log[..n], i)))
  {
    if 0 <= i < |log| { NextSwitchSnoc(log, i); }
  }

  /** The committed layer holds the last surviving write of the key, or what it held before. */
  ghost predicate CommittedRight(c: Changeset, log: seq<Op>, key: bytes, o: Layers) {
    && (forall i :: LastSurvivor(log, key, i) ==> key in o.changeset && o.changeset[key] == log[i].value)
    && (NeverSurvives(log, key) ==>
          (key in o.changeset <==> key in c) && (key in c ==> o.changeset[key] == c[key]))
  }

  /** The working layer holds the last pending write of the key, or nothing. */
  ghost predicate WorkingRight(log: seq<Op>, key: bytes, o: Layers) {
    && (forall i :: LastPending(log, key, i) ==> key in o.working && o.working[key] == log[i].value)
    && (NeverPending(log, key) ==> key !in o.working)
  }

  /** Key by key, the survivors of the log decide both layers. */
  lemma {:induction false} SurvivorsDecide(c: Changeset, log: seq<Op>, key: bytes)
    ensures CommittedRight(c, log, key, ApplyAll(Layers(c, map[]), log))
    ensures WorkingRight(log, key, ApplyAll(Layers(c, map[]), log))
    decreases |log|
  {
    if log == [] {
    } else {
      var init := log[..|log| - 1];
      var start := Layers(c, map[]);
      SurvivorsDecide(c, init, key);
      ApplyAllSnoc(start, log);
      if log[|log| - 1].Keep? {
        KeepStep(c, log, key, ApplyAll(start, init));
      } else {
        QuietStep(c, log, key, ApplyAll(start, init));
      }
      WorkingStep(log, key, ApplyAll(start, init));
    }
  }

  /** A write or a rollback changes no committed value and makes no write survive. */
  lemma QuietStep(c: Changeset, log: seq<Op>, key: bytes, p: Layers)
    requires log != [] && !log[|log| - 1].Keep?
    requires CommittedRight(c, log[..|log| - 1], key, p)
    ensures CommittedRight(c, log, key, Apply(p, log[|log| - 1]))
  {
    var init := log[..|log| - 1];
    forall i | LastSurvivor(log, key, i) ensures LastSurvivor(init, key, i) { QuietLast(log, key, i); }
    if NeverSurvives(log, key) { QuietNever(log, key); }
  }

  lemma QuietLast(log: seq<Op>, key: bytes, i: int)
    requires log != [] && !log[|log| - 1].Keep? && LastSurvivor(log, key, i)
    ensures LastSurvivor(log[..|log| - 1], key, i)
  {
    var init := log[..|log| - 1];
    SurvivesSnoc(log, i);
    forall m | i < m < |init| && Survives(init, m) ensures init[m].key != key { SurvivesSnoc(log, m); }
  }

  lemma QuietNever(log: seq<Op>, key: bytes)
    requires log != [] && !log[|log| - 1].Keep? && NeverSurvives(log, key)
    ensures NeverSurvives(log[..|log| - 1], key)
  {
    var init := log[..|log| - 1];
    forall i | Survives(init, i) ensures init[i].key != key { SurvivesSnoc(log, i); }
  }

  /** A commit makes exactly the pending writes survive. */
  lemma KeepStep(c: Changeset, log: seq<Op>, key: bytes, p: Layers)
    requires log != [] && log[|log| - 1].Keep?
    requires CommittedRight(c, log[..|log| - 1], key, p) && WorkingRight(log[..|log| - 1], key, p)
    ensures CommittedRight(c, log, key, Apply(p, log[|log| - 1]))
  {
    var init := log[..|log| - 1];
    PendingDichotomy(init, key);
    if NeverPending(init, key) {
      forall i | LastSurvivor(log, key, i) ensures LastSurvivor(init, key, i) { KeepLast(log, key, i); }
      if NeverSurvives(log, key) { KeepNever(log, key); }
    } else {
      var last :| LastPending(init, key, last);
      SurvivesSnoc(log, last);
      forall i | LastSurvivor(log, key, i) ensures i == last {
        SurvivesSnoc(log, i);
        LastPendingIsLast(init, key, last, i);
      }
    }
  }

  lemma KeepLast(log: seq<Op>, key: bytes, i: int)
    requires log != [] && log[|log| - 1].Keep? && NeverPending(log[..|log| - 1], key) && LastSurvivor(log, key, i)
    ensures LastSurvivor(log[..|log| - 1], key, i)
  {
    var init := log[..|log| - 1];
    SurvivesSnoc(log, i);
    forall m | i < m < |init| && Survives(init, m) ensures init[m].key != key { SurvivesSnoc(log, m); }
  }

  lemma KeepNever(log: seq<Op>, key: bytes)
    requires log != [] && log[|log| - 1].Keep? && NeverSurvives(log, key)
    ensures NeverSurvives(log[..|log| - 1], key)
  {
    var init := log[..|log| - 1];
    forall i | Survives(init, i) ensures init[i].key != key { SurvivesSnoc(log, i); }
  }

  /** Nothing after a last pending write survives or is pending with the same key. */
  lemma LastPendingIsLast(log: seq<Op>, key: bytes, last: int, i: int)
    requires LastPending(log, key, last)
    requires Survives(log, i) || Pending(log, i)
    requires last <= i && log[i].key == key
    ensures i == last
  {
    if last < i { AllPutsBetween(log, last, i); }
  }

  /** After a pending write there are only pending writes. */
  lemma {:induction false} AllPutsBetween(log: seq<Op>, i: nat, m: nat)
    requires Pending(log, i) && i <= m < |log|
    ensures Pending(log, m)
    decreases m - i
  {
    if i >= m {
    } else {
      assert NextSwitch(log, i) == NextSwitch(log, i + 1);
      AllPutsBetween(log, i + 1, m);
    }
  }

  lemma WorkingStep(log: seq<Op>, key: bytes, p: Layers)
    requires log != []
    requires WorkingRight(log[..|log| - 1], key, p)
    ensures WorkingRight(log, key, Apply(p, log[|log| - 1]))
  {
    var n := |log| - 1;
    var init := log[..n];
    forall i ensures Pending(log, i) <==> log[n].Put? && (i == n || Pending(init, i)) { SurvivesSnoc(log, i); }
    if log[n].Put? {
      assert Pending(log, n);
      forall i | LastPending(log, key, i) && i != n ensures LastPending(init, key, i) && log[n].key != key {
        forall m | i < m < n && Pending(init, m) ensures init[m].key != key { assert Pending(log, m); }
      }
      if NeverPending(log, key) {
        forall i | Pending(init, i) ensures init[i].key != key { assert Pending(log, i); }
      }
    }
  }

  /** Either no pending write touches the key, or there is a last one. */
  lemma PendingDichotomy(log: seq<Op>, key: bytes)
    ensures NeverPending(log, key) || exists i :: LastPending(log, key, i)
  {
    if i :| Pending(log, i) && log[i].key == key {
      var last := i;
      var m := i + 1;
      while m < |log|
        invariant i <= last < m <= |log|
        invariant Pending(log, last) && log[last].key == key
        invariant forall x :: last < x < m && Pending(log, x) ==> log[x].key != key
      {
        if Pending(log, m) && log[m].key == key { last := m; }
        m := m + 1;
      }
      assert LastPending(log, key, last);
    }
  }

  /** Either no surviving write touches the key, or there is a last one. */
  lemma SurvivorDichotomy(log: seq<Op>, key: bytes)
    ensures NeverSurvives(log, key) || exists i :: LastSurvivor(log, key, i)
  {
    if i :| Survives(log, i) && log[i].key == key {
      var last := i;
      var m := i + 1;
      while m < |log|
        invariant i <= last < m <= |log|
        invariant Survives(log, last) && log[last].key == key
        invariant forall x :: last < x < m && Survives(log, x) ==> log[x].key != key
      {
        if Survives(log, m) && log[m].key == key { last := m; }
        m := m + 1;
      }
      assert LastSurvivor(log, key, last);
    }
  }

  /** The value is what the last surviving write of the key wrote or, if none survives, what the changeset or else
      the base held from the start. */
  ghost predicate IsCommittedValue(c: Changeset, log: seq<Op>, base: bytes -> bytes, key: bytes, value: bytes) {
    && (forall i :: LastSurvivor(log, key, i) ==> value == log[i].value)
    && (NeverSurvives(log, key) ==> value == if key in c then c[key] else base(key))
  }

  /** After any log, and whatever is pending, a read returns the committed value, and no other value is that. */
  lemma ReadsLastSurvivor(c: Changeset, log: seq<Op>, base: bytes -> bytes, key: bytes, value: bytes)
    ensures value == Read(ApplyAll(Layers(c, map[]), log), base, key) <==>
            IsCommittedValue(c, log, base, key, value)
  {
    SurvivorsDecide(c, log, key);
    SurvivorDichotomy(log, key);
  }

  /** The last surviving write of every key writes what the key held before. */
  ghost predicate SurvivorsRestore(c: Changeset, log: seq<Op>) {
    forall key, i :: LastSurvivor(log, key, i) ==> key in c && c[key] == log[i].value
  }

  /** A log leaves the committed layer as it was exactly when its last survivors write what was there. */
  lemma UnchangedExactly(c: Changeset, log: seq<Op>)
    ensures ApplyAll(Layers(c, map[]), log).changeset == c <==> SurvivorsRestore(c, log)
  {
    var o := ApplyAll(Layers(c, map[]), log);
    if SurvivorsRestore(c, log) {
      forall key ensures (key in o.changeset <==> key in c) && (key in c ==> o.changeset[key] == c[key]) {
        SurvivorDichotomy(log, key);
        SurvivorsDecide(c, log, key);
      }
      assert o.changeset == c;
    }
    if o.changeset == c {
      forall key, i | LastSurvivor(log, key, i) ensures key in c && c[key] == log[i].value {
        SurvivorsDecide(c, log, key);
      }
    }
  }

  // ---- The same cut as a list of kept writes, used to fold whole blocks ----

  datatype Write = Write(key: bytes, value: bytes)

  /** The writes of the segments that end in a commit, in order; `open` is the segment under way. */
  function Kept(open: seq<Write>, log: seq<Op>): seq<Write>
    decreases log
  {
    if log == [] then []
    else match log[0]
      case Put(k, v) => Kept(open + [Write(k, v)], log[1..])
      case Keep => open + Kept([], log[1..])
      case Drop => Kept([], log[1..])
  }

  function WriteAll(c: Changeset, writes: seq<Write>): Changeset
    decreases writes
  {
    if writes == [] then c else WriteAll(c[writes[0].key := writes[0].value], writes[1..])
  }

  lemma {:induction false} WriteAllConcat(c: Changeset, a: seq<Write>, b: seq<Write>)
    ensures WriteAll(c, a + b) == WriteAll(WriteAll(c, a), b)
    decreases a
  {
    if a == [] {
      assert a + b == b;
    } else {
      assert (a + b)[1..] == a[1..] + b;
      WriteAllConcat(c[a[0].key := a[0].value], a[1..], b);
    }
  }

  lemma {:induction false} WriteAllOverlays(c: Changeset, d: Changeset, writes: seq<Write>)
    ensures WriteAll(c + d, writes) == c + WriteAll(d, writes)
    ensures WriteAll(c, writes).Keys >= c.Keys
    decreases writes
  {
    if writes == [] {
    } else {
      var w := writes[0];
      assert (c + d)[w.key := w.value] == c + d[w.key := w.value];
      WriteAllOverlays(c, d[w.key := w.value], writes[1..]);
      WriteAllOverlays(c[w.key := w.value], d, writes[1..]);
    }
  }

  /** Running a log equals writing, one by one, exactly the writes of its committed segments. */
  lemma {:induction false} SegmentsRefine(o: Layers, open: seq<Write>, log: seq<Op>)
    requires o.working == WriteAll(map[], open)
    ensures ApplyAll(o, log).changeset == WriteAll(o.changeset, Kept(open, log))
    decreases log
  {
    if log == [] {
    } else {
      var p := Apply(o, log[0]);
      match log[0]
      case Put(k, v) =>
        WriteAllConcat(map[], open, [Write(k, v)]);
        assert [Write(k, v)][1..] == [];
        SegmentsRefine(p, open + [Write(k, v)], log[1..]);
      case Keep =>
        SegmentsRefine(p, [], log[1..]);
        WriteAllOverlays(o.changeset, map[], open);
        assert o.changeset + map[] == o.changeset;
        WriteAllConcat(o.changeset, open, Kept([], log[1..]));
      case Drop =>
        SegmentsRefine(p, [], log[1..]);
    }
  }

  /** A log without a commit leaves the committed layer as it was. */
  lemma {:induction false} NoCommitNoChange(o: Layers, log: seq<Op>)
    requires forall i :: 0 <= i < |log| ==> !log[i].Keep?
    ensures ApplyAll(o, log).changeset == o.changeset
    decreases log
  {
    if log == [] {
    } else {
      assert forall i :: 0 <= i < |log[1..]| ==> log[1..][i] == log[i + 1];
      NoCommitNoChange(Apply(o, log[0]), log[1..]);
    }
  }

  /** `Memory` of `memory.rs` and `Storage` of `storage.rs`: the two have the same fields and operations and
      differ only in where `base` reads from. */
  class Store {
    const base: bytes -> bytes
    var changeset: Changeset
    var working_changeset: Changeset

    ghost function View(): Layers
      reads this
    {
      Layers(changeset, working_changeset)
    }

    constructor (base: bytes -> bytes, changeset: Changeset)
      ensures this.base == base
      ensures View() == Layers(changeset, map[])
    {
      this.base := base;
      this.changeset := changeset;
      this.working_changeset := map[];
    }

    method Get(key: bytes) returns (value: bytes)
      ensures key in changeset ==> value == changeset[key]
      ensures key !in changeset ==> value == base(key)
    {
      if key in changeset { value := changeset[key]; } else { value := base(key); }
    }

    method Set(key: bytes, value: bytes)
      modifies this`working_changeset
      ensures View() == Apply(old(View()), Put(key, value))
    {
      working_changeset := working_changeset[key := value];
    }

    method Commit()
      modifies this
      ensures View() == Apply(old(View()), Keep)
    {
      changeset := changeset + working_changeset;
      working_changeset := map[];
    }

    method Rollback()
      modifies this`working_changeset
      ensures View() == Apply(old(View()), Drop)
    {
      working_changeset := map[];
    }
  }
}
