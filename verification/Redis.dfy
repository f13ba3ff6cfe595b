/** The store as it lies in Redis, where lists, index hashes, the key set and the values share one space of names. */
module Redis {
  import opened Bytes
  import opened Overlay
  import opened BlockIndex
  import opened Reorganisation
  import opened Chain

  // ---- Redis and RocksDB ----

  /** What a name holds. Commands of one type fail on names that hold another. */
  datatype Entry =
    | Blocks(list: seq<u64>)
    | Positions(positions: map<u64, nat>)
    | Members(members: set<bytes>)
    | Values(values: map<bytes, bytes>)

  datatype Db = Db(names: map<bytes, Entry>, rocks: map<bytes, bytes>)

  const EMPTY_DB: Db := Db(map[], map[])

  const VALUES: bytes := Ascii("memory")
  const KEYS: bytes := Ascii("memory_keys")

  function LPush(db: Db, name: bytes, block: u64): Option<Db> {
    if name !in db.names then Some(db.(names := db.names[name := Blocks([block])]))
    else if db.names[name].Blocks? then Some(db.(names := db.names[name := Blocks([block] + db.names[name].list)]))
    else None
  }

  function ListAt(db: Db, name: bytes): Option<seq<u64>> {
    if name !in db.names then Some([])
    else if db.names[name].Blocks? then Some(db.names[name].list)
    else None
  }

  function HSet(db: Db, name: bytes, block: u64, position: nat): Option<Db> {
    if name !in db.names then Some(db.(names := db.names[name := Positions(map[block := position])]))
    else if db.names[name].Positions? then
      Some(db.(names := db.names[name := Positions(db.names[name].positions[block := position])]))
    else None
  }

  function PositionsAt(db: Db, name: bytes): Option<map<u64, nat>> {
    if name !in db.names then Some(map[])
    else if db.names[name].Positions? then Some(db.names[name].positions)
    else None
  }

  function MembersAt(db: Db): Option<set<bytes>> {
    if KEYS !in db.names then Some({})
    else if db.names[KEYS].Members? then Some(db.names[KEYS].members)
    else None
  }

  function ValuesAt(db: Db): Option<map<bytes, bytes>> {
    if VALUES !in db.names then Some(map[])
    else if db.names[VALUES].Values? then Some(db.names[VALUES].values)
    else None
  }

  /** `Redis.push` and `Redis.set_hash_value` do not look at the reply. */
  function Quiet(db: Db, reply: Option<Db>): Db {
    if reply.Some? then reply.value else db
  }

  // ---- The store's operations; the other commands crash on an error ----

  /** The database that an operation leaves, and whether it came to its end. */
  datatype Done = Done(db: Db, completed: bool)

  /** `BlockIndex.add`. */
  function AddIndex(db: Db, kind: Kind, key: bytes, block: u64): Done {
    var pushed := Quiet(db, LPush(db, ListName(kind, key), block));
    match ListAt(pushed, ListName(kind, key))
    case None => Done(pushed, false)
    case Some(list) =>
      var position := if list == [] then 0 else |list| - 1;
      Done(Quiet(pushed, HSet(pushed, IndexName(kind, key), block, position)), true)
  }

  /** SADD to the keys and HSET of the value for memory, a put into RocksDB for storage. */
  function PutValue(db: Db, kind: Kind, block: u64, key: bytes, value: bytes): Done {
    match kind
    case Storage => Done(db.(rocks := db.rocks[HashKey(block, key) := value]), true)
    case Memory =>
      (match MembersAt(db)
       case None => Done(db, false)
       case Some(members) =>
         var added := db.(names := db.names[KEYS := Members(members + {key})]);
         match ValuesAt(added)
         case None => Done(added, true)
         case Some(values) =>
           Done(added.(names := added.names[VALUES := Values(values[HashKey(block, key) := value])]), true))
  }

  function SetIn(db: Db, kind: Kind, block: u64, key: bytes, value: bytes): Done {
    var added := AddIndex(db, kind, key, block);
    if added.completed then PutValue(added.db, kind, block, key, value) else added
  }

  function FlushIn(db: Db, kind: Kind, entries: seq<Write>, block: u64): Done
    decreases entries
  {
    if entries == [] then Done(db, true)
    else
      var first := SetIn(db, kind, block, entries[0].key, entries[0].value);
      if first.completed then FlushIn(first.db, kind, entries[1..], block) else first
  }

  /** One round of `revert_to`: a missing position is not a number, and a name of the wrong type is an error. */
  function RevertKeyIn(db: Db, kind: Kind, key: bytes, block: u64): Done {
    match PositionsAt(db, IndexName(kind, key))
    case None => Done(db, false)
    case Some(positions) =>
      if block !in positions then Done(db, false)
      else match ListAt(db, ListName(kind, key))
        case None => Done(db, false)
        case Some(list) => Done(KeepIn(db, ListName(kind, key), TrimTo(list, positions[block])), true)
  }

  /** LTRIM leaves no empty list behind. */
  function KeepIn(db: Db, name: bytes, list: seq<u64>): Db {
    if list == [] then db.(names := db.names - {name}) else db.(names := db.names[name := Blocks(list)])
  }

  function RevertIn(db: Db, kind: Kind, order: seq<bytes>, block: u64): Done
    decreases order
  {
    if order == [] then Done(db, true)
    else
      var first := RevertKeyIn(db, kind, order[0], block);
      if first.completed then RevertIn(first.db, kind, order[1..], block) else first
  }

  function ValueIn(db: Db, kind: Kind, block: u64, key: bytes): Option<Got> {
    match if kind.Memory? then ValuesAt(db) else Some(db.rocks)
    case None => None
    case Some(values) =>
      Some(if HashKey(block, key) in values then Found(values[HashKey(block, key)]) else Missing)
  }

  /** The Elixir readers; nothing when they crash. */
  function ReadIn(db: Db, kind: Kind, key: bytes): Option<Got> {
    match ListAt(db, ListName(kind, key))
    case None => None
    case Some(list) =>
      var newest := LRange(list, 0, 0);
      if |newest| == 1 then ValueIn(db, kind, newest[0], key) else Some(Empty)
  }

  /** The Rust readers; nothing when they panic. */
  function RustReadIn(db: Db, kind: Kind, key: bytes): Option<bytes> {
    match ListAt(db, ListName(kind, key))
    case None => None
    case Some(list) =>
      var newest := LRange(list, 0, 0);
      match ValueIn(db, kind, if |newest| == 1 then newest[0] else 0, key)
      case None => None
      case Some(got) => Some(if got.Found? then got.value else [])
  }

  // ---- When the database shows a state ----

  predicate Used(st: State, key: bytes) {
    ListOf(st, key) != []
  }

  /** The key is named like the index of a used one. */
  ghost predicate UsedIndex(st: State, key: bytes) {
    exists k :: Used(st, k) && key == k + INDEX_SUFFIX
  }

  predicate HasEntry(db: Db, name: bytes, e: Entry) {
    name in db.names && db.names[name] == e
  }

  predicate KeyShown(db: Db, kind: Kind, st: State, key: bytes) {
    if Used(st, key) then
      && HasEntry(db, ListName(kind, key), Blocks(ListOf(st, key)))
      && HasEntry(db, IndexName(kind, key), Positions(PositionsOf(st, key)))
    else PositionsOf(st, key) == map[]
  }

  ghost predicate NameUsed(kind: Kind, st: State, db: Db, key: bytes) {
    ListName(kind, key) in db.names ==> Used(st, key) || UsedIndex(st, key)
  }

  predicate ValuesShown(db: Db, kind: Kind, st: State) {
    match kind
    case Memory => MembersAt(db) == Some(st.keys) && ValuesAt(db) == Some(st.values)
    case Storage => db.rocks == st.values
  }

  /** The database holds the lists, positions, keys and values of the state, and no other names of its kind. */
  ghost predicate Shows(db: Db, kind: Kind, st: State) {
    && (forall key :: KeyShown(db, kind, st, key))
    && (forall key :: NameUsed(kind, st, db, key))
    && ValuesShown(db, kind, st)
  }

  lemma EmptyShows(kind: Kind)
    ensures Shows(EMPTY_DB, kind, EMPTY)
  {}

  /** `key` or a used key is the other one followed by the suffix of index names. */
  ghost predicate Clashes(st: State, key: bytes) {
    exists k :: Used(st, k) && Clash(k, key)
  }

  lemma OtherNames(kind: Kind, key: bytes)
    ensures ListName(kind, key) != KEYS && ListName(kind, key) != VALUES
    ensures IndexName(kind, key) != KEYS && IndexName(kind, key) != VALUES
    ensures KEYS != VALUES
  {
    var colon := Ascii(":")[0];
    assert |VALUES| == 6 && |KEYS| == 11 && KEYS[6] == '_' as int % 256;
    assert kind.Memory? ==> ListName(kind, key)[6] == colon && IndexName(kind, key)[6] == colon;
    assert kind.Storage? ==> ListName(kind, key)[0] != KEYS[0] && IndexName(kind, key)[0] != KEYS[0];
    assert KEYS[0] == VALUES[0];
  }

  // ---- Setting ----

  /** Without a clash the list and the index of the key are there, or their names are free. */
  lemma NamesAreFree(db: Db, kind: Kind, st: State, key: bytes)
    requires Shows(db, kind, st) && !Clashes(st, key)
    ensures ListAt(db, ListName(kind, key)) == Some(ListOf(st, key))
    ensures PositionsAt(db, IndexName(kind, key)) == Some(PositionsOf(st, key))
    ensures ListName(kind, key) != IndexName(kind, key)
  {
    NamesCollideExactly(kind, key, kind, key);
    assert KeyShown(db, kind, st, key) && NameUsed(kind, st, db, key);
    UsedIndexClashes(st, key);
    IndexIsList(kind, key);
    assert NameUsed(kind, st, db, key + INDEX_SUFFIX);
    UsedIndexOfSuffixed(st, key);
    assert Clash(key + INDEX_SUFFIX, key);
  }

  lemma UsedIndexClashes(st: State, key: bytes)
    ensures UsedIndex(st, key) ==> Clashes(st, key)
  {
    if UsedIndex(st, key) {
      var k :| Used(st, k) && key == k + INDEX_SUFFIX;
      assert Clash(k, key);
    }
  }

  lemma UsedIndexOfSuffixed(st: State, key: bytes)
    ensures UsedIndex(st, key + INDEX_SUFFIX) ==> Used(st, key)
  {
    if UsedIndex(st, key + INDEX_SUFFIX) {
      var k :| Used(st, k) && key + INDEX_SUFFIX == k + INDEX_SUFFIX;
      assert key == (key + INDEX_SUFFIX)[..|key|] == (k + INDEX_SUFFIX)[..|k|] == k;
    }
  }

  lemma AddIndexAdds(db: Db, kind: Kind, st: State, key: bytes, block: u64)
    requires Shows(db, kind, st) && !Clashes(st, key)
    ensures var d, st' := AddIndex(db, kind, key, block), Add(st, key, block);
            && d.completed
            && d.db.names == db.names[ListName(kind, key) := Blocks(ListOf(st', key))]
                                     [IndexName(kind, key) := Positions(PositionsOf(st', key))]
            && d.db.rocks == db.rocks
  {
    NamesAreFree(db, kind, st, key);
    var list := [block] + ListOf(st, key);
    var pushed := Quiet(db, LPush(db, ListName(kind, key), block));
    assert ListOf(st, key) == [] ==> [block] + ListOf(st, key) == [block];
    assert KeyShown(db, kind, st, key);
    assert pushed.names == db.names[ListName(kind, key) := Blocks(list)];
    assert map[][block := |list| - 1] == map[block := |list| - 1];
  }

  lemma SetShows(db: Db, kind: Kind, st: State, block: u64, key: bytes, value: bytes)
    requires Shows(db, kind, st) && !Clashes(st, key)
    ensures var d := SetIn(db, kind, block, key, value);
            d.completed && Shows(d.db, kind, Set(kind, st, block, key, value))
  {
    var d, st' := SetIn(db, kind, block, key, value), Set(kind, st, block, key, value);
    AddIndexAdds(db, kind, st, key, block);
    var added := AddIndex(db, kind, key, block).db;
    OtherNames(kind, key);
    assert ValuesShown(added, kind, st);
    forall k ensures KeyShown(d.db, kind, st', k) && NameUsed(kind, st', d.db, k) {
      OtherNames(kind, k);
      assert ListName(kind, k) in d.db.names <==> ListName(kind, k) in added.names;
      KeyStaysShown(db, kind, st, key, block, added, k);
      assert ListOf(st', k) == ListOf(Add(st, key, block), k);
      assert PositionsOf(st', k) == PositionsOf(Add(st, key, block), k);
      UsedStays(Add(st, key, block), st', k);
    }
  }

  lemma UsedStays(st: State, st': State, k: bytes)
    requires st.lists == st'.lists
    ensures Used(st, k) <==> Used(st', k)
    ensures UsedIndex(st, k) <==> UsedIndex(st', k)
  {
    if UsedIndex(st, k) {
      var u :| Used(st, u) && k == u + INDEX_SUFFIX;
      assert Used(st', u);
    }
    if UsedIndex(st', k) {
      var u :| Used(st', u) && k == u + INDEX_SUFFIX;
      assert Used(st, u);
    }
  }

  lemma KeyStaysShown(db: Db, kind: Kind, st: State, key: bytes, block: u64, added: Db, k: bytes)
    requires Shows(db, kind, st) && !Clashes(st, key)
    requires added.names == db.names[ListName(kind, key) := Blocks(ListOf(Add(st, key, block), key))]
                                    [IndexName(kind, key) := Positions(PositionsOf(Add(st, key, block), key))]
    ensures KeyShown(added, kind, Add(st, key, block), k) && NameUsed(kind, Add(st, key, block), added, k)
  {
    var st' := Add(st, key, block);
    NamesCollideExactly(kind, key, kind, key);
    NamesCollideExactly(kind, k, kind, key);
    NamesCollideExactly(kind, key, kind, k);
    assert KeyShown(db, kind, st, k) && NameUsed(kind, st, db, k);
    assert Used(st', key);
    if k != key {
      assert Used(st, k) ==> !Clash(k, key);
      assert Used(st', k) <==> Used(st, k);
      if ListName(kind, k) in db.names && !Used(st, k) {
        var u :| Used(st, u) && k == u + INDEX_SUFFIX;
        assert Used(st', u);
      }
    }
  }

  /** On a clash the set crashes, or the key gets no positions. */
  lemma ClashBreaksSet(db: Db, kind: Kind, st: State, block: u64, key: bytes, value: bytes)
    requires Shows(db, kind, st) && Clashes(st, key)
    ensures var d := SetIn(db, kind, block, key, value);
            !d.completed || PositionsAt(d.db, IndexName(kind, key)).None?
  {
    var k :| Used(st, k) && Clash(k, key);
    assert KeyShown(db, kind, st, k);
    NamesCollideExactly(kind, key, kind, k);
    NamesCollideExactly(kind, k, kind, key);
    NamesCollideExactly(kind, key, kind, key);
    OtherNames(kind, key);
  }

  /** A set does to the database what it does to the state exactly when its key clashes with no key in use. */
  lemma SetShowsExactly(db: Db, kind: Kind, st: State, block: u64, key: bytes, value: bytes)
    requires Shows(db, kind, st)
    ensures var d := SetIn(db, kind, block, key, value);
            (d.completed && Shows(d.db, kind, Set(kind, st, block, key, value))) <==> !Clashes(st, key)
  {
    if Clashes(st, key) {
      ClashBreaksSet(db, kind, st, block, key, value);
      assert Used(Set(kind, st, block, key, value), key);
      assert Shows(SetIn(db, kind, block, key, value).db, kind, Set(kind, st, block, key, value)) ==>
        KeyShown(SetIn(db, kind, block, key, value).db, kind, Set(kind, st, block, key, value), key);
    } else {
      SetShows(db, kind, st, block, key, value);
    }
  }

  // ---- Reading ----

  /** Both readers return what the state says exactly when the key is not named like the index of a used one;
      otherwise they crash. */
  lemma ReadShowsExactly(db: Db, kind: Kind, st: State, key: bytes)
    requires Shows(db, kind, st)
    ensures ReadIn(db, kind, key) == Some(Get(st, key)) <==> !UsedIndex(st, key)
    ensures RustReadIn(db, kind, key) == Some(RustGet(st, key)) <==> !UsedIndex(st, key)
    ensures UsedIndex(st, key) ==> ReadIn(db, kind, key) == None && RustReadIn(db, kind, key) == None
  {
    assert KeyShown(db, kind, st, key) && NameUsed(kind, st, db, key);
    if UsedIndex(st, key) {
      var k :| Used(st, k) && key == k + INDEX_SUFFIX;
      assert KeyShown(db, kind, st, k);
      NamesCollideExactly(kind, key, kind, k);
    } else {
      assert ListAt(db, ListName(kind, key)) == Some(ListOf(st, key));
    }
  }

  // ---- Reverting ----

  /** One round of a revert does to the database what it does to the state, crashes included. */
  lemma RevertKeyShows(db: Db, kind: Kind, st: State, key: bytes, block: u64)
    requires Shows(db, kind, st)
    ensures RevertKeyIn(db, kind, key, block).completed <==> block in PositionsOf(st, key)
    ensures !RevertKeyIn(db, kind, key, block).completed ==> RevertKeyIn(db, kind, key, block).db == db
    ensures block in PositionsOf(st, key) ==>
              Shows(RevertKeyIn(db, kind, key, block).db, kind, RevertKey(st, key, block))
  {
    assert KeyShown(db, kind, st, key);
    if Used(st, key) {
      if block in PositionsOf(st, key) { TrimShows(db, kind, st, key, block); }
    } else {
      IndexIsList(kind, key);
      assert NameUsed(kind, st, db, key + INDEX_SUFFIX);
      assert KeyShown(db, kind, st, key + INDEX_SUFFIX);
      UsedIndexOfSuffixed(st, key);
    }
  }

  lemma TrimShows(db: Db, kind: Kind, st: State, key: bytes, block: u64)
    requires Shows(db, kind, st) && Used(st, key) && block in PositionsOf(st, key)
    ensures RevertKeyIn(db, kind, key, block).completed
    ensures Shows(RevertKeyIn(db, kind, key, block).db, kind, RevertKey(st, key, block))
  {
    var kept, st' := TrimTo(ListOf(st, key), PositionsOf(st, key)[block]), RevertKey(st, key, block);
    var db' := RevertKeyIn(db, kind, key, block).db;
    assert KeyShown(db, kind, st, key);
    TrimIsSuffix(ListOf(st, key), PositionsOf(st, key)[block]);
    assert db' == db.(names := db.names[ListName(kind, key) := Blocks(kept)]);
    OtherNames(kind, key);
    forall k ensures KeyShown(db', kind, st', k) && NameUsed(kind, st', db', k) {
      assert KeyShown(db, kind, st, k) && NameUsed(kind, st, db, k);
      NamesCollideExactly(kind, k, kind, key);
      assert Used(st', k) <==> Used(st, k);
      if UsedIndex(st, k) {
        var u :| Used(st, u) && k == u + INDEX_SUFFIX;
        assert Used(st', u);
      }
    }
  }

  lemma {:induction false} RevertShows(db: Db, kind: Kind, st: State, order: seq<bytes>, block: u64)
    requires Shows(db, kind, st)
    ensures var d, e := RevertIn(db, kind, order, block), RevertTo(st, order, block);
            (d.completed <==> e.completed) && Shows(d.db, kind, e.state)
    decreases order
  {
    if order == [] {
    } else {
      RevertKeyShows(db, kind, st, order[0], block);
      if block in PositionsOf(st, order[0]) {
        RevertShows(RevertKeyIn(db, kind, order[0], block).db, kind, RevertKey(st, order[0], block), order[1..], block);
      }
    }
  }

  // ---- Runs ----

  function StepIn(db: Db, kind: Kind, op: StoreOp): Done {
    match op
    case SetOp(b, k, v) => SetIn(db, kind, b, k, v)
    case FlushOp(b, entries) => FlushIn(db, kind, entries, b)
    case RevertOp(b, order) => RevertIn(db, kind, order, b)
  }

  function AfterIn(db: Db, kind: Kind, ops: seq<StoreOp>): Db
    decreases ops
  {
    if ops == [] then db else AfterIn(StepIn(db, kind, ops[0]).db, kind, ops[1..])
  }

  predicate CompletesIn(db: Db, kind: Kind, ops: seq<StoreOp>)
    decreases ops
  {
    ops == [] || (StepIn(db, kind, ops[0]).completed && CompletesIn(StepIn(db, kind, ops[0]).db, kind, ops[1..]))
  }

  /** No key is another one followed by the suffix of index names. */
  predicate Apart(keys: set<bytes>) {
    forall k, k' :: k in keys && k' in keys ==> !Clash(k, k')
  }

  ghost predicate UsesOnly(st: State, keys: set<bytes>) {
    forall k :: Used(st, k) ==> k in keys
  }

  predicate SetsOnly(op: StoreOp, keys: set<bytes>) {
    match op
    case SetOp(_, k, _) => k in keys
    case FlushOp(_, entries) => forall e :: e in entries ==> e.key in keys
    case RevertOp(_, _) => true
  }

  lemma SetUsesOnly(kind: Kind, st: State, block: u64, key: bytes, value: bytes, keys: set<bytes>)
    requires UsesOnly(st, keys) && key in keys && Apart(keys)
    ensures UsesOnly(Set(kind, st, block, key, value), keys) && !Clashes(st, key)
  {
    var st' := Set(kind, st, block, key, value);
    forall k | Used(st', k) ensures k in keys { assert k == key || Used(st, k); }
  }

  lemma {:induction false} FlushRefines(db: Db, kind: Kind, st: State, entries: seq<Write>, block: u64,
                                        keys: set<bytes>)
    requires Shows(db, kind, st) && UsesOnly(st, keys) && Apart(keys)
    requires forall e :: e in entries ==> e.key in keys
    ensures var d, st' := FlushIn(db, kind, entries, block), WriteChangeset(kind, st, entries, block);
            d.completed && Shows(d.db, kind, st') && UsesOnly(st', keys)
    decreases entries
  {
    if entries == [] {
    } else {
      var e := entries[0];
      assert e in entries;
      SetUsesOnly(kind, st, block, e.key, e.value, keys);
      SetShows(db, kind, st, block, e.key, e.value);
      FlushRefines(SetIn(db, kind, block, e.key, e.value).db, kind, Set(kind, st, block, e.key, e.value),
                   entries[1..], block, keys);
    }
  }

  lemma {:induction false} RevertUsesOnly(st: State, order: seq<bytes>, block: u64, keys: set<bytes>)
    requires UsesOnly(st, keys)
    ensures UsesOnly(RevertTo(st, order, block).state, keys)
    decreases order
  {
    if order == [] || block !in PositionsOf(st, order[0]) {
    } else {
      var first := RevertKey(st, order[0], block);
      forall k | Used(first, k) ensures k in keys {
        if k == order[0] { TrimIsSuffix(ListOf(st, k), PositionsOf(st, k)[block]); }
        assert Used(st, k);
      }
      RevertUsesOnly(first, order[1..], block, keys);
    }
  }

  lemma StepInRefines(db: Db, kind: Kind, st: State, op: StoreOp, keys: set<bytes>)
    requires Shows(db, kind, st) && UsesOnly(st, keys) && Apart(keys) && SetsOnly(op, keys)
    ensures StepIn(db, kind, op).completed <==> Step(kind, st, op).completed
    ensures Shows(StepIn(db, kind, op).db, kind, Step(kind, st, op).state)
    ensures UsesOnly(Step(kind, st, op).state, keys)
  {
    match op
    case SetOp(b, k, v) =>
      SetUsesOnly(kind, st, b, k, v, keys);
      SetShows(db, kind, st, b, k, v);
    case FlushOp(b, entries) => FlushRefines(db, kind, st, entries, b, keys);
    case RevertOp(b, order) =>
      RevertShows(db, kind, st, order, b);
      RevertUsesOnly(st, order, b, keys);
  }

  /** As long as the keys set are apart, the database goes through any run as the state does, crashes included. */
  lemma {:induction false} RunRefines(db: Db, kind: Kind, st: State, ops: seq<StoreOp>, keys: set<bytes>)
    requires Shows(db, kind, st) && UsesOnly(st, keys) && Apart(keys)
    requires forall op :: op in ops ==> SetsOnly(op, keys)
    ensures CompletesIn(db, kind, ops) <==> Completes(kind, st, ops)
    ensures Shows(AfterIn(db, kind, ops), kind, After(kind, st, ops))
    ensures UsesOnly(After(kind, st, ops), keys)
    decreases ops
  {
    if ops == [] {
    } else {
      assert ops[0] in ops;
      StepInRefines(db, kind, st, ops[0], keys);
      RunRefines(StepIn(db, kind, ops[0]).db, kind, Step(kind, st, ops[0]).state, ops[1..], keys);
    }
  }

  /** The program's own store over any run from empty that sets keys which are apart and reverts within the
      condition: nothing crashes, and both readers see every such key as on top of a plain stack of snapshots. */
  lemma DatabaseIsSnapshotStack(kind: Kind, ops: seq<StoreOp>, keys: set<bytes>, key: bytes)
    requires AllFit(kind, EMPTY, [], ops)
    requires Apart(keys) && key in keys && forall op :: op in ops ==> SetsOnly(op, keys)
    ensures var db, top := AfterIn(EMPTY_DB, kind, ops), TopView(StackRun([], ops));
            && CompletesIn(EMPTY_DB, kind, ops)
            && ReadIn(db, kind, key) == Some(if key in top then Found(top[key]) else Empty)
            && RustReadIn(db, kind, key) == Some(if key in top then top[key] else [])
  {
    EmptyShows(kind);
    EmptyRepresents(kind);
    RunRefines(EMPTY_DB, kind, EMPTY, ops, keys);
    StoreIsSnapshotStack(kind, EMPTY, [], ops);
    ApartIsNoIndex(After(kind, EMPTY, ops), keys, key);
    ReadShowsExactly(AfterIn(EMPTY_DB, kind, ops), kind, After(kind, EMPTY, ops), key);
  }

  lemma ApartIsNoIndex(st: State, keys: set<bytes>, key: bytes)
    requires UsesOnly(st, keys) && Apart(keys) && key in keys
    ensures !UsedIndex(st, key)
  {
    if UsedIndex(st, key) {
      var k :| Used(st, k) && key == k + INDEX_SUFFIX;
      assert Clash(k, key);
    }
  }

  /** And over any run at all with such keys, whatever its block numbers and reverts, the two readers agree. */
  lemma DatabaseReadersAgree(kind: Kind, ops: seq<StoreOp>, keys: set<bytes>, key: bytes)
    requires Apart(keys) && key in keys && forall op :: op in ops ==> SetsOnly(op, keys)
    ensures var db := AfterIn(EMPTY_DB, kind, ops);
            && ReadIn(db, kind, key).Some? && !ReadIn(db, kind, key).value.Missing?
            && RustReadIn(db, kind, key) ==
               Some(if ReadIn(db, kind, key).value.Found? then ReadIn(db, kind, key).value.value else [])
  {
    EmptyShows(kind);
    RunRefines(EMPTY_DB, kind, EMPTY, ops, keys);
    ReadersAgree(kind, ops, key);
    ApartIsNoIndex(After(kind, EMPTY, ops), keys, key);
    ReadShowsExactly(AfterIn(EMPTY_DB, kind, ops), kind, After(kind, EMPTY, ops), key);
  }

  // ---- Keys that are not apart ----

  /** A key whose index has the wrong type makes every revert over it crash. */
  lemma {:induction false} RevertCrashesOnWrongType(db: Db, kind: Kind, order: seq<bytes>, key: bytes, block: u64)
    requires HasEntry(db, IndexName(kind, key), Blocks([block]))
    requires key in order
    ensures !RevertIn(db, kind, order, block).completed
    decreases order
  {
    if order[0] == key {
    } else {
      var first := RevertKeyIn(db, kind, order[0], block);
      if first.completed {
        OneBlockStays(db, kind, order[0], IndexName(kind, key), block);
        RevertCrashesOnWrongType(first.db, kind, order[1..], key, block);
      }
    }
  }

  lemma OneBlockStays(db: Db, kind: Kind, key: bytes, name: bytes, block: u64)
    requires HasEntry(db, name, Blocks([block])) && RevertKeyIn(db, kind, key, block).completed
    ensures HasEntry(RevertKeyIn(db, kind, key, block).db, name, Blocks([block]))
  {
    if name == ListName(kind, key) { OneKept(block, PositionsAt(db, IndexName(kind, key)).value[block]); }
  }

  lemma OneKept(block: u64, position: nat)
    ensures TrimTo([block], position) == [block]
  {
    TrimIsSuffix([block], position);
  }

  /** Setting `key + "_index"` and then `key` at one block goes through, but no revert over the latter does, even
      to that block; in the other order the second set crashes. */
  lemma IndexNamedKeyBreaks(kind: Kind, key: bytes, value: bytes, block: u64, order: seq<bytes>)
    requires key in order
    ensures var first := SetIn(EMPTY_DB, kind, block, key + INDEX_SUFFIX, value);
            var second := SetIn(first.db, kind, block, key, value);
            first.completed && second.completed && !RevertIn(second.db, kind, order, block).completed
    ensures var first := SetIn(EMPTY_DB, kind, block, key, value);
            first.completed && !SetIn(first.db, kind, block, key + INDEX_SUFFIX, value).completed
  {
    SuffixedFirst(kind, key, value, block);
    SuffixedSecond(kind, key, value, block);
    var first := SetIn(EMPTY_DB, kind, block, key + INDEX_SUFFIX, value);
    RevertCrashesOnWrongType(SetIn(first.db, kind, block, key, value).db, kind, order, key, block);
  }

  lemma SetFirst(kind: Kind, key: bytes, value: bytes, block: u64)
    ensures var d := SetIn(EMPTY_DB, kind, block, key, value);
            d.completed && Shows(d.db, kind, Set(kind, EMPTY, block, key, value))
    ensures ListOf(Set(kind, EMPTY, block, key, value), key) == [block]
  {
    EmptyShows(kind);
    SetShows(EMPTY_DB, kind, EMPTY, block, key, value);
  }

  lemma SuffixedFirst(kind: Kind, key: bytes, value: bytes, block: u64)
    ensures var first := SetIn(EMPTY_DB, kind, block, key + INDEX_SUFFIX, value);
            var second := SetIn(first.db, kind, block, key, value);
            first.completed && second.completed && HasEntry(second.db, IndexName(kind, key), Blocks([block]))
  {
    var other := key + INDEX_SUFFIX;
    SetFirst(kind, other, value, block);
    var st, db := Set(kind, EMPTY, block, other, value), SetIn(EMPTY_DB, kind, block, other, value).db;
    assert KeyShown(db, kind, st, other) && NameUsed(kind, st, db, key);
    NamesCollideExactly(kind, key, kind, key);
    NamesCollideExactly(kind, key, kind, other);
    NamesCollideExactly(kind, other, kind, key);
    OtherNames(kind, key);
    assert ListName(kind, key) !in db.names;
  }

  lemma SuffixedSecond(kind: Kind, key: bytes, value: bytes, block: u64)
    ensures var first := SetIn(EMPTY_DB, kind, block, key, value);
            first.completed && !SetIn(first.db, kind, block, key + INDEX_SUFFIX, value).completed
  {
    SetFirst(kind, key, value, block);
    assert KeyShown(SetIn(EMPTY_DB, kind, block, key, value).db, kind, Set(kind, EMPTY, block, key, value), key);
    NamesCollideExactly(kind, key + INDEX_SUFFIX, kind, key);
  }

  // ---- Memory and storage side by side ----

  ghost predicate SameNames(db: Db, db': Db, kind: Kind) {
    forall key :: SameName(db, db', ListName(kind, key))
  }

  predicate SameName(db: Db, db': Db, name: bytes) {
    (name in db.names <==> name in db'.names) && (name in db.names ==> db.names[name] == db'.names[name])
  }

  lemma SameNamesShow(db: Db, db': Db, kind: Kind, st: State)
    requires Shows(db, kind, st) && SameNames(db, db', kind) && ValuesShown(db', kind, st)
    ensures Shows(db', kind, st)
  {
    forall k ensures KeyShown(db', kind, st, k) && NameUsed(kind, st, db', k) {
      assert KeyShown(db, kind, st, k) && NameUsed(kind, st, db, k);
      IndexIsList(kind, k);
      assert SameName(db, db', ListName(kind, k)) && SameName(db, db', ListName(kind, k + INDEX_SUFFIX));
    }
  }

  lemma SetKeepsOther(db: Db, kind: Kind, block: u64, key: bytes, value: bytes, other: Kind, st: State)
    requires kind != other && Shows(db, other, st)
    ensures Shows(SetIn(db, kind, block, key, value).db, other, st)
  {
    var db' := SetIn(db, kind, block, key, value).db;
    OtherNames(kind, key);
    forall k ensures SameName(db, db', ListName(other, k)) {
      OtherNames(other, k);
      NamesCollideExactly(other, k, kind, key);
    }
    SameNamesShow(db, db', other, st);
  }

  lemma RevertKeyKeepsOther(db: Db, kind: Kind, key: bytes, block: u64, other: Kind, st: State)
    requires kind != other && Shows(db, other, st)
    ensures Shows(RevertKeyIn(db, kind, key, block).db, other, st)
  {
    var db' := RevertKeyIn(db, kind, key, block).db;
    OtherNames(kind, key);
    forall k ensures SameName(db, db', ListName(other, k)) { NamesCollideExactly(other, k, kind, key); }
    SameNamesShow(db, db', other, st);
  }

  lemma {:induction false} FlushKeepsOther(db: Db, kind: Kind, entries: seq<Write>, block: u64, other: Kind, st: State)
    requires kind != other && Shows(db, other, st)
    ensures Shows(FlushIn(db, kind, entries, block).db, other, st)
    decreases entries
  {
    if entries == [] {
    } else {
      SetKeepsOther(db, kind, block, entries[0].key, entries[0].value, other, st);
      var first := SetIn(db, kind, block, entries[0].key, entries[0].value);
      if first.completed { FlushKeepsOther(first.db, kind, entries[1..], block, other, st); }
    }
  }

  lemma {:induction false} RevertKeepsOther(db: Db, kind: Kind, order: seq<bytes>, block: u64, other: Kind, st: State)
    requires kind != other && Shows(db, other, st)
    ensures Shows(RevertIn(db, kind, order, block).db, other, st)
    decreases order
  {
    if order == [] {
    } else {
      RevertKeyKeepsOther(db, kind, order[0], block, other, st);
      var first := RevertKeyIn(db, kind, order[0], block);
      if first.completed { RevertKeepsOther(first.db, kind, order[1..], block, other, st); }
    }
  }

  /** Whatever is done to memory, crashes and clashes included, leaves storage as it was, and the other way round. */
  lemma StepKeepsOther(db: Db, kind: Kind, op: StoreOp, other: Kind, st: State)
    requires kind != other && Shows(db, other, st)
    ensures Shows(StepIn(db, kind, op).db, other, st)
  {
    match op
    case SetOp(b, k, v) => SetKeepsOther(db, kind, b, k, v, other, st);
    case FlushOp(b, entries) => FlushKeepsOther(db, kind, entries, b, other, st);
    case RevertOp(b, order) => RevertKeepsOther(db, kind, order, b, other, st);
  }

  // ---- The operations as the program performs them ----

  class Database {
    var names: map<bytes, Entry>
    var rocks: map<bytes, bytes>

    ghost function View(): Db
      reads this
    {
      Db(names, rocks)
    }

    constructor ()
      ensures View() == EMPTY_DB
    {
      names, rocks := map[], map[];
    }

    method Push(name: bytes, block: u64)
      modifies this`names
      ensures View() == Quiet(old(View()), LPush(old(View()), name, block))
    {
      if name !in names {
        names := names[name := Blocks([block])];
      } else if names[name].Blocks? {
        names := names[name := Blocks([block] + names[name].list)];
      }
    }

    method SetPosition(name: bytes, block: u64, position: nat)
      modifies this`names
      ensures View() == Quiet(old(View()), HSet(old(View()), name, block, position))
    {
      if name !in names {
        names := names[name := Positions(map[block := position])];
      } else if names[name].Positions? {
        names := names[name := Positions(names[name].positions[block := position])];
      }
    }

    /** `Redis.list_range` over the whole list, and by its length `Redis.length`. */
    method Range(name: bytes) returns (list: Option<seq<u64>>)
      ensures list == ListAt(View(), name)
    {
      if name !in names { return Some([]); }
      if !names[name].Blocks? { return None; }
      list := Some(names[name].list);
    }

    method Position(name: bytes, block: u64) returns (position: Option<nat>)
      ensures var all := PositionsAt(View(), name);
              position == if all.Some? && block in all.value then Some(all.value[block]) else None
    {
      if name !in names || !names[name].Positions? { return None; }
      position := if block in names[name].positions then Some(names[name].positions[block]) else None;
    }

    method IndexAdd(kind: Kind, key: bytes, block: u64) returns (ok: bool)
      modifies this`names
      ensures Done(View(), ok) == AddIndex(old(View()), kind, key, block)
    {
      Push(ListName(kind, key), block);
      var list := Range(ListName(kind, key));
      if list.None? { return false; }
      SetPosition(IndexName(kind, key), block, if list.value == [] then 0 else |list.value| - 1);
      ok := true;
    }

    method SetValue(kind: Kind, block: u64, key: bytes, value: bytes) returns (ok: bool)
      modifies this
      ensures Done(View(), ok) == SetIn(old(View()), kind, block, key, value)
    {
      ok := IndexAdd(kind, key, block);
      if ok { ok := PutEntry(kind, block, key, value); }
    }

    method PutEntry(kind: Kind, block: u64, key: bytes, value: bytes) returns (ok: bool)
      modifies this
      ensures Done(View(), ok) == PutValue(old(View()), kind, block, key, value)
    {
      var at := HashKey(block, key);
      if kind.Storage? {
        rocks := rocks[at := value];
        return true;
      }
      assert {} + {key} == {key} && map[][at := value] == map[at := value];
      if KEYS !in names {
        names := names[KEYS := Members({key})];
      } else if names[KEYS].Members? {
        names := names[KEYS := Members(names[KEYS].members + {key})];
      } else {
        return false;
      }
      if VALUES !in names {
        names := names[VALUES := Values(map[at := value])];
      } else if names[VALUES].Values? {
        names := names[VALUES := Values(names[VALUES].values[at := value])];
      }
      ok := true;
    }

    method GetValue(kind: Kind, key: bytes) returns (got: Option<Got>)
      ensures got == ReadIn(View(), kind, key)
    {
      var list := Range(ListName(kind, key));
      if list.None? { return None; }
      var newest := LRange(list.value, 0, 0);
      if |newest| != 1 { return Some(Empty); }
      var at := HashKey(newest[0], key);
      if kind.Storage? { return Some(if at in rocks then Found(rocks[at]) else Missing); }
      if VALUES !in names { return Some(Missing); }
      if !names[VALUES].Values? { return None; }
      got := Some(if at in names[VALUES].values then Found(names[VALUES].values[at]) else Missing);
    }

    method WriteAllEntries(kind: Kind, entries: seq<Write>, block: u64) returns (ok: bool)
      modifies this
      ensures Done(View(), ok) == FlushIn(old(View()), kind, entries, block)
    {
      for i := 0 to |entries|
        invariant FlushIn(old(View()), kind, entries, block) == FlushIn(View(), kind, entries[i..], block)
      {
        assert entries[i..][1..] == entries[i + 1..];
        ok := SetValue(kind, block, entries[i].key, entries[i].value);
        if !ok { return; }
      }
      ok := true;
    }

    /** Reverts the keys in the order Redis lists them, up to the one on which it crashes. */
    method Revert(kind: Kind, order: seq<bytes>, block: u64) returns (ok: bool)
      modifies this`names
      ensures Done(View(), ok) == RevertIn(old(View()), kind, order, block)
    {
      for i := 0 to |order|
        invariant RevertIn(old(View()), kind, order, block) == RevertIn(View(), kind, order[i..], block)
      {
        assert order[i..][1..] == order[i + 1..];
        ok := RevertOne(kind, order[i], block);
        if !ok { return; }
      }
      ok := true;
    }

    method RevertOne(kind: Kind, key: bytes, block: u64) returns (ok: bool)
      modifies this`names
      ensures Done(View(), ok) == RevertKeyIn(old(View()), kind, key, block)
    {
      var position := Position(IndexName(kind, key), block);
      if position.None? { return false; }
      var name := ListName(kind, key);
      var list := Range(name);
      if list.None? { return false; }
      var kept := TrimTo(list.value, position.value);
      if kept == [] { names := names - {name}; } else { names := names[name := Blocks(kept)]; }
      ok := true;
    }
  }
}
