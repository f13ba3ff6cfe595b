/** The versioned store: per key a newest-first list of block numbers, an index of positions counted from the
    oldest end, and values filed under block number and key. */
module BlockIndex {
  import opened Bytes
  import opened Overlay

  // ---- Redis lists ----

  /** LRANGE: both ends inclusive, negative positions count from the end, out-of-range ends are clamped. */
  function LRange<T>(s: seq<T>, start: int, stop: int): seq<T> {
    var first := if start < 0 then (if start + |s| < 0 then 0 else start + |s|) else start;
    var last := if stop < 0 then stop + |s| else if stop >= |s| then |s| - 1 else stop;
    if first > last || first >= |s| then [] else s[first..last + 1]
  }

  /** LTRIM keeps what LRANGE returns. */
  function LTrim<T>(s: seq<T>, start: int, stop: int): seq<T> {
    LRange(s, start, stop)
  }

  /** The trim of `revert_to`: from `-1 - position` to the end. */
  function TrimTo<T>(s: seq<T>, position: nat): seq<T> {
    var start: int := position;
    LTrim(s, -1 - start, -1)
  }

  // ---- Names in the Redis key space ----

  /** `Memory` and `Storage` keep their indexes under different prefixes of the same Redis. */
  datatype Kind = Memory | Storage

  function Prefix(kind: Kind): bytes {
    Ascii(if kind.Memory? then "memory" else "storage") + Ascii(":")
  }

  const INDEX_SUFFIX: bytes := Ascii("_index")

  function ListName(kind: Kind, key: bytes): bytes {
    Prefix(kind) + key
  }

  function IndexName(kind: Kind, key: bytes): bytes {
    Prefix(kind) + key + INDEX_SUFFIX
  }

  lemma NamesSpelled(key: bytes)
    ensures ListName(Memory, key) == Ascii("memory:") + key
    ensures ListName(Storage, key) == Ascii("storage:") + key
    ensures IndexName(Memory, key) == Ascii("memory:") + key + Ascii("_index")
    ensures IndexName(Storage, key) == Ascii("storage:") + key + Ascii("_index")
  {
    assert Prefix(Memory) == Ascii("memory:");
    assert Prefix(Storage) == Ascii("storage:");
  }

  /** One of the keys is the other followed by the suffix of index names. */
  predicate Clash(key: bytes, other: bytes) {
    key == other + INDEX_SUFFIX || other == key + INDEX_SUFFIX
  }

  /** Lists and index hashes of all keys have names of their own, except that the list of `key + "_index"` is
      named like the index of `key`; and names of memory are never names of storage. */
  lemma NamesCollideExactly(kind: Kind, key: bytes, kind': Kind, key': bytes)
    ensures ListName(kind, key) == ListName(kind', key') <==> kind == kind' && key == key'
    ensures IndexName(kind, key) == IndexName(kind', key') <==> kind == kind' && key == key'
    ensures ListName(kind, key) == IndexName(kind', key') <==> kind == kind' && key == key' + INDEX_SUFFIX
  {
    IndexIsList(kind, key);
    IndexIsList(kind', key');
    ListNamesDiffer(kind, key, kind', key');
    ListNamesDiffer(kind, key + INDEX_SUFFIX, kind', key' + INDEX_SUFFIX);
    ListNamesDiffer(kind, key, kind', key' + INDEX_SUFFIX);
    if key + INDEX_SUFFIX == key' + INDEX_SUFFIX {
      assert |key| == |key'|;
      assert key == (key + INDEX_SUFFIX)[..|key|] == (key' + INDEX_SUFFIX)[..|key'|] == key';
    }
  }

  lemma IndexIsList(kind: Kind, key: bytes)
    ensures IndexName(kind, key) == ListName(kind, key + INDEX_SUFFIX)
  {
    assert Prefix(kind) + key + INDEX_SUFFIX == Prefix(kind) + (key + INDEX_SUFFIX);
  }

  lemma ListNamesDiffer(kind: Kind, key: bytes, kind': Kind, key': bytes)
    ensures ListName(kind, key) == ListName(kind', key') <==> kind == kind' && key == key'
  {
    assert ListName(kind, key)[0] == Prefix(kind)[0] && ListName(kind', key')[0] == Prefix(kind')[0];
    if kind == kind' && ListName(kind, key) == ListName(kind', key') {
      assert key == ListName(kind, key)[|Prefix(kind)|..] == ListName(kind', key')[|Prefix(kind)|..] == key';
    }
  }

  // ---- The store, as lists, positions, keys and values of their own ----

  datatype State = State(
    lists: map<bytes, seq<u64>>,
    positions: map<bytes, map<u64, nat>>,
    keys: set<bytes>,
    values: map<bytes, bytes>)

  const EMPTY: State := State(map[], map[], {}, map[])

  function ListOf(st: State, key: bytes): seq<u64> {
    if key in st.lists then st.lists[key] else []
  }

  function PositionsOf(st: State, key: bytes): map<u64, nat> {
    if key in st.positions then st.positions[key] else map[]
  }

  /** `<<block_number::little-size(64)>> <> key`, and `u64_to_vec(block) ++ key` on the Rust side. */
  function HashKey(block: u64, key: bytes): bytes {
    LittleEndian(block, 8) + key
  }

  lemma HashKeyInjective(b: u64, k: bytes, b': u64, k': bytes)
    ensures HashKey(b, k) == HashKey(b', k') <==> b == b' && k == k'
  {
    LittleEndianRoundTrip(b, 8);
    LittleEndianRoundTrip(b', 8);
    Power256Eight();
    if HashKey(b, k) == HashKey(b', k') {
      assert HashKey(b, k)[..8] == LittleEndian(b, 8) && HashKey(b', k')[..8] == LittleEndian(b', 8);
      assert HashKey(b, k)[8..] == k && HashKey(b', k')[8..] == k';
    }
  }

  lemma Power256Eight()
    ensures Power256(8) == U64
  {}

  /** `BlockIndex.add`. */
  function Add(st: State, key: bytes, block: u64): State {
    var list := [block] + ListOf(st, key);
    st.(lists := st.lists[key := list],
        positions := st.positions[key := PositionsOf(st, key)[block := |list| - 1]])
  }

  /** `BlockIndex.get_latest`. */
  function GetLatest(st: State, key: bytes): Option<u64> {
    var newest := LRange(ListOf(st, key), 0, 0);
    if |newest| == 1 then Some(newest[0]) else None
  }

  /** `Memory.set` and `Storage.set`; the former also records the key. */
  function Set(kind: Kind, st: State, block: u64, key: bytes, value: bytes): State {
    Add(st, key, block).(values := st.values[HashKey(block, key) := value],
                         keys := if kind.Memory? then st.keys + {key} else st.keys)
  }

  /** What the Elixir readers return: an empty list for a key without a list, or the stored value, or what the
      value store returns for a missing entry. */
  datatype Got = Empty | Missing | Found(value: bytes)

  function Get(st: State, key: bytes): Got {
    match GetLatest(st, key)
    case None => Empty
    case Some(block) => if HashKey(block, key) in st.values then Found(st.values[HashKey(block, key)]) else Missing
  }

  /** The Rust readers fall back to block 0 and return no bytes for a missing entry. */
  function RustGet(st: State, key: bytes): bytes {
    var block := match GetLatest(st, key) case None => 0 case Some(b) => b;
    if HashKey(block, key) in st.values then st.values[HashKey(block, key)] else []
  }

  /** Trims one key's list by the position recorded for the block. */
  function RevertKey(st: State, key: bytes, block: u64): State
    requires block in PositionsOf(st, key)
  {
    var kept := TrimTo(ListOf(st, key), PositionsOf(st, key)[block]);
    st.(lists := st.lists[key := kept])
  }

  /** The state that an operation leaves, and whether it came to its end or crashed on the way. */
  datatype Effect = Effect(state: State, completed: bool)

  /** `BlockIndex.revert_to` over `memory_keys` in some order: a key without a position for the block crashes it,
      after the keys before it have been trimmed. */
  function RevertTo(st: State, order: seq<bytes>, block: u64): Effect
    decreases order
  {
    if order == [] then Effect(st, true)
    else if block !in PositionsOf(st, order[0]) then Effect(st, false)
    else RevertTo(RevertKey(st, order[0], block), order[1..], block)
  }

  /** `write_changeset`, for the entries in some order. */
  function WriteChangeset(kind: Kind, st: State, entries: seq<Write>, block: u64): State
    decreases entries
  {
    if entries == [] then st
    else WriteChangeset(kind, Set(kind, st, block, entries[0].key, entries[0].value), entries[1..], block)
  }

  // ---- Runs ----

  datatype StoreOp =
    | SetOp(block: u64, key: bytes, value: bytes)
    | FlushOp(block: u64, entries: seq<Write>)
    | RevertOp(block: u64, order: seq<bytes>)

  function Step(kind: Kind, st: State, op: StoreOp): Effect {
    match op
    case SetOp(b, k, v) => Effect(Set(kind, st, b, k, v), true)
    case FlushOp(b, entries) => Effect(WriteChangeset(kind, st, entries, b), true)
    case RevertOp(b, order) => RevertTo(st, order, b)
  }

  /** The state after a run, whether or not operations crashed on the way. */
  function After(kind: Kind, st: State, ops: seq<StoreOp>): State
    decreases ops
  {
    if ops == [] then st else After(kind, Step(kind, st, ops[0]).state, ops[1..])
  }

  /** No operation of the run crashes. */
  predicate Completes(kind: Kind, st: State, ops: seq<StoreOp>)
    decreases ops
  {
    ops == [] || (Step(kind, st, ops[0]).completed && Completes(kind, Step(kind, st, ops[0]).state, ops[1..]))
  }
}
