/** The versioned store against a plain stack of per-block snapshots. */
module Reorganisation {
  import opened Bytes
  import opened Overlay
  import opened BlockIndex

  // ---- The reference: a stack of snapshots, oldest first ----

  datatype Snapshot = Snapshot(block: u64, written: set<bytes>, view: map<bytes, bytes>)

  type History = seq<Snapshot>

  function TopView(h: History): map<bytes, bytes> {
    if h == [] then map[] else h[|h| - 1].view
  }

  predicate NotBefore(h: History, block: u64) {
    h == [] || h[|h| - 1].block <= block
  }

  /** Writes a changeset into the snapshot of `block`, which is pushed when it is not on top yet. */
  function Record(h: History, block: u64, changes: map<bytes, bytes>): History {
    if h != [] && h[|h| - 1].block == block then
      h[..|h| - 1] + [Snapshot(block, h[|h| - 1].written + changes.Keys, h[|h| - 1].view + changes)]
    else h + [Snapshot(block, changes.Keys, TopView(h) + changes)]
  }

  /** Pops the snapshots of all blocks after `block`. */
  function Pop(h: History, block: u64): (r: History)
    ensures r <= h
    ensures forall i :: |r| <= i < |h| ==> h[i].block > block
    ensures r != [] ==> r[|r| - 1].block <= block
  {
    if h == [] || h[|h| - 1].block <= block then h else Pop(h[..|h| - 1], block)
  }

  ghost predicate Wrote(h: History, key: bytes, block: u64) {
    exists i :: WroteAt(h, key, block, i)
  }

  predicate WroteAt(h: History, key: bytes, block: u64, i: int) {
    0 <= i < |h| && h[i].block == block && key in h[i].written
  }

  ghost predicate Known(h: History, key: bytes) {
    exists i :: 0 <= i < |h| && key in h[i].written
  }

  /** Blocks increase; a view differs from the one below it only in the keys written. */
  ghost predicate Ordered(h: History) {
    && Increasing(h)
    && (forall i :: 0 <= i < |h| ==> h[i].written <= h[i].view.Keys)
    && (forall i, k :: 0 <= i < |h| && k !in h[i].written ==> SameAt(h[i].view, ViewBefore(h, i), k))
  }

  predicate Increasing(h: History) {
    forall i, j :: 0 <= i < j < |h| ==> h[i].block < h[j].block
  }

  function ViewBefore(h: History, i: nat): map<bytes, bytes>
    requires i <= |h|
  {
    if i == 0 then map[] else h[i - 1].view
  }

  predicate SameAt(a: map<bytes, bytes>, b: map<bytes, bytes>, k: bytes) {
    (k in a <==> k in b) && (k in a ==> a[k] == b[k])
  }

  // ---- How a store represents a history ----

  predicate Sorted(list: seq<u64>) {
    forall i, j :: 0 <= i < j < |list| ==> list[i] >= list[j]
  }

  /** The recorded position of every listed block is that of its newest entry, counted from the oldest end. */
  ghost predicate PositionsRight(list: seq<u64>, positions: map<u64, nat>) {
    forall i :: NewestAt(list, i) ==> list[i] in positions && positions[list[i]] == |list| - 1 - i
  }

  /** Position `i` holds the newest entry of its block number. */
  predicate NewestAt(list: seq<u64>, i: int) {
    0 <= i < |list| && (i == 0 || list[i - 1] != list[i])
  }

  ghost predicate KeyAgrees(st: State, h: History, key: bytes) {
    && Sorted(ListOf(st, key))
    && PositionsRight(ListOf(st, key), PositionsOf(st, key))
    && (forall b: u64 :: b in ListOf(st, key) <==> Wrote(h, key, b))
    && (forall i :: 0 <= i < |h| && key in h[i].written && key in h[i].view ==>
          HashKey(h[i].block, key) in st.values && st.values[HashKey(h[i].block, key)] == h[i].view[key])
    && (forall b: u64 :: HashKey(b, key) in st.values ==> ListOf(st, key) != [])
    && (PositionsOf(st, key) != map[] ==> ListOf(st, key) != [])
  }

  ghost predicate Agrees(st: State, h: History) {
    Ordered(h) && forall key :: KeyAgrees(st, h, key)
  }

  /** For memory, the recorded keys are those of the history. */
  ghost predicate Represents(kind: Kind, st: State, h: History) {
    Agrees(st, h) && (kind.Memory? ==> forall key :: key in st.keys <==> Known(h, key))
  }

  lemma EmptyRepresents(kind: Kind)
    ensures Represents(kind, EMPTY, [])
  {}

  // ---- Reading ----

  /** The last of the first `m` snapshots that wrote the key. */
  function LastWriter(h: History, key: bytes, m: nat): Option<nat>
    requires m <= |h|
  {
    if m == 0 then None
    else if key in h[m - 1].written then Some(m - 1)
    else LastWriter(h, key, m - 1)
  }

  /** Every later view still shows what the last writer wrote; a key nobody wrote is in no view. */
  lemma {:induction false} LastWriterShows(h: History, key: bytes, m: nat)
    requires Tracks(h, key) && m <= |h|
    ensures match LastWriter(h, key, m)
            case None => key !in ViewBefore(h, m) && forall j :: 0 <= j < m ==> key !in h[j].written
            case Some(i) =>
              && i < m && key in h[i].written && key in h[i].view
              && SameAt(ViewBefore(h, m), h[i].view, key)
              && forall j :: i < j < m ==> key !in h[j].written
  {
    if m == 0 {
    } else {
      assert ViewTracks(h, key, m - 1);
      if key !in h[m - 1].written { LastWriterShows(h, key, m - 1); }
    }
  }

  /** One key through the views: present where it is written, unchanged where it is not. */
  ghost predicate Tracks(h: History, key: bytes) {
    forall i :: 0 <= i < |h| ==> ViewTracks(h, key, i)
  }

  predicate ViewTracks(h: History, key: bytes, i: nat)
    requires i < |h|
  {
    if key in h[i].written then key in h[i].view else SameAt(h[i].view, ViewBefore(h, i), key)
  }

  /** Reading the store is reading the top of the stack. */
  lemma GetIsTop(st: State, h: History, key: bytes)
    requires Agrees(st, h)
    ensures Get(st, key) == if key in TopView(h) then Found(TopView(h)[key]) else Empty
  {
    assert KeyAgrees(st, h, key);
    assert Tracks(h, key);
    LastWriterShows(h, key, |h|);
    var list := ListOf(st, key);
    match LastWriter(h, key, |h|)
    case Some(i) =>
      assert WroteAt(h, key, h[i].block, i);
      assert h[i].block in list;
      NewestIsLast(st, h, key, i);
    case None =>
      assert forall b: u64 :: !Wrote(h, key, b);
      HasMember(list);
  }

  lemma NewestIsLast(st: State, h: History, key: bytes, i: nat)
    requires Ordered(h) && KeyAgrees(st, h, key)
    requires i < |h| && key in h[i].written && forall j :: i < j < |h| ==> key !in h[j].written
    requires h[i].block in ListOf(st, key)
    ensures ListOf(st, key) != [] && ListOf(st, key)[0] == h[i].block
  {
    var list := ListOf(st, key);
    var p :| 0 <= p < |list| && list[p] == h[i].block;
    SortedAt(list, 0, p);
    assert list[0] in list;
    var j :| WroteAt(h, key, list[0], j);
    assert j <= i;
  }

  lemma SortedAt(list: seq<u64>, i: nat, j: nat)
    requires Sorted(list) && i <= j < |list|
    ensures list[i] >= list[j]
  {}

  lemma HasMember(list: seq<u64>)
    ensures list != [] ==> exists b: u64 :: b in list
  {
    assert list != [] ==> list[0] in list;
  }

  // ---- The two readers ----

  /** Every listed block has a value, and a key without a list has none. */
  ghost predicate Filed(st: State) {
    forall key :: KeyFiled(st, key)
  }

  ghost predicate KeyFiled(st: State, key: bytes) {
    forall b: u64 ::
      && (b in ListOf(st, key) ==> HashKey(b, key) in st.values)
      && (HashKey(b, key) in st.values ==> ListOf(st, key) != [])
  }

  /** The Elixir and Rust readers agree on every key, and the value store is never asked for a missing entry. */
  lemma FiledReadersAgree(st: State, key: bytes)
    requires Filed(st)
    ensures !Get(st, key).Missing?
    ensures RustGet(st, key) == if Get(st, key).Found? then Get(st, key).value else []
  {
    assert KeyFiled(st, key);
    var list := ListOf(st, key);
    if list != [] { assert list[0] in list; }
  }

  lemma AgreesIsFiled(st: State, h: History)
    requires Agrees(st, h)
    ensures Filed(st)
  {
    forall key ensures KeyFiled(st, key) {
      assert KeyAgrees(st, h, key);
      forall b: u64 | b in ListOf(st, key) ensures HashKey(b, key) in st.values {
        var i :| WroteAt(h, key, b, i);
        assert key in h[i].view;
      }
    }
  }

  lemma SetKeepsFiled(kind: Kind, st: State, block: u64, key: bytes, value: bytes)
    requires Filed(st)
    ensures Filed(Set(kind, st, block, key, value))
  {
    var st' := Set(kind, st, block, key, value);
    forall k ensures KeyFiled(st', k) {
      assert KeyFiled(st, k);
      forall b: u64 ensures HashKey(b, k) == HashKey(block, key) <==> b == block && k == key {
        HashKeyInjective(b, k, block, key);
      }
    }
  }

  lemma {:induction false} WriteKeepsFiled(kind: Kind, st: State, entries: seq<Write>, block: u64)
    requires Filed(st)
    ensures Filed(WriteChangeset(kind, st, entries, block))
    decreases entries
  {
    if entries == [] {
    } else {
      SetKeepsFiled(kind, st, block, entries[0].key, entries[0].value);
      WriteKeepsFiled(kind, Set(kind, st, block, entries[0].key, entries[0].value), entries[1..], block);
    }
  }

  lemma RevertKeyKeepsFiled(st: State, key: bytes, block: u64)
    requires Filed(st) && block in PositionsOf(st, key)
    ensures Filed(RevertKey(st, key, block))
  {
    forall k ensures KeyFiled(RevertKey(st, key, block), k) {
      assert KeyFiled(st, k);
      if k == key { TrimmedKeyFiled(st, key, block); }
    }
  }

  lemma TrimmedKeyFiled(st: State, key: bytes, block: u64)
    requires KeyFiled(st, key) && block in PositionsOf(st, key)
    ensures KeyFiled(RevertKey(st, key, block), key)
  {
    var list, kept := ListOf(st, key), ListOf(RevertKey(st, key, block), key);
    TrimIsSuffix(list, PositionsOf(st, key)[block]);
    forall b: u64 | b in kept ensures b in list {}
  }

  /** Even when it crashes half way. */
  lemma {:induction false} RevertKeepsFiled(st: State, order: seq<bytes>, block: u64)
    requires Filed(st)
    ensures Filed(RevertTo(st, order, block).state)
    decreases order
  {
    if order == [] || block !in PositionsOf(st, order[0]) {
    } else {
      RevertKeyKeepsFiled(st, order[0], block);
      RevertKeepsFiled(RevertKey(st, order[0], block), order[1..], block);
    }
  }

  // ---- Writing ----

  lemma RecordOrdered(h: History, block: u64, changes: map<bytes, bytes>)
    requires Ordered(h) && NotBefore(h, block)
    ensures Ordered(Record(h, block, changes))
  {
    var r := Record(h, block, changes);
    var n := |r| - 1;
    assert forall i :: 0 <= i < n ==> r[i] == h[i];
    forall i | 0 <= i < |r| ensures r[i].written <= r[i].view.Keys {
      if i < n { assert r[i] == h[i]; }
    }
    forall i, k | 0 <= i < |r| && k !in r[i].written ensures SameAt(r[i].view, ViewBefore(r, i), k) {
      if i < |h| { assert SameAt(h[i].view, ViewBefore(h, i), k); }
    }
  }

  lemma RecordWrote(h: History, block: u64, changes: map<bytes, bytes>, key: bytes, b: u64)
    ensures Wrote(Record(h, block, changes), key, b) <==> Wrote(h, key, b) || (b == block && key in changes)
  {
    var r := Record(h, block, changes);
    var n := |r| - 1;
    if Wrote(h, key, b) {
      var i :| WroteAt(h, key, b, i);
      assert WroteAt(r, key, b, i);
    }
    if b == block && key in changes { assert WroteAt(r, key, b, n); }
    if Wrote(r, key, b) {
      var i :| WroteAt(r, key, b, i);
      if !(b == block && key in changes) { assert WroteAt(h, key, b, i); }
    }
  }

  /** Pushing a block number keeps a list sorted and its positions right. */
  lemma PushKeepsIndex(list: seq<u64>, positions: map<u64, nat>, block: u64)
    requires Sorted(list) && PositionsRight(list, positions)
    requires list != [] ==> list[0] <= block
    ensures Sorted([block] + list)
    ensures PositionsRight([block] + list, positions[block := |list|])
  {}

  lemma SetAgrees(kind: Kind, st: State, h: History, block: u64, key: bytes, value: bytes)
    requires Agrees(st, h) && NotBefore(h, block)
    ensures Agrees(Set(kind, st, block, key, value), Record(h, block, map[key := value]))
  {
    var changes := map[key := value];
    var st', r := Set(kind, st, block, key, value), Record(h, block, changes);
    RecordOrdered(h, block, changes);
    forall k ensures KeyAgrees(st', r, k) {
      assert KeyAgrees(st, h, k);
      forall b: u64 ensures Wrote(r, k, b) <==> Wrote(h, k, b) || (b == block && k in changes) {
        RecordWrote(h, block, changes, k, b);
      }
      forall b: u64 ensures HashKey(b, k) == HashKey(block, key) <==> b == block && k == key {
        HashKeyInjective(b, k, block, key);
      }
      if k == key {
        ListNotAfter(st, h, block, key);
        PushKeepsIndex(ListOf(st, key), PositionsOf(st, key), block);
      }
      ValuesKept(kind, st, h, block, key, value, k);
    }
  }

  lemma ListNotAfter(st: State, h: History, block: u64, key: bytes)
    requires Ordered(h) && NotBefore(h, block) && KeyAgrees(st, h, key)
    ensures ListOf(st, key) != [] ==> ListOf(st, key)[0] <= block
  {
    var list := ListOf(st, key);
    if list != [] {
      assert list[0] in list;
      var i :| WroteAt(h, key, list[0], i);
      assert h[i].block <= h[|h| - 1].block;
    }
  }

  lemma ValuesKept(kind: Kind, st: State, h: History, block: u64, key: bytes, value: bytes, k: bytes)
    requires Ordered(h) && NotBefore(h, block) && KeyAgrees(st, h, k)
    ensures var st', r := Set(kind, st, block, key, value), Record(h, block, map[key := value]);
            forall i :: 0 <= i < |r| && k in r[i].written && k in r[i].view ==>
              HashKey(r[i].block, k) in st'.values && st'.values[HashKey(r[i].block, k)] == r[i].view[k]
  {
    var r := Record(h, block, map[key := value]);
    forall i | 0 <= i < |r| && k in r[i].written && k in r[i].view
      ensures HashKey(r[i].block, k) in Set(kind, st, block, key, value).values
      ensures Set(kind, st, block, key, value).values[HashKey(r[i].block, k)] == r[i].view[k]
    {
      ValueKept(kind, st, h, block, key, value, k, i);
    }
  }

  lemma ValueKept(kind: Kind, st: State, h: History, block: u64, key: bytes, value: bytes, k: bytes, i: nat)
    requires Ordered(h) && NotBefore(h, block) && KeyAgrees(st, h, k)
    requires var r := Record(h, block, map[key := value]); i < |r| && k in r[i].written && k in r[i].view
    ensures var r, values := Record(h, block, map[key := value]), Set(kind, st, block, key, value).values;
            HashKey(r[i].block, k) in values && values[HashKey(r[i].block, k)] == r[i].view[k]
  {
    var r := Record(h, block, map[key := value]);
    HashKeyInjective(r[i].block, k, block, key);
    if i < |r| - 1 {
      assert r[i] == h[i];
      assert i < |h| - 1 ==> h[i].block < h[|h| - 1].block;
    } else if k != key {
      assert |r| == |h| && k in h[i].written;
    }
  }

  lemma SetRepresents(kind: Kind, st: State, h: History, block: u64, key: bytes, value: bytes)
    requires Represents(kind, st, h) && NotBefore(h, block)
    ensures Represents(kind, Set(kind, st, block, key, value), Record(h, block, map[key := value]))
  {
    SetAgrees(kind, st, h, block, key, value);
    var s, r := Set(kind, st, block, key, value), Record(h, block, map[key := value]);
    if kind.Memory? {
      forall k ensures k in s.keys <==> Known(r, k) { RecordKnown(h, block, map[key := value], k); }
    }
  }

  lemma RecordKnown(h: History, block: u64, changes: map<bytes, bytes>, key: bytes)
    ensures Known(Record(h, block, changes), key) <==> Known(h, key) || key in changes
  {
    var r := Record(h, block, changes);
    var n := |r| - 1;
    if i :| 0 <= i < |h| && key in h[i].written { assert key in r[i].written; }
    if key in changes { assert key in r[n].written; }
    if i :| 0 <= i < |r| && key in r[i].written {
      if key !in changes { assert 0 <= i < |h| && key in h[i].written; }
    }
  }

  // ---- Flushing a changeset ----

  /** The entries list every key of the changeset once, in some order. */
  predicate Lists(entries: seq<Write>, changes: map<bytes, bytes>) {
    && (forall e :: e in entries ==> e.key in changes && changes[e.key] == e.value)
    && (forall k :: k in changes ==> exists i :: 0 <= i < |entries| && entries[i].key == k)
  }

  function Entries(entries: seq<Write>): map<bytes, bytes> {
    WriteAll(map[], entries)
  }

  lemma RecordTwice(h: History, block: u64, first: map<bytes, bytes>, second: map<bytes, bytes>)
    ensures Record(Record(h, block, first), block, second) == Record(h, block, first + second)
  {
    var r := Record(h, block, first);
    var base := if h != [] && h[|h| - 1].block == block then h[..|h| - 1] else h;
    var written := if h != [] && h[|h| - 1].block == block then h[|h| - 1].written else {};
    assert written + first.Keys ==
           if h != [] && h[|h| - 1].block == block then h[|h| - 1].written + first.Keys else first.Keys;
    assert r == base + [Snapshot(block, written + first.Keys, TopView(h) + first)];
    assert r[..|r| - 1] == base;
    assert TopView(h) + first + second == TopView(h) + (first + second);
    assert written + first.Keys + second.Keys == written + (first + second).Keys;
    assert {} + (first + second).Keys == (first + second).Keys;
  }

  /** Recording the first entry and then the others records them all. */
  lemma RecordFirst(h: History, block: u64, entries: seq<Write>)
    requires entries != []
    ensures var one := map[entries[0].key := entries[0].value];
            if |entries| == 1 then Entries(entries) == one
            else Record(Record(h, block, one), block, Entries(entries[1..])) == Record(h, block, Entries(entries))
  {
    var one, rest := map[entries[0].key := entries[0].value], entries[1..];
    assert map[][entries[0].key := entries[0].value] == one;
    assert Entries(entries) == WriteAll(one, rest);
    if |entries| > 1 {
      RecordTwice(h, block, one, Entries(rest));
      WriteAllOverlays(one, map[], rest);
      assert one + map[] == one;
    }
  }

  lemma RecordNotBefore(h: History, block: u64, changes: map<bytes, bytes>)
    ensures NotBefore(Record(h, block, changes), block)
  {}

  lemma {:induction false} FlushRepresents(kind: Kind, st: State, h: History, entries: seq<Write>, block: u64)
    requires Represents(kind, st, h) && NotBefore(h, block)
    requires entries != []
    ensures Represents(kind, WriteChangeset(kind, st, entries, block), Record(h, block, Entries(entries)))
    decreases |entries|
  {
    var one := map[entries[0].key := entries[0].value];
    var first := Set(kind, st, block, entries[0].key, entries[0].value);
    SetRepresents(kind, st, h, block, entries[0].key, entries[0].value);
    RecordFirst(h, block, entries);
    FlushFirst(kind, st, entries, block);
    if |entries| == 1 {
    } else {
      RecordNotBefore(h, block, one);
      FlushRepresents(kind, first, Record(h, block, one), entries[1..], block);
    }
  }

  lemma FlushFirst(kind: Kind, st: State, entries: seq<Write>, block: u64)
    requires entries != []
    ensures var first := Set(kind, st, block, entries[0].key, entries[0].value);
            WriteChangeset(kind, st, entries, block) ==
            if |entries| == 1 then first else WriteChangeset(kind, first, entries[1..], block)
  {}

  lemma {:induction false} EntriesOfListing(entries: seq<Write>, changes: map<bytes, bytes>)
    requires forall e :: e in entries ==> e.key in changes && changes[e.key] == e.value
    ensures forall k :: k in Entries(entries) <==> exists i :: 0 <= i < |entries| && entries[i].key == k
    ensures forall k :: k in Entries(entries) ==> k in changes && Entries(entries)[k] == changes[k]
    decreases |entries|
  {
    if entries == [] {
    } else {
      var n := |entries| - 1;
      var last := entries[n];
      assert last in entries;
      EntriesOfListing(entries[..n], changes);
      assert entries == entries[..n] + [last];
      WriteAllConcat(map[], entries[..n], [last]);
      assert [last][1..] == [];
      assert WriteAll(Entries(entries[..n]), [last]) == Entries(entries[..n])[last.key := last.value];
      forall k ensures k in Entries(entries) <==> exists i :: 0 <= i < |entries| && entries[i].key == k {
        if k in Entries(entries[..n]) {
          var i :| 0 <= i < n && entries[..n][i].key == k;
          assert entries[i].key == k;
        }
        if i :| 0 <= i < |entries| && entries[i].key == k && i < n { assert entries[..n][i].key == k; }
        assert entries[n].key == last.key;
      }
    }
  }

  lemma ListingIsChangeset(entries: seq<Write>, changes: map<bytes, bytes>)
    requires Lists(entries, changes)
    ensures Entries(entries) == changes
  {
    EntriesOfListing(entries, changes);
  }

  lemma ListingNonEmpty(entries: seq<Write>, changes: map<bytes, bytes>)
    requires changes != map[] && Lists(entries, changes)
    ensures entries != []
  {}

  /** Flushing a block's changeset once, or twice in two different orders, represents the same history. */
  lemma FlushTwiceIsOnce(kind: Kind, st: State, h: History, entries: seq<Write>, again: seq<Write>,
                         changes: map<bytes, bytes>, block: u64)
    requires Represents(kind, st, h) && NotBefore(h, block)
    requires changes != map[] && Lists(entries, changes) && Lists(again, changes)
    ensures var once := WriteChangeset(kind, st, entries, block);
            var twice := WriteChangeset(kind, once, again, block);
            var r := Record(h, block, changes);
            Represents(kind, once, r) && Represents(kind, twice, r)
  {
    ListingIsChangeset(entries, changes);
    ListingIsChangeset(again, changes);
    ListingNonEmpty(entries, changes);
    ListingNonEmpty(again, changes);
    FlushRepresents(kind, st, h, entries, block);
    RecordNotBefore(h, block, changes);
    FlushRepresents(kind, WriteChangeset(kind, st, entries, block), Record(h, block, changes), again, block);
    RecordAgain(h, block, changes);
  }

  lemma RecordAgain(h: History, block: u64, changes: map<bytes, bytes>)
    ensures Record(Record(h, block, changes), block, changes) == Record(h, block, changes)
  {
    RecordTwice(h, block, changes, changes);
    assert changes + changes == changes;
  }

  // ---- Reverting ----

  function Below(list: seq<u64>, block: u64): seq<u64> {
    if list == [] || list[0] <= block then list else Below(list[1..], block)
  }

  lemma {:induction false} BelowIsSuffix(list: seq<u64>, block: u64)
    requires Sorted(list)
    ensures |Below(list, block)| <= |list|
    ensures Below(list, block) == list[|list| - |Below(list, block)|..]
    ensures forall b: u64 :: b in Below(list, block) <==> b in list && b <= block
    ensures forall i :: 0 <= i < |list| - |Below(list, block)| ==> list[i] > block
  {
    if list == [] {
    } else {
      if list[0] <= block {
        forall b: u64 | b in list ensures b <= block {
          var i :| 0 <= i < |list| && list[i] == b;
          if i > 0 { assert list[0] >= list[i]; }
        }
      } else {
        BelowIsSuffix(list[1..], block);
        assert list == [list[0]] + list[1..];
      }
    }
  }

  /** A list is trimmed to its entries up to `block` exactly when as many entries are kept as there are such. */
  lemma TrimIsBelowExactly(list: seq<u64>, position: nat, block: u64)
    requires Sorted(list)
    ensures TrimTo(list, position) == Below(list, block) <==>
            (if position + 1 < |list| then position + 1 else |list|) == |Below(list, block)|
  {
    BelowIsSuffix(list, block);
    TrimIsSuffix(list, position);
  }

  /** Whatever position is recorded, trimming never empties a list. */
  lemma RevertNeverEmpties(st: State, key: bytes, block: u64)
    requires block in PositionsOf(st, key) && ListOf(st, key) != []
    ensures ListOf(RevertKey(st, key, block), key) != []
  {}

  /** The position recorded for `block` keeps as many entries as the key has up to `block`, and there are some. */
  predicate Revertible(st: State, key: bytes, block: u64) {
    && block in PositionsOf(st, key)
    && var list := ListOf(st, key);
       var kept := if PositionsOf(st, key)[block] + 1 < |list| then PositionsOf(st, key)[block] + 1 else |list|;
       kept == |Below(list, block)| > 0
  }

  /** A key written at a block that is still listed can be reverted to it. */
  lemma LiveIsRevertible(st: State, h: History, key: bytes, block: u64)
    requires KeyAgrees(st, h, key) && Wrote(h, key, block)
    ensures Revertible(st, key, block)
  {
    var list := ListOf(st, key);
    assert block in list;
    BelowIsSuffix(list, block);
    var p := |list| - |Below(list, block)|;
    assert block in Below(list, block);
    var q :| 0 <= q < |Below(list, block)| && Below(list, block)[q] == block;
    assert list[p + q] == block;
    assert list[p] in Below(list, block);
    if q > 0 { assert list[p] >= list[p + q]; }
    assert list[p] == block;
    assert p > 0 ==> list[p - 1] > block;
    assert NewestAt(list, p);
  }

  predicate Distinct(order: seq<bytes>) {
    forall i, j :: 0 <= i < j < |order| ==> order[i] != order[j]
  }

  /** How many keys come before the first without a position for the block. */
  function Passed(st: State, order: seq<bytes>, block: u64): (n: nat)
    ensures n <= |order|
    ensures forall i :: 0 <= i < n ==> block in PositionsOf(st, order[i])
    ensures n < |order| ==> block !in PositionsOf(st, order[n])
  {
    if order == [] || block !in PositionsOf(st, order[0]) then 0 else 1 + Passed(st, order[1..], block)
  }

  /** Everything but the lists is as before, and so are the lists of other keys than those in `done`, which are
      trimmed by the position that each has for the block. */
  ghost predicate Trimmed(st: State, st': State, done: seq<bytes>, block: u64)
    requires forall k :: k in done ==> block in PositionsOf(st, k)
  {
    && st'.positions == st.positions && st'.values == st.values && st'.keys == st.keys
    && (forall k :: k !in done ==> ListOf(st', k) == ListOf(st, k))
    && (forall k :: k in done ==> ListOf(st', k) == TrimTo(ListOf(st, k), PositionsOf(st, k)[block]))
  }

  /** A revert trims each key by itself until one has no position for the block; there it crashes, leaving the
      keys before trimmed and the others alone. */
  lemma {:induction false} RevertKeyByKey(st: State, order: seq<bytes>, block: u64)
    requires Distinct(order)
    ensures var n := Passed(st, order, block);
            && (RevertTo(st, order, block).completed <==> n == |order|)
            && Trimmed(st, RevertTo(st, order, block).state, order[..n], block)
    decreases |order|
  {
    if order == [] || block !in PositionsOf(st, order[0]) {
    } else {
      var first := RevertKey(st, order[0], block);
      PassedOther(st, first, order[1..], block);
      RevertKeyByKey(first, order[1..], block);
      var n := Passed(first, order[1..], block);
      assert order[..n + 1] == [order[0]] + order[1..][..n];
      TrimmedOneMore(st, order[0], first, RevertTo(st, order, block).state, order[1..][..n], block);
    }
  }

  lemma TrimmedOneMore(st: State, key: bytes, first: State, st': State, done: seq<bytes>, block: u64)
    requires block in PositionsOf(st, key) && key !in done && first == RevertKey(st, key, block)
    requires forall k :: k in done ==> block in PositionsOf(first, k)
    requires Trimmed(first, st', done, block)
    ensures forall k :: k in [key] + done <==> k == key || k in done
    ensures Trimmed(st, st', [key] + done, block)
  {
    forall k ensures PositionsOf(first, k) == PositionsOf(st, k) {}
  }

  lemma {:induction false} PassedOther(st: State, st': State, order: seq<bytes>, block: u64)
    requires st'.positions == st.positions
    ensures Passed(st', order, block) == Passed(st, order, block)
    decreases order
  {
    if order == [] {
    } else {
      PassedOther(st, st', order[1..], block);
    }
  }

  /** A completed revert has trimmed every listed key. */
  lemma CompletedRevert(st: State, order: seq<bytes>, block: u64)
    requires Distinct(order) && RevertTo(st, order, block).completed
    ensures forall k :: k in order ==> block in PositionsOf(st, k)
    ensures Trimmed(st, RevertTo(st, order, block).state, order, block)
  {
    RevertKeyByKey(st, order, block);
    assert order[..|order|] == order;
  }

  lemma PopWrote(h: History, key: bytes, block: u64, b: u64)
    requires Increasing(h)
    ensures Wrote(Pop(h, block), key, b) <==> Wrote(h, key, b) && b <= block
  {
    var r := Pop(h, block);
    if Wrote(r, key, b) {
      var i :| WroteAt(r, key, b, i);
      assert WroteAt(h, key, b, i);
      if i < |r| - 1 { assert h[i].block < h[|r| - 1].block; }
    }
    if Wrote(h, key, b) && b <= block {
      var i :| WroteAt(h, key, b, i);
      assert i < |r|;
      assert WroteAt(r, key, b, i);
    }
  }

  lemma PopOrdered(h: History, block: u64)
    requires Ordered(h)
    ensures Ordered(Pop(h, block))
  {}

  /** Dropping the newest entries of a list leaves the remaining positions right. */
  lemma SuffixKeepsIndex(list: seq<u64>, positions: map<u64, nat>, from: nat)
    requires Sorted(list) && PositionsRight(list, positions) && from < |list|
    requires from > 0 ==> list[from - 1] != list[from]
    ensures Sorted(list[from..]) && PositionsRight(list[from..], positions)
  {}

  /** Every listed key is revertible, and every other key has no entry above the block. */
  ghost predicate Restorable(st: State, order: seq<bytes>, block: u64) {
    && (forall k :: k in order ==> Revertible(st, k, block))
    && (forall k :: k !in order && ListOf(st, k) != [] ==> ListOf(st, k)[0] <= block)
  }

  /** For memory and for storage alike, whichever keys it goes over: a revert completes and leaves a store that
      agrees with the popped stack exactly when the store is restorable, a condition on its lists and positions. */
  lemma RevertRestoresExactly(st: State, h: History, order: seq<bytes>, block: u64)
    requires Agrees(st, h) && Distinct(order)
    ensures (RevertTo(st, order, block).completed && Agrees(RevertTo(st, order, block).state, Pop(h, block))) <==>
            Restorable(st, order, block)
  {
    if Restorable(st, order, block) {
      RevertSound(st, h, order, block);
    }
    if RevertTo(st, order, block).completed && Agrees(RevertTo(st, order, block).state, Pop(h, block)) {
      var st' := RevertTo(st, order, block).state;
      CompletedRevert(st, order, block);
      forall k | k in order ensures Revertible(st, k, block) {
        assert KeyAgrees(st, h, k) && KeyAgrees(st', Pop(h, block), k);
        RevertComplete(st, h, st', block, k);
      }
      forall k | k !in order && ListOf(st, k) != [] ensures ListOf(st, k)[0] <= block {
        assert KeyAgrees(st', Pop(h, block), k);
        assert ListOf(st, k)[0] in ListOf(st', k);
        PopWrote(h, k, block, ListOf(st, k)[0]);
      }
    }
  }

  /** Memory is reverted over exactly the keys it has recorded, so that only these need to be looked at. */
  lemma MemoryRevertRestoresExactly(st: State, h: History, order: seq<bytes>, block: u64)
    requires Represents(Memory, st, h)
    requires Distinct(order) && forall k :: k in order <==> k in st.keys
    ensures (&& RevertTo(st, order, block).completed
             && Represents(Memory, RevertTo(st, order, block).state, Pop(h, block))) <==>
            forall k :: k in order ==> Revertible(st, k, block)
    ensures Restorable(st, order, block) <==> forall k :: k in order ==> Revertible(st, k, block)
  {
    forall k | k !in order ensures ListOf(st, k) == [] {
      assert KeyAgrees(st, h, k);
      KnownIsWrote(h, k);
      HasMember(ListOf(st, k));
    }
    RevertRestoresExactly(st, h, order, block);
    if Restorable(st, order, block) {
      var st' := RevertTo(st, order, block).state;
      CompletedRevert(st, order, block);
      forall k ensures k in st'.keys <==> Known(Pop(h, block), k) {
        assert KeyAgrees(st', Pop(h, block), k);
        KnownIsWrote(Pop(h, block), k);
        HasMember(ListOf(st', k));
        if k in order { assert Revertible(st, k, block); TrimIsSuffix(ListOf(st, k), PositionsOf(st, k)[block]); }
      }
    }
  }

  lemma RevertSound(st: State, h: History, order: seq<bytes>, block: u64)
    requires Agrees(st, h) && Distinct(order) && Restorable(st, order, block)
    ensures RevertTo(st, order, block).completed
    ensures Agrees(RevertTo(st, order, block).state, Pop(h, block))
  {
    RevertKeyByKey(st, order, block);
    AllPass(st, order, block);
    CompletedRevert(st, order, block);
    var st' := RevertTo(st, order, block).state;
    PopOrdered(h, block);
    forall k ensures KeyAgrees(st', Pop(h, block), k) {
      assert KeyAgrees(st, h, k);
      if k in order {
        RevertKeySound(st, h, st', block, k);
      } else {
        UnlistedKeySound(st, h, st', block, k);
      }
    }
  }

  lemma AllPass(st: State, order: seq<bytes>, block: u64)
    requires forall k :: k in order ==> Revertible(st, k, block)
    ensures Passed(st, order, block) == |order|
  {
    assert forall i :: 0 <= i < |order| ==> order[i] in order;
  }

  lemma RevertKeySound(st: State, h: History, st': State, block: u64, k: bytes)
    requires Ordered(h) && KeyAgrees(st, h, k) && Revertible(st, k, block)
    requires st'.positions == st.positions && st'.values == st.values
    requires ListOf(st', k) == TrimTo(ListOf(st, k), PositionsOf(st, k)[block])
    ensures KeyAgrees(st', Pop(h, block), k)
  {
    var r := Pop(h, block);
    TrimKeepsIndex(ListOf(st, k), PositionsOf(st, k), PositionsOf(st, k)[block], block);
    assert PositionsOf(st', k) == PositionsOf(st, k);
    forall b: u64 ensures b in ListOf(st', k) <==> Wrote(r, k, b) { PopWrote(h, k, block, b); }
    PopValues(st, h, block, k);
  }

  /** The right trim keeps exactly the entries up to the block, sorted and with their positions. */
  lemma TrimKeepsIndex(list: seq<u64>, positions: map<u64, nat>, position: nat, block: u64)
    requires Sorted(list) && PositionsRight(list, positions)
    requires (if position + 1 < |list| then position + 1 else |list|) == |Below(list, block)| > 0
    ensures var kept := TrimTo(list, position);
            && kept != [] && Sorted(kept) && PositionsRight(kept, positions)
            && forall b: u64 :: b in kept <==> b in list && b <= block
  {
    BelowIsSuffix(list, block);
    TrimIsBelowExactly(list, position, block);
    var from := |list| - |Below(list, block)|;
    assert list[from] == Below(list, block)[0];
    assert Below(list, block)[0] in Below(list, block);
    SuffixKeepsIndex(list, positions, from);
  }

  /** A key that is left alone agrees with the popped stack if it has no entry above the block. */
  lemma UnlistedKeySound(st: State, h: History, st': State, block: u64, k: bytes)
    requires Ordered(h) && KeyAgrees(st, h, k) && (ListOf(st, k) != [] ==> ListOf(st, k)[0] <= block)
    requires st'.positions == st.positions && st'.values == st.values && ListOf(st', k) == ListOf(st, k)
    ensures KeyAgrees(st', Pop(h, block), k)
  {
    var r, list := Pop(h, block), ListOf(st, k);
    forall b: u64 ensures b in list <==> Wrote(r, k, b) {
      PopWrote(h, k, block, b);
      if b in list { MemberNotAbove(list, 0, b); }
    }
    assert PositionsOf(st', k) == PositionsOf(st, k);
    PopValues(st, h, block, k);
  }

  lemma PopValues(st: State, h: History, block: u64, k: bytes)
    requires KeyAgrees(st, h, k)
    ensures var r := Pop(h, block);
            forall i :: 0 <= i < |r| && k in r[i].written && k in r[i].view ==>
              HashKey(r[i].block, k) in st.values && st.values[HashKey(r[i].block, k)] == r[i].view[k]
  {}

  lemma KnownIsWrote(h: History, key: bytes)
    ensures Known(h, key) <==> exists b: u64 :: Wrote(h, key, b)
  {
    if i :| 0 <= i < |h| && key in h[i].written {
      assert WroteAt(h, key, h[i].block, i);
      assert Wrote(h, key, h[i].block);
    }
    if b: u64 :| Wrote(h, key, b) {
      var i :| WroteAt(h, key, b, i);
      assert key in h[i].written;
    }
  }

  lemma RevertComplete(st: State, h: History, st': State, block: u64, k: bytes)
    requires Ordered(h) && KeyAgrees(st, h, k) && KeyAgrees(st', Pop(h, block), k)
    requires st'.positions == st.positions
    requires block in PositionsOf(st, k)
    requires ListOf(st', k) == TrimTo(ListOf(st, k), PositionsOf(st, k)[block])
    ensures Revertible(st, k, block)
  {
    forall b: u64 ensures b in ListOf(st', k) <==> b in ListOf(st, k) && b <= block {
      PopWrote(h, k, block, b);
    }
    TrimIsSuffix(ListOf(st, k), PositionsOf(st, k)[block]);
    assert PositionsOf(st', k) == PositionsOf(st, k);
    SameBlocksSameLength(ListOf(st, k), ListOf(st', k), PositionsOf(st, k), block);
  }

  lemma SameBlocksSameLength(list: seq<u64>, kept: seq<u64>, positions: map<u64, nat>, block: u64)
    requires Sorted(list) && PositionsRight(list, positions) && PositionsRight(kept, positions)
    requires 0 < |kept| <= |list| && kept == list[|list| - |kept|..]
    requires forall b: u64 :: b in kept <==> b in list && b <= block
    ensures |kept| == |Below(list, block)|
  {
    BelowStarts(list, kept, block);
    NewestPosition(kept, positions, 0);
    TrimmedRight(list, kept, positions, |Below(list, block)|);
  }

  /** A suffix whose newest entry has the right position, and which together with the entries up to the block
      contains both first entries, is those entries. */
  lemma TrimmedRight(list: seq<u64>, kept: seq<u64>, positions: map<u64, nat>, n: nat)
    requires Sorted(list) && PositionsRight(list, positions)
    requires 0 < |kept| <= |list| && kept == list[|list| - |kept|..]
    requires kept[0] in positions && positions[kept[0]] == |kept| - 1
    requires 0 < n <= |list| && var p := |list| - n; NewestAt(list, p) && list[p] in kept && kept[0] in list[p..]
    ensures |kept| == n
  {
    var p, q := |list| - n, |list| - |kept|;
    assert kept[0] == list[q];
    SameNumber(list, p, q);
    SamePosition(list, positions, p, q);
  }

  lemma SameNumber(list: seq<u64>, p: nat, q: nat)
    requires Sorted(list) && p < |list| && q < |list|
    requires list[p] in list[q..] && list[q] in list[p..]
    ensures list[p] == list[q]
  {
    MemberNotAbove(list, q, list[p]);
    MemberNotAbove(list, p, list[q]);
  }

  lemma SamePosition(list: seq<u64>, positions: map<u64, nat>, p: nat, q: nat)
    requires PositionsRight(list, positions) && NewestAt(list, p)
    requires q < |list| && list[p] == list[q] && list[q] in positions && positions[list[q]] == |list| - 1 - q
    ensures p == q
  {
    NewestPosition(list, positions, p);
  }

  lemma TrimIsSuffix(list: seq<u64>, position: nat)
    ensures var kept := TrimTo(list, position);
            && |kept| == (if position + 1 < |list| then position + 1 else |list|)
            && kept == list[|list| - |kept|..]
  {}

  /** The entries up to a block start at an entry that is newest of its block, and their first is among any
      others with the same block numbers. */
  lemma BelowStarts(list: seq<u64>, kept: seq<u64>, block: u64)
    requires Sorted(list) && kept != []
    requires forall b: u64 :: b in kept <==> b in list && b <= block
    ensures 0 < |Below(list, block)| <= |list|
    ensures var p := |list| - |Below(list, block)|;
            NewestAt(list, p) && list[p] in kept && kept[0] in list[p..]
  {
    var below := Below(list, block);
    BelowIsSuffix(list, block);
    assert kept[0] in kept;
    assert kept[0] in below;
    var p := |list| - |below|;
    assert below[0] in below;
    assert below == list[p..] && below[0] == list[p];
  }

  lemma MemberNotAbove(list: seq<u64>, from: nat, b: u64)
    requires Sorted(list) && from < |list| && b in list[from..]
    ensures b <= list[from]
  {}

  lemma NewestPosition(list: seq<u64>, positions: map<u64, nat>, i: nat)
    requires PositionsRight(list, positions) && NewestAt(list, i)
    ensures list[i] in positions && positions[list[i]] == |list| - 1 - i
  {}
}
