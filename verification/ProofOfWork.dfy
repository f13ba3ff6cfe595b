/** The proof-of-work search, its verifier, and the view of a block that both hash. */
module ProofOfWork {
  import opened Bytes

  const NUMERATOR_LENGTH: nat := 8
  const DIGEST_LENGTH: nat := 32

  type Digest = d: bytes | |d| == DIGEST_LENGTH witness seq(32, _ => 0)

  /** A 256-bit hash function; nothing else is known about it. */
  type Sha = bytes -> Digest

  // ---- The two sides ----

  /** `BigUint::to_bytes_le` and `:binary.encode_unsigned(n, :little)`: as few bytes as possible, one for zero. */
  function MinimalLittleEndian(n: nat): bytes {
    if n < 256 then [n] else [n % 256] + MinimalLittleEndian(n / 256)
  }

  /** Distinct nonces are hashed as distinct byte strings. */
  lemma {:induction false} MinimalLittleEndianReads(n: nat)
    ensures FromLittleEndian(MinimalLittleEndian(n)) == n
  {
    var b := MinimalLittleEndian(n);
    if n < 256 {
      assert b[1..] == [];
    } else {
      MinimalLittleEndianReads(n / 256);
      assert b[1..] == MinimalLittleEndian(n / 256);
    }
  }

  /** The bytes are of the number, and there is no zero byte at the end that could be left out. */
  predicate IsMinimal(b: bytes, n: nat) {
    FromLittleEndian(b) == n && (b == [0] || (b != [] && b[|b| - 1] != 0))
  }

  /** They are the only such bytes. */
  lemma {:induction false} MinimalExactly(n: nat, b: bytes)
    ensures b == MinimalLittleEndian(n) <==> IsMinimal(b, n)
    decreases n, |b|
  {
    var e := MinimalLittleEndian(n);
    if n < 256 {
      assert e[1..] == [];
      if IsMinimal(b, n) {
        if b != [0] { LastCounts(b); }
        assert b == [b[0]] && b[1..] == [];
      }
    } else {
      assert e[1..] == MinimalLittleEndian(n / 256);
      MinimalExactly(n / 256, e[1..]);
      if IsMinimal(b, n) {
        var rest := b[1..];
        Digit(n, b[0], FromLittleEndian(rest));
        assert b == [b[0]] + rest && rest[|rest| - 1] == b[|b| - 1];
        MinimalExactly(n / 256, rest);
      }
    }
  }

  lemma Digit(n: nat, b: byte, rest: nat)
    requires n == b + 256 * rest
    ensures n % 256 == b && n / 256 == rest
  {}

  /** Bytes that do not end in zero are worth at least as much as their length allows. */
  lemma {:induction false} LastCounts(b: bytes)
    requires b != [] && b[|b| - 1] != 0
    ensures Power256(|b| - 1) <= FromLittleEndian(b) < Power256(|b|)
    ensures FromLittleEndian(b) >= if |b| == 1 then 1 else 256
  {
    if |b| == 1 {
      assert b[1..] == [];
    } else {
      LastCounts(b[1..]);
    }
  }

  /** One byte below 256; above that, as many as the number needs. */
  lemma MinimalLength(n: nat)
    ensures var k := |MinimalLittleEndian(n)|;
            k >= 1 && (n < 256 ==> k == 1) && (n > 0 ==> Power256(k - 1) <= n < Power256(k))
  {
    var b := MinimalLittleEndian(n);
    MinimalExactly(n, b);
    if b == [0] { assert b[1..] == []; } else { LastCounts(b); }
  }

  /** `Hashfactor.valid_nonce?`, in unbounded integers. */
  predicate ValidNonce(sha: Sha, data: bytes, nonce: nat, target: nat) {
    var digest := sha(sha(data) + MinimalLittleEndian(nonce));
    FromLittleEndian(digest[..NUMERATOR_LENGTH]) % (target + 1) == 0
  }

  /** A nonce is valid exactly when the number in the first eight digest bytes, least significant byte first, is a
      multiple of the target plus one; the digest is that of the data's digest followed by the nonce in as few bytes
      as possible. */
  lemma ValidNonceExactly(sha: Sha, data: bytes, nonce: nat, target: nat, nonceBytes: bytes, number: u64)
    requires IsMinimal(nonceBytes, nonce) && LittleEndian(number, 8) == sha(sha(data) + nonceBytes)[..8]
    ensures ValidNonce(sha, data, nonce, target) <==> Divides(target + 1, number)
  {
    MinimalExactly(nonce, nonceBytes);
    LittleEndianRoundTrip(number, 8);
    assert Power256(2) == 0x1_0000 && Power256(4) == U32 && Power256(6) == 0x1_0000_0000_0000;
    DividesExactly(target + 1, number);
  }

  predicate IsMultiple(n: nat, d: nat, q: nat) {
    n == q * d
  }

  ghost predicate Divides(d: nat, n: nat) {
    exists q: nat :: IsMultiple(n, d, q)
  }

  lemma DividesExactly(d: nat, n: nat)
    requires d > 0
    ensures n % d == 0 <==> Divides(d, n)
  {
    if n % d == 0 { assert IsMultiple(n, d, n / d); }
    if q: nat :| IsMultiple(n, d, q) { SmallMultiple(q - n / d, d, n % d); }
  }

  /** A multiple of `d` that is not negative and less than `d` is zero. */
  lemma SmallMultiple(k: int, d: nat, r: nat)
    requires d > 0 && k * d == r < d
    ensures r == 0
  {
    MultipleAtLeast(k, d);
    MultipleAtLeast(-k, d);
  }

  lemma MultipleAtLeast(k: int, d: nat)
    ensures k >= 1 ==> k * d >= d
  {
    if k >= 1 { assert (k - 1) * d >= 0; }
  }

  /** The nonces in the order the search tries them: u64, wrapping around. */
  function Candidate(start: u64, k: nat): u64 {
    (start + k) % U64
  }

  lemma NextCandidate(start: u64, k: nat)
    ensures Candidate(Candidate(start, k), 1) == Candidate(start, k + 1)
    ensures Candidate(start, 0) == start
  {
    var q := (start + k) / U64;
    assert start + k == q * U64 + (start + k) % U64;
    assert start + k + 1 == q * U64 + ((start + k) % U64 + 1);
  }

  /** `hash_with_nonce`, `first_bytes_as_u64` and `is_factor_of`: given the hash of the data, the search accepts a
      nonce exactly when the verifier does. */
  method Accepted(sha: Sha, ghost data: bytes, dataHash: bytes, nonce: u64, target: u64) returns (ok: bool)
    requires dataHash == sha(data)
    ensures ok <==> ValidNonce(sha, data, nonce, target)
  {
    var hash := sha(dataHash + MinimalLittleEndian(nonce));
    var value := FromLittleEndian(hash[..NUMERATOR_LENGTH]);
    ok := value % (target + 1) == 0;
  }

  /** `hashfactor`: starts at a random nonce below the target and stops at the first that is accepted, which is
      the least valid one at or above the start unless the search has wrapped around. The target must be positive
      (`gen_range` panics on an empty range) and `target + 1` must fit in u64. `patience` is how many nonces the
      search is given; it has no bound of its own. */
  method Hashfactor(sha: Sha, data: bytes, target: u64, start: u64, patience: nat) returns (nonce: Option<u64>)
    requires start < target && target + 1 < U64
    ensures nonce.Some? ==> ValidNonce(sha, data, nonce.value, target)
    ensures nonce.Some? && nonce.value >= start ==>
              forall lower: nat :: start <= lower < nonce.value ==> !ValidNonce(sha, data, lower, target)
    ensures nonce.Some? && nonce.value < start ==>
              && (forall lower: nat :: start <= lower < U64 ==> !ValidNonce(sha, data, lower, target))
              && (forall lower: nat :: lower < nonce.value ==> !ValidNonce(sha, data, lower, target))
    ensures nonce.None? ==> forall j: nat :: j < patience ==> !ValidNonce(sha, data, Candidate(start, j), target)
  {
    var dataHash := sha(data);
    var n: u64 := start;
    NextCandidate(start, 0);
    for k := 0 to patience
      invariant n == Candidate(start, k)
      invariant AllRejected(sha, data, target, start, k)
    {
      var accepted := Accepted(sha, data, dataHash, n, target);
      if accepted {
        if n >= start {
          forall lower: nat | start <= lower < n ensures !ValidNonce(sha, data, lower, target) {
            RejectedUpTo(sha, data, target, start, k, lower);
          }
        } else {
          forall lower: nat | start <= lower < U64 || lower < n ensures !ValidNonce(sha, data, lower, target) {
            RejectedUpTo(sha, data, target, start, k, lower);
          }
        }
        return Some(n);
      }
      NextCandidate(start, k);
      n := Candidate(n, 1);
    }
    nonce := None;
  }

  ghost predicate AllRejected(sha: Sha, data: bytes, target: u64, start: u64, k: nat) {
    forall j: nat :: j < k ==> !ValidNonce(sha, data, Candidate(start, j), target)
  }

  /** Before it comes to its `k`-th candidate the search has tried every nonce between its start and that candidate;
      if the candidate is below the start, all from the start on and all below the candidate. */
  lemma RejectedUpTo(sha: Sha, data: bytes, target: u64, start: u64, k: nat, lower: u64)
    requires AllRejected(sha, data, target, start, k)
    requires if Candidate(start, k) >= start then start <= lower < Candidate(start, k)
             else lower >= start || lower < Candidate(start, k)
    ensures !ValidNonce(sha, data, lower, target)
  {
    var j: nat := if lower >= start then lower - start else lower + U64 - start;
    Laps(start, k, Candidate(start, k));
    Laps(start, j, lower);
    assert !ValidNonce(sha, data, Candidate(start, j), target);
  }

  /** A candidate is reached after its distance from the start, going upwards and around, or whole laps later. */
  lemma Laps(start: u64, k: nat, candidate: u64)
    ensures Candidate(start, k) == candidate ==>
              k >= if candidate >= start then candidate - start else candidate + U64 - start
    ensures (k == if candidate >= start then candidate - start else candidate + U64 - start) ==>
              Candidate(start, k) == candidate
  {
    var q := (start + k) / U64;
    assert start + k == q * U64 + Candidate(start, k);
  }

  // ---- The hashed view (`block_view.ex`, `transaction_view.ex`) ----

  type Record = map<string, bytes>

  /** A block with its own fields, its transactions if loaded, and its parent's hash if the parent is loaded. */
  datatype Block = Block(fields: Record, transactions: Option<seq<Record>>, parentHash: Option<bytes>)

  const BLOCK_SCHEMA: set<string> :=
    {"hash", "number", "total_burned", "winner", "memory_changeset_hash", "storage_changeset_hash",
     "proof_of_work_value"}
  const TRANSACTION_SCHEMA: set<string> :=
    {"id", "hash", "block_hash", "contract_address", "function", "arguments", "sender", "nonce", "gas_limit",
     "return_code", "return_value", "signature"}
  const TRANSACTION_VIEW_DROPS: set<string> := {"block_hash", "signature", "id"}
  const PRE_POW_DROPS: set<string> := {"proof_of_work_value", "parent_hash", "parent", "hash", "total_burned"}
  const TRANSACTION_PRE_POW_DROPS: set<string> := {"block_hash", "hash", "signature", "id"}

  datatype View = View(fields: Record, transactions: seq<Record>)

  function Take(r: Record, keys: set<string>): Record {
    map k | k in r && k in keys :: r[k]
  }

  function TransactionAsMap(t: Record): Record {
    Take(t, TRANSACTION_SCHEMA) - TRANSACTION_VIEW_DROPS
  }

  function Each(ts: seq<Record>, f: Record -> Record): (r: seq<Record>)
    ensures |r| == |ts| && forall i :: 0 <= i < |ts| ==> r[i] == f(ts[i])
  {
    seq(|ts|, i requires 0 <= i < |ts| => f(ts[i]))
  }

  function AsMap(b: Block): View {
    var taken := Take(b.fields, BLOCK_SCHEMA);
    View(if b.parentHash.Some? then taken["parent_hash" := b.parentHash.value] else taken,
         if b.transactions.Some? then Each(b.transactions.value, TransactionAsMap) else [])
  }

  function AsMapPrePow(b: Block): View {
    var v := AsMap(b);
    View(v.fields - PRE_POW_DROPS, Each(v.transactions, (t: Record) => t - TRANSACTION_PRE_POW_DROPS))
  }

  /** The fields that the hash covers. */
  const HASHED: set<string> := {"number", "winner", "memory_changeset_hash", "storage_changeset_hash"}
  const TRANSACTION_HASHED: set<string> :=
    {"contract_address", "function", "arguments", "sender", "nonce", "gas_limit", "return_code", "return_value"}

  function TransactionsOf(b: Block): seq<Record> {
    if b.transactions.Some? then b.transactions.value else []
  }

  predicate SameHashed(b: Block, c: Block) {
    && Take(b.fields, HASHED) == Take(c.fields, HASHED)
    && |TransactionsOf(b)| == |TransactionsOf(c)|
    && forall i :: 0 <= i < |TransactionsOf(b)| ==>
         Take(TransactionsOf(b)[i], TRANSACTION_HASHED) == Take(TransactionsOf(c)[i], TRANSACTION_HASHED)
  }

  lemma PrePowIsHashedFields(b: Block)
    ensures AsMapPrePow(b).fields == Take(b.fields, HASHED)
    ensures |AsMapPrePow(b).transactions| == |TransactionsOf(b)|
    ensures forall i :: 0 <= i < |TransactionsOf(b)| ==>
              AsMapPrePow(b).transactions[i] == Take(TransactionsOf(b)[i], TRANSACTION_HASHED)
  {}

  /** The hashed views of two blocks agree exactly when the blocks agree on the hashed fields: setting the hash, the
      parent, the proof value, the burned total, or a transaction's hash, block or signature changes nothing. */
  lemma HashedViewExactly(b: Block, c: Block)
    ensures AsMapPrePow(b) == AsMapPrePow(c) <==> SameHashed(b, c)
  {
    PrePowIsHashedFields(b);
    PrePowIsHashedFields(c);
    if SameHashed(b, c) { assert AsMapPrePow(b).transactions == AsMapPrePow(c).transactions; }
  }

  /** `valid_proof_of_work_value?` of a block whose proof value is `nonce`. */
  predicate ValidProof(sha: Sha, encode: View -> bytes, b: Block, nonce: nat, target: nat) {
    ValidNonce(sha, encode(AsMapPrePow(b)), nonce, target)
  }

  /** Mining: the search runs on the block as it was built. Whatever is filled in afterwards outside the hashed
      fields, the block passes the validation of its proof. */
  method Mine(sha: Sha, encode: View -> bytes, b: Block, target: u64, start: u64, patience: nat)
    returns (nonce: Option<u64>)
    requires start < target && target + 1 < U64
    ensures nonce.Some? ==> forall c :: SameHashed(b, c) ==> ValidProof(sha, encode, c, nonce.value, target)
  {
    nonce := Hashfactor(sha, encode(AsMapPrePow(b)), target, start, patience);
    if nonce.Some? {
      forall c | SameHashed(b, c) ensures ValidProof(sha, encode, c, nonce.value, target) {
        HashedViewExactly(b, c);
      }
    }
  }
}
