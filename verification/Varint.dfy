/** Base 128 varints as the generated protobuf code writes and reads them. */
module Varint {
  import opened Bytes
  import opened Words

  function Power128(k: nat): nat {
    if k == 0 then 1 else 128 * Power128(k - 1)
  }

  lemma Power128Values()
    ensures Power128(1) == 128
    ensures Power128(9) == I64
    ensures Power128(10) > U64
  {}

  lemma {:induction false} Power128Grows(j: nat, k: nat)
    requires j <= k
    ensures 0 < Power128(j) <= Power128(k)
  {
    if k == 0 {
    } else if j < k {
      Power128Grows(j, k - 1);
    } else {
      Power128Grows(j - 1, j - 1);
    }
  }

  // ---- The encoding, independently of how it is read or written ----

  const MAX_VARINT: nat := 10

  /** One to ten bytes of which exactly the last has its high bit clear. */
  predicate IsVarint(s: bytes) {
    && 0 < |s| <= MAX_VARINT
    && s[|s| - 1] < 128
    && forall i :: 0 <= i < |s| - 1 ==> s[i] >= 128
  }

  /** The little-endian base 128 value of the low seven bits. */
  function Raw(s: bytes): nat {
    if s == [] then 0 else s[0] % 128 + 128 * Raw(s[1..])
  }

  /** What the bytes stand for in 64 bits. */
  function Value(s: bytes): u64 {
    Raw(s) % U64
  }

  lemma {:induction false} RawSnoc(s: bytes, b: byte)
    ensures Raw(s + [b]) == Raw(s) + b % 128 * Power128(|s|)
  {
    if s == [] {
      assert s + [b] == [b];
      assert [b][1..] == [];
    } else {
      assert (s + [b])[1..] == s[1..] + [b];
      RawSnoc(s[1..], b);
      var x := b % 128;
      assert 128 * (x * Power128(|s| - 1)) == x * Power128(|s|);
    }
  }

  lemma {:induction false} RawBound(s: bytes)
    ensures Raw(s) < Power128(|s|)
  {
    if s == [] {
    } else {
      RawBound(s[1..]);
    }
  }

  function Encode(v: nat): (s: bytes)
    ensures s != []
  {
    if v < 128 then [v] else [128 + v % 128] + Encode(v / 128)
  }

  /** `sovEllipticoin`. */
  function Sov(v: nat): nat {
    if v < 128 then 1 else 1 + Sov(v / 128)
  }

  lemma {:induction false} EncodeShape(v: nat)
    ensures |Encode(v)| == Sov(v)
    ensures Raw(Encode(v)) == v
    ensures Encode(v)[|Encode(v)| - 1] < 128
    ensures forall i :: 0 <= i < |Encode(v)| - 1 ==> Encode(v)[i] >= 128
  {
    if v < 128 {
      assert [v][1..] == [];
    } else {
      var e, r := Encode(v), Encode(v / 128);
      EncodeShape(v / 128);
      assert e[1..] == r;
      forall i | 0 <= i < |e| - 1 ensures e[i] >= 128 {
        if i > 0 { assert e[i] == r[i - 1]; }
      }
    }
  }

  lemma {:induction false} SovBound(v: nat, k: nat)
    requires k > 0
    ensures Sov(v) <= k <==> v < Power128(k)
  {
    if k == 1 {
      assert Power128(1) == 128;
      assert v >= 128 ==> Sov(v / 128) >= 1;
    } else if v >= 128 {
      SovBound(v / 128, k - 1);
    } else {
      Power128Grows(1, k);
    }
  }

  /** Every uint64 is encoded as a varint of `Sov` bytes, between one and ten, that stands for it. */
  lemma EncodeIsVarint(v: u64)
    ensures IsVarint(Encode(v)) && Value(Encode(v)) == v && |Encode(v)| == Sov(v)
  {
    EncodeShape(v);
    Power128Values();
    SovBound(v, 10);
  }

  /** No varint of the same value is shorter. */
  lemma NoVarintIsShorter(v: u64, s: bytes)
    requires IsVarint(s) && Value(s) == v
    ensures |s| >= Sov(v)
  {
    RawBound(s);
    SovBound(v, |s|);
    if |s| < 10 {
      Power128Grows(|s|, 9);
      Power128Values();
    } else {
      EncodeIsVarint(v);
    }
  }

  // ---- Reading ----

  datatype ReadResult = Read(value: u64, next: nat) | Overflow | UnexpectedEof

  /** The shift, in bits, at which the loop gives up. */
  const MAX_SHIFT: nat := 64

  /** The decoding loop from its `k`-th round on: shift `7 * k`, with the bits read so far in `wire`. The loop's or
      is a sum in every round it can come to (see `RoundIsSum`). */
  function ReadFrom(data: bytes, i: nat, k: nat, wire: nat): ReadResult
    decreases MAX_SHIFT - 7 * k
  {
    if 7 * k >= MAX_SHIFT then Overflow
    else if i >= |data| then UnexpectedEof
    else
      var b := data[i];
      var sum := (wire + b % 128 * Power128(k)) % U64;
      if b < 128 then Read(sum, i + 1) else ReadFrom(data, i + 1, k + 1, sum)
  }

  function ReadVarint(data: bytes, i: nat): ReadResult {
    ReadFrom(data, i, 0, 0)
  }

  // ---- The loop's shift and or ----

  /** `wire |= uint64(b & 0x7F) << shift`. */
  function Accumulate(wire: u64, b: byte, shift: nat): u64 {
    Or(wire, ShiftLeft(b % 128, shift))
  }

  lemma {:induction false} PowersAgree(k: nat)
    ensures Power2(7 * k) == Power128(k)
  {
    if k == 0 {
    } else {
      PowersAgree(k - 1);
      SevenMore(7 * (k - 1));
    }
  }

  lemma SevenMore(s: nat)
    ensures Power2(s + 7) == 128 * Power2(s)
  {
    assert Power2(s + 1) == 2 * Power2(s) && Power2(s + 2) == 2 * Power2(s + 1);
    assert Power2(s + 3) == 2 * Power2(s + 2) && Power2(s + 4) == 2 * Power2(s + 3);
    assert Power2(s + 5) == 2 * Power2(s + 4) && Power2(s + 6) == 2 * Power2(s + 5);
  }

  /** In each of the ten rounds what has been read lies below the shift, so that the or adds. */
  lemma RoundIsSum(wire: u64, b: byte, k: nat)
    requires k < MAX_VARINT && wire < Power128(k)
    ensures Accumulate(wire, b, 7 * k) == (wire + b % 128 * Power128(k)) % U64
  {
    PowersAgree(k);
    Power128Values();
    var x: nat := b % 128;
    if k < 9 {
      Power128Grows(k + 1, 9);
      WholeSeptet(wire, x, 7 * k, Power128(k));
    } else {
      TopSeptet(wire, x);
    }
  }

  /** And the sum lies below the next shift. */
  lemma RoundStaysBelow(wire: u64, b: byte, k: nat)
    requires k < MAX_VARINT && wire < Power128(k)
    ensures (wire + b % 128 * Power128(k)) % U64 < Power128(k + 1)
  {
    SeptetBelow(b % 128, Power128(k));
    ModAtMost(wire + b % 128 * Power128(k));
  }

  lemma ModAtMost(n: nat)
    ensures n % U64 <= n
  {}

  lemma WholeSeptet(wire: u64, x: nat, s: nat, p: nat)
    requires x < 128 && wire < p && p == Power2(s) && 128 * p <= I64
    ensures Or(wire, ShiftLeft(x, s)) == (wire + x * p) % U64
  {
    var shifted := x * p;
    SeptetBelow(x, p);
    OrIsSum(wire, x, s);
    OrIsWord(wire, ShiftLeft(x, s), shifted);
  }

  lemma SeptetBelow(x: nat, p: nat)
    requires x < 128
    ensures x * p + p <= 128 * p
  {
    assert (127 - x) * p >= 0;
  }

  /** A sum that fits in a word is the or, if it is the or of unbounded numbers. */
  lemma OrIsWord(wire: u64, y: u64, shifted: nat)
    requires wire + shifted < U64 && y == shifted % U64 && BitOr(wire, shifted) == wire + shifted
    ensures Or(wire, y) == (wire + shifted) % U64
  {
    assert y == shifted;
  }

  lemma TopSeptet(wire: u64, x: nat)
    requires wire < I64
    ensures Or(wire, ShiftLeft(x, 63)) == (wire + x * I64) % U64
  {
    assert Power2(64) == 2 * Power2(63);
    PowerOfWord();
    TopBitOnly(x);
    OrIsSum(wire, x % 2, 63);
    SumWithTopBit(wire, x);
    OrIsWord(wire, ShiftLeft(x, 63), x % 2 * I64);
  }

  /** Shifted by 63, only the lowest bit stays in the word. */
  lemma TopBitOnly(x: nat)
    ensures x * I64 % U64 == x % 2 * I64
  {
    assert x * I64 == x / 2 * U64 + x % 2 * I64;
  }

  lemma SumWithTopBit(wire: u64, x: nat)
    requires wire < I64
    ensures (wire + x * I64) % U64 == wire + x % 2 * I64
  {
    assert wire + x * I64 == x / 2 * U64 + (wire + x % 2 * I64);
  }

  /** The end of the varint that starts at `i`: one past its first byte below 128, looked for in `k` bytes. */
  function End(data: bytes, i: nat, k: nat): Option<nat>
    decreases k
  {
    if k == 0 || i >= |data| then None
    else if data[i] < 128 then Some(i + 1)
    else End(data, i + 1, k - 1)
  }

  lemma {:induction false} EndExactly(data: bytes, i: nat, k: nat, n: nat)
    ensures End(data, i, k) == Some(n) <==>
            i < n <= |data| && n - i <= k && data[n - 1] < 128 && forall j :: i <= j < n - 1 ==> data[j] >= 128
    decreases k
  {
    if k == 0 || i >= |data| || data[i] < 128 {
    } else {
      EndExactly(data, i + 1, k - 1, n);
    }
  }

  lemma EndIsVarint(data: bytes, i: nat, n: nat)
    ensures End(data, i, MAX_VARINT) == Some(n) <==> i < n <= |data| && IsVarint(data[i..n])
  {
    EndExactly(data, i, MAX_VARINT, n);
    if i < n <= |data| {
      var s := data[i..n];
      assert s[|s| - 1] == data[n - 1];
      if forall j :: 0 <= j < |s| - 1 ==> s[j] >= 128 {
        forall j | i <= j < n - 1 ensures data[j] >= 128 { assert s[j - i] == data[j]; }
      }
    }
  }

  /** One round of the loop adds the next seven bits to the value of the bytes read. */
  lemma RoundAdds(wire: nat, b: byte, done: bytes)
    requires wire == Value(done)
    ensures (wire + b % 128 * Power128(|done|)) % U64 == Value(done + [b])
  {
    RawSnoc(done, b);
    AddsModulo(wire, Raw(done), b % 128 * Power128(|done|), Raw(done + [b]));
  }

  lemma AddsModulo(wire: nat, raw: nat, x: nat, sum: nat)
    requires wire == raw % U64 && sum == raw + x
    ensures (wire + x) % U64 == sum % U64
  {
    var q := raw / U64;
    assert raw == q * U64 + wire;
    assert raw + x == q * U64 + (wire + x);
  }

  /** The loop stops at the end of the varint, with the bits of its bytes added to what it started from. */
  lemma {:induction false} ReadFromStops(data: bytes, i: nat, k: nat, wire: nat, done: bytes)
    requires |done| == k && k <= MAX_VARINT && wire == Value(done)
    ensures match End(data, i, MAX_VARINT - k)
            case None => !ReadFrom(data, i, k, wire).Read?
            case Some(n) => i < n <= |data| && ReadFrom(data, i, k, wire) == Read(Value(done + data[i..n]), n)
    decreases MAX_VARINT - k
  {
    if k == MAX_VARINT || i >= |data| {
    } else {
      var b := data[i];
      RoundAdds(wire, b, done);
      var sum := (wire + b % 128 * Power128(k)) % U64;
      assert data[i..i + 1] == [b];
      if b >= 128 {
        ReadFromStops(data, i + 1, k + 1, sum, done + [b]);
        match End(data, i + 1, MAX_VARINT - (k + 1))
        case None =>
        case Some(n) => assert done + data[i..n] == done + [b] + data[i + 1..n];
      }
    }
  }

  /** The decode loop yields `(v, n)` exactly when the bytes from `i` to `n` are a varint of value `v`. */
  lemma ReadVarintExactly(data: bytes, i: nat, v: u64, n: nat)
    ensures ReadVarint(data, i) == Read(v, n) <==>
            i < n <= |data| && IsVarint(data[i..n]) && v == Value(data[i..n])
  {
    ReadFromStops(data, i, 0, 0, []);
    EndIsVarint(data, i, n);
    match End(data, i, MAX_VARINT)
    case None =>
    case Some(m) =>
      EndIsVarint(data, i, m);
      assert [] + data[i..m] == data[i..m];
  }

  /** All bytes from `i` to `n` have their high bit set. */
  predicate GoesOn(data: bytes, i: nat, n: nat) {
    n <= |data| && forall j :: i <= j < n ==> data[j] >= 128
  }

  /** When there is no varint to be read: either ten bytes go on, or the input ends before one does not. */
  lemma ReadFailsExactly(data: bytes, i: nat)
    ensures ReadVarint(data, i) == Overflow <==> GoesOn(data, i, i + 10)
    ensures ReadVarint(data, i) == UnexpectedEof <==> i + 10 > |data| && GoesOn(data, i, |data|)
  {
    ReadFromFails(data, i, 0, 0);
  }

  lemma {:induction false} ReadFromFails(data: bytes, i: nat, k: nat, wire: nat)
    requires k <= MAX_VARINT && (k > 0 ==> i <= |data|)
    ensures ReadFrom(data, i, k, wire) == Overflow <==> GoesOn(data, i, i + 10 - k)
    ensures ReadFrom(data, i, k, wire) == UnexpectedEof <==> i + 10 - k > |data| && GoesOn(data, i, |data|)
    decreases MAX_VARINT - k
  {
    if k == MAX_VARINT || i >= |data| || data[i] < 128 {
    } else {
      var sum := (wire + data[i] % 128 * Power128(k)) % U64;
      ReadFromFails(data, i + 1, k + 1, sum);
      assert forall n :: i < n ==> (GoesOn(data, i, n) <==> GoesOn(data, i + 1, n));
    }
  }

  /** Whatever surrounds it, a varint is read back. */
  lemma ReadInContext(before: bytes, s: bytes, after: bytes)
    requires IsVarint(s)
    ensures ReadVarint(before + s + after, |before|) == Read(Value(s), |before| + |s|)
  {
    var data := before + s + after;
    assert data[|before|..|before| + |s|] == s;
    ReadVarintExactly(data, |before|, Value(s), |before| + |s|);
  }

  lemma EncodedReadsBack(before: bytes, v: u64, after: bytes)
    ensures ReadVarint(before + Encode(v) + after, |before|) == Read(v, |before| + Sov(v))
  {
    EncodeIsVarint(v);
    ReadInContext(before, Encode(v), after);
  }

  // ---- The loops of the source ----

  method SovMethod(v: u64) returns (n: nat)
    ensures n == Sov(v)
  {
    n := 0;
    var x := v;
    while true
      invariant 0 <= x && n + Sov(x) == Sov(v)
      decreases x
    {
      n := n + 1;
      if x < 128 { break; }
      x := x / 128;
    }
  }

  /** `encodeVarintEllipticoin`: writes in place from `offset` and returns the position after the varint. */
  method EncodeVarint(dAtA: array<byte>, offset: nat, v: u64) returns (end: nat)
    requires offset + Sov(v) <= dAtA.Length
    modifies dAtA
    ensures end == offset + Sov(v) && |Encode(v)| == Sov(v)
    ensures Overwritten(old(dAtA[..]), offset, Encode(v), dAtA[..])
  {
    EncodeLength(v);
    ghost var was := dAtA[..];
    var x: nat := v;
    end := offset;
    ghost var done: bytes := [];
    OverwriteNone(was, offset);
    while x >= 128
      invariant end == offset + |done| && end + |Encode(x)| == offset + |Encode(v)| && done + Encode(x) == Encode(v)
      invariant Overwritten(was, offset, done, dAtA[..])
      decreases x
    {
      OverwriteNext(was, offset, done, dAtA[..], x % 128 + 128);
      dAtA[end] := x % 128 + 128;
      done := NextByte(done, x);
      x := x / 128;
      end := end + 1;
    }
    assert Encode(x) == [x];
    OverwriteNext(was, offset, done, dAtA[..], x);
    dAtA[end] := x;
    end := end + 1;
  }

  lemma EncodeLength(v: nat)
    ensures |Encode(v)| == Sov(v)
  {
    EncodeShape(v);
  }

  /** `now` is `was` with the bytes from `offset` on replaced by `done`. */
  ghost predicate Overwritten(was: bytes, offset: nat, done: bytes, now: bytes) {
    offset + |done| <= |was| && now == was[..offset] + done + was[offset + |done|..]
  }

  lemma OverwriteNone(was: bytes, offset: nat)
    requires offset <= |was|
    ensures Overwritten(was, offset, [], was)
  {}

  lemma OverwriteNext(was: bytes, offset: nat, done: bytes, now: bytes, b: byte)
    requires Overwritten(was, offset, done, now) && offset + |done| < |was|
    ensures |now| == |was| && Overwritten(was, offset, done + [b], now[offset + |done| := b])
  {}

  lemma NextByte(done: bytes, x: nat) returns (next: bytes)
    requires x >= 128
    ensures next == done + [128 + x % 128] && |next| == |done| + 1
    ensures |Encode(x / 128)| + 1 == |Encode(x)| && next + Encode(x / 128) == done + Encode(x)
  {
    next := done + [128 + x % 128];
    assert done + [128 + x % 128] + Encode(x / 128) == done + ([128 + x % 128] + Encode(x / 128));
  }

  /** The decoding loop that the generated code repeats wherever it reads a tag or a length. */
  method ReadVarintLoop(data: bytes, start: nat) returns (r: ReadResult)
    ensures r == ReadVarint(data, start)
  {
    var index: nat, shift: nat := start, 0;
    var wire: u64 := 0;
    ghost var k: nat := 0;
    while true
      invariant shift == 7 * k
      invariant k <= MAX_VARINT && wire < Power128(k)
      invariant ReadVarint(data, start) == ReadFrom(data, index, k, wire)
      decreases MAX_SHIFT + 7 - shift
    {
      if shift >= MAX_SHIFT { return Overflow; }
      if index >= |data| { return UnexpectedEof; }
      var b := data[index];
      index := index + 1;
      RoundIsSum(wire, b, k);
      RoundStaysBelow(wire, b, k);
      wire := Accumulate(wire, b, shift);
      if b < 128 { return Read(wire, index); }
      shift := shift + 7;
      k := k + 1;
    }
  }
}
