/** Byte strings, machine-integer bounds and the byte-level helpers shared by the models. */
module Bytes {
  type byte = b: int | 0 <= b < 256
  type bytes = seq<byte>

  const U32: nat := 0x1_0000_0000
  const U64: nat := 0x1_0000_0000_0000_0000
  const I64: nat := 0x8000_0000_0000_0000

  type u32 = n: int | 0 <= n < U32
  type u64 = n: int | 0 <= n < U64

  datatype Option<+T> = None | Some(value: T)

  /** The bytes of a literal. */
  function Ascii(s: string): bytes {
    seq(|s|, i requires 0 <= i < |s| => s[i] as int % 256)
  }

  /** The value of a little-endian byte string. */
  function FromLittleEndian(b: bytes): nat {
    if b == [] then 0 else b[0] + 256 * FromLittleEndian(b[1..])
  }

  /** `n` in exactly `len` little-endian bytes; higher-order bytes are dropped. */
  function LittleEndian(n: nat, len: nat): (b: bytes)
    ensures |b| == len
  {
    if len == 0 then [] else [n % 256] + LittleEndian(n / 256, len - 1)
  }

  function Power256(k: nat): nat {
    if k == 0 then 1 else 256 * Power256(k - 1)
  }

  /** Writing `n` in `len` bytes and reading it back keeps `n` modulo 256^len. */
  lemma {:induction false} LittleEndianRoundTrip(n: nat, len: nat)
    ensures Power256(len) > 0
    ensures n < Power256(len) ==> FromLittleEndian(LittleEndian(n, len)) == n
  {
    if len == 0 {
    } else {
      LittleEndianRoundTrip(n / 256, len - 1);
      var b := LittleEndian(n, len);
      assert b[1..] == LittleEndian(n / 256, len - 1);
    }
  }

  /** Every byte counts 256 times as much as the one before it. */
  lemma {:induction false} LittleEndianConcat(a: bytes, b: bytes)
    ensures FromLittleEndian(a + b) == FromLittleEndian(a) + Power256(|a|) * FromLittleEndian(b)
    ensures |b| == 1 ==> FromLittleEndian(b) == b[0]
    decreases a
  {
    if a == [] {
      assert a + b == b;
    } else {
      assert (a + b)[1..] == a[1..] + b;
      LittleEndianConcat(a[1..], b);
      Shifted(FromLittleEndian(a[1..]), Power256(|a| - 1), FromLittleEndian(b));
    }
  }

  lemma Shifted(low: nat, p: nat, high: nat)
    ensures 256 * (low + p * high) == 256 * low + 256 * p * high
  {}

  /** `helpers.rs`: pads on the right up to `len` elements; longer input is left as it is. */
  function RightPad(v: bytes, len: nat): (r: bytes)
    ensures |r| == if |v| < len then len else |v|
    ensures v <= r
    ensures forall i :: |v| <= i < |r| ==> r[i] == 0
  {
    v + seq(if |v| < len then len - |v| else 0, _ => 0)
  }

  method RightPadVec(v: bytes, len: nat) returns (r: bytes)
    ensures r == RightPad(v, len)
  {
    r := v;
    while |r| < len
      invariant v <= r
      invariant |r| <= if |v| < len then len else |v|
      invariant forall i :: |v| <= i < |r| ==> r[i] == 0
    {
      r := r + [0];
    }
  }

  /** `v` without its trailing zero bytes. */
  function StripZeros(v: bytes): (r: bytes)
    ensures r <= v
    ensures r != [] ==> r[|r| - 1] != 0
    ensures forall i :: |r| <= i < |v| ==> v[i] == 0
  {
    if v == [] || v[|v| - 1] != 0 then v else StripZeros(v[..|v| - 1])
  }

  /** Two short addresses pad to the same 64 bytes exactly when they differ only in trailing zero bytes. */
  lemma PaddingEqualExactlyUpToZeros(a: bytes, b: bytes, len: nat)
    requires |a| <= len && |b| <= len
    ensures RightPad(a, len) == RightPad(b, len) <==> StripZeros(a) == StripZeros(b)
  {}
}
