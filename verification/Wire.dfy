/** The wire grammar of Protocol Buffers messages, the generated skipper and the message codec. */
module Wire {
  import opened Bytes
  import opened Varint

  // ---- The grammar ----

  /** A record as it stands on the wire: tags and lengths are varints, not necessarily of minimal length. */
  datatype Record =
    | VarintField(tag: bytes, value: bytes)
    | Fixed64Field(tag: bytes, payload: bytes)
    | BytesField(tag: bytes, length: bytes, payload: bytes)
    | Group(tag: bytes, body: seq<Record>, end: bytes)
    | EndGroup(tag: bytes)
    | Fixed32Field(tag: bytes, payload: bytes)

  function WireType(tag: bytes): nat {
    Value(tag) % 8
  }

  predicate WellFormed(r: Record) {
    && IsVarint(r.tag)
    && match r
       case VarintField(_, value) => WireType(r.tag) == 0 && IsVarint(value)
       case Fixed64Field(_, payload) => WireType(r.tag) == 1 && |payload| == 8
       case BytesField(_, length, payload) => WireType(r.tag) == 2 && IsVarint(length) && Value(length) == |payload|
       case Group(_, body, end) => WireType(r.tag) == 3 && IsVarint(end) && WireType(end) == 4 && WellFormedBody(body)
       case EndGroup(_) => WireType(r.tag) == 4
       case Fixed32Field(_, payload) => WireType(r.tag) == 5 && |payload| == 4
  }

  predicate WellFormedBody(rs: seq<Record>) {
    rs == [] || (WellFormed(rs[0]) && !rs[0].EndGroup? && WellFormedBody(rs[1..]))
  }

  function Print(r: Record): bytes {
    match r
    case VarintField(tag, value) => tag + value
    case Fixed64Field(tag, payload) => tag + payload
    case BytesField(tag, length, payload) => tag + length + payload
    case Group(tag, body, end) => tag + PrintAll(body) + end
    case EndGroup(tag) => tag
    case Fixed32Field(tag, payload) => tag + payload
  }

  function PrintAll(rs: seq<Record>): bytes {
    if rs == [] then [] else Print(rs[0]) + PrintAll(rs[1..])
  }

  // ---- skipEllipticoin ----

  datatype Error = IntOverflow | Eof | InvalidLength | IllegalWireType | UnexpectedEndGroup | IllegalTag | WrongWireType

  datatype SkipResult = Skipped(n: int) | Failed(error: Error) | Panicked

  /** Slices are shorter than 2^63; within nine bytes of that bound the fixed-width steps would wrap around. */
  const MAX_SLICE: nat := I64 - 9

  /** 64-bit two's complement. */
  function ToInt64(n: u64): int {
    if n < I64 then n else n - U64
  }

  function ReadError(r: ReadResult): Error {
    if r.Overflow? then IntOverflow else Eof
  }

  lemma ReadIsForward(data: bytes, i: nat)
    ensures ReadVarint(data, i).Read? ==>
              i < ReadVarint(data, i).next <= |data| && 0 <= ReadVarint(data, i).value < U64
  {}

  /** The length of the record at the start of `data`, which may reach beyond the end of `data`. Only empty input
      reaches the panic after the loop; a success is always a positive length. */
  function Skip(data: bytes): (r: SkipResult)
    requires |data| <= MAX_SLICE
    ensures r.Panicked? <==> data == []
    ensures r.Skipped? ==> 0 < r.n < I64
    decreases |data|, |data| + 1
  {
    var tag := ReadVarint(data, 0);
    if data == [] then Panicked
    else if !tag.Read? then Failed(ReadError(tag))
    else
      ReadIsForward(data, 0);
      SkipPayload(data, tag.value % 8, tag.next)
  }

  /** The switch over the wire type, `i` being the position after the tag. */
  function SkipPayload(data: bytes, wireType: nat, i: nat): (r: SkipResult)
    requires 0 < i <= |data| <= MAX_SLICE
    ensures !r.Panicked?
    ensures r.Skipped? ==> 0 < r.n < I64
    decreases |data|, |data|
  {
    if wireType == 0 then SkipVarint(data, i)
    else if wireType == 1 then Skipped(ToInt64(i + 8))
    else if wireType == 2 then SkipBytes(data, i)
    else if wireType == 3 then SkipGroup(data, i)
    else if wireType == 4 then Skipped(i)
    else if wireType == 5 then Skipped(ToInt64(i + 4))
    else Failed(IllegalWireType)
  }

  function SkipVarint(data: bytes, i: nat): (r: SkipResult)
    ensures !r.Panicked?
    ensures r.Skipped? ==> i < r.n <= |data|
  {
    var value := ReadVarint(data, i);
    if value.Read? then ReadIsForward(data, i); Skipped(value.next) else Failed(ReadError(value))
  }

  function SkipBytes(data: bytes, i: nat): (r: SkipResult)
    requires |data| <= MAX_SLICE
    ensures !r.Panicked?
    ensures r.Skipped? ==> i < r.n < I64
  {
    ReadIsForward(data, i);
    var length := ReadVarint(data, i);
    if !length.Read? then Failed(ReadError(length))
    else if ToInt64(length.value) < 0 then Failed(InvalidLength)
    else if ToInt64(length.next + length.value) < 0 then Failed(InvalidLength)
    else Skipped(ToInt64(length.next + length.value))
  }

  /** The loop over the fields of a group, from position `start` on. */
  function SkipGroup(data: bytes, start: nat): (r: SkipResult)
    requires start > 0 && |data| <= MAX_SLICE
    ensures !r.Panicked?
    ensures r.Skipped? ==> start < r.n <= |data|
    decreases |data|, if start <= |data| then |data| - start else 0
  {
    var inner := ReadVarint(data, start);
    if !inner.Read? then Failed(ReadError(inner))
    else
      ReadIsForward(data, start);
      if inner.value % 8 == 4 then Skipped(inner.next)
      else match Skip(data[start..])
        case Failed(e) => Failed(e)
        case Skipped(n) =>
          var next := ToInt64(start + n);
          if next < 0 then Failed(InvalidLength) else SkipGroup(data, next)
  }

  // ---- The skipper and the grammar ----

  lemma PrintStartsWithTag(r: Record)
    ensures r.tag <= Print(r)
  {}

  lemma TagIsRead(r: Record, before: bytes, after: bytes)
    requires IsVarint(r.tag)
    ensures ReadVarint(before + Print(r) + after, |before|) == Read(Value(r.tag), |before| + |r.tag|)
  {
    var rest := Print(r)[|r.tag|..] + after;
    assert before + Print(r) + after == before + r.tag + rest;
    ReadInContext(before, r.tag, rest);
  }

  /** A well-formed record is skipped whole, whatever follows it. */
  lemma {:induction false} SkipComplete(r: Record, after: bytes)
    requires WellFormed(r) && |Print(r) + after| <= MAX_SLICE
    ensures Skip(Print(r) + after) == Skipped(|Print(r)|)
    decreases r, 0
  {
    var data := Print(r) + after;
    TagIsRead(r, [], after);
    assert [] + Print(r) + after == data;
    match r
    case VarintField(tag, value) =>
      assert data == tag + value + after;
      ReadInContext(tag, value, after);
    case BytesField(tag, length, payload) =>
      assert data == tag + length + (payload + after);
      ReadInContext(tag, length, payload + after);
    case Group(tag, body, end) =>
      assert data == tag + PrintAll(body) + end + after;
      SkipGroupComplete(tag, body, end, after);
    case _ =>
  }

  lemma {:induction false} SkipGroupComplete(before: bytes, body: seq<Record>, end: bytes, after: bytes)
    requires before != [] && WellFormedBody(body) && IsVarint(end) && WireType(end) == 4
    requires |before + PrintAll(body) + end + after| <= MAX_SLICE
    ensures SkipGroup(before + PrintAll(body) + end + after, |before|) ==
            Skipped(|before| + |PrintAll(body)| + |end|)
    decreases body, 2
  {
    var data := before + PrintAll(body) + end + after;
    if body == [] {
      assert data == before + end + after;
      ReadInContext(before, end, after);
    } else {
      var first, before' := body[0], before + Print(body[0]);
      var rest := PrintAll(body[1..]) + end + after;
      BodyPieces(before, body, end, after);
      GroupSkipsFirst(before, first, rest);
      SkipGroupComplete(before', body[1..], end, after);
    }
  }

  lemma BodyPieces(before: bytes, body: seq<Record>, end: bytes, after: bytes)
    requires body != []
    ensures var data, rest := before + PrintAll(body) + end + after, PrintAll(body[1..]) + end + after;
            && data == before + Print(body[0]) + rest
            && data == before + Print(body[0]) + PrintAll(body[1..]) + end + after
  {
    Regroup(before, Print(body[0]), PrintAll(body[1..]), end, after);
  }

  lemma Regroup(a: bytes, b: bytes, c: bytes, d: bytes, e: bytes)
    ensures a + (b + c) + d + e == a + b + (c + d + e)
    ensures a + (b + c) + d + e == a + b + c + d + e
  {}

  /** The loop of a group goes over a record of its body whole. */
  lemma {:induction false} GroupSkipsFirst(before: bytes, first: Record, rest: bytes)
    requires before != [] && WellFormed(first) && !first.EndGroup? && |before + Print(first) + rest| <= MAX_SLICE
    ensures SkipGroup(before + Print(first) + rest, |before|) ==
            SkipGroup(before + Print(first) + rest, |before + Print(first)|)
    decreases first, 1
  {
    var data := before + Print(first) + rest;
    TagIsRead(first, before, rest);
    NotEndGroup(first);
    assert data[|before|..] == Print(first) + rest;
    SkipComplete(first, rest);
  }

  lemma NotEndGroup(r: Record)
    requires WellFormed(r) && !r.EndGroup?
    ensures WireType(r.tag) != 4
  {}

  lemma ReadGivesVarint(data: bytes, i: nat)
    requires ReadVarint(data, i).Read?
    ensures var r := ReadVarint(data, i);
            i < r.next <= |data| && IsVarint(data[i..r.next]) && Value(data[i..r.next]) == r.value
  {
    ReadVarintExactly(data, i, ReadVarint(data, i).value, ReadVarint(data, i).next);
  }

  lemma SplitAt(data: bytes, i: nat, j: nat, n: nat)
    requires i <= j <= n <= |data|
    ensures data[..i] + data[i..n] == data[..n]
    ensures data[..i] + data[i..j] + data[j..n] == data[..n]
    ensures data[i..j] + data[j..n] == data[i..n]
  {}

  lemma MakeBytesField(tag: bytes, length: bytes, payload: bytes) returns (r: Record)
    requires IsVarint(tag) && WireType(tag) == 2 && IsVarint(length) && Value(length) == |payload|
    ensures r == BytesField(tag, length, payload) && WellFormed(r) && Print(r) == tag + length + payload
  {
    r := BytesField(tag, length, payload);
  }

  lemma SkipBytesSound(data: bytes, i: nat, tag: bytes) returns (r: Record)
    requires |data| <= MAX_SLICE && SkipBytes(data, i).Skipped? && SkipBytes(data, i).n <= |data|
    requires i <= |data| && tag == data[..i] && IsVarint(tag) && WireType(tag) == 2
    ensures WellFormed(r) && r.tag == tag && Print(r) == data[..SkipBytes(data, i).n]
  {
    ReadGivesVarint(data, i);
    var j, n := ReadVarint(data, i).next, SkipBytes(data, i).n;
    r := MakeBytesField(tag, data[i..j], data[j..n]);
    SplitAt(data, i, j, n);
  }

  lemma SkipVarintSound(data: bytes, i: nat, tag: bytes) returns (r: Record)
    requires SkipVarint(data, i).Skipped?
    requires i <= |data| && tag == data[..i] && IsVarint(tag) && WireType(tag) == 0
    ensures WellFormed(r) && r.tag == tag && Print(r) == data[..SkipVarint(data, i).n]
  {
    ReadGivesVarint(data, i);
    var n := SkipVarint(data, i).n;
    r := VarintField(tag, data[i..n]);
    SplitAt(data, i, i, n);
  }

  lemma FixedSound(data: bytes, i: nat, tag: bytes, n: nat) returns (r: Record)
    requires i <= n <= |data| && tag == data[..i] && IsVarint(tag)
    requires (WireType(tag) == 1 && n == i + 8) || (WireType(tag) == 5 && n == i + 4) || (WireType(tag) == 4 && n == i)
    ensures WellFormed(r) && r.tag == tag && Print(r) == data[..n]
  {
    var payload := data[i..n];
    SplitAt(data, i, i, n);
    r := if n == i then EndGroup(tag)
         else if n == i + 8 then Fixed64Field(tag, payload) else Fixed32Field(tag, payload);
  }

  lemma MakeGroup(tag: bytes, body: seq<Record>, end: bytes) returns (r: Record)
    requires IsVarint(tag) && WireType(tag) == 3 && WellFormedBody(body) && IsVarint(end) && WireType(end) == 4
    ensures WellFormed(r) && r.tag == tag && Print(r) == tag + (PrintAll(body) + end)
  {
    r := Group(tag, body, end);
    assert tag + PrintAll(body) + end == tag + (PrintAll(body) + end);
  }

  /** What is skipped within the input is one well-formed record. */
  lemma {:induction false} SkipSound(data: bytes) returns (r: Record)
    requires |data| <= MAX_SLICE && Skip(data).Skipped? && Skip(data).n <= |data|
    ensures WellFormed(r) && Print(r) == data[..Skip(data).n]
    ensures r.tag == data[..ReadVarint(data, 0).next]
    decreases |data|, |data| + 1
  {
    ReadGivesVarint(data, 0);
    var tag := ReadVarint(data, 0);
    assert data[0..tag.next] == data[..tag.next];
    r := SkipPayloadSound(data, tag.next, data[..tag.next]);
  }

  lemma {:induction false} SkipPayloadSound(data: bytes, i: nat, tag: bytes) returns (r: Record)
    requires 0 < i <= |data| <= MAX_SLICE && tag == data[..i] && IsVarint(tag)
    requires var s := SkipPayload(data, WireType(tag), i); s.Skipped? && s.n <= |data|
    ensures WellFormed(r) && r.tag == tag && Print(r) == data[..SkipPayload(data, WireType(tag), i).n]
    decreases |data|, |data|
  {
    var wireType := WireType(tag);
    if wireType == 0 {
      r := SkipVarintSound(data, i, tag);
    } else if wireType == 2 {
      r := SkipBytesSound(data, i, tag);
    } else if wireType == 3 {
      var body, end := SkipGroupSound(data, i);
      r := MakeGroup(tag, body, end);
      SplitAt(data, i, i, SkipGroup(data, i).n);
    } else {
      r := FixedSound(data, i, tag, SkipPayload(data, wireType, i).n);
    }
  }

  lemma {:induction false} SkipGroupSound(data: bytes, start: nat) returns (body: seq<Record>, end: bytes)
    requires start > 0 && |data| <= MAX_SLICE && SkipGroup(data, start).Skipped?
    ensures WellFormedBody(body) && IsVarint(end) && WireType(end) == 4
    ensures PrintAll(body) + end == data[start..SkipGroup(data, start).n]
    decreases |data|, if start <= |data| then |data| - start else 0, 1
  {
    ReadGivesVarint(data, start);
    var inner := ReadVarint(data, start);
    if inner.value % 8 == 4 {
      body, end := [], data[start..inner.next];
    } else {
      var next, r := GroupStep(data, start);
      var rest;
      rest, end := SkipGroupSound(data, next);
      body := [r] + rest;
      assert body[1..] == rest;
      assert PrintAll(body) + end == Print(r) + (PrintAll(rest) + end);
      SplitAt(data, start, next, SkipGroup(data, start).n);
    }
  }

  /** The loop of a group goes over one record of its body. */
  lemma {:induction false} GroupStep(data: bytes, start: nat) returns (next: nat, r: Record)
    requires start > 0 && |data| <= MAX_SLICE && SkipGroup(data, start).Skipped?
    requires ReadVarint(data, start).Read? && ReadVarint(data, start).value % 8 != 4
    ensures start < next <= |data| && SkipGroup(data, next) == SkipGroup(data, start)
    ensures WellFormed(r) && !r.EndGroup? && Print(r) == data[start..next]
    decreases |data|, if start <= |data| then |data| - start else 0, 0
  {
    TagInSlice(data, start);
    var rest := data[start..];
    next := start + Skip(rest).n;
    assert SkipGroup(data, next) == SkipGroup(data, start);
    ReadIsForward(data, next);
    r := SkipSound(rest);
    assert rest[..Skip(rest).n] == data[start..next];
    ReadGivesVarint(rest, 0);
    assert rest[..ReadVarint(rest, 0).next] == rest[0..ReadVarint(rest, 0).next];
  }

  /** Reading a tag in a slice is reading it in place. */
  lemma TagInSlice(data: bytes, start: nat)
    requires ReadVarint(data, start).Read?
    ensures start <= |data|
    ensures ReadVarint(data[start..], 0) == Read(ReadVarint(data, start).value, ReadVarint(data, start).next - start)
    ensures data[start..][..ReadVarint(data, start).next - start] == data[start..ReadVarint(data, start).next]
  {
    ReadGivesVarint(data, start);
    var r := ReadVarint(data, start);
    assert data[start..][0..r.next - start] == data[start..r.next];
    ReadVarintExactly(data[start..], 0, r.value, r.next - start);
  }

  /** The skipper accepts `n` bytes of its input exactly when they are one record of the grammar. */
  lemma SkipExactly(data: bytes, n: nat)
    requires |data| <= MAX_SLICE && n <= |data|
    ensures Skip(data) == Skipped(n) <==> exists r :: WellFormed(r) && Print(r) == data[..n]
  {
    if Skip(data) == Skipped(n) {
      var r := SkipSound(data);
      assert WellFormed(r) && Print(r) == data[..n];
    }
    if r :| WellFormed(r) && Print(r) == data[..n] {
      SkipPrefix(data, n, r);
    }
  }

  lemma SkipPrefix(data: bytes, n: nat, r: Record)
    requires |data| <= MAX_SLICE && n <= |data| && WellFormed(r) && Print(r) == data[..n]
    ensures Skip(data) == Skipped(n)
  {
    var after := data[n..];
    assert data == Print(r) + after;
    SkipComplete(r, after);
  }

  /** An answer within the input depends on the skipped bytes only. */
  lemma SkipDependsOnSkippedBytes(data: bytes, other: bytes)
    requires |data| <= MAX_SLICE && Skip(data).Skipped? && Skip(data).n <= |data|
    requires |data[..Skip(data).n] + other| <= MAX_SLICE
    ensures Skip(data[..Skip(data).n] + other) == Skip(data)
  {
    var r := SkipSound(data);
    SkipComplete(r, other);
  }
}
