/** `Block` and `Transaction` messages: one bytes field, numbered 1. */
module Messages {
  import opened Bytes
  import opened Varint
  import opened Wire

  const BYTES_FIELD: int := 1
  const BYTES_TAG: byte := 10

  /** `int32(wire >> 3)`, in two's complement. */
  function FieldNumber(wire: u64): int {
    var f := wire / 8 % U32;
    if f >= U32 / 2 then f - U32 else f
  }

  /** It is the signed 32-bit number that agrees with `wire / 8` in its low 32 bits. */
  lemma FieldNumberExactly(wire: u64, n: int)
    ensures n == FieldNumber(wire) <==>
            -0x8000_0000 <= n < 0x8000_0000 && (wire / 8 - n) % 0x1_0000_0000 == 0
  {
    var f := wire / 8;
    var q := f / U32;
    assert f == q * U32 + f % U32;
    if -0x8000_0000 <= n < 0x8000_0000 && (f - n) % U32 == 0 {
      var p := (f - n) / U32;
      assert f - n == p * U32;
    } else if n == FieldNumber(wire) {
      if n == f % U32 { Whole(f - n, q); } else { Whole(f - n, q + 1); }
    }
  }

  lemma Whole(n: int, q: int)
    requires n == q * U32
    ensures n % U32 == 0
  {}

  /** The error, if any, and the message's bytes when `Unmarshal` returns. */
  datatype Unmarshalled = Unmarshalled(error: Option<Error>, contents: bytes)

  /** The result of one round of the loop: the next position and the bytes, or an error. */
  datatype FieldResult = Next(next: nat, contents: bytes) | Bad(error: Error)

  /** A length-delimited field 1, from the position after its tag. */
  function ReadBytesField(data: bytes, i: nat): (r: FieldResult)
    requires |data| <= MAX_SLICE
    ensures r.Next? ==> i < r.next <= |data|
  {
    var length := ReadVarint(data, i);
    if !length.Read? then Bad(ReadError(length))
    else
      ReadIsForward(data, i);
      if ToInt64(length.value) < 0 then Bad(InvalidLength)
      else
        var postIndex := ToInt64(length.next + length.value);
        if postIndex < 0 then Bad(InvalidLength)
        else if postIndex > |data| then Bad(Eof)
        else Next(postIndex, data[length.next..postIndex])
  }

  function SkipField(data: bytes, i: nat, contents: bytes): (r: FieldResult)
    requires |data| <= MAX_SLICE && i < |data|
    ensures r.Next? ==> i < r.next <= |data|
  {
    match Skip(data[i..])
    case Failed(e) => Bad(e)
    case Skipped(n) =>
      if ToInt64(i + n) < 0 then Bad(InvalidLength)
      else if ToInt64(i + n) > |data| then Bad(Eof)
      else Next(i + n, contents)
  }

  function Field(data: bytes, i: nat, contents: bytes): (r: FieldResult)
    requires |data| <= MAX_SLICE && i < |data|
    ensures r.Next? ==> i < r.next <= |data|
  {
    var tag := ReadVarint(data, i);
    if !tag.Read? then Bad(ReadError(tag))
    else if tag.value % 8 == 4 then Bad(UnexpectedEndGroup)
    else if FieldNumber(tag.value) <= 0 then Bad(IllegalTag)
    else if FieldNumber(tag.value) == BYTES_FIELD then
      if tag.value % 8 != 2 then Bad(WrongWireType)
      else
        ReadIsForward(data, i);
        ReadBytesField(data, tag.next)
    else SkipField(data, i, contents)
  }

  function Unmarshal(data: bytes, i: nat, contents: bytes): Unmarshalled
    requires |data| <= MAX_SLICE && i <= |data|
    decreases |data| - i
  {
    if i == |data| then Unmarshalled(None, contents)
    else match Field(data, i, contents)
      case Bad(e) => Unmarshalled(Some(e), contents)
      case Next(n, c) => Unmarshal(data, n, c)
  }

  function Marshal(contents: bytes): bytes {
    if contents == [] then [] else [BYTES_TAG] + Encode(|contents|) + contents
  }

  function Size(contents: bytes): nat {
    if contents == [] then 0 else 1 + |contents| + Sov(|contents|)
  }

  // ---- Messages as sequences of records ----

  /** A record that a message may contain: field 1 is length-delimited, everything else is unknown. */
  predicate Acceptable(r: Record) {
    && WellFormed(r) && !r.EndGroup?
    && FieldNumber(Value(r.tag)) > 0
    && (FieldNumber(Value(r.tag)) == BYTES_FIELD ==> r.BytesField?)
  }

  predicate AllAcceptable(rs: seq<Record>) {
    rs == [] || (Acceptable(rs[0]) && AllAcceptable(rs[1..]))
  }

  function Update(before: bytes, r: Record): bytes {
    if r.BytesField? && FieldNumber(Value(r.tag)) == BYTES_FIELD then r.payload else before
  }

  /** The payload of the last field 1, or what was there before. */
  function LastBytes(before: bytes, rs: seq<Record>): bytes
    decreases rs
  {
    if rs == [] then before else LastBytes(Update(before, rs[0]), rs[1..])
  }

  lemma UnknownFieldSkips(before: bytes, r: Record, after: bytes, contents: bytes)
    requires WellFormed(r) && Print(r) != [] && |before + Print(r) + after| <= MAX_SLICE
    ensures SkipField(before + Print(r) + after, |before|, contents) == Next(|before| + |Print(r)|, contents)
  {
    assert (before + Print(r) + after)[|before|..] == Print(r) + after;
    SkipComplete(r, after);
  }

  lemma FieldReadsRecord(before: bytes, r: Record, after: bytes, contents: bytes)
    requires Acceptable(r) && |before + Print(r) + after| <= MAX_SLICE
    ensures Print(r) != []
    ensures Field(before + Print(r) + after, |before|, contents) ==
            Next(|before| + |Print(r)|, Update(contents, r))
  {
    PrintStartsWithTag(r);
    if FieldNumber(Value(r.tag)) == BYTES_FIELD {
      BytesRecordReads(before + Print(r) + after, before, r.tag, r.length, r.payload, after, contents);
    } else {
      UnknownRecordReads(before, r, after, contents);
    }
  }

  lemma BytesRecordReads(data: bytes, before: bytes, tag: bytes, length: bytes, payload: bytes, after: bytes,
                         contents: bytes)
    requires IsVarint(tag) && WireType(tag) == 2 && FieldNumber(Value(tag)) == BYTES_FIELD
    requires IsVarint(length) && Value(length) == |payload|
    requires data == before + (tag + length + payload) + after && |data| <= MAX_SLICE
    ensures Field(data, |before|, contents) == Next(|before| + |tag| + |length| + |payload|, payload)
  {
    var i, j := |before|, |before| + |tag|;
    TagReads(data, before, tag, length, payload, after);
    LengthReads(data, before, tag, length, payload, after);
    FieldUnfolds(data, i, contents, Value(tag), j);
    BytesUnfold(data, j, j + |length|, payload);
  }

  lemma TagReads(data: bytes, before: bytes, tag: bytes, length: bytes, payload: bytes, after: bytes)
    requires IsVarint(tag) && data == before + (tag + length + payload) + after
    ensures ReadVarint(data, |before|) == Read(Value(tag), |before| + |tag|)
  {
    RegroupField(before, tag, length, payload, after);
    ReadInContext(before, tag, length + payload + after);
  }

  lemma LengthReads(data: bytes, before: bytes, tag: bytes, length: bytes, payload: bytes, after: bytes)
    requires IsVarint(length) && data == before + (tag + length + payload) + after
    ensures var j := |before| + |tag|;
            ReadVarint(data, j) == Read(Value(length), j + |length|) && payload <= data[j + |length|..]
  {
    RegroupField(before, tag, length, payload, after);
    ReadInContext(before + tag, length, payload + after);
  }

  lemma BytesUnfold(data: bytes, j: nat, k: nat, payload: bytes)
    requires k <= |data| <= MAX_SLICE && payload <= data[k..]
    requires ReadVarint(data, j).Read? && ReadVarint(data, j).value == |payload| && ReadVarint(data, j).next == k
    ensures ReadBytesField(data, j) == Next(k + |payload|, payload)
  {}

  lemma RegroupField(a: bytes, b: bytes, c: bytes, d: bytes, e: bytes)
    ensures a + (b + c + d) + e == a + b + (c + d + e)
    ensures a + (b + c + d) + e == (a + b) + c + (d + e)
    ensures d <= (a + (b + c + d) + e)[|a| + |b| + |c|..]
  {}

  lemma UnknownRecordReads(before: bytes, r: Record, after: bytes, contents: bytes)
    requires Acceptable(r) && FieldNumber(Value(r.tag)) != BYTES_FIELD && Print(r) != []
    requires |before + Print(r) + after| <= MAX_SLICE
    ensures Field(before + Print(r) + after, |before|, contents) == Next(|before| + |Print(r)|, contents)
  {
    TagIsRead(r, before, after);
    NotEndGroup(r);
    FieldUnfolds(before + Print(r) + after, |before|, contents, Value(r.tag), |before| + |r.tag|);
    UnknownFieldSkips(before, r, after, contents);
  }

  /** The switch over the field number. */
  lemma FieldUnfolds(data: bytes, i: nat, contents: bytes, wire: u64, next: nat)
    requires |data| <= MAX_SLICE && i < |data| && ReadVarint(data, i) == Read(wire, next)
    requires wire % 8 != 4 && FieldNumber(wire) > 0
    requires FieldNumber(wire) == BYTES_FIELD ==> wire % 8 == 2
    ensures Field(data, i, contents) ==
            if FieldNumber(wire) == BYTES_FIELD then ReadBytesField(data, next) else SkipField(data, i, contents)
  {}

  /** Any sequence of acceptable records is unmarshalled: unknown records are skipped whole and the last
      field 1 wins. */
  lemma {:induction false} UnmarshalComplete(before: bytes, rs: seq<Record>, contents: bytes)
    requires AllAcceptable(rs) && |before + PrintAll(rs)| <= MAX_SLICE
    ensures Unmarshal(before + PrintAll(rs), |before|, contents) == Unmarshalled(None, LastBytes(contents, rs))
    decreases rs
  {
    if rs == [] {
    } else {
      var r, rest := rs[0], PrintAll(rs[1..]);
      assert before + PrintAll(rs) == before + Print(r) + rest;
      FieldReadsRecord(before, r, rest, contents);
      UnmarshalComplete(before + Print(r), rs[1..], Update(contents, r));
    }
  }

  lemma ThreePieces(data: bytes, i: nat, j: nat, k: nat, n: nat)
    requires i <= j <= k <= n <= |data|
    ensures data[i..n] == data[i..j] + data[j..k] + data[k..n]
  {}

  lemma BytesFieldIsRecord(data: bytes, i: nat, j: nat) returns (r: Record)
    requires |data| <= MAX_SLICE && i < j <= |data|
    requires IsVarint(data[i..j]) && WireType(data[i..j]) == 2 && ReadBytesField(data, j).Next?
    ensures var f := ReadBytesField(data, j);
            && WellFormed(r) && r.BytesField? && r.tag == data[i..j]
            && r.payload == f.contents && Print(r) == data[i..f.next]
  {
    ReadGivesVarint(data, j);
    var k, n := ReadVarint(data, j).next, ReadBytesField(data, j).next;
    r := MakeBytesField(data[i..j], data[j..k], data[k..n]);
    ThreePieces(data, i, j, k, n);
  }

  lemma SkippedFieldIsRecord(data: bytes, i: nat, contents: bytes) returns (r: Record)
    requires |data| <= MAX_SLICE && i < |data| && SkipField(data, i, contents).Next?
    requires ReadVarint(data, i).Read?
    ensures WellFormed(r) && r.tag == data[i..ReadVarint(data, i).next]
    ensures Print(r) == data[i..SkipField(data, i, contents).next]
  {
    var rest := data[i..];
    r := SkipSound(rest);
    assert rest[..Skip(rest).n] == data[i..SkipField(data, i, contents).next];
    TagInSlice(data, i);
  }

  lemma FieldIsRecord(data: bytes, i: nat, contents: bytes) returns (r: Record)
    requires |data| <= MAX_SLICE && i < |data| && Field(data, i, contents).Next?
    ensures Acceptable(r) && Print(r) == data[i..Field(data, i, contents).next]
    ensures Field(data, i, contents).contents == Update(contents, r)
  {
    ReadGivesVarint(data, i);
    var tag := ReadVarint(data, i);
    if FieldNumber(tag.value) == BYTES_FIELD {
      r := BytesFieldIsRecord(data, i, tag.next);
    } else {
      r := SkippedFieldIsRecord(data, i, contents);
    }
  }

  lemma {:induction false} UnmarshalSound(data: bytes, i: nat, contents: bytes) returns (rs: seq<Record>)
    requires |data| <= MAX_SLICE && i <= |data| && Unmarshal(data, i, contents).error == None
    ensures AllAcceptable(rs) && PrintAll(rs) == data[i..]
    ensures Unmarshal(data, i, contents).contents == LastBytes(contents, rs)
    decreases |data| - i
  {
    if i == |data| {
      rs := [];
    } else {
      var f := Field(data, i, contents);
      var r := FieldIsRecord(data, i, contents);
      var rest := UnmarshalSound(data, f.next, f.contents);
      rs := [r] + rest;
      assert rs[1..] == rest;
      assert data[i..] == data[i..f.next] + data[f.next..];
    }
  }

  /** Unmarshalling succeeds with given contents exactly when the input is a sequence of acceptable records
      whose last field 1 is those contents (or there is none and the contents are the old ones). */
  lemma UnmarshalExactly(data: bytes, before: bytes, contents: bytes)
    requires |data| <= MAX_SLICE
    ensures Unmarshal(data, 0, before) == Unmarshalled(None, contents) <==>
            exists rs :: AllAcceptable(rs) && PrintAll(rs) == data && LastBytes(before, rs) == contents
  {
    if Unmarshal(data, 0, before) == Unmarshalled(None, contents) {
      var rs := UnmarshalSound(data, 0, before);
      assert data[0..] == data;
    }
    if rs :| AllAcceptable(rs) && PrintAll(rs) == data && LastBytes(before, rs) == contents {
      assert [] + PrintAll(rs) == data;
      UnmarshalComplete([], rs, before);
    }
  }

  // ---- Input that is not unmarshalled ----

  /** No acceptable record begins at `i`. */
  ghost predicate NoRecordAt(data: bytes, i: nat) {
    i <= |data| && forall r :: Acceptable(r) ==> !(Print(r) <= data[i..])
  }

  /** An error is raised at the first position, after a sequence of acceptable records, at which no other one begins
      and the input has not ended; what the last field 1 before it held stays in the message. */
  lemma {:induction false} UnmarshalStops(data: bytes, i: nat, contents: bytes)
    returns (rs: seq<Record>, stop: nat, e: Error)
    requires |data| <= MAX_SLICE && i <= |data| && Unmarshal(data, i, contents).error.Some?
    ensures i <= stop < |data| && AllAcceptable(rs) && PrintAll(rs) == data[i..stop] && NoRecordAt(data, stop)
    ensures Unmarshal(data, i, contents) == Unmarshalled(Some(e), LastBytes(contents, rs))
    ensures Field(data, stop, LastBytes(contents, rs)) == Bad(e)
    decreases |data| - i
  {
    var f := Field(data, i, contents);
    match f
    case Bad(error) =>
      rs, stop, e := [], i, error;
      BadIsNoRecord(data, i, contents);
    case Next(n, c) =>
      var r := FieldIsRecord(data, i, contents);
      var rest;
      rest, stop, e := UnmarshalStops(data, n, c);
      rs := Prefixed(r, rest, contents);
      SplitAt(data, i, n, stop);
  }

  lemma Prefixed(r: Record, rest: seq<Record>, contents: bytes) returns (rs: seq<Record>)
    requires Acceptable(r) && AllAcceptable(rest)
    ensures AllAcceptable(rs) && PrintAll(rs) == Print(r) + PrintAll(rest)
    ensures LastBytes(contents, rs) == LastBytes(Update(contents, r), rest)
  {
    rs := [r] + rest;
    assert rs[1..] == rest;
  }

  lemma BadIsNoRecord(data: bytes, i: nat, contents: bytes)
    requires |data| <= MAX_SLICE && i < |data| && Field(data, i, contents).Bad?
    ensures NoRecordAt(data, i)
  {
    forall r | Acceptable(r) ensures !(Print(r) <= data[i..]) {
      if Print(r) <= data[i..] {
        var before, after := data[..i], data[i + |Print(r)|..];
        assert data == before + Print(r) + after;
        FieldReadsRecord(before, r, after, contents);
      }
    }
  }

  /** The error at a position, read off the tag there and what follows it; inside a group it is the skipper's. */
  lemma FieldErrors(data: bytes, i: nat, contents: bytes)
    requires |data| <= MAX_SLICE && i < |data| && Field(data, i, contents).Bad?
    ensures var e, tag := Field(data, i, contents).error, ReadVarint(data, i);
            match tag
            case Overflow => e == IntOverflow
            case UnexpectedEof => e == Eof
            case Read(wire, j) =>
              var number, kind := FieldNumber(wire), wire % 8;
              if kind == 4 then e == UnexpectedEndGroup
              else if number <= 0 then e == IllegalTag
              else if number == 1 && kind != 2 then e == WrongWireType
              else if kind >= 6 then e == IllegalWireType
              else if kind == 1 || kind == 5 then e == Eof && j + (if kind == 1 then 8 else 4) > |data|
              else if kind == 0 then e == (if ReadVarint(data, j).Overflow? then IntOverflow else Eof)
              else if kind == 2 then LengthError(data, j, e)
              else true
  {
    var tag := ReadVarint(data, i);
    ReadIsForward(data, i);
    if tag.Read? && tag.value % 8 != 4 && FieldNumber(tag.value) > 1 {
      FieldUnfolds(data, i, contents, tag.value, tag.next);
      UnknownErrors(data, i, contents, tag.value, tag.next);
    }
  }

  /** The errors of the skipper and of the checks on what it returns, except inside groups. */
  lemma UnknownErrors(data: bytes, i: nat, contents: bytes, wire: u64, j: nat)
    requires |data| <= MAX_SLICE && i < |data| && SkipField(data, i, contents).Bad?
    requires ReadVarint(data, i) == Read(wire, j) && wire % 8 != 4
    ensures var e, kind := SkipField(data, i, contents).error, wire % 8;
            && (kind >= 6 ==> e == IllegalWireType)
            && (kind == 1 || kind == 5 ==> e == Eof && j + (if kind == 1 then 8 else 4) > |data|)
            && (kind == 0 ==> e == if ReadVarint(data, j).Overflow? then IntOverflow else Eof)
            && (kind == 2 ==> LengthError(data, j, e))
  {
    ReadIsForward(data, i);
    TagInSlice(data, i);
    var rest := data[i..];
    assert Skip(rest) == SkipPayload(rest, wire % 8, j - i);
    VarintInSlice(data, i, j);
    ReadIsForward(data, j);
  }

  predicate LengthError(data: bytes, j: nat, e: Error) {
    match ReadVarint(data, j)
    case Overflow => e == IntOverflow
    case UnexpectedEof => e == Eof
    case Read(length, k) =>
      e == if length >= I64 || k + length >= I64 then InvalidLength else Eof
  }

  /** Reading a varint in a slice is reading it in place, errors included. */
  lemma VarintInSlice(data: bytes, i: nat, j: nat)
    requires i <= j <= |data|
    ensures var a, b := ReadVarint(data, j), ReadVarint(data[i..], j - i);
            match a
            case Read(v, n) => n >= i && b == Read(v, n - i)
            case _ => b == a
  {
    ReadFailsExactly(data, j);
    ReadFailsExactly(data[i..], j - i);
    assert forall n :: j <= n <= |data| ==> (GoesOn(data, j, n) <==> GoesOn(data[i..], j - i, n - i));
    var a := ReadVarint(data, j);
    if a.Read? {
      ReadVarintExactly(data, j, a.value, a.next);
      assert data[i..][j - i..a.next - i] == data[j..a.next];
      ReadVarintExactly(data[i..], j - i, a.value, a.next - i);
    }
  }

  /** A marshalled message, unmarshalled into a fresh one, is equal to it. */
  lemma RoundTrip(contents: bytes)
    requires Size(contents) <= MAX_SLICE
    ensures |Marshal(contents)| == Size(contents)
    ensures Unmarshal(Marshal(contents), 0, []) == Unmarshalled(None, contents)
  {
    if contents != [] {
      var r := OnlyField(contents);
      assert [r][1..] == [];
      assert PrintAll([r]) == Print(r) + [];
      assert LastBytes([], [r]) == Update([], r);
      UnmarshalComplete([], [r], []);
      assert [] + PrintAll([r]) == Marshal(contents);
    }
  }

  lemma TagValue(tag: bytes)
    requires tag == [BYTES_TAG]
    ensures IsVarint(tag) && Value(tag) == 10
  {
    assert tag[1..] == [];
    assert Raw(tag) == tag[0] % 128 + 128 * Raw(tag[1..]);
  }

  lemma OnlyField(contents: bytes) returns (r: Record)
    requires contents != [] && Size(contents) <= MAX_SLICE
    ensures Acceptable(r) && Print(r) == Marshal(contents) && Update([], r) == contents
    ensures |Marshal(contents)| == Size(contents)
  {
    EncodeIsVarint(|contents|);
    var tag: bytes := [BYTES_TAG];
    TagValue(tag);
    r := MakeBytesField(tag, Encode(|contents|), contents);
  }

  // ---- The generated code ----

  method SkipMethod(data: bytes) returns (r: SkipResult)
    requires |data| <= MAX_SLICE
    ensures r == Skip(data)
    decreases |data|
  {
    if data == [] { return Panicked; }
    var tag := ReadVarintLoop(data, 0);
    if !tag.Read? { return Failed(ReadError(tag)); }
    ReadIsForward(data, 0);
    var index := tag.next;
    var wireType := tag.value % 8;
    if wireType == 0 {
      var value := ReadVarintLoop(data, index);
      if !value.Read? { return Failed(ReadError(value)); }
      return Skipped(value.next);
    } else if wireType == 1 {
      return Skipped(ToInt64(index + 8));
    } else if wireType == 2 {
      var length := ReadVarintLoop(data, index);
      if !length.Read? { return Failed(ReadError(length)); }
      ReadIsForward(data, index);
      if ToInt64(length.value) < 0 || ToInt64(length.next + length.value) < 0 { return Failed(InvalidLength); }
      return Skipped(ToInt64(length.next + length.value));
    } else if wireType == 3 {
      while true
        invariant 0 < index < I64
        invariant Skip(data) == SkipGroup(data, index)
        decreases if index <= |data| then |data| - index else 0
      {
        var start := index;
        var inner := ReadVarintLoop(data, start);
        if !inner.Read? { return Failed(ReadError(inner)); }
        ReadIsForward(data, start);
        if inner.value % 8 == 4 { return Skipped(inner.next); }
        var nested := SkipMethod(data[start..]);
        if nested.Failed? { return nested; }
        var next := ToInt64(start + nested.n);
        if next < 0 { return Failed(InvalidLength); }
        index := next;
      }
    } else if wireType == 4 {
      return Skipped(index);
    } else if wireType == 5 {
      return Skipped(ToInt64(index + 4));
    }
    r := Failed(IllegalWireType);
  }

  /** A buffer after the tag, the length and the payload have been written over its front. */
  lemma Pieces(was: bytes, tagged: bytes, sized: bytes, filled: bytes, length: bytes, payload: bytes)
    requires 1 + |length| + |payload| <= |was| && tagged == was[0 := BYTES_TAG]
    requires sized == tagged[..1] + length + tagged[1 + |length|..]
    requires filled == sized[..1 + |length|] + payload + sized[1 + |length| + |payload|..]
    ensures filled == [BYTES_TAG] + length + payload + was[1 + |length| + |payload|..]
  {}

  class Message {
    var contents: bytes

    constructor ()
      ensures contents == []
    {
      contents := [];
    }

    method SizeMethod() returns (n: nat)
      requires |contents| < U64
      ensures n == Size(contents)
    {
      n := 0;
      var l := |contents|;
      if l > 0 {
        var s := SovMethod(l);
        n := 1 + l + s;
      }
    }

    /** Writes at the front of a buffer that is large enough, and nothing behind. */
    method MarshalTo(dAtA: array<byte>) returns (i: nat)
      requires |contents| < U64 && Size(contents) <= dAtA.Length
      modifies dAtA
      ensures i == Size(contents)
      ensures dAtA[..] == Marshal(contents) + old(dAtA[i..])
    {
      i := 0;
      if |contents| > 0 {
        EncodeLength(|contents|);
        dAtA[i] := BYTES_TAG;
        ghost var tagged := dAtA[..];
        i := i + 1;
        i := EncodeVarint(dAtA, i, |contents|);
        ghost var sized := dAtA[..];
        CopyBytes(dAtA, i, contents);
        Pieces(old(dAtA[..]), tagged, sized, dAtA[..], Encode(|contents|), contents);
        i := i + |contents|;
      }
    }

    /** `copy` into a slice with room for all of the source. */
    static method CopyBytes(dAtA: array<byte>, offset: nat, source: bytes)
      requires offset + |source| <= dAtA.Length
      modifies dAtA
      ensures dAtA[..] == old(dAtA[..offset]) + source + old(dAtA[offset + |source|..])
    {
      for j := 0 to |source|
        invariant dAtA[..] == old(dAtA[..offset]) + source[..j] + old(dAtA[offset + j..])
      {
        dAtA[offset + j] := source[j];
      }
    }

    /** The buffer that `Size` allocates is filled exactly. */
    method MarshalMethod() returns (data: array<byte>)
      requires |contents| < U64
      ensures fresh(data) && data[..] == Marshal(contents)
    {
      var size := SizeMethod();
      data := new byte[size](_ => 0);
      var n := MarshalTo(data);
      assert data[..] == Marshal(contents) + [];
    }

    /** On an error, fields read before it stay in the message. */
    method UnmarshalMethod(data: bytes) returns (error: Option<Error>)
      requires |data| <= MAX_SLICE
      modifies this
      ensures Unmarshalled(error, contents) == Unmarshal(data, 0, old(contents))
    {
      var index := 0;
      while index < |data|
        invariant index <= |data|
        invariant Unmarshal(data, 0, old(contents)) == Unmarshal(data, index, contents)
      {
        var preIndex := index;
        var tag := ReadVarintLoop(data, index);
        if !tag.Read? { return Some(ReadError(tag)); }
        ReadIsForward(data, preIndex);
        index := tag.next;
        var fieldNum, wireType := FieldNumber(tag.value), tag.value % 8;
        if wireType == 4 { return Some(UnexpectedEndGroup); }
        if fieldNum <= 0 { return Some(IllegalTag); }
        if fieldNum == BYTES_FIELD {
          if wireType != 2 { return Some(WrongWireType); }
          var length := ReadVarintLoop(data, index);
          if !length.Read? { return Some(ReadError(length)); }
          ReadIsForward(data, index);
          if ToInt64(length.value) < 0 { return Some(InvalidLength); }
          var postIndex := ToInt64(length.next + length.value);
          if postIndex < 0 { return Some(InvalidLength); }
          if postIndex > |data| { return Some(Eof); }
          contents := data[length.next..postIndex];
          index := postIndex;
        } else {
          var skippy := SkipMethod(data[preIndex..]);
          if skippy.Failed? { return Some(skippy.error); }
          if ToInt64(preIndex + skippy.n) < 0 { return Some(InvalidLength); }
          if ToInt64(preIndex + skippy.n) > |data| { return Some(Eof); }
          index := preIndex + skippy.n;
        }
      }
      error := None;
    }
  }
}
