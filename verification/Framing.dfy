/** Length-prefixed messages between the node and its libp2p port. */
module Framing {
  import opened Bytes

  const HEADER: nat := 4

  // ---- Frames ----

  /** `n` modulo 2^32 in four big-endian bytes. */
  function BigEndian32(n: nat): (b: bytes)
    ensures |b| == HEADER
  {
    [n / 256 / 256 / 256 % 256, n / 256 / 256 % 256, n / 256 % 256, n % 256]
  }

  function FromBigEndian32(b: bytes): (n: u32)
    requires |b| == HEADER
    ensures n == 0x100_0000 * (b[0] as int) + 0x1_0000 * (b[1] as int) + 0x100 * (b[2] as int) + b[3] as int
  {
    (((b[0] as int) * 256 + b[1] as int) * 256 + b[2] as int) * 256 + b[3] as int
  }

  lemma BigEndianRoundTrip(n: nat)
    ensures FromBigEndian32(BigEndian32(n)) == n % U32
  {
    var a := n / 256;
    var b := a / 256;
    var c := b / 256;
    var d := c / 256;
    assert n == 256 * a + n % 256 && a == 256 * b + a % 256 && b == 256 * c + b % 256 && c == 256 * d + c % 256;
    var r := ((c % 256 * 256 + b % 256) * 256 + a % 256) * 256 + n % 256;
    assert n == U32 * d + r && 0 <= r < U32;
    Remainder(n, d, r);
  }

  lemma Remainder(n: nat, d: nat, r: nat)
    requires n == U32 * d + r && r < U32
    ensures n % U32 == r
  {}

  lemma HeaderRoundTrip(b: bytes)
    requires |b| == HEADER
    ensures BigEndian32(FromBigEndian32(b)) == b
  {
    var h: int := b[0] as int;
    var g: int := h * 256 + b[1] as int;
    var f: int := g * 256 + b[2] as int;
    var n: int := f * 256 + b[3] as int;
    assert n / 256 == f && n % 256 == b[3];
    assert f / 256 == g && f % 256 == b[2];
    assert g / 256 == h && g % 256 == b[1];
    assert n == FromBigEndian32(b);
  }

  function Frame(m: bytes): bytes {
    BigEndian32(|m|) + m
  }

  function Frames(ms: seq<bytes>): bytes {
    if ms == [] then [] else Frame(ms[0]) + Frames(ms[1..])
  }

  predicate Short(ms: seq<bytes>) {
    forall m :: m in ms ==> |m| < U32
  }

  // ---- split_messages and continue_receiving (Elixir) ----

  /** `Delivered`: the messages and what is left in the mailbox. `NoClause`: fewer than four bytes were to be
      split. `Waiting`: the mailbox ran empty first. */
  datatype Split = Delivered(messages: seq<bytes>, mailbox: seq<bytes>) | NoClause | Waiting

  datatype Received = Received(data: bytes, mailbox: seq<bytes>) | Starved

  /** Takes chunks until the total is exactly `length`; a total beyond it is never accepted. */
  function ContinueReceiving(length: nat, full: bytes, mailbox: seq<bytes>): (r: Received)
    ensures r.Received? ==> |r.data| == length && |r.mailbox| < |mailbox|
    decreases |mailbox|
  {
    if mailbox == [] then Starved
    else
      var more := full + mailbox[0];
      if |more| == length then Received(more, mailbox[1..])
      else ContinueReceiving(length, more, mailbox[1..])
  }

  function SplitMessages(full: bytes, messages: seq<bytes>, mailbox: seq<bytes>): Split
    decreases |mailbox|, |full|
  {
    if |full| < HEADER then NoClause
    else
      var size, data := FromBigEndian32(full[..HEADER]), full[HEADER..];
      if |data| == size then Delivered([data] + messages, mailbox)
      else if |data| < size then
        match ContinueReceiving(size + HEADER, full, mailbox)
        case Starved => Waiting
        case Received(more, rest) => SplitMessages(more, messages, rest)
      else SplitMessages(data[size..], messages + [data[..size]], mailbox)
  }

  // ---- What a delivery must look like ----

  function Concat(chunks: seq<bytes>): bytes {
    if chunks == [] then [] else chunks[0] + Concat(chunks[1..])
  }

  /** The last message comes first. */
  function LastFirst(ms: seq<bytes>): seq<bytes>
    requires ms != []
  {
    [ms[|ms| - 1]] + ms[..|ms| - 1]
  }

  /** The chunk `data` followed by the first `j` chunks of the mailbox are the frames of `ms`: all but the last
      are whole in `data`, of the last `data` holds at least the header, and its end is the end of a chunk, the
      first at which the total length is reached. */
  ghost predicate Carries(data: bytes, mailbox: seq<bytes>, j: nat, ms: seq<bytes>) {
    && ms != [] && Short(ms) && j <= |mailbox|
    && data + Concat(mailbox[..j]) == Frames(ms)
    && |Frames(ms[..|ms| - 1])| + HEADER <= |data|
    && (forall i :: 0 <= i < j ==> |data + Concat(mailbox[..i])| < |Frames(ms)|)
  }

  lemma FrameHeader(m: bytes, rest: bytes)
    requires |m| < U32
    ensures FromBigEndian32((Frame(m) + rest)[..HEADER]) == |m|
    ensures (Frame(m) + rest)[HEADER..] == m + rest
  {}

  lemma {:induction false} ConcatSnoc(chunks: seq<bytes>, c: bytes)
    ensures Concat(chunks + [c]) == Concat(chunks) + c
  {
    if chunks == [] {
      assert chunks + [c] == [c];
      assert [c][1..] == [];
    } else {
      assert (chunks + [c])[1..] == chunks[1..] + [c];
      ConcatSnoc(chunks[1..], c);
    }
  }

  lemma ContinueComplete(length: nat, full: bytes, mailbox: seq<bytes>, j: nat)
    requires 0 < j <= |mailbox|
    requires |full + Concat(mailbox[..j])| == length
    requires forall i :: 0 < i < j ==> |full + Concat(mailbox[..i])| != length
    ensures ContinueReceiving(length, full, mailbox) == Received(full + Concat(mailbox[..j]), mailbox[j..])
    decreases |mailbox|
  {
    var rest, more := mailbox[1..], full + mailbox[0];
    forall i | 0 < i <= j ensures full + Concat(mailbox[..i]) == more + Concat(rest[..i - 1]) {
      assert mailbox[..i][1..] == rest[..i - 1];
    }
    assert mailbox[j..] == rest[j - 1..];
    if j == 1 {
      assert rest[..0] == [] && more + [] == more;
    } else {
      assert full + Concat(mailbox[..1]) == more + Concat(rest[..0]);
      assert rest[..0] == [] && more + [] == more;
      forall i | 0 < i < j - 1 ensures |more + Concat(rest[..i])| != length {
        assert full + Concat(mailbox[..i + 1]) == more + Concat(rest[..i]);
      }
      ContinueComplete(length, more, rest, j - 1);
    }
  }

  /** What is received is the data and the first chunks up to the first exact match. */
  lemma {:induction false} ContinueSound(length: nat, full: bytes, mailbox: seq<bytes>) returns (j: nat)
    requires ContinueReceiving(length, full, mailbox).Received?
    ensures 0 < j <= |mailbox|
    ensures ContinueReceiving(length, full, mailbox) == Received(full + Concat(mailbox[..j]), mailbox[j..])
    ensures forall i :: 0 < i < j ==> |full + Concat(mailbox[..i])| < length
    decreases |mailbox|
  {
    var rest, more := mailbox[1..], full + mailbox[0];
    if |more| == length {
      j := 1;
      assert mailbox[..1][1..] == [];
      assert more + [] == more;
    } else {
      var k := ContinueSound(length, more, rest);
      j := k + 1;
      forall i | 0 < i <= j ensures full + Concat(mailbox[..i]) == more + Concat(rest[..i - 1]) {
        assert mailbox[..i][1..] == rest[..i - 1];
      }
      assert mailbox[j..] == rest[k..];
      forall i | 0 < i < j ensures |full + Concat(mailbox[..i])| < length {
        assert full + Concat(mailbox[..i]) == more + Concat(rest[..i - 1]);
        if i == 1 {
          assert rest[..0] == [];
          assert |more| <= |more + Concat(rest[..k])|;
        }
      }
    }
  }

  // ---- One delivery ----

  lemma OneFrame(m: bytes)
    ensures Frames([m]) == Frame(m) && Frames([]) == []
  {}

  /** A whole frame is delivered in front of the messages before it. */
  lemma WholeFrame(m: bytes, messages: seq<bytes>, mailbox: seq<bytes>)
    requires |m| < U32
    ensures SplitMessages(Frame(m), messages, mailbox) == Delivered([m] + messages, mailbox)
  {}

  lemma LastFrameComplete(data: bytes, messages: seq<bytes>, mailbox: seq<bytes>, j: nat, m: bytes)
    requires |m| < U32 && HEADER <= |data| && j <= |mailbox|
    requires data + Concat(mailbox[..j]) == Frame(m)
    requires forall i :: 0 <= i < j ==> |data + Concat(mailbox[..i])| < |Frame(m)|
    ensures SplitMessages(data, messages, mailbox) == Delivered([m] + messages, mailbox[j..])
  {
    WholeFrame(m, messages, mailbox[j..]);
    if j == 0 {
      assert mailbox[..0] == [] && data + [] == data && mailbox[0..] == mailbox;
    } else {
      assert mailbox[..0] == [] && data + [] == data;
      assert |data + Concat(mailbox[..0])| < |Frame(m)|;
      FrameHeader(m, []);
      assert Frame(m) + [] == Frame(m);
      assert data[..HEADER] == Frame(m)[..HEADER];
      ContinueComplete(|m| + HEADER, data, mailbox, j);
    }
  }

  /** The first frame of several is cut off and kept in order. */
  lemma {:induction false} SplitComplete(data: bytes, messages: seq<bytes>, mailbox: seq<bytes>, j: nat, ms: seq<bytes>)
    requires Carries(data, mailbox, j, ms)
    ensures SplitMessages(data, messages, mailbox) ==
            Delivered([ms[|ms| - 1]] + messages + ms[..|ms| - 1], mailbox[j..])
    decreases |ms|
  {
    if |ms| == 1 {
      SingleFrame(data, messages, mailbox, j, ms);
    } else {
      var data' := CutFirst(data, mailbox, j, ms);
      FirstFrameSplits(data, ms[0], data', messages, mailbox);
      SplitComplete(data', messages + [ms[0]], mailbox, j, ms[1..]);
      LastOfRest(ms, messages);
    }
  }

  lemma SingleFrame(data: bytes, messages: seq<bytes>, mailbox: seq<bytes>, j: nat, ms: seq<bytes>)
    requires Carries(data, mailbox, j, ms) && |ms| == 1
    ensures SplitMessages(data, messages, mailbox) ==
            Delivered([ms[|ms| - 1]] + messages + ms[..|ms| - 1], mailbox[j..])
  {
    var m := ms[0];
    assert m in ms;
    assert ms == [m] && ms[..0] == [];
    OneFrame(m);
    LastFrameComplete(data, messages, mailbox, j, m);
    assert [m] + messages + [] == [m] + messages;
  }

  lemma LastOfRest(ms: seq<bytes>, messages: seq<bytes>)
    requires |ms| > 1
    ensures var rest := ms[1..];
            [rest[|rest| - 1]] + (messages + [ms[0]]) + rest[..|rest| - 1] == [ms[|ms| - 1]] + messages + ms[..|ms| - 1]
  {
    MovedToFront(ms[0], ms[1..], messages);
    assert ms == [ms[0]] + ms[1..];
  }

  lemma FirstFrameSplits(data: bytes, m: bytes, data': bytes, messages: seq<bytes>, mailbox: seq<bytes>)
    requires |m| < U32 && data == Frame(m) + data' && data' != []
    ensures SplitMessages(data, messages, mailbox) == SplitMessages(data', messages + [m], mailbox)
  {
    FrameHeader(m, data');
    assert (m + data')[..|m|] == m && (m + data')[|m|..] == data';
  }

  lemma CutFirst(data: bytes, mailbox: seq<bytes>, j: nat, ms: seq<bytes>) returns (data': bytes)
    requires Carries(data, mailbox, j, ms) && |ms| > 1
    ensures |ms[0]| < U32 && data == Frame(ms[0]) + data' && data' != []
    ensures Carries(data', mailbox, j, ms[1..])
  {
    var f, rest := Frame(ms[0]), ms[1..];
    assert ms[0] in ms;
    var init := ms[..|ms| - 1];
    assert init[1..] == rest[..|rest| - 1];
    assert |Frames(init)| == |f| + |Frames(init[1..])|;
    data' := data[|f|..];
    assert Frames(ms) == f + Frames(rest);
    assert data[..|f|] == f by {
      assert (data + Concat(mailbox[..j]))[..|f|] == f;
    }
    assert data' + Concat(mailbox[..j]) == Frames(rest) by {
      assert (data + Concat(mailbox[..j]))[|f|..] == data' + Concat(mailbox[..j]);
    }
    forall i | 0 <= i < j ensures |data' + Concat(mailbox[..i])| < |Frames(rest)| {
      assert |data + Concat(mailbox[..i])| < |Frames(ms)|;
    }
    assert rest[|rest| - 1] == ms[|ms| - 1];
  }

  /** Whatever is delivered was carried. */
  lemma {:induction false} SplitSound(data: bytes, messages: seq<bytes>, mailbox: seq<bytes>)
    returns (j: nat, ms: seq<bytes>)
    requires SplitMessages(data, messages, mailbox).Delivered?
    ensures Carries(data, mailbox, j, ms)
    ensures SplitMessages(data, messages, mailbox) ==
            Delivered([ms[|ms| - 1]] + messages + ms[..|ms| - 1], mailbox[j..])
    decreases |data|
  {
    var size, body := FromBigEndian32(data[..HEADER]), data[HEADER..];
    HeaderRoundTrip(data[..HEADER]);
    if |body| == size {
      j, ms := 0, [body];
      WholeSound(data, mailbox);
      OneMessage(body, messages);
      assert mailbox[0..] == mailbox;
    } else if |body| < size {
      var m;
      j, m := PartialCase(data, messages, mailbox, size);
      ms := [m];
      OneMessage(m, messages);
    } else {
      var m, data' := CutBody(data, messages, mailbox, size);
      var rest;
      j, rest := SplitSound(data', messages + [m], mailbox);
      ms := [m] + rest;
      AddFirst(data, m, data', mailbox, j, rest);
      MovedToFront(m, rest, messages);
    }
  }

  /** A whole frame with more behind it is split off. */
  lemma CutBody(data: bytes, messages: seq<bytes>, mailbox: seq<bytes>, size: u32) returns (m: bytes, data': bytes)
    requires HEADER + size < |data| && data[..HEADER] == BigEndian32(size)
    requires size == FromBigEndian32(data[..HEADER])
    ensures |m| == size && |data'| < |data| && data == Frame(m) + data'
    ensures SplitMessages(data, messages, mailbox) == SplitMessages(data', messages + [m], mailbox)
  {
    m, data' := data[HEADER..][..size], data[HEADER..][size..];
  }

  /** A partial last frame is delivered as soon as the rest of it has arrived. */
  lemma PartialCase(data: bytes, messages: seq<bytes>, mailbox: seq<bytes>, size: u32) returns (j: nat, m: bytes)
    requires HEADER <= |data| < HEADER + size && data[..HEADER] == BigEndian32(size)
    requires size == FromBigEndian32(data[..HEADER])
    requires SplitMessages(data, messages, mailbox).Delivered?
    ensures Carries(data, mailbox, j, [m])
    ensures SplitMessages(data, messages, mailbox) == Delivered([m] + messages, mailbox[j..])
  {
    j := ContinueSound(size + HEADER, data, mailbox);
    m := PartialSound(data, mailbox, j, size);
    WholeFrame(m, messages, mailbox[j..]);
  }

  lemma OneMessage(m: bytes, messages: seq<bytes>)
    ensures [[m][|[m]| - 1]] + messages + [m][..|[m]| - 1] == [m] + messages
  {}

  lemma MovedToFront(m: bytes, rest: seq<bytes>, messages: seq<bytes>)
    requires rest != []
    ensures var ms := [m] + rest;
            [rest[|rest| - 1]] + (messages + [m]) + rest[..|rest| - 1] == [ms[|ms| - 1]] + messages + ms[..|ms| - 1]
  {}

  lemma WholeSound(data: bytes, mailbox: seq<bytes>)
    requires |data| >= HEADER && BigEndian32(|data| - HEADER) == data[..HEADER] && |data| - HEADER < U32
    ensures data == Frame(data[HEADER..]) && Carries(data, mailbox, 0, [data[HEADER..]])
  {}

  lemma PartialSound(data: bytes, mailbox: seq<bytes>, j: nat, size: u32) returns (m: bytes)
    requires HEADER <= |data| < size + HEADER && data[..HEADER] == BigEndian32(size) && j <= |mailbox|
    requires |data + Concat(mailbox[..j])| == size + HEADER
    requires forall i :: 0 < i < j ==> |data + Concat(mailbox[..i])| < size + HEADER
    ensures |m| == size && data + Concat(mailbox[..j]) == Frame(m) && Carries(data, mailbox, j, [m])
  {
    var whole := data + Concat(mailbox[..j]);
    m := whole[HEADER..];
    assert whole[..HEADER] == data[..HEADER];
    assert whole == Frame(m);
    OneFrame(m);
    var one: seq<bytes> := [m];
    assert one[..0] == [];
    forall i | 0 <= i < j ensures |data + Concat(mailbox[..i])| < |Frames([m])| {
      if i == 0 { assert mailbox[..0] == []; }
    }
  }

  lemma AddFirst(data: bytes, m: bytes, data': bytes, mailbox: seq<bytes>, j: nat, rest: seq<bytes>)
    requires data == Frame(m) + data' && |m| < U32 && Carries(data', mailbox, j, rest)
    ensures Carries(data, mailbox, j, [m] + rest)
  {
    var ms := [m] + rest;
    assert ms[1..] == rest;
    var init := ms[..|ms| - 1];
    assert init[1..] == rest[..|rest| - 1];
    assert |Frames(init)| == |Frame(m)| + |Frames(init[1..])|;
    assert data + Concat(mailbox[..j]) == Frame(m) + (data' + Concat(mailbox[..j]));
    forall i | 0 <= i < j ensures |data + Concat(mailbox[..i])| < |Frames(ms)| {
      assert |data' + Concat(mailbox[..i])| < |Frames(rest)|;
    }
  }

  /** A delivery ends with these messages and this mailbox exactly when the chunk and the first chunks of the
      mailbox carry frames whose payloads, the last one first, are those messages. */
  lemma SplitExactly(data: bytes, mailbox: seq<bytes>, messages: seq<bytes>, left: seq<bytes>)
    ensures SplitMessages(data, [], mailbox) == Delivered(messages, left) <==>
            exists j: nat, ms :: Carries(data, mailbox, j, ms) && messages == LastFirst(ms) && left == mailbox[j..]
  {
    if SplitMessages(data, [], mailbox) == Delivered(messages, left) {
      var j, ms := SplitSound(data, [], mailbox);
      assert [ms[|ms| - 1]] + [] + ms[..|ms| - 1] == LastFirst(ms);
    }
    if j: nat, ms :| Carries(data, mailbox, j, ms) && messages == LastFirst(ms) && left == mailbox[j..] {
      SplitComplete(data, [], mailbox, j, ms);
      assert [ms[|ms| - 1]] + [] + ms[..|ms| - 1] == LastFirst(ms);
    }
  }

  /** Every payload is delivered exactly once. */
  lemma DeliveredOnce(ms: seq<bytes>)
    requires ms != []
    ensures multiset(LastFirst(ms)) == multiset(ms)
  {
    var n := |ms| - 1;
    assert ms == ms[..n] + [ms[n]];
  }

  /** Their order is kept only when they are all the same. */
  lemma OrderKeptExactly(ms: seq<bytes>)
    requires ms != []
    ensures LastFirst(ms) == ms <==> forall i :: 0 <= i < |ms| ==> ms[i] == ms[0]
  {
    if LastFirst(ms) == ms {
      forall i | 0 <= i < |ms| ensures ms[i] == ms[0] { SameAsFirst(ms, i); }
    }
  }

  lemma {:induction false} SameAsFirst(ms: seq<bytes>, i: nat)
    requires i < |ms| && LastFirst(ms) == ms
    ensures ms[i] == ms[0]
  {
    if i == 0 {
    } else {
      SameAsFirst(ms, i - 1);
      assert LastFirst(ms)[i] == ms[i - 1];
    }
  }

  // ---- A whole session of deliveries ----

  /** `handle_info` for each chunk the port sends, as long as every delivery succeeds. */
  function Session(mailbox: seq<bytes>): Option<seq<bytes>>
    decreases |mailbox|
  {
    if mailbox == [] then Some([])
    else
      SplitShrinks(mailbox[0], [], mailbox[1..]);
      match SplitMessages(mailbox[0], [], mailbox[1..])
      case Delivered(messages, rest) =>
        (match Session(rest)
         case None => None
         case Some(more) => Some(messages + more))
      case _ => None
  }

  lemma {:induction false} SplitShrinks(data: bytes, messages: seq<bytes>, mailbox: seq<bytes>)
    ensures SplitMessages(data, messages, mailbox).Delivered? ==>
              |SplitMessages(data, messages, mailbox).mailbox| <= |mailbox|
  {
    if SplitMessages(data, messages, mailbox).Delivered? {
      var j, ms := SplitSound(data, messages, mailbox);
    }
  }

  /** One delivery: its chunks and the messages they carry. */
  datatype Delivery = Delivery(chunks: seq<bytes>, messages: seq<bytes>)

  ghost predicate Complete(d: Delivery) {
    d.chunks != [] && Carries(d.chunks[0], d.chunks[1..], |d.chunks| - 1, d.messages)
  }

  function Chunks(ds: seq<Delivery>): seq<bytes> {
    if ds == [] then [] else ds[0].chunks + Chunks(ds[1..])
  }

  function Expected(ds: seq<Delivery>): seq<bytes>
    requires forall d :: d in ds ==> d.messages != []
  {
    if ds == [] then [] else LastFirst(ds[0].messages) + Expected(ds[1..])
  }

  /** A stream that the port cuts into complete deliveries is delivered in full, delivery by delivery. */
  lemma {:induction false} SessionDelivers(ds: seq<Delivery>)
    requires forall d :: d in ds ==> Complete(d) && d.messages != []
    ensures Session(Chunks(ds)) == Some(Expected(ds))
  {
    if ds == [] {
    } else {
      var d := ds[0];
      assert d in ds && Complete(d);
      SessionDelivers(ds[1..]);
      DeliveryInContext(d, Chunks(ds[1..]));
      SessionFirst(d.chunks, Chunks(ds[1..]), LastFirst(d.messages), Expected(ds[1..]));
    }
  }

  lemma SessionFirst(chunks: seq<bytes>, more: seq<bytes>, messages: seq<bytes>, rest: seq<bytes>)
    requires chunks != [] && SplitMessages(chunks[0], [], chunks[1..] + more) == Delivered(messages, more)
    requires Session(more) == Some(rest)
    ensures Session(chunks + more) == Some(messages + rest)
  {
    var mailbox := chunks + more;
    assert mailbox[0] == chunks[0] && mailbox[1..] == chunks[1..] + more;
  }

  lemma CarriesInContext(data: bytes, chunks: seq<bytes>, more: seq<bytes>, ms: seq<bytes>)
    requires Carries(data, chunks, |chunks|, ms)
    ensures Carries(data, chunks + more, |chunks|, ms) && (chunks + more)[|chunks|..] == more
  {
    forall i | 0 <= i <= |chunks| ensures (chunks + more)[..i] == chunks[..i] {}
  }

  /** A complete delivery is split off whatever the port sends after it. */
  lemma DeliveryInContext(d: Delivery, more: seq<bytes>)
    requires Complete(d) && d.messages != []
    ensures SplitMessages(d.chunks[0], [], d.chunks[1..] + more) == Delivered(LastFirst(d.messages), more)
  {
    SplitInContext(d.chunks[0], d.chunks[1..], more, d.messages);
  }

  lemma SplitInContext(data: bytes, chunks: seq<bytes>, more: seq<bytes>, ms: seq<bytes>)
    requires Carries(data, chunks, |chunks|, ms) && ms != []
    ensures SplitMessages(data, [], chunks + more) == Delivered(LastFirst(ms), more)
  {
    CarriesInContext(data, chunks, more, ms);
    SplitComplete(data, [], chunks + more, |chunks|, ms);
    NothingBefore(ms[|ms| - 1], ms[..|ms| - 1]);
  }

  lemma NothingBefore(m: bytes, rest: seq<bytes>)
    ensures [m] + [] + rest == [m] + rest
  {}

  // ---- writeMessage and readMessage (Go) ----

  /** `Read` takes at most `n` bytes, and only from what is buffered. */
  function ReadSome(pieces: seq<bytes>, n: nat): (bytes, seq<bytes>) {
    if pieces == [] then ([], [])
    else if |pieces[0]| <= n then (pieces[0], pieces[1..])
    else (pieces[0][..n], [pieces[0][n..]] + pieces[1..])
  }

  /** `ReadFull` reads on until it has `n` bytes or the stream ends. */
  function ReadFull(pieces: seq<bytes>, n: nat): (bytes, seq<bytes>)
    decreases |pieces|
  {
    if n == 0 || pieces == [] then ([], pieces)
    else
      var (got, rest) := ReadSome(pieces, n);
      if |pieces[0]| > n then (got, rest)
      else
        var (more, left) := ReadFull(rest, n - |got|);
        (got + more, left)
  }

  function Zeros(n: nat): bytes {
    seq(n, _ => 0)
  }

  /** The header is taken from a single `Read`, the unread part of its buffer being zero. */
  function HeaderLength(header: bytes): u32
    requires |header| <= HEADER
  {
    FromBigEndian32(header + Zeros(HEADER - |header|))
  }

  /** The unread part of the body is zero when the stream ends. */
  function ReadBody(pieces: seq<bytes>, length: nat): (bytes, seq<bytes>) {
    ReadFullShort(pieces, length);
    var (body, left) := ReadFull(pieces, length);
    (body + Zeros(length - |body|), left)
  }

  function ReadMessage(pieces: seq<bytes>): (bytes, seq<bytes>) {
    var (header, rest) := ReadSome(pieces, HEADER);
    ReadBody(rest, HeaderLength(header))
  }

  lemma {:induction false} ReadFullShort(pieces: seq<bytes>, n: nat)
    ensures |ReadFull(pieces, n).0| <= n
    ensures ReadFull(pieces, n).0 + Concat(ReadFull(pieces, n).1) == Concat(pieces)
    ensures |ReadFull(pieces, n).0| == if |Concat(pieces)| >= n then n else |Concat(pieces)|
    decreases |pieces|
  {
    if n == 0 || pieces == [] {
    } else {
      var head := pieces[0];
      if |head| > n {
        assert ([head[n..]] + pieces[1..])[1..] == pieces[1..];
        assert head[..n] + (head[n..] + Concat(pieces[1..])) == head + Concat(pieces[1..]);
      } else {
        ReadFullShort(pieces[1..], n - |head|);
        var (more, left) := ReadFull(pieces[1..], n - |head|);
        assert head + more + Concat(left) == head + (more + Concat(left));
      }
    }
  }

  lemma ReadFullStep(pieces: seq<bytes>, n: nat)
    requires n > 0 && pieces != []
    ensures var (got, rest) := ReadSome(pieces, n);
            |got| <= n && ReadFull(pieces, n) == (got + ReadFull(rest, n - |got|).0, ReadFull(rest, n - |got|).1)
  {
    var (got, rest) := ReadSome(pieces, n);
    assert got + [] == got;
  }

  /** However the stream is cut, a written message and nothing else is taken off it exactly when the message is
      below 2^32 bytes and the first `Read` finds the whole header. */
  lemma ReadBackExactly(m: bytes, rest: bytes, pieces: seq<bytes>)
    requires Concat(pieces) == Frame(m) + rest
    ensures ReadMessage(pieces).0 == m && Concat(ReadMessage(pieces).1) == rest <==>
            |m| < U32 && pieces != [] && |pieces[0]| >= HEADER
  {
    assert pieces != [];
    if |pieces[0]| >= HEADER {
      HeaderAndBody(m, rest, pieces);
      LengthIsRead(m);
      ReadByHeader(BigEndian32(|m|), m, rest, pieces);
    } else {
      ShortHeaderLeavesMore(pieces);
    }
  }

  /** What is read off any stream: the first `Read` gives the header, filled up with zeros, and that many bytes of what
      comes next are the message, filled up with zeros too if the stream ends before. */
  lemma ReadsAnyStream(pieces: seq<bytes>)
    requires pieces != []
    ensures var first := if |pieces[0]| < 4 then pieces[0] else pieces[0][..4];
            var n := FromBigEndian32(first + seq(4 - |first|, _ => 0));
            var rest := Concat(pieces)[|first|..];
            && |first| <= |Concat(pieces)|
            && ReadMessage(pieces).0 == (if |rest| >= n then rest[..n] else rest + seq(n - |rest|, _ => 0))
            && Concat(ReadMessage(pieces).1) == (if |rest| >= n then rest[n..] else [])
  {
    var (header, after) := ReadSome(pieces, HEADER);
    TakesPrefix(pieces);
    ReadFullShort(after, HeaderLength(header));
    var (body, left) := ReadFull(after, HeaderLength(header));
    Filled(Concat(after), body, Concat(left), HeaderLength(header));
  }

  lemma Filled(rest: bytes, body: bytes, left: bytes, n: nat)
    requires rest == body + left && |body| == if |rest| >= n then n else |rest|
    ensures body + Zeros(n - |body|) == if |rest| >= n then rest[..n] else rest + Zeros(n - |rest|)
    ensures left == if |rest| >= n then rest[n..] else []
  {
    assert |rest| < n ==> left == [] && rest == body;
    assert body + Zeros(0) == body;
  }

  lemma TakesPrefix(pieces: seq<bytes>)
    requires pieces != []
    ensures var (header, after) := ReadSome(pieces, HEADER);
            && header == (if |pieces[0]| < HEADER then pieces[0] else pieces[0][..HEADER])
            && Concat(pieces) == header + Concat(after)
  {
    var head := pieces[0];
    if |head| <= HEADER {
      assert |head| == HEADER ==> head[..HEADER] == head;
    } else {
      ConcatFirst(head[HEADER..], pieces[1..]);
      CutFront(head, HEADER, Concat(pieces[1..]));
    }
  }

  lemma ConcatFirst(c: bytes, chunks: seq<bytes>)
    ensures Concat([c] + chunks) == c + Concat(chunks)
  {
    assert ([c] + chunks)[1..] == chunks;
  }

  lemma CutFront(a: bytes, n: nat, b: bytes)
    requires n <= |a|
    ensures a[..n] + (a[n..] + b) == a + b
  {}

  /** A header that is cut short leaves more than the message behind: fewer than four bytes have been taken for it
      and at most the length of the result for the body. */
  lemma ShortHeaderLeavesMore(pieces: seq<bytes>)
    requires pieces != [] && |pieces[0]| < HEADER
    ensures |ReadMessage(pieces).0| + |Concat(ReadMessage(pieces).1)| + HEADER > |Concat(pieces)|
  {
    var rest := pieces[1..];
    ReadFullShort(rest, HeaderLength(pieces[0]));
    var (body, left) := ReadFull(rest, HeaderLength(pieces[0]));
    assert |Concat(rest)| == |body| + |Concat(left)|;
  }

  /** The frame of the one-byte message 7, its header cut after the first byte: an empty message is read and four
      bytes stay behind, the next message starting inside this one's frame. */
  lemma CutHeaderIsMisread()
    ensures var pieces: seq<bytes> := [[0], [0, 0, 1, 7]];
            Concat(pieces) == Frame([7]) && ReadMessage(pieces) == ([], [[0, 0, 1, 7]])
  {
    var pieces: seq<bytes> := [[0], [0, 0, 1, 7]];
    assert pieces[1..] == [[0, 0, 1, 7]];
    assert pieces[1..][1..] == [];
    assert Concat(pieces[1..]) == [0, 0, 1, 7];
    assert BigEndian32(1) == [0, 0, 0, 1];
    assert ReadSome(pieces, HEADER) == (pieces[0], pieces[1..]);
    ZeroHeader(pieces[0]);
    NothingToRead(pieces[1..]);
  }

  lemma ZeroHeader(header: bytes)
    requires header == [0]
    ensures HeaderLength(header) == 0
  {
    assert header + Zeros(3) == [0, 0, 0, 0];
  }

  lemma NothingToRead(pieces: seq<bytes>)
    ensures ReadBody(pieces, 0) == ([], pieces)
  {
    assert ReadBody(pieces, 0).0 == [];
  }

  lemma ReadByHeader(header: bytes, m: bytes, rest: bytes, pieces: seq<bytes>)
    requires |header| == HEADER && HeaderLength(header) == |m| % U32
    requires ReadSome(pieces, HEADER).0 == header && Concat(ReadSome(pieces, HEADER).1) == m + rest
    ensures ReadMessage(pieces).0 == m <==> |m| < U32
    ensures |m| < U32 ==> Concat(ReadMessage(pieces).1) == rest
  {
    BodyIsRead(ReadSome(pieces, HEADER).1, m, rest, |m| % U32);
  }

  lemma LengthIsRead(m: bytes)
    ensures HeaderLength(BigEndian32(|m|)) == |m| % U32
  {
    BigEndianRoundTrip(|m|);
    assert BigEndian32(|m|) + Zeros(0) == BigEndian32(|m|);
  }

  lemma BodyIsRead(pieces: seq<bytes>, m: bytes, rest: bytes, length: nat)
    requires Concat(pieces) == m + rest && length <= |m|
    ensures ReadBody(pieces, length).0 == m <==> length == |m|
    ensures length == |m| ==> Concat(ReadBody(pieces, length).1) == rest
  {
    ReadFullShort(pieces, length);
    var (body, left) := ReadFull(pieces, length);
    assert body + Zeros(0) == body;
    if length == |m| { PrefixIsMessage(body, Concat(left), m, rest); }
  }

  lemma PrefixIsMessage(body: bytes, left: bytes, m: bytes, rest: bytes)
    requires body + left == m + rest && |body| == |m|
    ensures body == m && left == rest
  {
    assert body == (body + left)[..|m|] && left == (body + left)[|m|..];
    assert m == (m + rest)[..|m|] && rest == (m + rest)[|m|..];
  }

  lemma HeaderAndBody(m: bytes, rest: bytes, pieces: seq<bytes>)
    requires Concat(pieces) == Frame(m) + rest
    requires pieces != [] && |pieces[0]| >= HEADER
    ensures ReadSome(pieces, HEADER).0 == BigEndian32(|m|)
    ensures Concat(ReadSome(pieces, HEADER).1) == m + rest
  {
    AfterHeader(pieces);
    var b := BigEndian32(|m|);
    assert Frame(m) + rest == b + (m + rest);
    assert Concat(pieces)[..HEADER] == pieces[0][..HEADER];
    assert (b + (m + rest))[..HEADER] == b && (b + (m + rest))[HEADER..] == m + rest;
    assert |pieces[0]| == HEADER ==> pieces[0][..HEADER] == pieces[0];
  }

  lemma AfterHeader(pieces: seq<bytes>)
    requires pieces != [] && |pieces[0]| >= HEADER
    ensures Concat(ReadSome(pieces, HEADER).1) == Concat(pieces)[HEADER..]
  {}

  /** Part of the way through reading `length` bytes of `start`: `body` is read, `pieces` are left. */
  predicate Reads(start: seq<bytes>, length: nat, body: bytes, pieces: seq<bytes>) {
    && |body| <= length
    && var rest := ReadFull(pieces, length - |body|);
       ReadFull(start, length) == (body + rest.0, rest.1)
  }

  lemma ReadsOn(start: seq<bytes>, length: nat, body: bytes, pieces: seq<bytes>)
    requires Reads(start, length, body, pieces) && |body| < length && pieces != []
    ensures var (got, rest) := ReadSome(pieces, length - |body|);
            |body + got| <= length && Reads(start, length, body + got, rest)
  {
    ReadFullStep(pieces, length - |body|);
    var (got, rest) := ReadSome(pieces, length - |body|);
    var more := ReadFull(rest, length - |body| - |got|).0;
    assert body + (got + more) == body + got + more;
  }

  lemma ReadsEnds(start: seq<bytes>, length: nat, body: bytes, pieces: seq<bytes>)
    requires Reads(start, length, body, pieces) && (|body| == length || pieces == [])
    ensures (body + Zeros(length - |body|), pieces) == ReadBody(start, length)
  {
    assert body + [] == body;
  }

  /** Standard output and input of the two programs: pieces as they were written and not yet read. */
  class Pipe {
    var pieces: seq<bytes>

    constructor ()
      ensures pieces == []
    {
      pieces := [];
    }

    method Write(b: bytes)
      modifies this
      ensures pieces == old(pieces) + if b == [] then [] else [b]
    {
      if b != [] { pieces := pieces + [b]; }
    }

    method WriteMessage(m: bytes)
      modifies this
      ensures Concat(pieces) == old(Concat(pieces)) + Frame(m)
      ensures pieces == old(pieces) + [BigEndian32(|m|)] + if m == [] then [] else [m]
    {
      Write(BigEndian32(|m|));
      ConcatSnoc(old(pieces), BigEndian32(|m|));
      Write(m);
      assert old(Concat(pieces)) + BigEndian32(|m|) + m == old(Concat(pieces)) + Frame(m);
      if m != [] {
        ConcatSnoc(old(pieces) + [BigEndian32(|m|)], m);
      } else {
        assert old(pieces) + [BigEndian32(|m|)] + [] == old(pieces) + [BigEndian32(|m|)];
      }
    }

    method Read(n: nat) returns (got: bytes)
      modifies this
      ensures (got, pieces) == ReadSome(old(pieces), n)
    {
      if pieces == [] { return []; }
      if |pieces[0]| <= n {
        got, pieces := pieces[0], pieces[1..];
      } else {
        got, pieces := pieces[0][..n], [pieces[0][n..]] + pieces[1..];
      }
    }

    method ReadMessageMethod() returns (m: bytes)
      modifies this
      ensures (m, pieces) == ReadMessage(old(pieces))
    {
      var header := Read(HEADER);
      m := ReadFullMethod(HeaderLength(header));
    }

    /** Fills a zeroed buffer of `length` bytes from the front. */
    method ReadFullMethod(length: nat) returns (m: bytes)
      modifies this
      ensures (m, pieces) == ReadBody(old(pieces), length)
    {
      ghost var start := pieces;
      var body: bytes := [];
      assert body + ReadFull(start, length).0 == ReadFull(start, length).0;
      while |body| < length && pieces != []
        invariant Reads(start, length, body, pieces)
        decreases |pieces|, length - |body|
      {
        ReadsOn(start, length, body, pieces);
        var got := Read(length - |body|);
        body := body + got;
      }
      ReadsEnds(start, length, body, pieces);
      m := body + Zeros(length - |body|);
    }
  }
}
