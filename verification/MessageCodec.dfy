/**
 The length-prefixed stream codec of the binary port (binary_port/src/binary_message.rs):
 encoding appends frames to a buffer, decoding takes frames off its front.
 */
module MessageCodec {
  import opened Bytes
  import opened LittleEndian

  const LENGTH_SIZE := 4

  datatype Error = EmptyRequest | RequestTooLarge(allowed: nat, got: nat)

  datatype Outcome = NeedMore | Message(payload: Bytes) | Failed(error: Error)

  function LengthLimit(): (n: nat)
    ensures n == 0x1_0000_0000
  {
    assert Limit(1) == 256 && Limit(2) == 0x1_0000 && Limit(3) == 0x100_0000;
    Limit(LENGTH_SIZE)
  }

  /** The bytes that stand for one message: its length, cut to 32 bits, and its payload. */
  function Frame(payload: Bytes): Bytes {
    ToLe(|payload|, LENGTH_SIZE) + payload
  }

  function Frames(payloads: seq<Bytes>): Bytes {
    if payloads == [] then [] else Frame(payloads[0]) + Frames(payloads[1..])
  }

  /** What one look at the buffer finds, and what it leaves. */
  function Look(max: nat, buffer: Bytes): (Outcome, Bytes) {
    if |buffer| < LENGTH_SIZE then (NeedMore, buffer)
    else
      var length := FromLe(buffer[..LENGTH_SIZE]);
      if length == 0 then (Failed(EmptyRequest), buffer)
      else if length > max then (Failed(RequestTooLarge(max, length)), buffer)
      else if |buffer| - LENGTH_SIZE < length then (NeedMore, buffer)
      else (Message(buffer[LENGTH_SIZE..LENGTH_SIZE + length]), buffer[LENGTH_SIZE + length..])
  }

  datatype Drained = Drained(messages: seq<Bytes>, rest: Bytes, error: Option<Error>)

  /** Looking at the buffer again and again until it needs more bytes or fails. */
  function Drain(max: nat, buffer: Bytes): Drained
    decreases |buffer|
  {
    match Look(max, buffer)
    case (NeedMore, rest) => Drained([], rest, None)
    case (Failed(e), rest) => Drained([], rest, Some(e))
    case (Message(p), rest) =>
      var d := Drain(max, rest);
      Drained([p] + d.messages, d.rest, d.error)
  }

  // ---- frames and looks ----

  /** A frame, byte by byte: four bytes of length, lowest first, and the payload. */
  lemma FrameByBytes(payload: Bytes)
    ensures var f, n := Frame(payload), |payload|;
            |f| == 4 + n && f[4..] == payload && f[0] as nat == n % 0x100 && f[1] as nat == n / 0x100 % 0x100 &&
            f[2] as nat == n / 0x1_0000 % 0x100 && f[3] as nat == n / 0x100_0000 % 0x100
  {
    var n := |payload|;
    assert Limit(1) == 0x100 && Limit(2) == 0x1_0000 && Limit(3) == 0x100_0000;
    forall i | 0 <= i < 4 ensures Frame(payload)[i] as nat == n / Limit(i) % 256 { ByteAt(n, 4, i); }
  }

  /** Which outcome a look has, and what it leaves, from the bytes alone. */
  lemma LookByBytes(max: nat, buffer: Bytes)
    ensures |buffer| < 4 ==> Look(max, buffer) == (NeedMore, buffer)
    ensures |buffer| >= 4 ==>
              var n := buffer[0] as nat + 0x100 * buffer[1] as nat + 0x1_0000 * buffer[2] as nat + 0x100_0000 * buffer[3] as nat;
              var (outcome, rest) := Look(max, buffer);
              && (outcome == Failed(EmptyRequest) <==> n == 0)
              && (forall m, l :: outcome == Failed(RequestTooLarge(m, l)) <==> n > max && m == max && l == n && n > 0)
              && (outcome == NeedMore <==> 0 < n <= max && |buffer| < 4 + n)
              && (forall p :: outcome == Message(p) <==> 0 < n <= max && 4 + n <= |buffer| && p == buffer[4..4 + n])
              && rest == if outcome.Message? then buffer[4 + n..] else buffer
  {
    if |buffer| >= 4 {
      ReadsAs(buffer[..4]);
    }
  }

  /** A message is found exactly when its frame is at the front; the frame is then gone. */
  lemma LookFindsFrames(max: nat, buffer: Bytes, payload: Bytes, rest: Bytes)
    requires max < LengthLimit()
    ensures Look(max, buffer) == (Message(payload), rest) <==>
            1 <= |payload| <= max && buffer == Frame(payload) + rest
  {
    if Look(max, buffer) == (Message(payload), rest) {
      WriteBack(buffer[..LENGTH_SIZE]);
      assert buffer == buffer[..LENGTH_SIZE] + payload + rest;
    }
    if 1 <= |payload| <= max && buffer == Frame(payload) + rest {
      ReadBackExact(|payload|, LENGTH_SIZE);
      assert buffer[..LENGTH_SIZE] == ToLe(|payload|, LENGTH_SIZE);
      assert buffer[LENGTH_SIZE..LENGTH_SIZE + |payload|] == payload;
      assert buffer[LENGTH_SIZE + |payload|..] == rest;
    }
  }

  /** Bytes that arrive later change nothing about a message or a failure. */
  lemma LookIsStable(max: nat, buffer: Bytes, more: Bytes)
    requires !Look(max, buffer).0.NeedMore?
    ensures Look(max, buffer + more) == (Look(max, buffer).0, Look(max, buffer).1 + more)
  {
    var all := buffer + more;
    assert all[..LENGTH_SIZE] == buffer[..LENGTH_SIZE];
    if Look(max, buffer).0.Message? {
      var n := LENGTH_SIZE + FromLe(buffer[..LENGTH_SIZE]);
      assert all[LENGTH_SIZE..n] == buffer[LENGTH_SIZE..n];
      assert all[n..] == buffer[n..] + more;
    }
  }

  // ---- drains ----

  /** Draining early and then going on is draining late. */
  lemma {:induction false} DrainInTwo(max: nat, buffer: Bytes, more: Bytes)
    ensures var d := Drain(max, buffer);
            var e := Drain(max, d.rest + more);
            Drain(max, buffer + more) == Drained(d.messages + e.messages, e.rest, e.error)
    ensures var d := Drain(max, buffer);
            d.error.Some? ==> Drain(max, buffer + more) == Drained(d.messages, d.rest + more, d.error)
    decreases |buffer|
  {
    match Look(max, buffer)
    case (NeedMore, _) =>
    case (Failed(_), _) => LookIsStable(max, buffer, more);
    case (Message(p), rest) =>
      LookIsStable(max, buffer, more);
      DrainInTwo(max, rest, more);
      var d := Drain(max, rest);
      var e := Drain(max, d.rest + more);
      assert [p] + (d.messages + e.messages) == [p] + d.messages + e.messages;
  }

  lemma {:induction false} DrainLeaves(max: nat, buffer: Bytes)
    ensures var d := Drain(max, buffer);
            (d.error.None? ==> |d.rest| < max + LENGTH_SIZE && Look(max, d.rest) == (NeedMore, d.rest)) &&
            (forall e :: d.error == Some(e) ==> Look(max, d.rest) == (Failed(e), d.rest))
    decreases |buffer|
  {
    if Look(max, buffer).0.Message? {
      DrainLeaves(max, Look(max, buffer).1);
    }
  }

  /** Nothing is lost or made up: the frames of the messages and the rest are the buffer. */
  lemma {:induction false} DrainConserves(max: nat, buffer: Bytes)
    requires max < LengthLimit()
    ensures var d := Drain(max, buffer);
            Frames(d.messages) + d.rest == buffer && forall p | p in d.messages :: 1 <= |p| <= max
    decreases |buffer|
  {
    var d := Drain(max, buffer);
    match Look(max, buffer)
    case (NeedMore, _) =>
    case (Failed(_), _) =>
    case (Message(p), rest) =>
      LookFindsFrames(max, buffer, p, rest);
      DrainConserves(max, rest);
      assert d.messages[1..] == Drain(max, rest).messages;
      assert Frame(p) + (Frames(d.messages[1..]) + d.rest) == Frame(p) + Frames(d.messages[1..]) + d.rest;
  }

  ghost predicate Fit(max: nat, payloads: seq<Bytes>) {
    forall p | p in payloads :: 1 <= |p| <= max
  }

  lemma DrainOne(max: nat, p: Bytes, rest: Bytes)
    requires 1 <= |p| <= max < LengthLimit()
    ensures var d := Drain(max, rest);
            Drain(max, Frame(p) + rest) == Drained([p] + d.messages, d.rest, d.error)
  {
    LookFindsFrames(max, Frame(p) + rest, p, rest);
  }

  lemma {:induction false} DrainAfterFrames(max: nat, payloads: seq<Bytes>, tail: Bytes)
    requires max < LengthLimit() && Fit(max, payloads)
    ensures var d := Drain(max, tail);
            Drain(max, Frames(payloads) + tail) == Drained(payloads + d.messages, d.rest, d.error)
  {
    var d := Drain(max, tail);
    if payloads == [] {
      assert Frames(payloads) + tail == tail && payloads + d.messages == d.messages;
    } else {
      var p, more := payloads[0], payloads[1..];
      DrainAfterFrames(max, more, tail);
      DrainOne(max, p, Frames(more) + tail);
      Assoc(Frame(p), Frames(more), tail);
      Assoc([p], more, d.messages);
      assert [p] + more == payloads;
    }
  }

  /** Stream round trip. */
  lemma StreamRoundTrip(max: nat, payloads: seq<Bytes>)
    requires max < LengthLimit() && Fit(max, payloads)
    ensures Drain(max, Frames(payloads)) == Drained(payloads, [], None)
  {
    DrainAfterFrames(max, payloads, []);
    assert Frames(payloads) + [] == Frames(payloads);
  }

  /** A stream cut anywhere yields a prefix of its messages and never an error. */
  lemma CutStream(max: nat, payloads: seq<Bytes>, n: nat)
    requires max < LengthLimit() && Fit(max, payloads) && n <= |Frames(payloads)|
    ensures var d := Drain(max, Frames(payloads)[..n]);
            d.error.None? && d.messages <= payloads && Frames(d.messages) + d.rest == Frames(payloads)[..n]
  {
    var all := Frames(payloads);
    assert all[..n] + all[n..] == all;
    StreamRoundTrip(max, payloads);
    DrainInTwo(max, all[..n], all[n..]);
    DrainConserves(max, all[..n]);
  }

  /**
   A single payload survives exactly when it is non-empty and within the limit. The encoder
   alone does not see to this: it lets an empty payload through, and one of 2^32 bytes or
   more whose length, cut to 32 bits, is small enough.
   */
  lemma OneMessageSurvives(max: nat, payload: Bytes)
    requires max < LengthLimit()
    ensures Accepts(max, payload) && Drain(max, Frame(payload)) == Drained([payload], [], None) <==> 1 <= |payload| <= max
  {
    ReadBack(|payload|, LENGTH_SIZE);
    assert Frame(payload)[..LENGTH_SIZE] == ToLe(|payload|, LENGTH_SIZE);
    if 1 <= |payload| <= max {
      StreamRoundTrip(max, [payload]);
      assert Frames([payload]) == Frame(payload) + [];
      assert Frame(payload) + [] == Frame(payload);
    } else if Drain(max, Frame(payload)) == Drained([payload], [], None) {
      DrainConserves(max, Frame(payload));
      assert payload in [payload];
    }
  }

  /** The encoder's own test. */
  predicate Accepts(max: nat, payload: Bytes) {
    |payload| % LengthLimit() <= max
  }

  lemma FitIsAccepted(max: nat, payload: Bytes)
    requires |payload| <= max < LengthLimit()
    ensures Accepts(max, payload)
  {
  }

  /** The encoder takes an empty message that the decoder then refuses. */
  lemma EmptyMessageIsRefused(max: nat)
    ensures Accepts(max, []) && Drain(max, Frame([])) == Drained([], Frame([]), Some(EmptyRequest))
  {
    ReadBack(0, LENGTH_SIZE);
    assert Frame([])[..LENGTH_SIZE] == ToLe(0, LENGTH_SIZE);
  }

  // ---- chunks ----

  function Concat(chunks: seq<Bytes>): Bytes {
    if chunks == [] then [] else Concat(chunks[..|chunks| - 1]) + chunks[|chunks| - 1]
  }

  /** Chunks follow each other, and so do frames. */
  lemma {:induction false} InOrder(xs: seq<Bytes>, ys: seq<Bytes>)
    ensures Concat(xs + ys) == Concat(xs) + Concat(ys) && forall x :: Concat([x]) == x
    ensures Frames(xs + ys) == Frames(xs) + Frames(ys) && forall x :: Frames([x]) == Frame(x)
  {
    forall x ensures Concat([x]) == x && Frames([x]) == Frame(x) {
      assert [x][..0] == [] && Concat([]) + x == x && Frame(x) + Frames([]) == Frame(x);
    }
    ConcatInOrder(xs, ys);
    FramesInOrder(xs, ys);
  }

  lemma {:induction false} ConcatInOrder(xs: seq<Bytes>, ys: seq<Bytes>)
    ensures Concat(xs + ys) == Concat(xs) + Concat(ys)
    decreases |ys|
  {
    if ys == [] {
      assert xs + ys == xs;
    } else {
      var front, last := ys[..|ys| - 1], ys[|ys| - 1];
      ConcatInOrder(xs, front);
      assert (xs + ys)[..|xs + ys| - 1] == xs + front;
      Assoc(Concat(xs), Concat(front), last);
    }
  }

  lemma {:induction false} FramesInOrder(xs: seq<Bytes>, ys: seq<Bytes>)
    ensures Frames(xs + ys) == Frames(xs) + Frames(ys)
    decreases |xs|
  {
    if xs == [] {
      assert xs + ys == ys;
    } else {
      FramesInOrder(xs[1..], ys);
      assert (xs + ys)[1..] == xs[1..] + ys;
      Assoc(Frame(xs[0]), Frames(xs[1..]), Frames(ys));
    }
  }

  lemma DrainStep(max: nat, buffer: Bytes)
    ensures var found := Look(max, buffer);
            if found.0.Message? then
              var d := Drain(max, found.1);
              |found.1| < |buffer| && Drain(max, buffer) == Drained([found.0.payload] + d.messages, d.rest, d.error)
            else
              found.1 == buffer && Drain(max, buffer) == Drained([], buffer, if found.0.Failed? then Some(found.0.error) else None)
  {
  }

  // ---- the buffer and the codec ----

  class Buffer {
    var bytes: Bytes

    constructor ()
      ensures bytes == []
    {
      bytes := [];
    }

    method Extend(more: Bytes)
      modifies this
      ensures bytes == old(bytes) + more
    {
      bytes := bytes + more;
    }

    method Advance(n: nat)
      requires n <= |bytes|
      modifies this
      ensures bytes == old(bytes)[n..]
    {
      bytes := bytes[n..];
    }

    method SplitTo(n: nat) returns (front: Bytes)
      requires n <= |bytes|
      modifies this
      ensures front == old(bytes)[..n] && bytes == old(bytes)[n..]
    {
      front := bytes[..n];
      bytes := bytes[n..];
    }
  }

  class Codec {
    const max: nat

    constructor (max: nat)
      requires max < LengthLimit()
      ensures this.max == max
    {
      this.max := max;
    }

    method Encode(item: Bytes, dst: Buffer) returns (error: Option<Error>)
      modifies dst
      ensures error.None? <==> |item| % 0x1_0000_0000 <= max
      ensures error.None? ==> dst.bytes == old(dst.bytes) + Frame(item)
      ensures error.Some? ==> error.value == RequestTooLarge(max, |item| % LengthLimit()) && dst.bytes == old(dst.bytes)
    {
      var length := |item| % LengthLimit();
      if length > max {
        return Some(RequestTooLarge(max, length));
      }
      CutLength(|item|);
      dst.Extend(ToLe(length, LENGTH_SIZE) + item);
      return None;
    }

    /** Consumes a whole frame or nothing. */
    method Decode(src: Buffer) returns (outcome: Outcome)
      modifies src
      ensures (outcome, src.bytes) == Look(max, old(src.bytes))
    {
      if |src.bytes| < LENGTH_SIZE {
        return NeedMore;
      }
      var length := FromLe(src.bytes[..LENGTH_SIZE]);
      if length == 0 {
        return Failed(EmptyRequest);
      }
      var full := |src.bytes[LENGTH_SIZE..]| >= length;
      if length > max {
        return Failed(RequestTooLarge(max, length));
      }
      if !full {
        return NeedMore;
      }
      ghost var was := src.bytes;
      assert was[LENGTH_SIZE..][..length] == was[LENGTH_SIZE..LENGTH_SIZE + length];
      assert was[LENGTH_SIZE..][length..] == was[LENGTH_SIZE + length..];
      src.Advance(LENGTH_SIZE);
      var payload := src.SplitTo(length);
      outcome := Message(payload);
    }

    /** Decodes until the buffer needs more bytes or fails. */
    method DrainBuffer(src: Buffer) returns (messages: seq<Bytes>, error: Option<Error>)
      modifies src
      ensures Drained(messages, src.bytes, error) == Drain(max, old(src.bytes))
    {
      hide Look, Drain;
      messages, error := [], None;
      assert messages + Drain(max, src.bytes).messages == Drain(max, src.bytes).messages;
      while true
        invariant error.None?
        invariant var d := Drain(max, src.bytes);
                  Drain(max, old(src.bytes)) == Drained(messages + d.messages, d.rest, d.error)
        decreases |src.bytes|
      {
        DrainStep(max, src.bytes);
        assert messages + [] == messages;
        var outcome := Decode(src);
        match outcome {
          case NeedMore => return;
          case Failed(e) => return messages, Some(e);
          case Message(p) =>
            Assoc(messages, [p], Drain(max, src.bytes).messages);
            messages := messages + [p];
        }
      }
    }

    /**
     Receives a stream in chunks and drains after each: whatever the cuts, the messages,
     the buffer and the error are those of the whole stream drained once.
     */
    method Receive(chunks: seq<Bytes>) returns (messages: seq<Bytes>, rest: Bytes, error: Option<Error>)
      ensures Drained(messages, rest, error) == Drain(max, Concat(chunks))
      ensures error.None? ==> |rest| < max + LENGTH_SIZE
    {
      DrainLeaves(max, Concat(chunks));
      var buffer := new Buffer();
      messages, error := [], None;
      for i := 0 to |chunks|
        invariant fresh(buffer) && Drained(messages, buffer.bytes, error) == Drain(max, Concat(chunks[..i]))
      {
        assert chunks[..i + 1][..i] == chunks[..i];
        DrainInTwo(max, Concat(chunks[..i]), chunks[i]);
        buffer.Extend(chunks[i]);
        var more;
        more, error := DrainBuffer(buffer);
        messages := messages + more;
      }
      assert chunks[..|chunks|] == chunks;
      rest := buffer.bytes;
    }

    /** Appends the frames of the messages, one after the other. */
    method EncodeAll(payloads: seq<Bytes>, dst: Buffer)
      requires Fit(max, payloads) && max < LengthLimit()
      modifies dst
      ensures dst.bytes == old(dst.bytes) + Frames(payloads)
    {
      assert old(dst.bytes) + Frames([]) == old(dst.bytes);
      hide Frame, Frames, Accepts, LengthLimit;
      for i := 0 to |payloads|
        invariant dst.bytes == old(dst.bytes) + Frames(payloads[..i])
      {
        assert payloads[i] in payloads;
        FitIsAccepted(max, payloads[i]);
        var e := Encode(payloads[i], dst);
        FramesSnoc(payloads[..i], payloads[i]);
        Assoc(old(dst.bytes), Frames(payloads[..i]), Frame(payloads[i]));
        assert payloads[..i] + [payloads[i]] == payloads[..i + 1];
      }
      assert payloads[..|payloads|] == payloads;
    }
  }

  lemma FramesSnoc(payloads: seq<Bytes>, p: Bytes)
    ensures Frames(payloads + [p]) == Frames(payloads) + Frame(p)
  {
    InOrder(payloads, [p]);
  }

  /** Only the low 32 bits of a length are written. */
  lemma CutLength(n: nat)
    ensures ToLe(n % LengthLimit(), LENGTH_SIZE) == ToLe(n, LENGTH_SIZE)
  {
    ReadBack(n, LENGTH_SIZE);
    WriteBack(ToLe(n, LENGTH_SIZE));
  }
}
