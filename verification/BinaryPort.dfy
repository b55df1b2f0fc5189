/**
 The binary port end to end: a client's commands, framed and cut into chunks by the
 network, and what the node makes of them (node/src/components/binary_port.rs).
 */
module BinaryPort {
  import opened Bytes
  import opened LE = LittleEndian
  import opened Wire
  import opened WireIdentifiers
  import opened WireRequests
  import MC = MessageCodec

  datatype ErrorCode =
    | TooLittleBytesForRequestHeaderVersion
    | CommandHeaderVersionMismatch
    | MalformedCommandHeader
    | UnsupportedRequest
    | MalformedCommand

  datatype Reception = Accepted(id: U16, command: Command) | Refused(code: ErrorCode)

  const HEADER_VERSION: U16 := 1

  function TagByte(t: CommandTag): byte {
    match t
    case GetTag => 0
    case TryAcceptTag => 1
    case TrySpeculativeTag => 2
  }

  function PayloadOf(id: U16, c: Command, body: Bytes): Bytes {
    HeaderBytes(CommandHeader(HEADER_VERSION, TagByte(Tag(c)), id)) + body
  }

  /** The payload a client builds for one request. */
  function Payload(id: U16, c: Command): (bs: Bytes)
    ensures |bs| == 5 + CommandSize(c)
  {
    PayloadOf(id, c, CommandBytes(c))
  }

  /** What the node does with a payload, up to handing the command on. */
  function Receive(g: Grammar, payload: Bytes): Reception {
    if |payload| < 2 then Refused(TooLittleBytesForRequestHeaderVersion)
    else if ReadU16(payload).value != HEADER_VERSION then Refused(CommandHeaderVersionMismatch)
    else
      match ReadHeader(payload)
      case Err(_) => Refused(MalformedCommandHeader)
      case Ok(header, body) =>
        if header.typeTag > 2 then Refused(UnsupportedRequest)
        else
          var tag := if header.typeTag == 0 then GetTag else if header.typeTag == 1 then TryAcceptTag else TrySpeculativeTag;
          match TryFrom(g, tag, body)
          case Err(_) => Refused(MalformedCommand)
          case Ok(c, _) => Accepted(header.id, c)
  }

  lemma HeaderReads(h: CommandHeader, body: Bytes)
    ensures ReadHeader(HeaderBytes(h) + body) == Ok(h, body)
  {
    U32Limit();
    Assoc(ToLe(h.version, 2), [h.typeTag] + ToLe(h.id, 2), body);
    IntReads(h.version, 2, [h.typeTag] + ToLe(h.id, 2) + body);
    TagReads(h.typeTag, ToLe(h.id, 2), body);
    IntReads(h.id, 2, body);
  }

  lemma HeaderExact(s: Bytes)
    requires ReadHeader(s).Ok?
    ensures HeaderBytes(ReadHeader(s).value) + ReadHeader(s).rest == s
  {
    var v := ReadU16(s);
    var t := U8(v.rest);
    var p := ReadHeader(s);
    IntExact(2, s);
    IntExact(2, t.rest);
    Assoc(ToLe(v.value, 2), [t.value] + ToLe(p.value.id, 2), p.rest);
    Assoc([t.value], ToLe(p.value.id, 2), p.rest);
  }

  /** A header for the command, then bytes that spell it. */
  ghost predicate SpellsPayload(g: Grammar, payload: Bytes, id: U16, c: Command) {
    exists body :: SpellsCommand(g, body, c) && payload == PayloadOf(id, c, body)
  }

  /** The node accepts a payload as a command exactly when it has its header and spells it. */
  lemma ReceiveIsExact(g: Grammar, payload: Bytes, id: U16, c: Command)
    requires Delimiting(g)
    ensures Receive(g, payload) == Accepted(id, c) <==> SpellsPayload(g, payload, id, c)
  {
    if Receive(g, payload) == Accepted(id, c) {
      var h := ReadHeader(payload);
      HeaderExact(payload);
      var tag := if h.value.typeTag == 0 then GetTag else if h.value.typeTag == 1 then TryAcceptTag else TrySpeculativeTag;
      CommandIsExact(g, tag, h.rest, c);
      assert payload == PayloadOf(id, c, h.rest);
    }
    if SpellsPayload(g, payload, id, c) {
      var body :| SpellsCommand(g, body, c) && payload == PayloadOf(id, c, body);
      HeaderReads(CommandHeader(HEADER_VERSION, TagByte(Tag(c)), id), body);
      CommandIsExact(g, Tag(c), body, c);
    }
  }

  lemma HeaderByBytes(s: Bytes)
    ensures |s| >= 2 ==> ReadU16(s) == Ok(s[0] as nat + 256 * s[1] as nat, s[2..])
    ensures |s| < 5 ==> ReadHeader(s).Err?
    ensures |s| >= 5 ==>
              ReadHeader(s) == Ok(CommandHeader(s[0] as nat + 256 * s[1] as nat, s[2], s[3] as nat + 256 * s[4] as nat), s[5..])
  {
    if |s| >= 2 {
      LE.ReadsAs(s[..2]);
    }
    if |s| >= 5 {
      assert s[2..][1..] == s[3..] && s[3..][..2] == [s[3], s[4]] && s[3..][2..] == s[5..];
      LE.ReadsAs([s[3], s[4]]);
    }
  }

  /**
   From the bytes alone: a payload is accepted as a command under an id exactly when it
   starts with version one, the number of that kind of command and the id, lowest byte
   first, and what follows spells the command.
   */
  lemma AcceptedByBytes(g: Grammar, p: Bytes, id: U16, c: Command)
    requires Delimiting(g)
    ensures Receive(g, p) == Accepted(id, c) <==>
            |p| >= 5 && p[0] == 1 && p[1] == 0 && p[2] == (if c.Get? then 0 else if c.TryAccept? then 1 else 2) &&
            id == p[3] as nat + 256 * p[4] as nat && SpellsCommand(g, p[5..], c)
  {
    hide SpellsCommand, TryFrom, Delimiting;
    HeaderByBytes(p);
    if |p| >= 5 && p[2] <= 2 {
      CommandIsExact(g, if p[2] == 0 then GetTag else if p[2] == 1 then TryAcceptTag else TrySpeculativeTag, p[5..], c);
      TryFromTakesAll(g, if p[2] == 0 then GetTag else if p[2] == 1 then TryAcceptTag else TrySpeculativeTag, p[5..]);
    }
  }

  lemma TryFromTakesAll(g: Grammar, tag: CommandTag, s: Bytes)
    ensures TryFrom(g, tag, s).Ok? ==> TryFrom(g, tag, s).rest == [] && Tag(TryFrom(g, tag, s).value) == tag
  {
  }

  /** And the condition on the bytes behind each refusal. */
  lemma RefusedByBytes(g: Grammar, p: Bytes)
    requires Delimiting(g)
    ensures Receive(g, p) == Refused(TooLittleBytesForRequestHeaderVersion) <==> |p| < 2
    ensures Receive(g, p) == Refused(CommandHeaderVersionMismatch) <==> |p| >= 2 && !(p[0] == 1 && p[1] == 0)
    ensures Receive(g, p) == Refused(MalformedCommandHeader) <==> 2 <= |p| < 5 && p[0] == 1 && p[1] == 0
    ensures Receive(g, p) == Refused(UnsupportedRequest) <==> |p| >= 5 && p[0] == 1 && p[1] == 0 && p[2] > 2
    ensures Receive(g, p) == Refused(MalformedCommand) <==>
            |p| >= 5 && p[0] == 1 && p[1] == 0 && p[2] <= 2 &&
            forall c: Command | p[2] == (if c.Get? then 0 else if c.TryAccept? then 1 else 2) :: !SpellsCommand(g, p[5..], c)
  {
    hide SpellsCommand, TryFrom, Delimiting;
    HeaderByBytes(p);
    if |p| >= 5 && p[2] <= 2 {
      var tag := if p[2] == 0 then GetTag else if p[2] == 1 then TryAcceptTag else TrySpeculativeTag;
      TryFromTakesAll(g, tag, p[5..]);
      forall c: Command ensures TryFrom(g, tag, p[5..]) == Ok(c, []) <==> tag == Tag(c) && SpellsCommand(g, p[5..], c) {
        CommandIsExact(g, tag, p[5..], c);
      }
    }
  }

  lemma PayloadIsReceived(g: Grammar, id: U16, c: Command)
    requires ValidCommand(g, c)
    ensures Receive(g, Payload(id, c)) == Accepted(id, c)
  {
    HeaderReads(CommandHeader(HEADER_VERSION, TagByte(Tag(c)), id), CommandBytes(c));
    CommandRoundTrip(g, c);
  }

  function Payloads(requests: seq<(U16, Command)>): (ps: seq<Bytes>)
    ensures |ps| == |requests|
    ensures forall i | 0 <= i < |ps| :: ps[i] == Payload(requests[i].0, requests[i].1)
  {
    seq(|requests|, i requires 0 <= i < |requests| => Payload(requests[i].0, requests[i].1))
  }

  ghost predicate Sendable(g: Grammar, max: nat, requests: seq<(U16, Command)>) {
    forall r | r in requests :: ValidCommand(g, r.1) && 5 + CommandSize(r.1) <= max
  }

  lemma PayloadsFit(g: Grammar, max: nat, requests: seq<(U16, Command)>)
    requires Sendable(g, max, requests)
    ensures MC.Fit(max, Payloads(requests))
  {
    var ps := Payloads(requests);
    forall p | p in ps ensures 1 <= |p| <= max {
      var i :| 0 <= i < |ps| && ps[i] == p;
      assert requests[i] in requests;
    }
  }

  /** The node's side of a connection: each message that comes out of the codec is received. */
  method Serve(g: Grammar, codec: MC.Codec, chunks: seq<Bytes>)
    returns (received: seq<Reception>, rest: Bytes, error: Option<MC.Error>)
    ensures var d := MC.Drain(codec.max, MC.Concat(chunks));
            |received| == |d.messages| && rest == d.rest && error == d.error &&
            forall i | 0 <= i < |received| :: received[i] == Receive(g, d.messages[i])
  {
    var messages;
    messages, rest, error := codec.Receive(chunks);
    received := [];
    for i := 0 to |messages|
      invariant |received| == i && forall j | 0 <= j < i :: received[j] == Receive(g, messages[j])
    {
      received := received + [Receive(g, messages[i])];
    }
  }

  /** Any requests, however their bytes are cut on the way, are the commands the node gets. */
  method RequestsSurviveTheStream(g: Grammar, codec: MC.Codec, ghost requests: seq<(U16, Command)>, chunks: seq<Bytes>)
    returns (received: seq<Reception>, rest: Bytes, error: Option<MC.Error>)
    requires codec.max < MC.LengthLimit() && Sendable(g, codec.max, requests)
    requires MC.Concat(chunks) == MC.Frames(Payloads(requests))
    ensures |received| == |requests| && rest == [] && error.None?
    ensures forall i | 0 <= i < |requests| :: received[i] == Accepted(requests[i].0, requests[i].1)
  {
    PayloadsFit(g, codec.max, requests);
    MC.StreamRoundTrip(codec.max, Payloads(requests));
    received, rest, error := Serve(g, codec, chunks);
    forall i | 0 <= i < |requests| ensures Receive(g, Payloads(requests)[i]) == Accepted(requests[i].0, requests[i].1) {
      assert requests[i] in requests;
      PayloadIsReceived(g, requests[i].0, requests[i].1);
    }
  }
}
