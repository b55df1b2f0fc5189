/**
 Information requests (binary_port/src/information_request.rs), whose tag travels outside
 their bytes, and their path through a get request and back.
 */
module WireInformation {
  import opened Bytes
  import opened LittleEndian
  import opened Wire
  import opened WireIdentifiers
  import opened WireRequests

  datatype InfoTag =
    | BlockHeaderTag | BlockWithSignaturesTag | TransactionTag | PeersTag | UptimeTag | LastProgressTag
    | ReactorStateTag | NetworkNameTag | ConsensusValidatorChangesTag | BlockSynchronizerStatusTag
    | AvailableBlockRangeTag | NextUpgradeTag | ConsensusStatusTag | ChainspecRawBytesTag | NodeStatusTag
    | LatestSwitchBlockHeaderTag | RewardTag | ProtocolVersionTag | PackageTag | EntityInfoTag

  datatype InformationRequest =
    | BlockHeader(block: Option<Opaque>)
    | BlockWithSignatures(block: Option<Opaque>)
    | TransactionInfo(hash: Opaque, withFinalizedApprovals: bool)
    | Peers | Uptime | LastProgress | ReactorState | NetworkName | ConsensusValidatorChanges
    | BlockSynchronizerStatus | AvailableBlockRange | NextUpgrade | ConsensusStatus | ChainspecRawBytes
    | NodeStatus | LatestSwitchBlockHeader
    | Reward(era: Option<EraIdentifier>, validator: Opaque, delegator: Option<Opaque>)
    | ProtocolVersion
    | Package(stateIdentifier: Option<Opaque>, package: PackageIdentifier)
    | EntityInfo(stateIdentifier: Option<Opaque>, entity: EntityIdentifier, includeBytecode: bool)

  function TagOf(r: InformationRequest): InfoTag {
    match r
    case BlockHeader(_) => BlockHeaderTag
    case BlockWithSignatures(_) => BlockWithSignaturesTag
    case TransactionInfo(_, _) => TransactionTag
    case Peers => PeersTag
    case Uptime => UptimeTag
    case LastProgress => LastProgressTag
    case ReactorState => ReactorStateTag
    case NetworkName => NetworkNameTag
    case ConsensusValidatorChanges => ConsensusValidatorChangesTag
    case BlockSynchronizerStatus => BlockSynchronizerStatusTag
    case AvailableBlockRange => AvailableBlockRangeTag
    case NextUpgrade => NextUpgradeTag
    case ConsensusStatus => ConsensusStatusTag
    case ChainspecRawBytes => ChainspecRawBytesTag
    case NodeStatus => NodeStatusTag
    case LatestSwitchBlockHeader => LatestSwitchBlockHeaderTag
    case Reward(_, _, _) => RewardTag
    case ProtocolVersion => ProtocolVersionTag
    case Package(_, _) => PackageTag
    case EntityInfo(_, _, _) => EntityInfoTag
  }

  function TagNumber(t: InfoTag): (n: U16)
    ensures TagOfNumber(n) == Some(t)
  {
    match t
    case BlockHeaderTag => 0
    case BlockWithSignaturesTag => 1
    case TransactionTag => 2
    case PeersTag => 3
    case UptimeTag => 4
    case LastProgressTag => 5
    case ReactorStateTag => 6
    case NetworkNameTag => 7
    case ConsensusValidatorChangesTag => 8
    case BlockSynchronizerStatusTag => 9
    case AvailableBlockRangeTag => 10
    case NextUpgradeTag => 11
    case ConsensusStatusTag => 12
    case ChainspecRawBytesTag => 13
    case NodeStatusTag => 14
    case LatestSwitchBlockHeaderTag => 15
    case RewardTag => 16
    case ProtocolVersionTag => 17
    case PackageTag => 18
    case EntityInfoTag => 19
  }

  function TagOfNumber(n: U16): Option<InfoTag> {
    match n
    case 0 => Some(BlockHeaderTag)
    case 1 => Some(BlockWithSignaturesTag)
    case 2 => Some(TransactionTag)
    case 3 => Some(PeersTag)
    case 4 => Some(UptimeTag)
    case 5 => Some(LastProgressTag)
    case 6 => Some(ReactorStateTag)
    case 7 => Some(NetworkNameTag)
    case 8 => Some(ConsensusValidatorChangesTag)
    case 9 => Some(BlockSynchronizerStatusTag)
    case 10 => Some(AvailableBlockRangeTag)
    case 11 => Some(NextUpgradeTag)
    case 12 => Some(ConsensusStatusTag)
    case 13 => Some(ChainspecRawBytesTag)
    case 14 => Some(NodeStatusTag)
    case 15 => Some(LatestSwitchBlockHeaderTag)
    case 16 => Some(RewardTag)
    case 17 => Some(ProtocolVersionTag)
    case 18 => Some(PackageTag)
    case 19 => Some(EntityInfoTag)
    case _ => None
  }

  function OptionalEraBytes(o: Option<EraIdentifier>): Bytes {
    OptionBytes(o, EraBytes)
  }

  function OptionalEra(g: Grammar, s: Bytes): Parsed<Option<EraIdentifier>> {
    OptionOf(r => ReadEra(g, r), s)
  }

  function InfoSize(r: InformationRequest): nat {
    match r
    case BlockHeader(b) => OptionSize(b)
    case BlockWithSignatures(b) => OptionSize(b)
    case TransactionInfo(h, _) => |h| + 1
    case Reward(e, v, d) => 1 + (if e.Some? then EraSize(e.value) else 0) + |v| + OptionSize(d)
    case Package(i, _) => OptionSize(i) + (1 + 32)
    case EntityInfo(i, e, _) => OptionSize(i) + EntityIdSize(e) + 1
    case _ => 0
  }

  function InfoBytes(r: InformationRequest): (bs: Bytes)
    ensures |bs| == InfoSize(r)
  {
    match r
    case BlockHeader(b) => OptionalOpaqueBytes(b)
    case BlockWithSignatures(b) => OptionalOpaqueBytes(b)
    case TransactionInfo(h, a) => h + BoolBytes(a)
    case Reward(e, v, d) => OptionalEraBytes(e) + (v + OptionalOpaqueBytes(d))
    case Package(i, p) => OptionalOpaqueBytes(i) + PackageBytes(p)
    case EntityInfo(i, e, b) => OptionalOpaqueBytes(i) + (EntityIdBytes(e) + BoolBytes(b))
    case _ => []
  }

  function ReadInfo(g: Grammar, tag: InfoTag, s: Bytes): Parsed<InformationRequest> {
    match tag
    case BlockHeaderTag => var (b, rest) :- OptionalOpaque(g, BlockIdentifierKind, s); Ok(BlockHeader(b), rest)
    case BlockWithSignaturesTag => var (b, rest) :- OptionalOpaque(g, BlockIdentifierKind, s); Ok(BlockWithSignatures(b), rest)
    case TransactionTag =>
      var (h, rest) :- g.read(TransactionHashKind, s);
      var (a, rest) :- Bool(rest);
      Ok(TransactionInfo(h, a), rest)
    case PeersTag => Ok(Peers, s)
    case UptimeTag => Ok(Uptime, s)
    case LastProgressTag => Ok(LastProgress, s)
    case ReactorStateTag => Ok(ReactorState, s)
    case NetworkNameTag => Ok(NetworkName, s)
    case ConsensusValidatorChangesTag => Ok(ConsensusValidatorChanges, s)
    case BlockSynchronizerStatusTag => Ok(BlockSynchronizerStatus, s)
    case AvailableBlockRangeTag => Ok(AvailableBlockRange, s)
    case NextUpgradeTag => Ok(NextUpgrade, s)
    case ConsensusStatusTag => Ok(ConsensusStatus, s)
    case ChainspecRawBytesTag => Ok(ChainspecRawBytes, s)
    case NodeStatusTag => Ok(NodeStatus, s)
    case LatestSwitchBlockHeaderTag => Ok(LatestSwitchBlockHeader, s)
    case RewardTag =>
      var (e, rest) :- OptionalEra(g, s);
      var (v, rest) :- g.read(PublicKeyKind, rest);
      var (d, rest) :- OptionalOpaque(g, DelegatorKind, rest);
      Ok(Reward(e, v, d), rest)
    case ProtocolVersionTag => Ok(ProtocolVersion, s)
    case PackageTag =>
      var (i, rest) :- OptionalOpaque(g, StateIdentifierKind, s);
      var (p, rest) :- ReadPackage(rest);
      Ok(Package(i, p), rest)
    case EntityInfoTag =>
      var (i, rest) :- OptionalOpaque(g, StateIdentifierKind, s);
      var (e, rest) :- ReadEntityId(g, rest);
      var (b, rest) :- Bool(rest);
      Ok(EntityInfo(i, e, b), rest)
  }

  function InfoTryFrom(g: Grammar, tag: InfoTag, s: Bytes): Parsed<InformationRequest> {
    var (r, rest) :- ReadInfo(g, tag, s);
    if rest == [] then Ok(r, []) else Err(LeftOverBytes)
  }

  /** `r` is `i` with its opaque leaves spelled in some way. */
  ghost predicate MeansInfo(g: Grammar, r: InformationRequest, i: InformationRequest) {
    match i
    case BlockHeader(b) => r.BlockHeader? && MeansOption(g, BlockIdentifierKind, r.block, b)
    case BlockWithSignatures(b) => r.BlockWithSignatures? && MeansOption(g, BlockIdentifierKind, r.block, b)
    case TransactionInfo(h, a) =>
      r.TransactionInfo? && r.withFinalizedApprovals == a && Spells(g, TransactionHashKind, r.hash, h)
    case Reward(e, v, d) =>
      r.Reward? && MeansOptionalEra(g, r.era, e) && Spells(g, PublicKeyKind, r.validator, v) && MeansOption(g, DelegatorKind, r.delegator, d)
    case Package(id, p) => r.Package? && r.package == p && MeansOption(g, StateIdentifierKind, r.stateIdentifier, id)
    case EntityInfo(id, e, b) =>
      r.EntityInfo? && r.includeBytecode == b && MeansOption(g, StateIdentifierKind, r.stateIdentifier, id) && MeansEntityId(g, r.entity, e)
    case _ => r == i
  }

  ghost predicate MeansOptionalEra(g: Grammar, r: Option<EraIdentifier>, e: Option<EraIdentifier>) {
    r.Some? == e.Some? && (e.Some? ==> MeansEra(g, r.value, e.value))
  }

  /** The round-trip law holds of every leaf. */
  ghost predicate ValidInfo(g: Grammar, i: InformationRequest) {
    MeansInfo(g, i, i)
  }

  /** The bytes are the layout of the request around some spellings of its leaves. */
  ghost predicate SpellsInfo(g: Grammar, s: Bytes, i: InformationRequest) {
    exists r :: MeansInfo(g, r, i) && s == InfoBytes(r)
  }

  lemma OptionalEraReads(g: Grammar, r: Option<EraIdentifier>, e: Option<EraIdentifier>, rest: Bytes)
    requires MeansOptionalEra(g, r, e)
    ensures OptionalEra(g, OptionalEraBytes(r) + rest) == Ok(e, rest)
  {
    if e.Some? {
      TagReads(1, EraBytes(r.value), rest);
      EraReads(g, r.value, e.value, rest);
    }
  }

  ghost predicate ReadsAs(g: Grammar, r: InformationRequest, i: InformationRequest, rest: Bytes) {
    ReadInfo(g, TagOf(i), InfoBytes(r) + rest) == Ok(i, rest)
  }

  lemma RewardReads(g: Grammar, r: InformationRequest, i: InformationRequest, rest: Bytes)
    requires MeansInfo(g, r, i) && i.Reward?
    ensures ReadsAs(g, r, i, rest)
  {
    var head, tail := OptionalEraBytes(r.era), OptionalOpaqueBytes(r.delegator);
    Assoc(head, r.validator + tail, rest);
    Assoc(r.validator, tail, rest);
    OptionalEraReads(g, r.era, i.era, r.validator + (tail + rest));
    OptionReads(g, DelegatorKind, r.delegator, i.delegator, rest);
  }

  lemma PackageInfoReads(g: Grammar, r: InformationRequest, i: InformationRequest, rest: Bytes)
    requires MeansInfo(g, r, i) && i.Package?
    ensures ReadsAs(g, r, i, rest)
  {
    Assoc(OptionalOpaqueBytes(r.stateIdentifier), PackageBytes(r.package), rest);
    OptionReads(g, StateIdentifierKind, r.stateIdentifier, i.stateIdentifier, PackageBytes(r.package) + rest);
    PackageReads(r.package, rest);
  }

  lemma EntityInfoReads(g: Grammar, r: InformationRequest, i: InformationRequest, rest: Bytes)
    requires MeansInfo(g, r, i) && i.EntityInfo?
    ensures ReadsAs(g, r, i, rest)
  {
    var head, body, last := OptionalOpaqueBytes(r.stateIdentifier), EntityIdBytes(r.entity), BoolBytes(r.includeBytecode);
    Assoc(head, body + last, rest);
    Assoc(body, last, rest);
    OptionReads(g, StateIdentifierKind, r.stateIdentifier, i.stateIdentifier, body + (last + rest));
    EntityIdReads(g, r.entity, i.entity, last + rest);
  }

  /** Every information request is self-delimiting once its tag is known. */
  lemma InfoReads(g: Grammar, r: InformationRequest, i: InformationRequest, rest: Bytes)
    requires MeansInfo(g, r, i)
    ensures ReadInfo(g, TagOf(i), InfoBytes(r) + rest) == Ok(i, rest)
  {
    if i.Reward? {
      RewardReads(g, r, i, rest);
    } else if i.Package? {
      PackageInfoReads(g, r, i, rest);
    } else if i.EntityInfo? {
      EntityInfoReads(g, r, i, rest);
    } else if i.BlockHeader? || i.BlockWithSignatures? {
      OptionReads(g, BlockIdentifierKind, r.block, i.block, rest);
    } else if i.TransactionInfo? {
      Assoc(r.hash, BoolBytes(r.withFinalizedApprovals), rest);
    } else {
      assert InfoBytes(r) + rest == rest;
    }
  }

  lemma OptionalEraExact(g: Grammar, s: Bytes) returns (r: Option<EraIdentifier>)
    requires Delimiting(g) && OptionalEra(g, s).Ok?
    ensures var p := OptionalEra(g, s);
            MeansOptionalEra(g, r, p.value) && OptionalEraBytes(r) + p.rest == s
  {
    var p := OptionalEra(g, s);
    r := None;
    if p.value.Some? {
      var e := EraExact(g, s[1..]);
      r := Some(e);
      Assoc([1], EraBytes(e), p.rest);
    }
  }

  /** What was read under the tag has that tag, and was spelled by `r`. */
  ghost predicate InfoWas(g: Grammar, tag: InfoTag, s: Bytes, r: InformationRequest)
    requires ReadInfo(g, tag, s).Ok?
  {
    var p := ReadInfo(g, tag, s);
    MeansInfo(g, r, p.value) && TagOf(p.value) == tag && InfoBytes(r) + p.rest == s
  }

  lemma RewardExact(g: Grammar, s: Bytes) returns (r: InformationRequest)
    requires Delimiting(g) && ReadInfo(g, RewardTag, s).Ok?
    ensures InfoWas(g, RewardTag, s, r)
  {
    hide OptionalEraBytes, OptionalEra, OptionalOpaqueBytes, OptionalOpaque, MeansOptionalEra, MeansOption, Delimiting;
    var era := OptionalEra(g, s);
    var validator := g.read(PublicKeyKind, era.rest);
    var rest := OptionalOpaque(g, DelegatorKind, validator.rest).rest;
    var e := OptionalEraExact(g, s);
    var v := Spelled(g, PublicKeyKind, era.rest);
    var d := OptionExact(g, DelegatorKind, validator.rest);
    Assoc(OptionalEraBytes(e), v + OptionalOpaqueBytes(d), rest);
    Assoc(v, OptionalOpaqueBytes(d), rest);
    r := Reward(e, v, d);
  }

  lemma PackageInfoExact(g: Grammar, s: Bytes) returns (r: InformationRequest)
    requires Delimiting(g) && ReadInfo(g, PackageTag, s).Ok?
    ensures InfoWas(g, PackageTag, s, r)
  {
    var middle := OptionalOpaque(g, StateIdentifierKind, s).rest;
    var p := ReadPackage(middle);
    var id := OptionExact(g, StateIdentifierKind, s);
    PackageExact(middle);
    Assoc(OptionalOpaqueBytes(id), PackageBytes(p.value), p.rest);
    r := Package(id, p.value);
  }

  lemma EntityInfoExact(g: Grammar, s: Bytes) returns (r: InformationRequest)
    requires Delimiting(g) && ReadInfo(g, EntityInfoTag, s).Ok?
    ensures InfoWas(g, EntityInfoTag, s, r)
  {
    hide OptionalOpaqueBytes, OptionalOpaque, MeansOption, EntityIdBytes, ReadEntityId, MeansEntityId, Bool, BoolBytes, Delimiting;
    var middle := OptionalOpaque(g, StateIdentifierKind, s).rest;
    var last := ReadEntityId(g, middle).rest;
    var b := Bool(last);
    var id := OptionExact(g, StateIdentifierKind, s);
    var e := EntityIdExact(g, middle);
    BoolExact(last);
    Assoc(OptionalOpaqueBytes(id), EntityIdBytes(e) + BoolBytes(b.value), b.rest);
    Assoc(EntityIdBytes(e), BoolBytes(b.value), b.rest);
    r := EntityInfo(id, e, b.value);
  }

  lemma TransactionInfoExact(g: Grammar, s: Bytes) returns (r: InformationRequest)
    requires Delimiting(g) && ReadInfo(g, TransactionTag, s).Ok?
    ensures InfoWas(g, TransactionTag, s, r)
  {
    var last := g.read(TransactionHashKind, s).rest;
    var h := Spelled(g, TransactionHashKind, s);
    BoolExact(last);
    Assoc(h, BoolBytes(Bool(last).value), Bool(last).rest);
    r := TransactionInfo(h, Bool(last).value);
  }

  lemma InfoExact(g: Grammar, tag: InfoTag, s: Bytes) returns (r: InformationRequest)
    requires Delimiting(g) && ReadInfo(g, tag, s).Ok?
    ensures InfoWas(g, tag, s, r)
  {
    match tag
    case RewardTag => r := RewardExact(g, s);
    case PackageTag => r := PackageInfoExact(g, s);
    case EntityInfoTag => r := EntityInfoExact(g, s);
    case TransactionTag => r := TransactionInfoExact(g, s);
    case BlockHeaderTag => var b := OptionExact(g, BlockIdentifierKind, s); r := BlockHeader(b);
    case BlockWithSignaturesTag => var b := OptionExact(g, BlockIdentifierKind, s); r := BlockWithSignatures(b);
    case _ => r := ReadInfo(g, tag, s).value; assert [] + s == s;
  }

  /** Bytes are accepted as a request exactly under its tag and when they spell it. */
  lemma InfoIsExact(g: Grammar, tag: InfoTag, s: Bytes, i: InformationRequest)
    requires Delimiting(g)
    ensures InfoTryFrom(g, tag, s) == Ok(i, []) <==> tag == TagOf(i) && SpellsInfo(g, s, i)
  {
    if InfoTryFrom(g, tag, s) == Ok(i, []) {
      var r := InfoExact(g, tag, s);
      assert InfoBytes(r) + [] == InfoBytes(r);
    }
    if tag == TagOf(i) && SpellsInfo(g, s, i) {
      var r :| MeansInfo(g, r, i) && s == InfoBytes(r);
      InfoReads(g, r, i, []);
      assert InfoBytes(r) + [] == InfoBytes(r);
    }
  }

  function AsGet(r: InformationRequest): GetRequest {
    Information(TagNumber(TagOf(r)), InfoBytes(r))
  }

  /**
   The full path: turned into a get request, sent as a command, decoded, its tag looked up
   and its key decoded, every information request is itself again.
   */
  lemma InformationRoundTrip(g: Grammar, r: InformationRequest)
    requires ValidInfo(g, r) && InfoSize(r) < U32_LIMIT
    ensures var got := TryFrom(g, GetTag, CommandBytes(Get(AsGet(r))));
            got.Ok? && got.value.Get? && got.value.request.Information? &&
            TagOfNumber(got.value.request.infoTag) == Some(TagOf(r)) &&
            InfoTryFrom(g, TagOf(r), got.value.request.key) == Ok(r, [])
  {
    CommandRoundTrip(g, Get(AsGet(r)));
    InfoReads(g, r, r, []);
    assert InfoBytes(r) + [] == InfoBytes(r);
  }
}
