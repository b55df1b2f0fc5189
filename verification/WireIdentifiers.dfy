/**
 The tagged identifiers that requests carry (binary_port/src/key_prefix.rs,
 dictionary_item_identifier.rs, purse_identifier.rs, era_identifier.rs and the entity and
 package identifiers of information_request.rs).
 */
module WireIdentifiers {
  import opened Bytes
  import opened LittleEndian
  import opened Wire

  type Hash32 = b: Bytes | |b| == 32 witness seq(32, _ => 0)

  function Hash(s: Bytes): Parsed<Hash32> {
    var (b, rest) :- Fixed(32, s);
    Ok(b, rest)
  }

  lemma HashReads(h: Hash32, rest: Bytes)
    ensures Hash(h + rest) == Ok(h, rest)
  {
    FixedReads(h, rest);
  }

  // ---- entity addresses ----

  datatype EntityAddr = SystemAddr(addr: Hash32) | AccountAddr(addr: Hash32) | ContractAddr(addr: Hash32)

  function EntityTag(e: EntityAddr): byte {
    match e
    case SystemAddr(_) => 0
    case AccountAddr(_) => 1
    case ContractAddr(_) => 2
  }

  function EntityBytes(e: EntityAddr): (r: Bytes)
    ensures |r| == 33
  {
    [EntityTag(e)] + e.addr
  }

  function Entity(s: Bytes): Parsed<EntityAddr> {
    var (tag, rest) :- U8(s);
    if tag > 2 then Err(Formatting)
    else
      var (addr, rest') :- Hash(rest);
      Ok(if tag == 0 then SystemAddr(addr) else if tag == 1 then AccountAddr(addr) else ContractAddr(addr), rest')
  }

  lemma EntityReads(e: EntityAddr, rest: Bytes)
    ensures Entity(EntityBytes(e) + rest) == Ok(e, rest)
  {
    TagReads(EntityTag(e), e.addr, rest);
    HashReads(e.addr, rest);
  }

  lemma EntityExact(s: Bytes)
    requires Entity(s).Ok?
    ensures EntityBytes(Entity(s).value) + Entity(s).rest == s
  {
    var p := Entity(s);
    Assoc([EntityTag(p.value)], p.value.addr, p.rest);
  }

  // ---- key prefixes ----

  const BID_ADDR_TAG: byte := 15
  const MESSAGE_TAG: byte := 19
  const NAMED_KEY_TAG: byte := 20
  const BALANCE_HOLD_TAG: byte := 22
  const ENTRY_POINT_TAG: byte := 23
  const LAST_KEY_TAG: byte := 25
  const DELEGATED_ACCOUNT_TAG: byte := 2
  const GAS_TAG: byte := 0
  const PROCESSING_TAG: byte := 1

  datatype KeyPrefix =
    | DelegatorBidAddrsByValidator(validator: Hash32)
    | MessagesByEntity(entity: EntityAddr)
    | MessagesByEntityAndTopic(entity: EntityAddr, topic: Hash32)
    | NamedKeysByEntity(entity: EntityAddr)
    | GasBalanceHoldsByPurse(purse: Hash32)
    | ProcessingBalanceHoldsByPurse(purse: Hash32)
    | EntryPointsV1ByEntity(entity: EntityAddr)
    | EntryPointsV2ByEntity(entity: EntityAddr)

  function KeyPrefixSize(p: KeyPrefix): nat {
    1 + match p
        case DelegatorBidAddrsByValidator(_) => 1 + 32
        case MessagesByEntity(_) => 33
        case MessagesByEntityAndTopic(_, _) => 33 + 32
        case NamedKeysByEntity(_) => 33
        case GasBalanceHoldsByPurse(_) => 1 + 32
        case ProcessingBalanceHoldsByPurse(_) => 1 + 32
        case EntryPointsV1ByEntity(_) => 1 + 33
        case EntryPointsV2ByEntity(_) => 1 + 33
  }

  function KeyPrefixBytes(p: KeyPrefix): (r: Bytes)
    ensures |r| == KeyPrefixSize(p)
  {
    match p
    case DelegatorBidAddrsByValidator(v) => [BID_ADDR_TAG] + ([DELEGATED_ACCOUNT_TAG] + v)
    case MessagesByEntity(e) => [MESSAGE_TAG] + EntityBytes(e)
    case MessagesByEntityAndTopic(e, t) => [MESSAGE_TAG] + (EntityBytes(e) + t)
    case NamedKeysByEntity(e) => [NAMED_KEY_TAG] + EntityBytes(e)
    case GasBalanceHoldsByPurse(u) => [BALANCE_HOLD_TAG] + ([GAS_TAG] + u)
    case ProcessingBalanceHoldsByPurse(u) => [BALANCE_HOLD_TAG] + ([PROCESSING_TAG] + u)
    case EntryPointsV1ByEntity(e) => [ENTRY_POINT_TAG] + ([0] + EntityBytes(e))
    case EntryPointsV2ByEntity(e) => [ENTRY_POINT_TAG] + ([1] + EntityBytes(e))
  }

  /** The one reader whose result depends on whether anything follows. */
  function Prefix(s: Bytes): Parsed<KeyPrefix> {
    var (tag, rest) :- U8(s);
    if tag == BID_ADDR_TAG then
      var (subtag, rest) :- U8(rest);
      if subtag != DELEGATED_ACCOUNT_TAG then Err(Formatting)
      else
        var (v, rest) :- Hash(rest);
        Ok(DelegatorBidAddrsByValidator(v), rest)
    else if tag == MESSAGE_TAG then
      var (e, rest) :- Entity(rest);
      if rest == [] then Ok(MessagesByEntity(e), rest)
      else
        var (t, rest) :- Hash(rest);
        Ok(MessagesByEntityAndTopic(e, t), rest)
    else if tag == NAMED_KEY_TAG then
      var (e, rest) :- Entity(rest);
      Ok(NamedKeysByEntity(e), rest)
    else if tag == BALANCE_HOLD_TAG then
      var (subtag, rest) :- U8(rest);
      var (u, rest) :- Hash(rest);
      if subtag == GAS_TAG then Ok(GasBalanceHoldsByPurse(u), rest)
      else if subtag == PROCESSING_TAG then Ok(ProcessingBalanceHoldsByPurse(u), rest)
      else Err(Formatting)
    else if tag == ENTRY_POINT_TAG then
      var (version, rest) :- U8(rest);
      var (e, rest) :- Entity(rest);
      if version == 0 then Ok(EntryPointsV1ByEntity(e), rest)
      else if version == 1 then Ok(EntryPointsV2ByEntity(e), rest)
      else Err(Formatting)
    else Err(Formatting)
  }

  /** Everything but a bare `MessagesByEntity` stands whatever comes after it. */
  predicate Delimited(p: KeyPrefix, rest: Bytes) {
    p.MessagesByEntity? ==> rest == []
  }

  /** A key prefix reads back exactly when it is delimited. */
  lemma PrefixReads(p: KeyPrefix, rest: Bytes)
    ensures Prefix(KeyPrefixBytes(p) + rest) == Ok(p, rest) <==> Delimited(p, rest)
    ensures !Delimited(p, rest) ==> Prefix(KeyPrefixBytes(p) + rest).Err? || Prefix(KeyPrefixBytes(p) + rest).value != p
  {
    match p
    case MessagesByEntity(e) =>
      TagReads(MESSAGE_TAG, EntityBytes(e), rest);
      EntityReads(e, rest);
    case MessagesByEntityAndTopic(e, t) =>
      TagReads(MESSAGE_TAG, EntityBytes(e) + t, rest);
      Assoc(EntityBytes(e), t, rest);
      EntityReads(e, t + rest);
      HashReads(t, rest);
    case NamedKeysByEntity(e) =>
      TagReads(NAMED_KEY_TAG, EntityBytes(e), rest);
      EntityReads(e, rest);
    case DelegatorBidAddrsByValidator(h) => SubtagReads(BID_ADDR_TAG, DELEGATED_ACCOUNT_TAG, h, rest); HashReads(h, rest);
    case GasBalanceHoldsByPurse(h) => SubtagReads(BALANCE_HOLD_TAG, GAS_TAG, h, rest); HashReads(h, rest);
    case ProcessingBalanceHoldsByPurse(h) => SubtagReads(BALANCE_HOLD_TAG, PROCESSING_TAG, h, rest); HashReads(h, rest);
    case EntryPointsV1ByEntity(e) => SubtagReads(ENTRY_POINT_TAG, 0, EntityBytes(e), rest); EntityReads(e, rest);
    case EntryPointsV2ByEntity(e) => SubtagReads(ENTRY_POINT_TAG, 1, EntityBytes(e), rest); EntityReads(e, rest);
  }

  lemma SubtagReads(tag: byte, subtag: byte, body: Bytes, rest: Bytes)
    ensures U8([tag] + ([subtag] + body) + rest) == Ok(tag, [subtag] + body + rest)
    ensures U8([subtag] + body + rest) == Ok(subtag, body + rest)
  {
    TagReads(tag, [subtag] + body, rest);
    TagReads(subtag, body, rest);
  }

  /** A bare `MessagesByEntity` with 32 or more bytes after it is read as another request. */
  lemma PrefixTakesSuffixForTopic(e: EntityAddr, topic: Hash32, rest: Bytes)
    ensures Prefix(KeyPrefixBytes(MessagesByEntity(e)) + (topic + rest)) == Ok(MessagesByEntityAndTopic(e, topic), rest)
  {
    TagReads(MESSAGE_TAG, EntityBytes(e), topic + rest);
    EntityReads(e, topic + rest);
    HashReads(topic, rest);
  }

  /** The reader accepted these bytes, and they are the encoding of what it read. */
  ghost predicate PrefixWas(s: Bytes) {
    var p := Prefix(s);
    p.Ok? ==> Delimited(p.value, p.rest) && KeyPrefixBytes(p.value) + p.rest == s
  }

  lemma MessagePrefixExact(s: Bytes)
    requires s != [] && s[0] == MESSAGE_TAG
    ensures PrefixWas(s)
  {
    var e := Entity(s[1..]);
    if e.Ok? {
      EntityExact(s[1..]);
      if e.rest != [] && Hash(e.rest).Ok? {
        var t := Hash(e.rest);
        Assoc(EntityBytes(e.value), t.value, t.rest);
        Assoc([MESSAGE_TAG], EntityBytes(e.value) + t.value, t.rest);
      }
    }
  }

  lemma HashPrefixExact(s: Bytes)
    requires s != [] && (s[0] == BID_ADDR_TAG || s[0] == BALANCE_HOLD_TAG)
    ensures PrefixWas(s)
  {
    if Prefix(s).Ok? {
      var h := Hash(s[2..]);
      SubtagExact(s, h.value, h.rest);
    }
  }

  lemma EntryPointPrefixExact(s: Bytes)
    requires s != [] && s[0] == ENTRY_POINT_TAG
    ensures PrefixWas(s)
  {
    if Prefix(s).Ok? {
      var e := Entity(s[2..]);
      EntityExact(s[2..]);
      SubtagExact(s, EntityBytes(e.value), e.rest);
    }
  }

  lemma PrefixExact(s: Bytes)
    ensures PrefixWas(s)
  {
    if s != [] {
      if s[0] == MESSAGE_TAG {
        MessagePrefixExact(s);
      } else if s[0] == BID_ADDR_TAG || s[0] == BALANCE_HOLD_TAG {
        HashPrefixExact(s);
      } else if s[0] == ENTRY_POINT_TAG {
        EntryPointPrefixExact(s);
      } else if s[0] == NAMED_KEY_TAG && Entity(s[1..]).Ok? {
        EntityExact(s[1..]);
        Assoc([NAMED_KEY_TAG], EntityBytes(Entity(s[1..]).value), Entity(s[1..]).rest);
      }
    }
  }

  lemma SubtagExact(s: Bytes, body: Bytes, rest: Bytes)
    requires |s| >= 2 && s[2..] == body + rest
    ensures [s[0]] + ([s[1]] + body) + rest == s
  {
    Assoc([s[0]], [s[1]] + body, rest);
    Assoc([s[1]], body, rest);
    assert s == [s[0]] + ([s[1]] + s[2..]);
  }

  // ---- dictionary items ----

  datatype DictionaryItemIdentifier =
    | AccountNamedKey(hash: Hash32, name: Bytes, itemKey: Bytes)
    | ContractNamedKey(hash: Hash32, name: Bytes, itemKey: Bytes)
    | EntityNamedKey(entity: EntityAddr, name: Bytes, itemKey: Bytes)
    | SeedURef(seed: Opaque, itemKey: Bytes)
    | DictionaryItem(addr: Hash32)

  function DictionarySize(d: DictionaryItemIdentifier): nat {
    1 + match d
        case AccountNamedKey(_, n, k) => 32 + (4 + |n|) + (4 + |k|)
        case ContractNamedKey(_, n, k) => 32 + (4 + |n|) + (4 + |k|)
        case EntityNamedKey(_, n, k) => 33 + (4 + |n|) + (4 + |k|)
        case SeedURef(u, k) => |u| + (4 + |k|)
        case DictionaryItem(_) => 32
  }

  function TwoTexts(n: Bytes, k: Bytes): Bytes {
    BlobBytes(n) + BlobBytes(k)
  }

  function DictionaryBytes(d: DictionaryItemIdentifier): (r: Bytes)
    ensures |r| == DictionarySize(d)
  {
    match d
    case AccountNamedKey(h, n, k) => [0] + (h + TwoTexts(n, k))
    case ContractNamedKey(h, n, k) => [1] + (h + TwoTexts(n, k))
    case EntityNamedKey(e, n, k) => [2] + (EntityBytes(e) + TwoTexts(n, k))
    case SeedURef(u, k) => [3] + (u + BlobBytes(k))
    case DictionaryItem(a) => [4] + a
  }

  function ReadTwoTexts(g: Grammar, s: Bytes): Parsed<(Bytes, Bytes)> {
    var (n, rest) :- Text(g, s);
    var (k, rest) :- Text(g, rest);
    Ok((n, k), rest)
  }

  function Dictionary(g: Grammar, s: Bytes): Parsed<DictionaryItemIdentifier> {
    var (tag, rest) :- U8(s);
    if tag == 0 || tag == 1 then
      var (h, rest) :- Hash(rest);
      var (t, rest) :- ReadTwoTexts(g, rest);
      Ok(if tag == 0 then AccountNamedKey(h, t.0, t.1) else ContractNamedKey(h, t.0, t.1), rest)
    else if tag == 2 then
      var (e, rest) :- Entity(rest);
      var (t, rest) :- ReadTwoTexts(g, rest);
      Ok(EntityNamedKey(e, t.0, t.1), rest)
    else if tag == 3 then
      var (u, rest) :- g.read(URefKind, rest);
      var (k, rest) :- Text(g, rest);
      Ok(SeedURef(u, k), rest)
    else if tag == 4 then
      var (a, rest) :- Hash(rest);
      Ok(DictionaryItem(a), rest)
    else Err(Formatting)
  }

  /** `r` is `d` with its reference spelled in some way. */
  ghost predicate MeansDictionary(g: Grammar, r: DictionaryItemIdentifier, d: DictionaryItemIdentifier) {
    match d
    case SeedURef(u, k) => r.SeedURef? && r.itemKey == k && ValidText(g, k) && Spells(g, URefKind, r.seed, u)
    case DictionaryItem(_) => r == d
    case _ => r == d && ValidText(g, d.itemKey) && ValidText(g, d.name)
  }

  lemma TwoTextsRead(g: Grammar, n: Bytes, k: Bytes, rest: Bytes)
    requires ValidText(g, n) && ValidText(g, k)
    ensures ReadTwoTexts(g, TwoTexts(n, k) + rest) == Ok((n, k), rest)
  {
    Assoc(BlobBytes(n), BlobBytes(k), rest);
    TextReads(g, n, BlobBytes(k) + rest);
    TextReads(g, k, rest);
  }

  lemma DictionaryReads(g: Grammar, r: DictionaryItemIdentifier, d: DictionaryItemIdentifier, rest: Bytes)
    requires MeansDictionary(g, r, d)
    ensures Dictionary(g, DictionaryBytes(r) + rest) == Ok(d, rest)
  {
    match r
    case AccountNamedKey(h, n, k) => NamedReads(g, 0, h, n, k, rest);
    case ContractNamedKey(h, n, k) => NamedReads(g, 1, h, n, k, rest);
    case EntityNamedKey(e, n, k) =>
      TagReads(2, EntityBytes(e) + TwoTexts(n, k), rest);
      Assoc(EntityBytes(e), TwoTexts(n, k), rest);
      EntityReads(e, TwoTexts(n, k) + rest);
      TwoTextsRead(g, n, k, rest);
    case SeedURef(u, k) =>
      TagReads(3, u + BlobBytes(k), rest);
      Assoc(u, BlobBytes(k), rest);
      TextReads(g, k, rest);
    case DictionaryItem(a) =>
      TagReads(4, a, rest);
      HashReads(a, rest);
  }

  lemma NamedReads(g: Grammar, tag: byte, h: Hash32, n: Bytes, k: Bytes, rest: Bytes)
    requires tag <= 1 && ValidText(g, n) && ValidText(g, k)
    ensures Dictionary(g, [tag] + (h + TwoTexts(n, k)) + rest) ==
            Ok(if tag == 0 then AccountNamedKey(h, n, k) else ContractNamedKey(h, n, k), rest)
  {
    TagReads(tag, h + TwoTexts(n, k), rest);
    Assoc(h, TwoTexts(n, k), rest);
    HashReads(h, TwoTexts(n, k) + rest);
    TwoTextsRead(g, n, k, rest);
  }

  lemma TwoTextsExact(g: Grammar, s: Bytes)
    requires ReadTwoTexts(g, s).Ok?
    ensures var p := ReadTwoTexts(g, s);
            ValidText(g, p.value.0) && ValidText(g, p.value.1) && TwoTexts(p.value.0, p.value.1) + p.rest == s
  {
    var p := ReadTwoTexts(g, s);
    BlobExact(s);
    BlobExact(Blob(s).rest);
    Assoc(BlobBytes(p.value.0), BlobBytes(p.value.1), p.rest);
  }

  /** One tag byte, a head and a tail, put back together. */
  lemma PartsExact(s: Bytes, head: Bytes, tail: Bytes, rest: Bytes)
    requires s != [] && s[1..] == head + (tail + rest)
    ensures [s[0]] + (head + tail) + rest == s
  {
    Assoc([s[0]], head + tail, rest);
    Assoc(head, tail, rest);
  }

  lemma NamedKeyExact(g: Grammar, s: Bytes)
    requires s != [] && s[0] <= 2 && Dictionary(g, s).Ok?
    ensures var p := Dictionary(g, s);
            MeansDictionary(g, p.value, p.value) && DictionaryBytes(p.value) + p.rest == s
  {
    var body := s[1..];
    var n := if s[0] == 2 then 33 else 32;
    if s[0] == 2 { EntityExact(body); }
    TwoTextsExact(g, body[n..]);
    var t := ReadTwoTexts(g, body[n..]);
    PartsExact(s, body[..n], TwoTexts(t.value.0, t.value.1), t.rest);
  }

  lemma DictionaryExact(g: Grammar, s: Bytes) returns (r: DictionaryItemIdentifier)
    requires Delimiting(g) && Dictionary(g, s).Ok?
    ensures var p := Dictionary(g, s);
            MeansDictionary(g, r, p.value) && DictionaryBytes(r) + p.rest == s
  {
    var p := Dictionary(g, s);
    r := p.value;
    if s[0] <= 2 {
      NamedKeyExact(g, s);
    } else if s[0] == 3 {
      var q := Spelled(g, URefKind, s[1..]);
      BlobExact(g.read(URefKind, s[1..]).rest);
      PartsExact(s, q, BlobBytes(p.value.itemKey), p.rest);
      r := SeedURef(q, p.value.itemKey);
    } else {
      Assoc([4], p.value.addr, p.rest);
    }
  }

  // ---- purses ----

  datatype PurseIdentifier =
    | Payment
    | Accumulate
    | Purse(uref: Opaque)
    | PublicKeyPurse(key: Opaque)
    | AccountPurse(account: Hash32)
    | EntityPurse(entity: EntityAddr)

  function PurseSize(p: PurseIdentifier): nat {
    1 + match p
        case Payment => 0
        case Accumulate => 0
        case Purse(u) => |u|
        case PublicKeyPurse(k) => |k|
        case AccountPurse(_) => 32
        case EntityPurse(_) => 33
  }

  function PurseBytes(p: PurseIdentifier): (r: Bytes)
    ensures |r| == PurseSize(p)
  {
    match p
    case Payment => [0]
    case Accumulate => [1]
    case Purse(u) => [2] + u
    case PublicKeyPurse(k) => [3] + k
    case AccountPurse(a) => [4] + a
    case EntityPurse(e) => [5] + EntityBytes(e)
  }

  function ReadPurse(g: Grammar, s: Bytes): Parsed<PurseIdentifier> {
    var (tag, rest) :- U8(s);
    match tag
    case 0 => Ok(Payment, rest)
    case 1 => Ok(Accumulate, rest)
    case 2 => var (u, rest) :- g.read(URefKind, rest); Ok(Purse(u), rest)
    case 3 => var (k, rest) :- g.read(PublicKeyKind, rest); Ok(PublicKeyPurse(k), rest)
    case 4 => var (a, rest) :- Hash(rest); Ok(AccountPurse(a), rest)
    case 5 => var (e, rest) :- Entity(rest); Ok(EntityPurse(e), rest)
    case _ => Err(Formatting)
  }

  /** `r` is `p` with its reference or key spelled in some way. */
  ghost predicate MeansPurse(g: Grammar, r: PurseIdentifier, p: PurseIdentifier) {
    match p
    case Purse(u) => r.Purse? && Spells(g, URefKind, r.uref, u)
    case PublicKeyPurse(k) => r.PublicKeyPurse? && Spells(g, PublicKeyKind, r.key, k)
    case _ => r == p
  }

  lemma PurseReads(g: Grammar, r: PurseIdentifier, p: PurseIdentifier, rest: Bytes)
    requires MeansPurse(g, r, p)
    ensures ReadPurse(g, PurseBytes(r) + rest) == Ok(p, rest)
  {
    match r
    case Payment =>
    case Accumulate =>
    case Purse(u) => TagReads(2, u, rest);
    case PublicKeyPurse(k) => TagReads(3, k, rest);
    case AccountPurse(a) => TagReads(4, a, rest); HashReads(a, rest);
    case EntityPurse(e) => TagReads(5, EntityBytes(e), rest); EntityReads(e, rest);
  }

  lemma PurseExact(g: Grammar, s: Bytes) returns (r: PurseIdentifier)
    requires Delimiting(g) && ReadPurse(g, s).Ok?
    ensures var p := ReadPurse(g, s);
            MeansPurse(g, r, p.value) && PurseBytes(r) + p.rest == s
  {
    var p := ReadPurse(g, s);
    r := p.value;
    match p.value
    case Payment =>
    case Accumulate =>
    case Purse(_) => var q := Spelled(g, URefKind, s[1..]); r := Purse(q); Assoc([2], q, p.rest);
    case PublicKeyPurse(_) => var q := Spelled(g, PublicKeyKind, s[1..]); r := PublicKeyPurse(q); Assoc([3], q, p.rest);
    case AccountPurse(a) => Assoc([4], a, p.rest);
    case EntityPurse(e) => EntityExact(s[1..]); Assoc([5], EntityBytes(e), p.rest);
  }

  // ---- eras, entities and packages ----

  type U64 = n: nat | n < 0x1_0000_0000_0000_0000

  datatype EraIdentifier = Era(id: U64) | EraOfBlock(block: Opaque)

  function EraSize(e: EraIdentifier): nat {
    1 + if e.Era? then 8 else |e.block|
  }

  function EraBytes(e: EraIdentifier): (r: Bytes)
    ensures |r| == EraSize(e)
  {
    if e.Era? then [0] + ToLe(e.id, 8) else [1] + e.block
  }

  function ReadU64(s: Bytes): Parsed<U64> {
    var (b, rest) :- Fixed(8, s);
    U32Limit();
    Ok(FromLe(b), rest)
  }

  function ReadEra(g: Grammar, s: Bytes): Parsed<EraIdentifier> {
    var (tag, rest) :- U8(s);
    if tag == 0 then
      var (n, rest) :- ReadU64(rest);
      Ok(Era(n), rest)
    else if tag == 1 then
      var (b, rest) :- g.read(BlockIdentifierKind, rest);
      Ok(EraOfBlock(b), rest)
    else Err(Formatting)
  }

  ghost predicate MeansEra(g: Grammar, r: EraIdentifier, e: EraIdentifier) {
    if e.Era? then r == e else r.EraOfBlock? && Spells(g, BlockIdentifierKind, r.block, e.block)
  }

  lemma EraReads(g: Grammar, r: EraIdentifier, e: EraIdentifier, rest: Bytes)
    requires MeansEra(g, r, e)
    ensures ReadEra(g, EraBytes(r) + rest) == Ok(e, rest)
  {
    match r
    case Era(n) =>
      TagReads(0, ToLe(n, 8), rest);
      U32Limit();
      IntReads(n, 8, rest);
    case EraOfBlock(b) => TagReads(1, b, rest);
  }

  lemma EraExact(g: Grammar, s: Bytes) returns (r: EraIdentifier)
    requires Delimiting(g) && ReadEra(g, s).Ok?
    ensures var p := ReadEra(g, s);
            MeansEra(g, r, p.value) && EraBytes(r) + p.rest == s
  {
    var p := ReadEra(g, s);
    r := p.value;
    match p.value
    case Era(n) =>
      IntExact(8, s[1..]);
      Assoc([0], ToLe(n, 8), p.rest);
    case EraOfBlock(_) =>
      var q := Spelled(g, BlockIdentifierKind, s[1..]);
      r := EraOfBlock(q);
      Assoc([1], q, p.rest);
  }

  datatype EntityIdentifier =
    | ByContractHash(hash: Hash32)
    | ByPublicKey(key: Opaque)
    | ByAccountHash(hash: Hash32)
    | ByEntityAddr(entity: EntityAddr)

  function EntityIdSize(e: EntityIdentifier): nat {
    1 + match e
        case ByContractHash(_) => 32
        case ByPublicKey(k) => |k|
        case ByAccountHash(_) => 32
        case ByEntityAddr(_) => 33
  }

  function EntityIdBytes(e: EntityIdentifier): (r: Bytes)
    ensures |r| == EntityIdSize(e)
  {
    match e
    case ByContractHash(h) => [0] + h
    case ByPublicKey(k) => [1] + k
    case ByAccountHash(h) => [2] + h
    case ByEntityAddr(a) => [3] + EntityBytes(a)
  }

  function ReadEntityId(g: Grammar, s: Bytes): Parsed<EntityIdentifier> {
    var (tag, rest) :- U8(s);
    match tag
    case 0 => var (h, rest) :- Hash(rest); Ok(ByContractHash(h), rest)
    case 1 => var (k, rest) :- g.read(PublicKeyKind, rest); Ok(ByPublicKey(k), rest)
    case 2 => var (h, rest) :- Hash(rest); Ok(ByAccountHash(h), rest)
    case 3 => var (e, rest) :- Entity(rest); Ok(ByEntityAddr(e), rest)
    case _ => Err(Formatting)
  }

  ghost predicate MeansEntityId(g: Grammar, r: EntityIdentifier, e: EntityIdentifier) {
    if e.ByPublicKey? then r.ByPublicKey? && Spells(g, PublicKeyKind, r.key, e.key) else r == e
  }

  lemma EntityIdReads(g: Grammar, r: EntityIdentifier, e: EntityIdentifier, rest: Bytes)
    requires MeansEntityId(g, r, e)
    ensures ReadEntityId(g, EntityIdBytes(r) + rest) == Ok(e, rest)
  {
    match r
    case ByContractHash(h) => TagReads(0, h, rest); HashReads(h, rest);
    case ByPublicKey(k) => TagReads(1, k, rest);
    case ByAccountHash(h) => TagReads(2, h, rest); HashReads(h, rest);
    case ByEntityAddr(a) => TagReads(3, EntityBytes(a), rest); EntityReads(a, rest);
  }

  lemma EntityIdExact(g: Grammar, s: Bytes) returns (r: EntityIdentifier)
    requires Delimiting(g) && ReadEntityId(g, s).Ok?
    ensures var p := ReadEntityId(g, s);
            MeansEntityId(g, r, p.value) && EntityIdBytes(r) + p.rest == s
  {
    var p := ReadEntityId(g, s);
    r := p.value;
    match p.value
    case ByContractHash(h) => Assoc([0], h, p.rest);
    case ByPublicKey(_) => var q := Spelled(g, PublicKeyKind, s[1..]); r := ByPublicKey(q); Assoc([1], q, p.rest);
    case ByAccountHash(h) => Assoc([2], h, p.rest);
    case ByEntityAddr(a) => EntityExact(s[1..]); Assoc([3], EntityBytes(a), p.rest);
  }

  datatype PackageIdentifier = ByPackageHash(hash: Hash32) | ByPackageAddr(hash: Hash32)

  function PackageBytes(p: PackageIdentifier): (r: Bytes)
    ensures |r| == 1 + 32
  {
    [if p.ByPackageHash? then 0 else 1] + p.hash
  }

  function ReadPackage(s: Bytes): Parsed<PackageIdentifier> {
    var (tag, rest) :- U8(s);
    match tag
    case 0 => var (h, rest) :- Hash(rest); Ok(ByPackageHash(h), rest)
    case 1 => var (h, rest) :- Hash(rest); Ok(ByPackageAddr(h), rest)
    case _ => Err(Formatting)
  }

  lemma PackageReads(p: PackageIdentifier, rest: Bytes)
    ensures ReadPackage(PackageBytes(p) + rest) == Ok(p, rest)
  {
    TagReads(if p.ByPackageHash? then 0 else 1, p.hash, rest);
    HashReads(p.hash, rest);
  }

  lemma PackageExact(s: Bytes)
    requires ReadPackage(s).Ok?
    ensures PackageBytes(ReadPackage(s).value) + ReadPackage(s).rest == s
  {
    var p := ReadPackage(s);
    Assoc([if p.value.ByPackageHash? then 0 else 1], p.value.hash, p.rest);
  }
}
