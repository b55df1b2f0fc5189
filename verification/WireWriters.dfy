/**
 Writing requests: each encoder appends to a shared vector, member by member, and the
 lengths announced beforehand are the numbers of bytes appended.
 */
module WireWriters {
  import opened Bytes
  import opened LittleEndian
  import opened Wire
  import opened WireIdentifiers
  import opened WireRequests
  import opened WireInformation

  datatype Encoded = Encoded(bytes: Bytes) | EncodeFailed(error: WireError)

  method WriteEntity(e: EntityAddr, w: Writer)
    modifies w
    ensures w.bytes == old(w.bytes) + EntityBytes(e)
  {
    w.Push(EntityTag(e));
    w.Extend(e.addr);
    Assoc(old(w.bytes), [EntityTag(e)], e.addr);
  }

  /** Two bytes of tags, then a body. */
  method WriteTagged(tag: byte, subtag: byte, body: Bytes, w: Writer)
    modifies w
    ensures w.bytes == old(w.bytes) + ([tag] + ([subtag] + body))
  {
    w.Push(tag);
    w.Push(subtag);
    w.Extend(body);
    Assoc(old(w.bytes) + [tag], [subtag], body);
    Assoc(old(w.bytes), [tag], [subtag] + body);
  }

  method WriteKeyPrefix(p: KeyPrefix, w: Writer)
    modifies w
    ensures w.bytes == old(w.bytes) + KeyPrefixBytes(p)
    ensures |w.bytes| == |old(w.bytes)| + KeyPrefixSize(p)
  {
    match p {
      case DelegatorBidAddrsByValidator(v) => WriteTagged(BID_ADDR_TAG, DELEGATED_ACCOUNT_TAG, v, w);
      case GasBalanceHoldsByPurse(u) => WriteTagged(BALANCE_HOLD_TAG, GAS_TAG, u, w);
      case ProcessingBalanceHoldsByPurse(u) => WriteTagged(BALANCE_HOLD_TAG, PROCESSING_TAG, u, w);
      case EntryPointsV1ByEntity(e) => WriteTagged(ENTRY_POINT_TAG, 0, EntityBytes(e), w);
      case EntryPointsV2ByEntity(e) => WriteTagged(ENTRY_POINT_TAG, 1, EntityBytes(e), w);
      case NamedKeysByEntity(e) =>
        w.Push(NAMED_KEY_TAG);
        WriteEntity(e, w);
        Assoc(old(w.bytes), [NAMED_KEY_TAG], EntityBytes(e));
      case MessagesByEntity(e) =>
        w.Push(MESSAGE_TAG);
        WriteEntity(e, w);
        Assoc(old(w.bytes), [MESSAGE_TAG], EntityBytes(e));
      case MessagesByEntityAndTopic(e, t) =>
        w.Push(MESSAGE_TAG);
        WriteEntity(e, w);
        w.Extend(t);
        Assoc(old(w.bytes) + [MESSAGE_TAG], EntityBytes(e), t);
        Assoc(old(w.bytes), [MESSAGE_TAG], EntityBytes(e) + t);
    }
  }

  method WriteTwoTexts(n: Bytes, k: Bytes, w: Writer) returns (error: Option<WireError>)
    modifies w
    ensures error.None? ==> w.bytes == old(w.bytes) + TwoTexts(n, k)
    ensures |n| < U32_LIMIT && |k| < U32_LIMIT ==> error.None?
  {
    error := w.WriteBlob(n);
    if error.None? {
      error := w.WriteBlob(k);
      Assoc(old(w.bytes), BlobBytes(n), BlobBytes(k));
    }
  }

  method WriteDictionary(d: DictionaryItemIdentifier, w: Writer) returns (error: Option<WireError>)
    modifies w
    ensures error.None? ==> w.bytes == old(w.bytes) + DictionaryBytes(d)
    ensures DictionarySize(d) < U32_LIMIT ==> error.None?
  {
    var tag: byte, head, tail: Bytes;
    match d {
      case AccountNamedKey(h, n, k) => tag, head, tail := 0, h, TwoTexts(n, k);
      case ContractNamedKey(h, n, k) => tag, head, tail := 1, h, TwoTexts(n, k);
      case EntityNamedKey(e, n, k) => tag, head, tail := 2, EntityBytes(e), TwoTexts(n, k);
      case SeedURef(u, k) => tag, head, tail := 3, u, BlobBytes(k);
      case DictionaryItem(a) => tag, head, tail := 4, a, [];
    }
    w.Push(tag);
    w.Extend(head);
    Assoc(old(w.bytes), [tag], head);
    error := None;
    match d {
      case SeedURef(_, k) => error := w.WriteBlob(k);
      case DictionaryItem(_) => assert head + tail == head;
      case _ => error := WriteTwoTexts(d.name, d.itemKey, w);
    }
    if error.None? {
      Assoc(old(w.bytes), [tag] + head, tail);
      Assoc([tag], head, tail);
      assert old(w.bytes) + ([tag] + head) + [] == old(w.bytes) + ([tag] + head);
    }
  }

  method WriteQualifier(q: Qualifier, w: Writer) returns (error: Option<WireError>)
    modifies w
    ensures error.None? ==> w.bytes == old(w.bytes) + QualifierBytes(q)
    ensures QualifierSize(q) < U32_LIMIT ==> error.None?
  {
    error := None;
    match q {
      case Item(k, path) =>
        w.Push(0);
        w.Extend(k);
        Assoc(old(w.bytes), [0], k);
        error := w.WriteTextList(path);
        Assoc(old(w.bytes), [0] + k, TextListBytes(path));
        Assoc([0], k, TextListBytes(path));
      case AllItems(t) =>
        w.Push(1);
        w.Push(t);
        Assoc(old(w.bytes), [1], [t]);
      case DictionaryQuery(d) =>
        w.Push(2);
        error := WriteDictionary(d, w);
        Assoc(old(w.bytes), [2], DictionaryBytes(d));
      case Balance(p) =>
        w.Push(3);
        WritePurse(p, w);
        Assoc(old(w.bytes), [3], PurseBytes(p));
      case ItemsByPrefix(p) =>
        w.Push(4);
        WriteKeyPrefix(p, w);
        Assoc(old(w.bytes), [4], KeyPrefixBytes(p));
    }
  }

  method WritePurse(p: PurseIdentifier, w: Writer)
    modifies w
    ensures w.bytes == old(w.bytes) + PurseBytes(p)
  {
    match p {
      case Payment => w.Push(0);
      case Accumulate => w.Push(1);
      case Purse(u) => w.Push(2); w.Extend(u); Assoc(old(w.bytes), [2], u);
      case PublicKeyPurse(k) => w.Push(3); w.Extend(k); Assoc(old(w.bytes), [3], k);
      case AccountPurse(a) => w.Push(4); w.Extend(a); Assoc(old(w.bytes), [4], a);
      case EntityPurse(e) => w.Push(5); WriteEntity(e, w); Assoc(old(w.bytes), [5], EntityBytes(e));
    }
  }

  method WriteStateRequest(r: StateRequest, w: Writer) returns (error: Option<WireError>)
    modifies w
    ensures error.None? ==> w.bytes == old(w.bytes) + StateRequestBytes(r)
    ensures StateRequestSize(r) < U32_LIMIT ==> error.None?
  {
    w.WriteOption(r.stateIdentifier);
    error := WriteQualifier(r.qualifier, w);
    Assoc(old(w.bytes), OptionalOpaqueBytes(r.stateIdentifier), QualifierBytes(r.qualifier));
  }

  method WriteGet(r: GetRequest, w: Writer) returns (error: Option<WireError>)
    modifies w
    ensures error.None? ==> w.bytes == old(w.bytes) + GetBytes(r)
    ensures GetSize(r) < U32_LIMIT ==> error.None?
  {
    error := None;
    match r {
      case Record(t, k) => error := WriteTaggedKey(0, t, k, w);
      case Information(t, k) => error := WriteTaggedKey(1, t, k, w);
      case State(q) =>
        w.Push(2);
        error := WriteStateRequest(q, w);
        Assoc(old(w.bytes), [2], StateRequestBytes(q));
      case Trie(d) =>
        w.Push(3);
        w.Extend(d);
        Assoc(old(w.bytes), [3], d);
    }
  }

  method WriteTaggedKey(tag: byte, t: U16, key: Bytes, w: Writer) returns (error: Option<WireError>)
    modifies w
    ensures error.None? ==> w.bytes == old(w.bytes) + ([tag] + (ToLe(t, 2) + BlobBytes(key)))
    ensures |key| < U32_LIMIT ==> error.None?
  {
    w.Push(tag);
    w.Extend(ToLe(t, 2));
    error := w.WriteBlob(key);
    Assoc(old(w.bytes) + [tag], ToLe(t, 2), BlobBytes(key));
    Assoc(old(w.bytes), [tag], ToLe(t, 2) + BlobBytes(key));
  }

  /** Fails up front when the announced length does not fit 32 bits, and never after that. */
  method CommandToBytes(c: Command) returns (r: Encoded)
    ensures CommandSize(c) >= U32_LIMIT ==> r == EncodeFailed(OutOfMemory)
    ensures CommandSize(c) < U32_LIMIT ==> r == Encoded(CommandBytes(c))
  {
    if CommandSize(c) >= U32_LIMIT {
      return EncodeFailed(OutOfMemory);
    }
    var w := new Writer();
    match c {
      case Get(request) =>
        var error := WriteGet(request, w);
        assert [] + GetBytes(request) == GetBytes(request);
      case TryAccept(t) => w.Extend(t);
      case TrySpeculativeExec(t) => w.Extend(t);
    }
    r := Encoded(w.bytes);
  }

  /** What the client encodes, the node decodes to the same command. */
  method SendCommand(g: Grammar, c: Command) returns (r: Parsed<Command>)
    requires ValidCommand(g, c)
    ensures CommandSize(c) < U32_LIMIT ==> r == Ok(c, [])
    ensures CommandSize(c) >= U32_LIMIT ==> r == Err(OutOfMemory)
  {
    var sent := CommandToBytes(c);
    if sent.EncodeFailed? {
      return Err(sent.error);
    }
    CommandRoundTrip(g, c);
    r := TryFrom(g, Tag(c), sent.bytes);
  }

  method InfoToBytes(i: InformationRequest) returns (r: Encoded)
    ensures InfoSize(i) >= U32_LIMIT ==> r == EncodeFailed(OutOfMemory)
    ensures InfoSize(i) < U32_LIMIT ==> r == Encoded(InfoBytes(i))
  {
    if InfoSize(i) >= U32_LIMIT {
      return EncodeFailed(OutOfMemory);
    }
    var w := new Writer();
    if i.Reward? {
      WriteReward(i, w);
    } else if i.EntityInfo? {
      WriteEntityInfo(i, w);
    } else {
      WriteInfo(i, w);
    }
    r := Encoded(w.bytes);
  }

  method WriteReward(i: InformationRequest, w: Writer)
    requires w.bytes == [] && i.Reward?
    modifies w
    ensures w.bytes == InfoBytes(i)
  {
    hide OptionBytes, EraBytes;
    w.Extend(OptionalEraBytes(i.era));
    w.Extend(i.validator);
    w.WriteOption(i.delegator);
    Assoc(OptionalEraBytes(i.era), i.validator, OptionalOpaqueBytes(i.delegator));
  }

  method WriteEntityInfo(i: InformationRequest, w: Writer)
    requires w.bytes == [] && i.EntityInfo?
    modifies w
    ensures w.bytes == InfoBytes(i)
  {
    hide OptionBytes, EntityIdBytes;
    w.WriteOption(i.stateIdentifier);
    w.Extend(EntityIdBytes(i.entity));
    w.Extend(BoolBytes(i.includeBytecode));
    Assoc(OptionalOpaqueBytes(i.stateIdentifier), EntityIdBytes(i.entity), BoolBytes(i.includeBytecode));
  }

  method WriteInfo(i: InformationRequest, w: Writer)
    requires w.bytes == [] && !i.Reward? && !i.EntityInfo?
    modifies w
    ensures w.bytes == InfoBytes(i)
  {
    if i.BlockHeader? || i.BlockWithSignatures? {
      w.WriteOption(i.block);
    } else if i.TransactionInfo? {
      w.Extend(i.hash);
      w.Extend(BoolBytes(i.withFinalizedApprovals));
    } else if i.Package? {
      w.WriteOption(i.stateIdentifier);
      w.Extend(PackageBytes(i.package));
    }
  }
}
