/**
 Requests byte by byte: at which place of the input each reader finds what, with the numbers
 that the tags have on the wire, told from the bytes alone.
 */
module WireLayout {
  import opened Bytes
  import opened LittleEndian
  import opened Wire
  import opened WireIdentifiers
  import opened WireRequests
  import opened WireInformation

  /** Four bytes of length, lowest first, and then as many bytes. */
  lemma BlobByBytes(s: Bytes)
    ensures |s| < 4 ==> Blob(s) == Err(EarlyEndOfStream)
    ensures |s| >= 4 ==>
              var n := s[0] as nat + 0x100 * s[1] as nat + 0x1_0000 * s[2] as nat + 0x100_0000 * s[3] as nat;
              Blob(s) == if 4 + n > |s| then Err(EarlyEndOfStream) else Ok(s[4..4 + n], s[4 + n..])
  {
    if |s| >= 4 {
      LittleEndian.ReadsAs(s[..4]);
      var n := FromLe(s[..4]);
      if 4 + n <= |s| {
        assert s[4..][..n] == s[4..4 + n] && s[4..][n..] == s[4 + n..];
      }
    }
  }

  lemma FlagsByBytes(g: Grammar, k: Kind, s: Bytes)
    ensures Bool(s).Ok? <==> s != [] && s[0] <= 1
    ensures Bool(s).Ok? ==> Bool(s) == Ok(s[0] == 1, s[1..])
    ensures OptionalOpaque(g, k, s).Ok? ==> s != [] && s[0] == (if OptionalOpaque(g, k, s).value.Some? then 1 else 0)
    ensures OptionalEra(g, s).Ok? ==> s != [] && s[0] == (if OptionalEra(g, s).value.Some? then 1 else 0)
  {
  }

  // ---- identifiers ----

  /** At place `i` lie the kind of entity and its address. */
  predicate EntityAt(s: Bytes, i: nat, e: EntityAddr) {
    i + 33 <= |s| && s[i] == (if e.SystemAddr? then 0 else if e.AccountAddr? then 1 else 2) && s[i + 1..i + 33] == e.addr
  }

  lemma EntityByBytes(s: Bytes)
    ensures Entity(s).Ok? <==> |s| >= 33 && s[0] <= 2
    ensures Entity(s).Ok? ==> EntityAt(s, 0, Entity(s).value) && Entity(s).rest == s[33..]
  {
    if |s| >= 33 {
      assert s[1..][..32] == s[1..33] && s[1..][32..] == s[33..];
    }
  }

  lemma EntityBelow(s: Bytes, i: nat)
    requires i <= |s| && Entity(s[i..]).Ok?
    ensures EntityAt(s, i, Entity(s[i..]).value) && Entity(s[i..]).rest == s[i + 33..]
  {
    EntityByBytes(s[i..]);
    assert s[i..][1..33] == s[i + 1..i + 33] && s[i..][33..] == s[i + 33..];
  }

  lemma HashBelow(s: Bytes, i: nat)
    requires i <= |s| && Hash(s[i..]).Ok?
    ensures i + 32 <= |s| && Hash(s[i..]) == Ok(s[i..i + 32], s[i + 32..])
  {
    assert s[i..][..32] == s[i..i + 32] && s[i..][32..] == s[i + 32..];
  }

  /** The tags and places of each key prefix. */
  lemma PrefixByBytes(s: Bytes)
    requires Prefix(s).Ok?
    ensures match Prefix(s).value
            case DelegatorBidAddrsByValidator(v) => |s| >= 34 && s[0] == 15 && s[1] == 2 && v == s[2..34]
            case MessagesByEntity(e) => |s| == 34 && s[0] == 19 && EntityAt(s, 1, e)
            case MessagesByEntityAndTopic(e, t) => |s| >= 66 && s[0] == 19 && EntityAt(s, 1, e) && t == s[34..66]
            case NamedKeysByEntity(e) => |s| >= 34 && s[0] == 20 && EntityAt(s, 1, e)
            case GasBalanceHoldsByPurse(u) => |s| >= 34 && s[0] == 22 && s[1] == 0 && u == s[2..34]
            case ProcessingBalanceHoldsByPurse(u) => |s| >= 34 && s[0] == 22 && s[1] == 1 && u == s[2..34]
            case EntryPointsV1ByEntity(e) => |s| >= 35 && s[0] == 23 && s[1] == 0 && EntityAt(s, 2, e)
            case EntryPointsV2ByEntity(e) => |s| >= 35 && s[0] == 23 && s[1] == 1 && EntityAt(s, 2, e)
  {
    hide Entity, Hash, EntityAt;
    var p := Prefix(s).value;
    if p.MessagesByEntity? || p.MessagesByEntityAndTopic? || p.NamedKeysByEntity? {
      EntityBelow(s, 1);
      EntityEnds(s, 1);
      if p.MessagesByEntityAndTopic? { HashBelow(s, 34); }
    } else {
      assert s[1..][1..] == s[2..];
      if p.EntryPointsV1ByEntity? || p.EntryPointsV2ByEntity? {
        EntityBelow(s, 2);
        EntityEnds(s, 2);
      } else {
        HashBelow(s, 2);
      }
    }
  }

  lemma EntityEnds(s: Bytes, i: nat)
    requires i <= |s| && Entity(s[i..]).Ok?
    ensures i + 33 <= |s|
  {
    EntityByBytes(s[i..]);
  }

  /** From place `i` on lie one text and then another, each behind its length. */
  predicate TextsAt(s: Bytes, i: nat, first: Bytes, second: Bytes) {
    i <= |s| && Blob(s[i..]).Ok? && Blob(s[i..]).value == first && Blob(Blob(s[i..]).rest).Ok? && Blob(Blob(s[i..]).rest).value == second
  }

  lemma DictionaryByBytes(g: Grammar, s: Bytes)
    requires Dictionary(g, s).Ok?
    ensures s != [] && match Dictionary(g, s).value
                       case AccountNamedKey(h, n, k) => s[0] == 0 && |s| >= 33 && h == s[1..33] && TextsAt(s, 33, n, k)
                       case ContractNamedKey(h, n, k) => s[0] == 1 && |s| >= 33 && h == s[1..33] && TextsAt(s, 33, n, k)
                       case EntityNamedKey(e, n, k) => s[0] == 2 && EntityAt(s, 1, e) && TextsAt(s, 34, n, k)
                       case SeedURef(u, k) => s[0] == 3 && g.read(URefKind, s[1..]).Ok? && g.read(URefKind, s[1..]).value == u &&
                                              Blob(g.read(URefKind, s[1..]).rest).Ok? && Blob(g.read(URefKind, s[1..]).rest).value == k
                       case DictionaryItem(a) => s[0] == 4 && |s| >= 33 && a == s[1..33]
  {
    hide Blob, EntityAt, Entity, Hash;
    if s[0] == 2 {
      EntityBelow(s, 1);
    } else if s[0] != 3 {
      HashBelow(s, 1);
    }
  }

  lemma PurseByBytes(g: Grammar, s: Bytes)
    requires ReadPurse(g, s).Ok?
    ensures s != [] && match ReadPurse(g, s).value
                       case Payment => s[0] == 0
                       case Accumulate => s[0] == 1
                       case Purse(_) => s[0] == 2
                       case PublicKeyPurse(_) => s[0] == 3
                       case AccountPurse(a) => s[0] == 4 && |s| >= 33 && a == s[1..33]
                       case EntityPurse(e) => s[0] == 5 && EntityAt(s, 1, e)
  {
    hide EntityAt, Entity, Hash;
    if s[0] == 4 { HashBelow(s, 1); }
    if s[0] == 5 { EntityBelow(s, 1); }
  }

  lemma EntityIdByBytes(g: Grammar, s: Bytes)
    requires ReadEntityId(g, s).Ok?
    ensures s != [] && match ReadEntityId(g, s).value
                       case ByContractHash(h) => s[0] == 0 && |s| >= 33 && h == s[1..33]
                       case ByPublicKey(_) => s[0] == 1
                       case ByAccountHash(h) => s[0] == 2 && |s| >= 33 && h == s[1..33]
                       case ByEntityAddr(e) => s[0] == 3 && EntityAt(s, 1, e)
  {
    hide EntityAt, Entity, Hash;
    if s[0] == 0 || s[0] == 2 { HashBelow(s, 1); }
    if s[0] == 3 { EntityBelow(s, 1); }
  }

  lemma EraAndPackageByBytes(g: Grammar, s: Bytes)
    ensures ReadEra(g, s).Ok? ==> s != [] && s[0] == (if ReadEra(g, s).value.Era? then 0 else 1)
    ensures ReadEra(g, s).Ok? && s[0] == 0 ==> |s| >= 9 && ReadEra(g, s).value.id == FromLe(s[1..9])
    ensures ReadPackage(s).Ok? ==> |s| >= 33 && s[0] == (if ReadPackage(s).value.ByPackageHash? then 0 else 1) && ReadPackage(s).value.hash == s[1..33]
  {
    if s != [] && |s| >= 9 {
      assert s[1..][..8] == s[1..9];
    }
    if ReadPackage(s).Ok? { HashBelow(s, 1); }
  }

  // ---- requests ----

  lemma QualifierByBytes(g: Grammar, s: Bytes)
    requires ReadQualifier(g, s).Ok?
    ensures s != [] && match ReadQualifier(g, s).value
                       case Item(k, path) =>
                         s[0] == 0 && g.read(KeyKind, s[1..]).Ok? && g.read(KeyKind, s[1..]).value == k &&
                         TextList(g, g.read(KeyKind, s[1..]).rest).Ok? && TextList(g, g.read(KeyKind, s[1..]).rest).value == path
                       case AllItems(t) => s[0] == 1 && |s| >= 2 && t == s[1] && t <= 25
                       case DictionaryQuery(d) => s[0] == 2 && Dictionary(g, s[1..]).Ok? && Dictionary(g, s[1..]).value == d
                       case Balance(p) => s[0] == 3 && ReadPurse(g, s[1..]).Ok? && ReadPurse(g, s[1..]).value == p
                       case ItemsByPrefix(p) => s[0] == 4 && Prefix(s[1..]).Ok? && Prefix(s[1..]).value == p
  {
    hide Dictionary, ReadPurse, Prefix, TextList;
  }

  lemma StateRequestByBytes(g: Grammar, s: Bytes)
    requires ReadStateRequest(g, s).Ok?
    ensures s != [] && var r := ReadStateRequest(g, s).value;
            match r.stateIdentifier
            case None => s[0] == 0 && ReadQualifier(g, s[1..]).Ok? && ReadQualifier(g, s[1..]).value == r.qualifier
            case Some(i) => s[0] == 1 && g.read(StateIdentifierKind, s[1..]).Ok? && g.read(StateIdentifierKind, s[1..]).value == i &&
                            ReadQualifier(g, g.read(StateIdentifierKind, s[1..]).rest).Ok? &&
                            ReadQualifier(g, g.read(StateIdentifierKind, s[1..]).rest).value == r.qualifier
  {
    hide ReadQualifier;
  }

  /** The texts of a path follow each other behind their number. */
  lemma {:induction false} TextsInOrder(xs: seq<Bytes>, ys: seq<Bytes>)
    ensures TextListBytes(xs) == ToLe(|xs|, 4) + TextsBytes(xs)
    ensures TextsBytes(xs + ys) == TextsBytes(xs) + TextsBytes(ys) && forall x :: TextsBytes([x]) == BlobBytes(x)
    decreases |ys|
  {
    forall x ensures TextsBytes([x]) == BlobBytes(x) { assert [x][..0] == [] && TextsBytes([]) + BlobBytes(x) == BlobBytes(x); }
    if ys == [] {
      assert xs + ys == xs;
    } else {
      var front, last := ys[..|ys| - 1], ys[|ys| - 1];
      TextsInOrder(xs, front);
      assert (xs + ys)[..|xs + ys| - 1] == xs + front;
      Assoc(TextsBytes(xs), TextsBytes(front), BlobBytes(last));
    }
  }

  lemma GetByBytes(g: Grammar, s: Bytes)
    requires ReadGet(g, s).Ok?
    ensures s != [] && match ReadGet(g, s).value
                       case Record(t, k) =>
                         s[0] == 0 && |s| >= 7 + |k| && t == s[1] as nat + 256 * s[2] as nat && Blob(s[3..]).Ok? && k == Blob(s[3..]).value
                       case Information(t, k) =>
                         s[0] == 1 && |s| >= 7 + |k| && t == s[1] as nat + 256 * s[2] as nat && Blob(s[3..]).Ok? && k == Blob(s[3..]).value
                       case State(q) => s[0] == 2 && ReadStateRequest(g, s[1..]).Ok? && ReadStateRequest(g, s[1..]).value == q
                       case Trie(d) => s[0] == 3 && |s| >= 33 && d == s[1..33]
  {
    hide ReadStateRequest, Blob, Hash;
    if s[0] <= 1 {
      LittleEndian.ReadsAs(s[1..][..2]);
      assert s[1..][..2] == [s[1], s[2]] && s[1..][2..] == s[3..];
      BlobByBytes(s[3..]);
    } else if s[0] == 3 {
      HashBelow(s, 1);
    }
  }

  /** The numbers of the information requests, and no others. */
  lemma InformationNumbers(i: InformationRequest, n: U16)
    ensures TagNumber(TagOf(i)) == match i
                                   case BlockHeader(_) => 0
                                   case BlockWithSignatures(_) => 1
                                   case TransactionInfo(_, _) => 2
                                   case Peers => 3
                                   case Uptime => 4
                                   case LastProgress => 5
                                   case ReactorState => 6
                                   case NetworkName => 7
                                   case ConsensusValidatorChanges => 8
                                   case BlockSynchronizerStatus => 9
                                   case AvailableBlockRange => 10
                                   case NextUpgrade => 11
                                   case ConsensusStatus => 12
                                   case ChainspecRawBytes => 13
                                   case NodeStatus => 14
                                   case LatestSwitchBlockHeader => 15
                                   case Reward(_, _, _) => 16
                                   case ProtocolVersion => 17
                                   case Package(_, _) => 18
                                   case EntityInfo(_, _, _) => 19
    ensures TagOfNumber(n).Some? <==> n < 20
  {
  }

  /** The keys of information requests, from the ends whose places are fixed. */
  lemma InfoByBytes(i: InformationRequest)
    ensures var s := InfoBytes(i);
            match i
            case BlockHeader(b) => s != [] && s[0] == (if b.Some? then 1 else 0) && s[1..] == (if b.Some? then b.value else [])
            case BlockWithSignatures(b) => s != [] && s[0] == (if b.Some? then 1 else 0) && s[1..] == (if b.Some? then b.value else [])
            case TransactionInfo(h, a) => |s| == |h| + 1 && s[..|h|] == h && s[|h|] == (if a then 1 else 0)
            case Reward(e, v, d) =>
              s == [if e.Some? then 1 else 0] + (if e.Some? then EraBytes(e.value) else []) + v + [if d.Some? then 1 else 0] + (if d.Some? then d.value else [])
            case Package(id, p) => |s| >= 34 && s[0] == (if id.Some? then 1 else 0) && s[|s| - 32..] == p.hash && s[|s| - 33] == (if p.ByPackageHash? then 0 else 1)
            case EntityInfo(id, e, b) =>
              s == [if id.Some? then 1 else 0] + (if id.Some? then id.value else []) + EntityIdBytes(e) + [if b then 1 else 0]
            case _ => s == []
  {
    hide EntityIdBytes, EraBytes;
    match i
    case Package(id, p) =>
      var head := OptionalOpaqueBytes(id);
      assert InfoBytes(i)[|head|..] == PackageBytes(p);
      assert PackageBytes(p)[1..] == p.hash;
      assert InfoBytes(i)[|head| + 1..] == p.hash;
    case Reward(e, v, d) =>
      var x, y := OptionalEraBytes(e), OptionalOpaqueBytes(d);
      assert x == [if e.Some? then 1 else 0] + (if e.Some? then EraBytes(e.value) else []);
      assert y == [if d.Some? then 1 else 0] + (if d.Some? then d.value else []);
      Assoc(x, v, y);
      Assoc(x + v, [if d.Some? then 1 else 0], if d.Some? then d.value else []);
    case EntityInfo(id, e, b) =>
      assert OptionalOpaqueBytes(id) == [if id.Some? then 1 else 0] + (if id.Some? then id.value else []);
      Assoc(OptionalOpaqueBytes(id), EntityIdBytes(e), BoolBytes(b));
    case _ =>
  }
}
