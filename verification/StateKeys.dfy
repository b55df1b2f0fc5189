/**
 The serialized keys of the global state (types/src/key.rs) and what follows from their
 layout: they form a key space the trie can hold, and which keys each prefix query finds.
 */
module StateKeys {
  import opened Bytes
  import opened LittleEndian
  import opened WireIdentifiers
  import opened TrieTree
  import opened TrieWalk
  import opened TrieKeys
  import opened TrieHistory
  import opened TrieCache

  type U32 = n: nat | n < 0x1_0000_0000

  /** The address of a message topic, or of one message in it. */
  datatype MessageAddr = MessageAddr(entity: EntityAddr, topic: Hash32, index: Option<U32>)

  datatype StateKey =
    | FixedKey(tag: byte, body: Bytes)
    | BidKey(kind: byte, validator: Hash32, rest: Bytes)
    | ByteCodeKey(kind: byte, rest: Bytes)
    | MessageKey(addr: MessageAddr)
    | NamedKey(entity: EntityAddr, name: Hash32)
    | BalanceHoldKey(kind: byte, purse: Hash32, time: Bytes)
    | EntryPointKey(entity: EntityAddr, name: Hash32)

  const BYTE_CODE_TAG: byte := 18

  /** Tags whose keys have a layout of their own. */
  predicate Structured(tag: byte) {
    tag == BID_ADDR_TAG || tag == BYTE_CODE_TAG || tag == MESSAGE_TAG || tag == NAMED_KEY_TAG ||
    tag == BALANCE_HOLD_TAG || tag == ENTRY_POINT_TAG
  }

  /** Hashes for most; references, entity addresses and era ids differ. */
  function FixedLength(tag: byte): nat {
    if tag == 2 || tag == 17 || tag == 24 then 33 else if tag == 5 then 8 else 32
  }

  /** After the validator: nothing, an era id, or the hash of a delegator or purse. */
  function BidRest(kind: byte): nat {
    if kind == 0 || kind == 1 || kind == 9 then 0 else if kind == 4 then 8 else 32
  }

  predicate ValidKey(k: StateKey) {
    match k
    case FixedKey(tag, body) => tag <= LAST_KEY_TAG && !Structured(tag) && |body| == FixedLength(tag)
    case BidKey(kind, _, rest) => kind <= 9 && |rest| == BidRest(kind)
    case ByteCodeKey(kind, rest) => kind <= 2 && |rest| == (if kind == 0 then 0 else 32)
    case MessageKey(_) => true
    case NamedKey(_, _) => true
    case BalanceHoldKey(kind, _, time) => kind <= 1 && |time| == 8
    case EntryPointKey(_, _) => true
  }

  function IndexBytes(i: Option<U32>): Bytes {
    if i.None? then [0] else [1] + ToLe(i.value, 4)
  }

  function MessageBytes(a: MessageAddr): Bytes {
    EntityBytes(a.entity) + (a.topic + IndexBytes(a.index))
  }

  function KeyBytes(k: StateKey): Bytes {
    match k
    case FixedKey(tag, body) => [tag] + body
    case BidKey(kind, v, rest) => [BID_ADDR_TAG] + ([kind] + (v + rest))
    case ByteCodeKey(kind, rest) => [BYTE_CODE_TAG] + ([kind] + rest)
    case MessageKey(a) => [MESSAGE_TAG] + MessageBytes(a)
    case NamedKey(e, n) => [NAMED_KEY_TAG] + (EntityBytes(e) + n)
    case BalanceHoldKey(kind, u, t) => [BALANCE_HOLD_TAG] + ([kind] + (u + t))
    case EntryPointKey(e, n) => [ENTRY_POINT_TAG] + ([0] + (EntityBytes(e) + n))
  }

  /** The keys byte by byte. */
  lemma KeyByBytes(k: StateKey)
    ensures match k
            case FixedKey(tag, body) => KeyBytes(k) == [tag] + body
            case BidKey(kind, v, rest) => KeyBytes(k) == [15, kind] + (v + rest)
            case ByteCodeKey(kind, rest) => KeyBytes(k) == [18, kind] + rest
            case MessageKey(a) =>
              KeyBytes(k) == [19] + (EntityBytes(a.entity) + (a.topic + if a.index.None? then [0] else [1] + ToLe(a.index.value, 4)))
            case NamedKey(e, n) => KeyBytes(k) == [20] + (EntityBytes(e) + n)
            case BalanceHoldKey(kind, u, t) => KeyBytes(k) == [22, kind] + (u + t)
            case EntryPointKey(e, n) => KeyBytes(k) == [23, 0] + (EntityBytes(e) + n)
  {
    hide EntityBytes;
    match k
    case BidKey(kind, v, rest) => TwoTags(15, kind, v + rest);
    case ByteCodeKey(kind, rest) => TwoTags(18, kind, rest);
    case BalanceHoldKey(kind, u, t) => TwoTags(22, kind, u + t);
    case EntryPointKey(e, n) => TwoTags(23, 0, EntityBytes(e) + n);
    case _ =>
  }

  /** The lengths of what follows the tags: of keys with the tags 0 to 25, and of bids of the kinds 0 to 9. */
  lemma KeyLengths(tag: byte)
    ensures tag <= 25 ==> FixedLength(tag) == [32, 32, 33, 32, 32, 8, 32, 32, 32, 32, 32, 32, 32, 32, 32, 32, 32, 33, 32, 32, 32, 32, 32, 32, 33, 32][tag]
    ensures tag <= 9 ==> BidRest(tag) == [0, 0, 32, 32, 8, 32, 32, 32, 32, 0][tag]
  {
  }

  lemma TwoTags(tag: byte, subtag: byte, body: Bytes)
    ensures [tag] + ([subtag] + body) == [tag, subtag] + body
  {
  }

  // ---- no key is a prefix of another ----

  /** How long a key is can be read off its first bytes. */
  function AnnouncedLength(s: Bytes): nat
    requires |s| >= 2
  {
    if s[0] == BID_ADDR_TAG then 34 + BidRest(s[1])
    else if s[0] == BYTE_CODE_TAG then if s[1] == 0 then 2 else 34
    else if s[0] == MESSAGE_TAG then if |s| > 66 && s[66] == 0 then 67 else 71
    else if s[0] == NAMED_KEY_TAG then 66
    else if s[0] == BALANCE_HOLD_TAG then 42
    else if s[0] == ENTRY_POINT_TAG then 67
    else 1 + FixedLength(s[0])
  }

  lemma MessageLayout(a: MessageAddr)
    ensures var s := KeyBytes(MessageKey(a));
            |s| == (if a.index.None? then 67 else 71) && s[66] == (if a.index.None? then 0 else 1)
  {
    var s := KeyBytes(MessageKey(a));
    assert s[1..] == EntityBytes(a.entity) + (a.topic + IndexBytes(a.index));
    assert s[34..] == a.topic + IndexBytes(a.index);
    assert s[66..] == IndexBytes(a.index);
    assert s[66] == s[66..][0];
  }

  lemma KeyLength(k: StateKey)
    requires ValidKey(k)
    ensures |KeyBytes(k)| >= 2 && |KeyBytes(k)| == AnnouncedLength(KeyBytes(k))
  {
    if k.MessageKey? {
      MessageLayout(k.addr);
    }
  }

  lemma KeysArePrefixFree(k: StateKey, l: StateKey)
    requires ValidKey(k) && ValidKey(l) && KeyBytes(k) <= KeyBytes(l)
    ensures KeyBytes(k) == KeyBytes(l)
  {
    var s, t := KeyBytes(k), KeyBytes(l);
    KeyLength(k);
    KeyLength(l);
    assert s[0] == t[0] && s[1] == t[1];
    if k.MessageKey? && l.MessageKey? {
      MessageLayout(k.addr);
      MessageLayout(l.addr);
      assert s[66] == t[66];
    }
  }

  ghost predicate AreKeys(keys: set<Key>) {
    forall s | s in keys :: IsKey(s)
  }

  ghost predicate IsKey(s: Bytes) {
    exists k :: ValidKey(k) && KeyBytes(k) == s
  }

  /** So every set of global state keys is one the trie operations can work with. */
  lemma StateKeysFormAKeySpace(keys: set<Key>)
    requires AreKeys(keys)
    ensures KeySpace(keys)
  {
    forall s, t | s in keys && t in keys && s <= t ensures s == t {
      var k :| ValidKey(k) && KeyBytes(k) == s;
      var l :| ValidKey(l) && KeyBytes(l) == t;
      KeysArePrefixFree(k, l);
    }
    forall s | s in keys ensures s != [] {
      var k :| ValidKey(k) && KeyBytes(k) == s;
      KeyLength(k);
    }
  }

  /** The only keys with the bid tag are two delegator bids of one validator, by delegators that share a first byte. */
  ghost predicate TwoBids(keys: set<Key>, validator: Hash32, d: Hash32, d': Hash32) {
    var a, b := KeyBytes(BidKey(2, validator, d)), KeyBytes(BidKey(2, validator, d'));
    && d != d' && d[0] == d'[0] && a in keys && b in keys
    && forall s | s in keys && s != [] && s[0] == BID_ADDR_TAG :: s == a || s == b
  }

  lemma BidsOutrun(keys: set<Key>, validator: Hash32, d: Hash32, d': Hash32)
    requires TwoBids(keys, validator, d, d')
    ensures Outruns(keys, KeyBytes(BidKey(1, validator, [])))
  {
    var a, b := KeyBytes(BidKey(2, validator, d)), KeyBytes(BidKey(2, validator, d'));
    var key := KeyBytes(BidKey(1, validator, []));
    var p: Bytes := [BID_ADDR_TAG];
    assert a[34..] == d && b[34..] == d';
    assert a[..35] == b[..35] by {
      forall i | 0 <= i < 35 ensures a[i] == b[i] {
        assert i == 34 ==> a[i] == a[34..][0] && b[i] == b[34..][0];
      }
    }
    assert |key| + 1 == 35;
    assert OutrunsAt(keys, key, p);
  }

  /**
   Even so a lookup can panic: in every state whose only bids are two such delegator bids,
   looking for the validator's own bid slices past the end of its shorter key.
   */
  lemma LookupOfStateKeyCanPanic(t: Tree, validator: Hash32, d: Hash32, d': Hash32)
    requires RootWellFormed(t) && TwoBids(Keys(t), validator, d, d')
    ensures IsKey(KeyBytes(BidKey(1, validator, []))) && Walk(t, KeyBytes(BidKey(1, validator, [])), 0) == Panic
  {
    assert ValidKey(BidKey(1, validator, []));
    BidsOutrun(Keys(t), validator, d, d');
    ReadSafety(t, KeyBytes(BidKey(1, validator, [])));
  }

  /** And there are such states, with any values. */
  lemma PanickingStateExists(validator: Hash32, d: Hash32, d': Hash32, v: Value, v': Value) returns (t: Tree)
    requires d != d' && d[0] == d'[0]
    ensures RootWellFormed(t) && AreKeys(Keys(t)) && TwoBids(Keys(t), validator, d, d')
    ensures TreeDenotes(t, map[KeyBytes(BidKey(2, validator, d)) := v, KeyBytes(BidKey(2, validator, d')) := v'])
  {
    var a, b := KeyBytes(BidKey(2, validator, d)), KeyBytes(BidKey(2, validator, d'));
    assert ValidKey(BidKey(2, validator, d)) && ValidKey(BidKey(2, validator, d'));
    assert a[34..] == d && b[34..] == d';
    var m := map[a := v, b := v'];
    StateKeysFormAKeySpace(m.Keys);
    t := TreeOfState(m);
    KeysOfDenoted(t, m);
  }

  // ---- prefix queries ----

  const DELEGATED_PURSE_TAG: byte := 3

  /** The keys a prefix query is documented to find. */
  predicate Belongs(p: KeyPrefix, k: StateKey) {
    match p
    case DelegatorBidAddrsByValidator(v) =>
      k.BidKey? && (k.kind == DELEGATED_ACCOUNT_TAG || k.kind == DELEGATED_PURSE_TAG) && k.validator == v
    case MessagesByEntity(e) => k.MessageKey? && k.addr.entity == e && k.addr.index.Some?
    case MessagesByEntityAndTopic(e, t) => k.MessageKey? && k.addr.entity == e && k.addr.topic == t && k.addr.index.Some?
    case NamedKeysByEntity(e) => k.NamedKey? && k.entity == e
    case GasBalanceHoldsByPurse(u) => k.BalanceHoldKey? && k.kind == GAS_TAG && k.purse == u
    case ProcessingBalanceHoldsByPurse(u) => k.BalanceHoldKey? && k.kind == PROCESSING_TAG && k.purse == u
    case EntryPointsV1ByEntity(e) => k.EntryPointKey? && k.entity == e
    case EntryPointsV2ByEntity(_) => false
  }

  /** Bids of delegators that are purses are not under the prefix of those that are accounts. */
  predicate Missed(p: KeyPrefix, k: StateKey) {
    p.DelegatorBidAddrsByValidator? && k.BidKey? && k.kind == DELEGATED_PURSE_TAG && k.validator == p.validator
  }

  /** The record of a topic lies under the same prefix as its messages. */
  predicate BroughtAlong(p: KeyPrefix, k: StateKey) {
    k.MessageKey? && k.addr.index.None? &&
    match p
    case MessagesByEntity(e) => k.addr.entity == e
    case MessagesByEntityAndTopic(e, t) => k.addr.entity == e && k.addr.topic == t
    case _ => false
  }

  predicate Finds(p: KeyPrefix, k: StateKey) {
    (Belongs(p, k) && !Missed(p, k)) || BroughtAlong(p, k)
  }

  lemma EntityBytesInjective(e: EntityAddr, f: EntityAddr)
    ensures EntityBytes(e) == EntityBytes(f) ==> e == f
  {
    EntityReads(e, []);
    EntityReads(f, []);
    assert EntityBytes(e) + [] == EntityBytes(e) && EntityBytes(f) + [] == EntityBytes(f);
  }

  /** One tag, then parts of the same length on both sides. */
  lemma PartsDecide(tag: byte, a: Bytes, b: Bytes, rest: Bytes)
    requires |a| == |b|
    ensures [tag] + a <= [tag] + (b + rest) <==> a == b
  {
    var s := [tag] + (b + rest);
    assert s[..1 + |a|] == [tag] + b;
    assert ([tag] + a)[1..] == a && ([tag] + b)[1..] == b;
  }

  lemma SubtagDecides(tag: byte, subtag: byte, a: Bytes, subtag': byte, b: Bytes, rest: Bytes)
    requires |a| == |b|
    ensures [tag] + ([subtag] + a) <= [tag] + ([subtag'] + (b + rest)) <==> subtag == subtag' && a == b
  {
    Assoc([subtag'], b, rest);
    PartsDecide(tag, [subtag] + a, [subtag'] + b, rest);
    assert ([subtag] + a)[1..] == a && ([subtag'] + b)[1..] == b;
  }

  lemma MessageQuery(p: KeyPrefix, a: MessageAddr)
    requires p.MessagesByEntity? || p.MessagesByEntityAndTopic?
    ensures KeyPrefixBytes(p) <= KeyBytes(MessageKey(a)) <==> Finds(p, MessageKey(a))
  {
    EntityBytesInjective(p.entity, a.entity);
    var tail := IndexBytes(a.index);
    if p.MessagesByEntity? {
      PartsDecide(MESSAGE_TAG, EntityBytes(p.entity), EntityBytes(a.entity), a.topic + tail);
    } else {
      Assoc(EntityBytes(a.entity), a.topic, tail);
      PartsDecide(MESSAGE_TAG, EntityBytes(p.entity) + p.topic, EntityBytes(a.entity) + a.topic, tail);
      var x, y := EntityBytes(p.entity) + p.topic, EntityBytes(a.entity) + a.topic;
      assert x[..33] == EntityBytes(p.entity) && x[33..] == p.topic && y[..33] == EntityBytes(a.entity) && y[33..] == a.topic;
    }
  }

  lemma OtherTag(p: KeyPrefix, k: StateKey)
    requires KeyPrefixBytes(p)[0] != KeyBytes(k)[0]
    ensures !(KeyPrefixBytes(p) <= KeyBytes(k)) && !Finds(p, k)
  {
  }

  /** A query's bytes are a prefix of exactly the keys it is meant for, but for purses that delegate and records of topics. */
  lemma PrefixMeansBelonging(p: KeyPrefix, k: StateKey)
    requires ValidKey(k)
    ensures KeyPrefixBytes(p) <= KeyBytes(k) <==> Finds(p, k)
  {
    if KeyPrefixBytes(p)[0] != KeyBytes(k)[0] {
      OtherTag(p, k);
    } else {
      match k
      case FixedKey(_, _) =>
      case ByteCodeKey(_, _) =>
      case MessageKey(a) => MessageQuery(p, a);
      case BidKey(kind, v, rest) => SubtagDecides(BID_ADDR_TAG, DELEGATED_ACCOUNT_TAG, p.validator, kind, v, rest);
      case BalanceHoldKey(kind, u, t) =>
        SubtagDecides(BALANCE_HOLD_TAG, if p.GasBalanceHoldsByPurse? then GAS_TAG else PROCESSING_TAG, p.purse, kind, u, t);
      case NamedKey(e, n) =>
        EntityBytesInjective(p.entity, e);
        PartsDecide(NAMED_KEY_TAG, EntityBytes(p.entity), EntityBytes(e), n);
      case EntryPointKey(e, n) =>
        EntityBytesInjective(p.entity, e);
        SubtagDecides(ENTRY_POINT_TAG, if p.EntryPointsV1ByEntity? then 0 else 1, EntityBytes(p.entity), 0, EntityBytes(e), n);
    }
  }

  /** A key of the queried kind is never shorter than the query. */
  lemma QueriesAreShort(p: KeyPrefix, k: StateKey)
    requires ValidKey(k) && KeyPrefixBytes(p)[0] == KeyBytes(k)[0]
    ensures |KeyPrefixBytes(p)| <= |KeyBytes(k)|
  {
    KeyLength(k);
  }

  lemma QueryFinds(t: Tree, p: KeyPrefix, k: StateKey)
    requires AreKeys(Keys(t)) && ValidKey(k)
    ensures KeyBytes(k) in Matching(Entries(t), KeyPrefixBytes(p)) <==> KeyBytes(k) in Keys(t) && Finds(p, k)
  {
    var q := KeyPrefixBytes(p);
    forall e | e in Leaves(t) && q <= e.0 + e.1 ensures q <= e.0 {
      assert e.0 in Keys(t);
      var l :| ValidKey(l) && KeyBytes(l) == e.0;
      KeyLength(l);
      assert q[0] == (e.0 + e.1)[0] == e.0[0];
      QueriesAreShort(p, l);
      assert q == (e.0 + e.1)[..|q|] == e.0[..|q|];
    }
    PrefixQueryIsExact(t, q);
    PrefixMeansBelonging(p, k);
  }

  ghost predicate Answers(t: Tree, p: KeyPrefix, k: StateKey) {
    KeyBytes(k) in Matching(Entries(t), KeyPrefixBytes(p)) <==> KeyBytes(k) in Keys(t) && Belongs(p, k)
  }

  /**
   On a trie of global state keys, a query returns exactly the keys it is documented to find
   if and only if no bid of a purse and no topic record is stored where it looks. Queries for
   other things than delegators and messages are always exact.
   */
  lemma PrefixQueriesAreExact(t: Tree, p: KeyPrefix)
    requires AreKeys(Keys(t))
    ensures (forall k | ValidKey(k) :: Answers(t, p, k)) <==>
            (forall k | ValidKey(k) && KeyBytes(k) in Keys(t) :: !Missed(p, k) && !BroughtAlong(p, k))
    ensures !p.DelegatorBidAddrsByValidator? && !p.MessagesByEntity? && !p.MessagesByEntityAndTopic? ==>
              forall k | ValidKey(k) :: Answers(t, p, k)
  {
    forall k | ValidKey(k) ensures Answers(t, p, k) <==> (KeyBytes(k) in Keys(t) ==> !Missed(p, k) && !BroughtAlong(p, k)) {
      QueryFinds(t, p, k);
    }
  }

  /** A delegator that is a purse: its bid belongs to the query, and no state with it makes the query return it. */
  lemma PurseDelegatorsAreMissed(t: Tree, validator: Hash32, purse: Hash32)
    requires AreKeys(Keys(t)) && KeyBytes(BidKey(DELEGATED_PURSE_TAG, validator, purse)) in Keys(t)
    ensures var p, k := DelegatorBidAddrsByValidator(validator), BidKey(DELEGATED_PURSE_TAG, validator, purse);
            Belongs(p, k) && KeyBytes(k) !in Matching(Entries(t), KeyPrefixBytes(p))
  {
    QueryFinds(t, DelegatorBidAddrsByValidator(validator), BidKey(DELEGATED_PURSE_TAG, validator, purse));
  }
}
