/**
 Requests of the binary port, layer over layer: entity qualifiers, global state requests,
 get requests and commands (binary_port/src/entity_qualifier.rs, state_request.rs,
 get_request.rs, command.rs). One member at the bottom is not self-delimiting; these
 results follow it to the top.
 */
module WireRequests {
  import opened Bytes
  import opened LittleEndian
  import opened Wire
  import opened WireIdentifiers

  type KeyTag = b: byte | b <= LAST_KEY_TAG
  type U16 = n: nat | n < 0x1_0000

  // ---- qualifiers ----

  datatype Qualifier =
    | Item(baseKey: Opaque, path: seq<Bytes>)
    | AllItems(keyTag: KeyTag)
    | DictionaryQuery(identifier: DictionaryItemIdentifier)
    | Balance(purse: PurseIdentifier)
    | ItemsByPrefix(prefix: KeyPrefix)

  function QualifierSize(q: Qualifier): nat {
    1 + match q
        case Item(k, path) => |k| + (4 + TextsSize(path))
        case AllItems(_) => 1
        case DictionaryQuery(d) => DictionarySize(d)
        case Balance(p) => PurseSize(p)
        case ItemsByPrefix(p) => KeyPrefixSize(p)
  }

  function QualifierBytes(q: Qualifier): (r: Bytes)
    ensures |r| == QualifierSize(q)
  {
    match q
    case Item(k, path) => [0] + (k + TextListBytes(path))
    case AllItems(t) => [1] + [t]
    case DictionaryQuery(d) => [2] + DictionaryBytes(d)
    case Balance(p) => [3] + PurseBytes(p)
    case ItemsByPrefix(p) => [4] + KeyPrefixBytes(p)
  }

  function ReadKeyTag(s: Bytes): Parsed<KeyTag> {
    var (t, rest) :- U8(s);
    if t <= LAST_KEY_TAG then Ok(t, rest) else Err(Formatting)
  }

  function ReadQualifier(g: Grammar, s: Bytes): Parsed<Qualifier> {
    var (tag, rest) :- U8(s);
    match tag
    case 0 =>
      var (k, rest) :- g.read(KeyKind, rest);
      var (path, rest) :- TextList(g, rest);
      Ok(Item(k, path), rest)
    case 1 => var (t, rest) :- ReadKeyTag(rest); Ok(AllItems(t), rest)
    case 2 => var (d, rest) :- Dictionary(g, rest); Ok(DictionaryQuery(d), rest)
    case 3 => var (p, rest) :- ReadPurse(g, rest); Ok(Balance(p), rest)
    case 4 => var (p, rest) :- Prefix(rest); Ok(ItemsByPrefix(p), rest)
    case _ => Err(Formatting)
  }

  /** `r` is `q` with its opaque leaf spelled in some way. */
  ghost predicate MeansQualifier(g: Grammar, r: Qualifier, q: Qualifier) {
    match q
    case Item(k, path) => r.Item? && r.path == path && ValidTexts(g, path) && Spells(g, KeyKind, r.baseKey, k)
    case DictionaryQuery(d) => r.DictionaryQuery? && MeansDictionary(g, r.identifier, d)
    case Balance(p) => r.Balance? && MeansPurse(g, r.purse, p)
    case _ => r == q
  }

  predicate QualifierDelimited(q: Qualifier, rest: Bytes) {
    q.ItemsByPrefix? ==> Delimited(q.prefix, rest)
  }

  lemma QualifierReads(g: Grammar, r: Qualifier, q: Qualifier, rest: Bytes)
    requires MeansQualifier(g, r, q)
    ensures var p := ReadQualifier(g, QualifierBytes(r) + rest);
            (p == Ok(q, rest) <==> QualifierDelimited(q, rest)) &&
            (!QualifierDelimited(q, rest) ==> p.Err? || p.value != q)
  {
    hide TextListBytes, TextList, DictionaryBytes, Dictionary, MeansDictionary, PurseBytes, ReadPurse, MeansPurse, KeyPrefixBytes, Prefix;
    match r
    case Item(k, path) =>
      TagReads(0, k + TextListBytes(path), rest);
      Assoc(k, TextListBytes(path), rest);
      TextListReads(g, path, rest);
    case AllItems(t) => TagReads(1, [t], rest);
    case DictionaryQuery(d) => TagReads(2, DictionaryBytes(d), rest); DictionaryReads(g, d, q.identifier, rest);
    case Balance(p) => TagReads(3, PurseBytes(p), rest); PurseReads(g, p, q.purse, rest);
    case ItemsByPrefix(p) => TagReads(4, KeyPrefixBytes(p), rest); PrefixReads(p, rest);
  }

  lemma ItemExact(g: Grammar, s: Bytes) returns (r: Qualifier)
    requires Delimiting(g) && s != [] && s[0] == 0 && ReadQualifier(g, s).Ok?
    ensures var p := ReadQualifier(g, s);
            MeansQualifier(g, r, p.value) && QualifierBytes(r) + p.rest == s
  {
    var k := g.read(KeyKind, s[1..]);
    var t := TextList(g, k.rest);
    var q := Spelled(g, KeyKind, s[1..]);
    TextListExact(g, k.rest);
    PartsExact(s, q, TextListBytes(t.value), t.rest);
    r := Item(q, t.value);
  }

  lemma QualifierExact(g: Grammar, s: Bytes) returns (r: Qualifier)
    requires Delimiting(g) && ReadQualifier(g, s).Ok?
    ensures var p := ReadQualifier(g, s);
            MeansQualifier(g, r, p.value) && QualifierDelimited(p.value, p.rest) && QualifierBytes(r) + p.rest == s
  {
    var p := ReadQualifier(g, s);
    r := p.value;
    match p.value
    case Item(_, _) => r := ItemExact(g, s);
    case AllItems(t) => Assoc([1], [t], p.rest);
    case DictionaryQuery(_) => var d := DictionaryExact(g, s[1..]); r := DictionaryQuery(d); Assoc([2], DictionaryBytes(d), p.rest);
    case Balance(_) => var b := PurseExact(g, s[1..]); r := Balance(b); Assoc([3], PurseBytes(b), p.rest);
    case ItemsByPrefix(b) => PrefixExact(s[1..]); Assoc([4], KeyPrefixBytes(b), p.rest);
  }

  // ---- global state requests ----

  datatype StateRequest = StateRequest(stateIdentifier: Option<Opaque>, qualifier: Qualifier)

  function OptionSize(o: Option<Opaque>): nat {
    1 + if o.None? then 0 else |o.value|
  }

  function StateRequestSize(r: StateRequest): nat {
    OptionSize(r.stateIdentifier) + QualifierSize(r.qualifier)
  }

  function StateRequestBytes(r: StateRequest): (bs: Bytes)
    ensures |bs| == StateRequestSize(r)
  {
    OptionalOpaqueBytes(r.stateIdentifier) + QualifierBytes(r.qualifier)
  }

  function ReadStateRequest(g: Grammar, s: Bytes): Parsed<StateRequest> {
    var (id, rest) :- OptionalOpaque(g, StateIdentifierKind, s);
    var (q, rest) :- ReadQualifier(g, rest);
    Ok(StateRequest(id, q), rest)
  }

  ghost predicate MeansStateRequest(g: Grammar, r: StateRequest, q: StateRequest) {
    MeansOption(g, StateIdentifierKind, r.stateIdentifier, q.stateIdentifier) && MeansQualifier(g, r.qualifier, q.qualifier)
  }

  lemma StateRequestReads(g: Grammar, r: StateRequest, q: StateRequest, rest: Bytes)
    requires MeansStateRequest(g, r, q)
    ensures var p := ReadStateRequest(g, StateRequestBytes(r) + rest);
            (p == Ok(q, rest) <==> QualifierDelimited(q.qualifier, rest)) &&
            (!QualifierDelimited(q.qualifier, rest) ==> p.Err? || p.value != q)
  {
    var head, body := OptionalOpaqueBytes(r.stateIdentifier), QualifierBytes(r.qualifier);
    Assoc(head, body, rest);
    OptionReads(g, StateIdentifierKind, r.stateIdentifier, q.stateIdentifier, body + rest);
    QualifierReads(g, r.qualifier, q.qualifier, rest);
  }

  lemma StateRequestExact(g: Grammar, s: Bytes) returns (r: StateRequest)
    requires Delimiting(g) && ReadStateRequest(g, s).Ok?
    ensures var p := ReadStateRequest(g, s);
            MeansStateRequest(g, r, p.value) && QualifierDelimited(p.value.qualifier, p.rest) && StateRequestBytes(r) + p.rest == s
  {
    var id := OptionalOpaque(g, StateIdentifierKind, s);
    var head := OptionExact(g, StateIdentifierKind, s);
    var body := QualifierExact(g, id.rest);
    Assoc(OptionalOpaqueBytes(head), QualifierBytes(body), ReadQualifier(g, id.rest).rest);
    r := StateRequest(head, body);
  }

  // ---- get requests ----

  datatype GetRequest =
    | Record(recordTag: U16, key: Bytes)
    | Information(infoTag: U16, key: Bytes)
    | State(request: StateRequest)
    | Trie(trieKey: Hash32)

  function GetSize(r: GetRequest): nat {
    1 + match r
        case Record(_, k) => 2 + (4 + |k|)
        case Information(_, k) => 2 + (4 + |k|)
        case State(q) => StateRequestSize(q)
        case Trie(_) => 32
  }

  function GetBytes(r: GetRequest): (bs: Bytes)
    ensures |bs| == GetSize(r)
  {
    match r
    case Record(t, k) => [0] + (ToLe(t, 2) + BlobBytes(k))
    case Information(t, k) => [1] + (ToLe(t, 2) + BlobBytes(k))
    case State(q) => [2] + StateRequestBytes(q)
    case Trie(d) => [3] + d
  }

  function ReadU16(s: Bytes): Parsed<U16> {
    var (b, rest) :- Fixed(2, s);
    U32Limit();
    Ok(FromLe(b), rest)
  }

  function ReadGet(g: Grammar, s: Bytes): Parsed<GetRequest> {
    var (tag, rest) :- U8(s);
    match tag
    case 0 =>
      var (t, rest) :- ReadU16(rest);
      var (k, rest) :- Blob(rest);
      Ok(Record(t, k), rest)
    case 1 =>
      var (t, rest) :- ReadU16(rest);
      var (k, rest) :- Blob(rest);
      Ok(Information(t, k), rest)
    case 2 => var (q, rest) :- ReadStateRequest(g, rest); Ok(State(q), rest)
    case 3 => var (d, rest) :- Hash(rest); Ok(Trie(d), rest)
    case _ => Err(Formatting)
  }

  ghost predicate MeansGet(g: Grammar, r: GetRequest, q: GetRequest) {
    match q
    case State(request) => r.State? && MeansStateRequest(g, r.request, request)
    case Trie(_) => r == q
    case _ => r == q && |q.key| < U32_LIMIT
  }

  predicate GetDelimited(r: GetRequest, rest: Bytes) {
    r.State? ==> QualifierDelimited(r.request.qualifier, rest)
  }

  lemma TaggedKeyReads(tag: byte, t: U16, key: Bytes, rest: Bytes)
    requires |key| < U32_LIMIT
    ensures U8([tag] + (ToLe(t, 2) + BlobBytes(key)) + rest) == Ok(tag, ToLe(t, 2) + BlobBytes(key) + rest)
    ensures ReadU16(ToLe(t, 2) + BlobBytes(key) + rest) == Ok(t, BlobBytes(key) + rest)
    ensures Blob(BlobBytes(key) + rest) == Ok(key, rest)
  {
    TagReads(tag, ToLe(t, 2) + BlobBytes(key), rest);
    Assoc(ToLe(t, 2), BlobBytes(key), rest);
    U32Limit();
    IntReads(t, 2, BlobBytes(key) + rest);
    BlobReads(key, rest);
  }

  lemma GetReads(g: Grammar, r: GetRequest, q: GetRequest, rest: Bytes)
    requires MeansGet(g, r, q)
    ensures var p := ReadGet(g, GetBytes(r) + rest);
            (p == Ok(q, rest) <==> GetDelimited(q, rest)) && (!GetDelimited(q, rest) ==> p.Err? || p.value != q)
  {
    match r
    case Record(t, k) => TaggedKeyReads(0, t, k, rest);
    case Information(t, k) => TaggedKeyReads(1, t, k, rest);
    case State(request) => TagReads(2, StateRequestBytes(request), rest); StateRequestReads(g, request, q.request, rest);
    case Trie(d) => TagReads(3, d, rest); HashReads(d, rest);
  }

  lemma TaggedKeyExact(g: Grammar, s: Bytes)
    requires s != [] && s[0] <= 1 && ReadGet(g, s).Ok?
    ensures var p := ReadGet(g, s);
            MeansGet(g, p.value, p.value) && GetBytes(p.value) + p.rest == s
  {
    var t := ReadU16(s[1..]);
    IntExact(2, s[1..]);
    BlobExact(t.rest);
    PartsExact(s, ToLe(t.value, 2), BlobBytes(Blob(t.rest).value), Blob(t.rest).rest);
  }

  lemma GetExact(g: Grammar, s: Bytes) returns (r: GetRequest)
    requires Delimiting(g) && ReadGet(g, s).Ok?
    ensures var p := ReadGet(g, s);
            MeansGet(g, r, p.value) && GetDelimited(p.value, p.rest) && GetBytes(r) + p.rest == s
  {
    var p := ReadGet(g, s);
    r := p.value;
    if s[0] <= 1 {
      TaggedKeyExact(g, s);
    } else if s[0] == 2 {
      var request := StateRequestExact(g, s[1..]);
      r := State(request);
      Assoc([2], StateRequestBytes(request), p.rest);
    } else {
      Assoc([3], p.value.trieKey, p.rest);
    }
  }

  // ---- commands ----

  datatype CommandTag = GetTag | TryAcceptTag | TrySpeculativeTag

  datatype Command = Get(request: GetRequest) | TryAccept(transaction: Opaque) | TrySpeculativeExec(transaction: Opaque)

  function Tag(c: Command): CommandTag {
    match c
    case Get(_) => GetTag
    case TryAccept(_) => TryAcceptTag
    case TrySpeculativeExec(_) => TrySpeculativeTag
  }

  function CommandSize(c: Command): nat {
    if c.Get? then GetSize(c.request) else |c.transaction|
  }

  function CommandBytes(c: Command): (bs: Bytes)
    ensures |bs| == CommandSize(c)
  {
    if c.Get? then GetBytes(c.request) else c.transaction
  }

  function ReadCommand(g: Grammar, tag: CommandTag, s: Bytes): Parsed<Command> {
    match tag
    case GetTag => var (r, rest) :- ReadGet(g, s); Ok(Get(r), rest)
    case TryAcceptTag => var (t, rest) :- g.read(TransactionKind, s); Ok(TryAccept(t), rest)
    case TrySpeculativeTag => var (t, rest) :- g.read(TransactionKind, s); Ok(TrySpeculativeExec(t), rest)
  }

  /** Decodes a command and refuses anything left over. */
  function TryFrom(g: Grammar, tag: CommandTag, s: Bytes): Parsed<Command> {
    var (c, rest) :- ReadCommand(g, tag, s);
    if rest == [] then Ok(c, []) else Err(LeftOverBytes)
  }

  /** `r` is `c` with its opaque leaves spelled in some way. */
  ghost predicate MeansCommand(g: Grammar, r: Command, c: Command) {
    match c
    case Get(q) => r.Get? && MeansGet(g, r.request, q)
    case TryAccept(t) => r.TryAccept? && Spells(g, TransactionKind, r.transaction, t)
    case TrySpeculativeExec(t) => r.TrySpeculativeExec? && Spells(g, TransactionKind, r.transaction, t)
  }

  /** The round-trip law holds of every leaf, and every length fits its field. */
  ghost predicate ValidCommand(g: Grammar, c: Command) {
    MeansCommand(g, c, c)
  }

  /** The bytes are the layout of the command around some spellings of its leaves. */
  ghost predicate SpellsCommand(g: Grammar, s: Bytes, c: Command) {
    exists r :: MeansCommand(g, r, c) && s == CommandBytes(r)
  }

  lemma SpelledCommandReads(g: Grammar, r: Command, c: Command)
    requires MeansCommand(g, r, c)
    ensures TryFrom(g, Tag(c), CommandBytes(r)) == Ok(c, [])
  {
    assert CommandBytes(r) + [] == CommandBytes(r);
    if c.Get? {
      GetReads(g, r.request, c.request, []);
    } else {
      assert g.read(TransactionKind, r.transaction + []) == Ok(c.transaction, []);
    }
  }

  /** Every command comes back, because the one undelimited member is always at the very end. */
  lemma CommandRoundTrip(g: Grammar, c: Command)
    requires ValidCommand(g, c)
    ensures TryFrom(g, Tag(c), CommandBytes(c)) == Ok(c, [])
  {
    SpelledCommandReads(g, c, c);
  }

  /** Nothing but spellings of a command is accepted as that command, and only under its tag. */
  lemma CommandIsExact(g: Grammar, tag: CommandTag, s: Bytes, c: Command)
    requires Delimiting(g)
    ensures TryFrom(g, tag, s) == Ok(c, []) <==> tag == Tag(c) && SpellsCommand(g, s, c)
  {
    if TryFrom(g, tag, s) == Ok(c, []) {
      if c.Get? {
        var q := GetExact(g, s);
        assert GetBytes(q) + [] == GetBytes(q);
        assert MeansCommand(g, Get(q), c) && s == CommandBytes(Get(q));
      } else {
        var p := Spelled(g, TransactionKind, s);
        assert p + [] == p;
        var r := if c.TryAccept? then TryAccept(p) else TrySpeculativeExec(p);
        assert MeansCommand(g, r, c) && s == CommandBytes(r);
      }
    }
    if tag == Tag(c) && SpellsCommand(g, s, c) {
      var r :| MeansCommand(g, r, c) && s == CommandBytes(r);
      SpelledCommandReads(g, r, c);
    }
  }

  /** Bytes after a command never decode to the same command. */
  lemma SuffixIsNoticed(g: Grammar, c: Command, suffix: Bytes)
    requires ValidCommand(g, c) && suffix != []
    ensures TryFrom(g, Tag(c), CommandBytes(c) + suffix) != Ok(c, [])
  {
    if c.Get? {
      GetReads(g, c.request, c.request, suffix);
    } else {
      assert g.read(TransactionKind, c.transaction + suffix) == Ok(c.transaction, suffix);
    }
  }

  /** But they can turn it into another: a query for an entity becomes one for a topic. */
  lemma SuffixCanChangeTheQuery(g: Grammar, e: EntityAddr, topic: Hash32)
    ensures var query := (p: KeyPrefix) => Get(State(StateRequest(None, ItemsByPrefix(p))));
            TryFrom(g, GetTag, CommandBytes(query(MessagesByEntity(e))) + topic) == Ok(query(MessagesByEntityAndTopic(e, topic)), [])
  {
    var p := KeyPrefixBytes(MessagesByEntity(e));
    var s := [2] + ([0] + ([4] + p)) + topic;
    TagReads(2, [0] + ([4] + p), topic);
    TagReads(0, [4] + p, topic);
    TagReads(4, p, topic);
    PrefixTakesSuffixForTopic(e, topic, []);
    assert topic + [] == topic;
  }

  // ---- headers ----

  datatype CommandHeader = CommandHeader(version: U16, typeTag: byte, id: U16)

  function HeaderBytes(h: CommandHeader): (bs: Bytes)
    ensures |bs| == 5
  {
    ToLe(h.version, 2) + ([h.typeTag] + ToLe(h.id, 2))
  }

  function ReadHeader(s: Bytes): Parsed<CommandHeader> {
    var (version, rest) :- ReadU16(s);
    var (typeTag, rest) :- U8(rest);
    var (id, rest) :- ReadU16(rest);
    Ok(CommandHeader(version, typeTag, id), rest)
  }
}
