/**
 Entity and message addresses as text (types/src/addressable_entity.rs,
 types/src/contract_messages.rs): the printers, and parsers that accept exactly the
 spellings of an address.
 */
module AddressTexts {
  import opened Bytes
  import opened Texts
  import opened WireIdentifiers
  import opened StateKeys
  import opened H = ChecksummedHex

  datatype TextError = InvalidPrefix | MissingMessageIndex | BadHex | BadLength | BadInt

  datatype Text<T> = Parsed(value: T) | Failed(error: TextError)

  const ENTITY_PREFIX := "entity-"
  const MESSAGE_PREFIX := "message-"
  const TOPIC_PREFIX := "topic-"

  // ---- hashes ----

  /** 32 bytes in any accepted hexadecimal spelling. */
  method HashFromText(h: Digest32, s: string) returns (r: Text<Hash32>)
    requires Digests(h)
    ensures forall b: Hash32 :: r == Parsed(b) <==> Accepted(h, s, b)
    ensures r == Failed(BadLength) <==> exists b :: Accepted(h, s, b) && |b| != 32
    ensures r == Failed(BadHex) <==> forall b :: !Accepted(h, s, b)
  {
    hide Accepted;
    var d := Decode(h, s);
    if d.Err? {
      return Failed(BadHex);
    }
    if |d.bytes| != 32 {
      return Failed(BadLength);
    }
    r := Parsed(d.bytes);
  }

  lemma LowerHexIsAccepted(h: Digest32, b: Hash32)
    requires Digests(h)
    ensures Accepted(h, LowerHex(b), b)
  {
    AtMostThreeSpellings(h, LowerHex(b), b);
  }

  lemma AcceptedHasNoDash(h: Digest32, s: string, b: Bytes)
    requires Digests(h) && Accepted(h, s, b)
    ensures Free(s, '-')
  {
    forall i | 0 <= i < |s| ensures s[i] != '-' {
      assert HexValue(s[i]).Some?;
    }
  }

  // ---- entity addresses ----

  function KindPrefix(e: EntityAddr): string {
    match e
    case SystemAddr(_) => "system-"
    case AccountAddr(_) => "account-"
    case ContractAddr(_) => "contract-"
  }

  function EntityText(e: EntityAddr): string {
    ENTITY_PREFIX + KindPrefix(e) + LowerHex(e.addr)
  }

  /** The spellings of an entity address: only the hash can be spelled in more than one way. */
  ghost predicate SpellsEntity(h: Digest32, s: string, e: EntityAddr)
    requires Digests(h)
  {
    var prefix := ENTITY_PREFIX + KindPrefix(e);
    prefix <= s && Accepted(h, s[|prefix|..], e.addr)
  }

  function Strip(s: string, prefix: string): Option<string> {
    if prefix <= s then Some(s[|prefix|..]) else None
  }

  lemma StripTwice(s: string, p: string, q: string)
    ensures p + q <= s <==> p <= s && q <= s[|p|..]
    ensures p + q <= s ==> s[|p + q|..] == s[|p|..][|q|..]
  {
    if p + q <= s {
      assert s[..|p|] == (p + q)[..|p|] == p;
      assert s[|p|..][..|q|] == s[|p|..|p| + |q|] == (p + q)[|p|..] == q;
    }
    if p <= s && q <= s[|p|..] {
      assert s == p + s[|p|..] && s[|p|..] == q + s[|p|..][|q|..];
      Assoc(p, q, s[|p|..][|q|..]);
      assert (p + q) <= (p + q) + s[|p|..][|q|..];
    }
  }

  method EntityFromText(h: Digest32, s: string) returns (r: Text<EntityAddr>)
    requires Digests(h)
    ensures forall e: EntityAddr :: r == Parsed(e) <==> SpellsEntity(h, s, e)
    ensures !("entity-" <= s) ==> r == Failed(InvalidPrefix)
  {
    var zero: Hash32 := seq(32, _ => 0);
    forall e: EntityAddr
      ensures SpellsEntity(h, s, e) <==>
              ENTITY_PREFIX <= s && KindPrefix(e) <= s[7..] && Accepted(h, s[7..][|KindPrefix(e)|..], e.addr)
    {
      StripTwice(s, ENTITY_PREFIX, KindPrefix(e));
    }
    var rest := Strip(s, ENTITY_PREFIX);
    if rest.None? {
      return Failed(InvalidPrefix);
    }
    var kinds := [SystemAddr(zero), AccountAddr(zero), ContractAddr(zero)];
    OneKind(rest.value);
    if KindPrefix(kinds[0]) <= rest.value {
      var hash := HashFromText(h, rest.value[7..]);
      r := match hash case Parsed(b) => Parsed(SystemAddr(b)) case Failed(e) => Failed(e);
    } else if KindPrefix(kinds[1]) <= rest.value {
      var hash := HashFromText(h, rest.value[8..]);
      r := match hash case Parsed(b) => Parsed(AccountAddr(b)) case Failed(e) => Failed(e);
    } else if KindPrefix(kinds[2]) <= rest.value {
      var hash := HashFromText(h, rest.value[9..]);
      r := match hash case Parsed(b) => Parsed(ContractAddr(b)) case Failed(e) => Failed(e);
    } else {
      r := Failed(InvalidPrefix);
    }
  }

  /** No text starts with two of the kinds. */
  lemma OneKind(s: string)
    ensures "system-" <= s ==> !("account-" <= s) && !("contract-" <= s)
    ensures "account-" <= s ==> !("contract-" <= s)
  {
    assert "system-"[0] == 's' && "account-"[0] == 'a' && "contract-"[0] == 'c';
  }

  lemma EntityTextIsASpelling(h: Digest32, e: EntityAddr)
    requires Digests(h)
    ensures SpellsEntity(h, EntityText(e), e)
  {
    LowerHexIsAccepted(h, e.addr);
    var prefix := ENTITY_PREFIX + KindPrefix(e);
    assert EntityText(e)[|prefix|..] == LowerHex(e.addr);
  }

  // ---- message indices ----

  function HexText(n: nat): (s: string)
    ensures s != "" && Free(s, '-') && s[0] != '+'
  {
    CharValues(n % 16);
    if n < 16 then [LowerChar(n)] else HexText(n / 16) + [LowerChar(n % 16)]
  }

  function HexNumber(s: string): Option<nat> {
    if s == "" then Some(0)
    else
      match (HexNumber(s[..|s| - 1]), HexValue(s[|s| - 1]))
      case (Some(n), Some(d)) => Some(16 * n + d)
      case _ => None
  }

  /** An unsigned 32-bit number in base 16; a leading plus sign is allowed before digits. */
  function IndexFromText(s: string): Option<U32> {
    var digits := if |s| > 1 && s[0] == '+' then s[1..] else s;
    if digits == "" then None
    else
      match HexNumber(digits)
      case Some(n) => if n < 0x1_0000_0000 then Some(n) else None
      case None => None
  }

  lemma {:induction false} HexTextReads(n: nat)
    ensures HexNumber(HexText(n)) == Some(n)
  {
    var s := HexText(n);
    CharValues(n % 16);
    if n < 16 {
      assert s[..0] == "";
    } else {
      HexTextReads(n / 16);
      assert s[..|s| - 1] == HexText(n / 16);
    }
  }

  lemma {:induction false} HexNumberHasNoDash(s: string)
    requires HexNumber(s).Some?
    ensures Free(s, '-')
  {
    if s != "" {
      HexNumberHasNoDash(s[..|s| - 1]);
    }
  }

  lemma IndexHasNoDash(s: string)
    requires IndexFromText(s).Some?
    ensures Free(s, '-')
  {
    var digits := if |s| > 1 && s[0] == '+' then s[1..] else s;
    HexNumberHasNoDash(digits);
    assert s == (if |s| > 1 && s[0] == '+' then ['+'] + digits else digits);
  }

  // ---- message addresses ----

  function PairText(a: MessageAddr): string {
    EntityText(a.entity) + ['-'] + LowerHex(a.topic)
  }

  function MessageText(a: MessageAddr): string {
    match a.index
    case Some(i) => MESSAGE_PREFIX + (PairText(a) + ['-'] + HexText(i))
    case None => MESSAGE_PREFIX + (TOPIC_PREFIX + PairText(a))
  }

  /** The printed forms, spelled out. */
  lemma EntityForm(e: EntityAddr)
    ensures EntityText(e) == (if e.SystemAddr? then "entity-system-" else if e.AccountAddr? then "entity-account-" else "entity-contract-") + LowerHex(e.addr)
  {
    hide LowerHex;
  }

  lemma MessageForm(a: MessageAddr)
    ensures a.index.None? ==> MessageText(a) == "message-topic-" + (EntityText(a.entity) + "-" + LowerHex(a.topic))
    ensures a.index.Some? ==> MessageText(a) == "message-" + (EntityText(a.entity) + "-" + LowerHex(a.topic) + "-" + HexText(a.index.value))
  {
    hide LowerHex, EntityText, HexText;
    Assoc(MESSAGE_PREFIX, TOPIC_PREFIX, PairText(a));
    assert MESSAGE_PREFIX + TOPIC_PREFIX == "message-topic-";
  }

  /** Each digit counts sixteen times the next. */
  lemma NumberByDigits(s: string, c: char)
    ensures HexNumber("") == Some(0)
    ensures HexNumber(s + [c]) == if HexNumber(s).Some? && HexValue(c).Some? then Some(16 * HexNumber(s).value + HexValue(c).value) else None
  {
    assert (s + [c])[..|s|] == s;
  }

  /** A plus sign in front of an index changes nothing, and more than 32 bits are none. */
  lemma IndexByDigits(s: string)
    requires s != "" && s[0] != '+'
    ensures IndexFromText(s) == IndexFromText("+" + s)
    ensures IndexFromText(s) == if HexNumber(s).Some? && HexNumber(s).value < 0x1_0000_0000 then Some(HexNumber(s).value) else None
  {
    hide HexNumber;
    assert ("+" + s)[1..] == s && ("+" + s)[0] == '+';
  }

  /** An index is printed in lower case and without leading zeros. */
  lemma {:induction false} HexTextForm(n: nat)
    ensures forall i | 0 <= i < |HexText(n)| :: HexText(n)[i] in "0123456789abcdef"
    ensures n > 0 ==> HexText(n)[0] != '0'
  {
    if n >= 16 {
      HexTextForm(n / 16);
    }
  }

  /** An entity spelling, a dash, a topic spelling. */
  ghost predicate SpellsPair(h: Digest32, s: string, e: EntityAddr, t: Hash32)
    requires Digests(h)
  {
    exists x, y :: s == x + ['-'] + y && SpellsEntity(h, x, e) && Accepted(h, y, t)
  }

  /** A pair, a dash, an index spelling. */
  ghost predicate SpellsIndexed(h: Digest32, s: string, e: EntityAddr, t: Hash32, i: U32)
    requires Digests(h)
  {
    exists x, y :: s == x + ['-'] + y && SpellsPair(h, x, e, t) && IndexFromText(y) == Some(i)
  }

  ghost predicate SpellsMessage(h: Digest32, s: string, a: MessageAddr)
    requires Digests(h)
  {
    MESSAGE_PREFIX <= s &&
    match a.index
    case Some(i) => SpellsIndexed(h, s[8..], a.entity, a.topic, i)
    case None => TOPIC_PREFIX <= s[8..] && SpellsPair(h, s[8..][6..], a.entity, a.topic)
  }

  lemma MessagesStartWithAnEntity(h: Digest32, s: string, e: EntityAddr, t: Hash32, i: U32)
    requires Digests(h) && SpellsIndexed(h, s, e, t, i)
    ensures s != "" && s[0] == 'e'
  {
    var x, y :| s == x + ['-'] + y && SpellsPair(h, x, e, t) && IndexFromText(y) == Some(i);
    var u, v :| x == u + ['-'] + v && SpellsEntity(h, u, e) && Accepted(h, v, t);
    StripTwice(u, ENTITY_PREFIX, KindPrefix(e));
    assert u[0] == ENTITY_PREFIX[0];
  }

  /** What starts like a topic is not the spelling of a message. */
  lemma TopicsAreNotMessages(h: Digest32, s: string, e: EntityAddr, t: Hash32, i: U32)
    requires Digests(h) && TOPIC_PREFIX <= s
    ensures !SpellsIndexed(h, s, e, t, i)
  {
    assert s[0] == TOPIC_PREFIX[0];
    if SpellsIndexed(h, s, e, t, i) {
      MessagesStartWithAnEntity(h, s, e, t, i);
    }
  }

  /** The last dash is the one between entity and topic. */
  lemma PairCut(h: Digest32, s: string, e: EntityAddr, t: Hash32)
    requires Digests(h)
    ensures SpellsPair(h, s, e, t) <==>
            var cut := RSplitOnce(s, '-');
            cut.Some? && SpellsEntity(h, cut.value.0, e) && Accepted(h, cut.value.1, t)
  {
    if SpellsPair(h, s, e, t) {
      var x, y :| s == x + ['-'] + y && SpellsEntity(h, x, e) && Accepted(h, y, t);
      AcceptedHasNoDash(h, y, t);
      RSplitOnceAt(x, '-', y);
    }
  }

  lemma IndexCut(h: Digest32, s: string, e: EntityAddr, t: Hash32, i: U32)
    requires Digests(h)
    ensures SpellsIndexed(h, s, e, t, i) <==>
            var cut := RSplitOnce(s, '-');
            cut.Some? && SpellsPair(h, cut.value.0, e, t) && IndexFromText(cut.value.1) == Some(i)
  {
    if SpellsIndexed(h, s, e, t, i) {
      var x, y :| s == x + ['-'] + y && SpellsPair(h, x, e, t) && IndexFromText(y) == Some(i);
      IndexHasNoDash(y);
      RSplitOnceAt(x, '-', y);
    }
  }

  method PairFromText(h: Digest32, s: string, index: Option<U32>) returns (r: Text<MessageAddr>)
    requires Digests(h)
    ensures forall a: MessageAddr :: r == Parsed(a) <==> a.index == index && SpellsPair(h, s, a.entity, a.topic)
  {
    forall e: EntityAddr, t: Hash32
      ensures SpellsPair(h, s, e, t) <==>
              RSplitOnce(s, '-').Some? && SpellsEntity(h, RSplitOnce(s, '-').value.0, e) && Accepted(h, RSplitOnce(s, '-').value.1, t)
    {
      PairCut(h, s, e, t);
    }
    var cut := RSplitOnce(s, '-');
    if cut.None? {
      return Failed(MissingMessageIndex);
    }
    var entity := EntityFromText(h, cut.value.0);
    if entity.Failed? {
      return Failed(entity.error);
    }
    var topic := HashFromText(h, cut.value.1);
    if topic.Failed? {
      return Failed(topic.error);
    }
    r := Parsed(MessageAddr(entity.value, topic.value, index));
  }

  /** The exact language of message addresses. */
  method MessageFromText(h: Digest32, s: string) returns (r: Text<MessageAddr>)
    requires Digests(h)
    ensures forall a: MessageAddr :: r == Parsed(a) <==> SpellsMessage(h, s, a)
    ensures !("message-" <= s) ==> r == Failed(InvalidPrefix)
  {
    var rest := Strip(s, MESSAGE_PREFIX);
    if rest.None? {
      return Failed(InvalidPrefix);
    }
    var topic := Strip(rest.value, TOPIC_PREFIX);
    if topic.Some? {
      forall e: EntityAddr, t: Hash32, i: U32 ensures !SpellsIndexed(h, rest.value, e, t, i) {
        TopicsAreNotMessages(h, rest.value, e, t, i);
      }
      r := PairFromText(h, topic.value, None);
      return;
    }
    forall e: EntityAddr, t: Hash32, i: U32
      ensures SpellsIndexed(h, rest.value, e, t, i) <==>
              RSplitOnce(rest.value, '-').Some? && SpellsPair(h, RSplitOnce(rest.value, '-').value.0, e, t) &&
              IndexFromText(RSplitOnce(rest.value, '-').value.1) == Some(i)
    {
      IndexCut(h, rest.value, e, t, i);
    }
    var cut := RSplitOnce(rest.value, '-');
    if cut.None? {
      return Failed(MissingMessageIndex);
    }
    var index := IndexFromText(cut.value.1);
    if index.None? {
      return Failed(BadInt);
    }
    r := PairFromText(h, cut.value.0, index);
  }

  lemma MessageTextIsASpelling(h: Digest32, a: MessageAddr)
    requires Digests(h)
    ensures SpellsMessage(h, MessageText(a), a)
  {
    EntityTextIsASpelling(h, a.entity);
    LowerHexIsAccepted(h, a.topic);
    assert SpellsPair(h, PairText(a), a.entity, a.topic);
    var s := MessageText(a);
    match a.index
    case Some(i) =>
      HexTextReads(i);
      assert IndexFromText(HexText(i)) == Some(i);
      assert s[8..] == PairText(a) + ['-'] + HexText(i);
    case None =>
      assert s[8..] == TOPIC_PREFIX + PairText(a);
      assert s[8..][6..] == PairText(a);
  }

  /** Printing and parsing again gives the address back. */
  method MessageRoundTrip(h: Digest32, a: MessageAddr) returns (r: Text<MessageAddr>)
    requires Digests(h)
    ensures r == Parsed(a)
  {
    MessageTextIsASpelling(h, a);
    r := MessageFromText(h, MessageText(a));
  }
}
