/**
 How many byte strings stand for one command. The layout around the leaves of a command
 leaves no choice, so a command has one spelling exactly when its leaves have; keys with
 padding (types/src/key.rs) show that some leaves have many.
 */
module WireSpellings {
  import opened Bytes
  import opened Wire
  import opened WireIdentifiers
  import opened WireRequests

  ghost predicate OneSpelling(g: Grammar, k: Kind, v: Opaque) {
    forall p :: Spells(g, k, p, v) ==> p == v
  }

  // ---- the leaves of a command ----

  /** The values inside that readers of other types take off the wire. */
  function QualifierLeaves(q: Qualifier): set<(Kind, Opaque)> {
    match q
    case Item(k, _) => {(KeyKind, k)}
    case DictionaryQuery(SeedURef(u, _)) => {(URefKind, u)}
    case Balance(Purse(u)) => {(URefKind, u)}
    case Balance(PublicKeyPurse(k)) => {(PublicKeyKind, k)}
    case _ => {}
  }

  function StateRequestLeaves(r: StateRequest): set<(Kind, Opaque)> {
    (if r.stateIdentifier.Some? then {(StateIdentifierKind, r.stateIdentifier.value)} else {}) + QualifierLeaves(r.qualifier)
  }

  function Leaves(c: Command): set<(Kind, Opaque)> {
    match c
    case Get(State(r)) => StateRequestLeaves(r)
    case Get(_) => {}
    case TryAccept(t) => {(TransactionKind, t)}
    case TrySpeculativeExec(t) => {(TransactionKind, t)}
  }

  ghost predicate AllOneSpelling(g: Grammar, leaves: set<(Kind, Opaque)>) {
    forall l | l in leaves :: OneSpelling(g, l.0, l.1)
  }

  // ---- respelling a leaf ----

  /** The qualifier with other bytes for its leaf, if it has one. */
  function Respelled(q: Qualifier, p: Bytes): Qualifier {
    match q
    case Item(_, path) => Item(p, path)
    case DictionaryQuery(SeedURef(_, k)) => DictionaryQuery(SeedURef(p, k))
    case Balance(Purse(_)) => Balance(Purse(p))
    case Balance(PublicKeyPurse(_)) => Balance(PublicKeyPurse(p))
    case _ => q
  }

  lemma QualifierSpellings(g: Grammar, q: Qualifier)
    requires MeansQualifier(g, q, q)
    ensures (forall r :: MeansQualifier(g, r, q) ==> r == q) <==> AllOneSpelling(g, QualifierLeaves(q))
  {
    if forall r :: MeansQualifier(g, r, q) ==> r == q {
      forall l, p | l in QualifierLeaves(q) && Spells(g, l.0, p, l.1) ensures p == l.1 {
        assert MeansQualifier(g, Respelled(q, p), q);
      }
    }
    if AllOneSpelling(g, QualifierLeaves(q)) {
      forall r | MeansQualifier(g, r, q) ensures r == q {
        LeafDecides(g, r, q);
      }
    }
  }

  lemma LeafDecides(g: Grammar, r: Qualifier, q: Qualifier)
    requires MeansQualifier(g, r, q) && AllOneSpelling(g, QualifierLeaves(q))
    ensures r == q
  {
    match q
    case Item(k, _) => assert (KeyKind, k) in QualifierLeaves(q);
    case DictionaryQuery(SeedURef(u, _)) => assert (URefKind, u) in QualifierLeaves(q);
    case Balance(Purse(u)) => assert (URefKind, u) in QualifierLeaves(q);
    case Balance(PublicKeyPurse(k)) => assert (PublicKeyKind, k) in QualifierLeaves(q);
    case _ =>
  }

  lemma StateRequestSpellings(g: Grammar, q: StateRequest)
    requires MeansStateRequest(g, q, q)
    ensures (forall r :: MeansStateRequest(g, r, q) ==> r == q) <==> AllOneSpelling(g, StateRequestLeaves(q))
  {
    hide MeansQualifier, QualifierLeaves;
    var id, body := q.stateIdentifier, q.qualifier;
    QualifierSpellings(g, body);
    if forall r :: MeansStateRequest(g, r, q) ==> r == q {
      forall r | MeansQualifier(g, r, body) ensures r == body {
        assert MeansStateRequest(g, StateRequest(id, r), q);
      }
      if id.Some? {
        forall p | Spells(g, StateIdentifierKind, p, id.value) ensures p == id.value {
          assert MeansStateRequest(g, StateRequest(Some(p), body), q);
        }
      }
    }
    if AllOneSpelling(g, StateRequestLeaves(q)) {
      assert forall l | l in QualifierLeaves(body) :: l in StateRequestLeaves(q);
      assert id.Some? ==> (StateIdentifierKind, id.value) in StateRequestLeaves(q);
    }
  }

  lemma CommandSpellings(g: Grammar, c: Command)
    requires ValidCommand(g, c)
    ensures (forall r :: MeansCommand(g, r, c) ==> r == c) <==> AllOneSpelling(g, Leaves(c))
  {
    hide MeansStateRequest, StateRequestLeaves;
    match c
    case Get(State(q)) =>
      StateRequestSpellings(g, q);
      if forall r :: MeansCommand(g, r, c) ==> r == c {
        forall r | MeansStateRequest(g, r, q) ensures r == q {
          assert MeansCommand(g, Get(State(r)), c);
        }
      }
    case Get(_) =>
    case TryAccept(t) =>
      assert (TransactionKind, t) in Leaves(c);
      assert forall p :: MeansCommand(g, TryAccept(p), c) <==> Spells(g, TransactionKind, p, t);
    case TrySpeculativeExec(t) =>
      assert (TransactionKind, t) in Leaves(c);
      assert forall p :: MeansCommand(g, TrySpeculativeExec(p), c) <==> Spells(g, TransactionKind, p, t);
  }

  // ---- different leaves make different bytes ----

  /** A spelling says itself where it ends. */
  lemma SpellingsEnd(g: Grammar, k: Kind, p: Bytes, v: Opaque, tail: Bytes, tail': Bytes)
    requires Spells(g, k, p, v) && ValidOpaque(g, k, v) && p + tail == v + tail'
    ensures p == v && tail == tail'
  {
    assert g.read(k, p + tail) == Ok(v, tail) && g.read(k, v + tail') == Ok(v, tail');
    assert p == (p + tail)[..|p|] && v == (v + tail')[..|v|];
  }

  lemma Untag(tag: byte, a: Bytes, b: Bytes)
    requires [tag] + a == [tag] + b
    ensures a == b
  {
    assert ([tag] + a)[1..] == a && ([tag] + b)[1..] == b;
  }

  lemma QualifierInjective(g: Grammar, r: Qualifier, q: Qualifier)
    requires MeansQualifier(g, q, q) && MeansQualifier(g, r, q) && QualifierBytes(r) == QualifierBytes(q)
    ensures r == q
  {
    match q
    case Item(k, path) =>
      Untag(0, r.baseKey + TextListBytes(path), k + TextListBytes(path));
      SpellingsEnd(g, KeyKind, r.baseKey, k, TextListBytes(path), TextListBytes(path));
    case DictionaryQuery(SeedURef(u, k)) =>
      var p := r.identifier.seed;
      Untag(2, [3] + (p + BlobBytes(k)), [3] + (u + BlobBytes(k)));
      Untag(3, p + BlobBytes(k), u + BlobBytes(k));
      SpellingsEnd(g, URefKind, p, u, BlobBytes(k), BlobBytes(k));
    case Balance(Purse(u)) =>
      Untag(3, [2] + r.purse.uref, [2] + u);
      Untag(2, r.purse.uref, u);
    case Balance(PublicKeyPurse(k)) =>
      Untag(3, [3] + r.purse.key, [3] + k);
      Untag(3, r.purse.key, k);
    case _ =>
  }

  lemma StateRequestInjective(g: Grammar, r: StateRequest, q: StateRequest)
    requires MeansStateRequest(g, q, q) && MeansStateRequest(g, r, q) && StateRequestBytes(r) == StateRequestBytes(q)
    ensures r == q
  {
    hide MeansQualifier, QualifierBytes;
    var x, y := QualifierBytes(r.qualifier), QualifierBytes(q.qualifier);
    if q.stateIdentifier.None? {
      Untag(0, x, y);
    } else {
      var p, v := r.stateIdentifier.value, q.stateIdentifier.value;
      Assoc([1], p, x);
      Assoc([1], v, y);
      Untag(1, p + x, v + y);
      SpellingsEnd(g, StateIdentifierKind, p, v, x, y);
    }
    QualifierInjective(g, r.qualifier, q.qualifier);
  }

  lemma CommandInjective(g: Grammar, r: Command, c: Command)
    requires ValidCommand(g, c) && MeansCommand(g, r, c) && CommandBytes(r) == CommandBytes(c)
    ensures r == c
  {
    hide MeansStateRequest, StateRequestBytes;
    match c
    case Get(State(q)) =>
      Untag(2, StateRequestBytes(r.request.request), StateRequestBytes(q));
      StateRequestInjective(g, r.request.request, q);
    case _ =>
  }

  /** The encoder's bytes are the only ones accepted as the command exactly when each leaf has one spelling. */
  lemma OneSpellingPerCommand(g: Grammar, c: Command)
    requires Delimiting(g) && ValidCommand(g, c)
    ensures (forall s :: TryFrom(g, Tag(c), s) == Ok(c, []) ==> s == CommandBytes(c)) <==> AllOneSpelling(g, Leaves(c))
  {
    hide MeansCommand, CommandBytes, TryFrom, Leaves;
    CommandSpellings(g, c);
    if forall s :: TryFrom(g, Tag(c), s) == Ok(c, []) ==> s == CommandBytes(c) {
      forall r | MeansCommand(g, r, c) ensures r == c {
        SpelledCommandReads(g, r, c);
        CommandInjective(g, r, c);
      }
    }
    if forall r :: MeansCommand(g, r, c) ==> r == c {
      forall s | TryFrom(g, Tag(c), s) == Ok(c, []) ensures s == CommandBytes(c) {
        CommandIsExact(g, Tag(c), s, c);
      }
    }
  }

  // ---- keys with padding ----

  /** Registries and the like: nothing but a tag, filled up to the length of a hash. */
  predicate IsPadded(tag: byte) {
    tag == 10 || tag == 11 || tag == 13 || tag == 14 || tag == 25
  }

  function Zeros(): Hash32 {
    seq(32, _ => 0)
  }

  /** Takes the padding off without looking at it. */
  function PaddedKey(s: Bytes): Parsed<Opaque>
    requires s != [] && IsPadded(s[0])
  {
    var (padding, rest) :- Fixed(32, s[1..]);
    Ok([s[0]] + Zeros(), rest)
  }

  ghost predicate ReadsPaddedKeys(g: Grammar) {
    forall s: Bytes | s != [] && IsPadded(s[0]) :: g.read(KeyKind, s) == PaddedKey(s)
  }

  lemma PaddingSpells(g: Grammar, tag: byte, padding: Hash32)
    requires ReadsPaddedKeys(g) && IsPadded(tag)
    ensures Spells(g, KeyKind, [tag] + padding, [tag] + Zeros())
  {
    forall rest ensures g.read(KeyKind, [tag] + padding + rest) == Ok([tag] + Zeros(), rest) {
      TagReads(tag, padding, rest);
      FixedReads(padding, rest);
      assert ([tag] + padding + rest)[0] == tag;
    }
  }

  /** Whatever fills up the key, the node takes the request for the one with zeros, which is all a client writes. */
  lemma PaddingIsNotRead(g: Grammar, tag: byte, padding: Hash32, path: seq<Bytes>)
    requires ReadsPaddedKeys(g) && IsPadded(tag) && ValidTexts(g, path)
    ensures var request := (key: Bytes) => Get(State(StateRequest(None, Item(key, path))));
            var sent, meant := request([tag] + padding), request([tag] + Zeros());
            TryFrom(g, GetTag, CommandBytes(sent)) == Ok(meant, []) &&
            (CommandBytes(sent) == CommandBytes(meant) <==> padding == Zeros())
  {
    var sent := Get(State(StateRequest(None, Item([tag] + padding, path))));
    var meant := Get(State(StateRequest(None, Item([tag] + Zeros(), path))));
    PaddingSpells(g, tag, padding);
    PaddingSpells(g, tag, Zeros());
    assert MeansCommand(g, sent, meant) && ValidCommand(g, meant);
    SpelledCommandReads(g, sent, meant);
    if CommandBytes(sent) == CommandBytes(meant) {
      CommandInjective(g, sent, meant);
      Untag(tag, padding, Zeros());
    }
  }

  /** Readers that know keys with padding and nothing else. */
  function ReadPadded(k: Kind, s: Bytes): Parsed<Opaque> {
    if k == KeyKind && s != [] && IsPadded(s[0]) then PaddedKey(s) else Err(Formatting)
  }

  function PaddingGrammar(): Grammar {
    Grammar(ReadPadded, _ => true)
  }

  lemma PaddingGrammarIsDelimiting()
    ensures Delimiting(PaddingGrammar()) && ReadsPaddedKeys(PaddingGrammar())
  {
    var g := PaddingGrammar();
    forall k, s | g.read(k, s).Ok? ensures TakesSpelling(g, k, s) {
      assert g.read(k, s) == ReadPadded(k, s);
      var rest := g.read(k, s).rest;
      assert s[..|s| - |rest|] == [s[0]] + s[1..33];
      PaddingSpells(g, s[0], s[1..33]);
    }
  }
}
