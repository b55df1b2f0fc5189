# A verified model of the Casper node

This project models the parts of a Casper node whose correctness no finite set of examples
settles, and proves what they are for.

**The global state trie** (`Trie*.dfy`, `StateKeys.dfy`). A content-addressed store of
leaves, 256-way nodes and path-compressing extensions. A state root stands for a tree, a tree
for a map. Reading, writing, pruning, proving, key iteration and batch writes through the
in-memory cache are methods on that store, proved against the map they denote. A root digest
is a function of its map, whatever history led to it; Merkle proofs are complete and sound; a
batch ends in the same digest as single writes. The serialized keys of the global state are
prefix free, so they meet what these operations ask of their keys, and for each prefix query
it is proved which of them it finds.

**The binary port** (`LittleEndian.dfy`, `MessageCodec.dfy`, `Wire*.dfy`, `BinaryPort.dfy`).
A length-prefixed stream codec on a mutable buffer, and above it the nested request encoding.
One member at the bottom is not self-delimiting; when it survives is proved through every
layer. At the top, however the network cuts the stream, a payload is accepted as a command if
and only if it is the layout of that command around some spellings of the keys, references and
transactions in it; it is the only such payload exactly when each of these has one spelling.

**The reactor** (`RoundRobin.dfy`, `Reactor.dfy`, `RequestProtocol.dfy`). The weighted
round-robin scheduler with its bound on waiting, the event loop with causality over every
interleaving and that bound for its cranks, and the one-shot request protocol.

**Accounts, rights and views of the chain** (`KeyManagement.dfy`, `ContextRights.dfy`,
`AuctionBids.dfy`, `BlockUtilization.dfy`), and **text formats** (`ChecksummedHex.dfy`,
`Failpoints.dfy`, `AddressTexts.dfy`).

`Bytes.dfy`, `Arithmetic.dfy`, `Sums.dfy` and `Texts.dfy` hold what several of these share.
`dafny verify dfyconfig.toml` checks the whole project.

## Where the code and its promises part

The model follows the code. Where that falls short of what is documented or expected, a lemma
gives an input and another says exactly when the code does meet it.

- Reading slices the key to the length of each extension before comparing, so it can panic on
  an absent key (`TrieWalk.ReadOfAbsentKeyCanPanic`, `TrieWalk.ReadSafety`). Valid keys can
  trigger this (`StateKeys.LookupOfStateKeyCanPanic`, `StateKeys.PanickingStateExists`).
- Key iteration matches the rest of a prefix against key and value bytes together
  (`TrieKeys.PrefixQueryCanOvershoot`, `TrieKeys.PrefixQueryIsExact`). No query built from a
  key prefix is affected (`StateKeys.QueryFinds`).
- The query for all delegator bids of a validator misses those of purses
  (`StateKeys.PurseDelegatorsAreMissed`), and queries for messages bring along the records of
  their topics. `StateKeys.PrefixQueriesAreExact` says when neither happens.
- A request may be spelled in several ways: the padding of a key is not read
  (`WireSpellings.PaddingIsNotRead`), and the elements of a set, such as the approvals of a
  transaction, may come in any order (types/src/bytesrepr.rs, lines 668-679).
  `WireSpellings.OneSpellingPerCommand` says when there is one.
- The stream encoder cuts lengths to 32 bits and accepts empty payloads
  (`MessageCodec.EmptyMessageIsRefused`, `MessageCodec.OneMessageSurvives`).
- An entity's authorization check asks for one associated key, its documentation for all
  (`KeyManagement.EntityAgreesWithDocumentation`).
- The guards of an entity ignore its upgrade threshold, so it can end up out of reach
  (`KeyManagement.UpgradeThresholdCanBeLockedOut`, `KeyManagement.UpgradeStaysInReach`) or
  below the deployment threshold, which is documented to be the lowest
  (`KeyManagement.DeploymentCanExceedUpgrade`, `KeyManagement.RunKeepsUpgradeOrder`).
- With both thresholds at zero the last key can be removed
  (`KeyManagement.ZeroThresholdsLockOut`, `KeyManagement.LastKeyGoes`).
- The test for a single letter case passes a text without letters, where its documentation has
  it fail (`ChecksummedHex.SameCaseAsDocumented`); decoding is not affected
  (`ChecksummedHex.NoLettersNoChecksum`).
- A probability that is not a number is kept, where the documentation has it become zero, and
  lets every draw pass (`Failpoints.FiresAsDocumented`).

## Assumptions

- The digest of a trie element has no collisions. It is a parameter.
- Trie keys are non-empty and none is a prefix of another, which holds of all serialized keys
  (`StateKeys.StateKeysFormAKeySpace`). With other keys the write path panics and the cache
  drops subtrees.
- The encodings of keys, public keys, references, transactions and their hashes, block and
  state identifiers and delegator kinds are a parameter. A round trip asks of the values inside
  that their encodings read back; exactness asks of the readers that they take a spelling off
  the front and look no further. No value is asked to have one encoding. Strings are their
  UTF-8 bytes, and which bytes are UTF-8 is a parameter.
- JSON values and floats print and parse by parameters with a round-trip law. The hash behind
  checksummed text is any function to 32 bytes.
- Integers are unbounded except where a width is written out: lengths and wire integers,
  weights, message indices. Event ids, stakes and transaction counts do not wrap.

## Model

| member | source | states |
|---|---|---|
| TrieTree.RootFindIsMembership | storage/src/global_state/trie/mod.rs:338-360 | lookup from the root finds a value for a key exactly when that key and value are a leaf of the tree |
| TrieTree.RootDetermined | storage/src/global_state/trie/mod.rs:338-360 | a well-formed tree is determined by the map it denotes: one map, one shape |
| TrieWalk.ReadSafety | storage/src/global_state/trie_store/operations/mod.rs:51-140 | reading panics if and only if the stored keys outrun the key, a condition on the stored keys alone; in every other case it is lookup |
| TrieWalk.WalkOutcomes | storage/src/global_state/trie_store/operations/mod.rs:51-140 | the walk hits exactly the value of a stored key, panics exactly when the keys outrun it, and misses exactly the other absent keys |
| TrieWalk.StoredKeysAreRead | storage/src/global_state/trie_store/operations/mod.rs:51-140 | reading a stored key returns its value, whatever else is stored |
| TrieWalk.ReadOfAbsentKeyCanPanic | storage/src/global_state/trie_store/operations/mod.rs:119-121 | two stored keys and an absent one, none a prefix of another, for which the read panics instead of returning not-found |
| TrieOps.Trie.Read | storage/src/global_state/trie_store/operations/mod.rs:51-140 | in any store, whatever is missing from it: root-not-found exactly for a root that is not stored, and a value only from a stored leaf of the key; on a complete state the value exactly when the entry is there, a panic exactly when the stored keys outrun the key, and not-found exactly for the other absent keys |
| TrieOps.ReadEnds | storage/src/global_state/trie_store/operations/mod.rs:51-140 | the walk ends in every store without empty extensions, even one with gaps or cycles |
| TrieOps.ReadOfState | storage/src/global_state/trie_store/operations/mod.rs:51-140 | on a complete state the walk ends, with the value of a stored key, in a panic exactly when the keys outrun it, and else in not-found |
| TrieOps.GapsOnlyHide | storage/src/global_state/trie_store/operations/mod.rs:96-134 | what is read from a store with gaps is not-found or the answer of the complete state: gaps hide entries and never change one |
| TrieOps.Trie.Scan | storage/src/global_state/trie_store/operations/mod.rs:312-408 | the scan stops where the key leaves the tree, with parents whose frames rebuild the whole tree around the tip |
| TrieOps.Trie.Rehash | storage/src/global_state/trie_store/operations/mod.rs:638-686 | the rehashed elements, once stored, make the tree with the new tip plugged in reachable from the last of them |
| TrieOps.Trie.AddNodeToParents | storage/src/global_state/trie_store/operations/mod.rs:706-748 | with the node pushed, the parents stand for the frames from before and one more, the node without the child on the path; they follow the path to the leaf one byte further |
| TrieOps.Trie.ReparentLeaf | storage/src/global_state/trie_store/operations/mod.rs:750-788 | the parents of two diverging leaves fork where their keys part |
| TrieOps.Trie.SplitExtension | storage/src/global_state/trie_store/operations/mod.rs:806-863 | the split extension becomes a shorter one, a node and a remainder that lead to the same subtree |
| TrieOps.Trie.Write | storage/src/global_state/trie_store/operations/mod.rs:877-968 | the new root denotes the old map with this one entry changed; already-exists exactly when the entry is there; an unknown root changes nothing; nothing stored is lost |
| TrieOps.Trie.DetachLeaf | storage/src/global_state/trie_store/operations/mod.rs:462-511 | taking a leaf out leaves frames and a subtree that together denote the map without its key, in every shape of the surrounding nodes |
| TrieOps.Trie.Collapse | storage/src/global_state/trie_store/operations/mod.rs:500-581 | a node left with one child is replaced by that child, moved or put below an extension, with the same denotation |
| TrieOps.Trie.Propagate | storage/src/global_state/trie_store/operations/mod.rs:585-624 | rebuilding upward, joining adjacent extensions, ends in a well-formed root for the map without the key |
| TrieOps.Trie.Prune | storage/src/global_state/trie_store/operations/mod.rs:424-635 | the new root denotes the old map without the key; missing-key exactly when the key is absent; an unknown root changes nothing |
| TrieProof.ComputeStateHash | storage/src/global_state/trie_store/operations/mod.rs:1355-1390 | the loop computes the hash that the recursive definition of the proof gives |
| TrieProof.ReadWithProof | storage/src/global_state/trie_store/operations/mod.rs:145-240 | a proof with the value exactly when the entry is there, a panic exactly when the stored keys outrun the key, not-found for the other absent keys and root-not-found for an unknown root; every proof recomputes the root it was read under |
| TrieProof.ProofsAreSound | storage/src/global_state/trie_store/operations/mod.rs:1355-1390 | any proof that recomputes a state root proves an entry really in that state |
| TrieHistory.RootIsFunctionOfState | storage/src/global_state/trie/mod.rs:417-424 | states that denote the same map have the same root digest, across stores and histories |
| TrieHistory.RootCommitsToState | storage/src/global_state/trie/mod.rs:417-424 | one root digest denotes one map |
| TrieHistory.Replay | storage/src/global_state/trie_store/operations/mod.rs:424-968 | after any sequence of writes and prunes the last operation on each key decides what is read under the last root and untouched keys keep their value or absence; every earlier root still denotes the map of its time |
| TrieHistory.LastOpDecides | storage/src/global_state/trie_store/operations/mod.rs:424-968 | the last operation on a key decides its entry |
| TrieHistory.WriteThenPrune | storage/src/global_state/trie_store/operations/mod.rs:424-968 | the write of a fresh key leads to another root, which denotes the map with the entry, and pruning it gives back the very digest from before, for the map from before |
| TrieKeys.KeysIterator.Next | storage/src/global_state/trie_store/operations/mod.rs:1034-1190 | each call delivers the head of the keys still to come and leaves the tail; none left, none delivered |
| TrieKeys.KeysWithPrefix | storage/src/global_state/trie_store/operations/mod.rs:1196-1236 | the whole query delivers exactly the keys whose leaf bytes, key and value together, start with the prefix, in strictly ascending byte order, each once |
| TrieKeys.QueryAscends | storage/src/global_state/trie_store/operations/mod.rs:1034-1190 | the keys of any state that match a prefix ascend in byte order and are distinct |
| TrieKeys.QueryReturns | storage/src/global_state/trie_store/operations/mod.rs:1060-1100 | a key is delivered exactly when the prefix leads into the bytes of its leaf, key and value together |
| TrieKeys.PrefixQueryIsExact | storage/src/global_state/trie_store/operations/mod.rs:1060-1100 | the query returns exactly the keys with the prefix if and only if the prefix does not run past a stored key into its value |
| TrieKeys.PrefixQueryCanOvershoot | storage/src/global_state/trie_store/operations/mod.rs:1060-1100 | a state and a prefix for which a key that lacks the prefix is returned |
| TrieCache.LoadFromStore | storage/src/global_state/trie_store/cache/mod.rs:32-49 | loading replaces a stored pointer by a cached node that shows the same subtree |
| TrieCache.InsertInto | storage/src/global_state/trie_store/cache/mod.rs:117-257 | one insertion below any cached node yields a cache of the tree with the entry written; the early replacement at the last byte loses nothing |
| TrieCache.SplitExt | storage/src/global_state/trie_store/cache/mod.rs:197-240 | splitting a cached extension leads to the old subtree and the new leaf |
| TrieCache.InsertTreeWrites | storage/src/global_state/trie_store/cache/mod.rs:117-257 | the tree after an insertion is well formed and denotes the map with this one entry changed |
| TrieCache.TreeOfState | storage/src/global_state/trie/mod.rs:338-360 | every map over a key space has a well-formed tree; with its uniqueness, exactly one |
| TrieCache.TraverseAndStore | storage/src/global_state/trie_store/cache/mod.rs:259-310 | storing the cache overwrites nothing and returns a pointer to the tree the cache stands for |
| TrieCache.Cache.constructor | storage/src/global_state/trie_store/cache/mod.rs:102-115 | a new cache stands for the state of its root |
| TrieCache.Cache.Insert | storage/src/global_state/trie_store/cache/mod.rs:117-257 | an insertion changes one entry of the cached state and leaves the store alone |
| TrieCache.Cache.StoreCache | storage/src/global_state/trie_store/cache/mod.rs:312-321 | the returned digest is the root of the cached state |
| TrieCache.BatchWrite | storage/src/global_state/trie_store/operations/mod.rs:971-992 | after a batch the last entry for a key is what is read under the new root, and a key without entry keeps its value or its absence; an unknown root is reported and changes nothing |
| TrieCache.BatchIsSequence | storage/src/global_state/trie_store/operations/mod.rs:971-992 | batch and one-by-one writes end in the same digest, under which the last entry of each key is read and all other keys are as before |
| StateKeys.KeysArePrefixFree | types/src/key.rs:1594-1684 | no serialized global state key is a proper prefix of another |
| StateKeys.StateKeysFormAKeySpace | types/src/key.rs:1594-1684 | every set of serialized keys meets what the trie operations ask of their keys |
| StateKeys.KeyByBytes | types/src/key.rs:1594-1684 | the tags and the order of the parts of every serialized key |
| StateKeys.KeyLengths | types/src/key.rs:100-130 | the lengths of the parts |
| StateKeys.LookupOfStateKeyCanPanic | storage/src/global_state/trie_store/operations/mod.rs:119-121 | in every state whose only bids are two delegator bids of one validator by delegators that share a first byte, reading the bid of the validator itself, a valid key, panics |
| StateKeys.PanickingStateExists | storage/src/global_state/trie_store/operations/mod.rs:119-121 | there are such states, with any values |
| StateKeys.PrefixMeansBelonging | binary_port/src/key_prefix.rs:59-101 | for all eight query kinds, the query bytes are a prefix of exactly the keys the query is documented to find, less the bids of purses and with the records of topics |
| StateKeys.QueryFinds | binary_port/src/key_prefix.rs:59-101 | on a trie of valid keys, which stored keys a prefix query returns |
| StateKeys.PrefixQueriesAreExact | binary_port/src/key_prefix.rs:13-32 | on a trie of valid keys a query returns exactly the stored keys it is documented to find if and only if no bid of a purse and no topic record is stored where it looks; the five other kinds of query always do |
| StateKeys.PurseDelegatorsAreMissed | types/src/system/auction/bid_addr.rs:242-255 | the bid of a purse that delegates to the validator is one of its delegator bids and is never returned |
| LittleEndian.ReadBack | types/src/bytesrepr.rs:382-404 | writing an integer to a width and reading it back gives it modulo the width |
| LittleEndian.WriteBack | types/src/bytesrepr.rs:382-404 | every byte string is the encoding of the number it reads as |
| LittleEndian.ByteAt | types/src/bytesrepr.rs:382-404 | the byte at place i counts 256 to the power i |
| LittleEndian.ReadsAs | types/src/bytesrepr.rs:382-404 | what two and four bytes read as |
| MessageCodec.Codec.Encode | binary_port/src/binary_message.rs:54-70 | appends the frame of the item exactly when its length modulo 2^32 is within the limit, else reports that length and appends nothing |
| MessageCodec.Codec.Decode | binary_port/src/binary_message.rs:77-104 | takes exactly one frame off the front or leaves the buffer untouched |
| MessageCodec.FrameByBytes | binary_port/src/binary_message.rs:54-70 | a frame is four bytes of length, lowest first, and the payload |
| MessageCodec.LookByBytes | binary_port/src/binary_message.rs:77-104 | which outcome the bytes of a buffer give: an empty request for length zero, too large above the limit even before the payload is there, more bytes needed, or the message, and what is left |
| MessageCodec.InOrder | binary_port/src/binary_message.rs:54-104 | frames and chunks follow each other in order |
| MessageCodec.LookFindsFrames | binary_port/src/binary_message.rs:77-104 | a message is found exactly when its frame, of 1 to max bytes, is at the front |
| MessageCodec.LookIsStable | binary_port/src/binary_message.rs:77-104 | bytes that arrive later change nothing about a message or an error |
| MessageCodec.DrainInTwo | binary_port/src/binary_message.rs:77-104 | draining a prefix and then the rest is draining the whole, in messages, buffer and error |
| MessageCodec.DrainConserves | binary_port/src/binary_message.rs:77-104 | the frames of the drained messages and the rest are the buffer, byte for byte |
| MessageCodec.DrainLeaves | binary_port/src/binary_message.rs:77-104 | after a drain without error fewer than max + 4 bytes remain |
| MessageCodec.Codec.DrainBuffer | binary_port/src/binary_message.rs:77-104 | the loop over decode computes the drain |
| MessageCodec.Codec.Receive | binary_port/src/binary_message.rs:77-104 | chunking independence: whatever the cuts, messages, buffer and error are those of the whole stream; the backlog is bounded |
| MessageCodec.Codec.EncodeAll | binary_port/src/binary_message.rs:54-70 | appends the frames of all messages in order |
| MessageCodec.StreamRoundTrip | binary_port/src/binary_message.rs:54-104 | draining the frames of any messages of 1 to max bytes returns them and an empty buffer |
| MessageCodec.CutStream | binary_port/src/binary_message.rs:54-104 | a valid stream cut anywhere yields a prefix of its messages and no error |
| MessageCodec.OneMessageSurvives | binary_port/src/binary_message.rs:59-66 | a payload is encoded and decoded to itself if and only if it has 1 to max bytes |
| MessageCodec.EmptyMessageIsRefused | binary_port/src/binary_message.rs:79-82 | the encoder accepts an empty payload that the decoder refuses |
| Wire.ReadTextList | types/src/bytesrepr.rs:551-571 | the element loop computes the list reader and stops at the first failing element |
| Wire.TextListReads | types/src/bytesrepr.rs:492-571 | a list of strings reads back whatever follows it |
| Wire.TextListExact | types/src/bytesrepr.rs:551-571 | the bytes a list was read from are its encoding |
| Wire.OptionReads | types/src/bytesrepr.rs:737-785 | an optional value, however its inside is spelled, reads back whatever follows it |
| Wire.Writer.WriteBlob | types/src/bytesrepr.rs:1354-1362 | appends length and bytes, or fails and appends nothing when the length does not fit 32 bits |
| Wire.Writer.WriteTextList | types/src/bytesrepr.rs:521-531 | appends the encoding of the list; cannot fail when the announced length fits 32 bits |
| WireIdentifiers.EntityReads | types/src/addressable_entity.rs:878-920 | an entity address reads back whatever follows it |
| WireIdentifiers.KeyPrefixBytes | binary_port/src/key_prefix.rs:59-127 | the number of bytes equals the announced serialized length |
| WireIdentifiers.PrefixReads | binary_port/src/key_prefix.rs:131-188 | a key prefix reads back if and only if it is not a bare entity-messages prefix with something after it |
| WireIdentifiers.PrefixTakesSuffixForTopic | binary_port/src/key_prefix.rs:147-158 | what follows a bare entity-messages prefix is read as its topic |
| WireIdentifiers.PrefixExact | binary_port/src/key_prefix.rs:131-188 | whatever is read, its encoding and the rest are the input |
| WireIdentifiers.DictionaryReads | binary_port/src/dictionary_item_identifier.rs:95-245 | a dictionary item identifier, however its leaf is spelled, reads back whatever follows it |
| WireIdentifiers.DictionaryExact | binary_port/src/dictionary_item_identifier.rs:181-245 | whatever is read, the input is its layout around some spelling of its leaf, and the rest |
| WireIdentifiers.PurseReads | binary_port/src/purse_identifier.rs:52-115 | a purse identifier, however its leaf is spelled, reads back whatever follows it |
| WireIdentifiers.PurseExact | binary_port/src/purse_identifier.rs:88-115 | whatever is read, the input is its layout around some spelling of its leaf, and the rest |
| WireIdentifiers.EraReads | binary_port/src/era_identifier.rs:39-77 | an era identifier, however its leaf is spelled, reads back whatever follows it |
| WireIdentifiers.EraExact | binary_port/src/era_identifier.rs:61-77 | whatever is read, the input is its layout around some spelling of its leaf, and the rest |
| WireIdentifiers.EntityIdReads | binary_port/src/information_request.rs:545-603 | an entity identifier, however its leaf is spelled, reads back whatever follows it |
| WireIdentifiers.EntityIdExact | binary_port/src/information_request.rs:545-569 | whatever is read, the input is its layout around some spelling of its leaf, and the rest |
| WireIdentifiers.PackageReads | binary_port/src/information_request.rs:622-665 | a package identifier reads back whatever follows it |
| WireRequests.QualifierBytes | binary_port/src/entity_qualifier.rs:92-135 | the number of bytes equals the announced serialized length |
| WireRequests.QualifierReads | binary_port/src/entity_qualifier.rs:92-177 | a qualifier, however its leaf is spelled, reads back if and only if a key prefix inside it is delimited by what follows, and otherwise reads as something else or not at all |
| WireRequests.QualifierExact | binary_port/src/entity_qualifier.rs:138-177 | whatever is read, the input is its layout around some spelling of its leaf, and the rest |
| WireRequests.StateRequestReads | binary_port/src/state_request.rs:60-82 | the same condition, one layer up |
| WireRequests.GetReads | binary_port/src/get_request.rs:72-150 | the same condition, two layers up |
| WireRequests.CommandRoundTrip | binary_port/src/command.rs:152-191 | every command comes back from its bytes under its tag |
| WireRequests.CommandIsExact | binary_port/src/command.rs:172-191 | bytes are accepted as a command under a tag if and only if the tag is its own and they are its layout around some spellings of its leaves |
| WireRequests.SuffixIsNoticed | binary_port/src/command.rs:187-190 | bytes after the encoding of a command never decode to that command |
| WireRequests.SuffixCanChangeTheQuery | binary_port/src/key_prefix.rs:147-158 | a query for an entity followed by a topic hash decodes to the query for that topic |
| WireSpellings.OneSpellingPerCommand | binary_port/src/command.rs:152-191 | the encoder's bytes are the only ones accepted as a command if and only if every key, reference, state identifier or transaction inside it has one spelling |
| WireSpellings.CommandInjective | binary_port/src/command.rs:152-166 | different spellings of the leaves make different bytes |
| WireSpellings.PaddingIsNotRead | types/src/key.rs:1739-1756 | a request for an item under a key with padding is accepted with any 32 bytes of padding as the request with zeros, the only bytes a client writes |
| WireSpellings.PaddingGrammarIsDelimiting | types/src/key.rs:1739-1756 | readers of such keys meet the law that the exactness theorems ask for |
| WireLayout.BlobByBytes | types/src/bytesrepr/bytes.rs:122-127 | length and bytes at their places, or early end of stream |
| WireLayout.EntityByBytes | types/src/addressable_entity.rs:878-920 | the kind and the address at their places |
| WireLayout.PrefixByBytes | binary_port/src/key_prefix.rs:131-188 | the tags and places of each key prefix |
| WireLayout.DictionaryByBytes | binary_port/src/dictionary_item_identifier.rs:181-245 | the tags and places of each identifier, name before item key |
| WireLayout.PurseByBytes | binary_port/src/purse_identifier.rs:88-115 | the tags and places of each identifier |
| WireLayout.EntityIdByBytes | binary_port/src/information_request.rs:545-569 | the tags and places of each identifier |
| WireLayout.QualifierByBytes | binary_port/src/entity_qualifier.rs:138-177 | the tags of the qualifiers and the order of their parts |
| WireLayout.StateRequestByBytes | binary_port/src/state_request.rs:71-82 | the optional state identifier, then the qualifier |
| WireLayout.TextsInOrder | types/src/bytesrepr.rs:492-531 | the elements of a list follow each other in order behind their number |
| WireLayout.GetByBytes | binary_port/src/get_request.rs:113-150 | the tags of the get requests, and a record or information tag lowest byte first before the key |
| WireLayout.InformationNumbers | binary_port/src/information_request.rs:409-518 | the number of every information request |
| WireLayout.InfoByBytes | binary_port/src/information_request.rs:188-295 | the parts of each key in their order |
| WireInformation.TagNumber | binary_port/src/information_request.rs:484-518 | every tag is recovered from its number |
| WireInformation.InfoBytes | binary_port/src/information_request.rs:188-295 | the number of bytes equals the announced serialized length |
| WireInformation.InfoReads | binary_port/src/information_request.rs:188-395 | an information request, however its leaves are spelled, reads back under its tag whatever follows it |
| WireInformation.InfoIsExact | binary_port/src/information_request.rs:298-395 | bytes are accepted as a request under a tag if and only if the tag is its own and they are its layout around some spellings of its leaves |
| WireInformation.InformationRoundTrip | binary_port/src/information_request.rs:298-407 | turned into a get request, sent, decoded, its tag looked up and its key decoded, every information request is itself again |
| WireWriters.WriteKeyPrefix | binary_port/src/key_prefix.rs:59-127 | appends the encoding, as many bytes as announced |
| WireWriters.WriteDictionary | binary_port/src/dictionary_item_identifier.rs:95-178 | appends the encoding; cannot fail when the announced length fits 32 bits |
| WireWriters.WriteQualifier | binary_port/src/entity_qualifier.rs:92-135 | appends the encoding; cannot fail when the announced length fits 32 bits |
| WireWriters.WriteStateRequest | binary_port/src/state_request.rs:60-69 | appends the encoding; cannot fail when the announced length fits 32 bits |
| WireWriters.WriteGet | binary_port/src/get_request.rs:72-111 | appends the encoding; cannot fail when the announced length fits 32 bits |
| WireWriters.CommandToBytes | binary_port/src/command.rs:146-166 | out-of-memory exactly when the announced length does not fit 32 bits, else the encoding |
| WireWriters.SendCommand | binary_port/src/command.rs:145-191 | what the writer produces the reader turns into the same command |
| WireWriters.InfoToBytes | binary_port/src/information_request.rs:181-295 | out-of-memory exactly when the announced length does not fit 32 bits, else the encoding |
| BinaryPort.HeaderReads | binary_port/src/command.rs:67-103 | a header reads back in front of any body |
| BinaryPort.ReceiveIsExact | node/src/components/binary_port.rs:1453-1508 | the node accepts a payload as a command with an id if and only if it is the header for them and bytes that spell the command |
| BinaryPort.AcceptedByBytes | node/src/components/binary_port.rs:1453-1508 | from the bytes alone: version one, the number of the kind of command, the id lowest byte first, and bytes that spell the command are accepted as it, and nothing else is |
| BinaryPort.RefusedByBytes | node/src/components/binary_port.rs:1453-1508 | the condition on the bytes behind each error code |
| BinaryPort.Serve | node/src/components/binary_port.rs:1420-1508 | what the node receives from any chunks are the receptions of the messages in the whole stream, in order |
| BinaryPort.RequestsSurviveTheStream | node/src/components/binary_port.rs:1420-1508 | any requests, framed and fed to the codec in any chunks, are the commands the node accepts, in order and with nothing left |
| RoundRobin.WeightedRoundRobin.constructor | node/src/utils/round_robin.rs:143-173 | all queues start empty, the first slot is active with all its tickets |
| RoundRobin.WeightedRoundRobin.PushItem | node/src/utils/round_robin.rs:223-234 | the item joins the back of its queue, or is dropped when the scheduler is sealed |
| RoundRobin.WeightedRoundRobin.AddPermit | node/src/utils/round_robin.rs:253-254 | permits never exceed the queued items, so a pop with a permit finds one |
| RoundRobin.WeightedRoundRobin.TurnUntilReady | node/src/utils/round_robin.rs:266-282 | the loop stops, within one turn of the wheel, at the next slot with tickets and items |
| RoundRobin.WeightedRoundRobin.Pop | node/src/utils/round_robin.rs:259-294 | a pop takes the front of one queue, leaves all others alone, and leaves the wheel where turning to the next ready slot and using one ticket does |
| RoundRobin.SettleAgrees | node/src/utils/round_robin.rs:266-282 | where the wheel stops depends on its state alone |
| RoundRobin.PopsTheNext | node/src/utils/round_robin.rs:259-294 | a pop stays with the active slot while that has tickets and items, and otherwise goes to the nearest slot further round that has items, on all its tickets |
| RoundRobin.FirstInFirstOut | node/src/utils/round_robin.rs:223-294 | over every run, what left a queue and what is in it are what was in it and what was pushed, in order |
| RoundRobin.PopShortensWait | node/src/utils/round_robin.rs:259-294 | every pop shortens the wait of every queued item |
| RoundRobin.WaitRunsDown | node/src/utils/round_robin.rs:259-294 | over every run of pushes and pops an item is out or all pops have been counted off its wait |
| RoundRobin.NoStarvation | node/src/utils/round_robin.rs:20-29 | an item with p items ahead of it in a queue of weight w is handed out within (p / w + 1) * W pops, W the total weight, whatever is pushed meanwhile |
| Reactor.TotalWeight | node/src/reactor/queue_kind.rs:93-121 | the weights of all event queues add up to 85 |
| Reactor.WeightsOfQueues | node/src/reactor/queue_kind.rs:93-114 | the weight of every queue |
| Reactor.EveryEventIsProcessed | node/src/reactor/queue_kind.rs:1-5 | an event with p events ahead of it on a queue of weight w is popped within 85 * (p / w + 1) pops of the scheduler |
| Reactor.StepStaysCausal | node/src/reactor.rs:602-732 | every step of any party keeps every queued, running and processed event rooted in an earlier processed one on the same queue |
| Reactor.EveryRunIsCausal | node/src/reactor.rs:545-732 | causality over all interleavings of cranks, tasks and outside schedules, from any initial effects |
| Reactor.LineageDescends | node/src/reactor.rs:718-732 | ancestors form finite, strictly descending lineages on one queue each, with control events only at the tips and a root without ancestor |
| Reactor.EveryEventHasALineage | node/src/reactor.rs:718-732 | the same for every event of every run |
| Reactor.Runner.constructor | node/src/reactor.rs:545-561 | ids start at one, all queues are empty, and the initial effects are tasks without ancestor on the regular queue |
| Reactor.Runner.CrankOnce | node/src/reactor.rs:568-733 | the front event of the queue the wheel hands out next is logged and gone; a plain one spawns its effects on that queue under its own id, a control event none; abort exactly for a fatal error, success exactly for an upgrade shutdown, a clean exit exactly for the two other shutdowns, and no exit otherwise |
| Reactor.Runner.PushResult | node/src/reactor.rs:955-970 | a task pushes its result to its queue under its ancestor |
| Reactor.Runner.ScheduleEvent | node/src/reactor.rs:224-244 | an outside schedule enqueues without ancestor |
| Reactor.Runner.Drive | node/src/reactor.rs:568-787 | under any schedule of cranks, tasks and outside events, an event with p events ahead of it on a queue of weight w is processed by the time of 85 * (p / w + 1) cranks, as the p-th one of its queue |
| RequestProtocol.RunIsSound | node/src/effect.rs:223-359 | over every run: a value received is the value answered, and parking happens only when the responder is gone unanswered |
| RequestProtocol.OutcomeIsFinal | node/src/effect.rs:512-552 | a requester that stopped waiting never changes again, so it receives at most one value |
| RequestProtocol.AnswerIsFinal | node/src/effect.rs:307-325 | a responder answers at most once |
| RequestProtocol.RequestIsSafe | node/src/effect.rs:492-552 | plain responders: once the responder is gone a waiting requester gets the answer, or parks if and only if there was none |
| RequestProtocol.FaultsAreCounted | node/src/effect.rs:340-359 | outside a shutdown the error branches are entered once for a responder that goes unanswered, once for a requester that parks, and never otherwise |
| RequestProtocol.NoFaultsInShutdown | node/src/effect.rs:340-359 | during a shutdown no error branch is entered |
| RequestProtocol.AutoRequestIsSafe | node/src/effect.rs:223-282 | auto-closing responders: no error branch, no parking, and exactly one value, some value if and only if it was responded |
| RequestProtocol.Responder.Respond | node/src/effect.rs:307-325 | sends once; the error branch is entered exactly when the sender is gone |
| RequestProtocol.Responder.Drop | node/src/effect.rs:340-359 | the error branch is entered exactly when the sender is still there outside a shutdown |
| RequestProtocol.AutoClosingResponder.RespondWith | node/src/effect.rs:242-263 | the answer goes out once and no drop on the way is at fault |
| RequestProtocol.AutoClosingResponder.DropAuto | node/src/effect.rs:266-282 | an unanswered responder sends none, a spent one does nothing, neither is at fault |
| RequestProtocol.Conversation.Respond | node/src/effect.rs:512-525 | the value is under way to a waiting requester, the responder is spent, and nothing is at fault: the machine's answer step |
| RequestProtocol.Conversation.DropResponder | node/src/effect.rs:340-359 | the responder is gone unanswered, at fault unless in a shutdown: the machine's abandon step |
| RequestProtocol.Conversation.PollReply | node/src/effect.rs:527-549 | the requester gets what is under way, goes on waiting while the responder is there, and parks otherwise: the machine's poll step |
| RequestProtocol.Conversation.CancelRequest | node/src/effect.rs:488-491 | cancelling is the machine's cancel step |
| RequestProtocol.Conversation.BeginShutdown | node/src/effect.rs:340-359 | a shutdown is the machine's shutdown step |
| RequestProtocol.AutoConversation.RespondSome | node/src/effect.rs:254-258 | responding with a value is the machine's answer step |
| RequestProtocol.AutoConversation.RespondNothing | node/src/effect.rs:260-263 | responding with none is the machine's answer step with none |
| RequestProtocol.AutoConversation.DropResponder | node/src/effect.rs:266-282 | dropping is the machine's answer step with none |
| KeyManagement.CalculateWeight | types/src/account/associated_keys.rs:258-279 | saturating addition in any order is the exact sum, saturated |
| KeyManagement.Authority.constructor | types/src/account.rs:96-107 | a fresh account covers its thresholds |
| KeyManagement.Authority.AddAssociatedKey | types/src/account.rs:155-161 | a new key gets the weight asked for and the total grows by it; a known one is reported as duplicate; no other key changes |
| KeyManagement.Authority.CanRemoveKey | types/src/account.rs:164-173 | the saturated guard decides as the exact total after the removal would |
| KeyManagement.Authority.CanUpdateKey | types/src/account.rs:177-191 | the saturated guard decides as the exact total after the update would |
| KeyManagement.Authority.RemoveAssociatedKey | types/src/account.rs:196-208 | the key goes and the total falls by its weight; missing key, or threshold violation exactly when the rest is below a guarded threshold, and then nothing changes |
| KeyManagement.Authority.UpdateAssociatedKey | types/src/account.rs:212-226 | the key gets the weight asked for and the total changes by the difference; missing key, or threshold violation exactly when a lower weight leaves the total below a guarded threshold, and then nothing changes |
| KeyManagement.Authority.SetActionThreshold | types/src/account.rs:247-266 | the named threshold and no other becomes the weight asked for; insufficient total weight, deployment threshold and key management threshold exactly under their conditions, and then nothing changes |
| KeyManagement.Authority.CanDeployWith | types/src/account.rs:278-284 | decides as the exact sum of the given keys would |
| KeyManagement.Authority.CanManageKeysWith | types/src/account.rs:288-294 | decides as the exact sum of the given keys would |
| KeyManagement.Authority.CanUpgradeWith | types/src/addressable_entity.rs:1596-1602 | decides as the exact sum of the given keys would |
| KeyManagement.Authority.CanAuthorizeWith | types/src/account.rs:269-274 | true for a non-empty set of keys that are all associated, on an account, or of which one is, on an entity |
| KeyManagement.RunStaysCovered | types/src/account.rs:155-266 | every sequence of add, remove, update and checked set-threshold keeps the total weight at or above both thresholds |
| KeyManagement.RunStaysOrdered | types/src/account/action_thresholds.rs:52-99 | every such sequence keeps the deployment threshold at or below the key management threshold |
| KeyManagement.NoLockOut | types/src/account.rs:155-294 | after any such sequence the full key set can deploy and manage keys, and is authorized exactly when it is not empty, which a positive threshold guarantees |
| KeyManagement.ZeroThresholdsLockOut | types/src/account.rs:196-266 | with both thresholds set to zero the last key can be removed |
| KeyManagement.LastKeyGoes | types/src/account.rs:155-266 | an operation takes the last key away if and only if it removes it while both thresholds are zero |
| KeyManagement.OnlyAssociatedKeysCount | types/src/account/associated_keys.rs:258-264 | strangers weigh nothing, and more keys never authorize less |
| KeyManagement.EntityAgreesWithDocumentation | types/src/addressable_entity.rs:1566-1572 | an entity's authorization check agrees with its documentation if and only if the keys are all associated or all strangers |
| KeyManagement.UpgradeThresholdCanBeLockedOut | types/src/addressable_entity.rs:1462-1506 | an allowed removal that puts the upgrade threshold out of reach |
| KeyManagement.UpgradeStaysInReach | types/src/addressable_entity.rs:1462-1546 | every step from every covered key set keeps the upgrade threshold in reach if and only if, before the call, it is at most the deployment or the key management threshold; and exactly then every covered key set reaches it |
| KeyManagement.DeploymentCanExceedUpgrade | types/src/addressable_entity/action_thresholds.rs:81-88 | on a fresh entity the upgrade threshold can be set below the deployment threshold |
| KeyManagement.StepKeepsUpgradeOrder | types/src/addressable_entity/action_thresholds.rs:50-88 | a step keeps the deployment threshold at or below the upgrade threshold if and only if it does not raise the one above the other or lower the other below it |
| KeyManagement.RunKeepsUpgradeOrder | types/src/addressable_entity/action_thresholds.rs:50-88 | a run keeps that order throughout if and only if no operation in it is such a one |
| ContextRights.HistoryDecides | types/src/access_rights.rs:176-276 | after any history a right is held if and only if the last operation that touched it gave it, and an address is known if and only if one introduced it |
| ContextRights.HistoryAnswers | types/src/access_rights.rs:224-232 | the history alone answers every access check |
| ContextRights.ExtendIgnoresOrder | types/src/access_rights.rs:205-221 | extending depends only on which references occur, not on their order or number |
| ContextRights.GrantThenRemove | types/src/access_rights.rs:245-276 | taking back what a grant newly gave restores every answer, except the empty check on an address unknown before |
| ContextRights.ContextAccessRights.constructor | types/src/access_rights.rs:176-183 | a new context has the union of the rights of its references |
| ContextRights.ContextAccessRights.DoExtend | types/src/access_rights.rs:210-221 | the loop unions the rights of each reference in |
| ContextRights.ContextAccessRights.ExtendAccessRights | types/src/access_rights.rs:186-197 | the result has the union of both maps at every address |
| ContextRights.ContextAccessRights.HasAccessRightsTo | types/src/access_rights.rs:224-232 | the address is known and all rights asked for are held |
| ContextRights.ContextAccessRights.GrantAccess | types/src/access_rights.rs:245-268 | the union is stored; pre-existing exactly when all was held; otherwise exactly the new rights are reported |
| ContextRights.ContextAccessRights.RemoveAccess | types/src/access_rights.rs:271-275 | the difference is stored; an unknown address stays unknown |
| ChecksummedHex.BitCycle.NextBit | types/src/checksummed_hex.rs:30-35 | call k yields bit k mod 8, lowest first, of byte (k / 8) mod 32 |
| ChecksummedHex.Encode | types/src/checksummed_hex.rs:44-56 | the character at each place in closed form: letter k is upper case exactly when hash bit k is set |
| ChecksummedHex.EncodedCharacters | types/src/checksummed_hex.rs:44-56 | each byte is two characters, high half first, and a letter is a capital exactly when the bit of its number is set |
| ChecksummedHex.LettersAreCounted | types/src/checksummed_hex.rs:44-56 | only letters use up bits |
| ChecksummedHex.NoBitIsReused | types/src/checksummed_hex.rs:10-56 | for at most 75 bytes no hash bit serves two letters |
| ChecksummedHex.StringIsSameCase | types/src/checksummed_hex.rs:60-79 | true exactly when lower and upper case letters do not both occur |
| ChecksummedHex.SameCaseAsDocumented | types/src/checksummed_hex.rs:58-79 | the test does what is documented if and only if the text has a letter |
| ChecksummedHex.NoLettersNoChecksum | types/src/checksummed_hex.rs:93-115 | a text without letters is its own checksummed form, so decoding is not affected |
| ChecksummedHex.Base16Decode | types/src/checksummed_hex.rs:94-94 | accepts exactly the hexadecimal spellings, in either case; otherwise an odd length or the first bad character is reported |
| ChecksummedHex.Decode | types/src/checksummed_hex.rs:93-115 | returns b exactly for spellings of b that are long, single-case or checksummed; a checksum error names the first wrong place and the right character |
| ChecksummedHex.AtMostThreeSpellings | types/src/checksummed_hex.rs:93-115 | a value of at most 75 bytes is accepted in exactly its lower-case, upper-case and checksummed spellings |
| ChecksummedHex.LongValuesAreNotChecked | types/src/checksummed_hex.rs:93-100 | a value of more than 75 bytes is accepted in every spelling |
| ChecksummedHex.RoundTrip | types/src/checksummed_hex.rs:44-115 | encoding then decoding is the identity at every length |
| Failpoints.Print | node/src/failpoints.rs:164-187 | writes key, subkey, probability, once flag and value in this order, with their separators |
| Failpoints.FromStr | node/src/failpoints.rs:277-318 | the fragment loop computes the parser and stops at the first bad fragment |
| Failpoints.BadFragment | node/src/failpoints.rs:292-312 | a fragment that is none of the three forms is refused under its name |
| Failpoints.ParseYields | node/src/failpoints.rs:277-318 | whatever parses has key and subkey free of separators and a probability that prints |
| Failpoints.RoundTrip | node/src/failpoints.rs:164-318 | printing and parsing gives the same activation if and only if key and subkey are free of separators |
| Failpoints.ParsedSurvives | node/src/failpoints.rs:164-318 | whatever parses survives printing and parsing, for any order or repetition of fragments |
| Failpoints.RoundTripEquality | node/src/failpoints.rs:164-318 | under the type's own equality the round trip holds unless the probability is not a number |
| Failpoints.FiresAsDocumented | node/src/failpoints.rs:240-247 | a failpoint passes the draws it is documented to pass if and only if its probability is a number; one that is not passes every draw, where it is documented to pass no positive one |
| Failpoints.Failpoint.UpdateFrom | node/src/failpoints.rs:86-112 | only a matching activation changes anything; a value that does not decode leaves the old one |
| Failpoints.Failpoint.Fire | node/src/failpoints.rs:118-144 | fires exactly when the draw passes and a once-only failpoint has not fired; a probability that is not a number lets every draw pass |
| Failpoints.Failpoint.FireOften | node/src/failpoints.rs:118-144 | between updates a once-only failpoint fires at the first passing draw and never again |
| AuctionBids.BuildStaking | types/src/auction_state.rs:139-186 | the three loops compute the merge: per validator the last own bid, else the last unified one, overlaid by the last delegator bid of each kind; unknown validators' delegators are dropped |
| AuctionBids.MergeIsUnique | types/src/auction_state.rs:139-186 | the specification has one solution |
| AuctionBids.KnownValidators | types/src/auction_state.rs:139-186 | a validator is shown exactly when it has a bid of its own or a unified one |
| AuctionBids.OwnBidIsShown | types/src/auction_state.rs:164-169 | the last own bid of a validator is shown as it is, with delegators that have records and no others |
| AuctionBids.UnifiedBidIsShown | types/src/auction_state.rs:141-163 | a validator without one is shown with its last unified bid, field by field, not locked and without delegation limits |
| AuctionBids.UnifiedDelegatorIsShown | types/src/auction_state.rs:153-161 | the delegators of that bid are shown with it, field by field, unless they have records |
| AuctionBids.DelegatorBidIsShown | types/src/auction_state.rs:171-184 | the last record of a delegator for a known validator is shown as it is |
| AuctionBids.InterleavingIsIrrelevant | types/src/auction_state.rs:139-186 | only the order within each kind of record matters |
| AuctionBids.StakeIsConserved | types/src/auction_state.rs:139-186 | without unified bids and duplicates the total stake is that of all validator bids and of the delegator bids of known validators |
| BlockUtilization.HasHitSlotCapacity | types/src/block.rs:453-501 | the scan is true exactly when some lane is full; an unconfigured lane has no room |
| BlockUtilization.LaneLimits | types/src/block.rs:453-501 | the limit of every lane: its own for the first three, the first entry for a wasm lane, none for any other |
| BlockUtilization.CapacityAdds | types/src/block.rs:424-444 | the capacity is the sum of the limits of all entries |
| BlockUtilization.RoomIsLeft | types/src/block.rs:424-444 | a block with room in every lane holds fewer transactions than the configured capacity |
| BlockUtilization.Utilization | types/src/block.rs:424-448 | at most 100, 100 exactly for a full block, never a division by zero, otherwise the percentage rounded down |
| AddressTexts.HashFromText | types/src/contract_messages/topics.rs:57-61 | accepts exactly the hexadecimal spellings of 32 bytes; bad length exactly for other spellings, bad hexadecimal exactly for none |
| AddressTexts.EntityFromText | types/src/addressable_entity.rs:845-868 | returns an entity address exactly for its spellings |
| AddressTexts.HexTextReads | types/src/contract_messages.rs:76-82 | the hexadecimal index reads back |
| AddressTexts.NumberByDigits | types/src/contract_messages.rs:107-111 | the value of a number digit by digit, in base 16 |
| AddressTexts.IndexByDigits | types/src/contract_messages.rs:107-111 | an index is a number of at most 32 bits, with or without a plus sign |
| AddressTexts.HexTextForm | types/src/contract_messages.rs:76-82 | an index is printed in lower case without leading zeros |
| AddressTexts.EntityForm | types/src/addressable_entity.rs:815-842 | the printed form of an entity address |
| AddressTexts.MessageForm | types/src/contract_messages.rs:74-95 | the printed form of a message or topic address |
| AddressTexts.TopicsAreNotMessages | types/src/contract_messages.rs:103-112 | no text that starts like a topic is the spelling of a message |
| AddressTexts.MessageFromText | types/src/contract_messages.rs:98-127 | returns a message address exactly for its spellings, the two splits from the right included |
| AddressTexts.MessageTextIsASpelling | types/src/contract_messages.rs:74-95 | the printed form is a spelling of the address |
| AddressTexts.MessageRoundTrip | types/src/contract_messages.rs:74-127 | printing and parsing gives the address back, topic or message |

## Left out

- Stores with missing elements: only reading is modelled on them; writes, prunes, proofs and key iteration are given roots of complete states, so their errors for dangling pointers, `missing_children` and integrity checks do not arise.
- TrieOps.Trie.Read: asks that the walk ends, because on a cycle of empty extensions the code loops.
- Lazy deserialization and the store wrappers around the trie: they change when bytes are decoded, not what is returned.
- In-place update of cached trie nodes: the insertion walks down by recursion and rebuilds the nodes on its path as values, so aliasing between them is not captured.
- TrieOps.Trie.Scan: the scan, write and prune are stated for keys that are compatible with the stored ones, because with others the code panics.
- RoundRobin.WeightedRoundRobin.Pop: waiting for a permit is a precondition, and the locks make each call one atomic step; a push is two steps, as in the code.
- RoundRobin.WeightedRoundRobin.constructor: asks for slots with different keys, as the list of queue weights has.
- Reactor.Runner.CrankOnce: what a dispatched event does is a number of spawned effects; metrics, tracing, queue dumps and failpoint activation have no result in the model.
- The outer loop of the reactor, its shutdown flag and signal handling: forwarding around single cranks.
- Throttling, termination delays and responses of the binary port: only the way from bytes to an accepted command is modelled.
- Decoding errors of the opaque leaf types beyond their being errors.
- Named key, balance hold, bid and entry point addresses as text, and the byte readers of `Key`: they repeat what is shown for messages and requests.
- `set_action_threshold_unchecked`: an administrator override that bypasses the weight check on purpose.
- `Bid::from_non_unified` and the era validators of the auction state: plain copies of fields.
- BlockUtilization.Utilization: counts do not overflow when multiplied by 100.
- Failpoints.Failpoint.Fire: the drawn sample is an argument.
- Consensus, networking, contract execution, storage engines, command line and logging.
