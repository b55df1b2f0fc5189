/**
 The auction state shown to clients (types/src/auction_state.rs): three passes over a mixed
 list of bid records, against what the merge is meant to be.
 */
module AuctionBids {
  import opened Bytes
  import opened Sums

  type PublicKey = Bytes

  datatype DelegatorKind = ByKey(key: PublicKey) | ByPurse(addr: Bytes)

  datatype DelegatorBid = DelegatorBid(kind: DelegatorKind, validator: PublicKey, staked: nat, purse: Bytes, vesting: Option<Bytes>)

  datatype ValidatorBid = ValidatorBid(
    validator: PublicKey, purse: Bytes, staked: nat, rate: nat, vesting: Option<Bytes>, inactive: bool,
    minimum: nat, maximum: nat, reserved: nat)

  datatype Delegator = Delegator(key: PublicKey, validator: PublicKey, staked: nat, purse: Bytes, vesting: Option<Bytes>)

  datatype UnifiedBid = UnifiedBid(
    validator: PublicKey, purse: Bytes, staked: nat, rate: nat, delegators: map<PublicKey, Delegator>)

  datatype BidKind =
    | Unified(bid: UnifiedBid)
    | ValidatorRecord(validatorBid: ValidatorBid)
    | DelegatorRecord(delegatorBid: DelegatorBid)
    | Other

  type Delegators = map<DelegatorKind, DelegatorBid>
  type Staking = map<PublicKey, (ValidatorBid, Delegators)>

  function Unlocked(b: UnifiedBid): ValidatorBid {
    ValidatorBid(b.validator, b.purse, b.staked, b.rate, None, false, 0, 0xFFFF_FFFF_FFFF_FFFF, 0)
  }

  function FromDelegator(d: Delegator): DelegatorBid {
    DelegatorBid(ByKey(d.key), d.validator, d.staked, d.purse, d.vesting)
  }

  function UnifiedDelegators(b: UnifiedBid): Delegators {
    map k | k in b.delegators :: ByKey(k) := FromDelegator(b.delegators[k])
  }

  // ---- what the merge is meant to be ----

  function LastUnified(bids: seq<BidKind>, v: PublicKey): Option<UnifiedBid> {
    if bids == [] then None
    else
      var last := bids[|bids| - 1];
      if last.Unified? && last.bid.validator == v then Some(last.bid) else LastUnified(bids[..|bids| - 1], v)
  }

  function LastValidator(bids: seq<BidKind>, v: PublicKey): Option<ValidatorBid> {
    if bids == [] then None
    else
      var last := bids[|bids| - 1];
      if last.ValidatorRecord? && last.validatorBid.validator == v then Some(last.validatorBid) else LastValidator(bids[..|bids| - 1], v)
  }

  function LastDelegator(bids: seq<BidKind>, v: PublicKey, k: DelegatorKind): Option<DelegatorBid> {
    if bids == [] then None
    else
      var last := bids[|bids| - 1];
      if last.DelegatorRecord? && last.delegatorBid.validator == v && last.delegatorBid.kind == k then Some(last.delegatorBid)
      else LastDelegator(bids[..|bids| - 1], v, k)
  }

  /** The last validator bid with no delegators, else the last unified bid with its own. */
  function Base(bids: seq<BidKind>, v: PublicKey): Option<(ValidatorBid, Delegators)> {
    var own, unified := LastValidator(bids, v), LastUnified(bids, v);
    if own.Some? then Some((own.value, map[]))
    else if unified.Some? then Some((Unlocked(unified.value), UnifiedDelegators(unified.value)))
    else None
  }

  function Find(d: Delegators, k: DelegatorKind): Option<DelegatorBid> {
    if k in d then Some(d[k]) else None
  }

  /** The last delegator bid of the kind, else the base's. */
  function Overlay(bids: seq<BidKind>, v: PublicKey, base: Delegators, k: DelegatorKind): Option<DelegatorBid> {
    var last := LastDelegator(bids, v, k);
    if last.Some? then last else Find(base, k)
  }

  /** Delegators of validators nobody knows are dropped. */
  ghost predicate Merges(s: Staking, bids: seq<BidKind>) {
    forall v: PublicKey ::
      var base := Base(bids, v);
      && (v in s <==> base.Some?)
      && (v in s ==> s[v].0 == base.value.0 && forall k :: Find(s[v].1, k) == Overlay(bids, v, base.value.1, k))
  }

  lemma MergeIsUnique(s: Staking, t: Staking, bids: seq<BidKind>)
    requires Merges(s, bids) && Merges(t, bids)
    ensures s == t
  {
    forall v | v in s
      ensures v in t && s[v] == t[v]
    {
      forall k: DelegatorKind
        ensures k in s[v].1 <==> k in t[v].1
        ensures k in s[v].1 && k in t[v].1 ==> s[v].1[k] == t[v].1[k]
      {
        assert Find(s[v].1, k) == Find(t[v].1, k);
      }
      assert s[v].1 == t[v].1;
    }
    assert forall v :: v in t ==> v in s;
  }

  /** Where the last unified bid of a validator is. */
  lemma {:induction false} LastUnifiedIs(bids: seq<BidKind>, v: PublicKey) returns (i: int)
    ensures LastUnified(bids, v).None? ==> forall j | 0 <= j < |bids| :: !(bids[j].Unified? && bids[j].bid.validator == v)
    ensures LastUnified(bids, v).Some? ==>
              0 <= i < |bids| && (bids[i].Unified? && bids[i].bid.validator == v) && LastUnified(bids, v).value == bids[i].bid &&
              forall j | i < j < |bids| :: !(bids[j].Unified? && bids[j].bid.validator == v)
  {
    i := |bids| - 1;
    if bids != [] && !(bids[i].Unified? && bids[i].bid.validator == v) {
      i := LastUnifiedIs(bids[..|bids| - 1], v);
    }
  }

  /** Where the last own bid of a validator is. */
  lemma {:induction false} LastValidatorIs(bids: seq<BidKind>, v: PublicKey) returns (i: int)
    ensures LastValidator(bids, v).None? ==> forall j | 0 <= j < |bids| :: !(bids[j].ValidatorRecord? && bids[j].validatorBid.validator == v)
    ensures LastValidator(bids, v).Some? ==>
              0 <= i < |bids| && (bids[i].ValidatorRecord? && bids[i].validatorBid.validator == v) && LastValidator(bids, v).value == bids[i].validatorBid &&
              forall j | i < j < |bids| :: !(bids[j].ValidatorRecord? && bids[j].validatorBid.validator == v)
  {
    i := |bids| - 1;
    if bids != [] && !(bids[i].ValidatorRecord? && bids[i].validatorBid.validator == v) {
      i := LastValidatorIs(bids[..|bids| - 1], v);
    }
  }

  /** Where the last bid of a delegator is. */
  lemma {:induction false} LastDelegatorIs(bids: seq<BidKind>, v: PublicKey, k: DelegatorKind) returns (i: int)
    ensures LastDelegator(bids, v, k).None? ==> forall j | 0 <= j < |bids| :: !(bids[j].DelegatorRecord? && bids[j].delegatorBid.validator == v && bids[j].delegatorBid.kind == k)
    ensures LastDelegator(bids, v, k).Some? ==>
              0 <= i < |bids| && (bids[i].DelegatorRecord? && bids[i].delegatorBid.validator == v && bids[i].delegatorBid.kind == k) && LastDelegator(bids, v, k).value == bids[i].delegatorBid &&
              forall j | i < j < |bids| :: !(bids[j].DelegatorRecord? && bids[j].delegatorBid.validator == v && bids[j].delegatorBid.kind == k)
  {
    i := |bids| - 1;
    if bids != [] && !(bids[i].DelegatorRecord? && bids[i].delegatorBid.validator == v && bids[i].delegatorBid.kind == k) {
      i := LastDelegatorIs(bids[..|bids| - 1], v, k);
    }
  }

  // ---- the merge, record by record ----

  /** The known validators are those with a bid of their own or a unified one. */
  lemma KnownValidators(s: Staking, bids: seq<BidKind>, v: PublicKey)
    requires Merges(s, bids)
    ensures v in s <==> exists i | 0 <= i < |bids| ::
                          (bids[i].Unified? && bids[i].bid.validator == v) || (bids[i].ValidatorRecord? && bids[i].validatorBid.validator == v)
  {
    var i := LastUnifiedIs(bids, v);
    var j := LastValidatorIs(bids, v);
  }

  /** A validator's last own bid is shown as it is, with the delegators that have records and no others. */
  lemma OwnBidIsShown(s: Staking, bids: seq<BidKind>, i: nat)
    requires Merges(s, bids) && i < |bids| && bids[i].ValidatorRecord?
    requires forall j | i < j < |bids| :: !(bids[j].ValidatorRecord? && bids[j].validatorBid.validator == bids[i].validatorBid.validator)
    ensures var v := bids[i].validatorBid.validator;
            v in s && s[v].0 == bids[i].validatorBid &&
            forall k | k in s[v].1 :: exists j | 0 <= j < |bids| ::
              bids[j].DelegatorRecord? && bids[j].delegatorBid.validator == v && bids[j].delegatorBid.kind == k
  {
    var v := bids[i].validatorBid.validator;
    var at := LastValidatorIs(bids, v);
    assert at == i;
    forall k | k in s[v].1
      ensures exists j | 0 <= j < |bids| :: bids[j].DelegatorRecord? && bids[j].delegatorBid.validator == v && bids[j].delegatorBid.kind == k
    {
      assert Find(s[v].1, k) == Overlay(bids, v, map[], k);
      var j := LastDelegatorIs(bids, v, k);
    }
  }

  /** The last unified bid of a validator, which has no bid of its own. */
  ghost predicate Stands(bids: seq<BidKind>, i: nat) {
    && i < |bids| && bids[i].Unified?
    && (forall j | i < j < |bids| :: !(bids[j].Unified? && bids[j].bid.validator == bids[i].bid.validator))
    && (forall j | 0 <= j < |bids| :: !(bids[j].ValidatorRecord? && bids[j].validatorBid.validator == bids[i].bid.validator))
  }

  /** Such a bid is shown not locked and without limits on delegation. */
  lemma UnifiedBidIsShown(s: Staking, bids: seq<BidKind>, i: nat)
    requires Merges(s, bids) && Stands(bids, i)
    ensures var b := bids[i].bid;
            b.validator in s &&
            s[b.validator].0 == ValidatorBid(validator := b.validator, purse := b.purse, staked := b.staked, rate := b.rate, vesting := None,
                                             inactive := false, minimum := 0, maximum := 18446744073709551615, reserved := 0)
  {
    var at := LastUnifiedIs(bids, bids[i].bid.validator);
    var own := LastValidatorIs(bids, bids[i].bid.validator);
    assert at == i;
  }

  /** And its delegators are shown with it, unless they have records. */
  lemma UnifiedDelegatorIsShown(s: Staking, bids: seq<BidKind>, i: nat, k: DelegatorKind)
    requires Merges(s, bids) && Stands(bids, i)
    requires forall j | 0 <= j < |bids| :: !(bids[j].DelegatorRecord? && bids[j].delegatorBid.validator == bids[i].bid.validator && bids[j].delegatorBid.kind == k)
    ensures var b := bids[i].bid;
            b.validator in s && (k in s[b.validator].1 <==> k.ByKey? && k.key in b.delegators)
    ensures var b := bids[i].bid;
            k.ByKey? && k.key in b.delegators ==>
              var d := b.delegators[k.key];
              b.validator in s && k in s[b.validator].1 &&
              s[b.validator].1[k] == DelegatorBid(kind := ByKey(d.key), validator := d.validator, staked := d.staked, purse := d.purse, vesting := d.vesting)
  {
    var b := bids[i].bid;
    var at := LastUnifiedIs(bids, b.validator);
    var own := LastValidatorIs(bids, b.validator);
    var none := LastDelegatorIs(bids, b.validator, k);
    assert at == i;
    assert Find(s[b.validator].1, k) == Overlay(bids, b.validator, UnifiedDelegators(b), k);
  }

  /** A delegator's last record for a known validator is shown as it is. */
  lemma DelegatorBidIsShown(s: Staking, bids: seq<BidKind>, i: nat)
    requires Merges(s, bids) && i < |bids| && bids[i].DelegatorRecord? && bids[i].delegatorBid.validator in s
    requires forall j | i < j < |bids| :: !(bids[j].DelegatorRecord? && bids[j].delegatorBid.validator == bids[i].delegatorBid.validator &&
                                            bids[j].delegatorBid.kind == bids[i].delegatorBid.kind)
    ensures var d := bids[i].delegatorBid;
            d.kind in s[d.validator].1 && s[d.validator].1[d.kind] == d
  {
    var d := bids[i].delegatorBid;
    var at := LastDelegatorIs(bids, d.validator, d.kind);
    assert at == i;
    assert Find(s[d.validator].1, d.kind) == Overlay(bids, d.validator, Base(bids, d.validator).value.1, d.kind);
  }

  // ---- the passes ----

  function UnifiedPass(bids: seq<BidKind>): Staking {
    if bids == [] then map[]
    else
      var s, last := UnifiedPass(bids[..|bids| - 1]), bids[|bids| - 1];
      if last.Unified? then s[last.bid.validator := (Unlocked(last.bid), UnifiedDelegators(last.bid))] else s
  }

  function ValidatorPass(s: Staking, bids: seq<BidKind>): Staking {
    if bids == [] then s
    else
      var s', last := ValidatorPass(s, bids[..|bids| - 1]), bids[|bids| - 1];
      if last.ValidatorRecord? then s'[last.validatorBid.validator := (last.validatorBid, map[])] else s'
  }

  function WithDelegator(s: Staking, d: DelegatorBid): Staking {
    if d.validator in s then s[d.validator := (s[d.validator].0, s[d.validator].1[d.kind := d])] else s
  }

  function DelegatorPass(s: Staking, bids: seq<BidKind>): Staking {
    if bids == [] then s
    else
      var s', last := DelegatorPass(s, bids[..|bids| - 1]), bids[|bids| - 1];
      if last.DelegatorRecord? then WithDelegator(s', last.delegatorBid) else s'
  }

  lemma {:induction false} UnifiedPassIs(bids: seq<BidKind>, v: PublicKey)
    ensures var s, u := UnifiedPass(bids), LastUnified(bids, v);
            (v in s <==> u.Some?) && (v in s ==> s[v] == (Unlocked(u.value), UnifiedDelegators(u.value)))
  {
    if bids != [] {
      UnifiedPassIs(bids[..|bids| - 1], v);
    }
  }

  lemma {:induction false} ValidatorPassIs(s: Staking, bids: seq<BidKind>, v: PublicKey)
    ensures var s', b := ValidatorPass(s, bids), LastValidator(bids, v);
            (v in s' <==> b.Some? || v in s) && (v in s' ==> s'[v] == if b.Some? then (b.value, map[]) else s[v])
  {
    if bids != [] {
      ValidatorPassIs(s, bids[..|bids| - 1], v);
    }
  }

  lemma {:induction false} DelegatorPassIs(s: Staking, bids: seq<BidKind>, v: PublicKey, k: DelegatorKind)
    ensures var s' := DelegatorPass(s, bids);
            s'.Keys == s.Keys && (v in s ==> s'[v].0 == s[v].0 && Find(s'[v].1, k) == Overlay(bids, v, s[v].1, k))
  {
    if bids != [] {
      DelegatorPassIs(s, bids[..|bids| - 1], v, k);
    }
  }

  function Merged(bids: seq<BidKind>): Staking {
    DelegatorPass(ValidatorPass(UnifiedPass(bids), bids), bids)
  }

  lemma PassesMerge(bids: seq<BidKind>)
    ensures Merges(Merged(bids), bids)
  {
    var s := ValidatorPass(UnifiedPass(bids), bids);
    forall v: PublicKey
      ensures v in Merged(bids) <==> Base(bids, v).Some?
      ensures v in Merged(bids) ==> Merged(bids)[v].0 == Base(bids, v).value.0 &&
                                    forall k :: Find(Merged(bids)[v].1, k) == Overlay(bids, v, Base(bids, v).value.1, k)
    {
      UnifiedPassIs(bids, v);
      ValidatorPassIs(UnifiedPass(bids), bids, v);
      forall k: DelegatorKind
        ensures s.Keys == Merged(bids).Keys
        ensures v in s ==> Merged(bids)[v].0 == s[v].0 && Find(Merged(bids)[v].1, k) == Overlay(bids, v, s[v].1, k)
      {
        DelegatorPassIs(s, bids, v, k);
      }
      DelegatorPassIs(s, bids, v, ByPurse([]));
    }
  }

  /** The three loops compute the merge. */
  method BuildStaking(bids: seq<BidKind>) returns (staking: Staking)
    ensures Merges(staking, bids)
  {
    staking := map[];
    for i := 0 to |bids|
      invariant staking == UnifiedPass(bids[..i])
    {
      assert bids[..i + 1][..i] == bids[..i];
      if bids[i].Unified? {
        var bid := bids[i].bid;
        var delegators := CollectDelegators(bid);
        staking := staking[bid.validator := (Unlocked(bid), delegators)];
      }
    }
    assert bids[..|bids|] == bids;
    ghost var first := staking;
    for i := 0 to |bids|
      invariant staking == ValidatorPass(first, bids[..i])
    {
      assert bids[..i + 1][..i] == bids[..i];
      if bids[i].ValidatorRecord? {
        staking := staking[bids[i].validatorBid.validator := (bids[i].validatorBid, map[])];
      }
    }
    ghost var second := staking;
    for i := 0 to |bids|
      invariant staking == DelegatorPass(second, bids[..i])
    {
      assert bids[..i + 1][..i] == bids[..i];
      if bids[i].DelegatorRecord? {
        var d := bids[i].delegatorBid;
        if d.validator in staking {
          var (validatorBid, delegators) := staking[d.validator];
          staking := staking[d.validator := (validatorBid, delegators[d.kind := d])];
        }
      }
    }
    PassesMerge(bids);
  }

  method CollectDelegators(bid: UnifiedBid) returns (delegators: Delegators)
    ensures delegators == UnifiedDelegators(bid)
  {
    delegators := map[];
    var left := bid.delegators.Keys;
    while left != {}
      invariant left <= bid.delegators.Keys
      invariant delegators == map k | k in bid.delegators && k !in left :: ByKey(k) := FromDelegator(bid.delegators[k])
      decreases left
    {
      var k :| k in left;
      delegators := delegators[ByKey(k) := FromDelegator(bid.delegators[k])];
      left := left - {k};
    }
  }

  // ---- order ----

  datatype Class = UnifiedClass | ValidatorClass | DelegatorClass | OtherClass

  function ClassOf(b: BidKind): Class {
    match b
    case Unified(_) => UnifiedClass
    case ValidatorRecord(_) => ValidatorClass
    case DelegatorRecord(_) => DelegatorClass
    case Other => OtherClass
  }

  /** The records of one class, in order. */
  function Keep(bids: seq<BidKind>, c: Class): seq<BidKind> {
    if bids == [] then []
    else if ClassOf(bids[|bids| - 1]) == c then Keep(bids[..|bids| - 1], c) + [bids[|bids| - 1]]
    else Keep(bids[..|bids| - 1], c)
  }

  lemma KeepStep(bids: seq<BidKind>, c: Class)
    requires bids != []
    ensures var front, last, kept := Keep(bids[..|bids| - 1], c), bids[|bids| - 1], Keep(bids, c);
            if ClassOf(last) == c then kept != [] && kept[|kept| - 1] == last && kept[..|kept| - 1] == front else kept == front
  {
  }

  lemma {:induction false} LastUnifiedKept(bids: seq<BidKind>, v: PublicKey)
    ensures LastUnified(bids, v) == LastUnified(Keep(bids, UnifiedClass), v)
  {
    if bids != [] {
      KeepStep(bids, UnifiedClass);
      LastUnifiedKept(bids[..|bids| - 1], v);
    }
  }

  lemma {:induction false} LastValidatorKept(bids: seq<BidKind>, v: PublicKey)
    ensures LastValidator(bids, v) == LastValidator(Keep(bids, ValidatorClass), v)
  {
    if bids != [] {
      KeepStep(bids, ValidatorClass);
      LastValidatorKept(bids[..|bids| - 1], v);
    }
  }

  lemma {:induction false} LastDelegatorKept(bids: seq<BidKind>, v: PublicKey, k: DelegatorKind)
    ensures LastDelegator(bids, v, k) == LastDelegator(Keep(bids, DelegatorClass), v, k)
  {
    if bids != [] {
      KeepStep(bids, DelegatorClass);
      LastDelegatorKept(bids[..|bids| - 1], v, k);
    }
  }

  ghost predicate SameRecords(bids: seq<BidKind>, bids': seq<BidKind>) {
    && Keep(bids, UnifiedClass) == Keep(bids', UnifiedClass)
    && Keep(bids, ValidatorClass) == Keep(bids', ValidatorClass)
    && Keep(bids, DelegatorClass) == Keep(bids', DelegatorClass)
  }

  lemma SameBase(bids: seq<BidKind>, bids': seq<BidKind>, v: PublicKey)
    requires SameRecords(bids, bids')
    ensures Base(bids, v) == Base(bids', v)
  {
    LastUnifiedKept(bids, v);
    LastUnifiedKept(bids', v);
    LastValidatorKept(bids, v);
    LastValidatorKept(bids', v);
  }

  lemma SameOverlay(bids: seq<BidKind>, bids': seq<BidKind>, v: PublicKey, base: Delegators, k: DelegatorKind)
    requires SameRecords(bids, bids')
    ensures Overlay(bids, v, base, k) == Overlay(bids', v, base, k)
  {
    LastDelegatorKept(bids, v, k);
    LastDelegatorKept(bids', v, k);
  }

  lemma SameMerge(s: Staking, bids: seq<BidKind>, bids': seq<BidKind>)
    requires Merges(s, bids) && SameRecords(bids, bids')
    ensures Merges(s, bids')
  {
    forall v: PublicKey
      ensures Base(bids', v) == Base(bids, v)
      ensures v in s ==> forall k :: Find(s[v].1, k) == Overlay(bids', v, Base(bids, v).value.1, k)
    {
      SameBase(bids, bids', v);
      if v in s {
        forall k: DelegatorKind ensures Find(s[v].1, k) == Overlay(bids', v, Base(bids, v).value.1, k) {
          SameOverlay(bids, bids', v, Base(bids, v).value.1, k);
        }
      }
    }
  }

  /** How records of different kinds are interleaved does not matter. */
  lemma InterleavingIsIrrelevant(bids: seq<BidKind>, bids': seq<BidKind>)
    requires SameRecords(bids, bids')
    ensures Merged(bids) == Merged(bids')
  {
    PassesMerge(bids);
    PassesMerge(bids');
    SameMerge(Merged(bids'), bids', bids);
    MergeIsUnique(Merged(bids), Merged(bids'), bids);
  }

  // ---- stake ----

  function Stakes(d: Delegators): map<DelegatorKind, nat> {
    map k | k in d :: d[k].staked
  }

  ghost function StakeMap(s: Staking): map<PublicKey, nat> {
    map v | v in s :: s[v].0.staked + Total(Stakes(s[v].1))
  }

  ghost function TotalStake(s: Staking): nat {
    Total(StakeMap(s))
  }

  /** The stake of every validator bid, and of every delegator bid for a known validator. */
  function RecordedStake(bids: seq<BidKind>, known: set<PublicKey>): nat {
    if bids == [] then 0
    else
      var last := bids[|bids| - 1];
      RecordedStake(bids[..|bids| - 1], known) +
      if last.ValidatorRecord? then last.validatorBid.staked
      else if last.DelegatorRecord? && last.delegatorBid.validator in known then last.delegatorBid.staked
      else 0
  }

  /** No unified bids, and no two records for the same validator or the same delegation. */
  ghost predicate Plain(bids: seq<BidKind>) {
    forall i | 0 <= i < |bids| ::
      && !bids[i].Unified?
      && (bids[i].ValidatorRecord? ==> LastValidator(bids[..i], bids[i].validatorBid.validator).None?)
      && (bids[i].DelegatorRecord? ==> LastDelegator(bids[..i], bids[i].delegatorBid.validator, bids[i].delegatorBid.kind).None?)
  }

  lemma PlainFront(bids: seq<BidKind>)
    requires bids != [] && Plain(bids)
    ensures Plain(bids[..|bids| - 1])
  {
    var front := bids[..|bids| - 1];
    forall i | 0 <= i < |front|
      ensures front[i] == bids[i] && front[..i] == bids[..i]
    {
    }
  }

  lemma {:induction false} NoUnified(bids: seq<BidKind>)
    requires Plain(bids)
    ensures UnifiedPass(bids) == map[]
  {
    if bids != [] {
      PlainFront(bids);
      NoUnified(bids[..|bids| - 1]);
    }
  }

  function ValidatorStake(bids: seq<BidKind>): nat {
    RecordedStake(bids, {})
  }

  lemma {:induction false} ValidatorPassStake(bids: seq<BidKind>)
    requires Plain(bids)
    ensures TotalStake(ValidatorPass(map[], bids)) == ValidatorStake(bids)
    ensures forall v | v in ValidatorPass(map[], bids) :: ValidatorPass(map[], bids)[v].1 == map[]
  {
    if bids != [] {
      var front, last := bids[..|bids| - 1], bids[|bids| - 1];
      PlainFront(bids);
      ValidatorPassStake(front);
      if last.ValidatorRecord? {
        var s, v := ValidatorPass(map[], front), last.validatorBid.validator;
        ValidatorPassIs(map[], front, v);
        TotalChange(StakeMap(s), v, last.validatorBid.staked);
        var none: Delegators := map[];
        assert Stakes(none) == map[];
        assert StakeMap(ValidatorPass(map[], bids)) == StakeMap(s)[v := last.validatorBid.staked];
      }
    }
  }

  lemma DelegatorAdds(s: Staking, d: DelegatorBid)
    requires d.validator in s && d.kind !in s[d.validator].1
    ensures TotalStake(WithDelegator(s, d)) == TotalStake(s) + d.staked
  {
    var v := d.validator;
    var ds := s[v].1;
    TotalChange(Stakes(ds), d.kind, d.staked);
    assert Stakes(ds[d.kind := d]) == Stakes(ds)[d.kind := d.staked];
    TotalChange(StakeMap(s), v, StakeMap(s)[v] + d.staked);
    assert StakeMap(WithDelegator(s, d)) == StakeMap(s)[v := StakeMap(s)[v] + d.staked];
  }

  lemma {:induction false} DelegatorPassStake(s: Staking, bids: seq<BidKind>)
    requires Plain(bids) && forall v | v in s :: s[v].1 == map[]
    ensures TotalStake(DelegatorPass(s, bids)) + ValidatorStake(bids) == TotalStake(s) + RecordedStake(bids, s.Keys)
  {
    if bids != [] {
      var front, last := bids[..|bids| - 1], bids[|bids| - 1];
      PlainFront(bids);
      DelegatorPassStake(s, front);
      if last.DelegatorRecord? {
        var d := last.delegatorBid;
        DelegatorPassIs(s, front, d.validator, d.kind);
        if d.validator in s {
          assert Find(DelegatorPass(s, front)[d.validator].1, d.kind).None?;
          DelegatorAdds(DelegatorPass(s, front), d);
        }
      }
    }
  }

  /** Without unified bids and duplicates, the merge conserves the stake recorded for known validators. */
  lemma StakeIsConserved(bids: seq<BidKind>)
    requires Plain(bids)
    ensures TotalStake(Merged(bids)) == RecordedStake(bids, Merged(bids).Keys)
  {
    NoUnified(bids);
    ValidatorPassStake(bids);
    var s := ValidatorPass(map[], bids);
    DelegatorPassStake(s, bids);
    DelegatorPassIs(s, bids, [], ByPurse([]));
  }
}
