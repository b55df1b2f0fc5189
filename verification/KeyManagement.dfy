/**
 Weighted multi-signature control of accounts and addressable entities
 (types/src/account.rs, types/src/addressable_entity.rs): saturating sums, the guards built
 on them, and what no sequence of operations can break.
 */
module KeyManagement {
  import opened Bytes
  import opened Sums

  type AccountHash = Bytes
  type Weight = n: nat | n < 256
  type Keys = map<AccountHash, Weight>

  datatype ActionType = Deployment | KeyManagementAction | UpgradeManagement

  /** `upgrade` is there for entities only. */
  datatype Thresholds = Thresholds(deployment: Weight, keyManagement: Weight, upgrade: Weight)

  datatype Outcome =
    | Done
    | DuplicateKey | MissingKey | ThresholdViolation
    | InsufficientTotalWeight | DeploymentThreshold | KeyManagementThreshold

  // ---- sums ----

  function Saturating(n: nat): (w: Weight) {
    if n > 255 then 255 else n
  }

  // ---- one operation at a time ----

  datatype Control = Control(keys: Keys, thresholds: Thresholds)

  datatype Op =
    | AddKey(key: AccountHash, weight: Weight)
    | RemoveKey(key: AccountHash)
    | UpdateKey(key: AccountHash, weight: Weight)
    | SetThreshold(action: ActionType, weight: Weight)

  function SetTo(t: Thresholds, action: ActionType, w: Weight): (Outcome, Thresholds) {
    match action
    case Deployment => if w > t.keyManagement then (DeploymentThreshold, t) else (Done, t.(deployment := w))
    case KeyManagementAction => if t.deployment > w then (KeyManagementThreshold, t) else (Done, t.(keyManagement := w))
    case UpgradeManagement => (Done, t.(upgrade := w))
  }

  ghost predicate Covers(total: nat, t: Thresholds) {
    total >= t.deployment && total >= t.keyManagement
  }

  /** What the operations should do, with exact sums. */
  ghost function Applied(c: Control, op: Op): (Outcome, Control) {
    match op
    case AddKey(k, w) => if k in c.keys then (DuplicateKey, c) else (Done, c.(keys := c.keys[k := w]))
    case RemoveKey(k) =>
      if k !in c.keys then (MissingKey, c)
      else if !Covers(Total(c.keys - {k}), c.thresholds) then (ThresholdViolation, c)
      else (Done, c.(keys := c.keys - {k}))
    case UpdateKey(k, w) =>
      if k !in c.keys then (MissingKey, c)
      else if w < c.keys[k] && !Covers(Total(c.keys[k := w]), c.thresholds) then (ThresholdViolation, c)
      else (Done, c.(keys := c.keys[k := w]))
    case SetThreshold(action, w) =>
      if w > Total(c.keys) then (InsufficientTotalWeight, c)
      else
        var (outcome, t) := SetTo(c.thresholds, action, w);
        (outcome, c.(thresholds := t))
  }

  ghost function AppliedAll(c: Control, ops: seq<Op>): Control {
    if ops == [] then c else Applied(AppliedAll(c, ops[..|ops| - 1]), ops[|ops| - 1]).1
  }

  // ---- whole runs ----

  ghost predicate Covered(c: Control) {
    Covers(Total(c.keys), c.thresholds)
  }

  lemma StepStaysCovered(c: Control, op: Op)
    requires Covered(c)
    ensures Covered(Applied(c, op).1)
  {
    match op
    case AddKey(k, w) =>
      TotalWith(c.keys, k, w);
      assert k !in c.keys ==> c.keys.Keys - {k} == c.keys.Keys;
    case RemoveKey(_) =>
    case UpdateKey(k, w) =>
      TotalWith(c.keys, k, w);
      if k in c.keys { SumTake(c.keys, c.keys.Keys, k); }
    case SetThreshold(_, _) =>
  }

  lemma {:induction false} RunStaysCovered(c: Control, ops: seq<Op>)
    requires Covered(c)
    ensures Covered(AppliedAll(c, ops))
  {
    if ops != [] {
      RunStaysCovered(c, ops[..|ops| - 1]);
      StepStaysCovered(AppliedAll(c, ops[..|ops| - 1]), ops[|ops| - 1]);
    }
  }

  /** The order of the two thresholds is kept as well. */
  lemma {:induction false} RunStaysOrdered(c: Control, ops: seq<Op>)
    requires c.thresholds.deployment <= c.thresholds.keyManagement
    ensures var t := AppliedAll(c, ops).thresholds; t.deployment <= t.keyManagement
  {
    if ops != [] {
      RunStaysOrdered(c, ops[..|ops| - 1]);
    }
  }

  // ---- authorization ----

  /** An account wants every key associated; an entity is content with one. */
  predicate CanAuthorize(isEntity: bool, keys: Keys, ks: set<AccountHash>) {
    ks != {} && if isEntity then exists k | k in ks :: k in keys else forall k | k in ks :: k in keys
  }

  ghost predicate CanDeploy(c: Control, ks: set<AccountHash>) {
    Sum(c.keys, ks) >= c.thresholds.deployment
  }

  ghost predicate CanManageKeys(c: Control, ks: set<AccountHash>) {
    Sum(c.keys, ks) >= c.thresholds.keyManagement
  }

  /** No lock-out: after any run, the full key set can deploy and manage keys, and is authorized unless it is empty. */
  lemma NoLockOut(isEntity: bool, c: Control, ops: seq<Op>)
    requires Covered(c)
    ensures var d := AppliedAll(c, ops);
            && CanDeploy(d, d.keys.Keys) && CanManageKeys(d, d.keys.Keys)
            && (CanAuthorize(isEntity, d.keys, d.keys.Keys) <==> d.keys != map[])
            && (d.thresholds.deployment > 0 || d.thresholds.keyManagement > 0 ==> CanAuthorize(isEntity, d.keys, d.keys.Keys))
  {
    RunStaysCovered(c, ops);
    var d := AppliedAll(c, ops);
    if d.keys != map[] {
      var k :| k in d.keys;
      assert k in d.keys.Keys;
    } else {
      assert d.keys.Keys == {};
    }
  }

  /** With both thresholds at zero the last key can go, and then nobody is authorized. */
  lemma ZeroThresholdsLockOut(k: AccountHash)
    ensures var c := Control(map[k := 1], Thresholds(1, 1, 1));
            var d := AppliedAll(c, [SetThreshold(Deployment, 0), SetThreshold(KeyManagementAction, 0), RemoveKey(k)]);
            Covered(c) && d.keys == map[]
  {
    var c := Control(map[k := 1], Thresholds(1, 1, 1));
    var ops := [SetThreshold(Deployment, 0), SetThreshold(KeyManagementAction, 0), RemoveKey(k)];
    SumTake(c.keys, c.keys.Keys, k);
    assert c.keys.Keys - {k} == {};
    assert ops[..2][..1][..0] == [] && ops[..2][..1] == ops[..1];
    assert AppliedAll(c, ops[..1]) == c.(thresholds := Thresholds(0, 1, 1));
    assert AppliedAll(c, ops[..2]) == c.(thresholds := Thresholds(0, 0, 1));
    TotalWithout(c.keys, k);
    assert c.keys - {k} == map[];
  }

  /** And only so: the last key goes exactly by being removed while both thresholds are zero. */
  lemma LastKeyGoes(c: Control, op: Op)
    requires c.keys != map[]
    ensures Applied(c, op).1.keys == map[] <==>
            op.RemoveKey? && c.keys.Keys == {op.key} && c.thresholds.deployment == 0 && c.thresholds.keyManagement == 0
  {
    match op
    case AddKey(k, w) => assert k in c.keys[k := w];
    case UpdateKey(k, w) => assert k in c.keys[k := w];
    case SetThreshold(_, _) =>
    case RemoveKey(k) =>
      assert (c.keys - {k}).Keys == c.keys.Keys - {k};
      assert c.keys - {k} == map[] <==> c.keys.Keys - {k} == {};
      assert k in c.keys ==> (c.keys.Keys - {k} == {} <==> c.keys.Keys == {k}) by {
        if k in c.keys && c.keys.Keys - {k} == {} {
          forall x | x in c.keys.Keys ensures x == k { assert x != k ==> x in c.keys.Keys - {k}; }
        }
      }
  }

  /** Strangers add nothing, and more keys never authorize less. */
  lemma OnlyAssociatedKeysCount(c: Control, ks: set<AccountHash>, ls: set<AccountHash>)
    requires ks * c.keys.Keys <= ls
    ensures CanDeploy(c, ks) ==> CanDeploy(c, ls)
    ensures CanManageKeys(c, ks) ==> CanManageKeys(c, ls)
  {
    OnlyKeysCount(c.keys, ks);
    SumMonotone(c.keys, ks * c.keys.Keys, ls);
  }

  /**
   Both types document that all authorization keys must be associated. An entity's check
   agrees with that exactly when the keys are all associated or all strangers.
   */
  lemma EntityAgreesWithDocumentation(keys: Keys, ks: set<AccountHash>)
    ensures (CanAuthorize(true, keys, ks) <==> CanAuthorize(false, keys, ks)) <==> ks <= keys.Keys || ks !! keys.Keys
  {
    if ks !! keys.Keys && ks != {} {
      var k :| k in ks;
      assert k !in keys;
    }
    if ks <= keys.Keys && ks != {} {
      var k :| k in ks;
      assert k in keys;
    }
    if !(ks !! keys.Keys) && !(ks <= keys.Keys) {
      var k :| k in ks && k in keys.Keys;
      var j :| j in ks && j !in keys.Keys;
      assert k in keys && j !in keys;
    }
  }

  /** The guards do not look at the upgrade threshold, so it can end up out of reach. */
  lemma UpgradeThresholdCanBeLockedOut(k: AccountHash, j: AccountHash)
    requires k != j
    ensures var c := Control(map[k := 1, j := 1], Thresholds(1, 1, 2));
            var d := Applied(c, RemoveKey(j)).1;
            Total(c.keys) == c.thresholds.upgrade && Total(d.keys) < d.thresholds.upgrade
  {
    var keys: Keys := map[k := 1, j := 1];
    SumTake(keys, keys.Keys, k);
    SumTake(keys, keys.Keys - {k}, j);
    assert keys.Keys - {k} - {j} == {};
    TotalWithout(keys, j);
    assert keys.Keys - {j} == {k};
    SumTake(keys, {k}, k);
    assert {k} - {k} == {};
  }

  ghost predicate UpgradeInReach(c: Control) {
    Total(c.keys) >= c.thresholds.upgrade
  }

  /** Whichever covered key set in reach of the upgrade threshold the step starts from, it stays in reach. */
  ghost predicate KeepsUpgradeInReach(t: Thresholds, keys: Keys, op: Op) {
    var c := Control(keys, t);
    Covered(c) && UpgradeInReach(c) ==> UpgradeInReach(Applied(c, op).1)
  }

  /**
   When nothing can go wrong can be read off the thresholds before a call: every step from
   every covered key set keeps the upgrade threshold in reach exactly when one of the two
   guarded thresholds is as high. Then, and only then, every covered key set is in reach.
   */
  lemma UpgradeStaysInReach(t: Thresholds)
    ensures (forall keys, op :: KeepsUpgradeInReach(t, keys, op)) <==> t.upgrade <= t.deployment || t.upgrade <= t.keyManagement
    ensures (forall keys | Covered(Control(keys, t)) :: UpgradeInReach(Control(keys, t))) <==>
            t.upgrade <= t.deployment || t.upgrade <= t.keyManagement
  {
    if t.upgrade <= t.deployment || t.upgrade <= t.keyManagement {
      forall keys, op ensures KeepsUpgradeInReach(t, keys, op) {
        var c := Control(keys, t);
        if Covered(c) && UpgradeInReach(c) { StepInReach(c, op); }
      }
    } else {
      var low := if t.deployment > t.keyManagement then t.deployment else t.keyManagement;
      var k, j: AccountHash := [0], [1];
      var keys: Keys := map[k := low, j := t.upgrade - low];
      TwoKeys(k, low, j, t.upgrade - low);
      assert !KeepsUpgradeInReach(t, keys, RemoveKey(j));
      assert Covered(Control(keys - {j}, t)) && !UpgradeInReach(Control(keys - {j}, t));
    }
  }

  lemma StepInReach(c: Control, op: Op)
    requires Covered(c) && UpgradeInReach(c) && (c.thresholds.upgrade <= c.thresholds.deployment || c.thresholds.upgrade <= c.thresholds.keyManagement)
    ensures UpgradeInReach(Applied(c, op).1)
  {
    StepStaysCovered(c, op);
  }

  lemma TwoKeys(k: AccountHash, v: Weight, j: AccountHash, w: Weight)
    requires k != j
    ensures var keys: Keys := map[k := v, j := w];
            Total(keys) == v + w && Total(keys - {j}) == v
  {
    var keys: Keys := map[k := v, j := w];
    SumTake(keys, keys.Keys, j);
    assert keys.Keys - {j} == {k};
    SumTake(keys, {k}, k);
    assert {k} - {k} == {};
    TotalWithout(keys, j);
  }

  // ---- the order of an entity's thresholds ----

  /** An entity documents its deployment threshold to be no higher than any other; setting the upgrade threshold checks nothing. */
  lemma DeploymentCanExceedUpgrade(k: AccountHash)
    ensures var c := Control(map[k := 1], Thresholds(1, 1, 1));
            Covered(c) && Applied(c, SetThreshold(UpgradeManagement, 0)) == (Done, c.(thresholds := Thresholds(1, 1, 0)))
  {
    var keys: Keys := map[k := 1];
    SumTake(keys, keys.Keys, k);
  }

  predicate UpgradeOrdered(t: Thresholds) {
    t.deployment <= t.upgrade
  }

  /** Raises the deployment threshold above the upgrade threshold, or lowers that below it. */
  predicate BreaksOrder(t: Thresholds, op: Op) {
    op.SetThreshold? &&
    if op.action.Deployment? then t.upgrade < op.weight <= t.keyManagement
    else op.action.UpgradeManagement? && op.weight < t.deployment
  }

  lemma StepKeepsUpgradeOrder(c: Control, op: Op)
    requires Covered(c) && UpgradeOrdered(c.thresholds)
    ensures UpgradeOrdered(Applied(c, op).1.thresholds) <==> !BreaksOrder(c.thresholds, op)
  {
  }

  /** A run keeps that order throughout exactly when no operation in it is such a one. */
  lemma {:induction false} RunKeepsUpgradeOrder(c: Control, ops: seq<Op>)
    requires Covered(c) && UpgradeOrdered(c.thresholds)
    ensures (forall i | 0 <= i <= |ops| :: UpgradeOrdered(AppliedAll(c, ops[..i]).thresholds)) <==>
            (forall i | 0 <= i < |ops| :: !BreaksOrder(AppliedAll(c, ops[..i]).thresholds, ops[i]))
  {
    hide Applied, AppliedAll, Covered, BreaksOrder;
    RunStart(c, ops);
    if forall i | 0 <= i <= |ops| :: UpgradeOrdered(AppliedAll(c, ops[..i]).thresholds) {
      forall i | 0 <= i < |ops| ensures !BreaksOrder(AppliedAll(c, ops[..i]).thresholds, ops[i]) {
        RunStep(c, ops, i);
      }
    }
    if forall i | 0 <= i < |ops| :: !BreaksOrder(AppliedAll(c, ops[..i]).thresholds, ops[i]) {
      for i := 0 to |ops|
        invariant forall j | 0 <= j <= i :: UpgradeOrdered(AppliedAll(c, ops[..j]).thresholds)
      {
        RunStep(c, ops, i);
      }
    }
  }

  lemma RunStart(c: Control, ops: seq<Op>)
    ensures AppliedAll(c, ops[..0]) == c
  {
  }

  lemma RunStep(c: Control, ops: seq<Op>, i: nat)
    requires Covered(c) && i < |ops| && UpgradeOrdered(AppliedAll(c, ops[..i]).thresholds)
    ensures UpgradeOrdered(AppliedAll(c, ops[..i + 1]).thresholds) <==> !BreaksOrder(AppliedAll(c, ops[..i]).thresholds, ops[i])
  {
    RunStaysCovered(c, ops[..i]);
    assert ops[..i + 1][..i] == ops[..i];
    StepKeepsUpgradeOrder(AppliedAll(c, ops[..i]), ops[i]);
  }

  // ---- the objects ----

  /** Adding up with saturation, in any order, is saturating the exact sum. */
  method CalculateWeight(keys: Keys, ks: set<AccountHash>) returns (total: Weight)
    ensures total == if Sum(keys, ks) > 255 then 255 else Sum(keys, ks)
  {
    total := 0;
    var left := ks;
    while left != {}
      invariant left <= ks
      invariant Saturating(total + Sum(keys, left)) == Saturating(Sum(keys, ks))
      decreases left
    {
      var k :| k in left;
      SumTake(keys, left, k);
      if k in keys {
        total := Saturating(total + keys[k]);
      }
      left := left - {k};
    }
  }

  class Authority {
    const isEntity: bool
    var keys: Keys
    var thresholds: Thresholds

    ghost function State(): Control
      reads this
    {
      Control(keys, thresholds)
    }

    /** A fresh account: one key of weight one, all thresholds one. */
    constructor (isEntity: bool, owner: AccountHash)
      ensures this.isEntity == isEntity && State() == Control(map[owner := 1], Thresholds(1, 1, 1)) && Covered(State())
    {
      this.isEntity := isEntity;
      keys, thresholds := map[owner := 1], Thresholds(1, 1, 1);
      SumTake(map[owner := 1], {owner}, owner);
      assert (map[owner := 1 as Weight]).Keys == {owner};
    }

    method AddAssociatedKey(key: AccountHash, weight: Weight) returns (outcome: Outcome)
      modifies `keys
      ensures (outcome, State()) == Applied(old(State()), AddKey(key, weight))
      ensures outcome == if key in old(keys) then DuplicateKey else Done
      ensures outcome.Done? ==> keys == old(keys)[key := weight] && Total(keys) == Total(old(keys)) + weight
      ensures !outcome.Done? ==> keys == old(keys)
    {
      TotalWith(keys, key, weight);
      assert key !in keys ==> keys.Keys - {key} == keys.Keys;
      if key in keys {
        return DuplicateKey;
      }
      keys := keys[key := weight];
      return Done;
    }

    /** The guard's saturated sum decides as the exact total after the removal would. */
    method CanRemoveKey(key: AccountHash) returns (ok: bool)
      ensures ok <==> Total(keys - {key}) >= thresholds.deployment && Total(keys - {key}) >= thresholds.keyManagement
    {
      var without := CalculateWeight(keys, keys.Keys - {key});
      TotalWithout(keys, key);
      ok := without >= thresholds.deployment && without >= thresholds.keyManagement;
    }

    /** Likewise for the total after an update. */
    method CanUpdateKey(key: AccountHash, weight: Weight) returns (ok: bool)
      ensures ok <==> Total(keys[key := weight]) >= thresholds.deployment && Total(keys[key := weight]) >= thresholds.keyManagement
    {
      var without := CalculateWeight(keys, keys.Keys - {key});
      var updated := Saturating(without + weight);
      TotalWith(keys, key, weight);
      ok := updated >= thresholds.deployment && updated >= thresholds.keyManagement;
    }

    method RemoveAssociatedKey(key: AccountHash) returns (outcome: Outcome)
      modifies `keys
      ensures (outcome, State()) == Applied(old(State()), RemoveKey(key))
      ensures outcome == MissingKey <==> key !in old(keys)
      ensures outcome == ThresholdViolation <==>
              key in old(keys) && var rest := Total(old(keys)) - old(keys)[key]; rest < thresholds.deployment || rest < thresholds.keyManagement
      ensures outcome.Done? || outcome == MissingKey || outcome == ThresholdViolation
      ensures outcome.Done? ==> keys == old(keys) - {key} && Total(keys) == Total(old(keys)) - old(keys)[key]
      ensures !outcome.Done? ==> keys == old(keys)
    {
      TotalWithout(keys, key);
      if key in keys { SumTake(keys, keys.Keys, key); }
      if key in keys {
        var ok := CanRemoveKey(key);
        if !ok {
          return ThresholdViolation;
        }
      }
      if key !in keys {
        return MissingKey;
      }
      keys := keys - {key};
      return Done;
    }

    method UpdateAssociatedKey(key: AccountHash, weight: Weight) returns (outcome: Outcome)
      modifies `keys
      ensures (outcome, State()) == Applied(old(State()), UpdateKey(key, weight))
      ensures outcome == MissingKey <==> key !in old(keys)
      ensures outcome == ThresholdViolation <==>
              key in old(keys) && weight < old(keys)[key] &&
              var total := Total(old(keys)) - old(keys)[key] + weight; total < thresholds.deployment || total < thresholds.keyManagement
      ensures outcome.Done? || outcome == MissingKey || outcome == ThresholdViolation
      ensures outcome.Done? ==> keys == old(keys)[key := weight] && Total(keys) == Total(old(keys)) - old(keys)[key] + weight
      ensures !outcome.Done? ==> keys == old(keys)
    {
      TotalWith(keys, key, weight);
      if key in keys { SumTake(keys, keys.Keys, key); }
      if key in keys && weight < keys[key] {
        var ok := CanUpdateKey(key, weight);
        if !ok {
          return ThresholdViolation;
        }
      }
      if key !in keys {
        return MissingKey;
      }
      keys := keys[key := weight];
      return Done;
    }

    /** An account has no upgrade threshold to set. */
    method SetActionThreshold(action: ActionType, weight: Weight) returns (outcome: Outcome)
      requires action.UpgradeManagement? ==> isEntity
      modifies `thresholds
      ensures (outcome, State()) == Applied(old(State()), SetThreshold(action, weight))
      ensures outcome == InsufficientTotalWeight <==> weight > Total(keys)
      ensures outcome == DeploymentThreshold <==> weight <= Total(keys) && action.Deployment? && weight > old(thresholds).keyManagement
      ensures outcome == KeyManagementThreshold <==> weight <= Total(keys) && action.KeyManagementAction? && weight < old(thresholds).deployment
      ensures outcome.Done? || outcome == InsufficientTotalWeight || outcome == DeploymentThreshold || outcome == KeyManagementThreshold
      ensures var t := old(thresholds);
              thresholds == if !outcome.Done? then t
                            else Thresholds(if action.Deployment? then weight else t.deployment,
                                            if action.KeyManagementAction? then weight else t.keyManagement,
                                            if action.UpgradeManagement? then weight else t.upgrade)
    {
      var total := CalculateWeight(keys, keys.Keys);
      if weight > total {
        return InsufficientTotalWeight;
      }
      var (result, t) := SetTo(thresholds, action, weight);
      outcome, thresholds := result, t;
    }

    /** All keys for an account, any for an entity, and never none. */
    method CanAuthorizeWith(ks: set<AccountHash>) returns (ok: bool)
      ensures ok <==> CanAuthorize(isEntity, keys, ks)
      ensures ok <==> if isEntity then !(ks !! keys.Keys) else ks != {} && ks <= keys.Keys
    {
      ok := ks != {} && !isEntity;
      var left := ks;
      while left != {}
        invariant left <= ks
        invariant ok <==> if isEntity then exists k | k in ks - left :: k in keys else ks != {} && forall k | k in ks - left :: k in keys
        decreases left
      {
        var k :| k in left;
        ok := if isEntity then ok || k in keys else ok && k in keys;
        left := left - {k};
      }
      assert ks - left == ks;
    }

    method CanDeployWith(ks: set<AccountHash>) returns (ok: bool)
      ensures ok <==> Sum(keys, ks) >= thresholds.deployment
    {
      var total := CalculateWeight(keys, ks);
      ok := total >= thresholds.deployment;
    }

    method CanManageKeysWith(ks: set<AccountHash>) returns (ok: bool)
      ensures ok <==> Sum(keys, ks) >= thresholds.keyManagement
    {
      var total := CalculateWeight(keys, ks);
      ok := total >= thresholds.keyManagement;
    }

    method CanUpgradeWith(ks: set<AccountHash>) returns (ok: bool)
      ensures ok <==> Sum(keys, ks) >= thresholds.upgrade
    {
      var total := CalculateWeight(keys, ks);
      ok := total >= thresholds.upgrade;
    }
  }
}
