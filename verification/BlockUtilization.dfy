/**
 How full a block is (types/src/block.rs): a percentage of the configured capacity that
 reaches one hundred exactly when some lane is full.
 */
module BlockUtilization {
  import opened Arithmetic
  import opened Bytes
  import opened Sums

  type Lane = byte
  type Body = map<Lane, seq<Bytes>>

  const MINT: Lane := 0
  const AUCTION: Lane := 1
  const INSTALL_UPGRADE: Lane := 2

  /** Maximum transaction counts: three predefined lanes and the wasm lanes. */
  datatype Config = Config(mint: nat, auction: nat, installUpgrade: nat, wasm: seq<(Lane, nat)>)

  /** The first wasm lane with the id, or zero. */
  function FirstMax(wasm: seq<(Lane, nat)>, lane: Lane): nat {
    if wasm == [] then 0 else if wasm[0].0 == lane then wasm[0].1 else FirstMax(wasm[1..], lane)
  }

  function MaxCount(c: Config, lane: Lane): nat {
    if lane == MINT then c.mint
    else if lane == AUCTION then c.auction
    else if lane == INSTALL_UPGRADE then c.installUpgrade
    else FirstMax(c.wasm, lane)
  }

  function WasmTotal(wasm: seq<(Lane, nat)>): nat {
    if wasm == [] then 0 else wasm[0].1 + WasmTotal(wasm[1..])
  }

  function Capacity(c: Config): nat {
    c.mint + c.auction + c.installUpgrade + WasmTotal(c.wasm)
  }

  /** The limit of each lane: lanes 0 to 2 have their own, a wasm lane that of its first entry, and any other none. */
  lemma LaneLimits(c: Config)
    ensures MaxCount(c, 0) == c.mint && MaxCount(c, 1) == c.auction && MaxCount(c, 2) == c.installUpgrade
    ensures forall i | 0 <= i < |c.wasm| && c.wasm[i].0 > 2 && (forall j | 0 <= j < i :: c.wasm[j].0 != c.wasm[i].0) ::
              MaxCount(c, c.wasm[i].0) == c.wasm[i].1
    ensures forall lane: Lane | lane > 2 && (forall j | 0 <= j < |c.wasm| :: c.wasm[j].0 != lane) :: MaxCount(c, lane) == 0
  {
    forall i | 0 <= i < |c.wasm| && c.wasm[i].0 > 2 && (forall j | 0 <= j < i :: c.wasm[j].0 != c.wasm[i].0)
      ensures MaxCount(c, c.wasm[i].0) == c.wasm[i].1
    {
      FirstMaxAt(c.wasm, i);
    }
    forall lane: Lane | lane > 2 && (forall j | 0 <= j < |c.wasm| :: c.wasm[j].0 != lane) ensures MaxCount(c, lane) == 0 {
      FirstMaxMissing(c.wasm, lane);
    }
  }

  lemma {:induction false} FirstMaxAt(wasm: seq<(Lane, nat)>, i: nat)
    requires i < |wasm| && forall j | 0 <= j < i :: wasm[j].0 != wasm[i].0
    ensures FirstMax(wasm, wasm[i].0) == wasm[i].1
    decreases |wasm|
  {
    if i > 0 {
      assert wasm[0].0 != wasm[i].0 && wasm[1..][i - 1] == wasm[i];
      FirstMaxAt(wasm[1..], i - 1);
    }
  }

  lemma {:induction false} FirstMaxMissing(wasm: seq<(Lane, nat)>, lane: Lane)
    requires forall j | 0 <= j < |wasm| :: wasm[j].0 != lane
    ensures FirstMax(wasm, lane) == 0
    decreases |wasm|
  {
    if wasm != [] {
      assert wasm[0].0 != lane;
      FirstMaxMissing(wasm[1..], lane);
    }
  }

  /** The capacity is the sum of all limits: each entry, wherever it stands, adds its own. */
  lemma CapacityAdds(c: Config, i: nat)
    ensures c.wasm == [] ==> Capacity(c) == c.mint + c.auction + c.installUpgrade
    ensures i < |c.wasm| ==> Capacity(c) == Capacity(c.(wasm := c.wasm[..i] + c.wasm[i + 1..])) + c.wasm[i].1
  {
    if i < |c.wasm| {
      WasmTotalAdds(c.wasm, i);
    }
  }

  lemma {:induction false} WasmTotalAdds(wasm: seq<(Lane, nat)>, i: nat)
    requires i < |wasm|
    ensures WasmTotal(wasm) == WasmTotal(wasm[..i] + wasm[i + 1..]) + wasm[i].1
    decreases |wasm|
  {
    var rest := wasm[..i] + wasm[i + 1..];
    if i == 0 {
      assert rest == wasm[1..];
    } else {
      WasmTotalAdds(wasm[1..], i - 1);
      assert rest[0] == wasm[0] && rest[1..] == wasm[1..][..i - 1] + wasm[1..][i..];
    }
  }

  function LaneCount(b: Body, lane: Lane): nat {
    if lane in b then |b[lane]| else 0
  }

  function Counts(b: Body): map<Lane, nat> {
    map l | l in b :: |b[l]|
  }

  ghost function TransactionCount(b: Body): nat {
    Total(Counts(b))
  }

  /** Some lane has as many transactions as it may have; a lane that is not configured has room for none. */
  ghost predicate Full(b: Body, c: Config) {
    || LaneCount(b, MINT) >= c.mint || LaneCount(b, AUCTION) >= c.auction || LaneCount(b, INSTALL_UPGRADE) >= c.installUpgrade
    || exists l :: l in b && l >= 2 && |b[l]| >= MaxCount(c, l)
  }

  /** The scan, with its early returns. */
  method HasHitSlotCapacity(b: Body, c: Config) returns (hit: bool)
    ensures hit == Full(b, c)
    ensures hit <==>
            || (if 0 in b then |b[0]| else 0) >= c.mint || (if 1 in b then |b[1]| else 0) >= c.auction
            || (if 2 in b then |b[2]| else 0) >= c.installUpgrade || exists l :: l in b && l >= 2 && |b[l]| >= MaxCount(c, l)
  {
    if LaneCount(b, MINT) >= c.mint || LaneCount(b, AUCTION) >= c.auction || LaneCount(b, INSTALL_UPGRADE) >= c.installUpgrade {
      return true;
    }
    var left := b.Keys;
    while left != {}
      invariant left <= b.Keys
      invariant forall l | l in b && l !in left && l >= 2 :: |b[l]| < MaxCount(c, l)
      decreases left
    {
      var lane :| lane in left;
      left := left - {lane};
      if lane < 2 {
        continue;
      }
      if |b[lane]| >= MaxCount(c, lane) {
        return true;
      }
    }
    return false;
  }

  // ---- room ----

  ghost function Maxima(wasm: seq<(Lane, nat)>, lanes: set<Lane>): map<Lane, nat> {
    map l | l in lanes :: FirstMax(wasm, l)
  }

  /** Different lanes draw on different entries of the configuration. */
  lemma {:induction false} MaximaFit(wasm: seq<(Lane, nat)>, lanes: set<Lane>)
    ensures Sum(Maxima(wasm, lanes), lanes) <= WasmTotal(wasm)
  {
    if wasm == [] {
      SumOfNothing(Maxima(wasm, lanes), lanes);
    } else {
      var (id, max) := wasm[0];
      var rest := lanes - {id};
      MaximaFit(wasm[1..], rest);
      SumAgree(Maxima(wasm, lanes), Maxima(wasm[1..], rest), rest);
      if id in lanes {
        SumTake(Maxima(wasm, lanes), lanes, id);
      } else {
        assert rest == lanes;
      }
    }
  }

  lemma {:induction false} SumOfNothing(m: map<Lane, nat>, ks: set<Lane>)
    requires forall k | k in ks :: At(m, k) == 0
    ensures Sum(m, ks) == 0
    decreases ks
  {
    if ks != {} {
      var k :| k in ks;
      SumTake(m, ks, k);
      SumOfNothing(m, ks - {k});
    }
  }

  lemma {:induction false} SumBelow(m: map<Lane, nat>, n: map<Lane, nat>, ks: set<Lane>)
    requires forall k | k in ks :: At(m, k) <= At(n, k)
    ensures Sum(m, ks) <= Sum(n, ks)
    decreases ks
  {
    if ks != {} {
      var k :| k in ks;
      SumTake(m, ks, k);
      SumTake(n, ks, k);
      SumBelow(m, n, ks - {k});
    }
  }

  lemma TakePredefined(b: Body)
    ensures TransactionCount(b) ==
            LaneCount(b, MINT) + LaneCount(b, AUCTION) + LaneCount(b, INSTALL_UPGRADE) +
            Sum(Counts(b), b.Keys - {MINT, AUCTION, INSTALL_UPGRADE})
  {
    var m, ks := Counts(b), b.Keys;
    assert m.Keys == ks;
    TakeLane(m, ks, MINT);
    TakeLane(m, ks - {MINT}, AUCTION);
    TakeLane(m, ks - {MINT} - {AUCTION}, INSTALL_UPGRADE);
    assert ks - {MINT} - {AUCTION} - {INSTALL_UPGRADE} == ks - {MINT, AUCTION, INSTALL_UPGRADE};
  }

  lemma TakeLane(m: map<Lane, nat>, ks: set<Lane>, lane: Lane)
    ensures Sum(m, ks) == (if lane in ks then At(m, lane) else 0) + Sum(m, ks - {lane})
  {
    if lane in ks {
      SumTake(m, ks, lane);
    } else {
      assert ks - {lane} == ks;
    }
  }

  /** A block with room in every lane has room in all. */
  lemma RoomIsLeft(b: Body, c: Config)
    requires !Full(b, c)
    ensures TransactionCount(b) < Capacity(c)
  {
    TakePredefined(b);
    var lanes := b.Keys - {MINT, AUCTION, INSTALL_UPGRADE};
    SumBelow(Counts(b), Maxima(c.wasm, lanes), lanes);
    MaximaFit(c.wasm, lanes);
  }

  // ---- utilization ----

  datatype Block = V1 | V2(body: Body)

  /**
   The percentage, rounded down: never a division by zero, never above one hundred, and one
   hundred exactly for a full block.
   */
  method Utilization(block: Block, c: Config) returns (percent: nat)
    ensures percent <= 100
    ensures block.V1? ==> percent == 0
    ensures block.V2? ==> (percent == 100 <==> Full(block.body, c))
    ensures block.V2? && !Full(block.body, c) ==>
              Capacity(c) > 0 && percent == TransactionCount(block.body) * 100 / Capacity(c)
  {
    match block {
      case V1 => percent := 0;
      case V2(body) =>
        var hit := HasHitSlotCapacity(body, c);
        if hit {
          percent := 100;
        } else {
          RoomIsLeft(body, c);
          var count := CountTransactions(body);
          Percentage(count, Capacity(c));
          percent := count * 100 / Capacity(c);
        }
    }
  }

  lemma Percentage(n: nat, capacity: nat)
    requires n < capacity
    ensures n * 100 / capacity < 100
  {
    var q, r := n * 100 / capacity, n * 100 % capacity;
    assert n * 100 == capacity * q + r;
    if q >= 100 {
      Times(capacity, 100, q);
    }
  }

  method CountTransactions(b: Body) returns (n: nat)
    ensures n == TransactionCount(b)
  {
    n := 0;
    var left := b.Keys;
    assert Counts(b).Keys == b.Keys;
    while left != {}
      invariant left <= b.Keys && n + Sum(Counts(b), left) == TransactionCount(b)
      decreases left
    {
      var lane :| lane in left;
      SumTake(Counts(b), left, lane);
      n := n + |b[lane]|;
      left := left - {lane};
    }
  }
}
