/**
 The weighted round-robin scheduler behind the reactor (node/src/utils/round_robin.rs):
 a turn of the wheel that finds the next item, first-in-first-out delivery, and a bound on
 how long any queued item can wait, whatever is pushed meanwhile.
 */
module RoundRobin {
  import opened Arithmetic
  import opened Bytes

  datatype Slot<K> = Slot(key: K, tickets: nat)

  /** The queues, the active slot, and the tickets it has left. */
  datatype Wheel<I, K> = Wheel(queues: map<K, seq<I>>, active: nat, left: nat)

  ghost predicate ValidSlots<K>(slots: seq<Slot<K>>) {
    && slots != []
    && (forall i | 0 <= i < |slots| :: slots[i].tickets >= 1)
    && (forall i, j | 0 <= i < j < |slots| :: slots[i].key != slots[j].key)
  }

  ghost predicate ValidWheel<I(!new), K(!new)>(slots: seq<Slot<K>>, w: Wheel<I, K>) {
    && ValidSlots(slots) && w.active < |slots| && w.left <= slots[w.active].tickets
    && (forall i | 0 <= i < |slots| :: slots[i].key in w.queues)
    && (forall k | k in w.queues :: exists i :: 0 <= i < |slots| && slots[i].key == k)
  }

  function Next(n: nat, i: nat): (j: nat)
    requires i < n
    ensures j < n
  {
    (i + 1) % n
  }

  /** Steps of the wheel from slot `i` to slot `j`, a full turn when they are the same. */
  function Distance(n: nat, i: nat, j: nat): (d: nat)
    requires i < n && j < n
    ensures 1 <= d <= n
  {
    if i < j then j - i else n - i + j
  }

  lemma DistanceStep(n: nat, i: nat, j: nat)
    requires i < n && j < n
    ensures Next(n, i) != j ==> Distance(n, Next(n, i), j) < Distance(n, i, j)
  {
    assert Next(n, i) == if i + 1 == n then 0 else i + 1;
  }

  predicate Ready<I, K>(slots: seq<Slot<K>>, w: Wheel<I, K>)
    requires w.active < |slots| && slots[w.active].key in w.queues
  {
    w.left > 0 && w.queues[slots[w.active].key] != []
  }

  function Turn<I, K>(slots: seq<Slot<K>>, w: Wheel<I, K>): Wheel<I, K>
    requires w.active < |slots|
  {
    var i := Next(|slots|, w.active);
    w.(active := i, left := slots[i].tickets)
  }

  /** Turning until the active slot has a ticket and an item; slot `j` is a non-empty one. */
  ghost function Settle<I(!new), K(!new)>(slots: seq<Slot<K>>, w: Wheel<I, K>, j: nat): (s: Wheel<I, K>)
    requires ValidWheel(slots, w) && j < |slots| && w.queues[slots[j].key] != []
    ensures ValidWheel(slots, s) && Ready(slots, s) && s.queues == w.queues
    decreases if Ready(slots, w) then 0 else Distance(|slots|, w.active, j)
  {
    if Ready(slots, w) then w
    else
      DistanceStep(|slots|, w.active, j);
      Settle(slots, Turn(slots, w), j)
  }

  /** Where the wheel stops does not depend on the slot that shows it will stop. */
  lemma {:induction false} SettleAgrees<I(!new), K(!new)>(slots: seq<Slot<K>>, w: Wheel<I, K>, j: nat, j': nat)
    requires ValidWheel(slots, w) && j < |slots| && w.queues[slots[j].key] != []
    requires j' < |slots| && w.queues[slots[j'].key] != []
    ensures Settle(slots, w, j) == Settle(slots, w, j')
    decreases if Ready(slots, w) then 0 else Distance(|slots|, w.active, j)
  {
    if !Ready(slots, w) {
      DistanceStep(|slots|, w.active, j);
      SettleAgrees(slots, Turn(slots, w), j, j');
    }
  }

  ghost function TurnsLeft<I, K>(slots: seq<Slot<K>>, w: Wheel<I, K>, j: nat): nat
    requires w.active < |slots| && j < |slots| && slots[w.active].key in w.queues
  {
    if Ready(slots, w) then 0 else Distance(|slots|, w.active, j)
  }

  ghost predicate Turning<I(!new), K(!new)>(slots: seq<Slot<K>>, w: Wheel<I, K>, j: nat, goal: Wheel<I, K>) {
    ValidWheel(slots, w) && Holds(slots, w, j) && Settle(slots, w, j) == goal
  }

  lemma TurnSettles<I(!new), K(!new)>(slots: seq<Slot<K>>, w: Wheel<I, K>, j: nat)
    requires ValidWheel(slots, w) && Holds(slots, w, j) && !Ready(slots, w)
    ensures Turning(slots, Turn(slots, w), j, Settle(slots, w, j))
    ensures TurnsLeft(slots, Turn(slots, w), j) < TurnsLeft(slots, w, j)
  {
    DistanceStep(|slots|, w.active, j);
  }

  ghost predicate Holds<I, K>(slots: seq<Slot<K>>, w: Wheel<I, K>, j: nat) {
    j < |slots| && slots[j].key in w.queues && w.queues[slots[j].key] != []
  }

  ghost predicate Empty<I, K>(slots: seq<Slot<K>>, w: Wheel<I, K>) {
    forall j: nat :: !Holds(slots, w, j)
  }

  ghost function Holder<I(!new), K(!new)>(slots: seq<Slot<K>>, w: Wheel<I, K>): (j: nat)
    requires !Empty(slots, w)
    ensures Holds(slots, w, j)
  {
    var j: nat :| Holds(slots, w, j);
    j
  }

  ghost function Settled<I(!new), K(!new)>(slots: seq<Slot<K>>, w: Wheel<I, K>): (s: Wheel<I, K>)
    requires ValidWheel(slots, w) && !Empty(slots, w)
    ensures ValidWheel(slots, s) && Ready(slots, s) && s.queues == w.queues
  {
    Settle(slots, w, Holder(slots, w))
  }

  /** The wheel stays where it is, or goes on to the next slot that is not empty and has all its tickets there. */
  lemma {:induction false} SettlesAtTheNext<I(!new), K(!new)>(slots: seq<Slot<K>>, w: Wheel<I, K>, j: nat)
    requires ValidWheel(slots, w) && j < |slots| && w.queues[slots[j].key] != []
    ensures var s := Settle(slots, w, j);
            if Ready(slots, w) then s == w
            else s.left == slots[s.active].tickets && forall i | 0 <= i < |slots| && w.queues[slots[i].key] != [] ::
                   Distance(|slots|, w.active, s.active) <= Distance(|slots|, w.active, i)
    decreases if Ready(slots, w) then 0 else Distance(|slots|, w.active, j)
  {
    if !Ready(slots, w) {
      var n, v := |slots|, Turn(slots, w);
      DistanceStep(n, w.active, j);
      SettlesAtTheNext(slots, v, j);
      var s := Settle(slots, v, j);
      forall i | 0 <= i < n && w.queues[slots[i].key] != []
        ensures Distance(n, w.active, s.active) <= Distance(n, w.active, i)
      {
        DistanceNext(n, w.active, i);
        DistanceNext(n, w.active, s.active);
      }
    }
  }

  lemma DistanceNext(n: nat, i: nat, j: nat)
    requires i < n && j < n
    ensures Distance(n, i, j) == if Next(n, i) == j then 1 else Distance(n, Next(n, i), j) + 1
  {
    assert Next(n, i) == if i + 1 == n then 0 else i + 1;
  }

  function Taken<I, K>(slots: seq<Slot<K>>, s: Wheel<I, K>): Wheel<I, K>
    requires s.active < |slots| && slots[s.active].key in s.queues && Ready(slots, s)
  {
    var k := slots[s.active].key;
    Wheel(s.queues[k := s.queues[k][1..]], s.active, s.left - 1)
  }

  /** The item a pop hands out, its queue, and the wheel after it. */
  ghost function Popped<I(!new), K(!new)>(slots: seq<Slot<K>>, w: Wheel<I, K>): (r: (I, K, Wheel<I, K>))
    requires ValidWheel(slots, w) && !Empty(slots, w)
    ensures ValidWheel(slots, r.2) && r.1 in w.queues && w.queues[r.1] != [] && r.0 == w.queues[r.1][0]
    ensures r.2.queues == w.queues[r.1 := w.queues[r.1][1..]]
  {
    var s := Settled(slots, w);
    var k := slots[s.active].key;
    (s.queues[k][0], k, Taken(slots, s))
  }

  /**
   A pop stays with the active slot as long as that has tickets and items. Otherwise it goes
   to the nearest slot further round that has items, and starts on all the tickets of that.
   */
  lemma PopsTheNext<I(!new), K(!new)>(slots: seq<Slot<K>>, w: Wheel<I, K>, i: nat)
    requires ValidWheel(slots, w) && !Empty(slots, w) && i < |slots|
    ensures var (item, key, w') := Popped(slots, w);
            && slots[w'.active].key == key && w.queues[key] == [item] + w'.queues[key] && w'.queues == w.queues[key := w'.queues[key]]
            && (w.left > 0 && w.queues[slots[w.active].key] != [] ==> w'.active == w.active && w'.left == w.left - 1)
            && (w.left == 0 || w.queues[slots[w.active].key] == [] ==> w'.left == slots[w'.active].tickets - 1)
            && ((w.left == 0 || w.queues[slots[w.active].key] == []) && w.queues[slots[i].key] != [] ==>
                  (if w.active < w'.active then w'.active - w.active else |slots| - w.active + w'.active) <=
                  (if w.active < i then i - w.active else |slots| - w.active + i))
  {
    SettlesAtTheNext(slots, w, Holder(slots, w));
  }

  function Pushed<I, K>(w: Wheel<I, K>, item: I, k: K): Wheel<I, K>
    requires k in w.queues
  {
    w.(queues := w.queues[k := w.queues[k] + [item]])
  }

  // ---- runs ----

  datatype Op<I, K> = PushOp(item: I, key: K) | PopOp

  datatype Run<I, K> = Run(wheel: Wheel<I, K>, out: seq<(I, K)>)

  /** A pop waits while everything is empty, which is no step at all. */
  ghost function Step<I(!new), K(!new)>(slots: seq<Slot<K>>, r: Run<I, K>, op: Op<I, K>): (r': Run<I, K>)
    requires ValidWheel(slots, r.wheel)
    ensures ValidWheel(slots, r'.wheel)
  {
    match op
    case PushOp(item, k) => if k in r.wheel.queues then r.(wheel := Pushed(r.wheel, item, k)) else r
    case PopOp =>
      if Empty(slots, r.wheel) then r
      else
        var (item, k, w) := Popped(slots, r.wheel);
        Run(w, r.out + [(item, k)])
  }

  ghost function RunAll<I(!new), K(!new)>(slots: seq<Slot<K>>, w: Wheel<I, K>, ops: seq<Op<I, K>>): (r: Run<I, K>)
    requires ValidWheel(slots, w)
    ensures ValidWheel(slots, r.wheel)
  {
    if ops == [] then Run(w, []) else Step(slots, RunAll(slots, w, ops[..|ops| - 1]), ops[|ops| - 1])
  }

  function PushedTo<I, K(==)>(ops: seq<Op<I, K>>, k: K): seq<I> {
    if ops == [] then []
    else
      var op := ops[|ops| - 1];
      PushedTo(ops[..|ops| - 1], k) + Arrived(op, k)
  }

  function From<I, K(==)>(out: seq<(I, K)>, k: K): seq<I> {
    if out == [] then []
    else From(out[..|out| - 1], k) + if out[|out| - 1].1 == k then [out[|out| - 1].0] else []
  }

  lemma FromSnoc<I, K>(out: seq<(I, K)>, e: (I, K), k: K)
    ensures From(out + [e], k) == From(out, k) + if e.1 == k then [e.0] else []
  {
    assert (out + [e])[..|out|] == out;
  }

  function Arrived<I, K(==)>(op: Op<I, K>, k: K): seq<I> {
    if op.PushOp? && op.key == k then [op.item] else []
  }

  lemma StepConserves<I(!new), K(!new)>(slots: seq<Slot<K>>, r: Run<I, K>, op: Op<I, K>, k: K)
    requires ValidWheel(slots, r.wheel) && k in r.wheel.queues
    ensures var r' := Step(slots, r, op);
            k in r'.wheel.queues && From(r'.out, k) + r'.wheel.queues[k] == From(r.out, k) + r.wheel.queues[k] + Arrived(op, k)
  {
    hide Popped, ValidWheel, Empty, From;
    var q := r.wheel.queues[k];
    match op
    case PushOp(item, key) => Assoc(From(r.out, k), q, Arrived(op, k));
    case PopOp =>
      if !Empty(slots, r.wheel) {
        var (item, key, _) := Popped(slots, r.wheel);
        FromSnoc(r.out, (item, key), k);
        if key == k {
          assert q == [item] + q[1..];
          Assoc(From(r.out, k), [item], q[1..]);
        }
      }
  }

  /** What left a queue and what is still in it are what was in it and what came, in order. */
  lemma {:induction false} FirstInFirstOut<I(!new), K(!new)>(slots: seq<Slot<K>>, w: Wheel<I, K>, ops: seq<Op<I, K>>, k: K)
    requires ValidWheel(slots, w) && k in w.queues
    ensures var r := RunAll(slots, w, ops);
            k in r.wheel.queues && From(r.out, k) + r.wheel.queues[k] == w.queues[k] + PushedTo(ops, k)
  {
    if ops != [] {
      var front, op := ops[..|ops| - 1], ops[|ops| - 1];
      FirstInFirstOut(slots, w, front, k);
      StepConserves(slots, RunAll(slots, w, front), op, k);
      Assoc(w.queues[k], PushedTo(front, k), Arrived(op, k));
    }
  }

  // ---- how long an item can wait ----

  function Sum<K>(slots: seq<Slot<K>>, from: nat, to: nat): nat
    requires from <= to <= |slots|
  {
    if from == to then 0 else Sum(slots, from, to - 1) + slots[to - 1].tickets
  }

  lemma {:induction false} SumSplit<K>(slots: seq<Slot<K>>, a: nat, b: nat, c: nat)
    requires a <= b <= c <= |slots|
    ensures Sum(slots, a, c) == Sum(slots, a, b) + Sum(slots, b, c)
  {
    if b < c {
      SumSplit(slots, a, b, c - 1);
    }
  }

  /** Tickets of the slots strictly after `i` and before `j`, all the way round when equal. */
  function Between<K>(slots: seq<Slot<K>>, i: nat, j: nat): nat
    requires i < |slots| && j < |slots|
  {
    if i < j then Sum(slots, i + 1, j) else Sum(slots, i + 1, |slots|) + Sum(slots, 0, j)
  }

  lemma BetweenStep<K>(slots: seq<Slot<K>>, i: nat, j: nat)
    requires i < |slots| && j < |slots|
    ensures var i' := Next(|slots|, i);
            Between(slots, i, j) == if i' == j then 0 else slots[i'].tickets + Between(slots, i', j)
  {
    var n := |slots|;
    assert Next(n, i) == if i + 1 == n then 0 else i + 1;
    if i < j {
      SumSplit(slots, i + 1, i + 1, j);
      if i + 1 < j { SumSplit(slots, i + 1, i + 2, j); }
    } else if i + 1 < n {
      SumSplit(slots, i + 1, i + 2, n);
    } else if j > 0 {
      SumSplit(slots, 0, 1, j);
    }
  }

  lemma RoundIsTotal<K>(slots: seq<Slot<K>>, j: nat)
    requires j < |slots|
    ensures Between(slots, j, j) + slots[j].tickets == Sum(slots, 0, |slots|)
  {
    SumSplit(slots, 0, j, |slots|);
    SumSplit(slots, j, j + 1, |slots|);
  }

  /** Pops until the item with `p` items ahead of it is out, if slot `j` starts its visit now. */
  function FromFresh<K>(slots: seq<Slot<K>>, j: nat, p: nat): nat
    requires j < |slots| && slots[j].tickets >= 1
    decreases p
  {
    var w := slots[j].tickets;
    if p < w then p + 1 else w + Between(slots, j, j) + FromFresh(slots, j, p - w)
  }

  function Wait<I, K>(slots: seq<Slot<K>>, wheel: Wheel<I, K>, j: nat, p: nat): nat
    requires j < |slots| && slots[j].tickets >= 1 && wheel.active < |slots|
  {
    if wheel.active == j && p < wheel.left then p + 1
    else if wheel.active == j then wheel.left + Between(slots, j, j) + FromFresh(slots, j, p - wheel.left)
    else wheel.left + Between(slots, wheel.active, j) + FromFresh(slots, j, p)
  }

  /** A turn past an empty or used-up slot does not make the wait longer. */
  lemma TurnKeepsWait<I(!new), K(!new)>(slots: seq<Slot<K>>, w: Wheel<I, K>, j: nat, p: nat)
    requires ValidWheel(slots, w) && j < |slots| && p < |w.queues[slots[j].key]| && !Ready(slots, w)
    ensures Wait(slots, Turn(slots, w), j, p) <= Wait(slots, w, j, p)
  {
    BetweenStep(slots, w.active, j);
  }

  lemma {:induction false} SettleKeepsWait<I(!new), K(!new)>(slots: seq<Slot<K>>, w: Wheel<I, K>, j': nat, j: nat, p: nat)
    requires ValidWheel(slots, w) && j < |slots| && p < |w.queues[slots[j].key]|
    requires j' < |slots| && w.queues[slots[j'].key] != []
    ensures Wait(slots, Settle(slots, w, j'), j, p) <= Wait(slots, w, j, p)
    decreases if Ready(slots, w) then 0 else Distance(|slots|, w.active, j')
  {
    if !Ready(slots, w) {
      TurnKeepsWait(slots, w, j, p);
      DistanceStep(|slots|, w.active, j');
      SettleKeepsWait(slots, Turn(slots, w), j', j, p);
    }
  }

  /** Every pop brings each waiting item closer, and the front one of the popped queue out. */
  lemma PopShortensWait<I(!new), K(!new)>(slots: seq<Slot<K>>, w: Wheel<I, K>, j: nat, p: nat)
    requires ValidWheel(slots, w) && j < |slots| && p < |w.queues[slots[j].key]|
    ensures !Empty(slots, w)
    ensures var (_, k, w') := Popped(slots, w);
            if k != slots[j].key then Wait(slots, w', j, p) < Wait(slots, w, j, p)
            else p > 0 ==> Wait(slots, w', j, p - 1) < Wait(slots, w, j, p)
  {
    assert Holds(slots, w, j);
    SettleKeepsWait(slots, w, Holder(slots, w), j, p);
  }

  function Pops<I, K>(ops: seq<Op<I, K>>): nat {
    if ops == [] then 0 else Pops(ops[..|ops| - 1]) + if ops[|ops| - 1].PopOp? then 1 else 0
  }

  lemma RunAllSnoc<I(!new), K(!new)>(slots: seq<Slot<K>>, w: Wheel<I, K>, ops: seq<Op<I, K>>, op: Op<I, K>)
    requires ValidWheel(slots, w)
    ensures RunAll(slots, w, ops + [op]) == Step(slots, RunAll(slots, w, ops), op)
    ensures Pops(ops + [op]) == Pops(ops) + if op.PopOp? then 1 else 0
  {
    assert (ops + [op])[..|ops|] == ops;
  }

  /** The item that had `p` items ahead of it is out, or it is still due within `budget` pops. */
  ghost predicate Due<I(!new), K(!new)>(slots: seq<Slot<K>>, r: Run<I, K>, j: nat, p: nat, budget: int)
    requires ValidWheel(slots, r.wheel) && j < |slots|
  {
    var gone := |From(r.out, slots[j].key)|;
    gone <= p ==> p - gone < |r.wheel.queues[slots[j].key]| && Wait(slots, r.wheel, j, p - gone) <= budget
  }

  lemma StepStaysDue<I(!new), K(!new)>(slots: seq<Slot<K>>, r: Run<I, K>, op: Op<I, K>, j: nat, p: nat, budget: int)
    requires ValidWheel(slots, r.wheel) && j < |slots| && Due(slots, r, j, p, budget)
    ensures Due(slots, Step(slots, r, op), j, p, if op.PopOp? then budget - 1 else budget)
  {
    var k := slots[j].key;
    var gone := |From(r.out, k)|;
    if op.PopOp? && !Empty(slots, r.wheel) {
      var (item, key, _) := Popped(slots, r.wheel);
      FromSnoc(r.out, (item, key), k);
    }
    if op.PopOp? && gone <= p {
      PopShortensWait(slots, r.wheel, j, p - gone);
    }
  }

  /** Invariant of every run: the pops so far have all been counted off the wait. */
  lemma {:induction false} WaitRunsDown<I(!new), K(!new)>(slots: seq<Slot<K>>, w: Wheel<I, K>, ops: seq<Op<I, K>>, j: nat, p: nat)
    requires ValidWheel(slots, w) && j < |slots| && p < |w.queues[slots[j].key]|
    ensures Due(slots, RunAll(slots, w, ops), j, p, Wait(slots, w, j, p) - Pops(ops))
  {
    if ops != [] {
      var front, op := ops[..|ops| - 1], ops[|ops| - 1];
      WaitRunsDown(slots, w, front, j, p);
      StepStaysDue(slots, RunAll(slots, w, front), op, j, p, Wait(slots, w, j, p) - Pops(front));
    }
  }

  // ---- the bound in closed form ----

  /** Visits of a slot with `w` tickets that it takes to hand out `p + 1` items. */
  function Visits(p: nat, w: nat): (v: nat)
    requires w >= 1
    ensures v == p / w + 1
    decreases p
  {
    if p < w then Divided(p, w, 0, p); 1
    else
      OneMore(p, w);
      1 + Visits(p - w, w)
  }

  lemma {:induction false} FreshBound<K>(slots: seq<Slot<K>>, j: nat, p: nat)
    requires j < |slots| && slots[j].tickets >= 1
    ensures var total := Sum(slots, 0, |slots|);
            FromFresh(slots, j, p) + Between(slots, j, j) <= Visits(p, slots[j].tickets) * total
    ensures p >= slots[j].tickets ==> FromFresh(slots, j, p) == Sum(slots, 0, |slots|) + FromFresh(slots, j, p - slots[j].tickets)
    decreases p
  {
    var w := slots[j].tickets;
    RoundIsTotal(slots, j);
    if p >= w {
      FreshBound(slots, j, p - w);
      OneMoreTimes(Visits(p - w, w), Sum(slots, 0, |slots|));
    }
  }

  lemma OneMoreTimes(v: nat, total: nat)
    ensures (1 + v) * total == total + v * total
  {
  }

  lemma {:induction false} BetweenBound<K>(slots: seq<Slot<K>>, i: nat, j: nat)
    requires i < |slots| && j < |slots| && i != j
    ensures slots[i].tickets + Between(slots, i, j) <= Between(slots, j, j)
  {
    if i < j {
      SumSplit(slots, 0, i, j);
      SumSplit(slots, i, i + 1, j);
    } else {
      SumSplit(slots, j + 1, i, |slots|);
      SumSplit(slots, i, i + 1, |slots|);
    }
  }

  /** With fewer tickets left, a visit is worth no more than a later start of the same visit. */
  lemma {:induction false} UsedVisit<K>(slots: seq<Slot<K>>, j: nat, p: nat, t: nat)
    requires j < |slots| && t <= p && t <= slots[j].tickets && slots[j].tickets >= 1
    ensures t + FromFresh(slots, j, p - t) <= FromFresh(slots, j, p)
    decreases p
  {
    var w := slots[j].tickets;
    if p >= w && p - t >= w {
      UsedVisit(slots, j, p - w, t);
    } else if p >= w && t < w {
      assert FromFresh(slots, j, p - t) == p - t + 1;
      FreshAtLeast(slots, j, p - w);
    }
  }

  lemma {:induction false} FreshAtLeast<K>(slots: seq<Slot<K>>, j: nat, p: nat)
    requires j < |slots| && slots[j].tickets >= 1
    ensures FromFresh(slots, j, p) >= p + 1
    decreases p
  {
    if p >= slots[j].tickets {
      FreshAtLeast(slots, j, p - slots[j].tickets);
    }
  }

  lemma WaitBound<I(!new), K(!new)>(slots: seq<Slot<K>>, w: Wheel<I, K>, j: nat, p: nat)
    requires ValidWheel(slots, w) && j < |slots|
    ensures Wait(slots, w, j, p) <= (p / slots[j].tickets + 1) * Sum(slots, 0, |slots|)
  {
    FreshBound(slots, j, p);
    FreshAtLeast(slots, j, p);
    if w.active != j {
      BetweenBound(slots, w.active, j);
    } else if p >= w.left {
      UsedVisit(slots, j, p, w.left);
    }
  }

  /**
   No starvation: an item with `p` items ahead of it in a queue of weight w is out after
   (p / w + 1) * W pops, W being the weight of all queues together, whatever was pushed in
   between, and to which queue.
   */
  lemma NoStarvation<I(!new), K(!new)>(slots: seq<Slot<K>>, w: Wheel<I, K>, ops: seq<Op<I, K>>, j: nat, p: nat)
    requires ValidWheel(slots, w) && j < |slots| && p < |w.queues[slots[j].key]|
    requires Pops(ops) >= (p / slots[j].tickets + 1) * Sum(slots, 0, |slots|)
    ensures var out := From(RunAll(slots, w, ops).out, slots[j].key);
            p < |out| && out[p] == w.queues[slots[j].key][p]
  {
    var k := slots[j].key;
    var r := RunAll(slots, w, ops);
    WaitBound(slots, w, j, p);
    WaitRunsDown(slots, w, ops, j, p);
    FirstInFirstOut(slots, w, ops, k);
    if |From(r.out, k)| <= p {
      WaitIsPositive(slots, r.wheel, j, p - |From(r.out, k)|);
    }
    assert (From(r.out, k) + r.wheel.queues[k])[p] == (w.queues[k] + PushedTo(ops, k))[p];
  }

  lemma WaitIsPositive<I(!new), K(!new)>(slots: seq<Slot<K>>, w: Wheel<I, K>, j: nat, p: nat)
    requires ValidWheel(slots, w) && j < |slots|
    ensures Wait(slots, w, j, p) >= 1
  {
    FreshAtLeast(slots, j, p);
    if w.active == j && p >= w.left {
      FreshAtLeast(slots, j, p - w.left);
    }
  }

  // ---- the scheduler ----

  function Count<I, K>(slots: seq<Slot<K>>, queues: map<K, seq<I>>, n: nat): nat
    requires n <= |slots| && forall i | 0 <= i < n :: slots[i].key in queues
  {
    if n == 0 then 0 else Count(slots, queues, n - 1) + |queues[slots[n - 1].key]|
  }

  lemma {:induction false} CountUpdate<I(!new), K(!new)>(slots: seq<Slot<K>>, queues: map<K, seq<I>>, j: nat, q: seq<I>, n: nat)
    requires ValidSlots(slots) && j < |slots| && n <= |slots| && forall i | 0 <= i < |slots| :: slots[i].key in queues
    ensures Count(slots, queues[slots[j].key := q], n) ==
            Count(slots, queues, n) + if j < n then |q| - |queues[slots[j].key]| else 0
  {
    if n > 0 {
      CountUpdate(slots, queues, j, q, n - 1);
    }
  }

  lemma {:induction false} CountedIsHeld<I(!new), K(!new)>(slots: seq<Slot<K>>, w: Wheel<I, K>, n: nat)
    requires n <= |slots| && (forall i | 0 <= i < n :: slots[i].key in w.queues) && Count(slots, w.queues, n) > 0
    ensures !Empty(slots, w)
  {
    if |w.queues[slots[n - 1].key]| > 0 {
      assert Holds(slots, w, n - 1);
    } else {
      CountedIsHeld(slots, w, n - 1);
    }
  }

  function SlotsOf<K>(weights: seq<(K, nat)>): (slots: seq<Slot<K>>)
    ensures |slots| == |weights|
    ensures forall i | 0 <= i < |weights| :: slots[i] == Slot(weights[i].0, weights[i].1)
  {
    seq(|weights|, i requires 0 <= i < |weights| => Slot(weights[i].0, weights[i].1))
  }

  /** A push is two atomic steps: the item goes in first, its permit follows. */
  class WeightedRoundRobin<I(!new), K(==, !new)> {
    const slots: seq<Slot<K>>
    var queues: map<K, seq<I>>
    var active: nat
    var left: nat
    var total: nat
    var sealed: bool
    /** Items whose permit has not been added yet. */
    ghost var pending: nat

    ghost function State(): Wheel<I, K>
      reads this
    {
      Wheel(queues, active, left)
    }

    ghost predicate Valid()
      reads this
    {
      ValidWheel(slots, State()) && total + pending == Count(slots, queues, |slots|)
    }

    constructor (weights: seq<(K, nat)>)
      requires weights != [] && ValidSlots(SlotsOf(weights))
      ensures Valid() && slots == SlotsOf(weights) && !sealed && total == pending == 0 && active == 0 && left == weights[0].1
      ensures forall k | k in queues :: queues[k] == []
      ensures fresh(this)
    {
      slots := SlotsOf(weights);
      queues := map i | 0 <= i < |weights| :: weights[i].0 := [];
      active, left, total, sealed, pending := 0, weights[0].1, 0, false, 0;
      new;
      NothingCounted(slots, queues, |slots|);
    }

    method PushItem(item: I, key: K)
      requires Valid() && key in queues
      modifies this
      ensures Valid() && unchanged(`total) && unchanged(`sealed)
      ensures State() == if sealed then old(State()) else Pushed(old(State()), item, key)
      ensures key in old(queues) && queues == if sealed then old(queues) else old(queues)[key := old(queues)[key] + [item]]
      ensures unchanged(`active) && unchanged(`left)
      ensures pending == old(pending) + if sealed then 0 else 1
    {
      if sealed {
        return;
      }
      ghost var j :| 0 <= j < |slots| && slots[j].key == key;
      CountUpdate(slots, queues, j, queues[key] + [item], |slots|);
      queues := queues[key := queues[key] + [item]];
      pending := pending + 1;
    }

    method AddPermit()
      requires Valid() && pending > 0
      modifies this
      ensures Valid() && State() == old(State()) && total == old(total) + 1 && pending == old(pending) - 1 && unchanged(`sealed)
    {
      total, pending := total + 1, pending - 1;
    }

    /** Moves on past used-up slots and empty queues: at most once around. */
    method TurnUntilReady()
      requires ValidWheel(slots, State()) && !Empty(slots, State())
      modifies `active, `left
      ensures State() == Settled(slots, old(State()))
    {
      ghost var j := Holder(slots, State());
      while left == 0 || queues[slots[active].key] == []
        invariant Turning(slots, State(), j, Settled(slots, old(State())))
        decreases TurnsLeft(slots, State(), j)
      {
        TurnSettles(slots, State(), j);
        ghost var turned := Turn(slots, State());
        active := Next(|slots|, active);
        left := slots[active].tickets;
        assert State() == turned;
      }
    }

    /** With a permit in hand there is an item to find. */
    method Pop() returns (item: I, key: K)
      requires Valid() && total > 0
      modifies this
      ensures Valid() && total == old(total) - 1 && unchanged(`pending) && unchanged(`sealed)
      ensures !Empty(slots, old(State())) && (item, key, State()) == Popped(slots, old(State()))
      ensures key in old(queues) && old(queues)[key] == [item] + queues[key] && queues == old(queues)[key := queues[key]]
    {
      CountedIsHeld(slots, State(), |slots|);
      total := total - 1;
      TurnUntilReady();
      left, key := left - 1, slots[active].key;
      item := queues[key][0];
      CountUpdate(slots, queues, active, queues[key][1..], |slots|);
      queues := queues[key := queues[key][1..]];
    }
  }

  lemma {:induction false} NothingCounted<I, K>(slots: seq<Slot<K>>, queues: map<K, seq<I>>, n: nat)
    requires n <= |slots| && (forall i | 0 <= i < n :: slots[i].key in queues) && forall k | k in queues :: queues[k] == []
    ensures Count(slots, queues, n) == 0
  {
    if n > 0 {
      NothingCounted(slots, queues, n - 1);
    }
  }
}
