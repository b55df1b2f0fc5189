/**
 The reactor's event loop (node/src/reactor.rs): a machine of cranks, spawned tasks and
 outside schedules, whose every run keeps a forest of causes; and the runner that steps it
 with the real scheduler.
 */
module Reactor {
  import opened Bytes
  import opened RoundRobin

  datatype QueueKind =
    | ControlQueue | NetworkIncoming | NetworkLowPriority | NetworkDemand | Network | NetworkInfo | Fetch
    | SyncGlobalState | FinalitySignature | Regular | Gossip | FromStorage | ToStorage | ContractRuntime
    | Consensus | Validation | Api

  datatype Announcement =
    | ShutdownDueToUserRequest | ShutdownForUpgrade | ShutdownAfterCatchingUp | FatalError
    | QueueDumpRequest | ActivateFailpoint

  datatype ExitCode = Success | Abort | CleanExitDontRestart

  datatype Event = Control(announcement: Announcement) | Plain(payload: int)

  /** A queued event and the id of the event it stems from, if any. */
  datatype Item = Item(ancestor: Option<nat>, event: Event)

  /** A spawned effect: its results go to one queue, under one ancestor. */
  datatype Task = Task(ancestor: Option<nat>, kind: QueueKind)

  /** An event that has been processed; its id is its position in the log plus one. */
  datatype Handled = Handled(ancestor: Option<nat>, event: Event, kind: QueueKind)

  type Queues = map<QueueKind, seq<Item>>

  // ---- the machine ----

  datatype Machine = Machine(queues: Queues, tasks: seq<Task>, log: seq<Handled>)

  /** Steps of any party, in any order; a crank may take any item of any queue. */
  datatype Label =
    | Crank(kind: QueueKind, index: nat, effects: nat)
    | TaskPush(task: nat, event: Event)
    | TaskEnd(task: nat)
    | Schedule(event: Event, kind: QueueKind)

  function Spawned(ancestor: Option<nat>, kind: QueueKind, effects: nat): (ts: seq<Task>)
    ensures |ts| == effects && forall i | 0 <= i < effects :: ts[i] == Task(ancestor, kind)
  {
    seq(effects, _ => Task(ancestor, kind))
  }

  predicate Enabled(m: Machine, l: Label) {
    match l
    case Crank(kind, i, _) => kind in m.queues && i < |m.queues[kind]|
    case TaskPush(t, _) => t < |m.tasks| && m.tasks[t].kind in m.queues
    case TaskEnd(t) => t < |m.tasks|
    case Schedule(_, kind) => kind in m.queues
  }

  function Enqueue(m: Machine, item: Item, kind: QueueKind): Machine
    requires kind in m.queues
  {
    m.(queues := m.queues[kind := m.queues[kind] + [item]])
  }

  function Stepped(m: Machine, l: Label): Machine
    requires Enabled(m, l)
  {
    match l
    case Crank(kind, i, effects) =>
      var q := m.queues[kind];
      var (ancestor, event) := (q[i].ancestor, q[i].event);
      var id := |m.log| + 1;
      Machine(m.queues[kind := q[..i] + q[i + 1..]],
              m.tasks + if event.Control? then [] else Spawned(Some(id), kind, effects),
              m.log + [Handled(ancestor, event, kind)])
    case TaskPush(t, event) => Enqueue(m, Item(m.tasks[t].ancestor, event), m.tasks[t].kind)
    case TaskEnd(t) => m.(tasks := m.tasks[..t] + m.tasks[t + 1..])
    case Schedule(event, kind) => Enqueue(m, Item(None, event), kind)
  }

  ghost predicate Initial(m: Machine) {
    (forall k | k in m.queues :: m.queues[k] == []) && m.log == [] && forall t | t in m.tasks :: t == Task(None, Regular)
  }

  function Run(m: Machine, labels: seq<Label>): Machine {
    if labels == [] then m
    else
      var before := Run(m, labels[..|labels| - 1]);
      if Enabled(before, labels[|labels| - 1]) then Stepped(before, labels[|labels| - 1]) else before
  }

  // ---- causes ----

  /** The ancestor, if there is one, has been processed, was no control event, and sat on this queue. */
  ghost predicate Rooted(log: seq<Handled>, ancestor: Option<nat>, kind: QueueKind) {
    ancestor.Some? ==>
      1 <= ancestor.value <= |log| && log[ancestor.value - 1].kind == kind && log[ancestor.value - 1].event.Plain?
  }

  ghost predicate Causal(m: Machine) {
    && (forall k, i | k in m.queues && 0 <= i < |m.queues[k]| :: Rooted(m.log, m.queues[k][i].ancestor, k))
    && (forall i | 0 <= i < |m.tasks| :: Rooted(m.log, m.tasks[i].ancestor, m.tasks[i].kind))
    && CausalLog(m.log)
  }

  ghost predicate CausalLog(log: seq<Handled>) {
    forall n | 0 <= n < |log| :: Rooted(log[..n], log[n].ancestor, log[n].kind)
  }

  lemma RootedLater(log: seq<Handled>, h: Handled, ancestor: Option<nat>, kind: QueueKind)
    requires Rooted(log, ancestor, kind)
    ensures Rooted(log + [h], ancestor, kind)
  {
  }

  lemma CausalLogGrows(log: seq<Handled>, h: Handled)
    requires CausalLog(log) && Rooted(log, h.ancestor, h.kind)
    ensures CausalLog(log + [h])
  {
    forall n | 0 <= n < |log| + 1 ensures Rooted((log + [h])[..n], (log + [h])[n].ancestor, (log + [h])[n].kind) {
      assert (log + [h])[..n] == log[..n];
      assert log[..|log|] == log;
    }
  }

  lemma CrankStaysCausal(m: Machine, kind: QueueKind, i: nat, effects: nat)
    requires Causal(m) && Enabled(m, Crank(kind, i, effects))
    ensures Causal(Stepped(m, Crank(kind, i, effects)))
  {
    var m', q := Stepped(m, Crank(kind, i, effects)), m.queues[kind];
    var h := Handled(q[i].ancestor, q[i].event, kind);
    CausalLogGrows(m.log, h);
    forall k, j | k in m'.queues && 0 <= j < |m'.queues[k]| ensures Rooted(m'.log, m'.queues[k][j].ancestor, k) {
      var j' := if k == kind && j >= i then j + 1 else j;
      assert m'.queues[k][j] == m.queues[k][j'];
      RootedLater(m.log, h, m.queues[k][j'].ancestor, k);
    }
    forall j | 0 <= j < |m'.tasks| ensures Rooted(m'.log, m'.tasks[j].ancestor, m'.tasks[j].kind) {
      if j < |m.tasks| {
        RootedLater(m.log, h, m.tasks[j].ancestor, m.tasks[j].kind);
      } else {
        assert m'.tasks[j] in Spawned(Some(|m.log| + 1), kind, effects);
      }
    }
  }

  /** A crank that takes the front of a queue. */
  lemma CrankFront(m: Machine, kind: QueueKind, effects: nat)
    requires Enabled(m, Crank(kind, 0, effects))
    ensures var q := m.queues[kind];
            Stepped(m, Crank(kind, 0, effects)) ==
            Machine(m.queues[kind := q[1..]],
                    m.tasks + (if q[0].event.Control? then [] else Spawned(Some(|m.log| + 1), kind, effects)),
                    m.log + [Handled(q[0].ancestor, q[0].event, kind)])
  {
    var q := m.queues[kind];
    assert q[..0] + q[1..] == q[1..];
  }

  lemma EnqueueStaysCausal(m: Machine, item: Item, kind: QueueKind)
    requires Causal(m) && kind in m.queues && Rooted(m.log, item.ancestor, kind)
    ensures Causal(Enqueue(m, item, kind))
  {
  }

  lemma StepStaysCausal(m: Machine, l: Label)
    requires Causal(m) && Enabled(m, l)
    ensures Causal(Stepped(m, l))
  {
    match l
    case Crank(kind, i, effects) => CrankStaysCausal(m, kind, i, effects);
    case TaskPush(t, event) => EnqueueStaysCausal(m, Item(m.tasks[t].ancestor, event), m.tasks[t].kind);
    case TaskEnd(t) =>
      var m' := Stepped(m, l);
      forall j | 0 <= j < |m'.tasks| ensures Rooted(m'.log, m'.tasks[j].ancestor, m'.tasks[j].kind) {
        assert m'.tasks[j] == m.tasks[if j < t then j else j + 1];
      }
    case Schedule(event, kind) => EnqueueStaysCausal(m, Item(None, event), kind);
  }

  /** Causality over all interleavings. */
  lemma {:induction false} EveryRunIsCausal(m: Machine, labels: seq<Label>)
    requires Initial(m)
    ensures Causal(Run(m, labels))
  {
    if labels == [] {
      forall i | 0 <= i < |m.tasks| ensures Rooted(m.log, m.tasks[i].ancestor, m.tasks[i].kind) {
        assert m.tasks[i] in m.tasks;
      }
    } else {
      var front, l := labels[..|labels| - 1], labels[|labels| - 1];
      EveryRunIsCausal(m, front);
      if Enabled(Run(m, front), l) {
        StepStaysCausal(Run(m, front), l);
      }
    }
  }

  /** The ids from an event back to the event without ancestor that its lineage starts from. */
  ghost function Lineage(log: seq<Handled>, id: nat): (ids: seq<nat>)
    requires CausalLog(log) && 1 <= id <= |log|
    ensures 1 <= |ids| <= id && ids[0] == id
    decreases id
  {
    var a := log[id - 1].ancestor;
    assert Rooted(log[..id - 1], a, log[id - 1].kind);
    if a.None? then [id] else [id] + Lineage(log, a.value)
  }

  /** Each id is the ancestor of the one before it and older, all on one queue, the last one a root. */
  ghost predicate Descends(log: seq<Handled>, ids: seq<nat>, kind: QueueKind) {
    && ids != [] && 1 <= ids[0] <= |log| && log[ids[0] - 1].kind == kind
    && if |ids| == 1 then log[ids[0] - 1].ancestor.None?
       else log[ids[0] - 1].ancestor == Some(ids[1]) && ids[1] < ids[0] && Descends(log, ids[1..], kind) &&
            log[ids[1] - 1].event.Plain?
  }

  /** The ancestor relation is a forest of finite lineages, each on one queue, controls only at the tips. */
  lemma {:induction false} LineageDescends(log: seq<Handled>, id: nat)
    requires CausalLog(log) && 1 <= id <= |log|
    ensures Descends(log, Lineage(log, id), log[id - 1].kind)
    decreases id
  {
    var a := log[id - 1].ancestor;
    assert Rooted(log[..id - 1], a, log[id - 1].kind);
    if a.Some? {
      LineageDescends(log, a.value);
      assert Lineage(log, id)[1..] == Lineage(log, a.value);
    }
  }

  /** The same, for every event of every run. */
  lemma EveryEventHasALineage(m: Machine, labels: seq<Label>, id: nat)
    requires Initial(m) && 1 <= id <= |Run(m, labels).log|
    ensures var log := Run(m, labels).log;
            CausalLog(log) && Descends(log, Lineage(log, id), log[id - 1].kind) && |Lineage(log, id)| <= id
  {
    EveryRunIsCausal(m, labels);
    LineageDescends(Run(m, labels).log, id);
  }

  // ---- weights ----

  function Kinds(): seq<QueueKind> {
    [ControlQueue, NetworkIncoming, NetworkLowPriority, NetworkDemand, Network, NetworkInfo, Fetch, SyncGlobalState,
     FinalitySignature, Regular, Gossip, FromStorage, ToStorage, ContractRuntime, Consensus, Validation, Api]
  }

  function Weight(k: QueueKind): (w: nat)
    ensures w >= 1
  {
    match k
    case NetworkLowPriority => 1
    case NetworkInfo => 2
    case NetworkDemand => 2
    case NetworkIncoming => 8
    case Validation => 8
    case Api => 8
    case ControlQueue => 16
    case _ => 4
  }

  function Weights(): (ws: seq<(QueueKind, nat)>)
    ensures |ws| == |Kinds()| && forall i | 0 <= i < |ws| :: ws[i] == (Kinds()[i], Weight(Kinds()[i]))
  {
    seq(|Kinds()|, i requires 0 <= i < |Kinds()| => (Kinds()[i], Weight(Kinds()[i])))
  }

  function Rank(k: QueueKind): (i: nat)
    ensures i < |Kinds()| && Kinds()[i] == k
  {
    match k
    case ControlQueue => 0
    case NetworkIncoming => 1
    case NetworkLowPriority => 2
    case NetworkDemand => 3
    case Network => 4
    case NetworkInfo => 5
    case Fetch => 6
    case SyncGlobalState => 7
    case FinalitySignature => 8
    case Regular => 9
    case Gossip => 10
    case FromStorage => 11
    case ToStorage => 12
    case ContractRuntime => 13
    case Consensus => 14
    case Validation => 15
    case Api => 16
  }

  /** The weight of every queue. */
  lemma WeightsOfQueues()
    ensures [Weight(ControlQueue), Weight(NetworkIncoming), Weight(NetworkLowPriority), Weight(NetworkDemand), Weight(Network),
             Weight(NetworkInfo), Weight(Fetch), Weight(SyncGlobalState), Weight(FinalitySignature)] == [16, 8, 1, 2, 4, 2, 4, 4, 4]
    ensures [Weight(Regular), Weight(Gossip), Weight(FromStorage), Weight(ToStorage), Weight(ContractRuntime),
             Weight(Consensus), Weight(Validation), Weight(Api)] == [4, 4, 4, 4, 4, 4, 8, 8]
  {
  }

  lemma RankOfKind(i: nat)
    requires i < |Kinds()|
    ensures Rank(Kinds()[i]) == i
  {
  }

  lemma WeightsAreValid()
    ensures ValidSlots(SlotsOf(Weights()))
  {
    forall i, j | 0 <= i < j < |Kinds()| ensures Kinds()[i] != Kinds()[j] {
      RankOfKind(i);
      RankOfKind(j);
    }
  }

  function PartialWeight(n: nat): nat
    requires n <= |Kinds()|
  {
    if n == 0 then 0 else PartialWeight(n - 1) + Weight(Kinds()[n - 1])
  }

  lemma {:induction false} SumOfWeights(n: nat)
    requires n <= |Weights()|
    ensures Sum(SlotsOf(Weights()), 0, n) == PartialWeight(n)
  {
    if n > 0 {
      SumOfWeights(n - 1);
    }
  }

  lemma HalfWeight()
    ensures PartialWeight(9) == 45
  {
    assert PartialWeight(1) == 16 && PartialWeight(2) == 24 && PartialWeight(3) == 25;
    assert PartialWeight(4) == 27 && PartialWeight(5) == 31 && PartialWeight(6) == 33;
    assert PartialWeight(7) == 37 && PartialWeight(8) == 41;
  }

  lemma AllWeight()
    ensures PartialWeight(17) == 85
  {
    HalfWeight();
    assert PartialWeight(10) == 49 && PartialWeight(11) == 53 && PartialWeight(12) == 57;
    assert PartialWeight(13) == 61 && PartialWeight(14) == 65 && PartialWeight(15) == 69;
    assert PartialWeight(16) == 77;
  }

  lemma TotalWeight()
    ensures Sum(SlotsOf(Weights()), 0, |Weights()|) == 85
  {
    SumOfWeights(17);
    AllWeight();
  }

  /** An event with `p` events ahead of it on a queue of weight w is popped within 85 * (p / w + 1) pops. */
  lemma EveryEventIsProcessed(w: Wheel<Item, QueueKind>, ops: seq<Op<Item, QueueKind>>, j: nat, p: nat)
    requires ValidWheel(SlotsOf(Weights()), w) && j < |Weights()| && p < |w.queues[Weights()[j].0]|
    requires Pops(ops) >= (p / Weights()[j].1 + 1) * 85
    ensures var out := From(RunAll(SlotsOf(Weights()), w, ops).out, Weights()[j].0);
            p < |out| && out[p] == w.queues[Weights()[j].0][p]
  {
    TotalWeight();
    NoStarvation(SlotsOf(Weights()), w, ops, j, p);
  }

  // ---- from the wheel to the log ----

  /** What popping these items, one crank each, adds to the log. */
  ghost function AsLog(out: seq<(Item, QueueKind)>): (log: seq<Handled>)
    ensures |log| == |out| && forall i | 0 <= i < |out| :: log[i] == Handled(out[i].0.ancestor, out[i].0.event, out[i].1)
  {
    seq(|out|, i requires 0 <= i < |out| => Handled(out[i].0.ancestor, out[i].0.event, out[i].1))
  }

  /** The processed events that sat on one queue. */
  ghost function HandledOn(log: seq<Handled>, kind: QueueKind): seq<Handled> {
    if log == [] then []
    else HandledOn(log[..|log| - 1], kind) + if log[|log| - 1].kind == kind then [log[|log| - 1]] else []
  }

  lemma {:induction false} HandledOnAsLog(out: seq<(Item, QueueKind)>, kind: QueueKind)
    ensures var items, log := From(out, kind), HandledOn(AsLog(out), kind);
            |log| == |items| && forall p | 0 <= p < |items| :: log[p] == Handled(items[p].ancestor, items[p].event, kind)
  {
    if out != [] {
      HandledOnAsLog(out[..|out| - 1], kind);
      assert AsLog(out)[..|out| - 1] == AsLog(out[..|out| - 1]);
    }
  }

  /** These operations took one wheel to the other, and these events came off it. */
  ghost predicate Drove(w: Wheel<Item, QueueKind>, ops: seq<Op<Item, QueueKind>>, w': Wheel<Item, QueueKind>, part: seq<Handled>) {
    ValidWheel(SlotsOf(Weights()), w) &&
    var r := RunAll(SlotsOf(Weights()), w, ops);
    r.wheel == w' && AsLog(r.out) == part
  }

  lemma DroveNowhere(w: Wheel<Item, QueueKind>)
    requires ValidWheel(SlotsOf(Weights()), w)
    ensures Drove(w, [], w, [])
  {
  }

  lemma DrovePush(w: Wheel<Item, QueueKind>, ops: seq<Op<Item, QueueKind>>, w': Wheel<Item, QueueKind>, part: seq<Handled>, item: Item, kind: QueueKind)
    requires Drove(w, ops, w', part) && kind in w'.queues
    ensures Drove(w, ops + [PushOp(item, kind)], Pushed(w', item, kind), part) && Pops(ops + [PushOp(item, kind)]) == Pops(ops)
  {
    hide RunAll, Pops, ValidWheel;
    RunAllSnoc(SlotsOf(Weights()), w, ops, PushOp(item, kind));
  }

  lemma DrovePop(w: Wheel<Item, QueueKind>, ops: seq<Op<Item, QueueKind>>, w': Wheel<Item, QueueKind>, part: seq<Handled>)
    requires Drove(w, ops, w', part) && !Empty(SlotsOf(Weights()), w')
    ensures var (item, kind, w'') := Popped(SlotsOf(Weights()), w');
            Drove(w, ops + [PopOp], w'', part + [Handled(item.ancestor, item.event, kind)]) && Pops(ops + [PopOp]) == Pops(ops) + 1
  {
    hide RunAll, Pops, ValidWheel, Popped, Empty;
    RunAllSnoc(SlotsOf(Weights()), w, ops, PopOp);
  }

  /** The event with `p` events ahead of it on queue `j` is the `p`-th one of that queue to be processed. */
  ghost predicate Processed(w: Wheel<Item, QueueKind>, part: seq<Handled>, j: nat, p: nat)
    requires ValidWheel(SlotsOf(Weights()), w) && j < |Weights()| && p < |w.queues[Weights()[j].0]|
  {
    var kind := Weights()[j].0;
    var item, done := w.queues[kind][p], HandledOn(part, kind);
    p < |done| && done[p] == Handled(item.ancestor, item.event, kind)
  }

  lemma DroveProcesses(w: Wheel<Item, QueueKind>, ops: seq<Op<Item, QueueKind>>, w': Wheel<Item, QueueKind>, part: seq<Handled>, j: nat, p: nat)
    requires Drove(w, ops, w', part) && j < |Weights()| && p < |w.queues[Weights()[j].0]|
    requires Pops(ops) >= (p / Weights()[j].1 + 1) * 85
    ensures Processed(w, part, j, p)
  {
    EveryEventIsProcessed(w, ops, j, p);
    HandledOnAsLog(RunAll(SlotsOf(Weights()), w, ops).out, Weights()[j].0);
  }

  // ---- the runner ----

  /** What happens next: the loop cranks, a task pushes a result or ends, or an event comes from outside. */
  datatype Turn = CrankTurn(effects: nat) | PushTurn(task: nat, event: Event) | EndTurn(task: nat) | ScheduleTurn(event: Event, kind: QueueKind)

  function Exit(a: Announcement): (code: Option<ExitCode>)
    ensures code == Some(Abort) <==> a.FatalError?
    ensures code == Some(Success) <==> a.ShutdownForUpgrade?
    ensures code == Some(CleanExitDontRestart) <==> a.ShutdownDueToUserRequest? || a.ShutdownAfterCatchingUp?
    ensures code == None <==> a.QueueDumpRequest? || a.ActivateFailpoint?
  {
    match a
    case ShutdownDueToUserRequest => Some(CleanExitDontRestart)
    case ShutdownForUpgrade => Some(Success)
    case ShutdownAfterCatchingUp => Some(CleanExitDontRestart)
    case FatalError => Some(Abort)
    case QueueDumpRequest => None
    case ActivateFailpoint => None
  }

  class Runner {
    const scheduler: WeightedRoundRobin<Item, QueueKind>
    var currentEventId: nat
    var tasks: seq<Task>
    ghost var log: seq<Handled>

    ghost function State(): Machine
      reads this, scheduler
    {
      Machine(scheduler.queues, tasks, log)
    }

    ghost predicate Valid()
      reads this, scheduler
    {
      && scheduler.Valid() && scheduler.slots == SlotsOf(Weights()) && !scheduler.sealed
      && currentEventId == |log| + 1 && Causal(State())
    }

    constructor (initialEffects: nat)
      ensures Valid() && Initial(State()) && fresh(scheduler)
      ensures log == [] && currentEventId == 1 && |tasks| == initialEffects && forall t | t in tasks :: t == Task(None, Regular)
      ensures forall k | k in scheduler.queues :: scheduler.queues[k] == []
    {
      WeightsAreValid();
      scheduler := new WeightedRoundRobin(Weights());
      currentEventId, tasks, log := 1, Spawned(None, Regular, initialEffects), [];
      new;
      EveryRunIsCausal(State(), []);
    }

    /** Processes the next event; `effects` is how many effects its dispatch returns. */
    method CrankOnce(effects: nat) returns (exit: Option<ExitCode>, ghost kind: QueueKind)
      requires Valid() && scheduler.total > 0
      modifies this, scheduler
      ensures Valid()
      ensures Enabled(old(State()), Crank(kind, 0, effects)) && State() == Stepped(old(State()), Crank(kind, 0, effects))
      ensures var event := old(scheduler.queues)[kind][0].event;
              && (exit == Some(Abort) <==> event == Control(FatalError))
              && (exit == Some(Success) <==> event == Control(ShutdownForUpgrade))
              && (exit == Some(CleanExitDontRestart) <==> event == Control(ShutdownDueToUserRequest) || event == Control(ShutdownAfterCatchingUp))
              && (exit == None <==> event.Plain? || event == Control(QueueDumpRequest) || event == Control(ActivateFailpoint))
      ensures var item := old(scheduler.queues)[kind][0];
              && log == old(log) + [Handled(item.ancestor, item.event, kind)]
              && scheduler.queues == old(scheduler.queues)[kind := old(scheduler.queues)[kind][1..]]
              && tasks[..|old(tasks)|] == old(tasks) && |tasks| == |old(tasks)| + (if item.event.Control? then 0 else effects)
              && forall i | |old(tasks)| <= i < |tasks| :: tasks[i] == Task(Some(|old(log)| + 1), kind)
      ensures !Empty(scheduler.slots, old(scheduler.State()))
      ensures (old(State()).queues[kind][0], kind, scheduler.State()) == Popped(scheduler.slots, old(scheduler.State()))
    {
      hide Popped, Weights, Causal, Exit, Stepped, Empty, ValidWheel;
      ghost var before := State();
      var item, queueKind := scheduler.Pop();
      kind, exit := queueKind, None;
      CrankStaysCausal(before, queueKind, 0, effects);
      var spawned := [];
      if item.event.Control? {
        exit := Exit(item.event.announcement);
      } else {
        spawned := Spawned(Some(currentEventId), queueKind, effects);
      }
      tasks := tasks + spawned;
      currentEventId := currentEventId + 1;
      log := log + [Handled(item.ancestor, item.event, queueKind)];
      CrankFront(before, queueKind, effects);
    }

    /** A spawned task schedules one of its result events. */
    method PushResult(task: nat, event: Event)
      requires Valid() && task < |tasks|
      modifies scheduler
      ensures Valid() && Enabled(old(State()), TaskPush(task, event)) && State() == Stepped(old(State()), TaskPush(task, event))
      ensures scheduler.State() == Pushed(old(scheduler.State()), Item(tasks[task].ancestor, event), tasks[task].kind)
      ensures var kind := tasks[task].kind;
              kind in old(scheduler.queues) &&
              scheduler.queues == old(scheduler.queues)[kind := old(scheduler.queues)[kind] + [Item(tasks[task].ancestor, event)]]
    {
      AllQueuesExist();
      EnqueueStaysCausal(State(), Item(tasks[task].ancestor, event), tasks[task].kind);
      scheduler.PushItem(Item(tasks[task].ancestor, event), tasks[task].kind);
      scheduler.AddPermit();
    }

    /** A spawned task has pushed its last result. */
    method FinishTask(task: nat)
      requires Valid() && task < |tasks|
      modifies `tasks
      ensures Valid() && State() == Stepped(old(State()), TaskEnd(task))
    {
      StepStaysCausal(State(), TaskEnd(task));
      tasks := tasks[..task] + tasks[task + 1..];
    }

    /** Anything outside the loop schedules an event without ancestor. */
    method ScheduleEvent(event: Event, kind: QueueKind)
      requires Valid()
      modifies scheduler
      ensures Valid() && Enabled(old(State()), Schedule(event, kind)) && State() == Stepped(old(State()), Schedule(event, kind))
      ensures scheduler.State() == Pushed(old(scheduler.State()), Item(None, event), kind)
      ensures kind in old(scheduler.queues) &&
              scheduler.queues == old(scheduler.queues)[kind := old(scheduler.queues)[kind] + [Item(None, event)]]
    {
      AllQueuesExist();
      EnqueueStaysCausal(State(), Item(None, event), kind);
      scheduler.PushItem(Item(None, event), kind);
      scheduler.AddPermit();
    }

    method TakeCrank(effects: nat, ghost w: Wheel<Item, QueueKind>, ghost n: nat, ghost ops: seq<Op<Item, QueueKind>>)
      returns (ghost ops': seq<Op<Item, QueueKind>>)
      requires Valid() && scheduler.total > 0
      requires n <= |log| && Drove(w, ops, scheduler.State(), log[n..]) && Pops(ops) == |log| - n
      modifies this, scheduler
      ensures Valid() && n <= |log| && log[..n] == old(log)[..n]
      ensures Drove(w, ops', scheduler.State(), log[n..]) && Pops(ops') == |log| - n
    {
      hide Drove, Causal, Pops, ValidWheel, Empty, Popped, Weights;
      ghost var before, m := scheduler.State(), State();
      var exit, kind := CrankOnce(effects);
      CrankFront(m, kind, effects);
      DrovePop(w, ops, before, old(log)[n..]);
      ops' := ops + [PopOp];
      assert log[n..] == old(log)[n..] + [log[|log| - 1]];
    }

    /** One turn; a crank with nothing to take waits, and a task that has ended does nothing. */
    method TakeTurn(turn: Turn, ghost w: Wheel<Item, QueueKind>, ghost n: nat, ghost ops: seq<Op<Item, QueueKind>>)
      returns (ghost ops': seq<Op<Item, QueueKind>>)
      requires Valid() && n <= |log| && Drove(w, ops, scheduler.State(), log[n..]) && Pops(ops) == |log| - n
      modifies this, scheduler
      ensures Valid() && n <= |log| && log[..n] == old(log)[..n]
      ensures Drove(w, ops', scheduler.State(), log[n..]) && Pops(ops') == |log| - n
    {
      hide Drove, Causal, Pops, ValidWheel, Empty;
      ops' := ops;
      AllQueuesExist();
      match turn {
        case CrankTurn(effects) =>
          if scheduler.total > 0 {
            ops' := TakeCrank(effects, w, n, ops);
          }
        case PushTurn(task, event) =>
          if task < |tasks| {
            DrovePush(w, ops, scheduler.State(), log[n..], Item(tasks[task].ancestor, event), tasks[task].kind);
            ops' := ops + [PushOp(Item(tasks[task].ancestor, event), tasks[task].kind)];
            PushResult(task, event);
          }
        case EndTurn(task) =>
          if task < |tasks| {
            FinishTask(task);
          }
        case ScheduleTurn(event, kind) =>
          DrovePush(w, ops, scheduler.State(), log[n..], Item(None, event), kind);
          ops' := ops + [PushOp(Item(None, event), kind)];
          ScheduleEvent(event, kind);
      }
    }

    /**
     The runner under any schedule of loop, tasks and outside events. Whatever else comes in,
     an event that has `p` events ahead of it on a queue of weight w is processed by the time
     of 85 * (p / w + 1) cranks, and the events of its queue are processed in order.
     */
    method Drive(turns: seq<Turn>) returns (cranks: nat)
      requires Valid()
      modifies this, scheduler
      ensures Valid() && |log| == |old(log)| + cranks && log[..|old(log)|] == old(log)
      ensures ValidWheel(SlotsOf(Weights()), old(scheduler.State()))
      ensures forall j, p | 0 <= j < |Weights()| && 0 <= p < |old(scheduler.queues)[Weights()[j].0]| && cranks >= (p / Weights()[j].1 + 1) * 85 ::
                Processed(old(scheduler.State()), log[|old(log)|..], j, p)
    {
      ghost var w, n, ops := scheduler.State(), |log|, [];
      var first := currentEventId;
      cranks := 0;
      DroveNowhere(w);
      assert log[n..] == [];
      for i := 0 to |turns|
        invariant Valid() && |log| == n + cranks && log[..n] == old(log)
        invariant Drove(w, ops, scheduler.State(), log[n..]) && Pops(ops) == cranks
      {
        ops := TakeTurn(turns[i], w, n, ops);
        cranks := currentEventId - first;
      }
      forall j, p | 0 <= j < |Weights()| && 0 <= p < |w.queues[Weights()[j].0]| && cranks >= (p / Weights()[j].1 + 1) * 85
        ensures Processed(w, log[n..], j, p)
      {
        DroveProcesses(w, ops, scheduler.State(), log[n..], j, p);
      }
    }

    lemma AllQueuesExist()
      requires Valid()
      ensures forall k: QueueKind :: k in scheduler.queues
    {
      forall k: QueueKind ensures k in scheduler.queues {
        assert scheduler.slots[Rank(k)].key == k;
      }
    }
  }
}
