/**
 Requests and their one reply (node/src/effect.rs): the exchange as a machine stepped by the
 responder's holder, the requester and a shutdown in any order, and the responders that
 carry it over a one-shot channel.
 */
module RequestProtocol {
  import opened Bytes

  /** Parked: waiting on a semaphore that nobody ever releases. */
  datatype Requester<V> = Waiting | Received(value: V) | Parked | Cancelled

  /**
   `slot` is the value under way, `held` whether a responder still has the sender,
   `answered` what was passed to it, `faults` how many error branches were entered.
   */
  datatype Exchange<V> = Exchange(
    slot: Option<V>, held: bool, requester: Requester<V>, shuttingDown: bool, answered: Option<V>, faults: nat)

  datatype Label<V> = Answer(value: V) | Abandon | Poll | Cancel | Shutdown

  function Fresh<V>(): Exchange<V> {
    Exchange(None, true, Waiting, false, None, 0)
  }

  /** A responder can be used up once; a requester that has stopped waiting does nothing more. */
  function Next<V>(x: Exchange<V>, l: Label<V>): Exchange<V> {
    match l
    case Answer(v) =>
      if !x.held then x
      else x.(held := false, answered := Some(v), slot := if x.requester.Waiting? then Some(v) else x.slot)
    case Abandon =>
      if !x.held then x else x.(held := false, faults := if x.shuttingDown then x.faults else x.faults + 1)
    case Poll =>
      if !x.requester.Waiting? then x
      else if x.slot.Some? then x.(requester := Received(x.slot.value), slot := None)
      else if x.held then x
      else x.(requester := Parked, faults := if x.shuttingDown then x.faults else x.faults + 1)
    case Cancel => if !x.requester.Waiting? then x else x.(requester := Cancelled, slot := None)
    case Shutdown => x.(shuttingDown := true)
  }

  function Run<V>(x: Exchange<V>, labels: seq<Label<V>>): Exchange<V> {
    if labels == [] then x else Next(Run(x, labels[..|labels| - 1]), labels[|labels| - 1])
  }

  ghost predicate Sound<V>(x: Exchange<V>) {
    && (x.held ==> x.answered.None? && x.slot.None?)
    && (x.requester.Waiting? ==> x.slot == x.answered)
    && (!x.requester.Waiting? ==> x.slot.None?)
    && (x.requester.Received? ==> x.answered == Some(x.requester.value))
    && (x.requester.Parked? ==> !x.held && x.answered.None?)
  }

  lemma {:induction false} RunIsSound<V>(x: Exchange<V>, labels: seq<Label<V>>)
    requires Sound(x)
    ensures Sound(Run(x, labels))
  {
    if labels != [] {
      RunIsSound(x, labels[..|labels| - 1]);
    }
  }

  /** A requester that has stopped waiting never changes again: at most one value, ever. */
  lemma {:induction false} OutcomeIsFinal<V>(x: Exchange<V>, labels: seq<Label<V>>)
    requires !x.requester.Waiting?
    ensures Run(x, labels).requester == x.requester
  {
    if labels != [] {
      OutcomeIsFinal(x, labels[..|labels| - 1]);
    }
  }

  /** Likewise an answer, once given, stays, and so does the lack of one when the sender is gone. */
  lemma {:induction false} AnswerIsFinal<V>(x: Exchange<V>, labels: seq<Label<V>>)
    requires !x.held
    ensures !Run(x, labels).held && Run(x, labels).answered == x.answered
  {
    if labels != [] {
      AnswerIsFinal(x, labels[..|labels| - 1]);
    }
  }

  /**
   Plain responders, over all runs: what the requester gets is what was answered; and once
   the responder is gone, a requester that still waits gets the answer at its next poll, or
   parks if, and only if, there was none.
   */
  lemma RequestIsSafe<V>(labels: seq<Label<V>>)
    ensures var x := Run(Fresh(), labels);
            && (x.requester.Received? ==> x.answered == Some(x.requester.value))
            && (x.requester.Parked? ==> !x.held && x.answered.None?)
            && (!x.held && x.requester.Waiting? ==>
                  var y := Next(x, Poll);
                  (y.requester.Parked? <==> x.answered.None?) &&
                  (x.answered.Some? ==> y.requester == Received(x.answered.value)))
  {
    RunIsSound(Fresh<V>(), labels);
  }

  /**
   When the error branches are entered: outside a shutdown once for a responder that goes
   unanswered and once for a requester that parks, and never where there was an answer.
   */
  lemma {:induction false} FaultsAreCounted<V>(labels: seq<Label<V>>)
    requires Shutdown !in labels
    ensures var x := Run(Fresh(), labels);
            && !x.shuttingDown
            && x.faults == (if !x.held && x.answered.None? then 1 else 0) + (if x.requester.Parked? then 1 else 0)
  {
    if labels != [] {
      var front, last := labels[..|labels| - 1], labels[|labels| - 1];
      assert last in labels && forall l | l in front :: l in labels;
      FaultsAreCounted(front);
      RunIsSound(Fresh<V>(), front);
    }
  }

  /** During a shutdown they are not entered. */
  lemma {:induction false} NoFaultsInShutdown<V>(x: Exchange<V>, labels: seq<Label<V>>)
    requires x.shuttingDown
    ensures Run(x, labels).shuttingDown && Run(x, labels).faults == x.faults
  {
    if labels != [] {
      NoFaultsInShutdown(x, labels[..|labels| - 1]);
    }
  }

  // ---- auto-closing responders ----

  datatype AutoLabel<T> = Respond(value: T) | RespondNone | DropAuto | AutoPoll | AutoCancel | AutoShutdown

  /** An auto-closing responder answers whatever happens to it. */
  function Plainly<T>(l: AutoLabel<T>): Label<Option<T>> {
    match l
    case Respond(v) => Answer(Some(v))
    case RespondNone => Answer(None)
    case DropAuto => Answer(None)
    case AutoPoll => Poll
    case AutoCancel => Cancel
    case AutoShutdown => Shutdown
  }

  function AutoRun<T>(x: Exchange<Option<T>>, labels: seq<AutoLabel<T>>): Exchange<Option<T>> {
    if labels == [] then x else Next(AutoRun(x, labels[..|labels| - 1]), Plainly(labels[|labels| - 1]))
  }

  /** The first thing that is done with the responder. */
  function FirstUse<T>(labels: seq<AutoLabel<T>>): Option<AutoLabel<T>> {
    if labels == [] then None
    else
      var before, l := FirstUse(labels[..|labels| - 1]), labels[|labels| - 1];
      if before.Some? then before
      else if l.Respond? || l.RespondNone? || l.DropAuto? then Some(l)
      else None
  }

  lemma {:induction false} AutoRunIsSound<T>(labels: seq<AutoLabel<T>>)
    ensures var x := AutoRun(Fresh(), labels);
            && Sound(x) && x.faults == 0 && !x.requester.Parked?
            && (x.held <==> FirstUse(labels).None?)
            && (!x.held ==> x.answered == Some(if FirstUse(labels).value.Respond? then Some(FirstUse(labels).value.value) else None))
  {
    if labels != [] {
      AutoRunIsSound(labels[..|labels| - 1]);
    }
  }

  /**
   Auto-closing responders, over all runs: no error branch, no parking; and once the
   responder is used or dropped, a requester that still waits gets exactly one value, which
   is `Some(v)` if and only if `respond(v)` was the use.
   */
  lemma AutoRequestIsSafe<T>(labels: seq<AutoLabel<T>>)
    ensures var x := AutoRun(Fresh(), labels);
            && x.faults == 0 && !x.requester.Parked?
            && (FirstUse(labels).Some? && !x.requester.Cancelled? ==>
                  var y := Next(x, Poll);
                  y.requester.Received? && forall v :: y.requester.value == Some(v) <==> FirstUse(labels) == Some(Respond(v)))
  {
    AutoRunIsSound(labels);
  }

  // ---- the responders themselves ----

  /** A one-shot channel. */
  class OneShot<V> {
    var slot: Option<V>
    var senderLive: bool
    var receiverLive: bool

    constructor ()
      ensures slot.None? && senderLive && receiverLive
    {
      slot, senderLive, receiverLive := None, true, true;
    }

    /** Uses the sender up; the value goes nowhere when the receiver is gone. */
    method Send(v: V) returns (ok: bool)
      requires senderLive
      modifies this
      ensures !senderLive && receiverLive == old(receiverLive) && ok == old(receiverLive)
      ensures slot == if ok then Some(v) else old(slot)
    {
      ok, senderLive := receiverLive, false;
      if ok {
        slot := Some(v);
      }
    }

    method DropSender()
      modifies this
      ensures !senderLive && receiverLive == old(receiverLive) && slot == old(slot)
    {
      senderLive := false;
    }
  }

  /** Set once, when the node goes down. */
  class SharedFlag {
    var isSet: bool

    constructor ()
      ensures !isSet
    {
      isSet := false;
    }
  }

  class Responder<V> {
    var sender: OneShot?<V>
    const flag: SharedFlag

    constructor (sender: OneShot?<V>, flag: SharedFlag)
      ensures this.sender == sender && this.flag == flag
    {
      this.sender, this.flag := sender, flag;
    }

    /** Faulty only when the sender is no longer there. */
    method Respond(data: V) returns (fault: bool)
      requires sender != null ==> sender.senderLive
      modifies this, sender
      ensures sender == null && fault == (old(sender) == null)
      ensures old(sender) != null ==>
                !old(sender).senderLive && old(sender).receiverLive == old(sender.receiverLive) &&
                old(sender).slot == if old(sender.receiverLive) then Some(data) else old(sender.slot)
    {
      fault := sender == null;
      if sender != null {
        var taken := sender;
        sender := null;
        var _ := taken.Send(data);
      }
    }

    /** Faulty when the sender is still there, unless the node is going down. */
    method Drop() returns (fault: bool)
      modifies this, sender
      ensures sender == null && fault == (old(sender) != null && !flag.isSet)
      ensures old(sender) != null ==>
                !old(sender).senderLive && old(sender).receiverLive == old(sender.receiverLive) && old(sender).slot == old(sender.slot)
    {
      fault := sender != null && !flag.isSet;
      if sender != null {
        sender.DropSender();
        sender := null;
      }
    }
  }

  class AutoClosingResponder<T> {
    const inner: Responder<Option<T>>

    constructor (inner: Responder<Option<T>>)
      ensures this.inner == inner
    {
      this.inner := inner;
    }

    /** Takes the responder out and leaves a spent one behind. */
    method IntoInner() returns (r: Responder<Option<T>>)
      modifies inner
      ensures fresh(r) && r.sender == old(inner.sender) && r.flag == inner.flag && inner.sender == null
    {
      r := new Responder(inner.sender, inner.flag);
      inner.sender := null;
    }

    /** The answer goes out once, and every drop that follows finds nothing to do. */
    method RespondWith(data: Option<T>) returns (fault: bool)
      requires inner.sender != null && inner.sender.senderLive
      modifies inner, inner.sender
      ensures !fault && inner.sender == null
      ensures var c := old(inner.sender);
              !c.senderLive && c.receiverLive == old(inner.sender.receiverLive) &&
              c.slot == if old(inner.sender.receiverLive) then Some(data) else old(inner.sender.slot)
    {
      var r := IntoInner();
      fault := r.Respond(data);
      var late := r.Drop();
      var shell := DropAuto();
      fault := fault || late || shell;
    }

    /** Sends `None` if nothing has been sent; the spent responder inside then drops quietly. */
    method DropAuto() returns (fault: bool)
      requires inner.sender != null ==> inner.sender.senderLive
      modifies inner, inner.sender
      ensures !fault && inner.sender == null
      ensures old(inner.sender) != null ==>
                var c := old(inner.sender);
                !c.senderLive && c.receiverLive == old(inner.sender.receiverLive) &&
                c.slot == if old(inner.sender.receiverLive) then Some(None) else old(inner.sender.slot)
    {
      if inner.sender != null {
        var taken := inner.sender;
        inner.sender := null;
        var _ := taken.Send(None);
      }
      fault := inner.Drop();
    }
  }

  // ---- one request, from both ends ----

  /** A request made with a plain responder; its methods are the machine's steps. */
  class Conversation<V> {
    const channel: OneShot<V>
    const responder: Responder<V>
    const flag: SharedFlag
    var requester: Requester<V>
    ghost var answered: Option<V>
    ghost var faults: nat

    ghost function State(): Exchange<V>
      reads this, channel, responder, flag
    {
      Exchange(channel.slot, responder.sender != null, requester, flag.isSet, answered, faults)
    }

    ghost predicate Valid()
      reads this, channel, responder, flag
    {
      && responder.flag == flag && (responder.sender != null ==> responder.sender == channel)
      && channel.senderLive == (responder.sender != null) && channel.receiverLive == requester.Waiting?
      && Sound(State())
    }

    constructor ()
      ensures Valid() && State() == Fresh() && fresh(channel) && fresh(responder) && fresh(flag)
    {
      var c := new OneShot<V>();
      var f := new SharedFlag();
      var r := new Responder(c, f);
      channel, flag, responder, requester, answered, faults := c, f, r, Waiting, None, 0;
    }

    method Respond(v: V)
      requires Valid() && responder.sender != null
      modifies this, channel, responder
      ensures Valid() && State() == Next(old(State()), Answer(v))
      ensures responder.sender == null && answered == Some(v) && unchanged(`requester) && unchanged(`faults)
      ensures requester.Waiting? ==> channel.slot == Some(v)
    {
      var fault := responder.Respond(v);
      var late := responder.Drop();
      answered, faults := Some(v), faults + if fault || late then 1 else 0;
    }

    method DropResponder()
      requires Valid() && responder.sender != null
      modifies this, channel, responder
      ensures Valid() && State() == Next(old(State()), Abandon)
      ensures responder.sender == null && unchanged(`answered) && unchanged(`requester) && channel.slot == old(channel.slot)
      ensures faults == old(faults) + if flag.isSet then 0 else 1
    {
      var fault := responder.Drop();
      faults := faults + if fault then 1 else 0;
    }

    method PollReply()
      requires Valid() && requester.Waiting?
      modifies this, channel
      ensures Valid() && State() == Next(old(State()), Poll)
      ensures requester == if old(channel.slot).Some? then Received(old(channel.slot).value) else if responder.sender != null then Waiting else Parked
      ensures faults == old(faults) + if requester.Parked? && !flag.isSet then 1 else 0
    {
      if channel.slot.Some? {
        requester := Received(channel.slot.value);
        channel.slot, channel.receiverLive := None, false;
      } else if !channel.senderLive {
        faults := faults + if flag.isSet then 0 else 1;
        requester := Parked;
        channel.receiverLive := false;
      }
    }

    method CancelRequest()
      requires Valid() && requester.Waiting?
      modifies this, channel
      ensures Valid() && State() == Next(old(State()), Cancel)
      ensures requester.Cancelled? && unchanged(`faults) && unchanged(`answered)
    {
      requester := Cancelled;
      channel.slot, channel.receiverLive := None, false;
    }

    method BeginShutdown()
      requires Valid()
      modifies flag
      ensures Valid() && State() == Next(old(State()), Shutdown) && flag.isSet
    {
      flag.isSet := true;
    }
  }

  /** The responder's side of a request made with an auto-closing responder. */
  class AutoConversation<T> {
    const channel: OneShot<Option<T>>
    const responder: AutoClosingResponder<T>
    var requester: Requester<Option<T>>
    ghost var answered: Option<Option<T>>
    ghost var faults: nat

    ghost function State(): Exchange<Option<T>>
      reads this, channel, responder, responder.inner, responder.inner.flag
    {
      Exchange(channel.slot, responder.inner.sender != null, requester, responder.inner.flag.isSet, answered, faults)
    }

    ghost predicate Valid()
      reads this, channel, responder, responder.inner, responder.inner.flag
    {
      && (responder.inner.sender != null ==> responder.inner.sender == channel)
      && channel.senderLive == (responder.inner.sender != null) && channel.receiverLive == requester.Waiting?
      && Sound(State())
    }

    constructor ()
      ensures Valid() && State() == Fresh() && fresh(channel) && fresh(responder) && fresh(responder.inner)
    {
      var c := new OneShot<Option<T>>();
      var f := new SharedFlag();
      var inner := new Responder(c, f);
      var r := new AutoClosingResponder(inner);
      channel, responder, requester, answered, faults := c, r, Waiting, None, 0;
    }

    method RespondSome(v: T)
      requires Valid() && responder.inner.sender != null
      modifies this, channel, responder.inner
      ensures Valid() && State() == Next(old(State()), Plainly(AutoLabel.Respond(v)))
      ensures responder.inner.sender == null && answered == Some(Some(v)) && unchanged(`requester) && unchanged(`faults)
      ensures requester.Waiting? ==> channel.slot == Some(Some(v))
    {
      var fault := responder.RespondWith(Some(v));
      answered, faults := Some(Some(v)), faults + if fault then 1 else 0;
    }

    method RespondNothing()
      requires Valid() && responder.inner.sender != null
      modifies this, channel, responder.inner
      ensures Valid() && State() == Next(old(State()), Plainly(RespondNone))
      ensures responder.inner.sender == null && answered == Some(None) && unchanged(`requester) && unchanged(`faults)
      ensures requester.Waiting? ==> channel.slot == Some(None)
    {
      var fault := responder.RespondWith(None);
      answered, faults := Some(None), faults + if fault then 1 else 0;
    }

    method DropResponder()
      requires Valid() && responder.inner.sender != null
      modifies this, channel, responder.inner
      ensures Valid() && State() == Next(old(State()), Plainly(DropAuto))
      ensures responder.inner.sender == null && answered == Some(None) && unchanged(`requester) && unchanged(`faults)
      ensures requester.Waiting? ==> channel.slot == Some(None)
    {
      var fault := responder.DropAuto();
      answered, faults := Some(None), faults + if fault then 1 else 0;
    }
  }
}
