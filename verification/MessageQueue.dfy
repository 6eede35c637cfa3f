/**
 * Message queues of dolphin_os.c.  Each stretch with interrupts disabled is one atomic step; a thread that
 * has to wait goes to sleep on one of the two thread queues and tries again once it has been woken.
 * OSWakeupThread wakes every thread asleep on the queue.
 */
module MessageQueue {

  datatype Outcome = Done | Refused | Asleep

  /** Any number of threads sending and receiving, with everything sent and received so far. */
  datatype State<T> = State(
    capacity: nat, queue: seq<T>, senders: set<nat>, receivers: set<nat>, sent: seq<T>, received: seq<T>)

  datatype Step<T> = Send(thread: nat, msg: T, block: bool) | Receive(thread: nat, block: bool)

  function Init<T>(capacity: nat): State<T> {
    State(capacity, [], {}, {}, [], [])
  }

  /** One turn of the loop of OSSendMessage. */
  function SendStep<T>(s: State<T>, thread: nat, msg: T, block: bool): State<T> {
    if s.capacity <= |s.queue| then
      if block then s.(senders := s.senders + {thread}) else s
    else
      s.(queue := s.queue + [msg], sent := s.sent + [msg], receivers := {})
  }

  /** One turn of the loop of OSReceiveMessage. */
  function ReceiveStep<T>(s: State<T>, thread: nat, block: bool): State<T> {
    if s.queue == [] then
      if block then s.(receivers := s.receivers + {thread}) else s
    else
      s.(queue := s.queue[1..], received := s.received + [s.queue[0]], senders := {})
  }

  function Next<T>(s: State<T>, step: Step<T>): State<T> {
    match step
    case Send(t, msg, block) => SendStep(s, t, msg, block)
    case Receive(t, block) => ReceiveStep(s, t, block)
  }

  /** A thread asleep takes no step until it is woken. */
  predicate Awake<T>(s: State<T>, step: Step<T>) {
    step.thread !in s.senders && step.thread !in s.receivers
  }

  predicate AllowedRun<T>(s: State<T>, steps: seq<Step<T>>)
    decreases |steps|
  {
    steps == [] || (Awake(s, steps[0]) && AllowedRun(Next(s, steps[0]), steps[1..]))
  }

  function Run<T>(s: State<T>, steps: seq<Step<T>>): State<T>
    decreases |steps|
  {
    if steps == [] then s else Run(Next(s, steps[0]), steps[1..])
  }

  /**
   * The ring is a bounded FIFO: what was received is a prefix of what was sent and the rest is queued.
   * Nobody sleeps who could go on: a sleeping receiver means the queue is empty, a sleeping sender that
   * it is full.  No thread sleeps on both queues.
   */
  predicate Inv<T(==)>(s: State<T>) {
    && |s.queue| <= s.capacity
    && s.sent == s.received + s.queue
    && (s.receivers != {} ==> s.queue == [])
    && (s.senders != {} ==> |s.queue| == s.capacity)
    && s.senders !! s.receivers
  }

  lemma {:induction false} RunInv<T>(s: State<T>, steps: seq<Step<T>>)
    requires Inv(s) && AllowedRun(s, steps)
    ensures Inv(Run(s, steps))
    decreases |steps|
  {
    if steps != [] {
      StepInv(s, steps[0]);
      RunInv(Next(s, steps[0]), steps[1..]);
    }
  }

  lemma StepInv<T>(s: State<T>, step: Step<T>)
    requires Inv(s) && Awake(s, step)
    ensures Inv(Next(s, step))
  {
    match step
    case Send(t, msg, block) =>
      if |s.queue| < s.capacity {
        assert s.received + (s.queue + [msg]) == (s.received + s.queue) + [msg];
      }
    case Receive(t, block) =>
      if s.queue != [] {
        assert s.queue == [s.queue[0]] + s.queue[1..];
        assert s.received + ([s.queue[0]] + s.queue[1..]) == (s.received + [s.queue[0]]) + s.queue[1..];
      }
  }

  /** In every run from the initial state the messages come out in the order they went in. */
  lemma Fifo<T>(capacity: nat, steps: seq<Step<T>>)
    requires AllowedRun(Init<T>(capacity), steps)
    ensures var s := Run(Init<T>(capacity), steps);
            && s.received <= s.sent && s.sent[|s.received|..] == s.queue
            && (s.receivers != {} && s.senders != {} ==> s.capacity == 0)
  {
    RunInv(Init<T>(capacity), steps);
  }

  // ----- what the callers see -----

  /** What a turn of a send reports. */
  function SendOutcome<T>(s: State<T>, block: bool): Outcome {
    if |s.queue| < s.capacity then Done else if block then Asleep else Refused
  }

  /** What a turn of a receive reports, and the message it hands over. */
  function ReceiveOutcome<T>(s: State<T>, block: bool): (Outcome, seq<T>) {
    if |s.queue| > 0 then (Done, [s.queue[0]]) else if block then (Asleep, []) else (Refused, [])
  }

  /** A send that is done puts its message last and wakes the receivers; one that is not changes no message. */
  lemma SendDoes<T>(s: State<T>, thread: nat, msg: T, block: bool)
    ensures var s' := SendStep(s, thread, msg, block);
            match SendOutcome(s, block)
            case Done => s' == s.(queue := s.queue + [msg], sent := s.sent + [msg], receivers := {})
            case Asleep => s' == s.(senders := s.senders + {thread})
            case Refused => s' == s
  {}

  /** A receive that is done takes the first message and wakes the senders; one that is not changes no message. */
  lemma ReceiveDoes<T>(s: State<T>, thread: nat, block: bool)
    ensures var s' := ReceiveStep(s, thread, block);
            match ReceiveOutcome(s, block)
            case (Done, got) =>
              got + s'.queue == s.queue && |got| == 1 && s' == s.(queue := s'.queue, received := s.received + got, senders := {})
            case (Asleep, got) => got == [] && s' == s.(receivers := s.receivers + {thread})
            case (Refused, got) => got == [] && s' == s
  {}

  /** The messages of the sends of a run that report that they are done. */
  function Accepted<T>(s: State<T>, steps: seq<Step<T>>): seq<T>
    decreases |steps|
  {
    if steps == [] then []
    else
      (if steps[0].Send? && SendOutcome(s, steps[0].block).Done? then [steps[0].msg] else []) +
      Accepted(Next(s, steps[0]), steps[1..])
  }

  /** The messages the receives of a run hand over. */
  function HandedOver<T>(s: State<T>, steps: seq<Step<T>>): seq<T>
    decreases |steps|
  {
    if steps == [] then []
    else
      (if steps[0].Receive? then ReceiveOutcome(s, steps[0].block).1 else []) + HandedOver(Next(s, steps[0]), steps[1..])
  }

  lemma {:induction false} RunRecords<T>(s: State<T>, steps: seq<Step<T>>)
    ensures Run(s, steps).sent == s.sent + Accepted(s, steps)
    ensures Run(s, steps).received == s.received + HandedOver(s, steps)
    ensures Run(s, steps).capacity == s.capacity
    decreases |steps|
  {
    if steps != [] {
      RunRecords(Next(s, steps[0]), steps[1..]);
    }
  }

  /** In every run what the receivers get is what the senders were told had been sent, in that order. */
  lemma Delivery<T>(capacity: nat, steps: seq<Step<T>>)
    requires AllowedRun(Init<T>(capacity), steps)
    ensures var s := Init<T>(capacity);
            && Accepted(s, steps) == HandedOver(s, steps) + Run(s, steps).queue && |Run(s, steps).queue| <= capacity
  {
    hide Accepted, HandedOver, Run;
    var s := Init<T>(capacity);
    RunRecords(s, steps);
    RunInv(s, steps);
    assert s.sent + Accepted(s, steps) == Accepted(s, steps);
    assert s.received + HandedOver(s, steps) == HandedOver(s, steps);
  }

  /** The cell of the `i`-th message of a ring of `n` cells. */
  function Slot(first: nat, i: nat, n: nat): nat
    requires first < n && i <= n
  {
    if first + i < n then first + i else first + i - n
  }

  lemma SlotIsMod(first: nat, i: nat, n: nat)
    requires first < n && i <= n
    ensures (first + i) % n == Slot(first, i, n) < n
  {
    if first + i >= n {
      assert first + i == n * 1 + (first + i - n);
      assert (first + i) / n == 1;
    }
  }

  /** OSMessageQueue over its ring of cells. */
  class Ring<T> {
    const messages: array<T>
    const numMessages: nat
    var firstIndex: nat
    var numUsed: nat
    var senders: set<nat>
    var receivers: set<nat>
    ghost var sent: seq<T>
    ghost var received: seq<T>

    ghost predicate Valid()
      reads this
    {
      messages.Length == numMessages && numUsed <= numMessages && (numMessages > 0 ==> firstIndex < numMessages)
    }

    /** The messages waiting, oldest first. */
    ghost function Queue(): (q: seq<T>)
      requires Valid()
      reads this, messages
      ensures |q| == numUsed
    {
      seq(numUsed, i requires 0 <= i < numUsed && Valid() reads this, messages => messages[Slot(firstIndex, i, numMessages)])
    }

    ghost function Abs(): State<T>
      requires Valid()
      reads this, messages
    {
      State(numMessages, Queue(), senders, receivers, sent, received)
    }

    /** OSInitMessageQueue. */
    constructor (msgArray: array<T>, msgCount: nat)
      requires msgArray.Length == msgCount
      ensures Valid() && Abs() == Init(msgCount) && messages == msgArray
    {
      messages, numMessages := msgArray, msgCount;
      firstIndex, numUsed := 0, 0;
      senders, receivers := {}, {};
      sent, received := [], [];
    }

    /** One turn of OSSendMessage. */
    method SendMessage(thread: nat, msg: T, block: bool) returns (r: Outcome)
      requires Valid()
      modifies this, messages
      ensures Valid() && Abs() == SendStep(old(Abs()), thread, msg, block)
      ensures r == SendOutcome(old(Abs()), block) == if old(numUsed) < numMessages then Done else if block then Asleep else Refused
    {
      if numMessages <= numUsed {
        if !block {
          return Refused;
        }
        senders := senders + {thread};
        return Asleep;
      }
      ghost var q := Queue();
      SlotIsMod(firstIndex, numUsed, numMessages);
      var lastIndex := (firstIndex + numUsed) % numMessages;
      messages[lastIndex] := msg;
      numUsed := numUsed + 1;
      receivers := {};
      sent := sent + [msg];
      assert Queue() == q + [msg];
      return Done;
    }

    /** One turn of OSReceiveMessage; a null destination still removes the message. */
    method ReceiveMessage(thread: nat, block: bool) returns (r: Outcome, msg: seq<T>)
      requires Valid()
      modifies this
      ensures Valid() && Abs() == ReceiveStep(old(Abs()), thread, block)
      ensures (r, msg) == ReceiveOutcome(old(Abs()), block)
      ensures r == if old(numUsed) > 0 then Done else if block then Asleep else Refused
      ensures msg == if old(numUsed) > 0 then [old(Queue())[0]] else []
    {
      msg := [];
      if numUsed == 0 {
        if !block {
          return Refused, msg;
        }
        receivers := receivers + {thread};
        return Asleep, msg;
      }
      ghost var q := Queue();
      msg := [messages[firstIndex]];
      received := received + [messages[firstIndex]];
      SlotIsMod(firstIndex, 1, numMessages);
      firstIndex := (firstIndex + 1) % numMessages;
      numUsed := numUsed - 1;
      senders := {};
      assert Queue() == q[1..];
      return Done, msg;
    }
  }
}
