/**
 One session of two nodes: the objects that send and receive, and the network between
 them. Each operation on the objects is a step of the protocol, so what holds of every
 run of the protocol holds of them.
 */
module Sessions {
  import opened Basics
  import opened Mailboxes
  import opened Messages
  import opened Delivery

  /** The packets sent and not yet entered in the table of pending messages. */
  ghost function Unregistered(s: State): map<nat, Packet> {
    map q | q in s.sent && q !in s.registered :: s.sent[q]
  }

  class Link {
    const sender: Sender
    const receiver: Receiver
    /** The acknowledgements handed to the network. */
    var acks: set<Ack>
    /** What a sending thread holds between send and registration. */
    var inHand: map<nat, Packet>
    /** The state of the protocol that the objects are in. */
    ghost var state: State

    ghost predicate Valid()
      reads this, sender, receiver, receiver.boxes.Values
    {
      && receiver.Valid()
      && state.counter == sender.counter && state.pending == sender.pending && state.wire == sender.wire
      && state.acks == acks && state.boxes == receiver.Queues() && inHand == Unregistered(state)
      && (forall q :: q in state.sent ==> state.sent[q].seqNum == q)
    }

    constructor ()
      ensures Valid() && state == Start() && fresh(sender) && fresh(receiver) && fresh(receiver.boxes.Values)
    {
      sender := new Sender();
      receiver := new Receiver();
      acks, inHand, state := {}, map[], Start();
    }

    method Send(pid: nat, data: seq<Byte>)
      requires Valid()
      modifies this, sender
      ensures Valid() && state == DoSend(old(state), pid, data)
    {
      hide Receiver.Valid, Receiver.Queues;
      var p := sender.Transmit(pid, data);
      inHand := inHand[p.seqNum := p];
      ghost var s := state;
      state := DoSend(state, pid, data);
      assert inHand == Unregistered(s)[p.seqNum := p] == Unregistered(state);
    }

    method Register(q: nat, now: nat)
      requires Valid() && q in inHand
      modifies this, sender
      ensures Valid() && q in old(state).sent && state == DoRegister(old(state), q, now)
    {
      hide Receiver.Valid, Receiver.Queues;
      RegisteredNow(state, q, now);
      sender.Register(inHand[q], now);
      inHand := inHand - {q};
      state := DoRegister(state, q, now);
    }

    method Arrive(p: Packet, node: nat, alive: bool)
      requires Valid() && p in sender.wire
      modifies this, receiver, receiver.boxes.Values
      ensures Valid() && state == DoArrive(old(state), p, node, alive)
      ensures fresh(receiver.boxes.Values - old(receiver.boxes.Values))
    {
      hide Receiver.Valid, Receiver.Queues, Takes, Arrived;
      var a := receiver.HandleMsgsend(node, p, alive);
      acks := acks + {a};
      ghost var s := state;
      state := DoArrive(state, p, node, alive);
      assert Unregistered(state) == Unregistered(s);
    }

    method AckArrive(a: Ack)
      requires Valid() && a in acks
      modifies this, sender
      ensures Valid() && state == DoAck(old(state), a)
    {
      hide Receiver.Valid, Receiver.Queues;
      sender.HandleAck(a);
      ghost var s := state;
      state := DoAck(state, a);
      assert Unregistered(state) == Unregistered(s);
    }

    method Retry(now: nat, active: bool)
      requires Valid()
      modifies this, sender
      ensures Valid() && state == DoRetry(old(state), now, active)
    {
      hide Receiver.Valid, Receiver.Queues, Retried, Resent, Judged;
      sender.RetryPass(now, active);
      ghost var s := state;
      state := DoRetry(state, now, active);
      assert Unregistered(state) == Unregistered(s);
    }

    method Receive(pid: nat) returns (m: Message)
      requires Valid() && pid in receiver.boxes && receiver.boxes[pid].queue != []
      modifies this, receiver.boxes.Values
      ensures Valid() && Enabled(old(state), Step.Receive(pid)) && state == Do(old(state), Step.Receive(pid))
    {
      hide Receiver.Valid;
      m := receiver.Receive(pid);
      ghost var s := state;
      state := Do(state, Step.Receive(pid));
      assert Unregistered(state) == Unregistered(s);
    }

    method Draw()
      requires Valid()
      modifies this, sender
      ensures Valid() && state == Do(old(state), Step.Draw)
    {
      hide Receiver.Valid, Receiver.Queues;
      sender.Draw();
      ghost var s := state;
      state := Do(state, Step.Draw);
      assert Unregistered(state) == Unregistered(s);
    }

    /** A step of the protocol, if it is possible. */
    method Perform(step: Step) returns (done: bool)
      requires Valid()
      modifies this, sender, receiver, receiver.boxes.Values
      ensures Valid() && fresh(receiver.boxes.Values - old(receiver.boxes.Values))
      ensures done <==> Enabled(old(state), step)
      ensures state == if done then Do(old(state), step) else old(state)
    {
      hide DoSend, DoRegister, DoArrive, DoAck, DoRetry, Receiver.Valid;
      done := true;
      match step {
        case Draw => Draw();
        case Send(pid, data) => Send(pid, data);
        case Register(q, now) =>
          done := q in inHand;
          if done { Register(q, now); }
        case Arrive(p, node, alive) =>
          done := p in sender.wire;
          if done { Arrive(p, node, alive); }
        case Receive(pid) =>
          done := pid in receiver.boxes && receiver.boxes[pid].queue != [];
          if done { var _ := Receive(pid); }
        case AckArrive(a) =>
          done := a in acks;
          if done { AckArrive(a); }
        case Retry(now, active) => Retry(now, active);
      }
    }
  }

  lemma RegisteredNow(s: State, q: nat, now: nat)
    requires q in Unregistered(s)
    ensures q in s.sent && q !in s.registered
    ensures Unregistered(DoRegister(s, q, now)) == Unregistered(s) - {q} && Unregistered(s)[q] == s.sent[q]
  {
  }

  // ----- runs of the objects -----

  /** What at-least-once delivery means for the objects: acknowledged messages were
      pushed; messages not acknowledged, not expired and not cut off are in the sender's
      table as they were sent; mailboxes count their bytes and keep their limits. */
  ghost predicate Delivers(link: Link)
    reads link, link.sender, link.receiver, link.receiver.boxes.Values
  {
    var s := link.state;
    && (forall q :: q in s.okAcked ==> q in s.sent && s.sent[q] in s.pushed)
    && (forall q :: q in s.registered && q !in s.okAcked && q !in s.errorAcked && q !in s.expired && q !in s.cut ==>
          q in link.sender.pending && q in s.sent && link.sender.pending[q].packet == s.sent[q])
    && (forall pid :: pid in link.receiver.boxes ==>
          var box := link.receiver.boxes[pid];
          box.bytesUsed == Size(box.queue) && |box.queue| <= MAX_MESSAGES && box.bytesUsed <= MAX_BYTES)
  }

  lemma LinkDelivers(link: Link, steps: seq<Step>)
    requires link.Valid() && Run(Start(), steps) == At(link.state) && link.state.draws <= 0x1_0000_0000
    ensures Delivers(link)
  {
    hide Run, BoxesOk, Size;
    var s := link.state;
    forall q | q in s.okAcked ensures q in s.sent && s.sent[q] in s.pushed { AtLeastOnce(steps, q); }
    forall q | q in s.registered && q !in s.okAcked && q !in s.errorAcked && q !in s.expired && q !in s.cut
      ensures q in s.pending && q in s.sent && s.pending[q].packet == s.sent[q]
    {
      AtLeastOnce(steps, q);
    }
    forall pid | pid in link.receiver.boxes ensures BoxOk(link.receiver.boxes[pid]) {}
  }

  /** Performs the steps until one is not possible. The objects are then in the state
      that the protocol reaches, and deliver at least once while at most 2^32 numbers
      were drawn. */
  method Drive(steps: seq<Step>) returns (link: Link, n: nat)
    ensures fresh(link) && link.Valid() && n <= |steps|
    ensures Run(Start(), steps[..n]) == At(link.state)
    ensures n < |steps| ==> !Enabled(link.state, steps[n])
    ensures link.state.draws <= 0x1_0000_0000 ==> Delivers(link)
  {
    hide Do, Enabled, Run, Link.Valid, Delivers;
    link := new Link();
    n := 0;
    NothingRun(Start());
    while n < |steps|
      invariant n <= |steps| && link.Valid() && Run(Start(), steps[..n]) == At(link.state)
      invariant fresh(link) && fresh(link.sender) && fresh(link.receiver) && fresh(link.receiver.boxes.Values)
    {
      ghost var s := link.state;
      var done := link.Perform(steps[n]);
      if !done { break; }
      RunOneMore(Start(), steps, n, s);
      n := n + 1;
    }
    if link.state.draws <= 0x1_0000_0000 { LinkDelivers(link, steps[..n]); }
  }

  lemma NothingRun(s: State)
    ensures Run(s, []) == At(s)
  {
  }

  lemma RunOneMore(s: State, steps: seq<Step>, n: nat, t: State)
    requires n < |steps| && Run(s, steps[..n]) == At(t) && Enabled(t, steps[n])
    ensures Run(s, steps[..n + 1]) == At(Do(t, steps[n]))
  {
    hide Do, Enabled;
    assert steps[..n + 1] == steps[..n] + [steps[n]];
    RunAppend(s, steps[..n], [steps[n]]);
    assert [steps[n]][1..] == [];
  }
}
