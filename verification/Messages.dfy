/**
 Messages between two nodes: sequence numbers, acknowledgements and a retry loop over
 one session whose network may lose, repeat and reorder packets.
 */
module Messages {
  import opened Basics
  import opened Mailboxes

  const MAX_RETRIES: nat := 5
  const MAX_MESSAGES: nat := 1024
  const MAX_BYTES: nat := 64 * 1024 * 1024

  /** A message on the wire: its number, the process it is for, its bytes. */
  datatype Packet = Packet(seqNum: nat, pid: nat, data: seq<Byte>)

  datatype Ack = Ack(seqNum: nat, ok: bool)

  datatype Pending = Pending(packet: Packet, sentAt: nat, retries: nat)

  // ----- the sender's table -----

  /** The clock is an unsigned 64-bit count of milliseconds. */
  function Elapsed(now: nat, since: nat): (r: nat)
    ensures since <= now < since + 0x1_0000_0000_0000_0000 ==> r == now - since
    ensures now < since <= now + 0x1_0000_0000_0000_0000 ==> r == now + 0x1_0000_0000_0000_0000 - since
  {
    (now - since) % 0x1_0000_0000_0000_0000
  }

  datatype Verdict = Wait | Resend | Expire | Cut

  /** What the retry loop does with an entry. */
  function Judge(p: Pending, now: nat, active: bool): Verdict {
    if Elapsed(now, p.sentAt) < 2000 then Wait
    else if p.retries >= MAX_RETRIES then Expire
    else if active then Resend
    else Cut
  }

  function AfterRetry(p: Pending, now: nat, active: bool): Pending {
    if Judge(p, now, active) == Resend then Pending(p.packet, now, p.retries + 1) else p
  }

  predicate Stays(p: Pending, now: nat, active: bool) {
    Judge(p, now, active) == Wait || Judge(p, now, active) == Resend
  }

  function Judged(pending: map<nat, Pending>, now: nat, active: bool, v: Verdict): set<nat> {
    set q | q in pending && Judge(pending[q], now, active) == v
  }

  function Retried(pending: map<nat, Pending>, now: nat, active: bool): map<nat, Pending> {
    map q | q in pending && Stays(pending[q], now, active) :: AfterRetry(pending[q], now, active)
  }

  function Resent(pending: map<nat, Pending>, now: nat, active: bool): set<Packet> {
    set q | q in Judged(pending, now, active, Resend) :: pending[q].packet
  }

  /** What a pass of the retry loop leaves of each entry: one younger than two seconds stays
      as it is; an older one stays with a new time and one retry more, if it had fewer
      than five and the session is active; every other one goes. */
  ghost predicate PassLeaves(pending: map<nat, Pending>, pending': map<nat, Pending>, now: nat, active: bool) {
    && pending'.Keys <= pending.Keys
    && forall q :: q in pending ==>
         var p := pending[q];
         if Elapsed(now, p.sentAt) < 2000 then q in pending' && pending'[q] == p
         else if p.retries < 5 && active then q in pending' && pending'[q] == Pending(p.packet, now, p.retries + 1)
         else q !in pending'
  }

  /** The entries that are sent again. */
  ghost predicate SentAgain(pending: map<nat, Pending>, q: nat, now: nat, active: bool) {
    q in pending && Elapsed(now, pending[q].sentAt) >= 2000 && pending[q].retries < 5 && active
  }

  lemma RetriedIs(pending: map<nat, Pending>, now: nat, active: bool)
    ensures PassLeaves(pending, Retried(pending, now, active), now, active)
    ensures forall q :: q in Judged(pending, now, active, Resend) <==> SentAgain(pending, q, now, active)
    ensures forall q :: q in Judged(pending, now, active, Expire) <==>
              q in pending && Elapsed(now, pending[q].sentAt) >= 2000 && pending[q].retries >= 5
    ensures forall q :: q in Judged(pending, now, active, Cut) <==>
              q in pending && Elapsed(now, pending[q].sentAt) >= 2000 && pending[q].retries < 5 && !active
    ensures forall p :: p in Resent(pending, now, active) <==>
              exists q :: SentAgain(pending, q, now, active) && pending[q].packet == p
  {
    hide Elapsed;
    forall p | exists q :: SentAgain(pending, q, now, active) && pending[q].packet == p
      ensures p in Resent(pending, now, active)
    {
      var q :| SentAgain(pending, q, now, active) && pending[q].packet == p;
      assert q in Judged(pending, now, active, Resend);
    }
    forall p | p in Resent(pending, now, active)
      ensures exists q :: SentAgain(pending, q, now, active) && pending[q].packet == p
    {
      var q :| q in Judged(pending, now, active, Resend) && pending[q].packet == p;
      assert SentAgain(pending, q, now, active);
    }
  }

  // ----- the nodes -----

  /** The sending side of a session; wire collects what was handed to the network. */
  class Sender {
    var counter: nat
    var pending: map<nat, Pending>
    var wire: set<Packet>

    constructor ()
      ensures counter == 0 && pending == map[] && wire == {}
    {
      counter := 0;
      pending := map[];
      wire := {};
    }

    /** Other messages of the session take numbers as well. */
    method Draw()
      modifies this`counter
      ensures counter == (old(counter) + 1) % 0x1_0000_0000
    {
      counter := (counter + 1) % 0x1_0000_0000;
    }

    /** Draws a number and sends; the packet is registered by a later step. */
    method Transmit(pid: nat, data: seq<Byte>) returns (p: Packet)
      modifies this`counter, this`wire
      ensures counter == (old(counter) + 1) % 0x1_0000_0000
      ensures p == Packet(counter, pid, data) && wire == old(wire) + {p}
    {
      counter := (counter + 1) % 0x1_0000_0000;
      p := Packet(counter, pid, data);
      wire := wire + {p};
    }

    method Register(p: Packet, now: nat)
      modifies this`pending
      ensures pending == old(pending)[p.seqNum := Pending(p, now, 0)]
    {
      pending := pending[p.seqNum := Pending(p, now, 0)];
    }

    /** The error code of an acknowledgement is not looked at. */
    method HandleAck(a: Ack)
      modifies this`pending
      ensures pending == old(pending) - {a.seqNum}
    {
      pending := pending - {a.seqNum};
    }

    /** One turn of the retry loop. */
    method RetryEntry(q: nat, now: nat, active: bool)
      requires q in pending
      modifies this`pending, this`wire
      ensures var p := old(pending)[q];
              && pending == (if Stays(p, now, active) then old(pending)[q := AfterRetry(p, now, active)]
                             else old(pending) - {q})
              && wire == old(wire) + if Judge(p, now, active) == Resend then {p.packet} else {}
    {
      hide Elapsed;
      var p := pending[q];
      if Elapsed(now, p.sentAt) < 2000 { return; }
      if p.retries >= MAX_RETRIES {
        pending := pending - {q};
        return;
      }
      if active {
        wire := wire + {p.packet};
        pending := pending[q := Pending(p.packet, now, p.retries + 1)];
      } else {
        pending := pending - {q};
      }
    }

    /** One pass of the retry loop over the whole table. */
    method RetryPass(now: nat, active: bool)
      modifies this`pending, this`wire
      ensures pending == Retried(old(pending), now, active)
      ensures wire == old(wire) + Resent(old(pending), now, active)
      ensures PassLeaves(old(pending), pending, now, active)
      ensures forall p :: p in wire <==>
                p in old(wire) || exists q :: SentAgain(old(pending), q, now, active) && old(pending)[q].packet == p
    {
      hide Judge, PassLeaves, SentAgain, Stays, AfterRetry;
      RetriedIs(pending, now, active);
      var todo := pending.Keys;
      ghost var before := pending;
      ghost var done: set<nat> := {};
      while todo != {}
        invariant todo + done == before.Keys && todo !! done
        invariant forall q :: q in pending <==> q in before && (q in done ==> Stays(before[q], now, active))
        invariant forall q :: q in pending ==>
          pending[q] == if q in done then AfterRetry(before[q], now, active) else before[q]
        invariant forall p :: p in wire <==> p in old(wire) || p in ResentOf(before, done, now, active)
      {
        var q :| q in todo;
        RetryEntry(q, now, active);
        todo := todo - {q};
        done := done + {q};
      }
      assert done == before.Keys;
      assert ResentOf(before, done, now, active) == Resent(before, now, active);
    }
  }

  ghost function ResentOf(pending: map<nat, Pending>, done: set<nat>, now: nat, active: bool): set<Packet> {
    set q | q in pending && q in done && Judge(pending[q], now, active) == Resend :: pending[q].packet
  }

  /** The receiving side: the mailbox of each process. */
  class Receiver {
    var boxes: map<nat, Mailbox>

    ghost predicate Valid()
      reads this, boxes.Values
    {
      && (forall pid :: pid in boxes ==> BoxOk(boxes[pid]))
      && (forall p, q :: p in boxes && q in boxes && p != q ==> boxes[p] != boxes[q])
    }

    /** What is queued for each process. */
    ghost function Queues(): map<nat, seq<Message>>
      reads this, boxes.Values
    {
      map pid | pid in boxes :: boxes[pid].queue
    }

    constructor ()
      ensures Valid() && boxes == map[] && Queues() == map[]
    {
      boxes := map[];
    }

    /** The mailbox of a process, created when first asked for. */
    method Mailbox(pid: nat) returns (box: Mailbox)
      requires Valid()
      modifies this`boxes
      ensures Valid() && pid in boxes && boxes[pid] == box && (box in old(boxes.Values) || fresh(box))
      ensures boxes == old(boxes)[pid := box] && Queues() == Opened(old(Queues()), pid)
    {
      if pid !in boxes {
        box := new Mailboxes.Mailbox(MAX_MESSAGES, MAX_BYTES);
        boxes := boxes[pid := box];
      } else {
        box := boxes[pid];
      }
    }

    /** A process takes the message if it lives and its mailbox has room; the
        acknowledgement says which. */
    method HandleMsgsend(node: nat, p: Packet, alive: bool) returns (a: Ack)
      requires Valid()
      modifies this`boxes, boxes.Values
      ensures Valid() && fresh(boxes.Values - old(boxes.Values))
      ensures a == Ack(p.seqNum, Takes(old(Queues()), p, alive))
      ensures Queues() == Arrived(old(Queues()), node, p, alive)
    {
      hide Fits, Valid, Queues;
      var delivered := false;
      if alive {
        var box := Mailbox(p.pid);
        QueueOf(p.pid);
        delivered := Deposit(p.pid, node, p.data);
      }
      a := Ack(p.seqNum, delivered);
    }

    lemma QueueOf(pid: nat)
      requires pid in boxes
      ensures pid in Queues() && Queues()[pid] == boxes[pid].queue
    {
    }

    method Deposit(pid: nat, node: nat, data: seq<Byte>) returns (ok: bool)
      requires Valid() && pid in boxes
      modifies boxes.Values
      ensures Valid() && pid in old(Queues())
      ensures ok <==> Fits(old(Queues())[pid], MAX_MESSAGES, MAX_BYTES, |data|)
      ensures Queues() == if ok then old(Queues())[pid := old(Queues())[pid] + [Message(node, data)]] else old(Queues())
    {
      hide Fits, Size;
      ghost var queues := Queues();
      ok := boxes[pid].Push(node, data);
      assert Queues() == queues[pid := boxes[pid].queue];
      assert !ok ==> queues[pid := queues[pid]] == queues;
    }

    /** The process takes its first message. */
    method Receive(pid: nat) returns (m: Message)
      requires Valid() && pid in boxes && boxes[pid].queue != []
      modifies boxes.Values
      ensures Valid() && [m] + Queues()[pid] == old(Queues()[pid])
      ensures Queues() == old(Queues())[pid := old(Queues()[pid])[1..]]
    {
      ghost var queues := Queues();
      m := boxes[pid].TryPop();
      assert Queues() == queues[pid := boxes[pid].queue];
    }
  }

  ghost predicate BoxOk(box: Mailbox)
    reads box
  {
    box.Valid() && box.maxMessages == MAX_MESSAGES && box.maxBytes == MAX_BYTES
  }

  /** The queues once a process has a mailbox. */
  function Opened(boxes: map<nat, seq<Message>>, pid: nat): map<nat, seq<Message>> { boxes[pid := Box(boxes, pid)] }

  function Arrived(boxes: map<nat, seq<Message>>, node: nat, p: Packet, alive: bool): map<nat, seq<Message>> {
    if Takes(boxes, p, alive) then Pushed(boxes, node, p) else if alive then Opened(boxes, p.pid) else boxes
  }

  function Box(boxes: map<nat, seq<Message>>, pid: nat): seq<Message> {
    if pid in boxes then boxes[pid] else []
  }

  predicate Takes(boxes: map<nat, seq<Message>>, p: Packet, alive: bool) {
    alive && Fits(Box(boxes, p.pid), MAX_MESSAGES, MAX_BYTES, |p.data|)
  }

  function Pushed(boxes: map<nat, seq<Message>>, node: nat, p: Packet): map<nat, seq<Message>> {
    boxes[p.pid := Box(boxes, p.pid) + [Message(node, p.data)]]
  }

  // ----- the protocol -----

  /** Both ends, the network, and what has happened so far. */
  datatype State = State(
    counter: nat,
    pending: map<nat, Pending>,
    wire: set<Packet>,
    acks: set<Ack>,
    boxes: map<nat, seq<Message>>,
    draws: nat,
    sent: map<nat, Packet>,
    registered: set<nat>,
    transmissions: map<nat, nat>,
    pushed: set<Packet>,
    refused: set<Packet>,
    okAcked: set<nat>,
    errorAcked: set<nat>,
    expired: set<nat>,
    cut: set<nat>)

  function Start(): State {
    State(0, map[], {}, {}, map[], 0, map[], {}, map[], {}, {}, {}, {}, {}, {})
  }

  /** A packet or an acknowledgement on the network can arrive any number of times, at
      any time, or never. */
  datatype Step =
    | Draw
    | Send(pid: nat, data: seq<Byte>)
    | Register(q: nat, now: nat)
    | Arrive(p: Packet, node: nat, alive: bool)
    | Receive(pid: nat)
    | AckArrive(a: Ack)
    | Retry(now: nat, active: bool)

  predicate Enabled(s: State, step: Step) {
    match step
    case Register(q, _) => q in s.sent && q !in s.registered
    case Arrive(p, _, _) => p in s.wire
    case Receive(pid) => Box(s.boxes, pid) != []
    case AckArrive(a) => a in s.acks
    case _ => true
  }

  function NextSeq(s: State): nat { (s.counter + 1) % 0x1_0000_0000 }

  function DoSend(s: State, pid: nat, data: seq<Byte>): State {
    var p := Packet(NextSeq(s), pid, data);
    s.(counter := p.seqNum, draws := s.draws + 1, wire := s.wire + {p}, sent := s.sent[p.seqNum := p],
       registered := s.registered - {p.seqNum}, transmissions := s.transmissions[p.seqNum := 1])
  }

  function DoRegister(s: State, q: nat, now: nat): State
    requires q in s.sent
  {
    s.(pending := s.pending[q := Pending(s.sent[q], now, 0)], registered := s.registered + {q})
  }

  function DoArrive(s: State, p: Packet, node: nat, alive: bool): State {
    var s' := s.(boxes := Arrived(s.boxes, node, p, alive), acks := s.acks + {Ack(p.seqNum, Takes(s.boxes, p, alive))});
    if Takes(s.boxes, p, alive) then s'.(pushed := s.pushed + {p}) else s'.(refused := s.refused + {p})
  }

  function DoAck(s: State, a: Ack): State {
    var s' := s.(pending := s.pending - {a.seqNum});
    if a.ok then s'.(okAcked := s.okAcked + {a.seqNum}) else s'.(errorAcked := s.errorAcked + {a.seqNum})
  }

  function DoRetry(s: State, now: nat, active: bool): State {
    s.(pending := Retried(s.pending, now, active), wire := s.wire + Resent(s.pending, now, active),
       expired := s.expired + Judged(s.pending, now, active, Expire),
       cut := s.cut + Judged(s.pending, now, active, Cut),
       transmissions := map q | q in s.transmissions ::
         if q in Judged(s.pending, now, active, Resend) then s.transmissions[q] + 1 else s.transmissions[q])
  }

  function Do(s: State, step: Step): State
    requires Enabled(s, step)
  {
    match step
    case Draw => s.(counter := NextSeq(s), draws := s.draws + 1)
    case Send(pid, data) => DoSend(s, pid, data)
    case Register(q, now) => DoRegister(s, q, now)
    case Arrive(p, node, alive) => DoArrive(s, p, node, alive)
    case Receive(pid) => s.(boxes := s.boxes[pid := Box(s.boxes, pid)[1..]])
    case AckArrive(a) => DoAck(s, a)
    case Retry(now, active) => DoRetry(s, now, active)
  }

  /** The state after a run; nothing if some step was not possible. */
  datatype Outcome = Stuck | At(state: State)

  function Run(s: State, steps: seq<Step>): Outcome
    decreases |steps|
  {
    if steps == [] then At(s)
    else if Enabled(s, steps[0]) then Run(Do(s, steps[0]), steps[1..])
    else Stuck
  }
}
