/**
 At-least-once delivery: what holds in every run of the protocol, when messages can
 still be lost, and what happens once the sequence numbers are used up.
 */
module Delivery {
  import opened Basics
  import opened Mailboxes
  import opened Messages

  // ----- what every step keeps -----

  /** Numbers 1, 2, ... up to 2^32 - 1 and then 0 are drawn in turn. */
  predicate Drawn(q: nat, draws: nat) { if q == 0 then draws >= 0x1_0000_0000 else q <= draws }

  ghost predicate Numbered(s: State) {
    && s.counter == s.draws % 0x1_0000_0000
    && (forall q :: q in s.sent ==> s.sent[q].seqNum == q && Drawn(q, s.draws))
  }

  /** Only what was sent is on the wire, unchanged. */
  ghost predicate WireOk(s: State) {
    forall p :: p in s.wire ==> p.seqNum in s.sent && s.sent[p.seqNum] == p
  }

  /** A pending message is the one sent, and was transmitted once more than retried. */
  ghost predicate PendingOk(s: State) {
    && (forall q :: q in s.pending ==> q in s.registered && q in s.sent && q in s.transmissions)
    && (forall q :: q in s.pending ==>
         && s.pending[q].packet == s.sent[q] && s.pending[q].retries <= MAX_RETRIES
         && s.transmissions[q] == s.pending[q].retries + 1)
  }

  ghost predicate SentOk(s: State) {
    && s.registered <= s.sent.Keys && s.sent.Keys == s.transmissions.Keys
    && (forall q :: q in s.sent && q !in s.registered ==> s.transmissions[q] == 1)
  }

  ghost predicate Vouched(s: State, q: nat, ok: bool) {
    q in s.sent && s.sent[q] in (if ok then s.pushed else s.refused)
  }

  /** An acknowledgement says what a receiver did with that very message. */
  ghost predicate AcksOk(s: State) {
    && (forall a :: a in s.acks ==> Vouched(s, a.seqNum, a.ok))
    && (forall q :: q in s.okAcked ==> Vouched(s, q, true))
    && (forall q :: q in s.errorAcked ==> Vouched(s, q, false))
  }

  /** No registered message is forgotten without a cause. */
  ghost predicate Accounted(s: State) {
    && (forall q :: q in s.registered ==>
         q in s.pending || q in s.okAcked || q in s.errorAcked || q in s.expired || q in s.cut)
    && (forall q :: q in s.expired ==>
          q in s.registered && q !in s.pending && q in s.transmissions && s.transmissions[q] == 6)
  }

  ghost predicate BoxesOk(s: State) {
    forall pid :: pid in s.boxes ==> |s.boxes[pid]| <= MAX_MESSAGES && Size(s.boxes[pid]) <= MAX_BYTES
  }

  ghost predicate Inv(s: State) {
    Numbered(s) && WireOk(s) && PendingOk(s) && SentOk(s) && AcksOk(s) && Accounted(s) && BoxesOk(s)
  }

  lemma StartInv()
    ensures Inv(Start())
  {
  }

  lemma SendKeepsInv(s: State, pid: nat, data: seq<Byte>)
    requires s.draws < 0x1_0000_0000 && Inv(s)
    ensures Inv(DoSend(s, pid, data))
  {
    hide Size;
    FreshNumber(s);
    var q, s' := NextSeq(s), DoSend(s, pid, data);
    assert forall r :: r in s.sent ==> r in s'.sent && s'.sent[r] == s.sent[r];
    VouchedStays(s, s');
  }

  lemma FreshNumber(s: State)
    requires s.draws < 0x1_0000_0000 && Numbered(s)
    ensures NextSeq(s) !in s.sent && NextSeq(s) == (s.draws + 1) % 0x1_0000_0000
    ensures Drawn(NextSeq(s), s.draws + 1) && forall q :: Drawn(q, s.draws) ==> Drawn(q, s.draws + 1)
  {
  }

  lemma VouchedStays(s: State, s': State)
    requires forall r :: r in s.sent ==> r in s'.sent && s'.sent[r] == s.sent[r]
    requires s.pushed <= s'.pushed && s.refused <= s'.refused
    ensures forall q, ok :: Vouched(s, q, ok) ==> Vouched(s', q, ok)
  {
  }

  lemma DrawKeepsInv(s: State)
    requires s.draws < 0x1_0000_0000 && Inv(s)
    ensures Inv(Do(s, Draw))
  {
    hide Size;
    FreshNumber(s);
    VouchedStays(s, Do(s, Draw));
  }

  lemma RegisterKeepsInv(s: State, q: nat, now: nat)
    requires q in s.sent && q !in s.registered && Inv(s)
    ensures Inv(DoRegister(s, q, now))
  {
    hide Size;
    VouchedStays(s, DoRegister(s, q, now));
  }

  lemma ArriveKeepsInv(s: State, p: Packet, node: nat, alive: bool)
    requires p in s.wire && Inv(s)
    ensures Inv(DoArrive(s, p, node, alive))
  {
    hide Size, Vouched;
    var s' := DoArrive(s, p, node, alive);
    VouchedStays(s, s');
    AckIsTrue(s, p, node, alive);
    SizePush(Box(s.boxes, p.pid), Message(node, p.data));
    NothingQueued();
  }

  lemma NothingQueued()
    ensures Size([]) == 0
  {
  }

  lemma AckIsTrue(s: State, p: Packet, node: nat, alive: bool)
    requires p in s.wire && WireOk(s)
    ensures Vouched(DoArrive(s, p, node, alive), p.seqNum, Takes(s.boxes, p, alive))
  {
  }

  lemma ReceiveKeepsInv(s: State, pid: nat)
    requires Box(s.boxes, pid) != [] && Inv(s)
    ensures Inv(Do(s, Receive(pid)))
  {
    VouchedStays(s, Do(s, Receive(pid)));
  }

  lemma AckKeepsInv(s: State, a: Ack)
    requires a in s.acks && Inv(s)
    ensures Inv(DoAck(s, a))
  {
    hide Size, Vouched;
    VouchedStays(s, DoAck(s, a));
    assert Vouched(s, a.seqNum, a.ok);
  }

  lemma RetryKeepsInv(s: State, now: nat, active: bool)
    requires Inv(s)
    ensures Inv(DoRetry(s, now, active))
  {
    hide Size, Vouched, Judge, PendingOk, Accounted, SentOk, WireOk;
    VouchedStays(s, DoRetry(s, now, active));
    RetryKeepsWire(s, now, active);
    RetryKeepsPending(s, now, active);
    RetryKeepsAccount(s, now, active);
  }

  lemma RetryKeepsWire(s: State, now: nat, active: bool)
    requires WireOk(s) && PendingOk(s) && SentOk(s) && Numbered(s)
    ensures WireOk(DoRetry(s, now, active)) && SentOk(DoRetry(s, now, active))
  {
    hide Judge;
  }

  lemma RetryKeepsPending(s: State, now: nat, active: bool)
    requires PendingOk(s)
    ensures PendingOk(DoRetry(s, now, active))
  {
    hide Elapsed;
    var s' := DoRetry(s, now, active);
    forall q | q in s'.pending
      ensures && s'.pending[q].packet == s'.sent[q] && s'.pending[q].retries <= MAX_RETRIES
              && s'.transmissions[q] == s'.pending[q].retries + 1
    {
      assert q in s.pending && s'.pending[q] == AfterRetry(s.pending[q], now, active);
    }
  }

  lemma RetryKeepsAccount(s: State, now: nat, active: bool)
    requires Accounted(s) && PendingOk(s)
    ensures Accounted(DoRetry(s, now, active))
  {
    hide Elapsed;
    var s' := DoRetry(s, now, active);
    forall q | q in s'.registered
      ensures q in s'.pending || q in s'.okAcked || q in s'.errorAcked || q in s'.expired || q in s'.cut
    {
    }
    forall q | q in s'.expired
      ensures q in s'.registered && q !in s'.pending && q in s'.transmissions && s'.transmissions[q] == 6
    {
      if q in s.expired { assert q !in s.pending; }
    }
  }

  lemma StepKeepsInv(s: State, step: Step)
    requires Enabled(s, step) && Do(s, step).draws <= 0x1_0000_0000 && Inv(s)
    ensures Inv(Do(s, step)) && s.draws <= Do(s, step).draws
  {
    hide Inv, DoSend, DoArrive, DoAck, DoRetry, DoRegister;
    match step {
      case Draw => DrawKeepsInv(s);
      case Send(pid, data) =>
        SendDraws(s, pid, data);
        SendKeepsInv(s, pid, data);
      case Register(q, now) => RegisterKeepsInv(s, q, now);
      case Arrive(p, node, alive) => ArriveKeepsInv(s, p, node, alive);
      case Receive(pid) => ReceiveKeepsInv(s, pid);
      case AckArrive(a) => AckKeepsInv(s, a);
      case Retry(now, active) => RetryKeepsInv(s, now, active);
    }
    StepDraws(s, step);
  }

  lemma SendDraws(s: State, pid: nat, data: seq<Byte>)
    ensures DoSend(s, pid, data).draws == s.draws + 1
  {
  }

  lemma StepDraws(s: State, step: Step)
    requires Enabled(s, step)
    ensures s.draws <= Do(s, step).draws
  {
  }

  lemma {:induction false} RunDraws(s: State, steps: seq<Step>)
    requires Run(s, steps).At?
    ensures s.draws <= Run(s, steps).state.draws
    decreases |steps|
  {
    hide Do, Enabled;
    if steps != [] {
      StepDraws(s, steps[0]);
      RunDraws(Do(s, steps[0]), steps[1..]);
    }
  }

  lemma {:induction false} RunKeepsInv(s: State, steps: seq<Step>)
    requires Run(s, steps).At? && Run(s, steps).state.draws <= 0x1_0000_0000 && Inv(s)
    ensures Inv(Run(s, steps).state)
    decreases |steps|
  {
    hide Do, Enabled, Inv;
    if steps != [] {
      RunDraws(Do(s, steps[0]), steps[1..]);
      StepKeepsInv(s, steps[0]);
      RunKeepsInv(Do(s, steps[0]), steps[1..]);
    }
  }

  /** A message sent keeps its number and its bytes. */
  lemma {:induction false} SentStays(s: State, steps: seq<Step>, q: nat)
    requires Run(s, steps).At? && Run(s, steps).state.draws <= 0x1_0000_0000 && Inv(s) && q in s.sent
    ensures q in Run(s, steps).state.sent && Run(s, steps).state.sent[q] == s.sent[q]
    decreases |steps|
  {
    hide Do, Enabled, Inv;
    if steps != [] {
      RunDraws(Do(s, steps[0]), steps[1..]);
      StepKeepsInv(s, steps[0]);
      StepKeepsSent(s, steps[0], q);
      SentStays(Do(s, steps[0]), steps[1..], q);
    }
  }

  lemma StepKeepsSent(s: State, step: Step, q: nat)
    requires Enabled(s, step) && Do(s, step).draws <= 0x1_0000_0000 && Inv(s) && q in s.sent
    ensures q in Do(s, step).sent && Do(s, step).sent[q] == s.sent[q]
  {
    if step.Send? { FreshNumber(s); }
  }

  // ----- what that means for delivery -----

  /** In every run that draws at most 2^32 numbers: a message whose acknowledgement said
      it was taken was pushed; a registered one that was not acknowledged, did not
      use up its retries and was not cut off is pending, as it was sent; and every
      mailbox is within its limits. */
  lemma AtLeastOnce(steps: seq<Step>, q: nat)
    requires Run(Start(), steps).At? && Run(Start(), steps).state.draws <= 0x1_0000_0000
    ensures var s := Run(Start(), steps).state;
            && (q in s.okAcked ==> q in s.sent && s.sent[q] in s.pushed)
            && (q in s.registered && q !in s.okAcked && q !in s.errorAcked && q !in s.expired && q !in s.cut ==>
                  q in s.pending && q in s.sent && s.pending[q].packet == s.sent[q])
            && (q in s.expired ==> q in s.transmissions && s.transmissions[q] == 1 + MAX_RETRIES)
            && BoxesOk(s)
  {
    StartInv();
    RunKeepsInv(Start(), steps);
  }

  /** A message given up without being pushed was refused by its receiver, transmitted
      six times, or cut off with the session. */
  lemma LossHasACause(steps: seq<Step>, q: nat)
    requires Run(Start(), steps).At? && Run(Start(), steps).state.draws <= 0x1_0000_0000
    ensures var s := Run(Start(), steps).state;
            q in s.registered && q !in s.pending && q in s.sent && s.sent[q] !in s.pushed ==>
              || (q in s.errorAcked && s.sent[q] in s.refused)
              || (q in s.expired && q in s.transmissions && s.transmissions[q] == 6)
              || q in s.cut
  {
    StartInv();
    RunKeepsInv(Start(), steps);
  }

  // ----- how often a message is transmitted -----

  /** The passes of the retry loop that find a message due: two seconds after since, and
      after each other. */
  function DuePasses(since: nat, steps: seq<Step>): nat
    decreases |steps|
  {
    if steps == [] then 0
    else if !steps[0].Retry? || Elapsed(steps[0].now, since) < 2000 then DuePasses(since, steps[1..])
    else 1 + DuePasses(steps[0].now, steps[1..])
  }

  /** Nobody answers, and the session stays active. */
  predicate Unanswered(steps: seq<Step>, q: nat) {
    forall i :: 0 <= i < |steps| ==>
      && (steps[i].AckArrive? ==> steps[i].a.seqNum != q)
      && (steps[i].Retry? ==> steps[i].active)
  }

  /** How a message stands after n due passes: pending after up to five of them, transmitted
      once more than that; given up by the sixth, transmitted six times. */
  ghost predicate StandsAt(s: State, q: nat, n: nat) {
    && q in s.transmissions && s.transmissions[q] == (if n <= 5 then n + 1 else 6)
    && (if n <= 5 then q in s.pending && s.pending[q].retries == n else q !in s.pending && q in s.expired)
  }

  /** Over every run without an answer the number of transmissions is that of the due
      passes. */
  lemma {:induction false} TransmittedWhenDue(s: State, steps: seq<Step>, q: nat)
    requires Run(s, steps).At? && Run(s, steps).state.draws <= 0x1_0000_0000 && Inv(s)
    requires q in s.pending && Unanswered(steps, q)
    ensures StandsAt(Run(s, steps).state, q, s.pending[q].retries + DuePasses(s.pending[q].sentAt, steps))
    decreases |steps|
  {
    hide Do, Enabled, Inv, Elapsed, StandsAt;
    if steps == [] {
      StandsNow(s, q);
    } else {
      var s' := Do(s, steps[0]);
      RunDraws(s', steps[1..]);
      StepKeepsInv(s, steps[0]);
      StepOnPending(s, steps[0], q);
      assert Unanswered(steps[1..], q);
      if q in s'.pending {
        TransmittedWhenDue(s', steps[1..], q);
      } else {
        GivenUpStays(s', steps[1..], q);
        GaveUp(Run(s, steps).state, q, s.pending[q].retries + DuePasses(s.pending[q].sentAt, steps));
      }
    }
  }

  lemma StandsNow(s: State, q: nat)
    requires Inv(s) && q in s.pending
    ensures StandsAt(s, q, s.pending[q].retries)
  {
  }

  lemma GaveUp(s: State, q: nat, n: nat)
    requires q in s.transmissions && s.transmissions[q] == 6 && q !in s.pending && q in s.expired && n > 5
    ensures StandsAt(s, q, n)
  {
  }

  /** What one step does to a pending message that it does not answer. */
  lemma StepOnPending(s: State, step: Step, q: nat)
    requires Enabled(s, step) && Do(s, step).draws <= 0x1_0000_0000 && Inv(s) && q in s.pending
    requires step.AckArrive? ==> step.a.seqNum != q
    requires step.Retry? ==> step.active
    ensures var s' := Do(s, step);
            var p := s.pending[q];
            if !step.Retry? || Elapsed(step.now, p.sentAt) < 2000 then q in s'.pending && s'.pending[q] == p
            else if p.retries < 5 then q in s'.pending && s'.pending[q] == Pending(p.packet, step.now, p.retries + 1)
            else q !in s'.pending && q in s'.expired && q in s'.registered
  {
    hide Elapsed, Vouched, WireOk, BoxesOk, Size, Retried, Judged, Resent;
    if step.Send? { FreshNumber(s); }
    if step.Retry? { RetriedIs(s.pending, step.now, step.active); }
  }

  lemma {:induction false} GivenUpStays(s: State, steps: seq<Step>, q: nat)
    requires Run(s, steps).At? && Run(s, steps).state.draws <= 0x1_0000_0000 && Inv(s)
    requires q in s.expired && q !in s.pending && q in s.registered
    ensures var e := Run(s, steps).state;
            q in e.expired && q !in e.pending && q in e.transmissions && e.transmissions[q] == 6
    decreases |steps|
  {
    hide Do, Enabled, Inv;
    if steps == [] {
      ExpiredCount(s, q);
    } else {
      RunDraws(Do(s, steps[0]), steps[1..]);
      StepKeepsInv(s, steps[0]);
      StepOnGone(s, steps[0], q);
      GivenUpStays(Do(s, steps[0]), steps[1..], q);
    }
  }

  lemma ExpiredCount(s: State, q: nat)
    requires Inv(s) && q in s.expired
    ensures q in s.transmissions && s.transmissions[q] == 6
  {
  }

  lemma StepOnGone(s: State, step: Step, q: nat)
    requires Enabled(s, step) && Do(s, step).draws <= 0x1_0000_0000 && Inv(s)
    requires q in s.expired && q !in s.pending && q in s.registered
    ensures var s' := Do(s, step); q in s'.expired && q !in s'.pending && q in s'.registered
  {
    hide Elapsed, Vouched, WireOk, BoxesOk, Size, Resent, Judge;
    if step.Send? { FreshNumber(s); }
  }

  function Passes(steps: seq<Step>): nat {
    if steps == [] then 0 else (if steps[0].Retry? then 1 else 0) + Passes(steps[1..])
  }

  /** Passes at least two seconds apart. */
  predicate Spaced(since: nat, steps: seq<Step>)
    decreases |steps|
  {
    steps == []
    || (if steps[0].Retry? then since + 2000 <= steps[0].now < since + 0x1_0000_0000_0000_0000
                                && Spaced(steps[0].now, steps[1..])
        else Spaced(since, steps[1..]))
  }

  lemma {:induction false} SpacedPassesAreDue(since: nat, steps: seq<Step>)
    requires Spaced(since, steps)
    ensures DuePasses(since, steps) == Passes(steps)
    decreases |steps|
  {
    if steps != [] { SpacedPassesAreDue(if steps[0].Retry? then steps[0].now else since, steps[1..]); }
  }

  /** n passes at least two seconds apart transmit an unanswered message min(n, 5) + 1 times. */
  lemma TransmittedOftenEnough(s: State, steps: seq<Step>, q: nat)
    requires Run(s, steps).At? && Run(s, steps).state.draws <= 0x1_0000_0000 && Inv(s)
    requires q in s.pending && s.pending[q].retries == 0 && Unanswered(steps, q) && Spaced(s.pending[q].sentAt, steps)
    ensures var e, n := Run(s, steps).state, Passes(steps);
            && q in e.transmissions && e.transmissions[q] == (if n < 5 then n else 5) + 1
            && (q in e.pending <==> n <= 5)
  {
    hide Inv, Run;
    TransmittedWhenDue(s, steps, q);
    SpacedPassesAreDue(s.pending[q].sentAt, steps);
  }

  /** Refusals do lose messages: one failed arrival, and the message is gone after a
      single transmission, with no retry. */
  lemma RefusalLosesTheMessage(data: seq<Byte>)
    ensures var p := Packet(1, 7, data);
            var o := Run(Start(), [Send(7, data), Register(1, 0), Arrive(p, 0, false), AckArrive(Ack(1, false))]);
            && o.At? && 1 in o.state.registered && 1 !in o.state.pending
            && p !in o.state.pushed && o.state.transmissions == map[1 := 1]
            && o.state.expired == {} && o.state.cut == {}
  {
    var p := Packet(1, 7, data);
    var s1 := Do(Start(), Send(7, data));
    var s2 := Do(s1, Register(1, 0));
    var s3 := Do(s2, Arrive(p, 0, false));
    assert Ack(1, false) in s3.acks;
    var s4 := Do(s3, AckArrive(Ack(1, false)));
    RunOne(s3, AckArrive(Ack(1, false)), []);
    RunOne(s2, Arrive(p, 0, false), [AckArrive(Ack(1, false))]);
    RunOne(s1, Register(1, 0), [Arrive(p, 0, false), AckArrive(Ack(1, false))]);
    RunOne(Start(), Send(7, data), [Register(1, 0), Arrive(p, 0, false), AckArrive(Ack(1, false))]);
    assert [Send(7, data)] + [Register(1, 0), Arrive(p, 0, false), AckArrive(Ack(1, false))]
        == [Send(7, data), Register(1, 0), Arrive(p, 0, false), AckArrive(Ack(1, false))];
  }

  lemma RunOne(s: State, step: Step, rest: seq<Step>)
    requires Enabled(s, step)
    ensures Run(s, [step] + rest) == Run(Do(s, step), rest)
  {
    hide Do, Enabled;
    assert ([step] + rest)[1..] == rest;
  }

  // ----- beyond 2^32 numbers -----

  function Draws(n: nat): seq<Step> { if n == 0 then [] else [Draw] + Draws(n - 1) }

  function Skipped(s: State, n: nat): State {
    s.(counter := (s.counter + n) % 0x1_0000_0000, draws := s.draws + n)
  }

  lemma {:induction false} RunSkips(s: State, n: nat)
    requires s.counter < 0x1_0000_0000
    ensures Run(s, Draws(n)) == At(Skipped(s, n))
    decreases n
  {
    if n > 0 {
      RunOne(s, Draw, Draws(n - 1));
      RunSkips(Do(s, Draw), n - 1);
      assert Skipped(Do(s, Draw), n - 1) == Skipped(s, n);
    }
  }

  lemma {:induction false} RunAppend(s: State, a: seq<Step>, b: seq<Step>)
    requires Run(s, a).At?
    ensures Run(s, a + b) == Run(Run(s, a).state, b)
    decreases |a|
  {
    hide Do, Enabled;
    if a == [] {
      assert a + b == b;
    } else {
      RunAppend(Do(s, a[0]), a[1..], b);
      assert (a + b)[1..] == a[1..] + b;
    }
  }

  /** With one number more, a late acknowledgement of message 1 counts for the message
      that got its number again: acknowledged, no longer pending, never pushed. */
  lemma WrapBreaksDelivery() returns (steps: seq<Step>)
    ensures Run(Start(), steps).At?
    ensures var s := Run(Start(), steps).state;
            && s.draws == 0x1_0000_0000 + 1
            && 1 in s.registered && 1 in s.okAcked && 1 !in s.pending && 1 in s.sent && s.sent[1] !in s.pushed
  {
    hide Size;
    var p := Packet(1, 7, [1]);
    var first := [Send(7, [1]), Arrive(p, 0, true)];
    var s1 := FirstTaken(first);
    var n: nat := 0xFFFF_FFFF;
    RunSkips(s1, n);
    RunAppend(Start(), first, Draws(n));
    var s2 := Skipped(s1, n);
    var last := [Send(7, [2]), Register(1, 0), AckArrive(Ack(1, true))];
    LateAck(s2, last);
    RunAppend(Start(), first + Draws(n), last);
    steps := first + Draws(n) + last;
  }

  lemma FirstTaken(steps: seq<Step>) returns (s: State)
    requires steps == [Send(7, [1]), Arrive(Packet(1, 7, [1]), 0, true)]
    ensures Run(Start(), steps) == At(s)
    ensures s.counter == 1 == s.draws && Ack(1, true) in s.acks && s.pushed == {Packet(1, 7, [1])} && 1 !in s.registered
  {
    var p := Packet(1, 7, [1]);
    var s0 := Do(Start(), Send(7, [1]));
    assert Size([]) == 0;
    s := Do(s0, Arrive(p, 0, true));
    RunOne(s0, Arrive(p, 0, true), []);
    RunOne(Start(), Send(7, [1]), [Arrive(p, 0, true)]);
    assert [Send(7, [1])] + [Arrive(p, 0, true)] == steps;
  }

  lemma LateAck(s: State, steps: seq<Step>)
    requires s.counter == 0 && Ack(1, true) in s.acks && s.pushed == {Packet(1, 7, [1])}
    requires steps == [Send(7, [2]), Register(1, 0), AckArrive(Ack(1, true))]
    ensures Run(s, steps).At?
    ensures var t := Run(s, steps).state;
            && t.draws == s.draws + 1 && t.pushed == s.pushed
            && 1 in t.registered && 1 in t.okAcked && 1 !in t.pending && 1 in t.sent && t.sent[1] == Packet(1, 7, [2])
  {
    var a := Ack(1, true);
    var s1 := Do(s, Send(7, [2]));
    var s2 := Do(s1, Register(1, 0));
    RunOne(s2, AckArrive(a), []);
    RunOne(s1, Register(1, 0), [AckArrive(a)]);
    RunOne(s, Send(7, [2]), [Register(1, 0), AckArrive(a)]);
    assert [Send(7, [2])] + [Register(1, 0), AckArrive(a)] == steps;
  }
}
