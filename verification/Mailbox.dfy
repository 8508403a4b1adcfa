/** The mailbox of a process: a bounded first-in first-out queue of messages. */
module Mailboxes {
  import opened Basics

  datatype Message = Message(sender: nat, data: seq<Byte>)

  /** The bytes of all queued messages. */
  function Size(queue: seq<Message>): nat {
    if queue == [] then 0 else |queue[0].data| + Size(queue[1..])
  }

  lemma {:induction false} SizeAppend(a: seq<Message>, b: seq<Message>)
    ensures Size(a + b) == Size(a) + Size(b)
  {
    if a == [] {
      assert a + b == b;
    } else {
      SizeAppend(a[1..], b);
      assert (a + b)[1..] == a[1..] + b;
    }
  }

  lemma SizePush(queue: seq<Message>, m: Message)
    ensures Size(queue + [m]) == Size(queue) + |m.data|
  {
    SizeAppend(queue, [m]);
    assert [m][1..] == [];
  }

  /** Room for one more message of len bytes. */
  predicate Fits(queue: seq<Message>, maxMessages: nat, maxBytes: nat, len: nat) {
    |queue| < maxMessages && Size(queue) + len <= maxBytes
  }

  class Mailbox {
    var queue: seq<Message>
    var bytesUsed: nat
    const maxMessages: nat
    const maxBytes: nat

    ghost predicate Valid()
      reads this
    {
      bytesUsed == Size(queue) && |queue| <= maxMessages && bytesUsed <= maxBytes
    }

    constructor (maxMessages: nat, maxBytes: nat)
      ensures Valid() && queue == [] && this.maxMessages == maxMessages && this.maxBytes == maxBytes
    {
      queue := [];
      bytesUsed := 0;
      this.maxMessages := maxMessages;
      this.maxBytes := maxBytes;
    }

    method Push(sender: nat, data: seq<Byte>) returns (ok: bool)
      requires Valid()
      modifies this
      ensures Valid()
      ensures ok <==> Fits(old(queue), maxMessages, maxBytes, |data|)
      ensures ok <==>
                var more := old(queue) + [Message(sender, data)]; |more| <= maxMessages && Size(more) <= maxBytes
      ensures queue == if ok then old(queue) + [Message(sender, data)] else old(queue)
    {
      hide Size;
      SizePush(queue, Message(sender, data));
      if |queue| >= maxMessages { return false; }
      if bytesUsed + |data| > maxBytes { return false; }
      queue := queue + [Message(sender, data)];
      bytesUsed := bytesUsed + |data|;
      ok := true;
    }

    /** Callers take empty data for an empty mailbox; a queued message without bytes
        looks the same. */
    method TryPop() returns (m: Message)
      requires Valid()
      modifies this
      ensures Valid()
      ensures old(queue) == [] ==> m == Message(0, []) && queue == []
      ensures old(queue) != [] ==> [m] + queue == old(queue)
      ensures m.data == [] <==> old(queue) == [] || old(queue)[0].data == []
    {
      if |queue| == 0 { return Message(0, []); }
      m := queue[0];
      queue := queue[1..];
      bytesUsed := bytesUsed - |m.data|;
    }
  }

  // ----- whole runs -----

  datatype Op = PushOp(sender: nat, data: seq<Byte>) | PopOp

  datatype Limits = Limits(messages: nat, bytes: nat)

  predicate Accepts(queue: seq<Message>, limits: Limits, op: Op) {
    op.PushOp? && Fits(queue, limits.messages, limits.bytes, |op.data|)
  }

  function Next(queue: seq<Message>, limits: Limits, op: Op): seq<Message> {
    if Accepts(queue, limits, op) then queue + [Message(op.sender, op.data)]
    else if op.PopOp? && queue != [] then queue[1..]
    else queue
  }

  function Final(queue: seq<Message>, limits: Limits, ops: seq<Op>): seq<Message>
    decreases |ops|
  {
    if ops == [] then queue else Final(Next(queue, limits, ops[0]), limits, ops[1..])
  }

  function TakenAt(queue: seq<Message>, limits: Limits, op: Op): seq<Message> {
    if Accepts(queue, limits, op) then [Message(op.sender, op.data)] else []
  }

  function OutAt(queue: seq<Message>, op: Op): seq<Message> {
    if op.PopOp? && queue != [] then [queue[0]] else []
  }

  /** The messages taken in, and the messages handed out, in order. */
  function TakenIn(queue: seq<Message>, limits: Limits, ops: seq<Op>): seq<Message>
    decreases |ops|
  {
    if ops == [] then [] else TakenAt(queue, limits, ops[0]) + TakenIn(Next(queue, limits, ops[0]), limits, ops[1..])
  }

  function HandedOut(queue: seq<Message>, limits: Limits, ops: seq<Op>): seq<Message>
    decreases |ops|
  {
    if ops == [] then [] else OutAt(queue, ops[0]) + HandedOut(Next(queue, limits, ops[0]), limits, ops[1..])
  }

  lemma StepConserves(queue: seq<Message>, limits: Limits, op: Op)
    ensures queue + TakenAt(queue, limits, op) == OutAt(queue, op) + Next(queue, limits, op)
  {
  }

  /** First in, first out, nothing lost: what was taken in is what was handed out and
      what is left. */
  lemma {:induction false} FirstInFirstOut(queue: seq<Message>, limits: Limits, ops: seq<Op>)
    ensures queue + TakenIn(queue, limits, ops) == HandedOut(queue, limits, ops) + Final(queue, limits, ops)
    decreases |ops|
  {
    hide Next, TakenAt, OutAt;
    if ops == [] {
      assert queue + [] == queue && [] + queue == queue;
    } else {
      var next := Next(queue, limits, ops[0]);
      var t, o := TakenAt(queue, limits, ops[0]), OutAt(queue, ops[0]);
      StepConserves(queue, limits, ops[0]);
      FirstInFirstOut(next, limits, ops[1..]);
      var taken, out, left := TakenIn(next, limits, ops[1..]), HandedOut(next, limits, ops[1..]),
        Final(next, limits, ops[1..]);
      assert queue + (t + taken) == (queue + t) + taken;
      assert (o + next) + taken == o + (next + taken);
      assert o + (out + left) == (o + out) + left;
    }
  }

  lemma NothingRun(queue: seq<Message>, limits: Limits)
    ensures TakenIn(queue, limits, []) == [] && HandedOut(queue, limits, []) == [] && Final(queue, limits, []) == queue
  {
  }

  lemma RunGoesOn(queue: seq<Message>, limits: Limits, ops: seq<Op>, i: nat, taken: seq<Message>, out: seq<Message>)
    requires i < |ops|
    ensures var next := Next(queue, limits, ops[i]);
            && taken + TakenIn(queue, limits, ops[i..]) ==
               taken + TakenAt(queue, limits, ops[i]) + TakenIn(next, limits, ops[i + 1..])
            && out + HandedOut(queue, limits, ops[i..]) ==
               out + OutAt(queue, ops[i]) + HandedOut(next, limits, ops[i + 1..])
            && Final(queue, limits, ops[i..]) == Final(next, limits, ops[i + 1..])
  {
    hide Accepts, Next;
    assert ops[i..][1..] == ops[i + 1..];
  }

  /** The mailbox runs as the bounded queue does. */
  method RunMailbox(limits: Limits, ops: seq<Op>) returns (taken: seq<Message>, out: seq<Message>, left: seq<Message>)
    ensures taken == TakenIn([], limits, ops) && out == HandedOut([], limits, ops) && left == Final([], limits, ops)
    ensures |left| <= limits.messages && Size(left) <= limits.bytes
  {
    hide Fits, Size, TakenIn, HandedOut, Final;
    var box := new Mailbox(limits.messages, limits.bytes);
    taken, out := [], [];
    assert ops[0..] == ops;
    for i := 0 to |ops|
      invariant box.Valid() && fresh(box) && box.maxMessages == limits.messages && box.maxBytes == limits.bytes
      invariant TakenIn([], limits, ops) == taken + TakenIn(box.queue, limits, ops[i..])
      invariant HandedOut([], limits, ops) == out + HandedOut(box.queue, limits, ops[i..])
      invariant Final([], limits, ops) == Final(box.queue, limits, ops[i..])
    {
      RunGoesOn(box.queue, limits, ops, i, taken, out);
      match ops[i] {
        case PushOp(sender, data) =>
          var ok := box.Push(sender, data);
          if ok { taken := taken + [Message(sender, data)]; }
        case PopOp =>
          var was := box.queue;
          var m := box.TryPop();
          if |was| > 0 {
            assert box.queue == was[1..] && was[0] == m;
            out := out + [m];
          }
      }
    }
    left := box.queue;
    NothingRun(left, limits);
    assert ops[|ops|..] == [] && taken + [] == taken && out + [] == out;
  }
}
