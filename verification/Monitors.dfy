/**
 Monitors: a 64-bit word per object holds the owner (48 bits) and the depth (16 bits)
 of a reentrant lock, and a wait table holds the processes that wait for it.
 */
module Monitors {
  import opened Basics
  import opened WaitTables

  type Pid = p: nat | p < 0x1_0000_0000_0000

  function Make(owner: Pid, depth: nat): Word { owner + depth % 0x1_0000 * 0x1_0000_0000_0000 }
  function Owner(w: Word): Pid { w % 0x1_0000_0000_0000 }
  function Depth(w: Word): nat { w / 0x1_0000_0000_0000 }

  lemma WordRoundTrip(owner: Pid, depth: nat)
    ensures Owner(Make(owner, depth)) == owner && Depth(Make(owner, depth)) == depth % 0x1_0000
  {
  }

  // ----- the lock that the word stands for -----

  datatype Lock = Free | Held(owner: Pid, depth: nat)

  function LockOf(w: Word): Lock { if w == 0 then Free else Held(Owner(w), Depth(w)) }

  /** Zero, or a depth of at least one: then 0 means free, whoever the owner is. */
  predicate Proper(w: Word) { w == 0 || Depth(w) > 0 }

  function Acquired(l: Lock, pid: Pid): Lock {
    if l.Free? then Held(pid, 1) else if l.owner == pid then Held(pid, l.depth + 1) else l
  }

  function Released(l: Lock, pid: Pid): Lock {
    if l.Free? || l.owner != pid then l else if l.depth > 1 then Held(pid, l.depth - 1) else Free
  }

  function WordAcquired(w: Word, pid: Pid): Word {
    if w == 0 then Make(pid, 1) else if Owner(w) == pid then Make(pid, Depth(w) + 1) else w
  }

  function WordReleased(w: Word, pid: Pid): Word {
    if Owner(w) != pid then w else if Depth(w) > 1 then Make(pid, Depth(w) - 1) else 0
  }

  /** An acquire keeps the word proper and does what the lock does, exactly unless the
      depth is at its limit of 65535. */
  lemma AcquireMatches(w: Word, pid: Pid)
    requires Proper(w)
    ensures Proper(WordAcquired(w, pid)) && LockOf(WordAcquired(w, pid)) == Acquired(LockOf(w), pid)
            <==> !(w != 0 && Owner(w) == pid && Depth(w) == 0xFFFF)
  {
    WordRoundTrip(pid, 1);
    WordRoundTrip(pid, Depth(w) + 1);
    DepthBound(w);
  }

  lemma DepthBound(w: Word)
    ensures Depth(w) <= 0xFFFF && w == Owner(w) + Depth(w) * 0x1_0000_0000_0000
  {
  }

  lemma ReleaseMatches(w: Word, pid: Pid)
    requires Proper(w)
    ensures Proper(WordReleased(w, pid)) && LockOf(WordReleased(w, pid)) == Released(LockOf(w), pid)
  {
    DepthBound(w);
    if w != 0 && Depth(w) > 1 { WordRoundTrip(pid, Depth(w) - 1); }
  }

  /** The owner field alone does not tell: it is 0 while process 0 holds the lock. */
  lemma OwnerZeroIsNotFree()
    ensures Owner(WordAcquired(0, 0)) == 0 && LockOf(WordAcquired(0, 0)) == Held(0, 1)
  {
    WordRoundTrip(0, 1);
  }

  // ----- runs -----

  datatype Op = Acquire(pid: Pid) | Release(pid: Pid) | Wait(pid: Pid)

  function WordStep(w: Word, op: Op): Word {
    match op
    case Acquire(pid) => WordAcquired(w, pid)
    case Release(pid) => WordReleased(w, pid)
    case Wait(_) => w
  }

  /** The operation acts: an acquire that succeeds, a release by the owner. */
  predicate Acts(l: Lock, op: Op) {
    match op
    case Acquire(pid) => l.Free? || l.owner == pid
    case Release(pid) => l.Held? && l.owner == pid
    case Wait(_) => false
  }

  function WordRun(w: Word, ops: seq<Op>): Word
    decreases |ops|
  {
    if ops == [] then w else WordRun(WordStep(w, ops[0]), ops[1..])
  }

  /** No acquire meets the limit of the depth. */
  predicate WithinDepth(w: Word, ops: seq<Op>)
    decreases |ops|
  {
    ops == [] ||
    (!(ops[0].Acquire? && w != 0 && Owner(w) == ops[0].pid && Depth(w) == 0xFFFF)
     && WithinDepth(WordStep(w, ops[0]), ops[1..]))
  }

  /** The acquires of pid that acted less its releases that acted. */
  function Unmatched(w: Word, ops: seq<Op>, pid: Pid): int
    decreases |ops|
  {
    if ops == [] then 0
    else (if ops[0].pid == pid && Acts(LockOf(w), ops[0]) then (if ops[0].Acquire? then 1 else -1) else 0)
         + Unmatched(WordStep(w, ops[0]), ops[1..], pid)
  }

  /** What a process holds of a lock. */
  function Holds(l: Lock, pid: Pid): nat { if l.Held? && l.owner == pid then l.depth else 0 }

  lemma StepHolds(w: Word, op: Op, pid: Pid)
    requires Proper(w) && !(op.Acquire? && w != 0 && Owner(w) == op.pid && Depth(w) == 0xFFFF)
    ensures Proper(WordStep(w, op))
    ensures Holds(LockOf(WordStep(w, op)), pid) ==
            Holds(LockOf(w), pid) + if op.pid == pid && Acts(LockOf(w), op) then (if op.Acquire? then 1 else -1) else 0
  {
    hide WordAcquired, WordReleased, Owner, Make;
    match op {
      case Acquire(p) => AcquireMatches(w, p);
      case Release(p) => ReleaseMatches(w, p);
      case Wait(_) =>
    }
  }

  /** In every run within the depth limit, each process holds exactly its unmatched
      acquires; the lock is free exactly if the word is zero. */
  lemma {:induction false} RunHolds(w: Word, ops: seq<Op>, pid: Pid)
    requires Proper(w) && WithinDepth(w, ops)
    ensures Proper(WordRun(w, ops))
    ensures Holds(LockOf(WordRun(w, ops)), pid) == Holds(LockOf(w), pid) + Unmatched(w, ops, pid)
    decreases |ops|
  {
    hide WordStep, LockOf, Proper, Acts, Holds;
    if ops != [] {
      StepHolds(w, ops[0], pid);
      RunHolds(WordStep(w, ops[0]), ops[1..], pid);
    }
  }

  /** From a free monitor: at most one process has unmatched acquires, and the word is
      zero exactly if none has. */
  lemma MutualExclusion(ops: seq<Op>, p: Pid, q: Pid)
    requires WithinDepth(0, ops)
    ensures Unmatched(0, ops, p) > 0 && Unmatched(0, ops, q) > 0 ==> p == q
    ensures WordRun(0, ops) == 0 ==> Unmatched(0, ops, p) == 0
    ensures WordRun(0, ops) != 0 ==> Unmatched(0, ops, Owner(WordRun(0, ops))) == Depth(WordRun(0, ops)) > 0
  {
    RunHolds(0, ops, p);
    RunHolds(0, ops, q);
    RunHolds(0, ops, Owner(WordRun(0, ops)));
  }

  /** The header's promise that the owner field is 0 exactly for a free monitor holds in
      a run if and only if process 0 has no unmatched acquires. */
  lemma OwnerTellsIff(ops: seq<Op>)
    requires WithinDepth(0, ops)
    ensures (Owner(WordRun(0, ops)) == 0 <==> WordRun(0, ops) == 0) <==> Unmatched(0, ops, 0) == 0
  {
    hide WordRun, Unmatched, WithinDepth;
    RunHolds(0, ops, 0);
    DepthBound(WordRun(0, ops));
  }

  /** A release that takes out a waiter. */
  predicate TakesWaiter(w: Word, pid: Pid) { Owner(w) == pid && Depth(w) <= 1 }

  /** In every run, a release takes out a waiter exactly if it is the last of the holder,
      or if process 0 releases a free monitor. */
  lemma TakesWaiterIff(ops: seq<Op>, pid: Pid)
    requires WithinDepth(0, ops)
    ensures TakesWaiter(WordRun(0, ops), pid) <==>
            Unmatched(0, ops, pid) == 1 || (pid == 0 && WordRun(0, ops) == 0)
  {
    hide WordRun, Unmatched, WithinDepth;
    RunHolds(0, ops, pid);
    DepthBound(WordRun(0, ops));
  }

  // ----- the operations of the heap -----

  class MonitorTable {
    /** The monitor words of the objects behind live handles. */
    var words: map<nat, Word>
    const waiters: WaitTable

    ghost predicate Valid()
      reads this, waiters, waiters.buckets
    {
      waiters.Valid()
    }

    constructor (words: map<nat, Word>)
      ensures Valid() && this.words == words && fresh(waiters) && fresh(waiters.buckets)
      ensures forall key :: waiters.Queue(key) == []
    {
      this.words := words;
      waiters := new WaitTable();
    }

    method TryAcquire(h: nat, pid: Pid) returns (ok: bool)
      modifies this`words
      ensures ok <==> h in old(words) && Acts(LockOf(old(words[h])), Acquire(pid))
      ensures words == if h in old(words) then old(words)[h := WordAcquired(old(words[h]), pid)] else old(words)
    {
      if h !in words { return false; }
      var current := words[h];
      if current == 0 {
        words := words[h := Make(pid, 1)];
        return true;
      }
      if Owner(current) == pid {
        var d := Depth(current);
        words := words[h := Make(pid, d + 1)];
        return true;
      }
      assert words[h := current] == words;
      ok := false;
    }

    /** The last release hands back the first waiter. Process 0 passes the owner check
        of a free monitor, so its release takes a waiter out as well. */
    method Release(h: nat, pid: Pid) returns (next: nat)
      requires Valid()
      modifies this`words, waiters.buckets
      ensures Valid()
      ensures words == if h in old(words) then old(words)[h := WordReleased(old(words[h]), pid)] else old(words)
      ensures var q := old(waiters.Queue(Key(h, Monitor)));
              var pops := h in old(words) && TakesWaiter(old(words[h]), pid);
              && (!pops || q == [] ==> next == NO_WAITER && forall k :: waiters.Queue(k) == old(waiters.Queue(k)))
              && (pops && q != [] ==> [next] + waiters.Queue(Key(h, Monitor)) == q)
      ensures forall k :: k != Key(h, Monitor) ==> waiters.Queue(k) == old(waiters.Queue(k))
    {
      if h !in words { return NO_WAITER; }
      var current := words[h];
      if Owner(current) != pid {
        assert words[h := current] == words;
        return NO_WAITER;
      }
      var d := Depth(current);
      if d > 1 {
        words := words[h := Make(pid, d - 1)];
        return NO_WAITER;
      }
      words := words[h := 0];
      next := waiters.PopOne(Key(h, Monitor));
    }

    method AddWaiter(h: nat, pid: Pid)
      requires Valid()
      modifies waiters.buckets
      ensures Valid()
      ensures forall k :: waiters.Queue(k) == if k == Key(h, Monitor) then old(waiters.Queue(k)) + [pid]
              else old(waiters.Queue(k))
    {
      waiters.Push(Key(h, Monitor), pid);
    }
  }

  /** The release that only process 0 can make: it holds nothing, the word does not
      change, and a waiter is gone. */
  method ReleaseOfFreeMonitor(t: MonitorTable, h: nat, waiter: Pid) returns (next: nat)
    requires t.Valid() && h in t.words && t.words[h] == 0 && t.waiters.Queue(Key(h, Monitor)) == []
    modifies t, t.waiters.buckets
    ensures t.Valid() && next == waiter && t.words == old(t.words)
    ensures t.waiters.Queue(Key(h, Monitor)) == []
  {
    t.AddWaiter(h, waiter);
    assert t.waiters.Queue(Key(h, Monitor)) == [waiter];
    next := t.Release(h, 0);
    assert ([next] + t.waiters.Queue(Key(h, Monitor)))[0] == next;
    assert t.words == old(t.words);
  }

  // ----- who is woken -----

  /** The waiters after an operation, in order of arrival. */
  function QueueStep(w: Word, q: seq<nat>, op: Op): seq<nat> {
    match op
    case Acquire(_) => q
    case Release(pid) => if TakesWaiter(w, pid) && q != [] then q[1..] else q
    case Wait(pid) => q + [pid]
  }

  /** Whom an operation wakes. */
  function Wakes(w: Word, q: seq<nat>, op: Op): seq<nat> {
    if op.Release? && TakesWaiter(w, op.pid) && q != [] then [q[0]] else []
  }

  function QueueRun(w: Word, q: seq<nat>, ops: seq<Op>): seq<nat>
    decreases |ops|
  {
    if ops == [] then q else QueueRun(WordStep(w, ops[0]), QueueStep(w, q, ops[0]), ops[1..])
  }

  /** What each operation answers: the process to wake, or the sentinel. */
  function Answers(w: Word, q: seq<nat>, ops: seq<Op>): seq<nat>
    decreases |ops|
  {
    if ops == [] then []
    else
      var woken := Wakes(w, q, ops[0]);
      [if woken == [] then NO_WAITER else woken[0]] + Answers(WordStep(w, ops[0]), QueueStep(w, q, ops[0]), ops[1..])
  }

  function AllWoken(w: Word, q: seq<nat>, ops: seq<Op>): seq<nat>
    decreases |ops|
  {
    if ops == [] then [] else Wakes(w, q, ops[0]) + AllWoken(WordStep(w, ops[0]), QueueStep(w, q, ops[0]), ops[1..])
  }

  function Arrived(ops: seq<Op>): seq<nat> {
    if ops == [] then [] else Comes(ops[0]) + Arrived(ops[1..])
  }

  function Comes(op: Op): seq<nat> { if op.Wait? then [op.pid] else [] }

  lemma StepInOrder(w: Word, q: seq<nat>, op: Op)
    ensures q + Comes(op) == Wakes(w, q, op) + QueueStep(w, q, op)
  {
    hide TakesWaiter;
  }

  lemma JoinedInOrder(q: seq<nat>, comes: seq<nat>, woken: seq<nat>, q': seq<nat>, rest: seq<nat>, more: seq<nat>,
                      left: seq<nat>)
    requires q + comes == woken + q' && q' + rest == more + left
    ensures q + (comes + rest) == (woken + more) + left
  {
    assert q + (comes + rest) == (q + comes) + rest;
    assert (woken + q') + rest == woken + (q' + rest);
    assert woken + (more + left) == (woken + more) + left;
  }

  /** First come, first served, and nobody is forgotten: those who waited and came are
      those woken, in order, and those still waiting. */
  lemma {:induction false} WokenInOrder(w: Word, q: seq<nat>, ops: seq<Op>)
    ensures q + Arrived(ops) == AllWoken(w, q, ops) + QueueRun(w, q, ops)
    decreases |ops|
  {
    hide WordStep, QueueStep, Wakes, Comes;
    if ops == [] {
      assert q + [] == [] + q;
    } else {
      var w', q' := WordStep(w, ops[0]), QueueStep(w, q, ops[0]);
      WokenInOrder(w', q', ops[1..]);
      StepInOrder(w, q, ops[0]);
      JoinedInOrder(q, Comes(ops[0]), Wakes(w, q, ops[0]), q', Arrived(ops[1..]), AllWoken(w', q', ops[1..]),
                    QueueRun(w', q', ops[1..]));
    }
  }

  /** What is left of a run after its next operation. */
  lemma RunGoesOn(w: Word, q: seq<nat>, ops: seq<Op>, i: nat, woken: seq<nat>)
    requires i < |ops|
    ensures var w', q', wakes := WordStep(w, ops[i]), QueueStep(w, q, ops[i]), Wakes(w, q, ops[i]);
            && WordRun(w, ops[i..]) == WordRun(w', ops[i + 1..])
            && QueueRun(w, q, ops[i..]) == QueueRun(w', q', ops[i + 1..])
            && woken + Answers(w, q, ops[i..]) ==
               woken + [if wakes == [] then NO_WAITER else wakes[0]] + Answers(w', q', ops[i + 1..])
  {
    hide WordStep, QueueStep, Wakes;
    assert ops[i..][1..] == ops[i + 1..];
  }

  lemma OnlyReleasesWake(w: Word, q: seq<nat>, op: Op)
    ensures Wakes(w, q, op) != [] ==> op.Release? && TakesWaiter(w, op.pid)
  {
  }

  lemma RunEnds(w: Word, q: seq<nat>)
    ensures WordRun(w, []) == w && QueueRun(w, q, []) == q && Answers(w, q, []) == []
  {
  }

  /** One operation on the object of h. */
  method Perform(t: MonitorTable, h: nat, op: Op) returns (next: nat)
    requires t.Valid() && h in t.words
    modifies t`words, t.waiters.buckets
    ensures t.Valid() && t.words == old(t.words)[h := WordStep(old(t.words[h]), op)]
    ensures var q, key := old(t.waiters.Queue(Key(h, Monitor))), Key(h, Monitor);
            var woken := Wakes(old(t.words[h]), q, op);
            && next == (if woken == [] then NO_WAITER else woken[0])
            && t.waiters.Queue(key) == QueueStep(old(t.words[h]), q, op)
    ensures forall k :: k != Key(h, Monitor) ==> t.waiters.Queue(k) == old(t.waiters.Queue(k))
  {
    hide WordAcquired, WordReleased, TakesWaiter, LockOf;
    next := NO_WAITER;
    ghost var q, w := t.waiters.Queue(Key(h, Monitor)), t.words[h];
    match op {
      case Acquire(pid) => var _ := t.TryAcquire(h, pid);
      case Release(pid) =>
        next := t.Release(h, pid);
        if TakesWaiter(w, pid) && q != [] {
          assert ([next] + t.waiters.Queue(Key(h, Monitor)))[0] == next;
          assert ([next] + t.waiters.Queue(Key(h, Monitor)))[1..] == t.waiters.Queue(Key(h, Monitor));
        }
      case Wait(pid) =>
        t.AddWaiter(h, pid);
        assert t.words[h := w] == t.words;
    }
  }

  /** The operations on one object follow the word of the run and answer as its queue
      says; other objects and other queues are left alone. */
  method RunMonitor(t: MonitorTable, h: nat, ops: seq<Op>) returns (woken: seq<nat>)
    requires t.Valid() && h in t.words
    modifies t`words, t.waiters.buckets
    ensures t.Valid() && t.words == old(t.words)[h := WordRun(old(t.words[h]), ops)]
    ensures woken == Answers(old(t.words[h]), old(t.waiters.Queue(Key(h, Monitor))), ops)
    ensures t.waiters.Queue(Key(h, Monitor)) == QueueRun(old(t.words[h]), old(t.waiters.Queue(Key(h, Monitor))), ops)
    ensures forall k :: k != Key(h, Monitor) ==> t.waiters.Queue(k) == old(t.waiters.Queue(k))
    ensures |woken| == |ops|
    ensures forall i :: 0 <= i < |ops| && woken[i] != NO_WAITER ==>
              ops[i].Release? && TakesWaiter(WordRun(old(t.words[h]), ops[..i]), ops[i].pid)
  {
    hide WordStep, TakesWaiter, QueueStep, WordRun, QueueRun, Answers, Wakes, WaitTable.Valid, WaitTable.Queue;
    woken := [];
    ghost var w, q, key := t.words[h], t.waiters.Queue(Key(h, Monitor)), Key(h, Monitor);
    assert ops[0..] == ops && ops[..0] == [] && t.words[h := w] == t.words;
    RunEnds(w, q);
    for i := 0 to |ops|
      invariant t.Valid() && h in t.words && t.words == old(t.words)[h := t.words[h]]
      invariant t.words[h] == WordRun(w, ops[..i]) && |woken| == i
      invariant WordRun(w, ops) == WordRun(t.words[h], ops[i..])
      invariant Answers(w, q, ops) == woken + Answers(t.words[h], t.waiters.Queue(key), ops[i..])
      invariant QueueRun(w, q, ops) == QueueRun(t.words[h], t.waiters.Queue(key), ops[i..])
      invariant forall k :: k != key ==> t.waiters.Queue(k) == old(t.waiters.Queue(k))
      invariant forall j :: 0 <= j < i && woken[j] != NO_WAITER ==>
                  ops[j].Release? && TakesWaiter(WordRun(w, ops[..j]), ops[j].pid)
    {
      RunOneMore(w, ops, i);
      RunGoesOn(t.words[h], t.waiters.Queue(key), ops, i, woken);
      OnlyReleasesWake(t.words[h], t.waiters.Queue(key), ops[i]);
      var next := Perform(t, h, ops[i]);
      woken := woken + [next];
    }
    assert ops[..|ops|] == ops && ops[|ops|..] == [];
    RunEnds(t.words[h], t.waiters.Queue(key));
  }

  lemma {:induction false} RunOneMore(w: Word, ops: seq<Op>, i: nat)
    requires i < |ops|
    ensures WordRun(w, ops[..i + 1]) == WordStep(WordRun(w, ops[..i]), ops[i])
    decreases i
  {
    hide WordStep;
    if i == 0 {
      assert ops[..1][1..] == [];
    } else {
      RunOneMore(WordStep(w, ops[0]), ops[1..], i - 1);
      assert ops[..i + 1][1..] == ops[1..][..i];
      assert ops[..i][1..] == ops[1..][..i - 1];
    }
  }
}
