/**
 Wait queues by handle and kind: 4096 buckets, each with a chain of entries that is
 searched in order; an entry lives only while its queue is not empty.
 */
module WaitTables {
  import opened Basics

  datatype Kind = Monitor | Condvar
  datatype Key = Key(handle: nat, kind: Kind)
  datatype Entry = Entry(key: Key, queue: seq<nat>)

  const NO_WAITER: nat := 0xFFFF_FFFF_FFFF_FFFF

  /** The n low bits. */
  function Low(x: nat, n: nat): nat { if n == 0 then 0 else x % 2 + 2 * Low(x / 2, n - 1) }

  function KindBits(kind: Kind): nat { if kind == Monitor then 0 else 1 }

  /** A multiplicative hash in 32 bits with the kind mixed in at bit 16; the 12 low
      bits are kept. */
  function Bucket(key: Key): (b: nat)
    ensures b < 4096
  {
    var h := Xor(key.handle * 0x9E37_79B9 % 0x1_0000_0000, KindBits(key.kind) * 65536);
    LowFits(h);
    Low(h, 12)
  }

  lemma {:induction false} LowBelow(x: nat, n: nat)
    ensures Low(x, n) < Pow2(n)
  {
    if n > 0 { LowBelow(x / 2, n - 1); }
  }

  lemma LowFits(x: nat)
    ensures Low(x, 12) < 4096
  {
    hide Pow2, Low;
    LowBelow(x, 12);
    Pow2Of12();
  }

  lemma Pow2Of12()
    ensures Pow2(12) == 4096
  {
    hide Pow2;
    Pow2Of4();
    Pow2Add(4, 4);
    Pow2Add(8, 4);
  }

  lemma {:induction false} LowOfMultiple(x: nat, n: nat)
    ensures Low(x * Pow2(n), n) == 0
  {
    if n > 0 {
      assert x * Pow2(n) == 2 * (x * Pow2(n - 1));
      LowOfMultiple(x, n - 1);
    }
  }

  lemma {:induction false} LowOfXor(a: nat, b: nat, n: nat)
    requires Low(b, n) == 0
    ensures Low(Xor(a, b), n) == Low(a, n)
  {
    if n > 0 { LowOfXor(a / 2, b / 2, n - 1); }
  }

  /** The kind is mixed in above the bits that are kept: it has no effect. */
  lemma KindHasNoEffect(h: nat, kind: Kind)
    ensures Bucket(Key(h, kind)) == Low(h * 0x9E37_79B9 % 0x1_0000_0000, 12)
  {
    hide Low, Xor;
    var bits := KindBits(kind) * 65536;
    LowOfShifted(KindBits(kind));
    LowOfXor(h * 0x9E37_79B9 % 0x1_0000_0000, bits, 12);
  }

  lemma LowOfShifted(k: nat)
    ensures Low(k * 65536, 12) == 0
  {
    hide Pow2, Low;
    LowOfMultiple(k * 16, 12);
    Pow2Of12();
  }

  /** The queue of a key in a chain: that of its first entry. */
  function QueueIn(chain: seq<Entry>, key: Key): seq<nat> {
    if chain == [] then []
    else if chain[0].key == key then chain[0].queue
    else QueueIn(chain[1..], key)
  }

  ghost predicate ChainOk(chain: seq<Entry>, b: nat) {
    && (forall i :: 0 <= i < |chain| ==> Bucket(chain[i].key) == b && chain[i].queue != [])
    && (forall i, j :: 0 <= i < j < |chain| ==> chain[i].key != chain[j].key)
  }

  lemma {:induction false} QueueAt(chain: seq<Entry>, key: Key, i: nat)
    requires i < |chain| && chain[i].key == key && forall j :: 0 <= j < i ==> chain[j].key != key
    ensures QueueIn(chain, key) == chain[i].queue
  {
    if i > 0 { QueueAt(chain[1..], key, i - 1); }
  }

  lemma {:induction false} QueueAbsent(chain: seq<Entry>, key: Key)
    requires forall j :: 0 <= j < |chain| ==> chain[j].key != key
    ensures QueueIn(chain, key) == []
  {
    if chain != [] { QueueAbsent(chain[1..], key); }
  }

  /** Replacing an entry's queue, or taking the entry out, changes one key only. */
  lemma {:induction false} QueueReplaced(chain: seq<Entry>, i: nat, queue: seq<nat>, key: Key)
    requires i < |chain| && forall j :: 0 <= j < |chain| && j != i ==> chain[j].key != chain[i].key
    ensures QueueIn(chain[i := Entry(chain[i].key, queue)], key) ==
            if key == chain[i].key then queue else QueueIn(chain, key)
  {
    var c := chain[i := Entry(chain[i].key, queue)];
    if i > 0 {
      assert c[1..] == chain[1..][i - 1 := Entry(chain[1..][i - 1].key, queue)];
      assert forall j :: 0 <= j < |chain[1..]| ==> chain[1..][j] == chain[j + 1];
      QueueReplaced(chain[1..], i - 1, queue, key);
    } else {
      assert c[1..] == chain[1..];
    }
  }

  lemma {:induction false} QueueUnlinked(chain: seq<Entry>, i: nat, key: Key)
    requires i < |chain| && forall j :: 0 <= j < |chain| && j != i ==> chain[j].key != chain[i].key
    ensures QueueIn(chain[..i] + chain[i + 1..], key) == if key == chain[i].key then [] else QueueIn(chain, key)
  {
    if i == 0 {
      assert chain[..0] + chain[1..] == chain[1..];
      if key == chain[0].key { QueueAbsent(chain[1..], key); }
    } else {
      var c := chain[..i] + chain[i + 1..];
      assert c[1..] == chain[1..][..i - 1] + chain[1..][i..];
      assert c[0] == chain[0];
      assert forall j :: 0 <= j < |chain[1..]| ==> chain[1..][j] == chain[j + 1];
      QueueUnlinked(chain[1..], i - 1, key);
    }
  }

  class WaitTable {
    const buckets: array<seq<Entry>>

    ghost predicate Valid()
      reads this, buckets
    {
      buckets.Length == 4096 && forall b :: 0 <= b < 4096 ==> ChainOk(buckets[b], b)
    }

    /** The table as a queue for every key. */
    ghost function Queue(key: Key): seq<nat>
      requires Valid()
      reads this, buckets
    {
      QueueIn(buckets[Bucket(key)], key)
    }

    constructor ()
      ensures Valid() && fresh(buckets) && forall key :: Queue(key) == []
    {
      buckets := new seq<Entry>[4096](i => []);
    }

    method FindEntry(chain: seq<Entry>, key: Key) returns (i: nat)
      ensures i <= |chain|
      ensures i < |chain| ==> chain[i].key == key && QueueIn(chain, key) == chain[i].queue
      ensures i == |chain| ==> (forall j :: 0 <= j < |chain| ==> chain[j].key != key) && QueueIn(chain, key) == []
    {
      i := 0;
      while i < |chain|
        invariant i <= |chain| && forall j :: 0 <= j < i ==> chain[j].key != key
      {
        if chain[i].key == key {
          QueueAt(chain, key, i);
          return;
        }
        i := i + 1;
      }
      QueueAbsent(chain, key);
    }

    method Push(key: Key, pid: nat)
      requires Valid()
      modifies buckets
      ensures Valid()
      ensures forall k :: Queue(k) == if k == key then old(Queue(k)) + [pid] else old(Queue(k))
    {
      hide Bucket, QueueIn;
      var b := Bucket(key);
      var chain := buckets[b];
      var i := FindEntry(chain, key);
      ghost var chain0, q := chain, QueueIn(chain, key);
      if i == |chain| {
        chain := [Entry(key, [])] + chain;
        i := 0;
        Prepended(chain0, key);
      }
      ghost var c := chain;
      forall k
        ensures QueueIn(c[i := Entry(c[i].key, c[i].queue + [pid])], k) == if k == key then q + [pid]
                else QueueIn(chain0, k)
      {
        QueueReplaced(c, i, c[i].queue + [pid], k);
      }
      chain := chain[i := Entry(chain[i].key, chain[i].queue + [pid])];
      buckets[b] := chain;
      assert forall k :: Bucket(k) != b ==> buckets[Bucket(k)] == old(buckets[Bucket(k)]);
    }

    /** The first waiter of the queue, which leaves it. */
    method PopOne(key: Key) returns (pid: nat)
      requires Valid()
      modifies buckets
      ensures Valid()
      ensures old(Queue(key)) == [] ==> pid == NO_WAITER
      ensures old(Queue(key)) != [] ==> [pid] + Queue(key) == old(Queue(key))
      ensures forall k :: k != key || old(Queue(key)) == [] ==> Queue(k) == old(Queue(k))
    {
      hide Bucket, QueueIn;
      var b := Bucket(key);
      var chain := buckets[b];
      var i := FindEntry(chain, key);
      if i == |chain| || |chain[i].queue| == 0 { return NO_WAITER; }
      pid := chain[i].queue[0];
      var rest := chain[i].queue[1..];
      ghost var c := chain;
      forall k
        ensures QueueIn(c[i := Entry(key, rest)], k) == if k == key then rest else QueueIn(c, k)
        ensures QueueIn(c[..i] + c[i + 1..], k) == if k == key then [] else QueueIn(c, k)
      {
        QueueReplaced(c, i, rest, k);
        QueueUnlinked(c, i, k);
      }
      if |rest| == 0 {
        chain := chain[..i] + chain[i + 1..];
      } else {
        chain := chain[i := Entry(key, rest)];
      }
      buckets[b] := chain;
    }

    /** All waiters of the queue, in order. */
    method PopAll(key: Key) returns (pids: seq<nat>)
      requires Valid()
      modifies buckets
      ensures Valid()
      ensures pids == old(Queue(key)) && Queue(key) == []
      ensures forall k :: k != key ==> Queue(k) == old(Queue(k))
    {
      hide Bucket, QueueIn;
      var b := Bucket(key);
      var chain := buckets[b];
      var i := FindEntry(chain, key);
      if i == |chain| { return []; }
      pids := chain[i].queue;
      ghost var c := chain;
      forall k ensures QueueIn(c[..i] + c[i + 1..], k) == if k == key then [] else QueueIn(c, k) {
        QueueUnlinked(c, i, k);
      }
      buckets[b] := chain[..i] + chain[i + 1..];
    }
  }

  lemma Prepended(chain: seq<Entry>, key: Key)
    requires forall j :: 0 <= j < |chain| ==> chain[j].key != key
    ensures forall k :: k != key ==> QueueIn([Entry(key, [])] + chain, k) == QueueIn(chain, k)
  {
    assert ([Entry(key, [])] + chain)[1..] == chain;
  }

  // ----- whole runs against one list of waiters -----

  datatype Waiter = Waiter(key: Key, pid: nat)

  /** The processes of a list that wait for a key, in order. */
  function WaitingFor(list: seq<Waiter>, key: Key): seq<nat> {
    if list == [] then []
    else (if list[0].key == key then [list[0].pid] else []) + WaitingFor(list[1..], key)
  }

  /** The list without the first waiter for a key. */
  function WithoutFirst(list: seq<Waiter>, key: Key): seq<Waiter> {
    if list == [] then [] else if list[0].key == key then list[1..] else [list[0]] + WithoutFirst(list[1..], key)
  }

  function Without(list: seq<Waiter>, key: Key): seq<Waiter> {
    if list == [] then [] else (if list[0].key == key then [] else [list[0]]) + Without(list[1..], key)
  }

  lemma {:induction false} WaitingPush(list: seq<Waiter>, w: Waiter, key: Key)
    ensures WaitingFor(list + [w], key) == WaitingFor(list, key) + if w.key == key then [w.pid] else []
  {
    if list == [] {
      assert [] + [w] == [w] && [w][1..] == [];
    } else {
      WaitingPush(list[1..], w, key);
      assert (list + [w])[1..] == list[1..] + [w];
    }
  }

  lemma {:induction false} WaitingWithoutFirst(list: seq<Waiter>, k: Key, key: Key)
    ensures var q := WaitingFor(list, key);
            WaitingFor(WithoutFirst(list, k), key) == if k == key && q != [] then q[1..] else q
  {
    if list != [] {
      WaitingWithoutFirst(list[1..], k, key);
      if list[0].key != k {
        var rest := WithoutFirst(list[1..], k);
        assert ([list[0]] + rest)[1..] == rest;
      }
    }
  }

  lemma {:induction false} WaitingWithout(list: seq<Waiter>, k: Key, key: Key)
    ensures WaitingFor(Without(list, k), key) == if k == key then [] else WaitingFor(list, key)
  {
    if list != [] {
      WaitingWithout(list[1..], k, key);
      var rest := Without(list[1..], k);
      assert [] + rest == rest && ([list[0]] + rest)[1..] == rest;
    }
  }

  datatype Op = PushOp(key: Key, pid: nat) | PopOp(key: Key) | PopAllOp(key: Key)

  function Next(list: seq<Waiter>, op: Op): seq<Waiter> {
    match op
    case PushOp(key, pid) => list + [Waiter(key, pid)]
    case PopOp(key) => WithoutFirst(list, key)
    case PopAllOp(key) => Without(list, key)
  }

  /** Who is woken. */
  function Woken(list: seq<Waiter>, op: Op): seq<nat> {
    match op
    case PushOp(_, _) => []
    case PopOp(key) => var q := WaitingFor(list, key); if q == [] then [NO_WAITER] else [q[0]]
    case PopAllOp(key) => WaitingFor(list, key)
  }

  function AllWoken(list: seq<Waiter>, ops: seq<Op>): seq<seq<nat>>
    decreases |ops|
  {
    if ops == [] then [] else [Woken(list, ops[0])] + AllWoken(Next(list, ops[0]), ops[1..])
  }

  /** The table holds, for every key, those of the list that wait for it. */
  ghost predicate Lists(t: WaitTable, list: seq<Waiter>)
    requires t.Valid()
    reads t, t.buckets
  {
    forall key :: t.Queue(key) == WaitingFor(list, key)
  }

  method Perform(t: WaitTable, ghost list: seq<Waiter>, op: Op) returns (woken: seq<nat>)
    requires t.Valid() && Lists(t, list)
    modifies t.buckets
    ensures t.Valid() && Lists(t, Next(list, op))
    ensures woken == Woken(list, op)
  {
    hide WaitingFor, WithoutFirst, Without;
    match op {
      case PushOp(key, pid) =>
        t.Push(key, pid);
        woken := [];
        forall k ensures t.Queue(k) == WaitingFor(Next(list, op), k) {
          WaitingPush(list, Waiter(key, pid), k);
          assert WaitingFor(list, k) + [] == WaitingFor(list, k);
        }
      case PopOp(key) =>
        ghost var q := t.Queue(key);
        var pid := t.PopOne(key);
        woken := [pid];
        forall k ensures t.Queue(k) == WaitingFor(Next(list, op), k) {
          WaitingWithoutFirst(list, key, k);
          if q != [] && k == key { assert ([pid] + t.Queue(key))[1..] == t.Queue(key); }
        }
        if q != [] { assert ([pid] + t.Queue(key))[0] == pid; }
      case PopAllOp(key) =>
        woken := t.PopAll(key);
        forall k ensures t.Queue(k) == WaitingFor(Next(list, op), k) { WaitingWithout(list, key, k); }
    }
  }

  /** In every run the table wakes processes as one list of waiters in order of arrival
      would: each waiter once, first come first served among those of its key. */
  method RunTable(ops: seq<Op>) returns (woken: seq<seq<nat>>)
    ensures woken == AllWoken([], ops)
  {
    hide Woken, Next, Lists;
    var t := new WaitTable();
    woken := [];
    ghost var list: seq<Waiter> := [];
    NobodyWaits(t);
    assert ops[0..] == ops;
    for i := 0 to |ops|
      invariant t.Valid() && fresh(t) && fresh(t.buckets) && Lists(t, list)
      invariant AllWoken([], ops) == woken + AllWoken(list, ops[i..])
    {
      assert ops[i..][1..] == ops[i + 1..];
      var w := Perform(t, list, ops[i]);
      woken := woken + [w];
      list := Next(list, ops[i]);
    }
  }

  lemma NobodyWaits(t: WaitTable)
    requires t.Valid() && forall key :: t.Queue(key) == []
    ensures Lists(t, [])
  {
  }
}
