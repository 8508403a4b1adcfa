/**
 Runs of the native allocator: whatever is allocated, stored, freed and reallocated, each
 block holds its own bytes and no two blocks overlap.
 */
module RawRuns {
  import opened Basics
  import opened HeapTypes
  import opened RawAllocator

  /** The outstanding blocks with their bytes, and which of them came from the host one by
      one. */
  datatype Held = Held(memory: map<Ptr, seq<Byte>>, large: set<Ptr>)

  /** The operations, with what the host answers to requests for memory. */
  datatype Op =
    | AllocOp(size: nat, osChunk: Ptr, osBlock: Ptr)
    | FreeOp(p: Ptr)
    | ReallocOp(p: Ptr, size: nat, osChunk: Ptr, osBlock: Ptr)
    | LoadOp(p: Ptr, i: nat)
    | StoreOp(p: Ptr, i: nat, b: Byte)

  datatype Answer = Done | Loaded(b: Byte) | Freed(ok: bool) | Got(p: Ptr, n: nat, big: bool)

  /** A new zeroed block of n bytes. */
  function Added(s: Held, ans: Answer): Held {
    if !ans.Got? || ans.p == 0 then s
    else Held(s.memory[ans.p := Zeros(ans.n)], if ans.big then s.large + {ans.p} else s.large)
  }

  function Removed(s: Held, p: Ptr): Held { Held(s.memory - {p}, s.large - {p}) }

  /** The blocks after an operation. */
  function Next(s: Held, op: Op, ans: Answer): Held {
    match op
    case AllocOp(_, _, _) => Added(s, ans)
    case FreeOp(p) => Removed(s, p)
    case ReallocOp(p, size, _, _) =>
      if size == 0 then Removed(s, p)
      else if p !in s.large then Added(s, ans)
      else if !ans.Got? || ans.p == 0 || p !in s.memory then s
      else Held((s.memory - {p})[ans.p := Resized(s.memory[p], size)], s.large - {p} + {ans.p})
    case StoreOp(p, i, b) => if p in s.memory && i < |s.memory[p]|
      then s.(memory := s.memory[p := Written(s.memory[p], i, b)]) else s
    case LoadOp(_, _) => s
  }

  /** What the caller may rely on: a new block was not outstanding and is large enough, a
      block is freed exactly if it was outstanding, and bytes are those stored. */
  predicate Right(s: Held, op: Op, ans: Answer) {
    match op
    case AllocOp(size, _, osBlock) => NewBlock(s, size, osBlock, ans)
    case FreeOp(p) => ans.Freed? && (ans.ok <==> p in s.memory)
    case ReallocOp(p, size, _, osBlock) => if size == 0 then ans.Got? && ans.p == 0 else NewBlock(s, size, osBlock, ans)
    case LoadOp(p, i) => ans.Loaded? && p in s.memory && i < |s.memory[p]| && ans.b == s.memory[p][i]
    case StoreOp(_, _, _) => ans == Done
  }

  predicate NewBlock(s: Held, size: nat, osBlock: Ptr, ans: Answer) {
    ans.Got? && (if ans.p == 0 then size == 0 || osBlock == 0 else ans.p !in s.memory && ans.n >= size > 0)
  }

  ghost function Now(a: Allocator): Held
    reads a
  {
    Held(a.memory, a.large.Keys)
  }

  /** The host answers with memory that is not in use, bytes are accessed inside blocks,
      and what is freed is outstanding or no slab memory. */
  predicate Legal(a: Allocator, op: Op)
    reads a
  {
    match op
    case AllocOp(size, osChunk, osBlock) => HostOk(a, size, osChunk, osBlock)
    case FreeOp(p) => p in a.memory || !InChunks(a.chunks, p)
    case ReallocOp(p, size, osChunk, osBlock) =>
      if size == 0 then p in a.memory || !InChunks(a.chunks, p) else HostOk(a, size, osChunk, osBlock)
    case LoadOp(p, i) => p in a.memory && i < |a.memory[p]|
    case StoreOp(p, i, _) => p in a.memory && i < |a.memory[p]|
  }

  predicate HostOk(a: Allocator, size: nat, osChunk: Ptr, osBlock: Ptr)
    reads a
  {
    (osChunk == 0 || Unused(a.chunks, a.large, osChunk, 65536))
      && (osBlock == 0 || Unused(a.chunks, a.large, osBlock, size))
  }

  method PerformAlloc(a: Allocator, op: Op) returns (ans: Answer)
    requires op.AllocOp? && a.Valid() && Legal(a, op)
    modifies a
    ensures a.Valid() && Right(old(Now(a)), op, ans) && Now(a) == Next(old(Now(a)), op, ans)
  {
    hide Inv, Total, Unused, ChunksOk, SlabSize, Zeros;
    a.StillUsable();
    a.Keys();
    var p := a.Alloc(op.size, if op.size == 0 then 0 else op.osChunk, if op.size == 0 then 0 else op.osBlock);
    a.Keys();
    ans := Got(p, if p == 0 then 0 else |a.memory[p]|, p in a.large);
  }

  method PerformFree(a: Allocator, op: Op) returns (ans: Answer)
    requires op.FreeOp? && a.Valid() && Legal(a, op)
    modifies a
    ensures a.Valid() && Right(old(Now(a)), op, ans) && Now(a) == Next(old(Now(a)), op, ans)
  {
    hide Inv, Total, ChunksOk;
    a.StillUsable();
    a.Keys();
    var ok := a.Free(op.p);
    ans := Freed(ok);
  }

  method PerformRealloc(a: Allocator, op: Op) returns (ans: Answer)
    requires op.ReallocOp? && a.Valid() && Legal(a, op)
    modifies a
    ensures a.Valid() && Right(old(Now(a)), op, ans) && Now(a) == Next(old(Now(a)), op, ans)
  {
    hide Inv, Total, Unused, ChunksOk, SlabSize, Zeros, Resized;
    a.StillUsable();
    a.Keys();
    var r := a.Realloc(op.p, op.size, if op.size == 0 then 0 else op.osChunk, if op.size == 0 then 0 else op.osBlock);
    a.Keys();
    ans := Got(r, if r == 0 then 0 else |a.memory[r]|, r in a.large);
  }

  method Perform(a: Allocator, op: Op) returns (ans: Answer)
    requires a.Valid() && Legal(a, op)
    modifies a
    ensures a.Valid() && Right(old(Now(a)), op, ans) && Now(a) == Next(old(Now(a)), op, ans)
  {
    hide Inv, Total, Unused, ChunksOk;
    match op {
      case AllocOp(_, _, _) => ans := PerformAlloc(a, op);
      case FreeOp(_) => ans := PerformFree(a, op);
      case ReallocOp(_, _, _, _) => ans := PerformRealloc(a, op);
      case LoadOp(p, i) => ans := Loaded(a.memory[p][i]);
      case StoreOp(p, i, b) =>
        a.Store(p, i, b);
        ans := Done;
    }
  }

  /** No two outstanding blocks share a byte. */
  ghost predicate AllApart(memory: map<Ptr, seq<Byte>>) {
    forall p, q :: p in memory && q in memory && p != q ==> Apart(p, |memory[p]|, q, |memory[q]|)
  }

  lemma ValidApart(a: Allocator)
    requires a.Valid()
    ensures AllApart(a.memory)
  {
    hide Inv, Total;
    forall p, q | p in a.memory && q in a.memory && p != q ensures Apart(p, |a.memory[p]|, q, |a.memory[q]|) {
      BlocksApart(a.chunks, a.free, a.large, a.blocks, p, q);
    }
  }

  /** Over every run of legal operations each answer is right for the blocks as they were,
      the blocks change as the operations say, and they never overlap. */
  method RunAllocator(slabs: bool, ops: seq<Op>)
    returns (a: Allocator, n: nat, answers: seq<Answer>, ghost held: seq<Held>)
    ensures fresh(a) && a.Valid() && AllApart(a.memory)
    ensures |answers| == n <= |ops| && |held| == n + 1 && held[0] == Held(map[], {}) && held[n] == Now(a)
    ensures n < |ops| ==> !Legal(a, ops[n])
    ensures forall i :: 0 <= i < n ==>
              Right(held[i], ops[i], answers[i]) && held[i + 1] == Next(held[i], ops[i], answers[i])
    ensures forall i :: 0 <= i <= n ==> AllApart(held[i].memory)
  {
    hide Inv, Total, Right, Next, Legal, AllApart;
    a := new Allocator(slabs);
    n, answers, held := 0, [], [Now(a)];
    ValidApart(a);
    while n < |ops|
      invariant fresh(a) && a.Valid() && AllApart(a.memory)
      invariant |answers| == n <= |ops| && |held| == n + 1 && held[0] == Held(map[], {}) && held[n] == Now(a)
      invariant forall i :: 0 <= i < n ==>
                  Right(held[i], ops[i], answers[i]) && held[i + 1] == Next(held[i], ops[i], answers[i])
      invariant forall i :: 0 <= i <= n ==> AllApart(held[i].memory)
    {
      if !Legal(a, ops[n]) { return; }
      var ans := Perform(a, ops[n]);
      ValidApart(a);
      n, answers, held := n + 1, answers + [ans], held + [Now(a)];
    }
  }
}
