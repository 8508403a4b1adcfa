/**
 Runs of the whole heap: what its operations keep when they are composed, and the run
 of an allocation of no bytes that ends in a destroyed header.
 */
module HeapRuns {
  import opened Basics
  import opened HeapTypes
  import opened Handles
  import opened OldGen
  import opened Reachability
  import opened Evacuation
  import opened TraceOrder
  import opened GcHeap
  import PM = PtrHandleMap

  // ----- the table of a consistent heap -----

  /** The free list holds exactly the slots that are not live, once each; live handles
      have distinct addresses; and handle_for_ptr and deref invert each other. */
  ghost predicate TableExact(t: Table) {
    && (forall h :: 1 <= h < |t.handles| ==> (h in t.free <==> !IsLiveHandle(t, h)))
    && (forall i, j :: 0 <= i < j < |t.free| ==> t.free[i] != t.free[j])
    && (forall g, h :: IsLiveHandle(t, g) && IsLiveHandle(t, h) && g != h ==> AddrOf(t, g) != AddrOf(t, h))
    && (forall h: Handle, p: Ptr :: h < SHARED_HANDLE_BIT && p != 0 ==> (HandleForPtr(t, p) == h <==> Deref(t, h) == p))
  }

  lemma InvIsExact(t: Table)
    requires Inv(t)
    ensures TableExact(t)
  {
    forall g, h | IsLiveHandle(t, g) && IsLiveHandle(t, h) && g != h ensures AddrOf(t, g) != AddrOf(t, h) {
      LiveHandlesDistinct(t, g, h);
    }
    forall h: Handle, p: Ptr | h < SHARED_HANDLE_BIT && p != 0 ensures HandleForPtr(t, p) == h <==> Deref(t, h) == p {
      HandleForPtrInverts(t, h, p);
    }
  }

  // ----- the objects of a program -----

  /** What a program knows of its heap: the bytes that it asked for, by handle. */
  type Objects = map<Handle, seq<Byte>>

  /** The live handles are those of m, and each object begins with the bytes of m; what
      follows them is padding. */
  ghost predicate Represents(s: Shot, m: Objects) {
    && (forall h :: h in m <==> IsLiveHandle(s.t, h))
    && (forall h :: h in m ==> AddrOf(s.t, h) in s.pay && m[h] <= s.pay[AddrOf(s.t, h)])
  }

  /** The operations of a program on its heap; the handles that root scans find are
      given with the operations that scan. */
  datatype Op =
    | AllocOp(size: nat, scanned: seq<Handle>, pinned: seq<Handle>, roots: seq<Handle>)
    | PinnedOp(size: nat)
    | LoadOp(h: Handle, i: nat)
    | StoreOp(h: Handle, i: nat, b: Byte)
    | BarrierOp(h: Handle)
    | AddRefOp(h: Handle)
    | ReleaseRefOp(h: Handle)
    | DropOp(h: Handle)
    | RegisterOp(i: nat, v: nat)
    | StackOp(words: seq<nat>)
    | AllocWeakOp(target: Handle)
    | DerefWeakOp(idx: nat)
    | FreeWeakOp(idx: nat)
    | CollectOp(scanned: seq<Handle>, pinned: seq<Handle>, roots: seq<Handle>)
    | MajorOp(roots: seq<Handle>)

  /** What the program gets to know; kept are the handles that a collection left live. */
  datatype Answer =
    | Done
    | Loaded(b: Byte)
    | Allocated(h: Handle, kept: set<Handle>)
    | Remaining(kept: set<Handle>)
    | WeakAt(idx: nat)
    | WeakIs(h: Handle)

  function Restrict(m: Objects, kept: set<Handle>): Objects { map h | h in m && h in kept :: m[h] }

  /** The objects after an operation. */
  function Next(ext: map<Handle, nat>, m: Objects, op: Op, ans: Answer): Objects {
    match op
    case StoreOp(h, i, b) => if h in m && i < |m[h]| then m[h := Written(m[h], i, b)] else m
    case DropOp(h) => if Pinned(ext, h) then m else m - {h}
    case AllocOp(size, _, _, _) => if ans.Allocated? then Added(Restrict(m, ans.kept), ans.h, size) else m
    case PinnedOp(size) => if ans.Allocated? then Added(m, ans.h, size) else m
    case CollectOp(_, _, _) => if ans.Remaining? then Restrict(m, ans.kept) else m
    case _ => m
  }

  function Added(m: Objects, h: Handle, size: nat): Objects { if h == NULL_HANDLE then m else m[h := Zeros(size)] }

  /** A collection keeps the handle of an object that is old, that the roots reach through
      young objects or that a remembered old object names. */
  ghost predicate Keeps(s: Shot, roots: seq<Handle>, h: Handle) {
    IsLiveHandle(s.t, h) &&
    var a := AddrOf(s.t, h);
    a !in s.ys || YoungReach(s.t, s.pay, s.ys.Keys, roots, a)
      || a in RememberedRefs(s.t, s.pay, s.hs, s.remembered, s.ys.Keys)
  }

  /** Those handles, and no others while only old handles are remembered. */
  ghost predicate KeepsExactly(s: Shot, roots: seq<Handle>, kept: set<Handle>) {
    && (forall h :: Keeps(s, roots, h) ==> h in kept)
    && (forall h :: h in kept ==>
          IsLiveHandle(s.t, h) && (RememberedAreOld(s.t, s.hs, s.remembered) ==> Keeps(s, roots, h)))
  }

  /** The nursery has no room, so that the operation starts with a collection. */
  predicate Collects(s: Shot, op: Op) { op.CollectOp? || (op.AllocOp? && s.room < RoundUp8(HEADER + op.size)) }

  /** The answers of a heap that holds the objects of m: bytes as they were stored, new
      handles for new objects, and the handles that a collection keeps. */
  ghost predicate Right(s: Shot, m: Objects, op: Op, ans: Answer) {
    match op
    case LoadOp(h, i) => ans.Loaded? && (h in m && i < |m[h]| ==> ans.b == m[h][i])
    case AllocOp(_, scanned, pinned, _) =>
      && ans.Allocated? && (ans.h != NULL_HANDLE ==> ans.h !in Restrict(m, ans.kept))
      && (if Collects(s, op) then KeepsExactly(s, scanned + pinned, ans.kept)
          else ans.kept == m.Keys && ans.h != NULL_HANDLE)
    case PinnedOp(_) => ans.Allocated? && ans.h !in m && ans.kept == m.Keys
    case CollectOp(scanned, pinned, _) => ans.Remaining? && KeepsExactly(s, scanned + pinned, ans.kept)
    case AllocWeakOp(_) => ans.WeakAt? && FirstUnused(s.weak, ans.idx)
    case DerefWeakOp(idx) => ans == WeakIs(WeakTarget(s.weak, idx))
    case _ => ans == Done
  }

  lemma KeptHandles(s: Shot, young: seq<Handle>, roots: seq<Handle>, threshold: nat, c: Trail, kept: set<Handle>)
    requires CollectDone(s, young, roots, threshold, c, Clean)
    requires forall h :: h in kept <==> IsLiveHandle(c.after.t, h)
    ensures KeepsExactly(s, young, kept)
  {
    hide CopiesOk, SlotsKept, RefGraph, OldGen.LiveBytes, Collected, AllReached, YoungReach, RememberedRefs,
         RememberedAreOld;
    forall h: Handle ensures Keeps(s, young, h) ==> h in kept
      ensures h in kept ==> IsLiveHandle(s.t, h) && (RememberedAreOld(s.t, s.hs, s.remembered) ==> Keeps(s, young, h))
    {
      if h < |s.t.handles| { FateOf(s, young, c.moves, c.fwd, c.mid, h); }
    }
  }

  lemma FateOf(s: Shot, young: seq<Handle>, moves: seq<Ptr>, fwd: Forward, mid: Shot, h: Handle)
    requires MinorDone(s, young, moves, fwd, {}, mid) && h < |s.t.handles|
    ensures Keeps(s, young, h) ==> IsLiveHandle(mid.t, h)
    ensures IsLiveHandle(mid.t, h) ==>
              IsLiveHandle(s.t, h) && (RememberedAreOld(s.t, s.hs, s.remembered) ==> Keeps(s, young, h))
  {
    hide CopiesOk, SlotsKept, YoungReach, RememberedRefs, RememberedAreOld, LeavesNursery, MovesOk, MovesFollow,
         OrderIn, Short, WordsForwarded;
  }

  /** A minor collection with room keeps the bytes of what it keeps. */
  lemma MinorRepresents(s: Shot, young: seq<Handle>, moves: seq<Ptr>, fwd: Forward, mid: Shot, m: Objects,
                        kept: set<Handle>)
    requires Represents(s, m) && MinorDone(s, young, moves, fwd, {}, mid) && Mapped(s.t, s.ys.Keys + LiveSlots(s.hs))
    requires forall h :: h in kept <==> IsLiveHandle(mid.t, h)
    ensures Represents(mid, Restrict(m, kept))
  {
    hide MinorDone, Mapped;
    MinorKeeps(s, young, moves, fwd, mid, m, kept);
    forall h | h in Restrict(m, kept) ensures AddrOf(mid.t, h) in mid.pay && m[h] <= mid.pay[AddrOf(mid.t, h)] {
      MinorKeepsBytes(s, young, moves, fwd, mid, h);
    }
  }

  lemma MinorKeepsBytes(s: Shot, young: seq<Handle>, moves: seq<Ptr>, fwd: Forward, mid: Shot, h: Handle)
    requires MinorDone(s, young, moves, fwd, {}, mid) && Mapped(s.t, s.ys.Keys + LiveSlots(s.hs))
    requires IsLiveHandle(s.t, h) && IsLiveHandle(mid.t, h) && AddrOf(s.t, h) in s.pay
    ensures AddrOf(mid.t, h) in mid.pay && s.pay[AddrOf(s.t, h)] <= mid.pay[AddrOf(mid.t, h)]
  {
    hide YoungReach, RememberedRefs, RememberedAreOld, LeavesNursery, MovesOk, MovesFollow, OrderIn, Short,
         WordsForwarded;
    assert AddrOf(s.t, h) in s.ys.Keys + LiveSlots(s.hs);
  }

  lemma MinorKeeps(s: Shot, young: seq<Handle>, moves: seq<Ptr>, fwd: Forward, mid: Shot, m: Objects, kept: set<Handle>)
    requires Represents(s, m) && MinorDone(s, young, moves, fwd, {}, mid)
    requires forall h :: h in kept <==> IsLiveHandle(mid.t, h)
    ensures forall h :: h in Restrict(m, kept) <==> IsLiveHandle(mid.t, h)
  {
    hide YoungReach, RememberedRefs, RememberedAreOld, LeavesNursery, MovesOk, MovesFollow, OrderIn, Short,
         WordsForwarded, CopiesOk, SlotsKept, Survivors;
    forall h: Handle ensures h in Restrict(m, kept) <==> IsLiveHandle(mid.t, h) {
      if h < |s.t.handles| {}
    }
  }

  lemma MajorRepresents(s: Shot, roots: seq<Handle>, s': Shot, m: Objects)
    requires Represents(s, m) && MajorDone(s, roots, s') && ReachesAll(s, roots) && s.ys.Keys !! s.hs.Keys
    ensures Represents(s', m)
  {
    hide RefGraph, RootAddrs, Reach;
    forall h | h in m ensures AddrOf(s'.t, h) in s'.pay && m[h] <= s'.pay[AddrOf(s'.t, h)] {
      assert AddrOf(s.t, h) in s.ys || (AddrOf(s.t, h) in LiveSlots(s.hs)
                                        && Reach(MajorGraph(s), MajorStart(s, roots), AddrOf(s.t, h)));
    }
  }

  lemma CollectRepresents(s: Shot, young: seq<Handle>, roots: seq<Handle>, threshold: nat, c: Trail, m: Objects,
                          kept: set<Handle>)
    requires Represents(s, m) && CollectDone(s, young, roots, threshold, c, Clean)
             && Mapped(s.t, s.ys.Keys + LiveSlots(s.hs))
    requires forall h :: h in kept <==> IsLiveHandle(c.after.t, h)
    ensures Represents(c.after, Restrict(m, kept)) && c.after.ext == s.ext && c.after.remembered == {}
  {
    hide Represents, MinorDone, ReachesAll, OldGen.LiveBytes, Collected, Mapped, LiveSlots, Survived;
    assert c.lost == {};
    MinorRepresents(s, young, c.moves, c.fwd, c.mid, m, kept);
    EmptyNursery(s, young, c.moves, c.fwd, c.mid);
    if LiveBytes(c.mid.hs) >= threshold {
      MajorRepresents(c.mid, roots, c.after, Restrict(m, kept));
    }
  }

  lemma EmptyNursery(s: Shot, young: seq<Handle>, moves: seq<Ptr>, fwd: Forward, mid: Shot)
    requires MinorDone(s, young, moves, fwd, {}, mid)
    ensures mid.ys.Keys !! mid.hs.Keys && mid.ext == s.ext && mid.remembered == {}
  {
  }

  lemma NewRepresents(s: Shot, h: Handle, size: nat, raw: Ptr, s': Shot, m: Objects)
    requires Represents(s, m) && NewObject(s, h, size, raw, s')
    ensures h !in m && Represents(s', m[h := Zeros(size)]) && s'.ext == s.ext && s'.remembered == s.remembered
  {
    hide Inv, Zeros;
    NewSlotIsFree(s.t);
    NewNames(s.t, raw);
    FreeInRange(s.t);
    forall g: Handle | g != h ensures IsLiveHandle(s'.t, g) <==> IsLiveHandle(s.t, g) { OthersStay(s.t, raw, g); }
    forall g | g in m ensures AddrOf(s'.t, g) in s'.pay && m[g] <= s'.pay[AddrOf(s'.t, g)] {
      OthersStay(s.t, raw, g);
      assert AddrOf(s.t, g) != raw;
    }
  }

  lemma OthersStay(t: Table, raw: Ptr, g: Handle)
    requires Inv(t) && g != NewSlot(t)
    ensures IsLiveHandle(New(t, raw), g) <==> IsLiveHandle(t, g)
    ensures AddrOf(New(t, raw), g) == AddrOf(t, g)
  {
  }

  lemma StoreRepresents(s: Shot, h: Handle, i: nat, b: Byte, s': Shot, m: Objects)
    requires Represents(s, m) && Inv(s.t) && IsLiveHandle(s.t, h)
    requires var a := AddrOf(s.t, h);
             && a in s.pay && i < |s.pay[a]|
             && s' == s.(pay := s.pay[a := Written(s.pay[a], i, b)])
    ensures Represents(s', Next(s.ext, m, StoreOp(h, i, b), Done))
  {
    hide Inv;
    var a, m' := AddrOf(s.t, h), Next(s.ext, m, StoreOp(h, i, b), Done);
    forall g | g in m' ensures AddrOf(s'.t, g) in s'.pay && m'[g] <= s'.pay[AddrOf(s'.t, g)] {
      if g == h { WrittenPrefix(m[h], s.pay[a], i, b); } else { LiveHandlesDistinct(s.t, g, h); }
    }
  }

  lemma WrittenPrefix(p: seq<Byte>, q: seq<Byte>, i: nat, b: Byte)
    requires p <= q && i < |q|
    ensures (if i < |p| then Written(p, i, b) else p) <= Written(q, i, b)
  {
  }

  lemma DropRepresents(s: Shot, h: Handle, s': Shot, m: Objects)
    requires Represents(s, m) && s' == s.(t := Release(s.t, s.ext, h))
    ensures Represents(s', Next(s.ext, m, DropOp(h), Done))
  {
    var t' := s'.t;
    forall g: Handle ensures IsLiveHandle(t', g) <==> IsLiveHandle(s.t, g) && (g != h || Pinned(s.ext, h)) {}
    forall g | IsLiveHandle(t', g) ensures AddrOf(t', g) == AddrOf(s.t, g) {}
  }

  // ----- runs -----

  /** Why a run ends: it is complete, an operation was not legal, or a collection or an
      allocation did not end in order. */
  datatype Stop = Finished | NotLegal | Broken(outcome: Outcome)

  ghost predicate Ready(heap: Heap)
    reads heap, heap.handles, heap.handles.ptrToHandle, heap.oldGen
  {
    heap.Consistent() && heap.forwardTable == map[] && forall q :: q in heap.remembered ==> q < |heap.handles.handles|
  }

  lemma ReadyIsExact(heap: Heap)
    requires Ready(heap)
    ensures Inv(heap.handles.State()) && TableExact(heap.handles.State())
  {
    hide Inv, Ok, NurseryOk, Layout, Mapped, PM.PtrTable.Valid;
    InvIsExact(heap.handles.State());
  }

  /** Bytes are loaded and stored inside objects, remembered handles are in the table, and
      no handle is dropped twice. */
  predicate Legal(heap: Heap, op: Op)
    reads heap, heap.handles
  {
    match op
    case AllocOp(_, _, _, _) => |heap.handles.handles| < SHARED_HANDLE_BIT
    case PinnedOp(_) => |heap.handles.handles| < SHARED_HANDLE_BIT
    case LoadOp(h, i) => Inside(heap, h, i)
    case StoreOp(h, i, _) => Inside(heap, h, i)
    case BarrierOp(h) => h < |heap.handles.handles|
    case DropOp(h) =>
      h >= |heap.handles.handles| || Pinned(heap.handles.externalRefs, h) || heap.handles.handles[h].live
    case RegisterOp(i, _) => i < |heap.regs|
    case _ => true
  }

  predicate Inside(heap: Heap, h: Handle, i: nat)
    reads heap, heap.handles
  {
    && h < |heap.handles.handles| && heap.handles.handles[h].live
    && heap.handles.handles[h].addr in heap.payload && i < |heap.payload[heap.handles.handles[h].addr]|
  }

  /** Operations that always end in order. */
  predicate Simple(op: Op) { !op.AllocOp? && !op.PinnedOp? && !op.CollectOp? && !op.MajorOp? }

  /** The heap after such an operation. */
  function After(s: Shot, op: Op, ans: Answer): Shot {
    match op
    case StoreOp(h, i, b) =>
      var a := AddrOf(s.t, h);
      if a in s.pay && i < |s.pay[a]| then s.(pay := s.pay[a := Written(s.pay[a], i, b)]) else s
    case BarrierOp(h) => s.(remembered := s.remembered + {h})
    case AddRefOp(h) => s.(ext := RefAdded(s.ext, h))
    case ReleaseRefOp(h) => s.(ext := RefReleased(s.ext, h))
    case DropOp(h) => s.(t := Release(s.t, s.ext, h))
    case RegisterOp(i, v) => if i < |s.regs| then s.(regs := s.regs[i := v]) else s
    case StackOp(words) => s.(stack := words)
    case AllocWeakOp(target) =>
      if ans.WeakAt? && ans.idx <= |s.weak| then s.(weak := WeakWith(s.weak, ans.idx, WeakEntry(target, true))) else s
    case FreeWeakOp(idx) =>
      if idx < |s.weak| then s.(weak := WeakWith(s.weak, idx, WeakEntry(NULL_HANDLE, false))) else s
    case _ => s
  }

  /** The collection that an operation starts with, if it does. */
  ghost predicate Begun(s: Shot, threshold: nat, op: Op, c: Trail, outcome: Outcome) {
    if Collects(s, op) then CollectDone(s, op.scanned + op.pinned, op.roots, threshold, c, outcome)
    else c.after == s && outcome == Clean
  }

  /** What a request for size bytes leads to: an object, or null if there is no memory. */
  ghost predicate Requested(s: Shot, size: nat, h: Handle, s': Shot) {
    if h == NULL_HANDLE then TooLarge(s, size) && s' == Refused(s) else exists raw :: NewObject(s, h, size, raw, s')
  }

  /** What an operation that ends in order does to the heap. */
  ghost predicate Step(s: Shot, threshold: nat, op: Op, ans: Answer, c: Trail, s': Shot) {
    match op
    case AllocOp(size, _, _, _) =>
      && Begun(s, threshold, op, c, Clean) && ans.Allocated? && Requested(c.after, size, ans.h, s')
      && (ans.h == NULL_HANDLE ==> c.after.room < RoundUp8(HEADER + size))
    case PinnedOp(size) => c.after == s && ans.Allocated? && Requested(s, size, ans.h, s')
    case CollectOp(_, _, _) => Begun(s, threshold, op, c, Clean) && s' == c.after
    case MajorOp(roots) => MajorDone(s, roots, s') && ReachesAll(s, roots)
    case _ => s' == After(s, op, ans)
  }

  /** The heap and the reason when an operation does not end in order: a header that cannot
      hold its size; a header in use destroyed by the object moved last; objects lost for
      which there was no space; handles that dangle after a major collection that did not
      reach what they name. */
  ghost predicate Breaks(s: Shot, threshold: nat, op: Op, c: Trail, s': Shot, outcome: Outcome) {
    match outcome
    case Clean => false
    case Cut =>
      && (op.AllocOp? || op.PinnedOp?) && !Holdable(op.size) && Begun(s, threshold, op, c, Clean)
      && exists raw :: SlotTaken(c.after.hs, s'.hs, raw, op.size)
    case Smashed => Collects(s, op) && SmashDone(s, op.scanned + op.pinned, c) && c.after == s'
    case NoRoom => Collects(s, op) && Begun(s, threshold, op, c, NoRoom) && c.after == s'
    case Dangling =>
      if op.MajorOp? then MajorDone(s, op.roots, s') && !ReachesAll(s, op.roots)
      else Collects(s, op) && Begun(s, threshold, op, c, Dangling) && c.after == s'
  }

  /** One operation that ended in order, on the heap and on the objects of the program. */
  ghost predicate Performed(s: Shot, threshold: nat, m: Objects, op: Op, ans: Answer, c: Trail, s': Shot, m': Objects) {
    && Step(s, threshold, op, ans, c, s') && Right(s, m, op, ans)
    && m' == Next(s.ext, m, op, ans) && Represents(s', m')
  }

  function NoTrail(s: Shot): Trail { Trail([], map[], {}, s, s) }

  method LiveHandles(heap: Heap) returns (live: set<Handle>)
    ensures forall h :: h in live <==> IsLiveHandle(heap.handles.State(), h)
  {
    live := set h | 0 <= h < |heap.handles.handles| && heap.handles.handles[h].live;
  }

  /** An allocation, with the collection that it may start. */
  method PerformAlloc(heap: Heap, op: Op, ghost m: Objects)
    returns (outcome: Outcome, ans: Answer, ghost c: Trail, ghost m': Objects)
    requires op.AllocOp? && Ready(heap) && Legal(heap, op) && Represents(heap.Now(), m)
    modifies heap, heap.handles`handles, heap.handles`freeHandles, heap.handles.ptrToHandle, heap.oldGen
    ensures outcome == Clean ==>
              Ready(heap) && Performed(old(heap.Now()), heap.oldThreshold, m, op, ans, c, heap.Now(), m')
    ensures outcome != Clean ==> Breaks(old(heap.Now()), heap.oldThreshold, op, c, heap.Now(), outcome)
    ensures outcome == Dangling ==> heap.Valid() && !heap.Consistent()
    ensures heap.oldThreshold == old(heap.oldThreshold)
  {
    hide Inv, Ok, NurseryOk, Layout, Mapped, PM.PtrTable.Valid, LiveSlots, New, Heap.Valid, Heap.Consistent,
         Heap.Collectable, CollectDone, NewObject, Represents, KeepsExactly, AllHarmless, HarmlessMoves, Holdable,
         RoundUp8, NewSlot, Zeros, TooLarge, SlotTaken, SmashDone, Performed;
    ans, m' := Done, m;
    ghost var s := heap.Now();
    heap.CollectableOpen();
    heap.Opened();
    heap.ConsistentIs();
    var h; ghost var raw;
    h, outcome, raw, c := heap.Alloc(op.size, op.scanned, op.pinned, op.roots);
    if outcome != Clean { return; }
    heap.CollectableOpen();
    heap.TableInv();
    var live := LiveHandles(heap);
    var kept := live - {h};
    ans, m' := Allocated(h, kept), m;
    AllocKept(c.after, h, op.size, raw, heap.Now(), kept, live);
    m' := Next(s.ext, m, op, ans);
    AllocPerformed(s, heap.oldThreshold, m, op, h, raw, kept, c, heap.Now());
  }

  lemma AllocPerformed(s: Shot, threshold: nat, m: Objects, op: Op, h: Handle, raw: Ptr, kept: set<Handle>, c: Trail,
                       s': Shot)
    requires op.AllocOp? && Represents(s, m) && Begun(s, threshold, op, c, Clean)
             && Mapped(s.t, s.ys.Keys + LiveSlots(s.hs))
    requires forall g :: g in kept <==> IsLiveHandle(c.after.t, g)
    requires h == NULL_HANDLE ==> Collects(s, op) && c.after.room < RoundUp8(HEADER + op.size)
    requires if h == NULL_HANDLE then TooLarge(c.after, op.size) && s' == Refused(c.after)
             else NewObject(c.after, h, op.size, raw, s')
    ensures Performed(s, threshold, m, op, Allocated(h, kept), c, s', Next(s.ext, m, op, Allocated(h, kept)))
  {
    hide CollectDone, NewObject, Represents, KeepsExactly, RoundUp8, Zeros, TooLarge, Restrict, Mapped, LiveSlots;
    if Collects(s, op) {
      KeptHandles(s, op.scanned + op.pinned, op.roots, threshold, c, kept);
      CollectRepresents(s, op.scanned + op.pinned, op.roots, threshold, c, m, kept);
    } else {
      AllKept(s, m, kept);
    }
    if h != NULL_HANDLE {
      NewRepresents(c.after, h, op.size, raw, s', Restrict(m, kept));
    } else {
      SameObjects(c.after, s', Restrict(m, kept));
    }
  }

  lemma AllKept(s: Shot, m: Objects, kept: set<Handle>)
    requires Represents(s, m) && forall h :: h in kept <==> IsLiveHandle(s.t, h)
    ensures kept == m.Keys && Restrict(m, kept) == m
  {
  }

  /** The handles live after an allocation are those before it and the new one. */
  lemma AllocKept(s: Shot, h: Handle, size: nat, raw: Ptr, s': Shot, kept: set<Handle>, live: set<Handle>)
    requires kept == live - {h} && forall g :: g in live <==> IsLiveHandle(s'.t, g)
    requires if h == NULL_HANDLE then s'.t == s.t && Inv(s.t) else NewObject(s, h, size, raw, s')
    ensures forall g :: g in kept <==> IsLiveHandle(s.t, g)
  {
    hide FreeOk, PtrsOk, Zeros;
    if h != NULL_HANDLE {
      NewSlotIsFree(s.t);
      forall g: Handle | g != h ensures IsLiveHandle(s'.t, g) <==> IsLiveHandle(s.t, g) { OthersStay(s.t, raw, g); }
    }
  }

  method PerformPinned(heap: Heap, op: Op, ghost m: Objects)
    returns (outcome: Outcome, ans: Answer, ghost c: Trail, ghost m': Objects)
    requires op.PinnedOp? && Ready(heap) && Legal(heap, op) && Represents(heap.Now(), m)
    modifies heap, heap.handles`handles, heap.handles`freeHandles, heap.handles.ptrToHandle, heap.oldGen
    ensures outcome == Clean ==>
              Ready(heap) && Performed(old(heap.Now()), heap.oldThreshold, m, op, ans, c, heap.Now(), m')
    ensures outcome != Clean ==>
              outcome == Cut && Breaks(old(heap.Now()), heap.oldThreshold, op, c, heap.Now(), outcome)
    ensures heap.oldThreshold == old(heap.oldThreshold)
  {
    hide Inv, Ok, NurseryOk, Layout, Mapped, PM.PtrTable.Valid, LiveSlots, New, Heap.Valid, Heap.Consistent,
         Heap.Collectable, NewObject, Represents, Holdable, RoundUp8, NewSlot, Zeros, Unused, ApartFromLive, ClassCeil,
         Span, CLASS_SIZES, Restrict, HandleSpace.Valid, OldSpace.Valid, TooLarge, SlotTaken, Performed;
    ghost var s := heap.Now();
    outcome, ans, c, m' := Clean, Done, NoTrail(s), m;
    heap.CollectableOpen();
    heap.TableInv();
    var h; ghost var raw;
    h, raw := heap.AllocPinned(op.size);
    NewNames(s.t, raw);
    heap.CollectableOpen();
    if h != NULL_HANDLE && !Holdable(op.size) { return Cut, ans, c, m; }
    var live := LiveHandles(heap);
    ans := Allocated(h, live - {h});
    AllocKept(s, h, op.size, raw, heap.Now(), live - {h}, live);
    m' := Next(s.ext, m, op, ans);
    PinnedPerformed(s, heap.oldThreshold, m, op, h, raw, live - {h}, heap.Now());
  }

  lemma PinnedPerformed(s: Shot, threshold: nat, m: Objects, op: Op, h: Handle, raw: Ptr, kept: set<Handle>, s': Shot)
    requires op.PinnedOp? && Represents(s, m) && Inv(s.t) && forall g :: g in kept <==> IsLiveHandle(s.t, g)
    requires if h == NULL_HANDLE then TooLarge(s, op.size) && s' == Refused(s) else NewObject(s, h, op.size, raw, s')
    ensures Performed(s, threshold, m, op, Allocated(h, kept), NoTrail(s), s', Next(s.ext, m, op, Allocated(h, kept)))
  {
    hide NewObject, Represents, Zeros, TooLarge, Restrict, Inv;
    NullIsNew(s, m);
    AllKept(s, m, kept);
    if h != NULL_HANDLE {
      NewRepresents(s, h, op.size, raw, s', m);
    } else {
      SameObjects(s, s', m);
    }
  }

  method PerformCollect(heap: Heap, op: Op, ghost m: Objects)
    returns (outcome: Outcome, ans: Answer, ghost c: Trail, ghost m': Objects)
    requires op.CollectOp? && Ready(heap) && Represents(heap.Now(), m)
    modifies heap, heap.handles`handles, heap.handles`freeHandles, heap.handles.ptrToHandle, heap.oldGen
    ensures outcome == Clean ==>
              Ready(heap) && Performed(old(heap.Now()), heap.oldThreshold, m, op, ans, c, heap.Now(), m')
    ensures outcome != Clean ==> Breaks(old(heap.Now()), heap.oldThreshold, op, c, heap.Now(), outcome)
    ensures outcome == Dangling ==> heap.Valid() && !heap.Consistent()
    ensures heap.oldThreshold == old(heap.oldThreshold)
  {
    hide Inv, Ok, NurseryOk, Layout, Mapped, PM.PtrTable.Valid, LiveSlots, Heap.Valid, Heap.Consistent,
         Heap.Collectable, CollectDone, Represents, KeepsExactly, AllHarmless, HarmlessMoves, Restrict, SmashDone;
    ans, m' := Done, m;
    ghost var s := heap.Now();
    heap.CollectableOpen();
    heap.ConsistentIs();
    outcome, c := heap.Collect(op.scanned, op.pinned, op.roots);
    heap.CollectableOpen();
    if outcome != Clean { return; }
    var kept := LiveHandles(heap);
    ans := Remaining(kept);
    KeptHandles(s, op.scanned + op.pinned, op.roots, heap.oldThreshold, c, kept);
    CollectRepresents(s, op.scanned + op.pinned, op.roots, heap.oldThreshold, c, m, kept);
    m' := Next(s.ext, m, op, ans);
  }

  method PerformMajor(heap: Heap, op: Op, ghost m: Objects) returns (outcome: Outcome)
    requires op.MajorOp? && Ready(heap) && Represents(heap.Now(), m)
    modifies heap, heap.handles`handles, heap.handles`freeHandles, heap.handles.ptrToHandle, heap.oldGen
    ensures outcome == Clean ==> Ready(heap)
    ensures outcome == Clean ==> forall c ::
              Performed(old(heap.Now()), heap.oldThreshold, m, op, Done, c, heap.Now(), m)
    ensures outcome != Clean ==> forall c :: Breaks(old(heap.Now()), heap.oldThreshold, op, c, heap.Now(), outcome)
    ensures outcome == if ReachesAll(old(heap.Now()), op.roots) then Clean else Dangling
    ensures outcome == Dangling ==> heap.Valid() && !heap.Consistent()
    ensures heap.oldThreshold == old(heap.oldThreshold)
  {
    hide Inv, Ok, NurseryOk, Layout, Mapped, PM.PtrTable.Valid, LiveSlots, Heap.Valid, Heap.Consistent,
         Heap.Collectable, Represents, ReachesAll, Collected, Survived, MajorDone, SweptWeak;
    ghost var s := heap.Now();
    heap.ConsistentIs();
    heap.MajorGc(op.roots);
    var dangling := heap.AnyDangling();
    if dangling { return Dangling; }
    MajorRepresents(s, op.roots, heap.Now(), m);
    outcome := Clean;
  }

  method PerformAccess(heap: Heap, op: Op, ghost m: Objects) returns (ans: Answer, ghost m': Objects)
    requires (op.LoadOp? || op.StoreOp?) && Ready(heap) && Legal(heap, op) && Represents(heap.Now(), m)
    modifies heap
    ensures Ready(heap) && heap.Now() == After(old(heap.Now()), op, ans)
    ensures Right(old(heap.Now()), m, op, ans) && m' == Next(old(heap.Now()).ext, m, op, ans)
            && Represents(heap.Now(), m')
    ensures heap.oldThreshold == old(heap.oldThreshold)
  {
    hide Inv, Ok, NurseryOk, Layout, Mapped, PM.PtrTable.Valid, LiveSlots, Heap.Valid, Heap.Consistent,
         Heap.Collectable, Represents;
    ans := Done;
    ghost var s := heap.Now();
    heap.CollectableOpen();
    heap.TableInv();
    if op.LoadOp? {
      var b := heap.Load(op.h, op.i);
      ans := Loaded(b);
      LoadRight(s, m, op.h, op.i);
    } else {
      heap.Store(op.h, op.i, op.b);
      StoreRepresents(s, op.h, op.i, op.b, heap.Now(), m);
    }
    m' := Next(s.ext, m, op, ans);
  }

  /** Words of the program and its weak references. */
  method PerformWords(heap: Heap, op: Op) returns (ans: Answer)
    requires op.RegisterOp? || op.StackOp? || op.AllocWeakOp? || op.DerefWeakOp? || op.FreeWeakOp?
    requires Ready(heap) && Legal(heap, op)
    modifies heap
    ensures Ready(heap) && heap.Now() == After(old(heap.Now()), op, ans)
    ensures forall m :: Right(old(heap.Now()), m, op, ans)
    ensures heap.oldThreshold == old(heap.oldThreshold)
  {
    hide Inv, Ok, NurseryOk, Layout, Mapped, PM.PtrTable.Valid, LiveSlots, Heap.Valid, Heap.Consistent,
         Heap.Collectable;
    ans := Done;
    match op {
      case RegisterOp(i, v) => heap.SetRegister(i, v);
      case StackOp(words) => heap.SetStack(words);
      case AllocWeakOp(target) =>
        var idx := heap.AllocWeak(target);
        ans := WeakAt(idx);
      case DerefWeakOp(idx) => ans := WeakIs(heap.DerefWeak(idx));
      case FreeWeakOp(idx) => heap.FreeWeak(idx);
    }
  }

  /** A barrier, a pin or a drop. */
  method PerformTable(heap: Heap, op: Op, ghost m: Objects)
    requires op.BarrierOp? || op.AddRefOp? || op.ReleaseRefOp? || op.DropOp?
    requires Ready(heap) && Legal(heap, op) && Represents(heap.Now(), m)
    modifies heap`remembered, heap.handles`handles, heap.handles`freeHandles, heap.handles`externalRefs,
             heap.handles.ptrToHandle
    ensures Ready(heap) && heap.Now() == After(old(heap.Now()), op, Done)
    ensures Represents(heap.Now(), Next(old(heap.Now()).ext, m, op, Done))
  {
    hide Inv, Ok, NurseryOk, Layout, Mapped, PM.PtrTable.Valid, LiveSlots, Heap.Valid, Heap.Consistent,
         Heap.Collectable, Represents, Release, RefAdded, RefReleased;
    ghost var s := heap.Now();
    heap.CollectableOpen();
    heap.TableInv();
    match op {
      case BarrierOp(h) =>
        heap.WriteBarrier(h);
        SameObjects(s, heap.Now(), m);
      case AddRefOp(h) =>
        heap.AddRef(h);
        SameObjects(s, heap.Now(), m);
      case ReleaseRefOp(h) =>
        heap.ReleaseRef(h);
        SameObjects(s, heap.Now(), m);
      case DropOp(h) =>
        ReleaseKeepsLength(s.t, s.ext, h);
        heap.Drop(h);
        DropRepresents(s, h, heap.Now(), m);
    }
  }

  method PerformSimple(heap: Heap, op: Op, ghost m: Objects) returns (ans: Answer, ghost m': Objects)
    requires Simple(op) && Ready(heap) && Legal(heap, op) && Represents(heap.Now(), m)
    modifies heap, heap.handles`handles, heap.handles`freeHandles, heap.handles`externalRefs, heap.handles.ptrToHandle
    ensures Ready(heap) && heap.Now() == After(old(heap.Now()), op, ans)
    ensures Right(old(heap.Now()), m, op, ans) && m' == Next(old(heap.Now()).ext, m, op, ans)
            && Represents(heap.Now(), m')
    ensures heap.oldThreshold == old(heap.oldThreshold)
  {
    hide Ready, Legal, Represents, Heap.Now;
    ghost var s := heap.Now();
    if op.LoadOp? || op.StoreOp? {
      ans, m' := PerformAccess(heap, op, m);
    } else if op.BarrierOp? || op.AddRefOp? || op.ReleaseRefOp? || op.DropOp? {
      PerformTable(heap, op, m);
      ans, m' := Done, Next(s.ext, m, op, Done);
    } else {
      ans := PerformWords(heap, op);
      m' := m;
      SameObjects(s, heap.Now(), m);
    }
  }

  /** One operation. It answers as the objects say and leaves the heap with the objects
      after it, or it ends for the reason that its outcome names, with the heap that this
      leads to. */
  method Perform(heap: Heap, op: Op, ghost m: Objects)
    returns (outcome: Outcome, ans: Answer, ghost c: Trail, ghost m': Objects)
    requires Ready(heap) && Legal(heap, op) && Represents(heap.Now(), m)
    modifies heap, heap.handles`handles, heap.handles`freeHandles, heap.handles`externalRefs, heap.handles.ptrToHandle,
             heap.oldGen
    ensures outcome == Clean ==>
              Ready(heap) && Performed(old(heap.Now()), heap.oldThreshold, m, op, ans, c, heap.Now(), m')
    ensures outcome != Clean ==> Breaks(old(heap.Now()), heap.oldThreshold, op, c, heap.Now(), outcome)
    ensures outcome == Dangling ==> heap.Valid() && !heap.Consistent()
    ensures Simple(op) ==> outcome == Clean
    ensures op.MajorOp? ==> (outcome == Clean <==> ReachesAll(old(heap.Now()), op.roots))
    ensures KnownBefore(old(heap.Now()), op, outcome)
    ensures heap.oldThreshold == old(heap.oldThreshold)
  {
    hide KnownBefore, Collects, Ready, Legal, Represents, ReachesAll, Breaks, Heap.Now, Heap.Valid, Heap.Consistent,
         After, Right, Next, Requested, Begun, MajorDone;
    ghost var s := heap.Now();
    outcome, ans, c, m' := Clean, Done, NoTrail(s), m;
    if op.AllocOp? {
      outcome, ans, c, m' := PerformAlloc(heap, op, m);
    } else if op.PinnedOp? {
      outcome, ans, c, m' := PerformPinned(heap, op, m);
    } else if op.CollectOp? {
      outcome, ans, c, m' := PerformCollect(heap, op, m);
    } else if op.MajorOp? {
      outcome := PerformMajor(heap, op, m);
    } else {
      ans, m' := PerformSimple(heap, op, m);
    }
    Foretold(s, heap.oldThreshold, m, op, ans, c, heap.Now(), m', outcome);
  }

  /** Whether a collection destroys a header is known before it, without remembered
      objects and with room for what the roots reach. */
  ghost predicate KnownBefore(s: Shot, op: Op, outcome: Outcome) {
    Collects(s, op) && s.remembered == {} && OrderFits(s, op.scanned + op.pinned) ==>
      outcome != NoRoom && (outcome == Smashed <==> !OrderHarmless(s, op.scanned + op.pinned))
  }

  lemma Foretold(s: Shot, threshold: nat, m: Objects, op: Op, ans: Answer, c: Trail, s': Shot, m': Objects,
                 outcome: Outcome)
    requires if outcome == Clean then Performed(s, threshold, m, op, ans, c, s', m')
             else Breaks(s, threshold, op, c, s', outcome)
    ensures KnownBefore(s, op, outcome)
  {
    hide CollectDone, SmashDone, OrderFits, OrderHarmless, Requested, Right, Represents, Next, SlotTaken, RoundUp8;
    if Collects(s, op) {
      OrderDecides(s, op.scanned + op.pinned, op.roots, threshold, c, if outcome == Cut then Clean else outcome);
    }
  }

  lemma NullIsNew(s: Shot, m: Objects)
    requires Represents(s, m) && Inv(s.t)
    ensures NULL_HANDLE !in m
  {
  }

  lemma LoadRight(s: Shot, m: Objects, h: Handle, i: nat)
    requires Represents(s, m)
    ensures h in m && i < |m[h]| ==>
              IsLiveHandle(s.t, h) && AddrOf(s.t, h) in s.pay && i < |s.pay[AddrOf(s.t, h)]|
                && s.pay[AddrOf(s.t, h)][i] == m[h][i]
  {
  }

  lemma SameObjects(s: Shot, s': Shot, m: Objects)
    requires Represents(s, m) && s'.t == s.t && s'.pay == s.pay
    ensures Represents(s', m)
  {
  }

  lemma ReleaseKeepsLength(t: Table, ext: map<Handle, nat>, h: Handle)
    ensures |Release(t, ext, h).handles| == |t.handles|
  {
  }

  /** What a run leaves behind: the heap and the objects before and after each operation,
      and the collections. */
  datatype Log = Log(shots: seq<Shot>, ms: seq<Objects>, trails: seq<Trail>)

  /** The first n operations ended in order, and the handle table stayed consistent. */
  ghost predicate Logged(log: Log, threshold: nat, ops: seq<Op>, answers: seq<Answer>, n: nat) {
    && |log.shots| == |log.ms| == n + 1 && |log.trails| == |answers| == n <= |ops|
    && (forall i :: 0 <= i <= n ==> Inv(log.shots[i].t) && Represents(log.shots[i], log.ms[i]))
    && forall i :: 0 <= i < n ==>
         Performed(log.shots[i], threshold, log.ms[i], ops[i], answers[i], log.trails[i], log.shots[i + 1],
                   log.ms[i + 1])
  }

  /** Over every run of allocations, loads, stores, pins, drops, words, weak references and
      collections: each operation does to the heap what it should and answers as the
      objects say, which change as the operations say; the heap holds them and its handle
      table is exact; and a run that ends early ends in the state and for the reason that
      its outcome names. */
  method RunHeap(heap: Heap, ops: seq<Op>, ghost m0: Objects)
    returns (n: nat, stop: Stop, answers: seq<Answer>, ghost log: Log, ghost last: Trail)
    requires Ready(heap) && Represents(heap.Now(), m0)
    modifies heap, heap.handles`handles, heap.handles`freeHandles, heap.handles`externalRefs, heap.handles.ptrToHandle,
             heap.oldGen
    ensures Logged(log, heap.oldThreshold, ops, answers, n) && log.shots[0] == old(heap.Now()) && log.ms[0] == m0
    ensures !stop.Broken? ==> log.shots[n] == heap.Now() && Ready(heap) && TableExact(heap.handles.State())
    ensures stop == Finished ==> n == |ops|
    ensures stop == NotLegal ==> n < |ops| && !Legal(heap, ops[n])
    ensures stop.Broken? ==>
              n < |ops| && Breaks(log.shots[n], heap.oldThreshold, ops[n], last, heap.Now(), stop.outcome)
    ensures stop == Broken(Dangling) ==> heap.Valid() && !heap.Consistent()
  {
    hide Ready, Legal, TableExact, Performed, Breaks, Represents, Heap.Valid, Heap.Consistent, Inv;
    ReadyIsExact(heap);
    n, answers, log, last := 0, [], Log([heap.Now()], [m0], []), NoTrail(heap.Now());
    while n < |ops|
      invariant Logged(log, heap.oldThreshold, ops, answers, n)
      invariant log.shots[0] == old(heap.Now()) && log.ms[0] == m0 && log.shots[n] == heap.Now()
      invariant Ready(heap) && TableExact(heap.handles.State()) && heap.oldThreshold == old(heap.oldThreshold)
    {
      if !Legal(heap, ops[n]) {
        stop := NotLegal;
        return;
      }
      var outcome, ans; ghost var m;
      outcome, ans, last, m := Perform(heap, ops[n], log.ms[n]);
      if outcome != Clean {
        stop := Broken(outcome);
        return;
      }
      ReadyIsExact(heap);
      PerformedHolds(log.shots[n], heap.oldThreshold, log.ms[n], ops[n], ans, last, heap.Now(), m);
      n, answers, log := n + 1, answers + [ans], Log(log.shots + [heap.Now()], log.ms + [m], log.trails + [last]);
    }
    stop := Finished;
  }

  lemma PerformedHolds(s: Shot, threshold: nat, m: Objects, op: Op, ans: Answer, c: Trail, s': Shot, m': Objects)
    requires Performed(s, threshold, m, op, ans, c, s', m')
    ensures Represents(s', m')
  {
  }

  /** With an old-generation threshold of 0, every minor collection that ends asks for a
      major one. */
  method ZeroThreshold(heap: Heap, scanned: seq<Handle>, pinned: seq<Handle>)
    returns (outcome: Outcome, needMajor: bool)
    requires Ready(heap) && heap.oldThreshold == 0
    modifies heap, heap.handles`handles, heap.handles`freeHandles, heap.handles.ptrToHandle, heap.oldGen
    ensures outcome != Smashed ==> needMajor
  {
    hide Inv, Ok, NurseryOk, Layout, Mapped, PM.PtrTable.Valid, Heap.Consistent, Heap.Collectable, YoungFate, Survivors,
         MayMove, CopiesOk, SlotsKept;
    ghost var fwd, lost;
    outcome, needMajor, fwd, lost := heap.MinorGc(scanned, pinned);
  }

  // ----- objects without bytes -----

  /** The j-th object that a minor collection meets is the first whose forwarding pointer
      does harm: written over the header behind it or past the nursery. The collection
      gets exactly so far, unless the old generation cannot spare what the objects need. */
  method CollectHarmful(heap: Heap, ghost j: nat, scanned: seq<Handle>, pinned: seq<Handle>)
    returns (outcome: Outcome, ghost lost: set<Ptr>)
    requires Ready(heap) && FirstHarm(heap.Now(), scanned + pinned, j)
    modifies heap, heap.handles`handles, heap.handles`freeHandles, heap.handles.ptrToHandle, heap.oldGen
    ensures MovesWithin(heap.moves, old(heap.youngColor.Keys))
    ensures var order := old(OrderIn(heap.Now(), scanned + pinned));
            || (outcome == Smashed && heap.moves == order[..j + 1] && heap.overwritten.Keys == {order[j] + HEADER})
            || Short(old(heap.oldGen.Spare()), old(heap.payload), heap.moves, lost)
  {
    hide Inv, Ok, NurseryOk, Layout, Mapped, PM.PtrTable.Valid, LiveSlots, Heap.Consistent, HarmlessAfter, YoungReach,
         RememberedRefs, Short, OldSpace.Spare, YoungFate, CopiesOk, SlotsKept, MayMove, Heap.Collectable,
         HarmlessMoves, MovesOk, HarmfulLast, MovesFollow, OrderOf, FirstHarm;
    ghost var s := heap.Now();
    var needMajor; ghost var fwd;
    outcome, needMajor, fwd, lost := heap.MinorGc(scanned, pinned);
    WithinYoung(s.t, s.ys.Keys, s.pay, heap.nurseryEnd, heap.moves, fwd);
    StopsAtHarm(s, scanned + pinned, j, heap.moves, lost, s.remembered == {}, outcome != Smashed);
  }

  /** The j-th object in the order of the trace is the first that does harm. */
  ghost predicate FirstHarm(s: Shot, roots: seq<Handle>, j: nat) {
    var order := OrderIn(s, roots);
    && j < |order| && HarmlessMoves(s.t.handles, s.ys.Keys, s.pay, s.end, order[..j])
    && !HarmlessAfter(s.t.handles, s.ys.Keys, s.pay, s.end, order[..j], order[j])
  }

  lemma StopsAtHarm(s: Shot, roots: seq<Handle>, j: nat, moves: seq<Ptr>, lost: set<Ptr>, alone: bool, intact: bool)
    requires FirstHarm(s, roots, j) && MovesFollow(OrderIn(s, roots), moves, lost, alone, intact)
    requires intact <==> HarmlessMoves(s.t.handles, s.ys.Keys, s.pay, s.end, moves)
    requires !intact ==> HarmfulLast(s.t, s.ys.Keys, s.pay, s.end, moves)
    ensures j < |OrderIn(s, roots)|
    ensures lost == {} ==> !intact && moves == OrderIn(s, roots)[..j + 1]
  {
    hide HarmlessAfter, OrderIn;
    var order := OrderIn(s, roots);
    if lost == {} {
      assert |moves| > j ==> moves[..j] == order[..j];
      if !intact { SameStop(s.t, s.ys.Keys, s.pay, s.end, order, j, moves); }
    }
  }

  lemma SameStop(t: Table, young: set<Ptr>, pay: Payloads, end: Ptr, order: seq<Ptr>, j: nat, moves: seq<Ptr>)
    requires j < |order| && HarmlessMoves(t.handles, young, pay, end, order[..j])
    requires !HarmlessAfter(t.handles, young, pay, end, order[..j], order[j])
    requires HarmfulLast(t, young, pay, end, moves) && (moves <= order || order <= moves)
    ensures |moves| == j + 1
  {
    hide HarmlessAfter;
    hide HarmlessMoves;
    var last := |moves| - 1;
    if j < last {
      NoHarmEarlier(t, young, pay, end, moves, last, order, j);
    } else if last < j {
      NoHarmEarlier(t, young, pay, end, order, j, moves, last);
    }
  }

  lemma NoHarmEarlier(t: Table, young: set<Ptr>, pay: Payloads, end: Ptr, moves: seq<Ptr>, i: nat, others: seq<Ptr>,
                      k: nat)
    requires k < i < |moves| && k < |others| && (moves <= others || others <= moves)
    requires HarmlessMoves(t.handles, young, pay, end, moves[..i])
    ensures HarmlessAfter(t.handles, young, pay, end, others[..k], others[k])
  {
    hide HarmlessAfter;
    assert moves[..i][..k] == others[..k] && moves[..i][k] == others[k];
  }

  /** Each at most once, and young. */
  ghost predicate MovesWithin(moves: seq<Ptr>, young: set<Ptr>) {
    Distinct(moves) && forall b :: b in moves ==> b in young
  }

  lemma WithinYoung(t: Table, young: set<Ptr>, pay: Payloads, end: Ptr, moves: seq<Ptr>, fwd: Forward)
    ensures MovesOk(t, young, pay, end, moves, fwd) ==> MovesWithin(moves, young)
    ensures HarmfulLast(t, young, pay, end, moves) ==> MovesWithin(moves, young)
  {
  }

  /** Enough to spare for every young object and one more. */
  lemma NotShort(spare: nat, pay: Payloads, moves: seq<Ptr>, young: set<Ptr>, lost: set<Ptr>, k: nat)
    requires MovesWithin(moves, young) && k * (|young| + 1) <= spare
    requires forall a :: a in pay ==> Need(pay[a]) <= k
    ensures !Short(spare, pay, moves, lost)
  {
    hide Need;
    NeedsAtMost(pay, moves, k);
    DistinctSize(moves);
    SubsetSize(Marked(moves), young);
    TimesGrows(k, |moves|, |young|);
    assert k * (|young| + 1) == k * |young| + k;
  }

  lemma {:induction false} NeedsAtMost(pay: Payloads, moves: seq<Ptr>, k: nat)
    requires forall a :: a in pay ==> Need(pay[a]) <= k
    ensures Needs(pay, moves) <= k * |moves|
  {
    hide Need;
    if moves != [] {
      NeedsAtMost(pay, moves[..|moves| - 1], k);
      assert k * |moves| == k * (|moves| - 1) + k;
    }
  }

  /** A heap with an empty object and one of four bytes behind it; the host grants a block
      at 8192. */
  method TwoObjects() returns (heap: Heap, h1: Handle, h2: Handle)
    ensures fresh(heap) && fresh(heap.handles) && fresh(heap.handles.ptrToHandle) && fresh(heap.oldGen)
    ensures Ready(heap) && heap.nurseryEnd == 4096 && heap.oldGen.Spare() == 65528 && heap.remembered == {}
    ensures heap.handles.externalRefs == map[]
    ensures heap.youngColor.Keys == {1024, 1032} && heap.payload == map[1024 := [], 1032 := Zeros(4)]
    ensures IsLiveHandle(heap.handles.State(), h1) && AddrOf(heap.handles.State(), h1) == 1024
    ensures IsLiveHandle(heap.handles.State(), h2) && AddrOf(heap.handles.State(), h2) == 1032 && h1 != h2
  {
    hide Inv, Ok, NurseryOk, Layout, Mapped, PM.PtrTable.Valid, LiveSlots, Heap.Valid, Heap.Consistent,
         Heap.Collectable, Unused, New, NewSlot, RoundUp8, AllHarmless, NoneEndsAt, NewObject, OldSpace.Spare, Zeros,
         TooLarge;
    EightAndTwelve();
    heap := new Heap(1024, 4096, 65536, [8192]);
    FreshSpare(heap);
    heap.CollectableOpen();
    heap.TableInv();
    NewNames(heap.handles.State(), 1024);
    h1 := heap.AllocYoung(0);
    heap.TableInv();
    NewNames(heap.handles.State(), 1032);
    OtherStays(heap.handles.State(), 1032, h1);
    h2 := heap.AllocYoung(4);
    heap.Opened();
    NoBytes();
    assert heap.payload == map[1024 := [], 1032 := Zeros(4)];
  }

  lemma NoBytes()
    ensures Zeros(0) == []
  {
  }

  lemma FreshSpare(heap: Heap)
    requires heap.oldGen.blocks == [] && heap.oldGen.host == [8192] && heap.oldGen.nurseryHi <= 8192
             && heap.nurseryEnd <= 8192
    ensures heap.oldGen.Spare() == 65528
    ensures forall size :: !TooLarge(heap.Now(), size)
  {
    hide SlotTotal, ClassCeil, RoundUp8, CLASS_SIZES;
  }

  lemma EightAndTwelve()
    ensures RoundUp8(HEADER + 0) == 8 && RoundUp8(HEADER + 4) == 16
  {
  }

  lemma OtherStays(t: Table, raw: Ptr, h: Handle)
    requires Inv(t) && IsLiveHandle(t, h)
    ensures h != NewSlot(t) && IsLiveHandle(New(t, raw), h) && AddrOf(New(t, raw), h) == AddrOf(t, h)
  {
    NewSlotIsFree(t);
  }

  lemma TwoNeeds(pay: Payloads)
    requires pay == map[1024 := [], 1032 := Zeros(4)]
    ensures forall a :: a in pay ==> Need(pay[a]) <= 4096
  {
    EightAndTwelve();
    assert CLASS_SIZES[SMALL_CLASS_COUNT - 1] == 4096;
  }

  /** The object at 1024 does harm as long as a handle names the one behind it. */
  lemma TwoHarm(entries: seq<HandleEntry>, h2: Handle, pay: Payloads)
    requires pay == map[1024 := [], 1032 := Zeros(4)] && h2 < |entries| && entries[h2].live && entries[h2].addr == 1032
    ensures !Harmless(entries, {1024, 1032}, pay, 4096, 1024)
    ensures HarmlessAfter(entries, {1024, 1032}, pay, 4096, [], 1032)
    ensures HarmlessAfter(entries, {1024, 1032}, pay, 4096, [1032], 1024)
  {
    assert 1024 + HEADER == 1032;
    assert Named(entries, 1032);
  }

  lemma FirstIsHarmful(s: Shot, roots: seq<Handle>)
    requires roots != [] && IsLiveHandle(s.t, roots[0]) && AddrOf(s.t, roots[0]) in s.ys
    requires !Harmless(s.t.handles, s.ys.Keys, s.pay, s.end, AddrOf(s.t, roots[0]))
    ensures FirstHarm(s, roots, 0) && OrderIn(s, roots)[0] == AddrOf(s.t, roots[0])
  {
    hide OrderOf;
    OrderFirst(s.t, s.pay, s.ys.Keys, roots);
    assert OrderIn(s, roots)[..0] == [];
  }

  /** alloc(0), alloc(4), minor_gc: the forwarding pointer of the first object lands on
      the header of the second. */
  method EmptyObjectRun() returns (outcome: Outcome, header: Ptr, destroyed: set<Ptr>)
    ensures outcome == Smashed && destroyed == {header}
  {
    hide Inv, Ok, NurseryOk, Layout, Mapped, PM.PtrTable.Valid, LiveSlots, Heap.Valid, Heap.Consistent,
         Heap.Collectable, Harmless, HarmlessAfter, Short, OldSpace.Spare, MovesWithin, Zeros, Need;
    var heap, h1, h2 := TwoObjects();
    header := heap.handles.handles[h2].addr;
    ghost var pay, young, spare := heap.payload, heap.youngColor.Keys, heap.oldGen.Spare();
    TwoHarm(heap.handles.handles, h2, pay);
    TwoNeeds(pay);
    ghost var lost;
    var roots := [h1, h2];
    assert roots + [] == roots;
    FirstIsHarmful(heap.Now(), roots);
    outcome, lost := CollectHarmful(heap, 0, roots, []);
    assert |young| == 2;
    NotShort(spare, pay, heap.moves, young, lost, 4096);
    destroyed := heap.overwritten.Keys;
  }

  /** The same objects with the roots in the other order: the second has left before the
      pointer lands on its header, and both survive. */
  method EmptyObjectLast() returns (outcome: Outcome, both: bool)
    ensures outcome == Clean && both
  {
    hide Inv, Ok, NurseryOk, Layout, Mapped, PM.PtrTable.Valid, LiveSlots, Heap.Valid, Heap.Consistent,
         Heap.Collectable, Harmless, HarmlessAfter, Short, OldSpace.Spare, MovesWithin, Zeros, Need, HarmlessMoves,
         MovesOk, HarmfulLast, YoungReach, RememberedRefs, RememberedAreOld, CopiesOk, SlotsKept, MayMove, YoungFate,
         Survivors;
    var heap, h1, h2 := TwoObjects();
    ghost var t, pay, young, spare := heap.handles.State(), heap.payload, heap.youngColor.Keys, heap.oldGen.Spare();
    ghost var hs := heap.oldGen.headers;
    TwoHarm(heap.handles.handles, h2, pay);
    TwoNeeds(pay);
    var needMajor; ghost var fwd, lost;
    var roots := [h2, h1];
    outcome, needMajor, fwd, lost := heap.MinorGc(roots, []);
    assert roots + [] == roots;
    WithinYoung(t, young, pay, heap.nurseryEnd, heap.moves, fwd);
    assert |young| == 2;
    NotShort(spare, pay, heap.moves, young, lost, 4096);
    OrderFirst(t, pay, young, roots);
    if outcome == Smashed { LastIsHarmless(t, pay, heap.moves); }
    RootIsReached(t, pay, young, roots, h1);
    RootIsReached(t, pay, young, roots, h2);
    ReachedStay(t, young, pay, hs, roots, {}, heap.handles.State(), fwd, h1);
    ReachedStay(t, young, pay, hs, roots, {}, heap.handles.State(), fwd, h2);
    both := h1 < |heap.handles.handles| && heap.handles.handles[h1].live && h2 < |heap.handles.handles|
      && heap.handles.handles[h2].live;
  }

  /** alloc(0), alloc(4), drop of the second, minor_gc: nobody reads the header that the
      pointer lands on. */
  method EmptyObjectAlone() returns (outcome: Outcome, alive: bool)
    ensures outcome == Clean && alive
  {
    hide Inv, Ok, NurseryOk, Layout, Mapped, PM.PtrTable.Valid, LiveSlots, Heap.Valid, Heap.Consistent,
         Heap.Collectable, Harmless, HarmlessAfter, Short, OldSpace.Spare, MovesWithin, Zeros, Need, HarmlessMoves,
         MovesOk, HarmfulLast, YoungReach, RememberedRefs, RememberedAreOld, CopiesOk, SlotsKept, MayMove, YoungFate,
         Survivors, Release, AllHarmless;
    var heap, h1, h2 := TwoObjects();
    heap.CollectableOpen();
    heap.TableInv();
    DroppedAlone(heap.handles.State(), heap.handles.externalRefs, h1, h2, heap.payload);
    heap.Drop(h2);
    heap.CollectableOpen();
    ghost var t, pay, young, spare := heap.handles.State(), heap.payload, heap.youngColor.Keys, heap.oldGen.Spare();
    ghost var hs := heap.oldGen.headers;
    TwoNeeds(pay);
    var needMajor; ghost var fwd, lost;
    var roots := [h1];
    outcome, needMajor, fwd, lost := heap.MinorGc(roots, []);
    assert roots + [] == roots;
    WithinYoung(t, young, pay, heap.nurseryEnd, heap.moves, fwd);
    assert |young| == 2;
    NotShort(spare, pay, heap.moves, young, lost, 4096);
    RootIsReached(t, pay, young, roots, h1);
    ReachedStay(t, young, pay, hs, roots, {}, heap.handles.State(), fwd, h1);
    alive := h1 < |heap.handles.handles| && heap.handles.handles[h1].live;
  }

  lemma DroppedAlone(t: Table, ext: map<Handle, nat>, h1: Handle, h2: Handle, pay: Payloads)
    requires IsLiveHandle(t, h1) && AddrOf(t, h1) == 1024 && IsLiveHandle(t, h2) && AddrOf(t, h2) == 1032 && h1 != h2
    requires Inv(t) && ext == map[] && pay == map[1024 := [], 1032 := Zeros(4)]
    ensures var t' := Release(t, ext, h2);
            && IsLiveHandle(t', h1) && AddrOf(t', h1) == 1024 && |t'.handles| == |t.handles|
            && AllHarmless(t'.handles, {1024, 1032}, pay, 4096)
  {
    hide Inv;
    var es := Release(t, ext, h2).handles;
    if Named(es, 1032) {
      var g :| 0 <= g < |es| && es[g].live && es[g].addr == 1032;
      assert g != h2 && IsLiveHandle(t, g) && AddrOf(t, g) == 1032;
      LiveHandlesDistinct(t, g, h2);
    }
    assert !Named(es, 1032);
    forall a | NamedYoung(es, {1024, 1032}, a) ensures Harmless(es, {1024, 1032}, pay, 4096, a) {
      assert a == 1024;
    }
  }

  lemma ReachedStay(t: Table, young: set<Ptr>, pay: Payloads, hs: Headers, roots: seq<Handle>, remembered: set<Handle>,
                    t': Table, fwd: Forward, h: Handle)
    requires YoungFate(t, young, pay, roots, t', fwd) && IsLiveHandle(t, h)
    requires AddrOf(t, h) in young && YoungReach(t, pay, young, roots, AddrOf(t, h))
    ensures IsLiveHandle(t', h)
  {
    hide YoungReach;
  }

  lemma LastIsHarmless(t: Table, pay: Payloads, moves: seq<Ptr>)
    requires MovesWithin(moves, {1024, 1032}) && moves != [] && moves[0] == 1032
    requires HarmlessAfter(t.handles, {1024, 1032}, pay, 4096, [], 1032)
    requires HarmlessAfter(t.handles, {1024, 1032}, pay, 4096, [1032], 1024)
    ensures HarmlessMoves(t.handles, {1024, 1032}, pay, 4096, moves)
  {
    hide HarmlessAfter;
    DistinctSize(moves);
    SubsetSize(Marked(moves), {1024, 1032});
    assert |{1024, 1032}| == 2;
    assert moves[..0] == [];
    if |moves| == 2 {
      assert moves[1] in moves && moves[1] != 1032;
      assert moves[..1] == [1032];
    }
  }

  lemma RootIsReached(t: Table, pay: Payloads, young: set<Ptr>, roots: seq<Handle>, h: Handle)
    requires h in roots && IsLiveHandle(t, h) && AddrOf(t, h) in young
    ensures YoungReach(t, pay, young, roots, AddrOf(t, h))
  {
    var i :| 0 <= i < |roots| && roots[i] == h;
    assert AddrOf(t, roots[i]) in RootAddrs(t, roots, young);
    ReachRoot(YoungGraph(t, pay, young), RootAddrs(t, roots, young), AddrOf(t, h));
  }

  /** alloc_pinned of 2^32 bytes: the header says that the object has no bytes. */
  method HugeObjectRun() returns (h: Handle, said: nat)
    ensures h != NULL_HANDLE && said == 0
  {
    hide Inv, Ok, NurseryOk, Layout, Mapped, PM.PtrTable.Valid, LiveSlots, Heap.Valid, Heap.Consistent,
         Heap.Collectable, Unused, New, NewSlot, ClassCeil, ApartFromLive, NewObject, OldSpace.Spare, TooLarge,
         SlotTotal, CLASS_SIZES;
    var heap := new Heap(1024, 4096, 65536, [8192]);
    FreshSpare(heap);
    heap.CollectableOpen();
    heap.TableInv();
    ghost var raw;
    h, raw := heap.AllocPinned(0x1_0000_0000);
    NewNames(NO_HANDLES, raw);
    said := heap.oldGen.headers[heap.handles.handles[h].addr].size;
  }
}
