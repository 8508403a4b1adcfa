/**
 Where the collector falls short of keeping everything that is reachable, and
 exactly when it does not.
 */
module CollectorLimits {
  import opened Basics
  import opened HeapTypes
  import opened Handles
  import opened OldGen
  import opened Reachability
  import opened Evacuation
  import opened TraceOrder
  import opened GcHeap
  import opened HeapRuns
  import PM = PtrHandleMap

  // ----- the remembered set is not followed transitively -----

  /** What a minor collection keeps when it finds room for it. */
  ghost predicate Kept(t: Table, pay: Payloads, hs: Headers, young: set<Ptr>, roots: seq<Handle>,
                       remembered: set<Handle>,
                       a: Ptr)
  {
    YoungReach(t, pay, young, roots, a) || a in RememberedRefs(t, pay, hs, remembered, young)
  }

  /** That is what MinorGc promises: the objects moved, or lost for want of room, are
      exactly the kept ones. */
  lemma SurvivorsAreKept(t: Table, pay: Payloads, hs: Headers, young: set<Ptr>, roots: seq<Handle>,
                         remembered: set<Handle>,
                         fwd: Forward, lost: set<Ptr>, a: Ptr)
    requires Survivors(t, young, pay, hs, roots, remembered, fwd, lost) && RememberedAreOld(t, hs, remembered)
             && a in young
    ensures a in fwd.Keys + lost <==> Kept(t, pay, hs, young, roots, remembered, a)
  {
    hide YoungReach, RememberedRefs;
  }

  /** Reachable from the roots or from any old object, through every generation. */
  ghost predicate FullReach(t: Table, pay: Payloads, hs: Headers, young: set<Ptr>, roots: seq<Handle>, a: Ptr) {
    Reach(RefGraph(t, pay, young + LiveSlots(hs)), RootAddrs(t, roots, young) + LiveSlots(hs), a)
  }

  /** The discipline of write_barrier: an old object that names a young one is
      remembered. */
  ghost predicate BarrierKept(t: Table, pay: Payloads, hs: Headers, young: set<Ptr>, remembered: set<Handle>) {
    forall p, b :: p in LiveSlots(hs) && p in pay && b in young && Refers(t, pay[p], b) ==>
      b in RememberedRefs(t, pay, hs, remembered, young)
  }

  /** What remembered objects name directly names nothing that is not kept. */
  ghost predicate RememberedRefsClosed(t: Table, pay: Payloads, hs: Headers, young: set<Ptr>, roots: seq<Handle>,
                                       remembered: set<Handle>)
  {
    forall b, c ::
      b in RememberedRefs(t, pay, hs, remembered, young) && b in pay && c in young && Refers(t, pay[b], c) ==>
        Kept(t, pay, hs, young, roots, remembered, c)
  }

  /** Under the write-barrier discipline a minor collection keeps every reachable
      young object exactly when the remembered references are closed. */
  lemma MinorKeepsReachableIff(t: Table, pay: Payloads, hs: Headers, young: set<Ptr>, roots: seq<Handle>,
                               remembered: set<Handle>)
    requires young !! LiveSlots(hs) && BarrierKept(t, pay, hs, young, remembered)
    ensures (forall a :: a in young && FullReach(t, pay, hs, young, roots, a) ==>
             Kept(t, pay, hs, young, roots, remembered, a))
            <==> RememberedRefsClosed(t, pay, hs, young, roots, remembered)
  {
    hide RememberedRefs, Refers;
    if RememberedRefsClosed(t, pay, hs, young, roots, remembered) {
      forall a | a in young && FullReach(t, pay, hs, young, roots, a)
        ensures Kept(t, pay, hs, young, roots, remembered, a)
      {
        var path :| IsPath(RefGraph(t, pay, young + LiveSlots(hs)), RootAddrs(t, roots, young) + LiveSlots(hs), path)
                    && path[|path| - 1] == a;
        PathKept(t, pay, hs, young, roots, remembered, path, |path| - 1);
      }
    }
    forall b, c | b in RememberedRefs(t, pay, hs, remembered, young) && b in pay && c in young && Refers(t, pay[b], c)
      ensures FullReach(t, pay, hs, young, roots, c)
    {
      RememberedRefReached(t, pay, hs, young, roots, remembered, b);
      ReachStep(RefGraph(t, pay, young + LiveSlots(hs)), RootAddrs(t, roots, young) + LiveSlots(hs), b, c);
    }
  }

  lemma {:induction false} PathKept(t: Table, pay: Payloads, hs: Headers, young: set<Ptr>, roots: seq<Handle>,
                                    remembered: set<Handle>, path: seq<Ptr>, i: nat)
    requires young !! LiveSlots(hs) && BarrierKept(t, pay, hs, young, remembered)
    requires RememberedRefsClosed(t, pay, hs, young, roots, remembered)
    requires IsPath(RefGraph(t, pay, young + LiveSlots(hs)), RootAddrs(t, roots, young) + LiveSlots(hs), path)
    requires i < |path|
    ensures path[i] in young + LiveSlots(hs)
    ensures path[i] in young ==> Kept(t, pay, hs, young, roots, remembered, path[i])
  {
    hide RememberedRefs, Refers;
    RootsWhite(t, roots, young);
    var g := RefGraph(t, pay, young + LiveSlots(hs));
    if i == 0 {
      if path[0] in young {
        ReachRoot(YoungGraph(t, pay, young), RootAddrs(t, roots, young), path[0]);
      }
    } else {
      PathKept(t, pay, hs, young, roots, remembered, path, i - 1);
      assert path[i - 1 + 1] in Succ(g, path[i - 1]);
      var a, b := path[i - 1], path[i];
      if a in young && b in young && YoungReach(t, pay, young, roots, a) {
        assert b in Succ(YoungGraph(t, pay, young), a);
        ReachStep(YoungGraph(t, pay, young), RootAddrs(t, roots, young), a, b);
      }
    }
  }

  lemma RememberedRefReached(t: Table, pay: Payloads, hs: Headers, young: set<Ptr>, roots: seq<Handle>,
                             remembered: set<Handle>, b: Ptr)
    requires b in RememberedRefs(t, pay, hs, remembered, young)
    ensures FullReach(t, pay, hs, young, roots, b)
  {
    var q :| q in remembered && RememberedRefersTo(t, pay, hs, q, b);
    var g, r := RefGraph(t, pay, young + LiveSlots(hs)), RootAddrs(t, roots, young) + LiveSlots(hs);
    ReachRoot(g, r, AddrOf(t, q));
    ReachStep(g, r, AddrOf(t, q), b);
  }

  // ----- a run that loses a reachable object -----

  /** Old object a names young object b, which names young object c, and nothing else
      names c. */
  ghost predicate NamesInChain(t: Table, pay: Payloads, a: Ptr, b: Ptr, c: Ptr) {
    && a in pay && b in pay
    && Refers(t, pay[a], b) && Refers(t, pay[b], c) && (forall p :: Refers(t, pay[a], p) ==> p == b)
  }

  lemma ChainReachesLast(t: Table, pay: Payloads, hs: Headers, a: Ptr, b: Ptr, c: Ptr, q: Handle)
    requires NamesInChain(t, pay, a, b, c) && LiveSlots(hs) == {a} && b != c
    requires IsLiveHandle(t, q) && AddrOf(t, q) == a
    ensures BarrierKept(t, pay, hs, {b, c}, {q}) && RememberedAreOld(t, hs, {q})
    ensures FullReach(t, pay, hs, {b, c}, [], c)
    ensures !Kept(t, pay, hs, {b, c}, [], {q}, c)
  {
    hide Refers;
    assert RememberedRefersTo(t, pay, hs, q, b);
    var g, r := RefGraph(t, pay, {b, c} + LiveSlots(hs)), RootAddrs(t, [], {b, c}) + LiveSlots(hs);
    ReachRoot(g, r, a);
    ReachStep(g, r, a, b);
    ReachStep(g, r, b, c);
    NoRoots(t, {b, c});
    NothingReached(YoungGraph(t, pay, {b, c}), c);
  }

  lemma NothingReached(g: Graph, a: Ptr)
    ensures !Reach(g, {}, a)
  {
  }

  /** A payload whose first word is the handle h and whose other bytes are zero. */
  ghost predicate HoldsOnly(p: seq<Byte>, h: Handle) {
    |p| >= 4 && 0 < h < 256 && p[0] == h && forall i :: 1 <= i < |p| ==> p[i] == 0
  }

  lemma HoldsOnlyRefers(t: Table, p: seq<Byte>, h: Handle)
    requires HoldsOnly(p, h) && IsLiveHandle(t, h) && !IsLiveHandle(t, 0)
    ensures Refers(t, p, AddrOf(t, h)) && forall b :: Refers(t, p, b) ==> b == AddrOf(t, h)
  {
    assert WordAt(p, 0) == h && RefersAt(t, p, 0, AddrOf(t, h));
    forall k | 0 < k < |p| / 4 ensures WordAt(p, k) == 0 {}
    forall b | Refers(t, p, b) ensures b == AddrOf(t, h) {
      var k :| 0 <= k < |p| / 4 && RefersAt(t, p, k, b);
    }
  }

  /** Zero the object of h and store the handle ref in its first word. */
  method Point(heap: Heap, h: Handle, ref: Handle)
    requires IsLiveHandle(heap.handles.State(), h) && 0 < ref < 256
    requires var a := AddrOf(heap.handles.State(), h); a in heap.payload && |heap.payload[a]| >= 4
    requires heap.Collectable()
    modifies heap`payload
    ensures var a := AddrOf(heap.handles.State(), h);
            && a in heap.payload && HoldsOnly(heap.payload[a], ref)
            && heap.payload == old(heap.payload)[a := heap.payload[a]] && |heap.payload[a]| == |old(heap.payload[a])|
    ensures heap.Collectable()
  {
    hide Heap.Valid, Heap.Consistent, Heap.Collectable;
    var a := heap.handles.handles[h].addr;
    ghost var pay := heap.payload;
    heap.CollectableOpen();
    for i := 0 to |heap.payload[a]|
      invariant a in heap.payload && heap.payload == pay[a := heap.payload[a]] && |heap.payload[a]| == |pay[a]|
      invariant forall j :: 0 <= j < i ==> heap.payload[a][j] == 0
      invariant heap.Collectable() && heap.Valid()
    {
      heap.Store(h, i, 0);
    }
    heap.Store(h, 0, ref);
  }

  /** The table after three allocations, at raw, 1024 and 1040. */
  function Three(raw: Ptr): Table { New(New(New(NO_HANDLES, raw), 1024), 1040) }

  lemma ThreeHandles(raw: Ptr)
    ensures NewSlot(NO_HANDLES) == 1 && NewSlot(New(NO_HANDLES, raw)) == 2
            && NewSlot(New(New(NO_HANDLES, raw), 1024)) == 3
    ensures |New(NO_HANDLES, raw).handles| == 2 && |New(New(NO_HANDLES, raw), 1024).handles| == 3
            && |Three(raw).handles| == 4
    ensures var t := Three(raw);
            && !IsLiveHandle(t, 0) && IsLiveHandle(t, 1) && IsLiveHandle(t, 2) && IsLiveHandle(t, 3)
            && AddrOf(t, 1) == raw && AddrOf(t, 2) == 1024 && AddrOf(t, 3) == 1040
  {
  }

  /** A heap with a pinned object. */
  method BuildPinned() returns (heap: Heap, ghost raw: Ptr)
    ensures fresh(heap) && fresh(heap.handles) && fresh(heap.handles.ptrToHandle) && fresh(heap.oldGen)
    ensures heap.handles.State() == New(NO_HANDLES, raw) && heap.youngColor == map[]
    ensures heap.nurseryBase == heap.nurseryBump == 1024 && heap.nurseryEnd == 4096
    ensures raw in heap.oldGen.headers && LiveSlots(heap.oldGen.headers) == {raw}
    ensures heap.forwardTable == map[] && heap.remembered == {}
    ensures raw in heap.payload && |heap.payload[raw]| >= 4
    ensures heap.Collectable()
  {
    hide Inv, Ok, NurseryOk, Layout, Mapped, PM.PtrTable.Valid, Heap.Valid, Heap.Consistent, Heap.Collectable, Unused,
         New, NewSlot, RoundUp8, AllHarmless, NewObject, ClassCeil, CLASS_SIZES, ApartFromLive, Span, Zeros,
         IsLiveHandle, AddrOf, LiveSlots, OldSpace.Spare, TooLarge, Refused, SpareIn;
    EightAndTwelve();
    heap := new Heap(1024, 4096, 65536, [8192]);
    FreshSpare(heap);
    heap.CollectableOpen();
    var a;
    a, raw := heap.AllocPinned(4);
    ThreeHandles(raw);
    OnlySlot(heap.oldGen.headers, raw);
    heap.CollectableOpen();
  }

  /** A pinned object and two young ones. */
  method BuildObjects() returns (heap: Heap, ghost raw: Ptr)
    ensures fresh(heap) && fresh(heap.handles) && fresh(heap.handles.ptrToHandle) && fresh(heap.oldGen)
    ensures heap.handles.State() == Three(raw) && heap.youngColor.Keys == {1024, 1040} && raw !in {1024, 1040}
    ensures LiveSlots(heap.oldGen.headers) == {raw} && heap.forwardTable == map[] && heap.remembered == {}
    ensures raw in heap.payload && 1024 in heap.payload && |heap.payload[raw]| >= 4 && |heap.payload[1024]| >= 4
    ensures heap.Collectable()
  {
    hide Inv, Ok, NurseryOk, Layout, Mapped, PM.PtrTable.Valid, Heap.Valid, Heap.Consistent, Heap.Collectable, Unused,
         New, NewSlot, RoundUp8, AllHarmless, NewObject, ClassCeil, CLASS_SIZES, ApartFromLive, Span, Zeros,
         IsLiveHandle, AddrOf, LiveSlots;
    EightAndTwelve();
    heap, raw := BuildPinned();
    ThreeHandles(raw);
    heap.CollectableOpen();
    var b := heap.AllocYoung(4);
    heap.NotYoung(raw);
    var c := heap.AllocYoung(4);
    heap.NotYoung(raw);
  }

  /** The first names the second, the second the third, and the first is remembered. */
  method BuildChain() returns (heap: Heap, ghost raw: Ptr)
    ensures fresh(heap) && fresh(heap.handles) && fresh(heap.handles.ptrToHandle) && fresh(heap.oldGen)
    ensures heap.handles.State() == Three(raw) && heap.youngColor.Keys == {1024, 1040} && heap.remembered == {1}
    ensures LiveSlots(heap.oldGen.headers) == {raw} && heap.forwardTable == map[]
    ensures NamesInChain(heap.handles.State(), heap.payload, raw, 1024, 1040)
    ensures heap.Collectable()
  {
    hide Inv, Ok, NurseryOk, Layout, Mapped, PM.PtrTable.Valid, Heap.Valid, Heap.Consistent, Heap.Collectable, Three,
         AllHarmless, HoldsOnly, Refers, IsLiveHandle, AddrOf, LiveSlots;
    heap, raw := BuildObjects();
    ThreeHandles(raw);
    Point(heap, 1, 2);
    Point(heap, 2, 3);
    HoldsOnlyRefers(heap.handles.State(), heap.payload[raw], 2);
    HoldsOnlyRefers(heap.handles.State(), heap.payload[1024], 3);
    heap.WriteBarrier(1);
  }

  lemma OnlySlot(hs: Headers, raw: Ptr)
    requires raw in hs && hs == map[raw := hs[raw]] && hs[raw].color != Dead
    ensures LiveSlots(hs) == {raw}
  {
  }

  /** An old object names a young one, which names another; the barrier is kept. The
      last is reachable, and a minor collection frees its handle. */
  method GrandchildOfRememberedDies() returns (alive: bool, ghost reachable: bool)
    ensures reachable && !alive
  {
    hide Inv, Ok, NurseryOk, Layout, Mapped, PM.PtrTable.Valid, Heap.Valid, Heap.Consistent, Heap.Collectable, Unused,
         New, NewSlot, AllHarmless, Refers, FullReach, YoungReach, Survivors, Three, Heap.Harm, RememberedRefs,
         RememberedAreOld, NamesInChain, BarrierKept, CopiesOk, SlotsKept, LiveSlots, MayMove, HarmlessMoves;
    var heap; ghost var raw;
    heap, raw := BuildChain();
    ThreeHandles(raw);
    ghost var t, pay, hs, young := heap.handles.State(), heap.payload, heap.oldGen.headers, heap.youngColor.Keys;
    ChainReachesLast(t, pay, hs, raw, 1024, 1040, 1);
    reachable := FullReach(t, pay, hs, young, [], 1040);
    heap.CollectableOpen();
    var outcome, needMajor; ghost var fwd, lost;
    var none: seq<Handle> := [];
    assert none + none == none;
    outcome, needMajor, fwd, lost := heap.MinorGc(none, none);
    SurvivorsAreKept(t, pay, hs, young, [], {1}, fwd, lost, 1040);
    alive := |heap.handles.handles| > 3 && heap.handles.handles[3].live;
    assert alive == IsLiveHandle(heap.handles.State(), 3);
  }

  // ----- the sweep of the old generation leaves handles behind -----

  /** An address that a live handle still has, handed out again: two live handles share
      it and the reverse map forgets the first. */
  lemma SweptSlotIsShared(t: Table, g: Handle, a: Ptr)
    requires Inv(t) && IsLiveHandle(t, g) && AddrOf(t, g) == a
    ensures var t' := New(t, a);
            && NewSlot(t) != g && IsLiveHandle(t', g) && IsLiveHandle(t', NewSlot(t))
            && AddrOf(t', g) == AddrOf(t', NewSlot(t)) == a
            && HandleForPtr(t', Deref(t', g)) != g && !Inv(t')
  {
    var t' := New(t, a);
    assert t'.ptrs[a + HEADER] == NewSlot(t);
    assert t'.handles[g] == t.handles[g];
  }

  /** With one slot, swept, the list of its class starts with it. */
  lemma OnlyDeadIsListed(bs: seq<Block>, hs: Headers, small: seq<seq<Ptr>>, large: seq<LargeFree>, used: nat, raw: Ptr)
    requires Ok(bs, hs, small, large, used) && hs.Keys == {raw} && hs[raw].color == Dead && Span(hs[raw]) <= 4096
    ensures var size: nat := Span(hs[raw]) - HEADER;
            && RoundUp8(HEADER + size) == Span(hs[raw]) && ClassCeil(Span(hs[raw])) < SMALL_CLASS_COUNT
            && small[ClassCeil(Span(hs[raw]))] != [] && small[ClassCeil(Span(hs[raw]))][0] == raw
  {
    hide AllTiled, Covered, BlocksOk, FreeExact, ClassCeil, LegalTotal, RoundUp8, LiveBytes;
    assert LegalTotal(Span(hs[raw]));
    SmallSlot(Span(hs[raw]));
    ListHead(hs, small, large, raw);
  }

  lemma SmallSlot(total: nat)
    requires LegalTotal(total) && total <= 4096
    ensures RoundUp8(total) == total && ClassCeil(total) < SMALL_CLASS_COUNT
  {
    hide ClassFrom;
    assert CLASS_SIZES[SMALL_CLASS_COUNT - 1] == 4096;
  }

  lemma ListHead(hs: Headers, small: seq<seq<Ptr>>, large: seq<LargeFree>, raw: Ptr)
    requires FreeExact(hs, small, large, hs.Keys) && hs.Keys == {raw} && hs[raw].color == Dead
    requires ClassCeil(Span(hs[raw])) < SMALL_CLASS_COUNT
    ensures |small| == SMALL_CLASS_COUNT
    ensures small[ClassCeil(Span(hs[raw]))] != [] && small[ClassCeil(Span(hs[raw]))][0] == raw
  {
    hide ClassCeil, ClassFrom;
    assert IsDead(hs, raw) && Listed(small, large, raw, Span(hs[raw]));
  }

  /** alloc_pinned in a fresh heap. */
  method PinOne() returns (heap: Heap, h: Handle, ghost raw: Ptr)
    ensures fresh(heap) && fresh(heap.handles) && fresh(heap.handles.ptrToHandle) && fresh(heap.oldGen)
    ensures heap.Valid() && IsLiveHandle(heap.handles.State(), h) && AddrOf(heap.handles.State(), h) == raw
    ensures |heap.handles.handles| == 2 && heap.oldGen.headers.Keys == {raw} && Span(heap.oldGen.headers[raw]) <= 4096
  {
    hide Inv, Ok, NurseryOk, Layout, Mapped, PM.PtrTable.Valid, Heap.Valid, Heap.Consistent, Heap.Collectable, Unused,
         New, NewSlot, AllHarmless, ApartFromLive, Zeros, ClassCeil, RoundUp8, NewObject, OldSpace.Spare, TooLarge;
    heap := new Heap(1024, 4096, 65536, [8192]);
    FreshSpare(heap);
    heap.CollectableOpen();
    heap.TableInv();
    EightAndTwelve();
    SixteenIsSmall();
    h, raw := heap.AllocPinned(4);
    NewNames(NO_HANDLES, raw);
    ThreeHandles(raw);
    heap.CollectableOpen();
  }

  /** alloc_pinned and a major collection that finds no roots: the handle is live, its
      slot is dead and next on its free list. */
  method PinAndSweep() returns (heap: Heap, h: Handle, ghost raw: Ptr)
    ensures fresh(heap) && fresh(heap.handles) && fresh(heap.handles.ptrToHandle) && fresh(heap.oldGen)
    ensures heap.Valid() && IsLiveHandle(heap.handles.State(), h) && AddrOf(heap.handles.State(), h) == raw
    ensures |heap.handles.handles| == 2 && heap.oldGen.headers.Keys == {raw} && heap.oldGen.headers[raw].color == Dead
    ensures Span(heap.oldGen.headers[raw]) <= 4096
  {
    hide Inv, Ok, NurseryOk, Layout, Mapped, PM.PtrTable.Valid, Heap.Valid, Heap.Consistent, Heap.Collectable, RefGraph,
         AllReached, LiveSlots, Survived, ReachesAll, SweptWeak;
    heap, h, raw := PinOne();
    ghost var t, hs0, pay0, ys0 := heap.handles.State(), heap.oldGen.headers, heap.payload, heap.youngColor;
    heap.MajorGc([]);
    NoRoots(t, LiveSlots(hs0) + WhiteYoung(ys0));
    NothingReached(RefGraph(t, pay0, LiveSlots(hs0)), raw);
  }

  lemma SixteenIsSmall()
    ensures ClassCeil(16) < SMALL_CLASS_COUNT && CLASS_SIZES[SMALL_CLASS_COUNT - 1] == 4096
  {
  }

  /** alloc_pinned, a major collection that finds no roots, alloc_pinned: the second
      handle gets the slot that the first still names. */
  method SharedAfterSweep() returns (first: Handle, second: Handle, ghost t: Table)
    ensures first != second && IsLiveHandle(t, first) && IsLiveHandle(t, second)
            && AddrOf(t, first) == AddrOf(t, second)
    ensures !Inv(t)
  {
    hide Inv, Ok, NurseryOk, Layout, Mapped, PM.PtrTable.Valid, Heap.Valid, Heap.Consistent, Unused, New,
         NewSlot, ApartFromLive, Zeros, LiveSlots, ClassCeil, RoundUp8, Deref, HandleForPtr;
    var heap; ghost var raw, raw2;
    heap, first, raw := PinAndSweep();
    second, t := 0, heap.handles.State();
    heap.TableInv();
    heap.Opened();
    OnlyDeadIsListed(heap.oldGen.blocks, heap.oldGen.headers, heap.oldGen.smallFree, heap.oldGen.largeFree,
                     heap.oldGen.used, raw);
    var size := Span(heap.oldGen.headers[heap.handles.handles[first].addr]) - HEADER;
    second, raw2 := heap.AllocPinned(size);
    SweptSlotIsShared(t, first, raw);
    t := heap.handles.State();
  }

  // ----- weak references and the nursery -----

  /** Without roots and remembered objects nothing young moves. */
  lemma NothingMoves(t: Table, young: set<Ptr>, pay: Payloads, hs: Headers, a: Ptr)
    ensures !YoungReach(t, pay, young, [], a) && !MayMove(t, young, pay, hs, [], {}, a)
    ensures RememberedAreOld(t, hs, {}) && RememberedRefs(t, pay, hs, {}, young) == {}
  {
    NoRoots(t, young);
    NothingReached(YoungGraph(t, pay, young), a);
  }

  lemma NoSurvivors(t: Table, young: set<Ptr>, pay: Payloads, hs: Headers, fwd: Forward, lost: set<Ptr>)
    requires Survivors(t, young, pay, hs, [], {}, fwd, lost)
    ensures fwd == map[] && lost == {}
  {
    hide YoungReach, RememberedRefs, RememberedAreOld, MayMove;
    forall a | a in fwd.Keys + lost ensures false {
      NothingMoves(t, young, pay, hs, a);
    }
  }

  /** The only slot of a table with one handle is the next to be given out once it is
      not live. */
  lemma OnlyHandle(t: Table, h: Handle)
    requires Inv(t) && |t.handles| == 2 && 1 <= h < 2 && !IsLiveHandle(t, h)
    ensures NewSlot(t) == h
  {
    assert h in t.free;
    assert t.free[|t.free| - 1] == h;
  }

  lemma FirstHandle(raw: Ptr)
    ensures |New(NO_HANDLES, raw).handles| == 2 && NewSlot(NO_HANDLES) == 1
  {
  }

  /** alloc, alloc_weak, minor_gc without roots, alloc: the weak reference to the object
      that died names the object allocated after the collection. */
  method WeakNamesAnother(n: nat) returns (outcome: Outcome, first: Handle, second: Handle, named: Handle)
    requires n <= 1000
    ensures outcome == Clean && named == second == first
  {
    hide Inv, Ok, NurseryOk, Layout, Mapped, PM.PtrTable.Valid, LiveSlots, Heap.Valid, Heap.Consistent,
         Heap.Collectable, Unused, New, NewSlot, RoundUp8, AllHarmless, Heap.Harm, MayMove, YoungFate, Survivors,
         YoungReach;
    var heap := new Heap(1024, 4096, 65536, []);
    heap.CollectableOpen();
    heap.TableInv();
    NewNames(NO_HANDLES, 1024);
    FirstHandle(1024);
    first := heap.AllocYoung(n);
    var w := heap.AllocWeak(first);
    assert heap.DerefWeak(w) == first;
    heap.CollectableOpen();
    ghost var t, young, pay, hs := heap.handles.State(), heap.youngColor.Keys, heap.payload, heap.oldGen.headers;
    var major; ghost var fwd, lost;
    var none: seq<Handle> := [];
    assert none + none == none;
    outcome, major, fwd, lost := heap.MinorGc(none, none);
    NoSurvivors(t, young, pay, hs, fwd, lost);
    NothingMoves(t, young, pay, hs, 1024);
    HandleDies(t, young, pay, heap.handles.State(), first);
    heap.CollectableOpen();
    heap.TableInv();
    OnlyHandle(heap.handles.State(), first);
    second := heap.AllocYoung(n);
    named := heap.DerefWeak(w);
  }

  lemma HandleDies(t: Table, young: set<Ptr>, pay: Payloads, t': Table, h: Handle)
    requires YoungFate(t, young, pay, [], t', map[]) && IsLiveHandle(t, h) && AddrOf(t, h) in young
    requires !YoungReach(t, pay, young, [], AddrOf(t, h))
    ensures !IsLiveHandle(t', h) && |t'.handles| == |t.handles|
  {
  }
}
