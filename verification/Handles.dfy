/**
 The handle table of the garbage-collected heap: handles are indices into a
 vector of addresses, dead slots are recycled through a LIFO list, and a reverse
 map leads from a payload pointer back to its handle.
 */
module Handles {
  import opened HeapTypes
  import opened PtrHandleMap

  /** Handles at or above this bit name objects of the shared heap. */
  const SHARED_HANDLE_BIT: nat := 0x8000_0000

  datatype HandleEntry = HandleEntry(addr: Ptr, live: bool)

  datatype Table = Table(handles: seq<HandleEntry>, free: seq<Handle>, ptrs: map<Ptr, Handle>)

  const NO_HANDLES := Table([], [], map[])

  predicate IsLiveHandle(t: Table, h: Handle) {
    h < |t.handles| && t.handles[h].live
  }

  /** Slot 0 is a sentinel; every other slot is either live, with its own non-null
      address, or listed exactly once in free; ptrs inverts the live slots. */
  ghost predicate Inv(t: Table) {
    && EntriesOk(t.handles)
    && FreeOk(t.handles, t.free)
    && PtrsOk(t.handles, t.ptrs)
  }

  ghost predicate EntriesOk(hs: seq<HandleEntry>) {
    && |hs| <= SHARED_HANDLE_BIT
    && (|hs| > 0 ==> !hs[0].live)
    && (forall h :: 0 <= h < |hs| ==> (hs[h].live <==> hs[h].addr != 0))
  }

  ghost predicate FreeOk(hs: seq<HandleEntry>, free: seq<Handle>) {
    && (forall i :: 0 <= i < |free| ==> 1 <= free[i] < |hs| && !hs[free[i]].live)
    && (forall i, j :: 0 <= i < j < |free| ==> free[i] != free[j])
    && (forall h :: 1 <= h < |hs| && !hs[h].live ==> h in free)
  }

  ghost predicate PtrsOk(hs: seq<HandleEntry>, ptrs: map<Ptr, Handle>) {
    && (forall h :: 0 <= h < |hs| && hs[h].live ==> hs[h].addr + HEADER in ptrs && ptrs[hs[h].addr + HEADER] == h)
    && (forall p :: p in ptrs ==> ptrs[p] < |hs| && hs[ptrs[p]].live && hs[ptrs[p]].addr + HEADER == p)
  }

  // ----- the operations on values -----

  /** Reserve the sentinel on first use. */
  function Seeded(t: Table): Table {
    if t.handles == [] then t.(handles := [HandleEntry(0, false)]) else t
  }

  function NewSlot(t: Table): Handle {
    if |t.free| > 0 then t.free[|t.free| - 1] else |Seeded(t).handles|
  }

  function New(t: Table, addr: Ptr): Table
    requires forall i :: 0 <= i < |t.free| ==> t.free[i] < |t.handles|
  {
    var s := Seeded(t);
    var h := NewSlot(t);
    var e := HandleEntry(addr, true);
    var ptrs := if addr != 0 then s.ptrs[addr + HEADER := h] else s.ptrs;
    if |s.free| > 0 then Table(s.handles[h := e], s.free[..|s.free| - 1], ptrs)
    else Table(s.handles + [e], s.free, ptrs)
  }

  predicate Pinned(ext: map<Handle, nat>, h: Handle) {
    h in ext && ext[h] > 0
  }

  /** The references that plugins hold: counted, and gone with the last. */
  function RefCount(ext: map<Handle, nat>, h: Handle): nat { if h in ext then ext[h] else 0 }

  function RefAdded(ext: map<Handle, nat>, h: Handle): (r: map<Handle, nat>)
    ensures h != NULL_HANDLE ==> RefCount(r, h) == RefCount(ext, h) + 1 && Pinned(r, h)
    ensures forall g :: g != h || h == NULL_HANDLE ==> RefCount(r, g) == RefCount(ext, g)
  {
    if h == NULL_HANDLE then ext else ext[h := RefCount(ext, h) + 1]
  }

  function RefReleased(ext: map<Handle, nat>, h: Handle): (r: map<Handle, nat>)
    ensures h != NULL_HANDLE && RefCount(ext, h) > 0 ==> RefCount(r, h) == RefCount(ext, h) - 1
    ensures h != NULL_HANDLE && RefCount(ext, h) <= 1 ==> h !in r
    ensures forall g :: g != h || h == NULL_HANDLE ==> RefCount(r, g) == RefCount(ext, g)
  {
    if h == NULL_HANDLE || h !in ext then ext
    else if ext[h] > 1 then ext[h := ext[h] - 1] else ext - {h}
  }

  /** What release_handle does once the pin and range checks have passed. */
  function Kill(t: Table, h: Handle): Table
    requires h < |t.handles|
  {
    var a := t.handles[h].addr;
    Table(t.handles[h := HandleEntry(0, false)], t.free + [h],
          if a != 0 then t.ptrs - {a + HEADER} else t.ptrs)
  }

  function Release(t: Table, ext: map<Handle, nat>, h: Handle): Table {
    if h >= |t.handles| || Pinned(ext, h) then t else Kill(t, h)
  }

  /** The handle-table part of evacuating the object of h to addr. */
  function Move(t: Table, h: Handle, addr: Ptr): Table
    requires h < |t.handles|
  {
    Table(t.handles[h := t.handles[h].(addr := addr)], t.free,
          (t.ptrs - {t.handles[h].addr + HEADER})[addr + HEADER := h])
  }

  function AddrOf(t: Table, h: Handle): Ptr {
    if IsLiveHandle(t, h) then t.handles[h].addr else 0
  }

  function Deref(t: Table, h: Handle): Ptr {
    if IsLiveHandle(t, h) then t.handles[h].addr + HEADER else 0
  }

  function HandleForPtr(t: Table, p: Ptr): Handle {
    if p != 0 && p in t.ptrs then t.ptrs[p] else NULL_HANDLE
  }

  // ----- what every operation keeps -----

  ghost predicate Unused(t: Table, addr: Ptr) {
    addr != 0 && forall h :: 0 <= h < |t.handles| && t.handles[h].live ==> t.handles[h].addr != addr
  }

  lemma UnusedPtr(t: Table, addr: Ptr)
    requires Inv(t) && Unused(t, addr)
    ensures addr + HEADER !in t.ptrs
  {
  }

  lemma NewPreserves(t: Table, addr: Ptr)
    requires Inv(t) && Unused(t, addr) && |t.handles| < SHARED_HANDLE_BIT
    ensures Inv(New(t, addr))
    ensures !IsLiveHandle(t, NewSlot(t)) && IsLiveHandle(New(t, addr), NewSlot(t))
    ensures forall h :: h != NewSlot(t) ==> Deref(New(t, addr), h) == Deref(t, h)
    ensures Deref(New(t, addr), NewSlot(t)) == addr + HEADER
  {
    if |t.free| > 0 {
      NewFree(t, addr);
    } else {
      NewGrow(t, addr);
    }
  }

  /** An address that a live handle already has breaks the reverse map, and a live handle
      without an address the table. */
  lemma NewPreservesIff(t: Table, addr: Ptr)
    requires Inv(t) && |t.handles| < SHARED_HANDLE_BIT
    ensures Inv(New(t, addr)) <==> Unused(t, addr)
  {
    if Unused(t, addr) {
      NewPreserves(t, addr);
    } else if addr != 0 {
      NewShares(t, addr);
    } else {
      assert New(t, addr).handles[NewSlot(t)] == HandleEntry(0, true);
    }
  }

  lemma NewShares(t: Table, addr: Ptr)
    requires Inv(t) && addr != 0 && !Unused(t, addr)
    ensures !PtrsOk(New(t, addr).handles, New(t, addr).ptrs)
  {
    var g :| 0 <= g < |t.handles| && t.handles[g].live && t.handles[g].addr == addr;
    var t' := New(t, addr);
    assert g != NewSlot(t) && t'.handles[g] == t.handles[g];
    assert t'.ptrs[addr + HEADER] == NewSlot(t);
  }

  lemma NewGrow(t: Table, addr: Ptr)
    requires Inv(t) && Unused(t, addr) && |t.free| == 0 && |t.handles| < SHARED_HANDLE_BIT
    ensures Inv(New(t, addr))
  {
    UnusedPtr(t, addr);
    var hs := Seeded(t).handles;
    assert Inv(Seeded(t));
    AppendSlot(hs, t.ptrs, addr);
    assert New(t, addr).handles == hs + [HandleEntry(addr, true)];
    assert FreeOk(hs + [HandleEntry(addr, true)], []);
  }

  lemma AppendSlot(hs: seq<HandleEntry>, ptrs: map<Ptr, Handle>, addr: Ptr)
    requires PtrsOk(hs, ptrs) && addr + HEADER !in ptrs
    ensures PtrsOk(hs + [HandleEntry(addr, true)], ptrs[addr + HEADER := |hs|])
  {
    var hs' := hs + [HandleEntry(addr, true)];
    forall h | 0 <= h < |hs'| && hs'[h].live
      ensures hs'[h].addr + HEADER in ptrs[addr + HEADER := |hs|]
      ensures ptrs[addr + HEADER := |hs|][hs'[h].addr + HEADER] == h
    {
      if h < |hs| { assert hs'[h] == hs[h]; }
    }
  }

  lemma EntriesOf(t: Table)
    requires Inv(t)
    ensures EntriesOk(t.handles)
  {
  }

  lemma FreeInRange(t: Table)
    requires Inv(t)
    ensures forall i :: 0 <= i < |t.free| ==> t.free[i] < |t.handles|
  {
  }

  lemma NewFree(t: Table, addr: Ptr)
    requires Inv(t) && Unused(t, addr) && |t.free| > 0
    ensures Inv(New(t, addr))
  {
    UnusedPtr(t, addr);
    var t' := New(t, addr);
    var h := NewSlot(t);
    assert FreeOk(t'.handles, t'.free) by {
      forall g | 1 <= g < |t'.handles| && !t'.handles[g].live ensures g in t'.free {
        assert g in t.free;
        var i :| 0 <= i < |t.free| && t.free[i] == g;
        assert t'.free[i] == g;
      }
    }
    assert PtrsOk(t'.handles, t'.ptrs) by {
      forall p | p in t'.ptrs
        ensures t'.ptrs[p] < |t'.handles| && t'.handles[t'.ptrs[p]].live && t'.handles[t'.ptrs[p]].addr + HEADER == p
      {
        if p != addr + HEADER { assert t.ptrs[p] != h; }
      }
    }
  }

  lemma KillLive(t: Table, h: Handle)
    requires Inv(t) && IsLiveHandle(t, h)
    ensures Inv(Kill(t, h))
    ensures Deref(Kill(t, h), h) == 0
    ensures forall g :: g != h ==> Deref(Kill(t, h), g) == Deref(t, g)
  {
    var t' := Kill(t, h);
    assert t'.free[|t.free|] == h;
    assert FreeOk(t'.handles, t'.free) by {
      forall i, j | 0 <= i < j < |t'.free| ensures t'.free[i] != t'.free[j] {
        assert t'.free[i] == t.free[i];
      }
      forall g | 1 <= g < |t'.handles| && !t'.handles[g].live ensures g in t'.free {
        if g != h { assert g in t.free; }
      }
    }
    assert PtrsOk(t'.handles, t'.ptrs) by {
      forall g | 0 <= g < |t'.handles| && t'.handles[g].live
        ensures t'.handles[g].addr + HEADER in t'.ptrs && t'.ptrs[t'.handles[g].addr + HEADER] == g
      {
        assert t.ptrs[t.handles[h].addr + HEADER] == h;
        assert t.ptrs[t.handles[g].addr + HEADER] == g;
      }
    }
  }

  lemma KillDead(t: Table, h: Handle)
    requires Inv(t) && h < |t.handles| && !IsLiveHandle(t, h)
    ensures !Inv(Kill(t, h))
  {
    var t' := Kill(t, h);
    assert t'.free[|t.free|] == h;
    if h != 0 {
      var i :| 0 <= i < |t.free| && t.free[i] == h;
      assert t'.free[i] == t'.free[|t.free|];
    }
  }

  /** Dropping a handle keeps the table consistent exactly when the handle is out
      of range, pinned by native code, or live; the header's promise that any
      other drop does nothing does not hold. */
  lemma ReleasePreservesIff(t: Table, ext: map<Handle, nat>, h: Handle)
    requires Inv(t)
    ensures Inv(Release(t, ext, h)) <==> h >= |t.handles| || Pinned(ext, h) || IsLiveHandle(t, h)
  {
    if h < |t.handles| && !Pinned(ext, h) {
      if IsLiveHandle(t, h) {
        KillLive(t, h);
      } else {
        KillDead(t, h);
      }
    }
  }

  /** From any consistent table: drop a live handle twice and the next two
      allocations get that same handle, the second hiding the first. */
  lemma DoubleDropAliases(t: Table, ext: map<Handle, nat>, h: Handle, a: Ptr, b: Ptr)
    requires Inv(t) && IsLiveHandle(t, h) && !Pinned(ext, h)
    requires a != 0 && b != 0 && a != b
    ensures var twice := Release(Release(t, ext, h), ext, h);
            && NewSlot(twice) == h && NewSlot(New(twice, a)) == h
            && Deref(New(twice, a), h) == a + HEADER
            && Deref(New(New(twice, a), b), h) == b + HEADER
            && HandleForPtr(New(New(twice, a), b), a + HEADER) == h
  {
    var once := Release(t, ext, h);
    var twice := Release(once, ext, h);
    assert twice.free == t.free + [h] + [h];
    var n1 := New(twice, a);
    assert n1.free == t.free + [h];
    assert forall i :: 0 <= i < |n1.free| ==> n1.free[i] < |n1.handles|;
  }

  lemma MovePreserves(t: Table, h: Handle, addr: Ptr)
    requires Inv(t) && IsLiveHandle(t, h) && Unused(t, addr)
    ensures Inv(Move(t, h, addr))
    ensures Deref(Move(t, h, addr), h) == addr + HEADER
    ensures forall g :: g != h ==> Deref(Move(t, h, addr), g) == Deref(t, g)
  {
    UnusedPtr(t, addr);
    var t' := Move(t, h, addr);
    assert t'.handles[h] == HandleEntry(addr, true);
    assert PtrsOk(t'.handles, t'.ptrs) by {
      forall g | 0 <= g < |t'.handles| && t'.handles[g].live
        ensures t'.handles[g].addr + HEADER in t'.ptrs && t'.ptrs[t'.handles[g].addr + HEADER] == g
      {
        assert t.ptrs[t.handles[h].addr + HEADER] == h;
        assert t.ptrs[t.handles[g].addr + HEADER] == g;
      }
    }
  }

  /** Two live handles never share an address. */
  lemma LiveHandlesDistinct(t: Table, g: Handle, h: Handle)
    requires Inv(t) && IsLiveHandle(t, g) && IsLiveHandle(t, h) && g != h
    ensures t.handles[g].addr != t.handles[h].addr
  {
    assert t.ptrs[t.handles[g].addr + HEADER] == g;
    assert t.ptrs[t.handles[h].addr + HEADER] == h;
  }

  /** handle_for_ptr inverts deref on live handles, both ways. */
  lemma HandleForPtrInverts(t: Table, h: Handle, p: Ptr)
    requires Inv(t) && h < SHARED_HANDLE_BIT && p != 0
    ensures HandleForPtr(t, p) == h <==> Deref(t, h) == p
  {
    if IsLiveHandle(t, h) { assert t.ptrs[Deref(t, h)] == h; }
  }

  // ----- whole runs -----

  /** Drop carries the external pins in force at that moment. */
  datatype Step =
    | Alloc(addr: Ptr)
    | Drop(h: Handle, pins: map<Handle, nat>)
    | Evacuate(h: Handle, addr: Ptr)
    | Sweep(h: Handle)

  /** Allocation and evacuation hand out unused slots, and no handle is dropped
      or swept twice. */
  ghost predicate Enabled(t: Table, s: Step) {
    match s
    case Alloc(a) => Unused(t, a) && |t.handles| < SHARED_HANDLE_BIT
    case Drop(h, pins) => h >= |t.handles| || Pinned(pins, h) || IsLiveHandle(t, h)
    case Evacuate(h, a) => IsLiveHandle(t, h) && Unused(t, a)
    case Sweep(h) => IsLiveHandle(t, h)
  }

  ghost predicate Follows(t: Table, s: Step, t': Table) {
    && (forall j :: 0 <= j < |t.free| ==> t.free[j] < |t.handles|)
    && Enabled(t, s)
    && t' == match s
             case Alloc(a) => New(t, a)
             case Drop(h, pins) => Release(t, pins, h)
             case Evacuate(h, a) => Move(t, h, a)
             case Sweep(h) => Kill(t, h)
  }

  ghost predicate IsRun(run: seq<Table>, steps: seq<Step>) {
    && |run| == |steps| + 1
    && run[0] == NO_HANDLES
    && forall i :: 0 <= i < |steps| ==> Follows(run[i], steps[i], run[i + 1])
  }

  /** Every table of every such run is consistent. */
  lemma {:induction false} RunKeepsInv(run: seq<Table>, steps: seq<Step>, n: nat)
    requires IsRun(run, steps) && n <= |steps|
    ensures Inv(run[n])
  {
    if n > 0 {
      RunKeepsInv(run, steps, n - 1);
      var t := run[n - 1];
      assert Follows(t, steps[n - 1], run[n - 1 + 1]);
      match steps[n - 1] {
        case Alloc(a) => NewPreserves(t, a);
        case Drop(h, pins) => ReleasePreservesIff(t, pins, h);
        case Evacuate(h, a) => MovePreserves(t, h, a);
        case Sweep(h) => KillLive(t, h);
      }
    }
  }

  // ----- the heap's own fields -----

  class HandleSpace {
    var handles: seq<HandleEntry>
    var freeHandles: seq<Handle>
    var externalRefs: map<Handle, nat>
    const ptrToHandle: PtrTable

    ghost predicate Valid()
      reads this, ptrToHandle
    {
      ptrToHandle.Valid() && Inv(State())
    }

    ghost function State(): Table
      reads this, ptrToHandle
    {
      Table(handles, freeHandles, ptrToHandle.contents)
    }

    constructor ()
      ensures Valid() && State() == NO_HANDLES && externalRefs == map[] && fresh(ptrToHandle)
    {
      handles, freeHandles, externalRefs := [], [], map[];
      ptrToHandle := new PtrTable();
    }

    /** The table stays consistent exactly if no live handle had the address. */
    method NewHandle(addr: Ptr) returns (h: Handle)
      requires Valid() && |handles| < SHARED_HANDLE_BIT
      modifies this`handles, this`freeHandles, ptrToHandle
      ensures h == old(NewSlot(State())) && State() == old(New(State(), addr))
      ensures Valid() <==> old(Unused(State(), addr))
    {
      hide Inv, PtrTable.Valid, Unused;
      NewPreservesIff(State(), addr);
      FreeInRange(State());
      if handles == [] {
        handles := [HandleEntry(0, false)];
      }
      if freeHandles != [] {
        h := freeHandles[|freeHandles| - 1];
        freeHandles := freeHandles[..|freeHandles| - 1];
        handles := handles[h := HandleEntry(addr, true)];
      } else {
        h := |handles|;
        handles := handles + [HandleEntry(addr, true)];
      }
      if addr != 0 {
        var _ := ptrToHandle.InsertOrAssign(addr + HEADER, h);
      }
    }

    /** release_handle, for any argument: the resulting table is consistent under
        the condition of ReleasePreservesIff. */
    method ReleaseHandle(h: Handle)
      requires Valid()
      modifies this`handles, this`freeHandles, ptrToHandle
      ensures ptrToHandle.Valid() && State() == old(Release(State(), externalRefs, h))
      ensures Valid() <==> old(h >= |handles| || Pinned(externalRefs, h) || IsLiveHandle(State(), h))
    {
      hide Inv, PtrTable.Valid;
      ReleasePreservesIff(State(), externalRefs, h);
      EntriesOf(State());
      if h >= |handles| { return; }
      if h in externalRefs && externalRefs[h] > 0 { return; }
      var oldAddr := handles[h].addr;
      if oldAddr != 0 {
        var _ := ptrToHandle.Erase(oldAddr + HEADER);
      }
      handles := handles[h := HandleEntry(0, false)];
      freeHandles := freeHandles + [h];
    }

    /** The handle-table writes of do_evacuate. */
    method MoveHandle(h: Handle, addr: Ptr)
      requires Valid() && IsLiveHandle(State(), h) && Unused(State(), addr)
      modifies this`handles, ptrToHandle
      ensures Valid() && State() == old(Move(State(), h, addr))
    {
      MovePreserves(State(), h, addr);
      var src := handles[h].addr;
      handles := handles[h := handles[h].(addr := addr)];
      ptrToHandle.Rekey(src + HEADER, addr + HEADER, h);
    }

    /** The sweep of minor_gc on one dead young handle. */
    method KillHandle(h: Handle)
      requires Valid() && IsLiveHandle(State(), h)
      modifies this`handles, this`freeHandles, ptrToHandle
      ensures Valid() && State() == old(Kill(State(), h))
    {
      KillLive(State(), h);
      var _ := ptrToHandle.Erase(handles[h].addr + HEADER);
      handles := handles[h := HandleEntry(0, false)];
      freeHandles := freeHandles + [h];
    }

    method FindHandle(p: Ptr) returns (h: Handle)
      requires Valid()
      ensures h == HandleForPtr(State(), p)
    {
      if p == 0 { return NULL_HANDLE; }
      h := ptrToHandle.Find(p);
    }

    method AddRef(h: Handle)
      modifies this`externalRefs
      ensures externalRefs == RefAdded(old(externalRefs), h)
    {
      if h == NULL_HANDLE { return; }
      externalRefs := externalRefs[h := (if h in externalRefs then externalRefs[h] else 0) + 1];
    }

    method ReleaseRef(h: Handle)
      modifies this`externalRefs
      ensures externalRefs == RefReleased(old(externalRefs), h)
    {
      if h == NULL_HANDLE || h !in externalRefs { return; }
      if externalRefs[h] > 1 {
        externalRefs := externalRefs[h := externalRefs[h] - 1];
      } else {
        externalRefs := externalRefs - {h};
      }
    }
  }
}
