/**
 The generational heap: nursery, old generation and handle table together, with
 the mark and sweep collection of the old generation.  Objects are known by the
 address of their header; a payload is the bytes behind it.
 */
module GcHeap {
  import opened Basics
  import opened HeapTypes
  import opened Handles
  import opened OldGen
  import opened Reachability
  import opened Evacuation
  import opened TraceOrder
  import PM = PtrHandleMap

  type Colors = map<Ptr, Color>

  /** Slot sizes are stored in 32 bits. */
  const MAX_NURSERY: nat := 0xFFFF_0000

  const STACK_LIMIT: nat := 16777216

  // ----- the object graph -----

  /** Word k of p is a live handle of the object at b. */
  predicate RefersAt(t: Table, p: seq<Byte>, k: nat, b: Ptr)
    requires k < |p| / 4
  {
    var r := WordAt(p, k);
    r != NULL_HANDLE && IsLiveHandle(t, r) && t.handles[r].addr == b
  }

  ghost predicate Refers(t: Table, p: seq<Byte>, b: Ptr) {
    exists k :: 0 <= k < |p| / 4 && RefersAt(t, p, k, b)
  }

  /** From each object to the objects among targets that its payload names. */
  ghost function RefGraph(t: Table, pay: Payloads, targets: set<Ptr>): Graph {
    map a | a in pay :: set b | b in targets && Refers(t, pay[a], b)
  }

  /** The objects that the handles found by the root scan name, among the white. */
  function RootAddrs(t: Table, roots: seq<Handle>, white: set<Ptr>): set<Ptr> {
    set i | 0 <= i < |roots| && IsLiveHandle(t, roots[i]) && AddrOf(t, roots[i]) in white :: AddrOf(t, roots[i])
  }

  lemma NoRoots(t: Table, white: set<Ptr>)
    ensures RootAddrs(t, [], white) == {}
  {
  }

  lemma RootAddrsStep(t: Table, roots: seq<Handle>, white: set<Ptr>, i: nat)
    requires i < |roots|
    ensures var a := AddrOf(t, roots[i]);
            RootAddrs(t, roots[..i + 1], white) ==
            RootAddrs(t, roots[..i], white) + (if IsLiveHandle(t, roots[i]) && a in white then {a} else {})
  {
    var more, less := roots[..i + 1], roots[..i];
    assert more == less + [roots[i]];
    forall a | a in RootAddrs(t, less, white) ensures a in RootAddrs(t, more, white) {
      var j :| 0 <= j < |less| && IsLiveHandle(t, less[j]) && AddrOf(t, less[j]) in white && AddrOf(t, less[j]) == a;
      assert more[j] == less[j];
    }
    assert more[i] == roots[i];
  }

  // ----- colours during marking -----

  function WhiteSlots(hs: Headers): set<Ptr> {
    set p | p in hs && hs[p].color == White
  }

  function WhiteYoung(ys: Colors): set<Ptr> {
    set p | p in ys && ys[p] == White
  }

  /** The slots in black have turned from white to black, nothing else changed. */
  ghost predicate Blackened(hs0: Headers, hs: Headers, black: set<Ptr>) {
    && hs.Keys == hs0.Keys
    && (forall p :: p in hs0 && p in black ==> hs0[p].color == White && hs[p] == hs0[p].(color := Black))
    && (forall p :: p in hs0 && p !in black ==> hs[p] == hs0[p])
  }

  ghost predicate BlackenedYoung(ys0: Colors, ys: Colors, black: set<Ptr>) {
    && ys.Keys == ys0.Keys
    && (forall p :: p in ys0 && p in black ==> ys0[p] == White && ys[p] == Black)
    && (forall p :: p in ys0 && p !in black ==> ys[p] == ys0[p])
  }

  /** The worklist of handles names the objects of list, in order. */
  ghost predicate Parallel(t: Table, wl: seq<Handle>, list: seq<Ptr>) {
    && |wl| == |list|
    && forall i :: 0 <= i < |wl| ==> IsLiveHandle(t, wl[i]) && t.handles[wl[i]].addr == list[i]
  }

  /** The white objects met so far are black, queued once each, and listed. */
  ghost predicate Marking(t: Table, wl: seq<Handle>, list: seq<Ptr>,
                          hs0: Headers, hs: Headers, ys0: Colors, ys: Colors)
  {
    && Parallel(t, wl, list) && Distinct(list)
    && Blackened(hs0, hs, Marked(list)) && BlackenedYoung(ys0, ys, Marked(list))
  }

  lemma ShadeSlot(t: Table, wl: seq<Handle>, list: seq<Ptr>, hs0: Headers, hs: Headers, ys0: Colors, ys: Colors,
                  h: Handle)
    requires Marking(t, wl, list, hs0, hs, ys0, ys) && hs0.Keys !! ys0.Keys
    requires IsLiveHandle(t, h) && AddrOf(t, h) in hs && hs[AddrOf(t, h)].color == White
    ensures var a := AddrOf(t, h);
            && Marking(t, wl + [h], list + [a], hs0, hs[a := hs[a].(color := Black)], ys0, ys)
            && Marked(list + [a]) == Marked(list) + {a} && a in WhiteSlots(hs0) && a !in Marked(list)
  {
    var a := AddrOf(t, h);
    MarkedAppend(list, a);
    DistinctAppend(list, a);
  }

  lemma ShadeYoung(t: Table, wl: seq<Handle>, list: seq<Ptr>, hs0: Headers, hs: Headers, ys0: Colors, ys: Colors,
                   h: Handle)
    requires Marking(t, wl, list, hs0, hs, ys0, ys) && hs0.Keys !! ys0.Keys
    requires IsLiveHandle(t, h) && AddrOf(t, h) in ys && ys[AddrOf(t, h)] == White
    ensures var a := AddrOf(t, h);
            && Marking(t, wl + [h], list + [a], hs0, hs, ys0, ys[a := Black])
            && Marked(list + [a]) == Marked(list) + {a} && a in WhiteYoung(ys0) && a !in Marked(list)
  {
    var a := AddrOf(t, h);
    MarkedAppend(list, a);
    DistinctAppend(list, a);
  }

  /** An object that is not white is either marked already or was never white. */
  lemma ShadeNothing(t: Table, wl: seq<Handle>, list: seq<Ptr>, hs0: Headers, hs: Headers, ys0: Colors, ys: Colors,
                     a: Ptr)
    requires Marking(t, wl, list, hs0, hs, ys0, ys)
    requires a in hs ==> hs[a].color != White
    requires a in ys ==> ys[a] != White
    ensures a in Marked(list) || a !in WhiteSlots(hs0) + WhiteYoung(ys0)
  {
  }

  lemma InMarked(list: seq<Ptr>)
    ensures forall a :: a in list <==> a in Marked(list)
  {
  }

  lemma NullNamesNothing(t: Table)
    requires Inv(t)
    ensures !IsLiveHandle(t, NULL_HANDLE)
  {
  }

  /** Objects that live handles name are white when marking begins. */
  lemma WhiteCovers(t: Table, hs: Headers, ys: Colors)
    requires LiveColors(t, ys, {})
    ensures Covers(t, ys.Keys, WhiteYoung(ys)) && Covers(t, ys.Keys, WhiteSlots(hs) + WhiteYoung(ys))
  {
  }

  lemma DistinctAppend(list: seq<Ptr>, p: Ptr)
    requires Distinct(list) && p !in Marked(list)
    ensures Distinct(list + [p])
  {
    var more := list + [p];
    forall i, j | 0 <= i < j < |more| ensures more[i] != more[j] {
      if j == |list| { assert list[i] in Marked(list); }
    }
  }

  lemma RootsTraced(g: Graph, list: seq<Ptr>)
    requires Distinct(list)
    ensures Tracing(g, Marked(list), list, 0)
  {
    forall i | 0 <= i < |list| ensures Reach(g, Marked(list), list[i]) {
      ReachRoot(g, Marked(list), list[i]);
    }
  }

  lemma {:induction false} DistinctSize(list: seq<Ptr>)
    requires Distinct(list)
    ensures |Marked(list)| == |list|
  {
    if list != [] {
      var last := |list| - 1;
      DistinctSize(list[..last]);
      assert list == list[..last] + [list[last]];
      MarkedAppend(list[..last], list[last]);
    }
  }

  /** A worklist of distinct objects is no longer than the heap. */
  lemma WorklistBounded(t: Table, wl: seq<Handle>, list: seq<Ptr>, hs0: Headers, hs: Headers, ys0: Colors, ys: Colors,
                        nodes: set<Ptr>)
    requires Marking(t, wl, list, hs0, hs, ys0, ys) && Marked(list) <= nodes
    ensures |wl| <= |nodes|
  {
    DistinctSize(list);
    SubsetSize(Marked(list), nodes);
  }

  // ----- scanning one payload -----

  /** Every object of targets named by one of the first k words is marked. */
  ghost predicate ScannedTo(t: Table, p: seq<Byte>, targets: set<Ptr>, k: nat, marked: set<Ptr>)
    requires k <= |p| / 4
  {
    forall j, b :: 0 <= j < k && b in targets && RefersAt(t, p, j, b) ==> b in marked
  }

  lemma ScanStep(t: Table, p: seq<Byte>, targets: set<Ptr>, k: nat, marked: set<Ptr>, marked': set<Ptr>)
    requires k < |p| / 4 && ScannedTo(t, p, targets, k, marked) && marked <= marked'
    requires forall b :: b in targets && RefersAt(t, p, k, b) ==> b in marked'
    ensures ScannedTo(t, p, targets, k + 1, marked')
  {
  }

  /** What a trace may mark next: young objects or slots that were white. */
  function Targets(young: bool, hs: Headers, ys: Colors): set<Ptr> {
    if young then WhiteYoung(ys) else WhiteSlots(hs)
  }

  lemma TargetsWhite(young: bool, hs: Headers, ys: Colors)
    ensures Targets(young, hs, ys) <= WhiteSlots(hs) + WhiteYoung(ys)
  {
  }

  /** The edges a trace follows. The nursery's trace only looks inside the nursery. */
  ghost function Traced(young: bool, t: Table, pay: Payloads, hs: Headers, ys: Colors): Graph {
    RefGraph(t, Followed(young, pay, ys), Targets(young, hs, ys))
  }

  /** The payloads that a trace looks into. */
  ghost function Followed(young: bool, pay: Payloads, ys: Colors): Payloads {
    if young then InYoung(pay, ys) else pay
  }

  ghost function InYoung(pay: Payloads, ys: Colors): Payloads {
    map a | a in pay && a in ys :: pay[a]
  }

  lemma NotTraced(t: Table, pay: Payloads, hs: Headers, ys: Colors, a: Ptr)
    requires a !in ys
    ensures Succ(Traced(true, t, pay, hs, ys), a) == {}
  {
  }

  lemma ScanComplete(young: bool, t: Table, pay: Payloads, hs: Headers, ys: Colors, a: Ptr, marked: set<Ptr>)
    requires a in pay && ScannedTo(t, pay[a], Targets(young, hs, ys), |pay[a]| / 4, marked)
    ensures Succ(Traced(young, t, pay, hs, ys), a) <= marked
  {
  }

  lemma RefIsSucc(young: bool, t: Table, pay: Payloads, hs: Headers, ys: Colors, a: Ptr, k: nat, b: Ptr)
    requires a in pay && (young ==> a in ys) && k < |pay[a]| / 4
    requires b in Targets(young, hs, ys) && RefersAt(t, pay[a], k, b)
    ensures b in Succ(Traced(young, t, pay, hs, ys), a)
  {
  }

  // ----- the collector's verdict -----

  /** Slots that are not dead. */
  function LiveSlots(hs: Headers): set<Ptr> {
    set p | p in hs && hs[p].color != Dead
  }

  lemma DeadOrNew(hs: Headers, p: Ptr)
    requires p in hs ==> hs[p].color == Dead
    ensures p !in LiveSlots(hs)
  {
  }

  lemma WhitenedWhite(hs: Headers)
    ensures WhiteSlots(Whitened(hs)) == LiveSlots(hs)
  {
  }

  /** What a slot becomes when the old generation is marked from roots and swept. */
  ghost predicate Collected(hs0: Headers, hs: Headers, g: Graph, roots: set<Ptr>) {
    && hs.Keys == hs0.Keys
    && forall p :: p in hs0 ==>
         && hs[p].size == hs0[p].size
         && (hs[p].color == Dead <==> hs0[p].color == Dead || !Reach(g, roots, p))
  }

  lemma CollectedBySweep(hs0: Headers, hs1: Headers, g: Graph, roots: set<Ptr>, list: seq<Ptr>)
    requires Blackened(Whitened(hs0), hs1, Marked(list)) && Tracing(g, roots, list, |list|)
    ensures Collected(hs0, Swept(hs1), g, roots)
  {
    forall p | p in hs0
      ensures Swept(hs1)[p].color == Dead <==> hs0[p].color == Dead || !Reach(g, roots, p)
      ensures Swept(hs1)[p].size == hs0[p].size
    {
      assert p in Whitened(hs0) && p in hs1;
      TraceComplete(g, roots, list, p);
    }
  }

  // ----- the heap on values -----

  /** The heap at one moment: handles and their pins; the nursery with its colours, its
      bounds and the bytes left in it; the slots, the blocks and what the host will answer;
      payloads; the remembered set; the words of the stack and the registers; weak
      references; and the headers destroyed. */
  datatype Shot = Shot(
    t: Table,
    ext: map<Handle, nat>,
    ys: Colors,
    base: Ptr,
    end: Ptr,
    room: int,
    hs: Headers,
    blocks: seq<Block>,
    host: seq<Ptr>,
    pay: Payloads,
    remembered: set<Handle>,
    stack: seq<nat>,
    regs: seq<nat>,
    weak: seq<WeakEntry>,
    overwritten: map<Ptr, Ptr>)

  /** Every word that was the payload address of a moved object is that of its copy. */
  ghost predicate WordsForwarded(words: seq<nat>, words': seq<nat>, fwd: Forward) {
    |words'| == |words| && forall i :: 0 <= i < |words| ==> words'[i] == ForwardedWord(fwd, words[i])
  }

  /** Objects move from the nursery [lo, hi) to places outside it. */
  ghost predicate LeavesNursery(lo: Ptr, hi: Ptr, fwd: Forward) {
    forall a :: a in fwd ==> 256 <= lo <= a < hi && !(lo <= fwd[a] < hi)
  }

  /** What a minor collection does: handles follow or die, survivors move in the order of
      moves, copies hold the bytes, old objects stay, words of the stack and the registers
      follow. Objects are lost only for want of space. */
  ghost predicate MinorDone(s: Shot, roots: seq<Handle>, moves: seq<Ptr>, fwd: Forward, lost: set<Ptr>, s': Shot) {
    && s' == s.(t := s'.t, ys := map[], room := s.end - s.base, hs := s'.hs, blocks := s'.blocks, host := s'.host,
                pay := s'.pay, remembered := {}, stack := s'.stack, regs := s'.regs)
    && MovesOk(s.t, s.ys.Keys, s.pay, s.end, moves, fwd)
    && MovesFollow(OrderIn(s, roots), moves, lost, s.remembered == {}, true)
    && (lost != {} ==> Short(SpareIn(s), s.pay, moves, lost))
    && WordsForwarded(s.regs, s'.regs, fwd)
    && (if 8 * |s.stack| < STACK_LIMIT then WordsForwarded(s.stack, s'.stack, fwd) else s'.stack == s.stack)
    && LeavesNursery(s.base, s.end, fwd)
    && YoungFate(s.t, s.ys.Keys, s.pay, roots, s'.t, fwd)
    && Survivors(s.t, s.ys.Keys, s.pay, s.hs, roots, s.remembered, fwd, lost)
    && CopiesOk(s.pay, s'.hs, s'.pay, fwd) && SlotsKept(s.hs, s.pay, s'.hs, s'.pay, fwd)
  }

  /** The references that a major collection follows, and where it starts. */
  ghost function MajorGraph(s: Shot): Graph { RefGraph(s.t, s.pay, LiveSlots(s.hs)) }

  ghost function MajorStart(s: Shot, roots: seq<Handle>): set<Ptr> {
    RootAddrs(s.t, roots, LiveSlots(s.hs) + WhiteYoung(s.ys))
  }

  /** What a major collection does: unreached slots die and give up their bytes. */
  ghost predicate MajorDone(s: Shot, roots: seq<Handle>, s': Shot) {
    && s' == s.(ys := s'.ys, hs := s'.hs, pay := Survived(s.pay, s'.hs), weak := SweptWeak(s.weak, s.t, s'.hs))
    && s'.ys.Keys == s.ys.Keys
    && Collected(s.hs, s'.hs, MajorGraph(s), MajorStart(s, roots))
  }

  /** The roots reach every slot that a live handle names. */
  ghost predicate ReachesAll(s: Shot, roots: seq<Handle>) {
    AllReached(s.t, s.ys.Keys, LiveSlots(s.hs), MajorGraph(s), MajorStart(s, roots))
  }

  /** A collection: the objects moved, in order, and where to, those without room, and the
      heap after its minor part and at its end. */
  datatype Trail = Trail(moves: seq<Ptr>, fwd: Forward, lost: set<Ptr>, mid: Shot, after: Shot)

  /** A whole collection that destroys no header. It runs a major part if the old
      generation has reached the threshold; handles dangle afterwards exactly if that part
      does not reach all that live handles name. */
  ghost predicate CollectDone(s: Shot, young: seq<Handle>, roots: seq<Handle>, threshold: nat, c: Trail,
                              outcome: Outcome) {
    && MinorDone(s, young, c.moves, c.fwd, c.lost, c.mid)
    && (outcome == NoRoom <==> c.lost != {})
    && if c.lost == {} && LiveBytes(c.mid.hs) >= threshold
       then MajorDone(c.mid, roots, c.after) && outcome == (if ReachesAll(c.mid, roots) then Clean else Dangling)
       else c.after == c.mid && (c.lost == {} ==> outcome == Clean)
  }

  /** A collection that destroys a header in use: that of the object behind the one moved
      last, which the roots reach or a remembered object names. */
  ghost predicate SmashDone(s: Shot, young: seq<Handle>, c: Trail) {
    && HarmfulLast(s.t, s.ys.Keys, s.pay, s.end, c.moves)
    && c.after.overwritten.Keys == {c.moves[|c.moves| - 1] + HEADER}
    && MayMove(s.t, s.ys.Keys, s.pay, s.hs, young, s.remembered, c.moves[|c.moves| - 1])
    && MovesFollow(OrderIn(s, young), c.moves, c.lost, s.remembered == {}, false)
    && (c.lost != {} ==> Short(SpareIn(s), s.pay, c.moves, c.lost))
  }

  /** The order in which a minor collection meets young objects. */
  function OrderIn(s: Shot, roots: seq<Handle>): seq<Ptr> { OrderOf(s.t, s.pay, s.ys.Keys, roots) }

  /** Known before a collection: in this order the forwarding pointers do no harm. */
  ghost predicate OrderHarmless(s: Shot, roots: seq<Handle>) {
    HarmlessMoves(s.t.handles, s.ys.Keys, s.pay, s.end, OrderIn(s, roots))
  }

  /** Known before a collection: the old generation can spare what these objects need. */
  ghost predicate OrderFits(s: Shot, roots: seq<Handle>) { Needs(s.pay, OrderIn(s, roots)) <= SpareIn(s) }

  /** Without remembered objects and with room, a header in use is destroyed exactly if
      that order does harm; with remembered objects or without room, if it does harm a
      header is destroyed or objects are lost. */
  lemma OrderDecides(s: Shot, young: seq<Handle>, roots: seq<Handle>, threshold: nat, c: Trail, outcome: Outcome)
    requires if outcome == Smashed then SmashDone(s, young, c) else CollectDone(s, young, roots, threshold, c, outcome)
    ensures s.remembered == {} && OrderFits(s, young) ==>
              c.lost == {} && outcome != NoRoom && (outcome == Smashed <==> !OrderHarmless(s, young))
    ensures !OrderHarmless(s, young) ==> outcome == Smashed || outcome == NoRoom
  {
    hide YoungFate, Survivors, CopiesOk, SlotsKept, LeavesNursery, WordsForwarded, MajorDone, ReachesAll, LiveBytes,
         HarmlessAfter, NamedYoung, MayMove, OrderIn, SpareIn, Needs, Need;
    var order := OrderIn(s, young);
    if s.remembered == {} && c.lost != {} {
      var b :| b in c.lost && b in s.pay && SpareIn(s) < Needs(s.pay, c.moves) + Need(s.pay[b]);
      NeedsMore(s.pay, c.moves, b);
      NeedsSubset(s.pay, c.moves + [b], order);
    }
    if c.lost == {} {
      HarmIsInherited(s.t.handles, s.ys.Keys, s.pay, s.end, c.moves, order);
    }
  }

  /** Harm in a beginning of the moves is harm in all of them. */
  lemma HarmIsInherited(entries: seq<HandleEntry>, young: set<Ptr>, pay: Payloads, end: Ptr, moves: seq<Ptr>,
                        more: seq<Ptr>)
    ensures moves <= more && !HarmlessMoves(entries, young, pay, end, moves) ==>
              !HarmlessMoves(entries, young, pay, end, more)
    ensures more <= moves && !HarmlessMoves(entries, young, pay, end, more) ==>
              !HarmlessMoves(entries, young, pay, end, moves)
    ensures moves != [] && !HarmlessAfter(entries, young, pay, end, moves[..|moves| - 1], moves[|moves| - 1]) ==>
              !HarmlessMoves(entries, young, pay, end, moves)
  {
    hide HarmlessAfter;
    assert moves <= more ==> forall i :: 0 <= i < |moves| ==> more[..i] == moves[..i];
    assert more <= moves ==> forall i :: 0 <= i < |more| ==> more[..i] == moves[..i];
  }

  /** What the old generation can spare for certain. */
  function SpareIn(s: Shot): nat { SpareOf(s.blocks, s.host, s.base, s.end) }

  /** No memory for size bytes: neither a dead slot nor a block nor the host serves. */
  ghost predicate TooLarge(s: Shot, size: nat) {
    var total := RoundUp8(HEADER + size);
    !DeadSlotServes(s.hs, total) && !NewSlotServes(s.blocks, s.host, s.base, s.end, total)
  }

  /** The heap after a request that was refused: the host was asked in vain. */
  function Refused(s: Shot): Shot { s.(host := Tail(s.host)) }

  /** A slot at raw for size bytes, dead before or new and apart from all live slots; its
      header holds the size modulo 2^32. */
  ghost predicate SlotTaken(hs: Headers, hs': Headers, raw: Ptr, size: nat) {
    && raw in hs' && hs' == hs[raw := hs'[raw]] && hs'[raw].color == White
    && (raw in hs ==> hs[raw].color == Dead)
    && ApartFromLive(hs, raw, HEADER + size)
    && (Holdable(size) ==> HEADER + size <= Span(hs'[raw]))
    && (!Holdable(size) ==> hs'[raw].size == (RoundUp8(HEADER + size) - HEADER) % SIZE_LIMIT < size)
  }

  /** The table with a new handle h for the address raw. */
  ghost predicate NewTable(t: Table, raw: Ptr, h: Handle, t': Table) {
    && (forall i :: 0 <= i < |t.free| ==> t.free[i] < |t.handles|)
    && h == NewSlot(t) && t' == New(t, raw)
  }

  /** A new object of size bytes at raw behind the handle h. */
  ghost predicate NewObject(s: Shot, h: Handle, size: nat, raw: Ptr, s': Shot) {
    && Inv(s.t) && h == NewSlot(s.t) && Unused(s.t, raw) && raw !in s.ys && raw !in LiveSlots(s.hs)
    && raw in s'.pay && Zeros(size) <= s'.pay[raw]
    && s' == s.(t := New(s.t, raw), ys := s'.ys, room := s'.room, hs := s'.hs, blocks := s'.blocks, host := s'.host,
                pay := s.pay[raw := s'.pay[raw]])
    && (Young(s, size, raw, s') || Old(s, size, raw, s'))
  }

  /** The object is carved off the nursery, or has a slot of the old generation. */
  ghost predicate Young(s: Shot, size: nat, raw: Ptr, s': Shot) {
    && s'.ys == s.ys[raw := White] && s'.hs == s.hs && s'.blocks == s.blocks && s'.host == s.host
    && s'.room == s.room - RoundUp8(HEADER + size) >= 0
  }

  ghost predicate Old(s: Shot, size: nat, raw: Ptr, s': Shot) {
    s'.ys == s.ys && s'.room == s.room && SlotTaken(s.hs, s'.hs, raw, size)
  }

  class Heap {
    const handles: HandleSpace
    const oldGen: OldSpace
    const nurseryBase: Ptr
    const nurseryEnd: Ptr
    var nurseryBump: Ptr
    var youngColor: Colors
    var payload: Payloads
    var forwardTable: map<Ptr, Ptr>
    var remembered: set<Handle>
    var stack: seq<nat>
    var regs: seq<nat>
    var oldThreshold: nat
    /** Forwarding pointers that were written over the header of another young object
        or past the end of the nursery, by address. */
    var overwritten: map<Ptr, Ptr>
    var weak: seq<WeakEntry>
    /** The objects that the last minor collection moved, in order. */
    ghost var moves: seq<Ptr>
    /** What the old generation could spare when it began. */
    ghost var spare: nat

    ghost predicate Valid()
      reads this, handles, handles.ptrToHandle, oldGen
    {
      && handles.Valid() && oldGen.Valid() && overwritten == map[]
      && Layout(handles.State(), youngColor, oldGen.headers, payload)
      && NurseryOk(youngColor, payload, nurseryBase, nurseryBump, nurseryEnd)
      && oldGen.nurseryLo == nurseryBase && oldGen.nurseryHi == nurseryEnd
    }

    /** The heap as it is now. */
    ghost function Now(): Shot
      reads this, handles, handles.ptrToHandle, oldGen
    {
      Shot(handles.State(), handles.externalRefs, youngColor, nurseryBase, nurseryEnd, nurseryEnd - nurseryBump,
           oldGen.headers, oldGen.blocks, oldGen.host, payload, remembered, stack, regs, weak, overwritten)
    }

    /** Moreover no live handle names a dead slot. */
    ghost predicate Consistent()
      reads this, handles, handles.ptrToHandle, oldGen
    {
      Valid() && Mapped(handles.State(), youngColor.Keys + LiveSlots(oldGen.headers))
    }

    /** Whatever a minor collection moves first, its forwarding pointer does no harm. */
    ghost predicate Collectable()
      reads this, handles, handles.ptrToHandle, oldGen
    {
      Consistent() && AllHarmless(handles.handles, youngColor.Keys, payload, nurseryEnd)
    }

    constructor (base: Ptr, end: Ptr, threshold: nat, host: seq<Ptr>)
      requires 256 <= base <= end <= base + MAX_NURSERY
      ensures Collectable() && fresh(handles) && fresh(handles.ptrToHandle) && fresh(oldGen)
      ensures handles.State() == NO_HANDLES && handles.externalRefs == map[] && youngColor == map[] && payload == map[]
      ensures nurseryBase == base == nurseryBump && nurseryEnd == end
      ensures oldGen.headers == map[] && oldGen.blocks == [] && oldGen.host == host && oldGen.nurseryHi == end
      ensures forwardTable == map[] && remembered == {} && stack == [] && oldThreshold == threshold && weak == []
    {
      hide Inv, Ok, PM.PtrTable.Valid, Layout, NurseryOk, Mapped, LiveSlots, AllHarmless, AwayFrom;
      nurseryBase, nurseryEnd, nurseryBump := base, end, base;
      youngColor, payload, forwardTable, remembered := map[], map[], map[], {};
      stack, regs, oldThreshold, overwritten, weak := [], seq(16, _ => 0), threshold, map[], [];
      handles := new HandleSpace();
      oldGen := new OldSpace(base, end, host);
      new;
      FreshHeap(base, end);
      NoneYoung(handles.handles, payload, nurseryEnd);
    }

    /** Mark the object of h and queue it, if it is white. */
    method Shade(h: Handle, wl: seq<Handle>, ghost list: seq<Ptr>, ghost hs0: Headers, ghost ys0: Colors)
      returns (wl': seq<Handle>, ghost list': seq<Ptr>)
      requires hs0.Keys !! ys0.Keys
      requires Marking(handles.State(), wl, list, hs0, oldGen.headers, ys0, youngColor) && Valid()
      modifies oldGen`headers, this`youngColor
      ensures var t := handles.State();
              Marked(list') == Marked(list) +
                (if IsLiveHandle(t, h) && AddrOf(t, h) in WhiteSlots(hs0) + WhiteYoung(ys0) then {AddrOf(t, h)} else {})
      ensures list' == Visit(handles.State(), WhiteSlots(hs0) + WhiteYoung(ys0), list, h)
      ensures Marking(handles.State(), wl', list', hs0, oldGen.headers, ys0, youngColor) && Valid()
    {
      hide Inv, Ok, NurseryOk, Marking, Layout;
      wl', list' := wl, list;
      InMarked(list);
      if h >= |handles.handles| || !handles.handles[h].live { return; }
      var a := handles.handles[h].addr;
      ghost var t := handles.State();
      LayoutPlaces(t, youngColor, oldGen.headers, payload, h);
      if a in oldGen.headers {
        if oldGen.headers[a].color == White {
          ShadeSlot(t, wl, list, hs0, oldGen.headers, ys0, youngColor, h);
          LayoutPaint(t, youngColor, oldGen.headers, payload, a, Black);
          oldGen.Paint(a, Black);
          return wl + [h], list + [a];
        }
      } else if youngColor[a] == White {
        ShadeYoung(t, wl, list, hs0, oldGen.headers, ys0, youngColor, h);
        LayoutYoung(t, youngColor, oldGen.headers, payload, a, Black);
        NurseryPaint(youngColor, youngColor[a := Black], payload, nurseryBase, nurseryBump, nurseryEnd);
        youngColor := youngColor[a := Black];
        return wl + [h], list + [a];
      }
      ShadeNothing(t, wl, list, hs0, oldGen.headers, ys0, youngColor, a);
    }

    /** Mark what the root scan found. */
    method MarkRoots(roots: seq<Handle>) returns (wl: seq<Handle>, ghost list: seq<Ptr>)
      requires Valid()
      modifies oldGen`headers, this`youngColor
      ensures Marking(handles.State(), wl, list, old(oldGen.headers), oldGen.headers, old(youngColor), youngColor)
      ensures Marked(list) ==
              RootAddrs(handles.State(), roots, WhiteSlots(old(oldGen.headers)) + WhiteYoung(old(youngColor)))
      ensures list == VisitAll(handles.State(), WhiteSlots(old(oldGen.headers)) + WhiteYoung(old(youngColor)), [],
                               roots)
      ensures Valid()
    {
      hide Inv, Ok, NurseryOk, Marking, Layout, RootAddrs, WhiteSlots, WhiteYoung, PM.PtrTable.Valid, AwayFrom,
           HandleSpace.Valid, OldSpace.Valid;
      ghost var hs0, ys0 := oldGen.headers, youngColor;
      ghost var white := WhiteSlots(hs0) + WhiteYoung(ys0);
      wl, list := [], [];
      MarkingBegins(handles.State(), hs0, ys0);
      LayoutDisjoint(handles.State(), ys0, hs0, payload);
      NoRoots(handles.State(), white);
      assert roots[..0] == [];
      for i := 0 to |roots|
        invariant Marking(handles.State(), wl, list, hs0, oldGen.headers, ys0, youngColor) && Valid()
        invariant Marked(list) == RootAddrs(handles.State(), roots[..i], white)
        invariant list == VisitAll(handles.State(), white, [], roots[..i])
      {
        RootAddrsStep(handles.State(), roots, white, i);
        VisitNext(handles.State(), white, [], roots, i);
        wl, list := Shade(roots[i], wl, list, hs0, ys0);
      }
      assert roots[..|roots|] == roots;
    }

    /** Scan the payload of one queued object and queue the white objects it names:
        slots for mark_reachable, young objects for the loop of minor_gc, which
        also passes over queued objects that are not young. */
    method ScanPayload(young: bool, done: nat, wl: seq<Handle>, ghost list: seq<Ptr>, ghost hs0: Headers,
                       ghost ys0: Colors, ghost roots: set<Ptr>)
      returns (wl': seq<Handle>, ghost list': seq<Ptr>)
      requires hs0.Keys !! ys0.Keys && done < |wl|
      requires Marking(handles.State(), wl, list, hs0, oldGen.headers, ys0, youngColor) && Valid()
      requires Tracing(Traced(young, handles.State(), payload, hs0, ys0), roots, list, done)
      requires Marked(list) <= payload.Keys
      modifies oldGen`headers, this`youngColor
      ensures Marking(handles.State(), wl', list', hs0, oldGen.headers, ys0, youngColor) && Valid()
      ensures Tracing(Traced(young, handles.State(), payload, hs0, ys0), roots, list', done + 1)
      ensures Marked(list') <= Marked(list) + Targets(young, hs0, ys0) && done < |wl'| && list <= list' && done < |list|
      ensures list' == Expand(handles.State(), Followed(young, payload, ys0), Targets(young, hs0, ys0), list, done)
    {
      hide Inv, Ok, NurseryOk, Marking, Layout, Tracing, Traced, Targets;
      wl', list' := wl, list;
      ghost var t := handles.State();
      ghost var g := Traced(young, t, payload, hs0, ys0);
      ghost var targets := Targets(young, hs0, ys0);
      MarkingAt(t, wl, list, hs0, oldGen.headers, ys0, youngColor, done);
      MarkingHeaders(t, wl, list, hs0, oldGen.headers, ys0, youngColor);
      var a := handles.handles[wl[done]].addr;
      MarkingYoung(t, wl, list, hs0, oldGen.headers, ys0, youngColor);
      if young && a !in youngColor {
        NotTraced(t, payload, hs0, ys0, a);
        TraceAdvance(g, roots, list, done);
        return;
      }
      var p := payload[a];
      var k := 0;
      assert Words(p)[..0] == [];
      while 4 * k + 4 <= |p|
        invariant 0 <= k <= |p| / 4
        invariant Marking(t, wl', list', hs0, oldGen.headers, ys0, youngColor) && Valid()
        invariant Tracing(g, roots, list', done)
        invariant done < |list'| && |wl'| == |list'| && list'[done] == a
        invariant ScannedTo(t, p, targets, k, Marked(list'))
        invariant Marked(list') <= Marked(list) + targets && list <= list'
        invariant list' == VisitAll(t, targets, list, Words(p)[..k])
        decreases |p| - 4 * k
      {
        ghost var before := Marked(list');
        VisitNext(t, targets, list, Words(p), k);
        wl', list' := MarkRef(young, WordAt(p, k), k, done, a, wl', list', hs0, ys0, roots);
        ScanStep(t, p, targets, k, before, Marked(list'));
        k := k + 1;
      }
      assert Words(p)[..k] == Words(p);
      ScanComplete(young, t, payload, hs0, ys0, a, Marked(list'));
      TraceAdvance(g, roots, list', done);
    }

    /** One word of the scan: a live handle of a white object of the generation
        being followed is marked and queued. */
    method MarkRef(young: bool, ref: nat, ghost k: nat, ghost done: nat, ghost a: Ptr, wl: seq<Handle>,
                   ghost list: seq<Ptr>, ghost hs0: Headers, ghost ys0: Colors, ghost roots: set<Ptr>)
      returns (wl': seq<Handle>, ghost list': seq<Ptr>)
      requires hs0.Keys !! ys0.Keys && done < |list| && list[done] == a && a in payload && (young ==> a in ys0)
      requires k < |payload[a]| / 4 && ref == WordAt(payload[a], k)
      requires Marking(handles.State(), wl, list, hs0, oldGen.headers, ys0, youngColor) && Valid()
      requires Tracing(Traced(young, handles.State(), payload, hs0, ys0), roots, list, done)
      modifies oldGen`headers, this`youngColor
      ensures Marking(handles.State(), wl', list', hs0, oldGen.headers, ys0, youngColor) && Valid()
      ensures Tracing(Traced(young, handles.State(), payload, hs0, ys0), roots, list', done)
      ensures list <= list' && list'[done] == a && |wl'| == |list'|
      ensures list' == Visit(handles.State(), Targets(young, hs0, ys0), list, ref)
      ensures Marked(list) <= Marked(list') <= Marked(list) + Targets(young, hs0, ys0)
      ensures forall b :: b in Targets(young, hs0, ys0) && RefersAt(handles.State(), payload[a], k, b) ==>
                b in Marked(list')
    {
      hide Inv, Ok, NurseryOk, Marking, Layout, Tracing, Traced, WordAt;
      wl', list' := wl, list;
      ghost var t := handles.State();
      MarkingLength(t, wl, list, hs0, oldGen.headers, ys0, youngColor);
      InMarked(list);
      NullNamesNothing(t);
      if ref == NULL_HANDLE || ref >= |handles.handles| || !handles.handles[ref].live { return; }
      var b := handles.handles[ref].addr;
      LayoutPlaces(t, youngColor, oldGen.headers, payload, ref);
      if if young then b !in youngColor || youngColor[b] != White
         else b !in oldGen.headers || oldGen.headers[b].color != White {
        MarkingSlots(t, wl, list, hs0, oldGen.headers, ys0, youngColor, b);
        return;
      }
      if young {
        ShadeYoung(t, wl, list, hs0, oldGen.headers, ys0, youngColor, ref);
        LayoutYoung(t, youngColor, oldGen.headers, payload, b, Black);
        NurseryPaint(youngColor, youngColor[b := Black], payload, nurseryBase, nurseryBump, nurseryEnd);
      } else {
        ShadeSlot(t, wl, list, hs0, oldGen.headers, ys0, youngColor, ref);
        LayoutPaint(t, youngColor, oldGen.headers, payload, b, Black);
      }
      RefIsSucc(young, t, payload, hs0, ys0, a, k, b);
      TracePush(Traced(young, t, payload, hs0, ys0), roots, list, done, b);
      if young {
        youngColor := youngColor[b := Black];
      } else {
        oldGen.Paint(b, Black);
      }
      return wl + [ref], list + [b];
    }

    /** Process the worklist until it is exhausted. */
    method Trace(young: bool, wl0: seq<Handle>, ghost list0: seq<Ptr>, ghost hs0: Headers, ghost ys0: Colors)
      returns (wl: seq<Handle>, ghost list: seq<Ptr>)
      requires hs0.Keys !! ys0.Keys
      requires Marking(handles.State(), wl0, list0, hs0, oldGen.headers, ys0, youngColor) && Valid()
      requires Marked(list0) <= WhiteSlots(hs0) + WhiteYoung(ys0) <= payload.Keys
      modifies oldGen`headers, this`youngColor
      ensures Marking(handles.State(), wl, list, hs0, oldGen.headers, ys0, youngColor) && Valid()
      ensures Tracing(Traced(young, handles.State(), payload, hs0, ys0), Marked(list0), list, |list|)
      ensures Marked(list) <= WhiteSlots(hs0) + WhiteYoung(ys0) && list0 <= list
      ensures list == TraceFrom(handles.State(), Followed(young, payload, ys0), Targets(young, hs0, ys0), list0, 0)
    {
      hide Inv, Ok, NurseryOk, Marking, Layout, Tracing, Traced, Targets, WhiteSlots, WhiteYoung, Marked;
      ghost var t := handles.State();
      ghost var g := Traced(young, t, payload, hs0, ys0);
      ghost var white := WhiteSlots(hs0) + WhiteYoung(ys0);
      ghost var inside, targets := Followed(young, payload, ys0), Targets(young, hs0, ys0);
      TargetsWhite(young, hs0, ys0);
      wl, list := wl0, list0;
      MarkingDistinct(t, wl, list, hs0, oldGen.headers, ys0, youngColor);
      RootsTraced(g, list);
      var i := 0;
      while i < |wl|
        invariant 0 <= i <= |wl| == |list|
        invariant Marking(t, wl, list, hs0, oldGen.headers, ys0, youngColor) && Valid()
        invariant Tracing(g, Marked(list0), list, i)
        invariant Marked(list) <= white && list0 <= list
        invariant TraceFrom(t, inside, targets, list, i) == TraceFrom(t, inside, targets, list0, 0)
        decreases |white| - i
      {
        WorklistBounded(t, wl, list, hs0, oldGen.headers, ys0, youngColor, white);
        TraceNext(t, inside, targets, list, i);
        wl, list := ScanPayload(young, i, wl, list, hs0, ys0, Marked(list0));
        MarkingLength(t, wl, list, hs0, oldGen.headers, ys0, youngColor);
        i := i + 1;
      }
    }

    // ----- allocation and release -----

    /** The nursery fast path of alloc. The nursery stays collectable unless an object
        comes to stand right behind an empty one, or an empty one at the very end. */
    method AllocYoung(size: nat) returns (h: Handle)
      requires nurseryBump + RoundUp8(HEADER + size) <= nurseryEnd && |handles.handles| < SHARED_HANDLE_BIT
      requires Valid()
      modifies this`nurseryBump, this`youngColor, this`payload, handles`handles, handles`freeHandles,
               handles.ptrToHandle
      ensures h == old(NewSlot(handles.State())) && handles.State() == New(old(handles.State()), old(nurseryBump))
      ensures nurseryBump == old(nurseryBump) + RoundUp8(HEADER + size)
      ensures youngColor == old(youngColor)[old(nurseryBump) := White] && old(nurseryBump) !in old(youngColor)
      ensures payload == old(payload)[old(nurseryBump) := Zeros(size)]
      ensures NewObject(old(Now()), h, size, old(nurseryBump), Now())
      ensures Valid() && (Consistent() <==> old(Consistent()))
      ensures Collectable() <==>
                && old(Collectable())
                && (size > 0 || old(nurseryBump) + 2 * HEADER <= nurseryEnd)
                && old(NoneEndsAt(handles.handles, youngColor.Keys, nurseryBump))
    {
      hide Inv, Ok, NurseryOk, Layout, Mapped, PM.PtrTable.Valid, LiveSlots, Unused, RoundUp8, New, AllHarmless,
           NoneEndsAt;
      ghost var t := handles.State();
      var raw := nurseryBump;
      var zeros := Zeros(size);
      OkTiles(oldGen.blocks, oldGen.headers, oldGen.smallFree, oldGen.largeFree, oldGen.used);
      NurseryRange(youngColor, payload, nurseryBase, nurseryBump, nurseryEnd);
      NoSlotInNursery(oldGen.blocks, oldGen.headers, nurseryBase, nurseryEnd, raw);
      NurseryGrows(youngColor, payload, nurseryBase, nurseryBump, nurseryEnd, zeros,
                   nurseryBump + RoundUp8(HEADER + size));
      LayoutNewYoung(t, youngColor, oldGen.headers, payload, raw, zeros);
      DeadOrNew(oldGen.headers, raw);
      HarmlessGrows(t, youngColor, payload, nurseryBase, nurseryBump, nurseryEnd, zeros);
      nurseryBump := nurseryBump + RoundUp8(HEADER + size);
      youngColor, payload := youngColor[raw := White], payload[raw := zeros];
      h := handles.NewHandle(raw);
    }

    /** alloc_pinned, and alloc when the nursery cannot serve: a slot of the old
        generation, zeroed up to the requested size. */
    method AllocPinned(size: nat) returns (h: Handle, ghost raw: Ptr)
      requires |handles.handles| < SHARED_HANDLE_BIT
      requires Valid()
      modifies this`payload, handles`handles, handles`freeHandles, handles.ptrToHandle, oldGen
      ensures h == NULL_HANDLE ==> Now() == Refused(old(Now()))
      ensures h == NULL_HANDLE <==> TooLarge(old(Now()), size)
      ensures h != NULL_HANDLE ==> SlotTaken(old(oldGen.headers), oldGen.headers, raw, size)
      ensures h != NULL_HANDLE ==>
                && NewTable(old(handles.State()), raw, h, handles.State())
                && raw in payload && payload == old(payload)[raw := payload[raw]] && Zeros(size) <= payload[raw]
                && (Holdable(size) ==> raw !in youngColor && |payload[raw]| == oldGen.headers[raw].size)
      ensures h != NULL_HANDLE && Holdable(size) && old(Unused(handles.State(), raw)) ==>
                NewObject(old(Now()), h, size, raw, Now())
      ensures var cls := ClassCeil(RoundUp8(HEADER + size));
              cls < SMALL_CLASS_COUNT && old(oldGen.smallFree[cls]) != [] ==>
                h != NULL_HANDLE && raw == old(oldGen.smallFree[cls])[0]
      ensures h != NULL_HANDLE && ClassCeil(RoundUp8(HEADER + size)) < SMALL_CLASS_COUNT ==>
                Span(oldGen.headers[raw]) <= CLASS_SIZES[SMALL_CLASS_COUNT - 1]
      ensures Valid() <==> h == NULL_HANDLE || (Holdable(size) && old(Unused(handles.State(), raw)))
      ensures old(Consistent()) ==> (Consistent() <==> h == NULL_HANDLE || Holdable(size))
    {
      hide Inv, Ok, NurseryOk, Layout, Mapped, PM.PtrTable.Valid, ApartFromLive, AwayFrom, New, LiveSlots, Unused,
           ClassCeil, TooLarge, OldSpace.Serves, OldSpace.Spare, SlotTotal, CLASS_SIZES;
      ghost var hs := oldGen.headers;
      ServesIs(size);
      FreeInRange(handles.State());
      ghost var places := youngColor.Keys + LiveSlots(hs);
      var slot, actual := oldGen.Alloc(RoundUp8(HEADER + size), White);
      raw := slot;
      if slot == 0 {
        return NULL_HANDLE, 0;
      }
      ApartShrinks(hs, slot, actual, HEADER + size);
      DeadOrNew(hs, slot);
      var tail := StaleBytes(actual - HEADER - size);
      if Holdable(size) {
        h := InstallNew(slot, Zeros(size) + tail, hs);
      } else {
        CutSize(size);
        h := InstallCut(slot, Zeros(size) + tail);
      }
    }

    /** The same writes for a slot whose header holds less than its payload. */
    method InstallCut(raw: Ptr, bytes: seq<Byte>) returns (h: Handle)
      requires raw > 0 && |handles.handles| < SHARED_HANDLE_BIT && handles.Valid()
      modifies this`payload, handles`handles, handles`freeHandles, handles.ptrToHandle
      ensures payload == old(payload)[raw := bytes] && h != NULL_HANDLE
      ensures h == old(NewSlot(handles.State())) && handles.State() == New(old(handles.State()), raw)
    {
      hide Inv, PM.PtrTable.Valid, Unused, New;
      NewSlotInRange(handles.State());
      payload := payload[raw := bytes];
      h := handles.NewHandle(raw);
    }

    method InstallNew(raw: Ptr, bytes: seq<Byte>, ghost hs: Headers) returns (h: Handle)
      requires raw > 0 && (raw in hs ==> hs[raw].color == Dead)
      requires raw in oldGen.headers && oldGen.headers[raw].color != Dead
               && oldGen.headers == hs[raw := oldGen.headers[raw]]
      requires |bytes| == oldGen.headers[raw].size
      requires oldGen.Valid() && oldGen.nurseryLo == nurseryBase && oldGen.nurseryHi == nurseryEnd
      requires |handles.handles| < SHARED_HANDLE_BIT && handles.Valid()
      requires Layout(handles.State(), youngColor, hs, payload)
      requires NurseryOk(youngColor, payload, nurseryBase, nurseryBump, nurseryEnd)
      modifies this`payload, handles`handles, handles`freeHandles, handles.ptrToHandle
      ensures payload == old(payload)[raw := bytes] && h != NULL_HANDLE && raw !in youngColor
      ensures h == old(NewSlot(handles.State())) && handles.State() == New(old(handles.State()), raw)
      ensures handles.Valid() <==> old(Unused(handles.State(), raw))
      ensures Layout(handles.State(), youngColor, oldGen.headers, payload)
      ensures old(Mapped(handles.State(), youngColor.Keys + LiveSlots(hs))) ==>
                handles.Valid() && Mapped(handles.State(), youngColor.Keys + LiveSlots(oldGen.headers))
      ensures NurseryOk(youngColor, payload, nurseryBase, nurseryBump, nurseryEnd)
    {
      hide Inv, Ok, NurseryOk, Layout, Mapped, PM.PtrTable.Valid, Unused, New, LiveSlots, AwayFrom;
      ghost var t := handles.State();
      OkTiles(oldGen.blocks, oldGen.headers, oldGen.smallFree, oldGen.largeFree, oldGen.used);
      SlotOutsideNursery(oldGen.blocks, oldGen.headers, nurseryBase, nurseryEnd, raw);
      NurseryBounds(youngColor, payload, nurseryBase, nurseryBump, nurseryEnd, raw);
      NurseryCopy(youngColor, payload, nurseryBase, nurseryBump, nurseryEnd, raw, bytes);
      LayoutNewOld(t, youngColor, hs, payload, raw, oldGen.headers[raw], bytes);
      NewSlotInRange(t);
      payload := payload[raw := bytes];
      h := handles.NewHandle(raw);
    }

    /** The program reads a byte of an object through its handle. */
    method Load(h: Handle, i: nat) returns (b: Byte)
      requires IsLiveHandle(handles.State(), h)
      requires var a := AddrOf(handles.State(), h); a in payload && i < |payload[a]|
      ensures b == payload[AddrOf(handles.State(), h)][i]
    {
      b := payload[handles.handles[h].addr][i];
    }

    /** The program writes a byte of an object through its handle. */
    method Store(h: Handle, i: nat, b: Byte)
      requires Valid() && IsLiveHandle(handles.State(), h)
      requires var a := AddrOf(handles.State(), h); a in payload && i < |payload[a]|
      modifies this`payload
      ensures var a := AddrOf(handles.State(), h);
              payload == old(payload)[a := Written(old(payload[a]), i, b)]
      ensures Valid() && (Consistent() <==> old(Consistent())) && (Collectable() <==> old(Collectable()))
    {
      hide Inv, Ok, NurseryOk, Layout, Mapped, PM.PtrTable.Valid, LiveSlots;
      var a := handles.handles[h].addr;
      var bytes := Written(payload[a], i, b);
      NurseryRewrite(youngColor, payload, nurseryBase, nurseryBump, nurseryEnd, a, bytes);
      LayoutRewrite(handles.State(), youngColor, oldGen.headers, payload, a, bytes);
      payload := payload[a := bytes];
    }

    method Drop(h: Handle)
      requires Consistent()
      modifies handles`handles, handles`freeHandles, handles.ptrToHandle
      ensures handles.State() == old(Release(handles.State(), handles.externalRefs, h))
      ensures Consistent() <==>
                old(h >= |handles.handles| || Pinned(handles.externalRefs, h) || IsLiveHandle(handles.State(), h))
      ensures old(Collectable()) && Consistent() ==> Collectable()
    {
      hide Inv, Ok, NurseryOk, Layout, Mapped, PM.PtrTable.Valid, LiveSlots, AllHarmless;
      HarmlessRelease(handles.State(), youngColor.Keys, payload, nurseryEnd, handles.externalRefs, h);
      LayoutRelease(handles.State(), youngColor, oldGen.headers, payload, handles.externalRefs, h);
      handles.ReleaseHandle(h);
    }

    method WriteBarrier(oldHandle: Handle)
      modifies this`remembered
      ensures remembered == old(remembered) + {oldHandle}
      ensures (Consistent() <==> old(Consistent())) && (Collectable() <==> old(Collectable()))
    {
      hide Inv, Ok, NurseryOk, Layout, Mapped, PM.PtrTable.Valid, AllHarmless;
      remembered := remembered + {oldHandle};
    }

    /** A plugin pins a handle, or lets go of it. */
    method AddRef(h: Handle)
      modifies handles`externalRefs
      ensures handles.externalRefs == RefAdded(old(handles.externalRefs), h)
      ensures (Consistent() <==> old(Consistent())) && (Collectable() <==> old(Collectable()))
    {
      hide Inv, Ok, NurseryOk, Layout, Mapped, PM.PtrTable.Valid, AllHarmless;
      handles.AddRef(h);
    }

    method ReleaseRef(h: Handle)
      modifies handles`externalRefs
      ensures handles.externalRefs == RefReleased(old(handles.externalRefs), h)
      ensures (Consistent() <==> old(Consistent())) && (Collectable() <==> old(Collectable()))
    {
      hide Inv, Ok, NurseryOk, Layout, Mapped, PM.PtrTable.Valid, AllHarmless;
      handles.ReleaseRef(h);
    }

    /** The program writes a register or a word of its stack, or moves the stack pointer. */
    method SetRegister(i: nat, v: nat)
      requires i < |regs|
      modifies this`regs
      ensures regs == old(regs)[i := v]
      ensures (Consistent() <==> old(Consistent())) && (Collectable() <==> old(Collectable()))
    {
      hide Inv, Ok, NurseryOk, Layout, Mapped, PM.PtrTable.Valid, AllHarmless;
      regs := regs[i := v];
    }

    method SetStack(words: seq<nat>)
      modifies this`stack
      ensures stack == words
      ensures (Consistent() <==> old(Consistent())) && (Collectable() <==> old(Collectable()))
    {
      hide Inv, Ok, NurseryOk, Layout, Mapped, PM.PtrTable.Valid, AllHarmless;
      stack := words;
    }

    // ----- minor collection -----

    /** Pre-mark: every young object with a live handle turns white. */
    method PreMarkYoung()
      requires Consistent()
      modifies this`youngColor
      ensures youngColor.Keys == old(youngColor.Keys)
      ensures LiveColors(handles.State(), youngColor, {})
      ensures Consistent()
    {
      hide Inv, Ok, NurseryOk, Layout, Mapped;
      ghost var ys0 := youngColor;
      var h := 0;
      while h < |handles.handles|
        invariant 0 <= h <= |handles.handles|
        invariant youngColor.Keys == ys0.Keys
        invariant WhiteBelow(handles.State(), youngColor, h)
      {
        if handles.handles[h].live {
          var raw := handles.handles[h].addr;
          if raw in youngColor {
            youngColor := youngColor[raw := White];
          }
        }
        h := h + 1;
      }
      ConsistentRecolour(handles.State(), ys0, youngColor, oldGen.headers, payload);
      NurseryPaint(ys0, youngColor, payload, nurseryBase, nurseryBump, nurseryEnd);
    }

    /** Externally pinned handles and the handle under construction: only young
        objects are marked. */
    method MarkPinned(pinned: seq<Handle>, wl0: seq<Handle>, ghost list0: seq<Ptr>, ghost hs0: Headers,
                      ghost ys0: Colors)
      returns (wl: seq<Handle>, ghost list: seq<Ptr>)
      requires hs0.Keys !! ys0.Keys
      requires Marking(handles.State(), wl0, list0, hs0, oldGen.headers, ys0, youngColor) && Valid()
      modifies this`youngColor
      ensures Marking(handles.State(), wl, list, hs0, oldGen.headers, ys0, youngColor) && Valid()
      ensures Marked(list) == Marked(list0) + RootAddrs(handles.State(), pinned, WhiteYoung(ys0)) && list0 <= list
      ensures list == VisitAll(handles.State(), WhiteYoung(ys0), list0, pinned)
    {
      hide Inv, Ok, NurseryOk, Marking, Layout, PM.PtrTable.Valid, RootAddrs, AwayFrom;
      wl, list := wl0, list0;
      ghost var t := handles.State();
      ghost var hs := oldGen.headers;
      NoRoots(t, WhiteYoung(ys0));
      var i := 0;
      while i < |pinned|
        invariant 0 <= i <= |pinned|
        invariant Marking(t, wl, list, hs0, oldGen.headers, ys0, youngColor) && Valid()
        invariant Marked(list) == Marked(list0) + RootAddrs(t, pinned[..i], WhiteYoung(ys0)) && list0 <= list
        invariant list == VisitAll(t, WhiteYoung(ys0), list0, pinned[..i])
      {
        RootAddrsStep(t, pinned, WhiteYoung(ys0), i);
        VisitNext(t, WhiteYoung(ys0), list0, pinned, i);
        InMarked(list);
        var h := pinned[i];
        if h < |handles.handles| && handles.handles[h].live {
          var a := handles.handles[h].addr;
          if a in youngColor && youngColor[a] == White {
            ShadeYoung(t, wl, list, hs0, hs, ys0, youngColor, h);
            LayoutYoung(t, youngColor, oldGen.headers, payload, a, Black);
            NurseryPaint(youngColor, youngColor[a := Black], payload, nurseryBase, nurseryBump, nurseryEnd);
            youngColor := youngColor[a := Black];
            wl, list := wl + [h], list + [a];
          } else {
            MarkingSlots(t, wl, list, hs0, hs, ys0, youngColor, a);
          }
        }
        i := i + 1;
      }
      assert pinned[..|pinned|] == pinned;
    }

    /** Copy the object of h into a slot, redirect the handle and leave a forwarding
        pointer; without room, do nothing. The heap is intact unless the pointer lands on
        the header of an object in use or outside the nursery. */
    method DoEvacuate(h: Handle, ghost a: Ptr, ghost t0: Table, ghost pay0: Payloads, ghost hs0: Headers,
                      ghost fwd: Forward)
      returns (moved: bool, intact: bool, ghost fwd': Forward)
      requires IsLiveHandle(handles.State(), h) && AddrOf(handles.State(), h) == a && a in youngColor
      requires InFlight(t0, pay0, hs0, fwd)
      modifies handles`handles, handles.ptrToHandle, oldGen, this`youngColor, this`payload, this`forwardTable,
               this`overwritten, this`moves
      ensures a in pay0
      ensures intact <==> !moved || HarmlessAfter(t0.handles, old(youngColor.Keys), pay0, nurseryEnd, old(moves), a)
      ensures !moved ==>
                fwd' == fwd && youngColor == old(youngColor) && moves == old(moves)
                && old(oldGen.Spare()) < Need(pay0[a])
      ensures moved ==>
                a !in fwd && fwd'.Keys == fwd.Keys + {a} && youngColor == old(youngColor)[a := Black]
                && moves == old(moves) + [a]
      ensures moved ==> oldGen.Spare() + Need(pay0[a]) >= old(oldGen.Spare())
      ensures !intact ==> Harm(t0, old(youngColor.Keys), pay0)
      ensures intact ==> InFlight(t0, pay0, hs0, fwd')
    {
      hide Inv, Ok, NurseryOk, Layout, Mapped, Evacuated, Tabled, PM.PtrTable.Valid, RoundUp8, LiveSlots, Unused,
           AwayFrom, ApartFromLive, Harmless, HarmlessAfter, MovesOk, OldSpace.Spare, Need, HarmfulLast, Named, Harm,
           OldSpace.Valid, HandleSpace.Valid, LandsOutside;
      ghost var t, hs, ys := handles.State(), oldGen.headers, youngColor;
      var src: Ptr := handles.handles[h].addr;
      NurserySize(youngColor, payload, nurseryBase, nurseryBump, nurseryEnd, src);
      EvacuatedLands(t0, ys, pay0, hs0, t, hs, payload, fwd);
      SourceNotMoved(t0, ys.Keys, pay0, hs0, t, hs, payload, fwd, h);
      SourceBytes(t0, ys.Keys, pay0, hs0, t, hs, payload, fwd, src);
      HarmlessStays(t0, ys.Keys, pay0, hs0, t, hs, payload, fwd, nurseryEnd, moves, src);
      var harmless := Harmless(handles.handles, youngColor.Keys, payload, nurseryEnd, src);
      var size := |payload[src]|;
      var raw, actual := ReserveSlot(size, payload[src]);
      moved, intact, fwd' := raw != 0, true, fwd;
      if raw != 0 {
        var tail := StaleBytes(actual - HEADER - size);
        intact, fwd' := Relocate(h, src, raw, payload[src] + tail, harmless, t0, pay0, hs0, hs, fwd);
      }
    }

    /** The move itself, to a slot at raw. */
    method Relocate(h: Handle, src: Ptr, raw: Ptr, copy: seq<Byte>, harmless: bool,
                    ghost t0: Table, ghost pay0: Payloads, ghost hs0: Headers, ghost hs: Headers, ghost fwd: Forward)
      returns (intact: bool, ghost fwd': Forward)
      requires IsLiveHandle(handles.State(), h) && handles.handles[h].addr == src && src in youngColor
      requires IsLiveHandle(t0, h) && t0.handles[h].addr == src
      requires src in payload && payload[src] <= copy
      requires raw > 0 && raw !in youngColor && (raw in hs ==> hs[raw].color == Dead)
      requires raw in oldGen.headers && oldGen.headers[raw].color != Dead
               && oldGen.headers == hs[raw := oldGen.headers[raw]]
      requires |copy| == oldGen.headers[raw].size
      requires harmless == HarmlessAfter(t0.handles, youngColor.Keys, pay0, nurseryEnd, moves, src)
      requires MovesOk(t0, youngColor.Keys, pay0, nurseryEnd, moves, fwd)
      requires Evacuated(t0, youngColor.Keys, pay0, hs0, handles.State(), hs, payload, fwd)
      requires Inv(t0) && Tabled(forwardTable, fwd) && handles.Valid() && oldGen.Valid() && overwritten == map[]
      requires oldGen.nurseryLo == nurseryBase && oldGen.nurseryHi == nurseryEnd
      requires Layout(handles.State(), youngColor, hs, payload)
      requires Mapped(handles.State(), youngColor.Keys + LiveSlots(hs))
      requires NurseryOk(youngColor, payload, nurseryBase, nurseryBump, nurseryEnd)
      modifies handles`handles, handles.ptrToHandle, this`youngColor, this`payload, this`forwardTable, this`overwritten,
               this`moves
      ensures src !in fwd && fwd' == fwd[src := raw] && youngColor == old(youngColor)[src := Black]
              && moves == old(moves) + [src]
      ensures intact == harmless
      ensures !intact ==> Harm(t0, old(youngColor.Keys), pay0)
      ensures intact ==> InFlight(t0, pay0, hs0, fwd')
    {
      hide Inv, Ok, NurseryOk, Layout, Mapped, Evacuated, Tabled, PM.PtrTable.Valid, LiveSlots, Unused, AwayFrom,
           HarmlessAfter, MovesOk, HarmfulLast, Named;
      ghost var ys := youngColor;
      intact := harmless;
      fwd' := Install(h, src, raw, copy, t0, pay0, hs0, hs, fwd);
      MovesGrow(t0, h, ys.Keys, pay0, nurseryEnd, moves, fwd, src, fwd');
      moves := moves + [src];
      assert youngColor.Keys == ys.Keys;
      if !harmless {
        overwritten := map[src + HEADER := raw + HEADER];
      }
    }

    /** A slot of the old generation for a copy of size bytes; it starts out black. */
    method ReserveSlot(size: nat, ghost p: seq<Byte>) returns (raw: Ptr, actual: nat)
      requires size == |p| && RoundUp8(HEADER + size) < SIZE_LIMIT && Valid()
      modifies oldGen
      ensures oldGen.Valid()
      ensures raw == 0 ==> oldGen.headers == old(oldGen.headers) && old(oldGen.Spare()) < Need(p)
      ensures raw != 0 ==> oldGen.Spare() + Need(p) >= old(oldGen.Spare())
      ensures raw != 0 ==> actual >= HEADER + size && raw !in youngColor
      ensures raw != 0 ==> raw in oldGen.headers && oldGen.headers[raw] == Header(actual - HEADER, Black)
      ensures raw != 0 ==> oldGen.headers == old(oldGen.headers)[raw := oldGen.headers[raw]]
      ensures raw != 0 && raw in old(oldGen.headers) ==> old(oldGen.headers[raw]).color == Dead
    {
      hide Inv, Ok, NurseryOk, Layout, PM.PtrTable.Valid, RoundUp8, Unused, AwayFrom, ApartFromLive, OldSpace.Spare,
           SlotTotal, OldSpace.CanServe, ClassCeil, CLASS_SIZES, HandleSpace.Valid, FitsClass;
      raw, actual := oldGen.Alloc(RoundUp8(HEADER + size), Black);
      if raw != 0 {
        OkTiles(oldGen.blocks, oldGen.headers, oldGen.smallFree, oldGen.largeFree, oldGen.used);
        SlotOutsideNursery(oldGen.blocks, oldGen.headers, nurseryBase, nurseryEnd, raw);
        NurseryBounds(youngColor, payload, nurseryBase, nurseryBump, nurseryEnd, raw);
      }
    }

    /** Redirect the handle, the reverse map and the forward table to the copy. */
    method Install(h: Handle, src: Ptr, raw: Ptr, copy: seq<Byte>,
                   ghost t0: Table, ghost pay0: Payloads, ghost hs0: Headers, ghost hs: Headers, ghost fwd: Forward)
      returns (ghost fwd': Forward)
      requires IsLiveHandle(handles.State(), h) && handles.handles[h].addr == src && src in youngColor
      requires src in payload && payload[src] <= copy
      requires raw > 0 && raw !in youngColor && (raw in hs ==> hs[raw].color == Dead)
      requires raw in oldGen.headers && oldGen.headers[raw].color != Dead
               && oldGen.headers == hs[raw := oldGen.headers[raw]]
      requires |copy| == oldGen.headers[raw].size
      requires Evacuated(t0, youngColor.Keys, pay0, hs0, handles.State(), hs, payload, fwd)
      requires Inv(t0) && Tabled(forwardTable, fwd) && handles.Valid()
      requires Layout(handles.State(), youngColor, hs, payload)
      requires Mapped(handles.State(), youngColor.Keys + LiveSlots(hs))
      requires NurseryOk(youngColor, payload, nurseryBase, nurseryBump, nurseryEnd)
      modifies handles`handles, handles.ptrToHandle, this`youngColor, this`payload, this`forwardTable
      ensures src !in fwd && fwd' == fwd[src := raw] && youngColor == old(youngColor)[src := Black]
      ensures Evacuated(t0, old(youngColor.Keys), pay0, hs0, handles.State(), oldGen.headers, payload, fwd')
      ensures Tabled(forwardTable, fwd') && handles.Valid()
      ensures Layout(handles.State(), youngColor, oldGen.headers, payload)
      ensures Mapped(handles.State(), youngColor.Keys + LiveSlots(oldGen.headers))
      ensures NurseryOk(youngColor, payload, nurseryBase, nurseryBump, nurseryEnd)
    {
      hide Inv, NurseryOk, Layout, Mapped, Evacuated, Tabled, PM.PtrTable.Valid, LiveSlots, Unused;
      ghost var t := handles.State();
      EvacuateStep(t0, youngColor, pay0, hs0, t, hs, payload, fwd, forwardTable, nurseryBase, nurseryBump, nurseryEnd,
                   h, src, raw, oldGen.headers[raw], copy, Move(t, h, raw), youngColor[src := Black], oldGen.headers,
                   payload[raw := copy][src := Stamped(payload[src], raw + HEADER)], fwd[src := raw],
                   forwardTable[src + HEADER := raw + HEADER]);
      handles.MoveHandle(h, raw);
      payload := payload[raw := copy][src := Stamped(payload[src], raw + HEADER)];
      forwardTable := forwardTable[src + HEADER := raw + HEADER];
      youngColor := youngColor[src := Black];
      fwd' := fwd[src := raw];
    }

    /** Bytes of a slot beyond the copied object, left over from earlier use. */
    method StaleBytes(n: nat) returns (tail: seq<Byte>)
      ensures |tail| == n
    {
      tail := *;
      if |tail| != n {
        tail := Zeros(n);
      }
    }

    /** Objects are moving: everything since t0, pay0 and hs0 is explained by fwd, and no
        forwarding pointer has done harm. */
    ghost predicate InFlight(t0: Table, pay0: Payloads, hs0: Headers, fwd: Forward)
      reads this, handles, handles.ptrToHandle, oldGen
    {
      && Evacuated(t0, youngColor.Keys, pay0, hs0, handles.State(), oldGen.headers, payload, fwd)
      && Inv(t0) && Tabled(forwardTable, fwd) && Consistent()
      && MovesOk(t0, youngColor.Keys, pay0, nurseryEnd, moves, fwd)
    }

    /** The forwarding pointer of the object moved last, and of no other, did harm. */
    ghost predicate Harm(t0: Table, young: set<Ptr>, pay0: Payloads)
      reads this`overwritten, this`moves
    {
      && moves != [] && overwritten.Keys == {moves[|moves| - 1] + HEADER}
      && HarmfulLast(t0, young, pay0, nurseryEnd, moves)
    }

    /** Objects are lost only if the old generation could not spare what the objects
        moved and one of the lost ones need. */
    ghost predicate Room(pay0: Payloads, full: bool, lost: set<Ptr>)
      reads this, oldGen
    {
      lost <= youngColor.Keys && RoomOk(spare, oldGen.Spare(), pay0, moves, full, lost)
    }

    /** Evacuate the young objects of the worklist. */
    method EvacuateAll(wl: seq<Handle>, ghost list: seq<Ptr>, ghost t0: Table, ghost pay0: Payloads, ghost hs0: Headers)
      returns (intact: bool, full: bool, ghost fwd: Forward, ghost lost: set<Ptr>)
      requires Parallel(t0, wl, list) && Distinct(list)
      requires forall i :: 0 <= i < |list| && list[i] in youngColor ==> youngColor[list[i]] == Black
      requires moves == [] && spare == oldGen.Spare()
      requires InFlight(t0, pay0, hs0, map[])
      modifies handles`handles, handles.ptrToHandle, oldGen, this`youngColor, this`payload, this`forwardTable,
               this`overwritten, this`moves
      ensures intact ==> youngColor == old(youngColor)
      ensures Room(pay0, full, lost)
      ensures intact ==> fwd.Keys !! lost && fwd.Keys + lost == Marked(list) * youngColor.Keys
      ensures intact ==> InFlight(t0, pay0, hs0, fwd)
      ensures MovesFollow(Within(list, old(youngColor.Keys)), moves, lost, true, intact)
      ensures !intact ==> moves != [] && moves[|moves| - 1] in Marked(list) * old(youngColor.Keys)
      ensures !intact ==> Harm(t0, old(youngColor.Keys), pay0)
    {
      hide Inv, Ok, NurseryOk, Layout, Mapped, Evacuated, Tabled, PM.PtrTable.Valid, Marked, Parallel, Distinct,
           LiveSlots, MovesOk, HarmlessAfter, RoomOk, HarmfulLast, OldSpace.Spare, Need, InStep, MovesFollow, Harm,
           HandleSpace.Valid, OldSpace.Valid, AwayFrom;
      intact, full, fwd, lost := true, false, map[], {};
      RoomBegins(spare, pay0);
      StepsBegin();
      ghost var ys := youngColor;
      ParallelLength(t0, wl, list);
      MarkedNone();
      assert list[..0] == [];
      var i := 0;
      while i < |wl|
        invariant 0 <= i <= |wl| == |list|
        invariant youngColor == ys && Room(pay0, full, lost)
        invariant fwd.Keys !! lost && fwd.Keys + lost == Marked(list[..i]) * ys.Keys
        invariant InStep(Within(list[..i], ys.Keys), moves, lost)
        invariant InFlight(t0, pay0, hs0, fwd)
      {
        NextUnmoved(t0, ys, pay0, hs0, handles.State(), oldGen.headers, payload, fwd, wl, list, i);
        var a := handles.handles[wl[i]].addr;
        StepOn(list, ys.Keys, i, moves, lost);
        if a in youngColor {
          var moved;
          ghost var sp, was := oldGen.Spare(), moves;
          moved, intact, fwd := DoEvacuate(wl[i], a, t0, pay0, hs0, fwd);
          if moved {
            RoomMoved(spare, sp, oldGen.Spare(), pay0, was, full, lost, a);
          }
          if !intact {
            MarkedAt(list, i);
            StepsFollow(list, ys.Keys, i + 1, moves, lost, intact);
            return;
          }
          if !moved {
            RoomLost(spare, sp, oldGen.Spare(), pay0, was, full, lost, a);
            full := true;
            lost := lost + {a};
          }
        }
        i := i + 1;
      }
      assert list[..|list|] == list;
      StepsFollow(list, ys.Keys, i, moves, lost, intact);
    }

    /** One word of a remembered object: a live handle of a young object that is
        not black is evacuated. */
    method EvacuateRef(ref: nat, ghost p: seq<Byte>, ghost k: nat, ghost black: set<Ptr>,
                       ghost t0: Table, ghost pay0: Payloads, ghost hs0: Headers, full: bool, ghost fwd: Forward,
                       ghost lost: set<Ptr>)
      returns (intact: bool, full': bool, ghost fwd': Forward, ghost lost': set<Ptr>)
      requires k < |p| / 4 && ref == WordAt(p, k) && Room(pay0, full, lost)
      requires LiveColors(t0, youngColor, black + fwd.Keys)
      requires InFlight(t0, pay0, hs0, fwd)
      modifies handles`handles, handles.ptrToHandle, oldGen, this`youngColor, this`payload, this`forwardTable,
               this`overwritten, this`moves
      ensures intact ==> youngColor.Keys == old(youngColor.Keys) && LiveColors(t0, youngColor, black + fwd'.Keys)
      ensures intact ==> fwd.Keys <= fwd'.Keys
      ensures Room(pay0, full', lost')
      ensures intact ==> forall b :: b in fwd'.Keys + lost' && b !in fwd.Keys + lost ==>
                b in youngColor && RefersAt(t0, p, k, b)
      ensures intact ==> forall b :: b in youngColor && RefersAt(t0, p, k, b) ==> b in black + fwd'.Keys + lost'
      ensures intact ==> InFlight(t0, pay0, hs0, fwd')
      ensures old(moves) <= moves && lost <= lost'
      ensures !intact ==> moves != [] && RefersAt(t0, p, k, moves[|moves| - 1]) && Harm(t0, old(youngColor.Keys), pay0)
    {
      hide Inv, Ok, NurseryOk, Layout, Mapped, Evacuated, Tabled, PM.PtrTable.Valid, WordAt, LiveColors, MovesOk,
           HarmlessAfter, RoomOk, HarmfulLast, OldSpace.Spare, Need;
      intact, full', fwd', lost' := true, full, fwd, lost;
      ghost var t, ys := handles.State(), youngColor;
      SameLiveness(t0, ys.Keys, pay0, hs0, t, oldGen.headers, payload, fwd, ref);
      if ref == NULL_HANDLE || ref >= |handles.handles| || !handles.handles[ref].live { return; }
      EvacuatedLands(t0, ys, pay0, hs0, t, oldGen.headers, payload, fwd);
      RefInYoung(t0, ys, pay0, hs0, t, oldGen.headers, payload, fwd, ref, black);
      var b := handles.handles[ref].addr;
      if b !in youngColor || youngColor[b] == Black { return; }
      var moved;
      ghost var sp, was := oldGen.Spare(), moves;
      moved, intact, fwd' := DoEvacuate(ref, b, t0, pay0, hs0, fwd);
      if moved {
        RoomMoved(spare, sp, oldGen.Spare(), pay0, was, full, lost, b);
      }
      if !intact { return; }
      if moved {
        LiveColorsBlacken(t0, ys, black + fwd.Keys, b);
        assert black + fwd'.Keys == black + fwd.Keys + {b};
      } else {
        RoomLost(spare, sp, oldGen.Spare(), pay0, was, full, lost, b);
        full', lost' := true, lost + {b};
      }
    }

    /** scan_young_refs on one remembered handle; the objects it evacuates are not
        scanned in turn. */
    method ScanRemembered(q: Handle, ghost black: set<Ptr>,
                          ghost t0: Table, ghost pay0: Payloads, ghost hs0: Headers, full: bool, ghost fwd: Forward,
                          ghost lost: set<Ptr>)
      returns (intact: bool, full': bool, ghost fwd': Forward, ghost lost': set<Ptr>)
      requires q < |handles.handles| && LiveColors(t0, youngColor, black + fwd.Keys) && Room(pay0, full, lost)
      requires InFlight(t0, pay0, hs0, fwd)
      modifies handles`handles, handles.ptrToHandle, oldGen, this`youngColor, this`payload, this`forwardTable,
               this`overwritten, this`moves
      ensures intact ==> youngColor.Keys == old(youngColor.Keys) && LiveColors(t0, youngColor, black + fwd'.Keys)
      ensures intact ==> fwd.Keys <= fwd'.Keys && fwd'.Keys + lost' <= fwd.Keys + lost + youngColor.Keys
      ensures Room(pay0, full', lost')
      ensures intact && IsLiveHandle(t0, q) && AddrOf(t0, q) in LiveSlots(hs0) ==>
                && AddrOf(t0, q) in pay0
                && ScannedTo(t0, pay0[AddrOf(t0, q)], youngColor.Keys, |pay0[AddrOf(t0, q)]| / 4,
                             black + fwd'.Keys + lost')
                && (forall b :: b in fwd'.Keys + lost' && b !in fwd.Keys + lost ==> Refers(t0, pay0[AddrOf(t0, q)], b))
      ensures intact && !IsLiveHandle(t0, q) ==> fwd'.Keys + lost' == fwd.Keys + lost
      ensures intact ==> |handles.handles| == old(|handles.handles|)
      ensures intact ==> InFlight(t0, pay0, hs0, fwd')
      ensures old(moves) <= moves && lost <= lost'
      ensures !intact ==> moves != [] && IsLiveHandle(t0, q) && Harm(t0, old(youngColor.Keys), pay0)
      ensures !intact && AddrOf(t0, q) in LiveSlots(hs0) ==>
                AddrOf(t0, q) in pay0 && Refers(t0, pay0[AddrOf(t0, q)], moves[|moves| - 1])
    {
      hide Inv, Ok, NurseryOk, Layout, Mapped, Evacuated, Tabled, PM.PtrTable.Valid, LiveColors, MovesOk, RoomOk,
           HarmfulLast, OldSpace.Spare;
      intact, full', fwd', lost' := true, full, fwd, lost;
      ghost var t := handles.State();
      SameLiveness(t0, youngColor.Keys, pay0, hs0, t, oldGen.headers, payload, fwd, q);
      if !handles.handles[q].live { return; }
      HandleHasPayload(t, youngColor, oldGen.headers, payload, q);
      OldHandleStays(t0, youngColor, pay0, hs0, t, oldGen.headers, payload, fwd, q);
      var p := payload[handles.handles[q].addr];
      var k := 0;
      ghost var ys := youngColor.Keys;
      while 4 * k + 4 <= |p|
        invariant 0 <= k <= |p| / 4
        invariant youngColor.Keys == ys && LiveColors(t0, youngColor, black + fwd'.Keys)
        invariant fwd.Keys <= fwd'.Keys && lost <= lost' && fwd'.Keys + lost' <= fwd.Keys + lost + ys
        invariant Room(pay0, full', lost') && old(moves) <= moves
        invariant ScannedTo(t0, p, ys, k, black + fwd'.Keys + lost')
        invariant forall b :: b in fwd'.Keys + lost' && b !in fwd.Keys + lost ==> Refers(t0, p, b)
        invariant InFlight(t0, pay0, hs0, fwd')
        decreases |p| - 4 * k
      {
        ghost var before := black + fwd'.Keys + lost';
        intact, full', fwd', lost' := EvacuateRef(WordAt(p, k), p, k, black, t0, pay0, hs0, full', fwd', lost');
        if !intact { return; }
        ScanStep(t0, p, ys, k, before, black + fwd'.Keys + lost');
        k := k + 1;
      }
      SameLiveness(t0, youngColor.Keys, pay0, hs0, handles.State(), oldGen.headers, payload, fwd', q);
    }

    /** One remembered handle after those of done. */
    method EvacuateNamedBy(q: Handle, ghost done: set<Handle>, ghost black: set<Ptr>,
                           ghost t0: Table, ghost pay0: Payloads, ghost hs0: Headers, full: bool, ghost fwd: Forward,
                           ghost lost: set<Ptr>)
      returns (intact: bool, full': bool, ghost fwd': Forward, ghost lost': set<Ptr>)
      requires q in remembered && q < |handles.handles| && Room(pay0, full, lost)
      requires LiveColors(t0, youngColor, black + fwd.Keys)
      requires RememberedScanned(t0, pay0, hs0, done, youngColor.Keys, black + fwd.Keys + lost)
      requires InFlight(t0, pay0, hs0, fwd)
      modifies handles`handles, handles.ptrToHandle, oldGen, this`youngColor, this`payload, this`forwardTable,
               this`overwritten, this`moves
      ensures intact ==> youngColor.Keys == old(youngColor.Keys) && LiveColors(t0, youngColor, black + fwd'.Keys)
      ensures intact ==> fwd.Keys <= fwd'.Keys
      ensures Room(pay0, full', lost')
      ensures intact ==> RememberedScanned(t0, pay0, hs0, done + {q}, old(youngColor.Keys), black + fwd'.Keys + lost')
      ensures intact && RememberedAreOld(t0, hs0, remembered) ==>
                fwd'.Keys + lost' <= fwd.Keys + lost + RememberedRefs(t0, pay0, hs0, remembered, old(youngColor.Keys))
      ensures intact ==> |handles.handles| == old(|handles.handles|)
      ensures intact ==> InFlight(t0, pay0, hs0, fwd')
      ensures old(moves) <= moves && lost <= lost'
      ensures !intact ==> moves != [] && Harm(t0, old(youngColor.Keys), pay0)
      ensures !intact && RememberedAreOld(t0, hs0, remembered) ==>
                moves[|moves| - 1] in RememberedRefs(t0, pay0, hs0, remembered, old(youngColor.Keys))
    {
      hide Inv, Ok, NurseryOk, Layout, Mapped, Evacuated, Tabled, PM.PtrTable.Valid, LiveColors, RememberedRefs,
           ScannedTo, MovesOk, RoomOk, HarmfulLast, Harm, Refers, LiveSlots, RememberedAreOld, RememberedScanned,
           OldSpace.Spare;
      ghost var ys := youngColor.Keys;
      intact, full', fwd', lost' := ScanRemembered(q, black, t0, pay0, hs0, full, fwd, lost);
      if !intact {
        HarmInYoung(t0, ys, pay0);
        RememberedHit(t0, pay0, hs0, remembered, q, ys, moves[|moves| - 1]);
        return;
      }
      RememberedOne(t0, pay0, hs0, remembered, q, ys, fwd.Keys + lost, fwd'.Keys + lost');
      RememberedMore(t0, pay0, hs0, done, q, ys, black + fwd.Keys + lost, black + fwd'.Keys + lost');
    }

    /** Scan every remembered handle, in any order. */
    method EvacuateRemembered(ghost black: set<Ptr>, ghost t0: Table, ghost pay0: Payloads, ghost hs0: Headers,
                              full: bool, ghost fwd: Forward, ghost lost: set<Ptr>)
      returns (intact: bool, full': bool, ghost fwd': Forward, ghost lost': set<Ptr>)
      requires forall q :: q in remembered ==> q < |handles.handles|
      requires LiveColors(t0, youngColor, black + fwd.Keys) && Room(pay0, full, lost)
      requires InFlight(t0, pay0, hs0, fwd)
      modifies handles`handles, handles.ptrToHandle, oldGen, this`youngColor, this`payload, this`forwardTable,
               this`overwritten, this`moves
      ensures intact ==> youngColor.Keys == old(youngColor.Keys) && LiveColors(t0, youngColor, black + fwd'.Keys)
      ensures intact ==> fwd.Keys <= fwd'.Keys
      ensures Room(pay0, full', lost')
      ensures intact ==> RememberedRefs(t0, pay0, hs0, remembered, youngColor.Keys) <= black + fwd'.Keys + lost'
      ensures intact && RememberedAreOld(t0, hs0, remembered) ==>
                fwd'.Keys + lost' <= fwd.Keys + lost + RememberedRefs(t0, pay0, hs0, remembered, old(youngColor.Keys))
      ensures intact ==> InFlight(t0, pay0, hs0, fwd')
      ensures old(moves) <= moves && lost <= lost'
      ensures remembered == {} ==> intact && moves == old(moves) && lost' == lost
      ensures !intact ==> moves != [] && Harm(t0, old(youngColor.Keys), pay0)
      ensures !intact && RememberedAreOld(t0, hs0, remembered) ==>
                moves[|moves| - 1] in RememberedRefs(t0, pay0, hs0, remembered, old(youngColor.Keys))
    {
      hide Inv, Ok, NurseryOk, Layout, Mapped, Evacuated, Tabled, PM.PtrTable.Valid, LiveColors, RememberedRefs,
           ScannedTo, MovesOk, RoomOk, HarmfulLast, Harm, Refers, LiveSlots, RememberedAreOld, RememberedScanned,
           InFlight, OldSpace.Spare, Room;
      NothingScanned(t0, pay0, hs0, youngColor.Keys, black + fwd.Keys + lost);
      intact, full', fwd', lost' := true, full, fwd, lost;
      var rest := remembered;
      ghost var ys := youngColor.Keys;
      assert remembered - remembered == {};
      ghost var refs := RememberedRefs(t0, pay0, hs0, remembered, ys);
      while rest != {}
        invariant rest <= remembered && |handles.handles| == old(|handles.handles|)
        invariant youngColor.Keys == ys && LiveColors(t0, youngColor, black + fwd'.Keys)
        invariant fwd.Keys <= fwd'.Keys && lost <= lost' && Room(pay0, full', lost') && old(moves) <= moves
        invariant RememberedScanned(t0, pay0, hs0, remembered - rest, ys, black + fwd'.Keys + lost')
        invariant RememberedAreOld(t0, hs0, remembered) ==> fwd'.Keys + lost' <= fwd.Keys + lost + refs
        invariant InFlight(t0, pay0, hs0, fwd')
        invariant rest == remembered ==> moves == old(moves) && lost' == lost
        decreases rest
      {
        var q :| q in rest;
        intact, full', fwd', lost' := EvacuateNamedBy(q, remembered - rest, black, t0, pay0, hs0, full', fwd', lost');
        if !intact { return; }
        assert remembered - (rest - {q}) == remembered - rest + {q};
        rest := rest - {q};
      }
      assert remembered - {} == remembered;
      RememberedAll(t0, pay0, hs0, remembered, ys, black + fwd'.Keys + lost');
    }

    lemma HarmInYoung(t0: Table, young: set<Ptr>, pay0: Payloads)
      requires Harm(t0, young, pay0)
      ensures moves[|moves| - 1] in young
    {
      assert moves[|moves| - 1] in moves;
    }

    /** Free the handles of young objects left white. */
    method SweepYoung()
      requires Consistent()
      modifies handles`handles, handles`freeHandles, handles.ptrToHandle
      ensures KilledExactly(old(handles.State()), handles.State(),
                            WhiteHandles(old(handles.State()), youngColor, old(|handles.handles|)))
      ensures Consistent()
    {
      hide Inv, Ok, NurseryOk, Layout, Mapped, PM.PtrTable.Valid, LiveSlots;
      ghost var t0 := handles.State();
      var n := |handles.handles|;
      var h := 0;
      while h < n
        invariant 0 <= h <= n == |handles.handles|
        invariant KilledExactly(t0, handles.State(), WhiteHandles(t0, youngColor, h))
        invariant Consistent()
      {
        WhiteHandlesStep(t0, youngColor, h);
        if handles.handles[h].live {
          var raw := handles.handles[h].addr;
          if raw in youngColor && youngColor[raw] == White {
            LayoutKill(handles.State(), youngColor, oldGen.headers, payload, h);
            handles.KillHandle(h);
          }
        }
        h := h + 1;
      }
    }

    /** update_stack_forwards: stacks of 16 MB and more are skipped. */
    method UpdateStackForwards()
      modifies this`stack, this`regs
      ensures |stack| == old(|stack|) && |regs| == old(|regs|)
      ensures forall i :: 0 <= i < |regs| ==> regs[i] == ForwardWord(forwardTable, old(regs)[i])
      ensures forall i :: 0 <= i < |stack| ==>
                stack[i] == if 8 * |stack| < STACK_LIMIT then ForwardWord(forwardTable, old(stack)[i])
                  else old(stack)[i]
    {
      if forwardTable == map[] { return; }
      if 8 * |stack| < STACK_LIMIT {
        stack := ForwardWords(forwardTable, stack);
      }
      regs := ForwardWords(forwardTable, regs);
    }

    /** Pre-mark, roots and transitive marking of the nursery. */
    method MarkYoung(scanned: seq<Handle>, pinned: seq<Handle>) returns (wl: seq<Handle>, ghost list: seq<Ptr>)
      requires Consistent()
      modifies oldGen`headers, this`youngColor
      ensures youngColor.Keys == old(youngColor.Keys)
      ensures Parallel(handles.State(), wl, list) && Distinct(list)
      ensures LiveColors(handles.State(), youngColor, Marked(list) * youngColor.Keys)
      ensures BlackWhereListed(youngColor, list)
      ensures RepaintedLive(old(oldGen.headers), oldGen.headers)
      ensures Within(list, youngColor.Keys) == OrderOf(handles.State(), payload, youngColor.Keys, scanned + pinned)
      ensures forall a :: a in youngColor ==>
                (a in Marked(list) <==> YoungReach(handles.State(), payload, youngColor.Keys, scanned + pinned, a))
      ensures Consistent()
    {
      hide Inv, Ok, NurseryOk, Marking, Layout, Mapped, Tracing, Traced, RootAddrs, PM.PtrTable.Valid, LiveColors,
           Marked, Parallel;
      ghost var t, hs0 := handles.State(), oldGen.headers;
      PreMarkYoung();
      ghost var ys0 := youngColor;
      LayoutDisjoint(t, ys0, hs0, payload);
      LayoutPayloads(t, ys0, hs0, payload);
      wl, list := MarkRoots(scanned);
      wl, list := MarkPinned(pinned, wl, list, hs0, ys0);
      ghost var start := Marked(list);
      RootsWhite(t, scanned, WhiteSlots(hs0) + WhiteYoung(ys0));
      RootsWhite(t, pinned, WhiteYoung(ys0));
      wl, list := Trace(true, wl, list, hs0, ys0);
      WhiteCovers(t, hs0, ys0);
      ListIsOrder(t, payload, InYoung(payload, ys0), WhiteSlots(hs0) + WhiteYoung(ys0), WhiteYoung(ys0), ys0.Keys,
                  scanned, pinned);
      MarkedYoung(t, wl, list, hs0, oldGen.headers, ys0, youngColor, payload, scanned, pinned, start);
      LayoutDisjoint(t, youngColor, oldGen.headers, payload);
    }

    /** The moving part of a minor collection: mark, evacuate, sweep. */
    method EvacuateNursery(scanned: seq<Handle>, pinned: seq<Handle>)
      returns (intact: bool, full: bool, ghost fwd: Forward, ghost lost: set<Ptr>)
      requires forwardTable == map[] && forall q :: q in remembered ==> q < |handles.handles|
      requires Consistent()
      modifies this`youngColor, this`payload, this`forwardTable, this`overwritten, this`moves, this`spare,
               handles`handles, handles`freeHandles, handles.ptrToHandle, oldGen
      ensures spare == old(oldGen.Spare())
      ensures MovesFollow(old(OrderOf(handles.State(), payload, youngColor.Keys, scanned + pinned)), moves, lost,
                          remembered == {}, intact)
      ensures intact ==> Tabled(forwardTable, fwd)
      ensures Room(old(payload), full, lost)
      ensures intact ==>
                YoungFate(old(handles.State()), old(youngColor.Keys), old(payload), scanned + pinned, handles.State(),
                          fwd)
      ensures intact ==>
                Survivors(old(handles.State()), old(youngColor.Keys), old(payload), old(oldGen.headers),
                          scanned + pinned,
                          remembered, fwd, lost)
      ensures intact ==> CopiesOk(old(payload), oldGen.headers, payload, fwd)
      ensures intact ==> SlotsKept(old(oldGen.headers), old(payload), oldGen.headers, payload, fwd)
      ensures intact ==> MovesOk(old(handles.State()), old(youngColor.Keys), old(payload), nurseryEnd, moves, fwd)
      ensures intact ==> Consistent()
      ensures !intact ==> moves != [] && Harm(old(handles.State()), old(youngColor.Keys), old(payload))
      ensures !intact ==>
                MayMove(old(handles.State()), old(youngColor.Keys), old(payload), old(oldGen.headers), scanned + pinned,
                        remembered, moves[|moves| - 1])
    {
      hide Inv, Ok, NurseryOk, Layout, Mapped, Evacuated, Tabled, PM.PtrTable.Valid, LiveColors, Marked, Parallel,
           Distinct, YoungFate, Survivors, CopiesOk, SlotsKept, KilledExactly, BlackWhereListed, RepaintedLive,
           YoungReach, RememberedRefs, RememberedAreOld, HandlesFollow, OthersKept, LandsOutside, WhiteHandles,
           LiveSlots, MovesOk, Harm, RoomOk, OldSpace.Spare, OldSpace.Valid, AwayFrom, OrderOf, Within, MovesFollow;
      ghost var t, ys, hsIn, pay := handles.State(), youngColor, oldGen.headers, payload;
      var wl; ghost var list;
      wl, list := MarkYoung(scanned, pinned);
      ghost var hs0 := oldGen.headers;
      ghost var black := Marked(list) * youngColor.Keys;
      FlightBegins(t, youngColor, payload, hs0, forwardTable);
      NoMoves(t, youngColor.Keys, payload, nurseryEnd);
      moves, spare := [], oldGen.Spare();
      BlackListed(youngColor, list);
      intact, full, fwd, lost := EvacuateAll(wl, list, t, pay, hs0);
      ghost var order := OrderOf(t, pay, ys.Keys, scanned + pinned);
      FollowWithRemembered(order, moves, lost, remembered == {}, intact);
      if !intact { return; }
      ghost var moves0 := moves;
      assert black + fwd.Keys == black;
      SameLiveness(t, youngColor.Keys, pay, hs0, handles.State(), oldGen.headers, payload, fwd, 0);
      ghost var lost0 := lost;
      intact, full, fwd, lost := EvacuateRemembered(black, t, pay, hs0, full, fwd, lost);
      FollowBeyond(order, moves0, lost0, moves, lost, remembered == {}, intact);
      if !intact {
        SameRemembered(t, pay, hsIn, hs0, remembered, ys.Keys);
        return;
      }
      JudgeYoung(t, ys.Keys, pay, hsIn, hs0, scanned + pinned, list, black, fwd, lost);
    }

    /** With all moves made, free the handles of what is left behind. */
    method JudgeYoung(ghost t: Table, ghost young: set<Ptr>, ghost pay: Payloads, ghost hsIn: Headers,
                      ghost hs0: Headers,
                      ghost roots: seq<Handle>, ghost list: seq<Ptr>, ghost black: set<Ptr>, ghost fwd: Forward,
                      ghost lost: set<Ptr>)
      requires youngColor.Keys == young && RepaintedLive(hsIn, hs0) && black == Marked(list) * young
               && black <= fwd.Keys + lost
      requires lost <= young
      requires LiveColors(t, youngColor, black + fwd.Keys)
      requires forall a :: a in young ==> (a in Marked(list) <==> YoungReach(t, pay, young, roots, a))
      requires RememberedRefs(t, pay, hs0, remembered, young) <= black + fwd.Keys + lost
      requires RememberedAreOld(t, hs0, remembered) ==>
                 fwd.Keys + lost <= black + RememberedRefs(t, pay, hs0, remembered, young)
      requires InFlight(t, pay, hs0, fwd)
      modifies handles`handles, handles`freeHandles, handles.ptrToHandle
      ensures YoungFate(t, young, pay, roots, handles.State(), fwd)
      ensures Survivors(t, young, pay, hsIn, roots, remembered, fwd, lost)
      ensures CopiesOk(pay, oldGen.headers, payload, fwd) && SlotsKept(hsIn, pay, oldGen.headers, payload, fwd)
      ensures Consistent()
    {
      hide Inv, Ok, NurseryOk, Layout, Mapped, Evacuated, Tabled, PM.PtrTable.Valid, LiveColors, Marked, YoungFate,
           Survivors, CopiesOk, SlotsKept, KilledExactly, RepaintedLive, YoungReach, RememberedRefs, RememberedAreOld,
           HandlesFollow, OthersKept, LandsOutside, WhiteHandles, LiveSlots, MovesOk;
      ghost var t1 := handles.State();
      EvacuatedLands(t, youngColor, pay, hs0, t1, oldGen.headers, payload, fwd);
      EvacuatedParts(t, young, pay, hs0, t1, oldGen.headers, payload, fwd);
      SlotsKeptFrom(hsIn, hs0, pay, oldGen.headers, payload, fwd);
      SurvivorsDecided(t, young, pay, hsIn, hs0, roots, remembered, list, fwd, lost, black);
      SweepYoung();
      FateDecided(t, youngColor, pay, t1, handles.State(), fwd, list, roots, black);
    }

    /** Minor collection, up to the decision on a major one. fwd tells which young
        objects moved and where to; lost are those for which no room was found. When
        a forwarding pointer does harm the model stops: what follows in the program
        works on a destroyed header. */
    method MinorGc(scanned: seq<Handle>, pinned: seq<Handle>)
      returns (outcome: Outcome, needMajor: bool, ghost fwd: Forward, ghost lost: set<Ptr>)
      requires forwardTable == map[] && forall q :: q in remembered ==> q < |handles.handles|
      requires Consistent()
      modifies this, handles`handles, handles`freeHandles, handles.ptrToHandle, oldGen
      ensures outcome == Clean || outcome == NoRoom || outcome == Smashed
      ensures outcome == Smashed <==> !HarmlessMoves(old(handles.handles), old(youngColor.Keys), old(payload),
                                                     nurseryEnd, moves)
      ensures outcome == Smashed ==> moves != [] && Harm(old(handles.State()), old(youngColor.Keys), old(payload))
      ensures outcome == Smashed ==>
                MayMove(old(handles.State()), old(youngColor.Keys), old(payload), old(oldGen.headers), scanned + pinned,
                        old(remembered), moves[|moves| - 1])
      ensures old(Collectable()) ==> outcome != Smashed
      ensures outcome != Smashed ==> MovesOk(old(handles.State()), old(youngColor.Keys), old(payload), nurseryEnd,
                                             moves, fwd)
      ensures MovesFollow(old(OrderOf(handles.State(), payload, youngColor.Keys, scanned + pinned)), moves, lost,
                          old(remembered) == {}, outcome != Smashed)
      ensures outcome != Smashed ==> (needMajor <==> oldGen.used >= oldThreshold) && (outcome == NoRoom <==> lost != {})
      ensures lost != {} ==> Short(old(oldGen.Spare()), old(payload), moves, lost)
      ensures outcome != Smashed ==>
                youngColor == map[] && nurseryBump == nurseryBase && remembered == {} && forwardTable == map[]
      ensures oldThreshold == old(oldThreshold) && weak == old(weak)
      ensures outcome != Smashed ==> overwritten == old(overwritten)
      ensures outcome != Smashed ==>
                YoungFate(old(handles.State()), old(youngColor.Keys), old(payload), scanned + pinned, handles.State(),
                          fwd)
      ensures outcome != Smashed ==>
                Survivors(old(handles.State()), old(youngColor.Keys), old(payload), old(oldGen.headers),
                          scanned + pinned,
                          old(remembered), fwd, lost)
      ensures outcome != Smashed ==> CopiesOk(old(payload), oldGen.headers, payload, fwd)
      ensures outcome != Smashed ==> SlotsKept(old(oldGen.headers), old(payload), oldGen.headers, payload, fwd)
      ensures outcome != Smashed ==> |stack| == old(|stack|) && |regs| == old(|regs|)
      ensures outcome != Smashed ==> forall i :: 0 <= i < |regs| ==> regs[i] == ForwardedWord(fwd, old(regs)[i])
      ensures outcome != Smashed ==> forall i :: 0 <= i < |stack| ==>
                stack[i] == if 8 * |stack| < STACK_LIMIT then ForwardedWord(fwd, old(stack)[i]) else old(stack)[i]
      ensures outcome != Smashed ==> handles.Valid() && oldGen.Valid()
      ensures outcome == Clean ==> Collectable()
    {
      hide Inv, Ok, NurseryOk, Layout, Mapped, Tabled, PM.PtrTable.Valid, YoungFate, Survivors, CopiesOk, SlotsKept,
           LiveSlots, Harm, MovesOk, MayMove, MovesFollow, OrderOf, OldSpace.Spare, Short, HarmlessMoves, AllHarmless,
           ForwardWord, ForwardedWord;
      ghost var t, ys, hsIn, pay := handles.State(), youngColor, oldGen.headers, payload;
      var intact, full;
      intact, full, fwd, lost := EvacuateNursery(scanned, pinned);
      needMajor := false;
      if !intact {
        HarmIsHarm(t, ys.Keys, pay);
        return Smashed, needMajor, fwd, lost;
      }
      MovesAreHarmless(t, ys.Keys, pay, nurseryEnd, moves, fwd);
      FinishMinor(t, ys.Keys, hsIn, pay, scanned + pinned, fwd, lost);
      needMajor := oldGen.used >= oldThreshold;
      outcome := if full then NoRoom else Clean;
    }

    /** Forward the stack and empty the nursery. */
    method FinishMinor(ghost t: Table, ghost young: set<Ptr>, ghost hsIn: Headers, ghost pay: Payloads,
                       ghost roots: seq<Handle>, ghost fwd: Forward, ghost lost: set<Ptr>)
      requires Tabled(forwardTable, fwd) && Mapped(t, young + LiveSlots(hsIn))
      requires YoungFate(t, young, pay, roots, handles.State(), fwd)
      requires Survivors(t, young, pay, hsIn, roots, remembered, fwd, lost)
      requires CopiesOk(pay, oldGen.headers, payload, fwd) && SlotsKept(hsIn, pay, oldGen.headers, payload, fwd)
      requires Consistent()
      modifies this`stack, this`regs, this`forwardTable, this`remembered, this`nurseryBump, this`youngColor
      ensures youngColor == map[] && nurseryBump == nurseryBase && remembered == {} && forwardTable == map[]
      ensures |stack| == old(|stack|) && |regs| == old(|regs|)
      ensures forall i :: 0 <= i < |regs| ==> regs[i] == ForwardedWord(fwd, old(regs)[i])
      ensures forall i :: 0 <= i < |stack| ==>
                stack[i] == if 8 * |stack| < STACK_LIMIT then ForwardedWord(fwd, old(stack)[i]) else old(stack)[i]
      ensures lost == {} ==> Collectable()
    {
      hide Inv, Ok, NurseryOk, Layout, Mapped, Tabled, PM.PtrTable.Valid, YoungFate, Survivors, CopiesOk, SlotsKept,
           LiveSlots, AllHarmless, ForwardWord, ForwardedWord;
      UpdateStackForwards();
      ForwardedBy(forwardTable, fwd);
      CleanAfter(t, young, hsIn, pay, handles.State(), oldGen.headers, payload, fwd, lost, roots, remembered,
                 youngColor, map[]);
      NurseryEmpty(youngColor, payload, nurseryBase, nurseryBump, nurseryEnd);
      forwardTable, remembered, nurseryBump, youngColor := map[], {}, nurseryBase, map[];
      NoneYoung(handles.handles, payload, nurseryEnd);
    }

    lemma HarmIsHarm(t0: Table, young: set<Ptr>, pay0: Payloads)
      requires Harm(t0, young, pay0)
      ensures !HarmlessMoves(t0.handles, young, pay0, nurseryEnd, moves)
              && !AllHarmless(t0.handles, young, pay0, nurseryEnd)
    {
      var n := |moves| - 1;
      assert moves[n] in moves;
      assert !HarmlessAfter(t0.handles, young, pay0, nurseryEnd, moves[..n], moves[n]);
    }

    /** Mark and sweep: slots die exactly when they are not reachable from the
        roots through handles in payloads. Handles stay, and survivors keep their
        address and bytes; the bytes of dead slots are given up to the free lists.
        Weak references to dead slots are cleared. */
    method MajorGc(roots: seq<Handle>)
      requires Valid()
      modifies oldGen, this`youngColor, this`payload, this`weak
      ensures weak == SweptWeak(old(weak), handles.State(), oldGen.headers)
      ensures MajorDone(old(Now()), roots, Now()) && youngColor.Keys == old(youngColor.Keys)
      ensures Consistent() <==> ReachesAll(old(Now()), roots)
      ensures Valid()
    {
      hide Inv, Ok, NurseryOk, Layout, Tracing, RefGraph, RootAddrs, Collected, AllReached, Blackened, Marked, Mapped,
           LiveSlots, PM.PtrTable.Valid, Survived, Swept;
      ghost var t, hsIn, ys0 := handles.State(), oldGen.headers, youngColor;
      ghost var g := RefGraph(t, payload, LiveSlots(hsIn));
      ghost var list := MarkOld(roots);
      ghost var start := RootAddrs(t, roots, LiveSlots(hsIn) + WhiteYoung(ys0));
      CollectedBySweep(hsIn, oldGen.headers, g, start, list);
      LayoutSwept(t, youngColor, oldGen.headers, payload);
      ReachedIffConsistent(t, ys0.Keys, hsIn, Swept(oldGen.headers), g, start);
      oldGen.Sweep();
      LayoutDisjoint(t, youngColor, oldGen.headers, payload);
      LayoutSurvived(t, youngColor, oldGen.headers, payload);
      NurserySurvived(youngColor, payload, oldGen.headers, nurseryBase, nurseryBump, nurseryEnd);
      payload := Survived(payload, oldGen.headers);
      SweepWeak();
    }

    /** Clears the weak references whose handle does not name an object any more. */
    method SweepWeak()
      modifies this`weak
      ensures weak == SweptWeak(old(weak), handles.State(), oldGen.headers)
      ensures Valid() <==> old(Valid())
      ensures Consistent() <==> old(Consistent())
    {
      hide Inv, Ok, NurseryOk, Layout, Mapped, PM.PtrTable.Valid, LiveSlots;
      for i := 0 to |weak|
        invariant |weak| == |old(weak)|
        invariant forall j :: 0 <= j < |weak| ==>
                    weak[j] == if j < i then SweptEntry(old(weak)[j], handles.State(), oldGen.headers) else old(weak)[j]
      {
        var e := weak[i];
        if e.live && e.target != NULL_HANDLE {
          var alive := false;
          if e.target < |handles.handles| {
            var he := handles.handles[e.target];
            if he.addr != 0 && he.live {
              alive := !(he.addr in oldGen.headers && oldGen.headers[he.addr].color == Dead);
            }
          }
          if !alive {
            weak := weak[i := e.(target := NULL_HANDLE)];
          }
        }
      }
    }

    /** A weak reference to the object of target, in the first entry not in use. */
    method AllocWeak(target: Handle) returns (idx: nat)
      modifies this`weak
      ensures FirstUnused(old(weak), idx) && weak == WeakWith(old(weak), idx, WeakEntry(target, true))
      ensures (Valid() <==> old(Valid())) && (Consistent() <==> old(Consistent()))
              && (Collectable() <==> old(Collectable()))
    {
      hide Inv, Ok, NurseryOk, Layout, Mapped, PM.PtrTable.Valid, LiveSlots, AllHarmless;
      idx := 0;
      while idx < |weak|
        invariant idx <= |weak| && forall j :: 0 <= j < idx ==> weak[j].live
      {
        if !weak[idx].live {
          weak := weak[idx := WeakEntry(target, true)];
          return;
        }
        idx := idx + 1;
      }
      weak := weak + [WeakEntry(target, true)];
    }

    function DerefWeak(idx: nat): Handle
      reads this
    {
      WeakTarget(weak, idx)
    }

    method FreeWeak(idx: nat)
      modifies this`weak
      ensures weak == if idx < |old(weak)| then WeakWith(old(weak), idx, WeakEntry(NULL_HANDLE, false)) else old(weak)
      ensures |weak| == |old(weak)| && DerefWeak(idx) == NULL_HANDLE
      ensures forall j :: j != idx ==> DerefWeak(j) == old(DerefWeak(j))
      ensures (Valid() <==> old(Valid())) && (Consistent() <==> old(Consistent()))
              && (Collectable() <==> old(Collectable()))
    {
      hide Inv, Ok, NurseryOk, Layout, Mapped, PM.PtrTable.Valid, LiveSlots, AllHarmless;
      if idx < |weak| {
        weak := weak[idx := WeakEntry(NULL_HANDLE, false)];
      }
    }

    /** Whether some live handle names a dead slot. */
    method AnyDangling() returns (b: bool)
      requires Valid()
      ensures b <==> !Consistent()
    {
      hide Inv, Ok, NurseryOk, PM.PtrTable.Valid, Layout;
      for h := 0 to |handles.handles|
        invariant forall g :: 0 <= g < h && IsLiveHandle(handles.State(), g) ==>
                    !IsDead(oldGen.headers, AddrOf(handles.State(), g))
      {
        if handles.handles[h].live {
          var a := handles.handles[h].addr;
          if a in oldGen.headers && oldGen.headers[a].color == Dead {
            DeadIsDangling(handles.State(), youngColor, oldGen.headers, payload, h);
            return true;
          }
        }
      }
      NoneDangling(handles.State(), youngColor, oldGen.headers, payload);
      b := false;
    }

    /** All of minor_gc, with the major collection that it starts when the old
        generation has reached its threshold. */
    method Collect(scanned: seq<Handle>, pinned: seq<Handle>, roots: seq<Handle>)
      returns (outcome: Outcome, ghost c: Trail)
      requires forwardTable == map[] && forall q :: q in remembered ==> q < |handles.handles|
      requires Consistent()
      modifies this, handles`handles, handles`freeHandles, handles.ptrToHandle, oldGen
      ensures outcome == Smashed <==> !HarmlessMoves(old(handles.handles), old(youngColor.Keys), old(payload),
                                                     nurseryEnd, moves)
      ensures outcome != Cut && (old(Collectable()) ==> outcome != Smashed)
      ensures c.after == Now() && c.moves == moves
      ensures outcome == Smashed ==> SmashDone(old(Now()), scanned + pinned, c)
      ensures outcome != Smashed ==> CollectDone(old(Now()), scanned + pinned, roots, oldThreshold, c, outcome)
      ensures outcome != Smashed ==>
                forwardTable == map[] && remembered == {} && nurseryBump == nurseryBase && youngColor == map[]
      ensures oldThreshold == old(oldThreshold)
      ensures outcome == Dangling ==> Valid() && !Consistent()
      ensures outcome == Clean ==> Collectable()
      ensures old(remembered) == {} && OrderFits(old(Now()), scanned + pinned) ==>
                outcome != NoRoom && (outcome == Smashed <==> !OrderHarmless(old(Now()), scanned + pinned))
    {
      hide *;
      var needMajor; ghost var fwd, lost;
      CollectableOpen();
      ghost var s := Now();
      NowIs();
      SpareIs();
      YoungIsHigh();
      OrderIs(s, scanned + pinned);
      outcome, needMajor, fwd, lost := MinorGc(scanned, pinned);
      NowIs();
      c := Trail(moves, fwd, lost, Now(), Now());
      if outcome == Smashed {
        SmashIsDone(s, scanned + pinned, c);
        OrderDecides(s, scanned + pinned, roots, oldThreshold, c, outcome);
        return;
      }
      MovedWereYoung(s, scanned + pinned, fwd, lost);
      CopiesLeave(s, fwd);
      MinorIsDone(s, scanned + pinned, fwd, lost);
      UsedIs();
      if outcome == Clean && needMajor {
        CollectableOpen();
        assert youngColor.Keys == {};
        MajorGc(roots);
        NoYoung(youngColor);
        var dangling := AnyDangling();
        if dangling { outcome := Dangling; }
        CollectableOpen();
        c := Trail(moves, fwd, lost, c.mid, Now());
        NowIs();
      }
      CollectIsDone(s, scanned + pinned, roots, oldThreshold, c, outcome);
      OrderDecides(s, scanned + pinned, roots, oldThreshold, c, outcome);
    }

    lemma NowIs()
      ensures Now() ==
              Shot(handles.State(), handles.externalRefs, youngColor, nurseryBase, nurseryEnd, nurseryEnd - nurseryBump,
                   oldGen.headers, oldGen.blocks, oldGen.host, payload, remembered, stack, regs, weak, overwritten)
    {
    }

    lemma OrderIs(s: Shot, roots: seq<Handle>)
      ensures OrderIn(s, roots) == OrderOf(s.t, s.pay, s.ys.Keys, roots)
    {
    }

    lemma UsedIs()
      requires oldGen.Valid()
      ensures oldGen.used == LiveBytes(oldGen.headers)
    {
    }

    lemma SpareIs()
      ensures Valid() ==> oldGen.Spare() == SpareIn(Now())
    {
      hide Inv, Ok, Layout, NurseryOk, PM.PtrTable.Valid, Free;
    }

    lemma ServesIs(size: nat)
      requires Valid()
      ensures oldGen.Serves(RoundUp8(HEADER + size)) <==> !TooLarge(Now(), size)
    {
      hide Inv, Ok, Layout, NurseryOk, PM.PtrTable.Valid, DeadSlotServes, HasRoom, HostGrants, SlotTotal;
    }

    lemma YoungIsHigh()
      ensures Consistent() ==> oldGen.nurseryLo == nurseryBase && oldGen.nurseryHi == nurseryEnd
      ensures Consistent() ==> forall a :: a in youngColor ==> 256 <= nurseryBase <= a < nurseryEnd
    {
      hide Inv, Ok, Layout, PM.PtrTable.Valid, Mapped;
      assert forall a :: a in youngColor && Consistent() ==> InNursery(payload, nurseryBase, nurseryBump, a);
    }

    lemma MovedWereYoung(s: Shot, roots: seq<Handle>, fwd: Forward, lost: set<Ptr>)
      requires Survivors(s.t, s.ys.Keys, s.pay, s.hs, roots, s.remembered, fwd, lost)
      ensures forall a :: a in fwd ==> a in s.ys
    {
    }

    lemma CopiesLeave(s: Shot, fwd: Forward)
      requires oldGen.nurseryLo == s.base && oldGen.nurseryHi == s.end
      requires forall a :: a in s.ys ==> 256 <= s.base <= a < s.end
      requires (forall a :: a in fwd ==> a in s.ys) && CopiesOk(s.pay, oldGen.headers, payload, fwd)
      requires oldGen.Valid()
      ensures LeavesNursery(s.base, s.end, fwd)
    {
      hide AllTiled, Covered, FreeExact, SlotsOk;
      forall a | a in fwd ensures !(s.base <= fwd[a] < s.end) {
        SlotOutsideNursery(oldGen.blocks, oldGen.headers, s.base, s.end, fwd[a]);
      }
    }

    lemma MinorIsDone(s: Shot, roots: seq<Handle>, fwd: Forward, lost: set<Ptr>)
      requires Now() == s.(t := Now().t, ys := map[], room := s.end - s.base, hs := Now().hs, blocks := Now().blocks,
                           host := Now().host, pay := Now().pay, remembered := {}, stack := Now().stack,
                             regs := Now().regs)
      requires LeavesNursery(s.base, s.end, fwd)
      requires MovesOk(s.t, s.ys.Keys, s.pay, s.end, moves, fwd)
               && (lost != {} ==> Short(SpareIn(s), s.pay, moves, lost))
      requires MovesFollow(OrderIn(s, roots), moves, lost, s.remembered == {}, true)
      requires |stack| == |s.stack| && |regs| == |s.regs|
      requires forall i :: 0 <= i < |regs| ==> regs[i] == ForwardedWord(fwd, s.regs[i])
      requires forall i :: 0 <= i < |stack| ==>
                 stack[i] == if 8 * |stack| < STACK_LIMIT then ForwardedWord(fwd, s.stack[i]) else s.stack[i]
      requires YoungFate(s.t, s.ys.Keys, s.pay, roots, handles.State(), fwd)
      requires Survivors(s.t, s.ys.Keys, s.pay, s.hs, roots, s.remembered, fwd, lost)
      requires CopiesOk(s.pay, oldGen.headers, payload, fwd) && SlotsKept(s.hs, s.pay, oldGen.headers, payload, fwd)
      ensures MinorDone(s, roots, moves, fwd, lost, Now())
    {
      hide YoungFate, CopiesOk, SlotsKept, MovesOk, MovesFollow, OrderIn, Short, ForwardedWord, LeavesNursery,
           YoungReach, RememberedRefs, RememberedAreOld;
      if 8 * |stack| >= STACK_LIMIT { assert stack == s.stack; }
    }

    lemma SmashIsDone(s: Shot, roots: seq<Handle>, c: Trail)
      requires Harm(s.t, s.ys.Keys, s.pay) && c.moves == moves && c.after == Now() && s.end == nurseryEnd
      requires MayMove(s.t, s.ys.Keys, s.pay, s.hs, roots, s.remembered, moves[|moves| - 1])
      requires MovesFollow(OrderIn(s, roots), moves, c.lost, s.remembered == {}, false)
      requires c.lost != {} ==> Short(SpareIn(s), s.pay, moves, c.lost)
      ensures SmashDone(s, roots, c)
    {
      hide HarmfulLast, MayMove, MovesFollow, OrderIn, Short;
    }

    lemma CollectableOpen()
      ensures Collectable() <==> Consistent() && AllHarmless(handles.handles, youngColor.Keys, payload, nurseryEnd)
      ensures Consistent() && youngColor == map[] ==> Collectable()
      ensures Consistent() ==> Valid()
    {
    }

    lemma Opened()
      ensures Consistent() ==> Valid()
      ensures Valid() ==> overwritten == map[] && handles.Valid() && oldGen.Valid()
    {
    }

    lemma ConsistentIs()
      ensures Consistent() ==> Valid() && Mapped(handles.State(), youngColor.Keys + LiveSlots(oldGen.headers))
      ensures Valid() ==> youngColor.Keys !! oldGen.headers.Keys
    {
    }

    lemma NotYoung(raw: Ptr)
      requires Valid() && raw in oldGen.headers
      ensures raw !in youngColor
    {
      hide Inv, Ok, NurseryOk, PM.PtrTable.Valid;
    }

    /** alloc: the nursery; else a collection and the nursery again; else the old
        generation. The model stops when the collection does not end in order. */
    method Alloc(size: nat, scanned: seq<Handle>, pinned: seq<Handle>, roots: seq<Handle>)
      returns (h: Handle, outcome: Outcome, ghost raw: Ptr, ghost c: Trail)
      requires |handles.handles| < SHARED_HANDLE_BIT
      requires forwardTable == map[] && forall q :: q in remembered ==> q < |handles.handles|
      requires Consistent()
      modifies this, handles`handles, handles`freeHandles, handles.ptrToHandle, oldGen
      ensures outcome == Smashed ==> !HarmlessMoves(old(handles.handles), old(youngColor.Keys), old(payload),
                                                    nurseryEnd, moves)
      ensures outcome == Smashed ==> SmashDone(old(Now()), scanned + pinned, c)
      ensures old(Collectable()) ==> outcome != Smashed
      ensures old(Now()).room >= RoundUp8(HEADER + size) ==>
                c.after == old(Now()) && outcome == Clean && h != NULL_HANDLE
      ensures old(Now()).room < RoundUp8(HEADER + size) && outcome != Smashed ==>
                CollectDone(old(Now()), scanned + pinned, roots, oldThreshold, c, if outcome == Cut then Clean
                            else outcome)
      ensures outcome != Clean && outcome != Cut ==> h == NULL_HANDLE && c.after == Now()
      ensures outcome == Dangling ==> Valid() && !Consistent()
      ensures outcome == Cut <==> h != NULL_HANDLE && !Holdable(size)
      ensures outcome == Cut ==> !Valid() && SlotTaken(c.after.hs, oldGen.headers, raw, size)
      ensures outcome == Clean && h == NULL_HANDLE ==> Now() == Refused(c.after)
      ensures outcome == Clean ==> (h == NULL_HANDLE <==>
                                    c.after.room < RoundUp8(HEADER + size) && TooLarge(c.after, size))
      ensures outcome == Clean && h != NULL_HANDLE ==> NewObject(c.after, h, size, raw, Now())
      ensures outcome == Clean ==> Consistent() && forwardTable == map[] && forall q :: q in remembered ==>
                q < |handles.handles|
      ensures oldThreshold == old(oldThreshold)
    {
      hide Inv, Ok, NurseryOk, Layout, Mapped, PM.PtrTable.Valid, LiveSlots, New, Valid, Consistent, Collectable,
           CollectDone, Unused, RoundUp8, NewSlot, ApartFromLive, ClassCeil, Span, AddrOf, IsLiveHandle, Holdable,
           Zeros, HarmlessMoves, NoneEndsAt, Short, OldSpace.Serves, OldSpace.Spare, TooLarge;
      outcome, raw, h := Clean, 0, NULL_HANDLE;
      ghost var s := Now();
      c := Trail([], map[], {}, s, s);
      var total := RoundUp8(HEADER + size);
      if nurseryBump + total > nurseryEnd {
        outcome, c := Collect(scanned, pinned, roots);
        if outcome != Clean { return; }
        CollectKeepsLength(s, scanned + pinned, roots, oldThreshold, c, outcome);
      }
      CollectableOpen();
      TableInv();
      raw := nurseryBump;
      if nurseryBump + total <= nurseryEnd {
        YoungIsHoldable(size);
        NewNames(handles.State(), raw);
        NewSlotInRange(handles.State());
        h := AllocYoung(size);
      } else {
        ghost var t := handles.State();
        h, raw := AllocPinned(size);
        NewNames(t, raw);
        if h != NULL_HANDLE && !Holdable(size) { outcome := Cut; }
      }
      CollectableOpen();
    }

    lemma YoungIsHoldable(size: nat)
      requires Valid() && nurseryBump + RoundUp8(HEADER + size) <= nurseryEnd
      ensures Holdable(size)
    {
      hide Inv, Ok, Layout, PM.PtrTable.Valid, RoundUp8;
    }

    lemma TableInv()
      requires Valid()
      ensures Inv(handles.State())
    {
    }

    /** Whiten the old generation and mark what the roots reach. */
    method MarkOld(roots: seq<Handle>) returns (ghost list: seq<Ptr>)
      requires Valid()
      modifies oldGen`headers, this`youngColor
      ensures youngColor.Keys == old(youngColor.Keys)
      ensures Blackened(Whitened(old(oldGen.headers)), oldGen.headers, Marked(list))
      ensures Tracing(RefGraph(handles.State(), payload, LiveSlots(old(oldGen.headers))),
                      RootAddrs(handles.State(), roots, LiveSlots(old(oldGen.headers)) + WhiteYoung(old(youngColor))),
                      list, |list|)
      ensures Valid()
    {
      hide Inv, Ok, NurseryOk, Marking, Layout, Tracing, RefGraph, RootAddrs, PM.PtrTable.Valid, Blackened;
      ghost var t, hsIn, ys0 := handles.State(), oldGen.headers, youngColor;
      LayoutWhitened(t, ys0, hsIn, payload);
      oldGen.PreMark();
      ghost var hs0 := oldGen.headers;
      WhitenedWhite(hsIn);
      LayoutDisjoint(t, ys0, hs0, payload);
      LayoutPayloads(t, ys0, hs0, payload);
      var wl;
      wl, list := MarkRoots(roots);
      RootsWhite(t, roots, WhiteSlots(hs0) + WhiteYoung(ys0));
      wl, list := Trace(false, wl, list, hs0, ys0);
      MarkingHeaders(t, wl, list, hs0, oldGen.headers, ys0, youngColor);
    }
  }

  // ----- weak references -----

  datatype WeakEntry = WeakEntry(target: Handle, live: bool)

  function WeakTarget(weak: seq<WeakEntry>, idx: nat): Handle {
    if idx >= |weak| || !weak[idx].live then NULL_HANDLE else weak[idx].target
  }

  /** The first entry not in use, or the end of the table. */
  predicate FirstUnused(weak: seq<WeakEntry>, idx: nat) {
    idx <= |weak| && (idx < |weak| ==> !weak[idx].live) && forall j :: 0 <= j < idx ==> weak[j].live
  }

  /** The table with e as entry idx. */
  function WeakWith(weak: seq<WeakEntry>, idx: nat, e: WeakEntry): (r: seq<WeakEntry>)
    requires idx <= |weak|
    ensures |r| == (if idx < |weak| then |weak| else idx + 1) && r[idx] == e
    ensures forall j :: 0 <= j < |weak| && j != idx ==> r[j] == weak[j]
  {
    if idx < |weak| then weak[idx := e] else weak + [e]
  }

  /** The handle is live and its object has not died in a sweep. */
  predicate NamesObject(t: Table, hs: Headers, h: Handle) {
    IsLiveHandle(t, h) && AddrOf(t, h) != 0 && !IsDead(hs, AddrOf(t, h))
  }

  function SweptEntry(e: WeakEntry, t: Table, hs: Headers): WeakEntry {
    if e.live && !NamesObject(t, hs, e.target) then e.(target := NULL_HANDLE) else e
  }

  function SweptWeak(weak: seq<WeakEntry>, t: Table, hs: Headers): (r: seq<WeakEntry>)
    ensures |r| == |weak| && forall i :: 0 <= i < |weak| ==> r[i] == SweptEntry(weak[i], t, hs)
  {
    seq(|weak|, i requires 0 <= i < |weak| => SweptEntry(weak[i], t, hs))
  }

  /** A major collection keeps a weak reference to an old object exactly if the roots
      reach the object. */
  lemma WeakKeptIffReached(t: Table, hs0: Headers, hs: Headers, g: Graph, roots: set<Ptr>, e: WeakEntry)
    requires Collected(hs0, hs, g, roots) && e.live && e.target != NULL_HANDLE
    requires IsLiveHandle(t, e.target) && AddrOf(t, e.target) != 0 && AddrOf(t, e.target) in LiveSlots(hs0)
    ensures SweptEntry(e, t, hs) == e <==> Reach(g, roots, AddrOf(t, e.target))
    ensures SweptEntry(e, t, hs).target == NULL_HANDLE <==> !Reach(g, roots, AddrOf(t, e.target))
  {
  }

  /** A minor collection leaves weak references alone, so one to a young object still
      names it exactly if the object was moved. */
  lemma WeakAfterMinorIff(t: Table, young: set<Ptr>, pay: Payloads, hs: Headers, roots: seq<Handle>,
                          remembered: set<Handle>,
                          t': Table, fwd: Forward, lost: set<Ptr>, h: Handle)
    requires IsLiveHandle(t, h) && AddrOf(t, h) in young
    requires YoungFate(t, young, pay, roots, t', fwd) && Survivors(t, young, pay, hs, roots, remembered, fwd, lost)
             && lost == {}
    ensures IsLiveHandle(t', h) <==> AddrOf(t, h) in fwd
    ensures IsLiveHandle(t', h) ==> AddrOf(t', h) == fwd[AddrOf(t, h)]
  {
  }

  /** 32 bits hold the size of the slot behind its header. */
  predicate Holdable(size: nat) { RoundUp8(HEADER + size) - HEADER < SIZE_LIMIT }

  lemma CutSize(size: nat)
    requires !Holdable(size)
    ensures (RoundUp8(HEADER + size) - HEADER) % SIZE_LIMIT < size
  {
  }

  /** How a collection or an allocation ends: in order, without room for some object,
      with a header destroyed, with live handles that name dead slots, or with a header
      that cannot hold its size. */
  datatype Outcome = Clean | NoRoom | Smashed | Dangling | Cut

  lemma CollectIsDone(s: Shot, young: seq<Handle>, roots: seq<Handle>, threshold: nat, c: Trail, outcome: Outcome)
    requires MinorDone(s, young, c.moves, c.fwd, c.lost, c.mid) && (outcome == NoRoom <==> c.lost != {})
    requires if c.lost == {} && LiveBytes(c.mid.hs) >= threshold
             then MajorDone(c.mid, roots, c.after) && outcome == (if ReachesAll(c.mid, roots) then Clean else Dangling)
             else c.after == c.mid && (c.lost == {} ==> outcome == Clean)
    ensures CollectDone(s, young, roots, threshold, c, outcome)
  {
    hide MinorDone, MajorDone, ReachesAll, LiveBytes;
  }

  lemma CollectKeepsLength(s: Shot, young: seq<Handle>, roots: seq<Handle>, threshold: nat, c: Trail, outcome: Outcome)
    requires CollectDone(s, young, roots, threshold, c, outcome)
    ensures |c.after.t.handles| == |s.t.handles|
  {
    hide Survivors, CopiesOk, SlotsKept, Collected, ReachesAll;
  }

  /** The payloads of everything but dead slots. */
  function Survived(pay: Payloads, hs: Headers): Payloads {
    map p | p in pay && !IsDead(hs, p) :: pay[p]
  }

  lemma NoYoung(ys: Colors)
    ensures ys.Keys == {} ==> ys == map[]
  {
  }

  lemma DeadIsDangling(t: Table, ys: Colors, hs: Headers, pay: Payloads, h: Handle)
    requires Layout(t, ys, hs, pay) && IsLiveHandle(t, h) && IsDead(hs, AddrOf(t, h))
    ensures !Mapped(t, ys.Keys + LiveSlots(hs))
  {
  }

  lemma NoneDangling(t: Table, ys: Colors, hs: Headers, pay: Payloads)
    requires Layout(t, ys, hs, pay)
    requires forall h :: 0 <= h < |t.handles| && IsLiveHandle(t, h) ==> !IsDead(hs, AddrOf(t, h))
    ensures Mapped(t, ys.Keys + LiveSlots(hs))
  {
  }

  lemma LayoutSurvived(t: Table, ys: Colors, hs: Headers, pay: Payloads)
    requires Layout(t, ys, hs, pay)
    ensures Layout(t, ys, hs, Survived(pay, hs))
  {
  }

  lemma NurserySurvived(ys: Colors, pay: Payloads, hs: Headers, base: Ptr, bump: Ptr, end: Ptr)
    requires NurseryOk(ys, pay, base, bump, end) && hs.Keys !! ys.Keys
    ensures NurseryOk(ys, Survived(pay, hs), base, bump, end)
  {
    assert forall p :: p in ys ==> InNursery(pay, base, bump, p);
  }

  /** What a minor collection may move: what the roots reach, and what remembered old
      objects name. */
  ghost predicate MayMove(t: Table, young: set<Ptr>, pay: Payloads, hs: Headers, roots: seq<Handle>,
                          remembered: set<Handle>, a: Ptr)
  {
    YoungReach(t, pay, young, roots, a) ||
    (RememberedAreOld(t, hs, remembered) ==> a in RememberedRefs(t, pay, hs, remembered, young))
  }

  lemma SameRemembered(t: Table, pay: Payloads, hsIn: Headers, hs0: Headers, remembered: set<Handle>, young: set<Ptr>)
    requires RepaintedLive(hsIn, hs0)
    ensures RememberedRefs(t, pay, hsIn, remembered, young) == RememberedRefs(t, pay, hs0, remembered, young)
    ensures RememberedAreOld(t, hsIn, remembered) <==> RememberedAreOld(t, hs0, remembered)
  {
    assert LiveSlots(hsIn) == LiveSlots(hs0);
    assert forall q, b :: RememberedRefersTo(t, pay, hsIn, q, b) <==> RememberedRefersTo(t, pay, hs0, q, b);
  }

  /** Every live handle names a young object or a slot that is not dead and that
      the roots reach. */
  ghost predicate AllReached(t: Table, young: set<Ptr>, live: set<Ptr>, g: Graph, roots: set<Ptr>) {
    forall h :: IsLiveHandle(t, h) ==> AddrOf(t, h) in young || (AddrOf(t, h) in live && Reach(g, roots, AddrOf(t, h)))
  }

  lemma ReachedIffConsistent(t: Table, young: set<Ptr>, hs0: Headers, hs: Headers, g: Graph, roots: set<Ptr>)
    requires Collected(hs0, hs, g, roots)
    ensures Mapped(t, young + LiveSlots(hs)) <==> AllReached(t, young, LiveSlots(hs0), g, roots)
  {
    assert forall p :: p in LiveSlots(hs) <==> p in LiveSlots(hs0) && Reach(g, roots, p);
    forall h | IsLiveHandle(t, h)
      ensures AddrOf(t, h) in young + LiveSlots(hs) <==>
              AddrOf(t, h) in young || (AddrOf(t, h) in LiveSlots(hs0) && Reach(g, roots, AddrOf(t, h)))
    {
    }
  }

  /** When every live handle is a root, as in a process without a stack to scan, a
      major collection leaves no handle dangling. */
  lemma AllHandlesRootsAreReached(t: Table, young: set<Ptr>, live: set<Ptr>, white: set<Ptr>, g: Graph,
                                  roots: seq<Handle>)
    requires Mapped(t, young + live) && live <= white
    requires forall h :: IsLiveHandle(t, h) ==> h in roots
    ensures AllReached(t, young, live, g, RootAddrs(t, roots, white))
  {
    forall h | IsLiveHandle(t, h) && AddrOf(t, h) !in young
      ensures AddrOf(t, h) in live && Reach(g, RootAddrs(t, roots, white), AddrOf(t, h))
    {
      assert AddrOf(t, h) in young + live;
      var i :| 0 <= i < |roots| && roots[i] == h;
      assert AddrOf(t, roots[i]) in RootAddrs(t, roots, white);
      ReachRoot(g, RootAddrs(t, roots, white), AddrOf(t, h));
    }
  }

  lemma MarkingBegins(t: Table, hs: Headers, ys: Colors)
    ensures Marking(t, [], [], hs, hs, ys, ys) && Marked([]) == {}
  {
  }

  lemma MarkingLength(t: Table, wl: seq<Handle>, list: seq<Ptr>, hs0: Headers, hs: Headers, ys0: Colors, ys: Colors)
    requires Marking(t, wl, list, hs0, hs, ys0, ys)
    ensures |wl| == |list|
  {
  }

  lemma MarkingDistinct(t: Table, wl: seq<Handle>, list: seq<Ptr>, hs0: Headers, hs: Headers, ys0: Colors, ys: Colors)
    requires Marking(t, wl, list, hs0, hs, ys0, ys)
    ensures Distinct(list) && |wl| == |list|
  {
  }

  lemma MarkingHeaders(t: Table, wl: seq<Handle>, list: seq<Ptr>, hs0: Headers, hs: Headers, ys0: Colors, ys: Colors)
    requires Marking(t, wl, list, hs0, hs, ys0, ys)
    ensures Blackened(hs0, hs, Marked(list)) && ys.Keys == ys0.Keys
  {
  }

  lemma MarkingYoung(t: Table, wl: seq<Handle>, list: seq<Ptr>, hs0: Headers, hs: Headers, ys0: Colors, ys: Colors)
    requires Marking(t, wl, list, hs0, hs, ys0, ys)
    ensures ys.Keys == ys0.Keys
  {
  }

  lemma MarkingAt(t: Table, wl: seq<Handle>, list: seq<Ptr>, hs0: Headers, hs: Headers, ys0: Colors, ys: Colors, i: nat)
    requires Marking(t, wl, list, hs0, hs, ys0, ys) && i < |wl|
    ensures |wl| == |list| && IsLiveHandle(t, wl[i]) && t.handles[wl[i]].addr == list[i] && list[i] in Marked(list)
  {
  }

  lemma MarkingSlots(t: Table, wl: seq<Handle>, list: seq<Ptr>, hs0: Headers, hs: Headers, ys0: Colors, ys: Colors,
                     b: Ptr)
    requires Marking(t, wl, list, hs0, hs, ys0, ys)
    ensures (b !in hs || hs[b].color != White) && b in WhiteSlots(hs0) ==> b in Marked(list)
    ensures (b !in ys || ys[b] != White) && b in WhiteYoung(ys0) ==> b in Marked(list)
  {
  }

  lemma RootsWhite(t: Table, roots: seq<Handle>, white: set<Ptr>)
    ensures RootAddrs(t, roots, white) <= white
  {
  }

  lemma LayoutDisjoint(t: Table, ys: Colors, hs: Headers, pay: Payloads)
    requires Layout(t, ys, hs, pay)
    ensures hs.Keys !! ys.Keys
  {
  }

  lemma LayoutPayloads(t: Table, ys: Colors, hs: Headers, pay: Payloads)
    requires Layout(t, ys, hs, pay)
    ensures WhiteSlots(hs) + WhiteYoung(ys) <= pay.Keys
  {
  }

  lemma LayoutWhitened(t: Table, ys: Colors, hs: Headers, pay: Payloads)
    requires Layout(t, ys, hs, pay)
    ensures Layout(t, ys, Whitened(hs), pay)
  {
    assert Whitened(hs).Keys == hs.Keys;
  }

  lemma LayoutSwept(t: Table, ys: Colors, hs: Headers, pay: Payloads)
    requires Layout(t, ys, hs, pay)
    ensures Layout(t, ys, Swept(hs), pay)
  {
    assert Swept(hs).Keys == hs.Keys;
  }

  /** The slot of a young object: header and payload, rounded up. */
  function YoungSpan(p: seq<Byte>): (n: nat)
    ensures n >= HEADER + |p| && n % 8 == 0
  {
    RoundUp8(HEADER + |p|)
  }

  ghost predicate InNursery(pay: Payloads, base: Ptr, bump: Ptr, p: Ptr) {
    p in pay && base <= p && (p - base) % 8 == 0 && p + YoungSpan(pay[p]) <= bump
  }

  /** Young objects lie in aligned slots between the base and the bump pointer, and
      their slots do not overlap. */
  ghost predicate NurseryOk(ys: Colors, pay: Payloads, base: Ptr, bump: Ptr, end: Ptr) {
    && 256 <= base <= bump <= end <= base + MAX_NURSERY && (bump - base) % 8 == 0
    && (forall p :: p in ys ==> InNursery(pay, base, bump, p))
    && (forall p, q :: p in ys && q in ys && p < q && p in pay ==> p + YoungSpan(pay[p]) <= q)
  }

  // ----- forwarding pointers that do harm -----

  /** A live handle has the address b. */
  predicate Named(entries: seq<HandleEntry>, b: Ptr) {
    exists h :: 0 <= h < |entries| && entries[h].live && entries[h].addr == b
  }

  /** A live handle names the young object at b, so its header will be read. */
  predicate NamedYoung(entries: seq<HandleEntry>, young: set<Ptr>, b: Ptr) { b in young && Named(entries, b) }

  /** The forwarding pointer written over the payload of a stays in the nursery and
      meets no header of an object in use: the payload is not empty, or nothing in use
      stands behind it. */
  predicate Harmless(entries: seq<HandleEntry>, young: set<Ptr>, pay: Payloads, end: Ptr, a: Ptr) {
    HarmlessAfter(entries, young, pay, end, [], a)
  }

  /** The same once the objects of moved have left the nursery. */
  predicate HarmlessAfter(entries: seq<HandleEntry>, young: set<Ptr>, pay: Payloads, end: Ptr, moved: seq<Ptr>,
                          a: Ptr) {
    a in pay && (|pay[a]| > 0 || (a + 2 * HEADER <= end
                                  && (a + HEADER in moved || !NamedYoung(entries, young, a + HEADER))))
  }

  /** No object in use has a harmful forwarding pointer. */
  ghost predicate AllHarmless(entries: seq<HandleEntry>, young: set<Ptr>, pay: Payloads, end: Ptr) {
    forall a :: NamedYoung(entries, young, a) ==> Harmless(entries, young, pay, end, a)
  }

  /** No object in use ends at p right behind its header. */
  ghost predicate NoneEndsAt(entries: seq<HandleEntry>, young: set<Ptr>, p: Ptr) {
    forall a: Ptr :: NamedYoung(entries, young, a) ==> a + HEADER != p
  }

  /** That is what Harmless says: the eight bytes behind the header of a lie in the
      nursery and meet no other young object in use. */
  lemma HarmlessIff(entries: seq<HandleEntry>, ys: Colors, pay: Payloads, base: Ptr, bump: Ptr, end: Ptr, a: Ptr)
    requires NurseryOk(ys, pay, base, bump, end) && a in ys
    ensures Harmless(entries, ys.Keys, pay, end, a) <==>
            && a + 2 * HEADER <= end
            && forall q: Ptr :: NamedYoung(entries, ys.Keys, q) && q != a ==>
                 q in pay && (q + YoungSpan(pay[q]) <= a + HEADER || a + 2 * HEADER <= q)
  {
    hide Named;
    assert InNursery(pay, base, bump, a);
    ForwardPointerFits(|pay[a]|);
    forall q | q in ys && q != a
      ensures q in pay
      ensures q + YoungSpan(pay[q]) <= a + HEADER || (a + HEADER <= q && (q < a + 2 * HEADER ==> q == a + HEADER))
    {
      assert InNursery(pay, base, bump, q);
    }
    if a + HEADER in ys { assert InNursery(pay, base, bump, a + HEADER); }
  }

  lemma FreshHeap(base: Ptr, end: Ptr)
    requires 256 <= base <= end <= base + MAX_NURSERY
    ensures Layout(NO_HANDLES, map[], map[], map[]) && NurseryOk(map[], map[], base, base, end)
    ensures var none: Colors := map[]; Mapped(NO_HANDLES, none.Keys + LiveSlots(map[]))
  {
  }

  lemma NurseryPaint(ys: Colors, ys': Colors, pay: Payloads, base: Ptr, bump: Ptr, end: Ptr)
    requires NurseryOk(ys, pay, base, bump, end) && ys'.Keys == ys.Keys
    ensures NurseryOk(ys', pay, base, bump, end)
  {
  }

  ghost predicate Mapped(t: Table, places: set<Ptr>) {
    forall h :: IsLiveHandle(t, h) ==> AddrOf(t, h) in places
  }

  /** Every live handle names a nursery object or a slot, and every object that is
      not dead has its payload, of the size that its header says. */
  ghost predicate Layout(t: Table, ys: Colors, hs: Headers, pay: Payloads) {
    && Mapped(t, ys.Keys + hs.Keys)
    && ys.Keys !! hs.Keys
    && (forall p :: p in ys ==> p in pay)
    && (forall p :: p in hs && hs[p].color != Dead ==> p in pay && |pay[p]| == hs[p].size)
  }

  lemma LayoutPlaces(t: Table, ys: Colors, hs: Headers, pay: Payloads, h: Handle)
    requires Layout(t, ys, hs, pay) && IsLiveHandle(t, h)
    ensures AddrOf(t, h) in hs || AddrOf(t, h) in ys
    ensures !(AddrOf(t, h) in hs && AddrOf(t, h) in ys)
  {
  }

  lemma LayoutPaint(t: Table, ys: Colors, hs: Headers, pay: Payloads, p: Ptr, c: Color)
    requires Layout(t, ys, hs, pay) && p in hs && hs[p].color != Dead
    ensures Layout(t, ys, hs[p := hs[p].(color := c)], pay)
  {
    assert hs[p := hs[p].(color := c)].Keys == hs.Keys;
  }

  lemma LayoutYoung(t: Table, ys: Colors, hs: Headers, pay: Payloads, p: Ptr, c: Color)
    requires Layout(t, ys, hs, pay) && p in ys
    ensures Layout(t, ys[p := c], hs, pay)
  {
    assert ys[p := c].Keys == ys.Keys;
  }

  // ----- minor collection: lemmas -----

  /** Young objects that live handles name are black exactly in black, else white. */
  ghost predicate LiveColors(t: Table, ys: Colors, black: set<Ptr>) {
    forall h :: IsLiveHandle(t, h) && AddrOf(t, h) in ys ==>
      ys[AddrOf(t, h)] == if AddrOf(t, h) in black then Black else White
  }

  ghost predicate WhiteBelow(t: Table, ys: Colors, n: nat) {
    forall h :: 0 <= h < n && IsLiveHandle(t, h) && AddrOf(t, h) in ys ==> ys[AddrOf(t, h)] == White
  }

  lemma ConsistentRecolour(t: Table, ys: Colors, ys': Colors, hs: Headers, pay: Payloads)
    requires Layout(t, ys, hs, pay) && Mapped(t, ys.Keys + LiveSlots(hs)) && ys'.Keys == ys.Keys
    ensures Layout(t, ys', hs, pay) && Mapped(t, ys'.Keys + LiveSlots(hs))
  {
  }

  lemma NurserySize(ys: Colors, pay: Payloads, base: Ptr, bump: Ptr, end: Ptr, p: Ptr)
    requires NurseryOk(ys, pay, base, bump, end) && p in ys
    ensures p in pay && 0 < RoundUp8(HEADER + |pay[p]|) < SIZE_LIMIT
  {
    assert InNursery(pay, base, bump, p);
  }

  lemma NurseryBounds(ys: Colors, pay: Payloads, base: Ptr, bump: Ptr, end: Ptr, p: Ptr)
    requires NurseryOk(ys, pay, base, bump, end) && !(base <= p < end)
    ensures p !in ys
  {
  }

  lemma NurseryCopy(ys: Colors, pay: Payloads, base: Ptr, bump: Ptr, end: Ptr, raw: Ptr, copy: seq<Byte>)
    requires NurseryOk(ys, pay, base, bump, end) && raw !in ys
    ensures NurseryOk(ys, pay[raw := copy], base, bump, end)
  {
  }

  lemma EvacuatedLands(t0: Table, ys: Colors, pay0: Payloads, hs0: Headers, t: Table, hs: Headers, pay: Payloads,
                       fwd: Forward)
    requires Evacuated(t0, ys.Keys, pay0, hs0, t, hs, pay, fwd) && Layout(t, ys, hs, pay)
    ensures LandsOutside(fwd, ys.Keys)
  {
  }

  lemma SourceNotMoved(t0: Table, young: set<Ptr>, pay0: Payloads, hs0: Headers, t: Table, hs: Headers, pay: Payloads,
                       fwd: Forward, h: Handle)
    requires Evacuated(t0, young, pay0, hs0, t, hs, pay, fwd) && LandsOutside(fwd, young)
    requires IsLiveHandle(t, h) && t.handles[h].addr in young
    ensures IsLiveHandle(t0, h) && t0.handles[h].addr == t.handles[h].addr && t.handles[h].addr !in fwd
  {
    SourceOf(t0, t, fwd, young, h);
  }

  lemma SourceBytes(t0: Table, young: set<Ptr>, pay0: Payloads, hs0: Headers, t: Table, hs: Headers, pay: Payloads,
                    fwd: Forward, a: Ptr)
    requires Evacuated(t0, young, pay0, hs0, t, hs, pay, fwd) && a in young && a !in fwd
    ensures a in pay0 && a in pay && pay[a] == pay0[a]
  {
  }

  lemma LayoutMove(t: Table, ys: Colors, hs: Headers, pay: Payloads, h: Handle, raw: Ptr, hdr: Header, copy: seq<Byte>)
    requires Layout(t, ys, hs, pay) && Mapped(t, ys.Keys + LiveSlots(hs)) && IsLiveHandle(t, h)
    requires raw > 0 && raw !in ys && (raw in hs ==> hs[raw].color == Dead) && hdr.color != Dead && |copy| == hdr.size
    ensures Unused(t, raw)
    ensures var t' := Move(t, h, raw);
            Layout(t', ys, hs[raw := hdr], pay[raw := copy]) && Mapped(t', ys.Keys + LiveSlots(hs[raw := hdr]))
  {
    var t' := Move(t, h, raw);
    forall g | 0 <= g < |t.handles| && t.handles[g].live ensures t.handles[g].addr != raw {
      assert AddrOf(t, g) in ys.Keys + LiveSlots(hs);
    }
    forall g | IsLiveHandle(t', g) ensures AddrOf(t', g) in ys.Keys + LiveSlots(hs[raw := hdr]) {
      if g != h { assert IsLiveHandle(t, g) && AddrOf(t, g) == AddrOf(t', g); }
    }
  }

  /** One successful evacuation, on values. */
  lemma EvacuateStep(t0: Table, ys: Colors, pay0: Payloads, hs0: Headers, t: Table, hs: Headers, pay: Payloads,
                     fwd: Forward, table: map<Ptr, Ptr>, base: Ptr, bump: Ptr, end: Ptr,
                     h: Handle, src: Ptr, raw: Ptr, hdr: Header, copy: seq<Byte>,
                     t': Table, ys': Colors, hs': Headers, pay': Payloads, fwd': Forward, table': map<Ptr, Ptr>)
    requires IsLiveHandle(t, h) && src == t.handles[h].addr && src in ys && src in pay && pay[src] <= copy
    requires raw > 0 && raw !in ys && (raw in hs ==> hs[raw].color == Dead) && hdr.color != Dead && |copy| == hdr.size
    requires t' == Move(t, h, raw) && ys' == ys[src := Black] && hs' == hs[raw := hdr]
    requires pay' == pay[raw := copy][src := Stamped(pay[src], raw + HEADER)]
    requires fwd' == fwd[src := raw] && table' == table[src + HEADER := raw + HEADER]
    requires Evacuated(t0, ys.Keys, pay0, hs0, t, hs, pay, fwd) && Inv(t0) && Inv(t) && Tabled(table, fwd)
    requires Layout(t, ys, hs, pay) && Mapped(t, ys.Keys + LiveSlots(hs)) && NurseryOk(ys, pay, base, bump, end)
    ensures Unused(t, raw) && src !in fwd
    ensures Evacuated(t0, ys.Keys, pay0, hs0, t', hs', pay', fwd') && Tabled(table', fwd')
    ensures Layout(t', ys', hs', pay') && Mapped(t', ys'.Keys + LiveSlots(hs')) && NurseryOk(ys', pay', base, bump, end)
  {
    hide Inv, Evacuated, Layout, Mapped, NurseryOk, Tabled;
    EvacuatedLands(t0, ys, pay0, hs0, t, hs, pay, fwd);
    SourceNotMoved(t0, ys.Keys, pay0, hs0, t, hs, pay, fwd, h);
    var left := Stamped(pay[src], raw + HEADER);
    LayoutDisjoint(t, ys, hs, pay);
    EvacuateOne(t0, ys.Keys, pay0, hs0, t, hs, pay, fwd, h, raw, hdr, copy, left);
    LayoutMove(t, ys, hs, pay, h, raw, hdr, copy);
    NurseryCopy(ys, pay, base, bump, end, raw, copy);
    NurseryRewrite(ys, pay[raw := copy], base, bump, end, src, left);
    LayoutRewrite(Move(t, h, raw), ys, hs[raw := hdr], pay[raw := copy], src, left);
    NurseryPaint(ys, ys[src := Black], pay', base, bump, end);
    ConsistentRecolour(Move(t, h, raw), ys, ys[src := Black], hs[raw := hdr], pay');
    TabledGrows(table, fwd, src, raw);
  }

  lemma LayoutRewrite(t: Table, ys: Colors, hs: Headers, pay: Payloads, a: Ptr, bytes: seq<Byte>)
    requires Layout(t, ys, hs, pay) && a in pay && |bytes| == |pay[a]|
    ensures Layout(t, ys, hs, pay[a := bytes])
  {
  }

  /** Moved in this order, no object has a harmful forwarding pointer. */
  ghost predicate HarmlessMoves(entries: seq<HandleEntry>, young: set<Ptr>, pay: Payloads, end: Ptr, moves: seq<Ptr>) {
    forall i :: 0 <= i < |moves| ==> HarmlessAfter(entries, young, pay, end, moves[..i], moves[i])
  }

  /** The moves so far are the objects of fwd, each once, named by handles and harmless. */
  ghost predicate MovesOk(t: Table, young: set<Ptr>, pay: Payloads, end: Ptr, moves: seq<Ptr>, fwd: Forward) {
    && Distinct(moves) && (forall a :: a in fwd <==> a in moves)
    && (forall a :: a in moves ==> NamedYoung(t.handles, young, a))
    && HarmlessMoves(t.handles, young, pay, end, moves)
  }

  /** Only the last move did harm. */
  ghost predicate HarmfulLast(t: Table, young: set<Ptr>, pay: Payloads, end: Ptr, moves: seq<Ptr>) {
    && moves != [] && Distinct(moves) && (forall a :: a in moves ==> NamedYoung(t.handles, young, a))
    && HarmlessMoves(t.handles, young, pay, end, moves[..|moves| - 1])
    && !HarmlessAfter(t.handles, young, pay, end, moves[..|moves| - 1], moves[|moves| - 1])
  }

  lemma NoMoves(t: Table, young: set<Ptr>, pay: Payloads, end: Ptr)
    ensures MovesOk(t, young, pay, end, [], map[])
  {
  }

  lemma MovesAreHarmless(t: Table, young: set<Ptr>, pay: Payloads, end: Ptr, moves: seq<Ptr>, fwd: Forward)
    requires MovesOk(t, young, pay, end, moves, fwd)
    ensures HarmlessMoves(t.handles, young, pay, end, moves)
  {
  }

  lemma NoneYoung(entries: seq<HandleEntry>, pay: Payloads, end: Ptr)
    ensures var none: Colors := map[]; AllHarmless(entries, none.Keys, pay, end)
  {
  }

  /** One more move, of the object of h. */
  lemma MovesGrow(t: Table, h: Handle, young: set<Ptr>, pay: Payloads, end: Ptr, moves: seq<Ptr>, fwd: Forward, a: Ptr,
                  fwd': Forward)
    requires MovesOk(t, young, pay, end, moves, fwd) && IsLiveHandle(t, h) && t.handles[h].addr == a
    requires a in young && a !in fwd && fwd'.Keys == fwd.Keys + {a}
    ensures if HarmlessAfter(t.handles, young, pay, end, moves, a) then MovesOk(t, young, pay, end, moves + [a], fwd')
            else HarmfulLast(t, young, pay, end, moves + [a])
  {
    hide HarmlessAfter;
    var more := moves + [a];
    assert more[..|moves|] == moves;
    assert forall i :: 0 <= i < |moves| ==> more[i] == moves[i] && more[..i] == moves[..i];
    forall i, j | 0 <= i < j < |more| ensures more[i] != more[j] {
      if j == |moves| { assert moves[i] in moves; }
    }
  }

  /** How the moves relate to the order of the trace, as long as there is room: they follow
      it, and go beyond it only for what remembered objects name. */
  ghost predicate MovesFollow(order: seq<Ptr>, moves: seq<Ptr>, lost: set<Ptr>, alone: bool, intact: bool) {
    && (lost == {} ==> moves <= order || order <= moves)
    && (lost == {} && intact ==> order <= moves)
    && (alone ==> (lost == {} ==> moves <= order) && forall a :: a in moves || a in lost ==> a in order)
    && (alone ==> forall a :: a in lost ==> a !in moves)
  }

  /** What was met so far has moved in order, up to what is lost. */
  ghost predicate InStep(met: seq<Ptr>, moves: seq<Ptr>, lost: set<Ptr>) {
    && (lost == {} ==> moves == met)
    && (forall a :: a in moves || a in lost ==> a in met)
    && (forall a :: a in lost ==> a !in moves)
  }

  lemma StepsBegin()
    ensures InStep([], [], {})
  {
  }

  /** The next object of the list is moved or lost, if it is young. */
  lemma StepOn(list: seq<Ptr>, young: set<Ptr>, i: nat, moves: seq<Ptr>, lost: set<Ptr>)
    requires Distinct(list) && i < |list| && InStep(Within(list[..i], young), moves, lost)
    ensures var met := Within(list[..i + 1], young);
            if list[i] in young then InStep(met, moves + [list[i]], lost) && InStep(met, moves, lost + {list[i]})
            else InStep(met, moves, lost)
  {
    WithinNext(list, young, i);
    WithinHas(list[..i], young, list[i]);
  }

  lemma StepsFollow(list: seq<Ptr>, young: set<Ptr>, i: nat, moves: seq<Ptr>, lost: set<Ptr>, intact: bool)
    requires i <= |list| && InStep(Within(list[..i], young), moves, lost) && (intact ==> i == |list|)
    ensures MovesFollow(Within(list, young), moves, lost, true, intact)
  {
    WithinPrefix(list, young, i);
    if i == |list| { assert list[..i] == list; }
  }

  lemma FollowWithRemembered(order: seq<Ptr>, moves: seq<Ptr>, lost: set<Ptr>, alone: bool, intact: bool)
    requires MovesFollow(order, moves, lost, true, intact)
    ensures MovesFollow(order, moves, lost, alone, intact)
  {
  }

  lemma FollowBeyond(order: seq<Ptr>, moves: seq<Ptr>, lost: set<Ptr>, moves': seq<Ptr>, lost': set<Ptr>, alone: bool,
                     intact: bool)
    requires MovesFollow(order, moves, lost, alone, true) && moves <= moves' && lost <= lost'
    requires alone ==> intact && moves' == moves && lost' == lost
    ensures MovesFollow(order, moves', lost', alone, intact)
  {
  }

  // ----- room for the objects that move -----

  /** The slot that a copy of p takes. */
  function Need(p: seq<Byte>): nat { SlotTotal(YoungSpan(p)) }

  ghost function Needs(pay: Payloads, list: seq<Ptr>): nat {
    if list == [] then 0
    else
      var a := list[|list| - 1];
      Needs(pay, list[..|list| - 1]) + if a in pay then Need(pay[a]) else 0
  }

  lemma NeedsMore(pay: Payloads, list: seq<Ptr>, b: Ptr)
    requires b in pay && Distinct(list) && b !in list
    ensures Needs(pay, list + [b]) == Needs(pay, list) + Need(pay[b]) && Distinct(list + [b])
  {
    hide Need;
    assert (list + [b])[..|list|] == list;
  }

  /** Some of the objects need no more than all of them. */
  lemma {:induction false} NeedsSubset(pay: Payloads, some: seq<Ptr>, all: seq<Ptr>)
    requires Distinct(some) && forall a :: a in some ==> a in all
    ensures Needs(pay, some) <= Needs(pay, all)
  {
    hide Need;
    assert forall i :: 0 <= i < |some| ==> some[i] in all;
    if all != [] {
      var rest, b := all[..|all| - 1], all[|all| - 1];
      assert all == rest + [b];
      if b in some {
        var i :| 0 <= i < |some| && some[i] == b;
        NeedsWithout(pay, some, i);
        var fewer := some[..i] + some[i + 1..];
        assert forall a :: a in fewer ==> a in some && a != b;
        NeedsSubset(pay, fewer, rest);
      } else {
        NeedsSubset(pay, some, rest);
      }
    }
  }

  lemma {:induction false} NeedsWithout(pay: Payloads, list: seq<Ptr>, i: nat)
    requires i < |list|
    ensures Needs(pay, list) == Needs(pay, list[..i] + list[i + 1..]) + if list[i] in pay then Need(pay[list[i]]) else 0
  {
    hide Need;
    var last := |list| - 1;
    if i < last {
      var fewer := list[..i] + list[i + 1..];
      NeedsWithout(pay, list[..last], i);
      assert fewer[..|fewer| - 1] == list[..last][..i] + list[..last][i + 1..] && fewer[|fewer| - 1] == list[last];
    } else {
      assert list[..i] + list[i + 1..] == list[..last];
    }
  }

  /** What was to spare did not do for the objects moved and one of those lost. */
  ghost predicate Short(spare: nat, pay: Payloads, moves: seq<Ptr>, lost: set<Ptr>) {
    exists b :: b in lost && b in pay && spare < Needs(pay, moves) + Need(pay[b])
  }

  ghost predicate RoomOk(spare0: nat, spare: nat, pay: Payloads, moves: seq<Ptr>, full: bool, lost: set<Ptr>) {
    && (full <==> lost != {})
    && (if full then Short(spare0, pay, moves, lost) else spare + Needs(pay, moves) >= spare0)
  }

  lemma RoomBegins(spare: nat, pay: Payloads)
    ensures RoomOk(spare, spare, pay, [], false, {})
  {
  }

  lemma RoomMoved(spare0: nat, spare: nat, spare': nat, pay: Payloads, moves: seq<Ptr>, full: bool, lost: set<Ptr>,
                  a: Ptr)
    requires RoomOk(spare0, spare, pay, moves, full, lost) && a in pay && spare' + Need(pay[a]) >= spare
    ensures RoomOk(spare0, spare', pay, moves + [a], full, lost)
  {
    hide Need;
    assert (moves + [a])[..|moves|] == moves;
  }

  lemma RoomLost(spare0: nat, spare: nat, spare': nat, pay: Payloads, moves: seq<Ptr>, full: bool, lost: set<Ptr>,
                 a: Ptr)
    requires RoomOk(spare0, spare, pay, moves, full, lost) && a in pay && spare < Need(pay[a])
    ensures RoomOk(spare0, spare', pay, moves, true, lost + {a})
  {
    hide Need;
  }

  lemma MarkedAt(list: seq<Ptr>, i: nat)
    requires i < |list|
    ensures list[i] in Marked(list)
  {
  }

  /** While objects move, the handles as they are tell what the moves so far tell. */
  lemma HarmlessStays(t0: Table, young: set<Ptr>, pay0: Payloads, hs0: Headers, t: Table, hs: Headers, pay: Payloads,
                      fwd: Forward, end: Ptr, moves: seq<Ptr>, a: Ptr)
    requires Evacuated(t0, young, pay0, hs0, t, hs, pay, fwd) && a in young
    requires LandsOutside(fwd, young) && MovesOk(t0, young, pay0, end, moves, fwd)
    ensures Harmless(t.handles, young, pay, end, a) <==> HarmlessAfter(t0.handles, young, pay0, end, moves, a)
  {
    hide HarmlessMoves;
    var b := a + HEADER;
    if NamedYoung(t.handles, young, b) {
      var h :| 0 <= h < |t.handles| && t.handles[h].live && t.handles[h].addr == b;
      assert t0.handles[h].live && t0.handles[h].addr == b;
    }
    if NamedYoung(t0.handles, young, b) && b !in fwd {
      var h :| 0 <= h < |t0.handles| && t0.handles[h].live && t0.handles[h].addr == b;
      assert t.handles[h].live && t.handles[h].addr == b;
    }
  }

  lemma NothingBehind(ys: Colors, pay: Payloads, base: Ptr, bump: Ptr, end: Ptr, p: Ptr)
    requires NurseryOk(ys, pay, base, bump, end) && bump <= p
    ensures p !in ys
  {
    hide YoungSpan;
  }

  /** What a new object at the bump pointer means for the others and for itself. */
  lemma HarmlessGrows(t: Table, ys: Colors, pay: Payloads, base: Ptr, bump: Ptr, end: Ptr, bytes: seq<Byte>)
    requires NurseryOk(ys, pay, base, bump, end) && bump !in ys
    requires Inv(t)
    ensures var ys', pay' := ys[bump := White], pay[bump := bytes];
            AllHarmless(New(t, bump).handles, ys'.Keys, pay', end) <==>
            && AllHarmless(t.handles, ys.Keys, pay, end)
            && (|bytes| > 0 || bump + 2 * HEADER <= end)
            && NoneEndsAt(t.handles, ys.Keys, bump)
  {
    hide Inv, New, Harmless;
    FreeInRange(t);
    var ys', pay' := ys[bump := White], pay[bump := bytes];
    var es, es' := t.handles, New(t, bump).handles;
    NothingBehind(ys, pay, base, bump, end, bump + HEADER);
    forall b: Ptr ensures Named(es', b) <==> Named(es, b) || b == bump { NewNamed(t, bump, b); }
    NewHarmless(es', ys'.Keys, pay', end, bump);
    forall a | a in ys ensures Harmless(es', ys'.Keys, pay', end, a) <==>
      Harmless(es, ys.Keys, pay, end, a) && a + HEADER != bump {
      OldHarmless(es, es', ys, pay, base, bump, end, bytes, a);
    }
    assert NamedYoung(es', ys'.Keys, bump);
    forall a: Ptr ensures NamedYoung(es', ys'.Keys, a) <==> NamedYoung(es, ys.Keys, a) || a == bump {}
  }

  lemma NewHarmless(es: seq<HandleEntry>, young: set<Ptr>, pay: Payloads, end: Ptr, bump: Ptr)
    requires bump in pay && bump + HEADER !in young
    ensures Harmless(es, young, pay, end, bump) <==> |pay[bump]| > 0 || bump + 2 * HEADER <= end
  {
  }

  lemma OldHarmless(es: seq<HandleEntry>, es': seq<HandleEntry>, ys: Colors, pay: Payloads, base: Ptr, bump: Ptr,
                    end: Ptr,
                    bytes: seq<Byte>, a: Ptr)
    requires NurseryOk(ys, pay, base, bump, end) && bump !in ys && a in ys
    requires forall b: Ptr :: Named(es', b) <==> Named(es, b) || b == bump
    ensures Harmless(es', ys[bump := White].Keys, pay[bump := bytes], end, a) <==>
            Harmless(es, ys.Keys, pay, end, a) && a + HEADER != bump
  {
    hide Named;
    assert InNursery(pay, base, bump, a);
    ForwardPointerFits(|pay[a]|);
  }

  lemma NewNamed(t: Table, raw: Ptr, b: Ptr)
    requires Inv(t)
    ensures Named(New(t, raw).handles, b) <==> Named(t.handles, b) || b == raw
  {
    var t' := New(t, raw);
    NewSlotIsFree(t);
    NewNames(t, raw);
    if Named(t.handles, b) {
      var h :| 0 <= h < |t.handles| && t.handles[h].live && t.handles[h].addr == b;
      assert t'.handles[h] == t.handles[h];
    }
    if Named(t'.handles, b) {
      var h :| 0 <= h < |t'.handles| && t'.handles[h].live && t'.handles[h].addr == b;
      assert h == NewSlot(t) || (h < |t.handles| && t'.handles[h] == t.handles[h]);
    }
    assert t'.handles[NewSlot(t)].live && t'.handles[NewSlot(t)].addr == raw;
  }

  /** Fewer handles in use harm no more. */
  lemma HarmlessRelease(t: Table, young: set<Ptr>, pay: Payloads, end: Ptr, ext: map<Handle, nat>, h: Handle)
    ensures AllHarmless(t.handles, young, pay, end) ==> AllHarmless(Release(t, ext, h).handles, young, pay, end)
  {
    var es, es' := t.handles, Release(t, ext, h).handles;
    forall b | Named(es', b) ensures Named(es, b) {
      var g :| 0 <= g < |es'| && es'[g].live && es'[g].addr == b;
      assert es[g] == es'[g];
    }
    if AllHarmless(es, young, pay, end) {
      forall a | NamedYoung(es', young, a) ensures Harmless(es', young, pay, end, a) {
        assert Harmless(es, young, pay, end, a);
      }
    }
  }

  lemma TabledGrows(table: map<Ptr, Ptr>, fwd: Forward, a: Ptr, raw: Ptr)
    requires Tabled(table, fwd)
    ensures Tabled(table[a + HEADER := raw + HEADER], fwd[a := raw])
  {
  }

  lemma ParallelLength(t: Table, wl: seq<Handle>, list: seq<Ptr>)
    requires Parallel(t, wl, list)
    ensures |wl| == |list|
  {
  }

  lemma MarkedNone()
    ensures Marked([]) == {}
  {
  }

  /** The next object of a distinct worklist is still where it was. */
  lemma NextUnmoved(t0: Table, ys: Colors, pay0: Payloads, hs0: Headers, t: Table, hs: Headers, pay: Payloads,
                    fwd: Forward, wl: seq<Handle>, list: seq<Ptr>, i: nat)
    requires Parallel(t0, wl, list) && Distinct(list) && i < |wl|
    requires Evacuated(t0, ys.Keys, pay0, hs0, t, hs, pay, fwd)
    requires fwd.Keys <= Marked(list[..i])
    ensures IsLiveHandle(t, wl[i]) && t.handles[wl[i]].addr == list[i]
    ensures Marked(list[..i + 1]) == Marked(list[..i]) + {list[i]} && list[i] !in Marked(list[..i])
  {
    assert list[..i + 1] == list[..i] + [list[i]];
    MarkedAppend(list[..i], list[i]);
  }

  lemma SameLiveness(t0: Table, young: set<Ptr>, pay0: Payloads, hs0: Headers, t: Table, hs: Headers, pay: Payloads,
                     fwd: Forward, h: Handle)
    requires Evacuated(t0, young, pay0, hs0, t, hs, pay, fwd)
    ensures IsLiveHandle(t, h) <==> IsLiveHandle(t0, h)
    ensures |t.handles| == |t0.handles|
  {
  }

  /** Where a live reference stands while objects move. */
  lemma RefInYoung(t0: Table, ys: Colors, pay0: Payloads, hs0: Headers, t: Table, hs: Headers, pay: Payloads,
                   fwd: Forward, ref: Handle, black: set<Ptr>)
    requires Evacuated(t0, ys.Keys, pay0, hs0, t, hs, pay, fwd) && IsLiveHandle(t, ref)
    requires LandsOutside(fwd, ys.Keys) && LiveColors(t0, ys, black + fwd.Keys)
    ensures IsLiveHandle(t0, ref)
    ensures AddrOf(t, ref) in ys ==> AddrOf(t0, ref) == AddrOf(t, ref)
    ensures AddrOf(t, ref) in ys && ys[AddrOf(t, ref)] == Black ==> AddrOf(t, ref) in black
    ensures AddrOf(t, ref) !in ys && AddrOf(t0, ref) in ys ==> AddrOf(t0, ref) in fwd
  {
    if AddrOf(t, ref) in ys {
      SourceOf(t0, t, fwd, ys.Keys, ref);
    }
  }

  lemma LiveColorsBlacken(t: Table, ys: Colors, black: set<Ptr>, b: Ptr)
    requires LiveColors(t, ys, black) && b in ys
    ensures LiveColors(t, ys[b := Black], black + {b})
  {
  }

  lemma HandleHasPayload(t: Table, ys: Colors, hs: Headers, pay: Payloads, h: Handle)
    requires Layout(t, ys, hs, pay) && Mapped(t, ys.Keys + LiveSlots(hs)) && IsLiveHandle(t, h)
    ensures AddrOf(t, h) in pay
  {
    assert AddrOf(t, h) in ys.Keys + LiveSlots(hs);
  }

  lemma OldHandleStays(t0: Table, ys: Colors, pay0: Payloads, hs0: Headers, t: Table, hs: Headers, pay: Payloads,
                       fwd: Forward, q: Handle)
    requires Evacuated(t0, ys.Keys, pay0, hs0, t, hs, pay, fwd) && Layout(t, ys, hs, pay) && IsLiveHandle(t, q)
    ensures AddrOf(t0, q) in LiveSlots(hs0) ==>
              AddrOf(t, q) == AddrOf(t0, q) && AddrOf(t0, q) in pay0 && AddrOf(t, q) in pay
                && pay[AddrOf(t, q)] == pay0[AddrOf(t0, q)]
  {
    if AddrOf(t0, q) in LiveSlots(hs0) {
      assert AddrOf(t0, q) in hs;
      assert AddrOf(t0, q) !in ys;
    }
  }

  /** The loop of update_stack_forwards over a run of words. */
  method ForwardWords(table: map<Ptr, Ptr>, words: seq<nat>) returns (r: seq<nat>)
    ensures |r| == |words|
    ensures forall i :: 0 <= i < |r| ==> r[i] == ForwardWord(table, words[i])
  {
    r := words;
    for i := 0 to |words|
      invariant |r| == |words|
      invariant forall j :: 0 <= j < |words| ==> r[j] == if j < i then ForwardWord(table, words[j]) else words[j]
    {
      var v := r[i];
      if v == 0 || v < 256 { continue; }
      if v in table {
        r := r[i := table[v]];
      }
    }
  }

  // ----- the remembered set -----

  /** The remembered handles that name live slots, as write_barrier asks for. */
  ghost predicate RememberedAreOld(t: Table, hs: Headers, remembered: set<Handle>) {
    forall q :: q in remembered && IsLiveHandle(t, q) ==> AddrOf(t, q) in LiveSlots(hs)
  }

  ghost predicate RememberedRefersTo(t: Table, pay: Payloads, hs: Headers, q: Handle, b: Ptr) {
    IsLiveHandle(t, q) && AddrOf(t, q) in LiveSlots(hs) && AddrOf(t, q) in pay && Refers(t, pay[AddrOf(t, q)], b)
  }

  /** The young objects named directly by a remembered old object. */
  ghost function RememberedRefs(t: Table, pay: Payloads, hs: Headers, remembered: set<Handle>,
                                young: set<Ptr>): set<Ptr> {
    set b | b in young && exists q :: q in remembered && RememberedRefersTo(t, pay, hs, q, b)
  }

  ghost predicate RememberedScanned(t: Table, pay: Payloads, hs: Headers, qs: set<Handle>, young: set<Ptr>,
                                    marked: set<Ptr>) {
    forall q, b :: q in qs && b in young && RememberedRefersTo(t, pay, hs, q, b) ==> b in marked
  }

  lemma RememberedOne(t: Table, pay: Payloads, hs: Headers, remembered: set<Handle>, q: Handle, young: set<Ptr>,
                      was: set<Ptr>, now: set<Ptr>)
    requires q in remembered
    requires IsLiveHandle(t, q) && AddrOf(t, q) in LiveSlots(hs) ==>
               AddrOf(t, q) in pay && forall b :: b in now && b !in was ==> Refers(t, pay[AddrOf(t, q)], b)
    requires !IsLiveHandle(t, q) ==> now == was
    requires now <= was + young
    ensures RememberedAreOld(t, hs, remembered) ==> now <= was + RememberedRefs(t, pay, hs, remembered, young)
  {
    if RememberedAreOld(t, hs, remembered) {
      forall b | b in now ensures b in was + RememberedRefs(t, pay, hs, remembered, young) {
        if b !in was {
          assert RememberedRefersTo(t, pay, hs, q, b);
        }
      }
    }
  }

  lemma NothingScanned(t: Table, pay: Payloads, hs: Headers, young: set<Ptr>, marked: set<Ptr>)
    ensures RememberedScanned(t, pay, hs, {}, young, marked)
  {
  }

  lemma RememberedHit(t: Table, pay: Payloads, hs: Headers, remembered: set<Handle>, q: Handle, young: set<Ptr>,
                      hit: Ptr)
    requires q in remembered && IsLiveHandle(t, q) && hit in young
    requires AddrOf(t, q) in LiveSlots(hs) ==> AddrOf(t, q) in pay && Refers(t, pay[AddrOf(t, q)], hit)
    ensures RememberedAreOld(t, hs, remembered) ==> hit in RememberedRefs(t, pay, hs, remembered, young)
  {
    if RememberedAreOld(t, hs, remembered) { assert RememberedRefersTo(t, pay, hs, q, hit); }
  }

  lemma RememberedMore(t: Table, pay: Payloads, hs: Headers, qs: set<Handle>, q: Handle, young: set<Ptr>,
                       marked: set<Ptr>, marked': set<Ptr>)
    requires RememberedScanned(t, pay, hs, qs, young, marked) && marked <= marked'
    requires IsLiveHandle(t, q) && AddrOf(t, q) in LiveSlots(hs) ==>
               AddrOf(t, q) in pay && ScannedTo(t, pay[AddrOf(t, q)], young, |pay[AddrOf(t, q)]| / 4, marked')
    ensures RememberedScanned(t, pay, hs, qs + {q}, young, marked')
  {
  }

  lemma RememberedAll(t: Table, pay: Payloads, hs: Headers, remembered: set<Handle>, young: set<Ptr>, marked: set<Ptr>)
    requires RememberedScanned(t, pay, hs, remembered, young, marked)
    ensures RememberedRefs(t, pay, hs, remembered, young) <= marked
  {
  }

  // ----- sweeping the nursery -----

  /** Live handles below n whose young object is white. */
  function WhiteHandles(t: Table, ys: Colors, n: nat): set<Handle> {
    set h | 0 <= h < n && IsLiveHandle(t, h) && AddrOf(t, h) in ys && ys[AddrOf(t, h)] == White
  }

  lemma WhiteHandlesStep(t: Table, ys: Colors, n: nat)
    ensures WhiteHandles(t, ys, n + 1) == WhiteHandles(t, ys, n) +
            (if IsLiveHandle(t, n) && AddrOf(t, n) in ys && ys[AddrOf(t, n)] == White then {n} else {})
  {
  }

  lemma LayoutKill(t: Table, ys: Colors, hs: Headers, pay: Payloads, h: Handle)
    requires Layout(t, ys, hs, pay) && Mapped(t, ys.Keys + LiveSlots(hs)) && IsLiveHandle(t, h)
    ensures Layout(Kill(t, h), ys, hs, pay) && Mapped(Kill(t, h), ys.Keys + LiveSlots(hs))
  {
    var t' := Kill(t, h);
    forall g | IsLiveHandle(t', g) ensures IsLiveHandle(t, g) && AddrOf(t', g) == AddrOf(t, g) {}
  }

  // ----- the outcome of a minor collection -----

  /** References between young objects. */
  ghost function YoungGraph(t: Table, pay: Payloads, young: set<Ptr>): Graph {
    RefGraph(t, map a | a in pay && a in young :: pay[a], young)
  }

  /** a is reachable from the roots through young objects. */
  ghost predicate YoungReach(t: Table, pay: Payloads, young: set<Ptr>, roots: seq<Handle>, a: Ptr) {
    Reach(YoungGraph(t, pay, young), RootAddrs(t, roots, young), a)
  }

  /** The order lists exactly the young objects that the roots reach, each once. */
  lemma OrderIsReach(t: Table, pay: Payloads, young: set<Ptr>, roots: seq<Handle>, a: Ptr)
    requires Inv(t)
    ensures var order := OrderOf(t, pay, young, roots);
            Distinct(order) && (a in order <==> YoungReach(t, pay, young, roots, a))
  {
    hide Inv, VisitAll, TraceFrom, RootAddrs, Tracing, YoungGraph;
    var g, first := YoungGraph(t, pay, young), VisitAll(t, young, [], roots);
    OrderWithin(t, pay, young, roots);
    VisitsRoots(t, young, roots);
    VisitAllGrows(t, young, [], roots);
    RootsTraced(g, first);
    TraceReaches(t, pay, young, Marked(first), first, 0);
    var order := OrderOf(t, pay, young, roots);
    TraceComplete(g, Marked(first), order, a);
    InMarked(order);
  }

  lemma {:induction false} VisitsRoots(t: Table, young: set<Ptr>, roots: seq<Handle>)
    ensures Marked(VisitAll(t, young, [], roots)) == RootAddrs(t, roots, young)
  {
    hide RootAddrs;
    if roots == [] {
      NoRoots(t, young);
    } else {
      var before, h := roots[..|roots| - 1], roots[|roots| - 1];
      VisitsRoots(t, young, before);
      RootAddrsStep(t, roots, young, |roots| - 1);
      assert roots[..|roots|] == roots;
      InMarked(VisitAll(t, young, [], before));
      MarkedAppend(VisitAll(t, young, [], before), AddrOf(t, h));
    }
  }

  lemma {:induction false} TraceReaches(t: Table, pay: Payloads, young: set<Ptr>, roots: set<Ptr>, list: seq<Ptr>,
                                        i: nat)
    requires Inv(t) && Tracing(YoungGraph(t, pay, young), roots, list, i) && forall a :: a in list ==> a in young
    ensures var all := TraceFrom(t, pay, young, list, i); Tracing(YoungGraph(t, pay, young), roots, all, |all|)
    decreases |Unseen(young, list)|, |list| - i
  {
    hide Inv, VisitAll, Tracing, YoungGraph, ScannedTo;
    var g := YoungGraph(t, pay, young);
    TracingBound(g, roots, list, i);
    if i < |list| {
      var more := Expand(t, pay, young, list, i);
      ExpandGrows(t, pay, young, list, i);
      FewerUnseen(young, list, more);
      if list[i] in pay {
        var words := Words(pay[list[i]]);
        VisitsNamed(t, pay, young, roots, list, i, |words|);
        assert words[..|words|] == words;
        NamedAreSucc(t, pay, young, list[i], Marked(more));
      } else {
        NotInGraph(t, pay, young, list[i]);
      }
      TraceAdvance(g, roots, more, i);
      TraceReaches(t, pay, young, roots, more, i + 1);
    }
  }

  lemma TracingBound(g: Graph, roots: set<Ptr>, list: seq<Ptr>, i: nat)
    requires Tracing(g, roots, list, i)
    ensures i <= |list|
  {
  }

  lemma NotInGraph(t: Table, pay: Payloads, young: set<Ptr>, a: Ptr)
    requires a !in pay
    ensures Succ(YoungGraph(t, pay, young), a) == {}
  {
  }

  lemma NamedAreSucc(t: Table, pay: Payloads, young: set<Ptr>, a: Ptr, marked: set<Ptr>)
    requires a in pay && ScannedTo(t, pay[a], young, |pay[a]| / 4, marked)
    ensures Succ(YoungGraph(t, pay, young), a) <= marked
  {
  }

  lemma {:induction false} VisitsNamed(t: Table, pay: Payloads, young: set<Ptr>, roots: set<Ptr>, list: seq<Ptr>,
                                       i: nat, k: nat)
    requires Inv(t) && Tracing(YoungGraph(t, pay, young), roots, list, i) && i < |list| && list[i] in pay
             && list[i] in young
    requires k <= |pay[list[i]]| / 4
    ensures var seen := VisitAll(t, young, list, Words(pay[list[i]])[..k]);
            && i < |seen| && seen[i] == list[i] && Tracing(YoungGraph(t, pay, young), roots, seen, i)
            && ScannedTo(t, pay[list[i]], young, k, Marked(seen))
  {
    hide Inv, Tracing, YoungGraph, VisitAll, WordAt;
    var g, p := YoungGraph(t, pay, young), pay[list[i]];
    if k == 0 {
      assert Words(p)[..0] == [];
      VisitNone(t, young, list);
    } else {
      VisitsNamed(t, pay, young, roots, list, i, k - 1);
      VisitNext(t, young, list, Words(p), k - 1);
      var before, h := VisitAll(t, young, list, Words(p)[..k - 1]), WordAt(p, k - 1);
      var seen := Visit(t, young, before, h);
      InMarked(before);
      NullNamesNothing(t);
      if seen != before {
        NamedIsSucc(t, pay, young, list[i], k - 1);
        TracePush(g, roots, before, i, AddrOf(t, h));
        MarkedAppend(before, AddrOf(t, h));
      }
      ScanStep(t, p, young, k - 1, Marked(before), Marked(seen));
    }
  }

  lemma VisitNone(t: Table, young: set<Ptr>, list: seq<Ptr>)
    ensures VisitAll(t, young, list, []) == list
  {
  }

  lemma NamedIsSucc(t: Table, pay: Payloads, young: set<Ptr>, a: Ptr, k: nat)
    requires Inv(t) && a in pay && a in young && k < |pay[a]| / 4
    requires IsLiveHandle(t, WordAt(pay[a], k)) && AddrOf(t, WordAt(pay[a], k)) in young
    ensures AddrOf(t, WordAt(pay[a], k)) in Succ(YoungGraph(t, pay, young), a)
  {
    hide WordAt;
    NullNamesNothing(t);
    assert RefersAt(t, pay[a], k, AddrOf(t, WordAt(pay[a], k)));
  }

  /** What becomes of every handle: it follows its object if that moved, dies if
      its young object was neither moved nor reached, and stays otherwise. */
  ghost predicate YoungFate(t: Table, young: set<Ptr>, pay: Payloads, roots: seq<Handle>, t': Table, fwd: Forward) {
    && |t'.handles| == |t.handles|
    && forall h :: 0 <= h < |t.handles| ==>
         var a := AddrOf(t, h);
         if !IsLiveHandle(t, h) then !IsLiveHandle(t', h)
         else if a in fwd then IsLiveHandle(t', h) && AddrOf(t', h) == fwd[a]
         else if a in young && !YoungReach(t, pay, young, roots, a) then !IsLiveHandle(t', h)
         else IsLiveHandle(t', h) && AddrOf(t', h) == a
  }

  /** Which young objects move: those reached, and those that a remembered old
      object names; no others, as long as only old handles are remembered. */
  ghost predicate Survivors(t: Table, young: set<Ptr>, pay: Payloads, hs: Headers, roots: seq<Handle>,
                            remembered: set<Handle>, fwd: Forward, lost: set<Ptr>)
  {
    && fwd.Keys + lost <= young
    && (forall a :: a in young && YoungReach(t, pay, young, roots, a) ==> a in fwd.Keys + lost)
    && RememberedRefs(t, pay, hs, remembered, young) <= fwd.Keys + lost
    && (RememberedAreOld(t, hs, remembered) ==>
          forall a :: a in fwd.Keys + lost ==>
            YoungReach(t, pay, young, roots, a) || a in RememberedRefs(t, pay, hs, remembered, young))
  }

  /** Old objects keep their place, size and bytes, and the only new slots are copies. */
  ghost predicate SlotsKept(hs0: Headers, pay0: Payloads, hs: Headers, pay: Payloads, fwd: Forward) {
    && (forall p :: p in LiveSlots(hs0) ==>
          && p in LiveSlots(hs) && hs[p].size == hs0[p].size
          && p in pay0 && p in pay && pay[p] == pay0[p])
    && (forall p :: p in LiveSlots(hs) ==> p in LiveSlots(hs0) || p in fwd.Values)
  }

  function ForwardedWord(fwd: Forward, v: nat): nat {
    if v >= 256 && v - HEADER in fwd then fwd[v - HEADER] + HEADER else v
  }

  lemma ForwardedBy(table: map<Ptr, Ptr>, fwd: Forward)
    requires Tabled(table, fwd)
    ensures forall v: nat {:trigger ForwardedWord(fwd, v)} :: ForwardWord(table, v) == ForwardedWord(fwd, v)
  {
  }

  /** A word that held the payload address of a handle that survives holds that handle's
      payload address after the collection; left alone it would, if the object stayed. */
  lemma WordFollowsHandle(t: Table, young: set<Ptr>, pay: Payloads, roots: seq<Handle>, t': Table, fwd: Forward,
                          h: Handle,
                          lo: Ptr, hi: Ptr)
    requires YoungFate(t, young, pay, roots, t', fwd) && IsLiveHandle(t, h) && IsLiveHandle(t', h)
    requires LeavesNursery(lo, hi, fwd)
    ensures ForwardedWord(fwd, Deref(t, h)) == Deref(t', h)
    ensures Deref(t', h) == Deref(t, h) <==> AddrOf(t, h) !in fwd
  {
    hide YoungReach;
    assert AddrOf(t, h) in fwd ==> AddrOf(t', h) == fwd[AddrOf(t, h)];
  }

  ghost predicate BlackWhereListed(ys: Colors, list: seq<Ptr>) {
    forall i :: 0 <= i < |list| && list[i] in ys ==> ys[list[i]] == Black
  }

  lemma BlackListed(ys: Colors, list: seq<Ptr>)
    requires BlackWhereListed(ys, list)
    ensures forall i :: 0 <= i < |list| && list[i] in ys ==> ys[list[i]] == Black
  {
  }

  /** Only live colours changed. */
  ghost predicate RepaintedLive(hs0: Headers, hs: Headers) {
    && hs.Keys == hs0.Keys
    && forall p :: p in hs0 ==> hs[p].size == hs0[p].size && (hs[p].color == Dead <==> hs0[p].color == Dead)
  }

  lemma TracedIsYoungGraph(t: Table, pay: Payloads, hs: Headers, ys: Colors)
    requires LiveColors(t, ys, {})
    ensures Traced(true, t, pay, hs, ys) == YoungGraph(t, pay, ys.Keys)
  {
    forall a, b | a in pay && a in ys && b in ys && Refers(t, pay[a], b) ensures b in WhiteYoung(ys) {
      var k :| 0 <= k < |pay[a]| / 4 && RefersAt(t, pay[a], k, b);
      assert IsLiveHandle(t, WordAt(pay[a], k)) && AddrOf(t, WordAt(pay[a], k)) == b;
    }
    var inside := map a | a in pay && a in ys.Keys :: pay[a];
    assert InYoung(pay, ys) == inside;
    forall a | a in inside
      ensures RefGraph(t, inside, WhiteYoung(ys))[a] == RefGraph(t, inside, ys.Keys)[a]
    {
    }
    assert RefGraph(t, inside, WhiteYoung(ys)) == RefGraph(t, inside, ys.Keys);
  }

  lemma YoungRootsAre(t: Table, hs: Headers, ys: Colors, scanned: seq<Handle>, pinned: seq<Handle>)
    requires LiveColors(t, ys, {}) && hs.Keys !! ys.Keys
    ensures (RootAddrs(t, scanned, WhiteSlots(hs) + WhiteYoung(ys)) + RootAddrs(t, pinned, WhiteYoung(ys))) * ys.Keys
            == RootAddrs(t, scanned + pinned, ys.Keys)
  {
    var both := scanned + pinned;
    forall a | a in RootAddrs(t, both, ys.Keys)
      ensures a in RootAddrs(t, scanned, WhiteSlots(hs) + WhiteYoung(ys)) + RootAddrs(t, pinned, WhiteYoung(ys))
    {
      var i :| 0 <= i < |both| && IsLiveHandle(t, both[i]) && AddrOf(t, both[i]) in ys.Keys && AddrOf(t, both[i]) == a;
      if i < |scanned| { assert scanned[i] == both[i]; } else { assert pinned[i - |scanned|] == both[i]; }
    }
    forall a | a in RootAddrs(t, scanned, WhiteSlots(hs) + WhiteYoung(ys)) && a in ys
      ensures a in RootAddrs(t, both, ys.Keys)
    {
      var i :| 0 <= i < |scanned| && IsLiveHandle(t, scanned[i])
        && AddrOf(t, scanned[i]) in WhiteSlots(hs) + WhiteYoung(ys)
               && AddrOf(t, scanned[i]) == a;
      assert both[i] == scanned[i];
    }
    forall a | a in RootAddrs(t, pinned, WhiteYoung(ys)) ensures a in RootAddrs(t, both, ys.Keys) {
      var i :| 0 <= i < |pinned| && IsLiveHandle(t, pinned[i]) && AddrOf(t, pinned[i]) in WhiteYoung(ys)
               && AddrOf(t, pinned[i]) == a;
      assert both[|scanned| + i] == pinned[i];
    }
  }

  /** Roots outside the graph lead nowhere inside it. */
  lemma ReachFromInside(g: Graph, roots: set<Ptr>, inside: set<Ptr>, a: Ptr)
    requires a in inside && g.Keys <= inside
    ensures Reach(g, roots, a) <==> Reach(g, roots * inside, a)
  {
    if Reach(g, roots, a) {
      var path :| IsPath(g, roots, path) && path[|path| - 1] == a;
      if |path| > 1 { assert path[0 + 1] in Succ(g, path[0]); }
      assert IsPath(g, roots * inside, path);
    }
    if Reach(g, roots * inside, a) {
      var path :| IsPath(g, roots * inside, path) && path[|path| - 1] == a;
      assert IsPath(g, roots, path);
    }
  }

  /** A finished nursery trace, restated without colours. */
  lemma MarkedYoung(t: Table, wl: seq<Handle>, list: seq<Ptr>, hs0: Headers, hs: Headers, ys0: Colors, ys: Colors,
                    pay: Payloads, scanned: seq<Handle>, pinned: seq<Handle>, start: set<Ptr>)
    requires LiveColors(t, ys0, {}) && hs0.Keys !! ys0.Keys
    requires Marking(t, wl, list, hs0, hs, ys0, ys)
    requires start == RootAddrs(t, scanned, WhiteSlots(hs0) + WhiteYoung(ys0)) + RootAddrs(t, pinned, WhiteYoung(ys0))
    requires Tracing(Traced(true, t, pay, hs0, ys0), start, list, |list|)
    requires Layout(t, ys, hs, pay) && Mapped(t, ys0.Keys + LiveSlots(hs0))
    ensures ys.Keys == ys0.Keys && Parallel(t, wl, list) && Distinct(list)
    ensures LiveColors(t, ys, Marked(list) * ys.Keys) && BlackWhereListed(ys, list) && RepaintedLive(hs0, hs)
    ensures forall a :: a in ys ==> (a in Marked(list) <==> YoungReach(t, pay, ys.Keys, scanned + pinned, a))
    ensures Mapped(t, ys.Keys + LiveSlots(hs))
  {
    hide Tracing, Traced, RootAddrs, Layout, YoungGraph;
    TracedIsYoungGraph(t, pay, hs0, ys0);
    YoungRootsAre(t, hs0, ys0, scanned, pinned);
    var g := YoungGraph(t, pay, ys0.Keys);
    YoungGraphKeys(t, pay, ys0.Keys);
    forall a | a in ys ensures a in Marked(list) <==> YoungReach(t, pay, ys.Keys, scanned + pinned, a) {
      TraceComplete(g, start, list, a);
      ReachFromInside(g, start, ys0.Keys, a);
    }
    MarkingOutcome(t, wl, list, hs0, hs, ys0, ys);
    assert LiveSlots(hs) == LiveSlots(hs0);
  }

  lemma YoungGraphKeys(t: Table, pay: Payloads, young: set<Ptr>)
    ensures YoungGraph(t, pay, young).Keys <= young
  {
  }

  lemma MarkingOutcome(t: Table, wl: seq<Handle>, list: seq<Ptr>, hs0: Headers, hs: Headers, ys0: Colors, ys: Colors)
    requires LiveColors(t, ys0, {}) && Marking(t, wl, list, hs0, hs, ys0, ys)
    ensures ys.Keys == ys0.Keys && Parallel(t, wl, list) && Distinct(list)
    ensures LiveColors(t, ys, Marked(list) * ys.Keys) && BlackWhereListed(ys, list) && RepaintedLive(hs0, hs)
  {
    forall i | 0 <= i < |list| ensures list[i] in Marked(list) {}
  }

  lemma FlightBegins(t: Table, ys: Colors, pay: Payloads, hs: Headers, table: map<Ptr, Ptr>)
    requires Layout(t, ys, hs, pay) && table == map[]
    ensures Evacuated(t, ys.Keys, pay, hs, t, hs, pay, map[]) && Tabled(table, map[])
  {
    EvacuationBegins(t, ys.Keys, pay, hs);
  }

  lemma EvacuatedParts(t0: Table, young: set<Ptr>, pay0: Payloads, hs0: Headers, t: Table, hs: Headers, pay: Payloads,
                       fwd: Forward)
    requires Evacuated(t0, young, pay0, hs0, t, hs, pay, fwd)
    ensures HandlesFollow(t0, t, fwd) && CopiesOk(pay0, hs, pay, fwd) && OthersKept(pay0, hs0, hs, pay, fwd)
    ensures fwd.Keys <= young
  {
  }

  lemma FateDecided(t: Table, ys: Colors, pay: Payloads, t1: Table, t2: Table, fwd: Forward, list: seq<Ptr>,
                    roots: seq<Handle>, black: set<Ptr>)
    requires HandlesFollow(t, t1, fwd) && LandsOutside(fwd, ys.Keys) && fwd.Keys <= ys.Keys
    requires KilledExactly(t1, t2, WhiteHandles(t1, ys, |t1.handles|))
    requires black == Marked(list) * ys.Keys && LiveColors(t, ys, black + fwd.Keys)
    requires forall a :: a in ys ==> (a in Marked(list) <==> YoungReach(t, pay, ys.Keys, roots, a))
    ensures YoungFate(t, ys.Keys, pay, roots, t2, fwd)
  {
    hide YoungReach, Marked;
    forall h | 0 <= h < |t.handles|
      ensures var a := AddrOf(t, h);
              if !IsLiveHandle(t, h) then !IsLiveHandle(t2, h)
              else if a in fwd then IsLiveHandle(t2, h) && AddrOf(t2, h) == fwd[a]
              else if a in ys.Keys && !YoungReach(t, pay, ys.Keys, roots, a) then !IsLiveHandle(t2, h)
              else IsLiveHandle(t2, h) && AddrOf(t2, h) == a
    {
      var a := AddrOf(t, h);
      if IsLiveHandle(t, h) {
        assert AddrOf(t1, h) == Relocated(fwd, a);
        assert h in WhiteHandles(t1, ys, |t1.handles|) <==> AddrOf(t1, h) in ys && ys[AddrOf(t1, h)] == White;
      }
    }
  }

  lemma SurvivorsDecided(t: Table, young: set<Ptr>, pay: Payloads, hsIn: Headers, hs0: Headers, roots: seq<Handle>,
                         remembered: set<Handle>, list: seq<Ptr>, fwd: Forward, lost: set<Ptr>, black: set<Ptr>)
    requires RepaintedLive(hsIn, hs0) && black == Marked(list) * young && fwd.Keys + lost <= young
    requires black <= fwd.Keys + lost
    requires forall a :: a in young ==> (a in Marked(list) <==> YoungReach(t, pay, young, roots, a))
    requires RememberedRefs(t, pay, hs0, remembered, young) <= black + fwd.Keys + lost
    requires RememberedAreOld(t, hs0, remembered) ==>
               fwd.Keys + lost <= black + RememberedRefs(t, pay, hs0, remembered, young)
    ensures Survivors(t, young, pay, hsIn, roots, remembered, fwd, lost)
  {
    hide YoungReach, Marked;
    SameRemembered(t, pay, hsIn, hs0, remembered, young);
  }

  lemma SlotsKeptFrom(hsIn: Headers, hs0: Headers, pay0: Payloads, hs: Headers, pay: Payloads, fwd: Forward)
    requires RepaintedLive(hsIn, hs0) && OthersKept(pay0, hs0, hs, pay, fwd)
    ensures SlotsKept(hsIn, pay0, hs, pay, fwd)
  {
  }

  /** Without lost objects no handle is left pointing into the nursery. */
  lemma CleanAfter(t: Table, young: set<Ptr>, hsIn: Headers, pay: Payloads, t2: Table, hs: Headers, payEnd: Payloads,
                   fwd: Forward, lost: set<Ptr>, roots: seq<Handle>, remembered: set<Handle>, ysEnd: Colors,
                   none: Colors)
    requires YoungFate(t, young, pay, roots, t2, fwd) && Mapped(t, young + LiveSlots(hsIn))
    requires Survivors(t, young, pay, hsIn, roots, remembered, fwd, lost)
    requires SlotsKept(hsIn, pay, hs, payEnd, fwd) && CopiesOk(pay, hs, payEnd, fwd)
    requires Layout(t2, ysEnd, hs, payEnd) && none == map[]
    ensures lost == {} ==> Layout(t2, none, hs, payEnd) && Mapped(t2, none.Keys + LiveSlots(hs))
  {
    hide YoungReach, RememberedRefs;
    if lost == {} {
      forall h | IsLiveHandle(t2, h) ensures AddrOf(t2, h) in LiveSlots(hs) {
        assert IsLiveHandle(t, h) && AddrOf(t, h) in young + LiveSlots(hsIn);
      }
    }
  }

  lemma NurseryEmpty(ys: Colors, pay: Payloads, base: Ptr, bump: Ptr, end: Ptr)
    requires NurseryOk(ys, pay, base, bump, end)
    ensures NurseryOk(map[], pay, base, base, end)
  {
  }

  // ----- allocation and release: lemmas -----

  /** The forwarding pointer that do_evacuate writes into the payload it leaves
      behind stays inside that object's slot exactly when the payload is not empty. */
  lemma ForwardPointerFits(size: nat)
    ensures HEADER + 8 <= RoundUp8(HEADER + size) <==> size > 0
  {
  }

  lemma NurseryRange(ys: Colors, pay: Payloads, base: Ptr, bump: Ptr, end: Ptr)
    requires NurseryOk(ys, pay, base, bump, end)
    ensures 256 <= base <= bump <= end
  {
  }

  lemma NurseryGrows(ys: Colors, pay: Payloads, base: Ptr, bump: Ptr, end: Ptr, bytes: seq<Byte>, bump': Ptr)
    requires NurseryOk(ys, pay, base, bump, end) && bump' == bump + YoungSpan(bytes) <= end
    ensures bump !in ys && NurseryOk(ys[bump := White], pay[bump := bytes], base, bump', end)
  {
    hide YoungSpan, InNursery;
    EightsAdd(bump - base, YoungSpan(bytes));
    NothingBehind(ys, pay, base, bump, end, bump);
    var ys', pay' := ys[bump := White], pay[bump := bytes];
    forall p | p in ys'
      ensures p in pay' && InNursery(pay', base, bump', p) && (p in ys ==> p + YoungSpan(pay'[p]) <= bump)
    {
      if p in ys { NurseryMore(pay, base, bump, bump', p, bump, bytes); } else { AtBump(pay', base, bump, bump'); }
    }
  }

  lemma EightsAdd(a: nat, b: nat)
    requires a % 8 == 0 && b % 8 == 0
    ensures (a + b) % 8 == 0
  {
  }

  lemma AtBump(pay: Payloads, base: Ptr, bump: Ptr, bump': Ptr)
    requires bump in pay && base <= bump && (bump - base) % 8 == 0 && bump' == bump + YoungSpan(pay[bump])
    ensures InNursery(pay, base, bump', bump)
  {
  }

  lemma NurseryMore(pay: Payloads, base: Ptr, bump: Ptr, bump': Ptr, p: Ptr, q: Ptr, bytes: seq<Byte>)
    requires InNursery(pay, base, bump, p) && bump <= bump' && p != q
    ensures InNursery(pay[q := bytes], base, bump', p) && p in pay && p + YoungSpan(pay[p]) <= bump
  {
  }

  /** A payload of the same size changes nothing for the nursery. */
  lemma NurseryRewrite(ys: Colors, pay: Payloads, base: Ptr, bump: Ptr, end: Ptr, a: Ptr, bytes: seq<Byte>)
    requires NurseryOk(ys, pay, base, bump, end) && a in pay && |bytes| == |pay[a]|
    ensures NurseryOk(ys, pay[a := bytes], base, bump, end)
  {
    hide YoungSpan;
    SpanBySize(bytes, pay[a]);
    assert forall p :: p in ys ==> InNursery(pay, base, bump, p);
  }

  lemma SpanBySize(p: seq<Byte>, q: seq<Byte>)
    requires |p| == |q|
    ensures YoungSpan(p) == YoungSpan(q)
  {
  }

  lemma LayoutNewYoung(t: Table, ys: Colors, hs: Headers, pay: Payloads, raw: Ptr, bytes: seq<Byte>)
    requires raw > 0 && raw !in ys && raw !in hs
    requires Inv(t) && Layout(t, ys, hs, pay)
    ensures Unused(t, raw)
    ensures Layout(New(t, raw), ys[raw := White], hs, pay[raw := bytes])
    ensures Mapped(New(t, raw), ys[raw := White].Keys + LiveSlots(hs)) <==> Mapped(t, ys.Keys + LiveSlots(hs))
  {
    hide EntriesOk, PtrsOk;
    NotThere(t, ys.Keys + hs.Keys, raw);
    NewMapped(t, raw, ys.Keys + LiveSlots(hs));
    NewMapped(t, raw, ys.Keys + hs.Keys);
    assert ys.Keys + LiveSlots(hs) + {raw} == ys[raw := White].Keys + LiveSlots(hs);
    assert ys.Keys + hs.Keys + {raw} == ys[raw := White].Keys + hs.Keys;
  }

  lemma LayoutNewOld(t: Table, ys: Colors, hs: Headers, pay: Payloads, raw: Ptr, hdr: Header, bytes: seq<Byte>)
    requires raw > 0 && raw !in ys && (raw in hs ==> hs[raw].color == Dead) && hdr.color != Dead && |bytes| == hdr.size
    requires Inv(t) && Layout(t, ys, hs, pay)
    ensures Layout(New(t, raw), ys, hs[raw := hdr], pay[raw := bytes])
    ensures Mapped(t, ys.Keys + LiveSlots(hs)) ==>
              Unused(t, raw) && Mapped(New(t, raw), ys.Keys + LiveSlots(hs[raw := hdr]))
  {
    hide EntriesOk, PtrsOk;
    NewMapped(t, raw, ys.Keys + hs.Keys);
    NewMapped(t, raw, ys.Keys + LiveSlots(hs));
    assert ys.Keys + hs.Keys + {raw} == ys.Keys + hs[raw := hdr].Keys;
    assert ys.Keys + LiveSlots(hs) + {raw} == ys.Keys + LiveSlots(hs[raw := hdr]);
    if Mapped(t, ys.Keys + LiveSlots(hs)) { NotThere(t, ys.Keys + LiveSlots(hs), raw); }
  }

  lemma NotThere(t: Table, places: set<Ptr>, raw: Ptr)
    requires raw > 0 && raw !in places && Mapped(t, places)
    ensures Unused(t, raw)
  {
    forall g | 0 <= g < |t.handles| && t.handles[g].live ensures t.handles[g].addr != raw {
      assert AddrOf(t, g) in places;
    }
  }

  lemma NewMapped(t: Table, raw: Ptr, places: set<Ptr>)
    requires Inv(t)
    ensures Mapped(t, places) ==> Mapped(New(t, raw), places + {raw})
    ensures raw !in places && Unused(t, raw) && Mapped(New(t, raw), places + {raw}) ==> Mapped(t, places)
  {
    var t' := New(t, raw);
    forall g | IsLiveHandle(t', g) && g != NewSlot(t) ensures IsLiveHandle(t, g) && AddrOf(t', g) == AddrOf(t, g) {}
    forall g | IsLiveHandle(t, g) ensures g != NewSlot(t) && IsLiveHandle(t', g) && AddrOf(t', g) == AddrOf(t, g) {
      NewSlotIsFree(t);
    }
  }

  lemma NewNames(t: Table, raw: Ptr)
    requires Inv(t)
    ensures IsLiveHandle(New(t, raw), NewSlot(t)) && AddrOf(New(t, raw), NewSlot(t)) == raw
    ensures |t.handles| <= |New(t, raw).handles| <= |t.handles| + 2
  {
  }

  lemma NewSlotIsFree(t: Table)
    requires Inv(t)
    ensures !IsLiveHandle(t, NewSlot(t))
  {
  }

  lemma NewSlotInRange(t: Table)
    requires Inv(t) && |t.handles| < SHARED_HANDLE_BIT
    ensures NewSlot(t) != NULL_HANDLE
  {
  }

  lemma LayoutRelease(t: Table, ys: Colors, hs: Headers, pay: Payloads, ext: map<Handle, nat>, h: Handle)
    requires Layout(t, ys, hs, pay) && Mapped(t, ys.Keys + LiveSlots(hs))
    ensures Layout(Release(t, ext, h), ys, hs, pay) && Mapped(Release(t, ext, h), ys.Keys + LiveSlots(hs))
  {
    var t' := Release(t, ext, h);
    forall g | IsLiveHandle(t', g) ensures IsLiveHandle(t, g) && AddrOf(t', g) == AddrOf(t, g) {}
  }
}
