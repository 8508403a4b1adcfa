/**
 Runs of the virtual memory against one flat memory, and what a map over the cached
 page does to them.
 */
module MemoryRuns {
  import opened Basics
  import opened Tlb
  import opened VirtualMemory

  type Data = s: Bytes | |s| < 0x1_0000_0000_0000_0000 witness []

  datatype Op =
    | MapPages(v: Address, size: Address)
    | Read64(v: Address)
    | Write64(v: Address, x: Address)
    | ReadBlock(v: Address, size: Address)
    | WriteBlock(v: Address, data: Data)

  datatype Answer = None | Word(x: nat) | Block(bytes: Bytes)

  // ----- the flat memory -----

  /** A byte for every address. */
  type FlatMemory = Address -> Byte

  function FlatBytes(m: FlatMemory, v: Address, n: nat): Bytes {
    seq<Byte>(n, k requires 0 <= k => m(Plus(v, k)))
  }

  function FlatStore(m: FlatMemory, v: Address, data: Bytes): FlatMemory {
    (a: Address) => if Distance(v, a) < |data| then data[Distance(v, a)] else m(a)
  }

  /** The pages of a range become zero. */
  function FlatMap(m: FlatMemory, v: Address, size: Address): FlatMemory {
    (a: Address) => if Touches(v, size, a) then 0 else m(a)
  }

  function FlatStep(m: FlatMemory, op: Op): FlatMemory {
    match op
    case MapPages(v, size) => FlatMap(m, v, size)
    case Write64(v, x) => FlatStore(m, v, ToBytes(x, 8))
    case WriteBlock(v, data) => FlatStore(m, v, data)
    case _ => m
  }

  function FlatAnswer(m: FlatMemory, op: Op): Answer {
    match op
    case Read64(v) => Word(FromBytes(FlatBytes(m, v, 8)))
    case ReadBlock(v, size) => Block(FlatBytes(m, v, size))
    case _ => Answer.None
  }

  function FlatAnswers(m: FlatMemory, ops: seq<Op>): seq<Answer> {
    if ops == [] then [] else [FlatAnswer(m, ops[0])] + FlatAnswers(FlatStep(m, ops[0]), ops[1..])
  }

  // ----- one operation -----

  /** The page left in the cache: that of the last byte accessed. */
  function CachedAfter(op: Op, cached: nat): nat {
    match op
    case MapPages(_, _) => cached
    case Read64(v) => PageBase(Plus(v, 7))
    case Write64(v, _) => PageBase(Plus(v, 7))
    case ReadBlock(v, size) => if size == 0 then cached else PageBase(Plus(v, size - 1))
    case WriteBlock(v, data) => if |data| == 0 then cached else PageBase(Plus(v, |data| - 1))
  }

  /** A map whose rounded end leaves 64 bits, or whose pages include the cached one. */
  predicate Disturbs(op: Op, cached: nat) {
    && op.MapPages?
    && (op.v + op.size + 0xFFF >= 0x1_0000_0000_0000_0000 || Touches(op.v, op.size, cached))
  }

  predicate Undisturbed(ops: seq<Op>, cached: nat) {
    ops == [] || (!Disturbs(ops[0], cached) && Undisturbed(ops[1..], CachedAfter(ops[0], cached)))
  }

  ghost predicate NoRefusals(root: seq<Node>) { forall a :: !Refused(Lookup(root, a)) }

  ghost predicate Agrees(m: FlatMemory, root: seq<Node>, arenas: seq<Bytes>) {
    forall a: Address :: m(a) == ByteAt(root, arenas, a)
  }

  lemma SameAgrees(m: FlatMemory, root0: seq<Node>, arenas0: seq<Bytes>, root: seq<Node>, arenas: seq<Bytes>)
    requires Agrees(m, root0, arenas0) && SameMemory(root0, arenas0, root, arenas)
    ensures Agrees(m, root, arenas)
  {
    hide ByteAt;
  }

  lemma StoredAgrees(m: FlatMemory, root0: seq<Node>, arenas0: seq<Bytes>, root: seq<Node>, arenas: seq<Bytes>,
                     v: Address, data: Bytes)
    requires Agrees(m, root0, arenas0) && Stored(root0, arenas0, root, arenas, v, data)
    ensures Agrees(FlatStore(m, v, data), root, arenas)
  {
    hide ByteAt, Distance;
  }

  lemma MapAgrees(m: FlatMemory, root0: seq<Node>, arenas0: seq<Bytes>, root: seq<Node>, arenas: seq<Bytes>,
                  v: Address, size: Address)
    requires v + size + 0xFFF < 0x1_0000_0000_0000_0000
    requires Agrees(m, root0, arenas0) && PagesZeroed(root0, arenas0, root, arenas, v, size)
    ensures Agrees(FlatMap(m, v, size), root, arenas)
  {
    hide ByteAt, Touches;
  }

  lemma ReadIsFlat(m: FlatMemory, root: seq<Node>, arenas: seq<Bytes>, v: Address, s: Bytes)
    requires Agrees(m, root, arenas) && ReadFrom(root, arenas, v, s)
    ensures s == FlatBytes(m, v, |s|)
  {
    hide ByteAt, Plus;
  }

  lemma NothingRefused(root: seq<Node>, v: Address, n: nat)
    requires NoRefusals(root)
    ensures !RefusedFrom(root, v, n)
  {
    hide Lookup, Plus;
  }

  lemma StillNoRefusals(root0: seq<Node>, root: seq<Node>)
    requires NoRefusals(root0) && SameRefusals(root0, root)
    ensures NoRefusals(root)
  {
    hide Lookup;
  }

  lemma MapRefusesNothing(root0: seq<Node>, root: seq<Node>, start: nat, end: nat)
    requires NoRefusals(root0) && RefusalsLifted(root0, root, start, end)
    ensures NoRefusals(root)
  {
    hide Lookup;
  }

  /** The state in which the memory can be used: the answers of m are due. */
  ghost predicate Serves(mem: Memory, m: FlatMemory)
    reads mem, mem.tlb
  {
    mem.Valid() && mem.Coherent() && NoRefusals(mem.tlb.root) && Agrees(m, mem.tlb.root, mem.arenas)
  }

  method PerformRead64(mem: Memory, ghost m: FlatMemory, v: Address) returns (x: nat)
    requires Serves(mem, m)
    modifies mem, mem.tlb
    ensures Serves(mem, m)
    ensures x == FromBytes(FlatBytes(m, v, 8)) && mem.cachedPage == PageBase(Plus(v, 7))
  {
    hide *;
    Opened(mem, m);
    ghost var root0, arenas0 := mem.tlb.root, mem.arenas;
    NothingRefused(root0, v, 8);
    mem.CoherentHeld();
    var ok;
    ok, x := mem.ReadU64Fast(v);
    ReadIsFlat(m, root0, arenas0, v, BytesAt(root0, arenas0, v, 8));
    SameAgrees(m, root0, arenas0, mem.tlb.root, mem.arenas);
    StillNoRefusals(root0, mem.tlb.root);
    Opened(mem, m);
  }

  method PerformReadBlock(mem: Memory, ghost m: FlatMemory, v: Address, size: Address) returns (s: Bytes)
    requires Serves(mem, m)
    modifies mem, mem.tlb
    ensures Serves(mem, m)
    ensures s == FlatBytes(m, v, size)
    ensures mem.cachedPage == if size == 0 then old(mem.cachedPage) else PageBase(Plus(v, size - 1))
  {
    hide *;
    Opened(mem, m);
    ghost var root0, arenas0 := mem.tlb.root, mem.arenas;
    NothingRefused(root0, v, size);
    var ok;
    mem.CoherentHeld();
    ok, s := mem.ReadBytes(v, size);
    ReadIsFlat(m, root0, arenas0, v, s);
    SameAgrees(m, root0, arenas0, mem.tlb.root, mem.arenas);
    StillNoRefusals(root0, mem.tlb.root);
    Opened(mem, m);
  }

  method PerformWrite(mem: Memory, ghost m: FlatMemory, v: Address, data: Data)
    requires Serves(mem, m)
    modifies mem, mem.tlb
    ensures Serves(mem, FlatStore(m, v, data))
    ensures mem.cachedPage == if |data| == 0 then old(mem.cachedPage) else PageBase(Plus(v, |data| - 1))
  {
    hide *;
    Opened(mem, m);
    ghost var root0, arenas0 := mem.tlb.root, mem.arenas;
    NothingRefused(root0, v, |data|);
    mem.CoherentHeld();
    var ok := mem.WriteBytes(v, data);
    StoredAgrees(m, root0, arenas0, mem.tlb.root, mem.arenas, v, data);
    StillNoRefusals(root0, mem.tlb.root);
    Opened(mem, FlatStore(m, v, data));
  }

  method PerformWrite64(mem: Memory, ghost m: FlatMemory, v: Address, x: Address)
    requires Serves(mem, m)
    modifies mem, mem.tlb
    ensures Serves(mem, FlatStore(m, v, ToBytes(x, 8)))
    ensures mem.cachedPage == PageBase(Plus(v, 7))
  {
    hide *;
    Opened(mem, m);
    ghost var root0, arenas0 := mem.tlb.root, mem.arenas;
    NothingRefused(root0, v, 8);
    mem.CoherentHeld();
    var ok := mem.WriteU64Fast(v, x);
    StoredAgrees(m, root0, arenas0, mem.tlb.root, mem.arenas, v, ToBytes(x, 8));
    StillNoRefusals(root0, mem.tlb.root);
    Opened(mem, FlatStore(m, v, ToBytes(x, 8)));
  }

  method PerformMap(mem: Memory, ghost m: FlatMemory, v: Address, size: Address)
    requires v + size + 0xFFF < 0x1_0000_0000_0000_0000
    requires !Touches(v, size, mem.cachedPage) && Serves(mem, m)
    modifies mem, mem.tlb
    ensures Serves(mem, FlatMap(m, v, size))
    ensures mem.cachedPage == old(mem.cachedPage)
  {
    hide *;
    Opened(mem, m);
    MapRange(v, size, mem.cachedPage);
    ghost var root0, arenas0 := mem.tlb.root, mem.arenas;
    mem.Map(v, size);
    MapAgrees(m, root0, arenas0, mem.tlb.root, mem.arenas, v, size);
    MapRefusesNothing(root0, mem.tlb.root, MapStart(v), MapEnd(v, size));
    Opened(mem, FlatMap(m, v, size));
  }

  lemma Opened(mem: Memory, m: FlatMemory)
    ensures Serves(mem, m) <==>
            mem.Valid() && mem.Coherent() && NoRefusals(mem.tlb.root) && Agrees(m, mem.tlb.root, mem.arenas)
  {
  }

  method Perform(mem: Memory, ghost m: FlatMemory, op: Op) returns (answer: Answer)
    requires !Disturbs(op, mem.cachedPage) && Serves(mem, m)
    modifies mem, mem.tlb
    ensures Serves(mem, FlatStep(m, op))
    ensures answer == FlatAnswer(m, op)
    ensures mem.cachedPage == CachedAfter(op, old(mem.cachedPage))
  {
    hide Serves, Plus, PageBase, FlatMap, FlatStore, FlatBytes, Touches, FromBytes, ToBytes;
    answer := Answer.None;
    match op {
      case MapPages(v, size) => PerformMap(mem, m, v, size);
      case Read64(v) =>
        var x := PerformRead64(mem, m, v);
        answer := Word(x);
      case ReadBlock(v, size) =>
        var s := PerformReadBlock(mem, m, v, size);
        answer := Block(s);
      case Write64(v, x) => PerformWrite64(mem, m, v, x);
      case WriteBlock(v, data) => PerformWrite(mem, m, v, data);
    }
  }

  // ----- whole runs -----

  /** In a run where no map covers the page accessed last or runs into the end of the
      address space, page cache and tree answer as one flat memory. */
  method Execute(mem: Memory, ghost m0: FlatMemory, ops: seq<Op>) returns (answers: seq<Answer>)
    requires Serves(mem, m0) && Undisturbed(ops, mem.cachedPage)
    modifies mem, mem.tlb
    ensures mem.Valid() && mem.Coherent()
    ensures answers == FlatAnswers(m0, ops)
  {
    hide Serves, FlatAnswer, FlatStep, CachedAfter, Disturbs;
    answers := [];
    ghost var m := m0;
    assert ops[0..] == ops;
    for i := 0 to |ops|
      invariant Serves(mem, m) && Undisturbed(ops[i..], mem.cachedPage)
      invariant FlatAnswers(m0, ops) == answers + FlatAnswers(m, ops[i..])
    {
      assert ops[i..][1..] == ops[i + 1..];
      var answer := Perform(mem, m, ops[i]);
      m := FlatStep(m, ops[i]);
      answers := answers + [answer];
    }
    Opened(mem, m);
  }

  /** A map over the cached page is not seen by the fast path: for every such map and
      every word of the page, the word read is the one from before the map, while the
      memory now holds zero there. */
  method ReadAfterMap(mem: Memory, v: Address, size: Address, a: Address) returns (x: nat)
    requires mem.Valid() && mem.Coherent() && mem.Hits(a)
    requires MapStart(v) <= mem.cachedPage < MapEnd(v, size)
    modifies mem, mem.tlb
    ensures x == old(FromBytes(BytesAt(mem.tlb.root, mem.arenas, a, 8)))
    ensures FromBytes(BytesAt(mem.tlb.root, mem.arenas, a, 8)) == 0
  {
    hide *;
    HitPage(mem, a);
    ghost var root0, arenas0 := mem.tlb.root, mem.arenas;
    mem.CoherentHeld();
    mem.CachedWordIsFlat(a);
    Cached(mem, a);
    mem.Map(v, size);
    StillHeld(mem, arenas0);
    Cached(mem, a);
    var ok;
    ok, x := mem.ReadU64Fast(a);
    ZeroedWord(root0, arenas0, mem.tlb.root, mem.arenas, MapStart(v), MapEnd(v, size), a);
  }

  lemma Cached(mem: Memory, a: Address)
    requires mem.CacheHeld() && mem.Hits(a)
    ensures mem.cachedArena < |mem.arenas| && mem.cachedOffset + 0x1000 <= |mem.arenas[mem.cachedArena]|
            && Offset(a) + 8 <= 0x1000
    ensures mem.cachedOffset % 0x1000 == 0
    ensures mem.CachedWord(a) == WordIn(mem.arenas[mem.cachedArena], mem.cachedOffset + Offset(a))
  {
    hide FromBytes;
  }

  function WordIn(arena: Bytes, at: nat): nat
    requires at + 8 <= |arena|
  {
    FromBytes(arena[at..at + 8])
  }

  lemma StillHeld(mem: Memory, arenas0: seq<Bytes>)
    requires arenas0 <= mem.arenas && mem.cachedArena < |arenas0| && mem.cachedOffset % 0x1000 == 0
    requires mem.cachedOffset + 0x1000 <= |arenas0[mem.cachedArena]|
    ensures mem.CacheHeld() && mem.arenas[mem.cachedArena] == arenas0[mem.cachedArena]
  {
  }

  lemma HitPage(mem: Memory, a: Address)
    requires mem.Hits(a)
    ensures PageBase(a) == mem.cachedPage && Offset(a) + 8 <= 0x1000
  {
  }

  lemma ZeroedWord(root0: seq<Node>, arenas0: seq<Bytes>, root: seq<Node>, arenas: seq<Bytes>, start: nat, end: nat,
                   a: Address)
    requires Zeroed(root0, arenas0, root, arenas, start, end) && start % 0x1000 == 0 && end % 0x1000 == 0
    requires start <= PageBase(a) < end && Offset(a) + 8 <= 0x1000
    ensures FromBytes(BytesAt(root, arenas, a, 8)) == 0
  {
    hide ByteAt, FromBytes;
    var s := BytesAt(root, arenas, a, 8);
    forall k | 0 <= k < 8 ensures s[k] == 0 {
      assert start <= Plus(a, k) < end;
      assert s[k] == ByteAt(root, arenas, Plus(a, k));
    }
    ZeroBytes(s);
  }

  lemma {:induction false} ZeroBytes(s: Bytes)
    requires forall k :: 0 <= k < |s| ==> s[k] == 0
    ensures FromBytes(s) == 0
  {
    if s != [] { ZeroBytes(s[1..]); }
  }

  /** Nor does a fast write reach the memory after such a map: it goes to the page that
      was replaced, and every byte of the memory stays as it was. */
  method WriteAfterMap(mem: Memory, v: Address, size: Address, a: Address, x: Address)
    requires mem.Valid() && mem.Coherent() && mem.Hits(a)
    requires MapStart(v) <= mem.cachedPage < MapEnd(v, size)
    modifies mem, mem.tlb
    ensures Zeroed(old(mem.tlb.root), old(mem.arenas), mem.tlb.root, mem.arenas, MapStart(v), MapEnd(v, size))
  {
    hide *;
    HitPage(mem, a);
    ghost var root0, arenas0 := mem.tlb.root, mem.arenas;
    mem.CoherentHeld();
    Cached(mem, a);
    mem.Map(v, size);
    StillHeld(mem, arenas0);
    ghost var arenas1 := mem.arenas;
    StalePatch(mem, a, ToBytes(x, 8));
    var ok := mem.WriteU64Fast(a, x);
    ZeroedStays(root0, arenas0, mem.tlb.root, arenas1, mem.arenas, MapStart(v), MapEnd(v, size));
  }

  lemma StalePatch(mem: Memory, a: Address, data: Bytes)
    requires |data| == 8 && mem.Valid() && mem.CacheHeld() && mem.Hits(a)
             && Unmapped(mem.tlb.root, mem.cachedArena, mem.cachedOffset)
    ensures mem.cachedArena < |mem.arenas| && mem.cachedOffset + 0x1000 <= |mem.arenas[mem.cachedArena]|
            && Offset(a) + 8 <= 0x1000
    ensures SameMemory(mem.tlb.root, mem.arenas, mem.tlb.root,
                       PatchedAt(mem.arenas, mem.cachedArena, mem.cachedOffset + Offset(a), data))
  {
    hide Lookup, WellFormed, Sound, ByteAt, Unmapped, PatchedAt, SameMemory;
    PatchUnmapped(mem.tlb.root, mem.arenas, mem.cachedArena, mem.cachedOffset, Offset(a), data);
  }

  lemma ZeroedStays(root0: seq<Node>, arenas0: seq<Bytes>, root: seq<Node>, arenas1: seq<Bytes>, arenas: seq<Bytes>,
                    start: nat, end: nat)
    requires Zeroed(root0, arenas0, root, arenas1, start, end) && SameMemory(root, arenas1, root, arenas)
    ensures Zeroed(root0, arenas0, root, arenas, start, end)
  {
    hide ByteAt;
  }

  /** Block accesses are no different: after such a map the bytes of the cached page are
      read as they were before it. */
  method ReadBlockAfterMap(mem: Memory, v: Address, size: Address, a: Address, n: nat) returns (ok: bool, s: Bytes)
    requires mem.Valid() && mem.Coherent() && PageBase(a) == mem.cachedPage && 0 < n && Offset(a) + n <= 0x1000
    requires MapStart(v) <= mem.cachedPage < MapEnd(v, size)
    modifies mem, mem.tlb
    ensures ok && s == old(BytesAt(mem.tlb.root, mem.arenas, a, n))
    ensures Zeroed(old(mem.tlb.root), old(mem.arenas), mem.tlb.root, mem.arenas, MapStart(v), MapEnd(v, size))
  {
    hide *;
    ghost var root0, arenas0 := mem.tlb.root, mem.arenas;
    mem.CoherentHeld();
    mem.SeenIsFlat(a, n);
    CachedBlock(mem, a, n);
    mem.Map(v, size);
    StillHeld(mem, arenas0);
    CachedBlock(mem, a, n);
    ghost var root1, arenas1 := mem.tlb.root, mem.arenas;
    NoBytesRefused(root1, Plus(a, n));
    ok, s := mem.ReadBytes(a, n);
    ZeroedSeen(root0, arenas0, root1, arenas1, mem.tlb.root, mem.arenas, MapStart(v), MapEnd(v, size));
  }

  /** An access inside the cached page sees that page only. */
  lemma CachedBlock(mem: Memory, a: Address, n: nat)
    requires mem.Valid() && mem.CacheHeld() && PageBase(a) == mem.cachedPage && 0 < n && Offset(a) + n <= 0x1000
    ensures mem.FromCache(a, n) == n && mem.cachedPage != NO_PAGE
    ensures mem.cachedArena < |mem.arenas| && mem.cachedOffset % 0x1000 == 0
            && mem.cachedOffset + 0x1000 <= |mem.arenas[mem.cachedArena]|
    ensures var from := mem.cachedOffset + Offset(a); mem.Seen(a, n) == mem.arenas[mem.cachedArena][from..from + n]
  {
    hide Lookup, WellFormed, Sound, ByteAt;
  }

  lemma ZeroedSeen(root0: seq<Node>, arenas0: seq<Bytes>, root1: seq<Node>, arenas1: seq<Bytes>, root: seq<Node>,
                   arenas: seq<Bytes>,
                   start: nat, end: nat)
    requires Zeroed(root0, arenas0, root1, arenas1, start, end) && SameMemory(root1, arenas1, root, arenas)
    ensures Zeroed(root0, arenas0, root, arenas, start, end)
  {
    hide ByteAt;
  }

  /** And bytes written to the cached page do not reach the memory. */
  method WriteBlockAfterMap(mem: Memory, v: Address, size: Address, a: Address, data: Bytes) returns (ok: bool)
    requires mem.Valid() && mem.Coherent() && PageBase(a) == mem.cachedPage && data != []
             && Offset(a) + |data| <= 0x1000
    requires MapStart(v) <= mem.cachedPage < MapEnd(v, size)
    modifies mem, mem.tlb
    ensures ok && Zeroed(old(mem.tlb.root), old(mem.arenas), mem.tlb.root, mem.arenas, MapStart(v), MapEnd(v, size))
  {
    hide *;
    ghost var root0, arenas0 := mem.tlb.root, mem.arenas;
    mem.CoherentHeld();
    CachedBlock(mem, a, |data|);
    mem.Map(v, size);
    StillHeld(mem, arenas0);
    CachedBlock(mem, a, |data|);
    ghost var root1, arenas1 := mem.tlb.root, mem.arenas;
    StaleBlock(mem, a, data);
    ghost var written := mem.CacheWritten(a, data);
    NoBytesRefused(root1, Plus(a, |data|));
    ok := mem.WriteBytes(a, data);
    assert data[|data|..] == [];
    NothingStored(root0, arenas0, root1, arenas1, written, mem.tlb.root, mem.arenas, MapStart(v), MapEnd(v, size),
                  Plus(a, |data|));
  }

  lemma StaleBlock(mem: Memory, a: Address, data: Bytes)
    requires mem.Valid() && mem.CacheHeld() && mem.cachedPage != NO_PAGE && mem.FromCache(a, |data|) == |data| > 0
    requires Unmapped(mem.tlb.root, mem.cachedArena, mem.cachedOffset)
    ensures SameMemory(mem.tlb.root, mem.arenas, mem.tlb.root, mem.CacheWritten(a, data))
  {
    hide Lookup, WellFormed, Sound, ByteAt, Unmapped, PatchedAt, SameMemory;
    assert data[..|data|] == data;
    PatchUnmapped(mem.tlb.root, mem.arenas, mem.cachedArena, mem.cachedOffset, Offset(a), data);
  }

  lemma NoBytesRefused(root: seq<Node>, at: Address)
    ensures !RefusedFrom(root, at, 0)
  {
  }

  lemma NothingStored(root0: seq<Node>, arenas0: seq<Bytes>, root1: seq<Node>, arenas1: seq<Bytes>, written: seq<Bytes>,
                      root: seq<Node>, arenas: seq<Bytes>, start: nat, end: nat, at: Address)
    requires Zeroed(root0, arenas0, root1, arenas1, start, end) && SameMemory(root1, arenas1, root1, written)
    requires Stored(root1, written, root, arenas, at, [])
    ensures Zeroed(root0, arenas0, root, arenas, start, end)
  {
    hide ByteAt, Distance;
  }

  /** A map of the last page of the address space registers nothing: a word written there
      before is still read after it, where the flat memory has zero. */
  method LastPageRun() returns (x: nat, ghost flat: nat)
    ensures x == 1 && flat == 0
  {
    hide *;
    var last: Address := LAST_PAGE;
    LastPageRange();
    LastPageEnd();
    var mem := new Memory();
    ghost var m: FlatMemory := (a: Address) => 0;
    FreshServes(mem, m);
    PerformWrite64(mem, m, last, 1);
    m := FlatStore(m, last, ToBytes(1, 8));
    var _ := PerformRead64(mem, m, 0);
    ghost var root0, arenas0 := mem.tlb.root, mem.arenas;
    Opened(mem, m);
    mem.Map(last, 0x1000);
    EmptyRange(m, root0, arenas0, mem.tlb.root, mem.arenas, last);
    MapRefusesNothing(root0, mem.tlb.root, MapStart(last), MapEnd(last, 0x1000));
    Opened(mem, m);
    x := PerformRead64(mem, m, last);
    FlatRoundTrip(last, 1);
    flat := FromBytes(FlatBytes(FlatStep(m, MapPages(last, 0x1000)), last, 8));
    FlatLastPage(m);
  }

  const LAST_PAGE: Address := 0xFFFF_FFFF_FFFF_F000

  lemma LastPageRange()
    ensures MapStart(LAST_PAGE) == LAST_PAGE && RangeEnd(LAST_PAGE, 0x1000) == 0x1_0000_0000_0000_0000
    ensures forall b: Address :: LAST_PAGE <= b ==> Touches(LAST_PAGE, 0x1000, b)
  {
  }

  /** The rounded end of the last page is 0. */
  lemma LastPageEnd()
    ensures MapEnd(LAST_PAGE, 0x1000) == 0
  {
    assert (LAST_PAGE + 0x1000 + 0xFFF) % 0x1_0000_0000_0000_0000 == 0xFFF;
  }

  lemma PlusInside(v: Address, k: nat)
    requires v + k < 0x1_0000_0000_0000_0000
    ensures Plus(v, k) == v + k
  {
  }

  lemma FreshServes(mem: Memory, m: FlatMemory)
    requires mem.Valid() && mem.Coherent() && m == ((a: Address) => 0)
    requires forall a: Address :: ByteAt(mem.tlb.root, mem.arenas, a) == 0 && !Refused(Lookup(mem.tlb.root, a))
    ensures Serves(mem, m)
  {
    hide ByteAt, Lookup, Refused, Memory.Valid, Memory.Caches;
  }

  /** An empty range zeroes nothing. */
  lemma EmptyRange(m: FlatMemory, root0: seq<Node>, arenas0: seq<Bytes>, root: seq<Node>, arenas: seq<Bytes>,
                   last: Address)
    requires Agrees(m, root0, arenas0) && Zeroed(root0, arenas0, root, arenas, last, 0)
    ensures Agrees(m, root, arenas)
  {
    hide ByteAt;
  }

  lemma FlatRoundTrip(v: Address, x: Address)
    ensures FromBytes(FlatBytes(FlatStore((a: Address) => 0, v, ToBytes(x, 8)), v, 8)) == x
  {
    hide ToBytes, FromBytes, Plus, Distance;
    var data := ToBytes(x, 8);
    var s := FlatBytes(FlatStore((a: Address) => 0, v, data), v, 8);
    forall k | 0 <= k < 8 ensures s[k] == data[k] { DistanceOfPlus(v, k); }
    assert s == data;
    WordOfBytes(x);
  }

  lemma FlatLastPage(m: FlatMemory)
    ensures FromBytes(FlatBytes(FlatStep(m, MapPages(LAST_PAGE, 0x1000)), LAST_PAGE, 8)) == 0
  {
    hide FromBytes, Plus, Touches;
    LastPageRange();
    var s := FlatBytes(FlatStep(m, MapPages(LAST_PAGE, 0x1000)), LAST_PAGE, 8);
    forall k | 0 <= k < 8 ensures s[k] == 0 { PlusInside(LAST_PAGE, k); }
    ZeroBytes(s);
  }

  /** So a run with such a map is not a run of the flat memory. */
  method StaleRun() returns (x: nat, flat: nat)
    ensures x == 1 && flat == 0
  {
    hide ToBytes, FromBytes, Lookup, ByteAt, Memory.Caches, Memory.Valid, Memory.Coherent, Stored, Plus, PageBase;
    hide MapStart, MapEnd, BytesAt, RefusedFrom, SameRefusals, Refused;
    StaleAddresses();
    var mem := new Memory();
    ghost var root0, arenas0 := mem.tlb.root, mem.arenas;
    FreshRefusesNothing(mem.tlb.root);
    mem.CoherentHeld();
    var ok := mem.WriteU64Fast(0x1000, 1);
    WordRoundTrip(root0, arenas0, mem.tlb.root, mem.arenas, 0x1000, 1);
    x := ReadAfterMap(mem, 0x1000, 0x1000, 0x1000);
    flat := 0;
    assert flat == FromBytes(BytesAt(mem.tlb.root, mem.arenas, 0x1000, 8));
  }

  lemma StaleAddresses()
    ensures PageBase(Plus(0x1000, 7)) == 0x1000 == MapStart(0x1000) && MapEnd(0x1000, 0x1000) == 0x2000
  {
  }

  lemma FreshRefusesNothing(root: seq<Node>)
    requires NoRefusals(root)
    ensures !RefusedFrom(root, 0x1000, 8)
  {
    NothingRefused(root, 0x1000, 8);
  }
}
